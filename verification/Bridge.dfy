/** Mirroring a published set: subscribe first, then read a snapshot, then replay
    what was published since. Publishers change the set before they publish each
    change; messages arrive in order. */
module Bridge {
  import opened Lpm
  import B = Bytes
  import N = Normalize
  import X = Xdp

  /** A change to the published set, as text that stands for a raw prefix. */
  datatype Op<Raw> = Op(add: bool, raw: Raw)

  function ApplyRaw<Raw>(s: set<Raw>, op: Op<Raw>): (r: set<Raw>) {
    if op.add then s + {op.raw} else s - {op.raw}
  }

  /** What the mirror does with a message: rejected prefixes are ignored. */
  function ApplyKey<Raw, Key>(norm: Raw -> Option<Key>, s: set<Key>, op: Op<Raw>): (r: set<Key>) {
    match norm(op.raw)
    case None => s
    case Some(k) => if op.add then s + {k} else s - {k}
  }

  /** The accepted prefixes of a set, as the kernel keys they become. */
  function Image<Raw, Key>(norm: Raw -> Option<Key>, s: set<Raw>): (r: set<Key>) {
    set raw | raw in s && norm(raw).Some? :: norm(raw).value
  }

  /** `pending`: applied to the set but not yet published. `inbox`: published since the
      subscription and not yet applied to the mirror. */
  datatype Sys<Raw, Key> = Sys(published: set<Raw>, pending: seq<Op<Raw>>, subscribed: bool, seeded: bool,
                               inbox: seq<Op<Raw>>, mirror: set<Key>)

  datatype Action<Raw> = Update(op: Op<Raw>) | Publish | Subscribe | Snapshot | Deliver

  function Do<Raw, Key>(norm: Raw -> Option<Key>, s: Sys<Raw, Key>, a: Action<Raw>): (r: Sys<Raw, Key>) {
    match a
    case Update(op) => s.(published := ApplyRaw(s.published, op), pending := s.pending + [op])
    case Publish =>
      if s.pending == [] then s
      else s.(pending := s.pending[1..], inbox := if s.subscribed then s.inbox + [s.pending[0]] else s.inbox)
    case Subscribe => s.(subscribed := true)
    case Snapshot =>
      if !s.subscribed || s.seeded then s else s.(seeded := true, mirror := Image(norm, s.published))
    case Deliver =>
      if !s.seeded || s.inbox == [] then s
      else s.(inbox := s.inbox[1..], mirror := ApplyKey(norm, s.mirror, s.inbox[0]))
  }

  function Run<Raw, Key>(norm: Raw -> Option<Key>, start: set<Raw>, acts: seq<Action<Raw>>): (s: Sys<Raw, Key>) {
    if acts == [] then Sys(start, [], false, false, [], {})
    else Do(norm, Run(norm, start, acts[..|acts| - 1]), acts[|acts| - 1])
  }

  ghost predicate Uses<Raw(!new)>(universe: iset<Raw>, start: set<Raw>, acts: seq<Action<Raw>>) {
    && (forall raw :: raw in start ==> raw in universe)
    && (forall i :: 0 <= i < |acts| && acts[i].Update? ==> acts[i].op.raw in universe)
  }

  /** Everything published has been seen. */
  predicate Quiet<Raw, Key>(s: Sys<Raw, Key>) {
    s.seeded && s.pending == [] && s.inbox == []
  }

  /** No two prefixes of the universe are accepted as the same key. */
  ghost predicate OneNamePerKey<Raw(!new), Key>(norm: Raw -> Option<Key>, universe: iset<Raw>) {
    forall a, b :: a in universe && b in universe && norm(a).Some? && norm(a) == norm(b) ==> a == b
  }

  // ---- What every interleaving keeps ----

  function Queue<Raw, Key>(s: Sys<Raw, Key>): (q: seq<Op<Raw>>) { s.inbox + s.pending }

  ghost predicate Touches<Raw>(q: seq<Op<Raw>>, raw: Raw) {
    exists i :: 0 <= i < |q| && q[i].raw == raw
  }

  /** The last change to a prefix still under way agrees with the set. */
  ghost predicate LastAgrees<Raw(!new)>(q: seq<Op<Raw>>, s: set<Raw>) {
    forall i :: 0 <= i < |q| && !Touches(q[i + 1..], q[i].raw) ==> (q[i].add <==> q[i].raw in s)
  }

  ghost predicate TouchesKey<Raw, Key>(norm: Raw -> Option<Key>, q: seq<Op<Raw>>, k: Key) {
    exists i :: 0 <= i < |q| && norm(q[i].raw) == Some(k)
  }

  /** Keys with no change under way are already right in the mirror. */
  ghost predicate SettledAgree<Raw(!new), Key(!new)>(norm: Raw -> Option<Key>, s: Sys<Raw, Key>) {
    s.seeded ==> forall k :: !TouchesKey(norm, Queue(s), k) ==> (k in s.mirror <==> k in Image(norm, s.published))
  }

  ghost predicate Inv<Raw(!new), Key(!new)>(norm: Raw -> Option<Key>, universe: iset<Raw>, s: Sys<Raw, Key>) {
    && (s.inbox != [] ==> s.subscribed) && (s.seeded ==> s.subscribed)
    && (forall raw :: raw in s.published ==> raw in universe)
    && (forall i :: 0 <= i < |Queue(s)| ==> Queue(s)[i].raw in universe)
    && LastAgrees(Queue(s), s.published)
    && SettledAgree(norm, s)
  }

  lemma LastAgreesTail<Raw(!new)>(q: seq<Op<Raw>>, s: set<Raw>)
    requires LastAgrees(q, s) && q != []
    ensures LastAgrees(q[1..], s)
  {
    forall i | 0 <= i < |q[1..]| && !Touches(q[1..][i + 1..], q[1..][i].raw)
      ensures q[1..][i].add <==> q[1..][i].raw in s
    {
      assert q[1..][i + 1..] == q[i + 2..];
    }
  }

  lemma TouchesGrows<Raw>(q: seq<Op<Raw>>, op: Op<Raw>, raw: Raw)
    ensures Touches(q + [op], raw) <==> Touches(q, raw) || op.raw == raw
  {
    assert (q + [op])[|q|] == op;
    assert forall i :: 0 <= i < |q| ==> (q + [op])[i] == q[i];
  }

  lemma TouchesKeyGrows<Raw, Key>(norm: Raw -> Option<Key>, q: seq<Op<Raw>>, op: Op<Raw>, k: Key)
    ensures TouchesKey(norm, q + [op], k) <==> TouchesKey(norm, q, k) || norm(op.raw) == Some(k)
  {
    assert (q + [op])[|q|] == op;
    assert forall i :: 0 <= i < |q| ==> (q + [op])[i] == q[i];
  }

  lemma TouchNamesKey<Raw, Key>(norm: Raw -> Option<Key>, q: seq<Op<Raw>>, raw: Raw, k: Key)
    requires norm(raw) == Some(k)
    ensures Touches(q, raw) ==> TouchesKey(norm, q, k)
  {
  }

  lemma LastAgreesSnoc<Raw(!new)>(q: seq<Op<Raw>>, s: set<Raw>, op: Op<Raw>)
    requires LastAgrees(q, s)
    ensures LastAgrees(q + [op], ApplyRaw(s, op))
  {
    var q' := q + [op];
    forall i | 0 <= i < |q'| && !Touches(q'[i + 1..], q'[i].raw) ensures q'[i].add <==> q'[i].raw in ApplyRaw(s, op) {
      if i < |q| {
        assert q'[i + 1..] == q[i + 1..] + [op];
        assert q'[i + 1..][|q| - i - 1] == op;
        TouchesGrows(q[i + 1..], op, q[i].raw);
      }
    }
  }

  lemma UpdateKeeps<Raw(!new), Key(!new)>(norm: Raw -> Option<Key>, universe: iset<Raw>, s: Sys<Raw, Key>, op: Op<Raw>)
    requires Inv(norm, universe, s) && op.raw in universe
    ensures Inv(norm, universe, Do(norm, s, Update(op)))
  {
    hide LastAgrees;
    var s' := Do(norm, s, Update(op));
    assert Queue(s') == Queue(s) + [op];
    LastAgreesSnoc(Queue(s), s.published, op);
    if s.seeded {
      forall k | !TouchesKey(norm, Queue(s'), k) ensures k in s'.mirror <==> k in Image(norm, s'.published) {
        assert Queue(s')[|Queue(s)|] == op;
        TouchesKeyGrows(norm, Queue(s), op, k);
      }
    }
  }

  /** Delivering the head of the queue: its key is settled by the last message that names it. */
  lemma DeliverKeeps<Raw(!new), Key(!new)>(norm: Raw -> Option<Key>, universe: iset<Raw>, s: Sys<Raw, Key>)
    requires Inv(norm, universe, s) && OneNamePerKey(norm, universe) && s.seeded && s.inbox != []
    ensures Inv(norm, universe, Do(norm, s, Deliver))
  {
    var s', head, q := Do(norm, s, Deliver), s.inbox[0], Queue(s);
    assert q[0] == head && Queue(s') == q[1..];
    LastAgreesTail(q, s.published);
    forall k | !TouchesKey(norm, q[1..], k) ensures k in s'.mirror <==> k in Image(norm, s.published) {
      if norm(head.raw) == Some(k) {
        TouchNamesKey(norm, q[1..], head.raw, k);
        assert head.add <==> head.raw in s.published;
        ImageByName(norm, universe, s.published, head.raw);
      } else {
        UntouchedWhole(norm, q, k);
      }
    }
  }

  lemma ImageByName<Raw(!new), Key(!new)>(norm: Raw -> Option<Key>, universe: iset<Raw>, s: set<Raw>, raw: Raw)
    requires OneNamePerKey(norm, universe) && raw in universe && norm(raw).Some?
    requires forall x :: x in s ==> x in universe
    ensures norm(raw).value in Image(norm, s) <==> raw in s
  {
  }

  lemma UntouchedWhole<Raw(!new), Key(!new)>(norm: Raw -> Option<Key>, q: seq<Op<Raw>>, k: Key)
    requires q != [] && norm(q[0].raw) != Some(k) && !TouchesKey(norm, q[1..], k)
    ensures !TouchesKey(norm, q, k)
  {
    assert forall i :: 1 <= i < |q| ==> q[i] == q[1..][i - 1];
  }

  lemma PublishKeeps<Raw(!new), Key(!new)>(norm: Raw -> Option<Key>, universe: iset<Raw>, s: Sys<Raw, Key>)
    requires Inv(norm, universe, s)
    ensures Inv(norm, universe, Do(norm, s, Publish))
  {
    hide LastAgrees;
    if s.pending != [] {
      var s' := Do(norm, s, Publish);
      if s.subscribed {
        assert Queue(s') == Queue(s);
      } else {
        assert Queue(s) == s.pending && Queue(s') == s.pending[1..];
        LastAgreesTail(Queue(s), s.published);
      }
    }
  }

  lemma StepKeeps<Raw(!new), Key(!new)>(norm: Raw -> Option<Key>, universe: iset<Raw>, s: Sys<Raw, Key>, a: Action<Raw>)
    requires Inv(norm, universe, s) && OneNamePerKey(norm, universe) && (a.Update? ==> a.op.raw in universe)
    ensures Inv(norm, universe, Do(norm, s, a))
  {
    match a
    case Update(op) => UpdateKeeps(norm, universe, s, op);
    case Publish => PublishKeeps(norm, universe, s);
    case Subscribe => assert Queue(Do(norm, s, a)) == Queue(s);
    case Snapshot => assert Queue(Do(norm, s, a)) == Queue(s);
    case Deliver => if s.seeded && s.inbox != [] { DeliverKeeps(norm, universe, s); }
  }

  lemma {:induction false} RunKeeps<Raw(!new), Key(!new)>(norm: Raw -> Option<Key>, universe: iset<Raw>,
                                                          start: set<Raw>, acts: seq<Action<Raw>>)
    requires OneNamePerKey(norm, universe) && Uses(universe, start, acts)
    ensures Inv(norm, universe, Run(norm, start, acts))
  {
    if acts != [] {
      RunKeeps(norm, universe, start, acts[..|acts| - 1]);
      StepKeeps(norm, universe, Run(norm, start, acts[..|acts| - 1]), acts[|acts| - 1]);
    }
  }

  ghost predicate Converges<Raw(!new), Key(!new)>(norm: Raw -> Option<Key>, universe: iset<Raw>) {
    forall start: set<Raw>, acts: seq<Action<Raw>> ::
      Uses(universe, start, acts) && Quiet(Run(norm, start, acts)) ==>
        Run(norm, start, acts).mirror == Image(norm, Run(norm, start, acts).published)
  }

  lemma QuietAgrees<Raw(!new), Key(!new)>(norm: Raw -> Option<Key>, universe: iset<Raw>, s: Sys<Raw, Key>)
    requires Inv(norm, universe, s) && Quiet(s)
    ensures s.mirror == Image(norm, s.published)
  {
    assert Queue(s) == [];
    assert forall k :: !TouchesKey(norm, Queue(s), k);
  }

  // ---- Two names for one key break it ----

  lemma RunSend<Raw(!new), Key(!new)>(norm: Raw -> Option<Key>, start: set<Raw>, acts: seq<Action<Raw>>, op: Op<Raw>)
    requires Quiet(Run(norm, start, acts)) && Run(norm, start, acts).subscribed
    ensures var s, s' := Run(norm, start, acts), Run(norm, start, acts + [Update(op), Publish, Deliver]);
      s' == s.(published := ApplyRaw(s.published, op), mirror := ApplyKey(norm, s.mirror, op))
  {
    var s := Run(norm, start, acts);
    var one, two := acts + [Update(op)], acts + [Update(op), Publish];
    var three := acts + [Update(op), Publish, Deliver];
    assert one[..|one| - 1] == acts && two[..|two| - 1] == one && three[..|three| - 1] == two;
    var s1 := Do(norm, s, Update(op));
    assert Run(norm, start, one) == s1 && s1.pending == [op];
    var s2 := Do(norm, s1, Publish);
    assert Run(norm, start, two) == s2 && s2.inbox == [op] && s2.pending == [];
    assert Run(norm, start, three) == Do(norm, s2, Deliver);
  }

  lemma TwoNamesDiverge<Raw(!new), Key(!new)>(norm: Raw -> Option<Key>, universe: iset<Raw>, a: Raw, b: Raw)
    requires a in universe && b in universe && a != b && norm(a).Some? && norm(a) == norm(b)
    ensures !Converges(norm, universe)
  {
    hide Do, Run;
    var acts0: seq<Action<Raw>> := [Subscribe, Snapshot];
    RunStart(norm);
    var acts1 := acts0 + [Update(Op(true, a)), Publish, Deliver];
    RunSend(norm, {}, acts0, Op(true, a));
    var acts2 := acts1 + [Update(Op(true, b)), Publish, Deliver];
    RunSend(norm, {}, acts1, Op(true, b));
    var acts3 := acts2 + [Update(Op(false, a)), Publish, Deliver];
    RunSend(norm, {}, acts2, Op(false, a));
    var s := Run(norm, {}, acts3);
    assert b in s.published && s.mirror == {};
    assert norm(b).value in Image(norm, s.published);
    assert Uses(universe, {}, acts3);
  }

  lemma RunStart<Raw, Key>(norm: Raw -> Option<Key>)
    ensures Run(norm, {}, [Subscribe, Snapshot]) == Sys({}, [], true, true, [], {})
  {
    var acts: seq<Action<Raw>> := [Subscribe, Snapshot];
    assert acts[..1] == [Subscribe] && acts[..1][..0] == [];
    assert Run(norm, {}, acts[..1]) == Sys({}, [], true, false, [], {});
    assert Image(norm, {}) == {};
  }

  /** The mirror ends as exactly the accepted prefixes of the final set, in every interleaving,
      precisely when no two publishable prefixes are accepted as one key. */
  lemma ConvergesIff<Raw(!new), Key(!new)>(norm: Raw -> Option<Key>, universe: iset<Raw>)
    ensures Converges(norm, universe) <==> OneNamePerKey(norm, universe)
  {
    if OneNamePerKey(norm, universe) {
      forall start: set<Raw>, acts: seq<Action<Raw>> | Uses(universe, start, acts) && Quiet(Run(norm, start, acts))
        ensures Run(norm, start, acts).mirror == Image(norm, Run(norm, start, acts).published)
      {
        RunKeeps(norm, universe, start, acts);
        QuietAgrees(norm, universe, Run(norm, start, acts));
      }
    } else {
      var a, b :| a in universe && b in universe && norm(a).Some? && norm(a) == norm(b) && a != b;
      TwoNamesDiverge(norm, universe, a, b);
    }
  }

  // ---- The XDP blocklist: a set of texts ----

  /** What a published text stands for in the mirror: the prefix the loader accepts it as. */
  ghost function Reader(c: N.Config, parse: string -> Option<N.Net>): (f: string -> Option<N.Net>)
    requires N.ValidConfig(c) && X.ParserOk(parse)
  {
    text => if X.Accepts(c, parse, text) then Some(N.RustNormalize(c, parse(text).value).net) else None
  }

  /** The texts are accepted as one and the same prefix. */
  ghost predicate SamePrefix(c: N.Config, parse: string -> Option<N.Net>, a: string, b: string)
    requires N.ValidConfig(c) && X.ParserOk(parse)
  {
    && X.Accepts(c, parse, a) && X.Accepts(c, parse, b)
    && N.RustNormalize(c, parse(a).value).net == N.RustNormalize(c, parse(b).value).net
  }

  /** A blocklist of texts is mirrored exactly, in every interleaving, if and only if no two of the
      texts published are accepted as the same prefix. */
  lemma BlocklistConvergesIff(c: N.Config, parse: string -> Option<N.Net>, texts: iset<string>)
    requires N.ValidConfig(c) && X.ParserOk(parse)
    ensures Converges(Reader(c, parse), texts) <==>
      forall a, b :: a in texts && b in texts && SamePrefix(c, parse, a, b) ==> a == b
  {
    hide N.RustNormalize;
    ConvergesIff(Reader(c, parse), texts);
    var f := Reader(c, parse);
    assert forall a, b :: SamePrefix(c, parse, a, b) <==> f(a).Some? && f(a) == f(b);
  }

  /** Prefixes in canonical form: host bits zero and IPv4 not written as mapped IPv6. */
  ghost predicate CanonicalForm(n: N.Net) {
    N.ValidNet(n) && N.Masked(n) == n && !N.IsMapped(n)
  }

  /** So is one that writes each prefix in canonical form and in one way. */
  lemma CanonicalConverges(c: N.Config, parse: string -> Option<N.Net>, texts: iset<string>)
    requires N.ValidConfig(c) && X.ParserOk(parse)
    requires forall t :: t in texts && parse(t).Some? ==> CanonicalForm(parse(t).value)
    requires forall a, b :: a in texts && b in texts && parse(a).Some? && parse(a) == parse(b) ==> a == b
    ensures Converges(Reader(c, parse), texts)
  {
    forall a, b | a in texts && b in texts && SamePrefix(c, parse, a, b) ensures a == b {
      CanonicalIsKept(c, parse(a).value);
      CanonicalIsKept(c, parse(b).value);
    }
    BlocklistConvergesIff(c, parse, texts);
  }

  lemma CanonicalIsKept(c: N.Config, n: N.Net)
    requires N.ValidConfig(c) && CanonicalForm(n)
    ensures N.RustNormalize(c, n).Accept? ==> N.RustNormalize(c, n).net == n
  {
  }

  /** One that writes an accepted prefix in two ways, say with and without its /32, is not. */
  lemma SecondSpellingDiverges(c: N.Config, parse: string -> Option<N.Net>, texts: iset<string>, a: string, b: string)
    requires N.ValidConfig(c) && X.ParserOk(parse) && a in texts && b in texts && a != b
    requires parse(a) == parse(b) && X.Accepts(c, parse, a)
    ensures !Converges(Reader(c, parse), texts)
  {
    TwoNamesDiverge(Reader(c, parse), texts, a, b);
  }

  /** A message changes the entries of the real maps as the mirror's step says, whatever its text. */
  lemma MessageIsStep(c: N.Config, parse: string -> Option<N.Net>, s: X.Maps, op: Op<string>)
    requires N.ValidConfig(c) && X.ParserOk(parse)
    ensures X.AfterEvent(c, parse, s, [if op.add then "add" else "del", op.raw]).entries ==
      ApplyKey(Reader(c, parse), s.entries, op)
  {
    hide N.RustNormalize;
    assert "add" != "del" by { assert "add"[0] != "del"[0]; }
  }

  /** Seeding the real maps lists exactly the image of the snapshot. */
  lemma {:induction false} SeedIsImage(c: N.Config, parse: string -> Option<N.Net>, items: seq<string>)
    requires N.ValidConfig(c) && X.ParserOk(parse)
    ensures X.AfterSeed(c, parse, X.EMPTY, items).entries == Image(Reader(c, parse), (set t | t in items))
  {
    hide N.RustNormalize;
    var f := Reader(c, parse);
    if items == [] {
      assert (set t | t in items) == {};
      assert Image(f, {}) == {};
    } else {
      var init, last := items[..|items| - 1], items[|items| - 1];
      SeedIsImage(c, parse, init);
      MessageIsStep(c, parse, X.AfterSeed(c, parse, X.EMPTY, init), Op(true, last));
      ImageSnoc(f, (set t | t in init), last);
      assert items == init + [last];
      assert (set t | t in items) == (set t | t in init) + {last};
    }
  }

  lemma ImageSnoc<Raw, Key>(f: Raw -> Option<Key>, raws: set<Raw>, raw: Raw)
    ensures Image(f, raws + {raw}) == ApplyKey(f, Image(f, raws), Op(true, raw))
  {
  }

  // ---- From published texts to dropped packets ----

  /** The text is a prefix that stands for the address, is long enough and touches nothing protected. */
  ghost predicate Blocks(c: N.Config, parse: string -> Option<N.Net>, text: string, v6: bool, addr: Bits)
    requires N.ValidConfig(c) && X.ParserOk(parse)
  {
    && parse(text).Some?
    && N.LongEnough(c, parse(text).value) && !N.HitsProtected(c, parse(text).value)
    && N.StandsFor(parse(text).value, v6, addr)
  }

  lemma ReadBlocks(c: N.Config, parse: string -> Option<N.Net>, text: string, v6: bool, addr: Bits)
    requires N.ValidConfig(c) && X.ParserOk(parse) && |addr| == N.Width(v6)
    ensures var r := Reader(c, parse)(text); r.Some? && N.InNet(r.value, v6, addr) <==> Blocks(c, parse, text, v6, addr)
  {
    hide N.RustNormalize, N.LongEnough, N.HitsProtected, N.StandsFor;
    if parse(text).Some? {
      N.AcceptedIff(c, parse(text).value);
      var r := N.RustNormalize(c, parse(text).value);
      if r.Accept? { assert N.InNet(r.net, v6, addr) <==> N.InRange(r.net, v6, addr); }
    }
  }

  /** A loader seeded with the texts drops exactly the packets whose source one of them stands for. */
  method SeededVerdict(c: N.Config, parse: string -> Option<N.Net>, items: seq<string>, packet: seq<B.Byte>)
      returns (v: X.Verdict)
    requires N.ValidConfig(c) && X.ParserOk(parse)
    ensures v.action == X.Drop <==>
      && X.Source(packet).Some?
      && exists i :: 0 <= i < |items| && Blocks(c, parse, items[i], X.Source(packet).value.0, X.Source(packet).value.1)
  {
    hide Blocks, N.InNet, N.RustNormalize, X.AfterEvent, X.Accepts;
    v := X.DecideAfter(c, parse, items, [], packet);
    ghost var src, f := X.Source(packet), Reader(c, parse);
    SeedIsImage(c, parse, items);
    if src.Some? {
      SourceWidth(packet);
      forall text ensures
        f(text).Some? && N.InNet(f(text).value, src.value.0, src.value.1) <==>
          Blocks(c, parse, text, src.value.0, src.value.1)
      {
        ReadBlocks(c, parse, text, src.value.0, src.value.1);
      }
    }
  }

  lemma SourceWidth(packet: seq<B.Byte>)
    requires X.Source(packet).Some?
    ensures |X.Source(packet).value.1| == N.Width(X.Source(packet).value.0)
  {
  }
}
