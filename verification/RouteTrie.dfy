/** The per-route limiter trie: one node per path segment, `*` as a wildcard segment. */
module RouteTrie {
  import opened Lpm

  const STAR: string := "*"

  // ---- Paths ----

  /** The non-empty pieces between slashes; `cur` is the piece being read. */
  function SplitFrom(path: string, cur: string): (segs: seq<string>)
    decreases |path|
  {
    var flushed := if cur == "" then [] else [cur];
    if path == "" then flushed
    else if path[0] == '/' then flushed + SplitFrom(path[1..], "")
    else SplitFrom(path[1..], cur + [path[0]])
  }

  function SplitPath(path: string): (segs: seq<string>) { SplitFrom(path, "") }

  predicate IsSegment(s: string) { s != "" && '/' !in s }

  function Join(segs: seq<string>): (path: string) {
    if segs == [] then "" else Join(segs[..|segs| - 1]) + "/" + segs[|segs| - 1]
  }

  lemma {:induction false} SplitWord(w: string, rest: string, cur: string)
    requires '/' !in w
    ensures SplitFrom(w + rest, cur) == SplitFrom(rest, cur + w)
    decreases |w|
  {
    if w == "" {
      assert w + rest == rest && cur + w == cur;
    } else {
      assert (w + rest)[1..] == w[1..] + rest && cur + w == cur + [w[0]] + w[1..];
      SplitWord(w[1..], rest, cur + [w[0]]);
    }
  }

  /** A slash separates: with the pieces of slash-free text this determines every split,
      doubled, leading and trailing slashes included. */
  lemma {:induction false} SplitAtSlash(a: string, b: string, cur: string)
    ensures SplitFrom(a + "/" + b, cur) == SplitFrom(a, cur) + SplitFrom(b, "")
    decreases |a|
  {
    var path := a + "/" + b;
    if a == "" {
      assert path[0] == '/' && path[1..] == b;
    } else {
      assert path[0] == a[0] && path[1..] == a[1..] + "/" + b;
      SplitAtSlash(a[1..], b, if a[0] == '/' then "" else cur + [a[0]]);
      if a[0] == '/' {
        var flushed := if cur == "" then [] else [cur];
        var x, y := SplitFrom(a[1..], ""), SplitFrom(b, "");
        assert flushed + (x + y) == flushed + x + y;
      }
    }
  }

  lemma SplitPlain(w: string)
    requires '/' !in w
    ensures SplitPath(w) == if w == "" then [] else [w]
  {
    SplitWord(w, "", "");
    assert w + "" == w && "" + w == w;
  }

  /** Splitting undoes joining, so every list of segments is some path's. */
  lemma {:induction false} SplitJoin(segs: seq<string>)
    requires forall i :: 0 <= i < |segs| ==> IsSegment(segs[i])
    ensures SplitPath(Join(segs)) == segs
  {
    if segs != [] {
      var init, last := segs[..|segs| - 1], segs[|segs| - 1];
      SplitJoin(init);
      SplitAtSlash(Join(init), last, "");
      SplitPlain(last);
      assert init + [last] == segs;
    }
  }

  // ---- The trie ----

  /** Method "" holds the limiter for all methods. */
  datatype Node<L> = Node(children: map<string, Node<L>>, limiters: map<string, L>)

  function Blank<L>(): (n: Node<L>) { Node(map[], map[]) }

  function KidOrBlank<L>(n: Node<L>, seg: string): (k: Node<L>) {
    if seg in n.children then n.children[seg] else Blank()
  }

  /** Stores `l` under every key at the end of the path, creating missing nodes. */
  function Extend<L>(n: Node<L>, segs: seq<string>, keys: seq<string>, l: L): (r: Node<L>)
    decreases |segs|
  {
    if segs == [] then
      n.(limiters := map k | k in n.limiters.Keys + (set x | x in keys) :: if k in keys then l else n.limiters[k])
    else
      n.(children := n.children[segs[0] := Extend(KidOrBlank(n, segs[0]), segs[1..], keys, l)])
  }

  /** Method-specific first, then the catch-all. */
  function Lookup<L>(n: Node<L>, m: string): (r: Option<L>) {
    if m in n.limiters then Some(n.limiters[m])
    else if "" in n.limiters then Some(n.limiters[""])
    else None
  }

  /** What is stored for exactly a pattern and a key. */
  function Stored<L>(n: Node<L>, pat: seq<string>, key: string): (r: Option<L>)
    decreases |pat|
  {
    if pat == [] then (if key in n.limiters then Some(n.limiters[key]) else None)
    else if pat[0] in n.children then Stored(n.children[pat[0]], pat[1..], key)
    else None
  }

  lemma StoredBlank<L>(pat: seq<string>, key: string)
    ensures Stored<L>(Blank(), pat, key).None?
  {
  }

  lemma {:induction false} StoredAfterExtend<L>(n: Node<L>, segs: seq<string>, keys: seq<string>, l: L,
                                                pat: seq<string>, key: string)
    ensures Stored(Extend(n, segs, keys, l), pat, key) ==
      if pat == segs && key in keys then Some(l) else Stored(n, pat, key)
    decreases |segs|
  {
    if segs != [] && pat != [] {
      assert pat == [pat[0]] + pat[1..] && segs == [segs[0]] + segs[1..];
      if pat[0] == segs[0] {
        StoredAfterExtend(KidOrBlank(n, segs[0]), segs[1..], keys, l, pat[1..], key);
        StoredBlank<L>(pat[1..], key);
      }
    }
  }

  // ---- Matching ----

  function FromWild<L>(wild: Option<Node<L>>, m: string): (r: Option<L>) {
    match wild
    case None => None
    case Some(w) => Lookup(w, m)
  }

  /** The walk from `n`, given the last wildcard node passed. */
  function Match<L>(n: Node<L>, segs: seq<string>, wild: Option<Node<L>>, m: string): (r: Option<L>)
    decreases |segs|
  {
    if segs == [] then
      var own := Lookup(n, m);
      if own.Some? then own else FromWild(wild, m)
    else
      var wild' := if STAR in n.children then Some(n.children[STAR]) else wild;
      if segs[0] in n.children then Match(n.children[segs[0]], segs[1..], wild', m)
      else if STAR in n.children then Match(n.children[STAR], segs[1..], wild', m)
      else FromWild(wild, m)
  }

  /** The pattern fits the leading segments of a path. */
  predicate Fits(pat: seq<string>, segs: seq<string>) {
    |pat| <= |segs| && forall i :: 0 <= i < |pat| ==> pat[i] == STAR || pat[i] == segs[i]
  }

  /** It fits the whole path, or its leading segments with a final wildcard. */
  predicate Matches(pat: seq<string>, segs: seq<string>) {
    Fits(pat, segs) && (|pat| == |segs| || (pat != [] && pat[|pat| - 1] == STAR))
  }

  // ---- Nodes by their patterns ----

  /** The node at the end of a pattern. */
  ghost predicate NodeAt<L>(root: Node<L>, pat: seq<string>, n: Node<L>)
    decreases |pat|
  {
    if pat == [] then n == root else pat[0] in root.children && NodeAt(root.children[pat[0]], pat[1..], n)
  }

  predicate HasNode<L>(root: Node<L>, pat: seq<string>)
    decreases |pat|
  {
    pat == [] || (pat[0] in root.children && HasNode(root.children[pat[0]], pat[1..]))
  }

  lemma {:induction false} NodeAtStored<L>(root: Node<L>, pat: seq<string>, n: Node<L>, key: string)
    requires NodeAt(root, pat, n)
    ensures Stored(root, pat, key) == if key in n.limiters then Some(n.limiters[key]) else None
    decreases |pat|
  {
    if pat != [] { NodeAtStored(root.children[pat[0]], pat[1..], n, key); }
  }

  lemma {:induction false} NodeAtSnoc<L>(root: Node<L>, pat: seq<string>, n: Node<L>, seg: string)
    requires NodeAt(root, pat, n)
    ensures seg in n.children <==> HasNode(root, pat + [seg])
    ensures seg in n.children ==> NodeAt(root, pat + [seg], n.children[seg])
    decreases |pat|
  {
    if pat == [] {
      assert [] + [seg] == [seg];
    } else {
      assert (pat + [seg])[1..] == pat[1..] + [seg];
      NodeAtSnoc(root.children[pat[0]], pat[1..], n, seg);
    }
  }

  lemma {:induction false} HasNodeAfterExtend<L>(n: Node<L>, segs: seq<string>, keys: seq<string>, l: L,
                                                 pat: seq<string>)
    ensures HasNode(Extend(n, segs, keys, l), pat) <==> HasNode(n, pat) || pat <= segs
    decreases |segs|
  {
    if segs != [] && pat != [] && pat[0] == segs[0] {
      HasNodeAfterExtend(KidOrBlank(n, segs[0]), segs[1..], keys, l, pat[1..]);
      assert pat <= segs <==> pat[1..] <= segs[1..] by {
        assert pat == [pat[0]] + pat[1..] && segs == [segs[0]] + segs[1..];
        if pat[1..] <= segs[1..] {
          assert forall i :: 1 <= i < |pat| ==> pat[i] == pat[1..][i - 1] == segs[1..][i - 1] == segs[i];
        }
      }
    }
  }

  // ---- Lists of routes ----

  /** `keys`: the upper-cased methods, or just "" when none were given. */
  datatype Route<L> = Route(pattern: seq<string>, keys: seq<string>, limiter: L)

  function Build<L>(routes: seq<Route<L>>): (n: Node<L>) {
    if routes == [] then Blank() else
      var last := routes[|routes| - 1];
      Extend(Build(routes[..|routes| - 1]), last.pattern, last.keys, last.limiter)
  }

  /** The limiter of the last route inserted for a pattern and key. */
  function Latest<L>(routes: seq<Route<L>>, pat: seq<string>, key: string): (r: Option<L>) {
    if routes == [] then None
    else
      var last := routes[|routes| - 1];
      if last.pattern == pat && key in last.keys then Some(last.limiter)
      else Latest(routes[..|routes| - 1], pat, key)
  }

  /** The limiter a pattern stores for a method: its own, or else the one for all methods. */
  function LimiterAt<L>(routes: seq<Route<L>>, pat: seq<string>, m: string): (r: Option<L>) {
    var own := Latest(routes, pat, m);
    if own.Some? then own else Latest(routes, pat, "")
  }

  /** Some route begins with the pattern. */
  predicate Registered<L>(routes: seq<Route<L>>, pat: seq<string>) {
    pat == [] || exists i :: 0 <= i < |routes| && pat <= routes[i].pattern
  }

  lemma {:induction false} StoredIsLatest<L>(routes: seq<Route<L>>, pat: seq<string>, key: string)
    ensures Stored(Build(routes), pat, key) == Latest(routes, pat, key)
  {
    if routes == [] {
      StoredBlank<L>(pat, key);
    } else {
      var init, last := routes[..|routes| - 1], routes[|routes| - 1];
      StoredIsLatest(init, pat, key);
      StoredAfterExtend(Build(init), last.pattern, last.keys, last.limiter, pat, key);
    }
  }

  lemma {:induction false} HasNodeIff<L>(routes: seq<Route<L>>, pat: seq<string>)
    ensures HasNode(Build(routes), pat) <==> Registered(routes, pat)
  {
    if routes != [] {
      var init, last := routes[..|routes| - 1], routes[|routes| - 1];
      HasNodeIff(init, pat);
      HasNodeAfterExtend(Build(init), last.pattern, last.keys, last.limiter, pat);
      if pat != [] && Registered(init, pat) {
        var i :| 0 <= i < |init| && pat <= init[i].pattern;
        assert pat <= routes[i].pattern;
      }
      if pat != [] && Registered(routes, pat) && !(pat <= last.pattern) {
        var i :| 0 <= i < |routes| && pat <= routes[i].pattern;
        assert pat <= init[i].pattern;
      }
    }
  }

  lemma {:induction false} LatestIsRoute<L>(routes: seq<Route<L>>, pat: seq<string>, key: string) returns (i: nat)
    requires Latest(routes, pat, key).Some?
    ensures i < |routes| && routes[i].pattern == pat && key in routes[i].keys
    ensures Latest(routes, pat, key) == Some(routes[i].limiter)
  {
    var last := routes[|routes| - 1];
    if last.pattern == pat && key in last.keys {
      i := |routes| - 1;
    } else {
      i := LatestIsRoute(routes[..|routes| - 1], pat, key);
    }
  }

  lemma LookupAt<L>(routes: seq<Route<L>>, pat: seq<string>, n: Node<L>, m: string)
    requires NodeAt(Build(routes), pat, n)
    ensures Lookup(n, m) == LimiterAt(routes, pat, m)
  {
    NodeAtStored(Build(routes), pat, n, m);
    NodeAtStored(Build(routes), pat, n, "");
    StoredIsLatest(routes, pat, m);
    StoredIsLatest(routes, pat, "");
  }

  // ---- The exact answer ----

  /** The pattern the walk follows through the whole path: at each segment the literal if some route
      goes on with it, else the wildcard if some route does, else nothing. */
  function Followed<L>(routes: seq<Route<L>>, segs: seq<string>): (at: Option<seq<string>>) {
    if segs == [] then Some([]) else
      var before, seg := Followed(routes, segs[..|segs| - 1]), segs[|segs| - 1];
      if before.None? then None
      else if Registered(routes, before.value + [seg]) then Some(before.value + [seg])
      else if Registered(routes, before.value + [STAR]) then Some(before.value + [STAR])
      else None
  }

  /** The last wildcard some route offers beside or along that way. */
  function LastWildcard<L>(routes: seq<Route<L>>, segs: seq<string>): (w: Option<seq<string>>) {
    if segs == [] then None else
      var init := segs[..|segs| - 1];
      var before := Followed(routes, init);
      if before.Some? && Registered(routes, before.value + [STAR]) then Some(before.value + [STAR])
      else LastWildcard(routes, init)
  }

  function LimiterOf<L>(routes: seq<Route<L>>, pat: Option<seq<string>>, m: string): (r: Option<L>) {
    match pat
    case None => None
    case Some(p) => LimiterAt(routes, p, m)
  }

  /** What the two candidates store, the first one first. */
  function Answer<L>(routes: seq<Route<L>>, segs: seq<string>, m: string): (r: Option<L>) {
    var first := LimiterOf(routes, Followed(routes, segs), m);
    if first.Some? then first else LimiterOf(routes, LastWildcard(routes, segs), m)
  }

  /** The cursors of the walk are the nodes of the two candidates of the segments read. */
  ghost predicate AtCandidates<L>(routes: seq<Route<L>>, read: seq<string>, n: Node<L>, wild: Option<Node<L>>) {
    var at, w := Followed(routes, read), LastWildcard(routes, read);
    && at.Some? && NodeAt(Build(routes), at.value, n)
    && wild.Some? == w.Some? && (w.Some? ==> NodeAt(Build(routes), w.value, wild.value))
  }

  lemma FromWildAt<L>(routes: seq<Route<L>>, read: seq<string>, n: Node<L>, wild: Option<Node<L>>, m: string)
    requires AtCandidates(routes, read, n, wild)
    ensures FromWild(wild, m) == LimiterOf(routes, LastWildcard(routes, read), m)
    ensures Lookup(n, m) == LimiterOf(routes, Followed(routes, read), m)
  {
    hide Lookup, LimiterAt, Followed, LastWildcard, NodeAt, Build;
    LookupAt(routes, Followed(routes, read).value, n, m);
    if wild.Some? { LookupAt(routes, LastWildcard(routes, read).value, wild.value, m); }
  }

  /** Once the way is lost, further segments change neither candidate. */
  lemma {:induction false} LostStays<L>(routes: seq<Route<L>>, segs: seq<string>, k: nat)
    requires k <= |segs| && Followed(routes, segs[..k]).None?
    ensures Followed(routes, segs).None? && LastWildcard(routes, segs) == LastWildcard(routes, segs[..k])
  {
    hide Registered;
    if k == |segs| {
      assert segs[..k] == segs;
    } else {
      assert segs[..|segs| - 1][..k] == segs[..k];
      LostStays(routes, segs[..|segs| - 1], k);
    }
  }

  /** One segment read: the literal child before the wildcard one. */
  lemma OneSegment<L>(routes: seq<Route<L>>, read: seq<string>, seg: string, n: Node<L>, wild: Option<Node<L>>)
    requires AtCandidates(routes, read, n, wild)
    ensures var wild' := if STAR in n.children then Some(n.children[STAR]) else wild;
      if seg in n.children then AtCandidates(routes, read + [seg], n.children[seg], wild')
      else if STAR in n.children then AtCandidates(routes, read + [seg], n.children[STAR], wild')
      else Followed(routes, read + [seg]).None? && LastWildcard(routes, read + [seg]) == LastWildcard(routes, read)
  {
    hide Registered, NodeAt, HasNode, Build;
    var at := Followed(routes, read).value;
    assert (read + [seg])[..|read|] == read;
    NodeAtSnoc(Build(routes), at, n, seg);
    NodeAtSnoc(Build(routes), at, n, STAR);
    HasNodeIff(routes, at + [seg]);
    HasNodeIff(routes, at + [STAR]);
  }

  lemma {:induction false} WalkIsAnswer<L>(routes: seq<Route<L>>, segs: seq<string>, k: nat,
                                           n: Node<L>, wild: Option<Node<L>>, m: string)
    requires k <= |segs| && AtCandidates(routes, segs[..k], n, wild)
    ensures Match(n, segs[k..], wild, m) == Answer(routes, segs, m)
    decreases |segs| - k
  {
    hide AtCandidates, LimiterOf, Followed, LastWildcard, Lookup, FromWild;
    FromWildAt(routes, segs[..k], n, wild, m);
    if k == |segs| {
      assert segs[..k] == segs;
    } else {
      var seg := segs[k];
      assert segs[k..][0] == seg && segs[k..][1..] == segs[k + 1..] && segs[..k] + [seg] == segs[..k + 1];
      OneSegment(routes, segs[..k], seg, n, wild);
      var wild' := if STAR in n.children then Some(n.children[STAR]) else wild;
      if seg in n.children {
        WalkIsAnswer(routes, segs, k + 1, n.children[seg], wild', m);
      } else if STAR in n.children {
        WalkIsAnswer(routes, segs, k + 1, n.children[STAR], wild', m);
      } else {
        LostStays(routes, segs, k + 1);
        assert LimiterOf(routes, Followed(routes, segs), m).None? by { NoPattern(routes, m); }
      }
    }
  }

  lemma NoPattern<L>(routes: seq<Route<L>>, m: string)
    ensures LimiterOf(routes, None, m).None?
  {
  }

  /** For every list of routes, path and method: the walk answers what its two candidates store. */
  lemma MatchIsAnswer<L>(routes: seq<Route<L>>, segs: seq<string>, m: string)
    ensures Match(Build(routes), segs, None, m) == Answer(routes, segs, m)
  {
    assert segs[0..] == segs && segs[..0] == [];
    WalkIsAnswer(routes, segs, 0, Build(routes), None, m);
  }

  /** Both candidates are patterns that match the path. */
  lemma {:induction false} CandidatesMatch<L>(routes: seq<Route<L>>, segs: seq<string>)
    ensures var at := Followed(routes, segs); at.Some? ==> |at.value| == |segs| && Fits(at.value, segs)
    ensures var w := LastWildcard(routes, segs);
      w.Some? ==> Matches(w.value, segs) && w.value != [] && w.value[|w.value| - 1] == STAR
  {
    hide Registered;
    if segs != [] { CandidatesMatch(routes, segs[..|segs| - 1]); }
  }

  // ---- What the answer promises, and what it misses ----

  /** A route whose pattern matches the path and whose methods admit the request. */
  ghost predicate Fitting<L>(routes: seq<Route<L>>, i: nat, segs: seq<string>, m: string) {
    i < |routes| && Matches(routes[i].pattern, segs) && (m in routes[i].keys || "" in routes[i].keys)
  }

  lemma StoredByRoute<L>(routes: seq<Route<L>>, pat: seq<string>, segs: seq<string>, m: string) returns (i: nat)
    requires Matches(pat, segs) && LimiterAt(routes, pat, m).Some?
    ensures Fitting(routes, i, segs, m) && LimiterAt(routes, pat, m) == Some(routes[i].limiter)
  {
    i := LatestIsRoute(routes, pat, if Latest(routes, pat, m).Some? then m else "");
  }

  /** Any limiter returned belongs to an inserted route that fits. */
  lemma MatchIsSound<L>(routes: seq<Route<L>>, segs: seq<string>, m: string) returns (i: nat)
    requires Match(Build(routes), segs, None, m).Some?
    ensures Fitting(routes, i, segs, m) && Match(Build(routes), segs, None, m) == Some(routes[i].limiter)
  {
    hide Followed, LastWildcard, LimiterAt;
    MatchIsAnswer(routes, segs, m);
    CandidatesMatch(routes, segs);
    var at, w := Followed(routes, segs), LastWildcard(routes, segs);
    if LimiterOf(routes, at, m).Some? {
      i := StoredByRoute(routes, at.value, segs, m);
    } else {
      i := StoredByRoute(routes, w.value, segs, m);
    }
  }

  // ---- When every fitting request is answered: a condition on the table ----

  /** Every request for a path that some route fits gets a limiter. */
  ghost predicate Complete<L>(routes: seq<Route<L>>) {
    forall i, path, m :: Fitting(routes, i, SplitPath(path), m) ==> Match(Build(routes), SplitPath(path), None, m).Some?
  }

  ghost predicate Segments(segs: seq<string>) {
    forall j :: 0 <= j < |segs| ==> IsSegment(segs[j])
  }

  /** The patterns are split paths. */
  ghost predicate Proper<L>(routes: seq<Route<L>>) {
    forall i :: 0 <= i < |routes| ==> Segments(routes[i].pattern)
  }

  lemma {:induction false} SplitIsSegments(path: string, cur: string)
    requires '/' !in cur
    ensures Segments(SplitFrom(path, cur))
    decreases |path|
  {
    if path != "" { SplitIsSegments(path[1..], if path[0] == '/' then "" else cur + [path[0]]); }
  }

  lemma RegisteredIsProper<L>(routes: seq<Route<L>>, at: seq<string>)
    requires Proper(routes) && Registered(routes, at)
    ensures Segments(at)
  {
    if at != [] {
      var i :| 0 <= i < |routes| && at <= routes[i].pattern;
      assert forall j :: 0 <= j < |at| ==> at[j] == routes[i].pattern[j];
    }
  }

  /** A request by segments is a request by some path. */
  lemma CompleteOnSegments<L>(routes: seq<Route<L>>, i: nat, segs: seq<string>, m: string)
    requires Complete(routes) && Segments(segs) && Fitting(routes, i, segs, m)
    ensures Match(Build(routes), segs, None, m).Some?
  {
    SplitJoin(segs);
  }

  predicate EndsInStar(pat: seq<string>) { pat != [] && pat[|pat| - 1] == STAR }

  /** The last wildcard registered beside or along a pattern. */
  function WildcardOf<L>(routes: seq<Route<L>>, at: seq<string>): (w: Option<seq<string>>) {
    if at == [] then None else
      var init := at[..|at| - 1];
      if Registered(routes, init + [STAR]) then Some(init + [STAR]) else WildcardOf(routes, init)
  }

  /** As far as both go, a path can fit the one pattern and be taken along the other: position by position
      the first is a wildcard, or the same, or the second is a wildcard taken for want of the first's literal. */
  ghost predicate Compatible<L>(routes: seq<Route<L>>, pat: seq<string>, at: seq<string>) {
    forall j :: 0 <= j < |pat| && j < |at| ==>
      pat[j] == STAR || pat[j] == at[j] || (at[j] == STAR && !Registered(routes, at[..j] + [pat[j]]))
  }

  /** A path that goes on after `at` can fit the pattern and find nothing registered. */
  ghost predicate RunsOff<L>(routes: seq<Route<L>>, pat: seq<string>, at: seq<string>) {
    && !Registered(routes, at + [STAR])
    && (if |pat| > |at| then pat[|at|] == STAR || !Registered(routes, at + [pat[|at|]]) else EndsInStar(pat))
  }

  /** What a registered pattern owes to a route that is compatible with it. */
  ghost predicate Serves<L>(routes: seq<Route<L>>, pat: seq<string>, at: seq<string>, m: string) {
    var fallback := LimiterOf(routes, WildcardOf(routes, at), m);
    && (|pat| == |at| || (|pat| < |at| && EndsInStar(pat)) ==> LimiterAt(routes, at, m).Some? || fallback.Some?)
    && (RunsOff(routes, pat, at) ==> fallback.Some?)
  }

  predicate Admits<L>(route: Route<L>, m: string) { m in route.keys || "" in route.keys }

  /** Every registered pattern serves every route compatible with it, for every method the route admits. */
  ghost predicate TableComplete<L>(routes: seq<Route<L>>) {
    forall i, at, m ::
      0 <= i < |routes| && Admits(routes[i], m) &&
      Registered(routes, at) && Compatible(routes, routes[i].pattern, at) ==>
        Serves(routes, routes[i].pattern, at, m)
  }

  lemma OneMore<L>(routes: seq<Route<L>>, read: seq<string>, seg: string)
    ensures Followed(routes, []) == Some([]) && LastWildcard(routes, []).None?
    ensures Followed(routes, read).Some? ==> var at := Followed(routes, read).value;
      && Followed(routes, read + [seg]) == (
           if Registered(routes, at + [seg]) then Some(at + [seg])
           else if Registered(routes, at + [STAR]) then Some(at + [STAR]) else None)
      && LastWildcard(routes, read + [seg]) == (
           if Registered(routes, at + [STAR]) then Some(at + [STAR]) else LastWildcard(routes, read))
  {
    hide Registered;
    assert (read + [seg])[..|read|] == read;
  }

  lemma BegunBefore<L>(routes: seq<Route<L>>, pat: seq<string>, k: nat)
    requires Registered(routes, pat) && k <= |pat|
    ensures Registered(routes, pat[..k])
  {
    if pat != [] {
      var i :| 0 <= i < |routes| && pat <= routes[i].pattern;
      assert pat[..k] <= routes[i].pattern;
    }
  }

  /** The pattern followed is registered, its last wildcard is the walk's, and it was chosen literal first. */
  lemma {:induction false} FollowedIs<L>(routes: seq<Route<L>>, segs: seq<string>)
    requires Followed(routes, segs).Some?
    ensures var at := Followed(routes, segs).value;
      && |at| == |segs| && Registered(routes, at) && LastWildcard(routes, segs) == WildcardOf(routes, at)
      && forall j :: 0 <= j < |at| ==> at[j] == segs[j] || (at[j] == STAR && !Registered(routes, at[..j] + [segs[j]]))
  {
    hide Registered;
    var at := Followed(routes, segs).value;
    if segs == [] {
      NothingRegistered(routes);
    } else {
      var read, seg := segs[..|segs| - 1], segs[|segs| - 1];
      FollowedIs(routes, read);
      var before := Followed(routes, read).value;
      assert at[..|at| - 1] == before;
      forall j | 0 <= j < |at|
        ensures at[j] == segs[j] || (at[j] == STAR && !Registered(routes, at[..j] + [segs[j]]))
      {
        if j < |before| { assert at[..j] == before[..j] && read[j] == segs[j]; } else { assert at[..j] == before; }
      }
    }
  }

  lemma NothingRegistered<L>(routes: seq<Route<L>>)
    ensures Registered(routes, [])
  {
  }

  /** How far the walk gets. */
  lemma {:induction false} WalkEnds<L>(routes: seq<Route<L>>, segs: seq<string>) returns (k: nat)
    ensures k <= |segs| && Followed(routes, segs[..k]).Some?
    ensures k < |segs| ==> Followed(routes, segs[..k + 1]).None?
  {
    hide Registered;
    if Followed(routes, segs).Some? {
      k := |segs|;
      assert segs[..k] == segs;
    } else {
      var init := segs[..|segs| - 1];
      k := WalkEnds(routes, init);
      assert init[..k] == segs[..k];
      if k < |init| { assert init[..k + 1] == segs[..k + 1]; } else { assert segs[..k + 1] == segs; }
    }
  }

  lemma ServedRequest<L>(routes: seq<Route<L>>, i: nat, segs: seq<string>, m: string)
    requires TableComplete(routes) && Fitting(routes, i, segs, m)
    ensures Answer(routes, segs, m).Some?
  {
    hide Registered, Followed, LastWildcard, LimiterOf, WildcardOf, LimiterAt;
    var pat := routes[i].pattern;
    var k := WalkEnds(routes, segs);
    FollowedIs(routes, segs[..k]);
    var at := Followed(routes, segs[..k]).value;
    CompatibleWalk(routes, segs, k, pat, at);
    assert Admits(routes[i], m) && Serves(routes, pat, at, m);
    PatternOf(routes, at, m);
    if k == |segs| {
      assert segs[..k] == segs;
    } else {
      assert segs[..k] + [segs[k]] == segs[..k + 1];
      OneMore(routes, segs[..k], segs[k]);
      LostStays(routes, segs, k + 1);
    }
  }

  lemma CompatibleWalk<L>(routes: seq<Route<L>>, segs: seq<string>, k: nat, pat: seq<string>, at: seq<string>)
    requires Fits(pat, segs) && |at| == k <= |segs|
    requires forall j :: 0 <= j < k ==>
      at[j] == segs[..k][j] || (at[j] == STAR && !Registered(routes, at[..j] + [segs[..k][j]]))
    ensures Compatible(routes, pat, at)
  {
    hide Registered;
    forall j | 0 <= j < |pat| && j < |at|
      ensures pat[j] == STAR || pat[j] == at[j] || (at[j] == STAR && !Registered(routes, at[..j] + [pat[j]]))
    {
      assert segs[..k][j] == segs[j];
    }
  }

  lemma PatternOf<L>(routes: seq<Route<L>>, at: seq<string>, m: string)
    ensures LimiterOf(routes, Some(at), m) == LimiterAt(routes, at, m)
  {
  }

  /** A path that fits the pattern and is taken along `at`. */
  function PathTo(pat: seq<string>, at: seq<string>): (segs: seq<string>)
    ensures |segs| == |at|
  {
    seq(|at|, j requires 0 <= j < |at| => if j < |pat| && pat[j] != STAR then pat[j] else at[j])
  }

  lemma {:induction false} PathTaken<L>(routes: seq<Route<L>>, pat: seq<string>, at: seq<string>, k: nat)
    requires Registered(routes, at) && Compatible(routes, pat, at) && k <= |at|
    ensures Followed(routes, PathTo(pat, at)[..k]) == Some(at[..k])
  {
    hide Registered, Followed, LastWildcard;
    var segs := PathTo(pat, at);
    if k == 0 {
      OneMore(routes, [], "");
    } else {
      PathTaken(routes, pat, at, k - 1);
      OneMore(routes, segs[..k - 1], segs[k - 1]);
      assert segs[..k] == segs[..k - 1] + [segs[k - 1]] && at[..k] == at[..k - 1] + [at[k - 1]];
      BegunBefore(routes, at, k);
    }
  }

  /** Length of the longest segment any route has at a position. */
  function LongestAt<L>(routes: seq<Route<L>>, k: nat): (n: nat)
    ensures forall i :: 0 <= i < |routes| && k < |routes[i].pattern| ==> |routes[i].pattern[k]| <= n
  {
    if routes == [] then 0 else
      var n, last := LongestAt(routes[..|routes| - 1], k), routes[|routes| - 1];
      if k < |last.pattern| && n < |last.pattern[k]| then |last.pattern[k]| else n
  }

  lemma FreshSegment<L>(routes: seq<Route<L>>, at: seq<string>) returns (s: string)
    ensures !Registered(routes, at + [s]) && IsSegment(s)
  {
    s := seq(LongestAt(routes, |at|) + 1, _ => 'x');
    assert (at + [s])[|at|] == s;
  }

  lemma EndServes<L>(routes: seq<Route<L>>, i: nat, at: seq<string>, m: string)
    requires Complete(routes) && Proper(routes) && i < |routes| && Admits(routes[i], m)
    requires Registered(routes, at) && Compatible(routes, routes[i].pattern, at)
    requires |routes[i].pattern| == |at| || (|routes[i].pattern| < |at| && EndsInStar(routes[i].pattern))
    ensures LimiterAt(routes, at, m).Some? || LimiterOf(routes, WildcardOf(routes, at), m).Some?
  {
    var pat := routes[i].pattern;
    var segs := PathTo(pat, at);
    assert Fitting(routes, i, segs, m);
    RegisteredIsProper(routes, at);
    hide Registered, Followed, LastWildcard, LimiterOf, WildcardOf, LimiterAt, Match, Build, Fitting, Complete;
    assert Segments(segs);
    CompleteOnSegments(routes, i, segs, m);
    PathTaken(routes, pat, at, |at|);
    assert segs[..|at|] == segs && at[..|at|] == at;
    FollowedIs(routes, segs);
    MatchIsAnswer(routes, segs, m);
    PatternOf(routes, at, m);
  }

  lemma FallbackServes<L>(routes: seq<Route<L>>, i: nat, at: seq<string>, m: string)
    requires Complete(routes) && Proper(routes) && i < |routes| && Admits(routes[i], m)
    requires Registered(routes, at) && Compatible(routes, routes[i].pattern, at)
    requires RunsOff(routes, routes[i].pattern, at)
    ensures LimiterOf(routes, WildcardOf(routes, at), m).Some?
  {
    hide Registered, Followed, LastWildcard, LimiterOf, WildcardOf, LimiterAt, Match, Build, Complete;
    var pat, read, k := routes[i].pattern, PathTo(routes[i].pattern, at), |at|;
    var s := FreshSegment(routes, at);
    if k < |pat| && pat[k] != STAR { s := pat[k]; }
    var segs := read + [s] + if k < |pat| then pat[k + 1..] else [];
    OffTheTable(pat, at, s);
    assert Fitting(routes, i, segs, m);
    RegisteredIsProper(routes, at);
    assert Segments(segs) by {
      assert Segments(pat) && Segments(read);
      assert IsSegment(s);
    }
    CompleteOnSegments(routes, i, segs, m);
    assert segs[..k + 1] == read + [s];
    PathTaken(routes, pat, at, k);
    assert read[..k] == read && at[..k] == at;
    FollowedIs(routes, read);
    OneMore(routes, read, s);
    LostStays(routes, segs, k + 1);
    MatchIsAnswer(routes, segs, m);
    NoPattern(routes, m);
  }

  lemma OffTheTable(pat: seq<string>, at: seq<string>, s: string)
    requires |at| < |pat| ==> pat[|at|] == STAR || pat[|at|] == s
    requires |pat| <= |at| ==> EndsInStar(pat)
    ensures Matches(pat, PathTo(pat, at) + [s] + if |at| < |pat| then pat[|at| + 1..] else [])
  {
  }

  /** Every request that some route fits, in full or by a final wildcard, is answered, if and only if in the
      table of routes every registered pattern serves every route compatible with it. */
  lemma CompleteIff<L>(routes: seq<Route<L>>)
    requires Proper(routes)
    ensures Complete(routes) <==> TableComplete(routes)
  {
    hide Registered, Compatible, RunsOff, LimiterOf, LimiterAt, WildcardOf, Match, Build, Fitting;
    if TableComplete(routes) {
      forall i, path, m | Fitting(routes, i, SplitPath(path), m)
        ensures Match(Build(routes), SplitPath(path), None, m).Some?
      {
        ServedRequest(routes, i, SplitPath(path), m);
        MatchIsAnswer(routes, SplitPath(path), m);
      }
    }
    if Complete(routes) {
      forall i, at, m | 0 <= i < |routes| && Admits(routes[i], m) && Registered(routes, at)
          && Compatible(routes, routes[i].pattern, at)
        ensures Serves(routes, routes[i].pattern, at, m)
      {
        var pat := routes[i].pattern;
        if |pat| == |at| || (|pat| < |at| && EndsInStar(pat)) { EndServes(routes, i, at, m); }
        if RunsOff(routes, pat, at) { FallbackServes(routes, i, at, m); }
      }
    }
  }

  lemma {:induction false} LiteralFollowed<L>(routes: seq<Route<L>>, segs: seq<string>)
    requires Registered(routes, segs)
    ensures Followed(routes, segs) == Some(segs)
  {
    if segs != [] {
      var init := segs[..|segs| - 1];
      var i :| 0 <= i < |routes| && segs <= routes[i].pattern;
      assert init <= routes[i].pattern;
      LiteralFollowed(routes, init);
      assert init + [segs[|segs| - 1]] == segs;
    }
  }

  /** A registered literal path returns its latest method-specific, or else catch-all, limiter. */
  lemma LiteralRouteWins<L>(routes: seq<Route<L>>, segs: seq<string>, m: string)
    requires LimiterAt(routes, segs, m).Some?
    ensures Match(Build(routes), segs, None, m) == LimiterAt(routes, segs, m)
  {
    var i := LatestIsRoute(routes, segs, if Latest(routes, segs, m).Some? then m else "");
    assert segs <= routes[i].pattern;
    LiteralFollowed(routes, segs);
    MatchIsAnswer(routes, segs, m);
  }

  /** The last route for a pattern and a key. */
  ghost predicate LastFor<L>(routes: seq<Route<L>>, i: nat, pat: seq<string>, key: string) {
    && i < |routes| && routes[i].pattern == pat && key in routes[i].keys
    && forall j :: i < j < |routes| && routes[j].pattern == pat ==> key !in routes[j].keys
  }

  ghost predicate NoneFor<L>(routes: seq<Route<L>>, pat: seq<string>, key: string) {
    forall j :: 0 <= j < |routes| && routes[j].pattern == pat ==> key !in routes[j].keys
  }

  lemma {:induction false} LatestWhen<L>(routes: seq<Route<L>>, pat: seq<string>, key: string, i: nat)
    ensures LastFor(routes, i, pat, key) ==> Latest(routes, pat, key) == Some(routes[i].limiter)
  {
    if LastFor(routes, i, pat, key) && i < |routes| - 1 {
      var init := routes[..|routes| - 1];
      assert LastFor(init, i, pat, key);
      LatestWhen(init, pat, key, i);
    }
  }

  lemma {:induction false} NoneLatest<L>(routes: seq<Route<L>>, pat: seq<string>, key: string)
    ensures NoneFor(routes, pat, key) ==> Latest(routes, pat, key).None?
  {
    if routes != [] && NoneFor(routes, pat, key) {
      assert NoneFor(routes[..|routes| - 1], pat, key);
      NoneLatest(routes[..|routes| - 1], pat, key);
    }
  }

  /** A literally registered path: the last route that names the method decides, and where none does,
      the last one for all methods. */
  lemma LastRouteWins<L>(routes: seq<Route<L>>, segs: seq<string>, m: string, i: nat)
    ensures LastFor(routes, i, segs, m) ==> Match(Build(routes), segs, None, m) == Some(routes[i].limiter)
    ensures NoneFor(routes, segs, m) && LastFor(routes, i, segs, "") ==>
      Match(Build(routes), segs, None, m) == Some(routes[i].limiter)
  {
    hide LastFor, NoneFor, Latest, Match, Build;
    LatestWhen(routes, segs, m, i);
    LatestWhen(routes, segs, "", i);
    NoneLatest(routes, segs, m);
    if LimiterAt(routes, segs, m).Some? { LiteralRouteWins(routes, segs, m); }
  }

  /** A table of one route is complete. */
  lemma OneRouteComplete<L>(r: Route<L>)
    ensures TableComplete([r])
  {
    var routes := [r];
    forall at, m | Admits(r, m) && Registered(routes, at) && Compatible(routes, r.pattern, at)
      ensures Serves(routes, r.pattern, at, m)
    {
      OneRouteServes(r, at, m);
    }
  }

  lemma OneRouteServes<L>(r: Route<L>, at: seq<string>, m: string)
    requires Admits(r, m) && Registered([r], at)
    ensures Serves([r], r.pattern, at, m)
  {
    var routes, pat := [r], r.pattern;
    assert at <= pat;
    LatestWhen(routes, pat, m, 0);
    LatestWhen(routes, pat, "", 0);
    assert LastFor(routes, 0, pat, if m in r.keys then m else "");
    assert LimiterAt(routes, pat, m).Some?;
    if |pat| > |at| {
      assert at + [pat[|at|]] == pat[..|at| + 1] <= routes[0].pattern;
      assert Registered(routes, at + [pat[|at|]]);
    } else {
      assert at == pat;
      if EndsInStar(pat) {
        assert pat[..|pat| - 1] + [STAR] == pat;
        assert WildcardOf(routes, at) == Some(pat);
      }
    }
  }

  /** The one route answers exactly the requests that fit it. */
  lemma OneRouteAnswers<L>(r: Route<L>, segs: seq<string>, m: string)
    ensures Answer([r], segs, m) == if Matches(r.pattern, segs) && Admits(r, m) then Some(r.limiter) else None
  {
    hide TableComplete, Answer, Match, Build, Matches;
    MatchIsAnswer([r], segs, m);
    if Answer([r], segs, m).Some? {
      var i := MatchIsSound([r], segs, m);
    }
    if Matches(r.pattern, segs) && Admits(r, m) {
      OneRouteComplete(r);
      assert Fitting([r], 0, segs, m);
      ServedRequest([r], 0, segs, m);
    }
  }

  /** Wherever a fitting pattern has come to, a literal and a wildcard do not compete for the next segment. */
  ghost predicate NoContest<L>(routes: seq<Route<L>>, segs: seq<string>) {
    forall at :: Fits(at, segs) && |at| < |segs| && segs[|at|] != STAR ==>
      !(Registered(routes, at + [segs[|at|]]) && Registered(routes, at + [STAR]))
  }

  lemma NoContestAt<L>(routes: seq<Route<L>>, segs: seq<string>, pat: seq<string>, k: nat)
    requires NoContest(routes, segs) && Fits(pat, segs) && k < |pat|
    ensures pat[k] == STAR || pat[k] == segs[k]
    ensures segs[k] == STAR || !(Registered(routes, pat[..k] + [segs[k]]) && Registered(routes, pat[..k] + [STAR]))
  {
    hide Registered;
    assert Fits(pat[..k], segs) && |pat[..k]| == k;
  }

  lemma {:induction false} OnlyWay<L>(routes: seq<Route<L>>, segs: seq<string>, pat: seq<string>, k: nat)
    requires NoContest(routes, segs) && Registered(routes, pat) && Fits(pat, segs) && k <= |pat|
    ensures Followed(routes, segs[..k]) == Some(pat[..k])
  {
    hide Followed, LastWildcard, Registered, NoContest;
    if k == 0 {
      OneMore(routes, [], "");
    } else {
      OnlyWay(routes, segs, pat, k - 1);
      OneMore(routes, segs[..k - 1], segs[k - 1]);
      assert segs[..k] == segs[..k - 1] + [segs[k - 1]] && pat[..k] == pat[..k - 1] + [pat[k - 1]];
      BegunBefore(routes, pat, k);
      NoContestAt(routes, segs, pat, k - 1);
    }
  }

  /** Without a contest the limiter of every pattern as long as the path is found. */
  lemma CompleteWithoutContest<L>(routes: seq<Route<L>>, segs: seq<string>, m: string, pat: seq<string>)
    requires NoContest(routes, segs) && |pat| == |segs| && Fits(pat, segs) && LimiterAt(routes, pat, m).Some?
    ensures Match(Build(routes), segs, None, m) == LimiterAt(routes, pat, m)
  {
    var i := LatestIsRoute(routes, pat, if Latest(routes, pat, m).Some? then m else "");
    assert pat <= routes[i].pattern;
    OnlyWay(routes, segs, pat, |pat|);
    assert pat[..|pat|] == pat && segs[..|pat|] == segs;
    MatchIsAnswer(routes, segs, m);
  }

  /** With a contest a route can be missed: the path a/b/d fits the second of two routes, a/b/c and
      wildcard/b/d, and gets no limiter. */
  lemma ContestLosesRoute<L>(a: string, b: string, c: string, d: string, l: L)
    requires a != STAR && b != STAR && c != STAR && c != d
    ensures var routes := [Route([a, b, c], [""], l), Route([STAR, b, d], [""], l)];
      Fitting(routes, 1, [a, b, d], "GET") && Match(Build(routes), [a, b, d], None, "GET").None?
  {
    var routes := [Route([a, b, c], [""], l), Route([STAR, b, d], [""], l)];
    assert Fitting(routes, 1, [a, b, d], "GET");
    MatchIsAnswer(routes, [a, b, d], "GET");
    ContestRegistered(a, b, c, d, l);
    hide *;
    DeadEnd(routes, a, b, d);
    AnswerOf(routes, [a, b, d], "GET");
  }

  lemma ContestRegistered<L>(a: string, b: string, c: string, d: string, l: L)
    requires a != STAR && b != STAR && c != STAR && c != d
    ensures var routes := [Route([a, b, c], [""], l), Route([STAR, b, d], [""], l)];
      && Registered(routes, [a]) && Registered(routes, [STAR]) && Registered(routes, [a, b])
      && !Registered(routes, [a, STAR]) && !Registered(routes, [a, b, d]) && !Registered(routes, [a, b, STAR])
      && LimiterAt(routes, [STAR], "GET").None?
  {
    var p, q := [a, b, c], [STAR, b, d];
    assert forall pat :: pat <= q && pat != [] ==> pat[0] == STAR;
    assert forall pat :: pat <= p && |pat| > 1 ==> pat[1] == b;
    assert forall pat :: pat <= p && |pat| > 2 ==> pat[2] == c;
    TwoRoutes(p, q, l, [a]);
    TwoRoutes(p, q, l, [STAR]);
    TwoRoutes(p, q, l, [a, b]);
    TwoRoutes(p, q, l, [a, STAR]);
    TwoRoutes(p, q, l, [a, b, d]);
    TwoRoutes(p, q, l, [a, b, STAR]);
    hide *;
  }

  /** The walk goes to a/b, where nothing goes on, having passed one wildcard at the start. */
  lemma DeadEnd<L>(routes: seq<Route<L>>, a: string, b: string, d: string)
    requires Registered(routes, [a]) && Registered(routes, [STAR]) && Registered(routes, [a, b])
    requires !Registered(routes, [a, STAR]) && !Registered(routes, [a, b, d]) && !Registered(routes, [a, b, STAR])
    ensures Followed(routes, [a, b, d]).None? && LastWildcard(routes, [a, b, d]) == Some([STAR])
  {
    hide *;
    OneMore(routes, [], a);
    OneMore(routes, [a], b);
    OneMore(routes, [a, b], d);
    assert [] + [a] == [a] && [a] + [b] == [a, b] && [a, b] + [d] == [a, b, d] && [] + [STAR] == [STAR];
    assert [a] + [STAR] == [a, STAR] && [a, b] + [STAR] == [a, b, STAR];
  }

  /** Without any contest a shorter pattern can be shadowed by a deeper wildcard where no route ends:
      the path a/b fits the first of two routes, one wildcard and two wildcards with c, and gets no limiter. */
  lemma ShadowedWildcard<L>(a: string, b: string, c: string, l: L)
    requires a != STAR && b != STAR
    ensures var routes := [Route([STAR], [""], l), Route([STAR, STAR, c], [""], l)];
      && Fitting(routes, 0, [a, b], "GET") && NoContest(routes, [a, b])
      && Match(Build(routes), [a, b], None, "GET").None?
  {
    var routes := [Route([STAR], [""], l), Route([STAR, STAR, c], [""], l)];
    assert Fitting(routes, 0, [a, b], "GET");
    MatchIsAnswer(routes, [a, b], "GET");
    forall at | Fits(at, [a, b]) && |at| < 2 ensures !Registered(routes, at + [[a, b][|at|]]) {
      assert (at + [[a, b][|at|]])[|at|] == [a, b][|at|];
      TwoRoutes([STAR], [STAR, STAR, c], l, at + [[a, b][|at|]]);
    }
    assert NoContest(routes, [a, b]);
    ShadowRegistered(a, b, c, l);
    hide *;
    TwoWildcards(routes, a, b);
    AnswerOf(routes, [a, b], "GET");
  }

  lemma ShadowRegistered<L>(a: string, b: string, c: string, l: L)
    requires a != STAR && b != STAR
    ensures var routes := [Route([STAR], [""], l), Route([STAR, STAR, c], [""], l)];
      && !Registered(routes, [a]) && Registered(routes, [STAR])
      && !Registered(routes, [STAR, b]) && Registered(routes, [STAR, STAR])
      && LimiterAt(routes, [STAR, STAR], "GET").None?
  {
    var p, q := [STAR], [STAR, STAR, c];
    assert forall pat :: pat <= q && pat != [] ==> pat[0] == STAR;
    assert forall pat :: pat <= q && |pat| > 1 ==> pat[1] == STAR;
    TwoRoutes(p, q, l, [a]);
    TwoRoutes(p, q, l, [STAR]);
    TwoRoutes(p, q, l, [STAR, b]);
    TwoRoutes(p, q, l, [STAR, STAR]);
    hide *;
  }

  lemma TwoWildcards<L>(routes: seq<Route<L>>, a: string, b: string)
    requires !Registered(routes, [a]) && Registered(routes, [STAR])
    requires !Registered(routes, [STAR, b]) && Registered(routes, [STAR, STAR])
    ensures Followed(routes, [a, b]) == Some([STAR, STAR]) == LastWildcard(routes, [a, b])
  {
    hide *;
    OneMore(routes, [], a);
    OneMore(routes, [a], b);
    assert [] + [a] == [a] && [a] + [b] == [a, b] && [] + [STAR] == [STAR];
    assert [STAR] + [b] == [STAR, b] && [STAR] + [STAR] == [STAR, STAR];
  }

  lemma AnswerOf<L>(routes: seq<Route<L>>, segs: seq<string>, m: string)
    ensures (Followed(routes, segs).Some? ==> LimiterAt(routes, Followed(routes, segs).value, m).None?)
      && (LastWildcard(routes, segs).Some? ==> LimiterAt(routes, LastWildcard(routes, segs).value, m).None?)
      ==> Answer(routes, segs, m).None?
  {
    hide Followed, LastWildcard, LimiterAt;
  }

  /** Two routes for all methods: which patterns are begun, and which store a limiter. */
  lemma TwoRoutes<L>(p: seq<string>, q: seq<string>, l: L, pat: seq<string>)
    ensures var routes := [Route(p, [""], l), Route(q, [""], l)];
      && (Registered(routes, pat) <==> pat == [] || pat <= p || pat <= q)
      && (LimiterAt(routes, pat, "GET") == if pat == p || pat == q then Some(l) else None)
  {
    var one, routes := [Route(p, [""], l)], [Route(p, [""], l), Route(q, [""], l)];
    assert routes[..1] == one && one[..0] == [];
    assert routes[0].pattern == p && routes[1].pattern == q;
    assert pat <= p ==> pat <= routes[0].pattern;
    assert pat <= q ==> pat <= routes[1].pattern;
    forall key | key == "" || key == "GET"
      ensures Latest(routes, pat, key) == if key == "" && (pat == p || pat == q) then Some(l) else None
    {
      assert Latest<L>([], pat, key).None?;
      assert Latest(one, pat, key) == if pat == p && key in [""] then Some(l) else None;
    }
  }

  lemma BuildSnoc<L>(routes: seq<Route<L>>, r: Route<L>)
    requires Proper(routes) && Segments(r.pattern)
    ensures Build(routes + [r]) == Extend(Build(routes), r.pattern, r.keys, r.limiter) && Proper(routes + [r])
  {
    hide Extend, Segments;
    assert (routes + [r])[..|routes|] == routes;
  }

  // ---- The trie object ----

  class RouteTrie<L> {
    /** Upper-casing, as the platform does it. */
    const upper: string -> string
    var root: Node<L>
    ghost var routes: seq<Route<L>>

    ghost predicate Valid()
      reads this
    {
      root == Build(routes) && Proper(routes)
    }

    constructor (upper: string -> string)
      ensures Valid() && routes == [] && this.upper == upper
    {
      this.upper, root, routes := upper, Blank(), [];
    }

    /** Registers a path; no methods means all of them. */
    method Insert(path: string, methods: seq<string>, l: L)
      requires Valid()
      modifies this
      ensures Valid()
      ensures routes == old(routes) + [Route(SplitPath(path), KeysOf(methods), l)]
    {
      ghost var r := Route(SplitPath(path), KeysOf(methods), l);
      SplitIsSegments(path, "");
      BuildSnoc(routes, r);
      hide SplitPath, Build, Extend, KeysOf, Proper;
      root := Extend(root, SplitPath(path), KeysOf(methods), l);
      routes := routes + [r];
    }

    function KeysOf(methods: seq<string>): (keys: seq<string>) {
      if methods == [] then [""] else seq(|methods|, i requires 0 <= i < |methods| => upper(methods[i]))
    }

    /** The keys a route is stored under: its methods in upper case, or the one for all methods. */
    lemma KeysAre(methods: seq<string>, k: string)
      ensures k in KeysOf(methods) <==>
        if methods == [] then k == "" else exists i :: 0 <= i < |methods| && upper(methods[i]) == k
    {
      forall i | 0 <= i < |methods| && upper(methods[i]) == k ensures k in KeysOf(methods) {
        assert KeysOf(methods)[i] == k;
      }
    }

    /** The loop over the path's segments with its two cursors. */
    method MatchRoute(m: string, path: string) returns (r: Option<L>)
      requires Valid()
      ensures r == Answer(routes, SplitPath(path), upper(m))
    {
      var key, segs := upper(m), SplitPath(path);
      var node, wild := root, None;
      MatchIsAnswer(routes, segs, key);
      var i := 0;
      assert segs[0..] == segs;
      while i < |segs|
        invariant i <= |segs|
        invariant Match(root, segs, None, key) == Match(node, segs[i..], wild, key)
      {
        var seg := segs[i];
        assert segs[i..][0] == seg && segs[i..][1..] == segs[i + 1..];
        if seg in node.children {
          if STAR in node.children {
            wild := Some(node.children[STAR]);
          }
          node := node.children[seg];
        } else if STAR in node.children {
          wild := Some(node.children[STAR]);
          node := node.children[STAR];
        } else {
          return FromWild(wild, key);
        }
        i := i + 1;
      }
      r := Lookup(node, key);
      if r.None? {
        r := FromWild(wild, key);
      }
    }
  }

  /** Registering a path and asking for it: the new limiter answers when one of its methods is the one asked
      for, in upper case, and, when it is for all methods, unless another route names the method there. */
  method InsertThenMatch<L>(t: RouteTrie<L>, path: string, methods: seq<string>, l: L, m: string)
      returns (r: Option<L>)
    requires t.Valid()
    modifies t
    ensures t.Valid()
    ensures (exists i :: 0 <= i < |methods| && t.upper(methods[i]) == t.upper(m)) ==> r == Some(l)
    ensures methods == [] && NoneFor(old(t.routes), SplitPath(path), t.upper(m)) ==> r == Some(l)
  {
    hide SplitPath, Answer, Build, Match, Proper;
    ghost var before, segs, key := t.routes, SplitPath(path), t.upper(m);
    t.Insert(path, methods, l);
    r := t.MatchRoute(m, path);
    MatchIsAnswer(t.routes, segs, key);
    LastRouteWins(t.routes, segs, key, |before|);
    t.KeysAre(methods, key);
    t.KeysAre(methods, "");
    assert (exists i :: 0 <= i < |methods| && t.upper(methods[i]) == key) ==> LastFor(t.routes, |before|, segs, key);
    assert methods == [] ==> LastFor(t.routes, |before|, segs, "");
    assert methods == [] && key == "" ==> LastFor(t.routes, |before|, segs, key);
  }

  /** One route in a new trie: it answers exactly the requests whose method it names, in upper case, or all if
      it names none, and whose path has the route's segments, with any segment for a wildcard and any rest
      after a final one. */
  method OneRoute<L>(upper: string -> string, path: string, methods: seq<string>, l: L, m: string, asked: string)
      returns (r: Option<L>)
    ensures r ==
      if && (methods == [] || exists i :: 0 <= i < |methods| && upper(methods[i]) in ["", upper(m)])
         && PathFits(SplitPath(path), SplitPath(asked))
      then Some(l) else None
  {
    hide SplitPath, Answer, Build, Match, Proper;
    var t := new RouteTrie<L>(upper);
    t.Insert(path, methods, l);
    r := t.MatchRoute(m, asked);
    ghost var route := t.routes[0];
    assert t.routes == [route];
    OneRouteAnswers(route, SplitPath(asked), upper(m));
    t.KeysAre(methods, "");
    t.KeysAre(methods, upper(m));
    assert "" in route.keys || upper(m) in route.keys <==>
      methods == [] || exists i :: 0 <= i < |methods| && upper(methods[i]) in ["", upper(m)];
  }

  ghost predicate PathFits(pat: seq<string>, segs: seq<string>) {
    && |pat| <= |segs|
    && (forall i :: 0 <= i < |pat| ==> pat[i] == "*" || pat[i] == segs[i])
    && (|pat| == |segs| || (pat != [] && pat[|pat| - 1] == "*"))
  }
}
