/** Sliding-window violation counting, bans, and the sweep that lifts them. */
module AutoBan {
  import opened Lpm
  import opened Bytes
  import opened BitTrie

  /** Times, window and duration are in ticks of the clock, however fine these are.
      `inclusive`: the Rust tracker keeps a timestamp equal to the cutoff, the Go one drops it. */
  datatype Config = Config(threshold: nat, window: nat, duration: nat, inclusive: bool)

  predicate Inside(c: Config, t: int, cutoff: int) { if c.inclusive then t >= cutoff else t > cutoff }

  /** Start of the window at `now`. Where the Rust clock has no reading before its origin, the tracker
      then starts the window at `now`. */
  function Cutoff(c: Config, now: int): (t: int) {
    if c.inclusive && now < c.window then now else now - c.window
  }

  /** The timestamps inside the window, in order. */
  function Keep(c: Config, ts: seq<int>, cutoff: int): (r: seq<int>)
    ensures |r| <= |ts|
  {
    if ts == [] then []
    else Keep(c, ts[..|ts| - 1], cutoff) + if Inside(c, ts[|ts| - 1], cutoff) then [ts[|ts| - 1]] else []
  }

  /** One violation: what is kept, and whether it triggers a ban (which forgets the rest). */
  function Step(c: Config, kept: seq<int>, now: int): (r: (seq<int>, bool)) {
    var filtered := Keep(c, kept, Cutoff(c, now)) + [now];
    if |filtered| >= c.threshold then ([], true) else (filtered, false)
  }

  /** Positions of the timestamps not before `from` (Rust), or after it (Go). */
  ghost function Positions(c: Config, ts: seq<int>, from: int): (r: set<nat>) {
    set i: nat | i < |ts| && (if c.inclusive then from <= ts[i] else from < ts[i])
  }

  /** `kept` is what stands at exactly the positions `at` of `ts`, in order, by `f`. */
  ghost predicate Picks(ts: seq<int>, at: set<nat>, kept: seq<int>, f: seq<nat>) {
    && |f| == |kept| == |at|
    && (forall i :: i in at ==> i < |ts|)
    && (forall j, k :: 0 <= j < k < |f| ==> f[j] < f[k])
    && (forall k :: 0 <= k < |f| ==> f[k] in at && kept[k] == ts[f[k]])
  }

  lemma PicksSnoc(ts: seq<int>, at: set<nat>, kept: seq<int>, f: seq<nat>, t: int)
    requires Picks(ts, at, kept, f)
    ensures Picks(ts + [t], at, kept, f) && Picks(ts + [t], at + {|ts|}, kept + [t], f + [|ts|])
  {
    assert |ts| !in at;
  }

  lemma KeepSnoc(c: Config, ts: seq<int>, t: int, cutoff: int)
    ensures Keep(c, ts + [t], cutoff) == Keep(c, ts, cutoff) + if Inside(c, t, cutoff) then [t] else []
    ensures Keep(c, [], cutoff) == []
  {
    assert (ts + [t])[..|ts|] == ts;
  }

  lemma PositionsSnoc(c: Config, ts: seq<int>, t: int, from: int)
    ensures Positions(c, ts + [t], from) == Positions(c, ts, from) + if Inside(c, t, from) then {|ts|} else {}
  {
    assert forall i :: 0 <= i < |ts| ==> (ts + [t])[i] == ts[i];
  }

  /** What is kept is what stands at those positions, in their order. */
  lemma {:induction false} KeepIs(c: Config, ts: seq<int>, cutoff: int) returns (f: seq<nat>)
    ensures Picks(ts, Positions(c, ts, cutoff), Keep(c, ts, cutoff), f)
    ensures |Keep(c, ts, cutoff)| == |Positions(c, ts, cutoff)|
  {
    if ts == [] {
      f := [];
    } else {
      hide Keep, Positions, Inside, Picks;
      var init, t := ts[..|ts| - 1], ts[|ts| - 1];
      f := KeepIs(c, init, cutoff);
      assert ts == init + [t];
      KeepSnoc(c, init, t, cutoff);
      PositionsSnoc(c, init, t, cutoff);
      PicksSnoc(init, Positions(c, init, cutoff), Keep(c, init, cutoff), f, t);
      if Inside(c, t, cutoff) { f := f + [|init|]; }
      PicksCount(ts, Positions(c, ts, cutoff), Keep(c, ts, cutoff), f);
    }
  }

  lemma PicksCount(ts: seq<int>, at: set<nat>, kept: seq<int>, f: seq<nat>)
    requires Picks(ts, at, kept, f)
    ensures |kept| == |at|
  {
  }

  // ---- The in-place filter ----

  /** Compacts a slice onto its own memory: writes never overtake reads. */
  method FilterInPlace(c: Config, a: array<int>, cutoff: int) returns (w: nat)
    modifies a
    ensures w <= a.Length && a[..w] == Keep(c, old(a[..]), cutoff)
    ensures w == |Positions(c, old(a[..]), cutoff)|
  {
    ghost var was := a[..];
    w := 0;
    var i := 0;
    while i < a.Length
      invariant w <= i <= a.Length
      invariant a[..w] == Keep(c, was[..i], cutoff)
      invariant forall j :: i <= j < a.Length ==> a[j] == was[j]
    {
      var t := a[i];
      assert t == was[i] && was[..i + 1][..i] == was[..i];
      if Inside(c, t, cutoff) {
        a[w] := t;
        assert a[..w + 1] == Keep(c, was[..i], cutoff) + [t];
        w := w + 1;
      }
      i := i + 1;
    }
    assert was[..i] == was;
    ghost var _ := KeepIs(c, was, cutoff);
  }

  // ---- Traces of one address ----

  ghost predicate Nondecreasing(ts: seq<int>) {
    forall i, j :: 0 <= i < j < |ts| ==> ts[i] <= ts[j]
  }

  /** A trace on a clock that never reads less than `lo`. */
  ghost predicate From(lo: int, ts: seq<int>) {
    Nondecreasing(ts) && forall i :: 0 <= i < |ts| ==> lo <= ts[i]
  }

  /** The tracker's memory after a trace of violations. */
  function Kept(c: Config, ts: seq<int>): (r: seq<int>) {
    if ts == [] then [] else Step(c, Kept(c, ts[..|ts| - 1]), ts[|ts| - 1]).0
  }

  /** Whether the last violation of the trace triggers a ban. */
  predicate Bans(c: Config, ts: seq<int>)
    requires ts != []
  {
    Step(c, Kept(c, ts[..|ts| - 1]), ts[|ts| - 1]).1
  }

  /** All violations since the previous ban, pruned or not. */
  function Since(c: Config, ts: seq<int>): (r: seq<int>) {
    if ts == [] || Bans(c, ts) then [] else Since(c, ts[..|ts| - 1]) + [ts[|ts| - 1]]
  }

  function BanCount(c: Config, ts: seq<int>): (n: nat) {
    if ts == [] then 0 else BanCount(c, ts[..|ts| - 1]) + if Bans(c, ts) then 1 else 0
  }

  lemma {:induction false} KeepKeep(c: Config, ts: seq<int>, c1: int, c2: int)
    requires c1 <= c2
    ensures Keep(c, Keep(c, ts, c1), c2) == Keep(c, ts, c2)
  {
    if ts != [] {
      var init, t := ts[..|ts| - 1], ts[|ts| - 1];
      KeepKeep(c, init, c1, c2);
      var k := Keep(c, init, c1);
      assert (k + [t])[..|k + [t]| - 1] == k;
      assert k + [] == k;
    }
  }

  /** A violation bans exactly when the violations since the previous ban that lie inside the
      true window, the last `window` ticks, reach the threshold, counting this one. */
  ghost predicate BansByWindow(c: Config, ts: seq<int>)
    requires ts != []
  {
    var before, now := ts[..|ts| - 1], ts[|ts| - 1];
    Bans(c, ts) <==> |Positions(c, Since(c, before), now - c.window)| + 1 >= c.threshold
  }

  /** The clock starts late enough for the code's window to be the true one (the Go clock always does). */
  predicate StartsLate(c: Config, lo: int) { c.inclusive ==> c.window <= lo + 1 }

  lemma {:induction false} KeepAll(c: Config, ts: seq<int>, cutoff: int)
    requires forall i :: 0 <= i < |ts| ==> Inside(c, ts[i], cutoff)
    ensures Keep(c, ts, cutoff) == ts
  {
    if ts != [] { KeepAll(c, ts[..|ts| - 1], cutoff); }
  }

  /** On such a clock the code cuts where the true window starts: only at the origin does it
      cut later, and then every earlier violation is at that very tick. */
  lemma {:induction false} CutsAtWindow(c: Config, lo: int, ts: seq<int>, now: int)
    requires StartsLate(c, lo) && lo <= now && forall i :: 0 <= i < |ts| ==> lo <= ts[i]
    ensures Keep(c, ts, Cutoff(c, now)) == Keep(c, ts, now - c.window)
  {
    hide Keep;
    if Cutoff(c, now) != now - c.window {
      KeepAll(c, ts, now);
      KeepAll(c, ts, now - c.window);
    }
  }

  lemma {:induction false} KeepFrom(c: Config, ts: seq<int>, cutoff: int, lo: int)
    requires forall i :: 0 <= i < |ts| ==> lo <= ts[i]
    ensures forall i :: 0 <= i < |Keep(c, ts, cutoff)| ==> lo <= Keep(c, ts, cutoff)[i]
  {
    if ts != [] { KeepFrom(c, ts[..|ts| - 1], cutoff, lo); }
  }

  lemma {:induction false} KeptFrom(c: Config, lo: int, ts: seq<int>)
    requires From(lo, ts)
    ensures forall i :: 0 <= i < |Kept(c, ts)| ==> lo <= Kept(c, ts)[i]
  {
    if ts != [] {
      KeptFrom(c, lo, ts[..|ts| - 1]);
      KeepFrom(c, Kept(c, ts[..|ts| - 1]), Cutoff(c, ts[|ts| - 1]), lo);
    }
  }

  /** Pruning early never matters: what is remembered, cut at a later time, is what happened
      since the ban, cut there. */
  lemma {:induction false} KeptIsWindow(c: Config, lo: int, ts: seq<int>, now: int)
    requires From(lo, ts) && StartsLate(c, lo) && (ts != [] ==> ts[|ts| - 1] <= now)
    ensures Keep(c, Kept(c, ts), now - c.window) == Keep(c, Since(c, ts), now - c.window)
  {
    hide Keep, Kept, Since, Bans, Cutoff, StartsLate, From;
    if ts == [] {
      TraceSnoc(c, [], now);
    } else {
      var init, t := ts[..|ts| - 1], ts[|ts| - 1];
      assert ts == init + [t];
      FromInit(lo, ts);
      TraceSnoc(c, init, t);
      KeptIsWindow(c, lo, init, t);
      KeptFrom(c, lo, init);
      CutsAtWindow(c, lo, Kept(c, init), t);
      WindowSnoc(c, Kept(c, init), Since(c, init), t, t - c.window, now - c.window);
    }
  }

  lemma FromInit(lo: int, ts: seq<int>)
    requires ts != [] && From(lo, ts)
    ensures var init, t := ts[..|ts| - 1], ts[|ts| - 1];
      From(lo, init) && lo <= t && (init != [] ==> init[|init| - 1] <= t)
  {
  }

  lemma {:induction false} WindowSnoc(c: Config, kept: seq<int>, since: seq<int>, t: int, cut: int, later: int)
    requires Keep(c, kept, cut) == Keep(c, since, cut) && cut <= later
    ensures Keep(c, Keep(c, kept, cut) + [t], later) == Keep(c, since + [t], later)
  {
    hide Keep;
    KeepSnoc(c, Keep(c, kept, cut), t, later);
    KeepSnoc(c, since, t, later);
    KeepKeep(c, since, cut, later);
  }

  lemma BansExactly(c: Config, lo: int, ts: seq<int>)
    requires ts != [] && From(lo, ts) && StartsLate(c, lo)
    ensures BansByWindow(c, ts)
  {
    hide Keep, Kept, Since, Positions, Picks, Cutoff, StartsLate, From;
    var before, now := ts[..|ts| - 1], ts[|ts| - 1];
    FromInit(lo, ts);
    KeptIsWindow(c, lo, before, now);
    KeptFrom(c, lo, before);
    CutsAtWindow(c, lo, Kept(c, before), now);
    var _ := KeepIs(c, Since(c, before), now - c.window);
  }

  function Repeat(t: int, n: nat): (ts: seq<int>) { seq(n, _ => t) }

  /** Fewer than the threshold of violations in one early tick are all remembered. */
  lemma {:induction false} EarlyTick(c: Config, lo: nat, n: nat)
    requires c.inclusive && lo < c.window && n < c.threshold
    ensures Kept(c, Repeat(lo, n)) == Since(c, Repeat(lo, n)) == Repeat(lo, n)
  {
    if n > 0 {
      EarlyTick(c, lo, n - 1);
      assert Repeat(lo, n) == Repeat(lo, n - 1) + [lo];
      TraceSnoc(c, Repeat(lo, n - 1), lo);
      KeepAll(c, Repeat(lo, n - 1), lo);
    }
  }

  /** One tick later all of them are still in the window, and forgotten. */
  lemma EarlyClockForgets(c: Config, lo: nat)
    requires c.inclusive && c.threshold >= 2 && lo + 2 <= c.window
    ensures var ts := Repeat(lo, c.threshold - 1) + [lo + 1]; From(lo, ts) && !BansByWindow(c, ts)
  {
    hide Keep, Kept, Since, Positions, Picks;
    var before := Repeat(lo, c.threshold - 1);
    var ts := before + [lo + 1];
    EarlyTick(c, lo, c.threshold - 1);
    assert ts[..|ts| - 1] == before;
    KeepAll(c, before, lo + 1 - c.window);
    KeepNone(c, before, lo + 1);
    var _ := KeepIs(c, before, lo + 1 - c.window);
  }

  lemma {:induction false} KeepNone(c: Config, ts: seq<int>, cutoff: int)
    requires forall i :: 0 <= i < |ts| ==> !Inside(c, ts[i], cutoff)
    ensures Keep(c, ts, cutoff) == []
  {
    if ts != [] { KeepNone(c, ts[..|ts| - 1], cutoff); }
  }

  ghost predicate ExactFrom(c: Config, lo: nat) {
    forall ts :: ts != [] && From(lo, ts) ==> BansByWindow(c, ts)
  }

  /** On every trace from `lo` on the tracker bans by the true window, if and only if it is the
      Go one, bans at once, or its clock starts no more than one tick before the window's length. */
  lemma ExactFromIff(c: Config, lo: nat)
    ensures ExactFrom(c, lo) <==> StartsLate(c, lo) || c.threshold <= 1
  {
    if StartsLate(c, lo) {
      forall ts | ts != [] && From(lo, ts) ensures BansByWindow(c, ts) { BansExactly(c, lo, ts); }
    } else if c.threshold >= 2 {
      EarlyClockForgets(c, lo);
    }
  }

  lemma TraceSnoc(c: Config, ts: seq<int>, t: int)
    ensures var (kept, ban) := Step(c, Kept(c, ts), t);
      && Kept(c, ts + [t]) == kept && Bans(c, ts + [t]) == ban
      && Since(c, ts + [t]) == if ban then [] else Since(c, ts) + [t]
    ensures Kept(c, []) == [] && Since(c, []) == [] && Keep(c, [], Cutoff(c, t)) == []
  {
    assert (ts + [t])[..|ts|] == ts;
  }

  lemma {:induction false} KeptAtMostSince(c: Config, ts: seq<int>)
    ensures |Kept(c, ts)| <= |Since(c, ts)|
  {
    if ts != [] { KeptAtMostSince(c, ts[..|ts| - 1]); }
  }

  /** Every ban uses up at least `threshold` violations of its own, whatever the clock does. */
  lemma {:induction false} BansArePaidFor(c: Config, ts: seq<int>)
    ensures BanCount(c, ts) * c.threshold + |Since(c, ts)| <= |ts|
  {
    if ts != [] {
      BansArePaidFor(c, ts[..|ts| - 1]);
      KeptAtMostSince(c, ts[..|ts| - 1]);
      OneMore(BanCount(c, ts[..|ts| - 1]), c.threshold);
    }
  }

  lemma OneMore(n: nat, k: nat)
    ensures (n + 1) * k == n * k + k
  {
  }

  // ---- Many addresses ----

  /** Violations of all addresses, in order of time. */
  datatype Violation<A> = Violation(who: A, at: int)

  function Memory<A>(m: map<A, seq<int>>, who: A): (ts: seq<int>) { if who in m then m[who] else [] }

  /** The tracker's table after a trace over all addresses. */
  function Table<A>(c: Config, trace: seq<Violation<A>>): (m: map<A, seq<int>>) {
    if trace == [] then map[] else
      var m, v := Table(c, trace[..|trace| - 1]), trace[|trace| - 1];
      m[v.who := Step(c, Memory(m, v.who), v.at).0]
  }

  function Times<A(==)>(trace: seq<Violation<A>>, who: A): (ts: seq<int>) {
    if trace == [] then []
    else Times(trace[..|trace| - 1], who) + if trace[|trace| - 1].who == who then [trace[|trace| - 1].at] else []
  }

  /** Each address is tracked as if it were alone. */
  lemma {:induction false} AddressesAreIndependent<A>(c: Config, trace: seq<Violation<A>>, who: A)
    ensures Memory(Table(c, trace), who) == Kept(c, Times(trace, who))
  {
    if trace != [] {
      var init, v := trace[..|trace| - 1], trace[|trace| - 1];
      AddressesAreIndependent(c, init, who);
      if v.who == who {
        var ts := Times(init, who);
        assert (ts + [v.at])[..|ts|] == ts;
      } else {
        assert Times(init, who) + [] == Times(init, who);
      }
    }
  }

  lemma NextBans(c: Config, lo: int, ts: seq<int>, t: int)
    requires StartsLate(c, lo) && From(lo, ts + [t])
    ensures Step(c, Kept(c, ts), t).1 <==> |Positions(c, Since(c, ts), t - c.window)| + 1 >= c.threshold
  {
    hide Step, Since, Positions, From, StartsLate, Kept;
    assert (ts + [t])[..|ts|] == ts;
    BansExactly(c, lo, ts + [t]);
  }

  /** After a mixed trace, the next violation of an address bans exactly when its own violations since its
      previous ban, in the last `window` ticks, reach the threshold, counting this one. */
  lemma MixedTraceBans<A>(c: Config, lo: int, trace: seq<Violation<A>>, who: A, now: int)
    requires StartsLate(c, lo) && From(lo, Times(trace, who) + [now])
    ensures Step(c, Memory(Table(c, trace), who), now).1 <==>
      |Positions(c, Since(c, Times(trace, who)), now - c.window)| + 1 >= c.threshold
  {
    hide Step, Since, Positions, From, StartsLate, Kept, Table, Memory, Times;
    AddressesAreIndependent(c, trace, who);
    NextBans(c, lo, Times(trace, who), now);
  }

  // ---- Bans in the engine ----

  /** The engine holds its own routes plus one host route per banned address. */
  ghost predicate Synced<M>(m: map<Bits, Entry<M>>, own: map<Bits, Entry<M>>, banned: map<Ip, int>, mark: M) {
    && (forall ip :: ip in banned ==> ValidIp(ip) && IpBits(ip) !in own)
    && (forall ip :: ip in banned ==> IpBits(ip) in m && m[IpBits(ip)] == Entry(ip.v6, mark))
    && (forall k :: k in own ==> k in m && m[k] == own[k])
    && (forall k :: k in m && k !in own ==> IsHost(banned, k))
  }

  ghost predicate IsHost(banned: map<Ip, int>, k: Bits) {
    exists ip :: ip in banned && IpBits(ip) == k
  }

  lemma BytesFromBits(x: Byte, y: Byte)
    requires forall i :: 0 <= i < 8 ==> BitOf(x, i) == BitOf(y, i)
    ensures x == y
  {
    assert BitOf(x, 0) == BitOf(y, 0) && BitOf(x, 1) == BitOf(y, 1);
    assert BitOf(x, 2) == BitOf(y, 2) && BitOf(x, 3) == BitOf(y, 3);
    assert BitOf(x, 4) == BitOf(y, 4) && BitOf(x, 5) == BitOf(y, 5);
    assert BitOf(x, 6) == BitOf(y, 6) && BitOf(x, 7) == BitOf(y, 7);
  }

  /** Different addresses have different host routes. */
  lemma HostsDiffer(a: Ip, b: Ip)
    requires ValidIp(a) && ValidIp(b) && IpBits(a) == IpBits(b)
    ensures a == b
  {
    hide BitOf;
    assert |IpBits(a)| == 8 * |a.bytes| && |IpBits(b)| == 8 * |b.bytes|;
    forall j | 0 <= j < |a.bytes| ensures a.bytes[j] == b.bytes[j] {
      forall i | 0 <= i < 8 ensures BitOf(a.bytes[j], i) == BitOf(b.bytes[j], i) {
        assert (8 * j + i) / 8 == j && (8 * j + i) % 8 == i;
        assert IpBits(a)[8 * j + i] == GetBit(a.bytes, 8 * j + i);
        assert IpBits(b)[8 * j + i] == GetBit(b.bytes, 8 * j + i);
      }
      BytesFromBits(a.bytes[j], b.bytes[j]);
    }
  }

  function HostNet(ip: Ip): (n: Net) { Net(ip, 8 * |ip.bytes|) }

  lemma HostNetIs(ip: Ip)
    requires ValidIp(ip)
    ensures ValidNet(HostNet(ip)) && NetBits(HostNet(ip)) == IpBits(ip)
  {
  }

  /** A ban replaces whatever route of the engine's own has the same bits. */
  lemma BanSyncs<M>(m: map<Bits, Entry<M>>, own: map<Bits, Entry<M>>, banned: map<Ip, int>, mark: M,
                    ip: Ip, expiry: int)
    requires Synced(m, own, banned, mark) && ValidIp(ip)
    ensures Synced(m[IpBits(ip) := Entry(ip.v6, mark)], own - {IpBits(ip)}, banned[ip := expiry], mark)
  {
    hide IpBits;
    var m', banned' := m[IpBits(ip) := Entry(ip.v6, mark)], banned[ip := expiry];
    forall x | x in banned' ensures IpBits(x) in m' && m'[IpBits(x)] == Entry(x.v6, mark) {
      if x in banned && IpBits(x) == IpBits(ip) { HostsDiffer(x, ip); }
    }
    forall k | k in m' && k !in own - {IpBits(ip)} ensures IsHost(banned', k) {
      if k != IpBits(ip) {
        var x :| x in banned && IpBits(x) == k;
        assert x in banned';
      } else {
        assert ip in banned';
      }
    }
  }

  lemma LiftSyncs<M>(m: map<Bits, Entry<M>>, own: map<Bits, Entry<M>>, banned: map<Ip, int>, mark: M, ip: Ip)
    requires Synced(m, own, banned, mark) && ip in banned
    ensures Synced(m - {IpBits(ip)}, own, banned - {ip}, mark)
  {
    hide IpBits;
    var m', banned' := m - {IpBits(ip)}, banned - {ip};
    forall x | x in banned' ensures IpBits(x) in m' && m'[IpBits(x)] == Entry(x.v6, mark) {
      if IpBits(x) == IpBits(ip) { HostsDiffer(x, ip); }
    }
    forall k | k in m' && k !in own ensures IsHost(banned', k) {
      var x :| x in banned && IpBits(x) == k;
      assert x in banned';
    }
  }

  /** What every address sees: its ban if it has one, and otherwise the engine's own routes. */
  lemma BannedSeeBan<M>(m: map<Bits, Entry<M>>, own: map<Bits, Entry<M>>, banned: map<Ip, int>, mark: M, ip: Ip)
    requires Synced(m, own, banned, mark) && ValidIp(ip)
    ensures Best(m, ip) == if ip in banned then Some(mark) else Best(own, ip)
  {
    hide IpBits;
    var f, g, bits := Family(m, ip.v6), Family(own, ip.v6), IpBits(ip);
    if ip in banned {
      assert bits[..|bits|] == bits && bits in f;
      assert Longest(f, bits) == Some(mark);
    } else {
      forall k | 0 <= k <= |bits|
        ensures bits[..k] in f <==> bits[..k] in g
        ensures bits[..k] in f ==> f[bits[..k]] == g[bits[..k]]
      {
        if bits[..k] in m && bits[..k] !in own {
          var x :| x in banned && IpBits(x) == bits[..k];
          HostIsWhole(x, ip, k);
        }
      }
      AgreeingMapsUpTo(f, g, bits, |bits|);
    }
  }

  /** A host route of the same family on an address's path is that address's own; one of the
      other family is invisible. */
  lemma HostIsWhole(x: Ip, ip: Ip, k: nat)
    requires ValidIp(x) && ValidIp(ip) && k <= |IpBits(ip)| && IpBits(x) == IpBits(ip)[..k]
    ensures x.v6 == ip.v6 ==> x == ip
  {
    assert |IpBits(x)| == 8 * |x.bytes| && |IpBits(ip)| == 8 * |ip.bytes|;
    if x.v6 == ip.v6 {
      assert IpBits(ip)[..k] == IpBits(ip);
      HostsDiffer(x, ip);
    }
  }

  /** Table and own routes determine the engine. */
  lemma SyncedUnique<M>(m: map<Bits, Entry<M>>, m': map<Bits, Entry<M>>, own: map<Bits, Entry<M>>,
                        banned: map<Ip, int>, mark: M)
    requires Synced(m, own, banned, mark) && Synced(m', own, banned, mark)
    ensures m == m'
  {
    hide IpBits;
    forall k | k in m || k in m' ensures k in m && k in m' && m[k] == m'[k] {
      if k !in own {
        var ip :| ip in banned && IpBits(ip) == k;
      }
    }
  }

  /** `p` is the route that decides for the address. */
  ghost predicate Decides<M>(m: map<Bits, Entry<M>>, p: Bits, a: Ip) {
    p <= IpBits(a) && IsLongestAt(Family(m, a.v6), IpBits(a), |p|)
  }

  /** What the address sees once the route `p` that decides for it is gone. */
  ghost function Fallback<M>(m: map<Bits, Entry<M>>, p: Bits, a: Ip): (r: Option<M>)
    requires Decides(m, p, a)
  {
    if p == [] then None else LongestUpTo(Family(m, a.v6), IpBits(a), |p| - 1)
  }

  lemma RouteLost<M>(m: map<Bits, Entry<M>>, p: Bits, a: Ip)
    ensures Best(m - {p}, a) == if Decides(m, p, a) then Fallback(m, p, a) else Best(m, a)
  {
    hide IpBits;
    assert Family(m - {p}, a.v6) == Family(m, a.v6) - {p};
    RemovalFallsBack(Family(m, a.v6), p, IpBits(a));
  }

  /** An IPv4 host route has the bits of the IPv6 /32 that starts with the same four bytes. */
  lemma HostSharesBits(ip: Ip, net: Net)
    requires ValidIp(ip) && !ip.v6 && ValidNet(net) && net.ip.v6 && net.len == 32 && net.ip.bytes[..4] == ip.bytes
    ensures NetBits(net) == IpBits(ip)
  {
    forall i | 0 <= i < 32 ensures GetBit(net.ip.bytes, i) == GetBit(ip.bytes, i) {
      assert net.ip.bytes[..4][i / 8] == ip.bytes[i / 8];
    }
  }

  class Tracker<M> {
    const config: Config
    const mark: M
    const engine: BitTrie<M>
    var violations: map<Ip, seq<int>>
    var banned: map<Ip, int>
    ghost var own: map<Bits, Entry<M>>

    /** The engine holds the bans of the table and, of the routes it had, those no ban has replaced. */
    ghost predicate Valid()
      reads this, engine, engine.nodes.Values
    {
      engine.Valid() && Synced(engine.Contents(), own, banned, mark)
    }

    constructor (config: Config, engine: BitTrie<M>, mark: M)
      requires engine.Valid()
      ensures Valid() && banned == map[] && violations == map[] && own == engine.Contents()
      ensures this.engine == engine && this.config == config && this.mark == mark
    {
      this.config, this.engine, this.mark := config, engine, mark;
      violations, banned := map[], map[];
      own := engine.Contents();
    }

    /** Counts a violation; at the threshold the address is banned until `now` plus the ban duration. */
    method RecordViolation(ip: Ip, now: int) returns (ban: bool)
      requires Valid() && ValidIp(ip)
      modifies this, engine, engine.nodes.Values
      ensures Valid() && fresh(engine.nodes.Values - old(engine.nodes.Values))
      ensures ban <==> Step(config, Memory(old(violations), ip), now).1
      ensures ban <==> |Positions(config, Memory(old(violations), ip), Cutoff(config, now))| + 1 >= config.threshold
      ensures violations == old(violations)[ip := Step(config, Memory(old(violations), ip), now).0]
      ensures banned == if ban then old(banned)[ip := now + config.duration] else old(banned)
      ensures own == if ban then old(own) - {IpBits(ip)} else old(own)
      ensures engine.Contents() == old(engine.Contents()) +
        if ban then map[IpBits(ip) := Entry(ip.v6, mark)] else map[]
    {
      hide IpBits, Live, Paths, Linked, Labelled, Synced, Step, Positions;
      ban := Count(ip, now);
      if ban {
        Ban(ip, now + config.duration);
      }
    }

    /** Prunes and extends the address's window; at the threshold it starts afresh. */
    method Count(ip: Ip, now: int) returns (ban: bool)
      modifies this`violations
      ensures ban <==> Step(config, Memory(old(violations), ip), now).1
      ensures ban <==> |Positions(config, Memory(old(violations), ip), Cutoff(config, now))| + 1 >= config.threshold
      ensures violations == old(violations)[ip := Step(config, Memory(old(violations), ip), now).0]
    {
      hide Keep, Positions;
      var prev := Memory(violations, ip);
      var slice := new int[|prev|](i requires 0 <= i < |prev| => prev[i]);
      assert slice[..] == prev;
      var w := FilterInPlace(config, slice, Cutoff(config, now));
      var filtered := slice[..w] + [now];
      ban := |filtered| >= config.threshold;
      violations := violations[ip := if ban then [] else filtered];
    }

    /** Puts the address in the table and its host route in the engine. */
    method Ban(ip: Ip, expiry: int)
      requires Valid() && ValidIp(ip)
      modifies this`banned, this`own, engine, engine.nodes.Values
      ensures Valid() && fresh(engine.nodes.Values - old(engine.nodes.Values))
      ensures banned == old(banned)[ip := expiry] && own == old(own) - {IpBits(ip)}
      ensures engine.Contents() == old(engine.Contents())[IpBits(ip) := Entry(ip.v6, mark)]
    {
      hide IpBits, Live, Paths, Linked, Labelled, Synced;
      HostNetIs(ip);
      BanSyncs(engine.Contents(), own, banned, mark, ip, expiry);
      banned := banned[ip := expiry];
      own := own - {IpBits(ip)};
      var _ := engine.Insert(HostNet(ip), mark);
    }

    /** Lifts every ban whose time has come, from the table and from the engine. */
    method Sweep(now: int)
      requires Valid()
      modifies this`banned, engine.nodes.Values
      ensures Valid()
      ensures forall ip :: ip in banned <==> ip in old(banned) && now < old(banned)[ip]
      ensures forall ip :: ip in banned ==> banned[ip] == old(banned)[ip]
    {
      hide IpBits, Live, Paths, Linked, Labelled, Synced;
      var expired := set ip | ip in banned && now >= banned[ip];
      while expired != {}
        invariant Valid()
        invariant forall ip :: ip in expired ==> ip in banned
        invariant forall ip :: ip in banned ==> ip in old(banned) && banned[ip] == old(banned)[ip]
        invariant forall ip :: ip in old(banned) && now < old(banned)[ip] ==> ip in banned
        invariant forall ip :: ip in banned && now >= banned[ip] ==> ip in expired
        invariant forall ip :: ip in expired ==> now >= banned[ip]
        decreases expired
      {
        var ip :| ip in expired;
        SyncedValid(engine.Contents(), own, banned, mark, ip);
        HostNetIs(ip);
        LiftSyncs(engine.Contents(), own, banned, mark, ip);
        banned := banned - {ip};
        var _ := engine.Remove(HostNet(ip));
        expired := expired - {ip};
      }
    }
  }

  /** A violation, then a sweep at a time when a ban it caused has expired. Unless the ban replaced a
      route of the engine's own, everyone whose ban has not been lifted sees what they saw before;
      otherwise exactly the addresses that route decided for fall back to their next shorter one. */
  method BanThenSweep<M>(t: Tracker<M>, ip: Ip, now: int, later: int) returns (ban: bool)
    requires t.Valid() && ValidIp(ip) && now + t.config.duration <= later
    modifies t, t.engine, t.engine.nodes.Values
    ensures t.Valid() && (ban <==> Step(t.config, Memory(old(t.violations), ip), now).1)
    ensures t.own == if ban then old(t.own) - {IpBits(ip)} else old(t.own)
    ensures forall a :: a in t.banned <==> Stays(old(t.banned), a, later) && !(ban && a == ip)
    ensures forall a :: ValidIp(a) && (a in old(t.banned) ==> a in t.banned) ==>
      Best(t.engine.Contents(), a) ==
        if ban && a !in t.banned && Decides(old(t.own), IpBits(ip), a) then Fallback(old(t.own), IpBits(ip), a)
        else Best(old(t.engine.Contents()), a)
    ensures ban && old(t.banned) == map[] ==>
      t.engine.Contents() == old(t.engine.Contents()) - {IpBits(ip)}
  {
    hide IpBits, Live, Paths, Linked, Labelled, Synced, Keep, Best, Decides, Fallback, Step;
    ghost var before, own, banned, mark := t.engine.Contents(), t.own, t.banned, t.mark;
    ban := t.RecordViolation(ip, now);
    t.Sweep(later);
    ghost var after := t.engine.Contents();
    forall a | ValidIp(a) && (a in banned ==> a in t.banned)
      ensures Best(after, a) ==
        if ban && a !in t.banned && Decides(own, IpBits(ip), a) then Fallback(own, IpBits(ip), a) else Best(before, a)
    {
      BannedSeeBan(before, own, banned, mark, a);
      BannedSeeBan(after, t.own, t.banned, mark, a);
      RouteLost(own, IpBits(ip), a);
    }
    if ban && banned == map[] {
      NoBans(before, own, mark);
      assert t.banned == map[];
      NoBans(after, t.own, mark);
    }
  }

  ghost predicate Stays(banned: map<Ip, int>, a: Ip, now: int) { a in banned && now < banned[a] }

  lemma NoBans<M>(m: map<Bits, Entry<M>>, own: map<Bits, Entry<M>>, mark: M)
    requires Synced(m, own, map[], mark)
    ensures m == own
  {
    assert Synced(own, own, map[], mark);
    SyncedUnique(m, own, own, map[], mark);
  }

  lemma SyncedValid<M>(m: map<Bits, Entry<M>>, own: map<Bits, Entry<M>>, banned: map<Ip, int>, mark: M, ip: Ip)
    requires Synced(m, own, banned, mark) && ip in banned
    ensures ValidIp(ip)
  {
  }
}
