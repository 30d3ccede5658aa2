/** The bit-packed token bucket: one 64-bit word of (seconds, tokens x 1000),
    refilled lazily and updated by compare-exchange. */
module TokenBucket {
  import opened Lpm

  const U32 := 0x1_0000_0000
  const U64 := 0x1_0000_0000_0000_0000
  const U32_MAX: nat := U32 - 1
  const U64_MAX: nat := U64 - 1
  const TOKEN: nat := 1000

  function Min(a: nat, b: nat): (m: nat) { if a < b then a else b }

  // ---- The word ----

  function Pack(ts: nat, fp: nat): (w: nat) { ts * U32 + fp }

  function Seconds(w: nat): (ts: nat) { w / U32 }

  function Tokens(w: nat): (fp: nat)
    ensures fp < U32
  {
    w % U32
  }

  /** Packing is a bijection between pairs of 32-bit values and 64-bit words. */
  lemma PackRoundTrip(ts: nat, fp: nat, w: nat)
    requires ts < U32 && fp < U32 && w < U64
    ensures Seconds(Pack(ts, fp)) == ts && Tokens(Pack(ts, fp)) == fp && Pack(ts, fp) < U64
    ensures Pack(Seconds(w), Tokens(w)) == w && Seconds(w) < U32
  {
  }

  lemma ShiftedUp(ts: bv32)
    ensures ((ts as bv64) << 32) as nat == (ts as nat) * 0x1_0000_0000
  {
  }

  lemma OredBelow(ts: bv32, fp: bv32)
    ensures (((ts as bv64) << 32) | (fp as bv64)) as nat == ((ts as bv64) << 32) as nat + fp as nat
  {
  }

  /** The word as the code makes it: the seconds shifted up by 32 bits, the tokens below. */
  lemma PackIsShift(ts: bv32, fp: bv32)
    ensures Pack(ts as nat, fp as nat) == (((ts as bv64) << 32) | (fp as bv64)) as nat
  {
    ShiftedUp(ts);
    OredBelow(ts, fp);
  }

  // ---- One attempt ----

  /** Capacity and refill rate; the products the code forms fit 64 bits. */
  datatype Limit = Limit(capacity: nat, rate: nat)

  predicate Fits(l: Limit) {
    l.capacity * 1000 < U64 && l.rate * 1000 < U64
  }

  function CapFp(l: Limit): (c: nat)
    ensures c < U32
  {
    Min(l.capacity * 1000, U32_MAX)
  }

  function SatSub(a: nat, b: nat): (r: nat) { if a < b then 0 else a - b }

  /** The balance at `now`, computed in saturating 32- and 64-bit arithmetic. */
  function Balance(l: Limit, w: nat, now: nat): (fp: nat)
    requires Fits(l)
  {
    var elapsed := SatSub(now, Seconds(w));
    var refill := Min(Min(elapsed * (l.rate * 1000), U64_MAX), U32_MAX);
    Min(Min(Tokens(w) + refill, U32_MAX), CapFp(l))
  }

  /** The word to swap in, or None to reject. */
  function Attempt(l: Limit, w: nat, now: nat): (r: Option<nat>)
    requires Fits(l)
  {
    var fp := Balance(l, w, now);
    if fp < TOKEN then None else Some(Pack(now, fp - TOKEN))
  }

  /** Saturation never shows: the balance is the exact sum, clamped at the ceiling. */
  lemma BalanceIsExact(l: Limit, w: nat, now: nat)
    requires Fits(l)
    ensures Balance(l, w, now) == Min(Tokens(w) + SatSub(now, Seconds(w)) * (l.rate * 1000), CapFp(l))
  {
  }

  lemma AttemptIs(l: Limit, w: nat, now: nat)
    requires Fits(l) && now < U32
    ensures var a, fp := Attempt(l, w, now), Balance(l, w, now);
      && (a.Some? <==> fp >= TOKEN)
      && (a.Some? ==> Seconds(a.value) == now && Tokens(a.value) == fp - TOKEN && a.value < U64)
    ensures Balance(l, w, now) == Min(Tokens(w) + SatSub(now, Seconds(w)) * (l.rate * 1000), CapFp(l))
  {
    BalanceIsExact(l, w, now);
    var fp := Balance(l, w, now);
    if fp >= TOKEN { PackRoundTrip(now, fp - TOKEN, 0); }
  }

  class Bucket {
    var state: nat

    constructor (capacity: nat, now: nat)
      requires capacity * 1000 < U64 && now < U32
      ensures Seconds(state) == now && Tokens(state) == Min(capacity * 1000, U32_MAX)
    {
      state := Pack(now, Min(capacity * 1000, U32_MAX));
      PackRoundTrip(now, Min(capacity * 1000, U32_MAX), 0);
    }

    /** A call no other caller interferes with: the swap finds the word it loaded. */
    method Allow(l: Limit, now: nat) returns (ok: bool)
      requires Fits(l) && now < U32
      modifies this
      ensures ok <==> old(Balance(l, state, now)) >= TOKEN
      ensures ok ==> Seconds(state) == now && Tokens(state) == old(Balance(l, state, now)) - TOKEN
      ensures !ok ==> state == old(state)
    {
      AttemptIs(l, state, now);
      var next := Attempt(l, state, now);
      ok := next.Some?;
      if ok {
        state := next.value;
      }
    }
  }

  // ---- Concurrent callers ----

  /** Where a caller is: not in a call, about to load, or holding a loaded word. */
  datatype Pc = Idle | Calling(now: nat) | Loaded(now: nat, word: nat)

  /** A finished call: the clock it read and its answer. */
  datatype Call = Call(now: nat, admitted: bool)

  /** The shared word, every caller, the words swapped in so far, and the calls in the order they took effect. */
  datatype Sys = Sys(word: nat, pcs: map<nat, Pc>, log: seq<nat>, calls: seq<Call>)

  datatype Action = Start(id: nat, now: nat) | Load(id: nat) | CompareExchange(id: nat)

  function PcOf(s: Sys, id: nat): (pc: Pc) { if id in s.pcs then s.pcs[id] else Idle }

  /** One atomic step of one caller; a step that is not enabled changes nothing. */
  function Do(l: Limit, s: Sys, a: Action): (s': Sys)
    requires Fits(l)
  {
    match (a, PcOf(s, a.id))
    case (Start(id, now), Idle) => s.(pcs := s.pcs[id := Calling(now)])
    case (Load(id), Calling(now)) =>
      if Attempt(l, s.word, now).None? then s.(pcs := s.pcs[id := Idle], calls := s.calls + [Call(now, false)])
      else s.(pcs := s.pcs[id := Loaded(now, s.word)])
    case (CompareExchange(id), Loaded(now, word)) =>
      if s.word != word then s.(pcs := s.pcs[id := Calling(now)])
      else
        var next := Attempt(l, word, now);
        if next.None? then s
        else Sys(next.value, s.pcs[id := Idle], s.log + [next.value], s.calls + [Call(now, true)])
    case _ => s
  }

  function Run(l: Limit, w: nat, acts: seq<Action>): (s: Sys)
    requires Fits(l)
  {
    if acts == [] then Sys(w, map[], [], []) else Do(l, Run(l, w, acts[..|acts| - 1]), acts[|acts| - 1])
  }

  ghost predicate ClockIn32Bits(acts: seq<Action>) {
    forall i :: 0 <= i < |acts| && acts[i].Start? ==> acts[i].now < U32
  }

  /** The word before swap `k`. */
  function Before(w: nat, log: seq<nat>, k: nat): (r: nat)
    requires k <= |log|
  {
    if k == 0 then w else log[k - 1]
  }

  /** Each word in the log is what one undisturbed call makes of the word before it. */
  ghost predicate Sequential(l: Limit, w: nat, log: seq<nat>)
    requires Fits(l)
  {
    forall k :: 0 <= k < |log| ==>
      Seconds(log[k]) < U32 && Attempt(l, Before(w, log, k), Seconds(log[k])) == Some(log[k])
  }

  ghost predicate CallersInRange(s: Sys) {
    forall id :: id in s.pcs && !s.pcs[id].Idle? ==> s.pcs[id].now < U32
  }

  ghost predicate Explained(l: Limit, w: nat, s: Sys)
    requires Fits(l)
  {
    Sequential(l, w, s.log) && s.word == Before(w, s.log, |s.log|) && CallersInRange(s)
  }

  lemma StepExplained(l: Limit, w: nat, s: Sys, a: Action)
    requires Fits(l) && Explained(l, w, s) && (a.Start? ==> a.now < U32)
    ensures Explained(l, w, Do(l, s, a))
  {
    hide Attempt, Seconds, Tokens, Balance, CapFp, Fits;
    var s' := Do(l, s, a);
    if s'.log != s.log {
      AttemptIs(l, s.word, PcOf(s, a.id).now);
      assert forall k :: 0 <= k <= |s.log| ==> Before(w, s'.log, k) == Before(w, s.log, k);
    }
  }

  /** The word after the calls, made one after the other with nobody interfering. */
  function Replay(l: Limit, w: nat, calls: seq<Call>): (word: nat)
    requires Fits(l)
  {
    if calls == [] then w else
      var before := Replay(l, w, calls[..|calls| - 1]);
      var next := Attempt(l, before, calls[|calls| - 1].now);
      if next.Some? then next.value else before
  }

  /** Made one after the other, every call gets the answer it got, and the word ends as `word`. */
  ghost predicate Replayed(l: Limit, w: nat, word: nat, calls: seq<Call>)
    requires Fits(l)
  {
    && word == Replay(l, w, calls)
    && forall k :: 0 <= k < |calls| ==>
         calls[k].admitted == Attempt(l, Replay(l, w, calls[..k]), calls[k].now).Some?
  }

  lemma OneMoreReplayed(l: Limit, w: nat, word: nat, calls: seq<Call>, now: nat)
    requires Fits(l) && Replayed(l, w, word, calls)
    ensures var next := Attempt(l, word, now);
      Replayed(l, w, if next.Some? then next.value else word, calls + [Call(now, next.Some?)])
  {
    hide Attempt, Fits;
    var calls' := calls + [Call(now, Attempt(l, word, now).Some?)];
    assert calls'[..|calls|] == calls;
    forall k | 0 <= k < |calls'|
      ensures calls'[k].admitted == Attempt(l, Replay(l, w, calls'[..k]), calls'[k].now).Some?
    {
      assert k < |calls| ==> calls'[..k] == calls[..k];
    }
  }

  lemma StepReplayed(l: Limit, w: nat, s: Sys, a: Action)
    requires Fits(l) && Replayed(l, w, s.word, s.calls)
    ensures Replayed(l, w, Do(l, s, a).word, Do(l, s, a).calls)
  {
    hide Attempt, Fits, Replayed;
    var pc := PcOf(s, a.id);
    if !pc.Idle? { OneMoreReplayed(l, w, s.word, s.calls, pc.now); }
  }

  /** Every interleaving of any number of callers is a sequence of undisturbed calls, rejected ones included. */
  lemma {:induction false} Linearizable(l: Limit, w: nat, acts: seq<Action>)
    requires Fits(l) && ClockIn32Bits(acts)
    ensures Replayed(l, w, Run(l, w, acts).word, Run(l, w, acts).calls) && Explained(l, w, Run(l, w, acts))
  {
    hide Attempt, Fits, Do, Replayed, Explained;
    if acts == [] {
      AtStart(l, w);
    } else {
      assert ClockIn32Bits(acts[..|acts| - 1]);
      Linearizable(l, w, acts[..|acts| - 1]);
      StepReplayed(l, w, Run(l, w, acts[..|acts| - 1]), acts[|acts| - 1]);
      StepExplained(l, w, Run(l, w, acts[..|acts| - 1]), acts[|acts| - 1]);
    }
  }

  lemma AtStart(l: Limit, w: nat)
    requires Fits(l)
    ensures Replayed(l, w, w, []) && Explained(l, w, Sys(w, map[], [], []))
  {
  }

  // ---- Every call is answered once ----

  /** Calls begun: the start steps of callers that were not in a call. */
  function Begun(l: Limit, w: nat, acts: seq<Action>): (n: nat)
    requires Fits(l)
  {
    if acts == [] then 0 else
      var init, a := acts[..|acts| - 1], acts[|acts| - 1];
      Begun(l, w, init) + if a.Start? && PcOf(Run(l, w, init), a.id).Idle? then 1 else 0
  }

  ghost function Busy(s: Sys): (ids: set<nat>) {
    set id | id in s.pcs && !s.pcs[id].Idle?
  }

  /** A loaded word is one that admits. */
  ghost predicate LoadedAdmits(l: Limit, s: Sys)
    requires Fits(l)
  {
    forall id :: id in s.pcs && s.pcs[id].Loaded? ==> Attempt(l, s.pcs[id].word, s.pcs[id].now).Some?
  }

  lemma BusySet(s: Sys, id: nat, pc: Pc)
    ensures var s' := s.(pcs := s.pcs[id := pc]);
      |Busy(s')| == |Busy(s)| + (if pc.Idle? then 0 else 1) - if PcOf(s, id).Idle? then 0 else 1
  {
    var s' := s.(pcs := s.pcs[id := pc]);
    if pc.Idle? {
      assert Busy(s') == Busy(s) - {id};
    } else if id in Busy(s) {
      assert Busy(s') == Busy(s);
    } else {
      assert Busy(s') == Busy(s) + {id};
    }
  }

  lemma StepAnswers(l: Limit, s: Sys, a: Action)
    requires Fits(l) && LoadedAdmits(l, s)
    ensures var s' := Do(l, s, a);
      && LoadedAdmits(l, s')
      && |s'.calls| + |Busy(s')| ==
           |s.calls| + |Busy(s)| + if a.Start? && PcOf(s, a.id).Idle? then 1 else 0
  {
    hide Attempt, Fits;
    var s' := Do(l, s, a);
    BusySet(s, a.id, PcOf(s', a.id));
    if s'.pcs != s.pcs {
      assert Busy(s') == Busy(s.(pcs := s.pcs[a.id := PcOf(s', a.id)]));
    }
  }

  /** In every interleaving every call begun is either answered, once, or still in progress: a caller whose
      swap fails goes on. */
  lemma {:induction false} CallsAccounted(l: Limit, w: nat, acts: seq<Action>)
    requires Fits(l)
    ensures var s := Run(l, w, acts); Begun(l, w, acts) == |s.calls| + |Busy(s)| && LoadedAdmits(l, s)
  {
    hide Do, Fits, Attempt;
    if acts != [] {
      CallsAccounted(l, w, acts[..|acts| - 1]);
      StepAnswers(l, Run(l, w, acts[..|acts| - 1]), acts[|acts| - 1]);
    }
  }

  /** From any state a run can reach, a caller that is left alone is answered within one retry, with the clock
      it read and by the word it finds. */
  lemma AloneFinishes(l: Limit, w: nat, acts: seq<Action>, id: nat)
    requires Fits(l) && !PcOf(Run(l, w, acts), id).Idle?
    ensures var s := Run(l, w, acts);
      var now := PcOf(s, id).now;
      var next := Attempt(l, s.word, now);
      var s' := Do(l, Do(l, Do(l, s, CompareExchange(id)), Load(id)), CompareExchange(id));
      && PcOf(s', id).Idle? && s'.calls == s.calls + [Call(now, next.Some?)]
      && s'.word == if next.Some? then next.value else s.word
  {
    hide Attempt, Fits;
    CallsAccounted(l, w, acts);
  }

  // ---- Conservation within one second ----

  lemma {:induction false} OneSecondLog(l: Limit, w: nat, log: seq<nat>, now: nat)
    requires Fits(l) && Sequential(l, w, log) && Seconds(w) == now < U32 && Tokens(w) <= CapFp(l)
    requires forall k :: 0 <= k < |log| ==> Seconds(log[k]) == now
    ensures Tokens(Before(w, log, |log|)) + TOKEN * |log| == Tokens(w)
  {
    hide Attempt, Seconds, Tokens, Balance, CapFp, Fits;
    if log != [] {
      var init := log[..|log| - 1];
      assert forall k :: 0 <= k <= |init| ==> Before(w, init, k) == Before(w, log, k);
      OneSecondLog(l, w, init, now);
      AttemptIs(l, Before(w, log, |log| - 1), now);
      assert SatSub(now, now) * (l.rate * 1000) == 0;
    }
  }

  /** Every swap made and every call in progress carries the clock reading `now`. */
  ghost predicate AllAt(s: Sys, now: nat) {
    && (forall k :: 0 <= k < |s.log| ==> Seconds(s.log[k]) == now)
    && (forall id :: id in s.pcs && !s.pcs[id].Idle? ==> s.pcs[id].now == now)
  }

  lemma StepAllAt(l: Limit, s: Sys, a: Action, now: nat)
    requires Fits(l) && now < U32 && AllAt(s, now) && (a.Start? ==> a.now == now)
    ensures AllAt(Do(l, s, a), now)
  {
    hide Attempt, Seconds, Tokens, Balance, CapFp, Fits;
    AttemptIs(l, s.word, now);
  }

  lemma {:induction false} SwapsCarryTheirNow(l: Limit, w: nat, acts: seq<Action>, now: nat)
    requires Fits(l) && now < U32
    requires forall i :: 0 <= i < |acts| && acts[i].Start? ==> acts[i].now == now
    ensures AllAt(Run(l, w, acts), now)
  {
    if acts != [] {
      SwapsCarryTheirNow(l, w, acts[..|acts| - 1], now);
      StepAllAt(l, Run(l, w, acts[..|acts| - 1]), acts[|acts| - 1], now);
    }
  }

  /** In one clock second, balance plus admissions is conserved in every interleaving. */
  lemma Conservation(l: Limit, w: nat, acts: seq<Action>, now: nat)
    requires Fits(l) && Seconds(w) == now < U32 && Tokens(w) <= CapFp(l)
    requires forall i :: 0 <= i < |acts| && acts[i].Start? ==> acts[i].now == now
    ensures var s := Run(l, w, acts); Tokens(s.word) + TOKEN * |s.log| == Tokens(w)
  {
    assert ClockIn32Bits(acts);
    Linearizable(l, w, acts);
    SwapsCarryTheirNow(l, w, acts, now);
    OneSecondLog(l, w, Run(l, w, acts).log, now);
  }

  // ---- The rate bound ----

  /** Seconds gained by swaps `i+1..=j`: the sum of the forward clock moves. */
  function Forward(log: seq<nat>, i: nat, j: nat): (d: nat)
    requires i <= j < |log|
    decreases j - i
  {
    if i == j then 0 else Forward(log, i, j - 1) + SatSub(Seconds(log[j]), Seconds(log[j - 1]))
  }

  /** Any stretch of admissions costs at most the ceiling plus what the forward clock moves refill. */
  lemma {:induction false} AdmissionBound(l: Limit, w: nat, log: seq<nat>, i: nat, j: nat)
    requires Fits(l) && Sequential(l, w, log) && i <= j < |log|
    ensures TOKEN * (j - i + 1) + Tokens(log[j]) <= CapFp(l) + Forward(log, i, j) * (l.rate * 1000)
    decreases j - i
  {
    hide Attempt, Seconds, Tokens, Balance, CapFp, Fits;
    AttemptIs(l, Before(w, log, j), Seconds(log[j]));
    if i < j {
      AdmissionBound(l, w, log, i, j - 1);
      Distribute(Forward(log, i, j - 1), SatSub(Seconds(log[j]), Seconds(log[j - 1])), l.rate * 1000);
    }
  }

  lemma Distribute(a: nat, b: nat, c: nat)
    ensures (a + b) * c == a * c + b * c
  {
  }

  ghost predicate Nondecreasing(log: seq<nat>) {
    forall i, j :: 0 <= i < j < |log| ==> Seconds(log[i]) <= Seconds(log[j])
  }

  lemma {:induction false} ForwardTelescopes(log: seq<nat>, i: nat, j: nat)
    requires i <= j < |log| && Nondecreasing(log)
    ensures Forward(log, i, j) == Seconds(log[j]) - Seconds(log[i])
    decreases j - i
  {
    hide Seconds;
    if i < j {
      ForwardTelescopes(log, i, j - 1);
    }
  }

  /** Over every run whose swaps carry a nondecreasing clock, the admissions between
      two of them never exceed capacity + rate x elapsed seconds. */
  lemma RateBound(l: Limit, w: nat, acts: seq<Action>)
    requires Fits(l) && ClockIn32Bits(acts) && Nondecreasing(Run(l, w, acts).log)
    ensures Bounded(l, Run(l, w, acts).log)
  {
    hide Run, Fits, Bounded, Sequential, Nondecreasing;
    Linearizable(l, w, acts);
    BoundedWhen(l, w, Run(l, w, acts).log);
  }

  lemma CapFpBound(l: Limit)
    ensures CapFp(l) <= l.capacity * 1000
  {
  }

  lemma Thousandths(n: nat, capacity: nat, rate: nat, d: nat)
    requires TOKEN * n <= capacity * 1000 + d * (rate * 1000)
    ensures n <= capacity + rate * d
  {
    assert d * (rate * 1000) == (rate * d) * 1000;
  }

  // ---- Stale clock readings ----

  /** Between any two swaps there are at most capacity + rate x elapsed seconds of them. */
  ghost predicate Bounded(l: Limit, log: seq<nat>) {
    forall i, j :: 0 <= i <= j < |log| ==> j - i + 1 <= l.capacity + l.rate * (Seconds(log[j]) - Seconds(log[i]))
  }

  /** A bucket of one token is empty after every swap, so the next one has to come later. */
  lemma {:induction false} OneTokenMovesOn(l: Limit, w: nat, log: seq<nat>, i: nat, j: nat)
    requires Fits(l) && Sequential(l, w, log) && l.capacity <= 1 && i < j < |log|
    ensures Seconds(log[i]) < Seconds(log[j])
    decreases j - i
  {
    hide Attempt, Seconds, Tokens, Balance, Fits;
    if i + 1 < j { OneTokenMovesOn(l, w, log, i, j - 1); }
    AttemptIs(l, Before(w, log, j - 1), Seconds(log[j - 1]));
    AttemptIs(l, Before(w, log, j), Seconds(log[j]));
    assert Tokens(log[j - 1]) == 0;
    assert SatSub(Seconds(log[j]), Seconds(log[j - 1])) == 0 ==> 0 * (l.rate * 1000) == 0;
  }

  lemma BoundedWhen(l: Limit, w: nat, log: seq<nat>)
    requires Fits(l) && Sequential(l, w, log) && (l.rate == 0 || l.capacity <= 1 || Nondecreasing(log))
    ensures Bounded(l, log)
  {
    hide Attempt, Seconds, Tokens, Balance, CapFp, Forward, Sequential, Fits;
    CapFpBound(l);
    forall i, j | 0 <= i <= j < |log|
      ensures j - i + 1 <= l.capacity + l.rate * (Seconds(log[j]) - Seconds(log[i]))
    {
      AdmissionBound(l, w, log, i, j);
      if l.rate == 0 {
        assert Forward(log, i, j) * (0 * 1000) == 0;
      } else {
        if l.capacity <= 1 {
          forall x, y | 0 <= x < y < |log| ensures Seconds(log[x]) <= Seconds(log[y]) {
            OneTokenMovesOn(l, w, log, x, y);
          }
        }
        ForwardTelescopes(log, i, j);
        Thousandths(j - i + 1, l.capacity, l.rate, Seconds(log[j]) - Seconds(log[i]));
      }
    }
  }

  /** The words of a full bucket swapped at second 2 and then by a caller that read the clock at 0, in turn. */
  function Late(l: Limit): (w: nat)
    requires l.capacity >= 2
  {
    Pack(2, CapFp(l) - TOKEN)
  }

  function Stale(l: Limit): (w: nat)
    requires l.capacity >= 2
  {
    Pack(0, CapFp(l) - 2 * TOKEN)
  }

  function StaleLog(l: Limit): (log: seq<nat>)
    requires l.capacity >= 2
  {
    seq(2 * l.capacity + 1, k => if k % 2 == 0 then Late(l) else Stale(l))
  }

  /** The two seconds in between refill both tokens each time. */
  lemma StaleLogSequential(l: Limit)
    requires Fits(l) && l.capacity >= 2 && l.rate >= 1
    ensures Sequential(l, Pack(0, CapFp(l)), StaleLog(l))
  {
    hide Attempt, Seconds, Pack, CapFp, Fits, Late, Stale, StaleLog;
    StaleSwaps(l);
    forall k | 0 <= k < |StaleLog(l)|
      ensures Seconds(StaleLog(l)[k]) < U32
      ensures Attempt(l, Before(Pack(0, CapFp(l)), StaleLog(l), k), Seconds(StaleLog(l)[k])) == Some(StaleLog(l)[k])
    {
      StaleAt(l, k);
      if k > 0 { StaleAt(l, k - 1); }
    }
  }

  lemma StaleAt(l: Limit, k: nat)
    requires l.capacity >= 2 && k < |StaleLog(l)|
    ensures StaleLog(l)[k] == if k % 2 == 0 then Late(l) else Stale(l)
  {
  }

  lemma StaleSwaps(l: Limit)
    requires Fits(l) && l.capacity >= 2 && l.rate >= 1
    ensures Attempt(l, Pack(0, CapFp(l)), 2) == Some(Late(l)) && Seconds(Late(l)) == 2
    ensures Attempt(l, Late(l), 0) == Some(Stale(l)) && Seconds(Stale(l)) == 0
    ensures Attempt(l, Stale(l), 2) == Some(Late(l))
  {
    var cap := CapFp(l);
    PackRoundTrip(0, cap, 0);
    PackRoundTrip(2, cap - TOKEN, 0);
    PackRoundTrip(0, cap - 2 * TOKEN, 0);
    BalanceIsExact(l, Pack(0, cap), 2);
    BalanceIsExact(l, Late(l), 0);
    BalanceIsExact(l, Stale(l), 2);
    assert 0 * (l.rate * 1000) == 0;
  }

  // Every caller of the log reads the clock first, those that read 0 before those that read 2;
  // then each loads and swaps in the log's order.

  function Starts(first: nat, n: nat, now: nat): (acts: seq<Action>) {
    seq(n, i requires 0 <= i < n => Start(2 * i + first, now))
  }

  function Swaps(n: nat): (acts: seq<Action>) {
    if n == 0 then [] else Swaps(n - 1) + [Load(n - 1), CompareExchange(n - 1)]
  }

  function StaleRun(l: Limit): (acts: seq<Action>) {
    Starts(1, l.capacity, 0) + Starts(0, l.capacity + 1, 2) + Swaps(2 * l.capacity + 1)
  }

  /** Callers that have read the clock and done nothing else. */
  lemma {:induction false} AfterStarts(l: Limit, w: nat, acts: seq<Action>)
    requires Fits(l) && forall i :: 0 <= i < |acts| ==> acts[i].Start?
    requires forall i, j :: 0 <= i < j < |acts| ==> acts[i].id != acts[j].id
    ensures var s := Run(l, w, acts); s.word == w && s.log == []
    ensures forall i :: 0 <= i < |acts| ==> PcOf(Run(l, w, acts), acts[i].id) == Calling(acts[i].now)
    ensures forall id :: id in Run(l, w, acts).pcs ==> exists i :: 0 <= i < |acts| && acts[i].id == id
  {
    if acts != [] {
      var init, last := acts[..|acts| - 1], acts[|acts| - 1];
      AfterStarts(l, w, init);
      var s := Run(l, w, init);
      assert PcOf(s, last.id) == Idle;
      assert Run(l, w, acts).pcs == s.pcs[last.id := Calling(last.now)];
      forall i | 0 <= i < |acts| ensures PcOf(Run(l, w, acts), acts[i].id) == Calling(acts[i].now) {
        if i < |init| { assert acts[i] == init[i]; }
      }
      forall id | id in Run(l, w, acts).pcs ensures exists i :: 0 <= i < |acts| && acts[i].id == id {
        if id != last.id {
          var i :| 0 <= i < |init| && init[i].id == id;
          assert acts[i].id == id;
        }
      }
    }
  }

  lemma RunMore(l: Limit, w: nat, acts: seq<Action>, a: Action, b: Action)
    requires Fits(l)
    ensures Run(l, w, acts + [a, b]) == Do(l, Do(l, Run(l, w, acts), a), b)
  {
    hide Do;
    assert (acts + [a, b])[..|acts| + 1] == acts + [a] && (acts + [a])[..|acts|] == acts;
  }

  /** Undisturbed, a caller that has read its clock swaps in the next word of the log. */
  lemma OneSwap(l: Limit, s: Sys, id: nat, now: nat, next: nat)
    requires Fits(l) && PcOf(s, id) == Calling(now) && Attempt(l, s.word, now) == Some(next)
    ensures var s' := Do(l, Do(l, s, Load(id)), CompareExchange(id));
      s'.word == next && s'.log == s.log + [next] && forall k :: k != id ==> PcOf(s', k) == PcOf(s, k)
  {
    hide Attempt, Fits;
    assert PcOf(Do(l, s, Load(id)), id) == Loaded(now, s.word);
  }

  /** The first `n` swaps of the log are made, and the callers of the others still hold their clocks. */
  ghost predicate SwappedTo(s: Sys, w: nat, log: seq<nat>, n: nat)
    requires n <= |log|
  {
    && s.word == Before(w, log, n) && s.log == log[..n]
    && forall k :: n <= k < |log| ==> PcOf(s, k) == Calling(Seconds(log[k]))
  }

  lemma NextSwap(l: Limit, w: nat, s: Sys, log: seq<nat>, n: nat)
    requires Fits(l) && n < |log| && SwappedTo(s, w, log, n)
    requires Attempt(l, Before(w, log, n), Seconds(log[n])) == Some(log[n])
    ensures SwappedTo(Do(l, Do(l, s, Load(n)), CompareExchange(n)), w, log, n + 1)
  {
    hide Attempt, Seconds, Fits, Do, PcOf;
    OneSwap(l, s, n, Seconds(log[n]), log[n]);
    assert log[..n + 1] == log[..n] + [log[n]];
  }

  lemma {:induction false} AfterSwaps(l: Limit, w: nat, acts: seq<Action>, log: seq<nat>, n: nat)
    requires Fits(l) && Sequential(l, w, log) && n <= |log|
    requires Ready(Run(l, w, acts), w, log)
    ensures SwappedTo(Run(l, w, acts + Swaps(n)), w, log, n)
  {
    hide Attempt, Seconds, Fits, Do, Run, PcOf, Sequential;
    if n == 0 {
      assert acts + Swaps(0) == acts;
    } else {
      hide SwappedTo, Ready;
      AfterSwaps(l, w, acts, log, n - 1);
      var before := acts + Swaps(n - 1);
      assert acts + Swaps(n) == before + [Load(n - 1), CompareExchange(n - 1)];
      RunMore(l, w, before, Load(n - 1), CompareExchange(n - 1));
      SequentialAt(l, w, log, n - 1);
      NextSwap(l, w, Run(l, w, before), log, n - 1);
    }
  }

  lemma SequentialAt(l: Limit, w: nat, log: seq<nat>, k: nat)
    requires Fits(l) && Sequential(l, w, log) && k < |log|
    ensures Attempt(l, Before(w, log, k), Seconds(log[k])) == Some(log[k])
  {
  }

  /** The clock goes forward: later calls read later times. */
  ghost predicate ClockGoesForward(acts: seq<Action>) {
    && ClockIn32Bits(acts)
    && forall i, j :: 0 <= i < j < |acts| && acts[i].Start? && acts[j].Start? ==> acts[i].now <= acts[j].now
  }

  lemma {:induction false} SwapsDoNotStart(n: nat)
    ensures forall i :: 0 <= i < |Swaps(n)| ==> !Swaps(n)[i].Start?
  {
    if n > 0 { SwapsDoNotStart(n - 1); }
  }

  /** With room for two tokens and any refill, a caller that swaps late puts the word back in time,
      and the same two seconds are paid out again and again, although the clock itself goes forward. */
  lemma StaleClockOverspends(l: Limit)
    requires Fits(l) && l.capacity >= 2 && l.rate >= 1
    ensures ClockGoesForward(StaleRun(l))
    ensures NewBefore(Pack(0, CapFp(l)), l, StaleRun(l))
    ensures Run(l, Pack(0, CapFp(l)), StaleRun(l)).log == StaleLog(l) && !Bounded(l, StaleLog(l))
  {
    StaleSwaps(l);
    StaleRunForward(l);
    StaleRunLogs(l);
    PackRoundTrip(0, CapFp(l), 0);
    hide Attempt, Seconds, Pack, CapFp, Fits, Run, StaleRun, ClockGoesForward;
    var log, n := StaleLog(l), 2 * l.capacity + 1;
    assert log[0] == log[n - 1] == Late(l);
    assert l.rate * 0 == 0;
  }

  lemma StaleRunForward(l: Limit)
    ensures ClockGoesForward(StaleRun(l))
  {
    SwapsDoNotStart(2 * l.capacity + 1);
    StartsCover(l);
    var starts := Starts(1, l.capacity, 0) + Starts(0, l.capacity + 1, 2);
    assert forall i :: 0 <= i < |StaleRun(l)| && StaleRun(l)[i].Start? ==> i < |starts| && StaleRun(l)[i] == starts[i];
  }

  lemma StaleRunLogs(l: Limit)
    requires Fits(l) && l.capacity >= 2 && l.rate >= 1
    ensures Run(l, Pack(0, CapFp(l)), StaleRun(l)).log == StaleLog(l)
  {
    var starts := Starts(1, l.capacity, 0) + Starts(0, l.capacity + 1, 2);
    StaleLogSequential(l);
    StaleReady(l, Pack(0, CapFp(l)));
    assert StaleRun(l) == starts + Swaps(|StaleLog(l)|);
    hide *;
    RunsTheLog(l, Pack(0, CapFp(l)), starts, StaleLog(l));
  }

  lemma RunsTheLog(l: Limit, w: nat, acts: seq<Action>, log: seq<nat>)
    requires Fits(l) && Sequential(l, w, log) && Ready(Run(l, w, acts), w, log)
    ensures Run(l, w, acts + Swaps(|log|)).log == log
  {
    hide Fits, Sequential, Run, Swaps, Attempt, PcOf, Seconds;
    AfterSwaps(l, w, acts, log, |log|);
    assert log[..|log|] == log;
  }

  /** Nothing has been swapped yet, and the callers of the log's swaps have read their clocks. */
  ghost predicate Ready(s: Sys, w: nat, log: seq<nat>) {
    s.word == w && s.log == [] && forall k :: 0 <= k < |log| ==> PcOf(s, k) == Calling(Seconds(log[k]))
  }

  lemma StaleReady(l: Limit, w: nat)
    requires Fits(l) && l.capacity >= 2 && l.rate >= 1
    ensures Ready(Run(l, w, Starts(1, l.capacity, 0) + Starts(0, l.capacity + 1, 2)), w, StaleLog(l))
  {
    StaleCallers(l, w);
    StaleSwaps(l);
    var s := Run(l, w, Starts(1, l.capacity, 0) + Starts(0, l.capacity + 1, 2));
    hide Fits, Run, Starts, PcOf, Seconds, Attempt, Pack, CapFp, Late, Stale;
    forall k | 0 <= k < |StaleLog(l)| ensures PcOf(s, k) == Calling(Seconds(StaleLog(l)[k])) {
      assert StaleLog(l)[k] == if k % 2 == 0 then Late(l) else Stale(l);
    }
  }

  lemma StaleCallers(l: Limit, w: nat)
    requires Fits(l)
    ensures var s := Run(l, w, Starts(1, l.capacity, 0) + Starts(0, l.capacity + 1, 2));
      && s.word == w && s.log == []
      && forall k :: 0 <= k < 2 * l.capacity + 1 ==> PcOf(s, k) == Calling(if k % 2 == 0 then 2 else 0)
  {
    var starts := Starts(1, l.capacity, 0) + Starts(0, l.capacity + 1, 2);
    StartsCover(l);
    hide Fits, Run, Starts, PcOf;
    AfterStarts(l, w, starts);
    forall k | 0 <= k < 2 * l.capacity + 1
      ensures PcOf(Run(l, w, starts), k) == Calling(if k % 2 == 0 then 2 else 0)
    {
      var i := if k % 2 == 1 then k / 2 else l.capacity + k / 2;
      assert starts[i] == Start(k, if k % 2 == 0 then 2 else 0);
    }
  }

  lemma StartsCover(l: Limit)
    ensures var starts := Starts(1, l.capacity, 0) + Starts(0, l.capacity + 1, 2);
      && |starts| == 2 * l.capacity + 1
      && (forall i :: 0 <= i < l.capacity ==> starts[i] == Start(2 * i + 1, 0))
      && (forall i :: l.capacity <= i < |starts| ==> starts[i] == Start(2 * (i - l.capacity), 2))
      && (forall i, j :: 0 <= i < j < |starts| ==> starts[i].id != starts[j].id)
  {
    var starts := Starts(1, l.capacity, 0) + Starts(0, l.capacity + 1, 2);
    forall i, j | 0 <= i < j < |starts| ensures starts[i].id != starts[j].id {
      assert starts[i].id % 2 == if i < l.capacity then 1 else 0;
      assert starts[j].id % 2 == if j < l.capacity then 1 else 0;
    }
  }

  /** A new bucket, full and created no later than any of the calls. */
  ghost predicate NewBefore(w: nat, l: Limit, acts: seq<Action>) {
    && w < U64 && Tokens(w) == CapFp(l)
    && forall i :: 0 <= i < |acts| && acts[i].Start? ==> Seconds(w) <= acts[i].now
  }

  ghost predicate RateHolds(l: Limit)
    requires Fits(l)
  {
    forall w, acts :: ClockGoesForward(acts) && NewBefore(w, l, acts) ==> Bounded(l, Run(l, w, acts).log)
  }

  /** From a new bucket and with a clock that goes forward, the rate is kept in every interleaving of any
      number of callers if and only if nothing is ever refilled or the bucket holds at most one token. */
  lemma RateHoldsIff(l: Limit)
    requires Fits(l)
    ensures RateHolds(l) <==> l.rate == 0 || l.capacity <= 1
  {
    hide Run, Fits, Bounded, Sequential, ClockIn32Bits, NewBefore;
    if l.rate == 0 || l.capacity <= 1 {
      forall w, acts | ClockGoesForward(acts) && NewBefore(w, l, acts) ensures Bounded(l, Run(l, w, acts).log) {
        Linearizable(l, w, acts);
        BoundedWhen(l, w, Run(l, w, acts).log);
      }
    } else {
      StaleClockOverspends(l);
    }
  }
}
