/** The lazy bucket against an ideal bucket that is refilled and clamped every
    second, and the Go limiter against the Rust bucket. */
module Limiters {
  import opened Lpm
  import opened TokenBucket

  // ---- The ideal bucket ----

  datatype Ideal = Ideal(time: nat, tokens: nat)

  /** `n` seconds of refilling, clamped after each one. */
  function Ticks(l: Limit, tokens: nat, n: nat): (r: nat) {
    if n == 0 then tokens else Min(Ticks(l, tokens, n - 1) + l.rate * 1000, CapFp(l))
  }

  function IdealCall(l: Limit, s: Ideal, now: nat): (r: (Ideal, bool))
    requires s.time <= now
  {
    var tokens := Ticks(l, s.tokens, now - s.time);
    if tokens < TOKEN then (Ideal(now, tokens), false) else (Ideal(now, tokens - TOKEN), true)
  }

  function LazyCall(l: Limit, w: nat, now: nat): (r: (nat, bool))
    requires Fits(l)
  {
    var next := Attempt(l, w, now);
    if next.Some? then (next.value, true) else (w, false)
  }

  /** Clamping once at the end is clamping every second. */
  lemma {:induction false} TicksClosedForm(l: Limit, tokens: nat, n: nat)
    requires tokens <= CapFp(l)
    ensures Ticks(l, tokens, n) == Min(tokens + n * (l.rate * 1000), CapFp(l))
  {
    hide CapFp;
    if n > 0 {
      TicksClosedForm(l, tokens, n - 1);
      Distribute(n - 1, 1, l.rate * 1000);
    }
  }

  /** The ideal balance is the stored one plus the refill since the last admission. */
  ghost predicate Related(l: Limit, w: nat, s: Ideal) {
    && Seconds(w) <= s.time && Tokens(w) <= CapFp(l)
    && s.tokens == Min(Tokens(w) + (s.time - Seconds(w)) * (l.rate * 1000), CapFp(l))
  }

  lemma CallRefines(l: Limit, w: nat, s: Ideal, now: nat)
    requires Fits(l) && Related(l, w, s) && s.time <= now < U32
    ensures LazyCall(l, w, now).1 == IdealCall(l, s, now).1
    ensures Related(l, LazyCall(l, w, now).0, IdealCall(l, s, now).0)
  {
    hide Attempt, Balance, Seconds, Tokens, CapFp, Fits, Ticks;
    AttemptIs(l, w, now);
    TicksClosedForm(l, s.tokens, now - s.time);
    Distribute(s.time - Seconds(w), now - s.time, l.rate * 1000);
    assert (now - now) * (l.rate * 1000) == 0;
  }

  /** A new bucket is full in both. */
  lemma NewBucketRelated(l: Limit, now: nat)
    requires now < U32
    ensures Related(l, Pack(now, CapFp(l)), Ideal(now, CapFp(l)))
  {
    hide CapFp, Pack, Seconds, Tokens;
    PackRoundTrip(now, CapFp(l), 0);
    assert (now - now) * (l.rate * 1000) == 0;
  }

  ghost predicate Monotone(from: nat, times: seq<nat>) {
    && (forall i :: 0 <= i < |times| ==> from <= times[i] < U32)
    && (forall i, j :: 0 <= i < j < |times| ==> times[i] <= times[j])
  }

  function LazyTrace(l: Limit, w: nat, times: seq<nat>): (ds: seq<bool>)
    requires Fits(l)
    decreases |times|
  {
    if times == [] then [] else
      var (w', d) := LazyCall(l, w, times[0]);
      [d] + LazyTrace(l, w', times[1..])
  }

  ghost function IdealTrace(l: Limit, s: Ideal, times: seq<nat>): (ds: seq<bool>)
    requires Monotone(s.time, times)
    decreases |times|
  {
    if times == [] then [] else
      var (s', d) := IdealCall(l, s, times[0]);
      [d] + IdealTrace(l, s', times[1..])
  }

  /** On every trace with a nondecreasing clock, the packed, saturating, lazily refilled
      bucket decides as the ideal one: rejected calls lose and gain nothing. */
  lemma {:induction false} TraceRefines(l: Limit, w: nat, s: Ideal, times: seq<nat>)
    requires Fits(l) && Related(l, w, s) && Monotone(s.time, times)
    ensures LazyTrace(l, w, times) == IdealTrace(l, s, times)
    decreases |times|
  {
    hide LazyCall, IdealCall, Related, Fits;
    if times != [] {
      CallRefines(l, w, s, times[0]);
      IdealTime(l, s, times[0]);
      TraceRefines(l, LazyCall(l, w, times[0]).0, IdealCall(l, s, times[0]).0, times[1..]);
    }
  }

  lemma IdealTime(l: Limit, s: Ideal, now: nat)
    requires s.time <= now
    ensures IdealCall(l, s, now).0.time == now
  {
  }

  // ---- The Go limiter: idle reset and wrapping arithmetic ----

  datatype GoConfig = GoConfig(capacity: nat, rate: nat, ttl: nat)

  function LimitOf(c: GoConfig): (l: Limit) { Limit(c.capacity, c.rate) }

  /** The ceiling in thousandths, cut to 32 bits. */
  function Ceiling(c: GoConfig): (fp: nat)
    ensures fp < U32
  {
    c.capacity * 1000 % U32
  }

  /** The word a call starts from: created, or reset when idle for more than the TTL. */
  function GetOrCreate(c: GoConfig, st: Option<nat>, now: nat): (w: nat) {
    match st
    case None => Pack(now, Ceiling(c))
    case Some(w) => if (now - Seconds(w)) % U32 > c.ttl then Pack(now, Ceiling(c)) else w
  }

  /** The balance at `now`, in wrapping 64- and 32-bit arithmetic. */
  function Refilled(c: GoConfig, w: nat, now: nat): (fp: nat) {
    var elapsed := if now < Seconds(w) then 0 else now - Seconds(w);
    var refill := elapsed * c.rate * 1000 % U64 % U32;
    var sum := (Tokens(w) + refill) % U32;
    if sum > Ceiling(c) then Ceiling(c) else sum
  }

  function Consume(c: GoConfig, w: nat, now: nat): (r: (nat, bool)) {
    var fp := Refilled(c, w, now);
    if fp < TOKEN then (w, false) else (Pack(now, fp - TOKEN), true)
  }

  function GoCall(c: GoConfig, st: Option<nat>, now: nat): (r: (Option<nat>, bool)) {
    var (w, ok) := Consume(c, GetOrCreate(c, st, now), now);
    (Some(w), ok)
  }

  /** The Rust bucket behind the same key: created full on first use, never reset. */
  function RustCall(c: GoConfig, st: Option<nat>, now: nat): (r: (Option<nat>, bool))
    requires Fits(LimitOf(c))
  {
    var w := if st.None? then Pack(now, CapFp(LimitOf(c))) else st.value;
    var (w', ok) := LazyCall(LimitOf(c), w, now);
    (Some(w'), ok)
  }

  function GoAfter(c: GoConfig, times: seq<nat>): (st: Option<nat>) {
    if times == [] then None else GoCall(c, GoAfter(c, times[..|times| - 1]), times[|times| - 1]).0
  }

  function RustAfter(c: GoConfig, times: seq<nat>): (st: Option<nat>)
    requires Fits(LimitOf(c))
  {
    if times == [] then None else RustCall(c, RustAfter(c, times[..|times| - 1]), times[|times| - 1]).0
  }

  function GoTrace(c: GoConfig, times: seq<nat>): (ds: seq<bool>)
    ensures |ds| == |times|
  {
    if times == [] then [] else
      var init := times[..|times| - 1];
      GoTrace(c, init) + [GoCall(c, GoAfter(c, init), times[|times| - 1]).1]
  }

  function RustTrace(c: GoConfig, times: seq<nat>): (ds: seq<bool>)
    requires Fits(LimitOf(c))
    ensures |ds| == |times|
  {
    if times == [] then [] else
      var init := times[..|times| - 1];
      RustTrace(c, init) + [RustCall(c, RustAfter(c, init), times[|times| - 1]).1]
  }

  // ---- Balances ----

  function GoBalance(c: GoConfig, st: Option<nat>, now: nat): (fp: nat) { Refilled(c, GetOrCreate(c, st, now), now) }

  function RustBalance(c: GoConfig, st: Option<nat>, now: nat): (fp: nat)
    requires Fits(LimitOf(c))
  {
    Balance(LimitOf(c), if st.None? then Pack(now, CapFp(LimitOf(c))) else st.value, now)
  }

  lemma GoCallIs(c: GoConfig, st: Option<nat>, now: nat)
    ensures var b := GoBalance(c, st, now);
      GoCall(c, st, now) ==
        if b < TOKEN then (Some(GetOrCreate(c, st, now)), false) else (Some(Pack(now, b - TOKEN)), true)
  {
  }

  lemma RustCallIs(c: GoConfig, st: Option<nat>, now: nat)
    requires Fits(LimitOf(c))
    ensures var b := RustBalance(c, st, now);
      && (b >= TOKEN ==> RustCall(c, st, now) == (Some(Pack(now, b - TOKEN)), true))
      && (b < TOKEN ==> !RustCall(c, st, now).1 && (st.Some? ==> RustCall(c, st, now).0 == st))
  {
  }

  /** Cutting to 64 bits first makes no difference. */
  lemma ModMod(x: nat)
    ensures x % U64 % U32 == x % U32
  {
    var q, r := x / U64, x % U64;
    var a, b := r / U32, r % U32;
    assert x == U32 * (U32 * q + a) + b;
    ModUnique(x, U32 * q + a, b);
  }

  lemma ModUnique(x: nat, k: nat, b: nat)
    requires x == U32 * k + b && b < U32
    ensures x % U32 == b
  {
  }

  function Refill(c: GoConfig, elapsed: nat): (x: nat) { elapsed * (c.rate * 1000) }

  /** What a stored word is worth after some seconds, in each limiter. */
  lemma GoGap(c: GoConfig, s: nat, fp: nat, now: nat)
    requires s <= now < U32 && fp < U32
    ensures GoBalance(c, Some(Pack(s, fp)), now) ==
      if now - s > c.ttl then Ceiling(c) else Min((fp + Refill(c, now - s) % U32) % U32, Ceiling(c))
  {
    hide Pack, Seconds, Tokens;
    PackRoundTrip(s, fp, 0);
    PackRoundTrip(now, Ceiling(c), 0);
    SmallMod(now - s);
    assert (now - s) * c.rate * 1000 == Refill(c, now - s) by { Thousand(now - s, c.rate); }
    ModMod(Refill(c, now - s));
    GoFresh(c, now);
  }

  lemma Thousand(a: nat, b: nat)
    ensures a * (b * 1000) == a * b * 1000
  {
  }

  lemma SmallMod(x: nat)
    requires x < U32
    ensures x % U32 == x
  {
  }

  lemma GoFresh(c: GoConfig, now: nat)
    requires now < U32
    ensures GoBalance(c, None, now) == Refilled(c, Pack(now, Ceiling(c)), now) == Ceiling(c)
  {
    hide Pack, Seconds, Tokens;
    PackRoundTrip(now, Ceiling(c), 0);
    assert 0 * c.rate * 1000 % U64 % U32 == 0;
    SmallMod(Ceiling(c));
  }

  lemma RustGap(c: GoConfig, s: nat, fp: nat, now: nat)
    requires Fits(LimitOf(c)) && s <= now < U32 && fp < U32
    ensures RustBalance(c, Some(Pack(s, fp)), now) == Min(fp + Refill(c, now - s), CapFp(LimitOf(c)))
    ensures RustBalance(c, None, now) == CapFp(LimitOf(c))
  {
    hide Pack, Seconds, Tokens, Balance, Fits, CapFp;
    var l := LimitOf(c);
    PackRoundTrip(s, fp, 0);
    PackRoundTrip(now, CapFp(l), 0);
    BalanceIsExact(l, Pack(s, fp), now);
    BalanceIsExact(l, Pack(now, CapFp(l)), now);
    assert 0 * (l.rate * 1000) == 0;
  }

  // ---- Calls in one second spend a balance down ----

  ghost function Repeat(t: nat, n: nat): (times: seq<nat>)
    ensures |times| == n && forall i :: 0 <= i < n ==> times[i] == t
  {
    if n == 0 then [] else Repeat(t, n - 1) + [t]
  }

  lemma Snoc(c: GoConfig, times: seq<nat>, t: nat)
    ensures GoAfter(c, times + [t]) == GoCall(c, GoAfter(c, times), t).0
    ensures GoTrace(c, times + [t])[|times|] == GoCall(c, GoAfter(c, times), t).1
    ensures Fits(LimitOf(c)) ==> RustAfter(c, times + [t]) == RustCall(c, RustAfter(c, times), t).0
    ensures Fits(LimitOf(c)) ==> RustTrace(c, times + [t])[|times|] == RustCall(c, RustAfter(c, times), t).1
  {
    hide GoCall, RustCall, Fits;
    assert (times + [t])[..|times|] == times;
  }

  lemma {:induction false} GoBurst(c: GoConfig, before: seq<nat>, t: nat, n: nat)
    requires t < U32 && TOKEN * n <= GoBalance(c, GoAfter(c, before), t)
    ensures var b, st := GoBalance(c, GoAfter(c, before), t), GoAfter(c, before + Repeat(t, n));
      GoBalance(c, st, t) == b - TOKEN * n && (n > 0 ==> st == Some(Pack(t, b - TOKEN * n)))
  {
    hide GoBalance, GoCall, GoTrace, RustTrace, Pack, GetOrCreate, GoAfter;
    if n == 0 {
      assert before + Repeat(t, 0) == before;
    } else {
      GoBurst(c, before, t, n - 1);
      var b := GoBalance(c, GoAfter(c, before), t);
      assert before + Repeat(t, n) == before + Repeat(t, n - 1) + [t];
      Snoc(c, before + Repeat(t, n - 1), t);
      GoCallIs(c, GoAfter(c, before + Repeat(t, n - 1)), t);
      BalanceBelow(c, GoAfter(c, before), t);
      GoGap(c, t, b - TOKEN * n, t);
      assert Refill(c, 0) % U32 == 0 by { assert 0 * (c.rate * 1000) == 0; }
      SmallMod(b - TOKEN * n);
    }
  }

  lemma BalanceBelow(c: GoConfig, st: Option<nat>, t: nat)
    ensures GoBalance(c, st, t) <= Ceiling(c)
  {
  }

  lemma {:induction false} RustBurst(c: GoConfig, before: seq<nat>, t: nat, n: nat)
    requires Fits(LimitOf(c)) && t < U32 && TOKEN * n <= RustBalance(c, RustAfter(c, before), t)
    ensures var b, st := RustBalance(c, RustAfter(c, before), t), RustAfter(c, before + Repeat(t, n));
      RustBalance(c, st, t) == b - TOKEN * n && (n > 0 ==> st == Some(Pack(t, b - TOKEN * n)))
  {
    hide RustBalance, RustCall, GoTrace, RustTrace, Pack, Fits, CapFp, RustAfter;
    if n == 0 {
      assert before + Repeat(t, 0) == before;
    } else {
      RustBurst(c, before, t, n - 1);
      var b := RustBalance(c, RustAfter(c, before), t);
      assert before + Repeat(t, n) == before + Repeat(t, n - 1) + [t];
      Snoc(c, before + Repeat(t, n - 1), t);
      RustCallIs(c, RustAfter(c, before + Repeat(t, n - 1)), t);
      RustBelow(c, RustAfter(c, before), t);
      RustGap(c, t, b - TOKEN * n, t);
      assert Refill(c, 0) == 0;
    }
  }

  lemma RustBelow(c: GoConfig, st: Option<nat>, t: nat)
    requires Fits(LimitOf(c))
    ensures RustBalance(c, st, t) <= CapFp(LimitOf(c))
  {
  }

  // ---- What the first second admits ----

  /** A word that has just been stored is the one the next call in that second starts from. */
  lemma JustStored(c: GoConfig, fp: nat, now: nat)
    requires now < U32 && fp < U32
    ensures GetOrCreate(c, Some(Pack(now, fp)), now) == Pack(now, fp)
    ensures fp <= Ceiling(c) ==> GoBalance(c, Some(Pack(now, fp)), now) == fp
  {
    hide Pack, Seconds, Tokens;
    PackRoundTrip(now, fp, 0);
    GoGap(c, now, fp, now);
    assert Refill(c, 0) % U32 == 0 by { assert 0 * (c.rate * 1000) == 0; }
    SmallMod(fp);
  }

  /** The word after `n` calls in the first second: one token less for each admitted one. */
  lemma {:induction false} GoSecond(c: GoConfig, now: nat, n: nat)
    requires now < U32
    ensures var fp := Ceiling(c) - TOKEN * Min(n, Ceiling(c) / TOKEN); var st := GoAfter(c, Repeat(now, n));
      && (if n == 0 then st == None else st == Some(Pack(now, fp)))
      && GoBalance(c, st, now) == fp
  {
    hide GoBalance, GoCall, Pack, GetOrCreate, Ceiling;
    if n == 0 {
      GoFresh(c, now);
    } else {
      GoSecond(c, now, n - 1);
      Snoc(c, Repeat(now, n - 1), now);
      var st := GoAfter(c, Repeat(now, n - 1));
      GoCallIs(c, st, now);
      JustStored(c, Ceiling(c) - TOKEN * Min(n - 1, Ceiling(c) / TOKEN), now);
      JustStored(c, Ceiling(c) - TOKEN * Min(n, Ceiling(c) / TOKEN), now);
      GoCreates(c, now);
    }
  }

  lemma GoCreates(c: GoConfig, now: nat)
    ensures GetOrCreate(c, None, now) == Pack(now, Ceiling(c))
  {
  }

  lemma {:induction false} RustSecond(c: GoConfig, now: nat, n: nat)
    requires Fits(LimitOf(c)) && now < U32
    ensures var cap := CapFp(LimitOf(c)); var fp := cap - TOKEN * Min(n, cap / TOKEN);
      var st := RustAfter(c, Repeat(now, n));
      && (if n == 0 then st == None else st == Some(Pack(now, fp)))
      && RustBalance(c, st, now) == fp
  {
    hide RustBalance, RustCall, Pack, CapFp, Fits;
    var cap := CapFp(LimitOf(c));
    RustGap(c, now, cap - TOKEN * Min(n, cap / TOKEN), now);
    assert Refill(c, 0) == 0;
    if n > 0 {
      RustSecond(c, now, n - 1);
      Snoc(c, Repeat(now, n - 1), now);
      RustCallIs(c, RustAfter(c, Repeat(now, n - 1)), now);
      RustCreates(c, now);
    }
  }

  lemma RustCreates(c: GoConfig, now: nat)
    requires Fits(LimitOf(c))
    ensures RustBalance(c, None, now) < TOKEN ==> RustCall(c, None, now).0 == Some(Pack(now, CapFp(LimitOf(c))))
  {
  }

  /** Of the calls in its first second Rust admits exactly the first `capacity`, up to the 4294967 whole tokens
      32 bits hold; Go admits as many as the capacity in thousandths, cut to 32 bits, makes whole tokens. */
  lemma FirstSecond(c: GoConfig, now: nat, n: nat)
    requires Fits(LimitOf(c)) && now < U32
    ensures RustTrace(c, Repeat(now, n) + [now])[n] <==> n < c.capacity && n < 4_294_967
    ensures GoTrace(c, Repeat(now, n) + [now])[n] <==> n < c.capacity * 1000 % 0x1_0000_0000 / 1000
  {
    GoSecond(c, now, n);
    RustSecond(c, now, n);
    Snoc(c, Repeat(now, n), now);
    GoCallIs(c, GoAfter(c, Repeat(now, n)), now);
    RustCallIs(c, RustAfter(c, Repeat(now, n)), now);
    hide GoAfter, RustAfter, GoCall, RustCall, GoBalance, RustBalance, GoTrace, RustTrace, Pack, Fits;
  }

  ghost predicate SameTraces(c: GoConfig)
    requires Fits(LimitOf(c))
  {
    forall times :: Monotone(0, times) ==> GoTrace(c, times) == RustTrace(c, times)
  }

  /** Different numbers of whole tokens show: enough calls in that second are decided differently. */
  lemma TokensShow(c: GoConfig, before: seq<nat>, t: nat)
    requires Fits(LimitOf(c)) && Monotone(0, before) && t < U32 && (before != [] ==> before[|before| - 1] <= t)
    requires GoBalance(c, GoAfter(c, before), t) / TOKEN != RustBalance(c, RustAfter(c, before), t) / TOKEN
    ensures !SameTraces(c)
  {
    hide GoBalance, RustBalance, GoCall, RustCall, GoTrace, RustTrace, Fits, GetOrCreate, Pack, GoAfter, RustAfter;
    var g, r := GoBalance(c, GoAfter(c, before), t), RustBalance(c, RustAfter(c, before), t);
    var n := if g < r then g / TOKEN else r / TOKEN;
    var times := before + Repeat(t, n);
    GoBurst(c, before, t, n);
    RustBurst(c, before, t, n);
    Snoc(c, times, t);
    GoCallIs(c, GoAfter(c, times), t);
    RustCallIs(c, RustAfter(c, times), t);
    assert Monotone(0, times + [t]) by { MonotoneMore(before, t, n); }
    assert GoTrace(c, times + [t])[|times|] != RustTrace(c, times + [t])[|times|];
  }

  lemma MonotoneMore(before: seq<nat>, t: nat, n: nat)
    requires Monotone(0, before) && t < U32 && (before != [] ==> before[|before| - 1] <= t)
    ensures Monotone(0, before + Repeat(t, n) + [t])
  {
  }

  // ---- When the Go limiter decides as the Rust bucket ----

  /** Whole tokens a full Rust bucket holds. */
  function Full(c: GoConfig): (k: nat) { CapFp(LimitOf(c)) / TOKEN }

  /** A gap of `e` seconds refills alike from every balance: nothing wraps even from one token short of
      full, or the product wraps but still leaves every balance full and below 2^32. */
  predicate GapRefills(c: GoConfig, e: nat) {
    var x := Refill(c, e);
    || Ceiling(c) + x < U32 + TOKEN
    || (x >= U32 && Ceiling(c) % TOKEN + x % U32 >= TOKEN * Full(c) && Ceiling(c) + x % U32 < U32 + TOKEN)
  }

  /** The condition: no capacity; or the ceiling, cut to 32 bits, holds as many tokens, every gap up to the TTL
      refills alike, and a drained bucket is full again by the time the TTL resets it (if a clock can get there). */
  ghost predicate LimitersAgree(c: GoConfig) {
    || c.capacity == 0
    || (&& Ceiling(c) / TOKEN == Full(c)
        && (forall e :: 1 <= e <= c.ttl && e < U32 ==> GapRefills(c, e))
        && ((c.ttl + 1) * c.rate >= Full(c) || c.ttl + 1 >= U32))
  }

  /** Same second, and the same whole tokens on top of each ceiling's fraction. */
  ghost predicate Alike(c: GoConfig, go: Option<nat>, rust: Option<nat>, now: nat) {
    || (go.None? && rust.None?)
    || exists s, q :: AlikeAt(c, go, rust, now, s, q)
  }

  ghost predicate AlikeAt(c: GoConfig, go: Option<nat>, rust: Option<nat>, now: nat, s: nat, q: nat) {
    && s <= now && q < Full(c)
    && go == Some(Pack(s, Ceiling(c) % TOKEN + TOKEN * q))
    && rust == Some(Pack(s, CapFp(LimitOf(c)) % TOKEN + TOKEN * q))
  }

  /** The balances then agree in whole tokens as well. */
  lemma SameGap(c: GoConfig, s: nat, q: nat, now: nat) returns (r: nat)
    requires Fits(LimitOf(c)) && LimitersAgree(c) && c.capacity >= 1 && s <= now < U32 && q < Full(c)
    ensures r <= Full(c) && (now - s > c.ttl ==> r == Full(c))
    ensures GoBalance(c, Some(Pack(s, Ceiling(c) % TOKEN + TOKEN * q)), now) == Ceiling(c) % TOKEN + TOKEN * r
    ensures RustBalance(c, Some(Pack(s, CapFp(LimitOf(c)) % TOKEN + TOKEN * q)), now) ==
      CapFp(LimitOf(c)) % TOKEN + TOKEN * r
  {
    hide Fits, GoBalance, RustBalance, Pack, LimitersAgree, Refill, Ceiling, CapFp, Full, Min;
    Room(c, q);
    var e, f, g := now - s, Ceiling(c) % TOKEN + TOKEN * q, CapFp(LimitOf(c)) % TOKEN + TOKEN * q;
    r := Min(q + e * c.rate, Full(c));
    MinIs(q + e * c.rate, Full(c));
    GoSide(c, e, q);
    RustSide(c, e, q);
    GoGap(c, s, f, now);
    RustGap(c, s, g, now);
  }

  lemma Room(c: GoConfig, q: nat)
    requires LimitersAgree(c) && c.capacity >= 1 && q < Full(c)
    ensures Ceiling(c) % TOKEN + TOKEN * q < U32 && CapFp(LimitOf(c)) % TOKEN + TOKEN * q < U32
  {
    FullIsPositive(c);
    CeilingParts(c);
    hide Ceiling, CapFp, Full, LimitersAgree;
  }

  lemma MinIs(a: nat, b: nat)
    ensures Min(a, b) <= b && Min(a, b) <= a
  {
  }

  lemma GoSide(c: GoConfig, e: nat, q: nat)
    requires LimitersAgree(c) && c.capacity >= 1 && e < U32 && q < Full(c)
    ensures var f, r := Ceiling(c) % TOKEN, Min(q + e * c.rate, Full(c));
      && (e > c.ttl ==> r == Full(c) && Ceiling(c) == f + TOKEN * r)
      && (e <= c.ttl ==> Min((f + TOKEN * q + Refill(c, e) % U32) % U32, Ceiling(c)) == f + TOKEN * r)
  {
    CeilingParts(c);
    hide Ceiling, Full, CapFp, Refill, GapRefills;
    if e > c.ttl {
      MulMono(c.ttl + 1, e, c.rate);
    } else if e == 0 {
      RefillTokens(c, 0);
      assert 0 * c.rate == 0;
      SmallMod(0);
      SmallMod(Ceiling(c) % TOKEN + TOKEN * q);
    } else {
      RefillTokens(c, e);
      RefillAlternatives(c, e);
      GapIsExact(Ceiling(c), Ceiling(c) % TOKEN, Full(c), Refill(c, e), e * c.rate, q);
    }
  }

  lemma RustSide(c: GoConfig, e: nat, q: nat)
    requires q < Full(c)
    ensures var l := LimitOf(c);
      Min(CapFp(l) % TOKEN + TOKEN * q + Refill(c, e), CapFp(l)) ==
        CapFp(l) % TOKEN + TOKEN * Min(q + e * c.rate, Full(c))
  {
    CeilingParts(c);
    RefillTokens(c, e);
    hide CapFp, Refill, Full;
  }

  lemma RefillTokens(c: GoConfig, e: nat)
    ensures Refill(c, e) == TOKEN * (e * c.rate)
    ensures e == 0 ==> Refill(c, e) == 0
  {
    Thousand(e, c.rate);
  }

  lemma CeilingParts(c: GoConfig)
    ensures CapFp(LimitOf(c)) == TOKEN * Full(c) + CapFp(LimitOf(c)) % TOKEN
    ensures Ceiling(c) == TOKEN * (Ceiling(c) / TOKEN) + Ceiling(c) % TOKEN
  {
  }

  lemma MulMono(a: nat, b: nat, c: nat)
    requires a <= b
    ensures a * c <= b * c
  {
  }

  /** The arithmetic of one gap: `cap` is the Go ceiling, `f` its fraction, `x` the refill. */
  lemma GapIsExact(cap: nat, f: nat, full: nat, x: nat, tokens: nat, q: nat)
    requires cap == TOKEN * full + f && f < TOKEN && cap < U32 && x == TOKEN * tokens && q < full
    requires cap + x < U32 + TOKEN || (x >= U32 && f == 0 && f + x % U32 >= TOKEN * full && cap + x % U32 < U32 + TOKEN)
    ensures Min((f + TOKEN * q + x % U32) % U32, cap) == f + TOKEN * Min(q + tokens, full)
  {
    if cap + x < U32 + TOKEN {
      SmallMod(x);
      SmallMod(f + TOKEN * q + x);
    } else {
      SmallMod(f + TOKEN * q + x % U32);
    }
  }

  /** A product can wrap and still fill the bucket only under a ceiling of whole tokens. */
  lemma RefillAlternatives(c: GoConfig, e: nat)
    requires GapRefills(c, e) && Ceiling(c) / TOKEN == Full(c) && c.capacity >= 1
    ensures var x := Refill(c, e);
      || Ceiling(c) + x < U32 + TOKEN
      || (&& x >= U32 && Ceiling(c) % TOKEN == 0
          && x % U32 >= TOKEN * Full(c) && Ceiling(c) + x % U32 < U32 + TOKEN)
  {
    hide Refill;
    if c.capacity * 1000 < U32 {
      SmallMod(c.capacity * 1000);
    } else {
      assert Full(c) == 4294967;
      hide Ceiling, Full, CapFp;
      NoRoom(Ceiling(c), Refill(c, e) % U32);
    }
  }

  /** Under a ceiling of all the tokens 32 bits can hold, no wrapped refill fills the bucket and fits. */
  lemma NoRoom(cap: nat, y: nat)
    requires cap / TOKEN == 4294967
    ensures !(cap % TOKEN + y >= TOKEN * 4294967 && cap + y < U32 + TOKEN)
  {
  }

  lemma SameStep(c: GoConfig, go: Option<nat>, rust: Option<nat>, now: nat)
    requires Fits(LimitOf(c)) && LimitersAgree(c) && c.capacity >= 1 && now < U32 && Alike(c, go, rust, now)
    ensures GoCall(c, go, now).1 == RustCall(c, rust, now).1
    ensures Alike(c, GoCall(c, go, now).0, RustCall(c, rust, now).0, now)
  {
    hide Fits, GoBalance, RustBalance, Pack, GoCall, RustCall, GetOrCreate, LimitersAgree;
    GoCallIs(c, go, now);
    RustCallIs(c, rust, now);
    CeilingParts(c);
    var f, g := Ceiling(c) % TOKEN, CapFp(LimitOf(c)) % TOKEN;
    if go.None? {
      GoFresh(c, now);
      RustGap(c, now, 0, now);
      FullIsPositive(c);
      hide Ceiling, CapFp;
      assert AlikeAt(c, GoCall(c, go, now).0, RustCall(c, rust, now).0, now, now, Full(c) - 1);
    } else {
      var s, q :| AlikeAt(c, go, rust, now, s, q);
      var r := SameGap(c, s, q, now);
      hide Ceiling, CapFp;
      if r >= 1 {
        assert AlikeAt(c, GoCall(c, go, now).0, RustCall(c, rust, now).0, now, now, r - 1);
      } else {
        NoReset(c, s, f + TOKEN * q, now);
        assert AlikeAt(c, GoCall(c, go, now).0, RustCall(c, rust, now).0, now, s, q);
      }
    }
  }

  lemma FullIsPositive(c: GoConfig)
    requires LimitersAgree(c) && c.capacity >= 1
    ensures Full(c) >= 1 && Ceiling(c) / TOKEN == Full(c)
  {
  }

  lemma NoReset(c: GoConfig, s: nat, fp: nat, now: nat)
    requires s <= now < U32 && fp < U32 && now - s <= c.ttl
    ensures GetOrCreate(c, Some(Pack(s, fp)), now) == Pack(s, fp)
  {
    hide Pack, Seconds;
    PackRoundTrip(s, fp, 0);
    SmallMod(now - s);
  }

  /** With no capacity both reject every call. */
  lemma NothingAdmitted(c: GoConfig, st: Option<nat>, now: nat)
    requires c.capacity == 0 && Fits(LimitOf(c))
    ensures !GoCall(c, st, now).1 && !RustCall(c, st, now).1
  {
    hide GoBalance, RustBalance, GoCall, RustCall, Fits;
    GoCallIs(c, st, now);
    RustCallIs(c, st, now);
    BalanceBelow(c, st, now);
    RustBelow(c, st, now);
  }

  lemma {:induction false} SameTrace(c: GoConfig, times: seq<nat>)
    requires Fits(LimitOf(c)) && LimitersAgree(c) && Monotone(0, times)
    ensures GoTrace(c, times) == RustTrace(c, times)
    ensures c.capacity >= 1 && times != [] ==> Alike(c, GoAfter(c, times), RustAfter(c, times), times[|times| - 1])
  {
    hide GoCall, RustCall, Fits, LimitersAgree, Alike;
    if times != [] {
      var init, now := times[..|times| - 1], times[|times| - 1];
      SameTrace(c, init);
      if c.capacity == 0 {
        NothingAdmitted(c, GoAfter(c, init), now);
        NothingAdmitted(c, RustAfter(c, init), now);
      } else {
        assert Alike(c, GoAfter(c, init), RustAfter(c, init), now) by {
          if init == [] {
            AlikeAtFirst(c, now);
          } else {
            AlikeLater(c, GoAfter(c, init), RustAfter(c, init), init[|init| - 1], now);
          }
        }
        SameStep(c, GoAfter(c, init), RustAfter(c, init), now);
      }
    }
  }

  lemma AlikeAtFirst(c: GoConfig, now: nat)
    ensures Alike(c, None, None, now)
  {
  }

  lemma AlikeLater(c: GoConfig, go: Option<nat>, rust: Option<nat>, now: nat, later: nat)
    requires Alike(c, go, rust, now) && now <= later
    ensures Alike(c, go, rust, later)
  {
    hide Pack;
    if go.Some? || rust.Some? {
      var s, q :| AlikeAt(c, go, rust, now, s, q);
      assert AlikeAt(c, go, rust, later, s, q);
    }
  }

  // ---- Otherwise they part ----

  /** After `j` calls in the first second. */
  lemma Spent(c: GoConfig, j: nat)
    requires Fits(LimitOf(c)) && 1 <= j <= Full(c) && Ceiling(c) / TOKEN == Full(c)
    ensures GoAfter(c, Repeat(0, j)) == Some(Pack(0, Ceiling(c) - TOKEN * j))
    ensures RustAfter(c, Repeat(0, j)) == Some(Pack(0, CapFp(LimitOf(c)) - TOKEN * j))
  {
    hide GoBalance, RustBalance, GoCall, RustCall, GoTrace, RustTrace, Fits, Pack;
    GoFresh(c, 0);
    RustGap(c, 0, 0, 0);
    assert GoAfter(c, []) == None == RustAfter(c, []);
    GoBurst(c, [], 0, j);
    RustBurst(c, [], 0, j);
    assert [] + Repeat(0, j) == Repeat(0, j);
  }

  /** Spend `j` tokens at once and wait: if the buckets then differ in whole tokens, it shows. */
  lemma PartAfter(c: GoConfig, j: nat, e: nat)
    requires Fits(LimitOf(c)) && 1 <= j <= Full(c) && Ceiling(c) / TOKEN == Full(c) && e < U32
    requires Min(CapFp(LimitOf(c)) - TOKEN * j + Refill(c, e), CapFp(LimitOf(c))) / TOKEN !=
      (if e > c.ttl then Ceiling(c) else Min((Ceiling(c) - TOKEN * j + Refill(c, e) % U32) % U32, Ceiling(c))) / TOKEN
    ensures !SameTraces(c)
  {
    hide GoBalance, RustBalance, GoAfter, RustAfter, Fits, Pack, SameTraces, Refill;
    Spent(c, j);
    CeilingParts(c);
    GoGap(c, 0, Ceiling(c) - TOKEN * j, e);
    RustGap(c, 0, CapFp(LimitOf(c)) - TOKEN * j, e);
    hide Ceiling, CapFp, Full;
    TokensShow(c, Repeat(0, j), e);
  }

  lemma CeilingTooLow(c: GoConfig)
    requires Fits(LimitOf(c)) && Ceiling(c) / TOKEN != Full(c)
    ensures !SameTraces(c)
  {
    hide GoBalance, RustBalance, Fits, SameTraces;
    GoFresh(c, 0);
    RustGap(c, 0, 0, 0);
    assert GoAfter(c, []) == None == RustAfter(c, []);
    TokensShow(c, [], 0);
  }

  lemma ResetShows(c: GoConfig)
    requires Fits(LimitOf(c)) && Ceiling(c) / TOKEN == Full(c) >= 1
    requires (c.ttl + 1) * c.rate < Full(c) && c.ttl + 1 < U32
    ensures !SameTraces(c)
  {
    hide SameTraces, Fits;
    var k, e := Full(c), c.ttl + 1;
    CeilingParts(c);
    RefillTokens(c, e);
    hide Ceiling, CapFp, Refill;
    PartAfter(c, k, e);
  }

  lemma GapShows(c: GoConfig, e: nat)
    requires Fits(LimitOf(c)) && Ceiling(c) / TOKEN == Full(c) >= 1
    requires 1 <= e <= c.ttl && e < U32 && !GapRefills(c, e)
    ensures !SameTraces(c)
  {
    hide SameTraces, Fits;
    var l, k, x := LimitOf(c), Full(c), Refill(c, e);
    var cap, f := Ceiling(c), Ceiling(c) % TOKEN;
    CeilingParts(c);
    RefillTokens(c, e);
    CapFpBelow(c);
    hide Ceiling, CapFp, Refill;
    if x >= U32 && f + x % U32 < TOKEN * k {
      SmallMod(f + x % U32);
      FullAgain(CapFp(l), k, x, k);
      PartAfter(c, k, e);
    } else {
      assert cap + x % U32 >= U32 + TOKEN by { if x < U32 { SmallMod(x); } }
      OneLap(cap - TOKEN + x % U32);
      FullAgain(CapFp(l), k, x, 1);
      PartAfter(c, 1, e);
    }
  }

  lemma CapFpBelow(c: GoConfig)
    ensures CapFp(LimitOf(c)) < U32
  {
  }

  lemma OneLap(y: nat)
    requires U32 <= y < 2 * U32
    ensures y % U32 == y - U32
  {
  }

  lemma FullAgain(cap: nat, full: nat, x: nat, j: nat)
    requires cap / TOKEN == full && 1 <= j <= full && (x >= TOKEN * j)
    ensures Min(cap - TOKEN * j + x, cap) / TOKEN == full
  {
  }

  /** For every configuration whose products fit 64 bits, wrapped or not: the Go limiter decides every
      nondecreasing trace as the Rust bucket does, if and only if the condition holds. */
  lemma SameDecisionsIff(c: GoConfig)
    requires Fits(LimitOf(c))
    ensures SameTraces(c) <==> LimitersAgree(c)
  {
    hide GoTrace, RustTrace, Fits, GapRefills, Ceiling, Full;
    if LimitersAgree(c) {
      forall times | Monotone(0, times) ensures GoTrace(c, times) == RustTrace(c, times) { SameTrace(c, times); }
    } else {
      HasTokens(c);
      if Ceiling(c) / TOKEN != Full(c) {
        CeilingTooLow(c);
      } else if exists e :: 1 <= e <= c.ttl && e < U32 && !GapRefills(c, e) {
        var e :| 1 <= e <= c.ttl && e < U32 && !GapRefills(c, e);
        GapShows(c, e);
      } else {
        ResetShows(c);
      }
    }
  }

  lemma HasTokens(c: GoConfig)
    ensures c.capacity >= 1 ==> Full(c) >= 1
  {
  }

  // ---- Configurations in which nothing wraps, and one in which the ceiling does ----

  /** The 32-bit products of the Go code do not wrap up to the TTL. */
  predicate NoWrap(c: GoConfig) {
    (c.capacity + c.ttl * c.rate) * 1000 < U32 && c.rate * 1000 < U64
  }

  /** Then only the reset matters: it must find the bucket full. */
  lemma WithoutWrap(c: GoConfig)
    requires NoWrap(c)
    ensures Fits(LimitOf(c))
    ensures SameTraces(c) <==> (c.ttl + 1) * c.rate >= c.capacity || c.ttl + 1 >= U32
  {
    hide Ceiling, Full, CapFp, Fits, GapRefills, SameTraces;
    NoWrapBounds(c, c.ttl * c.rate);
    forall e | 1 <= e <= c.ttl && e < U32 ensures GapRefills(c, e) { UnwrappedGap(c, e); }
    HasTokens(c);
    SameDecisionsIff(c);
  }

  lemma UnwrappedGap(c: GoConfig, e: nat)
    requires NoWrap(c) && e <= c.ttl
    ensures GapRefills(c, e)
  {
    NoWrapBounds(c, c.ttl * c.rate);
    MulMono(e, c.ttl, c.rate);
    RefillTokens(c, e);
    hide Ceiling, Full, CapFp, Refill;
  }

  lemma NoWrapBounds(c: GoConfig, x: nat)
    requires (c.capacity + x) * 1000 < U32 && c.rate * 1000 < U64
    ensures Fits(LimitOf(c)) && Ceiling(c) == c.capacity * 1000 == CapFp(LimitOf(c)) && Full(c) == c.capacity
    ensures Ceiling(c) + TOKEN * x < U32
  {
    SmallMod(c.capacity * 1000);
  }

  /** The first call already tells: it is decided as in Rust exactly when the wrapped ceiling still holds a token. */
  lemma FirstCallSameIff(c: GoConfig, now: nat)
    requires Fits(LimitOf(c)) && c.capacity >= 1 && now < U32
    ensures GoCall(c, None, now).1 == RustCall(c, None, now).1 <==> Ceiling(c) >= TOKEN
  {
    hide GoBalance, RustBalance, GoCall, RustCall, Fits;
    GoCallIs(c, None, now);
    RustCallIs(c, None, now);
    GoFresh(c, now);
    RustGap(c, now, 0, now);
  }

  /** On a clock that is behind the stored second the Rust bucket keeps its balance, while the Go limiter's
      idle time wraps to almost 2^32 seconds and resets the bucket, unless the TTL is as long. */
  lemma ClockBehind(c: GoConfig, s: nat, fp: nat, now: nat)
    requires Fits(LimitOf(c)) && now < s < U32 && fp < U32
    ensures RustBalance(c, Some(Pack(s, fp)), now) == Min(fp, CapFp(LimitOf(c)))
    ensures GoBalance(c, Some(Pack(s, fp)), now) ==
      if 0x1_0000_0000 - (s - now) > c.ttl then c.capacity * 1000 % 0x1_0000_0000
      else Min(fp, c.capacity * 1000 % 0x1_0000_0000)
  {
    hide Pack, Seconds, Tokens, Fits, CapFp;
    PackRoundTrip(s, fp, 0);
    BalanceIsExact(LimitOf(c), Pack(s, fp), now);
    assert 0 * (c.rate * 1000) == 0;
    assert (now - s) % U32 == U32 - (s - now);
    GoFresh(c, now);
    assert 0 * c.rate * 1000 % U64 % U32 == 0;
    SmallMod(fp);
  }

  /** So after a drained second a clock one second behind admits again in Go, and not in Rust. */
  lemma StepBackRefills(c: GoConfig, now: nat)
    requires Fits(LimitOf(c)) && 1 <= c.capacity && c.capacity * 1000 < U32 && c.ttl < U32 - 1 && 1 <= now < U32
    ensures var spent := Repeat(now, c.capacity) + [now - 1];
      GoTrace(c, spent)[c.capacity] && !RustTrace(c, spent)[c.capacity]
  {
    hide GoAfter, RustAfter, GoCall, RustCall, GoTrace, RustTrace, GoBalance, RustBalance, Pack, Fits;
    GoSecond(c, now, c.capacity);
    RustSecond(c, now, c.capacity);
    Snoc(c, Repeat(now, c.capacity), now - 1);
    GoCallIs(c, GoAfter(c, Repeat(now, c.capacity)), now - 1);
    RustCallIs(c, RustAfter(c, Repeat(now, c.capacity)), now - 1);
    SmallMod(c.capacity * 1000);
    ClockBehind(c, now, 0, now - 1);
  }

  /** A capacity of 2^29 tokens wraps to none: Go rejects the first call, Rust admits it. */
  lemma WrappedCapacityRejects(rate: nat, ttl: nat, now: nat)
    requires rate * 1000 < U64 && now < U32
    ensures var c := GoConfig(0x2000_0000, rate, ttl);
      Fits(LimitOf(c)) && !GoCall(c, None, now).1 && RustCall(c, None, now).1
  {
    var c := GoConfig(0x2000_0000, rate, ttl);
    assert Ceiling(c) == 0;
    GoCallIs(c, None, now);
    RustCallIs(c, None, now);
    GoFresh(c, now);
    RustGap(c, now, 0, now);
  }
}
