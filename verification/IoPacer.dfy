/** The token bucket that paces background compaction writes. Times are in nanoseconds, tokens are bytes. */
module IoPacer {
  import opened Wrappers

  const NANOS: nat := 1_000_000_000

  datatype Pacer = Pacer(rate: U64, tokens: U64, burst: U64, last: U64)

  /** 100 ms worth of tokens, at least 1 MiB; nothing when unconstrained. */
  function Burst(rate: U64): U64 {
    if rate > 0 then Max(rate / 10, 1024 * 1024) else 0
  }

  function New(rate: U64, now: U64): Pacer {
    Pacer(rate, Burst(rate), Burst(rate), now)
  }

  function Granted(elapsed: nat, rate: nat): nat {
    elapsed * rate / NANOS
  }

  function Refilled(p: Pacer, now: U64): Pacer {
    if p.rate == 0 || now <= p.last then p
    else
      var new_ := Granted(now - p.last, p.rate);
      if new_ > 0 then p.(tokens := Min(SatAdd(p.tokens, new_ % TWO64), p.burst), last := now) else p
  }

  function SleepFor(deficit: nat, rate: nat): nat
    requires rate > 0
  {
    deficit * NANOS / rate
  }

  datatype Request = Request(bytes: U64, now: U64)

  /** Bytes a request takes out of the bucket. */
  function Paid(p: Pacer, r: Request): nat {
    if p.rate == 0 then 0 else Min(r.bytes, Refilled(p, r.now).tokens)
  }

  /** The pacer after a request, and how long the caller is told to sleep (0 for not at all). */
  function Requested(p: Pacer, r: Request): (Pacer, U64) {
    if p.rate == 0 || r.bytes == 0 then (p, 0)
    else
      var q := Refilled(p, r.now);
      if q.tokens >= r.bytes then (q.(tokens := q.tokens - r.bytes), 0)
      else (q.(tokens := 0), SleepFor(r.bytes - q.tokens, p.rate) % TWO64)
  }

  function After(p: Pacer, rs: seq<Request>): Pacer {
    if rs == [] then p else Requested(After(p, rs[..|rs| - 1]), rs[|rs| - 1]).0
  }

  function TotalPaid(p: Pacer, rs: seq<Request>): nat {
    if rs == [] then 0 else TotalPaid(p, rs[..|rs| - 1]) + Paid(After(p, rs[..|rs| - 1]), rs[|rs| - 1])
  }

  // ---- Conservation ---------------------------------------------------

  /** Rate times time, in billionths of a byte. */
  function Earned(rate: nat, nanos: int): int {
    rate * nanos
  }

  lemma EarnedNothing(rate: nat)
    ensures Earned(rate, 0) == 0
  {}

  lemma EarnedAdds(rate: nat, a: int, b: int)
    ensures Earned(rate, a) + Earned(rate, b) == Earned(rate, a + b)
  {}

  lemma EarnedGrows(rate: nat, a: int, b: int)
    requires a <= b
    ensures Earned(rate, a) <= Earned(rate, b)
  {}

  lemma GrantedBound(elapsed: nat, rate: nat)
    ensures Granted(elapsed, rate) * NANOS <= Earned(rate, elapsed)
  {
    var product := elapsed * rate;
    assert product == NANOS * (product / NANOS) + product % NANOS;
  }

  /** One request: what it pays plus what is left grows by at most what time has granted. */
  lemma RequestConserves(p: Pacer, r: Request)
    requires p.rate > 0 && p.tokens <= p.burst
    ensures var q := Requested(p, r).0;
            && q.rate == p.rate && q.burst == p.burst && q.tokens <= q.burst && p.last <= q.last <= Max(p.last, r.now)
            && NANOS * (Paid(p, r) + q.tokens) <= NANOS * p.tokens + Earned(p.rate, q.last - p.last)
  {
    if r.now > p.last { GrantedBound(r.now - p.last, p.rate); }
    EarnedGrows(p.rate, 0, 0);
    assert Earned(p.rate, 0) == 0;
    hide Granted, Earned, SleepFor;
    var q := Refilled(p, r.now);
    assert NANOS * q.tokens <= NANOS * p.tokens + Earned(p.rate, q.last - p.last);
  }

  function Latest(t: U64, rs: seq<Request>): U64 {
    if rs == [] then t else Max(Latest(t, rs[..|rs| - 1]), rs[|rs| - 1].now)
  }

  /**
   Token conservation at a fixed rate, over any run of requests at any times: bytes paid from the bucket
   plus tokens left never exceed what was there plus the rate times the time that has passed.
   */
  lemma {:induction false} TokensConserved(p: Pacer, rs: seq<Request>)
    requires p.rate > 0 && p.tokens <= p.burst
    ensures var q := After(p, rs);
            && q.rate == p.rate && q.burst == p.burst && q.tokens <= q.burst
            && p.last <= q.last <= Latest(p.last, rs)
            && NANOS * (TotalPaid(p, rs) + q.tokens) <= NANOS * p.tokens + Earned(p.rate, q.last - p.last)
  {
    if rs != [] {
      var init, r := rs[..|rs| - 1], rs[|rs| - 1];
      TokensConserved(p, init);
      var mid, q := After(p, init), After(p, rs);
      RequestConserves(mid, r);
      EarnedAdds(p.rate, mid.last - p.last, q.last - mid.last);
      hide Requested, Paid, Earned;
    } else {
      assert Earned(p.rate, 0) == 0;
    }
  }

  // ---- What the bucket owes its callers -------------------------------

  /** The burst is a tenth of a second's bytes, but never below 1 MiB. */
  lemma BurstExactly(rate: U64)
    requires rate > 0
    ensures Burst(rate) >= 1024 * 1024 && 10 * (Burst(rate) + 1) > rate
    ensures Burst(rate) == 1024 * 1024 || 10 * Burst(rate) <= rate
  {}

  lemma GrantedTight(elapsed: nat, rate: nat)
    ensures Earned(rate, elapsed) < Granted(elapsed, rate) * NANOS + NANOS
  {
    var product := elapsed * rate;
    assert product == NANOS * (product / NANOS) + product % NANOS;
  }

  /** The grant fits the 64 bits it is cut to, or what the cut leaves of it still fills the bucket. */
  predicate GrantFits(p: Pacer, now: U64) {
    now <= p.last || Granted(now - p.last, p.rate) < TWO64 ||
    p.tokens + Granted(now - p.last, p.rate) % TWO64 >= p.burst
  }

  /** What the bucket holds and has earned by `now`, in billionths. */
  function Due(p: Pacer, now: int): int {
    NANOS * p.tokens + Earned(p.rate, Max(now - p.last, 0))
  }

  /** A refill never lowers the bucket, and brings it within one token of what it is due, exactly if the grant fits. */
  lemma RefillExactly(p: Pacer, now: U64)
    requires p.rate > 0 && p.tokens <= p.burst
    ensures var q := Refilled(p, now);
            && p.tokens <= q.tokens <= q.burst == p.burst && NANOS * q.tokens <= Due(p, now)
            && (NANOS * q.tokens + NANOS > Min(NANOS * p.burst, Due(p, now)) <==> GrantFits(p, now))
  {
    EarnedNothing(p.rate);
    if now > p.last {
      GrantedBound(now - p.last, p.rate);
      GrantedTight(now - p.last, p.rate);
    }
    hide Granted, Earned;
  }

  /** A request no larger than the bucket is paid at once, whenever it comes, and takes only what it pays. */
  lemma BucketServes(p: Pacer, r: Request)
    requires p.rate > 0 && p.tokens <= p.burst && r.bytes <= p.tokens
    ensures var (q, delay) := Requested(p, r);
            delay == 0 && Paid(p, r) == r.bytes && q.tokens >= p.tokens - r.bytes
  {
    RefillExactly(p, r.now);
    hide Refilled, Earned;
  }

  /** When the last request came. */
  function LastNow(start: U64, rs: seq<Request>): U64 {
    if rs == [] then start else rs[|rs| - 1].now
  }

  /** Times do not go back, and every grant along the run fits. */
  predicate Steady(p: Pacer, rs: seq<Request>) {
    rs == [] ||
    (var init, now := rs[..|rs| - 1], rs[|rs| - 1].now;
     Steady(p, init) && LastNow(p.last, init) <= now && GrantFits(After(p, init), now))
  }

  /** An exact bucket without rounding, serving the same payments: its level in billionths. */
  function Ideal(p: Pacer, rs: seq<Request>): int {
    if rs == [] then NANOS * p.tokens
    else
      var init, r := rs[..|rs| - 1], rs[|rs| - 1];
      Min(NANOS * p.burst, Ideal(p, init) + Earned(p.rate, r.now - LastNow(p.last, init))) - NANOS * Paid(After(p, init), r)
  }

  /** One request loses at most one token to rounding. */
  lemma RequestOwes(p: Pacer, r: Request)
    requires p.rate > 0 && p.tokens <= p.burst && p.last <= r.now && GrantFits(p, r.now)
    ensures var q := Requested(p, r).0;
            && q.last <= r.now && q.rate == p.rate && q.burst == p.burst
            && Due(q, r.now) + NANOS >= Min(NANOS * p.burst, Due(p, r.now)) - NANOS * Paid(p, r)
  {
    RefillExactly(p, r.now);
    EarnedNothing(p.rate);
    EarnedGrows(p.rate, 0, r.now - p.last);
    hide Granted, Earned, SleepFor, GrantFits;
  }

  lemma DueLater(p: Pacer, a: int, b: int)
    requires p.last <= a <= b
    ensures Due(p, b) == Due(p, a) + Earned(p.rate, b - a)
  {
    EarnedAdds(p.rate, a - p.last, b - a);
  }

  /** Over any run the bucket is never more than one token a request behind the exact one. */
  lemma {:induction false} NeverFarBehind(p: Pacer, rs: seq<Request>)
    requires p.rate > 0 && p.tokens <= p.burst && Steady(p, rs)
    ensures var q, now := After(p, rs), LastNow(p.last, rs);
            && q.rate == p.rate && q.burst == p.burst && q.tokens <= q.burst && q.last <= now
            && Due(q, now) + NANOS * |rs| >= Ideal(p, rs)
  {
    if rs == [] {
      EarnedNothing(p.rate);
    } else {
      var init, r := rs[..|rs| - 1], rs[|rs| - 1];
      NeverFarBehind(p, init);
      var mid := After(p, init);
      RequestConserves(mid, r);
      RequestOwes(mid, r);
      DueLater(mid, LastNow(p.last, init), r.now);
      hide Requested, Paid, Due, Earned, GrantFits;
    }
  }

  /** So a request that the exact bucket covers, with a token to spare for each request so far, is not delayed. */
  lemma IdealServes(p: Pacer, rs: seq<Request>, r: Request)
    requires p.rate > 0 && p.tokens <= p.burst && Steady(p, rs + [r])
    requires Min(NANOS * p.burst, Ideal(p, rs) + Earned(p.rate, r.now - LastNow(p.last, rs))) >= NANOS * (r.bytes + |rs| + 1)
    ensures Requested(After(p, rs), r).1 == 0 && Paid(After(p, rs), r) == r.bytes
  {
    hide Ideal, Steady, After, Due, Earned, Refilled, GrantFits, LastNow, Requested, Paid;
    var mid := After(p, rs);
    SteadyEnds(p, rs, r);
    NeverFarBehind(p, rs);
    DueLater(mid, LastNow(p.last, rs), r.now);
    RefillExactly(mid, r.now);
    var now := LastNow(p.last, rs);
    EnoughTokens(Refilled(mid, r.now).tokens, p.burst, Due(mid, now), Ideal(p, rs), Earned(p.rate, r.now - now), |rs|, r.bytes);
    RefilledPays(mid, r);
  }

  lemma EnoughTokens(tokens: nat, burst: nat, due: int, ideal: int, earned: int, n: nat, bytes: nat)
    requires due + NANOS * n >= ideal && NANOS * tokens + NANOS > Min(NANOS * burst, due + earned)
    requires Min(NANOS * burst, ideal + earned) >= NANOS * (bytes + n + 1)
    ensures tokens >= bytes
  {
    assert NANOS * (bytes + n + 1) == NANOS * bytes + NANOS * n + NANOS;
    assert NANOS * tokens + NANOS > NANOS * bytes + NANOS;
  }

  lemma {:induction false} SteadyEnds(p: Pacer, rs: seq<Request>, r: Request)
    requires Steady(p, rs + [r])
    ensures Steady(p, rs) && p.last <= LastNow(p.last, rs) <= r.now && GrantFits(After(p, rs), r.now)
  {
    hide GrantFits;
    assert (rs + [r])[..|rs|] == rs;
    if rs != [] {
      assert rs == rs[..|rs| - 1] + [rs[|rs| - 1]];
      SteadyEnds(p, rs[..|rs| - 1], rs[|rs| - 1]);
    }
  }

  lemma RefilledPays(p: Pacer, r: Request)
    requires p.rate > 0 && r.bytes <= Refilled(p, r.now).tokens
    ensures Requested(p, r).1 == 0 && Paid(p, r) == r.bytes
  {
    hide Refilled;
  }

  // ---- A caller that waits out every delay ----------------------------

  /** When the caller is free again: after the last request's delay. */
  function FreeAt(p: Pacer, rs: seq<Request>): nat {
    if rs == [] then p.last
    else rs[|rs| - 1].now as nat + Requested(After(p, rs[..|rs| - 1]), rs[|rs| - 1]).1
  }

  /** Every request comes after the previous delay is over. */
  predicate Patient(p: Pacer, rs: seq<Request>) {
    rs == [] || (Patient(p, rs[..|rs| - 1]) && FreeAt(p, rs[..|rs| - 1]) <= rs[|rs| - 1].now)
  }

  /** Every delay along the run fits the 64 bits it is cut to. */
  predicate DelaysFit(p: Pacer, rs: seq<Request>) {
    rs == [] || (DelaysFit(p, rs[..|rs| - 1]) && DelayFits(After(p, rs[..|rs| - 1]), rs[|rs| - 1]))
  }

  predicate DelayFits(p: Pacer, r: Request) {
    p.rate > 0 ==> SleepFor(r.bytes - Paid(p, r), p.rate) < TWO64
  }

  function Moved(rs: seq<Request>): nat {
    if rs == [] then 0 else Moved(rs[..|rs| - 1]) + rs[|rs| - 1].bytes
  }

  lemma SleepBound(deficit: nat, rate: nat)
    requires rate > 0
    ensures Earned(rate, SleepFor(deficit, rate)) <= deficit * NANOS <= Earned(rate, SleepFor(deficit, rate) + 1)
  {
    var x := deficit * NANOS;
    assert x == rate * (x / rate) + x % rate;
    assert rate * (x / rate + 1) == rate * (x / rate) + rate;
  }

  lemma EarnedGrowsStrictly(rate: nat, a: int, b: int)
    requires rate > 0 && a < b
    ensures Earned(rate, a) < Earned(rate, b)
  {
    EarnedAdds(rate, a, 1);
    EarnedGrows(rate, a + 1, b);
  }

  lemma CutSleepCovers(deficit: nat, rate: nat)
    requires rate > 0
    ensures Earned(rate, SleepFor(deficit, rate) % TWO64) <= deficit * NANOS
    ensures deficit * NANOS <= Earned(rate, SleepFor(deficit, rate) % TWO64 + 1) <==> SleepFor(deficit, rate) < TWO64
  {
    hide SleepFor, Earned;
    var sleep := SleepFor(deficit, rate);
    SleepBound(deficit, rate);
    EarnedGrows(rate, sleep % TWO64, sleep);
    if sleep >= TWO64 { EarnedGrowsStrictly(rate, sleep % TWO64 + 1, sleep); }
  }

  /** What a request moves without paying is covered by its delay plus one nanosecond exactly when the delay fits 64 bits. */
  lemma DeficitCovered(p: Pacer, r: Request)
    requires p.rate > 0
    ensures 0 <= r.bytes - Paid(p, r) && Earned(p.rate, Requested(p, r).1) <= (r.bytes - Paid(p, r)) * NANOS
    ensures (r.bytes - Paid(p, r)) * NANOS <= Earned(p.rate, Requested(p, r).1 + 1) <==> DelayFits(p, r)
  {
    assert SleepFor(0, p.rate) == 0;
    EarnedNothing(p.rate);
    hide SleepFor, Earned, Refilled;
    CutSleepCovers(r.bytes - Paid(p, r), p.rate);
  }

  /** Bytes moved on credit so far fit into the time slept. */
  lemma {:induction false} CreditBounded(p: Pacer, rs: seq<Request>)
    requires p.rate > 0 && p.tokens <= p.burst && Patient(p, rs) && DelaysFit(p, rs)
    ensures p.last <= FreeAt(p, rs) && After(p, rs).last <= FreeAt(p, rs)
    ensures NANOS * (Moved(rs) - TotalPaid(p, rs)) <= Earned(p.rate, FreeAt(p, rs) - p.last + |rs|)
  {
    hide Requested, Paid, Refilled, Earned, Latest, DelayFits;
    EarnedNothing(p.rate);
    if rs != [] {
      var init, r := rs[..|rs| - 1], rs[|rs| - 1];
      CreditBounded(p, init);
      TokensConserved(p, init);
      var mid := After(p, init);
      var delay: int := Requested(mid, r).1;
      RequestConserves(mid, r);
      DeficitCovered(mid, r);
      var a := FreeAt(p, init) - p.last + |init|;
      EarnedAdds(p.rate, a, delay + 1);
      EarnedGrows(p.rate, a + (delay + 1), FreeAt(p, rs) - p.last + |rs|);
    }
  }

  /**
   A caller that waits out every delay moves in T nanoseconds, over n requests, at most
   burst + (2T + n) * rate / 1e9 bytes.
   */
  lemma PatientCallerBound(rate: U64, start: U64, rs: seq<Request>)
    requires rate > 0 && Patient(New(rate, start), rs) && DelaysFit(New(rate, start), rs)
    ensures var p := New(rate, start); var T := FreeAt(p, rs) - start;
            T >= 0 && NANOS * Moved(rs) <= NANOS * Burst(rate) + Earned(rate, 2 * T + |rs|)
  {
    hide Patient, DelaysFit, Moved, TotalPaid, After, FreeAt, Earned, Latest, Burst;
    var p := New(rate, start);
    TokensConserved(p, rs);
    CreditBounded(p, rs);
    var T := FreeAt(p, rs) - start;
    EarnedGrows(rate, After(p, rs).last - start, T);
    EarnedAdds(rate, T, T + |rs|);
    assert T + (T + |rs|) == 2 * T + |rs|;
  }

  /**
   The factor two is real, because the deficit branch does not debit later refills: at one byte per
   nanosecond, for every D up to the burst, a patient caller moves burst + 2D bytes in D nanoseconds
   with two requests, which is more than burst + (T + n) * rate / 1e9 once D exceeds 2.
   */
  lemma FactorTwoIsReal(D: nat)
    requires 0 < D <= Burst(NANOS)
    ensures var p, rs := New(NANOS, 0), [Request(Burst(NANOS) + D, 0), Request(D, D)];
            && Patient(p, rs) && DelaysFit(p, rs) && FreeAt(p, rs) == D && Moved(rs) == Burst(NANOS) + 2 * D
            && (D > 2 ==> NANOS * Moved(rs) > NANOS * Burst(NANOS) + Earned(NANOS, FreeAt(p, rs) + |rs|))
  {
    var p := New(NANOS, 0);
    var r1, r2 := Request(Burst(NANOS) + D, 0), Request(D, D);
    var one, rs := [r1], [r1, r2];
    assert one[..0] == [] && rs[..1] == one;
    assert SleepFor(D, NANOS) == D && Granted(D, NANOS) == D;
    hide SleepFor, Granted;
    assert Requested(p, r1) == (p.(tokens := 0), D);
    var q := p.(tokens := 0);
    assert After(p, one) == q;
    assert Refilled(q, D).tokens == D;
    assert Requested(q, r2).1 == 0;
    assert SleepFor(0, NANOS) == 0 by { ZeroSleep(); }
    assert FreeAt(p, one) == 0 + D;
    assert FreeAt(p, []) == 0 && Patient(p, []) && DelaysFit(p, []);
    assert Patient(p, one) && DelaysFit(p, one) && Moved(one) == Burst(NANOS) + D;
    assert Patient(p, rs) && DelaysFit(p, rs) && FreeAt(p, rs) == D;
  }

  /** The bound needs delays that fit: at one byte a second, the largest request sleeps a delay cut to 64 bits and breaks it. */
  lemma CutDelayBreaksBound()
    ensures var p, rs := New(1, 0), [Request(U64_MAX, 0)];
            && Patient(p, rs) && !DelaysFit(p, rs)
            && NANOS * Moved(rs) > NANOS * Burst(1) + Earned(1, 2 * FreeAt(p, rs) + |rs|)
  {
    var p, r := New(1, 0), Request(U64_MAX, 0);
    var rs := [r];
    assert rs[..0] == [];
    assert Burst(1) == 1024 * 1024 && Paid(p, r) == 1024 * 1024;
    assert SleepFor(U64_MAX - 1024 * 1024, 1) == (U64_MAX - 1024 * 1024) * NANOS;
    hide SleepFor;
    assert Requested(p, r).1 < TWO64;
    assert FreeAt(p, rs) == Requested(p, r).1;
    assert Moved(rs) == U64_MAX;
  }

  lemma ZeroSleep()
    ensures SleepFor(0, NANOS) == 0
  {}

  // ---- The object -----------------------------------------------------

  class CompactionIoPacer {
    var rate: U64
    var availableTokens: U64
    var burstCapacity: U64
    var lastRefill: U64

    function Value(): Pacer
      reads this
    {
      Pacer(rate, availableTokens, burstCapacity, lastRefill)
    }

    constructor (rate: U64, now: U64)
      ensures Value() == New(rate, now)
    {
      this.rate, availableTokens, burstCapacity, lastRefill := rate, Burst(rate), Burst(rate), now;
    }

    /** A new rate: the bucket is cut to the new burst, never filled. */
    method SetRate(newRate: U64)
      modifies this
      ensures Value() == old(Value()).(rate := newRate, burst := Burst(newRate),
                                       tokens := Min(old(Value()).tokens, Burst(newRate)))
      ensures availableTokens <= old(availableTokens) && availableTokens <= burstCapacity
    {
      rate, burstCapacity := newRate, Burst(newRate);
      if availableTokens > burstCapacity {
        availableTokens := burstCapacity;
      }
    }

    method Refill(now: U64)
      modifies this`availableTokens, this`lastRefill
      ensures Value() == Refilled(old(Value()), now)
      ensures old(availableTokens) <= burstCapacity ==> old(availableTokens) <= availableTokens <= burstCapacity
    {
      hide Granted;
      if rate == 0 || now <= lastRefill {
        return;
      }
      var newTokens := Granted(now - lastRefill, rate);
      if newTokens > 0 {
        availableTokens := Min(SatAdd(availableTokens, newTokens % TWO64), burstCapacity);
        lastRefill := now;
      }
    }

    /** Takes what the bucket has; a shortfall empties it and is answered with a delay. */
    method RequestPacingDelay(bytes: U64, now: U64) returns (delay: Option<U64>)
      modifies this`availableTokens, this`lastRefill
      ensures Value() == Requested(old(Value()), Request(bytes, now)).0
      ensures delay.Some? ==> delay.value == Requested(old(Value()), Request(bytes, now)).1
      ensures delay.None? ==> Requested(old(Value()), Request(bytes, now)).1 == 0
      ensures delay.None? <==> old(Value()).rate == 0 || bytes == Paid(old(Value()), Request(bytes, now)) ||
                               SleepFor(bytes - Paid(old(Value()), Request(bytes, now)), old(Value()).rate) == 0
      ensures rate > 0 && bytes <= old(availableTokens) <= burstCapacity ==>
                delay.None? && old(availableTokens) - bytes <= availableTokens
    {
      hide Granted, SleepFor;
      if rate == 0 || bytes == 0 {
        return None;
      }
      Refill(now);
      if availableTokens >= bytes {
        availableTokens := availableTokens - bytes;
        return None;
      }
      var deficit := bytes - availableTokens;
      availableTokens := 0;
      var sleep := SleepFor(deficit, rate);
      if sleep > 0 {
        return Some(sleep % TWO64);
      }
      return None;
    }
  }
}
