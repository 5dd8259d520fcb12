/** Bits per key for each LSM level under one memory budget: weighted split, repair passes, greedy top-up. */
module BloomBudget {
  import opened Wrappers

  const MIN_BITS: nat := 2
  const MAX_BITS: nat := 24

  datatype BudgetError =
    | ZeroBudget
    | EmptyLevels
    | ZeroTotalKeys
    | InsufficientBudget(required: U64, available: U64)

  datatype LevelAllocation = LevelAllocation(level: nat, bitsPerKey: nat, hashFunctions: nat, falsePositivePpm: nat)

  function Sum(keys: seq<U64>): nat {
    if keys == [] then 0 else Sum(keys[..|keys| - 1]) + keys[|keys| - 1]
  }

  /** Filter bits spent on the first `n` levels. */
  function Spent(bits: seq<nat>, keys: seq<U64>, n: nat): nat
    requires n <= |bits| == |keys|
  {
    if n == 0 then 0 else Spent(bits, keys, n - 1) + bits[n - 1] * keys[n - 1]
  }

  function Total(bits: seq<nat>, keys: seq<U64>): nat
    requires |bits| == |keys|
  {
    Spent(bits, keys, |keys|)
  }

  predicate InRange(bits: seq<nat>) {
    forall i :: 0 <= i < |bits| ==> MIN_BITS <= bits[i] <= MAX_BITS
  }

  predicate NonIncreasing(bits: seq<nat>) {
    forall i :: 0 < i < |bits| ==> bits[i] <= bits[i - 1]
  }

  /** No level can gain one bit without breaking the cap, the budget or the order. */
  predicate Maximal(bits: seq<nat>, keys: seq<U64>, budget: nat)
    requires |bits| == |keys|
  {
    forall i :: 0 <= i < |bits| ==>
      bits[i] == MAX_BITS || Total(bits, keys) + keys[i] > budget || (i > 0 && bits[i] == bits[i - 1])
  }

  // ---- The weighted split ---------------------------------------------

  /** Keys weighted by depth: the shallowest of `n` levels weighs `n`, the deepest 1. */
  function WeightedSum(keys: seq<U64>, m: nat): nat
    requires m <= |keys|
  {
    if m == 0 then 0 else WeightedSum(keys, m - 1) + keys[m - 1] * (|keys| - (m - 1))
  }

  /** The minimum plus a 128-bit quotient cut to 64 bits, clamped. */
  function Clamped(quotient: nat): (b: nat)
    ensures MIN_BITS <= b <= MAX_BITS
  {
    Max(MIN_BITS, Min(MAX_BITS, (MIN_BITS + quotient % TWO64) % TWO64))
  }

  function Quotient(remaining: nat, weight: nat, weightSum: nat): nat
    requires weightSum > 0
  {
    remaining * weight / weightSum
  }

  function Split(keys: seq<U64>, remaining: nat): (bits: seq<nat>)
    ensures |bits| == |keys| && InRange(bits)
  {
    hide Quotient, Clamped, WeightedSum;
    var W := WeightedSum(keys, |keys|);
    if W > 0 && remaining > 0 then
      seq(|keys|, lvl requires 0 <= lvl < |keys| => Clamped(Quotient(remaining, |keys| - lvl, W)))
    else seq(|keys|, _ => MIN_BITS)
  }

  /** The sizes for which the 64-bit arithmetic is exact. */
  predicate Fits(keys: seq<U64>, budget: nat) {
    budget * (|keys| + 1) <= U64_MAX && 2 * Sum(keys) <= U64_MAX
  }

  lemma {:induction false} WeightedSumCoversSum(keys: seq<U64>, m: nat)
    requires m <= |keys|
    ensures WeightedSum(keys, m) >= Sum(keys[..m])
  {
    if m > 0 {
      WeightedSumCoversSum(keys, m - 1);
      assert keys[..m][..m - 1] == keys[..m - 1];
      assert keys[m - 1] * (|keys| - (m - 1)) >= keys[m - 1] * 1 by {
        MulMonotone(keys[m - 1], 1, |keys| - (m - 1));
      }
    } else {
      assert keys[..0] == [];
    }
  }

  lemma MulMonotone(k: nat, a: int, b: int)
    requires a <= b
    ensures k * a <= k * b
  {}

  lemma QuotientBelow(a: nat, b: nat, d: nat)
    requires a <= b && d > 0
    ensures a / d <= b / d && a / d * d <= a && a / d <= a
  {
    assert a == d * (a / d) + a % d && b == d * (b / d) + b % d;
    assert d * (b / d + 1) == d * (b / d) + d;
    if a / d > b / d { MulMonotone(d, b / d + 1, a / d); }
    MulMonotone(a / d, 1, d);
  }

  lemma QuotientTimes(remaining: nat, w: nat, W: nat)
    requires W > 0
    ensures Quotient(remaining, w, W) * W <= remaining * w
  {
    QuotientBelow(remaining * w, remaining * w, W);
  }

  lemma QuotientMonotone(remaining: nat, w: nat, w': nat, W: nat)
    requires W > 0 && w <= w'
    ensures Quotient(remaining, w, W) <= Quotient(remaining, w', W)
  {
    MulMonotone(remaining, w, w');
    QuotientBelow(remaining * w, remaining * w', W);
  }

  lemma QuotientFits(budget: nat, n: nat, remaining: nat, w: nat, W: nat)
    requires budget * (n + 1) <= U64_MAX && remaining <= budget && 2 <= budget && w <= n && W > 0
    ensures Quotient(remaining, w, W) + 2 < TWO64
  {
    var product := remaining * w;
    MulMonotone(remaining, w, n);
    MulMonotone(n, remaining, budget);
    assert product <= budget * n;
    QuotientBelow(product, product, W);
    assert budget * (n + 1) == budget * n + budget;
  }

  /** Under the size bound a level gets the minimum plus the true quotient, capped; nothing wraps. */
  lemma SplitAt(keys: seq<U64>, budget: nat, remaining: nat, lvl: nat) returns (share: nat)
    requires Fits(keys, budget) && 0 < remaining <= budget && 2 <= budget && lvl < |keys|
    requires WeightedSum(keys, |keys|) > 0
    ensures share == Quotient(remaining, |keys| - lvl, WeightedSum(keys, |keys|))
    ensures Split(keys, remaining)[lvl] == Min(MAX_BITS, MIN_BITS + share)
  {
    hide WeightedSum, Clamped, Quotient;
    var W := WeightedSum(keys, |keys|);
    share := Quotient(remaining, |keys| - lvl, W);
    QuotientFits(budget, |keys|, remaining, |keys| - lvl, W);
    ClampedExact(share);
  }

  lemma ClampedExact(quotient: nat)
    requires quotient + 2 < TWO64
    ensures Clamped(quotient) == Min(MAX_BITS, MIN_BITS + quotient)
  {}

  /** One more level: bits `b` on `k` keys of weight `w`, where `b - 2` is at most the level's quotient. */
  lemma LevelBounded(extra: int, weighted: int, k: nat, b: nat, share: nat, w: nat, W: nat, remaining: nat)
    requires extra * W <= remaining * weighted && b - 2 <= share && share * W <= remaining * w
    ensures (extra + (b * k - 2 * k)) * W <= remaining * (weighted + k * w)
  {
    var e := k * (b - 2);
    assert b * k - 2 * k == e;
    MulMonotone(k, b - 2, share);
    MulMonotone(W, e, k * share);
    assert W * (k * share) == k * (share * W);
    MulMonotone(k, share * W, remaining * w);
    assert k * (remaining * w) == remaining * (k * w);
    assert (extra + e) * W == extra * W + W * e;
    assert remaining * (weighted + k * w) == remaining * weighted + remaining * (k * w);
  }

  lemma SpentStep(bits: seq<nat>, keys: seq<U64>, m: nat)
    requires 0 < m <= |bits| == |keys|
    ensures Spent(bits, keys, m) == Spent(bits, keys, m - 1) + bits[m - 1] * keys[m - 1]
    ensures Sum(keys[..m]) == Sum(keys[..m - 1]) + keys[m - 1]
    ensures WeightedSum(keys, m) == WeightedSum(keys, m - 1) + keys[m - 1] * (|keys| - (m - 1))
  {
    assert keys[..m][..m - 1] == keys[..m - 1];
  }

  /** A level never gets more than the minimum plus its true quotient, even where the cut to 64 bits bites. */
  lemma ClampedAtMost(quotient: nat)
    ensures Clamped(quotient) - 2 <= quotient
  {
    if quotient + 2 < TWO64 { ClampedExact(quotient); }
  }

  /** What the split adds on the first `m` levels, times the weight sum, stays below the weighted remainder. */
  lemma {:induction false} SharesBounded(keys: seq<U64>, remaining: nat, m: nat)
    requires remaining > 0 && m <= |keys| && WeightedSum(keys, |keys|) > 0
    ensures (Spent(Split(keys, remaining), keys, m) - 2 * Sum(keys[..m])) * WeightedSum(keys, |keys|) <=
            remaining * WeightedSum(keys, m)
  {
    var bits := Split(keys, remaining);
    if m == 0 {
      assert keys[..0] == [];
    } else {
      SharesBounded(keys, remaining, m - 1);
      SpentStep(bits, keys, m);
      var W, k, w := WeightedSum(keys, |keys|), keys[m - 1], |keys| - (m - 1);
      var share := Quotient(remaining, w, W);
      assert bits[m - 1] == Clamped(share) by { hide Spent, Sum, WeightedSum, Quotient, Clamped; }
      hide *;
      ClampedAtMost(share);
      QuotientTimes(remaining, w, W);
      LevelBounded(Spent(bits, keys, m - 1) - 2 * Sum(keys[..m - 1]), WeightedSum(keys, m - 1),
                   k, bits[m - 1], share, w, W, remaining);
    }
  }

  lemma MinMonotone(a: nat, b: nat)
    requires a <= b
    ensures Min(MAX_BITS, MIN_BITS + a) <= Min(MAX_BITS, MIN_BITS + b)
  {}

  lemma SplitDescends(keys: seq<U64>, budget: nat, remaining: nat, i: nat)
    requires Fits(keys, budget) && 0 < remaining <= budget && 2 <= budget && 0 < i < |keys|
    requires WeightedSum(keys, |keys|) > 0
    ensures Split(keys, remaining)[i] <= Split(keys, remaining)[i - 1]
  {
    hide *;
    var a := SplitAt(keys, budget, remaining, i - 1);
    var b := SplitAt(keys, budget, remaining, i);
    QuotientMonotone(remaining, |keys| - i, |keys| - (i - 1), WeightedSum(keys, |keys|));
    MinMonotone(b, a);
  }

  lemma CancelWeight(extra: int, remaining: nat, W: nat)
    requires W > 0 && extra * W <= remaining * W
    ensures extra <= remaining
  {
    assert W * (remaining + 1) == remaining * W + W && W * extra == extra * W;
    if extra > remaining { MulMonotone(W, remaining + 1, extra); }
  }

  /** The weighted split alone stays within the budget it was made from, whatever the sizes. */
  lemma SplitWithinBudget(keys: seq<U64>, remaining: nat)
    requires Sum(keys) > 0
    ensures Total(Split(keys, remaining), keys) <= 2 * Sum(keys) + remaining
  {
    hide WeightedSum, Clamped;
    var n := |keys|;
    var bits := Split(keys, remaining);
    WeightedSumCoversSum(keys, n);
    assert keys[..n] == keys;
    if remaining == 0 {
      MinimumSpends(bits, keys, n);
    } else {
      hide Split, Spent, Sum;
      SharesBounded(keys, remaining, n);
      CancelWeight(Total(bits, keys) - 2 * Sum(keys), remaining, WeightedSum(keys, n));
    }
  }

  /** Within the size bounds the weighted split is non-increasing as well. */
  lemma SplitIsOrdered(keys: seq<U64>, budget: nat)
    requires keys != [] && Fits(keys, budget) && Sum(keys) > 0 && 2 * Sum(keys) <= budget
    ensures NonIncreasing(Split(keys, budget - 2 * Sum(keys)))
  {
    hide WeightedSum, Clamped;
    var remaining, n := budget - 2 * Sum(keys), |keys|;
    var bits := Split(keys, remaining);
    WeightedSumCoversSum(keys, n);
    assert keys[..n] == keys;
    if remaining > 0 {
      hide Split, Sum, Fits;
      forall i | 0 < i < n ensures bits[i] <= bits[i - 1] { SplitDescends(keys, budget, remaining, i); }
    }
  }

  lemma {:induction false} MinimumSpends(bits: seq<nat>, keys: seq<U64>, m: nat)
    requires m <= |bits| == |keys| && forall i :: 0 <= i < |bits| ==> bits[i] == 2
    ensures Spent(bits, keys, m) == 2 * Sum(keys[..m])
  {
    if m > 0 {
      MinimumSpends(bits, keys, m - 1);
      assert keys[..m][..m - 1] == keys[..m - 1];
    } else {
      assert keys[..0] == [];
    }
  }

  // ---- The passes over the bits ---------------------------------------

  function SumBits(bits: seq<nat>): nat {
    if bits == [] then 0 else SumBits(bits[..|bits| - 1]) + bits[|bits| - 1]
  }

  lemma {:induction false} SumBitsUpdate(bits: seq<nat>, i: nat, b: nat)
    requires i < |bits|
    ensures SumBits(bits[i := b]) == SumBits(bits) - bits[i] + b
  {
    var n := |bits| - 1;
    if i < n {
      SumBitsUpdate(bits[..n], i, b);
      assert bits[i := b][..n] == bits[..n][i := b];
    } else {
      assert bits[i := b][..n] == bits[..n];
    }
  }

  lemma {:induction false} SpentUpdate(bits: seq<nat>, keys: seq<U64>, i: nat, n: nat)
    requires i < n <= |bits| == |keys|
    ensures Spent(bits[i := bits[i] + 1], keys, n) == Spent(bits, keys, n) + keys[i]
  {
    if i < n - 1 {
      SpentUpdate(bits, keys, i, n - 1);
    } else {
      SpentPrefix(bits, bits[i := bits[i] + 1], keys, i);
      assert (bits[i] + 1) * keys[i] == bits[i] * keys[i] + keys[i];
    }
  }

  lemma {:induction false} SpentPrefix(a: seq<nat>, b: seq<nat>, keys: seq<U64>, n: nat)
    requires n <= |a| == |b| == |keys| && forall i :: 0 <= i < n ==> a[i] == b[i]
    ensures Spent(a, keys, n) == Spent(b, keys, n)
  {
    if n > 0 { SpentPrefix(a, b, keys, n - 1); }
  }

  lemma {:induction false} SpentMonotone(a: seq<nat>, b: seq<nat>, keys: seq<U64>, n: nat)
    requires n <= |a| == |b| == |keys| && forall i :: 0 <= i < n ==> a[i] <= b[i]
    ensures Spent(a, keys, n) <= Spent(b, keys, n)
  {
    if n > 0 {
      SpentMonotone(a, b, keys, n - 1);
      MulMonotone(keys[n - 1], a[n - 1], b[n - 1]);
    }
  }

  /** The smallest of the first levels up to `i`. */
  function Floor(bits: seq<nat>, i: nat): (f: nat)
    requires i < |bits|
    ensures f <= bits[i]
  {
    if i == 0 then bits[0] else Min(bits[i], Floor(bits, i - 1))
  }

  /** Each level cut to the smallest level before it. */
  function Ordered(bits: seq<nat>): (r: seq<nat>)
    ensures |r| == |bits| && forall i :: 0 <= i < |bits| ==> r[i] == Floor(bits, i)
  {
    seq(|bits|, i requires 0 <= i < |bits| => Floor(bits, i))
  }

  /** As far as the bits do not increase they are left as they are. */
  lemma {:induction false} FloorKeeps(bits: seq<nat>, i: nat)
    requires i < |bits| && forall k :: 0 < k <= i ==> bits[k] <= bits[k - 1]
    ensures Floor(bits, i) == bits[i]
  {
    if i > 0 { FloorKeeps(bits, i - 1); }
  }

  lemma FloorStep(bits: seq<nat>, i: nat)
    requires 0 < i < |bits|
    ensures Floor(bits, i) == Min(bits[i], Floor(bits, i - 1))
  {}

  /** Lowers every level above its shallower neighbour, from `from` on. */
  method EnforceOrder(bits0: seq<nat>, from: nat) returns (bits: seq<nat>)
    requires 0 < from && InRange(bits0) && forall i :: 0 < i < from && i < |bits0| ==> bits0[i] <= bits0[i - 1]
    ensures |bits| == |bits0| && InRange(bits) && NonIncreasing(bits) && SumBits(bits) <= SumBits(bits0)
    ensures bits == Ordered(bits0)
  {
    hide SumBits, Floor;
    bits := bits0;
    var i := from;
    forall k | 0 <= k < from && k < |bits0| ensures bits0[k] == Floor(bits0, k) { FloorKeeps(bits0, k); }
    while i < |bits|
      invariant from <= i && |bits| == |bits0| && InRange(bits) && SumBits(bits) <= SumBits(bits0)
      invariant forall k :: 0 <= k < i && k < |bits| ==> bits[k] == Floor(bits0, k)
      invariant forall k :: i <= k < |bits| ==> bits[k] == bits0[k]
    {
      FloorStep(bits0, i);
      if bits[i] > bits[i - 1] {
        SumBitsUpdate(bits, i, bits[i - 1]);
        bits := bits[i := bits[i - 1]];
      }
      i := i + 1;
    }
    forall k | 0 < k < |bits| ensures bits[k] <= bits[k - 1] { FloorStep(bits0, k); }
  }

  /** Takes bits away from the deepest levels while the 64-bit total exceeds the budget. */
  method Shrink(bits0: seq<nat>, keys: seq<U64>, budget: U64) returns (bits: seq<nat>, total: nat)
    requires |bits0| == |keys| && InRange(bits0) && NonIncreasing(bits0)
    ensures |bits| == |keys| && InRange(bits) && NonIncreasing(bits) && total == Total(bits, keys) % TWO64
    ensures Total(bits0, keys) % TWO64 <= budget ==> bits == bits0
  {
    hide Spent, SumBits, Ordered;
    bits, total := bits0, Total(bits0, keys) % TWO64;
    while total > budget
      invariant |bits| == |keys| && InRange(bits) && NonIncreasing(bits) && total == Total(bits, keys) % TWO64
      invariant Total(bits0, keys) % TWO64 <= budget ==> bits == bits0
      decreases SumBits(bits)
    {
      ghost var start := SumBits(bits);
      var decreased := false;
      var i := |bits|;
      while i > 0
        invariant i <= |bits| == |keys| && InRange(bits) && NonIncreasing(bits)
        invariant total == Total(bits, keys) % TWO64
        invariant if decreased then SumBits(bits) < start else SumBits(bits) == start
      {
        i := i - 1;
        if bits[i] > MIN_BITS {
          SumBitsUpdate(bits, i, bits[i] - 1);
          bits := EnforceOrder(bits[i := bits[i] - 1], i + 1);
          total := Total(bits, keys) % TWO64;
          decreased := true;
          if total <= budget {
            break;
          }
        }
      }
      if !decreased {
        break;
      }
    }
  }

  /** Cap and order allow level `i` one more bit. */
  predicate CanGain(bits: seq<nat>, i: nat)
    requires i < |bits|
  {
    bits[i] < MAX_BITS && (i == 0 || bits[i] + 1 <= bits[i - 1])
  }

  /**
   In exact arithmetic, topping up level after level from level `i` on comes to a bit that cap and order
   allow and that would take the total to 2^64, past every budget.
   */
  predicate Overruns(bits: seq<nat>, keys: seq<U64>, budget: U64, i: nat)
    requires |bits| == |keys|
    decreases |bits| - i, if i < |bits| then MAX_BITS - bits[i] else 0
  {
    i < |bits| &&
    if CanGain(bits, i) && Total(bits, keys) + keys[i] <= budget
    then Overruns(bits[i := bits[i] + 1], keys, budget, i)
    else (CanGain(bits, i) && Total(bits, keys) + keys[i] >= TWO64) || Overruns(bits, keys, budget, i + 1)
  }

  predicate Blocked(bits: seq<nat>, total: nat, keys: seq<U64>, budget: nat, i: nat)
    requires i < |bits| == |keys|
  {
    bits[i] == MAX_BITS || total + keys[i] > budget || (i > 0 && bits[i] == bits[i - 1])
  }

  /** Where a top-up from `bits0` has got to at level `i`: still exact, or past the overrun. */
  ghost predicate ToppingUp(bits0: seq<nat>, bits: seq<nat>, total: nat, keys: seq<U64>, budget: U64, i: nat, over: bool)
    requires |bits0| == |bits| == |keys| && i <= |keys|
  {
    if over then Overruns(bits0, keys, budget, 0) && Total(bits, keys) >= TWO64
    else
      && total == Total(bits, keys) <= budget
      && Overruns(bits, keys, budget, i) == Overruns(bits0, keys, budget, 0)
      && forall k :: 0 <= k < i ==> Blocked(bits, total, keys, budget, k)
  }

  lemma BitGained(bits0: seq<nat>, bits: seq<nat>, total: nat, keys: seq<U64>, budget: U64, i: nat, over: bool)
    requires |bits0| == |bits| == |keys| && i < |keys| && CanGain(bits, i)
    requires ToppingUp(bits0, bits, total, keys, budget, i, over) && (total + keys[i]) % TWO64 <= budget
    ensures ToppingUp(bits0, bits[i := bits[i] + 1], (total + keys[i]) % TWO64, keys, budget, i,
                      over || total + keys[i] >= TWO64)
  {
    SpentUpdate(bits, keys, i, |keys|);
    var bits' := bits[i := bits[i] + 1];
    hide Spent;
    var total' := total + keys[i];
    if !over && total' < TWO64 {
      forall k | 0 <= k < i ensures Blocked(bits', total', keys, budget, k) {
        assert Blocked(bits, total, keys, budget, k);
      }
    }
  }

  lemma LevelDone(bits0: seq<nat>, bits: seq<nat>, total: nat, keys: seq<U64>, budget: U64, i: nat, over: bool)
    requires |bits0| == |bits| == |keys| && i < |keys| && total < TWO64 && InRange(bits) && NonIncreasing(bits)
    requires ToppingUp(bits0, bits, total, keys, budget, i, over)
    requires !CanGain(bits, i) || (total + keys[i]) % TWO64 > budget
    ensures ToppingUp(bits0, bits, total, keys, budget, i + 1, over)
  {
    hide Spent;
  }

  /**
   Gives leftover budget to the shallowest levels first. From a total within the budget the result is
   within it too exactly when the exact top-up does not overrun, and then no level can gain a bit.
   */
  method TopUp(bits0: seq<nat>, total0: nat, keys: seq<U64>, budget: U64) returns (bits: seq<nat>)
    requires |bits0| == |keys| && InRange(bits0) && NonIncreasing(bits0) && total0 < TWO64
    ensures |bits| == |keys| && InRange(bits) && NonIncreasing(bits)
    ensures forall i :: 0 <= i < |bits| ==> bits0[i] <= bits[i]
    ensures total0 == Total(bits0, keys) <= budget ==>
              (Total(bits, keys) <= budget <==> !Overruns(bits0, keys, budget, 0)) &&
              (!Overruns(bits0, keys, budget, 0) ==> Maximal(bits, keys, budget))
  {
    hide Spent, Overruns, ToppingUp;
    bits := bits0;
    var total: nat := total0;
    ghost var exact, over := total0 == Total(bits0, keys) <= budget, false;
    if exact { TopUpStarts(bits0, keys, budget); }
    for i := 0 to |keys|
      invariant |bits| == |keys| && InRange(bits) && NonIncreasing(bits) && total < TWO64
      invariant forall k :: 0 <= k < |bits| ==> bits0[k] <= bits[k]
      invariant exact ==> ToppingUp(bits0, bits, total, keys, budget, i, over)
    {
      while CanGain(bits, i) && (total + keys[i]) % TWO64 <= budget
        invariant |bits| == |keys| && InRange(bits) && NonIncreasing(bits) && total < TWO64
        invariant forall k :: 0 <= k < |bits| ==> bits0[k] <= bits[k]
        invariant exact ==> ToppingUp(bits0, bits, total, keys, budget, i, over)
        decreases MAX_BITS - bits[i]
      {
        if exact { BitGained(bits0, bits, total, keys, budget, i, over); }
        over := over || total + keys[i] >= TWO64;
        bits := bits[i := bits[i] + 1];
        total := (total + keys[i]) % TWO64;
      }
      if exact { LevelDone(bits0, bits, total, keys, budget, i, over); }
    }
    if exact { TopUpEnds(bits0, bits, total, keys, budget, over); }
  }

  lemma TopUpStarts(bits: seq<nat>, keys: seq<U64>, budget: U64)
    requires |bits| == |keys| && Total(bits, keys) <= budget
    ensures ToppingUp(bits, bits, Total(bits, keys), keys, budget, 0, false)
  {}

  lemma TopUpEnds(bits0: seq<nat>, bits: seq<nat>, total: nat, keys: seq<U64>, budget: U64, over: bool)
    requires |bits0| == |bits| == |keys| && ToppingUp(bits0, bits, total, keys, budget, |keys|, over)
    ensures Total(bits, keys) <= budget <==> !Overruns(bits0, keys, budget, 0)
    ensures !Overruns(bits0, keys, budget, 0) ==> Maximal(bits, keys, budget)
  {
    hide Spent;
    forall i | 0 <= i < |bits| && !over
      ensures bits[i] == MAX_BITS || Total(bits, keys) + keys[i] > budget || (i > 0 && bits[i] == bits[i - 1])
    {
      assert Blocked(bits, total, keys, budget, i);
    }
  }

  /** With room for any one level above the budget, nothing overruns. */
  lemma {:induction false} RoomNeverOverruns(bits: seq<nat>, keys: seq<U64>, budget: U64, i: nat)
    requires |bits| == |keys| && Total(bits, keys) <= budget && forall k :: 0 <= k < |keys| ==> budget + keys[k] < TWO64
    ensures !Overruns(bits, keys, budget, i)
    decreases |bits| - i, if i < |bits| then MAX_BITS - bits[i] else 0
  {
    hide Spent;
    if i < |bits| {
      if CanGain(bits, i) && Total(bits, keys) + keys[i] <= budget {
        SpentUpdate(bits, keys, i, |keys|);
        RoomNeverOverruns(bits[i := bits[i] + 1], keys, budget, i);
      } else {
        RoomNeverOverruns(bits, keys, budget, i + 1);
      }
    }
  }

  // ---- The planner ----------------------------------------------------

  function HashCount(bits: nat): nat {
    Max(1, Min(16, bits * 693 / 1000))
  }

  function Allocation(level: nat, bits: nat): LevelAllocation {
    LevelAllocation(level, bits, HashCount(bits), 1_000_000 / Pow2(Min(HashCount(bits), 20)))
  }

  function BitsOf(allocations: seq<LevelAllocation>): (bits: seq<nat>)
    ensures |bits| == |allocations| && forall i :: 0 <= i < |bits| ==> bits[i] == allocations[i].bitsPerKey
  {
    seq(|allocations|, i requires 0 <= i < |allocations| => allocations[i].bitsPerKey)
  }

  function SaturatingDouble(total: nat): U64 {
    if 2 * total > U64_MAX then U64_MAX else 2 * total
  }

  /** The key total as the planner adds it up, in 64 bits. */
  function TotalKeys(keys: seq<U64>): U64 {
    Sum(keys) % TWO64
  }

  function Refusal(keys: seq<U64>, budget: U64): Option<BudgetError> {
    var total := TotalKeys(keys);
    if keys == [] then Some(EmptyLevels)
    else if budget == 0 then Some(ZeroBudget)
    else if total == 0 then Some(ZeroTotalKeys)
    else if budget < SaturatingDouble(total) then Some(InsufficientBudget(SaturatingDouble(total), budget))
    else None
  }

  /** While the keys add up in 64 bits, a plan is granted exactly if there are keys and two bits for each are affordable. */
  lemma GrantedExactly(keys: seq<U64>, budget: U64)
    requires Sum(keys) <= U64_MAX
    ensures Refusal(keys, budget).None? <==> Sum(keys) > 0 && budget >= Min(2 * Sum(keys), U64_MAX)
  {}

  lemma {:induction false} KeyWithinSum(keys: seq<U64>, i: nat)
    requires i < |keys|
    ensures keys[i] <= Sum(keys)
  {
    if i < |keys| - 1 { KeyWithinSum(keys[..|keys| - 1], i); }
  }

  lemma BudgetTimesLevels(budget: nat, n: nat)
    requires n >= 1
    ensures 2 * budget <= budget * (n + 1)
  {
    MulMonotone(budget, 2, n + 1);
  }

  /** What the order pass makes of the weighted split, in exact arithmetic. */
  function Shares(keys: seq<U64>, budget: nat): (bits: seq<nat>)
    requires 2 * Sum(keys) <= budget
    ensures |bits| == |keys|
  {
    Ordered(Split(keys, budget - 2 * Sum(keys)))
  }

  /** Decidable before the call: two bits a key are affordable, and the exact top-up of the shares does not overrun. */
  predicate StaysWithin(keys: seq<U64>, budget: U64) {
    2 * Sum(keys) <= budget && !Overruns(Shares(keys, budget), keys, budget, 0)
  }

  lemma FitsShares(keys: seq<U64>, budget: U64)
    requires keys != [] && Sum(keys) > 0 && Fits(keys, budget) && 2 * Sum(keys) <= budget
    ensures Shares(keys, budget) == Split(keys, budget - 2 * Sum(keys))
  {
    hide Split, Sum, Fits, Floor;
    SplitIsOrdered(keys, budget);
    var split := Split(keys, budget - 2 * Sum(keys));
    forall i | 0 <= i < |keys| ensures Floor(split, i) == split[i] { FloorKeeps(split, i); }
  }

  /** Within the size bounds the shares are the weighted split itself and topping up does not overrun. */
  lemma FitsStaysWithin(keys: seq<U64>, budget: U64)
    requires Refusal(keys, budget).None? && Fits(keys, budget)
    ensures StaysWithin(keys, budget) && Shares(keys, budget) == Split(keys, budget - 2 * Sum(keys))
  {
    hide Split, Spent, Sum, Overruns, Shares;
    FitsShares(keys, budget);
    SplitWithinBudget(keys, budget - 2 * Sum(keys));
    BudgetTimesLevels(budget, |keys|);
    forall i | 0 <= i < |keys| ensures budget + keys[i] < TWO64 { KeyWithinSum(keys, i); }
    RoomNeverOverruns(Shares(keys, budget), keys, budget, 0);
  }

  /** Every level's keys fit on top of the budget. */
  predicate Roomy(keys: seq<U64>, budget: nat) {
    forall i :: 0 <= i < |keys| ==> budget + keys[i] < TWO64
  }

  lemma {:induction false} AllZeroSum(keys: seq<U64>)
    requires forall i :: 0 <= i < |keys| ==> keys[i] == 0
    ensures Sum(keys) == 0
  {
    if keys != [] { AllZeroSum(keys[..|keys| - 1]); }
  }

  /** A wider bound than the size bounds, and a simpler one: no overrun while each level fits on top of the budget. */
  lemma RoomyStaysWithin(keys: seq<U64>, budget: U64)
    requires Refusal(keys, budget).None? && Roomy(keys, budget) && Sum(keys) <= U64_MAX
    ensures StaysWithin(keys, budget)
  {
    hide Split, Spent, Sum, Overruns, Ordered;
    if 2 * Sum(keys) > U64_MAX { AllZeroSum(keys); }
    SplitWithinBudget(keys, budget - 2 * Sum(keys));
    var split := Split(keys, budget - 2 * Sum(keys));
    SpentMonotone(Shares(keys, budget), split, keys, |keys|);
    RoomNeverOverruns(Shares(keys, budget), keys, budget, 0);
  }

  /** The bound matters: for 2^62 keys under a budget of 2^64 - 2 the fourth bit takes the total to 2^64, and is granted. */
  lemma OverrunHappens()
    ensures var keys, budget := [0x4000_0000_0000_0000], U64_MAX - 1;
            Refusal(keys, budget).None? && !StaysWithin(keys, budget)
  {
    var keys: seq<U64>, budget := [0x4000_0000_0000_0000], U64_MAX - 1;
    assert keys[..0] == [];
    assert Sum(keys) == Sum(keys[..0]) + keys[0];
    var bits := Split(keys, budget - 2 * Sum(keys));
    assert WeightedSum(keys, 1) == WeightedSum(keys, 0) + keys[0] * 1;
    assert Quotient(0x7FFF_FFFF_FFFF_FFFE, 1, 0x4000_0000_0000_0000) == 1;
    assert Clamped(1) == 3;
    assert bits[0] == 3;
    assert Spent(bits, keys, 1) == Spent(bits, keys, 0) + 3 * keys[0];
    assert Total(bits, keys) + keys[0] == TWO64;
  }

  lemma {:induction false} AtLeastTwoEach(bits: seq<nat>, keys: seq<U64>, n: nat)
    requires n <= |bits| == |keys| && InRange(bits)
    ensures Spent(bits, keys, n) >= 2 * Sum(keys[..n])
  {
    if n > 0 {
      AtLeastTwoEach(bits, keys, n - 1);
      SpentStep(bits, keys, n);
      MulMonotone(keys[n - 1], 2, bits[n - 1]);
    } else {
      assert keys[..0] == [];
    }
  }

  /**
   The allocation for each level. Refusals are exactly those of `Refusal`. A granted allocation is always
   in range and non-increasing. It stays within the budget exactly when `StaysWithin` holds, and then
   gives each level at least its share and leaves no level that can gain a bit. It does so whenever the
   keys can be counted in 64 bits and each level's fit on top of the budget.
   */
  method ComputeAllocations(keys: seq<U64>, budget: U64) returns (r: Result<seq<LevelAllocation>, BudgetError>)
    ensures match Refusal(keys, budget)
            case Some(e) => r == Err(e)
            case None => r.Ok? && |r.value| == |keys|
    ensures r.Ok? ==> forall i :: 0 <= i < |keys| ==> r.value[i] == Allocation(i, r.value[i].bitsPerKey)
    ensures r.Ok? ==> InRange(BitsOf(r.value)) && NonIncreasing(BitsOf(r.value))
    ensures r.Ok? ==> (Total(BitsOf(r.value), keys) <= budget <==> StaysWithin(keys, budget))
    ensures r.Ok? && StaysWithin(keys, budget) ==>
              var bits := BitsOf(r.value);
              Maximal(bits, keys, budget) && forall i :: 0 <= i < |keys| ==> Shares(keys, budget)[i] <= bits[i]
    ensures r.Ok? && Roomy(keys, budget) && Sum(keys) <= U64_MAX ==>
              Total(BitsOf(r.value), keys) <= budget && Maximal(BitsOf(r.value), keys, budget)
  {
    hide Split, Sum, Spent, Overruns, Ordered, InRange, NonIncreasing, Maximal, HashCount, Pow2, Floor;
    if keys == [] {
      return Err(EmptyLevels);
    }
    if budget == 0 {
      return Err(ZeroBudget);
    }
    var totalKeys := TotalKeys(keys);
    if totalKeys == 0 {
      return Err(ZeroTotalKeys);
    }
    var required := SaturatingDouble(totalKeys);
    if budget < required {
      return Err(InsufficientBudget(required, budget));
    }
    var split := Split(keys, budget - required);
    var ordered := EnforceOrder(split, 1);
    var bits, total := Shrink(ordered, keys, budget);
    if 2 * Sum(keys) <= budget {
      SplitWithinBudget(keys, budget - required);
      SpentMonotone(ordered, split, keys, |keys|);
      assert bits == ordered;
    }
    bits := TopUp(bits, total, keys, budget);
    AtLeastTwoEach(bits, keys, |keys|);
    assert keys[..|keys|] == keys;
    var allocations := seq(|bits|, i requires 0 <= i < |bits| => Allocation(i, bits[i]));
    assert BitsOf(allocations) == bits;
    if Roomy(keys, budget) && Sum(keys) <= U64_MAX { RoomyStaysWithin(keys, budget); }
    r := Ok(allocations);
  }

  /** The source's own check of an allocation; its saturating sum hides an excess only under the largest budget. */
  method VerifyInternalInvariants(allocations: seq<LevelAllocation>, keys: seq<U64>, budget: U64) returns (ok: bool)
    ensures ok <==>
            && |allocations| == |keys|
            && InRange(BitsOf(allocations)) && NonIncreasing(BitsOf(allocations))
            && (forall i :: 0 <= i < |allocations| ==> allocations[i].hashFunctions != 0)
            && (Total(BitsOf(allocations), keys) <= budget || budget == U64_MAX)
  {
    if |allocations| != |keys| {
      return false;
    }
    ghost var bits := BitsOf(allocations);
    var spentBits: U64 := 0;
    for i := 0 to |keys|
      invariant spentBits == Min(U64_MAX, Spent(bits, keys, i))
      invariant forall k :: 0 <= k < i ==> MIN_BITS <= bits[k] <= MAX_BITS && allocations[k].hashFunctions != 0
    {
      var a := allocations[i];
      if a.bitsPerKey < MIN_BITS || a.bitsPerKey > MAX_BITS {
        return false;
      }
      if a.hashFunctions == 0 {
        return false;
      }
      var product := a.bitsPerKey * keys[i];
      spentBits := SatAdd(spentBits, Min(U64_MAX, product));
    }
    if spentBits > budget {
      return false;
    }
    var i := 1;
    while i < |allocations|
      invariant 1 <= i && forall k :: 0 < k < i && k < |bits| ==> bits[k] <= bits[k - 1]
    {
      if allocations[i - 1].bitsPerKey < allocations[i].bitsPerKey {
        return false;
      }
      i := i + 1;
    }
    return true;
  }

  /** Planning and checking agree: a grant passes the check exactly if it stays within the budget, or any total does. */
  method PlanAndVerify(keys: seq<U64>, budget: U64) returns (r: Result<seq<LevelAllocation>, BudgetError>, ok: bool)
    ensures r.Ok? <==> Refusal(keys, budget).None?
    ensures r.Ok? ==> (ok <==> StaysWithin(keys, budget) || budget == U64_MAX)
  {
    hide StaysWithin, Total, HashCount;
    r := ComputeAllocations(keys, budget);
    ok := true;
    if r.Ok? {
      ok := VerifyInternalInvariants(r.value, keys, budget);
      forall i | 0 <= i < |r.value| ensures r.value[i].hashFunctions != 0 { HashCountPositive(r.value[i].bitsPerKey); }
    }
  }

  lemma HashCountPositive(bits: nat)
    ensures HashCount(bits) >= 1
  {}

  lemma DivisionExactly(x: nat, d: nat)
    requires d > 0
    ensures x / d * d <= x < (x / d + 1) * d
  {
    assert x == d * (x / d) + x % d && (x / d + 1) * d == d * (x / d) + d;
  }

  /** What a granted level announces: about 0.693 probes a bit, and the false positives that many halvings of a million leave. */
  lemma AllocationExactly(level: nat, bits: nat)
    requires MIN_BITS <= bits <= MAX_BITS
    ensures var a := Allocation(level, bits);
            && a.level == level && a.bitsPerKey == bits
            && 1 <= a.hashFunctions <= 16 && 1000 * a.hashFunctions <= 693 * bits < 1000 * (a.hashFunctions + 1)
            && a.falsePositivePpm * Pow2(a.hashFunctions) <= 1_000_000 < (a.falsePositivePpm + 1) * Pow2(a.hashFunctions)
  {
    DivisionExactly(1_000_000, Pow2(HashCount(bits)));
    hide Pow2;
  }
}
