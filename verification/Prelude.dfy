/** Results, optional values and the machine-integer bounds shared by the kernels. */
module Wrappers {
  datatype Option<+T> = None | Some(value: T)

  datatype Result<+T, +E> = Ok(value: T) | Err(error: E)

  const U32_MAX: int := 0xFFFF_FFFF
  const U64_MAX: int := 0xFFFF_FFFF_FFFF_FFFF
  const TWO64: nat := 0x1_0000_0000_0000_0000

  type U32 = x: int | 0 <= x <= 0xFFFF_FFFF
  type U64 = x: int | 0 <= x <= 0xFFFF_FFFF_FFFF_FFFF

  function Min(a: int, b: int): int {
    if a <= b then a else b
  }

  function Max(a: int, b: int): int {
    if a >= b then a else b
  }

  function Pow2(n: nat): (p: nat)
    ensures p > 0
  {
    if n == 0 then 1 else 2 * Pow2(n - 1)
  }

  /** `u32::try_from(n).unwrap_or(u32::MAX)`. */
  function CapU32(n: nat): U32 {
    if n > U32_MAX then U32_MAX else n
  }

  // u64 saturating arithmetic.
  function SatAdd(a: U64, b: U64): U64 {
    if a + b > U64_MAX then U64_MAX else a + b
  }

  function SatSub(a: U64, b: U64): U64 {
    if a < b then 0 else a - b
  }
}

/** Byte strings and the little-endian fixed-width integers of the on-disk formats. */
module Bytes {
  import opened Wrappers

  type Byte = x: int | 0 <= x < 256

  function Zeros(n: nat): (z: seq<Byte>)
    ensures |z| == n
  {
    seq(n, _ => 0)
  }

  function U32Le(n: U32): (b: seq<Byte>)
    ensures |b| == 4
  {
    [n % 256, n / 256 % 256, n / 65536 % 256, n / 16777216]
  }

  function FromU32Le(b: seq<Byte>): U32
    requires |b| == 4
  {
    b[0] as int + 256 * (b[1] as int) + 65536 * (b[2] as int) + 16777216 * (b[3] as int)
  }

  lemma U32LeRoundTrip(n: U32)
    ensures FromU32Le(U32Le(n)) == n
  {
    assert n == n % 256 + 256 * (n / 256 % 256) + 65536 * (n / 65536 % 256) + 16777216 * (n / 16777216) by {
      assert n == 256 * (n / 256) + n % 256;
      assert n / 65536 == (n / 256) / 256;
      assert n / 16777216 == (n / 65536) / 256;
    }
  }

  function U64Le(n: U64): (b: seq<Byte>)
    ensures |b| == 8
  {
    U32Le(n % 0x1_0000_0000) + U32Le(n / 0x1_0000_0000)
  }

  function FromU64Le(b: seq<Byte>): U64
    requires |b| == 8
  {
    FromU32Le(b[..4]) + 0x1_0000_0000 * FromU32Le(b[4..])
  }

  lemma U64LeRoundTrip(n: U64)
    ensures FromU64Le(U64Le(n)) == n
  {
    var lo, hi := n % 0x1_0000_0000, n / 0x1_0000_0000;
    assert U64Le(n)[..4] == U32Le(lo) && U64Le(n)[4..] == U32Le(hi);
    U32LeRoundTrip(lo);
    U32LeRoundTrip(hi);
  }
}

/** User keys under the lexicographic byte order that Rust gives to `&[u8]`. */
module KeyOrder {
  import opened Bytes

  type Key = seq<Byte>

  /** `a` and `b` agree before `n`, and there `a` ends or has the smaller byte. */
  predicate DropsAt(a: Key, b: Key, n: int) {
    0 <= n <= |a| && n < |b| && (forall i :: 0 <= i < n ==> a[i] == b[i]) && (n == |a| || a[n] < b[n])
  }

  predicate Less(a: Key, b: Key) {
    exists n :: 0 <= n < |b| && DropsAt(a, b, n)
  }

  predicate AtMost(a: Key, b: Key) {
    !Less(b, a)
  }

  lemma Transitive(a: Key, b: Key, c: Key)
    requires Less(a, b) && Less(b, c)
    ensures Less(a, c)
  {
    var m :| 0 <= m < |b| && DropsAt(a, b, m);
    var n :| 0 <= n < |c| && DropsAt(b, c, n);
    var k := if m <= n then m else n;
    assert DropsAt(a, c, k);
  }

  lemma Trichotomy(a: Key, b: Key)
    ensures Less(a, b) || a == b || Less(b, a)
  {
    var n := 0;
    while n < |a| && n < |b| && a[n] == b[n]
      invariant n <= |a| && n <= |b| && forall i :: 0 <= i < n ==> a[i] == b[i]
    {
      n := n + 1;
    }
    if n < |b| && (n == |a| || a[n] < b[n]) {
      assert DropsAt(a, b, n);
    } else if n < |a| {
      assert DropsAt(b, a, n);
    }
  }

  /** `Less` is a strict total order; proofs elsewhere use it only through this fact. */
  lemma LessIsTotalOrder()
    ensures forall a: Key :: !Less(a, a)
    ensures forall a: Key, b: Key, c: Key :: Less(a, b) && Less(b, c) ==> Less(a, c)
    ensures forall a: Key, b: Key :: Less(a, b) || a == b || Less(b, a)
  {
    forall a: Key, b: Key, c: Key | Less(a, b) && Less(b, c) ensures Less(a, c) { Transitive(a, b, c); }
    forall a: Key, b: Key ensures Less(a, b) || a == b || Less(b, a) { Trichotomy(a, b); }
  }

  lemma AtMostLess(a: Key, b: Key, c: Key)
    requires AtMost(a, b) && Less(b, c)
    ensures Less(a, c) && AtMost(a, c)
  {
    Trichotomy(a, b);
    if Less(a, b) { Transitive(a, b, c); }
    if Less(c, a) { Transitive(b, c, a); }
  }

  lemma LessAtMost(a: Key, b: Key, c: Key)
    requires Less(a, b) && AtMost(b, c)
    ensures Less(a, c)
  {
    Trichotomy(b, c);
    if Less(b, c) { Transitive(a, b, c); }
  }

  lemma AtMostTransitive(a: Key, b: Key, c: Key)
    requires AtMost(a, b) && AtMost(b, c)
    ensures AtMost(a, c)
  {
    Trichotomy(a, b);
    if Less(c, a) && Less(a, b) { Transitive(c, a, b); }
  }

  predicate Ascending(keys: seq<Key>) {
    forall i, j :: 0 <= i < j < |keys| ==> Less(keys[i], keys[j])
  }

  /** Neighbours in order put the whole sequence in order. */
  lemma {:induction false} NeighboursAscend(keys: seq<Key>, i: nat, j: nat)
    requires forall k :: 0 <= k < |keys| - 1 ==> Less(keys[k], keys[k + 1])
    requires i < j < |keys|
    ensures Less(keys[i], keys[j])
  {
    if i + 1 < j {
      NeighboursAscend(keys, i, j - 1);
      assert Less(keys[j - 1], keys[j - 1 + 1]);
      Transitive(keys[i], keys[j - 1], keys[j]);
    }
  }

  predicate Distinct(keys: seq<Key>) {
    forall i, j :: 0 <= i < j < |keys| ==> keys[i] != keys[j]
  }

  predicate Sorted(keys: seq<Key>) {
    forall i, j :: 0 <= i < j < |keys| ==> AtMost(keys[i], keys[j])
  }

  function InsertKey(k: Key, keys: seq<Key>): (r: seq<Key>)
    ensures multiset(r) == multiset(keys) + multiset{k}
  {
    if keys == [] || Less(k, keys[0]) then [k] + keys
    else
      assert keys == [keys[0]] + keys[1..];
      [keys[0]] + InsertKey(k, keys[1..])
  }

  /** The keys in order; stands for the library sort. */
  function SortKeys(keys: seq<Key>): (r: seq<Key>)
    ensures multiset(r) == multiset(keys)
  {
    if keys == [] then []
    else
      assert keys == keys[..|keys| - 1] + [keys[|keys| - 1]];
      InsertKey(keys[|keys| - 1], SortKeys(keys[..|keys| - 1]))
  }

  lemma SameMembers(a: seq<Key>, b: seq<Key>)
    requires multiset(a) == multiset(b)
    ensures |a| == |b| && forall k :: k in a <==> k in b
  {
    assert |multiset(a)| == |a| && |multiset(b)| == |b|;
    forall k ensures k in a <==> k in b {
      assert k in a <==> k in multiset(a);
      assert k in b <==> k in multiset(b);
    }
  }

  lemma {:induction false} InsertKeySorted(k: Key, keys: seq<Key>)
    requires Sorted(keys)
    ensures Sorted(InsertKey(k, keys))
  {
    LessIsTotalOrder();
    if keys != [] && !Less(k, keys[0]) {
      var rest := InsertKey(k, keys[1..]);
      InsertKeySorted(k, keys[1..]);
      forall i | 0 <= i < |rest| ensures AtMost(keys[0], rest[i]) {
        SameMembers(rest, keys[1..] + [k]);
        assert rest[i] in rest;
      }
    }
  }

  lemma {:induction false} SortKeysSorted(keys: seq<Key>)
    ensures Sorted(SortKeys(keys))
  {
    if keys != [] {
      SortKeysSorted(keys[..|keys| - 1]);
      InsertKeySorted(keys[|keys| - 1], SortKeys(keys[..|keys| - 1]));
    }
  }

  /** A repeat shows up as an adjacent pair of the sorted keys, and only then. */
  lemma AdjacentRepeat(keys: seq<Key>, sorted: seq<Key>)
    requires multiset(sorted) == multiset(keys) && Sorted(sorted)
    ensures Distinct(keys) <==> forall i :: 0 <= i < |sorted| - 1 ==> sorted[i] != sorted[i + 1]
    ensures Distinct(keys) <==> Ascending(sorted)
  {
    LessIsTotalOrder();
    DistinctIsMultiplicity(keys);
    DistinctIsMultiplicity(sorted);
    if forall i :: 0 <= i < |sorted| - 1 ==> sorted[i] != sorted[i + 1] {
      forall i, j | 0 <= i < j < |sorted| ensures sorted[i] != sorted[j] && Less(sorted[i], sorted[j]) {
        assert Less(sorted[i], sorted[i + 1]);
        if i + 1 < j { assert AtMost(sorted[i + 1], sorted[j]); }
      }
    }
  }

  lemma {:induction false} DistinctIsMultiplicity(keys: seq<Key>)
    ensures Distinct(keys) <==> forall k :: multiset(keys)[k] <= 1
  {
    if keys != [] {
      var init, last := keys[..|keys| - 1], keys[|keys| - 1];
      assert keys == init + [last];
      DistinctIsMultiplicity(init);
      if Distinct(keys) {
        assert Distinct(init) && last !in init;
        assert multiset(init)[last] == 0;
      } else if Distinct(init) {
        assert exists i :: 0 <= i < |init| && init[i] == last;
        assert multiset(keys)[last] >= 2;
      } else {
        var k :| multiset(init)[k] > 1;
        assert multiset(keys)[k] > 1;
      }
    }
  }

  /** Distinct keys, once sorted, ascend strictly. */
  lemma DistinctSortAscends(keys: seq<Key>)
    requires Distinct(keys)
    ensures Ascending(SortKeys(keys)) && |SortKeys(keys)| == |keys|
    ensures forall k :: k in SortKeys(keys) <==> k in keys
  {
    SortKeysSorted(keys);
    AdjacentRepeat(keys, SortKeys(keys));
    SameMembers(SortKeys(keys), keys);
  }
}
