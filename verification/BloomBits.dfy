/** One monolithic double-hashed Bloom filter: bit arrays, probes, insertion, query and codec. */
module BloomBits {
  import opened Wrappers
  import opened Bytes

  const MAX_K: int := 30
  const FILTER_PART_MAGIC: U32 := 0xFFFF_FFFE

  /** A key's hash pair; the filter sees nothing else of a key. */
  datatype Hash = Hash(h1: U64, h2: U64)

  // ---- Bits -----------------------------------------------------------

  /** Binary digit `k` of `b`: `b & (1 << k) != 0`. */
  predicate Digit(b: nat, k: nat) {
    if k == 0 then b % 2 == 1 else Digit(b / 2, k - 1)
  }

  /** `b` with binary digit `k` set: `b | (1 << k)`. */
  function WithDigit(b: nat, k: nat): nat {
    if k == 0 then b / 2 * 2 + 1 else 2 * WithDigit(b / 2, k - 1) + b % 2
  }

  lemma {:induction false} WithDigitFacts(b: nat, k: nat, j: nat)
    ensures Digit(WithDigit(b, k), j) <==> j == k || Digit(b, j)
  {
    if k > 0 {
      var r := WithDigit(b / 2, k - 1);
      assert (2 * r + b % 2) / 2 == r && (2 * r + b % 2) % 2 == b % 2;
      if j > 0 { WithDigitFacts(b / 2, k - 1, j - 1); }
    } else {
      assert (b / 2 * 2 + 1) / 2 == b / 2 && (b / 2 * 2 + 1) % 2 == 1;
    }
  }

  lemma {:induction false} WithDigitBound(b: nat, k: nat, n: nat)
    requires k < n && b < Pow2(n)
    ensures WithDigit(b, k) < Pow2(n)
  {
    if k > 0 { WithDigitBound(b / 2, k - 1, n - 1); }
  }

  predicate TestBit(bits: seq<Byte>, i: nat)
    requires i / 8 < |bits|
  {
    Digit(bits[i / 8], i % 8)
  }

  function SetBit(bits: seq<Byte>, i: nat): (r: seq<Byte>)
    requires i / 8 < |bits|
    ensures |r| == |bits|
  {
    assert Pow2(8) == 256 by { assert Pow2(4) == 16; }
    WithDigitBound(bits[i / 8], i % 8, 8);
    bits[i / 8 := WithDigit(bits[i / 8], i % 8)]
  }

  /** Setting bit `i` sets that bit and no other. */
  lemma SetBitFacts(bits: seq<Byte>, i: nat, j: nat)
    requires i / 8 < |bits| && j / 8 < |bits|
    ensures TestBit(SetBit(bits, i), j) <==> j == i || TestBit(bits, j)
  {
    if i / 8 == j / 8 {
      WithDigitFacts(bits[i / 8], i % 8, j % 8);
      assert i == 8 * (i / 8) + i % 8 && j == 8 * (j / 8) + j % 8;
    }
  }

  // ---- One filter -----------------------------------------------------

  datatype Mono = Mono(nbits: U32, k: U32, bits: seq<Byte>)

  const ALWAYS_TRUE: Mono := Mono(0, 0, [])

  predicate Active(m: Mono) {
    m.nbits > 0 && m.k > 0 && m.bits != []
  }

  /** What building and decoding produce: the bits cover `nbits`, the header fields are in range. */
  predicate WellFormed(m: Mono) {
    if Active(m) then m.nbits <= 8 * |m.bits| && m.k <= MAX_K && |m.bits| <= U32_MAX else m == ALWAYS_TRUE
  }

  function SaturatingProduct(a: nat, b: nat): nat {
    if b != 0 && a > U64_MAX / b then U64_MAX else a * b
  }

  /** About 0.69 probes per bit, kept within 1..30. */
  function ProbeCount(bitsPerKey: nat): (k: U32)
    ensures 1 <= k <= MAX_K
  {
    var raw := if bitsPerKey > U64_MAX / 69 then 30 else bitsPerKey * 69 / 100;
    Max(1, Min(30, raw))
  }

  function WithCapacity(nKeys: nat, bitsPerKey: nat): (m: Mono)
    ensures WellFormed(m) && |m.bits| <= 0x2000_0000
  {
    if nKeys == 0 || bitsPerKey == 0 then ALWAYS_TRUE
    else
      var nbits := Min(Max(SaturatingProduct(nKeys, bitsPerKey), 64), U32_MAX);
      Mono(nbits, ProbeCount(bitsPerKey), Zeros((nbits + 7) / 8))
  }

  lemma ProductSaturates(a: nat, b: nat)
    ensures SaturatingProduct(a, b) == Min(a * b, U64_MAX)
  {
    if b != 0 {
      var q := U64_MAX / b;
      assert U64_MAX == b * q + U64_MAX % b && (q + 1) * b == b * q + b;
      if a > q { Growing(q + 1, a, b); } else { Growing(a, q, b); }
    }
  }

  lemma Growing(a: nat, b: nat, c: nat)
    requires a <= b
    ensures a * c <= b * c
  {}

  /** The size of a new filter: one bit for each of the keys' bits, at least 64 and within u32, in whole bytes, all clear. */
  lemma CapacityExactly(nKeys: nat, bitsPerKey: nat)
    ensures var m, n := WithCapacity(nKeys, bitsPerKey), nKeys * bitsPerKey;
            && (Active(m) <==> n > 0)
            && (n > 0 ==> m.nbits == (if n < 64 then 64 else if n > U32_MAX then U32_MAX else n))
            && (n > 0 ==> m.nbits <= 8 * |m.bits| < m.nbits + 8 && m.bits == Zeros(|m.bits|))
            && (n > 0 ==> m.k == 1 || 100 * m.k <= 69 * bitsPerKey)
            && (n > 0 ==> m.k == MAX_K || 69 * bitsPerKey < 100 * (m.k + 1))
  {
    ProductSaturates(nKeys, bitsPerKey);
    hide SaturatingProduct;
    if nKeys > 0 && bitsPerKey > 0 { Growing(1, nKeys, bitsPerKey); }
  }

  /** The `i`-th probe: wrapping 64-bit double hashing, reduced to the filter's width. */
  function ProbeBit(h: Hash, i: nat, nbits: int): nat
    requires nbits > 0
  {
    (h.h1 + i * h.h2 % TWO64) % TWO64 % nbits
  }

  /** Where the probes come from: start at the first hash and add the second, in 64 bits. */
  function Walk(h: Hash, i: nat): U64 {
    if i == 0 then h.h1 else (Walk(h, i - 1) + h.h2) % TWO64
  }

  lemma RemainderAdds(x: nat, y: nat)
    ensures (x % TWO64 + y) % TWO64 == (x + y) % TWO64
  {}

  lemma WalkStep(a: nat, x: nat, b: nat)
    ensures ((a + x % TWO64) % TWO64 + b) % TWO64 == (a + (x + b) % TWO64) % TWO64
  {
    RemainderAdds(a + x % TWO64, b);
    RemainderAdds(x, a + b);
    RemainderAdds(x + b, a);
  }

  /** The walk's position after `i` steps, in wrapped arithmetic. */
  function WalkAt(h: Hash, i: nat): nat {
    (h.h1 + i * h.h2 % TWO64) % TWO64
  }

  lemma WalkAtNext(h: Hash, i: nat)
    ensures WalkAt(h, i + 1) == (WalkAt(h, i) + h.h2) % TWO64
  {
    assert (i + 1) * h.h2 == i * h.h2 + h.h2;
    WalkStep(h.h1, i * h.h2, h.h2);
  }

  lemma WalkStarts(h: Hash)
    ensures WalkAt(h, 0) == h.h1
  {
    assert 0 * h.h2 == 0;
  }

  lemma {:induction false} WalkArrives(h: Hash, i: nat)
    ensures Walk(h, i) == WalkAt(h, i)
  {
    hide WalkAt;
    if i > 0 {
      WalkArrives(h, i - 1);
      WalkAtNext(h, i - 1);
    } else {
      WalkStarts(h);
    }
  }

  /** Each probe is the walk's position reduced to the width. */
  lemma ProbesWalk(h: Hash, i: nat, nbits: int)
    requires nbits > 0
    ensures ProbeBit(h, i, nbits) == Walk(h, i) % nbits
  {
    WalkArrives(h, i);
    hide Walk;
  }

  function BitIndex(bit: nat): nat {
    if bit > U32_MAX then 0 else bit
  }

  function Probe(m: Mono, h: Hash, i: nat): (p: nat)
    requires WellFormed(m) && Active(m)
    ensures p < m.nbits && p / 8 < |m.bits|
  {
    BitIndex(ProbeBit(h, i, m.nbits))
  }

  ghost predicate MayContain(m: Mono, h: Hash)
    requires WellFormed(m)
  {
    Active(m) ==> forall i :: 0 <= i < m.k ==> TestBit(m.bits, Probe(m, h, i))
  }

  /** Bit `b` is one of the first `n` probes of `h`. */
  ghost predicate Probed(m: Mono, h: Hash, n: nat, b: nat)
    requires WellFormed(m) && Active(m)
  {
    exists i :: 0 <= i < n && Probe(m, h, i) == b
  }

  function Inserted(m: Mono, h: Hash, n: nat): (r: Mono)
    requires WellFormed(m) && Active(m)
    ensures WellFormed(r) && Active(r) && r.nbits == m.nbits && r.k == m.k && |r.bits| == |m.bits|
  {
    if n == 0 then m
    else
      var r := Inserted(m, h, n - 1);
      r.(bits := SetBit(r.bits, Probe(m, h, n - 1)))
  }

  /** Insertion sets the probed bits and leaves every other bit as it was. */
  lemma {:induction false} InsertedBits(m: Mono, h: Hash, n: nat, b: nat)
    requires WellFormed(m) && Active(m) && b / 8 < |m.bits|
    ensures TestBit(Inserted(m, h, n).bits, b) <==> TestBit(m.bits, b) || Probed(m, h, n, b)
  {
    if n > 0 {
      InsertedBits(m, h, n - 1, b);
      SetBitFacts(Inserted(m, h, n - 1).bits, Probe(m, h, n - 1), b);
      if Probed(m, h, n, b) && b != Probe(m, h, n - 1) {
        var i :| 0 <= i < n && Probe(m, h, i) == b;
        assert i < n - 1;
      }
    }
  }

  /** The filter with `h` inserted; an inactive filter stays as it is. */
  function WithHash(m: Mono, h: Hash): (r: Mono)
    requires WellFormed(m)
    ensures WellFormed(r) && |r.bits| == |m.bits|
  {
    if Active(m) then Inserted(m, h, m.k) else m
  }

  /** What was inserted is found, and what was found before still is. */
  lemma WithHashFinds(m: Mono, h: Hash, g: Hash)
    requires WellFormed(m)
    ensures MayContain(WithHash(m, h), h)
    ensures MayContain(m, g) ==> MayContain(WithHash(m, h), g)
  {
    if Active(m) {
      var r := WithHash(m, h);
      forall i | 0 <= i < m.k
        ensures TestBit(r.bits, Probe(r, h, i)) && (MayContain(m, g) ==> TestBit(r.bits, Probe(r, g, i)))
      {
        assert Probe(r, h, i) == Probe(m, h, i) && Probe(r, g, i) == Probe(m, g, i);
        assert Probed(m, h, m.k, Probe(m, h, i));
        InsertedBits(m, h, m.k, Probe(m, h, i));
        InsertedBits(m, h, m.k, Probe(m, g, i));
      }
    }
  }

  // ---- What a filled filter answers -----------------------------------

  /** The filter with all of `hs` inserted. */
  function WithAll(m: Mono, hs: seq<Hash>): (r: Mono)
    requires WellFormed(m)
    ensures WellFormed(r) && r.nbits == m.nbits && r.k == m.k && |r.bits| == |m.bits|
  {
    if hs == [] then m else WithHash(WithAll(m, hs[..|hs| - 1]), hs[|hs| - 1])
  }

  lemma WithAllNext(m: Mono, hs: seq<Hash>, h: Hash)
    requires WellFormed(m)
    ensures WithAll(m, hs + [h]) == WithHash(WithAll(m, hs), h)
  {
    assert (hs + [h])[..|hs|] == hs;
  }

  /** Some hash of `hs` probes bit `b`. */
  ghost predicate ProbedBySome(m: Mono, hs: seq<Hash>, b: nat)
    requires WellFormed(m) && Active(m)
  {
    exists i :: 0 <= i < |hs| && Probed(m, hs[i], m.k, b)
  }

  lemma SameProbes(m: Mono, r: Mono, h: Hash, n: nat, b: nat)
    requires WellFormed(m) && Active(m) && WellFormed(r) && Active(r) && r.nbits == m.nbits
    ensures Probed(m, h, n, b) <==> Probed(r, h, n, b)
  {
    forall i: nat ensures Probe(m, h, i) == Probe(r, h, i) {}
  }

  /** Inserting all of `hs` sets exactly the bits they probe. */
  lemma {:induction false} AllBits(m: Mono, hs: seq<Hash>, b: nat)
    requires WellFormed(m) && Active(m) && b / 8 < |m.bits|
    ensures TestBit(WithAll(m, hs).bits, b) <==> TestBit(m.bits, b) || ProbedBySome(m, hs, b)
  {
    if hs != [] {
      var n := |hs| - 1;
      var r := WithAll(m, hs[..n]);
      AllBits(m, hs[..n], b);
      InsertedBits(r, hs[n], r.k, b);
      SameProbes(m, r, hs[n], m.k, b);
      ProbedBySomeNext(m, hs, b);
      hide Probed, TestBit, Inserted, ProbedBySome;
    }
  }

  lemma ProbedBySomeNext(m: Mono, hs: seq<Hash>, b: nat)
    requires WellFormed(m) && Active(m) && hs != []
    ensures var n := |hs| - 1; ProbedBySome(m, hs, b) <==> ProbedBySome(m, hs[..n], b) || Probed(m, hs[n], m.k, b)
  {
    hide Probed;
    var n := |hs| - 1;
    if i :| 0 <= i < n && Probed(m, hs[..n][i], m.k, b) { assert Probed(m, hs[i], m.k, b); }
    if i :| 0 <= i < |hs| && Probed(m, hs[i], m.k, b) { assert i < n ==> hs[..n][i] == hs[i]; }
  }

  /** Every probe of `h` is a probe of some hash of `hs`. */
  ghost predicate Covered(m: Mono, hs: seq<Hash>, h: Hash)
    requires WellFormed(m) && Active(m)
  {
    forall j :: 0 <= j < m.k ==> ProbedBySome(m, hs, Probe(m, h, j))
  }

  lemma ClearBits(n: nat, b: nat)
    requires b / 8 < n
    ensures !TestBit(Zeros(n), b)
  {
    ZeroDigits(b % 8);
  }

  lemma {:induction false} ZeroDigits(k: nat)
    ensures !Digit(0, k)
  {
    if k > 0 { ZeroDigits(k - 1); }
  }

  /** A filter filled from clear bits lets a hash through exactly if the inserted ones cover all its probes. */
  lemma FilledAnswersExactly(m: Mono, hs: seq<Hash>, h: Hash)
    requires WellFormed(m) && Active(m) && m.bits == Zeros(|m.bits|)
    ensures MayContain(WithAll(m, hs), h) <==> Covered(m, hs, h)
  {
    var r := WithAll(m, hs);
    forall j | 0 <= j < m.k ensures TestBit(r.bits, Probe(r, h, j)) <==> ProbedBySome(m, hs, Probe(m, h, j)) {
      assert Probe(r, h, j) == Probe(m, h, j);
      AllBits(m, hs, Probe(m, h, j));
      ClearBits(|m.bits|, Probe(m, h, j));
    }
    hide TestBit, ProbedBySome, Probe, WithAll;
  }

  /** The probe loop of insertion. */
  method InsertPrehashed(m: Mono, h: Hash) returns (r: Mono)
    requires WellFormed(m)
    ensures r == WithHash(m, h)
    ensures Active(m) ==> forall b: nat :: b / 8 < |m.bits| ==>
              (TestBit(r.bits, b) <==> TestBit(m.bits, b) || Probed(m, h, m.k, b))
  {
    r := m;
    if !Active(m) {
      return;
    }
    var i := 0;
    while i < m.k
      invariant 0 <= i <= m.k && r == Inserted(m, h, i)
    {
      r := r.(bits := SetBit(r.bits, BitIndex(ProbeBit(h, i, m.nbits))));
      i := i + 1;
    }
    forall b: nat | b / 8 < |m.bits| ensures TestBit(r.bits, b) <==> TestBit(m.bits, b) || Probed(m, h, m.k, b) {
      InsertedBits(m, h, m.k, b);
    }
  }

  /** The probe loop of a query. */
  method QueryPrehashed(m: Mono, h: Hash) returns (maybe: bool)
    requires WellFormed(m)
    ensures maybe <==> MayContain(m, h)
  {
    if !Active(m) {
      return true;
    }
    var i := 0;
    while i < m.k
      invariant 0 <= i <= m.k && forall j :: 0 <= j < i ==> TestBit(m.bits, Probe(m, h, j))
    {
      if !TestBit(m.bits, BitIndex(ProbeBit(h, i, m.nbits))) {
        assert !TestBit(m.bits, Probe(m, h, i));
        return false;
      }
      i := i + 1;
    }
    return true;
  }

  // ---- Codec ----------------------------------------------------------

  datatype BloomError = TooShort | BitsTruncated | HeaderInvalid | BadPartCount(nparts: U32) | PartsTruncated | PartTruncated

  /** `nbits | k | nbytes | bits`. */
  function EncodeMono(m: Mono): (b: seq<Byte>)
    ensures |b| == 12 + |m.bits|
  {
    U32Le(m.nbits) + U32Le(m.k) + U32Le(CapU32(|m.bits|)) + m.bits
  }

  predicate HeaderOk(nbits: U32, k: U32, nbytes: U32, residual: nat) {
    1 <= k <= MAX_K && nbytes >= (nbits + 7) / 8 && nbytes <= residual
  }

  /** A monolithic filter from its header fields and the bytes behind them. */
  function MonoFrom(nbits: U32, k: U32, nbytes: U32, rest: seq<Byte>): (r: Result<Mono, BloomError>)
    requires nbytes <= |rest|
    ensures r.Ok? ==> WellFormed(r.value)
  {
    if nbits == 0 || k == 0 || nbytes == 0 then Ok(ALWAYS_TRUE)
    else if !HeaderOk(nbits, k, nbytes, |rest|) then Err(HeaderInvalid)
    else Ok(Mono(nbits, k, rest[..nbytes]))
  }

  function DecodeMono(buf: seq<Byte>): (r: Result<Mono, BloomError>)
    ensures r.Ok? ==> WellFormed(r.value)
  {
    if buf == [] then Ok(ALWAYS_TRUE)
    else if |buf| < 12 then Err(TooShort)
    else
      var nbits, k, nbytes := FromU32Le(buf[..4]), FromU32Le(buf[4..8]), FromU32Le(buf[8..12]);
      if 12 + nbytes > |buf| then Err(BitsTruncated)
      else MonoFrom(nbits, k, nbytes, buf[12..])
  }

  /** The header of an encoding reads back as the filter's own fields. */
  lemma EncodedFields(m: Mono)
    requires |m.bits| <= U32_MAX
    ensures var b := EncodeMono(m);
            && FromU32Le(b[..4]) == m.nbits && FromU32Le(b[4..8]) == m.k && FromU32Le(b[8..12]) == |m.bits|
            && b[12..] == m.bits
  {
    hide U32Le, FromU32Le;
    var b := EncodeMono(m);
    U32LeRoundTrip(m.nbits);
    U32LeRoundTrip(m.k);
    U32LeRoundTrip(|m.bits|);
    assert b[..4] == U32Le(m.nbits) && b[4..8] == U32Le(m.k) && b[8..12] == U32Le(|m.bits|);
  }

  /** The format on one filter: width, probes and byte count, little-endian, then the bits. */
  lemma FormatOfOneFilter()
    ensures EncodeMono(Mono(8, 1, [5])) == [8, 0, 0, 0, 1, 0, 0, 0, 1, 0, 0, 0, 5]
  {}

  lemma MonoRoundTrip(m: Mono)
    requires WellFormed(m)
    ensures DecodeMono(EncodeMono(m)) == Ok(m)
  {
    hide FromU32Le, EncodeMono;
    EncodedFields(m);
    assert m.bits[..|m.bits|] == m.bits;
  }
}
