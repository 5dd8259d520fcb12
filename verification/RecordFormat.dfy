/**
 The logical write record stored in a WAL payload: v1 spells out every value, v2 lets an op
 reuse the value of the op before it when both point at the same buffer.
 */
module RecordFormat {
  import opened Wrappers
  import opened Bytes

  const WRITE_RECORD_VERSION: Byte := 1
  const WRITE_RECORD_VERSION_V2: Byte := 2
  const KIND_REUSE_PREV: Byte := 0x80

  datatype ValueType = Deletion | Value | RangeDeletion

  function AsU8(kind: ValueType): (b: Byte)
    ensures b < KIND_REUSE_PREV && FromU8(b) == Some(kind)
  {
    match kind case Deletion => 0 case Value => 1 case RangeDeletion => 2
  }

  function FromU8(b: Byte): Option<ValueType> {
    match b case 0 => Some(Deletion) case 1 => Some(Value) case 2 => Some(RangeDeletion) case _ => None
  }

  /** A shared byte buffer: where it lives and what it holds. */
  datatype Shared = Shared(ptr: int, data: seq<Byte>)

  datatype WriteOp = WriteOp(kind: ValueType, sequence: U64, key: seq<Byte>, value: Shared)

  /** An op without its buffer identity: what decoding yields and what equality of ops compares. */
  datatype PlainOp = PlainOp(kind: ValueType, sequence: U64, key: seq<Byte>, value: seq<Byte>)

  function Plain(op: WriteOp): PlainOp {
    PlainOp(op.kind, op.sequence, op.key, op.value.data)
  }

  function PlainAll(ops: seq<WriteOp>): (ps: seq<PlainOp>)
    ensures |ps| == |ops| && forall i :: 0 <= i < |ops| ==> ps[i] == Plain(ops[i])
  {
    seq(|ops|, i requires 0 <= i < |ops| => Plain(ops[i]))
  }

  /** Memory is what it is: one address and one length hold one content. */
  predicate Coherent(ops: seq<WriteOp>) {
    forall i, j :: 0 <= i < |ops| && 0 <= j < |ops| ==>
      ops[i].value.ptr == ops[j].value.ptr && |ops[i].value.data| == |ops[j].value.data| ==>
        ops[i].value == ops[j].value
  }

  predicate SameBuffer(a: Shared, b: Shared) {
    a.ptr == b.ptr && |a.data| == |b.data|
  }

  predicate ValuePtrEq(a: WriteOp, b: WriteOp) {
    a.value.data != [] && SameBuffer(a.value, b.value)
  }

  /** Op `i` omits its value. One such op makes the record v2, so the version need not be asked again. */
  predicate Reuses(ops: seq<WriteOp>, i: nat) {
    0 < i < |ops| && ValuePtrEq(ops[i - 1], ops[i])
  }

  predicate RecordUsesV2(ops: seq<WriteOp>) {
    exists i :: 0 <= i < |ops| && Reuses(ops, i)
  }

  // ---- Sizes and encoding ---------------------------------------------

  function OpLen(ops: seq<WriteOp>, i: nat): nat
    requires i < |ops|
  {
    if Reuses(ops, i) then 1 + 8 + 4 + |ops[i].key|
    else 1 + 8 + 4 + |ops[i].key| + 4 + |ops[i].value.data|
  }

  function BodyLen(ops: seq<WriteOp>, n: nat): nat
    requires n <= |ops|
  {
    if n == 0 then 0 else BodyLen(ops, n - 1) + OpLen(ops, n - 1)
  }

  function EncodedLen(ops: seq<WriteOp>): nat {
    1 + 4 + BodyLen(ops, |ops|)
  }

  function KindByte(ops: seq<WriteOp>, i: nat): Byte
    requires i < |ops|
  {
    AsU8(ops[i].kind) as int + if Reuses(ops, i) then KIND_REUSE_PREV as int else 0
  }

  /** Kind, sequence and key of an op. */
  function HeadBytes(ops: seq<WriteOp>, i: nat): (b: seq<Byte>)
    requires i < |ops|
    ensures |b| == 13 + |ops[i].key|
  {
    [KindByte(ops, i)] + U64Le(ops[i].sequence) + U32Le(CapU32(|ops[i].key|)) + ops[i].key
  }

  function EncodedOp(ops: seq<WriteOp>, i: nat): (b: seq<Byte>)
    requires i < |ops|
    ensures |b| == OpLen(ops, i)
  {
    if Reuses(ops, i) then HeadBytes(ops, i)
    else HeadBytes(ops, i) + U32Le(CapU32(|ops[i].value.data|)) + ops[i].value.data
  }

  /** The first `n` ops. */
  function Body(ops: seq<WriteOp>, n: nat): (b: seq<Byte>)
    requires n <= |ops|
    ensures |b| == BodyLen(ops, n)
  {
    if n == 0 then [] else Body(ops, n - 1) + EncodedOp(ops, n - 1)
  }

  function Version(ops: seq<WriteOp>): Byte {
    if RecordUsesV2(ops) then WRITE_RECORD_VERSION_V2 else WRITE_RECORD_VERSION
  }

  /** Op `i` holds the same non-empty buffer as the op before it. */
  predicate SharesAt(ops: seq<WriteOp>, i: int) {
    && 0 < i < |ops|
    && ops[i].value.ptr == ops[i - 1].value.ptr
    && |ops[i].value.data| == |ops[i - 1].value.data| > 0
  }

  /** A record is of version 2 exactly if some op shares the buffer before it, and just those ops omit their value. */
  lemma V2Exactly(ops: seq<WriteOp>)
    ensures Version(ops) == if exists i :: SharesAt(ops, i) then 2 else 1
    ensures forall i :: 0 <= i < |ops| ==>
              |EncodedOp(ops, i)| == 13 + |ops[i].key| + if SharesAt(ops, i) then 0 else 4 + |ops[i].value.data|
  {
    forall i | 0 <= i < |ops| ensures Reuses(ops, i) <==> SharesAt(ops, i) {}
    if i :| SharesAt(ops, i) {
      assert Reuses(ops, i);
    }
  }

  /** The bytes of a record; the length announced beforehand is the length written. */
  function Encoding(ops: seq<WriteOp>): (b: seq<Byte>)
    ensures |b| == EncodedLen(ops)
  {
    [Version(ops)] + U32Le(CapU32(|ops|)) + Body(ops, |ops|)
  }

  // ---- Decoding -------------------------------------------------------

  datatype RecordError =
    | Truncated
    | UnsupportedVersion(version: Byte)
    | CountExceedsRemaining(count: U32)
    | UnknownKind(kindByte: Byte)
    | ReuseWithoutPrevious
    | TrailingBytes

  function Last(ops: seq<PlainOp>): Option<seq<Byte>> {
    if ops == [] then None else Some(ops[|ops| - 1].value)
  }

  /** A length-prefixed byte string at the front of `b`, and the bytes behind it. */
  function Blob(b: seq<Byte>): (r: Result<(seq<Byte>, seq<Byte>), RecordError>)
    ensures r.Ok? ==> |r.value.0| <= U32_MAX
  {
    if |b| < 4 then Err(Truncated)
    else
      var len, rest := FromU32Le(b[..4]), b[4..];
      if len > |rest| then Err(Truncated) else Ok((rest[..len], rest[len..]))
  }

  /** One op at the front of `b` and the bytes behind it; `prev` is the value a v2 reuse refers to. */
  function ParsedOp(b: seq<Byte>, v2: bool, prev: Option<seq<Byte>>)
    : Result<(PlainOp, seq<Byte>), RecordError>
  {
    if |b| < 1 then Err(Truncated)
    else
      var kindByte, b1 := b[0], b[1..];
      var kind := FromU8(kindByte % 0x80);
      if kind.None? then Err(UnknownKind(kindByte))
      else if |b1| < 8 then Err(Truncated)
      else
        var sequence := FromU64Le(b1[..8]);
        match Blob(b1[8..])
        case Err(e) => Err(e)
        case Ok((key, b2)) =>
          if v2 && kindByte >= KIND_REUSE_PREV then
            if prev.None? then Err(ReuseWithoutPrevious)
            else Ok((PlainOp(kind.value, sequence, key, prev.value), b2))
          else
            match Blob(b2)
            case Err(e) => Err(e)
            case Ok((value, b3)) => Ok((PlainOp(kind.value, sequence, key, value), b3))
  }

  /** `count` more ops after `ops` from the front of `b`, and the bytes left over. */
  function ParsedOps(b: seq<Byte>, v2: bool, ops: seq<PlainOp>, count: nat)
    : Result<(seq<PlainOp>, seq<Byte>), RecordError>
    decreases count
  {
    if count == 0 then Ok((ops, b))
    else
      match ParsedOp(b, v2, Last(ops))
      case Err(e) => Err(e)
      case Ok((op, rest)) => ParsedOps(rest, v2, ops + [op], count - 1)
  }

  /** The smallest op of a version: headers only, and for v2 no value length. */
  function MinOp(v2: bool): nat {
    if v2 then 13 else 17
  }

  function Decoded(b: seq<Byte>): Result<seq<PlainOp>, RecordError> {
    if |b| < 1 then Err(Truncated)
    else if b[0] != WRITE_RECORD_VERSION && b[0] != WRITE_RECORD_VERSION_V2 then Err(UnsupportedVersion(b[0]))
    else if |b[1..]| < 4 then Err(Truncated)
    else
      var v2, count, rest := b[0] == WRITE_RECORD_VERSION_V2, FromU32Le(b[1..][..4]), b[1..][4..];
      if count > |rest| / MinOp(v2) then Err(CountExceedsRemaining(count))
      else
        match ParsedOps(rest, v2, [], count)
        case Err(e) => Err(e)
        case Ok((ops, rest)) => if rest != [] then Err(TrailingBytes) else Ok(ops)
  }

  // ---- Round trip -----------------------------------------------------

  /** Counts and lengths fit the u32 fields of the format. */
  predicate Fits(ops: seq<WriteOp>) {
    |ops| <= U32_MAX &&
    forall i :: 0 <= i < |ops| ==> |ops[i].key| <= U32_MAX && |ops[i].value.data| <= U32_MAX
  }

  lemma BlobRoundTrip(data: seq<Byte>, t: seq<Byte>)
    requires |data| <= U32_MAX
    ensures Blob(U32Le(|data|) + data + t) == Ok((data, t))
  {
    hide U32Le, FromU32Le;
    var b := U32Le(|data|) + data + t;
    U32LeRoundTrip(|data|);
    assert b[..4] == U32Le(|data|) && b[4..] == data + t;
  }

  /** `b` in front of any bytes parses as `op` and is taken whole. */
  ghost predicate ParsesAs(b: seq<Byte>, op: PlainOp, v2: bool, prev: Option<seq<Byte>>) {
    forall t :: ParsedOp(b + t, v2, prev) == Ok((op, t))
  }

  function ValueBefore(ops: seq<WriteOp>, i: nat): Option<seq<Byte>>
    requires i < |ops|
  {
    if i == 0 then None else Some(ops[i - 1].value.data)
  }

  lemma KindByteParses(ops: seq<WriteOp>, i: nat)
    requires i < |ops|
    ensures FromU8(KindByte(ops, i) % 0x80) == Some(ops[i].kind)
    ensures RecordUsesV2(ops) && KindByte(ops, i) >= KIND_REUSE_PREV <==> Reuses(ops, i)
  {}

  /** How a parse goes on behind a head whose kind is known. */
  lemma HeadParses(kindByte: Byte, kind: ValueType, sequence: U64, key: seq<Byte>, tail: seq<Byte>,
                   v2: bool, prev: Option<seq<Byte>>)
    requires FromU8(kindByte % 0x80) == Some(kind) && |key| <= U32_MAX
    ensures var r := ParsedOp([kindByte] + U64Le(sequence) + U32Le(|key|) + key + tail, v2, prev);
            if v2 && kindByte >= KIND_REUSE_PREV then
              prev.Some? ==> r == Ok((PlainOp(kind, sequence, key, prev.value), tail))
            else
              Blob(tail).Ok? ==> r == Ok((PlainOp(kind, sequence, key, Blob(tail).value.0), Blob(tail).value.1))
  {
    hide U64Le, FromU64Le, U32Le, Blob, FromU8;
    U64LeRoundTrip(sequence);
    HeadLayout(kindByte, U64Le(sequence), U32Le(|key|), key, tail);
    BlobRoundTrip(key, tail);
  }

  /** What stands behind the head of op `i` when `t` follows the op. */
  function BehindHead(ops: seq<WriteOp>, i: nat, t: seq<Byte>): seq<Byte>
    requires i < |ops| && |ops[i].value.data| <= U32_MAX
  {
    if Reuses(ops, i) then t else U32Le(|ops[i].value.data|) + ops[i].value.data + t
  }

  lemma OpLayout(ops: seq<WriteOp>, i: nat, t: seq<Byte>)
    requires i < |ops| && |ops[i].key| <= U32_MAX && |ops[i].value.data| <= U32_MAX
    ensures EncodedOp(ops, i) + t ==
            [KindByte(ops, i)] + U64Le(ops[i].sequence) + U32Le(|ops[i].key|) + ops[i].key + BehindHead(ops, i, t)
  {
    hide U64Le, U32Le, KindByte, Reuses;
    assert EncodedOp(ops, i) + t == HeadBytes(ops, i) + BehindHead(ops, i, t);
  }

  lemma OpParses(ops: seq<WriteOp>, i: nat, t: seq<Byte>)
    requires i < |ops| && Fits(ops) && Coherent(ops)
    ensures ParsedOp(EncodedOp(ops, i) + t, RecordUsesV2(ops), ValueBefore(ops, i)) == Ok((Plain(ops[i]), t))
  {
    KindByteParses(ops, i);
    var op := ops[i];
    assert Reuses(ops, i) ==> ValueBefore(ops, i) == Some(op.value.data);
    hide U64Le, U32Le, Blob, KindByte, FromU8, ParsedOp, EncodedOp, RecordUsesV2, Reuses, Coherent, ValueBefore;
    OpLayout(ops, i, t);
    HeadParses(KindByte(ops, i), op.kind, op.sequence, op.key, BehindHead(ops, i, t), RecordUsesV2(ops), ValueBefore(ops, i));
    BlobRoundTrip(op.value.data, t);
  }

  /** An encoded op, whatever follows it, parses back to itself and takes exactly its own bytes. */
  lemma OpRoundTrip(ops: seq<WriteOp>, i: nat)
    requires i < |ops| && Fits(ops) && Coherent(ops)
    ensures ParsesAs(EncodedOp(ops, i), Plain(ops[i]), RecordUsesV2(ops), ValueBefore(ops, i))
  {
    hide ParsedOp, EncodedOp, RecordUsesV2, ValueBefore, Plain, Fits, Coherent;
    forall t ensures ParsedOp(EncodedOp(ops, i) + t, RecordUsesV2(ops), ValueBefore(ops, i)) == Ok((Plain(ops[i]), t)) {
      OpParses(ops, i, t);
    }
  }

  lemma HeadLayout(kind: Byte, sequence: seq<Byte>, len: seq<Byte>, key: seq<Byte>, tail: seq<Byte>)
    requires |sequence| == 8
    ensures var b := [kind] + sequence + len + key + tail;
            b[0] == kind && b[1..][..8] == sequence && b[1..][8..] == len + key + tail
  {}

  /** Chunks laid end to end, from chunk `i` on. */
  function Joined(chunks: seq<seq<Byte>>, i: nat): seq<Byte>
    requires i <= |chunks|
    decreases |chunks| - i
  {
    if i == |chunks| then [] else chunks[i] + Joined(chunks, i + 1)
  }

  lemma {:induction false} JoinedParse(chunks: seq<seq<Byte>>, ops: seq<PlainOp>, v2: bool, i: nat)
    requires i <= |chunks| == |ops|
    requires forall j :: 0 <= j < |ops| ==> ParsesAs(chunks[j], ops[j], v2, Last(ops[..j]))
    ensures ParsedOps(Joined(chunks, i), v2, ops[..i], |ops| - i) == Ok((ops, []))
    decreases |chunks| - i
  {
    hide ParsedOp;
    if i == |chunks| {
      assert ops[..i] == ops;
    } else {
      var b := Joined(chunks, i);
      assert ParsesAs(chunks[i], ops[i], v2, Last(ops[..i]));
      assert ParsedOp(b, v2, Last(ops[..i])) == Ok((ops[i], Joined(chunks, i + 1)));
      assert ops[..i] + [ops[i]] == ops[..i + 1];
      JoinedParse(chunks, ops, v2, i + 1);
    }
  }

  lemma {:induction false} BodyIsJoined(ops: seq<WriteOp>, chunks: seq<seq<Byte>>, n: nat)
    requires n <= |ops| == |chunks| && forall i :: 0 <= i < |ops| ==> chunks[i] == EncodedOp(ops, i)
    ensures Body(ops, n) + Joined(chunks, n) == Joined(chunks, 0)
  {
    hide EncodedOp;
    if n > 0 {
      BodyIsJoined(ops, chunks, n - 1);
      assert Joined(chunks, n - 1) == chunks[n - 1] + Joined(chunks, n);
      assert Body(ops, n) + Joined(chunks, n) == Body(ops, n - 1) + (chunks[n - 1] + Joined(chunks, n));
    }
  }

  lemma BodyRoundTrip(ops: seq<WriteOp>)
    requires Fits(ops) && Coherent(ops)
    ensures ParsedOps(Body(ops, |ops|), RecordUsesV2(ops), [], |ops|) == Ok((PlainAll(ops), []))
  {
    hide ParsedOps, EncodedOp, ParsesAs, RecordUsesV2, Coherent, Fits;
    var chunks := seq(|ops|, i requires 0 <= i < |ops| => EncodedOp(ops, i));
    var plain := PlainAll(ops);
    forall j | 0 <= j < |ops| ensures ParsesAs(chunks[j], plain[j], RecordUsesV2(ops), Last(plain[..j])) {
      OpRoundTrip(ops, j);
      assert Last(plain[..j]) == ValueBefore(ops, j);
    }
    BodyIsJoined(ops, chunks, |ops|);
    assert Body(ops, |ops|) == Joined(chunks, 0);
    JoinedParse(chunks, plain, RecordUsesV2(ops), 0);
    assert plain[..0] == [];
  }

  /** The hostile-count guard leaves room for every valid record. */
  lemma {:induction false} BodyIsLongEnough(ops: seq<WriteOp>, n: nat)
    requires n <= |ops|
    ensures BodyLen(ops, n) >= n * MinOp(RecordUsesV2(ops))
  {
    if n > 0 { BodyIsLongEnough(ops, n - 1); }
  }

  lemma HeaderParses(version: Byte, count: seq<Byte>, body: seq<Byte>, ops: seq<PlainOp>)
    requires version == WRITE_RECORD_VERSION || version == WRITE_RECORD_VERSION_V2
    requires |count| == 4 && |body| >= FromU32Le(count) * MinOp(version == WRITE_RECORD_VERSION_V2)
    requires ParsedOps(body, version == WRITE_RECORD_VERSION_V2, [], FromU32Le(count)) == Ok((ops, []))
    ensures Decoded([version] + count + body) == Ok(ops)
  {
    assert MinOp(version == WRITE_RECORD_VERSION_V2) > 0;
    hide ParsedOps, FromU32Le, MinOp;
    var b := [version] + count + body;
    assert b[1..] == count + body && b[1..][..4] == count && b[1..][4..] == body;
    CountFits(FromU32Le(count), |body|, MinOp(version == WRITE_RECORD_VERSION_V2));
  }

  lemma ProductGrows(a: nat, b: nat, c: nat)
    requires a <= b
    ensures a * c <= b * c
  {}

  lemma CountFits(count: nat, len: nat, each: nat)
    requires each > 0 && len >= count * each
    ensures count <= len / each
  {
    assert len == each * (len / each) + len % each && (len / each + 1) * each == each * (len / each) + each;
    if count > len / each { ProductGrows(len / each + 1, count, each); }
  }

  lemma DecodesEncoding(ops: seq<WriteOp>)
    requires Fits(ops) && Coherent(ops)
    ensures Decoded(Encoding(ops)) == Ok(PlainAll(ops))
  {
    hide ParsedOps, Decoded, U32Le, FromU32Le;
    U32LeRoundTrip(|ops|);
    BodyIsLongEnough(ops, |ops|);
    BodyRoundTrip(ops);
    HeaderParses(Version(ops), U32Le(|ops|), Body(ops, |ops|), PlainAll(ops));
  }

  /** Whatever decodes has u32 counts and lengths. */
  predicate PlainFits(ops: seq<PlainOp>) {
    forall i :: 0 <= i < |ops| ==> |ops[i].key| <= U32_MAX && |ops[i].value| <= U32_MAX
  }

  lemma {:induction false} ParsedFits(b: seq<Byte>, v2: bool, ops: seq<PlainOp>, count: nat)
    requires PlainFits(ops)
    ensures match ParsedOps(b, v2, ops, count)
            case Ok((all, _)) => |all| == |ops| + count && PlainFits(all)
            case Err(_) => true
    decreases count
  {
    hide FromU64Le, Blob;
    if count > 0 && ParsedOp(b, v2, Last(ops)).Ok? {
      var (op, rest) := ParsedOp(b, v2, Last(ops)).value;
      ParsedFits(rest, v2, ops + [op], count - 1);
    }
  }

  /** Encoding followed by decoding gives the ops back exactly when their counts and lengths fit u32. */
  lemma RoundTripExactly(ops: seq<WriteOp>)
    requires Coherent(ops)
    ensures Decoded(Encoding(ops)) == Ok(PlainAll(ops)) <==> Fits(ops)
  {
    if Fits(ops) {
      DecodesEncoding(ops);
    } else if Decoded(Encoding(ops)) == Ok(PlainAll(ops)) {
      var b := Encoding(ops);
      ParsedFits(b[1..][4..], b[0] == WRITE_RECORD_VERSION_V2, [], FromU32Le(b[1..][..4]));
      assert forall i :: 0 <= i < |ops| ==> PlainAll(ops)[i] == Plain(ops[i]);
    }
  }

  // ---- The hostile-count guard ----------------------------------------

  lemma OpTakesRoom(b: seq<Byte>, v2: bool, prev: Option<seq<Byte>>)
    requires ParsedOp(b, v2, prev).Ok?
    ensures |ParsedOp(b, v2, prev).value.1| + MinOp(v2) <= |b|
  {
    hide FromU64Le, FromU32Le;
  }

  lemma {:induction false} OpsTakeRoom(b: seq<Byte>, v2: bool, ops: seq<PlainOp>, count: nat)
    requires ParsedOps(b, v2, ops, count).Ok?
    ensures |ParsedOps(b, v2, ops, count).value.1| + count * MinOp(v2) <= |b|
    decreases count
  {
    hide ParsedOp;
    if count > 0 {
      OpTakesRoom(b, v2, Last(ops));
      var (op, rest) := ParsedOp(b, v2, Last(ops)).value;
      OpsTakeRoom(rest, v2, ops + [op], count - 1);
      assert count * MinOp(v2) == (count - 1) * MinOp(v2) + MinOp(v2);
    }
  }

  /**
   The guard refuses a count that the rest cannot hold before any op is read, and refuses nothing that would
   decode: a record decodes exactly if its version is known and its ops take up all bytes behind the header.
   */
  lemma GuardIsTransparent(b: seq<Byte>, ops: seq<PlainOp>)
    requires |b| >= 5 && (b[0] == WRITE_RECORD_VERSION || b[0] == WRITE_RECORD_VERSION_V2)
    ensures var v2, count, rest := b[0] == WRITE_RECORD_VERSION_V2, FromU32Le(b[1..][..4]), b[1..][4..];
            && (count * MinOp(v2) > |rest| ==> Decoded(b) == Err(CountExceedsRemaining(count)))
            && (Decoded(b) == Ok(ops) <==> ParsedOps(rest, v2, [], count) == Ok((ops, [])))
  {
    hide FromU32Le, ParsedOps;
    var v2, count, rest := b[0] == WRITE_RECORD_VERSION_V2, FromU32Le(b[1..][..4]), b[1..][4..];
    if ParsedOps(rest, v2, [], count).Ok? { OpsTakeRoom(rest, v2, [], count); }
    if |rest| >= count * MinOp(v2) { CountFits(count, |rest|, MinOp(v2)); }
    else { CountExceeds(count, |rest|, MinOp(v2)); }
    hide MinOp;
  }

  lemma CountExceeds(count: nat, len: nat, each: nat)
    requires each > 0 && len < count * each
    ensures count > len / each
  {
    if count <= len / each { ProductGrows(count, len / each, each); }
    assert len == each * (len / each) + len % each;
  }

  /** The format on one record: version, count, then kind, sequence, key and value, little-endian. */
  lemma FormatOfOnePut(ptr: int)
    ensures var op := WriteOp(Value, 7, [0x6B], Shared(ptr, [0x76]));
            Encoding([op]) == [1, 1, 0, 0, 0] + [1, 7, 0, 0, 0, 0, 0, 0, 0, 1, 0, 0, 0, 0x6B, 1, 0, 0, 0, 0x76]
  {
    var op := WriteOp(Value, 7, [0x6B], Shared(ptr, [0x76]));
    var ops := [op];
    assert !RecordUsesV2(ops);
    assert U32Le(1) == [1, 0, 0, 0];
    hide U32Le, RecordUsesV2, EncodedOp;
    OneEncodedOp(ops);
    assert Body(ops, 1) == Body(ops, 0) + EncodedOp(ops, 0);
  }

  lemma OneEncodedOp(ops: seq<WriteOp>)
    requires |ops| == 1 && ops[0] == WriteOp(Value, 7, [0x6B], Shared(ops[0].value.ptr, [0x76]))
    ensures EncodedOp(ops, 0) == [1, 7, 0, 0, 0, 0, 0, 0, 0, 1, 0, 0, 0, 0x6B, 1, 0, 0, 0, 0x76]
  {
    assert U32Le(1) == [1, 0, 0, 0] && U64Le(7) == [7, 0, 0, 0] + [0, 0, 0, 0] && KindByte(ops, 0) == 1;
    hide U32Le, U64Le, KindByte, Reuses;
    assert !Reuses(ops, 0) by { NoneBefore(ops); }
  }

  lemma NoneBefore(ops: seq<WriteOp>)
    ensures !Reuses(ops, 0)
  {}

  // ---- Prefixes and extensions ----------------------------------------

  lemma BlobIgnoresTail(b: seq<Byte>, t: seq<Byte>)
    requires Blob(b).Ok?
    ensures Blob(b + t) == Ok((Blob(b).value.0, Blob(b).value.1 + t))
  {
    hide FromU32Le;
    var len, rest := FromU32Le(b[..4]), b[4..];
    assert (b + t)[..4] == b[..4] && (b + t)[4..] == rest + t;
    assert (rest + t)[..len] == rest[..len] && (rest + t)[len..] == rest[len..] + t;
  }

  lemma OpIgnoresTail(b: seq<Byte>, t: seq<Byte>, v2: bool, prev: Option<seq<Byte>>)
    requires ParsedOp(b, v2, prev).Ok?
    ensures var (op, rest) := ParsedOp(b, v2, prev).value;
            ParsedOp(b + t, v2, prev) == Ok((op, rest + t))
  {
    hide FromU64Le, Blob;
    var b1 := b[1..];
    assert (b + t)[1..] == b1 + t && (b1 + t)[..8] == b1[..8] && (b1 + t)[8..] == b1[8..] + t;
    BlobIgnoresTail(b1[8..], t);
    var b2 := Blob(b1[8..]).value.1;
    if Blob(b2).Ok? { BlobIgnoresTail(b2, t); }
  }

  /** Bytes after a parsed stretch stay unread. */
  lemma {:induction false} OpsIgnoreTail(b: seq<Byte>, t: seq<Byte>, v2: bool, ops: seq<PlainOp>, count: nat)
    requires ParsedOps(b, v2, ops, count).Ok?
    ensures var (all, rest) := ParsedOps(b, v2, ops, count).value;
            ParsedOps(b + t, v2, ops, count) == Ok((all, rest + t))
    decreases count
  {
    hide ParsedOp;
    if count > 0 {
      OpIgnoresTail(b, t, v2, Last(ops));
      var (op, rest) := ParsedOp(b, v2, Last(ops)).value;
      OpsIgnoreTail(rest, t, v2, ops + [op], count - 1);
    }
  }

  /** Records are prefix-free: nothing that decodes still decodes with bytes appended. */
  lemma ExtensionRefused(b: seq<Byte>, t: seq<Byte>)
    requires Decoded(b).Ok? && t != []
    ensures Decoded(b + t).Err?
  {
    hide ParsedOps, FromU32Le;
    var c, v2 := b + t, b[0] == WRITE_RECORD_VERSION_V2;
    var b1 := b[1..];
    assert c[1..] == b1 + t && (b1 + t)[..4] == b1[..4] && (b1 + t)[4..] == b1[4..] + t;
    OpsIgnoreTail(b1[4..], t, v2, [], FromU32Le(b1[..4]));
  }

  /** Every proper prefix and every proper extension of an encoding is refused. */
  lemma OnlyWholeEncodingDecodes(ops: seq<WriteOp>, b: seq<Byte>)
    requires Fits(ops) && Coherent(ops) && (b < Encoding(ops) || Encoding(ops) < b)
    ensures Decoded(b).Err?
  {
    hide Decoded, Encoding;
    var e := Encoding(ops);
    DecodesEncoding(ops);
    if e < b {
      ExtensionRefused(e, b[|e|..]);
      assert b == e + b[|e|..];
    } else if Decoded(b).Ok? {
      assert e == b + e[|b|..];
      ExtensionRefused(b, e[|b|..]);
    }
  }
}
