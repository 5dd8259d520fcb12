/** The write-record codec as it runs: indexed writes into one buffer, a moving cursor, values re-pointed in place. */
module RecordCodec {
  import opened Wrappers
  import opened Bytes
  import opened RecordFormat

  // ---- Encoding -------------------------------------------------------

  /** `buf[at..at + |bytes|].copy_from_slice(bytes)`, where `done` has been written behind `prefix` so far. */
  method CopyInto(buf: array<Byte>, at: nat, bytes: seq<Byte>, ghost prefix: seq<Byte>, ghost done: seq<Byte>)
    returns (next: nat)
    requires at + |bytes| <= buf.Length && buf[..at] == prefix + done
    modifies buf
    ensures next == at + |bytes| && buf[..next] == prefix + (done + bytes)
  {
    for i := 0 to |bytes|
      invariant buf[..at] == prefix + done
      invariant buf[at..at + i] == bytes[..i]
    {
      buf[at + i] := bytes[i];
    }
    next := at + |bytes|;
    assert buf[..next] == buf[..at] + buf[at..next];
  }

  lemma {:induction false} BodyLenGrows(ops: seq<WriteOp>, n: nat)
    requires n <= |ops|
    ensures BodyLen(ops, n) <= BodyLen(ops, |ops|)
    decreases |ops| - n
  {
    if n < |ops| { BodyLenGrows(ops, n + 1); }
  }

  method RecordIsV2(ops: seq<WriteOp>) returns (v2: bool)
    ensures v2 == RecordUsesV2(ops)
  {
    for i := 0 to |ops|
      invariant forall j :: 0 <= j < i ==> !Reuses(ops, j)
    {
      if i > 0 && ValuePtrEq(ops[i - 1], ops[i]) {
        assert Reuses(ops, i);
        return true;
      }
    }
    return false;
  }

  /** One op written at `at`, field by field. */
  method EncodeOp(buf: array<Byte>, at: nat, ops: seq<WriteOp>, idx: nat, v2: bool) returns (next: nat)
    requires idx < |ops| && v2 == RecordUsesV2(ops) && at + OpLen(ops, idx) <= buf.Length
    modifies buf
    ensures next == at + OpLen(ops, idx) && buf[..next] == old(buf[..at]) + EncodedOp(ops, idx)
  {
    var op := ops[idx];
    var reuse := v2 && idx > 0 && ValuePtrEq(ops[idx - 1], op);
    assert reuse == Reuses(ops, idx);
    hide U64Le, U32Le, RecordUsesV2, Reuses, AsU8, CapU32;
    ghost var prefix := buf[..at];
    var kind := [AsU8(op.kind) as int + if reuse then KIND_REUSE_PREV as int else 0];
    var sequence, keyLen := U64Le(op.sequence), U32Le(CapU32(|op.key|));
    next := CopyInto(buf, at, kind, prefix, []);
    assert [] + kind == kind;
    next := CopyInto(buf, next, sequence, prefix, kind);
    next := CopyInto(buf, next, keyLen, prefix, kind + sequence);
    next := CopyInto(buf, next, op.key, prefix, kind + sequence + keyLen);
    if !reuse {
      var valueLen := U32Le(CapU32(|op.value.data|));
      next := CopyInto(buf, next, valueLen, prefix, HeadBytes(ops, idx));
      next := CopyInto(buf, next, op.value.data, prefix, HeadBytes(ops, idx) + valueLen);
    }
  }

  /** All ops, one after the other, from `at` on. */
  method EncodeBody(buf: array<Byte>, at: nat, ops: seq<WriteOp>, v2: bool) returns (next: nat)
    requires v2 == RecordUsesV2(ops) && at + BodyLen(ops, |ops|) <= buf.Length
    modifies buf
    ensures next == at + BodyLen(ops, |ops|) && buf[..next] == old(buf[..at]) + Body(ops, |ops|)
  {
    hide EncodedOp, OpLen, RecordUsesV2;
    ghost var prefix := buf[..at];
    next := at;
    for idx := 0 to |ops|
      invariant next == at + BodyLen(ops, idx) <= buf.Length
      invariant buf[..next] == prefix + Body(ops, idx)
    {
      BodyLenGrows(ops, idx + 1);
      next := EncodeOp(buf, next, ops, idx, v2);
    }
  }

  /** Appends the record to `out`: the prefix stays, and exactly `EncodedLen` bytes follow. */
  method EncodeOps(ops: seq<WriteOp>, out: seq<Byte>) returns (r: seq<Byte>)
    ensures r == out + Encoding(ops)
    ensures |r| == |out| + EncodedLen(ops)
  {
    hide U32Le, Body, BodyLen, RecordUsesV2, CapU32;
    var v2 := RecordIsV2(ops);
    var buf := new Byte[|out| + EncodedLen(ops)];
    var i := CopyInto(buf, 0, out, [], []);
    var version, count := [if v2 then WRITE_RECORD_VERSION_V2 else WRITE_RECORD_VERSION], U32Le(CapU32(|ops|));
    assert [] + ([] + out) == out + [] && [] + version == version;
    i := CopyInto(buf, i, version, out, []);
    i := CopyInto(buf, i, count, out, version);
    i := EncodeBody(buf, i, ops, v2);
    r := buf[..];
    assert buf[..i] == buf[..];
    Reassociate(out, version + count, Body(ops, |ops|));
  }

  lemma Reassociate(a: seq<Byte>, b: seq<Byte>, c: seq<Byte>)
    ensures a + b + c == a + (b + c)
  {}

  // ---- Decoding -------------------------------------------------------

  class Cursor {
    const data: seq<Byte>
    var pos: nat

    predicate Valid()
      reads this
    {
      pos <= |data|
    }

    /** What is still to be read. */
    function Rest(): seq<Byte>
      requires Valid()
      reads this
    {
      data[pos..]
    }

    constructor (data: seq<Byte>)
      ensures Valid() && this.data == data && pos == 0 && Rest() == data
    {
      this.data := data;
      pos := 0;
    }

    /** The next `n` bytes, or a truncation that reads nothing. */
    method ReadSlice(n: nat) returns (r: Result<seq<Byte>, RecordError>)
      requires Valid()
      modifies this
      ensures Valid()
      ensures n > |old(Rest())| ==> r == Err(Truncated) && pos == old(pos)
      ensures n <= |old(Rest())| ==> r == Ok(old(Rest())[..n]) && Rest() == old(Rest())[n..] && pos == old(pos) + n
    {
      if pos + n > |data| {
        return Err(Truncated);
      }
      r := Ok(data[pos..pos + n]);
      assert data[pos..pos + n] == data[pos..][..n];
      pos := pos + n;
    }
  }

  /** A length-prefixed byte string through the cursor. */
  method ReadBlob(cur: Cursor) returns (r: Result<seq<Byte>, RecordError>)
    requires cur.Valid()
    modifies cur
    ensures cur.Valid()
    ensures match Blob(old(cur.Rest()))
            case Err(e) => r == Err(e)
            case Ok((data, rest)) => r == Ok(data) && cur.Rest() == rest
  {
    hide FromU32Le, Cursor.Rest;
    var len := cur.ReadSlice(4);
    if len.Err? { return Err(len.error); }
    r := cur.ReadSlice(FromU32Le(len.value));
  }

  /** The next op, through the cursor; leaves the cursor right behind it. */
  method DecodeOp(cur: Cursor, v2: bool, ops: seq<PlainOp>) returns (r: Result<PlainOp, RecordError>)
    requires cur.Valid()
    modifies cur
    ensures cur.Valid()
    ensures match ParsedOp(old(cur.Rest()), v2, Last(ops))
            case Err(e) => r == Err(e)
            case Ok((op, rest)) => r == Ok(op) && cur.Rest() == rest
  {
    hide FromU64Le, Blob, Cursor.Rest;
    var kindSlice := cur.ReadSlice(1);
    if kindSlice.Err? { return Err(kindSlice.error); }
    var kindByte := kindSlice.value[0];
    var reuse := v2 && kindByte >= KIND_REUSE_PREV;
    var kind := FromU8(kindByte % 0x80);
    if kind.None? { return Err(UnknownKind(kindByte)); }
    var sequence := cur.ReadSlice(8);
    if sequence.Err? { return Err(sequence.error); }
    var key := ReadBlob(cur);
    if key.Err? { return Err(key.error); }
    if reuse {
      if ops == [] { return Err(ReuseWithoutPrevious); }
      return Ok(PlainOp(kind.value, FromU64Le(sequence.value), key.value, ops[|ops| - 1].value));
    }
    var value := ReadBlob(cur);
    if value.Err? { return Err(value.error); }
    return Ok(PlainOp(kind.value, FromU64Le(sequence.value), key.value, value.value));
  }

  /** `count` ops in a row through the cursor. */
  method DecodeBody(cur: Cursor, v2: bool, count: nat) returns (r: Result<seq<PlainOp>, RecordError>)
    requires cur.Valid()
    modifies cur
    ensures cur.Valid()
    ensures match ParsedOps(old(cur.Rest()), v2, [], count)
            case Err(e) => r == Err(e)
            case Ok((ops, rest)) => r == Ok(ops) && cur.Rest() == rest
  {
    hide ParsedOp, Cursor.Rest;
    ghost var rest := cur.Rest();
    var ops: seq<PlainOp> := [];
    for i := 0 to count
      invariant cur.Valid() && ParsedOps(cur.Rest(), v2, ops, count - i) == ParsedOps(rest, v2, [], count)
    {
      var op := DecodeOp(cur, v2, ops);
      if op.Err? { return Err(op.error); }
      ops := ops + [op.value];
    }
    return Ok(ops);
  }

  /** The decoder computes the format's own decoding, error for error. */
  method Decode(bytes: seq<Byte>) returns (r: Result<seq<PlainOp>, RecordError>)
    ensures r == Decoded(bytes)
  {
    hide ParsedOps, FromU32Le;
    var cur := new Cursor(bytes);
    var version := cur.ReadSlice(1);
    if version.Err? { return Err(version.error); }
    if version.value[0] != WRITE_RECORD_VERSION && version.value[0] != WRITE_RECORD_VERSION_V2 {
      return Err(UnsupportedVersion(version.value[0]));
    }
    var v2 := version.value[0] == WRITE_RECORD_VERSION_V2;
    var countSlice := cur.ReadSlice(4);
    if countSlice.Err? { return Err(countSlice.error); }
    var count := FromU32Le(countSlice.value);
    if count > (|bytes| - cur.pos) / MinOp(v2) {
      return Err(CountExceedsRemaining(count));
    }
    r := DecodeBody(cur, v2, count);
    if r.Ok? && cur.Rest() != [] {
      return Err(TrailingBytes);
    }
  }

  // ---- Sharing equal values -------------------------------------------

  /** `cur` pointed at the value of `prev`, if both are puts with equal non-empty values at different addresses. */
  function Repointed(prev: WriteOp, cur: WriteOp): WriteOp {
    if cur.kind != Value || prev.kind != Value || cur.value.data == [] || prev.value.ptr == cur.value.ptr ||
       prev.value.data != cur.value.data
    then cur else cur.(value := prev.value)
  }

  /** The pass over a whole record: each op is compared with its already treated predecessor. */
  function Interned(ops: seq<WriteOp>): (r: seq<WriteOp>)
    ensures |r| == |ops|
  {
    if |ops| <= 1 then ops
    else
      var init := Interned(ops[..|ops| - 1]);
      init + [Repointed(init[|init| - 1], ops[|ops| - 1])]
  }

  lemma InternedStep(ops: seq<WriteOp>, i: nat)
    requires 0 < i < |ops|
    ensures Interned(ops[..i + 1]) == Interned(ops[..i]) + [Repointed(Interned(ops[..i])[i - 1], ops[i])]
  {
    assert ops[..i + 1][..i] == ops[..i];
  }

  method ShareConsecutiveEqualValues(ops: array<WriteOp>)
    modifies ops
    ensures ops[..] == Interned(old(ops[..]))
  {
    if ops.Length == 0 {
      return;
    }
    ghost var was := ops[..];
    assert Interned(was[..1]) == was[..1];
    hide Interned;
    for i := 1 to ops.Length
      invariant forall k :: 0 <= k < i ==> ops[k] == Interned(was[..i])[k]
      invariant forall k :: i <= k < ops.Length ==> ops[k] == was[k]
    {
      var prev, cur := ops[i - 1], ops[i];
      InternedStep(was, i);
      if cur.kind == Value && prev.kind == Value && cur.value.data != [] && prev.value.ptr != cur.value.ptr &&
         prev.value.data == cur.value.data {
        ops[i] := cur.(value := prev.value);
      }
    }
    assert was[..ops.Length] == was;
  }

  /** Every op keeps its kind, sequence, key and value bytes. */
  lemma {:induction false} InterningKeepsOp(ops: seq<WriteOp>, i: nat)
    requires i < |ops|
    ensures Plain(Interned(ops)[i]) == Plain(ops[i])
  {
    var n := |ops| - 1;
    if i < n {
      InterningKeepsOp(ops[..n], i);
      assert Interned(ops)[i] == Interned(ops[..n])[i];
    }
  }

  /** Every buffer afterwards was a buffer before. */
  lemma {:induction false} InterningOrigin(ops: seq<WriteOp>, i: nat) returns (j: nat)
    requires i < |ops|
    ensures j < |ops| && Interned(ops)[i].value == ops[j].value
  {
    var n := |ops| - 1;
    if i < n {
      j := InterningOrigin(ops[..n], i);
      assert Interned(ops)[i] == Interned(ops[..n])[i];
    } else if n > 0 && Interned(ops)[n] != ops[n] {
      j := InterningOrigin(ops[..n], n - 1);
    } else {
      j := n;
    }
  }

  /** Exactly the puts whose non-empty value equals that of a put right before them are re-pointed, each to that one's buffer. */
  lemma {:induction false} InterningExactly(ops: seq<WriteOp>, i: nat)
    requires i < |ops|
    ensures Interned(ops)[i] ==
            if i > 0 && ops[i - 1].kind == Value && ops[i].kind == Value && ops[i].value.data != [] &&
               ops[i - 1].value.data == ops[i].value.data
            then ops[i].(value := Interned(ops)[i - 1].value) else ops[i]
  {
    var n := |ops| - 1;
    if i < n {
      InterningExactly(ops[..n], i);
      assert Interned(ops)[i] == Interned(ops[..n])[i];
      assert i > 0 ==> Interned(ops)[i - 1] == Interned(ops[..n])[i - 1];
    } else if n > 0 {
      InterningKeepsOp(ops[..n], n - 1);
    }
  }

  lemma InterningKeepsContent(ops: seq<WriteOp>)
    requires Coherent(ops)
    ensures PlainAll(Interned(ops)) == PlainAll(ops)
    ensures Coherent(Interned(ops))
  {
    hide Interned;
    var r := Interned(ops);
    forall i | 0 <= i < |ops| ensures Plain(r[i]) == Plain(ops[i]) { InterningKeepsOp(ops, i); }
    forall i, j | 0 <= i < |r| && 0 <= j < |r| && SameBuffer(r[i].value, r[j].value)
      ensures r[i].value == r[j].value
    {
      var a := InterningOrigin(ops, i);
      var b := InterningOrigin(ops, j);
      assert SameBuffer(ops[a].value, ops[b].value);
    }
  }

  /** Afterwards every two neighbouring puts with equal non-empty values share one buffer. */
  lemma {:induction false} InterningShares(ops: seq<WriteOp>, i: nat)
    requires 0 < i < |ops| && ops[i - 1].kind == Value && ops[i].kind == Value
    requires ops[i].value.data != [] && ops[i - 1].value.data == ops[i].value.data
    ensures Reuses(Interned(ops), i)
  {
    var n := |ops| - 1;
    var init, all := Interned(ops[..n]), Interned(ops);
    if i < n {
      InterningShares(ops[..n], i);
      assert all[i] == init[i] && all[i - 1] == init[i - 1];
    } else {
      InterningKeepsOp(ops[..n], n - 1);
      assert all[n - 1] == init[n - 1] && all[n] == Repointed(init[n - 1], ops[n]);
    }
  }

  /** Re-pointing op `i` saves its value; at worst the op behind it stops sharing and spells out one as long. */
  lemma {:induction false} RepointingCosts(ops: seq<WriteOp>, i: nat, n: nat)
    requires 0 < i < |ops| && n <= |ops|
    ensures var ops' := ops[i := Repointed(ops[i - 1], ops[i])];
            var saved := 4 + |ops[i].value.data|;
            ops' != ops ==>
              BodyLen(ops', n) + (if n > i then saved else 0) <= BodyLen(ops, n) + (if n > i + 1 then saved else 0)
  {
    if n > 0 { RepointingCosts(ops, i, n - 1); }
  }

  lemma StageShrinks(ops: seq<WriteOp>, i: nat)
    requires 0 < i < |ops|
    ensures EncodedLen(ops[i := Repointed(ops[i - 1], ops[i])]) <= EncodedLen(ops)
  {
    RepointingCosts(ops, i, |ops|);
  }

  lemma {:induction false} StagesShrink(ops: seq<WriteOp>, n: nat)
    requires n <= |ops|
    ensures EncodedLen(Interned(ops[..n]) + ops[n..]) <= EncodedLen(ops)
  {
    hide EncodedLen, Repointed;
    if n <= 1 {
      assert Interned(ops[..n]) + ops[n..] == ops;
    } else {
      StagesShrink(ops, n - 1);
      var stage := Interned(ops[..n - 1]) + ops[n - 1..];
      assert ops[..n][..n - 1] == ops[..n - 1];
      var last := Repointed(stage[n - 2], stage[n - 1]);
      assert stage[n - 2] == Interned(ops[..n - 1])[n - 2] && stage[n - 1] == ops[..n][n - 1];
      assert Interned(ops[..n]) == Interned(ops[..n - 1]) + [last];
      assert Interned(ops[..n]) + ops[n..] == stage[n - 1 := last];
      StageShrinks(stage, n - 1);
    }
  }

  /** The pass never makes the record longer. */
  lemma InterningShrinks(ops: seq<WriteOp>)
    ensures EncodedLen(Interned(ops)) <= EncodedLen(ops)
  {
    StagesShrink(ops, |ops|);
    assert ops[..|ops|] == ops && Interned(ops) + ops[|ops|..] == Interned(ops);
  }

  /** Interning is invisible to the reader: the shorter record decodes to the very same ops. */
  lemma InternedRecordDecodes(ops: seq<WriteOp>)
    requires Coherent(ops) && Fits(ops)
    ensures Decoded(Encoding(Interned(ops))) == Ok(PlainAll(ops))
    ensures |Encoding(Interned(ops))| <= |Encoding(ops)|
  {
    hide Decoded, Encoding, EncodedLen, Interned;
    var r := Interned(ops);
    InterningKeepsContent(ops);
    InterningShrinks(ops);
    forall i | 0 <= i < |ops| ensures Plain(r[i]) == Plain(ops[i]) { InterningKeepsOp(ops, i); }
    DecodesEncoding(r);
  }
}
