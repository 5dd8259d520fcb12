/** The filter object: bits, live parts, stored bytes and the read cache updated in place. */
module BloomKernel {
  import opened Wrappers
  import opened Bytes
  import opened BloomBits
  import opened BloomParts

  class BloomFilter {
    const hashPair: seq<Byte> -> Hash
    const nparts: U32
    var mono: Mono
    var encodedParts: seq<seq<Byte>>
    var loaded: seq<Option<Mono>>
    var partsOnce: seq<Option<Mono>>

    ghost function Value(): Filter
      reads this
    {
      Filter(mono, nparts, encodedParts, loaded, partsOnce)
    }

    constructor (hashPair: seq<Byte> -> Hash, v: Filter)
      ensures Value() == v && this.hashPair == hashPair
    {
      this.hashPair := hashPair;
      nparts := v.nparts;
      mono, encodedParts, loaded, partsOnce := v.mono, v.encodedParts, v.loaded, v.partsOnce;
    }

    method InsertKey(key: seq<Byte>)
      requires Valid(Value())
      modifies this`mono, this`loaded
      ensures Valid(Value()) && Value() == Insert(old(Value()), hashPair(key))
    {
      var h := hashPair(key);
      if nparts > 1 {
        var i := PartitionIndex(h, nparts);
        if i < |loaded| && loaded[i].Some? {
          var part := InsertPrehashed(loaded[i].value, h);
          loaded := loaded[i := Some(part)];
        }
        return;
      }
      mono := InsertPrehashed(mono, h);
    }

    /** Answers from the key's own part, loading and caching it on the first miss. */
    method MayContainKey(key: seq<Byte>) returns (maybe: bool)
      requires Valid(Value())
      modifies this`loaded, this`partsOnce
      ensures maybe <==> old(Answer(Value(), hashPair(key)))
      ensures Valid(Value()) && Value() == AfterQuery(old(Value()), hashPair(key))
      ensures forall parts :: old(Represents(Value(), parts)) ==>
                maybe == MayContain(parts[hashPair(key).h1 % |parts|], hashPair(key))
    {
      hide MayContain, DecodeMono;
      var h := hashPair(key);
      ghost var was := Value();
      forall parts | Represents(was, parts) ensures Answer(was, h) == MayContain(parts[h.h1 % |parts|], h) {
        AnswersAsItsPart(was, parts, h);
      }
      hide Represents;
      if nparts <= 1 {
        maybe := QueryPrehashed(mono, h);
        return;
      }
      var i := PartitionIndex(h, nparts);
      if i < |partsOnce| {
        if partsOnce[i].None? {
          var part := Loaded(if i < |encodedParts| then encodedParts[i] else []);
          partsOnce := partsOnce[i := Some(part)];
        } else {
          assert partsOnce == partsOnce[i := partsOnce[i]];
        }
        maybe := QueryPrehashed(partsOnce[i].value, h);
        return;
      }
      if i >= |loaded| {
        loaded := loaded + Repeat(nparts - |loaded|, None);
      }
      if loaded[i].None? {
        if i >= |encodedParts| {
          return true;
        }
        var part := Loaded(encodedParts[i]);
        loaded := loaded[i := Some(part)];
      }
      maybe := QueryPrehashed(loaded[i].value, h);
    }

    /** Drops the live parts, keeping their encodings. */
    method FreezePartitions()
      modifies this
      ensures Value() == Frozen(old(Value()))
    {
      if nparts <= 1 {
        return;
      }
      if |encodedParts| != nparts {
        var encoded: seq<seq<Byte>> := [];
        for i := 0 to |loaded|
          invariant loaded == old(loaded) && encoded == EncodedAll(loaded[..i])
        {
          encoded := encoded + [EncodedOrEmpty(loaded[i])];
          assert loaded[..i + 1] == loaded[..i] + [loaded[i]];
        }
        assert loaded[..|loaded|] == loaded;
        encodedParts := encoded;
      }
      loaded, partsOnce := [], Repeat(nparts, None);
      mono := ALWAYS_TRUE;
    }

    /** The bytes for an SST trailer. */
    method EncodeBytes() returns (out: seq<Byte>)
      ensures out == Encode(Value())
    {
      hide U32Le, EncodeMono;
      if nparts <= 1 {
        return EncodeMono(mono);
      }
      var body := BodyOf(if loaded != [] then EncodedAll(loaded) else encodedParts);
      out := U32Le(FILTER_PART_MAGIC) + U32Le(nparts) + U32Le(CapU32(|body|)) + body;
    }
  }

  /** Lengths and parts written one after the other. */
  method BodyOf(parts: seq<seq<Byte>>) returns (body: seq<Byte>)
    ensures body == PartsBody(parts)
  {
    hide U32Le;
    body := [];
    for i := 0 to |parts|
      invariant body == PartsBody(parts[..i])
    {
      var n := U32Le(|parts[i]| % 0x1_0000_0000);
      assert parts[..i + 1][..i] == parts[..i];
      body := body + (n + parts[i]);
    }
    assert parts[..|parts|] == parts;
  }

  /** The stored parts of a body, walked with a position. */
  method PartsOf(body: seq<Byte>, nparts: nat) returns (r: Result<seq<seq<Byte>>, BloomError>)
    ensures r == ParsedParts(body, [], nparts)
  {
    hide FromU32Le;
    var parts: seq<seq<Byte>> := [];
    var pos := 0;
    for i := 0 to nparts
      invariant pos <= |body|
      invariant ParsedParts(body[pos..], parts, nparts - i) == ParsedParts(body, [], nparts)
    {
      ghost var rest := body[pos..];
      if pos + 4 > |body| {
        return Err(PartsTruncated);
      }
      assert rest[..4] == body[pos..pos + 4];
      var n := FromU32Le(body[pos..pos + 4]);
      pos := pos + 4;
      assert rest[4..] == body[pos..];
      if pos + n > |body| {
        return Err(PartTruncated);
      }
      assert rest[4..][..n] == body[pos..pos + n] && rest[4..][n..] == body[pos + n..];
      parts := parts + [body[pos..pos + n]];
      pos := pos + n;
    }
    return Ok(parts);
  }

  /** Decodes filter bytes, checking the header before the data. */
  method DecodeBytes(buf: seq<Byte>) returns (r: Result<Filter, BloomError>)
    ensures r == Decode(buf)
  {
    hide FromU32Le, ParsedParts;
    if buf == [] {
      return Ok(OfMono(ALWAYS_TRUE));
    }
    if |buf| < 12 {
      return Err(TooShort);
    }
    var nbits, k, nbytes := FromU32Le(buf[..4]), FromU32Le(buf[4..8]), FromU32Le(buf[8..12]);
    if 12 + nbytes > |buf| {
      return Err(BitsTruncated);
    }
    if nbits == FILTER_PART_MAGIC {
      if k <= 1 || k > 64 {
        return Err(BadPartCount(k));
      }
      var parts := PartsOf(buf[12..12 + nbytes], k);
      if parts.Err? { return Err(parts.error); }
      return Ok(Filter(ALWAYS_TRUE, k, parts.value, Repeat(k, None), Repeat(k, None)));
    }
    if nbits == 0 || k == 0 || nbytes == 0 {
      return Ok(OfMono(ALWAYS_TRUE));
    }
    if !HeaderOk(nbits, k, nbytes, |buf| - 12) {
      return Err(HeaderInvalid);
    }
    assert buf[12..12 + nbytes] == buf[12..][..nbytes];
    return Ok(OfMono(Mono(nbits, k, buf[12..12 + nbytes])));
  }
}
