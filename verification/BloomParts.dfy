/**
 The filter an SST carries: monolithic, or split into parts by the first hash. A partitioned
 filter lives in up to three places (live parts, encoded parts, lazily decoded parts), which
 the `Represents` relation ties to the one list of parts they stand for.
 */
module BloomParts {
  import opened Wrappers
  import opened Bytes
  import opened BloomBits

  datatype Filter = Filter(
    mono: Mono,
    nparts: U32,
    encodedParts: seq<seq<Byte>>,
    loaded: seq<Option<Mono>>,
    partsOnce: seq<Option<Mono>>)

  function OfMono(m: Mono): Filter {
    Filter(m, 1, [], [], [])
  }

  function Repeat<T>(n: nat, x: T): (r: seq<T>)
    ensures |r| == n && forall i :: 0 <= i < n ==> r[i] == x
  {
    seq(n, _ => x)
  }

  function Somes<T>(xs: seq<T>): (r: seq<Option<T>>)
    ensures |r| == |xs| && forall i :: 0 <= i < |xs| ==> r[i] == Some(xs[i])
  {
    seq(|xs|, i requires 0 <= i < |xs| => Some(xs[i]))
  }

  function WithPartitions(nKeys: nat, bitsPerKey: nat, nparts: U32): (f: Filter)
    ensures Valid(f)
  {
    if nparts <= 1 then OfMono(WithCapacity(nKeys, bitsPerKey))
    else Filter(ALWAYS_TRUE, nparts, [], Somes(Repeat(nparts, WithCapacity(nKeys / nparts + 1, bitsPerKey))), [])
  }

  /** Parts filled elsewhere: kept live for encoding and pre-seeded for reading. */
  function FromPartitionBuilders(builders: seq<Mono>): Filter {
    Filter(ALWAYS_TRUE, |builders| % 0x1_0000_0000, [], Somes(builders), Somes(builders))
  }

  function PartitionIndex(h: Hash, nparts: U32): (i: nat)
    ensures nparts > 0 ==> i < nparts
  {
    if nparts <= 1 then 0 else h.h1 % nparts
  }

  /** All the filters held anywhere inside are well formed. */
  ghost predicate Valid(f: Filter) {
    && WellFormed(f.mono)
    && (forall i :: 0 <= i < |f.loaded| && f.loaded[i].Some? ==> WellFormed(f.loaded[i].value))
    && (forall i :: 0 <= i < |f.partsOnce| && f.partsOnce[i].Some? ==> WellFormed(f.partsOnce[i].value))
  }

  ghost function Insert(f: Filter, h: Hash): Filter
    requires Valid(f)
  {
    if f.nparts > 1 then
      var i := PartitionIndex(h, f.nparts);
      if i < |f.loaded| && f.loaded[i].Some? then f.(loaded := f.loaded[i := Some(WithHash(f.loaded[i].value, h))])
      else f
    else f.(mono := WithHash(f.mono, h))
  }

  // ---- Queries and the lazy cache -------------------------------------

  /** A part decoded from its stored bytes; bytes that do not decode filter nothing. */
  function Loaded(raw: seq<Byte>): (m: Mono)
    ensures WellFormed(m)
  {
    match DecodeMono(raw) case Ok(m) => m case Err(_) => ALWAYS_TRUE
  }

  /** The part a query for index `i` consults, wherever it is kept; none means nothing is ruled out. */
  function PartAt(f: Filter, i: nat): Option<Mono> {
    if i < |f.partsOnce| && f.partsOnce[i].Some? then f.partsOnce[i]
    else if i < |f.partsOnce| then Some(Loaded(if i < |f.encodedParts| then f.encodedParts[i] else []))
    else if i < |f.loaded| && f.loaded[i].Some? then f.loaded[i]
    else if i < |f.encodedParts| then Some(Loaded(f.encodedParts[i]))
    else None
  }

  ghost predicate Answer(f: Filter, h: Hash)
    requires Valid(f)
  {
    if f.nparts > 1 then
      var part := PartAt(f, PartitionIndex(h, f.nparts));
      part.Some? ==> MayContain(part.value, h)
    else MayContain(f.mono, h)
  }

  /** The filter after a query: the part consulted is now cached. */
  ghost function AfterQuery(f: Filter, h: Hash): Filter {
    if f.nparts <= 1 then f
    else
      var i := PartitionIndex(h, f.nparts);
      if i < |f.partsOnce| then
        f.(partsOnce := f.partsOnce[i := PartAt(f, i)])
      else
        var loaded := if i >= |f.loaded| then f.loaded + Repeat(f.nparts - |f.loaded|, None) else f.loaded;
        if loaded[i].None? && i < |f.encodedParts| then f.(loaded := loaded[i := PartAt(f, i)])
        else f.(loaded := loaded)
  }

  /** A query caches the part it consults where the next one finds it, and touches nothing else that is read. */
  lemma QueryCachesPart(f: Filter, h: Hash)
    requires f.nparts > 1
    ensures var i, g := h.h1 % f.nparts, AfterQuery(f, h);
            && g.(partsOnce := f.partsOnce, loaded := f.loaded) == f
            && (if i < |f.partsOnce| then g.loaded == f.loaded && g.partsOnce == f.partsOnce[i := PartAt(f, i)]
                else g.partsOnce == f.partsOnce && i < |g.loaded| && (PartAt(f, i).Some? ==> g.loaded[i] == PartAt(f, i)))
  {}

  /** A query changes no part anyone would consult, so no answer. */
  lemma QueryTransparent(f: Filter, h: Hash, g: Hash)
    requires Valid(f)
    ensures Valid(AfterQuery(f, h))
    ensures forall i: nat :: i < f.nparts ==> PartAt(AfterQuery(f, h), i) == PartAt(f, i)
    ensures Answer(AfterQuery(f, h), g) == Answer(f, g)
  {}

  // ---- Freezing and encoding ------------------------------------------

  function EncodedOrEmpty(p: Option<Mono>): seq<Byte> {
    if p.Some? then EncodeMono(p.value) else []
  }

  function EncodedAll(ps: seq<Option<Mono>>): (r: seq<seq<Byte>>)
    ensures |r| == |ps| && forall i :: 0 <= i < |ps| ==> r[i] == EncodedOrEmpty(ps[i])
  {
    seq(|ps|, i requires 0 <= i < |ps| => EncodedOrEmpty(ps[i]))
  }

  function Frozen(f: Filter): Filter {
    if f.nparts <= 1 then f
    else
      var encoded := if |f.encodedParts| != f.nparts then EncodedAll(f.loaded) else f.encodedParts;
      Filter(ALWAYS_TRUE, f.nparts, encoded, [], Repeat(f.nparts, None))
  }

  /** The parts a partitioned encoding writes. */
  function Written(f: Filter): seq<seq<Byte>> {
    if f.loaded != [] then EncodedAll(f.loaded) else f.encodedParts
  }

  /** Each part behind its length, a length cut down to 32 bits. */
  function PartsBody(parts: seq<seq<Byte>>): seq<Byte> {
    if parts == [] then []
    else PartsBody(parts[..|parts| - 1]) + (U32Le(|parts[|parts| - 1]| % 0x1_0000_0000) + parts[|parts| - 1])
  }

  function Encode(f: Filter): seq<Byte> {
    if f.nparts > 1 then
      var body := PartsBody(Written(f));
      U32Le(FILTER_PART_MAGIC) + U32Le(f.nparts) + U32Le(CapU32(|body|)) + body
    else EncodeMono(f.mono)
  }

  function ParsedParts(body: seq<Byte>, parts: seq<seq<Byte>>, n: nat): Result<seq<seq<Byte>>, BloomError>
    decreases n
  {
    if n == 0 then Ok(parts)
    else if |body| < 4 then Err(PartsTruncated)
    else
      var len, rest := FromU32Le(body[..4]), body[4..];
      if len > |rest| then Err(PartTruncated) else ParsedParts(rest[len..], parts + [rest[..len]], n - 1)
  }

  function DecodePartitioned(body: seq<Byte>, nparts: U32): Result<Filter, BloomError> {
    if nparts <= 1 || nparts > 64 then Err(BadPartCount(nparts))
    else
      match ParsedParts(body, [], nparts)
      case Err(e) => Err(e)
      case Ok(parts) => Ok(Filter(ALWAYS_TRUE, nparts, parts, Repeat(nparts, None), Repeat(nparts, None)))
  }

  function Decode(buf: seq<Byte>): Result<Filter, BloomError> {
    if buf == [] then Ok(OfMono(ALWAYS_TRUE))
    else if |buf| < 12 then Err(TooShort)
    else
      var nbits, k, nbytes := FromU32Le(buf[..4]), FromU32Le(buf[4..8]), FromU32Le(buf[8..12]);
      if 12 + nbytes > |buf| then Err(BitsTruncated)
      else if nbits == FILTER_PART_MAGIC then DecodePartitioned(buf[12..12 + nbytes], k)
      else
        match MonoFrom(nbits, k, nbytes, buf[12..])
        case Err(e) => Err(e)
        case Ok(m) => Ok(OfMono(m))
  }

  // ---- One list of parts behind every form ----------------------------

  /** Live: the parts themselves, pre-seeded for reading or not. */
  ghost predicate Live(f: Filter, parts: seq<Mono>) {
    f.encodedParts == [] && f.loaded == Somes(parts) && (f.partsOnce == [] || f.partsOnce == Somes(parts))
  }

  /** Stored: bytes that decode to the parts, some of them decoded already. */
  ghost predicate Stored(f: Filter, parts: seq<Mono>) {
    && |f.encodedParts| == |f.partsOnce| == |parts|
    && (forall i :: 0 <= i < |parts| ==> DecodeMono(f.encodedParts[i]) == Ok(parts[i]))
    && (forall i :: 0 <= i < |parts| && f.partsOnce[i].Some? ==> f.partsOnce[i].value == parts[i])
    && (f.loaded == [] || f.loaded == Repeat(|parts|, None))
  }

  ghost predicate Represents(f: Filter, parts: seq<Mono>) {
    && f.nparts == |parts| >= 2 && f.mono == ALWAYS_TRUE
    && (forall i :: 0 <= i < |parts| ==> WellFormed(parts[i]))
    && (Live(f, parts) || Stored(f, parts))
  }

  /** Whatever form it is in, the filter answers for a key as that key's own part does. */
  lemma AnswersAsItsPart(f: Filter, parts: seq<Mono>, h: Hash)
    requires Represents(f, parts)
    ensures Valid(f) && Answer(f, h) == MayContain(parts[h.h1 % |parts|], h)
  {}

  lemma QueryKeepsParts(f: Filter, parts: seq<Mono>, h: Hash)
    requires Represents(f, parts)
    ensures Represents(AfterQuery(f, h), parts)
  {
    var i, g := PartitionIndex(h, f.nparts), AfterQuery(f, h);
    if Live(f, parts) {
      assert f.partsOnce != [] ==> g.partsOnce == f.partsOnce;
      assert g.loaded == f.loaded;
    } else {
      assert g.partsOnce[i] == Some(parts[i]);
    }
  }

  lemma FreezeKeepsParts(f: Filter, parts: seq<Mono>)
    requires Represents(f, parts)
    ensures Represents(Frozen(f), parts) && Frozen(f).loaded == []
  {
    hide DecodeMono, EncodeMono;
    forall i | 0 <= i < |parts| ensures DecodeMono(EncodeMono(parts[i])) == Ok(parts[i]) { MonoRoundTrip(parts[i]); }
  }

  lemma {:induction false} PartsParse(parts: seq<seq<Byte>>, before: seq<seq<Byte>>, i: nat)
    requires i <= |parts| && Short(parts)
    ensures ParsedParts(PartsFrom(parts, i), before, |parts| - i) == Ok(before + parts[i..])
    decreases |parts| - i
  {
    hide U32Le, FromU32Le;
    if i < |parts| {
      var p, more := parts[i], PartsFrom(parts, i + 1);
      U32LeRoundTrip(|p|);
      PartLayout(U32Le(|p|), p, more);
      PartsParse(parts, before + [p], i + 1);
      assert before + [p] + parts[i + 1..] == before + parts[i..];
    } else {
      assert before + parts[i..] == before;
    }
  }

  /** A body cut short anywhere is refused. */
  lemma {:induction false} CutParse(parts: seq<seq<Byte>>, b: seq<Byte>, before: seq<seq<Byte>>, i: nat)
    requires i <= |parts| && Short(parts) && b < PartsFrom(parts, i)
    ensures ParsedParts(b, before, |parts| - i).Err?
    decreases |parts| - i
  {
    hide U32Le, FromU32Le;
    var p, more := parts[i], PartsFrom(parts, i + 1);
    if |b| >= 4 {
      U32LeRoundTrip(|p|);
      PartLayout(U32Le(|p|), p, more);
      assert b[..4] == U32Le(|p|);
      if |p| <= |b[4..]| {
        var all := PartsFrom(parts, i);
        assert b == all[..|b|];
        assert b[4..][|p|..] == more[..|b| - 4 - |p|];
        CutParse(parts, b[4..][|p|..], before + [b[4..][..|p|]], i + 1);
      }
    }
  }

  lemma PartLayout(len: seq<Byte>, p: seq<Byte>, more: seq<Byte>)
    requires |len| == 4
    ensures var body := len + p + more;
            body[..4] == len && body[4..][..|p|] == p && body[4..][|p|..] == more
  {}

  /** The same body read from part `i` on. */
  function PartsFrom(parts: seq<seq<Byte>>, i: nat): seq<Byte>
    requires i <= |parts|
    decreases |parts| - i
  {
    if i == |parts| then [] else U32Le(|parts[i]| % 0x1_0000_0000) + parts[i] + PartsFrom(parts, i + 1)
  }

  lemma {:induction false} BodyFromFront(parts: seq<seq<Byte>>, n: nat)
    requires n <= |parts|
    ensures PartsBody(parts[..n]) + PartsFrom(parts, n) == PartsFrom(parts, 0)
  {
    hide U32Le;
    if n > 0 {
      BodyFromFront(parts, n - 1);
      assert parts[..n][..n - 1] == parts[..n - 1];
      var e := U32Le(|parts[n - 1]| % 0x1_0000_0000) + parts[n - 1];
      assert PartsBody(parts[..n]) == PartsBody(parts[..n - 1]) + e;
      assert PartsFrom(parts, n - 1) == e + PartsFrom(parts, n);
      assert PartsBody(parts[..n - 1]) + e + PartsFrom(parts, n) == PartsBody(parts[..n - 1]) + (e + PartsFrom(parts, n));
    }
  }

  /** The stored parts read back from their body, and from no shorter piece of it. */
  lemma BodyParses(parts: seq<seq<Byte>>)
    requires Short(parts)
    ensures ParsedParts(PartsBody(parts), [], |parts|) == Ok(parts)
    ensures forall n :: 0 <= n < |PartsBody(parts)| ==> ParsedParts(PartsBody(parts)[..n], [], |parts|).Err?
  {
    hide ParsedParts, Short;
    BodyFromFront(parts, |parts|);
    PartsParse(parts, [], 0);
    assert parts[..|parts|] == parts && parts[0..] == parts && [] + parts == parts;
    assert PartsBody(parts) + [] == PartsBody(parts);
    forall n | 0 <= n < |PartsBody(parts)| ensures ParsedParts(PartsBody(parts)[..n], [], |parts|).Err? {
      CutParse(parts, PartsBody(parts)[..n], [], 0);
    }
  }

  /** Every part fits the 32-bit length field in front of it. */
  predicate Short(parts: seq<seq<Byte>>) {
    forall i :: 0 <= i < |parts| ==> |parts[i]| <= U32_MAX
  }

  /** A body of parts fits the 32-bit length field. */
  predicate Fits(parts: seq<seq<Byte>>) {
    |PartsBody(parts)| <= U32_MAX
  }

  lemma {:induction false} EmptyPartsBody(parts: seq<seq<Byte>>)
    requires forall i :: 0 <= i < |parts| ==> parts[i] == []
    ensures |PartsBody(parts)| == 4 * |parts|
  {
    if parts != [] { EmptyPartsBody(parts[..|parts| - 1]); }
  }

  lemma PartitionedFields(f: Filter)
    requires f.nparts > 1
    ensures var b, body := Encode(f), PartsBody(Written(f));
            && |b| == 12 + |body| && b[12..] == body
            && FromU32Le(b[..4]) == FILTER_PART_MAGIC && FromU32Le(b[4..8]) == f.nparts
            && FromU32Le(b[8..12]) == CapU32(|body|)
  {
    hide U32Le, FromU32Le, PartsBody, Written;
    var b, body := Encode(f), PartsBody(Written(f));
    U32LeRoundTrip(FILTER_PART_MAGIC);
    U32LeRoundTrip(f.nparts);
    U32LeRoundTrip(CapU32(|body|));
    assert b[..4] == U32Le(FILTER_PART_MAGIC) && b[4..8] == U32Le(f.nparts) && b[8..12] == U32Le(CapU32(|body|));
  }

  /** Reading back what was written: the written parts, exactly up to 64 of them in a body that fits; else refused. */
  lemma PartitionedRoundTrip(f: Filter)
    requires f.nparts == |Written(f)| > 1 && Short(Written(f))
    ensures f.nparts > 64 ==> Decode(Encode(f)) == Err(BadPartCount(f.nparts))
    ensures f.nparts <= 64 && Fits(Written(f)) ==>
              Decode(Encode(f)) ==
              Ok(Filter(ALWAYS_TRUE, f.nparts, Written(f), Repeat(f.nparts, None), Repeat(f.nparts, None)))
    ensures f.nparts <= 64 && !Fits(Written(f)) ==> Decode(Encode(f)).Err?
  {
    hide FromU32Le, Encode, Decode, PartsBody, Written, ParsedParts, Short;
    PartitionedFields(f);
    BodyParses(Written(f));
    var b, body := Encode(f), PartsBody(Written(f));
    var n := CapU32(|body|);
    assert b[12..12 + n] == body[..n];
    DecodesMarked(b);
    assert n == |body| ==> body[..n] == body;
  }

  lemma DecodesMarked(b: seq<Byte>)
    requires |b| >= 12 && FromU32Le(b[..4]) == FILTER_PART_MAGIC && 12 + FromU32Le(b[8..12]) <= |b|
    ensures Decode(b) == DecodePartitioned(b[12..12 + FromU32Le(b[8..12])], FromU32Le(b[4..8]))
  {
    hide FromU32Le, DecodePartitioned;
  }

  /** A live or frozen filter decodes to a filter standing for the same parts. */
  lemma DecodedKeepsParts(f: Filter, parts: seq<Mono>)
    requires Represents(f, parts) && Short(Written(f)) && Fits(Written(f)) && f.nparts <= 64 && !Lazy(f)
    ensures Decode(Encode(f)).Ok? && Represents(Decode(Encode(f)).value, parts)
  {
    hide Decode, Encode, DecodeMono, EncodeMono, PartsBody;
    forall i | 0 <= i < |parts| ensures DecodeMono(EncodeMono(parts[i])) == Ok(parts[i]) { MonoRoundTrip(parts[i]); }
    PartitionedRoundTrip(f);
  }

  /** A filter that was decoded and is encoded again has written its parts out empty, and then rules nothing out. */
  lemma ReencodedIsAlwaysTrue(f: Filter, parts: seq<Mono>)
    requires Represents(f, parts) && Lazy(f)
    ensures f.nparts > 64 ==> Decode(Encode(f)).Err?
    ensures f.nparts <= 64 ==>
              && Decode(Encode(f)).Ok? && Represents(Decode(Encode(f)).value, Repeat(|parts|, ALWAYS_TRUE))
              && Decode(Encode(f)).value.encodedParts == Repeat(|parts|, [])
  {
    hide Decode, Encode, PartsBody;
    assert Written(f) == Repeat(|parts|, []);
    EmptyPartsBody(Written(f));
    PartitionedRoundTrip(f);
  }

  /** A monolithic filter reads back as itself exactly when its width is not the partition marker. */
  lemma MonoFilterRoundTrip(m: Mono)
    requires WellFormed(m)
    ensures Decode(Encode(OfMono(m))) == Ok(OfMono(m)) <==> m.nbits != FILTER_PART_MAGIC
  {
    hide FromU32Le, EncodeMono, ParsedParts;
    EncodedFields(m);
    assert m.bits[..|m.bits|] == m.bits;
  }

  // ---- Whole lives of a filter ----------------------------------------

  datatype Event = Query(h: Hash) | Freeze | Reload

  ghost function Step(f: Filter, e: Event): Filter {
    match e
    case Query(h) => AfterQuery(f, h)
    case Freeze => Frozen(f)
    case Reload => if Decode(Encode(f)).Ok? then Decode(Encode(f)).value else f
  }

  ghost function After(f: Filter, es: seq<Event>): Filter {
    if es == [] then f else Step(After(f, es[..|es| - 1]), es[|es| - 1])
  }

  /**
   The lazy cache is transparent: live, frozen or decoded, after any history of queries and freezes the
   filter still stands for the same parts and answers every hash as that hash's own part does.
   */
  lemma {:induction false} CacheTransparent(f: Filter, parts: seq<Mono>, es: seq<Event>, h: Hash)
    requires Represents(f, parts) && forall i :: 0 <= i < |es| ==> !es[i].Reload?
    ensures Represents(After(f, es), parts) && After(f, es).nparts == f.nparts
    ensures Valid(After(f, es)) && Answer(After(f, es), h) == MayContain(parts[h.h1 % |parts|], h)
  {
    hide DecodeMono, EncodeMono, MayContain;
    if es != [] {
      var g, e := After(f, es[..|es| - 1]), es[|es| - 1];
      CacheTransparent(f, parts, es[..|es| - 1], h);
      match e
      case Query(q) => QueryKeepsParts(g, parts, q);
      case Freeze => FreezeKeepsParts(g, parts);
    }
    hide Answer, Valid, Represents;
    AnswersAsItsPart(After(f, es), parts, h);
  }

  // ---- Lives with reloads ---------------------------------------------

  /** Decoded and not frozen since: the live slots are there and empty. */
  predicate Lazy(f: Filter) {
    f.loaded != [] && f.loaded[0].None?
  }

  /** The bytes a filter holds or would freeze for its parts. */
  function Stock(f: Filter): seq<seq<Byte>> {
    if Lazy(f) then f.encodedParts else Written(f)
  }

  /** An encoding of the stock is accepted by the decoder. */
  predicate Decodes(f: Filter) {
    f.nparts <= 64 && Fits(Stock(f))
  }

  /** Whether the filter is lazy after `es`, told from the events alone. */
  predicate LazyAfter(f: Filter, es: seq<Event>) {
    if es == [] then Lazy(f)
    else
      match es[|es| - 1]
      case Query(_) => LazyAfter(f, es[..|es| - 1])
      case Freeze => false
      case Reload => LazyAfter(f, es[..|es| - 1]) || Decodes(f)
  }

  /** Some reload comes while the filter is lazy: it was decoded, or reloaded, and not frozen in between. */
  predicate Forgets(f: Filter, es: seq<Event>) {
    es != [] &&
    (Forgets(f, es[..|es| - 1]) || (es[|es| - 1].Reload? && f.nparts <= 64 && LazyAfter(f, es[..|es| - 1])))
  }

  /** One event: the parts stay, unless a lazy filter is reloaded. */
  lemma StepKeepsParts(f: Filter, parts: seq<Mono>, e: Event)
    requires Represents(f, parts) && Short(Stock(f))
    ensures var f', lost := Step(f, e), e.Reload? && Lazy(f) && f.nparts <= 64;
            && f'.nparts == f.nparts
            && Represents(f', if lost then Repeat(|parts|, ALWAYS_TRUE) else parts)
            && Stock(f') == (if lost then Repeat(|parts|, []) else Stock(f))
            && (!lost ==> Lazy(f') == LazyAfter(f, [e]))
  {
    hide DecodeMono, Encode, Decode, EncodeMono, PartsBody;
    assert [e][..0] == [];
    match e
    case Query(q) => QueryKeepsParts(f, parts, q);
    case Freeze => FreezeKeepsParts(f, parts);
    case Reload =>
      if Lazy(f) {
        ReencodedIsAlwaysTrue(f, parts);
      } else {
        PartitionedRoundTrip(f);
        if Decodes(f) { DecodedKeepsParts(f, parts); }
      }
  }

  /** The events alone decide what a filter stands for after a whole life. */
  lemma {:induction false} LifeKeepsParts(f: Filter, parts: seq<Mono>, es: seq<Event>)
    requires Represents(f, parts) && Short(Stock(f))
    ensures var g := After(f, es);
            && g.nparts == f.nparts && Short(Stock(g))
            && Represents(g, if Forgets(f, es) then Repeat(|parts|, ALWAYS_TRUE) else parts)
            && (!Forgets(f, es) ==> Lazy(g) == LazyAfter(f, es) && Stock(g) == Stock(f))
  {
    if es != [] {
      var init, e := es[..|es| - 1], es[|es| - 1];
      LifeKeepsParts(f, parts, init);
      var g := After(f, init);
      StepKeepsParts(g, if Forgets(f, init) then Repeat(|parts|, ALWAYS_TRUE) else parts, e);
      assert [e][..0] == [];
      hide Step, Represents, Stock, Lazy;
    }
  }

  /**
   What a filter answers after any life of queries, freezes and encode-decode reloads, exactly: for each
   hash what its own part answered at the start, except that once a lazy filter was reloaded it lets
   everything through. A hash let through at the start is never reported absent.
   */
  lemma LifeAnswers(f: Filter, parts: seq<Mono>, es: seq<Event>, h: Hash)
    requires Represents(f, parts) && Short(Stock(f))
    ensures Valid(After(f, es))
    ensures Answer(After(f, es), h) <==> Forgets(f, es) || MayContain(parts[h.h1 % |parts|], h)
  {
    LifeKeepsParts(f, parts, es);
    hide After, Represents, Stock, Answer, Valid;
    AnswersAsItsPart(After(f, es), if Forgets(f, es) then Repeat(|parts|, ALWAYS_TRUE) else parts, h);
  }

  // ---- Building -------------------------------------------------------

  ghost function InsertAll(f: Filter, hs: seq<Hash>): (r: Filter)
    requires Valid(f)
    ensures Valid(r)
  {
    if hs == [] then f else Insert(InsertAll(f, hs[..|hs| - 1]), hs[|hs| - 1])
  }

  /** Each hash inserted into the part of its first half. */
  function Filled(parts: seq<Mono>, hs: seq<Hash>): (r: seq<Mono>)
    requires 0 < |parts| <= U32_MAX && forall i :: 0 <= i < |parts| ==> WellFormed(parts[i])
    ensures |r| == |parts| && forall i :: 0 <= i < |parts| ==> WellFormed(r[i]) && |r[i].bits| == |parts[i].bits|
  {
    hide WellFormed, WithHash;
    if hs == [] then parts
    else
      var n := |hs| - 1;
      var older, p := Filled(parts, hs[..n]), hs[n].h1 % |parts|;
      older[p := WithHash(older[p], hs[n])]
  }

  /** Every inserted hash is found in its part. */
  lemma {:induction false} FilledFinds(parts: seq<Mono>, hs: seq<Hash>, i: nat)
    requires 0 < |parts| <= U32_MAX && i < |hs| && forall j :: 0 <= j < |parts| ==> WellFormed(parts[j])
    ensures MayContain(Filled(parts, hs)[hs[i].h1 % |parts|], hs[i])
  {
    hide WithHash, MayContain, WellFormed;
    var n := |hs| - 1;
    var older, p := Filled(parts, hs[..n]), hs[n].h1 % |parts|;
    if i < n {
      FilledFinds(parts, hs[..n], i);
      assert hs[..n][i] == hs[i];
    }
    WithHashFinds(older[p], hs[n], hs[i]);
  }

  /** Those of `hs` whose first half belongs to part `p` of `n`. */
  function Routed(hs: seq<Hash>, p: nat, n: nat): seq<Hash>
    requires n > 0
  {
    if hs == [] then []
    else Routed(hs[..|hs| - 1], p, n) + if hs[|hs| - 1].h1 % n == p then [hs[|hs| - 1]] else []
  }

  lemma {:induction false} FilledPart(parts: seq<Mono>, hs: seq<Hash>, p: nat)
    requires 0 < |parts| <= U32_MAX && p < |parts| && forall j :: 0 <= j < |parts| ==> WellFormed(parts[j])
    ensures Filled(parts, hs)[p] == WithAll(parts[p], Routed(hs, p, |parts|))
  {
    hide WithHash, WellFormed;
    if hs != [] {
      var n := |hs| - 1;
      FilledPart(parts, hs[..n], p);
      var older, q := Filled(parts, hs[..n]), hs[n].h1 % |parts|;
      assert Filled(parts, hs) == older[q := WithHash(older[q], hs[n])];
      var mine := Routed(hs[..n], p, |parts|);
      assert Routed(hs, p, |parts|) == if q == p then mine + [hs[n]] else mine;
      hide Filled, Routed, WithAll;
      WithAllNext(parts[p], mine, hs[n]);
    }
  }

  /** Building by insertion keeps the filter live, over the filled parts. */
  lemma {:induction false} BuiltParts(f: Filter, parts: seq<Mono>, hs: seq<Hash>)
    requires Represents(f, parts) && Live(f, parts) && f.partsOnce == []
    ensures Valid(f) && InsertAll(f, hs) == f.(loaded := Somes(Filled(parts, hs)))
    ensures Represents(InsertAll(f, hs), Filled(parts, hs)) && Live(InsertAll(f, hs), Filled(parts, hs))
  {
    hide WithHash;
    if hs != [] {
      BuiltParts(f, parts, hs[..|hs| - 1]);
      assert InsertAll(f, hs).loaded == Somes(Filled(parts, hs));
    }
  }

  lemma {:induction false} BuiltMono(m: Mono, hs: seq<Hash>, i: nat)
    requires WellFormed(m) && i < |hs|
    ensures InsertAll(OfMono(m), hs).nparts == 1 && Answer(InsertAll(OfMono(m), hs), hs[i])
    ensures InsertAll(OfMono(m), hs) == OfMono(InsertAll(OfMono(m), hs).mono)
    ensures InsertAll(OfMono(m), hs).mono.nbits == m.nbits
  {
    hide MayContain;
    var n := |hs| - 1;
    if n > 0 { BuiltMono(m, hs[..n], if i < n then i else 0); }
    else { assert hs[..n] == []; }
    var before := InsertAll(OfMono(m), hs[..n]);
    WithHashFinds(before.mono, hs[n], hs[i]);
    assert i < n ==> hs[..n][i] == hs[i];
  }

  /**
   A hash inserted while building a partitioned filter is never reported absent, whatever queries,
   freezes and reloads the filter goes through afterwards.
   */
  lemma PartitionedNeverAbsent(nKeys: nat, bitsPerKey: nat, nparts: U32, hs: seq<Hash>, es: seq<Event>, h: Hash)
    requires h in hs && nparts >= 2
    ensures var f := After(InsertAll(WithPartitions(nKeys, bitsPerKey, nparts), hs), es); Valid(f) && Answer(f, h)
  {
    hide *;
    var parts := FreshParts(nKeys, bitsPerKey, nparts);
    var f0 := WithPartitions(nKeys, bitsPerKey, nparts);
    var i :| 0 <= i < |hs| && hs[i] == h;
    BuiltParts(f0, parts, hs);
    FilledFinds(parts, hs, i);
    LiveIsShort(InsertAll(f0, hs), Filled(parts, hs));
    LifeAnswers(InsertAll(f0, hs), Filled(parts, hs), es, h);
  }

  lemma FreshParts(nKeys: nat, bitsPerKey: nat, nparts: U32) returns (parts: seq<Mono>)
    requires nparts >= 2
    ensures parts == Repeat(nparts, WithCapacity(nKeys / nparts + 1, bitsPerKey))
    ensures |parts| == nparts <= U32_MAX
    ensures forall i :: 0 <= i < nparts ==> WellFormed(parts[i]) && |parts[i].bits| <= U32_MAX - 12
    ensures var f := WithPartitions(nKeys, bitsPerKey, nparts);
            Represents(f, parts) && Live(f, parts) && f.partsOnce == [] && f.nparts == nparts
  {
    parts := Repeat(nparts, WithCapacity(nKeys / nparts + 1, bitsPerKey));
  }

  lemma LiveIsShort(f: Filter, parts: seq<Mono>)
    requires Live(f, parts) && parts != [] && forall i :: 0 <= i < |parts| ==> |parts[i].bits| <= U32_MAX - 12
    ensures Short(Stock(f)) && !Lazy(f)
  {}

  /** The same for a monolithic filter, unless its width is the partition marker and it is reloaded. */
  lemma MonolithicNeverAbsent(nKeys: nat, bitsPerKey: nat, hs: seq<Hash>, es: seq<Event>, h: Hash)
    requires h in hs
    requires WithCapacity(nKeys, bitsPerKey).nbits == FILTER_PART_MAGIC ==> forall i :: 0 <= i < |es| ==> !es[i].Reload?
    ensures var f := After(InsertAll(WithPartitions(nKeys, bitsPerKey, 1), hs), es); Valid(f) && Answer(f, h)
  {
    hide MayContain, WithCapacity;
    var i :| 0 <= i < |hs| && hs[i] == h;
    BuiltMono(WithCapacity(nKeys, bitsPerKey), hs, i);
    MonoLife(InsertAll(OfMono(WithCapacity(nKeys, bitsPerKey)), hs), es);
  }

  lemma {:induction false} MonoLife(f: Filter, es: seq<Event>)
    requires f.nparts == 1 && f == OfMono(f.mono) && WellFormed(f.mono)
    requires f.mono.nbits == FILTER_PART_MAGIC ==> forall i :: 0 <= i < |es| ==> !es[i].Reload?
    ensures After(f, es) == f
  {
    hide Decode, Encode;
    if es != [] {
      MonoLife(f, es[..|es| - 1]);
      MonoFilterRoundTrip(f.mono);
    }
  }

  lemma {:induction false} AlwaysTrueLife(f: Filter, es: seq<Event>)
    requires f.nparts <= 1 && f.mono == ALWAYS_TRUE && Valid(f)
    ensures var g := After(f, es); g.nparts <= 1 && g.mono == ALWAYS_TRUE && Valid(g)
  {
    hide Decode, Encode;
    if es != [] {
      AlwaysTrueLife(f, es[..|es| - 1]);
      MonoFilterRoundTrip(ALWAYS_TRUE);
      assert Encode(After(f, es[..|es| - 1])) == Encode(OfMono(ALWAYS_TRUE)) by { SameEncoding(After(f, es[..|es| - 1])); }
    }
  }

  /**
   A filter assembled from builders that the caller filled by the rule on the first hash: in any later life
   it answers exactly as the builder of that rule does, and lets everything through once it forgets, as a
   filter of fewer than two builders always does.
   */
  lemma AssembledAnswers(builders: seq<Mono>, es: seq<Event>, h: Hash)
    requires |builders| <= U32_MAX
    requires forall i :: 0 <= i < |builders| ==> WellFormed(builders[i]) && |builders[i].bits| <= U32_MAX - 12
    ensures var f := FromPartitionBuilders(builders);
            && Valid(After(f, es))
            && (Answer(After(f, es), h) <==>
                |builders| < 2 || Forgets(f, es) || MayContain(builders[h.h1 % |builders|], h))
  {
    var f := FromPartitionBuilders(builders);
    if |builders| < 2 {
      AlwaysTrueLife(f, es);
      return;
    }
    hide *;
    BuildersStand(builders);
    LiveIsShort(f, builders);
    LifeAnswers(f, builders, es, h);
  }

  /** So it never reports absent what that builder lets through, decoded from its encoding included. */
  lemma AssembledNeverAbsent(builders: seq<Mono>, es: seq<Event>, h: Hash)
    requires |builders| <= U32_MAX
    requires forall i :: 0 <= i < |builders| ==> WellFormed(builders[i]) && |builders[i].bits| <= U32_MAX - 12
    requires |builders| < 2 || MayContain(builders[h.h1 % |builders|], h)
    ensures var f := After(FromPartitionBuilders(builders), es); Valid(f) && Answer(f, h)
    ensures var r := Decode(Encode(FromPartitionBuilders(builders))); r.Ok? ==> Valid(r.value) && Answer(r.value, h)
  {
    var f := FromPartitionBuilders(builders);
    var once := [Reload];
    assert once[..0] == [];
    assert After(f, once) == Step(f, Reload);
    hide Answer, Valid, Decode, Encode, FromPartitionBuilders, MayContain, WellFormed;
    AssembledAnswers(builders, es, h);
    AssembledAnswers(builders, once, h);
  }

  /** In particular a hash inserted into the builder of its first half is never reported absent. */
  lemma InsertedBuildersNeverAbsent(base: seq<Mono>, hs: seq<Hash>, es: seq<Event>, h: Hash)
    requires h in hs && 0 < |base| <= U32_MAX
    requires forall i :: 0 <= i < |base| ==> WellFormed(base[i]) && |base[i].bits| <= U32_MAX - 12
    ensures var f := After(FromPartitionBuilders(Filled(base, hs)), es); Valid(f) && Answer(f, h)
  {
    hide *;
    var i :| 0 <= i < |hs| && hs[i] == h;
    FilledFinds(base, hs, i);
    AssembledNeverAbsent(Filled(base, hs), es, h);
  }

  lemma SameEncoding(f: Filter)
    requires f.nparts <= 1
    ensures Encode(f) == Encode(OfMono(f.mono))
  {}

  lemma BuildersStand(builders: seq<Mono>)
    requires 2 <= |builders| <= U32_MAX && (forall i :: 0 <= i < |builders| ==> WellFormed(builders[i]))
    ensures var f := FromPartitionBuilders(builders);
            Represents(f, builders) && Live(f, builders) && f.nparts == |builders|
  {}

  /** Assembling filled builders gives the bytes and the answers that building by insertion gives. */
  lemma AssembledLikeInserted(nKeys: nat, bitsPerKey: nat, nparts: U32, hs: seq<Hash>, h: Hash)
    requires nparts >= 2
    ensures var base := Repeat(nparts, WithCapacity(nKeys / nparts + 1, bitsPerKey));
            var f, g := FromPartitionBuilders(Filled(base, hs)), InsertAll(WithPartitions(nKeys, bitsPerKey, nparts), hs);
            Encode(f) == Encode(g) && Valid(f) && Answer(f, h) == Answer(g, h)
  {
    hide WithCapacity, MayContain, EncodeMono, PartsBody, U32Le;
    var base := FreshParts(nKeys, bitsPerKey, nparts);
    var f, g := FromPartitionBuilders(Filled(base, hs)), InsertAll(WithPartitions(nKeys, bitsPerKey, nparts), hs);
    BuiltParts(WithPartitions(nKeys, bitsPerKey, nparts), base, hs);
    BuildersStand(Filled(base, hs));
    AnswersAsItsPart(f, Filled(base, hs), h);
    AnswersAsItsPart(g, Filled(base, hs), h);
    assert Written(f) == Written(g);
  }

  /**
   What a built partitioned filter answers after any later life, exactly: a hash is let through if the filter
   has no bits, has forgotten its parts, or every probe of the hash is also one of a hash inserted into the
   part of the same first half.
   */
  lemma BuiltAnswersExactly(nKeys: nat, bitsPerKey: nat, nparts: U32, hs: seq<Hash>, es: seq<Event>, h: Hash)
    requires nparts >= 2
    ensures var f, m := InsertAll(WithPartitions(nKeys, bitsPerKey, nparts), hs), WithCapacity(nKeys / nparts + 1, bitsPerKey);
            && Valid(After(f, es)) && (Active(m) <==> bitsPerKey > 0)
            && (Answer(After(f, es), h) <==>
                bitsPerKey == 0 || Forgets(f, es) || Covered(m, Routed(hs, h.h1 % nparts, nparts), h))
  {
    var m := WithCapacity(nKeys / nparts + 1, bitsPerKey);
    CapacityPositive(nKeys / nparts + 1, bitsPerKey);
    var parts := FreshParts(nKeys, bitsPerKey, nparts);
    var f0 := WithPartitions(nKeys, bitsPerKey, nparts);
    assert parts[h.h1 % nparts] == m;
    assert !Active(m) ==> m == ALWAYS_TRUE;
    hide *;
    BuiltParts(f0, parts, hs);
    LiveIsShort(InsertAll(f0, hs), Filled(parts, hs));
    LifeAnswers(InsertAll(f0, hs), Filled(parts, hs), es, h);
    FilledPart(parts, hs, h.h1 % nparts);
    if bitsPerKey > 0 {
      FilledAnswersExactly(m, Routed(hs, h.h1 % nparts, nparts), h);
    } else {
      NothingRuledOut(Routed(hs, h.h1 % nparts, nparts), h);
    }
  }

  lemma CapacityPositive(nKeys: nat, bitsPerKey: nat)
    requires nKeys > 0
    ensures var m := WithCapacity(nKeys, bitsPerKey);
            (Active(m) <==> bitsPerKey > 0) && m.bits == Zeros(|m.bits|)
  {
    CapacityExactly(nKeys, bitsPerKey);
    if bitsPerKey > 0 { Growing(1, nKeys, bitsPerKey); }
  }

  lemma {:induction false} NothingRuledOut(hs: seq<Hash>, h: Hash)
    ensures WithAll(ALWAYS_TRUE, hs) == ALWAYS_TRUE && MayContain(ALWAYS_TRUE, h)
  {
    if hs != [] { NothingRuledOut(hs[..|hs| - 1], h); }
  }

  /** Whether the part for `h` can still be written and is the one that is read. */
  predicate Writable(f: Filter, h: Hash) {
    var i := PartitionIndex(h, f.nparts);
    i >= |f.partsOnce| && i < |f.loaded| && f.loaded[i].Some?
  }

  /**
   Inserting into a partitioned filter makes the hash visible exactly when its part is writable
   or the hash already passed: after assembling, freezing or decoding, insertion is lost.
   */
  lemma InsertVisibleExactly(f: Filter, h: Hash)
    requires Valid(f) && f.nparts > 1
    ensures Valid(Insert(f, h))
    ensures Answer(Insert(f, h), h) <==> Answer(f, h) || Writable(f, h)
  {
    hide WithHash, MayContain;
    var i := PartitionIndex(h, f.nparts);
    if i < |f.loaded| && f.loaded[i].Some? {
      WithHashFinds(f.loaded[i].value, h, h);
    }
  }
}
