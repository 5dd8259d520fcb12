/** Pages of bytes reused under generation numbers: a pointer is good only for the incarnation it was made in. */
module ArenaKernel {
  import opened Wrappers
  import opened Bytes

  const USIZE_MAX: nat := 0xFFFF_FFFF_FFFF_FFFF

  datatype Page = Page(capacity: nat, generation: U64, buffer: seq<Byte>)

  datatype Ptr = Ptr(generation: U64, page: nat, offset: nat)

  datatype ArenaError =
    | InvalidPageIndex(page: nat, total: nat)
    | OffsetOutOfBounds(offset: nat, capacity: nat)
    | StaleReference(page: nat, pointer: U64, current: U64)
    | GenerationOverflow
    | ZeroPagesRequested
    | ZeroPageCapacityRequested

  type Arena = seq<Page>

  predicate Valid(a: Arena) {
    forall i :: 0 <= i < |a| ==> |a[i].buffer| == a[i].capacity <= USIZE_MAX
  }

  /** Where a slice ends, refused if that overflows or leaves the page. */
  function SliceEnd(offset: nat, len: nat, capacity: nat): Result<nat, ArenaError> {
    if offset + len > USIZE_MAX then Err(OffsetOutOfBounds(USIZE_MAX, capacity))
    else if offset + len > capacity then Err(OffsetOutOfBounds(offset + len, capacity))
    else Ok(offset + len)
  }

  function Written(buffer: seq<Byte>, offset: nat, data: seq<Byte>): (r: seq<Byte>)
    requires offset + |data| <= |buffer|
    ensures |r| == |buffer|
  {
    buffer[..offset] + data + buffer[offset + |data|..]
  }

  function Allocated(a: Arena, page: nat, offset: nat, data: seq<Byte>): (Arena, Result<Ptr, ArenaError>)
    requires Valid(a)
  {
    if page >= |a| then (a, Err(InvalidPageIndex(page, |a|)))
    else
      match SliceEnd(offset, |data|, a[page].capacity)
      case Err(e) => (a, Err(e))
      case Ok(_) =>
        (a[page := a[page].(buffer := Written(a[page].buffer, offset, data))], Ok(Ptr(a[page].generation, page, offset)))
  }

  function Read(a: Arena, ptr: Ptr, len: nat): Result<seq<Byte>, ArenaError>
    requires Valid(a)
  {
    if ptr.page >= |a| then Err(InvalidPageIndex(ptr.page, |a|))
    else if a[ptr.page].generation != ptr.generation
    then Err(StaleReference(ptr.page, ptr.generation, a[ptr.page].generation))
    else
      match SliceEnd(ptr.offset, len, a[ptr.page].capacity)
      case Err(e) => Err(e)
      case Ok(end) => Ok(a[ptr.page].buffer[ptr.offset..end])
  }

  /** A page cleared for its next incarnation, unless its generation counter is exhausted. */
  function NextIncarnation(p: Page): Result<Page, ArenaError> {
    if p.generation == U64_MAX then Err(GenerationOverflow)
    else Ok(p.(buffer := Zeros(p.capacity), generation := p.generation + 1))
  }

  function Recycled(a: Arena, page: nat): (Arena, Result<U64, ArenaError>) {
    if page >= |a| then (a, Err(InvalidPageIndex(page, |a|)))
    else
      match NextIncarnation(a[page])
      case Err(e) => (a, Err(e))
      case Ok(p) => (a[page := p], Ok(p.generation))
  }

  // ---- Runs -----------------------------------------------------------

  datatype Event = Allocate(page: nat, offset: nat, data: seq<Byte>) | Recycle(page: nat)

  function Step(a: Arena, e: Event): (r: Arena)
    requires Valid(a)
    ensures Valid(r) && |r| == |a|
  {
    match e
    case Allocate(page, offset, data) => Allocated(a, page, offset, data).0
    case Recycle(page) => Recycled(a, page).0
  }

  function After(a: Arena, es: seq<Event>): (r: Arena)
    requires Valid(a)
    ensures Valid(r) && |r| == |a|
  {
    if es == [] then a else Step(After(a, es[..|es| - 1]), es[|es| - 1])
  }

  /** How often `page` is successfully recycled along the run. */
  function Recycles(a: Arena, es: seq<Event>, page: nat): nat
    requires Valid(a)
  {
    if es == [] then 0
    else
      var e, before := es[|es| - 1], After(a, es[..|es| - 1]);
      Recycles(a, es[..|es| - 1], page) + if e == Recycle(page) && Recycled(before, page).1.Ok? then 1 else 0
  }

  /** The generation counts the successful recycles exactly: it strictly increases with each and never wraps. */
  lemma {:induction false} GenerationCountsRecycles(a: Arena, es: seq<Event>, page: nat)
    requires Valid(a) && page < |a|
    ensures After(a, es)[page].generation == a[page].generation + Recycles(a, es, page)
    ensures After(a, es)[page].capacity == a[page].capacity
  {
    if es != [] { GenerationCountsRecycles(a, es[..|es| - 1], page); }
  }

  /** How often the run asks to recycle `page`. */
  function RecycleCalls(es: seq<Event>, page: nat): nat {
    if es == [] then 0 else RecycleCalls(es[..|es| - 1], page) + if es[|es| - 1] == Recycle(page) then 1 else 0
  }

  /** Every recycle succeeds until the counter is exhausted, and none after. */
  lemma {:induction false} EveryRecycleCounts(a: Arena, es: seq<Event>, page: nat)
    requires Valid(a) && page < |a|
    ensures Recycles(a, es, page) == Min(RecycleCalls(es, page), U64_MAX - a[page].generation)
  {
    if es != [] {
      EveryRecycleCounts(a, es[..|es| - 1], page);
      GenerationCountsRecycles(a, es[..|es| - 1], page);
    }
  }

  /** The event writes into `offset..offset + len` of `page`; one that leaves the page is refused and writes nothing. */
  predicate Overlaps(e: Event, page: nat, offset: nat, len: nat, capacity: nat) {
    && e.Allocate? && e.page == page && e.offset + |e.data| <= capacity
    && e.offset < offset + len && offset < e.offset + |e.data|
  }

  /** A pointer made by writing `data` at `offset` of `page`, and the arena right after. */
  ghost predicate Made(a: Arena, page: nat, offset: nat, data: seq<Byte>, b: Arena, ptr: Ptr)
    requires Valid(a)
  {
    Allocated(a, page, offset, data) == (b, Ok(ptr))
  }

  /** Later reads of a pointer's own length succeed exactly as long as its page has not been recycled. */
  lemma ReadSucceedsExactly(a: Arena, page: nat, offset: nat, data: seq<Byte>, b: Arena, ptr: Ptr, es: seq<Event>)
    requires Valid(a) && Made(a, page, offset, data, b, ptr) && Valid(b)
    ensures Read(After(b, es), ptr, |data|).Ok? <==> Recycles(b, es, page) == 0
    ensures Recycles(b, es, page) > 0 ==>
              Read(After(b, es), ptr, |data|) == Err(StaleReference(page, ptr.generation, After(b, es)[page].generation))
  {
    GenerationCountsRecycles(b, es, page);
  }

  /** The bytes at `offset` of `page` are still `data` after a run that neither recycles nor overwrites them. */
  lemma {:induction false} BytesSurvive(b: Arena, page: nat, offset: nat, data: seq<Byte>, es: seq<Event>)
    requires Valid(b) && page < |b| && offset + |data| <= b[page].capacity
    requires b[page].buffer[offset..offset + |data|] == data
    requires Recycles(b, es, page) == 0 && NoneOverlaps(es, page, offset, |data|, b[page].capacity)
    ensures After(b, es)[page].capacity == b[page].capacity
    ensures After(b, es)[page].buffer[offset..offset + |data|] == data
  {
    if es != [] {
      var init, e := es[..|es| - 1], es[|es| - 1];
      BytesSurvive(b, page, offset, data, init);
      assert !Overlaps(e, page, offset, |data|, b[page].capacity);
      var before := After(b, init);
      if e.Allocate? && e.page == page && SliceEnd(e.offset, |e.data|, before[page].capacity).Ok? {
        WriteElsewhere(before[page].buffer, e.offset, e.data, offset, |data|);
      }
    }
  }

  lemma WriteElsewhere(buffer: seq<Byte>, at: nat, bytes: seq<Byte>, offset: nat, len: nat)
    requires at + |bytes| <= |buffer| && offset + len <= |buffer|
    requires at + |bytes| <= offset || offset + len <= at || |bytes| == 0 || len == 0
    ensures Written(buffer, at, bytes)[offset..offset + len] == buffer[offset..offset + len]
  {
    var w := Written(buffer, at, bytes);
    forall i | offset <= i < offset + len ensures w[i] == buffer[i] {}
  }

  /**
   A pointer's own bytes, over every later run: recycling its page makes it stale at any length, and until
   then reading its length returns exactly what was written, unless a later allocation overlapped it.
   */
  lemma PointerKeepsItsBytes(a: Arena, page: nat, offset: nat, data: seq<Byte>, b: Arena, ptr: Ptr, es: seq<Event>)
    requires Valid(a) && Made(a, page, offset, data, b, ptr) && Valid(b)
    ensures page < |b|
    ensures Recycles(b, es, page) > 0 ==> forall len: nat ::
              Read(After(b, es), ptr, len) == Err(StaleReference(page, ptr.generation, After(b, es)[page].generation))
    ensures Recycles(b, es, page) == 0 && NoneOverlaps(es, page, offset, |data|, b[page].capacity) ==>
              Read(After(b, es), ptr, |data|) == Ok(data)
  {
    GenerationCountsRecycles(b, es, page);
    hide After, Recycles;
    if Recycles(b, es, page) == 0 && NoneOverlaps(es, page, offset, |data|, b[page].capacity) {
      var w := Written(a[page].buffer, offset, data);
      assert w[offset..offset + |data|] == data;
      hide Written;
      BytesSurvive(b, page, offset, data, es);
    }
  }

  predicate NoneOverlaps(es: seq<Event>, page: nat, offset: nat, len: nat, capacity: nat) {
    forall i :: 0 <= i < |es| ==> !Overlaps(es[i], page, offset, len, capacity)
  }

  // ---- Where every byte comes from ------------------------------------

  /** The event writes byte `i` of `page`; one that leaves the page is refused and writes nothing. */
  predicate Covers(e: Event, page: nat, i: nat, capacity: nat) {
    e.Allocate? && e.page == page && e.offset <= i < e.offset + |e.data| <= capacity
  }

  /** The page is cleared by the last event of the run. */
  predicate EndsRecycled(a: Arena, es: seq<Event>, page: nat)
    requires Valid(a)
  {
    es != [] && es[|es| - 1] == Recycle(page) && Recycled(After(a, es[..|es| - 1]), page).1.Ok?
  }

  /** The last event that wrote byte `i` of `page` and was not cleared away since. */
  function LastWrite(a: Arena, es: seq<Event>, page: nat, i: nat): (j: Option<nat>)
    requires Valid(a) && page < |a|
    ensures j.Some? ==> j.value < |es| && Covers(es[j.value], page, i, a[page].capacity)
  {
    if es == [] || EndsRecycled(a, es, page) then None
    else if Covers(es[|es| - 1], page, i, a[page].capacity) then Some(|es| - 1)
    else LastWrite(a, es[..|es| - 1], page, i)
  }

  /** The page's generation just before event `k`. */
  function GenerationAt(a: Arena, es: seq<Event>, page: nat, k: nat): U64
    requires Valid(a) && page < |a| && k <= |es|
  {
    After(a, es[..k])[page].generation
  }

  /** The last write fell into the present incarnation and nothing wrote the byte since; none means none did in this one. */
  lemma {:induction false} LastWriteIsLast(a: Arena, es: seq<Event>, page: nat, i: nat)
    requires Valid(a) && page < |a|
    ensures match LastWrite(a, es, page, i)
            case Some(j) =>
              && GenerationAt(a, es, page, j) == After(a, es)[page].generation
              && forall k :: j < k < |es| ==> !Covers(es[k], page, i, a[page].capacity)
            case None =>
              forall k :: 0 <= k < |es| && Covers(es[k], page, i, a[page].capacity) ==>
                GenerationAt(a, es, page, k) < After(a, es)[page].generation
  {
    if es != [] {
      var n := |es| - 1;
      var init := es[..n];
      LastWriteIsLast(a, init, page, i);
      GenerationStep(a, es, page, i);
      forall k | 0 <= k <= n
        ensures GenerationAt(a, es, page, k) == GenerationAt(a, init, page, k) <= After(a, init)[page].generation
      {
        assert init[..k] == es[..k];
        GenerationRises(a, init, page, k);
      }
      assert init[..n] == init;
      hide After, EndsRecycled, Covers, GenerationAt;
    }
  }

  /** One more event raises the generation exactly if it recycles the page, and then it writes nothing. */
  lemma GenerationStep(a: Arena, es: seq<Event>, page: nat, i: nat)
    requires Valid(a) && page < |a| && es != []
    ensures After(a, es)[page].generation ==
            After(a, es[..|es| - 1])[page].generation + if EndsRecycled(a, es, page) then 1 else 0
    ensures EndsRecycled(a, es, page) ==> !Covers(es[|es| - 1], page, i, a[page].capacity)
  {}

  lemma {:induction false} GenerationRises(a: Arena, es: seq<Event>, page: nat, k: nat)
    requires Valid(a) && page < |a| && k <= |es|
    ensures After(a, es[..k])[page].generation <= After(a, es)[page].generation
  {
    if k < |es| {
      GenerationRises(a, es[..|es| - 1], page, k);
      assert es[..|es| - 1][..k] == es[..k];
    } else {
      assert es[..k] == es;
    }
  }

  /**
   Every byte of a page after any run: what its last write in the present incarnation put there; if none
   did, zero once the page has been recycled, and before that what was there at the start.
   */
  lemma {:induction false} ByteOrigin(a: Arena, es: seq<Event>, page: nat, i: nat)
    requires Valid(a) && page < |a| && i < a[page].capacity
    ensures After(a, es)[page].capacity == a[page].capacity
    ensures After(a, es)[page].buffer[i] ==
            match LastWrite(a, es, page, i)
            case Some(j) => es[j].data[i - es[j].offset]
            case None => if Recycles(a, es, page) > 0 then 0 else a[page].buffer[i]
  {
    if es != [] {
      hide Step, Recycled;
      var n := |es| - 1;
      ByteOrigin(a, es[..n], page, i);
      StepByte(After(a, es[..n]), es[n], page, i);
    }
  }

  /** What one event does to one byte. */
  lemma StepByte(a: Arena, e: Event, page: nat, i: nat)
    requires Valid(a) && page < |a| && i < a[page].capacity
    ensures Step(a, e)[page].capacity == a[page].capacity
    ensures Step(a, e)[page].buffer[i] ==
            if Covers(e, page, i, a[page].capacity) then e.data[i - e.offset]
            else if e == Recycle(page) && Recycled(a, page).1.Ok? then 0
            else a[page].buffer[i]
  {
    if e.Allocate? && e.page == page && SliceEnd(e.offset, |e.data|, a[page].capacity).Ok? {
      WrittenAt(a[page].buffer, e.offset, e.data, i);
      hide Written;
    }
  }

  lemma WrittenAt(buffer: seq<Byte>, offset: nat, data: seq<Byte>, i: nat)
    requires offset + |data| <= |buffer| && i < |buffer|
    ensures Written(buffer, offset, data)[i] == if offset <= i < offset + |data| then data[i - offset] else buffer[i]
  {}

  /** Byte `v` at `i` was written in the incarnation `generation` of the page. */
  ghost predicate WrittenIn(a: Arena, es: seq<Event>, page: nat, i: nat, generation: U64, v: Byte)
    requires Valid(a) && page < |a|
  {
    exists j :: 0 <= j < |es| && Covers(es[j], page, i, a[page].capacity) && es[j].data[i - es[j].offset] == v &&
                GenerationAt(a, es, page, j) == generation
  }

  /**
   No pointer ever reads another incarnation's bytes: from an arena of zeroed pages, over every run and
   however overlapped or recycled, each byte read through a pointer, at any length, was written in that
   pointer's own incarnation, or nothing wrote there in that incarnation and it is zero.
   */
  lemma NoForeignBytes(a: Arena, es: seq<Event>, ptr: Ptr, len: nat, k: nat)
    requires Valid(a) && forall p :: 0 <= p < |a| ==> a[p].buffer == Zeros(a[p].capacity)
    requires Read(After(a, es), ptr, len).Ok? && k < len
    ensures ptr.page < |a| && |Read(After(a, es), ptr, len).value| == len
    ensures var v, i := Read(After(a, es), ptr, len).value[k], ptr.offset + k;
            if exists u :: WrittenIn(a, es, ptr.page, i, ptr.generation, u)
            then WrittenIn(a, es, ptr.page, i, ptr.generation, v) else v == 0
  {
    var page, i := ptr.page, ptr.offset + k;
    hide After, Recycles, LastWrite;
    ReadByte(After(a, es), ptr, len, k);
    GenerationCountsRecycles(a, es, page);
    hide Read, Covers, Written, GenerationAt;
    assert a[page].buffer[i] == 0;
    ByteOrigin(a, es, page, i);
    LastWriteIsLast(a, es, page, i);
    if LastWrite(a, es, page, i).Some? {
      var j := LastWrite(a, es, page, i).value;
      assert WrittenIn(a, es, page, i, ptr.generation, es[j].data[i - es[j].offset]);
    }
  }

  lemma ReadByte(a: Arena, ptr: Ptr, len: nat, k: nat)
    requires Valid(a) && Read(a, ptr, len).Ok? && k < len
    ensures ptr.page < |a| && a[ptr.page].generation == ptr.generation && ptr.offset + len <= a[ptr.page].capacity
    ensures |Read(a, ptr, len).value| == len && Read(a, ptr, len).value[k] == a[ptr.page].buffer[ptr.offset + k]
  {}

  /** Two pointers into one page with a successful recycle between them never carry the same generation. */
  lemma IncarnationsDiffer(a: Arena, page: nat, offset: nat, data: seq<Byte>, b: Arena, ptr: Ptr, es: seq<Event>,
                           offset': nat, data': seq<Byte>, c: Arena, ptr': Ptr)
    requires Valid(a) && Made(a, page, offset, data, b, ptr) && Valid(b)
    requires Made(After(b, es), page, offset', data', c, ptr')
    ensures ptr'.generation == ptr.generation + Recycles(b, es, page)
  {
    GenerationCountsRecycles(b, es, page);
  }

  // ---- The objects ----------------------------------------------------

  class ArenaMemoryPage {
    const capacity: nat
    const buffer: array<Byte>
    var activeGeneration: U64

    predicate Ok()
      reads this
    {
      buffer.Length == capacity
    }

    function Value(): Page
      reads this, buffer
    {
      Page(capacity, activeGeneration, buffer[..])
    }

    constructor (capacity: nat)
      ensures Ok() && fresh(buffer) && this.capacity == capacity && Value() == Page(capacity, 1, Zeros(capacity))
    {
      this.capacity := capacity;
      var b := new Byte[capacity](_ => 0);
      buffer := b;
      activeGeneration := 1;
    }

    /** A page of its own memory, unless no bytes were asked for. */
    static method TryNew(capacity: nat) returns (r: Result<ArenaMemoryPage, ArenaError>)
      ensures capacity == 0 ==> r == Err(ZeroPageCapacityRequested)
      ensures capacity > 0 ==>
                && r.Ok? && fresh(r.value) && fresh(r.value.buffer) && r.value.Ok()
                && r.value.Value() == Page(capacity, 1, Zeros(capacity))
    {
      if capacity == 0 {
        return Err(ZeroPageCapacityRequested);
      }
      var page := new ArenaMemoryPage(capacity);
      return Result.Ok(page);
    }

    method TryRecyclePage() returns (r: Result<U64, ArenaError>)
      requires Ok()
      modifies this`activeGeneration, buffer
      ensures match NextIncarnation(old(Value()))
              case Err(e) => r == Err(e) && Value() == old(Value())
              case Ok(p) => r == Result.Ok(p.generation) && Value() == p
    {
      if activeGeneration == U64_MAX {
        return Err(GenerationOverflow);
      }
      forall i | 0 <= i < buffer.Length { buffer[i] := 0; }
      activeGeneration := activeGeneration + 1;
      assert buffer[..] == Zeros(capacity);
      return Result.Ok(activeGeneration);
    }
  }

  class GenerationalArena {
    const pages: seq<ArenaMemoryPage>

    ghost const footprint: set<object> :=
      (set p: ArenaMemoryPage | p in pages :: p as object) + (set p: ArenaMemoryPage | p in pages :: p.buffer as object)

    /** Pages and buffers are all distinct objects. */
    ghost predicate Separate() {
      && (forall i :: 0 <= i < |pages| ==> pages[i].buffer.Length == pages[i].capacity <= USIZE_MAX)
      && (forall i, j :: 0 <= i < j < |pages| ==> pages[i] != pages[j] && pages[i].buffer != pages[j].buffer)
    }

    ghost function Value(): (v: Arena)
      reads footprint
      ensures |v| == |pages| && forall i :: 0 <= i < |pages| ==> v[i] == pages[i].Value()
    {
      seq(|pages|, i requires 0 <= i < |pages| reads footprint => pages[i].Value())
    }

    constructor (numPages: nat, capacity: nat)
      requires capacity <= USIZE_MAX
      ensures Separate() && fresh(footprint)
      ensures Value() == seq(numPages, _ => Page(capacity, 1, Zeros(capacity)))
    {
      var ps: seq<ArenaMemoryPage> := [];
      for i := 0 to numPages
        invariant |ps| == i && forall k :: 0 <= k < i ==>
                    fresh(ps[k]) && fresh(ps[k].buffer) && ps[k].buffer.Length == ps[k].capacity == capacity &&
                    ps[k].Value() == Page(capacity, 1, Zeros(capacity))
        invariant forall k, l :: 0 <= k < l < i ==> ps[k] != ps[l] && ps[k].buffer != ps[l].buffer
      {
        var p := new ArenaMemoryPage(capacity);
        ps := ps + [p];
      }
      pages := ps;
    }

    /** An arena of fresh pages, all in generation 1. */
    static method TryNew(numPages: nat, capacity: nat) returns (r: Result<GenerationalArena, ArenaError>)
      requires capacity <= USIZE_MAX
      ensures numPages == 0 ==> r == Err(ZeroPagesRequested)
      ensures numPages > 0 && capacity == 0 ==> r == Err(ZeroPageCapacityRequested)
      ensures numPages > 0 && capacity > 0 ==>
                r.Ok? && r.value.Separate() && r.value.Value() == seq(numPages, _ => Page(capacity, 1, Zeros(capacity)))
    {
      if numPages == 0 {
        return Err(ZeroPagesRequested);
      }
      if capacity == 0 {
        return Err(ZeroPageCapacityRequested);
      }
      var arena := new GenerationalArena(numPages, capacity);
      return Ok(arena);
    }

    /** Copies `data` into the page and hands out a pointer tagged with the page's generation. */
    method AllocateAt(page: nat, offset: nat, data: seq<Byte>) returns (r: Result<Ptr, ArenaError>)
      requires Separate()
      modifies if page < |pages| then {pages[page].buffer} else {}
      ensures Valid(old(Value())) && (Value(), r) == Allocated(old(Value()), page, offset, data)
    {
      ghost var was := Value();
      if page >= |pages| {
        return Err(InvalidPageIndex(page, |pages|));
      }
      var p := pages[page];
      if offset + |data| > USIZE_MAX {
        return Err(OffsetOutOfBounds(USIZE_MAX, p.capacity));
      }
      var end := offset + |data|;
      if end > p.capacity {
        return Err(OffsetOutOfBounds(end, p.capacity));
      }
      CopyInto(p.buffer, offset, data);
      assert Value() == was[page := was[page].(buffer := Written(was[page].buffer, offset, data))];
      return Ok(Ptr(p.activeGeneration, page, offset));
    }

    /** Reads through a pointer only in the incarnation it was made in. */
    method ReadPtr(ptr: Ptr, len: nat) returns (r: Result<seq<Byte>, ArenaError>)
      requires Separate()
      ensures Valid(Value()) && r == Read(Value(), ptr, len)
    {
      if ptr.page >= |pages| {
        return Err(InvalidPageIndex(ptr.page, |pages|));
      }
      var p := pages[ptr.page];
      if p.activeGeneration != ptr.generation {
        return Err(StaleReference(ptr.page, ptr.generation, p.activeGeneration));
      }
      if ptr.offset + len > USIZE_MAX {
        return Err(OffsetOutOfBounds(USIZE_MAX, p.capacity));
      }
      var end := ptr.offset + len;
      if end > p.capacity {
        return Err(OffsetOutOfBounds(end, p.capacity));
      }
      return Ok(p.buffer[ptr.offset..end]);
    }

    method TryRecyclePage(page: nat) returns (r: Result<U64, ArenaError>)
      requires Separate()
      modifies if page < |pages| then {pages[page], pages[page].buffer} else {}
      ensures (Value(), r) == Recycled(old(Value()), page)
    {
      ghost var was := Value();
      if page >= |pages| {
        return Err(InvalidPageIndex(page, |pages|));
      }
      r := pages[page].TryRecyclePage();
      if r.Ok? {
        assert Value() == was[page := NextIncarnation(was[page]).value];
      } else {
        assert Value() == was;
      }
    }
  }

  /** `buffer[offset..offset + |data|].copy_from_slice(data)`. */
  method CopyInto(buffer: array<Byte>, offset: nat, data: seq<Byte>)
    requires offset + |data| <= buffer.Length
    modifies buffer
    ensures buffer[..] == Written(old(buffer[..]), offset, data)
  {
    ghost var was := buffer[..];
    for i := 0 to |data|
      invariant forall k :: 0 <= k < buffer.Length ==>
                  buffer[k] == if offset <= k < offset + i then data[k - offset] else was[k]
    {
      buffer[offset + i] := data[i];
    }
  }
}
