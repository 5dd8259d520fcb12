/** A cursor that can turn around: over sorted items it behaves as one position between "before the first" and "past the last". */
module BidiCursor {
  import opened Wrappers
  import opened Bytes
  import opened KeyOrder

  type Item = (Key, seq<Byte>)

  datatype CursorDirection = Neutral | Forward | Backward

  datatype CursorError = UnsortedKeys(prev: Key, next: Key) | DuplicateKeys(key: Key) | KeyEmpty | EmptyItems

  datatype Cursor = Cursor(at: Option<nat>, direction: CursorDirection)

  predicate StrictlySorted(items: seq<Item>) {
    forall i, j :: 0 <= i < j < |items| ==> Less(items[i].0, items[j].0)
  }

  predicate InBounds(items: seq<Item>, c: Cursor) {
    c.at.Some? ==> c.at.value < |items|
  }

  // ---- The automaton --------------------------------------------------

  function SoughtFirst(n: nat): Cursor {
    Cursor(if n == 0 then None else Some(0), Forward)
  }

  function SoughtLast(n: nat): Cursor {
    Cursor(if n == 0 then None else Some(n - 1), Backward)
  }

  function Nexted(n: nat, c: Cursor): Cursor
    requires c.at.Some? ==> c.at.value < n
  {
    if n == 0 then c
    else
      match (c.direction, c.at)
      case (Neutral, _) => SoughtFirst(n)
      case (Forward, None) => c
      case (Forward, Some(i)) => Cursor(if i + 1 < n then Some(i + 1) else None, Forward)
      case (Backward, None) => SoughtFirst(n)
      case (Backward, Some(i)) => Cursor(if i + 1 < n then Some(i + 1) else None, Forward)
  }

  function Preved(n: nat, c: Cursor): Cursor
    requires c.at.Some? ==> c.at.value < n
  {
    if n == 0 then c
    else
      match (c.direction, c.at)
      case (Neutral, _) => SoughtLast(n)
      case (Backward, None) => c
      case (Backward, Some(i)) => Cursor(if i > 0 then Some(i - 1) else None, Backward)
      case (Forward, None) => SoughtLast(n)
      case (Forward, Some(i)) => Cursor(if i > 0 then Some(i - 1) else None, Backward)
  }

  /** How many items are below a bound: the index of the first that is not. */
  ghost predicate IsPartition(items: seq<Item>, p: nat, below: Key -> bool) {
    p <= |items| && (forall i :: 0 <= i < p ==> below(items[i].0)) && (forall i :: p <= i < |items| ==> !below(items[i].0))
  }

  /** Item `i`, if any, is the least at or above the target; none means every item is below it. */
  predicate LeastAtOrAbove(items: seq<Item>, target: Key, i: Option<nat>) {
    if i.None? then forall j :: 0 <= j < |items| ==> Less(items[j].0, target)
    else
      && i.value < |items| && AtMost(target, items[i.value].0)
      && forall j :: 0 <= j < |items| && AtMost(target, items[j].0) ==> AtMost(items[i.value].0, items[j].0)
  }

  /** Item `i`, if any, is the greatest at or below the target; none means every item is above it. */
  predicate GreatestAtOrBelow(items: seq<Item>, target: Key, i: Option<nat>) {
    if i.None? then forall j :: 0 <= j < |items| ==> Less(target, items[j].0)
    else
      && i.value < |items| && AtMost(items[i.value].0, target)
      && forall j :: 0 <= j < |items| && AtMost(items[j].0, target) ==> AtMost(items[j].0, items[i.value].0)
  }

  /** The length of the leading run below a bound. */
  function LeadingRun(items: seq<Item>, below: Key -> bool, i: nat): (p: nat)
    requires i <= |items|
    ensures i <= p <= |items| && (forall k :: i <= k < p ==> below(items[k].0)) && (p < |items| ==> !below(items[p].0))
    decreases |items| - i
  {
    if i < |items| && below(items[i].0) then LeadingRun(items, below, i + 1) else i
  }

  /** All items below the bound come first. */
  predicate Partitioned(items: seq<Item>, below: Key -> bool) {
    forall i, j :: 0 <= i < j < |items| && below(items[j].0) ==> below(items[i].0)
  }

  lemma RunIsPartition(items: seq<Item>, below: Key -> bool)
    requires Partitioned(items, below)
    ensures IsPartition(items, LeadingRun(items, below, 0), below)
  {}

  /** Sorted items are partitioned by every target. */
  lemma SortedIsPartitioned(items: seq<Item>, target: Key)
    requires StrictlySorted(items)
    ensures Partitioned(items, Below(target)) && Partitioned(items, AtOrBelow(target))
  {
    LessIsTotalOrder();
  }

  /** Over sorted items a seek lands on the least key at or above its target. */
  lemma SeekLands(items: seq<Item>, target: Key, c: Cursor)
    requires StrictlySorted(items) && InBounds(items, c)
    ensures LeastAtOrAbove(items, target, Moved(items, c, Seek(target)).at)
  {
    LessIsTotalOrder();
    SortedIsPartitioned(items, target);
    RunIsPartition(items, Below(target));
    hide LeadingRun;
  }

  /** And a seek-for-prev on the greatest key at or below it. */
  lemma SeekForPrevLands(items: seq<Item>, target: Key, c: Cursor)
    requires StrictlySorted(items) && InBounds(items, c)
    ensures GreatestAtOrBelow(items, target, Moved(items, c, SeekForPrev(target)).at)
  {
    LessIsTotalOrder();
    SortedIsPartitioned(items, target);
    RunIsPartition(items, AtOrBelow(target));
    hide LeadingRun;
  }

  // ---- One position ---------------------------------------------------

  /** The position a cursor stands for: -1 before the first item, n past the last; none before the first move. */
  function Position(n: nat, c: Cursor): Option<int> {
    match c.direction
    case Neutral => None
    case Forward => Some(if c.at.Some? then c.at.value else n)
    case Backward => Some(if c.at.Some? then c.at.value else -1)
  }

  datatype Move = Next | Prev | ToFirst | ToLast | Seek(target: Key) | SeekForPrev(target: Key)

  function Moved(items: seq<Item>, c: Cursor, m: Move): (r: Cursor)
    requires InBounds(items, c)
    ensures InBounds(items, r)
  {
    var n := |items|;
    match m
    case Next => Nexted(n, c)
    case Prev => Preved(n, c)
    case ToFirst => SoughtFirst(n)
    case ToLast => SoughtLast(n)
    case Seek(target) =>
      var p := LeadingRun(items, Below(target), 0);
      Cursor(if p < n then Some(p) else None, Forward)
    case SeekForPrev(target) =>
      var p := LeadingRun(items, AtOrBelow(target), 0);
      Cursor(if p > 0 then Some(p - 1) else None, Backward)
  }

  function Clamp(n: nat, p: int): int {
    Max(-1, Min(n, p))
  }

  /** How many of the first `n` items are below a bound, wherever they stand. */
  function CountBelow(items: seq<Item>, below: Key -> bool, n: nat): nat
    requires n <= |items|
  {
    if n == 0 then 0 else CountBelow(items, below, n - 1) + if below(items[n - 1].0) then 1 else 0
  }

  /** The same moves on a bare position; a seek counts the keys below its target, or at or below it. */
  function MovedPosition(items: seq<Item>, p: Option<int>, m: Move): int {
    var n := |items|;
    match m
    case Next => if p.None? then 0 else Clamp(n, p.value + 1)
    case Prev => if p.None? then n - 1 else Clamp(n, p.value - 1)
    case ToFirst => 0
    case ToLast => n - 1
    case Seek(target) => CountBelow(items, Below(target), n)
    case SeekForPrev(target) => CountBelow(items, AtOrBelow(target), n) - 1
  }

  /** A partition point is the number of items below the bound. */
  lemma {:induction false} PartitionCounts(items: seq<Item>, p: nat, below: Key -> bool, n: nat)
    requires IsPartition(items, p, below) && n <= |items|
    ensures CountBelow(items, below, n) == Min(n, p)
  {
    if n > 0 { PartitionCounts(items, p, below, n - 1); }
  }

  function After(items: seq<Item>, c: Cursor, ms: seq<Move>): (r: Cursor)
    requires InBounds(items, c)
    ensures InBounds(items, r)
  {
    if ms == [] then c else Moved(items, After(items, c, ms[..|ms| - 1]), ms[|ms| - 1])
  }

  function PositionAfter(items: seq<Item>, p: Option<int>, ms: seq<Move>): Option<int> {
    if ms == [] then p else Some(MovedPosition(items, PositionAfter(items, p, ms[..|ms| - 1]), ms[|ms| - 1]))
  }

  predicate InRange(n: nat, p: Option<int>) {
    p.Some? ==> -1 <= p.value <= n
  }

  lemma MoveRefines(items: seq<Item>, c: Cursor, m: Move)
    requires items != [] && StrictlySorted(items) && InBounds(items, c)
    ensures Position(|items|, Moved(items, c, m)) == Some(MovedPosition(items, Position(|items|, c), m))
    ensures -1 <= MovedPosition(items, Position(|items|, c), m) <= |items|
  {
    if m.Seek? || m.SeekForPrev? {
      var below := if m.Seek? then Below(m.target) else AtOrBelow(m.target);
      SortedIsPartitioned(items, m.target);
      RunIsPartition(items, below);
      PartitionCounts(items, LeadingRun(items, below, 0), below, |items|);
      hide LeadingRun, CountBelow, Partitioned, IsPartition, StrictlySorted;
    }
  }

  /**
   Over non-empty sorted items, any run of seeks by key, next and prev refines the run of one position
   clamped to -1..n, on which a seek counts keys.
   */
  lemma {:induction false} RefinesPosition(items: seq<Item>, c: Cursor, ms: seq<Move>)
    requires items != [] && StrictlySorted(items) && InBounds(items, c)
    ensures Position(|items|, After(items, c, ms)) == PositionAfter(items, Position(|items|, c), ms)
    ensures InRange(|items|, Position(|items|, c)) && InRange(|items|, PositionAfter(items, Position(|items|, c), ms))
  {
    if ms != [] {
      var init := ms[..|ms| - 1];
      RefinesPosition(items, c, init);
      MoveRefines(items, After(items, c, init), ms[|ms| - 1]);
      hide Moved, MovedPosition, Position, StrictlySorted;
    }
  }

  /** Once positioned, prev undoes next below the end and next undoes prev above the start. */
  lemma TurningUndoes(n: nat, c: Cursor)
    requires n > 0 && (c.at.Some? ==> c.at.value < n) && !c.direction.Neutral?
    ensures Position(n, c).value < n ==> Position(n, Preved(n, Nexted(n, c))) == Position(n, c)
    ensures Position(n, c).value > -1 ==> Position(n, Nexted(n, Preved(n, c))) == Position(n, c)
    ensures Position(n, c).value == n ==> Nexted(n, c) == c
    ensures Position(n, c).value == -1 ==> Preved(n, c) == c
  {}

  /** With no items the position does not move at all, so the refinement is exactly for non-empty items. */
  lemma EmptyStandsStill()
    ensures Position(0, Nexted(0, Cursor(None, Backward))) != Some(MovedPosition([], Some(-1), Next))
  {}

  // ---- The object -----------------------------------------------------

  function Below(target: Key): Key -> bool {
    k => Less(k, target)
  }

  function AtOrBelow(target: Key): Key -> bool {
    k => AtMost(k, target)
  }

  /** The library's `partition_point`, a binary search: on partitioned items the end of the leading run. */
  method PartitionPoint(items: seq<Item>, below: Key -> bool) returns (p: nat)
    ensures p <= |items| && (Partitioned(items, below) ==> p == LeadingRun(items, below, 0))
  {
    hide LeadingRun;
    ghost var partitioned := Partitioned(items, below);
    if partitioned { RunIsPartition(items, below); }
    var lo, hi := 0, |items|;
    while lo < hi
      invariant 0 <= lo <= hi <= |items|
      invariant partitioned ==> lo <= LeadingRun(items, below, 0) <= hi
    {
      var mid := (lo + hi) / 2;
      if below(items[mid].0) {
        lo := mid + 1;
      } else {
        hi := mid;
      }
    }
    p := lo;
  }

  /** The validation of `try_new`: an empty key anywhere, else the first bad neighbour pair. */
  method Validate(items: seq<Item>) returns (r: Result<(), CursorError>)
    ensures r.Ok? <==> StrictlySorted(items) && forall i :: 0 <= i < |items| ==> items[i].0 != []
    ensures r.Err? ==> match r.error
                       case KeyEmpty => exists i :: 0 <= i < |items| && items[i].0 == []
                       case DuplicateKeys(k) => exists i :: 0 < i < |items| && items[i - 1].0 == items[i].0 == k
                       case UnsortedKeys(a, b) =>
                         Less(b, a) && exists i :: 0 < i < |items| && items[i - 1].0 == a && items[i].0 == b
                       case EmptyItems => false
  {
    for i := 0 to |items|
      invariant forall k :: 0 <= k < i ==> items[k].0 != []
    {
      if items[i].0 == [] {
        return Err(KeyEmpty);
      }
    }
    ghost var keys := seq(|items|, i requires 0 <= i < |items| => items[i].0);
    var i := 1;
    while i < |items|
      invariant 1 <= i && forall k :: 0 <= k < i - 1 && k + 1 < |items| ==> Less(keys[k], keys[k + 1])
    {
      if items[i - 1].0 == items[i].0 {
        assert !Less(items[i - 1].0, items[i].0);
        return Err(DuplicateKeys(items[i - 1].0));
      }
      if Less(items[i].0, items[i - 1].0) {
        if Less(items[i - 1].0, items[i].0) { Transitive(items[i].0, items[i - 1].0, items[i].0); }
        return Err(UnsortedKeys(items[i - 1].0, items[i].0));
      }
      Trichotomy(items[i - 1].0, items[i].0);
      i := i + 1;
    }
    forall i, j | 0 <= i < j < |items| ensures Less(items[i].0, items[j].0) { NeighboursAscend(keys, i, j); }
    return Ok(());
  }

  class BidiCursorStateMachine {
    const items: seq<Item>
    var cursor: Option<nat>
    var direction: CursorDirection

    function Value(): Cursor
      reads this
    {
      Cursor(cursor, direction)
    }

    predicate Valid()
      reads this
    {
      InBounds(items, Value())
    }

    constructor (items: seq<Item>)
      ensures Valid() && this.items == items && Value() == Cursor(None, Neutral)
    {
      this.items, cursor, direction := items, None, Neutral;
    }

    function Current(): Option<Item>
      requires Valid()
      reads this
    {
      if cursor.Some? then Some(items[cursor.value]) else None
    }

    /** On sorted items lands on the least key at or above the target, or past the end if there is none. */
    method SeekTo(target: Key) returns (r: Option<Item>)
      requires Valid()
      modifies this
      ensures Valid() && direction == Forward && r == Current()
      ensures StrictlySorted(items) ==>
                Value() == Moved(items, old(Value()), Seek(target)) && LeastAtOrAbove(items, target, cursor)
    {
      hide LeadingRun, LeastAtOrAbove;
      ghost var was := Value();
      direction := Forward;
      var p := PartitionPoint(items, Below(target));
      if StrictlySorted(items) {
        SortedIsPartitioned(items, target);
        SeekLands(items, target, was);
      }
      if p < |items| {
        cursor := Some(p);
        return Some(items[p]);
      }
      cursor := None;
      return None;
    }

    /** On sorted items lands on the greatest key at or below the target, or before the start if there is none. */
    method SeekForPrevTo(target: Key) returns (r: Option<Item>)
      requires Valid()
      modifies this
      ensures Valid() && direction == Backward && r == Current()
      ensures StrictlySorted(items) ==>
                Value() == Moved(items, old(Value()), SeekForPrev(target)) && GreatestAtOrBelow(items, target, cursor)
    {
      hide LeadingRun, GreatestAtOrBelow;
      ghost var was := Value();
      direction := Backward;
      var p := PartitionPoint(items, AtOrBelow(target));
      if StrictlySorted(items) {
        SortedIsPartitioned(items, target);
        SeekForPrevLands(items, target, was);
      }
      if p > 0 {
        cursor := Some(p - 1);
        return Some(items[p - 1]);
      }
      cursor := None;
      return None;
    }

    method SeekToFirst() returns (r: Option<Item>)
      modifies this
      ensures Valid() && Value() == SoughtFirst(|items|) && r == Current()
    {
      direction := Forward;
      cursor := if items == [] then None else Some(0);
      r := Current();
    }

    method SeekToLast() returns (r: Option<Item>)
      modifies this
      ensures Valid() && Value() == SoughtLast(|items|) && r == Current()
    {
      direction := Backward;
      cursor := if items == [] then None else Some(|items| - 1);
      r := Current();
    }

    /** One item on, turning around if the cursor was going backwards. */
    method NextItem() returns (r: Option<Item>)
      requires Valid()
      modifies this
      ensures Valid() && Value() == Nexted(|items|, old(Value())) && r == Current()
    {
      if items == [] {
        return None;
      }
      match (direction, cursor) {
        case (Neutral, _) =>
          r := SeekToFirst();
        case (Forward, None) =>
          r := None;
        case (Forward, Some(i)) =>
          cursor := if i + 1 < |items| then Some(i + 1) else None;
          r := Current();
        case (Backward, None) =>
          r := SeekToFirst();
        case (Backward, Some(i)) =>
          direction := Forward;
          cursor := if i + 1 < |items| then Some(i + 1) else None;
          r := Current();
      }
    }

    /** One item back, turning around if the cursor was going forwards. */
    method PrevItem() returns (r: Option<Item>)
      requires Valid()
      modifies this
      ensures Valid() && Value() == Preved(|items|, old(Value())) && r == Current()
    {
      if items == [] {
        return None;
      }
      match (direction, cursor) {
        case (Neutral, _) =>
          r := SeekToLast();
        case (Backward, None) =>
          r := None;
        case (Backward, Some(i)) =>
          cursor := if i > 0 then Some(i - 1) else None;
          r := Current();
        case (Forward, None) =>
          r := SeekToLast();
        case (Forward, Some(i)) =>
          direction := Backward;
          cursor := if i > 0 then Some(i - 1) else None;
          r := Current();
      }
    }
  }
}
