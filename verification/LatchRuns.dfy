/**
 The whole latch: one `Slot` per column family plus the diagnostic counters, batches that mix
 families, and the class that computes it with loops over the batch.
 */
module LatchRuns {
  import opened Wrappers
  import opened KeyOrder
  import opened LatchModel

  datatype Latch = Latch(
    threshold: nat,
    state: map<Family, FamilyState>,
    highWater: map<Family, Key>,
    bulkBatches: nat,
    ladderBatches: nat,
    killed: nat)

  function Lookup<V>(m: map<Family, V>, f: Family): Option<V> {
    if f in m then Some(m[f]) else None
  }

  function SlotOf(l: Latch, f: Family): Slot {
    Slot(if f in l.state then l.state[f] else Probing(0), Lookup(l.highWater, f))
  }

  /** The latch with family `f` moved to slot `s`, and the batch counted. */
  function Moved(l: Latch, f: Family, s: Slot, route: FamilyRoute): Latch {
    Latch(
      l.threshold,
      l.state[f := s.state],
      if s.water.Some? then l.highWater[f := s.water.value] else l.highWater,
      l.bulkBatches + if route.Bulk? then 1 else 0,
      l.ladderBatches + if route.Ladder? then 1 else 0,
      l.killed + if s.state.Dead? && !SlotOf(l, f).state.Dead? then 1 else 0)
  }

  function FamilyClassified(l: Latch, f: Family, ops: seq<FamilyOp>, spanning: bool, dbMax: Option<Key>)
    : (Latch, FamilyRoute)
  {
    var (s, route) := Classify(l.threshold, SlotOf(l, f), ops, spanning, dbMax);
    (Moved(l, f, s, route), route)
  }

  /** The latched span path: a span that clears the mark raises it to its last key and counts as one bulk batch. */
  function SpanObserved(l: Latch, f: Family, keys: seq<Key>): (Latch, FamilyRoute) {
    var s := SlotOf(l, f);
    if !s.state.Latched? then FamilyClassified(l, f, PutsOf(keys), false, None)
    else if keys == [] then (l, Bulk)
    else if ClearsMark(s.water, keys) then
      (l.(highWater := l.highWater[f := Raised(s.water, keys[|keys| - 1])], bulkBatches := l.bulkBatches + 1), Bulk)
    else FamilyClassified(l, f, PutsOf(keys), false, None)
  }

  /**
   The span path refines the slow one: on the same puts both give the same latch, counters included, and
   the same route, except exactly for a latched family's empty span.
   */
  lemma SpanMatchesSlowPath(l: Latch, f: Family, keys: seq<Key>)
    ensures SpanObserved(l, f, keys) == FamilyClassified(l, f, PutsOf(keys), false, None) <==>
            keys != [] || !SlotOf(l, f).state.Latched?
  {
    var s := SlotOf(l, f);
    SpanTakesSlowPath(l.threshold, s, keys);
    if s.state.Latched? && keys != [] && ClearsMark(s.water, keys) {
      assert l.state == l.state[f := Latched];
    }
  }

  // ---- Batches that mix families --------------------------------------

  function Touched(op: BulkOp): seq<Family> {
    match op
    case Put(f, _) => [f]
    case Delete(f, _) => [f]
    case DeleteRange(f, _, g, _) => [f, g]
  }

  /** What `op` contributes to family `f`, in batch order. */
  function Contribution(op: BulkOp, f: Family): seq<FamilyOp> {
    match op
    case Put(g, key) => if f == g then [FamilyOp(true, key)] else []
    case Delete(g, key) => if f == g then [FamilyOp(false, key)] else []
    case DeleteRange(g, start, h, end) =>
      (if f == g then [FamilyOp(false, start)] else []) + (if f == h then [FamilyOp(false, end)] else [])
  }

  function Projected(ops: seq<BulkOp>, f: Family): seq<FamilyOp> {
    if ops == [] then [] else Projected(ops[..|ops| - 1], f) + Contribution(ops[|ops| - 1], f)
  }

  predicate SpansFamilies(op: BulkOp, f: Family) {
    op.DeleteRange? && op.startFamily != op.endFamily && f in Touched(op)
  }

  predicate Spanned(ops: seq<BulkOp>, f: Family) {
    exists i :: 0 <= i < |ops| && SpansFamilies(ops[i], f)
  }

  function WithFamily(fs: seq<Family>, f: Family): seq<Family> {
    if f in fs then fs else fs + [f]
  }

  /** The families of a batch in order of first appearance. */
  function FamiliesOf(ops: seq<BulkOp>): seq<Family> {
    if ops == [] then []
    else
      var fs, touched := FamiliesOf(ops[..|ops| - 1]), Touched(ops[|ops| - 1]);
      if |touched| == 1 then WithFamily(fs, touched[0]) else WithFamily(WithFamily(fs, touched[0]), touched[1])
  }

  predicate NoRepeats(fs: seq<Family>) {
    forall i, j :: 0 <= i < j < |fs| ==> fs[i] != fs[j]
  }

  predicate Names(ops: seq<BulkOp>, f: Family) {
    exists i :: 0 <= i < |ops| && f in Touched(ops[i])
  }

  lemma NamesGrows(ops: seq<BulkOp>, f: Family)
    requires ops != []
    ensures Names(ops, f) <==> Names(ops[..|ops| - 1], f) || f in Touched(ops[|ops| - 1])
  {
    var init := ops[..|ops| - 1];
    if i :| 0 <= i < |init| && f in Touched(init[i]) {
      assert ops[i] == init[i];
    }
    if i :| 0 <= i < |ops| && f in Touched(ops[i]) {
      assert i < |init| ==> init[i] == ops[i];
    }
  }

  lemma {:induction false} FamiliesDistinct(ops: seq<BulkOp>)
    ensures NoRepeats(FamiliesOf(ops))
  {
    if ops != [] { FamiliesDistinct(ops[..|ops| - 1]); }
  }

  lemma {:induction false} FamiliesNamed(ops: seq<BulkOp>, f: Family)
    ensures f in FamiliesOf(ops) <==> Names(ops, f)
  {
    if ops != [] {
      FamiliesNamed(ops[..|ops| - 1], f);
      NamesGrows(ops, f);
    }
  }

  /** The batch classified family after family, in the order `fs`. */
  function EachClassified(l: Latch, fs: seq<Family>, ops: seq<BulkOp>, dbMax: map<Family, Key>)
    : (Latch, map<Family, FamilyRoute>)
  {
    if fs == [] then (l, map[])
    else
      var (l', routes), f := EachClassified(l, fs[..|fs| - 1], ops, dbMax), fs[|fs| - 1];
      var (l'', route) := FamilyClassified(l', f, Projected(ops, f), Spanned(ops, f), Lookup(dbMax, f));
      (l'', routes[f := route])
  }

  lemma EachClassifiedNext(l: Latch, fs: seq<Family>, i: nat, ops: seq<BulkOp>, dbMax: map<Family, Key>)
    requires i < |fs|
    ensures var (l', routes), f := EachClassified(l, fs[..i], ops, dbMax), fs[i];
            var (l'', route) := FamilyClassified(l', f, Projected(ops, f), Spanned(ops, f), Lookup(dbMax, f));
            EachClassified(l, fs[..i + 1], ops, dbMax) == (l'', routes[f := route])
  {
    assert fs[..i + 1][..i] == fs[..i];
  }

  function BatchClassified(l: Latch, ops: seq<BulkOp>, dbMax: map<Family, Key>)
    : (Latch, map<Family, FamilyRoute>)
  {
    EachClassified(l, FamiliesOf(ops), ops, dbMax)
  }

  ghost function Alone(l: Latch, f: Family, ops: seq<BulkOp>, dbMax: map<Family, Key>): (Slot, FamilyRoute) {
    Classify(l.threshold, SlotOf(l, f), Projected(ops, f), Spanned(ops, f), Lookup(dbMax, f))
  }

  lemma MovedSlots(l: Latch, f: Family, ops: seq<FamilyOp>, spanning: bool, dbMax: Option<Key>)
    ensures var (l', route) := FamilyClassified(l, f, ops, spanning, dbMax);
            && l'.threshold == l.threshold
            && l'.killed == l.killed + (if SlotOf(l', f).state.Dead? && !SlotOf(l, f).state.Dead? then 1 else 0)
            && (SlotOf(l', f), route) == Classify(l.threshold, SlotOf(l, f), ops, spanning, dbMax)
            && forall g :: g != f ==> SlotOf(l', g) == SlotOf(l, g)
  {
    RatchetIsMaximum(SlotOf(l, f).water, KeysOf(ops));
  }

  ghost function RoutedTo(routes: map<Family, FamilyRoute>, route: FamilyRoute): set<Family> {
    set f | f in routes && routes[f] == route
  }

  lemma {:induction false} EachAlone(l: Latch, fs: seq<Family>, ops: seq<BulkOp>, dbMax: map<Family, Key>)
    requires NoRepeats(fs)
    ensures var (l', routes) := EachClassified(l, fs, ops, dbMax);
            && l'.threshold == l.threshold
            && (forall f :: f in routes <==> f in fs)
            && (forall f :: f in fs ==> (SlotOf(l', f), routes[f]) == Alone(l, f, ops, dbMax))
            && (forall f :: f !in fs ==> SlotOf(l', f) == SlotOf(l, f))
  {
    hide FamilyClassified, Classify, Projected, Spanned, SlotOf, Lookup;
    if fs != [] {
      var init, f := fs[..|fs| - 1], fs[|fs| - 1];
      assert fs == init + [f] && f !in init;
      EachAlone(l, init, ops, dbMax);
      var l1 := EachClassified(l, init, ops, dbMax).0;
      MovedSlots(l1, f, Projected(ops, f), Spanned(ops, f), Lookup(dbMax, f));
      assert SlotOf(l1, f) == SlotOf(l, f);
    }
  }

  lemma RoutedToGrows(routes: map<Family, FamilyRoute>, f: Family, route: FamilyRoute)
    requires f !in routes
    ensures forall r :: |RoutedTo(routes[f := route], r)| == |RoutedTo(routes, r)| + if r == route then 1 else 0
  {
    assert RoutedTo(routes[f := route], route) == RoutedTo(routes, route) + {f};
    assert forall r :: r != route ==> RoutedTo(routes[f := route], r) == RoutedTo(routes, r);
  }

  lemma {:induction false} EachCounted(l: Latch, fs: seq<Family>, ops: seq<BulkOp>, dbMax: map<Family, Key>)
    requires NoRepeats(fs)
    ensures var (l', routes) := EachClassified(l, fs, ops, dbMax);
            && (forall f :: f in routes <==> f in fs)
            && l'.bulkBatches == l.bulkBatches + |RoutedTo(routes, Bulk)|
            && l'.ladderBatches == l.ladderBatches + |RoutedTo(routes, Ladder)|
  {
    if fs == [] {
      assert RoutedTo(map[], Bulk) == {} && RoutedTo(map[], Ladder) == {};
    } else {
      var init, f := fs[..|fs| - 1], fs[|fs| - 1];
      assert fs == init + [f] && f !in init;
      EachCounted(l, init, ops, dbMax);
      var routes1, routes := EachClassified(l, init, ops, dbMax).1, EachClassified(l, fs, ops, dbMax).1;
      RoutedToGrows(routes1, f, routes[f]);
    }
  }

  /** The families of `fs` that were alive in `l` and are dead in `l'`. */
  function NewlyDead(l: Latch, l': Latch, fs: seq<Family>): set<Family> {
    set f | f in fs && SlotOf(l', f).state.Dead? && !SlotOf(l, f).state.Dead?
  }

  lemma {:induction false} EachKilled(l: Latch, fs: seq<Family>, ops: seq<BulkOp>, dbMax: map<Family, Key>)
    requires NoRepeats(fs)
    ensures var l' := EachClassified(l, fs, ops, dbMax).0;
            l'.killed == l.killed + |NewlyDead(l, l', fs)|
  {
    if fs == [] {
      assert NewlyDead(l, l, fs) == {};
    } else {
      var init, f := fs[..|fs| - 1], fs[|fs| - 1];
      assert fs == init + [f] && f !in init;
      EachKilled(l, init, ops, dbMax);
      EachAlone(l, init, ops, dbMax);
      var l1, l' := EachClassified(l, init, ops, dbMax).0, EachClassified(l, fs, ops, dbMax).0;
      assert l' == FamilyClassified(l1, f, Projected(ops, f), Spanned(ops, f), Lookup(dbMax, f)).0;
      MovedSlots(l1, f, Projected(ops, f), Spanned(ops, f), Lookup(dbMax, f));
      assert SlotOf(l1, f) == SlotOf(l, f);
      hide EachClassified, Classify, Projected, Spanned, SlotOf, Lookup, NewlyDead;
      NewlyDeadGrows(l, l1, l', init, f);
    }
  }

  lemma NewlyDeadGrows(l: Latch, l1: Latch, l': Latch, init: seq<Family>, f: Family)
    requires f !in init && forall g :: g != f ==> SlotOf(l', g) == SlotOf(l1, g)
    ensures |NewlyDead(l, l', init + [f])| ==
            |NewlyDead(l, l1, init)| + if SlotOf(l', f).state.Dead? && !SlotOf(l, f).state.Dead? then 1 else 0
  {
    hide SlotOf;
    assert NewlyDead(l, l', init + [f]) ==
           NewlyDead(l, l1, init) + if SlotOf(l', f).state.Dead? && !SlotOf(l, f).state.Dead? then {f} else {};
  }

  /**
   A batch acts family by family: a named family takes the route and the slot that its own
   projected ops give it alone, any other family is untouched, and the counters add up.
   */
  lemma FamilyByFamily(l: Latch, ops: seq<BulkOp>, dbMax: map<Family, Key>)
    ensures var (l', routes) := BatchClassified(l, ops, dbMax);
            && l'.threshold == l.threshold
            && (forall f :: f in routes <==> Names(ops, f))
            && (forall f :: f in routes ==> (SlotOf(l', f), routes[f]) == Alone(l, f, ops, dbMax))
            && (forall f :: f !in routes ==> SlotOf(l', f) == SlotOf(l, f))
            && l'.bulkBatches == l.bulkBatches + |RoutedTo(routes, Bulk)|
            && l'.ladderBatches == l.ladderBatches + |RoutedTo(routes, Ladder)|
            && l'.killed == l.killed + |NewlyDead(l, l', FamiliesOf(ops))|
  {
    FamiliesDistinct(ops);
    EachKilled(l, FamiliesOf(ops), ops, dbMax);
    forall f ensures f in FamiliesOf(ops) <==> Names(ops, f) { FamiliesNamed(ops, f); }
    EachAlone(l, FamiliesOf(ops), ops, dbMax);
    EachCounted(l, FamiliesOf(ops), ops, dbMax);
  }

  // ---- What a batch hands to a family ---------------------------------

  /** The op names family `f`. */
  predicate Mentions(op: BulkOp, f: Family) {
    match op
    case Put(g, _) => g == f
    case Delete(g, _) => g == f
    case DeleteRange(g, _, h, _) => g == f || h == f
  }

  /** One key of an op, the family it belongs to, and whether it is put there. */
  datatype End = End(family: Family, key: Key, isPut: bool)

  /** The keys of an op: one for a put or a delete, both ends of a range. */
  function Ends(op: BulkOp): seq<End> {
    match op
    case Put(f, key) => [End(f, key, true)]
    case Delete(f, key) => [End(f, key, false)]
    case DeleteRange(f, start, g, end) => [End(f, start, false), End(g, end, false)]
  }

  function AllEnds(ops: seq<BulkOp>): seq<End> {
    if ops == [] then [] else AllEnds(ops[..|ops| - 1]) + Ends(ops[|ops| - 1])
  }

  /** Those of one family, in order. */
  function OfFamily(ends: seq<End>, f: Family): seq<FamilyOp> {
    if ends == [] then []
    else
      var last := ends[|ends| - 1];
      OfFamily(ends[..|ends| - 1], f) + if last.family == f then [FamilyOp(last.isPut, last.key)] else []
  }

  lemma OpEnds(ends: seq<End>, op: BulkOp, f: Family)
    ensures OfFamily(ends + Ends(op), f) == OfFamily(ends, f) + Contribution(op, f)
  {
    var all := ends + Ends(op);
    if op.DeleteRange? {
      assert all[..|all| - 1] == ends + [Ends(op)[0]];
      assert all[..|all| - 1][..|ends|] == ends;
    } else {
      assert all[..|all| - 1] == ends;
    }
  }

  /** A family sees exactly the put and delete keys and the range ends of the batch that are its own, in batch order. */
  lemma {:induction false} SliceSeenExactly(ops: seq<BulkOp>, f: Family)
    ensures Projected(ops, f) == OfFamily(AllEnds(ops), f)
  {
    if ops != [] {
      var init, op := ops[..|ops| - 1], ops[|ops| - 1];
      SliceSeenExactly(init, f);
      OpEnds(AllEnds(init), op, f);
      hide Contribution, Ends, OfFamily;
    }
  }

  lemma ProjectedNext(ops: seq<BulkOp>, f: Family, i: nat)
    requires i < |ops|
    ensures Projected(ops[..i + 1], f) == Projected(ops[..i], f) + Contribution(ops[i], f)
  {
    assert ops[..i + 1][..i] == ops[..i];
  }

  lemma MentionsContributes(op: BulkOp, f: Family)
    ensures Mentions(op, f) <==> Contribution(op, f) != []
    ensures forall j :: 0 <= j < |Contribution(op, f)| ==> (Contribution(op, f)[j].isPut <==> op.Put?)
  {}

  /** A family's slice is puts only exactly if every op that names it is a put. */
  lemma {:induction false} PutsSeenExactly(ops: seq<BulkOp>, f: Family)
    ensures AllPuts(Projected(ops, f)) <==> forall i :: 0 <= i < |ops| && Mentions(ops[i], f) ==> ops[i].Put?
  {
    if ops != [] {
      var n := |ops| - 1;
      var init, op := ops[..n], ops[n];
      PutsSeenExactly(init, f);
      MentionsContributes(op, f);
      var before, more, all := Projected(init, f), Contribution(op, f), Projected(ops, f);
      assert all == before + more;
      if AllPuts(all) {
        assert forall j :: 0 <= j < |before| ==> all[j] == before[j];
        assert more != [] ==> all[|before|] == more[0];
        forall i | 0 <= i < |ops| && Mentions(ops[i], f) ensures ops[i].Put? {
          if i < n { assert init[i] == ops[i]; }
        }
      }
      if forall i :: 0 <= i < |ops| && Mentions(ops[i], f) ==> ops[i].Put? {
        assert forall i :: 0 <= i < n ==> init[i] == ops[i];
      }
    }
  }

  /** A family is routed exactly if some op names it, and to bulk only if every op that names it is a put. */
  lemma BulkMeansPuts(l: Latch, ops: seq<BulkOp>, dbMax: map<Family, Key>, f: Family)
    ensures var routes := BatchClassified(l, ops, dbMax).1;
            && (f in routes <==> exists i :: 0 <= i < |ops| && Mentions(ops[i], f))
            && (f in routes && routes[f].Bulk? ==> forall i :: 0 <= i < |ops| && Mentions(ops[i], f) ==> ops[i].Put?)
  {
    hide BatchClassified, Projected, Contribution, Spanned, Names, SlotOf, Lookup;
    FamilyAlone(l, ops, dbMax, f);
    NamesMentions(ops, f);
    PutsSeenExactly(ops, f);
    if Alone(l, f, ops, dbMax).1.Bulk? { AloneBulkIsPuts(l, f, ops, dbMax); }
    hide Alone;
  }

  lemma NamesMentions(ops: seq<BulkOp>, f: Family)
    ensures Names(ops, f) <==> exists i :: 0 <= i < |ops| && Mentions(ops[i], f)
  {
    forall i | 0 <= i < |ops| ensures f in Touched(ops[i]) <==> Mentions(ops[i], f) {}
  }

  lemma AloneBulkIsPuts(l: Latch, f: Family, ops: seq<BulkOp>, dbMax: map<Family, Key>)
    requires Alone(l, f, ops, dbMax).1.Bulk?
    ensures AllPuts(Projected(ops, f)) && !Spanned(ops, f)
  {
    hide Projected, Spanned, SlotOf, Lookup, Broken, Distinct, Above, Ratchet;
  }

  /** `FamilyByFamily` for one family. */
  lemma FamilyAlone(l: Latch, ops: seq<BulkOp>, dbMax: map<Family, Key>, f: Family)
    ensures var (l', routes) := BatchClassified(l, ops, dbMax);
            && (f in routes <==> Names(ops, f))
            && (f in routes ==> (SlotOf(l', f), routes[f]) == Alone(l, f, ops, dbMax))
  {
    hide BatchClassified, Names, SlotOf, Alone, RoutedTo, NewlyDead;
    FamilyByFamily(l, ops, dbMax);
  }

  /** A range delete across families never kills: each living family it names goes to the ladder and keeps its latch. */
  lemma CrossRangeSpares(l: Latch, ops: seq<BulkOp>, dbMax: map<Family, Key>, f: Family, i: nat)
    requires i < |ops| && ops[i].DeleteRange? && ops[i].startFamily != ops[i].endFamily && Mentions(ops[i], f)
    requires !SlotOf(l, f).state.Dead?
    ensures var (l', routes) := BatchClassified(l, ops, dbMax);
            && f in routes && routes[f].Ladder?
            && SlotOf(l', f).state == if SlotOf(l, f).state.Latched? then Latched else Probing(0)
  {
    assert SpansFamilies(ops[i], f) && f in Touched(ops[i]);
    assert Spanned(ops, f) && Names(ops, f);
    hide BatchClassified, Projected, Spanned, Names, SlotOf, Lookup, Broken, Distinct, Above, Ratchet;
    FamilyAlone(l, ops, dbMax, f);
  }

  // ---- Runs of the whole latch ----------------------------------------

  datatype LatchEvent =
    | ClassifyBatch(ops: seq<BulkOp>, dbMax: map<Family, Key>)
    | ObserveSpan(family: Family, keys: seq<Key>)

  /** The latch after one call, and the routes it answered. */
  function LatchStep(l: Latch, e: LatchEvent): (Latch, map<Family, FamilyRoute>) {
    match e
    case ClassifyBatch(ops, dbMax) => BatchClassified(l, ops, dbMax)
    case ObserveSpan(f, keys) => var (l', route) := SpanObserved(l, f, keys); (l', map[f := route])
  }

  function LatchAfter(l: Latch, es: seq<LatchEvent>): Latch {
    if es == [] then l else LatchStep(LatchAfter(l, es[..|es| - 1]), es[|es| - 1]).0
  }

  /** How family `f` sees a call. */
  function SeenBy(e: LatchEvent, f: Family): seq<Event> {
    match e
    case ClassifyBatch(ops, dbMax) =>
      if f in FamiliesOf(ops) then [Batch(Projected(ops, f), Spanned(ops, f), Lookup(dbMax, f))] else []
    case ObserveSpan(g, keys) => if f == g then [Span(keys)] else []
  }

  function RunSeenBy(es: seq<LatchEvent>, f: Family): seq<Event> {
    if es == [] then [] else RunSeenBy(es[..|es| - 1], f) + SeenBy(es[|es| - 1], f)
  }

  /** One call is one slot step for each family that sees it. */
  lemma StepSeenBy(l: Latch, e: LatchEvent, f: Family)
    ensures var (l', routes) := LatchStep(l, e);
            && l'.threshold == l.threshold
            && (f in routes <==> SeenBy(e, f) != [])
            && (if f in routes then (SlotOf(l', f), routes[f]) == Step(l.threshold, SlotOf(l, f), SeenBy(e, f)[0])
                else SlotOf(l', f) == SlotOf(l, f))
  {
    hide Classify, SlotOf, Projected, Spanned, FamiliesOf, EachClassified, SpanObserved;
    match e
    case ClassifyBatch(ops, dbMax) =>
      FamiliesDistinct(ops);
      EachAlone(l, FamiliesOf(ops), ops, dbMax);
    case ObserveSpan(g, keys) => SpanSlots(l, g, keys);
  }

  lemma SpanSlots(l: Latch, f: Family, keys: seq<Key>)
    ensures var (l', route) := SpanObserved(l, f, keys);
            && l'.threshold == l.threshold
            && (SlotOf(l', f), route) == Step(l.threshold, SlotOf(l, f), Span(keys))
            && forall g :: g != f ==> SlotOf(l', g) == SlotOf(l, g)
  {
    MovedSlots(l, f, PutsOf(keys), false, None);
    hide FamilyClassified, Classify, ClearsMark, Raised;
  }

  /** The latch runs one independent slot per family. */
  lemma {:induction false} RunProjects(l: Latch, es: seq<LatchEvent>, f: Family)
    ensures LatchAfter(l, es).threshold == l.threshold
    ensures SlotOf(LatchAfter(l, es), f) == After(l.threshold, SlotOf(l, f), RunSeenBy(es, f))
  {
    if es != [] {
      var n := |es| - 1;
      RunProjects(l, es[..n], f);
      StepSeenBy(LatchAfter(l, es[..n]), es[n], f);
      SplitRun(l.threshold, SlotOf(l, f), RunSeenBy(es[..n], f), SeenBy(es[n], f));
    }
  }

  /** Appending at most one event to a slot's run is one step. */
  lemma SplitRun(threshold: nat, s: Slot, es: seq<Event>, more: seq<Event>)
    requires |more| <= 1
    ensures After(threshold, s, es + more) ==
            if more == [] then After(threshold, s, es) else Step(threshold, After(threshold, s, es), more[0]).0
    ensures BulkStream(threshold, s, es + more) ==
            BulkStream(threshold, s, es) +
            if more != [] && Step(threshold, After(threshold, s, es), more[0]).1.Bulk? then SortKeys(more[0].Keys()) else []
  {
    if more == [] {
      assert es + more == es;
    } else {
      assert (es + more)[..|es|] == es && (es + more)[|es|] == more[0];
    }
  }

  /** What the callers of the latch install for `f` as bulk runs: sorted keys, in call order. */
  ghost function Installed(l: Latch, es: seq<LatchEvent>, f: Family): seq<Key> {
    if es == [] then []
    else
      var e := es[|es| - 1];
      var routes := LatchStep(LatchAfter(l, es[..|es| - 1]), e).1;
      Installed(l, es[..|es| - 1], f) +
      if f in routes && routes[f].Bulk? && SeenBy(e, f) != [] then SortKeys(SeenBy(e, f)[0].Keys()) else []
  }

  /**
   Over every run of the latch, from any latch, the bulk keys installed for any one family are
   strictly ascending end to end: no merge is ever needed among its runs.
   */
  lemma {:induction false} InstalledAscends(l: Latch, es: seq<LatchEvent>, f: Family)
    ensures Installed(l, es, f) == BulkStream(l.threshold, SlotOf(l, f), RunSeenBy(es, f))
    ensures Ascending(Installed(l, es, f))
  {
    if es != [] {
      var n := |es| - 1;
      InstalledAscends(l, es[..n], f);
      RunProjects(l, es[..n], f);
      StepSeenBy(LatchAfter(l, es[..n]), es[n], f);
      SplitRun(l.threshold, SlotOf(l, f), RunSeenBy(es[..n], f), SeenBy(es[n], f));
    }
    BulkStreamAscends(l.threshold, SlotOf(l, f), RunSeenBy(es, f));
  }

  const EMPTY: Latch := Latch(BULK_LATCH_STREAK, map[], map[], 0, 0, 0)

  /** In a latch run from empty, a latched family has a mark, earned by eight admissible calls in a row that touch it. */
  lemma LatchedFamilyEarnedIt(es: seq<LatchEvent>, f: Family)
    requires SlotOf(LatchAfter(EMPTY, es), f).state.Latched?
    ensures f in LatchAfter(EMPTY, es).highWater
    ensures exists i: nat :: Streak(BULK_LATCH_STREAK, FRESH, RunSeenBy(es, f), i, BULK_LATCH_STREAK)
  {
    RunProjects(EMPTY, es, f);
    LatchedNeedsStreak(BULK_LATCH_STREAK, RunSeenBy(es, f));
    LatchedHasMark(BULK_LATCH_STREAK, RunSeenBy(es, f));
  }
}
