/**
 The sorted-ingest latch. Each column family is a three-state machine with a
 high-water key; the latch decides which batches may become new bottom-level
 runs without a merge.

 The deep facts are stated on one family's `Slot` over arbitrary runs; the latch
 itself is shown to run one such slot per family, and the class is shown to
 compute the latch.
 */
module LatchModel {
  import opened Wrappers
  import opened Bytes
  import opened KeyOrder

  const BULK_LATCH_STREAK: nat := 8
  const BULK_NEARLY_SORTED_WINDOW: nat := 8

  type Family = string

  datatype BulkOp =
    | Put(family: Family, key: Key)
    | Delete(family: Family, key: Key)
    | DeleteRange(startFamily: Family, start: Key, endFamily: Family, end: Key)

  /** One op as its family sees it. */
  datatype FamilyOp = FamilyOp(isPut: bool, key: Key)

  datatype FamilyRoute = Ladder | Bulk

  datatype FamilyState = Probing(streak: nat) | Latched | Dead

  datatype Verdict = Admissible | Ineligible | Kill

  /** What the latch knows about one family. */
  datatype Slot = Slot(state: FamilyState, water: Option<Key>)

  const FRESH: Slot := Slot(Probing(0), None)

  // ---- Judgement -------------------------------------------------------

  function KeysOf(ops: seq<FamilyOp>): (keys: seq<Key>)
    ensures |keys| == |ops| && forall i :: 0 <= i < |ops| ==> keys[i] == ops[i].key
  {
    seq(|ops|, i requires 0 <= i < |ops| => ops[i].key)
  }

  function PutsOf(keys: seq<Key>): (ops: seq<FamilyOp>)
    ensures |ops| == |keys| && forall i :: 0 <= i < |keys| ==> ops[i] == FamilyOp(true, keys[i])
  {
    seq(|keys|, i requires 0 <= i < |keys| => FamilyOp(true, keys[i]))
  }

  predicate AllPuts(ops: seq<FamilyOp>) {
    forall i :: 0 <= i < |ops| ==> ops[i].isPut
  }

  /** Adjacent descents. */
  function Inversions(ops: seq<FamilyOp>): nat {
    if |ops| < 2 then 0
    else Inversions(ops[..|ops| - 1]) + if Less(ops[|ops| - 1].key, ops[|ops| - 2].key) then 1 else 0
  }

  /** The scan stops at op `j`: an adjacent repeat, or one inversion too many. */
  predicate BreaksAt(ops: seq<FamilyOp>, j: nat) {
    0 < j < |ops| &&
    (ops[j].key == ops[j - 1].key || Inversions(ops[..j + 1]) > BULK_NEARLY_SORTED_WINDOW)
  }

  /** The scan is broken before it meets an op that is not a put. */
  predicate Broken(ops: seq<FamilyOp>) {
    exists j :: 0 <= j < |ops| && BreaksAt(ops, j) && AllPuts(ops[..j + 1])
  }

  predicate Above(bound: Option<Key>, keys: seq<Key>) {
    bound.Some? ==> forall i :: 0 <= i < |keys| ==> Less(bound.value, keys[i])
  }

  /** The bound a batch must clear: the high-water mark, or before any key was seen the stored maximum. */
  function Bound(water: Option<Key>, dbMax: Option<Key>): Option<Key> {
    if water.Some? then water else dbMax
  }

  function Judged(s: Slot, ops: seq<FamilyOp>, spanning: bool, dbMax: Option<Key>): Verdict {
    if s.state.Dead? || spanning then Ineligible
    else if Broken(ops) then Kill
    else if !AllPuts(ops) || ops == [] then Ineligible
    else if Distinct(KeysOf(ops)) && Above(Bound(s.water, dbMax), KeysOf(ops)) then Admissible
    else Kill
  }

  // ---- One family's transition ----------------------------------------

  /** The mark raised to one key. */
  function Raised(water: Option<Key>, key: Key): Key {
    if water.Some? && !Less(water.value, key) then water.value else key
  }

  /** The high-water mark after seeing `keys`. */
  function Ratchet(water: Option<Key>, keys: seq<Key>): Option<Key> {
    if keys == [] then water else Some(Raised(Ratchet(water, keys[..|keys| - 1]), keys[|keys| - 1]))
  }

  /** The mark is the greatest key ever shown to it. */
  lemma {:induction false} RatchetIsMaximum(water: Option<Key>, keys: seq<Key>)
    ensures Ratchet(water, keys) == water || (Ratchet(water, keys).Some? && Ratchet(water, keys).value in keys)
    ensures water.Some? ==> Ratchet(water, keys).Some? && AtMost(water.value, Ratchet(water, keys).value)
    ensures keys != [] ==> Ratchet(water, keys).Some?
    ensures forall k :: k in keys ==> Ratchet(water, keys).Some? && AtMost(k, Ratchet(water, keys).value)
  {
    if keys != [] {
      var init, key := keys[..|keys| - 1], keys[|keys| - 1];
      RatchetIsMaximum(water, init);
      RaisedFacts(Ratchet(water, init), key);
      hide Less, AtMost, Raised;
      var w, r := Ratchet(water, init), Ratchet(water, keys).value;
      forall k | k in keys ensures AtMost(k, r) {
        if k != key {
          assert k in init;
          AtMostTransitive(k, w.value, r);
        }
      }
      if water.Some? { AtMostTransitive(water.value, w.value, r); }
    }
  }

  lemma RaisedFacts(water: Option<Key>, key: Key)
    ensures AtMost(key, Raised(water, key)) && (Raised(water, key) == key || water == Some(Raised(water, key)))
    ensures water.Some? ==> AtMost(water.value, Raised(water, key))
  {
    if water.Some? && Less(water.value, key) && Less(key, water.value) { Transitive(key, water.value, key); }
  }

  function Promoted(threshold: nat, state: FamilyState): FamilyState {
    match state
    case Probing(streak) => if streak + 1 >= threshold then Latched else Probing(streak + 1)
    case _ => state
  }

  /** Where a verdict takes a living family, and how it routes the batch. */
  function Settled(threshold: nat, state: FamilyState, verdict: Verdict): (FamilyState, FamilyRoute) {
    match verdict
    case Admissible =>
      var next := Promoted(threshold, state);
      (next, if next.Latched? then Bulk else Ladder)
    case Ineligible => (if state.Latched? then Latched else Probing(0), Ladder)
    case Kill => (Dead, Ladder)
  }

  function Classify(threshold: nat, s: Slot, ops: seq<FamilyOp>, spanning: bool, dbMax: Option<Key>)
    : (Slot, FamilyRoute)
  {
    if s.state.Dead? then (s, Ladder)
    else
      var (state, route) := Settled(threshold, s.state, Judged(s, ops, spanning, dbMax));
      (Slot(state, Ratchet(s.water, KeysOf(ops))), route)
  }

  /** What can happen to a family: a batch names it, or a latched span is observed. */
  datatype Event =
    | Batch(ops: seq<FamilyOp>, spanning: bool, dbMax: Option<Key>)
    | Span(keys: seq<Key>)
  {
    function Keys(): seq<Key> {
      match this
      case Batch(ops, _, _) => KeysOf(ops)
      case Span(keys) => keys
    }
  }

  /** The span ascends from above the mark. */
  predicate ClearsMark(water: Option<Key>, keys: seq<Key>)
    requires keys != []
  {
    Ascending(keys) && (water.Some? ==> Less(water.value, keys[0]))
  }

  /** A span that clears a latched family's mark takes the short way: only its last key is ratcheted. */
  function Step(threshold: nat, s: Slot, e: Event): (Slot, FamilyRoute) {
    match e
    case Batch(ops, spanning, dbMax) => Classify(threshold, s, ops, spanning, dbMax)
    case Span(keys) =>
      if !s.state.Latched? then Classify(threshold, s, PutsOf(keys), false, None)
      else if keys == [] then (s, Bulk)
      else if ClearsMark(s.water, keys) then (s.(water := Some(Raised(s.water, keys[|keys| - 1]))), Bulk)
      else Classify(threshold, s, PutsOf(keys), false, None)
  }

  function After(threshold: nat, s: Slot, es: seq<Event>): Slot {
    if es == [] then s else Step(threshold, After(threshold, s, es[..|es| - 1]), es[|es| - 1]).0
  }

  function RouteAt(threshold: nat, s: Slot, es: seq<Event>, i: nat): FamilyRoute
    requires i < |es|
  {
    Step(threshold, After(threshold, s, es[..i]), es[i]).1
  }

  // ---- Sorted and nearly sorted batches -------------------------------

  lemma {:induction false} NoInversionRises(ops: seq<FamilyOp>, i: nat)
    requires Inversions(ops) == 0 && 0 < i < |ops|
    ensures AtMost(ops[i - 1].key, ops[i].key)
  {
    if i < |ops| - 1 { NoInversionRises(ops[..|ops| - 1], i); }
  }

  lemma NoInversionAscends(ops: seq<FamilyOp>)
    requires Inversions(ops) == 0 && forall i :: 0 < i < |ops| ==> ops[i].key != ops[i - 1].key
    ensures Ascending(KeysOf(ops)) && Distinct(KeysOf(ops))
  {
    var keys := KeysOf(ops);
    forall k | 0 <= k < |keys| - 1 ensures Less(keys[k], keys[k + 1]) {
      NoInversionRises(ops, k + 1);
      Trichotomy(keys[k], keys[k + 1]);
      assert ops[k + 1].key != ops[k].key;
    }
    forall i, j | 0 <= i < j < |keys| ensures Less(keys[i], keys[j]) { NeighboursAscend(keys, i, j); }
  }

  lemma {:induction false} AscendingHasNoInversion(ops: seq<FamilyOp>)
    requires Ascending(KeysOf(ops))
    ensures Inversions(ops) == 0
  {
    LessIsTotalOrder();
    if |ops| >= 2 {
      var n := |ops| - 1;
      assert KeysOf(ops[..n]) == KeysOf(ops)[..n];
      AscendingHasNoInversion(ops[..n]);
      assert Less(KeysOf(ops)[n - 1], KeysOf(ops)[n]);
    }
  }

  lemma AscendingIsDistinct(keys: seq<Key>)
    requires Ascending(keys)
    ensures Distinct(keys)
  {
    forall i, j | 0 <= i < j < |keys| ensures keys[i] != keys[j] { assert Less(keys[i], keys[j]); }
  }

  lemma {:induction false} AscendingRatchet(water: Option<Key>, keys: seq<Key>)
    requires keys != [] && Ascending(keys) && Above(water, keys)
    ensures Ratchet(water, keys) == Some(keys[|keys| - 1])
  {
    LessIsTotalOrder();
    if |keys| > 1 {
      AscendingRatchet(water, keys[..|keys| - 1]);
    } else {
      assert keys[..0] == [];
    }
  }

  /**
   The short way decides like the long one: for a latched family, an ascending span above the
   mark is an admissible batch, routes bulk, and ratchets the mark exactly to its last key.
   */
  lemma FastPathRefines(threshold: nat, s: Slot, keys: seq<Key>, dbMax: Option<Key>)
    requires s.state.Latched? && keys != [] && Ascending(keys) && Above(s.water, keys)
    requires s.water.Some? || dbMax.None?
    ensures Classify(threshold, s, PutsOf(keys), false, dbMax) == (Slot(Latched, Some(keys[|keys| - 1])), Bulk)
  {
    var ops := PutsOf(keys);
    assert KeysOf(ops) == keys;
    AscendingHasNoInversion(ops);
    AscendingIsDistinct(keys);
    hide Less, Inversions, Broken, Ratchet;
    BrokenExactly(ops);
    AscendingRatchet(s.water, keys);
  }

  /** Observing a span is classifying its puts, with one exception: a latched family's empty span answers bulk. */
  lemma SpanTakesSlowPath(threshold: nat, s: Slot, keys: seq<Key>)
    ensures Step(threshold, s, Span(keys)) == Classify(threshold, s, PutsOf(keys), false, None) <==>
            keys != [] || !s.state.Latched?
  {
    if s.state.Latched? && keys != [] && ClearsMark(s.water, keys) {
      LessIsTotalOrder();
      FastPathRefines(threshold, s, keys, None);
    }
  }

  lemma {:induction false} InversionsGrow(ops: seq<FamilyOp>, j: nat)
    requires j <= |ops|
    ensures Inversions(ops[..j]) <= Inversions(ops)
  {
    if j < |ops| {
      InversionsGrow(ops[..|ops| - 1], j);
      assert ops[..|ops| - 1][..j] == ops[..j];
    } else {
      assert ops[..j] == ops;
    }
  }

  /** Among puts with distinct keys the scan breaks exactly at one inversion too many. */
  lemma BrokenExactly(ops: seq<FamilyOp>)
    requires AllPuts(ops) && Distinct(KeysOf(ops))
    ensures Broken(ops) <==> Inversions(ops) > BULK_NEARLY_SORTED_WINDOW
  {
    var n, keys := |ops| - 1, KeysOf(ops);
    assert Inversions(ops) > 0 ==> n > 0;
    hide Less, Inversions;
    if j :| 0 <= j < |ops| && BreaksAt(ops, j) && AllPuts(ops[..j + 1]) {
      assert keys[j - 1] != keys[j];
      InversionsGrow(ops, j + 1);
    }
    if Inversions(ops) > BULK_NEARLY_SORTED_WINDOW {
      assert ops[..n + 1] == ops;
      assert BreaksAt(ops, n);
    }
  }

  /** How many puts lead the slice. */
  function LeadingPuts(ops: seq<FamilyOp>, i: nat): (k: nat)
    requires i <= |ops|
    ensures i <= k <= |ops| && (forall j :: i <= j < k ==> ops[j].isPut) && (k < |ops| ==> !ops[k].isPut)
    decreases |ops| - i
  {
    if i < |ops| && ops[i].isPut then LeadingPuts(ops, i + 1) else i
  }

  /** Two neighbours are equal, or there are too many descents. */
  predicate Tangled(ops: seq<FamilyOp>) {
    (exists i :: 0 < i < |ops| && ops[i].key == ops[i - 1].key) || Inversions(ops) > BULK_NEARLY_SORTED_WINDOW
  }

  lemma PutsUpTo(ops: seq<FamilyOp>, j: nat)
    requires j < |ops| && AllPuts(ops[..j + 1])
    ensures forall i :: 0 <= i <= j ==> ops[i].isPut
  {
    forall i | 0 <= i <= j ensures ops[i].isPut { assert ops[..j + 1][i] == ops[i]; }
  }

  /** The scan breaks exactly if the puts in front of the first other op are tangled. */
  lemma BrokenInFront(ops: seq<FamilyOp>)
    ensures Broken(ops) <==> Tangled(ops[..LeadingPuts(ops, 0)])
  {
    var k := LeadingPuts(ops, 0);
    var front := ops[..k];
    assert Inversions(front) > 0 ==> k > 1;
    hide Less, Inversions, LeadingPuts;
    if j :| 0 <= j < |ops| && BreaksAt(ops, j) && AllPuts(ops[..j + 1]) {
      PutsUpTo(ops, j);
      assert front[j] == ops[j] && front[j - 1] == ops[j - 1] && front[..j + 1] == ops[..j + 1];
      InversionsGrow(front, j + 1);
    }
    if i :| 0 < i < |front| && front[i].key == front[i - 1].key {
      assert BreaksAt(ops, i) && AllPuts(ops[..i + 1]);
    }
    if Inversions(front) > BULK_NEARLY_SORTED_WINDOW {
      assert ops[..k - 1 + 1] == front;
      assert BreaksAt(ops, k - 1) && AllPuts(ops[..k - 1 + 1]);
    }
  }

  /**
   When exactly a living family dies of a batch: it is not spanned, and either its leading puts are
   tangled, or it is puts only and repeats a key or reaches down to its mark, or before any mark to the
   stored maximum.
   */
  lemma DiesExactly(threshold: nat, s: Slot, ops: seq<FamilyOp>, spanning: bool, dbMax: Option<Key>)
    requires !s.state.Dead?
    ensures Classify(threshold, s, ops, spanning, dbMax).0.state.Dead? <==>
            && !spanning
            && (|| Tangled(ops[..LeadingPuts(ops, 0)])
                || (AllPuts(ops) && (!Distinct(KeysOf(ops)) || ReachesDown(Bound(s.water, dbMax), ops))))
  {
    BrokenInFront(ops);
    ReachesDownExactly(Bound(s.water, dbMax), ops);
    hide Broken, Tangled, LeadingPuts, Less, Ratchet, ReachesDown, Above;
  }

  /** Some op is at or below the bound. */
  predicate ReachesDown(bound: Option<Key>, ops: seq<FamilyOp>) {
    bound.Some? && exists i :: 0 <= i < |ops| && AtMost(ops[i].key, bound.value)
  }

  lemma ReachesDownExactly(bound: Option<Key>, ops: seq<FamilyOp>)
    ensures ReachesDown(bound, ops) <==> !Above(bound, KeysOf(ops))
    ensures ReachesDown(bound, ops) ==> ops != []
  {
    hide Less;
    if bound.Some? && exists i :: 0 <= i < |ops| && AtMost(ops[i].key, bound.value) {
      var i :| 0 <= i < |ops| && AtMost(ops[i].key, bound.value);
      assert KeysOf(ops)[i] == ops[i].key;
    }
  }

  /** For a latched family a batch goes to bulk exactly if it is puts only, distinct, above the mark, with few inversions. */
  lemma LatchedBulkExactly(threshold: nat, s: Slot, ops: seq<FamilyOp>, spanning: bool, dbMax: Option<Key>)
    requires s.state.Latched? && ops != []
    ensures Classify(threshold, s, ops, spanning, dbMax).1.Bulk? <==>
            && !spanning && AllPuts(ops) && Distinct(KeysOf(ops)) && Above(Bound(s.water, dbMax), KeysOf(ops))
            && Inversions(ops) <= 8
  {
    if AllPuts(ops) && Distinct(KeysOf(ops)) { BrokenExactly(ops); }
  }

  /** An admissible batch is strictly ascending exactly if it has no inversion. */
  lemma AdmissibleAscendsExactly(s: Slot, ops: seq<FamilyOp>, spanning: bool, dbMax: Option<Key>)
    requires Judged(s, ops, spanning, dbMax).Admissible?
    ensures Ascending(KeysOf(ops)) <==> Inversions(ops) == 0
  {
    if Ascending(KeysOf(ops)) { AscendingHasNoInversion(ops); }
    if Inversions(ops) == 0 {
      forall i | 0 < i < |ops| ensures ops[i].key != ops[i - 1].key { assert KeysOf(ops)[i] != KeysOf(ops)[i - 1]; }
      NoInversionAscends(ops);
    }
  }

  /** A batch of one put. */
  function OnePut(b: Byte): Event {
    Batch([FamilyOp(true, [b])], false, None)
  }

  lemma OnePutStep(s: Slot, b: Byte)
    requires s.state.Probing? && s.state.streak + 1 < BULK_LATCH_STREAK && Above(s.water, [[b]])
    ensures Step(BULK_LATCH_STREAK, s, OnePut(b)).0 == Slot(Probing(s.state.streak + 1), Some([b]))
  {
    var keys: seq<Key> := [[b]];
    assert KeysOf(OnePut(b).ops) == keys && keys[..0] == [];
    assert Ratchet(s.water, keys) == Some(keys[0]);
    assert Judged(s, OnePut(b).ops, false, None).Admissible?;
  }

  lemma {:induction false} ClimbingPuts(n: nat)
    requires n < BULK_LATCH_STREAK
    ensures var es := seq(n, i requires 0 <= i < n => OnePut(i + 1));
            var s := After(BULK_LATCH_STREAK, FRESH, es);
            s.state == Probing(n) && (if n == 0 then s.water == None else s.water == Some([n]))
  {
    var es := seq(n, i requires 0 <= i < n => OnePut(i + 1));
    hide Step;
    if n > 0 {
      ClimbingPuts(n - 1);
      assert es[..n - 1] == seq(n - 1, i requires 0 <= i < n - 1 => OnePut(i + 1));
      if n > 1 { OneByteLess([n - 1], [n]); }
      OnePutStep(After(BULK_LATCH_STREAK, FRESH, es[..n - 1]), n);
    }
  }

  /** Bulk batches need not be sorted: after seven climbing puts, the eighth batch latches the family out of order. */
  lemma UnsortedBulkHappens() returns (es: seq<Event>)
    ensures |es| == BULK_LATCH_STREAK && RouteAt(BULK_LATCH_STREAK, FRESH, es, 7).Bulk?
    ensures es[7].Keys() == [[9], [8]] && !Ascending(es[7].Keys())
  {
    var start := seq(7, i requires 0 <= i < 7 => OnePut(i + 1));
    var ops := [FamilyOp(true, [9]), FamilyOp(true, [8])];
    es := start + [Batch(ops, false, None)];
    ClimbingPuts(7);
    assert es[..7] == start;
    OneByteLess([7], [8]);
    OneByteLess([7], [9]);
    OneByteLess([9], [8]);
    var s := After(BULK_LATCH_STREAK, FRESH, start);
    assert KeysOf(ops) == [[9], [8]];
    BrokenExactly(ops);
    assert Judged(s, ops, false, None).Admissible?;
    assert es[7].Keys()[0] == [9] && es[7].Keys()[1] == [8];
  }

  // ---- What one step does ---------------------------------------------

  /** The event is an admissible batch for the slot. */
  predicate Admits(s: Slot, e: Event) {
    match e
    case Batch(ops, spanning, dbMax) => Judged(s, ops, spanning, dbMax).Admissible?
    case Span(keys) => Judged(s, PutsOf(keys), false, None).Admissible?
  }

  /** An admissible event has distinct keys above the mark and promotes; any other one only restarts or kills. */
  lemma StepFacts(threshold: nat, s: Slot, e: Event)
    ensures var (s', route) := Step(threshold, s, e);
            && (s.state.Dead? ==> s' == s && route.Ladder? && !Admits(s, e))
            && (!s.state.Dead? ==> s'.water == Ratchet(s.water, e.Keys()))
            && (Admits(s, e) ==>
                  && e.Keys() != [] && Distinct(e.Keys()) && Above(s.water, e.Keys())
                  && s'.state == Promoted(threshold, s.state)
                  && route == if s'.state.Latched? then Bulk else Ladder)
            && (!Admits(s, e) ==>
                  && (s'.state.Dead? || s'.state == if s.state.Latched? then Latched else Probing(0))
                  && (route.Bulk? ==> e.Keys() == []))
  {
    if e.Span? {
      assert KeysOf(PutsOf(e.keys)) == e.keys;
      SpanTakesSlowPath(threshold, s, e.keys);
      hide Step, Judged;
      assert Step(threshold, s, e) == Classify(threshold, s, PutsOf(e.keys), false, None) || e.keys == [];
    }
  }

  lemma {:induction false} DeadForever(threshold: nat, s: Slot, es: seq<Event>, i: nat)
    requires i <= |es| && After(threshold, s, es[..i]).state.Dead?
    ensures After(threshold, s, es).state.Dead?
    ensures forall j :: i <= j < |es| ==> RouteAt(threshold, s, es, j).Ladder?
  {
    if i < |es| {
      var init := es[..|es| - 1];
      assert init[..i] == es[..i];
      DeadForever(threshold, s, init, i);
      forall j | i <= j < |es| ensures RouteAt(threshold, s, es, j).Ladder? {
        if j < |es| - 1 {
          assert init[..j] == es[..j];
          assert RouteAt(threshold, s, init, j).Ladder?;
        } else {
          assert es[..j] == init;
        }
      }
    } else {
      assert es[..i] == es;
    }
  }

  /** While the family lives, its mark covers every key of the run. */
  lemma {:induction false} MarkCoversHistory(threshold: nat, s: Slot, es: seq<Event>, i: nat, k: Key)
    requires i < |es| && k in es[i].Keys() && !After(threshold, s, es).state.Dead?
    ensures After(threshold, s, es).water.Some? && AtMost(k, After(threshold, s, es).water.value)
  {
    LessIsTotalOrder();
    var init, last := es[..|es| - 1], es[|es| - 1];
    var before := After(threshold, s, init);
    StepFacts(threshold, before, last);
    RatchetIsMaximum(before.water, last.Keys());
    if i < |es| - 1 {
      assert init[i] == es[i];
      MarkCoversHistory(threshold, s, init, i, k);
    }
  }

  /**
   Whole-run safety: from any slot, a bulk batch with keys has distinct keys, all strictly
   above every key observed before it on whatever route.
   */
  lemma BulkAboveHistory(threshold: nat, s: Slot, es: seq<Event>, i: nat)
    requires i < |es| && RouteAt(threshold, s, es, i).Bulk? && es[i].Keys() != []
    ensures Distinct(es[i].Keys())
    ensures forall j, k, k' :: 0 <= j < i && k in es[j].Keys() && k' in es[i].Keys() ==> Less(k, k')
  {
    LessIsTotalOrder();
    var past := es[..i];
    StepFacts(threshold, After(threshold, s, past), es[i]);
    forall j, k, k' | 0 <= j < i && k in es[j].Keys() && k' in es[i].Keys() ensures Less(k, k') {
      assert past[j] == es[j];
      MarkCoversHistory(threshold, s, past, j, k);
    }
  }

  /** The keys a family hands to the bulk path over a run, each batch sorted. */
  ghost function BulkStream(threshold: nat, s: Slot, es: seq<Event>): seq<Key> {
    if es == [] then []
    else
      BulkStream(threshold, s, es[..|es| - 1]) +
      if RouteAt(threshold, s, es, |es| - 1).Bulk? then SortKeys(es[|es| - 1].Keys()) else []
  }

  lemma {:induction false} StreamWasObserved(threshold: nat, s: Slot, es: seq<Event>, k: Key)
    requires k in BulkStream(threshold, s, es)
    ensures exists j :: 0 <= j < |es| && k in es[j].Keys()
  {
    var init, last := es[..|es| - 1], es[|es| - 1];
    if k in BulkStream(threshold, s, init) {
      StreamWasObserved(threshold, s, init, k);
      var j :| 0 <= j < |init| && k in init[j].Keys();
      assert es[j] == init[j];
    } else {
      SameMembers(SortKeys(last.Keys()), last.Keys());
    }
  }

  /** The runs a family's bulk batches are installed as, laid end to end, ascend strictly. */
  lemma {:induction false} BulkStreamAscends(threshold: nat, s: Slot, es: seq<Event>)
    ensures Ascending(BulkStream(threshold, s, es))
  {
    if es != [] {
      var n := |es| - 1;
      var init, last := es[..n], es[n];
      BulkStreamAscends(threshold, s, init);
      if RouteAt(threshold, s, es, n).Bulk? && last.Keys() != [] {
        BulkAboveHistory(threshold, s, es, n);
        DistinctSortAscends(last.Keys());
        var head, tail := BulkStream(threshold, s, init), SortKeys(last.Keys());
        forall a, b | a in head && b in tail ensures Less(a, b) {
          StreamWasObserved(threshold, s, init, a);
          var j :| 0 <= j < |init| && a in init[j].Keys();
          assert es[j] == init[j];
        }
      }
    }
  }

  // ---- How a family becomes latched -----------------------------------

  ghost predicate AdmissibleAt(threshold: nat, s: Slot, es: seq<Event>, i: nat)
    requires i < |es|
  {
    Admits(After(threshold, s, es[..i]), es[i])
  }

  /** The `n` events from `lo` on were all admissible. */
  ghost predicate Streak(threshold: nat, s: Slot, es: seq<Event>, lo: nat, n: nat) {
    lo + n <= |es| && forall j :: lo <= j < lo + n ==> AdmissibleAt(threshold, s, es, j)
  }

  lemma StreakExtends(threshold: nat, s: Slot, es: seq<Event>, lo: nat, n: nat)
    requires |es| > 0 && Streak(threshold, s, es[..|es| - 1], lo, n)
    ensures Streak(threshold, s, es, lo, n)
  {
    var init := es[..|es| - 1];
    forall j | lo <= j < lo + n ensures AdmissibleAt(threshold, s, es, j) {
      assert init[..j] == es[..j] && init[j] == es[j];
      assert AdmissibleAt(threshold, s, init, j);
    }
  }

  /** What a fresh family's state says about its run `es`. */
  ghost predicate StreakFacts(threshold: nat, es: seq<Event>, state: FamilyState) {
    match state
    case Probing(streak) => streak < threshold && streak <= |es| && Streak(threshold, FRESH, es, |es| - streak, streak)
    case Latched => exists i: nat :: Streak(threshold, FRESH, es, i, threshold)
    case Dead => true
  }

  lemma StreakStep(threshold: nat, es: seq<Event>, before: FamilyState, after: FamilyState)
    requires es != [] && StreakFacts(threshold, es[..|es| - 1], before)
    requires after.Dead? || after == if AdmissibleAt(threshold, FRESH, es, |es| - 1) then Promoted(threshold, before)
                                     else if before.Latched? then Latched else Probing(0)
    requires threshold >= 1 && (before.Dead? ==> after.Dead?)
    ensures StreakFacts(threshold, es, after)
  {
    var n := |es| - 1;
    if before.Probing? && AdmissibleAt(threshold, FRESH, es, n) {
      StreakExtends(threshold, FRESH, es, n - before.streak, before.streak);
      assert Streak(threshold, FRESH, es, n - before.streak, before.streak + 1);
    } else if before.Latched? {
      var i: nat :| Streak(threshold, FRESH, es[..n], i, threshold);
      StreakExtends(threshold, FRESH, es, i, threshold);
    }
  }

  /**
   A fresh family is latched only if `threshold` consecutive events were all admissible, and a
   probing family's streak counts its latest events, all of them admissible.
   */
  lemma {:induction false} LatchedNeedsStreak(threshold: nat, es: seq<Event>)
    requires threshold >= 1
    ensures StreakFacts(threshold, es, After(threshold, FRESH, es).state)
  {
    if es != [] {
      var n := |es| - 1;
      var before := After(threshold, FRESH, es[..n]);
      LatchedNeedsStreak(threshold, es[..n]);
      StepFacts(threshold, before, es[n]);
      StreakStep(threshold, es, before.state, After(threshold, FRESH, es).state);
    }
  }

  /** A latched family has seen a key. */
  lemma {:induction false} LatchedHasMark(threshold: nat, es: seq<Event>)
    ensures After(threshold, FRESH, es).state.Latched? ==> After(threshold, FRESH, es).water.Some?
  {
    if es != [] {
      var n := |es| - 1;
      var before := After(threshold, FRESH, es[..n]);
      LatchedHasMark(threshold, es[..n]);
      StepFacts(threshold, before, es[n]);
      RatchetIsMaximum(before.water, es[n].Keys());
    }
  }

  // ---- The pre-existing maximum ---------------------------------------

  /** Some bulk batch of the run carries a key at or below `m`. */
  ghost predicate Undercuts(threshold: nat, s: Slot, es: seq<Event>, m: Key) {
    exists i: nat :: i < |es| && RouteAt(threshold, s, es, i).Bulk? && Reaches(es[i].Keys(), m)
  }

  ghost predicate Reaches(keys: seq<Key>, m: Key) {
    exists k :: k in keys && AtMost(k, m)
  }

  /** How many admissible batches before (and including) the next bulk one. */
  function Needed(threshold: nat, state: FamilyState): nat {
    if state.Probing? && state.streak + 1 < threshold then threshold - state.streak else 1
  }

  /** `keys` climb strictly from above `w` to at most `m`. */
  predicate Climbs(keys: seq<Key>, w: Key, m: Key) {
    Ascending(keys) && forall i :: 0 <= i < |keys| ==> Less(w, keys[i]) && AtMost(keys[i], m)
  }

  /** There are `n` keys above `w` and at most `m`. */
  ghost predicate Room(w: Key, m: Key, n: nat) {
    exists keys :: |keys| == n && Climbs(keys, w, m)
  }

  lemma RoomShrinks(w: Key, w': Key, m: Key, n: nat, n': nat)
    requires Room(w', m, n') && AtMost(w, w') && n <= n'
    ensures Room(w, m, n)
  {
    LessIsTotalOrder();
    var keys :| |keys| == n' && Climbs(keys, w', m);
    assert Climbs(keys[..n], w, m);
  }

  lemma RoomGrows(w: Key, k: Key, w': Key, m: Key, n: nat)
    requires Less(w, k) && AtMost(k, w') && AtMost(k, m) && Room(w', m, n)
    ensures Room(w, m, n + 1)
  {
    LessIsTotalOrder();
    var keys :| |keys| == n && Climbs(keys, w', m);
    assert Climbs([k] + keys, w, m);
  }

  /** A run may be read from its first event on. */
  lemma {:induction false} RunFromFirst(threshold: nat, s: Slot, e: Event, es: seq<Event>)
    ensures After(threshold, s, [e] + es) == After(threshold, Step(threshold, s, e).0, es)
    ensures RouteAt(threshold, s, [e] + es, 0) == Step(threshold, s, e).1
    ensures forall i :: 0 <= i < |es| ==>
              RouteAt(threshold, s, [e] + es, i + 1) == RouteAt(threshold, Step(threshold, s, e).0, es, i)
    decreases |es|
  {
    assert ([e] + es)[..0] == [];
    if es == [] {
      assert [e] + es == [e];
    } else {
      var init := es[..|es| - 1];
      assert ([e] + es)[..|es|] == [e] + init;
      RunFromFirst(threshold, s, e, init);
      forall i | 0 <= i < |es|
        ensures RouteAt(threshold, s, [e] + es, i + 1) == RouteAt(threshold, Step(threshold, s, e).0, es, i)
      {
        if i < |init| {
          assert ([e] + es)[..i + 1] == ([e] + init)[..i + 1];
          assert es[..i] == init[..i];
          assert RouteAt(threshold, s, [e] + init, i + 1) == RouteAt(threshold, Step(threshold, s, e).0, init, i);
        }
      }
    }
  }

  lemma UndercutsFromFirst(threshold: nat, s: Slot, e: Event, es: seq<Event>, m: Key)
    ensures Undercuts(threshold, s, [e] + es, m) <==>
            (Step(threshold, s, e).1.Bulk? && Reaches(e.Keys(), m)) ||
            Undercuts(threshold, Step(threshold, s, e).0, es, m)
  {
    RunFromFirst(threshold, s, e, es);
    var run, s' := [e] + es, Step(threshold, s, e).0;
    if i: nat :| i < |run| && RouteAt(threshold, s, run, i).Bulk? && Reaches(run[i].Keys(), m) {
      if i > 0 { assert RouteAt(threshold, s', es, i - 1).Bulk? && run[i] == es[i - 1]; }
    }
    if i: nat :| i < |es| && RouteAt(threshold, s', es, i).Bulk? && Reaches(es[i].Keys(), m) {
      assert RouteAt(threshold, s, run, i + 1).Bulk? && run[i + 1] == es[i];
    }
    assert run[0] == e;
  }

  lemma {:induction false} UndercutNeedsRoom(threshold: nat, s: Slot, es: seq<Event>, m: Key)
    requires s.water.Some? && Undercuts(threshold, s, es, m)
    ensures !s.state.Dead? && Room(s.water.value, m, Needed(threshold, s.state))
    decreases |es|
  {
    LessIsTotalOrder();
    var e, rest, w := es[0], es[1..], s.water.value;
    assert es == [e] + rest;
    UndercutsFromFirst(threshold, s, e, rest, m);
    StepFacts(threshold, s, e);
    RatchetIsMaximum(s.water, e.Keys());
    var (s', route) := Step(threshold, s, e);
    if route.Bulk? && Reaches(e.Keys(), m) {
      var k :| k in e.Keys() && AtMost(k, m);
      assert Climbs([k], w, m);
    } else {
      UndercutNeedsRoom(threshold, s', rest, m);
      RoomCarriesBack(threshold, s, s', e, m);
    }
  }

  /** Room after a step was room before it, with one key more for each admissible batch still to come. */
  lemma RoomCarriesBack(threshold: nat, s: Slot, s': Slot, e: Event, m: Key)
    requires s.water.Some? && s' == Step(threshold, s, e).0 && !s'.state.Dead?
    requires s'.water.Some? && Room(s'.water.value, m, Needed(threshold, s'.state))
    ensures Room(s.water.value, m, Needed(threshold, s.state))
  {
    LessIsTotalOrder();
    StepFacts(threshold, s, e);
    RatchetIsMaximum(s.water, e.Keys());
    var w, w', n, n' := s.water.value, s'.water.value, Needed(threshold, s.state), Needed(threshold, s'.state);
    if n <= n' {
      RoomShrinks(w, w', m, n, n');
    } else {
      var keys :| |keys| == n' && Climbs(keys, w', m);
      var k := e.Keys()[0];
      assert k in e.Keys() && AtMost(k, w') && Less(w', keys[0]) && AtMost(keys[0], m);
      RoomGrows(w, k, w', m, n');
    }
  }

  lemma {:induction false} RoomUndercuts(threshold: nat, s: Slot, keys: seq<Key>, m: Key) returns (es: seq<Event>)
    requires s.water.Some? && !s.state.Dead? && |keys| == Needed(threshold, s.state)
    requires Climbs(keys, s.water.value, m)
    ensures Undercuts(threshold, s, es, m)
    decreases |keys|
  {
    var e := Batch([FamilyOp(true, keys[0])], false, None);
    assert e.Keys() == [keys[0]];
    var (s', route) := Step(threshold, s, e);
    assert Judged(s, e.ops, false, None).Admissible?;
    var one := [keys[0]];
    assert Ratchet(s.water, one) == Some(keys[0]) by {
      assert one[..0] == [];
    }
    if route.Bulk? {
      es := [];
      assert keys[0] in e.Keys();
    } else {
      es := RoomUndercuts(threshold, s', keys[1..], m);
    }
    UndercutsFromFirst(threshold, s, e, es, m);
    es := [e] + es;
  }

  /** A slot past its first key can send a key at or below `m` to bulk exactly when room is left for it. */
  lemma UndercutExact(threshold: nat, s: Slot, m: Key)
    requires s.water.Some?
    ensures (exists es :: Undercuts(threshold, s, es, m)) <==>
            !s.state.Dead? && Room(s.water.value, m, Needed(threshold, s.state))
  {
    if es :| Undercuts(threshold, s, es, m) {
      UndercutNeedsRoom(threshold, s, es, m);
    }
    if !s.state.Dead? && Room(s.water.value, m, Needed(threshold, s.state)) {
      var keys :| |keys| == Needed(threshold, s.state) && Climbs(keys, s.water.value, m);
      var es := RoomUndercuts(threshold, s, keys, m);
    }
  }

  // ---- How much room there is -----------------------------------------

  /** `w` is below `m`, and `m` is not `w` followed by fewer than `n` zero bytes. */
  predicate KeysBetween(w: Key, m: Key, n: nat) {
    Less(w, m) && forall j :: 0 <= j < n ==> m != w + Zeros(j)
  }

  /** Nothing lies between a key and that key followed by a zero byte. */
  lemma SuccessorIsLeast(a: Key, b: Key)
    requires Less(a, b)
    ensures AtMost(a + [0], b)
  {
    if Less(b, a + [0]) { BelowSuccessor(a, b); }
  }

  lemma BelowSuccessor(a: Key, b: Key)
    requires Less(b, a + [0])
    ensures b == a || Less(b, a)
    ensures AtMost(b, a)
  {
    var n :| 0 <= n < |a + [0]| && DropsAt(b, a + [0], n);
    assert forall i :: 0 <= i < n ==> a[i] == b[i];
    if n < |a| {
      assert DropsAt(b, a, n);
      if Less(a, b) { Transitive(a, b, a); }
    } else {
      assert b == a;
    }
  }

  lemma PaddingClimbs(w: Key, i: nat, j: nat)
    requires i < j
    ensures Less(w + Zeros(i), w + Zeros(j))
  {
    assert DropsAt(w + Zeros(i), w + Zeros(j), |w| + i);
  }

  lemma OneMoreZero(w: Key, i: nat)
    ensures w + Zeros(i + 1) == w + Zeros(i) + [0] && w + Zeros(0) == w
  {}

  lemma {:induction false} PaddingStaysBelow(w: Key, m: Key, n: nat, i: nat)
    requires KeysBetween(w, m, n) && i < n
    ensures Less(w + Zeros(i), m)
  {
    OneMoreZero(w, 0);
    if i > 0 {
      PaddingStaysBelow(w, m, n, i - 1);
      OneMoreZero(w, i - 1);
      SuccessorIsLeast(w + Zeros(i - 1), m);
      Trichotomy(w + Zeros(i), m);
    }
  }

  lemma {:induction false} PaddingIsLowest(keys: seq<Key>, w: Key, m: Key, i: nat)
    requires Climbs(keys, w, m) && i < |keys|
    ensures AtMost(w + Zeros(i + 1), keys[i])
  {
    OneMoreZero(w, i);
    if i == 0 {
      SuccessorIsLeast(w, keys[0]);
    } else {
      PaddingIsLowest(keys, w, m, i - 1);
      AtMostLess(w + Zeros(i), keys[i - 1], keys[i]);
      SuccessorIsLeast(w + Zeros(i), keys[i]);
    }
  }

  /** Room for `n` keys in closed form: only zero bytes appended to `w` can exhaust it. */
  lemma RoomExactly(w: Key, m: Key, n: nat)
    requires n > 0
    ensures Room(w, m, n) <==> KeysBetween(w, m, n)
  {
    if KeysBetween(w, m, n) { GapHasRoom(w, m, n); }
    if keys :| |keys| == n && Climbs(keys, w, m) { RoomNeedsGap(keys, w, m); }
  }

  lemma GapHasRoom(w: Key, m: Key, n: nat)
    requires n > 0 && KeysBetween(w, m, n)
    ensures Room(w, m, n)
  {
    hide Less;
    var keys := seq(n, i requires 0 <= i < n => w + Zeros(i + 1));
    OneMoreZero(w, 0);
    forall i, j | 0 <= i < j < n ensures Less(keys[i], keys[j]) { PaddingClimbs(w, i + 1, j + 1); }
    forall i | 0 <= i < n ensures Less(w, keys[i]) && AtMost(keys[i], m) {
      PaddingClimbs(w, 0, i + 1);
      PaddingStaysBelow(w, m, n, i);
      OneMoreZero(w, i);
      SuccessorIsLeast(w + Zeros(i), m);
    }
    assert Climbs(keys, w, m);
  }

  lemma RoomNeedsGap(keys: seq<Key>, w: Key, m: Key)
    requires keys != [] && Climbs(keys, w, m)
    ensures KeysBetween(w, m, |keys|)
  {
    hide Less;
    var n := |keys|;
    LessAtMost(w, keys[0], m);
    PaddingIsLowest(keys, w, m, n - 1);
    AtMostTransitive(w + Zeros(n), keys[n - 1], m);
    forall j | 0 <= j < n ensures m != w + Zeros(j) { PaddingClimbs(w, j, n); }
  }

  // ---- Which first events keep the maximum safe -----------------------

  function OpsOf(e: Event): seq<FamilyOp> {
    match e case Batch(ops, _, _) => ops case Span(keys) => PutsOf(keys)
  }

  /** The stored maximum as the event brings it: an observed span brings none. */
  function MaxGiven(e: Event): Option<Key> {
    match e case Batch(_, _, dbMax) => dbMax case Span(_) => None
  }

  predicate IsSpanning(e: Event) {
    e.Batch? && e.spanning
  }

  function Greatest(keys: seq<Key>): Key
    requires keys != []
  {
    Raised(Ratchet(None, keys[..|keys| - 1]), keys[|keys| - 1])
  }

  /** Ineligible as a first event: a range delete spans it, or it meets another op than a put before it breaks. */
  predicate Overlooked(e: Event) {
    IsSpanning(e) || (!Broken(OpsOf(e)) && !AllPuts(OpsOf(e)))
  }

  /** Killing as a first event: it breaks, repeats a key or reaches down to the maximum it was given. */
  predicate Killing(e: Event) {
    !Overlooked(e) && (Broken(OpsOf(e)) || !Distinct(e.Keys()) || !Above(MaxGiven(e), e.Keys()))
  }

  /** What a fresh family's first keys must be like to keep every later bulk key above `m`. */
  predicate Guards(threshold: nat, e: Event, m: Key)
    requires e.Keys() != []
  {
    if Overlooked(e) then !KeysBetween(Greatest(e.Keys()), m, Max(threshold, 1))
    else if Killing(e) then true
    else if threshold <= 1 then Above(Some(m), e.Keys())
    else !KeysBetween(Greatest(e.Keys()), m, threshold - 1)
  }

  /** A fresh family's first keys: where they take it. */
  lemma FirstStep(threshold: nat, e: Event)
    requires e.Keys() != []
    ensures var (s', route) := Step(threshold, FRESH, e);
            && s'.water == Some(Greatest(e.Keys()))
            && (Killing(e) ==> s'.state.Dead? && route.Ladder?)
            && (Overlooked(e) ==> s'.state == Probing(0) && route.Ladder?)
            && (!Killing(e) && !Overlooked(e) ==>
                  s'.state == Promoted(threshold, Probing(0)) && route == if s'.state.Latched? then Bulk else Ladder)
  {
    assert KeysOf(OpsOf(e)) == e.Keys();
  }

  lemma GreatestIsGreatest(keys: seq<Key>)
    requires keys != []
    ensures Greatest(keys) in keys && forall k :: k in keys ==> AtMost(k, Greatest(keys))
  {
    RatchetIsMaximum(None, keys);
  }

  /**
   Which first keys keep the stored maximum safe, as a condition on the event itself: every continuation
   of a fresh family's first keys sends only keys above `m` to bulk, exactly if the event guards `m`.
   */
  lemma MaximumClearedExactly(threshold: nat, e: Event, m: Key)
    requires e.Keys() != []
    ensures (forall es :: !Undercuts(threshold, FRESH, [e] + es, m)) <==> Guards(threshold, e, m)
  {
    var (s', route) := Step(threshold, FRESH, e);
    FirstStep(threshold, e);
    UndercutExact(threshold, s', m);
    var n := Needed(threshold, s'.state);
    RoomExactly(Greatest(e.Keys()), m, n);
    forall es ensures Undercuts(threshold, FRESH, [e] + es, m) <==>
                      (route.Bulk? && Reaches(e.Keys(), m)) || Undercuts(threshold, s', es, m)
    {
      UndercutsFromFirst(threshold, FRESH, e, es, m);
    }
    BulkAtOnce(threshold, e, m);
    hide Step, Guards, KeysBetween, Overlooked, Killing, Undercuts, Room;
    if route.Bulk? && Reaches(e.Keys(), m) {
      assert Undercuts(threshold, FRESH, [e] + [], m);
    } else if es :| Undercuts(threshold, s', es, m) {
      assert Undercuts(threshold, FRESH, [e] + es, m);
    }
  }

  /** What `Guards` comes to, told by the first step. */
  lemma BulkAtOnce(threshold: nat, e: Event, m: Key)
    requires e.Keys() != []
    ensures var (s', route) := Step(threshold, FRESH, e);
            Guards(threshold, e, m) <==>
            && !(route.Bulk? && Reaches(e.Keys(), m))
            && (s'.state.Dead? || !KeysBetween(Greatest(e.Keys()), m, Needed(threshold, s'.state)))
  {
    LessIsTotalOrder();
    FirstStep(threshold, e);
    GreatestIsGreatest(e.Keys());
    hide Step, Overlooked, Killing;
    var keys := e.Keys();
    assert Reaches(keys, m) <==> !Above(Some(m), keys) by {
      if i :| 0 <= i < |keys| && !Less(m, keys[i]) { assert keys[i] in keys; }
    }
    if Above(Some(m), keys) { assert !Less(Greatest(keys), m); }
  }

  /** A first batch of puts, not spanning and judged with the real maximum, guards it. */
  lemma PutOnlyFirstBatchGuards(threshold: nat, ops: seq<FamilyOp>, m: Key)
    requires ops != [] && AllPuts(ops)
    ensures Guards(threshold, Batch(ops, false, Some(m)), m)
  {
    LessIsTotalOrder();
    var e := Batch(ops, false, Some(m));
    GreatestIsGreatest(e.Keys());
  }

  /**
   The other first events never look at the stored maximum: for every first batch that is spanned or not
   puts only, and for every first span or batch given no maximum, some continuation sends a key at or below
   `m` to bulk exactly if the keys left between its greatest one and `m` suffice for the rest of the streak.
   */
  lemma OtherFirstEventsUndercut(threshold: nat, e: Event, m: Key)
    requires e.Keys() != [] && (Overlooked(e) || (MaxGiven(e).None? && !Killing(e)))
    ensures (exists es :: Undercuts(threshold, FRESH, [e] + es, m)) <==>
            if Overlooked(e) then KeysBetween(Greatest(e.Keys()), m, Max(threshold, 1))
            else if threshold <= 1 then !Above(Some(m), e.Keys())
            else KeysBetween(Greatest(e.Keys()), m, threshold - 1)
  {
    MaximumClearedExactly(threshold, e, m);
  }

  /** Events without keys leave a fresh family fresh, so that its first keys find it so. */
  lemma {:induction false} KeylessKeepsFresh(threshold: nat, es: seq<Event>)
    requires forall i :: 0 <= i < |es| ==> es[i].Keys() == []
    ensures After(threshold, FRESH, es) == FRESH
  {
    if es != [] {
      KeylessKeepsFresh(threshold, es[..|es| - 1]);
      var e := es[|es| - 1];
      assert OpsOf(e) == [];
    }
  }

  lemma OneByteLess(a: Key, b: Key)
    requires |a| == |b| == 1
    ensures Less(a, b) <==> a[0] < b[0]
  {
    if a[0] < b[0] { assert DropsAt(a, b, 0); }
  }
}
