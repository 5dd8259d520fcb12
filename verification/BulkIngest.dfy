/** The latch as the write path calls it: fields updated in place, loops over the batch. */
module BulkIngest {
  import opened Wrappers
  import opened KeyOrder
  import opened LatchModel
  import opened LatchRuns

  /** Some key occurs twice: sort a copy and look at neighbours. */
  method KeysHaveDuplicate(ops: seq<FamilyOp>) returns (duplicate: bool)
    ensures duplicate <==> !Distinct(KeysOf(ops))
  {
    var keys := SortKeys(KeysOf(ops));
    SortKeysSorted(KeysOf(ops));
    AdjacentRepeat(KeysOf(ops), keys);
    if keys == [] {
      return false;
    }
    for i := 0 to |keys| - 1
      invariant forall j :: 0 <= j < i ==> keys[j] != keys[j + 1]
    {
      if keys[i] == keys[i + 1] {
        return true;
      }
    }
    return false;
  }

  /** The least key of a non-empty slice. */
  method MinKey(ops: seq<FamilyOp>) returns (min: Key)
    requires ops != []
    ensures min in KeysOf(ops) && forall i :: 0 <= i < |ops| ==> AtMost(min, ops[i].key)
  {
    LessIsTotalOrder();
    min := ops[0].key;
    for i := 1 to |ops|
      invariant exists j :: 0 <= j < i && ops[j].key == min
      invariant forall j :: 0 <= j < i ==> AtMost(min, ops[j].key)
    {
      if Less(ops[i].key, min) {
        min := ops[i].key;
      }
    }
    var j :| 0 <= j < |ops| && ops[j].key == min;
    assert KeysOf(ops)[j] == min;
  }

  /** Every neighbour above the one before it. */
  method NeighboursRise(keys: seq<Key>) returns (ok: bool)
    ensures ok <==> Ascending(keys)
  {
    var i := 1;
    while i < |keys|
      invariant 1 <= i
      invariant forall k :: 0 <= k < i - 1 && k + 1 < |keys| ==> Less(keys[k], keys[k + 1])
    {
      if !Less(keys[i - 1], keys[i]) {
        return false;
      }
      i := i + 1;
    }
    forall i, j | 0 <= i < j < |keys| ensures Less(keys[i], keys[j]) { NeighboursAscend(keys, i, j); }
    return true;
  }

  class BulkLatch {
    const threshold: nat
    var state: map<Family, FamilyState>
    var highWater: map<Family, Key>
    var bulkBatches: nat
    var ladderBatches: nat
    var killed: nat

    ghost function Value(): Latch
      reads this
    {
      Latch(threshold, state, highWater, bulkBatches, ladderBatches, killed)
    }

    constructor ()
      ensures Value() == EMPTY
    {
      threshold := BULK_LATCH_STREAK;
      state, highWater := map[], map[];
      bulkBatches, ladderBatches, killed := 0, 0, 0;
    }

    predicate IsLatched(family: Family)
      reads this
    {
      family in state && state[family].Latched?
    }

    method KillFamily(family: Family)
      modifies this`state, this`killed
      ensures state == old(state)[family := Dead]
      ensures killed == old(killed) + if old(SlotOf(Value(), family)).state.Dead? then 0 else 1
    {
      if family !in state || state[family] != Dead {
        killed := killed + 1;
      }
      state := state[family := Dead];
    }

    method RatchetKey(family: Family, key: Key)
      modifies this`highWater
      ensures Lookup(highWater, family) == Ratchet(old(Lookup(highWater, family)), [key])
      ensures family in highWater && highWater == old(highWater)[family := highWater[family]]
    {
      var one := [key];
      assert one[..0] == [];
      if family !in highWater || Less(highWater[family], key) {
        highWater := highWater[family := key];
      }
    }

    /** The whole judgement of one family's slice, in the source's scan order. */
    method Judge(family: Family, current: FamilyState, ops: seq<FamilyOp>, spanning: bool, dbMax: Option<Key>)
      returns (v: Verdict)
      ensures v == Judged(Slot(current, Lookup(highWater, family)), ops, spanning, dbMax)
    {
      if current.Dead? || spanning {
        return Ineligible;
      }
      hide Less;
      var inversions := 0;
      for i := 0 to |ops|
        invariant AllPuts(ops[..i]) && inversions == Inversions(ops[..i])
        invariant forall j: nat :: j < i ==> !BreaksAt(ops, j)
        invariant i > 0 ==> inversions <= BULK_NEARLY_SORTED_WINDOW
      {
        assert ops[..i + 1][..i] == ops[..i];
        if !ops[i].isPut {
          forall j: nat | BreaksAt(ops, j) && j >= i ensures !AllPuts(ops[..j + 1]) {
            assert ops[..j + 1][i] == ops[i];
          }
          return Ineligible;
        }
        if i > 0 && ops[i].key == ops[i - 1].key {
          assert BreaksAt(ops, i) && AllPuts(ops[..i + 1]);
          return Kill;
        }
        if i > 0 && Less(ops[i].key, ops[i - 1].key) {
          inversions := inversions + 1;
          if inversions > BULK_NEARLY_SORTED_WINDOW {
            assert BreaksAt(ops, i) && AllPuts(ops[..i + 1]);
            return Kill;
          }
        }
      }
      assert ops[..|ops|] == ops;
      if inversions == 0 {
        forall i: nat | 0 < i < |ops| ensures ops[i].key != ops[i - 1].key {
          assert !BreaksAt(ops, i);
        }
        NoInversionAscends(ops);
      } else {
        var duplicate := KeysHaveDuplicate(ops);
        if duplicate {
          return Kill;
        }
      }
      if ops == [] {
        return Ineligible;
      }
      var first := MinKey(ops);
      LessIsTotalOrder();
      var bound := if family in highWater then Some(highWater[family]) else dbMax;
      assert Above(bound, KeysOf(ops)) <==> bound.None? || Less(bound.value, first);
      if bound.Some? && !Less(bound.value, first) {
        return Kill;
      }
      return Admissible;
    }

    /** Transition and counters of a living family under a verdict. */
    method Settle(family: Family, current: FamilyState, verdict: Verdict) returns (route: FamilyRoute)
      requires !current.Dead? && current == SlotOf(Value(), family).state
      modifies this`state, this`bulkBatches, this`ladderBatches, this`killed
      ensures var s := Slot(Settled(threshold, current, verdict).0, Lookup(highWater, family));
              route == Settled(threshold, current, verdict).1 && Value() == Moved(old(Value()), family, s, route)
    {
      match verdict {
        case Admissible =>
          var next := Promoted(threshold, current);
          state := state[family := next];
          if next.Latched? {
            bulkBatches := bulkBatches + 1;
            route := Bulk;
          } else {
            ladderBatches := ladderBatches + 1;
            route := Ladder;
          }
        case Ineligible =>
          if !current.Latched? {
            state := state[family := Probing(0)];
          }
          ladderBatches := ladderBatches + 1;
          route := Ladder;
        case Kill =>
          KillFamily(family);
          ladderBatches := ladderBatches + 1;
          route := Ladder;
      }
      assert state == old(state)[family := Settled(threshold, current, verdict).0];
    }

    /** Verdict, ratchet over every key, transition and counters for one family's slice of a batch. */
    method ClassifyFamily(family: Family, ops: seq<FamilyOp>, spanning: bool, dbMax: Option<Key>)
      returns (route: FamilyRoute)
      modifies this
      ensures (Value(), route) == FamilyClassified(old(Value()), family, ops, spanning, dbMax)
    {
      var current := if family in state then state[family] else Probing(0);
      if current.Dead? {
        ladderBatches := ladderBatches + 1;
        assert state == state[family := Dead];
        assert family in highWater ==> highWater == highWater[family := highWater[family]];
        return Ladder;
      }
      var verdict := Judge(family, current, ops, spanning, dbMax);
      RatchetOver(family, ops);
      route := Settle(family, current, verdict);
    }

    /** Every key of the slice raises the mark, whatever the verdict. */
    method RatchetOver(family: Family, ops: seq<FamilyOp>)
      modifies this`highWater
      ensures Lookup(highWater, family) == Ratchet(old(Lookup(highWater, family)), KeysOf(ops))
      ensures highWater == if ops == [] then old(highWater)
                           else old(highWater)[family := Ratchet(old(Lookup(highWater, family)), KeysOf(ops)).value]
    {
      var keys := KeysOf(ops);
      assert keys[..0] == [];
      for i := 0 to |ops|
        invariant Lookup(highWater, family) == Ratchet(old(Lookup(highWater, family)), keys[..i])
        invariant if i == 0 then highWater == old(highWater)
                  else family in highWater && highWater == old(highWater)[family := highWater[family]]
      {
        assert keys[..i + 1][..i] == keys[..i];
        var one := [ops[i].key];
        assert one[..0] == [];
        RatchetKey(family, ops[i].key);
      }
      assert keys[..|ops|] == keys;
    }

    /** The latched span path, with one ratchet for the whole span. */
    method ObserveLatchedSpan(family: Family, keys: seq<Key>) returns (route: FamilyRoute)
      modifies this
      ensures (Value(), route) == SpanObserved(old(Value()), family, keys)
    {
      if !IsLatched(family) {
        route := ClassifyFamily(family, PutsOf(keys), false, None);
        return;
      }
      if keys == [] {
        return Bulk;
      }
      var ok := NeighboursRise(keys);
      if ok && family in highWater && !Less(highWater[family], keys[0]) {
        ok := false;
      }
      if !ok {
        route := ClassifyFamily(family, PutsOf(keys), false, None);
        return;
      }
      var one := [keys[|keys| - 1]];
      assert one[..0] == [];
      RatchetKey(family, keys[|keys| - 1]);
      bulkBatches := bulkBatches + 1;
      return Bulk;
    }

    /** One batch that may mix families. */
    method ClassifyBatch(ops: seq<BulkOp>, dbMax: map<Family, Key>) returns (routes: map<Family, FamilyRoute>)
      modifies this
      ensures (Value(), routes) == BatchClassified(old(Value()), ops, dbMax)
      ensures forall f :: f in routes <==> exists i :: 0 <= i < |ops| && Mentions(ops[i], f)
      ensures forall f :: f in routes && routes[f].Bulk? ==>
                forall i :: 0 <= i < |ops| && Mentions(ops[i], f) ==> ops[i].Put?
    {
      var families, perFamily, spanning := SplitByFamily(ops);
      routes := map[];
      for i := 0 to |families|
        invariant (Value(), routes) == EachClassified(old(Value()), families[..i], ops, dbMax)
      {
        var f := families[i];
        EachClassifiedNext(old(Value()), families, i, ops, dbMax);
        var slice := Slice(perFamily, f);
        var route := ClassifyFamily(f, slice, f in spanning, Lookup(dbMax, f));
        routes := routes[f := route];
      }
      assert families[..|families|] == families;
      RoutesAreForPuts(old(Value()), ops, dbMax);
    }
  }

  lemma RoutesAreForPuts(l: Latch, ops: seq<BulkOp>, dbMax: map<Family, Key>)
    ensures var routes := BatchClassified(l, ops, dbMax).1;
            && (forall f :: f in routes <==> exists i :: 0 <= i < |ops| && Mentions(ops[i], f))
            && (forall f :: f in routes && routes[f].Bulk? ==>
                  forall i :: 0 <= i < |ops| && Mentions(ops[i], f) ==> ops[i].Put?)
  {
    var routes := BatchClassified(l, ops, dbMax).1;
    hide BatchClassified, Mentions;
    forall f: Family
      ensures f in routes <==> exists i :: 0 <= i < |ops| && Mentions(ops[i], f)
      ensures f in routes && routes[f].Bulk? ==> forall i :: 0 <= i < |ops| && Mentions(ops[i], f) ==> ops[i].Put?
    {
      BulkMeansPuts(l, ops, dbMax, f);
    }
  }

  function Slice(m: map<Family, seq<FamilyOp>>, f: Family): seq<FamilyOp> {
    if f in m then m[f] else []
  }

  function Pushed(m: map<Family, seq<FamilyOp>>, f: Family, op: FamilyOp): map<Family, seq<FamilyOp>> {
    m[f := Slice(m, f) + [op]]
  }

  /** `perFamily` with one op of the batch filed under the families it names. */
  function Filed(m: map<Family, seq<FamilyOp>>, op: BulkOp): (m': map<Family, seq<FamilyOp>>)
    ensures forall f :: Slice(m', f) == Slice(m, f) + Contribution(op, f)
  {
    match op
    case Put(f, key) => Pushed(m, f, FamilyOp(true, key))
    case Delete(f, key) => Pushed(m, f, FamilyOp(false, key))
    case DeleteRange(f, start, g, end) => Pushed(Pushed(m, f, FamilyOp(false, start)), g, FamilyOp(false, end))
  }

  /** First pass: the families present, each one's ops in batch order, and the spanned families. */
  method SplitByFamily(ops: seq<BulkOp>)
    returns (families: seq<Family>, perFamily: map<Family, seq<FamilyOp>>, spanning: set<Family>)
    ensures families == FamiliesOf(ops)
    ensures forall f :: Slice(perFamily, f) == Projected(ops, f) == OfFamily(AllEnds(ops), f)
    ensures forall f :: f in spanning <==> Spanned(ops, f)
  {
    families, perFamily, spanning := [], map[], {};
    assert FamiliesOf(ops[..0]) == [] && forall f :: Projected(ops[..0], f) == [] && !Spanned(ops[..0], f);
    assert forall f :: Slice(perFamily, f) == [];
    hide FamiliesOf, Projected, Spanned, Slice, Contribution, WithFamily, SpansFamilies, Touched, Filed;
    for i := 0 to |ops|
      invariant families == FamiliesOf(ops[..i])
      invariant forall f :: Slice(perFamily, f) == Projected(ops[..i], f)
      invariant forall f :: f in spanning <==> Spanned(ops[..i], f)
    {
      OneMoreOp(ops, i);
      SpannedGrows(ops, i);
      SpanIsTwoFamilies(ops[i]);
      perFamily := Filed(perFamily, ops[i]);
      var touched := Touched(ops[i]);
      families := WithFamily(families, touched[0]);
      if |touched| == 2 {
        families := WithFamily(families, touched[1]);
        if touched[0] != touched[1] {
          spanning := spanning + {touched[0], touched[1]};
        }
      }
    }
    assert ops[..|ops|] == ops;
    forall f: Family ensures Projected(ops, f) == OfFamily(AllEnds(ops), f) { SliceSeenExactly(ops, f); }
  }

  lemma OneMoreOp(ops: seq<BulkOp>, i: nat)
    requires i < |ops|
    ensures forall f :: Projected(ops[..i + 1], f) == Projected(ops[..i], f) + Contribution(ops[i], f)
    ensures var fs, touched := FamiliesOf(ops[..i]), Touched(ops[i]);
            FamiliesOf(ops[..i + 1]) ==
            if |touched| == 1 then WithFamily(fs, touched[0]) else WithFamily(WithFamily(fs, touched[0]), touched[1])
  {
    assert ops[..i + 1][..i] == ops[..i];
    forall f ensures Projected(ops[..i + 1], f) == Projected(ops[..i], f) + Contribution(ops[i], f) { ProjectedNext(ops, f, i); }
  }

  lemma SpanIsTwoFamilies(op: BulkOp)
    ensures 1 <= |Touched(op)| <= 2
    ensures forall f :: SpansFamilies(op, f) <==>
              |Touched(op)| == 2 && Touched(op)[0] != Touched(op)[1] && (f == Touched(op)[0] || f == Touched(op)[1])
  {}

  lemma SpannedGrows(ops: seq<BulkOp>, i: nat)
    requires i < |ops|
    ensures forall f :: Spanned(ops[..i + 1], f) <==> Spanned(ops[..i], f) || SpansFamilies(ops[i], f)
  {
    forall f ensures Spanned(ops[..i + 1], f) <==> Spanned(ops[..i], f) || SpansFamilies(ops[i], f) {
      if j :| 0 <= j < i && SpansFamilies(ops[..i][j], f) {
        assert ops[..i + 1][j] == ops[..i][j];
      }
      if SpansFamilies(ops[i], f) {
        assert ops[..i + 1][i] == ops[i];
      }
    }
  }
}
