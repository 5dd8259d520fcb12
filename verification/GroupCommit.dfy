/**
 Group commit under cancellation. Every slot state is one atomic byte changed only by
 compare-and-swap from Waiting; any number of cancels, batch assemblies and leadership
 handovers interleave between those swaps.
 */
module GroupCommit {
  import opened Wrappers
  import opened Bytes

  datatype SlotState = Waiting | Cancelled | Committed | ElectedLeader

  datatype Slot = Slot(id: U64, payload: seq<Byte>, state: SlotState)

  /** A leader walking `slots[lo..hi]`, now at `pos`; `taken` are the slots whose swap it won. */
  datatype Assembly = Assembly(lo: nat, hi: nat, pos: nat, taken: seq<nat>, ids: seq<U64>, payloads: seq<seq<Byte>>)

  /** A handover walking `slots[lo..hi]` until one swap succeeds. */
  datatype Handover = Handover(lo: nat, hi: nat, pos: nat, elected: Option<nat>)

  datatype System = System(slots: seq<Slot>, assemblies: seq<Assembly>, handovers: seq<Handover>)

  datatype Step =
    | Cancel(slot: nat)
    | BeginAssembly(lo: nat, hi: nat)
    | Assemble(leader: nat)
    | BeginHandover(lo: nat, hi: nat)
    | Offer(handover: nat)

  predicate Initial(s: System) {
    s.assemblies == [] && s.handovers == [] && forall i :: 0 <= i < |s.slots| ==> s.slots[i].state.Waiting?
  }

  predicate Enabled(s: System, e: Step) {
    match e
    case Cancel(i) => i < |s.slots|
    case BeginAssembly(lo, hi) => lo <= hi <= |s.slots|
    case Assemble(a) => a < |s.assemblies| && s.assemblies[a].pos < s.assemblies[a].hi <= |s.slots|
    case BeginHandover(lo, hi) => lo <= hi <= |s.slots|
    case Offer(h) =>
      h < |s.handovers| && s.handovers[h].elected.None? && s.handovers[h].pos < s.handovers[h].hi <= |s.slots|
  }

  /** `compare_exchange(Waiting, to)` on slot `i`. */
  function Swapped(slots: seq<Slot>, i: nat, to: SlotState): seq<Slot>
    requires i < |slots|
  {
    if slots[i].state.Waiting? then slots[i := slots[i].(state := to)] else slots
  }

  function Next(s: System, e: Step): System
    requires Enabled(s, e)
  {
    match e
    case Cancel(i) => s.(slots := Swapped(s.slots, i, Cancelled))
    case BeginAssembly(lo, hi) => s.(assemblies := s.assemblies + [Assembly(lo, hi, lo, [], [], [])])
    case Assemble(a) =>
      var l := s.assemblies[a];
      var slot := s.slots[l.pos];
      var l' := if slot.state.Waiting?
                then Assembly(l.lo, l.hi, l.pos + 1, l.taken + [l.pos], l.ids + [slot.id], l.payloads + [slot.payload])
                else l.(pos := l.pos + 1);
      s.(slots := Swapped(s.slots, l.pos, Committed), assemblies := s.assemblies[a := l'])
    case BeginHandover(lo, hi) => s.(handovers := s.handovers + [Handover(lo, hi, lo, None)])
    case Offer(h) =>
      var o := s.handovers[h];
      var o' := if s.slots[o.pos].state.Waiting? then o.(elected := Some(o.pos)) else o.(pos := o.pos + 1);
      s.(slots := Swapped(s.slots, o.pos, ElectedLeader), handovers := s.handovers[h := o'])
  }

  // ---- The invariant --------------------------------------------------

  predicate Ascending(xs: seq<nat>) {
    forall i, j :: 0 <= i < j < |xs| ==> xs[i] < xs[j]
  }

  /** A leader's lists are aligned with the slots it won, in slot order, and it has passed no waiting slot. */
  predicate AssemblyOk(slots: seq<Slot>, l: Assembly) {
    && l.lo <= l.pos <= l.hi <= |slots| && Ascending(l.taken)
    && |l.ids| == |l.payloads| == |l.taken|
    && (forall j :: 0 <= j < |l.taken| ==> l.lo <= l.taken[j] < l.pos && slots[l.taken[j]].state.Committed?)
    && (forall j :: 0 <= j < |l.taken| ==> l.ids[j] == slots[l.taken[j]].id && l.payloads[j] == slots[l.taken[j]].payload)
    && (forall k :: l.lo <= k < l.pos ==> !slots[k].state.Waiting?)
  }

  predicate HandoverOk(slots: seq<Slot>, o: Handover) {
    && o.lo <= o.pos <= o.hi <= |slots|
    && (o.elected.Some? ==> o.elected.value == o.pos < o.hi && slots[o.pos].state.ElectedLeader?)
    && (forall k :: o.lo <= k < o.pos ==> !slots[k].state.Waiting?)
  }

  /** Slot `i` is in batch `a`. */
  predicate InBatch(s: System, i: nat, a: nat) {
    a < |s.assemblies| && i in s.assemblies[a].taken
  }

  predicate ElectedBy(s: System, i: nat, h: nat) {
    h < |s.handovers| && s.handovers[h].elected == Some(i)
  }

  predicate Inv(s: System) {
    && (forall a :: 0 <= a < |s.assemblies| ==> AssemblyOk(s.slots, s.assemblies[a]))
    && (forall h :: 0 <= h < |s.handovers| ==> HandoverOk(s.slots, s.handovers[h]))
  }

  /** A committed slot is in exactly one batch, an elected one comes from exactly one handover. */
  ghost predicate Owned(s: System) {
    && (forall i: nat :: i < |s.slots| && s.slots[i].state.Committed? ==> exists a: nat :: InBatch(s, i, a))
    && (forall i: nat, a: nat, b: nat :: InBatch(s, i, a) && InBatch(s, i, b) ==> a == b)
    && (forall i: nat :: i < |s.slots| && s.slots[i].state.ElectedLeader? ==> exists h: nat :: ElectedBy(s, i, h))
    && (forall i: nat, g: nat, h: nat :: ElectedBy(s, i, g) && ElectedBy(s, i, h) ==> g == h)
  }

  /** One step changes a slot only out of Waiting, and never its id or payload. */
  predicate Advances(before: seq<Slot>, after: seq<Slot>) {
    |after| == |before| &&
    forall i :: 0 <= i < |before| ==>
      after[i].id == before[i].id && after[i].payload == before[i].payload &&
      (!before[i].state.Waiting? ==> after[i].state == before[i].state)
  }

  lemma StepAdvances(s: System, e: Step)
    requires Enabled(s, e)
    ensures Advances(s.slots, Next(s, e).slots)
  {}

  lemma AssemblyStable(before: seq<Slot>, after: seq<Slot>, l: Assembly)
    requires Advances(before, after) && AssemblyOk(before, l)
    ensures AssemblyOk(after, l)
  {}

  lemma HandoverStable(before: seq<Slot>, after: seq<Slot>, o: Handover)
    requires Advances(before, after) && HandoverOk(before, o)
    ensures HandoverOk(after, o)
  {}

  lemma AssembleKeepsOk(s: System, a: nat)
    requires Inv(s) && Enabled(s, Assemble(a))
    ensures AssemblyOk(Next(s, Assemble(a)).slots, Next(s, Assemble(a)).assemblies[a])
  {
    StepAdvances(s, Assemble(a));
    var l, s' := s.assemblies[a], Next(s, Assemble(a));
    AssemblyStable(s.slots, s'.slots, l);
    assert !s'.slots[l.pos].state.Waiting?;
    hide Inv, Enabled, Advances;
  }

  lemma OfferKeepsOk(s: System, h: nat)
    requires Inv(s) && Enabled(s, Offer(h))
    ensures HandoverOk(Next(s, Offer(h)).slots, Next(s, Offer(h)).handovers[h])
  {
    StepAdvances(s, Offer(h));
    var o, s' := s.handovers[h], Next(s, Offer(h));
    HandoverStable(s.slots, s'.slots, o);
  }

  lemma StepKeepsInv(s: System, e: Step)
    requires Inv(s) && Enabled(s, e)
    ensures Inv(Next(s, e))
  {
    StepAdvances(s, e);
    if e.Assemble? { AssembleKeepsOk(s, e.leader); }
    if e.Offer? { OfferKeepsOk(s, e.handover); }
    var s' := Next(s, e);
    assert e.BeginAssembly? ==> AssemblyOk(s'.slots, s'.assemblies[|s.assemblies|]);
    assert e.BeginHandover? ==> HandoverOk(s'.slots, s'.handovers[|s.handovers|]);
    hide AssemblyOk, HandoverOk, Advances;
    forall a | 0 <= a < |s'.assemblies| ensures AssemblyOk(s'.slots, s'.assemblies[a]) {
      if a < |s.assemblies| { AssemblyStable(s.slots, s'.slots, s.assemblies[a]); }
    }
    forall h | 0 <= h < |s'.handovers| ensures HandoverOk(s'.slots, s'.handovers[h]) {
      if h < |s.handovers| { HandoverStable(s.slots, s'.slots, s.handovers[h]); }
    }
  }

  /** Step `e` is leader `a` winning slot `i`. */
  predicate WinsSlot(s: System, e: Step, i: nat, a: nat) {
    e == Assemble(a) && a < |s.assemblies| && i == s.assemblies[a].pos && i < |s.slots| && s.slots[i].state.Waiting?
  }

  /** Step `e` is handover `h` electing slot `i`. */
  predicate ElectsSlot(s: System, e: Step, i: nat, h: nat) {
    e == Offer(h) && h < |s.handovers| && i == s.handovers[h].pos && i < |s.slots| && s.slots[i].state.Waiting?
  }

  lemma BatchesAfter(s: System, e: Step, i: nat, a: nat)
    requires Inv(s) && Enabled(s, e)
    ensures InBatch(Next(s, e), i, a) <==> InBatch(s, i, a) || WinsSlot(s, e, i, a)
  {}

  lemma ElectionsAfter(s: System, e: Step, i: nat, h: nat)
    requires Inv(s) && Enabled(s, e)
    ensures ElectedBy(Next(s, e), i, h) <==> ElectedBy(s, i, h) || ElectsSlot(s, e, i, h)
  {}

  lemma BatchedIsCommitted(s: System, i: nat, a: nat)
    requires Inv(s) && InBatch(s, i, a)
    ensures i < |s.slots| && s.slots[i].state.Committed?
  {
    assert AssemblyOk(s.slots, s.assemblies[a]);
  }

  lemma ElectedIsLeader(s: System, i: nat, h: nat)
    requires Inv(s) && ElectedBy(s, i, h)
    ensures i < |s.slots| && s.slots[i].state.ElectedLeader?
  {
    assert HandoverOk(s.slots, s.handovers[h]);
  }

  lemma StepKeepsBatches(s: System, e: Step, i: nat)
    requires Inv(s) && Owned(s) && Enabled(s, e) && |Next(s, e).slots| == |s.slots|
    ensures i < |s.slots| && Next(s, e).slots[i].state.Committed? ==> exists a: nat :: InBatch(Next(s, e), i, a)
    ensures forall a: nat, b: nat :: InBatch(Next(s, e), i, a) && InBatch(Next(s, e), i, b) ==> a == b
  {
    hide AssemblyOk, HandoverOk;
    var s' := Next(s, e);
    forall a: nat ensures InBatch(s', i, a) <==> InBatch(s, i, a) || WinsSlot(s, e, i, a) { BatchesAfter(s, e, i, a); }
    if a: nat :| InBatch(s, i, a) { BatchedIsCommitted(s, i, a); }
    if i < |s.slots| && s'.slots[i].state.Committed? {
      if s.slots[i].state.Committed? {
        var a: nat :| InBatch(s, i, a);
        assert InBatch(s', i, a);
      } else {
        assert InBatch(s', i, e.leader);
      }
    }
  }

  lemma StepKeepsElections(s: System, e: Step, i: nat)
    requires Inv(s) && Owned(s) && Enabled(s, e) && |Next(s, e).slots| == |s.slots|
    ensures i < |s.slots| && Next(s, e).slots[i].state.ElectedLeader? ==> exists h: nat :: ElectedBy(Next(s, e), i, h)
    ensures forall g: nat, h: nat :: ElectedBy(Next(s, e), i, g) && ElectedBy(Next(s, e), i, h) ==> g == h
  {
    hide AssemblyOk, HandoverOk;
    var s' := Next(s, e);
    forall h: nat ensures ElectedBy(s', i, h) <==> ElectedBy(s, i, h) || ElectsSlot(s, e, i, h) {
      ElectionsAfter(s, e, i, h);
    }
    if h: nat :| ElectedBy(s, i, h) { ElectedIsLeader(s, i, h); }
    if i < |s.slots| && s'.slots[i].state.ElectedLeader? {
      if s.slots[i].state.ElectedLeader? {
        var h: nat :| ElectedBy(s, i, h);
        assert ElectedBy(s', i, h);
      } else {
        assert ElectedBy(s', i, e.handover);
      }
    }
  }

  // ---- Runs -----------------------------------------------------------

  /** `run` is a run of the system: it starts initially and each state follows by an enabled step. */
  ghost predicate IsRun(run: seq<System>, steps: seq<Step>) {
    && |run| == |steps| + 1 && Initial(run[0])
    && forall t :: 0 <= t < |steps| ==> Enabled(run[t], steps[t]) && run[t + 1] == Next(run[t], steps[t])
  }

  lemma {:induction false} RunKeepsInv(run: seq<System>, steps: seq<Step>, t: nat)
    requires IsRun(run, steps) && t < |run|
    ensures Inv(run[t]) && Owned(run[t]) && |run[t].slots| == |run[0].slots|
  {
    if t > 0 {
      RunKeepsInv(run, steps, t - 1);
      var s, e := run[t - 1], steps[t - 1];
      assert run[t - 1 + 1] == Next(s, e);
      StepKeepsInv(s, e);
      StepAdvances(s, e);
      forall i: nat
        ensures i < |s.slots| && run[t].slots[i].state.Committed? ==> exists a: nat :: InBatch(run[t], i, a)
        ensures forall a: nat, b: nat :: InBatch(run[t], i, a) && InBatch(run[t], i, b) ==> a == b
      { StepKeepsBatches(s, e, i); }
      forall i: nat
        ensures i < |s.slots| && run[t].slots[i].state.ElectedLeader? ==> exists h: nat :: ElectedBy(run[t], i, h)
        ensures forall g: nat, h: nat :: ElectedBy(run[t], i, g) && ElectedBy(run[t], i, h) ==> g == h
      { StepKeepsElections(s, e, i); }
    }
  }

  /** A slot leaves Waiting at most once: past it, its state, id and payload never change again. */
  lemma {:induction false} LeavesWaitingOnce(run: seq<System>, steps: seq<Step>, t: nat, u: nat, i: nat)
    requires IsRun(run, steps) && t <= u < |run| && i < |run[0].slots|
    ensures i < |run[t].slots| && i < |run[u].slots|
    ensures run[u].slots[i].id == run[t].slots[i].id && run[u].slots[i].payload == run[t].slots[i].payload
    ensures !run[t].slots[i].state.Waiting? ==> run[u].slots[i].state == run[t].slots[i].state
    decreases u
  {
    RunKeepsInv(run, steps, t);
    RunKeepsInv(run, steps, u);
    if t < u {
      LeavesWaitingOnce(run, steps, t, u - 1, i);
      assert run[u - 1 + 1] == Next(run[u - 1], steps[u - 1]);
      StepAdvances(run[u - 1], steps[u - 1]);
    }
  }

  /** A cancel that meets a waiting slot wins: the slot is cancelled ever after, and in no batch. */
  lemma CancelWins(run: seq<System>, steps: seq<Step>, t: nat, u: nat, i: nat)
    requires IsRun(run, steps) && t < u < |run| && steps[t] == Cancel(i)
    requires i < |run[0].slots| && i < |run[t].slots| && run[t].slots[i].state.Waiting?
    ensures i < |run[u].slots| && run[u].slots[i].state.Cancelled? && forall a: nat :: !InBatch(run[u], i, a)
  {
    assert run[t + 1] == Next(run[t], steps[t]);
    LeavesWaitingOnce(run, steps, t + 1, u, i);
    RunKeepsInv(run, steps, u);
    hide Next, IsRun;
    forall a: nat ensures !InBatch(run[u], i, a) {
      if InBatch(run[u], i, a) { BatchedIsCommitted(run[u], i, a); }
    }
  }

  lemma CancelStep(s: System, e: Step, i: nat)
    requires Enabled(s, e) && i < |s.slots|
    ensures i < |Next(s, e).slots|
    ensures Next(s, e).slots[i].state.Cancelled? <==>
            s.slots[i].state.Cancelled? || (e == Cancel(i) && s.slots[i].state.Waiting?)
  {}

  /** At every moment of every run a slot is cancelled exactly if some earlier cancel met it waiting. */
  lemma {:induction false} CancelledExactly(run: seq<System>, steps: seq<Step>, u: nat, i: nat)
    requires IsRun(run, steps) && u < |run| && i < |run[0].slots|
    ensures i < |run[u].slots|
    ensures run[u].slots[i].state.Cancelled? <==> exists t :: 0 <= t < u && CancelsAt(run, steps, t, i)
  {
    if u > 0 {
      CancelledExactly(run, steps, u - 1, i);
      assert run[u - 1 + 1] == Next(run[u - 1], steps[u - 1]);
      CancelStep(run[u - 1], steps[u - 1], i);
      assert CancelsAt(run, steps, u - 1, i) <==> steps[u - 1] == Cancel(i) && run[u - 1].slots[i].state.Waiting?;
      hide Next, IsRun, CancelsAt;
    }
  }

  /** Step `t` cancels slot `i` while it waits. */
  predicate CancelsAt(run: seq<System>, steps: seq<Step>, t: nat, i: nat) {
    t < |steps| && t < |run| && steps[t] == Cancel(i) && i < |run[t].slots| && run[t].slots[i].state.Waiting?
  }

  /** The batch of leader `a` carries slot `i`'s payload at place `j`. */
  predicate Carries(s: System, a: nat, j: nat, i: nat) {
    && a < |s.assemblies| && j < |s.assemblies[a].taken| && s.assemblies[a].taken[j] == i
    && i < |s.slots| && |s.assemblies[a].ids| == |s.assemblies[a].payloads| == |s.assemblies[a].taken|
    && s.assemblies[a].ids[j] == s.slots[i].id && s.assemblies[a].payloads[j] == s.slots[i].payload
  }

  /**
   At every moment of every run, and ever after: a slot that is committed is carried by exactly one place
   of one batch, and a slot in any other state, cancelled in particular, by none.
   */
  lemma CommittedIffInOneBatch(run: seq<System>, steps: seq<Step>, t: nat, i: nat)
    requires IsRun(run, steps) && t < |run| && i < |run[t].slots|
    ensures run[t].slots[i].state.Committed? <==> exists a: nat, j: nat :: Carries(run[t], a, j, i)
    ensures forall a: nat, j: nat, b: nat, k: nat ::
              Carries(run[t], a, j, i) && Carries(run[t], b, k, i) ==> a == b && j == k
  {
    RunKeepsInv(run, steps, t);
    var s := run[t];
    if s.slots[i].state.Committed? {
      var a: nat :| InBatch(s, i, a);
      assert AssemblyOk(s.slots, s.assemblies[a]);
      var j :| 0 <= j < |s.assemblies[a].taken| && s.assemblies[a].taken[j] == i;
      assert Carries(s, a, j, i);
    }
    forall a: nat, j: nat | Carries(s, a, j, i) ensures s.slots[i].state.Committed? && InBatch(s, i, a) {
      assert AssemblyOk(s.slots, s.assemblies[a]);
    }
    forall a: nat, j: nat, b: nat, k: nat | Carries(s, a, j, i) && Carries(s, b, k, i) ensures a == b && j == k {
      assert InBatch(s, i, a) && InBatch(s, i, b);
      assert AssemblyOk(s.slots, s.assemblies[a]);
    }
  }

  /** A finished assembly has left no slot of its slice waiting, and lists what it took in slot order. */
  lemma FinishedAssembly(run: seq<System>, steps: seq<Step>, t: nat, a: nat)
    requires IsRun(run, steps) && t < |run| && a < |run[t].assemblies|
    ensures var l := run[t].assemblies[a];
            && Ascending(l.taken) && |l.ids| == |l.taken|
            && (forall j :: 0 <= j < |l.taken| ==> Carries(run[t], a, j, l.taken[j]))
            && (l.pos == l.hi ==> l.hi <= |run[t].slots| &&
                                  forall k :: l.lo <= k < l.hi ==> !run[t].slots[k].state.Waiting?)
  {
    RunKeepsInv(run, steps, t);
    assert AssemblyOk(run[t].slots, run[t].assemblies[a]);
  }

  /** Every elected slot comes from exactly one handover; a handover elects at most one, the first still waiting. */
  lemma OneLeaderPerHandover(run: seq<System>, steps: seq<Step>, t: nat, i: nat)
    requires IsRun(run, steps) && t < |run| && i < |run[t].slots|
    ensures run[t].slots[i].state.ElectedLeader? <==> exists h: nat :: ElectedBy(run[t], i, h)
    ensures forall g: nat, h: nat :: ElectedBy(run[t], i, g) && ElectedBy(run[t], i, h) ==> g == h
    ensures forall h: nat :: ElectedBy(run[t], i, h) ==>
              forall k :: run[t].handovers[h].lo <= k < i ==> k < |run[t].slots| && !run[t].slots[k].state.Waiting?
  {
    RunKeepsInv(run, steps, t);
    var s := run[t];
    forall h: nat | ElectedBy(s, i, h)
      ensures s.slots[i].state.ElectedLeader?
      ensures forall k :: s.handovers[h].lo <= k < i ==> k < |s.slots| && !s.slots[k].state.Waiting?
    {
      assert HandoverOk(s.slots, s.handovers[h]);
    }
  }

  // ---- The calls, when nothing interferes -----------------------------

  /** The slots whose swap a sweep of the first `n` slots wins: those still waiting, in order. */
  function WaitingAmong(slots: seq<Slot>, n: nat): (w: seq<nat>)
    requires n <= |slots|
    ensures forall j :: 0 <= j < |w| ==> w[j] < n && slots[w[j]].state.Waiting?
  {
    if n == 0 then []
    else WaitingAmong(slots, n - 1) + if slots[n - 1].state.Waiting? then [n - 1] else []
  }

  /** `ids` and `payloads` are those of the slots `w`, in that order. */
  predicate Lists(slots: seq<Slot>, w: seq<nat>, ids: seq<U64>, payloads: seq<seq<Byte>>) {
    |ids| == |payloads| == |w| &&
    forall j :: 0 <= j < |w| ==> w[j] < |slots| && ids[j] == slots[w[j]].id && payloads[j] == slots[w[j]].payload
  }

  lemma WaitingStep(slots: seq<Slot>, n: nat)
    requires n < |slots|
    ensures WaitingAmong(slots, n + 1) == WaitingAmong(slots, n) + if slots[n].state.Waiting? then [n] else []
  {}

  function SweptTo(slots: seq<Slot>, n: nat, to: SlotState): (r: seq<Slot>)
    requires n <= |slots|
    ensures |r| == |slots|
    ensures forall i :: 0 <= i < |slots| ==>
              r[i] == if i < n && slots[i].state.Waiting? then slots[i].(state := to) else slots[i]
  {
    seq(|slots|, i requires 0 <= i < |slots| =>
      if i < n && slots[i].state.Waiting? then slots[i].(state := to) else slots[i])
  }

  /** The first of the first `n` slots that still waits: everything before it does not. */
  function FirstWaiting(slots: seq<Slot>, n: nat): (f: Option<nat>)
    requires n <= |slots|
    ensures f.Some? ==> f.value < n && slots[f.value].state.Waiting?
    ensures forall i :: 0 <= i < (if f.Some? then f.value else n) ==> !slots[i].state.Waiting?
  {
    if n == 0 then None
    else
      var f := FirstWaiting(slots, n - 1);
      if f.None? && slots[n - 1].state.Waiting? then Some(n - 1) else f
  }

  lemma {:induction false} FirstWaitingStays(slots: seq<Slot>, m: nat, n: nat)
    requires m <= n <= |slots| && FirstWaiting(slots, m).Some?
    ensures FirstWaiting(slots, n) == FirstWaiting(slots, m)
  {
    if m < n { FirstWaitingStays(slots, m, n - 1); }
  }

  class CommitSlot {
    const id: U64
    const payload: seq<Byte>
    var state: SlotState

    function Value(): Slot
      reads this
    {
      Slot(id, payload, state)
    }

    constructor (id: U64, payload: seq<Byte>)
      ensures Value() == Slot(id, payload, Waiting)
    {
      this.id, this.payload, this.state := id, payload, Waiting;
    }

    /** The one atomic transition: out of Waiting, or not at all. */
    method CompareExchange(to: SlotState) returns (won: bool)
      modifies this
      ensures won <==> old(state).Waiting?
      ensures state == if won then to else old(state)
    {
      won := state.Waiting?;
      if won {
        state := to;
      }
    }
  }

  ghost function Values(slots: seq<CommitSlot>): (v: seq<Slot>)
    reads slots
    ensures |v| == |slots| && forall i :: 0 <= i < |slots| ==> v[i] == slots[i].Value()
  {
    seq(|slots|, i requires 0 <= i < |slots| reads slots => slots[i].Value())
  }

  /** An assembly left alone commits exactly the waiting slots and lists them in slot order. */
  method AssembleActiveBatch(slots: seq<CommitSlot>) returns (payloads: seq<seq<Byte>>, ids: seq<U64>)
    requires forall i, j :: 0 <= i < j < |slots| ==> slots[i] != slots[j]
    modifies slots
    ensures Values(slots) == SweptTo(old(Values(slots)), |slots|, Committed)
    ensures Lists(old(Values(slots)), WaitingAmong(old(Values(slots)), |slots|), ids, payloads)
  {
    ghost var was := Values(slots);
    payloads, ids := [], [];
    ghost var w: seq<nat> := [];
    assert WaitingAmong(was, 0) == [];
    hide WaitingAmong;
    for n := 0 to |slots|
      invariant forall i :: n <= i < |slots| ==> slots[i].state == was[i].state
      invariant forall i :: 0 <= i < n ==> slots[i].state == if was[i].state.Waiting? then Committed else was[i].state
      invariant w == WaitingAmong(was, n) && Lists(was, w, ids, payloads)
    {
      WaitingStep(was, n);
      var won := slots[n].CompareExchange(Committed);
      if won {
        payloads, ids, w := payloads + [slots[n].payload], ids + [slots[n].id], w + [n];
      }
    }
  }

  /** A handover left alone elects the first waiting slot, if there is one, and touches no other. */
  method HandoverLeadership(slots: seq<CommitSlot>) returns (elected: Option<nat>)
    requires forall i, j :: 0 <= i < j < |slots| ==> slots[i] != slots[j]
    modifies slots
    ensures elected == FirstWaiting(old(Values(slots)), |slots|)
    ensures var was := old(Values(slots));
            Values(slots) == if elected.Some? then Swapped(was, elected.value, ElectedLeader) else was
  {
    ghost var was := Values(slots);
    for n := 0 to |slots|
      invariant forall i :: 0 <= i < |slots| ==> slots[i].Value() == was[i]
      invariant FirstWaiting(was, n).None?
    {
      var won := slots[n].CompareExchange(ElectedLeader);
      if won {
        FirstWaitingStays(was, n + 1, |slots|);
        return Some(n);
      }
    }
    return None;
  }

  /** The system after leader 0 has made its first `n` attempts with nobody else moving. */
  function Alone(slots: seq<Slot>, n: nat): (s: System)
    requires n <= |slots|
    decreases n
  {
    if n == 0 then System(slots, [Assembly(0, |slots|, 0, [], [], [])], [])
    else
      var s := Alone(slots, n - 1);
      if Enabled(s, Assemble(0)) then Next(s, Assemble(0)) else s
  }

  lemma SweepGrows(slots: seq<Slot>, n: nat, to: SlotState)
    requires 0 < n <= |slots|
    ensures SweptTo(slots, n - 1, to)[n - 1] == slots[n - 1]
    ensures Swapped(SweptTo(slots, n - 1, to), n - 1, to) == SweptTo(slots, n, to)
  {}

  lemma AssembleMoves(s: System)
    requires Enabled(s, Assemble(0)) && |s.assemblies| == 1
    ensures var l, s' := s.assemblies[0], Next(s, Assemble(0));
            && s'.slots == Swapped(s.slots, l.pos, Committed) && |s'.assemblies| == 1
            && s'.assemblies[0].pos == l.pos + 1 && s'.assemblies[0].hi == l.hi
            && s'.assemblies[0].taken == l.taken + if s.slots[l.pos].state.Waiting? then [l.pos] else []
  {}

  /** The uninterrupted call is the interleaved protocol with no other step in between. */
  lemma {:induction false} AloneIsSweep(slots: seq<Slot>, n: nat)
    requires n <= |slots|
    ensures var s := Alone(slots, n);
            && s.slots == SweptTo(slots, n, Committed) && |s.assemblies| == 1
            && s.assemblies[0].pos == n && s.assemblies[0].hi == |slots|
            && s.assemblies[0].taken == WaitingAmong(slots, n)
  {
    if n == 0 {
      assert SweptTo(slots, 0, Committed) == slots;
    } else {
      hide SweptTo, Swapped, Next;
      AloneIsSweep(slots, n - 1);
      AssembleMoves(Alone(slots, n - 1));
      SweepGrows(slots, n, Committed);
    }
  }

  /** The system after handover 0 has made its first `n` attempts with nobody else moving. */
  function AloneHandover(slots: seq<Slot>, n: nat): (s: System)
    requires n <= |slots|
    decreases n
  {
    if n == 0 then System(slots, [], [Handover(0, |slots|, 0, None)])
    else
      var s := AloneHandover(slots, n - 1);
      if Enabled(s, Offer(0)) then Next(s, Offer(0)) else s
  }

  /** The uninterrupted handover is the interleaved protocol with no other step in between, too. */
  lemma {:induction false} AloneHandoverElects(slots: seq<Slot>, n: nat)
    requires n <= |slots|
    ensures var s, first := AloneHandover(slots, n), FirstWaiting(slots, n);
            && |s.handovers| == 1 && s.handovers[0].elected == first && s.handovers[0].hi == |slots|
            && s.slots == (if first.Some? then Swapped(slots, first.value, ElectedLeader) else slots)
            && (first.None? ==> s.handovers[0].pos == n)
  {
    if n > 0 {
      AloneHandoverElects(slots, n - 1);
      hide Swapped;
      assert Swapped(slots, n - 1, ElectedLeader) == slots || slots[n - 1].state.Waiting? by { SwapNeedsWaiting(slots, n - 1); }
    }
  }

  lemma SwapNeedsWaiting(slots: seq<Slot>, i: nat)
    requires i < |slots|
    ensures !slots[i].state.Waiting? ==> Swapped(slots, i, ElectedLeader) == slots
  {}
}
