/** The FIFO ticket scheduler between async submitters and one I/O worker. */
module CommitScheduler {
  import opened Wrappers

  datatype Ticket = Ticket(id: U64, byteSize: nat, requiresSync: bool)

  datatype SchedulerError =
    | QueueSaturated(capacity: nat)
    | OrderViolation(expected: U64, actual: U64)
    | ZeroByteBatch
    | TicketCounterOverflow
    | SchedulerShuttingDown

  datatype Scheduler = Scheduler(next: U64, highest: U64, depth: nat, queue: seq<Ticket>, shuttingDown: bool)

  function New(depth: nat): Scheduler {
    Scheduler(1, 0, Max(depth, 1), [], false)
  }

  function Refusal(s: Scheduler, byteSize: nat): Option<SchedulerError> {
    if s.shuttingDown then Some(SchedulerShuttingDown)
    else if byteSize == 0 then Some(ZeroByteBatch)
    else if |s.queue| >= s.depth then Some(QueueSaturated(s.depth))
    else if s.next == U64_MAX then Some(TicketCounterOverflow)
    else None
  }

  function Submitted(s: Scheduler, byteSize: nat, requiresSync: bool): (Scheduler, Result<Ticket, SchedulerError>) {
    match Refusal(s, byteSize)
    case Some(e) => (s, Err(e))
    case None =>
      var t := Ticket(s.next, byteSize, requiresSync);
      (s.(next := s.next + 1, queue := s.queue + [t]), Ok(t))
  }

  function Drained(s: Scheduler, maxBatch: nat): (Scheduler, seq<Ticket>) {
    var count := Min(|s.queue|, maxBatch);
    (s.(queue := s.queue[count..]), s.queue[..count])
  }

  /** What the id of ticket `i` must exceed. */
  function Before(tickets: seq<Ticket>, i: nat, floor: nat): nat
    requires i <= |tickets|
  {
    if i == 0 then floor else tickets[i - 1].id
  }

  lemma FirstBefore(tickets: seq<Ticket>, floor: nat)
    ensures Before(tickets, 0, floor) == floor
  {}

  lemma NextBefore(tickets: seq<Ticket>, i: nat, floor: nat)
    requires i < |tickets|
    ensures Before(tickets, i + 1, floor) == tickets[i].id
  {}

  /** Ids rise strictly from above `floor`. */
  predicate Rises(tickets: seq<Ticket>, floor: nat) {
    forall i :: 0 <= i < |tickets| ==> Before(tickets, i, floor) < tickets[i].id
  }

  /** Ticket `i` is the first that does not exceed what came before it. */
  predicate FirstFall(tickets: seq<Ticket>, i: nat, floor: nat) {
    && i < |tickets| && tickets[i].id <= Before(tickets, i, floor)
    && forall k :: 0 <= k < i ==> Before(tickets, k, floor) < tickets[k].id
  }

  /** The highest id an accepted batch commits. */
  function Top(tickets: seq<Ticket>, floor: U64): U64 {
    if tickets == [] then floor else tickets[|tickets| - 1].id
  }

  lemma TopIsLast(tickets: seq<Ticket>, floor: U64)
    ensures Top(tickets, floor) == Before(tickets, |tickets|, floor)
  {}

  function Acknowledged(s: Scheduler, tickets: seq<Ticket>): Scheduler {
    if Rises(tickets, s.highest) then s.(highest := Top(tickets, s.highest)) else s
  }

  predicate IsCommitted(s: Scheduler, id: U64) {
    s.highest >= id
  }

  // ---- The object -----------------------------------------------------

  class DecoupledCommitScheduler {
    var nextTicket: U64
    var highestCommitted: U64
    const maxQueueDepth: nat
    var queue: seq<Ticket>
    var isShuttingDown: bool

    function Value(): Scheduler
      reads this
    {
      Scheduler(nextTicket, highestCommitted, maxQueueDepth, queue, isShuttingDown)
    }

    constructor (depth: nat)
      ensures Value() == New(depth)
    {
      nextTicket, highestCommitted, maxQueueDepth, queue, isShuttingDown := 1, 0, Max(depth, 1), [], false;
    }

    /** A refused submit takes no ticket and leaves the queue alone. */
    method SubmitAsync(byteSize: nat, requiresSync: bool) returns (r: Result<Ticket, SchedulerError>)
      modifies this`nextTicket, this`queue
      ensures (Value(), r) == Submitted(old(Value()), byteSize, requiresSync)
    {
      if isShuttingDown {
        return Err(SchedulerShuttingDown);
      }
      if byteSize == 0 {
        return Err(ZeroByteBatch);
      }
      if |queue| >= maxQueueDepth {
        return Err(QueueSaturated(maxQueueDepth));
      }
      if nextTicket == U64_MAX {
        return Err(TicketCounterOverflow);
      }
      var ticket := Ticket(nextTicket, byteSize, requiresSync);
      nextTicket := nextTicket + 1;
      queue := queue + [ticket];
      return Ok(ticket);
    }

    method DrainForIoWorker(maxBatch: nat) returns (batch: seq<Ticket>)
      modifies this`queue
      ensures (Value(), batch) == Drained(old(Value()), maxBatch)
    {
      var count := Min(|queue|, maxBatch);
      batch := queue[..count];
      queue := queue[count..];
    }

    /** Accepts a batch whose ids rise from above the highest committed, else refuses it whole. */
    method AcknowledgeCommittedBatch(tickets: seq<Ticket>) returns (r: Result<U64, SchedulerError>)
      modifies this`highestCommitted
      ensures Value() == Acknowledged(old(Value()), tickets)
      ensures r.Ok? <==> Rises(tickets, old(highestCommitted))
      ensures r.Ok? ==> r.value == highestCommitted
      ensures r.Err? ==> exists i ::
                && 0 <= i < |tickets| && FirstFall(tickets, i, old(highestCommitted))
                && r.error == OrderViolation((Before(tickets, i, old(highestCommitted)) + 1) % TWO64, tickets[i].id)
    {
      hide Before;
      ghost var floor := highestCommitted;
      var current: U64 := highestCommitted;
      FirstBefore(tickets, floor);
      for i := 0 to |tickets|
        invariant Value() == old(Value()) && current == Before(tickets, i, floor)
        invariant forall k :: 0 <= k < i ==> Before(tickets, k, floor) < tickets[k].id
      {
        if tickets[i].id <= current {
          assert FirstFall(tickets, i, floor) && !Rises(tickets, floor);
          return Err(OrderViolation((current + 1) % TWO64, tickets[i].id));
        }
        current := tickets[i].id;
        NextBefore(tickets, i, floor);
      }
      TopIsLast(tickets, floor);
      highestCommitted := current;
      return Ok(current);
    }
  }

  // ---- One worker acknowledging in drain order ------------------------

  /** The scheduler with the batches drained so far, of which the first `acked` are acknowledged. */
  datatype System = System(s: Scheduler, batches: seq<seq<Ticket>>, acked: nat)

  datatype Step = Submit(byteSize: nat, requiresSync: bool) | Drain(maxBatch: nat) | Acknowledge

  predicate Enabled(y: System, e: Step) {
    e.Acknowledge? ==> y.acked < |y.batches|
  }

  function Next(y: System, e: Step): System
    requires Enabled(y, e)
  {
    match e
    case Submit(n, sync) => y.(s := Submitted(y.s, n, sync).0)
    case Drain(m) => var (s, batch) := Drained(y.s, m); y.(s := s, batches := y.batches + [batch])
    case Acknowledge => y.(s := Acknowledged(y.s, y.batches[y.acked]), acked := y.acked + 1)
  }

  function Flatten(batches: seq<seq<Ticket>>): seq<Ticket> {
    if batches == [] then [] else Flatten(batches[..|batches| - 1]) + batches[|batches| - 1]
  }

  /** The tickets are exactly `first`, `first + 1`, ... in order. */
  predicate Consecutive(tickets: seq<Ticket>, first: nat) {
    forall i :: 0 <= i < |tickets| ==> tickets[i].id == first + i
  }

  /** Every ticket ever given out: what was drained, then what still waits. */
  function History(y: System): seq<Ticket> {
    Flatten(y.batches) + y.s.queue
  }

  /** The history is tickets 1, 2, ... up to the next one; acknowledged up to the mark. */
  predicate Inv(y: System) {
    && y.acked <= |y.batches|
    && |History(y)| + 1 == y.s.next && Consecutive(History(y), 1)
    && |Flatten(y.batches[..y.acked])| == y.s.highest
  }

  /** Flattening a prefix of the batches gives a prefix of the tickets, and batch `n` comes next. */
  lemma {:induction false} FlattenPrefix(batches: seq<seq<Ticket>>, n: nat)
    requires n < |batches|
    ensures Flatten(batches[..n + 1]) == Flatten(batches[..n]) + batches[n]
    ensures Flatten(batches[..n + 1]) <= Flatten(batches)
  {
    assert batches[..n + 1][..n] == batches[..n];
    if n + 1 == |batches| {
      assert batches[..n + 1] == batches;
    } else {
      var init := batches[..|batches| - 1];
      FlattenPrefix(init, n);
      assert init[..n + 1] == batches[..n + 1];
    }
  }

  /** The next batch to acknowledge starts right above the highest committed ticket. */
  lemma NextBatchRises(y: System)
    requires Inv(y) && y.acked < |y.batches|
    ensures Consecutive(y.batches[y.acked], y.s.highest + 1)
    ensures Rises(y.batches[y.acked], y.s.highest)
    ensures Top(y.batches[y.acked], y.s.highest) == y.s.highest + |y.batches[y.acked]|
  {
    var b, done, all := y.batches[y.acked], Flatten(y.batches[..y.acked]), Flatten(y.batches) + y.s.queue;
    FlattenPrefix(y.batches, y.acked);
    forall i | 0 <= i < |b| ensures b[i].id == y.s.highest + 1 + i {
      assert (done + b)[|done| + i] == b[i];
      assert all[|done| + i] == b[i];
    }
    forall i | 0 < i < |b| ensures b[i - 1].id < b[i].id {}
  }

  lemma StepKeepsInv(y: System, e: Step)
    requires Inv(y) && Enabled(y, e)
    ensures Inv(Next(y, e))
  {
    var y' := Next(y, e);
    match e
    case Submit(n, sync) =>
      assert Flatten(y.batches) + (y.s.queue + [Ticket(y.s.next, n, sync)]) ==
             Flatten(y.batches) + y.s.queue + [Ticket(y.s.next, n, sync)];
    case Drain(m) =>
      assert y'.batches[..|y.batches|] == y.batches;
      assert y'.batches[..y.acked] == y.batches[..y.acked];
      assert Flatten(y'.batches) + y'.s.queue == Flatten(y.batches) + y.s.queue;
    case Acknowledge =>
      NextBatchRises(y);
      FlattenPrefix(y.batches, y.acked);
  }

  ghost predicate IsRun(run: seq<System>, steps: seq<Step>, depth: nat) {
    && |run| == |steps| + 1 && run[0] == System(New(depth), [], 0)
    && forall t :: 0 <= t < |steps| ==> Enabled(run[t], steps[t]) && run[t + 1] == Next(run[t], steps[t])
  }

  /** In every reachable state, drained history followed by the queue is exactly tickets 1 to next - 1. */
  lemma {:induction false} HistoryIsFifo(run: seq<System>, steps: seq<Step>, depth: nat, t: nat)
    requires IsRun(run, steps, depth) && t < |run|
    ensures Inv(run[t])
  {
    if t > 0 {
      HistoryIsFifo(run, steps, depth, t - 1);
      assert run[t - 1 + 1] == Next(run[t - 1], steps[t - 1]);
      StepKeepsInv(run[t - 1], steps[t - 1]);
    }
  }

  /** The queue never exceeds its depth, and nothing shuts the scheduler down. */
  lemma {:induction false} QueueBounded(run: seq<System>, steps: seq<Step>, depth: nat, t: nat)
    requires IsRun(run, steps, depth) && t < |run|
    ensures run[t].s.depth == Max(depth, 1) && |run[t].s.queue| <= Max(depth, 1) && !run[t].s.shuttingDown
  {
    if t > 0 {
      QueueBounded(run, steps, depth, t - 1);
      assert run[t - 1 + 1] == Next(run[t - 1], steps[t - 1]);
    }
  }

  /** In every reachable state a submit is accepted exactly if it has bytes, the queue has room and tickets are left. */
  lemma SubmitAcceptedExactly(run: seq<System>, steps: seq<Step>, depth: nat, t: nat, byteSize: nat, sync: bool)
    requires IsRun(run, steps, depth) && t < |run|
    ensures Submitted(run[t].s, byteSize, sync).1.Ok? <==>
            byteSize > 0 && |run[t].s.queue| < Max(depth, 1) && run[t].s.next < U64_MAX
  {
    QueueBounded(run, steps, depth, t);
  }

  /** A drain takes the front of the queue, as much as it asks for and no more than there is. */
  lemma DrainTakesExactly(s: Scheduler, maxBatch: nat)
    ensures var (s', batch) := Drained(s, maxBatch);
            batch + s'.queue == s.queue && |batch| == (if maxBatch < |s.queue| then maxBatch else |s.queue|)
  {}

  /** In drain order an acknowledgement never fails. */
  lemma AcknowledgeNeverFails(run: seq<System>, steps: seq<Step>, depth: nat, t: nat)
    requires IsRun(run, steps, depth) && t < |run| && run[t].acked < |run[t].batches|
    ensures Rises(run[t].batches[run[t].acked], run[t].s.highest)
  {
    HistoryIsFifo(run, steps, depth, t);
    NextBatchRises(run[t]);
  }

  /** Ticket `id` was in one of the acknowledged batches. */
  predicate InAcknowledged(y: System, id: U64)
    requires y.acked <= |y.batches|
  {
    exists k, i :: 0 <= k < y.acked && 0 <= i < |y.batches[k]| && y.batches[k][i].id == id
  }

  lemma {:induction false} FlattenMembers(batches: seq<seq<Ticket>>, t: Ticket)
    ensures t in Flatten(batches) <==> exists k :: 0 <= k < |batches| && t in batches[k]
  {
    if batches != [] {
      var n := |batches| - 1;
      FlattenMembers(batches[..n], t);
      if t in Flatten(batches[..n]) {
        var k :| 0 <= k < n && t in batches[..n][k];
        assert batches[k] == batches[..n][k];
      }
      if k :| 0 <= k < |batches| && t in batches[k] {
        assert k < n ==> batches[..n][k] == batches[k];
      }
    }
  }

  lemma {:induction false} FlattenIsPrefix(batches: seq<seq<Ticket>>, n: nat)
    requires n <= |batches|
    ensures Flatten(batches[..n]) <= Flatten(batches)
  {
    if n < |batches| {
      FlattenPrefix(batches, n);
    } else {
      assert batches[..n] == batches;
    }
  }

  /** A ticket counts as committed exactly when it was in an acknowledged batch. */
  lemma CommittedExactly(run: seq<System>, steps: seq<Step>, depth: nat, t: nat, id: U64)
    requires IsRun(run, steps, depth) && t < |run| && id >= 1
    ensures run[t].acked <= |run[t].batches|
    ensures IsCommitted(run[t].s, id) <==> InAcknowledged(run[t], id)
  {
    HistoryIsFifo(run, steps, depth, t);
    CommittedInState(run[t], id);
  }

  lemma CommittedInState(y: System, id: U64)
    requires Inv(y) && id >= 1
    ensures IsCommitted(y.s, id) <==> InAcknowledged(y, id)
  {
    var acked := y.batches[..y.acked];
    var done, all := Flatten(acked), Flatten(y.batches) + y.s.queue;
    FlattenIsPrefix(y.batches, y.acked);
    assert forall i :: 0 <= i < |done| ==> done[i] == all[i];
    if IsCommitted(y.s, id) {
      assert done[id - 1].id == id;
      FlattenMembers(acked, done[id - 1]);
      var k :| 0 <= k < |acked| && done[id - 1] in acked[k];
      var i :| 0 <= i < |acked[k]| && acked[k][i] == done[id - 1];
      assert y.batches[k][i].id == id;
    }
    if k, i :| 0 <= k < y.acked && 0 <= i < |y.batches[k]| && y.batches[k][i].id == id {
      var ticket := y.batches[k][i];
      assert acked[k] == y.batches[k];
      FlattenMembers(acked, ticket);
      var j :| 0 <= j < |done| && done[j] == ticket;
      assert all[j].id == 1 + j;
    }
  }

  /** No step touches the history, except that an accepted submit appends the ticket numbered by its own place. */
  lemma HistoryOnlyAppends(y: System, e: Step)
    requires Inv(y) && Enabled(y, e)
    ensures History(Next(y, e)) ==
            if e.Submit? && Refusal(y.s, e.byteSize).None?
            then History(y) + [Ticket(|History(y)| + 1, e.byteSize, e.requiresSync)]
            else History(y)
  {
    if e.Drain? {
      var y' := Next(y, e);
      assert y'.batches[..|y.batches|] == y.batches;
    }
  }

  /**
   Drain order is needed: acknowledging any later non-empty batch ahead of a non-empty one makes the
   skipped tickets count as committed, and then the skipped batch can no longer be acknowledged.
   */
  lemma OutOfOrderLosesBatch(y: System, k: nat)
    requires Inv(y) && y.acked < k < |y.batches| && y.batches[y.acked] != [] && y.batches[k] != []
    ensures var s := Acknowledged(y.s, y.batches[k]);
            && (forall i :: 0 <= i < |y.batches[y.acked]| ==> IsCommitted(s, y.batches[y.acked][i].id))
            && !Rises(y.batches[y.acked], s.highest)
  {
    var skipped, b := y.batches[y.acked], y.batches[k];
    NextBatchRises(y);
    LaterBatchAbove(y, k);
    assert Rises(b, y.s.highest);
    assert Before(skipped, 0, Top(b, y.s.highest)) >= skipped[0].id;
  }

  /** Every batch is consecutive, and a later one starts above all earlier batches. */
  lemma LaterBatchAbove(y: System, k: nat)
    requires Inv(y) && y.acked <= k < |y.batches|
    ensures Consecutive(y.batches[k], |Flatten(y.batches[..k])| + 1)
    ensures k > y.acked ==> |Flatten(y.batches[..k])| >= y.s.highest + |y.batches[y.acked]|
    ensures |Flatten(y.batches[..k])| >= y.s.highest && Rises(y.batches[k], y.s.highest)
  {
    var b, before, all := y.batches[k], Flatten(y.batches[..k]), Flatten(y.batches) + y.s.queue;
    FlattenPrefix(y.batches, k);
    forall i | 0 <= i < |b| ensures b[i].id == |before| + 1 + i {
      assert (before + b)[|before| + i] == b[i];
      assert all[|before| + i] == b[i];
    }
    FlattenIsPrefix(y.batches[..k], y.acked);
    assert y.batches[..k][..y.acked] == y.batches[..y.acked];
    if k > y.acked {
      FlattenPrefix(y.batches[..k], y.acked);
      assert y.batches[..k][..y.acked + 1] == y.batches[..y.acked + 1];
    }
    forall i | 0 < i < |b| ensures b[i - 1].id < b[i].id {}
  }
}
