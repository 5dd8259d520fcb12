/**
 Memtable generations and their write tickets. A ticket counts as an active writer of its generation
 until it is dropped; a generation may be flushed only once it is quiescing and nobody writes.
 */
module Quiescence {
  import opened Wrappers
  import opened Bytes

  datatype GenerationState = Active | Quiescing | Quiesced | Flushed

  type Entry = (seq<Byte>, U64)

  datatype Violation =
    | PrematureFlush(generation: U64, pendingWriters: nat)
    | KeyOmitted(key: seq<Byte>, sequence: U64, generation: U64)
    | GenerationMismatch(ticketGeneration: U64, memtableGeneration: U64)
    | KeyEmpty
    | InvalidState(state: GenerationState)

  datatype Generation = Generation(id: U64, activeWriters: nat, state: GenerationState, inserted: seq<Entry>)

  predicate Settled(g: Generation) {
    g.state.Quiesced? || g.state.Flushed?
  }

  // ---- One generation's calls -----------------------------------------

  function Acquired(g: Generation): Option<Generation> {
    if g.state.Active? then Some(g.(activeWriters := g.activeWriters + 1)) else None
  }

  /** `fetch_sub(1)` on the counter, which would wrap at zero. */
  function Dropped(g: Generation): Generation {
    g.(activeWriters := if g.activeWriters == 0 then U64_MAX else g.activeWriters - 1)
  }

  function RecordChecked(g: Generation, key: seq<Byte>, sequence: U64): Result<Generation, Violation> {
    if key == [] then Err(KeyEmpty)
    else if Settled(g) then Err(InvalidState(g.state))
    else Ok(g.(inserted := g.inserted + [(key, sequence)]))
  }

  function RecordTicketed(g: Generation, ticketGeneration: U64, key: seq<Byte>, sequence: U64): Result<Generation, Violation> {
    if ticketGeneration != g.id then Err(GenerationMismatch(ticketGeneration, g.id))
    else if key == [] then Err(KeyEmpty)
    else if g.state.Flushed? then Err(PrematureFlush(g.id, 0))
    else Ok(g.(inserted := g.inserted + [(key, sequence)]))
  }

  function BeganQuiescence(g: Generation): Generation {
    if g.state.Active? then g.(state := Quiescing) else g
  }

  function TriedQuiesce(g: Generation): (Generation, bool) {
    if g.state.Quiescing? && g.activeWriters == 0 then (g.(state := Quiesced), true) else (g, Settled(g))
  }

  function TriedFlush(g: Generation): Result<Generation, Violation> {
    if g.activeWriters > 0 then Err(PrematureFlush(g.id, g.activeWriters))
    else if !g.state.Quiesced? then Err(InvalidState(g.state))
    else Ok(g.(state := Flushed))
  }

  /** What the flush oracle demands of a generation and the keys of an SST. */
  predicate FlushSafe(g: Generation, sst: seq<Entry>) {
    g.activeWriters == 0 && Settled(g) && forall i :: 0 <= i < |g.inserted| ==> g.inserted[i] in sst
  }

  /** The source's oracle: refuses a premature flush, else names the first key left out. */
  method VerifyFlushSafety(g: Generation, sst: seq<Entry>) returns (r: Result<(), Violation>)
    ensures r.Ok? <==> FlushSafe(g, sst)
    ensures r.Err? && r.error.KeyOmitted? ==>
              exists i :: 0 <= i < |g.inserted| && r.error == KeyOmitted(g.inserted[i].0, g.inserted[i].1, g.id) &&
                          g.inserted[i] !in sst && forall j :: 0 <= j < i ==> g.inserted[j] in sst
  {
    if g.activeWriters > 0 || (!g.state.Quiesced? && !g.state.Flushed?) {
      return Err(PrematureFlush(g.id, g.activeWriters));
    }
    var keys := set e | e in sst;
    for i := 0 to |g.inserted|
      invariant forall j :: 0 <= j < i ==> g.inserted[j] in sst
    {
      if g.inserted[i] !in keys {
        return Err(KeyOmitted(g.inserted[i].0, g.inserted[i].1, g.id));
      }
    }
    return Ok(());
  }

  // ---- Many generations and live tickets ------------------------------

  /** Generations by handle; live tickets with the handle of the counter they hold. */
  datatype System = System(generations: map<nat, Generation>, tickets: map<nat, nat>)

  datatype Step =
    | Create(handle: nat, id: U64)
    | Acquire(handle: nat, ticket: nat)
    | Drop(ticket: nat)
    | Record(handle: nat, key: seq<Byte>, sequence: U64)
    | RecordWith(handle: nat, ticket: nat, key: seq<Byte>, sequence: U64)
    | BeginQuiescence(handle: nat)
    | TryQuiesce(handle: nat)
    | TryMarkFlushed(handle: nat)

  /** Steps name what exists; new generations and tickets are new. */
  predicate Enabled(s: System, e: Step) {
    match e
    case Create(h, _) => h !in s.generations
    case Acquire(h, t) => h in s.generations && t !in s.tickets
    case Drop(t) => t in s.tickets && s.tickets[t] in s.generations
    case Record(h, _, _) => h in s.generations
    case RecordWith(h, t, _, _) => h in s.generations && t in s.tickets && s.tickets[t] in s.generations
    case BeginQuiescence(h) => h in s.generations
    case TryQuiesce(h) => h in s.generations
    case TryMarkFlushed(h) => h in s.generations
  }

  /** The generation with a call's result, unchanged if the call was refused. */
  function Kept(g: Generation, r: Result<Generation, Violation>): Generation {
    if r.Ok? then r.value else g
  }

  function Next(s: System, e: Step): System
    requires Enabled(s, e)
  {
    match e
    case Create(h, id) => s.(generations := s.generations[h := Generation(id, 0, Active, [])])
    case Acquire(h, t) =>
      var g := Acquired(s.generations[h]);
      if g.Some? then System(s.generations[h := g.value], s.tickets[t := h]) else s
    case Drop(t) =>
      var h := s.tickets[t];
      System(s.generations[h := Dropped(s.generations[h])], s.tickets - {t})
    case Record(h, key, sequence) =>
      var g := s.generations[h];
      s.(generations := s.generations[h := Kept(g, RecordChecked(g, key, sequence))])
    case RecordWith(h, t, key, sequence) =>
      var g := s.generations[h];
      s.(generations := s.generations[h := Kept(g, RecordTicketed(g, s.generations[s.tickets[t]].id, key, sequence))])
    case BeginQuiescence(h) => s.(generations := s.generations[h := BeganQuiescence(s.generations[h])])
    case TryQuiesce(h) => s.(generations := s.generations[h := TriedQuiesce(s.generations[h]).0])
    case TryMarkFlushed(h) =>
      var g := s.generations[h];
      s.(generations := s.generations[h := Kept(g, TriedFlush(g))])
  }

  predicate UniqueIds(s: System) {
    forall g, h :: g in s.generations && h in s.generations && s.generations[g].id == s.generations[h].id ==> g == h
  }

  /** The live tickets of a generation. */
  function TicketsOf(s: System, h: nat): set<nat> {
    Holders(s.tickets, h)
  }

  function Holders(tickets: map<nat, nat>, h: nat): set<nat> {
    set t | t in tickets && tickets[t] == h
  }

  lemma OneMoreHolder(tickets: map<nat, nat>, t: nat, g: nat, h: nat)
    requires t !in tickets
    ensures |Holders(tickets[t := g], h)| == |Holders(tickets, h)| + if g == h then 1 else 0
  {
    assert Holders(tickets[t := g], h) == Holders(tickets, h) + if g == h then {t} else {};
  }

  lemma OneHolderLess(tickets: map<nat, nat>, t: nat, h: nat)
    requires t in tickets
    ensures |Holders(tickets - {t}, h)| == |Holders(tickets, h)| - if tickets[t] == h then 1 else 0
  {
    assert Holders(tickets - {t}, h) == Holders(tickets, h) - if tickets[t] == h then {t} else {};
    assert tickets[t] == h ==> t in Holders(tickets, h);
  }

  /** The counter counts the live tickets; nobody writes a settled generation. */
  predicate Inv(s: System) {
    && (forall t :: t in s.tickets ==> s.tickets[t] in s.generations)
    && (forall h :: h in s.generations ==> s.generations[h].activeWriters == |TicketsOf(s, h)|)
    && (forall h :: h in s.generations && Settled(s.generations[h]) ==> s.generations[h].activeWriters == 0)
  }

  /** How many tickets a step adds to generation `h`. */
  function Change(s: System, e: Step, h: nat): int
    requires Enabled(s, e)
  {
    match e
    case Acquire(g, _) => if g == h && s.generations[g].state.Active? then 1 else 0
    case Drop(t) => if s.tickets[t] == h then -1 else 0
    case _ => 0
  }

  lemma TicketMapAfter(s: System, e: Step)
    requires Enabled(s, e)
    ensures Next(s, e).tickets ==
            match e
            case Acquire(h, t) => if s.generations[h].state.Active? then s.tickets[t := h] else s.tickets
            case Drop(t) => s.tickets - {t}
            case _ => s.tickets
  {}

  lemma TicketsChange(s: System, e: Step, h: nat)
    requires Enabled(s, e)
    ensures |TicketsOf(Next(s, e), h)| == |TicketsOf(s, h)| + Change(s, e, h)
  {
    TicketMapAfter(s, e);
    hide Next, Holders;
    match e
    case Acquire(g, t) => OneMoreHolder(s.tickets, t, g, h);
    case Drop(t) => OneHolderLess(s.tickets, t, h);
    case _ =>
  }

  lemma CounterChange(s: System, e: Step, h: nat)
    requires Enabled(s, e) && h in s.generations && (Change(s, e, h) == -1 ==> s.generations[h].activeWriters > 0)
    ensures h in Next(s, e).generations
    ensures Next(s, e).generations[h].activeWriters == s.generations[h].activeWriters + Change(s, e, h)
    ensures Settled(s.generations[h]) ==> Change(s, e, h) != 1
    ensures Settled(Next(s, e).generations[h]) && !Settled(s.generations[h]) ==> s.generations[h].activeWriters == 0
  {}

  lemma StepKeepsInv(s: System, e: Step)
    requires Inv(s) && Enabled(s, e)
    ensures Inv(Next(s, e))
  {
    var s' := Next(s, e);
    forall h | h in s'.generations
      ensures s'.generations[h].activeWriters == |TicketsOf(s', h)|
      ensures Settled(s'.generations[h]) ==> s'.generations[h].activeWriters == 0
    {
      TicketsChange(s, e, h);
      if h in s.generations {
        assert e.Drop? && s.tickets[e.ticket] == h ==> e.ticket in TicketsOf(s, h);
        CounterChange(s, e, h);
      } else {
        assert TicketsOf(s, h) == {};
      }
    }
  }

  /** A settled generation stays settled and keeps its keys, as long as ids are unique. */
  lemma StepKeepsSettled(s: System, e: Step, h: nat)
    requires Inv(s) && Enabled(s, e) && UniqueIds(s) && h in s.generations && Settled(s.generations[h])
    ensures h in Next(s, e).generations
    ensures Settled(Next(s, e).generations[h]) && Next(s, e).generations[h].inserted == s.generations[h].inserted
    ensures Next(s, e).generations[h].activeWriters == 0
  {
    StepKeepsInv(s, e);
    assert |TicketsOf(s, h)| == 0;
    if e.RecordWith? && e.handle == h {
      assert e.ticket !in TicketsOf(s, h);
    }
  }

  // ---- Runs -----------------------------------------------------------

  ghost predicate IsRun(run: seq<System>, steps: seq<Step>) {
    && |run| == |steps| + 1 && run[0] == System(map[], map[])
    && forall t :: 0 <= t < |steps| ==> Enabled(run[t], steps[t]) && run[t + 1] == Next(run[t], steps[t])
  }

  /** In every reachable state the counter equals the number of live tickets, and settled generations have none. */
  lemma {:induction false} CounterCountsTickets(run: seq<System>, steps: seq<Step>, t: nat)
    requires IsRun(run, steps) && t < |run|
    ensures Inv(run[t])
  {
    if t > 0 {
      CounterCountsTickets(run, steps, t - 1);
      assert run[t - 1 + 1] == Next(run[t - 1], steps[t - 1]);
      StepKeepsInv(run[t - 1], steps[t - 1]);
    }
  }

  // ---- What is recorded, and in which order states pass ---------------

  /** The call `e` answers that it inserted into generation `h`. */
  predicate Accepted(s: System, e: Step, h: nat) {
    Enabled(s, e) &&
    match e
    case Record(g, key, sequence) => g == h && RecordChecked(s.generations[g], key, sequence).Ok?
    case RecordWith(g, t, key, sequence) =>
      g == h && RecordTicketed(s.generations[g], s.generations[s.tickets[t]].id, key, sequence).Ok?
    case _ => false
  }

  function EntryOf(e: Step): Entry
    requires e.Record? || e.RecordWith?
  {
    (e.key, e.sequence)
  }

  /** When an insert is accepted: a real key; checked, until the generation settles; ticketed, by its id until it is flushed. */
  lemma AcceptedExactly(s: System, e: Step, h: nat)
    requires Enabled(s, e) && h in s.generations
    ensures var g := s.generations[h];
            Accepted(s, e, h) <==>
            || (e.Record? && e.handle == h && e.key != [] && (g.state.Active? || g.state.Quiescing?))
            || (e.RecordWith? && e.handle == h && e.key != [] && !g.state.Flushed? &&
                s.generations[s.tickets[e.ticket]].id == g.id)
  {}

  /** The inserts into `h` accepted in the first `t` steps, in call order. */
  function AcceptedInto(run: seq<System>, steps: seq<Step>, t: nat, h: nat): seq<Entry>
    requires t <= |steps| && |run| == |steps| + 1
  {
    if t == 0 then []
    else
      AcceptedInto(run, steps, t - 1, h) +
      if Accepted(run[t - 1], steps[t - 1], h) then [EntryOf(steps[t - 1])] else []
  }

  lemma StepRecords(s: System, e: Step, h: nat)
    requires Enabled(s, e)
    ensures h in s.generations ==> h in Next(s, e).generations
    ensures h in s.generations ==>
              Next(s, e).generations[h].inserted == s.generations[h].inserted + if Accepted(s, e, h) then [EntryOf(e)] else []
    ensures h !in s.generations ==>
              !Accepted(s, e, h) && (h in Next(s, e).generations ==> Next(s, e).generations[h].inserted == [])
  {}

  /** At every moment of every run a generation holds exactly the inserts it accepted, in call order with their sequences. */
  lemma {:induction false} InsertedExactly(run: seq<System>, steps: seq<Step>, t: nat, h: nat)
    requires IsRun(run, steps) && t < |run|
    ensures AcceptedInto(run, steps, t, h) == if h in run[t].generations then run[t].generations[h].inserted else []
  {
    if t > 0 {
      InsertedExactly(run, steps, t - 1, h);
      assert run[t - 1 + 1] == Next(run[t - 1], steps[t - 1]);
      StepRecords(run[t - 1], steps[t - 1], h);
      hide Next, Accepted;
    }
  }

  lemma {:induction false} AcceptedIsListed(run: seq<System>, steps: seq<Step>, k: nat, t: nat, h: nat)
    requires |run| == |steps| + 1 && k < t <= |steps| && Accepted(run[k], steps[k], h)
    ensures EntryOf(steps[k]) in AcceptedInto(run, steps, t, h)
  {
    hide Accepted;
    if k < t - 1 { AcceptedIsListed(run, steps, k, t - 1, h); }
  }

  /** An accepted insert is never lost: it is there at every later moment, and the oracle refuses every SST without it. */
  lemma AcceptedIsKept(run: seq<System>, steps: seq<Step>, k: nat, t: nat, h: nat)
    requires IsRun(run, steps) && k < t < |run| && Accepted(run[k], steps[k], h)
    ensures h in run[t].generations && EntryOf(steps[k]) in run[t].generations[h].inserted
    ensures forall sst :: EntryOf(steps[k]) !in sst ==> !FlushSafe(run[t].generations[h], sst)
  {
    InsertedExactly(run, steps, t, h);
    AcceptedIsListed(run, steps, k, t, h);
    hide AcceptedInto, Accepted;
    var inserted := run[t].generations[h].inserted;
    var i :| 0 <= i < |inserted| && inserted[i] == EntryOf(steps[k]);
  }

  /** A generation's state moves one way, each move by its own call; it quiesces exactly if no live ticket is left. */
  lemma StateMovesExactly(s: System, e: Step, h: nat)
    requires Inv(s) && Enabled(s, e) && h in s.generations
    ensures h in Next(s, e).generations
    ensures Next(s, e).generations[h].state ==
            match s.generations[h].state
            case Active => if e == BeginQuiescence(h) then Quiescing else Active
            case Quiescing => if e == TryQuiesce(h) && TicketsOf(s, h) == {} then Quiesced else Quiescing
            case Quiesced => if e == TryMarkFlushed(h) then Flushed else Quiesced
            case Flushed => Flushed
  {
    assert TicketsOf(s, h) == {} <==> s.generations[h].activeWriters == 0;
  }

  /** From the beginning of quiescence on no ticket of a generation is given out. */
  lemma {:induction false} NoNewTickets(run: seq<System>, steps: seq<Step>, t: nat, u: nat, h: nat)
    requires IsRun(run, steps) && t <= u < |run| && h in run[t].generations && !run[t].generations[h].state.Active?
    ensures h in run[u].generations && !run[u].generations[h].state.Active?
    ensures TicketsOf(run[u], h) <= TicketsOf(run[t], h)
    decreases u
  {
    if t < u {
      NoNewTickets(run, steps, t, u - 1, h);
      var s, e := run[u - 1], steps[u - 1];
      assert run[u - 1 + 1] == Next(s, e);
      CounterCountsTickets(run, steps, u - 1);
      StateMovesExactly(s, e, h);
      TicketMapAfter(s, e);
      hide Next, Inv;
      assert TicketsOf(run[u], h) <= TicketsOf(s, h);
    }
  }

  // ---- Frozen keys ----------------------------------------------------

  /** Once quiesced, a generation's keys never change again. */
  lemma {:induction false} KeysFrozen(run: seq<System>, steps: seq<Step>, t: nat, u: nat, h: nat)
    requires IsRun(run, steps) && t <= u < |run| && (forall v :: 0 <= v < |run| ==> UniqueIds(run[v]))
    requires h in run[t].generations && Settled(run[t].generations[h])
    ensures h in run[u].generations && Settled(run[u].generations[h])
    ensures run[u].generations[h].inserted == run[t].generations[h].inserted
    ensures run[u].generations[h].activeWriters == 0 && TicketsOf(run[u], h) == {}
    decreases u
  {
    CounterCountsTickets(run, steps, u);
    if t < u {
      KeysFrozen(run, steps, t, u - 1, h);
      CounterCountsTickets(run, steps, u - 1);
      assert run[u - 1 + 1] == Next(run[u - 1], steps[u - 1]);
      StepKeepsSettled(run[u - 1], steps[u - 1], h);
    }
    assert |TicketsOf(run[u], h)| == 0;
  }

  /** An SST cut at quiescence passes the flush oracle then and forever after. */
  lemma FlushStaysSafe(run: seq<System>, steps: seq<Step>, t: nat, u: nat, h: nat, sst: seq<Entry>)
    requires IsRun(run, steps) && t <= u < |run| && (forall v :: 0 <= v < |run| ==> UniqueIds(run[v]))
    requires h in run[t].generations && Settled(run[t].generations[h])
    requires forall i :: 0 <= i < |run[t].generations[h].inserted| ==> run[t].generations[h].inserted[i] in sst
    ensures h in run[u].generations && FlushSafe(run[u].generations[h], sst)
  {
    KeysFrozen(run, steps, t, u, h);
  }

  /** And whatever the oracle accepts once, it accepts ever after. */
  lemma SafeForever(run: seq<System>, steps: seq<Step>, t: nat, u: nat, h: nat, sst: seq<Entry>)
    requires IsRun(run, steps) && t <= u < |run| && (forall v :: 0 <= v < |run| ==> UniqueIds(run[v]))
    requires h in run[t].generations && FlushSafe(run[t].generations[h], sst)
    ensures h in run[u].generations && FlushSafe(run[u].generations[h], sst)
  {
    FlushStaysSafe(run, steps, t, u, h, sst);
  }

  // ---- When exactly the keys are frozen -------------------------------

  /** `run` continues `s` by `steps`. */
  ghost predicate Continues(s: System, run: seq<System>, steps: seq<Step>) {
    && |run| == |steps| + 1 && run[0] == s
    && forall t :: 0 <= t < |steps| ==> Enabled(run[t], steps[t]) && run[t + 1] == Next(run[t], steps[t])
  }

  /** The run ends with other keys in generation `h` than it began with. */
  ghost predicate ChangesKeys(s: System, h: nat, run: seq<System>, steps: seq<Step>) {
    && Continues(s, run, steps) && h in s.generations && h in run[|steps|].generations
    && run[|steps|].generations[h].inserted != s.generations[h].inserted
  }

  predicate CreatesNone(steps: seq<Step>, id: U64) {
    forall t :: 0 <= t < |steps| ==> !(steps[t].Create? && steps[t].id == id)
  }

  /** A live ticket carries `id`. */
  predicate HasTicket(s: System, id: U64)
    requires Inv(s)
  {
    exists t :: t in s.tickets && s.generations[s.tickets[t]].id == id
  }

  /** A generation of `id` still gives out tickets. */
  predicate HasActive(s: System, id: U64) {
    exists g :: g in s.generations && s.generations[g].id == id && s.generations[g].state.Active?
  }

  lemma {:induction false} FreshNumber(used: set<nat>) returns (n: nat)
    ensures n !in used && forall k :: k in used ==> k < n
    decreases |used|
  {
    n := 0;
    if used != {} {
      var k :| k in used;
      var m := FreshNumber(used - {k});
      n := if k < m then m else k + 1;
      forall j | j in used ensures j < n { assert j == k || j in used - {k}; }
    }
  }

  /** A step keeps a flushed generation as it is, whoever takes it. */
  lemma {:induction false} FlushedForever(s: System, run: seq<System>, steps: seq<Step>, h: nat, t: nat)
    requires Inv(s) && Continues(s, run, steps) && t < |run|
    requires h in s.generations && s.generations[h].state.Flushed?
    ensures Inv(run[t]) && h in run[t].generations && run[t].generations[h] == s.generations[h]
  {
    if t > 0 {
      FlushedForever(s, run, steps, h, t - 1);
      assert run[t - 1 + 1] == Next(run[t - 1], steps[t - 1]);
      StepKeepsInv(run[t - 1], steps[t - 1]);
      StepKeepsFlushed(run[t - 1], steps[t - 1], h);
    }
  }

  lemma StepKeepsFlushed(s: System, e: Step, h: nat)
    requires Inv(s) && Enabled(s, e) && h in s.generations && s.generations[h].state.Flushed?
    ensures h in Next(s, e).generations && Next(s, e).generations[h] == s.generations[h]
  {
    assert |TicketsOf(s, h)| == 0;
    if e.Drop? { assert e.ticket !in TicketsOf(s, h); }
  }

  /** With no ticket of its id and nobody to give one out, a settled generation keeps its keys in one step, and the rest too. */
  lemma StepKeepsSealed(s: System, e: Step, h: nat)
    requires Inv(s) && Enabled(s, e) && h in s.generations && Settled(s.generations[h])
    requires var id := s.generations[h].id; !HasTicket(s, id) && !HasActive(s, id) && CreatesNone([e], id)
    ensures Inv(Next(s, e)) && h in Next(s, e).generations
    ensures var g := Next(s, e).generations[h];
            && Settled(g) && g.id == s.generations[h].id && g.inserted == s.generations[h].inserted
            && !HasTicket(Next(s, e), g.id) && !HasActive(Next(s, e), g.id)
  {
    var id := s.generations[h].id;
    StepKeepsInv(s, e);
    assert |TicketsOf(s, h)| == 0;
    if e.Drop? { assert e.ticket !in TicketsOf(s, h); }
    NoneBecomesActive(s, e, id);
    NoneGetsTicket(s, e, id);
    hide Inv, HasTicket, HasActive, CreatesNone;
  }

  lemma NoneBecomesActive(s: System, e: Step, id: U64)
    requires Enabled(s, e) && !HasActive(s, id) && CreatesNone([e], id)
    ensures !HasActive(Next(s, e), id)
  {
    assert [e][0] == e;
  }

  lemma NoneGetsTicket(s: System, e: Step, id: U64)
    requires Inv(s) && Enabled(s, e) && !HasTicket(s, id) && !HasActive(s, id) && Inv(Next(s, e))
    ensures !HasTicket(Next(s, e), id)
  {
    TicketMapAfter(s, e);
    var s' := Next(s, e);
    forall t | t in s'.tickets ensures s'.generations[s'.tickets[t]].id != id {
      var g := s'.tickets[t];
      assert g in s.generations && s'.generations[g].id == s.generations[g].id;
      assert t in s.tickets || s.generations[g].state.Active?;
    }
  }

  lemma {:induction false} SealedForever(s: System, run: seq<System>, steps: seq<Step>, h: nat, t: nat)
    requires Inv(s) && Continues(s, run, steps) && t < |run| && h in s.generations && Settled(s.generations[h])
    requires var id := s.generations[h].id; !HasTicket(s, id) && !HasActive(s, id) && CreatesNone(steps, id)
    ensures Inv(run[t]) && h in run[t].generations
    ensures var g := run[t].generations[h];
            && Settled(g) && g.id == s.generations[h].id && g.inserted == s.generations[h].inserted
            && !HasTicket(run[t], g.id) && !HasActive(run[t], g.id)
  {
    if t > 0 {
      SealedForever(s, run, steps, h, t - 1);
      assert run[t - 1 + 1] == Next(run[t - 1], steps[t - 1]);
      assert CreatesNone([steps[t - 1]], s.generations[h].id);
      StepKeepsSealed(run[t - 1], steps[t - 1], h);
    }
  }

  /** A ticket of the id writes a generation that is only quiesced. */
  lemma TicketWrites(s: System, h: nat, t: nat) returns (run: seq<System>, steps: seq<Step>)
    requires Inv(s) && h in s.generations && s.generations[h].state.Quiesced?
    requires t in s.tickets && s.generations[s.tickets[t]].id == s.generations[h].id
    ensures ChangesKeys(s, h, run, steps) && CreatesNone(steps, s.generations[h].id)
  {
    steps := [RecordWith(h, t, [0], 0)];
    run := [s, Next(s, steps[0])];
    assert |run[1].generations[h].inserted| == |s.generations[h].inserted| + 1;
  }

  /** A step before a key-changing continuation that leaves the keys of `h` alone. */
  lemma StepFirst(s: System, e: Step, h: nat, run: seq<System>, steps: seq<Step>)
    requires Enabled(s, e) && ChangesKeys(Next(s, e), h, run, steps)
    requires h in s.generations && Next(s, e).generations[h].inserted == s.generations[h].inserted
    ensures ChangesKeys(s, h, [s] + run, [e] + steps)
  {
    var run', steps' := [s] + run, [e] + steps;
    forall t | 0 <= t < |steps'| ensures Enabled(run'[t], steps'[t]) && run'[t + 1] == Next(run'[t], steps'[t]) {
      if t > 0 { assert run[t - 1 + 1] == Next(run[t - 1], steps[t - 1]); }
    }
  }

  /** An active twin gives out the ticket that writes. */
  lemma ActiveTwinWrites(s: System, h: nat, g: nat) returns (run: seq<System>, steps: seq<Step>)
    requires Inv(s) && h in s.generations && s.generations[h].state.Quiesced?
    requires g in s.generations && s.generations[g].id == s.generations[h].id && s.generations[g].state.Active?
    ensures ChangesKeys(s, h, run, steps) && CreatesNone(steps, s.generations[h].id)
  {
    var t := FreshNumber(s.tickets.Keys);
    var e := Acquire(g, t);
    StepKeepsInv(s, e);
    var later, more := TicketWrites(Next(s, e), h, t);
    StepFirst(s, e, h, later, more);
    run, steps := [s] + later, [e] + more;
  }

  /** And where there is no twin one can be created. */
  lemma QuiescedCanChange(s: System, h: nat) returns (run: seq<System>, steps: seq<Step>)
    requires Inv(s) && h in s.generations && s.generations[h].state.Quiesced?
    ensures ChangesKeys(s, h, run, steps)
  {
    var g := FreshNumber(s.generations.Keys);
    var e := Create(g, s.generations[h].id);
    StepKeepsInv(s, e);
    var later, more := ActiveTwinWrites(Next(s, e), h, g);
    StepFirst(s, e, h, later, more);
    run, steps := [s] + later, [e] + more;
  }

  /**
   When exactly a settled generation's keys are final, over every continuation of every state that meets
   the invariant: some continuation changes them exactly if it is not flushed yet. Among continuations that
   create no generation of its id, one does exactly if it is not flushed yet and a live ticket carries its
   id or an active generation of its id can still give one out.
   */
  lemma FrozenExactly(s: System, h: nat)
    requires Inv(s) && h in s.generations && Settled(s.generations[h])
    ensures (exists run, steps :: ChangesKeys(s, h, run, steps)) <==> !s.generations[h].state.Flushed?
    ensures var id := s.generations[h].id;
            (exists run, steps :: ChangesKeys(s, h, run, steps) && CreatesNone(steps, id)) <==>
            !s.generations[h].state.Flushed? && (HasTicket(s, id) || HasActive(s, id))
  {
    var id := s.generations[h].id;
    if run, steps :| ChangesKeys(s, h, run, steps) {
      if s.generations[h].state.Flushed? { FlushedForever(s, run, steps, h, |steps|); }
    }
    if run, steps :| ChangesKeys(s, h, run, steps) && CreatesNone(steps, id) {
      if !HasTicket(s, id) && !HasActive(s, id) { SealedForever(s, run, steps, h, |steps|); }
    }
    if !s.generations[h].state.Flushed? {
      var run, steps := QuiescedCanChange(s, h);
      if t :| t in s.tickets && s.generations[s.tickets[t]].id == id {
        var run, steps := TicketWrites(s, h, t);
      }
      if g :| g in s.generations && s.generations[g].id == id && s.generations[g].state.Active? {
        var run, steps := ActiveTwinWrites(s, h, g);
      }
    }
  }

  /** In particular, at every moment of every run: a generation just quiesced may still change, a flushed one never. */
  lemma FrozenInRuns(run: seq<System>, steps: seq<Step>, t: nat, h: nat)
    requires IsRun(run, steps) && t < |run| && h in run[t].generations && Settled(run[t].generations[h])
    ensures (exists later, more :: ChangesKeys(run[t], h, later, more)) <==> !run[t].generations[h].state.Flushed?
  {
    CounterCountsTickets(run, steps, t);
    FrozenExactly(run[t], h);
  }

  /**
   Unique ids are needed: with two generations of one id, a ticket of the other inserts into a quiesced
   generation, and an SST cut before no longer passes.
   */
  lemma TwinIdsBreakFreeze(id: U64) returns (run: seq<System>, steps: seq<Step>)
    ensures IsRun(run, steps) && |run| == 7
    ensures 1 in run[5].generations && FlushSafe(run[5].generations[1], [])
    ensures 1 in run[6].generations && !FlushSafe(run[6].generations[1], [])
  {
    steps := [Create(1, id), Create(2, id), Acquire(2, 7), BeginQuiescence(1), TryQuiesce(1), RecordWith(1, 7, [0], 1)];
    var s0 := System(map[], map[]);
    var s1 := Next(s0, steps[0]);
    var s2 := Next(s1, steps[1]);
    var s3 := Next(s2, steps[2]);
    var s4 := Next(s3, steps[3]);
    var s5 := Next(s4, steps[4]);
    var s6 := Next(s5, steps[5]);
    run := [s0, s1, s2, s3, s4, s5, s6];
    assert s6.generations[1].inserted[0] == ([0], 1);
  }

  // ---- The objects ----------------------------------------------------

  class MemTableGeneration {
    const id: U64
    var activeWriters: nat
    var state: GenerationState
    var inserted: seq<Entry>

    function Value(): Generation
      reads this
    {
      Generation(id, activeWriters, state, inserted)
    }

    constructor (id: U64)
      ensures Value() == Generation(id, 0, Active, [])
    {
      this.id, activeWriters, state, inserted := id, 0, Active, [];
    }

    method AcquireWriteTicket() returns (ticket: WriteTicket?)
      modifies this`activeWriters
      ensures ticket == null ==> Acquired(old(Value())).None? && Value() == old(Value())
      ensures ticket != null ==> Acquired(old(Value())) == Some(Value()) && fresh(ticket) &&
                                 ticket.generation == id && ticket.counter == this
    {
      if state != Active {
        return null;
      }
      activeWriters := activeWriters + 1;
      ticket := new WriteTicket(this);
    }

    method TryRecordInsertion(key: seq<Byte>, sequence: U64) returns (r: Result<(), Violation>)
      modifies this`inserted
      ensures Value() == Kept(old(Value()), RecordChecked(old(Value()), key, sequence))
      ensures match RecordChecked(old(Value()), key, sequence) case Ok(_) => r.Ok? case Err(e) => r == Err(e)
      ensures r.Ok? <==> key != [] && (state == Active || state == Quiescing)
      ensures inserted == old(inserted) + if r.Ok? then [(key, sequence)] else []
    {
      if key == [] {
        return Err(KeyEmpty);
      }
      if state == Flushed || state == Quiesced {
        return Err(InvalidState(state));
      }
      inserted := inserted + [(key, sequence)];
      return Ok(());
    }

    method RecordInsertionWithTicket(ticket: WriteTicket, key: seq<Byte>, sequence: U64) returns (r: Result<(), Violation>)
      modifies this`inserted
      ensures Value() == Kept(old(Value()), RecordTicketed(old(Value()), ticket.generation, key, sequence))
      ensures match RecordTicketed(old(Value()), ticket.generation, key, sequence) case Ok(_) => r.Ok? case Err(e) => r == Err(e)
      ensures r.Ok? <==> ticket.generation == id && key != [] && state != Flushed
      ensures inserted == old(inserted) + if r.Ok? then [(key, sequence)] else []
    {
      if ticket.generation != id {
        return Err(GenerationMismatch(ticket.generation, id));
      }
      if key == [] {
        return Err(KeyEmpty);
      }
      if state == Flushed {
        return Err(PrematureFlush(id, 0));
      }
      inserted := inserted + [(key, sequence)];
      return Ok(());
    }

    method BeginQuiescence()
      modifies this`state
      ensures Value() == BeganQuiescence(old(Value()))
    {
      if state == Active {
        state := Quiescing;
      }
    }

    method TryQuiesce() returns (quiesced: bool)
      modifies this`state
      ensures (Value(), quiesced) == TriedQuiesce(old(Value()))
    {
      if state == Quiescing {
        if activeWriters == 0 {
          state := Quiesced;
          return true;
        }
      }
      return state == Quiesced || state == Flushed;
    }

    method TryMarkFlushed() returns (r: Result<(), Violation>)
      modifies this`state
      ensures Value() == Kept(old(Value()), TriedFlush(old(Value())))
      ensures match TriedFlush(old(Value())) case Ok(_) => r.Ok? case Err(e) => r == Err(e)
    {
      if activeWriters > 0 {
        return Err(PrematureFlush(id, activeWriters));
      }
      if state != Quiesced {
        return Err(InvalidState(state));
      }
      state := Flushed;
      return Ok(());
    }
  }

  class WriteTicket {
    const generation: U64
    const counter: MemTableGeneration

    constructor (g: MemTableGeneration)
      ensures generation == g.id && counter == g
    {
      generation, counter := g.id, g;
    }

    /** Runs when the ticket goes out of scope. */
    method Drop()
      modifies counter`activeWriters
      ensures counter.Value() == Dropped(old(counter.Value()))
    {
      counter.activeWriters := if counter.activeWriters == 0 then U64_MAX else counter.activeWriters - 1;
    }
  }
}
