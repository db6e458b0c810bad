/** Running a function on other cores: eight slots, one interrupt vector each, any number of cores and of
    concurrent calls, in any interleaving. Only the policies that wait for completion are modelled. */
module ParallelExecution {
  import opened Basics
  import IV = InterruptVectors

  type Core = nat
  type CallId = nat

  const SLOTS: nat := 8

  const NULL: nat := 0

  datatype Policy = All | Others | Specific(target: Core)

  /** How far a call of `parallel_execute` has come. */
  datatype Pc =
    | Enter | Picked | Acquired | FptrSet | DataSet | Armed | Sent | SelfRan | Waiting | Left
    | FptrCleared | DataCleared | Returned

  datatype Call = Call(core: Core, policy: Policy, fptr: nat, data: nat, slot: nat, pc: Pc)

  datatype Slot = Slot(locked: bool, fptr: nat, data: nat, unfinished: int)

  /** The interrupt line of a slot's vector at one core. A core keeps at most one pending bit per vector. */
  datatype Line = Line(slot: nat, core: Core)

  /** A handler reads the function, then the data, runs, decrements the counter, and returns. */
  datatype Phase = Entered | HasFptr(f: nat) | HasData(f: nat, d: nat) | HasRun | Decremented

  datatype Handler = Handler(call: CallId, phase: Phase)

  /** An execution of a function on some core, on behalf of a call. */
  datatype Execution = Execution(call: CallId, core: Core, fptr: nat, data: nat)

  /** `runs` and `decremented`, and the call that a pending bit or a handler stands for, are history. */
  datatype State = State(
    cores: set<Core>,
    next: nat,
    slots: seq<Slot>,
    calls: map<CallId, Call>,
    pending: map<Line, CallId>,
    handlers: map<Line, Handler>,
    decremented: set<(CallId, Core)>,
    runs: multiset<Execution>)

  function IpiTargets(cores: set<Core>, c: Call): set<Core> {
    match c.policy
    case All => cores - {c.core}
    case Others => cores - {c.core}
    case Specific(t) => {t}
  }

  /** The interrupt lines that a call sets. */
  function Lines(cores: set<Core>, c: Call): set<Line> {
    set core | core in IpiTargets(cores, c) :: Line(c.slot, core)
  }

  function Targets(cores: set<Core>, c: Call): set<Core> {
    match c.policy
    case All => cores
    case Others => cores - {c.core}
    case Specific(t) => {t}
  }

  // ---------------------------------------------------------------------------------------------
  // Steps
  // ---------------------------------------------------------------------------------------------

  datatype Action =
    | Begin(id: CallId, call: Call)
    | Caller(id: CallId)
    | Take(line: Line)
    | Handle(line: Line)

  predicate CallerEnabled(s: State, c: Call) {
    match c.pc
    case Enter => true
    case Acquired => true
    case FptrSet => true
    case DataSet => true
    case Armed => true
    case SelfRan => true
    case FptrCleared => true
    case DataCleared => true
    case Left => true
    case Picked => c.slot < |s.slots| && !s.slots[c.slot].locked
    case Sent => true
    case Waiting => c.slot < |s.slots| && s.slots[c.slot].unfinished == 0
    case Returned => false
  }

  predicate Enabled(s: State, a: Action) {
    && |s.slots| == SLOTS
    && match a
       case Begin(id, call) => id !in s.calls && call.pc == Enter && call.core in s.cores
       case Caller(id) =>
              id in s.calls && (s.calls[id].pc != Enter ==> s.calls[id].slot < SLOTS) && CallerEnabled(s, s.calls[id])
       case Take(l) => l in s.pending && l !in s.handlers && l.core in s.cores
       case Handle(l) => l in s.handlers && l.slot < SLOTS
  }

  /** The counter that the policy starts with. */
  function Count(cores: set<Core>, c: Call): int {
    match c.policy
    case All => |cores|
    case Others => |cores| - 1
    case Specific(_) => 1
  }

  /** What the next step of a caller writes to its slot. */
  function SlotAfter(cores: set<Core>, c: Call, slot: Slot): Slot {
    match c.pc
    case Picked => slot.(locked := true)
    case Acquired => slot.(fptr := c.fptr)
    case FptrSet => slot.(data := c.data)
    case DataSet => slot.(unfinished := Count(cores, c))
    case SelfRan => slot.(unfinished := slot.unfinished - 1)
    case Left => slot.(fptr := NULL)
    case FptrCleared => slot.(data := 0)
    case DataCleared => slot.(locked := false)
    case _ => slot
  }

  function PcAfter(c: Call): Pc {
    match c.pc
    case Enter => Picked
    case Picked => Acquired
    case Acquired => FptrSet
    case FptrSet => DataSet
    case DataSet => Armed
    case Armed => if c.policy.All? then Sent else Waiting
    case Sent => SelfRan
    case SelfRan => Waiting
    case Waiting => Left
    case Left => FptrCleared
    case FptrCleared => DataCleared
    case _ => Returned
  }

  /** One step of a caller. Sending sets the pending bit of every core that the policy addresses. */
  function CallerStep(s: State, id: CallId): State
    requires Enabled(s, Caller(id))
  {
    var c := s.calls[id];
    if c.pc == Enter then
      s.(calls := s.calls[id := c.(pc := Picked, slot := s.next % SLOTS)], next := s.next + 1)
    else
      s.(calls := s.calls[id := c.(pc := PcAfter(c))],
         slots := s.slots[c.slot := SlotAfter(s.cores, c, s.slots[c.slot])],
         pending := if c.pc.Armed? then s.pending + map l | l in Lines(s.cores, c) :: id else s.pending,
         runs := if c.pc.Sent? then s.runs + multiset{Execution(id, c.core, c.fptr, c.data)} else s.runs,
         decremented := if c.pc.SelfRan? then s.decremented + {(id, c.core)} else s.decremented)
  }

  /** One step of a handler. */
  function HandlerStep(s: State, l: Line): State
    requires Enabled(s, Handle(l))
  {
    var h := s.handlers[l];
    var slot := s.slots[l.slot];
    match h.phase
    case Entered => s.(handlers := s.handlers[l := h.(phase := HasFptr(slot.fptr))])
    case HasFptr(f) => s.(handlers := s.handlers[l := h.(phase := HasData(f, slot.data))])
    case HasData(f, d) =>
           s.(handlers := s.handlers[l := h.(phase := HasRun)],
             runs := s.runs + multiset{Execution(h.call, l.core, f, d)})
    case HasRun =>
      s.(slots := s.slots[l.slot := slot.(unfinished := slot.unfinished - 1)],
         handlers := s.handlers[l := h.(phase := Decremented)],
         decremented := s.decremented + {(h.call, l.core)})
    case Decremented => s.(handlers := s.handlers - {l})
  }

  function Do(s: State, a: Action): State
    requires Enabled(s, a)
  {
    match a
    case Begin(id, call) => s.(calls := s.calls[id := call])
    case Caller(id) => CallerStep(s, id)
    case Take(l) => s.(pending := s.pending - {l}, handlers := s.handlers[l := Handler(s.pending[l], Entered)])
    case Handle(l) => HandlerStep(s, l)
  }

  ghost predicate Initial(s: State) {
    && |s.slots| == SLOTS && (forall i :: 0 <= i < SLOTS ==> s.slots[i] == Slot(false, NULL, 0, 0))
    && s.next == 0 && s.calls == map[] && s.pending == map[] && s.handlers == map[]
    && s.decremented == {} && s.runs == multiset{}
  }

  // ---------------------------------------------------------------------------------------------
  // The invariant
  // ---------------------------------------------------------------------------------------------

  predicate Holding(pc: Pc) {
    !pc.Enter? && !pc.Picked? && !pc.Returned?
  }

  /** Interrupts of the call may be on their way or being handled. */
  predicate Live(pc: Pc) {
    pc.Sent? || pc.SelfRan? || pc.Waiting?
  }

  predicate Over(pc: Pc) {
    pc.Left? || pc.FptrCleared? || pc.DataCleared? || pc.Returned?
  }

  predicate FptrValid(pc: Pc) {
    pc.FptrSet? || pc.DataSet? || pc.Armed? || Live(pc) || pc.Left?
  }

  predicate DataValid(pc: Pc) {
    pc.DataSet? || pc.Armed? || Live(pc) || pc.Left? || pc.FptrCleared?
  }

  /** A pending bit at `l` stands for the call `id`. */
  predicate Awaits(s: State, id: CallId, l: Line) {
    l in s.pending && s.pending[l] == id
  }

  /** A handler at `l` works for the call `id` and has not decremented the counter yet. */
  predicate Serves(s: State, id: CallId, l: Line) {
    l in s.handlers && s.handlers[l].call == id && s.handlers[l].phase != Decremented
  }

  /** The targets that have not decremented the counter of the call. */
  function Undone(s: State, id: CallId): set<Core>
    requires id in s.calls
  {
    set c | c in Targets(s.cores, s.calls[id]) && (id, c) !in s.decremented
  }

  ghost predicate SlotOwned(s: State, id: CallId)
    requires id in s.calls && |s.slots| == SLOTS
  {
    var c := s.calls[id];
    && (c.pc != Enter ==> c.slot < SLOTS)
    && c.core in s.cores
    && (c.pc.Sent? || c.pc.SelfRan? ==> c.policy.All?)
    && (Holding(c.pc) ==> s.slots[c.slot].locked)
    && (FptrValid(c.pc) ==> s.slots[c.slot].fptr == c.fptr)
    && (DataValid(c.pc) ==> s.slots[c.slot].data == c.data)
    && (c.pc.Armed? || Live(c.pc) ==> s.slots[c.slot].unfinished == |Undone(s, id)|)
  }

  ghost predicate Exclusive(s: State) {
    forall i, j {:trigger s.calls[i], s.calls[j]} ::
      && i in s.calls && j in s.calls && Holding(s.calls[i].pc) && Holding(s.calls[j].pc)
      && s.calls[i].slot == s.calls[j].slot ==>
        i == j
  }

  /** The bookkeeping of one target of one call. */
  ghost predicate TargetAccounted(s: State, id: CallId, core: Core)
    requires id in s.calls
  {
    var c := s.calls[id];
    var l := Line(c.slot, core);
    && ((id, core) in s.decremented ==> core in Targets(s.cores, c) && (Live(c.pc) || Over(c.pc)))
    && (core in Targets(s.cores, c) && Over(c.pc) ==> (id, core) in s.decremented)
    && (core in IpiTargets(s.cores, c) && Live(c.pc) ==>
           (id, core) in s.decremented || Awaits(s, id, l) || Serves(s, id, l))
    && (c.policy.All? && core == c.core && Live(c.pc) ==> ((id, core) in s.decremented <==> c.pc.Waiting?))
  }

  ghost predicate LineUsed(s: State, l: Line, id: CallId) {
    && id in s.calls && s.calls[id].slot == l.slot && Live(s.calls[id].pc)
    && l.core in IpiTargets(s.cores, s.calls[id]) && (id, l.core) !in s.decremented
  }

  ghost predicate HandlerSound(s: State, l: Line)
    requires l in s.handlers
  {
    var h := s.handlers[l];
    h.call in s.calls &&
    (h.phase != Decremented ==>
      && LineUsed(s, l, h.call) && l !in s.pending
      && (h.phase.HasFptr? || h.phase.HasData? ==> h.phase.f == s.calls[h.call].fptr)
      && (h.phase.HasData? ==> h.phase.d == s.calls[h.call].data))
  }

  /** The core has run the function of the call. */
  ghost predicate Executed(s: State, id: CallId, core: Core)
    requires id in s.calls
  {
    var c := s.calls[id];
    || (id, core) in s.decremented
    || (Serves(s, id, Line(c.slot, core)) && s.handlers[Line(c.slot, core)].phase == HasRun)
    || (c.policy.All? && core == c.core && c.pc.SelfRan?)
  }

  ghost predicate RunsCounted(s: State, e: Execution) {
    s.runs[e] == if e.call in s.calls && e.fptr == s.calls[e.call].fptr && e.data == s.calls[e.call].data &&
      Executed(s, e.call, e.core)
                 then 1 else 0
  }

  ghost predicate AllOwned(s: State) {
    |s.slots| == SLOTS && forall id {:trigger SlotOwned(s, id)} :: id in s.calls ==> SlotOwned(s, id)
  }

  ghost predicate AllAccounted(s: State) {
    && (forall id, core {:trigger TargetAccounted(s, id, core)} :: id in s.calls ==> TargetAccounted(s, id, core))
    && (forall p {:trigger p in s.decremented} :: p in s.decremented ==> p.0 in s.calls)
  }

  ghost predicate AllUsed(s: State) {
    && (forall l {:trigger s.pending[l]} {:trigger l in s.pending} :: l in s.pending ==> LineUsed(s, l, s.pending[l]))
    && (forall l {:trigger HandlerSound(s, l)} :: l in s.handlers ==> HandlerSound(s, l))
  }

  ghost predicate AllCounted(s: State) {
    forall e {:trigger RunsCounted(s, e)} :: RunsCounted(s, e)
  }

  ghost predicate Inv(s: State) {
    && Exclusive(s)
    && AllOwned(s)
    && AllAccounted(s)
    && AllUsed(s)
    && AllCounted(s)
  }

  lemma InitialInv(s: State)
    requires Initial(s)
    ensures Inv(s)
  {
  }

  lemma BeginKeeps(s: State, id: CallId, call: Call)
    requires Inv(s) && Enabled(s, Begin(id, call))
    ensures Inv(Do(s, Begin(id, call)))
  {
    var t := Do(s, Begin(id, call));
    forall j | j in t.calls ensures SlotOwned(t, j) {
      if j != id { assert SlotOwned(s, j); assert Undone(t, j) == Undone(s, j); }
    }
    forall j, core | j in t.calls ensures TargetAccounted(t, j, core) {
      if j != id { assert TargetAccounted(s, j, core); }
    }
    forall l | l in t.handlers ensures HandlerSound(t, l) { assert HandlerSound(s, l); }
    forall e ensures RunsCounted(t, e) { assert RunsCounted(s, e); }
  }

  lemma ArmedCount(s: State, id: CallId)
    requires Inv(s) && id in s.calls && s.calls[id].pc.DataSet?
    ensures |Undone(s, id)| == Count(s.cores, s.calls[id])
  {
    var c := s.calls[id];
    assert SlotOwned(s, id);
    forall core | core in Targets(s.cores, c) ensures (id, core) !in s.decremented {
      assert TargetAccounted(s, id, core);
    }
    assert Undone(s, id) == Targets(s.cores, c);
  }

  lemma UndoneLess(s: State, t: State, id: CallId, core: Core)
    requires id in s.calls && id in t.calls && t.cores == s.cores && t.calls[id].(pc := s.calls[id].pc) == s.calls[id]
    requires core in Targets(s.cores, s.calls[id]) && (id, core) !in s.decremented
    requires t.decremented == s.decremented + {(id, core)}
    ensures |Undone(t, id)| == |Undone(s, id)| - 1
    ensures forall j {:trigger Undone(t, j)} :: j in s.calls && j in t.calls && j != id && t.calls[j] == s.calls[j] ==>
              Undone(t, j) == Undone(s, j)
  {
    assert Undone(t, id) == Undone(s, id) - {core};
    forall j | j in s.calls && j in t.calls && j != id && t.calls[j] == s.calls[j]
      ensures Undone(t, j) == Undone(s, j)
    {
      forall c ensures c in Undone(t, j) <==> c in Undone(s, j) {}
    }
  }

  lemma UndoneSame(s: State, t: State, j: CallId)
    requires j in s.calls && j in t.calls && t.cores == s.cores && t.decremented == s.decremented
    requires Targets(t.cores, t.calls[j]) == Targets(s.cores, s.calls[j])
    ensures Undone(t, j) == Undone(s, j)
  {
  }

  /** Sending sets no pending bit that is already set, and no handler of the line is still at work. */
  lemma NothingLost(s: State, id: CallId, core: Core)
    requires Inv(s) && id in s.calls && !Live(s.calls[id].pc) && Holding(s.calls[id].pc)
    ensures Line(s.calls[id].slot, core) !in s.pending
    ensures Line(s.calls[id].slot, core) in s.handlers ==> s.handlers[Line(s.calls[id].slot, core)].phase == Decremented
  {
    var l := Line(s.calls[id].slot, core);
    assert l in s.pending ==> LineUsed(s, l, s.pending[l]);
    assert l in s.handlers ==> HandlerSound(s, l);
  }

  // ---------------------------------------------------------------------------------------------
  // What a step made for one call leaves of the others
  // ---------------------------------------------------------------------------------------------

  ghost predicate SlotsFramed(s: State, t: State, id: CallId)
    requires id in s.calls && |s.slots| == |t.slots| == SLOTS
  {
    var c := s.calls[id];
    forall i {:trigger t.slots[i]} :: 0 <= i < SLOTS ==>
      t.slots[i] == s.slots[i] || (i == c.slot && (Holding(c.pc) || !s.slots[i].locked))
  }

  ghost predicate CallsFramed(s: State, t: State, id: CallId)
    requires id in s.calls && |s.slots| == SLOTS
  {
    && t.cores == s.cores && t.calls.Keys == s.calls.Keys
    && (forall j {:trigger t.calls[j]} :: j in s.calls && j != id ==> t.calls[j] == s.calls[j])
    && t.calls[id].(pc := s.calls[id].pc, slot := s.calls[id].slot) == s.calls[id]
    && (Holding(t.calls[id].pc) ==>
          && t.calls[id].slot == s.calls[id].slot
          && (Holding(s.calls[id].pc) || (s.calls[id].slot < SLOTS && !s.slots[s.calls[id].slot].locked)))
  }

  ghost predicate LinesFramed(s: State, t: State, id: CallId) {
    && (forall l {:trigger t.pending[l]} {:trigger l in t.pending} ::
          l in t.pending && t.pending[l] != id ==> l in s.pending && s.pending[l] == t.pending[l])
    && (forall l {:trigger s.pending[l]} {:trigger l in s.pending} ::
          l in s.pending && s.pending[l] != id ==> l in t.pending && s.pending[l] == t.pending[l])
    && (forall l {:trigger t.handlers[l]} {:trigger l in t.handlers} ::
          l in t.handlers && t.handlers[l].call != id ==> l in s.handlers && s.handlers[l] == t.handlers[l])
    && (forall l {:trigger s.handlers[l]} {:trigger l in s.handlers} ::
          l in s.handlers && s.handlers[l].call != id ==> l in t.handlers && s.handlers[l] == t.handlers[l])
  }

  ghost predicate HistoryFramed(s: State, t: State, id: CallId) {
    && (forall j, core {:trigger (j, core) in t.decremented} :: j != id ==>
           ((j, core) in t.decremented <==> (j, core) in s.decremented))
    && (forall e: Execution {:trigger t.runs[e]} :: e.call != id ==> t.runs[e] == s.runs[e])
  }

  ghost predicate Framed(s: State, t: State, id: CallId) {
    && id in s.calls && |s.slots| == |t.slots| == SLOTS
    && SlotsFramed(s, t, id) && CallsFramed(s, t, id) && LinesFramed(s, t, id) && HistoryFramed(s, t, id)
  }

  lemma CallerSlotsFramed(s: State, id: CallId)
    requires Inv(s) && Enabled(s, Caller(id))
    ensures SlotsFramed(s, CallerStep(s, id), id)
  {
    assert SlotOwned(s, id);
  }

  lemma CallerCallsFramed(s: State, id: CallId)
    requires Inv(s) && Enabled(s, Caller(id))
    ensures CallsFramed(s, CallerStep(s, id), id) && HistoryFramed(s, CallerStep(s, id), id)
  {
  }

  lemma CallerLinesFramed(s: State, id: CallId)
    requires Inv(s) && Enabled(s, Caller(id))
    ensures LinesFramed(s, CallerStep(s, id), id)
  {
    var c := s.calls[id];
    if c.pc.Armed? {
      var t := CallerStep(s, id);
      forall l | l in s.pending ensures l in t.pending && t.pending[l] == s.pending[l] {
        if l.slot == c.slot { NothingLost(s, id, l.core); }
      }
    }
  }

  lemma CallerFramed(s: State, id: CallId)
    requires Inv(s) && Enabled(s, Caller(id))
    ensures Framed(s, CallerStep(s, id), id)
  {
    hide Inv, SlotsFramed, CallsFramed, LinesFramed, HistoryFramed;
    CallerSlotsFramed(s, id);
    CallerCallsFramed(s, id);
    CallerLinesFramed(s, id);
  }

  lemma TakeFramed(s: State, l: Line)
    requires Inv(s) && Enabled(s, Take(l))
    ensures Framed(s, Do(s, Take(l)), s.pending[l])
  {
    assert LineUsed(s, l, s.pending[l]);
  }

  lemma HandlerFramed(s: State, l: Line)
    requires Inv(s) && Enabled(s, Handle(l))
    ensures Framed(s, HandlerStep(s, l), s.handlers[l].call)
  {
    assert HandlerSound(s, l);
  }

  lemma OthersOwned(s: State, t: State, id: CallId)
    requires Exclusive(s) && AllOwned(s) && Framed(s, t, id)
    ensures Exclusive(t)
    ensures forall j {:trigger SlotOwned(t, j)} :: j in t.calls && j != id ==> SlotOwned(t, j)
  {
    hide LinesFramed;
    assert SlotOwned(s, id);
    forall j | j in t.calls && j != id ensures SlotOwned(t, j) {
      assert SlotOwned(s, j) && t.calls[j] == s.calls[j];
      assert Undone(t, j) == Undone(s, j);
    }
    forall i, j | i in t.calls && j in t.calls && Holding(t.calls[i].pc) && Holding(t.calls[j].pc) &&
           t.calls[i].slot == t.calls[j].slot
      ensures i == j
    {
      assert SlotOwned(s, i) && SlotOwned(s, j);
    }
  }

  lemma OthersAccounted(s: State, t: State, id: CallId)
    requires AllAccounted(s) && Framed(s, t, id)
    ensures forall j, core {:trigger TargetAccounted(t, j, core)} :: j in t.calls && j != id ==>
              TargetAccounted(t, j, core)
  {
    hide SlotsFramed;
    forall j, core | j in t.calls && j != id ensures TargetAccounted(t, j, core) {
      assert TargetAccounted(s, j, core) && t.calls[j] == s.calls[j];
      var l := Line(s.calls[j].slot, core);
      assert Awaits(s, j, l) ==> Awaits(t, j, l);
      assert Serves(s, j, l) ==> Serves(t, j, l);
    }
  }

  lemma OthersUsed(s: State, t: State, id: CallId, l: Line, j: CallId)
    requires Framed(s, t, id) && LineUsed(s, l, j) && j != id
    ensures LineUsed(t, l, j)
  {
    hide SlotsFramed, LinesFramed;
    assert t.calls[j] == s.calls[j];
  }

  lemma OthersCounted(s: State, t: State, id: CallId)
    requires AllCounted(s) && Framed(s, t, id)
    ensures forall e: Execution {:trigger RunsCounted(t, e)} :: e.call != id ==> RunsCounted(t, e)
  {
    hide SlotsFramed;
    forall e: Execution | e.call != id ensures RunsCounted(t, e) {
      assert RunsCounted(s, e);
      if e.call in s.calls {
        assert t.calls[e.call] == s.calls[e.call];
        var l := Line(s.calls[e.call].slot, e.core);
        assert Serves(s, e.call, l) <==> Serves(t, e.call, l);
      }
    }
  }

  /** A step made for one call keeps the invariant when the call's own part holds afterwards. */
  lemma StepKeeps(s: State, t: State, id: CallId)
    requires Inv(s) && Framed(s, t, id)
    requires SlotOwned(t, id)
    requires forall core {:trigger TargetAccounted(t, id, core)} :: TargetAccounted(t, id, core)
    requires forall l {:trigger t.pending[l]} {:trigger l in t.pending} :: l in t.pending && t.pending[l] == id ==>
               LineUsed(t, l, id)
    requires forall l {:trigger HandlerSound(t, l)} :: l in t.handlers && t.handlers[l].call == id ==>
               HandlerSound(t, l)
    requires forall e: Execution {:trigger RunsCounted(t, e)} :: e.call == id ==> RunsCounted(t, e)
    ensures Inv(t)
  {
    OthersOwned(s, t, id);
    OthersAccounted(s, t, id);
    OthersCounted(s, t, id);
    hide SlotOwned, TargetAccounted, RunsCounted, SlotsFramed;
    forall l | l in t.pending ensures LineUsed(t, l, t.pending[l]) {
      if t.pending[l] != id { OthersUsed(s, t, id, l, t.pending[l]); }
    }
    forall l | l in t.handlers ensures HandlerSound(t, l) {
      if t.handlers[l].call != id {
        assert HandlerSound(s, l);
        if t.handlers[l].phase != Decremented { OthersUsed(s, t, id, l, t.handlers[l].call); }
      }
    }
  }

  // ---------------------------------------------------------------------------------------------
  // What a step does to the call it is made for
  // ---------------------------------------------------------------------------------------------

  lemma CallerOwns(s: State, id: CallId)
    requires Enabled(s, Caller(id)) && SlotOwned(s, id) && TargetAccounted(s, id, s.calls[id].core)
    requires s.calls[id].pc.DataSet? ==> |Undone(s, id)| == Count(s.cores, s.calls[id])
    ensures SlotOwned(CallerStep(s, id), id)
  {
    var c := s.calls[id];
    var t := CallerStep(s, id);
    if c.pc.SelfRan? { UndoneLess(s, t, id, c.core); } else { UndoneSame(s, t, id); }
  }

  lemma CallerAccounts(s: State, id: CallId, core: Core)
    requires Enabled(s, Caller(id)) && SlotOwned(s, id) && TargetAccounted(s, id, core)
    ensures TargetAccounted(CallerStep(s, id), id, core)
  {
    var c := s.calls[id];
    if c.pc.Waiting? { assert core in Undone(s, id) <==> core in Targets(s.cores, c) && (id, core) !in s.decremented; }
  }

  lemma CallerUses(s: State, id: CallId, l: Line)
    requires Inv(s) && Enabled(s, Caller(id)) && l in CallerStep(s, id).pending && CallerStep(s, id).pending[l] == id
    ensures LineUsed(CallerStep(s, id), l, id)
  {
    assert SlotOwned(s, id) && TargetAccounted(s, id, l.core);
    if l in s.pending && s.pending[l] == id {
      assert LineUsed(s, l, id) && l.core in Undone(s, id);
    }
  }

  lemma CallerHandled(s: State, id: CallId, l: Line)
    requires Inv(s) && Enabled(s, Caller(id)) && l in s.handlers && s.handlers[l].call == id
    ensures HandlerSound(CallerStep(s, id), l)
  {
    assert SlotOwned(s, id) && HandlerSound(s, l);
    if s.handlers[l].phase != Decremented { assert l.core in Undone(s, id); }
  }

  lemma CallerCounts(s: State, id: CallId, e: Execution)
    requires Inv(s) && Enabled(s, Caller(id)) && e.call == id
    ensures RunsCounted(CallerStep(s, id), e)
  {
    assert SlotOwned(s, id) && RunsCounted(s, e) && TargetAccounted(s, id, e.core);
    var l := Line(s.calls[id].slot, e.core);
    if l in s.handlers { assert HandlerSound(s, l); }
    var k := Line(CallerStep(s, id).calls[id].slot, e.core);
    if k in s.handlers { assert HandlerSound(s, k); }
  }

  lemma CallerKeeps(s: State, id: CallId)
    requires Inv(s) && Enabled(s, Caller(id))
    ensures Inv(Do(s, Caller(id)))
  {
    var t := CallerStep(s, id);
    CallerFramed(s, id);
    assert SlotOwned(s, id) && TargetAccounted(s, id, s.calls[id].core);
    if s.calls[id].pc.DataSet? { ArmedCount(s, id); }
    CallerOwns(s, id);
    forall core ensures TargetAccounted(t, id, core) {
      assert TargetAccounted(s, id, core);
      CallerAccounts(s, id, core);
    }
    forall l | l in t.pending && t.pending[l] == id ensures LineUsed(t, l, id) { CallerUses(s, id, l); }
    forall l | l in t.handlers && t.handlers[l].call == id ensures HandlerSound(t, l) { CallerHandled(s, id, l); }
    forall e: Execution | e.call == id ensures RunsCounted(t, e) { CallerCounts(s, id, e); }
    StepKeeps(s, t, id);
  }

  lemma TakeKeeps(s: State, l: Line)
    requires Inv(s) && Enabled(s, Take(l))
    ensures Inv(Do(s, Take(l)))
  {
    var t := Do(s, Take(l));
    var id := s.pending[l];
    TakeFramed(s, l);
    assert SlotOwned(s, id) && Undone(t, id) == Undone(s, id);
    forall core ensures TargetAccounted(t, id, core) { assert TargetAccounted(s, id, core); }
    forall k | k in t.handlers && t.handlers[k].call == id ensures HandlerSound(t, k) {
      if k != l { assert HandlerSound(s, k); }
    }
    forall e: Execution | e.call == id ensures RunsCounted(t, e) { assert RunsCounted(s, e); }
    StepKeeps(s, t, id);
  }

  lemma HandlerOwns(s: State, l: Line)
    requires Enabled(s, Handle(l)) && HandlerSound(s, l) && SlotOwned(s, s.handlers[l].call)
    ensures SlotOwned(HandlerStep(s, l), s.handlers[l].call)
  {
    var t := HandlerStep(s, l);
    var h := s.handlers[l];
    if h.phase.HasRun? { UndoneLess(s, t, h.call, l.core); } else { UndoneSame(s, t, h.call); }
  }

  lemma HandlerAccounts(s: State, l: Line, core: Core)
    requires Enabled(s, Handle(l)) && HandlerSound(s, l) && TargetAccounted(s, s.handlers[l].call, core)
    ensures TargetAccounted(HandlerStep(s, l), s.handlers[l].call, core)
  {
  }

  lemma HandlerCounts(s: State, l: Line, e: Execution)
    requires Enabled(s, Handle(l)) && HandlerSound(s, l) && RunsCounted(s, e) && e.call == s.handlers[l].call
    ensures RunsCounted(HandlerStep(s, l), e)
  {
  }

  lemma HandlerUses(s: State, l: Line, k: Line)
    requires Inv(s) && Enabled(s, Handle(l)) && k in HandlerStep(s, l).handlers
    requires HandlerStep(s, l).handlers[k].call == s.handlers[l].call
    ensures HandlerSound(HandlerStep(s, l), k)
  {
    assert HandlerSound(s, l) && HandlerSound(s, k);
    assert HandlerSound(s, l) && s.handlers[l].phase != Decremented ==> SlotOwned(s, s.handlers[l].call);
  }

  lemma HandlerKeeps(s: State, l: Line)
    requires Inv(s) && Enabled(s, Handle(l))
    ensures Inv(HandlerStep(s, l))
  {
    var t := HandlerStep(s, l);
    var id := s.handlers[l].call;
    HandlerFramed(s, l);
    assert HandlerSound(s, l) && SlotOwned(s, id);
    HandlerOwns(s, l);
    forall core ensures TargetAccounted(t, id, core) {
      assert TargetAccounted(s, id, core);
      HandlerAccounts(s, l, core);
    }
    forall k | k in t.handlers && t.handlers[k].call == id ensures HandlerSound(t, k) { HandlerUses(s, l, k); }
    forall e: Execution | e.call == id ensures RunsCounted(t, e) { assert RunsCounted(s, e); HandlerCounts(s, l, e); }
    assert forall k :: k in t.pending && t.pending[k] == id ==> LineUsed(s, k, id);
    hide SlotOwned, TargetAccounted, RunsCounted, Framed;
    StepKeeps(s, t, id);
  }

  // ---------------------------------------------------------------------------------------------
  // Whole runs
  // ---------------------------------------------------------------------------------------------

  ghost predicate Follows(s: State, t: State) {
    exists a :: Enabled(s, a) && t == Do(s, a)
  }

  /** A run: any number of steps, of any callers, lines and handlers, in any order. */
  ghost predicate Run(trace: seq<State>) {
    && |trace| > 0 && Initial(trace[0])
    && forall k :: 0 <= k < |trace| - 1 ==> Follows(trace[k], trace[k + 1])
  }

  lemma {:induction false} RunInv(trace: seq<State>, k: nat)
    requires Run(trace) && k < |trace|
    ensures Inv(trace[k])
  {
    if k == 0 {
      InitialInv(trace[0]);
    } else {
      RunInv(trace, k - 1);
      var s := trace[k - 1];
      assert Follows(s, trace[k - 1 + 1]);
      var a :| Enabled(s, a) && trace[k] == Do(s, a);
      StepKeepsInv(s, a);
    }
  }

  /** Whom a policy means. */
  predicate Addressed(cores: set<Core>, c: Call, core: Core) {
    || (c.policy.All? && core in cores)
    || (c.policy.Others? && core in cores && core != c.core)
    || (c.policy.Specific? && core == c.policy.target)
  }

  /** What a step leaves of a call: whom it is for, what is to be run, and its slot once it has picked one. */
  ghost predicate SameCall(c: Call, d: Call) {
    d == c.(pc := d.pc, slot := d.slot) && (c.pc != Enter ==> d.pc != Enter && d.slot == c.slot)
  }

  lemma StepKeepsCall(s: State, a: Action, id: CallId)
    requires Enabled(s, a) && id in s.calls
    ensures Do(s, a).cores == s.cores && id in Do(s, a).calls && SameCall(s.calls[id], Do(s, a).calls[id])
  {
  }

  lemma FollowingKeepsCall(s: State, t: State, id: CallId)
    requires Follows(s, t) && id in s.calls
    ensures t.cores == s.cores && id in t.calls && SameCall(s.calls[id], t.calls[id])
  {
    hide Enabled, Do, SameCall;
    var a :| Enabled(s, a) && t == Do(s, a);
    StepKeepsCall(s, a, id);
  }

  /** The new call is the one that was asked for. */
  lemma BeginsAsAsked(s: State, id: CallId, call: Call)
    requires Enabled(s, Begin(id, call))
    ensures id !in s.calls && Do(s, Begin(id, call)) == s.(calls := s.calls[id := call])
  {
  }

  lemma {:induction false} CallStays(trace: seq<State>, k: nat, j: nat, id: CallId)
    requires Run(trace) && k <= j < |trace| && id in trace[k].calls
    ensures trace[j].cores == trace[k].cores && id in trace[j].calls
    ensures SameCall(trace[k].calls[id], trace[j].calls[id])
    decreases j
  {
    if k < j {
      CallStays(trace, k, j - 1, id);
      hide Follows;
      assert Follows(trace[j - 1], trace[j - 1 + 1]);
      FollowingKeepsCall(trace[j - 1], trace[j], id);
    }
  }

  /** The call that a core makes stays, in every later state, the one that was asked for. */
  lemma CallIsAsAsked(trace: seq<State>, k: nat, j: nat, id: CallId, call: Call)
    requires Run(trace) && k < j < |trace| && Enabled(trace[k], Begin(id, call))
    requires trace[k + 1] == Do(trace[k], Begin(id, call))
    ensures id in trace[j].calls && SameCall(call, trace[j].calls[id])
  {
    BeginsAsAsked(trace[k], id, call);
    CallStays(trace, k + 1, j, id);
  }

  /** From the moment a caller leaves its wait loop, every target has run the function of the call on the
      argument of the call exactly once, and nothing else was ever run for the call. */
  lemma RanExactlyOnce(trace: seq<State>, k: nat, id: CallId, e: Execution)
    requires Run(trace) && k < |trace| && e.call == id
    requires id in trace[k].calls && Over(trace[k].calls[id].pc)
    ensures
      var c := trace[k].calls[id];
      trace[k].runs[e] == if Addressed(trace[k].cores, c, e.core) && e.fptr == c.fptr && e.data == c.data then 1 else 0
  {
    var s := trace[k];
    RunInv(trace, k);
    assert RunsCounted(s, e) && TargetAccounted(s, id, e.core);
    var l := Line(s.calls[id].slot, e.core);
    assert l in s.handlers ==> HandlerSound(s, l);
  }

  /** Until then no core has run it twice, no core outside the policy has run it, and no other function was run. */
  lemma RanAtMostOnce(trace: seq<State>, k: nat, e: Execution)
    requires Run(trace) && k < |trace|
    ensures trace[k].runs[e] <= 1
    ensures trace[k].runs[e] == 1 ==>
      && e.call in trace[k].calls
      && e.fptr == trace[k].calls[e.call].fptr && e.data == trace[k].calls[e.call].data
      && Addressed(trace[k].cores, trace[k].calls[e.call], e.core)
  {
    var s := trace[k];
    RunInv(trace, k);
    assert RunsCounted(s, e);
    if s.runs[e] == 1 {
      assert TargetAccounted(s, e.call, e.core) && SlotOwned(s, e.call);
      var l := Line(s.calls[e.call].slot, e.core);
      assert l in s.handlers ==> HandlerSound(s, l);
    }
  }

  /** While an interrupt of a slot is pending or being handled, the slot is locked by the call it was sent for, and
      holds the function, the argument and the number of targets of that call that have not decremented yet. */
  lemma SlotStable(trace: seq<State>, k: nat, l: Line, id: CallId)
    requires Run(trace) && k < |trace|
    requires Awaits(trace[k], id, l) || Serves(trace[k], id, l)
    ensures id in trace[k].calls && l.slot < SLOTS == |trace[k].slots|
    ensures
      var s := trace[k];
      var c := s.calls[id];
      && c.slot == l.slot
      && s.slots[l.slot] == Slot(true, c.fptr, c.data, |Undone(s, id)|)
      && l.core in Undone(s, id) && s.slots[l.slot].unfinished >= 1
    ensures forall j :: j in trace[k].calls && j != id && trace[k].calls[j].slot == l.slot ==>
              !Holding(trace[k].calls[j].pc)
  {
    var s := trace[k];
    RunInv(trace, k);
    if Serves(s, id, l) { assert HandlerSound(s, l); } else { assert LineUsed(s, l, s.pending[l]); }
    assert SlotOwned(s, id);
    assert Undone(s, id) >= {l.core};
    assert |Undone(s, id) - {l.core}| == |Undone(s, id)| - 1;
  }

  /** A line has one interrupt on its way or one handler at work, never both. */
  lemma OneInterruptPerLine(trace: seq<State>, k: nat, l: Line, i: CallId, j: CallId)
    requires Run(trace) && k < |trace|
    ensures !(Awaits(trace[k], i, l) && Serves(trace[k], j, l))
  {
    RunInv(trace, k);
    assert l in trace[k].handlers ==> HandlerSound(trace[k], l);
  }

  /** Sending never finds the line busy: one pending bit for each vector and core is enough. */
  lemma SendsOnIdleLines(trace: seq<State>, k: nat, id: CallId, l: Line)
    requires Run(trace) && k < |trace|
    requires id in trace[k].calls && trace[k].calls[id].pc.Armed? && l in Lines(trace[k].cores, trace[k].calls[id])
    ensures l !in trace[k].pending
    ensures l in trace[k].handlers ==> trace[k].handlers[l].phase == Decremented
  {
    RunInv(trace, k);
    NothingLost(trace[k], id, l.core);
  }

  /** Whoever decrements a counter, the caller itself or a handler, finds it positive, and it is the counter that
      was set for the call. */
  lemma NeverUnderflows(trace: seq<State>, k: nat, a: Action, i: nat, id: CallId)
    requires Run(trace) && k < |trace| && Enabled(trace[k], a)
    requires
      || (a.Caller? && a.id == id && trace[k].calls[id].pc.SelfRan? && i == trace[k].calls[id].slot)
      || (a.Handle? && trace[k].handlers[a.line].phase.HasRun? && i == a.line.slot &&
           id == trace[k].handlers[a.line].call)
    ensures id in trace[k].calls && i < SLOTS && |Do(trace[k], a).slots| == |trace[k].slots| == SLOTS
    ensures trace[k].slots[i].unfinished == |Undone(trace[k], id)| >= 1
    ensures Do(trace[k], a).slots[i].unfinished == trace[k].slots[i].unfinished - 1
  {
    var s := trace[k];
    RunInv(trace, k);
    if a.Handle? {
      assert Serves(s, id, a.line);
      SlotStable(trace, k, a.line, id);
    } else {
      var core := s.calls[id].core;
      assert SlotOwned(s, id) && TargetAccounted(s, id, core);
      assert core in Undone(s, id);
      assert |Undone(s, id) - {core}| == |Undone(s, id)| - 1;
    }
  }

  /** A waiting caller gets out of its loop exactly when every target has decremented the counter for it. */
  lemma LeavesIffAllDone(trace: seq<State>, k: nat, id: CallId)
    requires Run(trace) && k < |trace|
    requires id in trace[k].calls && trace[k].calls[id].pc.Waiting?
    ensures
      var s := trace[k];
      Enabled(s, Caller(id)) <==> forall core :: core in Targets(s.cores, s.calls[id]) ==> (id, core) in s.decremented
  {
    var s := trace[k];
    RunInv(trace, k);
    assert SlotOwned(s, id);
    if Undone(s, id) == {} {
      forall core | core in Targets(s.cores, s.calls[id]) ensures (id, core) in s.decremented {
        assert core !in Undone(s, id);
      }
    } else {
      var core :| core in Undone(s, id);
    }
  }

  /** The lock that a caller releases is held, by nobody else. */
  lemma UnlocksItsOwn(trace: seq<State>, k: nat, id: CallId)
    requires Run(trace) && k < |trace|
    requires id in trace[k].calls && Holding(trace[k].calls[id].pc)
    ensures trace[k].calls[id].slot < SLOTS == |trace[k].slots| && trace[k].slots[trace[k].calls[id].slot].locked
    ensures forall j ::
              && j in trace[k].calls && Holding(trace[k].calls[j].pc)
              && trace[k].calls[j].slot == trace[k].calls[id].slot ==>
                j == id
  {
    RunInv(trace, k);
    assert SlotOwned(trace[k], id);
  }

  // ---------------------------------------------------------------------------------------------
  // Slots that nobody holds
  // ---------------------------------------------------------------------------------------------

  predicate Holds(s: State, id: CallId, i: nat) {
    id in s.calls && Holding(s.calls[id].pc) && s.calls[id].slot == i
  }

  /** What a holder has not written yet, or has cleared again. */
  ghost predicate HolderClears(s: State, id: CallId)
    requires id in s.calls && |s.slots| == SLOTS
  {
    var c := s.calls[id];
    Holding(c.pc) && c.slot < SLOTS ==>
      && (c.pc.Acquired? || c.pc.FptrCleared? || c.pc.DataCleared? ==> s.slots[c.slot].fptr == NULL)
      && (c.pc.Acquired? || c.pc.FptrSet? || c.pc.DataCleared? ==> s.slots[c.slot].data == 0)
      && (c.pc.Acquired? || c.pc.FptrSet? || c.pc.DataSet? || Over(c.pc) ==> s.slots[c.slot].unfinished == 0)
  }

  /** A slot is as it was at the start, unless a call holds it. */
  ghost predicate Clean(s: State, i: nat)
    requires i < |s.slots|
  {
    (exists id :: Holds(s, id, i)) || s.slots[i] == Slot(false, NULL, 0, 0)
  }

  ghost predicate AllClean(s: State) {
    && |s.slots| == SLOTS
    && (forall i: nat {:trigger Clean(s, i)} :: i < SLOTS ==> Clean(s, i))
    && (forall id {:trigger HolderClears(s, id)} :: id in s.calls ==> HolderClears(s, id))
  }

  lemma BeginStaysClean(s: State, id: CallId, call: Call)
    requires AllClean(s) && Enabled(s, Begin(id, call))
    ensures AllClean(Do(s, Begin(id, call)))
  {
    var t := Do(s, Begin(id, call));
    forall i: nat | i < SLOTS ensures Clean(t, i) {
      assert Clean(s, i);
      if j :| Holds(s, j, i) { assert Holds(t, j, i); }
    }
    forall j | j in t.calls ensures HolderClears(t, j) {
      if j != id { assert HolderClears(s, j); }
    }
  }

  lemma CallerStaysClean(s: State, id: CallId)
    requires Inv(s) && AllClean(s) && Enabled(s, Caller(id))
    ensures AllClean(CallerStep(s, id))
  {
    var t, c := CallerStep(s, id), s.calls[id];
    assert SlotOwned(s, id) && HolderClears(s, id);
    forall i: nat | i < SLOTS ensures Clean(t, i) {
      assert Clean(s, i);
      if j :| Holds(s, j, i) {
        if j != id { assert Holds(t, j, i); }
      }
      if Holding(t.calls[id].pc) && t.calls[id].slot == i { assert Holds(t, id, i); }
    }
    forall j | j in t.calls ensures HolderClears(t, j) {
      assert HolderClears(s, j) && SlotOwned(s, j);
      if j == id && c.pc.Picked? { PickedIsClean(s, id); }
      if j == id && c.pc.Waiting? { assert s.slots[c.slot].unfinished == 0; }
    }
  }

  /** The slot that is about to be locked is clean. */
  lemma PickedIsClean(s: State, id: CallId)
    requires Inv(s) && AllClean(s) && Enabled(s, Caller(id)) && s.calls[id].pc.Picked?
    ensures s.slots[s.calls[id].slot] == Slot(false, NULL, 0, 0)
  {
    var i: nat := s.calls[id].slot;
    assert SlotOwned(s, id) && Clean(s, i);
    forall j ensures !Holds(s, j, i) {
      if j in s.calls { assert SlotOwned(s, j); }
    }
  }

  lemma HandlerStaysClean(s: State, l: Line)
    requires Inv(s) && AllClean(s) && Enabled(s, Handle(l))
    ensures AllClean(HandlerStep(s, l))
  {
    var t := HandlerStep(s, l);
    assert HandlerSound(s, l);
    var id := s.handlers[l].call;
    assert SlotOwned(s, id);
    forall i: nat | i < SLOTS ensures Clean(t, i) {
      assert Clean(s, i);
      if j :| Holds(s, j, i) { assert Holds(t, j, i); }
    }
    forall j | j in t.calls ensures HolderClears(t, j) {
      assert HolderClears(s, j) && SlotOwned(s, j);
    }
  }

  lemma TakeStaysClean(s: State, l: Line)
    requires AllClean(s) && Enabled(s, Take(l))
    ensures AllClean(Do(s, Take(l)))
  {
    var t := Do(s, Take(l));
    forall i: nat | i < SLOTS ensures Clean(t, i) {
      assert Clean(s, i);
      if j :| Holds(s, j, i) { assert Holds(t, j, i); }
    }
    forall j | j in t.calls ensures HolderClears(t, j) { assert HolderClears(s, j); }
  }

  lemma StepStaysClean(s: State, a: Action)
    requires Inv(s) && AllClean(s) && Enabled(s, a)
    ensures AllClean(Do(s, a))
  {
    match a
    case Begin(id, call) => BeginStaysClean(s, id, call);
    case Caller(id) => CallerStaysClean(s, id);
    case Take(l) => TakeStaysClean(s, l);
    case Handle(l) => HandlerStaysClean(s, l);
  }

  lemma {:induction false} RunClean(trace: seq<State>, k: nat)
    requires Run(trace) && k < |trace|
    ensures AllClean(trace[k])
  {
    if k == 0 {
    } else {
      RunClean(trace, k - 1);
      RunInv(trace, k - 1);
      var s := trace[k - 1];
      assert Follows(s, trace[k - 1 + 1]);
      var a :| Enabled(s, a) && trace[k] == Do(s, a);
      StepStaysClean(s, a);
    }
  }

  /** A slot is locked if and only if some call holds it, and otherwise it holds nothing. */
  lemma LockedIffHeld(trace: seq<State>, k: nat, i: nat)
    requires Run(trace) && k < |trace| && i < SLOTS
    ensures |trace[k].slots| == SLOTS
    ensures trace[k].slots[i].locked <==> exists id :: Holds(trace[k], id, i)
    ensures !trace[k].slots[i].locked ==> trace[k].slots[i] == Slot(false, NULL, 0, 0)
  {
    RunInv(trace, k);
    RunClean(trace, k);
    var s := trace[k];
    assert Clean(s, i);
    if id :| Holds(s, id, i) { assert SlotOwned(s, id); }
  }

  // ---------------------------------------------------------------------------------------------
  // Every call returns
  // ---------------------------------------------------------------------------------------------

  /** Steps that a caller still has to make. */
  function StepsLeft(pc: Pc): nat {
    match pc
    case Enter => 12
    case Picked => 11
    case Acquired => 10
    case FptrSet => 9
    case DataSet => 8
    case Armed => 7
    case Sent => 6
    case SelfRan => 5
    case Waiting => 4
    case Left => 3
    case FptrCleared => 2
    case DataCleared => 1
    case Returned => 0
  }

  function PhasesLeft(p: Phase): nat {
    match p
    case Entered => 5
    case HasFptr(_) => 4
    case HasData(_, _) => 3
    case HasRun => 2
    case Decremented => 1
  }

  /** All steps that callers still have to make, each with a number. */
  function CallerWork(s: State): set<(CallId, nat)> {
    set id, n: nat | id in s.calls && n < 12 && n < StepsLeft(s.calls[id].pc) :: (id, n)
  }

  function HandlerWork(s: State): set<(Line, nat)> {
    set l, n: nat | l in s.handlers && n < 5 && n < PhasesLeft(s.handlers[l].phase) :: (l, n)
  }

  /** Less is left to do for callers or, as much for those, fewer interrupts are pending or, as many, less is left to do
      for handlers. */
  predicate LessWork(t: State, s: State) {
    || |CallerWork(t)| < |CallerWork(s)|
    || (|CallerWork(t)| == |CallerWork(s)| && |t.pending| < |s.pending|)
    || (|CallerWork(t)| == |CallerWork(s)| && |t.pending| == |s.pending| && |HandlerWork(t)| < |HandlerWork(s)|)
  }

  lemma FewerIn<T>(a: set<T>, b: set<T>, x: T)
    requires a <= b && x in b && x !in a
    ensures |a| < |b|
  {
    assert b == a + (b - a);
    assert x in b - a;
  }

  lemma CallerWorks(s: State, id: CallId)
    requires Enabled(s, Caller(id))
    ensures LessWork(CallerStep(s, id), s)
  {
    var t := CallerStep(s, id);
    var n: nat := StepsLeft(s.calls[id].pc) - 1;
    assert StepsLeft(t.calls[id].pc) <= n < 12;
    FewerIn(CallerWork(t), CallerWork(s), (id, n));
  }

  lemma TakeWorks(s: State, l: Line)
    requires Enabled(s, Take(l))
    ensures LessWork(Do(s, Take(l)), s)
  {
    var t := Do(s, Take(l));
    assert CallerWork(t) == CallerWork(s);
    assert t.pending.Keys == s.pending.Keys - {l};
    assert |t.pending.Keys| == |s.pending.Keys| - 1;
  }

  lemma HandlerWorks(s: State, l: Line)
    requires Enabled(s, Handle(l))
    ensures LessWork(HandlerStep(s, l), s)
  {
    var t := HandlerStep(s, l);
    var n: nat := PhasesLeft(s.handlers[l].phase) - 1;
    assert CallerWork(t) == CallerWork(s);
    FewerIn(HandlerWork(t), HandlerWork(s), (l, n));
  }

  /** Every step but the beginning of a call leaves less to do, whoever makes it. */
  lemma StepWorks(s: State, a: Action)
    requires Enabled(s, a) && !a.Begin?
    ensures LessWork(Do(s, a), s)
  {
    match a
    case Caller(id) => CallerWorks(s, id);
    case Take(l) => TakeWorks(s, l);
    case Handle(l) => HandlerWorks(s, l);
  }

  /** A step is made, and it is not the beginning of a call. */
  ghost predicate GoesOn(s: State, t: State) {
    exists a :: Enabled(s, a) && !a.Begin? && t == Do(s, a)
  }

  ghost predicate GoesOnAt(f: nat -> State, k: nat) {
    GoesOn(f(k), f(k + 1))
  }

  lemma GoingOnWorks(s: State, t: State)
    requires GoesOn(s, t)
    ensures LessWork(t, s)
  {
    var a :| Enabled(s, a) && !a.Begin? && t == Do(s, a);
    StepWorks(s, a);
  }

  /** So no run goes on for ever without new calls. */
  lemma {:induction false} NoEndlessRun(f: nat -> State, n: nat)
    requires forall k: nat :: GoesOnAt(f, k)
    ensures false
    decreases |CallerWork(f(n))|, |f(n).pending|, |HandlerWork(f(n))|
  {
    assert GoesOnAt(f, n);
    GoingOnWorks(f(n), f(n + 1));
    hide CallerWork, HandlerWork, GoesOn;
    NoEndlessRun(f, n + 1);
  }

  /** The targets of all calls are cores. */
  ghost predicate TargetsExist(s: State) {
    forall id {:trigger s.calls[id]} :: id in s.calls ==> Targets(s.cores, s.calls[id]) <= s.cores
  }

  ghost predicate Quiet(s: State) {
    forall a :: Enabled(s, a) ==> a.Begin?
  }

  /** As long as an interrupt of the call is on its way, some handler can go on. */
  lemma InterruptGoesOn(s: State, id: CallId, core: Core)
    requires Inv(s) && id in s.calls && Live(s.calls[id].pc) && core in s.cores
    requires Awaits(s, id, Line(s.calls[id].slot, core)) || Serves(s, id, Line(s.calls[id].slot, core))
    ensures !Quiet(s)
  {
    var l := Line(s.calls[id].slot, core);
    assert SlotOwned(s, id);
    if l in s.handlers {
      assert Enabled(s, Handle(l));
    } else {
      assert Enabled(s, Take(l));
    }
  }

  /** A call that holds a slot can go on, or some handler can. */
  lemma HolderGoesOn(s: State, id: CallId)
    requires Inv(s) && TargetsExist(s) && id in s.calls && Holding(s.calls[id].pc)
    ensures !Quiet(s)
  {
    var c := s.calls[id];
    assert SlotOwned(s, id);
    if c.pc.Waiting? && Undone(s, id) != {} {
      var core :| core in Undone(s, id);
      assert TargetAccounted(s, id, core);
      InterruptGoesOn(s, id, core);
    } else {
      assert Enabled(s, Caller(id));
    }
  }

  /** Only when all calls have returned nothing goes on. */
  lemma QuietMeansReturned(s: State, id: CallId)
    requires Inv(s) && AllClean(s) && TargetsExist(s) && Quiet(s) && id in s.calls
    ensures s.calls[id].pc.Returned?
  {
    var c := s.calls[id];
    assert SlotOwned(s, id);
    if c.pc.Picked? {
      var i: nat := c.slot;
      assert !Enabled(s, Caller(id));
      assert Clean(s, i);
      var j :| Holds(s, j, i);
      HolderGoesOn(s, j);
    } else if Holding(c.pc) {
      HolderGoesOn(s, id);
    } else {
      assert c.pc.Enter? ==> Enabled(s, Caller(id));
    }
  }

  ghost predicate Finished(s: State) {
    forall id {:trigger s.calls[id]} :: id in s.calls ==> s.calls[id].pc.Returned?
  }

  ghost predicate Steps(trace: seq<State>) {
    && |trace| > 0
    && forall k: nat {:trigger trace[k]} :: k < |trace| - 1 ==> GoesOn(trace[k], trace[k + 1])
  }

  lemma StepKeepsTargets(s: State, a: Action)
    requires TargetsExist(s) && Enabled(s, a) && !a.Begin?
    ensures TargetsExist(Do(s, a))
  {
    var t := Do(s, a);
    forall id | id in t.calls ensures Targets(t.cores, t.calls[id]) <= t.cores {
      assert Targets(t.cores, t.calls[id]) == Targets(s.cores, s.calls[id]);
    }
  }

  lemma StepKeepsInv(s: State, a: Action)
    requires Inv(s) && Enabled(s, a)
    ensures Inv(Do(s, a))
  {
    match a
    case Begin(id, call) => BeginKeeps(s, id, call);
    case Caller(id) => CallerKeeps(s, id);
    case Take(l) => TakeKeeps(s, l);
    case Handle(l) => HandlerKeeps(s, l);
  }

  /** Some step, unless nothing goes on. */
  lemma GoOn(s: State) returns (t: State)
    requires Inv(s) && AllClean(s) && TargetsExist(s) && !Quiet(s)
    ensures Inv(t) && AllClean(t) && TargetsExist(t) && GoesOn(s, t) && LessWork(t, s)
  {
    var a :| Enabled(s, a) && !a.Begin?;
    t := Do(s, a);
    StepKeepsInv(s, a);
    StepStaysClean(s, a);
    StepKeepsTargets(s, a);
    assert GoesOn(s, t);
    hide Inv, AllClean, TargetsExist;
    GoingOnWorks(s, t);
  }

  lemma StepsOn(s: State, rest: seq<State>)
    requires Steps(rest) && GoesOn(s, rest[0])
    ensures Steps([s] + rest)
  {
    var trace := [s] + rest;
    hide GoesOn;
    forall k: nat | k < |trace| - 1 ensures GoesOn(trace[k], trace[k + 1]) {
      if k > 0 { assert trace[k] == rest[k - 1] && trace[k + 1] == rest[k]; }
    }
  }

  /** Whatever has happened so far, and in whatever order it goes on, all calls return in the end: there is a way on,
      and `NoEndlessRun` and `QuietMeansReturned` say that every way leads there. */
  lemma {:induction false} AllReturn(s: State) returns (trace: seq<State>)
    requires Inv(s) && AllClean(s) && TargetsExist(s)
    ensures Steps(trace) && trace[0] == s && Finished(trace[|trace| - 1])
    decreases |CallerWork(s)|, |s.pending|, |HandlerWork(s)|
  {
    if Quiet(s) {
      forall id | id in s.calls ensures s.calls[id].pc.Returned? { QuietMeansReturned(s, id); }
      trace := [s];
    } else {
      hide Inv, AllClean, TargetsExist, Finished, Quiet, GoesOn, CallerWork, HandlerWork;
      var t := GoOn(s);
      var rest := AllReturn(t);
      StepsOn(s, rest);
      trace := [s] + rest;
    }
  }

  /** In every state of every run in which calls address cores only, all calls can return, and do as soon as nothing
      else can go on. */
  lemma EveryCallReturns(run: seq<State>, k: nat) returns (trace: seq<State>)
    requires Run(run) && k < |run| && TargetsExist(run[k])
    ensures Steps(trace) && trace[0] == run[k] && Finished(trace[|trace| - 1])
    ensures Quiet(run[k]) ==> Finished(run[k])
  {
    RunInv(run, k);
    RunClean(run, k);
    trace := AllReturn(run[k]);
    if Quiet(run[k]) {
      forall id | id in run[k].calls ensures run[k].calls[id].pc.Returned? { QuietMeansReturned(run[k], id); }
    }
  }

  /** Only cores take interrupts. */
  ghost predicate OnCores(s: State) {
    && (forall l {:trigger l in s.handlers} :: l in s.handlers ==> l.core in s.cores)
    && (forall p {:trigger p in s.decremented} :: p in s.decremented ==> p.1 in s.cores)
  }

  lemma StepOnCores(s: State, a: Action)
    requires Inv(s) && OnCores(s) && Enabled(s, a)
    ensures OnCores(Do(s, a))
  {
    hide Exclusive, AllAccounted, AllUsed, AllCounted;
    if a.Caller? { assert SlotOwned(s, a.id); }
  }

  lemma {:induction false} RunOnCores(trace: seq<State>, k: nat)
    requires Run(trace) && k < |trace|
    ensures OnCores(trace[k])
  {
    if k > 0 {
      RunOnCores(trace, k - 1);
      RunInv(trace, k - 1);
      var s := trace[k - 1];
      assert Follows(s, trace[k - 1 + 1]);
      var a :| Enabled(s, a) && trace[k] == Do(s, a);
      hide Inv, Enabled, Do, OnCores;
      StepOnCores(s, a);
    }
  }

  /** A call for something that is not a core never leaves its wait loop. */
  lemma WaitsForever(trace: seq<State>, k: nat, id: CallId)
    requires Run(trace) && k < |trace| && id in trace[k].calls
    requires !(Targets(trace[k].cores, trace[k].calls[id]) <= trace[k].cores)
    ensures !Over(trace[k].calls[id].pc)
  {
    var s := trace[k];
    RunInv(trace, k);
    RunOnCores(trace, k);
    var core :| core in Targets(s.cores, s.calls[id]) && core !in s.cores;
    assert TargetAccounted(s, id, core);
  }

  // ---------------------------------------------------------------------------------------------
  // Slots in turn
  // ---------------------------------------------------------------------------------------------

  /** The calls that have picked a slot. */
  function PickedBy(s: State): set<CallId> {
    set id | id in s.calls && !s.calls[id].pc.Enter?
  }

  lemma StepCounts(s: State, a: Action)
    requires Enabled(s, a) && s.next == |PickedBy(s)|
    ensures Do(s, a).next == |PickedBy(Do(s, a))|
  {
    var t := Do(s, a);
    if a.Caller? && s.calls[a.id].pc.Enter? {
      assert PickedBy(t) == PickedBy(s) + {a.id};
    } else {
      assert PickedBy(t) == PickedBy(s);
    }
  }

  lemma {:induction false} NextCounts(trace: seq<State>, k: nat)
    requires Run(trace) && k < |trace|
    ensures trace[k].next == |PickedBy(trace[k])|
  {
    if k == 0 {
      assert PickedBy(trace[0]) == {};
    } else {
      NextCounts(trace, k - 1);
      assert Follows(trace[k - 1], trace[k - 1 + 1]);
      var a :| Enabled(trace[k - 1], a) && trace[k] == Do(trace[k - 1], a);
      StepCounts(trace[k - 1], a);
    }
  }

  /** Slots are picked in turn: eight calls in a row pick all eight. */
  lemma PickedInTurn(trace: seq<State>, k: nat, id: CallId)
    requires Run(trace) && k < |trace|
    requires Enabled(trace[k], Caller(id)) && trace[k].calls[id].pc.Enter?
    ensures Do(trace[k], Caller(id)).calls[id].slot == |PickedBy(trace[k])| % 8
  {
    NextCounts(trace, k);
  }

  // ---------------------------------------------------------------------------------------------
  // The slots' vectors
  // ---------------------------------------------------------------------------------------------

  /** The marks after the vectors `lines` were taken as well. */
  function WithLines(marked: seq<bool>, lines: seq<IV.Byte>): (m: seq<bool>)
    ensures |m| == |marked|
    ensures forall v :: 0 <= v < |m| ==> (m[v] <==> marked[v] || v + IV.FIRST in lines)
  {
    seq(|marked|, v requires 0 <= v < |marked| => marked[v] || v + IV.FIRST in lines)
  }

  /** Each line is the vector nearest to the first of priority 1 that was free when it was taken. */
  ghost predicate TakenInTurn(marked: seq<bool>, lines: seq<IV.Byte>) {
    forall i {:trigger lines[i]} :: 0 <= i < |lines| ==>
      IV.FIRST <= lines[i] && IV.Best(WithLines(marked, lines[..i]), 16, lines[i] - IV.FIRST, 1)
  }

  lemma NothingTaken(marked: seq<bool>)
    ensures TakenInTurn(marked, [])
  {
  }

  lemma TakenNext(marked: seq<bool>, lines: seq<IV.Byte>, v: IV.Byte)
    requires TakenInTurn(marked, lines) && IV.FIRST <= v && IV.Best(WithLines(marked, lines), 16, v - IV.FIRST, 1)
    ensures TakenInTurn(marked, lines + [v])
  {
    forall i | 0 <= i < |lines + [v]|
      ensures IV.FIRST <= (lines + [v])[i]
      ensures IV.Best(WithLines(marked, (lines + [v])[..i]), 16, (lines + [v])[i] - IV.FIRST, 1)
    {
      assert (lines + [v])[..i] == lines[..i];
      if i == |lines| { assert lines[..i] == lines; }
    }
  }

  /** So they were free, and no two are the same. */
  lemma TakenAreFree(marked: seq<bool>, lines: seq<IV.Byte>)
    requires TakenInTurn(marked, lines)
    ensures forall i :: 0 <= i < |lines| ==> 0 <= lines[i] - IV.FIRST < |marked| && !marked[lines[i] - IV.FIRST]
    ensures NoDuplicates(lines)
  {
    forall j | 0 <= j < |lines|
      ensures 0 <= lines[j] - IV.FIRST < |marked| && !marked[lines[j] - IV.FIRST] && lines[j] !in lines[..j]
    {
      assert IV.FreeBlock(WithLines(marked, lines[..j]), lines[j] - IV.FIRST, 1);
    }
    forall i, j | 0 <= i < j < |lines| ensures lines[i] != lines[j] {
      assert lines[i] == lines[..j][i];
    }
  }

  /** The vectors `lines` have no owner, the others those that they had. */
  ghost predicate OwnersAfter(before: seq<IV.Owner>, after: seq<IV.Owner>, lines: seq<IV.Byte>) {
    && |after| == |before|
    && forall v :: 0 <= v < |after| ==> after[v] == if v + IV.FIRST in lines then IV.NOBODY else before[v]
  }

  lemma MarksNext(marked: seq<bool>, m: seq<bool>, m': seq<bool>, lines: seq<IV.Byte>, line: IV.Byte)
    requires m == WithLines(marked, lines) && |m'| == |m|
    requires forall v {:trigger m'[v]} :: 0 <= v < |m| ==> m'[v] == (m[v] || v == line - IV.FIRST)
    ensures m' == WithLines(marked, lines + [line])
  {
    assert forall x :: x in lines + [line] <==> x in lines || x == line;
  }

  lemma OwnersNext(before: seq<IV.Owner>, o: seq<IV.Owner>, o': seq<IV.Owner>, lines: seq<IV.Byte>, line: IV.Byte)
    requires OwnersAfter(before, o, lines) && |o'| == |o|
    requires forall v {:trigger o'[v]} :: 0 <= v < |o| ==> o'[v] == if v == line - IV.FIRST then IV.NOBODY else o[v]
    ensures OwnersAfter(before, o', lines + [line])
  {
    assert forall x :: x in lines + [line] <==> x in lines || x == line;
  }

  /** Takes the next vector. */
  method TakeLine(vectors: IV.Vectors, ghost marked: seq<bool>, ghost before: seq<IV.Owner>, lines: seq<IV.Byte>)
    returns (ok: bool, line: IV.Byte)
    requires vectors.Valid() && TakenInTurn(marked, lines)
    requires vectors.marked[..] == WithLines(marked, lines) && OwnersAfter(before, vectors.owners[..], lines)
    modifies vectors, vectors.marked, vectors.owners
    ensures vectors.Valid()
    ensures ok ==>
              && TakenInTurn(marked, lines + [line]) && vectors.marked[..] == WithLines(marked, lines + [line])
              && OwnersAfter(before, vectors.owners[..], lines + [line])
    ensures !ok ==> vectors.marked[..] == old(vectors.marked[..]) && vectors.owners[..] == old(vectors.owners[..])
    ensures !ok ==> forall v :: 0 <= v < IV.VECTORS ==> vectors.marked[v]
  {
    hide IV.Best, IV.Inside, TakenInTurn, OwnersAfter, WithLines;
    IV.InsideIff(1, 1);
    var result := vectors.AllocateOne(1, IV.NOBODY);
    if result.Panicked? {
      return false, 0;
    }
    line := result.vector;
    TakenNext(marked, lines, line);
    MarksNext(marked, old(vectors.marked[..]), vectors.marked[..], lines, line);
    OwnersNext(before, old(vectors.owners[..]), vectors.owners[..], lines, line);
    ok := true;
  }

  /** Gives each slot a vector of its own, so that different slots are different lines at every core. */
  method InitializeParallel(vectors: IV.Vectors) returns (ok: bool, lines: seq<IV.Byte>)
    requires vectors.Valid()
    modifies vectors, vectors.marked, vectors.owners
    ensures vectors.Valid()
    ensures |lines| <= 8 && (ok <==> |lines| == 8)
    ensures TakenInTurn(old(vectors.marked[..]), lines) && NoDuplicates(lines)
    ensures vectors.marked[..] == WithLines(old(vectors.marked[..]), lines)
    ensures OwnersAfter(old(vectors.owners[..]), vectors.owners[..], lines)
    ensures !ok ==> forall v :: 0 <= v < IV.VECTORS ==> vectors.marked[v]
  {
    hide TakenInTurn;
    lines := [];
    ghost var marked, before := vectors.marked[..], vectors.owners[..];
    NothingTaken(marked);
    assert marked == WithLines(marked, lines);
    while |lines| < SLOTS
      invariant vectors.Valid() && |lines| <= SLOTS && TakenInTurn(marked, lines)
      invariant vectors.marked[..] == WithLines(marked, lines) && OwnersAfter(before, vectors.owners[..], lines)
      decreases SLOTS - |lines|
    {
      var line;
      ok, line := TakeLine(vectors, marked, before, lines);
      if !ok {
        TakenAreFree(marked, lines);
        return;
      }
      lines := lines + [line];
    }
    TakenAreFree(marked, lines);
    ok := true;
  }
}
