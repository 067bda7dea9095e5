/** The thread pool as an interleaving of atomic steps. Callers of `assign_task`, any number of them, claim a
    slot by compare-and-swap, start its thread if it has none, store a task and signal; each slot's worker parks
    on a condition variable between tasks. Workers that run `server_entry` are callers themselves. */
module ThreadPool {
  import opened Options

  datatype Function = ServerEntry | SystemEntry
  datatype Task = Task(entry: Function, uparam: nat)

  /** What happened to a slot: a caller signalled its task, the worker called the task it found, the worker
      gave up the lock. */
  datatype Event = Posted(task: Task) | Started(task: Task) | Over

  /** Where the thread of a slot stands in `pool_cache_entry` and, below it, in `server_entry`. */
  datatype Worker =
    | NoThread | Starting | Readying | Idle | Waiting | Signaled | Woken
    | System | Begin | Accept(srv: nat) | Assigning(srv: nat) | Serve(srv: nat, retInCache: bool)
    | Release

  datatype Mutex = Free | ByWorker | ByCaller

  datatype Slot = Slot(locked: bool, isAllocated: bool, ready: bool, entry: Option<Function>, uparam: nat,
                       mutex: Mutex, worker: Worker, history: seq<Event>)

  /** The outcomes of a caller's swaps: the slot was locked, or it was won with or without a thread. */
  datatype Swap = Lost | WonEmpty | WonAllocated

  datatype Phase = Allocate | Create | Spin | StoreEntry | StoreParam | LockMutex | UnlockMutex | Signal

  /** Where a call of `assign_task` stands; `seen` are the outcomes of its swaps so far. */
  datatype Call =
    | Scan(task: Task, seen: seq<Swap>, held: Option<nat>)
    | Check(task: Task, seen: seq<Swap>, held: Option<nat>)
    | DropHeld(task: Task, seen: seq<Swap>, dropped: nat)
    | DropNew(task: Task, seen: seq<Swap>, kept: nat)
    | Filling(task: Task, seen: seq<Swap>, phase: Phase, slot: nat)
    | Returned(task: Task, seen: seq<Swap>, ok: bool)

  datatype Caller = Outside(id: nat) | Inside(slot: nat)

  /** `acceptor`, `launched` and `failed` only record; no step reads them. */
  datatype State = State(slots: seq<Slot>, calls: map<Caller, Call>,
                         launched: set<nat>, failed: set<nat>, acceptor: map<nat, Caller>)

  const EMPTY_SLOT := Slot(false, false, false, None, 0, Free, NoThread, [])

  function Init(size: nat): State {
    State(seq(size, i => EMPTY_SLOT), map[], {}, {}, map[])
  }

  // ---------- Steps ----------

  /** `allocate_slot`, the two stores, and `execute_task`, on the slot that was chosen. */
  function FillStep(task: Task, phase: Phase, slot: Slot): (Option<Phase>, Slot) {
    match phase
    case Allocate => (Some(Create), slot.(isAllocated := true))
    case Create => (Some(Spin), slot.(worker := Starting))
    case Spin => (Some(if slot.ready then StoreEntry else Spin), slot)
    case StoreEntry => (Some(StoreParam), slot.(entry := Some(task.entry)))
    case StoreParam => (Some(LockMutex), slot.(uparam := task.uparam))
    case LockMutex => if slot.mutex == Free then (Some(UnlockMutex), slot.(mutex := ByCaller)) else (Some(LockMutex), slot)
    case UnlockMutex => (Some(Signal), slot.(mutex := Free))
    case Signal =>
      // A signal that finds nobody waiting is lost.
      (None, slot.(worker := if slot.worker == Waiting then Signaled else slot.worker,
                   history := slot.history + [Posted(task)]))
  }

  /** One step of `assign_task`. */
  function CallStep(call: Call, slots: seq<Slot>): (Call, seq<Slot>) {
    var n := |call.seen|;
    match call
    case Scan(task, seen, held) =>
      if n < |slots| then
        if slots[n].locked then (Scan(task, seen + [Lost], held), slots)
        else (Check(task, seen, held), slots[n := slots[n].(locked := true)])
      else if held.Some? then (Filling(task, seen, Allocate, held.value), slots)
      else (Returned(task, seen, false), slots)
    case Check(task, seen, held) =>
      if n >= |slots| then (call, slots)
      else if slots[n].isAllocated then
        if held.Some? then (DropHeld(task, seen + [WonAllocated], held.value), slots)
        else (Filling(task, seen + [WonAllocated], StoreEntry, n), slots)
      else if held.None? then (Scan(task, seen + [WonEmpty], Some(n)), slots)
      else (DropNew(task, seen + [WonEmpty], held.value), slots)
    case DropHeld(task, seen, dropped) =>
      if seen == [] then (call, slots) else (Filling(task, seen, StoreEntry, n - 1), Unlock(slots, dropped))
    case DropNew(task, seen, kept) =>
      if seen == [] then (call, slots) else (Scan(task, seen, Some(kept)), Unlock(slots, n - 1))
    case Filling(task, seen, phase, s) =>
      if s >= |slots| then (call, slots)
      else
        var (next, slot) := FillStep(task, phase, slots[s]);
        (if next.Some? then Filling(task, seen, next.value, s) else Returned(task, seen, true), slots[s := slot])
    case Returned(_, _, _) => (call, slots)
  }

  function Unlock(slots: seq<Slot>, s: nat): seq<Slot> {
    if s < |slots| then slots[s := slots[s].(locked := false)] else slots
  }

  /** One step of a worker, but for starting and ending a call of `assign_task`. */
  function WorkerStep(slot: Slot): Slot {
    match slot.worker
    case Starting => if slot.mutex == Free then slot.(mutex := ByWorker, worker := Readying) else slot
    case Readying => slot.(ready := true, worker := Idle)
    case Idle => slot.(mutex := Free, worker := Waiting)
    case Signaled => if slot.mutex == Free then slot.(mutex := ByWorker, worker := Woken) else slot
    case Woken =>
      if slot.entry.None? then slot.(worker := Release)
      else slot.(worker := if slot.entry.value == ServerEntry then Begin else System,
                 history := slot.history + [Started(Task(slot.entry.value, slot.uparam))])
    case System => slot.(worker := Release)
    case Begin => slot.(worker := Accept(slot.uparam))
    case Serve(srv, retInCache) => slot.(worker := if retInCache then Release else Begin)
    case Release => slot.(locked := false, worker := Idle, history := slot.history + [Over])
    case _ => slot
  }

  datatype Step = Launch(id: nat, task: Task) | Advance(caller: Caller) | Leave(id: nat) | Work(slot: nat)

  /** A step that is not enabled changes nothing. */
  function Do(st: State, step: Step): (next: State)
    ensures |next.slots| == |st.slots|
  {
    match step
    case Launch(id, task) => if Launchable(st, id, task) then DoLaunch(st, id, task) else st
    case Advance(c) => if c in st.calls && !st.calls[c].Returned? then DoAdvance(st, c) else st
    case Leave(id) =>
      if Outside(id) in st.calls && st.calls[Outside(id)].Returned? then st.(calls := st.calls - {Outside(id)}) else st
    case Work(s) => if s < |st.slots| then DoWork(st, s) else st
  }

  /** A server is run once. */
  predicate Launchable(st: State, id: nat, task: Task) {
    Outside(id) !in st.calls && (task.entry == ServerEntry ==> task.uparam !in st.launched)
  }

  function DoLaunch(st: State, id: nat, task: Task): State {
    var st := st.(calls := st.calls[Outside(id) := Scan(task, [], None)]);
    if task.entry == ServerEntry then
      st.(launched := st.launched + {task.uparam}, acceptor := st.acceptor[task.uparam := Outside(id)])
    else st
  }

  function DoAdvance(st: State, c: Caller): State
    requires c in st.calls
  {
    var call := st.calls[c];
    var (next, slots) := CallStep(call, st.slots);
    var st := st.(calls := st.calls[c := next], slots := slots);
    if !next.Returned? || call.task.entry != ServerEntry then st
    else if next.ok then
      if call.Filling? then st.(acceptor := st.acceptor[call.task.uparam := Inside(call.slot)]) else st
    else if c.Outside? then
      st.(failed := st.failed + {call.task.uparam}, acceptor := st.acceptor - {call.task.uparam})
    else st
  }

  function DoWork(st: State, s: nat): State
    requires s < |st.slots|
  {
    var slot := st.slots[s];
    var c := Inside(s);
    match slot.worker
    case Accept(srv) =>
      st.(slots := st.slots[s := slot.(worker := Assigning(srv))],
          calls := st.calls[c := Scan(Task(ServerEntry, srv), [], None)])
    case Assigning(srv) =>
      if c in st.calls && st.calls[c].Returned? then
        st.(slots := st.slots[s := slot.(worker := Serve(srv, st.calls[c].ok))], calls := st.calls - {c})
      else st
    case _ => st.(slots := st.slots[s := WorkerStep(slot)])
  }

  function Run(st: State, steps: seq<Step>): State
    decreases |steps|
  {
    if steps == [] then st else Run(Do(st, steps[0]), steps[1..])
  }

  // ---------- The invariant ----------

  predicate HoldsMutex(w: Worker) {
    w.Readying? || w.Idle? || w.Woken? || InTask(w)
  }

  predicate InTask(w: Worker) {
    w.System? || w.Begin? || w.Accept? || w.Assigning? || w.Serve? || w.Release?
  }

  /** Between the signal and the end of the task. */
  predicate Busy(w: Worker) {
    w.Signaled? || w.Woken? || InTask(w)
  }

  predicate Parked(slot: Slot) {
    slot.isAllocated && slot.ready && (slot.worker.Idle? || slot.worker.Waiting?) && slot.mutex != ByCaller
  }

  predicate Threadless(slot: Slot) {
    !slot.isAllocated && slot.worker.NoThread? && slot.mutex != ByCaller
  }

  /** Posted, started with the posted task, over; and again. */
  predicate Alternates(h: seq<Event>) {
    && (forall i :: 0 <= i < |h| && i % 3 == 0 ==> h[i].Posted?)
    && (forall i :: 0 <= i < |h| && i % 3 == 1 ==> h[i] == Started(h[i - 1].task))
    && (forall i :: 0 <= i < |h| && i % 3 == 2 ==> h[i].Over?)
  }

  predicate HistoryOk(slot: Slot) {
    var h := slot.history;
    && Alternates(h)
    && |h| % 3 == (if !Busy(slot.worker) then 0 else if InTask(slot.worker) then 2 else 1)
    && (Busy(slot.worker) ==>
          && slot.entry.Some?
          && h[|h| - 1] == if InTask(slot.worker) then Started(Task(slot.entry.value, slot.uparam))
                           else Posted(Task(slot.entry.value, slot.uparam)))
  }

  predicate SlotOk(slot: Slot) {
    && (HoldsMutex(slot.worker) <==> slot.mutex == ByWorker)
    && (slot.worker.NoThread? || slot.worker.Starting? || slot.worker.Readying? <==> !slot.ready)
    && (!slot.isAllocated ==> slot.worker.NoThread?)
    && (Busy(slot.worker) ==> slot.locked)
    && (!slot.locked ==> Parked(slot) || Threadless(slot))
    && (InTask(slot.worker) && !slot.worker.System? && !slot.worker.Release? ==>
          slot.entry == Some(ServerEntry) && (!slot.worker.Begin? ==> slot.worker.srv == slot.uparam))
    && HistoryOk(slot)
  }

  /** The slots a call has locked. */
  function Held(call: Call): set<nat> {
    match call
    case Scan(_, _, held) => OptionSet(held)
    case Check(_, seen, held) => OptionSet(held) + {|seen|}
    case DropHeld(_, seen, dropped) => {dropped} + if seen == [] then {} else {|seen| - 1}
    case DropNew(_, seen, kept) => {kept} + if seen == [] then {} else {|seen| - 1}
    case Filling(_, _, _, s) => {s}
    case Returned(_, _, _) => {}
  }

  function OptionSet(o: Option<nat>): set<nat> {
    if o.Some? then {o.value} else {}
  }

  predicate FillOk(task: Task, phase: Phase, slot: Slot) {
    match phase
    case Allocate => Threadless(slot)
    case Create => slot.isAllocated && slot.worker.NoThread? && slot.mutex != ByCaller
    case Spin =>
      slot.isAllocated && slot.mutex != ByCaller && (slot.worker.Starting? || slot.worker.Readying? || Parked(slot))
    case StoreEntry => Parked(slot)
    case StoreParam => Parked(slot) && slot.entry == Some(task.entry)
    case LockMutex => Parked(slot) && slot.entry == Some(task.entry) && slot.uparam == task.uparam
    case _ =>
      && slot.isAllocated && slot.worker.Waiting? && slot.entry == Some(task.entry) && slot.uparam == task.uparam
      && slot.ready && slot.mutex == if phase == UnlockMutex then ByCaller else Free
  }

  /** What a call has seen explains where it stands. The scan ends at the first slot won with a thread, or keeps
      the first slot won. */
  predicate SeenOk(call: Call, size: nat) {
    match call
    case Scan(_, seen, held) => |seen| <= size && WonAllocated !in seen && held == FirstWon(seen)
    case Check(_, seen, held) => |seen| < size && WonAllocated !in seen && held == FirstWon(seen)
    case DropHeld(_, seen, dropped) =>
      |seen| <= size && EndsAllocated(seen) && FirstWon(seen) == Some(dropped) && dropped < |seen| - 1
    case DropNew(_, seen, kept) =>
      |seen| <= size && WonAllocated !in seen && FirstWon(seen) == Some(kept) && kept < |seen| - 1
    case Filling(_, seen, phase, s) => |seen| <= size && Chosen(seen, size) == Some(s)
    case Returned(_, seen, ok) =>
      |seen| <= size && if ok then Chosen(seen, size).Some? else |seen| == size && FirstWon(seen) == None
  }

  predicate EndsAllocated(seen: seq<Swap>) {
    seen != [] && seen[|seen| - 1] == WonAllocated && WonAllocated !in seen[..|seen| - 1]
  }

  /** The first swap that succeeded. */
  function FirstWon(seen: seq<Swap>): Option<nat> {
    if seen == [] then None
    else if seen[0] != Lost then Some(0)
    else
      var rest := FirstWon(seen[1..]);
      if rest.Some? then Some(rest.value + 1) else None
  }

  /** The slot a finished scan keeps: the one won with a thread, else the first one won. */
  function Chosen(seen: seq<Swap>, size: nat): Option<nat> {
    if EndsAllocated(seen) then Some(|seen| - 1)
    else if |seen| == size && WonAllocated !in seen then FirstWon(seen)
    else None
  }

  predicate CallOk(call: Call, slots: seq<Slot>) {
    && SeenOk(call, |slots|)
    && (forall s :: s in Held(call) ==> s < |slots| && slots[s].locked && !Busy(slots[s].worker))
    && (call.Filling? ==> FillOk(call.task, call.phase, slots[call.slot]))
    && (forall s :: s in Held(call) && !call.Filling? ==> Threadless(slots[s]) || (Parked(slots[s]) && s == Newest(call)))
    && (call.DropHeld? ==> Parked(slots[|call.seen| - 1]))
  }

  /** The slot whose swap was won last. */
  function Newest(call: Call): int {
    match call
    case Check(_, seen, _) => |seen|
    case DropHeld(_, seen, _) => |seen| - 1
    case _ => -1
  }

  predicate Exclusive(calls: map<Caller, Call>) {
    forall c, d, s :: c in calls && d in calls && s in Held(calls[c]) && s in Held(calls[d]) ==> c == d
  }

  predicate SlotsOk(slots: seq<Slot>) {
    forall s :: 0 <= s < |slots| ==> SlotOk(slots[s])
  }

  // ---------- Steps of a call ----------

  lemma FillKeeps(task: Task, phase: Phase, slot: Slot)
    requires SlotOk(slot) && slot.locked && !Busy(slot.worker) && FillOk(task, phase, slot)
    ensures var (next, slot') := FillStep(task, phase, slot);
            && SlotOk(slot')
            && (next.Some? ==> slot'.locked && !Busy(slot'.worker) && FillOk(task, next.value, slot'))
  {
    if phase == Signal {
      PostedAlternates(slot.history, task);
    }
  }

  lemma PostedAlternates(h: seq<Event>, task: Task)
    requires Alternates(h) && |h| % 3 == 0
    ensures Alternates(h + [Posted(task)]) && |h + [Posted(task)]| % 3 == 1
  {
  }

  lemma {:induction false} FirstWonAppend(seen: seq<Swap>, x: Swap)
    ensures FirstWon(seen + [x])
         == if FirstWon(seen).Some? then FirstWon(seen) else if x == Lost then None else Some(|seen|)
    ensures FirstWon(seen).Some? ==> FirstWon(seen).value < |seen|
  {
    if seen != [] {
      assert (seen + [x])[1..] == seen[1..] + [x];
      FirstWonAppend(seen[1..], x);
    }
  }

  lemma LockKeeps(slot: Slot)
    requires SlotOk(slot) && !slot.locked
    ensures SlotOk(slot.(locked := true)) && !Busy(slot.worker)
  {
  }

  lemma UnlockKeeps(slot: Slot)
    requires SlotOk(slot) && !Busy(slot.worker) && (Parked(slot) || Threadless(slot))
    ensures SlotOk(slot.(locked := false))
  {
  }

  /** What a step of a call leaves intact: all slots but those it holds before or after, and every slot it newly
      holds was unlocked. */
  predicate Kept(call: Call, slots: seq<Slot>, next: Call, slots': seq<Slot>) {
    && |slots'| == |slots|
    && (forall s :: 0 <= s < |slots| && s !in Held(call) && s !in Held(next) ==> slots'[s] == slots[s])
    && (forall s :: s in Held(next) && s !in Held(call) ==> s < |slots| && !slots[s].locked)
  }

  lemma ScanKeeps(call: Call, slots: seq<Slot>)
    requires call.Scan? && CallOk(call, slots) && SlotsOk(slots)
    ensures var (next, slots') := CallStep(call, slots);
            CallOk(next, slots') && SlotsOk(slots') && Kept(call, slots, next, slots')
  {
    hide HistoryOk, Chosen, FirstWon;
    FirstWonAppend(call.seen, Lost);
    if |call.seen| == |slots| {
      ChosenAtEnd(call.seen);
    } else if !slots[|call.seen|].locked {
      LockKeeps(slots[|call.seen|]);
    }
    hide SlotOk;
  }

  lemma ChosenAtEnd(seen: seq<Swap>)
    requires WonAllocated !in seen
    ensures Chosen(seen, |seen|) == FirstWon(seen)
  {
  }

  lemma ChosenAllocated(seen: seq<Swap>, size: nat)
    requires WonAllocated !in seen
    ensures Chosen(seen + [WonAllocated], size) == Some(|seen|) && EndsAllocated(seen + [WonAllocated])
  {
    assert (seen + [WonAllocated])[..|seen|] == seen;
  }

  lemma CheckKeeps(call: Call, slots: seq<Slot>)
    requires call.Check? && CallOk(call, slots) && SlotsOk(slots)
    ensures var (next, slots') := CallStep(call, slots);
            CallOk(next, slots') && SlotsOk(slots') && Kept(call, slots, next, slots')
  {
    hide HistoryOk, SlotOk, Chosen, EndsAllocated, FirstWon;
    FirstWonAppend(call.seen, WonAllocated);
    FirstWonAppend(call.seen, WonEmpty);
    ChosenAllocated(call.seen, |slots|);
  }

  lemma DropKeeps(call: Call, slots: seq<Slot>)
    requires (call.DropHeld? || call.DropNew?) && CallOk(call, slots) && SlotsOk(slots)
    ensures var (next, slots') := CallStep(call, slots);
            CallOk(next, slots') && SlotsOk(slots') && Kept(call, slots, next, slots')
  {
    hide HistoryOk, EndsAllocated, FirstWon;
    var s := if call.DropHeld? then call.dropped else |call.seen| - 1;
    if 0 <= s < |slots| {
      UnlockKeeps(slots[s]);
    }
    hide SlotOk;
  }

  lemma FillingKeeps(call: Call, slots: seq<Slot>)
    requires call.Filling? && CallOk(call, slots) && SlotsOk(slots)
    ensures var (next, slots') := CallStep(call, slots);
            CallOk(next, slots') && SlotsOk(slots') && Kept(call, slots, next, slots')
  {
    hide SlotOk, FillStep, Chosen, FillOk;
    FillKeeps(call.task, call.phase, slots[call.slot]);
  }

  lemma CallStepKeeps(call: Call, slots: seq<Slot>)
    requires CallOk(call, slots) && SlotsOk(slots)
    ensures var (next, slots') := CallStep(call, slots);
            CallOk(next, slots') && SlotsOk(slots') && Kept(call, slots, next, slots')
  {
    hide *;
    match call {
      case Scan(_, _, _) => ScanKeeps(call, slots);
      case Check(_, _, _) => CheckKeeps(call, slots);
      case Filling(_, _, _, _) => FillingKeeps(call, slots);
      case DropHeld(_, _, _) => DropKeeps(call, slots);
      case DropNew(_, _, _) => DropKeeps(call, slots);
      case Returned(_, _, _) => ReturnedKeeps(call, slots);
    }
  }

  lemma ReturnedKeeps(call: Call, slots: seq<Slot>)
    requires call.Returned? && CallOk(call, slots) && SlotsOk(slots)
    ensures var (next, slots') := CallStep(call, slots);
            CallOk(next, slots') && SlotsOk(slots') && Kept(call, slots, next, slots')
  {
  }

  // ---------- Steps of a worker ----------

  lemma WorkerKeeps(slot: Slot)
    requires SlotOk(slot)
    ensures SlotOk(WorkerStep(slot))
  {
    var h := slot.history;
    if slot.worker.Woken? {
      StartedAlternates(h);
    } else if slot.worker.Release? {
      OverAlternates(h);
    }
    hide Alternates;
  }

  lemma StartedAlternates(h: seq<Event>)
    requires Alternates(h) && |h| % 3 == 1
    ensures var i := |h| - 1;
            h[i].Posted? && Alternates(h + [Started(h[i].task)]) && |h + [Started(h[i].task)]| % 3 == 2
  {
  }

  lemma OverAlternates(h: seq<Event>)
    requires Alternates(h) && |h| % 3 == 2
    ensures Alternates(h + [Over]) && |h + [Over]| % 3 == 0
  {
  }

  /** A worker's step on a slot that a call holds leaves the call right about it. */
  lemma WorkerKeepsHeld(slot: Slot)
    requires SlotOk(slot) && slot.locked && !Busy(slot.worker)
    ensures var slot' := WorkerStep(slot);
            && slot'.locked && !Busy(slot'.worker)
            && (Threadless(slot) ==> Threadless(slot')) && (Parked(slot) ==> Parked(slot'))
            && forall task, phase :: FillOk(task, phase, slot) ==> FillOk(task, phase, slot')
  {
    hide HistoryOk;
  }

  lemma WorkerKeepsCall(call: Call, slots: seq<Slot>, s: nat)
    requires CallOk(call, slots) && s < |slots| && SlotOk(slots[s])
    ensures CallOk(call, slots[s := WorkerStep(slots[s])])
  {
    hide SeenOk, SlotOk, FillOk, Threadless, Parked, WorkerStep, Busy;
    SeenInHeld(call, |slots|);
    if s in Held(call) {
      WorkerKeepsHeld(slots[s]);
    } else {
      OthersSlot(call, slots, s, WorkerStep(slots[s]));
    }
  }

  lemma OthersSlot(call: Call, slots: seq<Slot>, s: nat, slot: Slot)
    requires CallOk(call, slots) && s < |slots| && s !in Held(call)
    ensures CallOk(call, slots[s := slot])
  {
    hide FillOk, Threadless, Parked, Busy;
  }

  // ---------- All of the state ----------

  predicate CallsOk(calls: map<Caller, Call>, slots: seq<Slot>) {
    forall c :: c in calls ==> CallOk(calls[c], slots)
  }

  /** The calls from inside are those of the workers that are in one. */
  ghost predicate WorkersOk(calls: map<Caller, Call>, slots: seq<Slot>) {
    && (forall s: nat :: s < |slots| ==> (slots[s].worker.Assigning? <==> Inside(s) in calls))
    && (forall s: nat :: s < |slots| && Inside(s) in calls ==>
                           calls[Inside(s)].task == Task(ServerEntry, slots[s].worker.srv))
    && (forall s: nat :: Inside(s) in calls ==> s < |slots|)
  }

  ghost predicate PoolOk(st: State) {
    && SlotsOk(st.slots) && CallsOk(st.calls, st.slots) && Exclusive(st.calls) && WorkersOk(st.calls, st.slots)
  }

  lemma OtherCallKept(call: Call, slots: seq<Slot>, next: Call, slots': seq<Slot>, other: Call)
    requires Kept(call, slots, next, slots') && CallOk(other, slots) && Held(other) !! Held(call)
    ensures CallOk(other, slots') && Held(other) !! Held(next)
  {
    hide SeenOk, FillOk, Threadless, Parked, Busy;
    forall s | s in Held(other) ensures s !in Held(next) && s < |slots| && slots'[s] == slots[s] {
    }
    SeenInHeld(other, |slots|);
    hide Held;
  }

  lemma SeenInHeld(call: Call, size: nat)
    requires SeenOk(call, size)
    ensures call.Filling? ==> call.slot in Held(call)
    ensures call.DropHeld? ==> |call.seen| > 0 && |call.seen| - 1 in Held(call)
  {
  }

  lemma Apart(calls: map<Caller, Call>, c: Caller, d: Caller)
    requires Exclusive(calls) && c in calls && d in calls && c != d
    ensures Held(calls[c]) !! Held(calls[d])
  {
    hide Held;
  }

  lemma ExclusiveIf(calls: map<Caller, Call>, c: Caller, next: Call)
    requires Exclusive(calls) && c in calls
    requires forall d :: d in calls && d != c ==> Held(calls[d]) !! Held(next)
    ensures Exclusive(calls[c := next])
  {
    hide Held;
  }

  lemma CallStepWorkers(call: Call, slots: seq<Slot>)
    requires CallOk(call, slots) && SlotsOk(slots)
    ensures var (next, slots') := CallStep(call, slots);
            && next.task == call.task && |slots'| == |slots|
            && forall s :: 0 <= s < |slots| && slots'[s].worker != slots[s].worker ==>
                 !slots[s].worker.Assigning? && !slots'[s].worker.Assigning?
  {
    hide SlotOk, Chosen, FirstWon, EndsAllocated, SeenOk;
  }

  lemma WorkersStay(calls: map<Caller, Call>, slots: seq<Slot>, c: Caller, next: Call, slots': seq<Slot>)
    requires WorkersOk(calls, slots) && c in calls && next.task == calls[c].task && |slots'| == |slots|
    requires forall s :: 0 <= s < |slots| && slots'[s].worker != slots[s].worker ==>
                           !slots[s].worker.Assigning? && !slots'[s].worker.Assigning?
    ensures WorkersOk(calls[c := next], slots')
  {
    var calls' := calls[c := next];
    assert forall s: nat :: s < |slots| && slots[s].worker.Assigning? ==> slots'[s].worker == slots[s].worker;
  }

  lemma AdvanceKeeps(st: State, c: Caller)
    requires PoolOk(st) && c in st.calls
    ensures PoolOk(DoAdvance(st, c))
  {
    hide *;
    PoolIs(st);
    CallIs(st.calls, c, st.slots);
    var call := st.calls[c];
    var (next, slots') := CallStep(call, st.slots);
    CallStepKeeps(call, st.slots);
    CallStepWorkers(call, st.slots);
    forall d | d in st.calls && d != c
      ensures CallOk(st.calls[d], slots') && Held(st.calls[d]) !! Held(next)
    {
      Apart(st.calls, c, d);
      CallIs(st.calls, d, st.slots);
      OtherCallKept(call, st.slots, next, slots', st.calls[d]);
    }
    ExclusiveIf(st.calls, c, next);
    WorkersStay(st.calls, st.slots, c, next, slots');
    CallsAre(st.calls[c := next], slots');
    PoolIf(DoAdvance(st, c), st.calls[c := next], slots');
    AdvanceIs(st, c);
  }

  lemma PoolIs(st: State)
    requires PoolOk(st)
    ensures SlotsOk(st.slots) && CallsOk(st.calls, st.slots) && Exclusive(st.calls) && WorkersOk(st.calls, st.slots)
  {
  }

  lemma PoolIf(st: State, calls: map<Caller, Call>, slots: seq<Slot>)
    requires SlotsOk(slots) && CallsOk(calls, slots) && Exclusive(calls) && WorkersOk(calls, slots)
    ensures st.calls == calls && st.slots == slots ==> PoolOk(st)
  {
  }

  lemma CallIs(calls: map<Caller, Call>, c: Caller, slots: seq<Slot>)
    requires CallsOk(calls, slots) && c in calls
    ensures CallOk(calls[c], slots)
  {
  }

  lemma CallsAre(calls: map<Caller, Call>, slots: seq<Slot>)
    requires forall c :: c in calls ==> CallOk(calls[c], slots)
    ensures CallsOk(calls, slots)
  {
  }

  lemma AdvanceIs(st: State, c: Caller)
    requires c in st.calls
    ensures var (next, slots') := CallStep(st.calls[c], st.slots);
            DoAdvance(st, c).calls == st.calls[c := next] && DoAdvance(st, c).slots == slots'
  {
    hide CallStep;
  }

  lemma NewCall(calls: map<Caller, Call>, slots: seq<Slot>, c: Caller, task: Task)
    requires Exclusive(calls) && CallsOk(calls, slots) && c !in calls
    ensures var calls' := calls[c := Scan(task, [], None)]; Exclusive(calls') && CallsOk(calls', slots)
  {
    var next := Scan(task, [], None);
    assert Held(next) == {} && CallOk(next, slots);
    hide Held, CallOk;
  }

  lemma CallGone(calls: map<Caller, Call>, slots: seq<Slot>, c: Caller)
    requires Exclusive(calls) && CallsOk(calls, slots)
    ensures Exclusive(calls - {c}) && CallsOk(calls - {c}, slots)
  {
    hide Held, CallOk;
  }

  lemma LaunchKeeps(st: State, id: nat, task: Task)
    requires PoolOk(st) && Outside(id) !in st.calls
    ensures PoolOk(DoLaunch(st, id, task))
  {
    hide SlotsOk, CallsOk, Exclusive;
    NewCall(st.calls, st.slots, Outside(id), task);
  }

  lemma LeaveKeeps(st: State, id: nat)
    requires PoolOk(st)
    ensures PoolOk(st.(calls := st.calls - {Outside(id)}))
  {
    hide SlotsOk, CallsOk, Exclusive;
    CallGone(st.calls, st.slots, Outside(id));
  }

  /** A slot with a task running is held by no call. */
  lemma BusyIsUnheld(calls: map<Caller, Call>, slots: seq<Slot>, s: nat, slot: Slot)
    requires CallsOk(calls, slots) && s < |slots| && Busy(slots[s].worker)
    ensures CallsOk(calls, slots[s := slot])
  {
    hide CallOk, Busy;
    forall c | c in calls ensures CallOk(calls[c], slots[s := slot]) {
      assert CallOk(calls[c], slots);
      NotBusy(calls[c], slots, s);
      OthersSlot(calls[c], slots, s, slot);
    }
  }

  lemma NotBusy(call: Call, slots: seq<Slot>, s: nat)
    requires CallOk(call, slots) && s < |slots| && Busy(slots[s].worker)
    ensures s !in Held(call)
  {
    hide Busy, SeenOk, FillOk;
  }

  lemma SlotsUpdate(slots: seq<Slot>, s: nat, slot: Slot)
    requires SlotsOk(slots) && s < |slots| && SlotOk(slot)
    ensures SlotsOk(slots[s := slot])
  {
    hide SlotOk;
  }

  lemma SessionSteps(slot: Slot)
    requires SlotOk(slot) && (slot.worker.Accept? || slot.worker.Assigning?)
    ensures Busy(slot.worker) && slot.worker.srv == slot.uparam
    ensures SlotOk(slot.(worker := Assigning(slot.uparam)))
    ensures forall ok :: SlotOk(slot.(worker := Serve(slot.uparam, ok)))
  {
    hide Alternates;
  }

  lemma WorkersAccept(calls: map<Caller, Call>, slots: seq<Slot>, s: nat, call: Call)
    requires WorkersOk(calls, slots) && s < |slots| && slots[s].worker.Accept?
    requires call.task == Task(ServerEntry, slots[s].worker.srv)
    ensures Inside(s) !in calls
    ensures WorkersOk(calls[Inside(s) := call], slots[s := slots[s].(worker := Assigning(slots[s].worker.srv))])
  {
  }

  lemma WorkersServe(calls: map<Caller, Call>, slots: seq<Slot>, s: nat, ok: bool)
    requires WorkersOk(calls, slots) && s < |slots| && slots[s].worker.Assigning?
    ensures WorkersOk(calls - {Inside(s)}, slots[s := slots[s].(worker := Serve(slots[s].worker.srv, ok))])
  {
  }

  lemma SlotIs(slots: seq<Slot>, s: nat)
    requires SlotsOk(slots) && s < |slots|
    ensures SlotOk(slots[s])
  {
    hide SlotOk;
  }

  lemma AcceptKeeps(st: State, s: nat)
    requires PoolOk(st) && s < |st.slots| && st.slots[s].worker.Accept?
    ensures PoolOk(DoWork(st, s))
  {
    hide *;
    PoolIs(st);
    var slot := st.slots[s];
    var task := Task(ServerEntry, slot.worker.srv);
    var slot' := slot.(worker := Assigning(slot.worker.srv));
    SlotIs(st.slots, s);
    SessionSteps(slot);
    SlotsUpdate(st.slots, s, slot');
    BusyIsUnheld(st.calls, st.slots, s, slot');
    WorkersAccept(st.calls, st.slots, s, Scan(task, [], None));
    NewCall(st.calls, st.slots[s := slot'], Inside(s), task);
    AcceptIs(st, s);
    PoolIf(DoWork(st, s), DoWork(st, s).calls, DoWork(st, s).slots);
  }

  lemma AcceptIs(st: State, s: nat)
    requires s < |st.slots| && st.slots[s].worker.Accept?
    ensures var srv := st.slots[s].worker.srv;
            && DoWork(st, s).slots == st.slots[s := st.slots[s].(worker := Assigning(srv))]
            && DoWork(st, s).calls == st.calls[Inside(s) := Scan(Task(ServerEntry, srv), [], None)]
  {
  }

  lemma AssigningKeeps(st: State, s: nat)
    requires PoolOk(st) && s < |st.slots| && st.slots[s].worker.Assigning?
    ensures PoolOk(DoWork(st, s))
  {
    hide *;
    var c, slot := Inside(s), st.slots[s];
    AssigningIs(st, s);
    if c in st.calls && st.calls[c].Returned? {
      PoolIs(st);
      var slot' := slot.(worker := Serve(slot.worker.srv, st.calls[c].ok));
      SlotIs(st.slots, s);
      SessionSteps(slot);
      SlotsUpdate(st.slots, s, slot');
      BusyIsUnheld(st.calls, st.slots, s, slot');
      WorkersServe(st.calls, st.slots, s, st.calls[c].ok);
      CallGone(st.calls, st.slots[s := slot'], c);
      PoolIf(DoWork(st, s), DoWork(st, s).calls, DoWork(st, s).slots);
    }
  }

  lemma AssigningIs(st: State, s: nat)
    requires s < |st.slots| && st.slots[s].worker.Assigning?
    ensures var c, slot := Inside(s), st.slots[s];
            if c in st.calls && st.calls[c].Returned? then
              && DoWork(st, s).slots == st.slots[s := slot.(worker := Serve(slot.worker.srv, st.calls[c].ok))]
              && DoWork(st, s).calls == st.calls - {c}
            else DoWork(st, s) == st
  {
  }

  lemma LocalStepKeeps(st: State, s: nat)
    requires PoolOk(st) && s < |st.slots| && !st.slots[s].worker.Assigning? && !st.slots[s].worker.Accept?
    ensures PoolOk(DoWork(st, s))
  {
    var slot' := WorkerStep(st.slots[s]);
    assert !slot'.worker.Assigning?;
    hide CallOk, Exclusive, WorkerStep, SlotOk;
    assert SlotOk(st.slots[s]);
    WorkerKeeps(st.slots[s]);
    SlotsUpdate(st.slots, s, slot');
    forall c | c in st.calls ensures CallOk(st.calls[c], st.slots[s := slot']) {
      WorkerKeepsCall(st.calls[c], st.slots, s);
    }
    hide SlotsOk;
  }

  lemma WorkKeeps(st: State, s: nat)
    requires PoolOk(st) && s < |st.slots|
    ensures PoolOk(DoWork(st, s))
  {
    hide *;
    if st.slots[s].worker.Accept? {
      AcceptKeeps(st, s);
    } else if st.slots[s].worker.Assigning? {
      AssigningKeeps(st, s);
    } else {
      LocalStepKeeps(st, s);
    }
  }

  lemma StepKeeps(st: State, step: Step)
    requires PoolOk(st)
    ensures PoolOk(Do(st, step))
  {
    hide PoolOk, DoLaunch, DoAdvance, DoWork;
    match step {
      case Launch(id, task) => if Launchable(st, id, task) { LaunchKeeps(st, id, task); }
      case Advance(c) => if c in st.calls { AdvanceKeeps(st, c); }
      case Leave(id) => LeaveKeeps(st, id);
      case Work(s) => if s < |st.slots| { WorkKeeps(st, s); }
    }
  }

  lemma InitIsOk(size: nat)
    ensures PoolOk(Init(size))
  {
  }

  // ---------- Locks ----------

  ghost predicate OwnedBy(calls: map<Caller, Call>, c: Caller, s: nat) {
    c in calls && s in Held(calls[c])
  }

  /** A locked slot has a task under way, or a call that holds it. */
  ghost predicate LocksOk(calls: map<Caller, Call>, slots: seq<Slot>) {
    forall s: nat :: s < |slots| && slots[s].locked && !Busy(slots[s].worker) ==> exists c :: OwnedBy(calls, c, s)
  }

  /** A call that lets go of a slot has unlocked it, or has left the lock to the worker. */
  lemma CallReleases(call: Call, slots: seq<Slot>, s: nat)
    requires CallOk(call, slots) && s in Held(call) && s !in Held(CallStep(call, slots).0)
    ensures var slots' := CallStep(call, slots).1;
            s < |slots'| && (slots'[s].locked ==> Busy(slots'[s].worker))
  {
    hide FirstWon, EndsAllocated, Chosen;
  }

  lemma AdvanceLocks(st: State, c: Caller)
    requires PoolOk(st) && LocksOk(st.calls, st.slots) && c in st.calls
    ensures LocksOk(DoAdvance(st, c).calls, DoAdvance(st, c).slots)
  {
    hide *;
    PoolIs(st);
    CallIs(st.calls, c, st.slots);
    CallStepKeeps(st.calls[c], st.slots);
    AdvanceIs(st, c);
    var call, calls, slots' := st.calls[c], DoAdvance(st, c).calls, DoAdvance(st, c).slots;
    forall s: nat | s < |slots'| && slots'[s].locked && !Busy(slots'[s].worker)
      ensures exists d :: OwnedBy(calls, d, s)
    {
      AdvanceOwns(st.calls, st.slots, c, s, calls, slots');
    }
    LocksIf(calls, slots');
  }

  lemma LocksIf(calls: map<Caller, Call>, slots: seq<Slot>)
    requires forall s: nat :: s < |slots| && slots[s].locked && !Busy(slots[s].worker) ==>
                                exists c :: OwnedBy(calls, c, s)
    ensures LocksOk(calls, slots)
  {
    hide OwnedBy, Busy;
  }

  lemma OwnerIs(calls: map<Caller, Call>, slots: seq<Slot>, s: nat)
    requires LocksOk(calls, slots) && s < |slots| && slots[s].locked && !Busy(slots[s].worker)
    ensures exists c :: OwnedBy(calls, c, s)
  {
    hide OwnedBy, Busy;
  }

  lemma AdvanceOwns(calls: map<Caller, Call>, slots: seq<Slot>, c: Caller, s: nat, calls': map<Caller, Call>,
                    slots': seq<Slot>)
    requires c in calls && CallOk(calls[c], slots) && LocksOk(calls, slots)
    requires var (next, after) := CallStep(calls[c], slots);
             calls' == calls[c := next] && slots' == after && Kept(calls[c], slots, next, after)
    requires s < |slots'| && slots'[s].locked && !Busy(slots'[s].worker)
    ensures exists d :: OwnedBy(calls', d, s)
  {
    hide CallStep, CallOk, Held, Busy, LocksOk;
    var next := calls'[c];
    if s in Held(next) {
      assert OwnedBy(calls', c, s);
    } else if s in Held(calls[c]) {
      CallReleases(calls[c], slots, s);
    } else {
      OwnerIs(calls, slots, s);
      var d :| OwnedBy(calls, d, s);
      assert OwnedBy(calls', d, s);
    }
  }

  lemma CallsChange(calls: map<Caller, Call>, calls': map<Caller, Call>, slots: seq<Slot>)
    requires LocksOk(calls, slots)
    requires forall c :: c in calls && Held(calls[c]) != {} ==> c in calls' && calls'[c] == calls[c]
    ensures LocksOk(calls', slots)
  {
    hide Held, Busy;
    forall s: nat | s < |slots| && slots[s].locked && !Busy(slots[s].worker)
      ensures exists d :: OwnedBy(calls', d, s)
    {
      var d :| OwnedBy(calls, d, s);
      assert OwnedBy(calls', d, s);
    }
  }

  lemma SlotChanges(calls: map<Caller, Call>, slots: seq<Slot>, s: nat, slot: Slot)
    requires LocksOk(calls, slots) && s < |slots|
    requires slot.locked && !Busy(slot.worker) ==> slots[s].locked && !Busy(slots[s].worker)
    ensures LocksOk(calls, slots[s := slot])
  {
    hide Held, Busy;
  }

  lemma ReturnedHoldsNone(call: Call)
    requires call.Returned?
    ensures Held(call) == {}
  {
  }

  lemma SessionIsBusy(w: Worker)
    requires w.Assigning? || w.Serve?
    ensures Busy(w)
  {
  }

  lemma AcceptLocks(st: State, s: nat)
    requires PoolOk(st) && LocksOk(st.calls, st.slots) && s < |st.slots| && st.slots[s].worker.Accept?
    ensures LocksOk(DoWork(st, s).calls, DoWork(st, s).slots)
  {
    hide *;
    PoolIs(st);
    AcceptIs(st, s);
    var call := Scan(Task(ServerEntry, st.slots[s].worker.srv), [], None);
    var slots' := DoWork(st, s).slots;
    WorkersAccept(st.calls, st.slots, s, call);
    SessionIsBusy(slots'[s].worker);
    SlotChanges(st.calls, st.slots, s, slots'[s]);
    CallsChange(st.calls, DoWork(st, s).calls, slots');
  }

  lemma AssigningLocks(st: State, s: nat)
    requires LocksOk(st.calls, st.slots) && s < |st.slots| && st.slots[s].worker.Assigning?
    ensures LocksOk(DoWork(st, s).calls, DoWork(st, s).slots)
  {
    hide *;
    AssigningIs(st, s);
    var c := Inside(s);
    if c in st.calls && st.calls[c].Returned? {
      var slots' := DoWork(st, s).slots;
      SessionIsBusy(slots'[s].worker);
      SlotChanges(st.calls, st.slots, s, slots'[s]);
      ReturnedHoldsNone(st.calls[c]);
      CallsChange(st.calls, DoWork(st, s).calls, slots');
    }
  }

  /** A worker that is done has unlocked its slot. */
  lemma WorkerUnlocks(slot: Slot)
    ensures var slot' := WorkerStep(slot); slot'.locked && !Busy(slot'.worker) ==> slot.locked && !Busy(slot.worker)
  {
  }

  lemma LocalLocks(st: State, s: nat)
    requires LocksOk(st.calls, st.slots) && s < |st.slots|
    requires !st.slots[s].worker.Assigning? && !st.slots[s].worker.Accept?
    ensures LocksOk(DoWork(st, s).calls, DoWork(st, s).slots)
  {
    hide LocksOk, Busy, WorkerStep;
    WorkerUnlocks(st.slots[s]);
    SlotChanges(st.calls, st.slots, s, WorkerStep(st.slots[s]));
  }

  lemma WorkLocks(st: State, s: nat)
    requires PoolOk(st) && LocksOk(st.calls, st.slots) && s < |st.slots|
    ensures LocksOk(DoWork(st, s).calls, DoWork(st, s).slots)
  {
    hide *;
    if st.slots[s].worker.Accept? {
      AcceptLocks(st, s);
    } else if st.slots[s].worker.Assigning? {
      AssigningLocks(st, s);
    } else {
      LocalLocks(st, s);
    }
  }

  lemma StepLocks(st: State, step: Step)
    requires PoolOk(st) && LocksOk(st.calls, st.slots)
    ensures LocksOk(Do(st, step).calls, Do(st, step).slots)
  {
    hide PoolOk, LocksOk, DoAdvance, DoWork, Held;
    match step {
      case Launch(id, task) =>
        if Outside(id) !in st.calls {
          CallsChange(st.calls, st.calls[Outside(id) := Scan(task, [], None)], st.slots);
        }
      case Advance(c) => if c in st.calls { AdvanceLocks(st, c); }
      case Leave(id) =>
        if Outside(id) in st.calls && st.calls[Outside(id)].Returned? {
          ReturnedHoldsNone(st.calls[Outside(id)]);
          CallsChange(st.calls, st.calls - {Outside(id)}, st.slots);
        }
      case Work(s) => if s < |st.slots| { WorkLocks(st, s); }
    }
  }

  // ---------- The duty to accept ----------

  function TaskDuty(task: Task): Option<nat> {
    if task.entry == ServerEntry then Some(task.uparam) else None
  }

  /** The server whose next connection a worker is due to accept: that of a task it was posted, of its session
      until the session's call of `assign_task` succeeds, and of its session again if that call failed. */
  function WorkerDuty(slot: Slot, handedOn: bool): Option<nat> {
    match slot.worker
    case Signaled => if slot.entry == Some(ServerEntry) then Some(slot.uparam) else None
    case Woken => if slot.entry == Some(ServerEntry) then Some(slot.uparam) else None
    case Begin => Some(slot.uparam)
    case Accept(srv) => Some(srv)
    case Assigning(srv) => if handedOn then None else Some(srv)
    case Serve(srv, retInCache) => if retInCache then None else Some(srv)
    case _ => None
  }

  predicate HandedOn(calls: map<Caller, Call>, c: Caller) {
    c in calls && calls[c].Returned? && calls[c].ok
  }

  /** The server whose acceptor a thread is: a worker, or an outside caller that is assigning its first task. */
  function DutyOf(st: State, c: Caller): Option<nat> {
    match c
    case Outside(_) => if c in st.calls && !st.calls[c].Returned? then TaskDuty(st.calls[c].task) else None
    case Inside(s) => if s < |st.slots| then WorkerDuty(st.slots[s], HandedOn(st.calls, c)) else None
  }

  ghost predicate DutiesOk(st: State) {
    && (forall c :: DutyOf(st, c).Some? ==>
                      DutyOf(st, c).value in st.acceptor && st.acceptor[DutyOf(st, c).value] == c)
    && (forall srv :: srv in st.acceptor ==> DutyOf(st, st.acceptor[srv]) == Some(srv))
    && st.failed <= st.launched && st.acceptor.Keys == st.launched - st.failed
  }

  lemma SameDuties(st: State, st': State)
    requires DutiesOk(st) && (forall c :: DutyOf(st', c) == DutyOf(st, c))
    requires st'.acceptor == st.acceptor && st'.launched == st.launched && st'.failed == st.failed
    ensures DutiesOk(st')
  {
    hide DutyOf;
  }

  lemma DutyMoves(st: State, st': State, c: Caller, d: Caller, srv: nat)
    requires DutiesOk(st) && DutyOf(st, c) == Some(srv) && DutyOf(st, d) == None && c != d
    requires DutyOf(st', c) == None && DutyOf(st', d) == Some(srv)
    requires forall e :: e != c && e != d ==> DutyOf(st', e) == DutyOf(st, e)
    requires st'.acceptor == st.acceptor[srv := d] && st'.launched == st.launched && st'.failed == st.failed
    ensures DutiesOk(st')
  {
    hide DutyOf;
  }

  lemma DutyIsLost(st: State, st': State, c: Caller, srv: nat)
    requires DutiesOk(st) && DutyOf(st, c) == Some(srv) && DutyOf(st', c) == None
    requires forall e :: e != c ==> DutyOf(st', e) == DutyOf(st, e)
    requires st'.acceptor == st.acceptor - {srv} && st'.launched == st.launched && st'.failed == st.failed + {srv}
    ensures DutiesOk(st')
  {
    hide DutyOf;
  }

  lemma DutyAppears(st: State, st': State, c: Caller, srv: nat)
    requires DutiesOk(st) && srv !in st.launched && DutyOf(st, c) == None && DutyOf(st', c) == Some(srv)
    requires forall e :: e != c ==> DutyOf(st', e) == DutyOf(st, e)
    requires st'.acceptor == st.acceptor[srv := c] && st'.launched == st.launched + {srv} && st'.failed == st.failed
    ensures DutiesOk(st')
  {
    hide DutyOf;
  }

  lemma LaunchDuties(st: State, id: nat, task: Task)
    requires DutiesOk(st) && Launchable(st, id, task)
    ensures DutiesOk(DoLaunch(st, id, task))
  {
    var c, st' := Outside(id), DoLaunch(st, id, task);
    assert DutyOf(st, c) == None && DutyOf(st', c) == TaskDuty(task);
    assert forall e :: e != c ==> DutyOf(st', e) == DutyOf(st, e);
    hide DutyOf, DutiesOk;
    if task.entry == ServerEntry {
      DutyAppears(st, st', c, task.uparam);
    } else {
      SameDuties(st, st');
    }
  }

  lemma LeaveDuties(st: State, id: nat)
    requires DutiesOk(st) && Outside(id) in st.calls && st.calls[Outside(id)].Returned?
    ensures DutiesOk(st.(calls := st.calls - {Outside(id)}))
  {
    hide DutiesOk;
    SameDuties(st, st.(calls := st.calls - {Outside(id)}));
  }

  lemma WorkerStepDuty(slot: Slot, handedOn: bool)
    requires SlotOk(slot) && !slot.worker.Accept? && !slot.worker.Assigning?
    ensures WorkerDuty(WorkerStep(slot), handedOn) == WorkerDuty(slot, handedOn)
  {
    hide Alternates;
  }

  lemma LocalDuties(st: State, s: nat)
    requires SlotsOk(st.slots) && s < |st.slots| && !st.slots[s].worker.Accept? && !st.slots[s].worker.Assigning?
    ensures forall c :: DutyOf(DoWork(st, s), c) == DutyOf(st, c)
  {
    var slot := st.slots[s];
    assert SlotOk(slot);
    hide SlotOk, WorkerStep, WorkerDuty;
    WorkerStepDuty(slot, HandedOn(st.calls, Inside(s)));
  }

  lemma SessionDuties(st: State, s: nat)
    requires PoolOk(st) && s < |st.slots| && (st.slots[s].worker.Accept? || st.slots[s].worker.Assigning?)
    ensures forall c :: DutyOf(DoWork(st, s), c) == DutyOf(st, c)
  {
    hide SlotsOk, CallsOk, Exclusive;
  }

  lemma WorkDuties(st: State, s: nat)
    requires PoolOk(st) && DutiesOk(st) && s < |st.slots|
    ensures DutiesOk(DoWork(st, s))
  {
    hide *;
    PoolIs(st);
    if st.slots[s].worker.Accept? || st.slots[s].worker.Assigning? {
      SessionDuties(st, s);
    } else {
      LocalDuties(st, s);
    }
    WorkRecords(st, s);
    SameDuties(st, DoWork(st, s));
  }

  lemma WorkRecords(st: State, s: nat)
    requires s < |st.slots|
    ensures var st' := DoWork(st, s);
            st'.acceptor == st.acceptor && st'.launched == st.launched && st'.failed == st.failed
  {
    hide WorkerStep;
  }

  /** A slot's duty changes in a step of a call only when the call signals a task to it. */
  lemma CallStepDuties(call: Call, slots: seq<Slot>, s: nat, handedOn: bool)
    requires CallOk(call, slots) && SlotsOk(slots) && s < |slots|
    ensures var (next, slots') := CallStep(call, slots);
            && |slots'| == |slots|
            && if call.Filling? && call.phase == Signal && s == call.slot then
                 WorkerDuty(slots[s], handedOn) == None && WorkerDuty(slots'[s], handedOn) == TaskDuty(call.task)
               else WorkerDuty(slots'[s], handedOn) == WorkerDuty(slots[s], handedOn)
  {
    hide SlotOk, Chosen, FirstWon, EndsAllocated, SeenOk, HistoryOk;
  }

  lemma SignalReturns(call: Call, slots: seq<Slot>)
    requires CallOk(call, slots) && !call.Returned?
    ensures var (next, _) := CallStep(call, slots);
            next.Returned? && next.ok <==> call.Filling? && call.phase == Signal
  {
    hide Chosen, FirstWon, EndsAllocated;
  }

  /** How a step of a call changes who is due to accept. */
  lemma AdvanceMoves(st: State, c: Caller)
    requires PoolOk(st) && c in st.calls && !st.calls[c].Returned?
    ensures var call := st.calls[c];
            var (next, _) := CallStep(call, st.slots);
            var st' := DoAdvance(st, c);
            var signals := call.Filling? && call.phase == Signal;
            && DutyOf(st, c) == TaskDuty(call.task)
            && DutyOf(st', c) == (if signals || (next.Returned? && c.Outside?) then None else TaskDuty(call.task))
            && (signals ==> c != Inside(call.slot) && DutyOf(st, Inside(call.slot)) == None
                            && DutyOf(st', Inside(call.slot)) == TaskDuty(call.task))
            && forall d :: d != c && !(signals && d == Inside(call.slot)) ==> DutyOf(st', d) == DutyOf(st, d)
  {
    hide *;
    var call := st.calls[c];
    DutyBefore(st, c);
    AdvanceSelf(st, c);
    forall d | d != c
      ensures if call.Filling? && call.phase == Signal && d == Inside(call.slot) then
                DutyOf(st, d) == None && DutyOf(DoAdvance(st, c), d) == TaskDuty(call.task)
              else DutyOf(DoAdvance(st, c), d) == DutyOf(st, d)
    {
      AdvanceOther(st, c, d);
    }
  }

  lemma AdvanceSelf(st: State, c: Caller)
    requires PoolOk(st) && c in st.calls && !st.calls[c].Returned?
    ensures var call := st.calls[c];
            var (next, _) := CallStep(call, st.slots);
            var signals := call.Filling? && call.phase == Signal;
            && DutyOf(DoAdvance(st, c), c)
               == (if signals || (next.Returned? && c.Outside?) then None else TaskDuty(call.task))
            && (signals ==> c != Inside(call.slot))
  {
    hide *;
    PoolIs(st);
    CallIs(st.calls, c, st.slots);
    AdvanceIs(st, c);
    SignalReturns(st.calls[c], st.slots);
    CallStepWorkers(st.calls[c], st.slots);
    if c.Inside? {
      InsideIs(st.calls, st.slots, c.slot);
      if st.calls[c].Filling? {
        FillingIsIdle(st.calls[c], st.slots);
      }
      SessionDuty(DoAdvance(st, c), c.slot, st.calls[c].task);
    } else {
      OutsideDuty(DoAdvance(st, c), c);
    }
  }

  lemma InsideIs(calls: map<Caller, Call>, slots: seq<Slot>, s: nat)
    requires WorkersOk(calls, slots) && Inside(s) in calls
    ensures s < |slots| && slots[s].worker.Assigning? && calls[Inside(s)].task == Task(ServerEntry, slots[s].worker.srv)
  {
  }

  lemma SessionDuty(st: State, s: nat, task: Task)
    requires s < |st.slots| && st.slots[s].worker.Assigning? && task == Task(ServerEntry, st.slots[s].worker.srv)
    requires Inside(s) in st.calls
    ensures DutyOf(st, Inside(s))
         == if st.calls[Inside(s)].Returned? && st.calls[Inside(s)].ok then None else TaskDuty(task)
  {
  }

  lemma OutsideDuty(st: State, c: Caller)
    requires c.Outside?
    ensures DutyOf(st, c) == if c in st.calls && !st.calls[c].Returned? then TaskDuty(st.calls[c].task) else None
  {
  }

  lemma InsideDuty(st: State, s: nat)
    ensures DutyOf(st, Inside(s))
         == if s < |st.slots| then WorkerDuty(st.slots[s], HandedOn(st.calls, Inside(s))) else None
  {
  }

  lemma FillingIsIdle(call: Call, slots: seq<Slot>)
    requires CallOk(call, slots) && call.Filling?
    ensures call.slot < |slots| && !slots[call.slot].worker.Assigning?
  {
    hide SeenOk, FillOk;
  }

  lemma SameHandedOn(calls: map<Caller, Call>, c: Caller, next: Call, d: Caller)
    requires d != c
    ensures HandedOn(calls[c := next], d) == HandedOn(calls, d)
  {
  }

  lemma AdvanceOther(st: State, c: Caller, d: Caller)
    requires PoolOk(st) && c in st.calls && !st.calls[c].Returned? && d != c
    ensures var call := st.calls[c];
            if call.Filling? && call.phase == Signal && d == Inside(call.slot) then
              DutyOf(st, d) == None && DutyOf(DoAdvance(st, c), d) == TaskDuty(call.task)
            else DutyOf(DoAdvance(st, c), d) == DutyOf(st, d)
  {
    hide *;
    var call := st.calls[c];
    PoolIs(st);
    CallIs(st.calls, c, st.slots);
    AdvanceIs(st, c);
    CallStepWorkers(call, st.slots);
    if d.Inside? {
      InsideDuty(st, d.slot);
      InsideDuty(DoAdvance(st, c), d.slot);
      SameHandedOn(st.calls, c, CallStep(call, st.slots).0, d);
      if d.slot < |st.slots| {
        CallStepDuties(call, st.slots, d.slot, HandedOn(st.calls, d));
      }
      if call.Filling? {
        FillingIsIdle(call, st.slots);
      }
    } else {
      OutsideDuty(st, d);
      OutsideDuty(DoAdvance(st, c), d);
    }
  }

  lemma DutyBefore(st: State, c: Caller)
    requires PoolOk(st) && c in st.calls && !st.calls[c].Returned?
    ensures DutyOf(st, c) == TaskDuty(st.calls[c].task)
  {
    hide SlotsOk, CallsOk, Exclusive;
  }

  lemma AdvanceRecords(st: State, c: Caller)
    requires c in st.calls && CallOk(st.calls[c], st.slots) && !st.calls[c].Returned?
    ensures var call := st.calls[c];
            var (next, _) := CallStep(call, st.slots);
            var st' := DoAdvance(st, c);
            var server := call.task.entry == ServerEntry;
            var loses := server && next.Returned? && !next.ok && c.Outside?;
            && st'.launched == st.launched
            && st'.failed == (if loses then st.failed + {call.task.uparam} else st.failed)
            && st'.acceptor == (if server && call.Filling? && call.phase == Signal then
                                  st.acceptor[call.task.uparam := Inside(call.slot)]
                                else if loses then st.acceptor - {call.task.uparam}
                                else st.acceptor)
  {
    SignalReturns(st.calls[c], st.slots);
    hide CallStep, CallOk;
  }

  lemma AdvanceDuties(st: State, c: Caller)
    requires PoolOk(st) && DutiesOk(st) && c in st.calls && !st.calls[c].Returned?
    ensures DutiesOk(DoAdvance(st, c))
  {
    PoolIs(st);
    CallIs(st.calls, c, st.slots);
    var call, st' := st.calls[c], DoAdvance(st, c);
    var (next, _) := CallStep(call, st.slots);
    AdvanceMoves(st, c);
    AdvanceRecords(st, c);
    SignalReturns(call, st.slots);
    hide PoolOk, SlotsOk, CallsOk, Exclusive, DutiesOk, DutyOf, DoAdvance, CallStep, CallOk;
    if call.task.entry != ServerEntry {
      SameDuties(st, st');
    } else if call.Filling? && call.phase == Signal {
      DutyMoves(st, st', c, Inside(call.slot), call.task.uparam);
    } else if next.Returned? && c.Outside? {
      DutyIsLost(st, st', c, call.task.uparam);
    } else {
      SameDuties(st, st');
    }
  }

  // ---------- Whole runs ----------

  ghost predicate Inv(st: State) {
    PoolOk(st) && LocksOk(st.calls, st.slots) && DutiesOk(st)
  }

  /** Every step keeps the invariant. */
  lemma Invariance(st: State, step: Step)
    requires Inv(st)
    ensures Inv(Do(st, step))
  {
    StepKeeps(st, step);
    StepLocks(st, step);
    hide PoolOk, LocksOk, DutiesOk, DoLaunch, DoAdvance, DoWork, Launchable;
    match step {
      case Launch(id, task) => if Launchable(st, id, task) { LaunchDuties(st, id, task); }
      case Advance(c) => if c in st.calls && !st.calls[c].Returned? { AdvanceDuties(st, c); }
      case Leave(id) => if Outside(id) in st.calls && st.calls[Outside(id)].Returned? { LeaveDuties(st, id); }
      case Work(s) => if s < |st.slots| { WorkDuties(st, s); }
    }
  }

  lemma {:induction false} RunKeeps(st: State, steps: seq<Step>)
    requires Inv(st)
    ensures Inv(Run(st, steps)) && |Run(st, steps).slots| == |st.slots|
    decreases |steps|
  {
    if steps != [] {
      Invariance(st, steps[0]);
      hide Inv;
      RunKeeps(Do(st, steps[0]), steps[1..]);
    }
  }

  lemma EveryRun(size: nat, steps: seq<Step>)
    ensures Inv(Run(Init(size), steps)) && |Run(Init(size), steps).slots| == size
  {
    InitIsOk(size);
    RunKeeps(Init(size), steps);
  }

  /** In every interleaving, a caller that is about to signal finds its slot's worker waiting and its own task in
      the slot, so no signal is lost. */
  lemma SignalsFindAWaiter(size: nat, steps: seq<Step>, c: Caller)
    ensures var st := Run(Init(size), steps);
            c in st.calls && st.calls[c].Filling? && st.calls[c].phase == Signal ==>
              var slot := st.calls[c].slot;
              && slot < |st.slots| && st.slots[slot].worker.Waiting?
              && st.slots[slot].entry == Some(st.calls[c].task.entry)
              && st.slots[slot].uparam == st.calls[c].task.uparam
  {
    EveryRun(size, steps);
    var st := Run(Init(size), steps);
    hide Run, SlotsOk, Exclusive, WorkersOk, SeenOk, DutiesOk;
    if c in st.calls && st.calls[c].Filling? && st.calls[c].phase == Signal {
      assert CallOk(st.calls[c], st.slots);
      assert st.calls[c].slot in Held(st.calls[c]);
    }
  }

  /** In every interleaving, each slot's tasks are posted, started once as they were posted, and over, in turn;
      until it is over the slot still holds the task, and when the lock is free again nothing is left to run. */
  lemma TasksRunOnce(size: nat, steps: seq<Step>, s: nat)
    requires s < size
    ensures var slots := Run(Init(size), steps).slots;
            && |slots| == size && Alternates(slots[s].history)
            && (!slots[s].locked ==> |slots[s].history| % 3 == 0)
            && (|slots[s].history| % 3 != 0 ==>
                  var last := slots[s].history[|slots[s].history| - 1];
                  && slots[s].locked && slots[s].entry.Some? && !last.Over?
                  && last.task == Task(slots[s].entry.value, slots[s].uparam))
  {
    hide *;
    EveryRun(size, steps);
    SlotsInRun(Run(Init(size), steps));
    SlotIs(Run(Init(size), steps).slots, s);
    HistoryTells(Run(Init(size), steps).slots[s]);
  }

  lemma SlotsInRun(st: State)
    requires Inv(st)
    ensures SlotsOk(st.slots)
  {
    hide SlotsOk, CallsOk, Exclusive, WorkersOk, LocksOk, DutiesOk;
  }

  lemma HistoryTells(slot: Slot)
    requires SlotOk(slot)
    ensures Alternates(slot.history) && (!slot.locked ==> |slot.history| % 3 == 0)
    ensures |slot.history| % 3 != 0 ==>
              var last := slot.history[|slot.history| - 1];
              && slot.locked && slot.entry.Some? && !last.Over?
              && last.task == Task(slot.entry.value, slot.uparam)
  {
    hide Alternates;
  }

  predicate Signals(st: State, step: Step, s: nat) {
    && step.Advance? && step.caller in st.calls
    && st.calls[step.caller].Filling? && st.calls[step.caller].phase == Signal && st.calls[step.caller].slot == s
  }

  /** A task enters a slot's history exactly when a call of `assign_task` for that slot succeeds with it. */
  lemma PostedBySuccess(st: State, step: Step, s: nat)
    requires Inv(st) && s < |st.slots|
    ensures var h, st' := st.slots[s].history, Do(st, step);
            var h' := st'.slots[s].history;
            if Signals(st, step, s) then
              h' == h + [Posted(st.calls[step.caller].task)] && HandedOn(st'.calls, step.caller)
            else h' == h || (step == Work(s) && exists e: Event :: !e.Posted? && h' == h + [e])
  {
    hide PoolOk, LocksOk, DutiesOk, DoAdvance, DoWork, Launchable, HandedOn;
    match step {
      case Launch(_, _) =>
      case Leave(_) =>
      case Work(n) => if n < |st.slots| { WorkHistory(st, n, s); }
      case Advance(c) => if c in st.calls && !st.calls[c].Returned? { AdvanceHistory(st, c, s); }
    }
  }

  lemma WorkHistory(st: State, n: nat, s: nat)
    requires n < |st.slots| && s < |st.slots|
    ensures var h, st' := st.slots[s].history, DoWork(st, n);
            && |st'.slots| == |st.slots|
            && (st'.slots[s].history == h
                || (n == s && exists e: Event :: !e.Posted? && st'.slots[s].history == h + [e]))
  {
  }

  lemma CallStepHistory(call: Call, slots: seq<Slot>, s: nat)
    requires CallOk(call, slots) && s < |slots|
    ensures var (next, slots') := CallStep(call, slots);
            && |slots'| == |slots|
            && slots'[s].history
               == slots[s].history + if call.Filling? && call.phase == Signal && s == call.slot then [Posted(call.task)] else []
  {
    hide Chosen, FirstWon, EndsAllocated, SeenOk;
  }

  lemma AdvanceHistory(st: State, c: Caller, s: nat)
    requires PoolOk(st) && c in st.calls && !st.calls[c].Returned? && s < |st.slots|
    ensures var st' := DoAdvance(st, c);
            var signals := st.calls[c].Filling? && st.calls[c].phase == Signal && st.calls[c].slot == s;
            && |st'.slots| == |st.slots|
            && st'.slots[s].history
               == st.slots[s].history + (if signals then [Posted(st.calls[c].task)] else [])
            && (signals ==> HandedOn(st'.calls, c))
  {
    PoolIs(st);
    CallIs(st.calls, c, st.slots);
    AdvanceIs(st, c);
    SignalReturns(st.calls[c], st.slots);
    CallStepHistory(st.calls[c], st.slots, s);
    hide PoolOk, SlotsOk, CallsOk, Exclusive, DoAdvance, CallStep, CallOk;
  }

  /** In every interleaving, a server whose first task was not refused has exactly one acceptor; no other server
      has any. */
  lemma OneAcceptor(size: nat, steps: seq<Step>, srv: nat)
    ensures var st := Run(Init(size), steps);
            if srv in st.launched && srv !in st.failed then
              exists c :: DutyOf(st, c) == Some(srv) && forall d :: DutyOf(st, d) == Some(srv) ==> d == c
            else forall d :: DutyOf(st, d) != Some(srv)
  {
    EveryRun(size, steps);
    hide Run, PoolOk, DutyOf;
    var st := Run(Init(size), steps);
    if srv in st.launched && srv !in st.failed {
      assert srv in st.acceptor;
      assert DutyOf(st, st.acceptor[srv]) == Some(srv);
    }
  }

  lemma InvIs(st: State)
    requires Inv(st)
    ensures SlotsOk(st.slots) && CallsOk(st.calls, st.slots) && Exclusive(st.calls) && LocksOk(st.calls, st.slots)
  {
  }

  /** In every interleaving, the locked slots are those with a task under way and those that a call holds, and
      every lock has one owner. */
  lemma LocksAreOwnedOnce(size: nat, steps: seq<Step>, s: nat)
    requires s < size
    ensures var st := Run(Init(size), steps);
            && |st.slots| == size
            && (st.slots[s].locked <==> Busy(st.slots[s].worker) || exists c :: OwnedBy(st.calls, c, s))
            && (Busy(st.slots[s].worker) ==> forall c :: !OwnedBy(st.calls, c, s))
            && forall c, d :: OwnedBy(st.calls, c, s) && OwnedBy(st.calls, d, s) ==> c == d
  {
    hide *;
    var st := Run(Init(size), steps);
    EveryRun(size, steps);
    InvIs(st);
    LocksAre(st, s);
  }

  lemma LocksAre(st: State, s: nat)
    requires SlotsOk(st.slots) && CallsOk(st.calls, st.slots) && Exclusive(st.calls) && LocksOk(st.calls, st.slots)
    requires s < |st.slots|
    ensures st.slots[s].locked <==> Busy(st.slots[s].worker) || exists c :: OwnedBy(st.calls, c, s)
    ensures Busy(st.slots[s].worker) ==> forall c :: !OwnedBy(st.calls, c, s)
    ensures forall c, d :: OwnedBy(st.calls, c, s) && OwnedBy(st.calls, d, s) ==> c == d
  {
    hide Held, Busy, HistoryOk, SeenOk, FillOk, Parked, Threadless;
    assert SlotOk(st.slots[s]);
    forall c | OwnedBy(st.calls, c, s) ensures st.slots[s].locked && !Busy(st.slots[s].worker) {
      assert CallOk(st.calls[c], st.slots);
    }
  }

  ghost predicate OthersLock(st: State, c: Caller, s: nat)
    requires s < |st.slots|
  {
    Busy(st.slots[s].worker) || exists d :: d != c && OwnedBy(st.calls, d, s)
  }

  /** At every exit of the scan, in every interleaving and for all outcomes of the swaps, the caller has locked the
      slot it goes on with and every other locked slot is another's, or it has locked none; it fails only if all
      its swaps failed, and goes on with a slot that has a thread if it won one. */
  lemma ScanKeepsOneLock(size: nat, steps: seq<Step>, c: Caller)
    ensures var st := Run(Init(size), steps);
            c in st.calls ==>
              var call := st.calls[c];
              && |st.slots| == size
              && (call.Filling? ==>
                    && call.slot < |call.seen| && call.slot < size && st.slots[call.slot].locked
                    && !OthersLock(st, c, call.slot)
                    && (forall s: nat :: s < size && st.slots[s].locked && s != call.slot ==> OthersLock(st, c, s))
                    && call.seen[call.slot] != Lost
                    && (WonAllocated in call.seen ==> call.seen[call.slot] == WonAllocated)
                    && (WonAllocated !in call.seen ==>
                          |call.seen| == size && forall i :: 0 <= i < call.slot ==> call.seen[i] == Lost))
              && (call.Returned? ==> forall s: nat :: s < size && st.slots[s].locked ==> OthersLock(st, c, s))
              && (call.Returned? && !call.ok ==> |call.seen| == size && forall x :: x in call.seen ==> x == Lost)
  {
    hide *;
    var st := Run(Init(size), steps);
    EveryRun(size, steps);
    InvIs(st);
    if c in st.calls {
      CallIs(st.calls, c, st.slots);
      SeenTells(st.calls[c], st.slots);
      forall s: nat | s < size ensures st.slots[s].locked ==> OthersLock(st, c, s) || s in Held(st.calls[c]) {
        OthersAre(st, c, s);
      }
      if st.calls[c].Filling? {
        OthersAre(st, c, st.calls[c].slot);
      }
    }
  }

  lemma OthersAre(st: State, c: Caller, s: nat)
    requires SlotsOk(st.slots) && CallsOk(st.calls, st.slots) && Exclusive(st.calls) && LocksOk(st.calls, st.slots)
    requires c in st.calls && s < |st.slots|
    ensures s in Held(st.calls[c]) ==> !OthersLock(st, c, s)
    ensures s !in Held(st.calls[c]) && st.slots[s].locked ==> OthersLock(st, c, s)
  {
    hide Held, Busy, SlotsOk, CallsOk, Exclusive, LocksOk;
    LocksAre(st, s);
    assert OwnedBy(st.calls, c, s) <==> s in Held(st.calls[c]);
  }

  lemma SeenTells(call: Call, slots: seq<Slot>)
    requires CallOk(call, slots)
    ensures call.Filling? ==>
              && Held(call) == {call.slot} && call.slot < |call.seen| && call.slot < |slots|
              && slots[call.slot].locked && call.seen[call.slot] != Lost
              && (WonAllocated in call.seen ==> call.seen[call.slot] == WonAllocated)
              && (WonAllocated !in call.seen ==>
                    |call.seen| == |slots| && forall i :: 0 <= i < call.slot ==> call.seen[i] == Lost)
    ensures call.Returned? ==> Held(call) == {}
    ensures call.Returned? && !call.ok ==> |call.seen| == |slots| && forall x :: x in call.seen ==> x == Lost
  {
    hide FillOk, Parked, Threadless, Busy, FirstWon;
    FirstWonIs(call.seen);
  }

  lemma {:induction false} FirstWonIs(seen: seq<Swap>)
    ensures var first := FirstWon(seen);
            if first.None? then forall i :: 0 <= i < |seen| ==> seen[i] == Lost
            else
              && first.value < |seen| && seen[first.value] != Lost
              && forall i :: 0 <= i < first.value ==> seen[i] == Lost
  {
    if seen != [] {
      FirstWonIs(seen[1..]);
      assert forall i :: 1 <= i < |seen| ==> seen[i] == seen[1..][i - 1];
    }
  }

  // ---------- What a run brings about ----------

  lemma {:induction false} RunOn(st: State, a: seq<Step>, b: seq<Step>)
    ensures Run(st, a + b) == Run(Run(st, a), b)
    decreases |a|
  {
    hide Do;
    if a == [] {
      assert a + b == b;
    } else {
      assert (a + b)[1..] == a[1..] + b;
      RunOn(Do(st, a[0]), a[1..], b);
    }
  }

  lemma RunOne(st: State, step: Step)
    ensures Run(st, [step]) == Do(st, step)
  {
    assert [step][1..] == [];
  }

  /** The call has a slot, or an unlocked one ahead of it. */
  predicate Hopeful(call: Call, slots: seq<Slot>) {
    match call
    case Scan(_, seen, held) => held.Some? || exists s :: |seen| <= s < |slots| && !slots[s].locked
    case Returned(_, _, ok) => ok
    case _ => true
  }

  function Stage(call: Call): nat {
    match call
    case DropNew(_, _, _) => 12
    case Scan(_, _, _) => 11
    case Check(_, _, _) => 10
    case DropHeld(_, _, _) => 10
    case Filling(_, _, phase, _) =>
      (match phase
       case Allocate => 8 case Create => 7 case Spin => 6 case StoreEntry => 5 case StoreParam => 4
       case LockMutex => 3 case UnlockMutex => 2 case Signal => 1)
    case Returned(_, _, _) => 0
  }

  /** How far the worker of the call's slot is from waiting. */
  function WorkerStage(call: Call, slots: seq<Slot>): nat {
    if !call.Filling? || call.slot >= |slots| then 0
    else
      match slots[call.slot].worker
      case Starting => 3
      case Readying => 2
      case Idle => 1
      case _ => 0
  }

  /** The step that takes the call on: its own, or its slot's worker's if it waits for that one. */
  predicate WaitsForWorker(call: Call, slots: seq<Slot>) {
    && call.Filling? && call.slot < |slots|
    && ((call.phase.Spin? && !slots[call.slot].ready) || (call.phase.LockMutex? && slots[call.slot].mutex != Free))
  }

  lemma CallGoesOn(call: Call, slots: seq<Slot>)
    requires CallOk(call, slots) && SlotsOk(slots) && Hopeful(call, slots) && !call.Returned?
    requires !WaitsForWorker(call, slots)
    ensures var (next, slots') := CallStep(call, slots);
            && Hopeful(next, slots') && next.task == call.task && |slots'| == |slots|
            && |call.seen| <= |next.seen| <= |slots|
            && (|next.seen| > |call.seen| || Stage(next) < Stage(call))
  {
    hide SlotOk, FillOk, Chosen, FirstWon, EndsAllocated, Parked, Threadless, Busy;
    CallStepKeeps(call, slots);
    SizeOfSeen(CallStep(call, slots).0, CallStep(call, slots).1);
  }

  lemma SizeOfSeen(call: Call, slots: seq<Slot>)
    requires CallOk(call, slots)
    ensures |call.seen| <= |slots|
  {
    hide FillOk, Chosen, FirstWon, EndsAllocated, Parked, Threadless, Busy;
  }

  lemma WorkerGoesOn(call: Call, slots: seq<Slot>)
    requires CallOk(call, slots) && SlotsOk(slots) && WaitsForWorker(call, slots)
    ensures var slots' := slots[call.slot := WorkerStep(slots[call.slot])];
            && WorkerStage(call, slots') < WorkerStage(call, slots)
            && !slots[call.slot].worker.Accept? && !slots[call.slot].worker.Assigning?
  {
    hide SeenOk, HistoryOk;
    assert SlotOk(slots[call.slot]);
    assert call.slot in Held(call);
  }

  function NextStep(st: State, c: Caller): Step
    requires c in st.calls
  {
    if WaitsForWorker(st.calls[c], st.slots) then Work(st.calls[c].slot) else Advance(c)
  }

  lemma StepGoesOn(st: State, c: Caller)
    requires Inv(st) && c in st.calls && Hopeful(st.calls[c], st.slots) && !st.calls[c].Returned?
    ensures var call, st' := st.calls[c], Do(st, NextStep(st, c));
            && c in st'.calls && st'.calls[c].task == call.task && Hopeful(st'.calls[c], st'.slots)
            && |call.seen| <= |st'.calls[c].seen| <= |st'.slots| == |st.slots|
            && (|st'.calls[c].seen| > |call.seen| || Stage(st'.calls[c]) < Stage(call)
                || (st'.calls[c] == call && WorkerStage(call, st'.slots) < WorkerStage(call, st.slots)))
  {
    hide *;
    InvIs(st);
    CallIs(st.calls, c, st.slots);
    DoNext(st, c);
    SizeOfSeen(st.calls[c], st.slots);
    if WaitsForWorker(st.calls[c], st.slots) {
      WorkerGoesOn(st.calls[c], st.slots);
      StillHopeful(st.calls[c], st.slots, Do(st, NextStep(st, c)).slots);
    } else {
      CallGoesOn(st.calls[c], st.slots);
    }
  }

  lemma StillHopeful(call: Call, slots: seq<Slot>, slots': seq<Slot>)
    requires WaitsForWorker(call, slots)
    ensures Hopeful(call, slots')
  {
  }

  lemma DoNext(st: State, c: Caller)
    requires c in st.calls && !st.calls[c].Returned?
    ensures var call, st' := st.calls[c], Do(st, NextStep(st, c));
            if WaitsForWorker(call, st.slots) then
              var s := call.slot;
              s < |st.slots| && (!st.slots[s].worker.Accept? && !st.slots[s].worker.Assigning? ==>
                                   st'.calls == st.calls && st'.slots == st.slots[s := WorkerStep(st.slots[s])])
            else
              var (next, slots') := CallStep(call, st.slots);
              st'.calls == st.calls[c := next] && st'.slots == slots'
  {
    hide CallStep, WorkerStep;
  }

  predicate StepsOf(steps: seq<Step>, c: Caller) {
    forall i :: 0 <= i < |steps| ==> steps[i] == Advance(c) || steps[i].Work?
  }

  /** The slot's task has been signalled and nobody has taken it up yet. */
  predicate JustPosted(slot: Slot, task: Task) {
    && slot.locked && slot.worker.Signaled? && slot.mutex == Free
    && slot.entry == Some(task.entry) && slot.uparam == task.uparam
    && slot.history != [] && slot.history[|slot.history| - 1] == Posted(task)
  }

  lemma SignalPosts(st: State, c: Caller)
    requires Inv(st) && c in st.calls && Hopeful(st.calls[c], st.slots) && !st.calls[c].Returned?
    requires var st' := Do(st, NextStep(st, c)); c in st'.calls && st'.calls[c].Returned?
    ensures var call := st.calls[c];
            call.Filling? && call.slot < |st.slots|
            && JustPosted(Do(st, NextStep(st, c)).slots[call.slot], call.task)
  {
    hide *;
    InvIs(st);
    CallIs(st.calls, c, st.slots);
    DoNext(st, c);
    if WaitsForWorker(st.calls[c], st.slots) {
      WorkerGoesOn(st.calls[c], st.slots);
    }
    CallPosts(st.calls[c], st.slots);
  }

  lemma CallPosts(call: Call, slots: seq<Slot>)
    requires CallOk(call, slots) && Hopeful(call, slots) && !call.Returned? && CallStep(call, slots).0.Returned?
    ensures call.Filling? && call.slot < |slots| && JustPosted(CallStep(call, slots).1[call.slot], call.task)
  {
    hide SeenOk, Chosen, FirstWon, EndsAllocated, Parked, Threadless;
    SizeOfSeen(call, slots);
  }

  /** A call that has a slot or will find one gets through. */
  lemma {:induction false} CallAssigns(st: State, c: Caller) returns (more: seq<Step>, s: nat)
    requires Inv(st) && c in st.calls && Hopeful(st.calls[c], st.slots) && !st.calls[c].Returned?
    ensures StepsOf(more, c)
    ensures var end := Run(st, more);
            && Inv(end) && c in end.calls && end.calls[c] == Returned(st.calls[c].task, end.calls[c].seen, true)
            && |end.slots| == |st.slots| && s < |end.slots| && JustPosted(end.slots[s], st.calls[c].task)
    decreases |st.slots| - |st.calls[c].seen|, Stage(st.calls[c]), WorkerStage(st.calls[c], st.slots)
  {
    hide *;
    var step := NextStep(st, c);
    var st' := Do(st, step);
    Invariance(st, step);
    StepGoesOn(st, c);
    NextIs(st, c);
    RunOne(st, step);
    if st'.calls[c].Returned? {
      SignalPosts(st, c);
      more, s := [step], st.calls[c].slot;
      ReturnedHopeful(st'.calls[c], st'.slots);
    } else {
      var rest;
      rest, s := CallAssigns(st', c);
      more := [step] + rest;
      RunOn(st, [step], rest);
      MoreSteps(step, rest, c);
    }
  }

  lemma ReturnedHopeful(call: Call, slots: seq<Slot>)
    requires call.Returned? && Hopeful(call, slots)
    ensures call == Returned(call.task, call.seen, true)
  {
  }

  lemma NextIs(st: State, c: Caller)
    requires c in st.calls
    ensures var step := NextStep(st, c); (step == Advance(c) || step.Work?) && StepsOf([step], c)
    ensures WaitsForWorker(st.calls[c], st.slots) ==> st.calls[c].Filling?
  {
  }

  lemma MoreSteps(step: Step, rest: seq<Step>, c: Caller)
    requires (step == Advance(c) || step.Work?) && StepsOf(rest, c)
    ensures StepsOf([step] + rest, c)
  {
  }

  lemma LaunchIs(st: State, id: nat, task: Task)
    requires Outside(id) !in st.calls && (task.entry == ServerEntry ==> task.uparam !in st.launched)
    ensures var st' := Do(st, Launch(id, task));
            && st'.slots == st.slots && Outside(id) in st'.calls && st'.calls[Outside(id)] == Scan(task, [], None)
            && ((exists s :: 0 <= s < |st.slots| && !st.slots[s].locked) ==> Hopeful(st'.calls[Outside(id)], st'.slots))
  {
  }

  /** From every reachable state with an unlocked slot, a task that is launched can be assigned, by steps of its
      caller and of workers alone: the call succeeds, and a slot has been signalled with the task. */
  lemma FreePoolAssigns(size: nat, steps: seq<Step>, id: nat, task: Task, free: nat)
    returns (more: seq<Step>, s: nat)
    requires var st := Run(Init(size), steps);
             && Outside(id) !in st.calls && (task.entry == ServerEntry ==> task.uparam !in st.launched)
             && free < |st.slots| && !st.slots[free].locked
    ensures StepsOf(more, Outside(id))
    ensures var end := Run(Init(size), steps + [Launch(id, task)] + more);
            && Outside(id) in end.calls && end.calls[Outside(id)].Returned? && end.calls[Outside(id)].ok
            && end.calls[Outside(id)].task == task
            && |end.slots| == size && s < size && JustPosted(end.slots[s], task)
  {
    hide *;
    var st := Run(Init(size), steps);
    EveryRun(size, steps);
    Invariance(st, Launch(id, task));
    LaunchIs(st, id, task);
    SomeFree(st.slots, free);
    more, s := CallAssigns(Do(st, Launch(id, task)), Outside(id));
    RunOne(st, Launch(id, task));
    RunOn(Init(size), steps, [Launch(id, task)]);
    RunOn(Init(size), steps + [Launch(id, task)], more);
  }

  lemma SomeFree(slots: seq<Slot>, free: nat)
    requires free < |slots| && !slots[free].locked
    ensures exists s :: 0 <= s < |slots| && !slots[s].locked
  {
  }

  /** `n` steps of a caller. */
  function Advances(c: Caller, n: nat): seq<Step> {
    if n == 0 then [] else [Advance(c)] + Advances(c, n - 1)
  }

  function Losses(n: nat): seq<Swap> {
    seq(n, i => Lost)
  }

  lemma LosesOne(st: State, c: Caller, task: Task, n: nat)
    requires n < |st.slots| && st.slots[n].locked && c in st.calls && st.calls[c] == Scan(task, Losses(n), None)
    ensures var st' := Do(st, Advance(c));
            st'.slots == st.slots && c in st'.calls && st'.calls[c] == Scan(task, Losses(n + 1), None)
  {
    assert Losses(n) + [Lost] == Losses(n + 1);
  }

  lemma IsRefused(st: State, c: Caller, task: Task)
    requires c in st.calls && st.calls[c] == Scan(task, Losses(|st.slots|), None)
    ensures var st' := Do(st, Advance(c));
            st'.slots == st.slots && c in st'.calls && st'.calls[c] == Returned(task, Losses(|st.slots|), false)
  {
  }

  lemma AdvancesAre(st: State, c: Caller, n: nat)
    requires n > 0
    ensures Run(st, Advances(c, n)) == Run(Do(st, Advance(c)), Advances(c, n - 1))
  {
    hide Do;
    assert Advances(c, n)[1..] == Advances(c, n - 1);
  }

  lemma {:induction false} LosesAll(st: State, c: Caller, task: Task, n: nat)
    requires n <= |st.slots| && (forall s :: 0 <= s < |st.slots| ==> st.slots[s].locked)
    requires c in st.calls && st.calls[c] == Scan(task, Losses(n), None)
    ensures var end := Run(st, Advances(c, |st.slots| - n + 1));
            end.slots == st.slots && c in end.calls && end.calls[c] == Returned(task, Losses(|st.slots|), false)
    decreases |st.slots| - n
  {
    hide *;
    var st' := Do(st, Advance(c));
    AdvancesAre(st, c, |st.slots| - n + 1);
    if n < |st.slots| {
      LosesOne(st, c, task, n);
      LosesAll(st', c, task, n + 1);
    } else {
      IsRefused(st, c, task);
      NoAdvances(c);
      RunsNothing(st');
    }
  }

  lemma NoAdvances(c: Caller)
    ensures Advances(c, 0) == []
  {
  }

  /** From every state whose slots are all locked, a call launched by itself is refused after one swap on each, and
      no slot has changed. */
  lemma FullPoolRefuses(size: nat, steps: seq<Step>, id: nat, task: Task)
    requires var st := Run(Init(size), steps);
             && Outside(id) !in st.calls && (task.entry == ServerEntry ==> task.uparam !in st.launched)
             && forall s :: 0 <= s < |st.slots| ==> st.slots[s].locked
    ensures var st, c := Run(Init(size), steps), Outside(id);
            var end := Run(Init(size), steps + [Launch(id, task)] + Advances(c, size + 1));
            && end.slots == st.slots && c in end.calls && end.calls[c].Returned? && !end.calls[c].ok
            && end.calls[c].task == task
  {
    hide *;
    var st, c := Run(Init(size), steps), Outside(id);
    EveryRun(size, steps);
    LaunchIs(st, id, task);
    NoLosses();
    LosesAll(Do(st, Launch(id, task)), c, task, 0);
    RunOne(st, Launch(id, task));
    RunOn(Init(size), steps, [Launch(id, task)]);
    RunOn(Init(size), steps + [Launch(id, task)], Advances(c, size + 1));
  }

  lemma NoLosses()
    ensures Losses(0) == []
  {
  }

  /** `n` steps of the worker of slot `s`. */
  function Works(s: nat, n: nat): seq<Step> {
    if n == 0 then [] else [Work(s)] + Works(s, n - 1)
  }

  lemma WorksAre(st: State, s: nat, n: nat)
    requires n > 0
    ensures Run(st, Works(s, n)) == Run(Do(st, Work(s)), Works(s, n - 1))
  {
    hide Do;
    assert Works(s, n)[1..] == Works(s, n - 1);
  }

  lemma WorkIs(st: State, s: nat)
    requires s < |st.slots| && !st.slots[s].worker.Accept? && !st.slots[s].worker.Assigning?
    ensures Do(st, Work(s)) == st.(slots := st.slots[s := WorkerStep(st.slots[s])])
  {
    hide WorkerStep;
  }

  /** A system task that was posted is started with the posted parameter, ends, and its slot is unlocked; a server
      task is started and gets to accept for its server. */
  lemma PostedTaskRuns(st: State, s: nat, task: Task)
    requires s < |st.slots| && JustPosted(st.slots[s], task)
    ensures var h := st.slots[s].history;
            if task.entry == SystemEntry then
              var slots := Run(st, Works(s, 4)).slots;
              |slots| == |st.slots| && slots[s].history == h + [Started(task), Over] && !slots[s].locked
            else
              var slots := Run(st, Works(s, 3)).slots;
              && |slots| == |st.slots| && slots[s].history == h + [Started(task)]
              && slots[s].worker == Accept(task.uparam)
  {
    hide *;
    TakesUp(st.slots[s], task);
    var a := Do(st, Work(s));
    WorkIs(st, s);
    var b := Do(a, Work(s));
    WorkIs(a, s);
    var d := Do(b, Work(s));
    WorkIs(b, s);
    NoWorks(s);
    assert st.slots[s].history + [Started(task)] + [Over] == st.slots[s].history + [Started(task), Over];
    if task.entry == SystemEntry {
      WorksAre(st, s, 4);
      WorksAre(a, s, 3);
      WorksAre(b, s, 2);
      WorksAre(d, s, 1);
      WorkIs(d, s);
    } else {
      WorksAre(st, s, 3);
      WorksAre(a, s, 2);
      WorksAre(b, s, 1);
    }
    RunsNothing(Do(d, Work(s)));
    RunsNothing(d);
  }

  lemma RunsNothing(st: State)
    ensures Run(st, []) == st
  {
  }

  lemma NoWorks(s: nat)
    ensures Works(s, 0) == []
  {
  }

  /** The steps of a worker that was signalled. */
  lemma TakesUp(slot: Slot, task: Task)
    requires JustPosted(slot, task)
    ensures var a := WorkerStep(slot);
            var b := WorkerStep(a);
            var d := WorkerStep(b);
            && !slot.worker.Accept? && !slot.worker.Assigning? && !a.worker.Accept? && !a.worker.Assigning?
            && !b.worker.Accept? && !b.worker.Assigning? && a.history == slot.history
            && b.history == slot.history + [Started(task)] && d.history == b.history
            && if task.entry == SystemEntry then
                 var e := WorkerStep(d);
                 && !d.worker.Accept? && !d.worker.Assigning?
                 && e.history == d.history + [Over] && !e.locked
               else d.worker == Accept(task.uparam)
  {
  }

  /** From every reachable state with an unlocked slot, a system task that is launched can be run to its end: it is
      posted, started and over, and the slot it had is unlocked. */
  lemma FreePoolRunsTask(size: nat, steps: seq<Step>, id: nat, task: Task, free: nat)
    returns (more: seq<Step>, s: nat)
    requires var st := Run(Init(size), steps);
             Outside(id) !in st.calls && free < |st.slots| && !st.slots[free].locked
    requires task.entry == SystemEntry
    ensures StepsOf(more, Outside(id))
    ensures var slots := Run(Init(size), steps + [Launch(id, task)] + more).slots;
            && |slots| == size && s < size && !slots[s].locked
            && var h := slots[s].history; |h| >= 3 && h[|h| - 3..] == [Posted(task), Started(task), Over]
  {
    hide *;
    var first;
    first, s := FreePoolAssigns(size, steps, id, task, free);
    var st := Run(Init(size), steps + [Launch(id, task)] + first);
    PostedTaskRuns(st, s, task);
    PostedLast(st.slots[s], task);
    more := first + Works(s, 4);
    WorksAreSteps(first, Outside(id), s, 4);
    RunOn(Init(size), steps + [Launch(id, task)] + first, Works(s, 4));
    assert steps + [Launch(id, task)] + more == steps + [Launch(id, task)] + first + Works(s, 4);
    LastThree(st.slots[s].history, task);
  }

  lemma PostedLast(slot: Slot, task: Task)
    requires JustPosted(slot, task)
    ensures slot.history != [] && slot.history[|slot.history| - 1] == Posted(task)
  {
  }

  lemma LastThree(h: seq<Event>, task: Task)
    requires h != [] && h[|h| - 1] == Posted(task)
    ensures var g := h + [Started(task), Over]; g[|g| - 3..] == [Posted(task), Started(task), Over]
  {
  }

  lemma {:induction false} WorksAreSteps(first: seq<Step>, c: Caller, s: nat, n: nat)
    requires StepsOf(first, c)
    ensures StepsOf(first + Works(s, n), c)
    decreases n
  {
    if n == 0 {
      assert first + Works(s, n) == first;
    } else {
      assert first + Works(s, n) == first + [Work(s)] + Works(s, n - 1);
      WorksAreSteps(first + [Work(s)], c, s, n - 1);
    }
  }

  /** From every reachable state, a worker that is about to accept, while a slot is free, can accept, post the task
      of accepting the next connection to another slot, serve, and end with its slot unlocked. */
  lemma SessionHandsOn(size: nat, steps: seq<Step>, s: nat, srv: nat, free: nat)
    returns (more: seq<Step>, next: nat)
    requires var st := Run(Init(size), steps);
             && s < |st.slots| && st.slots[s].worker == Accept(srv) && free < |st.slots| && !st.slots[free].locked
    ensures StepsOf(more, Inside(s))
    ensures var slots := Run(Init(size), steps + more).slots;
            && |slots| == size && s < size && next < size && next != s
            && JustPosted(slots[next], Task(ServerEntry, srv))
            && !slots[s].locked && slots[s].history != [] && slots[s].history[|slots[s].history| - 1] == Over
  {
    hide *;
    var c, task := Inside(s), Task(ServerEntry, srv);
    var st := Run(Init(size), steps);
    EveryRun(size, steps);
    Invariance(st, Work(s));
    SomeFree(st.slots, free);
    FreeIsNotAccepting(st, s, free);
    AcceptLaunches(st, s, free);
    var st1 := Do(st, Work(s));
    var calling;
    calling, next := CallAssigns(st1, c);
    var st2 := Run(st1, calling);
    InvIs(st2);
    CallerIsAssigning(st2, s, task);
    SignaledIsNotAssigning(st2.slots[next], task);
    SessionEnds(st2, s, srv);
    NextStays(st2, s, next);
    more := [Work(s)] + calling + Works(s, 3);
    RunOne(st, Work(s));
    RunOn(st, [Work(s)], calling);
    RunOn(st, [Work(s)] + calling, Works(s, 3));
    RunOn(Init(size), steps, more);
    MoreSteps(Work(s), calling, c);
    WorksAreSteps([Work(s)] + calling, c, s, 3);
  }

  lemma FreeIsNotAccepting(st: State, s: nat, free: nat)
    requires Inv(st) && s < |st.slots| && st.slots[s].worker.Accept? && free < |st.slots| && !st.slots[free].locked
    ensures s != free
  {
    hide *;
    InvIs(st);
    SlotIs(st.slots, s);
    AcceptingIsLocked(st.slots[s]);
  }

  lemma AcceptingIsLocked(slot: Slot)
    requires SlotOk(slot) && slot.worker.Accept?
    ensures slot.locked
  {
  }

  lemma AcceptLaunches(st: State, s: nat, free: nat)
    requires s < |st.slots| && st.slots[s].worker.Accept? && free < |st.slots| && !st.slots[free].locked && s != free
    ensures var st' := Do(st, Work(s));
            && Inside(s) in st'.calls
            && st'.calls[Inside(s)] == Scan(Task(ServerEntry, st.slots[s].worker.srv), [], None)
            && Hopeful(st'.calls[Inside(s)], st'.slots) && |st'.slots| == |st.slots|
  {
    var slots' := Do(st, Work(s)).slots;
    assert !slots'[free].locked;
  }

  lemma CallerIsAssigning(st: State, s: nat, task: Task)
    requires Inv(st) && Inside(s) in st.calls && st.calls[Inside(s)].task == task && task.entry == ServerEntry
    ensures s < |st.slots| && st.slots[s].worker == Assigning(task.uparam)
  {
    hide SlotsOk, CallsOk, Exclusive, LocksOk, DutiesOk;
  }

  lemma SignaledIsNotAssigning(slot: Slot, task: Task)
    requires JustPosted(slot, task)
    ensures !slot.worker.Assigning?
  {
  }

  /** A session whose call succeeded ends, and its slot is unlocked. */
  lemma SessionEnds(st: State, s: nat, srv: nat)
    requires s < |st.slots| && st.slots[s].worker == Assigning(srv)
    requires Inside(s) in st.calls && st.calls[Inside(s)].Returned? && st.calls[Inside(s)].ok
    ensures var slots := Run(st, Works(s, 3)).slots;
            && |slots| == |st.slots| && !slots[s].locked && slots[s].history == st.slots[s].history + [Over]
  {
    hide *;
    var a := Do(st, Work(s));
    AssigningEnds(st, s);
    var b := Do(a, Work(s));
    ServedReleases(a.slots[s]);
    WorkIs(a, s);
    WorkIs(b, s);
    WorksAre(st, s, 3);
    WorksAre(a, s, 2);
    WorksAre(b, s, 1);
    NoWorks(s);
    RunsNothing(Do(b, Work(s)));
  }

  lemma AssigningEnds(st: State, s: nat)
    requires s < |st.slots| && st.slots[s].worker.Assigning?
    requires Inside(s) in st.calls && st.calls[Inside(s)].Returned?
    ensures Do(st, Work(s)).slots
         == st.slots[s := st.slots[s].(worker := Serve(st.slots[s].worker.srv, st.calls[Inside(s)].ok))]
  {
  }

  lemma ServedReleases(slot: Slot)
    requires slot.worker.Serve? && slot.worker.retInCache
    ensures var a := WorkerStep(slot);
            var b := WorkerStep(a);
            && !a.worker.Accept? && !a.worker.Assigning? && !b.locked && b.history == slot.history + [Over]
  {
  }

  /** A session whose call was refused accepts for its server again. */
  lemma RefusedAcceptsAgain(st: State, s: nat, srv: nat)
    requires s < |st.slots| && st.slots[s].worker == Assigning(srv) && st.slots[s].uparam == srv
    requires Inside(s) in st.calls && st.calls[Inside(s)].Returned? && !st.calls[Inside(s)].ok
    ensures var slots := Run(st, Works(s, 3)).slots;
            |slots| == |st.slots| && slots[s] == st.slots[s].(worker := Accept(srv))
  {
    hide *;
    var a := Do(st, Work(s));
    AssigningEnds(st, s);
    var b := Do(a, Work(s));
    RefusedBegins(a.slots[s]);
    WorkIs(a, s);
    WorkIs(b, s);
    WorksAre(st, s, 3);
    WorksAre(a, s, 2);
    WorksAre(b, s, 1);
    NoWorks(s);
    RunsNothing(Do(b, Work(s)));
  }

  lemma RefusedBegins(slot: Slot)
    requires slot.worker.Serve? && !slot.worker.retInCache
    ensures var a := WorkerStep(slot);
            var b := WorkerStep(a);
            !a.worker.Accept? && !a.worker.Assigning? && b == slot.(worker := Accept(slot.uparam))
  {
  }

  lemma {:induction false} WorkTouchesOne(st: State, s: nat, n: nat, other: nat)
    requires s < |st.slots| && other < |st.slots| && other != s
    ensures |Run(st, Works(s, n)).slots| == |st.slots| && Run(st, Works(s, n)).slots[other] == st.slots[other]
    decreases n
  {
    hide Do;
    if n > 0 {
      WorksAre(st, s, n);
      OneWorkTouchesOne(st, s, other);
      WorkTouchesOne(Do(st, Work(s)), s, n - 1, other);
    }
  }

  lemma OneWorkTouchesOne(st: State, s: nat, other: nat)
    requires s < |st.slots| && other < |st.slots| && other != s
    ensures |Do(st, Work(s)).slots| == |st.slots| && Do(st, Work(s)).slots[other] == st.slots[other]
  {
    hide WorkerStep;
  }

  lemma NextStays(st: State, s: nat, next: nat)
    requires s < |st.slots| && next < |st.slots| && next != s
    ensures |Run(st, Works(s, 3)).slots| == |st.slots| && Run(st, Works(s, 3)).slots[next] == st.slots[next]
  {
    hide *;
    WorkTouchesOne(st, s, 3, next);
  }

  // ---------- What the swaps read ----------

  predicate WasLost(swap: Swap) {
    swap == Lost
  }

  /** Step `k` is the swap of the call on slot `n`; the call has been going on since. */
  ghost predicate SwapAt(size: nat, steps: seq<Step>, c: Caller, n: nat, k: nat, locked: bool) {
    && k < |steps| && steps[k] == Advance(c) && n < size
    && (var st := Run(Init(size), steps[..k]);
        && c in st.calls && st.calls[c].Scan? && |st.calls[c].seen| == n
        && n < |st.slots| && st.slots[n].locked == locked)
    && forall j :: k <= j <= |steps| ==> c in Run(Init(size), steps[..j]).calls
  }

  ghost predicate Explained(size: nat, steps: seq<Step>, c: Caller, n: nat, locked: bool) {
    exists k :: SwapAt(size, steps, c, n, k, locked)
  }

  ghost predicate SwapsExplained(size: nat, steps: seq<Step>, c: Caller) {
    var st := Run(Init(size), steps);
    c in st.calls ==>
      var call := st.calls[c];
      && (forall n :: 0 <= n < |call.seen| ==> Explained(size, steps, c, n, WasLost(call.seen[n])))
      && (call.Check? ==> Explained(size, steps, c, |call.seen|, false))
  }

  /** In every run, the swap of a call on a slot failed if and only if the slot was locked when it was tried. */
  lemma {:induction false} SwapsReadLocks(size: nat, steps: seq<Step>, c: Caller)
    ensures SwapsExplained(size, steps, c)
    decreases |steps|
  {
    hide *;
    if steps == [] {
      NoCallsYet(size, c);
    } else {
      var front, step := steps[..|steps| - 1], steps[|steps| - 1];
      assert steps == front + [step];
      var st := Run(Init(size), front);
      SwapsReadLocks(size, front, c);
      EveryRun(size, front);
      RunOn(Init(size), front, [step]);
      RunOne(st, step);
      if c in Do(st, step).calls {
        StepSwaps(st, step, c);
        ExplainedStill(size, front, step, c);
      } else {
        GoneIsExplained(size, steps, c);
      }
    }
  }

  lemma NoCallsYet(size: nat, c: Caller)
    ensures SwapsExplained(size, [], c)
  {
    assert Run(Init(size), []) == Init(size);
  }

  lemma GoneIsExplained(size: nat, steps: seq<Step>, c: Caller)
    requires c !in Run(Init(size), steps).calls
    ensures SwapsExplained(size, steps, c)
  {
  }

  /** What one step adds to the swaps of a call. */
  ghost predicate OneSwap(st: State, step: Step, c: Caller, next: Call) {
    if c !in st.calls then next.seen == [] && !next.Check?
    else
      var seen, n := st.calls[c].seen, |st.calls[c].seen|;
      || (next.seen == seen && (next.Check? ==>
            st.calls[c].Check? || (step == Advance(c) && st.calls[c].Scan? && n < |st.slots| && !st.slots[n].locked)))
      || (next.seen == seen + [Lost] && !next.Check? && step == Advance(c) && st.calls[c].Scan?
          && n < |st.slots| && st.slots[n].locked)
      || (next.seen != [] && next.seen[|next.seen| - 1] != Lost && next.seen[..|next.seen| - 1] == seen
          && !next.Check? && st.calls[c].Check?)
  }

  lemma StepSwaps(st: State, step: Step, c: Caller)
    requires Inv(st) && c in Do(st, step).calls
    ensures OneSwap(st, step, c, Do(st, step).calls[c])
  {
    hide Inv, PoolOk, LocksOk, DutiesOk;
    match step {
      case Launch(_, _) =>
      case Leave(_) =>
      case Work(s) => if s < |st.slots| { WorkSwaps(st, s, c); }
      case Advance(d) =>
        if d in st.calls && !st.calls[d].Returned? {
          AdvanceIs(st, d);
          CallSwaps(st.calls[d], st.slots);
          hide DoAdvance, CallStep;
        }
    }
  }

  lemma WorkSwaps(st: State, s: nat, c: Caller)
    requires Inv(st) && s < |st.slots| && c in DoWork(st, s).calls
    ensures OneSwap(st, Work(s), c, DoWork(st, s).calls[c])
  {
    hide SlotsOk, CallsOk, Exclusive, LocksOk, DutiesOk, WorkerStep;
  }

  lemma CallSwaps(call: Call, slots: seq<Slot>)
    requires !call.Returned?
    ensures var next, n := CallStep(call, slots).0, |call.seen|;
            || (next.seen == call.seen && (next.Check? ==>
                  call.Check? || (call.Scan? && n < |slots| && !slots[n].locked)))
            || (next.seen == call.seen + [Lost] && !next.Check? && call.Scan? && n < |slots| && slots[n].locked)
            || (next.seen != [] && next.seen[|next.seen| - 1] != Lost && next.seen[..|next.seen| - 1] == call.seen
                && !next.Check? && call.Check?)
  {
    hide FillStep;
    assert (call.seen + [WonAllocated])[..|call.seen|] == call.seen;
    assert (call.seen + [WonEmpty])[..|call.seen|] == call.seen;
  }

  lemma SwapStays(size: nat, front: seq<Step>, step: Step, c: Caller, n: nat, k: nat, locked: bool)
    requires SwapAt(size, front, c, n, k, locked) && c in Run(Init(size), front + [step]).calls
    ensures SwapAt(size, front + [step], c, n, k, locked)
  {
    hide Run, Init;
    var steps := front + [step];
    assert steps[..k] == front[..k] && steps[k] == front[k];
    forall j | k <= j <= |steps| ensures c in Run(Init(size), steps[..j]).calls {
      if j <= |front| {
        assert steps[..j] == front[..j];
      } else {
        assert steps[..j] == steps;
      }
    }
  }

  lemma SwapNow(size: nat, front: seq<Step>, c: Caller)
    requires var st := Run(Init(size), front);
             c in st.calls && st.calls[c].Scan? && |st.calls[c].seen| < |st.slots| == size
    requires c in Run(Init(size), front + [Advance(c)]).calls
    ensures var st := Run(Init(size), front);
            var n := |st.calls[c].seen|;
            SwapAt(size, front + [Advance(c)], c, n, |front|, st.slots[n].locked)
  {
    hide Run, Init;
    var steps := front + [Advance(c)];
    assert steps[..|front|] == front && steps[..|steps|] == steps;
  }

  lemma SwapExplained(size: nat, front: seq<Step>, step: Step, c: Caller, n: nat)
    requires SwapsExplained(size, front, c)
    requires var st, st' := Run(Init(size), front), Run(Init(size), front + [step]);
             c in st'.calls && |st.slots| == size && OneSwap(st, step, c, st'.calls[c]) && n < |st'.calls[c].seen|
    ensures Explained(size, front + [step], c, n, WasLost(Run(Init(size), front + [step]).calls[c].seen[n]))
  {
    hide Run, Init, SwapAt;
    var st, next := Run(Init(size), front), Run(Init(size), front + [step]).calls[c];
    var seen, lost := st.calls[c].seen, WasLost(next.seen[n]);
    if n < |seen| {
      assert next.seen[n] == seen[n];
      var k :| SwapAt(size, front, c, n, k, WasLost(seen[n]));
      SwapStays(size, front, step, c, n, k, lost);
    } else if lost {
      SwapNow(size, front, c);
      assert SwapAt(size, front + [step], c, n, |front|, lost);
    } else {
      var k :| SwapAt(size, front, c, |seen|, k, false);
      SwapStays(size, front, step, c, n, k, lost);
    }
  }

  lemma CheckExplained(size: nat, front: seq<Step>, step: Step, c: Caller)
    requires SwapsExplained(size, front, c)
    requires var st, st' := Run(Init(size), front), Run(Init(size), front + [step]);
             c in st'.calls && |st.slots| == size && OneSwap(st, step, c, st'.calls[c]) && st'.calls[c].Check?
    ensures var n := |Run(Init(size), front + [step]).calls[c].seen|;
            Explained(size, front + [step], c, n, false)
  {
    hide Run, Init, SwapAt;
    var st, next := Run(Init(size), front), Run(Init(size), front + [step]).calls[c];
    if st.calls[c].Check? {
      var k :| SwapAt(size, front, c, |next.seen|, k, false);
      SwapStays(size, front, step, c, |next.seen|, k, false);
    } else {
      SwapNow(size, front, c);
      assert SwapAt(size, front + [step], c, |next.seen|, |front|, false);
    }
  }

  lemma ExplainedStill(size: nat, front: seq<Step>, step: Step, c: Caller)
    requires SwapsExplained(size, front, c)
    requires var st, st' := Run(Init(size), front), Run(Init(size), front + [step]);
             c in st'.calls && |st.slots| == size && OneSwap(st, step, c, st'.calls[c])
    ensures SwapsExplained(size, front + [step], c)
  {
    hide Run, Init, SwapAt, OneSwap;
    var next := Run(Init(size), front + [step]).calls[c];
    var steps := front + [step];
    forall n | 0 <= n < |next.seen| ensures Explained(size, steps, c, n, WasLost(next.seen[n])) {
      SwapExplained(size, front, step, c, n);
    }
    if next.Check? {
      CheckExplained(size, front, step, c);
      assert Explained(size, steps, c, |next.seen|, false);
    }
    assert forall n :: 0 <= n < |next.seen| ==> Explained(size, steps, c, n, WasLost(next.seen[n]));
  }

  /** The scan of `assign_task`: `swaps` are the outcomes of the swaps, `held` the locks this caller has. */
  method ScanSlots(swaps: seq<Swap>) returns (slot: Option<nat>, done: bool, held: set<nat>)
    ensures held == OptionSet(slot)
    ensures done <==> WonAllocated in swaps
    ensures done ==> slot.Some? && slot.value < |swaps| && EndsAllocated(swaps[..slot.value + 1])
    ensures !done ==> slot == FirstWon(swaps)
  {
    slot, done, held := None, false, {};
    var n := 0;
    while !done && n < |swaps|
      invariant 0 <= n <= |swaps| && held == OptionSet(slot)
      invariant done ==> n > 0 && slot == Some(n - 1) && EndsAllocated(swaps[..n])
      invariant !done ==> WonAllocated !in swaps[..n] && slot == FirstWon(swaps[..n])
      invariant slot.Some? ==> slot.value < n
    {
      assert swaps[..n + 1] == swaps[..n] + [swaps[n]];
      FirstWonAppend(swaps[..n], swaps[n]);
      if swaps[n] != Lost {
        held := held + {n};
        if swaps[n] == WonAllocated {
          if slot.Some? {
            held := held - {slot.value};
          }
          slot, done := Some(n), true;
        } else if slot.None? {
          slot := Some(n);
        } else {
          held := held - {n};
        }
      }
      n := n + 1;
    }
    assert swaps[..|swaps|] == swaps;
  }
}
