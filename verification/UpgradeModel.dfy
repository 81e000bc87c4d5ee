/**
 * The upgrade manager as a state machine over values: the list of pending
 * upgrades in memory, and the copy of it in the persistent store.
 */
module UpgradeModel {
  import opened Wrappers

  type Epoch = nat
  type Height = nat

  datatype Descriptor = Descriptor(v: nat, handler: string, target: nat, epoch: Epoch)

  /** Height zero means that the upgrade epoch has not been reached yet. */
  const INVALID_HEIGHT: Height := 0

  /** Completed stages: none, startup, consensus. */
  const STAGE_STARTUP: nat := 1
  const STAGE_CONSENSUS: nat := 2

  datatype Upgrade = Upgrade(descriptor: Descriptor, height: Height, stage: nat) {
    predicate Completed() { stage >= STAGE_CONSENSUS }
  }

  /** What the running binary is able to do about an upgrade. */
  datatype Binary = Binary(
    compatible: Descriptor -> bool,
    hasHandler: Descriptor -> bool,
    hasStartup: Descriptor -> bool,
    startupSucceeds: Descriptor -> bool,
    consensusSucceeds: Descriptor -> bool)

  datatype Outcome =
    | Done
    | BadDescriptor
    | AlreadyPending
    | UpgradeInProgress
    | StopForUpgrade
    | StoreFailed
    | HandlerFailed
    | Incompatible
    | PanicOutOfOrder
    | PanicFutureHeight

  /** The store fails or succeeds at its n-th operation as the oracle says. */
  datatype Disk = Disk(data: Option<seq<Upgrade>>, calls: nat, oracle: nat -> bool)

  datatype State = State(pending: seq<Upgrade>, disk: Disk, shouldStop: bool)

  function Live(us: seq<Upgrade>): (r: seq<Upgrade>)
    ensures forall u :: u in r <==> u in us && !u.Completed()
  {
    if us == [] then []
    else
      var front, u := Live(us[..|us| - 1]), us[|us| - 1];
      assert forall x :: x in us <==> x in us[..|us| - 1] || x == u by {
        assert us == us[..|us| - 1] + [u];
      }
      if u.Completed() then front else front + [u]
  }

  /** Writing the list, or deleting the key if it is empty; failure changes nothing. */
  function Write(disk: Disk, us: seq<Upgrade>): (Disk, bool) {
    var ok := disk.oracle(disk.calls);
    var data := if !ok then disk.data else if us == [] then None else Some(us);
    (Disk(data, disk.calls + 1, disk.oracle), ok)
  }

  /** Completed upgrades are dropped from memory before the store is written. */
  function Flush(s: State): (State, Outcome) {
    var live := Live(s.pending);
    var (disk, ok) := Write(s.disk, live);
    (State(live, disk, s.shouldStop), if ok then Done else StoreFailed)
  }

  predicate Has(us: seq<Upgrade>, d: Descriptor) {
    exists i :: 0 <= i < |us| && us[i].descriptor == d
  }

  function Submit(s: State, d: Option<Descriptor>): (State, Outcome) {
    if d.None? then (s, BadDescriptor)
    else if Has(s.pending, d.value) then (s, AlreadyPending)
    else Flush(s.(pending := s.pending + [Upgrade(d.value, INVALID_HEIGHT, 0)]))
  }

  function Remove(us: seq<Upgrade>, d: Descriptor): (r: seq<Upgrade>) {
    if us == [] then []
    else
      var front, u := Remove(us[..|us| - 1], d), us[|us| - 1];
      if u.descriptor == d then front else front + [u]
  }

  predicate InProgress(us: seq<Upgrade>, d: Descriptor) {
    exists i :: 0 <= i < |us| && us[i].descriptor == d && (us[i].height != INVALID_HEIGHT || us[i].stage > 0)
  }

  /** If the store cannot be written, the list in memory is restored. */
  function Cancel(s: State, d: Option<Descriptor>): (State, Outcome) {
    if d.None? then (s, BadDescriptor)
    else if s.pending == [] then Flush(s)
    else if InProgress(s.pending, d.value) then (s, UpgradeInProgress)
    else
      var (next, r) := Flush(s.(pending := Remove(s.pending, d.value)));
      if r == Done then (next, r) else (next.(pending := s.pending), r)
  }

  /** The startup stage of every upgrade that has been reached. */
  function StartupLoop(us: seq<Upgrade>, binary: Binary, i: nat): (seq<Upgrade>, bool)
    requires i <= |us|
    decreases |us| - i
  {
    if i == |us| then (us, true)
    else
      var u := us[i];
      if u.height == INVALID_HEIGHT || u.stage >= STAGE_STARTUP then StartupLoop(us, binary, i + 1)
      else if !binary.hasHandler(u.descriptor) || !binary.startupSucceeds(u.descriptor) then (us, false)
      else StartupLoop(us[i := u.(stage := STAGE_STARTUP)], binary, i + 1)
  }

  function Startup(s: State, binary: Binary): (State, Outcome) {
    var (us, ok) := StartupLoop(s.pending, binary, 0);
    if !ok then (s.(pending := us), HandlerFailed) else Flush(s.(pending := us))
  }

  /**
   * An upgrade that the consensus loop walks over, and whether the manager
   * still lists it: flushing in the middle of the loop may have dropped it.
   */
  datatype Item = Item(upgrade: Upgrade, listed: bool)

  function Items(us: seq<Upgrade>): (items: seq<Item>)
    ensures |items| == |us|
  {
    seq(|us|, i requires 0 <= i < |us| => Item(us[i], true))
  }

  function Listed(items: seq<Item>): (us: seq<Upgrade>) {
    if items == [] then []
    else
      var front, item := Listed(items[..|items| - 1]), items[|items| - 1];
      if item.listed then front + [item.upgrade] else front
  }

  function DropCompleted(items: seq<Item>): (r: seq<Item>)
    ensures |r| == |items|
  {
    seq(|items|, i requires 0 <= i < |items| =>
      Item(items[i].upgrade, items[i].listed && !items[i].upgrade.Completed()))
  }

  datatype Block = Block(epoch: Epoch, height: Height, hasContext: bool)

  /** Whether the node must stop before it can apply the upgrade. */
  predicate MustStop(d: Descriptor, binary: Binary) {
    !binary.compatible(d) || !binary.hasHandler(d) || binary.hasStartup(d)
  }

  /** The second half of the loop body, once the upgrade height is set. */
  function Apply(u: Upgrade, binary: Binary, block: Block): (Upgrade, Outcome) {
    if u.height < block.height then
      if u.stage + 1 != STAGE_CONSENSUS then (u, PanicOutOfOrder) else (u.(stage := STAGE_CONSENSUS), Done)
    else if u.height > block.height then (u, PanicFutureHeight)
    else if u.stage < STAGE_CONSENSUS && block.hasContext
         && (!binary.hasHandler(u.descriptor) || !binary.consensusSucceeds(u.descriptor)) then (u, HandlerFailed)
    else (u, Done)
  }

  /** The upgrade's height is recorded, and the flush drops completed upgrades. */
  function Reached(items: seq<Item>, i: nat, height: Height): (r: seq<Item>)
    requires i < |items|
    ensures |r| == |items|
  {
    DropCompleted(items[i := Item(items[i].upgrade.(height := height), items[i].listed)])
  }

  function ConsensusLoop(
    items: seq<Item>, disk: Disk, stop: bool, binary: Binary, block: Block, i: nat): (State, Outcome)
    requires i <= |items|
    decreases |items| - i
  {
    if i == |items| then Flush(State(Listed(items), disk, stop))
    else
      var u := items[i].upgrade;
      if u.height == INVALID_HEIGHT && block.epoch < u.descriptor.epoch then
        ConsensusLoop(items, disk, stop, binary, block, i + 1)
      else if u.height == INVALID_HEIGHT then
        var reached := Reached(items, i, block.height);
        var (disk', ok) := Write(disk, Listed(reached));
        var state := State(Listed(reached), disk', stop);
        if !ok then (state, StoreFailed)
        else if MustStop(u.descriptor, binary) then (state.(shouldStop := true), StopForUpgrade)
        else if u.stage + 1 != STAGE_STARTUP then (state.(shouldStop := false), PanicOutOfOrder)
        else
          var started := u.(height := block.height, stage := STAGE_STARTUP);
          Continue(reached[i := Item(started, reached[i].listed)], disk', false, binary, block, i)
      else
        Continue(items, disk, stop, binary, block, i)
  }

  function Continue(items: seq<Item>, disk: Disk, stop: bool, binary: Binary, block: Block, i: nat): (State, Outcome)
    requires i < |items|
    decreases |items| - i, 0
  {
    var (u, r) := Apply(items[i].upgrade, binary, block);
    var items' := items[i := Item(u, items[i].listed)];
    if r != Done then (State(Listed(items'), disk, stop), r)
    else ConsensusLoop(items', disk, stop, binary, block, i + 1)
  }

  function Consensus(s: State, binary: Binary, block: Block): (State, Outcome) {
    if s.shouldStop then (s, StopForUpgrade)
    else ConsensusLoop(Items(s.pending), s.disk, s.shouldStop, binary, block, 0)
  }

  /** An upgrade that has been reached needs a binary that can carry it out. */
  predicate Ready(u: Upgrade, binary: Binary) {
    u.Completed() || u.height == INVALID_HEIGHT || (binary.compatible(u.descriptor) && binary.hasHandler(u.descriptor))
  }

  /** A new process loads the list from the store; it may refuse to start. */
  function Restart(disk: Disk, binary: Binary): (State, Outcome) {
    var disk' := disk.(calls := disk.calls + 1);
    if !disk.oracle(disk.calls) then (State([], disk', false), StoreFailed)
    else if disk.data.None? then (State([], disk', false), Done)
    else
      var loaded := State(disk.data.value, disk', false);
      if exists i :: 0 <= i < |loaded.pending| && !Ready(loaded.pending[i], binary) then (loaded, Incompatible)
      else Flush(loaded)
  }

  // ---- runs ----

  /** Without a running process only what is on disk matters. */
  datatype Process = Running(state: State) | Down(disk: Disk)

  datatype Op =
    | SubmitOp(d: Option<Descriptor>)
    | CancelOp(d: Option<Descriptor>)
    | StartupOp(binary: Binary)
    | ConsensusOp(binary: Binary, block: Block)
    | RestartOp(binary: Binary)
    | CloseOp

  predicate IsPanic(r: Outcome) { r == PanicOutOfOrder || r == PanicFutureHeight }

  function DiskOf(p: Process): Disk {
    if p.Running? then p.state.disk else p.disk
  }

  function Call(s: State, op: Op): (State, Outcome)
    requires !op.RestartOp?
  {
    match op
    case SubmitOp(d) => Submit(s, d)
    case CancelOp(d) => Cancel(s, d)
    case StartupOp(binary) => Startup(s, binary)
    case ConsensusOp(binary, block) => Consensus(s, binary, block)
    case CloseOp => Flush(s)
  }

  /** A panic ends the process; so does closing, whatever the last flush does. */
  function Next(p: Process, op: Op): (Process, Outcome) {
    if op.RestartOp? then
      var (s, r) := Restart(DiskOf(p), op.binary);
      (if r == Done then Running(s) else Down(s.disk), r)
    else if p.Down? then (p, StopForUpgrade)
    else
      var (s, r) := Call(p.state, op);
      (if IsPanic(r) || op.CloseOp? then Down(s.disk) else Running(s), r)
  }

  function Run(p: Process, ops: seq<Op>): (r: Process) {
    if ops == [] then p else Next(Run(p, ops[..|ops| - 1]), ops[|ops| - 1]).0
  }
}
