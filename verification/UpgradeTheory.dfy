/** What every run of the upgrade manager keeps. */
module UpgradeTheory {
  import opened Wrappers
  import opened UpgradeModel

  predicate DistinctDescriptors(us: seq<Upgrade>) {
    forall i, j :: 0 <= i < j < |us| ==> us[i].descriptor != us[j].descriptor
  }

  /** Its height is in the past, and no stage is done before it is reached. */
  predicate InPast(u: Upgrade, h: Height) {
    u.height <= h && (u.height == INVALID_HEIGHT ==> u.stage == 0)
  }

  predicate Good(us: seq<Upgrade>, h: Height) {
    DistinctDescriptors(us) && forall i :: 0 <= i < |us| ==> InPast(us[i], h)
  }

  /** The store holds a good, non-empty list without completed upgrades. */
  predicate GoodDisk(disk: Disk, h: Height) {
    disk.data.Some? ==>
      && Good(disk.data.value, h) && disk.data.value != []
      && forall i :: 0 <= i < |disk.data.value| ==> !disk.data.value[i].Completed()
  }

  predicate GoodState(s: State, h: Height) {
    Good(s.pending, h) && GoodDisk(s.disk, h)
  }

  /** Memory and store agree, and nothing completed is left in either. */
  predicate Synced(s: State) {
    && s.disk.data == (if s.pending == [] then None else Some(s.pending))
    && forall i :: 0 <= i < |s.pending| ==> !s.pending[i].Completed()
  }

  lemma {:induction false} LiveGood(us: seq<Upgrade>, h: Height)
    requires Good(us, h)
    ensures Good(Live(us), h)
    ensures forall i :: 0 <= i < |Live(us)| ==> !Live(us)[i].Completed()
  {
    if us != [] {
      var front, u := us[..|us| - 1], us[|us| - 1];
      hide InPast;
      LiveGood(front, h);
      var live := Live(front);
      forall i | 0 <= i < |live| ensures live[i].descriptor != u.descriptor {
        assert live[i] in live && live[i] in front;
      }
    }
  }

  lemma {:induction false} RemoveGood(us: seq<Upgrade>, d: Descriptor, h: Height)
    requires Good(us, h)
    ensures Good(Remove(us, d), h)
    ensures forall u :: u in Remove(us, d) <==> u in us && u.descriptor != d
  {
    if us != [] {
      var front, u := us[..|us| - 1], us[|us| - 1];
      RemoveGood(front, d, h);
      assert us == front + [u];
      forall i | 0 <= i < |Remove(front, d)| ensures Remove(front, d)[i].descriptor != u.descriptor {
        assert Remove(front, d)[i] in front;
      }
    }
  }

  /** A successful flush leaves memory and store equal; a failed one keeps the store. */
  lemma {:induction false} FlushMeaning(s: State, h: Height)
    requires GoodState(s, h)
    ensures var (s', r) := Flush(s);
            && GoodState(s', h)
            && s'.shouldStop == s.shouldStop
            && (r == Done ==> Synced(s'))
            && (r != Done ==> r == StoreFailed && s'.disk.data == s.disk.data)
  {
    LiveGood(s.pending, h);
  }

  lemma {:induction false} SubmitGood(s: State, d: Option<Descriptor>, h: Height)
    requires GoodState(s, h)
    ensures var (s', r) := Submit(s, d);
            GoodState(s', h) && (r == Done ==> Synced(s'))
  {
    if d.Some? && !Has(s.pending, d.value) {
      FlushMeaning(s.(pending := s.pending + [Upgrade(d.value, INVALID_HEIGHT, 0)]), h);
    }
  }

  lemma {:induction false} CancelGood(s: State, d: Option<Descriptor>, h: Height)
    requires GoodState(s, h)
    ensures var (s', r) := Cancel(s, d);
            && GoodState(s', h)
            && (r == Done ==> Synced(s'))
            && (r != Done && s.pending != [] ==> s'.pending == s.pending)
  {
    if d.Some? {
      if s.pending == [] {
        FlushMeaning(s, h);
      } else {
        RemoveGood(s.pending, d.value, h);
        FlushMeaning(s.(pending := Remove(s.pending, d.value)), h);
      }
    }
  }

  lemma {:induction false} StartupLoopGood(us: seq<Upgrade>, binary: Binary, i: nat, h: Height)
    requires Good(us, h) && i <= |us|
    ensures var (us', _) := StartupLoop(us, binary, i);
            && Good(us', h) && |us'| == |us|
            && forall k :: 0 <= k < |us| ==> us'[k].descriptor == us[k].descriptor && us'[k].height == us[k].height
    decreases |us| - i
  {
    if i < |us| {
      var u := us[i];
      if u.height == INVALID_HEIGHT || u.stage >= STAGE_STARTUP {
        StartupLoopGood(us, binary, i + 1, h);
      } else if binary.hasHandler(u.descriptor) && binary.startupSucceeds(u.descriptor) {
        StartupLoopGood(us[i := u.(stage := STAGE_STARTUP)], binary, i + 1, h);
      }
    }
  }

  lemma {:induction false} StartupGood(s: State, binary: Binary, h: Height)
    requires GoodState(s, h)
    ensures var (s', r) := Startup(s, binary);
            GoodState(s', h) && (r == Done ==> Synced(s'))
  {
    StartupLoopGood(s.pending, binary, 0, h);
    var (us, ok) := StartupLoop(s.pending, binary, 0);
    if ok {
      FlushMeaning(s.(pending := us), h);
    }
  }

  // ---- the consensus loop ----

  predicate GoodItems(items: seq<Item>, h: Height) {
    && (forall i, j :: 0 <= i < j < |items| ==> items[i].upgrade.descriptor != items[j].upgrade.descriptor)
    && forall i :: 0 <= i < |items| ==> InPast(items[i].upgrade, h)
  }

  lemma {:induction false} ListedGood(items: seq<Item>, h: Height)
    requires GoodItems(items, h)
    ensures Good(Listed(items), h)
    ensures forall u :: u in Listed(items) ==> exists i :: 0 <= i < |items| && items[i].upgrade == u && items[i].listed
  {
    if items != [] {
      var front, item := items[..|items| - 1], items[|items| - 1];
      ListedGood(front, h);
      forall k | 0 <= k < |Listed(front)|
        ensures Listed(front)[k].descriptor != item.upgrade.descriptor
        ensures exists i :: 0 <= i < |items| && items[i].upgrade == Listed(front)[k] && items[i].listed
      {
        assert Listed(front)[k] in Listed(front);
        var i :| 0 <= i < |front| && front[i].upgrade == Listed(front)[k] && front[i].listed;
        assert items[i] == front[i];
      }
      assert items[|items| - 1] == item;
    }
  }

  lemma {:induction false} ListedItems(us: seq<Upgrade>)
    ensures Listed(Items(us)) == us
  {
    if us != [] {
      assert Items(us)[..|us| - 1] == Items(us[..|us| - 1]);
      ListedItems(us[..|us| - 1]);
    }
  }

  /** What is left after dropping completed items is not completed. */
  lemma {:induction false} DroppedLive(items: seq<Item>, h: Height)
    requires GoodItems(items, h)
    ensures GoodItems(DropCompleted(items), h)
    ensures Good(Listed(DropCompleted(items)), h)
    ensures forall u :: u in Listed(DropCompleted(items)) ==> !u.Completed()
  {
    ListedGood(DropCompleted(items), h);
  }

  lemma {:induction false} WriteGood(disk: Disk, us: seq<Upgrade>, h: Height)
    requires GoodDisk(disk, h) && Good(us, h) && forall u :: u in us ==> !u.Completed()
    ensures GoodDisk(Write(disk, us).0, h)
  {
  }

  /** At heights that never decrease, the loop meets no height in the future. */
  lemma {:induction false} ConsensusLoopGood(
    items: seq<Item>, disk: Disk, stop: bool, binary: Binary, block: Block, i: nat)
    requires 0 < block.height && GoodItems(items, block.height) && GoodDisk(disk, block.height) && i <= |items|
    ensures var (s', r) := ConsensusLoop(items, disk, stop, binary, block, i);
            GoodState(s', block.height) && (r == Done ==> Synced(s')) && r != PanicFutureHeight
    decreases |items| - i
  {
    hide GoodDisk, Write, Apply;
    var h := block.height;
    if i == |items| {
      ListedGood(items, h);
      FlushMeaning(State(Listed(items), disk, stop), h);
    } else {
      var u := items[i].upgrade;
      if u.height == INVALID_HEIGHT && block.epoch < u.descriptor.epoch {
        ConsensusLoopGood(items, disk, stop, binary, block, i + 1);
      } else if u.height == INVALID_HEIGHT {
        var changed := items[i := Item(u.(height := h), items[i].listed)];
        DroppedLive(changed, h);
        var reached := DropCompleted(changed);
        WriteGood(disk, Listed(reached), h);
        var (disk', ok) := Write(disk, Listed(reached));
        var started := reached[i := Item(u.(height := h, stage := STAGE_STARTUP), reached[i].listed)];
        ContinueGood(started, disk', false, binary, block, i);
      } else {
        ContinueGood(items, disk, stop, binary, block, i);
      }
    }
  }

  lemma {:induction false} ContinueGood(items: seq<Item>, disk: Disk, stop: bool, binary: Binary, block: Block, i: nat)
    requires 0 < block.height && GoodItems(items, block.height) && GoodDisk(disk, block.height) && i < |items|
    ensures var (s', r) := Continue(items, disk, stop, binary, block, i);
            GoodState(s', block.height) && (r == Done ==> Synced(s')) && r != PanicFutureHeight
    decreases |items| - i, 0
  {
    hide GoodDisk, ConsensusLoop;
    var (u, r) := Apply(items[i].upgrade, binary, block);
    var items' := items[i := Item(u, items[i].listed)];
    if r == Done {
      ConsensusLoopGood(items', disk, stop, binary, block, i + 1);
    } else {
      ListedGood(items', block.height);
    }
  }

  lemma {:induction false} ConsensusGood(s: State, binary: Binary, block: Block, h: Height)
    requires GoodState(s, h) && h <= block.height && 0 < block.height
    ensures var (s', r) := Consensus(s, binary, block);
            GoodState(s', block.height) && (r == Done ==> Synced(s')) && r != PanicFutureHeight
  {
    if !s.shouldStop {
      ConsensusLoopGood(Items(s.pending), s.disk, s.shouldStop, binary, block, 0);
    }
  }

  // ---- runs ----

  predicate GoodProcess(p: Process, h: Height) {
    GoodDisk(DiskOf(p), h) && (p.Running? ==> Good(p.state.pending, h))
  }

  function HeightAfter(op: Op, h: Height): (r: Height) {
    if op.ConsensusOp? then op.block.height else h
  }

  function LastHeight(ops: seq<Op>, h: Height): (r: Height) {
    if ops == [] then h else HeightAfter(ops[|ops| - 1], LastHeight(ops[..|ops| - 1], h))
  }

  /** Blocks have positive heights that never go back. */
  predicate Follows(op: Op, h: Height) {
    op.ConsensusOp? ==> h <= op.block.height && 0 < op.block.height
  }

  predicate Monotone(ops: seq<Op>, h: Height) {
    ops != [] ==> Monotone(ops[..|ops| - 1], h) && Follows(ops[|ops| - 1], LastHeight(ops[..|ops| - 1], h))
  }

  lemma {:induction false} RestartGood(disk: Disk, binary: Binary, h: Height)
    requires GoodDisk(disk, h)
    ensures var (s', r) := Restart(disk, binary);
            GoodState(s', h) && (r == Done ==> Synced(s')) && !IsPanic(r)
  {
    if disk.oracle(disk.calls) && disk.data.Some? {
      FlushMeaning(State(disk.data.value, disk.(calls := disk.calls + 1), false), h);
    }
  }

  /**
   * Every call keeps pending upgrades distinct and their heights in the past,
   * in memory and in the store; a call that returns no error leaves the two
   * equal; and no call finds an upgrade height in the future.
   */
  lemma {:induction false} NextGood(p: Process, op: Op, h: Height)
    requires GoodProcess(p, h) && Follows(op, h)
    ensures var (p', r) := Next(p, op);
            && GoodProcess(p', HeightAfter(op, h))
            && (r == Done && p'.Running? ==> Synced(p'.state))
            && r != PanicFutureHeight
  {
    hide Submit, Cancel, Startup, Consensus, Flush, Restart;
    match op
    case RestartOp(binary) => RestartGood(DiskOf(p), binary, h);
    case SubmitOp(d) => if p.Running? { SubmitGood(p.state, d, h); SubmitOutcome(p.state, d); }
    case CancelOp(d) => if p.Running? { CancelGood(p.state, d, h); CancelOutcome(p.state, d); }
    case StartupOp(binary) => if p.Running? { StartupGood(p.state, binary, h); StartupOutcome(p.state, binary); }
    case ConsensusOp(binary, block) => if p.Running? { ConsensusGood(p.state, binary, block, h); }
    case CloseOp => if p.Running? { FlushMeaning(p.state, h); }
  }

  lemma {:induction false} SubmitOutcome(s: State, d: Option<Descriptor>)
    ensures Submit(s, d).1 in {Done, BadDescriptor, AlreadyPending, StoreFailed}
  {
  }

  lemma {:induction false} CancelOutcome(s: State, d: Option<Descriptor>)
    ensures Cancel(s, d).1 in {Done, BadDescriptor, UpgradeInProgress, StoreFailed}
  {
  }

  lemma {:induction false} StartupOutcome(s: State, binary: Binary)
    ensures Startup(s, binary).1 in {Done, HandlerFailed, StoreFailed}
  {
  }

  lemma {:induction false} RunGood(p: Process, ops: seq<Op>, h: Height)
    requires GoodProcess(p, h) && Monotone(ops, h)
    ensures GoodProcess(Run(p, ops), LastHeight(ops, h))
  {
    if ops != [] {
      RunGood(p, ops[..|ops| - 1], h);
      NextGood(Run(p, ops[..|ops| - 1]), ops[|ops| - 1], LastHeight(ops[..|ops| - 1], h));
    }
  }

  /** After any run from an empty store, the next call behaves. */
  lemma {:induction false} RunSafe(oracle: nat -> bool, ops: seq<Op>, op: Op)
    requires Monotone(ops + [op], 0)
    ensures var p := Run(Down(Disk(None, 0, oracle)), ops);
            var (p', r) := Next(p, op);
            && r != PanicFutureHeight
            && (r == Done && p'.Running? ==> Synced(p'.state))
            && (p'.Running? ==> DistinctDescriptors(p'.state.pending))
            && (DiskOf(p').data.Some? ==> DistinctDescriptors(DiskOf(p').data.value))
  {
    var init := Down(Disk(None, 0, oracle));
    var all := ops + [op];
    assert all[..|all| - 1] == ops;
    RunGood(init, ops, 0);
    NextGood(Run(init, ops), op, LastHeight(ops, 0));
  }

  // ---- stored heights ----

  function Stored(disk: Disk): (us: seq<Upgrade>) {
    if disk.data.Some? then disk.data.value else []
  }

  /** An upgrade reached in one list has the same height wherever it is in the other. */
  predicate Kept(a: seq<Upgrade>, b: seq<Upgrade>) {
    forall i, j ::
      && 0 <= i < |a| && 0 <= j < |b|
      && a[i].height != INVALID_HEIGHT && a[i].descriptor == b[j].descriptor ==>
      b[j].height == a[i].height
  }

  predicate KeptItems(a: seq<Upgrade>, items: seq<Item>) {
    forall i, j ::
      && 0 <= i < |a| && 0 <= j < |items|
      && a[i].height != INVALID_HEIGHT && a[i].descriptor == items[j].upgrade.descriptor ==>
      items[j].upgrade.height == a[i].height
  }

  lemma {:induction false} KeptSelf(us: seq<Upgrade>)
    requires DistinctDescriptors(us)
    ensures Kept(us, us)
  {
    forall i, j | 0 <= i < |us| && 0 <= j < |us| && us[i].descriptor == us[j].descriptor
      ensures i == j
    {
    }
  }

  lemma {:induction false} KeptEmpty(us: seq<Upgrade>)
    ensures Kept(us, [])
  {
  }

  lemma {:induction false} KeptSubset(a: seq<Upgrade>, b: seq<Upgrade>, c: seq<Upgrade>)
    requires Kept(a, b) && forall u :: u in c ==> u in b
    ensures Kept(a, c)
  {
    forall i, j | 0 <= i < |a| && 0 <= j < |c| && a[i].height != INVALID_HEIGHT && a[i].descriptor == c[j].descriptor
      ensures c[j].height == a[i].height
    {
      assert c[j] in b;
    }
  }

  lemma {:induction false} KeptListed(a: seq<Upgrade>, items: seq<Item>, h: Height)
    requires KeptItems(a, items) && GoodItems(items, h)
    ensures Kept(a, Listed(items))
  {
    ListedGood(items, h);
    forall i, j |
      && 0 <= i < |a| && 0 <= j < |Listed(items)|
      && a[i].height != INVALID_HEIGHT && a[i].descriptor == Listed(items)[j].descriptor
      ensures Listed(items)[j].height == a[i].height
    {
      assert Listed(items)[j] in Listed(items);
    }
  }

  lemma {:induction false} ListedKept(items: seq<Item>, h: Height)
    requires GoodItems(items, h)
    ensures KeptItems(Listed(items), items)
  {
    ListedGood(items, h);
    forall i, j |
      && 0 <= i < |Listed(items)| && 0 <= j < |items|
      && Listed(items)[i].descriptor == items[j].upgrade.descriptor
      ensures items[j].upgrade.height == Listed(items)[i].height
    {
      assert Listed(items)[i] in Listed(items);
      var k :| 0 <= k < |items| && items[k].upgrade == Listed(items)[i];
      assert k == j;
    }
  }

  /** Heights recorded in `ref` survive in memory and in the store, and memory agrees with the store. */
  predicate Frozen(ref: seq<Upgrade>, s: State) {
    Kept(ref, s.pending) && Kept(ref, Stored(s.disk)) && Kept(Stored(s.disk), s.pending)
  }

  lemma {:induction false} FlushFrozen(ref: seq<Upgrade>, s: State, h: Height)
    requires GoodState(s, h) && Frozen(ref, s)
    ensures Frozen(ref, Flush(s).0)
  {
    var live := Live(s.pending);
    LiveGood(s.pending, h);
    KeptSubset(ref, s.pending, live);
    KeptSubset(Stored(s.disk), s.pending, live);
    KeptSelf(live);
  }

  predicate FrozenItems(ref: seq<Upgrade>, items: seq<Item>, disk: Disk) {
    KeptItems(ref, items) && Kept(ref, Stored(disk)) && KeptItems(Stored(disk), items)
  }

  lemma {:induction false} WriteFrozen(ref: seq<Upgrade>, items: seq<Item>, disk: Disk, h: Height)
    requires GoodItems(items, h) && FrozenItems(ref, items, disk)
    ensures FrozenItems(ref, items, Write(disk, Listed(items)).0)
  {
    KeptListed(ref, items, h);
    ListedKept(items, h);
  }

  lemma {:induction false} ListedFrozen(ref: seq<Upgrade>, items: seq<Item>, disk: Disk, stop: bool, h: Height)
    requires GoodItems(items, h) && FrozenItems(ref, items, disk)
    ensures Frozen(ref, State(Listed(items), disk, stop))
  {
    KeptListed(ref, items, h);
    KeptListed(Stored(disk), items, h);
  }

  lemma {:induction false} ReachedFrozen(ref: seq<Upgrade>, items: seq<Item>, disk: Disk, i: nat, h: Height)
    requires 0 < h && GoodItems(items, h) && GoodDisk(disk, h) && FrozenItems(ref, items, disk)
    requires i < |items| && items[i].upgrade.height == INVALID_HEIGHT
    ensures var reached := Reached(items, i, h);
            var disk' := Write(disk, Listed(reached)).0;
            GoodItems(reached, h) && GoodDisk(disk', h) && FrozenItems(ref, reached, disk')
  {
    hide GoodDisk, Write, Listed;
    var changed := items[i := Item(items[i].upgrade.(height := h), items[i].listed)];
    DroppedLive(changed, h);
    var reached := DropCompleted(changed);
    WriteGood(disk, Listed(reached), h);
    WriteFrozen(ref, reached, disk, h);
  }

  lemma {:induction false} ConsensusLoopFrozen(
    ref: seq<Upgrade>, items: seq<Item>, disk: Disk, stop: bool, binary: Binary, block: Block, i: nat)
    requires 0 < block.height && GoodItems(items, block.height) && GoodDisk(disk, block.height) && i <= |items|
    requires FrozenItems(ref, items, disk)
    ensures Frozen(ref, ConsensusLoop(items, disk, stop, binary, block, i).0)
    decreases |items| - i
  {
    hide GoodDisk, Write, Apply, Frozen;
    var h := block.height;
    if i == |items| {
      ListedGood(items, h);
      ListedFrozen(ref, items, disk, stop, h);
      FlushFrozen(ref, State(Listed(items), disk, stop), h);
    } else {
      var u := items[i].upgrade;
      if u.height == INVALID_HEIGHT && block.epoch < u.descriptor.epoch {
        ConsensusLoopFrozen(ref, items, disk, stop, binary, block, i + 1);
      } else if u.height == INVALID_HEIGHT {
        ReachedFrozen(ref, items, disk, i, h);
        var reached := Reached(items, i, h);
        var (disk', ok) := Write(disk, Listed(reached));
        ListedFrozen(ref, reached, disk', stop, h);
        ListedFrozen(ref, reached, disk', true, h);
        ListedFrozen(ref, reached, disk', false, h);
        var started := reached[i := Item(u.(height := h, stage := STAGE_STARTUP), reached[i].listed)];
        ContinueFrozen(ref, started, disk', false, binary, block, i);
      } else {
        ContinueFrozen(ref, items, disk, stop, binary, block, i);
      }
    }
  }

  lemma {:induction false} ContinueFrozen(
    ref: seq<Upgrade>, items: seq<Item>, disk: Disk, stop: bool, binary: Binary, block: Block, i: nat)
    requires 0 < block.height && GoodItems(items, block.height) && GoodDisk(disk, block.height) && i < |items|
    requires FrozenItems(ref, items, disk)
    ensures Frozen(ref, Continue(items, disk, stop, binary, block, i).0)
    decreases |items| - i, 0
  {
    hide GoodDisk, ConsensusLoop, Frozen;
    var (u, r) := Apply(items[i].upgrade, binary, block);
    var items' := items[i := Item(u, items[i].listed)];
    if r == Done {
      ConsensusLoopFrozen(ref, items', disk, stop, binary, block, i + 1);
    } else {
      ListedFrozen(ref, items', disk, stop, block.height);
    }
  }

  // ---- heights over whole runs ----

  /** Submitting a descriptor that is no longer in memory although the store holds it as reached. */
  predicate Resubmits(p: Process, op: Op) {
    && op.SubmitOp? && op.d.Some? && p.Running?
    && !Has(p.state.pending, op.d.value)
    && exists i :: 0 <= i < |Stored(p.state.disk)| && Stored(p.state.disk)[i].descriptor == op.d.value
                   && Stored(p.state.disk)[i].height != INVALID_HEIGHT
  }

  predicate Compatible(p: Process) {
    p.Running? ==> Kept(Stored(p.state.disk), p.state.pending)
  }

  lemma {:induction false} SubmitFrozen(s: State, d: Option<Descriptor>, h: Height)
    requires GoodState(s, h) && Kept(Stored(s.disk), s.pending) && !Resubmits(Running(s), SubmitOp(d))
    ensures Frozen(Stored(s.disk), Submit(s, d).0)
  {
    if d.Some? && !Has(s.pending, d.value) {
      var s' := s.(pending := s.pending + [Upgrade(d.value, INVALID_HEIGHT, 0)]);
      assert Kept(Stored(s.disk), s'.pending);
      KeptSelf(Stored(s.disk));
      FlushFrozen(Stored(s.disk), s', h);
    } else {
      KeptSelf(Stored(s.disk));
    }
  }

  lemma {:induction false} CancelFrozen(s: State, d: Option<Descriptor>, h: Height)
    requires GoodState(s, h) && Kept(Stored(s.disk), s.pending)
    ensures Frozen(Stored(s.disk), Cancel(s, d).0)
  {
    KeptSelf(Stored(s.disk));
    if d.Some? && s.pending == [] {
      FlushFrozen(Stored(s.disk), s, h);
    } else if d.Some? {
      var s' := s.(pending := Remove(s.pending, d.value));
      RemoveGood(s.pending, d.value, h);
      KeptSubset(Stored(s.disk), s.pending, s'.pending);
      FlushFrozen(Stored(s.disk), s', h);
      FlushMeaning(s', h);
    }
  }

  lemma {:induction false} StartupFrozen(s: State, binary: Binary, h: Height)
    requires GoodState(s, h) && Kept(Stored(s.disk), s.pending)
    ensures Frozen(Stored(s.disk), Startup(s, binary).0)
  {
    KeptSelf(Stored(s.disk));
    StartupLoopGood(s.pending, binary, 0, h);
    var (us, ok) := StartupLoop(s.pending, binary, 0);
    assert Kept(Stored(s.disk), us);
    if ok {
      FlushFrozen(Stored(s.disk), s.(pending := us), h);
    }
  }

  lemma {:induction false} ConsensusFrozen(s: State, binary: Binary, block: Block, h: Height)
    requires GoodState(s, h) && Kept(Stored(s.disk), s.pending) && h <= block.height && 0 < block.height
    ensures Frozen(Stored(s.disk), Consensus(s, binary, block).0)
  {
    KeptSelf(Stored(s.disk));
    if !s.shouldStop {
      ConsensusLoopFrozen(Stored(s.disk), Items(s.pending), s.disk, s.shouldStop, binary, block, 0);
    }
  }

  lemma {:induction false} RestartFrozen(disk: Disk, binary: Binary, h: Height)
    requires GoodDisk(disk, h)
    ensures Frozen(Stored(disk), Restart(disk, binary).0)
  {
    hide Kept, Flush, Ready;
    KeptSelf(Stored(disk));
    KeptEmpty(Stored(disk));
    if disk.oracle(disk.calls) && disk.data.Some? {
      FlushFrozen(Stored(disk), State(disk.data.value, disk.(calls := disk.calls + 1), false), h);
    }
  }

  /** Whatever the store does, a height once stored stays, unless such a descriptor is submitted. */
  lemma {:induction false} NextFrozen(p: Process, op: Op, h: Height)
    requires GoodProcess(p, h) && Follows(op, h) && Compatible(p) && !Resubmits(p, op)
    ensures var (p', _) := Next(p, op);
            Compatible(p') && Kept(Stored(DiskOf(p)), Stored(DiskOf(p')))
  {
    hide Submit, Cancel, Startup, Consensus, Flush, Restart;
    KeptSelf(Stored(DiskOf(p)));
    match op
    case RestartOp(binary) => RestartFrozen(DiskOf(p), binary, h);
    case SubmitOp(d) => if p.Running? { SubmitFrozen(p.state, d, h); }
    case CancelOp(d) => if p.Running? { CancelFrozen(p.state, d, h); }
    case StartupOp(binary) => if p.Running? { StartupFrozen(p.state, binary, h); }
    case ConsensusOp(binary, block) => if p.Running? { ConsensusFrozen(p.state, binary, block, h); }
    case CloseOp => if p.Running? { FlushFrozen(Stored(p.state.disk), p.state, h); }
  }

  /** Submitting such a descriptor loses its height as soon as the store accepts a write. */
  lemma {:induction false} ResubmissionLosesHeight(p: Process, op: Op, h: Height)
    requires GoodProcess(p, h) && Compatible(p) && op.SubmitOp?
    ensures Kept(Stored(DiskOf(p)), Stored(DiskOf(Next(p, op).0))) <==>
            !(Resubmits(p, op) && p.state.disk.oracle(p.state.disk.calls))
  {
    if !Resubmits(p, op) {
      NextFrozen(p, op, h);
    } else {
      SubmitLoses(p.state, op.d.value);
    }
  }

  lemma {:induction false} SubmitLoses(s: State, d: Descriptor)
    requires !Has(s.pending, d) && DistinctDescriptors(Stored(s.disk))
    requires exists i ::
               && 0 <= i < |Stored(s.disk)|
               && Stored(s.disk)[i].descriptor == d && Stored(s.disk)[i].height != INVALID_HEIGHT
    ensures Kept(Stored(s.disk), Stored(Submit(s, Some(d)).0.disk)) <==> !s.disk.oracle(s.disk.calls)
  {
    hide Kept;
    KeptSelf(Stored(s.disk));
    var us := s.pending + [Upgrade(d, INVALID_HEIGHT, 0)];
    assert us[|s.pending|] in us;
    LosesHeight(Stored(s.disk), Live(us), d);
  }

  lemma {:induction false} LosesHeight(a: seq<Upgrade>, b: seq<Upgrade>, d: Descriptor)
    requires exists i :: 0 <= i < |a| && a[i].descriptor == d && a[i].height != INVALID_HEIGHT
    requires Upgrade(d, INVALID_HEIGHT, 0) in b
    ensures !Kept(a, b)
  {
    var i :| 0 <= i < |a| && a[i].descriptor == d && a[i].height != INVALID_HEIGHT;
    var j :| 0 <= j < |b| && b[j] == Upgrade(d, INVALID_HEIGHT, 0);
  }

  predicate NoResubmission(p: Process, ops: seq<Op>) {
    ops != [] ==> NoResubmission(p, ops[..|ops| - 1]) && !Resubmits(Run(p, ops[..|ops| - 1]), ops[|ops| - 1])
  }

  lemma {:induction false} RunCompatible(p: Process, ops: seq<Op>, h: Height)
    requires GoodProcess(p, h) && Compatible(p) && Monotone(ops, h) && NoResubmission(p, ops)
    ensures Compatible(Run(p, ops))
  {
    if ops != [] {
      var front := ops[..|ops| - 1];
      RunGood(p, front, h);
      RunCompatible(p, front, h);
      NextFrozen(Run(p, front), ops[|ops| - 1], LastHeight(front, h));
    }
  }

  /**
   * Exactly when a height is lost: as long as no such descriptor has been
   * submitted, a call keeps the stored heights if and only if it is not the
   * first such submission, or the store refuses its write.
   */
  lemma {:induction false} StoredHeightsExactly(oracle: nat -> bool, ops: seq<Op>, op: Op)
    requires var init := Down(Disk(None, 0, oracle)); Monotone(ops + [op], 0) && NoResubmission(init, ops)
    ensures var p := Run(Down(Disk(None, 0, oracle)), ops);
            Kept(Stored(DiskOf(p)), Stored(DiskOf(Next(p, op).0))) <==>
            !(Resubmits(p, op) && p.state.disk.oracle(p.state.disk.calls))
  {
    hide Kept, Next, Resubmits;
    var init := Down(Disk(None, 0, oracle));
    var all := ops + [op];
    assert all[..|all| - 1] == ops;
    RunGood(init, ops, 0);
    InitCompatible(oracle);
    RunCompatible(init, ops, 0);
    var p := Run(init, ops);
    if op.SubmitOp? {
      ResubmissionLosesHeight(p, op, LastHeight(ops, 0));
    } else {
      OnlySubmits(p, op);
      NextFrozen(p, op, LastHeight(ops, 0));
    }
  }

  lemma {:induction false} InitCompatible(oracle: nat -> bool)
    ensures GoodProcess(Down(Disk(None, 0, oracle)), 0) && Compatible(Down(Disk(None, 0, oracle)))
  {
  }

  lemma {:induction false} OnlySubmits(p: Process, op: Op)
    ensures Resubmits(p, op) ==> op.SubmitOp?
  {
  }

  /** In a run without such submissions no call ever changes the height of a stored upgrade. */
  lemma {:induction false} StoredHeightsNeverChange(oracle: nat -> bool, ops: seq<Op>, op: Op)
    requires var init := Down(Disk(None, 0, oracle)); Monotone(ops + [op], 0) && NoResubmission(init, ops + [op])
    ensures var p := Run(Down(Disk(None, 0, oracle)), ops);
            Kept(Stored(DiskOf(p)), Stored(DiskOf(Next(p, op).0)))
  {
    var all := ops + [op];
    assert all[..|all| - 1] == ops;
    StoredHeightsExactly(oracle, ops, op);
  }
}
