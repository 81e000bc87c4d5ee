/** Why an upgrade's record is what it is: which call gave it its startup stage, and which took it away. */
module UpgradeCauses {
  import opened Wrappers
  import opened UpgradeModel
  import opened UpgradeTheory

  // ---- where a startup stage comes from ----

  predicate Staged(us: seq<Upgrade>, d: Descriptor) {
    exists i :: 0 <= i < |us| && us[i].descriptor == d && us[i].stage > 0
  }

  predicate StagedItems(items: seq<Item>, d: Descriptor) {
    exists i :: 0 <= i < |items| && items[i].upgrade.descriptor == d && items[i].upgrade.stage > 0
  }

  /** Memory or the store records a stage of the upgrade. */
  predicate Recorded(p: Process, d: Descriptor) {
    (p.Running? && Staged(p.state.pending, d)) || Staged(Stored(DiskOf(p)), d)
  }

  predicate RecordedIn(s: State, d: Descriptor) { Staged(s.pending, d) || Staged(Stored(s.disk), d) }

  lemma {:induction false} SubsetStaged(us: seq<Upgrade>, more: seq<Upgrade>, d: Descriptor)
    requires Staged(us, d) && forall u :: u in us ==> u in more
    ensures Staged(more, d)
  {
    var i :| 0 <= i < |us| && us[i].descriptor == d && us[i].stage > 0;
    assert us[i] in more;
  }

  lemma {:induction false} FlushStaged(s: State, d: Descriptor)
    ensures RecordedIn(Flush(s).0, d) ==> RecordedIn(s, d)
  {
    if Staged(Live(s.pending), d) {
      SubsetStaged(Live(s.pending), s.pending, d);
    }
  }

  lemma {:induction false} RemoveSubset(us: seq<Upgrade>, d: Descriptor)
    ensures forall u :: u in Remove(us, d) <==> u in us && u.descriptor != d
  {
    if us != [] {
      RemoveSubset(us[..|us| - 1], d);
      assert us == us[..|us| - 1] + [us[|us| - 1]];
    }
  }

  lemma {:induction false} EditStaged(s: State, edit: Option<Descriptor>, d: Descriptor)
    ensures RecordedIn(Submit(s, edit).0, d) ==> RecordedIn(s, d)
    ensures RecordedIn(Cancel(s, edit).0, d) ==> RecordedIn(s, d)
  {
    hide Flush, Live;
    if edit.Some? {
      var added := s.(pending := s.pending + [Upgrade(edit.value, INVALID_HEIGHT, 0)]);
      FlushStaged(added, d);
      assert Staged(added.pending, d) ==> Staged(s.pending, d);
      FlushStaged(s, d);
      var removed := s.(pending := Remove(s.pending, edit.value));
      RemoveSubset(s.pending, edit.value);
      FlushStaged(removed, d);
      if Staged(removed.pending, d) {
        SubsetStaged(removed.pending, s.pending, d);
      }
    }
  }

  /** A record of the upgrade that is reached but has no stage, and a handler whose startup stage succeeds. */
  predicate StartupCause(us: seq<Upgrade>, binary: Binary, d: Descriptor) {
    && binary.hasHandler(d) && binary.startupSucceeds(d)
    && exists i :: 0 <= i < |us| && us[i].descriptor == d && us[i].stage == 0 && us[i].height != INVALID_HEIGHT
  }

  lemma {:induction false} StartupLoopStaged(us: seq<Upgrade>, binary: Binary, i: nat, d: Descriptor)
    requires i <= |us|
    ensures Staged(StartupLoop(us, binary, i).0, d) ==> Staged(us, d) || StartupCause(us, binary, d)
    decreases |us| - i
  {
    if i < |us| {
      var u := us[i];
      if u.height == INVALID_HEIGHT || u.stage >= STAGE_STARTUP {
        StartupLoopStaged(us, binary, i + 1, d);
      } else if binary.hasHandler(u.descriptor) && binary.startupSucceeds(u.descriptor) {
        var next := us[i := u.(stage := STAGE_STARTUP)];
        StartupLoopStaged(next, binary, i + 1, d);
        if u.descriptor != d {
          assert Staged(next, d) ==> Staged(us, d);
          assert StartupCause(next, binary, d) ==> StartupCause(us, binary, d);
        }
      }
    }
  }

  /** A record from i on that the block reaches, and that the binary can carry out without a restart. */
  predicate ConsensusCause(items: seq<Item>, binary: Binary, block: Block, d: Descriptor, i: nat) {
    && binary.compatible(d) && binary.hasHandler(d) && !binary.hasStartup(d) && d.epoch <= block.epoch
    && exists k :: i <= k < |items| && items[k].upgrade == Upgrade(d, INVALID_HEIGHT, 0)
  }

  lemma {:induction false} ListedStaged(items: seq<Item>, d: Descriptor)
    ensures Staged(Listed(items), d) ==> StagedItems(items, d)
  {
    if items != [] {
      var front, item := items[..|items| - 1], items[|items| - 1];
      ListedStaged(front, d);
      assert StagedItems(front, d) ==> StagedItems(items, d);
    }
  }

  lemma {:induction false} LoopStaged(
    items: seq<Item>, disk: Disk, stop: bool, binary: Binary, block: Block, i: nat, d: Descriptor)
    requires i <= |items|
    ensures RecordedIn(ConsensusLoop(items, disk, stop, binary, block, i).0, d) ==>
              StagedItems(items, d) || Staged(Stored(disk), d) || ConsensusCause(items, binary, block, d, i)
    decreases |items| - i
  {
    hide Listed, Flush;
    if i == |items| {
      FlushStaged(State(Listed(items), disk, stop), d);
      ListedStaged(items, d);
    } else {
      var u := items[i].upgrade;
      if u.height == INVALID_HEIGHT && block.epoch < u.descriptor.epoch {
        LoopStaged(items, disk, stop, binary, block, i + 1, d);
      } else if u.height == INVALID_HEIGHT {
        var reached := Reached(items, i, block.height);
        ListedStaged(reached, d);
        assert StagedItems(reached, d) ==> StagedItems(items, d);
        var disk' := Write(disk, Listed(reached)).0;
        assert Staged(Stored(disk'), d) ==> StagedItems(items, d) || Staged(Stored(disk), d);
        var started := reached[i := Item(u.(height := block.height, stage := STAGE_STARTUP), reached[i].listed)];
        RestStaged(started, disk', false, binary, block, i, d);
        assert u.descriptor != d && StagedItems(started, d) ==> StagedItems(items, d);
        assert ConsensusCause(started, binary, block, d, i + 1) ==> ConsensusCause(items, binary, block, d, i);
      } else {
        RestStaged(items, disk, stop, binary, block, i, d);
      }
    }
  }

  lemma {:induction false} RestStaged(
    items: seq<Item>, disk: Disk, stop: bool, binary: Binary, block: Block, i: nat, d: Descriptor)
    requires i < |items|
    ensures RecordedIn(Continue(items, disk, stop, binary, block, i).0, d) ==>
              StagedItems(items, d) || Staged(Stored(disk), d) || ConsensusCause(items, binary, block, d, i + 1)
    decreases |items| - i, 0
  {
    hide ConsensusLoop, Listed;
    var (u, r) := Apply(items[i].upgrade, binary, block);
    var items' := items[i := Item(u, items[i].listed)];
    assert StagedItems(items', d) ==> StagedItems(items, d);
    if r == Done {
      LoopStaged(items', disk, stop, binary, block, i + 1, d);
    } else {
      ListedStaged(items', d);
    }
  }

  /**
   * The call gives the upgrade its first stage: a startup call whose handler
   * succeeds, for an upgrade that was reached; or a consensus call at or after
   * the upgrade's epoch, on a compatible binary with a handler that has no
   * startup stage.
   */
  predicate GivesStage(p: Process, op: Op, d: Descriptor) {
    && p.Running?
    && exists i ::
         && 0 <= i < |p.state.pending|
         && p.state.pending[i].descriptor == d && p.state.pending[i].stage == 0
         && (|| (&& op.StartupOp? && p.state.pending[i].height != 0
                 && op.binary.hasHandler(d) && op.binary.startupSucceeds(d))
             || (&& op.ConsensusOp? && p.state.pending[i].height == 0 && d.epoch <= op.block.epoch
                 && op.binary.compatible(d) && op.binary.hasHandler(d) && !op.binary.hasStartup(d)))
  }

  lemma {:induction false} NextStaged(p: Process, op: Op, d: Descriptor)
    requires Recorded(Next(p, op).0, d)
    ensures Recorded(p, d) || GivesStage(p, op, d)
  {
    hide Submit, Cancel, Startup, Consensus, Restart, Flush, Staged;
    match op
    case RestartOp(binary) => RestartStaged(DiskOf(p), binary, d);
    case SubmitOp(edit) => if p.Running? { EditStaged(p.state, edit, d); }
    case CancelOp(edit) => if p.Running? { EditStaged(p.state, edit, d); }
    case StartupOp(binary) => if p.Running? { StartupStaged(p.state, binary, d); }
    case ConsensusOp(binary, block) => if p.Running? { ConsensusStaged(p.state, binary, block, d); }
    case CloseOp => if p.Running? { FlushStaged(p.state, d); }
  }

  lemma {:induction false} RestartStaged(disk: Disk, binary: Binary, d: Descriptor)
    ensures RecordedIn(Restart(disk, binary).0, d) ==> Staged(Stored(disk), d)
  {
    hide Flush, Ready;
    if disk.data.Some? {
      FlushStaged(State(disk.data.value, disk.(calls := disk.calls + 1), false), d);
    }
  }

  lemma {:induction false} StartupStaged(s: State, binary: Binary, d: Descriptor)
    ensures RecordedIn(Startup(s, binary).0, d) ==> RecordedIn(s, d) || GivesStage(Running(s), StartupOp(binary), d)
  {
    hide Flush, StartupLoop;
    StartupLoopStaged(s.pending, binary, 0, d);
    FlushStaged(s.(pending := StartupLoop(s.pending, binary, 0).0), d);
  }

  lemma {:induction false} ConsensusStaged(s: State, binary: Binary, block: Block, d: Descriptor)
    ensures RecordedIn(Consensus(s, binary, block).0, d) ==>
              RecordedIn(s, d) || GivesStage(Running(s), ConsensusOp(binary, block), d)
  {
    hide ConsensusLoop;
    if !s.shouldStop {
      LoopStaged(Items(s.pending), s.disk, s.shouldStop, binary, block, 0, d);
    }
  }

  /**
   * Every stage that memory or the store records at the end of a run was given
   * by a call of the run, for a record that had none.
   */
  lemma {:induction false} StagesHaveCauses(oracle: nat -> bool, ops: seq<Op>, d: Descriptor)
    requires Recorded(Run(Down(Disk(None, 0, oracle)), ops), d)
    ensures var init := Down(Disk(None, 0, oracle));
            exists k ::
              && 0 <= k < |ops|
              && !Recorded(Run(init, ops[..k]), d) && Recorded(Run(init, ops[..k + 1]), d)
              && GivesStage(Run(init, ops[..k]), ops[k], d)
  {
    hide Next, Recorded, GivesStage;
    var init := Down(Disk(None, 0, oracle));
    assert !Recorded(init, d) by { NothingRecorded(oracle, d); }
    assert ops != [];
    var last := |ops| - 1;
    var front := ops[..last];
    assert ops[..last + 1] == ops;
    NextStaged(Run(init, front), ops[last], d);
    if Recorded(Run(init, front), d) {
      StagesHaveCauses(oracle, front, d);
      var k :| 0 <= k < last && !Recorded(Run(init, front[..k]), d) && Recorded(Run(init, front[..k + 1]), d)
               && GivesStage(Run(init, front[..k]), front[k], d);
      assert front[..k] == ops[..k] && front[..k + 1] == ops[..k + 1];
    }
  }

  lemma {:induction false} NothingRecorded(oracle: nat -> bool, d: Descriptor)
    ensures !Recorded(Down(Disk(None, 0, oracle)), d)
  {
  }
}
