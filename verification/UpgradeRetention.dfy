/** Which calls are refused, and that an accepted upgrade is only ever lost by cancelling or completing it. */
module UpgradeRetention {
  import opened Wrappers
  import opened UpgradeModel
  import opened UpgradeTheory
  import opened UpgradeCauses

  // ---- calls that are refused ----

  /** Submitting is refused exactly if the upgrade is pending; otherwise exactly a fresh record is added. */
  lemma {:induction false} SubmitExactly(s: State, d: Descriptor)
    ensures var (s', r) := Submit(s, Some(d));
            && (r == AlreadyPending <==> exists u :: u in s.pending && u.descriptor == d)
            && (r == AlreadyPending ==> s' == s)
            && (r != AlreadyPending ==>
                && (r == Done <==> s.disk.oracle(s.disk.calls))
                && forall u :: u in s'.pending <==> (u in s.pending && u.stage < 2) || u == Upgrade(d, 0, 0))
  {
    assert Has(s.pending, d) <==> exists u :: u in s.pending && u.descriptor == d;
  }

  /**
   * Cancelling is refused exactly if the upgrade has been reached or has a
   * stage, and then nothing changes; otherwise exactly its record goes, if the
   * store can be written.
   */
  lemma {:induction false} CancelExactly(s: State, d: Descriptor)
    ensures var (s', r) := Cancel(s, Some(d));
            && (r == UpgradeInProgress <==>
                exists u :: u in s.pending && u.descriptor == d && (u.height != 0 || u.stage > 0))
            && (r == UpgradeInProgress ==> s' == s)
            && (r == StoreFailed && s.pending != [] ==> s'.pending == s.pending && s'.disk.data == s.disk.data)
            && (r == Done ==> forall u :: u in s'.pending <==> u in s.pending && u.descriptor != d && u.stage < 2)
  {
    RemoveSubset(s.pending, d);
  }

  lemma {:induction false} StartupLoopExactly(us: seq<Upgrade>, binary: Binary, i: nat)
    requires i <= |us|
    ensures var (us', ok) := StartupLoop(us, binary, i);
            && |us'| == |us|
            && (ok <==> forall k :: i <= k < |us| && us[k].height != 0 && us[k].stage == 0 ==>
                          binary.hasHandler(us[k].descriptor) && binary.startupSucceeds(us[k].descriptor))
            && (forall k :: 0 <= k < i ==> us'[k] == us[k])
            && (ok ==> forall k :: i <= k < |us| ==>
                         us'[k] == us[k].(stage := if us[k].height != 0 && us[k].stage == 0 then 1 else us[k].stage))
    decreases |us| - i
  {
    if i < |us| {
      var u := us[i];
      if u.height == INVALID_HEIGHT || u.stage >= STAGE_STARTUP {
        StartupLoopExactly(us, binary, i + 1);
      } else if binary.hasHandler(u.descriptor) && binary.startupSucceeds(u.descriptor) {
        var next := us[i := u.(stage := STAGE_STARTUP)];
        assert forall k :: i < k < |us| ==> next[k] == us[k];
        StartupLoopExactly(next, binary, i + 1);
      }
    }
  }

  /**
   * The startup call fails exactly if some reached upgrade without a stage
   * lacks a handler or its handler fails; if it succeeds, exactly those
   * upgrades have moved to the startup stage.
   */
  lemma {:induction false} StartupExactly(s: State, binary: Binary)
    ensures var (s', r) := Startup(s, binary);
            && (r == HandlerFailed <==>
                exists u :: && u in s.pending && u.height != 0 && u.stage == 0
                            && !(binary.hasHandler(u.descriptor) && binary.startupSucceeds(u.descriptor)))
            && (r == Done ==>
                forall u :: u in s.pending && u.stage < 2 ==>
                  u.(stage := if u.height != 0 then 1 else u.stage) in s'.pending)
  {
    hide Live, StartupLoop;
    StartupLoopExactly(s.pending, binary, 0);
    var (us, ok) := StartupLoop(s.pending, binary, 0);
    forall u | u in s.pending && u.stage < 2 && ok
      ensures u.(stage := if u.height != 0 then 1 else u.stage) in Live(us)
    {
      var k :| 0 <= k < |s.pending| && s.pending[k] == u;
      assert us[k] in us;
    }
  }

  lemma {:induction false} AllLive(us: seq<Upgrade>)
    requires forall i :: 0 <= i < |us| ==> !us[i].Completed()
    ensures Live(us) == us
  {
    AllLiveTo(us, |us|);
    assert us[..|us|] == us;
  }

  lemma {:induction false} AllLiveTo(us: seq<Upgrade>, n: nat)
    requires n <= |us| && forall i :: 0 <= i < |us| ==> !us[i].Completed()
    ensures Live(us[..n]) == us[..n]
    decreases n
  {
    if n > 0 {
      AllLiveTo(us, n - 1);
      LiveLast(us[..n - 1], us[n - 1]);
      assert us[..n - 1] + [us[n - 1]] == us[..n];
    }
  }

  lemma {:induction false} LiveLast(us: seq<Upgrade>, u: Upgrade)
    requires !u.Completed()
    ensures Live(us + [u]) == Live(us) + [u]
  {
    assert (us + [u])[..|us|] == us;
  }

  /**
   * A new process refuses to start exactly if the store lists an upgrade that
   * has been reached and that the binary cannot carry out; a process that
   * starts has exactly the stored upgrades in memory.
   */
  lemma {:induction false} RestartExactly(disk: Disk, binary: Binary, h: Height)
    requires GoodDisk(disk, h)
    ensures var (s', r) := Restart(disk, binary);
            && (r == Incompatible <==>
                && disk.oracle(disk.calls)
                && exists u :: && u in Stored(disk) && u.height != 0
                               && !(binary.compatible(u.descriptor) && binary.hasHandler(u.descriptor)))
            && (r == Done ==> s'.pending == Stored(disk) && s'.disk.data == disk.data && !s'.shouldStop)
            && (r == StoreFailed ==> !disk.oracle(disk.calls) || !disk.oracle(disk.calls + 1))
  {
    hide Live;
    AllLive(Stored(disk));
  }

  // ---- accepted upgrades are kept ----

  predicate HasLive(us: seq<Upgrade>, d: Descriptor) {
    exists i :: 0 <= i < |us| && us[i].descriptor == d && !us[i].Completed()
  }

  /** The store has the upgrade, and so has memory if there is a process. */
  predicate Keeps(p: Process, d: Descriptor) {
    HasLive(Stored(DiskOf(p)), d) && (p.Running? ==> HasLive(p.state.pending, d))
  }

  /**
   * The call is a successful cancellation before the upgrade is reached, or a
   * consensus call past the upgrade's height, after its startup stage.
   */
  predicate Ends(p: Process, op: Op, d: Descriptor) {
    && p.Running?
    && (|| (&& op == CancelOp(Some(d)) && Next(p, op).1 == Done
            && forall u :: u in p.state.pending && u.descriptor == d ==> u.height == 0 && u.stage == 0)
        || (&& op.ConsensusOp?
            && exists u :: && u in p.state.pending && u.descriptor == d && u.stage == 1
                           && 0 < u.height < op.block.height))
  }

  predicate KeepsIn(s: State, d: Descriptor) { HasLive(s.pending, d) && HasLive(Stored(s.disk), d) }

  lemma {:induction false} SubsetLive(us: seq<Upgrade>, more: seq<Upgrade>, d: Descriptor)
    requires HasLive(us, d) && forall u :: u in us && u.descriptor == d && !u.Completed() ==> u in more
    ensures HasLive(more, d)
  {
    var i :| 0 <= i < |us| && us[i].descriptor == d && !us[i].Completed();
    assert us[i] in more;
  }

  lemma {:induction false} FlushKeeps(s: State, d: Descriptor)
    requires HasLive(s.pending, d)
    ensures HasLive(Flush(s).0.pending, d)
    ensures HasLive(Stored(s.disk), d) || Flush(s).1 == Done ==> HasLive(Stored(Flush(s).0.disk), d)
  {
    SubsetLive(s.pending, Live(s.pending), d);
  }

  lemma {:induction false} SubmitKeeps(s: State, edit: Option<Descriptor>, d: Descriptor)
    requires KeepsIn(s, d)
    ensures KeepsIn(Submit(s, edit).0, d)
  {
    hide Flush, HasLive;
    if edit.Some? {
      var added := s.(pending := s.pending + [Upgrade(edit.value, INVALID_HEIGHT, 0)]);
      SubsetLive(s.pending, added.pending, d);
      FlushKeeps(added, d);
    }
  }

  lemma {:induction false} CancelKeeps(s: State, edit: Option<Descriptor>, d: Descriptor)
    requires KeepsIn(s, d)
    ensures KeepsIn(Cancel(s, edit).0, d) || Ends(Running(s), CancelOp(edit), d)
  {
    hide Flush, HasLive;
    if edit.Some? {
      var removed := s.(pending := Remove(s.pending, edit.value));
      RemoveSubset(s.pending, edit.value);
      if edit.value != d {
        SubsetLive(s.pending, removed.pending, d);
        FlushKeeps(removed, d);
      } else {
        CancelExactly(s, d);
        FailedFlush(removed);
      }
      assert s.pending != [] by { SomeLive(s.pending, d); }
    }
  }

  lemma {:induction false} SomeLive(us: seq<Upgrade>, d: Descriptor)
    requires HasLive(us, d)
    ensures us != []
  {
  }

  lemma {:induction false} FailedFlush(s: State)
    ensures Flush(s).1 == Done || Flush(s).0.disk.data == s.disk.data
  {
  }

  lemma {:induction false} StartupKeeps(s: State, binary: Binary, d: Descriptor)
    requires KeepsIn(s, d)
    ensures KeepsIn(Startup(s, binary).0, d)
  {
    hide Flush, StartupLoop;
    var us := StartupLoop(s.pending, binary, 0).0;
    StartupLoopKeeps(s.pending, binary, 0, d);
    FlushKeeps(s.(pending := us), d);
  }

  lemma {:induction false} StartupLoopKeeps(us: seq<Upgrade>, binary: Binary, i: nat, d: Descriptor)
    requires i <= |us| && HasLive(us, d)
    ensures HasLive(StartupLoop(us, binary, i).0, d)
    decreases |us| - i
  {
    if i < |us| {
      var u := us[i];
      if u.height == INVALID_HEIGHT || u.stage >= STAGE_STARTUP {
        StartupLoopKeeps(us, binary, i + 1, d);
      } else if binary.hasHandler(u.descriptor) && binary.startupSucceeds(u.descriptor) {
        var next := us[i := u.(stage := STAGE_STARTUP)];
        var k :| 0 <= k < |us| && us[k].descriptor == d && !us[k].Completed();
        assert next[k].descriptor == d && !next[k].Completed();
        StartupLoopKeeps(next, binary, i + 1, d);
      }
    }
  }

  /** Item k is listed, is the upgrade's, and is not completed. */
  predicate Lists(items: seq<Item>, k: nat, d: Descriptor) {
    k < |items| && items[k].listed && items[k].upgrade.descriptor == d && !items[k].upgrade.Completed()
  }

  lemma {:induction false} ListedKeeps(items: seq<Item>, k: nat, d: Descriptor)
    requires Lists(items, k, d)
    ensures HasLive(Listed(items), d)
  {
    var front, item := items[..|items| - 1], items[|items| - 1];
    if k < |items| - 1 {
      ListedKeeps(front, k, d);
      SubsetLive(Listed(front), Listed(items), d);
    } else {
      assert Listed(items)[|Listed(items)| - 1] == item.upgrade;
    }
  }

  /** The loop is still to come to item k, and the block completes it. */
  predicate Completes(items: seq<Item>, block: Block, i: nat, k: nat)
    requires k < |items|
  {
    i <= k && items[k].upgrade.stage == 1 && 0 < items[k].upgrade.height < block.height
  }

  lemma {:induction false} LoopKeeps(
    items: seq<Item>, disk: Disk, stop: bool, binary: Binary, block: Block, i: nat, k: nat, d: Descriptor)
    requires i <= |items| && Lists(items, k, d) && HasLive(Stored(disk), d) && !Completes(items, block, i, k)
    ensures KeepsIn(ConsensusLoop(items, disk, stop, binary, block, i).0, d)
    decreases |items| - i
  {
    hide Listed, HasLive, Flush;
    ListedKeeps(items, k, d);
    if i == |items| {
      FlushKeeps(State(Listed(items), disk, stop), d);
    } else {
      var u := items[i].upgrade;
      if u.height == INVALID_HEIGHT && block.epoch < u.descriptor.epoch {
        LoopKeeps(items, disk, stop, binary, block, i + 1, k, d);
      } else if u.height == INVALID_HEIGHT {
        var reached := Reached(items, i, block.height);
        ListedKeeps(reached, k, d);
        var disk' := Write(disk, Listed(reached)).0;
        WriteKeeps(disk, Listed(reached), d);
        var started := reached[i := Item(u.(height := block.height, stage := STAGE_STARTUP), reached[i].listed)];
        RestKeeps(started, disk', false, binary, block, i, k, d);
      } else {
        RestKeeps(items, disk, stop, binary, block, i, k, d);
      }
    }
  }

  lemma {:induction false} WriteKeeps(disk: Disk, us: seq<Upgrade>, d: Descriptor)
    requires HasLive(us, d) && HasLive(Stored(disk), d)
    ensures HasLive(Stored(Write(disk, us).0), d)
  {
  }

  lemma {:induction false} RestKeeps(
    items: seq<Item>, disk: Disk, stop: bool, binary: Binary, block: Block, i: nat, k: nat, d: Descriptor)
    requires i < |items| && Lists(items, k, d) && HasLive(Stored(disk), d) && !Completes(items, block, i, k)
    requires items[i].upgrade.height != INVALID_HEIGHT || block.height == 0
    ensures KeepsIn(Continue(items, disk, stop, binary, block, i).0, d)
    decreases |items| - i, 0
  {
    hide ConsensusLoop, Listed, HasLive;
    var (u, r) := Apply(items[i].upgrade, binary, block);
    var items' := items[i := Item(u, items[i].listed)];
    if r == Done {
      LoopKeeps(items', disk, stop, binary, block, i + 1, k, d);
    } else {
      ListedKeeps(items', k, d);
    }
  }

  lemma {:induction false} ConsensusKeeps(s: State, binary: Binary, block: Block, d: Descriptor)
    requires KeepsIn(s, d)
    ensures KeepsIn(Consensus(s, binary, block).0, d) || Ends(Running(s), ConsensusOp(binary, block), d)
  {
    hide ConsensusLoop, Next;
    var k :| 0 <= k < |s.pending| && s.pending[k].descriptor == d && !s.pending[k].Completed();
    assert s.pending[k] in s.pending;
    if !s.shouldStop && !Completes(Items(s.pending), block, 0, k) {
      LoopKeeps(Items(s.pending), s.disk, s.shouldStop, binary, block, 0, k, d);
    }
  }

  lemma {:induction false} RestartKeeps(disk: Disk, binary: Binary, d: Descriptor)
    requires HasLive(Stored(disk), d)
    ensures var (s', r) := Restart(disk, binary);
            HasLive(Stored(s'.disk), d) && (r == Done ==> HasLive(s'.pending, d))
  {
    hide Flush, Ready;
    FlushKeeps(State(disk.data.value, disk.(calls := disk.calls + 1), false), d);
  }

  lemma {:induction false} NextKeeps(p: Process, op: Op, d: Descriptor)
    requires Keeps(p, d)
    ensures Keeps(Next(p, op).0, d) || Ends(p, op, d)
  {
    hide Submit, Cancel, Startup, Consensus, Restart, Flush, HasLive, Ends;
    match op
    case RestartOp(binary) => RestartKeeps(DiskOf(p), binary, d);
    case SubmitOp(edit) => if p.Running? { SubmitKeeps(p.state, edit, d); }
    case CancelOp(edit) => if p.Running? { CancelKeeps(p.state, edit, d); }
    case StartupOp(binary) => if p.Running? { StartupKeeps(p.state, binary, d); }
    case ConsensusOp(binary, block) => if p.Running? { ConsensusKeeps(p.state, binary, block, d); }
    case CloseOp => if p.Running? { FlushKeeps(p.state, d); }
  }

  lemma {:induction false} SubmittedIsKept(p: Process, d: Descriptor)
    requires Next(p, SubmitOp(Some(d))).1 == Done
    ensures Keeps(Next(p, SubmitOp(Some(d))).0, d)
  {
    hide Flush;
    var added := p.state.(pending := p.state.pending + [Upgrade(d, INVALID_HEIGHT, 0)]);
    assert added.pending[|p.state.pending|] == Upgrade(d, INVALID_HEIGHT, 0);
    FlushKeeps(added, d);
  }

  /**
   * An accepted upgrade is never lost: after the call that accepted it, through
   * restarts, panics and failing writes, memory and store have it until it is
   * cancelled before being reached, or completed after its height.
   */
  lemma {:induction false} KeptUntilEnded(p: Process, ops: seq<Op>, k: nat, d: Descriptor)
    requires k < |ops| && ops[k] == SubmitOp(Some(d)) && Next(Run(p, ops[..k]), ops[k]).1 == Done
    ensures Keeps(Run(p, ops), d) || exists j :: k < j < |ops| && Ends(Run(p, ops[..j]), ops[j], d)
    decreases |ops|
  {
    hide Next, Keeps, Ends;
    var last := |ops| - 1;
    var front := ops[..last];
    if k == last {
      SubmittedIsKept(Run(p, front), d);
    } else {
      assert front[..k] == ops[..k];
      KeptUntilEnded(p, front, k, d);
      if Keeps(Run(p, front), d) {
        NextKeeps(Run(p, front), ops[last], d);
      } else {
        var j :| k < j < last && Ends(Run(p, front[..j]), front[j], d);
        assert front[..j] == ops[..j];
      }
    }
  }
}
