/** Runs of the upgrade manager that go wrong: heights that are lost, and a stage out of order. */
module UpgradeFailures {
  import opened Wrappers
  import opened UpgradeModel
  import opened UpgradeTheory
  import opened UpgradeStages

  /** A binary that can carry out every upgrade in place. */
  function InPlace(): Binary {
    Binary(
      (_: Descriptor) => true,
      (_: Descriptor) => true,
      (_: Descriptor) => false,
      (_: Descriptor) => true,
      (_: Descriptor) => true)
  }

  predicate FailsOnce(n: nat) { n != 4 }

  predicate FailsTwice(n: nat) { n != 4 && n != 5 }

  /** The fifth operation is the first one that the store refuses. */
  predicate FailsFifth(oracle: nat -> bool) {
    oracle(0) && oracle(1) && oracle(2) && oracle(3) && !oracle(4)
  }

  function DiskWith(us: seq<Upgrade>, calls: nat, oracle: nat -> bool): Disk {
    Disk(if us == [] then None else Some(us), calls, oracle)
  }

  lemma {:induction false} LiveOne(u: Upgrade)
    ensures Live([u]) == if u.Completed() then [] else [u]
  {
    assert [u][..0] == [];
  }

  lemma {:induction false} ListedOne(item: Item)
    ensures Listed([item]) == if item.listed then [item.upgrade] else []
  {
    assert [item][..0] == [];
  }

  lemma {:induction false} ReachInPlace(d: Descriptor, oracle: nat -> bool)
    requires FailsFifth(oracle)
    ensures var u, started := Upgrade(d, INVALID_HEIGHT, 0), Upgrade(d, 5, STAGE_STARTUP);
            Consensus(State([u], DiskWith([u], 2, oracle), false), InPlace(), Block(d.epoch, 5, false))
            == (State([started], DiskWith([started], 4, oracle), false), Done)
  {
    var u, reached, started := Upgrade(d, INVALID_HEIGHT, 0), Upgrade(d, 5, 0), Upgrade(d, 5, STAGE_STARTUP);
    var block := Block(d.epoch, 5, false);
    assert Items([u]) == [Item(u, true)];
    assert DropCompleted([Item(u, true)][0 := Item(reached, true)]) == [Item(reached, true)];
    ListedOne(Item(reached, true));
    assert [Item(reached, true)][0 := Item(started, true)] == [Item(started, true)];
    ListedOne(Item(started, true));
    LiveOne(started);
    assert Continue([Item(started, true)], DiskWith([reached], 3, oracle), false, InPlace(), block, 0)
        == ConsensusLoop([Item(started, true)], DiskWith([reached], 3, oracle), false, InPlace(), block, 1);
  }

  lemma {:induction false} CompleteUnsaved(d: Descriptor, oracle: nat -> bool)
    requires FailsFifth(oracle)
    ensures var started := Upgrade(d, 5, STAGE_STARTUP);
            Consensus(State([started], DiskWith([started], 4, oracle), false), InPlace(), Block(d.epoch, 6, false))
            == (State([], DiskWith([started], 5, oracle), false), StoreFailed)
  {
    var started, completed := Upgrade(d, 5, STAGE_STARTUP), Upgrade(d, 5, STAGE_CONSENSUS);
    var block := Block(d.epoch, 6, false);
    assert Items([started]) == [Item(started, true)];
    assert [Item(started, true)][0 := Item(completed, true)] == [Item(completed, true)];
    ListedOne(Item(completed, true));
    LiveOne(completed);
    assert Continue([Item(started, true)], DiskWith([started], 4, oracle), false, InPlace(), block, 0)
        == ConsensusLoop([Item(completed, true)], DiskWith([started], 4, oracle), false, InPlace(), block, 1);
  }

  lemma {:induction false} RunLast(p: Process, ops: seq<Op>, op: Op)
    ensures Run(p, ops + [op]) == Next(Run(p, ops), op).0
  {
    assert (ops + [op])[..|ops|] == ops;
  }

  /** A submission that is not pending yet, to a list without completed upgrades. */
  lemma {:induction false} Submission(us: seq<Upgrade>, disk: Disk, d: Descriptor)
    requires !Has(us, d) && Live(us + [Upgrade(d, INVALID_HEIGHT, 0)]) == us + [Upgrade(d, INVALID_HEIGHT, 0)]
    ensures var all := us + [Upgrade(d, INVALID_HEIGHT, 0)];
            var (disk', ok) := Write(disk, all);
            Submit(State(us, disk, false), Some(d)) == (State(all, disk', false), if ok then Done else StoreFailed)
  {
  }

  /** A new process to which one upgrade is submitted. */
  lemma {:induction false} FirstSubmission(d: Descriptor, binary: Binary, oracle: nat -> bool)
    requires oracle(0) && oracle(1)
    ensures Run(Down(Disk(None, 0, oracle)), [RestartOp(binary)] + [SubmitOp(Some(d))])
         == Running(State([Upgrade(d, INVALID_HEIGHT, 0)], DiskWith([Upgrade(d, INVALID_HEIGHT, 0)], 2, oracle), false))
  {
    hide Live, Submit;
    var p, u := Down(Disk(None, 0, oracle)), Upgrade(d, INVALID_HEIGHT, 0);
    var a, b := RestartOp(binary), SubmitOp(Some(d));
    assert [a] == [] + [a] && [] + [u] == [u];
    RunLast(p, [], a);
    RunLast(p, [a], b);
    LiveOne(u);
    Submission([], Disk(None, 1, oracle), d);
  }

  /** The upgrade is reached at height 5 and completed at height 6, but deleting it from the store fails. */
  function Prefix(d: Descriptor): seq<Op> {
    [RestartOp(InPlace())] + [SubmitOp(Some(d))] + [ConsensusOp(InPlace(), Block(d.epoch, 5, false))]
    + [ConsensusOp(InPlace(), Block(d.epoch, 6, false))]
  }

  lemma {:induction false} AfterPrefix(d: Descriptor, oracle: nat -> bool)
    requires FailsFifth(oracle)
    ensures Run(Down(Disk(None, 0, oracle)), Prefix(d))
         == Running(State([], DiskWith([Upgrade(d, 5, STAGE_STARTUP)], 5, oracle), false))
  {
    hide Consensus, Run;
    var p := Down(Disk(None, 0, oracle));
    var before := [RestartOp(InPlace())] + [SubmitOp(Some(d))];
    var c, e := ConsensusOp(InPlace(), Block(d.epoch, 5, false)), ConsensusOp(InPlace(), Block(d.epoch, 6, false));
    FirstSubmission(d, InPlace(), oracle);
    ReachInPlace(d, oracle);
    RunLast(p, before, c);
    CompleteUnsaved(d, oracle);
    RunLast(p, before + [c], e);
  }

  /** Submitting the same descriptor again loses its height. */
  lemma {:induction false} StoredHeightCanChange(d: Descriptor)
    ensures var p := Run(Down(Disk(None, 0, FailsOnce)), Prefix(d));
            && Stored(DiskOf(p)) == [Upgrade(d, 5, STAGE_STARTUP)]
            && Resubmits(p, SubmitOp(Some(d)))
            && Stored(DiskOf(Next(p, SubmitOp(Some(d))).0)) == [Upgrade(d, INVALID_HEIGHT, 0)]
  {
    hide Consensus, Live;
    AfterPrefix(d, FailsOnce);
    LiveOne(Upgrade(d, INVALID_HEIGHT, 0));
    assert [] + [Upgrade(d, INVALID_HEIGHT, 0)] == [Upgrade(d, INVALID_HEIGHT, 0)];
    var p := Run(Down(Disk(None, 0, FailsOnce)), Prefix(d));
    assert Stored(DiskOf(p))[0].height == 5;
  }

  lemma {:induction false} LiveTwo(u: Upgrade, v: Upgrade)
    requires !u.Completed() && !v.Completed()
    ensures Live([u, v]) == [u, v]
  {
    assert [u, v][..1] == [u];
    LiveOne(u);
  }

  /**
   * If the store refuses that submission too, the height is lost with the next
   * write, here by submitting some other descriptor.
   */
  lemma {:induction false} RefusedThenLost(d: Descriptor, other: Descriptor)
    requires d != other
    ensures var p := Run(Down(Disk(None, 0, FailsTwice)), Prefix(d) + [SubmitOp(Some(d))]);
            && Stored(DiskOf(p)) == [Upgrade(d, 5, STAGE_STARTUP)]
            && !Resubmits(p, SubmitOp(Some(other)))
            && Stored(DiskOf(Next(p, SubmitOp(Some(other))).0))
               == [Upgrade(d, INVALID_HEIGHT, 0), Upgrade(other, INVALID_HEIGHT, 0)]
  {
    hide Live, Run, Submit, Prefix, Write;
    var u, v, started := Upgrade(d, INVALID_HEIGHT, 0), Upgrade(other, INVALID_HEIGHT, 0), Upgrade(d, 5, STAGE_STARTUP);
    AfterPrefix(d, FailsTwice);
    RunLast(Down(Disk(None, 0, FailsTwice)), Prefix(d), SubmitOp(Some(d)));
    LiveOne(u);
    LiveTwo(u, v);
    assert [] + [u] == [u] && [u] + [v] == [u, v];
    Submission([], DiskWith([started], 5, FailsTwice), d);
    Submission([u], DiskWith([started], 6, FailsTwice), other);
    WriteAnswers([started], 5, FailsTwice, [u]);
    WriteAnswers([started], 6, FailsTwice, [u, v]);
  }

  lemma {:induction false} WriteAnswers(us: seq<Upgrade>, calls: nat, oracle: nat -> bool, more: seq<Upgrade>)
    ensures Write(DiskWith(us, calls, oracle), more)
         == (DiskWith(if oracle(calls) then more else us, calls + 1, oracle), oracle(calls))
  {
  }

  // ---- a stage out of order ----

  predicate FailsThird(n: nat) { n != 2 }

  lemma {:induction false} ReachUnsaved(d: Descriptor, binary: Binary)
    ensures var u := Upgrade(d, INVALID_HEIGHT, 0);
            Consensus(State([u], DiskWith([u], 2, FailsThird), false), binary, Block(d.epoch, 5, false))
            == (State([Upgrade(d, 5, 0)], DiskWith([u], 3, FailsThird), false), StoreFailed)
  {
    var u, reached := Upgrade(d, INVALID_HEIGHT, 0), Upgrade(d, 5, 0);
    assert Reached(Items([u]), 0, 5) == [Item(reached, true)];
    ListedOne(Item(reached, true));
  }

  /**
   * The write at the height where the upgrade is reached is refused, and the
   * node goes on to the next block instead of stopping.
   */
  lemma {:induction false} StageCanPanic(d: Descriptor, binary: Binary)
    ensures var ops := [RestartOp(binary)] + [SubmitOp(Some(d))] + [ConsensusOp(binary, Block(d.epoch, 5, false))];
            var p := Run(Down(Disk(None, 0, FailsThird)), ops);
            Next(p, ConsensusOp(binary, Block(d.epoch, 6, false))).1 == PanicOutOfOrder
  {
    hide Consensus, Run;
    var p := Down(Disk(None, 0, FailsThird));
    var before, c := [RestartOp(binary)] + [SubmitOp(Some(d))], ConsensusOp(binary, Block(d.epoch, 5, false));
    FirstSubmission(d, binary, FailsThird);
    ReachUnsaved(d, binary);
    RunLast(p, before, c);
    var u := Upgrade(d, INVALID_HEIGHT, 0);
    var s := State([Upgrade(d, 5, 0)], DiskWith([u], 3, FailsThird), false);
    PanicsExactly(s, binary, Block(d.epoch, 6, false));
    assert PassesBefore(s, binary, Block(d.epoch, 6, false), 0);
  }
}
