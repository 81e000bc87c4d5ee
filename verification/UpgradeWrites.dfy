/**
 * The writes that a call makes to the store, one by one, and exactly when one
 * of them loses the height of a stored upgrade.
 */
module UpgradeWrites {
  import opened Wrappers
  import opened UpgradeModel
  import opened UpgradeTheory

  /** The lists that the consensus loop hands to the store, from record i on. */
  function LoopWrites(items: seq<Item>, disk: Disk, binary: Binary, block: Block, i: nat): (ws: seq<seq<Upgrade>>)
    requires i <= |items|
    decreases |items| - i
  {
    if i == |items| then [Live(Listed(items))]
    else
      var u := items[i].upgrade;
      if u.height == INVALID_HEIGHT && block.epoch < u.descriptor.epoch then
        LoopWrites(items, disk, binary, block, i + 1)
      else if u.height == INVALID_HEIGHT then
        var reached := Reached(items, i, block.height);
        var (disk', ok) := Write(disk, Listed(reached));
        if !ok || MustStop(u.descriptor, binary) || u.stage + 1 != STAGE_STARTUP then [Listed(reached)]
        else
          var started := Item(u.(height := block.height, stage := STAGE_STARTUP), reached[i].listed);
          [Listed(reached)] + RestWrites(reached[i := started], disk', binary, block, i)
      else RestWrites(items, disk, binary, block, i)
  }

  function RestWrites(items: seq<Item>, disk: Disk, binary: Binary, block: Block, i: nat): (ws: seq<seq<Upgrade>>)
    requires i < |items|
    decreases |items| - i, 0
  {
    var (u, r) := Apply(items[i].upgrade, binary, block);
    if r != Done then [] else LoopWrites(items[i := Item(u, items[i].listed)], disk, binary, block, i + 1)
  }

  /** The lists that a call hands to the store, in order. */
  function WritesOf(s: State, op: Op): (ws: seq<seq<Upgrade>>)
    requires !op.RestartOp?
  {
    match op
    case SubmitOp(d) =>
      if d.None? || Has(s.pending, d.value) then []
      else [Live(s.pending + [Upgrade(d.value, INVALID_HEIGHT, 0)])]
    case CancelOp(d) =>
      if d.None? then []
      else if s.pending == [] then [Live(s.pending)]
      else if InProgress(s.pending, d.value) then []
      else [Live(Remove(s.pending, d.value))]
    case StartupOp(binary) =>
      var (us, ok) := StartupLoop(s.pending, binary, 0);
      if ok then [Live(us)] else []
    case ConsensusOp(binary, block) =>
      if s.shouldStop then [] else LoopWrites(Items(s.pending), s.disk, binary, block, 0)
    case CloseOp => [Live(s.pending)]
  }

  /** The disk after some writes. */
  function Written(disk: Disk, ws: seq<seq<Upgrade>>): (r: Disk)
    decreases |ws|
  {
    if ws == [] then disk else Written(Write(disk, ws[0]).0, ws[1..])
  }

  lemma {:induction false} WrittenOne(disk: Disk, us: seq<Upgrade>)
    ensures Written(disk, [us]) == Write(disk, us).0
  {
    assert [us][1..] == [];
    assert Written(Write(disk, us).0, []) == Write(disk, us).0;
  }

  lemma {:induction false} WrittenFirst(disk: Disk, us: seq<Upgrade>, ws: seq<seq<Upgrade>>)
    ensures Written(disk, [us] + ws) == Written(Write(disk, us).0, ws)
  {
    assert ([us] + ws)[1..] == ws;
  }

  lemma {:induction false} LoopWritesAll(
    items: seq<Item>, disk: Disk, stop: bool, binary: Binary, block: Block, i: nat)
    requires i <= |items|
    ensures ConsensusLoop(items, disk, stop, binary, block, i).0.disk
         == Written(disk, LoopWrites(items, disk, binary, block, i))
    decreases |items| - i
  {
    hide Written, Write, Listed, Live, Reached, MustStop;
    if i == |items| {
      WrittenOne(disk, Live(Listed(items)));
    } else {
      var u := items[i].upgrade;
      if u.height == INVALID_HEIGHT && block.epoch < u.descriptor.epoch {
        LoopWritesAll(items, disk, stop, binary, block, i + 1);
      } else if u.height == INVALID_HEIGHT {
        var reached := Reached(items, i, block.height);
        var disk' := Write(disk, Listed(reached)).0;
        var started := Item(u.(height := block.height, stage := STAGE_STARTUP), reached[i].listed);
        WrittenOne(disk, Listed(reached));
        WrittenFirst(disk, Listed(reached), RestWrites(reached[i := started], disk', binary, block, i));
        RestWritesAll(reached[i := started], disk', false, binary, block, i);
      } else {
        RestWritesAll(items, disk, stop, binary, block, i);
      }
    }
  }

  lemma {:induction false} RestWritesAll(
    items: seq<Item>, disk: Disk, stop: bool, binary: Binary, block: Block, i: nat)
    requires i < |items|
    ensures Continue(items, disk, stop, binary, block, i).0.disk
         == Written(disk, RestWrites(items, disk, binary, block, i))
    decreases |items| - i, 0
  {
    hide ConsensusLoop, LoopWrites, Apply;
    var (u, r) := Apply(items[i].upgrade, binary, block);
    if r == Done {
      LoopWritesAll(items[i := Item(u, items[i].listed)], disk, stop, binary, block, i + 1);
    }
  }

  /** The listed writes, in this order, are all that a call does to the store. */
  lemma {:induction false} WritesAreAll(s: State, op: Op)
    requires !op.RestartOp?
    ensures Call(s, op).0.disk == Written(s.disk, WritesOf(s, op))
  {
    hide Written, Live, Remove, Has, InProgress, StartupLoop, ConsensusLoop, LoopWrites, Write;
    assert Written(s.disk, []) == s.disk by { NothingWritten(s.disk); }
    if |WritesOf(s, op)| == 1 {
      WrittenOne(s.disk, WritesOf(s, op)[0]);
      assert WritesOf(s, op) == [WritesOf(s, op)[0]];
    }
    if op.ConsensusOp? && !s.shouldStop {
      LoopWritesAll(Items(s.pending), s.disk, s.shouldStop, op.binary, op.block, 0);
    }
  }

  lemma {:induction false} NothingWritten(disk: Disk)
    ensures Written(disk, []) == disk
  {
  }

  lemma {:induction false} WrittenLast(disk: Disk, ws: seq<seq<Upgrade>>, us: seq<Upgrade>)
    ensures Written(disk, ws + [us]) == Write(Written(disk, ws), us).0
    decreases |ws|
  {
    hide Write;
    if ws == [] {
      assert ws + [us] == [us];
      WrittenOne(disk, us);
    } else {
      assert (ws + [us])[1..] == ws[1..] + [us];
      WrittenLast(Write(disk, ws[0]).0, ws[1..], us);
    }
  }

  // ---- every list that is written has distinct descriptors ----

  predicate AllDistinct(ws: seq<seq<Upgrade>>) {
    forall k :: 0 <= k < |ws| ==> DistinctDescriptors(ws[k])
  }

  lemma {:induction false} ItemsDistinct(items: seq<Item>, h: Height)
    requires GoodItems(items, h)
    ensures DistinctDescriptors(Listed(items)) && DistinctDescriptors(Live(Listed(items)))
  {
    ListedGood(items, h);
    LiveGood(Listed(items), h);
  }

  lemma {:induction false} LoopWritesDistinct(items: seq<Item>, disk: Disk, binary: Binary, block: Block, i: nat)
    requires 0 < block.height && GoodItems(items, block.height) && i <= |items|
    ensures AllDistinct(LoopWrites(items, disk, binary, block, i))
    decreases |items| - i
  {
    hide DistinctDescriptors, Listed, Live, Write, MustStop;
    if i == |items| {
      ItemsDistinct(items, block.height);
    } else {
      var u := items[i].upgrade;
      if u.height == INVALID_HEIGHT && block.epoch < u.descriptor.epoch {
        LoopWritesDistinct(items, disk, binary, block, i + 1);
      } else if u.height == INVALID_HEIGHT {
        var changed := items[i := Item(u.(height := block.height), items[i].listed)];
        DroppedLive(changed, block.height);
        var reached := Reached(items, i, block.height);
        ItemsDistinct(reached, block.height);
        var disk' := Write(disk, Listed(reached)).0;
        var started := Item(u.(height := block.height, stage := STAGE_STARTUP), reached[i].listed);
        RestWritesDistinct(reached[i := started], disk', binary, block, i);
      } else {
        RestWritesDistinct(items, disk, binary, block, i);
      }
    }
  }

  lemma {:induction false} RestWritesDistinct(items: seq<Item>, disk: Disk, binary: Binary, block: Block, i: nat)
    requires 0 < block.height && GoodItems(items, block.height) && i < |items|
    ensures AllDistinct(RestWrites(items, disk, binary, block, i))
    decreases |items| - i, 0
  {
    hide LoopWrites;
    var (u, r) := Apply(items[i].upgrade, binary, block);
    if r == Done {
      LoopWritesDistinct(items[i := Item(u, items[i].listed)], disk, binary, block, i + 1);
    }
  }

  lemma {:induction false} WritesDistinct(s: State, op: Op, h: Height)
    requires GoodState(s, h) && Follows(op, h) && !op.RestartOp?
    ensures AllDistinct(WritesOf(s, op))
  {
    hide Live, Remove, InProgress, StartupLoop, LoopWrites, GoodDisk;
    match op
    case SubmitOp(d) =>
      if d.Some? && !Has(s.pending, d.value) {
        LiveGood(s.pending + [Upgrade(d.value, INVALID_HEIGHT, 0)], h);
      }
    case CancelOp(d) =>
      LiveGood(s.pending, h);
      if d.Some? {
        RemoveGood(s.pending, d.value, h);
        LiveGood(Remove(s.pending, d.value), h);
      }
    case StartupOp(binary) =>
      StartupLoopGood(s.pending, binary, 0, h);
      LiveGood(StartupLoop(s.pending, binary, 0).0, h);
    case ConsensusOp(binary, block) => LoopWritesDistinct(Items(s.pending), s.disk, binary, block, 0);
    case CloseOp => LiveGood(s.pending, h);
  }

  // ---- exactly when a height is lost ----

  /** The k-th write changes the height of an upgrade that is stored as reached. */
  predicate LostAt(disk: Disk, ws: seq<seq<Upgrade>>, k: nat)
    requires k < |ws|
  {
    !Kept(Stored(Written(disk, ws[..k])), Stored(Written(disk, ws[..k + 1])))
  }

  /** The store accepts the k-th write, which holds such an upgrade with another height. */
  predicate ConflictAt(disk: Disk, ws: seq<seq<Upgrade>>, k: nat)
    requires k < |ws|
  {
    var before := Written(disk, ws[..k]);
    before.oracle(before.calls) && !Kept(Stored(before), ws[k])
  }

  lemma {:induction false} WrittenDistinct(disk: Disk, ws: seq<seq<Upgrade>>)
    requires DistinctDescriptors(Stored(disk)) && AllDistinct(ws)
    ensures DistinctDescriptors(Stored(Written(disk, ws)))
    decreases |ws|
  {
    hide DistinctDescriptors;
    if ws != [] {
      WriteDistinct(disk, ws[0]);
      WrittenDistinct(Write(disk, ws[0]).0, ws[1..]);
    }
  }

  lemma {:induction false} WriteDistinct(disk: Disk, us: seq<Upgrade>)
    requires DistinctDescriptors(Stored(disk)) && DistinctDescriptors(us)
    ensures DistinctDescriptors(Stored(Write(disk, us).0))
  {
  }

  lemma {:induction false} LostIsConflict(disk: Disk, ws: seq<seq<Upgrade>>, k: nat)
    requires DistinctDescriptors(Stored(disk)) && AllDistinct(ws) && k < |ws|
    ensures LostAt(disk, ws, k) <==> ConflictAt(disk, ws, k)
  {
    hide Written, Kept, DistinctDescriptors;
    var before := Written(disk, ws[..k]);
    WrittenDistinct(disk, ws[..k]);
    KeptSelf(Stored(before));
    WrittenLast(disk, ws[..k], ws[k]);
    assert ws[..k] + [ws[k]] == ws[..k + 1];
    WriteStores(before, ws[k]);
  }

  lemma {:induction false} WriteStores(disk: Disk, us: seq<Upgrade>)
    ensures Stored(Write(disk, us).0) == if disk.oracle(disk.calls) then us else Stored(disk)
  {
  }

  /**
   * After every run, whatever has been submitted and whatever the store has
   * refused: a call changes the store by its writes and by nothing else, and
   * one of them loses a stored height if and only if the store accepts it and
   * it holds a record of that upgrade with another height. Starting a process
   * loses none.
   */
  lemma {:induction false} HeightsLostExactly(oracle: nat -> bool, ops: seq<Op>, op: Op)
    requires Monotone(ops + [op], 0)
    ensures var p := Run(Down(Disk(None, 0, oracle)), ops);
            var after := DiskOf(Next(p, op).0);
            if op.RestartOp? || p.Down? then Kept(Stored(DiskOf(p)), Stored(after))
            else
              var ws := WritesOf(p.state, op);
              && after == Written(p.state.disk, ws)
              && forall k :: 0 <= k < |ws| ==> (LostAt(p.state.disk, ws, k) <==> ConflictAt(p.state.disk, ws, k))
  {
    hide Kept, LostAt, ConflictAt, Restart, Call, WritesOf, Written, DistinctDescriptors;
    var init := Down(Disk(None, 0, oracle));
    var all := ops + [op];
    assert all[..|all| - 1] == ops;
    RunGood(init, ops, 0);
    var p, h := Run(init, ops), LastHeight(ops, 0);
    StoredDistinct(DiskOf(p), h);
    KeptSelf(Stored(DiskOf(p)));
    if op.RestartOp? {
      RestartFrozen(DiskOf(p), op.binary, h);
    } else if p.Running? {
      WritesAreAll(p.state, op);
      WritesDistinct(p.state, op, h);
      var ws := WritesOf(p.state, op);
      forall k | 0 <= k < |ws| ensures LostAt(p.state.disk, ws, k) <==> ConflictAt(p.state.disk, ws, k) {
        LostIsConflict(p.state.disk, ws, k);
      }
    }
  }

  lemma {:induction false} StoredDistinct(disk: Disk, h: Height)
    requires GoodDisk(disk, h)
    ensures DistinctDescriptors(Stored(disk))
  {
  }
}
