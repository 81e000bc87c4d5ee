/** When the upgrade manager pushes a stage out of order, and which runs never do. */
module UpgradeStages {
  import opened Wrappers
  import opened UpgradeModel
  import opened UpgradeTheory

  // ---- exactly how a consensus call ends ----

  /** The block is the one at which the upgrade is reached, which is written to the store. */
  predicate ReachedAt(u: Upgrade, block: Block) {
    u.height == INVALID_HEIGHT && u.descriptor.epoch <= block.epoch
  }

  /** How often the store has been written before the loop comes to record i. */
  function WritesBefore(us: seq<Upgrade>, block: Block, i: nat): (n: nat)
    requires i <= |us|
  {
    if i == 0 then 0 else WritesBefore(us, block, i - 1) + if ReachedAt(us[i - 1], block) then 1 else 0
  }

  /** Whether the store accepts the write at record i, if there is one. */
  predicate Saved(s: State, block: Block, i: nat)
    requires i <= |s.pending|
  {
    s.disk.oracle(s.disk.calls + WritesBefore(s.pending, block, i))
  }

  predicate HandlerPasses(d: Descriptor, binary: Binary, block: Block) {
    !block.hasContext || (binary.hasHandler(d) && binary.consensusSucceeds(d))
  }

  /** The binary can carry the upgrade out without a restart. */
  predicate NeedsNoRestart(d: Descriptor, binary: Binary) {
    binary.compatible(d) && binary.hasHandler(d) && !binary.hasStartup(d)
  }

  /** What one record, taken alone, makes of the block. */
  function Verdict(u: Upgrade, saved: bool, binary: Binary, block: Block): (r: Outcome) {
    if ReachedAt(u, block) then
      if !saved then StoreFailed
      else if !NeedsNoRestart(u.descriptor, binary) then StopForUpgrade
      else if u.stage != 0 then PanicOutOfOrder
      else if HandlerPasses(u.descriptor, binary, block) then Done
      else HandlerFailed
    else if u.height == INVALID_HEIGHT then Done
    else if u.height < block.height then if u.stage == STAGE_STARTUP then Done else PanicOutOfOrder
    else if u.height > block.height then PanicFutureHeight
    else if u.Completed() || HandlerPasses(u.descriptor, binary, block) then Done
    else HandlerFailed
  }

  function VerdictAt(s: State, binary: Binary, block: Block, i: nat): (r: Outcome)
    requires i < |s.pending|
  {
    Verdict(s.pending[i], Saved(s, block, i), binary, block)
  }

  /** What the records from i on make of the block, if those before it let the loop go on. */
  function OutcomeFrom(s: State, binary: Binary, block: Block, i: nat): (r: Outcome)
    requires i <= |s.pending|
    decreases |s.pending| - i
  {
    if i == |s.pending| then if Saved(s, block, i) then Done else StoreFailed
    else if VerdictAt(s, binary, block, i) == Done then OutcomeFrom(s, binary, block, i + 1)
    else VerdictAt(s, binary, block, i)
  }

  /** The items that are still to come are as they were, and only the counted writes were made. */
  ghost predicate Aligned(s: State, items: seq<Item>, disk: Disk, block: Block, i: nat) {
    && |items| == |s.pending| && i <= |items|
    && (forall k :: i <= k < |items| ==> items[k].upgrade == s.pending[k])
    && disk.oracle == s.disk.oracle && disk.calls == s.disk.calls + WritesBefore(s.pending, block, i)
  }

  /** The outcome is r, and the flag is raised exactly on a stop. */
  predicate EndsIn(result: (State, Outcome), r: Outcome) {
    result.1 == r && (result.0.shouldStop <==> r == StopForUpgrade)
  }

  lemma {:induction false} LoopOutcome(s: State, items: seq<Item>, disk: Disk, binary: Binary, block: Block, i: nat)
    requires Aligned(s, items, disk, block, i)
    ensures EndsIn(ConsensusLoop(items, disk, false, binary, block, i), OutcomeFrom(s, binary, block, i))
    decreases |items| - i
  {
    hide Listed, Live;
    if i < |items| {
      var u := items[i].upgrade;
      if u.height == INVALID_HEIGHT && block.epoch < u.descriptor.epoch {
        LoopOutcome(s, items, disk, binary, block, i + 1);
      } else {
        if u.height == INVALID_HEIGHT {
          var reached := Reached(items, i, block.height);
          var disk' := Write(disk, Listed(reached)).0;
          var started := Item(u.(height := block.height, stage := STAGE_STARTUP), reached[i].listed);
          GoesOn(s, reached[i := started], disk', binary, block, i);
        } else {
          GoesOn(s, items, disk, binary, block, i);
        }
      }
    }
  }

  /** The second half of the loop body. */
  lemma {:induction false} GoesOn(s: State, items: seq<Item>, disk: Disk, binary: Binary, block: Block, i: nat)
    requires i < |items| && Aligned(s, items, disk, block, i + 1)
    ensures var r := Apply(items[i].upgrade, binary, block).1;
            EndsIn(
              Continue(items, disk, false, binary, block, i),
              if r == Done then OutcomeFrom(s, binary, block, i + 1) else r)
    decreases |items| - i, 0
  {
    hide ConsensusLoop, OutcomeFrom;
    var (u, r) := Apply(items[i].upgrade, binary, block);
    if r == Done {
      LoopOutcome(s, items[i := Item(u, items[i].listed)], disk, binary, block, i + 1);
    }
  }

  /** Every record before i lets the loop go on. */
  predicate PassesBefore(s: State, binary: Binary, block: Block, i: nat)
    requires i < |s.pending|
  {
    forall k :: 0 <= k < i ==> VerdictAt(s, binary, block, k) == Done
  }

  /** Record i ends the loop with r. */
  predicate EndsAt(s: State, binary: Binary, block: Block, i: nat, r: Outcome)
    requires i < |s.pending|
  {
    PassesBefore(s, binary, block, i) && VerdictAt(s, binary, block, i) == r
  }

  lemma {:induction false} EndsSomewhere(s: State, binary: Binary, block: Block, i: nat, r: Outcome)
    requires i <= |s.pending| && forall k :: 0 <= k < i ==> VerdictAt(s, binary, block, k) == Done
    requires r != Done && r != StoreFailed
    ensures OutcomeFrom(s, binary, block, i) == r <==>
            exists j :: i <= j < |s.pending| && EndsAt(s, binary, block, j, r)
    decreases |s.pending| - i
  {
    hide VerdictAt, Saved;
    if i < |s.pending| {
      if VerdictAt(s, binary, block, i) == Done {
        EndsSomewhere(s, binary, block, i + 1, r);
      }
      assert VerdictAt(s, binary, block, i) == r <==> EndsAt(s, binary, block, i, r);
    }
  }

  lemma {:induction false} AllPass(s: State, binary: Binary, block: Block, i: nat)
    requires i <= |s.pending|
    ensures OutcomeFrom(s, binary, block, i) == Done <==>
            && (forall k :: i <= k < |s.pending| ==> VerdictAt(s, binary, block, k) == Done)
            && Saved(s, block, |s.pending|)
    decreases |s.pending| - i
  {
    hide VerdictAt, Saved;
    if i < |s.pending| {
      AllPass(s, binary, block, i + 1);
    }
  }

  /**
   * How a consensus call ends, for any list, binary, block and store: with the
   * verdict on the first record that does not let the loop go on. The state,
   * the block, the binary and the store's answers to the writes in between
   * decide this.
   */
  lemma {:induction false} ConsensusEndsExactly(s: State, binary: Binary, block: Block, r: Outcome)
    requires !s.shouldStop
    ensures r != Done && r != StoreFailed ==>
              (Consensus(s, binary, block).1 == r <==>
               exists i :: 0 <= i < |s.pending| && EndsAt(s, binary, block, i, r))
    ensures Consensus(s, binary, block).1 == Done <==>
            && (forall i :: 0 <= i < |s.pending| ==> VerdictAt(s, binary, block, i) == Done)
            && Saved(s, block, |s.pending|)
  {
    hide EndsAt, ConsensusLoop, VerdictAt, Saved;
    LoopOutcome(s, Items(s.pending), s.disk, binary, block, 0);
    AllPass(s, binary, block, 0);
    if r != Done && r != StoreFailed {
      EndsSomewhere(s, binary, block, 0, r);
    }
  }

  /**
   * The node stops exactly if it was told to before, or the loop comes to an
   * upgrade whose height has just been saved and which this binary cannot
   * carry out in place: it is incompatible, has no handler, or has a handler
   * with a startup stage. It then refuses every later block.
   */
  lemma {:induction false} StopsExactly(s: State, binary: Binary, block: Block)
    ensures var (s', r) := Consensus(s, binary, block);
            && (s'.shouldStop <==> r == StopForUpgrade)
            && (r == StopForUpgrade <==>
                || s.shouldStop
                || exists i ::
                     && 0 <= i < |s.pending| && PassesBefore(s, binary, block, i)
                     && var u := s.pending[i];
                        && u.height == 0 && u.descriptor.epoch <= block.epoch && Saved(s, block, i)
                        && (|| !binary.compatible(u.descriptor) || !binary.hasHandler(u.descriptor)
                            || binary.hasStartup(u.descriptor)))
  {
    hide ConsensusLoop, Saved;
    if !s.shouldStop {
      LoopOutcome(s, Items(s.pending), s.disk, binary, block, 0);
      ConsensusEndsExactly(s, binary, block, StopForUpgrade);
      forall i | 0 <= i < |s.pending|
        ensures EndsAt(s, binary, block, i, StopForUpgrade) <==>
                && PassesBefore(s, binary, block, i)
                && var u := s.pending[i];
                   && u.height == 0 && u.descriptor.epoch <= block.epoch && Saved(s, block, i)
                   && (|| !binary.compatible(u.descriptor) || !binary.hasHandler(u.descriptor)
                       || binary.hasStartup(u.descriptor))
      {
      }
    }
  }

  /** A consensus call panics over the order of stages exactly if it comes to a record that is out of order. */
  lemma {:induction false} PanicsExactly(s: State, binary: Binary, block: Block)
    ensures Consensus(s, binary, block).1 == PanicOutOfOrder <==>
            && !s.shouldStop
            && exists i ::
                 && 0 <= i < |s.pending| && PassesBefore(s, binary, block, i)
                 && var u := s.pending[i];
                    || (0 < u.height < block.height && u.stage != 1)
                    || (&& u.height == 0 && u.descriptor.epoch <= block.epoch && u.stage != 0 && Saved(s, block, i)
                        && binary.compatible(u.descriptor) && binary.hasHandler(u.descriptor)
                        && !binary.hasStartup(u.descriptor))
  {
    hide ConsensusLoop, Saved;
    if !s.shouldStop {
      ConsensusEndsExactly(s, binary, block, PanicOutOfOrder);
      forall i | 0 <= i < |s.pending|
        ensures EndsAt(s, binary, block, i, PanicOutOfOrder) <==>
                && PassesBefore(s, binary, block, i)
                && var u := s.pending[i];
                   || (0 < u.height < block.height && u.stage != 1)
                   || (&& u.height == 0 && u.descriptor.epoch <= block.epoch && u.stage != 0 && Saved(s, block, i)
                       && binary.compatible(u.descriptor) && binary.hasHandler(u.descriptor)
                       && !binary.hasStartup(u.descriptor))
      {
      }
    }
  }

  // ---- runs that never panic ----

  /** No stage before the upgrade is reached, exactly the startup stage from then on. */
  predicate Fits(u: Upgrade) {
    u.stage == if u.height == INVALID_HEIGHT then 0 else STAGE_STARTUP
  }

  predicate AllFit(us: seq<Upgrade>) {
    forall u :: u in us ==> Fits(u)
  }

  lemma {:induction false} FittingNeverPanics(s: State, binary: Binary, block: Block)
    requires s.shouldStop || AllFit(s.pending)
    ensures Consensus(s, binary, block).1 != PanicOutOfOrder
  {
    hide Consensus, Saved, PassesBefore;
    PanicsExactly(s, binary, block);
    forall i | 0 <= i < |s.pending| && !s.shouldStop ensures Fits(s.pending[i]) {
      assert s.pending[i] in s.pending;
    }
  }

  /** What the consensus loop has dealt with fits, or is completed. */
  predicate ItemFits(item: Item, done: bool) {
    Fits(item.upgrade) || (done && item.upgrade.height != INVALID_HEIGHT && item.upgrade.Completed())
  }

  predicate ItemsFit(items: seq<Item>, i: nat) {
    forall k :: 0 <= k < |items| ==> ItemFits(items[k], k < i)
  }

  lemma {:induction false} FlushFits(items: seq<Item>, disk: Disk, stop: bool, h: Height)
    requires GoodItems(items, h) && ItemsFit(items, |items|)
    ensures AllFit(Flush(State(Listed(items), disk, stop)).0.pending)
  {
    ListedGood(items, h);
    forall u | u in Live(Listed(items)) ensures Fits(u) {
      assert u in Listed(items);
    }
  }

  /** A call that ends well leaves fitting records; one that stops says so. */
  predicate EndsWell(s: State, r: Outcome) {
    (r == Done ==> AllFit(s.pending)) && (r == StopForUpgrade ==> s.shouldStop)
  }

  lemma {:induction false} LoopFits(items: seq<Item>, disk: Disk, stop: bool, binary: Binary, block: Block, i: nat)
    requires 0 < block.height && GoodItems(items, block.height) && i <= |items| && ItemsFit(items, i)
    ensures var (s, r) := ConsensusLoop(items, disk, stop, binary, block, i); EndsWell(s, r)
    decreases |items| - i
  {
    hide Listed, Write, AllFit;
    if i == |items| {
      FlushFits(items, disk, stop, block.height);
    } else {
      var u := items[i].upgrade;
      if u.height == INVALID_HEIGHT && block.epoch < u.descriptor.epoch {
        LoopFits(items, disk, stop, binary, block, i + 1);
      } else if u.height == INVALID_HEIGHT {
        var reached := Reached(items, i, block.height);
        var started := Item(u.(height := block.height, stage := STAGE_STARTUP), reached[i].listed);
        RestFits(reached[i := started], Write(disk, Listed(reached)).0, false, binary, block, i);
      } else {
        RestFits(items, disk, stop, binary, block, i);
      }
    }
  }

  lemma {:induction false} RestFits(items: seq<Item>, disk: Disk, stop: bool, binary: Binary, block: Block, i: nat)
    requires 0 < block.height && GoodItems(items, block.height) && i < |items| && ItemsFit(items, i)
    requires items[i].upgrade.height != INVALID_HEIGHT
    ensures var (s, r) := Continue(items, disk, stop, binary, block, i); EndsWell(s, r)
    decreases |items| - i, 0
  {
    hide Listed, AllFit, ConsensusLoop;
    var (u, r) := Apply(items[i].upgrade, binary, block);
    if r == Done {
      LoopFits(items[i := Item(u, items[i].listed)], disk, stop, binary, block, i + 1);
    }
  }

  lemma {:induction false} ConsensusFits(s: State, binary: Binary, block: Block, h: Height)
    requires GoodState(s, h) && h <= block.height && 0 < block.height && (s.shouldStop || AllFit(s.pending))
    ensures var (s', r) := Consensus(s, binary, block); EndsWell(s', r)
  {
    if !s.shouldStop {
      LoopFits(Items(s.pending), s.disk, s.shouldStop, binary, block, 0);
    }
  }

  lemma {:induction false} StartupStages(us: seq<Upgrade>, binary: Binary, i: nat)
    requires i <= |us| && forall k :: 0 <= k < i ==> us[k].height != INVALID_HEIGHT ==> us[k].stage >= STAGE_STARTUP
    ensures var (us', ok) := StartupLoop(us, binary, i);
            ok ==> forall u :: u in us' && u.height != INVALID_HEIGHT ==> u.stage >= STAGE_STARTUP
    decreases |us| - i
  {
    if i < |us| {
      var u := us[i];
      if u.height == INVALID_HEIGHT || u.stage >= STAGE_STARTUP {
        StartupStages(us, binary, i + 1);
      } else {
        StartupStages(us[i := u.(stage := STAGE_STARTUP)], binary, i + 1);
      }
    }
  }

  lemma {:induction false} StartupFits(s: State, binary: Binary, h: Height)
    requires GoodState(s, h)
    ensures var (s', r) := Startup(s, binary); r == Done ==> AllFit(s'.pending)
  {
    var (s', r) := Startup(s, binary);
    StartupGood(s, binary, h);
    if r == Done {
      StartupStages(s.pending, binary, 0);
      forall u | u in s'.pending ensures Fits(u) {
        var k :| 0 <= k < |s'.pending| && s'.pending[k] == u;
        assert InPast(s'.pending[k], h) && !s'.pending[k].Completed();
        assert u in Live(StartupLoop(s.pending, binary, 0).0);
      }
    }
  }

  /** A restarted node that completes its startup upgrades never pushes a stage out of order next. */
  lemma {:induction false} StartupThenConsensus(s: State, binary: Binary, block: Block, h: Height)
    requires GoodState(s, h)
    ensures var (s', r) := Startup(s, binary);
            r == Done ==> Consensus(s', binary, block).1 != PanicOutOfOrder
  {
    hide Startup, Consensus, AllFit;
    StartupFits(s, binary, h);
    var (s', r) := Startup(s, binary);
    if r == Done {
      FittingNeverPanics(s', binary, block);
    }
  }

  lemma {:induction false} EditFits(s: State, d: Option<Descriptor>, h: Height)
    requires GoodState(s, h) && AllFit(s.pending)
    ensures AllFit(Submit(s, d).0.pending) && AllFit(Cancel(s, d).0.pending)
  {
    if d.Some? {
      RemoveGood(s.pending, d.value, h);
    }
  }

  lemma {:induction false} EditKeepsStop(s: State, d: Option<Descriptor>)
    ensures Submit(s, d).0.shouldStop == s.shouldStop && Cancel(s, d).0.shouldStop == s.shouldStop
    ensures !IsPanic(Submit(s, d).1) && !IsPanic(Cancel(s, d).1)
  {
    hide Live, Remove, Has, InProgress, Write;
  }

  /**
   * Whether the node may go on to the next block: it has completed its startup
   * upgrades since it started, and no consensus call has failed since then.
   */
  predicate Prepared(p: Process, ops: seq<Op>) {
    if ops == [] then false
    else
      var front, op := ops[..|ops| - 1], ops[|ops| - 1];
      var r := Next(Run(p, front), op).1;
      match op
      case RestartOp(_) => false
      case CloseOp => false
      case StartupOp(_) => r == Done
      case ConsensusOp(_, _) => Prepared(p, front) && (r == Done || r == StopForUpgrade)
      case SubmitOp(_) => Prepared(p, front)
      case CancelOp(_) => Prepared(p, front)
  }

  /** Every consensus call is made by a node that may go on. */
  predicate Disciplined(p: Process, ops: seq<Op>) {
    ops == [] || (
      && Disciplined(p, ops[..|ops| - 1])
      && (ops[|ops| - 1].ConsensusOp? ==> Prepared(p, ops[..|ops| - 1])))
  }

  predicate FitProcess(p: Process) {
    p.Running? && (p.state.shouldStop || AllFit(p.state.pending))
  }

  lemma {:induction false} NextFits(p: Process, op: Op, h: Height)
    requires GoodProcess(p, h) && Follows(op, h)
    requires op.ConsensusOp? || op.SubmitOp? || op.CancelOp? ==> FitProcess(p)
    ensures var (p', r) := Next(p, op);
            && r != PanicOutOfOrder
            && (op.StartupOp? && r == Done ==> FitProcess(p'))
            && (op.ConsensusOp? && (r == Done || r == StopForUpgrade) ==> FitProcess(p'))
            && (op.SubmitOp? || op.CancelOp? ==> FitProcess(p'))
  {
    hide Submit, Cancel, Startup, Consensus, Flush, Restart, AllFit;
    match op
    case SubmitOp(d) => EditKeeps(p.state, d, h);
    case CancelOp(d) => EditKeeps(p.state, d, h);
    case ConsensusOp(binary, block) =>
      FittingNeverPanics(p.state, binary, block);
      ConsensusFits(p.state, binary, block, h);
      ConsensusGood(p.state, binary, block, h);
    case StartupOp(binary) =>
      if p.Running? {
        StartupFits(p.state, binary, h);
        StartupOutcome(p.state, binary);
      }
    case RestartOp(binary) => RestartGood(DiskOf(p), binary, h);
    case CloseOp => if p.Running? { FlushMeaning(p.state, h); }
  }

  lemma {:induction false} EditKeeps(s: State, d: Option<Descriptor>, h: Height)
    requires GoodState(s, h) && (s.shouldStop || AllFit(s.pending))
    ensures !IsPanic(Submit(s, d).1) && !IsPanic(Cancel(s, d).1)
    ensures Submit(s, d).0.shouldStop || AllFit(Submit(s, d).0.pending)
    ensures Cancel(s, d).0.shouldStop || AllFit(Cancel(s, d).0.pending)
  {
    hide Submit, Cancel;
    EditKeepsStop(s, d);
    if !s.shouldStop {
      EditFits(s, d, h);
    }
  }

  lemma {:induction false} PreparedFits(p: Process, ops: seq<Op>, h: Height)
    requires GoodProcess(p, h) && Monotone(ops, h) && Prepared(p, ops) && Disciplined(p, ops)
    ensures FitProcess(Run(p, ops))
  {
    hide Next, FitProcess;
    var front, op := ops[..|ops| - 1], ops[|ops| - 1];
    RunGood(p, front, h);
    if !op.StartupOp? {
      PreparedFits(p, front, h);
    }
    NextFits(Run(p, front), op, LastHeight(front, h));
  }

  /**
   * A node that completes its startup upgrades after every start, and stops
   * when a consensus call fails, never pushes a stage out of order, whatever
   * the store, the handlers and the binary do.
   */
  lemma {:induction false} DisciplinedNeverPanics(oracle: nat -> bool, ops: seq<Op>, op: Op)
    requires var init := Down(Disk(None, 0, oracle)); Monotone(ops + [op], 0) && Disciplined(init, ops + [op])
    ensures Next(Run(Down(Disk(None, 0, oracle)), ops), op).1 != PanicOutOfOrder
  {
    hide Next, FitProcess;
    var init := Down(Disk(None, 0, oracle));
    var all := ops + [op];
    assert all[..|all| - 1] == ops;
    RunGood(init, ops, 0);
    var p := Run(init, ops);
    if op.ConsensusOp? {
      PreparedFits(init, ops, 0);
      NextFits(p, op, LastHeight(ops, 0));
    } else if op.SubmitOp? || op.CancelOp? {
      EditNeverPanics(p, op);
    } else {
      NextFits(p, op, LastHeight(ops, 0));
    }
  }

  lemma {:induction false} EditNeverPanics(p: Process, op: Op)
    requires op.SubmitOp? || op.CancelOp?
    ensures Next(p, op).1 != PanicOutOfOrder
  {
    hide Submit, Cancel;
    if p.Running? {
      EditKeepsStop(p.state, op.d);
    }
  }
}
