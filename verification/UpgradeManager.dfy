/**
 * The upgrade manager as it runs: a list of shared records updated in place,
 * beside a persistent store. Every method is proved against `UpgradeModel`.
 */
module UpgradeManagers {
  import opened Wrappers
  import opened UpgradeModel

  class PendingUpgrade {
    const descriptor: Descriptor
    var height: Height
    var stage: nat

    constructor (descriptor: Descriptor)
      ensures Value() == Upgrade(descriptor, INVALID_HEIGHT, 0)
    {
      this.descriptor := descriptor;
      height := INVALID_HEIGHT;
      stage := 0;
    }

    constructor Decode(u: Upgrade)
      ensures Value() == u
    {
      descriptor := u.descriptor;
      height := u.height;
      stage := u.stage;
    }

    function Value(): Upgrade
      reads this
    {
      Upgrade(descriptor, height, stage)
    }
  }

  class Store {
    var data: Option<seq<Upgrade>>
    var calls: nat
    const oracle: nat -> bool

    constructor (oracle: nat -> bool)
      ensures Snapshot() == Disk(None, 0, oracle)
    {
      data := None;
      calls := 0;
      this.oracle := oracle;
    }

    function Snapshot(): Disk
      reads this
    {
      Disk(data, calls, oracle)
    }

    method Get() returns (ok: bool, us: Option<seq<Upgrade>>)
      modifies this
      ensures Snapshot() == old(Snapshot()).(calls := old(calls) + 1)
      ensures ok == oracle(old(calls)) && us == data
    {
      ok := oracle(calls);
      calls := calls + 1;
      us := data;
    }

    method Put(us: seq<Upgrade>) returns (ok: bool)
      requires us != []
      modifies this
      ensures (Snapshot(), ok) == Write(old(Snapshot()), us)
    {
      ok := oracle(calls);
      calls := calls + 1;
      if ok { data := Some(us); }
    }

    method Delete() returns (ok: bool)
      modifies this
      ensures (Snapshot(), ok) == Write(old(Snapshot()), [])
    {
      ok := oracle(calls);
      calls := calls + 1;
      if ok { data := None; }
    }
  }

  function View(us: seq<PendingUpgrade>): (r: seq<Upgrade>)
    reads us
    ensures |r| == |us|
    ensures forall i :: 0 <= i < |us| ==> r[i] == us[i].Value()
  {
    seq(|us|, i requires 0 <= i < |us| reads us => us[i].Value())
  }

  ghost function LiveOf(us: seq<PendingUpgrade>): (r: seq<PendingUpgrade>)
    reads us
    ensures forall u :: u in r ==> u in us
  {
    if us == [] then []
    else
      var front, u := LiveOf(us[..|us| - 1]), us[|us| - 1];
      if u.Value().Completed() then front else front + [u]
  }

  lemma {:induction false} ViewLive(us: seq<PendingUpgrade>)
    ensures View(LiveOf(us)) == Live(View(us))
  {
    if us != [] {
      var front, u := us[..|us| - 1], us[|us| - 1];
      ViewLive(front);
      assert View(us)[..|us| - 1] == View(front);
      assert View(LiveOf(front) + [u]) == View(LiveOf(front)) + [u.Value()];
    }
  }

  predicate Unaliased(us: seq<PendingUpgrade>) {
    forall i, j :: 0 <= i < j < |us| ==> us[i] != us[j]
  }

  // ---- the list that the consensus loop walks over ----

  ghost function Select(us: seq<PendingUpgrade>, listed: seq<bool>): (r: seq<PendingUpgrade>)
    requires |us| == |listed|
    ensures forall u :: u in r ==> u in us
    decreases |us|
  {
    if us == [] then []
    else
      var n := |us| - 1;
      var front := Select(us[..n], listed[..n]);
      if listed[n] then front + [us[n]] else front
  }

  ghost function ItemsOf(us: seq<PendingUpgrade>, listed: seq<bool>): (r: seq<Item>)
    requires |us| == |listed|
    reads us
    ensures |r| == |us|
    ensures forall i :: 0 <= i < |us| ==> r[i] == Item(us[i].Value(), listed[i])
  {
    seq(|us|, i requires 0 <= i < |us| reads us => Item(us[i].Value(), listed[i]))
  }

  ghost function Dropped(us: seq<PendingUpgrade>, listed: seq<bool>): (r: seq<bool>)
    requires |us| == |listed|
    reads us
    ensures |r| == |us|
    ensures forall i :: 0 <= i < |us| ==> r[i] == (listed[i] && !us[i].Value().Completed())
  {
    seq(|us|, i requires 0 <= i < |us| reads us => listed[i] && !us[i].Value().Completed())
  }

  lemma {:induction false} SelectAll(us: seq<PendingUpgrade>)
    ensures Select(us, seq(|us|, _ => true)) == us
  {
    if us != [] {
      var n := |us| - 1;
      assert seq(|us|, _ => true)[..n] == seq(n, _ => true);
      SelectAll(us[..n]);
    }
  }

  lemma {:induction false} SelectUnaliased(us: seq<PendingUpgrade>, listed: seq<bool>)
    requires |us| == |listed| && Unaliased(us)
    ensures Unaliased(Select(us, listed))
    decreases |us|
  {
    if us != [] {
      var n := |us| - 1;
      SelectUnaliased(us[..n], listed[..n]);
      assert us[n] !in us[..n];
    }
  }

  lemma {:induction false} ViewSelect(us: seq<PendingUpgrade>, listed: seq<bool>)
    requires |us| == |listed|
    ensures View(Select(us, listed)) == Listed(ItemsOf(us, listed))
    decreases |us|
  {
    if us != [] {
      var n := |us| - 1;
      ViewSelect(us[..n], listed[..n]);
      assert ItemsOf(us, listed)[..n] == ItemsOf(us[..n], listed[..n]);
      var front := Select(us[..n], listed[..n]);
      assert View(front + [us[n]]) == View(front) + [us[n].Value()];
    }
  }

  lemma {:induction false} LiveSelect(us: seq<PendingUpgrade>, listed: seq<bool>)
    requires |us| == |listed|
    ensures LiveOf(Select(us, listed)) == Select(us, Dropped(us, listed))
    decreases |us|
  {
    if us != [] {
      var n := |us| - 1;
      LiveSelect(us[..n], listed[..n]);
      assert Dropped(us, listed)[..n] == Dropped(us[..n], listed[..n]);
      var front := Select(us[..n], listed[..n]);
      assert (front + [us[n]])[..|front|] == front;
    }
  }

  lemma {:induction false} LiveUnaliased(us: seq<PendingUpgrade>)
    requires Unaliased(us)
    ensures Unaliased(LiveOf(us))
  {
    if us != [] {
      LiveUnaliased(us[..|us| - 1]);
      assert us[|us| - 1] !in us[..|us| - 1];
    }
  }

  lemma {:induction false} FlushSelected(us: seq<PendingUpgrade>, listed: seq<bool>)
    requires |us| == |listed|
    ensures LiveOf(Select(us, listed)) == Select(us, Dropped(us, listed))
    ensures ItemsOf(us, Dropped(us, listed)) == DropCompleted(ItemsOf(us, listed))
    ensures Live(View(Select(us, listed))) == Listed(ItemsOf(us, Dropped(us, listed)))
  {
    LiveSelect(us, listed);
    ViewLive(Select(us, listed));
    ViewSelect(us, Dropped(us, listed));
  }

  lemma {:induction false} ConsensusLoopEnd(items: seq<Item>, disk: Disk, stop: bool, binary: Binary, block: Block)
    ensures ConsensusLoop(items, disk, stop, binary, block, |items|) == Flush(State(Listed(items), disk, stop))
  {
  }

  class UpgradeManager {
    const store: Store
    var pending: seq<PendingUpgrade>
    var shouldStop: bool

    ghost predicate Valid()
      reads this
    {
      Unaliased(pending)
    }

    ghost function Abstract(): State
      reads this, store, pending
    {
      State(View(pending), store.Snapshot(), shouldStop)
    }

    constructor (store: Store)
      ensures Valid() && this.store == store && pending == [] && !shouldStop
    {
      this.store := store;
      pending := [];
      shouldStop := false;
    }

    /** The upgrades that are not completed. */
    method LivePending() returns (live: seq<PendingUpgrade>)
      ensures live == LiveOf(pending)
    {
      live := [];
      for i := 0 to |pending|
        invariant live == LiveOf(pending[..i])
      {
        assert pending[..i + 1][..i] == pending[..i];
        if pending[i].stage < STAGE_CONSENSUS {
          live := live + [pending[i]];
        }
      }
      assert pending[..|pending|] == pending;
    }

    method FlushDescriptor() returns (r: Outcome)
      requires Valid()
      modifies this`pending, store
      ensures Valid() && pending == old(LiveOf(pending))
      ensures (Abstract(), r) == Flush(old(Abstract()))
    {
      hide LiveOf, Live, Unaliased;
      ghost var before := View(pending);
      var live := LivePending();
      ViewLive(pending);
      LiveUnaliased(pending);
      pending := live;
      var ok;
      if pending == [] {
        assert View(pending) == [];
        ok := store.Delete();
      } else {
        ok := store.Put(View(pending));
      }
      assert View(pending) == Live(before);
      r := if ok then Done else StoreFailed;
    }

    method IsPending(d: Descriptor) returns (found: bool)
      ensures found == Has(View(pending), d)
    {
      ghost var us := View(pending);
      for i := 0 to |pending|
        invariant forall k :: 0 <= k < i ==> us[k].descriptor != d
      {
        if pending[i].descriptor == d {
          assert us[i].descriptor == d;
          return true;
        }
      }
      return false;
    }

    method SubmitDescriptor(d: Option<Descriptor>) returns (r: Outcome)
      requires Valid()
      modifies this`pending, store
      ensures Valid()
      ensures (Abstract(), r) == Submit(old(Abstract()), d)
    {
      hide Flush, Has, Live, Write;
      if d.None? { return BadDescriptor; }
      var found := IsPending(d.value);
      if found { return AlreadyPending; }
      ghost var us := View(pending);
      var pu := new PendingUpgrade(d.value);
      assert View(pending + [pu]) == us + [pu.Value()];
      pending := pending + [pu];
      r := FlushDescriptor();
    }

    /** The upgrades that remain, unless the one to cancel is in progress. */
    method Without(d: Descriptor) returns (kept: seq<PendingUpgrade>, ok: bool)
      requires Valid()
      ensures ok == !InProgress(View(pending), d)
      ensures ok ==> View(kept) == Remove(View(pending), d)
      ensures ok ==> Unaliased(kept) && forall u :: u in kept ==> u in pending
    {
      ghost var us := View(pending);
      kept := [];
      for i := 0 to |pending|
        invariant View(kept) == Remove(us[..i], d)
        invariant !InProgress(us[..i], d)
        invariant Unaliased(kept) && forall k :: 0 <= k < |kept| ==> kept[k] in pending[..i]
      {
        assert us[..i + 1][..i] == us[..i] && us[..i + 1] == us[..i] + [us[i]];
        if pending[i].descriptor != d {
          assert View(kept + [pending[i]]) == View(kept) + [us[i]];
          assert forall k :: 0 <= k < |kept| ==> kept[k] != pending[i];
          kept := kept + [pending[i]];
        } else if pending[i].height != INVALID_HEIGHT || pending[i].stage > 0 {
          assert us[i].descriptor == d;
          return kept, false;
        }
      }
      assert us[..|us|] == us;
      ok := true;
    }

    method CancelUpgrade(d: Option<Descriptor>) returns (r: Outcome)
      requires Valid()
      modifies this`pending, store
      ensures Valid()
      ensures (Abstract(), r) == Cancel(old(Abstract()), d)
    {
      hide Flush, InProgress, Remove, Live, Write, LiveOf, Unaliased, View;
      if d.None? { return BadDescriptor; }
      if pending == [] {
        r := FlushDescriptor();
        return;
      }
      var kept, ok := Without(d.value);
      if !ok { return UpgradeInProgress; }
      var oldPending := pending;
      pending := kept;
      r := FlushDescriptor();
      if r != Done {
        pending := oldPending;
      }
    }

    /** Runs the startup stages, stopping at the first handler that fails. */
    method RunStartups(binary: Binary) returns (ok: bool)
      requires Valid()
      modifies pending
      ensures (View(pending), ok) == StartupLoop(old(View(pending)), binary, 0)
    {
      ghost var expected := StartupLoop(View(pending), binary, 0);
      for i := 0 to |pending|
        invariant StartupLoop(View(pending), binary, i) == expected
      {
        var pu := pending[i];
        if pu.height != INVALID_HEIGHT && pu.stage < STAGE_STARTUP {
          if !binary.hasHandler(pu.descriptor) || !binary.startupSucceeds(pu.descriptor) {
            return false;
          }
          ghost var us := View(pending);
          pu.stage := STAGE_STARTUP;
          assert View(pending) == us[i := us[i].(stage := STAGE_STARTUP)];
        }
      }
      return true;
    }

    method StartupUpgrade(binary: Binary) returns (r: Outcome)
      requires Valid()
      modifies this`pending, store, pending
      ensures Valid()
      ensures (Abstract(), r) == Startup(old(Abstract()), binary)
    {
      hide Flush, StartupLoop, Live, Write;
      var ok := RunStartups(binary);
      if !ok { return HandlerFailed; }
      r := FlushDescriptor();
    }

    /** Records the height of an upgrade whose epoch has come. */
    method SetHeight(
      height: Height, ghost all: seq<PendingUpgrade>, ghost listed: seq<bool>, ghost i: nat, pu: PendingUpgrade)
      returns (r: Outcome, ghost listed': seq<bool>)
      requires Unaliased(all) && |listed| == |all| && pending == Select(all, listed)
      requires i < |all| && pu == all[i]
      modifies this`pending, store, pu`height
      ensures |listed'| == |all| && pending == Select(all, listed')
      ensures ItemsOf(all, listed') == Reached(old(ItemsOf(all, listed)), i, height)
      ensures (store.Snapshot(), r == Done) == Write(old(store.Snapshot()), Listed(ItemsOf(all, listed')))
      ensures r == Done || r == StoreFailed
    {
      hide Live, Write, Listed, LiveOf, Select;
      ghost var items := ItemsOf(all, listed);
      pu.height := height;
      assert ItemsOf(all, listed) == items[i := Item(items[i].upgrade.(height := height), items[i].listed)];
      SelectUnaliased(all, listed);
      FlushSelected(all, listed);
      listed' := Dropped(all, listed);
      r := FlushDescriptor();
    }

    /** What is left to do for an upgrade that has been reached. */
    method Advance(pu: PendingUpgrade, binary: Binary, block: Block) returns (r: Outcome)
      modifies pu`stage
      ensures (pu.Value(), r) == Apply(old(pu.Value()), binary, block)
    {
      if pu.height < block.height {
        if pu.stage + 1 != STAGE_CONSENSUS { return PanicOutOfOrder; }
        pu.stage := STAGE_CONSENSUS;
        return Done;
      }
      if pu.height > block.height { return PanicFutureHeight; }
      if pu.stage < STAGE_CONSENSUS && block.hasContext {
        if !binary.hasHandler(pu.descriptor) || !binary.consensusSucceeds(pu.descriptor) {
          return HandlerFailed;
        }
      }
      return Done;
    }

    /** Whether the upgrade cannot be carried out in place. */
    static method NeedsRestart(d: Descriptor, binary: Binary) returns (stop: bool)
      ensures stop <==> MustStop(d, binary)
    {
      if !binary.compatible(d) { return true; }
      if !binary.hasHandler(d) { return true; }
      return binary.hasStartup(d);
    }

    /** The upgrade epoch has come: record the height, and go on only if no restart is needed. */
    method Reach(
      binary: Binary, block: Block, ghost all: seq<PendingUpgrade>, ghost listed: seq<bool>, ghost i: nat,
      pu: PendingUpgrade)
      returns (r: Outcome, ghost listed': seq<bool>)
      requires Unaliased(all) && |listed| == |all| && pending == Select(all, listed)
      requires i < |all| && pu == all[i] && pu.height == INVALID_HEIGHT && block.epoch >= pu.descriptor.epoch
      modifies this, store, pu
      ensures |listed'| == |all| && pending == Select(all, listed')
      ensures ConsensusLoop(old(ItemsOf(all, listed)), old(store.Snapshot()), old(shouldStop), binary, block, i)
              == if r == Done then Continue(ItemsOf(all, listed'), store.Snapshot(), shouldStop, binary, block, i)
                 else (Abstract(), r)
    {
      hide Write, Listed, Select, Continue, View, MustStop;
      r, listed' := SetHeight(block.height, all, listed, i, pu);
      ViewSelect(all, listed');
      if r != Done { return; }
      shouldStop := NeedsRestart(pu.descriptor, binary);
      if shouldStop {
        r := StopForUpgrade;
      } else if pu.stage + 1 != STAGE_STARTUP {
        r := PanicOutOfOrder;
      } else {
        Start(all, listed', i, pu);
      }
    }

    /** The upgrade goes on in place. */
    static method Start(
      ghost all: seq<PendingUpgrade>, ghost listed: seq<bool>, ghost i: nat, pu: PendingUpgrade)
      requires Unaliased(all) && |listed| == |all| && i < |all| && pu == all[i]
      modifies pu`stage
      ensures var items := old(ItemsOf(all, listed));
              ItemsOf(all, listed) == items[i := Item(items[i].upgrade.(stage := STAGE_STARTUP), items[i].listed)]
    {
      pu.stage := STAGE_STARTUP;
    }

    /** One turn of the consensus loop. */
    method Visit(
      binary: Binary, block: Block, ghost all: seq<PendingUpgrade>, ghost listed: seq<bool>, ghost i: nat,
      pu: PendingUpgrade)
      returns (r: Outcome, ghost listed': seq<bool>)
      requires Unaliased(all) && |listed| == |all| && pending == Select(all, listed)
      requires i < |all| && pu == all[i]
      modifies this, store, pu
      ensures |listed'| == |all| && pending == Select(all, listed')
      ensures ConsensusLoop(old(ItemsOf(all, listed)), old(store.Snapshot()), old(shouldStop), binary, block, i)
              == if r == Done
                 then ConsensusLoop(ItemsOf(all, listed'), store.Snapshot(), shouldStop, binary, block, i + 1)
                 else (Abstract(), r)
    {
      hide Write, Listed, Select, Reached, View, Apply, MustStop;
      listed' := listed;
      if pu.height == INVALID_HEIGHT {
        if block.epoch < pu.descriptor.epoch { return Done, listed; }
        r, listed' := Reach(binary, block, all, listed, i, pu);
        if r != Done { return; }
      }
      ghost var items := ItemsOf(all, listed');
      assert ConsensusLoop(old(ItemsOf(all, listed)), old(store.Snapshot()), old(shouldStop), binary, block, i)
          == Continue(items, store.Snapshot(), shouldStop, binary, block, i);
      r := Advance(pu, binary, block);
      assert ItemsOf(all, listed') == items[i := Item(pu.Value(), items[i].listed)];
      ViewSelect(all, listed');
    }

    method ConsensusUpgrade(binary: Binary, block: Block) returns (r: Outcome)
      requires Valid()
      modifies this, store, pending
      ensures Valid()
      ensures (Abstract(), r) == Consensus(old(Abstract()), binary, block)
    {
      hide ConsensusLoop, Select, View, Listed;
      if shouldStop { return StopForUpgrade; }
      var all := pending;
      ghost var listed := seq(|all|, _ => true);
      SelectAll(all);
      assert ItemsOf(all, listed) == Items(View(all));
      ghost var expected := ConsensusLoop(ItemsOf(all, listed), store.Snapshot(), shouldStop, binary, block, 0);
      for i := 0 to |all|
        invariant |listed| == |all| && pending == Select(all, listed)
        invariant ConsensusLoop(ItemsOf(all, listed), store.Snapshot(), shouldStop, binary, block, i) == expected
      {
        r, listed := Visit(binary, block, all, listed, i, all[i]);
        if r != Done {
          SelectUnaliased(all, listed);
          return;
        }
      }
      SelectUnaliased(all, listed);
      ViewSelect(all, listed);
      ConsensusLoopEnd(ItemsOf(all, listed), store.Snapshot(), shouldStop, binary, block);
      r := FlushDescriptor();
    }

    /** Decodes a stored list into records of its own. */
    static method Decode(us: seq<Upgrade>) returns (r: seq<PendingUpgrade>)
      ensures View(r) == us && Unaliased(r) && forall u :: u in r ==> fresh(u)
    {
      r := [];
      for i := 0 to |us|
        invariant View(r) == us[..i] && Unaliased(r)
        invariant forall k :: 0 <= k < |r| ==> fresh(r[k])
      {
        var u := new PendingUpgrade.Decode(us[i]);
        assert View(r + [u]) == us[..i] + [us[i]];
        r := r + [u];
      }
    }

    /** Whether the binary can carry out every upgrade that has been reached. */
    method AllReady(binary: Binary) returns (ok: bool)
      ensures ok == forall i :: 0 <= i < |pending| ==> Ready(View(pending)[i], binary)
    {
      for i := 0 to |pending|
        invariant forall k :: 0 <= k < i ==> Ready(View(pending)[k], binary)
      {
        var u := pending[i];
        if u.stage < STAGE_CONSENSUS && u.height != INVALID_HEIGHT {
          if !binary.compatible(u.descriptor) || !binary.hasHandler(u.descriptor) {
            assert !Ready(View(pending)[i], binary);
            return false;
          }
        }
      }
      return true;
    }

    /** Loads the pending upgrades when a new process starts. */
    method CheckStatus(binary: Binary) returns (r: Outcome)
      requires !shouldStop
      modifies this`pending, store
      ensures Valid()
      ensures (Abstract(), r) == Restart(old(store.Snapshot()), binary)
    {
      hide Flush, Ready, Live, Write;
      pending := [];
      var ok, us := store.Get();
      if !ok { return StoreFailed; }
      if us.None? { return Done; }
      pending := Decode(us.value);
      ok := AllReady(binary);
      if !ok { return Incompatible; }
      r := FlushDescriptor();
    }
  }
}
