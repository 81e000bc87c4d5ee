/** Registering and updating runtimes, and what holds over the whole life of one. */
module RuntimeUpdates {
  import opened Wrappers
  import opened Deployments

  datatype Verdict = Accepted | Rejected | Panicked

  function TeeBytes(d: VersionInfo): Bytes {
    if d.tee.None? then [] else d.tee.value
  }

  /** `VersionInfo.Equal`: absent and empty TEE data count as equal. */
  predicate Equal(d: VersionInfo, e: VersionInfo) {
    && d.version == e.version && d.validFrom == e.validFrom
    && TeeBytes(d) == TeeBytes(e) && d.bundleChecksum == e.bundleChecksum
  }

  predicate SameDeployment(d: Option<VersionInfo>, e: Option<VersionInfo>) {
    (d.None? && e.None?) || (d.Some? && e.Some? && Equal(d.value, e.value))
  }

  /** What may not change: identity, kind, genesis, a key manager once set, governance. */
  predicate IdentityKept(current: Runtime, updated: Runtime) {
    && current.id == updated.id && current.kind == updated.kind && current.genesis == updated.genesis
    && (current.keyManager.Some? ==> updated.keyManager == current.keyManager)
    && (current.governanceModel == updated.governanceModel
        || (current.governanceModel.GovernanceEntity? && updated.governanceModel.GovernanceRuntime?))
    && (updated.governanceModel.GovernanceRuntime? ==> updated.kind.KindCompute?)
  }

  /** Nothing in force is altered or added, and the active deployment stays. */
  predicate ScheduleKept(current: Runtime, updated: Runtime, now: Epoch) {
    && (forall d :: d in updated.deployments ==>
          d.validFrom > now || exists e :: e in current.deployments && Equal(d, e))
    && SameDeployment(Active(current.deployments, now), Active(updated.deployments, now))
  }

  function UpdateVerdict(current: Runtime, updated: Runtime, now: Epoch, params: Parameters): Verdict {
    if !IdentityKept(current, updated) then Rejected
    else if !ValidDeployments(current, now, params) then Panicked
    else if ValidDeployments(updated, now, params) && ScheduleKept(current, updated, now) then Accepted
    else Rejected
  }

  method CheckIdentity(current: Runtime, updated: Runtime) returns (ok: bool)
    ensures ok <==> IdentityKept(current, updated)
  {
    if current.id != updated.id {
      return false;
    }
    if current.kind != updated.kind {
      return false;
    }
    if current.genesis != updated.genesis {
      return false;
    }
    if current.keyManager.Some? && updated.keyManager.None? {
      return false;
    }
    if current.keyManager.Some? && current.keyManager != updated.keyManager {
      return false;
    }
    if current.governanceModel != updated.governanceModel {
      if !(current.governanceModel == GovernanceEntity && updated.governanceModel == GovernanceRuntime) {
        return false;
      }
    }
    if updated.governanceModel == GovernanceRuntime && updated.kind != KindCompute {
      return false;
    }
    return true;
  }

  /** The deployments by version; no two share one. */
  method ByVersion(deployments: seq<VersionInfo>) returns (m: map<Version, VersionInfo>)
    requires DistinctVersions(deployments)
    ensures forall d :: d in deployments ==> d.version in m && m[d.version] == d
    ensures forall v :: v in m ==> m[v] in deployments && m[v].version == v
  {
    m := map[];
    for i := 0 to |deployments|
      invariant forall k :: 0 <= k < i ==> deployments[k].version in m && m[deployments[k].version] == deployments[k]
      invariant forall v :: v in m ==> m[v] in deployments && m[v].version == v
    {
      m := m[deployments[i].version := deployments[i]];
    }
  }

  method CheckChanges(
    existing: map<Version, VersionInfo>, updated: map<Version, VersionInfo>, now: Epoch)
    returns (ok: bool)
    ensures ok <==> forall v :: v in updated ==>
                      updated[v].validFrom > now || (v in existing && Equal(updated[v], existing[v]))
  {
    var todo := updated.Keys;
    while todo != {}
      invariant todo <= updated.Keys
      invariant forall v :: v in updated && v !in todo ==>
                  updated[v].validFrom > now || (v in existing && Equal(updated[v], existing[v]))
    {
      var version :| version in todo;
      todo := todo - {version};
      var newInfo := updated[version];
      if version in existing && Equal(newInfo, existing[version]) {
        continue;
      }
      if newInfo.validFrom <= now {
        return false;
      }
    }
    return true;
  }

  method VerifyRuntimeUpdate(current: Runtime, updated: Runtime, now: Epoch, params: Parameters) returns (v: Verdict)
    ensures v == UpdateVerdict(current, updated, now, params)
  {
    hide IdentityKept, WellFormed, Increasing, AtMostOneFuture;
    var identity := CheckIdentity(current, updated);
    if !identity {
      return Rejected;
    }
    var active := ActiveDeployment(current.deployments, now);
    var valid := ValidateDeployments(current, now, params);
    if !valid {
      return Panicked;
    }
    var existing := ByVersion(current.deployments);
    var newActive := ActiveDeployment(updated.deployments, now);
    valid := ValidateDeployments(updated, now, params);
    if !valid {
      return Rejected;
    }
    var newDeployments := ByVersion(updated.deployments);
    var unaltered := CheckChanges(existing, newDeployments, now);
    ChangesMeaning(current, updated, now, existing, newDeployments);
    if !unaltered {
      return Rejected;
    }
    if active.Some? {
      if newActive.None? || !Equal(active.value, newActive.value) {
        return Rejected;
      }
    } else if newActive.Some? {
      return Rejected;
    }
    return Accepted;
  }

  lemma {:induction false} ChangesMeaning(
    current: Runtime, updated: Runtime, now: Epoch, existing: map<Version, VersionInfo>,
    changed: map<Version, VersionInfo>)
    requires forall d :: d in current.deployments ==> d.version in existing && existing[d.version] == d
    requires forall v :: v in existing ==> existing[v] in current.deployments && existing[v].version == v
    requires forall d :: d in updated.deployments ==> d.version in changed && changed[d.version] == d
    requires forall v :: v in changed ==> changed[v] in updated.deployments && changed[v].version == v
    ensures (forall v :: v in changed ==>
            changed[v].validFrom > now || (v in existing && Equal(changed[v], existing[v])))
        <==> (forall d :: d in updated.deployments ==>
                d.validFrom > now || exists e :: e in current.deployments && Equal(d, e))
  {
    if forall d :: d in updated.deployments ==>
        d.validFrom > now || exists e :: e in current.deployments && Equal(d, e) {
      forall v | v in changed
        ensures changed[v].validFrom > now || (v in existing && Equal(changed[v], existing[v]))
      {
        var d := changed[v];
        if d.validFrom <= now {
          var e :| e in current.deployments && Equal(d, e);
          assert existing[e.version] == e;
        }
      }
    }
    if forall v :: v in changed ==> changed[v].validFrom > now || (v in existing && Equal(changed[v], existing[v])) {
      forall d | d in updated.deployments
        ensures d.validFrom > now || exists e :: e in current.deployments && Equal(d, e)
      {
        assert changed[d.version] == d;
        if d.validFrom <= now {
          assert existing[d.version] in current.deployments && Equal(d, existing[d.version]);
        }
      }
    }
  }

  /** Outside genesis a new runtime may not be active at once. */
  method VerifyRuntimeNew(rt: Runtime, now: Epoch, params: Parameters, isGenesis: bool) returns (ok: bool)
    ensures ok <==> isGenesis || params.debugDeployImmediately
                    || forall d :: d in rt.deployments ==> d.validFrom > now
  {
    if !(isGenesis || params.debugDeployImmediately) {
      var active := ActiveDeployment(rt.deployments, now);
      if active.Some? {
        return false;
      }
    }
    return true;
  }

  // ---- valid schedules ----

  /** A schedule that is valid now stays valid. */
  lemma {:induction false} ValidLater(rt: Runtime, now: Epoch, later: Epoch, params: Parameters)
    requires ValidDeployments(rt, now, params) && now <= later
    ensures ValidDeployments(rt, later, params)
  {
  }

  /**
   * In a valid schedule the active deployment has the highest version in
   * force, and there is only one future deployment.
   */
  lemma {:induction false} ActiveIsHighest(rt: Runtime, now: Epoch, params: Parameters, d: VersionInfo)
    requires ValidDeployments(rt, now, params) && d in rt.deployments
    ensures var active := Active(rt.deployments, now);
            && (d.validFrom <= now ==> active.Some? && d.version <= active.value.version)
            && (d.validFrom > now && active.Some? ==> active.value.version < d.version)
            && forall e :: e in rt.deployments && e.validFrom > now && d.validFrom > now ==> e == d
  {
    var active := Active(rt.deployments, now);
    if d.validFrom > now && active.Some? && d.version <= active.value.version {
      SameVersion(rt.deployments, d, active.value);
      assert false;
    }
  }

  lemma {:induction false} SameVersion(deployments: seq<VersionInfo>, d: VersionInfo, e: VersionInfo)
    requires DistinctVersions(deployments) && d in deployments && e in deployments && d.version == e.version
    ensures d == e
  {
  }

  // ---- the life of a runtime ----

  datatype Acceptance = Acceptance(epoch: Epoch, descriptor: Runtime)

  /** The current epoch and descriptor, and every descriptor accepted so far. */
  datatype Registry = Registry(now: Epoch, runtime: Runtime, log: seq<Acceptance>)

  datatype Step = Advance(epochs: nat) | Update(descriptor: Runtime)

  /** A registration outside genesis, with immediate deployment off. */
  predicate Registrable(rt: Runtime, now: Epoch, params: Parameters) {
    && ValidDeployments(rt, now, params)
    && forall d :: d in rt.deployments ==> d.validFrom > now
  }

  function Register(rt: Runtime, now: Epoch): (r: Registry) {
    Registry(now, rt, [Acceptance(now, rt)])
  }

  function Next(r: Registry, step: Step, params: Parameters): (r': Registry) {
    match step
    case Advance(epochs) => r.(now := r.now + epochs)
    case Update(descriptor) =>
      if UpdateVerdict(r.runtime, descriptor, r.now, params) == Accepted
      then Registry(r.now, descriptor, r.log + [Acceptance(r.now, descriptor)])
      else r
  }

  function Run(r: Registry, steps: seq<Step>, params: Parameters): (r': Registry) {
    if steps == [] then r
    else Next(Run(r, steps[..|steps| - 1], params), steps[|steps| - 1], params)
  }

  /** The same in every field; absent and empty TEE data do not differ. */
  predicate Unaltered(d: VersionInfo, e: VersionInfo) {
    && d.version == e.version && d.validFrom == e.validFrom && d.bundleChecksum == e.bundleChecksum
    && (d.tee == e.tee || (d.tee in {None, Some([])} && e.tee in {None, Some([])}))
  }

  lemma {:induction false} EqualMeans(d: VersionInfo, e: VersionInfo)
    ensures Equal(d, e) <==> Unaltered(d, e)
  {
  }

  /**
   * Of a runtime whose schedule is valid, exactly those updates are accepted
   * that keep its identity, leave a valid schedule, alter or add nothing that
   * is in force, and keep the active deployment.
   */
  lemma {:induction false} AcceptedExactly(current: Runtime, updated: Runtime, now: Epoch, params: Parameters)
    requires ValidDeployments(current, now, params)
    ensures var active, active' := Active(current.deployments, now), Active(updated.deployments, now);
            UpdateVerdict(current, updated, now, params) == Accepted <==>
            && updated.id == current.id && updated.kind == current.kind && updated.genesis == current.genesis
            && (current.keyManager == None || updated.keyManager == current.keyManager)
            && (|| updated.governanceModel == current.governanceModel
                || (current.governanceModel == GovernanceEntity && updated.governanceModel == GovernanceRuntime))
            && (updated.governanceModel == GovernanceRuntime ==> updated.kind == KindCompute)
            && ValidDeployments(updated, now, params)
            && (forall d :: d in updated.deployments && d.validFrom <= now ==>
                  exists e :: e in current.deployments && Unaltered(d, e))
            && (active.Some? <==> active'.Some?)
            && (active.Some? ==> Unaltered(active.value, active'.value))
  {
    hide ValidDeployments, Unaltered, Equal;
    forall d: VersionInfo, e: VersionInfo ensures Equal(d, e) <==> Unaltered(d, e) {
      EqualMeans(d, e);
    }
  }

  /** d was listed, as it is, in a descriptor accepted strictly before it took effect. */
  ghost predicate Announced(d: VersionInfo, log: seq<Acceptance>) {
    exists i, e :: 0 <= i < |log| && e in log[i].descriptor.deployments && Unaltered(d, e) && log[i].epoch < d.validFrom
  }

  ghost predicate RunInv(r: Registry, params: Parameters) {
    && ValidDeployments(r.runtime, r.now, params)
    && forall d :: d in r.runtime.deployments ==> Announced(d, r.log)
  }

  /** The active deployment of the later state is there and no older. */
  ghost predicate NoRegress(r: Registry, r': Registry) {
    var active, active' := Active(r.runtime.deployments, r.now), Active(r'.runtime.deployments, r'.now);
    active.Some? ==> active'.Some? && active.value.version <= active'.value.version
  }

  lemma {:induction false} AnnouncedLonger(d: VersionInfo, e: VersionInfo, log: seq<Acceptance>, more: seq<Acceptance>)
    requires Announced(e, log) && Unaltered(d, e)
    ensures Announced(d, log + more)
  {
    var i, f :| 0 <= i < |log| && f in log[i].descriptor.deployments && Unaltered(e, f) && log[i].epoch < e.validFrom;
    assert (log + more)[i] == log[i];
    assert Unaltered(d, f);
  }

  lemma {:induction false} NextInv(r: Registry, step: Step, params: Parameters)
    requires RunInv(r, params)
    ensures RunInv(Next(r, step, params), params)
    ensures NoRegress(r, Next(r, step, params))
    ensures step.Update? ==> UpdateVerdict(r.runtime, step.descriptor, r.now, params) != Panicked
  {
    hide WellFormed, IdentityKept;
    var r' := Next(r, step, params);
    match step
    case Advance(epochs) =>
      ValidLater(r.runtime, r.now, r'.now, params);
      var active := Active(r.runtime.deployments, r.now);
      if active.Some? {
        ActiveIsHighest(r'.runtime, r'.now, params, active.value);
      }
    case Update(descriptor) =>
      if UpdateVerdict(r.runtime, descriptor, r.now, params) == Accepted {
        forall d | d in descriptor.deployments ensures Announced(d, r'.log) {
          if d.validFrom > r.now {
            var i := |r.log|;
            assert r'.log[i] == Acceptance(r.now, descriptor);
            assert Unaltered(d, d);
          } else {
            var e :| e in r.runtime.deployments && Equal(d, e);
            EqualMeans(d, e);
            AnnouncedLonger(d, e, r.log, [Acceptance(r.now, descriptor)]);
          }
        }
      }
  }

  lemma {:induction false} RegisterInv(rt: Runtime, now: Epoch, params: Parameters)
    requires Registrable(rt, now, params)
    ensures RunInv(Register(rt, now), params)
  {
    var r := Register(rt, now);
    forall d | d in rt.deployments ensures Announced(d, r.log) {
      assert r.log[0] == Acceptance(now, rt);
      assert Unaltered(d, d);
    }
  }

  lemma {:induction false} RunKeepsInv(r: Registry, steps: seq<Step>, params: Parameters)
    requires RunInv(r, params)
    ensures RunInv(Run(r, steps, params), params)
  {
    hide RunInv, Next;
    if steps != [] {
      RunKeepsInv(r, steps[..|steps| - 1], params);
      NextInv(Run(r, steps[..|steps| - 1], params), steps[|steps| - 1], params);
    }
  }

  /**
   * In every run of epoch advances and updates after a registration: the
   * schedule in state stays valid, so no update can hit the panic, and every
   * deployment in force, the active one included, was announced in time.
   */
  lemma {:induction false} RunSafe(rt: Runtime, start: Epoch, steps: seq<Step>, params: Parameters, update: Runtime)
    requires Registrable(rt, start, params)
    ensures var r := Run(Register(rt, start), steps, params);
            && ValidDeployments(r.runtime, r.now, params)
            && UpdateVerdict(r.runtime, update, r.now, params) != Panicked
            && (forall d :: d in r.runtime.deployments ==> Announced(d, r.log))
            && (Active(r.runtime.deployments, r.now).Some? ==>
                Announced(Active(r.runtime.deployments, r.now).value, r.log))
  {
    hide ValidDeployments, Announced;
    RegisterInv(rt, start, params);
    RunKeepsInv(Register(rt, start), steps, params);
  }

  /** The active version never decreases and an active deployment never disappears. */
  lemma {:induction false} RunMonotone(rt: Runtime, start: Epoch, steps: seq<Step>, params: Parameters, i: nat)
    requires Registrable(rt, start, params) && i <= |steps|
    ensures NoRegress(Run(Register(rt, start), steps[..i], params), Run(Register(rt, start), steps, params))
    decreases |steps|
  {
    hide RunInv, Next, ValidDeployments;
    var first, last := Register(rt, start), |steps| - 1;
    if i == |steps| {
      assert steps[..i] == steps;
    } else {
      RunMonotone(rt, start, steps[..last], params, i);
      assert steps[..last][..i] == steps[..i];
      RegisterInv(rt, start, params);
      RunKeepsInv(first, steps[..last], params);
      NextInv(Run(first, steps[..last], params), steps[last], params);
    }
  }

  // ---- what is in force is settled ----

  /** Every deployment up to that version was there before, as it is now. */
  ghost predicate Settled(before: seq<VersionInfo>, after: seq<VersionInfo>, version: Version) {
    forall d :: d in after && d.version <= version ==> exists e :: e in before && Unaltered(d, e)
  }

  lemma {:induction false} SettledTwice(
    a: seq<VersionInfo>, b: seq<VersionInfo>, c: seq<VersionInfo>, version: Version, later: Version)
    requires Settled(a, b, version) && Settled(b, c, later) && version <= later
    ensures Settled(a, c, version)
  {
    forall d | d in c && d.version <= version ensures exists e :: e in a && Unaltered(d, e) {
      var e :| e in b && Unaltered(d, e);
      var f :| f in a && Unaltered(e, f);
      assert Unaltered(d, f);
    }
  }

  lemma {:induction false} SettledSame(deployments: seq<VersionInfo>, version: Version)
    ensures Settled(deployments, deployments, version)
  {
    forall d | d in deployments ensures exists e :: e in deployments && Unaltered(d, e) {
      assert Unaltered(d, d);
    }
  }

  /** An update cannot touch or add a deployment up to the active version. */
  lemma {:induction false} NextSettled(r: Registry, step: Step, params: Parameters)
    requires Active(r.runtime.deployments, r.now).Some?
    ensures Settled(r.runtime.deployments, Next(r, step, params).runtime.deployments,
                    Active(r.runtime.deployments, r.now).value.version)
  {
    hide WellFormed, IdentityKept, Increasing, AtMostOneFuture, Settled;
    var active := Active(r.runtime.deployments, r.now).value;
    SettledSame(r.runtime.deployments, active.version);
    if step.Update? && UpdateVerdict(r.runtime, step.descriptor, r.now, params) == Accepted {
      assert Settled(r.runtime.deployments, step.descriptor.deployments, active.version) by {
        forall d | d in step.descriptor.deployments && d.version <= active.version
          ensures exists e :: e in r.runtime.deployments && Unaltered(d, e)
        {
          ActiveIsHighest(step.descriptor, r.now, params, d);
          var e :| e in r.runtime.deployments && Equal(d, e);
          EqualMeans(d, e);
        }
        SettledMeans(r.runtime.deployments, step.descriptor.deployments, active.version);
      }
    }
  }

  lemma {:induction false} SettledMeans(before: seq<VersionInfo>, after: seq<VersionInfo>, version: Version)
    requires forall d :: d in after && d.version <= version ==> exists e :: e in before && Unaltered(d, e)
    ensures Settled(before, after, version)
  {
  }

  /**
   * Once a version has been active, no later update can alter, bring back or
   * slip in a deployment up to that version: whatever the schedule lists there
   * at the end of a run was listed then, with the same start, TEE data and
   * bundle checksum.
   */
  lemma {:induction false} RunSettled(rt: Runtime, start: Epoch, steps: seq<Step>, params: Parameters, i: nat)
    requires Registrable(rt, start, params) && i <= |steps|
    ensures var r, r' := Run(Register(rt, start), steps[..i], params), Run(Register(rt, start), steps, params);
            Active(r.runtime.deployments, r.now).Some? ==>
            Settled(r.runtime.deployments, r'.runtime.deployments, Active(r.runtime.deployments, r.now).value.version)
    decreases |steps|
  {
    hide RunInv, Next, ValidDeployments, Settled, Registrable;
    var first, last := Register(rt, start), |steps| - 1;
    var r := Run(first, steps[..i], params);
    if Active(r.runtime.deployments, r.now).Some? {
      var version := Active(r.runtime.deployments, r.now).value.version;
      if i == |steps| {
        assert steps[..i] == steps;
        SettledSame(r.runtime.deployments, version);
      } else {
        var mid := Run(first, steps[..last], params);
        assert steps[..last][..i] == steps[..i];
        RunSettled(rt, start, steps[..last], params, i);
        RunMonotone(rt, start, steps[..last], params, i);
        NextSettled(mid, steps[last], params);
        SettledTwice(
          r.runtime.deployments, mid.runtime.deployments, Next(mid, steps[last], params).runtime.deployments,
          version, Active(mid.runtime.deployments, mid.now).value.version);
      }
    }
  }

  /** A version that is active in two states of a run is the same deployment in both, field by field. */
  lemma {:induction false} ActiveNeverAltered(rt: Runtime, start: Epoch, steps: seq<Step>, params: Parameters, i: nat)
    requires Registrable(rt, start, params) && i <= |steps|
    ensures var r, r' := Run(Register(rt, start), steps[..i], params), Run(Register(rt, start), steps, params);
            var d, e := Active(r.runtime.deployments, r.now), Active(r'.runtime.deployments, r'.now);
            d.Some? && e.Some? && d.value.version == e.value.version ==>
            && d.value.validFrom == e.value.validFrom
            && d.value.bundleChecksum == e.value.bundleChecksum
            && (if d.value.tee.Some? then d.value.tee.value else [])
               == (if e.value.tee.Some? then e.value.tee.value else [])
  {
    hide Next, Registrable, Settled, RunInv;
    var r, r' := Run(Register(rt, start), steps[..i], params), Run(Register(rt, start), steps, params);
    var d, e := Active(r.runtime.deployments, r.now), Active(r'.runtime.deployments, r'.now);
    RunSettled(rt, start, steps, params, i);
    if d.Some? && e.Some? && d.value.version == e.value.version {
      RegisterInv(rt, start, params);
      RunKeepsInv(Register(rt, start), steps[..i], params);
      assert DistinctVersions(r.runtime.deployments) by { InvDistinct(r, params); }
      SettledVersion(r.runtime.deployments, r'.runtime.deployments, d.value, e.value);
    }
  }

  lemma {:induction false} InvDistinct(r: Registry, params: Parameters)
    requires RunInv(r, params)
    ensures DistinctVersions(r.runtime.deployments)
  {
  }

  lemma {:induction false} SettledVersion(
    before: seq<VersionInfo>, after: seq<VersionInfo>, d: VersionInfo, e: VersionInfo)
    requires d in before && e in after && d.version == e.version
    requires DistinctVersions(before) && Settled(before, after, d.version)
    ensures Unaltered(e, d)
  {
    var f :| f in before && Unaltered(e, f);
    SameVersion(before, d, f);
  }

  /** What a runtime is never changes in a run, and governance only passes from an entity to the runtime. */
  lemma {:induction false} RunIdentity(rt: Runtime, start: Epoch, steps: seq<Step>, params: Parameters, i: nat)
    requires i <= |steps|
    ensures var a := Run(Register(rt, start), steps[..i], params).runtime;
            var b := Run(Register(rt, start), steps, params).runtime;
            && a.id == b.id && a.kind == b.kind && a.genesis == b.genesis
            && (a.keyManager.Some? ==> b.keyManager == a.keyManager)
            && (a.governanceModel != b.governanceModel ==>
                && a.governanceModel == GovernanceEntity
                && b.governanceModel == GovernanceRuntime && b.kind == KindCompute)
    decreases |steps|
  {
    hide ValidDeployments, ScheduleKept;
    var last := |steps| - 1;
    if i == |steps| {
      assert steps[..i] == steps;
    } else {
      assert steps[..last][..i] == steps[..i];
      RunIdentity(rt, start, steps[..last], params, i);
    }
  }
}
