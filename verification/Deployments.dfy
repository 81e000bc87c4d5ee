/**
 * Runtime deployment schedules: which deployments a descriptor may list, which
 * one is active at an epoch, and which changes an update may make.
 */
module Deployments {
  import opened Wrappers

  type Epoch = nat

  /** Versions are compared through an injective encoding as integers. */
  type Version = nat

  type Bytes = seq<bv8>
  type Namespace = Bytes

  datatype VersionInfo = VersionInfo(version: Version, validFrom: Epoch, tee: Option<Bytes>, bundleChecksum: Bytes)

  datatype TeeHardware = TeeInvalid | IntelSgx | TeeReserved

  datatype RuntimeKind = KindInvalid | KindCompute | KindKeyManager

  datatype GovernanceModel = GovernanceEntity | GovernanceRuntime | GovernanceConsensus

  datatype Genesis = Genesis(stateRoot: Bytes, round: nat)

  datatype Runtime = Runtime(
    id: Namespace,
    kind: RuntimeKind,
    genesis: Genesis,
    keyManager: Option<Namespace>,
    governanceModel: GovernanceModel,
    teeHardware: TeeHardware,
    deployments: seq<VersionInfo>)

  /** Whether SGX constraints decode, are valid and name an enclave is foreign code. */
  datatype Parameters = Parameters(
    maxRuntimeDeployments: nat,
    debugDeployImmediately: bool,
    sgxAcceptable: Option<Bytes> -> bool)

  // ---- selection ----

  /**
   * The deployment in force that started last, and among those with the same
   * start the first one listed.
   */
  method ActiveDeployment(deployments: seq<VersionInfo>, now: Epoch) returns (active: Option<VersionInfo>)
    ensures active == Active(deployments, now)
  {
    active := None;
    for i := 0 to |deployments|
      invariant active == Active(deployments[..i], now)
    {
      var deployment := deployments[i];
      assert deployments[..i + 1][..i] == deployments[..i];
      if deployment.validFrom > now {
        continue;
      }
      if active.None? || active.value.validFrom < deployment.validFrom {
        active := Some(deployment);
      }
    }
    assert deployments[..|deployments|] == deployments;
  }

  function Active(deployments: seq<VersionInfo>, now: Epoch): (active: Option<VersionInfo>)
    ensures active.None? <==> forall d :: d in deployments ==> d.validFrom > now
    ensures active.Some? ==>
              && active.value in deployments && active.value.validFrom <= now
              && forall d :: d in deployments && d.validFrom <= now ==> d.validFrom <= active.value.validFrom
  {
    if deployments == [] then None
    else
      var last := |deployments| - 1;
      var before, d := Active(deployments[..last], now), deployments[last];
      assert forall x :: x in deployments <==> x in deployments[..last] || x == d by {
        assert deployments == deployments[..last] + [d];
      }
      if d.validFrom > now || (before.Some? && before.value.validFrom >= d.validFrom) then before else Some(d)
  }

  /** Of several deployments that started last, the first one listed is active. */
  lemma {:induction false} ActiveIsFirst(deployments: seq<VersionInfo>, now: Epoch) returns (i: nat)
    requires Active(deployments, now).Some?
    ensures i < |deployments| && Active(deployments, now).value == deployments[i] && deployments[i].validFrom <= now
    ensures forall k :: 0 <= k < i && deployments[k].validFrom <= now ==>
            deployments[k].validFrom < deployments[i].validFrom
    ensures forall k :: i < k < |deployments| && deployments[k].validFrom <= now ==>
            deployments[k].validFrom <= deployments[i].validFrom
  {
    var last := |deployments| - 1;
    var before := Active(deployments[..last], now);
    if Active(deployments, now) == before {
      i := ActiveIsFirst(deployments[..last], now);
    } else {
      i := last;
      forall k | 0 <= k < last && deployments[k].validFrom <= now
        ensures deployments[k].validFrom < deployments[last].validFrom
      {
        assert deployments[k] in deployments[..last];
      }
    }
  }

  /** Entry i starts first of all future ones, and the others that start then come before it. */
  predicate IsNext(deployments: seq<VersionInfo>, now: Epoch, i: nat)
    requires i < |deployments|
  {
    && deployments[i].validFrom > now
    && (forall k :: 0 <= k < |deployments| && deployments[k].validFrom > now ==>
        deployments[i].validFrom <= deployments[k].validFrom)
    && (forall k :: i < k < |deployments| && deployments[k].validFrom > now ==>
        deployments[i].validFrom < deployments[k].validFrom)
  }

  /** The future deployment that starts first, or None if there is none; the last listed of several. */
  method NextDeployment(deployments: seq<VersionInfo>, now: Epoch) returns (next: Option<VersionInfo>)
    ensures next.None? <==> forall d :: d in deployments ==> d.validFrom <= now
    ensures next.Some? ==>
              && next.value in deployments && next.value.validFrom > now
              && forall d :: d in deployments && d.validFrom > now ==> next.value.validFrom <= d.validFrom
    ensures next.Some? ==>
              exists i :: 0 <= i < |deployments| && next.value == deployments[i] && IsNext(deployments, now, i)
  {
    next := None;
    ghost var at := 0;
    for i := 0 to |deployments|
      invariant next.None? <==> forall k :: 0 <= k < i ==> deployments[k].validFrom <= now
      invariant next.Some? ==> 0 <= at < i && next.value == deployments[at] && IsNext(deployments[..i], now, at)
    {
      var deployment := deployments[i];
      if deployment.validFrom <= now {
        continue;
      }
      if next.Some? && next.value.validFrom < deployment.validFrom {
        continue;
      }
      next, at := Some(deployment), i;
    }
    assert deployments[..|deployments|] == deployments;
  }

  // ---- validation ----

  predicate DistinctVersions(deployments: seq<VersionInfo>) {
    forall i, j :: 0 <= i < j < |deployments| ==> deployments[i].version != deployments[j].version
  }

  /** Later versions start later. */
  predicate Increasing(deployments: seq<VersionInfo>) {
    forall d, e :: d in deployments && e in deployments && d.version < e.version ==> d.validFrom < e.validFrom
  }

  predicate AtMostOneFuture(deployments: seq<VersionInfo>, now: Epoch) {
    forall d, e :: d in deployments && e in deployments && d.validFrom > now && e.validFrom > now ==> d == e
  }

  predicate WellFormed(d: VersionInfo, tee: TeeHardware, params: Parameters) {
    && (match tee
        case TeeInvalid => d.tee.None?
        case IntelSgx => params.sgxAcceptable(d.tee)
        case TeeReserved => false)
    && (|d.bundleChecksum| == 0 || |d.bundleChecksum| == 32)
  }

  function MaxDeployments(params: Parameters): nat {
    if params.maxRuntimeDeployments > 2 then params.maxRuntimeDeployments else 2
  }

  /** What a deployment schedule must satisfy, said of the descriptor as a whole. */
  predicate ValidDeployments(rt: Runtime, now: Epoch, params: Parameters) {
    && 0 < |rt.deployments| <= MaxDeployments(params)
    && DistinctVersions(rt.deployments)
    && Increasing(rt.deployments)
    && AtMostOneFuture(rt.deployments, now)
    && forall d :: d in rt.deployments ==> WellFormed(d, rt.teeHardware, params)
  }

  // ---- the stable sort by version ----

  function Insert(d: VersionInfo, sorted: seq<VersionInfo>): (r: seq<VersionInfo>)
    ensures multiset(r) == multiset(sorted) + multiset{d}
  {
    if sorted == [] then [d]
    else
      assert sorted == sorted[..|sorted| - 1] + [sorted[|sorted| - 1]];
      if d.version >= sorted[|sorted| - 1].version then sorted + [d]
      else Insert(d, sorted[..|sorted| - 1]) + [sorted[|sorted| - 1]]
  }

  predicate Sorted(s: seq<VersionInfo>) {
    forall i, j :: 0 <= i < j < |s| ==> s[i].version <= s[j].version
  }

  lemma {:induction false} InsertSorted(d: VersionInfo, sorted: seq<VersionInfo>)
    requires Sorted(sorted)
    ensures Sorted(Insert(d, sorted))
  {
    if sorted != [] && d.version < sorted[|sorted| - 1].version {
      var front, last := sorted[..|sorted| - 1], sorted[|sorted| - 1];
      InsertSorted(d, front);
      InsertedBelow(d, front, last.version);
      SortedAppend(Insert(d, front), last);
    }
  }

  lemma {:induction false} InsertedBelow(d: VersionInfo, s: seq<VersionInfo>, version: Version)
    requires d.version <= version && forall i :: 0 <= i < |s| ==> s[i].version <= version
    ensures forall x :: x in Insert(d, s) ==> x.version <= version
  {
    forall x | x in Insert(d, s) ensures x.version <= version {
      assert x in multiset(Insert(d, s));
      assert x in multiset(s) || x == d;
    }
  }

  lemma {:induction false} SortedAppend(s: seq<VersionInfo>, last: VersionInfo)
    requires Sorted(s) && forall x :: x in s ==> x.version <= last.version
    ensures Sorted(s + [last])
  {
  }

  function SortByVersion(s: seq<VersionInfo>): (r: seq<VersionInfo>)
    ensures multiset(r) == multiset(s) && Sorted(r)
  {
    if s == [] then []
    else
      var front, last := s[..|s| - 1], s[|s| - 1];
      assert s == front + [last];
      InsertSorted(last, SortByVersion(front));
      Insert(last, SortByVersion(front))
  }

  // ---- distinctness and counting do not depend on the order ----

  lemma {:induction false} DistinctOnce(s: seq<VersionInfo>, d: VersionInfo)
    requires DistinctVersions(s)
    ensures multiset(s)[d] <= 1
  {
    if s != [] {
      var front, last := s[..|s| - 1], s[|s| - 1];
      assert s == front + [last];
      DistinctOnce(front, d);
    }
  }

  lemma {:induction false} DistinctPermutation(s: seq<VersionInfo>, r: seq<VersionInfo>)
    requires multiset(s) == multiset(r) && DistinctVersions(s)
    ensures DistinctVersions(r)
  {
    forall i, j | 0 <= i < j < |r| ensures r[i].version != r[j].version {
      var d, e := r[i], r[j];
      assert r == r[..j] + r[j..];
      assert d in multiset(r[..j]) && e in multiset(r[j..]);
      DistinctOnce(s, d);
      assert d != e;
      assert d in multiset(s) && e in multiset(s);
      var k :| 0 <= k < |s| && s[k] == d;
      var l :| 0 <= l < |s| && s[l] == e;
      assert k != l;
    }
  }

  function CountFuture(s: seq<VersionInfo>, now: Epoch): nat {
    if s == [] then 0
    else CountFuture(s[..|s| - 1], now) + if s[|s| - 1].validFrom > now then 1 else 0
  }

  /** The counter exceeds one exactly if two entries are in the future. */
  lemma {:induction false} CountFutureMeaning(s: seq<VersionInfo>, now: Epoch)
    ensures CountFuture(s, now) == 0 <==> forall i :: 0 <= i < |s| ==> s[i].validFrom <= now
    ensures CountFuture(s, now) <= 1 <==>
            forall i, j :: 0 <= i < j < |s| ==> s[i].validFrom <= now || s[j].validFrom <= now
  {
    if s != [] {
      var last := |s| - 1;
      var front := s[..last];
      CountFutureMeaning(front, now);
      assert forall i :: 0 <= i < last ==> s[i] == front[i];
      if s[last].validFrom > now && CountFuture(front, now) > 0 {
        var i :| 0 <= i < last && front[i].validFrom > now;
        assert !(s[i].validFrom <= now || s[last].validFrom <= now);
      }
      if CountFuture(front, now) > 1 {
        var i, j :| 0 <= i < j < last && !(front[i].validFrom <= now || front[j].validFrom <= now);
        assert !(s[i].validFrom <= now || s[j].validFrom <= now);
      }
    }
  }

  /** The checks that the loop below makes on the sorted deployments. */
  predicate SortedChecks(s: seq<VersionInfo>, tee: TeeHardware, params: Parameters) {
    && DistinctVersions(s)
    && (forall i, j :: 0 <= i < j < |s| ==> s[i].validFrom < s[j].validFrom)
    && forall i :: 0 <= i < |s| ==> WellFormed(s[i], tee, params)
  }

  lemma {:induction false} SameMembers(s: seq<VersionInfo>, r: seq<VersionInfo>, d: VersionInfo)
    requires multiset(s) == multiset(r)
    ensures d in s <==> d in r
  {
    assert d in s <==> d in multiset(s);
    assert d in r <==> d in multiset(r);
  }

  lemma {:induction false} ValidImpliesChecks(rt: Runtime, s: seq<VersionInfo>, now: Epoch, params: Parameters)
    requires multiset(s) == multiset(rt.deployments) && Sorted(s) && ValidDeployments(rt, now, params)
    ensures SortedChecks(s, rt.teeHardware, params) && CountFuture(s, now) <= 1
  {
    forall d ensures d in s <==> d in rt.deployments {
      SameMembers(s, rt.deployments, d);
    }
    DistinctPermutation(rt.deployments, s);
    forall i, j | 0 <= i < j < |s|
      ensures s[i].validFrom < s[j].validFrom && (s[i].validFrom <= now || s[j].validFrom <= now)
    {
      assert s[i].version < s[j].version;
    }
    CountFutureMeaning(s, now);
  }

  lemma {:induction false} ChecksImplyValid(rt: Runtime, s: seq<VersionInfo>, now: Epoch, params: Parameters)
    requires multiset(s) == multiset(rt.deployments) && Sorted(s)
    requires 0 < |rt.deployments| <= MaxDeployments(params)
    requires SortedChecks(s, rt.teeHardware, params) && CountFuture(s, now) <= 1
    ensures ValidDeployments(rt, now, params)
  {
    forall d ensures d in s <==> d in rt.deployments {
      SameMembers(s, rt.deployments, d);
    }
    CountFutureMeaning(s, now);
    DistinctPermutation(s, rt.deployments);
    forall d, e | d in rt.deployments && e in rt.deployments
      ensures d.version < e.version ==> d.validFrom < e.validFrom
      ensures d.validFrom > now && e.validFrom > now ==> d == e
    {
      var i :| 0 <= i < |s| && s[i] == d;
      var j :| 0 <= j < |s| && s[j] == e;
      assert i < j || j < i || i == j;
    }
  }

  lemma {:induction false} SortedChecksPrefix(s: seq<VersionInfo>, i: nat, tee: TeeHardware, params: Parameters)
    requires i < |s| && SortedChecks(s[..i], tee, params)
    ensures SortedChecks(s[..i + 1], tee, params) <==>
            && (forall k :: 0 <= k < i ==> s[k].version != s[i].version)
            && (i > 0 ==> s[i - 1].validFrom < s[i].validFrom)
            && WellFormed(s[i], tee, params)
    ensures SortedChecks(s, tee, params) ==> SortedChecks(s[..i + 1], tee, params)
  {
    var front, more := s[..i], s[..i + 1];
    assert forall k :: 0 <= k < i ==> front[k] == more[k] == s[k];
    assert more[i] == s[i];
    assert i > 0 ==> more[i - 1] == s[i - 1];
    assert forall k :: 0 <= k <= i ==> more[k] == s[k];
  }

  /** Checking neighbours after sorting by version is checking the whole schedule. */
  method ValidateDeployments(rt: Runtime, now: Epoch, params: Parameters) returns (ok: bool)
    ensures ok <==> ValidDeployments(rt, now, params)
  {
    hide SortedChecks, ValidDeployments, WellFormed;
    if |rt.deployments| == 0 || |rt.deployments| > MaxDeployments(params) {
      EmptyOrTooMany(rt, now, params);
      return false;
    }
    var deployments := SortByVersion(rt.deployments);
    ok := CheckSorted(deployments, rt.teeHardware, now, params);
    if ok {
      ChecksImplyValid(rt, deployments, now, params);
    } else if ValidDeployments(rt, now, params) {
      ValidImpliesChecks(rt, deployments, now, params);
    }
  }

  /**
   * What a valid schedule is, with no smaller limit than two: an accepted
   * descriptor orders its deployments alike by version and by start, has at
   * most one in the future, and every TEE and checksum fits.
   */
  lemma {:induction false} ValidExactly(rt: Runtime, now: Epoch, params: Parameters)
    ensures ValidDeployments(rt, now, params) <==>
            var ds := rt.deployments;
            && 0 < |ds| && (|ds| <= 2 || |ds| <= params.maxRuntimeDeployments)
            && (forall i, j :: 0 <= i < |ds| && 0 <= j < |ds| && i != j ==>
                  && ds[i].version != ds[j].version && ds[i].validFrom != ds[j].validFrom
                  && (ds[i].version < ds[j].version <==> ds[i].validFrom < ds[j].validFrom)
                  && (ds[i].validFrom <= now || ds[j].validFrom <= now))
            && (forall i :: 0 <= i < |ds| ==>
                  && |ds[i].bundleChecksum| in {0, 32}
                  && (|| (rt.teeHardware == TeeInvalid && ds[i].tee == None)
                      || (rt.teeHardware == IntelSgx && params.sgxAcceptable(ds[i].tee))))
  {
    var ds := rt.deployments;
    if ValidDeployments(rt, now, params) {
      forall i, j | 0 <= i < |ds| && 0 <= j < |ds| && i != j
        ensures && ds[i].version != ds[j].version && ds[i].validFrom != ds[j].validFrom
                && (ds[i].version < ds[j].version <==> ds[i].validFrom < ds[j].validFrom)
                && (ds[i].validFrom <= now || ds[j].validFrom <= now)
      {
        assert ds[i] in ds && ds[j] in ds;
        assert i < j || j < i;
        assert ds[i].version < ds[j].version || ds[j].version < ds[i].version;
      }
      assert forall i :: 0 <= i < |ds| ==> ds[i] in ds;
    }
  }

  lemma {:induction false} EmptyOrTooMany(rt: Runtime, now: Epoch, params: Parameters)
    requires |rt.deployments| == 0 || |rt.deployments| > MaxDeployments(params)
    ensures !ValidDeployments(rt, now, params)
  {
  }

  method CheckSorted(deployments: seq<VersionInfo>, tee: TeeHardware, now: Epoch, params: Parameters) returns (ok: bool)
    ensures ok <==> SortedChecks(deployments, tee, params) && CountFuture(deployments, now) <= 1
  {
    hide SortedChecks, WellFormed;
    var versionMap: set<Version> := {};
    var numFuture: nat := 0;
    assert SortedChecks(deployments[..0], tee, params) by { NothingToCheck(deployments[..0], tee, params); }
    for i := 0 to |deployments|
      invariant versionMap == set k | 0 <= k < i :: deployments[k].version
      invariant SortedChecks(deployments[..i], tee, params)
      invariant numFuture == CountFuture(deployments[..i], now)
    {
      SortedChecksPrefix(deployments, i, tee, params);
      var deployment := deployments[i];
      if deployment.version in versionMap {
        return false;
      }
      versionMap := versionMap + {deployment.version};
      if i > 0 && deployments[i - 1].validFrom >= deployment.validFrom {
        return false;
      }
      if deployment.validFrom > now {
        numFuture := numFuture + 1;
      }
      if !WellFormed(deployment, tee, params) {
        return false;
      }
      assert deployments[..i + 1][..i] == deployments[..i];
    }
    assert deployments[..|deployments|] == deployments;
    return numFuture <= 1;
  }

  lemma {:induction false} NothingToCheck(s: seq<VersionInfo>, tee: TeeHardware, params: Parameters)
    requires s == []
    ensures SortedChecks(s, tee, params)
  {
  }
}
