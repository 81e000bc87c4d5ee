/** The checks that a genesis document's governance section must pass. */
module GovernanceGenesis {
  import opened Wrappers
  import opened Sequences
  import opened Governance

  datatype Parameters = Parameters(
    depositValid: bool,
    stakeThreshold: Percentage,
    votingPeriod: Epoch,
    upgradeMinEpochDiff: Epoch,
    upgradeCancelMinEpochDiff: Epoch)

  /** Validation of addresses, votes and descriptors is foreign code. */
  datatype Genesis = Genesis(
    parameters: Parameters,
    proposals: seq<Proposal>,
    votesValid: nat -> bool,
    descriptorValid: Descriptor -> bool)

  predicate SaneParameters(p: Parameters) {
    && p.depositValid
    && 66 < p.stakeThreshold <= 100
    && p.votingPeriod < p.upgradeMinEpochDiff
    && p.votingPeriod < p.upgradeCancelMinEpochDiff
  }

  // ---- proposals and deposits ----

  predicate SaneProposal(p: Proposal, now: Epoch) {
    && p.createdAt <= now && p.submitterValid
    && if p.state == Active then
         && now <= p.closesAt && p.results.None? && p.invalidVotes == 0
         && (p.content.upgrade.Some? ==> now <= p.content.upgrade.value.epoch)
       else p.closesAt <= now
  }

  function ActiveDeposits(ps: seq<Proposal>): (sum: Quantity) {
    if ps == [] then 0
    else ActiveDeposits(ps[..|ps| - 1]) + if ps[|ps| - 1].state == Active then ps[|ps| - 1].deposit else 0
  }

  method CheckProposals(ps: seq<Proposal>, now: Epoch, governanceDeposit: Quantity) returns (ok: bool)
    ensures ok <==> (forall i :: 0 <= i < |ps| ==> SaneProposal(ps[i], now)) && ActiveDeposits(ps) == governanceDeposit
  {
    var deposits: Quantity := 0;
    for i := 0 to |ps|
      invariant forall k :: 0 <= k < i ==> SaneProposal(ps[k], now)
      invariant deposits == ActiveDeposits(ps[..i])
    {
      var p := ps[i];
      assert ps[..i + 1][..i] == ps[..i];
      if p.createdAt > now || !p.submitterValid { return false; }
      if p.state == Active {
        if p.closesAt < now || p.results.Some? || p.invalidVotes != 0 { return false; }
        if p.content.upgrade.Some? && p.content.upgrade.value.epoch < now { return false; }
        deposits := deposits + p.deposit;
      } else if p.closesAt > now {
        return false;
      }
    }
    assert ps[..|ps|] == ps;
    return deposits == governanceDeposit;
  }

  // ---- pending upgrades ----

  function AbsDiff(a: Epoch, b: Epoch): Epoch { if a > b then a - b else b - a }

  /** Any two entries are at least `d` apart. */
  predicate Apart(epochs: seq<Epoch>, d: Epoch) {
    forall i, j :: 0 <= i < j < |epochs| ==> AbsDiff(epochs[i], epochs[j]) >= d
  }

  predicate Sorted(epochs: seq<Epoch>) {
    forall i :: 0 < i < |epochs| ==> epochs[i - 1] <= epochs[i]
  }

  lemma {:induction false} SortedPair(s: seq<Epoch>, i: nat, j: nat)
    requires Sorted(s) && i <= j < |s|
    ensures s[i] <= s[j]
    decreases j
  {
    if i < j {
      SortedPair(s, i, j - 1);
    }
  }

  lemma {:induction false} ApartWithout(s: seq<Epoch>, k: nat, d: Epoch)
    requires Apart(s, d) && k < |s|
    ensures Apart(Without(s, k), d)
    ensures forall x :: x in Without(s, k) ==> AbsDiff(x, s[k]) >= d
  {
    var t := Without(s, k);
    forall i | 0 <= i < |t| ensures t[i] == s[if i < k then i else i + 1] && AbsDiff(t[i], s[k]) >= d {
    }
  }

  lemma {:induction false} ApartAppend(s: seq<Epoch>, e: Epoch, d: Epoch)
    requires Apart(s, d) && forall x :: x in s ==> AbsDiff(x, e) >= d
    ensures Apart(s + [e], d)
  {
  }

  /** Being apart does not depend on the order. */
  lemma {:induction false} ApartPermutation(a: seq<Epoch>, b: seq<Epoch>, d: Epoch)
    requires multiset(a) == multiset(b) && Apart(a, d)
    ensures Apart(b, d)
    decreases |b|
  {
    if b != [] {
      hide Apart, AbsDiff, Without;
      var front, last := b[..|b| - 1], b[|b| - 1];
      assert b == front + [last];
      assert last in multiset(a);
      var k :| 0 <= k < |a| && a[k] == last;
      TakenOut(a, k);
      ApartWithout(a, k, d);
      Cancel(multiset(Without(a, k)), multiset(front), last);
      ApartPermutation(Without(a, k), front, d);
      forall x | x in front ensures AbsDiff(x, last) >= d {
        assert x in multiset(front);
      }
      ApartAppend(front, last, d);
    }
  }

  /** In a sorted list it is enough to compare neighbours. */
  lemma {:induction false} NeighboursSuffice(s: seq<Epoch>, d: Epoch)
    requires Sorted(s) && forall i :: 0 < i < |s| ==> AbsDiff(s[i - 1], s[i]) >= d
    ensures Apart(s, d)
  {
    forall i, j | 0 <= i < j < |s| ensures AbsDiff(s[i], s[j]) >= d {
      SortedPair(s, i, j - 1);
      assert AbsDiff(s[j - 1], s[j]) >= d;
    }
  }

  /** Puts one more epoch into its place. */
  method InsertEpoch(s: seq<Epoch>, e: Epoch) returns (r: seq<Epoch>)
    requires Sorted(s)
    ensures Sorted(r) && multiset(r) == multiset(s) + multiset{e}
  {
    var i := |s|;
    while i > 0 && s[i - 1] > e
      invariant 0 <= i <= |s| && (i < |s| ==> s[i] > e)
    {
      i := i - 1;
    }
    InsertedAt(s, e, i);
    InsertedElements(s, e, i);
    r := s[..i] + [e] + s[i..];
  }

  lemma {:induction false} InsertedAt(s: seq<Epoch>, e: Epoch, i: nat)
    requires Sorted(s) && i <= |s|
    requires (i < |s| ==> s[i] > e) && (i > 0 ==> s[i - 1] <= e)
    ensures Sorted(s[..i] + [e] + s[i..])
  {
    var r := s[..i] + [e] + s[i..];
    forall k | 0 < k < |r| ensures r[k - 1] <= r[k] {
      assert r[k] == if k < i then s[k] else if k == i then e else s[k - 1];
    }
  }

  lemma {:induction false} InsertedElements(s: seq<Epoch>, e: Epoch, i: nat)
    requires i <= |s|
    ensures multiset(s[..i] + [e] + s[i..]) == multiset(s) + multiset{e}
  {
    assert s == s[..i] + s[i..];
  }

  method SortEpochs(s: seq<Epoch>) returns (r: seq<Epoch>)
    ensures Sorted(r) && multiset(r) == multiset(s)
  {
    r := [];
    for i := 0 to |s|
      invariant Sorted(r) && multiset(r) == multiset(s[..i])
    {
      assert s[..i + 1] == s[..i] + [s[i]];
      r := InsertEpoch(r, s[i]);
    }
    assert s[..|s|] == s;
  }

  function Epochs(upgrades: seq<Descriptor>): (r: seq<Epoch>)
    ensures |r| == |upgrades|
  {
    seq(|upgrades|, i requires 0 <= i < |upgrades| => upgrades[i].epoch)
  }

  /** Only sorted neighbours are compared, yet the answer is about every pair. */
  method CheckPendingUpgrades(
    upgrades: seq<Descriptor>, now: Epoch, d: Epoch, valid: Descriptor -> bool)
    returns (ok: bool)
    ensures ok <==>
            && (forall i :: 0 <= i < |upgrades| ==> valid(upgrades[i]) && upgrades[i].epoch >= now)
            && Apart(Epochs(upgrades), d)
  {
    var epochs: seq<Epoch> := [];
    for i := 0 to |upgrades|
      invariant forall k :: 0 <= k < i ==> valid(upgrades[k]) && upgrades[k].epoch >= now
      invariant epochs == Epochs(upgrades)[..i]
    {
      if !valid(upgrades[i]) || upgrades[i].epoch < now { return false; }
      epochs := epochs + [upgrades[i].epoch];
    }
    assert epochs == Epochs(upgrades);
    if |epochs| < 2 { return true; }
    var sorted := SortEpochs(epochs);
    ok := NeighboursApart(sorted, d);
    if ok {
      NeighboursSuffice(sorted, d);
      ApartPermutation(sorted, epochs, d);
    } else if Apart(epochs, d) {
      ApartPermutation(epochs, sorted, d);
      assert false;
    }
  }

  method NeighboursApart(s: seq<Epoch>, d: Epoch) returns (ok: bool)
    ensures ok <==> forall i :: 0 < i < |s| ==> AbsDiff(s[i - 1], s[i]) >= d
  {
    if s == [] { return true; }
    var prev := s[0];
    for i := 1 to |s|
      invariant prev == s[i - 1]
      invariant forall k :: 0 < k < i ==> AbsDiff(s[k - 1], s[k]) >= d
    {
      if AbsDiff(prev, s[i]) < d { return false; }
      prev := s[i];
    }
    return true;
  }

  // ---- the whole document ----

  function UpgradesOf(ps: seq<Proposal>): (r: seq<Descriptor>)
    requires forall p :: p in ps ==> p.content.upgrade.Some?
    ensures |r| == |ps| && forall i :: 0 <= i < |ps| ==> Some(r[i]) == ps[i].content.upgrade
  {
    seq(|ps|, i requires 0 <= i < |ps| => ps[i].content.upgrade.value)
  }

  predicate Accepts(g: Genesis, now: Epoch, governanceDeposit: Quantity) {
    && SaneParameters(g.parameters)
    && (forall i :: 0 <= i < |g.proposals| ==> SaneProposal(g.proposals[i], now) && g.votesValid(g.proposals[i].id))
    && ActiveDeposits(g.proposals) == governanceDeposit
    && var upgrades := UpgradesOf(AfterCancels(Accepted(g.proposals, now), g.proposals));
       && (forall i :: 0 <= i < |upgrades| ==> g.descriptorValid(upgrades[i]))
       && Apart(Epochs(upgrades), g.parameters.upgradeMinEpochDiff)
  }

  method SanityCheck(g: Genesis, now: Epoch, governanceDeposit: Quantity) returns (ok: bool)
    ensures ok <==> Accepts(g, now, governanceDeposit)
  {
    hide Apart, SaneProposal, ActiveDeposits, AfterCancels, Accepted;
    var p := g.parameters;
    if !p.depositValid || p.stakeThreshold > 100 || p.stakeThreshold <= 66 { return false; }
    if p.votingPeriod >= p.upgradeMinEpochDiff || p.votingPeriod >= p.upgradeCancelMinEpochDiff { return false; }
    ok := CheckProposals(g.proposals, now, governanceDeposit);
    if !ok { return; }
    for i := 0 to |g.proposals|
      invariant forall k :: 0 <= k < i ==> g.votesValid(g.proposals[k].id)
    {
      if !g.votesValid(g.proposals[i].id) { return false; }
    }
    var upgrades, _ := PendingUpgradesFromProposals(g.proposals, now);
    assert upgrades == UpgradesOf(AfterCancels(Accepted(g.proposals, now), g.proposals));
    ok := CheckPendingUpgrades(upgrades, now, p.upgradeMinEpochDiff, g.descriptorValid);
    UpgradesInFuture(g.proposals, now);
  }

  lemma {:induction false} UpgradesInFuture(ps: seq<Proposal>, now: Epoch)
    ensures var upgrades := UpgradesOf(AfterCancels(Accepted(ps, now), ps));
            forall i :: 0 <= i < |upgrades| ==> upgrades[i].epoch >= now
  {
    var pending := AfterCancels(Accepted(ps, now), ps);
    forall i | 0 <= i < |pending| ensures IsUpgrade(pending[i], now) {
      assert pending[i] in Accepted(ps, now);
    }
  }

  /** All differ by at least d, said of the epochs and of the upgrades. */
  lemma {:induction false} ApartMeans(pending: seq<Proposal>, d: Epoch)
    requires DistinctIds(pending) && forall p :: p in pending ==> p.content.upgrade.Some?
    ensures Apart(Epochs(UpgradesOf(pending)), d) <==>
            forall p, q :: p in pending && q in pending && p.id != q.id ==>
              AbsDiff(p.content.upgrade.value.epoch, q.content.upgrade.value.epoch) >= d
  {
    hide AbsDiff;
    if Apart(Epochs(UpgradesOf(pending)), d) {
      forall p, q | p in pending && q in pending && p.id != q.id
        ensures AbsDiff(p.content.upgrade.value.epoch, q.content.upgrade.value.epoch) >= d
      {
        ApartPair(pending, d, p, q);
      }
    }
    if forall p, q :: p in pending && q in pending && p.id != q.id ==>
        AbsDiff(p.content.upgrade.value.epoch, q.content.upgrade.value.epoch) >= d {
      var epochs := Epochs(UpgradesOf(pending));
      forall i, j | 0 <= i < j < |epochs| ensures AbsDiff(epochs[i], epochs[j]) >= d {
        assert pending[i] in pending && pending[j] in pending && pending[i].id != pending[j].id;
        assert epochs[i] == pending[i].content.upgrade.value.epoch;
        assert epochs[j] == pending[j].content.upgrade.value.epoch;
      }
    }
  }

  lemma {:induction false} ApartPair(pending: seq<Proposal>, d: Epoch, p: Proposal, q: Proposal)
    requires forall p :: p in pending ==> p.content.upgrade.Some?
    requires Apart(Epochs(UpgradesOf(pending)), d) && p in pending && q in pending && p != q
    ensures AbsDiff(p.content.upgrade.value.epoch, q.content.upgrade.value.epoch) >= d
  {
    var i :| 0 <= i < |pending| && pending[i] == p;
    var j :| 0 <= j < |pending| && pending[j] == q;
    var epochs := Epochs(UpgradesOf(pending));
    assert AbsDiff(epochs[if i < j then i else j], epochs[if i < j then j else i]) >= d;
  }

  /**
   * Exactly which documents are accepted: the parameters are sane, every
   * proposal's dates and tally fit its state, the deposits add up, and the
   * upgrades that are still to come are valid and far enough apart.
   */
  lemma {:induction false} AcceptsExactly(g: Genesis, now: Epoch, governanceDeposit: Quantity)
    requires DistinctIds(g.proposals)
    ensures Accepts(g, now, governanceDeposit) <==>
            && g.parameters.depositValid && 67 <= g.parameters.stakeThreshold <= 100
            && g.parameters.upgradeMinEpochDiff > g.parameters.votingPeriod
            && g.parameters.upgradeCancelMinEpochDiff > g.parameters.votingPeriod
            && (forall p :: p in g.proposals ==>
                  && g.votesValid(p.id) && p.submitterValid && p.createdAt <= now
                  && (p.state != Active ==> p.closesAt <= now)
                  && (p.state == Active ==>
                      && p.closesAt >= now && p.results == None && p.invalidVotes == 0
                      && (p.content.upgrade == None || p.content.upgrade.value.epoch >= now)))
            && ActiveDeposits(g.proposals) == governanceDeposit
            && (forall p :: StillToCome(p, g.proposals, now) ==> g.descriptorValid(p.content.upgrade.value))
            && (forall p, q ::
                  && StillToCome(p, g.proposals, now) && StillToCome(q, g.proposals, now) && p.id != q.id
                  && p.content.upgrade.value.epoch <= q.content.upgrade.value.epoch ==>
                  q.content.upgrade.value.epoch - p.content.upgrade.value.epoch >= g.parameters.upgradeMinEpochDiff)
  {
    hide AfterCancels, Accepted, ActiveDeposits, Apart;
    var pending := AfterCancels(Accepted(g.proposals, now), g.proposals);
    PendingMeans(g.proposals, now);
    ApartMeans(pending, g.parameters.upgradeMinEpochDiff);
    assert (forall i :: 0 <= i < |pending| ==> g.descriptorValid(UpgradesOf(pending)[i]))
      <==> forall p :: p in pending ==> g.descriptorValid(p.content.upgrade.value);
  }

  /** Deposits are conserved: a change of one proposal moves the sum by that proposal's deposit and no other. */
  lemma {:induction false} DepositsMove(ps: seq<Proposal>, i: nat, p: Proposal)
    requires i < |ps|
    ensures ActiveDeposits(ps[i := p]) + (if ps[i].state == Active then ps[i].deposit else 0)
         == ActiveDeposits(ps) + (if p.state == Active then p.deposit else 0)
    ensures (forall q :: q in ps ==> q.state != Active) ==> ActiveDeposits(ps) == 0
  {
    var last := |ps| - 1;
    if i < last {
      assert ps[i := p][..last] == ps[..last][i := p];
      DepositsMove(ps[..last], i, p);
    } else {
      assert ps[i := p][..last] == ps[..last];
      if last > 0 {
        DepositsMove(ps[..last], last - 1, p);
      }
    }
  }

  /** In an accepted genesis any two upgrades that are still to come are far enough apart. */
  lemma {:induction false} UpgradesApart(g: Genesis, now: Epoch, governanceDeposit: Quantity, p: Proposal, q: Proposal)
    requires Accepts(g, now, governanceDeposit) && DistinctIds(g.proposals) && p != q
    requires p in g.proposals && IsUpgrade(p, now) && !IsCancelled(g.proposals, p.id)
    requires q in g.proposals && IsUpgrade(q, now) && !IsCancelled(g.proposals, q.id)
    ensures AbsDiff(p.content.upgrade.value.epoch, q.content.upgrade.value.epoch) >= g.parameters.upgradeMinEpochDiff
    ensures g.parameters.upgradeMinEpochDiff > g.parameters.votingPeriod
  {
    hide Pending, AfterCancels, Accepted, SaneProposal, ActiveDeposits;
    var pending := AfterCancels(Accepted(g.proposals, now), g.proposals);
    PendingExactly(g.proposals, now);
    PendingMember(g.proposals, g.proposals, now, p);
    PendingMember(g.proposals, g.proposals, now, q);
    ApartPair(pending, g.parameters.upgradeMinEpochDiff, p, q);
  }
}
