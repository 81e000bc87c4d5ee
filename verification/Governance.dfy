/** Governance proposals: tallying, pending upgrades and the genesis checks. */
module Governance {
  import opened Wrappers

  type Epoch = nat
  type Quantity = nat
  type Vote = v: nat | v < 256
  type Percentage = p: nat | p < 256

  const VOTE_YES: Vote := 1

  datatype ProposalState = Active | Passed | Rejected | Failed

  datatype Descriptor = Descriptor(handler: string, target: nat, epoch: Epoch)

  datatype Content = Content(upgrade: Option<Descriptor>, cancelUpgrade: Option<nat>)

  datatype Proposal = Proposal(
    id: nat,
    submitterValid: bool,
    state: ProposalState,
    deposit: Quantity,
    content: Content,
    createdAt: Epoch,
    closesAt: Epoch,
    results: Option<map<Vote, Quantity>>,
    invalidVotes: nat)

  // ---- tallying ----

  /** The stake recorded for the votes below `n`. */
  function SumBelow(results: map<Vote, Quantity>, n: nat): (sum: nat)
    requires n <= 256
  {
    if n == 0 then 0
    else SumBelow(results, n - 1) + if n - 1 in results then results[n - 1] else 0
  }

  function Voted(results: map<Vote, Quantity>): nat { SumBelow(results, 256) }

  function YesOf(results: map<Vote, Quantity>): Quantity {
    if VOTE_YES in results then results[VOTE_YES] else 0
  }

  lemma {:induction false} SumWithout(results: map<Vote, Quantity>, v: Vote, n: nat)
    requires v in results && n <= 256
    ensures SumBelow(results, n) == SumBelow(results - {v}, n) + if v < n then results[v] else 0
  {
    if n > 0 {
      SumWithout(results, v, n - 1);
    }
  }

  lemma {:induction false} SumEmpty(n: nat)
    requires n <= 256
    ensures SumBelow(map[], n) == 0
  {
    if n > 0 {
      SumEmpty(n - 1);
    }
  }

  /** Adds up the votes in any order. */
  method VotedSum(results: map<Vote, Quantity>) returns (sum: Quantity)
    ensures sum == Voted(results)
  {
    sum := 0;
    var todo := results;
    while todo != map[]
      invariant todo.Keys <= results.Keys && forall v :: v in todo ==> todo[v] == results[v]
      invariant sum + Voted(todo) == Voted(results)
      decreases |todo.Keys|
    {
      var v :| v in todo;
      SumWithout(todo, v, 256);
      sum := sum + todo[v];
      assert (todo - {v}).Keys == todo.Keys - {v};
      todo := todo - {v};
    }
    SumEmpty(256);
  }

  /** Truncating the percentage does not matter for the comparison. */
  lemma {:induction false} QuotientBelow(a: nat, b: nat, t: nat)
    requires b > 0
    ensures a / b < t <==> a < t * b
  {
    var q, r := a / b, a % b;
    assert a == q * b + r && 0 <= r < b;
    if q < t {
      Scale(q + 1, t, b);
      assert (q + 1) * b == q * b + b;
    } else {
      Scale(t, q, b);
    }
  }

  lemma {:induction false} Scale(x: nat, y: nat, b: nat)
    requires x <= y
    ensures x * b <= y * b
  {
  }

  predicate CanClose(p: Proposal, total: Quantity) {
    p.state == Active && p.results.Some? && total != 0 && Voted(p.results.value) <= total
  }

  /** A proposal that can be closed passes exactly if enough of the total stake said yes. */
  function Outcome(p: Proposal, total: Quantity, threshold: Percentage): ProposalState
    requires p.results.Some?
  {
    var yes := YesOf(p.results.value);
    if yes > 0 && 100 * yes >= threshold * total then Passed else Rejected
  }

  class Ballot {
    var proposal: Proposal

    constructor (proposal: Proposal)
      ensures this.proposal == proposal
    {
      this.proposal := proposal;
    }

    method CloseProposal(total: Quantity, threshold: Percentage) returns (ok: bool)
      modifies this
      ensures ok == CanClose(old(proposal), total)
      ensures ok ==> proposal == old(proposal).(state := Outcome(old(proposal), total, threshold))
      ensures !ok ==> proposal == old(proposal)
    {
      if proposal.state != Active || proposal.results.None? || total == 0 { return false; }
      var results := proposal.results.value;
      var voted := VotedSum(results);
      if voted > total { return false; }
      var yes := if VOTE_YES in results then results[VOTE_YES] else 0;
      if yes == 0 {
        proposal := proposal.(state := Rejected);
        return true;
      }
      QuotientBelow(100 * yes, total, threshold);
      proposal := proposal.(state := if 100 * yes / total < threshold then Rejected else Passed);
      return true;
    }
  }

  lemma {:induction false} YesIsVoted(results: map<Vote, Quantity>)
    ensures YesOf(results) <= Voted(results)
  {
    if VOTE_YES in results {
      SumWithout(results, VOTE_YES, 256);
    }
  }

  /**
   * Exactly the active proposals that were tallied against some stake, of
   * which no more voted than there is, can be closed; they pass exactly if
   * there are yes votes (vote 1) and these reach the threshold.
   */
  lemma {:induction false} ClosesExactly(p: Proposal, total: Quantity, threshold: Percentage)
    ensures CanClose(p, total) <==>
            p.state == Active && p.results.Some? && 0 < total && Voted(p.results.value) <= total
    ensures CanClose(p, total) ==>
              var results := p.results.value;
              && Outcome(p, total, threshold) in {Passed, Rejected}
              && (Outcome(p, total, threshold) == Passed <==>
                  1 in results && results[1] > 0 && 100 * results[1] / total >= threshold)
  {
    if CanClose(p, total) && 1 in p.results.value {
      QuotientBelow(100 * p.results.value[1], total, threshold);
    }
  }

  /** Under a sane threshold, a proposal that passes has more than twice as much stake for it as not. */
  lemma {:induction false} PassedBySupermajority(p: Proposal, total: Quantity, threshold: Percentage)
    requires CanClose(p, total) && 66 < threshold <= 100
    ensures Outcome(p, total, threshold) == Passed <==> 100 * YesOf(p.results.value) >= threshold * total
    ensures Outcome(p, total, threshold) == Passed ==>
              YesOf(p.results.value) > 2 * (Voted(p.results.value) - YesOf(p.results.value))
  {
    YesIsVoted(p.results.value);
    Scale(67, threshold, total);
  }

  // ---- pending upgrades ----

  /** A passed upgrade that is not for an old epoch. */
  predicate IsUpgrade(p: Proposal, epoch: Epoch) {
    p.state == Passed && p.content.upgrade.Some? && p.content.upgrade.value.epoch >= epoch
  }

  predicate Cancels(p: Proposal, id: nat) {
    p.state == Passed && p.content.cancelUpgrade == Some(id)
  }

  function Accepted(ps: seq<Proposal>, epoch: Epoch): (r: seq<Proposal>)
    ensures forall p :: p in r <==> p in ps && IsUpgrade(p, epoch)
  {
    if ps == [] then []
    else
      var front, p := ps[..|ps| - 1], ps[|ps| - 1];
      assert ps == front + [p];
      if IsUpgrade(p, epoch) then Accepted(front, epoch) + [p] else Accepted(front, epoch)
  }

  /** Removes the first proposal with the given identifier. */
  function RemoveFirst(ps: seq<Proposal>, id: nat): (r: seq<Proposal>)
    ensures forall p :: p in r ==> p in ps
  {
    if ps == [] then []
    else if ps[0].id == id then ps[1..]
    else [ps[0]] + RemoveFirst(ps[1..], id)
  }

  /** Every passed cancellation removes one upgrade. */
  function AfterCancels(accepted: seq<Proposal>, ps: seq<Proposal>): (r: seq<Proposal>)
    ensures forall p :: p in r ==> p in accepted
  {
    if ps == [] then accepted
    else
      var rest := AfterCancels(accepted, ps[..|ps| - 1]);
      var p := ps[|ps| - 1];
      if p.state != Passed || p.content.cancelUpgrade.None? then rest
      else RemoveFirst(rest, p.content.cancelUpgrade.value)
  }

  method CancelOne(accepted: seq<Proposal>, id: nat) returns (r: seq<Proposal>)
    ensures r == RemoveFirst(accepted, id)
  {
    assert accepted[..0] + RemoveFirst(accepted[0..], id) == RemoveFirst(accepted, id);
    for i := 0 to |accepted|
      invariant RemoveFirst(accepted, id) == accepted[..i] + RemoveFirst(accepted[i..], id)
    {
      RemoveFirstStep(accepted, id, i);
      if accepted[i].id == id {
        return accepted[..i] + accepted[i + 1..];
      }
    }
    return accepted;
  }

  lemma {:induction false} RemoveFirstStep(ps: seq<Proposal>, id: nat, i: nat)
    requires i < |ps|
    ensures ps[..i] + RemoveFirst(ps[i..], id) ==
            if ps[i].id == id then ps[..i] + ps[i + 1..] else ps[..i + 1] + RemoveFirst(ps[i + 1..], id)
  {
    assert ps[i..][1..] == ps[i + 1..];
    assert ps[..i + 1] == ps[..i] + [ps[i]];
  }

  /** What is returned: the descriptors and the identifiers, in step. */
  method PendingUpgradesFromProposals(
    ps: seq<Proposal>, epoch: Epoch)
    returns (upgrades: seq<Descriptor>, ids: seq<nat>)
    ensures var pending := AfterCancels(Accepted(ps, epoch), ps);
            && |upgrades| == |ids| == |pending|
            && forall i :: 0 <= i < |pending| ==>
                Some(upgrades[i]) == pending[i].content.upgrade && ids[i] == pending[i].id
  {
    var accepted: seq<Proposal> := [];
    for i := 0 to |ps|
      invariant accepted == Accepted(ps[..i], epoch)
    {
      assert ps[..i + 1][..i] == ps[..i];
      if ps[i].state == Passed && ps[i].content.upgrade.Some? && ps[i].content.upgrade.value.epoch >= epoch {
        accepted := accepted + [ps[i]];
      }
    }
    assert ps[..|ps|] == ps;
    for i := 0 to |ps|
      invariant accepted == AfterCancels(Accepted(ps, epoch), ps[..i])
    {
      assert ps[..i + 1][..i] == ps[..i];
      if ps[i].state == Passed && ps[i].content.cancelUpgrade.Some? {
        accepted := CancelOne(accepted, ps[i].content.cancelUpgrade.value);
      }
    }
    upgrades, ids := [], [];
    for i := 0 to |accepted|
      invariant |upgrades| == |ids| == i
      invariant forall k :: 0 <= k < i ==> Some(upgrades[k]) == accepted[k].content.upgrade && ids[k] == accepted[k].id
    {
      assert accepted[i] in Accepted(ps, epoch);
      upgrades := upgrades + [accepted[i].content.upgrade.value];
      ids := ids + [accepted[i].id];
    }
  }

  // ---- what is pending, without the two passes ----

  predicate DistinctIds(ps: seq<Proposal>) {
    forall i, j :: 0 <= i < j < |ps| ==> ps[i].id != ps[j].id
  }

  predicate IsCancelled(ps: seq<Proposal>, id: nat) {
    exists i :: 0 <= i < |ps| && Cancels(ps[i], id)
  }

  /** The upgrades in `ps` that nothing in `all` cancels, in order. */
  function Pending(ps: seq<Proposal>, all: seq<Proposal>, epoch: Epoch): (r: seq<Proposal>) {
    if ps == [] then []
    else
      var front, p := Pending(ps[..|ps| - 1], all, epoch), ps[|ps| - 1];
      if IsUpgrade(p, epoch) && !IsCancelled(all, p.id) then front + [p] else front
  }

  function Keep(ps: seq<Proposal>, all: seq<Proposal>): (r: seq<Proposal>)
    ensures forall p :: p in r ==> p in ps
  {
    if ps == [] then []
    else
      var front, p := Keep(ps[..|ps| - 1], all), ps[|ps| - 1];
      if IsCancelled(all, p.id) then front else front + [p]
  }

  lemma {:induction false} RemoveFirstAppend(a: seq<Proposal>, x: Proposal, id: nat)
    ensures RemoveFirst(a + [x], id) ==
            if exists p :: p in a && p.id == id then RemoveFirst(a, id) + [x]
            else if x.id == id then a else a + [x]
  {
    if a != [] {
      assert (a + [x])[1..] == a[1..] + [x];
      assert a == [a[0]] + a[1..];
      RemoveFirstAppend(a[1..], x, id);
    }
  }

  /** One more cancellation, seen by the two passes and by the filter. */
  lemma {:induction false} KeepOneMore(ps: seq<Proposal>, all: seq<Proposal>, c: Proposal)
    requires DistinctIds(ps)
    ensures Keep(ps, all + [c]) ==
            if c.state != Passed || c.content.cancelUpgrade.None? then Keep(ps, all)
            else RemoveFirst(Keep(ps, all), c.content.cancelUpgrade.value)
  {
    if ps != [] {
      var front, p := ps[..|ps| - 1], ps[|ps| - 1];
      KeepOneMore(front, all, c);
      CancelledAppend(all, c, p.id);
      if c.state == Passed && c.content.cancelUpgrade.Some? {
        var id := c.content.cancelUpgrade.value;
        RemoveFirstAppend(Keep(front, all), p, id);
        RemoveFirstAbsent(Keep(front, all), id);
      }
    }
  }

  lemma {:induction false} CancelledAppend(all: seq<Proposal>, c: Proposal, id: nat)
    ensures IsCancelled(all + [c], id) <==> IsCancelled(all, id) || Cancels(c, id)
  {
    if Cancels(c, id) {
      assert (all + [c])[|all|] == c;
    }
    if IsCancelled(all, id) {
      var i :| 0 <= i < |all| && Cancels(all[i], id);
      assert (all + [c])[i] == all[i];
    }
  }

  lemma {:induction false} RemoveFirstAbsent(ps: seq<Proposal>, id: nat)
    ensures !(exists p :: p in ps && p.id == id) ==> RemoveFirst(ps, id) == ps
  {
    if ps != [] {
      RemoveFirstAbsent(ps[1..], id);
    }
  }

  lemma {:induction false} CancelsAreKeep(accepted: seq<Proposal>, ps: seq<Proposal>)
    requires DistinctIds(accepted)
    ensures AfterCancels(accepted, ps) == Keep(accepted, ps)
  {
    if ps == [] {
      KeepAll(accepted);
    } else {
      var front, p := ps[..|ps| - 1], ps[|ps| - 1];
      CancelsAreKeep(accepted, front);
      KeepOneMore(accepted, front, p);
      assert front + [p] == ps;
    }
  }

  lemma {:induction false} KeepAll(ps: seq<Proposal>)
    ensures Keep(ps, []) == ps
  {
    if ps != [] {
      KeepAll(ps[..|ps| - 1]);
    }
  }

  lemma {:induction false} AcceptedDistinct(ps: seq<Proposal>, epoch: Epoch)
    requires DistinctIds(ps)
    ensures DistinctIds(Accepted(ps, epoch))
  {
    if ps != [] {
      var front, p := ps[..|ps| - 1], ps[|ps| - 1];
      AcceptedDistinct(front, epoch);
      forall q | q in Accepted(front, epoch) ensures q.id != p.id {
        assert q in front;
      }
    }
  }

  lemma {:induction false} KeepAccepted(ps: seq<Proposal>, all: seq<Proposal>, epoch: Epoch)
    ensures Keep(Accepted(ps, epoch), all) == Pending(ps, all, epoch)
  {
    if ps != [] {
      var front, p := ps[..|ps| - 1], ps[|ps| - 1];
      KeepAccepted(front, all, epoch);
      var a := Accepted(front, epoch);
      assert (a + [p])[..|a|] == a;
    }
  }

  lemma {:induction false} PendingMember(ps: seq<Proposal>, all: seq<Proposal>, epoch: Epoch, p: Proposal)
    ensures p in Pending(ps, all, epoch) <==> p in ps && IsUpgrade(p, epoch) && !IsCancelled(all, p.id)
  {
    if ps != [] {
      assert ps == ps[..|ps| - 1] + [ps[|ps| - 1]];
      PendingMember(ps[..|ps| - 1], all, epoch, p);
    }
  }

  lemma {:induction false} PendingDistinct(ps: seq<Proposal>, all: seq<Proposal>, epoch: Epoch)
    requires DistinctIds(ps)
    ensures DistinctIds(Pending(ps, all, epoch))
  {
    if ps != [] {
      var front, p := ps[..|ps| - 1], ps[|ps| - 1];
      PendingDistinct(front, all, epoch);
      forall q | q in Pending(front, all, epoch) ensures q.id != p.id {
        PendingMember(front, all, epoch, q);
      }
    }
  }

  /** Two passes with removals in place compute exactly the uncancelled upgrades, in order. */
  lemma {:induction false} PendingExactly(ps: seq<Proposal>, epoch: Epoch)
    requires DistinctIds(ps)
    ensures AfterCancels(Accepted(ps, epoch), ps) == Pending(ps, ps, epoch)
  {
    AcceptedDistinct(ps, epoch);
    CancelsAreKeep(Accepted(ps, epoch), ps);
    KeepAccepted(ps, ps, epoch);
  }

  /** The upgrade has passed, its epoch is not over, and no passed proposal cancels it. */
  predicate StillToCome(p: Proposal, ps: seq<Proposal>, epoch: Epoch) {
    && p in ps && p.state == Passed && p.content.upgrade.Some? && epoch <= p.content.upgrade.value.epoch
    && !(exists q :: q in ps && q.state == Passed && q.content.cancelUpgrade == Some(p.id))
  }

  /** What is pending are the upgrades that are still to come, each of them once. */
  lemma {:induction false} PendingMeans(ps: seq<Proposal>, epoch: Epoch)
    requires DistinctIds(ps)
    ensures var pending := AfterCancels(Accepted(ps, epoch), ps);
            DistinctIds(pending) && forall p :: p in pending <==> StillToCome(p, ps, epoch)
  {
    hide AfterCancels, Accepted, Pending;
    PendingExactly(ps, epoch);
    PendingDistinct(ps, ps, epoch);
    forall p ensures p in Pending(ps, ps, epoch) <==> StillToCome(p, ps, epoch) {
      PendingMember(ps, ps, epoch, p);
      CancelledMeans(ps, p.id);
    }
  }

  lemma {:induction false} CancelledMeans(ps: seq<Proposal>, id: nat)
    ensures IsCancelled(ps, id) <==> exists q :: q in ps && q.state == Passed && q.content.cancelUpgrade == Some(id)
  {
    if exists q :: q in ps && q.state == Passed && q.content.cancelUpgrade == Some(id) {
      var q :| q in ps && q.state == Passed && q.content.cancelUpgrade == Some(id);
      var i :| 0 <= i < |ps| && ps[i] == q;
      assert Cancels(ps[i], id);
    }
  }
}
