/**
 * A member whose inputs are honest completes its handoff, with the inputs of
 * each stage in any order, unless the refreshed polynomial happens to be
 * insecure. The switch points are those that other nodes compute from their
 * own shares.
 */
module Completeness {
  import opened Field
  import opened Polynomials
  import opened Lagrange
  import opened Bivariate
  import opened Vss
  import opened Errors
  import opened Wrappers
  import opened Shares
  import opened Dealers
  import opened MatrixSums
  import opened SwitchModel
  import opened SwitchTheory
  import opened HandoffModel
  import opened HandoffTheory

  lemma {:induction false} RunFirst(h: Handoff, e: Event, rest: seq<Event>)
    requires HandoffInv(h)
    ensures HandoffInv(Step(h, e).0)
    ensures Run(h, [e] + rest) == Run(Step(h, e).0, rest)
    decreases |rest|
  {
    hide HandoffInv, Step;
    StepInv(h, e);
    var all, last := [e] + rest, |rest| - 1;
    if rest == [] {
      assert all[..|all| - 1] == [];
      assert Run(h, []) == h;
    } else {
      assert all[..|all| - 1] == [e] + rest[..last];
      RunFirst(h, e, rest[..last]);
    }
  }

  lemma {:induction false} RunConcat(h: Handoff, a: seq<Event>, b: seq<Event>)
    requires HandoffInv(h)
    ensures Run(h, a + b) == Run(Run(h, a), b)
    decreases |a|
  {
    hide HandoffInv, Step;
    if a == [] {
      assert a + b == b;
    } else {
      StepInv(h, a[0]);
      assert a == [a[0]] + a[1..];
      assert a + b == [a[0]] + (a[1..] + b);
      RunFirst(h, a[0], a[1..]);
      RunFirst(h, a[0], a[1..] + b);
      RunConcat(Step(h, a[0]).0, a[1..], b);
    }
  }

  function ReductionEvents(points: seq<Point>): (es: seq<Event>)
    ensures |es| == |points|
  {
    seq(|points|, i requires 0 <= i < |points| => AddReductionPoint(points[i]))
  }

  function DistributionEvents(points: seq<Point>): (es: seq<Event>)
    ensures |es| == |points|
  {
    seq(|points|, i requires 0 <= i < |points| => AddDistributionPoint(points[i]))
  }

  function ShareEvents(shares: seq<Contribution>): (es: seq<Event>)
    ensures |es| == |shares|
  {
    seq(|shares|, i requires 0 <= i < |shares| => AddShare(shares[i]))
  }

  // ---- points that other shareholders send ----

  /**
   * Dimension switching: what a holder of B(j, y) computes for `me` lies on
   * B(x, me), and what a holder of B(x, j) computes lies on B(me, y). The two
   * sides evaluate different polynomials and meet in B(j, me) or B(me, j).
   */
  lemma {:induction false} SwitchPointsMeet(vm: VerificationMatrix, sender: Config, receiver: Config)
    requires sender.full != receiver.full
    ensures SwitchPoint(CommittedShare(sender, vm), receiver.me)
         == SwitchPoint(CommittedShare(receiver, vm), sender.me)
  {
    hide Value, Committed;
    var b := Committed(vm);
    if sender.full {
      EvaluationOrder(b, sender.me, receiver.me);
    } else {
      EvaluationOrder(b, receiver.me, sender.me);
    }
  }

  /** The point that a shareholder sends to another node, from its own share. */
  function Sent(sh: Shareholder, to: Scalar): Point {
    Point(sh.share.x, SwitchPoint(sh, to))
  }

  function PointsSent(holders: seq<Shareholder>, to: Scalar): (points: seq<Point>)
    ensures |points| == |holders|
  {
    seq(|holders|, i requires 0 <= i < |holders| => Sent(holders[i], to))
  }

  function HolderXs(holders: seq<Shareholder>): (xs: seq<Scalar>)
    ensures |xs| == |holders|
  {
    seq(|holders|, i requires 0 <= i < |holders| => holders[i].share.x)
  }

  /** Distinct nodes that hold full (or reduced) shares of what vm commits to. */
  ghost predicate Holders(holders: seq<Shareholder>, vm: VerificationMatrix, full: bool) {
    && Distinct(HolderXs(holders))
    && forall i :: 0 <= i < |holders| ==> holders[i].vm == vm && Genuine(holders[i], full)
  }

  /** What holders of the other dimension send lies on the receiver's polynomial. */
  lemma {:induction false} SentPointsFit(c: Config, vm: VerificationMatrix, holders: seq<Shareholder>)
    requires Holders(holders, vm, !c.full)
    ensures OnPolynomial(c, vm, PointsSent(holders, c.me))
  {
    hide SwitchPoint, Committed, Distinct;
    var points := PointsSent(holders, c.me);
    assert PointXs(points) == HolderXs(holders);
    forall i | 0 <= i < |points| ensures points[i].y == SwitchPoint(CommittedShare(c, vm), points[i].x) {
      var sender := c.(full := !c.full, me := holders[i].share.x);
      assert holders[i] == CommittedShare(sender, vm);
      SwitchPointsMeet(vm, sender, c);
    }
  }

  /** The points lie on the committed polynomial and have distinct abscissas. */
  ghost predicate OnPolynomial(c: Config, vm: VerificationMatrix, points: seq<Point>) {
    && Distinct(PointXs(points))
    && forall i :: 0 <= i < |points| ==> points[i].y == SwitchPoint(CommittedShare(c, vm), points[i].x)
  }

  /** The next point is accepted. */
  lemma {:induction false} NextPoint(c: Config, vm: VerificationMatrix, points: seq<Point>, k: nat)
    requires OnPolynomial(c, vm, points) && k < |points| == PointsNeeded(c)
    ensures AddSwitchPoint(c, Accumulating(vm, points[..k]), points[k]) ==
            if k + 1 < |points| then (Accumulating(vm, points[..k + 1]), Ok(false))
            else if c.dealers == [] then (Serving(CommittedShare(c, vm)), Ok(true))
            else (Merging(Some(CommittedShare(c, vm)), []), Ok(true))
  {
    hide CommittedShare, SwitchPoint;
    var before := PointXs(points[..k]);
    forall i | 0 <= i < k ensures before[i] != points[k].x {
      assert PointXs(points)[i] != PointXs(points)[k];
    }
    assert points[..k] + [points[k]] == points[..k + 1];
  }

  lemma {:induction false} ReductionCompletes(h: Handoff, vm: VerificationMatrix, points: seq<Point>, k: nat)
    requires HandoffInv(h) && h.kind == CommitteeChanged && OnPolynomial(ReductionConfig(h), vm, points)
    requires k < |points| == PointsNeeded(ReductionConfig(h)) && h.reduction == Accumulating(vm, points[..k])
    ensures Run(h, ReductionEvents(points)[k..])
         == h.(reduction := Merging(Some(CommittedShare(ReductionConfig(h), vm)), []))
    decreases |points| - k
  {
    hide HandoffInv, OnPolynomial, AddSwitchPoint, CommittedShare;
    var c, events := ReductionConfig(h), ReductionEvents(points);
    HasDealers(h);
    NextPoint(c, vm, points, k);
    assert events[k..] == [AddReductionPoint(points[k])] + events[k + 1..];
    RunFirst(h, AddReductionPoint(points[k]), events[k + 1..]);
    var next := Step(h, AddReductionPoint(points[k])).0;
    if k + 1 < |points| {
      ReductionCompletes(next, vm, points, k + 1);
    } else {
      assert events[k + 1..] == [];
    }
  }

  lemma {:induction false} HasDealers(h: Handoff)
    requires HandoffInv(h)
    ensures h.dealers != []
  {
  }

  lemma {:induction false} DistributionCompletes(h: Handoff, vm: VerificationMatrix, points: seq<Point>, k: nat)
    requires HandoffInv(h) && h.kind == CommitteeChanged && OnPolynomial(DistributionConfig(h), vm, points)
    requires k < |points| == PointsNeeded(DistributionConfig(h)) && h.distribution == Accumulating(vm, points[..k])
    ensures Run(h, DistributionEvents(points)[k..])
         == h.(distribution := Serving(CommittedShare(DistributionConfig(h), vm)))
    decreases |points| - k
  {
    hide HandoffInv, OnPolynomial, AddSwitchPoint, CommittedShare;
    var c, events := DistributionConfig(h), DistributionEvents(points);
    NextPoint(c, vm, points, k);
    assert events[k..] == [AddDistributionPoint(points[k])] + events[k + 1..];
    RunFirst(h, AddDistributionPoint(points[k]), events[k + 1..]);
    var next := Step(h, AddDistributionPoint(points[k])).0;
    if k + 1 < |points| {
      DistributionCompletes(next, vm, points, k + 1);
    } else {
      assert events[k + 1..] == [];
    }
  }

  /** One verified contribution from each dealer, in any order. */
  ghost predicate OnePerDealer(c: Config, shares: seq<Contribution>) {
    AllVerified(c, shares) && multiset(DealersOf(shares)) == multiset(c.dealers)
  }

  lemma {:induction false} VerifiedPrefix(c: Config, shares: seq<Contribution>, k: nat)
    requires AllVerified(c, shares) && k <= |shares|
    ensures AllVerified(c, shares[..k])
    ensures k < |shares| ==> Verified(c, shares[k].share)
    decreases |shares|
  {
    hide Verified;
    var last := |shares| - 1;
    if k < last {
      VerifiedPrefix(c, shares[..last], k);
      assert shares[..last][..k] == shares[..k];
    } else {
      assert shares[..|shares|] == shares;
    }
  }

  lemma {:induction false} NextIsPending(c: Config, shares: seq<Contribution>, k: nat)
    requires multiset(DealersOf(shares)) == multiset(c.dealers) && k < |shares|
    ensures shares[k].dealer in Pending(c, shares[..k])
    ensures |shares| == |c.dealers|
  {
    var ds := DealersOf(shares);
    assert |multiset(ds)| == |multiset(c.dealers)|;
    assert ds == ds[..k] + [ds[k]] + ds[k + 1..];
    assert DealersOf(shares[..k]) == ds[..k];
  }

  lemma {:induction false} NextShare(c: Config, prior: Option<Shareholder>, shares: seq<Contribution>, k: nat)
    requires OnePerDealer(c, shares) && k < |shares|
    ensures AllVerified(c, shares[..k]) && |shares| == |c.dealers|
    ensures AddBivariateShare(c, Merging(prior, shares[..k]), shares[k]) ==
            if k + 1 < |shares| then (Merging(prior, shares[..k + 1]), Ok(false))
            else if Finish(c, prior, shares).Ok? then (Serving(Finish(c, prior, shares).value), Ok(true))
            else (Merging(prior, shares), Err(Finish(c, prior, shares).error))
  {
    hide Finish, Verify, AllVerified;
    VerifiedPrefix(c, shares, k);
    NextIsPending(c, shares, k);
    assert shares[..k] + [shares[k]] == shares[..k + 1];
    assert shares[..|shares|] == shares;
    assert shares[k].dealer in multiset(c.dealers);
    assert Admit(c, shares[..k], shares[k]).Ok?;
  }

  /** Reduction ends serving, and distribution starts, exactly if the final check passes. */
  lemma {:induction false} MergeCompletes(h: Handoff, prior: Option<Shareholder>, shares: seq<Contribution>, k: nat)
    requires HandoffInv(h) && h.kind == CommitteeChanged && OnePerDealer(ReductionConfig(h), shares)
    requires k < |shares| && h.reduction == Merging(prior, shares[..k])
    ensures var c := ReductionConfig(h);
            Run(h, ShareEvents(shares)[k..]) ==
            if Finish(c, prior, shares).Ok?
            then h.(reduction := Serving(Finish(c, prior, shares).value),
                    distribution := Accumulating(Finish(c, prior, shares).value.vm, []))
            else h.(reduction := Merging(prior, shares))
    decreases |shares| - k
  {
    hide HandoffInv, OnePerDealer, AddBivariateShare, Finish, AllVerified;
    var c, events := ReductionConfig(h), ShareEvents(shares);
    NextShare(c, prior, shares, k);
    StillWaiting(h);
    assert events[k..] == [AddShare(shares[k])] + events[k + 1..];
    RunFirst(h, AddShare(shares[k]), events[k + 1..]);
    var next := Step(h, AddShare(shares[k])).0;
    if k + 1 < |shares| {
      MergeCompletes(next, prior, shares, k + 1);
    } else {
      assert events[k + 1..] == [];
    }
  }

  lemma {:induction false} StillWaiting(h: Handoff)
    requires HandoffInv(h) && h.kind == CommitteeChanged && !h.reduction.Serving?
    ensures h.distribution.WaitingForVerificationMatrix?
  {
    hide Inv, Served;
  }

  /** The calls of an honest member until its reduction ends. */
  function FirstCalls(vm: VerificationMatrix, reduction: seq<Point>, shares: seq<Contribution>): (es: seq<Event>) {
    [SetVerificationMatrix(vm)] + ReductionEvents(reduction) + ShareEvents(shares)
  }

  /** Stage by stage, from points that lie on the polynomials. */
  lemma {:induction false} StagesComplete(
    a: Agreement, t: Threshold, me: Scalar, dealers: seq<Scalar>,
    reduction: seq<Point>, shares: seq<Contribution>, distribution: seq<Point>)
    requires Create(CommitteeChanged, t, me, dealers).Ok?
    requires var h := Create(CommitteeChanged, t, me, dealers).value;
             && Sound(a, h)
             && OnPolynomial(ReductionConfig(h), a.source.value, reduction) && |reduction| == t + 1
             && OnePerDealer(ReductionConfig(h), shares) && Agree(shares, a.matrices)
             && (Secure(Target(a, t, dealers), t) ==>
                   && OnPolynomial(DistributionConfig(h), Target(a, t, dealers), distribution)
                   && |distribution| == 2 * t + 1)
    ensures var h := Create(CommitteeChanged, t, me, dealers).value;
            var target := Target(a, t, dealers);
            var reduced := Run(h, FirstCalls(a.source.value, reduction, shares));
            var done := Run(h, FirstCalls(a.source.value, reduction, shares) + DistributionEvents(distribution));
            if Secure(target, t) then
              && GetReducedShareholder(reduced) == Ok(CommittedShare(ReductionConfig(h), target))
              && GetFullShareholder(done) == Ok(CommittedShare(DistributionConfig(h), target))
            else
              && GetReducedShareholder(reduced) == Err(InvalidState)
              && GetFullShareholder(done) == Err(InvalidState)
  {
    hide HandoffInv, OnPolynomial, OnePerDealer, Finish, AllVerified, CommittedShare, Committed, Agree;
    var h0 := Create(CommitteeChanged, t, me, dealers).value;
    var first, last := FirstCalls(a.source.value, reduction, shares), DistributionEvents(distribution);
    FirstStages(a, h0, reduction, shares);
    var h3 := Run(h0, first);
    RunConcat(h0, first, last);
    if Secure(Target(a, t, dealers), t) {
      assert distribution[..0] == [] && last[0..] == last;
      DistributionCompletes(h3, h3.distribution.vm, distribution, 0);
    } else {
      NothingToDistribute(h3, distribution);
    }
  }

  /** The final check would accept the matrix. */
  predicate Secure(m: VerificationMatrix, t: Threshold)
    requires HasDimensions(m, t)
  {
    m[0][0] != 0 && LeadingTermsNonZero(m, t)
  }

  /** Up to the end of reduction. */
  lemma {:induction false} FirstStages(a: Agreement, h0: Handoff, reduction: seq<Point>, shares: seq<Contribution>)
    requires HandoffInv(h0) && h0.kind == CommitteeChanged && Sound(a, h0)
    requires h0.reduction == WaitingForVerificationMatrix && h0.distribution == WaitingForVerificationMatrix
    requires OnPolynomial(ReductionConfig(h0), a.source.value, reduction) && |reduction| == h0.t + 1
    requires OnePerDealer(ReductionConfig(h0), shares) && Agree(shares, a.matrices)
    ensures h0.dealers != []
    ensures var c, target := ReductionConfig(h0), Target(a, h0.t, h0.dealers);
            Run(h0, FirstCalls(a.source.value, reduction, shares)) ==
            if Secure(target, h0.t)
            then h0.(reduction := Serving(CommittedShare(c, target)), distribution := Accumulating(target, []))
            else h0.(reduction := Merging(Some(CommittedShare(c, a.source.value)), shares))
  {
    hide HandoffInv, OnPolynomial, OnePerDealer, Finish, AllVerified, CommittedShare, Committed, Agree, Secure;
    HasDealers(h0);
    var vm := a.source.value;
    var es1, es2, es3 := [SetVerificationMatrix(vm)], ReductionEvents(reduction), ShareEvents(shares);
    RunFirst(h0, SetVerificationMatrix(vm), []);
    assert es1 + [] == es1;
    var h1 := Run(h0, es1);
    assert h1 == h0.(reduction := Accumulating(vm, []));
    assert reduction[..0] == [] && es2[0..] == es2;
    ReductionCompletes(h1, vm, reduction, 0);
    var prior := Some(CommittedShare(ReductionConfig(h0), vm));
    var h2 := Run(h1, es2);
    assert h2 == h1.(reduction := Merging(prior, []));
    MergeStage(a, h2, shares);
    RunConcat(h0, es1, es2);
    RunConcat(h0, es1 + es2, es3);
  }

  // ---- the same from what the other nodes hold ----

  /** The handoff of another member, after calls that agree with what is on chain. */
  ghost predicate Reduces(a: Agreement, t: Threshold, dealers: seq<Scalar>, h: Handoff) {
    exists events :: Reached(a, t, dealers, h, events)
  }

  ghost predicate Reached(a: Agreement, t: Threshold, dealers: seq<Scalar>, h: Handoff, events: seq<Event>) {
    var created := Create(CommitteeChanged, t, h.me, dealers);
    created.Ok? && AllConform(a, created.value, events) && h == Run(created.value, events)
  }

  /** The points that a member gets from those of the given members whose reduction serves. */
  function Answers(senders: seq<Handoff>, to: Scalar): (points: seq<Point>) {
    if senders == [] then []
    else
      var front, reduced := Answers(senders[..|senders| - 1], to), GetReducedShareholder(senders[|senders| - 1]);
      if reduced.Ok? then front + [Sent(reduced.value, to)] else front
  }

  function SenderXs(senders: seq<Handoff>): (xs: seq<Scalar>)
    ensures |xs| == |senders|
  {
    seq(|senders|, i requires 0 <= i < |senders| => senders[i].me)
  }

  /** Whoever serves after reduction holds its reduced share of the target, and the target is secure. */
  lemma {:induction false} ReducedShare(a: Agreement, t: Threshold, dealers: seq<Scalar>, h: Handoff)
    requires Published(a.matrices, dealers, t) && dealers != []
    requires a.source.Some? && HasDimensions(a.source.value, t)
    requires Reduces(a, t, dealers, h)
    ensures h.t == t && h.dealers == dealers
    ensures GetReducedShareholder(h).Ok? ==>
              && GetReducedShareholder(h).value == CommittedShare(ReductionConfig(h), Target(a, t, dealers))
              && Secure(Target(a, t, dealers), t)
  {
    hide CommittedShare, Committed, Refreshed, AllConform, VerifyShare;
    var events :| Reached(a, t, dealers, h, events);
    RunFollows(a, Create(CommitteeChanged, t, h.me, dealers).value, events);
    var target := Target(a, t, dealers);
    if GetReducedShareholder(h).Ok? {
      VerifyCommittedShare(ReductionConfig(h), target, false);
    }
  }

  lemma {:induction false} AnswersSent(senders: seq<Handoff>, to: Scalar, holders: seq<Shareholder>)
    requires |senders| == |holders|
    requires forall i :: 0 <= i < |senders| ==> GetReducedShareholder(senders[i]) == Ok(holders[i])
    ensures Answers(senders, to) == PointsSent(holders, to)
    decreases |senders|
  {
    hide Sent;
    if senders != [] {
      var last := |senders| - 1;
      AnswersSent(senders[..last], to, holders[..last]);
      assert PointsSent(holders, to) == PointsSent(holders[..last], to) + [Sent(holders[last], to)];
    }
  }

  /** Enough distinct members that serve send points on the receiver's polynomial. */
  lemma {:induction false} AnswersFit(
    a: Agreement, t: Threshold, dealers: seq<Scalar>, senders: seq<Handoff>, c: Config)
    requires Published(a.matrices, dealers, t) && dealers != []
    requires a.source.Some? && HasDimensions(a.source.value, t)
    requires Distinct(SenderXs(senders)) && c.full
    requires forall i :: 0 <= i < |senders| ==>
               Reduces(a, t, dealers, senders[i]) && GetReducedShareholder(senders[i]).Ok?
    ensures |Answers(senders, c.me)| == |senders|
    ensures OnPolynomial(c, Target(a, t, dealers), Answers(senders, c.me))
  {
    hide Reduces, OnPolynomial, Target, Answers, Committed, Restriction, GetReducedShareholder, Distinct;
    var target := Target(a, t, dealers);
    var holders := seq(|senders|, i requires 0 <= i < |senders| => CommittedShare(ReductionConfig(senders[i]), target));
    forall i | 0 <= i < |senders|
      ensures GetReducedShareholder(senders[i]) == Ok(holders[i]) && holders[i].share.x == senders[i].me
    {
      ReducedShare(a, t, dealers, senders[i]);
    }
    assert HolderXs(holders) == SenderXs(senders);
    AnswersSent(senders, c.me, holders);
    SentPointsFit(c, target, holders);
  }

  /**
   * A member of a changed committee that gets the switch points of any t + 1
   * distinct holders of the old secret, one verified share from each dealer,
   * and the switch points of any 2t + 1 distinct members whose own reduction
   * serves, ends with its share of the refreshed polynomial, if and only if
   * that polynomial is secure. If it is not, no member's reduction serves.
   */
  lemma {:induction false} HonestHandoffCompletes(
    a: Agreement, t: Threshold, me: Scalar, dealers: seq<Scalar>,
    holders: seq<Shareholder>, shares: seq<Contribution>, senders: seq<Handoff>)
    requires Create(CommitteeChanged, t, me, dealers).Ok?
    requires var h := Create(CommitteeChanged, t, me, dealers).value;
             && Sound(a, h)
             && Holders(holders, a.source.value, true) && |holders| == t + 1
             && OnePerDealer(ReductionConfig(h), shares) && Agree(shares, a.matrices)
    requires |senders| == 2 * t + 1 && Distinct(SenderXs(senders))
    requires forall i :: 0 <= i < |senders| ==>
               && Reduces(a, t, dealers, senders[i])
               && (Secure(Target(a, t, dealers), t) ==> GetReducedShareholder(senders[i]).Ok?)
    ensures var h := Create(CommitteeChanged, t, me, dealers).value;
            var target := Target(a, t, dealers);
            var first := FirstCalls(a.source.value, PointsSent(holders, me), shares);
            var done := Run(h, first + DistributionEvents(Answers(senders, me)));
            if Secure(target, t) then
              && GetReducedShareholder(Run(h, first)) == Ok(CommittedShare(ReductionConfig(h), target))
              && GetFullShareholder(done) == Ok(CommittedShare(DistributionConfig(h), target))
            else
              && GetReducedShareholder(Run(h, first)) == Err(InvalidState)
              && GetFullShareholder(done) == Err(InvalidState)
  {
    hide Secure, Reduces, OnPolynomial, Holders, OnePerDealer, Agree, Answers, CommittedShare, Refreshed;
    var h := Create(CommitteeChanged, t, me, dealers).value;
    SentPointsFit(ReductionConfig(h), a.source.value, holders);
    if Secure(Target(a, t, dealers), t) {
      AnswersFit(a, t, dealers, senders, DistributionConfig(h));
    }
    StagesComplete(a, t, me, dealers, PointsSent(holders, me), shares, Answers(senders, me));
  }

  /** The merging stage in terms of the target. */
  lemma {:induction false} MergeStage(a: Agreement, h: Handoff, shares: seq<Contribution>)
    requires HandoffInv(h) && h.kind == CommitteeChanged && Sound(a, h)
    requires h.reduction == Merging(Some(CommittedShare(ReductionConfig(h), a.source.value)), [])
    requires OnePerDealer(ReductionConfig(h), shares) && Agree(shares, a.matrices)
    ensures var c, target := ReductionConfig(h), Target(a, h.t, h.dealers);
            var prior := Some(CommittedShare(c, a.source.value));
            Run(h, ShareEvents(shares)) ==
            if Secure(target, h.t)
            then h.(reduction := Serving(CommittedShare(c, target)), distribution := Accumulating(target, []))
            else h.(reduction := Merging(prior, shares))
  {
    hide HandoffInv, Finish, AllVerified, Committed, Agree;
    var c := ReductionConfig(h);
    HasDealers(h);
    assert |multiset(DealersOf(shares))| == |multiset(c.dealers)|;
    assert shares[..0] == [] && ShareEvents(shares)[0..] == ShareEvents(shares);
    var prior := Some(CommittedShare(c, a.source.value));
    MergeCompletes(h, prior, shares, 0);
    MergedIsRefreshed(c, prior, shares, a.matrices);
    FinishOutcome(c, prior, shares);
  }

  lemma {:induction false} NothingToDistribute(h: Handoff, points: seq<Point>)
    requires HandoffInv(h) && h.kind == CommitteeChanged && h.distribution.WaitingForVerificationMatrix?
    ensures Run(h, DistributionEvents(points)) == h
  {
    hide HandoffInv;
    if points != [] {
      var last := |points| - 1;
      NothingToDistribute(h, points[..last]);
      assert DistributionEvents(points)[..last] == DistributionEvents(points[..last]);
    }
  }

  // ---- dealing, and handoffs within one committee ----

  lemma {:induction false} SingleMergeCompletes(
    h: Handoff, prior: Option<Shareholder>, shares: seq<Contribution>, k: nat)
    requires HandoffInv(h) && h.kind != CommitteeChanged && OnePerDealer(DistributionConfig(h), shares)
    requires k < |shares| && h.distribution == Merging(prior, shares[..k])
    ensures var c := DistributionConfig(h);
            Run(h, ShareEvents(shares)[k..]) ==
            h.(distribution := if Finish(c, prior, shares).Ok? then Serving(Finish(c, prior, shares).value)
                               else Merging(prior, shares))
    decreases |shares| - k
  {
    hide HandoffInv, OnePerDealer, AddBivariateShare, Finish, AllVerified;
    var c, events := DistributionConfig(h), ShareEvents(shares);
    NextShare(c, prior, shares, k);
    assert events[k..] == [AddShare(shares[k])] + events[k + 1..];
    RunFirst(h, AddShare(shares[k]), events[k + 1..]);
    var next := Step(h, AddShare(shares[k])).0;
    if k + 1 < |shares| {
      SingleMergeCompletes(next, prior, shares, k + 1);
    } else {
      assert events[k + 1..] == [];
    }
  }

  lemma {:induction false} SingleMergeStage(a: Agreement, h: Handoff, shares: seq<Contribution>)
    requires HandoffInv(h) && h.kind != CommitteeChanged && Sound(a, h)
    requires OnePerDealer(DistributionConfig(h), shares) && Agree(shares, a.matrices)
    requires h.distribution ==
             Merging(if a.source.None? then None else Some(CommittedShare(DistributionConfig(h), a.source.value)), [])
    ensures var target := Target(a, h.t, h.dealers);
            GetFullShareholder(Run(h, ShareEvents(shares))) ==
            if Secure(target, h.t) then Ok(CommittedShare(DistributionConfig(h), target))
            else Err(InvalidState)
  {
    hide HandoffInv, Finish, AllVerified, Committed, Agree;
    var c := DistributionConfig(h);
    HasDealers(h);
    assert |multiset(DealersOf(shares))| == |multiset(c.dealers)|;
    assert shares[..0] == [] && ShareEvents(shares)[0..] == ShareEvents(shares);
    var prior := h.distribution.prior;
    SingleMergeCompletes(h, prior, shares, 0);
    MergedIsRefreshed(c, prior, shares, a.matrices);
    FinishOutcome(c, prior, shares);
  }

  function SingleCalls(a: Agreement, h: Handoff, shares: seq<Contribution>): (es: seq<Event>) {
    var given := if a.source.None? then []
                 else [SetShareholder(CommittedShare(DistributionConfig(h), a.source.value))];
    given + ShareEvents(shares)
  }

  /** The same for a dealing phase and for a handoff with an unchanged committee. */
  lemma {:induction false} SingleHandoffCompletes(
    a: Agreement, kind: HandoffKind, t: Threshold, me: Scalar, dealers: seq<Scalar>, shares: seq<Contribution>)
    requires kind != CommitteeChanged && Create(kind, t, me, dealers).Ok?
    requires Sound(a, Create(kind, t, me, dealers).value)
    requires var h := Create(kind, t, me, dealers).value;
             OnePerDealer(DistributionConfig(h), shares) && Agree(shares, a.matrices)
    ensures var h := Create(kind, t, me, dealers).value;
            var target := Target(a, t, dealers);
            GetFullShareholder(Run(h, SingleCalls(a, h, shares))) ==
            if Secure(target, t) then Ok(CommittedShare(DistributionConfig(h), target))
            else Err(InvalidState)
  {
    hide HandoffInv, OnePerDealer, Finish, AllVerified, CommittedShare, Committed, Agree;
    var h := Create(kind, t, me, dealers).value;
    if kind == DealingPhase {
      assert SingleCalls(a, h, shares) == ShareEvents(shares);
      SingleMergeStage(a, h, shares);
    } else {
      var given := SetShareholder(CommittedShare(DistributionConfig(h), a.source.value));
      RunFirst(h, given, ShareEvents(shares));
      SingleMergeStage(a, Step(h, given).0, shares);
    }
  }
}
