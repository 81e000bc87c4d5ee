/** What every run of a dimension switch keeps, and where it ends. */
module SwitchTheory {
  import opened Field
  import opened Polynomials
  import opened Lagrange
  import opened Bivariate
  import opened Vss
  import opened Errors
  import opened Wrappers
  import opened Shares
  import opened SwitchModel
  import opened MatrixSums

  /** A shareholder whose share is what its own matrix commits to. */
  ghost predicate GenuinePrior(c: Config, prior: Option<Shareholder>) {
    prior.Some? ==>
      && HasDimensions(prior.value.vm, c.t)
      && prior.value == CommittedShare(c, prior.value.vm)
  }

  lemma {:induction false} VerifiedMeaning(c: Config, vs: VerifiableShare)
    requires Verified(c, vs)
    ensures vs == CommittedShare(c, vs.vm)
    ensures IsZeroHole(vs.vm) == c.zeroHole
  {
    VerifyMeaning(vs, c.t, c.zeroHole, c.full);
  }

  /** One more verified contribution. */
  lemma {:induction false} AcceptOne(c: Config, accepted: seq<Contribution>, one: Contribution)
    requires AllVerified(c, accepted)
    requires Verified(c, one.share)
    ensures var more := accepted + [one];
            && AllVerified(c, more)
            && DealersOf(more) == DealersOf(accepted) + [one.dealer]
            && Total(c, more) == if accepted == [] then one.share else AddShares(Total(c, accepted), one.share)
  {
    var more := accepted + [one];
    assert more[..|more| - 1] == accepted;
  }

  /** Merged contributions are again a genuine share of the merged matrix. */
  lemma {:induction false} TotalGenuine(c: Config, accepted: seq<Contribution>)
    requires AllVerified(c, accepted) && 0 < |accepted|
    ensures Total(c, accepted) == CommittedShare(c, Total(c, accepted).vm)
    ensures c.zeroHole ==> IsZeroHole(Total(c, accepted).vm)
  {
    var last := |accepted| - 1;
    VerifiedMeaning(c, accepted[last].share);
    if last > 0 {
      TotalGenuine(c, accepted[..last]);
      AddSharesGenuine(Total(c, accepted[..last]), accepted[last].share, c.full);
    }
  }

  /** The matrix a completed merge ends with. */
  function MergedMatrix(c: Config, prior: Option<Shareholder>, accepted: seq<Contribution>): (m: VerificationMatrix)
    requires 0 < |accepted| && AllVerified(c, accepted)
    requires prior.Some? ==> HasDimensions(prior.value.vm, c.t)
    ensures HasDimensions(m, c.t)
  {
    var total := Total(c, accepted);
    if prior.None? then total.vm else AddMatrices(total.vm, prior.value.vm)
  }

  /** On a committed share only the checks of the matrix itself can fail. */
  lemma {:induction false} VerifyCommittedShare(c: Config, m: VerificationMatrix, zeroHole: bool)
    requires HasDimensions(m, c.t)
    ensures Verify(CommittedShare(c, m), c.t, zeroHole, c.full) == VerifyMatrix(m, c.t, zeroHole)
  {
    hide Mod, Committed;
    VerifyXMeaning(m, c.me, Restriction(Committed(m), c.me, c.full));
    VerifyYMeaning(m, c.me, Restriction(Committed(m), c.me, c.full));
  }

  lemma {:induction false} ProactivizedShare(c: Config, prior: Shareholder, accepted: seq<Contribution>)
    requires AllVerified(c, accepted) && 0 < |accepted| && c.zeroHole
    requires GenuinePrior(c, Some(prior))
    ensures var total, m := Total(c, accepted), MergedMatrix(c, Some(prior), accepted);
            && m[0][0] == prior.vm[0][0]
            && Proactivize(prior, total.share.p, total.vm) == Ok(CommittedShare(c, m))
  {
    TotalGenuine(c, accepted);
    var total := Total(c, accepted);
    AddSharesGenuine(total, prior, c.full);
  }

  /**
   * The final check after merging can fail only on a zero secret or on a
   * vanished leading term of the merged polynomial, never on the match of
   * polynomial and matrix, and proactivization keeps the secret.
   */
  lemma {:induction false} FinishOutcome(c: Config, prior: Option<Shareholder>, accepted: seq<Contribution>)
    requires AllVerified(c, accepted) && 0 < |accepted|
    requires GenuinePrior(c, prior) && (prior.Some? ==> c.zeroHole)
    ensures var m := MergedMatrix(c, prior, accepted);
            && (prior.Some? ==> m[0][0] == prior.value.vm[0][0])
            && Finish(c, prior, accepted) ==
               if m[0][0] == 0 then Err(VerificationMatrixZeroHoleMismatch)
               else if !LeadingTermsNonZero(m, c.t) then Err(InsecureBivariatePolynomial)
               else Ok(CommittedShare(c, m))
  {
    hide Committed, CommittedShare, Proactivize, AddMatrices, Verify;
    var m := MergedMatrix(c, prior, accepted);
    if prior.Some? {
      ProactivizedShare(c, prior.value, accepted);
    } else {
      TotalGenuine(c, accepted);
    }
    VerifyCommittedShare(c, m, false);
  }

  // ---- invariants of every step ----

  /**
   * Points stay distinct and on the committed polynomial, and the last one
   * needed turns them into exactly the committed share.
   */
  lemma {:induction false} AddSwitchPointInv(c: Config, phase: Phase, point: Point)
    requires Inv(c, phase)
    ensures var (next, r) := AddSwitchPoint(c, phase, point);
            && Inv(c, next)
            && (r.Err? ==> next == phase)
            && (r.Ok? ==>
                  && phase.Accumulating? && HasDimensions(phase.vm, c.t)
                  && r.value == (|phase.points| + 1 == PointsNeeded(c))
                  && next == if !r.value then Accumulating(phase.vm, phase.points + [point])
                             else if c.dealers == [] then Serving(CommittedShare(c, phase.vm))
                             else Merging(Some(CommittedShare(c, phase.vm)), []))
  {
    hide SwitchPoint;
    if phase.Accumulating? {
      assert PointXs(phase.points + [point]) == PointXs(phase.points) + [point.x];
    }
  }

  /** A dealer that is still pending can be added without exceeding the dealers. */
  /**
   * Which contributions are refused, if no dealer is listed twice: those of
   * strangers, those of dealers who have contributed, and those that are not a
   * verified share for this node.
   */
  lemma {:induction false} RefusedExactly(c: Config, accepted: seq<Contribution>, one: Contribution)
    requires Distinct(c.dealers) && multiset(DealersOf(accepted)) <= multiset(c.dealers)
    ensures var r := Admit(c, accepted, one);
            var known := one.dealer in c.dealers;
            var again := exists i :: 0 <= i < |accepted| && accepted[i].dealer == one.dealer;
            && (r == Err(UnknownShareholder) <==> !known)
            && (r == Err(DuplicateShareholder) <==> known && again)
            && (r == Err(ShareholderIdentityMismatch) <==> known && !again && one.share.share.x != c.me)
            && (r.Ok? <==>
                known && !again && one.share.share.x == c.me && Verify(one.share, c.t, c.zeroHole, c.full).Ok?)
  {
    hide VerifyX, VerifyY;
    var senders := DealersOf(accepted);
    assert one.dealer in multiset(senders) <==> one.dealer in senders;
    assert forall i :: 0 <= i < |accepted| ==> senders[i] == accepted[i].dealer;
    DistinctCount(c.dealers, one.dealer);
  }

  lemma {:induction false} DistinctCount(s: seq<Scalar>, x: Scalar)
    requires Distinct(s)
    ensures multiset(s)[x] == if x in s then 1 else 0
  {
    if s != [] {
      var front, last := s[..|s| - 1], s[|s| - 1];
      assert s == front + [last];
      DistinctCount(front, x);
    }
  }

  /** Which switch points are refused, and with which one the accumulation is complete. */
  lemma {:induction false} PointExactly(c: Config, phase: Phase, point: Point)
    requires phase.Accumulating? && Inv(c, phase)
    ensures var (next, r) := AddSwitchPoint(c, phase, point);
            var again := exists i :: 0 <= i < |phase.points| && phase.points[i].x == point.x;
            && (r == Err(DuplicateShareholder) <==> again)
            && (r == Err(InvalidSwitchPoint) <==>
                !again && point.y != Value(Restriction(Committed(phase.vm), c.me, c.full), point.x))
            && (r.Err? ==> next == phase && r.error in {DuplicateShareholder, InvalidSwitchPoint})
            && (r.Ok? ==> (r.value <==> |phase.points| + 1 == if c.full then 2 * c.t + 1 else c.t + 1))
  {
    hide Value, Restriction, Committed;
    var xs := PointXs(phase.points);
    assert forall i :: 0 <= i < |phase.points| ==> phase.points[i].x == xs[i];
  }

  lemma {:induction false} PendingRoom(c: Config, accepted: seq<Contribution>, one: Contribution)
    requires multiset(DealersOf(accepted)) <= multiset(c.dealers)
    requires one.dealer in Pending(c, accepted)
    ensures multiset(DealersOf(accepted + [one])) <= multiset(c.dealers)
    ensures Pending(c, accepted + [one]) == Pending(c, accepted) - multiset{one.dealer}
  {
    assert DealersOf(accepted + [one]) == DealersOf(accepted) + [one.dealer];
  }

  /** What a bivariate share does, by cases. */
  lemma {:induction false} AddBivariateShareCases(c: Config, phase: Phase, one: Contribution)
    requires Inv(c, phase)
    ensures var (next, r) := AddBivariateShare(c, phase, one);
            if !phase.Merging? || Admit(c, phase.accepted, one).Err? then next == phase && r.Err?
            else
              var accepted := phase.accepted + [one];
              && AllVerified(c, accepted) && |accepted| <= |c.dealers|
              && if |accepted| < |c.dealers| then (next, r) == (Merging(phase.prior, accepted), Ok(false))
                 else if Finish(c, phase.prior, accepted).Ok?
                 then (next, r) == (Serving(Finish(c, phase.prior, accepted).value), Ok(true))
                 else (next, r) == (Merging(phase.prior, accepted), Err(Finish(c, phase.prior, accepted).error))
  {
    hide AccumulatingInv, Verified, Verify, Finish, Admit, Pending, DealersOf, AllVerified;
    if phase.Merging? {
      hide AddBivariateShare;
      MergingCases(c, phase.prior, phase.accepted, one);
      if Admit(c, phase.accepted, one).Ok? {
        PendingRoom(c, phase.accepted, one);
        MultisetSizes(DealersOf(phase.accepted + [one]), c.dealers);
      }
    }
  }

  lemma {:induction false} AddBivariateShareInv(c: Config, phase: Phase, one: Contribution)
    requires Inv(c, phase)
    ensures var (next, r) := AddBivariateShare(c, phase, one);
            && Inv(c, next)
            && (next.Serving? && !phase.Serving? ==> Verify(next.shareholder, c.t, false, c.full).Ok?)
            && (r == Ok(true) <==> next.Serving? && !phase.Serving?)
  {
    hide AddBivariateShare, AccumulatingInv, Verified, Verify, Finish, Admit, Pending, DealersOf, AllVerified;
    AddBivariateShareCases(c, phase, one);
    if phase.Merging? && Admit(c, phase.accepted, one).Ok? {
      PendingRoom(c, phase.accepted, one);
    }
  }

  // ---- progress ----

  /** How many more successful calls the switch can take. */
  function Remaining(c: Config, phase: Phase): int {
    match phase
    case WaitingForVerificationMatrix => 3 + |c.dealers| + PointsNeeded(c)
    case Accumulating(_, points) => 2 + |c.dealers| + PointsNeeded(c) - |points|
    case WaitingForShareholder => 2 + |c.dealers|
    case Merging(_, accepted) => 1 + |c.dealers| - |accepted|
    case Serving(_) => 0
  }

  lemma {:induction false} MultisetSizes(a: seq<Scalar>, b: seq<Scalar>)
    requires multiset(a) <= multiset(b)
    ensures |a| <= |b|
    ensures multiset(b) - multiset(a) == multiset{} <==> |a| == |b|
  {
    var rest := multiset(b) - multiset(a);
    assert multiset(b) == multiset(a) + rest;
    assert |multiset(b)| == |multiset(a)| + |rest|;
  }

  lemma {:induction false} RemainingNonNegative(c: Config, phase: Phase)
    requires Inv(c, phase)
    ensures 0 <= Remaining(c, phase)
  {
    if phase.Merging? {
      MultisetSizes(DealersOf(phase.accepted), c.dealers);
    }
  }

  /**
   * Every successful call brings the switch nearer to serving and a failed
   * one leaves it as it was; a serving switch no longer changes.
   */
  lemma {:induction false} PreparationProgress(
    c: Config, phase: Phase, vm: VerificationMatrix, prior: Option<Shareholder>)
    requires Inv(c, phase)
    ensures var (next, r) := SkipAccumulating(phase);
            if r.Ok? then Remaining(c, next) < Remaining(c, phase) else next == phase
    ensures var (next, r) := StartAccumulating(c, phase, vm);
            if r.Ok? then Remaining(c, next) < Remaining(c, phase) else next == phase
    ensures var (next, r) := StartMerging(c, phase, prior);
            if r.Ok? then Remaining(c, next) < Remaining(c, phase) else next == phase
  {
  }

  lemma {:induction false} SwitchPointProgress(c: Config, phase: Phase, point: Point)
    requires Inv(c, phase)
    ensures var (next, r) := AddSwitchPoint(c, phase, point);
            if r.Ok? then Remaining(c, next) < Remaining(c, phase) else next == phase
  {
    hide CommittedShare, SwitchPoint;
  }

  /** Here a failed final check also uses up a contribution. */
  lemma {:induction false} BivariateShareProgress(c: Config, phase: Phase, one: Contribution)
    requires Inv(c, phase)
    ensures var (next, r) := AddBivariateShare(c, phase, one);
            if phase.Merging? && Admit(c, phase.accepted, one).Ok? then Remaining(c, next) < Remaining(c, phase)
            else r.Err? && next == phase
  {
    hide AddBivariateShare, AccumulatingInv, Finish, Admit, DealersOf, AllVerified;
    AddBivariateShareCases(c, phase, one);
  }

  /** A call on a switch. */
  datatype Call =
    | Skip
    | Accumulate(vm: VerificationMatrix)
    | Supply(point: Point)
    | Merge(prior: Option<Shareholder>)
    | Contribute(one: Contribution)

  function Called(c: Config, phase: Phase, call: Call): Phase
    requires phase.Merging? ==> AllVerified(c, phase.accepted)
  {
    match call
    case Skip => SkipAccumulating(phase).0
    case Accumulate(vm) => StartAccumulating(c, phase, vm).0
    case Supply(point) => AddSwitchPoint(c, phase, point).0
    case Merge(prior) => StartMerging(c, phase, prior).0
    case Contribute(one) => AddBivariateShare(c, phase, one).0
  }

  lemma {:induction false} CalledInv(c: Config, phase: Phase, call: Call)
    requires Inv(c, phase)
    ensures Inv(c, Called(c, phase, call))
    ensures Called(c, phase, call) != phase ==> Remaining(c, Called(c, phase, call)) < Remaining(c, phase)
  {
    hide Remaining, AddSwitchPoint, AddBivariateShare, CommittedShare;
    match call
    case Supply(point) =>
      AddSwitchPointInv(c, phase, point);
      SwitchPointProgress(c, phase, point);
    case Contribute(one) =>
      AddBivariateShareInv(c, phase, one);
      BivariateShareProgress(c, phase, one);
    case Accumulate(vm) => PreparationProgress(c, phase, vm, None);
    case Merge(prior) => PreparationProgress(c, phase, [[0]], prior);
    case Skip => PreparationProgress(c, phase, [[0]], None);
  }

  ghost predicate Steps(c: Config, phase: Phase, call: Call, next: Phase) {
    Inv(c, phase) && next == Called(c, phase, call)
  }

  /** The phases that a switch goes through on the given calls. */
  ghost predicate Trace(c: Config, phases: seq<Phase>, calls: seq<Call>) {
    && |phases| == |calls| + 1 && Inv(c, phases[0])
    && forall i :: 0 <= i < |calls| ==> Steps(c, phases[i], calls[i], phases[i + 1])
  }

  /** How many of the calls change the switch. */
  function Changes(phases: seq<Phase>): (n: nat)
    requires phases != []
  {
    if |phases| == 1 then 0 else (if phases[0] == phases[1] then 0 else 1) + Changes(phases[1..])
  }

  /** In every run, whatever is called in whatever order, only so many calls take effect. */
  lemma {:induction false} ChangesBounded(c: Config, phases: seq<Phase>, calls: seq<Call>)
    requires Trace(c, phases, calls)
    ensures Changes(phases) <= Remaining(c, phases[0])
    decreases |calls|
  {
    hide Remaining, Called, Inv;
    RemainingNonNegative(c, phases[0]);
    if calls != [] {
      assert Steps(c, phases[0], calls[0], phases[1]);
      CalledInv(c, phases[0], calls[0]);
      forall i | 0 <= i < |calls| - 1 ensures Steps(c, phases[1..][i], calls[1..][i], phases[1..][i + 1]) {
        assert Steps(c, phases[i + 1], calls[i + 1], phases[i + 2]);
      }
      ChangesBounded(c, phases[1..], calls[1..]);
    }
  }

  /**
   * A switch whose final check has failed is stuck: all dealers are used up
   * and every further share is refused.
   */
  lemma {:induction false} FailedCheckIsFinal(c: Config, phase: Phase, one: Contribution, later: Contribution)
    requires Inv(c, phase) && phase.Merging? && Admit(c, phase.accepted, one).Ok?
    requires AddBivariateShare(c, phase, one).1.Err?
    ensures var (next, _) := AddBivariateShare(c, phase, one);
            && next.Merging? && multiset(DealersOf(next.accepted)) == multiset(c.dealers)
            && Inv(c, next)
            && AddBivariateShare(c, next, later) ==
               (next, Err(if later.dealer in c.dealers then DuplicateShareholder else UnknownShareholder))
  {
    AddBivariateShareInv(c, phase, one);
    var next := AddBivariateShare(c, phase, one).0;
    assert next == Merging(phase.prior, phase.accepted + [one]);
    PendingRoom(c, phase.accepted, one);
    MultisetSizes(DealersOf(next.accepted), c.dealers);
    assert multiset(c.dealers) == multiset(DealersOf(next.accepted)) + Pending(c, next.accepted);
  }

  // ---- what the switch ends with, given where its inputs come from ----

  /** Each contribution carries the matrix its dealer has published. */
  ghost predicate Agree(accepted: seq<Contribution>, matrices: map<Scalar, VerificationMatrix>) {
    forall i :: 0 <= i < |accepted| ==>
      accepted[i].dealer in matrices && accepted[i].share.vm == matrices[accepted[i].dealer]
  }

  lemma {:induction false} AgreePublished(
    c: Config, accepted: seq<Contribution>, matrices: map<Scalar, VerificationMatrix>)
    requires Agree(accepted, matrices) && AllVerified(c, accepted)
    ensures Published(matrices, DealersOf(accepted), c.t)
  {
    hide Verify;
    if accepted != [] {
      var last := |accepted| - 1;
      AgreePublished(c, accepted[..last], matrices);
      assert DealersOf(accepted) == DealersOf(accepted[..last]) + [accepted[last].dealer];
    }
  }

  lemma {:induction false} TotalMatrix(
    c: Config, accepted: seq<Contribution>, matrices: map<Scalar, VerificationMatrix>)
    requires Agree(accepted, matrices) && AllVerified(c, accepted) && 0 < |accepted|
    ensures Published(matrices, DealersOf(accepted), c.t)
    ensures Total(c, accepted).vm == SumOf(matrices, DealersOf(accepted), c.t)
  {
    hide Verify, AddMatrices;
    AgreePublished(c, accepted, matrices);
    var last := |accepted| - 1;
    if last > 0 {
      TotalMatrix(c, accepted[..last], matrices);
      assert DealersOf(accepted)[..last] == DealersOf(accepted[..last]);
    }
  }

  /** The matrix after a handoff: the source, refreshed by all dealers. */
  function Refreshed(
    t: Threshold, source: Option<VerificationMatrix>, matrices: map<Scalar, VerificationMatrix>, dealers: seq<Scalar>)
    : (m: VerificationMatrix)
    requires Published(matrices, dealers, t) && 0 < |dealers|
    requires source.Some? ==> HasDimensions(source.value, t)
    ensures HasDimensions(m, t)
  {
    if source.None? then SumOf(matrices, dealers, t)
    else AddMatrices(SumOf(matrices, dealers, t), source.value)
  }

  /** Once all dealers have contributed, the merged matrix is known. */
  lemma {:induction false} MergedIsRefreshed(
    c: Config, prior: Option<Shareholder>, accepted: seq<Contribution>, matrices: map<Scalar, VerificationMatrix>)
    requires Agree(accepted, matrices) && AllVerified(c, accepted) && GenuinePrior(c, prior)
    requires Published(matrices, c.dealers, c.t) && c.dealers != []
    requires multiset(DealersOf(accepted)) <= multiset(c.dealers) && |accepted| == |c.dealers|
    ensures 0 < |accepted|
    ensures MergedMatrix(c, prior, accepted)
         == Refreshed(c.t, if prior.None? then None else Some(prior.value.vm), matrices, c.dealers)
  {
    MultisetSizes(DealersOf(accepted), c.dealers);
    assert multiset(DealersOf(accepted)) == multiset(c.dealers) by {
      assert multiset(c.dealers) == multiset(DealersOf(accepted)) + Pending(c, accepted);
    }
    TotalMatrix(c, accepted, matrices);
    SumPermutation(matrices, DealersOf(accepted), c.dealers, c.t);
  }
}
