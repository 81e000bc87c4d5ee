/**
 * The dimension switch as a state machine over values. It is defined by what
 * the verification matrix commits to: a switch point is accepted when it lies
 * on the committed polynomial, and a completed accumulation yields that
 * polynomial. How the code gets there (precomputed verification vector,
 * interpolation, lists edited in place) is the business of the classes in
 * `Switches`, which are proved to follow this machine step by step.
 */
module SwitchModel {
  import opened Field
  import opened Polynomials
  import opened Lagrange
  import opened Vss
  import opened Errors
  import opened Wrappers
  import opened Shares

  datatype Config = Config(t: Threshold, zeroHole: bool, full: bool, me: Scalar, dealers: seq<Scalar>)

  datatype Contribution = Contribution(dealer: Scalar, share: VerifiableShare)

  datatype Phase =
    | WaitingForVerificationMatrix
    | Accumulating(vm: VerificationMatrix, points: seq<Point>)
    | WaitingForShareholder
    | Merging(prior: Option<Shareholder>, accepted: seq<Contribution>)
    | Serving(shareholder: Shareholder)

  /** How many points determine the polynomial of a share. */
  function PointsNeeded(c: Config): nat {
    if c.full then Cols(c.t) else Rows(c.t)
  }

  /** The share of c.me under the polynomial that vm commits to. */
  function CommittedShare(c: Config, vm: VerificationMatrix): (s: VerifiableShare) {
    VerifiableShare(SecretShare(c.me, Restriction(Committed(vm), c.me, c.full)), vm)
  }

  function PointXs(points: seq<Point>): (xs: seq<Scalar>)
    ensures |xs| == |points|
  {
    seq(|points|, i requires 0 <= i < |points| => points[i].x)
  }

  function PointYs(points: seq<Point>): (ys: seq<Scalar>)
    ensures |ys| == |points|
  {
    seq(|points|, i requires 0 <= i < |points| => points[i].y)
  }

  function DealersOf(accepted: seq<Contribution>): (ds: seq<Scalar>)
    ensures |ds| == |accepted|
  {
    seq(|accepted|, i requires 0 <= i < |accepted| => accepted[i].dealer)
  }

  /** The dealers, with multiplicity, whose contribution is still missing. */
  function Pending(c: Config, accepted: seq<Contribution>): multiset<Scalar> {
    multiset(c.dealers) - multiset(DealersOf(accepted))
  }

  /** A share for me that passes the check on contributions. */
  predicate Verified(c: Config, vs: VerifiableShare)
    ensures Verified(c, vs) ==> HasDimensions(vs.vm, c.t)
  {
    vs.share.x == c.me && Verify(vs, c.t, c.zeroHole, c.full).Ok?
  }

  /** All accepted contributions have passed verification. */
  predicate AllVerified(c: Config, accepted: seq<Contribution>) {
    var last := |accepted| - 1;
    accepted == [] || (AllVerified(c, accepted[..last]) && Verified(c, accepted[last].share))
  }

  /** The sum of all contributions. */
  function Total(c: Config, accepted: seq<Contribution>): (s: VerifiableShare)
    requires 0 < |accepted| && AllVerified(c, accepted)
    ensures HasDimensions(s.vm, c.t) && s.share.x == c.me
  {
    var last := |accepted| - 1;
    if last == 0 then accepted[0].share else AddShares(Total(c, accepted[..last]), accepted[last].share)
  }

  /** Adding the total to the prior shareholder, and the final check. */
  function Finish(c: Config, prior: Option<Shareholder>, accepted: seq<Contribution>): (r: Result<Shareholder>)
    requires 0 < |accepted| && AllVerified(c, accepted)
    ensures r.Ok? ==> Verify(r.value, c.t, false, c.full).Ok? && HasDimensions(r.value.vm, c.t)
  {
    var total := Total(c, accepted);
    var candidate := if prior.None? then Ok(total) else Proactivize(prior.value, total.share.p, total.vm);
    if candidate.Err? then candidate
    else
      var check := Verify(candidate.value, c.t, false, c.full);
      if check.Err? then Err(check.error) else candidate
  }

  function SkipAccumulating(phase: Phase): (Phase, Result<()>) {
    if phase.WaitingForVerificationMatrix? then (WaitingForShareholder, Ok(())) else (phase, Err(InvalidState))
  }

  function StartAccumulating(c: Config, phase: Phase, vm: VerificationMatrix): (Phase, Result<()>) {
    if !phase.WaitingForVerificationMatrix? then (phase, Err(InvalidState))
    else if !HasDimensions(vm, c.t) then (phase, Err(VerificationMatrixDimensionMismatch))
    else (Accumulating(vm, []), Ok(()))
  }

  function AddSwitchPoint(c: Config, phase: Phase, point: Point): (Phase, Result<bool>) {
    if !phase.Accumulating? then (phase, Err(InvalidState))
    else
      var share := CommittedShare(c, phase.vm);
      var points := phase.points + [point];
      if |phase.points| >= PointsNeeded(c) then (phase, Err(TooManySwitchPoints))
      else if point.x in PointXs(phase.points) then (phase, Err(DuplicateShareholder))
      else if point.y != SwitchPoint(share, point.x) then (phase, Err(InvalidSwitchPoint))
      else if |points| < PointsNeeded(c) then (Accumulating(phase.vm, points), Ok(false))
      else if c.dealers == [] then (Serving(share), Ok(true))
      else (Merging(Some(share), []), Ok(true))
  }

  function StartMerging(c: Config, phase: Phase, prior: Option<Shareholder>): (Phase, Result<()>) {
    if !phase.WaitingForShareholder? then (phase, Err(InvalidState))
    else if c.dealers == [] then (phase, Err(NotEnoughShareholders))
    else (Merging(prior, []), Ok(()))
  }

  ghost predicate AccumulatingInv(c: Config, vm: VerificationMatrix, points: seq<Point>) {
    && HasDimensions(vm, c.t)
    && |points| < PointsNeeded(c)
    && Distinct(PointXs(points))
    && forall i :: 0 <= i < |points| ==> points[i].y == SwitchPoint(CommittedShare(c, vm), points[i].x)
  }

  /** What holds of a phase in every reachable state. */
  ghost predicate Inv(c: Config, phase: Phase) {
    match phase
    case WaitingForVerificationMatrix => true
    case WaitingForShareholder => true
    case Accumulating(vm, points) => AccumulatingInv(c, vm, points)
    case Merging(prior, accepted) =>
      && c.dealers != []
      && AllVerified(c, accepted)
      && multiset(DealersOf(accepted)) <= multiset(c.dealers)
    case Serving(shareholder) =>
      && HasDimensions(shareholder.vm, c.t)
  }

  /** The checks a contribution must pass to be merged. */
  function Admit(c: Config, accepted: seq<Contribution>, one: Contribution): (r: Result<()>)
    ensures r.Ok? ==> Verified(c, one.share) && one.dealer in Pending(c, accepted)
  {
    if one.dealer !in c.dealers then Err(UnknownShareholder)
    else if one.dealer !in Pending(c, accepted) then Err(DuplicateShareholder)
    else if one.share.share.x != c.me then Err(ShareholderIdentityMismatch)
    else Verify(one.share, c.t, c.zeroHole, c.full)
  }

  function AddBivariateShare(c: Config, phase: Phase, one: Contribution): (Phase, Result<bool>)
    requires phase.Merging? ==> AllVerified(c, phase.accepted)
  {
    if !phase.Merging? then (phase, Err(InvalidState))
    else
      var admitted := Admit(c, phase.accepted, one);
      var accepted := phase.accepted + [one];
      if admitted.Err? then (phase, Err(admitted.error))
      else
        assert accepted[..|accepted| - 1] == phase.accepted;
        if |accepted| < |c.dealers| then (Merging(phase.prior, accepted), Ok(false))
        else
          var shareholder := Finish(c, phase.prior, accepted);
          if shareholder.Ok? then (Serving(shareholder.value), Ok(true))
          else (Merging(phase.prior, accepted), Err(shareholder.error))
  }

  lemma {:induction false} NotMerging(c: Config, phase: Phase, one: Contribution)
    requires !phase.Merging?
    ensures AddBivariateShare(c, phase, one) == (phase, Err(InvalidState))
  {
  }

  /** The same by cases, for a switch that is merging. */
  lemma {:induction false} MergingCases(
    c: Config, prior: Option<Shareholder>, accepted: seq<Contribution>, one: Contribution)
    requires AllVerified(c, accepted)
    ensures var phase, more := Merging(prior, accepted), accepted + [one];
            var admitted := Admit(c, accepted, one);
            if admitted.Err? then AddBivariateShare(c, phase, one) == (phase, Err(admitted.error))
            else
              && AllVerified(c, more)
              && AddBivariateShare(c, phase, one) ==
                 if |more| < |c.dealers| then (Merging(prior, more), Ok(false))
                 else if Finish(c, prior, more).Ok? then (Serving(Finish(c, prior, more).value), Ok(true))
                 else (Merging(prior, more), Err(Finish(c, prior, more).error))
  {
    hide Admit, Finish, Verified;
    var more := accepted + [one];
    assert more[..|more| - 1] == accepted;
  }

  function GetShareholder(phase: Phase): Result<Shareholder> {
    if phase.Serving? then Ok(phase.shareholder) else Err(InvalidState)
  }
}
