/**
 * The three kinds of handoff as one state machine. Only a handoff with a
 * changed committee has a reduction switch; its two switches are chained.
 */
module HandoffModel {
  import opened Field
  import opened Lagrange
  import opened Vss
  import opened Errors
  import opened Wrappers
  import opened Shares
  import opened Dealers
  import opened SwitchModel
  import opened SwitchTheory

  datatype Handoff = Handoff(
    kind: HandoffKind,
    t: Threshold,
    me: Scalar,
    dealers: seq<Scalar>,
    reduction: Phase,
    distribution: Phase)

  datatype Event =
    | SetVerificationMatrix(vm: VerificationMatrix)
    | SetShareholder(shareholder: Shareholder)
    | AddReductionPoint(point: Point)
    | AddDistributionPoint(point: Point)
    | AddShare(one: Contribution)

  function ReductionConfig(h: Handoff): (c: Config) { Config(h.t, true, false, h.me, h.dealers) }

  function DistributionConfig(h: Handoff): (c: Config) {
    Config(h.t, RequireZeroHole(h.kind), true, h.me, if h.kind == CommitteeChanged then [] else h.dealers)
  }

  function MinDealers(kind: HandoffKind, t: Threshold): nat {
    if kind == DealingPhase then t + 2 else t + 1
  }

  function Create(kind: HandoffKind, t: Threshold, me: Scalar, dealers: seq<Scalar>): (r: Result<Handoff>)
    ensures r.Ok? ==> HandoffInv(r.value)
  {
    if |dealers| < MinDealers(kind, t) then Err(NotEnoughShareholders)
    else
      var distribution := match kind
        case DealingPhase => Merging(None, [])
        case CommitteeUnchanged => WaitingForShareholder
        case CommitteeChanged => WaitingForVerificationMatrix;
      Ok(Handoff(kind, t, me, dealers, WaitingForVerificationMatrix, distribution))
  }

  /**
   * A handoff needs more dealers than any t of them, so that one outside
   * knows what these do not; the first dealing needs two outside.
   */
  lemma {:induction false} CreateExactly(kind: HandoffKind, t: Threshold, me: Scalar, dealers: seq<Scalar>)
    ensures Create(kind, t, me, dealers).Ok? <==> |dealers| > t && (kind == DealingPhase ==> |dealers| > t + 1)
    ensures Create(kind, t, me, dealers).Err? ==> Create(kind, t, me, dealers).error == NotEnoughShareholders
    ensures Create(kind, t, me, dealers).Ok? ==>
              var h := Create(kind, t, me, dealers).value;
              h.kind == kind && h.t == t && h.me == me && h.dealers == dealers
  {
  }

  ghost predicate Served(c: Config, phase: Phase) {
    phase.Serving? ==> Verify(phase.shareholder, c.t, false, c.full).Ok?
  }

  /** What holds of a handoff in every reachable state, whatever its inputs. */
  ghost predicate HandoffInv(h: Handoff) {
    && h.dealers != []
    && Inv(ReductionConfig(h), h.reduction) && Served(ReductionConfig(h), h.reduction)
    && Inv(DistributionConfig(h), h.distribution) && Served(DistributionConfig(h), h.distribution)
    && (h.kind == CommitteeChanged ==> Chained(h))
    && (h.kind != CommitteeChanged ==> h.reduction.WaitingForVerificationMatrix?)
    && (h.kind == DealingPhase && h.distribution.Merging? ==> h.distribution.prior.None?)
  }

  /** Distribution starts only after reduction serves, and from its matrix. */
  ghost predicate Chained(h: Handoff) {
    && (h.reduction.Merging? ==> h.reduction.prior.Some? && GenuinePrior(ReductionConfig(h), h.reduction.prior))
    && match h.distribution
       case WaitingForVerificationMatrix => !h.reduction.Serving?
       case Accumulating(vm, _) => h.reduction.Serving? && vm == h.reduction.shareholder.vm
       case Serving(sh) =>
         && h.reduction.Serving?
         && sh == CommittedShare(DistributionConfig(h), h.reduction.shareholder.vm)
       case _ => false
  }

  function Unit(r: Result<()>): Result<bool> {
    if r.Ok? then Ok(true) else Err(r.error)
  }

  function AddShareStep(h: Handoff, one: Contribution): (Handoff, Result<bool>)
    requires HandoffInv(h)
  {
    if h.kind != CommitteeChanged then
      var (next, r) := AddBivariateShare(DistributionConfig(h), h.distribution, one);
      (h.(distribution := next), r)
    else
      var (next, r) := AddBivariateShare(ReductionConfig(h), h.reduction, one);
      if r != Ok(true) || !next.Serving? then (h.(reduction := next), r)
      else
        var (following, started) := StartAccumulating(DistributionConfig(h), h.distribution, next.shareholder.vm);
        (h.(reduction := next, distribution := following), if started.Err? then Err(started.error) else r)
  }

  function Step(h: Handoff, e: Event): (Handoff, Result<bool>)
    requires HandoffInv(h)
  {
    match e
    case SetVerificationMatrix(vm) =>
      if h.kind != CommitteeChanged then (h, Err(InvalidKind))
      else
        var (next, r) := StartAccumulating(ReductionConfig(h), h.reduction, vm);
        (h.(reduction := next), Unit(r))
    case SetShareholder(shareholder) =>
      if h.kind != CommitteeUnchanged then (h, Err(InvalidKind))
      else
        var (next, r) := StartMerging(DistributionConfig(h), h.distribution, Some(shareholder));
        (h.(distribution := next), Unit(r))
    case AddReductionPoint(point) =>
      if h.kind != CommitteeChanged then (h, Err(InvalidKind))
      else
        var (next, r) := AddSwitchPoint(ReductionConfig(h), h.reduction, point);
        (h.(reduction := next), r)
    case AddDistributionPoint(point) =>
      if h.kind != CommitteeChanged then (h, Err(InvalidKind))
      else
        var (next, r) := AddSwitchPoint(DistributionConfig(h), h.distribution, point);
        (h.(distribution := next), r)
    case AddShare(one) => AddShareStep(h, one)
  }

  function GetReducedShareholder(h: Handoff): Result<Shareholder> {
    if h.kind != CommitteeChanged then Err(InvalidKind) else GetShareholder(h.reduction)
  }

  function GetFullShareholder(h: Handoff): Result<Shareholder> {
    GetShareholder(h.distribution)
  }

  /** A matrix and points only make sense if the committee changed, an old share only if it did not. */
  lemma {:induction false} WrongKind(h: Handoff, e: Event)
    requires HandoffInv(h) && !e.AddShare?
    ensures h.kind != (if e.SetShareholder? then CommitteeUnchanged else CommitteeChanged) <==>
            Step(h, e).1 == Err(InvalidKind)
    ensures Step(h, e).1.Err? ==> Step(h, e).0 == h
    ensures h.kind != CommitteeChanged <==> GetReducedShareholder(h) == Err(InvalidKind)
  {
    hide CommittedShare, SwitchPoint;
  }

  // ---- the invariant is kept by every call ----

  lemma {:induction false} SetStepInv(h: Handoff, e: Event)
    requires HandoffInv(h) && (e.SetVerificationMatrix? || e.SetShareholder?)
    ensures HandoffInv(Step(h, e).0)
  {
    hide Verify, CommittedShare, SwitchPoint, GenuinePrior;
  }

  lemma {:induction false} PointStepInv(h: Handoff, e: Event)
    requires HandoffInv(h) && (e.AddReductionPoint? || e.AddDistributionPoint?)
    ensures HandoffInv(Step(h, e).0)
  {
    hide AddSwitchPoint, Inv, Verify;
    if h.kind == CommitteeChanged {
      if e.AddReductionPoint? {
        AddSwitchPointInv(ReductionConfig(h), h.reduction, e.point);
      } else {
        AddSwitchPointInv(DistributionConfig(h), h.distribution, e.point);
        if h.distribution.Accumulating? {
          ChainedMatrixSecure(h);
        }
      }
    }
  }

  lemma {:induction false} ChainedMatrixSecure(h: Handoff)
    requires h.reduction.Serving? && Served(ReductionConfig(h), h.reduction)
    ensures var vm := h.reduction.shareholder.vm;
            HasDimensions(vm, h.t) && Verify(CommittedShare(DistributionConfig(h), vm), h.t, false, true).Ok?
  {
    var vm := h.reduction.shareholder.vm;
    VerifyCommittedShare(DistributionConfig(h), vm, false);
  }

  lemma {:induction false} AddShareStepInv(h: Handoff, one: Contribution)
    requires HandoffInv(h)
    ensures HandoffInv(AddShareStep(h, one).0)
    ensures h.kind == CommitteeChanged ==>
              AddShareStep(h, one).1 == AddBivariateShare(ReductionConfig(h), h.reduction, one).1
  {
    hide Verify, CommittedShare, Finish, Admit, AccumulatingInv, AllVerified, Pending;
    if h.kind != CommitteeChanged {
      AddBivariateShareInv(DistributionConfig(h), h.distribution, one);
    } else {
      var c := ReductionConfig(h);
      AddBivariateShareInv(c, h.reduction, one);
      var next := AddBivariateShare(c, h.reduction, one).0;
      if next.Serving? {
        AccumulatingStart(DistributionConfig(h), next.shareholder.vm);
      }
    }
  }

  lemma {:induction false} DoneMeansServing(h: Handoff, one: Contribution)
    requires HandoffInv(h)
    ensures var (next, r) := AddBivariateShare(ReductionConfig(h), h.reduction, one); r == Ok(true) ==> next.Serving?
  {
    hide AddBivariateShare, Inv, Verify;
    AddBivariateShareInv(ReductionConfig(h), h.reduction, one);
  }

  lemma {:induction false} AccumulatingStart(c: Config, vm: VerificationMatrix)
    requires HasDimensions(vm, c.t)
    ensures AccumulatingInv(c, vm, [])
  {
  }

  /** The states a handoff passes through on the given calls. */
  function Run(h: Handoff, events: seq<Event>): (r: Handoff)
    requires HandoffInv(h)
    ensures HandoffInv(r)
    ensures r.kind == h.kind && r.t == h.t && r.me == h.me && r.dealers == h.dealers
  {
    if events == [] then h
    else
      var before := Run(h, events[..|events| - 1]);
      StepInv(before, events[|events| - 1]);
      Step(before, events[|events| - 1]).0
  }

  lemma {:induction false} StepInv(h: Handoff, e: Event)
    requires HandoffInv(h)
    ensures var next := Step(h, e).0;
            HandoffInv(next) && next.kind == h.kind && next.t == h.t && next.me == h.me && next.dealers == h.dealers
  {
    hide HandoffInv, AddSwitchPoint, StartMerging, StartAccumulating, AddBivariateShare;
    match e
    case SetVerificationMatrix(_) => SetStepInv(h, e);
    case SetShareholder(_) => SetStepInv(h, e);
    case AddReductionPoint(_) => PointStepInv(h, e);
    case AddDistributionPoint(_) => PointStepInv(h, e);
    case AddShare(one) => AddShareStepInv(h, one);
  }
}
