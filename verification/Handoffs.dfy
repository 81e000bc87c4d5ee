/** The handoff objects, which drive one or two dimension switches. */
module Handoffs {
  import opened Field
  import opened Lagrange
  import opened Vss
  import opened Errors
  import opened Wrappers
  import opened Shares
  import opened Dealers
  import opened SwitchModel
  import opened Switches
  import opened HandoffModel

  /** A handoff with one switch: the dealing phase or an unchanged committee. */
  class SingleHandoff {
    const kind: HandoffKind
    const shareDistribution: DimensionSwitch

    ghost function View(): (h: Handoff)
      reads this, shareDistribution, shareDistribution.Repr()
    {
      var c := shareDistribution.config;
      Handoff(kind, c.t, c.me, c.dealers, WaitingForVerificationMatrix, shareDistribution.Phase())
    }

    ghost predicate Valid()
      reads this, shareDistribution, shareDistribution.Repr()
    {
      && kind != CommitteeChanged
      && shareDistribution.Valid()
      && shareDistribution.config == DistributionConfig(View())
      && HandoffInv(View())
    }

    constructor (kind: HandoffKind, shareDistribution: DimensionSwitch)
      ensures this.kind == kind && this.shareDistribution == shareDistribution
    {
      this.kind := kind;
      this.shareDistribution := shareDistribution;
    }

    static method Create(
      kind: HandoffKind, t: Threshold, me: Scalar, dealers: seq<Scalar>)
      returns (r: Result<SingleHandoff>)
      requires kind != CommitteeChanged
      ensures r.Err? ==> HandoffModel.Create(kind, t, me, dealers) == Err(r.error)
      ensures r.Ok? ==> var h := r.value;
                fresh(h) && fresh(h.shareDistribution.Repr()) && h.Valid()
                && HandoffModel.Create(kind, t, me, dealers) == Ok(h.View())
    {
      var required := if kind == DealingPhase then t + 2 else t + 1;
      if |dealers| < required {
        return Err(NotEnoughShareholders);
      }
      var distribution := new DimensionSwitch(Config(t, RequireZeroHole(kind), true, me, dealers));
      var skipped := distribution.SkipAccumulating();
      if kind == DealingPhase {
        var started := distribution.StartMerging(None);
      }
      var h := new SingleHandoff(kind, distribution);
      return Ok(h);
    }

    method SetShareholder(shareholder: Shareholder) returns (r: Result<bool>)
      requires Valid()
      modifies shareDistribution
      ensures Valid() && fresh(shareDistribution.Repr() - old(shareDistribution.Repr()))
      ensures (View(), r) == Step(old(View()), HandoffModel.SetShareholder(shareholder))
    {
      hide HandoffInv, Inv;
      StepInv(View(), HandoffModel.SetShareholder(shareholder));
      if kind != CommitteeUnchanged {
        r := Err(InvalidKind);
      } else {
        var started := shareDistribution.StartMerging(Some(shareholder));
        r := Unit(started);
      }
    }

    method AddBivariateShare(x: Scalar, vs: VerifiableShare) returns (r: Result<bool>)
      requires Valid()
      modifies shareDistribution.Repr()
      ensures Valid() && fresh(shareDistribution.Repr() - old(shareDistribution.Repr()))
      ensures (View(), r) == Step(old(View()), AddShare(Contribution(x, vs)))
    {
      hide HandoffInv, Inv;
      StepInv(View(), AddShare(Contribution(x, vs)));
      r := shareDistribution.AddBivariateShare(x, vs);
    }

    method GetFullShareholder() returns (r: Result<Shareholder>)
      requires Valid()
      ensures r == HandoffModel.GetFullShareholder(View())
      ensures r.Ok? ==> Verify(r.value, View().t, false, true).Ok?
    {
      r := shareDistribution.GetShareholder();
    }
  }

  /** A handoff to a changed committee: reduction, then distribution. */
  class DoubleHandoff {
    const shareReduction: DimensionSwitch
    const shareDistribution: DimensionSwitch

    ghost function Repr(): set<object>
      reads this, shareReduction, shareDistribution
    {
      {this} + shareReduction.Repr() + shareDistribution.Repr()
    }

    ghost function View(): (h: Handoff)
      reads this, shareReduction, shareDistribution, Repr()
    {
      var c := shareReduction.config;
      Handoff(CommitteeChanged, c.t, c.me, c.dealers, shareReduction.Phase(), shareDistribution.Phase())
    }

    ghost predicate Valid()
      reads this, shareReduction, shareDistribution, Repr()
    {
      && shareReduction.Valid() && shareDistribution.Valid()
      && shareReduction.Repr() !! shareDistribution.Repr()
      && shareReduction.config == ReductionConfig(View())
      && shareDistribution.config == DistributionConfig(View())
      && HandoffInv(View())
    }

    constructor (shareReduction: DimensionSwitch, shareDistribution: DimensionSwitch)
      ensures this.shareReduction == shareReduction && this.shareDistribution == shareDistribution
    {
      this.shareReduction := shareReduction;
      this.shareDistribution := shareDistribution;
    }

    static method Create(t: Threshold, me: Scalar, dealers: seq<Scalar>) returns (r: Result<DoubleHandoff>)
      ensures r.Err? ==> HandoffModel.Create(CommitteeChanged, t, me, dealers) == Err(r.error)
      ensures r.Ok? ==> var h := r.value;
                fresh(h.Repr()) && h.Valid() && HandoffModel.Create(CommitteeChanged, t, me, dealers) == Ok(h.View())
    {
      if |dealers| < t + 1 {
        return Err(NotEnoughShareholders);
      }
      var zeroHole := RequireZeroHole(CommitteeChanged);
      var reduction := new DimensionSwitch(Config(t, zeroHole, false, me, dealers));
      var distribution := new DimensionSwitch(Config(t, zeroHole, true, me, []));
      var h := new DoubleHandoff(reduction, distribution);
      return Ok(h);
    }

    method SetVerificationMatrix(vm: VerificationMatrix) returns (r: Result<bool>)
      requires Valid()
      modifies shareReduction
      ensures Valid() && fresh(Repr() - old(Repr()))
      ensures (View(), r) == Step(old(View()), HandoffModel.SetVerificationMatrix(vm))
    {
      hide HandoffInv, Inv;
      StepInv(View(), HandoffModel.SetVerificationMatrix(vm));
      var started := shareReduction.StartAccumulating(vm);
      r := Unit(started);
    }

    method AddShareReductionSwitchPoint(point: Point) returns (r: Result<bool>)
      requires Valid()
      modifies shareReduction.Repr()
      ensures Valid() && fresh(Repr() - old(Repr()))
      ensures (View(), r) == Step(old(View()), AddReductionPoint(point))
    {
      hide HandoffInv, Inv, AddSwitchPoint;
      StepInv(View(), AddReductionPoint(point));
      r := shareReduction.AddSwitchPoint(point);
    }

    method AddFullShareDistributionSwitchPoint(point: Point) returns (r: Result<bool>)
      requires Valid()
      modifies shareDistribution.Repr()
      ensures Valid() && fresh(Repr() - old(Repr()))
      ensures (View(), r) == Step(old(View()), AddDistributionPoint(point))
    {
      hide HandoffInv, Inv, AddSwitchPoint;
      StepInv(View(), AddDistributionPoint(point));
      r := shareDistribution.AddSwitchPoint(point);
    }

    /** The last bivariate share also starts the distribution. */
    method AddBivariateShare(x: Scalar, vs: VerifiableShare) returns (r: Result<bool>)
      requires Valid()
      modifies Repr()
      ensures Valid() && fresh(Repr() - old(Repr()))
      ensures (View(), r) == Step(old(View()), AddShare(Contribution(x, vs)))
    {
      hide HandoffInv, Inv, SwitchModel.AddBivariateShare, SwitchModel.StartAccumulating;
      StepInv(View(), AddShare(Contribution(x, vs)));
      DoneMeansServing(View(), Contribution(x, vs));
      r := shareReduction.AddBivariateShare(x, vs);
      if r == Ok(true) {
        r := StartDistribution();
      }
    }

    /** The matrix of the reduced shareholder is what distribution starts from. */
    method StartDistribution() returns (r: Result<bool>)
      requires shareReduction.Valid() && shareDistribution.Valid() && shareReduction.Repr() !! shareDistribution.Repr()
      requires shareReduction.Phase().Serving?
      modifies shareDistribution
      ensures shareReduction.Valid() && shareReduction.Phase() == old(shareReduction.Phase())
      ensures shareReduction.Repr() == old(shareReduction.Repr())
      ensures shareDistribution.Valid() && fresh(shareDistribution.Repr() - old(shareDistribution.Repr()))
      ensures var (next, started) :=
                SwitchModel.StartAccumulating(shareDistribution.config, old(shareDistribution.Phase()),
                    shareReduction.Phase().shareholder.vm);
              shareDistribution.Phase() == next && r == (if started.Err? then Err(started.error) else Ok(true))
    {
      var shareholder := shareReduction.GetShareholder();
      var started := shareDistribution.StartAccumulating(shareholder.value.vm);
      r := Unit(started);
    }

    method GetReducedShareholder() returns (r: Result<Shareholder>)
      requires Valid()
      ensures r == HandoffModel.GetReducedShareholder(View())
      ensures r.Ok? ==> Verify(r.value, View().t, false, false).Ok?
    {
      r := shareReduction.GetShareholder();
    }

    method GetFullShareholder() returns (r: Result<Shareholder>)
      requires Valid()
      ensures r == HandoffModel.GetFullShareholder(View())
      ensures r.Ok? ==> Verify(r.value, View().t, false, true).Ok?
    {
      r := shareDistribution.GetShareholder();
    }
  }
}
