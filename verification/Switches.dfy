/**
 * The dimension switch and its two accumulators, with the state they update
 * in place. Every method is proved to make the step of `SwitchModel`.
 */
module Switches {
  import opened Field
  import opened Polynomials
  import opened Lagrange
  import opened Bivariate
  import opened Vss
  import opened Errors
  import opened Wrappers
  import opened Shares
  import opened SwitchModel
  import opened SwitchTheory

  /** Accumulates switch points until they determine the share. */
  class SwitchPoints {
    const n: nat
    var me: Option<Scalar>
    var vm: Option<VerificationMatrix>
    const vv: seq<Element>
    var points: seq<Point>

    ghost const config: Config
    ghost const matrix: VerificationMatrix

    ghost function Expected(): Polynomial { Restriction(Committed(matrix), config.me, config.full) }

    /** me and vm are there until they are taken, and never change otherwise. */
    ghost predicate Valid()
      reads this
    {
      && HasDimensions(matrix, config.t)
      && n == PointsNeeded(config)
      && vv == CommitAll(Expected())
      && me in {None, Some(config.me)}
      && vm in {None, Some(matrix)}
      && |points| <= n
      && Distinct(PointXs(points))
      && forall i :: 0 <= i < |points| ==> points[i].y == Value(Expected(), points[i].x)
    }

    ghost predicate Intact()
      reads this
    {
      me == Some(config.me) && vm == Some(matrix)
    }

    constructor (c: Config, vm: VerificationMatrix)
      requires HasDimensions(vm, c.t)
      ensures Valid() && Intact() && points == [] && config == c && matrix == vm
    {
      n := if c.full then 2 * c.t + 1 else c.t + 1;
      me := Some(c.me);
      this.vm := Some(vm);
      vv := if c.full then EvalX(vm, c.me) else EvalY(vm, c.me);
      points := [];
      config := c;
      matrix := vm;
      new;
      EvalXCommit(Committed(vm), c.me);
      EvalYCommit(Committed(vm), c.me);
    }

    static method Create(c: Config, vm: VerificationMatrix) returns (r: Result<SwitchPoints>)
      ensures r.Ok? <==> HasDimensions(vm, c.t)
      ensures r.Err? ==> r.error == VerificationMatrixDimensionMismatch
      ensures r.Ok? ==> var sp := r.value;
              fresh(sp) && sp.Valid() && sp.Intact() && sp.points == [] && sp.config == c && sp.matrix == vm
    {
      if |vm| != c.t + 1 || |vm[0]| != 2 * c.t + 1 {
        return Err(VerificationMatrixDimensionMismatch);
      }
      var sp := new SwitchPoints(c, vm);
      return Ok(sp);
    }

    method HasPoint(x: Scalar) returns (has: bool)
      ensures has <==> x in PointXs(points)
    {
      for i := 0 to |points|
        invariant forall k :: 0 <= k < i ==> points[k].x != x
      {
        if points[i].x == x {
          assert PointXs(points)[i] == x;
          return true;
        }
      }
      return false;
    }

    method NeedsPoint(x: Scalar) returns (needs: bool)
      requires Valid()
      ensures needs <==> |points| < PointsNeeded(config) && x !in PointXs(points)
    {
      var has := HasPoint(x);
      needs := |points| < n && !has;
    }

    method AddPoint(point: Point) returns (r: Result<()>)
      requires Valid()
      modifies this`points
      ensures Valid()
      ensures r == if |old(points)| >= n then Err(TooManySwitchPoints)
                   else if point.x in PointXs(old(points)) then Err(DuplicateShareholder)
                   else if point.y != Value(Expected(), point.x) then Err(InvalidSwitchPoint)
                   else Ok(())
      ensures points == if r.Ok? then old(points) + [point] else old(points)
    {
      if |points| >= n {
        return Err(TooManySwitchPoints);
      }
      var has := HasPoint(point.x);
      if has {
        return Err(DuplicateShareholder);
      }
      VerifyPointMeaning(Expected(), point.x, point.y);
      if !VerifyPoint(vv, point.x, point.y) {
        return Err(InvalidSwitchPoint);
      }
      assert PointXs(points + [point]) == PointXs(points) + [point.x];
      points := points + [point];
      return Ok(());
    }

    /**
     * Any n accepted points, in whatever order they came, interpolate to the
     * polynomial the matrix commits to.
     */
    method ReconstructShareholder() returns (r: Result<Shareholder>)
      requires Valid()
      modifies this`me, this`vm
      ensures Valid()
      ensures |points| < n ==> r == Err(NotEnoughSwitchPoints) && me == old(me) && vm == old(vm)
      ensures |points| == n ==> me == None && (old(me).Some? ==> vm == None)
      ensures |points| == n ==>
                r == if old(me).None? then Err(ShareholderIdentityRequired)
                     else if old(vm).None? then Err(VerificationMatrixRequired)
                     else Ok(CommittedShare(config, matrix))
    {
      if |points| < n {
        return Err(NotEnoughSwitchPoints);
      }
      var x := me;
      me := None;
      if x.None? {
        return Err(ShareholderIdentityRequired);
      }
      var m := vm;
      vm := None;
      if m.None? {
        return Err(VerificationMatrixRequired);
      }
      var xs, ys := PointXs(points[..n]), PointYs(points[..n]);
      assert points[..n] == points;
      var p: Polynomial := Interpolate(xs, ys);
      InterpolationUnique(p, Expected(), xs);
      var share := VerifiableShare(SecretShare(x.value, p), m.value);
      if |share.share.p| != n {
        return Err(PolynomialDegreeMismatch);
      }
      return Ok(share);
    }
  }

  /** Accumulates bivariate shares until every dealer has contributed. */
  class BivariateShares {
    const config: Config
    var pending: seq<Scalar>
    const shareholder: Option<Shareholder>
    var combined: Option<VerifiableShare>

    /** The contributions taken so far, with their senders. */
    ghost var accepted: seq<Contribution>

    /**
     * Conservation: pending and accepted senders together are the dealers,
     * and the combined share is the sum of the accepted ones until it is taken.
     */
    ghost predicate Valid()
      reads this
    {
      && config.dealers != []
      && AllVerified(config, accepted)
      && multiset(pending) + multiset(DealersOf(accepted)) == multiset(config.dealers)
      && (combined.Some? ==>
            0 < |accepted| && combined.value == Total(config, accepted))
      && (combined.None? ==> accepted == [] || pending == [])
    }

    constructor (c: Config, shareholder: Option<Shareholder>)
      requires c.dealers != []
      ensures Valid() && config == c && this.shareholder == shareholder && accepted == []
    {
      config := c;
      pending := c.dealers;
      this.shareholder := shareholder;
      combined := None;
      accepted := [];
    }

    static method Create(c: Config, shareholder: Option<Shareholder>) returns (r: Result<BivariateShares>)
      ensures r.Ok? <==> c.dealers != []
      ensures r.Err? ==> r.error == NotEnoughShareholders
      ensures r.Ok? ==> var bs := r.value;
              fresh(bs) && bs.Valid() && bs.config == c && bs.shareholder == shareholder && bs.accepted == []
    {
      if |c.dealers| == 0 {
        return Err(NotEnoughShareholders);
      }
      var bs := new BivariateShares(c, shareholder);
      return Ok(bs);
    }

    lemma {:induction false} PendingMultiset()
      requires Valid()
      ensures multiset(pending) == Pending(config, accepted)
    {
    }

    lemma {:induction false} PendingSize()
      requires Valid()
      ensures |pending| + |accepted| == |config.dealers|
    {
      assert |multiset(pending)| + |multiset(DealersOf(accepted))| == |multiset(config.dealers)|;
    }

    method NeedsBivariateShare(x: Scalar) returns (needs: bool)
      requires Valid()
      ensures needs <==> x in Pending(config, accepted)
    {
      PendingMultiset();
      needs := x in pending;
    }

    /** Verifies a share, adds it to the sum and strikes its sender off the list. */
    method AddBivariateShare(x: Scalar, vs: VerifiableShare) returns (r: Result<bool>)
      requires Valid()
      modifies this`pending, this`combined, this`accepted
      ensures Valid()
      ensures var one := Contribution(x, vs);
              var admitted := Admit(config, old(accepted), one);
              && r == (if admitted.Err? then Err(admitted.error) else Ok(|accepted| >= |config.dealers|))
              && accepted == (if admitted.Err? then old(accepted) else old(accepted) + [one])
      ensures r.Ok? ==> combined.Some? && (r.value <==> pending == [])
      ensures r.Err? ==> pending == old(pending) && combined == old(combined)
    {
      PendingMultiset();
      var check := Verify(vs, config.t, config.zeroHole, config.full);
      if x !in config.dealers {
        r := Err(UnknownShareholder);
      } else if x !in pending {
        r := Err(DuplicateShareholder);
      } else if vs.share.x != config.me {
        r := Err(ShareholderIdentityMismatch);
      } else if check.Err? {
        r := Err(check.error);
      } else {
        Merge(x, vs);
        PendingSize();
        r := Ok(|pending| == 0);
      }
    }

    method Merge(x: Scalar, vs: VerifiableShare)
      requires Valid() && x in pending && Verified(config, vs)
      modifies this`pending, this`combined, this`accepted
      ensures Valid() && combined.Some? && accepted == old(accepted) + [Contribution(x, vs)]
    {
      hide Verified, Total, AllVerified, AddShares, SwapRemove, DealersOf;
      AcceptOne(config, accepted, Contribution(x, vs));
      if combined.Some? {
        combined := Some(AddShares(combined.value, vs));
      } else {
        combined := Some(vs);
      }
      var index := Position(pending, x);
      pending := SwapRemove(pending, index);
      accepted := accepted + [Contribution(x, vs)];
    }

    /** The combined share can be taken once; the final check may refuse it. */
    method ProactivizeShareholder() returns (r: Result<Shareholder>)
      requires Valid()
      modifies this`combined
      ensures Valid()
      ensures old(pending) != [] ==> r == Err(NotEnoughBivariateShares) && combined == old(combined)
      ensures pending == [] ==> combined == None
      ensures pending == [] && old(combined).None? ==> r == Err(ShareholderProactivizationCompleted)
      ensures pending == [] && old(combined).Some? ==>
                0 < |accepted| && r == Finish(config, shareholder, accepted)
    {
      if |pending| != 0 {
        return Err(NotEnoughBivariateShares);
      }
      var total := combined;
      combined := None;
      if total.None? {
        return Err(ShareholderProactivizationCompleted);
      }
      var candidate :=
        if shareholder.Some? then Proactivize(shareholder.value, total.value.share.p, total.value.vm)
        else Ok(total.value);
      if candidate.Err? {
        return candidate;
      }
      var check := Verify(candidate.value, config.t, false, config.full);
      if check.Err? {
        return Err(check.error);
      }
      return candidate;
    }
  }

  datatype State =
    | AwaitingMatrix
    | Collecting(sp: SwitchPoints)
    | AwaitingShareholder
    | Combining(bs: BivariateShares)
    | Done(shareholder: Shareholder)

  class DimensionSwitch {
    const config: Config
    var state: State

    ghost function Repr(): set<object>
      reads this
    {
      match state
      case Collecting(sp) => {this, sp}
      case Combining(bs) => {this, bs}
      case _ => {this}
    }

    ghost predicate Valid()
      reads this, Repr()
    {
      match state
      case Collecting(sp) => sp.Valid() && sp.Intact() && sp.config == config && |sp.points| < sp.n
      case Combining(bs) => bs.Valid() && bs.config == config
      case _ => true
    }

    /** The phase of the model that this switch is in. */
    ghost function Phase(): (phase: Phase)
      reads this, Repr()
    {
      match state
      case AwaitingMatrix => WaitingForVerificationMatrix
      case Collecting(sp) => Accumulating(sp.matrix, sp.points)
      case AwaitingShareholder => WaitingForShareholder
      case Combining(bs) => Merging(bs.shareholder, bs.accepted)
      case Done(sh) => Serving(sh)
    }

    constructor (c: Config)
      ensures Valid() && Repr() == {this} && config == c && Phase() == WaitingForVerificationMatrix
    {
      config := c;
      state := AwaitingMatrix;
    }

    method SkipAccumulating() returns (r: Result<()>)
      requires Valid()
      modifies this
      ensures Valid() && Repr() - old(Repr()) == {}
      ensures (Phase(), r) == SwitchModel.SkipAccumulating(old(Phase()))
    {
      if !state.AwaitingMatrix? {
        return Err(InvalidState);
      }
      state := AwaitingShareholder;
      return Ok(());
    }

    method StartAccumulating(vm: VerificationMatrix) returns (r: Result<()>)
      requires Valid()
      modifies this
      ensures Valid() && fresh(Repr() - old(Repr()))
      ensures (Phase(), r) == SwitchModel.StartAccumulating(config, old(Phase()), vm)
    {
      if !state.AwaitingMatrix? {
        return Err(InvalidState);
      }
      var sp := SwitchPoints.Create(config, vm);
      if sp.Err? {
        return Err(sp.error);
      }
      state := Collecting(sp.value);
      return Ok(());
    }

    method NeedsSwitchPoint(x: Scalar) returns (r: Result<bool>)
      requires Valid()
      ensures r == match Phase()
                   case WaitingForVerificationMatrix => Ok(true)
                   case Accumulating(vm, points) => Ok(x !in PointXs(points))
                   case _ => Err(InvalidState)
    {
      match state
      case AwaitingMatrix => return Ok(true);
      case Collecting(sp) =>
        var needs := sp.NeedsPoint(x);
        return Ok(needs);
      case _ => return Err(InvalidState);
    }

    method AddSwitchPoint(point: Point) returns (r: Result<bool>)
      requires Valid()
      modifies Repr()
      ensures Valid() && fresh(Repr() - old(Repr()))
      ensures (Phase(), r) == SwitchModel.AddSwitchPoint(config, old(Phase()), point)
    {
      if !state.Collecting? {
        return Err(InvalidState);
      }
      var sp := state.sp;
      var added := sp.AddPoint(point);
      if added.Err? {
        return Err(added.error);
      }
      if |sp.points| < sp.n {
        return Ok(false);
      }
      // Of the errors that the next two calls can return, none arises here.
      var shareholder := sp.ReconstructShareholder();
      if |config.dealers| == 0 {
        state := Done(shareholder.value);
      } else {
        var bs := BivariateShares.Create(config, Some(shareholder.value));
        state := Combining(bs.value);
      }
      return Ok(true);
    }

    method StartMerging(shareholder: Option<Shareholder>) returns (r: Result<()>)
      requires Valid()
      modifies this
      ensures Valid() && fresh(Repr() - old(Repr()))
      ensures (Phase(), r) == SwitchModel.StartMerging(config, old(Phase()), shareholder)
    {
      if !state.AwaitingShareholder? {
        return Err(InvalidState);
      }
      var bs := BivariateShares.Create(config, shareholder);
      if bs.Err? {
        return Err(bs.error);
      }
      state := Combining(bs.value);
      return Ok(());
    }

    method NeedsBivariateShare(x: Scalar) returns (r: Result<bool>)
      requires Valid()
      ensures r == match Phase()
                   case Merging(_, accepted) => Ok(x in Pending(config, accepted))
                   case _ => Err(InvalidState)
    {
      match state
      case Combining(bs) =>
        var needs := bs.NeedsBivariateShare(x);
        return Ok(needs);
      case _ => return Err(InvalidState);
    }

    method AddBivariateShare(x: Scalar, vs: VerifiableShare) returns (r: Result<bool>)
      requires Valid()
      modifies Repr()
      ensures Valid() && fresh(Repr() - old(Repr()))
      ensures old(Phase()).Merging? ==> AllVerified(config, old(Phase()).accepted)
      ensures (Phase(), r) == SwitchModel.AddBivariateShare(config, old(Phase()), Contribution(x, vs))
    {
      hide Admit, Finish, Verified, Total, AllVerified, SwitchModel.AddBivariateShare;
      if !state.Combining? {
        NotMerging(config, Phase(), Contribution(x, vs));
        r := Err(InvalidState);
      } else {
        MergingCases(config, state.bs.shareholder, state.bs.accepted, Contribution(x, vs));
        r := state.bs.AddBivariateShare(x, vs);
        if r == Ok(true) {
          r := FinishMerging();
        }
      }
    }

    method FinishMerging() returns (r: Result<bool>)
      requires Valid() && state.Combining? && state.bs.pending == [] && state.bs.combined.Some?
      modifies Repr()
      ensures Valid() && fresh(Repr() - old(Repr()))
      ensures var Merging(prior, accepted) := old(Phase());
              && 0 < |accepted| && AllVerified(config, accepted)
              && var shareholder := Finish(config, prior, accepted);
              && (shareholder.Ok? ==> Phase() == Serving(shareholder.value) && r == Ok(true))
              && (shareholder.Err? ==> Phase() == old(Phase()) && r == Err(shareholder.error))
    {
      var shareholder := state.bs.ProactivizeShareholder();
      if shareholder.Ok? {
        state := Done(shareholder.value);
        r := Ok(true);
      } else {
        r := Err(shareholder.error);
      }
    }

    method GetShareholder() returns (r: Result<Shareholder>)
      requires Valid()
      ensures r == SwitchModel.GetShareholder(Phase())
    {
      r := if state.Done? then Ok(state.shareholder) else Err(InvalidState);
    }
  }

  method Position<T(==)>(s: seq<T>, x: T) returns (index: nat)
    requires x in s
    ensures index < |s| && s[index] == x && x !in s[..index]
  {
    index := 0;
    while s[index] != x
      invariant index < |s| && x !in s[..index]
      decreases |s| - index
    {
      index := index + 1;
    }
  }

  /** Removes the element at index by moving the last element into its place. */
  function SwapRemove<T(==)>(s: seq<T>, index: nat): (r: seq<T>)
    requires index < |s|
    ensures multiset(r) + multiset{s[index]} == multiset(s)
  {
    var last := |s| - 1;
    assert s == s[..last] + [s[last]];
    if index == last then s[..last]
    else
      assert s[..last] == s[..index] + [s[index]] + s[index + 1..last];
      assert s[..last][index := s[last]] == s[..index] + [s[last]] + s[index + 1..last];
      s[..last][index := s[last]]
  }
}
