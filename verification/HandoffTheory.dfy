/** Where handoffs end, and that the shared secret survives all of them. */
module HandoffTheory {
  import opened Field
  import opened Polynomials
  import opened Lagrange
  import opened Bivariate
  import opened Vss
  import opened Errors
  import opened Wrappers
  import opened Shares
  import opened Dealers
  import opened Players
  import opened MatrixSums
  import opened SwitchModel
  import opened SwitchTheory
  import opened HandoffModel

  /**
   * Every share that a handoff ever hands out passes verification against its
   * own matrix, whatever calls were made before, in any order.
   */
  lemma {:induction false} ServedSharesVerify(
    kind: HandoffKind, t: Threshold, me: Scalar, dealers: seq<Scalar>, events: seq<Event>)
    requires Create(kind, t, me, dealers).Ok?
    ensures var h := Run(Create(kind, t, me, dealers).value, events);
            && (GetFullShareholder(h).Ok? ==> Verify(GetFullShareholder(h).value, t, false, true).Ok?)
            && (GetReducedShareholder(h).Ok? ==> Verify(GetReducedShareholder(h).value, t, false, false).Ok?)
            && (GetFullShareholder(h).Ok? && kind == CommitteeChanged ==>
                  && GetReducedShareholder(h).Ok?
                  && GetFullShareholder(h).value.vm == GetReducedShareholder(h).value.vm)
  {
    hide Verify;
    var h := Run(Create(kind, t, me, dealers).value, events);
    assert HandoffInv(h);
  }

  // ---- inputs that agree with what is on chain ----

  /** What the consensus layer pins down for a handoff: see the checksums it keeps. */
  datatype Agreement = Agreement(source: Option<VerificationMatrix>, matrices: map<Scalar, VerificationMatrix>)

  ghost predicate Sound(a: Agreement, h: Handoff) {
    && Published(a.matrices, h.dealers, h.t)
    && (a.source.Some? ==> HasDimensions(a.source.value, h.t))
    && (a.source.None? <==> h.kind == DealingPhase)
  }

  /** The call passes on the source matrix or share, or a published matrix. */
  ghost predicate Conforms(a: Agreement, h: Handoff, e: Event) {
    match e
    case SetVerificationMatrix(vm) => a.source == Some(vm)
    case SetShareholder(sh) => a.source.Some? && sh == CommittedShare(DistributionConfig(h), a.source.value)
    case AddShare(one) => one.dealer in a.matrices ==> one.share.vm == a.matrices[one.dealer]
    case AddReductionPoint(_) => true
    case AddDistributionPoint(_) => true
  }

  /** The matrix that the handoff leads to, the same for every member. */
  function Target(a: Agreement, t: Threshold, dealers: seq<Scalar>): (m: VerificationMatrix)
    requires Published(a.matrices, dealers, t) && 0 < |dealers|
    requires a.source.Some? ==> HasDimensions(a.source.value, t)
    ensures HasDimensions(m, t)
  {
    Refreshed(t, a.source, a.matrices, dealers)
  }

  /** The target commits to the same secret as the source. */
  ghost predicate SecretKept(a: Agreement, target: VerificationMatrix) {
    a.source.Some? ==> target[0][0] == a.source.value[0][0]
  }

  /** The merging switch stays on the way from the source to the target. */
  ghost predicate Follows(a: Agreement, c: Config, phase: Phase, target: VerificationMatrix) {
    match phase
    case WaitingForVerificationMatrix => true
    case WaitingForShareholder => true
    case Accumulating(vm, _) => a.source == Some(vm)
    case Merging(prior, accepted) =>
      && prior == (if a.source.None? then None else Some(CommittedShare(c, a.source.value)))
      && Agree(accepted, a.matrices)
    case Serving(sh) => sh == CommittedShare(c, target) && SecretKept(a, target)
  }

  ghost predicate HandoffFollows(a: Agreement, h: Handoff)
    ensures HandoffFollows(a, h) ==> HandoffInv(h)
  {
    && HandoffInv(h) && Sound(a, h)
    && var target := Target(a, h.t, h.dealers);
    && if h.kind == CommitteeChanged then Follows(a, ReductionConfig(h), h.reduction, target)
       else Follows(a, DistributionConfig(h), h.distribution, target) && !h.distribution.Accumulating?
  }

  /** The last share leads to the target, if the final check accepts it. */
  lemma {:induction false} LastShareFollows(
    a: Agreement, c: Config, prior: Option<Shareholder>, accepted: seq<Contribution>, target: VerificationMatrix)
    requires c.dealers != [] && Published(a.matrices, c.dealers, c.t)
    requires a.source.Some? ==> HasDimensions(a.source.value, c.t) && c.zeroHole
    requires target == Refreshed(c.t, a.source, a.matrices, c.dealers)
    requires prior == if a.source.None? then None else Some(CommittedShare(c, a.source.value))
    requires AllVerified(c, accepted) && Agree(accepted, a.matrices)
    requires multiset(DealersOf(accepted)) <= multiset(c.dealers) && |accepted| == |c.dealers|
    ensures Finish(c, prior, accepted).Ok? ==>
              Finish(c, prior, accepted).value == CommittedShare(c, target) && SecretKept(a, target)
  {
    hide Finish, AllVerified, CommittedShare, Agree, Refreshed;
    PriorGenuine(a, c, prior);
    MergedIsRefreshed(c, prior, accepted, a.matrices);
    FinishOutcome(c, prior, accepted);
  }

  lemma {:induction false} MergeFollows(
    a: Agreement, c: Config, phase: Phase, one: Contribution, target: VerificationMatrix)
    requires Inv(c, phase) && c.dealers != [] && Published(a.matrices, c.dealers, c.t)
    requires a.source.Some? ==> HasDimensions(a.source.value, c.t) && c.zeroHole
    requires target == Refreshed(c.t, a.source, a.matrices, c.dealers)
    requires Follows(a, c, phase, target)
    requires one.dealer in a.matrices ==> one.share.vm == a.matrices[one.dealer]
    ensures Follows(a, c, AddBivariateShare(c, phase, one).0, target)
  {
    hide AddBivariateShare, Verified, AllVerified, CommittedShare, Finish, Agree, Refreshed, Pending, DealersOf;
    AddBivariateShareCases(c, phase, one);
    if phase.Merging? && Admit(c, phase.accepted, one).Ok? {
      var accepted := phase.accepted + [one];
      AcceptOne(c, phase.accepted, one);
      PendingRoom(c, phase.accepted, one);
      MergeAgrees(a, c, phase.accepted, one);
      if |accepted| == |c.dealers| {
        LastShareFollows(a, c, phase.prior, accepted, target);
      }
    }
  }

  lemma {:induction false} MergeAgrees(a: Agreement, c: Config, accepted: seq<Contribution>, one: Contribution)
    requires Agree(accepted, a.matrices) && Published(a.matrices, c.dealers, c.t)
    requires one.dealer in Pending(c, accepted)
    requires one.dealer in a.matrices ==> one.share.vm == a.matrices[one.dealer]
    ensures Agree(accepted + [one], a.matrices)
  {
    assert one.dealer in multiset(c.dealers);
  }

  lemma {:induction false} PriorGenuine(a: Agreement, c: Config, prior: Option<Shareholder>)
    requires prior == if a.source.None? then None else Some(CommittedShare(c, a.source.value))
    requires a.source.Some? ==> HasDimensions(a.source.value, c.t)
    ensures GenuinePrior(c, prior)
    ensures prior.Some? ==> prior.value.vm == a.source.value
  {
  }

  lemma {:induction false} SetFollows(a: Agreement, h: Handoff, e: Event)
    requires HandoffFollows(a, h) && Conforms(a, h, e) && (e.SetVerificationMatrix? || e.SetShareholder?)
    ensures HandoffFollows(a, Step(h, e).0)
  {
    hide CommittedShare, Committed, Verify, Verified, Refreshed;
    StepInv(h, e);
  }

  lemma {:induction false} PointFollows(a: Agreement, h: Handoff, e: Event)
    requires HandoffFollows(a, h) && (e.AddReductionPoint? || e.AddDistributionPoint?)
    ensures HandoffFollows(a, Step(h, e).0)
  {
    hide CommittedShare, Committed, Verify, AddSwitchPoint, Refreshed, HandoffInv;
    StepInv(h, e);
    if h.kind == CommitteeChanged && e.AddReductionPoint? {
      ReductionInv(h);
      AddSwitchPointInv(ReductionConfig(h), h.reduction, e.point);
    }
  }

  lemma {:induction false} ReductionInv(h: Handoff)
    requires HandoffInv(h)
    ensures Inv(ReductionConfig(h), h.reduction) && Inv(DistributionConfig(h), h.distribution) && h.dealers != []
  {
  }

  lemma {:induction false} ShareFollows(a: Agreement, h: Handoff, one: Contribution)
    requires HandoffFollows(a, h) && Conforms(a, h, AddShare(one))
    ensures HandoffFollows(a, AddShareStep(h, one).0)
  {
    hide CommittedShare, Committed, Verify, AddBivariateShare, Refreshed, HandoffInv, Inv, Follows;
    AddShareStepInv(h, one);
    ReductionInv(h);
    var target := Target(a, h.t, h.dealers);
    if h.kind == CommitteeChanged {
      MergeFollows(a, ReductionConfig(h), h.reduction, one, target);
    } else {
      MergeFollows(a, DistributionConfig(h), h.distribution, one, target);
      NeverAccumulates(DistributionConfig(h), h.distribution, one);
    }
  }

  lemma {:induction false} NeverAccumulates(c: Config, phase: Phase, one: Contribution)
    requires Inv(c, phase)
    ensures AddBivariateShare(c, phase, one).0.Accumulating? ==> phase.Accumulating?
  {
    hide Admit, Finish, AllVerified, AccumulatingInv;
  }

  lemma {:induction false} StepFollows(a: Agreement, h: Handoff, e: Event)
    requires HandoffFollows(a, h) && Conforms(a, h, e)
    ensures HandoffFollows(a, Step(h, e).0)
  {
    hide HandoffFollows, Conforms;
    match e
    case SetVerificationMatrix(_) => SetFollows(a, h, e);
    case SetShareholder(_) => SetFollows(a, h, e);
    case AddReductionPoint(_) => PointFollows(a, h, e);
    case AddDistributionPoint(_) => PointFollows(a, h, e);
    case AddShare(one) => ShareFollows(a, h, one);
  }

  /** All calls of a run conform; the configuration never changes on the way. */
  ghost predicate AllConform(a: Agreement, h: Handoff, events: seq<Event>) {
    forall i :: 0 <= i < |events| ==> Conforms(a, h, events[i])
  }

  lemma {:induction false} RunFollows(a: Agreement, h: Handoff, events: seq<Event>)
    requires HandoffFollows(a, h) && AllConform(a, h, events)
    ensures HandoffFollows(a, Run(h, events))
  {
    hide HandoffFollows, HandoffInv, Step;
    if events != [] {
      var last := |events| - 1;
      RunFollows(a, h, events[..last]);
      var before := Run(h, events[..last]);
      assert DistributionConfig(before) == DistributionConfig(h);
      assert Conforms(a, before, events[last]);
      StepFollows(a, before, events[last]);
    }
  }

  /**
   * Whoever completes a handoff with conforming inputs, in whatever order they
   * came, holds the restriction of one and the same refreshed polynomial, and
   * that polynomial has the secret of the source.
   */
  lemma {:induction false} MemberOutcome(
    a: Agreement, kind: HandoffKind, t: Threshold, me: Scalar, dealers: seq<Scalar>, events: seq<Event>)
    requires Create(kind, t, me, dealers).Ok?
    requires var h := Create(kind, t, me, dealers).value; Sound(a, h) && AllConform(a, h, events)
    ensures var h := Run(Create(kind, t, me, dealers).value, events);
            var target := Target(a, t, dealers);
            GetFullShareholder(h).Ok? ==>
              && GetFullShareholder(h).value.vm == target
              && GetFullShareholder(h).value.share == SecretShare(me, EvalX(Committed(target), me))
              && SecretKept(a, target)
  {
    hide Committed, Verify, Refreshed;
    var h := Create(kind, t, me, dealers).value;
    RunFollows(a, h, events);
  }

  // ---- from one committee to the next ----

  /** A member of the new committee and the calls it made on its handoff. */
  datatype Member = Member(id: Scalar, events: seq<Event>)

  datatype Record = Record(
    kind: HandoffKind,
    dealers: seq<Scalar>,
    matrices: map<Scalar, VerificationMatrix>,
    members: seq<Member>)

  function AgreementOf(before: Option<VerificationMatrix>, r: Record): (a: Agreement) {
    Agreement(before, r.matrices)
  }

  /** The member has ended its handoff with the given full share. */
  ghost predicate Obtains(t: Threshold, a: Agreement, r: Record, m: Member, sh: Shareholder) {
    var created := Create(r.kind, t, m.id, r.dealers);
    && created.Ok?
    && Sound(a, created.value) && AllConform(a, created.value, m.events)
    && GetFullShareholder(Run(created.value, m.events)) == Ok(sh)
  }

  ghost predicate Holds(t: Threshold, a: Agreement, r: Record, m: Member, vm: VerificationMatrix) {
    exists sh :: Obtains(t, a, r, m, sh) && sh.vm == vm
  }

  /** All members have completed the handoff; after is the matrix they hold. */
  ghost predicate Completes(t: Threshold, before: Option<VerificationMatrix>, r: Record, after: VerificationMatrix) {
    && r.members != []
    && forall i :: 0 <= i < |r.members| ==> Holds(t, AgreementOf(before, r), r, r.members[i], after)
  }

  lemma {:induction false} ObtainedShare(t: Threshold, a: Agreement, r: Record, m: Member, sh: Shareholder)
    requires Obtains(t, a, r, m, sh)
    ensures sh.share == SecretShare(m.id, EvalX(Committed(sh.vm), m.id))
    ensures HasDimensions(sh.vm, t)
    ensures SecretKept(a, sh.vm)
  {
    hide Committed;
    MemberOutcome(a, r.kind, t, m.id, r.dealers, m.events);
  }

  lemma {:induction false} CompletesKeepsSecret(
    t: Threshold, before: Option<VerificationMatrix>, r: Record, after: VerificationMatrix)
    requires Completes(t, before, r, after)
    ensures HasDimensions(after, t)
    ensures before.Some? ==> after[0][0] == before.value[0][0]
  {
    hide Obtains;
    assert Holds(t, AgreementOf(before, r), r, r.members[0], after);
    var sh :| Obtains(t, AgreementOf(before, r), r, r.members[0], sh) && sh.vm == after;
    ObtainedShare(t, AgreementOf(before, r), r, r.members[0], sh);
  }

  /** A dealing phase followed by any number of handoffs. */
  ghost predicate History(t: Threshold, records: seq<Record>, matrices: seq<VerificationMatrix>) {
    && |records| == |matrices| > 0
    && Completes(t, None, records[0], matrices[0])
    && forall k :: 0 < k < |records| ==> Completes(t, Some(matrices[k - 1]), records[k], matrices[k])
  }

  lemma {:induction false} MatricesKeepSecret(
    t: Threshold, records: seq<Record>, matrices: seq<VerificationMatrix>, k: nat)
    requires History(t, records, matrices) && k < |records|
    ensures matrices[k][0][0] == matrices[0][0][0]
    ensures HasDimensions(matrices[k], t)
  {
    hide Completes;
    if k == 0 {
      CompletesKeepsSecret(t, None, records[0], matrices[0]);
    } else {
      MatricesKeepSecret(t, records, matrices, k - 1);
      CompletesKeepsSecret(t, Some(matrices[k - 1]), records[k], matrices[k]);
    }
  }

  /** What the k-th handoff agreed on. */
  function AgreementAt(records: seq<Record>, matrices: seq<VerificationMatrix>, k: nat): (a: Agreement)
    requires |records| == |matrices| && k < |records|
  {
    AgreementOf(if k == 0 then None else Some(matrices[k - 1]), records[k])
  }

  /** Some member has obtained the share together with the given matrix. */
  ghost predicate Held(t: Threshold, a: Agreement, r: Record, vm: VerificationMatrix, share: SecretShare) {
    exists m, sh :: m in r.members && Obtains(t, a, r, m, sh) && sh.vm == vm && sh.share == share
  }

  lemma {:induction false} HeldShare(t: Threshold, a: Agreement, r: Record, vm: VerificationMatrix, share: SecretShare)
    requires Held(t, a, r, vm, share)
    ensures share.p == Restriction(Committed(vm), share.x, true)
  {
    hide Obtains;
    var m, sh :| m in r.members && Obtains(t, a, r, m, sh) && sh.vm == vm && sh.share == share;
    ObtainedShare(t, a, r, m, sh);
  }

  /** Each share was obtained by some member in the k-th handoff. */
  ghost predicate HeldAfter(
    t: Threshold, records: seq<Record>, matrices: seq<VerificationMatrix>, k: nat, shares: seq<SecretShare>)
    requires |records| == |matrices| && k < |records|
  {
    forall i :: 0 <= i < |shares| ==> Held(t, AgreementAt(records, matrices, k), records[k], matrices[k], shares[i])
  }

  /**
   * The secret survives: after any number of handoffs, of either kind and
   * between any committees, any t + 1 current members recover the secret that
   * the dealing phase has fixed.
   */
  lemma {:induction false} SecretSurvives(
    t: Threshold, records: seq<Record>, matrices: seq<VerificationMatrix>, k: nat, shares: seq<SecretShare>)
    requires History(t, records, matrices) && k < |records|
    requires HeldAfter(t, records, matrices, k, shares)
    requires Distinct(Xs(shares)) && |shares| >= t + 1
    ensures WeightedSum(Coefficients(Xs(shares)), Ys(shares), |shares|) == Committed(matrices[0])[0][0]
  {
    hide Obtains, Completes, Mod, WeightedSum;
    MatricesKeepSecret(t, records, matrices, k);
    MatricesKeepSecret(t, records, matrices, 0);
    var b := Committed(matrices[k]);
    forall i | 0 <= i < |shares| ensures shares[i].p == Restriction(b, shares[i].x, true) {
      HeldShare(t, AgreementAt(records, matrices, k), records[k], matrices[k], shares[i]);
    }
    SharesRecover(shares, b, t, true);
    CommitInjective(b[0][0], Committed(matrices[0])[0][0]);
  }
}
