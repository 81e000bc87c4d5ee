/**
 * A handoff of a whole committee. Every dealer deals honestly, every holder of
 * the old secret and every member of the new committee computes what it sends
 * from its own share, and each member asks whom it likes in the order it likes.
 */
module Committees {
  import opened Sequences
  import opened Field
  import opened Polynomials
  import opened Lagrange
  import opened Bivariate
  import opened Vss
  import opened Errors
  import opened Wrappers
  import opened Shares
  import opened Dealers
  import opened MatrixSums
  import opened SwitchModel
  import opened SwitchTheory
  import opened HandoffModel
  import opened HandoffTheory
  import opened Completeness

  // ---- honest dealers ----

  /** Every dealer has drawn a suitable polynomial. */
  predicate AllDeal(dealt: map<Scalar, Matrix>, dealers: seq<Scalar>, t: Threshold) {
    forall d :: d in dealers ==> d in dealt && HasDimensions(dealt[d], t) && Suitable(dealt[d], t)
  }

  function DealerOf(b: Matrix, kind: HandoffKind): Dealer {
    FromPolynomial(DealtPolynomial(b, kind))
  }

  /** The matrices that the dealers publish. */
  function MatricesOf(dealt: map<Scalar, Matrix>, kind: HandoffKind): (r: map<Scalar, VerificationMatrix>) {
    map d | d in dealt :: DealerOf(dealt[d], kind).vm
  }

  /** What the dealers send to a member, in the given order. */
  function SharesFor(dealt: map<Scalar, Matrix>, order: seq<Scalar>, kind: HandoffKind, me: Scalar)
    : (r: seq<Contribution>)
    requires forall d :: d in order ==> d in dealt
    ensures |r| == |order|
  {
    seq(|order|, i requires 0 <= i < |order| =>
      var dealer := DealerOf(dealt[order[i]], kind);
      Contribution(order[i], VerifiableShare(MakeShare(dealer, me, kind), dealer.vm)))
  }

  /** The switch that merges the dealers' shares. */
  function MergingConfig(h: Handoff): Config {
    if h.kind == CommitteeChanged then ReductionConfig(h) else DistributionConfig(h)
  }

  lemma {:induction false} DealtShareVerified(b: Matrix, h: Handoff)
    requires HasDimensions(b, h.t) && Suitable(b, h.t)
    ensures var d := DealerOf(b, h.kind);
            Verified(MergingConfig(h), VerifiableShare(MakeShare(d, h.me, h.kind), d.vm))
  {
    hide Verify, Restriction, Suitable;
    HonestShareAccepted(b, h.t, h.me, h.kind);
  }

  lemma {:induction false} SharesForVerified(dealt: map<Scalar, Matrix>, order: seq<Scalar>, h: Handoff)
    requires AllDeal(dealt, order, h.t)
    ensures AllVerified(MergingConfig(h), SharesFor(dealt, order, h.kind, h.me))
    decreases |order|
  {
    hide Verified, MakeShare, DealerOf, Suitable;
    if order != [] {
      var last := |order| - 1;
      var shares := SharesFor(dealt, order, h.kind, h.me);
      SharesForVerified(dealt, order[..last], h);
      assert shares[..last] == SharesFor(dealt, order[..last], h.kind, h.me);
      DealtShareVerified(dealt[order[last]], h);
    }
  }

  /** Honest dealers supply one verified share each, with the matrix they have published. */
  lemma {:induction false} HonestDealers(dealt: map<Scalar, Matrix>, order: seq<Scalar>, h: Handoff)
    requires AllDeal(dealt, h.dealers, h.t) && multiset(order) == multiset(h.dealers)
    requires MergingConfig(h).dealers == h.dealers
    ensures forall d :: d in order ==> d in dealt
    ensures OnePerDealer(MergingConfig(h), SharesFor(dealt, order, h.kind, h.me))
    ensures Agree(SharesFor(dealt, order, h.kind, h.me), MatricesOf(dealt, h.kind))
    ensures Published(MatricesOf(dealt, h.kind), h.dealers, h.t)
  {
    hide AllVerified, MakeShare, Suitable;
    forall d | d in order ensures d in h.dealers {
      assert d in multiset(order);
    }
    SharesForVerified(dealt, order, h);
    assert DealersOf(SharesFor(dealt, order, h.kind, h.me)) == order;
  }

  // ---- one handoff of a committee ----

  /** Whom a member asks: holders of the old secret, dealers, and other members, in this order. */
  datatype Plan = Plan(holders: seq<Shareholder>, order: seq<Scalar>, senders: seq<Scalar>)

  /** `source` is the matrix of the last handoff, and `ids` the new committee, who are the dealers. */
  datatype Handover = Handover(
    t: Threshold,
    kind: HandoffKind,
    source: Option<VerificationMatrix>,
    ids: seq<Scalar>,
    dealt: map<Scalar, Matrix>,
    plans: map<Scalar, Plan>)

  ghost predicate HonestPlan(x: Handover, plan: Plan)
    requires x.source.None? <==> x.kind == DealingPhase
  {
    && multiset(plan.order) == multiset(x.ids)
    && (x.kind == CommitteeChanged ==>
          && Holders(plan.holders, x.source.value, true) && |plan.holders| == x.t + 1
          && Distinct(plan.senders) && |plan.senders| == 2 * x.t + 1
          && forall id :: id in plan.senders ==> id in x.ids)
  }

  ghost predicate HonestHandover(x: Handover) {
    && |x.ids| >= MinDealers(x.kind, x.t)
    && AllDeal(x.dealt, x.ids, x.t)
    && (x.source.None? <==> x.kind == DealingPhase)
    && (x.source.Some? ==> HasDimensions(x.source.value, x.t))
    && forall id :: id in x.ids ==> id in x.plans && HonestPlan(x, x.plans[id])
  }

  function Agreed(x: Handover): Agreement {
    Agreement(x.source, MatricesOf(x.dealt, x.kind))
  }

  function Start(x: Handover, me: Scalar): (h: Handoff)
    requires |x.ids| >= MinDealers(x.kind, x.t)
    ensures HandoffInv(h)
  {
    Create(x.kind, x.t, me, x.ids).value
  }

  /** The matrix that the handoff leads to. */
  function Goal(x: Handover): (m: VerificationMatrix)
    requires HonestHandover(x)
    ensures HasDimensions(m, x.t)
  {
    PublishedBy(x);
    Target(Agreed(x), x.t, x.ids)
  }

  lemma {:induction false} PublishedBy(x: Handover)
    requires HonestHandover(x)
    ensures Published(MatricesOf(x.dealt, x.kind), x.ids, x.t)
  {
    hide Suitable, HonestPlan;
  }

  /** A member's calls until its reduction ends, or all of them if there is none. */
  function Opening(x: Handover, me: Scalar): (es: seq<Event>)
    requires HonestHandover(x) && me in x.ids
  {
    var plan := x.plans[me];
    HonestDealers(x.dealt, plan.order, Start(x, me));
    var shares := SharesFor(x.dealt, plan.order, x.kind, me);
    if x.kind == CommitteeChanged then FirstCalls(x.source.value, PointsSent(plan.holders, me), shares)
    else SingleCalls(Agreed(x), Start(x, me), shares)
  }

  /** The handoff of a member after these calls. */
  function Opened(x: Handover, me: Scalar): (h: Handoff)
    requires HonestHandover(x) && me in x.ids
  {
    Run(Start(x, me), Opening(x, me))
  }

  function Senders(x: Handover, me: Scalar): (hs: seq<Handoff>)
    requires HonestHandover(x) && me in x.ids && x.kind == CommitteeChanged
    ensures |hs| == |x.plans[me].senders|
  {
    seq(|x.plans[me].senders|, i requires 0 <= i < |x.plans[me].senders| =>
      assert x.plans[me].senders[i] in x.ids;
      Opened(x, x.plans[me].senders[i]))
  }

  /** All calls of a member. The last ones pass on what the asked members send. */
  function Calls(x: Handover, me: Scalar): (es: seq<Event>)
    requires HonestHandover(x) && me in x.ids
  {
    if x.kind != CommitteeChanged then Opening(x, me)
    else Opening(x, me) + DistributionEvents(Answers(Senders(x, me), me))
  }

  // ---- every member completes ----

  lemma {:induction false} SharesConform(a: Agreement, h: Handoff, shares: seq<Contribution>)
    requires Agree(shares, a.matrices)
    ensures AllConform(a, h, ShareEvents(shares))
  {
  }

  lemma {:induction false} OpeningConforms(x: Handover, me: Scalar)
    requires HonestHandover(x) && me in x.ids
    ensures Sound(Agreed(x), Start(x, me))
    ensures AllConform(Agreed(x), Start(x, me), Opening(x, me))
  {
    hide OnePerDealer, CommittedShare, SharesFor, Suitable, PointsSent, Holders, Distinct, HandoffInv;
    var plan, h := x.plans[me], Start(x, me);
    PublishedBy(x);
    HonestDealers(x.dealt, plan.order, h);
    SharesConform(Agreed(x), h, SharesFor(x.dealt, plan.order, x.kind, me));
  }

  /** After its first calls a member serves its reduced share, if and only if the goal is secure. */
  lemma {:induction false} OpenedOutcome(x: Handover, me: Scalar)
    requires HonestHandover(x) && me in x.ids && x.kind == CommitteeChanged
    ensures Opened(x, me).me == me && Reduces(Agreed(x), x.t, x.ids, Opened(x, me))
    ensures GetReducedShareholder(Opened(x, me)).Ok? <==> Secure(Goal(x), x.t)
  {
    hide OnePerDealer, CommittedShare, SharesFor, Suitable, Holders, Distinct, HandoffInv, AllConform, Agree, Secure,
         AllDeal, OnPolynomial;
    var plan, h := x.plans[me], Start(x, me);
    OpeningConforms(x, me);
    assert Reached(Agreed(x), x.t, x.ids, Opened(x, me), Opening(x, me));
    HonestDealers(x.dealt, plan.order, h);
    SentPointsFit(ReductionConfig(h), x.source.value, plan.holders);
    FirstStages(Agreed(x), h, PointsSent(plan.holders, me), SharesFor(x.dealt, plan.order, x.kind, me));
  }

  /** Those who are asked for distribution points are distinct members that serve if the goal is secure. */
  lemma {:induction false} SendersServe(x: Handover, me: Scalar)
    requires HonestHandover(x) && me in x.ids && x.kind == CommitteeChanged
    ensures var senders := Senders(x, me);
            && |senders| == 2 * x.t + 1 && Distinct(SenderXs(senders))
            && forall i :: 0 <= i < |senders| ==>
                 && Reduces(Agreed(x), x.t, x.ids, senders[i])
                 && (Secure(Goal(x), x.t) ==> GetReducedShareholder(senders[i]).Ok?)
  {
    hide Opened, Opening, Goal, Secure, Reduces, GetReducedShareholder, Holders, AllDeal;
    var senders, ids := Senders(x, me), x.plans[me].senders;
    forall i | 0 <= i < |senders|
      ensures senders[i].me == ids[i]
      ensures Reduces(Agreed(x), x.t, x.ids, senders[i])
      ensures Secure(Goal(x), x.t) ==> GetReducedShareholder(senders[i]).Ok?
    {
      assert ids[i] in x.ids;
      OpenedOutcome(x, ids[i]);
    }
    assert SenderXs(senders) == ids;
  }

  /**
   * If every dealer deals honestly and every holder of the old secret sends
   * its own switch points, then every member of the new committee ends with
   * its share of the refreshed polynomial, whomever it asks and in whatever
   * order, if and only if that polynomial is secure.
   */
  lemma {:induction false} CommitteeCompletes(x: Handover, me: Scalar)
    requires HonestHandover(x) && me in x.ids
    ensures GetFullShareholder(Run(Start(x, me), Calls(x, me))) ==
            if Secure(Goal(x), x.t) then Ok(CommittedShare(DistributionConfig(Start(x, me)), Goal(x)))
            else Err(InvalidState)
  {
    hide OnePerDealer, CommittedShare, SharesFor, Suitable, Holders, Distinct, HandoffInv, AllConform, Agree, Secure,
         AllDeal, Reduces, Senders, Answers, PointsSent;
    var plan, h := x.plans[me], Start(x, me);
    OpeningConforms(x, me);
    HonestDealers(x.dealt, plan.order, h);
    var shares := SharesFor(x.dealt, plan.order, x.kind, me);
    if x.kind == CommitteeChanged {
      SendersServe(x, me);
      HonestHandoffCompletes(Agreed(x), x.t, me, x.ids, plan.holders, shares, Senders(x, me));
    } else {
      SingleHandoffCompletes(Agreed(x), x.kind, x.t, me, x.ids, shares);
    }
  }

  // ---- no distribution without enough senders ----

  lemma {:induction false} DistinctWithin(xs: seq<Scalar>, ids: seq<Scalar>)
    requires Distinct(xs) && forall x :: x in xs ==> x in ids
    ensures |xs| <= |ids|
    decreases |xs|
  {
    if xs != [] {
      var front, last := xs[..|xs| - 1], xs[|xs| - 1];
      assert last in xs;
      var k :| 0 <= k < |ids| && ids[k] == last;
      forall x | x in front ensures x in Without(ids, k) {
        assert x in xs;
        var j :| 0 <= j < |ids| && ids[j] == x;
        assert x == Without(ids, k)[if j < k then j else j - 1];
      }
      DistinctWithin(front, Without(ids, k));
    }
  }

  /** All distribution points come from the given nodes. */
  predicate SentFrom(events: seq<Event>, ids: seq<Scalar>) {
    forall i :: 0 <= i < |events| && events[i].AddDistributionPoint? ==> events[i].point.x in ids
  }

  ghost predicate FromOnly(h: Handoff, ids: seq<Scalar>) {
    match h.distribution
    case Accumulating(_, points) => forall i :: 0 <= i < |points| ==> points[i].x in ids
    case Serving(_) => |ids| >= 2 * h.t + 1
    case _ => true
  }

  lemma {:induction false} PointFromOnly(h: Handoff, point: Point, ids: seq<Scalar>)
    requires HandoffInv(h) && h.kind == CommitteeChanged && FromOnly(h, ids) && point.x in ids
    ensures FromOnly(Step(h, AddDistributionPoint(point)).0, ids)
  {
    hide CommittedShare, SwitchPoint, Verify, Chained;
    var c := DistributionConfig(h);
    var (next, r) := AddSwitchPoint(c, h.distribution, point);
    if r == Ok(true) {
      var points := h.distribution.points + [point];
      assert PointXs(points) == PointXs(h.distribution.points) + [point.x];
      forall x | x in PointXs(points) ensures x in ids {
        var i :| 0 <= i < |points| && PointXs(points)[i] == x;
      }
      DistinctWithin(PointXs(points), ids);
    }
  }

  lemma {:induction false} OtherFromOnly(h: Handoff, e: Event, ids: seq<Scalar>)
    requires HandoffInv(h) && h.kind == CommitteeChanged && FromOnly(h, ids) && !e.AddDistributionPoint?
    ensures FromOnly(Step(h, e).0, ids)
  {
    hide CommittedShare, AddSwitchPoint, AddBivariateShare, Verify, Inv;
  }

  lemma {:induction false} RunFromOnly(h: Handoff, events: seq<Event>, ids: seq<Scalar>)
    requires HandoffInv(h) && h.kind == CommitteeChanged && FromOnly(h, ids) && SentFrom(events, ids)
    ensures FromOnly(Run(h, events), ids)
  {
    hide HandoffInv, FromOnly, Step;
    if events != [] {
      var last := |events| - 1;
      RunFromOnly(h, events[..last], ids);
      if events[last].AddDistributionPoint? {
        PointFromOnly(Run(h, events[..last]), events[last].point, ids);
      } else {
        OtherFromOnly(Run(h, events[..last]), events[last], ids);
      }
    }
  }

  /** Whatever is called, a member gets no full share from fewer than 2t + 1 senders. */
  lemma {:induction false} TooFewSenders(
    t: Threshold, me: Scalar, dealers: seq<Scalar>, events: seq<Event>, ids: seq<Scalar>)
    requires Create(CommitteeChanged, t, me, dealers).Ok? && SentFrom(events, ids) && |ids| < 2 * t + 1
    ensures GetFullShareholder(Run(Create(CommitteeChanged, t, me, dealers).value, events)) == Err(InvalidState)
  {
    RunFromOnly(Create(CommitteeChanged, t, me, dealers).value, events, ids);
  }

  /** What the handoff leaves on record. */
  function RecordOf(x: Handover): (r: Record)
    requires HonestHandover(x)
    ensures r.kind == x.kind && r.dealers == x.ids && |r.members| == |x.ids|
    ensures forall i :: 0 <= i < |x.ids| ==> r.members[i] == Member(x.ids[i], Calls(x, x.ids[i]))
  {
    Record(x.kind, x.ids, MatricesOf(x.dealt, x.kind),
           seq(|x.ids|, i requires 0 <= i < |x.ids| => Member(x.ids[i], Calls(x, x.ids[i]))))
  }

  lemma {:induction false} CallsConform(x: Handover, me: Scalar)
    requires HonestHandover(x) && me in x.ids
    ensures AllConform(Agreed(x), Start(x, me), Calls(x, me))
  {
    hide HonestHandover, Opening, Answers, HandoffInv;
    OpeningConforms(x, me);
  }

  lemma {:induction false} MemberHolds(x: Handover, me: Scalar, vm: VerificationMatrix)
    requires HonestHandover(x) && me in x.ids
    ensures Holds(x.t, Agreed(x), RecordOf(x), Member(me, Calls(x, me)), vm) <==> Secure(Goal(x), x.t) && vm == Goal(x)
  {
    hide HonestPlan, AllDeal, Calls, Secure, Goal, AllConform, HandoffInv, Sound;
    OpeningConforms(x, me);
    CallsConform(x, me);
    CommitteeCompletes(x, me);
    var sh := CommittedShare(DistributionConfig(Start(x, me)), Goal(x));
    assert GetFullShareholder(Run(Start(x, me), Calls(x, me))) == Ok(sh)
           ==> Obtains(x.t, Agreed(x), RecordOf(x), Member(me, Calls(x, me)), sh);
  }

  /** An honest committee completes its handoff if and only if the goal is secure, and then holds the goal. */
  lemma {:induction false} HandoverCompletes(x: Handover, vm: VerificationMatrix)
    requires HonestHandover(x)
    ensures Completes(x.t, x.source, RecordOf(x), vm) <==> Secure(Goal(x), x.t) && vm == Goal(x)
  {
    hide Holds, Secure, Goal, Calls;
    var r := RecordOf(x);
    forall i | 0 <= i < |r.members|
      ensures Holds(x.t, AgreementOf(x.source, r), r, r.members[i], vm) <==> Secure(Goal(x), x.t) && vm == Goal(x)
    {
      MemberHolds(x, x.ids[i], vm);
    }
    assert r.members[0] == Member(x.ids[0], Calls(x, x.ids[0]));
  }

  // ---- one handoff after another ----

  /** A dealing phase and further handoffs, each from where the last one has led. */
  ghost predicate Succession(t: Threshold, xs: seq<Handover>) {
    && xs != [] && (forall k :: 0 <= k < |xs| ==> xs[k].t == t && HonestHandover(xs[k]) && Secure(Goal(xs[k]), t))
    && xs[0].kind == DealingPhase
    && forall k :: 0 < k < |xs| ==> xs[k].source == Some(Goal(xs[k - 1]))
  }

  function RecordsOf(t: Threshold, xs: seq<Handover>): (rs: seq<Record>)
    requires Succession(t, xs)
    ensures |rs| == |xs| && forall k :: 0 <= k < |xs| ==> rs[k] == RecordOf(xs[k])
  {
    seq(|xs|, k requires 0 <= k < |xs| => RecordOf(xs[k]))
  }

  function GoalsOf(t: Threshold, xs: seq<Handover>): (ms: seq<VerificationMatrix>)
    requires Succession(t, xs)
    ensures |ms| == |xs| && forall k :: 0 <= k < |xs| ==> ms[k] == Goal(xs[k])
  {
    seq(|xs|, k requires 0 <= k < |xs| => Goal(xs[k]))
  }

  /** Honest committees with secure goals make a history, of whatever kinds their handoffs are. */
  lemma {:induction false} HonestHistory(t: Threshold, xs: seq<Handover>)
    requires Succession(t, xs)
    ensures History(t, RecordsOf(t, xs), GoalsOf(t, xs))
  {
    hide HonestHandover, Goal, Secure, RecordOf, Completes;
    var rs, ms := RecordsOf(t, xs), GoalsOf(t, xs);
    FirstSource(t, xs);
    HandoverCompletes(xs[0], Goal(xs[0]));
    forall k | 0 < k < |rs| ensures Completes(t, Some(ms[k - 1]), rs[k], ms[k]) {
      HandoverCompletes(xs[k], Goal(xs[k]));
      assert xs[k].source == Some(Goal(xs[k - 1]));
    }
  }

  lemma {:induction false} FirstSource(t: Threshold, xs: seq<Handover>)
    requires Succession(t, xs)
    ensures xs[0].source == None
  {
    hide Goal, Secure, HonestPlan, AllDeal;
  }

  /** Every member of a completed handoff holds a share. */
  lemma {:induction false} MembersHold(
    t: Threshold, before: Option<VerificationMatrix>, r: Record, after: VerificationMatrix)
    returns (shares: seq<SecretShare>)
    requires Completes(t, before, r, after)
    ensures |shares| == |r.members|
    ensures forall i :: 0 <= i < |shares| ==>
              shares[i].x == r.members[i].id && Held(t, AgreementOf(before, r), r, after, shares[i])
  {
    hide Obtains;
    var a := AgreementOf(before, r);
    shares := [];
    for k := 0 to |r.members|
      invariant |shares| == k
      invariant forall i :: 0 <= i < k ==> shares[i].x == r.members[i].id && Held(t, a, r, after, shares[i])
    {
      assert Holds(t, a, r, r.members[k], after);
      var sh :| Obtains(t, a, r, r.members[k], sh) && sh.vm == after;
      ObtainedShare(t, a, r, r.members[k], sh);
      assert r.members[k] in r.members;
      shares := shares + [sh.share];
    }
  }
}
