/**
 * Histories exist: for every threshold and every sequence of committees, with
 * distinct members who are the dealers, there is a run of the protocol that
 * all members complete, whether the committee changes or not. What is proved
 * about histories is therefore not proved about nothing.
 */
module Existence {
  import opened Field
  import opened Polynomials
  import opened Bivariate
  import opened Vss
  import opened Wrappers
  import opened Shares
  import opened Dealers
  import opened Players
  import opened MatrixSums
  import opened SwitchModel
  import opened HandoffModel
  import opened HandoffTheory
  import opened Completeness
  import opened Committees

  // ---- what the dealers draw ----

  /** The value c at the four corners, zero elsewhere. */
  function Corners(t: Threshold, c: Scalar): (b: Matrix)
    ensures HasDimensions(b, t) && (c != 0 ==> Suitable(b, t))
    ensures b[0][0] == c && b[t][2 * t] == c && b[t][0] == c && b[0][2 * t] == c
  {
    var rows := seq(Rows(t), i requires 0 <= i < Rows(t) => CornerRow(t, c, i));
    assert forall i :: 0 <= i < |rows| ==> |rows[i]| == Cols(t);
    rows
  }

  function CornerRow(t: Threshold, c: Scalar, i: nat): (r: seq<Scalar>)
    ensures |r| == Cols(t)
    ensures i == 0 || i == t ==> r[0] == c && r[2 * t] == c
  {
    seq(Cols(t), j requires 0 <= j < Cols(t) => if (i == 0 || i == t) && (j == 0 || j == 2 * t) then c else 0)
  }

  /** The first dealer uses c, all others use 1. */
  function Drawn(t: Threshold, ids: seq<Scalar>, c: Scalar): (r: map<Scalar, Matrix>)
    requires ids != []
  {
    map d | d in ids :: Corners(t, if d == ids[0] then c else 1)
  }

  /** The generator, added up n times. */
  function Times(n: nat): Scalar
    requires n > 0
  {
    if n == 1 then GENERATOR else Add(Times(n - 1), GENERATOR)
  }

  /** What matters about a matrix: its secret, and its leading terms, which are all alike. */
  predicate Looks(m: VerificationMatrix, t: Threshold, secret: Scalar, leading: Scalar) {
    && HasDimensions(m, t) && m[0][0] == secret
    && (t > 0 ==> m[t][2 * t] == leading && m[t][0] == leading && m[0][2 * t] == leading)
  }

  lemma {:induction false} CommitSmall(c: Scalar)
    requires c == 1 || c == 2
    ensures Commit(c) == Times(c) && Commit(0) == 0
  {
    var g: int := GENERATOR;
    if c == 2 {
      assert Times(2) == Add(Times(1), GENERATOR);
      assert 2 * g == g + g;
    }
  }

  /** The secret of what a dealer draws is dealt only in a dealing phase. */
  function SecretPart(kind: HandoffKind, n: nat): Scalar
    requires n > 0
  {
    if kind == DealingPhase then Times(n) else 0
  }

  lemma {:induction false} CornersLook(t: Threshold, kind: HandoffKind, c: Scalar)
    requires c == 1 || c == 2
    ensures Looks(DealerOf(Corners(t, c), kind).vm, t, SecretPart(kind, c), Times(c))
  {
    hide Commit, Times, Corners;
    CommitSmall(c);
  }

  function Dealt(t: Threshold, kind: HandoffKind, ids: seq<Scalar>, c: Scalar): map<Scalar, VerificationMatrix>
    requires ids != []
  {
    MatricesOf(Drawn(t, ids, c), kind)
  }

  lemma {:induction false} DealtAt(t: Threshold, kind: HandoffKind, ids: seq<Scalar>, c: Scalar, j: nat)
    requires Distinct(ids) && j < |ids|
    ensures ids[j] in Dealt(t, kind, ids, c)
    ensures Dealt(t, kind, ids, c)[ids[j]] == DealerOf(Corners(t, if j == 0 then c else 1), kind).vm
  {
    hide Corners, DealerOf;
  }

  lemma {:induction false} DealtPublished(t: Threshold, kind: HandoffKind, ids: seq<Scalar>, c: Scalar, k: nat)
    requires Distinct(ids) && k <= |ids| && ids != []
    ensures Published(Dealt(t, kind, ids, c), ids[..k], t)
  {
    hide Corners;
  }

  lemma {:induction false} SumStep(matrices: map<Scalar, VerificationMatrix>, ids: seq<Scalar>, t: Threshold, k: nat)
    requires 0 < k < |ids| && Published(matrices, ids[..k], t) && Published(matrices, ids[..k + 1], t)
    ensures ids[k] in matrices && HasDimensions(matrices[ids[k]], t)
    ensures SumOf(matrices, ids[..k + 1], t) == AddMatrices(SumOf(matrices, ids[..k], t), matrices[ids[k]])
  {
    assert ids[..k + 1][..k] == ids[..k];
    assert ids[..k + 1][k] in ids[..k + 1];
  }

  lemma {:induction false} SumLooks(t: Threshold, kind: HandoffKind, ids: seq<Scalar>, c: Scalar, k: nat)
    requires Distinct(ids) && 0 < k <= |ids| && (c == 1 || c == 2)
    ensures Published(Dealt(t, kind, ids, c), ids[..k], t)
    ensures Looks(SumOf(Dealt(t, kind, ids, c), ids[..k], t), t, SecretPart(kind, k - 1 + c), Times(k - 1 + c))
  {
    hide Corners, DealerOf, Dealt, Looks, Published, Distinct, Times, SecretPart;
    DealtPublished(t, kind, ids, c, k);
    DealtAt(t, kind, ids, c, k - 1);
    if k == 1 {
      CornersLook(t, kind, c);
      assert ids[..1] == [ids[0]];
    } else {
      hide SumOf;
      CornersLook(t, kind, 1);
      SumLooks(t, kind, ids, c, k - 1);
      SumStep(Dealt(t, kind, ids, c), ids, t, k - 1);
      AddLook(t, kind, SumOf(Dealt(t, kind, ids, c), ids[..k - 1], t), DealerOf(Corners(t, 1), kind).vm, k - 2 + c);
    }
  }

  lemma {:induction false} AddLook(
    t: Threshold, kind: HandoffKind, m: VerificationMatrix, one: VerificationMatrix, n: nat)
    requires n > 0
    requires Looks(m, t, SecretPart(kind, n), Times(n)) && Looks(one, t, SecretPart(kind, 1), Times(1))
    ensures Looks(AddMatrices(m, one), t, SecretPart(kind, n + 1), Times(n + 1))
  {
    assert Add(0, 0) == 0;
    hide Add;
  }

  // ---- a handoff from one committee to the next ----

  /** Distinct non-zero identities, and enough of them for this kind of handoff. */
  predicate Suits(t: Threshold, kind: HandoffKind, ids: seq<Scalar>) {
    && Distinct(ids) && 0 !in ids
    && |ids| >= MinDealers(kind, t) && (kind == CommitteeChanged ==> |ids| >= 2 * t + 1)
  }

  /** The share that a member of the last committee holds. */
  function OldShare(t: Threshold, source: VerificationMatrix, id: Scalar): Shareholder {
    CommittedShare(Config(t, false, true, id, []), source)
  }

  /** Everyone asks the first members of either committee. */
  function PlanOf(t: Threshold, source: VerificationMatrix, last: seq<Scalar>, ids: seq<Scalar>): Plan
    requires |last| >= t + 1 && |ids| >= 2 * t + 1
  {
    Plan(seq(t + 1, i requires 0 <= i < t + 1 => OldShare(t, source, last[i])), ids, ids[..2 * t + 1])
  }

  function HandoverOf(
    t: Threshold, kind: HandoffKind, source: Option<VerificationMatrix>, last: seq<Scalar>, ids: seq<Scalar>, c: Scalar)
    : (x: Handover)
    requires Suits(t, kind, ids) && (kind == CommitteeChanged ==> source.Some? && |last| >= t + 1)
  {
    var plan := if kind == CommitteeChanged then PlanOf(t, source.value, last, ids) else Plan([], ids, []);
    Handover(t, kind, source, ids, Drawn(t, ids, c), map id | id in ids :: plan)
  }

  lemma {:induction false} PlanHonest(t: Threshold, source: VerificationMatrix, last: seq<Scalar>, ids: seq<Scalar>)
    requires Distinct(last) && |last| >= t + 1 && Distinct(ids) && |ids| >= 2 * t + 1
    ensures var plan := PlanOf(t, source, last, ids);
            && Holders(plan.holders, source, true) && |plan.holders| == t + 1
            && Distinct(plan.senders) && |plan.senders| == 2 * t + 1
            && forall id :: id in plan.senders ==> id in ids
  {
    hide Committed, Restriction;
    var holders := PlanOf(t, source, last, ids).holders;
    forall i | 0 <= i < |holders| ensures HolderXs(holders)[i] == last[i] && Genuine(holders[i], true) {
    }
  }

  lemma {:induction false} HandoverHonest(
    t: Threshold, kind: HandoffKind, source: Option<VerificationMatrix>, last: seq<Scalar>, ids: seq<Scalar>, c: Scalar)
    requires Suits(t, kind, ids) && Distinct(last) && |last| >= t + 1 && c != 0
    requires (source.None? <==> kind == DealingPhase) && (source.Some? ==> HasDimensions(source.value, t))
    ensures HonestHandover(HandoverOf(t, kind, source, last, ids, c))
  {
    hide Corners, Suitable, Holders, PlanOf, Distinct;
    if kind == CommitteeChanged {
      PlanHonest(t, source.value, last, ids);
      assert PlanOf(t, source.value, last, ids).order == ids by { OrderOf(t, source.value, last, ids); }
    }
  }

  lemma {:induction false} OrderOf(t: Threshold, source: VerificationMatrix, last: seq<Scalar>, ids: seq<Scalar>)
    requires |last| >= t + 1 && |ids| >= 2 * t + 1
    ensures PlanOf(t, source, last, ids).order == ids
  {
  }

  // ---- the first dealer's choice ----

  lemma {:induction false} AddSwap(a: Scalar, b: Scalar, c: Scalar)
    ensures Add(Add(a, b), c) == Add(Add(a, c), b)
  {
    hide Mod;
    var x: int, y: int, z: int := a, b, c;
    ModAssoc(x, y, z);
    ModAssoc(x, z, y);
    assert x + y + z == x + z + y;
  }

  /** If a sum vanishes, it does not after adding the generator once more. */
  lemma {:induction false} OneOfTwo(n: nat, base: Scalar)
    requires n > 0
    ensures Add(Times(n), base) != 0 || Add(Times(n + 1), base) != 0
  {
    AddSwap(Times(n), GENERATOR, base);
    assert Add(0, GENERATOR) == GENERATOR;
    hide Add;
    assert Times(n + 1) == Add(Times(n), GENERATOR);
  }

  /** A secure matrix whose leading terms are alike. */
  predicate Even(m: VerificationMatrix, t: Threshold, leading: Scalar) {
    Looks(m, t, m[0][0], leading) && m[0][0] != 0 && leading != 0
  }

  lemma {:induction false} AddBase(
    t: Threshold, sum: VerificationMatrix, base: VerificationMatrix, n: nat, leading: Scalar)
    requires n > 0 && Looks(sum, t, 0, Times(n)) && Even(base, t, leading) && Add(Times(n), leading) != 0
    ensures Even(AddMatrices(sum, base), t, Add(Times(n), leading))
  {
    assert Add(0, base[0][0]) == base[0][0];
    hide Add, Times;
  }

  lemma {:induction false} GoalEven(
    t: Threshold, kind: HandoffKind, source: Option<VerificationMatrix>, last: seq<Scalar>, ids: seq<Scalar>, c: Scalar,
    leading: Scalar)
    requires Suits(t, kind, ids) && (c == 1 || c == 2) && Distinct(last) && |last| >= t + 1
    requires (source.None? <==> kind == DealingPhase) && (source.Some? ==> Even(source.value, t, leading))
    requires Add(Times(|ids| - 1 + c), if source.Some? then leading else 0) != 0
    ensures var x := HandoverOf(t, kind, source, last, ids, c);
            HonestHandover(x) && Even(Goal(x), t, Add(Times(|ids| - 1 + c), if source.Some? then leading else 0))
  {
    hide Corners, SumOf, Distinct, PlanOf, HonestPlan, AllDeal, Times;
    var x, n := HandoverOf(t, kind, source, last, ids, c), |ids| - 1 + c;
    HandoverHonest(t, kind, source, last, ids, c);
    SumLooks(t, kind, ids, c, |ids|);
    assert ids[..|ids|] == ids;
    if source.Some? {
      AddBase(t, SumOf(Dealt(t, kind, ids, c), ids, t), source.value, n, leading);
    } else {
      assert Add(Times(n), 0) == Times(n);
    }
  }

  /** One of two choices of the first dealer leads to a secure goal. */
  lemma {:induction false} NextHandover(
    t: Threshold, kind: HandoffKind, source: Option<VerificationMatrix>, last: seq<Scalar>, ids: seq<Scalar>,
    leading: Scalar)
    returns (c: Scalar, leading': Scalar)
    requires Suits(t, kind, ids) && P > 2 && Distinct(last) && |last| >= t + 1
    requires (source.None? <==> kind == DealingPhase) && (source.Some? ==> Even(source.value, t, leading))
    ensures c == 1 || c == 2
    ensures var x := HandoverOf(t, kind, source, last, ids, c); HonestHandover(x) && Even(Goal(x), t, leading')
  {
    hide Even, Goal, HonestHandover;
    var base: Scalar := if source.Some? then leading else 0;
    OneOfTwo(|ids|, base);
    c := if Add(Times(|ids|), base) != 0 then 1 else 2;
    leading' := Add(Times(|ids| - 1 + c), base);
    GoalEven(t, kind, source, last, ids, c, leading);
  }

  /** Two distinct non-zero scalars leave room for the scalar 2. */
  lemma {:induction false} TwoIsScalar(ids: seq<Scalar>)
    requires Distinct(ids) && 0 !in ids && |ids| >= 2
    ensures P > 2
  {
    assert ids[0] in ids && ids[1] in ids && ids[0] != ids[1];
  }

  // ---- any number of them ----

  /** A dealing phase, then handoffs to committees that are the same or new ones. */
  predicate Feasible(t: Threshold, kinds: seq<HandoffKind>, committees: seq<seq<Scalar>>) {
    && |kinds| == |committees| > 0
    && kinds[0] == DealingPhase
    && (forall k :: 0 <= k < |kinds| ==> Suits(t, kinds[k], committees[k]))
    && forall k :: 0 < k < |kinds| ==> Joins(kinds[k], committees[k - 1], committees[k])
  }

  predicate Joins(kind: HandoffKind, last: seq<Scalar>, ids: seq<Scalar>) {
    kind == CommitteeChanged || (kind == CommitteeUnchanged && ids == last)
  }

  predicate Between(xs: seq<Handover>, kinds: seq<HandoffKind>, committees: seq<seq<Scalar>>) {
    && |xs| == |kinds| == |committees|
    && forall k :: 0 <= k < |xs| ==> xs[k].kind == kinds[k] && xs[k].ids == committees[k]
  }

  lemma {:induction false} FeasibleFront(t: Threshold, kinds: seq<HandoffKind>, committees: seq<seq<Scalar>>)
    requires Feasible(t, kinds, committees) && |kinds| > 1
    ensures Feasible(t, kinds[..|kinds| - 1], committees[..|kinds| - 1])
  {
    hide Suits;
    var ks, cs := kinds[..|kinds| - 1], committees[..|kinds| - 1];
    forall k | 0 <= k < |ks| ensures Suits(t, ks[k], cs[k]) {
      assert Suits(t, kinds[k], committees[k]);
    }
    forall k | 0 < k < |ks| ensures Joins(ks[k], cs[k - 1], cs[k]) {
      assert Joins(kinds[k], committees[k - 1], committees[k]);
    }
  }

  lemma {:induction false} EvenSecure(m: VerificationMatrix, t: Threshold, leading: Scalar)
    requires Even(m, t, leading)
    ensures HasDimensions(m, t) && Secure(m, t)
  {
  }

  lemma {:induction false} Appended(t: Threshold, xs: seq<Handover>, x: Handover, leading: Scalar)
    requires Succession(t, xs) && HonestHandover(x) && Even(Goal(x), t, leading) && x.t == t
    requires x.source == Some(Goal(xs[|xs| - 1]))
    ensures Succession(t, xs + [x])
  {
    hide HonestHandover, Goal, Secure, Even;
    EvenSecure(Goal(x), t, leading);
  }

  lemma {:induction false} Single(t: Threshold, x: Handover, leading: Scalar)
    requires HonestHandover(x) && Even(Goal(x), t, leading) && x.t == t && x.kind == DealingPhase
    ensures Succession(t, [x])
  {
    hide HonestHandover, Goal, Secure, Even;
    EvenSecure(Goal(x), t, leading);
  }

  /**
   * For every threshold and every feasible sequence of committees there are
   * honest handoffs between them that all members complete.
   */
  lemma {:induction false} SuccessionExists(t: Threshold, kinds: seq<HandoffKind>, committees: seq<seq<Scalar>>)
    returns (xs: seq<Handover>, leading: Scalar)
    requires Feasible(t, kinds, committees)
    ensures Succession(t, xs) && Between(xs, kinds, committees)
    ensures Even(Goal(xs[|xs| - 1]), t, leading) && P > 2
    decreases |kinds|
  {
    hide HonestHandover, Goal, Even, Drawn, PlanOf;
    var n := |kinds| - 1;
    var kind, ids := kinds[n], committees[n];
    if n == 0 {
      TwoIsScalar(ids);
      var c, l := NextHandover(t, kind, None, ids, ids, 0);
      var x := HandoverOf(t, kind, None, ids, ids, c);
      Single(t, x, l);
      xs, leading := [x], l;
    } else {
      FeasibleFront(t, kinds, committees);
      var ys, l := SuccessionExists(t, kinds[..n], committees[..n]);
      var source, last := Some(Goal(ys[n - 1])), committees[n - 1];
      assert Suits(t, kinds[n - 1], last) && Joins(kind, last, ids);
      var c, l' := NextHandover(t, kind, source, last, ids, l);
      var x := HandoverOf(t, kind, source, last, ids, c);
      Appended(t, ys, x, l');
      xs, leading := ys + [x], l';
    }
  }

  /** The committee and the kind of every handoff in a history. */
  predicate Recorded(records: seq<Record>, kinds: seq<HandoffKind>, committees: seq<seq<Scalar>>) {
    && |records| == |kinds| == |committees|
    && forall k :: 0 <= k < |records| ==> RecordedAs(records[k], kinds[k], committees[k])
  }

  /** The dealers are the members. */
  predicate RecordedAs(r: Record, kind: HandoffKind, ids: seq<Scalar>) {
    && r.kind == kind && r.dealers == ids && |r.members| == |ids|
    && forall i :: 0 <= i < |ids| ==> r.members[i].id == ids[i]
  }

  /** After the k-th handoff all of the given nodes hold shares. */
  ghost predicate AllHold(
    t: Threshold, records: seq<Record>, matrices: seq<VerificationMatrix>, k: nat, ids: seq<Scalar>)
    requires |records| == |matrices| && k < |records|
  {
    exists shares :: Xs(shares) == ids && HeldAfter(t, records, matrices, k, shares)
  }

  lemma {:induction false} RecordedHold(
    t: Threshold, records: seq<Record>, matrices: seq<VerificationMatrix>, k: nat, ids: seq<Scalar>)
    requires History(t, records, matrices) && k < |records| && RecordedAs(records[k], records[k].kind, ids)
    ensures AllHold(t, records, matrices, k, ids)
  {
    hide Completes, Held;
    var before := if k == 0 then None else Some(matrices[k - 1]);
    var shares := MembersHold(t, before, records[k], matrices[k]);
    assert Xs(shares) == ids;
    assert HeldAfter(t, records, matrices, k, shares);
  }

  /** So there is a history with these committees, in which every member holds a share after every handoff. */
  lemma {:induction false} HistoryExists(t: Threshold, kinds: seq<HandoffKind>, committees: seq<seq<Scalar>>)
    returns (records: seq<Record>, matrices: seq<VerificationMatrix>)
    requires Feasible(t, kinds, committees)
    ensures Recorded(records, kinds, committees)
    ensures History(t, records, matrices)
    ensures forall k :: 0 <= k < |records| ==> AllHold(t, records, matrices, k, committees[k])
  {
    hide Completes, Goal, HonestHandover, Secure, AllHold;
    var xs, _ := SuccessionExists(t, kinds, committees);
    HonestHistory(t, xs);
    records, matrices := RecordsOf(t, xs), GoalsOf(t, xs);
    forall k | 0 <= k < |records| ensures RecordedAs(records[k], kinds[k], committees[k]) {
      assert records[k] == RecordOf(xs[k]);
    }
    forall k | 0 <= k < |records| ensures AllHold(t, records, matrices, k, committees[k]) {
      RecordedHold(t, records, matrices, k, committees[k]);
    }
  }
}
