/** The consensus layer's view of a CHURP instance, and what it demands of a handoff. */
module ChurpStatus {
  import opened Field
  import opened Polynomials
  import opened Lagrange
  import opened Bivariate
  import opened Errors
  import opened Shares
  import opened Dealers
  import opened Players
  import opened Secrecy
  import opened HandoffModel
  import opened Completeness
  import opened Committees
  import opened SwitchModel
  import opened Wrappers
  import opened Vss

  type NodeId = nat

  /** `applications` are the nodes that applied to form the next committee. */
  datatype Status = Status(threshold: Threshold, extraShares: nat, committee: seq<NodeId>, applications: set<NodeId>)

  function KindOf(s: Status): (kind: HandoffKind) {
    if s.committee == [] then DealingPhase
    else if |s.committee| != |s.applications| then CommitteeChanged
    else if exists i :: 0 <= i < |s.committee| && s.committee[i] !in s.applications then CommitteeChanged
    else CommitteeUnchanged
  }

  function Max(a: nat, b: nat): nat { if a < b then b else a }

  function MinApplicants(s: Status): (n: nat) {
    match KindOf(s)
    case DealingPhase => Max(s.threshold + s.extraShares + 1, s.threshold + 2)
    case CommitteeUnchanged => s.threshold + s.extraShares + 1
    case CommitteeChanged => Max(s.threshold + s.extraShares + 1, 2 * s.threshold + 1)
  }

  function Members(committee: seq<NodeId>): set<NodeId> { set i | 0 <= i < |committee| :: committee[i] }

  predicate DuplicateFree(committee: seq<NodeId>) {
    forall i, j :: 0 <= i < j < |committee| ==> committee[i] != committee[j]
  }

  lemma {:induction false} MembersSize(committee: seq<NodeId>)
    ensures |Members(committee)| <= |committee|
    ensures |Members(committee)| == |committee| <==> DuplicateFree(committee)
  {
    if committee != [] {
      var front, last := committee[..|committee| - 1], committee[|committee| - 1];
      MembersSize(front);
      assert Members(committee) == Members(front) + {last};
      if last in Members(front) {
        assert Members(committee) == Members(front);
      }
    }
  }

  lemma {:induction false} SubsetOfSameSize(a: set<NodeId>, b: set<NodeId>)
    requires a <= b && |a| == |b|
    ensures a == b
  {
    assert |b - a| == |b| - |a|;
  }

  /** Comparing lengths and looking up one way is a full comparison, without duplicates. */
  lemma {:induction false} UnchangedExactly(s: Status)
    requires DuplicateFree(s.committee)
    ensures KindOf(s) == CommitteeUnchanged <==> s.committee != [] && Members(s.committee) == s.applications
  {
    MembersSize(s.committee);
    if KindOf(s) == CommitteeUnchanged {
      SubsetOfSameSize(Members(s.committee), s.applications);
    }
  }

  /** Without a committee secrets are dealt; one that differs from the applicants changes, and no other does. */
  lemma {:induction false} KindExactly(s: Status)
    ensures KindOf(s) == DealingPhase <==> s.committee == []
    ensures DuplicateFree(s.committee) ==>
              (KindOf(s) == CommitteeChanged <==> s.committee != [] && Members(s.committee) != s.applications)
  {
    if DuplicateFree(s.committee) {
      UnchangedExactly(s);
    }
  }

  /** With duplicates it is never right about a committee that applies again. */
  lemma {:induction false} DuplicatesNeverMatch(s: Status)
    requires !DuplicateFree(s.committee)
    ensures Members(s.committee) == s.applications ==> KindOf(s) == CommitteeChanged
    ensures KindOf(s) == CommitteeUnchanged <==>
            Members(s.committee) < s.applications && |s.applications| == |s.committee|
  {
    MembersSize(s.committee);
  }

  /** The handoff that the status leads to, with the applicants as dealers and as senders. */
  function HandoverFor(
    s: Status, ids: seq<Scalar>, dealt: map<Scalar, Matrix>, source: Option<VerificationMatrix>,
    holders: seq<Shareholder>)
    : (x: Handover)
    requires |ids| >= MinApplicants(s)
  {
    var senders := if KindOf(s) == CommitteeChanged then ids[..2 * s.threshold + 1] else [];
    Handover(s.threshold, KindOf(s), source, ids, dealt, map id | id in ids :: Plan(holders, ids, senders))
  }

  /**
   * The minimum is enough: the handoff can be created, and the applicants' own
   * switch points, with honest dealers and t + 1 holders of the old secret,
   * give every applicant its share, if and only if the goal is secure.
   */
  lemma {:induction false} EnoughApplicants(
    s: Status, ids: seq<Scalar>, dealt: map<Scalar, Matrix>, source: Option<VerificationMatrix>,
    holders: seq<Shareholder>, me: Scalar)
    requires Distinct(ids) && |ids| >= MinApplicants(s) && me in ids
    requires AllDeal(dealt, ids, s.threshold)
    requires source.None? <==> s.committee == []
    requires source.Some? ==> HasDimensions(source.value, s.threshold)
    requires KindOf(s) == CommitteeChanged ==> Holders(holders, source.value, true) && |holders| == s.threshold + 1
    ensures Create(KindOf(s), s.threshold, me, ids).Ok?
    ensures var x := HandoverFor(s, ids, dealt, source, holders);
            && HonestHandover(x)
            && GetFullShareholder(Run(Start(x, me), Calls(x, me))) ==
               if Secure(Goal(x), s.threshold) then Ok(CommittedShare(DistributionConfig(Start(x, me)), Goal(x)))
               else Err(InvalidState)
  {
    hide KindOf, Holders, AllDeal, Goal, Secure, Calls, CommittedShare;
    var x := HandoverFor(s, ids, dealt, source, holders);
    KindExactly(s);
    assert KindOf(s) == CommitteeChanged ==> Distinct(ids[..2 * s.threshold + 1]);
    CommitteeCompletes(x, me);
  }

  /** Nodes that are left after the extra ones are lost. */
  predicate Survivors(kept: seq<Scalar>, ids: seq<Scalar>, extraShares: nat) {
    && Distinct(kept) && (forall id :: id in kept ==> id in ids)
    && (kept == [] || |kept| + extraShares <= |ids|)
  }

  /** Whoever is left, and whatever was dealt, the shares no longer determine the secret. */
  ghost predicate SecretLost(t: Threshold, extraShares: nat, ids: seq<Scalar>) {
    forall b: Matrix, kept: seq<Scalar> ::
      HasDimensions(b, t) && Suitable(b, t) && Survivors(kept, ids, extraShares) ==> !Determined(b, t, true, kept)
  }

  lemma {:induction false} TooSmallLosesSecret(t: Threshold, extraShares: nat, ids: seq<Scalar>)
    requires |ids| < t + extraShares + 1 && 0 !in ids && P > 3
    ensures SecretLost(t, extraShares, ids)
  {
    hide Determined, Suitable, Distinct;
    forall b: Matrix, kept: seq<Scalar> |
      HasDimensions(b, t) && Suitable(b, t) && Survivors(kept, ids, extraShares)
      ensures !Determined(b, t, true, kept)
    {
      TooFewShares(b, t, true, kept);
    }
  }

  /**
   * The minimum is needed: with fewer applicants the handoff cannot be
   * created, or no applicant can ever complete it from what the applicants
   * send, or losing the extra ones loses the secret.
   */
  lemma {:induction false} TooFewApplicants(s: Status, ids: seq<Scalar>, me: Scalar, events: seq<Event>)
    requires |ids| < MinApplicants(s) && SentFrom(events, ids)
    ensures var created := Create(KindOf(s), s.threshold, me, ids);
            || created.Err?
            || (KindOf(s) == CommitteeChanged && GetFullShareholder(Run(created.value, events)) == Err(InvalidState))
            || (&& |ids| < s.threshold + s.extraShares + 1
                && (0 !in ids && P > 3 ==> SecretLost(s.threshold, s.extraShares, ids)))
  {
    hide KindOf, HandoffInv, SecretLost;
    if |ids| < s.threshold + s.extraShares + 1 {
      if 0 !in ids && P > 3 {
        TooSmallLosesSecret(s.threshold, s.extraShares, ids);
      }
    } else if KindOf(s) == CommitteeChanged {
      TooFewSenders(s.threshold, me, ids, events, ids);
    }
  }

  /** A committee of at least that size recovers the secret after losing the extra shares. */
  lemma {:induction false} SurvivesLoss(s: Status, b: Matrix, size: nat, kept: seq<SecretShare>)
    requires size >= MinApplicants(s) && |kept| + s.extraShares >= size
    requires HasDimensions(b, s.threshold) && SharesOf(kept, b, true) && Distinct(Xs(kept))
    ensures WeightedSum(Coefficients(Xs(kept)), Ys(kept), |kept|) == b[0][0]
  {
    hide Mod, WeightedSum, Coefficients, SharesOf, Distinct;
    assert MinApplicants(s) >= s.threshold + s.extraShares + 1;
    SharesRecover(kept, b, s.threshold, true);
  }
}
