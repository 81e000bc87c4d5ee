/** When shareholders get the secret back, said without the number of shares that recovery asks for. */
module Recovery {
  import opened Field
  import opened Polynomials
  import opened Lagrange
  import opened Bivariate
  import opened Vss
  import opened Errors
  import opened Shares
  import opened Dealers
  import opened Players
  import opened Secrecy
  import opened HandoffTheory

  /**
   * What a client of the key manager does: after any number of handoffs, t + 1
   * current members are enough, and what comes out is the secret that the
   * dealing phase has fixed.
   */
  method RecoverAfterHandoffs(
    t: Threshold, ghost records: seq<Record>, ghost matrices: seq<VerificationMatrix>, ghost k: nat,
    shares: seq<SecretShare>)
    returns (r: Result<Scalar>)
    requires History(t, records, matrices) && k < |records|
    requires HeldAfter(t, records, matrices, k, shares)
    requires Distinct(Xs(shares)) && |shares| == t + 1
    ensures r == Ok(Committed(matrices[0])[0][0])
  {
    hide History, HeldAfter, Mod, Distinct, WeightedSum;
    r := RecoverSecret(t, CommitteeUnchanged, shares);
    SecretSurvives(t, records, matrices, k, shares);
    WeightedSumRecovers(Interpolate(Xs(shares), Ys(shares)), Xs(shares), Ys(shares));
  }

  /**
   * Recovery answers if and only if the shares leave no other secret open:
   * it never refuses shares that determine the secret and never guesses.
   */
  method RecoverExactly(t: Threshold, kind: HandoffKind, shares: seq<SecretShare>, ghost b: Matrix)
    returns (r: Result<Scalar>)
    requires HasDimensions(b, t) && Suitable(b, t) && P > 3
    requires SharesOf(shares, b, DealsFullShares(kind)) && Distinct(Xs(shares)) && 0 !in Xs(shares)
    ensures r.Ok? <==> Determined(b, t, DealsFullShares(kind), Xs(shares))
    ensures r.Ok? ==> r.value == b[0][0]
    ensures r.Err? ==> r.error == NotEnoughShares
  {
    hide Determined, Suitable, Distinct, SharesOf;
    r := RecoverSecret(t, kind, shares);
    ThresholdExact(b, t, DealsFullShares(kind), Xs(shares));
  }
}
