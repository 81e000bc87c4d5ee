/** Dealers, who cut a bivariate polynomial into shares. */
module Dealers {
  import opened Arith
  import opened Field
  import opened Bivariate
  import opened Vss
  import opened Errors
  import opened Shares

  datatype HandoffKind = DealingPhase | CommitteeUnchanged | CommitteeChanged

  function RequireZeroHole(kind: HandoffKind): bool {
    match kind
    case DealingPhase => false
    case CommitteeUnchanged => true
    case CommitteeChanged => true
  }

  /** Whether dealers send full shares B(x, y) or reduced shares B(y, x). */
  function DealsFullShares(kind: HandoffKind): bool {
    match kind
    case DealingPhase => true
    case CommitteeUnchanged => true
    case CommitteeChanged => false
  }

  datatype Dealer = Dealer(bp: Matrix, vm: VerificationMatrix)

  function FromPolynomial(bp: Matrix): (d: Dealer) { Dealer(bp, CommitMatrix(bp)) }

  function MakeShare(d: Dealer, x: Scalar, kind: HandoffKind): (s: SecretShare) {
    SecretShare(x, Restriction(d.bp, x, DealsFullShares(kind)))
  }

  function MakeShares(d: Dealer, xs: seq<Scalar>, kind: HandoffKind): (r: seq<SecretShare>) {
    seq(|xs|, i requires 0 <= i < |xs| => MakeShare(d, xs[i], kind))
  }

  /** A random number generator is its output and how much of it was drawn. */
  class Rng {
    const stream: nat -> Scalar
    var drawn: nat

    constructor (stream: nat -> Scalar)
      ensures this.stream == stream && drawn == 0
    {
      this.stream := stream;
      drawn := 0;
    }
  }

  /** The rows * cols scalars from position pos on, row by row. */
  function Draw(stream: nat -> Scalar, pos: nat, rows: nat, cols: nat): (b: Matrix)
    requires 0 < rows && 0 < cols
    ensures |b| == rows && |b[0]| == cols
  {
    seq(rows, i requires 0 <= i < rows => seq(cols, j requires 0 <= j < cols => stream(pos + i * cols + j)))
  }

  /** No leading term and no secret is zero. */
  predicate Suitable(b: Matrix, t: Threshold)
    requires HasDimensions(b, t)
  {
    b[0][0] != 0 && b[t][2 * t] != 0 && b[t][0] != 0 && b[0][2 * t] != 0
  }

  function Terms(t: Threshold): nat { Rows(t) * Cols(t) }

  /** The candidate drawn at the k-th attempt. */
  function Candidate(stream: nat -> Scalar, pos: nat, t: Threshold, k: nat): (b: Matrix)
    ensures HasDimensions(b, t)
  {
    Draw(stream, pos + k * Terms(t), Rows(t), Cols(t))
  }

  /**
   * Rejection sampling: at most five attempts, and the first suitable
   * candidate is the result. A threshold above 127 does not fit.
   */
  method GenerateBivariatePolynomial(t: Threshold, rng: Rng) returns (r: Result<Matrix>)
    modifies rng
    ensures r == Err(ThresholdTooLarge) <==> t > 127
    ensures r == Err(ThresholdTooLarge) ==> rng.drawn == old(rng.drawn)
    ensures r.Ok? ==>
              exists k: nat :: k < 5
                && r.value == Candidate(rng.stream, old(rng.drawn), t, k) && Suitable(r.value, t)
                && (forall i: nat :: i < k ==> !Suitable(Candidate(rng.stream, old(rng.drawn), t, i), t))
                && rng.drawn == old(rng.drawn) + (k + 1) * Terms(t)
    ensures r.Err? && t <= 127 ==>
              && r == Err(PolynomialGenerationFailed)
              && rng.drawn == old(rng.drawn) + 5 * Terms(t)
              && forall i: nat :: i < 5 ==> !Suitable(Candidate(rng.stream, old(rng.drawn), t, i), t)
  {
    if t > 127 {
      return Err(ThresholdTooLarge);
    }
    var attempt: nat := 0;
    while attempt < 5
      invariant attempt <= 5
      invariant rng.drawn == old(rng.drawn) + attempt * Terms(t)
      invariant forall i: nat :: i < attempt ==> !Suitable(Candidate(rng.stream, old(rng.drawn), t, i), t)
    {
      var bp := Draw(rng.stream, rng.drawn, t + 1, 2 * t + 1);
      assert bp == Candidate(rng.stream, old(rng.drawn), t, attempt);
      MulSucc(attempt, Terms(t));
      rng.drawn := rng.drawn + Terms(t);
      if !(bp[0][0] == 0 || bp[t][2 * t] == 0 || bp[t][0] == 0 || bp[0][2 * t] == 0) {
        return Ok(bp);
      }
      attempt := attempt + 1;
    }
    return Err(PolynomialGenerationFailed);
  }

  function ToZeroHole(b: Matrix): (r: Matrix) { b[0 := b[0][0 := 0]] }

  /** One of the five attempts draws a suitable polynomial. */
  predicate DrawsSuitable(stream: nat -> Scalar, pos: nat, t: Threshold) {
    exists k: nat :: k < 5 && Suitable(Candidate(stream, pos, t, k), t)
  }

  method NewDealer(t: Threshold, rng: Rng) returns (r: Result<Dealer>)
    modifies rng
    ensures r.Ok? <==> t <= 127 && DrawsSuitable(rng.stream, old(rng.drawn), t)
    ensures r.Err? ==> r.error == if t > 127 then ThresholdTooLarge else PolynomialGenerationFailed
    ensures r.Ok? ==> r.value.vm == CommitMatrix(r.value.bp) && HasDimensions(r.value.bp, t) && Suitable(r.value.bp, t)
  {
    var bp := GenerateBivariatePolynomial(t, rng);
    r := if bp.Ok? then Ok(FromPolynomial(bp.value)) else Err(bp.error);
  }

  method NewProactiveDealer(t: Threshold, rng: Rng) returns (r: Result<Dealer>)
    modifies rng
    ensures r.Ok? <==> t <= 127 && DrawsSuitable(rng.stream, old(rng.drawn), t)
    ensures r.Err? ==> r.error == if t > 127 then ThresholdTooLarge else PolynomialGenerationFailed
    ensures r.Ok? ==>
              && r.value.vm == CommitMatrix(r.value.bp)
              && exists b: Matrix :: HasDimensions(b, t) && Suitable(b, t) && r.value.bp == ToZeroHole(b)
  {
    var bp := GenerateBivariatePolynomial(t, rng);
    r := if bp.Ok? then Ok(FromPolynomial(ToZeroHole(bp.value))) else Err(bp.error);
  }

  /** The polynomial a dealer of the given kind uses. */
  function DealtPolynomial(b: Matrix, kind: HandoffKind): (r: Matrix) {
    if kind == DealingPhase then b else ToZeroHole(b)
  }

  /**
   * Honest completeness: whatever suitable polynomial a dealer has drawn, its
   * share passes every check of the receiver, in each kind of handoff.
   */
  lemma {:induction false} HonestShareAccepted(b: Matrix, t: Threshold, x: Scalar, kind: HandoffKind)
    requires HasDimensions(b, t) && Suitable(b, t)
    ensures var d := FromPolynomial(DealtPolynomial(b, kind));
            var vs := VerifiableShare(MakeShare(d, x, kind), d.vm);
            Verify(vs, t, RequireZeroHole(kind), DealsFullShares(kind)) == Ok(())
  {
    var d := FromPolynomial(DealtPolynomial(b, kind));
    CommittedCommit(d.bp);
    VerifyMeaning(VerifiableShare(MakeShare(d, x, kind), d.vm), t, RequireZeroHole(kind), DealsFullShares(kind));
  }
}

/** The player, who recovers the shared secret from enough shares. */
module Players {
  import opened Field
  import opened Polynomials
  import opened Lagrange
  import opened Bivariate
  import opened Errors
  import opened Shares
  import opened Dealers

  /** More than t full shares or more than 2t reduced ones. */
  function MinShares(t: Threshold, kind: HandoffKind): nat {
    if kind == CommitteeChanged then 2 * t + 1 else t + 1
  }

  function Xs(shares: seq<SecretShare>): (xs: seq<Scalar>)
    ensures |xs| == |shares|
  {
    seq(|shares|, i requires 0 <= i < |shares| => shares[i].x)
  }

  function Ys(shares: seq<SecretShare>): (ys: seq<Scalar>)
    ensures |ys| == |shares|
  {
    seq(|shares|, i requires 0 <= i < |shares| => shares[i].Y())
  }

  method DistinctShares(shares: seq<SecretShare>) returns (distinct: bool)
    ensures distinct <==> Distinct(Xs(shares))
  {
    var xs := Xs(shares);
    for i := 0 to |shares|
      invariant forall k, l :: 0 <= k < i && k < l < |xs| ==> xs[k] != xs[l]
    {
      for j := i + 1 to |shares|
        invariant forall l :: i < l < j ==> xs[i] != xs[l]
      {
        if shares[i].x == shares[j].x {
          assert xs[i] == xs[j];
          return false;
        }
      }
    }
    return true;
  }

  /** Every share is the restriction of b that belongs to its holder. */
  ghost predicate SharesOf(shares: seq<SecretShare>, b: Matrix, full: bool) {
    forall i :: 0 <= i < |shares| ==> shares[i].p == Restriction(b, shares[i].x, full)
  }

  /**
   * Recovery succeeds exactly on enough shares of distinct holders and returns
   * the value at zero of the polynomial through them. On shares of one
   * bivariate polynomial that is its secret, whichever shares were supplied.
   */
  method RecoverSecret(t: Threshold, kind: HandoffKind, shares: seq<SecretShare>) returns (r: Result<Scalar>)
    ensures r == Err(NotEnoughShares) <==> |shares| < MinShares(t, kind)
    ensures r == Err(NotDistinctShares) <==> |shares| >= MinShares(t, kind) && !Distinct(Xs(shares))
    ensures r.Err? ==> r.error in {NotEnoughShares, NotDistinctShares}
    ensures r.Ok? ==> Distinct(Xs(shares)) && r.value == Value(Interpolate(Xs(shares), Ys(shares)), 0)
    ensures forall b: Matrix ::
              r.Ok? && HasDimensions(b, t) && SharesOf(shares, b, DealsFullShares(kind)) ==> r.value == b[0][0]
  {
    if |shares| < MinShares(t, kind) {
      return Err(NotEnoughShares);
    }
    var distinct := DistinctShares(shares);
    if !distinct {
      return Err(NotDistinctShares);
    }
    var xs := Xs(shares);
    var cs := Coefficients(xs);
    var secret: Scalar := 0;
    for i := 0 to |shares|
      invariant secret == WeightedSum(cs, Ys(shares), i)
    {
      var ci := Mul(cs[i], shares[i].Y());
      secret := Add(secret, ci);
    }
    WeightedSumRecovers(Interpolate(xs, Ys(shares)), xs, Ys(shares));
    forall b: Matrix | HasDimensions(b, t) && SharesOf(shares, b, DealsFullShares(kind))
      ensures secret == b[0][0]
    {
      SharesRecover(shares, b, t, DealsFullShares(kind));
    }
    return Ok(secret);
  }

  /** The constant term of a share is a point of B(x, 0) or B(0, y). */
  lemma {:induction false} ShareOrdinate(b: Matrix, x: Scalar, full: bool)
    ensures Restriction(b, x, full)[0] == Value(Restriction(b, 0, !full), x)
  {
    hide Mod;
    var p := Restriction(b, x, full);
    EvalAtZero(p);
    ModSmall(p[0]);
    EvaluationOrder(b, x, 0);
    EvaluationOrder(b, 0, x);
  }

  lemma {:induction false} ConstantTerm(b: Matrix, full: bool)
    ensures Value(Restriction(b, 0, full), 0) == b[0][0]
  {
    hide Mod;
    EvaluationOrder(b, 0, 0);
    EvalAtZero(EvalY(b, 0));
    EvalAtZero(b[0]);
    ModSmall(b[0][0]);
    ModSmall(EvalY(b, 0)[0]);
  }

  /** Interpolating the points of B(x, 0) or B(0, y) at zero gives B(0, 0). */
  lemma {:induction false} SharesRecover(shares: seq<SecretShare>, b: Matrix, t: Threshold, full: bool)
    requires HasDimensions(b, t) && SharesOf(shares, b, full) && Distinct(Xs(shares))
    requires |shares| >= if full then t + 1 else 2 * t + 1
    ensures WeightedSum(Coefficients(Xs(shares)), Ys(shares), |shares|) == b[0][0]
  {
    hide Mod, Value, WeightedSum, Coefficients;
    var f := Restriction(b, 0, !full);
    forall i | 0 <= i < |shares| ensures Ys(shares)[i] == Value(f, Xs(shares)[i]) {
      ShareOrdinate(b, shares[i].x, full);
    }
    WeightedSumRecovers(f, Xs(shares), Ys(shares));
    ConstantTerm(b, !full);
  }

  /** The round trip from a dealer to a player. */
  lemma {:induction false} DealerPlayerRoundTrip(b: Matrix, t: Threshold, kind: HandoffKind, xs: seq<Scalar>)
    requires HasDimensions(b, t) && Distinct(xs) && |xs| >= MinShares(t, kind)
    ensures var shares := MakeShares(FromPolynomial(b), xs, kind);
            && Xs(shares) == xs
            && WeightedSum(Coefficients(xs), Ys(shares), |xs|) == b[0][0]
  {
    var shares := MakeShares(FromPolynomial(b), xs, kind);
    assert Xs(shares) == xs;
    SharesRecover(shares, b, t, DealsFullShares(kind));
  }
}
