module Errors {
  datatype Error =
    | DuplicateShareholder
    | InvalidKind
    | InvalidPolynomial
    | InsecureBivariatePolynomial
    | InvalidSwitchPoint
    | InvalidState
    | NotEnoughBivariateShares
    | NotEnoughShareholders
    | NotEnoughSwitchPoints
    | PolynomialDegreeMismatch
    | PolynomialGenerationFailed
    | ShareholderProactivizationCompleted
    | ShareholderIdentityMismatch
    | ShareholderIdentityRequired
    | ThresholdTooLarge
    | TooManySwitchPoints
    | UnknownShareholder
    | VerificationMatrixDimensionMismatch
    | VerificationMatrixZeroHoleMismatch
    | VerificationMatrixRequired
    | NotEnoughShares
    | NotDistinctShares

  datatype Result<+T> = Ok(value: T) | Err(error: Error)
}

/** Shares, shareholders and their verification. */
module Shares {
  import opened Field
  import opened Polynomials
  import opened Bivariate
  import opened Vss
  import opened Errors

  type Threshold = t: nat | t < 256

  function Rows(t: Threshold): nat { t + 1 }

  function Cols(t: Threshold): nat { 2 * t + 1 }

  datatype SecretShare = SecretShare(x: Scalar, p: Polynomial) {
    /** The point of B(x, 0) or B(0, y) that the share stands for. */
    function Y(): Scalar { p[0] }
  }

  datatype VerifiableShare = VerifiableShare(share: SecretShare, vm: VerificationMatrix)

  /** A shareholder is a verifiable share and nothing else. */
  type Shareholder = VerifiableShare

  predicate HasDimensions(m: Matrix, t: Threshold) {
    |m| == Rows(t) && |m[0]| == Cols(t)
  }

  /** The leading terms of B(x, y), B(x, 0) and B(0, y) are not zero. */
  predicate LeadingTermsNonZero(m: Matrix, t: Threshold)
    requires HasDimensions(m, t)
  {
    t > 0 ==> m[t][2 * t] != 0 && m[t][0] != 0 && m[0][2 * t] != 0
  }

  function VerifyMatrix(vm: VerificationMatrix, t: Threshold, zeroHole: bool): Result<()> {
    if !HasDimensions(vm, t) then
      Err(VerificationMatrixDimensionMismatch)
    else if IsZeroHole(vm) != zeroHole then
      Err(VerificationMatrixZeroHoleMismatch)
    else if t > 0 && vm[t][2 * t] == 0 then
      Err(InsecureBivariatePolynomial)
    else if t > 0 && vm[t][0] == 0 then
      Err(InsecureBivariatePolynomial)
    else if t > 0 && vm[0][2 * t] == 0 then
      Err(InsecureBivariatePolynomial)
    else
      Ok(())
  }

  function VerifyShare(vs: VerifiableShare, t: Threshold, full: bool): Result<()> {
    if full then
      if |vs.share.p| != Cols(t) then Err(PolynomialDegreeMismatch)
      else if !VerifyX(vs.vm, vs.share.x, vs.share.p) then Err(InvalidPolynomial)
      else Ok(())
    else
      if |vs.share.p| != Rows(t) then Err(PolynomialDegreeMismatch)
      else if !VerifyY(vs.vm, vs.share.x, vs.share.p) then Err(InvalidPolynomial)
      else Ok(())
  }

  function Verify(vs: VerifiableShare, t: Threshold, zeroHole: bool, full: bool): Result<()> {
    var matrix := VerifyMatrix(vs.vm, t, zeroHole);
    if matrix.Err? then matrix else VerifyShare(vs, t, full)
  }

  /** The univariate restriction of b that belongs to x: B(x, y) or B(y, x). */
  function Restriction(b: Matrix, x: Scalar, full: bool): (p: Polynomial) {
    if full then EvalX(b, x) else EvalY(b, x)
  }

  /** The share carries the restriction of the polynomial its matrix commits to. */
  ghost predicate Genuine(vs: VerifiableShare, full: bool) {
    vs.share.p == Restriction(Committed(vs.vm), vs.share.x, full)
  }

  /**
   * What acceptance means: the committed polynomial has the right dimensions,
   * a zero constant term exactly when asked for and no vanishing leading term,
   * and the share is its restriction.
   */
  lemma {:induction false} VerifyMeaning(vs: VerifiableShare, t: Threshold, zeroHole: bool, full: bool)
    ensures Verify(vs, t, zeroHole, full).Ok? <==>
            && HasDimensions(vs.vm, t)
            && LeadingTermsNonZero(Committed(vs.vm), t)
            && (Committed(vs.vm)[0][0] == 0) == zeroHole
            && Genuine(vs, full)
  {
    var b := Committed(vs.vm);
    ZeroCommit(0);
    assert forall i, j :: 0 <= i < |b| && 0 <= j < |b[0]| ==> (vs.vm[i][j] == 0 <==> b[i][j] == 0) by {
      forall i, j | 0 <= i < |b| && 0 <= j < |b[0]| ensures vs.vm[i][j] == 0 <==> b[i][j] == 0 {
        ZeroCommit(b[i][j]);
      }
    }
    VerifyXMeaning(vs.vm, vs.share.x, vs.share.p);
    VerifyYMeaning(vs.vm, vs.share.x, vs.share.p);
  }

  lemma {:induction false} ZeroCommit(s: Scalar)
    ensures Commit(s) == 0 <==> s == 0
  {
    if Commit(s) == 0 {
      NoZeroDivisors(s, GENERATOR);
    }
  }

  function SwitchPoint(sh: Shareholder, x: Scalar): Scalar { Value(sh.share.p, x) }

  function AddShares(a: VerifiableShare, b: VerifiableShare): VerifiableShare
    requires SameDimensions(a.vm, b.vm)
  {
    VerifiableShare(SecretShare(a.share.x, AddPolynomials(a.share.p, b.share.p)), AddMatrices(a.vm, b.vm))
  }

  /** Adding a zero-hole polynomial and its matrix to a shareholder. */
  function Proactivize(sh: Shareholder, p: Polynomial, vm: VerificationMatrix): Result<Shareholder> {
    if |p| != |sh.share.p| then
      Err(PolynomialDegreeMismatch)
    else if !IsZeroHole(vm) then
      Err(VerificationMatrixZeroHoleMismatch)
    else if !SameDimensions(vm, sh.vm) then
      Err(VerificationMatrixDimensionMismatch)
    else
      Ok(VerifiableShare(SecretShare(sh.share.x, AddPolynomials(p, sh.share.p)), AddMatrices(vm, sh.vm)))
  }

  /** The sum of two genuine shares of one shareholder is genuine. */
  lemma {:induction false} AddSharesGenuine(a: VerifiableShare, b: VerifiableShare, full: bool)
    requires SameDimensions(a.vm, b.vm) && a.share.x == b.share.x
    requires Genuine(a, full) && Genuine(b, full)
    ensures Genuine(AddShares(a, b), full)
  {
    CommittedAdd(a.vm, b.vm);
    EvalXAdd(Committed(a.vm), Committed(b.vm), a.share.x);
    EvalYAdd(Committed(a.vm), Committed(b.vm), a.share.x);
  }

  /**
   * Exactly the matrices that commit to a zero secret and have the right
   * dimensions can be added to a shareholder. That leaves the committed secret
   * alone, and a genuine share stays genuine.
   */
  lemma {:induction false} ProactivizeExactly(sh: Shareholder, p: Polynomial, vm: VerificationMatrix, full: bool)
    ensures var r := Proactivize(sh, p, vm);
            && (r.Ok? <==> |p| == |sh.share.p| && Committed(vm)[0][0] == 0 && SameDimensions(vm, sh.vm))
            && (r.Ok? ==>
                && r.value.share.x == sh.share.x && SameDimensions(r.value.vm, sh.vm)
                && Committed(r.value.vm)[0][0] == Committed(sh.vm)[0][0]
                && (Genuine(sh, full) && p == Restriction(Committed(vm), sh.share.x, full) ==> Genuine(r.value, full)))
  {
    ZeroCommit(Committed(vm)[0][0]);
    var one := VerifiableShare(SecretShare(sh.share.x, p), vm);
    if Proactivize(sh, p, vm).Ok? {
      CommittedAdd(vm, sh.vm);
      if Genuine(sh, full) && Genuine(one, full) {
        AddSharesGenuine(one, sh, full);
      }
    }
  }
}
