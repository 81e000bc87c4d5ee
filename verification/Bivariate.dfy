/**
 * Bivariate polynomials and their commitments (`poly::BivariatePolynomial`
 * and `vss` in the source). Row i, column j of a matrix belongs to x^i * y^j.
 */
module Bivariate {
  import opened Field
  import opened Polynomials

  predicate Rectangular(m: seq<seq<Scalar>>) {
    && 0 < |m| && 0 < |m[0]|
    && forall i :: 0 <= i < |m| ==> |m[i]| == |m[0]|
  }

  type Matrix = m: seq<seq<Scalar>> | Rectangular(m) witness [[0]]

  predicate SameDimensions(a: Matrix, b: Matrix) {
    |a| == |b| && |a[0]| == |b[0]|
  }

  function Transpose(b: Matrix): (r: Matrix)
    ensures |r| == |b[0]| && |r[0]| == |b|
    ensures forall i, j :: 0 <= i < |b| && 0 <= j < |b[0]| ==> r[j][i] == b[i][j]
  {
    seq(|b[0]|, j requires 0 <= j < |b[0]| => seq(|b|, i requires 0 <= i < |b| => b[i][j]))
  }

  /** B(x, y) for a fixed y, as a polynomial in x. */
  function EvalY(b: Matrix, y: Scalar): (p: Polynomial)
    ensures |p| == |b|
    ensures forall i :: 0 <= i < |b| ==> p[i] == Value(b[i], y)
  {
    seq(|b|, i requires 0 <= i < |b| => Value(b[i], y))
  }

  /** B(x, y) for a fixed x, as a polynomial in y. */
  function EvalX(b: Matrix, x: Scalar): (p: Polynomial)
    ensures |p| == |b[0]|
  {
    EvalY(Transpose(b), x)
  }

  /** B(x, y), as the sum over rows. */
  function ValueXY(b: Matrix, x: Scalar, y: Scalar): Scalar {
    Value(EvalY(b, y), x)
  }

  // ---- the two orders of evaluation agree ----

  lemma {:induction false} ColumnSplit(b: Matrix, x: Scalar, rest: Matrix)
    requires 1 < |b| && rest == b[1..]
    ensures EvalX(b, x) == ModAll(Sum(b[0], Scale(x, EvalX(rest, x))))
  {
    forall j | 0 <= j < |b[0]|
      ensures EvalX(b, x)[j] == Mod(Sum(b[0], Scale(x, EvalX(rest, x)))[j])
    {
      var column := Transpose(b)[j];
      assert column[1..] == Transpose(rest)[j];
      SumAt(b[0], Scale(x, EvalX(rest, x)), j);
      var e := Eval(column[1..], x);
      assert EvalX(rest, x)[j] == Mod(e);
      LinearCong(b[0][j], b[0][j], x, Mod(e), e) by { ModBoth(e, 0); }
    }
  }

  lemma {:induction false} EvaluationOrder(b: Matrix, x: Scalar, y: Scalar)
    ensures Value(EvalX(b, x), y) == ValueXY(b, x, y)
    decreases |b|
  {
    if |b| == 1 {
      forall j | 0 <= j < |b[0]| ensures EvalX(b, x)[j] == b[0][j] {
        var column := Transpose(b)[j];
        assert column == [b[0][j]];
        assert Eval(column, x) == b[0][j] + x * Eval(column[1..], x);
      }
      assert EvalX(b, x) == b[0];
      assert EvalY(b, y) == [Value(b[0], y)];
      assert Eval(EvalY(b, y), x) == Value(b[0], y) + x * Eval(EvalY(b, y)[1..], x);
    } else {
      var rest: Matrix := b[1..];
      var p := EvalX(rest, x);
      EvaluationOrder(rest, x, y);
      assert EvalY(b, y)[1..] == EvalY(rest, y);
      ColumnSplit(b, x, rest);
      ValueModAll(Sum(b[0], Scale(x, p)), y);
      EvalSum(b[0], Scale(x, p), y);
      EvalScale(x, p, y);
      OrderStep(Eval(b[0], y), x, Eval(p, y), Eval(EvalY(rest, y), x));
    }
  }

  lemma {:induction false} OrderStep(a: int, x: int, e: int, e': int)
    requires Mod(e) == Mod(e')
    ensures Mod(a + x * e) == Mod(Mod(a) + x * e')
  {
    LinearCong(a, Mod(a), x, e, e') by { ModBoth(a, 0); }
  }

  // ---- linearity ----

  function AddPolynomials(p: Polynomial, q: Polynomial): (r: Polynomial) {
    ModAll(Sum(p, q))
  }

  function AddMatrices(a: Matrix, b: Matrix): (r: Matrix)
    requires SameDimensions(a, b)
    ensures SameDimensions(r, a)
    ensures forall i, j :: 0 <= i < |a| && 0 <= j < |a[0]| ==> r[i][j] == Add(a[i][j], b[i][j])
  {
    seq(|a|, i requires 0 <= i < |a| =>
      seq(|a[0]|, j requires 0 <= j < |a[0]| => Add(a[i][j], b[i][j])))
  }

  lemma {:induction false} EvalYAdd(a: Matrix, b: Matrix, y: Scalar)
    requires SameDimensions(a, b)
    ensures EvalY(AddMatrices(a, b), y) == AddPolynomials(EvalY(a, y), EvalY(b, y))
  {
    var p, q := EvalY(a, y), EvalY(b, y);
    forall i | 0 <= i < |a|
      ensures EvalY(AddMatrices(a, b), y)[i] == AddPolynomials(p, q)[i]
    {
      RowAdd(a, b, i);
      ValueModAll(Sum(a[i], b[i]), y);
      EvalSum(a[i], b[i], y);
      SumAt(p, q, i);
      ModBoth(Eval(a[i], y), Eval(b[i], y));
    }
  }

  lemma {:induction false} RowAdd(a: Matrix, b: Matrix, i: nat)
    requires SameDimensions(a, b) && i < |a|
    ensures AddMatrices(a, b)[i] == ModAll(Sum(a[i], b[i]))
  {
    forall j | 0 <= j < |a[0]| ensures AddMatrices(a, b)[i][j] == Mod(Sum(a[i], b[i])[j]) {
      SumAt(a[i], b[i], j);
    }
  }

  lemma {:induction false} EvalXAdd(a: Matrix, b: Matrix, x: Scalar)
    requires SameDimensions(a, b)
    ensures EvalX(AddMatrices(a, b), x) == AddPolynomials(EvalX(a, x), EvalX(b, x))
  {
    MatrixEqual(Transpose(AddMatrices(a, b)), AddMatrices(Transpose(a), Transpose(b)));
    EvalYAdd(Transpose(a), Transpose(b), x);
  }

  lemma {:induction false} MatrixEqual(a: Matrix, b: Matrix)
    requires SameDimensions(a, b)
    requires forall i, j :: 0 <= i < |a| && 0 <= j < |a[0]| ==> a[i][j] == b[i][j]
    ensures a == b
  {
    forall i | 0 <= i < |a| ensures a[i] == b[i] {
    }
  }

  lemma {:induction false} AddMatricesAssociates(a: Matrix, b: Matrix, c: Matrix)
    requires SameDimensions(a, b) && SameDimensions(a, c)
    ensures AddMatrices(a, AddMatrices(b, c)) == AddMatrices(AddMatrices(a, b), c)
  {
    hide Mod;
    var p, q := AddMatrices(a, AddMatrices(b, c)), AddMatrices(AddMatrices(a, b), c);
    forall i, j | 0 <= i < |a| && 0 <= j < |a[0]| ensures p[i][j] == q[i][j] {
      ModAssoc(a[i][j], b[i][j], c[i][j]);
    }
    MatrixEqual(p, q);
  }

  lemma {:induction false} AddMatricesSwap(a: Matrix, b: Matrix, c: Matrix)
    requires SameDimensions(a, b) && SameDimensions(a, c)
    ensures AddMatrices(AddMatrices(a, b), c) == AddMatrices(AddMatrices(a, c), b)
  {
    hide Mod;
    MatrixEqual(AddMatrices(b, c), AddMatrices(c, b));
    AddMatricesAssociates(a, b, c);
    AddMatricesAssociates(a, c, b);
  }
}

/**
 * Verifiable secret sharing. The group is cyclic of order P, so it is taken
 * as the field under addition, with an arbitrary non-zero generator: the
 * multiple s * G of the generator is Mul(s, GENERATOR), the identity is 0 and
 * the discrete logarithm of every element exists, although no code computes it.
 */
module Vss {
  import opened Arith
  import opened Field
  import opened Polynomials
  import opened Bivariate

  type NonZero = x: Scalar | x != 0 witness 1
  type Element = Scalar
  type VerificationMatrix = Matrix

  const GENERATOR: NonZero

  function Commit(s: Scalar): (e: Element) { Mul(s, GENERATOR) }

  /** The discrete logarithm: which scalar an element is a commitment to. */
  function Log(e: Element): (s: Scalar)
    ensures Commit(s) == e
  {
    var u: int, g: int, e': int := Inverse(GENERATOR), GENERATOR, e;
    ModMul(e' * u, g);
    MulAssoc(e', u, g);
    MulCong(e', e', u * g, 1);
    Mul(e, Inverse(GENERATOR))
  }

  lemma {:induction false} CommitInjective(a: Scalar, b: Scalar)
    requires Commit(a) == Commit(b)
    ensures a == b
  {
    var a': int, b': int, g: int := a, b, GENERATOR;
    Distribute(g, a', b');
    MulAssoc(a', g, 1);
    MulAssoc(b', g, 1);
    SubCong(a' * g, b' * g);
    NoZeroDivisors(g, a' - b');
    SubCong(a', b');
  }

  function CommitAll(p: seq<Scalar>): (v: seq<Element>)
    ensures |v| == |p|
  {
    seq(|p|, i requires 0 <= i < |p| => Commit(p[i]))
  }

  lemma {:induction false} CommitAllInjective(p: seq<Scalar>, q: seq<Scalar>)
    requires CommitAll(p) == CommitAll(q)
    ensures p == q
  {
    assert |p| == |q| by { assert |CommitAll(p)| == |CommitAll(q)|; }
    forall i | 0 <= i < |p| ensures p[i] == q[i] {
      assert CommitAll(p)[i] == CommitAll(q)[i];
      CommitInjective(p[i], q[i]);
    }
  }

  /** The verification matrix of a bivariate polynomial. */
  function CommitMatrix(b: Matrix): (m: VerificationMatrix)
    ensures SameDimensions(m, b)
    ensures forall i, j :: 0 <= i < |b| && 0 <= j < |b[0]| ==> m[i][j] == Commit(b[i][j])
  {
    seq(|b|, i requires 0 <= i < |b| => CommitAll(b[i]))
  }

  /** The one bivariate polynomial that a verification matrix commits to. */
  function Committed(m: VerificationMatrix): (b: Matrix)
    ensures SameDimensions(m, b)
    ensures CommitMatrix(b) == m
  {
    var b: Matrix := seq(|m|, i requires 0 <= i < |m| =>
      seq(|m[0]|, j requires 0 <= j < |m[0]| => Log(m[i][j])));
    MatrixEqual(CommitMatrix(b), m);
    b
  }

  lemma {:induction false} CommittedCommit(b: Matrix)
    ensures Committed(CommitMatrix(b)) == b
  {
    var b' := Committed(CommitMatrix(b));
    forall i, j | 0 <= i < |b| && 0 <= j < |b[0]| ensures b[i][j] == b'[i][j] {
      CommitInjective(b[i][j], b'[i][j]);
    }
    MatrixEqual(b, b');
  }

  lemma {:induction false} ValueCommit(p: seq<Scalar>, x: Scalar)
    ensures Value(CommitAll(p), x) == Commit(Value(p, x))
  {
    var g: int := GENERATOR;
    assert CommitAll(p) == ModAll(Scale(g, p)) by {
      forall i | 0 <= i < |p| ensures CommitAll(p)[i] == Mod(g * p[i]) {
        MulAssoc(p[i], g, 1);
      }
    }
    ValueModAll(Scale(g, p), x);
    EvalScale(g, p, x);
    ModMul(Eval(p, x), g);
    MulAssoc(Eval(p, x), g, 1);
  }

  lemma {:induction false} EvalYCommit(b: Matrix, y: Scalar)
    ensures EvalY(CommitMatrix(b), y) == CommitAll(EvalY(b, y))
  {
    forall i | 0 <= i < |b| ensures EvalY(CommitMatrix(b), y)[i] == CommitAll(EvalY(b, y))[i] {
      ValueCommit(b[i], y);
    }
  }

  lemma {:induction false} EvalXCommit(b: Matrix, x: Scalar)
    ensures EvalX(CommitMatrix(b), x) == CommitAll(EvalX(b, x))
  {
    MatrixEqual(Transpose(CommitMatrix(b)), CommitMatrix(Transpose(b)));
    EvalYCommit(Transpose(b), x);
  }

  // ---- what the source checks ----

  predicate IsZeroHole(m: VerificationMatrix) { m[0][0] == 0 }

  /** `verify_x`: is p committed to as B(x, y)? */
  predicate VerifyX(m: VerificationMatrix, x: Scalar, p: Polynomial) {
    CommitAll(p) == EvalX(m, x)
  }

  /** `verify_y`: is p committed to as B(x, y) with y fixed? */
  predicate VerifyY(m: VerificationMatrix, y: Scalar, p: Polynomial) {
    CommitAll(p) == EvalY(m, y)
  }

  /** `VerificationVector::verify` */
  predicate VerifyPoint(v: seq<Element>, x: Scalar, y: Scalar) {
    Value(v, x) == Commit(y)
  }

  lemma {:induction false} VerifyXMeaning(m: VerificationMatrix, x: Scalar, p: Polynomial)
    ensures VerifyX(m, x, p) <==> p == EvalX(Committed(m), x)
  {
    EvalXCommit(Committed(m), x);
    if VerifyX(m, x, p) {
      CommitAllInjective(p, EvalX(Committed(m), x));
    }
  }

  lemma {:induction false} VerifyYMeaning(m: VerificationMatrix, y: Scalar, p: Polynomial)
    ensures VerifyY(m, y, p) <==> p == EvalY(Committed(m), y)
  {
    EvalYCommit(Committed(m), y);
    if VerifyY(m, y, p) {
      CommitAllInjective(p, EvalY(Committed(m), y));
    }
  }

  /** A vector of commitments to p accepts exactly the points of p. */
  lemma {:induction false} VerifyPointMeaning(p: seq<Scalar>, x: Scalar, y: Scalar)
    ensures VerifyPoint(CommitAll(p), x, y) <==> y == Value(p, x)
  {
    ValueCommit(p, x);
    if VerifyPoint(CommitAll(p), x, y) {
      CommitInjective(y, Value(p, x));
    }
  }

  /** Commitments add up like the polynomials they commit to. */
  lemma {:induction false} CommittedAdd(a: VerificationMatrix, b: VerificationMatrix)
    requires SameDimensions(a, b)
    ensures Committed(AddMatrices(a, b)) == AddMatrices(Committed(a), Committed(b))
  {
    var s := AddMatrices(Committed(a), Committed(b));
    forall i, j | 0 <= i < |a| && 0 <= j < |a[0]|
      ensures CommitMatrix(s)[i][j] == AddMatrices(a, b)[i][j]
    {
      var p: int, q: int, g: int := Committed(a)[i][j], Committed(b)[i][j], GENERATOR;
      ModMul(p + q, g);
      Distribute(g, p, q);
      MulAssoc(p, g, 1);
      MulAssoc(q, g, 1);
      ModBoth(p * g, q * g);
    }
    MatrixEqual(CommitMatrix(s), AddMatrices(a, b));
    CommittedCommit(s);
  }
}
