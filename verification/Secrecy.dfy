/**
 * What shares below the threshold reveal. Dealers and receivers insist on a
 * non-zero secret and non-zero leading terms, so t full shares, or 2t reduced
 * ones, rule out exactly two values of the secret: zero, and the value at zero
 * of the polynomial of lower degree through them. Fewer shares rule out zero
 * only.
 */
module Secrecy {
  import opened Field
  import opened Polynomials
  import opened Lagrange
  import opened Bivariate
  import opened Vss
  import opened Shares
  import opened Dealers
  import opened Players

  /** The vanishing polynomial of xs, scaled to be one at zero. */
  function Bump(xs: seq<Scalar>): (p: seq<Scalar>)
    requires 0 !in xs
    ensures |p| == |xs| + 1
  {
    VanishingZero(xs, 0);
    ModAll(Scale(Inverse(Value(Vanishing(xs), 0)), Vanishing(xs)))
  }

  lemma {:induction false} BumpAt(xs: seq<Scalar>, x: Scalar)
    requires 0 !in xs
    ensures Value(Bump(xs), 0) == 1
    ensures x in xs ==> Value(Bump(xs), x) == 0
  {
    hide Eval, Mod, Vanishing;
    VanishingZero(xs, 0);
    VanishingZero(xs, x);
    var v, u: int := Vanishing(xs), Inverse(Value(Vanishing(xs), 0));
    ValueModAll(Scale(u, v), 0);
    EvalScale(u, v, 0);
    ValueModAll(Scale(u, v), x);
    EvalScale(u, v, x);
    ScaledValue(u, Eval(v, 0), Eval(v, x));
  }

  lemma {:induction false} ScaledValue(u: int, e: int, e': int)
    requires Mod(u * Mod(e)) == 1
    ensures Mod(u * e) == 1
    ensures Mod(e') == 0 ==> Mod(u * e') == 0
  {
    MulCong(u, u, Mod(e), e) by { ModBoth(e, 0); }
    if Mod(e') == 0 {
      MulCong(u, u, e', 0);
    }
  }

  function ScaledBump(xs: seq<Scalar>, c: Scalar, cols: nat): (p: seq<Scalar>)
    requires 0 !in xs && |xs| < cols
    ensures |p| == cols
  {
    ModAll(Scale(c, Bump(xs) + Zeros(cols - |xs| - 1)))
  }

  /** A matrix with the given first row, and zero below. */
  function FirstRow(row: seq<Scalar>, rows: nat): (m: Matrix)
    requires 0 < |row| && 0 < rows
    ensures |m| == rows && |m[0]| == |row|
    ensures m[0] == row && forall i :: 0 < i < rows ==> m[i] == Zeros(|row|)
  {
    [row] + seq(rows - 1, _ => Zeros(|row|))
  }

  /** A matrix whose first row is c times the bump, and zero below. */
  function BumpMatrix(xs: seq<Scalar>, c: Scalar, rows: nat, cols: nat): (m: Matrix)
    requires 0 !in xs && |xs| < cols && 0 < rows
    ensures |m| == rows && |m[0]| == cols
  {
    FirstRow(ScaledBump(xs, c, cols), rows)
  }

  lemma {:induction false} BumpRow(xs: seq<Scalar>, c: Scalar, rows: nat, cols: nat, y: Scalar)
    requires 0 !in xs && |xs| < cols && 0 < rows
    ensures var m := BumpMatrix(xs, c, rows, cols);
            && Value(m[0], 0) == c
            && (y in xs ==> Value(m[0], y) == 0)
            && forall i :: 0 < i < rows ==> Value(m[i], y) == 0
  {
    hide Eval, Mod, Bump;
    var padded := Bump(xs) + Zeros(cols - |xs| - 1);
    BumpAt(xs, y);
    ValueModAll(Scale(c, padded), 0);
    ValueModAll(Scale(c, padded), y);
    EvalScale(c, padded, 0);
    EvalScale(c, padded, y);
    EvalPadded(Bump(xs), cols - |xs| - 1, 0);
    EvalPadded(Bump(xs), cols - |xs| - 1, y);
    TimesOneOrZero(c, Eval(Bump(xs), 0), Eval(Bump(xs), y));
    EvalZeros(cols, y);
    ModZero();
  }

  lemma {:induction false} ModZero()
    ensures Mod(0) == 0
  {
  }

  lemma {:induction false} TimesOneOrZero(c: Scalar, e: int, e': int)
    requires Mod(e) == 1
    ensures Mod(c * e) == c
    ensures Mod(e') == 0 ==> Mod(c * e') == 0
  {
    MulCong(c, c, e, 1);
    if Mod(e') == 0 {
      MulCong(c, c, e', 0);
    }
  }

  // ---- changing the secret without changing the shares ----

  /** The number of coefficients of B(x, 0), or of B(0, y). */
  function Size(t: Threshold, full: bool): nat { if full then Rows(t) else Cols(t) }

  /** What to add to a polynomial to add c to its secret and nothing to the shares of xs. */
  function Change(t: Threshold, full: bool, xs: seq<Scalar>, c: Scalar): (m: Matrix)
    requires 0 !in xs && |xs| < Size(t, full)
    ensures HasDimensions(m, t)
  {
    if full then Transpose(BumpMatrix(xs, c, Cols(t), Rows(t))) else BumpMatrix(xs, c, Rows(t), Cols(t))
  }

  lemma {:induction false} BumpShares(xs: seq<Scalar>, c: Scalar, rows: nat, cols: nat, x: Scalar)
    requires 0 !in xs && |xs| < cols && 0 < rows && x in xs
    ensures var p := EvalY(BumpMatrix(xs, c, rows, cols), x); forall i :: 0 <= i < |p| ==> p[i] == 0
  {
    hide Value, BumpMatrix;
    BumpRow(xs, c, rows, cols, x);
  }

  /** Its entries: c at the corner, zero outside of one line, and zero at the end of that line if few hold shares. */
  lemma {:induction false} BumpEntries(xs: seq<Scalar>, c: Scalar, rows: nat, cols: nat)
    requires 0 !in xs && |xs| < cols && 0 < rows
    ensures var m := BumpMatrix(xs, c, rows, cols);
            && m[0][0] == c
            && (forall i, j :: 0 < i < rows && 0 <= j < cols ==> m[i][j] == 0)
            && (|xs| + 1 < cols ==> m[0][cols - 1] == 0)
  {
    hide Mod, Eval, Bump;
    BumpRow(xs, c, rows, cols, 0);
    var m := BumpMatrix(xs, c, rows, cols);
    EvalAtZero(m[0]);
    ModSmall(m[0][0]);
    if |xs| + 1 < cols {
      var padded := Bump(xs) + Zeros(cols - |xs| - 1);
      assert padded[cols - 1] == 0;
      assert m[0][cols - 1] == Mod(c * padded[cols - 1]);
      ModZero();
    }
  }

  /** Adding it leaves the shares of xs alone. */
  lemma {:induction false} ChangeShares(b: Matrix, t: Threshold, full: bool, xs: seq<Scalar>, c: Scalar, x: Scalar)
    requires HasDimensions(b, t) && 0 !in xs && |xs| < Size(t, full) && x in xs
    ensures Restriction(AddMatrices(b, Change(t, full, xs, c)), x, full) == Restriction(b, x, full)
  {
    hide Mod, Value, BumpMatrix;
    var m := Change(t, full, xs, c);
    if full {
      var bump := BumpMatrix(xs, c, Cols(t), Rows(t));
      MatrixEqual(Transpose(m), bump);
      BumpShares(xs, c, Cols(t), Rows(t), x);
      EvalXAdd(b, m, x);
      AddNothing(EvalX(b, x), EvalX(m, x));
    } else {
      BumpShares(xs, c, Rows(t), Cols(t), x);
      EvalYAdd(b, m, x);
      AddNothing(EvalY(b, x), EvalY(m, x));
    }
  }

  lemma {:induction false} AddZero(a: Scalar)
    ensures Add(a, 0) == a
  {
  }

  /** What happens to the secret and to the leading terms. */
  lemma {:induction false} ChangeCorners(b: Matrix, t: Threshold, full: bool, xs: seq<Scalar>, c: Scalar)
    requires HasDimensions(b, t) && 0 !in xs && |xs| < Size(t, full)
    ensures var b' := AddMatrices(b, Change(t, full, xs, c));
            && b'[0][0] == Add(b[0][0], c)
            && (t > 0 ==>
                  && b'[t][2 * t] == b[t][2 * t]
                  && (full || |xs| < 2 * t ==> b'[0][2 * t] == b[0][2 * t])
                  && (!full || |xs| < t ==> b'[t][0] == b[t][0]))
  {
    hide Add, BumpMatrix;
    if full {
      BumpEntries(xs, c, Cols(t), Rows(t));
    } else {
      BumpEntries(xs, c, Rows(t), Cols(t));
    }
    AddZero(b[t][2 * t]);
    AddZero(b[0][2 * t]);
    AddZero(b[t][0]);
  }

  lemma {:induction false} FixSecret(old': Scalar, secret: Scalar, e: Scalar)
    requires Mod(e) == Mod(secret as int - old' as int)
    ensures Add(old', e) == secret
  {
    AddCong(old', old', e, secret as int - old' as int);
  }

  lemma {:induction false} AddNothing(p: Polynomial, q: Polynomial)
    requires |p| == |q| && forall i :: 0 <= i < |q| ==> q[i] == 0
    ensures AddPolynomials(p, q) == p
  {
    forall i | 0 <= i < |p| ensures AddPolynomials(p, q)[i] == p[i] {
      SumAt(p, q, i);
    }
  }

  // ---- what exactly the threshold number of shares rules out ----

  /** The polynomial on which the constant terms of the shares lie: B(x, 0), or B(0, y). */
  function Line(b: Matrix, full: bool): (p: Polynomial) { Restriction(b, 0, !full) }

  lemma {:induction false} LineEnds(b: Matrix, t: Threshold, full: bool)
    requires HasDimensions(b, t)
    ensures |Line(b, full)| == Size(t, full)
    ensures Line(b, full)[0] == b[0][0]
    ensures Line(b, full)[Size(t, full) - 1] == if full then b[t][0] else b[0][2 * t]
  {
    hide Mod, Eval;
    if full {
      EvalAtZero(b[0]);
      EvalAtZero(b[t]);
      ModSmall(b[0][0]);
      ModSmall(b[t][0]);
    } else {
      var columns := Transpose(b);
      EvalAtZero(columns[0]);
      EvalAtZero(columns[2 * t]);
      ModSmall(b[0][0]);
      ModSmall(b[0][2 * t]);
    }
  }

  function Values(f: seq<Scalar>, xs: seq<Scalar>): (ys: seq<Scalar>)
    ensures |ys| == |xs|
  {
    seq(|xs|, i requires 0 <= i < |xs| => Value(f, xs[i]))
  }

  /**
   * A polynomial with one coefficient more than there are points has a
   * vanishing leading term if and only if its constant term is the one of the
   * polynomial of lower degree through the points.
   */
  lemma {:induction false} LeadingVanishes(f: seq<Scalar>, xs: seq<Scalar>)
    requires Distinct(xs) && 0 !in xs && |f| == |xs| + 1
    ensures f[|xs|] == 0 <==> f[0] == Value(Interpolate(xs, Values(f, xs)), 0)
  {
    hide Mod, Eval, Interpolate;
    var p := Interpolate(xs, Values(f, xs));
    var padded := p + Zeros(1);
    EvalAtZero(f);
    ModSmall(f[0]);
    if f[|xs|] == 0 {
      var front := f[..|xs|];
      assert f == front + Zeros(1);
      forall i | 0 <= i < |xs| ensures Value(front, xs[i]) == Value(p, xs[i]) {
        EvalPadded(front, 1, xs[i]);
      }
      InterpolationUnique(front, p, xs);
      EvalPadded(front, 1, 0);
    }
    if f[0] == Value(p, 0) {
      var all := [0] + xs;
      forall i | 0 <= i < |all| ensures Value(f, all[i]) == Value(padded, all[i]) {
        EvalPadded(p, 1, all[i]);
        if i > 0 {
          assert all[i] == xs[i - 1];
          assert Value(f, xs[i - 1]) == Values(f, xs)[i - 1];
        }
      }
      InterpolationUnique(f, padded, all);
      assert padded[|xs|] == 0;
    }
  }

  /** The constant terms of the shares. */
  function Ordinates(b: Matrix, full: bool, xs: seq<Scalar>): (ys: seq<Scalar>)
    ensures |ys| == |xs|
  {
    seq(|xs|, i requires 0 <= i < |xs| => Restriction(b, xs[i], full)[0])
  }

  /** What the holders would recover if they took the threshold to be one lower. */
  function Guess(b: Matrix, full: bool, xs: seq<Scalar>): Scalar
    requires Distinct(xs)
  {
    Value(Interpolate(xs, Ordinates(b, full, xs)), 0)
  }

  /** The guess is right exactly if the leading term of B(x, 0), or of B(0, y), vanishes. */
  lemma {:induction false} GuessMeaning(b: Matrix, t: Threshold, full: bool, xs: seq<Scalar>)
    requires HasDimensions(b, t) && Distinct(xs) && 0 !in xs && |xs| == Size(t, full) - 1
    ensures b[0][0] == Guess(b, full, xs) <==> (if full then b[t][0] else b[0][2 * t]) == 0
  {
    hide Mod, Value, Interpolate, Restriction, Distinct;
    LineEnds(b, t, full);
    forall i | 0 <= i < |xs| ensures Ordinates(b, full, xs)[i] == Values(Line(b, full), xs)[i] {
      ShareOrdinate(b, xs[i], full);
    }
    assert Ordinates(b, full, xs) == Values(Line(b, full), xs);
    LeadingVanishes(Line(b, full), xs);
  }

  /** The holders of shares of b cannot tell b' from it. */
  ghost predicate SameShares(b: Matrix, b': Matrix, t: Threshold, full: bool, xs: seq<Scalar>) {
    HasDimensions(b', t) && forall x :: x in xs ==> Restriction(b', x, full) == Restriction(b, x, full)
  }

  /** The secret may be this one: some polynomial that a dealer could have dealt has it and the same shares. */
  ghost predicate Possible(b: Matrix, t: Threshold, full: bool, xs: seq<Scalar>, secret: Scalar) {
    exists b': Matrix :: SameShares(b, b', t, full, xs) && Suitable(b', t) && b'[0][0] == secret
  }

  lemma {:induction false} SameGuess(b: Matrix, b': Matrix, t: Threshold, full: bool, xs: seq<Scalar>)
    requires SameShares(b, b', t, full, xs) && Distinct(xs)
    ensures Guess(b', full, xs) == Guess(b, full, xs)
  {
    hide Restriction, Interpolate, Value, Distinct;
    forall i | 0 <= i < |xs| ensures Ordinates(b', full, xs)[i] == Ordinates(b, full, xs)[i] {
      assert xs[i] in xs;
    }
    assert Ordinates(b', full, xs) == Ordinates(b, full, xs);
  }

  /** The polynomial with the same shares and the wanted secret. */
  function WithSecret(b: Matrix, t: Threshold, full: bool, xs: seq<Scalar>, secret: Scalar): (b': Matrix)
    requires HasDimensions(b, t) && 0 !in xs && |xs| < Size(t, full)
    ensures HasDimensions(b', t)
  {
    AddMatrices(b, Change(t, full, xs, Mod(secret as int - b[0][0] as int)))
  }

  lemma {:induction false} WithSecretMeaning(b: Matrix, t: Threshold, full: bool, xs: seq<Scalar>, secret: Scalar)
    requires HasDimensions(b, t) && 0 !in xs && |xs| < Size(t, full)
    ensures var b' := WithSecret(b, t, full, xs, secret); SameShares(b, b', t, full, xs) && b'[0][0] == secret
  {
    hide Restriction, Change, Mod;
    var c := Mod(secret as int - b[0][0] as int);
    ChangeCorners(b, t, full, xs, c);
    ModBoth(secret as int - b[0][0] as int, 0);
    FixSecret(b[0][0], secret, c);
    forall x | x in xs ensures Restriction(WithSecret(b, t, full, xs, secret), x, full) == Restriction(b, x, full) {
      ChangeShares(b, t, full, xs, c, x);
    }
  }

  /**
   * Exactly t full shares, or 2t reduced ones, of a polynomial that was dealt
   * leave a secret possible if and only if it is not zero and not the guess.
   */
  lemma {:induction false} AtThresholdExactly(b: Matrix, t: Threshold, full: bool, xs: seq<Scalar>, secret: Scalar)
    requires HasDimensions(b, t) && Suitable(b, t)
    requires Distinct(xs) && 0 !in xs && |xs| == Size(t, full) - 1
    ensures Possible(b, t, full, xs, secret) <==> secret != 0 && secret != Guess(b, full, xs)
  {
    hide Guess, Restriction, Change, Distinct, WithSecret;
    if Possible(b, t, full, xs, secret) {
      var b': Matrix :| SameShares(b, b', t, full, xs) && Suitable(b', t) && b'[0][0] == secret;
      SameGuess(b, b', t, full, xs);
      GuessMeaning(b', t, full, xs);
    }
    if secret != 0 && secret != Guess(b, full, xs) {
      var b' := WithSecret(b, t, full, xs, secret);
      WithSecretMeaning(b, t, full, xs, secret);
      SameGuess(b, b', t, full, xs);
      GuessMeaning(b', t, full, xs);
      OtherCorners(b, t, full, xs, secret);
    }
  }

  lemma {:induction false} OtherCorners(b: Matrix, t: Threshold, full: bool, xs: seq<Scalar>, secret: Scalar)
    requires HasDimensions(b, t) && 0 !in xs && |xs| < Size(t, full)
    ensures var b' := WithSecret(b, t, full, xs, secret);
            t > 0 ==>
              && b'[t][2 * t] == b[t][2 * t]
              && (full || |xs| < 2 * t ==> b'[0][2 * t] == b[0][2 * t])
              && (!full || |xs| < t ==> b'[t][0] == b[t][0])
  {
    hide Change, Mod;
    ChangeCorners(b, t, full, xs, Mod(secret as int - b[0][0] as int));
  }

  /** Fewer shares than that leave every secret possible but zero. */
  lemma {:induction false} BelowThresholdExactly(b: Matrix, t: Threshold, full: bool, xs: seq<Scalar>, secret: Scalar)
    requires HasDimensions(b, t) && Suitable(b, t)
    requires 0 !in xs && |xs| < Size(t, full) - 1
    ensures Possible(b, t, full, xs, secret) <==> secret != 0
  {
    hide Restriction, Change, WithSecret;
    if secret != 0 {
      WithSecretMeaning(b, t, full, xs, secret);
      OtherCorners(b, t, full, xs, secret);
      assert Suitable(WithSecret(b, t, full, xs, secret), t);
    }
  }

  /** Without the selection of leading terms every secret would be possible. */
  lemma {:induction false} BelowThresholdAnySecret(b: Matrix, t: Threshold, full: bool, xs: seq<Scalar>, secret: Scalar)
    requires HasDimensions(b, t) && 0 !in xs
    requires |xs| <= if full then t else 2 * t
    ensures exists b': Matrix :: HasDimensions(b', t) && b'[0][0] == secret
              && forall x :: x in xs ==> Restriction(b', x, full) == Restriction(b, x, full)
  {
    hide Restriction, WithSecret;
    WithSecretMeaning(b, t, full, xs, secret);
    assert HasDimensions(WithSecret(b, t, full, xs, secret), t);
  }

  // ---- the threshold is exact ----

  /** The shares determine the secret, among all polynomials that could have been dealt. */
  ghost predicate Determined(b: Matrix, t: Threshold, full: bool, xs: seq<Scalar>) {
    forall b': Matrix :: SameShares(b, b', t, full, xs) && Suitable(b', t) ==> b'[0][0] == b[0][0]
  }

  lemma {:induction false} PossibleUndetermined(b: Matrix, t: Threshold, full: bool, xs: seq<Scalar>, secret: Scalar)
    requires Possible(b, t, full, xs, secret) && secret != b[0][0]
    ensures !Determined(b, t, full, xs)
  {
    hide Restriction;
    var b': Matrix :| SameShares(b, b', t, full, xs) && Suitable(b', t) && b'[0][0] == secret;
  }

  lemma {:induction false} TooFewShares(b: Matrix, t: Threshold, full: bool, xs: seq<Scalar>)
    requires HasDimensions(b, t) && Suitable(b, t) && P > 3
    requires Distinct(xs) && 0 !in xs && |xs| < Size(t, full)
    ensures !Determined(b, t, full, xs)
  {
    hide Possible, Determined, Guess, Distinct;
    var guess := Guess(b, full, xs);
    var secret: Scalar := if b[0][0] != 1 && guess != 1 then 1 else if b[0][0] != 2 && guess != 2 then 2 else 3;
    if |xs| == Size(t, full) - 1 {
      AtThresholdExactly(b, t, full, xs, secret);
    } else {
      BelowThresholdExactly(b, t, full, xs, secret);
    }
    PossibleUndetermined(b, t, full, xs, secret);
  }

  function SharesAt(b: Matrix, full: bool, xs: seq<Scalar>): (shares: seq<SecretShare>)
    ensures |shares| == |xs|
  {
    seq(|xs|, i requires 0 <= i < |xs| => SecretShare(xs[i], Restriction(b, xs[i], full)))
  }

  lemma {:induction false} EnoughShares(b: Matrix, t: Threshold, full: bool, xs: seq<Scalar>)
    requires HasDimensions(b, t) && Distinct(xs) && |xs| >= Size(t, full)
    ensures Determined(b, t, full, xs)
  {
    hide Restriction, Distinct, WeightedSum, Coefficients;
    var shares := SharesAt(b, full, xs);
    assert Xs(shares) == xs;
    SharesRecover(shares, b, t, full);
    forall b': Matrix | SameShares(b, b', t, full, xs) ensures b'[0][0] == b[0][0] {
      forall i | 0 <= i < |shares| ensures shares[i].p == Restriction(b', shares[i].x, full) {
        assert xs[i] in xs;
      }
      SharesRecover(shares, b', t, full);
    }
  }

  /**
   * A (t, n)-sharing by full shares and a (2t, n)-sharing by reduced ones: the
   * shares of distinct holders determine the secret if and only if there are
   * more than t, or more than 2t, of them.
   */
  lemma {:induction false} ThresholdExact(b: Matrix, t: Threshold, full: bool, xs: seq<Scalar>)
    requires HasDimensions(b, t) && Suitable(b, t) && P > 3
    requires Distinct(xs) && 0 !in xs
    ensures Determined(b, t, full, xs) <==> |xs| > if full then t else 2 * t
  {
    hide Determined;
    if |xs| < Size(t, full) {
      TooFewShares(b, t, full, xs);
    } else {
      EnoughShares(b, t, full, xs);
    }
  }

  /** All of this applies to what handoffs serve: their final check leaves only such polynomials. */
  lemma {:induction false} ServedIsSuitable(vs: VerifiableShare, t: Threshold, full: bool)
    requires Verify(vs, t, false, full).Ok?
    ensures HasDimensions(vs.vm, t) && Suitable(Committed(vs.vm), t)
  {
    hide Verify, Genuine;
    VerifyMeaning(vs, t, false, full);
  }
}
