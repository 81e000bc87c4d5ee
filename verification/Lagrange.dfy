/**
 * Lagrange interpolation (`poly::lagrange` in the source), for distinct
 * abscissas.
 */
module Lagrange {
  import opened Sequences
  import opened Arith
  import opened Field
  import opened Polynomials

  datatype Point = Point(x: Scalar, y: Scalar)

  /** (x - r) * p */
  function MulRoot(p: seq<int>, r: int): (q: seq<int>)
    ensures |q| == |p| + 1
  {
    Sum([0] + p, Scale(-r, p))
  }

  lemma {:induction false} EvalMulRoot(p: seq<int>, r: int, x: int)
    ensures Eval(MulRoot(p, r), x) == (x - r) * Eval(p, x)
  {
    EvalSum([0] + p, Scale(-r, p), x);
    EvalScale(-r, p, x);
    assert ([0] + p)[1..] == p;
    Distribute(Eval(p, x), x, r);
    MulAssoc(r, Eval(p, x), 1);
  }

  /** The monic polynomial whose roots are xs. */
  function Vanishing(xs: seq<int>): (p: seq<int>)
    ensures |p| == |xs| + 1
  {
    if |xs| == 0 then [1] else MulRoot(Vanishing(xs[1..]), xs[0])
  }

  lemma {:induction false} VanishingZero(xs: seq<Scalar>, x: Scalar)
    ensures Value(Vanishing(xs), x) == 0 <==> x in xs
  {
    if |xs| == 0 {
      assert Eval([1], x) == 1 + x * Eval([], x);
    } else {
      var rest := Vanishing(xs[1..]);
      var x': int, r: int := x, xs[0];
      EvalMulRoot(rest, r, x');
      VanishingZero(xs[1..], x);
      SubCong(x', r);
      if Value(Vanishing(xs), x) == 0 {
        NoZeroDivisors(x' - r, Eval(rest, x'));
      }
      if x == r {
      } else if x in xs {
        MulCong(x' - r, x' - r, Eval(rest, x'), 0);
      }
    }
  }

  /** The product of (x - xs[j]) over all j but i. */
  function Numerator(xs: seq<Scalar>, i: nat): (p: seq<int>)
    requires i < |xs|
    ensures |p| == |xs|
  {
    Vanishing(Without(xs, i))
  }

  lemma {:induction false} NumeratorZero(xs: seq<Scalar>, i: nat, k: nat)
    requires Distinct(xs) && i < |xs| && k < |xs|
    ensures Value(Numerator(xs, i), xs[k]) == 0 <==> i != k
  {
    VanishingZero(Without(xs, i), xs[k]);
    var rest := Without(xs, i);
    if k < i {
      assert rest[k] == xs[k];
    } else if i < k {
      assert rest[k - 1] == xs[k];
    }
  }

  /** The i-th basis polynomial: one at xs[i], zero at the other abscissas. */
  function Basis(xs: seq<Scalar>, i: nat): (p: seq<Scalar>)
    requires Distinct(xs) && i < |xs|
    ensures |p| == |xs|
  {
    NumeratorZero(xs, i, i);
    ModAll(Scale(Inverse(Value(Numerator(xs, i), xs[i])), Numerator(xs, i)))
  }

  lemma {:induction false} BasisAt(xs: seq<Scalar>, i: nat, k: nat)
    requires Distinct(xs) && i < |xs| && k < |xs|
    ensures Value(Basis(xs, i), xs[k]) == if i == k then 1 else 0
  {
    NumeratorZero(xs, i, i);
    NumeratorZero(xs, i, k);
    var n := Numerator(xs, i);
    var inv := Inverse(Value(n, xs[i]));
    ValueModAll(Scale(inv, n), xs[k]);
    EvalScale(inv, n, xs[k]);
    MulCong(inv, inv, Eval(n, xs[k]), Value(n, xs[k])) by { ModBoth(Eval(n, xs[k]), 0); }
  }

  function Zeros(n: nat): (p: seq<Scalar>)
    ensures |p| == n
  {
    seq(n, _ => 0)
  }

  lemma {:induction false} EvalZeros(n: nat, x: int)
    ensures Eval(Zeros(n), x) == 0
  {
    if n > 0 {
      assert Zeros(n)[1..] == Zeros(n - 1);
      EvalZeros(n - 1, x);
    }
  }

  /** The sum of ys[i] * Basis(xs, i) over i < k, before reduction. */
  function Combination(xs: seq<Scalar>, ys: seq<Scalar>, k: nat): (p: seq<int>)
    requires Distinct(xs) && |xs| == |ys| && k <= |xs|
    ensures |p| == |xs|
  {
    if k == 0 then Zeros(|xs|)
    else Sum(Combination(xs, ys, k - 1), Scale(ys[k - 1], Basis(xs, k - 1)))
  }

  lemma {:induction false} EvalCombination(xs: seq<Scalar>, ys: seq<Scalar>, k: nat, x: int)
    requires Distinct(xs) && |xs| == |ys| && 0 < k <= |xs|
    ensures Eval(Combination(xs, ys, k), x)
         == Eval(Combination(xs, ys, k - 1), x) + ys[k - 1] * Eval(Basis(xs, k - 1), x)
  {
    EvalSum(Combination(xs, ys, k - 1), Scale(ys[k - 1], Basis(xs, k - 1)), x);
    EvalScale(ys[k - 1], Basis(xs, k - 1), x);
  }

  /** Adding y times a number that is one, or zero, modulo P. */
  lemma {:induction false} AddTerm(a: int, y: int, e: int)
    ensures Mod(e) == 1 && Mod(a) == 0 ==> Mod(a + y * e) == Mod(y)
    ensures Mod(e) == 0 ==> Mod(a + y * e) == Mod(a)
  {
    if Mod(e) == 1 && Mod(a) == 0 {
      LinearCong(a, 0, y, e, 1);
    }
    if Mod(e) == 0 {
      LinearCong(a, a, y, e, 0);
    }
  }

  lemma {:induction false} CombinationAt(xs: seq<Scalar>, ys: seq<Scalar>, k: nat, j: nat)
    requires Distinct(xs) && |xs| == |ys| && k <= |xs| && j < |xs|
    ensures Value(Combination(xs, ys, k), xs[j]) == if j < k then ys[j] else 0
  {
    hide Eval, Basis;
    if k == 0 {
      EvalZeros(|xs|, xs[j]);
    } else {
      CombinationAt(xs, ys, k - 1, j);
      BasisAt(xs, k - 1, j);
      EvalCombination(xs, ys, k, xs[j]);
      AddTerm(Eval(Combination(xs, ys, k - 1), xs[j]), ys[k - 1], Eval(Basis(xs, k - 1), xs[j]));
    }
  }

  /** The polynomial of size |xs| through the points (xs[i], ys[i]). */
  function Interpolate(xs: seq<Scalar>, ys: seq<Scalar>): (p: seq<Scalar>)
    requires Distinct(xs) && |xs| == |ys|
    ensures |p| == |xs|
    ensures forall j :: 0 <= j < |xs| ==> Value(p, xs[j]) == ys[j]
  {
    var c := Combination(xs, ys, |xs|);
    assert forall j :: 0 <= j < |xs| ==> Value(ModAll(c), xs[j]) == ys[j] by {
      forall j | 0 <= j < |xs| ensures Value(ModAll(c), xs[j]) == ys[j] {
        CombinationAt(xs, ys, |xs|, j);
        ValueModAll(c, xs[j]);
      }
    }
    ModAll(c)
  }

  /** The values at zero of the basis polynomials. */
  function Coefficients(xs: seq<Scalar>): (cs: seq<Scalar>)
    requires Distinct(xs)
    ensures |cs| == |xs|
  {
    seq(|xs|, i requires 0 <= i < |xs| => Value(Basis(xs, i), 0))
  }

  /** The sum of cs[i] * ys[i] over i < k. */
  function WeightedSum(cs: seq<Scalar>, ys: seq<Scalar>, k: nat): Scalar
    requires |cs| == |ys| && k <= |cs|
  {
    if k == 0 then 0 else Add(WeightedSum(cs, ys, k - 1), Mul(cs[k - 1], ys[k - 1]))
  }

  lemma {:induction false} WeightedStep(a: int, b: int, y: int)
    ensures Mod(Mod(a) + Mod(Mod(b) * y)) == Mod(a + y * b)
  {
    ModMul(b, y);
    MulAssoc(b, y, 1);
    ModBoth(a, y * b);
  }

  lemma {:induction false} WeightedSumIsValue(xs: seq<Scalar>, ys: seq<Scalar>, k: nat)
    requires Distinct(xs) && |xs| == |ys| && k <= |xs|
    ensures WeightedSum(Coefficients(xs), ys, k) == Value(Combination(xs, ys, k), 0)
  {
    hide Eval, Basis;
    if k == 0 {
      EvalZeros(|xs|, 0);
    } else {
      var a, b, y: int := Eval(Combination(xs, ys, k - 1), 0), Eval(Basis(xs, k - 1), 0), ys[k - 1];
      calc {
        WeightedSum(Coefficients(xs), ys, k);
        Add(WeightedSum(Coefficients(xs), ys, k - 1), Mul(Mod(b), y));
        { WeightedSumIsValue(xs, ys, k - 1); }
        Add(Mod(a), Mul(Mod(b), y));
        { WeightedStep(a, b, y); }
        Mod(a + y * b);
        { EvalCombination(xs, ys, k, 0); }
        Value(Combination(xs, ys, k), 0);
      }
    }
  }

  lemma {:induction false} EvalPadded(p: seq<int>, n: nat, x: int)
    ensures Eval(p + Zeros(n), x) == Eval(p, x)
  {
    if |p| == 0 {
      assert p + Zeros(n) == Zeros(n);
      EvalZeros(n, x);
    } else {
      assert (p + Zeros(n))[1..] == p[1..] + Zeros(n);
      EvalPadded(p[1..], n, x);
    }
  }

  /**
   * Interpolation at zero: the weighted sum of any |xs| values of f, taken at
   * distinct abscissas, is f(0) as soon as |xs| is at least the size of f.
   */
  lemma {:induction false} WeightedSumRecovers(f: seq<Scalar>, xs: seq<Scalar>, ys: seq<Scalar>)
    requires Distinct(xs) && |xs| == |ys| && |f| <= |xs|
    requires forall i :: 0 <= i < |xs| ==> ys[i] == Value(f, xs[i])
    ensures WeightedSum(Coefficients(xs), ys, |xs|) == Value(f, 0)
  {
    var padded := f + Zeros(|xs| - |f|);
    forall i | 0 <= i < |xs| ensures Value(padded, xs[i]) == Value(Interpolate(xs, ys), xs[i]) {
      EvalPadded(f, |xs| - |f|, xs[i]);
    }
    InterpolationUnique(Interpolate(xs, ys), padded, xs);
    WeightedSumIsValue(xs, ys, |xs|);
    ValueModAll(Combination(xs, ys, |xs|), 0);
    EvalPadded(f, |xs| - |f|, 0);
  }
}
