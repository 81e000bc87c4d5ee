/**
 * Polynomials in one variable. A polynomial is the sequence of its
 * coefficients, constant term first, so its length is what the source calls
 * its size. The algebra is done on integer coefficients and reduced modulo P
 * at the end.
 */
module Polynomials {
  import opened Arith
  import opened Field

  type Polynomial = p: seq<Scalar> | 0 < |p| witness [0]

  /** The integer value of p at x. */
  function Eval(p: seq<int>, x: int): int {
    if |p| == 0 then 0 else p[0] + x * Eval(p[1..], x)
  }

  /** The value of p at x in the field. */
  function Value(p: seq<int>, x: int): Scalar { Mod(Eval(p, x)) }

  function ModAll(p: seq<int>): (r: seq<Scalar>)
    ensures |r| == |p|
  {
    seq(|p|, i requires 0 <= i < |p| => Mod(p[i]))
  }

  function Scale(c: int, p: seq<int>): (r: seq<int>)
    ensures |r| == |p|
  {
    seq(|p|, i requires 0 <= i < |p| => c * p[i])
  }

  /** Addition by coefficient; the shorter operand is padded with zeros. */
  function Sum(p: seq<int>, q: seq<int>): (r: seq<int>)
    ensures |r| == if |p| < |q| then |q| else |p|
  {
    if |p| == 0 then q
    else if |q| == 0 then p
    else [p[0] + q[0]] + Sum(p[1..], q[1..])
  }

  lemma {:induction false} SumAt(p: seq<int>, q: seq<int>, i: nat)
    requires |p| == |q| && i < |p|
    ensures Sum(p, q)[i] == p[i] + q[i]
  {
    if i > 0 {
      SumAt(p[1..], q[1..], i - 1);
    }
  }

  lemma {:induction false} EvalSum(p: seq<int>, q: seq<int>, x: int)
    ensures Eval(Sum(p, q), x) == Eval(p, x) + Eval(q, x)
  {
    if |p| > 0 && |q| > 0 {
      EvalSum(p[1..], q[1..], x);
      assert Sum(p, q)[1..] == Sum(p[1..], q[1..]);
      Distribute(x, Eval(p[1..], x), Eval(q[1..], x));
    }
  }

  lemma {:induction false} EvalScale(c: int, p: seq<int>, x: int)
    ensures Eval(Scale(c, p), x) == c * Eval(p, x)
  {
    if |p| > 0 {
      EvalScale(c, p[1..], x);
      assert Scale(c, p)[1..] == Scale(c, p[1..]);
      Distribute(c, p[0], x * Eval(p[1..], x));
      MulAssoc(c, x, Eval(p[1..], x));
    }
  }

  lemma {:induction false} EvalAtZero(p: seq<int>)
    requires |p| > 0
    ensures Eval(p, 0) == p[0]
  {
  }

  /** Congruent coefficients give congruent values. */
  lemma {:induction false} EvalCong(p: seq<int>, q: seq<int>, x: int)
    requires ModAll(p) == ModAll(q)
    ensures Value(p, x) == Value(q, x)
  {
    assert |p| == |q| by { assert |ModAll(p)| == |ModAll(q)|; }
    if |p| > 0 {
      assert forall i :: 0 <= i < |p| ==> Mod(p[i]) == ModAll(p)[i] == ModAll(q)[i] == Mod(q[i]);
      assert ModAll(p[1..]) == ModAll(q[1..]);
      EvalCong(p[1..], q[1..], x);
      MulCong(x, x, Eval(p[1..], x), Eval(q[1..], x));
      AddCong(p[0], q[0], x * Eval(p[1..], x), x * Eval(q[1..], x));
    }
  }

  lemma {:induction false} ModAllTwice(p: seq<int>)
    ensures ModAll(ModAll(p)) == ModAll(p)
  {
    forall i | 0 <= i < |p| ensures Mod(Mod(p[i])) == Mod(p[i]) {
      ModAdd(p[i], 0);
    }
  }

  lemma {:induction false} ValueModAll(p: seq<int>, x: int)
    ensures Value(ModAll(p), x) == Value(p, x)
  {
    ModAllTwice(p);
    EvalCong(ModAll(p), p, x);
  }

  // ---- at most |p| - 1 roots ----

  /** Synthetic division of p - p(r) by (x - r). */
  function Quot(p: seq<int>, r: int): (q: seq<int>)
    ensures |q| == if |p| == 0 then 0 else |p| - 1
  {
    if |p| <= 1 then [] else [Eval(p[1..], r)] + Quot(p[1..], r)
  }

  lemma {:induction false} Factor(p: seq<int>, r: int, x: int)
    ensures Eval(p, x) == Eval(p, r) + (x - r) * Eval(Quot(p, r), x)
  {
    if |p| == 1 {
      assert Eval(p[1..], x) == 0 == Eval(p[1..], r);
    } else if |p| > 1 {
      Factor(p[1..], r, x);
      assert Quot(p, r)[1..] == Quot(p[1..], r);
      FactorStep(x, r, Eval(p[1..], x), Eval(p[1..], r), Eval(Quot(p[1..], r), x));
    }
  }

  lemma {:induction false} FactorStep(x: int, r: int, ex: int, er: int, q: int)
    requires ex == er + (x - r) * q
    ensures x * ex == r * er + (x - r) * (er + x * q)
  {
    calc {
      x * ex;
      { Distribute(x, er, (x - r) * q); }
      x * er + x * ((x - r) * q);
      { MulAssoc(x, x - r, q); }
      x * er + (x - r) * (x * q);
      { Distribute(er, x, r); }
      r * er + (x - r) * er + (x - r) * (x * q);
      { Distribute(x - r, er, x * q); }
      r * er + (x - r) * (er + x * q);
    }
  }

  predicate Distinct(xs: seq<Scalar>) {
    forall i, j :: 0 <= i < j < |xs| ==> xs[i] != xs[j]
  }

  /** If p and its synthetic quotient vanish, so do all coefficients of p. */
  lemma {:induction false} QuotZero(p: seq<int>, r: int)
    requires Value(p, r) == 0
    requires forall k :: 0 <= k < |Quot(p, r)| ==> Mod(Quot(p, r)[k]) == 0
    ensures forall k :: 0 <= k < |p| ==> Mod(p[k]) == 0
  {
    if |p| > 0 {
      var rest := p[1..];
      if |p| == 1 {
        assert Eval(rest, r) == 0;
      } else {
        assert Quot(p, r)[0] == Eval(rest, r);
      }
      assert Mod(Eval(rest, r)) == 0;
      MulCong(r, r, Eval(rest, r), 0);
      AddCong(p[0] + r * Eval(rest, r), 0, -(r * Eval(rest, r)), 0) by {
        SubCong(0, r * Eval(rest, r));
      }
      forall k | 0 <= k < |Quot(rest, r)| ensures Mod(Quot(rest, r)[k]) == 0 {
        assert Quot(p, r)[k + 1] == Quot(rest, r)[k];
      }
      QuotZero(rest, r);
      forall k | 0 <= k < |p| ensures Mod(p[k]) == 0 {
        if k > 0 {
          assert p[k] == rest[k - 1];
        }
      }
    }
  }

  /** A polynomial with as many distinct roots as coefficients is zero. */
  lemma {:induction false} TooManyRoots(p: seq<int>, xs: seq<Scalar>)
    requires Distinct(xs) && |p| <= |xs|
    requires forall i :: 0 <= i < |xs| ==> Value(p, xs[i]) == 0
    ensures forall k :: 0 <= k < |p| ==> Mod(p[k]) == 0
    decreases |p|
  {
    if |p| > 0 {
      var r: int, q, rest := xs[0], Quot(p, xs[0]), xs[1..];
      forall i | 0 <= i < |rest| ensures Value(q, rest[i]) == 0 {
        var x: int := rest[i];
        assert x == xs[i + 1];
        Factor(p, r, x);
        SubCong(Eval(p, x), Eval(p, r));
        NoZeroDivisors(x - r, Eval(q, x));
        SubCong(x, r);
      }
      TooManyRoots(q, rest);
      QuotZero(p, r);
    }
  }

  /** Uniqueness of interpolation. */
  lemma {:induction false} InterpolationUnique(p: seq<Scalar>, q: seq<Scalar>, xs: seq<Scalar>)
    requires Distinct(xs) && |p| == |q| <= |xs|
    requires forall i :: 0 <= i < |xs| ==> Value(p, xs[i]) == Value(q, xs[i])
    ensures p == q
  {
    var d := Sum(p, Scale(-1, q));
    forall i | 0 <= i < |xs| ensures Value(d, xs[i]) == 0 {
      EvalSum(p, Scale(-1, q), xs[i]);
      EvalScale(-1, q, xs[i]);
      SubCong(Eval(p, xs[i]), Eval(q, xs[i]));
    }
    TooManyRoots(d, xs);
    forall k | 0 <= k < |p| ensures p[k] == q[k] {
      SumAt(p, Scale(-1, q), k);
      SubCong(p[k], q[k]);
    }
  }
}
