/** Integer facts that the solver proves at once on their own, and only then. */
module Arith {
  lemma {:induction false} MulSucc(k: int, p: int)
    ensures (k + 1) * p == k * p + p
    ensures (k - 1) * p == k * p - p
  {
  }

  lemma {:induction false} MulShift(m: int, k: int, p: int, b: int)
    ensures (m + k * p) * b == m * b + (k * b) * p
  {
  }

  lemma {:induction false} MulAssoc(a: int, b: int, c: int)
    ensures (a * b) * c == a * (b * c) == b * (a * c)
    ensures a * b == b * a
  {
  }

  lemma {:induction false} Distribute(a: int, b: int, c: int)
    ensures a * (b + c) == a * b + a * c
    ensures a * (b - c) == a * b - a * c
    ensures (b + c) * a == a * b + a * c
    ensures (b - c) * a == a * b - a * c
  {
  }

  /** Division with remainder, as the extended Euclidean step below needs it. */
  lemma {:induction false} DivMod(p: int, a: int)
    requires 0 < a
    ensures p == (p / a) * a + p % a
    ensures 0 <= p % a < a
  {
  }

  lemma {:induction false} EuclidStep(q: int, u: int, a: int, r: int, p: int)
    requires p == q * a + r
    ensures (-q * u) * a == u * r + (-u) * p
  {
    calc {
      u * r + (-u) * p;
      u * r - u * (q * a + r);
      { Distribute(u, q * a, r); }
      -(u * (q * a));
      { MulAssoc(u, q, a); }
      -((q * u) * a);
      (-q * u) * a;
    }
  }
}

/**
 * The scalar field: integers modulo a prime. The prime is arbitrary, so
 * everything proved here holds for the scalar field of every cipher suite.
 */
module Field {
  import opened Arith

  predicate IsPrime(p: int) {
    && 2 <= p
    && forall d :: 2 <= d < p ==> p % d != 0
  }

  type Prime = p: int | IsPrime(p) witness 2

  /** The order of the group: some prime, about which nothing else is known. */
  const P: Prime

  type Scalar = x: int | 0 <= x < P witness 0

  /** The representative of x modulo P. */
  function Mod(x: int): Scalar
    decreases if x < 0 then P - x else x
  {
    if x < 0 then Mod(x + P) else if x < P then x else Mod(x - P)
  }

  function Add(a: Scalar, b: Scalar): Scalar { Mod(a + b) }

  function Mul(a: Scalar, b: Scalar): Scalar { Mod(a * b) }

  lemma {:induction false} ModSmall(x: Scalar)
    ensures Mod(x) == x
  {
  }

  lemma {:induction false} ModStep(x: int)
    ensures Mod(x + P) == Mod(x)
  {
  }

  lemma {:induction false} ModShift(x: int, k: int)
    ensures Mod(x + k * P) == Mod(x)
    decreases if k < 0 then -k else k
  {
    MulSucc(k, P);
    if k > 0 {
      ModStep(x + (k - 1) * P);
      ModShift(x, k - 1);
    } else if k < 0 {
      ModStep(x + k * P);
      ModShift(x, k + 1);
    }
  }

  lemma {:induction false} Quotient(x: int) returns (k: int)
    ensures x == Mod(x) + k * P
    decreases if x < 0 then P - x else x
  {
    if x < 0 {
      k := Quotient(x + P);
      MulSucc(k, P);
      k := k - 1;
    } else if x < P {
      k := 0;
    } else {
      k := Quotient(x - P);
      MulSucc(k, P);
      k := k + 1;
    }
  }

  lemma {:induction false} ModAdd(a: int, b: int)
    ensures Mod(Mod(a) + b) == Mod(a + b)
  {
    var k := Quotient(a);
    ModShift(Mod(a) + b, k);
  }

  lemma {:induction false} ModMul(a: int, b: int)
    ensures Mod(Mod(a) * b) == Mod(a * b)
  {
    var k := Quotient(a);
    MulShift(Mod(a), k, P, b);
    ModShift(Mod(a) * b, k * b);
  }

  lemma {:induction false} ModBoth(a: int, b: int)
    ensures Mod(Mod(a) + Mod(b)) == Mod(a + b)
    ensures Mod(Mod(a)) == Mod(a)
  {
    ModAdd(a, Mod(b));
    ModAdd(b, a);
    ModAdd(a, 0);
  }

  lemma {:induction false} ModAssoc(a: int, b: int, c: int)
    ensures Mod(Mod(a + b) + c) == Mod(a + Mod(b + c)) == Mod(a + b + c)
  {
    ModAdd(a + b, c);
    ModAdd(b + c, a);
  }

  lemma {:induction false} AddCong(a: int, a': int, b: int, b': int)
    requires Mod(a) == Mod(a') && Mod(b) == Mod(b')
    ensures Mod(a + b) == Mod(a' + b')
  {
    ModAdd(a, b);
    ModAdd(a', b);
    ModAdd(b, a');
    ModAdd(b', a');
  }

  lemma {:induction false} MulCong(a: int, a': int, b: int, b': int)
    requires Mod(a) == Mod(a') && Mod(b) == Mod(b')
    ensures Mod(a * b) == Mod(a' * b')
  {
    ModMul(a, b);
    ModMul(a', b);
    ModMul(b, a');
    ModMul(b', a');
    MulAssoc(a', b, 1);
    MulAssoc(a', b', 1);
  }

  lemma {:induction false} LinearCong(a: int, a': int, y: int, e: int, e': int)
    requires Mod(a) == Mod(a') && Mod(e) == Mod(e')
    ensures Mod(a + y * e) == Mod(a' + y * e')
  {
    MulCong(y, y, e, e');
    AddCong(a, a', y * e, y * e');
  }

  lemma {:induction false} SubCong(a: int, b: int)
    ensures Mod(a) == Mod(b) <==> Mod(a - b) == 0
  {
    if Mod(a) == Mod(b) {
      AddCong(a, b, -b, -b);
    }
    if Mod(a - b) == 0 {
      AddCong(a - b, 0, b, b);
    }
  }

  /** The multiplicative inverse, by the Euclidean algorithm on (P, a). */
  function Inverse(a: Scalar): (r: Scalar)
    requires a != 0
    ensures Mod(r * a) == 1
    decreases a
  {
    if a == 1 then 1
    else
      DivMod(P, a);
      var q, rem := P / a, P % a;
      EuclidStep(q, Inverse(rem), a, rem, P);
      InverseStep(-q * Inverse(rem), a, Inverse(rem) * rem, 0 - Inverse(rem));
      Mod(-q * Inverse(rem))
  }

  lemma {:induction false} InverseStep(v: int, a: int, w: int, k: int)
    requires v * a == w + k * P && Mod(w) == 1
    ensures Mod(Mod(v) * a) == 1
  {
    ModMul(v, a);
    ModShift(w, k);
  }

  /** No zero divisors, derived from the existence of inverses. */
  lemma {:induction false} NoZeroDivisors(a: int, b: int)
    requires Mod(a * b) == 0
    ensures Mod(a) == 0 || Mod(b) == 0
  {
    if Mod(a) != 0 {
      var u := Inverse(Mod(a));
      MulCong(a, Mod(a), u, u) by { ModAdd(a, 0); }
      MulAssoc(u, Mod(a), 1);
      MulCong(u * a, 1, b, b) by { MulAssoc(u, a, 1); }
      MulAssoc(u, a, b);
      MulCong(a * b, 0, u, u);
      MulAssoc(u, a * b, 1);
    }
  }
}
