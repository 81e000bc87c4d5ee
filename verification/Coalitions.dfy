/**
 * Why a dealing phase needs t + 2 dealers: even if t of them reveal what they
 * have drawn, no single node knows the combined polynomial.
 */
module Coalitions {
  import opened Field
  import opened Polynomials
  import opened Bivariate
  import opened Shares
  import opened Dealers
  import opened MatrixSums
  import opened HandoffModel
  import opened Secrecy
  import opened Committees

  // ---- the sum of all polynomials when one of them changes ----

  lemma {:induction false} SumSame(p: map<Scalar, Matrix>, q: map<Scalar, Matrix>, ids: seq<Scalar>, t: Threshold)
    requires Published(p, ids, t) && Published(q, ids, t) && ids != []
    requires forall d :: d in ids ==> p[d] == q[d]
    ensures SumOf(p, ids, t) == SumOf(q, ids, t)
    decreases |ids|
  {
    hide AddMatrices;
    var last := |ids| - 1;
    assert ids[last] in ids;
    if last > 0 {
      SumSame(p, q, ids[..last], t);
    }
  }

  lemma {:induction false} SumChanged(p: map<Scalar, Matrix>, ids: seq<Scalar>, t: Threshold, d: Scalar, m: Matrix)
    requires Published(p, ids, t) && Distinct(ids) && d in ids && HasDimensions(m, t)
    ensures var q := p[d := AddMatrices(p[d], m)];
            Published(q, ids, t) && SumOf(q, ids, t) == AddMatrices(SumOf(p, ids, t), m)
    decreases |ids|
  {
    hide AddMatrices;
    var q, last := p[d := AddMatrices(p[d], m)], |ids| - 1;
    if last > 0 {
      var front := ids[..last];
      if ids[last] == d {
        SumSame(p, q, front, t);
        AddMatricesAssociates(SumOf(p, front, t), p[d], m);
      } else {
        assert d in front;
        SumChanged(p, front, t, d, m);
        AddMatricesSwap(SumOf(p, front, t), m, p[ids[last]]);
      }
    }
  }

  // ---- a change that keeps a polynomial suitable ----

  lemma {:induction false} Difference(a: Scalar, c: Scalar, v: Scalar)
    requires Add(a, c) == v
    ensures c == Mod(v as int - a as int)
  {
    ModAdd(a + c, -(a as int));
  }

  /** The two changes of the secret that one share of the node would expose. */
  function Exposed(b: Matrix, me: Scalar): set<Scalar> {
    {Mod(0 - b[0][0] as int), Mod(Guess(b, true, [me]) as int - b[0][0] as int)}
  }

  lemma {:induction false} ChangedSuitable(b: Matrix, t: Threshold, me: Scalar, c: Scalar)
    requires t > 0 && HasDimensions(b, t) && Suitable(b, t) && me != 0 && c !in Exposed(b, me)
    ensures var b' := AddMatrices(b, Change(t, true, [me], c));
            && Suitable(b', t) && b'[0][0] == Add(b[0][0], c)
            && Restriction(b', me, true) == Restriction(b, me, true)
  {
    hide Mod, Restriction, Change, Guess, Add;
    var b' := AddMatrices(b, Change(t, true, [me], c));
    ChangeShares(b, t, true, [me], c, me);
    ChangeCorners(b, t, true, [me], c);
    if b'[0][0] == 0 {
      Difference(b[0][0], c, 0);
    }
    if b'[0][0] == Guess(b, true, [me]) {
      Difference(b[0][0], c, b'[0][0]);
    }
    if t == 1 {
      SameGuess(b, b', t, true, [me]);
      GuessMeaning(b', t, true, [me]);
    }
  }

  /** Five values leave one of the first six free. */
  lemma {:induction false} Free(taken: set<Scalar>) returns (c: Scalar)
    requires |taken| <= 5 && P > 5
    ensures c !in taken
  {
    var small: set<Scalar> := {0, 1, 2, 3, 4, 5};
    assert |small| == 6;
    assert |small + taken| == |small| + |taken - small|;
    assert |small + taken| == |taken| + |small - taken|;
    assert small - taken != {};
    c :| c in small && c !in taken;
  }

  // ---- what a node knows after a dealing phase ----

  /**
   * The node sees no difference: the known dealers have drawn the same
   * polynomials, and it has got the same share from every dealer.
   */
  ghost predicate Alike(
    p: map<Scalar, Matrix>, q: map<Scalar, Matrix>, ids: seq<Scalar>, known: seq<Scalar>, me: Scalar)
    requires forall d :: d in ids ==> d in p && d in q
  {
    && (forall d :: d in ids && d in known ==> q[d] == p[d])
    && forall d :: d in ids ==> Restriction(q[d], me, true) == Restriction(p[d], me, true)
  }

  lemma {:induction false} SomeoneElse(ids: seq<Scalar>, known: seq<Scalar>) returns (d: Scalar)
    requires Distinct(ids) && |known| < |ids|
    ensures d in ids && d !in known
  {
    if forall x :: x in ids ==> x in known {
      DistinctWithin(ids, known);
      assert false;
    }
    d :| d in ids && d !in known;
  }

  /**
   * A dealing phase that can be created, with distinct dealers, and a node
   * that knows the polynomials of any t + 1 of them, its own and t revealed
   * ones, as well as its share from every dealer: other polynomials, which the
   * dealers could as well have drawn and which the handoff would accept, look
   * the same to it and combine to a different secret.
   */
  lemma {:induction false} CombinedStaysUnknown(
    t: Threshold, ids: seq<Scalar>, drawn: map<Scalar, Matrix>, known: seq<Scalar>, me: Scalar)
    returns (other: map<Scalar, Matrix>)
    requires t > 0 && P > 5 && me != 0 && Create(DealingPhase, t, me, ids).Ok?
    requires Distinct(ids) && AllDeal(drawn, ids, t) && |known| <= t + 1
    requires Published(drawn, ids, t) && Suitable(SumOf(drawn, ids, t), t)
    ensures AllDeal(other, ids, t) && Published(other, ids, t) && Alike(drawn, other, ids, known, me)
    ensures Suitable(SumOf(other, ids, t), t)
    ensures SumOf(other, ids, t)[0][0] != SumOf(drawn, ids, t)[0][0]
  {
    hide Mod, Restriction, Change, Exposed, SumOf, Suitable, Distinct;
    var d := SomeoneElse(ids, known);
    var total := SumOf(drawn, ids, t);
    var taken := {0 as Scalar} + Exposed(drawn[d], me) + Exposed(total, me);
    ExposedSize(drawn[d], me);
    ExposedSize(total, me);
    var c := Free(taken);
    var m := Change(t, true, [me], c);
    ChangedSuitable(drawn[d], t, me, c);
    ChangedSuitable(total, t, me, c);
    SumChanged(drawn, ids, t, d, m);
    other := drawn[d := AddMatrices(drawn[d], m)];
    NonZeroChange(total[0][0], c);
  }

  lemma {:induction false} ExposedSize(b: Matrix, me: Scalar)
    ensures |Exposed(b, me)| <= 2
  {
  }

  lemma {:induction false} NonZeroChange(a: Scalar, c: Scalar)
    requires c != 0
    ensures Add(a, c) != a
  {
    if Add(a, c) == a {
      Difference(a, c, a);
    }
  }

  /** If it knows the polynomials of all dealers, it knows what they combine to. */
  lemma {:induction false} AllKnown(
    t: Threshold, ids: seq<Scalar>, drawn: map<Scalar, Matrix>, other: map<Scalar, Matrix>, known: seq<Scalar>,
    me: Scalar)
    requires ids != [] && Published(drawn, ids, t) && Published(other, ids, t)
    requires Alike(drawn, other, ids, known, me) && forall d :: d in ids ==> d in known
    ensures SumOf(other, ids, t) == SumOf(drawn, ids, t)
  {
    hide Restriction;
    SumSame(drawn, other, ids, t);
  }
}
