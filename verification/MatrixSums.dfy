/** Sums of dealers' matrices do not depend on the order of the dealers. */
module MatrixSums {
  import opened Sequences
  import opened Field
  import opened Bivariate
  import opened Vss
  import opened Shares

  /** Every listed dealer has published a matrix of the right dimensions. */
  predicate Published(matrices: map<Scalar, VerificationMatrix>, dealers: seq<Scalar>, t: Threshold) {
    forall d :: d in dealers ==> d in matrices && HasDimensions(matrices[d], t)
  }

  /** The sum of the dealers' matrices. */
  function SumOf(matrices: map<Scalar, VerificationMatrix>, dealers: seq<Scalar>, t: Threshold): (m: VerificationMatrix)
    requires Published(matrices, dealers, t) && 0 < |dealers|
    ensures HasDimensions(m, t)
  {
    var last := |dealers| - 1;
    if last == 0 then matrices[dealers[0]]
    else AddMatrices(SumOf(matrices, dealers[..last], t), matrices[dealers[last]])
  }

  function SumInts(value: map<Scalar, int>, keys: seq<Scalar>): int
    requires forall k :: k in keys ==> k in value
  {
    if keys == [] then 0
    else SumInts(value, keys[..|keys| - 1]) + value[keys[|keys| - 1]]
  }

  lemma {:induction false} SumIntsWithout(value: map<Scalar, int>, keys: seq<Scalar>, k: nat)
    requires k < |keys| && forall d :: d in keys ==> d in value
    ensures SumInts(value, keys) == SumInts(value, Without(keys, k)) + value[keys[k]]
    decreases |keys|
  {
    var last := |keys| - 1;
    var front, rest := keys[..last], Without(keys, k);
    if k == last {
      assert rest == front;
    } else {
      SumIntsWithout(value, front, k);
      assert rest[..|rest| - 1] == Without(front, k);
    }
  }

  lemma {:induction false} SumIntsPermutation(value: map<Scalar, int>, a: seq<Scalar>, b: seq<Scalar>)
    requires multiset(a) == multiset(b)
    requires (forall d :: d in a ==> d in value) && (forall d :: d in b ==> d in value)
    ensures SumInts(value, a) == SumInts(value, b)
    decreases |a|
  {
    assert |a| == |multiset(a)| == |multiset(b)| == |b|;
    if a != [] {
      var last := |a| - 1;
      assert a[last] in multiset(a);
      assert a[last] in b;
      var k :| 0 <= k < |b| && b[k] == a[last];
      TakenOut(a, last);
      TakenOut(b, k);
      Cancel(multiset(Without(a, last)), multiset(Without(b, k)), a[last]);
      SumIntsPermutation(value, Without(a, last), Without(b, k));
      SumIntsWithout(value, a, last);
      SumIntsWithout(value, b, k);
    }
  }

  /** One entry of each published matrix. */
  function Entries(matrices: map<Scalar, VerificationMatrix>, t: Threshold, i: nat, j: nat): (r: map<Scalar, int>)
    requires i < Rows(t) && j < Cols(t)
  {
    map d | d in matrices && HasDimensions(matrices[d], t) :: matrices[d][i][j] as int
  }

  lemma {:induction false} SumOfStep(
    matrices: map<Scalar, VerificationMatrix>, dealers: seq<Scalar>, t: Threshold, i: nat, j: nat)
    requires Published(matrices, dealers, t) && 1 < |dealers| && i < Rows(t) && j < Cols(t)
    ensures var last := |dealers| - 1;
            && dealers[last] in matrices && HasDimensions(matrices[dealers[last]], t)
            && SumOf(matrices, dealers, t)[i][j]
               == Add(SumOf(matrices, dealers[..last], t)[i][j], matrices[dealers[last]][i][j])
  {
    hide Mod;
    assert dealers[|dealers| - 1] in dealers;
  }

  lemma {:induction false} SumOfAt(
    matrices: map<Scalar, VerificationMatrix>, dealers: seq<Scalar>, t: Threshold, i: nat, j: nat)
    requires Published(matrices, dealers, t) && 0 < |dealers| && i < Rows(t) && j < Cols(t)
    ensures SumOf(matrices, dealers, t)[i][j] == Mod(SumInts(Entries(matrices, t, i, j), dealers))
  {
    hide Mod, SumOf;
    var entries, last := Entries(matrices, t, i, j), |dealers| - 1;
    assert dealers[last] in dealers;
    if last == 0 {
      OneMatrix(matrices, dealers, t);
      assert dealers[..0] == [];
      assert SumInts(entries, []) == 0;
      ModSmall(matrices[dealers[0]][i][j]);
    } else {
      var front := dealers[..last];
      SumOfAt(matrices, front, t, i, j);
      SumOfStep(matrices, dealers, t, i, j);
      ModAdd(SumInts(entries, front), entries[dealers[last]]);
    }
  }

  lemma {:induction false} OneMatrix(matrices: map<Scalar, VerificationMatrix>, dealers: seq<Scalar>, t: Threshold)
    requires Published(matrices, dealers, t) && |dealers| == 1
    ensures dealers[0] in matrices && SumOf(matrices, dealers, t) == matrices[dealers[0]]
  {
    assert dealers[0] in dealers;
  }

  lemma {:induction false} SumPermutation(
    matrices: map<Scalar, VerificationMatrix>, a: seq<Scalar>, b: seq<Scalar>, t: Threshold)
    requires Published(matrices, a, t) && Published(matrices, b, t)
    requires 0 < |a| && 0 < |b| && multiset(a) == multiset(b)
    ensures SumOf(matrices, a, t) == SumOf(matrices, b, t)
  {
    var p, q := SumOf(matrices, a, t), SumOf(matrices, b, t);
    forall i, j | 0 <= i < |p| && 0 <= j < |p[0]| ensures p[i][j] == q[i][j] {
      SumOfAt(matrices, a, t, i, j);
      SumOfAt(matrices, b, t, i, j);
      SumIntsPermutation(Entries(matrices, t, i, j), a, b);
    }
    MatrixEqual(p, q);
  }
}
