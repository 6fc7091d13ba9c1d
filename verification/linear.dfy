/** The numpy operations the localiser relies on, over vectors as `seq<real>`
    and square matrices as sequences of rows: sums, the row-vector product
    `v * M`, `getT()` and the `normalize` helper of sensor_problem.py. */
module Linear {

  function Zeros(n: nat): (z: seq<real>)
    ensures |z| == n
  {
    seq(n, _ => 0.0)
  }

  function Sum(v: seq<real>): real {
    if v == [] then 0.0 else Sum(v[..|v| - 1]) + v[|v| - 1]
  }

  lemma {:induction false} SumZeros(n: nat)
    ensures Sum(Zeros(n)) == 0.0
  {
    if n > 0 {
      assert Zeros(n)[..n - 1] == Zeros(n - 1);
      SumZeros(n - 1);
    }
  }

  /** Changing one entry changes the sum by the difference. */
  lemma {:induction false} SumUpdate(v: seq<real>, i: int, x: real)
    requires 0 <= i < |v|
    ensures Sum(v[i := x]) == Sum(v) - v[i] + x
  {
    var n := |v| - 1;
    if i < n {
      assert v[i := x][..n] == v[..n][i := x];
      SumUpdate(v[..n], i, x);
    } else {
      assert v[i := x][..n] == v[..n];
    }
  }

  predicate Distinct<T(==)>(l: seq<T>) {
    forall a, b :: 0 <= a < b < |l| ==> l[a] != l[b]
  }

  lemma DistinctFront<T>(l: seq<T>)
    requires l != [] && Distinct(l)
    ensures Distinct(l[..|l| - 1]) && l[|l| - 1] !in l[..|l| - 1]
  {
  }

  lemma DistinctSnoc<T>(l: seq<T>, x: T)
    requires Distinct(l) && x !in l
    ensures Distinct(l + [x])
  {
  }

  /** base with the entries at the indices ks set to x; an index outside base
      changes nothing. */
  function SetAll(base: seq<real>, ks: seq<int>, x: real): (r: seq<real>)
    ensures |r| == |base|
  {
    if ks == [] then base
    else
      var r := SetAll(base, ks[..|ks| - 1], x);
      var k := ks[|ks| - 1];
      if 0 <= k < |r| then r[k := x] else r
  }

  /** One more index sets one more entry. */
  lemma SetAllSnoc(base: seq<real>, ks: seq<int>, k: int, x: real)
    ensures SetAll(base, ks + [k], x)
            == if 0 <= k < |base| then SetAll(base, ks, x)[k := x] else SetAll(base, ks, x)
  {
    assert (ks + [k])[..|ks|] == ks;
  }

  lemma {:induction false} SetAllAt(base: seq<real>, ks: seq<int>, x: real, t: int)
    requires 0 <= t < |base|
    ensures SetAll(base, ks, x)[t] == if t in ks then x else base[t]
  {
    if ks != [] {
      var front := ks[..|ks| - 1];
      assert ks == front + [ks[|ks| - 1]];
      SetAllAt(base, front, x, t);
    }
  }

  /** Setting n distinct zero entries to x adds n * x to the sum. */
  lemma {:induction false} SetAllSum(base: seq<real>, ks: seq<int>, x: real)
    requires Distinct(ks)
    requires forall k :: k in ks ==> 0 <= k < |base| && base[k] == 0.0
    ensures Sum(SetAll(base, ks, x)) == Sum(base) + |ks| as real * x
  {
    if ks != [] {
      var front := ks[..|ks| - 1];
      var k := ks[|ks| - 1];
      DistinctFront(ks);
      assert k in ks;
      assert forall j :: j in front ==> j in ks;
      SetAllSum(base, front, x);
      SetAllAt(base, front, x, k);
      SumUpdate(SetAll(base, front, x), k, x);
    }
  }

  // ---------------------------------------------------------------------
  // Matrices

  /** M[a][b], and 0 outside M. */
  function Entry(M: seq<seq<real>>, a: int, b: int): real {
    if 0 <= a < |M| && 0 <= b < |M[a]| then M[a][b] else 0.0
  }

  predicate Square(M: seq<seq<real>>) {
    forall a :: 0 <= a < |M| ==> |M[a]| == |M|
  }

  /** `getT()` of a square matrix. */
  function Transpose(M: seq<seq<real>>): (r: seq<seq<real>>)
    ensures |r| == |M|
  {
    seq(|M|, a => seq(|M|, b => Entry(M, b, a)))
  }

  /** Transposing a square matrix twice gives it back. */
  lemma TransposeTwice(M: seq<seq<real>>)
    requires Square(M)
    ensures Transpose(Transpose(M)) == M
  {
    var t := Transpose(M);
    forall a | 0 <= a < |M| ensures Transpose(t)[a] == M[a] {
      forall b | 0 <= b < |M| ensures Transpose(t)[a][b] == M[a][b] {
        assert Transpose(t)[a][b] == Entry(t, b, a) == Entry(M, a, b);
      }
    }
  }

  /** A symmetric square matrix is its own transpose. */
  lemma TransposeSymmetric(M: seq<seq<real>>)
    requires Square(M)
    requires forall a, b :: 0 <= a < |M| && 0 <= b < |M| ==> M[a][b] == M[b][a]
    ensures Transpose(M) == M
  {
    forall a | 0 <= a < |M| ensures Transpose(M)[a] == M[a] {
      forall b | 0 <= b < |M| ensures Transpose(M)[a][b] == M[a][b] {
        assert Transpose(M)[a][b] == Entry(M, b, a) == M[b][a];
      }
    }
  }

  /** Entry b of `v * M` summed over the first n rows of M. */
  function Dot(v: seq<real>, M: seq<seq<real>>, b: int, n: nat): real
    requires n <= |v|
  {
    if n == 0 then 0.0 else Dot(v, M, b, n - 1) + v[n - 1] * Entry(M, n - 1, b)
  }

  /** The first n entries of the row vector `v * M`. */
  function Columns(v: seq<real>, M: seq<seq<real>>, n: nat): (r: seq<real>)
    ensures |r| == n
  {
    if n == 0 then [] else Columns(v, M, n - 1) + [Dot(v, M, n - 1, |v|)]
  }

  /** The row vector `v * M`. */
  function VecMat(v: seq<real>, M: seq<seq<real>>): (r: seq<real>)
    ensures |r| == |v|
  {
    Columns(v, M, |v|)
  }

  /** Entry b of `v * M` is the dot product of v with column b. */
  lemma {:induction false} ColumnsAt(v: seq<real>, M: seq<seq<real>>, n: nat, b: int)
    requires 0 <= b < n
    ensures Columns(v, M, n)[b] == Dot(v, M, b, |v|)
  {
    if b < n - 1 {
      ColumnsAt(v, M, n - 1, b);
    }
  }

  predicate Nonneg(v: seq<real>) {
    forall i :: 0 <= i < |v| ==> 0.0 <= v[i]
  }

  ghost predicate NonnegMatrix(M: seq<seq<real>>) {
    forall a, b :: 0.0 <= Entry(M, a, b)
  }

  lemma {:induction false} DotNonneg(v: seq<real>, M: seq<seq<real>>, b: int, n: nat)
    requires n <= |v| && Nonneg(v) && NonnegMatrix(M)
    ensures 0.0 <= Dot(v, M, b, n)
  {
    if n > 0 {
      DotNonneg(v, M, b, n - 1);
      assert 0.0 <= v[n - 1] && 0.0 <= Entry(M, n - 1, b);
    }
  }

  /** A product of non-negative factors is non-negative. */
  lemma VecMatNonneg(v: seq<real>, M: seq<seq<real>>)
    requires Nonneg(v) && NonnegMatrix(M)
    ensures Nonneg(VecMat(v, M))
  {
    forall b | 0 <= b < |v| ensures 0.0 <= VecMat(v, M)[b] {
      ColumnsAt(v, M, |v|, b);
      DotNonneg(v, M, b, |v|);
    }
  }

  /** Column b of M is zero off the diagonal. */
  ghost predicate DiagonalAt(M: seq<seq<real>>, b: int) {
    forall a :: a != b ==> Entry(M, a, b) == 0.0
  }

  lemma {:induction false} DotDiagonal(v: seq<real>, M: seq<seq<real>>, b: int, n: nat)
    requires n <= |v| && DiagonalAt(M, b)
    ensures Dot(v, M, b, n) == if 0 <= b < n then v[b] * Entry(M, b, b) else 0.0
  {
    if n > 0 {
      DotDiagonal(v, M, b, n - 1);
      assert n - 1 != b ==> Entry(M, n - 1, b) == 0.0;
    }
  }

  /** Multiplying by a matrix whose column b is diagonal scales entry b. */
  lemma VecMatDiagonal(v: seq<real>, M: seq<seq<real>>, b: int)
    requires 0 <= b < |v| && DiagonalAt(M, b)
    ensures VecMat(v, M)[b] == v[b] * Entry(M, b, b)
  {
    ColumnsAt(v, M, |v|, b);
    DotDiagonal(v, M, b, |v|);
  }

  // ---------------------------------------------------------------------
  // normalize

  function SumSq(v: seq<real>): real {
    if v == [] then 0.0 else SumSq(v[..|v| - 1]) + v[|v| - 1] * v[|v| - 1]
  }

  lemma {:induction false} SumSqNonneg(v: seq<real>)
    ensures 0.0 <= SumSq(v)
  {
    if v != [] {
      SumSqNonneg(v[..|v| - 1]);
    }
  }

  /** root is the square root on the non-negative reals: 0 at 0, and the
      positive number whose square is x for every positive x. */
  ghost predicate IsSqrt(root: real -> real) {
    && root(0.0) == 0.0
    && forall x :: 0.0 < x ==> 0.0 < root(x) && root(x) * root(x) == x
  }

  /** `numpy.linalg.norm(v)`, given the square root. */
  function Norm(v: seq<real>, root: real -> real): real {
    root(SumSq(v))
  }

  /** The Euclidean norm is never negative, and it is 0 exactly when the
      squares sum to 0. */
  lemma NormSign(v: seq<real>, root: real -> real)
    requires IsSqrt(root)
    ensures 0.0 <= Norm(v, root)
    ensures Norm(v, root) == 0.0 <==> SumSq(v) == 0.0
  {
    SumSqNonneg(v);
  }

  /** Every entry of v divided by d. */
  function Scaled(v: seq<real>, d: real): (r: seq<real>)
    requires d != 0.0
    ensures |r| == |v|
  {
    if v == [] then [] else Scaled(v[..|v| - 1], d) + [v[|v| - 1] / d]
  }

  lemma {:induction false} ScaledAt(v: seq<real>, d: real, i: int)
    requires d != 0.0 && 0 <= i < |v|
    ensures Scaled(v, d)[i] == v[i] / d
  {
    if i < |v| - 1 {
      ScaledAt(v[..|v| - 1], d, i);
    }
  }

  /** `normalize(v)` once the norm is known. */
  function Normalize(v: seq<real>, norm: real): (r: seq<real>)
    ensures |r| == |v|
  {
    if norm == 0.0 then v else Scaled(v, norm)
  }

  /** A vector of norm 0 comes back unchanged; otherwise every entry comes
      back divided by the same factor, so a non-negative norm keeps every
      sign and every zero. */
  lemma NormalizeSpec(v: seq<real>, norm: real)
    ensures norm == 0.0 ==> Normalize(v, norm) == v
    ensures norm != 0.0 ==> forall i :: 0 <= i < |v| ==> Normalize(v, norm)[i] * norm == v[i]
    ensures 0.0 <= norm ==> forall i :: 0 <= i < |v| && 0.0 <= v[i] ==> 0.0 <= Normalize(v, norm)[i]
    ensures forall i :: 0 <= i < |v| && v[i] == 0.0 ==> Normalize(v, norm)[i] == 0.0
  {
    if norm != 0.0 {
      forall i | 0 <= i < |v| ensures Normalize(v, norm)[i] == v[i] / norm {
        ScaledAt(v, norm, i);
      }
    }
  }
}
