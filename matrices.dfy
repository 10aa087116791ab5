/** Dense real matrices as sequences of rows, and the numpy operations the
    PageRank scripts apply to them: `np.dot(P, x)`, `np.sum`, division by the
    sum, and the squared Euclidean distance behind `np.linalg.norm`. */
module Matrices {
  import opened RealSums

  predicate Square(M: seq<seq<real>>)
  {
    forall j :: 0 <= j < |M| ==> |M[j]| == |M|
  }

  /** Column i of M as a summand over the row index. */
  function Column(M: seq<seq<real>>, i: int): int -> real
  {
    j => if 0 <= j < |M| && 0 <= i < |M[j]| then M[j][i] else 0.0
  }

  /** Every column sums to 1. */
  predicate ColumnStochastic(M: seq<seq<real>>)
  {
    Square(M) && forall i :: 0 <= i < |M| ==> Sum(|M|, Column(M, i)) == 1.0
  }

  /** The products row[k] * x[k], as a summand. */
  function Products(row: seq<real>, x: seq<real>): int -> real
  {
    k => if 0 <= k < |row| && 0 <= k < |x| then row[k] * x[k] else 0.0
  }

  /** `np.dot(M, x)` for a square M and a vector of the same size. */
  function MatVec(M: seq<seq<real>>, x: seq<real>): (y: seq<real>)
    ensures |y| == |M|
  {
    seq(|M|, j requires 0 <= j < |M| => Sum(|x|, Products(M[j], x)))
  }

  /** M[j][i] * x[i] as a function of both indices. */
  function Terms(M: seq<seq<real>>, x: seq<real>): (int, int) -> real
  {
    (j, i) => if 0 <= j < |M| && 0 <= i < |M[j]| && 0 <= i < |x| then M[j][i] * x[i] else 0.0
  }

  /** `x / np.sum(x)`: divide every entry by the sum (an empty vector stays
      empty, as with numpy). */
  function Normalize(y: seq<real>): (r: seq<real>)
    requires |y| == 0 || VecSum(y) != 0.0
    ensures |r| == |y|
  {
    if |y| == 0 then [] else seq(|y|, k requires 0 <= k < |y| => y[k] / VecSum(y))
  }

  function SquaredDiffs(a: seq<real>, b: seq<real>): int -> real
  {
    k => if 0 <= k < |a| && 0 <= k < |b| then (a[k] - b[k]) * (a[k] - b[k]) else 0.0
  }

  /** The square of `np.linalg.norm(a - b)`. */
  function SquaredDistance(a: seq<real>, b: seq<real>): real
  {
    Sum(|a|, SquaredDiffs(a, b))
  }

  /** Multiplying by a column-stochastic matrix keeps the sum of a vector. */
  lemma MatVecKeepsSum(M: seq<seq<real>>, x: seq<real>)
    requires ColumnStochastic(M) && |x| == |M|
    ensures VecSum(MatVec(M, x)) == VecSum(x)
  {
    var n, y, f := |M|, MatVec(M, x), Terms(M, x);
    SumSwap(n, n, f);
    forall j | 0 <= j < n ensures Vec(y)(j) == RowSums(f, n)(j) {
      SumExt(n, Row(f, j), Products(M[j], x));
    }
    SumExt(n, Vec(y), RowSums(f, n));
    forall i | 0 <= i < n ensures ColSums(f, n)(i) == Vec(x)(i) {
      SumScale(n, x[i], Column(M, i), Col(f, i));
    }
    SumExt(n, ColSums(f, n), Vec(x));
  }

  /** With entries at least c, a non-negative vector summing to 1 is mapped
      to a vector whose entries are all at least c. */
  lemma MatVecLowerBound(M: seq<seq<real>>, x: seq<real>, c: real)
    requires Square(M) && |x| == |M|
    requires forall j, i :: 0 <= j < |M| && 0 <= i < |M| ==> c <= M[j][i]
    requires forall k :: 0 <= k < |x| ==> 0.0 <= x[k]
    requires VecSum(x) == 1.0
    ensures forall j :: 0 <= j < |M| ==> c <= MatVec(M, x)[j]
  {
    var n := |M|;
    forall j | 0 <= j < n ensures c <= MatVec(M, x)[j] {
      forall k | 0 <= k < n ensures c * Vec(x)(k) <= Products(M[j], x)(k) {
        assert c * x[k] <= M[j][k] * x[k] by {
          assert 0.0 <= (M[j][k] - c) * x[k];
        }
      }
      SumScale(n, c, Vec(x), k => c * Vec(x)(k));
      SumLe(n, k => c * Vec(x)(k), Products(M[j], x));
    }
  }

  /** Dividing by a sum of 1 changes nothing. */
  lemma NormalizeUnitSum(y: seq<real>)
    requires VecSum(y) == 1.0
    ensures Normalize(y) == y
  {
  }

  /** A normalised vector sums to 1. */
  lemma NormalizeSum(y: seq<real>)
    requires |y| > 0 && VecSum(y) != 0.0
    ensures VecSum(Normalize(y)) == 1.0
  {
    var r := Normalize(y);
    SumScale(|y|, 1.0 / VecSum(y), Vec(y), Vec(r));
  }
}
