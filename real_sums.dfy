/** Finite sums of exact reals, indexed by 0 .. n-1.  Every sum in the model
    (column sums of the PageRank matrix, vector sums, dot products, squared
    norms) is an instance of `Sum`.  Summands are passed as function values;
    each lambda is written once, inside a named function, so that two
    mentions of the same summand are the same value. */
module RealSums {

  function Sum(n: nat, f: int -> real): real
  {
    if n == 0 then 0.0 else Sum(n - 1, f) + f(n - 1)
  }

  /** A vector seen as a summand (0 outside its indices). */
  function Vec(x: seq<real>): int -> real
  {
    k => if 0 <= k < |x| then x[k] else 0.0
  }

  /** The sum of the entries of a vector (numpy's `np.sum`). */
  function VecSum(x: seq<real>): real
  {
    Sum(|x|, Vec(x))
  }

  /** Row j and column i of a function of two indices. */
  function Row(f: (int, int) -> real, j: int): int -> real
  {
    i => f(j, i)
  }

  function Col(f: (int, int) -> real, i: int): int -> real
  {
    j => f(j, i)
  }

  /** The vector of row sums over i < b, and of column sums over j < a. */
  function RowSums(f: (int, int) -> real, b: nat): int -> real
  {
    j => Sum(b, Row(f, j))
  }

  function ColSums(f: (int, int) -> real, a: nat): int -> real
  {
    i => Sum(a, Col(f, i))
  }

  /** The indicator of the elements of s, scaled by c. */
  function Indicator(s: seq<int>, c: real): int -> real
  {
    j => if j in s then c else 0.0
  }

  /** Sums depend only on the values of the summand below n. */
  lemma {:induction false} SumExt(n: nat, f: int -> real, g: int -> real)
    requires forall k :: 0 <= k < n ==> f(k) == g(k)
    ensures Sum(n, f) == Sum(n, g)
  {
    if n > 0 {
      SumExt(n - 1, f, g);
    }
  }

  lemma {:induction false} SumAdd(n: nat, f: int -> real, g: int -> real, h: int -> real)
    requires forall k :: 0 <= k < n ==> h(k) == f(k) + g(k)
    ensures Sum(n, h) == Sum(n, f) + Sum(n, g)
  {
    if n > 0 {
      SumAdd(n - 1, f, g, h);
    }
  }

  lemma {:induction false} SumScale(n: nat, c: real, f: int -> real, g: int -> real)
    requires forall k :: 0 <= k < n ==> g(k) == c * f(k)
    ensures Sum(n, g) == c * Sum(n, f)
  {
    if n > 0 {
      SumScale(n - 1, c, f, g);
    }
  }

  lemma {:induction false} SumConst(n: nat, c: real, f: int -> real)
    requires forall k :: 0 <= k < n ==> f(k) == c
    ensures Sum(n, f) == n as real * c
  {
    if n > 0 {
      SumConst(n - 1, c, f);
    }
  }

  lemma {:induction false} SumLowerBound(n: nat, c: real, f: int -> real)
    requires forall k :: 0 <= k < n ==> c <= f(k)
    ensures n as real * c <= Sum(n, f)
  {
    if n > 0 {
      SumLowerBound(n - 1, c, f);
    }
  }

  lemma {:induction false} SumLe(n: nat, f: int -> real, g: int -> real)
    requires forall k :: 0 <= k < n ==> f(k) <= g(k)
    ensures Sum(n, f) <= Sum(n, g)
  {
    if n > 0 {
      SumLe(n - 1, f, g);
    }
  }

  /** Exchanging the order of a finite double sum. */
  lemma {:induction false} SumSwap(a: nat, b: nat, f: (int, int) -> real)
    ensures Sum(a, RowSums(f, b)) == Sum(b, ColSums(f, a))
  {
    if a > 0 {
      SumSwap(a - 1, b, f);
      SumAdd(b, ColSums(f, a - 1), Row(f, a - 1), ColSums(f, a));
    } else {
      SumConst(b, 0.0, ColSums(f, a));
    }
  }

  /** Summing the indicator of a duplicate-free sequence of indices below n
      counts its elements. */
  lemma {:induction false} SumIndicator(n: nat, s: seq<int>, c: real)
    requires forall p :: 0 <= p < |s| ==> 0 <= s[p] < n
    requires forall p, q :: 0 <= p < q < |s| ==> s[p] != s[q]
    ensures Sum(n, Indicator(s, c)) == |s| as real * c
  {
    if |s| == 0 {
      SumConst(n, 0.0, Indicator(s, c));
    } else {
      var t, rest := s[|s| - 1], s[..|s| - 1];
      SumIndicator(n, rest, c);
      SumSingle(n, t, c);
      IndicatorSplit(s, n, c);
      assert (|rest| + 1) as real * c == |rest| as real * c + c;
    }
  }

  /** Removing the last element of a duplicate-free sequence splits its
      indicator sum in two. */
  lemma IndicatorSplit(s: seq<int>, n: nat, c: real)
    requires |s| > 0
    requires forall p, q :: 0 <= p < q < |s| ==> s[p] != s[q]
    ensures Sum(n, Indicator(s, c))
         == Sum(n, Indicator(s[..|s| - 1], c)) + Sum(n, Indicator([s[|s| - 1]], c))
  {
    var t, rest := s[|s| - 1], s[..|s| - 1];
    assert s == rest + [t];
    assert t !in rest by {
      forall q | 0 <= q < |rest| ensures rest[q] != t {
        assert rest[q] == s[q];
      }
    }
    SumAdd(n, Indicator(rest, c), Indicator([t], c), Indicator(s, c));
  }

  lemma {:induction false} SumSingle(n: nat, t: int, c: real)
    requires 0 <= t < n
    ensures Sum(n, Indicator([t], c)) == c
  {
    if n - 1 == t {
      SumConst(n - 1, 0.0, Indicator([t], c));
    } else {
      SumSingle(n - 1, t, c);
    }
  }

  /** A summand that vanishes everywhere below n except at t sums to f(t). */
  lemma {:induction false} SumOnly(n: nat, f: int -> real, t: int)
    requires 0 <= t < n
    requires forall k :: 0 <= k < n && k != t ==> f(k) == 0.0
    ensures Sum(n, f) == f(t)
  {
    if n - 1 == t {
      SumConst(n - 1, 0.0, f);
    } else {
      SumOnly(n - 1, f, t);
    }
  }

  /** Terms from m on that vanish do not change the sum. */
  lemma {:induction false} SumZeroTail(m: nat, n: nat, f: int -> real)
    requires m <= n
    requires forall k :: m <= k < n ==> f(k) == 0.0
    ensures Sum(n, f) == Sum(m, f)
  {
    if m < n {
      SumZeroTail(m, n - 1, f);
    }
  }

  /** A sum of non-negative terms is zero only when every term is. */
  lemma {:induction false} SumNonNegativeZero(n: nat, f: int -> real)
    requires forall k :: 0 <= k < n ==> 0.0 <= f(k)
    requires Sum(n, f) == 0.0
    ensures forall k :: 0 <= k < n ==> f(k) == 0.0
  {
    if n > 0 {
      SumLowerBound(n - 1, 0.0, f);
      SumNonNegativeZero(n - 1, f);
    }
  }

  /** sqrt is the non-negative square root on the non-negative reals (the
      numpy function, taken over exact reals). */
  ghost predicate IsSqrt(sqrt: real -> real)
  {
    forall x :: 0.0 <= x ==> 0.0 <= sqrt(x) && sqrt(x) * sqrt(x) == x
  }
}
