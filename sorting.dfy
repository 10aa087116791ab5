/** Python's `sorted(xs, key=...)` and `xs.sort(key=...)`, modelled as an
    insertion sort under a comparison `le` ("may come before").  Only the
    order and the permutation are specified; which of two equal-key
    elements comes first is not. */
module Sorting {

  predicate SortedBy<T>(s: seq<T>, le: (T, T) -> bool)
  {
    forall i, j :: 0 <= i < j < |s| ==> le(s[i], s[j])
  }

  /** le is total and transitive on the elements of s. */
  ghost predicate PreorderOn<T>(s: seq<T>, le: (T, T) -> bool)
  {
    && (forall x, y :: x in s && y in s ==> le(x, y) || le(y, x))
    && (forall x, y, z :: x in s && y in s && z in s && le(x, y) && le(y, z) ==> le(x, z))
  }

  function Insert<T>(x: T, s: seq<T>, le: (T, T) -> bool): (r: seq<T>)
    ensures multiset(r) == multiset(s) + multiset{x}
  {
    if |s| == 0 then [x]
    else if le(x, s[0]) then [x] + s
    else
      assert s == [s[0]] + s[1..];
      [s[0]] + Insert(x, s[1..], le)
  }

  /** The result of `sorted`: a permutation of its input ... */
  function SortBy<T>(s: seq<T>, le: (T, T) -> bool): (r: seq<T>)
    ensures multiset(r) == multiset(s)
  {
    if |s| == 0 then []
    else
      assert s == [s[0]] + s[1..];
      Insert(s[0], SortBy(s[1..], le), le)
  }

  lemma {:induction false} InsertSorted<T>(x: T, s: seq<T>, le: (T, T) -> bool)
    requires SortedBy(s, le)
    requires PreorderOn([x] + s, le)
    ensures SortedBy(Insert(x, s, le), le)
  {
    if |s| > 0 && !le(x, s[0]) {
      var t := Insert(x, s[1..], le);
      assert PreorderOn([x] + s[1..], le) by {
        assert forall y :: y in [x] + s[1..] ==> y in [x] + s;
      }
      InsertSorted(x, s[1..], le);
      assert s[0] in [x] + s && x in [x] + s;
      assert le(s[0], x);
      forall j | 0 <= j < |t| ensures le(s[0], t[j]) {
        assert t[j] in multiset(t);
        if t[j] != x {
          assert t[j] in s[1..];
          var p :| 0 <= p < |s[1..]| && s[1..][p] == t[j];
          assert s[p + 1] == t[j];
        }
      }
      assert Insert(x, s, le) == [s[0]] + t;
    }
  }

  /** ... in non-decreasing order when le is a total preorder on it. */
  lemma {:induction false} SortBySorted<T>(s: seq<T>, le: (T, T) -> bool)
    requires PreorderOn(s, le)
    ensures SortedBy(SortBy(s, le), le)
  {
    if |s| > 0 {
      var t := SortBy(s[1..], le);
      assert PreorderOn(s[1..], le) by {
        assert forall y :: y in s[1..] ==> y in s;
      }
      SortBySorted(s[1..], le);
      assert PreorderOn([s[0]] + t, le) by {
        forall j | 0 <= j < |t| ensures t[j] in s {
          assert t[j] in multiset(t);
          assert t[j] in multiset(s[1..]);
          assert s == [s[0]] + s[1..];
        }
        assert forall y :: y in [s[0]] + t ==> y in s;
      }
      InsertSorted(s[0], t, le);
    }
  }
}
