/** The few Python string operations the modelled scripts use:
    `str.split(sep)` with a one-character separator, `sep.join(parts)`,
    the slice `s[1:-1]` and the code-point ordering of `<` on strings. */
module Text {

  /** Python's `s.split(c)`: the fields between occurrences of c, always at
      least one, none of them containing c. */
  function Split(s: string, c: char): (r: seq<string>)
    ensures |r| >= 1
    ensures forall k :: 0 <= k < |r| ==> c !in r[k]
  {
    if |s| == 0 then [""]
    else
      var rest := Split(s[1..], c);
      if s[0] == c then [""] + rest
      else [[s[0]] + rest[0]] + rest[1..]
  }

  /** Python's `sep.join(parts)`. */
  function Join(parts: seq<string>, sep: string): string
  {
    if |parts| == 0 then ""
    else if |parts| == 1 then parts[0]
    else parts[0] + sep + Join(parts[1..], sep)
  }

  /** Python's `s[1:-1]`: drop the first and last character; shorter
      strings become empty. */
  function Strip(s: string): (r: string)
    ensures |s| >= 2 ==> |r| == |s| - 2 && forall k :: 0 <= k < |r| ==> r[k] == s[k + 1]
    ensures |s| < 2 ==> r == ""
  {
    if |s| >= 2 then s[1..|s| - 1] else ""
  }

  /** Joining the fields of a split with the separator gives back the string. */
  lemma {:induction false} JoinSplit(s: string, c: char)
    ensures Join(Split(s, c), [c]) == s
  {
    if |s| > 0 {
      var rest := Split(s[1..], c);
      JoinSplit(s[1..], c);
      if s[0] == c {
        assert Split(s, c) == [""] + rest;
        assert s == [c] + s[1..];
      } else {
        assert Split(s, c) == [[s[0]] + rest[0]] + rest[1..];
        if |rest| == 1 {
          assert s == [s[0]] + s[1..];
        } else {
          assert rest == [rest[0]] + rest[1..];
          assert Join(rest, [c]) == rest[0] + [c] + Join(rest[1..], [c]);
          assert s == [s[0]] + s[1..];
        }
      }
    }
  }

  /** Splitting a string on c where a separator-free field comes first. */
  lemma {:induction false} SplitFieldFirst(f: string, rest: string, c: char)
    requires c !in f
    ensures Split(f + [c] + rest, c) == [f] + Split(rest, c)
  {
    if |f| > 0 {
      var s := f + [c] + rest;
      SplitFieldFirst(f[1..], rest, c);
      assert s[1..] == f[1..] + [c] + rest;
      assert s[0] == f[0] && s[0] != c;
      assert f == [f[0]] + f[1..];
    } else {
      assert f + [c] + rest == [c] + rest;
    }
  }

  lemma {:induction false} SplitField(f: string, c: char)
    requires c !in f
    ensures Split(f, c) == [f]
  {
    if |f| > 0 {
      SplitField(f[1..], c);
      assert f == [f[0]] + f[1..];
    }
  }

  /** Splitting what was joined with a separator that occurs in no part
      gives back the parts. */
  lemma {:induction false} SplitJoin(parts: seq<string>, c: char)
    requires |parts| >= 1
    requires forall k :: 0 <= k < |parts| ==> c !in parts[k]
    ensures Split(Join(parts, [c]), c) == parts
  {
    if |parts| == 1 {
      SplitField(parts[0], c);
    } else {
      SplitJoin(parts[1..], c);
      SplitFieldFirst(parts[0], Join(parts[1..], [c]), c);
    }
  }

  /** Python's `a < b` on strings: lexicographic by code point. */
  predicate Less(a: string, b: string)
  {
    if |a| == 0 then |b| > 0
    else if |b| == 0 then false
    else if a[0] != b[0] then a[0] < b[0]
    else Less(a[1..], b[1..])
  }

  predicate LessEq(a: string, b: string)
  {
    a == b || Less(a, b)
  }

  lemma {:induction false} LessIrreflexive(a: string)
    ensures !Less(a, a)
  {
    if |a| > 0 {
      LessIrreflexive(a[1..]);
    }
  }

  lemma {:induction false} LessTransitive(a: string, b: string, c: string)
    requires Less(a, b) && Less(b, c)
    ensures Less(a, c)
  {
    if |a| > 0 && |b| > 0 && |c| > 0 && a[0] == b[0] == c[0] {
      LessTransitive(a[1..], b[1..], c[1..]);
    }
  }

  /** Distinct strings are always ordered one way or the other. */
  lemma {:induction false} LessTotal(a: string, b: string)
    ensures a == b || Less(a, b) || Less(b, a)
  {
    if |a| > 0 && |b| > 0 && a[0] == b[0] {
      LessTotal(a[1..], b[1..]);
      if a[1..] == b[1..] {
        assert a == [a[0]] + a[1..] && b == [b[0]] + b[1..];
      }
    }
  }

  lemma LessAsymmetric(a: string, b: string)
    requires Less(a, b)
    ensures !Less(b, a)
  {
    if Less(b, a) {
      LessTransitive(a, b, a);
      LessIrreflexive(a);
    }
  }
}
