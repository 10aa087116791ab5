/** The vector utilities of the TF-IDF viewer.  A document is a list of
    (term, weight) pairs sorted by term; two such lists are compared by
    the cosine of their weights, computed by one merge pass over both. */
module TFIDFViewer {
  import opened Wrappers
  import opened RealSums
  import opened Text
  import opened Sorting
  import opened Dicts

  type TermWeight = (string, real)

  /** What the term-vector request returns for one term of a document. */
  datatype TermStats = TermStats(termFreq: int, docFreq: int)

  /** Terms strictly ascending: the order of sorted(d.items()) for a dict d. */
  predicate Ascending<V>(tw: seq<(string, V)>)
  {
    forall p, q :: 0 <= p < q < |tw| ==> Less(tw[p].0, tw[q].0)
  }

  // ---------------------------------------------------------------------
  // cosine_similarity

  /** The weights of tw whose term is t, as a summand. */
  function Matches(tw: seq<TermWeight>, t: string): int -> real
  {
    q => if 0 <= q < |tw| && tw[q].0 == t then tw[q].1 else 0.0
  }

  /** The weight of t in tw, 0 when t is absent. */
  function Lookup(tw: seq<TermWeight>, t: string): real
  {
    Sum(|tw|, Matches(tw, t))
  }

  function DotTerms(a: seq<TermWeight>, b: seq<TermWeight>): int -> real
  {
    p => if 0 <= p < |a| then a[p].1 * Lookup(b, a[p].0) else 0.0
  }

  /** Σ w1·w2 over the terms the two lists share. */
  function CommonDot(a: seq<TermWeight>, b: seq<TermWeight>): real
  {
    Sum(|a|, DotTerms(a, b))
  }

  /** w1·w2 for each pair of positions holding the same term. */
  function PairProducts(a: seq<TermWeight>, b: seq<TermWeight>): (int, int) -> real
  {
    (p, q) => if 0 <= p < |a| && 0 <= q < |b| && a[p].0 == b[q].0 then a[p].1 * b[q].1 else 0.0
  }

  /** Row p of PairProducts sums to the p-th term of CommonDot(a, b). */
  lemma RowIsDot(a: seq<TermWeight>, b: seq<TermWeight>, p: int)
    requires 0 <= p < |a|
    ensures DotTerms(a, b)(p) == RowSums(PairProducts(a, b), |b|)(p)
  {
    var f := PairProducts(a, b);
    var (t, w) := a[p];
    forall q | 0 <= q < |b| ensures Row(f, p)(q) == w * Matches(b, t)(q) {
      if b[q].0 == t {
        assert Row(f, p)(q) == w * b[q].1;
      } else {
        assert Row(f, p)(q) == 0.0;
      }
    }
    SumScale(|b|, w, Matches(b, t), Row(f, p));
    assert DotTerms(a, b)(p) == w * Sum(|b|, Matches(b, t));
  }

  /** Column q of PairProducts sums to the q-th term of CommonDot(b, a). */
  lemma ColIsDot(a: seq<TermWeight>, b: seq<TermWeight>, q: int)
    requires 0 <= q < |b|
    ensures DotTerms(b, a)(q) == ColSums(PairProducts(a, b), |a|)(q)
  {
    var f := PairProducts(a, b);
    var (t, w) := b[q];
    forall p | 0 <= p < |a| ensures Col(f, q)(p) == w * Matches(a, t)(p) {
      if a[p].0 == t {
        assert Col(f, q)(p) == a[p].1 * w;
      } else {
        assert Col(f, q)(p) == 0.0;
      }
    }
    SumScale(|a|, w, Matches(a, t), Col(f, q));
    assert DotTerms(b, a)(q) == w * Sum(|a|, Matches(a, t));
  }

  /** The similarity does not depend on the order of its arguments. */
  lemma CommonDotSymmetric(a: seq<TermWeight>, b: seq<TermWeight>)
    ensures CommonDot(a, b) == CommonDot(b, a)
  {
    var f := PairProducts(a, b);
    forall p | 0 <= p < |a| ensures DotTerms(a, b)(p) == RowSums(f, |b|)(p) {
      RowIsDot(a, b, p);
    }
    SumExt(|a|, DotTerms(a, b), RowSums(f, |b|));
    forall q | 0 <= q < |b| ensures DotTerms(b, a)(q) == ColSums(f, |a|)(q) {
      ColIsDot(a, b, q);
    }
    SumExt(|b|, DotTerms(b, a), ColSums(f, |a|));
    SumSwap(|a|, |b|, f);
  }

  /** Lists without a common term (in particular an empty list) have
      similarity 0. */
  lemma CommonDotDisjoint(a: seq<TermWeight>, b: seq<TermWeight>)
    requires forall p, q :: 0 <= p < |a| && 0 <= q < |b| ==> a[p].0 != b[q].0
    ensures CommonDot(a, b) == 0.0
  {
    forall p | 0 <= p < |a| ensures DotTerms(a, b)(p) == 0.0 {
      SumConst(|b|, 0.0, Matches(b, a[p].0));
    }
    SumConst(|a|, 0.0, DotTerms(a, b));
  }

  /** In an ascending list the weight of the term at q is found at q. */
  lemma LookupAt(b: seq<TermWeight>, q: int)
    requires Ascending(b) && 0 <= q < |b|
    ensures Lookup(b, b[q].0) == b[q].1
  {
    forall k | 0 <= k < |b| && k != q ensures Matches(b, b[q].0)(k) == 0.0 {
      LessIrreflexive(b[q].0);
    }
    SumOnly(|b|, Matches(b, b[q].0), q);
  }

  lemma LookupAbsent(b: seq<TermWeight>, t: string)
    requires forall q :: 0 <= q < |b| ==> b[q].0 != t
    ensures Lookup(b, t) == 0.0
  {
    SumConst(|b|, 0.0, Matches(b, t));
  }

  /** A term strictly between b[j-1] and b[j] of an ascending list is not
      in the list. */
  lemma Between(b: seq<TermWeight>, t: string, j: int)
    requires Ascending(b) && 0 <= j <= |b|
    requires j > 0 ==> Less(b[j - 1].0, t)
    requires j < |b| ==> Less(t, b[j].0)
    ensures forall q :: 0 <= q < |b| ==> b[q].0 != t
  {
    LessIrreflexive(t);
    forall q | 0 <= q < |b| ensures b[q].0 != t {
      if q < j - 1 {
        LessTransitive(b[q].0, b[j - 1].0, t);
      } else if j < q {
        LessTransitive(t, b[j].0, b[q].0);
      }
    }
  }

  /** The merge has consumed tw1[..i] and tw2[..j]: each list's last
      consumed term lies below the other list's next term. */
  predicate Frontier(tw1: seq<TermWeight>, tw2: seq<TermWeight>, i: int, j: int)
  {
    && 0 <= i <= |tw1| && 0 <= j <= |tw2|
    && (0 < j && i < |tw1| ==> Less(tw2[j - 1].0, tw1[i].0))
    && (0 < i && j < |tw2| ==> Less(tw1[i - 1].0, tw2[j].0))
  }

  /** Equal terms: the product joins the sum and both lists advance. */
  lemma MatchStep(tw1: seq<TermWeight>, tw2: seq<TermWeight>, i: int, j: int)
    requires Ascending(tw1) && Ascending(tw2) && Frontier(tw1, tw2, i, j)
    requires i < |tw1| && j < |tw2| && tw1[i].0 == tw2[j].0
    ensures Sum(i + 1, DotTerms(tw1, tw2)) == Sum(i, DotTerms(tw1, tw2)) + tw1[i].1 * tw2[j].1
    ensures Frontier(tw1, tw2, i + 1, j + 1)
  {
    LookupAt(tw2, j);
  }

  /** tw1's term is smaller: it is absent from tw2 and adds nothing. */
  lemma SkipFirst(tw1: seq<TermWeight>, tw2: seq<TermWeight>, i: int, j: int)
    requires Ascending(tw1) && Ascending(tw2) && Frontier(tw1, tw2, i, j)
    requires i < |tw1| && j < |tw2| && Less(tw1[i].0, tw2[j].0)
    ensures Sum(i + 1, DotTerms(tw1, tw2)) == Sum(i, DotTerms(tw1, tw2))
    ensures Frontier(tw1, tw2, i + 1, j)
  {
    Between(tw2, tw1[i].0, j);
    LookupAbsent(tw2, tw1[i].0);
    if 0 < j && i + 1 < |tw1| {
      LessTransitive(tw2[j - 1].0, tw1[i].0, tw1[i + 1].0);
    }
  }

  /** tw2's term is smaller: only tw2 advances. */
  lemma SkipSecond(tw1: seq<TermWeight>, tw2: seq<TermWeight>, i: int, j: int)
    requires Ascending(tw1) && Ascending(tw2) && Frontier(tw1, tw2, i, j)
    requires i < |tw1| && j < |tw2| && tw1[i].0 != tw2[j].0 && !Less(tw1[i].0, tw2[j].0)
    ensures Frontier(tw1, tw2, i, j + 1)
  {
    LessTotal(tw1[i].0, tw2[j].0);
    if 0 < i && j + 1 < |tw2| {
      LessTransitive(tw1[i - 1].0, tw2[j].0, tw2[j + 1].0);
    }
  }

  /** Once tw2 is exhausted the rest of tw1 adds nothing. */
  lemma MergeTail(tw1: seq<TermWeight>, tw2: seq<TermWeight>, i: int)
    requires Ascending(tw1) && Ascending(tw2) && Frontier(tw1, tw2, i, |tw2|)
    ensures Sum(|tw1|, DotTerms(tw1, tw2)) == Sum(i, DotTerms(tw1, tw2))
  {
    var j := |tw2|;
    forall p | i <= p < |tw1| ensures DotTerms(tw1, tw2)(p) == 0.0 {
      if 0 < j && i < p {
        LessTransitive(tw2[j - 1].0, tw1[i].0, tw1[p].0);
      }
      Between(tw2, tw1[p].0, j);
      LookupAbsent(tw2, tw1[p].0);
    }
    SumZeroTail(i, |tw1|, DotTerms(tw1, tw2));
  }

  /** cosine_similarity: a merge over the two lists, adding w1·w2 when the
      terms agree and advancing past the smaller term otherwise.  On lists
      sorted by term it sums the products over the shared terms; the
      decreases clause bounds the passes by len(tw1) + len(tw2). */
  method CosineSimilarity(tw1: seq<TermWeight>, tw2: seq<TermWeight>) returns (sim: real)
    ensures Ascending(tw1) && Ascending(tw2) ==> sim == CommonDot(tw1, tw2)
  {
    ghost var sorted := Ascending(tw1) && Ascending(tw2);
    var i, j := 0, 0;
    sim := 0.0;
    while i < |tw1| && j < |tw2|
      invariant 0 <= i <= |tw1| && 0 <= j <= |tw2|
      invariant sorted ==> Frontier(tw1, tw2, i, j) && sim == Sum(i, DotTerms(tw1, tw2))
      decreases |tw1| - i + |tw2| - j
    {
      if tw1[i].0 == tw2[j].0 {
        if sorted {
          MatchStep(tw1, tw2, i, j);
        }
        sim := sim + tw1[i].1 * tw2[j].1;
        i, j := i + 1, j + 1;
      } else if Less(tw1[i].0, tw2[j].0) {
        if sorted {
          SkipFirst(tw1, tw2, i, j);
        }
        i := i + 1;
      } else {
        if sorted {
          SkipSecond(tw1, tw2, i, j);
        }
        j := j + 1;
      }
    }
    if sorted && i < |tw1| {
      MergeTail(tw1, tw2, i);
    }
  }

  // ---------------------------------------------------------------------
  // normalize

  function Squares(tw: seq<TermWeight>): int -> real
  {
    p => if 0 <= p < |tw| then tw[p].1 * tw[p].1 else 0.0
  }

  function SumSquares(tw: seq<TermWeight>): real
  {
    Sum(|tw|, Squares(tw))
  }

  /** normalize: the same terms in the same order, every weight divided by
      the one norm sqrt(Σ w²).  None stands for the NaN weights numpy
      produces when that norm is 0 and the list is not empty. */
  function Normalize(tw: seq<TermWeight>, sqrt: real -> real): (r: Option<seq<TermWeight>>)
    ensures r.None? <==> |tw| > 0 && sqrt(SumSquares(tw)) == 0.0
    ensures r.Some? ==> |r.value| == |tw| && forall p :: 0 <= p < |tw| ==>
      r.value[p].0 == tw[p].0 && r.value[p].1 == tw[p].1 / sqrt(SumSquares(tw))
  {
    var norm := sqrt(SumSquares(tw));
    if |tw| > 0 && norm == 0.0 then None
    else Some(seq(|tw|, p requires 0 <= p < |tw| => (tw[p].0, tw[p].1 / norm)))
  }

  lemma ScaledSquare(w: real, n: real)
    requires n != 0.0
    ensures (w / n) * (w / n) == (1.0 / (n * n)) * (w * w)
  {
    assert w / n == w * (1.0 / n);
    assert 1.0 / (n * n) == (1.0 / n) * (1.0 / n);
  }

  /** Dividing every weight by n divides the sum of squares by n². */
  lemma ScaledSumSquares(tw: seq<TermWeight>, r: seq<TermWeight>, n: real)
    requires n != 0.0 && |r| == |tw|
    requires forall p :: 0 <= p < |tw| ==> r[p].1 == tw[p].1 / n
    ensures SumSquares(r) == (1.0 / (n * n)) * SumSquares(tw)
  {
    var c := 1.0 / (n * n);
    forall p | 0 <= p < |r| ensures Squares(r)(p) == c * Squares(tw)(p) {
      var w := tw[p].1;
      ScaledSquare(w, n);
      assert Squares(r)(p) == (w / n) * (w / n);
    }
    SumScale(|r|, c, Squares(tw), Squares(r));
  }

  /** A normalised non-empty list is a unit vector. */
  lemma NormalizeUnit(tw: seq<TermWeight>, sqrt: real -> real)
    requires IsSqrt(sqrt) && |tw| > 0 && Normalize(tw, sqrt).Some?
    ensures SumSquares(Normalize(tw, sqrt).value) == 1.0
  {
    var s := SumSquares(tw);
    SumLowerBound(|tw|, 0.0, Squares(tw));
    var n := sqrt(s);
    assert n * n == s && n != 0.0;
    ScaledSumSquares(tw, Normalize(tw, sqrt).value, n);
  }

  // ---------------------------------------------------------------------
  // document_term_vector

  /** Python's tuple order on (term, value) items with distinct terms
      reduces to the order of the terms. */
  function KeyLe<V>(a: (string, V), b: (string, V)): bool
  {
    LessEq(a.0, b.0)
  }

  lemma KeyLePreorder<V>(s: seq<(string, V)>)
    ensures PreorderOn(s, KeyLe)
  {
    forall x, y | x in s && y in s ensures KeyLe(x, y) || KeyLe(y, x) {
      LessTotal(x.0, y.0);
    }
    forall x, y, z | x in s && y in s && z in s && KeyLe(x, y) && KeyLe(y, z) ensures KeyLe(x, z) {
      if x.0 != y.0 && y.0 != z.0 {
        LessTransitive(x.0, y.0, z.0);
      }
    }
  }

  /** The items of a dict, sorted, have strictly ascending terms. */
  lemma SortedItemsAscending<V>(d: Dict<string, V>, r: seq<(string, V)>)
    requires Valid(d)
    requires multiset(r) == multiset(Items(d)) && SortedBy(r, KeyLe)
    ensures Ascending(r)
  {
    PermutedItems(d, r);
    forall p, q | 0 <= p < q < |r| ensures Less(r[p].0, r[q].0) {
      assert KeyLe(r[p], r[q]);
    }
  }

  /** sorted(d.items()) for a dict keyed by terms. */
  function SortedItems<V>(d: Dict<string, V>): (r: seq<(string, V)>)
    requires Valid(d)
    ensures multiset(r) == multiset(Items(d))
    ensures Ascending(r)
  {
    var items := Items(d);
    KeyLePreorder(items);
    SortBySorted(items, KeyLe);
    SortedItemsAscending(d, SortBy(items, KeyLe));
    SortBy(items, KeyLe)
  }

  /** The terms of sorted(d.items()) are the keys of d, each paired with
      its value. */
  lemma SortedItemsContents<V>(d: Dict<string, V>)
    requires Valid(d)
    ensures forall t :: t in KeysOf(SortedItems(d)) <==> t in d.values
    ensures forall p :: 0 <= p < |SortedItems(d)| ==>
      SortedItems(d)[p].0 in d.values && SortedItems(d)[p].1 == d.values[SortedItems(d)[p].0]
  {
    PermutedItems(d, SortedItems(d));
  }

  predicate Increasing(s: seq<string>)
  {
    forall p, q :: 0 <= p < q < |s| ==> Less(s[p], s[q])
  }

  /** Past the head of an increasing sequence come exactly its other
      elements. */
  lemma TailMembers(s: seq<string>)
    requires Increasing(s) && |s| > 0
    ensures forall t :: t in s[1..] <==> t in s && t != s[0]
  {
    forall t ensures t in s[1..] <==> t in s && t != s[0] {
      if t in s[1..] {
        var k :| 1 <= k < |s| && s[k] == t;
        LessIrreflexive(t);
      }
      if t in s && t != s[0] {
        var k :| 0 <= k < |s| && s[k] == t;
        assert s[1..][k - 1] == t;
      }
    }
  }

  /** Two increasing sequences with the same elements are equal. */
  lemma {:induction false} IncreasingUnique(x: seq<string>, y: seq<string>)
    requires Increasing(x) && Increasing(y)
    requires forall t :: t in x <==> t in y
    ensures x == y
  {
    assert |x| == 0 <==> |y| == 0 by {
      if |x| > 0 {
        assert x[0] in y;
      }
      if |y| > 0 {
        assert y[0] in x;
      }
    }
    if |x| > 0 {
      assert x[0] in y && y[0] in x;
      var q :| 0 <= q < |y| && y[q] == x[0];
      var p :| 0 <= p < |x| && x[p] == y[0];
      if q > 0 {
        LessIrreflexive(x[0]);
        if p > 0 {
          LessAsymmetric(x[0], y[0]);
        }
      }
      TailMembers(x);
      TailMembers(y);
      IncreasingUnique(x[1..], y[1..]);
      assert x == [x[0]] + x[1..] && y == [y[0]] + y[1..];
    }
  }

  /** Two ascending lists over the same terms list them identically. */
  lemma SameTerms<V, W>(a: seq<(string, V)>, b: seq<(string, W)>)
    requires Ascending(a) && Ascending(b)
    requires forall t :: t in KeysOf(a) <==> t in KeysOf(b)
    ensures KeysOf(a) == KeysOf(b)
  {
    IncreasingUnique(KeysOf(a), KeysOf(b));
  }

  /** The document's terms with their statistics, in the order of
      sorted(d.items()); no terms when the reply has no `text` field. */
  function TermItems(text: Option<Dict<string, TermStats>>): seq<(string, TermStats)>
    requires text.Some? ==> Valid(text.value)
  {
    if text.None? then [] else SortedItems(text.value)
  }

  function TermFreqs(items: seq<(string, TermStats)>): seq<(string, int)>
  {
    seq(|items|, p requires 0 <= p < |items| => (items[p].0, items[p].1.termFreq))
  }

  /** The loop of document_term_vector: two dicts, in the order of the
      document's terms, holding each term's term and document frequency. */
  method Frequencies(terms: Dict<string, TermStats>) returns (fileTd: Dict<string, int>, fileDf: Dict<string, int>)
    requires Valid(terms)
    ensures Valid(fileTd) && Valid(fileDf)
    ensures fileTd.keys == terms.keys && fileDf.keys == terms.keys
    ensures forall t :: t in fileTd.values ==> t in terms.values && fileTd.values[t] == terms.values[t].termFreq
    ensures forall t :: t in fileDf.values ==> t in terms.values && fileDf.values[t] == terms.values[t].docFreq
  {
    fileTd, fileDf := Empty(), Empty();
    for k := 0 to |terms.keys|
      invariant Valid(fileTd) && Valid(fileDf)
      invariant fileTd.keys == terms.keys[..k] && fileDf.keys == terms.keys[..k]
      invariant forall t :: t in fileTd.values ==> t in terms.values && fileTd.values[t] == terms.values[t].termFreq
      invariant forall t :: t in fileDf.values ==> t in terms.values && fileDf.values[t] == terms.values[t].docFreq
    {
      var t := terms.keys[k];
      assert terms.keys[..k + 1] == terms.keys[..k] + [t];
      assert t !in terms.keys[..k];
      fileTd := Put(fileTd, t, terms.values[t].termFreq);
      fileDf := Put(fileDf, t, terms.values[t].docFreq);
    }
    assert terms.keys[..|terms.keys|] == terms.keys;
  }

  /** sorted(file_td.items()) lists the document's sorted terms, each with
      its term frequency. */
  lemma SortedTermFreqs(terms: Dict<string, TermStats>, fileTd: Dict<string, int>)
    requires Valid(terms) && Valid(fileTd) && fileTd.keys == terms.keys
    requires forall t :: t in fileTd.values ==> t in terms.values && fileTd.values[t] == terms.values[t].termFreq
    ensures SortedItems(fileTd) == TermFreqs(SortedItems(terms))
  {
    var a, c := SortedItems(fileTd), SortedItems(terms);
    SortedItemsContents(fileTd);
    SortedItemsContents(terms);
    SameTerms(a, c);
    forall p | 0 <= p < |a| ensures a[p] == TermFreqs(c)[p] {
      assert KeysOf(a)[p] == KeysOf(c)[p];
    }
  }

  /** sorted(file_df.items()) lists the document's sorted terms, each with
      its document frequency. */
  lemma SortedDocFreqs(terms: Dict<string, TermStats>, fileDf: Dict<string, int>)
    requires Valid(terms) && Valid(fileDf) && fileDf.keys == terms.keys
    requires forall t :: t in fileDf.values ==> t in terms.values && fileDf.values[t] == terms.values[t].docFreq
    ensures |SortedItems(fileDf)| == |SortedItems(terms)|
    ensures forall p :: 0 <= p < |SortedItems(fileDf)| ==>
      SortedItems(fileDf)[p] == (SortedItems(terms)[p].0, SortedItems(terms)[p].1.docFreq)
  {
    var b, c := SortedItems(fileDf), SortedItems(terms);
    SortedItemsContents(fileDf);
    SortedItemsContents(terms);
    SameTerms(b, c);
    forall p | 0 <= p < |b| ensures b[p] == (c[p].0, c[p].1.docFreq) {
      assert KeysOf(b)[p] == KeysOf(c)[p];
    }
  }

  /** document_term_vector: term and document frequencies of the terms of
      the document's `text` field (None when it has none), each list
      sorted by term.  Both are filled in the same loop, so they list the
      same terms in the same order and zip pairs every term with its own
      document frequency. */
  method DocumentTermVector(text: Option<Dict<string, TermStats>>)
    returns (tv: seq<(string, int)>, df: seq<(string, int)>)
    requires text.Some? ==> Valid(text.value)
    ensures Ascending(tv)
    ensures tv == TermFreqs(TermItems(text))
    ensures |df| == |tv| && forall p :: 0 <= p < |df| ==>
      df[p] == (TermItems(text)[p].0, TermItems(text)[p].1.docFreq)
  {
    if text.None? {
      return [], [];
    }
    var fileTd, fileDf := Frequencies(text.value);
    tv := SortedItems(fileTd);
    df := SortedItems(fileDf);
    SortedTermFreqs(text.value, fileTd);
    SortedDocFreqs(text.value, fileDf);
  }

  // ---------------------------------------------------------------------
  // to_tfidf

  /** max([f for _, f in tv]). */
  function MaxFreq(tv: seq<(string, int)>): (m: int)
    requires |tv| > 0
    ensures forall p :: 0 <= p < |tv| ==> tv[p].1 <= m
    ensures exists p :: 0 <= p < |tv| && tv[p].1 == m
  {
    if |tv| == 1 then tv[0].1
    else
      var m := MaxFreq(tv[..|tv| - 1]);
      if tv[|tv| - 1].1 > m then tv[|tv| - 1].1 else m
  }

  /** tf = w / max_freq (true division). */
  function Tf(w: int, maxFreq: int): real
    requires maxFreq != 0
  {
    w as real / maxFreq as real
  }

  lemma RatioInUnit(w: real, m: real)
    requires 0.0 < w <= m
    ensures 0.0 < w / m <= 1.0
  {
    assert w / m * m == w;
  }

  lemma RatioOne(m: real)
    requires m != 0.0
    ensures m / m == 1.0
  {
  }

  /** With positive term frequencies every tf lies in (0, 1], and the most
      frequent term gets exactly 1. */
  lemma TfBounds(tv: seq<(string, int)>)
    requires |tv| > 0
    requires forall q :: 0 <= q < |tv| ==> 0 < tv[q].1
    ensures MaxFreq(tv) > 0
    ensures forall p :: 0 <= p < |tv| ==> 0.0 < Tf(tv[p].1, MaxFreq(tv)) <= 1.0
    ensures exists p :: 0 <= p < |tv| && Tf(tv[p].1, MaxFreq(tv)) == 1.0
  {
    var m := MaxFreq(tv);
    assert 0 < tv[0].1 <= m;
    forall p | 0 <= p < |tv| ensures 0.0 < Tf(tv[p].1, m) <= 1.0 {
      RatioInUnit(tv[p].1 as real, m as real);
    }
    var p :| 0 <= p < |tv| && tv[p].1 == m;
    RatioOne(m as real);
  }

  /** tf * idf with idf = log2(dcount / df). */
  function TfIdf(w: int, maxFreq: int, d: int, dcount: int, log2: real -> real): real
    requires maxFreq != 0 && d != 0
  {
    Tf(w, maxFreq) * log2(dcount as real / d as real)
  }

  /** The loop of to_tfidf over zip(tv, df): each term weighted by
      tf * log2(dcount / df).  None stands for the ZeroDivisionError raised
      when max_freq or a document frequency is 0. */
  method TfidfWeights(tv: seq<(string, int)>, df: seq<(string, int)>, maxFreq: int, dcount: int, log2: real -> real)
    returns (r: Option<seq<TermWeight>>)
    ensures var n := if |tv| <= |df| then |tv| else |df|;
      r.None? <==> (0 < n && maxFreq == 0) || exists p :: 0 <= p < n && df[p].1 == 0
    ensures var n := if |tv| <= |df| then |tv| else |df|;
      r.Some? ==> |r.value| == n && (0 < n ==> maxFreq != 0) && forall p :: 0 <= p < n ==>
        df[p].1 != 0 && r.value[p] == (tv[p].0, TfIdf(tv[p].1, maxFreq, df[p].1, dcount, log2))
  {
    var n := if |tv| <= |df| then |tv| else |df|;
    var weights: seq<TermWeight> := [];
    for k := 0 to n
      invariant |weights| == k && (0 < k ==> maxFreq != 0)
      invariant forall p :: 0 <= p < k ==>
        df[p].1 != 0 && weights[p] == (tv[p].0, TfIdf(tv[p].1, maxFreq, df[p].1, dcount, log2))
    {
      if maxFreq == 0 || df[k].1 == 0 {
        return None;
      }
      weights := weights + [(tv[k].0, TfIdf(tv[k].1, maxFreq, df[k].1, dcount, log2))];
    }
    r := Some(weights);
  }

  /** Whether to_tfidf gets through its arithmetic: max() needs a term,
      tf divides by max_freq and idf by each document frequency. */
  predicate Weighable(items: seq<(string, TermStats)>)
  {
    && |items| > 0
    && MaxFreq(TermFreqs(items)) != 0
    && forall p :: 0 <= p < |items| ==> items[p].1.docFreq != 0
  }

  /** The tf-idf weight of each term, before normalisation. */
  function RawTfidf(items: seq<(string, TermStats)>, dcount: int, log2: real -> real): seq<TermWeight>
    requires Weighable(items)
  {
    var m := MaxFreq(TermFreqs(items));
    seq(|items|, p requires 0 <= p < |items| =>
      (items[p].0, TfIdf(items[p].1.termFreq, m, items[p].1.docFreq, dcount, log2)))
  }

  /** The norm normalize divides those weights by. */
  function TfidfNorm(items: seq<(string, TermStats)>, dcount: int, log2: real -> real, sqrt: real -> real): real
    requires Weighable(items)
  {
    sqrt(SumSquares(RawTfidf(items, dcount, log2)))
  }

  /** The to_tfidf result for a document's sorted terms: the raw weights,
      normalised, or None where the arithmetic fails. */
  function TfidfOf(items: seq<(string, TermStats)>, dcount: int, log2: real -> real, sqrt: real -> real): Option<seq<TermWeight>>
  {
    if Weighable(items) then Normalize(RawTfidf(items, dcount, log2), sqrt) else None
  }

  /** Term p gets tf·log2(dcount/df) divided by the norm of all the weights,
      so the result is a unit vector.  It fails exactly when the arithmetic
      does: a document without terms (max() of an empty list raises), a
      zero max_freq or document frequency, or a zero norm (NaN weights). */
  lemma TfidfOfWeights(items: seq<(string, TermStats)>, dcount: int, log2: real -> real, sqrt: real -> real)
    ensures TfidfOf(items, dcount, log2, sqrt).None? <==>
      !Weighable(items) || TfidfNorm(items, dcount, log2, sqrt) == 0.0
    ensures TfidfOf(items, dcount, log2, sqrt).Some? ==>
      && Weighable(items)
      && |TfidfOf(items, dcount, log2, sqrt).value| == |items|
      && forall p :: 0 <= p < |items| ==>
        && TfidfOf(items, dcount, log2, sqrt).value[p].0 == items[p].0
        && TfidfOf(items, dcount, log2, sqrt).value[p].1
           == TfIdf(items[p].1.termFreq, MaxFreq(TermFreqs(items)), items[p].1.docFreq, dcount, log2)
              / TfidfNorm(items, dcount, log2, sqrt)
    ensures TfidfOf(items, dcount, log2, sqrt).Some? && IsSqrt(sqrt) ==>
      SumSquares(TfidfOf(items, dcount, log2, sqrt).value) == 1.0
  {
    if Weighable(items) && IsSqrt(sqrt) && TfidfOf(items, dcount, log2, sqrt).Some? {
      NormalizeUnit(RawTfidf(items, dcount, log2), sqrt);
    }
  }

  /** The weights keep the terms, and so their ascending order. */
  lemma TfidfOfTerms(items: seq<(string, TermStats)>, dcount: int, log2: real -> real, sqrt: real -> real)
    requires Ascending(items)
    ensures TfidfOf(items, dcount, log2, sqrt).Some? ==>
      && Ascending(TfidfOf(items, dcount, log2, sqrt).value)
      && KeysOf(TfidfOf(items, dcount, log2, sqrt).value) == KeysOf(items)
  {
    if TfidfOf(items, dcount, log2, sqrt).Some? {
      assert KeysOf(TfidfOf(items, dcount, log2, sqrt).value) == KeysOf(items);
    }
  }

  /** What the loop of to_tfidf computes over a document's sorted term
      and document frequencies: the raw weights exactly when the document
      is weighable. */
  lemma WeightsOfItems(items: seq<(string, TermStats)>, tv: seq<(string, int)>, df: seq<(string, int)>,
                       w: Option<seq<TermWeight>>, dcount: int, log2: real -> real)
    requires |tv| > 0 && tv == TermFreqs(items)
    requires |df| == |tv| && forall p :: 0 <= p < |df| ==> df[p] == (items[p].0, items[p].1.docFreq)
    requires var n := if |tv| <= |df| then |tv| else |df|;
      w.None? <==> (0 < n && MaxFreq(tv) == 0) || exists p :: 0 <= p < n && df[p].1 == 0
    requires var n := if |tv| <= |df| then |tv| else |df|;
      w.Some? ==> |w.value| == n && (0 < n ==> MaxFreq(tv) != 0) && forall p :: 0 <= p < n ==>
        df[p].1 != 0 && w.value[p] == (tv[p].0, TfIdf(tv[p].1, MaxFreq(tv), df[p].1, dcount, log2))
    ensures w.None? <==> !Weighable(items)
    ensures w.Some? ==> Weighable(items) && w.value == RawTfidf(items, dcount, log2)
  {
    assert |items| == |tv|;
    if w.Some? {
      assert Weighable(items);
      forall p | 0 <= p < |items| ensures w.value[p] == RawTfidf(items, dcount, log2)[p] {
        assert tv[p] == (items[p].0, items[p].1.termFreq);
      }
    }
  }

  /** TfidfOf for a document, stated on the document itself: the weight
      of each of its terms, when it fails, and the order and terms of the
      result. */
  lemma TfidfOfDocument(text: Option<Dict<string, TermStats>>, dcount: int, log2: real -> real, sqrt: real -> real)
    requires text.Some? ==> Valid(text.value)
    ensures TfidfOf(TermItems(text), dcount, log2, sqrt).None? <==>
      !Weighable(TermItems(text)) || TfidfNorm(TermItems(text), dcount, log2, sqrt) == 0.0
    ensures TfidfOf(TermItems(text), dcount, log2, sqrt).Some? ==>
      && Weighable(TermItems(text))
      && |TfidfOf(TermItems(text), dcount, log2, sqrt).value| == |TermItems(text)|
      && forall p :: 0 <= p < |TermItems(text)| ==>
        && TfidfOf(TermItems(text), dcount, log2, sqrt).value[p].0 == TermItems(text)[p].0
        && TfidfOf(TermItems(text), dcount, log2, sqrt).value[p].1
           == TfIdf(TermItems(text)[p].1.termFreq, MaxFreq(TermFreqs(TermItems(text))), TermItems(text)[p].1.docFreq, dcount, log2)
              / TfidfNorm(TermItems(text), dcount, log2, sqrt)
    ensures text.None? || |text.value.keys| == 0 ==> TfidfOf(TermItems(text), dcount, log2, sqrt).None?
    ensures TfidfOf(TermItems(text), dcount, log2, sqrt).Some? && IsSqrt(sqrt) ==>
      SumSquares(TfidfOf(TermItems(text), dcount, log2, sqrt).value) == 1.0
    ensures TfidfOf(TermItems(text), dcount, log2, sqrt).Some? ==>
      && text.Some?
      && Ascending(TfidfOf(TermItems(text), dcount, log2, sqrt).value)
      && forall t :: t in KeysOf(TfidfOf(TermItems(text), dcount, log2, sqrt).value) <==> t in text.value.values
  {
    var items := TermItems(text);
    TfidfOfWeights(items, dcount, log2, sqrt);
    if text.Some? {
      SortedItemsContents(text.value);
      if |text.value.keys| == 0 {
        assert |Items(text.value)| == 0;
        assert |items| == 0;
      }
    }
    TfidfOfTerms(items, dcount, log2, sqrt);
  }

  /** to_tfidf: the normalised tf-idf weights of a document, TfidfOf of its
      sorted terms.  Term p gets tf·log2(dcount/df) divided by the norm of
      all those weights, so the result is a unit vector; it fails exactly
      when the arithmetic does (no terms, as max() of an empty list raises,
      a zero max_freq or document frequency, or a zero norm).  The result
      is sorted by term, so ready for CosineSimilarity, and covers exactly
      the document's terms. */
  method ToTfidf(text: Option<Dict<string, TermStats>>, dcount: int, log2: real -> real, sqrt: real -> real)
    returns (r: Option<seq<TermWeight>>)
    requires text.Some? ==> Valid(text.value)
    ensures r == TfidfOf(TermItems(text), dcount, log2, sqrt)
    ensures r.None? <==>
      !Weighable(TermItems(text)) || TfidfNorm(TermItems(text), dcount, log2, sqrt) == 0.0
    ensures r.Some? ==>
      && Weighable(TermItems(text))
      && |r.value| == |TermItems(text)|
      && forall p :: 0 <= p < |TermItems(text)| ==>
        && r.value[p].0 == TermItems(text)[p].0
        && r.value[p].1
           == TfIdf(TermItems(text)[p].1.termFreq, MaxFreq(TermFreqs(TermItems(text))), TermItems(text)[p].1.docFreq, dcount, log2)
              / TfidfNorm(TermItems(text), dcount, log2, sqrt)
    ensures text.None? || |text.value.keys| == 0 ==> r.None?
    ensures r.Some? && IsSqrt(sqrt) ==> SumSquares(r.value) == 1.0
    ensures r.Some? ==>
      && text.Some?
      && Ascending(r.value)
      && forall t :: t in KeysOf(r.value) <==> t in text.value.values
  {
    var fileTv, fileDf := DocumentTermVector(text);
    ghost var items := TermItems(text);
    r := None;
    if |fileTv| > 0 {
      var maxFreq := MaxFreq(fileTv);
      var weights := TfidfWeights(fileTv, fileDf, maxFreq, dcount, log2);
      WeightsOfItems(items, fileTv, fileDf, weights, dcount, log2);
      if weights.Some? {
        r := Normalize(weights.value, sqrt);
      }
    }
    assert r == TfidfOf(items, dcount, log2, sqrt);
    TfidfOfDocument(text, dcount, log2, sqrt);
  }
}
