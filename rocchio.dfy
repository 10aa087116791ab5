/** Rocchio query rewriting: a query is a dict from terms to weights,
    written on the command line as `term^weight` tokens.  Each round
    scores every term of the query and of the summed document vectors,
    keeps the r best and prints them back as tokens.  Python's float()
    and str() on numbers are the parameters parse and show; numpy's sqrt
    is the parameter sqrt. */
module Rocchio {
  import opened Wrappers
  import opened RealSums
  import opened Text
  import opened Sorting
  import opened Dicts
  import opened TFIDFViewer

  type Query = Dict<string, real>

  // ---------------------------------------------------------------------
  // normalize

  /** normalize on a dict: the same keys in the same order, every value
      divided by sqrt(Σ w²).  None stands for the NaN weights numpy
      produces when that norm is 0 and the dict is not empty. */
  function NormalizeDict(d: Query, sqrt: real -> real): (r: Option<Query>)
    requires Valid(d)
    ensures r.None? <==> |d.keys| > 0 && sqrt(SumSquares(Items(d))) == 0.0
    ensures r.Some? ==> Valid(r.value) && r.value.keys == d.keys
    ensures r.Some? ==> forall t :: t in d.values ==>
      r.value.values[t] == d.values[t] / sqrt(SumSquares(Items(d)))
  {
    var norm := sqrt(SumSquares(Items(d)));
    if |d.keys| > 0 && norm == 0.0 then None
    else Some(Dict(d.keys, map t | t in d.values :: d.values[t] / norm))
  }

  /** The items of the normalised dict are the normalised items. */
  lemma NormalizeDictItems(d: Query, sqrt: real -> real)
    requires Valid(d) && NormalizeDict(d, sqrt).Some?
    ensures Normalize(Items(d), sqrt) == Some(Items(NormalizeDict(d, sqrt).value))
  {
    var items := Items(d);
    var r := Items(NormalizeDict(d, sqrt).value);
    var norm := sqrt(SumSquares(items));
    var n := Normalize(items, sqrt).value;
    assert |r| == |items| == |n|;
    forall p | 0 <= p < |r| ensures n[p] == r[p] {
      var t := d.keys[p];
      assert n[p] == (t, d.values[t] / norm);
      assert r[p] == (t, d.values[t] / norm);
    }
    assert n == r;
  }

  /** A normalised non-empty query is a unit vector. */
  lemma NormalizeDictUnit(d: Query, sqrt: real -> real)
    requires IsSqrt(sqrt) && Valid(d) && |d.keys| > 0 && NormalizeDict(d, sqrt).Some?
    ensures SumSquares(Items(NormalizeDict(d, sqrt).value)) == 1.0
  {
    NormalizeDictItems(d, sqrt);
    NormalizeUnit(Items(d), sqrt);
  }

  // ---------------------------------------------------------------------
  // dict comprehensions over set(a) | set(b)

  predicate Distinct<T(==)>(s: seq<T>)
  {
    forall p, q :: 0 <= p < q < |s| ==> s[p] != s[q]
  }

  /** The keys of a followed by the keys of b that a lacks.  Python
      iterates a set union in an unspecified order; this is one such order. */
  function Union(a: seq<string>, b: seq<string>): (r: seq<string>)
    requires Distinct(a)
    ensures Distinct(r)
    ensures forall k :: k in r <==> k in a || k in b
  {
    if |b| == 0 then a
    else
      var u := Union(a, b[..|b| - 1]);
      var k := b[|b| - 1];
      assert forall x :: x in b <==> x in b[..|b| - 1] || x == k by {
        assert b == b[..|b| - 1] + [k];
      }
      if k in u then u else u + [k]
  }

  /** `{t: a.get(t, 0) + b.get(t, 0) for t in set(a) | set(b)}`. */
  function AddDicts(a: Query, b: Query): (r: Query)
    requires Valid(a) && Valid(b)
    ensures Valid(r)
    ensures forall t :: t in r.values <==> t in a.values || t in b.values
    ensures forall t :: t in r.values ==> r.values[t] == Get(a, t, 0.0) + Get(b, t, 0.0)
  {
    var ks := Union(a.keys, b.keys);
    Dict(ks, map t | t in ks :: Get(a, t, 0.0) + Get(b, t, 0.0))
  }

  // ---------------------------------------------------------------------
  // rocchio_update

  /** beta/k, the factor of the document weights.  RocchioUpdate rules
      out k == 0 with a non-empty document vector before the factor is
      used. */
  function DocFactor(beta: real, k: int): real
  {
    if k == 0 then 0.0 else beta / k as real
  }

  /** The new weight of term t: alpha times its query weight plus beta/k
      times its summed document weight, a missing weight counting as 0. */
  function Score(q: Query, d: Query, alpha: real, beta: real, k: int, t: string): real
  {
    Get(q, t, 0.0) * alpha + Get(d, t, 0.0) * DocFactor(beta, k)
  }

  /** Python's `xs[:r]`, a negative r counting from the end. */
  function Take<T>(xs: seq<T>, r: int): (ys: seq<T>)
    ensures |ys| == if r >= 0 then Min(r, |xs|) else Max(0, |xs| + r)
    ensures ys == xs[..|ys|]
  {
    if r >= 0 then xs[..Min(r, |xs|)] else xs[..Max(0, |xs| + r)]
  }

  function Min(a: int, b: int): int { if a <= b then a else b }

  function Max(a: int, b: int): int { if a >= b then a else b }

  /** The order of `sorted(..., key=itemgetter(1), reverse=True)`. */
  function ScoreGe(a: (string, real), b: (string, real)): bool
  {
    a.1 >= b.1
  }

  lemma ScoreGePreorder(s: seq<(string, real)>)
    ensures PreorderOn(s, ScoreGe)
  {
  }

  /** new_query before the sort: the scaled query and document vectors
      added over the union of their terms, i.e. every mentioned term with
      its score. */
  function Scores(q: Query, d: Query, alpha: real, beta: real, k: int): (r: Query)
    requires Valid(q) && Valid(d)
    ensures Valid(r)
    ensures forall t :: t in r.values <==> t in q.values || t in d.values
    ensures forall t :: t in r.values ==> r.values[t] == Score(q, d, alpha, beta, k, t)
  {
    var ks := Union(d.keys, q.keys);
    Dict(ks, map t | t in ks :: Score(q, d, alpha, beta, k, t))
  }

  /** rocchio_update: score every term of the query and of the document
      vector, sort by score, highest first, and keep the first r.  With
      k == 0 and a non-empty document vector the model fails: the
      numpy weights would turn into infinities or NaN.  The driver never
      gets there, since a search for k == 0 hits yields an empty document
      vector, whose comprehension divides nothing. */
  function RocchioUpdate(q: Query, d: Query, alpha: real, beta: real, k: int, r: int): (res: Option<Query>)
    requires Valid(q) && Valid(d)
    ensures res.None? <==> k == 0 && |d.keys| > 0
    ensures res.Some? ==> Valid(res.value)
  {
    if k == 0 && |d.keys| > 0 then None
    else
      Some(TopR(Scores(q, d, alpha, beta, k), r))
  }

  /** The terms either argument of rocchio_update mentions. */
  ghost function Mentioned(q: Query, d: Query): set<string>
  {
    q.values.Keys + d.values.Keys
  }

  /** The scored items, sorted by score, highest first. */
  function Ranked(scores: Query): seq<(string, real)>
    requires Valid(scores)
  {
    SortBy(Items(scores), ScoreGe)
  }

  /** The ranking lists every scored term once, with its score, highest
      score first. */
  lemma RankedFacts(scores: Query)
    requires Valid(scores)
    ensures var ranked := Ranked(scores);
      && |ranked| == |scores.keys|
      && SortedBy(ranked, ScoreGe)
      && (forall p :: 0 <= p < |ranked| ==>
            ranked[p].0 in scores.values && ranked[p].1 == scores.values[ranked[p].0])
      && (forall p, p' :: 0 <= p < p' < |ranked| ==> ranked[p].0 != ranked[p'].0)
      && (forall t :: t in scores.values ==> t in KeysOf(ranked))
  {
    ScoreGePreorder(Items(scores));
    SortBySorted(Items(scores), ScoreGe);
    PermutedItems(scores, Ranked(scores));
  }

  /** The kept prefix of the ranking: dict() of it keeps its order and
      pairs each of its terms with its score. */
  lemma KeptFacts(scores: Query, r: int)
    requires Valid(scores)
    ensures var ranked := Ranked(scores);
      var kept := Take(ranked, r);
      && |kept| <= |ranked|
      && (forall p :: 0 <= p < |kept| ==> kept[p] == ranked[p])
      && DictOf(kept).keys == KeysOf(kept)
      && (forall p :: 0 <= p < |kept| ==> DictOf(kept).values[kept[p].0] == kept[p].1)
  {
    var ranked := Ranked(scores);
    var kept := Take(ranked, r);
    RankedFacts(scores);
    forall p, p' | 0 <= p < p' < |kept| ensures kept[p].0 != kept[p'].0 {
      assert kept[p] == ranked[p] && kept[p'] == ranked[p'];
    }
    DictOfDistinct(kept);
  }

  /** `dict(sorted(scores.items(), key=..., reverse=True)[:r])`. */
  function TopR(scores: Query, r: int): Query
    requires Valid(scores)
  {
    DictOf(Take(Ranked(scores), r))
  }

  /** min(r, n) terms are kept for r >= 0, all but the last -r for r < 0. */
  lemma TopRSize(scores: Query, r: int)
    requires Valid(scores)
    ensures var n := |scores.keys|;
      |TopR(scores, r).keys| == if r >= 0 then Min(r, n) else Max(0, n + r)
  {
    RankedFacts(scores);
    KeptFacts(scores, r);
  }

  /** Every kept term keeps its score. */
  lemma TopRScores(scores: Query, r: int)
    requires Valid(scores)
    ensures forall t :: t in TopR(scores, r).values ==>
      t in scores.values && TopR(scores, r).values[t] == scores.values[t]
  {
    var ranked := Ranked(scores);
    var kept := Take(ranked, r);
    RankedFacts(scores);
    KeptFacts(scores, r);
    forall t | t in DictOf(kept).values
      ensures t in scores.values && DictOf(kept).values[t] == scores.values[t]
    {
      DictOfKeys(kept, t);
      var p :| 0 <= p < |kept| && kept[p].0 == t;
      assert ranked[p] == kept[p];
    }
  }

  /** The kept terms come highest score first. */
  lemma TopRDescending(scores: Query, r: int)
    requires Valid(scores)
    ensures var res := TopR(scores, r);
      forall p, p' :: 0 <= p < p' < |res.keys| ==>
        res.keys[p] in scores.values && res.keys[p'] in scores.values &&
        scores.values[res.keys[p]] >= scores.values[res.keys[p']]
  {
    var ranked := Ranked(scores);
    var res := TopR(scores, r);
    RankedFacts(scores);
    KeptFacts(scores, r);
    forall p, p' | 0 <= p < p' < |res.keys|
      ensures res.keys[p] in scores.values && res.keys[p'] in scores.values &&
        scores.values[res.keys[p]] >= scores.values[res.keys[p']]
    {
      assert res.keys[p] == ranked[p].0 && res.keys[p'] == ranked[p'].0;
      assert ScoreGe(ranked[p], ranked[p']);
    }
  }

  /** No dropped term scores higher than a kept one. */
  lemma TopRDominates(scores: Query, r: int, t: string, u: string)
    requires Valid(scores)
    requires t in TopR(scores, r).values && u in scores.values && u !in TopR(scores, r).values
    ensures t in scores.values && scores.values[t] >= scores.values[u]
  {
    var ranked := Ranked(scores);
    var kept := Take(ranked, r);
    RankedFacts(scores);
    KeptFacts(scores, r);
    DictOfKeys(kept, t);
    DictOfKeys(kept, u);
    var p :| 0 <= p < |kept| && kept[p].0 == t;
    var p' :| 0 <= p' < |ranked| && ranked[p'].0 == u;
    assert forall j :: 0 <= j < |kept| ==> KeysOf(kept)[j] != u;
    assert ranked[p] == kept[p] && p < p';
    assert ScoreGe(ranked[p], ranked[p']);
  }

  /** As many scored terms as terms mentioned by either argument. */
  lemma ScoresCard(q: Query, d: Query, alpha: real, beta: real, k: int)
    requires Valid(q) && Valid(d)
    ensures |Scores(q, d, alpha, beta, k).keys| == |Mentioned(q, d)|
  {
    var scores := Scores(q, d, alpha, beta, k);
    assert scores.values.Keys == Mentioned(q, d);
    KeysCard(scores);
  }

  /** What rocchio_update returns: min(r, |terms|) terms for r >= 0 (all
      but the last -r for r < 0), each a mentioned term with its score,
      highest score first, and no dropped term scoring higher than a kept
      one.  Ties are broken in an unspecified order. */
  lemma RocchioTopR(q: Query, d: Query, alpha: real, beta: real, k: int, r: int)
    requires Valid(q) && Valid(d) && (k != 0 || |d.keys| == 0)
    ensures var res := RocchioUpdate(q, d, alpha, beta, k, r).value;
      var n := |Mentioned(q, d)|;
      && |res.keys| == (if r >= 0 then Min(r, n) else Max(0, n + r))
      && (forall t :: t in res.values ==>
            t in Mentioned(q, d) && res.values[t] == Score(q, d, alpha, beta, k, t))
      && (forall p, p' :: 0 <= p < p' < |res.keys| ==>
            Score(q, d, alpha, beta, k, res.keys[p]) >= Score(q, d, alpha, beta, k, res.keys[p']))
      && (forall t, u :: t in res.values && u in Mentioned(q, d) && u !in res.values ==>
            Score(q, d, alpha, beta, k, t) >= Score(q, d, alpha, beta, k, u))
  {
    var scores := Scores(q, d, alpha, beta, k);
    ScoresCard(q, d, alpha, beta, k);
    TopRSize(scores, r);
    TopRScores(scores, r);
    TopRDescending(scores, r);
    forall t, u | t in TopR(scores, r).values && u in Mentioned(q, d) && u !in TopR(scores, r).values
      ensures Score(q, d, alpha, beta, k, t) >= Score(q, d, alpha, beta, k, u)
    {
      TopRDominates(scores, r, t, u);
    }
  }

  // ---------------------------------------------------------------------
  // the summed document vector of the main loop

  /** The weights of term t in each document vector, as a summand. */
  function Weights(files: seq<Query>, t: string): int -> real
  {
    k => if 0 <= k < |files| then Get(files[k], t, 0.0) else 0.0
  }

  /** doc_vectors after the loop over the hits: every term of some
      document, with the sum of its weights over all of them. */
  method SumDocVectors(files: seq<Query>) returns (dv: Query)
    requires forall k :: 0 <= k < |files| ==> Valid(files[k])
    ensures Valid(dv)
    ensures forall t :: t in dv.values <==> exists k :: 0 <= k < |files| && t in files[k].values
    ensures forall t :: t in dv.values ==> dv.values[t] == Sum(|files|, Weights(files, t))
  {
    dv := Empty();
    for i := 0 to |files|
      invariant Valid(dv)
      invariant forall t :: t in dv.values <==> exists k :: 0 <= k < i && t in files[k].values
      invariant forall t :: t in dv.values ==> dv.values[t] == Sum(i, Weights(files, t))
    {
      ghost var before := dv;
      dv := AddDicts(dv, files[i]);
      forall t | t in dv.values ensures dv.values[t] == Sum(i + 1, Weights(files, t)) {
        if t !in before.values {
          forall k | 0 <= k < i ensures Weights(files, t)(k) == 0.0 {
            assert t !in files[k].values;
          }
          SumZeroTail(0, i, Weights(files, t));
        }
      }
    }
  }

  // ---------------------------------------------------------------------
  // queryToDict, dictToquery, query_to_string

  datatype QueryError =
    | Unpack(token: string)      // two or more '^': too many values to unpack
    | NotANumber(token: string)  // float() refuses the text after '^'
    | ZeroNorm                   // every weight is 0: numpy yields NaN

  /** One token: `key^value` gives (key, float(value)), a token without
      '^' gives (token, 1.0). */
  function ParseToken(tok: string, parse: string -> Option<real>): Result<(string, real), QueryError>
  {
    if '^' in tok then
      var parts := Split(tok, '^');
      if |parts| != 2 then Err(Unpack(tok))
      else if parse(parts[1]).None? then Err(NotANumber(tok))
      else Ok((parts[0], parse(parts[1]).value))
    else Ok((tok, 1.0))
  }

  /** The (key, value) entries of the tokens, or the error of the first
      token that fails. */
  function Entries(query: seq<string>, parse: string -> Option<real>): Result<seq<(string, real)>, QueryError>
  {
    if |query| == 0 then Ok([])
    else
      match Entries(query[..|query| - 1], parse)
      case Err(e) => Err(e)
      case Ok(es) =>
        match ParseToken(query[|query| - 1], parse)
        case Err(e) => Err(e)
        case Ok(entry) => Ok(es + [entry])
  }

  /** What queryToDict returns: the dict of the entries, normalised. */
  function QueryDict(query: seq<string>, parse: string -> Option<real>, sqrt: real -> real): Result<Query, QueryError>
  {
    match Entries(query, parse)
    case Err(e) => Err(e)
    case Ok(es) =>
      match NormalizeDict(DictOf(es), sqrt)
      case None => Err(ZeroNorm)
      case Some(d) => Ok(d)
  }

  /** Entries succeed iff every token parses, and then hold one entry per
      token, in order. */
  lemma {:induction false} EntriesOk(query: seq<string>, parse: string -> Option<real>)
    ensures Entries(query, parse).Ok? <==> forall p :: 0 <= p < |query| ==> ParseToken(query[p], parse).Ok?
    ensures Entries(query, parse).Ok? ==>
      && |Entries(query, parse).value| == |query|
      && forall p :: 0 <= p < |query| ==> Entries(query, parse).value[p] == ParseToken(query[p], parse).value
  {
    if |query| > 0 {
      var init := query[..|query| - 1];
      EntriesOk(init, parse);
      assert forall p :: 0 <= p < |init| ==> init[p] == query[p];
    }
  }

  /** Once a prefix fails, the whole query fails with the same error. */
  lemma {:induction false} EntriesErrPersists(query: seq<string>, i: nat, parse: string -> Option<real>)
    requires i <= |query| && Entries(query[..i], parse).Err?
    ensures Entries(query, parse) == Entries(query[..i], parse)
  {
    if i < |query| {
      assert query[..|query| - 1][..i] == query[..i];
      EntriesErrPersists(query[..|query| - 1], i, parse);
    } else {
      assert query[..i] == query;
    }
  }

  /** queryToDict: a loop storing query_dict[key] = value token by token,
      then normalize. */
  method QueryToDict(query: seq<string>, parse: string -> Option<real>, sqrt: real -> real)
    returns (r: Result<Query, QueryError>)
    ensures r == QueryDict(query, parse, sqrt)
  {
    var queryDict: Query := Empty();
    for i := 0 to |query|
      invariant Entries(query[..i], parse).Ok?
      invariant queryDict == DictOf(Entries(query[..i], parse).value)
    {
      assert query[..i + 1][..i] == query[..i];
      var entry := ParseToken(query[i], parse);
      if entry.Err? {
        EntriesErrPersists(query, i + 1, parse);
        return Err(entry.error);
      }
      queryDict := Put(queryDict, entry.value.0, entry.value.1);
      assert Entries(query[..i + 1], parse).value == Entries(query[..i], parse).value + [entry.value];
    }
    assert query[..|query|] == query;
    var n := NormalizeDict(queryDict, sqrt);
    if n.None? {
      return Err(ZeroNorm);
    }
    return Ok(n.value);
  }

  /** A token without '^' weighs 1.0; `key^value` splits at the '^'; a
      token with two or more '^' fails to unpack. */
  lemma ParseTokenCases(tok: string, parse: string -> Option<real>)
    ensures '^' !in tok ==> ParseToken(tok, parse) == Ok((tok, 1.0))
    ensures (exists a, b :: '^' !in a && '^' !in b && tok == a + "^" + b && parse(b).Some?) <==>
      ParseToken(tok, parse).Ok? && '^' in tok
    ensures ParseToken(tok, parse).Ok? && '^' in tok ==>
      tok == ParseToken(tok, parse).value.0 + "^" + Split(tok, '^')[1]
  {
    if '^' in tok {
      var parts := Split(tok, '^');
      JoinSplit(tok, '^');
      if |parts| == 2 {
        assert Join(parts, "^") == parts[0] + "^" + parts[1];
      }
      forall a, b | '^' !in a && '^' !in b && tok == a + "^" + b
        ensures parts == [a, b]
      {
        SplitJoin([a, b], '^');
        assert Join([a, b], "^") == a + "^" + b;
      }
    }
  }

  /** Every key of the query dict comes from a token, and its weight is
      the one of the last token with that key, divided by the norm. */
  lemma QueryDictLast(query: seq<string>, parse: string -> Option<real>, sqrt: real -> real, p: int)
    requires forall p :: 0 <= p < |query| ==> ParseToken(query[p], parse).Ok?
    requires QueryDict(query, parse, sqrt).Ok? && 0 <= p < |query|
    requires forall p' :: p < p' < |query| ==>
      ParseToken(query[p'], parse).value.0 != ParseToken(query[p], parse).value.0
    ensures var (key, w) := ParseToken(query[p], parse).value;
      var es := Entries(query, parse).value;
      && key in QueryDict(query, parse, sqrt).value.values
      && QueryDict(query, parse, sqrt).value.values[key] == w / sqrt(SumSquares(Items(DictOf(es))))
  {
    EntriesOk(query, parse);
    var es := Entries(query, parse).value;
    DictOfLast(es, es[p].0, p);
  }

  lemma QueryDictKeys(query: seq<string>, parse: string -> Option<real>, sqrt: real -> real, key: string)
    requires forall p :: 0 <= p < |query| ==> ParseToken(query[p], parse).Ok?
    requires QueryDict(query, parse, sqrt).Ok?
    ensures key in QueryDict(query, parse, sqrt).value.values <==>
      exists p :: 0 <= p < |query| && ParseToken(query[p], parse).value.0 == key
  {
    EntriesOk(query, parse);
    var es := Entries(query, parse).value;
    DictOfKeys(es, key);
    if key in KeysOf(es) {
      var p :| 0 <= p < |es| && KeysOf(es)[p] == key;
      assert ParseToken(query[p], parse).value.0 == key;
    }
  }

  /** The `term^weight` form of one entry. */
  function Token(t: string, w: real, show: real -> string): string
  {
    t + "^" + show(w)
  }

  /** The tokens of a dict, one per entry in dict order. */
  function Tokens(d: Query, show: real -> string): (r: seq<string>)
    requires Valid(d)
    ensures |r| == |d.keys|
    ensures forall p :: 0 <= p < |r| ==> r[p] == Token(d.keys[p], d.values[d.keys[p]], show)
  {
    seq(|d.keys|, p requires 0 <= p < |d.keys| => Token(d.keys[p], d.values[d.keys[p]], show))
  }

  /** dictToquery: a loop appending one token per entry. */
  method DictToQuery(d: Query, show: real -> string) returns (query: seq<string>)
    requires Valid(d)
    ensures query == Tokens(d, show)
  {
    query := [];
    for i := 0 to |d.keys|
      invariant query == Tokens(d, show)[..i]
    {
      var elem := d.keys[i];
      query := query + [elem + "^" + show(d.values[elem])];
    }
  }

  /** query_to_string: the same tokens joined by single spaces. */
  function QueryToString(d: Query, show: real -> string): string
    requires Valid(d)
  {
    Join(Tokens(d, show), " ")
  }

  /** Splitting the printed query on spaces gives back the tokens of
      dictToquery, when neither terms nor printed weights hold a space. */
  lemma QueryToStringSplits(d: Query, show: real -> string)
    requires Valid(d) && |d.keys| > 0
    requires forall t :: t in d.values ==> ' ' !in t && ' ' !in show(d.values[t])
    ensures Split(QueryToString(d, show), ' ') == Tokens(d, show)
  {
    var ts := Tokens(d, show);
    forall p | 0 <= p < |ts| ensures ' ' !in ts[p] {
      assert d.keys[p] in d.values;
    }
    SplitJoin(ts, ' ');
  }

  /** Reading back a printed token gives its entry, when float() undoes
      str() and neither term nor number holds a '^'. */
  lemma TokenRoundTrip(t: string, w: real, show: real -> string, parse: string -> Option<real>)
    requires '^' !in t && '^' !in show(w) && parse(show(w)) == Some(w)
    ensures ParseToken(Token(t, w, show), parse) == Ok((t, w))
  {
    var tok := Token(t, w, show);
    assert tok == Join([t, show(w)], "^");
    SplitJoin([t, show(w)], '^');
    assert tok[|t|] == '^';
  }

  /** queryToDict(dictToquery(d)) is normalize(d): same keys, same order,
      when float() undoes str() and no term or number holds a '^'. */
  lemma QueryRoundTrip(d: Query, show: real -> string, parse: string -> Option<real>, sqrt: real -> real)
    requires Valid(d)
    requires forall t :: t in d.values ==>
      '^' !in t && '^' !in show(d.values[t]) && parse(show(d.values[t])) == Some(d.values[t])
    ensures NormalizeDict(d, sqrt).Some? ==> QueryDict(Tokens(d, show), parse, sqrt) == Ok(NormalizeDict(d, sqrt).value)
    ensures NormalizeDict(d, sqrt).None? ==> QueryDict(Tokens(d, show), parse, sqrt) == Err(ZeroNorm)
  {
    var ts := Tokens(d, show);
    forall p | 0 <= p < |ts| ensures ParseToken(ts[p], parse) == Ok(Items(d)[p]) {
      var t := d.keys[p];
      TokenRoundTrip(t, d.values[t], show, parse);
    }
    EntriesOk(ts, parse);
    assert Entries(ts, parse).value == Items(d);
    ItemsDictOf(d);
  }
}
