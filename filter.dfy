/** The filtering script: it scans an index into a vocabulary like the
    word-counting helper, keeps the terms made of ASCII letters only,
    encodes them as UTF-8 bytes, sorts them by word or by count and writes
    them as CSV rows (count, word) under a header. */
module Filter {
  import opened Wrappers
  import opened Text
  import opened Dicts
  import opened Sorting
  import opened Vocabulary

  newtype byte = x: int | 0 <= x < 256

  // ---------------------------------------------------------------------
  // is_valid_word

  predicate IsLetter(c: char)
  {
    'A' <= c <= 'Z' || 'a' <= c <= 'z'
  }

  /** How many letters `[A-Za-z]+` consumes at the front of w. */
  function LetterRun(w: string): (n: nat)
    ensures n <= |w|
    ensures forall i :: 0 <= i < n ==> IsLetter(w[i])
    ensures n < |w| ==> !IsLetter(w[n])
  {
    if |w| == 0 || !IsLetter(w[0]) then 0 else 1 + LetterRun(w[1..])
  }

  /** re.match("^[A-Za-z]+$", w): at least one letter, then `$`, which
      matches at the end of the string or before a final newline. */
  predicate IsValidWord(w: string)
  {
    var n := LetterRun(w);
    n >= 1 && (n == |w| || (n == |w| - 1 && w[n] == '\n'))
  }

  /** A valid word is a non-empty run of letters, optionally followed by
      one newline, and every such string is valid. */
  lemma IsValidWordIff(w: string)
    ensures IsValidWord(w) <==>
      || (|w| >= 1 && forall i :: 0 <= i < |w| ==> IsLetter(w[i]))
      || (|w| >= 2 && w[|w| - 1] == '\n' && forall i :: 0 <= i < |w| - 1 ==> IsLetter(w[i]))
  {
  }

  // ---------------------------------------------------------------------
  // v.encode("utf-8", "ignore") and b.decode("utf-8") on ASCII text

  predicate IsAscii(w: string)
  {
    forall i :: 0 <= i < |w| ==> w[i] < 128 as char
  }

  lemma ValidWordAscii(w: string)
    requires IsValidWord(w)
    ensures IsAscii(w)
  {
  }

  /** UTF-8 encodes an ASCII character as the one byte of its code. */
  function Encode(w: string): (b: seq<byte>)
    requires IsAscii(w)
    ensures |b| == |w|
    ensures forall i :: 0 <= i < |b| ==> b[i] < 128 && b[i] as int == w[i] as int
  {
    seq(|w|, i requires 0 <= i < |w| => w[i] as byte)
  }

  /** The characters of the bytes taken one by one. */
  function Chars(b: seq<byte>): (w: string)
    ensures |w| == |b|
    ensures forall i :: 0 <= i < |w| ==> w[i] as int == b[i] as int
  {
    seq(|b|, i requires 0 <= i < |b| => b[i] as char)
  }

  /** UTF-8 decoding of bytes below 128; any other byte belongs to a
      multi-byte sequence, which this model does not decode. */
  function Decode(b: seq<byte>): (r: Option<string>)
    ensures r.Some? <==> forall i :: 0 <= i < |b| ==> b[i] < 128
  {
    if forall i :: 0 <= i < |b| ==> b[i] < 128 then Some(Chars(b)) else None
  }

  lemma DecodeEncode(w: string)
    requires IsAscii(w)
    ensures Decode(Encode(w)) == Some(w)
  {
    assert Chars(Encode(w)) == w;
  }

  lemma EncodeDecode(b: seq<byte>, w: string)
    requires Decode(b) == Some(w)
    ensures IsAscii(w) && Encode(w) == b
  {
    assert Encode(w) == b;
  }

  // ---------------------------------------------------------------------
  // lpal

  /** The keys of the vocabulary that pass is_valid_word, in order. */
  function ValidTerms(ks: seq<string>): (r: seq<string>)
    ensures forall t :: t in r ==> IsValidWord(t)
  {
    if |ks| == 0 then []
    else
      var last := ks[|ks| - 1];
      ValidTerms(ks[..|ks| - 1]) + (if IsValidWord(last) then [last] else [])
  }

  lemma {:induction false} ValidTermsMembers(ks: seq<string>, t: string)
    ensures t in ValidTerms(ks) <==> t in ks && IsValidWord(t)
  {
    if |ks| > 0 {
      var init := ks[..|ks| - 1];
      ValidTermsMembers(init, t);
      assert ks == init + [ks[|ks| - 1]];
    }
  }

  lemma {:induction false} ValidTermsDistinct(ks: seq<string>)
    requires forall p, q :: 0 <= p < q < |ks| ==> ks[p] != ks[q]
    ensures forall p, q :: 0 <= p < q < |ValidTerms(ks)| ==> ValidTerms(ks)[p] != ValidTerms(ks)[q]
  {
    if |ks| > 0 {
      var init, last := ks[..|ks| - 1], ks[|ks| - 1];
      ValidTermsDistinct(init);
      ValidTermsMembers(init, last);
      assert last !in init;
    }
  }

  /** The pairs (encoded word, count) of the words ws of voc. */
  function Entries(voc: Dict<string, int>, ws: seq<string>): (r: seq<(seq<byte>, int)>)
    requires forall t :: t in ws ==> IsValidWord(t)
    ensures |r| == |ws|
  {
    if |ws| == 0 then []
    else
      var last := ws[|ws| - 1];
      ValidWordAscii(last);
      Entries(voc, ws[..|ws| - 1]) + [(Encode(last), Get(voc, last, 0))]
  }

  lemma {:induction false} EntriesAt(voc: Dict<string, int>, ws: seq<string>, p: int)
    requires forall t :: t in ws ==> IsValidWord(t)
    requires 0 <= p < |ws|
    ensures IsAscii(ws[p]) && Entries(voc, ws)[p] == (Encode(ws[p]), Get(voc, ws[p], 0))
  {
    ValidWordAscii(ws[p]);
    if p < |ws| - 1 {
      EntriesAt(voc, ws[..|ws| - 1], p);
    }
  }

  /** lpal = [(v.encode(), voc[v]) for v in voc if is_valid_word(v)]. */
  method ValidEntries(voc: Dict<string, int>) returns (lpal: seq<(seq<byte>, int)>)
    requires Valid(voc)
    ensures lpal == Entries(voc, ValidTerms(voc.keys))
  {
    lpal := [];
    for i := 0 to |voc.keys|
      invariant lpal == Entries(voc, ValidTerms(voc.keys[..i]))
    {
      var v := voc.keys[i];
      ghost var ws := ValidTerms(voc.keys[..i]);
      assert voc.keys[..i + 1][..i] == voc.keys[..i];
      if IsValidWord(v) {
        assert ValidTerms(voc.keys[..i + 1]) == ws + [v];
        assert (ws + [v])[..|ws|] == ws;
        assert Get(voc, v, 0) == voc.values[v];
        lpal := lpal + [(Encode(v), voc.values[v])];
      } else {
        assert ValidTerms(voc.keys[..i + 1]) == ws;
      }
    }
    assert voc.keys[..|voc.keys|] == voc.keys;
  }

  /** The words of the entries, decoded. */
  function Words(lpal: seq<(seq<byte>, int)>): (r: seq<string>)
    ensures |r| == |lpal| && forall p :: 0 <= p < |lpal| ==> r[p] == Chars(lpal[p].0)
  {
    seq(|lpal|, p requires 0 <= p < |lpal| => Chars(lpal[p].0))
  }

  /** The entries pair each valid word of voc, once, with its count. */
  ghost predicate Describes(lpal: seq<(seq<byte>, int)>, voc: Dict<string, int>)
  {
    && (forall p :: 0 <= p < |lpal| ==>
          && Decode(lpal[p].0) == Some(Chars(lpal[p].0))
          && IsValidWord(Chars(lpal[p].0))
          && Chars(lpal[p].0) in voc.values
          && lpal[p].1 == voc.values[Chars(lpal[p].0)])
    && (forall p, q :: 0 <= p < q < |lpal| ==> lpal[p].0 != lpal[q].0)
    && (forall t :: t in voc.values && IsValidWord(t) ==> t in Words(lpal))
  }

  ghost function ValidKeys(voc: Dict<string, int>): set<string>
  {
    set t | t in voc.values && IsValidWord(t)
  }

  lemma CharsInjective(a: seq<byte>, b: seq<byte>)
    requires Chars(a) == Chars(b)
    ensures a == b
  {
    assert |a| == |b|;
    forall i | 0 <= i < |a| ensures a[i] == b[i] {
      assert Chars(a)[i] == Chars(b)[i];
    }
  }

  /** The entries of distinct valid words of voc describe voc when every
      valid word of voc is among them. */
  lemma EntriesOfWords(voc: Dict<string, int>, ws: seq<string>)
    requires forall t :: t in ws ==> IsValidWord(t)
    requires forall p :: 0 <= p < |ws| ==> ws[p] in voc.values
    requires forall p, q :: 0 <= p < q < |ws| ==> ws[p] != ws[q]
    requires forall t :: t in voc.values && IsValidWord(t) ==> t in ws
    ensures Describes(Entries(voc, ws), voc)
  {
    var lpal := Entries(voc, ws);
    forall p | 0 <= p < |lpal|
      ensures Chars(lpal[p].0) == ws[p] && Decode(lpal[p].0) == Some(ws[p]) && lpal[p].1 == voc.values[ws[p]]
    {
      EntriesAt(voc, ws, p);
      DecodeEncode(ws[p]);
    }
    forall p, q | 0 <= p < q < |lpal| ensures lpal[p].0 != lpal[q].0 {
      assert Chars(lpal[p].0) != Chars(lpal[q].0);
    }
    forall t | t in voc.values && IsValidWord(t) ensures t in Words(lpal) {
      var p :| 0 <= p < |ws| && ws[p] == t;
      assert Words(lpal)[p] == t;
    }
  }

  /** lpal holds every valid term of the vocabulary once, with its count. */
  lemma EntriesDescribe(voc: Dict<string, int>)
    requires Valid(voc)
    ensures Describes(Entries(voc, ValidTerms(voc.keys)), voc)
    ensures |Entries(voc, ValidTerms(voc.keys))| == |ValidKeys(voc)|
  {
    var ws := ValidTerms(voc.keys);
    ValidTermsDistinct(voc.keys);
    forall t ensures t in ValidKeys(voc) <==> t in ws {
      ValidTermsMembers(voc.keys, t);
    }
    assert forall p :: 0 <= p < |ws| ==> ws[p] in ValidKeys(voc);
    EntriesOfWords(voc, ws);
    assert ValidKeys(voc) == set t | t in ws;
    DistinctCard(ws);
  }

  /** Reordering the entries keeps what they describe. */
  lemma PermutedDescribes(lpal: seq<(seq<byte>, int)>, r: seq<(seq<byte>, int)>, voc: Dict<string, int>)
    requires Describes(lpal, voc) && multiset(r) == multiset(lpal)
    ensures Describes(r, voc) && |r| == |lpal|
  {
    assert |r| == |multiset(r)| == |lpal|;
    forall p | 0 <= p < |r| ensures r[p] in lpal {
      assert r[p] in multiset(lpal);
    }
    PermutedDistinct(lpal, r, voc);
    PermutedWords(lpal, r);
  }

  /** A reordering has the same words. */
  lemma PermutedWords(lpal: seq<(seq<byte>, int)>, r: seq<(seq<byte>, int)>)
    requires multiset(r) == multiset(lpal)
    ensures forall t :: t in Words(lpal) ==> t in Words(r)
  {
    forall t | t in Words(lpal) ensures t in Words(r) {
      var q :| 0 <= q < |lpal| && Words(lpal)[q] == t;
      assert lpal[q] in multiset(r);
      var p :| 0 <= p < |r| && r[p] == lpal[q];
      assert Words(r)[p] == t;
    }
  }

  /** Two entries of a reordering with the same word are the same entry,
      which occurs once. */
  lemma PermutedDistinct(lpal: seq<(seq<byte>, int)>, r: seq<(seq<byte>, int)>, voc: Dict<string, int>)
    requires Describes(lpal, voc) && multiset(r) == multiset(lpal)
    requires forall p :: 0 <= p < |r| ==> r[p] in lpal
    ensures forall p, q :: 0 <= p < q < |r| ==> r[p].0 != r[q].0
  {
    forall p, q | 0 <= p < q < |r| ensures r[p].0 != r[q].0 {
      if r[p].0 == r[q].0 {
        assert r[p] == r[q];
        CountTwo(r, p, q);
        CountAtMostOne(lpal, r[p]);
        assert false;
      }
    }
  }

  // ---------------------------------------------------------------------
  // sorting and the CSV rows

  /** key=lambda x: x[0].decode("utf-8"): every entry is ASCII, so its
      decoding is the characters of its bytes. */
  function WordLe(a: (seq<byte>, int), b: (seq<byte>, int)): bool
  {
    LessEq(Chars(a.0), Chars(b.0))
  }

  /** key=lambda x: x[1]. */
  function CountLe(a: (seq<byte>, int), b: (seq<byte>, int)): bool
  {
    a.1 <= b.1
  }

  lemma WordLePreorder(s: seq<(seq<byte>, int)>)
    ensures PreorderOn(s, WordLe)
  {
    forall x, y | x in s && y in s ensures WordLe(x, y) || WordLe(y, x) {
      LessTotal(Chars(x.0), Chars(y.0));
    }
    forall x, y, z | x in s && y in s && z in s && WordLe(x, y) && WordLe(y, z) ensures WordLe(x, z) {
      if Chars(x.0) != Chars(y.0) && Chars(y.0) != Chars(z.0) {
        LessTransitive(Chars(x.0), Chars(y.0), Chars(z.0));
      }
    }
  }

  lemma CountLePreorder(s: seq<(seq<byte>, int)>)
    ensures PreorderOn(s, CountLe)
  {
  }

  /** lpal.sort(...) by word when alpha is set, by count otherwise. */
  function SortEntries(lpal: seq<(seq<byte>, int)>, alpha: bool): (r: seq<(seq<byte>, int)>)
    ensures multiset(r) == multiset(lpal)
    ensures alpha ==> SortedBy(r, WordLe)
    ensures !alpha ==> SortedBy(r, CountLe)
  {
    if alpha then
      WordLePreorder(lpal);
      SortBySorted(lpal, WordLe);
      SortBy(lpal, WordLe)
    else
      CountLePreorder(lpal);
      SortBySorted(lpal, CountLe);
      SortBy(lpal, CountLe)
  }

  /** A row of the CSV file. */
  datatype Row = Header | Line(count: int, word: string)

  /** The rows written: the header, then [cnt, pal.decode("utf-8")] for
      each entry; None when some entry does not decode. */
  method CsvRows(lpal: seq<(seq<byte>, int)>) returns (rows: Option<seq<Row>>)
    ensures rows.None? <==> exists p :: 0 <= p < |lpal| && Decode(lpal[p].0).None?
    ensures rows.Some? ==>
      && |rows.value| == |lpal| + 1
      && rows.value[0] == Header
      && forall p :: 0 <= p < |lpal| ==> rows.value[p + 1] == Line(lpal[p].1, Decode(lpal[p].0).value)
  {
    var out := [Header];
    for i := 0 to |lpal|
      invariant |out| == i + 1 && out[0] == Header
      invariant forall p :: 0 <= p < i ==> Decode(lpal[p].0).Some? && out[p + 1] == Line(lpal[p].1, Decode(lpal[p].0).value)
    {
      var pal, cnt := lpal[i].0, lpal[i].1;
      var word := Decode(pal);
      if word.None? {
        return None;
      }
      out := out + [Line(cnt, word.value)];
    }
    rows := Some(out);
  }

  /** The valid terms seen in the index. */
  ghost function ValidSeen(docs: seq<TermVector>): set<string>
  {
    set t | t in Seen(docs) && IsValidWord(t)
  }

  /** The script on a scan outcome: None when the index does not exist;
      otherwise the CSV rows, one per valid term seen, with its total
      frequency, by word when alpha is set and by count otherwise, and
      count = len(lpal) = the number of those rows. */
  method FilterIndex(index: Scan, alpha: bool) returns (rows: Option<seq<Row>>, count: nat)
    requires WellFormedScan(index)
    ensures rows.None? <==> index.NotFoundError?
    ensures index.NotFoundError? ==> count == 0
    ensures rows.Some? ==>
      && |rows.value| == count + 1 == |ValidSeen(index.docs)| + 1
      && rows.value[0] == Header
      && (forall p :: 1 <= p < |rows.value| ==>
            && rows.value[p].Line?
            && rows.value[p].word in ValidSeen(index.docs)
            && rows.value[p].count == Total(index.docs, rows.value[p].word))
      && (forall p, q :: 1 <= p < q < |rows.value| ==> rows.value[p].word != rows.value[q].word)
      && (alpha ==> forall p, q :: 1 <= p < q < |rows.value| ==> Less(rows.value[p].word, rows.value[q].word))
      && (!alpha ==> forall p, q :: 1 <= p < q < |rows.value| ==> rows.value[p].count <= rows.value[q].count)
  {
    if index.NotFoundError? {
      return None, 0;
    }
    var voc := BuildVocabulary(index.docs);
    VocabularyEntries(index.docs, voc);
    var lpal := ValidEntries(voc);
    EntriesDescribe(voc);
    var sorted := SortEntries(lpal, alpha);
    PermutedDescribes(lpal, sorted, voc);
    rows := CsvRows(sorted);
    count := |lpal|;
    assert ValidKeys(voc) == ValidSeen(index.docs);
    RowsOfEntries(sorted, rows, voc, index.docs, alpha);
  }

  /** The rows written for entries that describe the vocabulary. */
  lemma RowsOfEntries(sorted: seq<(seq<byte>, int)>, rows: Option<seq<Row>>, voc: Dict<string, int>,
                      docs: seq<TermVector>, alpha: bool)
    requires Describes(sorted, voc)
    requires alpha ==> SortedBy(sorted, WordLe)
    requires !alpha ==> SortedBy(sorted, CountLe)
    requires forall t :: t in voc.values <==> t in Seen(docs)
    requires forall t :: t in voc.values ==> voc.values[t] == Total(docs, t)
    requires rows.None? <==> exists p :: 0 <= p < |sorted| && Decode(sorted[p].0).None?
    requires rows.Some? ==>
      && |rows.value| == |sorted| + 1
      && forall p :: 0 <= p < |sorted| ==> rows.value[p + 1] == Line(sorted[p].1, Decode(sorted[p].0).value)
    ensures rows.Some?
    ensures forall p :: 1 <= p < |rows.value| ==>
      && rows.value[p].Line?
      && rows.value[p].word in ValidSeen(docs)
      && rows.value[p].count == Total(docs, rows.value[p].word)
    ensures forall p, q :: 1 <= p < q < |rows.value| ==> rows.value[p].word != rows.value[q].word
    ensures alpha ==> forall p, q :: 1 <= p < q < |rows.value| ==> Less(rows.value[p].word, rows.value[q].word)
    ensures !alpha ==> forall p, q :: 1 <= p < q < |rows.value| ==> rows.value[p].count <= rows.value[q].count
  {
    assert forall p :: 0 <= p < |sorted| ==> Decode(sorted[p].0).Some?;
    var out := rows.value;
    forall p | 1 <= p < |out| ensures out[p] == Line(sorted[p - 1].1, Chars(sorted[p - 1].0)) {
      assert out[(p - 1) + 1] == Line(sorted[p - 1].1, Decode(sorted[p - 1].0).value);
    }
    forall p, q | 1 <= p < q < |out| ensures out[p].word != out[q].word {
      if out[p].word == out[q].word {
        CharsInjective(sorted[p - 1].0, sorted[q - 1].0);
      }
    }
    if alpha {
      forall p, q | 1 <= p < q < |out| ensures Less(out[p].word, out[q].word) {
        assert WordLe(sorted[p - 1], sorted[q - 1]);
      }
    } else {
      forall p, q | 1 <= p < q < |out| ensures out[p].count <= out[q].count {
        assert CountLe(sorted[p - 1], sorted[q - 1]);
      }
    }
  }
}
