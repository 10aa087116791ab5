/** The vocabulary fold shared by the word-counting scripts: the term
    vector of every document of an index is requested in turn and each
    term's frequency is added to a dict from terms to counts.  The
    documents of the index and the outcome of each term-vector request are
    inputs. */
module Vocabulary {
  import opened Dicts

  /** What the term-vector request gives for one document. */
  datatype TermVector =
    | TransportError                        // the request raised: skipped
    | NoText                                // no 'text' field in the reply
    | Text(terms: Dict<string, int>)        // term -> term_freq

  /** What scanning an index gives: NotFoundError when the index does not
      exist, otherwise the term vectors of its documents in scan order. */
  datatype Scan =
    | NotFoundError
    | Documents(docs: seq<TermVector>)

  predicate WellFormed(doc: TermVector)
  {
    doc.Text? ==> Valid(doc.terms)
  }

  predicate WellFormedScan(index: Scan)
  {
    index.Documents? ==> forall k :: 0 <= k < |index.docs| ==> WellFormed(index.docs[k])
  }

  /** The frequency a document contributes for term t. */
  function Freq(doc: TermVector, t: string): int
  {
    if doc.Text? && t in doc.terms.values then doc.terms.values[t] else 0
  }

  /** The terms a document contributes. */
  ghost function TermsOf(doc: TermVector): set<string>
  {
    if doc.Text? then doc.terms.values.Keys else {}
  }

  /** The sum of t's frequencies over the documents. */
  function Total(docs: seq<TermVector>, t: string): int
  {
    if |docs| == 0 then 0 else Total(docs[..|docs| - 1], t) + Freq(docs[|docs| - 1], t)
  }

  /** Every term of some document. */
  ghost function Seen(docs: seq<TermVector>): set<string>
  {
    if |docs| == 0 then {} else Seen(docs[..|docs| - 1]) + TermsOf(docs[|docs| - 1])
  }

  /** A term no document contains totals 0. */
  lemma {:induction false} TotalUnseen(docs: seq<TermVector>, t: string)
    requires t !in Seen(docs)
    ensures Total(docs, t) == 0
  {
    if |docs| > 0 {
      TotalUnseen(docs[..|docs| - 1], t);
    }
  }

  /** A skipped document adds nothing to any total and no term. */
  lemma SkippedDocument(docs: seq<TermVector>, doc: TermVector, t: string)
    requires !doc.Text?
    ensures Total(docs + [doc], t) == Total(docs, t)
    ensures Seen(docs + [doc]) == Seen(docs)
  {
    assert (docs + [doc])[..|docs|] == docs;
  }

  /** `voc[t] += f` when t is present, `voc[t] = f` otherwise. */
  function AddTerm(voc: Dict<string, int>, t: string, f: int): (r: Dict<string, int>)
    ensures Valid(voc) ==> Valid(r)
    ensures forall u :: u in r.values <==> u in voc.values || u == t
    ensures forall u :: Get(r, u, 0) == Get(voc, u, 0) + (if u == t then f else 0)
  {
    if t in voc.values then Put(voc, t, voc.values[t] + f) else Put(voc, t, f)
  }

  /** voc after the terms ks of a term vector were added one by one. */
  function AddAll(voc: Dict<string, int>, terms: Dict<string, int>, ks: seq<string>): (r: Dict<string, int>)
    ensures Valid(voc) ==> Valid(r)
  {
    if |ks| == 0 then voc
    else
      var k := ks[|ks| - 1];
      AddTerm(AddAll(voc, terms, ks[..|ks| - 1]), k, Get(terms, k, 0))
  }

  /** Adding distinct terms adds each one's frequency once and keeps the
      existing keys at the front. */
  lemma {:induction false} AddAllFacts(voc: Dict<string, int>, terms: Dict<string, int>, ks: seq<string>)
    requires forall p, q :: 0 <= p < q < |ks| ==> ks[p] != ks[q]
    ensures forall t :: t in AddAll(voc, terms, ks).values <==> t in voc.values || t in ks
    ensures forall t :: Get(AddAll(voc, terms, ks), t, 0) == Get(voc, t, 0) + (if t in ks then Get(terms, t, 0) else 0)
  {
    if |ks| > 0 {
      var init, k := ks[..|ks| - 1], ks[|ks| - 1];
      AddAllFacts(voc, terms, init);
      var prev, r := AddAll(voc, terms, init), AddAll(voc, terms, ks);
      assert r == AddTerm(prev, k, Get(terms, k, 0));
      assert k !in init;
      forall t ensures t in ks <==> t in init || t == k {
        assert ks == init + [k];
      }
    }
  }

  /** The loop over the terms of one term vector. */
  method AddTerms(voc: Dict<string, int>, terms: Dict<string, int>) returns (r: Dict<string, int>)
    ensures r == AddAll(voc, terms, terms.keys)
  {
    r := voc;
    for i := 0 to |terms.keys|
      invariant r == AddAll(voc, terms, terms.keys[..i])
    {
      assert terms.keys[..i + 1][..i] == terms.keys[..i];
      var t := terms.keys[i];
      r := AddTerm(r, t, Get(terms, t, 0));
    }
    assert terms.keys[..|terms.keys|] == terms.keys;
  }

  /** One document's terms: a term already present has its frequency
      added, a new term is inserted with it.  A document that failed or
      has no text leaves the vocabulary as it was. */
  method AddDocument(voc: Dict<string, int>, doc: TermVector) returns (r: Dict<string, int>)
    requires Valid(voc) && WellFormed(doc)
    ensures Valid(r)
    ensures forall t :: t in r.values <==> t in voc.values || t in TermsOf(doc)
    ensures forall t :: Get(r, t, 0) == Get(voc, t, 0) + Freq(doc, t)
    ensures !doc.Text? ==> r == voc
  {
    if doc.Text? {
      r := AddTerms(voc, doc.terms);
      AddAllFacts(voc, doc.terms, doc.terms.keys);
      assert forall t :: t in doc.terms.keys <==> t in doc.terms.values;
    } else {
      r := voc;
    }
  }

  /** The scan over the index: voc.get(t, 0) is t's total over all
      documents, and the keys are exactly the terms seen. */
  method BuildVocabulary(docs: seq<TermVector>) returns (voc: Dict<string, int>)
    requires forall k :: 0 <= k < |docs| ==> WellFormed(docs[k])
    ensures Valid(voc)
    ensures forall t :: t in voc.values <==> t in Seen(docs)
    ensures forall t :: Get(voc, t, 0) == Total(docs, t)
  {
    voc := Empty();
    for i := 0 to |docs|
      invariant Valid(voc)
      invariant forall t :: t in voc.values <==> t in Seen(docs[..i])
      invariant forall t :: Get(voc, t, 0) == Total(docs[..i], t)
    {
      assert docs[..i + 1][..i] == docs[..i];
      voc := AddDocument(voc, docs[i]);
    }
    assert docs[..|docs|] == docs;
  }

  /** The vocabulary holds exactly the terms seen, each with its total. */
  lemma VocabularyEntries(docs: seq<TermVector>, voc: Dict<string, int>)
    requires Valid(voc) && forall t :: t in voc.values <==> t in Seen(docs)
    requires forall t :: Get(voc, t, 0) == Total(docs, t)
    ensures forall t :: t in voc.values ==> voc.values[t] == Total(docs, t)
    ensures forall t :: t !in Seen(docs) ==> Total(docs, t) == 0
  {
    forall t | t !in Seen(docs) ensures Total(docs, t) == 0 {
      TotalUnseen(docs, t);
    }
    assert forall t :: t in voc.values ==> Get(voc, t, 0) == voc.values[t];
  }
}
