/** The two index statistics of the ElasticFunctionals helper: the number of
    distinct terms of an index and the list of (term, total frequency)
    pairs by decreasing frequency.  The helper object only holds the search
    client, which is replaced here by the scan outcome passed in. */
module CountWords {
  import opened Dicts
  import opened Sorting
  import opened Vocabulary

  /** count_words: len([(v, voc[v]) for v in voc]) after the scan, 0 when
      the index does not exist. */
  method CountWords(index: Scan) returns (count: nat)
    requires WellFormedScan(index)
    ensures index.NotFoundError? ==> count == 0
    ensures index.Documents? ==> count == |Seen(index.docs)|
  {
    count := 0;
    if index.Documents? {
      var voc := BuildVocabulary(index.docs);
      var lpal := Items(voc);
      count := |lpal|;
      KeysCard(voc);
      assert voc.values.Keys == Seen(index.docs);
    }
  }

  /** The sort key of count_word_frequency: by count, largest first. */
  function CountGe(a: (string, int), b: (string, int)): bool
  {
    a.1 >= b.1
  }

  lemma CountGePreorder(s: seq<(string, int)>)
    ensures PreorderOn(s, CountGe)
  {
  }

  /** count_word_frequency: every term seen in the index once, paired with
      its total frequency, counts non-increasing; [] when the index does
      not exist. */
  method CountWordFrequency(index: Scan) returns (sortedWords: seq<(string, int)>)
    requires WellFormedScan(index)
    ensures index.NotFoundError? ==> sortedWords == []
    ensures index.Documents? ==>
      && |sortedWords| == |Seen(index.docs)|
      && SortedBy(sortedWords, CountGe)
      && (forall p, q :: 0 <= p < q < |sortedWords| ==> sortedWords[p].0 != sortedWords[q].0)
      && (forall p :: 0 <= p < |sortedWords| ==>
            sortedWords[p].0 in Seen(index.docs) && sortedWords[p].1 == Total(index.docs, sortedWords[p].0))
      && (forall t :: t in Seen(index.docs) ==> t in KeysOf(sortedWords))
  {
    if index.NotFoundError? {
      return [];
    }
    var voc := BuildVocabulary(index.docs);
    var items := Items(voc);
    sortedWords := SortBy(items, CountGe);
    CountGePreorder(items);
    SortBySorted(items, CountGe);
    PermutedItems(voc, sortedWords);
    KeysCard(voc);
    assert voc.values.Keys == Seen(index.docs);
    VocabularyEntries(index.docs, voc);
  }
}
