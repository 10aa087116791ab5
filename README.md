# Information-retrieval lab scripts, modelled in Dafny

This project models the computational core of four coursework labs built
on an Elasticsearch index:

- **PageRank over airports** (`Lab/Lab4/PageRank.py`, `Lab/Lab4/PageRankPlotter.py`).
  - Airports and routes are read line by line into an airport list, a code hash and per-airport route lists.
  - The damped, column-stochastic transition matrix `Pa` is built in place.
  - Power iteration runs until two iterates are closer than `1e-6`.
  - The plotting variant keeps the history of iterates, counts iterations from 1 and does not renormalise.
- **TF-IDF viewer** (`Lab/Lab3/TFIDFViewer.py`).
  - The merge-join `cosine_similarity` over term-sorted weight lists.
  - `normalize`.
  - The sorted term/document-frequency lists of `document_term_vector`.
  - The tf-idf weighting of `to_tfidf`.
- **Rocchio query rewriting** (`Lab/Lab3/Rocchio.py`).
  - `rocchio_update`: union of the query and document-vector terms, weighted scores, sort by score, keep the top `r`.
  - `normalize` on dicts.
  - Summing the document vectors.
  - Parsing a query of `term^weight` tokens (`queryToDict`).
  - Printing one back (`dictToquery`, `query_to_string`).
- **Word counting and filtering** (`Lab/Lab2/CountWords.py`, `Lab/Lab1/filter.py`).
  - The vocabulary fold over the term vectors of an index.
  - The distinct-term count and the frequency list.
  - The `[A-Za-z]+` filter, the UTF-8 encode/decode of the kept words, the sort by word or by count, and the CSV rows.

Python dicts are modelled as insertion-ordered `Dict`s: a key sequence plus a map (`dicts.dfy`).
`sorted` and `list.sort` are one insertion sort under a comparison (`sorting.dfy`).
Floating-point numbers are exact `real`s.

Modules:
- `wrappers.dfy`: Option and Result.
- `text.dfy`: `str.split`, `join`, `s[1:-1]` and string order.
- `real_sums.dfy`: finite sums.
- `matrices.dfy`: `np.dot`, the vector sum, the norm.
- `page_rank.dfy`, `page_rank_plotter.dfy`.
- `tfidf_viewer.dfy`, `rocchio.dfy`.
- `vocabulary.dfy`: the fold shared by both word-counting scripts.
- `count_words.dfy`, `filter.dfy`.

## Model

| member | source | states |
|---|---|---|
| PageRank.ParseAirportOfFields | Lab/Lab4/PageRank.py:45-49 | A line of comma-free fields is accepted iff it has at least 5 fields and the fifth is 5 characters long. The code is that field without its first and last character. The name is fields 2 and 4, stripped the same way, joined by ", ". |
| PageRank.ParseRouteOfFields | Lab/Lab4/PageRank.py:66-68 | A route line passes the format test iff it has at least 5 fields and fields 3 and 5 have 3 characters each. They are then the source and target codes. |
| PageRank.Airport.constructor | Lab/Lab4/PageRank.py:22-28 | A new airport has the given code, name and index, and no routes, route hash or out-weight. |
| PageRank.Network.Append | Lab/Lab4/PageRank.py:54-55 | The airport goes at the end of the list and the hash maps its code to it; the graph invariant is kept. The route table gains one empty row for it. |
| PageRank.AppendKeepsConsistent | Lab/Lab4/PageRank.py:53-55 | Appending an airport whose index is the list length keeps the invariant: pageIndex is the position, and the hash maps each code to the last listed airport with that code. |
| PageRank.Network.ReadAirport | Lab/Lab4/PageRank.py:43-55 | A line appends exactly one fresh airport holding its parsed code and name iff it parses; a rejected line changes neither list nor hash. The new airport is blank, as Airport() leaves it (:24-26): no routes, an empty route hash, out-weight 0. So the route table gains one empty row. |
| PageRank.Network.ReadAirports | Lab/Lab4/PageRank.py:38-57 | cont is the number of accepted lines. The list grows by exactly those airports, in file order; duplicate codes are appended again. Earlier airports are kept. Every new airport is fresh and blank: no routes, an empty route hash, out-weight 0. |
| PageRank.Network.BlankRouteRows | Lab/Lab4/PageRank.py:24-26 | When every airport after the first n is blank, the route table is the first n rows followed by empty rows. |
| PageRank.LoadRoutesInvariant | Lab/Lab4/PageRank.py:64-80 | After any route lines, no airport has two routes to one target, rows are only appended to, and every new target is a known code. |
| PageRank.RepeatedRouteAcceptedOnce | Lab/Lab4/PageRank.py:73-74 | A route line read a second time leaves the table and the accepted count as they were after the first copy. So it is accepted exactly once when the first copy is accepted, and never otherwise. |
| PageRank.AddEdgeKeepsRoutesOk | Lab/Lab4/PageRank.py:73-77 | Adding an edge to a new target keeps outweight == len(routes), keeps routeHash giving each target's position, and keeps targets distinct. |
| PageRank.Network.AddEdge | Lab/Lab4/PageRank.py:75-77 | The route table changes only in the source's row, which gets the target code appended; the invariant is kept. |
| PageRank.Network.EdgeAppended | Lab/Lab4/PageRank.py:75-77 | Suppose a's routes, route hash and out-weight gain the edge to b, and every other airport is unchanged. Then the invariant holds, and only a's row of the old table gains b's code. |
| PageRank.Network.ReadRoute | Lab/Lab4/PageRank.py:66-78 | A route line is accepted iff both fields are 3 characters, both codes are known, and the source has no route to the target yet. Otherwise the route table is unchanged. |
| PageRank.Network.ReadRoutes | Lab/Lab4/PageRank.py:60-82 | The route table after the file is the line-by-line fold LoadRoutes of the one before, and cont is the number of accepted lines. |
| PageRank.LoadNetwork | Lab/Lab4/PageRank.py:131-132 | readAirports then readRoutes on an empty network. The airports are the accepted airport lines, in order. The route table and accepted count are LoadRoutes of the route lines over a table of empty rows. |
| PageRank.Network.AdjacencyWellFormed | Lab/Lab4/PageRank.py:95-97 | Route targets index listed airports, and no column lists a row twice. |
| PageRank.FillColumn | Lab/Lab4/PageRank.py:93 | Column i of P becomes v everywhere; every other entry is unchanged. |
| PageRank.FillRouteColumn | Lab/Lab4/PageRank.py:95-97 | Column i gets 1/outweight at each route target's row; every other entry is unchanged. |
| PageRank.TransitionArray | Lab/Lab4/PageRank.py:89-97 | The P filled in place is the transition matrix: 1/n in a column without routes, otherwise 1/outweight at the targets and 0 elsewhere. |
| PageRank.TransitionColumnSum | Lab/Lab4/PageRank.py:89-97 | Every column of P sums to 1. |
| PageRank.DampedColumnStochastic | Lab/Lab4/PageRank.py:100 | Every column of Pa = 0.15/n + 0.85 P sums to 1. |
| PageRank.DampedLowerBound | Lab/Lab4/PageRank.py:100 | Every entry of Pa is at least 0.15/n. |
| PageRank.Network.GetProbabilityMatrix | Lab/Lab4/PageRank.py:84-101 | The result is the damped matrix of the network's adjacency. |
| PageRank.UniformSum | Lab/Lab4/PageRank.py:107 | The start vector 1/n sums to 1. |
| PageRank.Step | Lab/Lab4/PageRank.py:113-114 | One pass, Pa x divided by its sum, keeps the length and a sum of 1. |
| PageRank.IteratePositive | Lab/Lab4/PageRank.py:107-114 | Every iterate sums to 1 and has only positive entries. |
| PageRank.PowerIteration | Lab/Lab4/PageRank.py:112-118 | iterations counts the passes that missed the threshold. x is the iterate reached. On convergence, the pass after them meets the threshold. |
| PageRank.Network.ComputePageRanks | Lab/Lab4/PageRank.py:104-122 | On convergence, each airport's pageRank is its entry of the iterate before the one that met the threshold. No earlier pass met it. |
| PageRank.Network.StoreRanks | Lab/Lab4/PageRank.py:120-121 | Airport k gets x[k]. |
| Matrices.MatVecKeepsSum | Lab/Lab4/PageRank.py:113 | Multiplying by a column-stochastic matrix keeps the sum of the vector. |
| Matrices.MatVecLowerBound | Lab/Lab4/PageRank.py:113 | With entries at least c, a probability vector is mapped to entries at least c. |
| Matrices.NormalizeUnitSum | Lab/Lab4/PageRank.py:114 | Dividing by a sum of 1 changes nothing. |
| PageRankPlotter.PlainStep | Lab/Lab4/PageRankPlotter.py:118 | x_new = Pa x, with no renormalisation, still sums to 1. |
| PageRankPlotter.PlainIterate | Lab/Lab4/PageRankPlotter.py:109-118 | Every iterate has n entries and sums to 1. |
| PageRankPlotter.PlainIterateAgrees | Lab/Lab4/PageRankPlotter.py:118 | Over exact reals the plotter's iterates equal the renormalised ones of PageRank.py. |
| PageRankPlotter.Iterates | Lab/Lab4/PageRankPlotter.py:113-119 | The history after n records is the first n iterates, starting with the uniform vector. |
| PageRankPlotter.SameStoppingPass | Lab/Lab4/PageRankPlotter.py:115-123 | Both scripts stop at the same pass: the plotter's count is one more, and both store the same vector. |
| PageRankPlotter.PlotterIteration | Lab/Lab4/PageRankPlotter.py:113-123 | One vector is appended per pass before the test. On exit, history has iterations + 1 vectors when converged. x is iterate iterations - 1. The earlier passes missed the threshold. |
| PageRankPlotter.ComputePageRanks | Lab/Lab4/PageRankPlotter.py:104-129 | On convergence, pageRank is the iterate before the one that met the threshold. The history holds the iterates in order. |
| TFIDFViewer.CosineSimilarity | Lab/Lab3/TFIDFViewer.py:90-110 | For lists strictly ascending by term, the merge returns the sum of w1*w2 over the terms in both lists. It stops within len(tw1)+len(tw2) passes. |
| TFIDFViewer.CommonDotSymmetric | Lab/Lab3/TFIDFViewer.py:98-110 | The similarity is symmetric in its arguments. |
| TFIDFViewer.CommonDotDisjoint | Lab/Lab3/TFIDFViewer.py:100-110 | Lists with no common term (an empty list in particular) have similarity 0. |
| TFIDFViewer.Normalize | Lab/Lab3/TFIDFViewer.py:80-88 | Same terms in the same order, each weight divided by sqrt of the sum of squares. It fails exactly for a non-empty list with zero norm. |
| TFIDFViewer.NormalizeUnit | Lab/Lab3/TFIDFViewer.py:87-88 | A normalised non-empty list has squared weights summing to 1. |
| TFIDFViewer.Frequencies | Lab/Lab3/TFIDFViewer.py:49-55 | Both dicts get the document's terms, in its order, with their term and doc frequencies. |
| TFIDFViewer.SortedItems | Lab/Lab3/TFIDFViewer.py:56 | sorted(d.items()) is a permutation of the items with strictly ascending terms. |
| TFIDFViewer.SortedItemsContents | Lab/Lab3/TFIDFViewer.py:56 | The sorted items are exactly d's keys, each with its value. |
| TFIDFViewer.SameTerms | Lab/Lab3/TFIDFViewer.py:56 | Two ascending lists over the same terms have identical term sequences. |
| TFIDFViewer.SortedTermFreqs | Lab/Lab3/TFIDFViewer.py:52-56 | sorted(file_td.items()) is the document's sorted terms, each with its term frequency. |
| TFIDFViewer.SortedDocFreqs | Lab/Lab3/TFIDFViewer.py:52-56 | sorted(file_df.items()) is the document's sorted terms, each with its document frequency. |
| TFIDFViewer.DocumentTermVector | Lab/Lab3/TFIDFViewer.py:37-56 | tv is the document's terms in ascending order, each with its term frequency. df holds the same terms in the same order, each with its document frequency, so zip pairs every term with its own df. Without text, both are empty. |
| TFIDFViewer.MaxFreq | Lab/Lab3/TFIDFViewer.py:69 | max_freq bounds every frequency and is one of them. |
| TFIDFViewer.TfBounds | Lab/Lab3/TFIDFViewer.py:69-74 | With positive frequencies every tf is in (0, 1], and the most frequent term has tf 1. |
| TFIDFViewer.TfidfWeights | Lab/Lab3/TFIDFViewer.py:72-76 | Each zipped term gets tf*log2(dcount/df). It fails exactly when it would divide by zero. |
| TFIDFViewer.TfidfOfWeights | Lab/Lab3/TFIDFViewer.py:68-78 | Term p gets tf*log2(dcount/df), with tf = w/max_freq, divided by the norm of all those weights. With a true square root, the result has unit norm. It fails exactly when there are no terms, max_freq or some df is 0, or the norm is 0. |
| TFIDFViewer.TfidfOfTerms | Lab/Lab3/TFIDFViewer.py:72-78 | The weighted vector keeps the terms, in the same ascending order. |
| TFIDFViewer.WeightsOfItems | Lab/Lab3/TFIDFViewer.py:69-76 | Over a document's sorted term and document frequencies, the loop yields the raw tf-idf weights exactly when the document is weighable: it has a term, max_freq is not 0 and no df is 0. |
| TFIDFViewer.TfidfOfDocument | Lab/Lab3/TFIDFViewer.py:58-78 | TfidfOf of a document's sorted terms has the weights, failure cases and unit norm of TfidfOfWeights. It fails on a document without text or terms. When it succeeds, it is strictly ascending and has exactly the document's terms. |
| TFIDFViewer.ToTfidf | Lab/Lab3/TFIDFViewer.py:58-78 | The result is the normalised tf-idf vector TfidfOf of the document's sorted terms. Each weight is tf*log2(dcount/df) over the norm. It fails exactly on an empty document, a zero max_freq, df or norm. With a true square root, it is a unit vector. It is strictly ascending by term, so it meets cosine_similarity's precondition, and covers exactly the document's terms. |
| Rocchio.NormalizeDict | Lab/Lab3/Rocchio.py:51-53 | Same keys in the same order, every value divided by one common norm. It fails exactly for a non-empty dict with zero norm. |
| Rocchio.NormalizeDictItems | Lab/Lab3/Rocchio.py:51-53 | The dict version agrees item by item with the list normalisation of the viewer. |
| Rocchio.NormalizeDictUnit | Lab/Lab3/Rocchio.py:52-53 | A normalised non-empty query has squared weights summing to 1. |
| Rocchio.Union | Lab/Lab3/Rocchio.py:60 | set(a) \| set(b) without repetitions: a term is in it iff it is in either. |
| Rocchio.Scores | Lab/Lab3/Rocchio.py:57-60 | Every term of the query or the document vector, and no other, is scored alpha*q.get(t,0) + (beta/k)*d.get(t,0). |
| Rocchio.Take | Lab/Lab3/Rocchio.py:62 | xs[:r] is the prefix of length min(r, len) for r >= 0, or max(0, len + r) for negative r. |
| Rocchio.RocchioUpdate | Lab/Lab3/Rocchio.py:56-63 | Returns None exactly when k == 0 and the document vector is non-empty, the case where numpy's beta/k weights would be infinite or NaN. Otherwise it returns a valid query. |
| Rocchio.RankedFacts | Lab/Lab3/Rocchio.py:61 | The ranking holds every scored term once with its score, in non-increasing score order. |
| Rocchio.TopRSize | Lab/Lab3/Rocchio.py:62-63 | The kept dict has min(r, n) entries for r >= 0. |
| Rocchio.TopRScores | Lab/Lab3/Rocchio.py:62-63 | Every kept term is a scored term with its score unchanged. |
| Rocchio.TopRDescending | Lab/Lab3/Rocchio.py:61-63 | The kept dict lists its terms by non-increasing score. |
| Rocchio.TopRDominates | Lab/Lab3/Rocchio.py:61-62 | Every kept term scores at least as high as every dropped term. |
| Rocchio.ScoresCard | Lab/Lab3/Rocchio.py:60 | The number of scored terms is the size of the key union. |
| Rocchio.RocchioTopR | Lab/Lab3/Rocchio.py:56-63 | The new query has min(r, \|union\|) entries for r >= 0. Its terms come from the union, with their scores. They are in non-increasing order, and each beats every dropped term. |
| Rocchio.AddDicts | Lab/Lab3/Rocchio.py:119 | The sum of two dicts has the union of their keys, each mapped to a.get(t,0) + b.get(t,0). |
| Rocchio.SumDocVectors | Lab/Lab3/Rocchio.py:116-119 | The summed vector holds exactly the terms of some document, each with the sum of its weights over all documents. |
| Rocchio.ParseTokenCases | Lab/Lab3/Rocchio.py:68-73 | A token without '^' gets weight 1.0. A token parses iff it is key^value with one '^' and a number after it, and then yields that key and value. |
| Rocchio.EntriesOk | Lab/Lab3/Rocchio.py:67-74 | The token list parses iff every token does, and then yields one pair per token in order. |
| Rocchio.EntriesErrPersists | Lab/Lab3/Rocchio.py:67-73 | The first failing token decides the error: later tokens do not matter. |
| Rocchio.QueryToDict | Lab/Lab3/Rocchio.py:65-76 | The loop computes the parsed, de-duplicated and normalised dict, or the first error. |
| Rocchio.QueryDictLast | Lab/Lab3/Rocchio.py:74-76 | A repeated key takes the value of its last token, normalised. |
| Rocchio.QueryDictKeys | Lab/Lab3/Rocchio.py:74-76 | The parsed dict's keys are exactly the tokens' keys. |
| Rocchio.Tokens | Lab/Lab3/Rocchio.py:80-82 | One term^weight token per entry, in dict order. |
| Rocchio.DictToQuery | Lab/Lab3/Rocchio.py:78-83 | The loop emits exactly those tokens. |
| Rocchio.QueryToStringSplits | Lab/Lab3/Rocchio.py:85-86 | With no spaces in terms or numbers, splitting the query string on ' ' gives back the dictToquery tokens. |
| Rocchio.TokenRoundTrip | Lab/Lab3/Rocchio.py:68-81 | A printed token parses back to its term and weight when the term has no '^' and parse inverts show. |
| Rocchio.QueryRoundTrip | Lab/Lab3/Rocchio.py:65-83 | queryToDict(dictToquery(d)) is normalize(d), with the same keys and order, or the zero-norm error exactly when normalize fails. |
| Dicts.DictOfLast | Lab/Lab3/Rocchio.py:74 | In a dict built pair by pair, a key's value comes from its last pair. |
| Dicts.ItemsDictOf | Lab/Lab3/Rocchio.py:63 | dict(d.items()) == d. |
| Dicts.PermutedItems | Lab/Lab2/CountWords.py:78 | Any reordering of d.items() holds every key of d once, with its value. |
| Dicts.KeysCard | Lab/Lab2/CountWords.py:46 | len(d) is the number of distinct keys. |
| Sorting.SortBySorted | Lab/Lab2/CountWords.py:78 | sorted() under a total preorder returns its input in order. |
| Text.SplitJoin | Lab/Lab4/PageRank.py:45 | Splitting comma-joined comma-free fields gives the fields back. |
| Vocabulary.AddTerm | Lab/Lab2/CountWords.py:31-34 | One term update adds f to t's count (inserting t at 0 first if absent) and leaves every other term alone. |
| Vocabulary.AddAllFacts | Lab/Lab2/CountWords.py:30-34 | Adding the distinct terms of a vector adds each one's frequency exactly once and adds exactly those terms. |
| Vocabulary.AddTerms | Lab/Lab2/CountWords.py:30-34 | The inner loop applies the term updates in the vector's order. |
| Vocabulary.AddDocument | Lab/Lab2/CountWords.py:27-36 | A document adds its frequencies; one that raised TransportError or has no text leaves the vocabulary unchanged. |
| Vocabulary.SkippedDocument | Lab/Lab2/CountWords.py:35-36 | A skipped document changes no total and adds no term. |
| Vocabulary.TotalUnseen | Lab/Lab2/CountWords.py:31-34 | A term no document contains has total 0. |
| Vocabulary.BuildVocabulary | Lab/Lab2/CountWords.py:23-36 | The vocabulary's keys are exactly the terms seen, and voc.get(t, 0) is t's total term_freq over all documents. |
| Vocabulary.VocabularyEntries | Lab/Lab2/CountWords.py:31-34 | Every key maps to its total. |
| CountWords.CountWords | Lab/Lab2/CountWords.py:14-51 | The number of distinct terms seen, or 0 when the index does not exist. |
| CountWords.CountWordFrequency | Lab/Lab2/CountWords.py:53-83 | Every term seen appears exactly once, with its total, by non-increasing count. A missing index gives []. |
| Filter.LetterRun | Lab/Lab1/filter.py:31 | The length of the leading run of ASCII letters. |
| Filter.IsValidWordIff | Lab/Lab1/filter.py:29-31 | A word is valid iff it is a non-empty run of ASCII letters, optionally followed by one final newline (Python's `$`). |
| Filter.ValidWordAscii | Lab/Lab1/filter.py:63 | Valid words are ASCII. |
| Filter.Encode | Lab/Lab1/filter.py:63 | UTF-8 of an ASCII word is one byte per character, with the same code. |
| Filter.Decode | Lab/Lab1/filter.py:76 | Decoding succeeds exactly on bytes below 128. |
| Filter.DecodeEncode | Lab/Lab1/filter.py:63-76 | Decoding the encoding of an ASCII word gives the word back. |
| Filter.EncodeDecode | Lab/Lab1/filter.py:76 | Bytes that decode are the encoding of the decoded word. |
| Filter.ValidTermsMembers | Lab/Lab1/filter.py:61-62 | The kept terms are exactly the valid vocabulary keys. |
| Filter.ValidTermsDistinct | Lab/Lab1/filter.py:61-62 | Kept terms do not repeat. |
| Filter.EntriesAt | Lab/Lab1/filter.py:63 | Entry p is the encoding of the p-th kept word with its count. |
| Filter.ValidEntries | Lab/Lab1/filter.py:59-63 | The loop appends, in vocabulary order, one (encoded word, count) entry per valid term. |
| Filter.EntriesDescribe | Lab/Lab1/filter.py:59-63 | lpal holds every valid term once, decodable, with its count. Its length is the number of valid terms. |
| Filter.PermutedDescribes | Lab/Lab1/filter.py:66-69 | Sorting lpal in place keeps all of that. |
| Filter.SortEntries | Lab/Lab1/filter.py:66-69 | The sorted list is a permutation of lpal, ordered by decoded word with alpha and by count otherwise. |
| Filter.CsvRows | Lab/Lab1/filter.py:72-76 | The header row, then one (count, decoded word) row per entry in order. It fails exactly when a word does not decode. |
| Filter.RowsOfEntries | Lab/Lab1/filter.py:66-76 | The rows of the sorted lpal hold each valid term once with its total. The words are strictly ascending with alpha; otherwise counts are non-decreasing. |
| Filter.FilterIndex | Lab/Lab1/filter.py:42-83 | A missing index writes nothing. Otherwise the rows are the header and one row per valid term seen, with its total frequency, in the chosen order. The reported count is the number of data rows. |

## Left out

- Elasticsearch is not modelled: the scan, `termvectors`, `search`, `search_file_by_path`, `doc_count`/`CatClient` and the client objects. Their results are inputs. A scan outcome is `NotFoundError` or the list of term vectors; a term vector is a `TransportError`, a reply without text, or a term dict. For the viewer and Rocchio, the text dict and the document count are inputs.
- File and console I/O are not modelled: `open`/`readlines`, every `print`, the timing, `argparse`, the `__main__` wiring. Input files are sequences of already-read lines. Of `main`, PageRank.LoadNetwork models the two reading calls; the call to computePageRanks is PageRank.Network.ComputePageRanks on its own.
- PageRank.Network.ReadAirports: states each new airport's blank fields rather than the route-table equation. The table of old rows plus empty ones follows from PageRank.Network.BlankRouteRows, as PageRank.LoadNetwork shows for an empty start.
- The CSV writer is not modelled: rows are values, and the text encoding and quoting of the output file are left out.
- `plot_convergence` and `outputPageRanks` are left out: matplotlib and console output only.
- Floating point is not modelled: numbers are exact reals, with no rounding, NaN or infinity.
  - `np.sqrt`, `np.log2`, `float()` and `str()` are function parameters; `sqrt` is assumed to be a square root where a lemma needs it.
  - The threshold test is the squared distance against the squared threshold.
- A zero norm in `normalize` is modelled as a failure (None, or `ZeroNorm` for queries); numpy would yield NaN weights.
- Division by zero is modelled as a failure (None): `max_freq` or `df` of 0 in `to_tfidf`, and `k == 0` in `rocchio_update`.
  - Rocchio.RocchioUpdate: with `k == 0` the script does not raise. The document weights are `np.float64` (from `normalize`, Lab/Lab3/Rocchio.py:51-53, summed at :119), so `*beta/k` gives inf or NaN with a RuntimeWarning.
  - The case is also unreachable in the script: a search for `k == 0` hits returns none, so the document vector is empty and the comprehension at :57 divides nothing.
- Integer division is not an issue: `doc_vectors.get(t,0)*beta/k` is the real product with `beta/k`.
- PageRank.Network.ComputePageRanks: the unbounded `while True` loop is bounded by a `maxPasses` fuel parameter; convergence is not proved. The same holds for PageRankPlotter.ComputePageRanks.
- The ingestion and matrix of `PageRankPlotter.py` are identical to `PageRank.py`, so they are modelled once, in the PageRank module.
- An empty airport list is handled as numpy does: an empty matrix and an empty iterate. The loop stops at the first pass.
- `Edge.weight` is always 1 and is never read; `edgeList`, `edgeHash` and the `__repr__`/`__str__` methods are not modelled.
- TFIDFViewer.CosineSimilarity: its ensures holds only for inputs sorted strictly by term, the order `to_tfidf` produces. On other inputs only termination is stated.
- Rocchio's own `document_term_vector` and `toTFIDF` (Lab/Lab3/Rocchio.py:28-49) are not modelled separately. They repeat the viewer's computation with a dict result, and their inputs come from Elasticsearch.
- Set iteration order is not modelled: the union in `rocchio_update` lists the document terms, then the new query terms, and the model fixes this order. Tie order among equal scores or counts, in every sort, is left unspecified.
- Vocabulary.BuildVocabulary: the insertion order of the vocabulary keys is not stated (only which keys and values it holds).
- CountWords.CountWords: the `alpha` parameter is unused by the source (its sort is commented out) and is not modelled.
- Filter.Decode: only ASCII bytes are decoded; multi-byte UTF-8 sequences are treated as not decodable. Words reaching the CSV are ASCII, so this is never reached.
- Filter.IsValidWordIff: models Python's `$`, so a word followed by one final newline counts as valid.
- The `"ignore"` error handler of `encode` is not modelled: it never applies to ASCII words.
