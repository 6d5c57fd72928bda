# cpp-search-server, modelled in Dafny

`cpp-search-server` is a small in-memory full-text search engine. A
`SearchServer` takes a set of stop words. It stores documents, each with an
id, a text, a status (actual, irrelevant, banned, removed) and a list of
ratings. It indexes each document's non-stop words with their term
frequencies. A query is a space-separated list of plus words and `-minus`
words. The server answers a query with at most five documents, ranked by
TF-IDF relevance and then by average rating. It can also report which query
words a given document matches.

The repository holds three generations of the server:
- the earliest, in `main.cpp`;
- the middle, in `search_server.h` / `search_server.cpp`;
- the latest, in `source/search_server.cpp`, which adds per-document word
  frequencies, removal and iteration over ids.

Around the latest server sit four helpers:
- `RemoveDuplicates` drops every document whose word set repeats that of a
  document with a smaller id;
- `RequestQueue` keeps a one-day window (1440 requests) of query outcomes and
  counts those that found nothing;
- `Paginator` splits a range into pages;
- `SplitIntoWords` is the tokenizer that every part uses.

The Dafny project follows that structure:

| file | module | what it holds |
|---|---|---|
| `tokenizer.dfy` | `Tokenizer` | the tokenizer as a loop, with a prefix specification and its algebra |
| `orders.dfy` | `Orders` | the iteration order of `std::set` (sorted, strict total orders) |
| `index.dfy` | `Index` | the state shared by the three servers: postings, term frequencies, ratings, query parsing, matching, erasing |
| `ranking.dfy` | `Ranking` | `FindAllDocuments`, the rank order, sorting and the cut to five results |
| `latest_server.dfy` | `LatestServer` | the latest `SearchServer` as a class |
| `middle_server.dfy` | `MiddleServer` | the middle `SearchServer` as a class |
| `earliest_server.dfy` | `EarliestServer` | the earliest `SearchServer` as a class |
| `remove_duplicates.dfy` | `Duplicates` | `RemoveDuplicates` |
| `request_queue.dfy` | `Requests` | `RequestQueue` as a class over a window of outcomes |
| `paginator.dfy` | `Pages` | `Paginator` as a class over offsets |

**Modelling choices.**
- Each server is a class whose fields are the source's containers:
  - `stopWords` is a `set<string>`;
  - `index` is a `map<string, map<int, real>>`;
  - `documents` is a `map<int, DocumentData>`;
  - `idBase` is a `seq<int>` in the earlier servers and a `set<int>` in the latest;
  - `wordFreqs` holds the latest server's `word_freqs_ids_`.
- Each C++ exception is a `Failure` of a `Result`, carrying a named error.
- The inverse document frequency, `log(N / df)`, is a parameter
  `idf: (nat, nat) -> real`. Relevance is the sum of `tf * idf` over the plus
  words, in the order of the query's `std::set`.
- Every method with a loop is proved against a specification function on
  values, such as `Words`, `QueryFrom`, `AllDocuments`, `Top`, `Kept`,
  `CountEmpty` or `PageAt`. The lemmas next to each specification state what
  the source promises.

**A failing `AddDocument`.** A failing `AddDocument` could be expected to
leave the server unchanged. In all three servers the code posts the valid
words one by one, so it keeps every posting made before the first invalid
word. The model follows the code:
`LatestServer.SearchServer.AddDocument` states the partial state outright.
The consequences are listed under Findings.

## Model

| member | source | states |
|---|---|---|
| Tokenizer.SplitIntoWords | search-server/string_processing.cpp:3-20 | the loop returns exactly `Words(text)`, the tokenizer's specification; `main.cpp:47-64` is the same code |
| Tokenizer.ScanTokens | search-server/string_processing.cpp:7-15 | while scanning, every emitted word is non-empty and space-free, the pending word holds no space, and words plus pending word concatenate to the text with its spaces removed |
| Tokenizer.WordsAreTokens | search-server/string_processing.cpp:3-20 | every word returned is non-empty and contains no space |
| Tokenizer.WordsConcat | search-server/string_processing.cpp:3-20 | no character other than a space is lost: the words concatenate to the text without its spaces |
| Tokenizer.BlankHasNoWords | search-server/string_processing.cpp:9-13 | a text made only of spaces, the empty text included, has no words |
| Tokenizer.SpaceSeparates | search-server/string_processing.cpp:8-13 | a space splits the text: the words of `l + " " + r` are the words of `l` followed by those of `r` |
| Tokenizer.LeadingSpace | search-server/string_processing.cpp:9-13 | a leading space changes nothing |
| Tokenizer.TrailingSpace | search-server/string_processing.cpp:17 | a trailing space changes nothing |
| Tokenizer.RepeatedSpace | search-server/string_processing.cpp:9-13 | two spaces split the same as one |
| Tokenizer.SingleToken | search-server/string_processing.cpp:17 | a non-empty word without spaces is its own single word |
| Tokenizer.SplitJoin | search-server/string_processing.cpp:3-20 | round trip: joining tokens with single spaces and splitting gives the tokens back |
| Orders.SortedWords | search-server/search_server.h:55-58 | the iteration order of a `std::set<string>`: as many entries as the set has elements, and exactly its elements |
| Orders.SortedWordsAscending | search-server/search_server.h:55-58 | that order is strictly increasing lexicographically, so no word is visited twice |
| Orders.SortedIds | search-server/source/search_server.cpp:96-102 | `begin()`/`end()` walk as many ids as the `std::set<int>` holds, and exactly its ids |
| Orders.SortedIdsAscending | search-server/source/search_server.cpp:96-102 | the walk is strictly increasing, so each id comes once |
| Orders.LexIrreflexive | search-server/search_server.h:55-58 | no string is lexicographically before itself |
| Orders.LexTransitive | search-server/search_server.h:55-58 | the lexicographic order on strings is transitive |
| Orders.LexTotal | search-server/search_server.h:55-58 | of two different strings one is lexicographically before the other |
| Orders.LeastWord | search-server/search_server.h:55-58 | a non-empty set of words has a member before every other member: the first one a `std::set` visits |
| Orders.LeastId | search-server/source/remove_duplicates.cpp:17-30 | a non-empty set of ids has a member no larger than any other: the first one a `std::set` visits |
| Index.FirstInvalid | search-server/search_server.cpp:21-25 | the loop stops at the first invalid word: every earlier word is valid and the word at the result is not |
| Index.CheckQueryWords | search-server/search_server.cpp:32-33 | the query check succeeds exactly when every token is valid |
| Index.CollectStopWords | search-server/search_server.h:82-94 | fails with "invalid stop word" exactly when some candidate is invalid; otherwise keeps every non-empty candidate |
| Index.NonStopAt | search-server/search_server.cpp:94-102 | a word survives the stop filter exactly when it is not a stop word, with its number of occurrences unchanged |
| Index.SplitIntoWordsNoStop | search-server/search_server.cpp:94-102 | the loop returns the words of the text with stop words dropped, in order |
| Index.AverageRating | search-server/search_server.cpp:104-107 | 0 for no ratings; otherwise the sum divided by the count, truncated toward zero (remainder bounds for both signs) |
| Index.TallyAt | search-server/source/search_server.cpp:32-33 | adding `inc` once per occurrence: each word's total grows by its count times `inc` and other words are untouched |
| Index.PostAllAt | search-server/search_server.cpp:21-25 | posting a document's words adds exactly that document to each word's postings, by count times `1/n`, and leaves every other document's postings alone |
| Index.TermFrequencies | search-server/search_server.cpp:18-25 | a word's term frequency is its number of occurrences over the number of non-stop words |
| Index.TermFrequenciesTotal | search-server/search_server.cpp:18-25 | a document's term frequencies sum to 1 |
| Index.AddedFrequencies | search-server/search_server.cpp:18-25 | after adding a fresh document, it is posted under exactly its words, with frequency count over length |
| Index.ErasedMeaning | search-server/source/search_server.cpp:42-51 | erasing an id keeps every word, removes that id from every posting list and keeps every other posting with its frequency |
| Index.ErasedAllStep | search-server/source/remove_duplicates.cpp:33 | erasing ids one at a time is erasing the set of them |
| Index.QueryFromMeaning | search-server/search_server.cpp:118-128 | parsing succeeds exactly when every token parses; a failure is the first failing token's error; on success the plus and minus sets hold exactly the non-stop words parsed as plus and minus |
| Index.QueryFromFailureSticks | search-server/search_server.cpp:118-128 | once a token throws, the rest of the query does not change the outcome |
| Index.ParseQuery | search-server/search_server.cpp:118-128 | the loop returns `QueryFrom(tokens)`, the parser's specification |
| Index.PresentWords | search-server/search_server.cpp:60-63 | the plus-word loop of matching returns `Present`, the words posted for the document in the order read |
| Index.PresentMembers | search-server/search_server.cpp:60-63 | the matched plus words are exactly the query's plus words posted for the document |
| Index.PresentSorted | search-server/search_server.cpp:60-63 | matched words come out in `std::set` order |
| Index.MatchedMeaning | search-server/search_server.cpp:53-75 | matching is sorted; any minus word posted for the document empties it; otherwise it holds exactly the plus words posted for the document |
| Index.AnyPosted | search-server/search_server.cpp:65-71 | the minus loop finds a hit exactly when some minus word is posted for the document |
| Index.MatchWords | search-server/search_server.cpp:57-71 | the two loops return `Matched`, the matching specification |
| Index.DocumentIdAt | search-server/search_server.cpp:47-51 | succeeds exactly for indices `0 <= i < size` and returns the i-th id added; otherwise it fails with out of range |
| Ranking.Candidates | search-server/search_server.h:121-147 | the documents ranked are known documents |
| Ranking.GatherWord | search-server/search_server.h:132-136 | one plus word's postings: fails with out of range exactly when a posting names an unknown document; otherwise each accepted posting adds `tf * idf` and nothing else changes |
| Ranking.GatherIds | search-server/search_server.h:132-136 | the inner loop over a word's postings, in increasing id order: fails with out of range exactly when a posting names an unknown document, otherwise adds each accepted posting's weighted frequency |
| Ranking.GatherNext | search-server/search_server.h:125-137 | one pass of the plus-word loop: a word absent from the index is skipped; otherwise it fails exactly when one of its postings names an unknown document, and on success the relevance covers one more word |
| Ranking.GatherPlus | search-server/search_server.h:125-137 | over all plus words: fails exactly when some posting names an unknown document; otherwise every accepted document's relevance is its score |
| Ranking.EraseIds | search-server/search_server.h:144-146 | erasing a minus word's postings keeps exactly the documents not posted under it, with their relevance |
| Ranking.EraseEach | search-server/search_server.h:144-146 | erasing a list of ids keeps exactly the other documents, each with its relevance |
| Ranking.VetoMinus | search-server/search_server.h:139-147 | after the minus loop, exactly the documents posted under no minus word remain, with unchanged relevance |
| Ranking.ListDocuments | search-server/search_server.h:149-151 | builds one `Document` per id, with its relevance and its stored rating |
| Ranking.FindAllDocuments | search-server/search_server.h:120-154 | the method returns `AllDocuments`, the specification of the three loops |
| Ranking.FindSurvivors | search-server/search_server.h:139-153 | once the plus words gathered without a dangling posting, the minus loop and the listing loop complete `AllDocuments` |
| Ranking.ListingMeaning | search-server/search_server.h:149-151 | listing a set of known ids gives one document per id, in increasing id order, each with its score and its stored rating |
| Ranking.AllDocumentsMeaning | search-server/search_server.h:120-154 | fails exactly when a plus word posts an unknown document; otherwise lists each candidate once, in increasing id, with its stored rating and its score |
| Ranking.NoPlusPostingsNoResults | search-server/search_server.h:125-137 | a query whose plus words are posted nowhere finds nothing |
| Ranking.MinusWordVetoes | search-server/search_server.h:139-147 | a document posted under a minus word is never returned |
| Ranking.RanksBeforeIsStrictWeak | search-server/search_server.h:107-108 | the exact order (relevance down, then rating down) is a strict weak ordering, as `std::sort` requires |
| Ranking.EpsilonBeforeCycles | search-server/search_server.h:107-108 | the comparator as written, with a 1e-6 tolerance, has a cycle of three documents, so it is not a strict weak ordering |
| Ranking.SortByRankCorrect | search-server/search_server.h:111 | sorting is a permutation, is rank-sorted and keeps ids distinct |
| Ranking.InsertCorrect | search-server/search_server.h:111 | one insertion step of the sort adds exactly the inserted document and keeps the list rank-sorted |
| Ranking.InsertDistinct | search-server/search_server.h:111 | inserting a document whose id is new keeps the ids distinct |
| Ranking.Cutoff | search-server/search_server.h:113-115 | the result is the first `min(n, 5)` documents |
| Ranking.RankedCutoff | search-server/search_server.h:111-115 | the top list is sorted, distinct, drawn from all results, of size `min(n, 5)`, and no dropped document ranks above a kept one |
| Ranking.FindTopDocuments | search-server/search_server.h:96-118 | the method returns `Top`, the sorted and cut specification |
| Ranking.TopMeaning | search-server/search_server.h:96-118 | fails exactly when a plus word posts an unknown document; otherwise at most five candidates, rank-sorted, distinct, with stored ratings, and none left out outranks one kept |
| LatestServer.MirrorPost | search-server/source/search_server.cpp:32-33 | posting a word updates `word_to_document_freqs_` and `word_freqs_ids_` as mirror images |
| LatestServer.MirrorErase | search-server/source/search_server.cpp:42-54 | removing a document keeps the two maps mirror images |
| LatestServer.RemoveKeepsKnown | search-server/source/search_server.cpp:40-57 | after a removal every posting still names a known document |
| LatestServer.KnownNeverFails | search-server/source/search_server.cpp:27-37 | when every posting names a known document, ranking never fails |
| LatestServer.ParseQueryWord | search-server/source/search_server.cpp:164-182 | the empty word fails; otherwise it fails as invalid unless the remainder after one `-` is non-empty, does not start with `-` and is valid; on success it strips at most one `-` and flags stop words |
| LatestServer.ParseQueryWordInverse | search-server/source/search_server.cpp:164-182 | round trip: a valid word parses as itself, and `-word` parses as its minus word |
| LatestServer.ParsesToPlus | search-server/source/search_server.cpp:164-182 | a token parses to plus word `w` exactly when it is `w`, valid, not starting with `-` and not a stop word |
| LatestServer.ParsesToMinus | search-server/source/search_server.cpp:164-182 | a token parses to minus word `w` exactly when it is `-w`, with `w` valid, not starting with `-` and not a stop word |
| LatestServer.SearchServer.FromText | search-server/source/search_server.cpp:3-13 | fails exactly when some word of the text is invalid; otherwise the stop words are exactly the text's words and the server is empty |
| LatestServer.SearchServer.FromCollection | search-server/search_server.h:82-94 | fails exactly when some candidate is invalid; otherwise the stop words are the non-empty candidates |
| LatestServer.SearchServer.AddDocument | search-server/source/search_server.cpp:15-38 | a negative id or a known id fails with nothing changed; otherwise postings and frequencies grow by the words before the first invalid one; the document is stored exactly when all words are valid |
| LatestServer.SearchServer.AddDocumentAtomic | search-server/source/search_server.cpp:15-38 | the corrected add: it checks every word first, so a failure changes nothing, and every posting keeps naming a known document |
| LatestServer.SearchServer.PostValidWords | search-server/source/search_server.cpp:27-34 | the posting loop stops at the first invalid word; every word before it is written into both maps, mirrored, and nothing else changes |
| LatestServer.SearchServer.PostOne | search-server/source/search_server.cpp:32-33 | one pass writes the same increment into `word_to_document_freqs_` and `word_freqs_ids_`, keeping them mirrored |
| LatestServer.SearchServer.PostAndStore | search-server/source/search_server.cpp:27-37 | with every word valid, all of them are posted, the document is stored, and every posting still names a known document |
| LatestServer.SearchServer.RemoveDocument | search-server/source/search_server.cpp:40-57 | an unknown id changes nothing; a known id leaves the postings, documents, frequencies and id set without it |
| LatestServer.ErasePostings | search-server/source/search_server.cpp:42-51 | the iterator loop erases the id from every posting list and keeps every word |
| LatestServer.EraseEveryWord | search-server/source/search_server.cpp:42-51 | erasing the id word by word over every word of the index, in order, is erasing it from all postings at once |
| LatestServer.RemovedIsGone | search-server/source/search_server.cpp:40-57 | after removal the id is posted nowhere and no search returns it |
| LatestServer.SearchServer.GetWordFrequencies | search-server/source/search_server.cpp:91-94 | a document's frequencies are exactly its postings in the index, so empty for an id posted nowhere; an id left dangling by a failed add keeps its partial frequencies |
| LatestServer.SearchServer.GetDocumentCount | search-server/source/search_server.cpp:87-89 | the number of stored documents |
| LatestServer.SearchServer.Ids | search-server/source/search_server.cpp:96-102 | iteration visits every stored id exactly once, in increasing order |
| LatestServer.SearchServer.ParseRawQuery | search-server/source/search_server.cpp:184-200 | the method returns `QueryOf`, the parser's specification over the tokens |
| LatestServer.QueryOfMeaning | search-server/source/search_server.cpp:184-200 | any invalid token fails the query as invalid; on success the plus words are the non-stop tokens without `-` and the minus words are the non-stop `-w` tokens |
| LatestServer.QueryOfFails | search-server/source/search_server.cpp:164-200 | the query is refused exactly when some token has a control char, is a lone `-` or starts with `--` |
| LatestServer.TokenParses | search-server/source/search_server.cpp:164-182 | a valid token parses exactly when it is neither a lone `-` nor starts with `--` |
| LatestServer.SearchServer.MatchDocument | search-server/source/search_server.cpp:104-136 | returns `MatchResult`: a query error, out of range for an unknown document, or the `Matched` words and the status |
| LatestServer.SearchServer.FindTopDocuments | search-server/search_server.h:96-118 | returns `TopDocuments`: a query error or the ranked top of the parsed query |
| LatestServer.SearchServer.FindTopDocumentsByStatus | search-server/source/search_server.cpp:59-71 | the top documents with exactly the given status |
| LatestServer.SearchServer.FindActualDocuments | search-server/source/search_server.cpp:73-85 | the top documents with status actual |
| LatestServer.PartialAddDangles | search-server/source/search_server.cpp:27-34 | adding `"cat \x01"` fails yet leaves `cat` posted for a document that does not exist, and a later search for `cat` fails with out of range |
| MiddleServer.IsValidWord | search-server/search_server.cpp:81-92 | valid exactly when the word does not end in `-`, has no `--` and has no control character |
| MiddleServer.ValidMinusRemainder | search-server/search_server.cpp:81-92 | a valid `-word` token leaves a non-empty, valid remainder that does not start with `-` |
| MiddleServer.ValidWordIsLatestValid | search-server/search_server.cpp:81-92 | the middle check is stricter than the latest one |
| MiddleServer.ParseQueryWord | search-server/search_server.cpp:109-116 | strips one leading `-` and flags stop words; the token is the minus sign plus the data |
| MiddleServer.ParseAgreesWithLatest | search-server/search_server.cpp:109-116 | on tokens the middle server accepts, it parses exactly as the latest server |
| MiddleServer.SearchServer.FromText | search-server/search_server.cpp:3-10 | fails exactly when some word is invalid; otherwise the stop words are the text's words |
| MiddleServer.SearchServer.FromCollection | search-server/search_server.h:82-94 | fails exactly when some candidate is invalid; otherwise the stop words are the candidates |
| MiddleServer.SearchServer.AddDocument | search-server/search_server.cpp:12-29 | same outcome as the latest add, over a sequence of ids in insertion order |
| MiddleServer.SearchServer.PostValidWords | search-server/search_server.cpp:21-25 | the posting loop stops at the first invalid word and posts exactly the words before it |
| MiddleServer.SearchServer.GetDocumentCount | search-server/search_server.cpp:45 | the number of stored documents |
| MiddleServer.SearchServer.GetDocumentId | search-server/search_server.cpp:47-51 | succeeds exactly for `0 <= i < size`, returning the i-th id added, a stored document; otherwise out of range |
| MiddleServer.SearchServer.ParseRawQuery | search-server/search_server.cpp:118-128 | returns `QueryOf`, the parser's specification |
| MiddleServer.QueryOfMeaning | search-server/search_server.cpp:118-128 | the query succeeds exactly when every token is valid; plus and minus words are the non-stop tokens without and with `-` |
| MiddleServer.SearchServer.MatchDocument | search-server/search_server.cpp:53-75 | returns `MatchResult` over the middle parser |
| MiddleServer.SearchServer.FindTopDocuments | search-server/search_server.h:96-118 | returns `TopDocuments` over the middle parser |
| MiddleServer.SearchServer.FindTopDocumentsByStatus | search-server/search_server.cpp:31-36 | the top documents with exactly the given status |
| MiddleServer.SearchServer.FindActualDocuments | search-server/search_server.cpp:38-43 | the top documents with status actual |
| EarliestServer.IsCorrectMinusWord | search-server/main.cpp:209-230 | true exactly when the word does not end in `-` and has no `--` |
| EarliestServer.ParseQueryWord | search-server/main.cpp:256-267 | as written: a `-word` whose remainder passes the minus check fails; on success it strips one `-` and flags stop words |
| EarliestServer.MinusCheckInverted | search-server/main.cpp:262-264 | the test is inverted: every correct minus word is rejected, and every accepted one is incorrect |
| EarliestServer.MinusCheckExamples | search-server/main.cpp:262-264 | `-cat` is rejected while `-cat-` is accepted as minus word `cat-` |
| EarliestServer.ParseQueryWordIntended | search-server/main.cpp:256-267 | corrected: a minus word is accepted only when its remainder passes the minus check |
| EarliestServer.IntendedRoundTrip | search-server/main.cpp:256-267 | corrected round trip: `-word` parses as minus word `word` exactly when the word is correct; a plain word parses as itself |
| EarliestServer.SearchServer.FromCollection | search-server/main.cpp:68-77 | fails exactly when some candidate is invalid; otherwise the stop words are the non-empty candidates |
| EarliestServer.SearchServer.FromText | search-server/main.cpp:79-81 | as written: the words are checked but the server keeps no stop words |
| EarliestServer.SearchServer.FromTextIntended | search-server/main.cpp:79-81 | corrected: the stop words are the text's words |
| EarliestServer.SearchServer.AddDocument | search-server/main.cpp:83-108 | fails on a negative id or an id already listed or stored; otherwise as the later servers' add |
| EarliestServer.SearchServer.PostValidWords | search-server/main.cpp:100-105 | the posting loop stops at the first invalid word and posts exactly the words before it |
| EarliestServer.SearchServer.GetDocumentCount | search-server/main.cpp:144 | the number of stored documents |
| EarliestServer.SearchServer.GetDocumentId | search-server/main.cpp:146-154 | succeeds exactly for `0 <= i < size`, returning the i-th id added; otherwise out of range |
| EarliestServer.SearchServer.ParseRawQuery | search-server/main.cpp:269-284 | returns `QueryOf`, the parser's specification |
| EarliestServer.QueryOfMeaning | search-server/main.cpp:269-284 | fails exactly when a token is invalid or is a correct minus word; on success no minus word is correct |
| EarliestServer.SearchServer.MatchDocument | search-server/main.cpp:156-180 | returns `MatchResult` over the earliest parser |
| EarliestServer.SearchServer.FindTopDocuments | search-server/main.cpp:110-130 | returns `TopDocuments` over the earliest parser |
| EarliestServer.SearchServer.FindTopDocumentsByStatus | search-server/main.cpp:132-136 | the top documents with exactly the given status |
| EarliestServer.SearchServer.FindActualDocuments | search-server/main.cpp:138-142 | the top documents with status actual |
| Duplicates.VisitStep | search-server/source/remove_duplicates.cpp:17-30 | one visit, in increasing id order, keeps the map pointing at the first id of each word set and lists exactly the later ids as duplicates |
| Duplicates.ScanMeaning | search-server/source/remove_duplicates.cpp:9-31 | the whole loop over sorted ids leaves the map and the removal list in that state |
| Duplicates.ScannedAll | search-server/source/remove_duplicates.cpp:9-31 | at the end the removal list holds exactly the ids that are not the least of their word set |
| Duplicates.ScanOutcome | search-server/source/remove_duplicates.cpp:9-31 | the removal list has no repeats and holds exactly the duplicates |
| Duplicates.KeysOf | search-server/source/remove_duplicates.cpp:12-14 | the words collected are exactly the keys of the document's frequencies |
| Duplicates.FindDuplicates | search-server/source/remove_duplicates.cpp:9-31 | the loop returns each duplicate exactly once and nothing else |
| Duplicates.ScanIds | search-server/source/remove_duplicates.cpp:11-30 | the loop over the ids builds exactly the removal list of the scan specification |
| Duplicates.RemoveAll | search-server/source/remove_duplicates.cpp:33 | removing the listed ids one by one leaves the server without exactly those ids |
| Duplicates.RemoveDuplicates | search-server/source/remove_duplicates.cpp:5-34 | the ids kept are the least of each word set; everything about the others is erased; the new document count is the number of distinct word sets |
| Duplicates.KeptUnique | search-server/source/remove_duplicates.cpp:17-30 | no two kept documents share a word set |
| Duplicates.KeptCovers | search-server/source/remove_duplicates.cpp:17-30 | every document's word set is kept, under an id no larger than its own |
| Duplicates.UniqueSurvives | search-server/source/remove_duplicates.cpp:17-30 | a document whose word set is unique is never removed |
| Duplicates.KeptCount | search-server/source/remove_duplicates.cpp:5-34 | as many documents remain as there are distinct word sets |
| Duplicates.SecondRunKeepsAll | search-server/source/remove_duplicates.cpp:5-34 | idempotence: a second run removes nothing |
| Duplicates.ExampleCorpus | search-server/source/test_example_functions.cpp:4-27 | the nine example documents with stop words `and with` keep ids 1, 2, 6, 8 and 9: five distinct word sets |
| Requests.CountEmpty | search-server/source/request_queue.cpp:25-30 | the count of empty outcomes is at most the number of outcomes, and is zero exactly when none is empty |
| Requests.CountEmptyLast | search-server/source/request_queue.cpp:29-32 | evicting the oldest outcome subtracts exactly its contribution |
| Requests.RequestQueue.constructor | search-server/source/request_queue.cpp:3-4 | an empty window with a zero counter over the given server |
| Requests.RequestQueue.ChangeStateDeque | search-server/source/request_queue.cpp:22-33 | records the outcome at the front, keeps the window to the newest 1440 outcomes and the counter equal to the empty ones among them |
| Requests.RequestQueue.AddFindRequestByStatus | search-server/source/request_queue.cpp:6-12 | returns the server's answer for the status, leaves the server unchanged, records the outcome only when the server answers, and a failing query records nothing |
| Requests.RequestQueue.AddFindRequest | search-server/source/request_queue.cpp:14-20 | as above, for actual documents |
| Requests.RequestQueue.GetNoResultRequests | search-server/source/request_queue.cpp:35-37 | the number of empty outcomes among the newest 1440, between 0 and 1440 |
| Requests.DayThenThree | search-server/source/request_queue.cpp:22-37 | 1440 empty outcomes followed by 3 non-empty ones leave 1437 in the window |
| Requests.DayOfRequests | search-server/source/request_queue.cpp:22-37 | the same scenario run through a queue reports 1437 |
| Pages.CountOfPages | search-server/paginator.h:9-16 | `c` pages cover `n` elements when the first `c - 1` are full and the last is not empty |
| Pages.Paginator.constructor | search-server/paginator.h:8-17 | one page per `pageSize` elements, rounded up; page `k` starts at `begin + k * pageSize` and holds the full-page or short-page pair the loop pushes |
| Pages.Paginator.Size | search-server/paginator.h:19-21 | the number of pages is the length divided by the page size, rounded up, and zero exactly for an empty range |
| Pages.Paginate | search-server/paginator.h:35-38 | paginates the whole container |
| Pages.ShortPageLosesTail | search-server/paginator.h:10-11 | as written: when the short last page holds two or more elements, the range's last element lies on no page |
| Pages.IntendedPagesPartition | search-server/paginator.h:8-17 | corrected pages partition the range: element `i` lies on page `i / pageSize` and on no other, no page is empty and every page but the last is full |

## Left out

- The logarithm and floating point. `idf` is a parameter standing for
  `log(N / df)`, and relevance is a `real`. Rounding of `double` arithmetic is
  not modelled.
- `std::sort` with the tolerance comparator. Results are sorted by the exact
  order (relevance down, then rating down), written as an insertion sort on
  values. The comparator as written is not a strict weak ordering (see
  Findings), so no order it yields can be stated.
- Console output: `cout` diagnostics in `RemoveDuplicates`, `PrintDocument`,
  the `LOG_DURATION` timer and the demonstration driver in `main.cpp`. The
  example corpus of `test_example_functions.cpp` appears only as its nine
  word sets.
- The predicate overload of `AddFindRequest` is declared in
  `request_queue.h:14-15`, but its definition is not part of this model.
  The status overload is modelled in full by
  `Requests.RequestQueue.AddFindRequestByStatus`.
- Index.AverageRating: does not model the `int` overflow of the ratings sum,
  because the sum is unbounded here.
- MiddleServer.SearchServer.GetDocumentId,
  EarliestServer.SearchServer.GetDocumentId and Index.DocumentIdAt: require
  fewer than 2^31 ids, where the cast `static_cast<int>(size - 1)` is exact.
- MiddleServer.SearchServer.FromCollection: requires non-empty candidates.
  The middle `IsValidWord` reads `word[length - 1]`, which is undefined on the
  empty word.
- MiddleServer.IsValidWord: requires a non-empty word, for the same reason.
- EarliestServer query members: require that the query has no bare `-`
  token. On `-` the earliest parser passes the empty word to
  `IsCorrectMinusWord`, which reads out of bounds.
- `header/search_server.h` of the latest server is not part of this model.
  Its collection constructor, template `FindTopDocuments` and
  `FindAllDocuments` are modelled after the same code in the middle
  `search_server.h`.
- The free function `AddDocument(search_server, ...)` at
  `source/search_server.cpp:202-204` only forwards to the member.
  `LatestServer.SearchServer.AddDocument` models both.
- `begin()`/`end()` of the latest server are modelled by `Ids()`, the sorted
  sequence the iterators walk. Iterator invalidation during `RemoveDocument`
  is not modelled.
- Pages.Paginator.constructor, Pages.Paginate: require `pageSize > 0`. On a
  non-empty range with a page size of 0, the loop of `paginator.h:9-15`
  advances by 0 and pushes pages forever. The model does not capture that
  non-termination.
- Ranking.SortByRank / Ranking.Top: the order among exact ties (equal
  relevance and equal rating) is a modelling choice. `std::sort` is not
  stable and promises no order among such documents. The insertion sort here
  is stable over the listing in ascending id. So the model keeps ties in
  ascending id, and the cut to five keeps the smallest of them. A property of
  the model that names which tied ids are returned does not hold of the
  source.
- Pages.Paginator.constructor: iterators are offsets. The final `advance`
  past the end of the container, undefined for most iterators, is treated as
  plain arithmetic.
- `document.cpp`, `read_input_functions` and `log_duration.h`: input parsing,
  printing and timing, outside the search logic.

## Findings

| source | as written | input that shows it | evidently intended | confidence | as-written member | corrected member |
|---|---|---|---|---|---|---|
| search-server/search_server.h:107-108 | documents whose relevances differ by less than 1e-6 compare by rating; this "equal" is not transitive | relevances 0, 6e-7, 1.2e-6 with ratings 3, 2, 1 form a cycle a<b<c<a, which is undefined behaviour for `std::sort` | a strict weak ordering: relevance down, then rating down | high, not executed | Ranking.EpsilonBeforeCycles | Ranking.RanksBeforeIsStrictWeak |
| search-server/main.cpp:262-264 | throws when the minus word IS correct | query `-cat` throws "invalid minus word"; `-cat-` is accepted as minus word `cat-` | throw when the minus word is NOT correct | high, not executed | EarliestServer.MinusCheckExamples | EarliestServer.IntendedRoundTrip |
| search-server/main.cpp:79-81 | builds a temporary server from the words and discards it | text `"in the"` gives a server with no stop words | delegate to the collection constructor, so the words become stop words | high, not executed | EarliestServer.SearchServer.FromText | EarliestServer.SearchServer.FromTextIntended |
| search-server/source/search_server.cpp:27-37 | posts each word before checking the next one, then throws | `AddDocument(1, "cat \x01", ...)` throws but leaves `cat` posted for id 1; a search for `cat` then throws `out_of_range` | check every word before changing anything | high, not executed | LatestServer.PartialAddDangles | LatestServer.SearchServer.AddDocumentAtomic |
| search-server/paginator.h:10-11 | a short last page is stored as `(first, first)`, while full pages are `(first, last)` | 5 elements with page size 3 give pages (0, 2) and (3, 3), so element 4 is on no page | the short page ends at the container's last element | medium, not executed | Pages.ShortPageLosesTail | Pages.IntendedPagesPartition |
