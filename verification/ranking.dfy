/** The ranking code shared by the three servers (`FindAllDocuments`, the
    sort and the cutoff of `FindTopDocuments`). The logarithm behind the
    inverse document frequency is a parameter, so relevances are exact
    reals built from it; the sort uses the exact order of relevance, then
    rating (see `EpsilonBefore` for the comparator as written). */
module Ranking {
  import opened Orders
  import opened Index

  /** `MAX_RESULT_DOCUMENT_COUNT`: the cap on the length of a result. */
  const MAX_RESULT_DOCUMENT_COUNT: nat := 5

  /** `ACCURACY`: relevances closer than this are compared by rating. */
  const ACCURACY: real := 0.000001

  /** `ComputeWordInverseDocumentFreq`: `idf(n, m)` stands for `log(n / m)`
      with `n` documents in the index and `m` of them posting the word. */
  type Idf = (nat, nat) -> real

  /** The search predicate: document id, status, rating. */
  type Filter = (int, DocumentStatus, int) -> bool

  // ----------------------------------------------------------- filtering

  /** Some word among `words` has a posting for `d`. */
  predicate PostedAmong(index: Postings, words: seq<string>, d: int)
  {
    exists k :: 0 <= k < |words| && Posted(index, words[k], d)
  }

  predicate PostedIn(index: Postings, words: set<string>, d: int)
  {
    exists w :: w in words && Posted(index, w, d)
  }

  /** A plus word posts an id that `documents_` lacks, so `documents_.at`
      throws `out_of_range` (left behind by a failed `AddDocument`). */
  predicate Dangling(index: Postings, documents: Documents, q: Query)
  {
    exists w :: w in q.plus && w in index && exists d :: d in index[w] && d !in documents
  }

  /** The documents a search returns: posted by a plus word, accepted by the
      predicate and posted by no minus word. */
  function Candidates(index: Postings, documents: Documents, q: Query, pred: Filter): (r: set<int>)
    ensures forall d :: d in r ==> d in documents
  {
    set d | d in documents && PostedIn(index, q.plus, d)
              && pred(d, documents[d].status, documents[d].rating)
              && !PostedIn(index, q.minus, d)
  }

  /** The tf-idf relevance of `d`: for each word with a posting for `d`,
      its term frequency times the word's idf, summed in word order. */
  function Score(index: Postings, n: nat, words: seq<string>, d: int, idf: Idf): real
  {
    if words == [] then 0.0
    else
      var w := words[|words| - 1];
      Score(index, n, words[..|words| - 1], d, idf)
        + (if Posted(index, w, d) then index[w][d] * idf(n, |index[w]|) else 0.0)
  }

  /** One `Document` per id, with its score and stored rating. */
  function Listing(index: Postings, documents: Documents, plus: seq<string>, idf: Idf, ids: seq<int>): seq<Document>
    requires forall d :: d in ids ==> d in documents
  {
    seq(|ids|, t requires 0 <= t < |ids| =>
      Document(ids[t], Score(index, |documents|, plus, ids[t], idf), documents[ids[t]].rating))
  }

  /** The result of `FindAllDocuments`: the candidates in ascending id order,
      each with its relevance and stored rating, or `OutOfRange`. */
  function AllDocuments(index: Postings, documents: Documents, q: Query, pred: Filter, idf: Idf): Result<seq<Document>>
  {
    if Dangling(index, documents, q) then Failure(OutOfRange)
    else
      var ids := SortedIds(Candidates(index, documents, q, pred));
      Success(Listing(index, documents, SortedWords(q.plus), idf, ids))
  }

  lemma {:induction false} ScoreUnposted(index: Postings, n: nat, words: seq<string>, d: int, idf: Idf)
    requires !PostedAmong(index, words, d)
    ensures Score(index, n, words, d, idf) == 0.0
  {
    if words != [] {
      var init := words[..|words| - 1];
      assert !PostedAmong(index, init, d) by {
        forall k | 0 <= k < |init| ensures !Posted(index, init[k], d) {
          assert init[k] == words[k];
        }
      }
      ScoreUnposted(index, n, init, d, idf);
    }
  }

  lemma ScoreStep(index: Postings, n: nat, words: seq<string>, i: nat, d: int, idf: Idf)
    requires i < |words|
    ensures Score(index, n, words[..i + 1], d, idf)
         == Score(index, n, words[..i], d, idf)
          + (if Posted(index, words[i], d) then index[words[i]][d] * idf(n, |index[words[i]]|) else 0.0)
  {
    assert words[..i + 1][..i] == words[..i];
  }

  lemma PostedAmongStep(index: Postings, words: seq<string>, i: nat, d: int)
    requires i < |words|
    ensures PostedAmong(index, words[..i + 1], d) <==> PostedAmong(index, words[..i], d) || Posted(index, words[i], d)
  {
    if PostedAmong(index, words[..i + 1], d) {
      var k :| 0 <= k < i + 1 && Posted(index, words[..i + 1][k], d);
      if k < i {
        assert words[..i][k] == words[k];
      }
    }
    if PostedAmong(index, words[..i], d) {
      var k :| 0 <= k < i && Posted(index, words[..i][k], d);
      assert words[..i + 1][k] == words[k];
    }
    if Posted(index, words[i], d) {
      assert words[..i + 1][i] == words[i];
    }
  }

  lemma PostedAmongSorted(index: Postings, words: set<string>, d: int)
    ensures PostedAmong(index, SortedWords(words), d) <==> PostedIn(index, words, d)
  {
    var s := SortedWords(words);
    if PostedIn(index, words, d) {
      var w :| w in words && Posted(index, w, d);
      assert w in s;
      var k :| 0 <= k < |s| && s[k] == w;
      assert Posted(index, s[k], d);
    }
    if PostedAmong(index, s, d) {
      var k :| 0 <= k < |s| && Posted(index, s[k], d);
      assert s[k] in s;
    }
  }

  // ------------------------------------------------- FindAllDocuments loops

  /** A posting of one plus word that passes `documents_.at` and the
      predicate. */
  predicate Accepts(documents: Documents, pred: Filter, postings: map<int, real>, d: int)
  {
    d in postings && d in documents && pred(d, documents[d].status, documents[d].rating)
  }

  /** The relevance map once the postings in `seen` were visited. */
  ghost predicate WordGathered(relevance: map<int, real>, postings: map<int, real>, weight: real,
                               documents: Documents, pred: Filter, seen: set<int>, current: map<int, real>)
  {
    && (forall d :: d in current <==> d in relevance || (d in seen && Accepts(documents, pred, postings, d)))
    && (forall d :: d in current ==>
          current[d] == ValueOr(relevance, d)
            + (if d in seen && Accepts(documents, pred, postings, d) then postings[d] * weight else 0.0))
  }

  lemma WordGatheredStep(relevance: map<int, real>, postings: map<int, real>, weight: real,
                         documents: Documents, pred: Filter, seen: set<int>, current: map<int, real>, d: int)
    requires WordGathered(relevance, postings, weight, documents, pred, seen, current)
    requires d in postings && d in documents && d !in seen
    ensures WordGathered(relevance, postings, weight, documents, pred, seen + {d},
      if pred(d, documents[d].status, documents[d].rating) then Bump(current, d, postings[d] * weight) else current)
  {
  }

  /** The inner loop over one plus word's postings, in id order:
      `documents_.at` (which throws for an unknown id), the predicate, then
      `document_to_relevance[id] += tf * idf`. */
  method GatherWord(relevance: map<int, real>, postings: map<int, real>, weight: real, documents: Documents, pred: Filter)
    returns (r: Result<map<int, real>>)
    ensures r.Failure? <==> exists d :: d in postings && d !in documents
    ensures r.Failure? ==> r.error == OutOfRange
    ensures r.Success? ==> WordGathered(relevance, postings, weight, documents, pred, postings.Keys, r.value)
  {
    SortedIdsAscending(postings.Keys);
    r := GatherIds(relevance, postings, weight, documents, pred, SortedIds(postings.Keys));
  }

  /** The loop of `GatherWord` over the posted ids `ids`, in ascending order. */
  method GatherIds(relevance: map<int, real>, postings: map<int, real>, weight: real, documents: Documents,
                   pred: Filter, ids: seq<int>)
    returns (r: Result<map<int, real>>)
    requires forall d :: d in ids <==> d in postings
    requires forall i, j :: 0 <= i < j < |ids| ==> ids[i] < ids[j]
    ensures r.Failure? <==> exists d :: d in postings && d !in documents
    ensures r.Failure? ==> r.error == OutOfRange
    ensures r.Success? ==> WordGathered(relevance, postings, weight, documents, pred, postings.Keys, r.value)
  {
    var current := relevance;
    ghost var seen: set<int> := {};
    var j := 0;
    while j < |ids|
      invariant 0 <= j <= |ids|
      invariant seen <= postings.Keys && seen <= documents.Keys
      invariant forall t :: 0 <= t < j ==> ids[t] in seen
      invariant forall t :: j <= t < |ids| ==> ids[t] !in seen
      invariant WordGathered(relevance, postings, weight, documents, pred, seen, current)
    {
      var d := ids[j];
      if d !in documents {
        assert d in postings;
        return Failure(OutOfRange);
      }
      WordGatheredStep(relevance, postings, weight, documents, pred, seen, current, d);
      if pred(d, documents[d].status, documents[d].rating) {
        current := Bump(current, d, postings[d] * weight);
      }
      forall t | j < t < |ids| ensures ids[t] != d { assert ids[j] < ids[t]; }
      seen := seen + {d};
      j := j + 1;
    }
    assert seen == postings.Keys by {
      forall d | d in postings ensures d in seen {
        var t :| 0 <= t < |ids| && ids[t] == d;
      }
    }
    assert !exists d :: d in postings && d !in documents;
    return Success(current);
  }

  /** The relevance map after the plus-word loop over `plus`: the accepted
      documents with a posting among those words, each with its score. */
  ghost predicate Gathered(index: Postings, documents: Documents, pred: Filter, idf: Idf,
                           plus: seq<string>, relevance: map<int, real>)
  {
    && (forall d :: d in relevance <==>
          d in documents && PostedAmong(index, plus, d) && pred(d, documents[d].status, documents[d].rating))
    && (forall d :: d in relevance ==> relevance[d] == Score(index, |documents|, plus, d, idf))
  }

  /** One plus word more: the inner loop's update keeps `Gathered`. */
  lemma GatherStep(index: Postings, documents: Documents, pred: Filter, idf: Idf, plus: seq<string>, i: nat,
                   relevance: map<int, real>, next: map<int, real>)
    requires i < |plus| && plus[i] in index
    requires Gathered(index, documents, pred, idf, plus[..i], relevance)
    requires WordGathered(relevance, index[plus[i]], idf(|documents|, |index[plus[i]]|), documents, pred,
                          index[plus[i]].Keys, next)
    ensures Gathered(index, documents, pred, idf, plus[..i + 1], next)
  {
    forall d
      ensures d in next <==>
        d in documents && PostedAmong(index, plus[..i + 1], d) && pred(d, documents[d].status, documents[d].rating)
      ensures d in next ==> next[d] == Score(index, |documents|, plus[..i + 1], d, idf)
    {
      PostedAmongStep(index, plus, i, d);
      ScoreStep(index, |documents|, plus, i, d, idf);
      if d !in relevance && d in documents && pred(d, documents[d].status, documents[d].rating) {
        ScoreUnposted(index, |documents|, plus[..i], d, idf);
      }
    }
  }

  /** A plus word absent from the index changes nothing. */
  lemma GatherSkip(index: Postings, documents: Documents, pred: Filter, idf: Idf, plus: seq<string>, i: nat,
                   relevance: map<int, real>)
    requires i < |plus| && plus[i] !in index
    requires Gathered(index, documents, pred, idf, plus[..i], relevance)
    ensures Gathered(index, documents, pred, idf, plus[..i + 1], relevance)
  {
    forall d
      ensures PostedAmong(index, plus[..i + 1], d) <==> PostedAmong(index, plus[..i], d)
      ensures Score(index, |documents|, plus[..i + 1], d, idf) == Score(index, |documents|, plus[..i], d, idf)
    {
      PostedAmongStep(index, plus, i, d);
      ScoreStep(index, |documents|, plus, i, d, idf);
    }
  }

  /** Some word among `words` posts an id that `documents_` lacks. */
  ghost predicate DanglesAmong(index: Postings, documents: Documents, words: seq<string>)
  {
    exists k, d :: 0 <= k < |words| && Posted(index, words[k], d) && d !in documents
  }

  lemma DanglesStep(index: Postings, documents: Documents, words: seq<string>, i: nat)
    requires i < |words|
    ensures DanglesAmong(index, documents, words[..i + 1]) <==>
      DanglesAmong(index, documents, words[..i]) || exists d :: Posted(index, words[i], d) && d !in documents
  {
    var prefix := words[..i + 1];
    if DanglesAmong(index, documents, prefix) {
      var k, d :| 0 <= k < |prefix| && Posted(index, prefix[k], d) && d !in documents;
      if k < i {
        assert words[..i][k] == prefix[k];
      }
    }
    if DanglesAmong(index, documents, words[..i]) {
      var k, d :| 0 <= k < i && Posted(index, words[..i][k], d) && d !in documents;
      assert prefix[k] == words[..i][k];
    }
    if exists d :: Posted(index, words[i], d) && d !in documents {
      assert prefix[i] == words[i];
    }
  }

  /** One iteration of the plus-word loop: the postings of `plus[i]`, or
      nothing for a word absent from the index. */
  method GatherNext(index: Postings, documents: Documents, plus: seq<string>, i: nat, pred: Filter, idf: Idf,
                    relevance: map<int, real>)
    returns (r: Result<map<int, real>>)
    requires i < |plus|
    requires Gathered(index, documents, pred, idf, plus[..i], relevance)
    ensures r.Failure? <==> exists d :: Posted(index, plus[i], d) && d !in documents
    ensures r.Failure? ==> r.error == OutOfRange
    ensures r.Success? ==> Gathered(index, documents, pred, idf, plus[..i + 1], r.value)
  {
    var word := plus[i];
    if word in index {
      var postings := index[word];
      r := GatherWord(relevance, postings, idf(|documents|, |postings|), documents, pred);
      if r.Success? {
        GatherStep(index, documents, pred, idf, plus, i, relevance, r.value);
      }
    } else {
      GatherSkip(index, documents, pred, idf, plus, i, relevance);
      r := Success(relevance);
    }
  }

  /** The plus-word loop of `FindAllDocuments`, words in set order; a word
      absent from the index is skipped. */
  method GatherPlus(index: Postings, documents: Documents, plus: seq<string>, pred: Filter, idf: Idf)
    returns (r: Result<map<int, real>>)
    ensures r.Failure? <==> DanglesAmong(index, documents, plus)
    ensures r.Failure? ==> r.error == OutOfRange
    ensures r.Success? ==> Gathered(index, documents, pred, idf, plus, r.value)
  {
    var relevance: map<int, real> := map[];
    var i := 0;
    assert plus[..0] == [];
    while i < |plus|
      invariant 0 <= i <= |plus|
      invariant !DanglesAmong(index, documents, plus[..i])
      invariant Gathered(index, documents, pred, idf, plus[..i], relevance)
    {
      var step := GatherNext(index, documents, plus, i, pred, idf, relevance);
      DanglesStep(index, documents, plus, i);
      if step.Failure? {
        assert DanglesAmong(index, documents, plus[..i + 1]);
        DanglesPrefix(index, documents, plus, i + 1);
        return Failure(OutOfRange);
      }
      relevance := step.value;
      i := i + 1;
    }
    assert plus[..i] == plus;
    return Success(relevance);
  }

  /** A prefix that dangles makes the whole sequence dangle. */
  lemma DanglesPrefix(index: Postings, documents: Documents, words: seq<string>, n: nat)
    requires n <= |words| && DanglesAmong(index, documents, words[..n])
    ensures DanglesAmong(index, documents, words)
  {
    var k, d :| 0 <= k < n && Posted(index, words[..n][k], d) && d !in documents;
    assert words[..n][k] == words[k];
  }

  /** The inner loop over one minus word's postings: each id is erased. */
  method EraseIds(relevance: map<int, real>, postings: map<int, real>) returns (r: map<int, real>)
    ensures forall d :: d in r <==> d in relevance && d !in postings
    ensures forall d :: d in r ==> r[d] == relevance[d]
  {
    r := EraseEach(relevance, SortedIds(postings.Keys));
  }

  /** The loop of `EraseIds` over the posted ids `ids`. */
  method EraseEach(relevance: map<int, real>, ids: seq<int>) returns (r: map<int, real>)
    ensures forall d :: d in r <==> d in relevance && d !in ids
    ensures forall d :: d in r ==> r[d] == relevance[d]
  {
    r := relevance;
    var j := 0;
    while j < |ids|
      invariant 0 <= j <= |ids|
      invariant forall d :: d in r <==> d in relevance && d !in ids[..j]
      invariant forall d :: d in r ==> r[d] == relevance[d]
    {
      assert ids[..j + 1] == ids[..j] + [ids[j]];
      r := r - {ids[j]};
      j := j + 1;
    }
    assert ids[..j] == ids;
  }

  /** The minus-word loop of `FindAllDocuments`: every posting of every minus
      word is erased from the relevance map, with no predicate involved. */
  method VetoMinus(index: Postings, minus: seq<string>, gathered: map<int, real>) returns (relevance: map<int, real>)
    ensures forall d :: d in relevance <==> d in gathered && !PostedAmong(index, minus, d)
    ensures forall d :: d in relevance ==> relevance[d] == gathered[d]
  {
    relevance := gathered;
    var k := 0;
    while k < |minus|
      invariant 0 <= k <= |minus|
      invariant forall d :: d in relevance <==> d in gathered && !PostedAmong(index, minus[..k], d)
      invariant forall d :: d in relevance ==> relevance[d] == gathered[d]
    {
      var word := minus[k];
      if word in index {
        relevance := EraseIds(relevance, index[word]);
      }
      forall d ensures PostedAmong(index, minus[..k + 1], d) <==> PostedAmong(index, minus[..k], d) || Posted(index, word, d) {
        PostedAmongStep(index, minus, k, d);
      }
      k := k + 1;
    }
    assert minus[..k] == minus;
  }

  /** The last loop of `FindAllDocuments`: one `Document` per id, with the
      accumulated relevance and the stored rating. */
  method ListDocuments(relevance: map<int, real>, documents: Documents, ids: seq<int>) returns (docs: seq<Document>)
    requires forall t :: 0 <= t < |ids| ==> ids[t] in relevance && ids[t] in documents
    ensures |docs| == |ids|
    ensures forall t :: 0 <= t < |ids| ==> docs[t] == Document(ids[t], relevance[ids[t]], documents[ids[t]].rating)
  {
    docs := [];
    var m := 0;
    while m < |ids|
      invariant 0 <= m <= |ids|
      invariant |docs| == m
      invariant forall t :: 0 <= t < m ==> docs[t] == Document(ids[t], relevance[ids[t]], documents[ids[t]].rating)
    {
      docs := docs + [Document(ids[m], relevance[ids[m]], documents[ids[m]].rating)];
      m := m + 1;
    }
  }

  /** What survives the two loops is exactly the candidates, each with its
      score. */
  lemma SurvivorsAreCandidates(index: Postings, documents: Documents, q: Query, pred: Filter, idf: Idf,
                               gathered: map<int, real>, relevance: map<int, real>)
    requires Gathered(index, documents, pred, idf, SortedWords(q.plus), gathered)
    requires forall d :: d in relevance <==> d in gathered && !PostedAmong(index, SortedWords(q.minus), d)
    requires forall d :: d in relevance ==> relevance[d] == gathered[d]
    ensures relevance.Keys == Candidates(index, documents, q, pred)
    ensures forall d :: d in relevance ==> d in documents
    ensures forall d :: d in relevance ==> relevance[d] == Score(index, |documents|, SortedWords(q.plus), d, idf)
  {
    forall d ensures d in relevance <==> d in Candidates(index, documents, q, pred) {
      PostedAmongSorted(index, q.plus, d);
      PostedAmongSorted(index, q.minus, d);
    }
  }

  lemma NoDanglingPlus(index: Postings, documents: Documents, q: Query)
    requires !DanglesAmong(index, documents, SortedWords(q.plus))
    ensures !Dangling(index, documents, q)
  {
    var plus := SortedWords(q.plus);
    forall w, d | w in q.plus && w in index && d in index[w] ensures d in documents {
      assert w in plus;
      var k :| 0 <= k < |plus| && plus[k] == w;
      assert Posted(index, plus[k], d);
    }
  }

  lemma DanglingPlus(index: Postings, documents: Documents, q: Query)
    requires DanglesAmong(index, documents, SortedWords(q.plus))
    ensures Dangling(index, documents, q)
  {
    var plus := SortedWords(q.plus);
    var k, d :| 0 <= k < |plus| && Posted(index, plus[k], d) && d !in documents;
    assert plus[k] in q.plus && plus[k] in index && d in index[plus[k]];
  }

  lemma ListingOf(index: Postings, documents: Documents, plus: seq<string>, idf: Idf,
                  relevance: map<int, real>, ids: seq<int>, docs: seq<Document>)
    requires forall t :: 0 <= t < |ids| ==> ids[t] in relevance && ids[t] in documents
    requires forall d :: d in relevance ==> relevance[d] == Score(index, |documents|, plus, d, idf)
    requires |docs| == |ids|
    requires forall t :: 0 <= t < |ids| ==> docs[t] == Document(ids[t], relevance[ids[t]], documents[ids[t]].rating)
    ensures docs == Listing(index, documents, plus, idf, ids)
  {
  }

  /** `FindAllDocuments`: the plus-word loop, the minus-word loop, then one
      `Document` per remaining id in ascending order. */
  method FindAllDocuments(index: Postings, documents: Documents, q: Query, pred: Filter, idf: Idf)
    returns (r: Result<seq<Document>>)
    ensures r == AllDocuments(index, documents, q, pred, idf)
  {
    var plus := SortedWords(q.plus);
    var gathered := GatherPlus(index, documents, plus, pred, idf);
    if gathered.Failure? {
      DanglingPlus(index, documents, q);
      return Failure(OutOfRange);
    }
    var docs := FindSurvivors(index, documents, q, pred, idf, gathered.value);
    return Success(docs);
  }

  /** The minus-word loop and the listing loop of `FindAllDocuments`, once
      the plus-word loop gathered `gathered` without a dangling id. */
  method FindSurvivors(index: Postings, documents: Documents, q: Query, pred: Filter, idf: Idf,
                       gathered: map<int, real>)
    returns (docs: seq<Document>)
    requires Gathered(index, documents, pred, idf, SortedWords(q.plus), gathered)
    requires !DanglesAmong(index, documents, SortedWords(q.plus))
    ensures Success(docs) == AllDocuments(index, documents, q, pred, idf)
  {
    var relevance := VetoMinus(index, SortedWords(q.minus), gathered);
    SurvivorsAreCandidates(index, documents, q, pred, idf, gathered, relevance);
    var ids := SortedIds(relevance.Keys);
    forall t | 0 <= t < |ids| ensures ids[t] in relevance && ids[t] in documents {
      assert ids[t] in ids;
    }
    docs := ListDocuments(relevance, documents, ids);
    FoundAll(index, documents, q, pred, idf, relevance, ids, docs);
  }

  /** The listing of the survivors is `AllDocuments` when no plus word
      dangles. */
  lemma FoundAll(index: Postings, documents: Documents, q: Query, pred: Filter, idf: Idf,
                 relevance: map<int, real>, ids: seq<int>, docs: seq<Document>)
    requires !DanglesAmong(index, documents, SortedWords(q.plus))
    requires relevance.Keys == Candidates(index, documents, q, pred)
    requires forall d :: d in relevance ==> relevance[d] == Score(index, |documents|, SortedWords(q.plus), d, idf)
    requires ids == SortedIds(relevance.Keys)
    requires |docs| == |ids|
    requires forall t :: 0 <= t < |ids| ==> docs[t] == Document(ids[t], relevance[ids[t]], documents[ids[t]].rating)
    ensures Success(docs) == AllDocuments(index, documents, q, pred, idf)
  {
    NoDanglingPlus(index, documents, q);
    forall t | 0 <= t < |ids| ensures ids[t] in relevance && ids[t] in documents {
      assert ids[t] in ids;
    }
    ListingOf(index, documents, SortedWords(q.plus), idf, relevance, ids, docs);
  }

  // ------------------------------------------------------------- ranking

  /** The order the comparator intends: higher relevance first, then higher
      rating. */
  predicate RanksBefore(a: Document, b: Document)
  {
    a.relevance > b.relevance || (a.relevance == b.relevance && a.rating > b.rating)
  }

  /** `RanksBefore` is a strict weak order: irreflexive, transitive, and two
      documents are tied exactly when relevance and rating are equal, so ties
      are transitive too (what `std::sort` demands of its comparator). */
  lemma RanksBeforeIsStrictWeak(a: Document, b: Document, c: Document)
    ensures !RanksBefore(a, a)
    ensures RanksBefore(a, b) && RanksBefore(b, c) ==> RanksBefore(a, c)
    ensures (!RanksBefore(a, b) && !RanksBefore(b, a)) <==> (a.relevance == b.relevance && a.rating == b.rating)
    ensures (!RanksBefore(a, b) && !RanksBefore(b, a)) && (!RanksBefore(b, c) && !RanksBefore(c, b))
            ==> !RanksBefore(a, c) && !RanksBefore(c, a)
  {
  }

  /** The source's comparator: relevances within `ACCURACY` compare by
      rating, others by relevance. */
  predicate EpsilonBefore(a: Document, b: Document)
  {
    var diff := a.relevance - b.relevance;
    if (if diff < 0.0 then -diff else diff) < ACCURACY then a.rating > b.rating
    else a.relevance > b.relevance
  }

  /** The comparator as written is not transitive, so it is no strict weak
      order and `std::sort` may misbehave: three documents each within
      `ACCURACY` of the next form a cycle. */
  lemma EpsilonBeforeCycles()
    ensures var a := Document(1, 0.0, 3);
            var b := Document(2, 0.0000006, 2);
            var c := Document(3, 0.0000012, 1);
            EpsilonBefore(a, b) && EpsilonBefore(b, c) && EpsilonBefore(c, a)
  {
  }

  predicate RankSorted(s: seq<Document>)
  {
    forall i, j :: 0 <= i < j < |s| ==> !RanksBefore(s[j], s[i])
  }

  predicate DistinctIds(s: seq<Document>)
  {
    forall i, j :: 0 <= i < j < |s| ==> s[i].id != s[j].id
  }

  /** Insertion of `x` into a ranked sequence, after the documents it ties. */
  function Insert(x: Document, s: seq<Document>): seq<Document>
  {
    if s == [] || RanksBefore(x, s[0]) then [x] + s
    else [s[0]] + Insert(x, s[1..])
  }

  /** `std::sort` with the intended comparator, as an insertion sort. */
  function SortByRank(docs: seq<Document>): seq<Document>
  {
    if docs == [] then []
    else Insert(docs[|docs| - 1], SortByRank(docs[..|docs| - 1]))
  }

  lemma {:induction false} InsertPerm(x: Document, s: seq<Document>)
    ensures multiset(Insert(x, s)) == multiset(s) + multiset{x}
  {
    if s != [] && !RanksBefore(x, s[0]) {
      assert s == [s[0]] + s[1..];
      InsertPerm(x, s[1..]);
    }
  }

  lemma InsertMembers(x: Document, s: seq<Document>)
    ensures forall e :: e in Insert(x, s) <==> e == x || e in s
  {
    InsertPerm(x, s);
    forall e ensures e in Insert(x, s) <==> e in multiset(Insert(x, s)) {
    }
  }

  /** A document no later one ranks before stays ranked in front. */
  lemma ConsRanked(h: Document, t: seq<Document>)
    requires RankSorted(t)
    requires forall e :: e in t ==> !RanksBefore(e, h)
    ensures RankSorted([h] + t)
  {
    var r := [h] + t;
    forall i, j | 0 <= i < j < |r| ensures !RanksBefore(r[j], r[i]) {
      assert r[j] == t[j - 1];
      if i > 0 {
        assert r[i] == t[i - 1];
      }
    }
  }

  /** A document whose id no later one has keeps ids distinct in front. */
  lemma ConsDistinct(h: Document, t: seq<Document>)
    requires DistinctIds(t)
    requires forall e :: e in t ==> e.id != h.id
    ensures DistinctIds([h] + t)
  {
    var r := [h] + t;
    forall i, j | 0 <= i < j < |r| ensures r[i].id != r[j].id {
      assert r[j] == t[j - 1];
      if i > 0 {
        assert r[i] == t[i - 1];
      }
    }
  }

  lemma {:induction false} InsertSorted(x: Document, s: seq<Document>)
    requires RankSorted(s)
    ensures RankSorted(Insert(x, s))
  {
    if s == [] || RanksBefore(x, s[0]) {
      forall e | e in s ensures !RanksBefore(e, x) {
        var k :| 0 <= k < |s| && s[k] == e;
        RanksBeforeIsStrictWeak(e, x, s[0]);
      }
      ConsRanked(x, s);
    } else {
      var tail := s[1..];
      InsertSorted(x, tail);
      InsertMembers(x, tail);
      forall e | e in Insert(x, tail) ensures !RanksBefore(e, s[0]) {
        if e != x {
          var k :| 0 <= k < |tail| && tail[k] == e;
          assert s[k + 1] == e;
        }
      }
      ConsRanked(s[0], Insert(x, tail));
    }
  }

  /** Insertion keeps the elements and the ranking. */
  lemma InsertCorrect(x: Document, s: seq<Document>)
    requires RankSorted(s)
    ensures multiset(Insert(x, s)) == multiset(s) + multiset{x}
    ensures RankSorted(Insert(x, s))
  {
    InsertPerm(x, s);
    InsertSorted(x, s);
  }

  lemma {:induction false} InsertDistinct(x: Document, s: seq<Document>)
    requires DistinctIds(s)
    requires forall e :: e in s ==> e.id != x.id
    ensures DistinctIds(Insert(x, s))
  {
    if s == [] || RanksBefore(x, s[0]) {
      ConsDistinct(x, s);
    } else {
      var tail := s[1..];
      assert DistinctIds(tail) by {
        forall i, j | 0 <= i < j < |tail| ensures tail[i].id != tail[j].id {
          assert tail[i] == s[i + 1] && tail[j] == s[j + 1];
        }
      }
      InsertDistinct(x, tail);
      InsertMembers(x, tail);
      forall e | e in Insert(x, tail) ensures e.id != s[0].id {
        if e != x {
          var k :| 0 <= k < |tail| && tail[k] == e;
          assert s[k + 1] == e;
        }
      }
      ConsDistinct(s[0], Insert(x, tail));
    }
  }

  /** The sort is a permutation, ranked, and keeps ids distinct. */
  lemma {:induction false} SortByRankCorrect(docs: seq<Document>)
    ensures multiset(SortByRank(docs)) == multiset(docs)
    ensures RankSorted(SortByRank(docs))
    ensures DistinctIds(docs) ==> DistinctIds(SortByRank(docs))
  {
    if docs != [] {
      var init := docs[..|docs| - 1];
      var last := docs[|docs| - 1];
      assert docs == init + [last];
      SortByRankCorrect(init);
      InsertCorrect(last, SortByRank(init));
      if DistinctIds(docs) {
        assert DistinctIds(init);
        forall e | e in SortByRank(init) ensures e.id != last.id {
          assert e in multiset(init);
          var k :| 0 <= k < |init| && init[k] == e;
          assert docs[k] == e;
        }
        InsertDistinct(last, SortByRank(init));
      }
    }
  }

  /** `result.resize(MAX_RESULT_DOCUMENT_COUNT)` when longer. */
  function Cutoff(docs: seq<Document>): (r: seq<Document>)
    ensures |r| <= MAX_RESULT_DOCUMENT_COUNT
    ensures |r| == if |docs| < MAX_RESULT_DOCUMENT_COUNT then |docs| else MAX_RESULT_DOCUMENT_COUNT
    ensures r == docs[..|r|]
  {
    if |docs| > MAX_RESULT_DOCUMENT_COUNT then docs[..MAX_RESULT_DOCUMENT_COUNT] else docs
  }

  /** What `FindTopDocuments(raw_query, predicate)` returns once the query is
      parsed: the ranked candidates, at most five. */
  function Top(index: Postings, documents: Documents, q: Query, pred: Filter, idf: Idf): Result<seq<Document>>
  {
    match AllDocuments(index, documents, q, pred, idf)
    case Failure(e) => Failure(e)
    case Success(docs) => Success(Cutoff(SortByRank(docs)))
  }

  /** The sort and the resize of `FindTopDocuments`. */
  method FindTopDocuments(index: Postings, documents: Documents, q: Query, pred: Filter, idf: Idf)
    returns (r: Result<seq<Document>>)
    ensures r == Top(index, documents, q, pred, idf)
  {
    var all := FindAllDocuments(index, documents, q, pred, idf);
    if all.Failure? {
      return Failure(all.error);
    }
    var result := SortByRank(all.value);
    if |result| > MAX_RESULT_DOCUMENT_COUNT {
      result := result[..MAX_RESULT_DOCUMENT_COUNT];
    }
    return Success(result);
  }

  // ------------------------------------------------------------- meaning

  /** A search fails exactly when a plus word posts an unknown id. Otherwise
      the documents found are exactly the candidates, once each, in
      ascending id order, each with its score and its stored rating. */
  lemma AllDocumentsMeaning(index: Postings, documents: Documents, q: Query, pred: Filter, idf: Idf)
    ensures AllDocuments(index, documents, q, pred, idf).Failure? <==> Dangling(index, documents, q)
    ensures AllDocuments(index, documents, q, pred, idf).Failure? ==>
      AllDocuments(index, documents, q, pred, idf).error == OutOfRange
    ensures AllDocuments(index, documents, q, pred, idf).Success? ==>
      var docs := AllDocuments(index, documents, q, pred, idf).value;
      && |docs| == |Candidates(index, documents, q, pred)|
      && (forall d :: d in Candidates(index, documents, q, pred) <==> exists i :: 0 <= i < |docs| && docs[i].id == d)
      && (forall i, j :: 0 <= i < j < |docs| ==> docs[i].id < docs[j].id)
      && (forall i :: 0 <= i < |docs| ==>
            (&& docs[i].id in documents
             && docs[i].rating == documents[docs[i].id].rating
             && docs[i].relevance == Score(index, |documents|, SortedWords(q.plus), docs[i].id, idf)))
  {
    if !Dangling(index, documents, q) {
      ListingMeaning(index, documents, SortedWords(q.plus), idf, Candidates(index, documents, q, pred));
    }
  }

  /** The listing of a set of ids: one document per id, in ascending id
      order, each with its score and stored rating. */
  lemma ListingMeaning(index: Postings, documents: Documents, plus: seq<string>, idf: Idf, s: set<int>)
    requires forall d :: d in s ==> d in documents
    ensures
      var docs := Listing(index, documents, plus, idf, SortedIds(s));
      && |docs| == |s|
      && (forall d :: d in s <==> exists i :: 0 <= i < |docs| && docs[i].id == d)
      && (forall i, j :: 0 <= i < j < |docs| ==> docs[i].id < docs[j].id)
      && (forall i :: 0 <= i < |docs| ==>
            (&& docs[i].id in documents
             && docs[i].rating == documents[docs[i].id].rating
             && docs[i].relevance == Score(index, |documents|, plus, docs[i].id, idf)))
  {
    var ids := SortedIds(s);
    SortedIdsAscending(s);
    ListingShape(index, documents, plus, idf, ids);
    var docs := Listing(index, documents, plus, idf, ids);
    forall d | d in s ensures exists i :: 0 <= i < |docs| && docs[i].id == d {
      var i :| 0 <= i < |ids| && ids[i] == d;
      assert docs[i].id == d;
    }
  }

  lemma ListingShape(index: Postings, documents: Documents, plus: seq<string>, idf: Idf, ids: seq<int>)
    requires forall d :: d in ids ==> d in documents
    ensures |Listing(index, documents, plus, idf, ids)| == |ids|
    ensures forall i :: 0 <= i < |ids| ==>
      Listing(index, documents, plus, idf, ids)[i]
        == Document(ids[i], Score(index, |documents|, plus, ids[i], idf), documents[ids[i]].rating)
  {
  }

  /** The predicate is consulted, and a candidate needs a plus word, so with
      no plus word posted anywhere nothing is found, whatever the minus words. */
  lemma NoPlusPostingsNoResults(index: Postings, documents: Documents, q: Query, pred: Filter, idf: Idf)
    requires forall w, d :: w in q.plus ==> !Posted(index, w, d)
    ensures AllDocuments(index, documents, q, pred, idf) == Success([])
    ensures Top(index, documents, q, pred, idf) == Success([])
  {
    forall w, d | w in q.plus ensures !(w in index && d in index[w]) {
      assert !Posted(index, w, d);
    }
    assert Candidates(index, documents, q, pred) == {};
    var ids := SortedIds(Candidates(index, documents, q, pred));
    assert |ids| == 0;
    assert Listing(index, documents, SortedWords(q.plus), idf, ids) == [];
    assert SortByRank([]) == [];
  }

  /** The minus-word veto is unconditional: a document with a posting for a
      minus word is never found, whatever the predicate says. */
  lemma MinusWordVetoes(index: Postings, documents: Documents, q: Query, pred: Filter, idf: Idf, w: string, d: int)
    requires w in q.minus && Posted(index, w, d)
    ensures AllDocuments(index, documents, q, pred, idf).Success? ==>
      forall doc :: doc in AllDocuments(index, documents, q, pred, idf).value ==> doc.id != d
  {
    AllDocumentsMeaning(index, documents, q, pred, idf);
    if AllDocuments(index, documents, q, pred, idf).Success? {
      var docs := AllDocuments(index, documents, q, pred, idf).value;
      forall doc | doc in docs ensures doc.id != d {
        var i :| 0 <= i < |docs| && docs[i] == doc;
        assert doc.id in Candidates(index, documents, q, pred);
      }
    }
  }

  /** Sorting then cutting: at most five documents taken from `all`, ranked,
      ids still distinct, and none left out ranks before one kept. */
  lemma RankedCutoff(all: seq<Document>)
    requires DistinctIds(all)
    ensures var top := Cutoff(SortByRank(all));
      && |top| == (if |all| < MAX_RESULT_DOCUMENT_COUNT then |all| else MAX_RESULT_DOCUMENT_COUNT)
      && (forall doc :: doc in top ==> doc in all)
      && DistinctIds(top)
      && RankSorted(top)
      && (forall x, y :: x in all && x !in top && y in top ==> !RanksBefore(x, y))
  {
    var sorted := SortByRank(all);
    var top := Cutoff(sorted);
    SortByRankCorrect(all);
    assert |sorted| == |all| by {
      assert |multiset(sorted)| == |multiset(all)|;
    }
    forall doc | doc in top ensures doc in all {
      assert doc in multiset(sorted);
    }
    forall i, j | 0 <= i < j < |top| ensures top[i].id != top[j].id && !RanksBefore(top[j], top[i]) {
      assert top[i] == sorted[i] && top[j] == sorted[j];
    }
    forall x, y | x in all && x !in top && y in top ensures !RanksBefore(x, y) {
      assert x in multiset(sorted);
      var j :| 0 <= j < |sorted| && sorted[j] == x;
      var i :| 0 <= i < |top| && top[i] == y;
      assert sorted[i] == y;
    }
  }

  /** The top documents: at most five, each a candidate with its stored
      rating, ids distinct, ranked, and no document left out ranks before
      one kept. */
  lemma TopMeaning(index: Postings, documents: Documents, q: Query, pred: Filter, idf: Idf)
    ensures Top(index, documents, q, pred, idf).Failure? <==> Dangling(index, documents, q)
    ensures Top(index, documents, q, pred, idf).Success? ==>
      var all := AllDocuments(index, documents, q, pred, idf).value;
      var top := Top(index, documents, q, pred, idf).value;
      && |top| == (if |all| < MAX_RESULT_DOCUMENT_COUNT then |all| else MAX_RESULT_DOCUMENT_COUNT)
      && (forall doc :: doc in top ==>
            doc.id in Candidates(index, documents, q, pred) && doc.rating == documents[doc.id].rating)
      && DistinctIds(top)
      && RankSorted(top)
      && (forall x, y :: x in all && x !in top && y in top ==> !RanksBefore(x, y))
  {
    if !Dangling(index, documents, q) {
      var all := AllDocuments(index, documents, q, pred, idf).value;
      assert DistinctIds(all) && forall doc :: doc in all ==>
        doc.id in Candidates(index, documents, q, pred) && doc.rating == documents[doc.id].rating
      by {
        AllDocumentsMeaning(index, documents, q, pred, idf);
        forall i, j | 0 <= i < j < |all| ensures all[i].id != all[j].id {
          assert all[i].id < all[j].id;
        }
        forall doc | doc in all
          ensures doc.id in Candidates(index, documents, q, pred) && doc.rating == documents[doc.id].rating
        {
          var i :| 0 <= i < |all| && all[i] == doc;
        }
      }
      RankedCutoff(all);
    }
  }
}
