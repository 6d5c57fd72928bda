/** `RemoveDuplicates` on the latest server: documents with the same set of
    words are duplicates, and of each group only the smallest id stays. */
module Duplicates {
  import opened Orders
  import opened Index
  import opened LatestServer

  /** The words of a document: the keys of its word frequencies. */
  function WordSet(freqs: WordFrequencies, id: int): set<string>
  {
    FreqsOf(freqs, id).Keys
  }

  /** The ids that survive: no smaller id has the same word set. */
  function Kept(ids: set<int>, freqs: WordFrequencies): (r: set<int>)
    ensures r <= ids
  {
    set id | id in ids && forall other :: other in ids && WordSet(freqs, other) == WordSet(freqs, id) ==> id <= other
  }

  /** The distinct word sets among `ids`. */
  function WordSets(ids: set<int>, freqs: WordFrequencies): set<set<string>>
  {
    set id | id in ids :: WordSet(freqs, id)
  }

  // ------------------------------------------------------------ the scan

  /** What the scan over the ids visited so far (`seen`) has built: the
      smallest id of each word set met, and the other ids, each once. */
  ghost predicate Scanned(seen: set<int>, freqs: WordFrequencies, firstOf: map<set<string>, int>, toRemove: seq<int>)
  {
    && (forall ws :: ws in firstOf ==>
          && firstOf[ws] in seen && WordSet(freqs, firstOf[ws]) == ws
          && forall o :: o in seen && WordSet(freqs, o) == ws ==> firstOf[ws] <= o)
    && (forall o :: o in seen ==> WordSet(freqs, o) in firstOf)
    && Distinct(toRemove)
    && (forall d :: d in toRemove <==> d in seen && firstOf[WordSet(freqs, d)] != d)
  }

  /** One iteration of the scan, for the id `id` with word set `words`. */
  function Visit(firstOf: map<set<string>, int>, toRemove: seq<int>, id: int, words: set<string>)
    : (map<set<string>, int>, seq<int>)
  {
    if words in firstOf then
      if firstOf[words] > id then (firstOf[words := id], toRemove + [firstOf[words]])
      else (firstOf, toRemove + [id])
    else (firstOf[words := id], toRemove)
  }

  lemma VisitStep(seen: set<int>, freqs: WordFrequencies, firstOf: map<set<string>, int>, toRemove: seq<int>, id: int,
                  seen': set<int>)
    requires Scanned(seen, freqs, firstOf, toRemove)
    requires id !in seen && seen' == seen + {id}
    ensures Scanned(seen', freqs, Visit(firstOf, toRemove, id, WordSet(freqs, id)).0,
                    Visit(firstOf, toRemove, id, WordSet(freqs, id)).1)
  {
    var words := WordSet(freqs, id);
    var (f, t) := Visit(firstOf, toRemove, id, words);
    forall d ensures d in t <==> d in seen' && f[WordSet(freqs, d)] != d {
      if d in seen {
        assert WordSet(freqs, d) in firstOf;
      }
    }
    if words in firstOf && firstOf[words] > id {
      assert firstOf[words] !in toRemove;
    }
    assert Distinct(t) by {
      forall i, j | 0 <= i < j < |t| ensures t[i] != t[j] {
        if j == |toRemove| {
          assert t[i] in toRemove;
        } else {
          assert t[i] == toRemove[i] && t[j] == toRemove[j];
        }
      }
    }
  }

  /** The scan state after visiting the ids of `ids`, in order. */
  function Scan(ids: seq<int>, freqs: WordFrequencies): (map<set<string>, int>, seq<int>)
  {
    if ids == [] then (map[], [])
    else
      var (f, t) := Scan(ids[..|ids| - 1], freqs);
      Visit(f, t, ids[|ids| - 1], WordSet(freqs, ids[|ids| - 1]))
  }

  /** Scanning ids in ascending order builds a `Scanned` state. */
  lemma {:induction false} ScanMeaning(ids: seq<int>, seen: set<int>, freqs: WordFrequencies)
    requires forall i, j :: 0 <= i < j < |ids| ==> ids[i] < ids[j]
    requires forall d :: d in ids <==> d in seen
    ensures Scanned(seen, freqs, Scan(ids, freqs).0, Scan(ids, freqs).1)
    decreases |ids|
  {
    if ids != [] {
      var init, last := ids[..|ids| - 1], ids[|ids| - 1];
      var rest := seen - {last};
      assert forall d :: d in init <==> d in rest by {
        assert ids == init + [last];
        assert last !in init;
      }
      ScanMeaning(init, rest, freqs);
      var (f, t) := Scan(init, freqs);
      VisitStep(rest, freqs, f, t, last, seen);
      assert Scan(ids, freqs) == Visit(f, t, last, WordSet(freqs, last));
    }
  }

  /** At the end of the scan the ids queued for removal are exactly the
      ids that do not survive. */
  lemma ScannedAll(ids: set<int>, freqs: WordFrequencies, firstOf: map<set<string>, int>, toRemove: seq<int>)
    requires Scanned(ids, freqs, firstOf, toRemove)
    ensures forall d :: d in toRemove <==> d in ids - Kept(ids, freqs)
  {
    forall d | d in ids ensures d in Kept(ids, freqs) <==> firstOf[WordSet(freqs, d)] == d {
      var m := firstOf[WordSet(freqs, d)];
      if d in Kept(ids, freqs) {
        assert d <= m && m <= d;
      }
    }
  }

  /** Scanning all ids in ascending order queues each dropped id once. */
  lemma ScanOutcome(ids: seq<int>, idBase: set<int>, freqs: WordFrequencies)
    requires forall i, j :: 0 <= i < j < |ids| ==> ids[i] < ids[j]
    requires forall d :: d in ids <==> d in idBase
    ensures Distinct(Scan(ids, freqs).1)
    ensures forall d :: d in Scan(ids, freqs).1 <==> d in idBase - Kept(idBase, freqs)
  {
    ScanMeaning(ids, idBase, freqs);
    ScannedAll(idBase, freqs, Scan(ids, freqs).0, Scan(ids, freqs).1);
  }

  /** The keys of a word-frequency map, read in order into a set. */
  method KeysOf(m: map<string, real>) returns (words: set<string>)
    ensures words == m.Keys
  {
    var keys := SortedWords(m.Keys);
    words := {};
    var i := 0;
    while i < |keys|
      invariant 0 <= i <= |keys|
      invariant words == set j | 0 <= j < i :: keys[j]
    {
      words := words + {keys[i]};
      i := i + 1;
    }
    assert words == m.Keys by {
      forall w | w in m.Keys ensures w in words {
        var j :| 0 <= j < |keys| && keys[j] == w;
      }
    }
  }

  /** `RemoveDuplicates`: scan the ids in order, queue every id whose word
      set an id met earlier has (keeping the smaller one), then remove the
      queued ids one by one with `RemoveDocument`. */
  method RemoveDuplicates(server: SearchServer)
    requires server.Valid()
    modifies server
    ensures server.Valid()
    ensures
      var kept := Kept(old(server.idBase), old(server.wordFreqs));
      var dropped := old(server.idBase) - kept;
      && server.idBase == kept
      && server.documents == old(server.documents) - dropped
      && server.wordFreqs == old(server.wordFreqs) - dropped
      && server.index == ErasedAll(old(server.index), dropped)
      && server.stopWords == old(server.stopWords)
    ensures server.GetDocumentCount() == |WordSets(old(server.idBase), old(server.wordFreqs))|
  {
    KeptCount(server.idBase, server.wordFreqs);
    var toRemove := FindDuplicates(server);
    ghost var dropped := server.idBase - Kept(server.idBase, server.wordFreqs);
    assert (set d | d in toRemove && d in server.idBase) == dropped;
    RemoveAll(server, toRemove);
  }

  /** The scan of `RemoveDuplicates`: the ids queued for removal, each once,
      are exactly those a smaller id with the same word set precedes. */
  method FindDuplicates(server: SearchServer) returns (toRemove: seq<int>)
    requires server.Valid()
    ensures Distinct(toRemove)
    ensures forall d :: d in toRemove <==> d in server.idBase - Kept(server.idBase, server.wordFreqs)
  {
    var ids := server.Ids();
    toRemove := ScanIds(server, ids);
    ScanOutcome(ids, server.idBase, server.wordFreqs);
  }

  /** The loop of the scan over `ids`: the word set of each id, then one
      step of `Visit`. */
  method ScanIds(server: SearchServer, ids: seq<int>) returns (toRemove: seq<int>)
    requires server.Valid()
    ensures toRemove == Scan(ids, server.wordFreqs).1
  {
    toRemove := [];
    var firstOf: map<set<string>, int> := map[];
    var i := 0;
    while i < |ids|
      invariant 0 <= i <= |ids|
      invariant (firstOf, toRemove) == Scan(ids[..i], server.wordFreqs)
    {
      var id := ids[i];
      var words := KeysOf(server.GetWordFrequencies(id));
      assert words == WordSet(server.wordFreqs, id);
      assert ids[..i + 1][..i] == ids[..i];
      if words in firstOf {
        if firstOf[words] > id {
          toRemove := toRemove + [firstOf[words]];
          firstOf := firstOf[words := id];
        } else {
          toRemove := toRemove + [id];
        }
      } else {
        firstOf := firstOf[words := id];
      }
      i := i + 1;
    }
    assert ids[..i] == ids;
  }

  /** The removal loop of `RemoveDuplicates`: `RemoveDocument` for every
      queued id, in order. */
  method RemoveAll(server: SearchServer, toRemove: seq<int>)
    requires server.Valid()
    requires Distinct(toRemove)
    modifies server
    ensures server.Valid()
    ensures
      var removed := set d | d in toRemove && d in old(server.idBase);
      && server.idBase == old(server.idBase) - removed
      && server.documents == old(server.documents) - removed
      && server.wordFreqs == old(server.wordFreqs) - removed
      && server.index == ErasedAll(old(server.index), removed)
      && server.stopWords == old(server.stopWords)
  {
    ghost var removed: set<int> := {};
    assert ErasedAll(server.index, removed) == server.index by {
      forall w | w in server.index ensures server.index[w] - removed == server.index[w] {
      }
    }
    var k := 0;
    while k < |toRemove|
      invariant 0 <= k <= |toRemove|
      invariant server.Valid()
      invariant removed == set d | d in toRemove[..k] && d in old(server.idBase)
      invariant server.idBase == old(server.idBase) - removed
      invariant server.documents == old(server.documents) - removed
      invariant server.wordFreqs == old(server.wordFreqs) - removed
      invariant server.index == ErasedAll(old(server.index), removed)
      invariant server.stopWords == old(server.stopWords)
    {
      var id := toRemove[k];
      assert id !in toRemove[..k];
      server.RemoveDocument(id);
      if id in old(server.idBase) {
        ErasedAllStep(old(server.index), removed, id);
        removed := removed + {id};
      }
      assert toRemove[..k + 1] == toRemove[..k] + [id];
      k := k + 1;
    }
    assert toRemove[..k] == toRemove;
  }

  // ------------------------------------------------------------- meaning

  /** No two survivors share a word set; in particular all documents with
      no words collapse to one. */
  lemma KeptUnique(ids: set<int>, freqs: WordFrequencies)
    ensures forall a, b :: a in Kept(ids, freqs) && b in Kept(ids, freqs) && a != b ==>
      WordSet(freqs, a) != WordSet(freqs, b)
  {
    forall a, b | a in Kept(ids, freqs) && b in Kept(ids, freqs) && WordSet(freqs, a) == WordSet(freqs, b)
      ensures a == b
    {
      assert a <= b && b <= a;
    }
  }

  /** Every document's word set survives, in the smallest id that has it. */
  lemma KeptCovers(ids: set<int>, freqs: WordFrequencies, d: int)
    requires d in ids
    ensures exists k :: k in Kept(ids, freqs) && k <= d && WordSet(freqs, k) == WordSet(freqs, d)
  {
    var group := set o | o in ids && WordSet(freqs, o) == WordSet(freqs, d);
    assert d in group;
    var m := LeastId(group);
    assert m in Kept(ids, freqs) by {
      forall o | o in ids && WordSet(freqs, o) == WordSet(freqs, m) ensures m <= o {
        assert o in group;
      }
    }
    assert m <= d by { assert d in group; }
  }

  /** A document whose word set no other document has is not touched. */
  lemma UniqueSurvives(ids: set<int>, freqs: WordFrequencies, d: int)
    requires d in ids
    requires forall o :: o in ids && o != d ==> WordSet(freqs, o) != WordSet(freqs, d)
    ensures d in Kept(ids, freqs)
  {
  }

  /** As many documents survive as there were distinct word sets. */
  lemma KeptCount(ids: set<int>, freqs: WordFrequencies)
    ensures |Kept(ids, freqs)| == |WordSets(ids, freqs)|
  {
    var kept := Kept(ids, freqs);
    KeptUnique(ids, freqs);
    assert WordSets(ids, freqs) == WordSets(kept, freqs) by {
      forall ws | ws in WordSets(ids, freqs) ensures ws in WordSets(kept, freqs) {
        var d :| d in ids && WordSet(freqs, d) == ws;
        KeptCovers(ids, freqs, d);
      }
    }
    ImageCount(kept, freqs);
  }

  /** A set of ids with pairwise different word sets has as many word sets
      as ids. */
  lemma {:induction false} ImageCount(ids: set<int>, freqs: WordFrequencies)
    requires forall a, b :: a in ids && b in ids && a != b ==> WordSet(freqs, a) != WordSet(freqs, b)
    ensures |WordSets(ids, freqs)| == |ids|
    decreases ids
  {
    if ids != {} {
      var first := LeastId(ids);
      var rest := ids - {first};
      ImageCount(rest, freqs);
      assert WordSets(ids, freqs) == WordSets(rest, freqs) + {WordSet(freqs, first)};
      assert WordSet(freqs, first) !in WordSets(rest, freqs);
    }
  }

  /** A second run removes nothing: with the dropped documents gone, every
      survivor is the smallest of its word set. */
  lemma SecondRunKeepsAll(ids: set<int>, freqs: WordFrequencies)
    ensures var kept := Kept(ids, freqs); Kept(kept, freqs - (ids - kept)) == kept
  {
    var kept := Kept(ids, freqs);
    var after := freqs - (ids - kept);
    KeptUnique(ids, freqs);
    forall d | d in kept ensures WordSet(after, d) == WordSet(freqs, d) {
    }
    forall d | d in kept ensures d in Kept(kept, after) {
      forall o | o in kept && WordSet(after, o) == WordSet(after, d) ensures d <= o {
        assert o == d;
      }
    }
  }

  /** The word sets of the example corpus: documents 1 to 9 of the
      example with stop words `and with`. */
  ghost predicate ExampleWordSets(freqs: WordFrequencies)
  {
    && WordSet(freqs, 1) == {"funny", "pet", "nasty", "rat"}
    && WordSet(freqs, 2) == {"funny", "pet", "curly", "hair"}
    && WordSet(freqs, 3) == {"funny", "pet", "curly", "hair"}
    && WordSet(freqs, 4) == {"funny", "pet", "curly", "hair"}
    && WordSet(freqs, 5) == {"funny", "pet", "nasty", "rat"}
    && WordSet(freqs, 6) == {"funny", "pet", "not", "very", "nasty", "rat"}
    && WordSet(freqs, 7) == {"funny", "pet", "not", "very", "nasty", "rat"}
    && WordSet(freqs, 8) == {"pet", "rat"}
    && WordSet(freqs, 9) == {"nasty", "rat", "curly", "hair"}
  }

  /** Which documents of the example share their word set: 3 and 4 have
      the words of 2, 5 those of 1, 7 those of 6, and the word sets of 1,
      2, 6, 8 and 9 differ pairwise. */
  ghost predicate ExamplePattern(freqs: WordFrequencies)
  {
    && WordSet(freqs, 3) == WordSet(freqs, 2) && WordSet(freqs, 4) == WordSet(freqs, 2)
    && WordSet(freqs, 5) == WordSet(freqs, 1) && WordSet(freqs, 7) == WordSet(freqs, 6)
    && WordSet(freqs, 1) != WordSet(freqs, 2) && WordSet(freqs, 1) != WordSet(freqs, 6)
    && WordSet(freqs, 1) != WordSet(freqs, 8) && WordSet(freqs, 1) != WordSet(freqs, 9)
    && WordSet(freqs, 2) != WordSet(freqs, 6) && WordSet(freqs, 2) != WordSet(freqs, 8)
    && WordSet(freqs, 2) != WordSet(freqs, 9) && WordSet(freqs, 6) != WordSet(freqs, 8)
    && WordSet(freqs, 6) != WordSet(freqs, 9) && WordSet(freqs, 8) != WordSet(freqs, 9)
  }

  lemma ExampleHasPattern(freqs: WordFrequencies)
    requires ExampleWordSets(freqs)
    ensures ExamplePattern(freqs)
  {
    assert "nasty" in WordSet(freqs, 1) && "nasty" !in WordSet(freqs, 2);
    assert "not" !in WordSet(freqs, 1) && "not" !in WordSet(freqs, 2) && "not" in WordSet(freqs, 6);
    assert "funny" in WordSet(freqs, 1) && "funny" !in WordSet(freqs, 8) && "funny" !in WordSet(freqs, 9);
    assert "pet" in WordSet(freqs, 8) && "pet" !in WordSet(freqs, 9);
  }

  /** Nine ids whose keys follow the example's pattern keep the smallest
      id of each key: 1, 2, 6, 8 and 9. */
  lemma PatternLeaders<K>(key: int -> K)
    requires key(3) == key(2) && key(4) == key(2) && key(5) == key(1) && key(7) == key(6)
    requires key(1) != key(2) && key(1) != key(6) && key(1) != key(8) && key(1) != key(9)
    requires key(2) != key(6) && key(2) != key(8) && key(2) != key(9)
    requires key(6) != key(8) && key(6) != key(9) && key(8) != key(9)
    ensures (set id | id in {1, 2, 3, 4, 5, 6, 7, 8, 9} && forall o :: o in {1, 2, 3, 4, 5, 6, 7, 8, 9} && key(o) == key(id) ==> id <= o)
         == {1, 2, 6, 8, 9}
  {
  }

  /** In the example corpus 3, 4, 5 and 7 are duplicates of 2, 2, 1 and 6,
      and 1, 2, 6, 8, 9 stay. */
  lemma ExampleKept(freqs: WordFrequencies)
    requires ExamplePattern(freqs)
    ensures Kept({1, 2, 3, 4, 5, 6, 7, 8, 9}, freqs) == {1, 2, 6, 8, 9}
  {
    PatternLeaders(id => WordSet(freqs, id));
  }

  /** The example corpus keeps one document per distinct word set, five in all. */
  lemma ExampleCorpus(freqs: WordFrequencies)
    requires ExampleWordSets(freqs)
    ensures Kept({1, 2, 3, 4, 5, 6, 7, 8, 9}, freqs) == {1, 2, 6, 8, 9}
    ensures |WordSets({1, 2, 3, 4, 5, 6, 7, 8, 9}, freqs)| == 5
  {
    ExampleHasPattern(freqs);
    PatternCount(freqs);
  }

  lemma PatternCount(freqs: WordFrequencies)
    requires ExamplePattern(freqs)
    ensures Kept({1, 2, 3, 4, 5, 6, 7, 8, 9}, freqs) == {1, 2, 6, 8, 9}
    ensures |WordSets({1, 2, 3, 4, 5, 6, 7, 8, 9}, freqs)| == 5
  {
    ExampleKept(freqs);
    KeptCount({1, 2, 3, 4, 5, 6, 7, 8, 9}, freqs);
  }
}
