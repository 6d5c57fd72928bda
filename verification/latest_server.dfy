/** The latest `SearchServer`: stop words, the word -> id -> frequency
    index, its mirror id -> word -> frequency, the documents and the set of
    ids. It adds `RemoveDocument` to the earlier copies and checks query
    words after stripping the minus sign. */
module LatestServer {
  import opened Tokenizer
  import opened Orders
  import opened Index
  import opened Ranking

  /** `word_freqs_ids_`: document id -> word -> term frequency. */
  type WordFrequencies = map<int, map<string, real>>

  /** The two indexes hold the same (word, id, frequency) triples. */
  ghost predicate Mirrored(index: Postings, freqs: WordFrequencies)
  {
    && (forall w, d :: w in index && d in index[w] ==> d in freqs && w in freqs[d] && freqs[d][w] == index[w][d])
    && (forall d, w :: d in freqs && w in freqs[d] ==> w in index && d in index[w])
  }

  function FreqsOf(freqs: WordFrequencies, id: int): map<string, real>
  {
    if id in freqs then freqs[id] else map[]
  }

  /** `word_freqs_ids_[id][w] += inc` for every word, in order; the entry for
      `id` is created by the first word only. */
  function RecordAll(freqs: WordFrequencies, words: seq<string>, id: int, inc: real): WordFrequencies
  {
    if words == [] then freqs else freqs[id := Tally(FreqsOf(freqs, id), words, inc)]
  }

  lemma RecordStep(freqs: WordFrequencies, words: seq<string>, i: nat, id: int, inc: real)
    requires i < |words|
    ensures RecordAll(freqs, words[..i + 1], id, inc)
         == var f := RecordAll(freqs, words[..i], id, inc); f[id := Bump(FreqsOf(f, id), words[i], inc)]
  {
    assert words[..i + 1][..i] == words[..i];
  }

  /** Writing the same increment to both indexes keeps them mirrored. */
  lemma MirrorPost(index: Postings, freqs: WordFrequencies, w: string, id: int, inc: real)
    requires Mirrored(index, freqs)
    ensures Mirrored(PostWord(index, w, id, inc), freqs[id := Bump(FreqsOf(freqs, id), w, inc)])
  {
    var index' := PostWord(index, w, id, inc);
    var freqs' := freqs[id := Bump(FreqsOf(freqs, id), w, inc)];
    assert ValueOr(PostingsOf(index, w), id) == ValueOr(FreqsOf(freqs, id), w);
    forall v, d | v in index' && d in index'[v]
      ensures d in freqs' && v in freqs'[d] && freqs'[d][v] == index'[v][d]
    {
      if v != w && d == id {
        assert v in index && id in index[v];
      }
    }
    forall d, v | d in freqs' && v in freqs'[d] ensures v in index' && d in index'[v] {
      if v != w && d == id {
        assert id in freqs && v in freqs[id];
      }
    }
  }

  /** Erasing an id from both indexes keeps them mirrored. */
  lemma MirrorErase(index: Postings, freqs: WordFrequencies, id: int)
    requires Mirrored(index, freqs)
    ensures Mirrored(Erased(index, id), freqs - {id})
  {
  }

  /** Every id posted under some word is a stored document. */
  predicate PostingsKnown(index: Postings, documents: Documents)
  {
    forall w, d :: w in index && d in index[w] ==> d in documents
  }

  /** With no posting of an unknown id, no search can hit `documents_.at`
      on a missing document. */
  lemma KnownNeverFails(index: Postings, documents: Documents, q: Query, pred: Filter, idf: Idf)
    requires PostingsKnown(index, documents)
    ensures Top(index, documents, q, pred, idf).Success?
  {
    TopMeaning(index, documents, q, pred, idf);
  }

  /** Posting the words of a document that is then stored keeps every
      posting known. */
  lemma PostAllKnown(index: Postings, documents: Documents, words: seq<string>, id: int, inc: real, data: DocumentData)
    requires PostingsKnown(index, documents)
    ensures PostingsKnown(PostAll(index, words, id, inc), documents[id := data])
  {
    var after := PostAll(index, words, id, inc);
    forall w, d | w in after && d in after[w] ensures d in documents[id := data] {
      PostAllAt(index, words, id, inc, w);
      if d != id {
        assert d in PostingsOf(after, w) - {id};
      }
    }
  }

  /** Removing a document from both the postings and the documents keeps
      every posting known. */
  lemma RemoveKeepsKnown(index: Postings, documents: Documents, id: int)
    requires PostingsKnown(index, documents)
    ensures PostingsKnown(Erased(index, id), documents - {id})
  {
  }

  /** The index once `id` was erased from the postings of the words in `done`. */
  function ErasedOn(index: Postings, id: int, done: set<string>): Postings
  {
    map w | w in index :: if w in done then index[w] - {id} else index[w]
  }

  lemma ErasedOnStep(index: Postings, id: int, done: set<string>, word: string)
    requires word in index
    ensures var e := ErasedOn(index, id, done);
      ErasedOn(index, id, done + {word})
      == if id in e[word] then e[word := e[word] - {id}] else e
  {
    var e := ErasedOn(index, id, done);
    if id !in e[word] {
      assert e[word] - {id} == e[word];
    }
  }

  lemma ErasedOnAll(index: Postings, id: int, done: set<string>)
    requires index.Keys <= done
    ensures ErasedOn(index, id, done) == Erased(index, id)
  {
  }

  /** The index once `id` was erased from the postings of `words`, one word
      after the other. */
  function EraseWords(index: Postings, id: int, words: seq<string>): (r: Postings)
    ensures r.Keys == index.Keys
  {
    if words == [] then index
    else
      var e := EraseWords(index, id, words[..|words| - 1]);
      var w := words[|words| - 1];
      if w in e && id in e[w] then e[w := e[w] - {id}] else e
  }

  /** Erasing word by word is erasing from the set of words read. */
  lemma {:induction false} EraseWordsMeaning(index: Postings, id: int, words: seq<string>)
    ensures EraseWords(index, id, words) == ErasedOn(index, id, set w | w in words)
  {
    if words != [] {
      var init := words[..|words| - 1];
      var w := words[|words| - 1];
      EraseWordsMeaning(index, id, init);
      var done := set v | v in init;
      assert (set v | v in words) == done + {w} by {
        assert words == init + [w];
      }
      if w in index {
        ErasedOnStep(index, id, done, w);
      } else {
        assert ErasedOn(index, id, done + {w}) == ErasedOn(index, id, done);
      }
    }
  }

  /** One more word of the loop: `id` leaves that word's postings. */
  lemma EraseWordsStep(index: Postings, id: int, words: seq<string>, i: nat)
    requires i < |words| && words[i] in index
    ensures var e := EraseWords(index, id, words[..i]);
      EraseWords(index, id, words[..i + 1])
      == if id in e[words[i]] then e[words[i] := e[words[i]] - {id}] else e
  {
    assert words[..i + 1][..i] == words[..i];
  }

  /** Erasing over every word of the index, in set order, is `Erased`. */
  lemma EraseEveryWord(index: Postings, id: int)
    ensures EraseWords(index, id, SortedWords(index.Keys)) == Erased(index, id)
  {
    var words := SortedWords(index.Keys);
    EraseWordsMeaning(index, id, words);
    assert (set w | w in words) == index.Keys;
    ErasedOnAll(index, id, index.Keys);
  }

  /** The loop of `RemoveDocument` over the words, in order, erasing `id`
      from each word's postings. */
  method ErasePostings(index: Postings, id: int) returns (r: Postings)
    ensures r == Erased(index, id)
  {
    var words := SortedWords(index.Keys);
    r := index;
    var i := 0;
    assert words[..0] == [];
    while i < |words|
      invariant 0 <= i <= |words|
      invariant r == EraseWords(index, id, words[..i])
    {
      EraseWordsStep(index, id, words, i);
      var word := words[i];
      var data := r[word];
      if id in data {
        r := r[word := data - {id}];
      }
      i := i + 1;
    }
    assert words[..i] == words;
    EraseEveryWord(index, id);
  }

  /** `IsValidWord`: no control char. */
  predicate IsValidWord(word: string)
  {
    NoControlChars(word)
  }

  /** `ParseQueryWord`: an empty token is an error; one leading `-` marks a
      minus word; what remains must be non-empty, must not start with `-`
      and must have no control char. The token is the minus sign (if any)
      followed by the word. */
  function ParseQueryWord(stopWords: set<string>, text: string): (r: Result<QueryWord>)
    ensures text == [] ==> r == Failure(EmptyQueryWord)
    ensures r.Failure? && text != [] ==> r.error == InvalidQueryWord
    ensures r.Success? ==>
      && text == (if r.value.isMinus then ['-'] else []) + r.value.data
      && r.value.data != [] && r.value.data[0] != '-' && IsValidWord(r.value.data)
      && r.value.isStop == (r.value.data in stopWords)
  {
    if text == [] then Failure(EmptyQueryWord)
    else
      var isMinus := text[0] == '-';
      var word := if isMinus then text[1..] else text;
      if word == [] || word[0] == '-' || !IsValidWord(word) then Failure(InvalidQueryWord)
      else
        assert text == (if isMinus then ['-'] else []) + word;
        Success(QueryWord(word, isMinus, word in stopWords))
  }

  /** A valid word parses to itself as a plus word, and with a `-` in front
      to itself as a minus word. */
  lemma ParseQueryWordInverse(stopWords: set<string>, word: string)
    requires word != [] && word[0] != '-' && IsValidWord(word)
    ensures ParseQueryWord(stopWords, word) == Success(QueryWord(word, false, word in stopWords))
    ensures ParseQueryWord(stopWords, ['-'] + word) == Success(QueryWord(word, true, word in stopWords))
  {
    assert (['-'] + word)[1..] == word;
  }

  /** The `ParseQueryWord` this server applies to each query token. */
  function Parser(stopWords: set<string>): string -> Result<QueryWord>
  {
    t => ParseQueryWord(stopWords, t)
  }

  /** The predicate of `FindTopDocuments(raw_query, status)`. */
  function StatusFilter(status: DocumentStatus): Filter
  {
    (id, s, rating) => s == status
  }

  class SearchServer {
    var stopWords: set<string>
    var index: Postings
    var wordFreqs: WordFrequencies
    var documents: Documents
    var idBase: set<int>

    ghost predicate Valid()
      reads this
    {
      && idBase == documents.Keys
      && (forall id :: id in idBase ==> id >= 0)
      && Mirrored(index, wordFreqs)
      && (forall w :: w in stopWords ==> w != [] && IsValidWord(w))
    }

    constructor Init(stopWords: set<string>)
      requires forall w :: w in stopWords ==> w != [] && IsValidWord(w)
      ensures Valid()
      ensures this.stopWords == stopWords
      ensures index == map[] && wordFreqs == map[] && documents == map[] && idBase == {}
    {
      this.stopWords := stopWords;
      index := map[];
      wordFreqs := map[];
      documents := map[];
      idBase := {};
    }

    /** `SearchServer(const std::string&)`: the text's tokens become the
        stop words unless one of them has a control char. */
    static method FromText(text: string) returns (r: Result<SearchServer>)
      ensures r.Failure? <==> exists w :: w in Words(text) && !IsValidWord(w)
      ensures r.Failure? ==> r.error == InvalidStopWord
      ensures r.Success? ==> fresh(r.value) && r.value.Valid()
      ensures r.Success? ==> r.value.stopWords == (set w | w in Words(text))
      ensures r.Success? ==> r.value.index == map[] && r.value.documents == map[] && r.value.idBase == {}
    {
      var tokens := SplitIntoWords(text);
      WordsAreTokens(text);
      var stop: set<string> := {};
      var i := 0;
      while i < |tokens|
        invariant 0 <= i <= |tokens|
        invariant forall j :: 0 <= j < i ==> IsValidWord(tokens[j])
        invariant stop == set j | 0 <= j < i :: tokens[j]
      {
        if !IsValidWord(tokens[i]) {
          return Failure(InvalidStopWord);
        }
        if tokens[i] != [] {
          stop := stop + {tokens[i]};
        }
        i := i + 1;
      }
      assert stop == set w | w in tokens by {
        forall w | w in tokens ensures w in stop {
          var j :| 0 <= j < |tokens| && tokens[j] == w;
        }
      }
      var server := new SearchServer.Init(stop);
      return Success(server);
    }

    /** The stop-word collection constructor: the candidates form a set;
        an invalid one throws, the non-empty ones are kept. */
    static method FromCollection(candidates: seq<string>) returns (r: Result<SearchServer>)
      ensures r.Failure? <==> exists w :: w in candidates && !IsValidWord(w)
      ensures r.Failure? ==> r.error == InvalidStopWord
      ensures r.Success? ==> fresh(r.value) && r.value.Valid()
      ensures r.Success? ==> r.value.stopWords == (set w | w in candidates && w != [])
      ensures r.Success? ==> r.value.index == map[] && r.value.documents == map[] && r.value.idBase == {}
    {
      var stop := CollectStopWords((set w | w in candidates), IsValidWord);
      if stop.Failure? {
        return Failure(stop.error);
      }
      var server := new SearchServer.Init(stop.value);
      return Success(server);
    }

    /** `AddDocument`: a negative or known id throws and changes nothing.
        Otherwise each non-stop word, in order, is checked and posted with
        frequency `1 / k` per occurrence in both indexes; an invalid word
        throws after the earlier words were posted, leaving the documents
        and the ids as they were. */
    method AddDocument(id: int, text: string, status: DocumentStatus, ratings: seq<int>) returns (r: Result<()>)
      requires Valid()
      modifies this
      ensures Valid()
      ensures stopWords == old(stopWords)
      ensures id < 0 ==> r == Failure(InvalidId) && unchanged(this)
      ensures id >= 0 && id in old(idBase) ==> r == Failure(DuplicateId) && unchanged(this)
      ensures id >= 0 && id !in old(idBase) ==>
        var words := NonStop(Words(text), old(stopWords));
        var k := FirstInvalid(words, IsValidWord);
        var inc := InverseCount(|words|);
        && index == PostAll(old(index), words[..k], id, inc)
        && wordFreqs == RecordAll(old(wordFreqs), words[..k], id, inc)
        && (k < |words| ==>
              (&& r == Failure(InvalidDocumentWord)
               && documents == old(documents) && idBase == old(idBase)))
        && (k == |words| ==>
              (&& r == Success(())
               && documents == old(documents)[id := DocumentData(AverageRating(ratings), status)]
               && idBase == old(idBase) + {id}))
    {
      if id < 0 {
        return Failure(InvalidId);
      }
      if id in idBase {
        return Failure(DuplicateId);
      }
      var words := SplitIntoWordsNoStop(text, stopWords);
      var inc := InverseCount(|words|);
      var k := PostValidWords(words, id, inc);
      if k < |words| {
        return Failure(InvalidDocumentWord);
      }
      documents := documents[id := DocumentData(AverageRating(ratings), status)];
      idBase := idBase + {id};
      return Success(());
    }

    /** The word loop of `AddDocument`: each word in turn is checked, then
        posted in both indexes; the loop stops at the first invalid word,
        whose index it returns. */
    method PostValidWords(words: seq<string>, id: int, inc: real) returns (k: nat)
      requires Mirrored(index, wordFreqs)
      modifies this
      ensures k == FirstInvalid(words, IsValidWord)
      ensures Mirrored(index, wordFreqs)
      ensures index == PostAll(old(index), words[..k], id, inc)
      ensures wordFreqs == RecordAll(old(wordFreqs), words[..k], id, inc)
      ensures stopWords == old(stopWords) && documents == old(documents) && idBase == old(idBase)
    {
      var i := 0;
      while i < |words|
        invariant 0 <= i <= |words|
        invariant forall j :: 0 <= j < i ==> IsValidWord(words[j])
        invariant index == PostAll(old(index), words[..i], id, inc)
        invariant wordFreqs == RecordAll(old(wordFreqs), words[..i], id, inc)
        invariant Mirrored(index, wordFreqs)
        invariant stopWords == old(stopWords) && documents == old(documents) && idBase == old(idBase)
      {
        if !IsValidWord(words[i]) {
          return i;
        }
        PostOne(words[i], id, inc);
        assert words[..i + 1][..i] == words[..i];
        RecordStep(old(wordFreqs), words, i, id, inc);
        i := i + 1;
      }
      return i;
    }

    /** `AddDocument` as evidently intended: every word is checked before
        anything is posted, so an invalid word leaves the server as it was
        and every posted id stays a known document. */
    method AddDocumentAtomic(id: int, text: string, status: DocumentStatus, ratings: seq<int>) returns (r: Result<()>)
      requires Valid() && PostingsKnown(index, documents)
      modifies this
      ensures Valid() && PostingsKnown(index, documents)
      ensures id < 0 ==> r == Failure(InvalidId)
      ensures id >= 0 && id in old(idBase) ==> r == Failure(DuplicateId)
      ensures r.Failure? ==> unchanged(this)
      ensures id >= 0 && id !in old(idBase) ==>
        var words := NonStop(Words(text), old(stopWords));
        var inc := InverseCount(|words|);
        && (r.Failure? <==> exists w :: w in words && !IsValidWord(w))
        && (r.Failure? ==> r.error == InvalidDocumentWord)
        && (r.Success? ==>
              (&& index == PostAll(old(index), words, id, inc)
               && wordFreqs == RecordAll(old(wordFreqs), words, id, inc)
               && documents == old(documents)[id := DocumentData(AverageRating(ratings), status)]
               && idBase == old(idBase) + {id}))
    {
      if id < 0 {
        return Failure(InvalidId);
      }
      if id in idBase {
        return Failure(DuplicateId);
      }
      var words := SplitIntoWordsNoStop(text, stopWords);
      var ok := CheckQueryWords(words, IsValidWord);
      if !ok {
        return Failure(InvalidDocumentWord);
      }
      PostAndStore(words, id, DocumentData(AverageRating(ratings), status));
      return Success(());
    }

    /** The success path of `AddDocumentAtomic`: every word posted, then
        the document stored. */
    method PostAndStore(words: seq<string>, id: int, data: DocumentData)
      requires Valid() && PostingsKnown(index, documents)
      requires id >= 0 && id !in idBase
      requires forall i :: 0 <= i < |words| ==> IsValidWord(words[i])
      modifies this
      ensures Valid() && PostingsKnown(index, documents)
      ensures index == PostAll(old(index), words, id, InverseCount(|words|))
      ensures wordFreqs == RecordAll(old(wordFreqs), words, id, InverseCount(|words|))
      ensures documents == old(documents)[id := data] && idBase == old(idBase) + {id}
      ensures stopWords == old(stopWords)
    {
      var inc := InverseCount(|words|);
      var k := PostValidWords(words, id, inc);
      assert words[..k] == words;
      PostAllKnown(old(index), documents, words, id, inc, data);
      documents := documents[id := data];
      idBase := idBase + {id};
    }

    /** One pass of the posting loops: `inc` added for `w` and `id` in both
        indexes. */
    method PostOne(w: string, id: int, inc: real)
      requires Mirrored(index, wordFreqs)
      modifies this
      ensures Mirrored(index, wordFreqs)
      ensures index == PostWord(old(index), w, id, inc)
      ensures wordFreqs == old(wordFreqs)[id := Bump(FreqsOf(old(wordFreqs), id), w, inc)]
      ensures stopWords == old(stopWords) && documents == old(documents) && idBase == old(idBase)
    {
      MirrorPost(index, wordFreqs, w, id, inc);
      index := PostWord(index, w, id, inc);
      wordFreqs := wordFreqs[id := Bump(FreqsOf(wordFreqs, id), w, inc)];
    }

    /** `RemoveDocument`: for a known id, erase it from every word's
        postings (keeping the words), from the documents, from the mirror
        and from the ids; an unknown id changes nothing. */
    method RemoveDocument(id: int)
      requires Valid()
      modifies this
      ensures Valid()
      ensures id !in old(idBase) ==> unchanged(this)
      ensures id in old(idBase) ==>
        && index == Erased(old(index), id)
        && documents == old(documents) - {id}
        && wordFreqs == old(wordFreqs) - {id}
        && idBase == old(idBase) - {id}
        && stopWords == old(stopWords)
    {
      if id !in idBase {
        return;
      }
      MirrorErase(index, wordFreqs, id);
      index := ErasePostings(index, id);
      documents := documents - {id};
      wordFreqs := wordFreqs - {id};
      idBase := idBase - {id};
    }

    /** `GetWordFrequencies`: the words of the document with their term
        frequency, read from the mirror. These are exactly the id's postings
        in the index, so empty for an id posted nowhere; an id left dangling
        by a failed add keeps its partial frequencies. */
    function GetWordFrequencies(id: int): (r: map<string, real>)
      requires Valid()
      reads this
      ensures forall w :: w in r ==> w in index && id in index[w] && r[w] == index[w][id]
      ensures forall w :: Posted(index, w, id) ==> w in r
    {
      if id in wordFreqs then wordFreqs[id] else map[]
    }

    /** `GetDocumentCount`. */
    function GetDocumentCount(): (r: nat)
      requires Valid()
      reads this
      ensures r == |idBase|
    {
      |documents|
    }

    /** `begin()`/`end()`: the ids in ascending order. */
    function Ids(): (r: seq<int>)
      reads this
      ensures forall id :: id in r <==> id in idBase
      ensures forall i, j :: 0 <= i < j < |r| ==> r[i] < r[j]
    {
      SortedIdsAscending(idBase);
      SortedIds(idBase)
    }

    /** The query of a raw text: the validity loop over the tokens, then
        `ParseQuery`. */
    function QueryOf(rawQuery: string): Result<Query>
      reads this
    {
      var tokens := Words(rawQuery);
      if exists t :: t in tokens && !IsValidWord(t) then Failure(InvalidQueryWord)
      else QueryFrom(tokens, Parser(stopWords))
    }

    /** `ParseQuery` with the validity loop before it. */
    method ParseRawQuery(rawQuery: string) returns (r: Result<Query>)
      ensures r == QueryOf(rawQuery)
    {
      var tokens := SplitIntoWords(rawQuery);
      var ok := CheckQueryWords(tokens, IsValidWord);
      if !ok {
        return Failure(InvalidQueryWord);
      }
      r := ParseQuery(tokens, Parser(stopWords));
    }

    /** What `MatchDocument` returns. */
    function MatchResult(rawQuery: string, id: int): Result<(seq<string>, DocumentStatus)>
      reads this
    {
      match QueryOf(rawQuery)
      case Failure(e) => Failure(e)
      case Success(q) => MatchOutcome(index, documents, q, id)
    }

    method MatchDocument(rawQuery: string, id: int) returns (r: Result<(seq<string>, DocumentStatus)>)
      ensures r == MatchResult(rawQuery, id)
    {
      var q := ParseRawQuery(rawQuery);
      if q.Failure? {
        return Failure(q.error);
      }
      var matched := MatchWords(index, q.value, id);
      if id !in documents {
        return Failure(OutOfRange);
      }
      return Success((matched, documents[id].status));
    }

    /** What `FindTopDocuments(raw_query, predicate)` returns. */
    function TopDocuments(rawQuery: string, pred: Filter, idf: Idf): Result<seq<Document>>
      reads this
    {
      match QueryOf(rawQuery)
      case Failure(e) => Failure(e)
      case Success(q) => Top(index, documents, q, pred, idf)
    }

    method FindTopDocuments(rawQuery: string, pred: Filter, idf: Idf) returns (r: Result<seq<Document>>)
      ensures r == TopDocuments(rawQuery, pred, idf)
    {
      var q := ParseRawQuery(rawQuery);
      if q.Failure? {
        return Failure(q.error);
      }
      r := Ranking.FindTopDocuments(index, documents, q.value, pred, idf);
    }

    /** `FindTopDocuments(raw_query, status)`: the validity loop, then the
        predicate overload with a status test. */
    method FindTopDocumentsByStatus(rawQuery: string, status: DocumentStatus, idf: Idf) returns (r: Result<seq<Document>>)
      ensures r == TopDocuments(rawQuery, StatusFilter(status), idf)
    {
      var tokens := SplitIntoWords(rawQuery);
      var ok := CheckQueryWords(tokens, IsValidWord);
      if !ok {
        return Failure(InvalidQueryWord);
      }
      r := FindTopDocuments(rawQuery, StatusFilter(status), idf);
    }

    /** `FindTopDocuments(raw_query)`: the actual documents. */
    method FindActualDocuments(rawQuery: string, idf: Idf) returns (r: Result<seq<Document>>)
      ensures r == TopDocuments(rawQuery, StatusFilter(Actual), idf)
    {
      r := FindTopDocumentsByStatus(rawQuery, Actual, idf);
    }
  }

  // -------------------------------------------------------------- meaning

  /** A token parses to a non-stop plus word `w` iff it is `w`, a valid
      word not starting with `-` and not a stop word. */
  lemma ParsesToPlus(stopWords: set<string>, t: string, w: string)
    ensures ParseQueryWord(stopWords, t) == Success(QueryWord(w, false, false))
      <==> t == w && w != [] && w[0] != '-' && IsValidWord(w) && w !in stopWords
  {
  }

  /** A token parses to a non-stop minus word `w` iff it is `-` followed by
      `w`, a valid word not starting with `-` and not a stop word. */
  lemma ParsesToMinus(stopWords: set<string>, t: string, w: string)
    ensures ParseQueryWord(stopWords, t) == Success(QueryWord(w, true, false))
      <==> t == ['-'] + w && w != [] && w[0] != '-' && IsValidWord(w) && w !in stopWords
  {
    if t == ['-'] + w {
      assert t[1..] == w;
    }
  }

  /** Among valid tokens, some token parses to the non-stop plus word `w`
      iff `w` itself is a token without a leading `-` and not a stop word. */
  lemma ParsedPlus(tokens: seq<string>, stopWords: set<string>, w: string)
    requires forall t :: t in tokens ==> IsValidWord(t)
    ensures Parsed(tokens, Parser(stopWords), QueryWord(w, false, false))
      <==> w in tokens && w != [] && w[0] != '-' && w !in stopWords
  {
    var parse := Parser(stopWords);
    if w in tokens && w != [] && w[0] != '-' && w !in stopWords {
      var i :| 0 <= i < |tokens| && tokens[i] == w;
      ParsesToPlus(stopWords, tokens[i], w);
      assert parse(tokens[i]) == Success(QueryWord(w, false, false));
    }
    if Parsed(tokens, parse, QueryWord(w, false, false)) {
      var i :| 0 <= i < |tokens| && parse(tokens[i]) == Success(QueryWord(w, false, false));
      ParsesToPlus(stopWords, tokens[i], w);
    }
  }

  /** Among valid tokens, some token parses to the non-stop minus word `w`
      iff `-` followed by `w` is a token, `w` does not start with `-` and is
      not a stop word. */
  lemma ParsedMinus(tokens: seq<string>, stopWords: set<string>, w: string)
    requires forall t :: t in tokens ==> IsValidWord(t)
    ensures Parsed(tokens, Parser(stopWords), QueryWord(w, true, false))
      <==> ['-'] + w in tokens && w != [] && w[0] != '-' && w !in stopWords
  {
    var parse := Parser(stopWords);
    if ['-'] + w in tokens && w != [] && w[0] != '-' && w !in stopWords {
      var i :| 0 <= i < |tokens| && tokens[i] == ['-'] + w;
      assert IsValidWord(w) by {
        assert forall k :: 0 <= k < |w| ==> w[k] == tokens[i][k + 1];
      }
      ParsesToMinus(stopWords, tokens[i], w);
      assert parse(tokens[i]) == Success(QueryWord(w, true, false));
    }
    if Parsed(tokens, parse, QueryWord(w, true, false)) {
      var i :| 0 <= i < |tokens| && parse(tokens[i]) == Success(QueryWord(w, true, false));
      ParsesToMinus(stopWords, tokens[i], w);
    }
  }

  /** Tokens with no control char parse unless some token is malformed, and
      then the error is `InvalidQueryWord`: tokens are never empty. */
  lemma QueryFromError(tokens: seq<string>, stopWords: set<string>)
    requires forall i :: 0 <= i < |tokens| ==> IsToken(tokens[i])
    ensures QueryFrom(tokens, Parser(stopWords)).Failure? ==>
      QueryFrom(tokens, Parser(stopWords)).error == InvalidQueryWord
  {
    var parse := Parser(stopWords);
    QueryFromMeaning(tokens, parse);
    if QueryFrom(tokens, parse).Failure? {
      var i :| 0 <= i < |tokens| && parse(tokens[i]) == Failure(QueryFrom(tokens, parse).error);
      assert IsToken(tokens[i]);
    }
  }

  /** A query with a control char in some token is refused before any
      search with `InvalidQueryWord`, and every other refusal carries that
      error too; on success the plus words are the tokens without a leading
      `-` and the minus words the tokens after their `-`, stop words
      dropped. Which tokens are refused is `QueryOfFails`. */
  lemma QueryOfMeaning(server: SearchServer, rawQuery: string)
    ensures (exists t :: t in Words(rawQuery) && !IsValidWord(t)) ==>
      server.QueryOf(rawQuery) == Failure(InvalidQueryWord)
    ensures server.QueryOf(rawQuery).Failure? ==> server.QueryOf(rawQuery).error == InvalidQueryWord
    ensures server.QueryOf(rawQuery).Success? ==>
      forall w ::
        && (w in server.QueryOf(rawQuery).value.plus <==>
              w in Words(rawQuery) && w != [] && w[0] != '-' && w !in server.stopWords)
        && (w in server.QueryOf(rawQuery).value.minus <==>
              ['-'] + w in Words(rawQuery) && w != [] && w[0] != '-' && w !in server.stopWords)
  {
    var tokens := Words(rawQuery);
    var sw := server.stopWords;
    if !exists t :: t in tokens && !IsValidWord(t) {
      assert server.QueryOf(rawQuery) == QueryFrom(tokens, Parser(sw));
      WordsAreTokens(rawQuery);
      QueryFromError(tokens, sw);
      if QueryFrom(tokens, Parser(sw)).Success? {
        QueryFromMeaning(tokens, Parser(sw));
        forall w
          ensures w in QueryFrom(tokens, Parser(sw)).value.plus <==> w in tokens && w != [] && w[0] != '-' && w !in sw
          ensures w in QueryFrom(tokens, Parser(sw)).value.minus <==> ['-'] + w in tokens && w != [] && w[0] != '-' && w !in sw
        {
          ParsedPlus(tokens, sw, w);
          ParsedMinus(tokens, sw, w);
        }
      }
    }
  }

  /** A lone `-`, or a token that starts with `--`: a minus word with
      nothing valid after its sign. */
  predicate MalformedMinus(token: string)
  {
    token != [] && token[0] == '-' && (|token| == 1 || token[1] == '-')
  }

  /** A valid token parses exactly when it is not a malformed minus word. */
  lemma TokenParses(stopWords: set<string>, token: string)
    requires token != [] && IsValidWord(token)
    ensures ParseQueryWord(stopWords, token).Failure? <==> MalformedMinus(token)
  {
    if token[0] == '-' && |token| > 1 {
      forall i | 0 <= i < |token[1..]| ensures !IsControl(token[1..][i]) {
        assert token[1..][i] == token[i + 1];
      }
    }
  }

  /** The query is refused exactly when some token has a control char or is
      a malformed minus word. */
  lemma QueryOfFails(server: SearchServer, rawQuery: string)
    ensures server.QueryOf(rawQuery).Failure? <==>
      exists t :: t in Words(rawQuery) && (!IsValidWord(t) || MalformedMinus(t))
  {
    var tokens := Words(rawQuery);
    var parse := Parser(server.stopWords);
    if !exists t :: t in tokens && !IsValidWord(t) {
      WordsAreTokens(rawQuery);
      QueryFromOutcome(tokens, parse);
      if QueryFrom(tokens, parse).Failure? {
        var i :| 0 <= i < |tokens| && !parse(tokens[i]).Success?;
        assert tokens[i] in tokens && IsToken(tokens[i]);
        TokenParses(server.stopWords, tokens[i]);
      } else {
        forall t | t in tokens ensures !MalformedMinus(t) {
          var i :| 0 <= i < |tokens| && tokens[i] == t;
          assert IsToken(tokens[i]);
          TokenParses(server.stopWords, t);
        }
      }
    }
  }

  /** After the postings of `id` are erased, as `RemoveDocument(id)` does, no
      word posts `id` and no search finds it. */
  lemma RemovedIsGone(index: Postings, documents: Documents, id: int, q: Query, pred: Filter, idf: Idf)
    ensures forall w :: !Posted(Erased(index, id), w, id)
    ensures Top(Erased(index, id), documents - {id}, q, pred, idf).Success? ==>
      forall doc :: doc in Top(Erased(index, id), documents - {id}, q, pred, idf).value ==> doc.id != id
  {
    ErasedMeaning(index, id);
    TopMeaning(Erased(index, id), documents - {id}, q, pred, idf);
  }

  /** `AddDocument(1, "cat \x01", ...)` on a server without stop words or
      documents: `cat` is posted for document 1 before the control char
      throws, and document 1 is never stored. Any later search for `cat`
      then reaches `documents_.at(1)` and throws `out_of_range`. */
  lemma PartialAddDangles(pred: Filter, idf: Idf)
    ensures
      var words := NonStop(Words("cat \U{1}"), {});
      var k := FirstInvalid(words, IsValidWord);
      var index := PostAll(map[], words[..k], 1, InverseCount(|words|));
      && k < |words|
      && index == map["cat" := map[1 := 0.5]]
      && Top(index, map[], Query({"cat"}, {}), pred, idf) == Failure(OutOfRange)
  {
    CatWords();
    var words := ["cat", "\U{1}"];
    assert FirstInvalid(words, IsValidWord) == 1 by {
      assert !IsValidWord("\U{1}") by { assert IsControl("\U{1}"[0]); }
    }
    assert words[..1] == ["cat"];
    var index := PostAll(map[], ["cat"], 1, 0.5);
    assert index == map["cat" := map[1 := 0.5]];
    assert Dangling(index, map[], Query({"cat"}, {})) by {
      assert "cat" in index && 1 in index["cat"];
    }
  }

  /** The non-stop words of `cat \x01`: two tokens split at the space. */
  lemma CatWords()
    ensures NonStop(Words("cat \U{1}"), {}) == ["cat", "\U{1}"]
  {
    assert "cat \U{1}" == "cat" + [' '] + "\U{1}";
    SpaceSeparates("cat", "\U{1}");
    SingleToken("cat");
    SingleToken("\U{1}");
    assert Words("cat \U{1}") == ["cat", "\U{1}"];
    assert ["cat", "\U{1}"][..1] == ["cat"];
    assert ["cat"][..0] == [];
    assert NonStop(["cat"], {}) == ["cat"];
  }
}
