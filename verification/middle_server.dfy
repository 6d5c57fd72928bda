/** The middle `SearchServer`: the header with the ranking templates and a
    source file whose `IsValidWord` also rejects minus-sign misuse, so that
    `ParseQueryWord` strips a leading `-` without any check. The ids are
    kept in a vector, in insertion order, and there is no removal. */
module MiddleServer {
  import opened Tokenizer
  import opened Index
  import opened Ranking
  import LatestServer

  /** `IsValidWord` of this copy: not a lone `-`, not ending with `-`, no
      `--` and no control char. It reads the last char, so the word must
      not be empty. */
  predicate ValidWord(word: string)
  {
    && word != []
    && !(|word| == 1 && word[0] == '-')
    && word[|word| - 1] != '-'
    && !HasDoubleMinus(word)
    && NoControlChars(word)
  }

  /** `IsValidWord`: the end test, then a two-char buffer slid over the
      word looking for `--`, then the control-char test. */
  method IsValidWord(word: string) returns (ok: bool)
    requires word != []
    ensures ok <==> word[|word| - 1] != '-' && !HasDoubleMinus(word) && NoControlChars(word)
    ensures ok == ValidWord(word)
  {
    if (|word| == 1 && word[0] == '-') || word[|word| - 1] == '-' {
      return false;
    }
    var buffer := "11";
    var i := 0;
    while i < |word|
      invariant 0 <= i <= |word|
      invariant |buffer| == 2
      invariant buffer[1] == if i == 0 then '1' else word[i - 1]
      invariant !HasDoubleMinus(word[..i])
    {
      DoubleMinusStep(word, i);
      ghost var previous := buffer[1];
      buffer := buffer + [word[i]];
      buffer := buffer[1..];
      assert buffer == [previous, word[i]];
      if buffer == "--" {
        assert i >= 1 && word[i - 1] == '-' && word[i] == '-';
        return false;
      }
      i := i + 1;
    }
    assert word[..i] == word;
    return NoControlChars(word);
  }

  /** A valid token starting with `-` leaves a non-empty valid remainder that
      does not start with `-`: the minus rules live in the validity test. */
  lemma ValidMinusRemainder(token: string)
    requires ValidWord(token) && token[0] == '-'
    ensures token[1..] != [] && token[1..][0] != '-' && ValidWord(token[1..])
  {
    var rest := token[1..];
    assert !HasDoubleMinus(rest) by {
      forall i | 0 <= i < |rest| - 1 ensures !(rest[i] == '-' && rest[i + 1] == '-') {
        assert rest[i] == token[i + 1] && rest[i + 1] == token[i + 2];
      }
    }
    assert NoControlChars(rest) by {
      forall i | 0 <= i < |rest| ensures !IsControl(rest[i]) { assert rest[i] == token[i + 1]; }
    }
  }

  /** Every word this copy accepts, the latest copy accepts too. */
  lemma ValidWordIsLatestValid(word: string)
    requires ValidWord(word)
    ensures LatestServer.IsValidWord(word)
  {
  }

  /** `ParseQueryWord`: strip one leading `-` with no further check; the
      stop-word test is on the stripped word. */
  function ParseQueryWord(stopWords: set<string>, text: string): (r: QueryWord)
    requires text != []
    ensures r.isMinus <==> text[0] == '-'
    ensures text == (if r.isMinus then ['-'] else []) + r.data
    ensures r.isStop <==> r.data in stopWords
  {
    if text[0] == '-' then
      assert text == ['-'] + text[1..];
      QueryWord(text[1..], true, text[1..] in stopWords)
    else QueryWord(text, false, text in stopWords)
  }

  /** On the tokens this copy lets through, its `ParseQueryWord` and the
      latest copy's checked one agree. */
  lemma ParseAgreesWithLatest(stopWords: set<string>, token: string)
    requires ValidWord(token)
    ensures LatestServer.ParseQueryWord(stopWords, token) == Success(ParseQueryWord(stopWords, token))
  {
    if token[0] == '-' {
      ValidMinusRemainder(token);
    } else {
      ValidWordIsLatestValid(token);
    }
  }

  /** The `ParseQueryWord` this server applies to each query token; it never
      fails. */
  function Parser(stopWords: set<string>): (r: string --> Result<QueryWord>)
    ensures forall t :: t != [] ==> r.requires(t)
    ensures forall t :: t != [] ==> r(t) == Success(ParseQueryWord(stopWords, t))
  {
    t requires t != [] => Success(ParseQueryWord(stopWords, t))
  }

  /** The words `AddDocument` posts are tokens, hence never empty. */
  lemma NonStopTokens(text: string, stopWords: set<string>)
    ensures forall j :: 0 <= j < |NonStop(Words(text), stopWords)| ==> NonStop(Words(text), stopWords)[j] != []
  {
    var words := NonStop(Words(text), stopWords);
    WordsAreTokens(text);
    forall j | 0 <= j < |words| ensures words[j] != [] {
      NonStopAt(Words(text), stopWords, words[j]);
    }
  }

  class SearchServer {
    var stopWords: set<string>
    var index: Postings
    var documents: Documents
    var idBase: seq<int>

    ghost predicate Valid()
      reads this
    {
      && Distinct(idBase)
      && (forall id :: id in idBase <==> id in documents)
      && (forall i :: 0 <= i < |idBase| ==> idBase[i] >= 0)
      && (forall w :: w in stopWords ==> ValidWord(w))
    }

    constructor Init(stopWords: set<string>)
      requires forall w :: w in stopWords ==> ValidWord(w)
      ensures Valid()
      ensures this.stopWords == stopWords
      ensures index == map[] && documents == map[] && idBase == []
    {
      this.stopWords := stopWords;
      index := map[];
      documents := map[];
      idBase := [];
    }

    /** `SearchServer(const string&)`: the text's tokens become the stop
        words unless one of them is invalid. */
    static method FromText(text: string) returns (r: Result<SearchServer>)
      ensures r.Failure? <==> exists w :: w in Words(text) && !ValidWord(w)
      ensures r.Failure? ==> r.error == InvalidStopWord
      ensures r.Success? ==> fresh(r.value) && r.value.Valid()
      ensures r.Success? ==> r.value.stopWords == (set w | w in Words(text))
      ensures r.Success? ==> r.value.index == map[] && r.value.documents == map[] && r.value.idBase == []
    {
      var tokens := SplitIntoWords(text);
      WordsAreTokens(text);
      var stop: set<string> := {};
      var i := 0;
      while i < |tokens|
        invariant 0 <= i <= |tokens|
        invariant forall j :: 0 <= j < i ==> ValidWord(tokens[j])
        invariant stop == set j | 0 <= j < i :: tokens[j]
      {
        var ok := IsValidWord(tokens[i]);
        if !ok {
          return Failure(InvalidStopWord);
        }
        stop := stop + {tokens[i]};
        i := i + 1;
      }
      assert stop == set w | w in tokens by {
        forall w | w in tokens ensures w in stop {
          var j :| 0 <= j < |tokens| && tokens[j] == w;
        }
      }
      var server := new SearchServer.Init(stop);
      return Success(server);
    }

    /** The template stop-word constructor: the candidates form a set; an
        invalid one throws. An empty candidate would make `IsValidWord`
        read before the string, so none may be empty. */
    static method FromCollection(candidates: seq<string>) returns (r: Result<SearchServer>)
      requires forall w :: w in candidates ==> w != []
      ensures r.Failure? <==> exists w :: w in candidates && !ValidWord(w)
      ensures r.Failure? ==> r.error == InvalidStopWord
      ensures r.Success? ==> fresh(r.value) && r.value.Valid()
      ensures r.Success? ==> r.value.stopWords == (set w | w in candidates)
      ensures r.Success? ==> r.value.index == map[] && r.value.documents == map[] && r.value.idBase == []
    {
      var stop := CollectStopWords((set w | w in candidates), ValidWord);
      if stop.Failure? {
        return Failure(stop.error);
      }
      var server := new SearchServer.Init(stop.value);
      return Success(server);
    }

    /** `AddDocument`: a negative id or one already in `id_base_` throws and
        changes nothing. Otherwise the non-stop words are checked and posted
        in order; an invalid word throws after the earlier ones were posted.
        On success the id is appended to `id_base_`. */
    method AddDocument(id: int, text: string, status: DocumentStatus, ratings: seq<int>) returns (r: Result<()>)
      requires Valid()
      modifies this
      ensures Valid()
      ensures stopWords == old(stopWords)
      ensures id < 0 ==> r == Failure(InvalidId) && unchanged(this)
      ensures id >= 0 && id in old(idBase) ==> r == Failure(DuplicateId) && unchanged(this)
      ensures id >= 0 && id !in old(idBase) ==>
        var words := NonStop(Words(text), old(stopWords));
        var k := FirstInvalid(words, ValidWord);
        var inc := InverseCount(|words|);
        && index == PostAll(old(index), words[..k], id, inc)
        && (k < |words| ==>
              (&& r == Failure(InvalidDocumentWord)
               && documents == old(documents) && idBase == old(idBase)))
        && (k == |words| ==>
              (&& r == Success(())
               && documents == old(documents)[id := DocumentData(AverageRating(ratings), status)]
               && idBase == old(idBase) + [id]))
    {
      if id < 0 {
        return Failure(InvalidId);
      }
      if id in idBase {
        return Failure(DuplicateId);
      }
      var words := SplitIntoWordsNoStop(text, stopWords);
      NonStopTokens(text, stopWords);
      var inc := InverseCount(|words|);
      var k := PostValidWords(words, id, inc);
      if k < |words| {
        return Failure(InvalidDocumentWord);
      }
      documents := documents[id := DocumentData(AverageRating(ratings), status)];
      idBase := idBase + [id];
      return Success(());
    }

    /** The word loop of `AddDocument`: each word in turn is checked, then
        posted; the loop stops at the first invalid word, whose index it
        returns. */
    method PostValidWords(words: seq<string>, id: int, inc: real) returns (k: nat)
      requires forall j :: 0 <= j < |words| ==> words[j] != []
      modifies this
      ensures k == FirstInvalid(words, ValidWord)
      ensures index == PostAll(old(index), words[..k], id, inc)
      ensures stopWords == old(stopWords) && documents == old(documents) && idBase == old(idBase)
    {
      var i := 0;
      while i < |words|
        invariant 0 <= i <= |words|
        invariant forall j :: 0 <= j < i ==> ValidWord(words[j])
        invariant index == PostAll(old(index), words[..i], id, inc)
        invariant stopWords == old(stopWords) && documents == old(documents) && idBase == old(idBase)
      {
        var ok := IsValidWord(words[i]);
        if !ok {
          return i;
        }
        assert words[..i + 1][..i] == words[..i];
        index := PostWord(index, words[i], id, inc);
        i := i + 1;
      }
      return i;
    }

    /** `GetDocumentCount`: the number of documents added successfully. */
    function GetDocumentCount(): (r: nat)
      requires Valid()
      reads this
      ensures r == |idBase|
    {
      DistinctCount(idBase);
      assert documents.Keys == set id | id in idBase by {
        forall id ensures id in documents.Keys <==> id in idBase {
        }
      }
      |documents|
    }

    /** `GetDocumentId`: the `index`-th id added, or `OutOfRange`. */
    function GetDocumentId(index: int): (r: Result<int>)
      requires Valid()
      requires |idBase| < 0x8000_0000
      reads this
      ensures r.Success? <==> 0 <= index < |idBase|
      ensures r.Success? ==> r.value == idBase[index] && r.value in documents
      ensures r.Failure? ==> r.error == OutOfRange
    {
      DocumentIdAt(idBase, index)
    }

    /** The query of a raw text: the validity loop over the tokens, then
        `ParseQuery`, which cannot fail any more. */
    function QueryOf(rawQuery: string): Result<Query>
      reads this
    {
      var tokens := Words(rawQuery);
      WordsAreTokens(rawQuery);
      if exists t :: t in tokens && !ValidWord(t) then Failure(InvalidQueryWord)
      else QueryFrom(tokens, Parser(stopWords))
    }

    method ParseRawQuery(rawQuery: string) returns (r: Result<Query>)
      ensures r == QueryOf(rawQuery)
    {
      var tokens := SplitIntoWords(rawQuery);
      WordsAreTokens(rawQuery);
      var ok := CheckQueryWords(tokens, ValidWord);
      if !ok {
        return Failure(InvalidQueryWord);
      }
      r := ParseQuery(tokens, Parser(stopWords));
    }

    /** What `MatchDocument` returns. */
    function MatchResult(rawQuery: string, id: int): Result<(seq<string>, DocumentStatus)>
      reads this
    {
      match QueryOf(rawQuery)
      case Failure(e) => Failure(e)
      case Success(q) => MatchOutcome(index, documents, q, id)
    }

    method MatchDocument(rawQuery: string, id: int) returns (r: Result<(seq<string>, DocumentStatus)>)
      ensures r == MatchResult(rawQuery, id)
    {
      var q := ParseRawQuery(rawQuery);
      if q.Failure? {
        return Failure(q.error);
      }
      var matched := MatchWords(index, q.value, id);
      if id !in documents {
        return Failure(OutOfRange);
      }
      return Success((matched, documents[id].status));
    }

    /** What `FindTopDocuments(raw_query, predicate)` returns. */
    function TopDocuments(rawQuery: string, pred: Filter, idf: Idf): Result<seq<Document>>
      reads this
    {
      match QueryOf(rawQuery)
      case Failure(e) => Failure(e)
      case Success(q) => Top(index, documents, q, pred, idf)
    }

    method FindTopDocuments(rawQuery: string, pred: Filter, idf: Idf) returns (r: Result<seq<Document>>)
      ensures r == TopDocuments(rawQuery, pred, idf)
    {
      var q := ParseRawQuery(rawQuery);
      if q.Failure? {
        return Failure(q.error);
      }
      r := Ranking.FindTopDocuments(index, documents, q.value, pred, idf);
    }

    /** `FindTopDocuments(raw_query, status)`. */
    method FindTopDocumentsByStatus(rawQuery: string, status: DocumentStatus, idf: Idf) returns (r: Result<seq<Document>>)
      ensures r == TopDocuments(rawQuery, LatestServer.StatusFilter(status), idf)
    {
      var tokens := SplitIntoWords(rawQuery);
      WordsAreTokens(rawQuery);
      var ok := CheckQueryWords(tokens, ValidWord);
      if !ok {
        return Failure(InvalidQueryWord);
      }
      r := FindTopDocuments(rawQuery, LatestServer.StatusFilter(status), idf);
    }

    /** `FindTopDocuments(raw_query)`: the actual documents. */
    method FindActualDocuments(rawQuery: string, idf: Idf) returns (r: Result<seq<Document>>)
      ensures r == TopDocuments(rawQuery, LatestServer.StatusFilter(Actual), idf)
    {
      r := FindTopDocumentsByStatus(rawQuery, Actual, idf);
    }
  }

  // -------------------------------------------------------------- meaning

  /** The query parses iff every token is valid; the plus words are the
      tokens without a leading `-`, the minus words the tokens after their
      `-`, stop words dropped; a minus word is never empty and never starts
      with `-`. */
  lemma QueryOfMeaning(server: SearchServer, rawQuery: string)
    ensures server.QueryOf(rawQuery).Success? <==> forall t :: t in Words(rawQuery) ==> ValidWord(t)
    ensures server.QueryOf(rawQuery).Failure? ==> server.QueryOf(rawQuery).error == InvalidQueryWord
    ensures server.QueryOf(rawQuery).Success? ==>
      forall w ::
        && (w in server.QueryOf(rawQuery).value.plus <==>
              w in Words(rawQuery) && w != [] && w[0] != '-' && w !in server.stopWords)
        && (w in server.QueryOf(rawQuery).value.minus <==>
              ['-'] + w in Words(rawQuery) && w !in server.stopWords)
        && (w in server.QueryOf(rawQuery).value.minus ==> w != [] && w[0] != '-')
  {
    var tokens := Words(rawQuery);
    var sw := server.stopWords;
    WordsAreTokens(rawQuery);
    var parse := Parser(sw);
    if !exists t :: t in tokens && !ValidWord(t) {
      QueryFromMeaning(tokens, parse);
      var r := QueryFrom(tokens, parse);
      assert server.QueryOf(rawQuery) == r;
      forall w
        ensures w in r.value.plus <==> w in tokens && w != [] && w[0] != '-' && w !in sw
        ensures w in r.value.minus <==> ['-'] + w in tokens && w !in sw
        ensures w in r.value.minus ==> w != [] && w[0] != '-'
      {
        PlusTokens(tokens, sw, w);
        MinusTokens(tokens, sw, w);
      }
    } else {
      var t :| t in tokens && !ValidWord(t);
    }
  }

  /** With every token valid, the non-stop plus word `w` comes from the
      token `w` itself. */
  lemma PlusTokens(tokens: seq<string>, sw: set<string>, w: string)
    requires forall t :: t in tokens ==> t != [] && ValidWord(t)
    ensures Parsed(tokens, Parser(sw), QueryWord(w, false, false))
      <==> w in tokens && w != [] && w[0] != '-' && w !in sw
  {
    var parse := Parser(sw);
    if w in tokens && w != [] && w[0] != '-' && w !in sw {
      var i :| 0 <= i < |tokens| && tokens[i] == w;
      assert parse(tokens[i]) == Success(QueryWord(w, false, false));
    }
    if Parsed(tokens, parse, QueryWord(w, false, false)) {
      var i :| 0 <= i < |tokens| && parse(tokens[i]) == Success(QueryWord(w, false, false));
      assert tokens[i] in tokens;
      assert ParseQueryWord(sw, tokens[i]) == QueryWord(w, false, false);
    }
  }

  /** With every token valid, the non-stop minus word `w` comes from the
      token `-w`, and `w` is neither empty nor starts with `-`. */
  lemma MinusTokens(tokens: seq<string>, sw: set<string>, w: string)
    requires forall t :: t in tokens ==> t != [] && ValidWord(t)
    ensures Parsed(tokens, Parser(sw), QueryWord(w, true, false)) <==> ['-'] + w in tokens && w !in sw
    ensures Parsed(tokens, Parser(sw), QueryWord(w, true, false)) ==> w != [] && w[0] != '-'
  {
    var parse := Parser(sw);
    if ['-'] + w in tokens && w !in sw {
      var i :| 0 <= i < |tokens| && tokens[i] == ['-'] + w;
      assert tokens[i][1..] == w;
      assert parse(tokens[i]) == Success(QueryWord(w, true, false));
    }
    if Parsed(tokens, parse, QueryWord(w, true, false)) {
      var i :| 0 <= i < |tokens| && parse(tokens[i]) == Success(QueryWord(w, true, false));
      assert tokens[i] in tokens;
      assert ParseQueryWord(sw, tokens[i]) == QueryWord(w, true, false);
      ValidMinusRemainder(tokens[i]);
      assert tokens[i][1..] == w;
    }
  }
}
