/** The earliest `SearchServer`, all in one file: `IsValidWord` only looks
    for control chars, minus words go through `IsCorrectMinusWord` with
    the test inverted, and the string constructor builds a temporary
    server instead of delegating. Queries are not checked before parsing:
    `ParseQuery` checks each token in turn. */
module EarliestServer {
  import opened Tokenizer
  import opened Index
  import opened Ranking
  import LatestServer

  /** `IsValidWord` of this copy: no control char, minus signs allowed. */
  predicate IsValidWord(word: string)
  {
    NoControlChars(word)
  }

  /** What `IsCorrectMinusWord` accepts: not a lone `-`, not ending with
      `-`, no `--`. It reads the last char, so the word must not be empty. */
  predicate CorrectMinusWord(word: string)
  {
    && word != []
    && !(|word| == 1 && word[0] == '-')
    && word[|word| - 1] != '-'
    && !HasDoubleMinus(word)
  }

  /** `IsCorrectMinusWord`: the end test, then a buffer holding the last
      two chars read, looking for `--`. */
  method IsCorrectMinusWord(word: string) returns (ok: bool)
    requires word != []
    ensures ok <==> word[|word| - 1] != '-' && !HasDoubleMinus(word)
    ensures ok == CorrectMinusWord(word)
  {
    if (|word| == 1 && word[0] == '-') || word[|word| - 1] == '-' {
      return false;
    }
    var buffer: string := [];
    var i := 0;
    while i < |word|
      invariant 0 <= i <= |word|
      invariant |buffer| == if i < 2 then i else 2
      invariant forall k :: 0 <= k < |buffer| ==> buffer[k] == word[i - |buffer| + k]
      invariant !HasDoubleMinus(word[..i])
    {
      DoubleMinusStep(word, i);
      buffer := buffer + [word[i]];
      if |buffer| > 2 {
        buffer := buffer[1..];
      }
      if buffer == "--" {
        assert buffer[0] == '-' && buffer[1] == '-';
        assert word[i - 1] == '-' && word[i] == '-';
        return false;
      }
      assert i >= 1 ==> buffer[0] == word[i - 1] && buffer[1] == word[i];
      i := i + 1;
    }
    assert word[..i] == word;
    return true;
  }

  /** `ParseQueryWord` as written: a leading `-` is stripped and the
      remainder is refused when it IS a correct minus word. A lone `-`
      leaves an empty remainder, whose last char `IsCorrectMinusWord` would
      read before the string, so the token must not be `-`. */
  function ParseQueryWord(stopWords: set<string>, text: string): (r: Result<QueryWord>)
    requires text != [] && text != ['-']
    ensures r.Failure? ==> r.error == InvalidMinusWord
    ensures r.Success? ==>
      && (r.value.isMinus <==> text[0] == '-')
      && text == (if r.value.isMinus then ['-'] else []) + r.value.data
      && (r.value.isStop <==> r.value.data in stopWords)
  {
    if text[0] == '-' then
      var rest := text[1..];
      assert text == ['-'] + rest;
      if CorrectMinusWord(rest) then Failure(InvalidMinusWord)
      else Success(QueryWord(rest, true, rest in stopWords))
    else Success(QueryWord(text, false, text in stopWords))
  }

  /** The inversion: every well-formed minus word is refused, and every
      minus word the parser accepts is malformed. */
  lemma MinusCheckInverted(stopWords: set<string>, word: string)
    requires word != []
    ensures CorrectMinusWord(word) ==> ParseQueryWord(stopWords, ['-'] + word) == Failure(InvalidMinusWord)
    ensures ParseQueryWord(stopWords, ['-'] + word).Success? ==> !CorrectMinusWord(word)
  {
    assert (['-'] + word)[1..] == word;
  }

  /** `-cat` is refused while `-cat-` yields the minus word `cat-`. */
  lemma MinusCheckExamples()
    ensures ParseQueryWord({}, "-cat") == Failure(InvalidMinusWord)
    ensures ParseQueryWord({}, "-cat-") == Success(QueryWord("cat-", true, false))
  {
    assert "-cat"[1..] == "cat";
    assert !HasDoubleMinus("cat");
    assert "-cat-"[1..] == "cat-";
  }

  /** `ParseQueryWord` as evidently intended: the remainder is refused when
      it is NOT a correct minus word. */
  function ParseQueryWordIntended(stopWords: set<string>, text: string): (r: Result<QueryWord>)
    requires text != []
    ensures r.Failure? ==> r.error == InvalidMinusWord
    ensures r.Success? && r.value.isMinus ==> CorrectMinusWord(r.value.data)
    ensures r.Success? ==>
      && (r.value.isMinus <==> text[0] == '-')
      && text == (if r.value.isMinus then ['-'] else []) + r.value.data
      && (r.value.isStop <==> r.value.data in stopWords)
  {
    if text[0] == '-' then
      var rest := text[1..];
      assert text == ['-'] + rest;
      if !CorrectMinusWord(rest) then Failure(InvalidMinusWord)
      else Success(QueryWord(rest, true, rest in stopWords))
    else Success(QueryWord(text, false, text in stopWords))
  }

  /** With the test the right way round, a correct minus word parses back
      to itself, and a plus word is untouched. */
  lemma IntendedRoundTrip(stopWords: set<string>, word: string)
    requires word != []
    ensures CorrectMinusWord(word) ==>
      ParseQueryWordIntended(stopWords, ['-'] + word) == Success(QueryWord(word, true, word in stopWords))
    ensures !CorrectMinusWord(word) ==> ParseQueryWordIntended(stopWords, ['-'] + word) == Failure(InvalidMinusWord)
    ensures word[0] != '-' ==> ParseQueryWordIntended(stopWords, word) == Success(QueryWord(word, false, word in stopWords))
  {
    assert (['-'] + word)[1..] == word;
  }

  /** `ParseQuery` of this copy, per token: the control-char test, then
      `ParseQueryWord`. */
  function Parser(stopWords: set<string>): (r: string --> Result<QueryWord>)
    ensures forall t :: t != [] && t != ['-'] ==> r.requires(t)
    ensures forall t :: t != [] && t != ['-'] ==>
      r(t) == if !IsValidWord(t) then Failure(InvalidQueryWord) else ParseQueryWord(stopWords, t)
  {
    t requires t != [] && t != ['-'] =>
      if !IsValidWord(t) then Failure(InvalidQueryWord) else ParseQueryWord(stopWords, t)
  }

  /** No token of the query is a lone `-`. */
  predicate NoBareMinus(rawQuery: string)
  {
    forall t :: t in Words(rawQuery) ==> t != ['-']
  }

  class SearchServer {
    var stopWords: set<string>
    var index: Postings
    var documents: Documents
    var idBase: seq<int>

    ghost predicate Valid()
      reads this
    {
      && Distinct(idBase)
      && (forall id :: id in idBase <==> id in documents)
      && (forall i :: 0 <= i < |idBase| ==> idBase[i] >= 0)
      && (forall w :: w in stopWords ==> w != [] && IsValidWord(w))
    }

    constructor Init(stopWords: set<string>)
      requires forall w :: w in stopWords ==> w != [] && IsValidWord(w)
      ensures Valid()
      ensures this.stopWords == stopWords
      ensures index == map[] && documents == map[] && idBase == []
    {
      this.stopWords := stopWords;
      index := map[];
      documents := map[];
      idBase := [];
    }

    /** The template stop-word constructor: the candidates form a set; one
        with a control char throws; the non-empty ones are kept. */
    static method FromCollection(candidates: seq<string>) returns (r: Result<SearchServer>)
      ensures r.Failure? <==> exists w :: w in candidates && !IsValidWord(w)
      ensures r.Failure? ==> r.error == InvalidStopWord
      ensures r.Success? ==> fresh(r.value) && r.value.Valid()
      ensures r.Success? ==> r.value.stopWords == (set w | w in candidates && w != [])
      ensures r.Success? ==> r.value.index == map[] && r.value.documents == map[] && r.value.idBase == []
    {
      var stop := CollectStopWords((set w | w in candidates), IsValidWord);
      if stop.Failure? {
        return Failure(stop.error);
      }
      var server := new SearchServer.Init(stop.value);
      return Success(server);
    }

    /** `SearchServer(const string&)` as written: the body constructs a
        temporary server from the tokens and drops it. The temporary's
        validation still throws, but the server built has no stop words. */
    static method FromText(text: string) returns (r: Result<SearchServer>)
      ensures r.Failure? <==> exists w :: w in Words(text) && !IsValidWord(w)
      ensures r.Failure? ==> r.error == InvalidStopWord
      ensures r.Success? ==> fresh(r.value) && r.value.Valid()
      ensures r.Success? ==> r.value.stopWords == {}
      ensures r.Success? ==> r.value.index == map[] && r.value.documents == map[] && r.value.idBase == []
    {
      var tokens := SplitIntoWords(text);
      var temporary := FromCollection(tokens);
      if temporary.Failure? {
        return Failure(temporary.error);
      }
      var server := new SearchServer.Init({});
      return Success(server);
    }

    /** The string constructor as evidently intended: delegate to the
        collection constructor, so the tokens become the stop words. */
    static method FromTextIntended(text: string) returns (r: Result<SearchServer>)
      ensures r.Failure? <==> exists w :: w in Words(text) && !IsValidWord(w)
      ensures r.Failure? ==> r.error == InvalidStopWord
      ensures r.Success? ==> fresh(r.value) && r.value.Valid()
      ensures r.Success? ==> r.value.stopWords == (set w | w in Words(text))
      ensures r.Success? ==> r.value.index == map[] && r.value.documents == map[] && r.value.idBase == []
    {
      var tokens := SplitIntoWords(text);
      WordsAreTokens(text);
      r := FromCollection(tokens);
      if r.Success? {
        assert (set w | w in tokens && w != []) == (set w | w in tokens);
      }
    }

    /** `AddDocument`: a negative id throws, and so does an id already in
        `id_base_` or in `documents_`, changing nothing. Otherwise the
        non-stop words are checked and posted in order; a word with a
        control char throws after the earlier ones were posted. On success
        the id is appended to `id_base_`. */
    method AddDocument(id: int, text: string, status: DocumentStatus, ratings: seq<int>) returns (r: Result<()>)
      requires Valid()
      modifies this
      ensures Valid()
      ensures stopWords == old(stopWords)
      ensures id < 0 ==> r == Failure(InvalidId) && unchanged(this)
      ensures id >= 0 && (id in old(idBase) || id in old(documents)) ==> r == Failure(DuplicateId) && unchanged(this)
      ensures id >= 0 && id !in old(idBase) && id !in old(documents) ==>
        var words := NonStop(Words(text), old(stopWords));
        var k := FirstInvalid(words, IsValidWord);
        var inc := InverseCount(|words|);
        && index == PostAll(old(index), words[..k], id, inc)
        && (k < |words| ==>
              (&& r == Failure(InvalidDocumentWord)
               && documents == old(documents) && idBase == old(idBase)))
        && (k == |words| ==>
              (&& r == Success(())
               && documents == old(documents)[id := DocumentData(AverageRating(ratings), status)]
               && idBase == old(idBase) + [id]))
    {
      if id < 0 {
        return Failure(InvalidId);
      }
      if id in idBase {
        return Failure(DuplicateId);
      }
      if id in documents {
        return Failure(DuplicateId);
      }
      var words := SplitIntoWordsNoStop(text, stopWords);
      var inc := InverseCount(|words|);
      var k := PostValidWords(words, id, inc);
      if k < |words| {
        return Failure(InvalidDocumentWord);
      }
      documents := documents[id := DocumentData(AverageRating(ratings), status)];
      idBase := idBase + [id];
      return Success(());
    }

    /** The word loop of `AddDocument`: each word in turn is checked, then
        posted; the loop stops at the first invalid word, whose index it
        returns. */
    method PostValidWords(words: seq<string>, id: int, inc: real) returns (k: nat)
      modifies this
      ensures k == FirstInvalid(words, IsValidWord)
      ensures index == PostAll(old(index), words[..k], id, inc)
      ensures stopWords == old(stopWords) && documents == old(documents) && idBase == old(idBase)
    {
      var i := 0;
      while i < |words|
        invariant 0 <= i <= |words|
        invariant forall j :: 0 <= j < i ==> IsValidWord(words[j])
        invariant index == PostAll(old(index), words[..i], id, inc)
        invariant stopWords == old(stopWords) && documents == old(documents) && idBase == old(idBase)
      {
        if !IsValidWord(words[i]) {
          return i;
        }
        assert words[..i + 1][..i] == words[..i];
        index := PostWord(index, words[i], id, inc);
        i := i + 1;
      }
      return i;
    }

    /** `GetDocumentCount`: the number of documents added successfully. */
    function GetDocumentCount(): (r: nat)
      requires Valid()
      reads this
      ensures r == |idBase|
    {
      DistinctCount(idBase);
      assert documents.Keys == set id | id in idBase by {
        forall id ensures id in documents.Keys <==> id in idBase {
        }
      }
      |documents|
    }

    /** `GetDocumentId`: the `index`-th id added, or `OutOfRange`. */
    function GetDocumentId(index: int): (r: Result<int>)
      requires Valid()
      requires |idBase| < 0x8000_0000
      reads this
      ensures r.Success? <==> 0 <= index < |idBase|
      ensures r.Success? ==> r.value == idBase[index] && r.value in documents
      ensures r.Failure? ==> r.error == OutOfRange
    {
      DocumentIdAt(idBase, index)
    }

    /** `ParseQuery`: each token in turn, the first failure wins. */
    function QueryOf(rawQuery: string): Result<Query>
      requires NoBareMinus(rawQuery)
      reads this
    {
      WordsAreTokens(rawQuery);
      QueryFrom(Words(rawQuery), Parser(stopWords))
    }

    method ParseRawQuery(rawQuery: string) returns (r: Result<Query>)
      requires NoBareMinus(rawQuery)
      ensures r == QueryOf(rawQuery)
    {
      var tokens := SplitIntoWords(rawQuery);
      WordsAreTokens(rawQuery);
      r := ParseQuery(tokens, Parser(stopWords));
    }

    /** What `MatchDocument` returns. */
    function MatchResult(rawQuery: string, id: int): Result<(seq<string>, DocumentStatus)>
      requires NoBareMinus(rawQuery)
      reads this
    {
      match QueryOf(rawQuery)
      case Failure(e) => Failure(e)
      case Success(q) => MatchOutcome(index, documents, q, id)
    }

    method MatchDocument(rawQuery: string, id: int) returns (r: Result<(seq<string>, DocumentStatus)>)
      requires NoBareMinus(rawQuery)
      ensures r == MatchResult(rawQuery, id)
    {
      var q := ParseRawQuery(rawQuery);
      if q.Failure? {
        return Failure(q.error);
      }
      var matched := MatchWords(index, q.value, id);
      if id !in documents {
        return Failure(OutOfRange);
      }
      return Success((matched, documents[id].status));
    }

    /** What `FindTopDocuments(raw_query, predicate)` returns. */
    function TopDocuments(rawQuery: string, pred: Filter, idf: Idf): Result<seq<Document>>
      requires NoBareMinus(rawQuery)
      reads this
    {
      match QueryOf(rawQuery)
      case Failure(e) => Failure(e)
      case Success(q) => Top(index, documents, q, pred, idf)
    }

    method FindTopDocuments(rawQuery: string, pred: Filter, idf: Idf) returns (r: Result<seq<Document>>)
      requires NoBareMinus(rawQuery)
      ensures r == TopDocuments(rawQuery, pred, idf)
    {
      var q := ParseRawQuery(rawQuery);
      if q.Failure? {
        return Failure(q.error);
      }
      r := Ranking.FindTopDocuments(index, documents, q.value, pred, idf);
    }

    /** `FindTopDocuments(raw_query, status)`. */
    method FindTopDocumentsByStatus(rawQuery: string, status: DocumentStatus, idf: Idf) returns (r: Result<seq<Document>>)
      requires NoBareMinus(rawQuery)
      ensures r == TopDocuments(rawQuery, LatestServer.StatusFilter(status), idf)
    {
      r := FindTopDocuments(rawQuery, LatestServer.StatusFilter(status), idf);
    }

    /** `FindTopDocuments(raw_query)`: the actual documents. */
    method FindActualDocuments(rawQuery: string, idf: Idf) returns (r: Result<seq<Document>>)
      requires NoBareMinus(rawQuery)
      ensures r == TopDocuments(rawQuery, LatestServer.StatusFilter(Actual), idf)
    {
      r := FindTopDocuments(rawQuery, LatestServer.StatusFilter(Actual), idf);
    }
  }

  // -------------------------------------------------------------- meaning

  /** A token that is not a lone `-` fails to parse iff it has a control
      char or is `-` followed by a correct minus word. */
  lemma ParserFails(stopWords: set<string>, t: string)
    requires t != [] && t != ['-']
    ensures Parser(stopWords)(t).Failure? <==> !IsValidWord(t) || (t[0] == '-' && CorrectMinusWord(t[1..]))
  {
  }

  /** Some token parses to the non-stop plus word `w` iff `w` itself is a
      token without a leading `-` and not a stop word. */
  lemma ParsedPlus(tokens: seq<string>, stopWords: set<string>, w: string)
    requires forall t :: t in tokens ==> IsValidWord(t) && t != [] && t != ['-']
    ensures Parsed(tokens, Parser(stopWords), QueryWord(w, false, false))
      <==> w in tokens && w != [] && w[0] != '-' && w !in stopWords
  {
    var parse := Parser(stopWords);
    if w in tokens && w != [] && w[0] != '-' && w !in stopWords {
      var i :| 0 <= i < |tokens| && tokens[i] == w;
      assert parse(tokens[i]) == Success(QueryWord(w, false, false));
    }
    if Parsed(tokens, parse, QueryWord(w, false, false)) {
      var i :| 0 <= i < |tokens| && parse(tokens[i]) == Success(QueryWord(w, false, false));
      assert tokens[i] in tokens;
    }
  }

  /** Some token parses to the non-stop minus word `w` iff `-` followed by
      `w` is a token and `w` is not a stop word; such a `w` is never a
      correct minus word. */
  lemma ParsedMinus(tokens: seq<string>, stopWords: set<string>, w: string)
    requires forall t :: t in tokens ==> IsValidWord(t) && t != [] && t != ['-']
    requires forall t :: t in tokens && t[0] == '-' ==> !CorrectMinusWord(t[1..])
    ensures Parsed(tokens, Parser(stopWords), QueryWord(w, true, false))
      <==> ['-'] + w in tokens && w !in stopWords
    ensures Parsed(tokens, Parser(stopWords), QueryWord(w, true, false)) ==> !CorrectMinusWord(w)
  {
    var parse := Parser(stopWords);
    if ['-'] + w in tokens && w !in stopWords {
      var i :| 0 <= i < |tokens| && tokens[i] == ['-'] + w;
      assert tokens[i] in tokens;
      assert tokens[i][1..] == w;
      assert parse(tokens[i]) == Success(QueryWord(w, true, false));
    }
    if Parsed(tokens, parse, QueryWord(w, true, false)) {
      var i :| 0 <= i < |tokens| && parse(tokens[i]) == Success(QueryWord(w, true, false));
      assert tokens[i] in tokens;
      assert tokens[i] == ['-'] + w;
      assert tokens[i][1..] == w;
    }
  }

  /** Tokens none of which is a lone `-` fail to parse iff one of them has
      a control char or is `-` followed by a correct minus word. */
  lemma QueryFails(tokens: seq<string>, stopWords: set<string>)
    requires forall i :: 0 <= i < |tokens| ==> tokens[i] != [] && tokens[i] != ['-']
    ensures QueryFrom(tokens, Parser(stopWords)).Failure? <==>
      exists t :: t in tokens && (!IsValidWord(t) || (t != [] && t[0] == '-' && CorrectMinusWord(t[1..])))
  {
    var parse := Parser(stopWords);
    QueryFromMeaning(tokens, parse);
    forall i | 0 <= i < |tokens|
      ensures parse(tokens[i]).Failure? <==>
        !IsValidWord(tokens[i]) || (tokens[i][0] == '-' && CorrectMinusWord(tokens[i][1..]))
    {
      assert tokens[i] in tokens;
      ParserFails(stopWords, tokens[i]);
    }
    if exists t :: t in tokens && (!IsValidWord(t) || (t != [] && t[0] == '-' && CorrectMinusWord(t[1..]))) {
      var t :| t in tokens && (!IsValidWord(t) || (t != [] && t[0] == '-' && CorrectMinusWord(t[1..])));
      var i :| 0 <= i < |tokens| && tokens[i] == t;
    }
  }

  /** A query fails iff some token has a control char or is `-` followed by
      a correct minus word, and the error is that of the first such token;
      otherwise plus words are the tokens without a leading `-` and minus
      words the remainders after `-`, all of them malformed, stop words
      dropped. */
  lemma QueryOfMeaning(server: SearchServer, rawQuery: string)
    requires NoBareMinus(rawQuery)
    ensures server.QueryOf(rawQuery).Failure? <==>
      exists t :: t in Words(rawQuery) && (!IsValidWord(t) || (t != [] && t[0] == '-' && CorrectMinusWord(t[1..])))
    ensures server.QueryOf(rawQuery).Success? ==>
      forall w ::
        && (w in server.QueryOf(rawQuery).value.plus <==>
              w in Words(rawQuery) && w != [] && w[0] != '-' && w !in server.stopWords)
        && (w in server.QueryOf(rawQuery).value.minus <==>
              ['-'] + w in Words(rawQuery) && w !in server.stopWords)
        && (w in server.QueryOf(rawQuery).value.minus ==> !CorrectMinusWord(w))
  {
    var tokens := Words(rawQuery);
    var sw := server.stopWords;
    assert forall i :: 0 <= i < |tokens| ==> tokens[i] != [] && tokens[i] != ['-'] by {
      WordsAreTokens(rawQuery);
      forall i | 0 <= i < |tokens| ensures tokens[i] != ['-'] {
        assert tokens[i] in tokens;
      }
    }
    assert server.QueryOf(rawQuery) == QueryFrom(tokens, Parser(sw));
    QueryFails(tokens, sw);
    if QueryFrom(tokens, Parser(sw)).Success? {
      QueryFromMeaning(tokens, Parser(sw));
      forall w
        ensures w in QueryFrom(tokens, Parser(sw)).value.plus <==> w in tokens && w != [] && w[0] != '-' && w !in sw
        ensures w in QueryFrom(tokens, Parser(sw)).value.minus <==> ['-'] + w in tokens && w !in sw
        ensures w in QueryFrom(tokens, Parser(sw)).value.minus ==> !CorrectMinusWord(w)
      {
        ParsedPlus(tokens, sw, w);
        ParsedMinus(tokens, sw, w);
      }
    }
  }
}
