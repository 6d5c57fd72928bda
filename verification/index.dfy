/** The data model and the rules shared by the three copies of
    `SearchServer`: documents and their status, errors, integer average
    rating, stop-word filtering, the posting updates of `AddDocument`, query
    parsing into plus and minus sets, `MatchDocument`'s word matching and the
    positional id lookup. Term frequencies are exact reals. */
module Index {
  import opened Tokenizer
  import opened Orders

  datatype DocumentStatus = Actual | Irrelevant | Banned | Removed

  /** One entry of a search result. */
  datatype Document = Document(id: int, relevance: real, rating: int)

  /** What the index stores per document (`DocumentData`). */
  datatype DocumentData = DocumentData(rating: int, status: DocumentStatus)

  /** The exceptions the servers throw, by kind; messages are not modelled. */
  datatype Error =
    | InvalidStopWord      // invalid_argument "invalid stop word"
    | InvalidId            // invalid_argument "invalid id"
    | DuplicateId          // invalid_argument "id duplication"
    | InvalidDocumentWord  // invalid_argument "invalid document word"
    | EmptyQueryWord       // invalid_argument "Query word is empty"
    | InvalidQueryWord     // invalid_argument "invalid query word" / "Query word ... is invalid"
    | InvalidMinusWord     // invalid_argument "invalid minus word"
    | OutOfRange           // out_of_range, from map::at or GetDocumentId

  datatype Result<+T> = Success(value: T) | Failure(error: Error)

  datatype QueryWord = QueryWord(data: string, isMinus: bool, isStop: bool)

  datatype Query = Query(plus: set<string>, minus: set<string>)

  /** `word_to_document_freqs_`: word -> document id -> term frequency. */
  type Postings = map<string, map<int, real>>

  /** `documents_`: document id -> rating and status. */
  type Documents = map<int, DocumentData>

  // ---------------------------------------------------------------- words

  /** A char below `' '`; a byte of 0x80 or above is a negative `char` in C++
      and so never counts as one. */
  predicate IsControl(c: char)
  {
    c < ' '
  }

  /** `IsValidWord` of the latest and earliest servers: no control char. */
  predicate NoControlChars(word: string)
  {
    forall i :: 0 <= i < |word| ==> !IsControl(word[i])
  }

  /** Two consecutive minus signs somewhere in the word. */
  predicate HasDoubleMinus(word: string)
  {
    exists i :: 0 <= i < |word| - 1 && word[i] == '-' && word[i + 1] == '-'
  }

  /** Reading one more char adds a double minus exactly when it and the
      char before it are both minus signs: what the two-char buffers of
      `IsValidWord` and `IsCorrectMinusWord` look at. */
  lemma DoubleMinusStep(word: string, i: nat)
    requires i < |word|
    ensures HasDoubleMinus(word[..i + 1])
      <==> HasDoubleMinus(word[..i]) || (i >= 1 && word[i - 1] == '-' && word[i] == '-')
  {
    var p := word[..i + 1];
    if HasDoubleMinus(p) && !(i >= 1 && word[i - 1] == '-' && word[i] == '-') {
      var j :| 0 <= j < |p| - 1 && p[j] == '-' && p[j + 1] == '-';
      assert word[..i][j] == '-' && word[..i][j + 1] == '-';
    }
    if HasDoubleMinus(word[..i]) {
      var j :| 0 <= j < i - 1 && word[..i][j] == '-' && word[..i][j + 1] == '-';
      assert p[j] == '-' && p[j + 1] == '-';
    }
    if i >= 1 && word[i - 1] == '-' && word[i] == '-' {
      assert p[i - 1] == '-' && p[i] == '-';
    }
  }

  /** The index of the first word `valid` rejects, or `|words|` if none. */
  function FirstInvalid(words: seq<string>, valid: string --> bool): (r: nat)
    requires forall w :: w in words ==> valid.requires(w)
    ensures r <= |words|
    ensures forall i :: 0 <= i < r ==> valid(words[i])
    ensures r < |words| ==> !valid(words[r])
  {
    if words == [] then 0
    else if !valid(words[0]) then 0
    else
      assert forall w :: w in words[1..] ==> w in words;
      1 + FirstInvalid(words[1..], valid)
  }

  /** The loop that starts `FindTopDocuments` and `MatchDocument`: every
      token of the query must be valid. */
  method CheckQueryWords(tokens: seq<string>, valid: string --> bool) returns (ok: bool)
    requires forall t :: t in tokens ==> valid.requires(t)
    ensures ok <==> forall t :: t in tokens ==> valid(t)
  {
    var i := 0;
    while i < |tokens|
      invariant 0 <= i <= |tokens|
      invariant forall j :: 0 <= j < i ==> valid(tokens[j])
    {
      if !valid(tokens[i]) {
        return false;
      }
      i := i + 1;
    }
    assert forall t :: t in tokens ==> exists j :: 0 <= j < |tokens| && tokens[j] == t;
    return true;
  }

  /** The stop-word constructors: every candidate must pass `valid` or the
      construction throws; the non-empty ones become the stop words. The
      candidates form a set, so repeated words collapse. */
  method CollectStopWords(candidates: set<string>, valid: string --> bool) returns (r: Result<set<string>>)
    requires forall w :: w in candidates ==> valid.requires(w)
    ensures r.Failure? <==> exists w :: w in candidates && !valid(w)
    ensures r.Failure? ==> r.error == InvalidStopWord
    ensures r.Success? ==> r.value == set w | w in candidates && w != []
  {
    var stopWords: set<string> := {};
    var rest := candidates;
    while rest != {}
      invariant rest <= candidates
      invariant forall w :: w in candidates - rest ==> valid(w)
      invariant stopWords == set w | w in candidates - rest && w != []
      decreases rest
    {
      var word :| word in rest;
      if !valid(word) {
        return Failure(InvalidStopWord);
      }
      if word != [] {
        stopWords := stopWords + {word};
      }
      rest := rest - {word};
    }
    return Success(stopWords);
  }

  /** The words that are not stop words, in order. */
  function NonStop(words: seq<string>, stopWords: set<string>): seq<string>
  {
    if words == [] then []
    else
      var last := words[|words| - 1];
      NonStop(words[..|words| - 1], stopWords) + (if last in stopWords then [] else [last])
  }

  function Count(words: seq<string>, w: string): nat
  {
    if words == [] then 0
    else Count(words[..|words| - 1], w) + (if words[|words| - 1] == w then 1 else 0)
  }

  /** Stop-word filtering keeps every other word with its multiplicity. */
  lemma NonStopAt(words: seq<string>, stopWords: set<string>, w: string)
    ensures w in NonStop(words, stopWords) <==> w in words && w !in stopWords
    ensures Count(NonStop(words, stopWords), w) == if w in stopWords then 0 else Count(words, w)
  {
    NonStopHas(words, stopWords, w);
    NonStopCount(words, stopWords, w);
  }

  lemma {:induction false} NonStopHas(words: seq<string>, stopWords: set<string>, w: string)
    ensures w in NonStop(words, stopWords) <==> w in words && w !in stopWords
  {
    if words != [] {
      var init := words[..|words| - 1];
      var last := words[|words| - 1];
      NonStopHas(init, stopWords, w);
      assert words == init + [last];
    }
  }

  lemma {:induction false} NonStopCount(words: seq<string>, stopWords: set<string>, w: string)
    ensures Count(NonStop(words, stopWords), w) == if w in stopWords then 0 else Count(words, w)
  {
    if words != [] {
      var init := words[..|words| - 1];
      var last := words[|words| - 1];
      NonStopCount(init, stopWords, w);
      var kept := NonStop(words, stopWords);
      if last in stopWords {
        assert kept == NonStop(init, stopWords) + [];
        assert kept == NonStop(init, stopWords);
      } else {
        assert kept == NonStop(init, stopWords) + [last];
        assert kept[..|kept| - 1] == NonStop(init, stopWords);
      }
    }
  }

  method SplitIntoWordsNoStop(text: string, stopWords: set<string>) returns (words: seq<string>)
    ensures words == NonStop(Words(text), stopWords)
  {
    var tokens := SplitIntoWords(text);
    words := [];
    var i := 0;
    while i < |tokens|
      invariant 0 <= i <= |tokens|
      invariant words == NonStop(tokens[..i], stopWords)
    {
      assert tokens[..i + 1][..i] == tokens[..i];
      if tokens[i] !in stopWords {
        words := words + [tokens[i]];
      }
      i := i + 1;
    }
    assert tokens[..i] == tokens;
  }

  // -------------------------------------------------------------- ratings

  /** `std::accumulate` from 0: the sum of the ratings, left to right. The
      `int` overflow of the source is not modelled. */
  function Sum(ratings: seq<int>): int
  {
    if ratings == [] then 0 else Sum(ratings[..|ratings| - 1]) + ratings[|ratings| - 1]
  }

  /** C++ integer division: the quotient truncated toward zero. */
  function DivTowardZero(a: int, b: int): int
    requires b > 0
  {
    if a >= 0 then a / b else -((-a) / b)
  }

  /** `ComputeAverageRating`: 0 for no ratings, otherwise the sum divided by
      the count, truncated toward zero. */
  function AverageRating(ratings: seq<int>): (r: int)
    ensures ratings == [] ==> r == 0
    ensures ratings != [] && Sum(ratings) >= 0 ==> 0 <= Sum(ratings) - r * |ratings| < |ratings|
    ensures ratings != [] && Sum(ratings) < 0 ==> 0 <= r * |ratings| - Sum(ratings) < |ratings|
  {
    if ratings == [] then 0 else DivTowardZero(Sum(ratings), |ratings|)
  }

  // ------------------------------------------------- postings and counts

  function ValueOr<K>(m: map<K, real>, k: K): real
  {
    if k in m then m[k] else 0.0
  }

  /** `m[k] += inc` on a `std::map<K, double>`, which first inserts 0. */
  function Bump<K>(m: map<K, real>, k: K, inc: real): map<K, real>
  {
    m[k := ValueOr(m, k) + inc]
  }

  /** `m[w] += inc` for every word, in order. */
  function Tally(m: map<string, real>, words: seq<string>, inc: real): map<string, real>
  {
    if words == [] then m
    else Bump(Tally(m, words[..|words| - 1], inc), words[|words| - 1], inc)
  }

  function PostingsOf(index: Postings, word: string): map<int, real>
  {
    if word in index then index[word] else map[]
  }

  /** `word_to_document_freqs_[word][id] += inc`. */
  function PostWord(index: Postings, word: string, id: int, inc: real): Postings
  {
    index[word := Bump(PostingsOf(index, word), id, inc)]
  }

  /** `PostWord` for every word, in order. */
  function PostAll(index: Postings, words: seq<string>, id: int, inc: real): Postings
  {
    if words == [] then index
    else PostWord(PostAll(index, words[..|words| - 1], id, inc), words[|words| - 1], id, inc)
  }

  /** `inc` added `c` times, starting from 0. */
  function Times(c: nat, inc: real): real
  {
    if c == 0 then 0.0 else Times(c - 1, inc) + inc
  }

  lemma {:induction false} TimesIsProduct(c: nat, inc: real)
    ensures Times(c, inc) == c as real * inc
  {
    if c > 0 {
      TimesIsProduct(c - 1, inc);
      assert c as real * inc == (c - 1) as real * inc + inc;
    }
  }

  lemma {:induction false} TallyAt(m: map<string, real>, words: seq<string>, inc: real, w: string)
    ensures w in Tally(m, words, inc) <==> w in m || w in words
    ensures ValueOr(Tally(m, words, inc), w) == ValueOr(m, w) + Times(Count(words, w), inc)
  {
    if words != [] {
      var init := words[..|words| - 1];
      var last := words[|words| - 1];
      TallyAt(m, init, inc, w);
      assert words == init + [last];
      var before := Tally(m, init, inc);
      assert Tally(m, words, inc) == Bump(before, last, inc);
      assert ValueOr(Bump(before, last, inc), w) == ValueOr(before, w) + (if last == w then inc else 0.0);
      assert Count(words, w) == Count(init, w) + (if last == w then 1 else 0);
    }
  }

  /** After posting `words` for `id`, each word's postings differ from before
      only at `id`, whose frequency grew by `inc` per occurrence; no other
      word's postings change. */
  lemma PostAllAt(index: Postings, words: seq<string>, id: int, inc: real, w: string)
    ensures w in PostAll(index, words, id, inc) <==> w in index || w in words
    ensures PostingsOf(PostAll(index, words, id, inc), w) - {id} == PostingsOf(index, w) - {id}
    ensures id in PostingsOf(PostAll(index, words, id, inc), w) <==> id in PostingsOf(index, w) || w in words
    ensures ValueOr(PostingsOf(PostAll(index, words, id, inc), w), id)
         == ValueOr(PostingsOf(index, w), id) + Times(Count(words, w), inc)
  {
    PostAllWords(index, words, id, inc, w);
    PostAllPostings(index, words, id, inc, w);
  }

  /** Posting adds exactly the posted words to the index's words. */
  lemma {:induction false} PostAllWords(index: Postings, words: seq<string>, id: int, inc: real, w: string)
    ensures w in PostAll(index, words, id, inc) <==> w in index || w in words
  {
    if words != [] {
      var init := words[..|words| - 1];
      PostAllWords(index, init, id, inc, w);
      assert words == init + [words[|words| - 1]];
    }
  }

  /** Posting changes a word's postings at `id` only, by `inc` per
      occurrence of the word. */
  lemma {:induction false} PostAllPostings(index: Postings, words: seq<string>, id: int, inc: real, w: string)
    ensures PostingsOf(PostAll(index, words, id, inc), w) - {id} == PostingsOf(index, w) - {id}
    ensures id in PostingsOf(PostAll(index, words, id, inc), w) <==> id in PostingsOf(index, w) || w in words
    ensures ValueOr(PostingsOf(PostAll(index, words, id, inc), w), id)
         == ValueOr(PostingsOf(index, w), id) + Times(Count(words, w), inc)
  {
    if words != [] {
      var init := words[..|words| - 1];
      var last := words[|words| - 1];
      PostAllPostings(index, init, id, inc, w);
      assert words == init + [last];
      var before := PostAll(index, init, id, inc);
      assert PostAll(index, words, id, inc) == PostWord(before, last, id, inc);
      assert Count(words, w) == Count(init, w) + (if last == w then 1 else 0);
      if last == w {
        var p := PostingsOf(before, w);
        assert PostingsOf(PostWord(before, last, id, inc), w) == Bump(p, id, inc);
        assert Bump(p, id, inc) - {id} == p - {id};
      } else {
        assert PostingsOf(PostWord(before, last, id, inc), w) == PostingsOf(before, w);
      }
    }
  }

  /** The sum of the values of a map. */
  ghost function Total(m: map<string, real>): real
    decreases |m|
  {
    if m == map[] then 0.0
    else
      var k :| k in m;
      assert |(m - {k}).Keys| < |m.Keys| by { assert (m - {k}).Keys == m.Keys - {k}; }
      m[k] + Total(m - {k})
  }

  lemma {:induction false} TotalRemove(m: map<string, real>, k: string)
    requires k in m
    ensures Total(m) == m[k] + Total(m - {k})
    decreases |m|
  {
    var j :| j in m && Total(m) == m[j] + Total(m - {j});
    if j != k {
      assert (m - {j}).Keys == m.Keys - {j};
      assert (m - {k}).Keys == m.Keys - {k};
      TotalRemove(m - {j}, k);
      TotalRemove(m - {k}, j);
      assert m - {j} - {k} == m - {k} - {j};
    }
  }

  lemma TotalBump(m: map<string, real>, k: string, inc: real)
    ensures Total(Bump(m, k, inc)) == Total(m) + inc
  {
    var b := Bump(m, k, inc);
    TotalRemove(b, k);
    if k in m {
      TotalRemove(m, k);
      assert b - {k} == m - {k};
    } else {
      assert b - {k} == m;
    }
  }

  lemma {:induction false} TallyTotal(m: map<string, real>, words: seq<string>, inc: real)
    ensures Total(Tally(m, words, inc)) == Total(m) + Times(|words|, inc)
  {
    if words != [] {
      TallyTotal(m, words[..|words| - 1], inc);
      TotalBump(Tally(m, words[..|words| - 1], inc), words[|words| - 1], inc);
    }
  }

  /** `c` increments of `1 / n` make `c / n`. */
  lemma TimesShare(c: nat, n: nat)
    requires n > 0
    ensures Times(c, 1.0 / n as real) == c as real / n as real
  {
    TimesIsProduct(c, 1.0 / n as real);
  }

  /** The term frequencies `AddDocument` records for a document seen for the
      first time: each non-stop word's share of the non-stop words. */
  lemma TermFrequencies(words: seq<string>, w: string)
    requires words != []
    ensures var tf := Tally(map[], words, 1.0 / |words| as real);
      && (w in tf <==> w in words)
      && (w in tf ==> tf[w] == Count(words, w) as real / |words| as real)
  {
    TallyAt(map[], words, 1.0 / |words| as real, w);
    TimesShare(Count(words, w), |words|);
  }

  /** The shares sum to 1. */
  lemma TermFrequenciesTotal(words: seq<string>)
    requires words != []
    ensures Total(Tally(map[], words, 1.0 / |words| as real)) == 1.0
  {
    TallyTotal(map[], words, 1.0 / |words| as real);
    TimesShare(|words|, |words|);
    assert Total(map[]) == 0.0;
  }

  /** `1.0 / words.size()`; with no words the C++ quotient is infinite but
      never used, as no posting is written. */
  function InverseCount(n: nat): real
  {
    if n == 0 then 0.0 else 1.0 / n as real
  }

  /** For a document with no earlier postings, posting its non-stop words
      gives each word the share count/k of the k words, and no other word a
      posting. */
  lemma AddedFrequencies(index: Postings, words: seq<string>, id: int, w: string)
    requires words != []
    requires forall v :: !Posted(index, v, id)
    ensures Posted(PostAll(index, words, id, InverseCount(|words|)), w, id) <==> w in words
    ensures w in words ==>
      PostAll(index, words, id, InverseCount(|words|))[w][id] == Count(words, w) as real / |words| as real
  {
    PostAllAt(index, words, id, InverseCount(|words|), w);
    TimesShare(Count(words, w), |words|);
    assert !Posted(index, w, id);
  }

  /** `RemoveDocument`'s loop: `id` erased from every word's postings; words
      whose postings become empty stay. */
  function Erased(index: Postings, id: int): Postings
  {
    map w | w in index :: index[w] - {id}
  }

  /** After erasure no word posts `id`, every word is kept and every other
      posting is unchanged. */
  lemma ErasedMeaning(index: Postings, id: int)
    ensures Erased(index, id).Keys == index.Keys
    ensures forall w :: !Posted(Erased(index, id), w, id)
    ensures forall w, d :: d != id ==>
      (Posted(Erased(index, id), w, d) <==> Posted(index, w, d))
    ensures forall w, d :: d != id && Posted(index, w, d) ==> Erased(index, id)[w][d] == index[w][d]
  {
  }

  /** Every id of `ids` erased from every word's postings. */
  function ErasedAll(index: Postings, ids: set<int>): Postings
  {
    map w | w in index :: index[w] - ids
  }

  /** Erasing one more id after a batch is erasing the larger batch. */
  lemma ErasedAllStep(index: Postings, ids: set<int>, id: int)
    ensures Erased(ErasedAll(index, ids), id) == ErasedAll(index, ids + {id})
  {
    var left := Erased(ErasedAll(index, ids), id);
    var right := ErasedAll(index, ids + {id});
    forall w | w in index ensures left[w] == right[w] {
      assert left[w] == (index[w] - ids) - {id};
    }
  }

  // ------------------------------------------------------------ queries

  /** How `ParseQuery` files one parsed word: stop words are dropped, the
      rest go to the minus or the plus set. A word may end up in both. */
  function Include(q: Query, word: QueryWord): Query
  {
    if word.isStop then q
    else if word.isMinus then q.(minus := q.minus + {word.data})
    else q.(plus := q.plus + {word.data})
  }

  /** `ParseQuery` over the query's tokens, given the variant's
      `ParseQueryWord`: the first failing token's error, or the query. */
  function QueryFrom(tokens: seq<string>, parse: string --> Result<QueryWord>): Result<Query>
    requires forall t :: t in tokens ==> parse.requires(t)
  {
    if tokens == [] then Success(Query({}, {}))
    else
      var init := tokens[..|tokens| - 1];
      assert forall t :: t in init ==> t in tokens;
      match QueryFrom(init, parse)
      case Failure(e) => Failure(e)
      case Success(q) =>
        match parse(tokens[|tokens| - 1])
        case Failure(e) => Failure(e)
        case Success(word) => Success(Include(q, word))
  }

  predicate Parsed(tokens: seq<string>, parse: string --> Result<QueryWord>, word: QueryWord)
    requires forall t :: t in tokens ==> parse.requires(t)
  {
    exists i :: 0 <= i < |tokens| && parse(tokens[i]) == Success(word)
  }

  /** A query parses iff every token does, and the error is the first failing
      token's; a word is a plus (minus) word iff some token parses to it as a
      non-stop plus (minus) word. */
  lemma QueryFromMeaning(tokens: seq<string>, parse: string --> Result<QueryWord>)
    requires forall t :: t in tokens ==> parse.requires(t)
    ensures QueryFrom(tokens, parse).Success? <==> forall i :: 0 <= i < |tokens| ==> parse(tokens[i]).Success?
    ensures QueryFrom(tokens, parse).Failure? ==>
      exists i :: 0 <= i < |tokens| && parse(tokens[i]) == Failure(QueryFrom(tokens, parse).error)
              && forall j :: 0 <= j < i ==> parse(tokens[j]).Success?
    ensures QueryFrom(tokens, parse).Success? ==> forall w ::
      && (w in QueryFrom(tokens, parse).value.plus <==> Parsed(tokens, parse, QueryWord(w, false, false)))
      && (w in QueryFrom(tokens, parse).value.minus <==> Parsed(tokens, parse, QueryWord(w, true, false)))
  {
    QueryFromOutcome(tokens, parse);
    QueryFromWords(tokens, parse);
  }

  /** The outcome half of `QueryFromMeaning`: success iff every token
      parses, else the first failing token's error. */
  lemma {:induction false} QueryFromOutcome(tokens: seq<string>, parse: string --> Result<QueryWord>)
    requires forall t :: t in tokens ==> parse.requires(t)
    ensures QueryFrom(tokens, parse).Success? <==> forall i :: 0 <= i < |tokens| ==> parse(tokens[i]).Success?
    ensures QueryFrom(tokens, parse).Failure? ==>
      exists i :: 0 <= i < |tokens| && parse(tokens[i]) == Failure(QueryFrom(tokens, parse).error)
              && forall j :: 0 <= j < i ==> parse(tokens[j]).Success?
  {
    if tokens != [] {
      var init := tokens[..|tokens| - 1];
      var last := tokens[|tokens| - 1];
      assert forall t :: t in init ==> t in tokens;
      QueryFromOutcome(init, parse);
      assert forall j :: 0 <= j < |init| ==> tokens[j] == init[j];
      var r := QueryFrom(tokens, parse);
      if QueryFrom(init, parse).Failure? {
        var i :| 0 <= i < |init| && parse(init[i]) == Failure(QueryFrom(init, parse).error)
                 && forall j :: 0 <= j < i ==> parse(init[j]).Success?;
        assert parse(tokens[i]) == Failure(r.error);
      } else if parse(last).Failure? {
        assert parse(tokens[|init|]) == Failure(r.error);
      }
    }
  }

  /** The words half of `QueryFromMeaning`: a parsed query's plus (minus)
      words are exactly the tokens that parse to non-stop plus (minus)
      words. */
  lemma {:induction false} QueryFromWords(tokens: seq<string>, parse: string --> Result<QueryWord>)
    requires forall t :: t in tokens ==> parse.requires(t)
    ensures QueryFrom(tokens, parse).Success? ==> forall w ::
      && (w in QueryFrom(tokens, parse).value.plus <==> Parsed(tokens, parse, QueryWord(w, false, false)))
      && (w in QueryFrom(tokens, parse).value.minus <==> Parsed(tokens, parse, QueryWord(w, true, false)))
  {
    if tokens != [] {
      var init := tokens[..|tokens| - 1];
      var last := tokens[|tokens| - 1];
      assert forall t :: t in init ==> t in tokens;
      QueryFromWords(init, parse);
      assert forall j :: 0 <= j < |init| ==> tokens[j] == init[j];
      var r := QueryFrom(tokens, parse);
      if QueryFrom(init, parse).Success? && parse(last).Success? {
        forall w
          ensures w in r.value.plus <==> Parsed(tokens, parse, QueryWord(w, false, false))
          ensures w in r.value.minus <==> Parsed(tokens, parse, QueryWord(w, true, false))
        {
          if Parsed(tokens, parse, QueryWord(w, false, false)) {
            var i :| 0 <= i < |tokens| && parse(tokens[i]) == Success(QueryWord(w, false, false));
            if i < |init| { assert Parsed(init, parse, QueryWord(w, false, false)); }
          }
          if Parsed(tokens, parse, QueryWord(w, true, false)) {
            var i :| 0 <= i < |tokens| && parse(tokens[i]) == Success(QueryWord(w, true, false));
            if i < |init| { assert Parsed(init, parse, QueryWord(w, true, false)); }
          }
          if Parsed(init, parse, QueryWord(w, false, false)) {
            var i :| 0 <= i < |init| && parse(init[i]) == Success(QueryWord(w, false, false));
            assert parse(tokens[i]) == Success(QueryWord(w, false, false));
          }
          if Parsed(init, parse, QueryWord(w, true, false)) {
            var i :| 0 <= i < |init| && parse(init[i]) == Success(QueryWord(w, true, false));
            assert parse(tokens[i]) == Success(QueryWord(w, true, false));
          }
        }
      }
    }
  }

  /** Once a prefix of the tokens fails to parse, the whole query fails with
      the same error. */
  lemma {:induction false} QueryFromFailureSticks(tokens: seq<string>, k: nat, parse: string --> Result<QueryWord>)
    requires k <= |tokens|
    requires forall t :: t in tokens ==> parse.requires(t)
    requires forall t :: t in tokens[..k] ==> parse.requires(t)
    requires QueryFrom(tokens[..k], parse).Failure?
    ensures QueryFrom(tokens, parse) == QueryFrom(tokens[..k], parse)
    decreases |tokens| - k
  {
    if k < |tokens| {
      var init := tokens[..|tokens| - 1];
      assert init[..k] == tokens[..k];
      assert forall t :: t in init ==> t in tokens;
      QueryFromFailureSticks(init, k, parse);
    } else {
      assert tokens[..k] == tokens;
    }
  }

  /** The `ParseQuery` loop, given the variant's `ParseQueryWord`. */
  method ParseQuery(tokens: seq<string>, parse: string --> Result<QueryWord>) returns (r: Result<Query>)
    requires forall t :: t in tokens ==> parse.requires(t)
    ensures r == QueryFrom(tokens, parse)
  {
    var query := Query({}, {});
    var i := 0;
    while i < |tokens|
      invariant 0 <= i <= |tokens|
      invariant forall t :: t in tokens[..i] ==> t in tokens
      invariant QueryFrom(tokens[..i], parse) == Success(query)
    {
      assert tokens[..i + 1][..i] == tokens[..i];
      var word := parse(tokens[i]);
      if word.Failure? {
        QueryFromFailureSticks(tokens, i + 1, parse);
        return Failure(word.error);
      }
      query := Include(query, word.value);
      i := i + 1;
    }
    assert tokens[..i] == tokens;
    return Success(query);
  }

  // ------------------------------------------------------------ matching

  /** `word` has a posting for `id`. */
  predicate Posted(index: Postings, word: string, id: int)
  {
    word in index && id in index[word]
  }

  /** The words of `words` that have a posting for `id`, in order. */
  function Present(words: seq<string>, index: Postings, id: int): seq<string>
  {
    if words == [] then []
    else
      var last := words[|words| - 1];
      Present(words[..|words| - 1], index, id) + (if Posted(index, last, id) then [last] else [])
  }

  /** `MatchDocument`'s word list: empty if a minus word has a posting for
      the document, otherwise the plus words that do, in set order. */
  function Matched(index: Postings, q: Query, id: int): seq<string>
  {
    if exists w :: w in q.minus && Posted(index, w, id) then []
    else Present(SortedWords(q.plus), index, id)
  }

  lemma {:induction false} PresentMembers(words: seq<string>, index: Postings, id: int)
    ensures forall w :: w in Present(words, index, id) <==> w in words && Posted(index, w, id)
  {
    if words != [] {
      var init := words[..|words| - 1];
      PresentMembers(init, index, id);
      assert words == init + [words[|words| - 1]];
    }
  }

  lemma {:induction false} PresentSorted(words: seq<string>, index: Postings, id: int)
    requires StrictlySorted(words, LexLess)
    ensures StrictlySorted(Present(words, index, id), LexLess)
  {
    if words != [] {
      var init := words[..|words| - 1];
      var last := words[|words| - 1];
      assert StrictlySorted(init, LexLess);
      PresentSorted(init, index, id);
      PresentMembers(init, index, id);
      var p := Present(init, index, id);
      if Posted(index, last, id) {
        forall i | 0 <= i < |p| ensures LexLess(p[i], last) {
          assert p[i] in p;
          assert p[i] in init;
          var j :| 0 <= j < |init| && init[j] == p[i];
          assert words[j] == p[i];
        }
        var r := p + [last];
        assert Present(words, index, id) == r;
        forall i, j | 0 <= i < j < |r| ensures LexLess(r[i], r[j]) {
          if j < |p| {
            assert r[i] == p[i] && r[j] == p[j];
          }
        }
      } else {
        assert Present(words, index, id) == p + [];
        assert p + [] == p;
      }
    }
  }

  /** The matched words are sorted, are exactly the plus words with a posting
      for the document, and are empty when a minus word has one. */
  lemma MatchedMeaning(index: Postings, q: Query, id: int)
    ensures StrictlySorted(Matched(index, q, id), LexLess)
    ensures (exists w :: w in q.minus && Posted(index, w, id)) ==> Matched(index, q, id) == []
    ensures (forall w :: w in q.minus ==> !Posted(index, w, id)) ==>
      forall w :: w in Matched(index, q, id) <==> w in q.plus && Posted(index, w, id)
  {
    SortedWordsAscending(q.plus);
    PresentSorted(SortedWords(q.plus), index, id);
    PresentMembers(SortedWords(q.plus), index, id);
  }

  /** The minus-word loop of `MatchDocument`: does some word have a posting
      for `id`? */
  method AnyPosted(index: Postings, words: set<string>, id: int) returns (found: bool)
    ensures found <==> exists w :: w in words && Posted(index, w, id)
  {
    var rest := words;
    while rest != {}
      invariant rest <= words
      invariant forall w :: w in words - rest ==> !Posted(index, w, id)
      decreases rest
    {
      var w :| w in rest;
      if w in index && id in index[w] {
        return true;
      }
      rest := rest - {w};
    }
    return false;
  }

  /** One more word read: it is appended when it has a posting for `id`. */
  lemma PresentStep(words: seq<string>, i: nat, index: Postings, id: int)
    requires i < |words|
    ensures Present(words[..i + 1], index, id)
      == Present(words[..i], index, id) + (if Posted(index, words[i], id) then [words[i]] else [])
  {
    assert words[..i + 1][..i] == words[..i];
  }

  /** The plus-word loop of `MatchDocument`: the words with a posting for
      `id`, in the order read. */
  method PresentWords(words: seq<string>, index: Postings, id: int) returns (matched: seq<string>)
    ensures matched == Present(words, index, id)
  {
    matched := [];
    var i := 0;
    assert words[..0] == [];
    while i < |words|
      invariant 0 <= i <= |words|
      invariant matched == Present(words[..i], index, id)
    {
      PresentStep(words, i, index, id);
      if words[i] in index && id in index[words[i]] {
        matched := matched + [words[i]];
      }
      i := i + 1;
    }
    assert words[..i] == words;
  }

  /** The two loops of `MatchDocument`. */
  method MatchWords(index: Postings, q: Query, id: int) returns (matched: seq<string>)
    ensures matched == Matched(index, q, id)
  {
    matched := PresentWords(SortedWords(q.plus), index, id);
    var vetoed := AnyPosted(index, q.minus, id);
    if vetoed {
      matched := [];
    }
  }

  /** `MatchDocument` after its query was parsed: the matched words and the
      stored status, or `OutOfRange` from `documents_.at` for an unknown id. */
  function MatchOutcome(index: Postings, documents: Documents, q: Query, id: int): Result<(seq<string>, DocumentStatus)>
  {
    if id in documents then Success((Matched(index, q, id), documents[id].status))
    else Failure(OutOfRange)
  }

  // ------------------------------------------------------ positional ids

  /** `static_cast<int>(size - 1)` with `size` a `size_t`: the subtraction
      wraps modulo 2^64 and the cast keeps the low 32 bits as a two's
      complement `int`. */
  function LastIndexAsInt(size: nat): int
  {
    var wrapped := (size - 1) % 0x1_0000_0000_0000_0000;
    var low := wrapped % 0x1_0000_0000;
    if low >= 0x8000_0000 then low - 0x1_0000_0000 else low
  }

  /** An id roster without repetitions. */
  predicate Distinct(ids: seq<int>)
  {
    forall i, j :: 0 <= i < j < |ids| ==> ids[i] != ids[j]
  }

  /** A vector without repeated ids has as many ids as its set. */
  lemma {:induction false} DistinctCount(ids: seq<int>)
    requires Distinct(ids)
    ensures |set id | id in ids| == |ids|
  {
    if ids != [] {
      var init := ids[..|ids| - 1];
      var last := ids[|ids| - 1];
      DistinctCount(init);
      assert ids == init + [last];
      assert (set id | id in ids) == (set id | id in init) + {last};
      assert last !in init;
    }
  }

  /** `GetDocumentId`: the id added `index`-th, or `OutOfRange` when
      `index` is negative or past the end, an empty roster included. */
  function DocumentIdAt(ids: seq<int>, index: int): (r: Result<int>)
    requires |ids| < 0x8000_0000
    ensures r.Success? <==> 0 <= index < |ids|
    ensures r.Success? ==> r.value == ids[index]
    ensures r.Failure? ==> r.error == OutOfRange
  {
    if index > LastIndexAsInt(|ids|) || index < 0 then Failure(OutOfRange)
    else Success(ids[index])
  }
}
