/** The space tokenizer shared by every copy of the search server
    (`SplitIntoWords`). A string is a sequence of chars, one char per byte
    of the C++ `std::string`. */
module Tokenizer {

  /** The completed words and the word under construction after scanning
      `text` from left to right, one char at a time, as the loop does. */
  function Scan(text: string): (seq<string>, string)
  {
    if text == [] then ([], [])
    else
      var (words, word) := Scan(text[..|text| - 1]);
      Step(words, word, text[|text| - 1])
  }

  /** One iteration of the loop: a space closes a non-empty word, any other
      char (tab, control char, non-ASCII byte) is appended to the word. */
  function Step(words: seq<string>, word: string, c: char): (seq<string>, string)
  {
    if c == ' ' then
      (if word != [] then words + [word] else words, [])
    else
      (words, word + [c])
  }

  /** The tokens of `text`: the scan plus the last word, if non-empty. */
  function Words(text: string): seq<string>
  {
    var (words, word) := Scan(text);
    if word != [] then words + [word] else words
  }

  /** `text` with every space removed. */
  function NoSpaces(text: string): string
  {
    if text == [] then []
    else NoSpaces(text[..|text| - 1]) + (if text[|text| - 1] == ' ' then [] else [text[|text| - 1]])
  }

  function Concat(words: seq<string>): string
  {
    if words == [] then [] else Concat(words[..|words| - 1]) + words[|words| - 1]
  }

  /** The tokens joined with single spaces. */
  function Join(words: seq<string>): string
  {
    if words == [] then []
    else if |words| == 1 then words[0]
    else Join(words[..|words| - 1]) + [' '] + words[|words| - 1]
  }

  predicate IsToken(word: string)
  {
    word != [] && ' ' !in word
  }

  method SplitIntoWords(text: string) returns (words: seq<string>)
    ensures words == Words(text)
  {
    words := [];
    var word: string := [];
    var index := 0;
    while index < |text|
      invariant 0 <= index <= |text|
      invariant (words, word) == Scan(text[..index])
    {
      assert text[..index + 1][..index] == text[..index];
      if text[index] == ' ' {
        if word != [] {
          words := words + [word];
          word := [];
        }
      } else {
        word := word + [text[index]];
      }
      index := index + 1;
    }
    assert text[..index] == text;
    if word != [] {
      words := words + [word];
    }
  }

  lemma {:induction false} ScanTokens(text: string)
    ensures forall i :: 0 <= i < |Scan(text).0| ==> IsToken(Scan(text).0[i])
    ensures ' ' !in Scan(text).1
    ensures Concat(Scan(text).0) + Scan(text).1 == NoSpaces(text)
  {
    if text != [] {
      var prefix := text[..|text| - 1];
      var c := text[|text| - 1];
      ScanTokens(prefix);
      var (words, word) := Scan(prefix);
      if c == ' ' && word != [] {
        assert (words + [word])[..|words|] == words;
      }
    }
  }

  /** No token is empty and no token contains a space. */
  lemma WordsAreTokens(text: string)
    ensures forall i :: 0 <= i < |Words(text)| ==> IsToken(Words(text)[i])
  {
    ScanTokens(text);
  }

  /** The tokens, in order, concatenate to the text without its spaces:
      every non-space char (tabs included) stays inside a token. */
  lemma WordsConcat(text: string)
    ensures Concat(Words(text)) == NoSpaces(text)
  {
    ScanTokens(text);
    var (words, word) := Scan(text);
    if word != [] {
      assert (words + [word])[..|words|] == words;
    }
  }

  lemma {:induction false} ConcatOfTokensEmpty(words: seq<string>)
    requires forall i :: 0 <= i < |words| ==> IsToken(words[i])
    requires Concat(words) == []
    ensures words == []
  {
  }

  lemma {:induction false} NoSpacesOfBlank(text: string)
    requires forall i :: 0 <= i < |text| ==> text[i] == ' '
    ensures NoSpaces(text) == []
  {
    if text != [] {
      NoSpacesOfBlank(text[..|text| - 1]);
    }
  }

  /** Empty or all-space text has no tokens. */
  lemma BlankHasNoWords(text: string)
    requires forall i :: 0 <= i < |text| ==> text[i] == ' '
    ensures Words(text) == []
  {
    WordsAreTokens(text);
    WordsConcat(text);
    NoSpacesOfBlank(text);
    ConcatOfTokensEmpty(Words(text));
  }

  /** Scanning space-free chars only grows the current word. */
  lemma {:induction false} ScanNoSpaces(prefix: string, chunk: string)
    requires ' ' !in chunk
    ensures Scan(prefix + chunk) == (Scan(prefix).0, Scan(prefix).1 + chunk)
  {
    if chunk != [] {
      var init := chunk[..|chunk| - 1];
      assert ' ' !in init by {
        forall i | 0 <= i < |init| ensures init[i] != ' ' { assert init[i] == chunk[i]; }
      }
      ScanNoSpaces(prefix, init);
      assert (prefix + chunk)[..|prefix + chunk| - 1] == prefix + init;
      var c := chunk[|chunk| - 1];
      assert (prefix + chunk)[|prefix + chunk| - 1] == c;
      assert c != ' ';
      assert Scan(prefix + chunk) == Step(Scan(prefix + init).0, Scan(prefix + init).1, c);
      assert (Scan(prefix).1 + init) + [c] == Scan(prefix).1 + chunk;
    } else {
      assert prefix + chunk == prefix;
      assert Scan(prefix).1 + chunk == Scan(prefix).1;
    }
  }

  /** Scanning past a space: the words before it are complete, and the scan of
      what follows carries on from nothing. */
  lemma {:induction false} ScanAfterSpace(left: string, right: string)
    ensures Scan(left + [' '] + right) == (Words(left) + Scan(right).0, Scan(right).1)
  {
    if right == [] {
      assert left + [' '] + right == left + [' '];
      assert (left + [' '])[..|left|] == left;
      assert Scan(left + [' ']) == Step(Scan(left).0, Scan(left).1, ' ');
      assert Scan(right) == ([], []);
      assert Words(left) + Scan(right).0 == Words(left);
    } else {
      var init := right[..|right| - 1];
      ScanAfterSpace(left, init);
      assert (left + [' '] + right)[..|left + [' '] + right| - 1] == left + [' '] + init;
      assert (left + [' '] + right)[|left + [' '] + right| - 1] == right[|right| - 1];
      var (words, word) := Scan(init);
      var c := right[|right| - 1];
      if c == ' ' && word != [] {
        assert (Words(left) + words) + [word] == Words(left) + (words + [word]);
      }
    }
  }

  /** A space separates: the tokens of `left + " " + right` are those of
      `left` followed by those of `right`. Leading, trailing and repeated
      spaces therefore never create tokens. */
  lemma SpaceSeparates(left: string, right: string)
    ensures Words(left + [' '] + right) == Words(left) + Words(right)
  {
    ScanAfterSpace(left, right);
    var (words, word) := Scan(right);
    if word != [] {
      assert Words(left) + (words + [word]) == (Words(left) + words) + [word];
    }
  }

  lemma LeadingSpace(text: string)
    ensures Words([' '] + text) == Words(text)
  {
    SpaceSeparates([], text);
    assert [] + [' '] + text == [' '] + text;
  }

  lemma TrailingSpace(text: string)
    ensures Words(text + [' ']) == Words(text)
  {
    SpaceSeparates(text, []);
    assert text + [' '] + [] == text + [' '];
  }

  lemma RepeatedSpace(left: string, right: string)
    ensures Words(left + [' ', ' '] + right) == Words(left + [' '] + right)
  {
    SpaceSeparates(left, [' '] + right);
    assert left + [' '] + ([' '] + right) == left + [' ', ' '] + right;
    LeadingSpace(right);
    SpaceSeparates(left, right);
  }

  /** Only the ASCII space separates: a non-empty space-free text, tabs and
      control chars included, is a single token. */
  lemma SingleToken(word: string)
    requires IsToken(word)
    ensures Words(word) == [word]
  {
    ScanNoSpaces([], word);
    assert [] + word == word;
  }

  /** Joining tokens with single spaces and splitting again gives them back. */
  lemma {:induction false} SplitJoin(words: seq<string>)
    requires forall i :: 0 <= i < |words| ==> IsToken(words[i])
    ensures Words(Join(words)) == words
  {
    if words == [] {
    } else if |words| == 1 {
      SingleToken(words[0]);
    } else {
      var init := words[..|words| - 1];
      var last := words[|words| - 1];
      SplitJoin(init);
      SpaceSeparates(Join(init), last);
      SingleToken(last);
      assert init + [last] == words;
    }
  }
}
