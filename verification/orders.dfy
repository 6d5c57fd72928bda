/** Iteration order of the C++ ordered containers: a `std::set` or the keys
    of a `std::map` are visited in ascending order of their element type. */
module Orders {

  predicate StrictlySorted<T>(s: seq<T>, less: (T, T) -> bool)
  {
    forall i, j :: 0 <= i < j < |s| ==> less(s[i], s[j])
  }

  /** Lexicographic order of byte strings, as `std::string` compares them. */
  predicate LexLess(a: string, b: string)
  {
    if a == [] then b != []
    else if b == [] then false
    else if a[0] != b[0] then a[0] < b[0]
    else LexLess(a[1..], b[1..])
  }

  lemma {:induction false} LexIrreflexive(a: string)
    ensures !LexLess(a, a)
  {
    if a != [] {
      LexIrreflexive(a[1..]);
    }
  }

  lemma {:induction false} LexTransitive(a: string, b: string, c: string)
    requires LexLess(a, b) && LexLess(b, c)
    ensures LexLess(a, c)
  {
    if a != [] && b != [] && c != [] && a[0] == b[0] && b[0] == c[0] {
      LexTransitive(a[1..], b[1..], c[1..]);
    }
  }

  lemma {:induction false} LexTotal(a: string, b: string)
    requires a != b
    ensures LexLess(a, b) || LexLess(b, a)
  {
    if a != [] && b != [] && a[0] == b[0] {
      assert a == [a[0]] + a[1..] && b == [b[0]] + b[1..];
      LexTotal(a[1..], b[1..]);
    }
  }

  lemma {:induction false} LexLeastExists(s: set<string>)
    requires s != {}
    ensures exists m :: m in s && forall x :: x in s && x != m ==> LexLess(m, x)
    decreases s
  {
    assert exists y :: y in s by {
      if forall y :: y !in s {
        assert false;
      }
    }
    var y :| y in s;
    if s != {y} {
      var t := s - {y};
      LexLeastExists(t);
      var m :| m in t && forall x :: x in t && x != m ==> LexLess(m, x);
      LexTotal(y, m);
      var least := if LexLess(y, m) then y else m;
      forall x | x in s && x != least ensures LexLess(least, x) {
        if x != y && x != m {
          assert x in t;
          if least == y {
            LexTransitive(y, m, x);
          }
        }
      }
      assert least in s;
    } else {
      assert forall x :: x in s && x != y ==> LexLess(y, x);
    }
  }

  /** Two words are never each before the other. */
  lemma LexAsymmetric(a: string, b: string)
    ensures !(LexLess(a, b) && LexLess(b, a))
  {
    if LexLess(a, b) && LexLess(b, a) {
      LexTransitive(a, b, a);
      LexIrreflexive(a);
    }
  }

  /** The least word of a non-empty set. */
  function LeastWord(s: set<string>): (m: string)
    requires s != {}
    ensures m in s
    ensures forall x :: x in s && x != m ==> LexLess(m, x)
  {
    LexLeastExists(s);
    forall a, b ensures !(LexLess(a, b) && LexLess(b, a)) {
      LexAsymmetric(a, b);
    }
    var m :| m in s && forall x :: x in s && x != m ==> LexLess(m, x);
    m
  }

  /** The words of a `std::set<std::string>` in iteration order: the least
      word first. */
  function SortedWords(s: set<string>): (r: seq<string>)
    ensures |r| == |s|
    ensures forall w :: w in r <==> w in s
    decreases s
  {
    if s == {} then []
    else
      var m := LeastWord(s);
      [m] + SortedWords(s - {m})
  }

  /** A least element in front of a sorted sequence keeps it sorted. */
  lemma ConsSorted<T>(m: T, rest: seq<T>, less: (T, T) -> bool)
    requires StrictlySorted(rest, less)
    requires forall j :: 0 <= j < |rest| ==> less(m, rest[j])
    ensures StrictlySorted([m] + rest, less)
  {
    var r := [m] + rest;
    forall i, j | 0 <= i < j < |r| ensures less(r[i], r[j]) {
      assert r[j] == rest[j - 1];
      if i > 0 {
        assert r[i] == rest[i - 1];
      }
    }
  }

  /** The words come in strictly ascending lexicographic order. */
  lemma {:induction false} SortedWordsAscending(s: set<string>)
    ensures StrictlySorted(SortedWords(s), LexLess)
    decreases s
  {
    if s != {} {
      var m := LeastWord(s);
      var rest := SortedWords(s - {m});
      SortedWordsAscending(s - {m});
      forall j | 0 <= j < |rest| ensures LexLess(m, rest[j]) {
        assert rest[j] in s - {m};
      }
      ConsSorted(m, rest, LexLess);
    }
  }

  lemma {:induction false} IntLeastExists(s: set<int>)
    requires s != {}
    ensures exists m :: m in s && forall x :: x in s ==> m <= x
    decreases s
  {
    assert exists y :: y in s by {
      if forall y :: y !in s {
        assert false;
      }
    }
    var y :| y in s;
    if s != {y} {
      var t := s - {y};
      IntLeastExists(t);
      var m :| m in t && forall x :: x in t ==> m <= x;
      var least := if y < m then y else m;
      forall x | x in s ensures least <= x {
        if x != y {
          assert x in t;
        }
      }
      assert least in s;
    } else {
      assert forall x :: x in s ==> y <= x;
    }
  }

  /** The least id of a non-empty set. */
  function LeastId(s: set<int>): (m: int)
    requires s != {}
    ensures m in s
    ensures forall x :: x in s ==> m <= x
  {
    IntLeastExists(s);
    var m :| m in s && forall x :: x in s ==> m <= x;
    m
  }

  /** The ids of a `std::set<int>` (or the keys of a `std::map<int, _>`) in
      iteration order: the least id first. */
  function SortedIds(s: set<int>): (r: seq<int>)
    ensures |r| == |s|
    ensures forall id :: id in r <==> id in s
    decreases s
  {
    if s == {} then []
    else
      var m := LeastId(s);
      [m] + SortedIds(s - {m})
  }

  /** The ids come in strictly ascending order. */
  lemma {:induction false} SortedIdsAscending(s: set<int>)
    ensures forall i, j :: 0 <= i < j < |SortedIds(s)| ==> SortedIds(s)[i] < SortedIds(s)[j]
    decreases s
  {
    if s != {} {
      var m := LeastId(s);
      var rest := SortedIds(s - {m});
      SortedIdsAscending(s - {m});
      var r := SortedIds(s);
      assert r == [m] + rest;
      forall i, j | 0 <= i < j < |r| ensures r[i] < r[j] {
        assert r[j] == rest[j - 1] && rest[j - 1] in s;
        if i > 0 {
          assert r[i] == rest[i - 1];
        }
      }
    }
  }
}
