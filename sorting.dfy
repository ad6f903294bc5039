/**
 * Stable sorting, as Python's sorted() and list.sort() do it: by a numeric
 * key in either direction (reverse=True keeps ties in their original order
 * too), and by a str key. Both are insertion sorts that place a new element
 * after every element it does not have to precede, so equal keys keep their
 * input order.
 */
module Sorting {
  import opened Strings
  import opened Seqs

  // ---------------------------------------------------------------------
  // Numeric keys
  // ---------------------------------------------------------------------

  /** a may stand before b: a >= b when descending, a <= b when ascending. */
  predicate Precedes(a: real, b: real, descending: bool) {
    if descending then a >= b else a <= b
  }

  predicate SortedBy<T>(s: seq<T>, key: T -> real, descending: bool) {
    forall i, j :: 0 <= i < j < |s| ==> Precedes(key(s[i]), key(s[j]), descending)
  }

  /** Insert x after the leading elements that may precede it. */
  function Insert<T>(s: seq<T>, x: T, key: T -> real, descending: bool): seq<T> {
    if s == [] then [x]
    else if Precedes(key(s[0]), key(x), descending) then [s[0]] + Insert(s[1..], x, key, descending)
    else [x] + s
  }

  /** Stable insertion sort by key. */
  function SortBy<T>(s: seq<T>, key: T -> real, descending: bool): seq<T> {
    if s == [] then []
    else Insert(SortBy(s[..|s| - 1], key, descending), s[|s| - 1], key, descending)
  }

  /** The elements of s whose key is k, in their order in s. */
  function WithKey<T>(s: seq<T>, key: T -> real, k: real): seq<T> {
    if s == [] then []
    else WithKey(s[..|s| - 1], key, k) + (if key(s[|s| - 1]) == k then [s[|s| - 1]] else [])
  }

  lemma {:induction false} WithKeyAppend<T>(a: seq<T>, b: seq<T>, key: T -> real, k: real)
    ensures WithKey(a + b, key, k) == WithKey(a, key, k) + WithKey(b, key, k)
  {
    if b == [] {
      assert a + b == a;
    } else {
      assert (a + b)[..|a + b| - 1] == a + b[..|b| - 1];
      WithKeyAppend(a, b[..|b| - 1], key, k);
    }
  }

  lemma {:induction false} WithKeyNone<T>(s: seq<T>, key: T -> real, k: real)
    requires forall i :: 0 <= i < |s| ==> key(s[i]) != k
    ensures WithKey(s, key, k) == []
  {
    if s != [] {
      WithKeyNone(s[..|s| - 1], key, k);
    }
  }

  lemma WithKeyOne<T>(x: T, key: T -> real, k: real)
    ensures WithKey([x], key, k) == if key(x) == k then [x] else []
  {
    assert [x][..0] == [];
  }

  lemma {:induction false} InsertMultiset<T>(s: seq<T>, x: T, key: T -> real, descending: bool)
    ensures multiset(Insert(s, x, key, descending)) == multiset(s) + multiset{x}
  {
    if s != [] && Precedes(key(s[0]), key(x), descending) {
      InsertMultiset(s[1..], x, key, descending);
      assert s == [s[0]] + s[1..];
    }
  }

  /** An element that may precede every element of a sorted sequence can be put in front of it. */
  lemma ConsSorted<T>(y: T, s: seq<T>, key: T -> real, descending: bool)
    requires SortedBy(s, key, descending)
    requires forall e | e in s :: Precedes(key(y), key(e), descending)
    ensures SortedBy([y] + s, key, descending)
  {
    var r := [y] + s;
    forall i, j | 0 <= i < j < |r|
      ensures Precedes(key(r[i]), key(r[j]), descending)
    {
      assert r[j] == s[j - 1];
      if i > 0 {
        assert r[i] == s[i - 1];
      }
    }
  }

  lemma {:induction false} InsertSorted<T>(s: seq<T>, x: T, key: T -> real, descending: bool)
    requires SortedBy(s, key, descending)
    ensures SortedBy(Insert(s, x, key, descending), key, descending)
  {
    if s == [] {
    } else if Precedes(key(s[0]), key(x), descending) {
      var tail := s[1..];
      assert SortedBy(tail, key, descending) by {
        forall i, j | 0 <= i < j < |tail|
          ensures Precedes(key(tail[i]), key(tail[j]), descending)
        {
          assert tail[i] == s[i + 1] && tail[j] == s[j + 1];
        }
      }
      var rest := Insert(tail, x, key, descending);
      InsertSorted(tail, x, key, descending);
      InsertMultiset(tail, x, key, descending);
      forall e | e in rest
        ensures Precedes(key(s[0]), key(e), descending)
      {
        assert e in multiset(rest);
        if e != x {
          assert e in multiset(tail);
          var k :| 0 <= k < |tail| && tail[k] == e;
          assert s[k + 1] == e;
        }
      }
      ConsSorted(s[0], rest, key, descending);
    } else {
      forall e | e in s
        ensures Precedes(key(x), key(e), descending)
      {
        var k :| 0 <= k < |s| && s[k] == e;
        if k > 0 {
          assert Precedes(key(s[0]), key(s[k]), descending);
        }
      }
      ConsSorted(x, s, key, descending);
    }
  }

  lemma {:induction false} InsertStable<T>(s: seq<T>, x: T, key: T -> real, descending: bool, k: real)
    requires SortedBy(s, key, descending)
    ensures WithKey(Insert(s, x, key, descending), key, k)
         == WithKey(s, key, k) + (if key(x) == k then [x] else [])
  {
    if s == [] {
      WithKeyOne(x, key, k);
    } else if Precedes(key(s[0]), key(x), descending) {
      InsertStable(s[1..], x, key, descending, k);
      InsertStablePast(s, x, key, descending, k);
    } else {
      InsertStableFront(s, x, key, descending, k);
    }
  }

  lemma InsertStablePast<T>(s: seq<T>, x: T, key: T -> real, descending: bool, k: real)
    requires s != [] && Precedes(key(s[0]), key(x), descending)
    requires WithKey(Insert(s[1..], x, key, descending), key, k)
          == WithKey(s[1..], key, k) + (if key(x) == k then [x] else [])
    ensures WithKey(Insert(s, x, key, descending), key, k)
         == WithKey(s, key, k) + (if key(x) == k then [x] else [])
  {
    var rest := Insert(s[1..], x, key, descending);
    assert Insert(s, x, key, descending) == [s[0]] + rest;
    var front := if key(s[0]) == k then [s[0]] else [];
    var tail := WithKey(s[1..], key, k);
    var added := if key(x) == k then [x] else [];
    assert WithKey(s, key, k) == front + tail by {
      assert s == [s[0]] + s[1..];
      ConsWithKey(s[0], s[1..], key, k);
    }
    assert WithKey([s[0]] + rest, key, k) == front + (tail + added) by {
      ConsWithKey(s[0], rest, key, k);
    }
    assert front + (tail + added) == (front + tail) + added;
  }

  lemma InsertStableFront<T>(s: seq<T>, x: T, key: T -> real, descending: bool, k: real)
    requires SortedBy(s, key, descending)
    requires s != [] && !Precedes(key(s[0]), key(x), descending)
    ensures WithKey(Insert(s, x, key, descending), key, k)
         == WithKey(s, key, k) + (if key(x) == k then [x] else [])
  {
    assert Insert(s, x, key, descending) == [x] + s;
    ConsWithKey(x, s, key, k);
    if key(x) == k {
      forall i | 0 <= i < |s|
        ensures key(s[i]) != k
      {
        if i > 0 {
          assert Precedes(key(s[0]), key(s[i]), descending);
        }
      }
      WithKeyNone(s, key, k);
    }
  }

  lemma ConsWithKey<T>(x: T, s: seq<T>, key: T -> real, k: real)
    ensures WithKey([x] + s, key, k) == (if key(x) == k then [x] else []) + WithKey(s, key, k)
  {
    WithKeyAppend([x], s, key, k);
    WithKeyOne(x, key, k);
  }

  /** SortBy orders by key, keeps every element, and keeps equal keys in input order. */
  lemma {:induction false} SortByCorrect<T>(s: seq<T>, key: T -> real, descending: bool)
    ensures SortedBy(SortBy(s, key, descending), key, descending)
    ensures multiset(SortBy(s, key, descending)) == multiset(s)
    ensures |SortBy(s, key, descending)| == |s|
    ensures forall k :: WithKey(SortBy(s, key, descending), key, k) == WithKey(s, key, k)
  {
    if s != [] {
      var init, x := s[..|s| - 1], s[|s| - 1];
      assert s == init + [x];
      SortByCorrect(init, key, descending);
      InsertSorted(SortBy(init, key, descending), x, key, descending);
      InsertMultiset(SortBy(init, key, descending), x, key, descending);
      forall k
        ensures WithKey(SortBy(s, key, descending), key, k) == WithKey(s, key, k)
      {
        InsertStable(SortBy(init, key, descending), x, key, descending, k);
      }
    }
    assert |multiset(SortBy(s, key, descending))| == |multiset(s)|;
  }

  // ---------------------------------------------------------------------
  // str keys
  // ---------------------------------------------------------------------

  predicate TextSorted<T>(s: seq<T>, key: T -> string) {
    forall i, j :: 0 <= i < j < |s| ==> StrLe(key(s[i]), key(s[j]))
  }

  predicate TextIncreasing<T>(s: seq<T>, key: T -> string) {
    forall i, j :: 0 <= i < j < |s| ==> StrLt(key(s[i]), key(s[j]))
  }

  function InsertText<T>(s: seq<T>, x: T, key: T -> string): seq<T> {
    if s == [] then [x]
    else if StrLe(key(s[0]), key(x)) then [s[0]] + InsertText(s[1..], x, key)
    else [x] + s
  }

  /** Stable insertion sort by a str key, ascending. */
  function SortText<T>(s: seq<T>, key: T -> string): seq<T> {
    if s == [] then [] else InsertText(SortText(s[..|s| - 1], key), s[|s| - 1], key)
  }

  lemma StrLeTransitive(a: string, b: string, c: string)
    requires StrLe(a, b) && StrLe(b, c)
    ensures StrLe(a, c)
  {
    if a != b && b != c {
      StrLtTransitive(a, b, c);
    }
  }

  lemma {:induction false} InsertTextMultiset<T>(s: seq<T>, x: T, key: T -> string)
    ensures multiset(InsertText(s, x, key)) == multiset(s) + multiset{x}
  {
    if s != [] && StrLe(key(s[0]), key(x)) {
      InsertTextMultiset(s[1..], x, key);
      assert s == [s[0]] + s[1..];
    }
  }

  /** An element whose key is at most every key of a sorted sequence can be put in front of it. */
  lemma ConsTextSorted<T>(y: T, s: seq<T>, key: T -> string)
    requires TextSorted(s, key)
    requires forall e | e in s :: StrLe(key(y), key(e))
    ensures TextSorted([y] + s, key)
  {
    var r := [y] + s;
    forall i, j | 0 <= i < j < |r|
      ensures StrLe(key(r[i]), key(r[j]))
    {
      assert r[j] == s[j - 1];
      if i > 0 {
        assert r[i] == s[i - 1];
      }
    }
  }

  lemma {:induction false} InsertTextSorted<T>(s: seq<T>, x: T, key: T -> string)
    requires TextSorted(s, key)
    ensures TextSorted(InsertText(s, x, key), key)
  {
    if s == [] {
    } else if StrLe(key(s[0]), key(x)) {
      var tail := s[1..];
      assert TextSorted(tail, key) by {
        forall i, j | 0 <= i < j < |tail|
          ensures StrLe(key(tail[i]), key(tail[j]))
        {
          assert tail[i] == s[i + 1] && tail[j] == s[j + 1];
        }
      }
      var rest := InsertText(tail, x, key);
      InsertTextSorted(tail, x, key);
      InsertTextMultiset(tail, x, key);
      forall e | e in rest
        ensures StrLe(key(s[0]), key(e))
      {
        assert e in multiset(rest);
        if e != x {
          assert e in multiset(tail);
          var k :| 0 <= k < |tail| && tail[k] == e;
          assert s[k + 1] == e;
        }
      }
      ConsTextSorted(s[0], rest, key);
    } else {
      StrLtTotal(key(s[0]), key(x));
      forall e | e in s
        ensures StrLe(key(x), key(e))
      {
        var k :| 0 <= k < |s| && s[k] == e;
        if k > 0 {
          assert StrLe(key(s[0]), key(s[k]));
          StrLeTransitive(key(x), key(s[0]), key(s[k]));
        }
      }
      ConsTextSorted(x, s, key);
    }
  }

  /** SortText orders ascending by key and keeps every element. */
  lemma {:induction false} SortTextCorrect<T>(s: seq<T>, key: T -> string)
    ensures TextSorted(SortText(s, key), key)
    ensures multiset(SortText(s, key)) == multiset(s)
  {
    if s != [] {
      var init, x := s[..|s| - 1], s[|s| - 1];
      assert s == init + [x];
      SortTextCorrect(init, key);
      InsertTextSorted(SortText(init, key), x, key);
      InsertTextMultiset(SortText(init, key), x, key);
    }
  }

  /** Sorted with no repeated key means strictly increasing. */
  lemma SortedDistinctIncreasing<T>(s: seq<T>, key: T -> string)
    requires TextSorted(s, key) && DistinctBy(s, key)
    ensures TextIncreasing(s, key)
  {
  }

  /** Sorting a sequence with distinct keys gives strictly increasing keys. */
  lemma SortTextIncreasing<T>(s: seq<T>, key: T -> string)
    requires DistinctBy(s, key)
    ensures TextIncreasing(SortText(s, key), key)
    ensures DistinctBy(SortText(s, key), key)
  {
    SortTextCorrect(s, key);
    PermDistinct(s, SortText(s, key), key);
  }

  /** A strictly increasing list of strings is determined by its elements. */
  lemma {:induction false} IncreasingUnique(a: seq<string>, b: seq<string>)
    requires TextIncreasing(a, Ident) && TextIncreasing(b, Ident)
    requires forall x :: x in a <==> x in b
    ensures a == b
  {
    assert a != [] ==> a[0] in a;
    assert b != [] ==> b[0] in b;
    if a != [] && b != [] {
      assert a[0] in b;
      assert b[0] in a;
      var i :| 0 <= i < |a| && a[i] == b[0];
      var j :| 0 <= j < |b| && b[j] == a[0];
      if i > 0 && j > 0 {
        assert StrLt(a[0], a[i]) && StrLt(b[0], b[j]);
        StrLtAsymmetric(a[0], b[0]);
      } else if i > 0 {
        assert a[0] == b[0];
        assert StrLt(Ident(a[0]), Ident(a[i]));
        StrLtIrreflexive(a[0]);
      } else if j > 0 {
        assert StrLt(Ident(b[0]), Ident(b[j]));
        StrLtIrreflexive(b[0]);
      }
      assert a[0] == b[0];
      forall x
        ensures x in a[1..] <==> x in b[1..]
      {
        if x in a[1..] {
          var m :| 1 <= m < |a| && a[m] == x;
          assert StrLt(a[0], a[m]);
          StrLtIrreflexive(x);
          assert x in b;
        }
        if x in b[1..] {
          var m :| 1 <= m < |b| && b[m] == x;
          assert StrLt(b[0], b[m]);
          StrLtIrreflexive(x);
          assert x in a;
        }
      }
      IncreasingUnique(a[1..], b[1..]);
      assert a == [a[0]] + a[1..] && b == [b[0]] + b[1..];
    }
  }
}
