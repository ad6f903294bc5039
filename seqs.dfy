/**
 * Generic facts about sequences used by every reducer: sums over a
 * sequence, order-preserving subsequences, distinct labels, Python's list
 * slice s[:n], and lookup of a key in an insertion-ordered association
 * sequence (the model of a Python dict).
 */
module Seqs {
  import opened Options

  /** The sum of f over the elements of s. */
  function SumReal<T>(s: seq<T>, f: T -> real): real {
    if s == [] then 0.0 else SumReal(s[..|s| - 1], f) + f(s[|s| - 1])
  }

  function SumInt<T>(s: seq<T>, f: T -> int): int {
    if s == [] then 0 else SumInt(s[..|s| - 1], f) + f(s[|s| - 1])
  }

  lemma {:induction false} SumRealAppend<T>(a: seq<T>, b: seq<T>, f: T -> real)
    ensures SumReal(a + b, f) == SumReal(a, f) + SumReal(b, f)
  {
    if b == [] {
      assert a + b == a;
    } else {
      assert (a + b)[..|a + b| - 1] == a + b[..|b| - 1];
      SumRealAppend(a, b[..|b| - 1], f);
    }
  }

  lemma {:induction false} SumIntAppend<T>(a: seq<T>, b: seq<T>, f: T -> int)
    ensures SumInt(a + b, f) == SumInt(a, f) + SumInt(b, f)
  {
    if b == [] {
      assert a + b == a;
    } else {
      assert (a + b)[..|a + b| - 1] == a + b[..|b| - 1];
      SumIntAppend(a, b[..|b| - 1], f);
    }
  }

  /** Removing the element at p from s leaves s without one copy of s[p]. */
  lemma RemoveAt<T>(s: seq<T>, p: nat)
    requires p < |s|
    ensures s == s[..p] + [s[p]] + s[p + 1..]
    ensures multiset(s[..p] + s[p + 1..]) == multiset(s) - multiset{s[p]}
  {
    assert s == s[..p] + [s[p]] + s[p + 1..];
  }

  /** Two reorderings of each other have the same elements. */
  lemma SameElements<T>(a: seq<T>, b: seq<T>)
    requires multiset(a) == multiset(b)
    ensures forall x :: x in a <==> x in b
  {
    forall x
      ensures x in a <==> x in b
    {
      assert x in a <==> x in multiset(a);
      assert x in b <==> x in multiset(b);
    }
  }

  /**
   * The last element of a also occurs in its reordering b, at some p, and
   * removing each leaves reorderings of each other.
   */
  lemma PermPeel<T>(a: seq<T>, b: seq<T>) returns (p: nat)
    requires multiset(a) == multiset(b) && a != []
    ensures p < |b| && b[p] == a[|a| - 1]
    ensures multiset(a[..|a| - 1]) == multiset(b[..p] + b[p + 1..])
  {
    var x := a[|a| - 1];
    assert a == a[..|a| - 1] + [x];
    assert x in multiset(b);
    p :| 0 <= p < |b| && b[p] == x;
    RemoveAt(b, p);
  }

  /** Reordering a sequence does not change its sum. */
  lemma {:induction false} SumRealPerm<T>(a: seq<T>, b: seq<T>, f: T -> real)
    requires multiset(a) == multiset(b)
    ensures SumReal(a, f) == SumReal(b, f)
  {
    if a != [] {
      var p := PermPeel(a, b);
      var b' := b[..p] + b[p + 1..];
      SumRealPerm(a[..|a| - 1], b', f);
      SumRealSplit(b, p, f);
    }
  }

  lemma {:induction false} SumRealSplit<T>(b: seq<T>, p: nat, f: T -> real)
    requires p < |b|
    ensures SumReal(b, f) == SumReal(b[..p] + b[p + 1..], f) + f(b[p])
  {
    var left, x, right := b[..p], b[p], b[p + 1..];
    assert b == left + ([x] + right);
    SumRealAppend(left, [x] + right, f);
    SumRealAppend([x], right, f);
    SumRealAppend(left, right, f);
    assert SumReal([x], f) == f(x) by {
      assert [x][..0] == [];
    }
  }

  lemma {:induction false} SumIntPerm<T>(a: seq<T>, b: seq<T>, f: T -> int)
    requires multiset(a) == multiset(b)
    ensures SumInt(a, f) == SumInt(b, f)
  {
    if a != [] {
      var p := PermPeel(a, b);
      var b' := b[..p] + b[p + 1..];
      SumIntPerm(a[..|a| - 1], b', f);
      SumIntSplit(b, p, f);
    }
  }

  lemma {:induction false} SumIntSplit<T>(b: seq<T>, p: nat, f: T -> int)
    requires p < |b|
    ensures SumInt(b, f) == SumInt(b[..p] + b[p + 1..], f) + f(b[p])
  {
    var left, x, right := b[..p], b[p], b[p + 1..];
    assert b == left + ([x] + right);
    SumIntAppend(left, [x] + right, f);
    SumIntAppend([x], right, f);
    SumIntAppend(left, right, f);
    assert SumInt([x], f) == f(x) by {
      assert [x][..0] == [];
    }
  }

  /** When every f-value is a fixed multiple of the g-value, so is the sum. */
  lemma {:induction false} SumRealScaled<T>(s: seq<T>, f: T -> real, g: T -> real, c: real, d: real)
    requires forall i :: 0 <= i < |s| ==> f(s[i]) * c == g(s[i]) * d
    ensures SumReal(s, f) * c == SumReal(s, g) * d
  {
    if s != [] {
      var init := s[..|s| - 1];
      assert forall i :: 0 <= i < |init| ==> init[i] == s[i];
      SumRealScaled(init, f, g, c, d);
      var x := s[|s| - 1];
      calc {
        SumReal(s, f) * c;
        (SumReal(init, f) + f(x)) * c;
        SumReal(init, f) * c + f(x) * c;
        SumReal(init, g) * d + g(x) * d;
        (SumReal(init, g) + g(x)) * d;
        SumReal(s, g) * d;
      }
    }
  }

  /** a occurs in b in order, possibly with other elements in between. */
  predicate IsSubsequence<T(==)>(a: seq<T>, b: seq<T>)
    decreases |b|
  {
    if b == [] then a == []
    else
      IsSubsequence(a, b[..|b| - 1])
      || (a != [] && a[|a| - 1] == b[|b| - 1] && IsSubsequence(a[..|a| - 1], b[..|b| - 1]))
  }

  /** a is a leading part of b. */
  predicate IsPrefix<T(==)>(a: seq<T>, b: seq<T>) {
    |a| <= |b| && a == b[..|a|]
  }

  /** No two elements of s share a name. */
  predicate DistinctBy<T>(s: seq<T>, name: T -> string) {
    forall i, j :: 0 <= i < j < |s| ==> name(s[i]) != name(s[j])
  }

  /** A string named by itself. */
  function Ident(s: string): string {
    s
  }

  /** No string appears twice in ks. */
  predicate Distinct(ks: seq<string>) {
    DistinctBy(ks, Ident)
  }

  /** A reordering of a sequence with distinct labels has distinct labels. */
  lemma {:induction false} PermDistinct<T>(a: seq<T>, b: seq<T>, name: T -> string)
    requires multiset(a) == multiset(b) && DistinctBy(a, name)
    ensures DistinctBy(b, name)
  {
    if b != [] {
      var x, b' := b[|b| - 1], b[..|b| - 1];
      var p := PermPeel(b, a);
      var a' := a[..p] + a[p + 1..];
      assert DistinctBy(a', name) by {
        DropDistinct(a, p, name);
      }
      PermDistinct(a', b', name);
      forall e | e in b'
        ensures name(e) != name(x)
      {
        assert e in a' by {
          assert e in multiset(b');
        }
        DroppedOthers(a, p, name, e);
      }
      forall i, j | 0 <= i < j < |b|
        ensures name(b[i]) != name(b[j])
      {
        if j == |b| - 1 {
          assert b[i] in b';
        } else {
          assert b[i] == b'[i] && b[j] == b'[j];
        }
      }
    }
  }

  lemma DropDistinct<T>(a: seq<T>, p: nat, name: T -> string)
    requires p < |a| && DistinctBy(a, name)
    ensures DistinctBy(a[..p] + a[p + 1..], name)
  {
    var a' := a[..p] + a[p + 1..];
    forall i, j | 0 <= i < j < |a'|
      ensures name(a'[i]) != name(a'[j])
    {
      var i' := if i < p then i else i + 1;
      var j' := if j < p then j else j + 1;
      assert a'[i] == a[i'] && a'[j] == a[j'];
    }
  }

  lemma DroppedOthers<T>(a: seq<T>, p: nat, name: T -> string, e: T)
    requires p < |a| && DistinctBy(a, name)
    requires e in a[..p] + a[p + 1..]
    ensures name(e) != name(a[p])
  {
    var a' := a[..p] + a[p + 1..];
    var q :| 0 <= q < |a'| && a'[q] == e;
    var q' := if q < p then q else q + 1;
    assert a[q'] == e && q' != p;
  }


  /** Python's s[:n]: the first n elements, or all but the last -n when n < 0. */
  function Take<T>(s: seq<T>, n: int): seq<T> {
    if n >= 0 then (if n < |s| then s[..n] else s)
    else if |s| + n > 0 then s[..|s| + n]
    else []
  }

  /** The keys of an association sequence, in order. */
  function Keys<K, S>(t: seq<(K, S)>): (ks: seq<K>)
    ensures |ks| == |t|
    ensures forall m :: 0 <= m < |t| ==> ks[m] == t[m].0
  {
    seq(|t|, m requires 0 <= m < |t| => t[m].0)
  }

  /** Where k sits in an association sequence: its first index, or |t| when absent. */
  function KeyIndex<K(==), S>(t: seq<(K, S)>, k: K): (j: nat)
    ensures j <= |t|
    ensures j < |t| ==> t[j].0 == k
    ensures forall m :: 0 <= m < j ==> t[m].0 != k
  {
    if t == [] then 0 else if t[0].0 == k then 0 else 1 + KeyIndex(t[1..], k)
  }

  /**
   * The values f gives for the elements of s, skipping the elements it
   * rejects, in order: a loop that appends what converts and skips what
   * does not.
   */
  function FilterMap<A, B>(s: seq<A>, f: A -> Option<B>): seq<B> {
    if s == [] then []
    else FilterMap(s[..|s| - 1], f) + (match f(s[|s| - 1]) case Some(b) => [b] case None => [])
  }

  /** The positions of the elements f accepts, in increasing order. */
  function AcceptedIndices<A, B>(s: seq<A>, f: A -> Option<B>): seq<int> {
    if s == [] then []
    else AcceptedIndices(s[..|s| - 1], f) + (if f(s[|s| - 1]).Some? then [|s| - 1] else [])
  }

  /**
   * FilterMap keeps exactly the accepted elements, in order: its j-th value
   * comes from the j-th accepted position, the positions increase, and a
   * position is among them iff f accepts the element there.
   */
  lemma FilterMapExact<A, B>(s: seq<A>, f: A -> Option<B>)
    ensures |FilterMap(s, f)| == |AcceptedIndices(s, f)|
    ensures forall j :: 0 <= j < |AcceptedIndices(s, f)| ==>
              0 <= AcceptedIndices(s, f)[j] < |s| && f(s[AcceptedIndices(s, f)[j]]) == Some(FilterMap(s, f)[j])
    ensures forall j, j' :: 0 <= j < j' < |AcceptedIndices(s, f)| ==>
              AcceptedIndices(s, f)[j] < AcceptedIndices(s, f)[j']
    ensures forall i :: 0 <= i < |s| ==> (i in AcceptedIndices(s, f) <==> f(s[i]).Some?)
  {
    AcceptedIndicesShape(s, f);
    AcceptedValues(s, f);
  }

  /** The accepted positions are in range, increasing, and exactly those f accepts. */
  lemma {:induction false} AcceptedIndicesShape<A, B>(s: seq<A>, f: A -> Option<B>)
    ensures forall j :: 0 <= j < |AcceptedIndices(s, f)| ==> 0 <= AcceptedIndices(s, f)[j] < |s|
    ensures forall j, j' :: 0 <= j < j' < |AcceptedIndices(s, f)| ==>
              AcceptedIndices(s, f)[j] < AcceptedIndices(s, f)[j']
    ensures forall i :: 0 <= i < |s| ==> (i in AcceptedIndices(s, f) <==> f(s[i]).Some?)
  {
    if s != [] {
      var init := s[..|s| - 1];
      AcceptedIndicesShape(init, f);
      assert forall i :: 0 <= i < |init| ==> init[i] == s[i];
    }
  }

  /** The j-th value of FilterMap is what f gives at the j-th accepted position. */
  lemma {:induction false} AcceptedValues<A, B>(s: seq<A>, f: A -> Option<B>)
    ensures |FilterMap(s, f)| == |AcceptedIndices(s, f)|
    ensures forall j :: 0 <= j < |AcceptedIndices(s, f)| ==>
              0 <= AcceptedIndices(s, f)[j] < |s| && f(s[AcceptedIndices(s, f)[j]]) == Some(FilterMap(s, f)[j])
  {
    if s != [] {
      var init := s[..|s| - 1];
      AcceptedValues(init, f);
      assert forall i :: 0 <= i < |init| ==> init[i] == s[i];
    }
  }

  lemma {:induction false} FilterMapAppend<A, B>(a: seq<A>, b: seq<A>, f: A -> Option<B>)
    ensures FilterMap(a + b, f) == FilterMap(a, f) + FilterMap(b, f)
  {
    if b == [] {
      assert a + b == a;
    } else {
      assert (a + b)[..|a + b| - 1] == a + b[..|b| - 1];
      FilterMapAppend(a, b[..|b| - 1], f);
    }
  }

  /** FilterMap over one more element. */
  lemma FilterMapSnoc<A, B>(s: seq<A>, x: A, f: A -> Option<B>)
    ensures FilterMap(s + [x], f) == FilterMap(s, f) + (match f(x) case Some(b) => [b] case None => [])
  {
    assert (s + [x])[..|s + [x]| - 1] == s;
  }

  /** The elements of s that satisfy p, in order. */
  function Filter<T>(s: seq<T>, p: T -> bool): (r: seq<T>)
    ensures |r| <= |s|
  {
    if s == [] then []
    else Filter(s[..|s| - 1], p) + (if p(s[|s| - 1]) then [s[|s| - 1]] else [])
  }

  lemma {:induction false} FilterAppend<T>(a: seq<T>, b: seq<T>, p: T -> bool)
    ensures Filter(a + b, p) == Filter(a, p) + Filter(b, p)
  {
    if b == [] {
      assert a + b == a;
    } else {
      assert (a + b)[..|a + b| - 1] == a + b[..|b| - 1];
      FilterAppend(a, b[..|b| - 1], p);
    }
  }

  /** Filter keeps exactly the elements that satisfy p, in order. */
  lemma {:induction false} FilterExact<T>(s: seq<T>, p: T -> bool)
    ensures forall x :: x in Filter(s, p) <==> x in s && p(x)
    ensures IsSubsequence(Filter(s, p), s)
  {
    if s != [] {
      FilterExact(s[..|s| - 1], p);
      assert s == s[..|s| - 1] + [s[|s| - 1]];
      var r := Filter(s, p);
      if p(s[|s| - 1]) {
        assert r[..|r| - 1] == Filter(s[..|s| - 1], p);
      } else {
        assert r == Filter(s[..|s| - 1], p);
      }
      assert IsSubsequence(r, s);
    }
  }

  /**
   * Converting with g, which is converting with f and then keeping what
   * satisfies p, is FilterMap with f followed by Filter with p.
   */
  lemma {:induction false} FilterMapThenFilter<A, B>(s: seq<A>, f: A -> Option<B>, g: A -> Option<B>, p: B -> bool)
    requires forall x :: g(x) == match f(x) case None => None case Some(b) => if p(b) then Some(b) else None
    ensures FilterMap(s, g) == Filter(FilterMap(s, f), p)
  {
    if s != [] {
      var init, last := s[..|s| - 1], s[|s| - 1];
      FilterMapThenFilter(init, f, g, p);
      var extra := match f(last) case Some(b) => [b] case None => [];
      FilterAppend(FilterMap(init, f), extra, p);
      if extra != [] {
        assert extra[..0] == [];
      }
    }
  }

  lemma FilterMember<T>(s: seq<T>, p: T -> bool, x: T)
    requires x in Filter(s, p)
    ensures x in s && p(x)
  {
    FilterExact(s, p);
  }

  /** Filter over one more element. */
  lemma FilterSnoc<T>(s: seq<T>, x: T, p: T -> bool)
    ensures Filter(s + [x], p) == Filter(s, p) + (if p(x) then [x] else [])
  {
    assert (s + [x])[..|s + [x]| - 1] == s;
  }

  /** Filtering with a test every element passes changes nothing. */
  lemma {:induction false} FilterAll<T>(s: seq<T>, p: T -> bool)
    requires forall i :: 0 <= i < |s| ==> p(s[i])
    ensures Filter(s, p) == s
  {
    if s != [] {
      FilterAll(s[..|s| - 1], p);
    }
  }

  /** Two filters in a row are one filter with the conjunction of their tests. */
  lemma {:induction false} FilterFilter<T>(s: seq<T>, p: T -> bool, q: T -> bool, r: T -> bool)
    requires forall x :: r(x) == (p(x) && q(x))
    ensures Filter(Filter(s, p), q) == Filter(s, r)
  {
    if s != [] {
      var init, last := s[..|s| - 1], s[|s| - 1];
      FilterFilter(init, p, q, r);
      FilterAppend(Filter(init, p), if p(last) then [last] else [], q);
      if p(last) {
        assert [last][..0] == [];
      }
    }
  }

  /** Filtering with a test no element passes leaves nothing. */
  lemma {:induction false} FilterNone<T>(s: seq<T>, p: T -> bool)
    requires forall i :: 0 <= i < |s| ==> !p(s[i])
    ensures Filter(s, p) == []
  {
    if s != [] {
      FilterNone(s[..|s| - 1], p);
    }
  }
}
