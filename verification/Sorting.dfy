/** Sorted listings of finite collections, generic in the order. Go's slices.Sort and
    Python's sorted are both "the sorted permutation", which is unique for a total order. */
module Sorting {

  ghost predicate TotalOrder<T(!new)>(leq: (T, T) -> bool) {
    && (forall a, b :: leq(a, b) || leq(b, a))
    && (forall a, b :: leq(a, b) && leq(b, a) ==> a == b)
    && (forall a, b, c :: leq(a, b) && leq(b, c) ==> leq(a, c))
  }

  ghost predicate SortedBy<T>(leq: (T, T) -> bool, s: seq<T>) {
    forall i, j :: 0 <= i < j < |s| ==> leq(s[i], s[j])
  }

  ghost predicate Distinct<T>(s: seq<T>) {
    forall i, j :: 0 <= i < j < |s| ==> s[i] != s[j]
  }

  /** The elements of a sequence, as a set. */
  ghost function Elems<T>(s: seq<T>): set<T> {
    set x | x in s
  }

  /** `s` lists the set `S`: sorted, every member exactly once, nothing else. */
  ghost predicate Lists<T>(leq: (T, T) -> bool, s: seq<T>, S: set<T>) {
    SortedBy(leq, s) && Distinct(s) && Elems(s) == S
  }

  predicate IntLeq(a: int, b: int) {
    a <= b
  }

  /** Lexicographic order on strings by character code, as Python compares them. */
  predicate TextLeq(a: string, b: string) {
    a == [] || (b != [] && (a[0] < b[0] || (a[0] == b[0] && TextLeq(a[1..], b[1..]))))
  }

  lemma IntLeqTotal()
    ensures TotalOrder(IntLeq)
  {
  }

  lemma {:induction false} TextLeqLaws(a: string, b: string, c: string)
    ensures TextLeq(a, b) || TextLeq(b, a)
    ensures TextLeq(a, b) && TextLeq(b, a) ==> a == b
    ensures TextLeq(a, b) && TextLeq(b, c) ==> TextLeq(a, c)
  {
    if a != [] && b != [] && c != [] {
      TextLeqLaws(a[1..], b[1..], c[1..]);
      assert a == [a[0]] + a[1..] && b == [b[0]] + b[1..];
    } else if a != [] && b != [] {
      TextLeqLaws(a[1..], b[1..], c);
      assert a == [a[0]] + a[1..] && b == [b[0]] + b[1..];
    }
  }

  lemma TextLeqTotal()
    ensures TotalOrder(TextLeq)
  {
    forall a, b, c
      ensures TextLeq(a, b) || TextLeq(b, a)
      ensures TextLeq(a, b) && TextLeq(b, a) ==> a == b
      ensures TextLeq(a, b) && TextLeq(b, c) ==> TextLeq(a, c)
    {
      TextLeqLaws(a, b, c);
    }
  }

  lemma Inhabited<T>(s: set<T>) returns (x: T)
    requires s != {}
    ensures x in s
  {
    x :| x in s;
  }

  /** Insertion sort: a sorted permutation of the input. */
  method Sort<T(!new)>(s: seq<T>, leq: (T, T) -> bool) returns (r: seq<T>)
    requires TotalOrder(leq)
    ensures SortedBy(leq, r)
    ensures multiset(r) == multiset(s)
  {
    r := [];
    for k := 0 to |s|
      invariant SortedBy(leq, r)
      invariant multiset(r) == multiset(s[..k])
    {
      var p := 0;
      while p < |r| && leq(r[p], s[k])
        invariant 0 <= p <= |r|
        invariant forall q :: 0 <= q < p ==> leq(r[q], s[k])
      {
        p := p + 1;
      }
      assert s[..k + 1] == s[..k] + [s[k]];
      InsertKeeps(leq, r, p, s[k]);
      r := r[..p] + [s[k]] + r[p..];
    }
    assert s[..|s|] == s;
  }

  lemma InsertKeeps<T(!new)>(leq: (T, T) -> bool, r: seq<T>, p: nat, x: T)
    requires TotalOrder(leq) && SortedBy(leq, r) && p <= |r|
    requires forall q :: 0 <= q < p ==> leq(r[q], x)
    requires p < |r| ==> !leq(r[p], x)
    ensures SortedBy(leq, r[..p] + [x] + r[p..])
    ensures multiset(r[..p] + [x] + r[p..]) == multiset(r) + multiset{x}
  {
    assert r == r[..p] + r[p..];
    forall q | p <= q < |r| ensures leq(x, r[q]) {
      assert leq(x, r[p]);
    }
  }

  /** Sorting keeps distinctness and the set of elements. */
  lemma PermutationFacts<T>(s: seq<T>, r: seq<T>)
    requires multiset(r) == multiset(s)
    ensures Elems(r) == Elems(s) && |r| == |s|
    ensures Distinct(s) ==> Distinct(r)
  {
    forall x ensures x in r <==> x in s {
      assert x in multiset(r) <==> x in multiset(s);
    }
    assert |multiset(r)| == |r| && |multiset(s)| == |s|;
    if Distinct(s) {
      DistinctCount(s);
      forall i, j | 0 <= i < j < |r| ensures r[i] != r[j] {
        assert r == r[..j] + [r[j]] + r[j + 1..];
        assert multiset(r)[r[j]] >= multiset(r[..j])[r[j]] + 1;
        assert r[..j][i] in multiset(r[..j]);
      }
    }
  }

  /** slices.Sort on ids that occur once each. */
  method SortIds(s: seq<int>) returns (r: seq<int>)
    requires Distinct(s)
    ensures Lists(IntLeq, r, Elems(s)) && Ascending(r)
  {
    IntLeqTotal();
    r := Sort(s, IntLeq);
    PermutationFacts(s, r);
    ListsAscending(r, Elems(s));
  }

  /** Each number is smaller than every later one. */
  ghost predicate Ascending(s: seq<int>) {
    forall i, j :: 0 <= i < j < |s| ==> s[i] < s[j]
  }

  /** A listing by IntLeq is one in the order of the numbers. */
  lemma ListsAscending(s: seq<int>, S: set<int>)
    ensures Lists(IntLeq, s, S) <==> Ascending(s) && Elems(s) == S
  {
  }

  /** TextLeq is the dictionary order: a prefix comes first, and otherwise the first
      difference decides. */
  lemma {:induction false} TextLeqMeaning(a: string, b: string)
    ensures TextLeq(a, b) <==> a <= b || exists k :: FirstDifference(a, b, k) && a[k] < b[k]
  {
    if a != [] && b != [] {
      TextLeqMeaning(a[1..], b[1..]);
      var p, q := a[1..], b[1..];
      assert a[0] == b[0] ==> (a <= b <==> p <= q);
      if k :| FirstDifference(p, q, k) && p[k] < q[k] && a[0] == b[0] {
        assert a[..k + 1] == [a[0]] + p[..k] && b[..k + 1] == [b[0]] + q[..k];
        assert FirstDifference(a, b, k + 1);
      }
      if k :| FirstDifference(a, b, k) && a[k] < b[k] && a[0] == b[0] {
        assert k > 0;
        assert p[..k - 1] == a[..k][1..] && q[..k - 1] == b[..k][1..];
        assert FirstDifference(p, q, k - 1);
      }
      if a[0] != b[0] {
        assert a[0] < b[0] ==> FirstDifference(a, b, 0);
      }
    }
  }

  ghost predicate FirstDifference(a: string, b: string, k: int) {
    0 <= k < |a| && k < |b| && a[..k] == b[..k] && a[k] != b[k]
  }

  lemma DistinctSnoc<T>(s: seq<T>, x: T)
    requires Distinct(s) && x !in s
    ensures Distinct(s + [x]) && Elems(s + [x]) == Elems(s) + {x}
  {
  }

  lemma DistinctConcat<T>(s: seq<T>, t: seq<T>)
    requires Distinct(s) && Distinct(t) && forall x :: x in t ==> x !in s
    ensures Distinct(s + t) && Elems(s + t) == Elems(s) + Elems(t)
  {
    forall i, j | 0 <= i < j < |s + t| ensures (s + t)[i] != (s + t)[j] {
      if i < |s| <= j {
        assert t[j - |s|] in t;
      }
    }
  }

  lemma {:induction false} DistinctCount<T>(s: seq<T>)
    requires Distinct(s)
    ensures forall x :: multiset(s)[x] == if x in s then 1 else 0
    ensures |Elems(s)| == |s|
    ensures multiset(s) == multiset(Elems(s))
  {
    if s == [] {
    } else {
      var t := s[..|s| - 1];
      var z := s[|s| - 1];
      DistinctCount(t);
      assert s == t + [z];
      assert Elems(s) == Elems(t) + {z};
      assert z !in Elems(t);
    }
  }

  /** There is only one sorted listing of a set. */
  lemma {:induction false} ListsUnique<T(!new)>(leq: (T, T) -> bool, a: seq<T>, b: seq<T>, S: set<T>)
    requires TotalOrder(leq)
    requires Lists(leq, a, S) && Lists(leq, b, S)
    ensures a == b
    decreases |a|
  {
    DistinctCount(a);
    DistinctCount(b);
    if a == [] {
    } else {
      // Each head is a least element of the same set.
      assert a[0] in Elems(a) && b[0] in Elems(b);
      assert a[0] in b && b[0] in a;
      assert leq(a[0], b[0]) && leq(b[0], a[0]);
      var rest := S - {a[0]};
      assert Elems(a[1..]) == rest by { HeadSplit(a); }
      assert Elems(b[1..]) == rest by { HeadSplit(b); }
      ListsUnique(leq, a[1..], b[1..], rest);
      assert a == [a[0]] + a[1..] && b == [b[0]] + b[1..];
    }
  }

  lemma HeadSplit<T>(s: seq<T>)
    requires s != [] && Distinct(s)
    ensures Elems(s[1..]) == Elems(s) - {s[0]}
  {
    assert s == [s[0]] + s[1..];
  }
}
