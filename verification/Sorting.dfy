/** A stable insertion sort on sequences, used wherever the service calls `sort` or `ORDER BY`. */
module Sorting {
  import opened Basics

  /** A comparator that ranks every pair consistently; unequal elements may tie. */
  ghost predicate TotalPreorder<T(!new)>(leq: (T, T) -> bool) {
    && (forall x, y :: leq(x, y) || leq(y, x))
    && (forall x, y, z :: leq(x, y) && leq(y, z) ==> leq(x, z))
  }

  ghost predicate Sorted<T>(leq: (T, T) -> bool, s: seq<T>) {
    forall i, j :: 0 <= i < j < |s| ==> leq(s[i], s[j])
  }

  function Insert<T>(leq: (T, T) -> bool, x: T, s: seq<T>): seq<T> {
    if s == [] then [x]
    else if leq(x, s[0]) then [x] + s
    else [s[0]] + Insert(leq, x, s[1..])
  }

  function Sort<T>(leq: (T, T) -> bool, s: seq<T>): seq<T> {
    if s == [] then [] else Insert(leq, s[0], Sort(leq, s[1..]))
  }

  lemma {:induction false} InsertPermutes<T>(leq: (T, T) -> bool, x: T, s: seq<T>)
    ensures multiset(Insert(leq, x, s)) == multiset{x} + multiset(s)
  {
    if s != [] && !leq(x, s[0]) {
      InsertPermutes(leq, x, s[1..]);
      assert s == [s[0]] + s[1..];
    }
  }

  /** Sorting loses nothing and invents nothing. */
  lemma {:induction false} SortPermutes<T>(leq: (T, T) -> bool, s: seq<T>)
    ensures multiset(Sort(leq, s)) == multiset(s)
  {
    if s != [] {
      SortPermutes(leq, s[1..]);
      InsertPermutes(leq, s[0], Sort(leq, s[1..]));
      assert s == [s[0]] + s[1..];
    }
  }

  lemma SortElements<T>(leq: (T, T) -> bool, s: seq<T>)
    ensures |Sort(leq, s)| == |s|
    ensures forall x :: x in s <==> x in Sort(leq, s)
  {
    SortPermutes(leq, s);
    assert |multiset(Sort(leq, s))| == |multiset(s)|;
    SameElements(s, Sort(leq, s));
  }

  lemma SortDistinct<T>(leq: (T, T) -> bool, s: seq<T>)
    requires Distinct(s)
    ensures Distinct(Sort(leq, s))
  {
    SortPermutes(leq, s);
    DistinctPermutation(s, Sort(leq, s));
  }

  lemma SameElements<T>(s: seq<T>, t: seq<T>)
    requires multiset(s) == multiset(t)
    ensures forall x :: x in s <==> x in t
  {
    forall x ensures x in s <==> x in t {
      assert x in s <==> x in multiset(s);
      assert x in t <==> x in multiset(t);
    }
  }

  lemma {:induction false} InsertSorted<T(!new)>(leq: (T, T) -> bool, x: T, s: seq<T>)
    requires TotalPreorder(leq) && Sorted(leq, s)
    ensures Sorted(leq, Insert(leq, x, s))
  {
    if s != [] && !leq(x, s[0]) {
      InsertSorted(leq, x, s[1..]);
      InsertPermutes(leq, x, s[1..]);
      var rest := Insert(leq, x, s[1..]);
      forall y | y in rest ensures leq(s[0], y) {
        assert y in multiset{x} + multiset(s[1..]);
        assert y == x || y in s[1..];
      }
    }
  }

  lemma {:induction false} SortSorted<T(!new)>(leq: (T, T) -> bool, s: seq<T>)
    requires TotalPreorder(leq)
    ensures Sorted(leq, Sort(leq, s))
  {
    if s != [] {
      SortSorted(leq, s[1..]);
      InsertSorted(leq, s[0], Sort(leq, s[1..]));
    }
  }

  /** The elements that tie with `y`, in order. */
  function Ties<T>(leq: (T, T) -> bool, y: T, s: seq<T>): seq<T> {
    if s == [] then [] else (if leq(s[0], y) && leq(y, s[0]) then [s[0]] else []) + Ties(leq, y, s[1..])
  }

  /** Sorting is stable: elements that tie keep their order. */
  lemma {:induction false} SortKeepsTies<T(!new)>(leq: (T, T) -> bool, y: T, s: seq<T>)
    requires TotalPreorder(leq)
    ensures Ties(leq, y, Sort(leq, s)) == Ties(leq, y, s)
  {
    if s != [] {
      SortKeepsTies(leq, y, s[1..]);
      InsertKeepsTies(leq, y, s[0], Sort(leq, s[1..]));
    }
  }

  lemma {:induction false} InsertKeepsTies<T(!new)>(leq: (T, T) -> bool, y: T, x: T, s: seq<T>)
    requires TotalPreorder(leq)
    ensures Ties(leq, y, Insert(leq, x, s)) == (if leq(x, y) && leq(y, x) then [x] else []) + Ties(leq, y, s)
  {
    hide TotalPreorder;
    if s != [] && !leq(x, s[0]) {
      InsertKeepsTies(leq, y, x, s[1..]);
      PassedDoesNotTie(leq, x, y, s[0]);
      var inserted := [s[0]] + Insert(leq, x, s[1..]);
      assert inserted[1..] == Insert(leq, x, s[1..]);
    } else {
      assert ([x] + s)[1..] == s;
    }
  }

  lemma PassedDoesNotTie<T(!new)>(leq: (T, T) -> bool, x: T, y: T, z: T)
    requires TotalPreorder(leq) && !leq(x, z)
    ensures leq(x, y) && leq(y, x) ==> !(leq(z, y) && leq(y, z))
  {}

  /** Distinctness survives permutation. */
  lemma DistinctPermutation<T>(s: seq<T>, t: seq<T>)
    requires multiset(s) == multiset(t) && Distinct(s)
    ensures Distinct(t)
  {
    forall i, j | 0 <= i < j < |t| ensures t[i] != t[j] {
      assert t == t[..i] + [t[i]] + t[i + 1..j] + [t[j]] + t[j + 1..];
      assert t[i] == t[j] ==> multiset(t)[t[i]] >= 2;
      DistinctAsMultiset(s);
    }
  }

  lemma {:induction false} DistinctAsMultiset<T>(s: seq<T>)
    requires Distinct(s)
    ensures forall x :: multiset(s)[x] <= 1
  {
    if s != [] {
      var last := s[|s| - 1];
      DistinctAsMultiset(s[..|s| - 1]);
      assert s == s[..|s| - 1] + [last];
      assert last !in s[..|s| - 1];
    }
  }

  /** When the order never ties distinct elements, there is only one way to sort: two sorted sequences
  without repeats and with the same elements are equal. */
  lemma {:induction false} SortedUnique<T(!new)>(leq: (T, T) -> bool, s: seq<T>, t: seq<T>)
    requires TotalPreorder(leq)
    requires forall x, y :: x in s && y in s && leq(x, y) && leq(y, x) ==> x == y
    requires Sorted(leq, s) && Sorted(leq, t) && Distinct(s) && Distinct(t)
    requires forall x :: x in s <==> x in t
    ensures s == t
  {
    DistinctCounts(s);
    DistinctCounts(t);
    assert Elements(s) == Elements(t);
    if s != [] {
      assert s[0] in t;
      assert t[0] in s;
      var i :| 0 <= i < |t| && t[i] == s[0];
      var j :| 0 <= j < |s| && s[j] == t[0];
      assert leq(s[0], s[0]) && leq(t[0], t[0]);
      assert leq(t[0], s[0]) && leq(s[0], t[0]);
      assert s[0] == t[0];
      forall x ensures x in s[1..] <==> x in t[1..] {
        if x in s[1..] {
          var k :| 0 <= k < |s| - 1 && s[1..][k] == x;
          assert s[0] != s[k + 1];
          assert x in s && x in t;
          var m :| 0 <= m < |t| && t[m] == x;
          assert t[1..][m - 1] == x;
        }
        if x in t[1..] {
          var k :| 0 <= k < |t| - 1 && t[1..][k] == x;
          assert t[0] != t[k + 1];
          assert x in t && x in s;
          var m :| 0 <= m < |s| && s[m] == x;
          assert s[1..][m - 1] == x;
        }
      }
      SortedUnique(leq, s[1..], t[1..]);
    }
  }
}
