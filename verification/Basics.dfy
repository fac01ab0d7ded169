/** Small shared vocabulary: optional values, results, and facts about sequences without repeats. */
module Basics {

  /** An identifier as stored: compared for equality and ordered by the database, read as text only where
  the service joins several of them into one key. */
  datatype Id = Id(text: string)

  datatype Option<+T> = None | Some(value: T)

  datatype Result<+T, +E> = Ok(value: T) | Err(error: E)

  ghost predicate Distinct<T>(s: seq<T>) {
    forall i, j :: 0 <= i < j < |s| ==> s[i] != s[j]
  }

  /** The elements of a sequence as a set. */
  ghost function Elements<T>(s: seq<T>): set<T> {
    set x | x in s
  }

  /** A sequence without repeats is no longer than any set that holds all its elements. */
  lemma {:induction false} DistinctFits<T>(s: seq<T>, inside: set<T>)
    requires Distinct(s)
    requires forall x :: x in s ==> x in inside
    ensures |s| <= |inside|
  {
    if s != [] {
      var last := s[|s| - 1];
      var rest := s[..|s| - 1];
      forall x | x in rest ensures x in inside - {last} {
        var i :| 0 <= i < |rest| && rest[i] == x;
        assert s[i] != s[|s| - 1];
      }
      DistinctFits(rest, inside - {last});
    }
  }

  /** A sequence without repeats has exactly as many entries as elements. */
  lemma {:induction false} DistinctCounts<T>(s: seq<T>)
    requires Distinct(s)
    ensures |s| == |Elements(s)|
  {
    if s == [] {
      assert Elements(s) == {};
    } else {
      var last := s[|s| - 1];
      var rest := s[..|s| - 1];
      DistinctCounts(rest);
      assert s == rest + [last];
      assert last !in rest;
      assert Elements(s) == Elements(rest) + {last};
    }
  }

  /** Subsets are no larger. */
  lemma {:induction false} SubsetSize<T>(small: set<T>, large: set<T>)
    requires small <= large
    ensures |small| <= |large|
  {
    if small != {} {
      var x :| x in small;
      SubsetSize(small - {x}, large - {x});
    }
  }

  /** The first `n` numbers. */
  ghost function Upto(n: nat): set<nat> {
    if n == 0 then {} else Upto(n - 1) + {n - 1}
  }

  lemma {:induction false} UptoCounts(n: nat)
    ensures |Upto(n)| == n && forall i: nat :: i in Upto(n) <==> i < n
  {
    if n > 0 { UptoCounts(n - 1); }
  }
}
