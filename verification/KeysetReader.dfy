/** The keyset reader of per-user discussion state: page after page, each starting behind the last key read. */
module KeysetReader {
  import opened Basics
  import opened Sorting

  /** A row of the legacy user-discussion table. */
  datatype SourceRow = SourceRow(discussionId: int, userId: int, viewedAt: Option<int>, bookmarked: bool)

  /** The two readers over that table. */
  datatype Stage = Watches | ReadStates

  datatype Key = Key(discussionId: int, userId: int)

  const START := Key(0, 0)

  function KeyOf(row: SourceRow): Key {
    Key(row.discussionId, row.userId)
  }

  predicate Before(a: Key, b: Key) {
    a.discussionId < b.discussionId || (a.discussionId == b.discussionId && a.userId < b.userId)
  }

  predicate Qualifies(stage: Stage, row: SourceRow) {
    if stage.Watches? then row.bookmarked else row.viewedAt.Some?
  }

  /** A row is behind a cursor when it qualifies and its key comes after it. */
  predicate Behind(stage: Stage, last: Key, row: SourceRow) {
    Qualifies(stage, row) && Before(last, KeyOf(row))
  }

  function KeyLeq(a: SourceRow, b: SourceRow): bool {
    !Before(KeyOf(b), KeyOf(a))
  }

  function RowsBehind(stage: Stage, table: seq<SourceRow>, last: Key): seq<SourceRow> {
    if table == [] then []
    else (if Behind(stage, last, table[0]) then [table[0]] else []) + RowsBehind(stage, table[1..], last)
  }

  function OrderedBehind(stage: Stage, table: seq<SourceRow>, last: Key): seq<SourceRow> {
    Sort(KeyLeq, RowsBehind(stage, table, last))
  }

  /** One page: the first `limit` rows behind the cursor, in key order. */
  function Query(stage: Stage, table: seq<SourceRow>, last: Key, limit: nat): seq<SourceRow> {
    var rows := OrderedBehind(stage, table, last);
    if |rows| <= limit then rows else rows[..limit]
  }

  /** The primary key of the table. */
  ghost predicate UniqueKeys(table: seq<SourceRow>) {
    forall i, j :: 0 <= i < j < |table| ==> KeyOf(table[i]) != KeyOf(table[j])
  }

  ghost predicate StrictlyOrdered(rows: seq<SourceRow>) {
    forall i, j :: 0 <= i < j < |rows| ==> Before(KeyOf(rows[i]), KeyOf(rows[j]))
  }

  lemma KeyOrder()
    ensures TotalPreorder(KeyLeq)
  {}

  lemma {:induction false} RowsBehindElements(stage: Stage, table: seq<SourceRow>, last: Key)
    requires UniqueKeys(table)
    ensures forall r :: r in RowsBehind(stage, table, last) <==> r in table && Behind(stage, last, r)
    ensures UniqueKeys(RowsBehind(stage, table, last))
  {
    hide Behind;
    if table != [] {
      assert UniqueKeys(table[1..]);
      RowsBehindElements(stage, table[1..], last);
      assert table == [table[0]] + table[1..];
      forall r | r in table[1..] ensures KeyOf(r) != KeyOf(table[0]) {
        var i :| 0 <= i < |table[1..]| && table[1..][i] == r;
        assert KeyOf(table[0]) != KeyOf(table[i + 1]);
      }
    }
  }

  lemma UniqueAreDistinct(table: seq<SourceRow>)
    requires UniqueKeys(table)
    ensures Distinct(table)
    ensures forall x, y :: x in table && y in table && KeyOf(x) == KeyOf(y) ==> x == y
  {}

  /** The ordered rows: exactly those behind the cursor, each once, in strictly rising key order. */
  lemma OrderedBehindIs(stage: Stage, table: seq<SourceRow>, last: Key)
    requires UniqueKeys(table)
    ensures forall r :: r in OrderedBehind(stage, table, last) <==> r in table && Behind(stage, last, r)
    ensures StrictlyOrdered(OrderedBehind(stage, table, last))
  {
    hide Behind;
    var rows := RowsBehind(stage, table, last);
    RowsBehindElements(stage, table, last);
    KeyOrder();
    SortElements(KeyLeq, rows);
    SortSorted(KeyLeq, rows);
    UniqueAreDistinct(rows);
    SortDistinct(KeyLeq, rows);
    SortedIsStrict(rows, Sort(KeyLeq, rows));
  }

  lemma SortedIsStrict(rows: seq<SourceRow>, sorted: seq<SourceRow>)
    requires Distinct(sorted) && Sorted(KeyLeq, sorted)
    requires forall x, y :: x in rows && y in rows && KeyOf(x) == KeyOf(y) ==> x == y
    requires forall x :: x in rows <==> x in sorted
    ensures StrictlyOrdered(sorted)
  {
    forall i, j | 0 <= i < j < |sorted| ensures Before(KeyOf(sorted[i]), KeyOf(sorted[j])) {
      assert KeyLeq(sorted[i], sorted[j]);
      assert sorted[i] in rows && sorted[j] in rows;
    }
  }

  /** The key of the last of the first `n` rows, or the start. */
  function Cursor(rows: seq<SourceRow>, n: nat): Key
    requires n <= |rows|
  {
    if n == 0 then START else KeyOf(rows[n - 1])
  }

  /** Asking again from the last key read gives exactly what was not read yet. */
  lemma RemainingRows(stage: Stage, table: seq<SourceRow>, rows: seq<SourceRow>, n: nat)
    requires UniqueKeys(table) && rows == OrderedBehind(stage, table, START) && n <= |rows|
    ensures OrderedBehind(stage, table, Cursor(rows, n)) == rows[n..]
  {
    hide Sort, RowsBehind, UniqueKeys;
    var last := Cursor(rows, n);
    OrderedBehindIs(stage, table, START);
    OrderedBehindIs(stage, table, last);
    var rest := OrderedBehind(stage, table, last);
    hide OrderedBehind;
    forall r ensures r in rest <==> r in rows[n..] {
      BehindCursor(stage, table, rows, n, r);
    }
    StrictlyOrderedOnce(rest, rows[n..]);
  }

  lemma BehindCursor(stage: Stage, table: seq<SourceRow>, rows: seq<SourceRow>, n: nat, r: SourceRow)
    requires n <= |rows| && StrictlyOrdered(rows)
    requires forall x :: x in rows <==> x in table && Behind(stage, START, x)
    ensures r in rows[n..] <==> r in table && Behind(stage, Cursor(rows, n), r)
  {
    if n > 0 {
      assert rows[n - 1] in rows;
    }
    if r in rows[n..] {
      var i :| n <= i < |rows| && rows[i] == r;
      assert r in rows;
    } else if r in rows {
      var i :| 0 <= i < |rows| && rows[i] == r;
      assert i < n;
      assert !Before(Cursor(rows, n), KeyOf(r));
    }
  }

  lemma StrictlyOrderedOnce(left: seq<SourceRow>, right: seq<SourceRow>)
    requires StrictlyOrdered(left) && StrictlyOrdered(right) && forall r :: r in left <==> r in right
    ensures left == right
  {
    KeyOrder();
    assert Sorted(KeyLeq, left) && Sorted(KeyLeq, right);
    assert Distinct(left) && Distinct(right);
    forall x, y | x in left && y in left && KeyLeq(x, y) && KeyLeq(y, x) ensures x == y {
      var i :| 0 <= i < |left| && left[i] == x;
      var j :| 0 <= j < |left| && left[j] == y;
      assert !(i < j) && !(j < i);
    }
    SortedUnique(KeyLeq, left, right);
  }

  /** Reads the table page by page. With a positive page size every qualifying row behind the start comes out
  exactly once, in key order; a page size of zero reads nothing. */
  method ReadAll(stage: Stage, table: seq<SourceRow>, batchSize: nat) returns (yielded: seq<SourceRow>)
    requires UniqueKeys(table)
    ensures StrictlyOrdered(yielded)
    ensures forall r :: r in yielded <==> batchSize > 0 && r in table && Behind(stage, START, r)
    ensures forall r :: r in yielded <==>
              && batchSize > 0 && r in table
              && (stage.Watches? ==> r.bookmarked) && (stage.ReadStates? ==> r.viewedAt.Some?)
              && (r.discussionId > 0 || (r.discussionId == 0 && r.userId > 0))
    ensures forall i, j :: 0 <= i < j < |yielded| ==>
              || yielded[i].discussionId < yielded[j].discussionId
              || (yielded[i].discussionId == yielded[j].discussionId && yielded[i].userId < yielded[j].userId)
  {
    hide *;
    ghost var all := OrderedBehind(stage, table, START);
    OrderedBehindIs(stage, table, START);
    yielded := [];
    var last := START;
    StartOfReading(all);
    while true
      invariant |yielded| <= |all| && yielded == all[..|yielded|] && last == Cursor(all, |yielded|)
      invariant batchSize == 0 ==> yielded == []
      decreases |all| - |yielded|
    {
      var rows := Query(stage, table, last, batchSize);
      ghost var before := |yielded|;
      NextPage(stage, table, all, before, batchSize);
      if |rows| == 0 {
        break;
      }
      for i := 0 to |rows|
        invariant before + i <= |all| && yielded == all[..before + i] && last == Cursor(all, before + i)
      {
        OneFurther(all, before, rows, i);
        last := KeyOf(rows[i]);
        yielded := yielded + [rows[i]];
      }
    }
    ReadToTheEnd(all, yielded, batchSize);
    OrderMeans(stage, yielded);
  }

  /** What stands behind the start, and what key order is, column by column. */
  lemma OrderMeans(stage: Stage, rows: seq<SourceRow>)
    ensures forall r :: Behind(stage, START, r) <==>
              && (stage.Watches? ==> r.bookmarked) && (stage.ReadStates? ==> r.viewedAt.Some?)
              && (r.discussionId > 0 || (r.discussionId == 0 && r.userId > 0))
    ensures StrictlyOrdered(rows) <==>
              forall i, j :: 0 <= i < j < |rows| ==>
                || rows[i].discussionId < rows[j].discussionId
                || (rows[i].discussionId == rows[j].discussionId && rows[i].userId < rows[j].userId)
  {}

  lemma StartOfReading(all: seq<SourceRow>)
    ensures all[..0] == [] && Cursor(all, 0) == START
  {}

  lemma NextPage(stage: Stage, table: seq<SourceRow>, all: seq<SourceRow>, n: nat, limit: nat)
    requires UniqueKeys(table) && all == OrderedBehind(stage, table, START) && n <= |all|
    ensures var rows := Query(stage, table, Cursor(all, n), limit);
            && n + |rows| <= |all| && |rows| <= limit && rows == all[n..n + |rows|]
            && (|rows| == 0 ==> limit == 0 || n == |all|)
            && (limit == 0 ==> |rows| == 0)
  {
    hide OrderedBehind, UniqueKeys, Cursor;
    RemainingRows(stage, table, all, n);
  }

  lemma OneFurther(all: seq<SourceRow>, n: nat, rows: seq<SourceRow>, i: nat)
    requires n + |rows| <= |all| && rows == all[n..n + |rows|] && i < |rows|
    ensures all[..n + i] + [rows[i]] == all[..n + i + 1]
    ensures Cursor(all, n + i + 1) == KeyOf(rows[i])
  {}

  lemma ReadToTheEnd(all: seq<SourceRow>, yielded: seq<SourceRow>, limit: nat)
    requires StrictlyOrdered(all) && |yielded| <= |all| && yielded == all[..|yielded|]
    requires limit == 0 ==> yielded == []
    requires limit > 0 ==> |yielded| == |all|
    ensures StrictlyOrdered(yielded) && forall r :: r in yielded <==> limit > 0 && r in all
  {}
}
