/** From the planned index to the writer: index rows as planned rows never claim one key twice, so the writer's check for
duplicate keys does not refuse the index of any plan. */
module PublicImportEntries {
  import opened Basics
  import opened ParentLinks
  import opened ClosureTable
  import opened PublicImportPlan
  import opened PublicImportWrite

  const ANCESTOR := Column("ancestorTopicId")
  const DESCENDANT := Column("descendantTopicId")
  const DEPTH := Column("depth")

  /** The planned row of an index row; `show` writes its depth as a text. */
  function ClosureEntry(r: ClosureRow, show: nat -> string): Entry {
    Entry(
      Closures, Origin(Id("closure"), Id(r.descendantTopicId.text + (":" + r.ancestorTopicId.text))),
      map[ANCESTOR := Value(r.ancestorTopicId.text), DESCENDANT := Value(r.descendantTopicId.text), DEPTH := Value(show(r.depth))])
  }

  function ClosureEntries(rows: seq<ClosureRow>, show: nat -> string): (entries: seq<Entry>)
    ensures |entries| == |rows| && forall i :: 0 <= i < |rows| ==> entries[i] == ClosureEntry(rows[i], show)
  {
    seq(|rows|, i requires 0 <= i < |rows| => ClosureEntry(rows[i], show))
  }

  /** The key of the index table tells its rows apart by both topics. */
  lemma KeyIsThePair(schema: Schema, r: ClosureRow, q: ClosureRow, show: nat -> string)
    requires schema.keys(Closures) == [ANCESTOR, DESCENDANT]
    ensures SameKey(schema, ClosureEntry(r, show), ClosureEntry(q, show)) <==>
              r.ancestorTopicId == q.ancestorTopicId && r.descendantTopicId == q.descendantTopicId
  {
    assert ANCESTOR.name[0] == 'a' && DESCENDANT.name[0] == 'd' && |DESCENDANT.name| != |DEPTH.name|;
    assert ANCESTOR in schema.keys(Closures) && DESCENDANT in schema.keys(Closures);
    assert r.ancestorTopicId == Id(r.ancestorTopicId.text) && q.ancestorTopicId == Id(q.ancestorTopicId.text);
  }

  /** So the rows planned for any sound plan have different keys, and, ids without the separator, different origins. */
  lemma ClosureEntriesAreApart(plan: TopicPlan, rows: seq<ClosureRow>, schema: Schema, show: nat -> string)
    requires PlanOk(plan) && Distinct(rows) && ClosureExact(plan.parents, Elements(rows))
    requires schema.keys(Closures) == [ANCESTOR, DESCENDANT]
    requires forall id :: id in plan.parents ==> ':' !in id.text
    ensures NoKeyTwice(schema, ClosureEntries(rows, show)) && DistinctOrigins(ClosureEntries(rows, show))
  {
    hide PlanOk, ClosureExact, SameKey, ClosureEntry;
    var entries := ClosureEntries(rows, show);
    forall i, j | 0 <= i < j < |entries|
      ensures !SameKey(schema, entries[i], entries[j]) && entries[i].origin != entries[j].origin
    {
      KeyIsThePair(schema, rows[i], rows[j], show);
      OriginIsThePair(plan.parents, rows, rows[i], rows[j], show);
      PlannedOnce(plan, rows, rows[i], rows[j]);
    }
  }

  lemma PlannedOnce(plan: TopicPlan, rows: seq<ClosureRow>, r: ClosureRow, q: ClosureRow)
    requires PlanOk(plan) && ClosureExact(plan.parents, Elements(rows)) && r in rows && q in rows
    ensures r.ancestorTopicId == q.ancestorTopicId && r.descendantTopicId == q.descendantTopicId ==> r == q
  {
    hide ClosureExact;
    if r.ancestorTopicId == q.ancestorTopicId && r.descendantTopicId == q.descendantTopicId {
      assert r == ClosureRow(r.ancestorTopicId, r.descendantTopicId, r.depth);
      assert q == ClosureRow(r.ancestorTopicId, r.descendantTopicId, q.depth);
      OneRowPerPair(plan.parents, Elements(rows), r.ancestorTopicId, r.descendantTopicId, r.depth, q.depth);
    }
  }

  lemma OriginIsThePair(up: Links<Id>, rows: seq<ClosureRow>, r: ClosureRow, q: ClosureRow, show: nat -> string)
    requires ClosureExact(up, Elements(rows)) && r in rows && q in rows && forall id :: id in up ==> ':' !in id.text
    ensures ClosureEntry(r, show).origin == ClosureEntry(q, show).origin <==>
              r.ancestorTopicId == q.ancestorTopicId && r.descendantTopicId == q.descendantTopicId
  {
    PlannedTopic(up, rows, r);
    PlannedTopic(up, rows, q);
    hide ClosureExact;
    var left, right := r.descendantTopicId.text, q.descendantTopicId.text;
    if ClosureEntry(r, show).origin == ClosureEntry(q, show).origin {
      ColonSplits(left, r.ancestorTopicId.text, right, q.ancestorTopicId.text);
    }
  }

  lemma PlannedTopic(up: Links<Id>, rows: seq<ClosureRow>, r: ClosureRow)
    requires ClosureExact(up, Elements(rows)) && r in rows
    ensures r.descendantTopicId in up
  {
    assert ClosureRow(r.ancestorTopicId, r.descendantTopicId, r.depth) in Elements(rows);
    ClimbStored(up, r.descendantTopicId, r.depth);
  }

  lemma ColonSplits(a: string, b: string, c: string, d: string)
    requires a + (":" + b) == c + (":" + d) && ':' !in a && ':' !in c
    ensures a == c && b == d
  {
    var left, right := a + (":" + b), c + (":" + d);
    assert left[|a|] == ':' && right[|c|] == ':';
    assert a == left[..|a|] && c == right[..|c|];
    assert b == left[|a| + 1..] && d == right[|c| + 1..];
  }
}
