/** The ancestor index: one row per (ancestor, descendant) pair with its distance.

`createClosureRows` maintains it incrementally; hiding, inherited restrictions, category rules, watch
expansion and rollups read it instead of walking parents.
*/
module ClosureTable {
  import opened Basics
  import opened ParentLinks
  import opened Sorting
  import opened ForumState

  datatype ClosureRow = ClosureRow(ancestorTopicId: Id, descendantTopicId: Id, depth: nat)

  /** The index says exactly what the parent pointers say. */
  ghost predicate ClosureExact(up: Links<Id>, closure: set<ClosureRow>) {
    forall a, d, k: nat :: ClosureRow(a, d, k) in closure <==> Climb(up, d, k) == Some(a)
  }

  /** The rows `createClosureRows` adds for a new topic: its parent's rows one step further away, and itself. */
  function NewRows(closure: set<ClosureRow>, topicId: Id, parentTopicId: Option<Id>): set<ClosureRow> {
    (set r | r in closure && Some(r.descendantTopicId) == parentTopicId ::
       ClosureRow(r.ancestorTopicId, topicId, r.depth + 1))
    + {ClosureRow(topicId, topicId, 0)}
  }

  /** Adding a topic with its rows keeps the index exact. */
  lemma ClosureInsert(up: Links<Id>, closure: set<ClosureRow>, x: Id, parent: Option<Id>)
    requires Closed(up) && ClosureExact(up, closure) && x !in up && (parent.Some? ==> parent.value in up)
    ensures ClosureExact(up[x := parent], closure + NewRows(closure, x, parent))
  {
    forall a, d, k: nat
      ensures ClosureRow(a, d, k) in closure + NewRows(closure, x, parent) <==> Climb(up[x := parent], d, k) == Some(a)
    {
      ClosureInsertRow(up, closure, x, parent, a, d, k);
    }
  }

  lemma ClosureInsertRow(up: Links<Id>, closure: set<ClosureRow>, x: Id, parent: Option<Id>, a: Id, d: Id, k: nat)
    requires Closed(up) && ClosureExact(up, closure) && x !in up && (parent.Some? ==> parent.value in up)
    ensures ClosureRow(a, d, k) in closure + NewRows(closure, x, parent) <==> Climb(up[x := parent], d, k) == Some(a)
  {
    assert ClosureRow(a, d, k) in closure <==> Climb(up, d, k) == Some(a);
    if d == x {
      ClimbNew(up, x, parent, k);
      if k > 0 && parent.Some? {
        var above := ClosureRow(a, parent.value, k - 1);
        assert above in closure <==> Climb(up, parent.value, k - 1) == Some(a);
        if above in closure {
          assert ClosureRow(above.ancestorTopicId, x, above.depth + 1) in NewRows(closure, x, parent);
        }
      }
    } else if d in up {
      ClimbExtend(up, x, parent, d, k);
    }
  }

  /** No pair of topics has two rows. */
  lemma OneRowPerPair(up: Links<Id>, closure: set<ClosureRow>, a: Id, d: Id, j: nat, k: nat)
    requires Acyclic(up) && ClosureExact(up, closure)
    requires ClosureRow(a, d, j) in closure && ClosureRow(a, d, k) in closure
    ensures j == k
  {
    DepthUnique(up, d, j, k);
  }

  /** The rows inserted for a new topic never collide with stored rows or with each other. */
  lemma InsertNeverCollides(up: Links<Id>, closure: set<ClosureRow>, x: Id, parent: Option<Id>, r: ClosureRow, q: ClosureRow)
    requires Sound(up) && ClosureExact(up, closure) && x !in up && (parent.Some? ==> parent.value in up)
    requires r in NewRows(closure, x, parent) && q in closure + NewRows(closure, x, parent)
    requires r.ancestorTopicId == q.ancestorTopicId && r.descendantTopicId == q.descendantTopicId
    ensures r == q
  {
    ClosureInsert(up, closure, x, parent);
    SoundExtend(up, x, parent);
    OneRowPerPair(up[x := parent], closure + NewRows(closure, x, parent),
                  r.ancestorTopicId, r.descendantTopicId, r.depth, q.depth);
  }

  /** The liveness test of the command transactions, as the database evaluates it. */
  predicate IndexedLive(topics: Topics, closure: set<ClosureRow>, topicId: Id) {
    && topicId in topics && topics[topicId].deletedAt.None?
    && !exists r :: r in closure && r.descendantTopicId == topicId && r.ancestorTopicId != topicId
                    && r.ancestorTopicId in topics && topics[r.ancestorTopicId].deletedAt.Some?
  }

  /** The index test finds exactly the topics with no deleted topic on their parent walk. */
  lemma IndexedLiveIsLive(topics: Topics, closure: set<ClosureRow>, topicId: Id)
    requires ClosureExact(TopicLinks(topics), closure)
    ensures IndexedLive(topics, closure, topicId) <==> Live(topics, topicId)
  {
    var up := TopicLinks(topics);
    if topicId in topics {
      assert Climb(up, topicId, 0) == Some(topicId);
      assert InSubtree(topics, topicId, topicId);
      if Hidden(topics, topicId) {
        var a :| InSubtree(topics, topicId, a) && a in topics && topics[a].deletedAt.Some?;
        var k: nat :| Climb(up, topicId, k) == Some(a);
        assert ClosureRow(a, topicId, k) in closure;
      }
      if r :| r in closure && r.descendantTopicId == topicId && r.ancestorTopicId != topicId
              && r.ancestorTopicId in topics && topics[r.ancestorTopicId].deletedAt.Some? {
        assert ClosureRow(r.ancestorTopicId, r.descendantTopicId, r.depth) in closure;
        assert InSubtree(topics, topicId, r.ancestorTopicId);
      }
    }
  }

  // ----- reading chains back from the index

  predicate Nearer(left: ClosureRow, right: ClosureRow) {
    left.depth <= right.depth
  }

  /** Any answer the database may give to "all rows of these descendants, by depth": the right rows, once each,
  with rows of equal depth (necessarily of different descendants) in any order. */
  ghost predicate Answers(closure: set<ClosureRow>, ids: set<Id>, answer: seq<ClosureRow>) {
    && Distinct(answer)
    && (forall r :: r in answer <==> r in closure && r.descendantTopicId in ids)
    && Sorted(Nearer, answer)
  }

  lemma AnswersMeans(closure: set<ClosureRow>, ids: set<Id>, answer: seq<ClosureRow>)
    requires Answers(closure, ids, answer)
    ensures Distinct(answer) && Sorted(Nearer, answer)
    ensures forall r :: r in answer <==> r in closure && r.descendantTopicId in ids
  {}

  /** The part of an answer that belongs to one descendant, in answer order. */
  ghost function RowsFor(answer: seq<ClosureRow>, id: Id): seq<ClosureRow> {
    if answer == [] then []
    else
      var last := answer[|answer| - 1];
      RowsFor(answer[..|answer| - 1], id) + (if last.descendantTopicId == id then [last] else [])
  }

  lemma {:induction false} RowsForElements(answer: seq<ClosureRow>, id: Id)
    requires Distinct(answer) && Sorted(Nearer, answer)
    ensures forall r :: r in RowsFor(answer, id) <==> r in answer && r.descendantTopicId == id
    ensures Distinct(RowsFor(answer, id)) && Sorted(Nearer, RowsFor(answer, id))
  {
    if answer != [] {
      var init := answer[..|answer| - 1];
      var last := answer[|answer| - 1];
      RowsForElements(init, id);
      assert answer == init + [last];
      assert last !in init;
      forall r | r in RowsFor(init, id) ensures Nearer(r, last) {
        assert r in init;
      }
    }
  }

  /** The rows of one topic, nearest first: one per topic on its chain, at its distance. */
  ghost function ChainRows(up: Links<Id>, id: Id): (rows: seq<ClosureRow>)
    requires Rooted(up, id)
    ensures |rows| == |Chain(up, id)|
    ensures forall k :: 0 <= k < |rows| ==> rows[k] == ClosureRow(Chain(up, id)[k], id, k)
  {
    seq(|Chain(up, id)|, k requires 0 <= k < |Chain(up, id)| => ClosureRow(Chain(up, id)[k], id, k))
  }

  lemma ChainRowsElements(up: Links<Id>, closure: set<ClosureRow>, id: Id)
    requires Rooted(up, id) && ClosureExact(up, closure)
    ensures forall r :: r in ChainRows(up, id) <==> r in closure && r.descendantTopicId == id
  {
    var chain := Chain(up, id);
    forall r ensures r in ChainRows(up, id) <==> r in closure && r.descendantTopicId == id {
      assert r == ClosureRow(r.ancestorTopicId, r.descendantTopicId, r.depth);
      if r in closure && r.descendantTopicId == id {
        assert Climb(up, id, r.depth) == Some(r.ancestorTopicId);
        assert r.depth < |chain|;
        assert ChainRows(up, id)[r.depth] == r;
      }
      if r in ChainRows(up, id) {
        var k :| 0 <= k < |chain| && ChainRows(up, id)[k] == r;
        assert Climb(up, id, k) == Some(chain[k]);
      }
    }
  }

  /** Grouping a globally depth-ordered answer gives each topic exactly its chain, nearest first. */
  lemma GroupIsChain(up: Links<Id>, closure: set<ClosureRow>, ids: set<Id>, answer: seq<ClosureRow>, id: Id)
    requires ClosureExact(up, closure) && Answers(closure, ids, answer) && id in ids && Rooted(up, id)
    ensures RowsFor(answer, id) == ChainRows(up, id)
  {
    var rows, target := RowsFor(answer, id), ChainRows(up, id);
    RowsForElements(answer, id);
    ChainRowsElements(up, closure, id);
    forall x, y | x in rows && y in rows && Nearer(x, y) && Nearer(y, x) ensures x == y {
      assert x in target && y in target;
    }
    assert TotalPreorder(Nearer);
    SortedUnique(Nearer, rows, target);
  }
}
