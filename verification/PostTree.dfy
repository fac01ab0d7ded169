/** The embedded thread of a topic: from flat post rows to an ordered forest.

Rows are linked by `POST` parents, in any order and with no guarantee that the links make sense. The tree
builder links every row once, sorts each reply list it can reach from a root, and renders from the roots.
*/
module PostTree {
  import opened Basics
  import opened ParentLinks
  import opened Sorting

  const POST_PARENT_POST := "POST"
  const POST_PARENT_TOPIC := "TOPIC"

  datatype PostRow = PostRow(
    id: Id, topicId: Id, parentType: string, parentId: Id,
    authorMemberId: Id, content: Option<string>, createdAt: int, deleted: bool)

  datatype PostNode = PostNode(row: PostRow, content: Option<string>, replies: seq<PostNode>)

  type Rows = map<Id, PostRow>

  ghost predicate DistinctRows(rows: seq<PostRow>) {
    forall i, j :: 0 <= i < j < |rows| ==> rows[i].id != rows[j].id
  }

  /** The row a post is shown under: only a stored `POST` parent counts, everything else is top level. */
  function ShownUnder(byId: Rows, row: PostRow): Option<Id> {
    if row.parentType == POST_PARENT_POST && row.parentId in byId then Some(row.parentId) else None
  }

  function LinksOf(byId: Rows): (up: Links<Id>)
    ensures Closed(up)
  {
    map id | id in byId :: ShownUnder(byId, byId[id])
  }

  /** The ids shown directly under `key` (or at top level), in row order. */
  ghost function IdsUnder(up: Links<Id>, ids: seq<Id>, key: Option<Id>): seq<Id> {
    if ids == [] then []
    else
      var last := ids[|ids| - 1];
      IdsUnder(up, ids[..|ids| - 1], key) + (if last in up && up[last] == key then [last] else [])
  }

  lemma {:induction false} IdsUnderElements(up: Links<Id>, ids: seq<Id>, key: Option<Id>)
    requires Distinct(ids)
    ensures forall x :: x in IdsUnder(up, ids, key) <==> x in ids && x in up && up[x] == key
    ensures Distinct(IdsUnder(up, ids, key))
  {
    if ids != [] {
      var init := ids[..|ids| - 1];
      IdsUnderElements(up, init, key);
      assert ids == init + [ids[|ids| - 1]];
      assert ids[|ids| - 1] !in init;
    }
  }

  function CreatedAt(byId: Rows, id: Id): int {
    if id in byId then byId[id].createdAt else 0
  }

  /** Oldest first, with the collation rank of the id as fallback. */
  function Chronological(byId: Rows, collate: Id -> int): (Id, Id) -> bool {
    (left: Id, right: Id) =>
      CreatedAt(byId, left) < CreatedAt(byId, right)
      || (CreatedAt(byId, left) == CreatedAt(byId, right) && collate(left) <= collate(right))
  }

  function ShownContent(row: PostRow): Option<string> {
    if row.deleted then None else row.content
  }

  /** For each shown parent (`None` for top level), the ids to show under it. */
  type Layout = map<Option<Id>, seq<Id>>

  /** Every stored id stands in the list of its own parent, and in no other, once. */
  ghost predicate LayoutOk(up: Links<Id>, under: Layout) {
    && None in under
    && (forall id :: id in up ==> Some(id) in under && up[id] in under && id in under[up[id]])
    && (forall key, id :: key in under && id in under[key] ==> id in up && up[id] == key)
    && (forall key :: key in under ==> Distinct(under[key]))
  }

  ghost function IdsOf(nodes: seq<PostNode>): (ids: seq<Id>)
    ensures |ids| == |nodes| && forall i :: 0 <= i < |nodes| ==> ids[i] == nodes[i].row.id
  {
    seq(|nodes|, i requires 0 <= i < |nodes| => nodes[i].row.id)
  }

  /** A node shows its row, a placeholder when deleted, over exactly the replies laid out for it, and so on down. */
  ghost predicate Shows(byId: Rows, under: Layout, node: PostNode)
    decreases node
  {
    && node.row.id in byId && node.row == byId[node.row.id]
    && node.content == ShownContent(node.row)
    && Some(node.row.id) in under && IdsOf(node.replies) == under[Some(node.row.id)]
    && forall reply :: reply in node.replies ==> Shows(byId, under, reply)
  }

  ghost predicate ShowsForest(byId: Rows, under: Layout, forest: seq<PostNode>) {
    && None in under && IdsOf(forest) == under[None]
    && forall node :: node in forest ==> Shows(byId, under, node)
  }

  /** The ids of a tree, in reading order. */
  ghost function Flatten(node: PostNode): seq<Id>
    decreases node, 0
  {
    [node.row.id] + FlattenAll(node.replies)
  }

  ghost function FlattenAll(nodes: seq<PostNode>): seq<Id>
    decreases nodes, 1
  {
    if nodes == [] then [] else Flatten(nodes[0]) + FlattenAll(nodes[1..])
  }

  ghost predicate Reaches(up: Links<Id>, x: Id, a: Id) {
    exists k: nat :: Climb(up, x, k) == Some(a)
  }

  /** Some id of the list is `x` or an ancestor of `x`. */
  ghost predicate ReachesOne(up: Links<Id>, x: Id, ids: seq<Id>) {
    exists a :: a in ids && Reaches(up, x, a)
  }

  /** A row that reaches a rooted ancestor is rooted, `k` hops further down. */
  lemma HeightAbove(up: Links<Id>, x: Id, a: Id, k: nat)
    requires Climb(up, x, k) == Some(a) && Rooted(up, a)
    ensures Rooted(up, x) && Height(up, x) == k + Height(up, a)
  {
    ClimbAdd(up, x, k, Height(up, a));
    assert RootAt(up, x, k + Height(up, a));
    HeightIs(up, x, k + Height(up, a));
  }

  /** Two rows of the same height above the same row are the same row. */
  lemma SameLevel(up: Links<Id>, x: Id, a: Id, b: Id)
    requires Reaches(up, x, a) && Reaches(up, x, b) && Rooted(up, a) && Rooted(up, b)
    requires Height(up, a) == Height(up, b)
    ensures a == b
  {
    var j: nat :| Climb(up, x, j) == Some(a);
    var k: nat :| Climb(up, x, k) == Some(b);
    HeightAbove(up, x, a, j);
    HeightAbove(up, x, b, k);
  }

  ghost predicate OnLevel(up: Links<Id>, h: nat, ids: seq<Id>) {
    Distinct(ids) && forall id :: id in ids ==> Rooted(up, id) && Height(up, id) == h
  }

  lemma RepliesOnNextLevel(up: Links<Id>, under: Layout, id: Id)
    requires LayoutOk(up, under) && Some(id) in under && Rooted(up, id)
    ensures OnLevel(up, Height(up, id) + 1, under[Some(id)])
  {
    ClimbStored(up, id, Height(up, id));
    forall c | c in under[Some(id)] ensures Rooted(up, c) && Height(up, c) == Height(up, id) + 1 {
      assert up[c] == Some(id);
      assert Climb(up, id, 0) == Some(id);
      assert Climb(up, c, 1) == Some(id);
      HeightAbove(up, c, id, 1);
    }
  }

  /** To climb to a row is to be it or to climb to one of its replies, never both. */
  lemma ReachesThroughReply(up: Links<Id>, under: Layout, id: Id, x: Id)
    requires LayoutOk(up, under) && Some(id) in under && Rooted(up, id)
    ensures Reaches(up, x, id) <==> x == id || ReachesOne(up, x, under[Some(id)])
    ensures !(x == id && ReachesOne(up, x, under[Some(id)]))
  {
    hide LayoutOk, Reaches, Rooted;
    RootedReachesItself(up, id);
    if Reaches(up, x, id) && x != id {
      LastHopIsReply(up, under, id, x);
    }
    if ReachesOne(up, x, under[Some(id)]) {
      var c :| c in under[Some(id)] && Reaches(up, x, c);
      LaidOutUnder(up, under, id, c);
      BelowReply(up, id, c, x);
    }
  }

  lemma RootedReachesItself(up: Links<Id>, id: Id)
    requires Rooted(up, id)
    ensures id in up && Reaches(up, id, id)
  {
    ClimbStored(up, id, Height(up, id));
    assert Climb(up, id, 0) == Some(id);
  }

  lemma LaidOutUnder(up: Links<Id>, under: Layout, id: Id, c: Id)
    requires LayoutOk(up, under) && Some(id) in under && c in under[Some(id)]
    ensures c in up && up[c] == Some(id)
  {}

  lemma LastHopIsReply(up: Links<Id>, under: Layout, id: Id, x: Id)
    requires LayoutOk(up, under) && Some(id) in under && Reaches(up, x, id) && x != id
    ensures ReachesOne(up, x, under[Some(id)])
  {
    var k: nat :| Climb(up, x, k) == Some(id);
    assert k > 0;
    ClimbNext(up, x, k - 1);
    ClimbStored(up, x, k - 1);
    var c := Climb(up, x, k - 1).value;
    assert up[c] == Some(id);
    assert Reaches(up, x, c);
  }

  lemma BelowReply(up: Links<Id>, id: Id, c: Id, x: Id)
    requires id in up && c in up && up[c] == Some(id) && Rooted(up, id) && Reaches(up, x, c)
    ensures Reaches(up, x, id) && x != id
  {
    var k: nat :| Climb(up, x, k) == Some(c);
    ClimbNext(up, x, k);
    assert Climb(up, x, k + 1) == Some(id);
    HeightAbove(up, x, id, k + 1);
  }

  /** A rendered tree holds a row once when the row climbs to the tree's root, and not at all otherwise. */
  lemma {:induction false} CountInTree(byId: Rows, up: Links<Id>, under: Layout, node: PostNode, x: Id)
    requires LayoutOk(up, under) && Shows(byId, under, node) && Rooted(up, node.row.id)
    ensures multiset(Flatten(node))[x] == if Reaches(up, x, node.row.id) then 1 else 0
    decreases node, 0
  {
    var id := node.row.id;
    RepliesOnNextLevel(up, under, id);
    CountInTrees(byId, up, under, Height(up, id) + 1, node.replies, x);
    ReachesThroughReply(up, under, id, x);
  }

  /** Among trees whose roots are on one level, a row is found at most once. */
  lemma {:induction false} CountInTrees(
      byId: Rows, up: Links<Id>, under: Layout, h: nat, nodes: seq<PostNode>, x: Id)
    requires LayoutOk(up, under) && OnLevel(up, h, IdsOf(nodes))
    requires forall node :: node in nodes ==> Shows(byId, under, node)
    ensures multiset(FlattenAll(nodes))[x] == if ReachesOne(up, x, IdsOf(nodes)) then 1 else 0
    decreases nodes, 1
  {
    if nodes != [] {
      var first, rest := nodes[0], nodes[1..];
      assert IdsOf(nodes) == [first.row.id] + IdsOf(rest);
      assert first in nodes && first.row.id in IdsOf(nodes);
      LevelTail(up, h, first.row.id, IdsOf(rest));
      CountInTree(byId, up, under, first, x);
      CountInTrees(byId, up, under, h, rest, x);
      ReachesFirstOrRest(up, h, first.row.id, IdsOf(rest), x);
    }
  }

  lemma LevelTail(up: Links<Id>, h: nat, first: Id, rest: seq<Id>)
    requires OnLevel(up, h, [first] + rest)
    ensures OnLevel(up, h, rest) && first !in rest && Rooted(up, first) && Height(up, first) == h
  {
    var all := [first] + rest;
    assert first in all;
    forall i, j | 0 <= i < j < |rest| ensures rest[i] != rest[j] {
      assert all[i + 1] != all[j + 1];
    }
    forall i | 0 <= i < |rest| ensures rest[i] != first {
      assert all[0] != all[i + 1];
    }
    forall id | id in rest ensures Rooted(up, id) && Height(up, id) == h {
      assert id in all;
    }
  }

  lemma ReachesFirstOrRest(up: Links<Id>, h: nat, first: Id, rest: seq<Id>, x: Id)
    requires OnLevel(up, h, [first] + rest)
    ensures ReachesOne(up, x, [first] + rest) <==> Reaches(up, x, first) || ReachesOne(up, x, rest)
    ensures !(Reaches(up, x, first) && ReachesOne(up, x, rest))
  {
    LevelTail(up, h, first, rest);
    assert first in [first] + rest;
    if ReachesOne(up, x, rest) {
      var a :| a in rest && Reaches(up, x, a);
      assert a in [first] + rest;
      if Reaches(up, x, first) {
        SameLevel(up, x, first, a);
      }
    }
  }

  /** Losslessness, exactly: the rendered forest holds every stored row once, except the rows on or below
  a cycle of `POST` parents, which it does not hold; and it holds nothing else. */
  lemma ForestHoldsExactlyTheRooted(byId: Rows, under: Layout, forest: seq<PostNode>, x: Id)
    requires LayoutOk(LinksOf(byId), under) && ShowsForest(byId, under, forest)
    ensures multiset(FlattenAll(forest))[x] ==
            if x in byId && !BelowCycle(LinksOf(byId), x) then 1 else 0
  {
    var up := LinksOf(byId);
    forall id | id in under[None] ensures Rooted(up, id) && Height(up, id) == 0 {
      assert up[id] == None;
      assert RootAt(up, id, 0);
      HeightIs(up, id, 0);
    }
    CountInTrees(byId, up, under, 0, forest, x);
    ReachesTopIffRooted(up, under, x);
    if x in byId { RootedOrCycle(up, x); }
  }

  lemma ReachesTopIffRooted(up: Links<Id>, under: Layout, x: Id)
    requires LayoutOk(up, under)
    ensures ReachesOne(up, x, under[None]) <==> Rooted(up, x)
    ensures Rooted(up, x) ==> x in up
  {
    if ReachesOne(up, x, under[None]) {
      var a :| a in under[None] && Reaches(up, x, a);
      var k: nat :| Climb(up, x, k) == Some(a);
      assert RootAt(up, x, k);
    }
    if Rooted(up, x) {
      var k := Height(up, x);
      ClimbStored(up, x, k);
      var a := Climb(up, x, k).value;
      assert up[a] == None;
      assert a in under[None];
      assert Reaches(up, x, a);
    }
  }

  /** Every sibling list laid out for display is in chronological order. */
  ghost predicate LayoutSorted(byId: Rows, collate: Id -> int, under: Layout) {
    forall key :: key in under ==> Sorted(Chronological(byId, collate), under[key])
  }

  /** The layout the builder aims for: every list filtered from the rows and sorted. */
  ghost function TargetLayout(byId: Rows, collate: Id -> int, ids: seq<Id>): Layout {
    var up := LinksOf(byId);
    map key | key in {None} + set id | id in byId :: Some(id) ::
      Sort(Chronological(byId, collate), IdsUnder(up, ids, key))
  }

  lemma TargetLayoutOk(byId: Rows, collate: Id -> int, ids: seq<Id>)
    requires Distinct(ids) && forall id :: id in ids <==> id in byId
    ensures LayoutOk(LinksOf(byId), TargetLayout(byId, collate, ids))
    ensures LayoutSorted(byId, collate, TargetLayout(byId, collate, ids))
  {
    var up := LinksOf(byId);
    var leq := Chronological(byId, collate);
    var under := TargetLayout(byId, collate, ids);
    forall key ensures ListOk(up, leq, key, Sort(leq, IdsUnder(up, ids, key))) {
      SortedListOk(up, leq, ids, key);
    }
    forall key | key in under ensures ListOk(up, leq, key, under[key]) {
      assert under[key] == Sort(leq, IdsUnder(up, ids, key));
    }
    forall id | id in up ensures Some(id) in under && up[id] in under {
      assert up[id].Some? ==> up[id].value in byId;
    }
  }

  /** A list holds exactly the rows shown under `key`, once each and in order. */
  ghost predicate ListOk(up: Links<Id>, leq: (Id, Id) -> bool, key: Option<Id>, list: seq<Id>) {
    && (forall x :: x in list <==> x in up && up[x] == key)
    && Distinct(list) && Sorted(leq, list)
  }

  lemma SortedListOk(up: Links<Id>, leq: (Id, Id) -> bool, ids: seq<Id>, key: Option<Id>)
    requires TotalPreorder(leq) && Distinct(ids) && forall id :: id in ids <==> id in up
    ensures ListOk(up, leq, key, Sort(leq, IdsUnder(up, ids, key)))
  {
    var plain := IdsUnder(up, ids, key);
    IdsUnderElements(up, ids, key);
    SortElements(leq, plain);
    SortDistinct(leq, plain);
    SortSorted(leq, plain);
  }

  /** Sorting a sorted list changes nothing. */
  lemma {:induction false} SortIdempotent<T(!new)>(leq: (T, T) -> bool, s: seq<T>)
    requires Sorted(leq, s)
    ensures Sort(leq, s) == s
  {
    if s != [] {
      SortIdempotent(leq, s[1..]);
      assert s == [s[0]] + s[1..];
    }
  }

  /** The ids of the rows, in row order. */
  ghost function RowIds(rows: seq<PostRow>): (ids: seq<Id>)
    ensures |ids| == |rows| && forall i :: 0 <= i < |rows| ==> ids[i] == rows[i].id
  {
    seq(|rows|, i requires 0 <= i < |rows| => rows[i].id)
  }

  /** The rows keyed by id. */
  ghost function ById(rows: seq<PostRow>): (byId: Rows)
    requires DistinctRows(rows)
    ensures forall id :: id in byId <==> id in RowIds(rows)
    ensures forall i :: 0 <= i < |rows| ==> rows[i].id in byId && byId[rows[i].id] == rows[i]
  {
    var byId := map i | 0 <= i < |rows| :: rows[i].id := rows[i];
    assert forall i :: 0 <= i < |rows| ==> RowIds(rows)[i] in byId;
    byId
  }

  /** Everything laid out under an id sorted since `before` has been sorted too. */
  ghost predicate SortedBelow(up: Links<Id>, before: set<Id>, done: set<Id>) {
    before <= done && forall c :: c in up && up[c].Some? && up[c].value in done - before ==> c in done
  }

  lemma {:induction false} RootedAreDone(up: Links<Id>, done: set<Id>, x: Id, k: nat)
    requires SortedBelow(up, {}, done)
    requires forall c :: c in up && up[c].None? ==> c in done
    requires RootAt(up, x, k)
    ensures x in done
    decreases k
  {
    ClimbPrefix(up, x, 0, k);
    if k > 0 { RootedAreDone(up, done, up[x].value, k - 1); }
  }

  /** After linking a prefix of the rows: each list holds what that prefix puts under it. */
  ghost predicate Linked(up: Links<Id>, ids: seq<Id>, replies: map<Id, seq<Id>>, roots: seq<Id>) {
    && replies.Keys == up.Keys
    && roots == IdsUnder(up, ids, None)
    && forall id :: id in replies ==> replies[id] == IdsUnder(up, ids, Some(id))
  }

  lemma LinkOne(up: Links<Id>, ids: seq<Id>, replies: map<Id, seq<Id>>, roots: seq<Id>, id: Id)
    requires Linked(up, ids, replies, roots) && id in up
    ensures replies.Keys == up.Keys
    ensures up[id].None? ==> Linked(up, ids + [id], replies, roots + [id])
    ensures up[id].Some? && up[id].value in replies ==>
              Linked(up, ids + [id], replies[up[id].value := replies[up[id].value] + [id]], roots)
  {
    assert (ids + [id])[..|ids|] == ids;
  }

  lemma OneRowMore(rows: seq<PostRow>, i: nat)
    requires i < |rows|
    ensures RowIds(rows)[..i + 1] == RowIds(rows)[..i] + [rows[i].id]
  {}

  /** One more row is linked. */
  lemma LinkRow(rows: seq<PostRow>, i: nat, replies: map<Id, seq<Id>>, roots: seq<Id>)
    requires DistinctRows(rows) && i < |rows| && Linked(LinksOf(ById(rows)), RowIds(rows)[..i], replies, roots)
    ensures var row, up, ids := rows[i], LinksOf(ById(rows)), RowIds(rows)[..i + 1];
            if row.parentType == POST_PARENT_POST && row.parentId in ById(rows) then
              row.parentId in replies && Linked(up, ids, replies[row.parentId := replies[row.parentId] + [row.id]], roots)
            else Linked(up, ids, replies, roots + [row.id])
  {
    hide *;
    LinksAreShownUnder(rows);
    OneRowMore(rows, i);
    LinkOne(LinksOf(ById(rows)), RowIds(rows)[..i], replies, roots, rows[i].id);
  }

  lemma NothingLinked(rows: seq<PostRow>, replies: map<Id, seq<Id>>)
    requires DistinctRows(rows)
    requires replies.Keys == ById(rows).Keys && forall id :: id in replies ==> replies[id] == []
    ensures Linked(LinksOf(ById(rows)), RowIds(rows)[..0], replies, [])
  {}

  lemma LinksAreShownUnder(rows: seq<PostRow>)
    requires DistinctRows(rows)
    ensures LinksOf(ById(rows)).Keys == ById(rows).Keys
    ensures forall i :: 0 <= i < |rows| ==>
              && rows[i].id in ById(rows)
              && LinksOf(ById(rows))[rows[i].id] ==
                 if rows[i].parentType == POST_PARENT_POST && rows[i].parentId in ById(rows)
                 then Some(rows[i].parentId) else None
  {}

  /** Reply lists of sorted ids are in target order, all others still in row order. */
  ghost predicate PartlySorted(
      replies: map<Id, seq<Id>>, done: set<Id>, plain: map<Id, seq<Id>>, target: Layout)
  {
    && replies.Keys == plain.Keys && done <= plain.Keys
    && forall id :: id in plain ==>
         Some(id) in target && replies[id] == if id in done then target[Some(id)] else plain[id]
  }

  /** The sorted layout of the lists as linked. */
  ghost predicate SortsTo(leq: (Id, Id) -> bool, up: Links<Id>, plain: map<Id, seq<Id>>, target: Layout) {
    && LayoutOk(up, target)
    && plain.Keys == up.Keys
    && (forall id :: id in plain ==> target[Some(id)] == Sort(leq, plain[id]))
    && (forall id :: id in plain ==> Sorted(leq, target[Some(id)]))
  }

  lemma TargetOf(byId: Rows, collate: Id -> int, ids: seq<Id>, plain: map<Id, seq<Id>>)
    requires Distinct(ids) && forall id :: id in ids <==> id in byId
    requires plain.Keys == byId.Keys
    requires forall id :: id in plain ==> plain[id] == IdsUnder(LinksOf(byId), ids, Some(id))
    ensures SortsTo(Chronological(byId, collate), LinksOf(byId), plain, TargetLayout(byId, collate, ids))
  {
    hide LayoutOk, Sort, TargetLayout, Chronological, Sorted, IdsUnder;
    TargetLayoutOk(byId, collate, ids);
    TargetLayoutIs(byId, collate, ids);
  }

  lemma TargetLayoutIs(byId: Rows, collate: Id -> int, ids: seq<Id>)
    ensures forall id :: id in byId ==>
              && Some(id) in TargetLayout(byId, collate, ids)
              && TargetLayout(byId, collate, ids)[Some(id)]
                 == Sort(Chronological(byId, collate), IdsUnder(LinksOf(byId), ids, Some(id)))
  {}

  /** What the sorter needs to know about the reply list it is about to walk. */
  lemma AboutReplies(leq: (Id, Id) -> bool, up: Links<Id>, replies: map<Id, seq<Id>>, done: set<Id>,
                     plain: map<Id, seq<Id>>, target: Layout, id: Id)
    requires SortsTo(leq, up, plain, target) && PartlySorted(replies, done, plain, target) && Rooted(up, id)
    ensures id in replies && id in up
    ensures forall c :: c in replies[id] <==> c in up && up[c] == Some(id)
    ensures forall c :: c in replies[id] ==> Rooted(up, c) && Height(up, c) == Height(up, id) + 1
  {
    ClimbStored(up, id, Height(up, id));
    RepliesOnNextLevel(up, target, id);
    SortElements(leq, plain[id]);
  }

  lemma SortOne(leq: (Id, Id) -> bool, up: Links<Id>, replies: map<Id, seq<Id>>, done: set<Id>,
                plain: map<Id, seq<Id>>, target: Layout, id: Id)
    requires SortsTo(leq, up, plain, target) && PartlySorted(replies, done, plain, target) && id in replies
    ensures PartlySorted(replies[id := Sort(leq, replies[id])], done + {id}, plain, target)
  {
    hide Sort, LayoutOk, Sorted;
    SortIdempotent(leq, target[Some(id)]);
    assert Sort(leq, replies[id]) == target[Some(id)];
  }

  lemma SortedBelowStart(up: Links<Id>, done: set<Id>)
    ensures SortedBelow(up, done, done)
  {}

  lemma NothingSorted(leq: (Id, Id) -> bool, up: Links<Id>, plain: map<Id, seq<Id>>, target: Layout)
    requires SortsTo(leq, up, plain, target)
    ensures PartlySorted(plain, {}, plain, target)
  {}

  lemma SortedBelowTransitive(up: Links<Id>, a: set<Id>, b: set<Id>, c: set<Id>)
    requires SortedBelow(up, a, b) && SortedBelow(up, b, c)
    ensures SortedBelow(up, a, c)
  {}

  lemma SortedBelowAdd(up: Links<Id>, before: set<Id>, done: set<Id>, id: Id)
    requires SortedBelow(up, before, done)
    requires forall c :: c in up && up[c] == Some(id) ==> c in done
    ensures SortedBelow(up, before, done + {id})
  {}

  /** Every rooted id has its reply list in target order. */
  ghost predicate ReadyToRender(up: Links<Id>, replies: map<Id, seq<Id>>, target: Layout) {
    forall x :: x in up && Rooted(up, x) ==> x in replies && Some(x) in target && replies[x] == target[Some(x)]
  }

  lemma AboutRendered(up: Links<Id>, replies: map<Id, seq<Id>>, target: Layout, id: Id)
    requires LayoutOk(up, target) && ReadyToRender(up, replies, target) && Rooted(up, id)
    ensures id in up && id in replies && Some(id) in target && replies[id] == target[Some(id)]
    ensures forall c :: c in replies[id] ==> Rooted(up, c) && Height(up, c) == Height(up, id) + 1
  {
    ClimbStored(up, id, Height(up, id));
    RepliesOnNextLevel(up, target, id);
  }

  ghost predicate AllShow(byId: Rows, under: Layout, nodes: seq<PostNode>, ids: seq<Id>) {
    IdsOf(nodes) == ids && forall n :: n in nodes ==> Shows(byId, under, n)
  }

  lemma NoneShown(byId: Rows, under: Layout)
    ensures AllShow(byId, under, [], [])
  {}

  lemma AllShowAppend(byId: Rows, under: Layout, nodes: seq<PostNode>, ids: seq<Id>, node: PostNode)
    requires AllShow(byId, under, nodes, ids) && Shows(byId, under, node)
    ensures AllShow(byId, under, nodes + [node], ids + [node.row.id])
  {}

  lemma ShowsNode(byId: Rows, under: Layout, id: Id, nodes: seq<PostNode>)
    requires id in byId && byId[id].id == id && Some(id) in under && AllShow(byId, under, nodes, under[Some(id)])
    ensures Shows(byId, under, PostNode(byId[id], ShownContent(byId[id]), nodes))
  {}

  /** The shared, mutable nodes of one tree: their rows, their reply lists, and the top-level list. */
  class ThreadBuilder {
    var nodesById: Rows
    var replies: map<Id, seq<Id>>
    var roots: seq<Id>
    ghost var done: set<Id>

    constructor ()
      ensures nodesById == map[] && replies == map[] && roots == [] && done == {}
    {
      nodesById, replies, roots, done := map[], map[], [], {};
    }

    /** First pass: one node per row, with no replies yet. */
    method MapNodes(rows: seq<PostRow>)
      requires DistinctRows(rows) && nodesById == map[] && replies == map[]
      modifies `nodesById, `replies
      ensures nodesById == ById(rows)
      ensures replies.Keys == nodesById.Keys && forall id :: id in replies ==> replies[id] == []
    {
      for i := 0 to |rows|
        invariant nodesById == ById(rows[..i])
        invariant replies.Keys == nodesById.Keys && forall id :: id in replies ==> replies[id] == []
      {
        ByIdAppend(rows, i);
        nodesById := nodesById[rows[i].id := rows[i]];
        replies := replies[rows[i].id := []];
      }
      assert rows[..|rows|] == rows;
    }

    /** Second pass: each node is pushed once, to its parent's replies or to the top level. */
    method LinkNodes(topicId: Id, rows: seq<PostRow>)
      requires DistinctRows(rows) && nodesById == ById(rows) && roots == []
      requires replies.Keys == nodesById.Keys && forall id :: id in replies ==> replies[id] == []
      modifies `replies, `roots
      ensures Linked(LinksOf(nodesById), RowIds(rows), replies, roots)
    {
      ghost var up := LinksOf(nodesById);
      ghost var ids := RowIds(rows);
      hide *;
      NothingLinked(rows, replies);
      for i := 0 to |rows|
        invariant Linked(up, ids[..i], replies, roots)
        invariant replies.Keys == nodesById.Keys
      {
        var row := rows[i];
        LinkRow(rows, i, replies, roots);
        if row.parentType == POST_PARENT_POST && row.parentId in nodesById {
          replies := replies[row.parentId := replies[row.parentId] + [row.id]];
        } else if row.parentType == POST_PARENT_TOPIC && row.parentId == topicId {
          roots := roots + [row.id];
        } else {
          roots := roots + [row.id];
        }
      }
      assert ids[..|rows|] == ids;
    }

    /** Sorts the reply lists of a whole subtree, innermost first. */
    method SortRepliesChronologically(
        id: Id, collate: Id -> int, ghost up: Links<Id>, ghost plain: map<Id, seq<Id>>, ghost target: Layout)
      requires SortsTo(Chronological(nodesById, collate), up, plain, target)
      requires PartlySorted(replies, done, plain, target) && Rooted(up, id)
      modifies `replies, `done
      ensures PartlySorted(replies, done, plain, target) && id in done && SortedBelow(up, old(done), done)
      decreases |up| - Height(up, id)
    {
      hide *;
      SortedBelowStart(up, done);
      AboutReplies(Chronological(nodesById, collate), up, replies, done, plain, target, id);
      var kids := replies[id];
      ghost var sorted: set<Id> := {};
      for i := 0 to |kids|
        invariant PartlySorted(replies, done, plain, target) && SortedBelow(up, old(done), done)
        invariant old(done) <= done && sorted <= done
        invariant forall j :: 0 <= j < i ==> kids[j] in sorted
      {
        assert kids[i] in kids;
        ghost var before := done;
        SortRepliesChronologically(kids[i], collate, up, plain, target);
        SortedBelowTransitive(up, old(done), before, done);
        SortedBelowGrows(up, before, done);
        sorted := sorted + {kids[i]};
      }
      AboutReplies(Chronological(nodesById, collate), up, replies, done, plain, target, id);
      SortOne(Chronological(nodesById, collate), up, replies, done, plain, target, id);
      SortedBelowAdd(up, old(done), done, id);
      replies := replies[id := Sort(Chronological(nodesById, collate), replies[id])];
      done := done + {id};
    }

    /** Renders one node with everything below it. */
    method ToPostTree(id: Id, ghost up: Links<Id>, ghost target: Layout) returns (node: PostNode)
      requires up.Keys == nodesById.Keys && forall x :: x in nodesById ==> nodesById[x].id == x
      requires LayoutOk(up, target) && ReadyToRender(up, replies, target) && Rooted(up, id)
      ensures Shows(nodesById, target, node) && node.row.id == id
      decreases |up| - Height(up, id)
    {
      hide *;
      NoneShown(nodesById, target);
      AboutRendered(up, replies, target, id);
      var kids := replies[id];
      var nodes: seq<PostNode> := [];
      for i := 0 to |kids|
        invariant AllShow(nodesById, target, nodes, kids[..i])
      {
        assert kids[i] in kids;
        var reply := ToPostTree(kids[i], up, target);
        AllShowAppend(nodesById, target, nodes, kids[..i], reply);
        assert kids[..i + 1] == kids[..i] + [kids[i]];
        nodes := nodes + [reply];
      }
      assert kids[..|kids|] == kids;
      ShowsNode(nodesById, target, id, nodes);
      node := PostNode(nodesById[id], ShownContent(nodesById[id]), nodes);
    }

    /** Sorts below every root, then the roots themselves. */
    method SortAll(collate: Id -> int, ghost up: Links<Id>, ghost plain: map<Id, seq<Id>>, ghost target: Layout)
      requires SortsTo(Chronological(nodesById, collate), up, plain, target) && replies == plain && done == {}
      requires None in target && target[None] == Sort(Chronological(nodesById, collate), roots)
      requires forall id :: id in roots <==> id in up && up[id].None?
      modifies `replies, `done, `roots
      ensures ReadyToRender(up, replies, target) && roots == target[None]
    {
      hide *;
      SortedBelowStart(up, done);
      NothingSorted(Chronological(nodesById, collate), up, plain, target);
      ghost var tops := roots;
      for i := 0 to |roots|
        invariant roots == tops
        invariant PartlySorted(replies, done, plain, target) && SortedBelow(up, {}, done)
        invariant forall j :: 0 <= j < i ==> tops[j] in done
      {
        assert roots[i] in roots;
        TopIsRooted(up, roots[i]);
        ghost var before := done;
        SortRepliesChronologically(roots[i], collate, up, plain, target);
        SortedBelowTransitive(up, {}, before, done);
        SortedBelowGrows(up, before, done);
      }
      AllRootedSorted(up, replies, done, plain, target);
      roots := Sort(Chronological(nodesById, collate), roots);
    }

    /** Renders the top-level nodes in order. */
    method RenderAll(ghost up: Links<Id>, ghost target: Layout) returns (forest: seq<PostNode>)
      requires up.Keys == nodesById.Keys && forall x :: x in nodesById ==> nodesById[x].id == x
      requires LayoutOk(up, target) && ReadyToRender(up, replies, target)
      requires roots == target[None]
      ensures ShowsForest(nodesById, target, forest)
    {
      forest := [];
      for i := 0 to |roots|
        invariant AllShow(nodesById, target, forest, roots[..i])
      {
        assert roots[i] in target[None];
        TopIsRooted(up, roots[i]);
        var node := ToPostTree(roots[i], up, target);
        AllShowAppend(nodesById, target, forest, roots[..i], node);
        assert roots[..i + 1] == roots[..i] + [roots[i]];
        forest := forest + [node];
      }
      assert roots[..|roots|] == roots;
    }
  }

  lemma TopIsRooted(up: Links<Id>, id: Id)
    requires id in up && up[id].None?
    ensures Rooted(up, id)
  {
    assert RootAt(up, id, 0);
  }

  lemma AllRootedSorted(up: Links<Id>, replies: map<Id, seq<Id>>, done: set<Id>, plain: map<Id, seq<Id>>, target: Layout)
    requires PartlySorted(replies, done, plain, target) && SortedBelow(up, {}, done)
    requires forall id :: id in up && up[id].None? ==> id in done
    ensures ReadyToRender(up, replies, target)
  {
    forall x | x in up && Rooted(up, x) ensures x in done {
      RootedAreDone(up, done, x, Height(up, x));
    }
  }

  lemma SortedBelowGrows(up: Links<Id>, before: set<Id>, done: set<Id>)
    requires SortedBelow(up, before, done)
    ensures before <= done
  {}

  lemma ByIdAppend(rows: seq<PostRow>, i: nat)
    requires DistinctRows(rows) && i < |rows|
    ensures ById(rows[..i + 1]) == ById(rows[..i])[rows[i].id := rows[i]]
  {
    assert rows[..i + 1] == rows[..i] + [rows[i]];
    assert RowIds(rows[..i + 1]) == RowIds(rows[..i]) + [rows[i].id];
  }

  // ----- what a reader sees, without the builder's own notions

  /** Where a row belongs, by its own columns: under the stored post it names as a `POST` parent, and otherwise on top. */
  ghost predicate HangsFrom(rows: seq<PostRow>, row: PostRow, parent: Option<Id>) {
    if row.parentType == "POST" && exists q :: q in rows && q.id == row.parentId
    then parent == Some(row.parentId) else parent.None?
  }

  /** Earlier posts first; among posts of one time, in id order. */
  ghost predicate OldestFirst(collate: Id -> int, nodes: seq<PostNode>) {
    forall i, j :: 0 <= i < j < |nodes| ==>
      || nodes[i].row.createdAt < nodes[j].row.createdAt
      || (nodes[i].row.createdAt == nodes[j].row.createdAt && collate(nodes[i].row.id) <= collate(nodes[j].row.id))
  }

  /** A list of replies as it reads: exactly the rows that belong there, oldest first, deleted ones without their content, and
  each over a list of replies that reads the same way. */
  ghost predicate ReadsAs(rows: seq<PostRow>, collate: Id -> int, parent: Option<Id>, nodes: seq<PostNode>)
    decreases nodes
  {
    && OldestFirst(collate, nodes)
    && (forall row :: row in rows ==> (row.id in IdsOf(nodes) <==> HangsFrom(rows, row, parent)))
    && forall node :: node in nodes ==>
         && node.row in rows && node.content == (if node.row.deleted then None else node.row.content)
         && ReadsAs(rows, collate, Some(node.row.id), node.replies)
  }

  lemma LinksAreHangs(rows: seq<PostRow>, row: PostRow, parent: Option<Id>)
    requires DistinctRows(rows) && row in rows
    ensures row.id in LinksOf(ById(rows))
    ensures LinksOf(ById(rows))[row.id] == parent <==> HangsFrom(rows, row, parent)
  {
    hide LinksOf, ById, DistinctRows, RowIds;
    LinksAreShownUnder(rows);
    AboutRows(rows);
    StoredIds(rows, row.parentId);
    var i :| 0 <= i < |rows| && rows[i] == row;
  }

  lemma StoredIds(rows: seq<PostRow>, id: Id)
    ensures id in RowIds(rows) <==> exists q :: q in rows && q.id == id
  {
    if id in RowIds(rows) {
      var i :| 0 <= i < |rows| && RowIds(rows)[i] == id;
      assert rows[i] in rows;
    }
    if q :| q in rows && q.id == id {
      var i :| 0 <= i < |rows| && rows[i] == q;
      assert RowIds(rows)[i] == id;
    }
  }

  lemma RowsById(rows: seq<PostRow>, id: Id)
    requires DistinctRows(rows) && id in ById(rows)
    ensures ById(rows)[id] in rows
  {
    var i :| 0 <= i < |rows| && RowIds(rows)[i] == id;
    assert ById(rows)[rows[i].id] == rows[i];
  }

  lemma SortedReads(byId: Rows, collate: Id -> int, nodes: seq<PostNode>)
    requires Sorted(Chronological(byId, collate), IdsOf(nodes))
    requires forall node :: node in nodes ==> node.row.id in byId && node.row == byId[node.row.id]
    ensures OldestFirst(collate, nodes)
  {
    forall i, j | 0 <= i < j < |nodes|
      ensures || nodes[i].row.createdAt < nodes[j].row.createdAt
              || (nodes[i].row.createdAt == nodes[j].row.createdAt && collate(nodes[i].row.id) <= collate(nodes[j].row.id))
    {
      assert nodes[i] in nodes && nodes[j] in nodes;
      assert Chronological(byId, collate)(IdsOf(nodes)[i], IdsOf(nodes)[j]);
    }
  }

  /** What is laid out in order reads in order, list by list. */
  lemma {:induction false} ShownReads(rows: seq<PostRow>, collate: Id -> int, under: Layout, parent: Option<Id>,
                                      nodes: seq<PostNode>)
    requires DistinctRows(rows) && LayoutOk(LinksOf(ById(rows)), under) && LayoutSorted(ById(rows), collate, under)
    requires parent in under && IdsOf(nodes) == under[parent]
    requires forall node :: node in nodes ==> Shows(ById(rows), under, node)
    ensures ReadsAs(rows, collate, parent, nodes)
    decreases nodes
  {
    hide LinksOf, ById, DistinctRows, Chronological, Sorted, OldestFirst, HangsFrom;
    SortedReads(ById(rows), collate, nodes);
    forall row | row in rows ensures row.id in IdsOf(nodes) <==> HangsFrom(rows, row, parent) {
      LinksAreHangs(rows, row, parent);
    }
    forall node | node in nodes
      ensures node.row in rows && ReadsAs(rows, collate, Some(node.row.id), node.replies)
    {
      RowsById(rows, node.row.id);
      ShownReads(rows, collate, under, Some(node.row.id), node.replies);
    }
  }

  /** The embedded thread of a topic: the forest shows the rows exactly as laid out and sorted, whatever the
  parent links look like. */
  method BuildPostTree(topicId: Id, rows: seq<PostRow>, collate: Id -> int) returns (forest: seq<PostNode>)
    requires DistinctRows(rows)
    ensures ShowsForest(ById(rows), TargetLayout(ById(rows), collate, RowIds(rows)), forest)
    ensures ReadsAs(rows, collate, None, forest)
  {
    var builder := new ThreadBuilder();
    builder.MapNodes(rows);
    builder.LinkNodes(topicId, rows);
    ghost var ids := RowIds(rows);
    ghost var byId := ById(rows);
    ghost var target := TargetLayout(byId, collate, ids);
    ghost var plain := builder.replies;
    AboutRows(rows);
    LinkedSortsTo(byId, collate, ids, plain, builder.roots);
    hide TargetLayout, Linked, SortsTo, LayoutOk, ShowsForest, ReadyToRender, LinksOf, ById;
    builder.SortAll(collate, LinksOf(byId), plain, target);
    forest := builder.RenderAll(LinksOf(byId), target);
    TargetReads(rows, collate, forest);
  }

  lemma TargetReads(rows: seq<PostRow>, collate: Id -> int, forest: seq<PostNode>)
    requires DistinctRows(rows)
    requires ShowsForest(ById(rows), TargetLayout(ById(rows), collate, RowIds(rows)), forest)
    ensures ReadsAs(rows, collate, None, forest)
  {
    hide ById, LinksOf, TargetLayout, LayoutOk, LayoutSorted, Shows, ReadsAs;
    AboutRows(rows);
    TargetLayoutOk(ById(rows), collate, RowIds(rows));
    ShownReads(rows, collate, TargetLayout(ById(rows), collate, RowIds(rows)), None, forest);
  }

  lemma AboutRows(rows: seq<PostRow>)
    requires DistinctRows(rows)
    ensures Distinct(RowIds(rows))
    ensures forall id :: id in RowIds(rows) <==> id in ById(rows)
    ensures forall id :: id in ById(rows) ==> ById(rows)[id].id == id
    ensures LinksOf(ById(rows)).Keys == ById(rows).Keys
  {}

  lemma LinkedSortsTo(byId: Rows, collate: Id -> int, ids: seq<Id>, replies: map<Id, seq<Id>>, roots: seq<Id>)
    requires Distinct(ids) && forall id :: id in ids <==> id in byId
    requires Linked(LinksOf(byId), ids, replies, roots)
    ensures SortsTo(Chronological(byId, collate), LinksOf(byId), replies, TargetLayout(byId, collate, ids))
    ensures LayoutOk(LinksOf(byId), TargetLayout(byId, collate, ids))
    ensures None in TargetLayout(byId, collate, ids)
    ensures TargetLayout(byId, collate, ids)[None] == Sort(Chronological(byId, collate), roots)
    ensures forall id :: id in roots <==> id in LinksOf(byId) && LinksOf(byId)[id].None?
  {
    TargetOf(byId, collate, ids, replies);
    IdsUnderElements(LinksOf(byId), ids, None);
  }

  /** What the reader of a topic gets, for every set of rows: each row once, in chronological sibling order,
  except the rows on or below a parent cycle, which are not shown at all. */
  lemma ThreadIsLossless(rows: seq<PostRow>, collate: Id -> int, forest: seq<PostNode>)
    requires DistinctRows(rows)
    requires ShowsForest(ById(rows), TargetLayout(ById(rows), collate, RowIds(rows)), forest)
    ensures forall i :: 0 <= i < |rows| ==>
              multiset(FlattenAll(forest))[rows[i].id] == if BelowCycle(LinksOf(ById(rows)), rows[i].id) then 0 else 1
    ensures forall x :: x in FlattenAll(forest) ==> exists i :: 0 <= i < |rows| && rows[i].id == x
    ensures LayoutSorted(ById(rows), collate, TargetLayout(ById(rows), collate, RowIds(rows)))
    ensures ReadsAs(rows, collate, None, forest)
  {
    hide *;
    TargetReads(rows, collate, forest);
    var byId := ById(rows);
    var under := TargetLayout(byId, collate, RowIds(rows));
    var shown := FlattenAll(forest);
    AboutRows(rows);
    IdsAre(rows);
    TargetLayoutOk(byId, collate, RowIds(rows));
    forall x ensures multiset(shown)[x] == if x in byId && !BelowCycle(LinksOf(byId), x) then 1 else 0 {
      ForestHoldsExactlyTheRooted(byId, under, forest, x);
    }
    forall x | x in shown ensures exists i :: 0 <= i < |rows| && rows[i].id == x {
      assert x in multiset(shown);
      assert x in RowIds(rows);
    }
  }

  lemma IdsAre(rows: seq<PostRow>)
    ensures forall i :: 0 <= i < |rows| ==> rows[i].id in RowIds(rows)
    ensures forall x :: x in RowIds(rows) ==> exists i :: 0 <= i < |rows| && rows[i].id == x
  {
    forall i | 0 <= i < |rows| ensures rows[i].id in RowIds(rows) {
      assert RowIds(rows)[i] == rows[i].id;
    }
  }
}
