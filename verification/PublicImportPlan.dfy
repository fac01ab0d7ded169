/** Planning the public import: which legacy categories are eligible, where their topics and discussions go,
and the ancestor index rows computed for the whole batch at once. */
module PublicImportPlan {
  import opened Basics
  import opened ParentLinks
  import opened Sorting
  import opened ClosureTable

  const ROOT_CATEGORY := -1
  const CHALLENGES_FORUMS := "challenges-forums"
  const GROUPS := "groups"

  datatype CategoryRow = CategoryRow(
    categoryId: int, parentCategoryId: Option<int>, hasGroup: bool, urlCode: string, sort: int)

  datatype DiscussionRow = DiscussionRow(discussionId: int, categoryId: int)

  datatype PlanError =
    | CategoryCycle | MissingParent | MissingAncestor | ExcludedParent | ExcludedCategory
    | OrphanComment | InvalidReplyParent | ReplyCycle

  ghost predicate DistinctCategories(rows: seq<CategoryRow>) {
    forall i, j :: 0 <= i < j < |rows| ==> rows[i].categoryId != rows[j].categoryId
  }

  type Categories = map<int, CategoryRow>

  ghost predicate Keyed(byId: Categories) {
    forall id :: id in byId ==> byId[id].categoryId == id
  }

  lemma KeyedAt(byId: Categories, id: int)
    requires Keyed(byId) && id in byId
    ensures byId[id].categoryId == id
  {}

  method CategoriesById(rows: seq<CategoryRow>) returns (byId: Categories)
    requires DistinctCategories(rows)
    ensures Keyed(byId)
    ensures forall r :: r in rows <==> r.categoryId in byId && byId[r.categoryId] == r
  {
    byId := map[];
    for i := 0 to |rows|
      invariant Keyed(byId)
      invariant forall r :: r in rows[..i] <==> r.categoryId in byId && byId[r.categoryId] == r
    {
      assert rows[..i + 1] == rows[..i] + [rows[i]];
      NotSeenBefore(rows, i);
      byId := byId[rows[i].categoryId := rows[i]];
    }
    assert rows[..|rows|] == rows;
  }

  lemma NotSeenBefore(rows: seq<CategoryRow>, i: nat)
    requires DistinctCategories(rows) && i < |rows|
    ensures forall r :: r in rows[..i] ==> r.categoryId != rows[i].categoryId
  {
    forall r | r in rows[..i] ensures r.categoryId != rows[i].categoryId {
      var j :| 0 <= j < i && rows[j] == r;
    }
  }

  // ----- eligibility

  /** Where the ancestry walk goes next; it stops at the source's root category. */
  function CategoryLinks(byId: Categories): Links<int> {
    map id | id in byId :: if id == ROOT_CATEGORY then None else byId[id].parentCategoryId
  }

  predicate Blocked(row: CategoryRow) {
    row.hasGroup || row.urlCode == CHALLENGES_FORUMS || row.urlCode == GROUPS
  }

  /** The first `k` categories of the walk are ordinary ones. */
  ghost predicate CleanFor(byId: Categories, id: int, k: nat) {
    forall i: nat {:trigger Climb(CategoryLinks(byId), id, i)} :: i < k ==>
      var c := Climb(CategoryLinks(byId), id, i);
      c.Some? && c.value in byId && c.value != ROOT_CATEGORY && !Blocked(byId[c.value])
  }

  /** The ancestry leads through ordinary categories to the root. */
  ghost predicate Eligible(byId: Categories, id: int) {
    exists k: nat :: Climb(CategoryLinks(byId), id, k) == Some(ROOT_CATEGORY) && CleanFor(byId, id, k)
  }

  /** The ancestry leads through ordinary categories to a blocked one. */
  ghost predicate Excluded(byId: Categories, id: int) {
    exists k: nat, c ::
      Climb(CategoryLinks(byId), id, k) == Some(c) && c in byId && c != ROOT_CATEGORY && Blocked(byId[c])
      && CleanFor(byId, id, k)
  }

  lemma VerdictUnique(byId: Categories, id: int)
    ensures !(Eligible(byId, id) && Excluded(byId, id))
  {}

  /** A walk that comes back to a category it has seen stays among ordinary categories forever. */
  lemma {:induction false} CleanForever(byId: Categories, id: int, j: nat, k: nat, n: nat)
    requires j < k && CleanFor(byId, id, k) && Climb(CategoryLinks(byId), id, j) == Climb(CategoryLinks(byId), id, k)
    ensures CleanFor(byId, id, n)
    decreases n
  {
    if n > k {
      CleanForever(byId, id, j, k, n - 1);
      var up := CategoryLinks(byId);
      assert Climb(up, id, j).Some?;
      ClimbAdd(up, id, k, n - 1 - k);
      ClimbAdd(up, id, j, n - 1 - k);
      assert Climb(up, id, n - 1) == Climb(up, id, j + (n - 1 - k));
    }
  }

  lemma NoVerdictAfterCycle(byId: Categories, id: int, j: nat, k: nat)
    requires j < k && CleanFor(byId, id, k) && Climb(CategoryLinks(byId), id, j) == Climb(CategoryLinks(byId), id, k)
    ensures !Eligible(byId, id) && !Excluded(byId, id)
  {
    forall n: nat ensures CleanFor(byId, id, n) { CleanForever(byId, id, j, k, n); }
    forall n: nat ensures var c := Climb(CategoryLinks(byId), id, n);
                          c.Some? && c.value in byId && c.value != ROOT_CATEGORY && !Blocked(byId[c.value])
    {
      assert CleanFor(byId, id, n + 1);
    }
  }

  /** A walk that ends at an ordinary category without a stored parent gives no verdict. */
  lemma NoVerdictAfterEnd(byId: Categories, id: int, k: nat)
    requires CleanFor(byId, id, k + 1) && Climb(CategoryLinks(byId), id, k + 1).None?
    ensures !Eligible(byId, id) && !Excluded(byId, id)
  {
    var up := CategoryLinks(byId);
    forall n: nat | n > k ensures Climb(up, id, n).None? {
      if Climb(up, id, n).Some? { ClimbPrefix(up, id, k + 1, n); }
    }
  }

  /** The seen set of the walk: the categories passed, all of them ordinary. */
  ghost predicate Passed(byId: Categories, id: int, k: nat, seen: set<int>) {
    CleanFor(byId, id, k) && seen <= byId.Keys && seen == WalkSet(CategoryLinks(byId), id, k)
  }

  lemma PassOne(byId: Categories, id: int, k: nat, seen: set<int>, c: int)
    requires Passed(byId, id, k, seen) && Climb(CategoryLinks(byId), id, k) == Some(c)
    requires c in byId && c != ROOT_CATEGORY && !Blocked(byId[c])
    ensures Passed(byId, id, k + 1, seen + {c})
  {
    hide CategoryLinks, Climb, Blocked;
    assert WalkSet(CategoryLinks(byId), id, k + 1) == WalkSet(CategoryLinks(byId), id, k) + {c};
  }

  /** Why an ancestry walk gives no verdict: it comes back to a category, or it ends at one with no parent, or at one whose
  parent is not stored. */
  ghost predicate WalkFails(byId: Categories, id: int, error: PlanError) {
    match error
    case CategoryCycle => BelowCycle(CategoryLinks(byId), id)
    case MissingParent => exists c :: EndsAt(byId, id, c) && byId[c].parentCategoryId.None?
    case MissingAncestor => exists c :: EndsAt(byId, id, c) && byId[c].parentCategoryId.Some?
    case _ => false
  }

  /** The walk passes `c` and goes no further. */
  ghost predicate EndsAt(byId: Categories, id: int, c: int) {
    && c in byId && c != ROOT_CATEGORY
    && (byId[c].parentCategoryId.Some? ==> byId[c].parentCategoryId.value !in byId)
    && exists k: nat :: Climb(CategoryLinks(byId), id, k) == Some(c)
  }

  /** The ancestry check of one category: eligible, excluded, or an error when the ancestry is cyclic or broken. */
  method CheckAncestry(byId: Categories, row: CategoryRow) returns (verdict: Result<bool, PlanError>)
    requires Keyed(byId) && row.categoryId in byId && byId[row.categoryId] == row && row.categoryId != ROOT_CATEGORY
    ensures verdict == Ok(true) <==> Eligible(byId, row.categoryId)
    ensures verdict == Ok(false) <==> Excluded(byId, row.categoryId)
    ensures verdict.Err? ==> WalkFails(byId, row.categoryId, verdict.error)
  {
    hide *;
    ghost var id := row.categoryId;
    ghost var k := 0;
    var current := row;
    var seen: set<int> := {};
    VerdictUnique(byId, id);
    WalkStarts(byId, id);
    while current.categoryId != ROOT_CATEGORY
      invariant current.categoryId in byId && byId[current.categoryId] == current
      invariant Climb(CategoryLinks(byId), id, k) == Some(current.categoryId)
      invariant Passed(byId, id, k, seen) && seen <= byId.Keys
      decreases byId.Keys - seen
    {
      var here := current.categoryId;
      if here in seen {
        SeenIsCycle(byId, id, k, seen, here);
        return Err(CategoryCycle);
      }
      if Blocked(current) {
        BlockedVerdict(byId, id, k, seen, here);
        return Ok(false);
      }
      PassOne(byId, id, k, seen, here);
      NextCategory(byId, id, k, here);
      seen := seen + {here};
      if current.parentCategoryId.None? {
        BrokenEnd(byId, id, k, seen, here);
        return Err(MissingParent);
      }
      if current.parentCategoryId.value !in byId {
        BrokenEnd(byId, id, k, seen, here);
        return Err(MissingAncestor);
      }
      assert seen <= byId.Keys by { PassedIsStored(byId, id, k + 1, seen); }
      KeyedAt(byId, current.parentCategoryId.value);
      current := byId[current.parentCategoryId.value];
      k := k + 1;
    }
    RootVerdict(byId, id, k, seen);
    return Ok(true);
  }

  lemma WalkStarts(byId: Categories, id: int)
    requires id in byId
    ensures Climb(CategoryLinks(byId), id, 0) == Some(id) && Passed(byId, id, 0, {})
  {}

  lemma PassedIsStored(byId: Categories, id: int, k: nat, seen: set<int>)
    requires Passed(byId, id, k, seen)
    ensures seen <= byId.Keys
  {}

  lemma SeenIsCycle(byId: Categories, id: int, k: nat, seen: set<int>, here: int)
    requires Passed(byId, id, k, seen) && here in seen && Climb(CategoryLinks(byId), id, k) == Some(here)
    ensures !Eligible(byId, id) && !Excluded(byId, id) && WalkFails(byId, id, CategoryCycle)
  {
    hide CategoryLinks;
    var j := WalkSetMember(CategoryLinks(byId), id, k, here);
    NoVerdictAfterCycle(byId, id, j, k);
    RepeatIsCycle(CategoryLinks(byId), id, j, k);
  }

  lemma BlockedVerdict(byId: Categories, id: int, k: nat, seen: set<int>, here: int)
    requires Passed(byId, id, k, seen) && Climb(CategoryLinks(byId), id, k) == Some(here)
    requires here in byId && here != ROOT_CATEGORY && Blocked(byId[here])
    ensures Excluded(byId, id)
  {}

  lemma RootVerdict(byId: Categories, id: int, k: nat, seen: set<int>)
    requires Passed(byId, id, k, seen) && Climb(CategoryLinks(byId), id, k) == Some(ROOT_CATEGORY)
    ensures Eligible(byId, id)
  {}

  lemma NextCategory(byId: Categories, id: int, k: nat, here: int)
    requires Climb(CategoryLinks(byId), id, k) == Some(here) && here in byId && here != ROOT_CATEGORY
    ensures Climb(CategoryLinks(byId), id, k + 1) ==
            if byId[here].parentCategoryId.Some? && byId[here].parentCategoryId.value in byId
            then byId[here].parentCategoryId else None
  {
    ClimbNext(CategoryLinks(byId), id, k);
  }

  lemma BrokenEnd(byId: Categories, id: int, k: nat, seen: set<int>, here: int)
    requires Passed(byId, id, k + 1, seen) && Climb(CategoryLinks(byId), id, k) == Some(here)
    requires here in byId && here != ROOT_CATEGORY
    requires byId[here].parentCategoryId.Some? ==> byId[here].parentCategoryId.value !in byId
    ensures !Eligible(byId, id) && !Excluded(byId, id)
    ensures WalkFails(byId, id, if byId[here].parentCategoryId.Some? then MissingAncestor else MissingParent)
  {
    NextCategory(byId, id, k, here);
    NoVerdictAfterEnd(byId, id, k);
    assert EndsAt(byId, id, here);
  }

  // ----- the verdicts, one step up at a time

  /** Eligibility and exclusion, read off the rows. The source's root category is eligible. Any other stored category with a
  group, or named `challenges-forums` or `groups`, is excluded; the rest have the verdict of their parent, if it is stored. */
  lemma VerdictStep(byId: Categories, id: int)
    requires id in byId
    ensures id == -1 ==> Eligible(byId, id) && !Excluded(byId, id)
    ensures var row := byId[id];
            var blocked := row.hasGroup || row.urlCode == "challenges-forums" || row.urlCode == "groups";
            id != -1 ==>
              && (Eligible(byId, id) <==>
                    && !blocked && row.parentCategoryId.Some? && row.parentCategoryId.value in byId
                    && Eligible(byId, row.parentCategoryId.value))
              && (Excluded(byId, id) <==>
                    || blocked
                    || (row.parentCategoryId.Some? && row.parentCategoryId.value in byId
                        && Excluded(byId, row.parentCategoryId.value)))
  {
    var up := CategoryLinks(byId);
    assert Climb(up, id, 0) == Some(id);
    if id == -1 {
      assert CleanFor(byId, id, 0);
      VerdictUnique(byId, id);
    } else if Blocked(byId[id]) {
      assert CleanFor(byId, id, 0);
      assert Excluded(byId, id);
      VerdictUnique(byId, id);
    } else if byId[id].parentCategoryId.Some? {
      VerdictOfParent(byId, id, byId[id].parentCategoryId.value);
    } else {
      NoVerdictWithoutParent(byId, id);
    }
  }

  lemma NoVerdictWithoutParent(byId: Categories, id: int)
    requires id in byId && id != ROOT_CATEGORY && !Blocked(byId[id]) && byId[id].parentCategoryId.None?
    ensures !Eligible(byId, id) && !Excluded(byId, id)
  {
    assert Climb(CategoryLinks(byId), id, 0) == Some(id);
    assert CleanFor(byId, id, 1);
    NoVerdictAfterEnd(byId, id, 0);
  }

  lemma VerdictOfParent(byId: Categories, id: int, p: int)
    requires id in byId && id != ROOT_CATEGORY && !Blocked(byId[id]) && byId[id].parentCategoryId == Some(p)
    ensures Eligible(byId, id) <==> p in byId && Eligible(byId, p)
    ensures Excluded(byId, id) <==> p in byId && Excluded(byId, p)
  {
    hide Blocked;
    var up := CategoryLinks(byId);
    assert Climb(up, id, 0) == Some(id);
    forall k: nat ensures Climb(up, id, k + 1) == Climb(up, p, k) && (CleanFor(byId, id, k + 1) <==> CleanFor(byId, p, k)) {
      CleanFromParent(byId, id, p, k);
    }
    if Eligible(byId, id) {
      var k: nat :| Climb(up, id, k) == Some(ROOT_CATEGORY) && CleanFor(byId, id, k);
      assert k > 0 && Climb(up, p, k - 1) == Some(ROOT_CATEGORY) && CleanFor(byId, p, k - 1);
      ClimbStored(up, p, k - 1);
    }
    if Excluded(byId, id) {
      var k: nat, c :| Climb(up, id, k) == Some(c) && c in byId && c != ROOT_CATEGORY && Blocked(byId[c]) && CleanFor(byId, id, k);
      assert k > 0 && Climb(up, p, k - 1) == Some(c) && CleanFor(byId, p, k - 1);
      ClimbStored(up, p, k - 1);
    }
    if p in byId && Eligible(byId, p) {
      var k: nat :| Climb(up, p, k) == Some(ROOT_CATEGORY) && CleanFor(byId, p, k);
      assert Climb(up, id, k + 1) == Some(ROOT_CATEGORY) && CleanFor(byId, id, k + 1);
    }
    if p in byId && Excluded(byId, p) {
      var k: nat, c :| Climb(up, p, k) == Some(c) && c in byId && c != ROOT_CATEGORY && Blocked(byId[c]) && CleanFor(byId, p, k);
      assert Climb(up, id, k + 1) == Some(c) && CleanFor(byId, id, k + 1);
    }
  }

  lemma CleanFromParent(byId: Categories, id: int, p: int, k: nat)
    requires id in byId && id != ROOT_CATEGORY && !Blocked(byId[id]) && byId[id].parentCategoryId == Some(p)
    ensures Climb(CategoryLinks(byId), id, k + 1) == Climb(CategoryLinks(byId), p, k)
    ensures CleanFor(byId, id, k + 1) <==> CleanFor(byId, p, k)
  {
    hide Blocked;
    var up := CategoryLinks(byId);
    forall i: nat ensures Climb(up, id, i + 1) == Climb(up, p, i) {}
    assert Climb(up, id, 0) == Some(id);
    if CleanFor(byId, id, k + 1) {
      forall i: nat | i < k
        ensures var c := Climb(up, p, i); c.Some? && c.value in byId && c.value != ROOT_CATEGORY && !Blocked(byId[c.value])
      {
        assert Climb(up, id, i + 1) == Climb(up, p, i);
      }
    }
    if CleanFor(byId, p, k) {
      forall i: nat | i < k + 1
        ensures var c := Climb(up, id, i); c.Some? && c.value in byId && c.value != ROOT_CATEGORY && !Blocked(byId[c.value])
      {
        if i > 0 { assert Climb(up, id, i) == Climb(up, p, i - 1); }
      }
    }
  }

  /** A category is published when it is neither the root nor named `groups`, and its ancestry is eligible. */
  ghost predicate Published(byId: Categories, row: CategoryRow) {
    row.categoryId != ROOT_CATEGORY && row.urlCode != GROUPS && Eligible(byId, row.categoryId)
  }

  /** The inventory is unusable: some category that is not skipped outright has no verdict. */
  ghost predicate Broken(byId: Categories, row: CategoryRow) {
    && row.categoryId != ROOT_CATEGORY && row.urlCode != GROUPS
    && !Eligible(byId, row.categoryId) && !Excluded(byId, row.categoryId)
  }

  /** For a stored category: what is published, and what makes the inventory unusable. */
  lemma PublishedMeans(byId: Categories, id: int)
    requires Keyed(byId) && id in byId
    ensures Published(byId, byId[id]) <==> id != -1 && Eligible(byId, id)
    ensures Broken(byId, byId[id]) <==> id != -1 && !Eligible(byId, id) && !Excluded(byId, id)
  {
    hide Eligible, Excluded;
    VerdictStep(byId, id);
  }

  predicate SortBefore(left: CategoryRow, right: CategoryRow) {
    left.sort <= right.sort
  }

  ghost function TableOf(rows: seq<CategoryRow>): Categories
    requires DistinctCategories(rows)
  {
    map r | r in rows :: r.categoryId := r
  }

  /** Selects the public categories in sort order, or fails on a broken inventory. */
  method PublicCategories(rows: seq<CategoryRow>) returns (selected: Result<seq<CategoryRow>, PlanError>)
    requires DistinctCategories(rows)
    ensures selected.Err? <==> exists r :: r in rows && Broken(TableOf(rows), r)
    ensures selected.Err? ==>
              exists r :: r in rows && Broken(TableOf(rows), r) && WalkFails(TableOf(rows), r.categoryId, selected.error)
    ensures selected.Ok? ==>
              && (forall r :: r in selected.value <==> r in rows && Published(TableOf(rows), r))
              && DistinctCategories(selected.value) && Sorted(SortBefore, selected.value)
              && forall i, j :: 0 <= i < j < |selected.value| ==> selected.value[i].sort <= selected.value[j].sort
  {
    hide Eligible, Excluded, CategoryLinks, WalkFails;
    var byId := CategoriesById(rows);
    assert byId == TableOf(rows) by { TableMatches(rows, byId); }
    var kept: seq<CategoryRow> := [];
    for i := 0 to |rows|
      invariant forall r :: r in rows[..i] ==> !Broken(byId, r)
      invariant forall r :: r in kept <==> r in rows[..i] && Published(byId, r)
      invariant DistinctCategories(kept)
    {
      var row := rows[i];
      assert rows[..i + 1] == rows[..i] + [row];
      assert row in rows;
      if row.categoryId != ROOT_CATEGORY && row.urlCode != GROUPS {
        var verdict := CheckAncestry(byId, row);
        if verdict.Err? {
          return Err(verdict.error);
        }
        if verdict.value {
          NotSeenBefore(rows, i);
          assert forall r :: r in kept ==> r.categoryId != row.categoryId;
          kept := kept + [row];
        }
      }
    }
    assert rows[..|rows|] == rows;
    SortedSelection(kept);
    selected := Ok(Sort(SortBefore, kept));
  }

  lemma TableMatches(rows: seq<CategoryRow>, byId: Categories)
    requires DistinctCategories(rows) && Keyed(byId)
    requires forall r :: r in rows <==> r.categoryId in byId && byId[r.categoryId] == r
    ensures byId == TableOf(rows)
  {
    var table := TableOf(rows);
    forall id ensures id in byId <==> id in table {
      if id in byId { assert byId[id] in rows; }
    }
  }

  lemma SortedSelection(kept: seq<CategoryRow>)
    requires DistinctCategories(kept)
    ensures forall r :: r in Sort(SortBefore, kept) <==> r in kept
    ensures DistinctCategories(Sort(SortBefore, kept)) && Sorted(SortBefore, Sort(SortBefore, kept))
  {
    var sorted := Sort(SortBefore, kept);
    SortElements(SortBefore, kept);
    assert TotalPreorder(SortBefore);
    SortSorted(SortBefore, kept);
    assert Distinct(kept);
    SortDistinct(SortBefore, kept);
    forall i, j | 0 <= i < j < |sorted| ensures sorted[i].categoryId != sorted[j].categoryId {
      assert sorted[i] in kept && sorted[j] in kept && sorted[i] != sorted[j];
    }
  }

  /** The selection is closed upward: the parent of a published category is the root or published too. */
  lemma PublishedParent(byId: Categories, row: CategoryRow)
    requires Keyed(byId) && row.categoryId in byId && byId[row.categoryId] == row && Published(byId, row)
    ensures row.parentCategoryId.Some?
    ensures row.parentCategoryId.value != ROOT_CATEGORY ==>
              row.parentCategoryId.value in byId && Published(byId, byId[row.parentCategoryId.value])
  {
    var up := CategoryLinks(byId);
    var id := row.categoryId;
    var k: nat :| Climb(up, id, k) == Some(ROOT_CATEGORY) && CleanFor(byId, id, k);
    assert k > 0;
    ClimbPrefix(up, id, 1, k);
    assert Climb(up, id, 0) == Some(id);
    ClimbNext(up, id, 0);
    var p := row.parentCategoryId.value;
    if p != ROOT_CATEGORY {
      ClimbAdd(up, id, 1, k - 1);
      forall i: nat | i < k - 1 ensures var c := Climb(up, p, i);
        c.Some? && c.value in byId && c.value != ROOT_CATEGORY && !Blocked(byId[c.value])
      {
        ClimbAdd(up, id, 1, i);
        assert Climb(up, id, i + 1) == Climb(up, p, i);
      }
      assert CleanFor(byId, p, k - 1);
      assert Climb(up, id, 1) == Some(p) && !Blocked(byId[p]);
    }
  }

  /** And acyclic: no published category is its own ancestor. */
  lemma PublishedAcyclic(byId: Categories, row: CategoryRow, p: nat)
    requires Published(byId, row) && p > 0
    ensures Climb(CategoryLinks(byId), row.categoryId, p) != Some(row.categoryId)
  {
    var up := CategoryLinks(byId);
    var id := row.categoryId;
    var k: nat :| Climb(up, id, k) == Some(ROOT_CATEGORY) && CleanFor(byId, id, k);
    if Climb(up, id, p) == Some(id) {
      CycleForever(up, id, p, k + 1);
      ClimbNext(up, id, k);
    }
  }

  // ----- topics and their index

  datatype Kind = CategoryTopic | DiscussionTopic

  /** Deterministic target ids; different sources never collide. */
  ghost predicate Collisionless(importId: (Kind, int) -> Id) {
    forall k, m, n, o :: importId(k, n) == importId(m, o) ==> k == m && n == o
  }

  /** The planned topic rows, in insertion order. */
  datatype TopicPlan = TopicPlan(order: seq<Id>, parents: Links<Id>)

  ghost predicate PlanOk(plan: TopicPlan) {
    Distinct(plan.order) && (forall id :: id in plan.order <==> id in plan.parents) && Sound(plan.parents)
  }

  ghost predicate DistinctDiscussions(rows: seq<DiscussionRow>) {
    forall i, j :: 0 <= i < j < |rows| ==> rows[i].discussionId != rows[j].discussionId
  }

  /** What `PublicCategories` delivers: distinct categories, each under the root or under another of them, none
  of them its own ancestor. */
  ghost predicate ClosedSelection(selected: seq<CategoryRow>) {
    && DistinctCategories(selected)
    && (forall r :: r in selected ==> r.categoryId != ROOT_CATEGORY && r.parentCategoryId.Some?)
    && (forall r :: r in selected && r.parentCategoryId != Some(ROOT_CATEGORY) ==> ParentSelected(selected, r))
    && Acyclic(SelectedLinks(selected))
  }

  ghost predicate ParentSelected(selected: seq<CategoryRow>, r: CategoryRow) {
    exists p :: p in selected && Some(p.categoryId) == r.parentCategoryId
  }

  ghost function SelectedLinks(selected: seq<CategoryRow>): Links<int>
    requires DistinctCategories(selected)
  {
    map r | r in selected :: r.categoryId := if r.parentCategoryId == Some(ROOT_CATEGORY) then None else r.parentCategoryId
  }

  /** Whatever `PublicCategories` returns is closed upward and acyclic. */
  lemma SelectionIsClosed(rows: seq<CategoryRow>, selected: seq<CategoryRow>)
    requires DistinctCategories(rows) && DistinctCategories(selected)
    requires forall r :: r in selected <==> r in rows && Published(TableOf(rows), r)
    ensures ClosedSelection(selected)
  {
    hide Published, Acyclic, CategoryLinks;
    var byId := TableOf(rows);
    forall r | r in selected
      ensures r.categoryId != ROOT_CATEGORY && r.parentCategoryId.Some?
      ensures r.parentCategoryId != Some(ROOT_CATEGORY) ==> ParentSelected(selected, r)
    {
      PublishedIsOrdinary(byId, r);
      PublishedParent(byId, r);
      if r.parentCategoryId != Some(ROOT_CATEGORY) {
        var p := byId[r.parentCategoryId.value];
        assert p in rows;
        assert p in selected;
      }
    }
    SelectedIsAcyclic(rows, selected);
  }

  lemma PublishedIsOrdinary(byId: Categories, row: CategoryRow)
    requires Published(byId, row)
    ensures row.categoryId != ROOT_CATEGORY
  {}

  lemma SelectedIsAcyclic(rows: seq<CategoryRow>, selected: seq<CategoryRow>)
    requires DistinctCategories(rows) && DistinctCategories(selected)
    requires forall r :: r in selected <==> r in rows && Published(TableOf(rows), r)
    ensures Acyclic(SelectedLinks(selected))
  {
    hide Published, CategoryLinks;
    var up := SelectedLinks(selected);
    forall d, k: nat | k > 0 ensures Climb(up, d, k) != Some(d) {
      if Climb(up, d, k).Some? {
        ClimbStored(up, d, k);
        var r :| r in selected && r.categoryId == d;
        SelectedClimb(rows, selected, d, k);
        PublishedAcyclic(TableOf(rows), r, k);
      }
    }
  }

  lemma {:induction false} SelectedClimb(rows: seq<CategoryRow>, selected: seq<CategoryRow>, d: int, k: nat)
    requires DistinctCategories(rows) && DistinctCategories(selected)
    requires forall r :: r in selected <==> r in rows && Published(TableOf(rows), r)
    requires Climb(SelectedLinks(selected), d, k).Some?
    ensures Climb(CategoryLinks(TableOf(rows)), d, k) == Climb(SelectedLinks(selected), d, k)
    decreases k
  {
    hide Eligible;
    var r :| r in selected && r.categoryId == d;
    assert TableOf(rows)[d] == r;
    if k > 0 { SelectedClimb(rows, selected, r.parentCategoryId.value, k - 1); }
  }

  /** The planned parent links of the selected categories. */
  ghost function CategoryPlan(categories: seq<CategoryRow>, importId: (Kind, int) -> Id): Links<Id> {
    if categories == [] then map[]
    else
      var last := categories[|categories| - 1];
      CategoryPlan(categories[..|categories| - 1], importId)
        [importId(CategoryTopic, last.categoryId) := CategoryParent(last, importId)]
  }

  /** The planned parent links of the selected categories and their discussions. */
  ghost function PlannedParents(categories: seq<CategoryRow>, discussions: seq<DiscussionRow>,
                                importId: (Kind, int) -> Id): Links<Id>
  {
    if discussions == [] then CategoryPlan(categories, importId)
    else
      var last := discussions[|discussions| - 1];
      PlannedParents(categories, discussions[..|discussions| - 1], importId)
        [importId(DiscussionTopic, last.discussionId) := Some(importId(CategoryTopic, last.categoryId))]
  }

  /** A missing parent column reads as category 0. */
  function ParentNumber(r: CategoryRow): int {
    if r.parentCategoryId.Some? then r.parentCategoryId.value else 0
  }

  function CategoryParent(r: CategoryRow, importId: (Kind, int) -> Id): Option<Id> {
    if ParentNumber(r) == ROOT_CATEGORY then None else Some(importId(CategoryTopic, ParentNumber(r)))
  }

  ghost predicate HasCategory(categories: seq<CategoryRow>, id: int) {
    exists p :: p in categories && p.categoryId == id
  }

  /** Plans one topic per category and per discussion, refusing parents outside the selection. */
  method PlanTopics(categories: seq<CategoryRow>, discussions: seq<DiscussionRow>, importId: (Kind, int) -> Id)
      returns (plan: Result<TopicPlan, PlanError>)
    requires DistinctCategories(categories) && DistinctDiscussions(discussions) && Collisionless(importId)
    ensures plan == Err(ExcludedParent) <==>
            exists r :: r in categories && ParentNumber(r) != ROOT_CATEGORY && !HasCategory(categories, ParentNumber(r))
    ensures plan.Ok? ==>
              && (forall d :: d in discussions ==> HasCategory(categories, d.categoryId))
              && plan.value.parents == PlannedParents(categories, discussions, importId)
              && Distinct(plan.value.order) && (forall id :: id in plan.value.order <==> id in plan.value.parents)
              // categories first, then discussions, each in the order given
              && |plan.value.order| == |categories| + |discussions|
              && (forall i :: 0 <= i < |categories| ==> plan.value.order[i] == importId(CategoryTopic, categories[i].categoryId))
              && (forall i :: 0 <= i < |discussions| ==>
                    plan.value.order[|categories| + i] == importId(DiscussionTopic, discussions[i].discussionId))
    ensures plan.Err? && plan != Err(ExcludedParent) ==>
              plan == Err(ExcludedCategory) && exists d :: d in discussions && !HasCategory(categories, d.categoryId)
  {
    hide HasCategory, PlannedParents, CategoryPlan, DistinctCategories, DistinctDiscussions, Collisionless;
    var categoryIds := CategoryIds(categories);
    var order: seq<Id> := [];
    var parents: Links<Id> := map[];
    NothingPlanned(categories, importId);
    for i := 0 to |categories|
      invariant parents == CategoryPlan(categories[..i], importId)
      invariant |order| == i && forall j :: 0 <= j < i ==> order[j] == importId(CategoryTopic, categories[j].categoryId)
      invariant Distinct(order) && (forall id :: id in order <==> id in parents)
      invariant forall r :: r in categories[..i] ==>
                  ParentNumber(r) == ROOT_CATEGORY || HasCategory(categories, ParentNumber(r))
    {
      var row := categories[i];
      assert row in categories;
      assert categories[..i + 1] == categories[..i] + [row];
      if ParentNumber(row) != ROOT_CATEGORY && ParentNumber(row) !in categoryIds {
        return Err(ExcludedParent);
      }
      PlanOneCategory(categories, i, importId);
      var id := importId(CategoryTopic, row.categoryId);
      order := order + [id];
      parents := parents[id := CategoryParent(row, importId)];
    }
    assert categories[..|categories|] == categories;
    for i := 0 to |discussions|
      invariant parents == PlannedParents(categories, discussions[..i], importId)
      invariant |order| == |categories| + i
      invariant forall j :: 0 <= j < |categories| ==> order[j] == importId(CategoryTopic, categories[j].categoryId)
      invariant forall j :: 0 <= j < i ==> order[|categories| + j] == importId(DiscussionTopic, discussions[j].discussionId)
      invariant Distinct(order) && (forall id :: id in order <==> id in parents)
      invariant forall d :: d in discussions[..i] ==> HasCategory(categories, d.categoryId)
    {
      var row := discussions[i];
      assert row in discussions;
      assert discussions[..i + 1] == discussions[..i] + [row];
      if row.categoryId !in categoryIds {
        return Err(ExcludedCategory);
      }
      PlanOneDiscussion(categories, discussions, i, importId);
      var id := importId(DiscussionTopic, row.discussionId);
      order := order + [id];
      parents := parents[id := Some(importId(CategoryTopic, row.categoryId))];
    }
    assert discussions[..|discussions|] == discussions;
    return Ok(TopicPlan(order, parents));
  }

  function CategoryIds(categories: seq<CategoryRow>): (ids: set<int>)
    ensures forall n :: n in ids <==> HasCategory(categories, n)
  {
    set r | r in categories :: r.categoryId
  }

  lemma NothingPlanned(categories: seq<CategoryRow>, importId: (Kind, int) -> Id)
    ensures CategoryPlan(categories[..0], importId) == map[]
    ensures PlannedParents(categories, [], importId) == CategoryPlan(categories, importId)
  {}

  /** Every planned id comes from a category or from a discussion. */
  lemma {:induction false} CategoryOrigin(categories: seq<CategoryRow>, importId: (Kind, int) -> Id, id: Id)
      returns (r: CategoryRow)
    requires id in CategoryPlan(categories, importId)
    ensures r in categories && id == importId(CategoryTopic, r.categoryId)
  {
    r := categories[|categories| - 1];
    if id != importId(CategoryTopic, r.categoryId) {
      r := CategoryOrigin(categories[..|categories| - 1], importId, id);
    }
  }

  lemma {:induction false} PlannedOrigin(categories: seq<CategoryRow>, discussions: seq<DiscussionRow>,
                                         importId: (Kind, int) -> Id, id: Id)
    requires id in PlannedParents(categories, discussions, importId)
    ensures id in CategoryPlan(categories, importId)
            || exists d :: d in discussions && id == importId(DiscussionTopic, d.discussionId)
  {
    if discussions != [] {
      var last := discussions[|discussions| - 1];
      if id != importId(DiscussionTopic, last.discussionId) {
        PlannedOrigin(categories, discussions[..|discussions| - 1], importId, id);
      }
    }
  }

  lemma PlanOneCategory(categories: seq<CategoryRow>, i: nat, importId: (Kind, int) -> Id)
    requires DistinctCategories(categories) && Collisionless(importId) && i < |categories|
    ensures var id := importId(CategoryTopic, categories[i].categoryId);
            && id !in CategoryPlan(categories[..i], importId)
            && CategoryPlan(categories[..i + 1], importId)
               == CategoryPlan(categories[..i], importId)[id := CategoryParent(categories[i], importId)]
  {
    assert categories[..i + 1][..i] == categories[..i];
    var id := importId(CategoryTopic, categories[i].categoryId);
    if id in CategoryPlan(categories[..i], importId) {
      var r := CategoryOrigin(categories[..i], importId, id);
      NotSeenBefore(categories, i);
    }
  }

  lemma PlanOneDiscussion(categories: seq<CategoryRow>, discussions: seq<DiscussionRow>, i: nat, importId: (Kind, int) -> Id)
    requires DistinctDiscussions(discussions) && Collisionless(importId) && i < |discussions|
    ensures var id := importId(DiscussionTopic, discussions[i].discussionId);
            && id !in PlannedParents(categories, discussions[..i], importId)
            && PlannedParents(categories, discussions[..i + 1], importId)
               == PlannedParents(categories, discussions[..i], importId)
                    [id := Some(importId(CategoryTopic, discussions[i].categoryId))]
  {
    assert discussions[..i + 1][..i] == discussions[..i];
    var id := importId(DiscussionTopic, discussions[i].discussionId);
    if id in PlannedParents(categories, discussions[..i], importId) {
      PlannedOrigin(categories, discussions[..i], importId, id);
      if id in CategoryPlan(categories, importId) {
        var r := CategoryOrigin(categories, importId, id);
      }
    }
  }

  /** On a closed selection, the excluded-parent error cannot occur. */
  lemma ExcludedParentUnreachable(categories: seq<CategoryRow>)
    requires ClosedSelection(categories)
    ensures forall r :: r in categories ==> ParentNumber(r) == ROOT_CATEGORY || HasCategory(categories, ParentNumber(r))
  {
    forall r | r in categories ensures ParentNumber(r) == ROOT_CATEGORY || HasCategory(categories, ParentNumber(r)) {
      if r.parentCategoryId != Some(ROOT_CATEGORY) {
        var p :| p in categories && Some(p.categoryId) == r.parentCategoryId;
      }
    }
  }

  lemma {:induction false} CategoryPlanned(categories: seq<CategoryRow>, importId: (Kind, int) -> Id, r: CategoryRow)
    requires DistinctCategories(categories) && Collisionless(importId) && r in categories
    ensures importId(CategoryTopic, r.categoryId) in CategoryPlan(categories, importId)
    ensures CategoryPlan(categories, importId)[importId(CategoryTopic, r.categoryId)] == CategoryParent(r, importId)
  {
    var n := |categories| - 1;
    assert categories == categories[..n] + [categories[n]];
    NotSeenBefore(categories, n);
    if r != categories[n] {
      CategoryPlanned(categories[..n], importId, r);
      assert r in categories[..n];
    }
  }

  lemma {:induction false} CategoryStaysPlanned(categories: seq<CategoryRow>, discussions: seq<DiscussionRow>,
                                                importId: (Kind, int) -> Id, r: CategoryRow)
    requires DistinctCategories(categories) && Collisionless(importId) && r in categories
    ensures var id := importId(CategoryTopic, r.categoryId);
            && id in PlannedParents(categories, discussions, importId)
            && PlannedParents(categories, discussions, importId)[id] == CategoryParent(r, importId)
  {
    hide CategoryPlan, CategoryParent;
    if discussions == [] {
      CategoryPlanned(categories, importId, r);
    } else {
      CategoryStaysPlanned(categories, discussions[..|discussions| - 1], importId, r);
    }
  }

  lemma {:induction false} DiscussionPlanned(categories: seq<CategoryRow>, discussions: seq<DiscussionRow>,
                                             importId: (Kind, int) -> Id, d: DiscussionRow)
    requires DistinctDiscussions(discussions) && Collisionless(importId) && d in discussions
    ensures var id := importId(DiscussionTopic, d.discussionId);
            && id in PlannedParents(categories, discussions, importId)
            && PlannedParents(categories, discussions, importId)[id] == Some(importId(CategoryTopic, d.categoryId))
  {
    hide CategoryPlan;
    var n := |discussions| - 1;
    assert discussions == discussions[..n] + [discussions[n]];
    if d != discussions[n] {
      DiscussionPlanned(categories, discussions[..n], importId, d);
      var i :| 0 <= i < n && discussions[i] == d;
      assert discussions[i].discussionId != discussions[n].discussionId;
    }
  }

  /** The planned topics, row by row. A category becomes a root if its parent column names the source's root, and otherwise goes
  under the topic of the category named there, a missing column naming category 0; a discussion goes under the topic of its
  category. Nothing else is planned. */
  lemma PlannedMeans(categories: seq<CategoryRow>, discussions: seq<DiscussionRow>, importId: (Kind, int) -> Id)
    requires DistinctCategories(categories) && DistinctDiscussions(discussions) && Collisionless(importId)
    ensures var parents := PlannedParents(categories, discussions, importId);
            && (forall r :: r in categories ==>
                  && importId(CategoryTopic, r.categoryId) in parents
                  && parents[importId(CategoryTopic, r.categoryId)] ==
                     match r.parentCategoryId
                     case Some(p) => if p == -1 then None else Some(importId(CategoryTopic, p))
                     case None => Some(importId(CategoryTopic, 0)))
            && (forall d :: d in discussions ==>
                  && importId(DiscussionTopic, d.discussionId) in parents
                  && parents[importId(DiscussionTopic, d.discussionId)] == Some(importId(CategoryTopic, d.categoryId)))
            && (forall id :: id in parents ==>
                  || (exists r :: r in categories && id == importId(CategoryTopic, r.categoryId))
                  || exists d :: d in discussions && id == importId(DiscussionTopic, d.discussionId))
  {
    hide PlannedParents, CategoryPlan, DistinctCategories, DistinctDiscussions, Collisionless;
    var parents := PlannedParents(categories, discussions, importId);
    forall r | r in categories
      ensures importId(CategoryTopic, r.categoryId) in parents
              && parents[importId(CategoryTopic, r.categoryId)] == CategoryParent(r, importId)
    {
      CategoryStaysPlanned(categories, discussions, importId, r);
    }
    forall d | d in discussions
      ensures importId(DiscussionTopic, d.discussionId) in parents
              && parents[importId(DiscussionTopic, d.discussionId)] == Some(importId(CategoryTopic, d.categoryId))
    {
      DiscussionPlanned(categories, discussions, importId, d);
    }
    forall id | id in parents
      ensures (exists r :: r in categories && id == importId(CategoryTopic, r.categoryId))
              || exists d :: d in discussions && id == importId(DiscussionTopic, d.discussionId)
    {
      PlannedOrigin(categories, discussions, importId, id);
      if id in CategoryPlan(categories, importId) {
        var r := CategoryOrigin(categories, importId, id);
      }
    }
  }

  /** In the plan, a category's walk is its walk among the selected categories. */
  lemma {:induction false} PlannedClimb(categories: seq<CategoryRow>, importId: (Kind, int) -> Id, r: CategoryRow, k: nat)
    requires ClosedSelection(categories) && Collisionless(importId) && r in categories
    ensures Climb(CategoryPlan(categories, importId), importId(CategoryTopic, r.categoryId), k) ==
            match Climb(SelectedLinks(categories), r.categoryId, k)
            case Some(m) => Some(importId(CategoryTopic, m))
            case None => None
    decreases k
  {
    hide Acyclic, CategoryPlan;
    CategoryPlanned(categories, importId, r);
    if k > 0 && r.parentCategoryId != Some(ROOT_CATEGORY) {
      var p :| p in categories && Some(p.categoryId) == r.parentCategoryId;
      PlannedClimb(categories, importId, p, k - 1);
    }
  }

  lemma CategoryPlanSound(categories: seq<CategoryRow>, importId: (Kind, int) -> Id)
    requires ClosedSelection(categories) && Collisionless(importId)
    ensures Sound(CategoryPlan(categories, importId))
  {
    hide ClosedSelection, CategoryPlan;
    var planned := CategoryPlan(categories, importId);
    forall id | id in planned ensures planned[id].Some? ==> planned[id].value in planned {
      CategoryParentPlanned(categories, importId, id);
    }
    forall id, k: nat | k > 0 ensures Climb(planned, id, k) != Some(id) {
      if Climb(planned, id, k).Some? {
        ClimbStored(planned, id, k);
        CategoryNotOwnAncestor(categories, importId, id, k);
      }
    }
  }

  lemma CategoryParentPlanned(categories: seq<CategoryRow>, importId: (Kind, int) -> Id, id: Id)
    requires ClosedSelection(categories) && Collisionless(importId) && id in CategoryPlan(categories, importId)
    ensures var planned := CategoryPlan(categories, importId); planned[id].Some? ==> planned[id].value in planned
  {
    hide Acyclic, CategoryPlan;
    var r := CategoryOrigin(categories, importId, id);
    CategoryPlanned(categories, importId, r);
    if r.parentCategoryId != Some(ROOT_CATEGORY) {
      var p :| p in categories && Some(p.categoryId) == r.parentCategoryId;
      CategoryPlanned(categories, importId, p);
    }
  }

  lemma CategoryNotOwnAncestor(categories: seq<CategoryRow>, importId: (Kind, int) -> Id, id: Id, k: nat)
    requires ClosedSelection(categories) && Collisionless(importId) && id in CategoryPlan(categories, importId) && k > 0
    ensures Climb(CategoryPlan(categories, importId), id, k) != Some(id)
  {
    hide CategoryPlan, SelectedLinks;
    var r := CategoryOrigin(categories, importId, id);
    PlannedClimb(categories, importId, r, k);
  }

  lemma {:induction false} DiscussionsKeepCategories(categories: seq<CategoryRow>, discussions: seq<DiscussionRow>,
                                                     importId: (Kind, int) -> Id)
    ensures CategoryPlan(categories, importId).Keys <= PlannedParents(categories, discussions, importId).Keys
  {
    if discussions != [] {
      DiscussionsKeepCategories(categories, discussions[..|discussions| - 1], importId);
    }
  }

  /** The plan of a closed selection is sound: every parent is planned and no topic is its own ancestor. */
  lemma {:induction false} PlanIsSound(categories: seq<CategoryRow>, discussions: seq<DiscussionRow>, importId: (Kind, int) -> Id)
    requires ClosedSelection(categories) && DistinctDiscussions(discussions) && Collisionless(importId)
    requires forall d :: d in discussions ==> HasCategory(categories, d.categoryId)
    ensures Sound(PlannedParents(categories, discussions, importId))
  {
    hide Sound, CategoryPlan, SelectedLinks;
    if discussions == [] {
      CategoryPlanSound(categories, importId);
    } else {
      var n := |discussions| - 1;
      assert discussions == discussions[..n] + [discussions[n]];
      PlanIsSound(categories, discussions[..n], importId);
      PlanOneDiscussion(categories, discussions, n, importId);
      assert discussions[..n + 1] == discussions;
      assert discussions[n] in discussions;
      DiscussionsKeepCategories(categories, discussions[..n], importId);
      var r :| r in categories && r.categoryId == discussions[n].categoryId;
      CategoryPlanned(categories, importId, r);
      SoundExtend(PlannedParents(categories, discussions[..n], importId),
                  importId(DiscussionTopic, discussions[n].discussionId),
                  Some(importId(CategoryTopic, discussions[n].categoryId)));
    }
  }

  // ----- the batch index

  /** The index rows of one topic up to a depth, and of everything before it. */
  ghost predicate Emitted(parents: Links<Id>, done: seq<Id>, id: Id, depth: nat, entries: seq<ClosureRow>) {
    && Distinct(entries)
    && forall r :: r in entries <==>
         && Climb(parents, r.descendantTopicId, r.depth) == Some(r.ancestorTopicId)
         && (r.descendantTopicId in done || (r.descendantTopicId == id && r.depth < depth))
  }

  /** Walks up from every planned topic, with no guard against cycles, and emits one row per ancestor. */
  method PlanClosure(plan: TopicPlan) returns (entries: seq<ClosureRow>)
    requires PlanOk(plan)
    ensures Distinct(entries) && ClosureExact(plan.parents, Elements(entries))
  {
    hide Emitted, Climb, Sound;
    entries := [];
    if plan.order != [] { NothingEmitted(plan.parents, plan.order[0]); }
    for i := 0 to |plan.order|
      invariant i < |plan.order| ==> Emitted(plan.parents, plan.order[..i], plan.order[i], 0, entries)
      invariant i == |plan.order| ==> i == 0 || EmittedAll(plan.parents, plan.order, entries)
      invariant i == |plan.order| == 0 ==> entries == []
    {
      var id := plan.order[i];
      var ancestor := Some(id);
      var depth := 0;
      assert id in plan.order;
      SoundIsRooted(plan.parents, id);
      WalkHere(plan.parents, id);
      while ancestor.Some?
        invariant ancestor == Climb(plan.parents, id, depth)
        invariant Emitted(plan.parents, plan.order[..i], id, depth, entries)
        invariant ancestor.Some? ==> depth <= Height(plan.parents, id)
        decreases Height(plan.parents, id) + 1 - depth, ancestor.Some?
      {
        EmitOne(plan.parents, plan.order, i, depth, entries);
        NextAncestor(plan.parents, id, depth);
        entries := entries + [ClosureRow(ancestor.value, id, depth)];
        ancestor := plan.parents[ancestor.value];
        depth := depth + 1;
      }
      TopicDone(plan.parents, plan.order, i, depth, entries);
    }
    AllEmitted(plan, entries);
  }

  ghost predicate EmittedAll(parents: Links<Id>, order: seq<Id>, entries: seq<ClosureRow>) {
    && Distinct(entries)
    && forall r :: r in entries <==>
         Climb(parents, r.descendantTopicId, r.depth) == Some(r.ancestorTopicId) && r.descendantTopicId in order
  }

  lemma NothingEmitted(parents: Links<Id>, id: Id)
    ensures Emitted(parents, [], id, 0, [])
  {}

  lemma WalkHere(parents: Links<Id>, id: Id)
    requires id in parents
    ensures Climb(parents, id, 0) == Some(id)
  {}

  lemma EmitOne(parents: Links<Id>, order: seq<Id>, i: nat, depth: nat, entries: seq<ClosureRow>)
    requires Distinct(order) && i < |order| && Emitted(parents, order[..i], order[i], depth, entries)
    requires Climb(parents, order[i], depth).Some?
    ensures Emitted(parents, order[..i], order[i], depth + 1,
                    entries + [ClosureRow(Climb(parents, order[i], depth).value, order[i], depth)])
  {
    hide Climb;
    var row := ClosureRow(Climb(parents, order[i], depth).value, order[i], depth);
    assert order[i] !in order[..i];
    assert row !in entries;
  }

  /** The next ancestor is one hop further; a rooted walk is over after its root. */
  lemma NextAncestor(parents: Links<Id>, id: Id, depth: nat)
    requires Sound(parents) && Rooted(parents, id) && Climb(parents, id, depth).Some?
    ensures Climb(parents, id, depth).value in parents
    ensures parents[Climb(parents, id, depth).value] == Climb(parents, id, depth + 1)
    ensures Climb(parents, id, depth + 1).Some? ==> depth + 1 <= Height(parents, id)
  {
    ClimbStored(parents, id, depth);
    ClimbNext(parents, id, depth);
    assert depth + 1 >= |Chain(parents, id)| ==> Climb(parents, id, depth + 1).None?;
  }

  lemma TopicDone(parents: Links<Id>, order: seq<Id>, i: nat, depth: nat, entries: seq<ClosureRow>)
    requires i < |order| && Emitted(parents, order[..i], order[i], depth, entries)
    requires Climb(parents, order[i], depth).None?
    ensures i + 1 < |order| ==> Emitted(parents, order[..i + 1], order[i + 1], 0, entries)
    ensures i + 1 == |order| ==> EmittedAll(parents, order, entries)
  {
    assert order[..i + 1] == order[..i] + [order[i]];
    if i + 1 == |order| { assert order[..i + 1] == order; }
    forall k: nat | k >= depth ensures Climb(parents, order[i], k).None? {
      if Climb(parents, order[i], k).Some? { ClimbPrefix(parents, order[i], depth, k); }
    }
  }

  lemma AllEmitted(plan: TopicPlan, entries: seq<ClosureRow>)
    requires PlanOk(plan)
    requires if plan.order == [] then entries == [] else EmittedAll(plan.parents, plan.order, entries)
    ensures Distinct(entries) && ClosureExact(plan.parents, Elements(entries))
  {
    forall a, d, k: nat ensures ClosureRow(a, d, k) in Elements(entries) <==> Climb(plan.parents, d, k) == Some(a) {
      ClimbStored(plan.parents, d, k);
    }
  }

  /** The same topics, inserted one by one with the rows a command transaction would create. */
  ghost function InsertedRows(order: seq<Id>, parents: Links<Id>): set<ClosureRow> {
    if order == [] then {}
    else
      var id := order[|order| - 1];
      var before := InsertedRows(order[..|order| - 1], parents);
      before + NewRows(before, id, if id in parents then parents[id] else None)
  }

  ghost predicate ParentFirst(order: seq<Id>, parents: Links<Id>) {
    && Distinct(order)
    && forall i :: 0 <= i < |order| ==>
         order[i] in parents && (parents[order[i]].Some? ==> parents[order[i]].value in order[..i])
  }

  ghost function Restricted(order: seq<Id>, parents: Links<Id>): Links<Id> {
    map id | id in order && id in parents :: parents[id]
  }

  lemma {:induction false} InsertionIsExact(order: seq<Id>, parents: Links<Id>)
    requires ParentFirst(order, parents)
    ensures Sound(Restricted(order, parents))
    ensures ClosureExact(Restricted(order, parents), InsertedRows(order, parents))
  {
    hide Sound, ClosureExact, NewRows, Restricted, ParentFirst;
    if order == [] {
      NothingInserted(parents);
    } else {
      var n := |order| - 1;
      ParentFirstPrefix(order, parents);
      InsertionIsExact(order[..n], parents);
      RestrictOne(order, parents);
      InsertOneIsExact(Restricted(order[..n], parents), InsertedRows(order[..n], parents), order[n], parents[order[n]]);
    }
  }

  lemma InsertOneIsExact(up: Links<Id>, rows: set<ClosureRow>, id: Id, parent: Option<Id>)
    requires Sound(up) && ClosureExact(up, rows) && id !in up && (parent.Some? ==> parent.value in up)
    ensures Sound(up[id := parent]) && ClosureExact(up[id := parent], rows + NewRows(rows, id, parent))
  {
    SoundExtend(up, id, parent);
    ClosureInsert(up, rows, id, parent);
  }

  lemma NothingInserted(parents: Links<Id>)
    ensures Sound(Restricted([], parents)) && ClosureExact(Restricted([], parents), {})
  {
    assert forall d: Id, k: nat :: Climb(Restricted([], parents), d, k) == None;
  }

  lemma RestrictOne(order: seq<Id>, parents: Links<Id>)
    requires ParentFirst(order, parents) && order != []
    ensures var n := |order| - 1;
            && order[n] in parents && order[n] !in Restricted(order[..n], parents)
            && Restricted(order, parents) == Restricted(order[..n], parents)[order[n] := parents[order[n]]]
            && (parents[order[n]].Some? ==> parents[order[n]].value in Restricted(order[..n], parents))
  {
    var n := |order| - 1;
    assert order == order[..n] + [order[n]];
    ParentFirstPrefix(order, parents);
  }

  lemma ParentFirstPrefix(order: seq<Id>, parents: Links<Id>)
    requires ParentFirst(order, parents) && order != []
    ensures ParentFirst(order[..|order| - 1], parents)
    ensures var id := order[|order| - 1];
            parents[id].Some? ==> parents[id].value in order[..|order| - 1] && parents[id].value in parents
  {
    var init := order[..|order| - 1];
    forall i | 0 <= i < |init| ensures init[i] in parents && (parents[init[i]].Some? ==> parents[init[i]].value in init[..i]) {
      assert init[i] == order[i] && init[..i] == order[..i];
    }
    var id := order[|order| - 1];
    if parents[id].Some? {
      var j :| 0 <= j < |init| && init[j] == parents[id].value;
      assert order[j] in parents;
    }
  }

  /** The batch computation and one-by-one insertion produce the same index, in whatever parent-first order the
  topics are inserted. */
  lemma BatchIsIncremental(plan: TopicPlan, entries: seq<ClosureRow>, order: seq<Id>)
    requires PlanOk(plan) && ClosureExact(plan.parents, Elements(entries))
    requires ParentFirst(order, plan.parents) && forall id :: id in order <==> id in plan.parents
    ensures InsertedRows(order, plan.parents) == Elements(entries)
  {
    hide Sound, Climb;
    InsertionIsExact(order, plan.parents);
    assert Restricted(order, plan.parents) == plan.parents;
    forall r ensures r in InsertedRows(order, plan.parents) <==> r in Elements(entries) {
      assert r == ClosureRow(r.ancestorTopicId, r.descendantTopicId, r.depth);
    }
  }

  // ----- from the inventory to the index

  /** How far a topic is from its root. */
  ghost function Distance(parents: Links<Id>, a: Id): nat {
    if Rooted(parents, a) then Height(parents, a) else 0
  }

  lemma ChildIsFurther(parents: Links<Id>, id: Id)
    requires Sound(parents) && id in parents && parents[id].Some?
    ensures parents[id].value in parents && Distance(parents, parents[id].value) < Distance(parents, id)
  {
    var up := parents[id].value;
    SoundIsRooted(parents, id);
    SoundIsRooted(parents, up);
    hide Sound;
    assert RootAt(parents, id, Height(parents, up) + 1);
    HeightIs(parents, id, Height(parents, up) + 1);
  }

  /** Every sound plan can be inserted parents first. */
  lemma ParentFirstOrder(plan: TopicPlan) returns (order: seq<Id>)
    requires PlanOk(plan)
    ensures ParentFirst(order, plan.parents) && forall id :: id in order <==> id in plan.parents
  {
    var nearer := (a: Id, b: Id) => Distance(plan.parents, a) <= Distance(plan.parents, b);
    order := Sort(nearer, plan.order);
    hide Distance, Sound, Sort;
    SortSorted(nearer, plan.order);
    SortElements(nearer, plan.order);
    SortDistinct(nearer, plan.order);
    forall i | 0 <= i < |order| && plan.parents[order[i]].Some? ensures plan.parents[order[i]].value in order[..i] {
      ChildIsFurther(plan.parents, order[i]);
      var j :| 0 <= j < |order| && order[j] == plan.parents[order[i]].value;
      assert !nearer(order[i], order[j]);
      assert j < i;
      assert order[..i][j] == order[j];
    }
  }

  /** Selection, topics and index together. The plan fails exactly on a broken inventory, or on a discussion of a category
  that was not selected. Otherwise its parents are stored and acyclic, and its index rows, each written once, are those the
  command service would have written for the same topics, inserted parents first. */
  method PlanPublicTopics(rows: seq<CategoryRow>, discussions: seq<DiscussionRow>, importId: (Kind, int) -> Id)
      returns (plan: Result<(TopicPlan, seq<ClosureRow>), PlanError>, ghost categories: seq<CategoryRow>, ghost order: seq<Id>)
    requires DistinctCategories(rows) && DistinctDiscussions(discussions) && Collisionless(importId)
    ensures plan.Err? <==>
              || (exists r :: r in rows && Broken(TableOf(rows), r))
              || (exists d :: d in discussions && !InPublished(rows, d.categoryId))
    ensures plan.Err? ==>
              || (plan.error == ExcludedCategory && exists d :: d in discussions && !InPublished(rows, d.categoryId))
              || exists r :: r in rows && Broken(TableOf(rows), r) && WalkFails(TableOf(rows), r.categoryId, plan.error)
    ensures plan.Ok? ==>
              var topics, entries := plan.value.0, plan.value.1;
              && (forall r :: r in categories <==> r in rows && Published(TableOf(rows), r))
              && topics.parents == PlannedParents(categories, discussions, importId)
              && PlanOk(topics) && Distinct(entries) && ClosureExact(topics.parents, Elements(entries))
              && ParentFirst(order, topics.parents) && (forall id :: id in order <==> id in topics.parents)
              && InsertedRows(order, topics.parents) == Elements(entries)
  {
    hide Broken, Published, TableOf, HasCategory, ClosedSelection, PlannedParents, PlanOk, ParentFirst, ClosureExact, Collisionless,
         DistinctCategories, DistinctDiscussions, Elements, InsertedRows, InPublished, WalkFails;
    categories, order := [], [];
    var selected := PublicCategories(rows);
    if selected.Err? {
      return Err(selected.error), categories, order;
    }
    categories := selected.value;
    SelectionIsClosed(rows, categories);
    ClosedIsDistinct(categories);
    ExcludedParentUnreachable(categories);
    SelectedMeans(rows, categories, discussions);
    var topics := PlanTopics(selected.value, discussions, importId);
    if topics.Err? {
      return Err(topics.error), categories, order;
    }
    PlanIsSound(categories, discussions, importId);
    PlanOkIntro(topics.value);
    var entries := PlanClosure(topics.value);
    order := ParentFirstOrder(topics.value);
    BatchIsIncremental(topics.value, entries, order);
    return Ok((topics.value, entries)), categories, order;
  }

  /** The category is among those published. */
  ghost predicate InPublished(rows: seq<CategoryRow>, id: int)
    requires DistinctCategories(rows)
  {
    exists r :: r in rows && Published(TableOf(rows), r) && r.categoryId == id
  }

  lemma SelectedMeans(rows: seq<CategoryRow>, selected: seq<CategoryRow>, discussions: seq<DiscussionRow>)
    requires DistinctCategories(rows) && forall r :: r in selected <==> r in rows && Published(TableOf(rows), r)
    ensures forall d :: d in discussions ==> (HasCategory(selected, d.categoryId) <==> InPublished(rows, d.categoryId))
  {
    hide Published, TableOf;
  }

  lemma ClosedIsDistinct(selected: seq<CategoryRow>)
    requires ClosedSelection(selected)
    ensures DistinctCategories(selected)
  {}

  lemma PlanOkIntro(plan: TopicPlan)
    requires Distinct(plan.order) && (forall id :: id in plan.order <==> id in plan.parents) && Sound(plan.parents)
    ensures PlanOk(plan)
  {}

  // ----- comments

  datatype CommentRow = CommentRow(commentId: int, discussionId: int, parentCommentId: int)

  type Comments = map<int, CommentRow>

  ghost predicate DistinctComments(rows: seq<CommentRow>) {
    forall i, j :: 0 <= i < j < |rows| ==> rows[i].commentId != rows[j].commentId
  }

  ghost function CommentTable(rows: seq<CommentRow>): Comments
    requires DistinctComments(rows)
  {
    map r | r in rows :: r.commentId := r
  }

  /** Where the cycle guard walks: to any stored row the parent column names, whatever its sign. */
  ghost function GuardLinks(byId: Comments): Links<int> {
    map id | id in byId :: if byId[id].parentCommentId in byId then Some(byId[id].parentCommentId) else None
  }

  /** Where the imported post hangs: only a positive parent column makes it a reply. */
  ghost function ReplyLinks(byId: Comments): Links<int> {
    map id | id in byId :: if byId[id].parentCommentId > 0 then Some(byId[id].parentCommentId) else None
  }

  /** What the planner demands of one comment. */
  ghost predicate CommentOk(byId: Comments, discussions: set<int>, r: CommentRow) {
    && r.discussionId in discussions
    && (r.parentCommentId > 0 ==>
          && r.parentCommentId in byId && byId[r.parentCommentId].discussionId == r.discussionId
          && Rooted(GuardLinks(byId), r.commentId))
  }

  /** The cycle guard: walks up from a reply's parent until the chain ends or comes back to a comment seen. */
  method GuardAgainstCycle(byId: Comments, row: CommentRow) returns (clean: bool)
    requires row.commentId in byId && byId[row.commentId] == row && row.parentCommentId in byId
    requires forall id :: id in byId ==> byId[id].commentId == id
    ensures clean <==> Rooted(GuardLinks(byId), row.commentId)
  {
    hide Rooted, RootAt, GuardLinks, Climb, WalkSet, BelowCycle;
    ghost var up := GuardLinks(byId);
    ghost var id := row.commentId;
    ghost var k := 1;
    var seen := {row.commentId};
    var ancestor := Some(row.parentCommentId);
    GuardStarts(byId, id);
    while ancestor.Some?
      invariant ancestor == Climb(up, id, k) && (ancestor.Some? ==> ancestor.value in byId)
      invariant k > 0 && seen == WalkSet(up, id, k) && seen <= byId.Keys
      invariant Climb(up, id, k - 1).Some?
      decreases byId.Keys - seen, ancestor.Some?
    {
      if ancestor.value in seen {
        GuardCycle(byId, id, k, ancestor.value);
        return false;
      }
      GuardStep(byId, id, k, ancestor.value);
      seen := seen + {ancestor.value};
      var next := byId[ancestor.value].parentCommentId;
      ancestor := if next in byId then Some(next) else None;
      k := k + 1;
    }
    GuardEnds(byId, id, k);
    return true;
  }

  lemma GuardStarts(byId: Comments, id: int)
    requires id in byId && byId[id].parentCommentId in byId
    ensures var up := GuardLinks(byId);
            && Climb(up, id, 0) == Some(id) && Climb(up, id, 1) == Some(byId[id].parentCommentId)
            && WalkSet(up, id, 1) == {id}
  {
    ClimbNext(GuardLinks(byId), id, 0);
  }

  lemma GuardStep(byId: Comments, id: int, k: nat, here: int)
    requires Climb(GuardLinks(byId), id, k) == Some(here) && here in byId
    ensures var up := GuardLinks(byId);
            && WalkSet(up, id, k + 1) == WalkSet(up, id, k) + {here}
            && Climb(up, id, k + 1) == if byId[here].parentCommentId in byId then Some(byId[here].parentCommentId) else None
  {
    ClimbNext(GuardLinks(byId), id, k);
  }

  lemma GuardCycle(byId: Comments, id: int, k: nat, here: int)
    requires id in byId && Climb(GuardLinks(byId), id, k) == Some(here) && here in WalkSet(GuardLinks(byId), id, k)
    ensures !Rooted(GuardLinks(byId), id)
  {
    var up := GuardLinks(byId);
    var i := WalkSetMember(up, id, k, here);
    RepeatIsCycle(up, id, i, k);
    RootedOrCycle(up, id);
  }

  lemma GuardEnds(byId: Comments, id: int, k: nat)
    requires k > 0 && Climb(GuardLinks(byId), id, k).None? && Climb(GuardLinks(byId), id, k - 1).Some?
    ensures Rooted(GuardLinks(byId), id)
  {
    var up := GuardLinks(byId);
    ClimbNext(up, id, k - 1);
    ClimbStored(up, id, k - 1);
    assert RootAt(up, id, k - 1);
  }

  /** The comment answers another one: its parent column is positive. */
  ghost predicate Answers(comments: seq<CommentRow>, r: CommentRow, parent: CommentRow) {
    r.parentCommentId > 0 && parent in comments && parent.commentId == r.parentCommentId
  }

  /** What is wrong with a comment: it belongs to no planned discussion; it is a reply, but to no comment of its own discussion;
  or it is a reply whose parent columns lead in a circle. */
  ghost predicate Complaint(discussions: set<int>, comments: seq<CommentRow>, r: CommentRow, error: PlanError)
    requires DistinctComments(comments)
  {
    match error
    case OrphanComment => r.discussionId !in discussions
    case InvalidReplyParent => r.parentCommentId > 0 && !exists p :: Answers(comments, r, p) && p.discussionId == r.discussionId
    case ReplyCycle => r.parentCommentId > 0 && BelowCycle(GuardLinks(CommentTable(comments)), r.commentId)
    case _ => false
  }

  /** The guard's links: a comment leads to the stored comment its parent column names, if there is one. */
  lemma GuardLinksMean(comments: seq<CommentRow>, r: CommentRow)
    requires DistinctComments(comments) && r in comments
    ensures var up := GuardLinks(CommentTable(comments));
            && r.commentId in up
            && (up[r.commentId].Some? <==> exists p :: p in comments && p.commentId == r.parentCommentId)
            && (up[r.commentId].Some? ==> up[r.commentId] == Some(r.parentCommentId))
  {
    CommentTableMeans(comments);
  }

  lemma CommentTableMeans(comments: seq<CommentRow>)
    requires DistinctComments(comments)
    ensures forall id :: id in CommentTable(comments) <==> exists p :: p in comments && p.commentId == id
    ensures forall r :: r in comments ==> CommentTable(comments)[r.commentId] == r
    ensures forall id :: id in CommentTable(comments) ==>
              CommentTable(comments)[id] in comments && CommentTable(comments)[id].commentId == id
  {}

  /** A comment is fine exactly if nothing is wrong with it. */
  lemma OkWithoutComplaint(discussions: set<int>, comments: seq<CommentRow>, r: CommentRow)
    requires DistinctComments(comments) && r in comments
    ensures CommentOk(CommentTable(comments), discussions, r) <==>
              && !Complaint(discussions, comments, r, OrphanComment)
              && !Complaint(discussions, comments, r, InvalidReplyParent)
              && !Complaint(discussions, comments, r, ReplyCycle)
  {
    hide Rooted, BelowCycle, CommentTable;
    var byId := CommentTable(comments);
    CommentTableMeans(comments);
    RootedOrCycle(GuardLinks(byId), r.commentId);
    if r.parentCommentId in byId {
      assert Answers(comments, r, byId[r.parentCommentId]) <==> r.parentCommentId > 0;
    }
  }

  /** What each refusal of the validation finds. */
  lemma Refusals(discussions: set<int>, comments: seq<CommentRow>, r: CommentRow)
    requires DistinctComments(comments) && r in comments
    ensures r.discussionId !in discussions ==> Complaint(discussions, comments, r, OrphanComment)
    ensures r.parentCommentId > 0
            && (r.parentCommentId !in CommentTable(comments)
                || CommentTable(comments)[r.parentCommentId].discussionId != r.discussionId) ==>
              Complaint(discussions, comments, r, InvalidReplyParent)
    ensures r.parentCommentId > 0 && !Rooted(GuardLinks(CommentTable(comments)), r.commentId) ==>
              Complaint(discussions, comments, r, ReplyCycle)
  {
    hide Rooted, BelowCycle, CommentTable;
    CommentTableMeans(comments);
    RootedOrCycle(GuardLinks(CommentTable(comments)), r.commentId);
  }

  /** Validates all comments of the snapshot, in order; the first one with something wrong ends it. */
  method PlanComments(discussions: set<int>, comments: seq<CommentRow>) returns (error: Option<PlanError>)
    requires DistinctComments(comments)
    ensures error.None? <==> forall r :: r in comments ==> CommentOk(CommentTable(comments), discussions, r)
    ensures error.Some? ==> exists i ::
              && 0 <= i < |comments| && Complaint(discussions, comments, comments[i], error.value)
              && forall j :: 0 <= j < i ==> CommentOk(CommentTable(comments), discussions, comments[j])
  {
    hide Rooted, GuardLinks, Complaint;
    var byId := map r | r in comments :: r.commentId := r;
    assert byId == CommentTable(comments);
    for i := 0 to |comments|
      invariant forall r :: r in comments[..i] ==> CommentOk(byId, discussions, r)
    {
      var comment := comments[i];
      assert comment in comments;
      assert comments[..i + 1] == comments[..i] + [comment];
      assert forall j :: 0 <= j < i ==> comments[j] in comments[..i];
      Refusals(discussions, comments, comment);
      if comment.discussionId !in discussions {
        return Some(OrphanComment);
      }
      if comment.parentCommentId > 0 {
        if comment.parentCommentId !in byId || byId[comment.parentCommentId].discussionId != comment.discussionId {
          return Some(InvalidReplyParent);
        }
        var clean := GuardAgainstCycle(byId, comment);
        if !clean {
          return Some(ReplyCycle);
        }
      }
    }
    assert comments[..|comments|] == comments;
    return None;
  }

  /** Accepted comments form sound reply links inside their discussions, so no imported thread loses a post. */
  lemma AcceptedRepliesAreSound(byId: Comments, discussions: set<int>)
    requires forall id :: id in byId ==> byId[id].commentId == id && CommentOk(byId, discussions, byId[id])
    ensures Sound(ReplyLinks(byId)) && ReplyLinks(byId).Keys == byId.Keys
    ensures forall id :: id in byId ==>
              && byId[id].discussionId in discussions
              && ReplyLinks(byId)[id] == (if byId[id].parentCommentId > 0 then Some(byId[id].parentCommentId) else None)
    ensures forall id :: id in byId && byId[id].parentCommentId > 0 ==>
              byId[id].parentCommentId in byId && byId[byId[id].parentCommentId].discussionId == byId[id].discussionId
  {
    hide Rooted, GuardLinks;
    var up := ReplyLinks(byId);
    forall d, k: nat | k > 0 ensures Climb(up, d, k) != Some(d) {
      if Climb(up, d, k) == Some(d) {
        ReplyHopsAreGuardHops(byId, discussions, d, k);
        NoGuardCycle(byId, d, k);
      }
    }
    forall d | d in up ensures up[d].Some? ==> up[d].value in up {
      assert CommentOk(byId, discussions, byId[d]);
    }
  }

  lemma {:induction false} ReplyHopsAreGuardHops(byId: Comments, discussions: set<int>, d: int, k: nat)
    requires forall id :: id in byId ==> byId[id].commentId == id && CommentOk(byId, discussions, byId[id])
    requires Climb(ReplyLinks(byId), d, k).Some?
    ensures Climb(GuardLinks(byId), d, k) == Climb(ReplyLinks(byId), d, k)
    ensures k > 0 ==> d in byId && Rooted(GuardLinks(byId), d)
    decreases k
  {
    hide Rooted;
    if k > 0 { ReplyHopsAreGuardHops(byId, discussions, byId[d].parentCommentId, k - 1); }
  }

  lemma NoGuardCycle(byId: Comments, d: int, k: nat)
    requires d in byId && k > 0 && Rooted(GuardLinks(byId), d)
    ensures Climb(GuardLinks(byId), d, k) != Some(d)
  {
    var up := GuardLinks(byId);
    RootedOrCycle(up, d);
    assert Climb(up, d, 0) == Some(d);
  }
}
