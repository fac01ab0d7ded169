/** Topic lists: visibility filtering with one policy decision per restriction signature, then pagination. */
module ListReads {
  import opened Basics

  /** What the restriction policy is asked about. */
  datatype VisibilityTarget = VisibilityTarget(
    topicId: Option<Id>, challengeId: Option<Id>, roleName: Option<Id>, hasRestrictionConflict: bool)

  datatype SummaryRow = SummaryRow(id: Id, challengeId: Option<Id>, roleName: Option<Id>)

  type Resolver = SummaryRow -> VisibilityTarget

  type Policy = VisibilityTarget -> bool

  function TextOr(value: Option<Id>): string {
    if value.Some? then value.value.text else ""
  }

  /** The cache key: the four parts joined by '|'. */
  function RestrictionSignature(target: VisibilityTarget): string {
    TextOr(target.topicId) + ("|" + (TextOr(target.challengeId) + ("|" + (TextOr(target.roleName)
    + ("|" + (if target.hasRestrictionConflict then "conflict" else "consistent"))))))
  }

  datatype Key = Key(text: string)

  function KeyOf(resolve: Resolver, row: SummaryRow): Key {
    Key(RestrictionSignature(resolve(row)))
  }

  /** The plain reading: keep the rows the policy allows, in order. */
  function Visible(resolve: Resolver, policy: Policy, rows: seq<SummaryRow>): seq<SummaryRow> {
    if rows == [] then []
    else
      var last := rows[|rows| - 1];
      Visible(resolve, policy, rows[..|rows| - 1]) + (if policy(resolve(last)) then [last] else [])
  }

  /** A list reads part by part. */
  lemma {:induction false} VisibleSplits(resolve: Resolver, policy: Policy, front: seq<SummaryRow>, back: seq<SummaryRow>)
    ensures Visible(resolve, policy, front + back) == Visible(resolve, policy, front) + Visible(resolve, policy, back)
  {
    if back == [] {
      assert front + back == front;
    } else {
      var n := |back| - 1;
      var all := front + back;
      VisibleSplits(resolve, policy, front, back[..n]);
      assert all[..|all| - 1] == front + back[..n] && all[|all| - 1] == back[n];
      VisibleLast(resolve, policy, all);
      VisibleLast(resolve, policy, back);
    }
  }

  lemma VisibleLast(resolve: Resolver, policy: Policy, rows: seq<SummaryRow>)
    requires rows != []
    ensures Visible(resolve, policy, rows) ==
            Visible(resolve, policy, rows[..|rows| - 1]) + (if policy(resolve(rows[|rows| - 1])) then [rows[|rows| - 1]] else [])
  {}

  /** A single row is shown exactly if the policy allows what it is asked about it. */
  lemma VisibleRow(resolve: Resolver, policy: Policy, row: SummaryRow)
    ensures Visible(resolve, policy, [row]) == if policy(resolve(row)) then [row] else []
  {
    assert [row][..0] == [];
  }

  /** The first row with the same key as row `i`. */
  ghost function FirstAlike(resolve: Resolver, rows: seq<SummaryRow>, i: nat): (k: nat)
    requires i < |rows|
    ensures k <= i
  {
    FirstFrom(resolve, rows, i, 0)
  }

  ghost function FirstFrom(resolve: Resolver, rows: seq<SummaryRow>, i: nat, from: nat): (k: nat)
    requires from <= i < |rows|
    ensures from <= k <= i
    decreases i - from
  {
    if KeyOf(resolve, rows[from]) == KeyOf(resolve, rows[i]) then from else FirstFrom(resolve, rows, i, from + 1)
  }

  lemma {:induction false} FirstFromIs(resolve: Resolver, rows: seq<SummaryRow>, i: nat, from: nat, j: nat)
    requires from <= i < |rows| && from <= j <= i && KeyOf(resolve, rows[j]) == KeyOf(resolve, rows[i])
    ensures KeyOf(resolve, rows[FirstFrom(resolve, rows, i, from)]) == KeyOf(resolve, rows[i])
    ensures FirstFrom(resolve, rows, i, from) <= j
    decreases i - from
  {
    hide KeyOf;
    if KeyOf(resolve, rows[from]) != KeyOf(resolve, rows[i]) {
      FirstFromIs(resolve, rows, i, from + 1, j);
    }
  }

  /** The first row alike has the same key, and no row before it does. */
  lemma FirstAlikeIs(resolve: Resolver, rows: seq<SummaryRow>, i: nat, j: nat)
    requires j <= i < |rows| && KeyOf(resolve, rows[j]) == KeyOf(resolve, rows[i])
    ensures KeyOf(resolve, rows[FirstAlike(resolve, rows, i)]) == KeyOf(resolve, rows[i])
    ensures FirstAlike(resolve, rows, i) <= j
  {
    hide KeyOf;
    FirstFromIs(resolve, rows, i, 0, j);
  }

  lemma SameFirst(resolve: Resolver, rows: seq<SummaryRow>, i: nat, j: nat)
    requires i < |rows| && j < |rows| && KeyOf(resolve, rows[i]) == KeyOf(resolve, rows[j])
    ensures FirstAlike(resolve, rows, i) == FirstAlike(resolve, rows, j)
  {
    hide KeyOf, FirstAlike;
    var a, b := FirstAlike(resolve, rows, i), FirstAlike(resolve, rows, j);
    FirstAlikeIs(resolve, rows, i, i);
    FirstAlikeIs(resolve, rows, j, j);
    if b <= i { FirstAlikeIs(resolve, rows, i, b); }
    if a <= j { FirstAlikeIs(resolve, rows, j, a); }
  }

  /** What the cache makes of it: each of the first `n` rows is judged by the target of the first row alike. */
  ghost function Cached(resolve: Resolver, policy: Policy, rows: seq<SummaryRow>, n: nat): seq<SummaryRow>
    requires n <= |rows|
  {
    if n == 0 then []
    else Cached(resolve, policy, rows, n - 1)
         + (if policy(resolve(rows[FirstAlike(resolve, rows, n - 1)])) then [rows[n - 1]] else [])
  }

  // ----- the filter as it runs

  /** Each key met so far is stored with the target of the first row that has it. */
  ghost predicate Collected(resolve: Resolver, rows: seq<SummaryRow>, n: nat, targets: map<Key, VisibilityTarget>)
    requires n <= |rows|
  {
    forall i :: 0 <= i < n ==>
      && KeyOf(resolve, rows[i]) in targets
      && targets[KeyOf(resolve, rows[i])] == resolve(rows[FirstAlike(resolve, rows, i)])
  }

  /** Nothing else is stored. */
  ghost predicate OnlyMet(resolve: Resolver, rows: seq<SummaryRow>, n: nat, targets: map<Key, VisibilityTarget>)
    requires n <= |rows|
  {
    forall key :: key in targets ==> exists i :: 0 <= i < n && KeyOf(resolve, rows[i]) == key
  }

  lemma CollectStep(resolve: Resolver, rows: seq<SummaryRow>, n: nat, targets: map<Key, VisibilityTarget>)
    requires n < |rows| && Collected(resolve, rows, n, targets) && OnlyMet(resolve, rows, n, targets)
    ensures var key := KeyOf(resolve, rows[n]);
            var after := if key in targets then targets else targets[key := resolve(rows[n])];
            Collected(resolve, rows, n + 1, after) && OnlyMet(resolve, rows, n + 1, after)
  {
    hide KeyOf, FirstAlike, Collected, OnlyMet;
    var key := KeyOf(resolve, rows[n]);
    if key in targets {
      var i := MetAt(resolve, rows, n, targets, key);
      SameFirst(resolve, rows, i, n);
      CollectKnown(resolve, rows, n, targets, i);
    } else {
      FirstAlikeIs(resolve, rows, n, n);
      CollectFresh(resolve, rows, n, targets);
    }
    OnlyMetStep(resolve, rows, n, targets);
  }

  lemma MetAt(resolve: Resolver, rows: seq<SummaryRow>, n: nat, targets: map<Key, VisibilityTarget>, key: Key) returns (i: nat)
    requires n <= |rows| && OnlyMet(resolve, rows, n, targets) && key in targets
    ensures i < n && KeyOf(resolve, rows[i]) == key
  {
    hide KeyOf;
    i :| 0 <= i < n && KeyOf(resolve, rows[i]) == key;
  }

  lemma CollectKnown(resolve: Resolver, rows: seq<SummaryRow>, n: nat, targets: map<Key, VisibilityTarget>, i: nat)
    requires i < n < |rows| && Collected(resolve, rows, n, targets) && KeyOf(resolve, rows[i]) == KeyOf(resolve, rows[n])
    requires FirstAlike(resolve, rows, i) == FirstAlike(resolve, rows, n)
    ensures Collected(resolve, rows, n + 1, targets)
  {
    hide KeyOf, FirstAlike;
  }

  lemma CollectFresh(resolve: Resolver, rows: seq<SummaryRow>, n: nat, targets: map<Key, VisibilityTarget>)
    requires n < |rows| && Collected(resolve, rows, n, targets) && KeyOf(resolve, rows[n]) !in targets
    requires KeyOf(resolve, rows[FirstAlike(resolve, rows, n)]) == KeyOf(resolve, rows[n])
    ensures Collected(resolve, rows, n + 1, targets[KeyOf(resolve, rows[n]) := resolve(rows[n])])
  {
    hide KeyOf, FirstAlike;
    assert FirstAlike(resolve, rows, n) == n;
  }

  lemma OnlyMetStep(resolve: Resolver, rows: seq<SummaryRow>, n: nat, targets: map<Key, VisibilityTarget>)
    requires n < |rows| && OnlyMet(resolve, rows, n, targets)
    ensures OnlyMet(resolve, rows, n + 1, targets)
    ensures OnlyMet(resolve, rows, n + 1, targets[KeyOf(resolve, rows[n]) := resolve(rows[n])])
  {
    hide KeyOf;
  }

  /** Collects one target per signature, asks the policy once for each, and filters by the answers. */
  method FilterVisibleRows(rows: seq<SummaryRow>, resolve: Resolver, policy: Policy) returns (visible: seq<SummaryRow>)
    ensures visible == Cached(resolve, policy, rows, |rows|)
  {
    hide KeyOf, Collected, OnlyMet, FirstAlike;
    var targetsByKey: map<Key, VisibilityTarget> := map[];
    NothingCollected(resolve, rows);
    for n := 0 to |rows|
      invariant Collected(resolve, rows, n, targetsByKey) && OnlyMet(resolve, rows, n, targetsByKey)
    {
      CollectStep(resolve, rows, n, targetsByKey);
      var key := KeyOf(resolve, rows[n]);
      if key !in targetsByKey {
        targetsByKey := targetsByKey[key := resolve(rows[n])];
      }
    }
    var allowedByKey := map key | key in targetsByKey :: policy(targetsByKey[key]);
    visible := [];
    for n := 0 to |rows|
      invariant visible == Cached(resolve, policy, rows, n)
    {
      var key := KeyOf(resolve, rows[n]);
      CollectedAt(resolve, rows, targetsByKey, n);
      if key in allowedByKey && allowedByKey[key] {
        visible := visible + [rows[n]];
      }
    }
  }

  lemma NothingCollected(resolve: Resolver, rows: seq<SummaryRow>)
    ensures Collected(resolve, rows, 0, map[]) && OnlyMet(resolve, rows, 0, map[])
  {}

  lemma CollectedAt(resolve: Resolver, rows: seq<SummaryRow>, targets: map<Key, VisibilityTarget>, i: nat)
    requires i < |rows| && Collected(resolve, rows, |rows|, targets)
    ensures KeyOf(resolve, rows[i]) in targets
    ensures targets[KeyOf(resolve, rows[i])] == resolve(rows[FirstAlike(resolve, rows, i)])
  {
    hide KeyOf;
  }

  // ----- when the cache is faithful

  /** Equal signatures stand for equal targets. */
  ghost predicate NoCollision(resolve: Resolver, rows: seq<SummaryRow>) {
    forall i, j :: 0 <= i < |rows| && 0 <= j < |rows| && KeyOf(resolve, rows[i]) == KeyOf(resolve, rows[j]) ==>
      resolve(rows[i]) == resolve(rows[j])
  }

  lemma {:induction false} NoCollisionIsFaithful(resolve: Resolver, policy: Policy, rows: seq<SummaryRow>, n: nat)
    requires NoCollision(resolve, rows) && n <= |rows|
    ensures Cached(resolve, policy, rows, n) == Visible(resolve, policy, rows[..n])
  {
    hide KeyOf, FirstAlike;
    if n > 0 {
      NoCollisionIsFaithful(resolve, policy, rows, n - 1);
      FirstAlikeIs(resolve, rows, n - 1, n - 1);
      assert rows[..n][..n - 1] == rows[..n - 1];
    }
  }

  /** Where two rows share a signature but not a target, some policy is misapplied. */
  lemma CollisionMisleads(resolve: Resolver, rows: seq<SummaryRow>) returns (policy: Policy)
    requires !NoCollision(resolve, rows)
    ensures Cached(resolve, policy, rows, |rows|) != Visible(resolve, policy, rows)
  {
    hide KeyOf;
    var i, j :| 0 <= i < |rows| && 0 <= j < |rows| && KeyOf(resolve, rows[i]) == KeyOf(resolve, rows[j])
                && resolve(rows[i]) != resolve(rows[j]);
    SameFirst(resolve, rows, i, j);
    var first := FirstAlike(resolve, rows, i);
    var odd := if resolve(rows[i]) != resolve(rows[first]) then i else j;
    SameFirst(resolve, rows, odd, i);
    var target := resolve(rows[first]);
    policy := t => t == target;
    MorePass(resolve, policy, rows, |rows|, odd);
    assert rows[..|rows|] == rows;
  }

  /** Under a policy that allows only a first row's target, the cache lets through at least the rows it should, and
  the odd one. */
  lemma {:induction false} MorePass(resolve: Resolver, policy: Policy, rows: seq<SummaryRow>, n: nat, odd: nat)
    requires n <= |rows| && odd < |rows| && policy(resolve(rows[FirstAlike(resolve, rows, odd)]))
    requires !policy(resolve(rows[odd]))
    requires forall t :: policy(t) ==> t == resolve(rows[FirstAlike(resolve, rows, odd)])
    ensures |Cached(resolve, policy, rows, n)| >= |Visible(resolve, policy, rows[..n])| + (if odd < n then 1 else 0)
  {
    hide KeyOf, FirstAlike;
    if n > 0 {
      MorePass(resolve, policy, rows, n - 1, odd);
      assert rows[..n][..n - 1] == rows[..n - 1];
      if policy(resolve(rows[n - 1])) {
        FirstAlikeIs(resolve, rows, odd, odd);
        SameTargetSameKey(resolve, rows[n - 1], rows[FirstAlike(resolve, rows, odd)]);
        SameFirst(resolve, rows, n - 1, odd);
      }
    }
  }

  lemma SameTargetSameKey(resolve: Resolver, left: SummaryRow, right: SummaryRow)
    requires resolve(left) == resolve(right)
    ensures KeyOf(resolve, left) == KeyOf(resolve, right)
  {}

  /** The filter equals the per-row filter under every policy exactly if no two rows collide. */
  lemma FaithfulIffNoCollision(resolve: Resolver, rows: seq<SummaryRow>)
    ensures NoCollision(resolve, rows) <==>
              forall policy: Policy :: Cached(resolve, policy, rows, |rows|) == Visible(resolve, policy, rows)
  {
    hide KeyOf, Cached, Visible;
    assert rows[..|rows|] == rows;
    if NoCollision(resolve, rows) {
      forall policy: Policy ensures Cached(resolve, policy, rows, |rows|) == Visible(resolve, policy, rows) {
        NoCollisionIsFaithful(resolve, policy, rows, |rows|);
      }
    } else {
      var policy := CollisionMisleads(resolve, rows);
    }
  }

  // ----- joined keys

  /** What stands before the first separator can be read back. */
  lemma JoinSplits(a: string, b: string, c: string, d: string)
    requires a + ("|" + b) == c + ("|" + d) && '|' !in a && '|' !in c
    ensures a == c && b == d
  {
    var left, right := a + ("|" + b), c + ("|" + d);
    assert left[|a|] == '|' && right[|c|] == '|';
    assert a == left[..|a|] && c == right[..|c|];
    assert b == left[|a| + 1..] && d == right[|c| + 1..];
  }

  /** The lists ask about distinct topics whose ids have no separator in them. */
  ghost predicate SeparableIds(resolve: Resolver, rows: seq<SummaryRow>) {
    && (forall i :: 0 <= i < |rows| ==> resolve(rows[i]).topicId == Some(rows[i].id) && '|' !in rows[i].id.text)
    && (forall i, j :: 0 <= i < j < |rows| ==> rows[i].id != rows[j].id)
  }

  lemma SeparableIdsDoNotCollide(resolve: Resolver, rows: seq<SummaryRow>)
    requires SeparableIds(resolve, rows)
    ensures NoCollision(resolve, rows)
  {
    forall i, j | 0 <= i < |rows| && 0 <= j < |rows| && KeyOf(resolve, rows[i]) == KeyOf(resolve, rows[j])
      ensures resolve(rows[i]) == resolve(rows[j])
    {
      SignaturesSplit(resolve(rows[i]), resolve(rows[j]));
      assert rows[i].id.text == rows[j].id.text;
    }
  }

  lemma SignaturesSplit(left: VisibilityTarget, right: VisibilityTarget)
    requires RestrictionSignature(left) == RestrictionSignature(right)
    requires '|' !in TextOr(left.topicId) && '|' !in TextOr(right.topicId)
    ensures TextOr(left.topicId) == TextOr(right.topicId)
  {
    JoinSplits(
      TextOr(left.topicId),
      TextOr(left.challengeId) + ("|" + (TextOr(left.roleName) + ("|" + (if left.hasRestrictionConflict then "conflict" else "consistent")))),
      TextOr(right.topicId),
      TextOr(right.challengeId) + ("|" + (TextOr(right.roleName) + ("|" + (if right.hasRestrictionConflict then "conflict" else "consistent")))));
  }

  // ----- the two lists

  function RootRowRestrictions(row: SummaryRow): VisibilityTarget {
    VisibilityTarget(Some(row.id), row.challengeId, row.roleName, false)
  }

  /** What the listed children inherit from their loaded parent. */
  datatype ParentScope = ParentScope(challengeId: Option<Id>, roleName: Option<Id>, hasRestrictionConflict: bool)

  predicate Clash(inherited: Option<Id>, direct: Option<Id>) {
    inherited.Some? && direct.Some? && inherited != direct
  }

  function ChildRowRestrictions(parent: ParentScope, row: SummaryRow): VisibilityTarget {
    VisibilityTarget(
      Some(row.id),
      if row.challengeId.Some? then row.challengeId else parent.challengeId,
      if row.roleName.Some? then row.roleName else parent.roleName,
      parent.hasRestrictionConflict || Clash(parent.challengeId, row.challengeId) || Clash(parent.roleName, row.roleName))
  }

  /** Topic rows come from a table whose key is the id, and generated ids have no separator in them. */
  ghost predicate TopicRows(rows: seq<SummaryRow>) {
    && (forall i :: 0 <= i < |rows| ==> '|' !in rows[i].id.text)
    && (forall i, j :: 0 <= i < j < |rows| ==> rows[i].id != rows[j].id)
  }

  /** Both lists show exactly the rows the policy allows, row by row and in order. */
  lemma ListsAreExact(rows: seq<SummaryRow>, parent: ParentScope, policy: Policy)
    requires TopicRows(rows)
    ensures Cached(RootRowRestrictions, policy, rows, |rows|) == Visible(RootRowRestrictions, policy, rows)
    ensures var resolve := row => ChildRowRestrictions(parent, row);
            Cached(resolve, policy, rows, |rows|) == Visible(resolve, policy, rows)
  {
    hide Cached, Visible, NoCollision;
    assert rows[..|rows|] == rows;
    SeparableIdsDoNotCollide(RootRowRestrictions, rows);
    NoCollisionIsFaithful(RootRowRestrictions, policy, rows, |rows|);
    var resolve := row => ChildRowRestrictions(parent, row);
    SeparableIdsDoNotCollide(resolve, rows);
    NoCollisionIsFaithful(resolve, policy, rows, |rows|);
  }

  const LEFT_ROW := SummaryRow(Id("x"), Some(Id("y|z")), None)
  const RIGHT_ROW := SummaryRow(Id("x|y"), Some(Id("z")), None)

  /** Why ids must not hold the separator: two topics told apart only by where it falls share one decision, so a policy that
  allows the first of them shows the second as well. */
  lemma SeparatorsMislead()
    ensures var rows := [LEFT_ROW, RIGHT_ROW];
            var policy: Policy := t => t == RootRowRestrictions(LEFT_ROW);
            && Visible(RootRowRestrictions, policy, rows) == [LEFT_ROW]
            && Cached(RootRowRestrictions, policy, rows, 2) == [LEFT_ROW, RIGHT_ROW]
  {
    var rows := [LEFT_ROW, RIGHT_ROW];
    var policy: Policy := t => t == RootRowRestrictions(LEFT_ROW);
    hide RestrictionSignature, KeyOf, FirstAlike;
    SignaturesMeet();
    FirstAlikeIs(RootRowRestrictions, rows, 1, 0);
    assert Id("x").text != Id("x|y").text;
    assert rows[..2] == rows && rows[..1] == [LEFT_ROW] && [LEFT_ROW][..0] == [];
    assert Cached(RootRowRestrictions, policy, rows, 1) == [LEFT_ROW];
    assert Visible(RootRowRestrictions, policy, [LEFT_ROW]) == [LEFT_ROW];
  }

  lemma SignaturesMeet()
    ensures KeyOf(RootRowRestrictions, LEFT_ROW) == KeyOf(RootRowRestrictions, RIGHT_ROW)
  {
    assert RestrictionSignature(RootRowRestrictions(LEFT_ROW)) == "x|y|z||consistent";
    assert RestrictionSignature(RootRowRestrictions(RIGHT_ROW)) == "x|y|z||consistent";
  }

  // ----- pagination

  datatype PageQuery = PageQuery(page: Option<int>, perPage: Option<int>)

  datatype PageMeta = PageMeta(page: int, perPage: int, totalCount: nat, totalPages: nat)

  datatype Page = Page(data: seq<SummaryRow>, meta: PageMeta)

  function PositiveOr(value: Option<int>, default: int): int {
    if value.Some? && value.value > 0 then value.value else default
  }

  function Least(a: nat, b: nat): nat {
    if a <= b then a else b
  }

  function PaginateRows(rows: seq<SummaryRow>, query: PageQuery): Page {
    var page, perPage := PositiveOr(query.page, 1), PositiveOr(query.perPage, 10);
    var totalPages := if |rows| == 0 then 0 else (|rows| + perPage - 1) / perPage;
    var offset := (page - 1) * perPage;
    OffsetIsNat(page, perPage);
    Page(rows[Least(offset, |rows|)..Least(offset + perPage, |rows|)], PageMeta(page, perPage, |rows|, totalPages))
  }

  lemma OffsetIsNat(page: int, perPage: int)
    requires page > 0 && perPage > 0
    ensures (page - 1) * perPage >= 0
  {}

  /** A page holds the stretch of rows its number and size point at. A number or size that is missing or not positive reads as
  page 1 and size 10. */
  lemma PageMeans(rows: seq<SummaryRow>, query: PageQuery)
    ensures var page := PaginateRows(rows, query);
            && page.meta.page == (match query.page case Some(n) => if n > 0 then n else 1 case None => 1)
            && page.meta.perPage == (match query.perPage case Some(n) => if n > 0 then n else 10 case None => 10)
            && (page.meta.page - 1) * page.meta.perPage >= 0
            && (forall i :: 0 <= i < |page.data| ==>
                  && (page.meta.page - 1) * page.meta.perPage + i < |rows|
                  && page.data[i] == rows[(page.meta.page - 1) * page.meta.perPage + i])
            && |page.data| <= page.meta.perPage
            && (|page.data| < page.meta.perPage ==> (page.meta.page - 1) * page.meta.perPage + |page.data| >= |rows|)
  {
    var page := PaginateRows(rows, query);
    OffsetIsNat(page.meta.page, page.meta.perPage);
  }

  /** The rows of the first `n` pages, one page after the other. */
  function Pages(rows: seq<SummaryRow>, perPage: Option<int>, n: nat): seq<SummaryRow> {
    if n == 0 then [] else Pages(rows, perPage, n - 1) + PaginateRows(rows, PageQuery(Some(n), perPage)).data
  }

  lemma {:induction false} PagesArePrefix(rows: seq<SummaryRow>, perPage: Option<int>, n: nat)
    ensures var size := PositiveOr(perPage, 10);
            n * size >= 0 && Pages(rows, perPage, n) == rows[..Least(n * size, |rows|)]
  {
    hide Least;
    var size := PositiveOr(perPage, 10);
    if n > 0 {
      PagesArePrefix(rows, perPage, n - 1);
      MulStep(n, size);
      var done := (n - 1) * size;
      PageIs(rows, perPage, n, done);
      NextStretch(rows, done, size);
    } else {
      NothingYet(rows);
    }
  }

  lemma PageIs(rows: seq<SummaryRow>, perPage: Option<int>, n: nat, done: nat)
    requires n > 0 && done == (n - 1) * PositiveOr(perPage, 10)
    ensures PaginateRows(rows, PageQuery(Some(n), perPage)).data
            == rows[Least(done, |rows|)..Least(done + PositiveOr(perPage, 10), |rows|)]
  {}

  lemma NextStretch(rows: seq<SummaryRow>, done: nat, size: nat)
    ensures rows[..Least(done, |rows|)] + rows[Least(done, |rows|)..Least(done + size, |rows|)]
            == rows[..Least(done + size, |rows|)]
  {}

  lemma NothingYet(rows: seq<SummaryRow>)
    ensures rows[..Least(0, |rows|)] == []
  {}

  lemma TotalPagesIs(count: nat, size: int, pages: int)
    requires size > 0 && pages == (count + size - 1) / size
    ensures (pages - 1) * size < count + size - size + (if count == 0 then 1 else 0)
    ensures count <= pages * size
  {
    var rest := (count + size - 1) % size;
    assert count + size - 1 == pages * size + rest;
    assert (pages - 1) * size == pages * size - size;
  }

  /** The pages up to the reported total give back the list exactly, in order; later pages are empty, and every page
  before the last is full. */
  lemma PagesCoverTheList(rows: seq<SummaryRow>, query: PageQuery)
    ensures var page := PaginateRows(rows, query);
            && Pages(rows, query.perPage, page.meta.totalPages) == rows
            && page.meta.totalCount == |rows|
            && (page.meta.page > page.meta.totalPages ==> page.data == [])
            && (page.meta.page < page.meta.totalPages ==> |page.data| == page.meta.perPage)
            && (page.meta.page == page.meta.totalPages ==> 0 < |page.data| <= page.meta.perPage)
  {
    var page := PaginateRows(rows, query);
    var size, total := page.meta.perPage, page.meta.totalPages;
    PagesArePrefix(rows, query.perPage, total);
    if |rows| > 0 {
      TotalPagesIs(|rows|, size, total);
      OffsetsOrdered(page.meta.page, total, size);
    }
    OffsetIsNat(page.meta.page, size);
  }

  lemma OffsetsOrdered(page: int, total: int, size: int)
    requires size > 0
    ensures page > total ==> (page - 1) * size >= total * size
    ensures page < total ==> (page - 1) * size + size <= (total - 1) * size
  {
    if page > total {
      MulMonotone(total, page - 1, size);
    } else if page < total {
      MulMonotone(page, total - 1, size);
      MulStep(page, size);
    }
  }

  lemma MulMonotone(a: int, b: int, c: nat)
    requires a <= b
    ensures a * c <= b * c
  {
    assert (b - a) * c >= 0;
  }

  lemma MulStep(n: int, c: int)
    ensures n * c == (n - 1) * c + c
  {}

  /** A reader who turns all the pages of a list sees each visible row once, in order. */
  method ReadWholeList(rows: seq<SummaryRow>, resolve: Resolver, policy: Policy, perPage: Option<int>)
      returns (seen: seq<SummaryRow>)
    ensures seen == Cached(resolve, policy, rows, |rows|)
  {
    hide PaginateRows, Cached;
    var visible := FilterVisibleRows(rows, resolve, policy);
    var total := PaginateRows(visible, PageQuery(None, perPage)).meta.totalPages;
    seen := [];
    for n := 0 to total
      invariant seen == Pages(visible, perPage, n)
    {
      seen := seen + PaginateRows(visible, PageQuery(Some(n + 1), perPage)).data;
    }
    PagesCoverTheList(visible, PageQuery(None, perPage));
  }
}
