/** Category access rules, inherited down the topic tree. */
module PublicAccess {
  import opened Basics
  import opened ParentLinks
  import opened Sorting
  import opened ForumState
  import opened ClosureTable
  import opened AccessTypes

  datatype CategoryRules = CategoryRules(
    topicId: Id, displayAs: string, readRoles: seq<Id>, createRoles: seq<Id>, replyRoles: seq<Id>)

  /** Category rules by topic, and imported forum memberships by member. */
  datatype Acl = Acl(categories: map<Id, CategoryRules>, memberships: map<Id, set<Id>>)

  datatype Access = Access(view: bool, create: bool, reply: bool, category: bool, managed: bool)

  const PUBLIC_ROLE := Id("$public")
  const AUTHENTICATED_ROLE := Id("$authenticated")

  /** Identity roles plus imported forum roles. */
  function EffectiveRoles(acl: Acl, principal: Principal): set<Id> {
    (set r | r in principal.roles)
    + (if principal.memberId.Some? && principal.memberId.value in acl.memberships
       then acl.memberships[principal.memberId.value] else {})
  }

  predicate Matches(principal: Principal, roles: set<Id>, allowed: seq<Id>) {
    principal.isAdmin || principal.isMachine
    || exists role :: role in allowed
         && (role == PUBLIC_ROLE || (role == AUTHENTICATED_ROLE && principal.memberId.Some?) || role in roles)
  }

  /** Who a list of roles admits: administrators and machines; anyone, if it names the public role; members, if it names the
  role of the authenticated; and whoever holds a named role, by identity or by imported membership. */
  lemma MatchesMeans(acl: Acl, principal: Principal, allowed: seq<Id>)
    ensures Matches(principal, EffectiveRoles(acl, principal), allowed) <==>
              || principal.isAdmin || principal.isMachine
              || Id("$public") in allowed
              || (Id("$authenticated") in allowed && principal.memberId.Some?)
              || (exists role :: role in allowed && role in principal.roles)
              || (principal.memberId.Some? && principal.memberId.value in acl.memberships
                  && exists role :: role in allowed && role in acl.memberships[principal.memberId.value])
  {}

  /** The access rules of a topic from its categories, nearest first. */
  function Evaluate(principal: Principal, topicId: Id, categories: seq<CategoryRules>, roles: set<Id>): Access {
    if categories == [] then Access(true, true, true, false, false)
    else
      var view := forall c :: c in categories ==> Matches(principal, roles, c.readRoles);
      var nearest := categories[0];
      var category := nearest.topicId == topicId;
      var authenticated := principal.memberId.Some? || principal.isMachine;
      Access(
        view,
        view && authenticated && category && nearest.displayAs == "Discussions"
          && Matches(principal, roles, nearest.createRoles),
        view && authenticated && !category && Matches(principal, roles, nearest.replyRoles),
        category, true)
  }

  /** The categories met on a chain of topic ids, in order. */
  ghost function CategoriesOn(acl: Acl, chain: seq<Id>): seq<CategoryRules> {
    if chain == [] then []
    else CategoriesOn(acl, chain[..|chain| - 1])
         + (if chain[|chain| - 1] in acl.categories then [acl.categories[chain[|chain| - 1]]] else [])
  }

  ghost function CategoryChain(acl: Acl, topics: Topics, id: Id): seq<CategoryRules>
    requires Rooted(TopicLinks(topics), id)
  {
    CategoriesOn(acl, Chain(TopicLinks(topics), id))
  }

  /** The pointwise decision: memberships are only read when some category applies. */
  ghost function Decide(acl: Acl, topics: Topics, principal: Principal, topicId: Id): Access
    requires Rooted(TopicLinks(topics), topicId)
  {
    var categories := CategoryChain(acl, topics, topicId);
    if categories == [] then Evaluate(principal, topicId, [], {})
    else Evaluate(principal, topicId, categories, EffectiveRoles(acl, principal))
  }

  lemma {:induction false} CategoriesOnElements(acl: Acl, chain: seq<Id>)
    ensures forall c :: c in CategoriesOn(acl, chain) <==>
              exists id :: id in chain && id in acl.categories && acl.categories[id] == c
  {
    if chain != [] {
      CategoriesOnElements(acl, chain[..|chain| - 1]);
      assert chain == chain[..|chain| - 1] + [chain[|chain| - 1]];
    }
  }

  /** What a reader needs: every category on the chain lets the principal read. */
  lemma ViewMeans(acl: Acl, topics: Topics, principal: Principal, topicId: Id)
    requires Rooted(TopicLinks(topics), topicId)
    ensures Decide(acl, topics, principal, topicId).view <==>
            forall id :: id in Chain(TopicLinks(topics), topicId) && id in acl.categories ==>
              Matches(principal, EffectiveRoles(acl, principal), acl.categories[id].readRoles)
  {
    CategoriesOnElements(acl, Chain(TopicLinks(topics), topicId));
    var categories := CategoryChain(acl, topics, topicId);
    if categories == [] {
      assert forall id :: id in Chain(TopicLinks(topics), topicId) && id in acl.categories ==>
               acl.categories[id] in categories;
    }
  }

  /** Reading is monotone: who may read a topic may read every ancestor. */
  lemma ViewIsMonotone(acl: Acl, topics: Topics, principal: Principal, topicId: Id, k: nat, a: Id)
    requires Sound(TopicLinks(topics)) && topicId in topics && Climb(TopicLinks(topics), topicId, k) == Some(a)
    requires Rooted(TopicLinks(topics), topicId) && Decide(acl, topics, principal, topicId).view
    ensures Rooted(TopicLinks(topics), a) && Decide(acl, topics, principal, a).view
  {
    var up := TopicLinks(topics);
    ChainSuffix(up, topicId, a, k);
    ViewMeans(acl, topics, principal, topicId);
    ViewMeans(acl, topics, principal, a);
    forall id | id in Chain(up, a) ensures id in Chain(up, topicId) {
      assert Chain(up, a) == Chain(up, topicId)[k..];
    }
  }

  lemma {:induction false} NoCategoryOn(acl: Acl, chain: seq<Id>, j: nat)
    requires CategoriesOn(acl, chain) == [] && j < |chain|
    ensures chain[j] !in acl.categories
  {
    if j < |chain| - 1 { NoCategoryOn(acl, chain[..|chain| - 1], j); }
  }

  /** The first category of a chain. */
  lemma {:induction false} FirstCategory(acl: Acl, chain: seq<Id>) returns (i: nat)
    requires CategoriesOn(acl, chain) != []
    ensures i < |chain| && chain[i] in acl.categories && CategoriesOn(acl, chain)[0] == acl.categories[chain[i]]
    ensures forall j :: 0 <= j < i ==> chain[j] !in acl.categories
  {
    var init := chain[..|chain| - 1];
    if CategoriesOn(acl, init) != [] {
      i := FirstCategory(acl, init);
    } else {
      i := |chain| - 1;
      forall j | 0 <= j < i ensures chain[j] !in acl.categories {
        NoCategoryOn(acl, init, j);
      }
    }
  }

  /** The category that governs a topic: the nearest one on its chain, itself included. */
  ghost predicate GovernedBy(acl: Acl, topics: Topics, topicId: Id, c: Id)
    requires Rooted(TopicLinks(topics), topicId)
  {
    var chain := Chain(TopicLinks(topics), topicId);
    exists i :: 0 <= i < |chain| && chain[i] == c && c in acl.categories
      && forall j :: 0 <= j < i ==> chain[j] !in acl.categories
  }

  /** A topic with a category on its chain is governed by exactly one. */
  lemma OneGovernor(acl: Acl, topics: Topics, topicId: Id, member: Id) returns (c: Id)
    requires Rooted(TopicLinks(topics), topicId)
    requires member in Chain(TopicLinks(topics), topicId) && member in acl.categories
    ensures GovernedBy(acl, topics, topicId, c)
    ensures forall d :: GovernedBy(acl, topics, topicId, d) ==> d == c
  {
    var chain := Chain(TopicLinks(topics), topicId);
    CategoriesOnElements(acl, chain);
    assert acl.categories[member] in CategoriesOn(acl, chain);
    var i := FirstCategory(acl, chain);
    c := chain[i];
  }

  /** What creating and replying take inside a category: reading rights all the way up, an authenticated caller, and the
  matching rights in the governing category. Topics are created in a discussion category itself, replies are written
  below it. */
  lemma CreateAndReplyMean(acl: Acl, topics: Topics, principal: Principal, topicId: Id, c: Id)
    requires Rooted(TopicLinks(topics), topicId) && CategoriesKeyed(acl) && GovernedBy(acl, topics, topicId, c)
    ensures var access, roles := Decide(acl, topics, principal, topicId), EffectiveRoles(acl, principal);
            var authenticated := principal.memberId.Some? || principal.isMachine;
            && access.managed && (access.category <==> c == topicId)
            && (access.create <==>
                  && access.view && authenticated && c == topicId && acl.categories[c].displayAs == "Discussions"
                  && Matches(principal, roles, acl.categories[c].createRoles))
            && (access.reply <==>
                  access.view && authenticated && c != topicId && Matches(principal, roles, acl.categories[c].replyRoles))
  {
    hide Matches, EffectiveRoles;
    var chain := Chain(TopicLinks(topics), topicId);
    CategoriesOnElements(acl, chain);
    assert acl.categories[c] in CategoriesOn(acl, chain);
    var i := FirstCategory(acl, chain);
    var j :| 0 <= j < |chain| && chain[j] == c && forall m :: 0 <= m < j ==> chain[m] !in acl.categories;
    assert i == j;
  }

  /** A topic without a category on its chain is open to everyone. */
  lemma UncategorisedIsOpen(acl: Acl, topics: Topics, principal: Principal, topicId: Id)
    requires Rooted(TopicLinks(topics), topicId)
    requires forall id :: id in Chain(TopicLinks(topics), topicId) ==> id !in acl.categories
    ensures var access := Decide(acl, topics, principal, topicId);
            access.view && access.create && access.reply && !access.category && !access.managed
  {
    var chain := Chain(TopicLinks(topics), topicId);
    CategoriesOnElements(acl, chain);
    if CategoriesOn(acl, chain) != [] {
      assert CategoriesOn(acl, chain)[0] in CategoriesOn(acl, chain);
    }
  }

  // ----- the batched form

  /** A joined row of the catalog query: a category of an ancestor of `descendant`, `depth` hops up. */
  datatype CategoryHit = CategoryHit(rules: CategoryRules, descendant: Id, depth: nat)

  predicate HitNearer(left: CategoryHit, right: CategoryHit) {
    left.depth <= right.depth
  }

  /** Any answer the database may give to the catalog query, ordered by depth over all topics at once. */
  ghost predicate AnswersHits(acl: Acl, closure: set<ClosureRow>, ids: set<Id>, hits: seq<CategoryHit>) {
    && Distinct(hits) && Sorted(HitNearer, hits)
    && forall h :: h in hits <==>
         && h.descendant in ids && h.rules.topicId in acl.categories && acl.categories[h.rules.topicId] == h.rules
         && ClosureRow(h.rules.topicId, h.descendant, h.depth) in closure
  }

  ghost predicate CategoriesKeyed(acl: Acl) {
    forall id :: id in acl.categories ==> acl.categories[id].topicId == id
  }

  ghost function HitsFor(hits: seq<CategoryHit>, id: Id): seq<CategoryHit> {
    if hits == [] then []
    else
      var last := hits[|hits| - 1];
      HitsFor(hits[..|hits| - 1], id) + (if last.descendant == id then [last] else [])
  }

  lemma {:induction false} HitsForElements(hits: seq<CategoryHit>, id: Id)
    requires Distinct(hits) && Sorted(HitNearer, hits)
    ensures forall h :: h in HitsFor(hits, id) <==> h in hits && h.descendant == id
    ensures Distinct(HitsFor(hits, id)) && Sorted(HitNearer, HitsFor(hits, id))
  {
    if hits != [] {
      var init := hits[..|hits| - 1];
      var last := hits[|hits| - 1];
      HitsForElements(init, id);
      assert hits == init + [last];
      assert last !in init;
      forall h | h in HitsFor(init, id) ensures HitNearer(h, last) {
        assert h in init;
      }
    }
  }

  /** The hits of the first `n` topics of a chain. */
  ghost function ChainHits(acl: Acl, chain: seq<Id>, id: Id): seq<CategoryHit> {
    if chain == [] then []
    else
      var n := |chain| - 1;
      ChainHits(acl, chain[..n], id)
      + (if chain[n] in acl.categories then [CategoryHit(acl.categories[chain[n]], id, n)] else [])
  }

  ghost function RulesOf(hits: seq<CategoryHit>): seq<CategoryRules> {
    if hits == [] then [] else RulesOf(hits[..|hits| - 1]) + [hits[|hits| - 1].rules]
  }

  lemma RulesOfAppend(hits: seq<CategoryHit>, hit: CategoryHit)
    ensures RulesOf(hits + [hit]) == RulesOf(hits) + [hit.rules]
  {
    assert (hits + [hit])[..|hits|] == hits;
  }

  lemma {:induction false} ChainHitsAreCategories(acl: Acl, chain: seq<Id>, id: Id)
    ensures RulesOf(ChainHits(acl, chain, id)) == CategoriesOn(acl, chain)
  {
    if chain != [] {
      var n := |chain| - 1;
      ChainHitsAreCategories(acl, chain[..n], id);
      if chain[n] in acl.categories {
        RulesOfAppend(ChainHits(acl, chain[..n], id), CategoryHit(acl.categories[chain[n]], id, n));
      } else {
        assert ChainHits(acl, chain, id) == ChainHits(acl, chain[..n], id);
      }
    }
  }

  lemma {:induction false} ChainHitsElements(acl: Acl, chain: seq<Id>, id: Id)
    ensures forall h :: h in ChainHits(acl, chain, id) <==>
              && h.descendant == id && h.depth < |chain|
              && chain[h.depth] in acl.categories && h.rules == acl.categories[chain[h.depth]]
    ensures Distinct(ChainHits(acl, chain, id)) && Sorted(HitNearer, ChainHits(acl, chain, id))
  {
    if chain != [] {
      var n := |chain| - 1;
      ChainHitsElements(acl, chain[..n], id);
      assert forall h :: h in ChainHits(acl, chain[..n], id) ==> h.depth < n;
    }
  }

  /** Grouping the globally ordered catalog answer yields each topic's own categories, nearest first. */
  lemma HitsAreCategoryChain(acl: Acl, topics: Topics, closure: set<ClosureRow>, ids: set<Id>,
                             hits: seq<CategoryHit>, id: Id)
    requires Rooted(TopicLinks(topics), id) && ClosureExact(TopicLinks(topics), closure)
    requires CategoriesKeyed(acl) && AnswersHits(acl, closure, ids, hits) && id in ids
    ensures RulesOf(HitsFor(hits, id)) == CategoryChain(acl, topics, id)
  {
    var up := TopicLinks(topics);
    var chain := Chain(up, id);
    var mine, target := HitsFor(hits, id), ChainHits(acl, chain, id);
    HitsForElements(hits, id);
    ChainHitsElements(acl, chain, id);
    forall h ensures h in mine <==> h in target {
      HitIsOnChain(acl, up, closure, h, id);
    }
    forall x, y | x in mine && y in mine && HitNearer(x, y) && HitNearer(y, x) ensures x == y {
      assert x in target && y in target;
    }
    assert TotalPreorder(HitNearer);
    SortedUnique(HitNearer, mine, target);
    ChainHitsAreCategories(acl, chain, id);
  }

  lemma HitIsOnChain(acl: Acl, up: Links<Id>, closure: set<ClosureRow>, h: CategoryHit, id: Id)
    requires Rooted(up, id) && ClosureExact(up, closure) && CategoriesKeyed(acl)
    ensures (&& h.descendant == id && h.rules.topicId in acl.categories && acl.categories[h.rules.topicId] == h.rules
             && ClosureRow(h.rules.topicId, id, h.depth) in closure)
        <==> (&& h.descendant == id && h.depth < |Chain(up, id)|
              && Chain(up, id)[h.depth] in acl.categories && h.rules == acl.categories[Chain(up, id)[h.depth]])
  {
    assert ClosureRow(h.rules.topicId, id, h.depth) in closure <==> Climb(up, id, h.depth) == Some(h.rules.topicId);
  }

  function GroupOr(groups: map<Id, seq<CategoryRules>>, id: Id): seq<CategoryRules> {
    if id in groups then groups[id] else []
  }

  /** The batched decision over one ordered query answer equals the pointwise decision for every topic. */
  method DecideMany(acl: Acl, topics: Topics, ghost closure: set<ClosureRow>, principal: Principal,
                    topicIds: seq<Id>, hits: seq<CategoryHit>) returns (access: map<Id, Access>)
    requires Sound(TopicLinks(topics)) && ClosureExact(TopicLinks(topics), closure) && CategoriesKeyed(acl)
    requires forall id :: id in topicIds ==> id in topics && Rooted(TopicLinks(topics), id)
    requires AnswersHits(acl, closure, Elements(topicIds), hits)
    ensures forall id :: id in access <==> id in topicIds
    ensures forall id :: id in access ==>
              Rooted(TopicLinks(topics), id) && access[id] == Decide(acl, topics, principal, id)
  {
    hide *;
    var roles := EffectiveRoles(acl, principal);
    var grouped := GroupHits(hits);
    access := map[];
    for i := 0 to |topicIds|
      invariant forall id :: id in access <==> id in topicIds[..i]
      invariant forall id :: id in access ==>
                  Rooted(TopicLinks(topics), id) && access[id] == Decide(acl, topics, principal, id)
    {
      var id := topicIds[i];
      assert topicIds[..i + 1] == topicIds[..i] + [id];
      DecideFromGroup(acl, topics, closure, principal, topicIds, hits, grouped, id);
      access := access[id := Evaluate(principal, id, GroupOr(grouped, id), roles)];
    }
    assert topicIds[..|topicIds|] == topicIds;
  }

  lemma DecideFromGroup(acl: Acl, topics: Topics, closure: set<ClosureRow>, principal: Principal,
                        topicIds: seq<Id>, hits: seq<CategoryHit>, grouped: map<Id, seq<CategoryRules>>, id: Id)
    requires ClosureExact(TopicLinks(topics), closure) && CategoriesKeyed(acl)
    requires AnswersHits(acl, closure, Elements(topicIds), hits) && Grouped(grouped, hits)
    requires id in topicIds && Rooted(TopicLinks(topics), id)
    ensures Evaluate(principal, id, GroupOr(grouped, id), EffectiveRoles(acl, principal)) ==
            Decide(acl, topics, principal, id)
  {
    HitsAreCategoryChain(acl, topics, closure, Elements(topicIds), hits, id);
    assert GroupOr(grouped, id) == CategoryChain(acl, topics, id);
  }

  method GroupHits(hits: seq<CategoryHit>) returns (grouped: map<Id, seq<CategoryRules>>)
    ensures Grouped(grouped, hits)
  {
    grouped := map[];
    for i := 0 to |hits|
      invariant Grouped(grouped, hits[..i])
    {
      GroupedStep(grouped, hits, i);
      var hit := hits[i];
      grouped := grouped[hit.descendant := GroupOr(grouped, hit.descendant) + [hit.rules]];
    }
    assert hits[..|hits|] == hits;
  }

  /** Each descendant's group holds its rules, in answer order. */
  ghost predicate Grouped(grouped: map<Id, seq<CategoryRules>>, hits: seq<CategoryHit>) {
    forall id :: GroupOr(grouped, id) == RulesOf(HitsFor(hits, id))
  }

  lemma GroupedStep(grouped: map<Id, seq<CategoryRules>>, hits: seq<CategoryHit>, i: nat)
    requires i < |hits| && Grouped(grouped, hits[..i])
    ensures Grouped(grouped[hits[i].descendant := GroupOr(grouped, hits[i].descendant) + [hits[i].rules]], hits[..i + 1])
  {
    hide RulesOf, HitsFor;
    var wider := grouped[hits[i].descendant := GroupOr(grouped, hits[i].descendant) + [hits[i].rules]];
    forall id ensures GroupOr(wider, id) == RulesOf(HitsFor(hits[..i + 1], id)) {
      HitsStep(hits, i, id);
      assert GroupOr(grouped, id) == RulesOf(HitsFor(hits[..i], id));
    }
  }

  lemma HitsStep(hits: seq<CategoryHit>, i: nat, id: Id)
    requires i < |hits|
    ensures RulesOf(HitsFor(hits[..i + 1], id)) ==
            RulesOf(HitsFor(hits[..i], id)) + (if hits[i].descendant == id then [hits[i].rules] else [])
  {
    assert hits[..i + 1][..i] == hits[..i];
    if hits[i].descendant == id {
      RulesOfAppend(HitsFor(hits[..i], id), hits[i]);
    } else {
      assert HitsFor(hits[..i + 1], id) == HitsFor(hits[..i], id);
    }
  }
}
