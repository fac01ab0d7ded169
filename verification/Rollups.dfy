/** Category rollups: the staged SQL aggregation against the direct one.

The query counts and picks per direct category first and then joins those partial results to the ancestor
index. The direct form looks at all visible threads below a category at once, by parent walks.
*/
module Rollups {
  import opened Basics
  import opened ParentLinks
  import opened ForumState
  import opened ClosureTable
  import opened AccessTypes
  import PublicAccess
  import AccessPolicy

  /** The bytewise rank of an id: distinct ids have distinct ranks. */
  ghost predicate Bytewise(rank: Id -> int) {
    forall a, b :: rank(a) == rank(b) ==> a == b
  }

  datatype Participant = Participant(memberId: Id, handle: string)

  datatype Rollup = Rollup(
    categoryId: Id, topicsCount: nat, postsCount: nat,
    participantsCount: nat, participants: seq<Participant>, latestPost: Option<Id>, unread: bool)

  // ----- what the query selects

  predicate RoleVisible(principal: Principal, roleName: Option<Id>) {
    principal.isMachine || (principal.isAdmin && principal.memberId.Some?)
    || roleName.None? || (principal.memberId.Some? && roleName.value in principal.roles)
  }

  /** The row filters of a thread, deleted ancestors aside. */
  predicate Candidate(f: Forum, acl: PublicAccess.Acl, principal: Principal, cats: set<Id>, t: Id) {
    && t in f.topics && f.topics[t].parentTopicId.Some? && f.topics[t].parentTopicId.value in cats
    && f.topics[t].challengeId.None? && f.topics[t].deletedAt.None?
    && RoleVisible(principal, f.topics[t].roleName) && t !in acl.categories
  }

  /** `visible_threads`: the deleted-ancestor test reads the index. */
  ghost function IndexedThreads(
    f: Forum, acl: PublicAccess.Acl, closure: set<ClosureRow>, principal: Principal, cats: set<Id>): set<Id>
  {
    set t | t in f.topics && Candidate(f, acl, principal, cats, t)
            && !exists r :: r in closure && r.descendantTopicId == t
                            && r.ancestorTopicId in f.topics && f.topics[r.ancestorTopicId].deletedAt.Some?
  }

  /** The same threads by parent walk. */
  ghost function VisibleThreads(f: Forum, acl: PublicAccess.Acl, principal: Principal, cats: set<Id>): set<Id> {
    set t | t in f.topics && Candidate(f, acl, principal, cats, t) && !Hidden(f.topics, t)
  }

  lemma IndexedThreadsAreVisible(
      f: Forum, acl: PublicAccess.Acl, closure: set<ClosureRow>, principal: Principal, cats: set<Id>)
    requires ClosureExact(TopicLinks(f.topics), closure)
    ensures IndexedThreads(f, acl, closure, principal, cats) == VisibleThreads(f, acl, principal, cats)
  {
    forall t | t in f.topics && f.topics[t].deletedAt.None?
      ensures Hidden(f.topics, t) <==>
              exists r :: r in closure && r.descendantTopicId == t
                          && r.ancestorTopicId in f.topics && f.topics[r.ancestorTopicId].deletedAt.Some?
    {
      IndexedLiveIsLive(f.topics, closure, t);
    }
  }

  /** Each thread with its direct category. */
  ghost function ThreadGroups(f: Forum, threads: set<Id>): map<Id, Id> {
    map t | t in threads && t in f.topics && f.topics[t].parentTopicId.Some? :: f.topics[t].parentTopicId.value
  }

  /** Each undeleted post of the threads with its thread's direct category. */
  ghost function PostGroups(f: Forum, threads: set<Id>): (posts: map<Id, Id>)
    ensures posts.Keys <= f.posts.Keys
  {
    var groups := ThreadGroups(f, threads);
    map p | p in f.posts && f.posts[p].deletedAt.None? && f.posts[p].topicId in groups :: groups[f.posts[p].topicId]
  }

  // ----- latest posts

  /** `p` is at least as late as `q`: by creation time, then by id. */
  ghost predicate Later(posts: Posts, rank: Id -> int, p: Id, q: Id)
    requires p in posts && q in posts
  {
    posts[p].createdAt > posts[q].createdAt || (posts[p].createdAt == posts[q].createdAt && rank(p) >= rank(q))
  }

  ghost predicate IsLatest(posts: Posts, rank: Id -> int, ids: set<Id>, p: Id)
    requires ids <= posts.Keys
  {
    p in ids && forall q :: q in ids ==> Later(posts, rank, p, q)
  }

  lemma {:induction false} LatestExists(posts: Posts, rank: Id -> int, ids: set<Id>)
    requires ids <= posts.Keys && ids != {}
    ensures exists p :: IsLatest(posts, rank, ids, p)
  {
    var x :| x in ids;
    var rest := ids - {x};
    if rest == {} {
      assert ids == {x};
      assert IsLatest(posts, rank, ids, x);
    } else {
      LatestExists(posts, rank, rest);
      var p :| IsLatest(posts, rank, rest, p);
      assert ids == rest + {x};
      if Later(posts, rank, p, x) {
        assert IsLatest(posts, rank, ids, p);
      } else {
        assert IsLatest(posts, rank, ids, x);
      }
    }
  }

  ghost function Latest(posts: Posts, rank: Id -> int, ids: set<Id>): (latest: Option<Id>)
    requires ids <= posts.Keys
    ensures latest.None? <==> ids == {}
    ensures latest.Some? ==> IsLatest(posts, rank, ids, latest.value)
  {
    if ids == {} then None
    else
      LatestExists(posts, rank, ids);
      var p :| IsLatest(posts, rank, ids, p);
      Some(p)
  }

  lemma LatestIs(posts: Posts, rank: Id -> int, ids: set<Id>, p: Id)
    requires Bytewise(rank) && ids <= posts.Keys && IsLatest(posts, rank, ids, p)
    ensures Latest(posts, rank, ids) == Some(p)
  {}

  /** Picking the latest in two stages: a selection holding a post as late as the latest has the same latest. */
  lemma LatestInStages(posts: Posts, rank: Id -> int, all: set<Id>, picked: set<Id>, m: Id)
    requires Bytewise(rank) && picked <= all <= posts.Keys
    requires all != {} ==> m in picked && Later(posts, rank, m, Latest(posts, rank, all).value)
    ensures Latest(posts, rank, all) == Latest(posts, rank, picked)
  {
    if all == {} {
      assert picked == {};
    } else {
      var top := Latest(posts, rank, all).value;
      assert Later(posts, rank, top, m);
      assert m == top;
      assert IsLatest(posts, rank, picked, top);
      LatestIs(posts, rank, picked, top);
    }
  }

  // ----- sums over joined rows

  ghost function Pick(rows: set<ClosureRow>): (r: ClosureRow)
    requires rows != {}
    ensures r in rows
  {
    var r :| r in rows; r
  }

  ghost function GroupSize(groups: map<Id, Id>, g: Id): nat {
    |set x | x in groups && groups[x] == g|
  }

  /** `SUM` of the per-category counts over the rows they are joined to. */
  ghost function SumGroups(groups: map<Id, Id>, rows: set<ClosureRow>): nat {
    if rows == {} then 0
    else GroupSize(groups, Pick(rows).descendantTopicId) + SumGroups(groups, rows - {Pick(rows)})
  }

  ghost function MembersOf(groups: map<Id, Id>, rows: set<ClosureRow>): set<Id> {
    set x | x in groups && exists r :: r in rows && r.descendantTopicId == groups[x]
  }

  /** When no two joined rows share a category, summing the groups counts every member once. */
  lemma {:induction false} SumCountsMembers(groups: map<Id, Id>, rows: set<ClosureRow>)
    requires forall r, q :: r in rows && q in rows && r.descendantTopicId == q.descendantTopicId ==> r == q
    ensures SumGroups(groups, rows) == |MembersOf(groups, rows)|
  {
    if rows == {} {
      assert MembersOf(groups, rows) == {};
    } else {
      var r := Pick(rows);
      var rest := rows - {r};
      SumCountsMembers(groups, rest);
      var mine := set x | x in groups && groups[x] == r.descendantTopicId;
      forall x ensures x in MembersOf(groups, rows) <==> x in mine || x in MembersOf(groups, rest) {
        if x in groups && x in MembersOf(groups, rows) && groups[x] != r.descendantTopicId {
          var q :| q in rows && q.descendantTopicId == groups[x];
          assert q in rest;
        }
      }
      assert MembersOf(groups, rows) == mine + MembersOf(groups, rest);
      assert mine !! MembersOf(groups, rest);
    }
  }

  // ----- the staged form

  /** The index rows that carry partial results of direct categories up to `c`. */
  ghost function JoinedRows(closure: set<ClosureRow>, groups: map<Id, Id>, c: Id): set<ClosureRow> {
    set r | r in closure && r.ancestorTopicId == c && r.descendantTopicId in groups.Values
  }

  /** `direct_authors`: the latest post of one author in one direct category. */
  ghost function DirectAuthorPost(f: Forum, rank: Id -> int, groups: map<Id, Id>, g: Id, author: Id): Option<Id>
    requires groups.Keys <= f.posts.Keys
  {
    Latest(f.posts, rank, ByAuthor(f.posts, (set p | p in groups && groups[p] == g), author))
  }

  /** `rollup_authors`: the direct-category picks joined to category `c`. */
  ghost function RolledUpPosts(f: Forum, rank: Id -> int, closure: set<ClosureRow>, groups: map<Id, Id>, c: Id): set<Id>
    requires groups.Keys <= f.posts.Keys
  {
    set p | p in groups
            && (exists r :: r in closure && r.ancestorTopicId == c && r.descendantTopicId == groups[p])
            && DirectAuthorPost(f, rank, groups, groups[p], f.posts[p].authorMemberId) == Some(p)
  }

  ghost function Authors(posts: Posts, ids: set<Id>): set<Id>
    requires ids <= posts.Keys
  {
    set p | p in ids :: posts[p].authorMemberId
  }

  ghost function ByAuthor(posts: Posts, ids: set<Id>, author: Id): set<Id>
    requires ids <= posts.Keys
  {
    set p | p in ids && posts[p].authorMemberId == author
  }

  /** For each author of the posts, their latest one. */
  ghost function LatestPerAuthor(posts: Posts, rank: Id -> int, ids: set<Id>): map<Id, Id>
    requires ids <= posts.Keys
  {
    map a | a in Authors(posts, ids) && ByAuthor(posts, ids, a) != {} :: Latest(posts, rank, ByAuthor(posts, ids, a)).value
  }

  /** The first `n` posts from latest to earliest. */
  ghost function Ranked(posts: Posts, rank: Id -> int, ids: set<Id>, n: nat): seq<Id>
    requires ids <= posts.Keys
    decreases n
  {
    if n == 0 || ids == {} then []
    else
      var top := Latest(posts, rank, ids).value;
      [top] + Ranked(posts, rank, ids - {top}, n - 1)
  }

  ghost function Preview(posts: Posts, ranked: seq<Id>): seq<Participant> {
    if ranked == [] then []
    else
      (if ranked[0] in posts then [Participant(posts[ranked[0]].authorMemberId, posts[ranked[0]].authorHandle)] else [])
      + Preview(posts, ranked[1..])
  }

  /** The participant columns: how many authors, and the five most recently active, latest first. */
  ghost function Participants(posts: Posts, rank: Id -> int, perAuthor: map<Id, Id>): (nat, seq<Participant>)
    requires perAuthor.Values <= posts.Keys
  {
    (|perAuthor|, Preview(posts, Ranked(posts, rank, perAuthor.Values, 5)))
  }

  ghost predicate UnreadPost(f: Forum, memberId: Option<Id>, p: Id)
    requires p in f.posts
  {
    memberId.Some? &&
      var key := MemberKey(f.posts[p].topicId, memberId.value);
      key !in f.readStates || f.posts[p].createdAt > f.readStates[key]
  }

  /** The staged query result for one authorised category. */
  ghost function StagedRollup(f: Forum, acl: PublicAccess.Acl, closure: set<ClosureRow>, principal: Principal,
                              cats: set<Id>, rank: Id -> int, c: Id): Rollup
  {
    var threads := IndexedThreads(f, acl, closure, principal, cats);
    var threadGroups, postGroups := ThreadGroups(f, threads), PostGroups(f, threads);
    var joined := JoinedRows(closure, threadGroups, c);
    var picks := RolledUpPosts(f, rank, closure, postGroups, c);
    var perAuthor := LatestPerAuthor(f.posts, rank, picks);
    PerAuthorValues(f.posts, rank, picks);
    var people := Participants(f.posts, rank, perAuthor);
    Rollup(
      c, SumGroups(threadGroups, joined), SumGroups(postGroups, joined),
      people.0, people.1, Latest(f.posts, rank, picks),
      exists r, p :: r in joined && p in postGroups && postGroups[p] == r.descendantTopicId
                     && UnreadPost(f, principal.memberId, p))
  }

  // ----- the direct form

  /** The visible threads whose category is `c` or an authorised category below it. */
  ghost function ThreadsUnder(f: Forum, acl: PublicAccess.Acl, principal: Principal, cats: set<Id>, c: Id): set<Id> {
    set t | t in VisibleThreads(f, acl, principal, cats) && InSubtree(f.topics, f.topics[t].parentTopicId.value, c)
  }

  ghost function PostsUnder(f: Forum, acl: PublicAccess.Acl, principal: Principal, cats: set<Id>, c: Id): set<Id> {
    set p | p in f.posts && f.posts[p].deletedAt.None? && f.posts[p].topicId in ThreadsUnder(f, acl, principal, cats, c)
  }

  /** Everything at once, from the visible threads below the category. */
  ghost function DirectRollup(f: Forum, acl: PublicAccess.Acl, principal: Principal, cats: set<Id>,
                              rank: Id -> int, c: Id): Rollup
  {
    var posts := PostsUnder(f, acl, principal, cats, c);
    var perAuthor := LatestPerAuthor(f.posts, rank, posts);
    PerAuthorValues(f.posts, rank, posts);
    var people := Participants(f.posts, rank, perAuthor);
    Rollup(
      c, |ThreadsUnder(f, acl, principal, cats, c)|, |posts|,
      people.0, people.1, Latest(f.posts, rank, posts),
      exists p :: p in posts && UnreadPost(f, principal.memberId, p))
  }

  lemma PerAuthorValues(posts: Posts, rank: Id -> int, ids: set<Id>)
    requires ids <= posts.Keys
    ensures LatestPerAuthor(posts, rank, ids).Keys == Authors(posts, ids)
    ensures LatestPerAuthor(posts, rank, ids).Values <= ids
  {
    forall a | a in Authors(posts, ids) ensures ByAuthor(posts, ids, a) != {} {
      var p :| p in ids && posts[p].authorMemberId == a;
      assert p in ByAuthor(posts, ids, a);
    }
  }

  /** The groups of the query, spelled out. */
  lemma GroupsMean(f: Forum, acl: PublicAccess.Acl, principal: Principal, cats: set<Id>)
    ensures var threads := VisibleThreads(f, acl, principal, cats);
            && ThreadGroups(f, threads).Keys == threads
            && (forall t :: t in threads ==>
                  t in f.topics && f.topics[t].parentTopicId == Some(ThreadGroups(f, threads)[t]))
            && (forall p :: p in PostGroups(f, threads) <==>
                  p in f.posts && f.posts[p].deletedAt.None? && f.posts[p].topicId in threads)
            && (forall p :: p in PostGroups(f, threads) ==>
                  PostGroups(f, threads)[p] == ThreadGroups(f, threads)[f.posts[p].topicId])
  {
    hide Hidden, RoleVisible;
  }

  lemma InSubtreeByIndex(topics: Topics, closure: set<ClosureRow>, d: Id, c: Id)
    requires ClosureExact(TopicLinks(topics), closure)
    ensures InSubtree(topics, d, c) <==> exists r :: r in closure && r.ancestorTopicId == c && r.descendantTopicId == d
  {
    if InSubtree(topics, d, c) {
      var k: nat :| Climb(TopicLinks(topics), d, k) == Some(c);
      assert ClosureRow(c, d, k) in closure;
    }
    if r :| r in closure && r.ancestorTopicId == c && r.descendantTopicId == d {
      assert ClosureRow(c, d, r.depth) in closure;
    }
  }

  /** The index never joins one direct category to the same ancestor twice. */
  lemma JoinedOnce(topics: Topics, closure: set<ClosureRow>, groups: map<Id, Id>, c: Id)
    requires Acyclic(TopicLinks(topics)) && ClosureExact(TopicLinks(topics), closure)
    ensures forall r, q | r in JoinedRows(closure, groups, c) && q in JoinedRows(closure, groups, c) ::
              r.descendantTopicId == q.descendantTopicId ==> r == q
  {
    forall r, q | r in JoinedRows(closure, groups, c) && q in JoinedRows(closure, groups, c)
                  && r.descendantTopicId == q.descendantTopicId
      ensures r == q
    {
      assert r == ClosureRow(c, r.descendantTopicId, r.depth) && q == ClosureRow(c, r.descendantTopicId, q.depth);
      OneRowPerPair(TopicLinks(topics), closure, c, r.descendantTopicId, r.depth, q.depth);
    }
  }

  /** The threads counted through the joined groups are the visible threads below the category. */
  lemma JoinedThreads(f: Forum, acl: PublicAccess.Acl, closure: set<ClosureRow>, principal: Principal, cats: set<Id>, c: Id)
    requires ClosureExact(TopicLinks(f.topics), closure)
    ensures var groups := ThreadGroups(f, VisibleThreads(f, acl, principal, cats));
            MembersOf(groups, JoinedRows(closure, groups, c)) == ThreadsUnder(f, acl, principal, cats, c)
  {
    hide VisibleThreads, ClosureExact, ThreadGroups, PostGroups, InSubtree;
    var threads := VisibleThreads(f, acl, principal, cats);
    var groups := ThreadGroups(f, threads);
    GroupsMean(f, acl, principal, cats);
    forall t | t in threads
      ensures t in MembersOf(groups, JoinedRows(closure, groups, c)) <==> InSubtree(f.topics, groups[t], c)
    {
      InSubtreeByIndex(f.topics, closure, groups[t], c);
      assert groups[t] in groups.Values;
    }
  }

  /** So are the posts. */
  lemma JoinedPosts(f: Forum, acl: PublicAccess.Acl, closure: set<ClosureRow>, principal: Principal, cats: set<Id>, c: Id)
    requires ClosureExact(TopicLinks(f.topics), closure)
    ensures var threads := VisibleThreads(f, acl, principal, cats);
            MembersOf(PostGroups(f, threads), JoinedRows(closure, ThreadGroups(f, threads), c))
              == PostsUnder(f, acl, principal, cats, c)
  {
    hide VisibleThreads, ClosureExact, ThreadGroups, PostGroups, InSubtree;
    var threads := VisibleThreads(f, acl, principal, cats);
    var groups, posts := ThreadGroups(f, threads), PostGroups(f, threads);
    GroupsMean(f, acl, principal, cats);
    forall p | p in posts
      ensures p in MembersOf(posts, JoinedRows(closure, groups, c)) <==> InSubtree(f.topics, posts[p], c)
    {
      InSubtreeByIndex(f.topics, closure, posts[p], c);
      assert groups[f.posts[p].topicId] in groups.Values;
    }
  }

  /** A post belongs to the direct form exactly when its direct category is joined to `c`. */
  lemma PostIsUnder(f: Forum, acl: PublicAccess.Acl, closure: set<ClosureRow>, principal: Principal, cats: set<Id>, c: Id, p: Id)
    requires ClosureExact(TopicLinks(f.topics), closure)
    ensures var groups := PostGroups(f, VisibleThreads(f, acl, principal, cats));
            p in PostsUnder(f, acl, principal, cats, c) <==>
            p in groups && exists r :: r in closure && r.ancestorTopicId == c && r.descendantTopicId == groups[p]
  {
    hide VisibleThreads, ClosureExact, ThreadGroups, PostGroups, InSubtree;
    var groups := PostGroups(f, VisibleThreads(f, acl, principal, cats));
    GroupsMean(f, acl, principal, cats);
    if p in groups { InSubtreeByIndex(f.topics, closure, groups[p], c); }
  }

  /** For each post of the groups, the pick that stands for it: the latest of its author in its direct category. */
  ghost function StandIns(f: Forum, rank: Id -> int, groups: map<Id, Id>): map<Id, Id>
    requires groups.Keys <= f.posts.Keys
  {
    map p | p in groups && DirectAuthorPost(f, rank, groups, groups[p], f.posts[p].authorMemberId).Some? ::
      DirectAuthorPost(f, rank, groups, groups[p], f.posts[p].authorMemberId).value
  }

  /** Every post has a stand-in among the picks: by the same author, and no earlier. */
  ghost predicate Represents(posts: Posts, rank: Id -> int, all: set<Id>, picked: set<Id>, standIn: map<Id, Id>) {
    && picked <= all <= posts.Keys && all <= standIn.Keys
    && forall p {:trigger standIn[p]} :: p in all ==>
         && standIn[p] in picked && Later(posts, rank, standIn[p], p)
         && posts[standIn[p]].authorMemberId == posts[p].authorMemberId
  }

  lemma StandInIsPicked(f: Forum, rank: Id -> int, closure: set<ClosureRow>, groups: map<Id, Id>, c: Id, p: Id)
    requires groups.Keys <= f.posts.Keys && p in groups && Bytewise(rank)
    requires exists r :: r in closure && r.ancestorTopicId == c && r.descendantTopicId == groups[p]
    ensures p in StandIns(f, rank, groups)
    ensures var m := StandIns(f, rank, groups)[p];
            && m in RolledUpPosts(f, rank, closure, groups, c) && m in f.posts && Later(f.posts, rank, m, p)
            && f.posts[m].authorMemberId == f.posts[p].authorMemberId
  {
    hide Later;
    var mine := ByAuthor(f.posts, (set q | q in groups && groups[q] == groups[p]), f.posts[p].authorMemberId);
    assert p in mine;
    var m := Latest(f.posts, rank, mine).value;
    assert m in mine;
  }

  lemma PicksRepresent(f: Forum, acl: PublicAccess.Acl, closure: set<ClosureRow>, principal: Principal,
                       cats: set<Id>, rank: Id -> int, c: Id)
    requires Bytewise(rank) && ClosureExact(TopicLinks(f.topics), closure)
    ensures var groups := PostGroups(f, VisibleThreads(f, acl, principal, cats));
            Represents(f.posts, rank, PostsUnder(f, acl, principal, cats, c),
                       RolledUpPosts(f, rank, closure, groups, c), StandIns(f, rank, groups))
  {
    hide VisibleThreads, PostGroups, ClosureExact, Later, DirectAuthorPost, ThreadsUnder, StandIns;
    var groups := PostGroups(f, VisibleThreads(f, acl, principal, cats));
    var all, picked := PostsUnder(f, acl, principal, cats, c), RolledUpPosts(f, rank, closure, groups, c);
    forall p | p in picked ensures p in all {
      PostIsUnder(f, acl, closure, principal, cats, c, p);
    }
    forall p | p in all
      ensures p in StandIns(f, rank, groups)
      ensures var m := StandIns(f, rank, groups)[p];
              m in picked && Later(f.posts, rank, m, p) && f.posts[m].authorMemberId == f.posts[p].authorMemberId
    {
      PostIsUnder(f, acl, closure, principal, cats, c, p);
      StandInIsPicked(f, rank, closure, groups, c, p);
    }
  }

  lemma SameAuthors(posts: Posts, rank: Id -> int, all: set<Id>, picked: set<Id>, standIn: map<Id, Id>)
    requires Represents(posts, rank, all, picked, standIn)
    ensures Authors(posts, all) == Authors(posts, picked)
  {
    hide Later;
    forall a | a in Authors(posts, all) ensures a in Authors(posts, picked) {
      var p :| p in all && posts[p].authorMemberId == a;
      assert posts[standIn[p]].authorMemberId == a;
    }
  }

  lemma SameLatestOfAuthor(posts: Posts, rank: Id -> int, all: set<Id>, picked: set<Id>, standIn: map<Id, Id>, a: Id)
    requires Bytewise(rank) && Represents(posts, rank, all, picked, standIn)
    ensures Latest(posts, rank, ByAuthor(posts, all, a)) == Latest(posts, rank, ByAuthor(posts, picked, a))
  {
    hide Bytewise, Later;
    var top := Latest(posts, rank, ByAuthor(posts, all, a));
    LatestInStages(posts, rank, ByAuthor(posts, all, a), ByAuthor(posts, picked, a),
                   if top.Some? then standIn[top.value] else a);
  }

  /** Stand-ins suffice for everything the query derives from posts beyond counting. */
  lemma RepresentativesSuffice(posts: Posts, rank: Id -> int, all: set<Id>, picked: set<Id>, standIn: map<Id, Id>)
    requires Bytewise(rank) && Represents(posts, rank, all, picked, standIn)
    ensures Latest(posts, rank, all) == Latest(posts, rank, picked)
    ensures LatestPerAuthor(posts, rank, all) == LatestPerAuthor(posts, rank, picked)
  {
    hide Bytewise, Later, Authors, ByAuthor;
    var top := Latest(posts, rank, all);
    if top.Some? {
      LatestInStages(posts, rank, all, picked, standIn[top.value]);
    } else {
      assert picked == {};
    }
    PerAuthorValues(posts, rank, all);
    PerAuthorValues(posts, rank, picked);
    SameAuthors(posts, rank, all, picked, standIn);
    forall a | a in Authors(posts, all)
      ensures LatestPerAuthor(posts, rank, all)[a] == LatestPerAuthor(posts, rank, picked)[a]
    {
      SameLatestOfAuthor(posts, rank, all, picked, standIn, a);
    }
  }

  lemma UnreadInStages(f: Forum, acl: PublicAccess.Acl, closure: set<ClosureRow>, principal: Principal, cats: set<Id>, c: Id)
    requires ClosureExact(TopicLinks(f.topics), closure)
    ensures var threads := VisibleThreads(f, acl, principal, cats);
            var groups := PostGroups(f, threads);
            (exists r, p :: r in JoinedRows(closure, ThreadGroups(f, threads), c) && p in groups
                            && groups[p] == r.descendantTopicId && UnreadPost(f, principal.memberId, p))
            <==> exists p :: p in PostsUnder(f, acl, principal, cats, c) && UnreadPost(f, principal.memberId, p)
  {
    hide VisibleThreads, PostGroups, ThreadGroups, ClosureExact, UnreadPost;
    JoinedPosts(f, acl, closure, principal, cats, c);
  }

  /** The staged aggregation equals the direct one, column by column, for every forum with an exact index. */
  lemma StagedIsDirect(f: Forum, acl: PublicAccess.Acl, closure: set<ClosureRow>, principal: Principal,
                       cats: set<Id>, rank: Id -> int, c: Id)
    requires Sound(TopicLinks(f.topics)) && ClosureExact(TopicLinks(f.topics), closure) && Bytewise(rank)
    ensures StagedRollup(f, acl, closure, principal, cats, rank, c) == DirectRollup(f, acl, principal, cats, rank, c)
  {
    hide VisibleThreads, IndexedThreads, PostGroups, ThreadGroups, ClosureExact, UnreadPost, JoinedRows, RolledUpPosts,
         Bytewise, LatestPerAuthor, Participants, PostsUnder, ThreadsUnder, Represents, StandIns, Acyclic, Closed;
    var threads := VisibleThreads(f, acl, principal, cats);
    IndexedThreadsAreVisible(f, acl, closure, principal, cats);
    JoinedOnce(f.topics, closure, ThreadGroups(f, threads), c);
    JoinedThreads(f, acl, closure, principal, cats, c);
    JoinedPosts(f, acl, closure, principal, cats, c);
    SumCountsMembers(ThreadGroups(f, threads), JoinedRows(closure, ThreadGroups(f, threads), c));
    SumCountsMembers(PostGroups(f, threads), JoinedRows(closure, ThreadGroups(f, threads), c));
    PicksRepresent(f, acl, closure, principal, cats, rank, c);
    RepresentativesSuffice(f.posts, rank, PostsUnder(f, acl, principal, cats, c),
                           RolledUpPosts(f, rank, closure, PostGroups(f, threads), c),
                           StandIns(f, rank, PostGroups(f, threads)));
    UnreadInStages(f, acl, closure, principal, cats, c);
  }

  // ----- what the participant preview shows

  /** The preview lists at most five posts' authors: distinct posts, latest first, and nobody left out is later. */
  lemma {:induction false} RankedIsTop(posts: Posts, rank: Id -> int, ids: set<Id>, n: nat)
    requires Bytewise(rank) && ids <= posts.Keys
    ensures var top := Ranked(posts, rank, ids, n);
            && |top| == (if |ids| < n then |ids| else n)
            && (forall p :: p in top ==> p in ids)
            && (forall i, j | 0 <= i < j < |top| ::
                  top[i] != top[j] && top[i] in posts && top[j] in posts && Later(posts, rank, top[i], top[j]))
            && (forall p, q :: p in top && q in ids && q !in top ==> Later(posts, rank, p, q))
    decreases n
  {
    if n > 0 && ids != {} {
      var first := Latest(posts, rank, ids).value;
      var rest := ids - {first};
      RankedIsTop(posts, rank, rest, n - 1);
      assert |rest| == |ids| - 1;
      var below := Ranked(posts, rank, rest, n - 1);
      assert forall p :: p in below ==> p in rest;
    }
  }

  /** The participant count is the number of distinct authors. */
  lemma ParticipantsAreAuthors(f: Forum, acl: PublicAccess.Acl, principal: Principal, cats: set<Id>, rank: Id -> int, c: Id)
    ensures PostsUnder(f, acl, principal, cats, c) <= f.posts.Keys
    ensures DirectRollup(f, acl, principal, cats, rank, c).participantsCount ==
            |Authors(f.posts, PostsUnder(f, acl, principal, cats, c))|
  {
    hide ThreadsUnder;
    var posts := PostsUnder(f, acl, principal, cats, c);
    PerAuthorValues(f.posts, rank, posts);
    var perAuthor := LatestPerAuthor(f.posts, rank, posts);
    assert |perAuthor| == |perAuthor.Keys|;
  }

  // ----- what a rollup says, without the query's own notions

  /** The role filter of the query is the central policy, asked about the role alone. */
  lemma RoleVisibleIsPolicy(facts: AccessPolicy.Facts, principal: Principal, roleName: Option<Id>)
    ensures RoleVisible(principal, roleName) <==>
              AccessPolicy.EvaluateRestrictions(facts, principal, Restrictions(None, roleName, false)).visibility.Allow?
  {}

  /** A thread counts if it and everything above it is undeleted, it is no category and has no challenge, it lies directly in
  an authorised category, and the central policy lets the reader pass its role. */
  ghost predicate CountsFor(f: Forum, acl: PublicAccess.Acl, facts: AccessPolicy.Facts, principal: Principal, cats: set<Id>,
                            t: Id)
  {
    && Live(f.topics, t) && t !in acl.categories && f.topics[t].challengeId.None?
    && f.topics[t].parentTopicId.Some? && f.topics[t].parentTopicId.value in cats
    && AccessPolicy.EvaluateRestrictions(facts, principal, Restrictions(None, f.topics[t].roleName, false)).visibility.Allow?
  }

  lemma VisibleThreadsCount(f: Forum, acl: PublicAccess.Acl, facts: AccessPolicy.Facts, principal: Principal, cats: set<Id>, t: Id)
    ensures t in VisibleThreads(f, acl, principal, cats) <==> CountsFor(f, acl, facts, principal, cats, t)
  {
    hide RoleVisible, AccessPolicy.EvaluateRestrictions;
    if t in f.topics {
      RoleVisibleIsPolicy(facts, principal, f.topics[t].roleName);
      if f.topics[t].deletedAt.Some? { DeletedIsHidden(f.topics, t); }
    }
  }

  lemma DeletedIsHidden(topics: Topics, t: Id)
    requires t in topics && topics[t].deletedAt.Some?
    ensures Hidden(topics, t)
  {
    assert Climb(TopicLinks(topics), t, 0) == Some(t);
    assert InSubtree(topics, t, t);
  }

  /** The threads that count below a category, and their undeleted posts. */
  ghost predicate Below(f: Forum, acl: PublicAccess.Acl, facts: AccessPolicy.Facts, principal: Principal, cats: set<Id>, c: Id,
                        threads: set<Id>, posts: set<Id>)
  {
    && (forall t :: t in threads <==>
          CountsFor(f, acl, facts, principal, cats, t) && InSubtree(f.topics, f.topics[t].parentTopicId.value, c))
    && (forall p :: p in posts <==> p in f.posts && f.posts[p].deletedAt.None? && f.posts[p].topicId in threads)
  }

  lemma BelowIsUnder(f: Forum, acl: PublicAccess.Acl, facts: AccessPolicy.Facts, principal: Principal, cats: set<Id>, c: Id,
                     threads: set<Id>, posts: set<Id>)
    requires Below(f, acl, facts, principal, cats, c, threads, posts)
    ensures threads == ThreadsUnder(f, acl, principal, cats, c) && posts == PostsUnder(f, acl, principal, cats, c)
  {
    hide VisibleThreads, CountsFor, InSubtree;
    forall t ensures t in VisibleThreads(f, acl, principal, cats) <==> CountsFor(f, acl, facts, principal, cats, t) {
      VisibleThreadsCount(f, acl, facts, principal, cats, t);
    }
    CountingIsStored(f, acl, facts, principal, cats);
  }

  lemma CountingIsStored(f: Forum, acl: PublicAccess.Acl, facts: AccessPolicy.Facts, principal: Principal, cats: set<Id>)
    ensures forall t :: CountsFor(f, acl, facts, principal, cats, t) ==> t in f.topics && f.topics[t].parentTopicId.Some?
  {}

  /** The key's mark is missing, or older than the post. */
  ghost predicate PostedAfterRead(f: Forum, p: Id, key: MemberKey)
    requires p in f.posts
  {
    key in f.readStates ==> f.readStates[key] < f.posts[p].createdAt
  }

  /** The columns of a category's row: it counts the threads, the posts, and the posts' distinct authors; names the newest post,
  the higher id breaking ties; and is unread for a member exactly if some post is in a topic they never marked read, or is newer
  than their mark. */
  lemma RollupMeans(f: Forum, acl: PublicAccess.Acl, facts: AccessPolicy.Facts, closure: set<ClosureRow>, principal: Principal,
                    cats: set<Id>, rank: Id -> int, c: Id, threads: set<Id>, posts: set<Id>)
    requires Sound(TopicLinks(f.topics)) && ClosureExact(TopicLinks(f.topics), closure) && Bytewise(rank)
    requires Below(f, acl, facts, principal, cats, c, threads, posts)
    ensures posts <= f.posts.Keys
    ensures var row := StagedRollup(f, acl, closure, principal, cats, rank, c);
            && row.categoryId == c && row.topicsCount == |threads| && row.postsCount == |posts|
            && row.participantsCount == |set p | p in posts :: f.posts[p].authorMemberId|
            && (row.latestPost.None? <==> posts == {})
            && (row.latestPost.Some? ==>
                  && row.latestPost.value in posts
                  && forall p :: p in posts ==>
                       && f.posts[p].createdAt <= f.posts[row.latestPost.value].createdAt
                       && (f.posts[p].createdAt == f.posts[row.latestPost.value].createdAt ==>
                             rank(p) <= rank(row.latestPost.value)))
            && (row.unread <==>
                  && principal.memberId.Some?
                  && exists p :: p in posts && PostedAfterRead(f, p, MemberKey(f.posts[p].topicId, principal.memberId.value)))
  {
    hide Sound, ClosureExact, Bytewise, StagedRollup, Below, ThreadsUnder, PostsUnder, Participants, LatestPerAuthor;
    BelowIsUnder(f, acl, facts, principal, cats, c, threads, posts);
    StagedIsDirect(f, acl, closure, principal, cats, rank, c);
    ParticipantsAreAuthors(f, acl, principal, cats, rank, c);
  }

  /** None of these posts is by the author of `p`. */
  ghost predicate NotAmongAuthors(posts: Posts, top: seq<Id>, p: Id)
    requires p in posts && forall i :: 0 <= i < |top| ==> top[i] in posts
  {
    forall i :: 0 <= i < |top| ==> posts[top[i]].authorMemberId != posts[p].authorMemberId
  }

  /** The preview, post by post: five authors, or all there are, each once and with their newest post; the authors appear from
  latest to earliest, and whoever is left out has posted nothing later. */
  ghost predicate Previews(posts: Posts, rank: Id -> int, ids: set<Id>, top: seq<Id>, shown: seq<Participant>)
    requires ids <= posts.Keys
  {
    var authors := set p | p in ids :: posts[p].authorMemberId;
    && |shown| == |top| == (if |authors| < 5 then |authors| else 5)
    && (forall i :: 0 <= i < |top| ==> top[i] in ids)
    && (forall i :: 0 <= i < |top| ==> shown[i] == Participant(posts[top[i]].authorMemberId, posts[top[i]].authorHandle))
    && (forall i, j :: 0 <= i < j < |top| ==>
          posts[top[i]].authorMemberId != posts[top[j]].authorMemberId && Later(posts, rank, top[i], top[j]))
    && (forall i, p :: 0 <= i < |top| && p in ids && posts[p].authorMemberId == posts[top[i]].authorMemberId ==>
          Later(posts, rank, top[i], p))
    && (forall i, p :: 0 <= i < |top| && p in ids && NotAmongAuthors(posts, top, p) ==> Later(posts, rank, top[i], p))
  }

  lemma PreviewMeans(f: Forum, acl: PublicAccess.Acl, facts: AccessPolicy.Facts, closure: set<ClosureRow>, principal: Principal,
                     cats: set<Id>, rank: Id -> int, c: Id, threads: set<Id>, posts: set<Id>) returns (top: seq<Id>)
    requires Sound(TopicLinks(f.topics)) && ClosureExact(TopicLinks(f.topics), closure) && Bytewise(rank)
    requires Below(f, acl, facts, principal, cats, c, threads, posts)
    ensures posts <= f.posts.Keys
    ensures Previews(f.posts, rank, posts, top, StagedRollup(f, acl, closure, principal, cats, rank, c).participants)
  {
    hide Sound, ClosureExact, StagedRollup, Below, ThreadsUnder, PostsUnder, LatestPerAuthor, Ranked, Preview, Bytewise, Later,
         Previews;
    BelowIsUnder(f, acl, facts, principal, cats, c, threads, posts);
    StagedIsDirect(f, acl, closure, principal, cats, rank, c);
    ParticipantsAreAuthors(f, acl, principal, cats, rank, c);
    PerAuthorValues(f.posts, rank, posts);
    top := TopAuthors(f.posts, rank, posts);
  }

  /** Someone's newest post is by them, and no post of theirs is later. */
  lemma LatestOfAuthor(posts: Posts, rank: Id -> int, ids: set<Id>, a: Id)
    requires ids <= posts.Keys && a in Authors(posts, ids)
    ensures var perAuthor := LatestPerAuthor(posts, rank, ids);
            && a in perAuthor && perAuthor[a] in ids && posts[perAuthor[a]].authorMemberId == a
            && forall p :: p in ids && posts[p].authorMemberId == a ==> Later(posts, rank, perAuthor[a], p)
  {
    hide Later;
    PerAuthorValues(posts, rank, ids);
  }

  lemma TopAuthors(posts: Posts, rank: Id -> int, ids: set<Id>) returns (top: seq<Id>)
    requires Bytewise(rank) && ids <= posts.Keys && LatestPerAuthor(posts, rank, ids).Values <= ids
    ensures top == Ranked(posts, rank, LatestPerAuthor(posts, rank, ids).Values, 5)
    ensures Previews(posts, rank, ids, top, Preview(posts, top))
  {
    hide Bytewise, LatestPerAuthor, Ranked, Preview, Later;
    var perAuthor := LatestPerAuthor(posts, rank, ids);
    top := Ranked(posts, rank, perAuthor.Values, 5);
    PerAuthorValues(posts, rank, ids);
    RankedIsTop(posts, rank, perAuthor.Values, 5);
    forall a | a in Authors(posts, ids)
      ensures a in perAuthor && perAuthor[a] in ids && posts[perAuthor[a]].authorMemberId == a
      ensures forall p :: p in ids && posts[p].authorMemberId == a ==> Later(posts, rank, perAuthor[a], p)
    {
      LatestOfAuthor(posts, rank, ids, a);
    }
    OneValueEach(posts, perAuthor);
    PreviewAt(posts, top);
    assert Authors(posts, ids) == set p | p in ids :: posts[p].authorMemberId;
    forall i | 0 <= i < |top| ensures top[i] == perAuthor[posts[top[i]].authorMemberId] {
      assert top[i] in perAuthor.Values;
    }
    forall i, p | 0 <= i < |top| && p in ids && NotAmongAuthors(posts, top, p) ensures Later(posts, rank, top[i], p) {
      LeftOutIsEarlier(posts, rank, ids, top, i, p);
    }
  }

  lemma LeftOutIsEarlier(posts: Posts, rank: Id -> int, ids: set<Id>, top: seq<Id>, i: nat, p: Id)
    requires Bytewise(rank) && ids <= posts.Keys && p in ids && LatestPerAuthor(posts, rank, ids).Values <= ids
    requires top == Ranked(posts, rank, LatestPerAuthor(posts, rank, ids).Values, 5) && i < |top|
    requires forall j :: 0 <= j < |top| ==> top[j] in posts
    requires NotAmongAuthors(posts, top, p)
    ensures Later(posts, rank, top[i], p)
  {
    hide Bytewise, LatestPerAuthor, Ranked, Later;
    var perAuthor := LatestPerAuthor(posts, rank, ids);
    RankedIsTop(posts, rank, perAuthor.Values, 5);
    LatestOfAuthor(posts, rank, ids, posts[p].authorMemberId);
    var newest := perAuthor[posts[p].authorMemberId];
    assert newest in perAuthor.Values && newest !in top;
    LaterTransitive(posts, rank, top[i], newest, p);
  }

  lemma LaterTransitive(posts: Posts, rank: Id -> int, p: Id, q: Id, r: Id)
    requires p in posts && q in posts && r in posts && Later(posts, rank, p, q) && Later(posts, rank, q, r)
    ensures Later(posts, rank, p, r)
  {}

  lemma {:induction false} PreviewAt(posts: Posts, ranked: seq<Id>)
    requires forall i :: 0 <= i < |ranked| ==> ranked[i] in posts
    ensures |Preview(posts, ranked)| == |ranked|
    ensures forall i :: 0 <= i < |ranked| ==>
              Preview(posts, ranked)[i] == Participant(posts[ranked[i]].authorMemberId, posts[ranked[i]].authorHandle)
  {
    if ranked != [] {
      PreviewAt(posts, ranked[1..]);
    }
  }

  /** Different authors have different newest posts. */
  lemma {:induction false} OneValueEach(posts: Posts, newest: map<Id, Id>)
    requires forall a :: a in newest ==> newest[a] in posts && posts[newest[a]].authorMemberId == a
    ensures |newest.Values| == |newest.Keys|
  {
    if newest != map[] {
      var a :| a in newest;
      OneValueEach(posts, newest - {a});
      WithoutOne(posts, newest, a);
    }
  }

  lemma WithoutOne(posts: Posts, newest: map<Id, Id>, a: Id)
    requires forall b :: b in newest ==> newest[b] in posts && posts[newest[b]].authorMemberId == b
    requires a in newest
    ensures |newest.Keys| == |(newest - {a}).Keys| + 1 && |newest.Values| == |(newest - {a}).Values| + 1
  {
    var rest := newest - {a};
    assert newest.Keys == rest.Keys + {a};
    assert newest.Values == rest.Values + {newest[a]};
    assert newest[a] !in rest.Values;
  }
}
