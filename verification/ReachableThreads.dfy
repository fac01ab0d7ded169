/** The command side and the read side together: in every state the commands can reach, a topic's thread
shows every one of its posts exactly once. */
module ReachableThreads {
  import opened Basics
  import opened ParentLinks
  import opened ForumState
  import opened CommandRuns
  import PostTree

  function RowOf(id: Id, post: Post): PostTree.PostRow {
    PostTree.PostRow(id, post.topicId, post.parentType, post.parentId, post.authorMemberId, post.content,
                     post.createdAt, post.deletedAt.Some?)
  }

  /** The answer to "all posts of this topic", deleted ones included, in any order. */
  ghost predicate ListsPosts(posts: Posts, t: Id, rows: seq<PostTree.PostRow>) {
    && PostTree.DistinctRows(rows)
    && (forall r :: r in rows ==> r.id in posts && posts[r.id].topicId == t && r == RowOf(r.id, posts[r.id]))
    && (forall p :: p in posts && posts[p].topicId == t ==> RowOf(p, posts[p]) in rows)
  }

  /** There is such an answer for every topic. */
  lemma SomeListing(posts: Posts, t: Id) returns (rows: seq<PostTree.PostRow>)
    ensures ListsPosts(posts, t, rows)
  {
    rows := ListingOf(posts, t, set p | p in posts && posts[p].topicId == t);
  }

  lemma {:induction false} ListingOf(posts: Posts, t: Id, ids: set<Id>) returns (rows: seq<PostTree.PostRow>)
    requires forall p :: p in ids ==> p in posts && posts[p].topicId == t
    ensures PostTree.DistinctRows(rows)
    ensures forall r :: r in rows ==> r.id in ids && r == RowOf(r.id, posts[r.id])
    ensures forall p :: p in ids ==> RowOf(p, posts[p]) in rows
  {
    rows := [];
    if ids != {} {
      var p :| p in ids;
      var rest := ListingOf(posts, t, ids - {p});
      rows := rest + [RowOf(p, posts[p])];
    }
  }

  ghost predicate RowsMatch(posts: Posts, t: Id, byId: PostTree.Rows) {
    && (forall id :: id in byId <==> id in posts && posts[id].topicId == t)
    && (forall id :: id in byId ==> byId[id] == RowOf(id, posts[id]))
  }

  lemma ListedRowsMatch(posts: Posts, t: Id, rows: seq<PostTree.PostRow>)
    requires PostTree.DistinctRows(rows) && ListsPosts(posts, t, rows)
    ensures RowsMatch(posts, t, PostTree.ById(rows))
  {
    hide PostTree.ById, ListsPosts;
    var byId := PostTree.ById(rows);
    forall id ensures id in byId <==> id in posts && posts[id].topicId == t {
      if id in byId { ListedIsRow(posts, t, rows, id); }
      if id in posts && posts[id].topicId == t { RowIsListed(posts, t, rows, id); }
    }
    forall id | id in byId ensures byId[id] == RowOf(id, posts[id]) {
      ListedIsRow(posts, t, rows, id);
    }
  }

  lemma ListedIsRow(posts: Posts, t: Id, rows: seq<PostTree.PostRow>, id: Id)
    requires ListsPosts(posts, t, rows) && id in PostTree.ById(rows)
    ensures id in posts && posts[id].topicId == t && PostTree.ById(rows)[id] == RowOf(id, posts[id])
  {
    var i :| 0 <= i < |rows| && PostTree.RowIds(rows)[i] == id;
    assert rows[i] in rows;
  }

  lemma RowIsListed(posts: Posts, t: Id, rows: seq<PostTree.PostRow>, id: Id)
    requires ListsPosts(posts, t, rows) && id in posts && posts[id].topicId == t
    ensures id in PostTree.ById(rows)
  {
    var i :| 0 <= i < |rows| && rows[i] == RowOf(id, posts[id]);
    assert rows[i].id in PostTree.ById(rows);
  }

  /** Within one topic, the display links are the stored reply links. */
  lemma {:induction false} SameWalks(topics: Topics, posts: Posts, t: Id, byId: PostTree.Rows, id: Id, k: nat)
    requires PostsOk(topics, posts) && RowsMatch(posts, t, byId) && id in byId
    ensures Climb(PostTree.LinksOf(byId), id, k) == Climb(PostLinks(posts), id, k)
    decreases k
  {
    hide Acyclic;
    if k > 0 && PostParent(posts[id]).Some? {
      assert posts[id].parentId in byId;
      SameWalks(topics, posts, t, byId, posts[id].parentId, k - 1);
    }
  }

  lemma NoCycleInTopic(topics: Topics, posts: Posts, t: Id, byId: PostTree.Rows, id: Id)
    requires PostsOk(topics, posts) && RowsMatch(posts, t, byId) && id in byId
    ensures !BelowCycle(PostTree.LinksOf(byId), id)
  {
    hide RowsMatch, PostTree.LinksOf;
    var up := PostTree.LinksOf(byId);
    forall i: nat, c, p: nat | Climb(up, id, i) == Some(c) && p > 0 ensures Climb(up, c, p) != Some(c) {
      ClimbStored(up, id, i);
      LinksAreOfRows(byId);
      SameWalks(topics, posts, t, byId, c, p);
    }
  }

  lemma LinksAreOfRows(byId: PostTree.Rows)
    ensures PostTree.LinksOf(byId).Keys == byId.Keys
  {}

  /** Because a reply is only accepted under a stored post of its own topic, every well-formed state is
  rendered without loss. */
  lemma ThreadShowsEveryPost(f: Forum, t: Id, rows: seq<PostTree.PostRow>, collate: Id -> int,
                             forest: seq<PostTree.PostNode>, p: Id)
    requires WellFormed(f) && ListsPosts(f.posts, t, rows)
    requires PostTree.ShowsForest(PostTree.ById(rows), PostTree.TargetLayout(PostTree.ById(rows), collate, PostTree.RowIds(rows)), forest)
    ensures multiset(PostTree.FlattenAll(forest))[p] == if p in f.posts && f.posts[p].topicId == t then 1 else 0
  {
    hide PostTree.ShowsForest, PostTree.TargetLayout, Sound, BelowCycle, PostTree.LayoutOk, PostTree.LayoutSorted;
    var byId := PostTree.ById(rows);
    ListedRowsMatch(f.posts, t, rows);
    PostTree.AboutRows(rows);
    PostTree.TargetLayoutOk(byId, collate, PostTree.RowIds(rows));
    PostTree.ForestHoldsExactlyTheRooted(byId, PostTree.TargetLayout(byId, collate, PostTree.RowIds(rows)), forest, p);
    if p in byId { NoCycleInTopic(f.topics, f.posts, t, byId, p); }
  }

  /** The same, said of every state any interleaving of commands reaches. */
  lemma EveryReachableThreadIsComplete(s: Sys, events: seq<Event>, t: Id, rows: seq<PostTree.PostRow>, collate: Id -> int,
                                       forest: seq<PostTree.PostNode>, p: Id)
    requires WellFormed(s.forum)
    requires ListsPosts(Run(s, events).forum.posts, t, rows)
    requires PostTree.ShowsForest(PostTree.ById(rows), PostTree.TargetLayout(PostTree.ById(rows), collate, PostTree.RowIds(rows)), forest)
    ensures var posts := Run(s, events).forum.posts;
            multiset(PostTree.FlattenAll(forest))[p] == if p in posts && posts[p].topicId == t then 1 else 0
  {
    hide *;
    RunKeepsWellFormed(s, events);
    ThreadShowsEveryPost(Run(s, events).forum, t, rows, collate, forest, p);
  }

  // ----- what is shown of each post

  /** A list of a topic's thread, told from the stored posts: exactly the posts of the topic that answer `parent`, or answer no
  post, oldest first, each with its author and its content, or no content when deleted, over the list of its own answers. */
  ghost predicate ShowsPosts(posts: Posts, t: Id, collate: Id -> int, parent: Option<Id>, nodes: seq<PostTree.PostNode>)
    decreases nodes
  {
    && PostTree.OldestFirst(collate, nodes)
    && (forall p :: p in PostTree.IdsOf(nodes) <==>
          && p in posts && posts[p].topicId == t
          && parent == (if posts[p].parentType == "POST" then Some(posts[p].parentId) else None))
    && forall node :: node in nodes ==>
         && node.row.id in posts
         && (var post := posts[node.row.id];
             && node.row.createdAt == post.createdAt && node.row.authorMemberId == post.authorMemberId
             && node.content == (if post.deletedAt.Some? then None else post.content))
         && ShowsPosts(posts, t, collate, Some(node.row.id), node.replies)
  }

  lemma ListedHangs(f: Forum, t: Id, rows: seq<PostTree.PostRow>, parent: Option<Id>, p: Id)
    requires PostsOk(f.topics, f.posts) && ListsPosts(f.posts, t, rows) && p in f.posts && f.posts[p].topicId == t
    ensures RowOf(p, f.posts[p]) in rows
    ensures PostTree.HangsFrom(rows, RowOf(p, f.posts[p]), parent) <==>
              parent == (if f.posts[p].parentType == "POST" then Some(f.posts[p].parentId) else None)
  {
    hide Acyclic, PostLinks;
    var post := f.posts[p];
    if post.parentType == "POST" {
      assert PostParent(post) == Some(post.parentId);
      assert RowOf(post.parentId, f.posts[post.parentId]) in rows;
    }
  }

  /** What the builder makes of the rows of a well-formed topic reads, post by post, as the stored posts do. */
  lemma {:induction false} ThreadReads(f: Forum, t: Id, rows: seq<PostTree.PostRow>, collate: Id -> int, parent: Option<Id>,
                                       nodes: seq<PostTree.PostNode>)
    requires PostsOk(f.topics, f.posts) && ListsPosts(f.posts, t, rows) && PostTree.ReadsAs(rows, collate, parent, nodes)
    ensures ShowsPosts(f.posts, t, collate, parent, nodes)
    decreases nodes
  {
    hide PostsOk, PostTree.OldestFirst, PostTree.HangsFrom;
    forall p ensures p in PostTree.IdsOf(nodes) <==>
                       && p in f.posts && f.posts[p].topicId == t
                       && parent == (if f.posts[p].parentType == "POST" then Some(f.posts[p].parentId) else None)
    {
      if p in PostTree.IdsOf(nodes) {
        var i :| 0 <= i < |nodes| && PostTree.IdsOf(nodes)[i] == p;
        assert nodes[i] in nodes;
        assert nodes[i].row in rows && nodes[i].row == RowOf(p, f.posts[p]);
      }
      if p in f.posts && f.posts[p].topicId == t { ListedHangs(f, t, rows, parent, p); }
    }
    forall node | node in nodes ensures ShowsPosts(f.posts, t, collate, Some(node.row.id), node.replies) {
      ThreadReads(f, t, rows, collate, Some(node.row.id), node.replies);
    }
  }

  /** In every state that any interleaving of commands reaches, the thread of a topic shows its posts as they are stored. */
  lemma EveryReachableThreadReads(s: Sys, events: seq<Event>, t: Id, rows: seq<PostTree.PostRow>, collate: Id -> int,
                                  forest: seq<PostTree.PostNode>)
    requires WellFormed(s.forum)
    requires ListsPosts(Run(s, events).forum.posts, t, rows) && PostTree.ReadsAs(rows, collate, None, forest)
    ensures ShowsPosts(Run(s, events).forum.posts, t, collate, None, forest)
  {
    hide Run, Sound, PostsOk, ListsPosts, ShowsPosts, PostTree.ReadsAs;
    RunKeepsWellFormed(s, events);
    ThreadReads(Run(s, events).forum, t, rows, collate, None, forest);
  }
}
