/** The forum's stored state, and what it means for a topic to be hidden.

The abstract state has no ancestor index: liveness and ancestry are defined by walking parent pointers.
*/
module ForumState {
  import opened Basics
  import opened ParentLinks

  datatype Topic = Topic(
    parentTopicId: Option<Id>, challengeId: Option<Id>, roleName: Option<Id>,
    title: string, isAnnouncement: bool,
    locked: bool, lockedAt: Option<int>, lockedByMemberId: Option<Id>,
    authorMemberId: Id, authorHandle: string, createdAt: int, updatedAt: int,
    deletedAt: Option<int>, deletedByMemberId: Option<Id>)

  datatype Post = Post(
    topicId: Id, parentType: string, parentId: Id,
    authorMemberId: Id, authorHandle: string, content: Option<string>, createdAt: int, updatedAt: int,
    deletedAt: Option<int>, deletedByMemberId: Option<Id>)

  datatype Reaction = ThumbsUp | ThumbsDown

  /** The primary key of reactions (by post), watches and read states (by topic). */
  datatype MemberKey = MemberKey(target: Id, memberId: Id)

  type Topics = map<Id, Topic>
  type Posts = map<Id, Post>

  datatype Forum = Forum(
    topics: Topics, posts: Posts,
    reactions: map<MemberKey, Reaction>, watches: map<MemberKey, bool>, readStates: map<MemberKey, int>)

  const EMPTY_FORUM := Forum(map[], map[], map[], map[], map[])

  function TopicLinks(topics: Topics): Links<Id> {
    map t | t in topics :: topics[t].parentTopicId
  }

  function PostParent(post: Post): Option<Id> {
    if post.parentType == "POST" then Some(post.parentId) else None
  }

  function PostLinks(posts: Posts): Links<Id> {
    map p | p in posts :: PostParent(posts[p])
  }

  /** `a` is `d` or one of its ancestors. */
  ghost predicate InSubtree(topics: Topics, d: Id, a: Id) {
    exists k: nat :: Climb(TopicLinks(topics), d, k) == Some(a)
  }

  /** The topic or one of its ancestors is soft-deleted. */
  ghost predicate Hidden(topics: Topics, t: Id) {
    exists a :: InSubtree(topics, t, a) && a in topics && topics[a].deletedAt.Some?
  }

  ghost predicate Live(topics: Topics, t: Id) {
    t in topics && !Hidden(topics, t)
  }

  ghost predicate PostsOk(topics: Topics, posts: Posts) {
    && (forall p :: p in posts ==> posts[p].topicId in topics)
    && (forall p :: p in posts && PostParent(posts[p]).Some? ==>
          posts[p].parentId in posts && posts[posts[p].parentId].topicId == posts[p].topicId)
    && Acyclic(PostLinks(posts))
  }

  ghost predicate WellFormed(f: Forum) {
    && Sound(TopicLinks(f.topics))
    && PostsOk(f.topics, f.posts)
    && (forall k :: k in f.reactions ==> k.target in f.posts)
    && (forall k :: k in f.watches ==> k.target in f.topics)
    && (forall k :: k in f.readStates ==> k.target in f.topics)
  }

  lemma LinksAre(topics: Topics)
    ensures TopicLinks(topics).Keys == topics.Keys
    ensures forall t :: t in topics ==> TopicLinks(topics)[t] == topics[t].parentTopicId
  {}

  lemma LinksUpdate(topics: Topics, id: Id, topic: Topic)
    ensures TopicLinks(topics[id := topic]) == TopicLinks(topics)[id := topic.parentTopicId]
    ensures id in topics && topics[id].parentTopicId == topic.parentTopicId ==>
              TopicLinks(topics[id := topic]) == TopicLinks(topics)
  {
    assert TopicLinks(topics[id := topic]) == TopicLinks(topics)[id := topic.parentTopicId];
  }

  lemma PostLinksUpdate(posts: Posts, id: Id, post: Post)
    ensures PostLinks(posts[id := post]) == PostLinks(posts)[id := PostParent(post)]
    ensures id in posts && PostParent(posts[id]) == PostParent(post) ==> PostLinks(posts[id := post]) == PostLinks(posts)
  {
    assert PostLinks(posts[id := post]) == PostLinks(posts)[id := PostParent(post)];
  }

  lemma EmptyIsWellFormed()
    ensures WellFormed(EMPTY_FORUM)
  {
    assert forall d: Id, k: nat :: Climb(PostLinks(map[]), d, k) == None;
    assert forall d: Id, k: nat :: Climb(TopicLinks(map[]), d, k) == None;
  }

  /** What may happen to the topic table from one state to a later one: rows stay, keep their parent and
  challenge, and never come back from deletion. */
  ghost predicate TopicsEvolve(before: Topics, after: Topics) {
    forall t :: t in before ==>
      && t in after
      && after[t].parentTopicId == before[t].parentTopicId
      && after[t].challengeId == before[t].challengeId
      && (before[t].deletedAt.Some? ==> after[t].deletedAt.Some?)
  }

  /** Existing walks survive any such evolution. */
  lemma {:induction false} ClimbEvolves(before: Topics, after: Topics, d: Id, k: nat)
    requires TopicsEvolve(before, after) && Closed(TopicLinks(before)) && d in before
    ensures Climb(TopicLinks(after), d, k) == Climb(TopicLinks(before), d, k)
    decreases k
  {
    if k > 0 && before[d].parentTopicId.Some? {
      assert d in TopicLinks(before);
      ClimbEvolves(before, after, before[d].parentTopicId.value, k - 1);
    }
  }

  /** Once hidden, always hidden. */
  lemma HiddenStays(before: Topics, after: Topics, t: Id)
    requires TopicsEvolve(before, after) && Closed(TopicLinks(before)) && Hidden(before, t)
    ensures Hidden(after, t)
  {
    var a :| InSubtree(before, t, a) && a in before && before[a].deletedAt.Some?;
    var k: nat :| Climb(TopicLinks(before), t, k) == Some(a);
    ClimbStored(TopicLinks(before), t, k);
    ClimbEvolves(before, after, t, k);
    assert InSubtree(after, t, a);
  }

  /** Everything below a hidden topic is hidden. */
  lemma SubtreeHidden(topics: Topics, d: Id, t: Id)
    requires InSubtree(topics, d, t) && Hidden(topics, t)
    ensures Hidden(topics, d)
  {
    var j: nat :| Climb(TopicLinks(topics), d, j) == Some(t);
    var a :| InSubtree(topics, t, a) && a in topics && topics[a].deletedAt.Some?;
    var k: nat :| Climb(TopicLinks(topics), t, k) == Some(a);
    ClimbAdd(TopicLinks(topics), d, j, k);
    assert InSubtree(topics, d, a);
  }
}
