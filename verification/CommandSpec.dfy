/** What each command transaction does to the stored forum.

A command runs in two steps: an authorization read, whose findings are frozen in a `Prepared` value, and one
atomic transaction. `Commit` is the transaction, on the abstract state: liveness is "no deleted topic on the
parent walk", and there is no ancestor index.
*/
module CommandSpec {
  import opened Basics
  import opened ParentLinks
  import opened ForumState
  import opened AccessTypes

  datatype Author = Author(memberId: Id, handle: string, seedMemberState: bool)

  datatype TopicDraft = TopicDraft(
    parentTopicId: Option<Id>, challengeId: Option<Id>, roleName: Option<Id>,
    title: string, isAnnouncement: bool, author: Author, content: string)

  datatype TopicPatch = TopicPatch(title: Option<string>, isAnnouncement: Option<bool>, roleName: Option<Option<Id>>)

  /** A command whose authorization has been granted, waiting for its transaction. */
  datatype Prepared =
    | CreateTopic(draft: TopicDraft)
    | UpdateTopic(topicId: Id, patch: TopicPatch)
    | DeleteTopic(topicId: Id, actor: Option<Id>)
    | CreatePost(topicId: Id, parentType: Option<string>, parentId: Option<Id>, author: Author, content: string)
    | UpdatePost(postId: Id, content: string)
    | DeletePost(postId: Id, actor: Option<Id>)
    | SetReaction(postId: Id, memberId: Id, reaction: Reaction)
    | RemoveReaction(postId: Id, memberId: Id)
    | AddWatch(topicId: Id, memberId: Id)
    | RemoveWatch(topicId: Id, memberId: Id, challengeScoped: bool)
    | MarkRead(topicId: Id, memberId: Id, lastReadAt: int)
    | SetLock(topicId: Id, locked: bool, actor: Option<Id>)

  /** What the database and the clock supply to a transaction. */
  datatype Supply = Supply(topicId: Id, postId: Id, now: int)

  datatype Outcome = Committed(forum: Forum) | Rejected(error: CommandError)

  function After(f: Forum, outcome: Outcome): Forum {
    if outcome.Committed? then outcome.forum else f
  }

  function NewTopic(draft: TopicDraft, now: int): Topic {
    Topic(draft.parentTopicId, draft.challengeId, draft.roleName, draft.title, draft.isAnnouncement,
          false, None, None, draft.author.memberId, draft.author.handle, now, now, None, None)
  }

  function NewPost(topicId: Id, parentType: string, parentId: Id, author: Author, content: string, now: int): Post {
    Post(topicId, parentType, parentId, author.memberId, author.handle, Some(content), now, now, None, None)
  }

  function Patched(topic: Topic, patch: TopicPatch, now: int): Topic {
    topic.(title := if patch.title.Some? then patch.title.value else topic.title,
           isAnnouncement := if patch.isAnnouncement.Some? then patch.isAnnouncement.value else topic.isAnnouncement,
           roleName := if patch.roleName.Some? then patch.roleName.value else topic.roleName,
           updatedAt := now)
  }

  /** Where a new post hangs: the topic by default, otherwise exactly the topic or a stored post of it. */
  function ResolvePostParent(posts: Posts, topicId: Id, parentType: Option<string>, parentId: Option<Id>)
    : Result<(string, Id), CommandError>
  {
    if parentType.None? && parentId.None? then Ok(("TOPIC", topicId))
    else if parentType.None? || parentId.None? || parentType.value == "" || parentId.value.text == "" then Err(BadRequest)
    else if parentType.value == "TOPIC" then
      if parentId.value != topicId then Err(BadRequest) else Ok(("TOPIC", topicId))
    else if parentType.value != "POST" then Err(BadRequest)
    else if parentId.value in posts && posts[parentId.value].topicId == topicId then Ok(("POST", parentId.value))
    else Err(ParentPostNotFound)
  }

  function SeedRead(states: map<MemberKey, int>, topicId: Id, author: Author, now: int): map<MemberKey, int> {
    if author.seedMemberState then states[MemberKey(topicId, author.memberId) := now] else states
  }

  function SeedWatch(watches: map<MemberKey, bool>, topicId: Id, author: Author): map<MemberKey, bool> {
    var key := MemberKey(topicId, author.memberId);
    if key in watches then watches else watches[key := true]
  }

  ghost function CommitCreateTopic(f: Forum, draft: TopicDraft, supply: Supply): Outcome {
    if draft.parentTopicId.Some? && !Live(f.topics, draft.parentTopicId.value) then Rejected(NotFound)
    else if supply.topicId in f.topics || supply.postId in f.posts then Rejected(DuplicateId)
    else
      var id := supply.topicId;
      var starter := NewPost(id, "TOPIC", id, draft.author, draft.content, supply.now);
      Committed(Forum(
        f.topics[id := NewTopic(draft, supply.now)],
        f.posts[supply.postId := starter],
        f.reactions,
        if draft.author.seedMemberState && draft.challengeId.None?
        then SeedWatch(f.watches, id, draft.author) else f.watches,
        SeedRead(f.readStates, id, draft.author, supply.now)))
  }

  ghost function CommitUpdateTopic(f: Forum, topicId: Id, patch: TopicPatch, now: int): Outcome {
    if !Live(f.topics, topicId) then Rejected(NotFound)
    else Committed(f.(topics := f.topics[topicId := Patched(f.topics[topicId], patch, now)]))
  }

  ghost function CommitDeleteTopic(f: Forum, topicId: Id, actor: Option<Id>, now: int): Outcome {
    if !Live(f.topics, topicId) then Rejected(NotFound)
    else Committed(f.(topics := f.topics[topicId :=
      f.topics[topicId].(deletedAt := Some(now), deletedByMemberId := actor, updatedAt := now)]))
  }

  ghost function CommitCreatePost(
    f: Forum, topicId: Id, parentType: Option<string>, parentId: Option<Id>, author: Author, content: string,
    supply: Supply): Outcome
  {
    if !Live(f.topics, topicId) then Rejected(NotFound)
    else
      match ResolvePostParent(f.posts, topicId, parentType, parentId)
      case Err(e) => Rejected(e)
      case Ok(parent) =>
        if supply.postId in f.posts then Rejected(DuplicateId)
        else
          Committed(f.(
            posts := f.posts[supply.postId := NewPost(topicId, parent.0, parent.1, author, content, supply.now)],
            readStates := SeedRead(f.readStates, topicId, author, supply.now)))
  }

  /** The post exists, is not deleted, and its topic is live. */
  ghost predicate Mutable(f: Forum, postId: Id) {
    postId in f.posts && Live(f.topics, f.posts[postId].topicId) && f.posts[postId].deletedAt.None?
  }

  ghost function CommitUpdatePost(f: Forum, postId: Id, content: string, now: int): Outcome {
    if !Mutable(f, postId) then Rejected(NotFound)
    else Committed(f.(posts := f.posts[postId := f.posts[postId].(content := Some(content), updatedAt := now)]))
  }

  ghost function CommitDeletePost(f: Forum, postId: Id, actor: Option<Id>, now: int): Outcome {
    if postId !in f.posts || !Live(f.topics, f.posts[postId].topicId) then Rejected(NotFound)
    else if f.posts[postId].deletedAt.Some? then Committed(f)
    else Committed(f.(posts := f.posts[postId :=
      f.posts[postId].(content := None, deletedAt := Some(now), deletedByMemberId := actor, updatedAt := now)]))
  }

  ghost function CommitReaction(f: Forum, postId: Id, memberId: Id, reaction: Option<Reaction>): Outcome {
    var key := MemberKey(postId, memberId);
    if !Mutable(f, postId) then Rejected(NotFound)
    else Committed(f.(reactions :=
      if reaction.Some? then f.reactions[key := reaction.value] else f.reactions - {key}))
  }

  ghost function CommitWatch(f: Forum, topicId: Id, memberId: Id, choice: Option<bool>): Outcome {
    var key := MemberKey(topicId, memberId);
    if !Live(f.topics, topicId) then Rejected(NotFound)
    else Committed(f.(watches := if choice.Some? then f.watches[key := choice.value] else f.watches - {key}))
  }

  ghost function CommitRead(f: Forum, topicId: Id, memberId: Id, lastReadAt: int): Outcome {
    if !Live(f.topics, topicId) then Rejected(NotFound)
    else Committed(f.(readStates := f.readStates[MemberKey(topicId, memberId) := lastReadAt]))
  }

  /** Moderation writes the lock columns without re-checking liveness. */
  ghost function CommitLock(f: Forum, topicId: Id, locked: bool, actor: Option<Id>, now: int): Outcome {
    if topicId !in f.topics then Rejected(NotFound)
    else Committed(f.(topics := f.topics[topicId :=
      f.topics[topicId].(locked := locked,
                         lockedAt := if locked then Some(now) else None,
                         lockedByMemberId := if locked then actor else None,
                         updatedAt := now)]))
  }

  ghost function Commit(f: Forum, p: Prepared, supply: Supply): Outcome {
    match p
    case CreateTopic(draft) => CommitCreateTopic(f, draft, supply)
    case UpdateTopic(topicId, patch) => CommitUpdateTopic(f, topicId, patch, supply.now)
    case DeleteTopic(topicId, actor) => CommitDeleteTopic(f, topicId, actor, supply.now)
    case CreatePost(topicId, parentType, parentId, author, content) =>
      CommitCreatePost(f, topicId, parentType, parentId, author, content, supply)
    case UpdatePost(postId, content) => CommitUpdatePost(f, postId, content, supply.now)
    case DeletePost(postId, actor) => CommitDeletePost(f, postId, actor, supply.now)
    case SetReaction(postId, memberId, reaction) => CommitReaction(f, postId, memberId, Some(reaction))
    case RemoveReaction(postId, memberId) => CommitReaction(f, postId, memberId, None)
    case AddWatch(topicId, memberId) => CommitWatch(f, topicId, memberId, Some(true))
    case RemoveWatch(topicId, memberId, challengeScoped) =>
      CommitWatch(f, topicId, memberId, if challengeScoped then Some(false) else None)
    case MarkRead(topicId, memberId, lastReadAt) => CommitRead(f, topicId, memberId, lastReadAt)
    case SetLock(topicId, locked, actor) => CommitLock(f, topicId, locked, actor, supply.now)
  }

  // ----- every transaction keeps the state well formed

  lemma CreateTopicKeepsWellFormed(f: Forum, draft: TopicDraft, supply: Supply)
    requires WellFormed(f)
    ensures WellFormed(After(f, CommitCreateTopic(f, draft, supply)))
  {
    if CommitCreateTopic(f, draft, supply).Committed? {
      var topic := NewTopic(draft, supply.now);
      var post := NewPost(supply.topicId, "TOPIC", supply.topicId, draft.author, draft.content, supply.now);
      LinksAre(f.topics);
      LinksUpdate(f.topics, supply.topicId, topic);
      SoundExtend(TopicLinks(f.topics), supply.topicId, draft.parentTopicId);
      AddPostKeepsOk(f.topics, f.topics[supply.topicId := topic], f.posts, supply.postId, post);
    }
  }

  lemma AddPostKeepsOk(topics: Topics, wider: Topics, posts: Posts, id: Id, post: Post)
    requires PostsOk(topics, posts) && topics.Keys <= wider.Keys && id !in posts && post.topicId in wider
    requires PostParent(post).Some? ==> post.parentId in posts && posts[post.parentId].topicId == post.topicId
    ensures PostsOk(wider, posts[id := post])
  {
    var up := PostLinks(posts);
    assert Closed(up);
    PostLinksUpdate(posts, id, post);
    SoundExtend(up, id, PostParent(post));
  }

  lemma CreatePostKeepsWellFormed(
      f: Forum, topicId: Id, parentType: Option<string>, parentId: Option<Id>, author: Author, content: string, supply: Supply)
    requires WellFormed(f)
    ensures WellFormed(After(f, CommitCreatePost(f, topicId, parentType, parentId, author, content, supply)))
  {
    if CommitCreatePost(f, topicId, parentType, parentId, author, content, supply).Committed? {
      var parent := ResolvePostParent(f.posts, topicId, parentType, parentId).value;
      AddPostKeepsOk(f.topics, f.topics, f.posts, supply.postId,
                     NewPost(topicId, parent.0, parent.1, author, content, supply.now));
    }
  }

  lemma ChangeTopicKeepsWellFormed(f: Forum, topicId: Id, topic: Topic)
    requires WellFormed(f) && topicId in f.topics && topic.parentTopicId == f.topics[topicId].parentTopicId
    ensures WellFormed(f.(topics := f.topics[topicId := topic]))
  {
    LinksUpdate(f.topics, topicId, topic);
  }

  lemma ChangePostKeepsWellFormed(f: Forum, postId: Id, post: Post)
    requires WellFormed(f) && postId in f.posts
    requires post.topicId == f.posts[postId].topicId && PostParent(post) == PostParent(f.posts[postId])
    requires post.parentId == f.posts[postId].parentId
    ensures WellFormed(f.(posts := f.posts[postId := post]))
  {
    PostLinksUpdate(f.posts, postId, post);
  }

  lemma TopicWritesKeepWellFormed(f: Forum, topicId: Id, patch: TopicPatch, locked: bool, actor: Option<Id>, now: int)
    requires WellFormed(f)
    ensures WellFormed(After(f, CommitUpdateTopic(f, topicId, patch, now)))
    ensures WellFormed(After(f, CommitDeleteTopic(f, topicId, actor, now)))
    ensures WellFormed(After(f, CommitLock(f, topicId, locked, actor, now)))
  {
    hide WellFormed;
    if topicId in f.topics {
      ChangeTopicKeepsWellFormed(f, topicId, Patched(f.topics[topicId], patch, now));
      ChangeTopicKeepsWellFormed(f, topicId, f.topics[topicId].(
        deletedAt := Some(now), deletedByMemberId := actor, updatedAt := now));
      ChangeTopicKeepsWellFormed(f, topicId, After(f, CommitLock(f, topicId, locked, actor, now)).topics[topicId]);
    }
  }

  lemma PostWritesKeepWellFormed(f: Forum, postId: Id, content: string, actor: Option<Id>, now: int)
    requires WellFormed(f)
    ensures WellFormed(After(f, CommitUpdatePost(f, postId, content, now)))
    ensures WellFormed(After(f, CommitDeletePost(f, postId, actor, now)))
  {
    hide WellFormed, Live;
    if postId in f.posts {
      ChangePostKeepsWellFormed(f, postId, f.posts[postId].(content := Some(content), updatedAt := now));
      ChangePostKeepsWellFormed(f, postId, f.posts[postId].(
        content := None, deletedAt := Some(now), deletedByMemberId := actor, updatedAt := now));
    }
  }

  lemma StateWritesKeepWellFormed(f: Forum, id: Id, memberId: Id, reaction: Option<Reaction>, choice: Option<bool>, at: int)
    requires WellFormed(f)
    ensures WellFormed(After(f, CommitReaction(f, id, memberId, reaction)))
    ensures WellFormed(After(f, CommitWatch(f, id, memberId, choice)))
    ensures WellFormed(After(f, CommitRead(f, id, memberId, at)))
  {
    hide Sound, PostsOk, Hidden;
  }

  lemma CommitKeepsWellFormed(f: Forum, p: Prepared, supply: Supply)
    requires WellFormed(f)
    ensures WellFormed(After(f, Commit(f, p, supply)))
  {
    hide WellFormed, CommitCreateTopic, CommitUpdateTopic, CommitDeleteTopic, CommitCreatePost,
         CommitUpdatePost, CommitDeletePost, CommitReaction, CommitWatch, CommitRead, CommitLock;
    var noPatch := TopicPatch(None, None, None);
    match p {
      case CreateTopic(draft) => CreateTopicKeepsWellFormed(f, draft, supply);
      case CreatePost(topicId, parentType, parentId, author, content) =>
        CreatePostKeepsWellFormed(f, topicId, parentType, parentId, author, content, supply);
      case UpdateTopic(topicId, patch) => TopicWritesKeepWellFormed(f, topicId, patch, false, None, supply.now);
      case DeleteTopic(topicId, actor) => TopicWritesKeepWellFormed(f, topicId, noPatch, false, actor, supply.now);
      case SetLock(topicId, locked, actor) => TopicWritesKeepWellFormed(f, topicId, noPatch, locked, actor, supply.now);
      case UpdatePost(postId, content) => PostWritesKeepWellFormed(f, postId, content, None, supply.now);
      case DeletePost(postId, actor) => PostWritesKeepWellFormed(f, postId, "", actor, supply.now);
      case SetReaction(postId, memberId, reaction) =>
        StateWritesKeepWellFormed(f, postId, memberId, Some(reaction), None, 0);
      case RemoveReaction(postId, memberId) => StateWritesKeepWellFormed(f, postId, memberId, None, None, 0);
      case AddWatch(topicId, memberId) => StateWritesKeepWellFormed(f, topicId, memberId, None, Some(true), 0);
      case RemoveWatch(topicId, memberId, challengeScoped) =>
        StateWritesKeepWellFormed(f, topicId, memberId, None, if challengeScoped then Some(false) else None, 0);
      case MarkRead(topicId, memberId, lastReadAt) =>
        StateWritesKeepWellFormed(f, topicId, memberId, None, None, lastReadAt);
    }
  }
}
