/** The command service's transactions against the real tables, ancestor index included.

Each method refines the abstract transaction of `CommandSpec`: it tests liveness through the index, never by
walking parents, and leaves the index exact.
*/
module ForumStore {
  import opened Basics
  import opened ParentLinks
  import opened ForumState
  import opened ClosureTable
  import opened AccessTypes
  import opened CommandSpec

  class Store {
    var topics: Topics
    var posts: Posts
    var reactions: map<MemberKey, Reaction>
    var watches: map<MemberKey, bool>
    var readStates: map<MemberKey, int>
    var closure: set<ClosureRow>

    ghost function Contents(): Forum
      reads this
    {
      Forum(topics, posts, reactions, watches, readStates)
    }

    ghost predicate Valid()
      reads this
    {
      WellFormed(Contents()) && ClosureExact(TopicLinks(topics), closure)
    }

    constructor ()
      ensures Valid() && Contents() == EMPTY_FORUM
    {
      topics, posts, reactions, watches, readStates, closure := map[], map[], map[], map[], map[], {};
      new;
      EmptyIsWellFormed();
    }

    /** Finds the active topic, or reports it missing when it or an ancestor is deleted. */
    method EnsureActiveTopic(topicId: Id) returns (found: bool)
      requires Valid()
      ensures found <==> Live(topics, topicId)
      ensures found ==> topicId in topics
    {
      hide WellFormed, Live;
      IndexedLiveIsLive(topics, closure, topicId);
      if topicId !in topics || topics[topicId].deletedAt.Some? {
        return false;
      }
      var deletedAncestor := exists r :: r in closure && r.descendantTopicId == topicId && r.ancestorTopicId != topicId
                                         && r.ancestorTopicId in topics && topics[r.ancestorTopicId].deletedAt.Some?;
      return !deletedAncestor;
    }

    /** Finds the post when its topic is active. */
    method EnsurePostInActiveTopic(postId: Id) returns (found: bool)
      requires Valid()
      ensures found <==> postId in posts && Live(topics, posts[postId].topicId)
    {
      hide *;
      if postId !in posts {
        return false;
      }
      found := EnsureActiveTopic(posts[postId].topicId);
    }

    method EnsureMutablePost(postId: Id) returns (found: bool)
      requires Valid()
      ensures found <==> Mutable(Contents(), postId)
    {
      hide WellFormed, ClosureExact, Live;
      found := EnsurePostInActiveTopic(postId);
      if found {
        found := posts[postId].deletedAt.None?;
      }
    }

    /** Extends the index for a topic just created under `parentTopicId`. */
    method CreateClosureRows(topicId: Id, parentTopicId: Option<Id>)
      modifies `closure
      ensures closure == old(closure) + NewRows(old(closure), topicId, parentTopicId)
    {
      var ancestorRows := if parentTopicId.Some?
        then set r | r in closure && r.descendantTopicId == parentTopicId.value else {};
      closure := closure + (set r | r in ancestorRows :: ClosureRow(r.ancestorTopicId, topicId, r.depth + 1))
                 + {ClosureRow(topicId, topicId, 0)};
    }

    /** Creates a topic with its index rows, starter post and author state, all or nothing. */
    method CreateTopicTx(draft: TopicDraft, supply: Supply) returns (error: Option<CommandError>)
      requires Valid()
      modifies this
      ensures Valid()
      ensures Contents() == After(old(Contents()), CommitCreateTopic(old(Contents()), draft, supply))
      ensures CommitCreateTopic(old(Contents()), draft, supply) ==
              if error.Some? then Rejected(error.value) else Committed(Contents())
    {
      hide WellFormed, ClosureExact, Live, NewRows, TopicLinks, SeedWatch, SeedRead, NewTopic, NewPost;
      CreateTopicKeepsWellFormed(Contents(), draft, supply);
      if draft.parentTopicId.Some? {
        var active := EnsureActiveTopic(draft.parentTopicId.value);
        if !active { return Some(NotFound); }
      }
      if supply.topicId in topics || supply.postId in posts {
        return Some(DuplicateId);
      }
      IndexAfterCreate(Contents(), closure, draft, supply);
      topics := topics[supply.topicId := NewTopic(draft, supply.now)];
      CreateClosureRows(supply.topicId, draft.parentTopicId);
      posts := posts[supply.postId :=
        NewPost(supply.topicId, "TOPIC", supply.topicId, draft.author, draft.content, supply.now)];
      SeedAuthorState(supply.topicId, draft.author, draft.challengeId, supply.now);
      return None;
    }

    /** A new topic is read by its author, and watched by them unless it inherits a challenge-wide preference. */
    method SeedAuthorState(topicId: Id, author: Author, challengeId: Option<Id>, now: int)
      modifies `watches, `readStates
      ensures watches == if author.seedMemberState && challengeId.None?
                         then SeedWatch(old(watches), topicId, author) else old(watches)
      ensures readStates == SeedRead(old(readStates), topicId, author, now)
    {
      if author.seedMemberState {
        if challengeId.None? {
          watches := SeedWatch(watches, topicId, author);
        }
        readStates := SeedRead(readStates, topicId, author, now);
      }
    }

    /** Writes a topic row whose place in the tree does not change. */
    method WriteTopic(topicId: Id, topic: Topic)
      requires Valid() && topicId in topics && topic.parentTopicId == topics[topicId].parentTopicId
      modifies `topics
      ensures Valid() && topics == old(topics)[topicId := topic]
    {
      hide WellFormed, ClosureExact, PostsOk;
      ChangeTopicKeepsWellFormed(Contents(), topicId, topic);
      LinksUpdate(topics, topicId, topic);
      topics := topics[topicId := topic];
    }

    method UpdateTopicTx(topicId: Id, patch: TopicPatch, now: int) returns (error: Option<CommandError>)
      requires Valid()
      modifies this
      ensures Valid()
      ensures CommitUpdateTopic(old(Contents()), topicId, patch, now) ==
              if error.Some? then Rejected(error.value) else Committed(Contents())
      ensures error.Some? ==> Contents() == old(Contents())
    {
      hide WellFormed, ClosureExact, Live;
      var active := EnsureActiveTopic(topicId);
      if !active { return Some(NotFound); }
      WriteTopic(topicId, Patched(topics[topicId], patch, now));
      return None;
    }

    method SoftDeleteTopicTx(topicId: Id, actor: Option<Id>, now: int) returns (error: Option<CommandError>)
      requires Valid()
      modifies this
      ensures Valid()
      ensures CommitDeleteTopic(old(Contents()), topicId, actor, now) ==
              if error.Some? then Rejected(error.value) else Committed(Contents())
      ensures error.None? ==>
                topicId in topics && topics[topicId].deletedAt == Some(now) && topics[topicId].deletedByMemberId == actor
      ensures error.Some? ==> Contents() == old(Contents())
    {
      hide WellFormed, ClosureExact, Live;
      var active := EnsureActiveTopic(topicId);
      if !active { return Some(NotFound); }
      WriteTopic(topicId, topics[topicId].(deletedAt := Some(now), deletedByMemberId := actor, updatedAt := now));
      return None;
    }

    method SetLock(topicId: Id, locked: bool, actor: Option<Id>, now: int) returns (error: Option<CommandError>)
      requires Valid()
      modifies this
      ensures Valid()
      ensures CommitLock(old(Contents()), topicId, locked, actor, now) ==
              if error.Some? then Rejected(error.value) else Committed(Contents())
      ensures error.Some? ==> Contents() == old(Contents())
    {
      hide WellFormed, ClosureExact, Live;
      if topicId !in topics { return Some(NotFound); }
      var lockedAt := if locked then Some(now) else None;
      var lockedBy := if locked then actor else None;
      WriteTopic(topicId, topics[topicId].(
        locked := locked, lockedAt := lockedAt, lockedByMemberId := lockedBy, updatedAt := now));
      return None;
    }

    /** Creates a post under the topic or under a post of the same topic, and marks the topic read for its author. */
    method CreatePostTx(topicId: Id, parentType: Option<string>, parentId: Option<Id>, author: Author,
                        content: string, supply: Supply) returns (error: Option<CommandError>)
      requires Valid()
      modifies this
      ensures Valid()
      ensures CommitCreatePost(old(Contents()), topicId, parentType, parentId, author, content, supply) ==
              if error.Some? then Rejected(error.value) else Committed(Contents())
      ensures error.Some? ==> Contents() == old(Contents())
    {
      hide WellFormed, ClosureExact, Live, PostsOk;
      CreatePostKeepsWellFormed(Contents(), topicId, parentType, parentId, author, content, supply);
      var active := EnsureActiveTopic(topicId);
      if !active { return Some(NotFound); }
      var parent := ResolvePostParent(posts, topicId, parentType, parentId);
      if parent.Err? { return Some(parent.error); }
      if supply.postId in posts { return Some(DuplicateId); }
      posts := posts[supply.postId :=
        NewPost(topicId, parent.value.0, parent.value.1, author, content, supply.now)];
      if author.seedMemberState {
        readStates := SeedRead(readStates, topicId, author, supply.now);
      }
      return None;
    }

    /** Writes a post row whose place in its thread does not change. */
    method WritePost(postId: Id, post: Post)
      requires Valid() && postId in posts
      requires post.topicId == posts[postId].topicId && post.parentId == posts[postId].parentId
      requires post.parentType == posts[postId].parentType
      modifies `posts
      ensures Valid() && posts == old(posts)[postId := post]
    {
      hide WellFormed, ClosureExact, PostsOk;
      ChangePostKeepsWellFormed(Contents(), postId, post);
      posts := posts[postId := post];
    }

    method UpdatePostTx(postId: Id, content: string, now: int) returns (error: Option<CommandError>)
      requires Valid()
      modifies this
      ensures Valid()
      ensures CommitUpdatePost(old(Contents()), postId, content, now) ==
              if error.Some? then Rejected(error.value) else Committed(Contents())
      ensures error.Some? ==> Contents() == old(Contents())
    {
      hide WellFormed, ClosureExact, Live;
      var mutable := EnsureMutablePost(postId);
      if !mutable { return Some(NotFound); }
      WritePost(postId, posts[postId].(content := Some(content), updatedAt := now));
      return None;
    }

    /** Deleting an already deleted post succeeds and changes nothing. */
    method DeletePostTx(postId: Id, actor: Option<Id>, now: int) returns (error: Option<CommandError>)
      requires Valid()
      modifies this
      ensures Valid()
      ensures CommitDeletePost(old(Contents()), postId, actor, now) ==
              if error.Some? then Rejected(error.value) else Committed(Contents())
      ensures error.Some? ==> Contents() == old(Contents())
    {
      hide WellFormed, ClosureExact, Live;
      var found := EnsurePostInActiveTopic(postId);
      if !found { return Some(NotFound); }
      if posts[postId].deletedAt.Some? { return None; }
      WritePost(postId, posts[postId].(
        content := None, deletedAt := Some(now), deletedByMemberId := actor, updatedAt := now));
      return None;
    }

    method SetPostReactionTx(postId: Id, memberId: Id, reaction: Option<Reaction>) returns (error: Option<CommandError>)
      requires Valid()
      modifies this
      ensures Valid()
      ensures CommitReaction(old(Contents()), postId, memberId, reaction) ==
              if error.Some? then Rejected(error.value) else Committed(Contents())
      ensures error.Some? ==> Contents() == old(Contents())
    {
      hide ClosureExact, Live, PostsOk, Sound;
      var mutable := EnsureMutablePost(postId);
      if !mutable { return Some(NotFound); }
      var key := MemberKey(postId, memberId);
      match reaction {
        case Some(r) => reactions := reactions[key := r];
        case None => reactions := reactions - {key};
      }
      return None;
    }

    method SetTopicWatchTx(topicId: Id, memberId: Id, choice: Option<bool>) returns (error: Option<CommandError>)
      requires Valid()
      modifies this
      ensures Valid()
      ensures CommitWatch(old(Contents()), topicId, memberId, choice) ==
              if error.Some? then Rejected(error.value) else Committed(Contents())
      ensures error.Some? ==> Contents() == old(Contents())
    {
      hide ClosureExact, Live, PostsOk, Sound;
      var active := EnsureActiveTopic(topicId);
      if !active { return Some(NotFound); }
      var key := MemberKey(topicId, memberId);
      match choice {
        case Some(w) => watches := watches[key := w];
        case None => watches := watches - {key};
      }
      return None;
    }

    method MarkTopicReadTx(topicId: Id, memberId: Id, lastReadAt: int) returns (error: Option<CommandError>)
      requires Valid()
      modifies this
      ensures Valid()
      ensures CommitRead(old(Contents()), topicId, memberId, lastReadAt) ==
              if error.Some? then Rejected(error.value) else Committed(Contents())
      ensures error.Some? ==> Contents() == old(Contents())
    {
      hide ClosureExact, Live, PostsOk, Sound;
      var active := EnsureActiveTopic(topicId);
      if !active { return Some(NotFound); }
      readStates := readStates[MemberKey(topicId, memberId) := lastReadAt];
      return None;
    }

    /** Runs the transaction of any prepared command. */
    method Execute(p: Prepared, supply: Supply) returns (error: Option<CommandError>)
      requires Valid()
      modifies this
      ensures Valid()
      ensures Commit(old(Contents()), p, supply) ==
              if error.Some? then Rejected(error.value) else Committed(Contents())
      ensures error.Some? ==> Contents() == old(Contents())
    {
      hide Valid, Contents, CommitCreateTopic, CommitUpdateTopic, CommitDeleteTopic, CommitCreatePost,
           CommitUpdatePost, CommitDeletePost, CommitReaction, CommitWatch, CommitRead, CommitLock;
      match p {
        case CreateTopic(draft) => error := CreateTopicTx(draft, supply);
        case UpdateTopic(topicId, patch) => error := UpdateTopicTx(topicId, patch, supply.now);
        case DeleteTopic(topicId, actor) => error := SoftDeleteTopicTx(topicId, actor, supply.now);
        case CreatePost(topicId, parentType, parentId, author, content) =>
          error := CreatePostTx(topicId, parentType, parentId, author, content, supply);
        case UpdatePost(postId, content) => error := UpdatePostTx(postId, content, supply.now);
        case DeletePost(postId, actor) => error := DeletePostTx(postId, actor, supply.now);
        case SetReaction(postId, memberId, reaction) => error := SetPostReactionTx(postId, memberId, Some(reaction));
        case RemoveReaction(postId, memberId) => error := SetPostReactionTx(postId, memberId, None);
        case AddWatch(topicId, memberId) => error := SetTopicWatchTx(topicId, memberId, Some(true));
        case RemoveWatch(topicId, memberId, challengeScoped) =>
          error := SetTopicWatchTx(topicId, memberId, if challengeScoped then Some(false) else None);
        case MarkRead(topicId, memberId, lastReadAt) => error := MarkTopicReadTx(topicId, memberId, lastReadAt);
        case SetLock(topicId, locked, actor) => error := SetLock(topicId, locked, actor, supply.now);
      }
    }
  }

  /** The index of the state a successful creation leads to. */
  lemma IndexAfterCreate(f: Forum, closure: set<ClosureRow>, draft: TopicDraft, supply: Supply)
    requires WellFormed(f) && ClosureExact(TopicLinks(f.topics), closure)
    requires CommitCreateTopic(f, draft, supply).Committed?
    ensures ClosureExact(TopicLinks(f.topics[supply.topicId := NewTopic(draft, supply.now)]),
                         closure + NewRows(closure, supply.topicId, draft.parentTopicId))
  {
    LinksAre(f.topics);
    LinksUpdate(f.topics, supply.topicId, NewTopic(draft, supply.now));
    ClosureInsert(TopicLinks(f.topics), closure, supply.topicId, draft.parentTopicId);
  }
}
