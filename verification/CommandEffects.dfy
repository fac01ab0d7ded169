/** What each command leaves in the tables: which row it writes, what the row then holds, and what that does to the
liveness of topics. Everything here is said of rows and parent walks, not of the transaction functions. */
module CommandEffects {
  import opened Basics
  import opened ParentLinks
  import opened ForumState
  import opened AccessTypes
  import opened CommandSpec
  import opened CommandRuns

  /** Two states of a table agree on every key but one. */
  ghost predicate AgreeElsewhere<K(!new), V>(before: map<K, V>, after: map<K, V>, key: K) {
    forall k :: k != key ==> (k in before <==> k in after) && (k in before && k in after ==> before[k] == after[k])
  }

  /** The same topics are live. */
  ghost predicate SameLiveness(before: Topics, after: Topics) {
    forall x :: Live(after, x) <==> Live(before, x)
  }

  // ----- walks and liveness under single row writes

  /** Marking one topic deleted hides it with everything below it, and nothing else. */
  lemma DeletingHidesSubtree(before: Topics, after: Topics, t: Id, x: Id)
    requires t in before && t in after && AgreeElsewhere(before, after, t)
    requires after[t].parentTopicId == before[t].parentTopicId && after[t].deletedAt.Some?
    ensures Live(after, x) <==> Live(before, x) && !InSubtree(before, x, t)
  {
    SameParentsSameWalks(before, after, t);
    hide InSubtree, AgreeElsewhere;
    DeletedRowsAre(before, after, t);
  }

  lemma DeletedRowsAre(before: Topics, after: Topics, t: Id)
    requires t in before && t in after && AgreeElsewhere(before, after, t) && after[t].deletedAt.Some?
    ensures before.Keys == after.Keys
    ensures forall a :: a in after && after[a].deletedAt.Some? <==> a == t || (a in before && before[a].deletedAt.Some?)
  {}

  /** Writing a topic without moving, deleting or restoring it keeps the same topics live. */
  lemma KeepingLiveness(before: Topics, after: Topics, t: Id)
    requires t in before && t in after && AgreeElsewhere(before, after, t)
    requires after[t].parentTopicId == before[t].parentTopicId && after[t].deletedAt == before[t].deletedAt
    ensures SameLiveness(before, after)
  {
    SameParentsSameWalks(before, after, t);
    hide InSubtree;
  }

  lemma SameParentsSameWalks(before: Topics, after: Topics, t: Id)
    requires t in before && t in after && AgreeElsewhere(before, after, t)
    requires after[t].parentTopicId == before[t].parentTopicId
    ensures forall x, a :: InSubtree(after, x, a) <==> InSubtree(before, x, a)
  {
    LinksAre(before);
    LinksAre(after);
    assert TopicLinks(before) == TopicLinks(after);
  }

  // ----- commands on topics

  /** Deleting takes a live topic. It marks that row, with the time and the actor, and writes nothing else; the topics that
  were live and not below the deleted one are exactly those that stay live. */
  lemma DeleteTopicEffect(f: Forum, t: Id, actor: Option<Id>, supply: Supply)
    ensures var outcome := Commit(f, DeleteTopic(t, actor), supply);
            if !Live(f.topics, t) then outcome == Rejected(NotFound)
            else
              && outcome.Committed?
              && var g := outcome.forum;
                 && g == f.(topics := g.topics) && AgreeElsewhere(f.topics, g.topics, t)
                 && t in g.topics
                 && g.topics[t] == f.topics[t].(deletedAt := Some(supply.now), deletedByMemberId := actor, updatedAt := supply.now)
                 && forall x :: Live(g.topics, x) <==> Live(f.topics, x) && !InSubtree(f.topics, x, t)
  {
    hide Hidden, InSubtree;
    if Live(f.topics, t) {
      var g := Commit(f, DeleteTopic(t, actor), supply).forum;
      forall x ensures Live(g.topics, x) <==> Live(f.topics, x) && !InSubtree(f.topics, x, t) {
        DeletingHidesSubtree(f.topics, g.topics, t, x);
      }
    }
  }

  /** Updating takes a live topic and replaces the columns the patch names. The other columns but `updatedAt`, every other
  row, and the liveness of every topic stay as they were. */
  lemma UpdateTopicEffect(f: Forum, t: Id, patch: TopicPatch, supply: Supply)
    ensures var outcome := Commit(f, UpdateTopic(t, patch), supply);
            if !Live(f.topics, t) then outcome == Rejected(NotFound)
            else
              && outcome.Committed?
              && var g := outcome.forum;
                 && g == f.(topics := g.topics) && AgreeElsewhere(f.topics, g.topics, t)
                 && t in g.topics
                 && (var row, was := g.topics[t], f.topics[t];
                     && row == was.(title := row.title, isAnnouncement := row.isAnnouncement, roleName := row.roleName,
                                    updatedAt := supply.now)
                     && row.title == (match patch.title case Some(title) => title case None => was.title)
                     && row.isAnnouncement == (match patch.isAnnouncement case Some(flag) => flag case None => was.isAnnouncement)
                     && row.roleName == (match patch.roleName case Some(role) => role case None => was.roleName))
                 && SameLiveness(f.topics, g.topics)
  {
    hide Hidden, InSubtree, SameLiveness;
    if Live(f.topics, t) {
      KeepingLiveness(f.topics, Commit(f, UpdateTopic(t, patch), supply).forum.topics, t);
    }
  }

  /** Locking and unlocking take any stored topic, live or not. Locking stores the time and the actor, unlocking clears
  both, and nothing else is written but `updatedAt`. */
  lemma SetLockEffect(f: Forum, t: Id, locked: bool, actor: Option<Id>, supply: Supply)
    ensures var outcome := Commit(f, SetLock(t, locked, actor), supply);
            if t !in f.topics then outcome == Rejected(NotFound)
            else
              && outcome.Committed?
              && var g := outcome.forum;
                 && g == f.(topics := g.topics) && AgreeElsewhere(f.topics, g.topics, t)
                 && t in g.topics
                 && (locked ==> g.topics[t] == f.topics[t].(locked := true, lockedAt := Some(supply.now),
                                                            lockedByMemberId := actor, updatedAt := supply.now))
                 && (!locked ==> g.topics[t] == f.topics[t].(locked := false, lockedAt := None,
                                                             lockedByMemberId := None, updatedAt := supply.now))
                 && SameLiveness(f.topics, g.topics)
  {
    hide Hidden, InSubtree, SameLiveness;
    if t in f.topics {
      KeepingLiveness(f.topics, Commit(f, SetLock(t, locked, actor), supply).forum.topics, t);
    }
  }

  /** The new topic's row. */
  ghost predicate FreshTopic(row: Topic, draft: TopicDraft, now: int) {
    && row.parentTopicId == draft.parentTopicId && row.challengeId == draft.challengeId && row.roleName == draft.roleName
    && row.title == draft.title && row.isAnnouncement == draft.isAnnouncement
    && row.authorMemberId == draft.author.memberId && row.authorHandle == draft.author.handle
    && !row.locked && row.lockedAt.None? && row.lockedByMemberId.None?
    && row.createdAt == now && row.updatedAt == now && row.deletedAt.None? && row.deletedByMemberId.None?
  }

  /** A post as it is first stored. */
  ghost predicate FreshPost(row: Post, topicId: Id, parentType: string, parentId: Id, author: Author, content: string, now: int) {
    && row.topicId == topicId && row.parentType == parentType && row.parentId == parentId
    && row.authorMemberId == author.memberId && row.authorHandle == author.handle && row.content == Some(content)
    && row.createdAt == now && row.updatedAt == now && row.deletedAt.None? && row.deletedByMemberId.None?
  }

  /** Creating a topic takes a live parent, if one is named, and unused ids. It adds one topic and one starter post in it; a
  seeded author has read the topic, and watches it unless it has a challenge. The new topic is live, and everything else is
  as live as before. */
  lemma CreateTopicEffect(f: Forum, draft: TopicDraft, supply: Supply)
    requires WellFormed(f)
    ensures var outcome := Commit(f, CreateTopic(draft), supply);
            var t, key := supply.topicId, MemberKey(supply.topicId, draft.author.memberId);
            if draft.parentTopicId.Some? && !Live(f.topics, draft.parentTopicId.value) then outcome == Rejected(NotFound)
            else if t in f.topics || supply.postId in f.posts then outcome == Rejected(DuplicateId)
            else
              && outcome.Committed?
              && var g := outcome.forum;
                 && AgreeElsewhere(f.topics, g.topics, t) && t in g.topics && FreshTopic(g.topics[t], draft, supply.now)
                 && AgreeElsewhere(f.posts, g.posts, supply.postId) && supply.postId in g.posts
                 && FreshPost(g.posts[supply.postId], t, "TOPIC", t, draft.author, draft.content, supply.now)
                 && g.reactions == f.reactions
                 && AgreeElsewhere(f.readStates, g.readStates, key)
                 && (key in g.readStates <==> draft.author.seedMemberState)
                 && (key in g.readStates ==> g.readStates[key] == supply.now)
                 && AgreeElsewhere(f.watches, g.watches, key)
                 && (key in g.watches <==> draft.author.seedMemberState && draft.challengeId.None?)
                 && (key in g.watches ==> g.watches[key])
                 && forall x :: Live(g.topics, x) <==> Live(f.topics, x) || x == t
  {
    hide Hidden, InSubtree, Sound, PostsOk, SeedRead, SeedWatch;
    var outcome := Commit(f, CreateTopic(draft), supply);
    if outcome.Committed? {
      SeedsMean(f, supply.topicId, draft.author, supply.now);
      forall x ensures Live(outcome.forum.topics, x) <==> Live(f.topics, x) || x == supply.topicId {
        CreatingIsLive(f, outcome.forum.topics, draft.parentTopicId, supply.topicId, x);
      }
    }
  }

  /** What seeding stores for the author of a topic that has no state rows yet. */
  lemma SeedsMean(f: Forum, t: Id, author: Author, now: int)
    requires WellFormed(f) && t !in f.topics
    ensures var key := MemberKey(t, author.memberId);
            var read, watched := SeedRead(f.readStates, t, author, now), SeedWatch(f.watches, t, author);
            && key !in f.readStates && key !in f.watches
            && AgreeElsewhere(f.readStates, read, key) && AgreeElsewhere(f.watches, watched, key)
            && (key in read <==> author.seedMemberState) && (key in read ==> read[key] == now)
            && key in watched && watched[key]
  {
    hide Sound, PostsOk;
    var key := MemberKey(t, author.memberId);
    assert key.target == t;
  }

  lemma CreatingIsLive(f: Forum, after: Topics, parent: Option<Id>, t: Id, x: Id)
    requires WellFormed(f) && t !in f.topics && (parent.Some? ==> Live(f.topics, parent.value))
    requires t in after && after == f.topics[t := after[t]] && after[t].parentTopicId == parent && after[t].deletedAt.None?
    ensures Live(after, x) <==> Live(f.topics, x) || x == t
  {
    hide PostsOk;
    LinksUpdate(f.topics, t, after[t]);
    var up, wider := TopicLinks(f.topics), TopicLinks(after);
    LinksAre(f.topics);
    if x in f.topics {
      forall k: nat ensures Climb(wider, x, k) == Climb(up, x, k) { ClimbExtend(up, t, parent, x, k); }
      forall a ensures InSubtree(after, x, a) <==> InSubtree(f.topics, x, a) { SameClimbs(f.topics, after, x, a); }
      OldWalksStay(f.topics, x, t);
    } else if x == t {
      forall a | a in after && InSubtree(after, t, a) ensures after[a].deletedAt.None? {
        NewWalkIsLive(f.topics, after, parent, t, a);
      }
    }
  }

  lemma SameClimbs(before: Topics, after: Topics, x: Id, a: Id)
    requires forall k: nat :: Climb(TopicLinks(after), x, k) == Climb(TopicLinks(before), x, k)
    ensures InSubtree(after, x, a) <==> InSubtree(before, x, a)
  {}

  lemma OldWalksStay(topics: Topics, x: Id, t: Id)
    requires t !in topics
    ensures !InSubtree(topics, x, t)
  {
    LinksAre(topics);
    forall k: nat ensures Climb(TopicLinks(topics), x, k) != Some(t) { ClimbStored(TopicLinks(topics), x, k); }
  }

  lemma NewWalkIsLive(topics: Topics, after: Topics, parent: Option<Id>, t: Id, a: Id)
    requires Sound(TopicLinks(topics)) && t !in topics && (parent.Some? ==> Live(topics, parent.value))
    requires t in after && after == topics[t := after[t]] && after[t].parentTopicId == parent && after[t].deletedAt.None?
    requires a in after && InSubtree(after, t, a)
    ensures after[a].deletedAt.None?
  {
    LinksAre(topics);
    LinksUpdate(topics, t, after[t]);
    var k: nat :| Climb(TopicLinks(after), t, k) == Some(a);
    ClimbNew(TopicLinks(topics), t, parent, k);
    assert k > 0 ==> InSubtree(topics, parent.value, a);
  }

  // ----- commands on posts

  /** The request puts the post directly under its topic, by default or by naming it. */
  ghost predicate AsksForTopic(topicId: Id, parentType: Option<string>, parentId: Option<Id>) {
    || (parentType.None? && parentId.None?)
    || (parentType == Some("TOPIC") && parentId == Some(topicId) && topicId.text != "")
  }

  /** The request puts it under another post. */
  ghost predicate AsksForPost(parentType: Option<string>, parentId: Option<Id>) {
    parentType == Some("POST") && parentId.Some? && parentId.value.text != ""
  }

  /** Posting takes a live topic, a parent that is the topic or a stored post of it, and an unused id. It adds one post under
  that parent, and a seeded author has read the topic. */
  lemma CreatePostEffect(f: Forum, t: Id, parentType: Option<string>, parentId: Option<Id>, author: Author, content: string,
                         supply: Supply)
    ensures var outcome := Commit(f, CreatePost(t, parentType, parentId, author, content), supply);
            var key := MemberKey(t, author.memberId);
            if !Live(f.topics, t) then outcome == Rejected(NotFound)
            else if !AsksForTopic(t, parentType, parentId) && !AsksForPost(parentType, parentId) then
              outcome == Rejected(BadRequest)
            else if AsksForPost(parentType, parentId) && !(parentId.value in f.posts && f.posts[parentId.value].topicId == t) then
              outcome == Rejected(ParentPostNotFound)
            else if supply.postId in f.posts then outcome == Rejected(DuplicateId)
            else
              && outcome.Committed?
              && var g := outcome.forum;
                 && g == f.(posts := g.posts, readStates := g.readStates)
                 && AgreeElsewhere(f.posts, g.posts, supply.postId) && supply.postId in g.posts
                 && (AsksForPost(parentType, parentId) ==>
                       FreshPost(g.posts[supply.postId], t, "POST", parentId.value, author, content, supply.now))
                 && (AsksForTopic(t, parentType, parentId) ==>
                       FreshPost(g.posts[supply.postId], t, "TOPIC", t, author, content, supply.now))
                 && AgreeElsewhere(f.readStates, g.readStates, key)
                 && (author.seedMemberState ==> key in g.readStates && g.readStates[key] == supply.now)
                 && (!author.seedMemberState ==> g.readStates == f.readStates)
  {
    hide Live;
  }

  /** A post that can be changed: stored, not deleted, in a live topic. */
  ghost predicate Changeable(f: Forum, p: Id) {
    p in f.posts && f.posts[p].deletedAt.None? && Live(f.topics, f.posts[p].topicId)
  }

  /** Editing takes an undeleted post of a live topic and replaces its content. */
  lemma UpdatePostEffect(f: Forum, p: Id, content: string, supply: Supply)
    ensures var outcome := Commit(f, UpdatePost(p, content), supply);
            if !Changeable(f, p) then outcome == Rejected(NotFound)
            else
              && outcome.Committed?
              && var g := outcome.forum;
                 && g == f.(posts := g.posts) && AgreeElsewhere(f.posts, g.posts, p)
                 && p in g.posts && g.posts[p] == f.posts[p].(content := Some(content), updatedAt := supply.now)
  {
    hide Live;
  }

  /** Deleting takes a post of a live topic. An undeleted one loses its content and is marked with the time and the actor; a
  deleted one stays as it is. */
  lemma DeletePostEffect(f: Forum, p: Id, actor: Option<Id>, supply: Supply)
    ensures var outcome := Commit(f, DeletePost(p, actor), supply);
            if p !in f.posts || !Live(f.topics, f.posts[p].topicId) then outcome == Rejected(NotFound)
            else if !Changeable(f, p) then outcome == Committed(f)
            else
              && outcome.Committed?
              && var g := outcome.forum;
                 && g == f.(posts := g.posts) && AgreeElsewhere(f.posts, g.posts, p)
                 && p in g.posts
                 && g.posts[p] == f.posts[p].(content := None, deletedAt := Some(supply.now), deletedByMemberId := actor,
                                              updatedAt := supply.now)
  {
    hide Live;
  }

  // ----- commands on a member's own rows

  /** A reaction takes an undeleted post of a live topic; setting stores it in place of an earlier one, removing leaves none. */
  lemma ReactionEffect(f: Forum, p: Id, memberId: Id, reaction: Reaction, supply: Supply)
    ensures var stored := Commit(f, SetReaction(p, memberId, reaction), supply);
            var removed := Commit(f, RemoveReaction(p, memberId), supply);
            var key := MemberKey(p, memberId);
            if !Changeable(f, p) then stored == removed == Rejected(NotFound)
            else
              && stored.Committed? && removed.Committed?
              && var g, h := stored.forum, removed.forum;
                 && g == f.(reactions := g.reactions) && AgreeElsewhere(f.reactions, g.reactions, key)
                 && key in g.reactions && g.reactions[key] == reaction
                 && h == f.(reactions := h.reactions) && AgreeElsewhere(f.reactions, h.reactions, key) && key !in h.reactions
  {
    hide Live;
  }

  /** Watching takes a live topic and stores the choice to watch. Unwatching removes the choice, except in a challenge's
  topic, where it stores the choice not to watch. */
  lemma WatchEffect(f: Forum, t: Id, memberId: Id, challengeScoped: bool, supply: Supply)
    ensures var added := Commit(f, AddWatch(t, memberId), supply);
            var removed := Commit(f, RemoveWatch(t, memberId, challengeScoped), supply);
            var key := MemberKey(t, memberId);
            if !Live(f.topics, t) then added == removed == Rejected(NotFound)
            else
              && added.Committed? && removed.Committed?
              && var g, h := added.forum, removed.forum;
                 && g == f.(watches := g.watches) && AgreeElsewhere(f.watches, g.watches, key)
                 && key in g.watches && g.watches[key]
                 && h == f.(watches := h.watches) && AgreeElsewhere(f.watches, h.watches, key)
                 && (key in h.watches <==> challengeScoped) && (key in h.watches ==> !h.watches[key])
  {
    hide Live;
  }

  /** Marking read takes a live topic and stores the time given. */
  lemma MarkReadEffect(f: Forum, t: Id, memberId: Id, lastReadAt: int, supply: Supply)
    ensures var outcome, key := Commit(f, MarkRead(t, memberId, lastReadAt), supply), MemberKey(t, memberId);
            if !Live(f.topics, t) then outcome == Rejected(NotFound)
            else
              && outcome.Committed?
              && var g := outcome.forum;
                 && g == f.(readStates := g.readStates) && AgreeElsewhere(f.readStates, g.readStates, key)
                 && key in g.readStates && g.readStates[key] == lastReadAt
  {
    hide Live;
  }

  // ----- deletions last

  /** A committed deletion is final: whatever commands follow, in any interleaving, no topic that was below the deleted one
  is ever live again, and everything of it stays as the deletion left it (lock columns and `updatedAt` aside). */
  lemma DeletionIsFinal(f: Forum, t: Id, actor: Option<Id>, supply: Supply, pending: seq<Prepared>, events: seq<Event>, x: Id)
    requires WellFormed(f) && Live(f.topics, t) && InSubtree(f.topics, x, t)
    ensures var g := After(f, Commit(f, DeleteTopic(t, actor), supply));
            WellFormed(g) && !Live(Run(Sys(g, pending), events).forum.topics, x)
            && SameTopic(g, Run(Sys(g, pending), events).forum, x)
  {
    hide WellFormed, InSubtree, Commit, SameTopic, Run;
    var g := After(f, Commit(f, DeleteTopic(t, actor), supply));
    CommitKeepsWellFormed(f, DeleteTopic(t, actor), supply);
    DeleteTopicEffect(f, t, actor, supply);
    SubtreeAfterDelete(f.topics, g.topics, t, x);
    HiddenSubtreeIsFrozen(Sys(g, pending), events, t);
    var h := Run(Sys(g, pending), events).forum;
    SubtreeHidden(h.topics, x, t);
    HiddenIsStored(h.topics, x);
  }

  lemma SubtreeAfterDelete(before: Topics, after: Topics, t: Id, x: Id)
    requires t in before && t in after && AgreeElsewhere(before, after, t) && InSubtree(before, x, t)
    requires after[t].parentTopicId == before[t].parentTopicId && after[t].deletedAt.Some?
    ensures Hidden(after, t) && InSubtree(after, x, t)
  {
    SameParentsSameWalks(before, after, t);
    assert Climb(TopicLinks(after), t, 0) == Some(t);
    assert InSubtree(after, t, t);
  }

  /** A deleted post stays deleted and empty in every later state. */
  lemma PostDeletionIsFinal(f: Forum, p: Id, actor: Option<Id>, supply: Supply, pending: seq<Prepared>, events: seq<Event>)
    requires WellFormed(f) && Changeable(f, p)
    ensures var g := After(f, Commit(f, DeletePost(p, actor), supply));
            && WellFormed(g)
            && var posts := Run(Sys(g, pending), events).forum.posts;
               p in posts && posts[p].content.None? && posts[p].deletedAt == Some(supply.now) && posts[p].deletedByMemberId == actor
  {
    hide WellFormed, Live, Commit, Run;
    CommitKeepsWellFormed(f, DeletePost(p, actor), supply);
    DeletePostEffect(f, p, actor, supply);
    DeletedPostIsFrozen(Sys(After(f, Commit(f, DeletePost(p, actor), supply)), pending), events, p);
  }
}
