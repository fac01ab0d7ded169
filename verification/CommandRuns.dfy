/** Safety over whole runs of the command service.

Authorization and transaction of one command may be separated by any number of steps of other commands. The
first half of this module is about every such interleaving; the second about runs in which each command's
transaction directly follows its authorization.
*/
module CommandRuns {
  import opened Basics
  import opened ParentLinks
  import opened ForumState
  import opened AccessTypes
  import opened CommandSpec
  import opened Authorization

  /** The stored forum and the commands authorized but not yet executed. */
  datatype Sys = Sys(forum: Forum, pending: seq<Prepared>)

  datatype Event =
    | Ask(request: Request, principal: Principal, env: Env)
    | Transact(index: nat, supply: Supply)

  ghost function Step(s: Sys, e: Event): Sys
    requires WellFormed(s.forum)
  {
    match e
    case Ask(request, principal, env) =>
      (match Authorize(s.forum, env, principal, request)
       case Ok(p) => s.(pending := s.pending + [p])
       case Err(_) => s)
    case Transact(i, supply) =>
      if i < |s.pending| then
        Sys(After(s.forum, Commit(s.forum, s.pending[i], supply)), s.pending[..i] + s.pending[i + 1..])
      else s
  }

  lemma StepKeepsWellFormed(s: Sys, e: Event)
    requires WellFormed(s.forum)
    ensures WellFormed(Step(s, e).forum)
  {
    hide Commit, Authorize, WellFormed;
    if e.Transact? && e.index < |s.pending| {
      CommitKeepsWellFormed(s.forum, s.pending[e.index], e.supply);
    }
  }

  ghost function Run(s: Sys, events: seq<Event>): Sys
    requires WellFormed(s.forum)
    decreases |events|
  {
    if events == [] then s
    else
      assert WellFormed(Step(s, events[0]).forum) by { StepKeepsWellFormed(s, events[0]); }
      Run(Step(s, events[0]), events[1..])
  }

  /** In every reachable state the parent links of topics and of posts are sound. */
  lemma {:induction false} RunKeepsWellFormed(s: Sys, events: seq<Event>)
    requires WellFormed(s.forum)
    ensures WellFormed(Run(s, events).forum)
    decreases |events|
  {
    if events != [] {
      StepKeepsWellFormed(s, events[0]);
      RunKeepsWellFormed(Step(s, events[0]), events[1..]);
    }
  }

  // ----- hidden stays hidden, and frozen

  ghost predicate SameButLock(before: Topic, after: Topic) {
    after == before.(locked := after.locked, lockedAt := after.lockedAt,
                     lockedByMemberId := after.lockedByMemberId, updatedAt := after.updatedAt)
  }

  ghost predicate SamePosts(before: Posts, after: Posts, d: Id) {
    && (forall p :: p in before && before[p].topicId == d ==> p in after && after[p] == before[p])
    && (forall p :: p in after && after[p].topicId == d ==> p in before && after[p] == before[p])
  }

  ghost predicate SameReactions(posts: Posts, before: map<MemberKey, Reaction>, after: map<MemberKey, Reaction>, d: Id) {
    forall k: MemberKey :: k.target in posts && posts[k.target].topicId == d ==>
      (k in before <==> k in after) && (k in before && k in after ==> before[k] == after[k])
  }

  ghost predicate SameStates<V>(before: map<MemberKey, V>, after: map<MemberKey, V>, d: Id) {
    forall k: MemberKey :: k.target == d ==>
      (k in before <==> k in after) && (k in before && k in after ==> before[k] == after[k])
  }

  /** Nothing that belongs to topic `d` differs between the two states, lock columns and `updatedAt` aside. */
  ghost predicate SameTopic(f: Forum, g: Forum, d: Id) {
    && d in f.topics && d in g.topics && SameButLock(f.topics[d], g.topics[d])
    && SamePosts(f.posts, g.posts, d)
    && SameReactions(f.posts, f.reactions, g.reactions, d)
    && SameStates(f.watches, g.watches, d)
    && SameStates(f.readStates, g.readStates, d)
  }

  lemma HiddenIsStored(topics: Topics, d: Id)
    requires Hidden(topics, d)
    ensures d in topics && !Live(topics, d)
  {
    var a :| InSubtree(topics, d, a) && a in topics && topics[a].deletedAt.Some?;
    var k: nat :| Climb(TopicLinks(topics), d, k) == Some(a);
    ClimbStored(TopicLinks(topics), d, k);
  }

  lemma CreateTopicSpares(f: Forum, draft: TopicDraft, supply: Supply, d: Id)
    requires d in f.topics && !Live(f.topics, d)
    ensures SameTopic(f, After(f, CommitCreateTopic(f, draft, supply)), d)
  {
    hide Live, SameReactions;
    SameStatesReflexive(f, d);
  }

  lemma TopicWritesSpare(f: Forum, topicId: Id, patch: TopicPatch, locked: bool, actor: Option<Id>, now: int, d: Id)
    requires d in f.topics && !Live(f.topics, d)
    ensures SameTopic(f, After(f, CommitUpdateTopic(f, topicId, patch, now)), d)
    ensures SameTopic(f, After(f, CommitDeleteTopic(f, topicId, actor, now)), d)
    ensures SameTopic(f, After(f, CommitLock(f, topicId, locked, actor, now)), d)
  {
    hide Live, SameReactions, SameStates, SamePosts;
    SameStatesReflexive(f, d);
  }

  lemma CreatePostSpares(f: Forum, topicId: Id, parentType: Option<string>, parentId: Option<Id>, author: Author,
                         content: string, supply: Supply, d: Id)
    requires d in f.topics && !Live(f.topics, d)
    ensures SameTopic(f, After(f, CommitCreatePost(f, topicId, parentType, parentId, author, content, supply)), d)
  {
    hide Live, ResolvePostParent;
  }

  lemma PostWritesSpare(f: Forum, postId: Id, content: string, actor: Option<Id>, now: int, d: Id)
    requires d in f.topics && !Live(f.topics, d)
    ensures SameTopic(f, After(f, CommitUpdatePost(f, postId, content, now)), d)
    ensures SameTopic(f, After(f, CommitDeletePost(f, postId, actor, now)), d)
  {
    hide Live, SameReactions, SameStates;
    SameStatesReflexive(f, d);
  }

  lemma SameStatesReflexive(f: Forum, d: Id)
    ensures SameReactions(f.posts, f.reactions, f.reactions, d)
    ensures SameStates(f.watches, f.watches, d) && SameStates(f.readStates, f.readStates, d)
    ensures SamePosts(f.posts, f.posts, d)
  {}

  lemma ReactionSpares(f: Forum, id: Id, memberId: Id, reaction: Option<Reaction>, d: Id)
    requires d in f.topics && !Live(f.topics, d)
    ensures SameTopic(f, After(f, CommitReaction(f, id, memberId, reaction)), d)
  {
    hide Live, SameStates, SamePosts;
    SameStatesReflexive(f, d);
  }

  lemma WatchSpares(f: Forum, id: Id, memberId: Id, choice: Option<bool>, d: Id)
    requires d in f.topics && !Live(f.topics, d)
    ensures SameTopic(f, After(f, CommitWatch(f, id, memberId, choice)), d)
  {
    hide Live, SamePosts, SameReactions;
    SameStatesReflexive(f, d);
  }

  lemma ReadSpares(f: Forum, id: Id, memberId: Id, at: int, d: Id)
    requires d in f.topics && !Live(f.topics, d)
    ensures SameTopic(f, After(f, CommitRead(f, id, memberId, at)), d)
  {
    hide Live, SamePosts, SameReactions;
    SameStatesReflexive(f, d);
  }

  /** No transaction touches anything that belongs to a topic that is not live. */
  lemma CommitSparesHidden(f: Forum, p: Prepared, supply: Supply, d: Id)
    requires WellFormed(f) && d in f.topics && !Live(f.topics, d)
    ensures SameTopic(f, After(f, Commit(f, p, supply)), d)
  {
    hide WellFormed, SameTopic, Live, CommitCreateTopic, CommitUpdateTopic, CommitDeleteTopic, CommitCreatePost,
         CommitUpdatePost, CommitDeletePost, CommitReaction, CommitWatch, CommitRead, CommitLock;
    var noPatch := TopicPatch(None, None, None);
    match p {
      case CreateTopic(draft) => CreateTopicSpares(f, draft, supply, d);
      case CreatePost(topicId, parentType, parentId, author, content) =>
        CreatePostSpares(f, topicId, parentType, parentId, author, content, supply, d);
      case UpdateTopic(topicId, patch) => TopicWritesSpare(f, topicId, patch, false, None, supply.now, d);
      case DeleteTopic(topicId, actor) => TopicWritesSpare(f, topicId, noPatch, false, actor, supply.now, d);
      case SetLock(topicId, locked, actor) => TopicWritesSpare(f, topicId, noPatch, locked, actor, supply.now, d);
      case UpdatePost(postId, content) => PostWritesSpare(f, postId, content, None, supply.now, d);
      case DeletePost(postId, actor) => PostWritesSpare(f, postId, "", actor, supply.now, d);
      case SetReaction(postId, memberId, reaction) =>
        ReactionSpares(f, postId, memberId, Some(reaction), d);
      case RemoveReaction(postId, memberId) => ReactionSpares(f, postId, memberId, None, d);
      case AddWatch(topicId, memberId) => WatchSpares(f, topicId, memberId, Some(true), d);
      case RemoveWatch(topicId, memberId, challengeScoped) =>
        WatchSpares(f, topicId, memberId, if challengeScoped then Some(false) else None, d);
      case MarkRead(topicId, memberId, lastReadAt) =>
        ReadSpares(f, topicId, memberId, lastReadAt, d);
    }
  }

  /** Topics never move, never change challenge, and never come back from deletion. */
  lemma CommitEvolvesTopics(f: Forum, p: Prepared, supply: Supply)
    requires WellFormed(f)
    ensures TopicsEvolve(f.topics, After(f, Commit(f, p, supply)).topics)
  {
    hide WellFormed, Live, ResolvePostParent;
  }

  /** The subtree of a hidden topic gains no topic. */
  lemma CommitKeepsHiddenSubtree(f: Forum, p: Prepared, supply: Supply, t: Id, x: Id)
    requires WellFormed(f) && Hidden(f.topics, t)
    ensures InSubtree(After(f, Commit(f, p, supply)).topics, x, t) <==> InSubtree(f.topics, x, t)
  {
    var g := After(f, Commit(f, p, supply));
    CommitEvolvesTopics(f, p, supply);
    HiddenIsStored(f.topics, t);
    if x in f.topics {
      SubtreeEvolves(f.topics, g.topics, x, t);
    } else {
      NewTopicNotBelowHidden(f, p, supply, t, x);
    }
  }

  lemma SubtreeEvolves(before: Topics, after: Topics, x: Id, t: Id)
    requires TopicsEvolve(before, after) && Closed(TopicLinks(before)) && x in before
    ensures InSubtree(after, x, t) <==> InSubtree(before, x, t)
  {
    forall k: nat ensures Climb(TopicLinks(after), x, k) == Climb(TopicLinks(before), x, k) {
      ClimbEvolves(before, after, x, k);
    }
  }

  lemma NewTopicNotBelowHidden(f: Forum, p: Prepared, supply: Supply, t: Id, x: Id)
    requires WellFormed(f) && Hidden(f.topics, t) && t in f.topics && x !in f.topics
    ensures !InSubtree(f.topics, x, t)
    ensures !InSubtree(After(f, Commit(f, p, supply)).topics, x, t)
  {
    hide *;
    var g := After(f, Commit(f, p, supply));
    NotStoredNotBelow(f.topics, x, t);
    if x in g.topics {
      OnlyCreateAdds(f, p, supply, x);
      BelowNewTopic(f, p.draft, supply, t);
    } else {
      NotStoredNotBelow(g.topics, x, t);
    }
  }

  lemma NotStoredNotBelow(topics: Topics, x: Id, t: Id)
    requires x !in topics
    ensures !InSubtree(topics, x, t)
  {
    hide TopicLinks;
    LinksAre(topics);
    forall k: nat ensures Climb(TopicLinks(topics), x, k) != Some(t) {
      ClimbStored(TopicLinks(topics), x, k);
    }
  }

  lemma OnlyCreateAdds(f: Forum, p: Prepared, supply: Supply, x: Id)
    requires x !in f.topics && x in After(f, Commit(f, p, supply)).topics
    ensures p.CreateTopic? && x == supply.topicId
    ensures CommitCreateTopic(f, p.draft, supply).Committed? && Commit(f, p, supply) == CommitCreateTopic(f, p.draft, supply)
  {
    hide Hidden, Mutable, ResolvePostParent, NewTopic, NewPost, Patched, SeedRead, SeedWatch;
  }

  lemma BelowNewTopic(f: Forum, draft: TopicDraft, supply: Supply, t: Id)
    requires WellFormed(f) && Hidden(f.topics, t) && t in f.topics && supply.topicId !in f.topics
    requires CommitCreateTopic(f, draft, supply).Committed?
    ensures !InSubtree(After(f, CommitCreateTopic(f, draft, supply)).topics, supply.topicId, t)
  {
    var up := TopicLinks(f.topics);
    var x := supply.topicId;
    LinksUpdate(f.topics, x, NewTopic(draft, supply.now));
    var wider := TopicLinks(After(f, CommitCreateTopic(f, draft, supply)).topics);
    forall k: nat ensures Climb(wider, x, k) != Some(t) {
      ClimbNew(up, x, draft.parentTopicId, k);
      if k > 0 && draft.parentTopicId.Some? && Climb(up, draft.parentTopicId.value, k - 1) == Some(t) {
        assert InSubtree(f.topics, draft.parentTopicId.value, t);
        SubtreeHidden(f.topics, draft.parentTopicId.value, t);
      }
    }
  }

  /** A hidden subtree as it was: still hidden, the same topics, and nothing of theirs changed. */
  ghost predicate Frozen(f: Forum, g: Forum, t: Id) {
    && Hidden(g.topics, t)
    && (forall x :: InSubtree(g.topics, x, t) <==> InSubtree(f.topics, x, t))
    && (forall x :: InSubtree(f.topics, x, t) ==> SameTopic(f, g, x))
  }

  lemma CommitFreezes(f: Forum, p: Prepared, supply: Supply, t: Id)
    requires WellFormed(f) && Hidden(f.topics, t)
    ensures Frozen(f, After(f, Commit(f, p, supply)), t)
  {
    hide Hidden, InSubtree, SameTopic, Commit, Live;
    var g := After(f, Commit(f, p, supply));
    CommitEvolvesTopics(f, p, supply);
    HiddenStays(f.topics, g.topics, t);
    forall x ensures InSubtree(g.topics, x, t) <==> InSubtree(f.topics, x, t) {
      CommitKeepsHiddenSubtree(f, p, supply, t, x);
    }
    forall x | InSubtree(f.topics, x, t) ensures SameTopic(f, g, x) {
      SubtreeHidden(f.topics, x, t);
      HiddenIsStored(f.topics, x);
      CommitSparesHidden(f, p, supply, x);
    }
  }

  lemma SameTopicTransitive(f: Forum, g: Forum, h: Forum, d: Id)
    requires SameTopic(f, g, d) && SameTopic(g, h, d)
    ensures SameTopic(f, h, d)
  {}

  lemma SameTopicReflexive(f: Forum, d: Id)
    requires d in f.topics
    ensures SameTopic(f, f, d)
  {}

  /** Safety of hiding, over every interleaving of authorizations and transactions: once a topic is hidden it
  stays hidden, its subtree gains no topic and no post, and its topics, posts, reactions, watches and read
  states never change again (lock columns and `updatedAt` aside). */
  lemma {:induction false} HiddenSubtreeIsFrozen(s: Sys, events: seq<Event>, t: Id)
    requires WellFormed(s.forum) && Hidden(s.forum.topics, t)
    ensures Frozen(s.forum, Run(s, events).forum, t)
    decreases |events|
  {
    hide Hidden, InSubtree, SameTopic, Commit, Authorize, WellFormed;
    if events == [] {
      forall x | InSubtree(s.forum.topics, x, t) ensures SameTopic(s.forum, s.forum, x) {
        SubtreeHidden(s.forum.topics, x, t);
        HiddenIsStored(s.forum.topics, x);
        SameTopicReflexive(s.forum, x);
      }
    } else {
      var s' := Step(s, events[0]);
      StepKeepsWellFormed(s, events[0]);
      StepFreezes(s, events[0], t);
      HiddenSubtreeIsFrozen(s', events[1..], t);
      forall x | InSubtree(s.forum.topics, x, t) ensures SameTopic(s.forum, Run(s, events).forum, x) {
        SameTopicTransitive(s.forum, s'.forum, Run(s', events[1..]).forum, x);
      }
    }
  }

  lemma StepFreezes(s: Sys, e: Event, t: Id)
    requires WellFormed(s.forum) && Hidden(s.forum.topics, t)
    ensures Frozen(s.forum, Step(s, e).forum, t)
  {
    hide Hidden, InSubtree, SameTopic, Commit, WellFormed;
    if e.Transact? && e.index < |s.pending| {
      CommitFreezes(s.forum, s.pending[e.index], e.supply, t);
    } else {
      forall x | InSubtree(s.forum.topics, x, t) ensures SameTopic(s.forum, s.forum, x) {
        SubtreeHidden(s.forum.topics, x, t);
        HiddenIsStored(s.forum.topics, x);
        SameTopicReflexive(s.forum, x);
      }
    }
  }

  /** The row of a deleted post and its reactions. */
  ghost predicate PostFrozen(f: Forum, g: Forum, p: Id) {
    && p in f.posts && p in g.posts && g.posts[p] == f.posts[p]
    && forall k: MemberKey :: k.target == p ==>
         (k in f.reactions <==> k in g.reactions) && (k in f.reactions && k in g.reactions ==> f.reactions[k] == g.reactions[k])
  }

  lemma CommitKeepsDeletedPost(f: Forum, c: Prepared, supply: Supply, p: Id)
    requires p in f.posts && f.posts[p].deletedAt.Some?
    ensures PostFrozen(f, After(f, Commit(f, c, supply)), p)
  {
    hide Live, ResolvePostParent, NewTopic, Patched, SeedRead, SeedWatch;
  }

  /** Over every interleaving, a soft-deleted post and its reactions never change again. */
  lemma {:induction false} DeletedPostIsFrozen(s: Sys, events: seq<Event>, p: Id)
    requires WellFormed(s.forum) && p in s.forum.posts && s.forum.posts[p].deletedAt.Some?
    ensures PostFrozen(s.forum, Run(s, events).forum, p)
    decreases |events|
  {
    hide Commit, Authorize, WellFormed;
    if events != [] {
      StepKeepsWellFormed(s, events[0]);
      if events[0].Transact? && events[0].index < |s.pending| {
        CommitKeepsDeletedPost(s.forum, s.pending[events[0].index], events[0].supply, p);
      }
      DeletedPostIsFrozen(Step(s, events[0]), events[1..], p);
    }
  }
}
