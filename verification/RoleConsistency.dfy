/** When transactions keep the roles of every live chain consistent.

The descendant check of a role update, and the inheritance rule of a creation, are evaluated before the transaction.
This module says what they would have to be evaluated on: a transaction keeps consistency exactly if it fits the
state it meets, and a run exactly if every one of its transactions does.
*/
module RoleConsistency {
  import opened Basics
  import opened ParentLinks
  import opened ForumState
  import opened CommandSpec
  import opened CommandRuns

  ghost predicate SameRole(topics: Topics, a: Id, b: Id) {
    a in topics && b in topics && topics[a].roleName.Some? && topics[b].roleName.Some? ==>
      topics[a].roleName == topics[b].roleName
  }

  /** No live topic has two different roles on its chain. */
  ghost predicate RolesConsistent(topics: Topics) {
    forall t, a, b :: Live(topics, t) && InSubtree(topics, t, a) && InSubtree(topics, t, b) ==> SameRole(topics, a, b)
  }

  // ----- the exact guards

  /** A new role fits a topic: every ancestor, and every live topic below, that stores a role stores this one. */
  ghost predicate RoleFits(topics: Topics, topicId: Id, role: Option<Id>) {
    role.Some? ==>
      forall o :: o in topics && o != topicId && topics[o].roleName.Some?
                  && (InSubtree(topics, topicId, o) || (Live(topics, o) && InSubtree(topics, o, topicId))) ==>
        topics[o].roleName == role
  }

  /** A role fits under a parent: every topic on the parent's walk that stores a role stores this one. */
  ghost predicate ChildRoleFits(topics: Topics, parent: Option<Id>, role: Option<Id>) {
    parent.Some? && role.Some? ==>
      forall a :: a in topics && InSubtree(topics, parent.value, a) && topics[a].roleName.Some? ==> topics[a].roleName == role
  }

  /** The transaction would pass its own liveness and key checks. */
  ghost predicate Creates(f: Forum, draft: TopicDraft, supply: Supply) {
    && (draft.parentTopicId.Some? ==> Live(f.topics, draft.parentTopicId.value))
    && supply.topicId !in f.topics && supply.postId !in f.posts
  }

  /** What would have to be checked inside the transaction, on the state it meets. */
  ghost predicate TransactFits(f: Forum, p: Prepared, supply: Supply) {
    match p
    case CreateTopic(draft) => Creates(f, draft, supply) ==> ChildRoleFits(f.topics, draft.parentTopicId, draft.roleName)
    case UpdateTopic(topicId, patch) =>
      Live(f.topics, topicId) && patch.roleName.Some? ==> RoleFits(f.topics, topicId, patch.roleName.value)
    case _ => true
  }

  // ----- walks

  /** Of two topics on one walk, one is above the other. */
  lemma WalkIsLinear(topics: Topics, t: Id, a: Id, b: Id)
    requires InSubtree(topics, t, a) && InSubtree(topics, t, b)
    ensures InSubtree(topics, a, b) || InSubtree(topics, b, a)
  {
    var up := TopicLinks(topics);
    var i: nat :| Climb(up, t, i) == Some(a);
    var j: nat :| Climb(up, t, j) == Some(b);
    if i <= j { ClimbAdd(up, t, i, j - i); } else { ClimbAdd(up, t, j, i - j); }
  }

  lemma LiveWalkIsLive(topics: Topics, t: Id, a: Id)
    requires Live(topics, t) && InSubtree(topics, t, a) && a in topics
    ensures Live(topics, a) && topics[a].deletedAt.None?
  {
    if Hidden(topics, a) { SubtreeHidden(topics, t, a); }
  }

  lemma InOwnSubtree(topics: Topics, t: Id)
    requires t in topics
    ensures InSubtree(topics, t, t)
  {
    assert Climb(TopicLinks(topics), t, 0) == Some(t);
  }

  lemma PairSameRole(topics: Topics, t: Id, a: Id, b: Id)
    requires RolesConsistent(topics) && Live(topics, t) && InSubtree(topics, t, a) && InSubtree(topics, t, b)
    ensures SameRole(topics, a, b)
  {}

  lemma RolesConsistentIntro(topics: Topics)
    requires forall t, a, b :: Live(topics, t) && InSubtree(topics, t, a) && InSubtree(topics, t, b) ==> SameRole(topics, a, b)
    ensures RolesConsistent(topics)
  {}

  // ----- updates

  /** The same topics in the same places, deleted or not as before. */
  ghost predicate SameTree(before: Topics, after: Topics) {
    && before.Keys == after.Keys
    && forall t :: t in before ==>
         after[t].parentTopicId == before[t].parentTopicId && (after[t].deletedAt.Some? <==> before[t].deletedAt.Some?)
  }

  lemma SameWalks(before: Topics, after: Topics, t: Id, a: Id)
    requires SameTree(before, after)
    ensures InSubtree(before, t, a) <==> InSubtree(after, t, a)
  {
    LinksAre(before);
    LinksAre(after);
    assert TopicLinks(before) == TopicLinks(after);
  }

  lemma SameLive(before: Topics, after: Topics, t: Id)
    requires SameTree(before, after)
    ensures Live(before, t) <==> Live(after, t)
  {
    hide InSubtree;
    forall a ensures InSubtree(before, t, a) <==> InSubtree(after, t, a) {
      SameWalks(before, after, t, a);
    }
  }

  lemma UpdateKeepsTree(f: Forum, topicId: Id, patch: TopicPatch, now: int)
    requires topicId in f.topics
    ensures SameTree(f.topics, f.topics[topicId := Patched(f.topics[topicId], patch, now)])
  {}

  lemma FitsOnWalk(topics: Topics, topicId: Id, role: Option<Id>, t: Id, a: Id)
    requires RoleFits(topics, topicId, role) && Live(topics, t)
    requires InSubtree(topics, t, topicId) && InSubtree(topics, t, a) && a != topicId
    ensures a in topics && topics[a].roleName.Some? && role.Some? ==> topics[a].roleName == role
  {
    hide Live, InSubtree;
    WalkIsLinear(topics, t, a, topicId);
    if a in topics { LiveWalkIsLive(topics, t, a); }
  }

  lemma FittingUpdateKeepsRoles(f: Forum, topicId: Id, patch: TopicPatch, now: int)
    requires RolesConsistent(f.topics) && topicId in f.topics && patch.roleName.Some?
    requires RoleFits(f.topics, topicId, patch.roleName.value)
    ensures RolesConsistent(f.topics[topicId := Patched(f.topics[topicId], patch, now)])
  {
    hide RolesConsistent, Live, InSubtree, RoleFits, SameTree;
    var g := f.topics[topicId := Patched(f.topics[topicId], patch, now)];
    UpdateKeepsTree(f, topicId, patch, now);
    forall t, a, b | Live(g, t) && InSubtree(g, t, a) && InSubtree(g, t, b) ensures SameRole(g, a, b) {
      SameWalks(f.topics, g, t, a);
      SameWalks(f.topics, g, t, b);
      SameLive(f.topics, g, t);
      PairSameRole(f.topics, t, a, b);
      if a == topicId && b != topicId { FitsOnWalk(f.topics, topicId, patch.roleName.value, t, b); }
      if b == topicId && a != topicId { FitsOnWalk(f.topics, topicId, patch.roleName.value, t, a); }
    }
    RolesConsistentIntro(g);
  }

  lemma ConsistentUpdateFits(f: Forum, topicId: Id, patch: TopicPatch, now: int)
    requires Live(f.topics, topicId) && patch.roleName.Some?
    requires RolesConsistent(f.topics[topicId := Patched(f.topics[topicId], patch, now)])
    ensures RoleFits(f.topics, topicId, patch.roleName.value)
  {
    hide RolesConsistent, Hidden, InSubtree, SameTree;
    var g := f.topics[topicId := Patched(f.topics[topicId], patch, now)];
    UpdateKeepsTree(f, topicId, patch, now);
    SameLive(f.topics, g, topicId);
    InOwnSubtree(g, topicId);
    forall o | o in f.topics && o != topicId ensures InSubtree(f.topics, topicId, o) ==> SameRole(g, topicId, o)
                                             ensures Live(f.topics, o) && InSubtree(f.topics, o, topicId) ==> SameRole(g, topicId, o)
    {
      SameWalks(f.topics, g, topicId, o);
      SameWalks(f.topics, g, o, topicId);
      SameLive(f.topics, g, o);
      InOwnSubtree(g, o);
      if InSubtree(g, topicId, o) { PairSameRole(g, topicId, topicId, o); }
      if Live(g, o) && InSubtree(g, o, topicId) { PairSameRole(g, o, topicId, o); }
    }
  }

  // ----- creations

  lemma OldTopicsUnchanged(f: Forum, draft: TopicDraft, supply: Supply, t: Id, a: Id)
    requires Sound(TopicLinks(f.topics)) && supply.topicId !in f.topics && t in f.topics
    ensures var g := f.topics[supply.topicId := NewTopic(draft, supply.now)];
            && (InSubtree(g, t, a) <==> InSubtree(f.topics, t, a))
            && (InSubtree(f.topics, t, a) ==> a in f.topics)
  {
    var g := f.topics[supply.topicId := NewTopic(draft, supply.now)];
    assert TopicsEvolve(f.topics, g);
    SubtreeEvolves(f.topics, g, t, a);
    if InSubtree(f.topics, t, a) {
      var k: nat :| Climb(TopicLinks(f.topics), t, k) == Some(a);
      ClimbStored(TopicLinks(f.topics), t, k);
    }
  }

  lemma OldTopicsLive(f: Forum, draft: TopicDraft, supply: Supply, t: Id)
    requires Sound(TopicLinks(f.topics)) && supply.topicId !in f.topics && t in f.topics
    ensures Live(f.topics[supply.topicId := NewTopic(draft, supply.now)], t) <==> Live(f.topics, t)
  {
    hide Sound, InSubtree, NewTopic;
    var g := f.topics[supply.topicId := NewTopic(draft, supply.now)];
    forall a ensures (InSubtree(g, t, a) <==> InSubtree(f.topics, t, a)) && (InSubtree(f.topics, t, a) ==> a in f.topics) {
      OldTopicsUnchanged(f, draft, supply, t, a);
    }
  }

  /** The walk of the new topic: itself, then its parent's walk. */
  lemma NewTopicWalk(f: Forum, draft: TopicDraft, supply: Supply, a: Id)
    requires Sound(TopicLinks(f.topics)) && supply.topicId !in f.topics
    requires draft.parentTopicId.Some? ==> draft.parentTopicId.value in f.topics
    ensures InSubtree(f.topics[supply.topicId := NewTopic(draft, supply.now)], supply.topicId, a) <==>
              a == supply.topicId || (draft.parentTopicId.Some? && InSubtree(f.topics, draft.parentTopicId.value, a))
  {
    var up, x := TopicLinks(f.topics), supply.topicId;
    var g := f.topics[x := NewTopic(draft, supply.now)];
    LinksAre(f.topics);
    LinksUpdate(f.topics, x, NewTopic(draft, supply.now));
    if InSubtree(g, x, a) {
      var k: nat :| Climb(TopicLinks(g), x, k) == Some(a);
      ClimbNew(up, x, draft.parentTopicId, k);
    }
    if a == x { InOwnSubtree(g, x); }
    if draft.parentTopicId.Some? && InSubtree(f.topics, draft.parentTopicId.value, a) {
      var k: nat :| Climb(up, draft.parentTopicId.value, k) == Some(a);
      ClimbNew(up, x, draft.parentTopicId, k + 1);
    }
  }

  lemma NewTopicIsLive(f: Forum, draft: TopicDraft, supply: Supply)
    requires Sound(TopicLinks(f.topics)) && Creates(f, draft, supply)
    ensures Live(f.topics[supply.topicId := NewTopic(draft, supply.now)], supply.topicId)
  {
    hide Sound, InSubtree;
    var g := f.topics[supply.topicId := NewTopic(draft, supply.now)];
    forall a | a in g && InSubtree(g, supply.topicId, a) ensures g[a].deletedAt.None? {
      NewTopicWalk(f, draft, supply, a);
    }
  }

  lemma FittingCreateKeepsRoles(f: Forum, draft: TopicDraft, supply: Supply)
    requires Sound(TopicLinks(f.topics)) && RolesConsistent(f.topics) && Creates(f, draft, supply)
    requires ChildRoleFits(f.topics, draft.parentTopicId, draft.roleName)
    ensures RolesConsistent(f.topics[supply.topicId := NewTopic(draft, supply.now)])
  {
    hide Sound, RolesConsistent, Hidden, InSubtree;
    var x := supply.topicId;
    var g := f.topics[x := NewTopic(draft, supply.now)];
    forall t, a, b | Live(g, t) && InSubtree(g, t, a) && InSubtree(g, t, b) ensures SameRole(g, a, b) {
      if t == x {
        NewTopicWalk(f, draft, supply, a);
        NewTopicWalk(f, draft, supply, b);
        if a != x && b != x { PairSameRole(f.topics, draft.parentTopicId.value, a, b); }
      } else {
        OldTopicsLive(f, draft, supply, t);
        OldTopicsUnchanged(f, draft, supply, t, a);
        OldTopicsUnchanged(f, draft, supply, t, b);
        PairSameRole(f.topics, t, a, b);
      }
    }
    RolesConsistentIntro(g);
  }

  lemma ConsistentCreateFits(f: Forum, draft: TopicDraft, supply: Supply)
    requires Sound(TopicLinks(f.topics)) && Creates(f, draft, supply)
    requires RolesConsistent(f.topics[supply.topicId := NewTopic(draft, supply.now)])
    ensures ChildRoleFits(f.topics, draft.parentTopicId, draft.roleName)
  {
    hide Sound, RolesConsistent, Hidden, InSubtree;
    var x := supply.topicId;
    var g := f.topics[x := NewTopic(draft, supply.now)];
    NewTopicIsLive(f, draft, supply);
    InOwnSubtree(g, x);
    if draft.parentTopicId.Some? {
      forall a | a in f.topics && InSubtree(f.topics, draft.parentTopicId.value, a) ensures SameRole(g, x, a) {
        NewTopicWalk(f, draft, supply, a);
        PairSameRole(g, x, x, a);
      }
    }
  }

  // ----- everything else

  /** Changes that keep every topic in place, keep roles, and at most delete, keep role consistency. */
  ghost predicate RolesUntouched(before: Topics, after: Topics) {
    && before.Keys == after.Keys
    && forall t :: t in before ==>
         && after[t].parentTopicId == before[t].parentTopicId
         && after[t].roleName == before[t].roleName
         && (before[t].deletedAt.Some? ==> after[t].deletedAt.Some?)
  }

  lemma UntouchedKeepsRoles(before: Topics, after: Topics)
    requires RolesUntouched(before, after) && RolesConsistent(before)
    ensures RolesConsistent(after)
  {
    LinksAre(before);
    LinksAre(after);
    assert TopicLinks(before) == TopicLinks(after);
    forall t, a, b | Live(after, t) && InSubtree(after, t, a) && InSubtree(after, t, b) ensures SameRole(after, a, b) {
      LiveBefore(before, after, t);
      assert InSubtree(before, t, a) && InSubtree(before, t, b);
      assert SameRole(before, a, b);
    }
  }

  lemma LiveBefore(before: Topics, after: Topics, t: Id)
    requires RolesUntouched(before, after) && TopicLinks(before) == TopicLinks(after) && Live(after, t)
    ensures Live(before, t)
  {
    assert forall a :: InSubtree(before, t, a) <==> InSubtree(after, t, a);
  }

  lemma OtherCommandsLeaveRoles(f: Forum, p: Prepared, supply: Supply)
    requires !p.CreateTopic? && (p.UpdateTopic? ==> p.patch.roleName.None?)
    ensures RolesUntouched(f.topics, After(f, Commit(f, p, supply)).topics)
  {
    hide Hidden, ResolvePostParent;
  }

  // ----- one transaction, and whole runs

  /** A transaction keeps the roles of every live chain consistent exactly if it fits the state it meets. */
  lemma ConsistentIffFits(f: Forum, p: Prepared, supply: Supply)
    requires WellFormed(f) && RolesConsistent(f.topics)
    ensures RolesConsistent(After(f, Commit(f, p, supply)).topics) <==> TransactFits(f, p, supply)
  {
    hide RolesConsistent, RolesUntouched, Sound, PostsOk, Hidden, RoleFits, ChildRoleFits, NewTopic, NewPost, Patched, SeedRead,
         SeedWatch, CommitDeleteTopic, CommitCreatePost, CommitUpdatePost, CommitDeletePost, CommitReaction, CommitWatch, CommitRead,
         CommitLock;
    if p.CreateTopic? {
      if Creates(f, p.draft, supply) {
        if ChildRoleFits(f.topics, p.draft.parentTopicId, p.draft.roleName) {
          FittingCreateKeepsRoles(f, p.draft, supply);
        } else if RolesConsistent(After(f, Commit(f, p, supply)).topics) {
          ConsistentCreateFits(f, p.draft, supply);
        }
      }
    } else if p.UpdateTopic? && p.patch.roleName.Some? {
      if Live(f.topics, p.topicId) {
        if RoleFits(f.topics, p.topicId, p.patch.roleName.value) {
          FittingUpdateKeepsRoles(f, p.topicId, p.patch, supply.now);
        } else if RolesConsistent(After(f, Commit(f, p, supply)).topics) {
          ConsistentUpdateFits(f, p.topicId, p.patch, supply.now);
        }
      }
    } else {
      OtherCommandsLeaveRoles(f, p, supply);
      UntouchedKeepsRoles(f.topics, After(f, Commit(f, p, supply)).topics);
    }
  }

  /** A transaction of a waiting command fits; authorization reads write nothing. */
  ghost predicate StepFits(s: Sys, e: Event) {
    e.Transact? && e.index < |s.pending| ==> TransactFits(s.forum, s.pending[e.index], e.supply)
  }

  lemma StepConsistentIffFits(s: Sys, e: Event)
    requires WellFormed(s.forum) && RolesConsistent(s.forum.topics)
    ensures RolesConsistent(Step(s, e).forum.topics) <==> StepFits(s, e)
  {
    hide RolesConsistent, TransactFits, WellFormed, Commit;
    if e.Transact? && e.index < |s.pending| {
      ConsistentIffFits(s.forum, s.pending[e.index], e.supply);
    }
  }

  /** The state after the first `n` events. */
  ghost function StateAt(s: Sys, events: seq<Event>, n: nat): Sys
    requires WellFormed(s.forum) && n <= |events|
  {
    Run(s, events[..n])
  }

  lemma {:induction false} NextState(s: Sys, events: seq<Event>, n: nat)
    requires WellFormed(s.forum) && n < |events|
    ensures WellFormed(StateAt(s, events, n).forum)
    ensures StateAt(s, events, n + 1) == Step(StateAt(s, events, n), events[n])
    decreases n
  {
    hide WellFormed, Step;
    RunKeepsWellFormed(s, events[..n]);
    StepKeepsWellFormed(s, events[0]);
    if n > 0 {
      NextState(Step(s, events[0]), events[1..], n - 1);
      assert events[1..][..n - 1] == events[..n][1..];
      assert events[1..][..n] == events[..n + 1][1..];
    } else {
      FirstState(s, events);
    }
  }

  lemma FirstState(s: Sys, events: seq<Event>)
    requires WellFormed(s.forum) && events != []
    ensures StateAt(s, events, 0) == s && StateAt(s, events, 1) == Step(s, events[0])
  {
    hide WellFormed, Step;
    StepKeepsWellFormed(s, events[0]);
    assert events[..1] == [events[0]];
    assert [events[0]][1..] == [];
    assert Run(Step(s, events[0]), []) == Step(s, events[0]);
  }

  /** Over any interleaving, from a consistent state: roles are consistent in every state of the run exactly if every
  transaction of the run fits the state it meets. */
  lemma {:induction false} RunConsistentIffFits(s: Sys, events: seq<Event>, n: nat)
    requires WellFormed(s.forum) && RolesConsistent(s.forum.topics) && n <= |events|
    ensures (forall i: nat :: i <= n ==> RolesConsistent(StateAt(s, events, i).forum.topics)) <==>
            (forall i: nat :: i < n ==> StepFits(StateAt(s, events, i), events[i]))
    decreases n
  {
    hide WellFormed, Step, RolesConsistent, StepFits, StateAt;
    if n == 0 {
      StartState(s, events);
    } else {
      RunConsistentIffFits(s, events, n - 1);
      NextState(s, events, n - 1);
      if RolesConsistent(StateAt(s, events, n - 1).forum.topics) {
        StepConsistentIffFits(StateAt(s, events, n - 1), events[n - 1]);
      }
    }
  }

  lemma StartState(s: Sys, events: seq<Event>)
    requires WellFormed(s.forum)
    ensures StateAt(s, events, 0) == s
  {}
}
