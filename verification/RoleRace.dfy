/** Why the role guarantee stops at serial runs: a concrete interleaving that breaks it.

A child is authorized under a role, and while its transaction waits its parent is authorized under another;
both checks pass on the state they read, and both transactions commit.
*/
module RoleRace {
  import opened Basics
  import opened ParentLinks
  import opened ForumState
  import opened AccessTypes
  import opened TopicContext
  import opened AccessPolicy
  import opened CommandSpec
  import opened Authorization
  import opened CommandRuns
  import opened RoleConsistency
  import PublicAccess

  const ROOT := Id("root")
  const CHILD := Id("child")
  const COPILOT := Id("copilot")
  const MODERATOR := Id("moderator")

  const SERVICE := Principal(None, [], false, true)
  const SYSTEM := Author(Id("system"), "system", false)

  /** No categories, no bans, no challenge facts. */
  ghost function OpenEnv(): Env {
    Env(Facts((c, m) => ChallengeFacts(false, false, false), (c, m) => ResourceFacts(false, false, false, false)),
        PublicAccess.Acl(map[], map[]), p => Allow)
  }

  ghost function CreateRoot(): CreateRequest {
    CreateRequest(None, Omitted, Omitted, "", false, SYSTEM, "")
  }

  ghost function CreateChild(): CreateRequest {
    CreateRequest(Some(ROOT), Omitted, Set(Some(COPILOT)), "", false, SYSTEM, "")
  }

  const RESTRICT_ROOT := TopicPatch(None, None, Some(Some(MODERATOR)))

  ghost function Interleaving(): seq<Event> {
    [Ask(AskCreate(CreateRoot()), SERVICE, OpenEnv()), Transact(0, Supply(ROOT, Id("p1"), 1)),
     Ask(AskCreate(CreateChild()), SERVICE, OpenEnv()), Ask(AskUpdate(ROOT, RESTRICT_ROOT), SERVICE, OpenEnv()),
     Transact(0, Supply(CHILD, Id("p2"), 2)), Transact(0, Supply(Id("x"), Id("y"), 3))]
  }

  const ROOT_DRAFT := TopicDraft(None, None, None, "", false, SYSTEM, "")
  const CHILD_DRAFT := TopicDraft(Some(ROOT), None, Some(COPILOT), "", false, SYSTEM, "")

  lemma ServiceCreatesRoot(f: Forum)
    requires WellFormed(f)
    ensures Authorize(f, OpenEnv(), SERVICE, AskCreate(CreateRoot())) == Ok(CreateTopic(ROOT_DRAFT))
  {
    hide WellFormed;
    assert FirstDenied([Allow]).None?;
  }

  /** The context of an unrestricted, undeleted, unlocked root. */
  lemma PlainRootContext(f: Forum, r: Id)
    requires WellFormed(f) && r in f.topics
    requires var t := f.topics[r]; t.parentTopicId.None? && t.challengeId.None? && t.roleName.None? && t.deletedAt.None?
    ensures Rooted(TopicLinks(f.topics), r)
    ensures var c := ContextOf(f.topics, r, SERVICE);
            && c.effectiveChallengeId.None? && c.effectiveRoleName.None? && c.ancestorRoleName.None?
            && !c.hasDeletedAncestor && !c.hasRestrictionConflict && Available(c)
    ensures PublicAccess.Decide(OpenEnv().acl, f.topics, SERVICE, r) == PublicAccess.Access(true, true, true, false, false)
  {
    hide PostsOk, Acyclic;
    var up := TopicLinks(f.topics);
    assert RootAt(up, r, 0);
    HeightIs(up, r, 0);
    var chain := ChainNodes(f.topics, r);
    assert chain == [Node(r, f.topics[r])];
    ConflictingMeans(Challenges(chain));
    ConflictingMeans(Roles(chain));
    assert Others(chain, r) == [];
    assert Nearest(Challenges(chain)) == None && Nearest(Roles(chain)) == None;
    assert Chain(up, r) == [r];
    assert [r][..0] == [];
    assert PublicAccess.CategoriesOn(OpenEnv().acl, [r]) == [];
  }

  lemma ServiceCreatesChild(f: Forum)
    requires WellFormed(f) && ROOT in f.topics
    requires var t := f.topics[ROOT];
             t.parentTopicId.None? && t.challengeId.None? && t.roleName.None? && t.deletedAt.None? && !t.locked
    ensures Authorize(f, OpenEnv(), SERVICE, AskCreate(CreateChild())) == Ok(CreateTopic(CHILD_DRAFT))
  {
    hide WellFormed, ContextOf, PublicAccess.Decide, Available;
    PlainRootContext(f, ROOT);
    assert FirstDenied([Allow, Allow]).None? by { assert [Allow, Allow][1..] == [Allow]; }
    assert [Allow] + [] + [Allow] == [Allow, Allow];
  }

  lemma ServiceRestrictsRoot(f: Forum)
    requires WellFormed(f) && ROOT in f.topics && !ConflictingDescendant(f.topics, ROOT, Some(MODERATOR))
    requires var t := f.topics[ROOT];
             t.parentTopicId.None? && t.challengeId.None? && t.roleName.None? && t.deletedAt.None? && !t.locked
    ensures Authorize(f, OpenEnv(), SERVICE, AskUpdate(ROOT, RESTRICT_ROOT)) == Ok(UpdateTopic(ROOT, RESTRICT_ROOT))
  {
    hide WellFormed, ContextOf, PublicAccess.Decide, Available, ConflictingDescendant;
    PlainRootContext(f, ROOT);
    assert FirstDenied([Allow, Allow]).None? by { assert [Allow, Allow][1..] == [Allow]; }
    assert [Allow, Allow] + [] == [Allow, Allow];
  }

  lemma RootIsLive(topics: Topics, r: Id)
    requires r in topics && topics[r].parentTopicId.None? && topics[r].deletedAt.None?
    ensures Live(topics, r)
  {
    forall a | InSubtree(topics, r, a) ensures a == r {
      var k: nat :| Climb(TopicLinks(topics), r, k) == Some(a);
    }
  }

  /** The state after the first transaction: one plain root. */
  ghost function RootOnly(): Forum {
    Forum(map[ROOT := NewTopic(ROOT_DRAFT, 1)],
          map[Id("p1") := NewPost(ROOT, "TOPIC", ROOT, SYSTEM, "", 1)], map[], map[], map[])
  }

  ghost function RootAndChild(): Forum {
    Forum(RootOnly().topics[CHILD := NewTopic(CHILD_DRAFT, 2)],
          RootOnly().posts[Id("p2") := NewPost(CHILD, "TOPIC", CHILD, SYSTEM, "", 2)], map[], map[], map[])
  }

  lemma FirstCommit()
    ensures WellFormed(EMPTY_FORUM) && WellFormed(RootOnly())
    ensures Commit(EMPTY_FORUM, CreateTopic(ROOT_DRAFT), Supply(ROOT, Id("p1"), 1)) == Committed(RootOnly())
  {
    hide WellFormed;
    EmptyIsWellFormed();
    CommitKeepsWellFormed(EMPTY_FORUM, CreateTopic(ROOT_DRAFT), Supply(ROOT, Id("p1"), 1));
  }

  lemma SecondCommit()
    ensures WellFormed(RootAndChild())
    ensures Commit(RootOnly(), CreateTopic(CHILD_DRAFT), Supply(CHILD, Id("p2"), 2)) == Committed(RootAndChild())
  {
    hide WellFormed, Hidden;
    FirstCommit();
    RootIsLive(RootOnly().topics, ROOT);
    assert ROOT.text != CHILD.text;
    assert "p1"[1] != "p2"[1];
    CommitKeepsWellFormed(RootOnly(), CreateTopic(CHILD_DRAFT), Supply(CHILD, Id("p2"), 2));
  }

  lemma NothingBelowRootYet()
    ensures !ConflictingDescendant(RootOnly().topics, ROOT, Some(MODERATOR))
  {
    forall d | d in RootOnly().topics ensures d == ROOT {}
  }

  /** The interleaving ends with a live child and its parent under different roles. */
  lemma RolesCanConflictWhenInterleaved()
    ensures WellFormed(EMPTY_FORUM)
    ensures !RolesConsistent(Run(Sys(EMPTY_FORUM, []), Interleaving()).forum.topics)
  {
    FirstCommit();
    SecondCommit();
    var s := ReachesRace();
    RaceConflicts(s.forum);
  }

  lemma ReachesRace() returns (s: Sys)
    ensures WellFormed(EMPTY_FORUM)
    ensures s == Run(Sys(EMPTY_FORUM, []), Interleaving())
    ensures s.forum.topics == RootAndChild().topics[ROOT := Patched(RootAndChild().topics[ROOT], RESTRICT_ROOT, 3)]
  {
    hide WellFormed, Authorize, Commit, ConflictingDescendant, PublicAccess.Decide, ContextOf, Live;
    FirstCommit();
    SecondCommit();
    NothingBelowRootYet();
    ServiceCreatesRoot(EMPTY_FORUM);
    ServiceCreatesChild(RootOnly());
    ServiceRestrictsRoot(RootOnly());
    ThirdCommit();
    var events := Interleaving();
    var child, restrict := CreateTopic(CHILD_DRAFT), UpdateTopic(ROOT, RESTRICT_ROOT);
    var third := Commit(RootAndChild(), restrict, Supply(Id("x"), Id("y"), 3)).forum;
    RunOne(Sys(EMPTY_FORUM, []), events, Sys(EMPTY_FORUM, [CreateTopic(ROOT_DRAFT)]));
    RunOne(Sys(EMPTY_FORUM, [CreateTopic(ROOT_DRAFT)]), events[1..], Sys(RootOnly(), []));
    RunOne(Sys(RootOnly(), []), events[2..], Sys(RootOnly(), [child]));
    RunOne(Sys(RootOnly(), [child]), events[3..], Sys(RootOnly(), [child, restrict]));
    RunOne(Sys(RootOnly(), [child, restrict]), events[4..], Sys(RootAndChild(), [restrict]));
    RunOne(Sys(RootAndChild(), [restrict]), events[5..], Sys(third, []));
    s := Sys(third, []);
  }

  lemma RunOne(s: Sys, events: seq<Event>, next: Sys)
    requires WellFormed(s.forum) && events != [] && Step(s, events[0]) == next
    ensures WellFormed(next.forum)
    ensures Run(s, events) == Run(next, events[1..])
  {
    hide WellFormed;
    StepKeepsWellFormed(s, events[0]);
  }

  lemma ThirdCommit()
    ensures Commit(RootAndChild(), UpdateTopic(ROOT, RESTRICT_ROOT), Supply(Id("x"), Id("y"), 3)) ==
            Committed(RootAndChild().(
              topics := RootAndChild().topics[ROOT := Patched(RootAndChild().topics[ROOT], RESTRICT_ROOT, 3)]))
  {
    hide Hidden;
    assert ROOT.text != CHILD.text;
    RootIsLive(RootAndChild().topics, ROOT);
  }

  lemma RaceConflicts(f: Forum)
    requires f.topics == RootAndChild().topics[ROOT := Patched(RootAndChild().topics[ROOT], RESTRICT_ROOT, 3)]
    ensures !RolesConsistent(f.topics)
  {
    assert ROOT.text != CHILD.text;
    assert COPILOT.text != MODERATOR.text;
    var topics := f.topics;
    var up := TopicLinks(topics);
    assert Climb(up, CHILD, 0) == Some(CHILD);
    assert Climb(up, ROOT, 0) == Some(ROOT);
    assert Climb(up, CHILD, 1) == Some(ROOT);
    assert InSubtree(topics, CHILD, CHILD) && InSubtree(topics, CHILD, ROOT);
    assert topics.Keys == {ROOT, CHILD};
    assert forall a :: a in topics ==> topics[a].deletedAt.None?;
    assert !SameRole(topics, CHILD, ROOT);
  }
}
