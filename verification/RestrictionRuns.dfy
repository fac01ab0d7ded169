/** What runs of the command service guarantee about restrictions.

Challenge restrictions survive every interleaving. Role restrictions are only consistent when commands are
served one at a time: the descendant check of a role update runs before its transaction.
*/
module RestrictionRuns {
  import opened Basics
  import opened ParentLinks
  import opened ForumState
  import opened AccessTypes
  import opened TopicContext
  import opened CommandSpec
  import opened Authorization
  import opened CommandRuns
  import opened RoleConsistency
  import AccessPolicy

  // ----- challenge topics, under any interleaving

  /** A topic with a challenge is a root and has no children. */
  ghost predicate ChallengeTopicsStandAlone(topics: Topics) {
    forall t :: t in topics && topics[t].parentTopicId.Some? ==>
      && topics[t].challengeId.None?
      && topics[t].parentTopicId.value in topics
      && topics[topics[t].parentTopicId.value].challengeId.None?
  }

  /** A waiting child creation carries no challenge and goes under a stored topic without one. */
  ghost predicate ChildMayGo(topics: Topics, p: Prepared) {
    p.CreateTopic? && p.draft.parentTopicId.Some? ==>
      && p.draft.challengeId.None?
      && p.draft.parentTopicId.value in topics
      && topics[p.draft.parentTopicId.value].challengeId.None?
  }

  ghost predicate ChallengeSafe(s: Sys) {
    && ChallengeTopicsStandAlone(s.forum.topics)
    && forall i :: 0 <= i < |s.pending| ==> ChildMayGo(s.forum.topics, s.pending[i])
  }

  lemma AuthorizedChildMayGo(f: Forum, env: Env, principal: Principal, request: Request)
    requires WellFormed(f) && Authorize(f, env, principal, request).Ok?
    ensures ChildMayGo(f.topics, Authorize(f, env, principal, request).value)
  {
    hide Sound, AuthorizeCreate, AuthorizeUpdate, AuthorizeDelete, PostsOk;
    match request {
      case AskCreate(dto) =>
        CreateKeepsParent(f, env, principal, dto);
        if dto.parentTopicId.Some? {
          GrantedChildHasNoChallenge(f, env, principal, dto);
          assert ChainNodes(f.topics, dto.parentTopicId.value)[0] in ChainNodes(f.topics, dto.parentTopicId.value);
        }
      case AskUpdate(topicId, patch) => UpdateIsNotCreate(f, env, principal, topicId, patch);
      case AskDelete(topicId, actor) => DeleteIsNotCreate(f, env, principal, topicId, actor);
      case AskOther(p) =>
    }
  }

  lemma CreateKeepsParent(f: Forum, env: Env, principal: Principal, dto: CreateRequest)
    requires Sound(TopicLinks(f.topics)) && AuthorizeCreate(f, env, principal, dto).Ok?
    ensures AuthorizeCreate(f, env, principal, dto).value.CreateTopic?
    ensures AuthorizeCreate(f, env, principal, dto).value.draft.parentTopicId == dto.parentTopicId
  {
    hide Sound, ContextOf, FirstDenied, ResolveInherited;
  }

  lemma UpdateIsNotCreate(f: Forum, env: Env, principal: Principal, topicId: Id, patch: TopicPatch)
    requires Sound(TopicLinks(f.topics)) && AuthorizeUpdate(f, env, principal, topicId, patch).Ok?
    ensures var p := AuthorizeUpdate(f, env, principal, topicId, patch).value;
            p.UpdateTopic? && p.topicId == topicId && (patch.roleName.None? ==> p.patch.roleName.None?)
  {
    hide Sound, ContextOf, FirstDenied, AuthorizeRole;
  }

  lemma DeleteIsNotCreate(f: Forum, env: Env, principal: Principal, topicId: Id, actor: Option<Id>)
    requires Sound(TopicLinks(f.topics)) && AuthorizeDelete(f, env, principal, topicId, actor).Ok?
    ensures AuthorizeDelete(f, env, principal, topicId, actor).value == DeleteTopic(topicId, actor)
  {
    hide Sound, ContextOf, FirstDenied;
  }

  lemma CommitKeepsChallengeTopics(f: Forum, p: Prepared, supply: Supply)
    requires WellFormed(f) && ChallengeTopicsStandAlone(f.topics) && ChildMayGo(f.topics, p)
    ensures ChallengeTopicsStandAlone(After(f, Commit(f, p, supply)).topics)
  {
    hide WellFormed, Hidden, ResolvePostParent;
  }

  lemma EvolutionKeepsWaiting(before: Topics, after: Topics, p: Prepared)
    requires TopicsEvolve(before, after) && ChildMayGo(before, p)
    ensures ChildMayGo(after, p)
  {}

  lemma StepKeepsChallengeSafe(s: Sys, e: Event)
    requires WellFormed(s.forum) && ChallengeSafe(s)
    ensures ChallengeSafe(Step(s, e))
  {
    hide PostsOk, Sound, Commit, Authorize, ChallengeTopicsStandAlone, ChildMayGo, TopicsEvolve;
    match e {
      case Ask(request, principal, env) =>
        if Authorize(s.forum, env, principal, request).Ok? {
          AuthorizedChildMayGo(s.forum, env, principal, request);
        }
      case Transact(i, supply) =>
        if i < |s.pending| {
          CommitKeepsChallengeTopics(s.forum, s.pending[i], supply);
          CommitEvolvesTopics(s.forum, s.pending[i], supply);
          forall j | 0 <= j < |s.pending| ensures ChildMayGo(Step(s, e).forum.topics, s.pending[j]) {
            EvolutionKeepsWaiting(s.forum.topics, Step(s, e).forum.topics, s.pending[j]);
          }
        }
    }
  }

  /** In every interleaving, every topic with a challenge id stays a root without children. */
  lemma {:induction false} ChallengeTopicsStandAloneAlways(s: Sys, events: seq<Event>)
    requires WellFormed(s.forum) && ChallengeSafe(s)
    ensures ChallengeSafe(Run(s, events))
    decreases |events|
  {
    hide WellFormed, Step, ChallengeSafe;
    if events != [] {
      StepKeepsWellFormed(s, events[0]);
      StepKeepsChallengeSafe(s, events[0]);
      ChallengeTopicsStandAloneAlways(Step(s, events[0]), events[1..]);
    }
  }

  // ----- roles, when commands are served one at a time

  datatype Call = Call(request: Request, principal: Principal, env: Env, supply: Supply)

  /** Authorization directly followed by the transaction. */
  ghost function Serve(f: Forum, call: Call): Forum
    requires WellFormed(f)
  {
    match Authorize(f, call.env, call.principal, call.request)
    case Ok(p) => After(f, Commit(f, p, call.supply))
    case Err(_) => f
  }

  lemma ServeKeepsWellFormed(f: Forum, call: Call)
    requires WellFormed(f)
    ensures WellFormed(Serve(f, call))
  {
    hide PostsOk, Sound, Commit, Authorize;
    if Authorize(f, call.env, call.principal, call.request).Ok? {
      CommitKeepsWellFormed(f, Authorize(f, call.env, call.principal, call.request).value, call.supply);
    }
  }

  ghost function ServeAll(f: Forum, calls: seq<Call>): Forum
    requires WellFormed(f)
    decreases |calls|
  {
    if calls == [] then f
    else
      assert WellFormed(Serve(f, calls[0])) by { ServeKeepsWellFormed(f, calls[0]); }
      ServeAll(Serve(f, calls[0]), calls[1..])
  }

  ghost function AsEvents(calls: seq<Call>): seq<Event> {
    if calls == [] then []
    else [Ask(calls[0].request, calls[0].principal, calls[0].env), Transact(0, calls[0].supply)] + AsEvents(calls[1..])
  }

  /** Serving one call at a time is one of the interleavings. */
  lemma {:induction false} SerialIsARun(f: Forum, calls: seq<Call>)
    requires WellFormed(f)
    ensures Run(Sys(f, []), AsEvents(calls)) == Sys(ServeAll(f, calls), [])
    decreases |calls|
  {
    hide WellFormed, Commit, Authorize;
    if calls != [] {
      var call := calls[0];
      var events := AsEvents(calls);
      var asked := Step(Sys(f, []), events[0]);
      StepKeepsWellFormed(Sys(f, []), events[0]);
      StepKeepsWellFormed(asked, events[1]);
      assert Step(asked, events[1]) == Sys(Serve(f, call), []);
      ServeKeepsWellFormed(f, call);
      SerialIsARun(Serve(f, call), calls[1..]);
      assert events[1..][1..] == AsEvents(calls[1..]);
    }
  }

  /** The nodes of a chain are the topics the walk meets. */
  lemma OnChain(topics: Topics, t: Id, a: Id)
    requires Sound(TopicLinks(topics)) && t in topics
    ensures InSubtree(topics, t, a) <==> exists i :: 0 <= i < |ChainNodes(topics, t)| && ChainNodes(topics, t)[i].id == a
    ensures InSubtree(topics, t, a) ==> a in topics && Node(a, topics[a]) in ChainNodes(topics, t)
  {
    hide Sound, Rooted;
    LinksAre(topics);
    var chain := ChainNodes(topics, t);
    if InSubtree(topics, t, a) {
      var k: nat :| Climb(TopicLinks(topics), t, k) == Some(a);
      assert k < |chain|;
      assert chain[k].id == a;
    }
    if i :| 0 <= i < |chain| && chain[i].id == a {
      assert Climb(TopicLinks(topics), t, i) == Some(a);
    }
  }

  /** What the nearest role of a chain says, when the chain is consistent. */
  lemma NearestRoleOnChain(topics: Topics, t: Id, a: Id)
    requires Sound(TopicLinks(topics)) && Live(topics, t) && RolesConsistent(topics) && InSubtree(topics, t, a)
    ensures a in topics
    ensures topics[a].roleName.Some? ==> topics[a].roleName == Nearest(Roles(ChainNodes(topics, t)))
  {
    hide Sound, Hidden, TopicLinks, Rooted;
    OnChain(topics, t, a);
    if topics[a].roleName.Some? {
      var chain := ChainNodes(topics, t);
      var i :| 0 <= i < |chain| && chain[i].id == a;
      assert Roles(chain)[i] == topics[a].roleName;
      NearestIsPresent(Roles(chain));
      var j :| 0 <= j < |chain| && Roles(chain)[j] == Nearest(Roles(chain));
      OnChain(topics, t, chain[j].id);
      assert SameRole(topics, a, chain[j].id);
    }
  }

  // ----- a command served at once fits

  /** An authorized role update fits, judged against the very state it was read from. */
  lemma AuthorizedRoleFits(f: Forum, env: Env, principal: Principal, topicId: Id, patch: TopicPatch)
    requires WellFormed(f) && RolesConsistent(f.topics) && Live(f.topics, topicId)
    requires AuthorizeUpdate(f, env, principal, topicId, patch).Ok? && patch.roleName.Some?
    ensures AuthorizeUpdate(f, env, principal, topicId, patch).value.UpdateTopic?
    ensures AuthorizeUpdate(f, env, principal, topicId, patch).value.patch.roleName.Some?
    ensures RoleFits(f.topics, topicId, AuthorizeUpdate(f, env, principal, topicId, patch).value.patch.roleName.value)
  {
    hide PostsOk, Sound, RolesConsistent, Live, InSubtree, Nearest, AuthorizeUpdate;
    GrantedUpdateRole(f, env, principal, topicId, patch);
    var role := AuthorizeUpdate(f, env, principal, topicId, patch).value.patch.roleName.value;
    forall o | o in f.topics && o != topicId && f.topics[o].roleName.Some? && role.Some?
      ensures InSubtree(f.topics, topicId, o) ==> f.topics[o].roleName == role
      ensures Live(f.topics, o) && InSubtree(f.topics, o, topicId) ==> f.topics[o].roleName == role
    {
      if InSubtree(f.topics, topicId, o) { AboveRole(f.topics, topicId, o); }
      if Live(f.topics, o) { LiveIsUndeleted(f.topics, o); }
    }
  }

  lemma LiveIsUndeleted(topics: Topics, t: Id)
    requires Live(topics, t)
    ensures t in topics && topics[t].deletedAt.None?
  {
    InOwnSubtree(topics, t);
  }

  /** A role found strictly above a live topic is the nearest role strictly above it. */
  lemma AboveRole(topics: Topics, topicId: Id, a: Id)
    requires Sound(TopicLinks(topics)) && RolesConsistent(topics) && Live(topics, topicId)
    requires InSubtree(topics, topicId, a) && a != topicId && a in topics && topics[a].roleName.Some?
    ensures topicId in topics && topics[a].roleName == Nearest(Roles(ChainNodes(topics, topicId)[1..]))
  {
    hide Sound, Hidden, TopicLinks, Rooted, Nearest, Roles, Challenges, InSubtree;
    OnChain(topics, topicId, a);
    var chain := ChainNodes(topics, topicId);
    var here := Node(a, topics[a]);
    assert chain == [chain[0]] + chain[1..];
    assert here in chain[1..];
    AccessPolicy.NearestOfNodes(chain[1..]);
    var there :| there in chain[1..] && there.topic.roleName == Nearest(Roles(chain[1..]));
    assert there in chain;
    OnChain(topics, topicId, there.id);
    assert SameRole(topics, a, there.id);
  }

  lemma AuthorizedCreateFits(f: Forum, env: Env, principal: Principal, dto: CreateRequest)
    requires WellFormed(f) && RolesConsistent(f.topics)
    requires AuthorizeCreate(f, env, principal, dto).Ok? && dto.parentTopicId.Some? && Live(f.topics, dto.parentTopicId.value)
    ensures ChildRoleFits(f.topics, dto.parentTopicId, AuthorizeCreate(f, env, principal, dto).value.draft.roleName)
  {
    hide PostsOk, Sound, RolesConsistent, Hidden, InSubtree, Nearest, AuthorizeCreate;
    CreateKeepsParent(f, env, principal, dto);
    GrantedCreateRole(f, env, principal, dto);
    forall a | a in f.topics && InSubtree(f.topics, dto.parentTopicId.value, a) && f.topics[a].roleName.Some?
      ensures f.topics[a].roleName == AuthorizeCreate(f, env, principal, dto).value.draft.roleName
    {
      NearestRoleOnChain(f.topics, dto.parentTopicId.value, a);
    }
  }

  /** A command whose authorization holds in the very state its transaction meets fits that state. */
  lemma AuthorizedFits(f: Forum, env: Env, principal: Principal, request: Request, supply: Supply)
    requires WellFormed(f) && RolesConsistent(f.topics) && Authorize(f, env, principal, request).Ok?
    ensures TransactFits(f, Authorize(f, env, principal, request).value, supply)
  {
    hide PostsOk, Sound, RolesConsistent, Hidden, AuthorizeCreate, AuthorizeUpdate, AuthorizeDelete, RoleFits, ChildRoleFits;
    match request {
      case AskCreate(dto) =>
        CreateKeepsParent(f, env, principal, dto);
        if dto.parentTopicId.Some? {
          if Live(f.topics, dto.parentTopicId.value) { AuthorizedCreateFits(f, env, principal, dto); }
        } else {
          RootRoleFits(f.topics, Authorize(f, env, principal, request).value.draft.roleName);
        }
      case AskUpdate(topicId, patch) =>
        UpdateIsNotCreate(f, env, principal, topicId, patch);
        if patch.roleName.Some? && Live(f.topics, topicId) {
          AuthorizedRoleFits(f, env, principal, topicId, patch);
        }
      case AskDelete(topicId, actor) => DeleteIsNotCreate(f, env, principal, topicId, actor);
      case AskOther(_) =>
    }
  }

  lemma RootRoleFits(topics: Topics, role: Option<Id>)
    ensures ChildRoleFits(topics, None, role)
  {}

  /** Serving one command keeps every live chain free of conflicting roles. */
  lemma ServeKeepsRoles(f: Forum, call: Call)
    requires WellFormed(f) && RolesConsistent(f.topics)
    ensures RolesConsistent(Serve(f, call).topics)
  {
    hide PostsOk, Sound, RolesConsistent, Authorize, TransactFits, Commit;
    var answer := Authorize(f, call.env, call.principal, call.request);
    if answer.Ok? {
      AuthorizedFits(f, call.env, call.principal, call.request, call.supply);
      ConsistentIffFits(f, answer.value, call.supply);
    }
  }

  lemma {:induction false} ServeAllKeepsRoles(f: Forum, calls: seq<Call>)
    requires WellFormed(f) && RolesConsistent(f.topics)
    ensures RolesConsistent(ServeAll(f, calls).topics)
    decreases |calls|
  {
    hide WellFormed, RolesConsistent, Serve;
    if calls != [] {
      ServeKeepsWellFormed(f, calls[0]);
      ServeKeepsRoles(f, calls[0]);
      ServeAllKeepsRoles(Serve(f, calls[0]), calls[1..]);
    }
  }

  lemma EmptyIsSafe()
    ensures WellFormed(EMPTY_FORUM) && RolesConsistent(EMPTY_FORUM.topics) && ChallengeSafe(Sys(EMPTY_FORUM, []))
  {
    EmptyIsWellFormed();
  }

  /** Consistent roles and stand-alone challenges mean the policy never sees a conflict flag on a live topic. */
  lemma NoConflictFlag(f: Forum, t: Id, principal: Principal)
    requires WellFormed(f) && RolesConsistent(f.topics) && ChallengeTopicsStandAlone(f.topics) && Live(f.topics, t)
    ensures !ContextOf(f.topics, t, principal).hasRestrictionConflict
  {
    hide PostsOk, Sound, Hidden, TopicLinks, Rooted, Conflicting, RolesConsistent, Others, ChallengeTopicsStandAlone;
    var chain := ChainNodes(f.topics, t);
    ConflictingMeans(Roles(chain));
    ConflictingMeans(Challenges(chain));
    forall i, j | 0 <= i < |chain| && 0 <= j < |chain|
      ensures Roles(chain)[i].Some? && Roles(chain)[j].Some? ==> Roles(chain)[i] == Roles(chain)[j]
      ensures Challenges(chain)[i].Some? && Challenges(chain)[j].Some? ==> Challenges(chain)[i] == Challenges(chain)[j]
    {
      OnChain(f.topics, t, chain[i].id);
      OnChain(f.topics, t, chain[j].id);
      PairSameRole(f.topics, t, chain[i].id, chain[j].id);
      if chain[i].topic.challengeId.Some? && |chain| > 1 {
        NoChallengeOnLongChain(f, t, i);
      }
    }
  }

  lemma NoChallengeOnLongChain(f: Forum, t: Id, i: nat)
    requires Sound(TopicLinks(f.topics)) && ChallengeTopicsStandAlone(f.topics) && t in f.topics
    requires i < |ChainNodes(f.topics, t)| && |ChainNodes(f.topics, t)| > 1
    ensures ChainNodes(f.topics, t)[i].topic.challengeId.None?
  {
    hide Sound, Rooted;
    var up := TopicLinks(f.topics);
    var chain := ChainNodes(f.topics, t);
    LinksAre(f.topics);
    if i > 0 {
      ClimbNext(up, t, i - 1);
      assert Climb(up, t, i) == Some(chain[i].id) && Climb(up, t, i - 1) == Some(chain[i - 1].id);
    } else {
      ClimbNext(up, t, 0);
      assert Climb(up, t, 1) == Some(chain[1].id) && Climb(up, t, 0) == Some(t);
    }
  }

  /** Served one at a time from an empty forum, commands never leave a live topic whose chain conflicts. */
  lemma SerialRunsNeverConflict(calls: seq<Call>, t: Id, principal: Principal)
    ensures WellFormed(EMPTY_FORUM)
    ensures var f := ServeAll(EMPTY_FORUM, calls);
            && WellFormed(f)
            && (Live(f.topics, t) ==> !ContextOf(f.topics, t, principal).hasRestrictionConflict)
  {
    hide *;
    EmptyIsSafe();
    ServeAllKeepsRoles(EMPTY_FORUM, calls);
    SerialIsARun(EMPTY_FORUM, calls);
    RunKeepsWellFormed(Sys(EMPTY_FORUM, []), AsEvents(calls));
    ChallengeTopicsStandAloneAlways(Sys(EMPTY_FORUM, []), AsEvents(calls));
    var f := ServeAll(EMPTY_FORUM, calls);
    ChallengeSafeMeans(Sys(f, []));
    if Live(f.topics, t) {
      NoConflictFlag(f, t, principal);
    }
  }

  lemma ChallengeSafeMeans(s: Sys)
    requires ChallengeSafe(s)
    ensures ChallengeTopicsStandAlone(s.forum.topics)
  {}
}
