/** The authorization half of the topic commands: what is read, what is checked, and what is frozen for the
transaction that follows. */
module Authorization {
  import opened Basics
  import opened ParentLinks
  import opened ForumState
  import opened ClosureTable
  import opened AccessTypes
  import opened TopicContext
  import opened AccessPolicy
  import opened CommandSpec
  import PublicAccess

  /** Everything outside the topic tables an authorization may consult. */
  datatype Env = Env(facts: Facts, acl: PublicAccess.Acl, actorBan: Principal -> Decision)

  datatype CreateRequest = CreateRequest(
    parentTopicId: Option<Id>, challengeId: Requested, roleName: Requested,
    title: string, isAnnouncement: bool, author: Author, content: string)

  datatype Request =
    | AskCreate(create: CreateRequest)
    | AskUpdate(topicId: Id, patch: TopicPatch)
    | AskDelete(topicId: Id, actor: Option<Id>)
    | AskOther(prepared: Prepared)

  function ToError(reason: Reason): CommandError {
    if reason.TopicNotFound? || reason.ChallengeNotFound? then NotFound else Forbidden(reason)
  }

  /** The first refusal among a list of gates, in order. */
  function FirstDenied(gates: seq<Decision>): Option<CommandError> {
    if gates == [] then None
    else match gates[0]
      case Deny(reason) => Some(ToError(reason))
      case Allow => FirstDenied(gates[1..])
  }

  ghost function AuthorizeCreate(f: Forum, env: Env, principal: Principal, dto: CreateRequest)
    : Result<Prepared, CommandError>
    requires Sound(TopicLinks(f.topics))
  {
    if env.actorBan(principal).Deny? then Err(ToError(env.actorBan(principal).reason))
    else if dto.parentTopicId.Some? && dto.parentTopicId.value !in f.topics then Err(NotFound)
    else
      var parent := if dto.parentTopicId.Some?
        then Some(ContextOf(f.topics, dto.parentTopicId.value, principal)) else None;
      assert parent.Some? ==> Rooted(TopicLinks(f.topics), parent.value.target.id) by {
        if parent.Some? { SoundIsRooted(TopicLinks(f.topics), dto.parentTopicId.value); }
      }
      var challengeId := ResolveInherited(if parent.Some? then parent.value.effectiveChallengeId else None, dto.challengeId);
      var roleName := ResolveInherited(if parent.Some? then parent.value.effectiveRoleName else None, dto.roleName);
      if challengeId.Err? then Err(challengeId.error)
      else if roleName.Err? then Err(roleName.error)
      else
        var d := DecideForCreateTopic(env.facts, env.acl, f.topics, principal, challengeId.value, roleName.value, parent);
        var denied := FirstDenied(
          [if parent.Some? then d.canCreateChildTopic else d.canCreateTopLevelTopic]
          + (if dto.isAnnouncement then [d.canControlAnnouncement] else [])
          + (if parent.Some? then [DecideForLockedTopic(env.facts, principal, parent.value)] else []));
        if denied.Some? then Err(denied.value)
        else
          Ok(CreateTopic(TopicDraft(dto.parentTopicId, challengeId.value, roleName.value,
                                    dto.title, dto.isAnnouncement, dto.author, dto.content)))
  }

  /** Some active topic strictly below `topicId` stores a different role. */
  ghost predicate ConflictingDescendant(topics: Topics, topicId: Id, roleName: Option<Id>) {
    roleName.Some? && exists d :: d in topics && d != topicId && InSubtree(topics, d, topicId)
                                  && topics[d].deletedAt.None? && topics[d].roleName.Some?
                                  && topics[d].roleName != roleName
  }

  /** The same question asked of the ancestor index. */
  predicate IndexedConflict(topics: Topics, closure: set<ClosureRow>, topicId: Id, roleName: Option<Id>) {
    roleName.Some? && exists r :: r in closure && r.ancestorTopicId == topicId && r.descendantTopicId != topicId
                                  && r.descendantTopicId in topics
                                  && topics[r.descendantTopicId].deletedAt.None?
                                  && topics[r.descendantTopicId].roleName.Some?
                                  && topics[r.descendantTopicId].roleName != roleName
  }

  lemma IndexedConflictIsConflict(topics: Topics, closure: set<ClosureRow>, topicId: Id, roleName: Option<Id>)
    requires ClosureExact(TopicLinks(topics), closure)
    ensures IndexedConflict(topics, closure, topicId, roleName) <==> ConflictingDescendant(topics, topicId, roleName)
  {
    if ConflictingDescendant(topics, topicId, roleName) {
      var d :| d in topics && d != topicId && InSubtree(topics, d, topicId)
               && topics[d].deletedAt.None? && topics[d].roleName.Some? && topics[d].roleName != roleName;
      var k: nat :| Climb(TopicLinks(topics), d, k) == Some(topicId);
      assert ClosureRow(topicId, d, k) in closure;
    }
    if IndexedConflict(topics, closure, topicId, roleName) {
      var r :| r in closure && r.ancestorTopicId == topicId && r.descendantTopicId != topicId
               && r.descendantTopicId in topics && topics[r.descendantTopicId].deletedAt.None?
               && topics[r.descendantTopicId].roleName.Some? && topics[r.descendantTopicId].roleName != roleName;
      assert ClosureRow(r.ancestorTopicId, r.descendantTopicId, r.depth) in closure;
      assert InSubtree(topics, r.descendantTopicId, topicId);
    }
  }

  /** The role part of an update: monotone, accessible to the caller, and in conflict with no active descendant. */
  ghost function AuthorizeRole(
    f: Forum, env: Env, principal: Principal, context: Context, requested: Option<Id>): Result<Option<Id>, CommandError>
  {
    var role := ResolveRoleUpdate(context.ancestorRoleName, context.effectiveRoleName, requested);
    if role.Err? then role
    else
      var access := EvaluateRestrictions(env.facts, principal, Restrictions(context.effectiveChallengeId, role.value, false));
      if access.visibility.Deny? then Err(ToError(access.visibility.reason))
      else if ConflictingDescendant(f.topics, context.target.id, role.value) then Err(BadRequest)
      else role
  }

  ghost function AuthorizeUpdate(f: Forum, env: Env, principal: Principal, topicId: Id, patch: TopicPatch)
    : Result<Prepared, CommandError>
    requires Sound(TopicLinks(f.topics))
  {
    if env.actorBan(principal).Deny? then Err(ToError(env.actorBan(principal).reason))
    else if topicId !in f.topics then Err(NotFound)
    else
      var context := ContextOf(f.topics, topicId, principal);
      assert Rooted(TopicLinks(f.topics), context.target.id) by { SoundIsRooted(TopicLinks(f.topics), topicId); }
      var d := DecideForTopic(env.facts, env.acl, f.topics, principal, context, None);
      var announces := patch.isAnnouncement.Some? && patch.isAnnouncement.value != f.topics[topicId].isAnnouncement;
      var denied := FirstDenied(
        [d.canUpdateTopic, DecideForLockedTopic(env.facts, principal, context)]
        + (if announces then [d.canControlAnnouncement] else []));
      if denied.Some? then Err(denied.value)
      else if patch.roleName.Some? then
        var role := AuthorizeRole(f, env, principal, context, patch.roleName.value);
        if role.Err? then Err(role.error)
        else Ok(UpdateTopic(topicId, patch.(roleName := Some(role.value))))
      else if patch == TopicPatch(None, None, None) then Err(BadRequest)
      else Ok(UpdateTopic(topicId, patch))
  }

  ghost function AuthorizeDelete(f: Forum, env: Env, principal: Principal, topicId: Id, actor: Option<Id>)
    : Result<Prepared, CommandError>
    requires Sound(TopicLinks(f.topics))
  {
    if env.actorBan(principal).Deny? then Err(ToError(env.actorBan(principal).reason))
    else if topicId !in f.topics then Err(NotFound)
    else
      var context := ContextOf(f.topics, topicId, principal);
      assert Rooted(TopicLinks(f.topics), context.target.id) by { SoundIsRooted(TopicLinks(f.topics), topicId); }
      var d := DecideForTopic(env.facts, env.acl, f.topics, principal, context, None);
      var denied := FirstDenied([d.canDeleteTopic, DecideForLockedTopic(env.facts, principal, context)]);
      if denied.Some? then Err(denied.value) else Ok(DeleteTopic(topicId, actor))
  }

  /** The authorization read of any command. Commands that never touch the topic tree are admitted in any form. */
  ghost function Authorize(f: Forum, env: Env, principal: Principal, request: Request): Result<Prepared, CommandError>
    requires Sound(TopicLinks(f.topics))
  {
    match request
    case AskCreate(dto) => AuthorizeCreate(f, env, principal, dto)
    case AskUpdate(topicId, patch) => AuthorizeUpdate(f, env, principal, topicId, patch)
    case AskDelete(topicId, actor) => AuthorizeDelete(f, env, principal, topicId, actor)
    case AskOther(p) => if p.CreateTopic? || p.UpdateTopic? || p.DeleteTopic? then Err(BadRequest) else Ok(p)
  }

  // ----- what a granted authorization tells about the state it read

  lemma FirstDeniedNone(gates: seq<Decision>, i: nat)
    requires FirstDenied(gates).None? && i < |gates|
    ensures gates[i] == Allow
    decreases i
  {
    if i > 0 { FirstDeniedNone(gates[1..], i - 1); }
  }

  lemma {:induction false} FirstDeniedSome(gates: seq<Decision>)
    requires forall i :: 0 <= i < |gates| ==> gates[i] == Allow
    ensures FirstDenied(gates).None?
  {
    if gates != [] { FirstDeniedSome(gates[1..]); }
  }

  /** A granted child topic carries no challenge, and neither does anything on its parent's chain. */
  lemma GrantedChildHasNoChallenge(f: Forum, env: Env, principal: Principal, dto: CreateRequest)
    requires Sound(TopicLinks(f.topics))
    requires AuthorizeCreate(f, env, principal, dto).Ok? && dto.parentTopicId.Some?
    ensures dto.parentTopicId.value in f.topics
    ensures AuthorizeCreate(f, env, principal, dto).value.draft.challengeId.None?
    ensures forall n :: n in ChainNodes(f.topics, dto.parentTopicId.value) ==> n.topic.challengeId.None?
  {
    hide Sound, Rooted, TopicLinks, Conflicting, Others, EvaluateRestrictions, PublicAccess.Decide, DecideForLockedTopic, Nearest;
    var q := dto.parentTopicId.value;
    NearestOfNodes(ChainNodes(f.topics, q));
  }

  /** A granted creation stores the role its parent's chain imposes, if it imposes one. */
  lemma GrantedCreateRole(f: Forum, env: Env, principal: Principal, dto: CreateRequest)
    requires Sound(TopicLinks(f.topics))
    requires AuthorizeCreate(f, env, principal, dto).Ok? && dto.parentTopicId.Some?
    ensures dto.parentTopicId.value in f.topics
    ensures var inherited := Nearest(Roles(ChainNodes(f.topics, dto.parentTopicId.value)));
            inherited.Some? ==> AuthorizeCreate(f, env, principal, dto).value.draft.roleName == inherited
  {
    hide Sound, Rooted, TopicLinks, Conflicting, Others, DecideForCreateTopic, DecideForLockedTopic, Nearest, FirstDenied;
  }

  /** A granted role change keeps an inherited or own role, and otherwise meets no different role below. */
  lemma GrantedUpdateRole(f: Forum, env: Env, principal: Principal, topicId: Id, patch: TopicPatch)
    requires Sound(TopicLinks(f.topics))
    requires AuthorizeUpdate(f, env, principal, topicId, patch).Ok? && patch.roleName.Some?
    ensures topicId in f.topics
    ensures var granted := AuthorizeUpdate(f, env, principal, topicId, patch).value;
            && granted.UpdateTopic? && granted.topicId == topicId && granted.patch.roleName.Some?
            && !ConflictingDescendant(f.topics, topicId, granted.patch.roleName.value)
            && (Nearest(Roles(ChainNodes(f.topics, topicId)[1..])).Some? ==>
                  granted.patch.roleName.value == Nearest(Roles(ChainNodes(f.topics, topicId)[1..])))
            && (Nearest(Roles(ChainNodes(f.topics, topicId))).Some? ==>
                  Nearest(Roles(ChainNodes(f.topics, topicId)[1..])).Some?
                  || granted.patch.roleName.value == Nearest(Roles(ChainNodes(f.topics, topicId))))
  {
    hide Sound, Rooted, TopicLinks, Conflicting, Others, DecideForTopic, DecideForLockedTopic, Nearest, FirstDenied,
         EvaluateRestrictions, ConflictingDescendant;
    OthersIsTail(f.topics, topicId);
  }

  // ----- subjects of a request

  /** The topic a request would change, or put a child under. */
  function TopicOf(request: Request): Option<Id> {
    match request
    case AskCreate(dto) => dto.parentTopicId
    case AskUpdate(topicId, _) => Some(topicId)
    case AskDelete(topicId, _) => Some(topicId)
    case AskOther(_) => None
  }

  /** Administrators, and members who are copilots of the challenge a topic belongs to. */
  ghost predicate MayPassLock(f: Forum, env: Env, principal: Principal, t: Id)
    requires Sound(TopicLinks(f.topics)) && t in f.topics
  {
    principal.isAdmin
    || (!principal.isMachine && principal.memberId.Some?
        && ContextOf(f.topics, t, principal).effectiveChallengeId.Some?
        && env.facts.resource(ContextOf(f.topics, t, principal).effectiveChallengeId.value, principal.memberId).isChallengeCopilot)
  }

  // ----- exactly what is granted

  ghost predicate MayView(f: Forum, env: Env, principal: Principal, t: Id)
    requires Sound(TopicLinks(f.topics)) && t in f.topics
  {
    SoundIsRooted(TopicLinks(f.topics), t);
    DecideForTopic(env.facts, env.acl, f.topics, principal, ContextOf(f.topics, t, principal), None).canView.Allow?
  }

  /** A copilot of the challenge the topic has or inherits. */
  ghost predicate IsCopilotOf(f: Forum, env: Env, principal: Principal, t: Id)
    requires Sound(TopicLinks(f.topics)) && t in f.topics
  {
    var challengeId := ContextOf(f.topics, t, principal).effectiveChallengeId;
    challengeId.Some? && env.facts.resource(challengeId.value, principal.memberId).isChallengeCopilot
  }

  /** The author of a topic that is not a category root. */
  ghost predicate OwnsThread(f: Forum, env: Env, principal: Principal, t: Id)
    requires Sound(TopicLinks(f.topics)) && t in f.topics
  {
    SoundIsRooted(TopicLinks(f.topics), t);
    principal.memberId == Some(f.topics[t].authorMemberId) && !PublicAccess.Decide(env.acl, f.topics, principal, t).category
  }

  /** The categories of the topic let the caller create in it. */
  ghost predicate MayCreateUnder(f: Forum, env: Env, principal: Principal, t: Id)
    requires Sound(TopicLinks(f.topics)) && t in f.topics
  {
    SoundIsRooted(TopicLinks(f.topics), t);
    PublicAccess.Decide(env.acl, f.topics, principal, t).create
  }

  /** A role may be written that repeats an inherited or own one, that the caller can meet, and that no active topic below
  contradicts. */
  ghost predicate RoleMayBeSet(f: Forum, env: Env, principal: Principal, t: Id, role: Option<Id>)
    requires Sound(TopicLinks(f.topics)) && t in f.topics
  {
    var context := ContextOf(f.topics, t, principal);
    && (context.ancestorRoleName.Some? ==> role == context.ancestorRoleName)
    && (context.ancestorRoleName.None? && context.effectiveRoleName.Some? ==> role == context.effectiveRoleName)
    && EvaluateRestrictions(env.facts, principal, Restrictions(context.effectiveChallengeId, role, false)).visibility.Allow?
    && !ConflictingDescendant(f.topics, t, role)
  }

  lemma LockGateMeans(f: Forum, env: Env, principal: Principal, t: Id)
    requires Sound(TopicLinks(f.topics)) && t in f.topics
    ensures DecideForLockedTopic(env.facts, principal, ContextOf(f.topics, t, principal)).Allow? <==>
              (f.topics[t].locked ==> MayPassLock(f, env, principal, t))
  {
    hide Sound, ContextOf;
  }

  lemma RightsMean(f: Forum, env: Env, principal: Principal, t: Id)
    requires Sound(TopicLinks(f.topics)) && t in f.topics && Rooted(TopicLinks(f.topics), t)
    ensures var d := DecideForTopic(env.facts, env.acl, f.topics, principal, ContextOf(f.topics, t, principal), None);
            var elevated := principal.isMachine || principal.isAdmin;
            && (d.canDeleteTopic.Allow? <==> MayView(f, env, principal, t) && elevated)
            && (d.canControlAnnouncement.Allow? <==> MayView(f, env, principal, t) && (elevated || IsCopilotOf(f, env, principal, t)))
            && (d.canUpdateTopic.Allow? <==>
                  && MayView(f, env, principal, t)
                  && (elevated || IsCopilotOf(f, env, principal, t) || OwnsThread(f, env, principal, t)))
  {
    hide Sound, ContextOf, DecideForTopic, PublicAccess.Decide, FirstOnWalk, Disagree, DeletedAbove;
    TopicRights(env.facts, env.acl, f.topics, principal, t, None);
    ContextMeans(f.topics, t, principal);
  }

  /** A deletion is granted exactly to administrators and machines that are not banned and may view the topic, unless the
  topic is locked and they may not pass the lock. */
  lemma DeleteGranted(f: Forum, env: Env, principal: Principal, t: Id, actor: Option<Id>)
    requires Sound(TopicLinks(f.topics))
    ensures AuthorizeDelete(f, env, principal, t, actor).Ok? <==>
              && env.actorBan(principal).Allow? && t in f.topics && MayView(f, env, principal, t)
              && (principal.isMachine || principal.isAdmin)
              && (f.topics[t].locked ==> MayPassLock(f, env, principal, t))
    ensures AuthorizeDelete(f, env, principal, t, actor).Ok? ==>
              AuthorizeDelete(f, env, principal, t, actor).value == DeleteTopic(t, actor)
  {
    hide Sound, ContextOf, DecideForTopic, DecideForLockedTopic, FirstDenied, MayView, MayPassLock, IsCopilotOf, OwnsThread;
    if t in f.topics {
      SoundIsRooted(TopicLinks(f.topics), t);
      var context := ContextOf(f.topics, t, principal);
      var d := DecideForTopic(env.facts, env.acl, f.topics, principal, context, None);
      var gates := [d.canDeleteTopic, DecideForLockedTopic(env.facts, principal, context)];
      RightsMean(f, env, principal, t);
      LockGateMeans(f, env, principal, t);
      GatesOpen(gates);
      assert gates[0] == d.canDeleteTopic && gates[1] == DecideForLockedTopic(env.facts, principal, context);
    }
  }

  /** An update is granted exactly to callers who are not banned, may view the topic, and are administrators, machines,
  copilots of its challenge, or, outside category roots, its author; if the topic is locked they must pass the lock, and
  announcements and roles have conditions of their own. */
  lemma UpdateGranted(f: Forum, env: Env, principal: Principal, t: Id, patch: TopicPatch)
    requires Sound(TopicLinks(f.topics))
    ensures AuthorizeUpdate(f, env, principal, t, patch).Ok? <==>
              && env.actorBan(principal).Allow? && t in f.topics && MayView(f, env, principal, t)
              && (principal.isMachine || principal.isAdmin || IsCopilotOf(f, env, principal, t) || OwnsThread(f, env, principal, t))
              && (f.topics[t].locked ==> MayPassLock(f, env, principal, t))
              && (patch.isAnnouncement.Some? && patch.isAnnouncement.value != f.topics[t].isAnnouncement ==>
                    principal.isMachine || principal.isAdmin || IsCopilotOf(f, env, principal, t))
              && (patch.roleName.Some? ==> RoleMayBeSet(f, env, principal, t, patch.roleName.value))
              && patch != TopicPatch(None, None, None)
    ensures AuthorizeUpdate(f, env, principal, t, patch).Ok? ==>
              AuthorizeUpdate(f, env, principal, t, patch).value == UpdateTopic(t, patch)
  {
    hide Sound, ContextOf, DecideForTopic, DecideForLockedTopic, FirstDenied, MayView, MayPassLock, IsCopilotOf, OwnsThread,
         RoleMayBeSet, AuthorizeRole;
    if t in f.topics {
      SoundIsRooted(TopicLinks(f.topics), t);
      var context := ContextOf(f.topics, t, principal);
      var d := DecideForTopic(env.facts, env.acl, f.topics, principal, context, None);
      var announces := patch.isAnnouncement.Some? && patch.isAnnouncement.value != f.topics[t].isAnnouncement;
      var gates := [d.canUpdateTopic, DecideForLockedTopic(env.facts, principal, context)]
        + (if announces then [d.canControlAnnouncement] else []);
      RightsMean(f, env, principal, t);
      LockGateMeans(f, env, principal, t);
      if patch.roleName.Some? { RoleGateMeans(f, env, principal, t, patch.roleName.value); }
      GatesOpen(gates);
      assert gates[0] == d.canUpdateTopic && gates[1] == DecideForLockedTopic(env.facts, principal, context);
      assert announces ==> gates[2] == d.canControlAnnouncement;
    }
  }

  lemma RoleGateMeans(f: Forum, env: Env, principal: Principal, t: Id, role: Option<Id>)
    requires Sound(TopicLinks(f.topics)) && t in f.topics
    ensures var context := ContextOf(f.topics, t, principal);
            && (AuthorizeRole(f, env, principal, context, role).Ok? <==> RoleMayBeSet(f, env, principal, t, role))
            && (AuthorizeRole(f, env, principal, context, role).Ok? ==> AuthorizeRole(f, env, principal, context, role).value == role)
  {
    hide Sound, EvaluateRestrictions, ConflictingDescendant, ChainNodes, Nearest, Roles, Challenges, Conflicting, Others;
  }

  /** An inherited restriction is repeated or left out of the request. */
  predicate KeepsInherited(inherited: Option<Id>, requested: Requested) {
    inherited.Some? && requested.Set? ==> requested.value == inherited
  }

  function Resolved(inherited: Option<Id>, requested: Requested): Option<Id> {
    if inherited.None? && requested.Set? then requested.value else inherited
  }

  /** A child is granted exactly under a stored, live, visible parent whose category lets the caller create, if no challenge
  is inherited or asked for, the role repeats an inherited one and can be met, the parent is not locked to the caller, and
  only administrators and machines announce. */
  lemma ChildGranted(f: Forum, env: Env, principal: Principal, dto: CreateRequest, t: Id)
    requires Sound(TopicLinks(f.topics)) && dto.parentTopicId == Some(t)
    ensures AuthorizeCreate(f, env, principal, dto).Ok? <==>
              && env.actorBan(principal).Allow? && (principal.memberId.Some? || principal.isMachine)
              && t in f.topics && !Hidden(f.topics, t) && MayCreateUnder(f, env, principal, t)
              && (var context := ContextOf(f.topics, t, principal);
                  var role := Resolved(context.effectiveRoleName, dto.roleName);
                  && EvaluateRestrictions(env.facts, principal, RestrictionsOf(context)).visibility.Allow?
                  && context.effectiveChallengeId.None? && Resolved(None, dto.challengeId).None?
                  && KeepsInherited(context.effectiveRoleName, dto.roleName)
                  && EvaluateRestrictions(env.facts, principal, Restrictions(None, role, false)).visibility.Allow?)
              && (f.topics[t].locked ==> MayPassLock(f, env, principal, t))
              && (dto.isAnnouncement ==> principal.isMachine || principal.isAdmin)
    ensures AuthorizeCreate(f, env, principal, dto).Ok? ==>
              AuthorizeCreate(f, env, principal, dto).value ==
              CreateTopic(TopicDraft(Some(t), None, Resolved(ContextOf(f.topics, t, principal).effectiveRoleName, dto.roleName),
                                     dto.title, dto.isAnnouncement, dto.author, dto.content))
  {
    hide Sound, ContextOf, DecideForCreateTopic, DecideForLockedTopic, FirstDenied, MayPassLock, PublicAccess.Decide,
         EvaluateRestrictions, Available, Hidden, RestrictionsOf;
    if t in f.topics {
      SoundIsRooted(TopicLinks(f.topics), t);
      var context := ContextOf(f.topics, t, principal);
      var challengeId := Resolved(context.effectiveChallengeId, dto.challengeId);
      var role := Resolved(context.effectiveRoleName, dto.roleName);
      var d := DecideForCreateTopic(env.facts, env.acl, f.topics, principal, challengeId, role, Some(context));
      var gates := [d.canCreateChildTopic] + (if dto.isAnnouncement then [d.canControlAnnouncement] else [])
        + [DecideForLockedTopic(env.facts, principal, context)];
      CreateRights(env.facts, env.acl, f.topics, principal, challengeId, role, Some(context));
      HiddenIsUnavailable(f.topics, t, principal);
      LockGateMeans(f, env, principal, t);
      GatesOpen(gates);
      assert gates[0] == d.canCreateChildTopic && gates[|gates| - 1] == DecideForLockedTopic(env.facts, principal, context);
      assert dto.isAnnouncement ==> gates[1] == d.canControlAnnouncement;
    }
  }

  lemma GatesOpen(gates: seq<Decision>)
    ensures FirstDenied(gates).None? <==> forall i :: 0 <= i < |gates| ==> gates[i] == Allow
  {
    hide FirstDenied;
    if FirstDenied(gates).None? {
      forall i | 0 <= i < |gates| ensures gates[i] == Allow { FirstDeniedNone(gates, i); }
    } else if forall i :: 0 <= i < |gates| ==> gates[i] == Allow {
      FirstDeniedSome(gates);
    }
  }

  /** A root is granted exactly to callers who are not banned and meet the restrictions asked for: humans with a challenge,
  administrators and machines without; announcements are for administrators, machines and copilots of that challenge. */
  lemma RootGranted(f: Forum, env: Env, principal: Principal, dto: CreateRequest)
    requires Sound(TopicLinks(f.topics)) && dto.parentTopicId.None?
    ensures var challengeId, role := Resolved(None, dto.challengeId), Resolved(None, dto.roleName);
            && (AuthorizeCreate(f, env, principal, dto).Ok? <==>
                  && env.actorBan(principal).Allow? && (principal.memberId.Some? || principal.isMachine)
                  && EvaluateRestrictions(env.facts, principal, Restrictions(challengeId, role, false)).visibility.Allow?
                  && (if challengeId.Some? then !principal.isMachine else principal.isMachine || principal.isAdmin)
                  && (dto.isAnnouncement ==>
                        || principal.isMachine || principal.isAdmin
                        || (challengeId.Some? && env.facts.resource(challengeId.value, principal.memberId).isChallengeCopilot)))
            && (AuthorizeCreate(f, env, principal, dto).Ok? ==>
                  AuthorizeCreate(f, env, principal, dto).value ==
                  CreateTopic(TopicDraft(None, challengeId, role, dto.title, dto.isAnnouncement, dto.author, dto.content)))
  {
    hide Sound, ContextOf, DecideForCreateTopic, DecideForLockedTopic, FirstDenied, PublicAccess.Decide, EvaluateRestrictions;
    var challengeId, role := Resolved(None, dto.challengeId), Resolved(None, dto.roleName);
    var d := DecideForCreateTopic(env.facts, env.acl, f.topics, principal, challengeId, role, None);
    var gates := [d.canCreateTopLevelTopic] + (if dto.isAnnouncement then [d.canControlAnnouncement] else []) + [];
    CreateRights(env.facts, env.acl, f.topics, principal, challengeId, role, None);
    GatesOpen(gates);
    assert gates[0] == d.canCreateTopLevelTopic;
    assert dto.isAnnouncement ==> gates[1] == d.canControlAnnouncement;
  }

  lemma HiddenIsUnavailable(topics: Topics, t: Id, principal: Principal)
    requires Sound(TopicLinks(topics)) && t in topics
    ensures Available(ContextOf(topics, t, principal)) <==> !Hidden(topics, t)
  {
    hide Sound, ContextOf, FirstOnWalk, Disagree;
    ContextMeans(topics, t, principal);
    if Hidden(topics, t) {
      var a :| InSubtree(topics, t, a) && a in topics && topics[a].deletedAt.Some?;
      var k: nat :| Climb(TopicLinks(topics), t, k) == Some(a);
      assert k > 0 ==> DeletedAt(topics, t, k);
    } else {
      assert Climb(TopicLinks(topics), t, 0) == Some(t);
      assert InSubtree(topics, t, t);
      forall k: nat ensures !DeletedAt(topics, t, k) {
        var a := Climb(TopicLinks(topics), t, k);
        assert a.Some? ==> InSubtree(topics, t, a.value);
      }
    }
  }

  lemma ViewedIsAvailable(f: Forum, env: Env, principal: Principal, t: Id)
    requires Sound(TopicLinks(f.topics)) && t in f.topics && MayView(f, env, principal, t)
    ensures Available(ContextOf(f.topics, t, principal))
  {
    hide Sound, ContextOf, Available, PublicAccess.Decide, EvaluateTopicAccess;
    SoundIsRooted(TopicLinks(f.topics), t);
  }

  // ----- what is always refused

  /** On a locked topic, updates, deletions and new children are refused to everyone but those who may pass the lock. */
  lemma LockedTopicsRefuse(f: Forum, env: Env, principal: Principal, request: Request, t: Id)
    requires Sound(TopicLinks(f.topics)) && TopicOf(request) == Some(t) && t in f.topics && f.topics[t].locked
    requires !MayPassLock(f, env, principal, t)
    ensures Authorize(f, env, principal, request).Err?
  {
    hide Sound, AuthorizeCreate, AuthorizeUpdate, AuthorizeDelete, MayPassLock, MayView, RoleMayBeSet, EvaluateRestrictions,
         RestrictionsOf, ContextOf, MayCreateUnder, IsCopilotOf, OwnsThread, Hidden;
    match request
    case AskCreate(dto) => ChildGranted(f, env, principal, dto, t);
    case AskUpdate(topicId, patch) => UpdateGranted(f, env, principal, topicId, patch);
    case AskDelete(topicId, actor) => DeleteGranted(f, env, principal, topicId, actor);
  }

  /** Nothing is granted on, or directly below, a topic that is hidden when authorization reads it. */
  lemma HiddenTopicsRefuse(f: Forum, env: Env, principal: Principal, request: Request, t: Id)
    requires Sound(TopicLinks(f.topics)) && TopicOf(request) == Some(t) && t in f.topics && Hidden(f.topics, t)
    ensures Authorize(f, env, principal, request).Err?
  {
    hide Sound, AuthorizeCreate, AuthorizeUpdate, AuthorizeDelete, MayPassLock, MayView, RoleMayBeSet, EvaluateRestrictions,
         RestrictionsOf, ContextOf, MayCreateUnder, IsCopilotOf, OwnsThread, Hidden, Available;
    HiddenIsUnavailable(f.topics, t, principal);
    if MayView(f, env, principal, t) { ViewedIsAvailable(f, env, principal, t); }
    match request
    case AskCreate(dto) => ChildGranted(f, env, principal, dto, t);
    case AskUpdate(topicId, patch) => UpdateGranted(f, env, principal, topicId, patch);
    case AskDelete(topicId, actor) => DeleteGranted(f, env, principal, topicId, actor);
  }

  // ----- how a refusal reads

  /** A caller who is not banned is told that a topic is not found when it is not stored or is hidden, and no other reason of
  the lock or the rights is given away. */
  lemma HiddenReadsAsNotFound(f: Forum, env: Env, principal: Principal, t: Id, patch: TopicPatch, actor: Option<Id>)
    requires Sound(TopicLinks(f.topics)) && env.actorBan(principal).Allow? && (t !in f.topics || Hidden(f.topics, t))
    ensures AuthorizeUpdate(f, env, principal, t, patch) == Err(NotFound)
    ensures AuthorizeDelete(f, env, principal, t, actor) == Err(NotFound)
  {
    hide Sound, ContextOf, Available, DecideForLockedTopic, AuthorizeRole, PublicAccess.Decide, EvaluateTopicAccess, Hidden;
    if t in f.topics {
      SoundIsRooted(TopicLinks(f.topics), t);
      HiddenIsUnavailable(f.topics, t, principal);
    }
  }

  /** A refusal reads as not found for two reasons, and as forbidden, with its reason, for every other. */
  lemma ErrorsMean(reason: Reason)
    ensures ToError(reason) == if reason == TopicNotFound || reason == ChallengeNotFound then NotFound else Forbidden(reason)
  {}

  /** Commands that do not touch the topic tree are admitted as they are, and no command on the tree is admitted that way. */
  lemma OtherCommandsAdmitted(f: Forum, env: Env, principal: Principal, p: Prepared)
    requires Sound(TopicLinks(f.topics))
    ensures Authorize(f, env, principal, AskOther(p)) ==
            match p
            case CreateTopic(_) => Err(BadRequest)
            case UpdateTopic(_, _) => Err(BadRequest)
            case DeleteTopic(_, _) => Err(BadRequest)
            case _ => Ok(p)
  {}

  /** Banned callers are refused for the reason of the ban, whatever they ask. */
  lemma BannedReadsAsBan(f: Forum, env: Env, principal: Principal, request: Request)
    requires Sound(TopicLinks(f.topics)) && env.actorBan(principal) == Deny(Banned) && !request.AskOther?
    ensures Authorize(f, env, principal, request) == Err(Forbidden(Banned))
  {
    hide Sound, ContextOf;
  }

  /** Who would be allowed to change or delete a topic but for its lock is told that it is locked. */
  lemma LockReadsAsLocked(f: Forum, env: Env, principal: Principal, t: Id, patch: TopicPatch, actor: Option<Id>)
    requires Sound(TopicLinks(f.topics)) && env.actorBan(principal).Allow? && t in f.topics && MayView(f, env, principal, t)
    requires f.topics[t].locked && !MayPassLock(f, env, principal, t)
    ensures principal.isMachine ==> AuthorizeDelete(f, env, principal, t, actor) == Err(Forbidden(TopicLocked))
    ensures principal.isMachine || IsCopilotOf(f, env, principal, t) || OwnsThread(f, env, principal, t) ==>
              AuthorizeUpdate(f, env, principal, t, patch) == Err(Forbidden(TopicLocked))
  {
    hide Sound, ContextOf, DecideForTopic, MayView, MayPassLock, IsCopilotOf, OwnsThread, AuthorizeRole, FirstDenied;
    SoundIsRooted(TopicLinks(f.topics), t);
    var context := ContextOf(f.topics, t, principal);
    var d := DecideForTopic(env.facts, env.acl, f.topics, principal, context, None);
    var announces := patch.isAnnouncement.Some? && patch.isAnnouncement.value != f.topics[t].isAnnouncement;
    RightsMean(f, env, principal, t);
    LockGateMeans(f, env, principal, t);
    SecondGateDenies(d.canDeleteTopic, TopicLocked, []);
    SecondGateDenies(d.canUpdateTopic, TopicLocked, if announces then [d.canControlAnnouncement] else []);
    assert [d.canDeleteTopic, Deny(TopicLocked)] + [] == [d.canDeleteTopic, Deny(TopicLocked)];
  }

  lemma SecondGateDenies(first: Decision, reason: Reason, more: seq<Decision>)
    ensures first.Allow? ==> FirstDenied([first, Deny(reason)] + more) == Some(ToError(reason))
  {
    var gates := [first, Deny(reason)] + more;
    assert gates[1..][0] == Deny(reason);
    if first.Allow? {
      assert FirstDenied(gates) == FirstDenied(gates[1..]);
    }
  }
}
