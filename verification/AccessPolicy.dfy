/** The central access policy: category rules, inherited restrictions and challenge facts combined.

External challenge and resource lookups are uninterpreted functions of their arguments.
*/
module AccessPolicy {
  import opened Basics
  import opened ParentLinks
  import opened ForumState
  import opened ClosureTable
  import opened AccessTypes
  import opened TopicContext
  import PublicAccess

  datatype ChallengeFacts = ChallengeFacts(configured: bool, challengeExists: bool, memberHasChallengeAccess: bool)

  datatype ResourceFacts = ResourceFacts(
    isChallengeCopilot: bool, hasChallengeResource: bool, hasFullReadAccess: bool, hasFullWriteAccess: bool)

  datatype Facts = Facts(
    challenge: (Id, Option<Id>) -> ChallengeFacts,
    resource: (Id, Option<Id>) -> ResourceFacts)

  datatype Evaluation = Evaluation(visibility: Decision, isElevated: bool, isChallengeCopilot: bool)

  datatype TopicDecisions = TopicDecisions(
    canView: Decision, canCreateTopLevelTopic: Decision, canCreateChildTopic: Decision, canCreatePost: Decision,
    canUpdateTopic: Decision, canDeleteTopic: Decision, canAddWatch: Decision, canRemoveWatch: Decision,
    canMarkRead: Decision, canControlAnnouncement: Decision, canReceiveNotification: Decision)

  function DenyAll(reason: Reason): TopicDecisions {
    var d := Deny(reason);
    TopicDecisions(d, d, d, d, d, d, d, d, d, d, d)
  }

  function When(condition: bool, reason: Reason): Decision {
    if condition then Allow else Deny(reason)
  }

  /** Scoped machine callers may act for a target member; everyone else acts as themselves. */
  function Subject(principal: Principal, target: Option<Principal>): Principal {
    if principal.isMachine && target.Some? then target.value else principal
  }

  function HasChallengeAccess(c: ChallengeFacts, r: ResourceFacts): bool {
    c.memberHasChallengeAccess || r.hasChallengeResource || r.hasFullReadAccess || r.hasFullWriteAccess
  }

  function EvaluateChallenge(facts: Facts, p: Principal, challengeId: Id, roleName: Option<Id>): Evaluation {
    var c := facts.challenge(challengeId, p.memberId);
    var r := facts.resource(challengeId, p.memberId);
    var satisfiesRole := roleName.None? || roleName.value in p.roles;
    if !c.configured then Evaluation(Deny(ChallengeUnverifiable), false, false)
    else if !c.challengeExists then Evaluation(Deny(ChallengeNotFound), false, false)
    else if r.isChallengeCopilot then
      if !satisfiesRole then Evaluation(Deny(RequiredRoleMissing), false, false)
      else Evaluation(Allow, true, true)
    else if !HasChallengeAccess(c, r) then Evaluation(Deny(ChallengeAccessRequired), false, false)
    else if !satisfiesRole then Evaluation(Deny(RequiredRoleMissing), false, false)
    else Evaluation(Allow, false, false)
  }

  function EvaluateRestrictions(facts: Facts, p: Principal, input: Restrictions): Evaluation {
    if p.memberId.None? && !p.isMachine && (input.challengeId.Some? || input.roleName.Some?) then
      Evaluation(Deny(AuthenticatedMemberRequired), false, false)
    else if input.hasConflict && !p.isMachine && !p.isAdmin then
      Evaluation(Deny(InconsistentRestrictions), false, false)
    else if p.isMachine then Evaluation(Allow, true, false)
    else if p.isAdmin then Evaluation(Allow, true, false)
    else if input.challengeId.None? && input.roleName.None? then Evaluation(Allow, false, false)
    else if input.challengeId.Some? then EvaluateChallenge(facts, p, input.challengeId.value, input.roleName)
    else if input.roleName.value in p.roles then Evaluation(Allow, false, false)
    else Evaluation(Deny(RequiredRoleMissing), false, false)
  }

  function RestrictionsOf(context: Context): Restrictions {
    Restrictions(context.effectiveChallengeId, context.effectiveRoleName, context.hasRestrictionConflict)
  }

  predicate Available(context: Context) {
    context.target.topic.deletedAt.None? && !context.hasDeletedAncestor
  }

  /** The shared topic rules, given the category access already resolved. */
  function EvaluateTopicAccess(
    facts: Facts, principal: Principal, context: Context, access: PublicAccess.Access, target: Option<Principal>
  ): TopicDecisions {
    if !Available(context) then DenyAll(TopicNotFound)
    else
      var evaluation := EvaluateRestrictions(facts, Subject(principal, target), RestrictionsOf(context));
      if !access.view then DenyAll(PublicAccessMissing)
      else if evaluation.visibility.Deny? then DenyAll(evaluation.visibility.reason)
      else
        var participates := principal.memberId.Some? || principal.isMachine;
        var owns := context.isTopicAuthor && (!access.category || evaluation.isElevated);
        TopicDecisions(
          evaluation.visibility,
          Deny(NotApplicable),
          When(participates && access.create, CategoryClosed),
          When(participates && access.reply, CategoryClosed),
          When(evaluation.isElevated || owns, AuthorOrElevatedRequired),
          When(evaluation.isElevated && !evaluation.isChallengeCopilot, AdministratorRequired),
          When(participates, AuthenticatedMemberRequired),
          When(participates, AuthenticatedMemberRequired),
          When(participates, AuthenticatedMemberRequired),
          When(evaluation.isElevated, ElevatedAccessRequired),
          When(participates, AuthenticatedMemberRequired))
  }

  ghost function DecideForTopic(
    facts: Facts, acl: PublicAccess.Acl, topics: Topics, principal: Principal, context: Context,
    target: Option<Principal>): TopicDecisions
    requires Rooted(TopicLinks(topics), context.target.id)
  {
    if !Available(context) then DenyAll(TopicNotFound)
    else
      EvaluateTopicAccess(
        facts, principal, context,
        PublicAccess.Decide(acl, topics, Subject(principal, target), context.target.id), target)
  }

  /** May a topic be created with these effective restrictions, under this parent? */
  ghost function DecideForCreateTopic(
    facts: Facts, acl: PublicAccess.Acl, topics: Topics, principal: Principal,
    challengeId: Option<Id>, roleName: Option<Id>, parent: Option<Context>): TopicDecisions
    requires parent.Some? ==> Rooted(TopicLinks(topics), parent.value.target.id)
  {
    if parent.Some? && !Available(parent.value) then DenyAll(TopicNotFound)
    else if principal.memberId.None? && !principal.isMachine then DenyAll(AuthenticatedMemberRequired)
    else if parent.Some? && !PublicAccess.Decide(acl, topics, principal, parent.value.target.id).create then
      DenyAll(CategoryClosed)
    else
      var parentVisibility :=
        if parent.Some? then EvaluateRestrictions(facts, principal, RestrictionsOf(parent.value)).visibility else Allow;
      if parent.Some? && challengeId.Some? then
        var none := Deny(NotApplicable);
        TopicDecisions(
          parentVisibility, none,
          if parentVisibility.Allow? then Deny(ChallengeChildTopic) else parentVisibility,
          parentVisibility, none, none, parentVisibility, parentVisibility, parentVisibility,
          Deny(ElevatedAccessRequired), parentVisibility)
      else
        var candidate := EvaluateRestrictions(facts, principal, Restrictions(challengeId, roleName, false));
        var child := if parentVisibility.Deny? then parentVisibility else candidate.visibility;
        var top :=
          if candidate.visibility.Deny? then candidate.visibility
          else if challengeId.Some? then When(!principal.isMachine, ElevatedAccessRequired)
          else When(principal.isMachine || candidate.isElevated, ElevatedAccessRequired);
        var none := Deny(NotApplicable);
        TopicDecisions(
          candidate.visibility,
          if parent.Some? then none else top,
          if parent.Some? then child else none,
          candidate.visibility, none, none, candidate.visibility, candidate.visibility, candidate.visibility,
          When(candidate.isElevated && candidate.visibility.Allow?, ElevatedAccessRequired),
          candidate.visibility)
  }

  /** The lock gate for content changes. */
  function DecideForLockedTopic(facts: Facts, principal: Principal, context: Context): Decision {
    if !context.target.topic.locked || principal.isAdmin then Allow
    else if !principal.isMachine && principal.memberId.Some? && context.effectiveChallengeId.Some?
            && facts.resource(context.effectiveChallengeId.value, principal.memberId).isChallengeCopilot then Allow
    else Deny(TopicLocked)
  }

  // ----- the slow form: every restriction of every topic on the chain

  /** A member passes a challenge restriction when the challenge can be verified, exists, and lets them in. */
  predicate MeetsChallenge(facts: Facts, p: Principal, challengeId: Id) {
    var c := facts.challenge(challengeId, p.memberId);
    var r := facts.resource(challengeId, p.memberId);
    c.configured && c.challengeExists && (r.isChallengeCopilot || HasChallengeAccess(c, r))
  }

  /** Everything one topic row itself demands of a reader. */
  predicate MeetsOwnRestrictions(facts: Facts, p: Principal, topic: Topic) {
    && (topic.challengeId.Some? || topic.roleName.Some? ==> p.memberId.Some?)
    && (topic.roleName.Some? ==> topic.roleName.value in p.roles)
    && (topic.challengeId.Some? ==> MeetsChallenge(facts, p, topic.challengeId.value))
  }

  /** Any one of five facts lets a member into a challenge that can be verified and exists. */
  lemma MeetsChallengeMeans(facts: Facts, p: Principal, challengeId: Id)
    ensures var c, r := facts.challenge(challengeId, p.memberId), facts.resource(challengeId, p.memberId);
            MeetsChallenge(facts, p, challengeId) <==>
              && c.configured && c.challengeExists
              && (|| r.isChallengeCopilot || c.memberHasChallengeAccess || r.hasChallengeResource
                  || r.hasFullReadAccess || r.hasFullWriteAccess)
  {}

  /** Each reason for a refusal is given in exactly one situation. */
  lemma RefusalsMean(facts: Facts, p: Principal, input: Restrictions)
    ensures var v := EvaluateRestrictions(facts, p, input).visibility;
            var restricted := input.challengeId.Some? || input.roleName.Some?;
            var judged := !p.isMachine && !p.isAdmin && !(p.memberId.None? && restricted) && !input.hasConflict;
            var lacksRole := input.roleName.Some? && input.roleName.value !in p.roles;
            && (v == Deny(AuthenticatedMemberRequired) <==> !p.isMachine && p.memberId.None? && restricted)
            && (v == Deny(InconsistentRestrictions) <==>
                  !p.isMachine && !p.isAdmin && !(p.memberId.None? && restricted) && input.hasConflict)
            && (input.challengeId.None? ==>
                  && (v == Deny(RequiredRoleMissing) <==> judged && lacksRole)
                  && v != Deny(ChallengeUnverifiable) && v != Deny(ChallengeNotFound) && v != Deny(ChallengeAccessRequired))
            && (input.challengeId.Some? ==>
                  var c := facts.challenge(input.challengeId.value, p.memberId);
                  && (v == Deny(ChallengeUnverifiable) <==> judged && !c.configured)
                  && (v == Deny(ChallengeNotFound) <==> judged && c.configured && !c.challengeExists)
                  && (v == Deny(ChallengeAccessRequired) <==>
                        judged && c.configured && c.challengeExists && !MeetsChallenge(facts, p, input.challengeId.value))
                  && (v == Deny(RequiredRoleMissing) <==>
                        judged && MeetsChallenge(facts, p, input.challengeId.value) && lacksRole))
  {}

  function Visibility(facts: Facts, p: Principal, chain: seq<Node>): Decision {
    EvaluateRestrictions(
      facts, p,
      Restrictions(Nearest(Challenges(chain)), Nearest(Roles(chain)),
                   Conflicting(Challenges(chain)) || Conflicting(Roles(chain)))).visibility
  }

  lemma NearestOfNodes(nodes: seq<Node>)
    ensures Nearest(Challenges(nodes)).Some? ==>
              exists n :: n in nodes && n.topic.challengeId == Nearest(Challenges(nodes))
    ensures Nearest(Challenges(nodes)).None? ==> forall n :: n in nodes ==> n.topic.challengeId.None?
    ensures !Conflicting(Challenges(nodes)) ==>
              forall n :: n in nodes && n.topic.challengeId.Some? ==> n.topic.challengeId == Nearest(Challenges(nodes))
    ensures Nearest(Roles(nodes)).Some? ==> exists n :: n in nodes && n.topic.roleName == Nearest(Roles(nodes))
    ensures Nearest(Roles(nodes)).None? ==> forall n :: n in nodes ==> n.topic.roleName.None?
    ensures !Conflicting(Roles(nodes)) ==>
              forall n :: n in nodes && n.topic.roleName.Some? ==> n.topic.roleName == Nearest(Roles(nodes))
  {
    NearestIsPresent(Challenges(nodes));
    NearestIsPresent(Roles(nodes));
    if !Conflicting(Challenges(nodes)) { NearestSpeaksForAll(Challenges(nodes)); }
    if !Conflicting(Roles(nodes)) { NearestSpeaksForAll(Roles(nodes)); }
    forall n | n in nodes ensures n.topic.challengeId in Challenges(nodes) && n.topic.roleName in Roles(nodes) {
      var i :| 0 <= i < |nodes| && nodes[i] == n;
      assert Challenges(nodes)[i] == n.topic.challengeId && Roles(nodes)[i] == n.topic.roleName;
    }
  }

  /** The fast policy is the slow one: a human who is not an administrator sees a topic exactly when its chain
  is free of conflicts and they satisfy every restriction on every topic of it. */
  lemma VisibleIffEveryRestrictionMet(facts: Facts, p: Principal, chain: seq<Node>)
    requires !p.isAdmin && !p.isMachine
    ensures Visibility(facts, p, chain).Allow? <==>
            && !Conflicting(Challenges(chain)) && !Conflicting(Roles(chain))
            && forall n :: n in chain ==> MeetsOwnRestrictions(facts, p, n.topic)
  {
    hide Nearest, Conflicting;
    NearestOfNodes(chain);
  }

  /** Machines pass every restriction; administrators do when they are members or nothing is restricted. */
  lemma ElevatedVisibility(facts: Facts, p: Principal, chain: seq<Node>)
    requires p.isAdmin || p.isMachine
    ensures Visibility(facts, p, chain).Allow? <==>
            p.isMachine || p.memberId.Some?
            || forall n :: n in chain ==> n.topic.challengeId.None? && n.topic.roleName.None?
  {
    hide Nearest, Conflicting;
    NearestOfNodes(chain);
  }

  lemma ConflictGrows(chain: seq<Node>, k: nat)
    requires k <= |chain|
    ensures Conflicting(Challenges(chain[k..])) ==> Conflicting(Challenges(chain))
    ensures Conflicting(Roles(chain[k..])) ==> Conflicting(Roles(chain))
  {
    ConflictingMeans(Challenges(chain));
    ConflictingMeans(Challenges(chain[k..]));
    ConflictingMeans(Roles(chain));
    ConflictingMeans(Roles(chain[k..]));
    assert Challenges(chain[k..]) == Challenges(chain)[k..];
    assert Roles(chain[k..]) == Roles(chain)[k..];
  }

  /** Whoever passes the restrictions of a chain passes those of every tail of it. */
  lemma RestrictionsAreMonotone(facts: Facts, p: Principal, chain: seq<Node>, k: nat)
    requires k <= |chain| && Visibility(facts, p, chain).Allow?
    ensures Visibility(facts, p, chain[k..]).Allow?
  {
    hide Visibility, Conflicting, MeetsOwnRestrictions, Challenges, Roles;
    ConflictGrows(chain, k);
    assert forall n :: n in chain[k..] ==> n in chain;
    if p.isAdmin || p.isMachine {
      ElevatedVisibility(facts, p, chain);
      ElevatedVisibility(facts, p, chain[k..]);
    } else {
      VisibleIffEveryRestrictionMet(facts, p, chain);
      VisibleIffEveryRestrictionMet(facts, p, chain[k..]);
    }
  }

  /** What viewing a topic takes: no deleted topic on its chain, readable categories, met restrictions. */
  lemma ViewMeans(facts: Facts, acl: PublicAccess.Acl, topics: Topics, principal: Principal,
                  id: Id, target: Option<Principal>)
    requires Sound(TopicLinks(topics)) && id in topics && Rooted(TopicLinks(topics), id)
    ensures DecideForTopic(facts, acl, topics, principal, ContextOf(topics, id, principal), target).canView.Allow? <==>
            && (forall n :: n in ChainNodes(topics, id) ==> n.topic.deletedAt.None?)
            && PublicAccess.Decide(acl, topics, Subject(principal, target), id).view
            && Visibility(facts, Subject(principal, target), ChainNodes(topics, id)).Allow?
  {
    hide PublicAccess.Decide, Nearest, Conflicting, Challenges, Roles, EvaluateRestrictions, ContextOf, Sound, Rooted,
         TopicLinks, Available, Others;
    AvailableMeans(topics, id, principal);
    ContextRestrictions(topics, id, principal);
  }

  /** Acting for someone else: only machines can, and they then see exactly the topics that member sees. */
  lemma OnBehalf(facts: Facts, acl: PublicAccess.Acl, topics: Topics, principal: Principal, id: Id, target: Principal)
    requires Sound(TopicLinks(topics)) && id in topics && Rooted(TopicLinks(topics), id)
    ensures var mine := ContextOf(topics, id, principal);
            && (!principal.isMachine ==>
                  DecideForTopic(facts, acl, topics, principal, mine, Some(target))
                  == DecideForTopic(facts, acl, topics, principal, mine, None))
            && (principal.isMachine ==>
                  (DecideForTopic(facts, acl, topics, principal, mine, Some(target)).canView.Allow? <==>
                   DecideForTopic(facts, acl, topics, target, ContextOf(topics, id, target), None).canView.Allow?))
  {
    hide PublicAccess.Decide, ContextOf, Sound, Rooted, TopicLinks, DecideForTopic, Visibility;
    ViewMeans(facts, acl, topics, principal, id, Some(target));
    ViewMeans(facts, acl, topics, target, id, None);
    HumansActAsThemselves(facts, acl, topics, principal, ContextOf(topics, id, principal), target);
  }

  lemma HumansActAsThemselves(facts: Facts, acl: PublicAccess.Acl, topics: Topics, principal: Principal, context: Context,
                              target: Principal)
    requires Rooted(TopicLinks(topics), context.target.id)
    ensures !principal.isMachine ==>
              DecideForTopic(facts, acl, topics, principal, context, Some(target))
              == DecideForTopic(facts, acl, topics, principal, context, None)
  {
    hide EvaluateRestrictions, PublicAccess.Decide, Available, Rooted;
  }

  /** What the other actions take, beyond viewing: participants reply where the category lets them; administrators and
  machines delete and announce, challenge copilots announce; and a topic is changed by any of those or, outside
  category roots, by its author. */
  lemma TopicRights(facts: Facts, acl: PublicAccess.Acl, topics: Topics, principal: Principal, id: Id, target: Option<Principal>)
    requires Sound(TopicLinks(topics)) && id in topics && Rooted(TopicLinks(topics), id)
    ensures var context := ContextOf(topics, id, principal);
            var d := DecideForTopic(facts, acl, topics, principal, context, target);
            var access, p := PublicAccess.Decide(acl, topics, Subject(principal, target), id), Subject(principal, target);
            var copilot := context.effectiveChallengeId.Some?
                           && facts.resource(context.effectiveChallengeId.value, p.memberId).isChallengeCopilot;
            var participates := principal.memberId.Some? || principal.isMachine;
            && (d.canCreatePost.Allow? <==> d.canView.Allow? && participates && access.reply)
            && (d.canCreateChildTopic.Allow? <==> d.canView.Allow? && participates && access.create)
            && (d.canDeleteTopic.Allow? <==> d.canView.Allow? && (p.isMachine || p.isAdmin))
            && (d.canControlAnnouncement.Allow? <==> d.canView.Allow? && (p.isMachine || p.isAdmin || copilot))
            && (d.canUpdateTopic.Allow? <==>
                  && d.canView.Allow?
                  && (p.isMachine || p.isAdmin || copilot || (context.isTopicAuthor && !access.category)))
            && (d.canAddWatch.Allow? <==> d.canView.Allow? && participates)
            && d.canRemoveWatch == d.canAddWatch == d.canMarkRead == d.canReceiveNotification
            && d.canCreateTopLevelTopic.Deny?
  {
    hide PublicAccess.Decide, Conflicting, Challenges, Roles, Nearest, Sound, Rooted, TopicLinks, Available, Others, ContextOf,
         EvaluateRestrictions;
    var context := ContextOf(topics, id, principal);
    RestrictionOutcome(facts, Subject(principal, target), RestrictionsOf(context));
  }

  /** How a refusal reads. Who may not view a topic is told the same of every action: that it is not found when it or something
  above is deleted, that its categories are closed to them, or what restriction they do not meet. Who may view it is told what
  the single action lacks. */
  lemma RefusedRights(facts: Facts, acl: PublicAccess.Acl, topics: Topics, principal: Principal, id: Id, target: Option<Principal>)
    requires Sound(TopicLinks(topics)) && id in topics && Rooted(TopicLinks(topics), id)
    ensures var context := ContextOf(topics, id, principal);
            var d := DecideForTopic(facts, acl, topics, principal, context, target);
            var access, p := PublicAccess.Decide(acl, topics, Subject(principal, target), id), Subject(principal, target);
            var restrictions :=
              Restrictions(context.effectiveChallengeId, context.effectiveRoleName, context.hasRestrictionConflict);
            && (d.canView.Deny? ==>
                  && d == DenyAll(d.canView.reason)
                  && d.canView ==
                     if topics[id].deletedAt.Some? || context.hasDeletedAncestor then Deny(TopicNotFound)
                     else if !access.view then Deny(PublicAccessMissing)
                     else EvaluateRestrictions(facts, p, restrictions).visibility)
            && (d.canView.Allow? ==>
                  && d.canCreateTopLevelTopic == Deny(NotApplicable)
                  && (d.canCreateChildTopic.Deny? ==> d.canCreateChildTopic.reason == CategoryClosed)
                  && (d.canCreatePost.Deny? ==> d.canCreatePost.reason == CategoryClosed)
                  && (d.canUpdateTopic.Deny? ==> d.canUpdateTopic.reason == AuthorOrElevatedRequired)
                  && (d.canDeleteTopic.Deny? ==> d.canDeleteTopic.reason == AdministratorRequired)
                  && (d.canControlAnnouncement.Deny? ==> d.canControlAnnouncement.reason == ElevatedAccessRequired)
                  && (d.canAddWatch.Deny? ==> d.canAddWatch.reason == AuthenticatedMemberRequired))
    ensures forall reason :: var no := Deny(reason); DenyAll(reason) == TopicDecisions(no, no, no, no, no, no, no, no, no, no, no)
  {
    hide PublicAccess.Decide, Conflicting, Challenges, Roles, Nearest, Sound, Rooted, TopicLinks, Others, ContextOf,
         EvaluateRestrictions;
  }

  /** Who counts as elevated once the restrictions are met: machines, administrators and copilots of the challenge. Nobody else
  does, and nobody who is refused. */
  lemma RestrictionOutcome(facts: Facts, p: Principal, input: Restrictions)
    ensures var e := EvaluateRestrictions(facts, p, input);
            var copilot := input.challengeId.Some? && facts.resource(input.challengeId.value, p.memberId).isChallengeCopilot;
            && (e.visibility.Deny? ==> !e.isElevated && !e.isChallengeCopilot)
            && (e.visibility.Allow? ==>
                  && (e.isElevated <==> p.isMachine || p.isAdmin || copilot)
                  && (e.isChallengeCopilot <==> copilot && !p.isMachine && !p.isAdmin))
  {}

  /** What creating a topic takes. A child needs a visible, live parent in a category that lets the caller create, and no
  challenge; a root with a challenge needs a human who may see the challenge, one without a machine or an administrator. */
  lemma CreateRights(facts: Facts, acl: PublicAccess.Acl, topics: Topics, principal: Principal,
                     challengeId: Option<Id>, roleName: Option<Id>, parent: Option<Context>)
    requires parent.Some? ==> Rooted(TopicLinks(topics), parent.value.target.id)
    ensures var d := DecideForCreateTopic(facts, acl, topics, principal, challengeId, roleName, parent);
            var participates := principal.memberId.Some? || principal.isMachine;
            var candidate := EvaluateRestrictions(facts, principal, Restrictions(challengeId, roleName, false)).visibility;
            && (d.canCreateTopLevelTopic.Allow? <==>
                  && parent.None? && participates && candidate.Allow?
                  && if challengeId.Some? then !principal.isMachine else principal.isMachine || principal.isAdmin)
            && (d.canCreateChildTopic.Allow? <==>
                  && parent.Some? && Available(parent.value) && participates
                  && PublicAccess.Decide(acl, topics, principal, parent.value.target.id).create
                  && EvaluateRestrictions(facts, principal, RestrictionsOf(parent.value)).visibility.Allow?
                  && challengeId.None? && candidate.Allow?)
            && (d.canControlAnnouncement.Allow? <==>
                  && participates
                  && (parent.Some? ==>
                        && Available(parent.value) && challengeId.None?
                        && PublicAccess.Decide(acl, topics, principal, parent.value.target.id).create)
                  && candidate.Allow? && (principal.isMachine || principal.isAdmin
                                       || (challengeId.Some? && facts.resource(challengeId.value, principal.memberId).isChallengeCopilot)))
  {
    hide PublicAccess.Decide, Rooted, TopicLinks, Available, EvaluateRestrictions, RestrictionsOf;
    RestrictionOutcome(facts, principal, Restrictions(challengeId, roleName, false));
  }

  /** How a refused child reads: not found under a deleted parent, then what the caller, the category and the parent's
  restrictions lack, then the challenge asked for, and last the restrictions asked for. */
  lemma RefusedChild(facts: Facts, acl: PublicAccess.Acl, topics: Topics, principal: Principal,
                     challengeId: Option<Id>, roleName: Option<Id>, parent: Context)
    requires Rooted(TopicLinks(topics), parent.target.id)
    ensures var above := EvaluateRestrictions(facts, principal, RestrictionsOf(parent)).visibility;
            DecideForCreateTopic(facts, acl, topics, principal, challengeId, roleName, Some(parent)).canCreateChildTopic ==
              if parent.target.topic.deletedAt.Some? || parent.hasDeletedAncestor then Deny(TopicNotFound)
              else if principal.memberId.None? && !principal.isMachine then Deny(AuthenticatedMemberRequired)
              else if !PublicAccess.Decide(acl, topics, principal, parent.target.id).create then Deny(CategoryClosed)
              else if above.Deny? then above
              else if challengeId.Some? then Deny(ChallengeChildTopic)
              else EvaluateRestrictions(facts, principal, Restrictions(None, roleName, false)).visibility
  {
    hide PublicAccess.Decide, Rooted, TopicLinks, EvaluateRestrictions, RestrictionsOf;
  }

  lemma AvailableMeans(topics: Topics, id: Id, principal: Principal)
    requires Sound(TopicLinks(topics)) && id in topics
    ensures Available(ContextOf(topics, id, principal)) <==>
            forall n :: n in ChainNodes(topics, id) ==> n.topic.deletedAt.None?
  {
    hide Sound, Rooted, TopicLinks, Nearest, Conflicting, Challenges, Roles, Others;
    var chain := ChainNodes(topics, id);
    OthersIsTail(topics, id);
    assert chain == [chain[0]] + chain[1..];
  }

  lemma ContextRestrictions(topics: Topics, id: Id, principal: Principal)
    requires Sound(TopicLinks(topics)) && id in topics
    ensures var chain := ChainNodes(topics, id);
            RestrictionsOf(ContextOf(topics, id, principal)) ==
            Restrictions(Nearest(Challenges(chain)), Nearest(Roles(chain)),
                         Conflicting(Challenges(chain)) || Conflicting(Roles(chain)))
  {
    hide Sound, Rooted, TopicLinks, Nearest, Conflicting, Challenges, Roles, Others;
  }

  /** Visibility is monotone up the tree, for every kind of principal, through deletion, category rules and
  restrictions together: who may view a topic may view each of its ancestors. */
  lemma VisibilityIsMonotone(facts: Facts, acl: PublicAccess.Acl, topics: Topics, principal: Principal,
                             id: Id, a: Id, k: nat, target: Option<Principal>)
    requires Sound(TopicLinks(topics)) && id in topics && Rooted(TopicLinks(topics), id)
    requires Climb(TopicLinks(topics), id, k) == Some(a)
    requires DecideForTopic(facts, acl, topics, principal, ContextOf(topics, id, principal), target).canView.Allow?
    ensures a in topics && Rooted(TopicLinks(topics), a)
    ensures DecideForTopic(facts, acl, topics, principal, ContextOf(topics, a, principal), target).canView.Allow?
  {
    hide *;
    AncestorChain(topics, id, a, k);
    ViewMeans(facts, acl, topics, principal, id, target);
    ViewMeans(facts, acl, topics, principal, a, target);
    PublicAccess.ViewIsMonotone(acl, topics, Subject(principal, target), id, k, a);
    RestrictionsAreMonotone(facts, Subject(principal, target), ChainNodes(topics, id), k);
    assert forall n :: n in ChainNodes(topics, id)[k..] ==> n in ChainNodes(topics, id);
  }

  lemma AncestorChain(topics: Topics, id: Id, a: Id, k: nat)
    requires Sound(TopicLinks(topics)) && id in topics && Rooted(TopicLinks(topics), id)
    requires Climb(TopicLinks(topics), id, k) == Some(a)
    ensures a in topics && Rooted(TopicLinks(topics), a) && k <= |ChainNodes(topics, id)|
    ensures ChainNodes(topics, a) == ChainNodes(topics, id)[k..]
  {
    hide Sound, TopicLinks, Climb, Rooted;
    LinksAre(topics);
    ClimbStored(TopicLinks(topics), id, k);
    ChainSuffix(TopicLinks(topics), id, a, k);
    assert forall i :: 0 <= i < |ChainNodes(topics, a)| ==> ChainNodes(topics, a)[i] == ChainNodes(topics, id)[k + i];
  }

  /** The batched catalog path, contexts and decisions together, decides every topic exactly as one-at-a-time
  authorization would. */
  method DecideForTopics(
      facts: Facts, acl: PublicAccess.Acl, topics: Topics, ghost closure: set<ClosureRow>, principal: Principal,
      topicIds: seq<Id>, answer: seq<ClosureRow>, hits: seq<PublicAccess.CategoryHit>)
      returns (decisions: map<Id, TopicDecisions>)
    requires Sound(TopicLinks(topics)) && ClosureExact(TopicLinks(topics), closure)
    requires PublicAccess.CategoriesKeyed(acl)
    requires forall id :: id in topicIds ==> id in topics
    requires Answers(closure, Elements(topicIds), answer)
    requires PublicAccess.AnswersHits(acl, closure, Elements(topicIds), hits)
    ensures forall id :: id in decisions <==> id in topicIds
    ensures forall id :: id in decisions ==>
              && id in topics && Rooted(TopicLinks(topics), id)
              && decisions[id] ==
                 DecideForTopic(facts, acl, topics, principal, ContextOf(topics, id, principal), None)
  {
    hide *;
    AllRooted(topics, topicIds);
    var contexts := LoadTopicContexts(topics, closure, topicIds, principal, answer);
    var access := PublicAccess.DecideMany(acl, topics, closure, principal, topicIds, hits);
    decisions := map[];
    for i := 0 to |topicIds|
      invariant forall id :: id in decisions <==> id in topicIds[..i]
      invariant forall id :: id in decisions ==>
                  && id in topics && Rooted(TopicLinks(topics), id)
                  && decisions[id] ==
                     DecideForTopic(facts, acl, topics, principal, ContextOf(topics, id, principal), None)
    {
      var id := topicIds[i];
      assert topicIds[..i + 1] == topicIds[..i] + [id];
      assert id in contexts && id in access;
      BatchDecision(facts, acl, topics, principal, id);
      decisions := decisions[id := EvaluateTopicAccess(facts, principal, contexts[id], access[id], None)];
    }
    assert topicIds[..|topicIds|] == topicIds;
  }

  lemma AllRooted(topics: Topics, ids: seq<Id>)
    requires Sound(TopicLinks(topics)) && forall id :: id in ids ==> id in topics
    ensures forall id :: id in ids ==> Rooted(TopicLinks(topics), id)
  {
    forall id | id in ids ensures Rooted(TopicLinks(topics), id) {
      SoundIsRooted(TopicLinks(topics), id);
    }
  }

  lemma BatchDecision(facts: Facts, acl: PublicAccess.Acl, topics: Topics, principal: Principal, id: Id)
    requires Sound(TopicLinks(topics)) && id in topics && Rooted(TopicLinks(topics), id)
    ensures EvaluateTopicAccess(facts, principal, ContextOf(topics, id, principal),
                                PublicAccess.Decide(acl, topics, principal, id), None)
         == DecideForTopic(facts, acl, topics, principal, ContextOf(topics, id, principal), None)
  {}
}
