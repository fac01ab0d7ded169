/** The restrictions the topic lists compute row by row are those of the rows' own contexts. */
module ListScopes {
  import opened Basics
  import opened ParentLinks
  import opened ForumState
  import opened AccessTypes
  import opened TopicContext
  import ListReads

  /** A stored topic as a list row. */
  function RowOf(topics: Topics, id: Id): ListReads.SummaryRow
    requires id in topics
  {
    ListReads.SummaryRow(id, topics[id].challengeId, topics[id].roleName)
  }

  /** What the policy would be asked about the topic itself. */
  function TargetOf(context: Context): ListReads.VisibilityTarget {
    ListReads.VisibilityTarget(Some(context.target.id), context.effectiveChallengeId, context.effectiveRoleName,
                               context.hasRestrictionConflict)
  }

  function ScopeOf(context: Context): ListReads.ParentScope {
    ListReads.ParentScope(context.effectiveChallengeId, context.effectiveRoleName, context.hasRestrictionConflict)
  }

  /** One more value in front: the nearest is it, if present; a conflict is an old one or one with the old nearest. */
  lemma ValueInFront(first: Option<Id>, rest: seq<Option<Id>>)
    ensures Nearest([first] + rest) == if first.Some? then first else Nearest(rest)
    ensures Conflicting([first] + rest) <==> Conflicting(rest) || ListReads.Clash(Nearest(rest), first)
  {
    hide Conflicting;
    assert ([first] + rest)[1..] == rest;
    ConflictingMeans(rest);
    ConflictingMeans([first] + rest);
    NearestIsPresent(rest);
    if !Conflicting(rest) {
      NearestSpeaksForAll(rest);
    }
  }

  lemma ContextFields(topics: Topics, id: Id, principal: Principal)
    requires Sound(TopicLinks(topics)) && id in topics
    ensures var challenges, roles := Challenges(ChainNodes(topics, id)), Roles(ChainNodes(topics, id));
            TargetOf(ContextOf(topics, id, principal)) ==
            ListReads.VisibilityTarget(Some(id), Nearest(challenges), Nearest(roles),
                                       Conflicting(challenges) || Conflicting(roles))
  {
    hide Sound, Nearest, Conflicting, Others, ChainNodes;
  }

  lemma FrontOfChain(topics: Topics, id: Id, above: seq<Node>)
    requires Sound(TopicLinks(topics)) && id in topics && ChainNodes(topics, id)[1..] == above
    ensures Challenges(ChainNodes(topics, id)) == [topics[id].challengeId] + Challenges(above)
    ensures Roles(ChainNodes(topics, id)) == [topics[id].roleName] + Roles(above)
  {
    hide Sound, TopicLinks, Climb, Rooted;
  }

  /** A child listed under its parent is judged by exactly the restrictions of its own context. */
  lemma ChildTargetIsContext(topics: Topics, id: Id, parent: Id, principal: Principal)
    requires Sound(TopicLinks(topics)) && id in topics && topics[id].parentTopicId == Some(parent)
    ensures parent in topics
    ensures ListReads.ChildRowRestrictions(ScopeOf(ContextOf(topics, parent, principal)), RowOf(topics, id))
            == TargetOf(ContextOf(topics, id, principal))
  {
    hide Sound, ContextOf, ChainNodes, Nearest, Conflicting, Challenges, Roles;
    ChainOfChild(topics, id, parent);
    var above := ChainNodes(topics, parent);
    FrontOfChain(topics, id, above);
    ContextFields(topics, id, principal);
    ContextFields(topics, parent, principal);
    ValueInFront(topics[id].challengeId, Challenges(above));
    ValueInFront(topics[id].roleName, Roles(above));
  }

  /** A listed root is judged by exactly the restrictions of its own context. */
  lemma RootTargetIsContext(topics: Topics, id: Id, principal: Principal)
    requires Sound(TopicLinks(topics)) && id in topics && topics[id].parentTopicId.None?
    ensures ListReads.RootRowRestrictions(RowOf(topics, id)) == TargetOf(ContextOf(topics, id, principal))
  {
    hide Sound, ContextOf, ChainNodes, Nearest, Conflicting;
    RootChain(topics, id);
    FrontOfChain(topics, id, []);
    ContextFields(topics, id, principal);
    ValueInFront(topics[id].challengeId, []);
    ValueInFront(topics[id].roleName, []);
    NothingNearest([]);
    ConflictingMeans([]);
  }
}
