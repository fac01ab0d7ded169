/** Authorization context of a topic: inherited restrictions, conflict flag and deleted ancestors, read from
its chain. */
module TopicContext {
  import opened Basics
  import opened ParentLinks
  import opened ForumState
  import opened ClosureTable
  import opened AccessTypes

  /** A topic row together with its id. */
  datatype Node = Node(id: Id, topic: Topic)

  datatype Context = Context(
    target: Node, ancestors: seq<Node>,
    effectiveChallengeId: Option<Id>, effectiveRoleName: Option<Id>,
    ancestorRoleName: Option<Id>,
    hasDeletedAncestor: bool, hasRestrictionConflict: bool, isTopicAuthor: bool)

  /** The first value present, nearest first. */
  function Nearest(values: seq<Option<Id>>): Option<Id> {
    if values == [] then None
    else if values[0].Some? then values[0]
    else Nearest(values[1..])
  }

  /** More than one distinct value is present. */
  predicate Conflicting(values: seq<Option<Id>>) {
    |set v | v in values && v.Some?| > 1
  }

  function Challenges(nodes: seq<Node>): (r: seq<Option<Id>>)
    ensures |r| == |nodes| && forall i :: 0 <= i < |r| ==> r[i] == nodes[i].topic.challengeId
  {
    seq(|nodes|, i requires 0 <= i < |nodes| => nodes[i].topic.challengeId)
  }

  function Roles(nodes: seq<Node>): (r: seq<Option<Id>>)
    ensures |r| == |nodes| && forall i :: 0 <= i < |r| ==> r[i] == nodes[i].topic.roleName
  {
    seq(|nodes|, i requires 0 <= i < |nodes| => nodes[i].topic.roleName)
  }

  /** The strict ancestors: everything on the chain but the topic itself. */
  function Others(nodes: seq<Node>, id: Id): seq<Node> {
    if nodes == [] then []
    else (if nodes[0].id == id then [] else [nodes[0]]) + Others(nodes[1..], id)
  }

  function ContextFromAncestors(target: Node, ancestors: seq<Node>, principal: Principal): Context {
    var above := Others(ancestors, target.id);
    Context(
      target, ancestors,
      Nearest(Challenges(ancestors)), Nearest(Roles(ancestors)),
      Nearest(Roles(above)),
      exists n :: n in above && n.topic.deletedAt.Some?,
      Conflicting(Challenges(ancestors)) || Conflicting(Roles(ancestors)),
      principal.memberId.Some? && target.topic.authorMemberId == principal.memberId.value)
  }

  /** The chain of a topic as rows, nearest first. */
  ghost function Nodes(topics: Topics, ids: seq<Id>): (nodes: seq<Node>)
    requires forall id :: id in ids ==> id in topics
    ensures |nodes| == |ids| && forall i :: 0 <= i < |ids| ==> nodes[i] == Node(ids[i], topics[ids[i]])
  {
    seq(|ids|, i requires 0 <= i < |ids| => Node(ids[i], topics[ids[i]]))
  }

  ghost function ChainNodes(topics: Topics, id: Id): (nodes: seq<Node>)
    requires Sound(TopicLinks(topics)) && id in topics
    ensures |nodes| > 0 && nodes[0] == Node(id, topics[id])
    ensures Rooted(TopicLinks(topics), id) && |nodes| == |Chain(TopicLinks(topics), id)|
    ensures forall i :: 0 <= i < |nodes| ==>
              nodes[i].id == Chain(TopicLinks(topics), id)[i] && nodes[i].id in topics
              && nodes[i].topic == topics[nodes[i].id]
  {
    SoundIsRooted(TopicLinks(topics), id);
    Nodes(topics, Chain(TopicLinks(topics), id))
  }

  /** What every loader must deliver: the context computed from the topic's own parent walk. */
  ghost function ContextOf(topics: Topics, id: Id, principal: Principal): (context: Context)
    requires Sound(TopicLinks(topics)) && id in topics
    ensures context.target == Node(id, topics[id])
  {
    ContextFromAncestors(Node(id, topics[id]), ChainNodes(topics, id), principal)
  }

  // ----- nearest value and conflict flag

  lemma ConflictingMeans(values: seq<Option<Id>>)
    ensures Conflicting(values) <==>
            exists v, w :: v in values && w in values && v.Some? && w.Some? && v != w
  {
    var present := set v | v in values && v.Some?;
    if v, w :| v in values && w in values && v.Some? && w.Some? && v != w {
      SubsetSize({v, w}, present);
    }
    if |present| > 1 {
      var v :| v in present;
      var rest := present - {v};
      assert |rest| > 0;
      var w :| w in rest;
      assert v in values && w in values && v != w;
    }
  }

  lemma {:induction false} NearestIsPresent(values: seq<Option<Id>>)
    ensures Nearest(values).Some? ==> Nearest(values) in values
    ensures Nearest(values).None? <==> forall v :: v in values ==> v.None?
  {
    if values != [] && values[0].None? {
      NearestIsPresent(values[1..]);
      assert values == [values[0]] + values[1..];
    }
  }

  /** Without a conflict, the nearest value speaks for the whole chain. */
  lemma NearestSpeaksForAll(values: seq<Option<Id>>)
    requires !Conflicting(values)
    ensures forall v :: v in values && v.Some? ==> v == Nearest(values)
  {
    NearestIsPresent(values);
    ConflictingMeans(values);
  }

  lemma {:induction false} NearestIsFirst(values: seq<Option<Id>>) returns (i: nat)
    requires Nearest(values).Some?
    ensures i < |values| && values[i] == Nearest(values) && forall j :: 0 <= j < i ==> values[j].None?
  {
    if values[0].Some? {
      i := 0;
    } else {
      i := NearestIsFirst(values[1..]);
      i := i + 1;
    }
  }

  /** On the way up from a topic, the first value that `pick` finds. */
  ghost predicate FirstOnWalk(topics: Topics, id: Id, pick: Topic -> Option<Id>, found: Option<Id>) {
    if found.Some? then
      exists k: nat :: PicksAt(topics, id, pick, k) == found
        && forall j: nat :: j < k ==> PicksAt(topics, id, pick, j).None?
    else forall k: nat :: PicksAt(topics, id, pick, k).None?
  }

  /** The value found `k` hops up. */
  ghost function PicksAt(topics: Topics, id: Id, pick: Topic -> Option<Id>, k: nat): Option<Id> {
    var a := Climb(TopicLinks(topics), id, k);
    if a.Some? && a.value in topics then pick(topics[a.value]) else None
  }

  ghost predicate DeletedAbove(topics: Topics, id: Id) {
    exists k: nat :: DeletedAt(topics, id, k)
  }

  ghost predicate DeletedAt(topics: Topics, id: Id, k: nat) {
    var a := Climb(TopicLinks(topics), id, k);
    k > 0 && a.Some? && a.value in topics && topics[a.value].deletedAt.Some?
  }

  /** Two topics on the way up disagree. */
  ghost predicate Disagree(topics: Topics, id: Id, pick: Topic -> Option<Id>) {
    exists j: nat, k: nat ::
      PicksAt(topics, id, pick, j).Some? && PicksAt(topics, id, pick, k).Some?
      && PicksAt(topics, id, pick, j) != PicksAt(topics, id, pick, k)
  }

  function ChallengeOf(topic: Topic): Option<Id> {
    topic.challengeId
  }

  function RoleOf(topic: Topic): Option<Id> {
    topic.roleName
  }

  lemma WalkIsChain(topics: Topics, id: Id, pick: Topic -> Option<Id>, k: nat)
    requires Sound(TopicLinks(topics)) && id in topics
    ensures var nodes := ChainNodes(topics, id);
            && PicksAt(topics, id, pick, k) == (if k < |nodes| then pick(nodes[k].topic) else None)
            && (DeletedAt(topics, id, k) <==> 0 < k < |nodes| && nodes[k].topic.deletedAt.Some?)
  {
    hide Sound, TopicLinks, Climb, RootAt;
    var nodes := ChainNodes(topics, id);
    if k < |nodes| {
      assert Climb(TopicLinks(topics), id, k) == Some(Chain(TopicLinks(topics), id)[k]);
    }
  }

  /** The values of a topic's chain are what is found on the way up. */
  ghost predicate OfChain(topics: Topics, id: Id, pick: Topic -> Option<Id>, values: seq<Option<Id>>) {
    forall k: nat :: PicksAt(topics, id, pick, k) == if k < |values| then values[k] else None
  }

  lemma ValuesOfChain(topics: Topics, id: Id, pick: Topic -> Option<Id>, values: seq<Option<Id>>)
    requires Sound(TopicLinks(topics)) && id in topics
    requires |values| == |ChainNodes(topics, id)|
    requires forall i :: 0 <= i < |values| ==> values[i] == pick(ChainNodes(topics, id)[i].topic)
    ensures OfChain(topics, id, pick, values)
  {
    hide Sound, ChainNodes, PicksAt;
    forall k: nat ensures PicksAt(topics, id, pick, k) == if k < |values| then values[k] else None {
      WalkIsChain(topics, id, pick, k);
    }
  }

  lemma FirstOfChain(topics: Topics, id: Id, pick: Topic -> Option<Id>, values: seq<Option<Id>>)
    requires OfChain(topics, id, pick, values)
    ensures FirstOnWalk(topics, id, pick, Nearest(values))
  {
    hide PicksAt, Nearest;
    NearestIsPresent(values);
    if Nearest(values).Some? {
      var i := NearestIsFirst(values);
      assert PicksAt(topics, id, pick, i) == Nearest(values);
    }
  }

  lemma ConflictOfChain(topics: Topics, id: Id, pick: Topic -> Option<Id>, values: seq<Option<Id>>)
    requires OfChain(topics, id, pick, values)
    ensures Conflicting(values) <==> Disagree(topics, id, pick)
  {
    hide PicksAt, Conflicting;
    ConflictingMeans(values);
    if v, w :| v in values && w in values && v.Some? && w.Some? && v != w {
      var j: nat :| j < |values| && values[j] == v;
      var k: nat :| k < |values| && values[k] == w;
      assert PicksAt(topics, id, pick, j) != PicksAt(topics, id, pick, k);
    }
    if Disagree(topics, id, pick) {
      var j: nat, k: nat :| PicksAt(topics, id, pick, j).Some? && PicksAt(topics, id, pick, k).Some?
        && PicksAt(topics, id, pick, j) != PicksAt(topics, id, pick, k);
      assert values[j] in values && values[k] in values;
    }
  }

  /** The context, read off the parent pointers: the nearest challenge and role on the way up, whether anything strictly
  above is deleted, whether two topics of the chain disagree, and whether the caller wrote the topic. */
  lemma ContextMeans(topics: Topics, id: Id, principal: Principal)
    requires Sound(TopicLinks(topics)) && id in topics
    ensures var context := ContextOf(topics, id, principal);
            && FirstOnWalk(topics, id, ChallengeOf, context.effectiveChallengeId)
            && FirstOnWalk(topics, id, RoleOf, context.effectiveRoleName)
            && (context.hasDeletedAncestor <==> DeletedAbove(topics, id))
            && (context.hasRestrictionConflict <==> Disagree(topics, id, ChallengeOf) || Disagree(topics, id, RoleOf))
            && (context.isTopicAuthor <==> principal.memberId == Some(topics[id].authorMemberId))
            && (topics[id].parentTopicId.Some? ==>
                  FirstOnWalk(topics, topics[id].parentTopicId.value, RoleOf, context.ancestorRoleName))
            && (topics[id].parentTopicId.None? ==> context.ancestorRoleName.None?)
  {
    hide Sound, TopicLinks, ChainNodes, FirstOnWalk, Disagree, DeletedAbove, Nearest, Conflicting, Others, OfChain;
    var nodes := ChainNodes(topics, id);
    ValuesOfChain(topics, id, ChallengeOf, Challenges(nodes));
    ValuesOfChain(topics, id, RoleOf, Roles(nodes));
    FirstOfChain(topics, id, ChallengeOf, Challenges(nodes));
    FirstOfChain(topics, id, RoleOf, Roles(nodes));
    ConflictOfChain(topics, id, ChallengeOf, Challenges(nodes));
    ConflictOfChain(topics, id, RoleOf, Roles(nodes));
    OthersIsTail(topics, id);
    DeletedOnChain(topics, id);
    if topics[id].parentTopicId.Some? {
      var parent := topics[id].parentTopicId.value;
      ChainOfChild(topics, id, parent);
      ValuesOfChain(topics, parent, RoleOf, Roles(nodes[1..]));
      FirstOfChain(topics, parent, RoleOf, Roles(nodes[1..]));
    } else {
      RootChain(topics, id);
      NothingNearest(Roles(nodes[1..]));
    }
  }

  lemma NothingNearest(values: seq<Option<Id>>)
    requires values == []
    ensures Nearest(values).None?
  {}

  lemma RootChain(topics: Topics, id: Id)
    requires Sound(TopicLinks(topics)) && id in topics && topics[id].parentTopicId.None?
    ensures |ChainNodes(topics, id)| == 1
  {
    hide Sound;
    SoundIsRooted(TopicLinks(topics), id);
    assert RootAt(TopicLinks(topics), id, 0);
    HeightIs(TopicLinks(topics), id, 0);
  }

  lemma DeletedOnChain(topics: Topics, id: Id)
    requires Sound(TopicLinks(topics)) && id in topics
    ensures DeletedAbove(topics, id) <==> exists n :: n in ChainNodes(topics, id)[1..] && n.topic.deletedAt.Some?
  {
    hide Sound, ChainNodes, DeletedAt;
    var nodes := ChainNodes(topics, id);
    if DeletedAbove(topics, id) {
      var k: nat :| DeletedAt(topics, id, k);
      WalkIsChain(topics, id, RoleOf, k);
      assert nodes[1..][k - 1] == nodes[k];
    }
    if n :| n in nodes[1..] && n.topic.deletedAt.Some? {
      var i :| 0 <= i < |nodes| - 1 && nodes[1..][i] == n;
      WalkIsChain(topics, id, RoleOf, i + 1);
      assert DeletedAt(topics, id, i + 1);
    }
  }

  lemma {:induction false} OthersElements(nodes: seq<Node>, id: Id)
    ensures forall n :: n in Others(nodes, id) <==> n in nodes && n.id != id
  {
    if nodes != [] {
      OthersElements(nodes[1..], id);
      assert nodes == [nodes[0]] + nodes[1..];
    }
  }

  lemma {:induction false} OthersKeepsAll(nodes: seq<Node>, id: Id)
    requires forall n :: n in nodes ==> n.id != id
    ensures Others(nodes, id) == nodes
  {
    if nodes != [] {
      assert nodes[0] in nodes;
      assert nodes == [nodes[0]] + nodes[1..];
      OthersKeepsAll(nodes[1..], id);
    }
  }

  /** No topic occurs again further up its own chain. */
  lemma ChainTailIsOthers(topics: Topics, id: Id)
    requires Sound(TopicLinks(topics)) && id in topics
    ensures forall n :: n in ChainNodes(topics, id)[1..] ==> n.id != id
  {
    hide TopicLinks, Climb, Rooted, RootAt;
    var nodes := ChainNodes(topics, id);
    forall n | n in nodes[1..] ensures n.id != id {
      var i :| 0 <= i < |nodes| - 1 && nodes[1..][i] == n;
      assert nodes[i + 1] == n;
      assert Climb(TopicLinks(topics), id, i + 1) == Some(Chain(TopicLinks(topics), id)[i + 1]);
    }
  }

  /** On a chain the strict ancestors are the tail. */
  lemma OthersIsTail(topics: Topics, id: Id)
    requires Sound(TopicLinks(topics)) && id in topics
    ensures Others(ChainNodes(topics, id), id) == ChainNodes(topics, id)[1..]
  {
    hide Sound, TopicLinks, Rooted;
    var nodes := ChainNodes(topics, id);
    ChainTailIsOthers(topics, id);
    OthersKeepsAll(nodes[1..], id);
    assert nodes == [nodes[0]] + nodes[1..];
  }

  /** The chain of a child is the child followed by its parent's chain. */
  lemma ChainOfChild(topics: Topics, id: Id, parent: Id)
    requires Sound(TopicLinks(topics)) && id in topics && topics[id].parentTopicId == Some(parent)
    ensures parent in topics && ChainNodes(topics, id)[1..] == ChainNodes(topics, parent)
  {
    hide Sound, TopicLinks, Rooted;
    var up := TopicLinks(topics);
    LinksAre(topics);
    SoundIsRooted(up, id);
    SoundKeepsParents(up, id);
    ParentIsOneHop(up, id);
    ChainSuffix(up, id, parent, 1);
    var tail, above := ChainNodes(topics, id)[1..], ChainNodes(topics, parent);
    forall i | 0 <= i < |tail| ensures tail[i] == above[i] {
      assert tail[i] == ChainNodes(topics, id)[i + 1];
    }
  }

  lemma SoundKeepsParents(up: Links<Id>, id: Id)
    requires Sound(up) && id in up && up[id].Some?
    ensures up[id].value in up
  {}

  lemma ParentIsOneHop(up: Links<Id>, id: Id)
    requires id in up && up[id].Some? && up[id].value in up
    ensures Climb(up, id, 1) == up[id]
  {}

  // ----- the loaders

  /** The rows of a closure answer joined to their topics, in answer order; rows of unknown topics are skipped. */
  ghost function Join(byId: Topics, rows: seq<ClosureRow>): seq<Node> {
    if rows == [] then []
    else
      var a := rows[|rows| - 1].ancestorTopicId;
      Join(byId, rows[..|rows| - 1]) + (if a in byId then [Node(a, byId[a])] else [])
  }

  lemma {:induction false} JoinAll(byId: Topics, rows: seq<ClosureRow>)
    requires forall r :: r in rows ==> r.ancestorTopicId in byId
    ensures |Join(byId, rows)| == |rows|
    ensures forall i :: 0 <= i < |rows| ==>
              Join(byId, rows)[i] == Node(rows[i].ancestorTopicId, byId[rows[i].ancestorTopicId])
  {
    if rows != [] {
      var init := rows[..|rows| - 1];
      JoinAll(byId, init);
      assert rows[|rows| - 1] in rows;
    }
  }

  /** The part of the topic table a batch loads holds every topic its answer mentions. */
  ghost predicate Covers(topics: Topics, byId: Topics, ids: set<Id>, answer: seq<ClosureRow>) {
    && (forall t :: t in byId ==> t in topics && byId[t] == topics[t])
    && (forall t :: t in ids && t in topics ==> t in byId)
    && (forall r :: r in answer && r.ancestorTopicId in topics ==> r.ancestorTopicId in byId)
  }

  /** Grouping the batch answer yields, for each topic, the rows of its own chain. */
  lemma BatchGroupIsChain(topics: Topics, byId: Topics, closure: set<ClosureRow>, ids: set<Id>,
                          answer: seq<ClosureRow>, id: Id)
    requires Sound(TopicLinks(topics)) && ClosureExact(TopicLinks(topics), closure)
    requires Answers(closure, ids, answer) && Covers(topics, byId, ids, answer) && id in ids && id in topics
    ensures Join(byId, RowsFor(answer, id)) == ChainNodes(topics, id)
  {
    hide Sound, TopicLinks, Rooted, ClosureExact, Answers, RowsFor, Climb;
    var up := TopicLinks(topics);
    LinksAre(topics);
    SoundIsRooted(up, id);
    AnswersMeans(closure, ids, answer);
    GroupIsChain(up, closure, ids, answer, id);
    RowsForElements(answer, id);
    var rows := ChainRows(up, id);
    forall r | r in rows ensures r.ancestorTopicId in byId {
      assert r in answer;
      var k :| 0 <= k < |rows| && rows[k] == r;
      assert Chain(up, id)[k] in up;
    }
    JoinAll(byId, rows);
    var nodes := ChainNodes(topics, id);
    forall k | 0 <= k < |rows| ensures Join(byId, rows)[k] == nodes[k] {
      assert rows[k] in rows;
      assert nodes[k].id == Chain(up, id)[k];
    }
  }

  function GroupOr(groups: map<Id, seq<Node>>, id: Id, default: seq<Node>): seq<Node> {
    if id in groups then groups[id] else default
  }

  lemma JoinStep(byId: Topics, answer: seq<ClosureRow>, i: nat, id: Id)
    requires i < |answer|
    ensures Join(byId, RowsFor(answer[..i + 1], id)) ==
            Join(byId, RowsFor(answer[..i], id)) +
            (if answer[i].descendantTopicId == id && answer[i].ancestorTopicId in byId
             then [Node(answer[i].ancestorTopicId, byId[answer[i].ancestorTopicId])] else [])
  {
    assert answer[..i + 1][..i] == answer[..i];
    var init := RowsFor(answer[..i], id);
    if answer[i].descendantTopicId == id {
      assert RowsFor(answer[..i + 1], id) == init + [answer[i]];
      assert (init + [answer[i]])[..|init|] == init;
    } else {
      assert RowsFor(answer[..i + 1], id) == init;
    }
  }

  /** The batched loader: two reads and one pass over a globally depth-ordered answer give every topic the
  same context as its own parent walk. */
  method LoadTopicContexts(topics: Topics, ghost closure: set<ClosureRow>, topicIds: seq<Id>, principal: Principal,
                           answer: seq<ClosureRow>) returns (contexts: map<Id, Context>)
    requires Sound(TopicLinks(topics)) && ClosureExact(TopicLinks(topics), closure)
    requires Answers(closure, Elements(topicIds), answer)
    ensures forall id :: id in contexts <==> id in topicIds && id in topics
    ensures forall id :: id in contexts ==> contexts[id] == ContextOf(topics, id, principal)
  {
    var byId := map t | t in topics && (t in topicIds || exists r :: r in answer && r.ancestorTopicId == t) :: topics[t];
    var ancestors := GroupAncestors(byId, answer);
    contexts := map[];
    for i := 0 to |topicIds|
      invariant forall id :: id in contexts <==> id in topicIds[..i] && id in topics
      invariant forall id :: id in contexts ==> contexts[id] == ContextOf(topics, id, principal)
    {
      var id := topicIds[i];
      assert topicIds[..i + 1] == topicIds[..i] + [id];
      if id in byId {
        BatchGroupIsChain(topics, byId, closure, Elements(topicIds), answer, id);
        assert id in ancestors;
        var chain := GroupOr(ancestors, id, [Node(id, byId[id])]);
        contexts := contexts[id := ContextFromAncestors(Node(id, byId[id]), chain, principal)];
      }
    }
    assert topicIds[..|topicIds|] == topicIds;
  }

  method GroupAncestors(byId: Topics, answer: seq<ClosureRow>) returns (groups: map<Id, seq<Node>>)
    ensures forall id :: GroupOr(groups, id, []) == Join(byId, RowsFor(answer, id))
  {
    hide *;
    groups := map[];
    NothingGrouped(byId, answer);
    for i := 0 to |answer|
      invariant GroupedTo(groups, byId, answer[..i])
    {
      GroupOne(groups, byId, answer, i);
      var row := answer[i];
      if row.ancestorTopicId in byId {
        var group := GroupOr(groups, row.descendantTopicId, []);
        groups := groups[row.descendantTopicId := group + [Node(row.ancestorTopicId, byId[row.ancestorTopicId])]];
      }
    }
    assert answer[..|answer|] == answer;
    GroupedMeans(groups, byId, answer);
  }

  /** Each descendant's group holds its topics, in answer order. */
  ghost predicate GroupedTo(groups: map<Id, seq<Node>>, byId: Topics, answer: seq<ClosureRow>) {
    forall id :: GroupOr(groups, id, []) == Join(byId, RowsFor(answer, id))
  }

  lemma NothingGrouped(byId: Topics, answer: seq<ClosureRow>)
    ensures GroupedTo(map[], byId, answer[..0])
  {}

  lemma GroupedMeans(groups: map<Id, seq<Node>>, byId: Topics, answer: seq<ClosureRow>)
    requires GroupedTo(groups, byId, answer)
    ensures forall id :: GroupOr(groups, id, []) == Join(byId, RowsFor(answer, id))
  {
    hide GroupOr, Join, RowsFor;
  }

  lemma GroupOne(groups: map<Id, seq<Node>>, byId: Topics, answer: seq<ClosureRow>, i: nat)
    requires i < |answer| && GroupedTo(groups, byId, answer[..i])
    ensures var row := answer[i];
            if row.ancestorTopicId in byId then
              GroupedTo(groups[row.descendantTopicId := GroupOr(groups, row.descendantTopicId, [])
                                                        + [Node(row.ancestorTopicId, byId[row.ancestorTopicId])]],
                        byId, answer[..i + 1])
            else GroupedTo(groups, byId, answer[..i + 1])
  {
    hide Join, RowsFor;
    var row := answer[i];
    var wider := if row.ancestorTopicId in byId then
      groups[row.descendantTopicId := GroupOr(groups, row.descendantTopicId, []) + [Node(row.ancestorTopicId, byId[row.ancestorTopicId])]]
    else groups;
    forall id ensures GroupOr(wider, id, []) == Join(byId, RowsFor(answer[..i + 1], id)) {
      JoinStep(byId, answer, i, id);
      assert GroupOr(groups, id, []) == Join(byId, RowsFor(answer[..i], id));
    }
  }

  /** The pointwise loader, with the query answer for its one topic. */
  method LoadTopicContext(topics: Topics, ghost closure: set<ClosureRow>, topicId: Id, principal: Principal,
                          answer: seq<ClosureRow>) returns (context: Result<Context, CommandError>)
    requires Sound(TopicLinks(topics)) && ClosureExact(TopicLinks(topics), closure)
    requires Answers(closure, {topicId}, answer)
    ensures context == if topicId in topics then Ok(ContextOf(topics, topicId, principal)) else Err(NotFound)
  {
    if topicId !in topics {
      return Err(NotFound);
    }
    var target := Node(topicId, topics[topicId]);
    AnswerIsChain(topics, closure, topicId, answer);
    var ancestors := if |answer| > 0
      then seq(|answer|, i requires 0 <= i < |answer| && answer[i].ancestorTopicId in topics =>
                 Node(answer[i].ancestorTopicId, topics[answer[i].ancestorTopicId]))
      else [target];
    assert ancestors == ChainNodes(topics, topicId);
    return Ok(ContextFromAncestors(target, ancestors, principal));
  }

  /** The answer for a single topic is its chain. */
  lemma AnswerIsChain(topics: Topics, closure: set<ClosureRow>, id: Id, answer: seq<ClosureRow>)
    requires Sound(TopicLinks(topics)) && ClosureExact(TopicLinks(topics), closure)
    requires Answers(closure, {id}, answer) && id in topics
    ensures |answer| == |ChainNodes(topics, id)| > 0
    ensures forall i :: 0 <= i < |answer| ==>
              && answer[i].ancestorTopicId in topics
              && ChainNodes(topics, id)[i] == Node(answer[i].ancestorTopicId, topics[answer[i].ancestorTopicId])
  {
    hide Sound, TopicLinks, Rooted, ClosureExact, Answers, RowsFor, Climb;
    var up := TopicLinks(topics);
    LinksAre(topics);
    SoundIsRooted(up, id);
    AnswersMeans(closure, {id}, answer);
    GroupIsChain(up, closure, {id}, answer, id);
    RowsForOnly(answer, id);
    forall i | 0 <= i < |answer| ensures answer[i].ancestorTopicId in topics {
      assert answer[i] == ChainRows(up, id)[i];
      assert Chain(up, id)[i] in up;
    }
  }

  lemma {:induction false} RowsForOnly(answer: seq<ClosureRow>, id: Id)
    requires forall r :: r in answer ==> r.descendantTopicId == id
    ensures RowsFor(answer, id) == answer
  {
    if answer != [] {
      var init := answer[..|answer| - 1];
      assert answer == init + [answer[|answer| - 1]];
      RowsForOnly(init, id);
    }
  }
}
