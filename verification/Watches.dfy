/** Who watches: the flag a reader is shown on a topic, and the list a new post is announced to.

The two are computed from different queries, in different services. They must tell the same story.
*/
module Watches {
  import opened Basics
  import opened ParentLinks
  import opened ForumState
  import opened ClosureTable
  import opened AccessTypes
  import opened TopicContext
  import opened CommandRuns
  import opened RestrictionRuns

  /** An assignment of a member to a challenge, with the lower-case name of its role. */
  datatype Resource = Resource(challengeId: Id, memberId: Id, roleName: string)

  datatype PreferenceKey = PreferenceKey(challengeId: Id, memberId: Id)

  datatype Preference = Preference(memberId: Id, watching: bool)

  datatype Facts = Facts(resources: set<Resource>, preferences: map<PreferenceKey, bool>)

  // ----- challenge-wide watches

  predicate Contains(text: string, part: string) {
    exists i :: 0 <= i && i + |part| <= |text| && text[i..][..|part|] == part
  }

  /** A text contains another if it is that text with something in front of it and something behind it. */
  lemma ContainsMeans(text: string, part: string)
    ensures Contains(text, part) <==> exists front: string, back: string :: text == front + part + back
  {
    if i :| 0 <= i && i + |part| <= |text| && text[i..][..|part|] == part {
      assert text == text[..i] + part + text[i + |part|..];
    }
    if front: string, back: string :| text == front + part + back {
      assert text[|front|..][..|part|] == part;
    }
  }

  /** Submitters and every kind of copilot watch by default. */
  predicate WatchesByDefault(roleName: string) {
    roleName == "submitter" || Contains(roleName, "copilot")
  }

  /** The default watchers of a challenge; a non-empty member id narrows the query to that member. */
  function DefaultWatchers(resources: set<Resource>, challengeId: Id, memberId: Option<Id>): set<Id> {
    set r | r in resources && r.challengeId == challengeId && WatchesByDefault(r.roleName)
            && (memberId.None? || memberId.value.text == "" || r.memberId == memberId.value) :: r.memberId
  }

  /** An explicit choice, or else the default. */
  predicate IsWatching(facts: Facts, challengeId: Id, memberId: Id) {
    var key := PreferenceKey(challengeId, memberId);
    if key in facts.preferences then facts.preferences[key]
    else memberId in DefaultWatchers(facts.resources, challengeId, Some(memberId))
  }

  /** A member watches a challenge's forum by their explicit choice, or else exactly if some assignment of theirs to it is as a
  submitter or as some kind of copilot. */
  lemma IsWatchingMeans(facts: Facts, challengeId: Id, memberId: Id)
    ensures var key := PreferenceKey(challengeId, memberId);
            IsWatching(facts, challengeId, memberId) <==>
              if key in facts.preferences then facts.preferences[key]
              else exists r :: r in facts.resources && r.challengeId == challengeId && r.memberId == memberId
                               && (r.roleName == "submitter" || Contains(r.roleName, "copilot"))
  {
    hide Contains;
    var watchers := DefaultWatchers(facts.resources, challengeId, Some(memberId));
    if r :| r in facts.resources && r.challengeId == challengeId && r.memberId == memberId
            && (r.roleName == "submitter" || Contains(r.roleName, "copilot")) {
      assert r.memberId in watchers;
    }
  }

  /** An answer to "all preferences of this challenge". */
  ghost predicate ListsPreferences(facts: Facts, challengeId: Id, rows: seq<Preference>) {
    && (forall i, j :: 0 <= i < j < |rows| ==> rows[i].memberId != rows[j].memberId)
    && (forall r :: r in rows ==>
          PreferenceKey(challengeId, r.memberId) in facts.preferences
          && facts.preferences[PreferenceKey(challengeId, r.memberId)] == r.watching)
    && (forall key :: key in facts.preferences && key.challengeId == challengeId ==>
          Preference(key.memberId, facts.preferences[key]) in rows)
  }

  /** There is such an answer for every challenge. */
  lemma SomePreferences(facts: Facts, challengeId: Id) returns (rows: seq<Preference>)
    ensures ListsPreferences(facts, challengeId, rows)
  {
    rows := PreferencesOf(facts, (set key | key in facts.preferences && key.challengeId == challengeId), challengeId);
  }

  lemma {:induction false} PreferencesOf(facts: Facts, keys: set<PreferenceKey>, challengeId: Id) returns (rows: seq<Preference>)
    requires forall key :: key in keys ==> key in facts.preferences && key.challengeId == challengeId
    ensures forall i, j :: 0 <= i < j < |rows| ==> rows[i].memberId != rows[j].memberId
    ensures forall r :: r in rows ==> PreferenceKey(challengeId, r.memberId) in keys
                                      && facts.preferences[PreferenceKey(challengeId, r.memberId)] == r.watching
    ensures forall key :: key in keys ==> Preference(key.memberId, facts.preferences[key]) in rows
  {
    rows := [];
    if keys != {} {
      var key :| key in keys;
      var rest := PreferencesOf(facts, keys - {key}, challengeId);
      assert key == PreferenceKey(challengeId, key.memberId);
      rows := rest + [Preference(key.memberId, facts.preferences[key])];
    }
  }

  /** What the first `n` preferences make of the defaults. */
  ghost predicate Adjusted(defaults: set<Id>, rows: seq<Preference>, n: nat, watchers: set<Id>)
    requires n <= |rows|
  {
    forall m :: m in watchers <==>
      (m in defaults || Preference(m, true) in rows[..n]) && Preference(m, false) !in rows[..n]
  }

  lemma AdjustedStep(defaults: set<Id>, rows: seq<Preference>, n: nat, watchers: set<Id>)
    requires n < |rows| && Adjusted(defaults, rows, n, watchers)
    requires forall i, j :: 0 <= i < j < |rows| ==> rows[i].memberId != rows[j].memberId
    ensures Adjusted(defaults, rows, n + 1, if rows[n].watching then watchers + {rows[n].memberId}
                                            else watchers - {rows[n].memberId})
  {
    var row := rows[n];
    assert rows[..n + 1] == rows[..n] + [row];
    assert Preference(row.memberId, false) !in rows[..n] && Preference(row.memberId, true) !in rows[..n];
  }

  lemma AdjustedIsWatching(facts: Facts, challengeId: Id, rows: seq<Preference>, watchers: set<Id>, m: Id)
    requires ListsPreferences(facts, challengeId, rows)
    requires Adjusted(DefaultWatchers(facts.resources, challengeId, None), rows, |rows|, watchers)
    ensures m in watchers <==> IsWatching(facts, challengeId, m)
  {
    assert rows[..|rows|] == rows;
    var key := PreferenceKey(challengeId, m);
    if key in facts.preferences {
      assert Preference(m, facts.preferences[key]) in rows;
    }
  }

  /** Starts from the defaults and lets every explicit choice add or remove its member: the result is exactly the
  members the single-member test calls watching. */
  method GetWatcherMemberIds(facts: Facts, challengeId: Id, preferences: seq<Preference>) returns (watchers: set<Id>)
    requires ListsPreferences(facts, challengeId, preferences)
    ensures forall m :: m in watchers <==> IsWatching(facts, challengeId, m)
  {
    hide IsWatching, DefaultWatchers;
    ghost var defaults := DefaultWatchers(facts.resources, challengeId, None);
    watchers := DefaultWatchers(facts.resources, challengeId, None);
    for n := 0 to |preferences|
      invariant Adjusted(defaults, preferences, n, watchers)
    {
      AdjustedStep(defaults, preferences, n, watchers);
      if preferences[n].watching {
        watchers := watchers + {preferences[n].memberId};
      } else {
        watchers := watchers - {preferences[n].memberId};
      }
    }
    forall m ensures m in watchers <==> IsWatching(facts, challengeId, m) {
      AdjustedIsWatching(facts, challengeId, preferences, watchers, m);
    }
  }

  // ----- the flag shown to a reader

  /** A summary row; `watching` is the reader's explicit choice for the topic, if any. */
  class SummaryRow {
    const topicId: Id
    var watching: Option<bool>

    constructor (topicId: Id, watching: Option<bool>)
      ensures this.topicId == topicId && this.watching == watching
    {
      this.topicId, this.watching := topicId, watching;
    }
  }

  /** Readers who inherit forum-wide watches. */
  predicate Inherits(challengeId: Option<Id>, principal: Principal) {
    challengeId.Some? && principal.memberId.Some? && principal.memberId.value.text != "" && !principal.isMachine
  }

  function Inherited(facts: Facts, challengeId: Option<Id>, principal: Principal, stored: Option<bool>): Option<bool> {
    if stored.None? && Inherits(challengeId, principal)
    then Some(IsWatching(facts, challengeId.value, principal.memberId.value))
    else stored
  }

  /** The flag of the response: an absent choice reads as not watching. */
  predicate ShownFlag(facts: Facts, challengeId: Option<Id>, principal: Principal, stored: Option<bool>) {
    Inherited(facts, challengeId, principal, stored) == Some(true)
  }

  /** Fills in the inherited choice where a row has none, with one lookup for the batch. */
  method ApplyChallengeWatch(facts: Facts, rows: seq<SummaryRow>, challengeId: Option<Id>, principal: Principal)
    modifies rows
    ensures forall r :: r in rows ==> r.watching == Inherited(facts, challengeId, principal, old(r.watching))
    // only members who are not machines inherit, only the flag of a challenge, and only where the row has no choice
    ensures forall r :: r in rows && (old(r.watching).Some? || challengeId.None? || principal.isMachine
                                      || principal.memberId.None? || principal.memberId.value.text == "") ==>
              r.watching == old(r.watching)
    ensures challengeId.Some? && !principal.isMachine && principal.memberId.Some? && principal.memberId.value.text != "" ==>
              forall r :: r in rows && old(r.watching).None? ==>
                r.watching == Some(IsWatching(facts, challengeId.value, principal.memberId.value))
  {
    hide IsWatching;
    if !Inherits(challengeId, principal) {
      return;
    }
    var inheritedRows: seq<SummaryRow> := [];
    for i := 0 to |rows|
      invariant forall r :: r in inheritedRows ==> r in rows && r.watching.None?
      invariant forall k :: 0 <= k < i && rows[k].watching.None? ==> rows[k] in inheritedRows
    {
      if rows[i].watching.None? {
        inheritedRows := inheritedRows + [rows[i]];
      }
    }
    if |inheritedRows| == 0 {
      return;
    }
    var watching := IsWatching(facts, challengeId.value, principal.memberId.value);
    for i := 0 to |inheritedRows|
      invariant forall r :: r in rows && r !in inheritedRows[..i] ==> r.watching == old(r.watching)
      invariant forall r :: r in inheritedRows[..i] ==> r.watching == Some(watching)
    {
      assert inheritedRows[i] in inheritedRows;
      inheritedRows[i].watching := Some(watching);
    }
    assert inheritedRows[..|inheritedRows|] == inheritedRows;
  }

  // ----- the list a post is announced to

  /** The topic and every topic the index names as its ancestor. */
  function WatchedTopicIds(closure: set<ClosureRow>, topicId: Id): set<Id> {
    {topicId} + (set r | r in closure && r.descendantTopicId == topicId :: r.ancestorTopicId)
  }

  function ResolveWatcherMemberIds(watches: map<MemberKey, bool>, closure: set<ClosureRow>, challengeWatchers: set<Id>,
                                   topicId: Id, author: Id): set<Id>
  {
    var ids := WatchedTopicIds(closure, topicId);
    var watchRows := set k | k in watches && k.target in ids && k.memberId != author;
    var optOuts := set k | k in watchRows && k.target == topicId && !watches[k] :: k.memberId;
    var candidates := (set k | k in watchRows && watches[k] :: k.memberId) + challengeWatchers;
    set m | m in candidates && m != author && m !in optOuts
  }

  ghost predicate IsAbove(topics: Topics, a: Id, topicId: Id) {
    exists k: nat :: k > 0 && Climb(TopicLinks(topics), topicId, k) == Some(a)
  }

  /** The member watches a topic strictly above this one. */
  ghost predicate WatchesAncestor(f: Forum, topicId: Id, memberId: Id) {
    exists a :: IsAbove(f.topics, a, topicId) && MemberKey(a, memberId) in f.watches && f.watches[MemberKey(a, memberId)]
  }

  function Choice(watches: map<MemberKey, bool>, topicId: Id, memberId: Id): Option<bool> {
    if MemberKey(topicId, memberId) in watches then Some(watches[MemberKey(topicId, memberId)]) else None
  }

  /** The challenge-wide watchers the notifier starts from. */
  ghost predicate ChallengeWatchers(facts: Facts, challengeId: Option<Id>, watchers: set<Id>) {
    forall m :: m in watchers <==> challengeId.Some? && IsWatching(facts, challengeId.value, m)
  }

  lemma WatchedIdsAre(topics: Topics, closure: set<ClosureRow>, topicId: Id, a: Id)
    requires ClosureExact(TopicLinks(topics), closure) && topicId in topics
    ensures a in WatchedTopicIds(closure, topicId) <==> a == topicId || IsAbove(topics, a, topicId)
  {
    if a in WatchedTopicIds(closure, topicId) && a != topicId {
      var r :| r in closure && r.descendantTopicId == topicId && r.ancestorTopicId == a;
      assert ClosureRow(r.ancestorTopicId, r.descendantTopicId, r.depth) in closure;
      assert r.depth > 0;
    }
    if IsAbove(topics, a, topicId) {
      var k: nat :| k > 0 && Climb(TopicLinks(topics), topicId, k) == Some(a);
      assert ClosureRow(a, topicId, k) in closure;
      assert ClosureRow(a, topicId, k).ancestorTopicId in WatchedTopicIds(closure, topicId);
    }
  }

  /** Who is told of a post, read off the watch rows: anyone but its author who has not chosen to ignore the topic and who
  watches it, or watches the forum of its challenge, or watches something above it. */
  lemma NotifiedMeans(f: Forum, closure: set<ClosureRow>, facts: Facts, challengeId: Option<Id>, watchers: set<Id>,
                      topicId: Id, author: Id, m: Id)
    requires ClosureExact(TopicLinks(f.topics), closure) && topicId in f.topics
    requires ChallengeWatchers(facts, challengeId, watchers)
    ensures var key := MemberKey(topicId, m);
            m in ResolveWatcherMemberIds(f.watches, closure, watchers, topicId, author) <==>
              && m != author && (key in f.watches ==> f.watches[key])
              && (|| key in f.watches
                  || (challengeId.Some? && IsWatching(facts, challengeId.value, m))
                  || WatchesAncestor(f, topicId, m))
  {
    hide IsWatching, ClosureExact, WatchedTopicIds, IsAbove;
    var ids := WatchedTopicIds(closure, topicId);
    forall k | k in f.watches ensures k.target in ids <==> k.target == topicId || IsAbove(f.topics, k.target, topicId) {
      WatchedIdsAre(f.topics, closure, topicId, k.target);
    }
    WatchedIdsAre(f.topics, closure, topicId, topicId);
    if m != author && WatchesAncestor(f, topicId, m) {
      var a :| IsAbove(f.topics, a, topicId) && MemberKey(a, m) in f.watches && f.watches[MemberKey(a, m)];
      assert MemberKey(a, m).target in ids;
    }
    if MemberKey(topicId, m) in f.watches {
      assert MemberKey(topicId, m).target in ids;
    }
  }

  /** Everyone in the list is told once; a member other than the author is told exactly when the topic shows them as
  watching, or they made no choice for it and watch something above it. */
  lemma NotifiedIsShown(f: Forum, closure: set<ClosureRow>, facts: Facts, challengeId: Option<Id>, watchers: set<Id>,
                        topicId: Id, author: Id, principal: Principal)
    requires ClosureExact(TopicLinks(f.topics), closure) && topicId in f.topics
    requires ChallengeWatchers(facts, challengeId, watchers)
    requires principal.memberId.Some? && principal.memberId.value.text != "" && !principal.isMachine
    ensures var m := principal.memberId.value;
            m in ResolveWatcherMemberIds(f.watches, closure, watchers, topicId, author) <==>
              && m != author
              && (|| ShownFlag(facts, challengeId, principal, Choice(f.watches, topicId, m))
                  || (Choice(f.watches, topicId, m).None? && WatchesAncestor(f, topicId, m)))
  {
    hide IsWatching, ClosureExact, WatchedTopicIds, IsAbove;
    var m := principal.memberId.value;
    var ids := WatchedTopicIds(closure, topicId);
    forall k | k in f.watches ensures k.target in ids <==> k.target == topicId || IsAbove(f.topics, k.target, topicId) {
      WatchedIdsAre(f.topics, closure, topicId, k.target);
    }
    WatchedIdsAre(f.topics, closure, topicId, topicId);
    if Choice(f.watches, topicId, m).None? && m != author && WatchesAncestor(f, topicId, m) {
      var a :| IsAbove(f.topics, a, topicId) && MemberKey(a, m) in f.watches && f.watches[MemberKey(a, m)];
      assert MemberKey(a, m).target in ids;
    }
    if Choice(f.watches, topicId, m) == Some(true) {
      assert MemberKey(topicId, m).target in ids;
    }
  }

  // ----- challenge topics

  /** Where challenge topics stand alone, a topic without a challenge of its own inherits none. */
  lemma NoChallengeToInherit(topics: Topics, t: Id, principal: Principal)
    requires Sound(TopicLinks(topics)) && ChallengeTopicsStandAlone(topics) && t in topics && topics[t].challengeId.None?
    ensures ContextOf(topics, t, principal).effectiveChallengeId.None?
  {
    hide Sound, Conflicting, Others;
    var nodes := ChainNodes(topics, t);
    forall i | 0 <= i < |nodes| ensures nodes[i].topic.challengeId.None? {
      if i > 0 {
        AncestorsHaveChild(topics, t, i);
      }
    }
    forall v | v in Challenges(nodes) ensures v.None? {}
    NearestIsPresent(Challenges(nodes));
  }

  lemma AncestorsHaveChild(topics: Topics, t: Id, i: nat)
    requires Sound(TopicLinks(topics)) && ChallengeTopicsStandAlone(topics) && t in topics
    requires 0 < i < |ChainNodes(topics, t)|
    ensures ChainNodes(topics, t)[i].topic.challengeId.None?
  {
    hide Sound;
    var up := TopicLinks(topics);
    var chain := Chain(up, t);
    ClimbNext(up, t, i - 1);
    assert up[chain[i - 1]] == Some(chain[i]);
  }

  /** A topic that has, or inherits, a challenge is a root. */
  lemma ChallengeTopicIsRoot(topics: Topics, t: Id, principal: Principal)
    requires Sound(TopicLinks(topics)) && ChallengeTopicsStandAlone(topics) && t in topics
    requires ContextOf(topics, t, principal).effectiveChallengeId.Some?
    ensures topics[t].parentTopicId.None?
  {
    hide Sound, ContextOf;
    if topics[t].challengeId.None? {
      NoChallengeToInherit(topics, t, principal);
    }
  }

  /** On every challenge topic of every reachable state, whatever the interleaving: a member who is shown as watching,
  and is not the author of the post, is exactly a member who is told of it. */
  lemma ChallengeWatchersAgree(s: Sys, events: seq<Event>, closure: set<ClosureRow>, facts: Facts, watchers: set<Id>,
                               t: Id, author: Id, principal: Principal)
    requires WellFormed(s.forum) && ChallengeSafe(s)
    requires var f := Run(s, events).forum;
             && ClosureExact(TopicLinks(f.topics), closure) && t in f.topics && Sound(TopicLinks(f.topics))
             && ContextOf(f.topics, t, principal).effectiveChallengeId.Some?
             && ChallengeWatchers(facts, ContextOf(f.topics, t, principal).effectiveChallengeId, watchers)
    requires principal.memberId.Some? && principal.memberId.value.text != "" && !principal.isMachine
    ensures var f, m := Run(s, events).forum, principal.memberId.value;
            m in ResolveWatcherMemberIds(f.watches, closure, watchers, t, author) <==>
              && m != author
              && ShownFlag(facts, ContextOf(f.topics, t, principal).effectiveChallengeId, principal, Choice(f.watches, t, m))
  {
    hide *;
    ChallengeTopicsStandAloneAlways(s, events);
    ChallengeSafeMeans(Run(s, events));
    var f := Run(s, events).forum;
    ChallengeTopicIsRoot(f.topics, t, principal);
    NotifiedIsShown(f, closure, facts, ContextOf(f.topics, t, principal).effectiveChallengeId, watchers, t, author, principal);
    RootHasNothingAbove(f, t, principal.memberId.value);
  }

  lemma RootHasNothingAbove(f: Forum, t: Id, memberId: Id)
    requires t in f.topics && f.topics[t].parentTopicId.None?
    ensures !WatchesAncestor(f, t, memberId)
  {}
}
