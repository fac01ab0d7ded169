/** Import of one legacy discussion's replies.

The source rows form an arbitrary graph: a reply may name a missing parent, itself, or a reply that leads
back to it. The importer walks it depth first, stopping at unmatched authors and failed writes. The
specification below, `Fate`, never mentions a traversal: it says what must happen to a reply from its own
parent chain alone.
*/
module ReplyImport {
  import opened Basics
  import opened ParentLinks

  datatype Reply = Reply(replyId: Id, parentReplyId: Option<Id>)

  /** The polymorphic parent written on an imported post. */
  datatype Target = TopicTarget(topicId: Id) | PostTarget(postId: Id)

  datatype SkipReason = UnmatchedReplyAuthor | AncestorReplyFailed | ParentReplyUnavailable

  datatype Fate = Imported(postId: Id) | Skipped(reason: SkipReason) | Failed

  datatype Record = Record(replyId: Id, fate: Fate)

  datatype Write = Write(replyId: Id, target: Target, postId: Id)

  /** What the importer cannot see: whether the author of a reply maps to a member, and the id of the
  post its write creates (`None` when the write throws). */
  datatype World = World(matched: Id -> bool, write: Id -> Option<Id>)

  ghost predicate DistinctReplies(replies: seq<Reply>) {
    forall i, j :: 0 <= i < j < |replies| ==> replies[i].replyId != replies[j].replyId
  }

  ghost function LinksOf(replies: seq<Reply>): (up: Links<Id>)
    requires DistinctReplies(replies)
    ensures forall r :: r in replies ==> r.replyId in up && up[r.replyId] == r.parentReplyId
    ensures forall id :: id in up ==> exists r :: r in replies && r.replyId == id
  {
    map r | r in replies :: r.replyId := r.parentReplyId
  }

  /** What happens to a reply whose parent (or topic) is available. */
  ghost function Own(world: World, id: Id): Fate {
    if !world.matched(id) then Skipped(UnmatchedReplyAuthor)
    else match world.write(id)
      case Some(postId) => Imported(postId)
      case None => Failed
  }

  /** What a parent's fate leaves of its child's. */
  ghost function Inherit(parent: Fate, own: Fate): Fate {
    match parent
    case Imported(_) => own
    case Skipped(reason) => Skipped(reason)
    case Failed => Skipped(AncestorReplyFailed)
  }

  /** The fate of a reply that is `k` hops below a direct reply to the topic. */
  ghost function FateAt(up: Links<Id>, world: World, id: Id, k: nat): Fate
    requires RootAt(up, id, k)
    decreases k
  {
    if k == 0 then Own(world, id)
    else Inherit(FateAt(up, world, up[id].value, k - 1), Own(world, id))
  }

  /** The fate of any reply: decided down its chain from the topic, or unavailable when the chain
  meets a missing reply or runs in a circle. */
  ghost function FateOf(up: Links<Id>, world: World, id: Id): Fate {
    if Rooted(up, id) then FateAt(up, world, id, Height(up, id))
    else Skipped(ParentReplyUnavailable)
  }

  /** One step of the fate: a reply's fate follows from its parent's. */
  lemma FateStep(up: Links<Id>, world: World, id: Id)
    requires id in up
    ensures up[id].None? ==> FateOf(up, world, id) == Own(world, id)
    ensures up[id].Some? && up[id].value in up ==>
              FateOf(up, world, id) == Inherit(FateOf(up, world, up[id].value), Own(world, id))
    ensures up[id].Some? && up[id].value !in up ==>
              FateOf(up, world, id) == Skipped(ParentReplyUnavailable)
  {
    if up[id].None? {
      assert RootAt(up, id, 0);
      HeightIs(up, id, 0);
    } else if Rooted(up, id) {
      var h := Height(up, id);
      assert h > 0;
      assert RootAt(up, up[id].value, h - 1);
      HeightIs(up, up[id].value, h - 1);
    } else if up[id].value in up && Rooted(up, up[id].value) {
      var h := Height(up, up[id].value);
      assert RootAt(up, id, h + 1);
    }
  }

  /** A reply is imported exactly when its chain reaches the topic through replies that all have a matched
  author and a successful write, itself included. */
  lemma {:induction false} ImportedIffChainGood(up: Links<Id>, world: World, id: Id)
    requires id in up
    ensures FateOf(up, world, id).Imported? <==>
            exists k: nat :: RootAt(up, id, k) && ChainGood(up, world, id, k)
  {
    if Rooted(up, id) {
      var h := Height(up, id);
      FateAtGood(up, world, id, h);
      forall k: nat | RootAt(up, id, k) ensures k == h { RootUnique(up, id, k, h); }
    }
  }

  ghost predicate ChainGood(up: Links<Id>, world: World, id: Id, k: nat) {
    forall i: nat :: i <= k ==>
      var a := Climb(up, id, i);
      a.Some? && world.matched(a.value) && world.write(a.value).Some?
  }

  lemma {:induction false} FateAtGood(up: Links<Id>, world: World, id: Id, k: nat)
    requires RootAt(up, id, k)
    ensures FateAt(up, world, id, k).Imported? <==> ChainGood(up, world, id, k)
    ensures FateAt(up, world, id, k).Imported? ==>
              Some(FateAt(up, world, id, k).postId) == world.write(id)
    decreases k
  {
    assert Climb(up, id, 0) == Some(id) by { ClimbPrefix(up, id, 0, k); }
    if k > 0 {
      var p := up[id].value;
      FateAtGood(up, world, p, k - 1);
      forall i: nat | i < k ensures Climb(up, id, i + 1) == Climb(up, p, i) {}
      if ChainGood(up, world, id, k) {
        forall i: nat | i <= k - 1 ensures Climb(up, p, i) == Climb(up, id, i + 1) {}
        assert ChainGood(up, world, p, k - 1);
      }
      if ChainGood(up, world, p, k - 1) && world.matched(id) && world.write(id).Some? {
        forall i: nat | i <= k
          ensures var a := Climb(up, id, i);
                  a.Some? && world.matched(a.value) && world.write(a.value).Some?
        {
          if i > 0 { assert Climb(up, id, i) == Climb(up, p, i - 1); }
        }
      }
    }
  }

  /** The reply `j` hops up has a matched author and a successful write. */
  ghost predicate GoodAt(up: Links<Id>, world: World, id: Id, j: nat) {
    var a := Climb(up, id, j);
    a.Some? && world.matched(a.value) && world.write(a.value).Some?
  }

  /** Every reply from `from` hops up to the direct reply, `k` hops up, is good. */
  ghost predicate GoodFrom(up: Links<Id>, world: World, id: Id, from: nat, k: nat) {
    forall i: nat :: from <= i <= k ==> GoodAt(up, world, id, i)
  }

  /** The topmost reply of the chain that is unmatched, or whose write throws, is `a`, `j` hops up. */
  ghost predicate TopmostBad(up: Links<Id>, world: World, id: Id, j: nat, k: nat, a: Id) {
    && RootAt(up, id, k) && j <= k && Climb(up, id, j) == Some(a)
    && !(world.matched(a) && world.write(a).Some?) && GoodFrom(up, world, id, j + 1, k)
  }

  /** The topmost bad reply of a chain decides everything from itself down: unmatched, it and all replies below are skipped as
  unmatched; matched with a write that throws, it fails, and all replies below are skipped for that. */
  lemma TopmostBadDecides(up: Links<Id>, world: World, id: Id, j: nat, k: nat, a: Id)
    requires TopmostBad(up, world, id, j, k, a)
    ensures !world.matched(a) ==> FateOf(up, world, id) == Skipped(UnmatchedReplyAuthor)
    ensures world.matched(a) && j == 0 ==> a == id && FateOf(up, world, id) == Failed
    ensures world.matched(a) && j > 0 ==> FateOf(up, world, id) == Skipped(AncestorReplyFailed)
  {
    HeightIs(up, id, k);
    FateBelowBad(up, world, id, j, k, a);
  }

  lemma {:induction false} FateBelowBad(up: Links<Id>, world: World, id: Id, j: nat, k: nat, a: Id)
    requires TopmostBad(up, world, id, j, k, a)
    ensures !world.matched(a) ==> FateAt(up, world, id, k) == Skipped(UnmatchedReplyAuthor)
    ensures world.matched(a) && j == 0 ==> a == id && FateAt(up, world, id, k) == Failed
    ensures world.matched(a) && j > 0 ==> FateAt(up, world, id, k) == Skipped(AncestorReplyFailed)
    decreases k
  {
    assert Climb(up, id, 0) == Some(id) by { ClimbPrefix(up, id, 0, k); }
    if k > 0 {
      var p := up[id].value;
      GoodAbove(up, world, id, p, j, k);
      if j > 0 {
        assert Climb(up, p, j - 1) == Some(a);
        FateBelowBad(up, world, p, j - 1, k - 1, a);
      } else {
        FateAtGood(up, world, p, k - 1);
      }
    }
  }

  /** Goodness seen from the parent. */
  lemma GoodAbove(up: Links<Id>, world: World, id: Id, p: Id, j: nat, k: nat)
    requires 0 < k && id in up && up[id] == Some(p) && GoodFrom(up, world, id, j + 1, k)
    ensures GoodFrom(up, world, p, j, k - 1) && (j == 0 ==> ChainGood(up, world, p, k - 1))
  {
    forall i: nat | j <= i <= k - 1 ensures GoodAt(up, world, p, i) {
      assert GoodAt(up, world, id, i + 1);
      assert Climb(up, id, i + 1) == Climb(up, p, i);
    }
    if j == 0 {
      forall i: nat | i <= k - 1
        ensures var a := Climb(up, p, i); a.Some? && world.matched(a.value) && world.write(a.value).Some?
      {
        assert GoodAt(up, world, p, i);
      }
    }
  }

  /** A reply whose chain is good all the way is imported as the post its own write created. */
  lemma GoodChainIsImported(up: Links<Id>, world: World, id: Id, k: nat)
    requires RootAt(up, id, k) && GoodFrom(up, world, id, 0, k)
    ensures FateOf(up, world, id).Imported? && world.write(id) == Some(FateOf(up, world, id).postId)
  {
    HeightIs(up, id, k);
    forall i: nat | i <= k
      ensures var a := Climb(up, id, i); a.Some? && world.matched(a.value) && world.write(a.value).Some?
    {
      assert GoodAt(up, world, id, i);
    }
    FateAtGood(up, world, id, k);
  }

  /** There is no other case: a chain ends nowhere, and the reply is unavailable; or it is good; or it has a topmost bad reply. */
  lemma FateCases(up: Links<Id>, world: World, id: Id) returns (j: nat, k: nat)
    requires id in up
    ensures !Rooted(up, id) ==> FateOf(up, world, id) == Skipped(ParentReplyUnavailable)
    ensures Rooted(up, id) ==>
              || (RootAt(up, id, k) && GoodFrom(up, world, id, 0, k))
              || exists a :: TopmostBad(up, world, id, j, k, a)
  {
    j, k := 0, 0;
    if Rooted(up, id) {
      k := Height(up, id);
      j := LastBad(up, world, id, k, k + 1);
    }
  }

  /** Going down from hop `n`, the first reply that is not good, if there is one. */
  lemma {:induction false} LastBad(up: Links<Id>, world: World, id: Id, k: nat, n: nat) returns (j: nat)
    requires RootAt(up, id, k) && n <= k + 1 && GoodFrom(up, world, id, n, k)
    ensures GoodFrom(up, world, id, 0, k) || exists a :: TopmostBad(up, world, id, j, k, a)
  {
    j := 0;
    if n > 0 {
      ClimbPrefix(up, id, n - 1, k);
      if GoodAt(up, world, id, n - 1) {
        j := LastBad(up, world, id, k, n - 1);
      } else {
        j := n - 1;
        assert TopmostBad(up, world, id, j, k, Climb(up, id, n - 1).value);
      }
    }
  }

  /** The replies that name `key` as their parent, in source order. */
  ghost function ChildrenOf(replies: seq<Reply>, key: Option<Id>): seq<Reply> {
    if replies == [] then []
    else
      var last := replies[|replies| - 1];
      ChildrenOf(replies[..|replies| - 1], key) + (if last.parentReplyId == key then [last] else [])
  }

  lemma {:induction false} ChildrenOfElements(replies: seq<Reply>, key: Option<Id>)
    ensures forall r :: r in ChildrenOf(replies, key) <==> r in replies && r.parentReplyId == key
  {
    if replies != [] {
      ChildrenOfElements(replies[..|replies| - 1], key);
      assert replies == replies[..|replies| - 1] + [replies[|replies| - 1]];
    }
  }

  function Lookup(children: map<Option<Id>, seq<Reply>>, key: Option<Id>): seq<Reply> {
    if key in children then children[key] else []
  }

  /** Groups the rows by the parent they name. */
  method GroupByParent(replies: seq<Reply>) returns (children: map<Option<Id>, seq<Reply>>)
    ensures forall key :: Lookup(children, key) == ChildrenOf(replies, key)
  {
    children := map[];
    for i := 0 to |replies|
      invariant forall key :: Lookup(children, key) == ChildrenOf(replies[..i], key)
    {
      assert replies[..i + 1][..i] == replies[..i];
      var key := replies[i].parentReplyId;
      children := children[key := Lookup(children, key) + [replies[i]]];
    }
    assert replies[..|replies|] == replies;
  }

  /** The rows already visited contain every row that hangs from one of them. */
  ghost predicate ChildrenVisited(replies: seq<Reply>, rows: set<Id>, visited: set<Id>) {
    forall r :: r in replies && r.parentReplyId.Some? && r.parentReplyId.value in rows ==> r.replyId in visited
  }

  lemma {:induction false} RootedAreVisited(replies: seq<Reply>, visited: set<Id>, id: Id, k: nat)
    requires DistinctReplies(replies)
    requires forall r :: r in replies && r.parentReplyId.None? ==> r.replyId in visited
    requires ChildrenVisited(replies, visited, visited)
    requires RootAt(LinksOf(replies), id, k)
    ensures id in visited
    decreases k
  {
    var up := LinksOf(replies);
    ClimbPrefix(up, id, 0, k);
    var r :| r in replies && r.replyId == id;
    if k > 0 {
      RootedAreVisited(replies, visited, up[id].value, k - 1);
    }
  }

  /** The fates of all the replies of one discussion. */
  ghost function FateTable(up: Links<Id>, world: World): map<Id, Fate> {
    map id | id in up :: FateOf(up, world, id)
  }

  /** The table follows the parent links one step at a time. */
  ghost predicate FatesOk(up: Links<Id>, world: World, fates: map<Id, Fate>) {
    && fates.Keys == up.Keys
    && forall id :: id in up ==>
         fates[id] == match up[id]
                      case None => Own(world, id)
                      case Some(p) =>
                        if p in up then Inherit(fates[p], Own(world, id)) else Skipped(ParentReplyUnavailable)
  }

  lemma FatesFollow(up: Links<Id>, world: World)
    ensures FatesOk(up, world, FateTable(up, world))
  {
    forall id | id in up
      ensures FateTable(up, world)[id] ==
              match up[id]
              case None => Own(world, id)
              case Some(p) =>
                if p in up then Inherit(FateTable(up, world)[p], Own(world, id)) else Skipped(ParentReplyUnavailable)
    {
      FateStep(up, world, id);
    }
  }

  ghost predicate VisitedUpTo(rows: seq<Reply>, n: nat, visited: set<Id>) {
    n <= |rows| && forall j :: 0 <= j < n ==> rows[j].replyId in visited
  }

  lemma VisitedOneMore(rows: seq<Reply>, n: nat, before: set<Id>, after: set<Id>)
    requires VisitedUpTo(rows, n, before) && n < |rows| && before <= after && rows[n].replyId in after
    ensures VisitedUpTo(rows, n + 1, after)
  {}

  ghost predicate GroupsOk(replies: seq<Reply>, children: map<Option<Id>, seq<Reply>>) {
    forall key, r :: r in Lookup(children, key) <==> r in replies && r.parentReplyId == key
  }

  lemma GroupsFollow(replies: seq<Reply>, children: map<Option<Id>, seq<Reply>>)
    requires forall key :: Lookup(children, key) == ChildrenOf(replies, key)
    ensures GroupsOk(replies, children)
  {
    forall key, r ensures r in Lookup(children, key) <==> r in replies && r.parentReplyId == key {
      ChildrenOfElements(replies, key);
    }
  }

  /** A report that holds one line for each of `recorded`, each with the right fate. */
  ghost predicate ReportOk(fates: map<Id, Fate>, report: seq<Record>, recorded: set<Id>) {
    if report == [] then recorded == {}
    else
      var last := report[|report| - 1];
      && last.replyId in recorded && last.replyId in fates
      && last.fate == fates[last.replyId]
      && ReportOk(fates, report[..|report| - 1], recorded - {last.replyId})
  }

  /** A write log that created exactly `posts`, each post under the topic or under a post written before it. */
  ghost predicate WritesOk(up: Links<Id>, topicId: Id, writes: seq<Write>, posts: map<Id, Id>) {
    if writes == [] then posts == map[]
    else
      var last := writes[|writes| - 1];
      var before := posts - {last.replyId};
      && last.replyId in posts && posts[last.replyId] == last.postId
      && last.replyId in up
      && last.target == ParentTarget(up, topicId, before, last.replyId)
      && (up[last.replyId].Some? ==> up[last.replyId].value in before)
      && WritesOk(up, topicId, writes[..|writes| - 1], before)
  }

  /** Where a reply belongs, given the posts of the replies written so far. */
  ghost function ParentTarget(up: Links<Id>, topicId: Id, posts: map<Id, Id>, id: Id): Target
    requires id in up
  {
    match up[id]
    case None => TopicTarget(topicId)
    case Some(p) => if p in posts then PostTarget(posts[p]) else TopicTarget(topicId)
  }

  lemma ReportAppend(fates: map<Id, Fate>, report: seq<Record>, recorded: set<Id>, id: Id)
    requires ReportOk(fates, report, recorded) && id !in recorded && id in fates
    ensures ReportOk(fates, report + [Record(id, fates[id])], recorded + {id})
  {
    assert (report + [Record(id, fates[id])])[..|report|] == report;
    assert recorded + {id} - {id} == recorded;
  }

  lemma WritesAppend(up: Links<Id>, topicId: Id, writes: seq<Write>, posts: map<Id, Id>, id: Id, postId: Id)
    requires WritesOk(up, topicId, writes, posts) && id !in posts && id in up
    requires up[id].Some? ==> up[id].value in posts
    ensures WritesOk(up, topicId, writes + [Write(id, ParentTarget(up, topicId, posts, id), postId)], posts[id := postId])
  {
    assert (writes + [Write(id, ParentTarget(up, topicId, posts, id), postId)])[..|writes|] == writes;
    assert posts[id := postId] - {id} == posts;
  }

  /** Reading a report back: each recorded id has exactly one line, and there are no other lines. */
  lemma {:induction false} ReportMeans(fates: map<Id, Fate>, report: seq<Record>, recorded: set<Id>)
    requires ReportOk(fates, report, recorded)
    ensures |report| == |recorded|
    ensures forall id :: id in recorded ==> id in fates && Record(id, fates[id]) in report
    ensures forall i :: 0 <= i < |report| ==> report[i].replyId in recorded
    ensures forall i, j :: 0 <= i < j < |report| ==> report[i].replyId != report[j].replyId
  {
    if report != [] {
      var last := report[|report| - 1];
      ReportMeans(fates, report[..|report| - 1], recorded - {last.replyId});
      assert report == report[..|report| - 1] + [last];
      assert recorded == recorded - {last.replyId} + {last.replyId};
    }
  }

  /** Reading a write log back: every line created the post booked for its reply, no reply has two lines. */
  lemma {:induction false} WritesMean(up: Links<Id>, topicId: Id, writes: seq<Write>, posts: map<Id, Id>)
    requires WritesOk(up, topicId, writes, posts)
    ensures |writes| == |posts|
    ensures forall w :: w in writes ==> w.replyId in posts && w.postId == posts[w.replyId]
    ensures forall i, j :: 0 <= i < j < |writes| ==> writes[i].replyId != writes[j].replyId
  {
    if writes != [] {
      var last := writes[|writes| - 1];
      var before := posts - {last.replyId};
      var init := writes[..|writes| - 1];
      WritesMean(up, topicId, init, before);
      assert writes == init + [last];
      assert posts.Keys == before.Keys + {last.replyId};
      assert |posts.Keys| == |before.Keys| + 1;
      forall i | 0 <= i < |init| ensures writes[i].replyId != last.replyId {
        assert init[i] in init;
      }
    }
  }

  /** Each imported reply has its line. */
  lemma {:induction false} WriteOf(up: Links<Id>, topicId: Id, writes: seq<Write>, posts: map<Id, Id>, id: Id)
      returns (i: nat)
    requires WritesOk(up, topicId, writes, posts) && id in posts
    ensures i < |writes| && writes[i] == Write(id, writes[i].target, posts[id])
  {
    i := |writes| - 1;
    if writes[i].replyId != id {
      i := WriteOf(up, topicId, writes[..|writes| - 1], posts - {writes[i].replyId}, id);
    }
  }

  /** Reading a write log back: direct replies hang from the topic, and every reply to another reply hangs
  from the post its parent's own write created earlier in the log. */
  lemma {:induction false} WritesAreLinked(up: Links<Id>, topicId: Id, writes: seq<Write>, posts: map<Id, Id>, i: nat)
    requires WritesOk(up, topicId, writes, posts) && i < |writes|
    ensures writes[i].replyId in up
    ensures up[writes[i].replyId].None? ==> writes[i].target == TopicTarget(topicId)
    ensures up[writes[i].replyId].Some? ==> WrittenAfterParent(up, writes, i)
  {
    var n := |writes| - 1;
    var last := writes[n];
    var before := posts - {last.replyId};
    var init := writes[..n];
    if i < n {
      WritesAreLinked(up, topicId, init, before, i);
      if up[writes[i].replyId].Some? {
        var j :| 0 <= j < i && init[j].replyId == up[init[i].replyId].value && init[i].target == PostTarget(init[j].postId);
        assert writes[j] == init[j];
      }
    } else if up[last.replyId].Some? {
      var j := WriteOf(up, topicId, init, before, up[last.replyId].value);
      assert writes[j] == init[j];
    }
  }

  ghost predicate WrittenAfterParent(up: Links<Id>, writes: seq<Write>, i: nat)
    requires i < |writes| && writes[i].replyId in up && up[writes[i].replyId].Some?
  {
    exists j ::
      0 <= j < i && writes[j].replyId == up[writes[i].replyId].value && writes[i].target == PostTarget(writes[j].postId)
  }

  class ReplyImporter {
    const replies: seq<Reply>
    const topicId: Id
    const world: World
    ghost const up: Links<Id>
    ghost const fates: map<Id, Fate>
    var children: map<Option<Id>, seq<Reply>>
    var visited: set<Id>
    var importedPosts: map<Id, Id>
    var report: seq<Record>
    var writes: seq<Write>

    constructor (replies: seq<Reply>, topicId: Id, world: World)
      requires DistinctReplies(replies)
      ensures this.replies == replies && this.topicId == topicId && this.world == world
      ensures up == LinksOf(replies) && fates == FateTable(up, world)
      ensures visited == {} && importedPosts == map[] && report == [] && writes == []
    {
      this.replies, this.topicId, this.world := replies, topicId, world;
      up := LinksOf(replies);
      fates := FateTable(LinksOf(replies), world);
      children, visited, importedPosts, report, writes := map[], {}, map[], [], [];
    }

    /** The fixed part of the state: the table of links and the grouping by parent. */
    ghost predicate Prepared()
      reads `children
    {
      && (forall r :: r in replies ==> r.replyId in up && up[r.replyId] == r.parentReplyId)
      && GroupsOk(replies, children)
      && FatesOk(up, world, fates)
    }

    /** The bookkeeping, with a report line for each of `recorded`. */
    ghost predicate Books(recorded: set<Id>)
      reads this
    {
      && recorded <= visited <= up.Keys == fates.Keys
      && ReportOk(fates, report, recorded)
      && WritesOk(up, topicId, writes, importedPosts)
      && importedPosts.Keys <= visited
      && (forall id :: id in visited ==>
            && (id in importedPosts <==> id in recorded && fates[id].Imported?)
            && (id in importedPosts ==> fates[id] == Imported(importedPosts[id])))
    }

    ghost predicate Valid()
      reads this
    {
      Prepared() && Books(visited)
    }

    /** Everything visited since `before` has all of its children visited. */
    ghost predicate Finished(before: set<Id>)
      reads `visited
    {
      before <= visited && ChildrenVisited(replies, visited - before, visited)
    }

    /** Visits one reply that is not imported, and reports its fate. */
    method ReportOne(id: Id, fate: Fate)
      requires Prepared() && Books(visited - {id}) && id in up
      requires fate == fates[id] && !fate.Imported?
      modifies `visited, `report
      ensures Valid() && visited == old(visited) + {id}
    {
      ReportAppend(fates, report, visited - {id}, id);
      assert visited + {id} == visited - {id} + {id};
      visited := visited + {id};
      report := report + [Record(id, fate)];
    }

    /** Skips everything still unvisited below a reply that did not make it. */
    method SkipReplyChildren(reply: Reply, reason: SkipReason)
      requires Valid() && reply in replies && reply.replyId in visited
      requires Inherit(fates[reply.replyId], Failed) == Skipped(reason)
      modifies `visited, `report
      ensures Valid() && Finished(old(visited))
      ensures ChildrenVisited(replies, {reply.replyId}, visited)
      decreases up.Keys - visited
    {
      var below := Lookup(children, Some(reply.replyId));
      for i := 0 to |below|
        invariant Valid() && Finished(old(visited))
        invariant VisitedUpTo(below, i, visited)
      {
        var child := below[i];
        assert child in below;
        ghost var before := visited;
        if child.replyId !in visited {
          assert visited - {child.replyId} == visited;
          ReportOne(child.replyId, Skipped(reason));
          SkipReplyChildren(child, reason);
        }
        VisitedOneMore(below, i, before, visited);
      }
    }

    /** Skips a reply, already marked or not, together with everything unvisited below it. */
    method SkipReplyBranch(reply: Reply, reason: SkipReason)
      requires Prepared() && Books(visited - {reply.replyId}) && reply in replies
      requires fates[reply.replyId] == Skipped(reason)
      modifies `visited, `report
      ensures Valid()
      ensures reply.replyId in visited && Finished(old(visited) - {reply.replyId})
    {
      ReportOne(reply.replyId, Skipped(reason));
      SkipReplyChildren(reply, reason);
    }

    /** Books a successful write: the new post, its parent link, and the import record. */
    method RecordImport(reply: Reply, parent: Target, postId: Id)
      requires Prepared() && reply in replies && reply.replyId in visited && Books(visited - {reply.replyId})
      requires reply.parentReplyId.Some? ==> reply.parentReplyId.value in importedPosts
      requires parent == ParentTarget(up, topicId, importedPosts, reply.replyId)
      requires fates[reply.replyId] == Imported(postId)
      modifies `importedPosts, `report, `writes
      ensures Valid()
      ensures importedPosts == old(importedPosts)[reply.replyId := postId]
    {
      ghost var id := reply.replyId;
      WritesAppend(up, topicId, writes, importedPosts, id, postId);
      ReportAppend(fates, report, visited - {id}, id);
      assert visited == visited - {id} + {id};
      importedPosts := importedPosts[reply.replyId := postId];
      writes := writes + [Write(reply.replyId, parent, postId)];
      report := report + [Record(reply.replyId, Imported(postId))];
    }

    /** Imports a reply under an available parent, then everything below it. */
    method ImportBranch(reply: Reply, parent: Target)
      requires Valid() && reply in replies
      requires reply.parentReplyId.Some? ==> reply.parentReplyId.value in importedPosts
      requires parent == ParentTarget(up, topicId, importedPosts, reply.replyId)
      modifies `visited, `importedPosts, `report, `writes
      ensures Valid() && reply.replyId in visited && Finished(old(visited))
      ensures Preserved(old(importedPosts), importedPosts)
      decreases up.Keys - visited, 0
    {
      if reply.replyId in visited {
        return;
      }
      assert fates[reply.replyId] == Own(world, reply.replyId);
      assert visited + {reply.replyId} - {reply.replyId} == visited;
      visited := visited + {reply.replyId};
      assert Books(visited - {reply.replyId});
      if !world.matched(reply.replyId) {
        SkipReplyBranch(reply, UnmatchedReplyAuthor);
        return;
      }
      match world.write(reply.replyId) {
        case Some(postId) =>
          RecordImport(reply, parent, postId);
          ImportChildren(reply, postId);
        case None =>
          ReportOne(reply.replyId, Failed);
          SkipReplyChildren(reply, AncestorReplyFailed);
      }
    }

    /** The loop over the replies to an imported reply. */
    method ImportChildren(reply: Reply, postId: Id)
      requires Valid() && reply in replies
      requires reply.replyId in importedPosts && importedPosts[reply.replyId] == postId
      modifies `visited, `importedPosts, `report, `writes
      ensures Valid() && Finished(old(visited))
      ensures ChildrenVisited(replies, {reply.replyId}, visited)
      ensures Preserved(old(importedPosts), importedPosts)
      decreases up.Keys - visited, 1
    {
      var below := Lookup(children, Some(reply.replyId));
      for i := 0 to |below|
        invariant Valid() && Finished(old(visited))
        invariant Preserved(old(importedPosts), importedPosts)
        invariant VisitedUpTo(below, i, visited)
      {
        assert below[i] in below;
        ghost var before := visited;
        assert up.Keys - visited <= up.Keys - old(visited);
        assert up[below[i].replyId] == Some(reply.replyId);
        assert reply.replyId in importedPosts && importedPosts[reply.replyId] == postId;
        ImportBranch(below[i], PostTarget(postId));
        VisitedOneMore(below, i, before, visited);
      }
    }

    /** Processes the whole reply graph of one imported discussion. */
    method ImportReplyGraph()
      requires DistinctReplies(replies) && up == LinksOf(replies) && fates == FateTable(up, world)
      requires visited == {} && importedPosts == map[] && report == [] && writes == []
      modifies this
      // every reply is reported exactly once, with the fate its parent chain dictates
      ensures |report| == |replies|
      ensures forall r :: r in replies ==> Record(r.replyId, FateOf(up, world, r.replyId)) in report
      // exactly the imported replies are written, each once and after the reply it answers
      ensures WritesOk(up, topicId, writes, importedPosts)
      ensures forall r :: r in replies ==>
                (r.replyId in importedPosts <==> FateOf(up, world, r.replyId).Imported?)
      // and the post written for a reply is the post reported for it
      ensures forall w :: w in writes ==>
                && w.replyId in importedPosts && Record(w.replyId, Imported(w.postId)) in report
                && FateOf(up, world, w.replyId) == Imported(w.postId)
    {
      children := GroupByParent(replies);
      GroupsFollow(replies, children);
      FatesFollow(up, world);
      var directReplies := Lookup(children, None);
      for i := 0 to |directReplies|
        invariant Valid() && Finished({})
        invariant VisitedUpTo(directReplies, i, visited)
      {
        assert directReplies[i] in directReplies;
        ghost var before := visited;
        ImportBranch(directReplies[i], TopicTarget(topicId));
        VisitedOneMore(directReplies, i, before, visited);
      }
      assert forall r :: r in replies && r.parentReplyId.None? ==> r in directReplies;
      SweepLeftovers();
      AllVisited(replies, visited);
      ReportMeans(fates, report, visited);
      WritesMean(up, topicId, writes, importedPosts);
      LinksSize(replies);
    }

    /** The final pass over replies no branch reached. */
    method SweepLeftovers()
      requires DistinctReplies(replies) && up == LinksOf(replies) && fates == FateTable(up, world)
      requires Valid() && Finished({})
      requires forall r :: r in replies && r.parentReplyId.None? ==> r.replyId in visited
      modifies `visited, `report
      ensures Valid()
      ensures forall r :: r in replies ==> r.replyId in visited
    {
      hide *;
      SweepStarts();
      for i := 0 to |replies|
        invariant Valid() && SweepReady(visited) && VisitedUpTo(replies, i, visited)
      {
        var reply := replies[i];
        ghost var before := visited;
        if reply.replyId !in visited {
          LeftoverFate(reply);
          if reply.parentReplyId.Some? && reply.parentReplyId.value in importedPosts {
            // the children of every visited reply have been visited, so this branch is never taken
            assert false;
          } else {
            SkipReplyBranch(reply, ParentReplyUnavailable);
            SweptOne(before, reply.replyId);
          }
        }
        VisitedOneMore(replies, i, before, visited);
      }
      AllSwept();
    }

    /** Direct replies and the children of visited replies have been visited. */
    ghost predicate SweepReady(seen: set<Id>) {
      && DistinctReplies(replies) && up == LinksOf(replies) && fates == FateTable(up, world)
      && ChildrenVisited(replies, seen, seen)
      && forall r :: r in replies && r.parentReplyId.None? ==> r.replyId in seen
    }

    lemma SweepStarts()
      requires DistinctReplies(replies) && up == LinksOf(replies) && fates == FateTable(up, world)
      requires Finished({}) && forall r :: r in replies && r.parentReplyId.None? ==> r.replyId in visited
      ensures SweepReady(visited) && VisitedUpTo(replies, 0, visited)
    {
      hide LinksOf, FateTable, DistinctReplies;
      assert visited - {} == visited;
    }

    /** An unvisited reply has no imported parent, and no way to the topic. */
    lemma LeftoverFate(reply: Reply)
      requires Valid() && SweepReady(visited) && reply in replies && reply.replyId !in visited
      ensures Prepared() && Books(visited - {reply.replyId})
      ensures reply.replyId in fates && fates[reply.replyId] == Skipped(ParentReplyUnavailable)
      ensures !(reply.parentReplyId.Some? && reply.parentReplyId.value in importedPosts)
    {
      hide FateOf, ReportOk, WritesOk, GroupsOk, FatesOk;
      UnvisitedIsUnavailable(replies, world, visited, reply);
      assert visited - {reply.replyId} == visited;
    }

    lemma SweptOne(before: set<Id>, id: Id)
      requires SweepReady(before) && id !in before && Finished(before - {id})
      ensures SweepReady(visited) && before <= visited
    {
      hide LinksOf, FateTable, DistinctReplies;
      assert before - {id} == before;
    }

    lemma AllSwept()
      requires VisitedUpTo(replies, |replies|, visited)
      ensures forall r :: r in replies ==> r.replyId in visited
    {}
  }

  ghost predicate Preserved(before: map<Id, Id>, after: map<Id, Id>) {
    forall id :: id in before ==> id in after && after[id] == before[id]
  }

  lemma AllVisited(replies: seq<Reply>, visited: set<Id>)
    requires DistinctReplies(replies) && visited <= LinksOf(replies).Keys
    requires forall r :: r in replies ==> r.replyId in visited
    ensures visited == LinksOf(replies).Keys
  {}

  lemma LinksSize(replies: seq<Reply>)
    requires DistinctReplies(replies)
    ensures |LinksOf(replies)| == |replies|
  {
    var ids := seq(|replies|, i requires 0 <= i < |replies| => replies[i].replyId);
    DistinctCounts(ids);
    forall id ensures id in ids <==> id in LinksOf(replies) {
      if id in LinksOf(replies) {
        var r :| r in replies && r.replyId == id;
        var j :| 0 <= j < |replies| && replies[j] == r;
        assert ids[j] == id;
      }
    }
    assert Elements(ids) == LinksOf(replies).Keys;
  }

  /** Once every direct reply and every child of a visited reply is visited, whatever is left cannot
  reach the topic. */
  lemma UnvisitedIsUnavailable(replies: seq<Reply>, world: World, visited: set<Id>, reply: Reply)
    requires DistinctReplies(replies) && reply in replies && reply.replyId !in visited
    requires forall r :: r in replies && r.parentReplyId.None? ==> r.replyId in visited
    requires ChildrenVisited(replies, visited, visited)
    ensures FateOf(LinksOf(replies), world, reply.replyId) == Skipped(ParentReplyUnavailable)
  {
    var up := LinksOf(replies);
    forall k: nat ensures !RootAt(up, reply.replyId, k) {
      if RootAt(up, reply.replyId, k) {
        RootedAreVisited(replies, visited, reply.replyId, k);
      }
    }
  }
}
