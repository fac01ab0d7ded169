/** Import of watches and read states: one write for each topic and member, one report line for each source row. */
module StateImport {
  import opened Basics
  import opened KeysetReader

  /** A row as the reader hands it on: where it comes from and its one timestamp. */
  datatype StateRow = StateRow(id: Key, at: int)

  datatype Target = Target(topicId: Id, memberId: Id)

  datatype SkipReason = DiscussionNotImported | UnmatchedMember | DuplicateWatch | SupersededReadState

  datatype Outcome = Imported(target: Target) | Skipped(reason: SkipReason) | Failed

  datatype Record = Record(id: Key, outcome: Outcome)

  datatype Write = Write(row: StateRow, target: Target)

  /** Topics imported so far, members found for legacy users, and the targets whose write will fail. */
  datatype World = World(topics: map<int, Id>, members: map<int, Id>, refused: set<Target>)

  datatype Mapping = NoTopic | NoMember | To(target: Target)

  function MappingOf(world: World, row: StateRow): Mapping {
    if row.id.discussionId !in world.topics then NoTopic
    else if row.id.userId !in world.members then NoMember
    else To(Target(world.topics[row.id.discussionId], world.members[row.id.userId]))
  }

  // ----- what must become of each row

  /** Two rows for one target: a later read time wins, and among equals, as among watches, the earlier row. */
  predicate Beats(stage: Stage, world: World, rows: seq<StateRow>, m: nat, j: nat)
    requires m < |rows| && j < |rows|
  {
    && MappingOf(world, rows[m]).To? && MappingOf(world, rows[m]) == MappingOf(world, rows[j])
    && if stage.ReadStates? && rows[m].at != rows[j].at then rows[m].at > rows[j].at else m < j
  }

  /** Row `j` is the one to be written, as far as the first `n` rows tell. */
  ghost predicate Wins(stage: Stage, world: World, rows: seq<StateRow>, n: nat, j: nat)
    requires n <= |rows|
  {
    && j < n && MappingOf(world, rows[j]).To?
    && forall m :: 0 <= m < n ==> !Beats(stage, world, rows, m, j)
  }

  ghost function OutcomeOf(stage: Stage, world: World, rows: seq<StateRow>, j: nat): Outcome
    requires j < |rows|
  {
    match MappingOf(world, rows[j])
    case NoTopic => Skipped(DiscussionNotImported)
    case NoMember => Skipped(UnmatchedMember)
    case To(target) =>
      if !Wins(stage, world, rows, |rows|, j) then
        Skipped(if stage.Watches? then DuplicateWatch else SupersededReadState)
      else if target in world.refused then Failed
      else Imported(target)
  }

  /** Two rows are about the same imported topic and the same member. */
  ghost predicate SameTarget(world: World, a: StateRow, b: StateRow) {
    && a.id.discussionId in world.topics && b.id.discussionId in world.topics
    && a.id.userId in world.members && b.id.userId in world.members
    && world.topics[a.id.discussionId] == world.topics[b.id.discussionId]
    && world.members[a.id.userId] == world.members[b.id.userId]
  }

  /** What is reported of each row, read off the rows. A discussion that was not imported comes first, then an unmatched member.
  A read state is superseded by a later one for the same topic and member, or by an equal one that came before it; a watch is a
  duplicate of any earlier one. The rest are imported, unless their write fails. */
  lemma OutcomeMeans(stage: Stage, world: World, rows: seq<StateRow>, j: nat)
    requires j < |rows|
    ensures var row, outcome := rows[j], OutcomeOf(stage, world, rows, j);
            if row.id.discussionId !in world.topics then outcome == Skipped(DiscussionNotImported)
            else if row.id.userId !in world.members then outcome == Skipped(UnmatchedMember)
            else if stage.ReadStates? && (exists m :: 0 <= m < |rows| && SameTarget(world, rows[m], row)
                                                      && (rows[m].at > row.at || (rows[m].at == row.at && m < j))) then
              outcome == Skipped(SupersededReadState)
            else if stage.Watches? && (exists m :: 0 <= m < j && SameTarget(world, rows[m], row)) then
              outcome == Skipped(DuplicateWatch)
            else
              var target := Target(world.topics[row.id.discussionId], world.members[row.id.userId]);
              outcome == if target in world.refused then Failed else Imported(target)
  {
    if MappingOf(world, rows[j]).To? {
      forall m | 0 <= m < |rows|
        ensures Beats(stage, world, rows, m, j) <==>
                  && SameTarget(world, rows[m], rows[j])
                  && if stage.ReadStates? then rows[m].at > rows[j].at || (rows[m].at == rows[j].at && m < j) else m < j
      {}
    }
  }

  /** Each row has its line in the report, once; `order` says in which order the lines were written. */
  ghost predicate Reported(stage: Stage, world: World, rows: seq<StateRow>, records: seq<Record>, order: seq<nat>) {
    && |records| == |order| && Distinct(order)
    && forall k :: 0 <= k < |order| ==>
         order[k] < |rows| && records[k] == Record(rows[order[k]].id, OutcomeOf(stage, world, rows, order[k]))
  }

  ghost predicate Covers(order: seq<nat>, n: nat) {
    forall j :: 0 <= j < n ==> j in order
  }

  /** The writes are those of the winning rows, each once. */
  ghost predicate Written(stage: Stage, world: World, rows: seq<StateRow>, writes: seq<Write>, winners: seq<nat>) {
    && |writes| == |winners| && Distinct(winners)
    && forall k :: 0 <= k < |winners| ==>
         && Wins(stage, world, rows, |rows|, winners[k])
         && writes[k] == Write(rows[winners[k]], MappingOf(world, rows[winners[k]]).target)
  }

  ghost predicate AllWinners(stage: Stage, world: World, rows: seq<StateRow>, winners: seq<nat>) {
    forall j: nat :: Wins(stage, world, rows, |rows|, j) ==> j in winners
  }

  // ----- facts about winning

  lemma WinnersAgree(stage: Stage, world: World, rows: seq<StateRow>, n: nat, i: nat, j: nat)
    requires n <= |rows| && Wins(stage, world, rows, n, i) && Wins(stage, world, rows, n, j)
    requires MappingOf(world, rows[i]) == MappingOf(world, rows[j])
    ensures i == j
  {
    hide MappingOf;
    assert !Beats(stage, world, rows, i, j) && !Beats(stage, world, rows, j, i);
  }

  /** A row once beaten stays beaten. */
  lemma BeatenForGood(stage: Stage, world: World, rows: seq<StateRow>, n: nat, more: nat, j: nat)
    requires n <= more <= |rows| && j < n && !Wins(stage, world, rows, n, j)
    ensures !Wins(stage, world, rows, more, j)
  {}

  lemma BeatenFor(stage: Stage, world: World, rows: seq<StateRow>, n: nat, m: nat, j: nat)
    requires m < n <= |rows| && j < |rows| && Beats(stage, world, rows, m, j)
    ensures !Wins(stage, world, rows, n, j)
  {}

  lemma WinsStep(stage: Stage, world: World, rows: seq<StateRow>, n: nat, j: nat)
    requires n < |rows| && j < n
    ensures Wins(stage, world, rows, n + 1, j) <==> Wins(stage, world, rows, n, j) && !Beats(stage, world, rows, n, j)
  {
    hide Beats, MappingOf;
  }

  /** A new row wins exactly if it beats, or has no, winner before it. */
  lemma WinsAtOnce(stage: Stage, world: World, rows: seq<StateRow>, n: nat, best: nat)
    requires n < |rows| && Wins(stage, world, rows, n, best)
    requires MappingOf(world, rows[best]) == MappingOf(world, rows[n])
    ensures Wins(stage, world, rows, n + 1, n) <==> Beats(stage, world, rows, n, best)
    ensures Wins(stage, world, rows, n + 1, n) <==> stage.ReadStates? && rows[n].at > rows[best].at
  {
    hide MappingOf;
    assert Beats(stage, world, rows, n, best) <==> !Beats(stage, world, rows, best, n);
    forall m | 0 <= m < n + 1 ensures Beats(stage, world, rows, m, n) ==> Beats(stage, world, rows, best, n) {
      assert m < n ==> !Beats(stage, world, rows, m, best);
    }
  }

  lemma WinsAlone(stage: Stage, world: World, rows: seq<StateRow>, n: nat)
    requires n < |rows| && MappingOf(world, rows[n]).To?
    requires forall j :: 0 <= j < n ==> MappingOf(world, rows[j]) != MappingOf(world, rows[n])
    ensures Wins(stage, world, rows, n + 1, n)
  {
    hide MappingOf;
  }

  /** Every target reached by some row has its winner, which no row for that target is later than. */
  lemma {:induction false} WinnerFor(stage: Stage, world: World, rows: seq<StateRow>, n: nat, i: nat) returns (j: nat)
    requires i < n <= |rows| && MappingOf(world, rows[i]).To?
    ensures Wins(stage, world, rows, n, j) && MappingOf(world, rows[j]) == MappingOf(world, rows[i])
    ensures stage.ReadStates? ==> rows[i].at <= rows[j].at
    ensures stage.Watches? ==> j <= i
    decreases n
  {
    hide MappingOf, Beats, Wins;
    var here := n - 1;
    if MappingOf(world, rows[here]) == MappingOf(world, rows[i]) {
      if k :| 0 <= k < here && MappingOf(world, rows[k]) == MappingOf(world, rows[here]) {
        var best := WinnerFor(stage, world, rows, here, if i < here then i else k);
        HeldPosition(stage, world, rows, here, best);
        WinsAtOnce(stage, world, rows, here, best);
        WinsStep(stage, world, rows, here, best);
        WinnerRank(stage, world, rows, here, best);
        j := if Wins(stage, world, rows, n, here) then here else best;
      } else {
        WinsAlone(stage, world, rows, here);
        j := here;
      }
    } else {
      j := WinnerFor(stage, world, rows, here, i);
      HeldPosition(stage, world, rows, here, j);
      WinsStep(stage, world, rows, here, j);
      WinnerRank(stage, world, rows, here, j);
    }
  }

  lemma WinnerRank(stage: Stage, world: World, rows: seq<StateRow>, m: nat, j: nat)
    requires m < |rows| && j < |rows|
    ensures Beats(stage, world, rows, m, j) ==> MappingOf(world, rows[m]) == MappingOf(world, rows[j])
    ensures Beats(stage, world, rows, m, j) && stage.ReadStates? ==> rows[m].at >= rows[j].at
    ensures Wins(stage, world, rows, |rows|, j) ==> j < |rows| && MappingOf(world, rows[j]).To?
  {
    hide MappingOf;
  }

  // ----- the counters

  datatype Counts = Counts(imported: nat, skipped: nat, failed: nat)

  function Counted(counts: Counts, outcome: Outcome): Counts {
    match outcome
    case Imported(_) => counts.(imported := counts.imported + 1)
    case Skipped(_) => counts.(skipped := counts.skipped + 1)
    case Failed => counts.(failed := counts.failed + 1)
  }

  ghost function CountsOf(records: seq<Record>): (counts: Counts)
    ensures counts.imported + counts.skipped + counts.failed == |records|
  {
    if records == [] then Counts(0, 0, 0)
    else Counted(CountsOf(records[..|records| - 1]), records[|records| - 1].outcome)
  }

  ghost predicate IsImported(outcome: Outcome) { outcome.Imported? }

  ghost predicate IsSkipped(outcome: Outcome) { outcome.Skipped? }

  ghost predicate IsFailed(outcome: Outcome) { outcome.Failed? }

  /** The lines with a given kind of outcome. */
  ghost function LinesWith(records: seq<Record>, kind: Outcome -> bool): set<nat> {
    set k: nat | k < |records| && kind(records[k].outcome)
  }

  /** Each counter is the number of lines of its kind. */
  lemma {:induction false} CountsMean(records: seq<Record>)
    ensures CountsOf(records).imported == |LinesWith(records, IsImported)|
    ensures CountsOf(records).skipped == |LinesWith(records, IsSkipped)|
    ensures CountsOf(records).failed == |LinesWith(records, IsFailed)|
  {
    hide LinesWith;
    NoLines(IsImported);
    NoLines(IsSkipped);
    NoLines(IsFailed);
    if records != [] {
      CountsMean(records[..|records| - 1]);
      LastLine(records, IsImported);
      LastLine(records, IsSkipped);
      LastLine(records, IsFailed);
    }
  }

  lemma NoLines(kind: Outcome -> bool)
    ensures LinesWith([], kind) == {}
  {}

  lemma LastLine(records: seq<Record>, kind: Outcome -> bool)
    requires records != []
    ensures |LinesWith(records, kind)| ==
            |LinesWith(records[..|records| - 1], kind)| + (if kind(records[|records| - 1].outcome) then 1 else 0)
  {
    var n := |records| - 1;
    var before := LinesWith(records[..n], kind);
    assert LinesWith(records, kind) == before + (if kind(records[n].outcome) then {n} else {});
    assert n !in before;
  }

  lemma CountsAppend(records: seq<Record>, record: Record)
    ensures CountsOf(records + [record]) == Counted(CountsOf(records), record.outcome)
  {
    assert (records + [record])[..|records|] == records;
  }

  // ----- bookkeeping, one row at a time

  /** The report holds a line for the rows of `order`; those of the first `n` rows that still win have none yet. */
  ghost predicate Pending(stage: Stage, world: World, rows: seq<StateRow>, n: nat, order: seq<nat>)
    requires n <= |rows|
  {
    forall j :: j in order <==> 0 <= j < n && !Wins(stage, world, rows, n, j)
  }

  /** For each target reached by the first `n` rows, the position of the row held for it. */
  ghost predicate Holds(stage: Stage, world: World, rows: seq<StateRow>, n: nat, collapsed: map<Target, nat>)
    requires n <= |rows|
  {
    && (forall t :: t in collapsed ==>
          collapsed[t] < n && Wins(stage, world, rows, n, collapsed[t]) && MappingOf(world, rows[collapsed[t]]) == To(t))
    && (forall j :: 0 <= j < n && MappingOf(world, rows[j]).To? ==> MappingOf(world, rows[j]).target in collapsed)
  }

  lemma ReportLine(stage: Stage, world: World, rows: seq<StateRow>, records: seq<Record>, order: seq<nat>, j: nat)
    requires Reported(stage, world, rows, records, order) && j < |rows| && j !in order
    ensures Reported(stage, world, rows, records + [Record(rows[j].id, OutcomeOf(stage, world, rows, j))], order + [j])
  {
    hide OutcomeOf;
  }

  lemma UnmappedRow(stage: Stage, world: World, rows: seq<StateRow>, n: nat, collapsed: map<Target, nat>, order: seq<nat>)
    requires n < |rows| && !MappingOf(world, rows[n]).To?
    requires Holds(stage, world, rows, n, collapsed) && Pending(stage, world, rows, n, order)
    ensures Holds(stage, world, rows, n + 1, collapsed) && Pending(stage, world, rows, n + 1, order + [n]) && n !in order
    ensures OutcomeOf(stage, world, rows, n)
            == Skipped(if MappingOf(world, rows[n]).NoTopic? then DiscussionNotImported else UnmatchedMember)
  {
    hide MappingOf, Wins;
    forall j | 0 <= j < n ensures Wins(stage, world, rows, n + 1, j) <==> Wins(stage, world, rows, n, j) {
      WinsStep(stage, world, rows, n, j);
      NotBeaten(stage, world, rows, n, j);
    }
    NotMapped(stage, world, rows, n);
  }

  lemma NotBeaten(stage: Stage, world: World, rows: seq<StateRow>, m: nat, j: nat)
    requires m < |rows| && j < |rows|
    requires !MappingOf(world, rows[m]).To? || MappingOf(world, rows[m]) != MappingOf(world, rows[j])
    ensures !Beats(stage, world, rows, m, j)
  {
    hide MappingOf;
  }

  lemma NotMapped(stage: Stage, world: World, rows: seq<StateRow>, n: nat)
    requires n < |rows| && !MappingOf(world, rows[n]).To?
    ensures !Wins(stage, world, rows, n + 1, n)
  {
    hide MappingOf;
  }

  /** The row held is at least as late: the new row is dropped. */
  lemma BeatenRow(stage: Stage, world: World, rows: seq<StateRow>, n: nat, collapsed: map<Target, nat>, order: seq<nat>, t: Target)
    requires n < |rows| && MappingOf(world, rows[n]) == To(t) && t in collapsed
    requires Holds(stage, world, rows, n, collapsed) && Pending(stage, world, rows, n, order)
    requires collapsed[t] < |rows| && (stage.Watches? || rows[collapsed[t]].at >= rows[n].at)
    ensures Holds(stage, world, rows, n + 1, collapsed) && Pending(stage, world, rows, n + 1, order + [n]) && n !in order
    ensures OutcomeOf(stage, world, rows, n) == Skipped(if stage.Watches? then DuplicateWatch else SupersededReadState)
  {
    hide MappingOf, Beats, Wins;
    WinsAtOnce(stage, world, rows, n, collapsed[t]);
    forall j | 0 <= j < n ensures Wins(stage, world, rows, n + 1, j) <==> Wins(stage, world, rows, n, j) {
      WinsStep(stage, world, rows, n, j);
      if Wins(stage, world, rows, n, j) && MappingOf(world, rows[j]) == To(t) {
        WinnersAgree(stage, world, rows, n, j, collapsed[t]);
      } else {
        NotBeatenOr(stage, world, rows, n, j);
      }
    }
    BeatenForGood(stage, world, rows, n + 1, |rows|, n);
  }

  lemma NotBeatenOr(stage: Stage, world: World, rows: seq<StateRow>, m: nat, j: nat)
    requires m < |rows| && j < |rows|
    ensures MappingOf(world, rows[m]) != MappingOf(world, rows[j]) ==> !Beats(stage, world, rows, m, j)
  {
    hide MappingOf;
  }

  /** The new row is later: the row held is reported as superseded and replaced. */
  lemma LaterRow(stage: Stage, world: World, rows: seq<StateRow>, n: nat, collapsed: map<Target, nat>, order: seq<nat>, t: Target)
    requires stage.ReadStates? && n < |rows| && MappingOf(world, rows[n]) == To(t) && t in collapsed
    requires Holds(stage, world, rows, n, collapsed) && Pending(stage, world, rows, n, order)
    requires collapsed[t] < |rows| && rows[collapsed[t]].at < rows[n].at
    ensures Holds(stage, world, rows, n + 1, collapsed[t := n]) && Pending(stage, world, rows, n + 1, order + [collapsed[t]])
    ensures collapsed[t] !in order
    ensures OutcomeOf(stage, world, rows, collapsed[t]) == Skipped(SupersededReadState)
  {
    hide MappingOf, Beats, Wins;
    var best := collapsed[t];
    WinsAtOnce(stage, world, rows, n, best);
    WinsStep(stage, world, rows, n, best);
    WinnerRank(stage, world, rows, n, best);
    BeatenForGood(stage, world, rows, n + 1, |rows|, best);
    forall j | 0 <= j < n && j != best ensures Wins(stage, world, rows, n + 1, j) <==> Wins(stage, world, rows, n, j) {
      WinsStep(stage, world, rows, n, j);
      if Wins(stage, world, rows, n, j) && MappingOf(world, rows[j]) == To(t) {
        WinnersAgree(stage, world, rows, n, j, best);
      } else {
        NotBeatenOr(stage, world, rows, n, j);
      }
    }
    forall s | s in collapsed && s != t ensures collapsed[s] != best {}
  }

  lemma HeldPosition(stage: Stage, world: World, rows: seq<StateRow>, n: nat, j: nat)
    requires n <= |rows| && Wins(stage, world, rows, n, j)
    ensures j < n && MappingOf(world, rows[j]).To?
  {
    hide MappingOf, Beats;
  }

  /** The first row for its target is held. */
  lemma FirstRow(stage: Stage, world: World, rows: seq<StateRow>, n: nat, collapsed: map<Target, nat>, order: seq<nat>, t: Target)
    requires n < |rows| && MappingOf(world, rows[n]) == To(t) && t !in collapsed
    requires Holds(stage, world, rows, n, collapsed) && Pending(stage, world, rows, n, order)
    ensures Holds(stage, world, rows, n + 1, collapsed[t := n]) && Pending(stage, world, rows, n + 1, order)
    ensures n !in order
  {
    hide MappingOf, Beats, Wins;
    WinsAlone(stage, world, rows, n);
    forall j | 0 <= j < n ensures Wins(stage, world, rows, n + 1, j) <==> Wins(stage, world, rows, n, j) {
      WinsStep(stage, world, rows, n, j);
      NotBeatenOr(stage, world, rows, n, j);
    }
  }

  // ----- writing what is held

  /** The rows held for the first `k` targets, in order. */
  ghost predicate Flushed(collapsed: map<Target, nat>, targets: seq<Target>, k: nat, winners: seq<nat>) {
    |winners| == k <= |targets| && forall i :: 0 <= i < k ==> targets[i] in collapsed && winners[i] == collapsed[targets[i]]
  }

  /** Report lines are owed for the winning rows not written yet, and for no others. */
  ghost predicate Owed(stage: Stage, world: World, rows: seq<StateRow>, order: seq<nat>, winners: seq<nat>) {
    forall j :: j in order <==> 0 <= j < |rows| && (Wins(stage, world, rows, |rows|, j) ==> j in winners)
  }

  ghost predicate TargetsOf(collapsed: map<Target, nat>, targets: seq<Target>) {
    Distinct(targets) && forall t :: t in targets <==> t in collapsed
  }

  lemma FlushStep(stage: Stage, world: World, rows: seq<StateRow>, collapsed: map<Target, nat>, targets: seq<Target>,
                  k: nat, order: seq<nat>, writes: seq<Write>, winners: seq<nat>)
    requires Holds(stage, world, rows, |rows|, collapsed) && TargetsOf(collapsed, targets) && k < |targets|
    requires Flushed(collapsed, targets, k, winners) && Owed(stage, world, rows, order, winners)
    requires Written(stage, world, rows, writes, winners)
    ensures var j := collapsed[targets[k]];
            && j < |rows| && j !in order
            && OutcomeOf(stage, world, rows, j) == (if targets[k] in world.refused then Failed else Imported(targets[k]))
            && Flushed(collapsed, targets, k + 1, winners + [j])
            && Owed(stage, world, rows, order + [j], winners + [j])
            && Written(stage, world, rows, writes + [Write(rows[j], targets[k])], winners + [j])
  {
    hide MappingOf, Wins;
    var j := collapsed[targets[k]];
    forall i | 0 <= i < k ensures winners[i] != j {
      assert targets[i] != targets[k];
      assert MappingOf(world, rows[collapsed[targets[i]]]) == To(targets[i]);
    }
  }

  lemma FlushedAll(stage: Stage, world: World, rows: seq<StateRow>, collapsed: map<Target, nat>, targets: seq<Target>,
                   order: seq<nat>, winners: seq<nat>)
    requires Holds(stage, world, rows, |rows|, collapsed) && TargetsOf(collapsed, targets)
    requires Flushed(collapsed, targets, |targets|, winners) && Owed(stage, world, rows, order, winners)
    ensures AllWinners(stage, world, rows, winners) && Covers(order, |rows|)
  {
    hide MappingOf, Wins;
    forall j: nat | Wins(stage, world, rows, |rows|, j) ensures j in winners {
      HeldPosition(stage, world, rows, |rows|, j);
      var t := MappingOf(world, rows[j]).target;
      WinnersAgree(stage, world, rows, |rows|, j, collapsed[t]);
      var i :| 0 <= i < |targets| && targets[i] == t;
      assert winners[i] == j;
    }
  }

  lemma FlushStart(stage: Stage, world: World, rows: seq<StateRow>, collapsed: map<Target, nat>, targets: seq<Target>, order: seq<nat>)
    requires Pending(stage, world, rows, |rows|, order)
    ensures Flushed(collapsed, targets, 0, []) && Owed(stage, world, rows, order, [])
    ensures Written(stage, world, rows, [], [])
  {
    hide Wins;
  }

  lemma NothingRead(stage: Stage, world: World, rows: seq<StateRow>)
    ensures Holds(stage, world, rows, 0, map[]) && Pending(stage, world, rows, 0, []) && TargetsOf(map[], [])
    ensures Reported(stage, world, rows, [], []) && CountsOf([]) == Counts(0, 0, 0)
    ensures Written(stage, world, rows, [], [])
  {}

  lemma TargetAdded(collapsed: map<Target, nat>, targets: seq<Target>, t: Target, j: nat)
    requires TargetsOf(collapsed, targets)
    ensures t in collapsed ==> TargetsOf(collapsed[t := j], targets)
    ensures t !in collapsed ==> TargetsOf(collapsed[t := j], targets + [t])
  {}

  // ----- watches are written as they come

  lemma EarliestWatchStays(world: World, rows: seq<StateRow>, n: nat, j: nat)
    requires n <= |rows| && j < n
    ensures Wins(Stage.Watches, world, rows, n, j) <==> Wins(Stage.Watches, world, rows, |rows|, j)
  {}

  ghost predicate WinnersBelow(world: World, rows: seq<StateRow>, n: nat, order: seq<nat>, winners: seq<nat>) {
    && (forall j :: j in order <==> 0 <= j < n)
    && (forall j :: j in winners <==> 0 <= j < n <= |rows| && Wins(Stage.Watches, world, rows, |rows|, j))
  }

  lemma WatchDropped(world: World, rows: seq<StateRow>, n: nat, order: seq<nat>, winners: seq<nat>)
    requires n < |rows| && WinnersBelow(world, rows, n, order, winners)
    requires OutcomeOf(Stage.Watches, world, rows, n).Skipped?
    ensures WinnersBelow(world, rows, n + 1, order + [n], winners) && n !in order
  {
    hide MappingOf, Beats;
  }

  lemma WatchWritten(world: World, rows: seq<StateRow>, n: nat, order: seq<nat>, writes: seq<Write>, winners: seq<nat>, t: Target)
    requires n < |rows| && WinnersBelow(world, rows, n, order, winners) && MappingOf(world, rows[n]) == To(t)
    requires Wins(Stage.Watches, world, rows, n + 1, n) && Written(Stage.Watches, world, rows, writes, winners)
    ensures WinnersBelow(world, rows, n + 1, order + [n], winners + [n]) && n !in order
    ensures Written(Stage.Watches, world, rows, writes + [Write(rows[n], t)], winners + [n])
    ensures OutcomeOf(Stage.Watches, world, rows, n) == (if t in world.refused then Failed else Imported(t))
  {
    hide MappingOf, Wins;
    EarliestWatchStays(world, rows, n + 1, n);
  }

  lemma WatchesDone(world: World, rows: seq<StateRow>, order: seq<nat>, winners: seq<nat>)
    requires WinnersBelow(world, rows, |rows|, order, winners)
    ensures AllWinners(Stage.Watches, world, rows, winners) && Covers(order, |rows|)
  {
    hide MappingOf, Beats;
  }

  lemma FirstRowWins(stage: Stage, world: World, rows: seq<StateRow>, n: nat, collapsed: map<Target, nat>, t: Target)
    requires n < |rows| && MappingOf(world, rows[n]) == To(t) && t !in collapsed && Holds(stage, world, rows, n, collapsed)
    ensures Wins(stage, world, rows, n + 1, n)
  {
    hide MappingOf, Wins;
    WinsAlone(stage, world, rows, n);
  }

  class StateImporter {
    const world: World
    var read: nat
    var counts: Counts
    var records: seq<Record>
    var writes: seq<Write>
    ghost var order: seq<nat>
    ghost var winners: seq<nat>

    constructor (world: World)
      ensures this.world == world && Unused()
    {
      this.world, read, counts, records, writes := world, 0, Counts(0, 0, 0), [], [];
      order, winners := [], [];
    }

    ghost predicate Unused()
      reads this
    {
      read == 0 && counts == Counts(0, 0, 0) && records == [] && writes == [] && order == [] && winners == []
    }

    /** The report so far. */
    ghost predicate Books(stage: Stage, rows: seq<StateRow>)
      reads `counts, `records, `order
    {
      Reported(stage, world, rows, records, order) && counts == CountsOf(records)
    }

    /** The stage is over: one line for each row, one write for each winning row. */
    ghost predicate Complete(stage: Stage, rows: seq<StateRow>)
      reads this
    {
      && read == |rows| && Books(stage, rows) && Covers(order, |rows|)
      && Written(stage, world, rows, writes, winners) && AllWinners(stage, world, rows, winners)
    }

    method Report(stage: Stage, ghost rows: seq<StateRow>, ghost j: nat, id: Key, outcome: Outcome)
      requires Books(stage, rows) && j < |rows| && j !in order
      requires id == rows[j].id && outcome == OutcomeOf(stage, world, rows, j)
      modifies `counts, `records, `order
      ensures Books(stage, rows) && order == old(order) + [j]
      ensures records == old(records) + [Record(id, outcome)]
    {
      hide Reported, OutcomeOf, CountsOf, Counted, MappingOf;
      ReportLine(stage, world, rows, records, order, j);
      CountsAppend(records, Record(id, outcome));
      counts := Counted(counts, outcome);
      records := records + [Record(id, outcome)];
      order := order + [j];
    }

    /** Holds the latest row for each topic and member, then writes what is held. */
    method ImportReadStates(rows: seq<StateRow>)
      requires Unused()
      modifies this
      ensures Complete(Stage.ReadStates, rows)
    {
      hide *;
      StartImport(Stage.ReadStates, rows);
      var collapsed: map<Target, nat> := map[];
      var targets: seq<Target> := [];
      for n := 0 to |rows|
        invariant read == n && Books(Stage.ReadStates, rows)
        invariant Holds(Stage.ReadStates, world, rows, n, collapsed) && Pending(Stage.ReadStates, world, rows, n, order)
        invariant TargetsOf(collapsed, targets)
        invariant writes == [] && winners == []
      {
        read := read + 1;
        var row := rows[n];
        var mapping := MappingOf(world, row);
        if !mapping.To? {
          UnmappedRow(Stage.ReadStates, world, rows, n, collapsed, order);
          Report(Stage.ReadStates, rows, n, row.id,
                 Skipped(if mapping.NoTopic? then DiscussionNotImported else UnmatchedMember));
        } else {
          var t := mapping.target;
          if t in collapsed {
            var held := collapsed[t];
            HeldRow(Stage.ReadStates, world, rows, n, collapsed, t);
            if rows[held].at >= row.at {
              BeatenRow(Stage.ReadStates, world, rows, n, collapsed, order, t);
              Report(Stage.ReadStates, rows, n, row.id, Skipped(SupersededReadState));
            } else {
              LaterRow(Stage.ReadStates, world, rows, n, collapsed, order, t);
              Report(Stage.ReadStates, rows, held, rows[held].id, Skipped(SupersededReadState));
              TargetAdded(collapsed, targets, t, n);
              collapsed := collapsed[t := n];
            }
          } else {
            FirstRow(Stage.ReadStates, world, rows, n, collapsed, order, t);
            TargetAdded(collapsed, targets, t, n);
            collapsed, targets := collapsed[t := n], targets + [t];
          }
        }
      }
      WriteHeld(rows, collapsed, targets);
    }

    method WriteHeld(rows: seq<StateRow>, collapsed: map<Target, nat>, targets: seq<Target>)
      requires read == |rows| && Books(Stage.ReadStates, rows) && writes == [] && winners == []
      requires Holds(Stage.ReadStates, world, rows, |rows|, collapsed) && TargetsOf(collapsed, targets)
      requires Pending(Stage.ReadStates, world, rows, |rows|, order)
      modifies this
      ensures Complete(Stage.ReadStates, rows)
    {
      hide *;
      FlushStart(Stage.ReadStates, world, rows, collapsed, targets, order);
      for k := 0 to |targets|
        invariant read == |rows| && Books(Stage.ReadStates, rows)
        invariant Flushed(collapsed, targets, k, winners) && Owed(Stage.ReadStates, world, rows, order, winners)
        invariant Written(Stage.ReadStates, world, rows, writes, winners)
      {
        var t := targets[k];
        HeldTarget(collapsed, targets, k);
        var held := collapsed[t];
        FlushStep(Stage.ReadStates, world, rows, collapsed, targets, k, order, writes, winners);
        writes := writes + [Write(rows[held], t)];
        winners := winners + [held];
        Report(Stage.ReadStates, rows, held, rows[held].id, if t in world.refused then Failed else Imported(t));
      }
      FlushedAll(Stage.ReadStates, world, rows, collapsed, targets, order, winners);
      ImportDone(Stage.ReadStates, rows);
    }

    /** Writes the first watch for each topic and member as it comes. */
    method ImportWatches(rows: seq<StateRow>)
      requires Unused()
      modifies this
      ensures Complete(Stage.Watches, rows)
    {
      hide *;
      StartImport(Stage.Watches, rows);
      var importedKeys: set<Target> := {};
      ghost var first: map<Target, nat>, dropped: seq<nat> := map[], [];
      for n := 0 to |rows|
        invariant read == n && Books(Stage.Watches, rows)
        invariant Holds(Stage.Watches, world, rows, n, first) && Pending(Stage.Watches, world, rows, n, dropped)
        invariant importedKeys == first.Keys
        invariant WinnersBelow(world, rows, n, order, winners) && Written(Stage.Watches, world, rows, writes, winners)
      {
        read := read + 1;
        var row := rows[n];
        var mapping := MappingOf(world, row);
        if !mapping.To? {
          UnmappedRow(Stage.Watches, world, rows, n, first, dropped);
          dropped := dropped + [n];
          WatchDropped(world, rows, n, order, winners);
          Report(Stage.Watches, rows, n, row.id,
                 Skipped(if mapping.NoTopic? then DiscussionNotImported else UnmatchedMember));
        } else {
          var t := mapping.target;
          if t in importedKeys {
            HeldRow(Stage.Watches, world, rows, n, first, t);
            BeatenRow(Stage.Watches, world, rows, n, first, dropped, t);
            dropped := dropped + [n];
            WatchDropped(world, rows, n, order, winners);
            Report(Stage.Watches, rows, n, row.id, Skipped(DuplicateWatch));
          } else {
            FirstRowWins(Stage.Watches, world, rows, n, first, t);
            FirstRow(Stage.Watches, world, rows, n, first, dropped, t);
            WatchWritten(world, rows, n, order, writes, winners, t);
            importedKeys := importedKeys + {t};
            first := first[t := n];
            writes := writes + [Write(row, t)];
            winners := winners + [n];
            Report(Stage.Watches, rows, n, row.id, if t in world.refused then Failed else Imported(t));
          }
        }
      }
      WatchesDone(world, rows, order, winners);
      ImportDone(Stage.Watches, rows);
    }

    lemma StartImport(stage: Stage, rows: seq<StateRow>)
      requires Unused()
      ensures read == 0 && writes == [] && winners == [] && Books(stage, rows)
      ensures Holds(stage, world, rows, 0, map[]) && Pending(stage, world, rows, 0, []) && TargetsOf(map[], [])
      ensures order == []
      ensures WinnersBelow(world, rows, 0, order, winners) && Written(stage, world, rows, writes, winners)
    {
      NothingRead(stage, world, rows);
    }

    lemma Outcome(stage: Stage, rows: seq<StateRow>)
      requires Complete(stage, rows)
      ensures read == |rows| == counts.imported + counts.skipped + counts.failed
      ensures counts.imported + counts.failed == |writes|
      ensures OneWriteEach(stage, world, Elements(rows), writes)
      ensures stage.Watches? && IdsRise(rows) ==> EarliestWritten(world, Elements(rows), writes)
    {
      hide Reported, Covers, Written, AllWinners, OneWriteEach, EarliestWritten, IdsRise;
      CompletedReport(stage, world, rows, records, order);
      CompletedWrites(stage, world, rows, writes, winners);
      WritesAreReported(stage, world, rows, records, order, writes, winners);
      if stage.Watches? && IdsRise(rows) { FirstWatchIsWritten(world, rows, writes, winners); }
    }

    lemma ImportDone(stage: Stage, rows: seq<StateRow>)
      requires read == |rows| && Books(stage, rows) && Covers(order, |rows|)
      requires Written(stage, world, rows, writes, winners) && AllWinners(stage, world, rows, winners)
      ensures Complete(stage, rows)
    {
      hide Books, Covers, Written, AllWinners;
    }
  }

  lemma HeldRow(stage: Stage, world: World, rows: seq<StateRow>, n: nat, collapsed: map<Target, nat>, t: Target)
    requires n <= |rows| && Holds(stage, world, rows, n, collapsed) && t in collapsed
    ensures collapsed[t] < n
  {
    hide Wins, MappingOf;
  }

  lemma HeldTarget(collapsed: map<Target, nat>, targets: seq<Target>, k: nat)
    requires TargetsOf(collapsed, targets) && k < |targets|
    ensures targets[k] in collapsed
  {}

  // ----- what a completed stage means

  /** One write for each topic and member that some row maps to, made from a row that maps to it, and for read
  states from one with the latest time. */
  ghost predicate OneWriteEach(stage: Stage, world: World, rows: set<StateRow>, writes: seq<Write>) {
    && (forall a, b :: 0 <= a < b < |writes| ==> writes[a].target != writes[b].target)
    && (forall w :: w in writes ==> w.row in rows && MappingOf(world, w.row) == To(w.target))
    && (forall r :: r in rows && MappingOf(world, r).To? ==> TargetWritten(writes, MappingOf(world, r).target))
    && (stage.ReadStates? ==>
          forall r, w :: r in rows && w in writes && MappingOf(world, r) == To(w.target) ==> r.at <= w.row.at)
  }

  ghost predicate TargetWritten(writes: seq<Write>, t: Target) {
    exists w :: w in writes && w.target == t
  }

  lemma CompletedWrites(stage: Stage, world: World, rows: seq<StateRow>, writes: seq<Write>, winners: seq<nat>)
    requires Written(stage, world, rows, writes, winners) && AllWinners(stage, world, rows, winners)
    ensures OneWriteEach(stage, world, Elements(rows), writes)
  {
    hide MappingOf, Wins, Beats;
    forall k | 0 <= k < |writes|
      ensures writes[k].row in rows && MappingOf(world, writes[k].row) == To(writes[k].target)
    {
      HeldPosition(stage, world, rows, |rows|, winners[k]);
    }
    forall a, b | 0 <= a < b < |writes| ensures writes[a].target != writes[b].target {
      if writes[a].target == writes[b].target {
        WinnersAgree(stage, world, rows, |rows|, winners[a], winners[b]);
      }
    }
    forall r | r in rows && MappingOf(world, r).To? ensures TargetWritten(writes, MappingOf(world, r).target) {
      var i :| 0 <= i < |rows| && rows[i] == r;
      var j := WinnerFor(stage, world, rows, |rows|, i);
      var k :| 0 <= k < |winners| && winners[k] == j;
      assert writes[k] in writes;
    }
    if stage.ReadStates? {
      forall r, w | r in rows && w in writes && MappingOf(world, r) == To(w.target) ensures r.at <= w.row.at {
        var i :| 0 <= i < |rows| && rows[i] == r;
        var k :| 0 <= k < |writes| && writes[k] == w;
        var j := WinnerFor(stage, world, rows, |rows|, i);
        WinnersAgree(stage, world, rows, |rows|, j, winners[k]);
      }
    }
  }

  /** The report balances, and its lines are about the rows read, each once. */
  lemma CompletedReport(stage: Stage, world: World, rows: seq<StateRow>, records: seq<Record>, order: seq<nat>)
    requires Reported(stage, world, rows, records, order) && Covers(order, |rows|)
    ensures var counts := CountsOf(records);
            |rows| == |records| == counts.imported + counts.skipped + counts.failed
    ensures forall r :: r in rows ==> exists l :: l in records && l.id == r.id
  {
    hide OutcomeOf, CountsOf, Counted;
    UptoCounts(|rows|);
    DistinctCounts(order);
    assert forall j: nat :: j in order <==> j in Upto(|rows|);
    assert Elements(order) == Upto(|rows|);
    forall r | r in rows ensures exists l :: l in records && l.id == r.id {
      var i: nat :| i < |rows| && rows[i] == r;
      assert i in order;
      var k :| 0 <= k < |order| && order[k] == i;
      assert records[k] in records;
    }
  }

  /** Every write is reported as imported or failed, and everything else is reported as skipped. */
  lemma WritesAreReported(stage: Stage, world: World, rows: seq<StateRow>, records: seq<Record>, order: seq<nat>,
                          writes: seq<Write>, winners: seq<nat>)
    requires Reported(stage, world, rows, records, order) && Covers(order, |rows|)
    requires Written(stage, world, rows, writes, winners) && AllWinners(stage, world, rows, winners)
    ensures CountsOf(records).imported + CountsOf(records).failed == |writes|
  {
    hide OutcomeOf, CountsOf, Counted, Wins, Reported, Covers, Written, AllWinners, LinesWith, LosersOf, Distinct;
    CountsMean(records);
    CompletedReport(stage, world, rows, records, order);
    SkippedAreLost(stage, world, rows, records, order, writes, winners);
    SameSize(order, LinesWith(records, IsSkipped), LosersOf(rows, winners));
    LostAndWritten(stage, world, rows, writes, winners);
  }

  /** The positions of the rows that are not written. */
  ghost function LosersOf(rows: seq<StateRow>, winners: seq<nat>): set<nat> {
    set j: nat | j < |rows| && j !in winners
  }

  lemma WinnerIsRow(stage: Stage, world: World, rows: seq<StateRow>, writes: seq<Write>, winners: seq<nat>, j: nat)
    requires Written(stage, world, rows, writes, winners) && j in winners
    ensures j < |rows| && Wins(stage, world, rows, |rows|, j)
  {
    hide Beats, MappingOf;
  }

  lemma SkippedAreLost(stage: Stage, world: World, rows: seq<StateRow>, records: seq<Record>, order: seq<nat>,
                       writes: seq<Write>, winners: seq<nat>)
    requires Reported(stage, world, rows, records, order) && Covers(order, |rows|)
    requires Written(stage, world, rows, writes, winners) && AllWinners(stage, world, rows, winners)
    ensures |order| == |records| && Distinct(order)
    ensures forall k :: k in LinesWith(records, IsSkipped) ==> k < |order|
    ensures forall k: nat :: k < |order| ==> (k in LinesWith(records, IsSkipped) <==> order[k] in LosersOf(rows, winners))
    ensures forall j :: j in LosersOf(rows, winners) ==> j in order
  {
    hide Beats, MappingOf, Wins;
    forall k: nat | k < |order| && order[k] in winners ensures Wins(stage, world, rows, |rows|, order[k]) {
      WinnerIsRow(stage, world, rows, writes, winners, order[k]);
    }
    forall j: nat | j < |rows| ensures OutcomeOf(stage, world, rows, j).Skipped? <==> !Wins(stage, world, rows, |rows|, j) {
      SkippedUnlessWon(stage, world, rows, j);
    }
  }

  lemma SkippedUnlessWon(stage: Stage, world: World, rows: seq<StateRow>, j: nat)
    requires j < |rows|
    ensures OutcomeOf(stage, world, rows, j).Skipped? <==> !Wins(stage, world, rows, |rows|, j)
  {
    hide Beats;
  }

  lemma LostAndWritten(stage: Stage, world: World, rows: seq<StateRow>, writes: seq<Write>, winners: seq<nat>)
    requires Written(stage, world, rows, writes, winners)
    ensures |LosersOf(rows, winners)| + |writes| == |rows|
  {
    hide Beats, MappingOf, Wins;
    DistinctCounts(winners);
    UptoCounts(|rows|);
    forall j | j in Elements(winners) ensures j in Upto(|rows|) {
      WinnerIsRow(stage, world, rows, writes, winners, j);
    }
    assert Upto(|rows|) == LosersOf(rows, winners) + Elements(winners);
    assert LosersOf(rows, winners) !! Elements(winners);
  }

  /** A sequence without repeats that runs through all of one set at the positions of another shows they have one size. */
  lemma {:induction false} SameSize(order: seq<nat>, positions: set<nat>, values: set<nat>)
    requires Distinct(order) && forall k :: k in positions ==> k < |order|
    requires forall k: nat :: k < |order| ==> (k in positions <==> order[k] in values)
    requires forall j :: j in values ==> j in order
    ensures |positions| == |values|
    decreases |order|
  {
    if order == [] {
      assert positions == {} && values == {};
    } else {
      var n := |order| - 1;
      var init := order[..n];
      assert order == init + [order[n]];
      assert order[n] !in init;
      SameSize(init, positions - {n}, values - {order[n]});
    }
  }

  /** Among watches the first row of a target is the one written. */
  ghost predicate EarliestWritten(world: World, rows: set<StateRow>, writes: seq<Write>) {
    forall r, w :: r in rows && w in writes && MappingOf(world, r) == To(w.target) ==>
      || w.row.id.discussionId < r.id.discussionId
      || (w.row.id.discussionId == r.id.discussionId && w.row.id.userId <= r.id.userId)
  }

  ghost predicate IdsRise(rows: seq<StateRow>) {
    forall i, j :: 0 <= i < j < |rows| ==> Before(rows[i].id, rows[j].id)
  }

  lemma FirstWatchIsWritten(world: World, rows: seq<StateRow>, writes: seq<Write>, winners: seq<nat>)
    requires Written(Stage.Watches, world, rows, writes, winners) && IdsRise(rows)
    ensures EarliestWritten(world, Elements(rows), writes)
  {
    hide MappingOf, Wins, Beats;
    forall r, w | r in Elements(rows) && w in writes && MappingOf(world, r) == To(w.target)
      ensures || w.row.id.discussionId < r.id.discussionId
              || (w.row.id.discussionId == r.id.discussionId && w.row.id.userId <= r.id.userId)
    {
      var i :| 0 <= i < |rows| && rows[i] == r;
      var k :| 0 <= k < |writes| && writes[k] == w;
      HeldPosition(Stage.Watches, world, rows, |rows|, winners[k]);
      var j := WinnerFor(Stage.Watches, world, rows, |rows|, i);
      HeldPosition(Stage.Watches, world, rows, |rows|, j);
      WinnersAgree(Stage.Watches, world, rows, |rows|, j, winners[k]);
    }
  }

  // ----- from the source table to the target tables

  function Normalize(stage: Stage, now: int, row: SourceRow): StateRow {
    StateRow(KeyOf(row), if row.viewedAt.Some? then row.viewedAt.value else now)
  }

  /** The rows a stage is about. */
  ghost function SourcesOf(stage: Stage, table: seq<SourceRow>, now: int): set<StateRow> {
    set r | r in table && Behind(stage, START, r) :: Normalize(stage, now, r)
  }

  /** The rows of a stage, read off the source table: every row with a bookmark, at its last view or else at the time of the
  import; or every row with a last view, at that time. Rows with key (0, 0) or before it are not reached. */
  lemma SourcesMean(stage: Stage, table: seq<SourceRow>, now: int, x: StateRow)
    ensures x in SourcesOf(stage, table, now) <==>
              exists r :: r in table && Qualified(stage, r)
                          && x.id.discussionId == r.discussionId && x.id.userId == r.userId
                          && x.at == (if r.viewedAt.Some? then r.viewedAt.value else now)
  {
    hide Before;
    forall r ensures Behind(stage, START, r) <==> Qualified(stage, r) {
      OrderMeans(stage, [r]);
    }
    if x in SourcesOf(stage, table, now) {
      var r :| r in table && Behind(stage, START, r) && Normalize(stage, now, r) == x;
    }
    if r :| r in table && Qualified(stage, r) && x.id.discussionId == r.discussionId && x.id.userId == r.userId
            && x.at == (if r.viewedAt.Some? then r.viewedAt.value else now) {
      assert x == Normalize(stage, now, r);
    }
  }

  ghost predicate Qualified(stage: Stage, r: SourceRow) {
    && (stage.Watches? ==> r.bookmarked) && (stage.ReadStates? ==> r.viewedAt.Some?)
    && (r.discussionId > 0 || (r.discussionId == 0 && r.userId > 0))
  }

  function Normalized(stage: Stage, now: int, yielded: seq<SourceRow>): seq<StateRow> {
    if yielded == [] then [] else [Normalize(stage, now, yielded[0])] + Normalized(stage, now, yielded[1..])
  }

  lemma {:induction false} NormalizedRows(stage: Stage, now: int, yielded: seq<SourceRow>)
    requires StrictlyOrdered(yielded)
    ensures var rows := Normalized(stage, now, yielded);
            && |rows| == |yielded| && Distinct(rows)
            && forall i :: 0 <= i < |rows| ==> rows[i] == Normalize(stage, now, yielded[i])
  {
    if yielded != [] {
      NormalizedRows(stage, now, yielded[1..]);
    }
  }

  lemma IdsAreKeys(stage: Stage, now: int, yielded: seq<SourceRow>, rows: seq<StateRow>)
    requires StrictlyOrdered(yielded) && |rows| == |yielded|
    requires forall i :: 0 <= i < |rows| ==> rows[i] == Normalize(stage, now, yielded[i])
    ensures IdsRise(rows)
  {}

  lemma SourcesRead(stage: Stage, table: seq<SourceRow>, now: int, yielded: seq<SourceRow>)
    requires StrictlyOrdered(yielded) && forall r :: r in yielded <==> r in table && Behind(stage, START, r)
    ensures Elements(Normalized(stage, now, yielded)) == SourcesOf(stage, table, now)
    ensures |Normalized(stage, now, yielded)| == |SourcesOf(stage, table, now)|
    ensures IdsRise(Normalized(stage, now, yielded))
  {
    hide Normalize, Normalized, Behind, StrictlyOrdered;
    NormalizedRows(stage, now, yielded);
    var rows := Normalized(stage, now, yielded);
    IdsAreKeys(stage, now, yielded, rows);
    forall x ensures x in Elements(rows) <==> x in SourcesOf(stage, table, now) {
      if x in rows {
        var i :| 0 <= i < |rows| && rows[i] == x;
        assert yielded[i] in yielded;
      }
      if x in SourcesOf(stage, table, now) {
        var r :| r in table && Behind(stage, START, r) && Normalize(stage, now, r) == x;
        assert r in yielded;
        var i :| 0 <= i < |yielded| && yielded[i] == r;
        assert rows[i] == x;
      }
    }
    DistinctCounts(rows);
  }

  /** A whole stage over the source table, with any page size: every qualifying row is read and reported once, and
  each topic and member it maps to is written once; only a page size of zero reads nothing at all. */
  method ImportStage(stage: Stage, table: seq<SourceRow>, batchSize: nat, now: int, world: World)
      returns (read: nat, counts: Counts, writes: seq<Write>)
    requires UniqueKeys(table)
    ensures var sources := SourcesOf(stage, if batchSize > 0 then table else [], now);
            && read == |sources| == counts.imported + counts.skipped + counts.failed
            && counts.imported + counts.failed == |writes|
            && OneWriteEach(stage, world, sources, writes)
            && (stage.Watches? ==> EarliestWritten(world, sources, writes))
  {
    hide IdsRise, EarliestWritten, Behind, UniqueKeys, StrictlyOrdered, SourcesOf, Normalized, OneWriteEach,
      StateImporter.Books, StateImporter.Unused,
      Reported, Covers, Written, AllWinners;
    var yielded := ReadAll(stage, table, batchSize);
    SourcesRead(stage, if batchSize > 0 then table else [], now, yielded);
    var rows := Normalized(stage, now, yielded);
    var importer := new StateImporter(world);
    if stage.Watches? {
      importer.ImportWatches(rows);
    } else {
      importer.ImportReadStates(rows);
    }
    importer.Outcome(stage, rows);
    return importer.read, importer.counts, importer.writes;
  }
}
