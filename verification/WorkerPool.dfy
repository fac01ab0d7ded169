/** The bounded worker pool that checks notification recipients.

Workers share a counter and a result buffer. Between two suspension points a worker runs alone, so a run is a
sequence of worker turns, in any order; a turn claims the next item, delivers the value of a finished call, or stops.
*/
module WorkerPool {
  import opened Basics

  datatype Worker<+E> = AtHead | Running(index: nat) | Done | Crashed(error: E)

  datatype State<+R, +E> = State(nextIndex: nat, results: seq<Option<R>>, workers: seq<Worker<E>>,
                                 claims: seq<nat>, rejection: Option<E>)

  /** What the mapper does with each item, in order. */
  type Calls<R, E> = seq<Result<R, E>>

  function WorkerCount(concurrency: int, items: nat): nat {
    var wanted := if concurrency > 1 then concurrency else 1;
    if wanted < items then wanted else items
  }

  function Start<R, E>(calls: Calls<R, E>, concurrency: int): State<R, E> {
    State(0, seq(|calls|, _ => None), seq(WorkerCount(concurrency, |calls|), _ => AtHead), [], None)
  }

  /** One turn of worker `w`; a worker that has stopped has no more turns. */
  function Turn<R, E>(calls: Calls<R, E>, s: State<R, E>, w: nat): State<R, E>
    requires |s.results| == |calls| && w < |s.workers|
    requires s.workers[w].Running? ==> s.workers[w].index < |calls|
  {
    match s.workers[w]
    case AtHead =>
      if s.nextIndex < |calls| then
        s.(nextIndex := s.nextIndex + 1, workers := s.workers[w := Running(s.nextIndex)], claims := s.claims + [s.nextIndex])
      else s.(workers := s.workers[w := Done])
    case Running(i) =>
      (match calls[i]
       case Ok(value) => s.(results := s.results[i := Some(value)], workers := s.workers[w := AtHead])
       case Err(error) =>
         s.(workers := s.workers[w := Crashed(error)], rejection := if s.rejection.None? then Some(error) else s.rejection))
    case _ => s
  }

  predicate Stopped<E>(worker: Worker<E>) {
    worker.Done? || worker.Crashed?
  }

  ghost predicate AllStopped<R, E>(s: State<R, E>) {
    forall w :: 0 <= w < |s.workers| ==> Stopped(s.workers[w])
  }

  // ----- what every turn keeps

  /** Indices are handed out in order, each once. */
  ghost predicate Claims<R, E>(calls: Calls<R, E>, s: State<R, E>) {
    && |s.results| == |calls| && s.nextIndex <= |calls|
    && |s.claims| == s.nextIndex && forall k :: 0 <= k < |s.claims| ==> s.claims[k] == k
  }

  /** A worker in a call has an index of its own, not delivered yet. */
  ghost predicate Calling<R, E>(calls: Calls<R, E>, s: State<R, E>)
    requires |s.results| == |calls|
  {
    && (forall w :: 0 <= w < |s.workers| && s.workers[w].Running? ==>
          s.workers[w].index < s.nextIndex <= |calls| && s.results[s.workers[w].index].None?)
    && (forall v, w :: 0 <= v < w < |s.workers| && s.workers[v].Running? && s.workers[w].Running? ==>
          s.workers[v].index != s.workers[w].index)
  }

  /** A delivered value is the mapper's value for that index. */
  ghost predicate Delivered<R, E>(calls: Calls<R, E>, s: State<R, E>)
    requires |s.results| == |calls|
  {
    forall i :: 0 <= i < |calls| && s.results[i].Some? ==> i < s.nextIndex && calls[i] == Ok(s.results[i].value)
  }

  /** Worker `w` holds call `i`. */
  predicate Holds<E>(worker: Worker<E>, i: nat) {
    worker == Running(i)
  }

  /** A claimed call that has not delivered is still running, or has failed and rejected the pool. */
  ghost predicate Accounted<R, E>(calls: Calls<R, E>, s: State<R, E>)
    requires |s.results| == |calls|
  {
    forall i :: 0 <= i < s.nextIndex <= |calls| && s.results[i].None? ==>
      (calls[i].Err? && s.rejection.Some?) || exists w :: 0 <= w < |s.workers| && Holds(s.workers[w], i)
  }

  /** Workers give up only when nothing is left or their call failed; the pool is rejected with a failed call's error. */
  ghost predicate Exits<R, E>(calls: Calls<R, E>, s: State<R, E>) {
    && (forall w :: 0 <= w < |s.workers| && s.workers[w].Done? ==> s.nextIndex == |calls|)
    && (forall w :: 0 <= w < |s.workers| && s.workers[w].Crashed? ==> s.rejection.Some?)
    && (s.rejection.Some? ==> exists i :: 0 <= i < s.nextIndex <= |calls| && calls[i] == Err(s.rejection.value))
  }

  ghost predicate Inv<R, E>(calls: Calls<R, E>, s: State<R, E>) {
    Claims(calls, s) && Calling(calls, s) && Delivered(calls, s) && Accounted(calls, s) && Exits(calls, s)
  }

  lemma StartInv<R, E>(calls: Calls<R, E>, concurrency: int)
    ensures Inv(calls, Start(calls, concurrency))
  {}

  lemma TurnClaims<R, E>(calls: Calls<R, E>, s: State<R, E>, w: nat)
    requires Inv(calls, s) && w < |s.workers|
    ensures Claims(calls, Turn(calls, s, w))
  {
    hide Delivered, Accounted, Exits;
  }

  lemma TurnCalling<R, E>(calls: Calls<R, E>, s: State<R, E>, w: nat)
    requires Inv(calls, s) && w < |s.workers|
    ensures |Turn(calls, s, w).results| == |calls| && Calling(calls, Turn(calls, s, w))
    ensures Delivered(calls, Turn(calls, s, w))
  {
    hide Accounted, Exits;
  }

  lemma TurnAccounted<R, E>(calls: Calls<R, E>, s: State<R, E>, w: nat)
    requires Inv(calls, s) && w < |s.workers|
    ensures |Turn(calls, s, w).results| == |calls| && Accounted(calls, Turn(calls, s, w))
  {
    hide Exits, Delivered;
    var t := Turn(calls, s, w);
    forall i | 0 <= i < t.nextIndex && t.results[i].None?
      ensures (calls[i].Err? && t.rejection.Some?) || exists v :: 0 <= v < |t.workers| && Holds(t.workers[v], i)
    {
      if i == s.nextIndex {
        assert Holds(t.workers[w], i);
      } else if !(calls[i].Err? && s.rejection.Some?) {
        var v :| 0 <= v < |s.workers| && Holds(s.workers[v], i);
        assert v != w ==> Holds(t.workers[v], i);
      }
    }
  }

  lemma TurnExits<R, E>(calls: Calls<R, E>, s: State<R, E>, w: nat)
    requires Inv(calls, s) && w < |s.workers|
    ensures Exits(calls, Turn(calls, s, w))
  {
    hide Delivered, Accounted;
    var t := Turn(calls, s, w);
    if s.rejection.Some? {
      var i :| 0 <= i < s.nextIndex && calls[i] == Err(s.rejection.value);
      assert calls[i] == Err(t.rejection.value);
    } else if t.rejection.Some? {
      assert calls[s.workers[w].index] == Err(t.rejection.value);
    }
  }

  /** Every turn of every worker keeps the protocol's invariant. */
  lemma TurnInv<R, E>(calls: Calls<R, E>, s: State<R, E>, w: nat)
    requires Inv(calls, s) && w < |s.workers|
    ensures Inv(calls, Turn(calls, s, w)) && |Turn(calls, s, w).workers| == |s.workers|
  {
    TurnClaims(calls, s, w);
    TurnCalling(calls, s, w);
    TurnAccounted(calls, s, w);
    TurnExits(calls, s, w);
  }

  // ----- whole runs

  /** A schedule names the worker that takes each turn. */
  ghost predicate Schedule(workers: nat, schedule: seq<nat>) {
    forall k :: 0 <= k < |schedule| ==> schedule[k] < workers
  }

  /** The state after the turns of a schedule, from the start. */
  ghost function Run<R, E>(calls: Calls<R, E>, concurrency: int, schedule: seq<nat>): (s: State<R, E>)
    requires Schedule(WorkerCount(concurrency, |calls|), schedule)
    ensures Inv(calls, s) && |s.workers| == WorkerCount(concurrency, |calls|)
  {
    if schedule == [] then
      StartInv(calls, concurrency);
      Start(calls, concurrency)
    else
      var before := Run(calls, concurrency, schedule[..|schedule| - 1]);
      TurnInv(calls, before, schedule[|schedule| - 1]);
      Turn(calls, before, schedule[|schedule| - 1])
  }

  /** The mapper calls in progress. */
  ghost function InFlight<R, E>(s: State<R, E>): set<nat> {
    set w | 0 <= w < |s.workers| && s.workers[w].Running? :: s.workers[w].index
  }

  /** In every scheduling each index is claimed once, in order, and at most max(concurrency, 1) calls are in
  progress. */
  lemma BoundedAndClaimedOnce<R, E>(calls: Calls<R, E>, concurrency: int, schedule: seq<nat>)
    requires Schedule(WorkerCount(concurrency, |calls|), schedule)
    ensures var s := Run(calls, concurrency, schedule);
            && |s.claims| == s.nextIndex <= |calls| && (forall k :: 0 <= k < |s.claims| ==> s.claims[k] == k)
            && |InFlight(s)| <= WorkerCount(concurrency, |calls|) <= (if concurrency > 1 then concurrency else 1)
            && |InFlight(s)| <= |calls|
  {
    hide Run, Calling, Delivered, Accounted, Exits;
    var s := Run(calls, concurrency, schedule);
    forall i | i in InFlight(s) ensures exists w :: 0 <= w < |s.workers| && Holds(s.workers[w], i) {
      var w :| 0 <= w < |s.workers| && s.workers[w].Running? && s.workers[w].index == i;
      assert Holds(s.workers[w], i);
    }
    WorkersBound(s.workers, InFlight(s));
  }

  /** The bound is used: when every worker has taken one turn, exactly max(concurrency, 1) calls are in progress, or as many as
  there are items. */
  lemma PoolIsFilled<R, E>(calls: Calls<R, E>, concurrency: int, n: nat)
    requires n <= WorkerCount(concurrency, |calls|)
    ensures WorkerCount(concurrency, |calls|) ==
            (if 1 <= concurrency < |calls| then concurrency else if concurrency < 1 < |calls| then 1 else |calls|)
    ensures Schedule(WorkerCount(concurrency, |calls|), InTurn(n))
    ensures |InFlight(Run(calls, concurrency, InTurn(n)))| == n
  {
    hide InFlight;
    FirstTurns(calls, concurrency, n);
    FirstCallsRun(Run(calls, concurrency, InTurn(n)), n);
  }

  /** Workers 0 to `n - 1`, one turn each. */
  ghost function InTurn(n: nat): (schedule: seq<nat>)
    ensures |schedule| == n && forall w :: 0 <= w < n ==> schedule[w] == w
  {
    seq(n, w requires 0 <= w < n => w)
  }

  /** The first `n` workers are in the first `n` calls, the others have not begun. */
  ghost predicate Filled<R, E>(s: State<R, E>, n: nat) {
    && s.nextIndex == n <= |s.workers|
    && forall w :: 0 <= w < |s.workers| ==> s.workers[w] == if w < n then Running(w) else AtHead
  }

  lemma {:induction false} FirstTurns<R, E>(calls: Calls<R, E>, concurrency: int, n: nat)
    requires n <= WorkerCount(concurrency, |calls|)
    ensures Schedule(WorkerCount(concurrency, |calls|), InTurn(n))
    ensures Filled(Run(calls, concurrency, InTurn(n)), n)
  {
    hide Inv;
    if n > 0 {
      FirstTurns(calls, concurrency, n - 1);
      assert InTurn(n)[..n - 1] == InTurn(n - 1);
    }
  }

  lemma FirstCallsRun<R, E>(s: State<R, E>, n: nat)
    requires Filled(s, n)
    ensures |InFlight(s)| == n
  {
    forall i ensures i in InFlight(s) <==> 0 <= i < n {
      if 0 <= i < n { assert s.workers[i].Running? && s.workers[i].index == i; }
    }
    UptoCounts(n);
    assert InFlight(s) == Upto(n);
  }

  lemma {:induction false} WorkersBound<E>(workers: seq<Worker<E>>, inFlight: set<nat>)
    requires forall i :: i in inFlight ==> exists w :: 0 <= w < |workers| && Holds(workers[w], i)
    ensures |inFlight| <= |workers|
  {
    if workers == [] {
      assert inFlight == {};
    } else {
      var last := workers[|workers| - 1];
      var rest := if last.Running? then inFlight - {last.index} else inFlight;
      var init := workers[..|workers| - 1];
      forall i | i in rest ensures exists w :: 0 <= w < |init| && Holds(init[w], i) {
        var w :| 0 <= w < |workers| && Holds(workers[w], i);
        assert Holds(init[w], i);
      }
      WorkersBound(init, rest);
    }
  }

  /** When every worker has stopped: either every call succeeded and every result is in place, or some call failed
  and the pool is rejected with a failed call's error. */
  lemma StoppedOutcome<R, E>(calls: Calls<R, E>, s: State<R, E>)
    requires Inv(calls, s) && AllStopped(s) && (|calls| > 0 ==> |s.workers| > 0)
    ensures s.rejection.None? <==> forall i :: 0 <= i < |calls| ==> calls[i].Ok?
    ensures s.rejection.None? ==> forall i :: 0 <= i < |calls| ==> s.results[i].Some? && calls[i] == Ok(s.results[i].value)
    ensures s.rejection.Some? ==> exists i :: 0 <= i < |calls| && calls[i] == Err(s.rejection.value)
  {
    if s.rejection.None? {
      if |calls| > 0 {
        assert s.workers[0].Done?;
      }
      forall w, i: nat | 0 <= w < |s.workers| ensures !Holds(s.workers[w], i) {
        assert Stopped(s.workers[w]);
      }
    }
  }

  /** Every complete schedule ends that way. */
  lemma EveryScheduleDelivers<R, E>(calls: Calls<R, E>, concurrency: int, schedule: seq<nat>)
    requires Schedule(WorkerCount(concurrency, |calls|), schedule) && AllStopped(Run(calls, concurrency, schedule))
    ensures var s := Run(calls, concurrency, schedule);
            && |s.results| == |calls|
            && (s.rejection.None? <==> forall i :: 0 <= i < |calls| ==> calls[i].Ok?)
            && (s.rejection.None? ==>
                  forall i :: 0 <= i < |calls| ==> s.results[i].Some? && calls[i] == Ok(s.results[i].value))
            && (s.rejection.Some? ==> exists i :: 0 <= i < |calls| && calls[i] == Err(s.rejection.value))
  {
    hide Run, Calling, Delivered, Accounted, Exits, AllStopped;
    StoppedOutcome(calls, Run(calls, concurrency, schedule));
  }

  // ----- every run ends

  ghost function Effort<E>(worker: Worker<E>): nat {
    match worker
    case AtHead => 1
    case Running(_) => 2
    case _ => 0
  }

  ghost function Efforts<E>(workers: seq<Worker<E>>): nat {
    if workers == [] then 0 else Efforts(workers[..|workers| - 1]) + Effort(workers[|workers| - 1])
  }

  /** What is left to do. */
  ghost function Remaining<R, E>(calls: Calls<R, E>, s: State<R, E>): int {
    2 * (|calls| - s.nextIndex) + Efforts(s.workers)
  }

  lemma {:induction false} EffortsUpdate<E>(workers: seq<Worker<E>>, w: nat, worker: Worker<E>)
    requires w < |workers|
    ensures Efforts(workers[w := worker]) == Efforts(workers) - Effort(workers[w]) + Effort(worker)
  {
    hide Effort;
    var init := workers[..|workers| - 1];
    if w == |workers| - 1 {
      assert workers[w := worker][..|workers| - 1] == init;
    } else {
      EffortsUpdate(init, w, worker);
      assert workers[w := worker][..|workers| - 1] == init[w := worker];
    }
  }

  /** A turn of a worker that has not stopped brings the end nearer. */
  lemma TurnProgress<R, E>(calls: Calls<R, E>, s: State<R, E>, w: nat)
    requires Inv(calls, s) && w < |s.workers|
    ensures Remaining(calls, Turn(calls, s, w)) <= Remaining(calls, s) - (if Stopped(s.workers[w]) then 0 else 1)
  {
    hide Efforts, Delivered, Accounted, Exits;
    if s.workers[w].AtHead? {
      EffortsUpdate(s.workers, w, if s.nextIndex < |calls| then Running(s.nextIndex) else Done);
    } else if s.workers[w].Running? {
      match calls[s.workers[w].index]
      case Ok(_) => EffortsUpdate(s.workers, w, AtHead);
      case Err(error) => EffortsUpdate(s.workers, w, Crashed(error));
    }
  }

  /** The turns of a schedule that fall to a worker still at work. */
  ghost function UsefulTurns<R, E>(calls: Calls<R, E>, concurrency: int, schedule: seq<nat>): nat
    requires Schedule(WorkerCount(concurrency, |calls|), schedule)
  {
    if schedule == [] then 0
    else
      var init, w := schedule[..|schedule| - 1], schedule[|schedule| - 1];
      UsefulTurns(calls, concurrency, init) + (if Stopped(Run(calls, concurrency, init).workers[w]) then 0 else 1)
  }

  /** A run is over after at most two turns for each item and one for each worker. */
  lemma {:induction false} RunsAreBounded<R, E>(calls: Calls<R, E>, concurrency: int, schedule: seq<nat>)
    requires Schedule(WorkerCount(concurrency, |calls|), schedule)
    ensures UsefulTurns(calls, concurrency, schedule) + Remaining(calls, Run(calls, concurrency, schedule))
            <= 2 * |calls| + WorkerCount(concurrency, |calls|)
    ensures UsefulTurns(calls, concurrency, schedule) <= 2 * |calls| + WorkerCount(concurrency, |calls|)
  {
    hide Turn, Remaining, Inv;
    if schedule == [] {
      StartRemaining(calls, concurrency);
    } else {
      var init, w := schedule[..|schedule| - 1], schedule[|schedule| - 1];
      RunsAreBounded(calls, concurrency, init);
      TurnProgress(calls, Run(calls, concurrency, init), w);
    }
    RemainingNat(calls, Run(calls, concurrency, schedule));
  }

  lemma RemainingNat<R, E>(calls: Calls<R, E>, s: State<R, E>)
    requires Inv(calls, s)
    ensures Remaining(calls, s) >= 0
  {
    hide Calling, Delivered, Accounted, Exits, Efforts;
  }

  lemma StartRemaining<R, E>(calls: Calls<R, E>, concurrency: int)
    ensures Remaining(calls, Start(calls, concurrency)) == 2 * |calls| + WorkerCount(concurrency, |calls|)
  {
    EffortsAtHead(Start(calls, concurrency).workers);
  }

  lemma {:induction false} EffortsAtHead<E>(workers: seq<Worker<E>>)
    requires forall w :: 0 <= w < |workers| ==> workers[w].AtHead?
    ensures Efforts(workers) == |workers|
  {
    if workers != [] {
      EffortsAtHead(workers[..|workers| - 1]);
    }
  }

  // ----- the pool itself

  class Pool<R, E> {
    const calls: Calls<R, E>
    var nextIndex: nat
    var results: array<Option<R>>
    var workers: array<Worker<E>>
    var rejection: Option<E>
    ghost var claims: seq<nat>

    constructor (calls: Calls<R, E>, concurrency: int)
      ensures fresh(results) && fresh(workers) && Valid() && this.calls == calls
      ensures View() == Start(calls, concurrency)
    {
      this.calls := calls;
      results := new Option<R>[|calls|](_ => None);
      workers := new Worker<E>[WorkerCount(concurrency, |calls|)](_ => AtHead);
      nextIndex, rejection, claims := 0, None, [];
      new;
      assert View().results == Start(calls, concurrency).results;
      assert View().workers == Start(calls, concurrency).workers;
      StartInv(calls, concurrency);
    }

    ghost function View(): State<R, E>
      reads this, results, workers
    {
      State(nextIndex, results[..], workers[..], claims, rejection)
    }

    ghost predicate Valid()
      reads this, results, workers
    {
      Inv(calls, View())
    }

    /** Lets worker `w` take its turn. */
    method TakeTurn(w: nat)
      requires Valid() && w < workers.Length
      modifies this`nextIndex, this`claims, this`rejection, results, workers
      ensures Valid() && View() == Turn(calls, old(View()), w)
    {
      hide Delivered, Accounted, Exits;
      TurnInv(calls, View(), w);
      match workers[w] {
        case AtHead =>
          if nextIndex < |calls| {
            workers[w] := Running(nextIndex);
            claims := claims + [nextIndex];
            nextIndex := nextIndex + 1;
          } else {
            workers[w] := Done;
          }
        case Running(i) =>
          match calls[i] {
            case Ok(value) =>
              results[i] := Some(value);
              workers[w] := AtHead;
            case Err(error) =>
              workers[w] := Crashed(error);
              if rejection.None? {
                rejection := Some(error);
              }
          }
        case _ =>
      }
      assert View() == Turn(calls, old(View()), w);
    }
  }

  /** Maps items through fallible calls, however the scheduler interleaves the workers: the results in the order of
  the items if every call succeeds, and otherwise the error of a call that failed. */
  method MapWithBoundedConcurrency<T, R, E>(items: seq<T>, concurrency: int, mapper: (T, nat) -> Result<R, E>)
      returns (outcome: Result<seq<R>, E>)
    ensures outcome.Ok? <==> forall i :: 0 <= i < |items| ==> mapper(items[i], i).Ok?
    ensures outcome.Ok? ==>
              |outcome.value| == |items| && forall i :: 0 <= i < |items| ==> mapper(items[i], i) == Ok(outcome.value[i])
    ensures outcome.Err? ==> exists i :: 0 <= i < |items| && mapper(items[i], i) == Err(outcome.error)
  {
    hide Inv, Turn, Remaining, Start;
    var calls := seq(|items|, i requires 0 <= i < |items| => mapper(items[i], i));
    var pool := new Pool(calls, concurrency);
    StartWorkers(calls, concurrency);
    while exists w :: 0 <= w < pool.workers.Length && !Stopped(pool.workers[w])
      invariant pool.Valid() && pool.calls == calls && fresh(pool) && fresh(pool.results) && fresh(pool.workers)
      invariant pool.workers.Length == WorkerCount(concurrency, |calls|)
      decreases Remaining(calls, pool.View())
    {
      var w :| 0 <= w < pool.workers.Length && !Stopped(pool.workers[w]);
      TurnProgress(calls, pool.View(), w);
      pool.TakeTurn(w);
      RemainingNat(calls, pool.View());
    }
    StoppedOutcome(calls, pool.View());
    ghost var s := pool.View();
    assert s.rejection == pool.rejection && s.results == pool.results[..];
    InvLengths(calls, s);
    if pool.rejection.Some? {
      return Err(pool.rejection.value);
    }
    var values := pool.results[..];
    forall i | 0 <= i < |items| ensures mapper(items[i], i) == Ok(values[i].value) {
      assert calls[i] == Ok(s.results[i].value);
    }
    return Ok(seq(|values|, i requires 0 <= i < |values| && values[i].Some? => values[i].value));
  }

  lemma StartWorkers<R, E>(calls: Calls<R, E>, concurrency: int)
    ensures |Start(calls, concurrency).workers| == WorkerCount(concurrency, |calls|)
  {}

  lemma InvLengths<R, E>(calls: Calls<R, E>, s: State<R, E>)
    requires Inv(calls, s)
    ensures |s.results| == |calls|
  {}
}
