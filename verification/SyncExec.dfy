/**
 * The sync executor: copies, then deletes, each through a worker pool of bounded size that stops
 * spawning on a fatal error, or on any error when asked to exit on error.
 */
module SyncExec {
  import opened Prelude

  datatype TaskResult = Success | Failure(fatal: bool)

  datatype Event = Spawn(task: nat) | Report(task: nat, result: TaskResult)

  /** What the loop knows: tasks are numbered by their place in the plan. */
  datatype Pool = Pool(spawned: nat, open: set<nat>, closed: set<nat>, ok: nat, hadError: bool, fatal: bool)

  function Apply(p: Pool, e: Event): Pool {
    match e
    case Spawn(t) => p.(spawned := p.spawned + 1, open := p.open + {t})
    case Report(t, r) =>
      p.(open := p.open - {t}, closed := p.closed + {t},
         ok := if r.Success? then p.ok + 1 else p.ok,
         hadError := p.hadError || r.Failure?,
         fatal := p.fatal || (r.Failure? && r.fatal))
  }

  /** The pool after a log, starting with the errors of an earlier phase. */
  function After(log: seq<Event>, hadError: bool): Pool {
    if log == [] then Pool(0, {}, {}, 0, hadError, false)
    else Apply(After(log[..|log| - 1], hadError), log[|log| - 1])
  }

  predicate Stopped(p: Pool, exitOnError: bool) {
    (exitOnError && p.hadError) || p.fatal
  }

  /** The pool may do this next: spawn the next planned task into a free slot, or report a running one. */
  predicate StepOk(p: Pool, e: Event, workers: nat, exitOnError: bool) {
    match e
    case Spawn(t) => t == p.spawned && |p.open| < workers && !Stopped(p, exitOnError)
    case Report(t, _) => t in p.open
  }

  ghost predicate ValidLog(log: seq<Event>, workers: nat, exitOnError: bool, hadError: bool) {
    forall k :: 0 <= k < |log| ==> StepOk(After(log[..k], hadError), log[k], workers, exitOnError)
  }

  lemma LogSnoc(log: seq<Event>, e: Event, workers: nat, exitOnError: bool, hadError: bool)
    requires ValidLog(log, workers, exitOnError, hadError)
    requires StepOk(After(log, hadError), e, workers, exitOnError)
    ensures ValidLog(log + [e], workers, exitOnError, hadError)
    ensures After(log + [e], hadError) == Apply(After(log, hadError), e)
  {
    assert (log + [e])[..|log|] == log;
    forall k | 0 <= k < |log + [e]|
      ensures StepOk(After((log + [e])[..k], hadError), (log + [e])[k], workers, exitOnError)
    {
      if k < |log| { assert (log + [e])[..k] == log[..k]; }
    }
  }

  lemma LogPrefix(log: seq<Event>, k: nat, workers: nat, exitOnError: bool, hadError: bool)
    requires ValidLog(log, workers, exitOnError, hadError) && k <= |log|
    ensures ValidLog(log[..k], workers, exitOnError, hadError)
  {
    forall i | 0 <= i < k
      ensures StepOk(After(log[..k][..i], hadError), log[..k][i], workers, exitOnError)
    {
      assert log[..k][..i] == log[..i];
    }
  }

  // ----- what every run keeps -----

  /** Running and finished tasks are apart, few enough run, and together they are a prefix of the plan. */
  ghost predicate Bounded(p: Pool, workers: nat) {
    && |p.open| <= workers && p.open !! p.closed
    && forall t :: t in p.open || t in p.closed <==> 0 <= t < p.spawned
  }

  lemma StepBounded(p: Pool, e: Event, workers: nat, exitOnError: bool)
    requires Bounded(p, workers) && StepOk(p, e, workers, exitOnError)
    ensures Bounded(Apply(p, e), workers)
  {
    match e
    case Spawn(t) => assert |p.open + {t}| <= |p.open| + 1;
    case Report(t, _) => assert |p.open - {t}| <= |p.open|;
  }

  /** At every moment at most `workers` tasks run, and the spawned tasks are a prefix of the plan. */
  lemma {:induction false} PoolBounded(log: seq<Event>, workers: nat, exitOnError: bool, hadError: bool)
    requires ValidLog(log, workers, exitOnError, hadError)
    ensures Bounded(After(log, hadError), workers)
  {
    if log != [] {
      LogPrefix(log, |log| - 1, workers, exitOnError, hadError);
      PoolBounded(log[..|log| - 1], workers, exitOnError, hadError);
      StepBounded(After(log[..|log| - 1], hadError), log[|log| - 1], workers, exitOnError);
    }
  }

  function Reports(log: seq<Event>, t: nat): nat {
    if log == [] then 0
    else Reports(log[..|log| - 1], t) + (if log[|log| - 1].Report? && log[|log| - 1].task == t then 1 else 0)
  }

  function Successes(log: seq<Event>): nat {
    if log == [] then 0
    else Successes(log[..|log| - 1]) + (if log[|log| - 1].Report? && log[|log| - 1].result.Success? then 1 else 0)
  }

  lemma {:induction false} OkCounts(log: seq<Event>, hadError: bool)
    ensures After(log, hadError).ok == Successes(log)
  {
    if log != [] { OkCounts(log[..|log| - 1], hadError); }
  }

  /** A spawned task is new, and a reported one was running. */
  lemma LastStep(log: seq<Event>, workers: nat, exitOnError: bool, hadError: bool)
    requires ValidLog(log, workers, exitOnError, hadError) && log != []
    ensures ValidLog(log[..|log| - 1], workers, exitOnError, hadError)
    ensures var p, e := After(log[..|log| - 1], hadError), log[|log| - 1];
      e.task !in p.closed && (e.Report? ==> e.task in p.open)
  {
    LogPrefix(log, |log| - 1, workers, exitOnError, hadError);
    PoolBounded(log[..|log| - 1], workers, exitOnError, hadError);
    assert StepOk(After(log[..|log| - 1], hadError), log[|log| - 1], workers, exitOnError);
  }

  /** A task is reported once when it is done and never before; the counter is the success count. */
  lemma {:induction false} ReportedOnce(log: seq<Event>, workers: nat, exitOnError: bool, hadError: bool, t: nat)
    requires ValidLog(log, workers, exitOnError, hadError)
    ensures Reports(log, t) == if t in After(log, hadError).closed then 1 else 0
    ensures After(log, hadError).ok == Successes(log)
  {
    OkCounts(log, hadError);
    if log != [] {
      LastStep(log, workers, exitOnError, hadError);
      ReportedOnce(log[..|log| - 1], workers, exitOnError, hadError, t);
    }
  }

  /** The error flags record exactly the failures reported so far. */
  lemma {:induction false} FlagsRecordFailures(log: seq<Event>, hadError: bool)
    ensures After(log, hadError).hadError <==>
      hadError || exists k :: 0 <= k < |log| && log[k].Report? && log[k].result.Failure?
    ensures After(log, hadError).fatal <==>
      exists k :: 0 <= k < |log| && log[k].Report? && log[k].result == Failure(true)
  {
    if log != [] {
      var rest := log[..|log| - 1];
      FlagsRecordFailures(rest, hadError);
      assert forall k :: 0 <= k < |rest| ==> rest[k] == log[k];
      assert log == rest + [log[|log| - 1]];
    }
  }

  /** Once a stop condition was observed, nothing is spawned any more. */
  lemma {:induction false} NoSpawnAfterStop(
      log: seq<Event>, workers: nat, exitOnError: bool, hadError: bool, i: nat, j: nat)
    requires ValidLog(log, workers, exitOnError, hadError) && i <= j < |log|
    requires Stopped(After(log[..i], hadError), exitOnError)
    ensures log[j].Report?
  {
    StopLasts(log, exitOnError, hadError, i, j);
    assert StepOk(After(log[..j], hadError), log[j], workers, exitOnError);
  }

  lemma {:induction false} StopLasts(log: seq<Event>, exitOnError: bool, hadError: bool, i: nat, j: nat)
    requires i <= j <= |log| && Stopped(After(log[..i], hadError), exitOnError)
    ensures Stopped(After(log[..j], hadError), exitOnError)
    decreases j - i
  {
    if i < j {
      StopLasts(log, exitOnError, hadError, i, j - 1);
      assert log[..j][..j - 1] == log[..j - 1];
    }
  }

  /** A failure was reported. */
  ghost predicate SawFailure(log: seq<Event>) {
    exists k :: 0 <= k < |log| && log[k].Report? && log[k].result.Failure?
  }

  /** A fatal failure was reported. */
  ghost predicate SawFatal(log: seq<Event>) {
    exists k :: 0 <= k < |log| && log[k].Report? && log[k].result == Failure(true)
  }

  /** After a fatal failure, or any failure when asked to exit on errors, running tasks end but none is spawned. */
  lemma FailureStopsSpawning(log: seq<Event>, workers: nat, exitOnError: bool, hadError: bool, i: nat, j: nat)
    requires ValidLog(log, workers, exitOnError, hadError) && i < j < |log|
    requires log[i].Report? && log[i].result.Failure? && (log[i].result.fatal || exitOnError)
    ensures log[j].Report?
  {
    var seen := log[..i + 1];
    FlagsRecordFailures(seen, hadError);
    assert seen[i] == log[i];
    NoSpawnAfterStop(log, workers, exitOnError, hadError, i + 1, j);
  }

  /** The loop stops exactly when such a failure was reported, in this phase or before it. */
  lemma StoppedIff(log: seq<Event>, exitOnError: bool, hadError: bool)
    ensures Stopped(After(log, hadError), exitOnError) <==>
      SawFatal(log) || (exitOnError && (hadError || SawFailure(log)))
  {
    FlagsRecordFailures(log, hadError);
  }

  /** Before a task is spawned, others are waited for only while every worker is busy. */
  ghost predicate Greedy(log: seq<Event>, workers: nat, hadError: bool) {
    forall i, j :: 0 <= i < j < |log| && log[i].Report? && log[j].Spawn? ==>
      |After(log[..i], hadError).open| == workers
  }

  /** Every report so far was waited for with all workers busy. */
  ghost predicate WaitedFull(log: seq<Event>, workers: nat, hadError: bool) {
    forall i :: 0 <= i < |log| && log[i].Report? ==> |After(log[..i], hadError).open| == workers
  }

  lemma WaitedFullSnoc(log: seq<Event>, e: Event, workers: nat, hadError: bool)
    requires WaitedFull(log, workers, hadError)
    requires e.Report? ==> |After(log, hadError).open| == workers
    ensures WaitedFull(log + [e], workers, hadError)
  {
    forall i | 0 <= i < |log + [e]| && (log + [e])[i].Report?
      ensures |After((log + [e])[..i], hadError).open| == workers
    {
      assert (log + [e])[..i] == log[..i];
      assert log[..|log|] == log;
    }
  }

  lemma GreedySnoc(log: seq<Event>, e: Event, workers: nat, hadError: bool)
    requires Greedy(log, workers, hadError) && e.Report?
    ensures Greedy(log + [e], workers, hadError)
  {
    forall i, j | 0 <= i < j < |log + [e]| && (log + [e])[i].Report? && (log + [e])[j].Spawn?
      ensures |After((log + [e])[..i], hadError).open| == workers
    {
      assert (log + [e])[..i] == log[..i];
    }
  }

  // ----- the loops -----

  /** Waits for one running task and reports it. */
  method JoinNext(log: seq<Event>, pool: Pool, ghost workers: nat, ghost exitOnError: bool, ghost hadError: bool)
    returns (log': seq<Event>, pool': Pool)
    requires ValidLog(log, workers, exitOnError, hadError) && pool == After(log, hadError) && pool.open != {}
    ensures ValidLog(log', workers, exitOnError, hadError) && pool' == After(log', hadError)
    ensures exists e :: log' == log + [e] && e.Report? && pool'.open == pool.open - {e.task} && e.task in pool.open
    ensures pool'.spawned == pool.spawned && |pool'.open| < |pool.open|
    ensures (pool.hadError ==> pool'.hadError) && (pool.fatal ==> pool'.fatal)
  {
    var t :| t in pool.open;
    var failed: bool, fatal: bool := *, *;
    var e := Report(t, if failed then Failure(fatal) else Success);
    LogSnoc(log, e, workers, exitOnError, hadError);
    log', pool' := log + [e], Apply(pool, e);
  }

  /** One phase over `n` planned tasks: spawn within the bound, stop on errors, then drain. */
  method RunPhase(n: nat, workers: nat, exitOnError: bool, hadError: bool)
    returns (log: seq<Event>, pool: Pool)
    requires workers > 0
    ensures ValidLog(log, workers, exitOnError, hadError) && pool == After(log, hadError)
    ensures pool.open == {} && pool.spawned <= n
    ensures !SawFatal(log) && !(exitOnError && (hadError || SawFailure(log))) ==> pool.spawned == n
    ensures Greedy(log, workers, hadError)
    ensures hadError ==> pool.hadError
  {
    log, pool := [], Pool(0, {}, {}, 0, hadError, false);
    var i: nat := 0;
    while i < n
      invariant i <= n && pool.spawned == i && |pool.open| <= workers && (hadError ==> pool.hadError)
      invariant ValidLog(log, workers, exitOnError, hadError) && pool == After(log, hadError)
      invariant WaitedFull(log, workers, hadError)
    {
      while |pool.open| >= workers
        invariant pool.spawned == i && |pool.open| <= workers && (hadError ==> pool.hadError)
        invariant ValidLog(log, workers, exitOnError, hadError) && pool == After(log, hadError)
        invariant WaitedFull(log, workers, hadError)
        decreases |pool.open|
      {
        ghost var before := log;
        log, pool := JoinNext(log, pool, workers, exitOnError, hadError);
        WaitedFullSnoc(before, log[|before|], workers, hadError);
        if Stopped(pool, exitOnError) { break; }
      }
      if Stopped(pool, exitOnError) { break; }
      LogSnoc(log, Spawn(i), workers, exitOnError, hadError);
      WaitedFullSnoc(log, Spawn(i), workers, hadError);
      log, pool := log + [Spawn(i)], Apply(pool, Spawn(i));
      i := i + 1;
    }
    while pool.open != {}
      invariant pool.spawned == i && (i < n ==> Stopped(pool, exitOnError)) && (hadError ==> pool.hadError)
      invariant ValidLog(log, workers, exitOnError, hadError) && pool == After(log, hadError)
      invariant Greedy(log, workers, hadError)
      decreases |pool.open|
    {
      ghost var before := log;
      log, pool := JoinNext(log, pool, workers, exitOnError, hadError);
      GreedySnoc(before, log[|before|], workers, hadError);
    }
    StoppedIff(log, exitOnError, hadError);
  }

  datatype Outcome =
    | Synced(copied: nat, deleted: nat)
    | OperationsFailed(copied: nat, deleted: nat)
    | FatalAbort
    | TooManyDeletes

  /** The pool at the very end: the delete phase inherits the copy phase's error flag. */
  function Final(copyLog: seq<Event>, deleteLog: seq<Event>): Pool {
    After(deleteLog, After(copyLog, false).hadError)
  }

  /** The whole execution: all copies, then all deletes, unless a stop condition ends it early. */
  method Execute(copies: nat, deletes: nat, numWorkers: nat, exitOnError: bool, maxDelete: Option<nat>)
    returns (outcome: Outcome, copyLog: seq<Event>, deleteLog: seq<Event>)
    ensures outcome.TooManyDeletes? <==> maxDelete.Some? && deletes > maxDelete.value
    ensures outcome.TooManyDeletes? ==> copyLog == [] && deleteLog == []
    ensures ValidLog(copyLog, Max(numWorkers, 1), exitOnError, false)
    ensures ValidLog(deleteLog, Max(numWorkers, 1), exitOnError, After(copyLog, false).hadError)
    // Every spawned task was drained, and spawned tasks lie within the plan.
    ensures After(copyLog, false).open == {} && After(copyLog, false).spawned <= copies
    ensures Final(copyLog, deleteLog).open == {} && Final(copyLog, deleteLog).spawned <= deletes
    ensures Greedy(copyLog, Max(numWorkers, 1), false)
    ensures Greedy(deleteLog, Max(numWorkers, 1), After(copyLog, false).hadError)
    // A delete starts only after every planned copy was attempted, none of them failed fatally, and none
    // failed at all when asked to exit on errors.
    ensures SawFatal(copyLog) || (exitOnError && SawFailure(copyLog)) ==> deleteLog == []
    ensures deleteLog != [] ==> After(copyLog, false).spawned == copies
    // Without such a failure every planned copy and delete is attempted.
    ensures !outcome.TooManyDeletes? && !SawFatal(copyLog) && !(exitOnError && SawFailure(copyLog)) ==>
      After(copyLog, false).spawned == copies && (!SawFatal(deleteLog) && !(exitOnError && SawFailure(deleteLog)) ==>
        Final(copyLog, deleteLog).spawned == deletes)
    // The summary counts are the success counts, and the outcome tells what was reported.
    ensures outcome.Synced? ==> outcome == Synced(Successes(copyLog), Successes(deleteLog))
    ensures outcome.OperationsFailed? ==> outcome == OperationsFailed(Successes(copyLog), Successes(deleteLog))
    ensures outcome.Synced? <==>
      !outcome.TooManyDeletes? && !SawFailure(copyLog) && !SawFailure(deleteLog)
    ensures outcome.FatalAbort? <==> !outcome.TooManyDeletes? && (SawFatal(copyLog) || SawFatal(deleteLog))
  {
    copyLog, deleteLog := [], [];
    if maxDelete.Some? && deletes > maxDelete.value { return TooManyDeletes, [], []; }
    var workers: nat := Max(numWorkers, 1);
    var pool, dpool;
    copyLog, pool := RunPhase(copies, workers, exitOnError, false);
    ReportedOnce(copyLog, workers, exitOnError, false, 0);
    FlagsRecordFailures(copyLog, false);
    if pool.fatal { return FatalAbort, copyLog, []; }
    if exitOnError && pool.hadError { return OperationsFailed(pool.ok, 0), copyLog, []; }
    deleteLog, dpool := RunPhase(deletes, workers, exitOnError, pool.hadError);
    ReportedOnce(deleteLog, workers, exitOnError, pool.hadError, 0);
    FlagsRecordFailures(deleteLog, pool.hadError);
    if dpool.fatal { return FatalAbort, copyLog, deleteLog; }
    outcome := if dpool.hadError then OperationsFailed(pool.ok, dpool.ok) else Synced(pool.ok, dpool.ok);
  }

  /**
   * A synced outcome means every planned copy and delete ran and succeeded: each was reported once,
   * as a success.
   */
  lemma SyncedMeansAllDone(copies: nat, log: seq<Event>, workers: nat, exitOnError: bool, t: nat)
    requires ValidLog(log, workers, exitOnError, false)
    requires var p := After(log, false); p.open == {} && p.spawned == copies && !p.hadError
    ensures Reports(log, t) == if t < copies then 1 else 0
    ensures forall k :: 0 <= k < |log| && log[k].Report? ==> log[k].result == Success
  {
    PoolBounded(log, workers, exitOnError, false);
    ReportedOnce(log, workers, exitOnError, false, t);
    FlagsRecordFailures(log, false);
  }
}
