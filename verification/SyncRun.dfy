/**
 * The sync command end to end: list, plan and execute. The order in which tasks finish decides the
 * order of their effects; a failed task may have taken effect or not.
 */
module SyncRun {
  import opened Prelude
  import opened SyncExec
  import opened SyncPlan

  /** The tasks reported by the first `k` events. */
  ghost function ReportedBy(log: seq<Event>, k: nat): set<nat>
    requires k <= |log|
  {
    if k == 0 then {}
    else ReportedBy(log, k - 1) + (if log[k - 1].Report? then {log[k - 1].task} else {})
  }

  lemma {:induction false} ReportedIsClosed(log: seq<Event>, k: nat, hadError: bool)
    requires k <= |log|
    ensures ReportedBy(log, k) == After(log[..k], hadError).closed
  {
    if k > 0 {
      ReportedIsClosed(log, k - 1, hadError);
      assert log[..k][..k - 1] == log[..k - 1];
    }
  }

  lemma NotReportedBefore(log: seq<Event>, k: nat, workers: nat, exitOnError: bool, hadError: bool)
    requires ValidLog(log, workers, exitOnError, hadError) && k < |log| && log[k].Report?
    ensures log[k].task !in ReportedBy(log, k)
  {
    LogPrefix(log, k, workers, exitOnError, hadError);
    PoolBounded(log[..k], workers, exitOnError, hadError);
    assert StepOk(After(log[..k], hadError), log[k], workers, exitOnError);
    ReportedIsClosed(log, k, hadError);
  }

  /** The tasks reported as successes by the first `k` events. */
  ghost function SucceededBy(log: seq<Event>, k: nat): set<nat>
    requires k <= |log|
  {
    if k == 0 then {}
    else SucceededBy(log, k - 1) + (if IsSuccess(log[k - 1]) then {log[k - 1].task} else {})
  }

  predicate IsSuccess(e: Event) {
    e.Report? && e.result.Success?
  }

  lemma {:induction false} SuccessCounts(log: seq<Event>, i: nat, k: nat)
    requires i < k <= |log| && IsSuccess(log[i])
    ensures log[i].task in SucceededBy(log, k)
  {
    if i < k - 1 { SuccessCounts(log, i, k - 1); }
  }

  /** The tasks whose effect took place, in completion order: every success and some of the failures. */
  method Settle(log: seq<Event>, ghost workers: nat, ghost exitOnError: bool, ghost hadError: bool)
    returns (landed: seq<nat>)
    requires ValidLog(log, workers, exitOnError, hadError)
    ensures NoDup(landed) && SucceededBy(log, |log|) <= Elems(landed) <= After(log, hadError).closed
  {
    landed := [];
    for k := 0 to |log|
      invariant NoDup(landed) && SucceededBy(log, k) <= Elems(landed) <= ReportedBy(log, k)
    {
      var e, anyway: bool := log[k], *;
      if e.Report? {
        NotReportedBefore(log, k, workers, exitOnError, hadError);
        if e.result.Success? || anyway {
          NoDupSnoc(landed, e.task);
          landed := landed + [e.task];
        }
      }
    }
    ReportedIsClosed(log, |log|, hadError);
    assert log[..|log|] == log;
  }

  lemma {:induction false} ClosedWasReported(log: seq<Event>, hadError: bool, t: nat) returns (k: nat)
    requires t in After(log, hadError).closed
    ensures k < |log| && log[k].Report? && log[k].task == t
  {
    var last := |log| - 1;
    if log[last].Report? && log[last].task == t {
      k := last;
    } else {
      k := ClosedWasReported(log[..last], hadError, t);
    }
  }

  /** Without errors the effects of all planned tasks took place. */
  lemma AllLanded(log: seq<Event>, workers: nat, exitOnError: bool, n: nat, landed: seq<nat>, hadError: bool)
    requires ValidLog(log, workers, exitOnError, hadError)
    requires var p := After(log, hadError); p.open == {} && p.spawned == n && !p.hadError
    requires SucceededBy(log, |log|) <= Elems(landed)
    ensures forall t :: 0 <= t < n ==> t in landed
  {
    PoolBounded(log, workers, exitOnError, hadError);
    FlagsRecordFailures(log, hadError);
    forall t | 0 <= t < n
      ensures t in landed
    {
      var k := ClosedWasReported(log, hadError, t);
      assert log[k].result.Success?;
      SuccessCounts(log, k, |log|);
      assert t in Elems(landed);
    }
  }

  /** The planned items of the given tasks. */
  function Pick(plan: seq<string>, order: seq<nat>): (items: seq<string>)
    requires forall k :: 0 <= k < |order| ==> order[k] < |plan|
    ensures |items| == |order| && forall k :: 0 <= k < |order| ==> items[k] == plan[order[k]]
  {
    seq(|order|, k requires 0 <= k < |order| => plan[order[k]])
  }

  lemma PickItems(plan: seq<string>, order: seq<nat>)
    requires NoDup(plan) && NoDup(order) && forall k :: 0 <= k < |order| ==> order[k] < |plan|
    ensures NoDup(Pick(plan, order)) && forall s :: s in Pick(plan, order) ==> s in plan
    ensures (forall t :: 0 <= t < |plan| ==> t in order) ==> forall s :: s in plan ==> s in Pick(plan, order)
  {
    var items := Pick(plan, order);
    forall a, b | 0 <= a < b < |items|
      ensures items[a] != items[b]
    {
      assert order[a] != order[b];
    }
    if forall t :: 0 <= t < |plan| ==> t in order {
      forall s | s in plan
        ensures s in items
      {
        var t :| 0 <= t < |plan| && plan[t] == s;
        assert t in order;
        var k :| 0 <= k < |order| && order[k] == t;
        assert items[k] == s;
      }
    }
  }

  /** The items of one phase whose effect took place. */
  method Effects(plan: seq<string>, log: seq<Event>, ghost workers: nat, ghost exitOnError: bool, ghost hadError: bool)
    returns (items: seq<string>)
    requires NoDup(plan) && ValidLog(log, workers, exitOnError, hadError)
    requires After(log, hadError).spawned <= |plan|
    ensures NoDup(items) && forall s :: s in items ==> s in plan
    ensures log == [] ==> items == []
    ensures var p := After(log, hadError);
      p.open == {} && p.spawned == |plan| && !p.hadError ==> forall s :: s in plan ==> s in items
  {
    var landed := Settle(log, workers, exitOnError, hadError);
    PoolBounded(log, workers, exitOnError, hadError);
    assert forall k :: 0 <= k < |landed| ==> landed[k] in landed && landed[k] in Elems(landed);
    items := Pick(plan, landed);
    PickItems(plan, landed);
    ghost var p := After(log, hadError);
    if p.open == {} && p.spawned == |plan| && !p.hadError {
      AllLanded(log, workers, exitOnError, |plan|, landed, hadError);
    }
    if log == [] { SomeMember(landed); }
  }

  /** The planned effects that took place make a partial run, and an error-free one when none is missing. */
  lemma EffectsMakeRound(j: Job, x: Round, toCopy: seq<string>, toDelete: seq<string>)
    requires IsDestMap(x.listing, x.before, j.bucket, j.path, j.filters)
    requires forall r :: r in toCopy <==> NeedsCopy(j.source, x.listing, x.before, j.strategy, r)
    requires forall k :: k in toDelete ==> Orphan(j.source, x.listing, k)
    requires NoDup(x.copies) && NoDup(x.deletes)
    requires (forall r :: r in x.copies ==> r in toCopy) && forall k :: k in x.deletes ==> k in toDelete
    requires x.after == AfterDeletes(AfterCopies(x.before, x.copies, j.path, j.result), x.deletes)
    ensures Partial(j, x)
    ensures (forall r :: r in toCopy ==> r in x.copies) ==> AllCopied(j, x)
    ensures AllCopied(j, x) && AllDeleted(j, x, toDelete) ==> ErrorFree(j, x)
  {
  }

  /** Every planned delete took effect, and the plan deletes every orphan. */
  ghost predicate AllDeleted(j: Job, x: Round, toDelete: seq<string>) {
    && (forall k :: k in toDelete ==> k in x.deletes)
    && (forall k :: Orphan(j.source, x.listing, k) ==> k in toDelete)
  }

  /** What listing the destination again gives after an error-free run, with deletes or without. */
  lemma ListedAfterSync(j: Job, x: Round, delete: bool, relisted: map<string, string>)
    requires Supported(j, x.before) && if delete then ErrorFree(j, x) else AllCopied(j, x) && x.deletes == []
    requires IsDestMap(relisted, x.after, j.bucket, j.path, j.filters)
    ensures relisted.Keys == j.source.Keys + if delete then {} else x.listing.Keys
  {
    if delete { SyncConverges(j, x, relisted); } else { CopiesConverge(j, x, relisted); }
  }

  /** When no failure was reported in a phase, its error flag is what it was before. */
  lemma QuietPhase(log: seq<Event>, hadError: bool)
    requires !SawFailure(log)
    ensures After(log, hadError).hadError == hadError && !SawFatal(log)
  {
    FlagsRecordFailures(log, hadError);
  }

  /** The destination objects without a source: what `--delete` removes. */
  ghost function Orphans(source: SyncPlan.Objects, listing: map<string, string>): set<string> {
    set r | r in listing && r !in source :: listing[r]
  }

  lemma OrphanCount(source: SyncPlan.Objects, listing: map<string, string>, toDelete: seq<string>)
    requires NoDup(toDelete) && forall k :: k in toDelete <==> Orphan(source, listing, k)
    ensures |toDelete| == |Orphans(source, listing)|
  {
    NoDupCard(toDelete);
    assert forall k :: k in Elems(toDelete) <==> k in toDelete;
    assert Elems(toDelete) == Orphans(source, listing);
  }

  /**
   * One sync command. Every outcome leaves some of the planned effects and nothing else; too many
   * deletes leave the destination alone; with exit-on-error an object is deleted only after every planned copy
   * took effect; a synced outcome is an error-free run of the whole plan.
   * For a wildcard-free bucket or prefix, listing it afterwards gives exactly the source keys, or
   * without deletes the source keys and what was listed before.
   */
  method Sync(j: Job, store: Objects, delete: bool, numWorkers: nat, exitOnError: bool, maxDelete: Option<nat>)
    returns (outcome: Outcome, after: Objects, ghost x: Round)
    ensures x.before == store && x.after == after && Partial(j, x)
    ensures outcome.TooManyDeletes? ==> after == store
    ensures outcome.TooManyDeletes? <==>
      delete && maxDelete.Some? && |Orphans(j.source, x.listing)| > maxDelete.value
    ensures exitOnError && x.deletes != [] ==> AllCopied(j, x)
    ensures !delete ==> x.deletes == []
    ensures outcome.Synced? ==> AllCopied(j, x)
    ensures outcome.Synced? && delete ==> ErrorFree(j, x)
    ensures outcome.Synced? && Supported(j, store) ==>
      forall relisted :: IsDestMap(relisted, after, j.bucket, j.path, j.filters) ==>
        relisted.Keys == j.source.Keys + if delete then {} else x.listing.Keys
  {
    var listing := CollectDestObjects(store, j.bucket, j.path, j.filters);
    var toCopy, toDelete := Plan(j.source, listing, store, j.strategy, delete);
    if delete { OrphanCount(j.source, listing, toDelete); }
    var copies, deletes;
    outcome, copies, deletes := ExecutePlan(toCopy, toDelete, numWorkers, exitOnError, maxDelete);
    after := AfterDeletes(AfterCopies(store, copies, j.path, j.result), deletes);
    x := Round(store, listing, copies, deletes, after);
    EffectsMakeRound(j, x, toCopy, toDelete);
    if toDelete == [] { SomeMember(deletes); }
    if outcome.Synced? && Supported(j, store) {
      forall relisted | IsDestMap(relisted, after, j.bucket, j.path, j.filters)
        ensures relisted.Keys == j.source.Keys + if delete then {} else x.listing.Keys
      {
        ListedAfterSync(j, x, delete, relisted);
      }
    }
  }

  /** Executes a plan; the results are the planned effects that took place, in completion order. */
  method ExecutePlan(
      toCopy: seq<string>, toDelete: seq<string>, numWorkers: nat, exitOnError: bool, maxDelete: Option<nat>)
    returns (outcome: Outcome, copies: seq<string>, deletes: seq<string>)
    requires NoDup(toCopy) && NoDup(toDelete)
    ensures NoDup(copies) && forall r :: r in copies ==> r in toCopy
    ensures NoDup(deletes) && forall k :: k in deletes ==> k in toDelete
    ensures outcome.TooManyDeletes? <==> maxDelete.Some? && |toDelete| > maxDelete.value
    ensures outcome.TooManyDeletes? ==> copies == [] && deletes == []
    ensures exitOnError && deletes != [] ==> forall r :: r in toCopy ==> r in copies
    ensures outcome.Synced? ==> forall r :: r in toCopy ==> r in copies
    ensures outcome.Synced? ==> forall k :: k in toDelete ==> k in deletes
  {
    var copyLog, deleteLog;
    outcome, copyLog, deleteLog := Execute(|toCopy|, |toDelete|, numWorkers, exitOnError, maxDelete);
    ghost var workers: nat := Max(numWorkers, 1);
    if !SawFailure(copyLog) { QuietPhase(copyLog, false); }
    if !SawFailure(deleteLog) { QuietPhase(deleteLog, After(copyLog, false).hadError); }
    copies := Effects(toCopy, copyLog, workers, exitOnError, false);
    deletes := Effects(toDelete, deleteLog, workers, exitOnError, After(copyLog, false).hadError);
  }
}
