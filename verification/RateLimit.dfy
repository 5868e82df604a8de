/**
 * The shared bandwidth limiter: one cursor of virtual time, in nanoseconds, that every acquire
 * advances under a lock by the time its bytes cost.
 */
module RateLimit {
  import opened Prelude

  const NANOS: nat := 1_000_000_000
  const U64_MAX: nat := 0xFFFF_FFFF_FFFF_FFFF
  const MIN_BURST: nat := 5 * 1024 * 1024

  /** `bytes / rate` seconds in nanoseconds, rounded down and saturated to a u64. */
  function DivRateToNanos(bytes: nat, rate: nat): nat
    requires rate > 0
  {
    Min(bytes * NANOS / rate, U64_MAX)
  }

  /** The reservation is not so large that its cost saturates. */
  predicate Unsaturated(bytes: nat, rate: nat)
    requires rate > 0
  {
    bytes * NANOS / rate <= U64_MAX
  }

  /** The start an acquire is assigned: now or the cursor, whichever is later. */
  function StartOf(next: nat, now: nat): nat {
    Max(next, now)
  }

  /** Pulls a start that lags too far behind up to the allowed lag. */
  function BoundLag(start: nat, now: nat, maxLag: nat): nat {
    if now > start + maxLag then now - maxLag else start
  }

  class RateLimiter {
    const rate: nat
    const burst: nat
    var nextTime: nat

    constructor (rate: nat, now: nat)
      ensures this.rate == rate && this.burst == Max(rate, MIN_BURST) && nextTime == now
    {
      this.rate, this.burst, this.nextTime := rate, Max(rate, MIN_BURST), now;
    }

    /**
     * Reserves `n` bytes when the lock is taken at time `now` and sleeps until the assigned start;
     * `later` is the clock when the lock was released. The lag bound never applies: a start is
     * never before `now`, so an idle period earns no credit at all.
     */
    method Acquire(n: nat, now: nat, later: nat) returns (start: nat, woke: nat)
      requires now <= later
      modifies this
      ensures n == 0 || rate == 0 ==> nextTime == old(nextTime) && woke == later
      ensures n > 0 && rate > 0 ==>
        && start == StartOf(old(nextTime), now) && start >= now && start >= old(nextTime)
        && (start == now || start == old(nextTime))
        && (old(nextTime) <= now ==> start == now)
        && nextTime == start + DivRateToNanos(n, rate)
        && woke >= start && woke >= later
    {
      if n == 0 || rate == 0 { return now, later; }
      var cost := DivRateToNanos(n, rate);
      start := if nextTime > now then nextTime else now;
      start := BoundLag(start, now, DivRateToNanos(burst, rate));
      nextTime := start + cost;
      var overslept: int := *;
      woke := if start > later then later + (start - later) + Max(overslept, 0) else later;
    }
  }

  // ----- runs of acquires -----

  /** A non-zero reservation and the clock when its turn for the lock came. */
  datatype Request = Request(bytes: nat, now: nat)

  /** The starts assigned to a run of acquires that take the lock one after the other. */
  function Starts(next: nat, rate: nat, run: seq<Request>): (starts: seq<nat>)
    requires rate > 0
    ensures |starts| == |run|
    decreases |run|
  {
    if run == [] then []
    else
      var start := StartOf(next, run[0].now);
      [start] + Starts(start + DivRateToNanos(run[0].bytes, rate), rate, run[1..])
  }

  function TotalBytes(run: seq<Request>): nat {
    if run == [] then 0 else run[0].bytes + TotalBytes(run[1..])
  }

  /** The floor of the cost loses less than one nanosecond per reservation. */
  lemma CostCovers(bytes: nat, rate: nat)
    requires rate > 0 && Unsaturated(bytes, rate)
    ensures NANOS * bytes <= rate * (DivRateToNanos(bytes, rate) + 1)
  {
    var q := bytes * NANOS / rate;
    DivBracket(bytes * NANOS, rate);
    assert rate * (q + 1) == q * rate + rate;
  }

  /** Starts never run backwards, and each lies at or after its caller's clock. */
  lemma {:induction false} StartsOrdered(next: nat, rate: nat, run: seq<Request>, i: nat)
    requires rate > 0 && i < |run|
    ensures next <= Starts(next, rate, run)[i] && run[i].now <= Starts(next, rate, run)[i]
    decreases |run|
  {
    if i > 0 {
      var start := StartOf(next, run[0].now);
      StartsOrdered(start + DivRateToNanos(run[0].bytes, rate), rate, run[1..], i - 1);
    }
  }

  /** When the reservation before the `i`-th ends; the cursor before the first. */
  function EndBefore(next: nat, rate: nat, run: seq<Request>, i: nat): nat
    requires rate > 0 && i < |run|
  {
    if i == 0 then next else Starts(next, rate, run)[i - 1] + DivRateToNanos(run[i - 1].bytes, rate)
  }

  /** A start is its caller's clock or the end of the reservation before it; an idle limiter starts a caller at once. */
  lemma {:induction false} StartIsClockOrEnd(next: nat, rate: nat, run: seq<Request>, i: nat)
    requires rate > 0 && i < |run|
    ensures var start, end := Starts(next, rate, run)[i], EndBefore(next, rate, run, i);
      && (start == run[i].now || start == end)
      && (end <= run[i].now ==> start == run[i].now)
      && (run[i].now <= end ==> start == end)
    decreases |run|
  {
    if i > 0 {
      var start := StartOf(next, run[0].now);
      StartIsClockOrEnd(start + DivRateToNanos(run[0].bytes, rate), rate, run[1..], i - 1);
    }
  }

  /** The later starts of a run are the starts of the run that begins there. */
  lemma {:induction false} StartsFrom(next: nat, rate: nat, run: seq<Request>, i: nat) returns (from: nat)
    requires rate > 0 && i <= |run|
    ensures Starts(next, rate, run)[i..] == Starts(from, rate, run[i..])
    decreases |run|
  {
    if i == 0 {
      from := next;
      assert run[0..] == run && Starts(next, rate, run)[0..] == Starts(next, rate, run);
    } else {
      var start := StartOf(next, run[0].now);
      from := StartsFrom(start + DivRateToNanos(run[0].bytes, rate), rate, run[1..], i - 1);
      assert run[1..][i - 1..] == run[i..];
    }
  }

  /** The bytes let through before a start are paid for by the time since the first start. */
  lemma {:induction false} PrefixRateBound(next: nat, rate: nat, run: seq<Request>, n: nat)
    requires rate > 0 && n < |run|
    requires forall k :: 0 <= k < n ==> Unsaturated(run[k].bytes, rate)
    ensures var starts := Starts(next, rate, run);
      NANOS * TotalBytes(run[..n]) <= rate * (starts[n] - starts[0] + n)
    decreases |run|
  {
    if n == 0 {
      assert run[..0] == [];
    } else {
      var starts := Starts(next, rate, run);
      var cost := DivRateToNanos(run[0].bytes, rate);
      var later := Starts(starts[0] + cost, rate, run[1..]);
      PrefixRateBound(starts[0] + cost, rate, run[1..], n - 1);
      StartsOrdered(starts[0] + cost, rate, run[1..], 0);
      CostCovers(run[0].bytes, rate);
      assert run[..n][1..] == run[1..][..n - 1];
      assert TotalBytes(run[..n]) == run[0].bytes + TotalBytes(run[1..][..n - 1]);
      SumBound(rate, NANOS * run[0].bytes, cost + 1, NANOS * TotalBytes(run[1..][..n - 1]),
               later[n - 1] - later[0] + n - 1, starts[n] - starts[0] + n);
    }
  }

  lemma SumBound(rate: nat, a: nat, x: int, b: nat, y: int, z: int)
    requires a <= rate * x && b <= rate * y && x + y <= z
    ensures a + b <= rate * z
  {
    assert rate * z == rate * x + rate * y + rate * (z - x - y);
  }

  /**
   * Aggregate rate bound: between any two starts of a run the bytes let through stay within the
   * configured rate, up to one nanosecond of rounding per reservation.
   */
  lemma AggregateRateBound(next: nat, rate: nat, run: seq<Request>, i: nat, j: nat)
    requires rate > 0 && i < j < |run|
    requires forall k :: i <= k < j ==> Unsaturated(run[k].bytes, rate)
    ensures var starts := Starts(next, rate, run);
      NANOS * TotalBytes(run[i..j]) <= rate * (starts[j] - starts[i] + (j - i))
  {
    var from := StartsFrom(next, rate, run, i);
    assert run[i..][..j - i] == run[i..j];
    PrefixRateBound(from, rate, run[i..], j - i);
    assert Starts(next, rate, run)[i..][j - i] == Starts(next, rate, run)[j];
    assert Starts(next, rate, run)[i..][0] == Starts(next, rate, run)[i];
  }

  /** Every request is waiting when the cursor reaches its turn. */
  ghost predicate Backlogged(next: nat, rate: nat, run: seq<Request>)
    requires rate > 0
    decreases |run|
  {
    run == [] ||
      (run[0].now <= next && Backlogged(next + DivRateToNanos(run[0].bytes, rate), rate, run[1..]))
  }

  /** Callers that keep the limiter busy are not slowed below the configured rate. */
  lemma {:induction false} BackloggedRunsAtRate(next: nat, rate: nat, run: seq<Request>, n: nat)
    requires rate > 0 && n < |run| && Backlogged(next, rate, run)
    ensures var starts := Starts(next, rate, run);
      starts[0] == next && rate * starts[n] <= rate * starts[0] + NANOS * TotalBytes(run[..n])
    decreases |run|
  {
    if n == 0 {
      assert run[..0] == [];
    } else {
      var cost := DivRateToNanos(run[0].bytes, rate);
      var later := Starts(next + cost, rate, run[1..]);
      BackloggedRunsAtRate(next + cost, rate, run[1..], n - 1);
      CostAtMost(run[0].bytes, rate);
      assert run[..n][1..] == run[1..][..n - 1];
      assert rate * later[0] == rate * next + rate * cost;
    }
  }

  /** A reservation never costs more time than its bytes take at the configured rate. */
  lemma CostAtMost(bytes: nat, rate: nat)
    requires rate > 0
    ensures rate * DivRateToNanos(bytes, rate) <= NANOS * bytes
  {
    DivBracket(bytes * NANOS, rate);
    var quotient := bytes * NANOS / rate;
    assert quotient >= 0;
    MulMono(DivRateToNanos(bytes, rate), quotient, rate);
  }

  /** A limiter above one byte per nanosecond does not slow single-byte reservations at all. */
  lemma FineReservationsAreFree(rate: nat)
    requires rate > 0
    ensures DivRateToNanos(1, rate) == 0 <==> rate > NANOS
  {
    DivBracket(NANOS, rate);
    if rate > NANOS { DivUnique(NANOS, rate, 0); }
  }
}
