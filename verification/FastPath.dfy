/**
 * The thread-per-core fast path: single transfers with retries and move semantics, and the driver
 * that shards a work list over cores and keeps a bounded number of transfers in flight.
 */
module FastPath {
  import opened Prelude

  // ----- one transfer -----

  /** A local file or a remote object. */
  datatype Place = Local(path: string) | Remote(bucket: string, key: string)

  type Places = map<Place, Bytes>

  datatype Operation =
    | Put(dst: Place, data: Bytes)
    | Get(src: Place)
    | Copy(src: Place, dst: Place)
    | Delete(at: Place)

  datatype Reply = Done(body: Bytes) | Failed(retryable: bool)

  /** What an operation does when it takes effect. */
  function Effect(op: Operation, places: Places): Places {
    match op
    case Put(dst, data) => places[dst := data]
    case Get(_) => places
    case Copy(src, dst) => if src in places then places[dst := places[src]] else places
    case Delete(at) => places - {at}
  }

  /** Taking effect twice is taking effect once, so a retried request is harmless. */
  lemma EffectIdempotent(op: Operation, places: Places)
    ensures Effect(op, Effect(op, places)) == Effect(op, places)
  {
  }

  /** The bytes are at the source, or complete at the destination. */
  predicate Safe(places: Places, src: Place, dst: Place, data: Bytes) {
    (src in places && places[src] == data) || (dst in places && places[dst] == data)
  }

  /** One attempt of an operation and what came back. */
  datatype Request = Request(op: Operation, reply: Reply)

  predicate Succeeded(requests: seq<Request>) {
    requests != [] && requests[|requests| - 1].reply.Done?
  }

  /**
   * These are the attempts of one operation: each but the last failed and may be retried, and the last one
   * failed only when it must not be retried or the budget was used up.
   */
  ghost predicate Retried(requests: seq<Request>, op: Operation, maxRetries: nat) {
    && 1 <= |requests| <= maxRetries + 1
    && (forall k :: 0 <= k < |requests| ==> requests[k].op == op)
    && (forall k :: 0 <= k < |requests| - 1 ==> requests[k].reply == Failed(true))
    && (Succeeded(requests) || |requests| == maxRetries + 1 || requests[|requests| - 1].reply == Failed(false))
  }

  class World {
    var places: Places
    /** Every state since the world began. */
    ghost var history: seq<Places>
    /** Every attempt since then. */
    ghost var requests: seq<Request>
    /** How many local reads and writes failed. */
    ghost var localFailures: nat

    constructor (places: Places)
      ensures this.places == places && history == [places] && requests == [] && localFailures == 0
    {
      this.places, this.history, this.requests, this.localFailures := places, [places], [], 0;
    }

    /** One attempt: it may fail without effect, or fail although the effect took place. */
    method Attempt(op: Operation) returns (r: Reply)
      modifies this
      ensures history == old(history) + [places]
      ensures requests == old(requests) + [Request(op, r)] && localFailures == old(localFailures)
      ensures r.Done? ==> places == Effect(op, old(places))
      ensures r.Done? && (op.Get? || op.Copy?) ==> op.src in old(places)
      ensures r.Done? && op.Get? ==> r.body == old(places)[op.src]
      ensures places == old(places) || places == Effect(op, old(places))
    {
      var applied: bool, reported: bool, retryable: bool := *, *, *;
      if (op.Get? || op.Copy?) && op.src !in places { applied := false; }
      if applied { places := Effect(op, places); }
      history := history + [places];
      r := if !(applied && reported) then Failed(retryable)
           else if op.Get? then Done(places[op.src]) else Done([]);
      requests := requests + [Request(op, r)];
    }

    /** The attempts since there were `from` of them. */
    ghost function Since(from: nat): seq<Request>
      requires from <= |requests|
      reads this`requests
    {
      requests[from..]
    }

    /** Up to `maxRetries` further attempts after a retryable failure. */
    method WithRetry(op: Operation, maxRetries: nat) returns (r: Reply, attempts: nat)
      modifies this
      ensures 1 <= attempts <= maxRetries + 1 && |history| == |old(history)| + attempts
      ensures old(history) <= history
      ensures forall k :: |old(history)| <= k < |history| ==>
        history[k] == old(places) || history[k] == Effect(op, old(places))
      ensures old(requests) <= requests && localFailures == old(localFailures)
      ensures attempts == |Since(|old(requests)|)| && Retried(Since(|old(requests)|), op, maxRetries)
      ensures r == requests[|requests| - 1].reply
      ensures places == old(places) || places == Effect(op, old(places))
      ensures r.Done? ==> places == Effect(op, old(places))
      ensures r.Done? && (op.Get? || op.Copy?) ==> op.src in old(places)
      ensures r.Done? && op.Get? ==> r.body == old(places)[op.src]
    {
      EffectIdempotent(op, places);
      var attempt: nat := 0;
      while true
        invariant attempt <= maxRetries && |history| == |old(history)| + attempt
        invariant old(history) <= history
        invariant forall k :: |old(history)| <= k < |history| ==>
          history[k] == old(places) || history[k] == Effect(op, old(places))
        invariant old(requests) <= requests && |requests| == |old(requests)| + attempt
        invariant forall k :: |old(requests)| <= k < |requests| ==> requests[k] == Request(op, Failed(true))
        invariant localFailures == old(localFailures)
        invariant places == old(places) || places == Effect(op, old(places))
        decreases maxRetries - attempt
      {
        r := Attempt(op);
        if r.Done? || attempt >= maxRetries || !r.retryable {
          return r, attempt + 1;
        }
        attempt := attempt + 1;
      }
    }

    /** Reads a local file whole. */
    method ReadFile(at: Place) returns (r: Option<Bytes>)
      modifies this`localFailures
      ensures localFailures == old(localFailures) + (if r.None? then 1 else 0)
      ensures r.Some? ==> at in places && r.value == places[at]
    {
      var failed: bool := *;
      r := if failed || at !in places then None else Some(places[at]);
      if r.None? { localFailures := localFailures + 1; }
    }

    /** Creates or truncates the file, then writes; a failure may leave any part of it. */
    method WriteFile(at: Place, data: Bytes) returns (ok: bool)
      modifies this
      ensures old(history) <= history && requests == old(requests)
      ensures localFailures == old(localFailures) + (if ok then 0 else 1)
      ensures forall k :: |old(history)| <= k < |history| ==> history[k] - {at} == old(places) - {at}
      ensures places - {at} == old(places) - {at}
      ensures ok ==> places == old(places)[at := data]
    {
      var failed: bool := *;
      if failed { localFailures := localFailures + 1; return false; }
      places := places[at := []];
      history := history + [places];
      var n: int := *;
      n := Max(0, Min(n, |data|));
      assert data[..|data|] == data;
      places := places[at := data[..n]];
      history := history + [places];
      ok := n == |data|;
      if !ok { localFailures := localFailures + 1; }
    }

    /** Every state since `from` has the bytes at the source or complete at the destination. */
    ghost predicate SafeSince(from: nat, src: Place, dst: Place, data: Bytes)
      reads this
    {
      forall k :: from <= k < |history| ==> Safe(history[k], src, dst, data)
    }

    /** No state since `from` differs from `was` outside these places. */
    ghost predicate OnlyTouchedSince(from: nat, was: Places, touched: set<Place>)
      reads this
    {
      forall k :: from <= k < |history| ==> history[k] - touched == was - touched
    }
  }

  datatype Transfer =
    | Upload(local: string, bucket: string, key: string)
    | Download(bucket: string, key: string, local: string)
    | CopyObject(srcBucket: string, srcKey: string, dstBucket: string, dstKey: string)

  function Source(t: Transfer): Place {
    match t
    case Upload(local, _, _) => Local(local)
    case Download(bucket, key, _) => Remote(bucket, key)
    case CopyObject(bucket, key, _, _) => Remote(bucket, key)
  }

  function Destination(t: Transfer): Place {
    match t
    case Upload(_, bucket, key) => Remote(bucket, key)
    case Download(_, _, local) => Local(local)
    case CopyObject(_, _, bucket, key) => Remote(bucket, key)
  }

  /** The transfer the other way round. */
  function Back(t: Transfer): Transfer {
    match t
    case Upload(local, bucket, key) => Download(bucket, key, local)
    case Download(bucket, key, local) => Upload(local, bucket, key)
    case CopyObject(srcBucket, srcKey, dstBucket, dstKey) => CopyObject(dstBucket, dstKey, srcBucket, srcKey)
  }

  /** Going back swaps the two ends; only an upload reads and only a download writes a local file. */
  lemma BackSwapsEnds(t: Transfer)
    ensures Source(Back(t)) == Destination(t) && Destination(Back(t)) == Source(t)
    ensures (Source(t).Local? <==> t.Upload?) && (Destination(t).Local? <==> t.Download?)
  {
  }

  /** The operation that carries the transfer; an upload sends the bytes it read. */
  function Carries(t: Transfer, data: Bytes): Operation {
    match t
    case Upload(_, _, _) => Put(Destination(t), data)
    case Download(_, _, _) => Get(Source(t))
    case CopyObject(_, _, _, _) => Copy(Source(t), Destination(t))
  }

  /**
   * Brings the bytes to the destination; nothing else changes in any state, and a missing source fails without
   * effect. It fails only when a local read or write did or the operation was given up.
   */
  method Deliver(w: World, t: Transfer, maxRetries: nat) returns (ok: bool, attempts: nat)
    modifies w
    ensures old(w.history) <= w.history && old(w.requests) <= w.requests && w.localFailures >= old(w.localFailures)
    ensures attempts == |w.Since(|old(w.requests)|)| <= maxRetries + 1
    ensures ok <==> Succeeded(w.Since(|old(w.requests)|)) && w.localFailures == old(w.localFailures)
    ensures attempts == 0 ==> t.Upload? && w.localFailures > old(w.localFailures)
    ensures attempts > 0 && Source(t) in old(w.places) ==>
      Retried(w.Since(|old(w.requests)|), Carries(t, old(w.places)[Source(t)]), maxRetries)
    ensures Source(t) !in old(w.places) ==> !ok && w.places == old(w.places)
    ensures Source(t) !in old(w.places) ==>
      forall k :: |old(w.history)| <= k < |w.history| ==> w.history[k] == old(w.places)
    ensures w.OnlyTouchedSince(|old(w.history)|, old(w.places), {Destination(t)})
    ensures w.places - {Destination(t)} == old(w.places) - {Destination(t)}
    ensures ok ==> w.places == old(w.places)[Destination(t) := old(w.places)[Source(t)]]
  {
    var src := Source(t);
    var r;
    match t
    case Upload(_, _, _) =>
      var data := w.ReadFile(src);
      if data.None? { return false, 0; }
      r, attempts := w.WithRetry(Put(Destination(t), data.value), maxRetries);
      ok := r.Done?;
    case CopyObject(_, _, _, _) =>
      r, attempts := w.WithRetry(Copy(src, Destination(t)), maxRetries);
      ok := r.Done?;
    case Download(_, _, _) =>
      ok, attempts := DeliverDownload(w, src, Destination(t), maxRetries);
  }

  /** Fetches the object, then writes the local file. */
  method DeliverDownload(w: World, src: Place, dst: Place, maxRetries: nat) returns (ok: bool, attempts: nat)
    modifies w
    ensures old(w.history) <= w.history && old(w.requests) <= w.requests && w.localFailures >= old(w.localFailures)
    ensures attempts == |w.Since(|old(w.requests)|)| && Retried(w.Since(|old(w.requests)|), Get(src), maxRetries)
    ensures ok <==> Succeeded(w.Since(|old(w.requests)|)) && w.localFailures == old(w.localFailures)
    ensures src !in old(w.places) ==> !ok && w.places == old(w.places)
    ensures src !in old(w.places) ==>
      forall k :: |old(w.history)| <= k < |w.history| ==> w.history[k] == old(w.places)
    ensures w.OnlyTouchedSince(|old(w.history)|, old(w.places), {dst})
    ensures w.places - {dst} == old(w.places) - {dst}
    ensures ok ==> w.places == old(w.places)[dst := old(w.places)[src]]
  {
    var r;
    r, attempts := w.WithRetry(Get(src), maxRetries);
    if !r.Done? { return false, attempts; }
    ok := w.WriteFile(dst, r.body);
  }

  /** Nothing but the destination changed in any of these states, so the bytes are still at the source. */
  lemma SourceStays(w: World, from: nat, was: Places, src: Place, dst: Place)
    requires w.OnlyTouchedSince(from, was, {dst}) && src in was && src != dst
    ensures w.SafeSince(from, src, dst, was[src])
  {
    forall k | from <= k < |w.history|
      ensures Safe(w.history[k], src, dst, was[src])
    {
      assert src in was - {dst} && src in w.history[k] - {dst};
    }
  }

  lemma MoreTouched(w: World, from: nat, was: Places, dst: Place, src: Place)
    requires w.OnlyTouchedSince(from, was, {dst})
    ensures w.OnlyTouchedSince(from, was, {src, dst})
  {
    forall k | from <= k < |w.history|
      ensures w.history[k] - {src, dst} == was - {src, dst}
    {
      assert was - {src, dst} == (was - {dst}) - {src};
      assert w.history[k] - {src, dst} == (w.history[k] - {dst}) - {src};
    }
  }

  /**
   * One transfer. For a move the source is deleted only after the bytes arrived, so no state ever
   * loses them; a successful move leaves the destination and no source, a successful copy both. A
   * missing source fails without effect. The first `delivered` attempts bring the bytes, the others delete
   * the source; the transfer fails only when a local step did or one of the two was given up.
   */
  method DoOne(w: World, t: Transfer, maxRetries: nat, isMove: bool)
    returns (ok: bool, attempts: seq<nat>, ghost delivered: nat)
    modifies w
    ensures forall k :: 0 <= k < |attempts| ==> attempts[k] <= maxRetries + 1
    ensures old(w.requests) <= w.requests && delivered <= |w.Since(|old(w.requests)|)|
    ensures var bring, drop :=
        w.Since(|old(w.requests)|)[..delivered], w.Since(|old(w.requests)|)[delivered..];
      && (ok <==> Succeeded(bring) && (isMove ==> Succeeded(drop)) && w.localFailures == old(w.localFailures))
      && (bring == [] ==> t.Upload? && w.localFailures > old(w.localFailures))
      && (bring != [] && Source(t) in old(w.places) ==>
            Retried(bring, Carries(t, old(w.places)[Source(t)]), maxRetries))
      && (drop != [] <==> isMove && Succeeded(bring) && w.localFailures == old(w.localFailures))
      && (drop != [] ==> Retried(drop, Delete(Source(t)), if t.Upload? then 0 else maxRetries))
    ensures Source(t) !in old(w.places) ==> !ok && w.places == old(w.places)
    ensures Source(t) in old(w.places) && Source(t) != Destination(t) ==>
      w.SafeSince(|old(w.history)|, Source(t), Destination(t), old(w.places)[Source(t)])
    ensures Source(t) in old(w.places) && Source(t) != Destination(t) ==>
      Safe(w.places, Source(t), Destination(t), old(w.places)[Source(t)])
    ensures w.OnlyTouchedSince(|old(w.history)|, old(w.places),
      if isMove then {Source(t), Destination(t)} else {Destination(t)})
    ensures ok ==> Source(t) in old(w.places)
    ensures ok && isMove ==> w.places == old(w.places)[Destination(t) := old(w.places)[Source(t)]] - {Source(t)}
    ensures ok && !isMove ==> w.places == old(w.places)[Destination(t) := old(w.places)[Source(t)]]
  {
    var src := Source(t);
    var n;
    ok, n := Deliver(w, t, maxRetries);
    attempts, delivered := [n], n;
    ghost var stopped := w.Since(|old(w.requests)|);
    assert stopped[..n] == stopped && stopped[n..] == [];
    if src in old(w.places) && src != Destination(t) {
      SourceStays(w, |old(w.history)|, old(w.places), src, Destination(t));
      assert src in old(w.places) - {Destination(t)};
    }
    MoreTouched(w, |old(w.history)|, old(w.places), Destination(t), src);
    if !ok || !isMove { return; }
    ok, n := DropSource(w, t, maxRetries);
    if !t.Upload? { attempts := attempts + [n]; }
    assert w.Since(|old(w.requests)|)[..delivered] == stopped;
  }

  /** Deletes the source of a move: a local file once, an object with retries. */
  method DropSource(w: World, t: Transfer, maxRetries: nat) returns (ok: bool, attempts: nat)
    modifies w
    ensures old(w.history) <= w.history && old(w.requests) <= w.requests && w.localFailures == old(w.localFailures)
    ensures attempts == |w.Since(|old(w.requests)|)| && 1 <= attempts <= if t.Upload? then 1 else maxRetries + 1
    ensures Retried(w.Since(|old(w.requests)|), Delete(Source(t)), if t.Upload? then 0 else maxRetries)
    ensures ok <==> Succeeded(w.Since(|old(w.requests)|))
    ensures forall k :: |old(w.history)| <= k < |w.history| ==>
      w.history[k] == old(w.places) || w.history[k] == old(w.places) - {Source(t)}
    ensures w.places == old(w.places) || w.places == old(w.places) - {Source(t)}
    ensures ok ==> w.places == old(w.places) - {Source(t)}
  {
    var r;
    if t.Upload? {
      r := w.Attempt(Delete(Source(t)));
      attempts := 1;
    } else {
      r, attempts := w.WithRetry(Delete(Source(t)), maxRetries);
    }
    ok := r.Done?;
  }

  /** A successful move keeps the bytes exactly when source and destination are different places. */
  lemma MoveKeepsBytesIff(places: Places, src: Place, dst: Place)
    requires src in places
    ensures var after := places[dst := places[src]] - {src};
      dst in after && after[dst] == places[src] <==> src != dst
  {
  }

  // ----- sharding -----

  /** How many of the first `n` items go to shard `c`: the items whose index is `c` modulo `cores`. */
  function ShardSize(n: nat, cores: nat, c: nat): nat
    requires cores > 0
  {
    if c < n % cores then n / cores + 1 else n / cores
  }

  /** The index of the `k`-th item of shard `c`. */
  function ItemIndex(cores: nat, c: nat, k: nat): nat {
    k * cores + c
  }

  lemma DivModNext(n: nat, cores: nat)
    requires cores > 0
    ensures n == ItemIndex(cores, n % cores, n / cores)
    ensures n % cores + 1 < cores ==> (n + 1) / cores == n / cores && (n + 1) % cores == n % cores + 1
    ensures n % cores + 1 == cores ==> (n + 1) / cores == n / cores + 1 && (n + 1) % cores == 0
  {
    var q, r := n / cores, n % cores;
    assert n == q * cores + r;
    assert (q + 1) * cores == q * cores + cores;
    DivUnique(n + 1, cores, if r + 1 < cores then q else q + 1);
    assert n + 1 == (n + 1) / cores * cores + (n + 1) % cores;
  }

  lemma NextItem(n: nat, cores: nat)
    requires cores > 0
    ensures ItemIndex(cores, n % cores, ShardSize(n, cores, n % cores)) == n
    ensures forall c :: 0 <= c < cores ==>
      ShardSize(n + 1, cores, c) == ShardSize(n, cores, c) + (if c == n % cores then 1 else 0)
  {
    DivModNext(n, cores);
  }

  /** Round-robin: item `i` goes to the shard of its residue class, keeping the order. */
  method Shard<T>(items: seq<T>, cores: nat) returns (shards: seq<seq<T>>)
    requires cores > 0
    ensures |shards| == cores
    ensures forall c :: 0 <= c < cores ==> |shards[c]| == ShardSize(|items|, cores, c)
    ensures forall c, k :: 0 <= c < cores && 0 <= k < |shards[c]| ==>
      ItemIndex(cores, c, k) < |items| && shards[c][k] == items[ItemIndex(cores, c, k)]
  {
    shards := seq(cores, _ => []);
    var i: nat := 0;
    while i < |items|
      invariant i <= |items| && |shards| == cores
      invariant forall c :: 0 <= c < cores ==> |shards[c]| == ShardSize(i, cores, c)
      invariant forall c, k :: 0 <= c < cores && 0 <= k < |shards[c]| ==>
        ItemIndex(cores, c, k) < |items| && shards[c][k] == items[ItemIndex(cores, c, k)]
    {
      var c := i % cores;
      NextItem(i, cores);
      shards := shards[c := shards[c] + [items[i]]];
      i := i + 1;
    }
  }

  /** With at most as many shards as items, shards differ by at most one item and none is empty. */
  lemma ShardsBalanced(n: nat, cores: nat, c: nat, d: nat)
    requires 0 < cores <= n && c < cores && d < cores
    ensures ShardSize(n, cores, c) >= 1
    ensures ShardSize(n, cores, c) <= ShardSize(n, cores, d) + 1
  {
    DivUnique(cores, cores, 1);
    DivMono(cores, n, cores);
  }

  function SumSizes(n: nat, cores: nat, upTo: nat): nat
    requires cores > 0
  {
    if upTo == 0 then 0 else SumSizes(n, cores, upTo - 1) + ShardSize(n, cores, upTo - 1)
  }

  lemma {:induction false} SumSizesClosed(n: nat, cores: nat, upTo: nat)
    requires cores > 0
    ensures SumSizes(n, cores, upTo) == upTo * (n / cores) + Min(upTo, n % cores)
  {
    if upTo > 0 {
      SumSizesClosed(n, cores, upTo - 1);
      assert upTo * (n / cores) == (upTo - 1) * (n / cores) + n / cores;
    }
  }

  /** The shards together hold every item. */
  lemma SizesSumToAll(n: nat, cores: nat)
    requires cores > 0
    ensures SumSizes(n, cores, cores) == n
  {
    SumSizesClosed(n, cores, cores);
    assert n == cores * (n / cores) + n % cores;
  }

  // ----- the driver -----

  /** Starts the next item, if there is one. */
  method Refill<T(==)>(items: seq<T>, next: nat, inFlight: multiset<T>)
    returns (next': nat, inFlight': multiset<T>, ghost added: multiset<T>)
    requires next <= |items|
    ensures next' == Min(next + 1, |items|) && |added| == next' - next
    ensures inFlight' == inFlight + added && |inFlight'| == |inFlight| + |added|
    ensures multiset(items[..next']) == multiset(items[..next]) + added
  {
    next', inFlight', added := next, inFlight, multiset{};
    if next < |items| {
      TakeSnoc(items, next);
      added := multiset{items[next]};
      inFlight' := inFlight + multiset{items[next]};
      next' := next + 1;
    }
  }

  /**
   * Drives one shard: every item finishes once, in any order. Before the `k`-th item finishes as many are in
   * flight as the bound and the items left allow.
   */
  method RunShard<T(==)>(items: seq<T>, concurrency: nat)
    returns (finished: seq<T>, peak: nat, ghost flights: seq<nat>)
    requires concurrency > 0
    ensures multiset(finished) == multiset(items) && |finished| == |items|
    ensures peak == Min(concurrency, |items|)
    ensures |flights| == |items| && forall k :: 0 <= k < |items| ==> flights[k] == Min(concurrency, |items| - k)
  {
    var next, inFlight := Fill(items, concurrency);
    finished, peak, flights := [], |inFlight|, [];
    while inFlight != multiset{}
      invariant |finished| <= |items| && next == Min(|finished| + concurrency, |items|)
      invariant multiset(finished) + inFlight == multiset(items[..next]) && |finished| + |inFlight| == next
      invariant |flights| == |finished|
      invariant forall k :: 0 <= k < |flights| ==> flights[k] == Min(concurrency, |items| - k)
      decreases |items| - |finished|
    {
      var done, left := FinishOne(inFlight);
      flights := flights + [|inFlight|];
      finished := finished + [done];
      ghost var added;
      next, inFlight, added := Refill(items, next, left);
    }
    assert items[..next] == items;
  }

  /** Starts the first items, up to the bound. */
  method Fill<T(==)>(items: seq<T>, concurrency: nat) returns (next: nat, inFlight: multiset<T>)
    ensures next == Min(concurrency, |items|) && inFlight == multiset(items[..next]) && |inFlight| == next
  {
    next, inFlight := 0, multiset{};
    for round := 0 to concurrency
      invariant next == Min(round, |items|)
      invariant inFlight == multiset(items[..next]) && |inFlight| == next
    {
      ghost var added;
      next, inFlight, added := Refill(items, next, inFlight);
    }
  }

  /** Some transfer in flight finishes. */
  method FinishOne<T(==)>(inFlight: multiset<T>) returns (done: T, left: multiset<T>)
    requires inFlight != multiset{}
    ensures inFlight == left + multiset{done} && |inFlight| == |left| + 1
  {
    done :| done in inFlight;
    left := inFlight - multiset{done};
    assert inFlight == left + multiset{done};
  }

  /** What the driver reports: one finished transfer, or a core whose client could not be built. */
  datatype Outcome = Finished(index: nat) | ClientInit(core: nat)

  /** How a core's thread fares: a runtime that cannot be built ends the thread without any report. */
  datatype CoreStatus = Running | NoClient | NoRuntime

  /** How often an outcome is reported: each item of a running core once, a missing client once per item. */
  function Times(o: Outcome, n: nat, status: seq<CoreStatus>): nat
    requires status != []
  {
    match o
    case Finished(i) => if i < n && status[i % |status|].Running? then 1 else 0
    case ClientInit(c) => if c < |status| && status[c].NoClient? then ShardSize(n, |status|, c) else 0
  }

  /** How many outcomes the first `upTo` cores report. */
  function ReportedSizes(n: nat, status: seq<CoreStatus>, upTo: nat): nat
    requires status != [] && upTo <= |status|
  {
    if upTo == 0 then 0
    else if status[upTo - 1].NoRuntime? then ReportedSizes(n, status, upTo - 1)
    else ReportedSizes(n, status, upTo - 1) + ShardSize(n, |status|, upTo - 1)
  }

  /** Every item is accounted for exactly when no core's runtime failed. */
  lemma {:induction false} AllReportedIff(n: nat, status: seq<CoreStatus>, upTo: nat)
    requires 0 < |status| <= n && upTo <= |status|
    ensures ReportedSizes(n, status, upTo) <= SumSizes(n, |status|, upTo)
    ensures ReportedSizes(n, status, upTo) == SumSizes(n, |status|, upTo)
      <==> forall c :: 0 <= c < upTo ==> !status[c].NoRuntime?
  {
    if upTo > 0 {
      AllReportedIff(n, status, upTo - 1);
      ShardsBalanced(n, |status|, upTo - 1, upTo - 1);
    }
  }

  function CoreOf(o: Outcome, cores: nat): nat
    requires cores > 0
  {
    match o
    case Finished(i) => i % cores
    case ClientInit(c) => c
  }

  /** The outcomes of the first `upTo` cores, as a multiset. */
  ghost predicate Reported(outcomes: seq<Outcome>, n: nat, status: seq<CoreStatus>, upTo: nat)
    requires status != []
  {
    forall o :: multiset(outcomes)[o] == if CoreOf(o, |status|) < upTo then Times(o, n, status) else 0
  }

  lemma NoDupCounts<T>(s: seq<T>, x: T)
    requires NoDup(s)
    ensures multiset(s)[x] == if x in s then 1 else 0
  {
    if s != [] {
      assert s == s[..|s| - 1] + [s[|s| - 1]];
      NoDupCounts(s[..|s| - 1], x);
    }
  }

  lemma ItemIndexDivMod(cores: nat, c: nat, k: nat)
    requires c < cores
    ensures ItemIndex(cores, c, k) % cores == c && ItemIndex(cores, c, k) / cores == k
  {
    var i := ItemIndex(cores, c, k);
    DivUnique(i, cores, k);
    assert i == i / cores * cores + i % cores;
  }

  /** Every item has a place in the shard of its residue class. */
  lemma ItemHasPlace(n: nat, cores: nat, i: nat)
    requires cores > 0 && i < n
    ensures i / cores < ShardSize(n, cores, i % cores) && ItemIndex(cores, i % cores, i / cores) == i
  {
    assert i == i / cores * cores + i % cores;
    assert n == n / cores * cores + n % cores;
    DivMono(i, n, cores);
  }

  /** A shard of the index list. */
  ghost predicate IndexShard(shard: seq<Outcome>, n: nat, cores: nat, c: nat)
    requires cores > 0
  {
    && |shard| == ShardSize(n, cores, c)
    && forall k :: 0 <= k < |shard| ==> shard[k] == Finished(ItemIndex(cores, c, k)) && ItemIndex(cores, c, k) < n
  }

  lemma IndexShardDistinct(shard: seq<Outcome>, n: nat, cores: nat, c: nat)
    requires c < cores && IndexShard(shard, n, cores, c)
    ensures NoDup(shard)
  {
    forall j, k | 0 <= j < k < |shard|
      ensures shard[j] != shard[k]
    {
      ItemIndexDivMod(cores, c, j);
      ItemIndexDivMod(cores, c, k);
    }
  }

  lemma IndexShardMembers(shard: seq<Outcome>, n: nat, cores: nat, c: nat, o: Outcome)
    requires c < cores && IndexShard(shard, n, cores, c)
    ensures o in shard <==> o.Finished? && o.index < n && o.index % cores == c
  {
    if o in shard {
      var k :| 0 <= k < |shard| && shard[k] == o;
      ItemIndexDivMod(cores, c, k);
    }
    if o.Finished? && o.index < n && o.index % cores == c {
      ItemHasPlace(n, cores, o.index);
      assert shard[o.index / cores] == o;
    }
  }

  /** A shard of the index list holds exactly its residue class, each index once. */
  lemma ShardCounts(shard: seq<Outcome>, n: nat, cores: nat, c: nat, o: Outcome)
    requires c < cores && IndexShard(shard, n, cores, c)
    ensures multiset(shard)[o] == if o.Finished? && o.index < n && o.index % cores == c then 1 else 0
  {
    IndexShardDistinct(shard, n, cores, c);
    IndexShardMembers(shard, n, cores, c, o);
    NoDupCounts(shard, o);
  }

  /** The failure of one core's client is reported once per item of its shard. */
  method ReportClientInit(core: nat, shardLen: nat) returns (outcomes: seq<Outcome>)
    ensures |outcomes| == Max(shardLen, 1)
    ensures forall o :: multiset(outcomes)[o] == if o == ClientInit(core) then Max(shardLen, 1) else 0
  {
    outcomes := [];
    for k := 0 to Max(shardLen, 1)
      invariant |outcomes| == k
      invariant forall o :: multiset(outcomes)[o] == if o == ClientInit(core) then k else 0
    {
      outcomes := outcomes + [ClientInit(core)];
    }
  }

  /** What one core reports, in any order. */
  method RunCore(shard: seq<Outcome>, core: nat, status: CoreStatus, concurrency: nat)
    returns (part: seq<Outcome>, peak: nat)
    requires shard != []
    ensures status.Running? ==> multiset(part) == multiset(shard) && |part| == |shard|
    ensures status.NoClient? ==> |part| == |shard|
    ensures status.NoClient? ==> forall o :: multiset(part)[o] == if o == ClientInit(core) then |shard| else 0
    ensures status.NoRuntime? ==> part == []
    ensures peak == if status.Running? then Min(Max(concurrency, 1), |shard|) else 0
  {
    peak := 0;
    match status
    case Running =>
      ghost var flights;
      part, peak, flights := RunShard(shard, Max(concurrency, 1));
    case NoClient => part := ReportClientInit(core, |shard|);
    case NoRuntime => part := [];
  }

  /** One more core's outcomes extend the report by that core. */
  lemma ReportedNext(
      before: seq<Outcome>, part: seq<Outcome>, shard: seq<Outcome>, n: nat, status: seq<CoreStatus>, c: nat)
    requires c < |status| && IndexShard(shard, n, |status|, c) && Reported(before, n, status, c)
    requires status[c].Running? ==> multiset(part) == multiset(shard)
    requires status[c].NoClient? ==> forall o :: multiset(part)[o] == if o == ClientInit(c) then |shard| else 0
    requires status[c].NoRuntime? ==> part == []
    ensures Reported(before + part, n, status, c + 1)
  {
    forall o
      ensures multiset(before + part)[o] ==
        if CoreOf(o, |status|) < c + 1 then Times(o, n, status) else 0
    {
      assert multiset(before + part)[o] == multiset(before)[o] + multiset(part)[o];
      ShardCounts(shard, n, |status|, c, o);
    }
  }

  /**
   * Runs all transfers: every item of a running core is finished once, a core whose client cannot be
   * built reports one failure per item, and a core whose runtime cannot be built reports nothing. So
   * there are as many outcomes as items exactly when no runtime failed. Results arrive in any order;
   * only how often each is reported is promised.
   */
  method RunTransfers(n: nat, cores: nat, concurrency: nat, dryRun: bool)
    returns (outcomes: seq<Outcome>, status: seq<CoreStatus>, peaks: seq<nat>)
    ensures n == 0 ==> outcomes == []
    ensures n > 0 && dryRun ==> |outcomes| == n && forall i :: 0 <= i < n ==> outcomes[i] == Finished(i)
    ensures n > 0 && !dryRun ==> |peaks| == |status| == Min(Max(cores, 1), n) > 0
    ensures n > 0 && !dryRun ==> forall c :: 0 <= c < |status| ==>
      peaks[c] == if status[c].Running? then Min(Max(concurrency, 1), ShardSize(n, |status|, c)) else 0
    ensures n > 0 && !dryRun ==> forall o :: multiset(outcomes)[o] == Times(o, n, status)
    ensures n > 0 && !dryRun ==> (|outcomes| == n <==> forall c :: 0 <= c < |status| ==> !status[c].NoRuntime?)
  {
    if n == 0 { return [], [], []; }
    var items := seq(n, i requires 0 <= i => Finished(i));
    if dryRun { return items, [], []; }
    var used: nat := Min(Max(cores, 1), n);
    status := StartCores(used);
    var shards := Shard(items, used);
    outcomes, peaks := [], [];
    for c := 0 to used
      invariant |outcomes| == ReportedSizes(n, status, c)
      invariant Reported(outcomes, n, status, c)
      invariant |peaks| == c && forall d :: 0 <= d < c ==>
        peaks[d] == if status[d].Running? then Min(Max(concurrency, 1), ShardSize(n, used, d)) else 0
    {
      ShardsBalanced(n, used, c, c);
      var part, peak := RunCore(shards[c], c, status[c], concurrency);
      ReportedNext(outcomes, part, shards[c], n, status, c);
      outcomes, peaks := outcomes + part, peaks + [peak];
    }
    AllReportedIff(n, status, used);
    SizesSumToAll(n, used);
    forall o
      ensures multiset(outcomes)[o] == Times(o, n, status)
    {
      assert o.Finished? ==> o.index % used < used;
    }
  }

  /** Whether each core's runtime and client can be built is up to the machine. */
  method StartCores(used: nat) returns (status: seq<CoreStatus>)
    ensures |status| == used
  {
    status := [];
    for c := 0 to used
      invariant |status| == c
    {
      var s: CoreStatus := *;
      status := status + [s];
    }
  }
}
