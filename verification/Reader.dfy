/**
 * The per-handle chunked reader of the mount: an LRU cache of fixed-size chunks with
 * read-ahead, over an object whose bytes do not change while the handle is open.
 */
module Reader {
  import opened Prelude
  import opened RangedGet

  const MIN_CHUNK_SIZE: nat := 64 * 1024

  datatype ReadError = FetchFailed | ChunkMissing

  /** The bytes of chunk `idx` of an object of which `v` is visible. */
  function ChunkOf(v: Bytes, chunkSize: nat, idx: nat): Bytes {
    Slice(v, idx * chunkSize, chunkSize)
  }

  /** Moves `idx` to the most-recently-used end. */
  ghost function Touched(order: seq<nat>, idx: nat): seq<nat> {
    Minus(order, {idx}) + [idx]
  }

  lemma {:induction false} RemoveAt(order: seq<nat>, pos: nat)
    requires NoDup(order) && pos < |order|
    ensures order[..pos] + order[pos + 1..] == Minus(order, {order[pos]})
  {
    if pos == 0 {
      MinusNothing(order[1..], {order[0]});
    } else {
      RemoveAt(order[1..], pos - 1);
      assert order[..pos] + order[pos + 1..] == [order[0]] + (order[1..][..pos - 1] + order[1..][pos..]);
    }
  }

  /** What `j` pops leave of `rest + need` when `need` is protected and so rotates to the back. */
  ghost function Rotated(rest: seq<nat>, need: seq<nat>, j: nat): seq<nat>
    requires j <= |rest| + |need|
  {
    if j <= |rest| then rest[j..] + need else need[j - |rest|..] + need[..j - |rest|]
  }

  /** One pop: the front entry leaves, or goes to the back when it is protected. */
  ghost function Popped(order: seq<nat>, keep: set<nat>): seq<nat>
    requires order != []
  {
    order[1..] + (if order[0] in keep then [order[0]] else [])
  }

  lemma RotatedStep(rest: seq<nat>, need: seq<nat>, j: nat)
    requires Elems(rest) !! Elems(need) && j < |rest| + |need|
    ensures Rotated(rest, need, j) != []
    ensures Rotated(rest, need, j + 1) == Popped(Rotated(rest, need, j), Elems(need))
  {
    var order := Rotated(rest, need, j);
    if j < |rest| {
      assert order[0] == rest[j] && rest[j] in Elems(rest);
    } else {
      assert order[0] == need[j - |rest|] && need[j - |rest|] in Elems(need);
    }
  }

  /** Every pop so far started from more than `max` entries. */
  ghost predicate StillOver(rest: nat, need: nat, max: nat, popped: nat) {
    && (popped > rest ==> need > max)
    && (0 < popped <= rest ==> rest + need - popped >= max)
  }

  lemma RotatedIsSuffix(rest: seq<nat>, need: seq<nat>, j: nat, max: nat)
    requires j <= |rest| + |need| && StillOver(|rest|, |need|, max, j)
    requires |Rotated(rest, need, j)| <= max || j == |rest| + |need|
    ensures IsSuffix(Rotated(rest, need, j), rest + need)
    ensures |Rotated(rest, need, j)| == Min(|rest + need|, Max(max, |need|))
  {
  }

  ghost predicate IsSuffix(tail: seq<nat>, s: seq<nat>) {
    |tail| <= |s| && tail == s[|s| - |tail|..]
  }

  /** The recency order after chunks `first..last` are touched in ascending order. */
  ghost function MostRecent(order: seq<nat>, first: nat, last: nat): seq<nat>
    requires first <= last
  {
    Minus(order, Elems(Interval(first, last + 1))) + Interval(first, last + 1)
  }

  /** The touched chunks end up last, ascending, and the others before them, in the order they had. */
  lemma MostRecentMeans(order: seq<nat>, first: nat, last: nat, i: nat)
    requires first <= last
    ensures var r, n := MostRecent(order, first, last), last + 1 - first;
      && |r| >= n && r[|r| - n..] == Interval(first, last + 1)
      && (i in r[..|r| - n] <==> i in order && !(first <= i <= last))
      && r[..|r| - n] == Minus(order, Elems(Interval(first, last + 1)))
  {
    var need := Interval(first, last + 1);
    MinusElems(order, Elems(need));
    assert i in need <==> i in Elems(need);
    assert i in order <==> i in Elems(order);
    assert i in Minus(order, Elems(need)) <==> i in Elems(Minus(order, Elems(need)));
  }

  /** A suffix at least as long as `need` keeps all of it. */
  lemma SuffixHolds(rest: seq<nat>, need: seq<nat>, tail: seq<nat>)
    requires IsSuffix(tail, rest + need) && |need| <= |tail|
    ensures forall i :: i in need ==> i in tail
  {
    forall i | i in need
      ensures i in tail
    {
      var k :| 0 <= k < |need| && need[k] == i;
      assert tail[|tail| - |need| + k] == i;
    }
  }

  /** Touching the next chunk extends the touched block at the end. */
  lemma TouchedNext(order: seq<nat>, need: seq<nat>, k: nat)
    requires NoDup(need) && k < |need|
    ensures Touched(Minus(order, Elems(need[..k])) + need[..k], need[k])
         == Minus(order, Elems(need[..k + 1])) + need[..k + 1]
  {
    var drop := Elems(need[..k]);
    TakeSnoc(need, k);
    MinusConcat(Minus(order, drop), need[..k], {need[k]});
    MinusTwice(order, drop, {need[k]});
    MinusNothing(need[..k], {need[k]});
  }

  /** First and last chunk a clamped, non-empty read touches. */
  lemma NeededChunks(size: nat, chunkSize: nat, offset: nat, len: nat)
    requires chunkSize > 0 && len > 0 && offset + len <= size
    ensures offset / chunkSize <= (offset + len - 1) / chunkSize < DivCeil(size, chunkSize)
  {
    DivMono(offset, offset + len - 1, chunkSize);
    DivBracket(offset + len - 1, chunkSize);
    DivCeilBounds(size, chunkSize);
  }

  /** Fetching a chunk by its bounds gives the chunk of the visible bytes. */
  lemma FetchedChunk(obj: Bytes, size: nat, chunkSize: nat, idx: nat)
    requires chunkSize > 0 && idx < DivCeil(size, chunkSize)
    ensures idx * chunkSize < Min((idx + 1) * chunkSize, size)
    ensures ReadRange(obj, idx * chunkSize, Min((idx + 1) * chunkSize, size) - idx * chunkSize)
         == ChunkOf(Visible(obj, size), chunkSize, idx)
  {
    DivCeilBounds(size, chunkSize);
    assert (idx + 1) * chunkSize == idx * chunkSize + chunkSize;
    var len := Min((idx + 1) * chunkSize, size) - idx * chunkSize;
    ReadRangeVisible(obj, size, idx * chunkSize, len);
  }

  /** Taking from the chunk that holds `pos` continues the slice of the visible bytes. */
  lemma ChunkContinues(v: Bytes, chunkSize: nat, pos: nat, end: nat)
    requires chunkSize > 0 && pos < end
    ensures var chunk := ChunkOf(v, chunkSize, pos / chunkSize);
      var within := pos - pos / chunkSize * chunkSize;
      && 0 <= within < chunkSize
      && (within >= |chunk| <==> pos >= |v|)
      && (within < |chunk| ==>
        var take := Min(end - pos, |chunk| - within);
        0 < take && pos + take <= |v| && chunk[within..within + take] == v[pos..pos + take])
  {
    DivBracket(pos, chunkSize);
    SliceContinues(v, pos / chunkSize * chunkSize, chunkSize, pos, end);
  }

  lemma SliceContinues(v: Bytes, start: nat, len: nat, pos: nat, end: nat)
    requires start <= pos < start + len && pos < end
    ensures var chunk := Slice(v, start, len);
      && (pos - start >= |chunk| <==> pos >= |v|)
      && (pos - start < |chunk| ==>
        var take := Min(end - pos, |chunk| - (pos - start));
        && 0 < take && pos + take <= |v|
        && chunk[pos - start..pos - start + take] == v[pos..pos + take])
  {
  }

  /** Resident chunks hold the visible bytes of the object. */
  ghost predicate Faithful(chunks: map<nat, Bytes>, content: Bytes, size: nat, chunkSize: nat) {
    && (forall i :: i in chunks ==> chunkSize > 0 && i < DivCeil(size, chunkSize))
    && (forall i :: i in chunks ==> chunks[i] == ChunkOf(Visible(content, size), chunkSize, i))
  }

  ghost predicate Within(small: map<nat, Bytes>, big: map<nat, Bytes>) {
    forall i :: i in small ==> i in big && small[i] == big[i]
  }

  lemma FaithfulShrinks(big: map<nat, Bytes>, small: map<nat, Bytes>, content: Bytes, size: nat, chunkSize: nat)
    requires Faithful(big, content, size, chunkSize) && Within(small, big)
    ensures Faithful(small, content, size, chunkSize)
  {
  }

  /** Every fetched entry carries the bytes of its chunk. */
  ghost predicate Exact(got: seq<(nat, Bytes)>, v: Bytes, chunkSize: nat) {
    forall k :: 0 <= k < |got| ==> got[k].1 == ChunkOf(v, chunkSize, got[k].0)
  }

  lemma IndicesSnoc(got: seq<(nat, Bytes)>, idx: nat, data: Bytes, v: Bytes, chunkSize: nat)
    requires NoDup(Indices(got)) && idx !in Elems(Indices(got))
    requires Exact(got, v, chunkSize) && data == ChunkOf(v, chunkSize, idx)
    ensures NoDup(Indices(got + [(idx, data)])) && Exact(got + [(idx, data)], v, chunkSize)
    ensures Elems(Indices(got + [(idx, data)])) == Elems(Indices(got)) + {idx}
  {
    assert (got + [(idx, data)])[..|got|] == got;
    NoDupConcat(Indices(got), [idx]);
    ElemsConcat(Indices(got), [idx]);
  }

  /** Of a block of distinct numbers in `lo..hi`, at most as many lie outside a smaller block as it leaves free. */
  lemma CountOutside(s: seq<nat>, lo: nat, mid: nat, hi: nat)
    requires lo <= mid <= hi && NoDup(s) && forall i :: i in s ==> lo <= i < hi
    ensures |Minus(s, Elems(Interval(lo, mid)))| <= hi - mid
  {
    var drop := Elems(Interval(lo, mid));
    MinusElems(s, drop);
    var rest := Minus(s, drop);
    NoDupCard(rest);
    NoDupCard(Interval(mid, hi));
    forall i | i in Elems(rest)
      ensures i in Elems(Interval(mid, hi))
    {
      assert i in s && i !in Interval(lo, mid);
    }
    SubsetCard(Elems(rest), Elems(Interval(mid, hi)));
  }

  lemma SubsetCard<T>(a: set<T>, b: set<T>)
    requires a <= b
    ensures |a| <= |b|
  {
    assert b == a + (b - a);
  }

  /** Whatever a read fetched stays resident: the window is never larger than what eviction spares. */
  lemma FetchedStay(before: seq<nat>, fetched: seq<nat>, first: nat, last: nat, wantEnd: nat, kept: seq<nat>, max: nat)
    requires first <= last < wantEnd <= Max(last + 1, first + max)
    requires NoDup(fetched) && forall i :: i in fetched ==> first <= i < wantEnd
    requires IsSuffix(kept, MostRecent(before + fetched, first, last))
    requires |kept| == Min(|MostRecent(before + fetched, first, last)|, Max(max, last + 1 - first))
    ensures forall i :: i in fetched ==> i in kept
  {
    var need := Interval(first, last + 1);
    var drop := Elems(need);
    MinusConcat(before, fetched, drop);
    CountOutside(fetched, first, last + 1, wantEnd);
    assert MostRecent(before + fetched, first, last) == Minus(before, drop) + (Minus(fetched, drop) + need);
    SuffixHolds(Minus(before, drop), Minus(fetched, drop) + need, kept);
    FetchedInTail(fetched, need);
  }

  lemma FetchedInTail(fetched: seq<nat>, need: seq<nat>)
    ensures forall i :: i in fetched ==> i in Minus(fetched, Elems(need)) + need
  {
    MinusElems(fetched, Elems(need));
    forall i | i in fetched
      ensures i in Minus(fetched, Elems(need)) + need
    {
      assert i in Elems(fetched);
      if i !in Elems(need) { assert i in Elems(Minus(fetched, Elems(need))); }
    }
  }

  /**
   * A read takes in the absent ones of the chunks it covers; one that continues the previous read, or is the
   * first, also those ahead of it, up to the budget counted from its first chunk and the end of the object.
   */
  ghost predicate TookIn(
      fetched: seq<nat>, was: set<nat>, first: nat, last: nat, budgetEnd: nat, objectEnd: nat, sequential: bool)
  {
    && NoDup(fetched)
    && forall i :: i in fetched <==>
         i !in was && (first <= i <= last || (sequential && first <= i < budgetEnd && i < objectEnd))
  }

  lemma WindowTaken(
      fetched: seq<nat>, was: set<nat>, first: nat, last: nat, end: nat, budgetEnd: nat, objectEnd: nat,
      sequential: bool)
    requires first <= last < objectEnd
    requires end == if sequential then Max(last + 1, Min(budgetEnd, objectEnd)) else last + 1
    requires NoDup(fetched) && forall i :: i in fetched <==> first <= i < end && i !in was
    ensures TookIn(fetched, was, first, last, budgetEnd, objectEnd, sequential)
  {
  }

  class ChunkReader {
    /** The remote object; it does not change while the handle is open. */
    const content: Bytes
    const size: nat
    const chunkSize: nat
    const maxChunks: nat
    var chunks: map<nat, Bytes>
    /** Recency order; the front is the least recently used chunk. */
    var order: seq<nat>
    var lastEnd: nat
    /** How many chunk requests failed so far. */
    ghost var failures: nat

    /** The recency order is a duplicate-free listing of the resident chunks. */
    ghost predicate Listed()
      reads this`chunks, this`order
    {
      NoDup(order) && Elems(order) == chunks.Keys
    }

    ghost predicate Valid()
      reads this
    {
      chunkSize >= MIN_CHUNK_SIZE && maxChunks >= 2 && Listed() && Faithful(chunks, content, size, chunkSize)
    }

    constructor (content: Bytes, size: nat, chunkSize: nat, bufferSize: nat)
      ensures Valid() && chunks == map[] && order == [] && lastEnd == 0
      ensures this.content == content && this.size == size
      ensures this.chunkSize == Max(chunkSize, MIN_CHUNK_SIZE)
      ensures this.maxChunks == Max(bufferSize / this.chunkSize, 2)
    {
      this.content, this.size := content, size;
      var c: nat := Max(chunkSize, MIN_CHUNK_SIZE);
      this.chunkSize := c;
      this.maxChunks := Max(bufferSize / c, 2);
      this.chunks, this.order, this.lastEnd, this.failures := map[], [], 0, 0;
    }

    function NChunks(): nat
      requires chunkSize > 0
    {
      DivCeil(size, chunkSize)
    }

    function ChunkBounds(idx: nat): (nat, nat) {
      (idx * chunkSize, Min((idx + 1) * chunkSize, size))
    }

    /** One ranged GET by chunk bounds; it may fail. */
    method GetChunk(idx: nat) returns (r: Option<Bytes>)
      requires chunkSize > 0 && idx < DivCeil(size, chunkSize)
      modifies this`failures
      ensures failures == old(failures) + (if r.None? then 1 else 0)
      ensures r.Some? ==> r.value == ChunkOf(Visible(content, size), chunkSize, idx)
    {
      FetchedChunk(content, size, chunkSize, idx);
      var (start, end) := ChunkBounds(idx);
      var failed: bool := *;
      if failed { failures := failures + 1; }
      r := if failed then None else Some(ReadRange(content, start, end - start));
    }

    /**
     * Ranged GETs for the given chunks. They run concurrently, so the results come back in
     * an arbitrary completion order; any one failure fails the whole fetch.
     */
    method FetchChunks(missing: seq<nat>) returns (r: Result<seq<(nat, Bytes)>, ReadError>)
      requires chunkSize > 0 && NoDup(missing)
      requires forall i :: i in missing ==> i < DivCeil(size, chunkSize)
      modifies this`failures
      ensures r.Err? ==> r.error == FetchFailed
      ensures r.Err? <==> failures > old(failures)
      ensures r.Ok? ==> NoDup(Indices(r.value)) && Elems(Indices(r.value)) == Elems(missing)
      ensures r.Ok? ==> Exact(r.value, Visible(content, size), chunkSize)
    {
      var pending := set i | i in missing;
      assert pending == Elems(missing);
      var done: seq<(nat, Bytes)> := [];
      while pending != {}
        invariant failures == old(failures) && pending <= Elems(missing)
        invariant NoDup(Indices(done)) && Elems(Indices(done)) == Elems(missing) - pending
        invariant Exact(done, Visible(content, size), chunkSize)
      {
        var idx :| idx in pending;
        var data := GetChunk(idx);
        if data.None? { return Err(FetchFailed); }
        IndicesSnoc(done, idx, data.value, Visible(content, size), chunkSize);
        done := done + [(idx, data.value)];
        pending := pending - {idx};
      }
      r := Ok(done);
    }

    method Touch(idx: nat)
      requires NoDup(order)
      modifies this`order
      ensures order == Touched(old(order), idx)
      ensures NoDup(order) && Elems(order) == Elems(old(order)) + {idx}
    {
      MinusElems(order, {idx});
      var pos := 0;
      while pos < |order| && order[pos] != idx
        invariant pos <= |order| && idx !in order[..pos]
      {
        pos := pos + 1;
      }
      ghost var was := order;
      if pos < |order| {
        RemoveAt(order, pos);
        order := order[..pos] + order[pos + 1..];
      } else {
        MinusNothing(was, {idx});
      }
      NoDupConcat(order, [idx]);
      ElemsConcat(order, [idx]);
      order := order + [idx];
    }

    /** Pops the least recently used entry, leaving `after`: dropped, or sent to the back when protected. */
    method PopFront(keep: set<nat>, ghost after: seq<nat>)
      requires Listed() && order != [] && after == Popped(order, keep)
      modifies this`chunks, this`order
      ensures Listed()
      ensures order == after
      ensures Within(chunks, old(chunks))
    {
      var idx := order[0];
      order := order[1..];
      assert old(order) == [idx] + order;
      ElemsConcat([idx], order);
      if idx in keep {
        ElemsConcat(order, [idx]);
        NoDupConcat(order, [idx]);
        order := order + [idx];
      } else {
        chunks := chunks - {idx};
      }
    }

    lemma CountsAgree()
      requires Listed()
      ensures |chunks| == |order|
    {
      NoDupCard(order);
      assert |chunks| == |chunks.Keys|;
    }

    /**
     * Pops least-recently-used entries until the cache fits, rotating the protected ones to
     * the back; the guard stops it once every entry was popped once. The protected entries
     * are the most recently used ones, so what stays is a suffix of the recency order, also
     * when the loop rotates them all the way round.
     */
    method Evict(keep: set<nat>, ghost rest: seq<nat>, ghost need: seq<nat>)
      requires Listed() && order == rest + need && keep == Elems(need) && Elems(rest) !! keep
      modifies this`chunks, this`order
      ensures Listed() && Within(chunks, old(chunks))
      ensures IsSuffix(order, rest + need)
      ensures |order| == Min(|rest + need|, Max(maxChunks, |need|))
    {
      var guard: nat := |order|;
      ghost var popped: nat := 0;
      CountsAgree();
      assert Rotated(rest, need, 0) == rest + need;
      while |chunks| > maxChunks && guard > 0
        invariant popped + guard == |rest| + |need| && order == Rotated(rest, need, popped)
        invariant StillOver(|rest|, |need|, maxChunks, popped)
        invariant Listed() && |chunks| == |order| && Within(chunks, old(chunks))
        decreases guard
      {
        guard := guard - 1;
        RotatedStep(rest, need, popped);
        PopFront(keep, Rotated(rest, need, popped + 1));
        CountsAgree();
        popped := popped + 1;
      }
      RotatedIsSuffix(rest, need, popped, maxChunks);
    }

    /**
     * Marks the chunks a read covers most recently used and evicts down to the budget: what
     * stays is exactly the most recently used end of the new recency order.
     */
    method Settle(first: nat, last: nat) returns (ghost recency: seq<nat>)
      requires Listed() && first <= last
      requires forall i :: first <= i <= last ==> i in chunks
      modifies this`chunks, this`order
      ensures Listed() && Within(chunks, old(chunks))
      ensures recency == MostRecent(old(order), first, last)
      ensures IsSuffix(order, recency) && |order| == Min(|recency|, Max(maxChunks, last + 1 - first))
      ensures forall i :: first <= i <= last ==> i in chunks
    {
      var need := Interval(first, last + 1);
      ghost var rest := Minus(order, Elems(need));
      MinusElems(order, Elems(need));
      recency := TouchAll(need);
      var keep := set i | i in need;
      Evict(keep, rest, need);
      SuffixHolds(rest, need, order);
      assert forall i :: first <= i <= last ==> i in need && i in Elems(order);
    }

    /** The end of the window of chunks a read makes resident: read-ahead only when sequential. */
    function WantEnd(offset: nat, first: nat, last: nat): (end: nat)
      requires chunkSize > 0 && first <= last < DivCeil(size, chunkSize)
      reads this`lastEnd
      ensures end == if lastEnd == 0 || offset == lastEnd
        then Max(last + 1, Min(first + maxChunks, DivCeil(size, chunkSize))) else last + 1
    {
      var sequential := lastEnd == 0 || offset == lastEnd;
      var want := if sequential then Max(last + 1, first + maxChunks) else last + 1;
      Max(Min(Min(want, first + maxChunks), NChunks()), last + 1)
    }

    /** Makes the window resident, appending what was fetched in completion order. */
    method Prefetch(first: nat, wantEnd: nat) returns (failed: bool, ghost fetched: seq<nat>)
      requires Valid() && first <= wantEnd <= DivCeil(size, chunkSize)
      modifies this`chunks, this`order, this`failures
      ensures Valid()
      ensures failed <==> failures > old(failures)
      ensures failed ==> chunks == old(chunks) && order == old(order)
      ensures !failed ==> order == old(order) + fetched && NoDup(fetched)
      ensures !failed ==> forall i :: i in fetched <==> first <= i < wantEnd && i !in old(chunks)
      ensures !failed ==> forall i :: first <= i < wantEnd ==> i in order
    {
      fetched := [];
      var window := Interval(first, wantEnd);
      var missing := Absent(window);
      if missing == [] {
        assert forall i :: first <= i < wantEnd ==> i in window && i in Elems(order);
        return false, [];
      }
      var got := FetchChunks(missing);
      if got.Err? { return true, []; }
      fetched := Indices(got.value);
      assert forall i :: i in fetched <==> i in Elems(fetched);
      assert forall i :: i in missing <==> i in Elems(missing);
      assert forall i :: i in order <==> i in Elems(order);
      assert forall k :: 0 <= k < |got.value| ==> got.value[k].0 == fetched[k] && fetched[k] in fetched;
      Insert(got.value);
      failed := false;
      forall i | first <= i < wantEnd
        ensures i in order
      {
        assert i in window;
        assert i in Elems(old(order)) || i in fetched;
      }
    }

    /**
     * Makes the window resident, then keeps what the budget allows. `recency` is the recency
     * order just before eviction: the old order, then the fetched chunks in completion order,
     * with the covering chunks moved to the end in ascending order.
     */
    method Cover(first: nat, last: nat, wantEnd: nat)
      returns (failed: bool, ghost fetched: seq<nat>, ghost recency: seq<nat>)
      requires Valid() && first <= last < wantEnd <= DivCeil(size, chunkSize)
      modifies this`chunks, this`order, this`failures
      ensures Valid()
      ensures failed <==> failures > old(failures)
      ensures failed ==> chunks == old(chunks) && order == old(order)
      ensures !failed ==> NoDup(fetched)
      ensures !failed ==> forall i :: i in fetched <==> first <= i < wantEnd && i !in old(chunks)
      ensures !failed ==> recency == MostRecent(old(order) + fetched, first, last)
      ensures !failed ==> IsSuffix(order, recency)
      ensures !failed ==> |order| == Min(|recency|, Max(maxChunks, last + 1 - first))
      ensures !failed ==> forall i :: first <= i <= last ==> i in chunks
      ensures !failed && wantEnd <= Max(last + 1, first + maxChunks) ==> forall i :: i in fetched ==> i in chunks
    {
      recency := [];
      failed, fetched := Prefetch(first, wantEnd);
      if failed { return; }
      ghost var before := chunks;
      assert forall i :: i in order <==> i in Elems(order);
      recency := Settle(first, last);
      FaithfulShrinks(before, chunks, content, size, chunkSize);
      if wantEnd <= Max(last + 1, first + maxChunks) {
        FetchedStay(old(order), fetched, first, last, wantEnd, order, maxChunks);
        assert forall i :: i in order ==> i in Elems(order);
      }
    }

    /** Covers the chunks of a read and, when it is sequential, those ahead of it. */
    method CoverWindow(offset: nat, first: nat, last: nat)
      returns (failed: bool, ghost fetched: seq<nat>, ghost recency: seq<nat>)
      requires Valid() && first <= last < DivCeil(size, chunkSize)
      modifies this`chunks, this`order, this`failures
      ensures Valid()
      ensures failed <==> failures > old(failures)
      ensures failed ==> chunks == old(chunks) && order == old(order)
      ensures !failed ==> TookIn(fetched, old(chunks).Keys, first, last, first + maxChunks, DivCeil(size, chunkSize),
        lastEnd == 0 || offset == lastEnd)
      ensures !failed ==> recency == MostRecent(old(order) + fetched, first, last)
      ensures !failed ==> IsSuffix(order, recency)
      ensures !failed ==> |order| == Min(|recency|, Max(maxChunks, last + 1 - first))
      ensures !failed ==> forall i :: first <= i <= last || i in fetched ==> i in chunks
    {
      var wantEnd := WantEnd(offset, first, last);
      failed, fetched, recency := Cover(first, last, wantEnd);
      if failed { return; }
      WindowTaken(fetched, old(chunks).Keys, first, last, wantEnd, first + maxChunks, DivCeil(size, chunkSize),
                  lastEnd == 0 || offset == lastEnd);
    }

    /**
     * The non-empty part of a read: `n` bytes at `offset`, covered by chunks `first..last`.
     */
    method ReadCovered(offset: nat, n: nat, first: nat, last: nat)
      returns (r: Result<Bytes, ReadError>, ghost fetched: seq<nat>, ghost recency: seq<nat>)
      requires Valid() && 0 < n && offset + n <= size
      requires first == offset / chunkSize && last == (offset + n - 1) / chunkSize
      requires first <= last < DivCeil(size, chunkSize)
      modifies this
      ensures Valid()
      ensures r.Err? ==> r.error == FetchFailed
      ensures r.Err? <==> failures > old(failures)
      ensures r.Err? ==> chunks == old(chunks) && order == old(order) && lastEnd == old(lastEnd)
      ensures r.Ok? ==> r.value == Slice(Visible(content, size), offset, n) && lastEnd == offset + n
      ensures r.Ok? ==> TookIn(fetched, old(chunks).Keys, first, last, first + maxChunks, DivCeil(size, chunkSize),
        old(lastEnd) == 0 || offset == old(lastEnd))
      ensures r.Ok? ==> forall i :: first <= i <= last || i in fetched ==> i in chunks
      ensures r.Ok? ==> recency == MostRecent(old(order) + fetched, first, last)
      ensures r.Ok? ==> IsSuffix(order, recency)
      ensures r.Ok? ==> |order| == Min(|recency|, Max(maxChunks, last + 1 - first))
    {
      var failed;
      failed, fetched, recency := CoverWindow(offset, first, last);
      if failed { return Err(FetchFailed), fetched, recency; }
      var out := Assemble(offset, offset + n, first, last);
      lastEnd := offset + n;
      r := Ok(out);
    }

    /** Reads up to `len` bytes at `offset`: always the plain slice of the visible object. */
    method Read(offset: nat, len: nat)
      returns (r: Result<Bytes, ReadError>, ghost fetched: seq<nat>, ghost recency: seq<nat>)
      requires Valid()
      modifies this
      ensures Valid()
      // The bytes are those of the plain slice, and the only error is a failed fetch.
      ensures r.Ok? ==> r.value == Slice(Visible(content, size), offset, len)
      ensures r.Err? ==> r.error == FetchFailed
      ensures r.Err? <==> failures > old(failures)
      ensures r.Err? || offset >= size || len == 0 ==>
        chunks == old(chunks) && order == old(order) && lastEnd == old(lastEnd)
      // What stays resident is exactly the most recently used end of the recency order.
      ensures r.Ok? && offset < size && len > 0 ==>
        var n := Min(len, size - offset);
        var first, last := offset / chunkSize, (offset + n - 1) / chunkSize;
        && first <= last
        && lastEnd == offset + n
        && TookIn(fetched, old(chunks).Keys, first, last, first + maxChunks, DivCeil(size, chunkSize),
                  old(lastEnd) == 0 || offset == old(lastEnd))
        && (forall i :: first <= i <= last || i in fetched ==> i in chunks)
        && recency == MostRecent(old(order) + fetched, first, last)
        && IsSuffix(order, recency)
        && |order| == Min(|recency|, Max(maxChunks, last + 1 - first))
    {
      fetched, recency := [], [];
      if offset >= size || len == 0 {
        return Ok([]), fetched, recency;
      }
      var n := Min(len, size - offset);
      NeededChunks(size, chunkSize, offset, n);
      r, fetched, recency := ReadCovered(offset, n, offset / chunkSize, (offset + n - 1) / chunkSize);
    }

    /** The indices of `window` that are not resident. */
    function Absent(window: seq<nat>): (missing: seq<nat>)
      reads this`chunks
      ensures NoDup(window) ==> NoDup(missing)
      ensures forall i :: i in missing <==> i in window && i !in chunks
    {
      if window == [] then []
      else if window[0] in chunks then Absent(window[1..])
      else [window[0]] + Absent(window[1..])
    }

    /** Stores one fetched chunk as the most recently used one. */
    method Store(idx: nat, data: Bytes)
      requires Valid() && idx !in chunks && idx < DivCeil(size, chunkSize)
      requires data == ChunkOf(Visible(content, size), chunkSize, idx)
      modifies this`chunks, this`order
      ensures Valid() && order == old(order) + [idx]
    {
      chunks := chunks[idx := data];
      assert idx !in Elems(order);
      MinusNothing(order, {idx});
      Touch(idx);
    }

    /** Stores fetched chunks in completion order. */
    method Insert(got: seq<(nat, Bytes)>)
      requires Valid() && NoDup(Indices(got)) && forall i :: i in Indices(got) ==> i !in order
      requires forall k :: 0 <= k < |got| ==> got[k].0 < DivCeil(size, chunkSize)
      requires Exact(got, Visible(content, size), chunkSize)
      modifies this`chunks, this`order
      ensures Valid() && order == old(order) + Indices(got)
    {
      ghost var indices := Indices(got);
      var k := 0;
      while k < |got|
        invariant k <= |got| && Valid()
        invariant order == old(order) + indices[..k]
      {
        assert indices[k] !in order && indices[k] !in Elems(order);
        Store(got[k].0, got[k].1);
        TakeSnoc(indices, k);
        k := k + 1;
      }
      assert indices[..k] == indices;
    }

    /** Marks resident chunks most recently used, in the given order. */
    method TouchAll(need: seq<nat>) returns (ghost result: seq<nat>)
      requires Listed() && NoDup(need) && forall i :: i in need ==> i in chunks
      modifies this`order
      ensures Listed() && result == order == Minus(old(order), Elems(need)) + need
    {
      var k := 0;
      MinusNothing(order, Elems(need[..0]));
      while k < |need|
        invariant k <= |need| && Listed()
        invariant order == Minus(old(order), Elems(need[..k])) + need[..k]
      {
        Touch(need[k]);
        TouchedNext(old(order), need, k);
        k := k + 1;
      }
      assert need[..k] == need;
      result := order;
    }

    /** What the resident chunk that holds `pos` contributes; nothing exactly at the end of the object. */
    method Take(pos: nat, end: nat) returns (piece: Bytes)
      requires Valid() && pos < end && pos / chunkSize in chunks
      ensures var v := Visible(content, size);
        && pos + |piece| <= end && (piece == [] <==> pos >= |v|)
        && (piece != [] ==> pos + |piece| <= |v| && piece == v[pos..pos + |piece|])
    {
      var idx := pos / chunkSize;
      var chunk := chunks[idx];
      ChunkContinues(Visible(content, size), chunkSize, pos, end);
      var within := pos - ChunkBounds(idx).0;
      if within >= |chunk| { return []; }
      var take := Min(end - pos, |chunk| - within);
      piece := chunk[within..within + take];
    }

    /** Copies `[offset, end)` out of resident chunks; a short object ends it early. */
    method Assemble(offset: nat, end: nat, ghost first: nat, ghost last: nat) returns (out: Bytes)
      requires Valid() && offset < end
      requires first == offset / chunkSize && last == (end - 1) / chunkSize
      requires forall i :: first <= i <= last ==> i in chunks
      ensures out == Slice(Visible(content, size), offset, end - offset)
    {
      ghost var v := Visible(content, size);
      out := [];
      var pos := offset;
      while pos < end
        invariant offset <= pos <= end
        invariant pos <= |v| || pos == offset
        invariant out == if pos == offset then [] else v[offset..pos]
      {
        DivMono(offset, pos, chunkSize);
        DivMono(pos, end - 1, chunkSize);
        assert pos / chunkSize in chunks;  // so the "chunk missing" error is never raised
        var piece := Take(pos, end);
        if piece == [] { break; }
        out := out + piece;
        pos := pos + |piece|;
      }
    }
  }

  function Indices(got: seq<(nat, Bytes)>): (indices: seq<nat>)
    ensures |indices| == |got|
    ensures forall k :: 0 <= k < |got| ==> indices[k] == got[k].0
  {
    if got == [] then [] else Indices(got[..|got| - 1]) + [got[|got| - 1].0]
  }
}
