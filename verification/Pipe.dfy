/**
 * Uploading a stream of unknown length: parts are cut off the reader one after the other while at
 * most `concurrency` uploads are in flight.
 */
module Pipe {
  import opened Prelude
  import opened Multipart

  /** A reader that hands out the rest of its stream in pieces of arbitrary size. */
  class Reader {
    var rest: Bytes
    /** How many reads failed so far. */
    ghost var failures: nat

    constructor (stream: Bytes)
      ensures rest == stream && failures == 0
    {
      rest, failures := stream, 0;
    }

    /** Returns between one and `cap` bytes, and none exactly at the end of the stream; or fails. */
    method Read(cap: nat) returns (r: Option<Bytes>)
      requires cap > 0
      modifies this
      ensures r.None? ==> rest == old(rest)
      ensures failures == old(failures) + (if r.None? then 1 else 0)
      ensures r.Some? ==> old(rest) == r.value + rest && |r.value| <= cap
      ensures r.Some? ==> (r.value == [] <==> old(rest) == [])
    {
      var failed: bool := *;
      if failed { failures := failures + 1; return None; }
      var wanted: int := *;
      var n := Min(Max(wanted, 1), Min(cap, |rest|));
      r := Some(rest[..n]);
      rest := rest[n..];
    }
  }

  /** Reads until the buffer holds `cap` bytes or the stream ends. */
  method ReadPart(reader: Reader, cap: nat) returns (r: Option<Bytes>)
    modifies reader
    ensures reader.failures == old(reader.failures) + (if r.None? then 1 else 0)
    ensures r.Some? ==> r.value == old(reader.rest)[..Min(cap, |old(reader.rest)|)]
    ensures r.Some? ==> reader.rest == old(reader.rest)[Min(cap, |old(reader.rest)|)..]
  {
    var buf: Bytes := [];
    while |buf| < cap
      invariant reader.failures == old(reader.failures)
      invariant |buf| <= cap && buf + reader.rest == old(reader.rest)
      decreases cap - |buf|
    {
      var got := reader.Read(cap - |buf|);
      if got.None? { return None; }
      if got.value == [] { break; }
      buf := buf + got.value;
    }
    assert old(reader.rest)[..|buf|] == buf;
    assert old(reader.rest)[|buf|..] == reader.rest;
    r := Some(buf);
  }

  datatype Upload = SinglePut(body: Bytes) | MultipartUpload(parts: seq<Part>) | UploadFailed

  /** The parts of a stream: the whole stream cut into pieces of the part size. */
  function StreamParts(stream: Bytes, partSize: nat): seq<Part>
    requires partSize > 0
  {
    Tasks(stream, partSize, NParts(|stream|, partSize))
  }

  /** Cut points: part `n` of the stream starts at `n * partSize`, and the cutting ends with the stream. */
  lemma NextPart(stream: Bytes, partSize: nat, n: nat)
    requires partSize > 0 && n <= NParts(|stream|, partSize)
    ensures n < NParts(|stream|, partSize) <==> n * partSize < |stream|
    ensures n < NParts(|stream|, partSize) ==>
      var rest := stream[n * partSize..];
      PartBytes(stream, partSize, n) == rest[..Min(partSize, |rest|)] &&
      rest[Min(partSize, |rest|)..] == stream[Min((n + 1) * partSize, |stream|)..]
  {
    DivCeilBounds(|stream|, partSize);
    assert (n + 1) * partSize == n * partSize + partSize;
    if n < NParts(|stream|, partSize) {
      CutOff(stream, n * partSize, partSize);
    }
  }

  lemma CutOff(stream: Bytes, start: nat, len: nat)
    requires start <= |stream|
    ensures var rest := stream[start..];
      rest[..Min(len, |rest|)] == stream[start..Min(start + len, |stream|)] &&
      rest[Min(len, |rest|)..] == stream[Min(start + len, |stream|)..]
  {
  }

  /** Starts an upload once a permit is free: some in-flight upload finishes first when all are taken. */
  method AcquireAndSpawn(inFlight: set<Part>, task: Part, concurrency: nat, peak: nat)
    returns (now: set<Part>, peak': nat)
    requires concurrency > 0 && |inFlight| <= concurrency && peak <= concurrency && task !in inFlight
    ensures |now| <= concurrency && |now| <= peak' <= concurrency && peak <= peak'
    ensures |inFlight| < concurrency ==> now == inFlight + {task}
    ensures |inFlight| == concurrency ==> |now| == concurrency
    ensures task in now && now <= inFlight + {task}
  {
    now := inFlight;
    while |now| >= concurrency
      invariant now <= inFlight && |now| <= concurrency
      invariant |inFlight| < concurrency ==> now == inFlight
      invariant |inFlight| == concurrency ==> |now| >= concurrency - 1
      decreases |now|
    {
      var t :| t in now;
      now := now - {t};
    }
    now := now + {task};
    peak' := Max(peak, |now|);
  }

  /** Spawns the upload of the next part of the stream. */
  method UploadOne(spawned: seq<Part>, inFlight: set<Part>, task: Part, concurrency: nat, peak: nat,
                   ghost stream: Bytes, ghost partSize: nat)
    returns (spawned': seq<Part>, inFlight': set<Part>, peak': nat)
    requires partSize > 0 && concurrency > 0 && |spawned| < NParts(|stream|, partSize)
    requires spawned == Tasks(stream, partSize, |spawned|)
    requires task == Part(|spawned| + 1, PartBytes(stream, partSize, |spawned|))
    requires inFlight <= Elems(spawned) && |inFlight| <= concurrency && peak <= concurrency
    ensures spawned' == Tasks(stream, partSize, |spawned| + 1)
    ensures inFlight' <= Elems(spawned') && |inFlight'| <= peak' <= concurrency && peak <= peak'
  {
    assert task !in Elems(spawned);
    inFlight', peak' := AcquireAndSpawn(inFlight, task, concurrency, peak);
    spawned' := spawned + [task];
    ElemsConcat(spawned, [task]);
  }

  /** What is left of the stream after its first `n` parts. */
  ghost function Rest(stream: Bytes, partSize: nat, n: nat): Bytes {
    stream[Min(n * partSize, |stream|)..]
  }

  /** Reads the next part; an empty read means there is none. */
  method ReadNext(reader: Reader, partSize: nat, ghost stream: Bytes, ghost n: nat) returns (r: Option<Option<Bytes>>)
    requires partSize > 0 && n <= NParts(|stream|, partSize) && reader.rest == Rest(stream, partSize, n)
    modifies reader
    ensures reader.failures == old(reader.failures) + (if r.None? then 1 else 0)
    ensures r.Some? ==> (r.value.Some? <==> n < NParts(|stream|, partSize))
    ensures r.Some? && r.value.Some? ==>
      r.value.value == PartBytes(stream, partSize, n) && reader.rest == Rest(stream, partSize, n + 1)
  {
    NextPart(stream, partSize, n);
    var buf := ReadPart(reader, partSize);
    if buf.None? { return None; }
    r := Some(if buf.value != [] then Some(buf.value) else None);
  }

  /**
   * Cuts the stream into numbered parts, the first of which is already read, uploading them
   * concurrently; the completed parts are listed in part-number order.
   */
  method UploadPartsFromReader(reader: Reader, first: Bytes, partSize: nat, concurrency: nat, s3: Service,
                               ghost stream: Bytes)
    returns (parts: Option<seq<Part>>, peak: nat)
    requires partSize > 0 && concurrency > 0 && 0 < NParts(|stream|, partSize)
    requires first == PartBytes(stream, partSize, 0) && reader.rest == Rest(stream, partSize, 1)
    modifies reader, s3
    ensures reader.failures >= old(reader.failures) && s3.failures >= old(s3.failures)
    ensures parts.None? <==> reader.failures > old(reader.failures) || s3.failures > old(s3.failures)
    ensures peak <= concurrency
    ensures parts.Some? ==> parts.value == StreamParts(stream, partSize)
  {
    var partNumber: nat := 1;
    var next := Some(first);
    var spawned: seq<Part> := [];
    var inFlight: set<Part> := {};
    peak := 0;
    ghost var total := NParts(|stream|, partSize);
    while next.Some?
      invariant reader.failures == old(reader.failures) && s3.failures == old(s3.failures)
      invariant partNumber == |spawned| + 1 && |spawned| <= total
      invariant spawned == Tasks(stream, partSize, |spawned|)
      invariant inFlight <= Elems(spawned) && |inFlight| <= concurrency && peak <= concurrency
      invariant next.Some? <==> |spawned| < total
      invariant next.Some? ==> next.value == PartBytes(stream, partSize, |spawned|)
      invariant next.Some? ==> reader.rest == Rest(stream, partSize, |spawned| + 1)
      decreases total - |spawned|
    {
      spawned, inFlight, peak := UploadOne(
        spawned, inFlight, Part(partNumber, next.value), concurrency, peak, stream, partSize);
      partNumber := partNumber + 1;
      var buf := ReadNext(reader, partSize, stream, |spawned|);
      if buf.None? { return None, peak; }
      next := buf.value;
    }
    var done := RunTasks(spawned, s3);
    if done.None? { return None, peak; }
    SortRestoresOrder(spawned, done.value);
    parts := Some(SortParts(done.value));
  }

  /**
   * Streams a reader to an object: a single PUT exactly when the stream is shorter than one part,
   * otherwise numbered parts that concatenate to the stream.
   */
  method PutMultipartReader(reader: Reader, partSize: nat, concurrency: nat, s3: Service) returns (u: Upload, peak: nat)
    modifies reader, s3
    ensures u.UploadFailed? <==> reader.failures > old(reader.failures) || s3.failures > old(s3.failures)
    ensures peak <= Max(concurrency, 1)
    ensures u.SinglePut? ==> |old(reader.rest)| < Max(partSize, 1) && u.body == old(reader.rest)
    ensures u.MultipartUpload? ==>
      |old(reader.rest)| >= Max(partSize, 1) && u.parts == StreamParts(old(reader.rest), Max(partSize, 1))
  {
    peak := 0;
    var conc: nat, size: nat := Max(concurrency, 1), Max(partSize, 1);
    ghost var stream := reader.rest;
    var first := ReadPart(reader, size);
    if first.None? { return UploadFailed, 0; }
    if |first.value| < size {
      assert stream[..|stream|] == stream;
      var answered := s3.Request();
      return if answered then SinglePut(first.value) else UploadFailed, 0;
    }
    var parts;
    parts, peak := UploadPartsFromReader(reader, first.value, size, conc, s3, stream);
    u := if parts.Some? then MultipartUpload(parts.value) else UploadFailed;
  }

  /**
   * The parts of a stream concatenate to it, are numbered from one, are never empty, and all but
   * the last have exactly the part size.
   */
  lemma StreamPartsAreStream(stream: Bytes, partSize: nat)
    requires partSize > 0
    ensures var parts := StreamParts(stream, partSize);
      && Assembled(parts) == stream
      && (forall i :: 0 <= i < |parts| ==> parts[i].number == i + 1 && parts[i].body != [])
      && (forall i :: 0 <= i < |parts| - 1 ==> |parts[i].body| == partSize)
      && (|stream| >= partSize ==> |parts| > 0 && |parts[0].body| == partSize)
  {
    var n := NParts(|stream|, partSize);
    TasksAssemble(stream, partSize, n);
    DivCeilBounds(|stream|, partSize);
    assert stream[..|stream|] == stream;
    forall i | 0 <= i < n
      ensures |PartBytes(stream, partSize, i)| > 0
      ensures i + 1 < n ==> |PartBytes(stream, partSize, i)| == partSize
    {
      PartsTile(|stream|, partSize, i);
    }
  }
}
