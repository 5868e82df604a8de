/**
 * Multipart transfers of the S3 client: the part arithmetic of downloads, uploads and server-side
 * copies, with part tasks that finish in any order.
 */
module Multipart {
  import opened Prelude
  import opened RangedGet

  const MAX_MULTIPART_PARTS: nat := 10000
  const MIB: nat := 1024 * 1024
  const MIN_PART_SIZE: nat := 5 * MIB
  const U64_MAX: nat := 0xFFFF_FFFF_FFFF_FFFF
  const I32_LIMIT: nat := 0x8000_0000

  /** The service: whether it carries out a request is not ours to say. */
  class Service {
    /** How many requests failed so far. */
    ghost var failures: nat

    method Request() returns (ok: bool)
      modifies this
      ensures failures == old(failures) + (if ok then 0 else 1)
    {
      ok := *;
      if !ok { failures := failures + 1; }
    }
  }

  function NParts(size: nat, partSize: nat): nat
    requires partSize > 0
  {
    DivCeil(size, partSize)
  }

  /** Start and length of part `i`. */
  function PartOffset(partSize: nat, i: nat): nat {
    i * partSize
  }

  function PartLen(size: nat, partSize: nat, i: nat): nat
    requires partSize > 0 && i < NParts(size, partSize)
  {
    DivCeilBounds(size, partSize);
    Min(partSize, size - PartOffset(partSize, i))
  }

  /** The bytes of part `i`. */
  function PartBytes(data: Bytes, partSize: nat, i: nat): (p: Bytes)
    requires partSize > 0 && i < NParts(|data|, partSize)
    ensures |p| == PartLen(|data|, partSize, i)
  {
    DivCeilBounds(|data|, partSize);
    data[PartOffset(partSize, i)..PartOffset(partSize, i) + PartLen(|data|, partSize, i)]
  }

  /** No part is empty, all but the last are exactly the part size, and part `i + 1` starts where `i` ends. */
  lemma PartsTile(size: nat, partSize: nat, i: nat)
    requires partSize > 0 && i < NParts(size, partSize)
    ensures 0 < PartLen(size, partSize, i) <= partSize
    ensures i + 1 < NParts(size, partSize) ==> PartLen(size, partSize, i) == partSize
    ensures PartOffset(partSize, i) + PartLen(size, partSize, i)
         == if i + 1 < NParts(size, partSize) then PartOffset(partSize, i + 1) else size
  {
    DivCeilBounds(size, partSize);
    assert PartOffset(partSize, i + 1) == PartOffset(partSize, i) + partSize;
  }

  /** Every byte position lies in exactly one part. */
  lemma PositionInOnePart(size: nat, partSize: nat, pos: nat, i: nat)
    requires partSize > 0 && pos < size && i < NParts(size, partSize)
    ensures pos / partSize < NParts(size, partSize)
    ensures PartOffset(partSize, i) <= pos < PartOffset(partSize, i) + PartLen(size, partSize, i)
      <==> i == pos / partSize
  {
    DivCeilBounds(size, partSize);
    DivBracket(pos, partSize);
    if PartOffset(partSize, i) <= pos < PartOffset(partSize, i) + PartLen(size, partSize, i) {
      DivUnique(pos, partSize, i);
    }
  }

  // ----- download -----

  /** `write_all_at` into the preallocated file. */
  method WriteAllAt(file: array<Byte>, data: Bytes, offset: nat)
    requires offset + |data| <= file.Length
    modifies file
    ensures file[offset..offset + |data|] == data
    ensures forall p :: 0 <= p < file.Length && !(offset <= p < offset + |data|) ==> file[p] == old(file[p])
  {
    forall k | 0 <= k < |data| {
      file[offset + k] := data[k];
    }
  }

  /** The file agrees with the object wherever the part is no longer pending. */
  ghost predicate WrittenExcept(file: seq<Byte>, content: Bytes, partSize: nat, pending: set<nat>)
    requires partSize > 0 && |file| == |content|
  {
    forall p :: 0 <= p < |content| && p / partSize !in pending ==> file[p] == content[p]
  }

  /** Writing one part's bytes at its offset settles that part and disturbs no other. */
  lemma PartWriteSettles(
      before: seq<Byte>, after: seq<Byte>, content: Bytes, partSize: nat, i: nat, pending: set<nat>)
    requires partSize > 0 && i < NParts(|content|, partSize) && |before| == |after| == |content|
    requires WrittenExcept(before, content, partSize, pending)
    requires var start := PartOffset(partSize, i);
      var len := PartLen(|content|, partSize, i);
      && start + len <= |content|
      && after[start..start + len] == PartBytes(content, partSize, i)
      && forall p :: 0 <= p < |content| && !(start <= p < start + len) ==> after[p] == before[p]
    ensures WrittenExcept(after, content, partSize, pending - {i})
  {
    var start, len := PartOffset(partSize, i), PartLen(|content|, partSize, i);
    forall p | 0 <= p < |content| && p / partSize !in pending - {i}
      ensures after[p] == content[p]
    {
      PositionInOnePart(|content|, partSize, p, i);
      if p / partSize == i {
        assert after[start..start + len][p - start] == PartBytes(content, partSize, i)[p - start];
      }
    }
  }

  lemma FirstPartWritten(file: seq<Byte>, content: Bytes, partSize: nat, pending: set<nat>)
    requires partSize > 0 && |file| == |content| >= partSize && file[..partSize] == content[..partSize]
    requires forall i :: 1 <= i < NParts(|content|, partSize) ==> i in pending
    ensures WrittenExcept(file, content, partSize, pending)
  {
    forall p | 0 <= p < |content| && p / partSize !in pending
      ensures file[p] == content[p]
    {
      PositionInOnePart(|content|, partSize, p, 0);
      assert p / partSize == 0;
      assert file[..partSize][p] == content[..partSize][p];
    }
  }

  /** An inclusive range over one part fetches exactly that part. */
  lemma PartRange(content: Bytes, partSize: nat, i: nat)
    requires partSize > 0 && i < NParts(|content|, partSize)
    ensures var start, len := PartOffset(partSize, i), PartLen(|content|, partSize, i);
      len > 0 && start + len <= |content| &&
      GetRange(content, start, start + len - 1) == Partial(PartBytes(content, partSize, i))
  {
    PartsTile(|content|, partSize, i);
    DivCeilBounds(|content|, partSize);
  }

  /** Fetches parts `1..n` as concurrent ranged GETs written at their offsets, in any order. */
  method DownloadRemainingParts(content: Bytes, file: array<Byte>, partSize: nat, s3: Service) returns (ok: bool)
    requires partSize > 0 && file.Length == |content| > partSize
    requires file[..partSize] == content[..partSize]
    modifies file, s3
    ensures ok <==> s3.failures == old(s3.failures)
    ensures s3.failures >= old(s3.failures)
    ensures ok ==> file[..] == content
  {
    var nParts := NParts(|content|, partSize);
    DivCeilBounds(|content|, partSize);
    var later := Interval(1, nParts);
    var pending := set i | i in later;
    FirstPartWritten(file[..], content, partSize, pending);
    ok := true;
    while pending != {}
      invariant pending <= Elems(later) && s3.failures >= old(s3.failures)
      invariant ok <==> s3.failures == old(s3.failures)
      invariant ok ==> WrittenExcept(file[..], content, partSize, pending)
    {
      var i :| i in pending;
      assert i in later;
      var answered := s3.Request();
      if !answered {
        ok := false;
      } else {
        var start, len := PartOffset(partSize, i), PartLen(|content|, partSize, i);
        PartRange(content, partSize, i);
        ghost var before := file[..];
        WriteAllAt(file, GetRange(content, start, start + len - 1).body, start);
        assert file[start..start + len] == file[..][start..start + len];
        if ok { PartWriteSettles(before, file[..], content, partSize, i, pending); }
      }
      pending := pending - {i};
    }
  }

  /**
   * Downloads an object: the first ranged GET learns the size, larger objects fetch the rest in
   * parts, and a range the empty object cannot satisfy falls back to a plain GET.
   */
  method Download(content: Bytes, partSize: nat, s3: Service) returns (r: Option<Bytes>)
    requires partSize > 0
    modifies s3
    ensures r.Some? ==> r.value == content
    ensures s3.failures >= old(s3.failures)
    ensures r.None? <==> s3.failures > old(s3.failures)
  {
    var answered := s3.Request();
    if !answered { return None; }
    match GetRange(content, 0, partSize - 1)
    case NotSatisfiable =>
      answered := s3.Request();
      r := if answered then Some(content) else None;
    case Partial(first) =>
      var total := |content|;
      var file := new Byte[total](_ => 0);
      WriteAllAt(file, first, 0);
      assert file[..|first|] == first;
      if total > partSize {
        var ok := DownloadRemainingParts(content, file, partSize, s3);
        if !ok { return None; }
      }
      assert total <= partSize ==> file[..] == content;
      r := Some(file[..]);
  }

  // ----- part tasks finishing in any order -----

  /** A completed part: its number and, standing for its entity tag, the bytes it carried. */
  datatype Part = Part(number: nat, body: Bytes)

  ghost predicate Ascending(parts: seq<Part>) {
    forall i, j :: 0 <= i < j < |parts| ==> parts[i].number < parts[j].number
  }

  /** Runs the tasks concurrently; the results come back in an arbitrary completion order. */
  method RunTasks(tasks: seq<Part>, s3: Service) returns (done: Option<seq<Part>>)
    requires NoDup(tasks)
    modifies s3
    ensures s3.failures >= old(s3.failures)
    ensures done.None? <==> s3.failures > old(s3.failures)
    ensures done.Some? ==> NoDup(done.value) && Elems(done.value) == Elems(tasks)
  {
    var pending := set t | t in tasks;
    var results: seq<Part> := [];
    while pending != {}
      invariant s3.failures == old(s3.failures)
      invariant pending <= Elems(tasks) && NoDup(results) && Elems(results) == Elems(tasks) - pending
    {
      var answered := s3.Request();
      if !answered { return None; }
      var t :| t in pending;
      NoDupSnoc(results, t);
      results := results + [t];
      pending := pending - {t};
    }
    done := Some(results);
  }

  function Insert(p: Part, sorted: seq<Part>): seq<Part> {
    if sorted == [] || p.number < sorted[0].number then [p] + sorted
    else [sorted[0]] + Insert(p, sorted[1..])
  }

  /** `sort_by_key` on the part number. */
  function SortParts(parts: seq<Part>): seq<Part> {
    if parts == [] then [] else Insert(parts[0], SortParts(parts[1..]))
  }

  lemma {:induction false} InsertSorted(p: Part, sorted: seq<Part>)
    requires Ascending(sorted) && forall i :: 0 <= i < |sorted| ==> sorted[i].number != p.number
    ensures Ascending(Insert(p, sorted)) && forall q :: q in Insert(p, sorted) <==> q == p || q in sorted
  {
    if sorted != [] && !(p.number < sorted[0].number) {
      InsertSorted(p, sorted[1..]);
      var rest := Insert(p, sorted[1..]);
      forall q | q in rest
        ensures sorted[0].number < q.number
      {
        if q != p { var i :| 0 <= i < |sorted[1..]| && sorted[1..][i] == q; assert sorted[i + 1] == q; }
      }
      assert forall q :: q in sorted <==> q == sorted[0] || q in sorted[1..];
    }
  }

  lemma {:induction false} SortSorts(parts: seq<Part>)
    requires forall i, j :: 0 <= i < j < |parts| ==> parts[i].number != parts[j].number
    ensures Ascending(SortParts(parts)) && forall q :: q in SortParts(parts) <==> q in parts
  {
    if parts != [] {
      SortSorts(parts[1..]);
      forall i | 0 <= i < |SortParts(parts[1..])|
        ensures SortParts(parts[1..])[i].number != parts[0].number
      {
        assert SortParts(parts[1..])[i] in parts[1..];
        var j :| 0 <= j < |parts[1..]| && parts[1..][j] == SortParts(parts[1..])[i];
        assert parts[j + 1] == parts[1..][j];
      }
      InsertSorted(parts[0], SortParts(parts[1..]));
    }
  }

  /** Two ascending lists with the same parts are the same list. */
  lemma {:induction false} AscendingUnique(a: seq<Part>, b: seq<Part>)
    requires Ascending(a) && Ascending(b) && forall p :: p in a <==> p in b
    ensures a == b
  {
    if a == [] {
      assert forall i :: 0 <= i < |b| ==> b[i] in b;
    } else {
      assert a[0] in b && b[0] in a;
      var i :| 0 <= i < |b| && b[i] == a[0];
      var j :| 0 <= j < |a| && a[j] == b[0];
      assert a[0] == b[0];
      forall p
        ensures p in a[1..] <==> p in b[1..]
      {
        TailMembers(a, p);
        TailMembers(b, p);
      }
      AscendingUnique(a[1..], b[1..]);
    }
  }

  lemma TailMembers(a: seq<Part>, p: Part)
    requires Ascending(a) && a != []
    ensures p in a[1..] <==> p in a && p != a[0]
  {
    if p in a && p != a[0] {
      var i :| 0 <= i < |a| && a[i] == p;
      assert a[1..][i - 1] == p;
    }
  }

  /** Whatever the completion order, sorting by number gives the planned list back. */
  lemma SortRestoresOrder(tasks: seq<Part>, done: seq<Part>)
    requires Ascending(tasks) && NoDup(done) && Elems(done) == Elems(tasks)
    ensures SortParts(done) == tasks
  {
    assert forall p :: p in done <==> p in Elems(done);
    assert forall p :: p in tasks <==> p in Elems(tasks);
    forall i, j | 0 <= i < j < |done|
      ensures done[i].number != done[j].number
    {
      assert done[i] in tasks && done[j] in tasks && done[i] != done[j];
      var x :| 0 <= x < |tasks| && tasks[x] == done[i];
      var y :| 0 <= y < |tasks| && tasks[y] == done[j];
      if x < y { assert tasks[x].number < tasks[y].number; } else { assert tasks[y].number < tasks[x].number; }
    }
    SortSorts(done);
    AscendingUnique(SortParts(done), tasks);
  }

  // ----- upload -----

  /** What completing a multipart upload stores: the bodies in list order. */
  function Assembled(parts: seq<Part>): Bytes {
    if parts == [] then [] else Assembled(parts[..|parts| - 1]) + parts[|parts| - 1].body
  }

  /** The first `n` part tasks over `data`, numbered from one. */
  function Tasks(data: Bytes, partSize: nat, n: nat): (tasks: seq<Part>)
    requires partSize > 0 && n <= NParts(|data|, partSize)
    ensures |tasks| == n
    ensures forall i :: 0 <= i < n ==> tasks[i] == Part(i + 1, PartBytes(data, partSize, i))
  {
    if n == 0 then [] else Tasks(data, partSize, n - 1) + [Part(n, PartBytes(data, partSize, n - 1))]
  }

  /** Where the first `n` parts end. */
  function EndOf(size: nat, partSize: nat, n: nat): nat {
    Min(n * partSize, size)
  }

  lemma PartIsSlice(data: Bytes, partSize: nat, n: nat)
    requires partSize > 0 && 0 < n <= NParts(|data|, partSize)
    ensures EndOf(|data|, partSize, n - 1) <= EndOf(|data|, partSize, n)
    ensures PartBytes(data, partSize, n - 1) == data[EndOf(|data|, partSize, n - 1)..EndOf(|data|, partSize, n)]
  {
    DivCeilBounds(|data|, partSize);
    assert (n - 1) * partSize < |data|;
    assert n * partSize == (n - 1) * partSize + partSize;
  }

  lemma Extend(data: Bytes, a: nat, b: nat)
    requires a <= b <= |data|
    ensures data[..a] + data[a..b] == data[..b]
  {
  }

  /** The first `n` parts concatenate to the bytes before part `n`. */
  lemma {:induction false} TasksAssemble(data: Bytes, partSize: nat, n: nat)
    requires partSize > 0 && n <= NParts(|data|, partSize)
    ensures Assembled(Tasks(data, partSize, n)) == data[..EndOf(|data|, partSize, n)]
  {
    if n > 0 {
      TasksAssemble(data, partSize, n - 1);
      var tasks := Tasks(data, partSize, n);
      assert tasks[..n - 1] == Tasks(data, partSize, n - 1);
      PartIsSlice(data, partSize, n);
      Extend(data, EndOf(|data|, partSize, n - 1), EndOf(|data|, partSize, n));
      assert Assembled(tasks) == Assembled(tasks[..n - 1]) + PartBytes(data, partSize, n - 1);
    }
  }

  /** Rust's `as i32`: the low 32 bits read as a signed number. */
  function AsI32(n: nat): int {
    var low := n % (2 * I32_LIMIT);
    if low < I32_LIMIT then low else low - 2 * I32_LIMIT
  }

  lemma AsI32Bounds(n: nat)
    ensures AsI32(n) <= n && (AsI32(n) == n <==> n < I32_LIMIT)
  {
  }

  /** The part tasks an upload spawns: the part count goes through a 32-bit number. */
  function UploadTasks(data: Bytes, partSize: nat): seq<Part>
    requires partSize > 0
  {
    AsI32Bounds(NParts(|data|, partSize));
    Tasks(data, partSize, Max(0, AsI32(NParts(|data|, partSize))))
  }

  /**
   * The completed upload is the source exactly when the part count fits the 32-bit counter; a
   * larger source would silently lose its tail.
   */
  lemma UploadIsSourceIff(data: Bytes, partSize: nat)
    requires partSize > 0
    ensures Assembled(UploadTasks(data, partSize)) == data <==> NParts(|data|, partSize) < I32_LIMIT
  {
    var n := NParts(|data|, partSize);
    var m := Max(0, AsI32(n));
    AsI32Bounds(n);
    TasksAssemble(data, partSize, m);
    DivCeilBounds(|data|, partSize);
    if n >= I32_LIMIT {
      assert m * partSize < |data|;
    } else {
      assert data[..|data|] == data;
    }
  }

  /** Uploads the parts concurrently and lists the completed parts in part-number order. */
  method UploadParts(data: Bytes, partSize: nat, s3: Service) returns (parts: Option<seq<Part>>)
    requires partSize > 0
    modifies s3
    ensures s3.failures >= old(s3.failures)
    ensures parts.None? <==> s3.failures > old(s3.failures)
    ensures parts.Some? ==> parts.value == UploadTasks(data, partSize)
  {
    var tasks := UploadTasks(data, partSize);
    var done := RunTasks(tasks, s3);
    if done.None? { return None; }
    SortRestoresOrder(tasks, done.value);
    parts := Some(SortParts(done.value));
  }

  // ----- server-side copy -----

  function MinPart(size: nat): nat {
    DivCeil(size, MAX_MULTIPART_PARTS)
  }

  /** The part size of a server-side copy, grown when the configured one needs too many parts. */
  function CopyPartSize(partSize: nat, size: nat): nat {
    if partSize < MinPart(size) then DivCeil(MinPart(size), MIB) * MIB else partSize
  }

  /** A part size needs at most 10,000 parts exactly from the smallest sufficient size on. */
  lemma MinPartIsLeast(size: nat, partSize: nat)
    requires partSize > 0
    ensures NParts(size, partSize) <= MAX_MULTIPART_PARTS <==> partSize >= MinPart(size)
  {
    DivCeilBounds(size, MAX_MULTIPART_PARTS);
    DivCeilBounds(size, partSize);
    if partSize >= MinPart(size) {
      MulMono(MinPart(size), partSize, MAX_MULTIPART_PARTS);
      if NParts(size, partSize) > MAX_MULTIPART_PARTS {
        MulMono(MAX_MULTIPART_PARTS, NParts(size, partSize) - 1, partSize);
      }
    } else {
      MulMono(partSize, MinPart(size) - 1, MAX_MULTIPART_PARTS);
      if NParts(size, partSize) <= MAX_MULTIPART_PARTS {
        MulMono(NParts(size, partSize), MAX_MULTIPART_PARTS, partSize);
      }
    }
  }

  /** The configured part size is kept exactly when it suffices; otherwise it becomes whole mebibytes. */
  lemma CopyPartSizeKeptIff(partSize: nat, size: nat)
    requires partSize > 0
    ensures CopyPartSize(partSize, size) == partSize <==> NParts(size, partSize) <= MAX_MULTIPART_PARTS
    ensures CopyPartSize(partSize, size) != partSize ==> CopyPartSize(partSize, size) % MIB == 0
  {
    MinPartIsLeast(size, partSize);
    DivCeilBounds(MinPart(size), MIB);
    assert DivCeil(MinPart(size), MIB) * MIB >= MinPart(size);
  }

  /**
   * For every u64 size the grown part size needs at most 10,000 parts, fits in a u64, and exceeds
   * the smallest sufficient size by less than a mebibyte when it grows.
   */
  lemma CopyPartSizeSuffices(partSize: nat, size: nat)
    requires 0 < partSize <= U64_MAX && size <= U64_MAX
    ensures var grown := CopyPartSize(partSize, size);
      && partSize <= grown <= U64_MAX
      && NParts(size, grown) <= MAX_MULTIPART_PARTS
      && AsI32(NParts(size, grown)) == NParts(size, grown)
      && (grown != partSize ==> MinPart(size) <= grown < MinPart(size) + MIB)
      && forall i :: 0 <= i < NParts(size, grown) ==>
           PartOffset(grown, i) + PartLen(size, grown, i) <= size
  {
    var grown := CopyPartSize(partSize, size);
    DivCeilBounds(size, MAX_MULTIPART_PARTS);
    DivCeilBounds(MinPart(size), MIB);
    MulMono(MinPart(size), grown, MAX_MULTIPART_PARTS);
    DivCeilBounds(size, grown);
    assert MAX_MULTIPART_PARTS * grown >= size;
    forall i: nat | i < NParts(size, grown)
      ensures PartOffset(grown, i) + PartLen(size, grown, i) <= size
    {
      PartsTile(size, grown, i);
      if i + 1 < NParts(size, grown) { assert (i + 1) * grown < size; }
    }
    AsI32Bounds(NParts(size, grown));
  }

  /** A server-side copy in byte-range parts: complete for every u64 size, in at most 10,000 parts. */
  method CopyParts(source: Bytes, partSize: nat, s3: Service) returns (parts: Option<seq<Part>>)
    requires 0 < partSize <= U64_MAX && |source| <= U64_MAX
    modifies s3
    ensures parts.None? <==> s3.failures > old(s3.failures)
    ensures parts.Some? ==> Assembled(parts.value) == source
    ensures parts.Some? ==> |parts.value| <= MAX_MULTIPART_PARTS
    ensures parts.Some? ==> forall i :: 0 <= i < |parts.value| ==> parts.value[i].number == i + 1
    ensures parts.Some? ==> forall i :: 0 <= i < |parts.value| - 1 ==>
      |parts.value[i].body| == CopyPartSize(partSize, |source|)
  {
    var grown := CopyPartSize(partSize, |source|);
    CopyPartSizeSuffices(partSize, |source|);
    parts := UploadParts(source, grown, s3);
    UploadIsSourceIff(source, grown);
    forall i | 0 <= i < NParts(|source|, grown) - 1
      ensures PartLen(|source|, grown, i) == grown
    {
      PartsTile(|source|, grown, i);
    }
  }
}
