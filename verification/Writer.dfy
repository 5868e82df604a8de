/** The write-back cache file behind a handle opened for writing. */
module Writer {
  import opened Prelude
  import opened RangedGet
  import opened ObjectStore

  function Zeros(n: nat): (z: Bytes)
    ensures |z| == n && forall i :: 0 <= i < n ==> z[i] == 0
  {
    seq(n, i => 0)
  }

  /** `ftruncate`: cuts the file or extends it with zero bytes. */
  function SetLen(file: Bytes, n: nat): Bytes {
    if n <= |file| then file[..n] else file + Zeros(n - |file|)
  }

  /** `pwrite` of all of `data`: a hole before it reads as zeros; writing nothing changes nothing. */
  function WriteAt(file: Bytes, offset: nat, data: Bytes): Bytes {
    if data == [] then file
    else
      var base := if |file| < offset + |data| then SetLen(file, offset + |data|) else file;
      base[..offset] + data + base[offset + |data|..]
  }

  /** The size a writer records for a write. */
  function SizeAfterWrite(size: nat, offset: nat, data: Bytes): nat {
    Max(size, offset + |data|)
  }

  /** Written bytes replace, a gap reads as zeros, and everything else keeps its value. */
  lemma WriteAtContents(file: Bytes, offset: nat, data: Bytes)
    requires data != []
    ensures var after := WriteAt(file, offset, data);
      && |after| == Max(|file|, offset + |data|)
      && Slice(after, offset, |data|) == data
      && (forall i :: 0 <= i < |file| && !(offset <= i < offset + |data|) ==> after[i] == file[i])
      && (forall i :: |file| <= i < offset ==> after[i] == 0)
  {
  }

  /** Resizing keeps the bytes that still fit and reads as zeros beyond the old end. */
  lemma SetLenContents(file: Bytes, n: nat)
    ensures var after := SetLen(file, n);
      && |after| == n
      && (forall i :: 0 <= i < n && i < |file| ==> after[i] == file[i])
      && (forall i :: |file| <= i < n ==> after[i] == 0)
  {
  }

  /** The recorded size stays the file's length exactly when the write is not an empty one past the end. */
  lemma WriteKeepsSizeIff(file: Bytes, offset: nat, data: Bytes)
    ensures SizeAfterWrite(|file|, offset, data) == |WriteAt(file, offset, data)|
      <==> data != [] || offset <= |file|
  {
    if data != [] { WriteAtContents(file, offset, data); }
  }

  class Writer {
    /** Contents of the local cache file. */
    var file: Bytes
    /** Destination object key. */
    var dst: string
    var size: nat
    var dirty: bool

    constructor (file: Bytes, dst: string, size: nat, dirty: bool)
      ensures this.file == file && this.dst == dst && this.size == size && this.dirty == dirty
    {
      this.file, this.dst, this.size, this.dirty := file, dst, size, dirty;
    }

    method Write(offset: nat, data: Bytes)
      modifies this`file, this`size, this`dirty
      ensures file == WriteAt(old(file), offset, data)
      ensures size == SizeAfterWrite(old(size), offset, data) && dirty
    {
      file := WriteAt(file, offset, data);
      size := Max(size, offset + |data|);
      dirty := true;
    }

    method SetDst(dst: string)
      modifies this`dst
      ensures this.dst == dst
    {
      this.dst := dst;
    }

    /** Reads from the cache file up to the recorded size; with that right it is the plain slice. */
    method Read(offset: nat, len: nat) returns (data: Bytes)
      ensures data == Slice(Visible(file, size), offset, len)
      ensures size == |file| ==> data == Slice(file, offset, len)
    {
      if offset >= size { return []; }
      var n := Min(len, size - offset);
      data := Slice(file, offset, n);
    }

    method Truncate(newSize: nat)
      modifies this`file, this`size, this`dirty
      ensures file == SetLen(old(file), newSize) && size == newSize && dirty
    {
      file := SetLen(file, newSize);
      size := newSize;
      dirty := true;
    }

    /** Uploads unflushed changes. A failed upload leaves the writer dirty, so nothing is forgotten. */
    method Flush(s3: Store) returns (ok: bool)
      modifies this`dirty, s3
      ensures ok ==> !dirty && s3.objects == (if old(dirty) then old(s3.objects)[dst := file] else old(s3.objects))
      ensures !ok ==> dirty && old(dirty)
      ensures !ok ==> s3.objects == old(s3.objects) || s3.objects == old(s3.objects)[dst := file]
      ensures s3.failures == old(s3.failures) + (if ok then 0 else 1)
    {
      if !dirty { return true; }
      ok := s3.Upload(dst, file);
      if ok { dirty := false; }
    }

    /** Dropping the writer removes the local file; it is kept when the bytes are not in S3 yet. */
    method Drop() returns (localCopy: Option<Bytes>)
      ensures localCopy == if dirty then Some(file) else None
    {
      localCopy := if dirty then Some(file) else None;
    }

    /**
     * What closing a handle does: flush, then drop the writer. Provided a clean writer's object was its
     * cache file, the bytes survive: the object is the cache file or the local copy is, and after a
     * reported success it is the object.
     */
    method Close(s3: Store) returns (ok: bool, localCopy: Option<Bytes>)
      requires !dirty ==> dst in s3.objects && s3.objects[dst] == file
      modifies this`dirty, s3
      ensures (dst in s3.objects && s3.objects[dst] == file) || localCopy == Some(file)
      ensures ok ==> dst in s3.objects && s3.objects[dst] == file
      ensures ok <==> localCopy == None
      ensures ok <==> s3.failures == old(s3.failures)
      ensures s3.objects - {dst} == old(s3.objects) - {dst}
    {
      ok := Flush(s3);
      localCopy := Drop();
    }
  }
}
