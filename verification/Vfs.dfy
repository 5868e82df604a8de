/**
 * The virtual file system core: the handle table, the in-progress sizes and the calls of the mount,
 * each proved against its step in the value model. A call is one atomic step.
 */
module Vfs {
  import opened Prelude
  import opened Inode
  import opened ObjectStore
  import WriteBack = Writer
  import opened Reader
  import opened VfsModel
  import opened MountLaws
  import opened DirRename
  import opened Url
  import opened RangedGet

  datatype VfsError = NoSuchFile | IoError | BadHandle | AlreadyExists | DirNotEmpty

  datatype OpenFile =
    | ReadOpen(ino: nat, reader: ChunkReader)
    | WriteOpen(ino: nat, writer: WriteBack.Writer)

  /** A write-back cache as a value. */
  ghost function StateOf(ino: nat, w: WriteBack.Writer): WriteHandle
    reads w
  {
    WriteHandle(ino, w.file, w.size, w.dirty, w.dst)
  }

  /** What a successful rename turned out to be. */
  datatype Renamed =
    | FileRenamed(found: Option<nat>)
    | DirRenamed(keys: seq<string>, order: seq<nat>)
    | NothingRenamed

  ghost predicate Renames(m: Mount, n: Mount, oldName: string, newName: string, what: Renamed) {
    match what
    case FileRenamed(found) =>
      && oldName in m.store && FoundWriter(m, MovedInode(m.table, oldName, newName), found)
      && n == RenameFile(m, oldName, newName, found)
    case DirRenamed(keys, order) =>
      && oldName !in m.store && keys != [] && ListingOf(keys, m.store, oldName + "/")
      && Enumerates(order, m.table, oldName + "/")
      && n == RenameDir(m, keys, order, oldName + "/", newName + "/")
    case NothingRenamed => false
  }

  /** What a failed rename may leave of the bucket. */
  ghost predicate RenameStopped(now: Objects, store: Objects, oldName: string, newName: string, what: Renamed) {
    match what
    case FileRenamed(_) => RenameStoppedAt(now, store, oldName, newName)
    case DirRenamed(keys, _) =>
      && (keys == [] || ListingOf(keys, store, oldName + "/"))
      && Intermediate(now, store, keys, oldName + "/", newName + "/")
    case NothingRenamed => now == store
  }

  /**
   * A failed rename of a directory, no target of which is itself moved: every listed key's bytes are at the
   * old or at the new key, and keys that are neither moved nor targets are as before. Without wildcard
   * characters in the name the listed keys are the directory's subtree.
   */
  lemma FailedDirRenameKeepsBytes(
      now: Objects, store: Objects, oldName: string, newName: string, keys: seq<string>, order: seq<nat>)
    requires RenameStopped(now, store, oldName, newName, DirRenamed(keys, order))
    requires TargetsOutside(keys, oldName + "/", newName + "/")
    requires HasGlob(oldName + "/") ==> SharedTargetsAgree(store, keys, oldName + "/", newName + "/")
    ensures forall k :: k in keys ==> BytesAtEither(now, store, oldName, newName, k)
    ensures !HasGlob(oldName + "/") ==>
      forall k :: k in store && Under(k, oldName + "/") ==> BytesAtEither(now, store, oldName, newName, k)
    ensures forall k :: k !in keys && (forall x :: x in keys ==> NewKey(x, oldName + "/", newName + "/") != k) ==>
      (k in now <==> k in store) && (k in now ==> now[k] == store[k])
  {
    var oldPrefix, newPrefix := oldName + "/", newName + "/";
    if !HasGlob(oldPrefix) {
      forall k
        ensures KeyMatches(oldPrefix, k) <==> Under(k, oldPrefix)
      {
        PlainPathMatches(oldPrefix, k);
      }
      if keys != [] { SubtreeTargetsAgree(store, keys, oldPrefix, newPrefix); }
    }
    NeverLosesBytes(now, store, keys, oldPrefix, newPrefix);
    forall k | k !in keys && forall x :: x in keys ==> NewKey(x, oldPrefix, newPrefix) != k
      ensures (k in now <==> k in store) && (k in now ==> now[k] == store[k])
    {
      OthersUntouched(now, store, keys, oldPrefix, newPrefix, k);
    }
  }

  predicate BytesAtEither(now: Objects, store: Objects, oldName: string, newName: string, k: string)
    requires k in store
  {
    var target := NewKey(k, oldName + "/", newName + "/");
    (k in now && now[k] == store[k]) || (target in now && now[target] == store[k])
  }

  /** Neither an object of this key nor anything listed under it as a directory. */
  ghost predicate NameFree(store: Objects, fileKey: string) {
    fileKey !in store && forall k :: k in store ==> !KeyMatches(fileKey + "/", k)
  }

  /** The listing of a directory shows nothing but its marker object. */
  ghost predicate OnlyMarker(store: Objects, dirKey: string) {
    forall k :: k in store && KeyMatches(dirKey, k) ==> k == dirKey
  }

  /** A wildcard-free name is free exactly when neither a file nor anything below it is stored. */
  lemma NameFreeIff(store: Objects, fileKey: string)
    requires !HasGlob(fileKey + "/")
    ensures NameFree(store, fileKey) <==> fileKey !in store && forall k :: k in store ==> !Under(k, fileKey + "/")
  {
    forall k
      ensures KeyMatches(fileKey + "/", k) <==> Under(k, fileKey + "/")
    {
      PlainPathMatches(fileKey + "/", k);
    }
  }

  /** A wildcard-free directory counts as empty exactly when nothing but its marker is stored below it. */
  lemma OnlyMarkerIff(store: Objects, dirKey: string)
    requires !HasGlob(dirKey)
    ensures OnlyMarker(store, dirKey) <==> forall k :: k in store && Under(k, dirKey) ==> k == dirKey
  {
    forall k
      ensures KeyMatches(dirKey, k) <==> Under(k, dirKey)
    {
      PlainPathMatches(dirKey, k);
    }
  }

  /** What a read without a handle returns: the slice below the reported size; past it nothing, stored or not. */
  predicate DirectRead(m: Mount, ino: nat, offset: nat, len: nat, cached: Option<nat>, data: Bytes)
    requires ino in m.table.nodes
  {
    var size, key := VfsModel.Getattr(m, ino, cached), m.table.nodes[ino].key;
    && size.Some?
    && (offset >= size.value || len == 0 ==> data == [])
    && (offset < size.value && len > 0 ==>
          key in m.store && data == Slice(Visible(m.store[key], size.value), offset, len))
  }

  /** No file to read there. */
  predicate Unreadable(m: Mount, ino: nat, offset: nat, cached: Option<nat>) {
    || ino !in m.table.nodes || m.table.nodes[ino].kind == Dir || VfsModel.Getattr(m, ino, cached).None?
    || m.table.nodes[ino].key !in m.store
  }

  class Vfs {
    const s3: Store
    const inodes: InodeTable
    var handles: map<nat, OpenFile>
    /** Files with unflushed local writes: inode to in-progress size. */
    var dirtySizes: map<nat, nat>
    var nextFh: nat

    /** The value every call is specified on; `Valid` ties it to the real fields. */
    ghost var mount: Mount

    ghost function Writers(): set<WriteBack.Writer>
      reads this`handles
    {
      set fh | fh in handles && handles[fh].WriteOpen? :: handles[fh].writer
    }

    ghost function WriterStates(): map<nat, WriteHandle>
      reads this`handles, Writers()
    {
      map fh | fh in handles && handles[fh].WriteOpen? :: StateOf(handles[fh].ino, handles[fh].writer)
    }

    /** Handle numbers were handed out in order, and no two write handles share a writer. */
    ghost predicate HandlesValid()
      reads this`handles, this`nextFh
    {
      && (forall fh :: fh in handles ==> fh <= nextFh)
      && (forall f, g :: f in handles && g in handles && f != g && handles[f].WriteOpen? && handles[g].WriteOpen?
            ==> handles[f].writer != handles[g].writer)
    }

    ghost predicate Valid()
      reads this, s3, inodes, Writers()
    {
      && HandlesValid()
      && mount == Mount(inodes.Model(), WriterStates(), dirtySizes, s3.objects, nextFh)
    }

    constructor (s3: Store, rootKey: string)
      ensures Valid() && this.s3 == s3 && fresh(inodes)
      ensures mount == Mount(NewTable(rootKey), map[], map[], s3.objects, 0)
    {
      this.s3 := s3;
      inodes := new InodeTable(rootKey);
      handles, dirtySizes, nextFh := map[], map[], 0;
      mount := Mount(NewTable(rootKey), map[], map[], s3.objects, 0);
    }

    // ----- steps on the handle table -----

    method AllocHandle() returns (fh: nat)
      requires Valid()
      modifies this`nextFh, this`mount
      ensures Valid() && mount == old(mount).(nextFh := fh)
      ensures fh == old(mount).nextFh + 1 && fh !in handles
    {
      nextFh := nextFh + 1;
      fh := nextFh;
      mount := mount.(nextFh := fh);
    }

    /** Opens a writer on a cache file and installs it under a handle number just allocated. */
    method Install(fh: nat, ino: nat, file: Bytes, dirty: bool, dst: string)
      requires Valid() && fh == nextFh && fh !in handles
      modifies this`handles, this`dirtySizes, this`mount
      ensures Valid() && mount == SetWriter(old(mount), fh, FreshHandle(ino, file, dirty, dst))
    {
      var w := new WriteBack.Writer(file, dst, |file|, dirty);
      InstallWriter(fh, ino, w);
    }

    method InstallWriter(fh: nat, ino: nat, w: WriteBack.Writer)
      requires Valid() && fh == nextFh && fh !in handles && w !in Writers()
      modifies this`handles, this`dirtySizes, this`mount
      ensures Valid() && handles == old(handles)[fh := WriteOpen(ino, w)]
      ensures mount == SetWriter(old(mount), fh, StateOf(ino, w))
    {
      assert forall f :: f in handles && handles[f].WriteOpen? ==> handles[f].writer in Writers();
      handles := handles[fh := WriteOpen(ino, w)];
      dirtySizes := dirtySizes[ino := w.size];
      mount := SetWriter(mount, fh, StateOf(ino, w));
      assert WriterStates() == mount.writers;
    }

    /** Installs a reader under a handle number just allocated. */
    method InstallReader(fh: nat, ino: nat, reader: ChunkReader)
      requires Valid() && fh == nextFh && fh !in handles
      modifies this`handles
      ensures Valid() && handles == old(handles)[fh := ReadOpen(ino, reader)]
    {
      handles := handles[fh := ReadOpen(ino, reader)];
      assert WriterStates() == mount.writers;
    }

    /** Takes a write handle out of the table. */
    method CloseWriter(fh: nat, uploaded: bool)
      requires Valid() && fh in handles && handles[fh].WriteOpen?
      modifies this
      ensures Valid() && handles == old(handles) - {fh}
      ensures mount == Close(old(mount), fh, uploaded)
    {
      if uploaded { dirtySizes := dirtySizes - {handles[fh].ino}; }
      handles := handles - {fh};
      mount := Close(mount, fh, uploaded);
      assert WriterStates() == mount.writers;
    }

    method CloseReader(fh: nat)
      requires Valid() && fh in handles && handles[fh].ReadOpen?
      modifies this
      ensures Valid() && handles == old(handles) - {fh} && mount == old(mount)
    {
      handles := handles - {fh};
      assert WriterStates() == mount.writers;
    }

    /** Records the size of a writer after a change to it, and the change in the model. */
    method Publish(fh: nat)
      requires fh in handles && handles[fh].WriteOpen? && HandlesValid()
      requires mount.table == inodes.Model() && mount.store == s3.objects && mount.nextFh == nextFh
      requires mount.dirtySizes == dirtySizes
      requires WriterStates() == mount.writers[fh := StateOf(handles[fh].ino, handles[fh].writer)]
      modifies this`dirtySizes, this`mount
      ensures Valid() && mount == SetWriter(old(mount), fh, StateOf(handles[fh].ino, handles[fh].writer))
    {
      var of := handles[fh];
      dirtySizes := dirtySizes[of.ino := of.writer.size];
      mount := SetWriter(mount, fh, StateOf(of.ino, of.writer));
    }

    /** Requests failed only where they are counted, and a call that failed for one had one fail. */
    ghost predicate Blamed(before: nat, failed: bool)
      reads s3`failures
    {
      before <= s3.failures && (failed ==> before < s3.failures)
    }

    // ----- requests to the bucket and changes of the inode table -----

    method UploadObject(key: string, data: Bytes) returns (ok: bool)
      requires Valid()
      modifies this`mount, s3
      ensures Valid() && mount == old(mount).(store := mount.store)
      ensures ok ==> mount.store == old(mount).store[key := data]
      ensures !ok ==> mount.store == old(mount).store || mount.store == old(mount).store[key := data]
      ensures s3.failures == old(s3.failures) + (if ok then 0 else 1)
    {
      ok := s3.Upload(key, data);
      mount := mount.(store := s3.objects);
    }

    method CopyObject(src: string, dst: string) returns (ok: bool)
      requires Valid()
      modifies this`mount, s3
      ensures Valid() && mount == old(mount).(store := mount.store)
      ensures ok || mount.store != old(mount).store ==> src in old(mount).store
      ensures ok || mount.store != old(mount).store ==> mount.store == old(mount).store[dst := old(mount).store[src]]
      ensures s3.failures == old(s3.failures) + (if ok then 0 else 1)
    {
      ok := s3.Copy(src, dst);
      mount := mount.(store := s3.objects);
    }

    method DeleteObject(key: string) returns (ok: bool)
      requires Valid()
      modifies this`mount, s3
      ensures Valid() && mount == old(mount).(store := mount.store)
      ensures ok ==> mount.store == old(mount).store - {key}
      ensures !ok ==> mount.store == old(mount).store || mount.store == old(mount).store - {key}
      ensures s3.failures == old(s3.failures) + (if ok then 0 else 1)
    {
      ok := s3.Delete(key);
      mount := mount.(store := s3.objects);
    }

    method InternNode(key: string, kind: NodeKind, parent: nat) returns (ino: nat)
      requires Valid()
      modifies this`mount, inodes
      ensures Valid() && mount == old(mount).(table := Inode.Intern(old(mount).table, key, kind, parent))
      ensures key in mount.table.byKey && mount.table.byKey[key] == ino
    {
      ino := inodes.InternKey(key, kind, parent);
      mount := mount.(table := inodes.Model());
    }

    /** Drops the inode of a key, if it has one. */
    method ForgetKey(key: string)
      requires Valid()
      modifies this`mount, inodes
      ensures Valid()
      ensures mount == old(mount).(table := if key in old(mount).table.byKey
        then Forget(old(mount).table, old(mount).table.byKey[key]) else old(mount).table)
    {
      var ino := inodes.LookupKey(key);
      if ino.Some? { inodes.ForgetInode(ino.value); }
      mount := mount.(table := inodes.Model());
    }

    /** Rekeys the inode of `oldKey`, if it has one. */
    method RekeyKey(oldKey: string, newKey: string) returns (ino: Option<nat>)
      requires Valid()
      modifies this`mount, inodes
      ensures Valid()
      ensures ino == if oldKey in old(mount).table.byKey then Some(old(mount).table.byKey[oldKey]) else None
      ensures mount == if ino.None? then old(mount)
        else old(mount).(table := Rekey(old(mount).table, ino.value, newKey))
    {
      ino := inodes.LookupKey(oldKey);
      if ino.Some? {
        inodes.RekeyInode(ino.value, newKey);
        mount := mount.(table := inodes.Model());
      }
    }

    method RekeyDir(oldPrefix: string, newPrefix: string) returns (order: seq<nat>)
      requires Valid()
      modifies this`mount, inodes
      ensures Valid() && Enumerates(order, old(mount).table, oldPrefix)
      ensures mount == old(mount).(table := RekeyAll(old(mount).table, order, oldPrefix, newPrefix))
    {
      order := inodes.RekeyPrefix(oldPrefix, newPrefix);
      mount := mount.(table := inodes.Model());
    }

    method ClearDirtySize(ino: nat)
      requires Valid()
      modifies this`dirtySizes, this`mount
      ensures Valid() && mount == old(mount).(dirtySizes := old(mount).dirtySizes - {ino})
    {
      dirtySizes := dirtySizes - {ino};
      mount := mount.(dirtySizes := dirtySizes);
    }

    // ----- the calls -----

    /** The size `getattr` reports; `cached` is what the attribute cache still holds. */
    method Getattr(ino: nat, cached: Option<nat>) returns (r: Result<nat, VfsError>)
      requires Valid()
      modifies s3`failures
      ensures Valid() && r != Err(AlreadyExists) && r != Err(DirNotEmpty) && r != Err(BadHandle)
      ensures Blamed(old(s3.failures), r.Err? && r.error == IoError)
      ensures r.Ok? ==> VfsModel.Getattr(mount, ino, cached) == Some(r.value)
      ensures r == Err(NoSuchFile) ==> VfsModel.Getattr(mount, ino, cached) == None
    {
      var node := inodes.Get(ino);
      if node.None? { return Err(NoSuchFile); }
      if node.value.kind == Dir { return Ok(0); }
      if ino in dirtySizes { return Ok(dirtySizes[ino]); }
      if cached.Some? { return Ok(cached.value); }
      var reply := s3.Stat(node.value.key);
      match reply
      case Found => r := Ok(|s3.objects[node.value.key]|);
      case NotFound => r := Err(NoSuchFile);
      case StatFailed => r := Err(IoError);
    }

    /** Opens a file for writing, downloading the current object unless it is truncated. */
    method OpenForWriting(ino: nat, trunc: bool) returns (r: Result<nat, VfsError>)
      requires Valid()
      modifies this, s3`failures
      ensures Valid()
      ensures r.Err? ==> Leaves(old(mount), FailedOpen, mount)
      ensures Blamed(old(s3.failures), r.Err? && r.error == IoError)
      ensures r.Err? && r.error != IoError ==>
        ino !in old(mount).table.nodes || old(mount).table.nodes[ino].kind == Dir
      ensures r.Ok? ==> ino in old(mount).table.nodes && old(mount).table.nodes[ino].kind == File
      ensures r.Ok? ==> mount == OpenWrite(old(mount), ino, trunc) && r.value == nextFh
    {
      var node := inodes.Get(ino);
      if node.None? || node.value.kind == Dir { return Err(NoSuchFile); }
      var key := node.value.key;
      var fh := AllocHandle();
      var loaded := LoadForWriting(key, trunc);
      if loaded.Err? { return Err(loaded.error); }
      Install(fh, ino, loaded.value.0, loaded.value.1, key);
      r := Ok(fh);
    }

    /** The cache file a write handle starts from, and whether it must be uploaded. */
    method LoadForWriting(key: string, trunc: bool) returns (r: Result<(Bytes, bool), VfsError>)
      modifies s3`failures
      ensures r.Err? ==> r.error == IoError
      ensures Blamed(old(s3.failures), r.Err? && r.error == IoError)
      ensures r.Ok? ==>
        r.value == if trunc || key !in s3.objects then ([], true) else (s3.objects[key], false)
    {
      if trunc { return Ok(([], true)); }
      var reply := s3.Stat(key);
      match reply
      case Found =>
        var data := s3.Download(key);
        r := if data.Some? then Ok((data.value, false)) else Err(IoError);
      case NotFound => r := Ok(([], true));
      case StatFailed => r := Err(IoError);
    }

    /** Opens a file for reading through a chunked reader over the object as it is now. */
    method OpenForReading(ino: nat, cached: Option<nat>, chunkSize: nat, bufferSize: nat)
      returns (r: Result<nat, VfsError>)
      requires Valid()
      modifies this, s3`failures
      ensures Valid()
      ensures r.Err? ==> Leaves(old(mount), FailedOpen, mount)
      ensures Blamed(old(s3.failures), r.Err? && r.error == IoError)
      ensures r.Err? && r.error != IoError && ino in old(mount).table.nodes ==>
        old(mount).table.nodes[ino].kind == Dir || VfsModel.Getattr(old(mount), ino, cached) == None
      ensures r.Ok? ==> mount == Bumped(old(mount)) && r.value == nextFh
      ensures r.Ok? ==> r.value in handles && handles[r.value].ReadOpen? && handles[r.value].reader.Valid()
      ensures r.Ok? ==> Some(handles[r.value].reader.size) == VfsModel.Getattr(old(mount), ino, cached)
      ensures r.Ok? ==> handles[r.value].ino == ino
      ensures r.Ok? ==> handles[r.value].reader.chunkSize == Max(chunkSize, MIN_CHUNK_SIZE)
      ensures r.Ok? ==> ino in mount.table.nodes && (mount.table.nodes[ino].key in mount.store ==>
        handles[r.value].reader.content == mount.store[mount.table.nodes[ino].key])
    {
      var node := inodes.Get(ino);
      if node.None? || node.value.kind == Dir { return Err(NoSuchFile); }
      var fh := AllocHandle();
      var reader := NewReader(ino, node.value.key, cached, chunkSize, bufferSize);
      if reader.Err? { return Err(reader.error); }
      InstallReader(fh, ino, reader.value);
      r := Ok(fh);
    }

    /** A chunked reader over the stored object, with the size `getattr` reports. */
    method NewReader(ino: nat, key: string, cached: Option<nat>, chunkSize: nat, bufferSize: nat)
      returns (r: Result<ChunkReader, VfsError>)
      requires Valid()
      modifies s3`failures
      ensures Valid()
      ensures Blamed(old(s3.failures), r.Err? && r.error == IoError)
      ensures r.Err? && r.error != IoError ==> VfsModel.Getattr(mount, ino, cached) == None
      ensures r.Ok? ==> r.value.Valid() && Some(r.value.size) == VfsModel.Getattr(mount, ino, cached)
      ensures r.Ok? && key in mount.store ==> r.value.content == mount.store[key]
      ensures r.Ok? ==> r.value.chunkSize == Max(chunkSize, MIN_CHUNK_SIZE)
      ensures r.Ok? ==> r.value.maxChunks == Max(bufferSize / r.value.chunkSize, 2)
    {
      var size := Getattr(ino, cached);
      if size.Err? { return Err(size.error); }
      var content := if key in s3.objects then s3.objects[key] else [];
      var reader := new ChunkReader(content, size.value, chunkSize, bufferSize);
      r := Ok(reader);
    }

    /** Creates an empty file under the directory and opens it for writing. */
    method Create(parent: nat, name: string) returns (r: Result<(nat, nat), VfsError>)
      requires Valid()
      modifies this, inodes
      ensures Valid()
      ensures r.Ok? <==> parent in old(mount).table.nodes && old(mount).table.nodes[parent].kind == Dir
      ensures r.Err? ==> mount == old(mount)
      ensures r.Ok? ==> mount == VfsModel.Create(old(mount), parent, old(mount).table.nodes[parent].key + name)
      ensures r.Ok? ==> r.value.1 == nextFh
      ensures r.Ok? ==> old(mount).table.nodes[parent].key + name in mount.table.byKey
      ensures r.Ok? ==> r.value.0 == mount.table.byKey[old(mount).table.nodes[parent].key + name]
    {
      var pnode := inodes.Get(parent);
      if pnode.None? || pnode.value.kind != Dir { return Err(NoSuchFile); }
      var key := pnode.value.key + name;
      var ino := InternNode(key, File, parent);
      var fh := AllocHandle();
      Install(fh, ino, [], true, key);
      r := Ok((ino, fh));
    }

    method WriteHandle(fh: nat, offset: nat, data: Bytes) returns (r: Result<nat, VfsError>)
      requires Valid()
      modifies this, Writers()
      ensures Valid() && handles == old(handles)
      ensures r.Ok? <==> fh in old(mount).writers
      ensures r.Err? ==> mount == old(mount)
      ensures r.Ok? ==> mount == WriteHandleAt(old(mount), fh, offset, data) && r.value == |data|
      ensures r.Ok? ==> OnlyHandleChanged(old(mount), mount, fh, old(mount).writers[fh].ino) && fh in mount.writers
      ensures r.Ok? && data != [] ==>
        && WroteAt(mount.writers[fh].file, old(mount).writers[fh].file, offset, data)
        && Slice(mount.writers[fh].file, offset, |data|) == data
    {
      if fh !in handles || !handles[fh].WriteOpen? { return Err(BadHandle); }
      var w := handles[fh].writer;
      assert w in Writers();
      w.Write(offset, data);
      Publish(fh);
      WrittenHandle(old(mount), fh, offset, data);
      r := Ok(|data|);
    }

    /** Uploads unflushed changes; not an error on a handle that is not open for writing. */
    method FlushHandle(fh: nat) returns (r: Result<(), VfsError>)
      requires Valid()
      modifies this`mount, s3, Writers()
      ensures Valid()
      ensures fh !in old(mount).writers ==> r.Ok? && mount == old(mount)
      ensures fh in old(mount).writers && r.Ok? ==> mount == Flush(old(mount), fh)
      ensures r.Err? ==> fh in old(mount).writers && old(mount).writers[fh].dirty
      ensures r.Err? ==> Leaves(old(mount), FailedFlush(fh), mount)
      ensures Blamed(old(s3.failures), r.Err?)
    {
      if fh !in handles || !handles[fh].WriteOpen? { return Ok(()); }
      var ok := FlushWriter(fh);
      r := if ok then Ok(()) else Err(IoError);
    }

    /** The upload of a write handle; one reported as failed may have taken effect. */
    method FlushWriter(fh: nat) returns (ok: bool)
      requires Valid() && fh in handles && handles[fh].WriteOpen?
      modifies this`mount, s3, Writers()
      ensures Valid() && fh in old(mount).writers
      ensures s3.failures == old(s3.failures) + (if ok then 0 else 1)
      ensures ok ==> mount == Flush(old(mount), fh)
      ensures !ok ==> old(mount).writers[fh].dirty && mount == old(mount).(store := mount.store)
      ensures !ok ==> mount.store == old(mount).store || mount.store == Flush(old(mount), fh).store
    {
      assert handles[fh].writer in Writers();
      ok := handles[fh].writer.Flush(s3);
      RecordFlush(fh);
    }

    /** Records the bucket and the state of one writer after its upload in the model. */
    method RecordFlush(fh: nat)
      requires fh in handles && handles[fh].WriteOpen? && HandlesValid()
      requires mount.table == inodes.Model() && mount.nextFh == nextFh && mount.dirtySizes == dirtySizes
      requires WriterStates() == mount.writers[fh := StateOf(handles[fh].ino, handles[fh].writer)]
      modifies this`mount
      ensures Valid()
      ensures mount == old(mount).(
        store := s3.objects, writers := old(mount).writers[fh := StateOf(handles[fh].ino, handles[fh].writer)])
    {
      mount := mount.(
        store := s3.objects, writers := mount.writers[fh := StateOf(handles[fh].ino, handles[fh].writer)]);
    }

    /**
     * Closes a handle; a write handle uploads first, and a failed upload surfaces to the caller:
     * its bytes then stay in the local cache file and its size stays reported.
     */
    method Release(fh: nat) returns (r: Result<(), VfsError>, localCopy: Option<Bytes>)
      requires Valid()
      modifies this, s3, Writers()
      ensures Valid() && fh !in handles
      ensures fh !in old(mount).writers ==> r.Ok? && mount == old(mount)
      ensures fh in old(mount).writers && r.Ok? ==> mount == VfsModel.Release(old(mount), fh)
      ensures r.Err? ==> fh in old(mount).writers && localCopy == Some(old(mount).writers[fh].file)
      ensures Blamed(old(s3.failures), r.Err?)
      ensures r.Err? ==>
        mount == ReleaseFailed(old(mount), fh, false) || mount == ReleaseFailed(old(mount), fh, true)
    {
      if fh !in handles { return Ok(()), None; }
      if handles[fh].ReadOpen? {
        CloseReader(fh);
        return Ok(()), None;
      }
      var w := handles[fh].writer;
      r := FlushHandle(fh);
      localCopy := w.Drop();
      CloseWriter(fh, r.Ok?);
    }

    /** Some write handle of the inode, preferring the given one; the table is searched in any order. */
    method FindWriteHandle(ino: nat, fh: Option<nat>) returns (found: Option<nat>)
      requires Valid()
      ensures FoundWriter(mount, Some(ino), found)
      ensures fh.Some? && fh.value in mount.writers && mount.writers[fh.value].ino == ino ==> found == fh
    {
      if fh.Some? && fh.value in handles && handles[fh.value].WriteOpen? && handles[fh.value].ino == ino {
        return fh;
      }
      if f :| f in handles && handles[f].WriteOpen? && handles[f].ino == ino {
        found := Some(f);
      } else {
        found := None;
      }
    }

    method TruncateWriter(fh: nat, newSize: nat)
      requires Valid() && fh in handles && handles[fh].WriteOpen?
      modifies this, Writers()
      ensures Valid() && mount == TruncateHandle(old(mount), fh, newSize)
    {
      var w := handles[fh].writer;
      assert w in Writers();
      w.Truncate(newSize);
      Publish(fh);
    }

    /** Truncates without an open handle: load or start empty, resize, upload again. */
    method TruncateStored(ino: nat, newSize: nat) returns (r: Result<(), VfsError>)
      requires Valid()
      modifies this, s3
      ensures Valid()
      ensures r.Ok? ==> ino in old(mount).table.nodes && mount == TruncateObject(old(mount), ino, newSize)
      ensures Blamed(old(s3.failures), r.Err? && r.error == IoError)
      ensures r.Err? && r.error != IoError ==> ino !in old(mount).table.nodes
      ensures r.Err? ==> Leaves(old(mount), FailedTruncate(ino, newSize), mount)
    {
      var node := inodes.Get(ino);
      if node.None? { return Err(NoSuchFile); }
      var key := node.value.key;
      var _ := AllocHandle();
      var reply := s3.Stat(key);
      if reply == StatFailed { return Err(IoError); }
      var was := if reply == Found then s3.objects[key] else [];
      var ok := UploadObject(key, WriteBack.SetLen(was, newSize));
      r := if ok then Ok(()) else Err(IoError);
    }

    /** Resizes through the write handle that was found, or the stored object without one. */
    method Resize(ino: nat, newSize: nat, found: Option<nat>) returns (r: Result<(), VfsError>)
      requires Valid() && FoundWriter(mount, Some(ino), found)
      modifies this, s3, Writers()
      ensures Valid()
      ensures found.Some? ==> r.Ok? && mount == TruncateHandle(old(mount), found.value, newSize)
      ensures found.None? && r.Ok? ==>
        ino in old(mount).table.nodes && mount == TruncateObject(old(mount), ino, newSize)
      ensures Blamed(old(s3.failures), r.Err? && r.error == IoError)
      ensures r.Err? && r.error != IoError ==> ino !in old(mount).table.nodes
      ensures r.Err? ==> Leaves(old(mount), FailedTruncate(ino, newSize), mount)
    {
      if found.Some? {
        TruncateWriter(found.value, newSize);
        r := Ok(());
      } else {
        r := TruncateStored(ino, newSize);
      }
    }

    /** Applies a size change, through an open write handle when there is one; then the attributes. */
    method Setattr(ino: nat, size: Option<nat>, fh: Option<nat>, cached: Option<nat>)
      returns (r: Result<nat, VfsError>, found: Option<nat>)
      requires Valid()
      modifies this, s3, Writers()
      ensures Valid()
      ensures FoundWriter(old(mount), Some(ino), found)
      ensures size.None? ==> mount == old(mount)
      ensures size.Some? && found.Some? ==> mount == TruncateHandle(old(mount), found.value, size.value)
      ensures size.Some? && found.None? && r.Ok? ==>
        ino in old(mount).table.nodes && mount == TruncateObject(old(mount), ino, size.value)
      ensures size.Some? && found.None? && r.Err? ==> Leaves(old(mount), FailedTruncate(ino, size.value), mount)
      ensures Blamed(old(s3.failures), r.Err? && r.error == IoError)
      ensures r.Err? && r.error != IoError ==> VfsModel.Getattr(mount, ino, cached) == None
      ensures r.Ok? ==> VfsModel.Getattr(mount, ino, cached) == Some(r.value)
    {
      found := FindWriteHandle(ino, fh);
      if size.None? {
        r := Getattr(ino, cached);
      } else {
        r := ResizeAndStat(ino, size.value, found, cached);
      }
    }

    method ResizeAndStat(ino: nat, newSize: nat, found: Option<nat>, cached: Option<nat>)
      returns (r: Result<nat, VfsError>)
      requires Valid() && FoundWriter(mount, Some(ino), found)
      modifies this, s3, Writers()
      ensures Valid()
      ensures found.Some? ==> mount == TruncateHandle(old(mount), found.value, newSize)
      ensures found.None? && r.Ok? ==>
        ino in old(mount).table.nodes && mount == TruncateObject(old(mount), ino, newSize)
      ensures found.None? && r.Err? ==> Leaves(old(mount), FailedTruncate(ino, newSize), mount)
      ensures Blamed(old(s3.failures), r.Err? && r.error == IoError)
      ensures r.Err? && r.error != IoError ==> VfsModel.Getattr(mount, ino, cached) == None
      ensures r.Ok? ==> VfsModel.Getattr(mount, ino, cached) == Some(r.value)
    {
      var done := Resize(ino, newSize, found);
      if done.Err? { return Err(done.error); }
      r := Getattr(ino, cached);
    }

    // ----- names -----

    method Unlink(parent: nat, name: string) returns (r: Result<(), VfsError>)
      requires Valid()
      modifies this, s3, inodes
      ensures Valid()
      ensures parent !in old(mount).table.nodes ==> r == Err(NoSuchFile) && mount == old(mount)
      ensures Blamed(old(s3.failures), r.Err? && r.error == IoError)
      ensures r.Err? && r.error != IoError ==> parent !in old(mount).table.nodes
      ensures r.Ok? ==> mount == VfsModel.Unlink(old(mount), old(mount).table.nodes[parent].key + name)
      ensures r.Err? && parent in old(mount).table.nodes ==>
        Leaves(old(mount), FailedUnlink(old(mount).table.nodes[parent].key + name), mount)
    {
      var pnode := inodes.Get(parent);
      if pnode.None? { return Err(NoSuchFile); }
      var key := pnode.value.key + name;
      var ok := DeleteObject(key);
      if !ok { return Err(IoError); }
      var ino := inodes.LookupKey(key);
      if ino.Some? { ClearDirtySize(ino.value); }
      ForgetKey(key);
      r := Ok(());
    }

    /** Creates a directory: a marker object, unless a file or a directory of that name exists. */
    method Mkdir(parent: nat, name: string) returns (r: Result<nat, VfsError>)
      requires Valid()
      modifies this, s3, inodes
      ensures Valid()
      ensures parent !in old(mount).table.nodes ==> r == Err(NoSuchFile) && mount == old(mount)
      ensures r == Err(AlreadyExists) ==> mount == old(mount)
      ensures parent in old(mount).table.nodes && (r.Ok? || r == Err(AlreadyExists)) ==>
        (r.Ok? <==> NameFree(old(mount).store, old(mount).table.nodes[parent].key + name))
      ensures Blamed(old(s3.failures), r.Err? && r.error == IoError)
      ensures r.Err? && r.error != IoError && r.error != AlreadyExists ==> parent !in old(mount).table.nodes
      ensures r.Ok? ==> old(mount).table.nodes[parent].key + name + "/" in mount.table.byKey
      ensures r.Ok? ==> r.value == mount.table.byKey[old(mount).table.nodes[parent].key + name + "/"]
      ensures r.Ok? ==> mount == VfsModel.Mkdir(old(mount), old(mount).table.nodes[parent].key + name + "/", parent)
      ensures r.Err? && parent in old(mount).table.nodes ==>
        Leaves(old(mount), FailedMkdir(old(mount).table.nodes[parent].key + name + "/"), mount)
    {
      var pnode := inodes.Get(parent);
      if pnode.None? { return Err(NoSuchFile); }
      var fileKey := pnode.value.key + name;
      var reply := s3.Stat(fileKey);
      if reply == Found { return Err(AlreadyExists); }
      if reply == StatFailed { return Err(IoError); }
      var taken := PrefixExists(fileKey + "/");
      if taken.None? { return Err(IoError); }
      if taken.value { return Err(AlreadyExists); }
      r := MakeDir(fileKey + "/", parent);
    }

    /** Whether the listing of the prefix shows any object. */
    method PrefixExists(prefix: string) returns (r: Option<bool>)
      requires Valid()
      modifies s3`failures
      ensures Valid() && s3.failures == old(s3.failures) + (if r.None? then 1 else 0)
      ensures r.Some? ==> (r.value <==> exists k :: k in mount.store && KeyMatches(prefix, k))
    {
      var listed := s3.List(prefix);
      if listed.None? { return None; }
      SomeMember(listed.value);
      r := Some(listed.value != []);
    }

    /** Stores the marker object of a directory and interns its key. */
    method MakeDir(dirKey: string, parent: nat) returns (r: Result<nat, VfsError>)
      requires Valid()
      modifies this, s3, inodes
      ensures Valid()
      ensures Blamed(old(s3.failures), r.Err?)
      ensures r.Ok? ==> dirKey in mount.table.byKey && mount.table.byKey[dirKey] == r.value
      ensures r.Ok? ==> mount == VfsModel.Mkdir(old(mount), dirKey, parent)
      ensures r.Err? ==> r.error == IoError && Leaves(old(mount), FailedMkdir(dirKey), mount)
    {
      var _ := AllocHandle();
      var ok := UploadObject(dirKey, []);
      if !ok { return Err(IoError); }
      var ino := InternNode(dirKey, Dir, parent);
      r := Ok(ino);
    }

    /** Removes a directory that lists nothing but its own marker. */
    method Rmdir(parent: nat, name: string) returns (r: Result<(), VfsError>)
      requires Valid()
      modifies this`mount, s3, inodes
      ensures Valid()
      ensures parent !in old(mount).table.nodes ==> r == Err(NoSuchFile) && mount == old(mount)
      ensures r == Err(DirNotEmpty) ==> mount == old(mount)
      ensures parent in old(mount).table.nodes && (r.Ok? || r == Err(DirNotEmpty)) ==>
        (r.Ok? <==> OnlyMarker(old(mount).store, old(mount).table.nodes[parent].key + name + "/"))
      ensures Blamed(old(s3.failures), r.Err? && r.error == IoError)
      ensures r.Err? && r.error != IoError && r.error != DirNotEmpty ==> parent !in old(mount).table.nodes
      ensures r.Ok? ==> mount == VfsModel.Rmdir(old(mount), old(mount).table.nodes[parent].key + name + "/")
      ensures r.Err? && parent in old(mount).table.nodes ==>
        Leaves(old(mount), FailedUnlink(old(mount).table.nodes[parent].key + name + "/"), mount)
    {
      var pnode := inodes.Get(parent);
      if pnode.None? { return Err(NoSuchFile); }
      var dirKey := pnode.value.key + name + "/";
      var listed := s3.List(dirKey);
      if listed.None? { return Err(IoError); }
      if k :| k in listed.value && k != dirKey { return Err(DirNotEmpty); }
      var ok := DeleteObject(dirKey);
      if !ok { return Err(IoError); }
      ForgetKey(dirKey);
      r := Ok(());
    }

    /** Re-points an open writer at a new destination key. */
    method Repoint(fh: nat, dst: string)
      requires Valid() && fh in handles && handles[fh].WriteOpen?
      modifies this`mount, Writers()
      ensures Valid()
      ensures mount == old(mount).(writers := old(mount).writers[fh := old(mount).writers[fh].(dst := dst)])
    {
      var w := handles[fh].writer;
      assert w in Writers();
      w.SetDst(dst);
      mount := mount.(writers := mount.writers[fh := mount.writers[fh].(dst := dst)]);
      assert WriterStates() == mount.writers;
    }

    /** The table and writer updates of a file rename, after the object was copied and deleted. */
    method RenameInTable(oldKey: string, newKey: string) returns (ghost found: Option<nat>)
      requires Valid()
      modifies this`mount, inodes, Writers()
      ensures Valid()
      ensures FoundWriter(old(mount), MovedInode(old(mount).table, oldKey, newKey), found)
      ensures mount == old(mount).(
        table := MovedTable(old(mount).table, oldKey, newKey),
        writers := if found.None? then old(mount).writers
                   else old(mount).writers[found.value := old(mount).writers[found.value].(dst := newKey)])
    {
      ForgetKey(newKey);
      var src := RekeyKey(oldKey, newKey);
      if src.None? { return None; }
      var f := FindWriteHandle(src.value, None);
      if f.Some? { Repoint(f.value, newKey); }
      found := f;
    }

    /** File rename: copy, delete, then the table. A failed step leaves the table and handles alone. */
    method RenameFileObject(oldKey: string, newKey: string)
      returns (r: Result<(), VfsError>, ghost found: Option<nat>)
      requires Valid()
      modifies this, s3, inodes, Writers()
      ensures Valid()
      ensures r.Ok? ==> oldKey in old(mount).store
      ensures r.Ok? ==> FoundWriter(old(mount), MovedInode(old(mount).table, oldKey, newKey), found)
      ensures r.Ok? ==> mount == RenameFile(old(mount), oldKey, newKey, found)
      ensures Blamed(old(s3.failures), r.Err? && r.error == IoError)
      ensures r.Err? ==> r.error == IoError
      ensures r.Err? ==> mount == old(mount).(store := mount.store)
      ensures r.Err? ==> RenameStoppedAt(mount.store, old(mount).store, oldKey, newKey)
    {
      found := None;
      var copied := CopyObject(oldKey, newKey);
      if !copied { return Err(IoError), None; }
      var deleted := DeleteObject(oldKey);
      if !deleted { return Err(IoError), None; }
      found := RenameInTable(oldKey, newKey);
      r := Ok(());
    }

    /** Copies every listed key, then deletes every original; stops at the first failure. */
    method MoveObjects(keys: seq<string>, oldPrefix: string, newPrefix: string) returns (ok: bool)
      modifies s3
      ensures s3.failures == old(s3.failures) + (if ok then 0 else 1)
      ensures ok ==> s3.objects == Deleted(old(s3.objects), keys, |keys|, oldPrefix, newPrefix)
      ensures Intermediate(s3.objects, old(s3.objects), keys, oldPrefix, newPrefix)
    {
      ghost var store := s3.objects;
      var i: nat := 0;
      while i < |keys|
        invariant i <= |keys| && s3.objects == Copied(store, keys, i, oldPrefix, newPrefix)
        invariant s3.failures == old(s3.failures)
      {
        ok := s3.Copy(keys[i], NewKey(keys[i], oldPrefix, newPrefix));
        if !ok {
          assert s3.objects == Copied(store, keys, i, oldPrefix, newPrefix)
              || s3.objects == Copied(store, keys, i + 1, oldPrefix, newPrefix);
          return;
        }
        i := i + 1;
      }
      i := 0;
      while i < |keys|
        invariant i <= |keys| && s3.objects == Deleted(store, keys, i, oldPrefix, newPrefix)
        invariant s3.failures == old(s3.failures)
      {
        ok := s3.Delete(keys[i]);
        if !ok {
          assert s3.objects == Deleted(store, keys, i, oldPrefix, newPrefix)
              || s3.objects == Deleted(store, keys, i + 1, oldPrefix, newPrefix);
          return;
        }
        i := i + 1;
      }
      ok := true;
    }

    /** Directory rename: list, move the objects, then rekey the whole subtree of inodes. */
    method RenameDirObjects(oldPrefix: string, newPrefix: string)
      returns (r: Result<(), VfsError>, ghost keys: seq<string>, ghost order: seq<nat>)
      requires Valid()
      modifies this`mount, s3, inodes
      ensures Valid()
      ensures keys == [] || ListingOf(keys, old(mount).store, oldPrefix)
      ensures r.Ok? ==> keys != [] && Enumerates(order, old(mount).table, oldPrefix)
      ensures r.Ok? ==> mount == RenameDir(old(mount), keys, order, oldPrefix, newPrefix)
      ensures r.Ok? ==> ListingMoved(mount.store, old(mount).store, keys, oldPrefix, newPrefix)
      ensures Blamed(old(s3.failures), r.Err? && r.error == IoError)
      ensures r.Err? && r.error != IoError ==>
        r.error == NoSuchFile && forall k :: k in old(mount).store ==> !KeyMatches(oldPrefix, k)
      ensures r.Err? ==> mount == old(mount).(store := mount.store)
      ensures r.Err? ==> Intermediate(mount.store, old(mount).store, keys, oldPrefix, newPrefix)
    {
      keys, order := [], [];
      assert mount.store == Copied(mount.store, keys, 0, oldPrefix, newPrefix);
      var listed := s3.List(oldPrefix);
      if listed.None? { return Err(IoError), [], []; }
      if listed.value == [] { return Err(NoSuchFile), [], []; }
      keys := listed.value;
      r, order := MoveSubtree(listed.value, oldPrefix, newPrefix);
      if r.Ok? { DirectoryMoved(old(mount), keys, order, oldPrefix, newPrefix); }
    }

    /** Moves the listed objects, then rekeys the whole subtree of inodes. */
    method MoveSubtree(keys: seq<string>, oldPrefix: string, newPrefix: string)
      returns (r: Result<(), VfsError>, ghost order: seq<nat>)
      requires Valid()
      modifies this`mount, s3, inodes
      ensures Valid()
      ensures r.Ok? ==> Enumerates(order, old(mount).table, oldPrefix)
      ensures r.Ok? ==> mount == RenameDir(old(mount), keys, order, oldPrefix, newPrefix)
      ensures Blamed(old(s3.failures), r.Err?) && (r.Err? ==> r.error == IoError)
      ensures r.Err? ==> mount == old(mount).(store := mount.store)
      ensures r.Err? ==> Intermediate(mount.store, old(mount).store, keys, oldPrefix, newPrefix)
    {
      var ok := MoveObjects(keys, oldPrefix, newPrefix);
      mount := mount.(store := s3.objects);
      if !ok { return Err(IoError), []; }
      var ids := RekeyDir(oldPrefix, newPrefix);
      return Ok(()), ids;
    }

    /** Renames a file or a directory: a stored object under the old name makes it a file rename. */
    method Rename(parent: nat, name: string, newParent: nat, newName: string)
      returns (r: Result<(), VfsError>, ghost what: Renamed)
      requires Valid()
      modifies this, s3, inodes, Writers()
      ensures Valid()
      ensures parent !in old(mount).table.nodes || newParent !in old(mount).table.nodes ==> r == Err(NoSuchFile)
      ensures r.Ok? ==> Renames(old(mount), mount,
        old(mount).table.nodes[parent].key + name, old(mount).table.nodes[newParent].key + newName, what)
      ensures r.Ok? && what.DirRenamed? ==> ListingMoved(mount.store, old(mount).store, what.keys,
        old(mount).table.nodes[parent].key + name + "/", old(mount).table.nodes[newParent].key + newName + "/")
      ensures Blamed(old(s3.failures), r.Err? && r.error == IoError)
      ensures r.Err? ==> r.error == IoError || r.error == NoSuchFile
      ensures r == Err(NoSuchFile) && parent in old(mount).table.nodes && newParent in old(mount).table.nodes ==>
        NameFree(old(mount).store, old(mount).table.nodes[parent].key + name)
      ensures r.Err? ==> mount == old(mount).(store := mount.store)
      ensures r.Err? && parent in old(mount).table.nodes && newParent in old(mount).table.nodes ==>
        RenameStopped(mount.store, old(mount).store,
          old(mount).table.nodes[parent].key + name, old(mount).table.nodes[newParent].key + newName, what)
    {
      what := NothingRenamed;
      var pnode, npnode := inodes.Get(parent), inodes.Get(newParent);
      if pnode.None? || npnode.None? { return Err(NoSuchFile), what; }
      var oldFile, newFile := pnode.value.key + name, npnode.value.key + newName;
      var reply := s3.Stat(oldFile);
      match reply
      case Found =>
        ghost var found;
        r, found := RenameFileObject(oldFile, newFile);
        what := FileRenamed(found);
      case NotFound =>
        ghost var keys, order;
        r, keys, order := RenameDirObjects(oldFile + "/", newFile + "/");
        what := DirRenamed(keys, order);
      case StatFailed => r := Err(IoError);
    }

    /** Reads through a handle; without one, a direct ranged read of the stored object. */
    method ReadHandle(ino: nat, fh: nat, offset: nat, len: nat, cached: Option<nat>)
      returns (r: Result<Bytes, VfsError>)
      requires Valid() && (fh in handles && handles[fh].ReadOpen? ==> handles[fh].reader.Valid())
      modifies if fh in handles && handles[fh].ReadOpen? then {handles[fh].reader} else {}
      modifies s3`failures
      ensures s3.failures >= old(s3.failures)
      ensures Valid() && mount == old(mount)
      ensures fh in handles && handles[fh].ReadOpen? ==> handles[fh].reader.Valid()
      ensures fh in handles && handles[fh].ReadOpen? && r.Ok? ==>
        r.value == Slice(Visible(handles[fh].reader.content, handles[fh].reader.size), offset, len)
      ensures fh in mount.writers && mount.writers[fh].size == |mount.writers[fh].file| ==>
        r == Ok(Slice(mount.writers[fh].file, offset, len))
      ensures fh in mount.writers ==> r.Ok?
      ensures fh !in handles && r.Ok? ==>
        ino in mount.table.nodes && DirectRead(mount, ino, offset, len, cached, r.value)
      ensures fh !in handles && r == Err(IoError) ==> s3.failures > old(s3.failures)
      ensures fh !in handles && r.Err? && r.error != IoError ==> Unreadable(mount, ino, offset, cached)
    {
      if fh in handles {
        match handles[fh]
        case ReadOpen(_, reader) =>
          var got, _, _ := reader.Read(offset, len);
          r := if got.Ok? then Ok(got.value) else Err(IoError);
        case WriteOpen(_, writer) =>
          var data := writer.Read(offset, len);
          r := Ok(data);
      } else {
        r := ReadDirect(ino, offset, len, cached);
      }
    }

    method ReadDirect(ino: nat, offset: nat, len: nat, cached: Option<nat>) returns (r: Result<Bytes, VfsError>)
      requires Valid()
      modifies s3`failures
      ensures Valid()
      ensures r.Ok? ==> ino in mount.table.nodes && DirectRead(mount, ino, offset, len, cached, r.value)
      ensures Blamed(old(s3.failures), r.Err? && r.error == IoError)
      ensures r.Err? && r.error != IoError ==> Unreadable(mount, ino, offset, cached)
    {
      var node := inodes.Get(ino);
      if node.None? || node.value.kind == Dir { return Err(NoSuchFile); }
      var size := Getattr(ino, cached);
      if size.Err? { return Err(size.error); }
      if offset >= size.value { return Ok([]); }
      var n := Min(len, size.value - offset);
      var reply, body := s3.GetPart(node.value.key, offset, n);
      match reply
      case Found =>
        if n > 0 { ReadRangeVisible(s3.objects[node.value.key], size.value, offset, n); }
        r := Ok(body);
      case NotFound => r := Err(NoSuchFile);
      case StatFailed => r := Err(IoError);
    }
  }
}
