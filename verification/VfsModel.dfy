/**
 * The mount as a value, one function per successful call, and the invariant that ties open
 * write handles, the sizes reported for them and the stored objects together.
 */
module VfsModel {
  import opened Prelude
  import opened Inode
  import opened ObjectStore
  import opened Writer
  import opened DirRename
  import opened Url

  /** A handle opened for writing: its inode and its write-back cache. */
  datatype WriteHandle = WriteHandle(ino: nat, file: Bytes, size: nat, dirty: bool, dst: string)

  datatype Mount = Mount(
    table: Table,
    writers: map<nat, WriteHandle>,
    dirtySizes: map<nat, nat>,
    store: Objects,
    nextFh: nat)

  /** The handle's inode is still interned: it was neither unlinked nor replaced. */
  predicate Attached(m: Mount, fh: nat)
    requires fh in m.writers
  {
    m.writers[fh].ino in m.table.nodes
  }

  /** What an attached write handle keeps true. */
  predicate Coherent(m: Mount, fh: nat)
    requires fh in m.writers && Attached(m, fh)
  {
    var w := m.writers[fh];
    && m.table.nodes[w.ino].kind == File
    && w.dst == m.table.nodes[w.ino].key
    && w.ino in m.dirtySizes && m.dirtySizes[w.ino] == w.size == |w.file|
    && (!w.dirty ==> w.dst in m.store && m.store[w.dst] == w.file)
  }

  ghost predicate Inv(m: Mount) {
    && Bijection(m.table)
    && (forall f, g :: f in m.writers && g in m.writers && f != g ==> m.writers[f].ino != m.writers[g].ino)
    && (forall fh :: fh in m.writers ==> fh <= m.nextFh && m.writers[fh].ino < m.table.next)
    && (forall fh :: fh in m.writers && Attached(m, fh) ==> Coherent(m, fh))
  }

  ghost predicate NoWriter(m: Mount, ino: nat) {
    forall fh :: fh in m.writers ==> m.writers[fh].ino != ino
  }

  /** A new mount: the root inode only, no handles. */
  function NewMount(rootKey: string, store: Objects): Mount {
    Mount(NewTable(rootKey), map[], map[], store, 0)
  }

  lemma NewMountKeeps(rootKey: string, store: Objects)
    ensures Inv(NewMount(rootKey, store))
  {
    NewTableBijection(rootKey);
  }

  // ----- calls -----

  /** `getattr` on a file: the in-progress size wins over the cache and the stored object. */
  function Getattr(m: Mount, ino: nat, cached: Option<nat>): Option<nat> {
    if ino !in m.table.nodes then None
    else if m.table.nodes[ino].kind == Dir then Some(0)
    else if ino in m.dirtySizes then Some(m.dirtySizes[ino])
    else if cached.Some? then cached
    else
      var key := m.table.nodes[ino].key;
      if key in m.store then Some(|m.store[key]|) else None
  }

  /** A write handle on a cache file just opened. */
  function FreshHandle(ino: nat, file: Bytes, dirty: bool, dst: string): WriteHandle {
    WriteHandle(ino, file, |file|, dirty, dst)
  }

  /** Installs a fresh write handle and publishes its size. */
  function AddWriter(m: Mount, ino: nat, file: Bytes, dirty: bool, dst: string): Mount {
    var fh := m.nextFh + 1;
    m.(writers := m.writers[fh := FreshHandle(ino, file, dirty, dst)],
       dirtySizes := m.dirtySizes[ino := |file|],
       nextFh := fh)
  }

  /** A handle number was used up: by opening for reading, or by a call that failed later. */
  function Bumped(m: Mount): Mount {
    m.(nextFh := m.nextFh + 1)
  }

  /** `now` is what a file rename that failed at some step may leave of the bucket. */
  predicate RenameStoppedAt(now: Objects, store: Objects, oldKey: string, newKey: string) {
    || now == store
    || (oldKey in store && now == store[newKey := store[oldKey]])
    || (oldKey in store && now == Moved(store, oldKey, newKey))
  }

  /** Opening for writing downloads the object, or starts empty and dirty. */
  function OpenWrite(m: Mount, ino: nat, trunc: bool): Mount
    requires ino in m.table.nodes
  {
    var key := m.table.nodes[ino].key;
    if trunc || key !in m.store then AddWriter(m, ino, [], true, key)
    else AddWriter(m, ino, m.store[key], false, key)
  }

  function Create(m: Mount, parent: nat, key: string): Mount {
    var t := Inode.Intern(m.table, key, File, parent);
    if key in t.byKey then AddWriter(m.(table := t), t.byKey[key], [], true, key) else m
  }

  function SetWriter(m: Mount, fh: nat, w: WriteHandle): Mount {
    m.(writers := m.writers[fh := w], dirtySizes := m.dirtySizes[w.ino := w.size])
  }

  function WriteHandleAt(m: Mount, fh: nat, offset: nat, data: Bytes): Mount
    requires fh in m.writers
  {
    var w := m.writers[fh];
    SetWriter(m, fh, w.(file := WriteAt(w.file, offset, data),
                        size := SizeAfterWrite(w.size, offset, data), dirty := true))
  }

  function TruncateHandle(m: Mount, fh: nat, newSize: nat): Mount
    requires fh in m.writers
  {
    var w := m.writers[fh];
    SetWriter(m, fh, w.(file := SetLen(w.file, newSize), size := newSize, dirty := true))
  }

  /** Truncating without a handle: load or start empty, resize, store again. */
  function TruncateObject(m: Mount, ino: nat, newSize: nat): Mount
    requires ino in m.table.nodes
  {
    var key := m.table.nodes[ino].key;
    var was := if key in m.store then m.store[key] else [];
    m.(store := m.store[key := SetLen(was, newSize)], nextFh := m.nextFh + 1)
  }

  function Flush(m: Mount, fh: nat): Mount
    requires fh in m.writers
  {
    var w := m.writers[fh];
    if w.dirty then m.(store := m.store[w.dst := w.file], writers := m.writers[fh := w.(dirty := false)]) else m
  }

  /** Drops a handle; its size stays published unless it was uploaded. */
  function Close(m: Mount, fh: nat, uploaded: bool): Mount
    requires fh in m.writers
  {
    m.(writers := m.writers - {fh},
       dirtySizes := if uploaded then m.dirtySizes - {m.writers[fh].ino} else m.dirtySizes)
  }

  function Release(m: Mount, fh: nat): Mount
    requires fh in m.writers
  {
    Close(Flush(m, fh), fh, true)
  }

  function Unlink(m: Mount, key: string): Mount {
    if key in m.table.byKey
    then m.(store := m.store - {key}, dirtySizes := m.dirtySizes - {m.table.byKey[key]},
            table := Forget(m.table, m.table.byKey[key]))
    else m.(store := m.store - {key})
  }

  /** The bucket after a rename: copy over the destination, then delete the source. */
  function Moved(store: Objects, oldKey: string, newKey: string): Objects
    requires oldKey in store
  {
    store[newKey := store[oldKey]] - {oldKey}
  }

  function MovedTable(t: Table, oldKey: string, newKey: string): Table {
    var t1 := if newKey in t.byKey then Forget(t, t.byKey[newKey]) else t;
    if oldKey in t1.byKey then Rekey(t1, t1.byKey[oldKey], newKey) else t1
  }

  /** The inode a file rename rekeys, if any: looked up after the destination was dropped. */
  function MovedInode(t: Table, oldKey: string, newKey: string): Option<nat> {
    var t1 := if newKey in t.byKey then Forget(t, t.byKey[newKey]) else t;
    if oldKey in t1.byKey then Some(t1.byKey[oldKey]) else None
  }

  /** A file rename; `found` is the write handle of the moved inode that gets the new destination. */
  function RenameFile(m: Mount, oldKey: string, newKey: string, found: Option<nat>): Mount
    requires oldKey in m.store && (found.Some? ==> found.value in m.writers)
  {
    m.(store := Moved(m.store, oldKey, newKey),
       table := MovedTable(m.table, oldKey, newKey),
       writers := if found.None? then m.writers
                  else m.writers[found.value := m.writers[found.value].(dst := newKey)])
  }

  /** `found` is what a search for a write handle of `ino` may return. */
  ghost predicate FoundWriter(m: Mount, ino: Option<nat>, found: Option<nat>) {
    if found.Some? then ino.Some? && found.value in m.writers && m.writers[found.value].ino == ino.value
    else ino.Some? ==> NoWriter(m, ino.value)
  }

  // ----- each call keeps the invariant -----

  lemma AddWriterKeeps(m: Mount, ino: nat, file: Bytes, dirty: bool)
    requires Inv(m) && ino in m.table.nodes && m.table.nodes[ino].kind == File && NoWriter(m, ino)
    requires var key := m.table.nodes[ino].key; !dirty ==> key in m.store && m.store[key] == file
    ensures Inv(AddWriter(m, ino, file, dirty, m.table.nodes[ino].key))
  {
    var n := AddWriter(m, ino, file, dirty, m.table.nodes[ino].key);
    forall fh | fh in n.writers && Attached(n, fh)
      ensures Coherent(n, fh)
    {
      if fh != m.nextFh + 1 { assert Attached(m, fh) && Coherent(m, fh); }
    }
  }

  lemma OpenWriteKeeps(m: Mount, ino: nat, trunc: bool)
    requires Inv(m) && ino in m.table.nodes && m.table.nodes[ino].kind == File && NoWriter(m, ino)
    ensures Inv(OpenWrite(m, ino, trunc))
  {
    var key := m.table.nodes[ino].key;
    if trunc || key !in m.store { AddWriterKeeps(m, ino, [], true); }
    else { AddWriterKeeps(m, ino, m.store[key], false); }
  }

  /** Interning only adds a number no handle knows. */
  lemma InternStepKeeps(m: Mount, key: string, kind: NodeKind, parent: nat)
    requires Inv(m)
    ensures Inv(m.(table := Inode.Intern(m.table, key, kind, parent)))
  {
    InternKeeps(m.table, key, kind, parent);
    var n := m.(table := Inode.Intern(m.table, key, kind, parent));
    forall fh | fh in n.writers && Attached(n, fh)
      ensures Coherent(n, fh)
    {
      assert Attached(m, fh) && Coherent(m, fh);
    }
  }

  lemma CreateKeeps(m: Mount, parent: nat, key: string)
    requires Inv(m)
    requires key in m.table.byKey ==>
      m.table.nodes[m.table.byKey[key]].kind == File && NoWriter(m, m.table.byKey[key])
    ensures Inv(Create(m, parent, key))
  {
    InternStepKeeps(m, key, File, parent);
    InternKeeps(m.table, key, File, parent);
    var n := m.(table := Inode.Intern(m.table, key, File, parent));
    AddWriterKeeps(n, n.table.byKey[key], [], true);
  }

  lemma SetWriterKeeps(m: Mount, fh: nat, w: WriteHandle)
    requires Inv(m) && fh in m.writers && w.ino == m.writers[fh].ino && w.dst == m.writers[fh].dst
    requires w.dirty && (Attached(m, fh) ==> w.size == |w.file|)
    ensures Inv(SetWriter(m, fh, w))
  {
    var n := SetWriter(m, fh, w);
    forall g | g in n.writers && Attached(n, g)
      ensures Coherent(n, g)
    {
      assert Attached(m, g) && Coherent(m, g);
    }
  }

  /**
   * A write keeps the invariant exactly when it is not an empty write past the end of an
   * attached handle's file: that one records a size the cache file does not have.
   */
  lemma WriteKeepsIff(m: Mount, fh: nat, offset: nat, data: Bytes)
    requires Inv(m) && fh in m.writers
    ensures Inv(WriteHandleAt(m, fh, offset, data))
      <==> !Attached(m, fh) || data != [] || offset <= m.writers[fh].size
  {
    var w := m.writers[fh];
    if Attached(m, fh) {
      assert Coherent(m, fh);
      WriteKeepsSizeIff(w.file, offset, data);
    }
    if !Attached(m, fh) || data != [] || offset <= w.size {
      SetWriterKeeps(m, fh, w.(file := WriteAt(w.file, offset, data),
                               size := SizeAfterWrite(w.size, offset, data), dirty := true));
    } else {
      var n := WriteHandleAt(m, fh, offset, data);
      assert Attached(n, fh) && !Coherent(n, fh);
    }
  }

  lemma TruncateHandleKeeps(m: Mount, fh: nat, newSize: nat)
    requires Inv(m) && fh in m.writers
    ensures Inv(TruncateHandle(m, fh, newSize))
  {
    var w := m.writers[fh];
    SetWriterKeeps(m, fh, w.(file := SetLen(w.file, newSize), size := newSize, dirty := true));
  }

  lemma TruncateObjectKeeps(m: Mount, ino: nat, newSize: nat)
    requires Inv(m) && ino in m.table.nodes && NoWriter(m, ino)
    ensures Inv(TruncateObject(m, ino, newSize))
  {
    var n := TruncateObject(m, ino, newSize);
    forall g | g in n.writers && Attached(n, g)
      ensures Coherent(n, g)
    {
      assert Attached(m, g) && Coherent(m, g);
    }
  }

  /**
   * Truncating a stored file resizes it, keeping what fits and zero-filling the rest, and no other object
   * changes. The new size is what is reported exactly when no other in-progress size is left over, as a
   * failed close leaves it.
   */
  lemma TruncateObjectContents(m: Mount, ino: nat, newSize: nat)
    requires ino in m.table.nodes && m.table.nodes[ino].kind == File
    ensures var n, key := TruncateObject(m, ino, newSize), m.table.nodes[ino].key;
      && (Getattr(n, ino, None) == Some(newSize) <==> (ino in m.dirtySizes ==> m.dirtySizes[ino] == newSize))
      && |n.store[key]| == newSize
      && (forall i :: 0 <= i < newSize ==>
            n.store[key][i] == if key in m.store && i < |m.store[key]| then m.store[key][i] else 0)
      && n.store - {key} == m.store - {key}
  {
    var key := m.table.nodes[ino].key;
    SetLenContents(if key in m.store then m.store[key] else [], newSize);
  }

  /** Uploading this handle would overwrite the object under another, clean, attached handle. */
  ghost predicate Clobbers(m: Mount, fh: nat)
    requires fh in m.writers
  {
    m.writers[fh].dirty &&
    exists g :: g in m.writers && g != fh && Attached(m, g) && !m.writers[g].dirty &&
      m.writers[g].dst == m.writers[fh].dst && m.writers[g].file != m.writers[fh].file
  }

  /** Only a detached handle (unlinked or replaced while open) can clobber. */
  lemma AttachedNeverClobbers(m: Mount, fh: nat)
    requires Inv(m) && fh in m.writers && Attached(m, fh)
    ensures !Clobbers(m, fh)
  {
    assert Coherent(m, fh);
    forall g | g in m.writers && g != fh && Attached(m, g)
      ensures m.writers[g].dst != m.writers[fh].dst
    {
      assert Coherent(m, g);
    }
  }

  /** The objects of the other clean, attached handles are in this bucket. */
  ghost predicate OthersKept(m: Mount, fh: nat, now: Objects) {
    forall g :: g in m.writers && g != fh && Attached(m, g) && !m.writers[g].dirty ==>
      Holds(now, m.writers[g].dst, m.writers[g].file)
  }

  predicate Holds(store: Objects, key: string, bytes: Bytes) {
    key in store && store[key] == bytes
  }

  lemma CleanHolds(m: Mount, fh: nat)
    requires Inv(m) && fh in m.writers && Attached(m, fh) && !m.writers[fh].dirty
    ensures Holds(m.store, m.writers[fh].dst, m.writers[fh].file)
  {
    assert Coherent(m, fh);
  }

  lemma UploadKeepsOthersIff(m: Mount, fh: nat)
    requires Inv(m) && fh in m.writers
    ensures OthersKept(m, fh, m.store)
    ensures OthersKept(m, fh, Flush(m, fh).store) <==> !Clobbers(m, fh)
  {
    forall g | g in m.writers && Attached(m, g) && !m.writers[g].dirty
      ensures Holds(m.store, m.writers[g].dst, m.writers[g].file)
    {
      CleanHolds(m, g);
    }
  }

  /** A flush keeps the invariant exactly when it clobbers no other open handle's object. */
  lemma FlushKeepsIff(m: Mount, fh: nat)
    requires Inv(m) && fh in m.writers
    ensures Inv(Flush(m, fh)) <==> !Clobbers(m, fh)
  {
    UploadKeepsOthersIff(m, fh);
    var n := Flush(m, fh);
    if Inv(n) {
      forall g | g in m.writers && g != fh && Attached(m, g) && !m.writers[g].dirty
        ensures Holds(n.store, m.writers[g].dst, m.writers[g].file)
      {
        CleanHolds(n, g);
      }
    } else if OthersKept(m, fh, n.store) {
      forall g | g in n.writers && Attached(n, g)
        ensures Coherent(n, g)
      {
        assert Attached(m, g) && Coherent(m, g);
      }
    }
  }

  /** Dropping a handle keeps the invariant exactly when the other handles' objects are kept. */
  lemma ClosedKeepsIff(m: Mount, fh: nat, now: Objects, uploaded: bool)
    requires Inv(m) && fh in m.writers
    ensures Inv(Close(m.(store := now), fh, uploaded)) <==> OthersKept(m, fh, now)
  {
    var n := Close(m.(store := now), fh, uploaded);
    if Inv(n) {
      forall g | g in m.writers && g != fh && Attached(m, g) && !m.writers[g].dirty
        ensures Holds(now, m.writers[g].dst, m.writers[g].file)
      {
        CleanHolds(n, g);
      }
    } else if OthersKept(m, fh, now) {
      forall g | g in n.writers && Attached(n, g)
        ensures Coherent(n, g)
      {
        assert Attached(m, g) && Coherent(m, g);
      }
    }
  }

  /** Closing a handle keeps the invariant under the same condition. */
  lemma ReleaseKeepsIff(m: Mount, fh: nat)
    requires Inv(m) && fh in m.writers
    ensures Inv(Release(m, fh)) <==> !Clobbers(m, fh)
  {
    UploadKeepsOthersIff(m, fh);
    ClosedKeepsIff(m, fh, Flush(m, fh).store, true);
    assert Release(m, fh) == Close(m.(store := Flush(m, fh).store), fh, true);
  }

  /**
   * After a successful close the stored object is the cache file, under the inode's current key, and
   * opening the file again starts from those bytes.
   */
  lemma CloseIsDurable(m: Mount, fh: nat)
    requires Inv(m) && fh in m.writers && Attached(m, fh)
    ensures var n := Release(m, fh);
      var w := m.writers[fh];
      var key := n.table.nodes[w.ino].key;
      && key in n.store && n.store[key] == w.file
      && Getattr(n, w.ino, None) == Some(|w.file|) == Getattr(m, w.ino, None)
      && OpenWrite(n, w.ino, false).writers[n.nextFh + 1].file == w.file
  {
    assert Coherent(m, fh);
  }

  lemma UnlinkKeeps(m: Mount, key: string)
    requires Inv(m) && (key in m.table.byKey ==> m.table.byKey[key] != ROOT_INODE)
    ensures Inv(Unlink(m, key))
  {
    if key in m.table.byKey { ForgetKeeps(m.table, m.table.byKey[key]); }
    var n := Unlink(m, key);
    forall g | g in n.writers && Attached(n, g)
      ensures Coherent(n, g)
    {
      assert Attached(m, g) && Coherent(m, g);
    }
  }

  /** A file unlinked while open for writing stays gone after the close exactly when nothing was left to upload. */
  lemma UnlinkedStaysGoneIff(m: Mount, key: string, fh: nat)
    requires Inv(m) && fh in m.writers && Attached(m, fh) && m.table.nodes[m.writers[fh].ino].key == key
    ensures key !in Release(Unlink(m, key), fh).store <==> !m.writers[fh].dirty
  {
    assert Coherent(m, fh);
  }

  lemma MovedTableKeeps(t: Table, oldKey: string, newKey: string)
    requires Bijection(t) && (newKey in t.byKey ==> t.byKey[newKey] != ROOT_INODE)
    ensures var u := MovedTable(t, oldKey, newKey);
      && Bijection(u) && u.next == t.next
      && (forall i :: i in u.nodes <==> i in t.nodes && t.nodes[i].key != newKey)
      && (forall i :: i in u.nodes ==>
            u.nodes[i] == if t.nodes[i].key == oldKey then t.nodes[i].(key := newKey) else t.nodes[i])
      && (forall i :: i in t.nodes && t.nodes[i].key == oldKey && oldKey != newKey
            ==> MovedInode(t, oldKey, newKey) == Some(i))
  {
    var t1 := if newKey in t.byKey then Forget(t, t.byKey[newKey]) else t;
    if newKey in t.byKey { ForgetKeeps(t, t.byKey[newKey]); }
    if oldKey in t1.byKey { RekeyKeeps(t1, t1.byKey[oldKey], newKey); }
  }

  /** The call's own conditions for a file rename. */
  ghost predicate RenamePermitted(m: Mount, oldKey: string, newKey: string, found: Option<nat>) {
    && oldKey in m.store && (newKey in m.table.byKey ==> m.table.byKey[newKey] != ROOT_INODE)
    && FoundWriter(m, MovedInode(m.table, oldKey, newKey), found)
  }

  /** The handle of the moved file follows it. */
  lemma RenameKeepsMoved(m: Mount, oldKey: string, newKey: string, found: Option<nat>, g: nat)
    requires Inv(m) && RenamePermitted(m, oldKey, newKey, found) && oldKey != newKey
    requires g in m.writers && Attached(m, g) && m.table.nodes[m.writers[g].ino].key == oldKey
    ensures var n := RenameFile(m, oldKey, newKey, found); Attached(n, g) && Coherent(n, g)
  {
    assert Coherent(m, g);
    MovedTableKeeps(m.table, oldKey, newKey);
    assert MovedInode(m.table, oldKey, newKey) == Some(m.writers[g].ino);
    assert found == Some(g);
  }

  /** The handle of a file that is neither moved nor overwritten stays as it is. */
  lemma RenameKeepsOther(m: Mount, oldKey: string, newKey: string, found: Option<nat>, g: nat)
    requires Inv(m) && RenamePermitted(m, oldKey, newKey, found)
    requires g in m.writers && Attached(m, g) && m.table.nodes[m.writers[g].ino].key !in {oldKey, newKey}
    ensures var n := RenameFile(m, oldKey, newKey, found); Attached(n, g) && Coherent(n, g)
  {
    var w := m.writers[g];
    assert Coherent(m, g);
    MovedTableKeeps(m.table, oldKey, newKey);
    MovedInodeKey(m.table, oldKey, newKey);
    assert found != Some(g);
  }

  lemma RenameKeepsHandle(m: Mount, oldKey: string, newKey: string, found: Option<nat>, g: nat)
    requires Inv(m) && RenamePermitted(m, oldKey, newKey, found) && g in m.writers
    ensures var n := RenameFile(m, oldKey, newKey, found); Attached(n, g) ==> Coherent(n, g)
  {
    MovedTableKeeps(m.table, oldKey, newKey);
    if Attached(m, g) {
      var key := m.table.nodes[m.writers[g].ino].key;
      if key == newKey {
      } else if key == oldKey {
        RenameKeepsMoved(m, oldKey, newKey, found, g);
      } else {
        RenameKeepsOther(m, oldKey, newKey, found, g);
      }
    }
  }

  lemma MovedInodeKey(t: Table, oldKey: string, newKey: string)
    requires Bijection(t)
    ensures var i := MovedInode(t, oldKey, newKey);
      i.Some? ==> i.value in t.nodes && t.nodes[i.value].key == oldKey
  {
  }

  /** A file rename re-points the open writer, so every handle stays coherent. */
  lemma RenameFileKeeps(m: Mount, oldKey: string, newKey: string, found: Option<nat>)
    requires Inv(m) && RenamePermitted(m, oldKey, newKey, found)
    ensures Inv(RenameFile(m, oldKey, newKey, found))
  {
    MovedTableKeeps(m.table, oldKey, newKey);
    var n := RenameFile(m, oldKey, newKey, found);
    forall g | g in n.writers && Attached(n, g)
      ensures Coherent(n, g)
    {
      RenameKeepsHandle(m, oldKey, newKey, found, g);
    }
  }

  /** A renamed file's bytes are found under the new name exactly when the names differ. */
  lemma RenameMovesBytesIff(m: Mount, oldKey: string, newKey: string, found: Option<nat>)
    requires oldKey in m.store && (found.Some? ==> found.value in m.writers)
    ensures var n := RenameFile(m, oldKey, newKey, found);
      && ((newKey in n.store && n.store[newKey] == m.store[oldKey]) <==> oldKey != newKey)
      && oldKey !in n.store
      && (forall k :: k != oldKey && k != newKey ==> (k in n.store <==> k in m.store))
      && (forall k :: k in m.store && k != oldKey && k != newKey ==> n.store[k] == m.store[k])
  {
  }

  /** Wherever a rename between two names stops, the file's bytes are under the old or the new one. */
  lemma StoppedRenameKeepsBytes(now: Objects, store: Objects, oldKey: string, newKey: string)
    requires oldKey in store && RenameStoppedAt(now, store, oldKey, newKey)
    ensures oldKey != newKey || now == store ==>
      (oldKey in now && now[oldKey] == store[oldKey]) || (newKey in now && now[newKey] == store[oldKey])
    ensures forall k :: k in store && k != oldKey && k != newKey ==> k in now && now[k] == store[k]
  {
  }

  // ----- directories -----

  /** `mkdir` stores an empty marker object and interns the directory key. */
  function Mkdir(m: Mount, dirKey: string, parent: nat): Mount {
    m.(store := m.store[dirKey := []], table := Inode.Intern(m.table, dirKey, Dir, parent), nextFh := m.nextFh + 1)
  }

  function Rmdir(m: Mount, dirKey: string): Mount {
    m.(store := m.store - {dirKey},
       table := if dirKey in m.table.byKey then Forget(m.table, m.table.byKey[dirKey]) else m.table)
  }

  /** A directory rename: the listed subtree moves in the bucket, then in the inode table. */
  ghost function RenameDir(m: Mount, keys: seq<string>, order: seq<nat>, oldPrefix: string, newPrefix: string): Mount
    requires Elems(order) <= Affected(m.table, oldPrefix)
  {
    m.(store := Deleted(m.store, keys, |keys|, oldPrefix, newPrefix),
       table := RekeyAll(m.table, order, oldPrefix, newPrefix))
  }

  /** No attached write handle's key satisfies `touched`. */
  ghost predicate Untouched(m: Mount, touched: string -> bool) {
    forall fh :: fh in m.writers && Attached(m, fh) ==> !touched(m.writers[fh].dst)
  }

  lemma MkdirKeeps(m: Mount, dirKey: string, parent: nat)
    requires Inv(m) && Untouched(m, key => key == dirKey)
    ensures Inv(Mkdir(m, dirKey, parent))
  {
    var n := Mkdir(m, dirKey, parent);
    InternKeeps(m.table, dirKey, Dir, parent);
    forall g | g in n.writers && Attached(n, g)
      ensures Coherent(n, g)
    {
      assert Attached(m, g) && Coherent(m, g);
    }
  }

  lemma RmdirKeeps(m: Mount, dirKey: string)
    requires Inv(m) && Untouched(m, key => key == dirKey)
    requires dirKey in m.table.byKey ==> m.table.byKey[dirKey] != ROOT_INODE
    ensures Inv(Rmdir(m, dirKey))
  {
    var n := Rmdir(m, dirKey);
    if dirKey in m.table.byKey { ForgetKeeps(m.table, m.table.byKey[dirKey]); }
    forall g | g in n.writers && Attached(n, g)
      ensures Coherent(n, g)
    {
      assert Attached(m, g) && Coherent(m, g);
    }
  }

  lemma RenameDirKeeps(m: Mount, keys: seq<string>, order: seq<nat>, oldPrefix: string, newPrefix: string)
    requires Inv(m) && ListsSubtree(keys, m.store, oldPrefix)
    requires Enumerates(order, m.table, oldPrefix) && NoClash(m.table, oldPrefix, newPrefix)
    requires Untouched(m, key => Under(key, oldPrefix) || Under(key, newPrefix))
    ensures Inv(RenameDir(m, keys, order, oldPrefix, newPrefix))
  {
    var n := RenameDir(m, keys, order, oldPrefix, newPrefix);
    RekeyAllKeeps(m.table, order, oldPrefix, newPrefix);
    RekeyAllNodes(m.table, order, oldPrefix, newPrefix);
    DeletedContents(m.store, keys, |keys|, oldPrefix, newPrefix);
    assert keys[..|keys|] == keys;
    forall g | g in n.writers && Attached(n, g)
      ensures Coherent(n, g)
    {
      var w := m.writers[g];
      assert Attached(m, g) && Coherent(m, g);
      assert w.ino !in Elems(order);
      forall i | 0 <= i < |keys|
        ensures NewKey(keys[i], oldPrefix, newPrefix) != w.dst
      {
        assert Under(NewKey(keys[i], oldPrefix, newPrefix), newPrefix);
      }
      CopiedElsewhere(m.store, keys, |keys|, oldPrefix, newPrefix, w.dst);
    }
  }

  /**
   * Renaming a directory with a wildcard character in its path moves no file, but does move the inodes of the
   * files in it: such an inode then names a key under which nothing was stored by the rename.
   */
  lemma GlobRenameStrandsFile(
      m: Mount, keys: seq<string>, order: seq<nat>, oldPrefix: string, newPrefix: string, ino: nat)
    requires HasGlob(oldPrefix) && IsMarker(oldPrefix) && IsMarker(newPrefix)
    requires ListingOf(keys, m.store, oldPrefix) && Enumerates(order, m.table, oldPrefix)
    requires ino in m.table.nodes && Under(m.table.nodes[ino].key, oldPrefix) && !IsMarker(m.table.nodes[ino].key)
    ensures var key, n := m.table.nodes[ino].key, RenameDir(m, keys, order, oldPrefix, newPrefix);
      var newKey := Reprefix(key, oldPrefix, newPrefix);
      && ino in n.table.nodes && n.table.nodes[ino].key == newKey
      && (key in n.store <==> key in m.store) && (key in n.store ==> n.store[key] == m.store[key])
      && (newKey in n.store <==> newKey in m.store)
      && (newKey !in m.store && ino !in m.dirtySizes && m.table.nodes[ino].kind == File ==>
            Getattr(n, ino, None) == None)
  {
    var key, n := m.table.nodes[ino].key, RenameDir(m, keys, order, oldPrefix, newPrefix);
    var newKey := Reprefix(key, oldPrefix, newPrefix);
    RekeyAllNodes(m.table, order, oldPrefix, newPrefix);
    assert ino in Elems(order);
    assert Intermediate(n.store, m.store, keys, oldPrefix, newPrefix);
    assert !IsMarker(newKey);
    GlobRenameMovesNoFile(n.store, m.store, keys, oldPrefix, newPrefix, key);
    GlobRenameMovesNoFile(n.store, m.store, keys, oldPrefix, newPrefix, newKey);
  }

  // ----- calls that fail -----

  datatype Failure =
    | FailedOpen
    | FailedFlush(fh: nat)
    | FailedTruncate(ino: nat, newSize: nat)
    | FailedUnlink(key: string)
    | FailedMkdir(dirKey: string)
    | FailedRenameFile(oldKey: string, newKey: string)
    | FailedRenameDir(keys: seq<string>, oldPrefix: string, newPrefix: string)

  /** `n` is what the failed call may leave of `m`: a request reported as failed may have taken effect. */
  ghost predicate Leaves(m: Mount, f: Failure, n: Mount) {
    match f
    case FailedOpen => n == m || n == Bumped(m)
    case FailedFlush(fh) => fh in m.writers && (n == m || n == m.(store := Flush(m, fh).store))
    case FailedTruncate(ino, newSize) =>
      n == m || n == Bumped(m) || (ino in m.table.nodes && n == TruncateObject(m, ino, newSize))
    case FailedUnlink(key) => n == m || n == m.(store := m.store - {key})
    case FailedMkdir(dirKey) => n == m || n == Bumped(m) || n == Bumped(m).(store := m.store[dirKey := []])
    case FailedRenameFile(oldKey, newKey) =>
      n == m.(store := n.store) && RenameStoppedAt(n.store, m.store, oldKey, newKey)
    case FailedRenameDir(keys, oldPrefix, newPrefix) =>
      n == m.(store := n.store) && Intermediate(n.store, m.store, keys, oldPrefix, newPrefix)
  }

  /** The stored objects of clean, attached write handles are as before. */
  ghost predicate CleanKept(m: Mount, now: Objects) {
    forall fh :: fh in m.writers && Attached(m, fh) && !m.writers[fh].dirty ==>
      Holds(now, m.writers[fh].dst, m.writers[fh].file)
  }

  /** A failed call changes at most the bucket and the handle counter. */
  lemma FailureChangesBucketOnly(m: Mount, f: Failure, n: Mount)
    requires Leaves(m, f, n)
    ensures n == m.(store := n.store, nextFh := n.nextFh) && m.nextFh <= n.nextFh
  {
  }

  /** A failed call keeps the invariant exactly when it spared the objects of the clean open handles. */
  lemma FailureKeepsIff(m: Mount, f: Failure, n: Mount)
    requires Inv(m) && Leaves(m, f, n)
    ensures Inv(n) <==> CleanKept(m, n.store)
  {
    FailureChangesBucketOnly(m, f, n);
    if CleanKept(m, n.store) {
      forall g | g in n.writers && Attached(n, g)
        ensures Coherent(n, g)
      {
        assert Attached(m, g) && Coherent(m, g);
      }
    } else {
      var g :| g in m.writers && Attached(m, g) && !m.writers[g].dirty &&
        !Holds(n.store, m.writers[g].dst, m.writers[g].file);
      assert Attached(n, g) && !Coherent(n, g);
    }
  }

  /** Even if the failed call took effect, or part of it, these bytes are still stored under this key. */
  ghost predicate Spares(m: Mount, f: Failure, key: string, bytes: Bytes) {
    match f
    case FailedOpen => true
    case FailedFlush(fh) =>
      fh in m.writers && m.writers[fh].dirty && m.writers[fh].dst == key ==> m.writers[fh].file == bytes
    case FailedTruncate(ino, newSize) =>
      ino in m.table.nodes && m.table.nodes[ino].key == key ==> |bytes| == newSize
    case FailedUnlink(k) => k != key
    case FailedMkdir(dirKey) => dirKey == key ==> bytes == []
    case FailedRenameFile(oldKey, newKey) =>
      oldKey in m.store ==> key != oldKey && (newKey == key ==> m.store[oldKey] == bytes)
    case FailedRenameDir(keys, oldPrefix, newPrefix) =>
      && key !in keys
      && forall i :: 0 <= i < |keys| && NewKey(keys[i], oldPrefix, newPrefix) == key ==>
           CopiesBytes(m.store, keys, i, oldPrefix, newPrefix, bytes)
  }

  /** When its turn comes, the `i`-th key listed for a directory rename holds these bytes, or nothing. */
  predicate CopiesBytes(store: Objects, keys: seq<string>, i: nat, oldPrefix: string, newPrefix: string, bytes: Bytes)
    requires i < |keys|
  {
    var s := Copied(store, keys, i, oldPrefix, newPrefix);
    keys[i] in s ==> s[keys[i]] == bytes
  }

  /** What a caller can check before a call that may fail: it spares the objects of clean open handles. */
  ghost predicate FailSafe(m: Mount, f: Failure) {
    forall fh :: fh in m.writers && Attached(m, fh) && !m.writers[fh].dirty ==>
      Spares(m, f, m.writers[fh].dst, m.writers[fh].file)
  }

  /** Copies keep the bytes under a key exactly when each copy onto it carries the same bytes. */
  lemma {:induction false} CopiesSpare(
      store: Objects, keys: seq<string>, n: nat, oldPrefix: string, newPrefix: string, key: string, bytes: Bytes)
    requires n <= |keys| && Holds(store, key, bytes)
    requires forall i :: 0 <= i < n && NewKey(keys[i], oldPrefix, newPrefix) == key ==>
      CopiesBytes(store, keys, i, oldPrefix, newPrefix, bytes)
    ensures Holds(Copied(store, keys, n, oldPrefix, newPrefix), key, bytes)
  {
    if n > 0 {
      CopiesSpare(store, keys, n - 1, oldPrefix, newPrefix, key, bytes);
    }
  }

  lemma DirRenameSpares(m: Mount, f: Failure, key: string, bytes: Bytes, n: Mount)
    requires f.FailedRenameDir? && Holds(m.store, key, bytes) && Spares(m, f, key, bytes) && Leaves(m, f, n)
    ensures Holds(n.store, key, bytes)
  {
    var keys, oldPrefix, newPrefix := f.keys, f.oldPrefix, f.newPrefix;
    if k: nat :| k <= |keys| && n.store == Copied(m.store, keys, k, oldPrefix, newPrefix) {
      CopiesSpare(m.store, keys, k, oldPrefix, newPrefix, key, bytes);
    } else {
      var k: nat :| k <= |keys| && n.store == Deleted(m.store, keys, k, oldPrefix, newPrefix);
      CopiesSpare(m.store, keys, |keys|, oldPrefix, newPrefix, key, bytes);
      DeletedContents(m.store, keys, k, oldPrefix, newPrefix);
    }
  }

  lemma DirRenameHits(m: Mount, f: Failure, key: string, bytes: Bytes) returns (n: Mount)
    requires f.FailedRenameDir? && !Spares(m, f, key, bytes)
    ensures Leaves(m, f, n) && !Holds(n.store, key, bytes)
  {
    var keys, oldPrefix, newPrefix := f.keys, f.oldPrefix, f.newPrefix;
    if key in keys {
      DeletedContents(m.store, keys, |keys|, oldPrefix, newPrefix);
      assert keys[..|keys|] == keys;
      n := m.(store := Deleted(m.store, keys, |keys|, oldPrefix, newPrefix));
    } else {
      var i :| 0 <= i < |keys| && NewKey(keys[i], oldPrefix, newPrefix) == key &&
        !CopiesBytes(m.store, keys, i, oldPrefix, newPrefix, bytes);
      n := m.(store := Copied(m.store, keys, i + 1, oldPrefix, newPrefix));
    }
  }

  /** When no target is itself listed, the order of the listing does not matter. */
  lemma DirRenameSparesIff(m: Mount, keys: seq<string>, oldPrefix: string, newPrefix: string, key: string, bytes: Bytes)
    requires TargetsOutside(keys, oldPrefix, newPrefix)
    ensures Spares(m, FailedRenameDir(keys, oldPrefix, newPrefix), key, bytes) <==>
      && key !in keys
      && forall k :: k in keys && k in m.store && NewKey(k, oldPrefix, newPrefix) == key ==> m.store[k] == bytes
  {
    forall i | 0 <= i < |keys|
      ensures CopiesBytes(m.store, keys, i, oldPrefix, newPrefix, bytes)
        <==> (keys[i] in m.store ==> m.store[keys[i]] == bytes)
    {
      assert keys[i] in keys && forall j :: 0 <= j < i ==> keys[j] in keys;
      CopiedElsewhere(m.store, keys, i, oldPrefix, newPrefix, keys[i]);
    }
    forall k | k in keys
      ensures exists i :: 0 <= i < |keys| && keys[i] == k
    {
    }
  }

  /** A state the failed call may leave in which the bytes are gone, when the call does not spare them. */
  lemma FailureHits(m: Mount, f: Failure, key: string, bytes: Bytes) returns (n: Mount)
    requires Holds(m.store, key, bytes) && !Spares(m, f, key, bytes)
    ensures Leaves(m, f, n) && !Holds(n.store, key, bytes)
  {
    match f
    case FailedFlush(fh) => n := m.(store := Flush(m, fh).store);
    case FailedTruncate(ino, newSize) =>
      n := TruncateObject(m, ino, newSize);
      SetLenContents(bytes, newSize);
    case FailedUnlink(k) => n := m.(store := m.store - {k});
    case FailedMkdir(dirKey) => n := Bumped(m).(store := m.store[dirKey := []]);
    case FailedRenameFile(oldKey, newKey) =>
      n := m.(store := if key == oldKey then Moved(m.store, oldKey, newKey) else m.store[newKey := m.store[oldKey]]);
    case FailedRenameDir(_, _, _) => n := DirRenameHits(m, f, key, bytes);
  }

  lemma FailureSpares(m: Mount, f: Failure, key: string, bytes: Bytes, n: Mount)
    requires Holds(m.store, key, bytes) && Spares(m, f, key, bytes) && Leaves(m, f, n)
    ensures Holds(n.store, key, bytes)
  {
    match f
    case FailedTruncate(ino, newSize) =>
      SetLenContents(bytes, newSize);
      if |bytes| == newSize { assert SetLen(bytes, newSize) == bytes; }
    case FailedRenameDir(_, _, _) => DirRenameSpares(m, f, key, bytes, n);
    case _ =>
  }

  /**
   * A call that fails keeps the invariant, whatever part of it took effect, exactly when it spares the
   * objects of the clean open handles.
   */
  lemma FailSafeIff(m: Mount, f: Failure)
    requires Inv(m)
    ensures FailSafe(m, f) <==> forall n :: Leaves(m, f, n) ==> Inv(n)
  {
    if FailSafe(m, f) {
      forall n | Leaves(m, f, n)
        ensures Inv(n)
      {
        SafeFailureKeeps(m, f, n);
      }
    } else {
      var fh :| fh in m.writers && Attached(m, fh) && !m.writers[fh].dirty &&
        !Spares(m, f, m.writers[fh].dst, m.writers[fh].file);
      CleanHolds(m, fh);
      var n := FailureHits(m, f, m.writers[fh].dst, m.writers[fh].file);
      FailureKeepsIff(m, f, n);
      assert !Holds(n.store, m.writers[fh].dst, m.writers[fh].file);
    }
  }

  lemma SafeFailureKeeps(m: Mount, f: Failure, n: Mount)
    requires Inv(m) && FailSafe(m, f) && Leaves(m, f, n)
    ensures Inv(n)
  {
    forall fh | fh in m.writers && Attached(m, fh) && !m.writers[fh].dirty
      ensures Holds(n.store, m.writers[fh].dst, m.writers[fh].file)
    {
      CleanHolds(m, fh);
      FailureSpares(m, f, m.writers[fh].dst, m.writers[fh].file, n);
    }
    FailureKeepsIff(m, f, n);
  }

  /**
   * An unlink that took effect and was reported as failed leaves the inode of an open file: whether the file
   * is stored again after the close then depends on whether anything was left to upload.
   */
  lemma FailedUnlinkLosesFileIff(m: Mount, fh: nat)
    requires Inv(m) && fh in m.writers && Attached(m, fh)
    ensures var key := m.writers[fh].dst;
      var n := m.(store := m.store - {key});
      && Leaves(m, FailedUnlink(key), n) && Attached(n, fh) && key in n.table.byKey
      && (key !in Release(n, fh).store <==> !m.writers[fh].dirty)
      && (Inv(n) <==> m.writers[fh].dirty)
  {
    var key := m.writers[fh].dst;
    var n := m.(store := m.store - {key});
    assert Coherent(m, fh);
    if m.writers[fh].dirty {
      forall g | g in m.writers && Attached(m, g) && g != fh
        ensures m.writers[g].dst != key
      {
        assert Coherent(m, g);
      }
      SafeFailureKeeps(m, FailedUnlink(key), n);
    } else {
      assert Attached(n, fh) && !Coherent(n, fh);
    }
  }

  /** A close whose upload failed: the handle is gone, its size stays published. */
  function ReleaseFailed(m: Mount, fh: nat, stored: bool): Mount
    requires fh in m.writers
  {
    Close(if stored then m.(store := Flush(m, fh).store) else m, fh, false)
  }

  /** It keeps the invariant exactly when the bytes were not stored, or overwrote no other clean handle's object. */
  lemma ReleaseFailedKeepsIff(m: Mount, fh: nat, stored: bool)
    requires Inv(m) && fh in m.writers
    ensures Inv(ReleaseFailed(m, fh, stored)) <==> !stored || !Clobbers(m, fh)
  {
    UploadKeepsOthersIff(m, fh);
    ClosedKeepsIff(m, fh, if stored then Flush(m, fh).store else m.store, false);
  }

  // ----- whole runs -----

  datatype Call =
    | OpenCall(ino: nat, trunc: bool)
    | OpenReadCall
    | CreateCall(parent: nat, key: string)
    | LookupCall(key: string, kind: NodeKind, parent: nat)
    | WriteCall(fh: nat, offset: nat, data: Bytes)
    | TruncateHandleCall(fh: nat, newSize: nat)
    | TruncateObjectCall(ino: nat, newSize: nat)
    | FlushCall(fh: nat)
    | ReleaseCall(fh: nat)
    | UnlinkCall(key: string)
    | RenameFileCall(oldKey: string, newKey: string, found: Option<nat>)
    | MkdirCall(dirKey: string, parent: nat)
    | RmdirCall(dirKey: string)
    | RenameDirCall(keys: seq<string>, order: seq<nat>, oldPrefix: string, newPrefix: string)
    | FailedCall(failure: Failure, left: Mount)
    | ReleaseFailedCall(fh: nat, stored: bool)

  /** The call, successful or failed as named, stays within the promised use: see the lemma of each call. */
  ghost predicate Permitted(m: Mount, c: Call) {
    match c
    case OpenCall(ino, _) => ino in m.table.nodes && m.table.nodes[ino].kind == File && NoWriter(m, ino)
    case OpenReadCall => true
    case CreateCall(_, key) => key in m.table.byKey ==>
      m.table.byKey[key] in m.table.nodes &&
      m.table.nodes[m.table.byKey[key]].kind == File && NoWriter(m, m.table.byKey[key])
    case LookupCall(_, _, _) => true
    case WriteCall(fh, offset, data) =>
      fh in m.writers && (!Attached(m, fh) || data != [] || offset <= m.writers[fh].size)
    case TruncateHandleCall(fh, _) => fh in m.writers
    case TruncateObjectCall(ino, _) => ino in m.table.nodes && NoWriter(m, ino)
    case FlushCall(fh) => fh in m.writers && !Clobbers(m, fh)
    case ReleaseCall(fh) => fh in m.writers && !Clobbers(m, fh)
    case UnlinkCall(key) => key in m.table.byKey ==> m.table.byKey[key] != ROOT_INODE
    case RenameFileCall(oldKey, newKey, found) => RenamePermitted(m, oldKey, newKey, found)
    case MkdirCall(dirKey, _) => Untouched(m, key => key == dirKey)
    case RmdirCall(dirKey) => Untouched(m, key => key == dirKey) &&
      (dirKey in m.table.byKey ==> m.table.byKey[dirKey] != ROOT_INODE)
    case RenameDirCall(keys, order, oldPrefix, newPrefix) =>
      && ListsSubtree(keys, m.store, oldPrefix) && NoClash(m.table, oldPrefix, newPrefix)
      && Enumerates(order, m.table, oldPrefix)
      && Untouched(m, key => Under(key, oldPrefix) || Under(key, newPrefix))
    case FailedCall(failure, left) => Leaves(m, failure, left) && FailSafe(m, failure)
    case ReleaseFailedCall(fh, stored) => fh in m.writers && (stored ==> !Clobbers(m, fh))
  }

  ghost function Step(m: Mount, c: Call): Mount
    requires Permitted(m, c)
  {
    match c
    case OpenCall(ino, trunc) => OpenWrite(m, ino, trunc)
    case OpenReadCall => Bumped(m)
    case CreateCall(parent, key) => Create(m, parent, key)
    case LookupCall(key, kind, parent) => m.(table := Inode.Intern(m.table, key, kind, parent))
    case WriteCall(fh, offset, data) => WriteHandleAt(m, fh, offset, data)
    case TruncateHandleCall(fh, newSize) => TruncateHandle(m, fh, newSize)
    case TruncateObjectCall(ino, newSize) => TruncateObject(m, ino, newSize)
    case FlushCall(fh) => Flush(m, fh)
    case ReleaseCall(fh) => Release(m, fh)
    case UnlinkCall(key) => Unlink(m, key)
    case RenameFileCall(oldKey, newKey, found) => RenameFile(m, oldKey, newKey, found)
    case MkdirCall(dirKey, parent) => Mkdir(m, dirKey, parent)
    case RmdirCall(dirKey) => Rmdir(m, dirKey)
    case RenameDirCall(keys, order, oldPrefix, newPrefix) => RenameDir(m, keys, order, oldPrefix, newPrefix)
    case FailedCall(_, left) => left
    case ReleaseFailedCall(fh, stored) => ReleaseFailed(m, fh, stored)
  }

  lemma BumpKeeps(m: Mount)
    requires Inv(m)
    ensures Inv(Bumped(m))
  {
    SafeFailureKeeps(m, FailedOpen, Bumped(m));
  }

  lemma StepKeeps(m: Mount, c: Call)
    requires Inv(m) && Permitted(m, c)
    ensures Inv(Step(m, c))
  {
    match c
    case OpenCall(ino, trunc) => OpenWriteKeeps(m, ino, trunc);
    case OpenReadCall => BumpKeeps(m);
    case CreateCall(parent, key) => CreateKeeps(m, parent, key);
    case LookupCall(key, kind, parent) => InternStepKeeps(m, key, kind, parent);
    case WriteCall(fh, offset, data) => WriteKeepsIff(m, fh, offset, data);
    case TruncateHandleCall(fh, newSize) => TruncateHandleKeeps(m, fh, newSize);
    case TruncateObjectCall(ino, newSize) => TruncateObjectKeeps(m, ino, newSize);
    case FlushCall(fh) => FlushKeepsIff(m, fh);
    case ReleaseCall(fh) => ReleaseKeepsIff(m, fh);
    case UnlinkCall(key) => UnlinkKeeps(m, key);
    case RenameFileCall(oldKey, newKey, found) => RenameFileKeeps(m, oldKey, newKey, found);
    case MkdirCall(dirKey, parent) => MkdirKeeps(m, dirKey, parent);
    case RmdirCall(dirKey) => RmdirKeeps(m, dirKey);
    case RenameDirCall(keys, order, oldPrefix, newPrefix) => RenameDirKeeps(m, keys, order, oldPrefix, newPrefix);
    case FailedCall(failure, left) => SafeFailureKeeps(m, failure, left);
    case ReleaseFailedCall(fh, stored) => ReleaseFailedKeepsIff(m, fh, stored);
  }

  ghost predicate AllPermitted(m: Mount, calls: seq<Call>)
    decreases |calls|
  {
    calls == [] || (Permitted(m, calls[0]) && AllPermitted(Step(m, calls[0]), calls[1..]))
  }

  ghost function RunCalls(m: Mount, calls: seq<Call>): Mount
    requires AllPermitted(m, calls)
    decreases |calls|
  {
    if calls == [] then m else RunCalls(Step(m, calls[0]), calls[1..])
  }

  /**
   * Over every run of calls, successful and failed, each attached write handle keeps: its destination is its
   * inode's current key, the reported size is the writer's size is the cache file's length, and
   * a clean writer's stored object is its cache file.
   */
  lemma {:induction false} RunKeepsHandles(m: Mount, calls: seq<Call>)
    requires Inv(m) && AllPermitted(m, calls)
    ensures var n := RunCalls(m, calls);
      && Inv(n)
      && forall fh, cached :: fh in n.writers && Attached(n, fh) ==>
           var w := n.writers[fh];
           && w.dst == n.table.nodes[w.ino].key
           && Getattr(n, w.ino, cached) == Some(w.size) == Some(|w.file|)
           && (!w.dirty ==> w.dst in n.store && n.store[w.dst] == w.file)
    decreases |calls|
  {
    if calls == [] {
      forall fh | fh in m.writers && Attached(m, fh)
        ensures Coherent(m, fh)
      {
      }
    } else {
      StepKeeps(m, calls[0]);
      RunKeepsHandles(Step(m, calls[0]), calls[1..]);
    }
  }

  // ----- a run into a state where a flush clobbers -----

  lemma RunCons(m: Mount, c: Call, rest: seq<Call>)
    requires Permitted(m, c) && AllPermitted(Step(m, c), rest)
    ensures AllPermitted(m, [c] + rest) && RunCalls(m, [c] + rest) == RunCalls(Step(m, c), rest)
  {
    assert ([c] + rest)[1..] == rest;
  }

  /** Create, unlink and create again under one name, then write through the second handle and flush it. */
  function ReplacedFile(key: string): seq<Call> {
    [CreateCall(ROOT_INODE, key)] + ([UnlinkCall(key)] + ([CreateCall(ROOT_INODE, key)]
      + ([WriteCall(2, 0, [1])] + ([FlushCall(2)] + []))))
  }

  /** The mount after the first three calls, and how they run. */
  lemma ReplacedTwice(key: string, rest: seq<Call>) returns (m3: Mount)
    requires key != ""
    ensures m3.table.byKey.Keys == {"", key} && m3.table.nodes.Keys == {ROOT_INODE, 3} && m3.nextFh == 2
    ensures m3.writers == map[1 := WriteHandle(2, [], 0, true, key), 2 := WriteHandle(3, [], 0, true, key)]
    ensures var calls := [CreateCall(ROOT_INODE, key)] + ([UnlinkCall(key)] + ([CreateCall(ROOT_INODE, key)] + rest));
      AllPermitted(m3, rest) ==>
        AllPermitted(NewMount("", map[]), calls) && RunCalls(NewMount("", map[]), calls) == RunCalls(m3, rest)
  {
    var m0 := NewMount("", map[]);
    var m1 := Create(m0, ROOT_INODE, key);
    var m2 := Unlink(m1, key);
    m3 := Create(m2, ROOT_INODE, key);
    assert m1.writers == map[1 := WriteHandle(2, [], 0, true, key)] && m1.table.byKey[key] == 2;
    if AllPermitted(m3, rest) {
      RunCons(m2, CreateCall(ROOT_INODE, key), rest);
      RunCons(m1, UnlinkCall(key), [CreateCall(ROOT_INODE, key)] + rest);
      RunCons(m0, CreateCall(ROOT_INODE, key), [UnlinkCall(key)] + ([CreateCall(ROOT_INODE, key)] + rest));
    }
  }

  /** From a new mount, such a run leaves a first handle whose close would overwrite the second one's object. */
  lemma ClobberIsReachable(key: string)
    requires key != ""
    ensures AllPermitted(NewMount("", map[]), ReplacedFile(key))
    ensures var m := RunCalls(NewMount("", map[]), ReplacedFile(key)); 1 in m.writers && Clobbers(m, 1)
  {
    var m3 := ReplacedTwice(key, [WriteCall(2, 0, [1])] + ([FlushCall(2)] + []));
    var m4 := WriteHandleAt(m3, 2, 0, [1]);
    var m5 := Flush(m4, 2);
    WriteAtContents([], 0, [1]);
    assert m5.writers[2].file == [1] && !m5.writers[2].dirty && m5.writers[1] == m3.writers[1];
    assert Attached(m5, 2) && m5.writers[2].file != m5.writers[1].file;
    assert Clobbers(m5, 1);
    RunCons(m4, FlushCall(2), []);
    RunCons(m3, WriteCall(2, 0, [1]), [FlushCall(2)] + []);
  }

  // ----- a run into a state where a stale size is reported -----

  /** Create a file, close it with an upload that fails, then truncate it. */
  function StaleSize(key: string, newSize: nat): seq<Call> {
    [CreateCall(ROOT_INODE, key)] + ([ReleaseFailedCall(1, false)] + ([TruncateObjectCall(2, newSize)] + []))
  }

  /** From a new mount, such a run leaves an object of the new size whose file is reported as empty. */
  lemma StaleSizeIsReachable(key: string, newSize: nat)
    requires key != ""
    ensures AllPermitted(NewMount("", map[]), StaleSize(key, newSize))
    ensures var m := RunCalls(NewMount("", map[]), StaleSize(key, newSize));
      && 2 in m.table.nodes && m.table.nodes[2].key == key && key in m.store && |m.store[key]| == newSize
      && forall cached :: Getattr(m, 2, cached) == Some(0)
  {
    var m0 := NewMount("", map[]);
    var m1 := Create(m0, ROOT_INODE, key);
    var m2 := ReleaseFailed(m1, 1, false);
    assert m1.writers == map[1 := WriteHandle(2, [], 0, true, key)] && m1.table.byKey[key] == 2;
    assert m2.writers == map[] && m2.dirtySizes == map[2 := 0];
    TruncateObjectContents(m2, 2, newSize);
    RunCons(m2, TruncateObjectCall(2, newSize), []);
    RunCons(m1, ReleaseFailedCall(1, false), [TruncateObjectCall(2, newSize)] + []);
    RunCons(m0, CreateCall(ROOT_INODE, key), [ReleaseFailedCall(1, false)] + ([TruncateObjectCall(2, newSize)] + []));
  }
}
