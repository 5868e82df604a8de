/**
 * What a user of the mount sees: which bytes, sizes, names and handles each call leaves, said of the
 * mount after the call and of runs of two calls.
 */
module MountLaws {
  import opened Prelude
  import opened RangedGet
  import opened Inode
  import opened ObjectStore
  import opened Writer
  import opened DirRename
  import opened Url
  import opened VfsModel

  /** Nothing but the handle `fh` and the size reported for `ino` differs. */
  ghost predicate OnlyHandleChanged(m: Mount, n: Mount, fh: nat, ino: nat) {
    && n.table == m.table && n.store == m.store && OtherHandlesKept(m, n, fh)
    && forall i, c :: i != ino ==> Getattr(n, i, c) == Getattr(m, i, c)
  }

  /** Every object but the one under `key` is as before. */
  ghost predicate OtherObjectsKept(now: Objects, store: Objects, key: string) {
    forall k :: k != key ==> (k in now <==> k in store) && (k in now ==> now[k] == store[k])
  }

  ghost predicate OtherHandlesKept(m: Mount, n: Mount, fh: nat) {
    forall g :: g != fh ==> (g in n.writers <==> g in m.writers) && (g in n.writers ==> n.writers[g] == m.writers[g])
  }

  /**
   * The size reported for an inode: none without an inode, zero for a directory; for a file the in-progress size
   * before a remembered one, and that before the stored object's.
   */
  lemma ReportedSize(m: Mount, ino: nat, cached: Option<nat>)
    requires ino in m.table.nodes
    ensures m.table.nodes[ino].kind == Dir ==> Getattr(m, ino, cached) == Some(0)
    ensures m.table.nodes[ino].kind == File ==>
      var key := m.table.nodes[ino].key;
      && (ino in m.dirtySizes ==> Getattr(m, ino, cached) == Some(m.dirtySizes[ino]))
      && (ino !in m.dirtySizes && cached.Some? ==> Getattr(m, ino, cached) == cached)
      && (ino !in m.dirtySizes ==> (Getattr(m, ino, None).None? <==> key !in m.store))
      && (ino !in m.dirtySizes && key in m.store ==> Getattr(m, ino, None) == Some(|m.store[key]|))
    ensures forall i, c :: i !in m.table.nodes ==> Getattr(m, i, c) == None
  {
  }

  // ----- opening and creating -----

  /**
   * The handle just opened starts from the stored object, clean; when the file is truncated or not stored it
   * starts empty and is uploaded on close in any case.
   */
  lemma OpenedForWriting(m: Mount, ino: nat, trunc: bool)
    requires ino in m.table.nodes && m.table.nodes[ino].kind == File
    ensures var n, fh, key := OpenWrite(m, ino, trunc), m.nextFh + 1, m.table.nodes[ino].key;
      && OnlyHandleChanged(m, n, fh, ino) && n.nextFh == fh && fh in n.writers
      && n.writers[fh].ino == ino && n.writers[fh].dst == key
      && (forall c :: Getattr(n, ino, c) == Some(|n.writers[fh].file|))
      && (!trunc && key in m.store ==> n.writers[fh].file == m.store[key] && Release(n, fh).store == m.store)
      && (trunc || key !in m.store ==> n.writers[fh].file == [] && Release(n, fh).store == m.store[key := []])
  {
  }

  /** A created file is a new inode under its directory, or the inode of that name; it is stored, empty, on close. */
  lemma CreatedFile(m: Mount, parent: nat, key: string)
    requires Bijection(m.table)
    requires key in m.table.byKey ==> m.table.nodes[m.table.byKey[key]].kind == File
    ensures var n, fh := VfsModel.Create(m, parent, key), m.nextFh + 1;
      && n.store == m.store && n.nextFh == fh && fh in n.writers && OtherHandlesKept(m, n, fh)
      && key in n.table.byKey && n.writers[fh].ino == n.table.byKey[key]
      && n.writers[fh].dst == key && n.writers[fh].file == []
      && (forall c :: Getattr(n, n.table.byKey[key], c) == Some(0))
      && (forall i, c :: i in m.table.nodes && m.table.nodes[i].key != key ==> Getattr(n, i, c) == Getattr(m, i, c))
      && (key in m.table.byKey ==> n.table == m.table)
      && (key !in m.table.byKey ==>
            n.table.byKey[key] !in m.table.nodes && n.table.nodes[n.table.byKey[key]] == Node(key, File, parent))
      && Release(n, fh).store == m.store[key := []]
  {
    InternKeeps(m.table, key, File, parent);
  }

  // ----- writing and resizing -----

  /** The file after a write: the data at its offset, zeros in a gap before it, everything else as it was. */
  ghost predicate WroteAt(file: Bytes, was: Bytes, offset: nat, data: Bytes) {
    && |file| == Max(|was|, offset + |data|)
    && file[offset..offset + |data|] == data
    && (forall i :: 0 <= i < |was| && !(offset <= i < offset + |data|) ==> file[i] == was[i])
    && (forall i :: |was| <= i < offset ==> file[i] == 0)
  }

  /** The file after a resize: what fits as it was, zeros beyond. */
  ghost predicate ResizedTo(file: Bytes, was: Bytes, size: nat) {
    && |file| == size
    && (forall i :: 0 <= i < size && i < |was| ==> file[i] == was[i])
    && (forall i :: |was| <= i < size ==> file[i] == 0)
  }

  lemma WrittenHandle(m: Mount, fh: nat, offset: nat, data: Bytes)
    requires fh in m.writers
    ensures var n, w := WriteHandleAt(m, fh, offset, data), m.writers[fh];
      && OnlyHandleChanged(m, n, fh, w.ino) && n.nextFh == m.nextFh && fh in n.writers
      && n.writers[fh].ino == w.ino && n.writers[fh].dst == w.dst && n.writers[fh].dirty
      && (if data == [] then n.writers[fh].file == w.file else WroteAt(n.writers[fh].file, w.file, offset, data))
      && n.writers[fh].size == Max(w.size, offset + |data|)
      && (w.ino in m.table.nodes && m.table.nodes[w.ino].kind == File ==>
            forall c :: Getattr(n, w.ino, c) == Some(Max(w.size, offset + |data|)))
  {
    if data != [] { WriteAtContents(m.writers[fh].file, offset, data); }
  }

  lemma ResizedHandle(m: Mount, fh: nat, newSize: nat)
    requires fh in m.writers
    ensures var n, w := TruncateHandle(m, fh, newSize), m.writers[fh];
      && OnlyHandleChanged(m, n, fh, w.ino) && n.nextFh == m.nextFh && fh in n.writers
      && n.writers[fh].ino == w.ino && n.writers[fh].dst == w.dst && n.writers[fh].dirty
      && ResizedTo(n.writers[fh].file, w.file, newSize) && n.writers[fh].size == newSize
      && (w.ino in m.table.nodes && m.table.nodes[w.ino].kind == File ==>
            forall c :: Getattr(n, w.ino, c) == Some(newSize))
  {
    SetLenContents(m.writers[fh].file, newSize);
  }

  // ----- uploading -----

  /** A flush stores a changed cache file under its destination; without changes it does nothing at all. */
  lemma FlushedHandle(m: Mount, fh: nat)
    requires fh in m.writers
    ensures var n, w := Flush(m, fh), m.writers[fh];
      && OtherHandlesKept(m, n, fh) && OtherObjectsKept(n.store, m.store, w.dst)
      && n.table == m.table && n.dirtySizes == m.dirtySizes && n.nextFh == m.nextFh
      && n.writers == m.writers[fh := w.(dirty := false)]
      && (w.dirty ==> w.dst in n.store && n.store[w.dst] == w.file)
      && (!w.dirty ==> n == m)
  {
  }

  /** Closing stores what a flush stores; the handle is gone, and so is the in-progress size. */
  lemma ClosedHandle(m: Mount, fh: nat)
    requires fh in m.writers
    ensures var n, w := Release(m, fh), m.writers[fh];
      && fh !in n.writers && OtherHandlesKept(m, n, fh)
      && n.store == Flush(m, fh).store && n.table == m.table && n.nextFh == m.nextFh
      && w.ino !in n.dirtySizes
      && forall i, c :: i != w.ino && i in m.table.nodes && m.table.nodes[i].key != w.dst ==>
           Getattr(n, i, c) == Getattr(m, i, c)
  {
  }

  /** After a failed close the handle is gone and every size is reported as before, unless an object changed. */
  lemma ClosedAfterFailure(m: Mount, fh: nat, stored: bool)
    requires fh in m.writers
    ensures var n, w := ReleaseFailed(m, fh, stored), m.writers[fh];
      && fh !in n.writers && OtherHandlesKept(m, n, fh)
      && n.store == (if stored then Flush(m, fh).store else m.store) && n.table == m.table && n.nextFh == m.nextFh
      && (w.ino in m.dirtySizes ==> forall c :: Getattr(n, w.ino, c) == Getattr(m, w.ino, c))
  {
  }

  /** What was written is stored by the close: write, then release. */
  lemma WriteThenClose(m: Mount, fh: nat, offset: nat, data: Bytes)
    requires fh in m.writers && data != []
    ensures var n, w := Release(WriteHandleAt(m, fh, offset, data), fh), m.writers[fh];
      && w.dst in n.store && WroteAt(n.store[w.dst], w.file, offset, data)
      && Slice(n.store[w.dst], offset, |data|) == data
      && OtherObjectsKept(n.store, m.store, w.dst)
  {
    WrittenHandle(m, fh, offset, data);
  }

  lemma ResizeThenClose(m: Mount, fh: nat, newSize: nat)
    requires fh in m.writers
    ensures var n, w := Release(TruncateHandle(m, fh, newSize), fh), m.writers[fh];
      && w.dst in n.store && ResizedTo(n.store[w.dst], w.file, newSize)
      && OtherObjectsKept(n.store, m.store, w.dst)
  {
    ResizedHandle(m, fh, newSize);
  }

  // ----- names -----

  /** Unlinking removes the object and the inode, and no other. */
  lemma UnlinkedFile(m: Mount, key: string)
    requires Bijection(m.table)
    ensures var n := VfsModel.Unlink(m, key);
      && key !in n.store && OtherObjectsKept(n.store, m.store, key)
      && n.writers == m.writers && n.nextFh == m.nextFh && key !in n.table.byKey
      && (forall i :: i in n.table.nodes <==> i in m.table.nodes && m.table.nodes[i].key != key)
      && (forall i :: i in n.table.nodes ==> n.table.nodes[i] == m.table.nodes[i])
  {
  }

  /** With the inode its reported size is gone; every other size is reported as before. */
  lemma UnlinkedSizes(m: Mount, key: string, i: nat, c: Option<nat>)
    requires Bijection(m.table) && i in m.table.nodes
    ensures var n := VfsModel.Unlink(m, key);
      if m.table.nodes[i].key == key then i !in n.dirtySizes && Getattr(n, i, c) == None
      else Getattr(n, i, c) == Getattr(m, i, c)
  {
    UnlinkedFile(m, key);
  }

  /** A made directory has an empty marker object and a directory inode; a new one is linked to its parent. */
  lemma MadeDirectory(m: Mount, dirKey: string, parent: nat)
    requires Bijection(m.table)
    ensures var n := VfsModel.Mkdir(m, dirKey, parent);
      && dirKey in n.store && n.store[dirKey] == [] && OtherObjectsKept(n.store, m.store, dirKey)
      && n.writers == m.writers && n.dirtySizes == m.dirtySizes && dirKey in n.table.byKey
      && (dirKey in m.table.byKey ==> n.table == m.table)
      && (dirKey !in m.table.byKey ==> var ino := n.table.byKey[dirKey];
            ino !in m.table.nodes && n.table.nodes[ino] == Node(dirKey, Dir, parent)
            && forall c :: Getattr(n, ino, c) == Some(0))
      && (forall i, c :: i in m.table.nodes && m.table.nodes[i].key != dirKey ==>
            i in n.table.nodes && n.table.nodes[i] == m.table.nodes[i] && Getattr(n, i, c) == Getattr(m, i, c))
  {
    InternKeeps(m.table, dirKey, Dir, parent);
  }

  /** A removed directory has neither marker nor inode, and nothing else is gone. */
  lemma RemovedDirectory(m: Mount, dirKey: string)
    requires Bijection(m.table)
    ensures var n := VfsModel.Rmdir(m, dirKey);
      && dirKey !in n.store && OtherObjectsKept(n.store, m.store, dirKey)
      && n.writers == m.writers && n.dirtySizes == m.dirtySizes && dirKey !in n.table.byKey
      && (forall i :: i in n.table.nodes <==> i in m.table.nodes && m.table.nodes[i].key != dirKey)
      && (forall i, c :: i in n.table.nodes ==>
            n.table.nodes[i] == m.table.nodes[i] && Getattr(n, i, c) == Getattr(m, i, c))
  {
  }

  /** What a rename to another name leaves of the inode of the file: its number, its size and its new key. */
  lemma RenamedFile(m: Mount, oldKey: string, newKey: string, found: Option<nat>, ino: nat)
    requires Bijection(m.table) && oldKey != newKey && RenamePermitted(m, oldKey, newKey, found)
    requires ino in m.table.nodes && m.table.nodes[ino].key == oldKey
    ensures var n := RenameFile(m, oldKey, newKey, found);
      && ino in n.table.nodes && n.table.nodes[ino] == m.table.nodes[ino].(key := newKey)
      && newKey in n.table.byKey && n.table.byKey[newKey] == ino && oldKey !in n.table.byKey
      && Getattr(n, ino, None) == Getattr(m, ino, None)
      && (forall i :: i in m.table.nodes && m.table.nodes[i].key == newKey ==> i !in n.table.nodes)
      && n.dirtySizes == m.dirtySizes && n.nextFh == m.nextFh && n.writers.Keys == m.writers.Keys
  {
    MovedTableKeeps(m.table, oldKey, newKey);
  }

  /** An open writer follows the file: closing it after the rename stores its bytes under the new name only. */
  lemma RenameThenClose(m: Mount, oldKey: string, newKey: string, found: Option<nat>, fh: nat)
    requires Inv(m) && oldKey != newKey && RenamePermitted(m, oldKey, newKey, found)
    requires fh in m.writers && Attached(m, fh) && m.table.nodes[m.writers[fh].ino].key == oldKey
    ensures var n := RenameFile(m, oldKey, newKey, found);
      && fh in n.writers && n.writers[fh] == m.writers[fh].(dst := newKey)
      && var closed := Release(n, fh).store;
         oldKey !in closed && newKey in closed && closed[newKey] == m.writers[fh].file
  {
    assert Coherent(m, fh);
    MovedTableKeeps(m.table, oldKey, newKey);
    assert found == Some(fh);
  }

  /** What a directory rename does to the objects of a listing: all arrive under this condition only. */
  lemma RenamedListing(m: Mount, keys: seq<string>, order: seq<nat>, oldPrefix: string, newPrefix: string)
    requires ListingOf(keys, m.store, oldPrefix) && Enumerates(order, m.table, oldPrefix)
    ensures var n := RenameDir(m, keys, order, oldPrefix, newPrefix);
      && (forall k :: k in keys ==> k !in n.store)
      && n.writers == m.writers && n.dirtySizes == m.dirtySizes && n.nextFh == m.nextFh
      && (AllArrived(n.store, m.store, keys, oldPrefix, newPrefix) <==>
            TargetsOutside(keys, oldPrefix, newPrefix) && SharedTargetsAgree(m.store, keys, oldPrefix, newPrefix))
  {
    ListedKeysLeave(m.store, keys, oldPrefix, newPrefix);
    CompletedKeepsBytesIff(m.store, keys, oldPrefix, newPrefix);
  }

  ghost predicate Separate(oldPrefix: string, newPrefix: string) {
    !Under(oldPrefix, newPrefix) && !Under(newPrefix, oldPrefix)
  }

  /** Between separate names without wildcards the rename moved exactly the subtree. */
  lemma RenamedSubtree(m: Mount, keys: seq<string>, order: seq<nat>, oldPrefix: string, newPrefix: string)
    requires ListingOf(keys, m.store, oldPrefix) && Enumerates(order, m.table, oldPrefix)
    requires !HasGlob(oldPrefix) && Separate(oldPrefix, newPrefix)
    ensures SubtreeMoved(RenameDir(m, keys, order, oldPrefix, newPrefix).store, m.store, oldPrefix, newPrefix)
    ensures ListsSubtree(keys, m.store, oldPrefix)
  {
    forall k
      ensures KeyMatches(oldPrefix, k) <==> Under(k, oldPrefix)
    {
      PlainPathMatches(oldPrefix, k);
    }
    SeparatePrefixesMoveSubtree(m.store, keys, oldPrefix, newPrefix);
  }

  /**
   * What a directory rename leaves of the objects it listed: none under its old key, each one's bytes at its new
   * key exactly when the targets allow it, and between separate names without wildcards exactly the subtree moved.
   */
  ghost predicate ListingMoved(now: Objects, store: Objects, keys: seq<string>, oldPrefix: string, newPrefix: string) {
    && AllStored(keys, store) && (forall k :: k in keys ==> k !in now)
    && (AllArrived(now, store, keys, oldPrefix, newPrefix) <==>
          TargetsOutside(keys, oldPrefix, newPrefix) && SharedTargetsAgree(store, keys, oldPrefix, newPrefix))
    && (!HasGlob(oldPrefix) && Separate(oldPrefix, newPrefix) ==> SubtreeMoved(now, store, oldPrefix, newPrefix))
  }

  lemma DirectoryMoved(m: Mount, keys: seq<string>, order: seq<nat>, oldPrefix: string, newPrefix: string)
    requires ListingOf(keys, m.store, oldPrefix) && Enumerates(order, m.table, oldPrefix)
    ensures ListingMoved(RenameDir(m, keys, order, oldPrefix, newPrefix).store, m.store, keys, oldPrefix, newPrefix)
  {
    RenamedListing(m, keys, order, oldPrefix, newPrefix);
    if !HasGlob(oldPrefix) && Separate(oldPrefix, newPrefix) {
      RenamedSubtree(m, keys, order, oldPrefix, newPrefix);
    }
  }

  /** A key under the new prefix is a target exactly when the key it comes from is stored. */
  lemma TargetOf(store: Objects, key: string, oldPrefix: string, newPrefix: string)
    requires Under(key, oldPrefix)
    ensures IsTarget(Reprefix(key, oldPrefix, newPrefix), store, oldPrefix, newPrefix) <==> key in store
  {
    forall k | Under(k, oldPrefix) && Reprefix(k, oldPrefix, newPrefix) == Reprefix(key, oldPrefix, newPrefix)
      ensures k == key
    {
      ReprefixInjective(k, key, oldPrefix, newPrefix);
    }
  }

  /**
   * Every file below the renamed directory keeps its inode and its bytes under the new name, and the size
   * reported for it is the same before and after, unless the file was not stored but its new name was.
   */
  lemma RenamedDirKeepsFile(
      m: Mount, keys: seq<string>, order: seq<nat>, oldPrefix: string, newPrefix: string, ino: nat)
    requires ListingOf(keys, m.store, oldPrefix) && Enumerates(order, m.table, oldPrefix)
    requires !HasGlob(oldPrefix) && Separate(oldPrefix, newPrefix)
    requires ino in m.table.nodes && Under(m.table.nodes[ino].key, oldPrefix)
    ensures var n, key := RenameDir(m, keys, order, oldPrefix, newPrefix), m.table.nodes[ino].key;
      var newKey := Reprefix(key, oldPrefix, newPrefix);
      && ino in n.table.nodes && n.table.nodes[ino] == m.table.nodes[ino].(key := newKey)
      && key !in n.store
      && (key in m.store ==> newKey in n.store && n.store[newKey] == m.store[key])
      && (Getattr(n, ino, None) == Getattr(m, ino, None) <==>
            m.table.nodes[ino].kind == Dir || ino in m.dirtySizes || key in m.store || newKey !in m.store)
  {
    var n, key := RenameDir(m, keys, order, oldPrefix, newPrefix), m.table.nodes[ino].key;
    RenamedSubtree(m, keys, order, oldPrefix, newPrefix);
    RekeyAllNodes(m.table, order, oldPrefix, newPrefix);
    assert ino in Elems(order);
    TargetOf(m.store, key, oldPrefix, newPrefix);
    PrefixesOfOneKey(Reprefix(key, oldPrefix, newPrefix), oldPrefix, newPrefix);
  }

  /** A file elsewhere keeps its name; its size is reported as before unless a moved key landed on it. */
  lemma RenamedDirKeepsOthers(
      m: Mount, keys: seq<string>, order: seq<nat>, oldPrefix: string, newPrefix: string, ino: nat)
    requires ListingOf(keys, m.store, oldPrefix) && Enumerates(order, m.table, oldPrefix)
    requires !HasGlob(oldPrefix) && Separate(oldPrefix, newPrefix)
    requires ino in m.table.nodes && !Under(m.table.nodes[ino].key, oldPrefix)
    requires !IsTarget(m.table.nodes[ino].key, m.store, oldPrefix, newPrefix)
    ensures var n := RenameDir(m, keys, order, oldPrefix, newPrefix);
      && ino in n.table.nodes && n.table.nodes[ino] == m.table.nodes[ino]
      && forall c :: Getattr(n, ino, c) == Getattr(m, ino, c)
  {
    RenamedSubtree(m, keys, order, oldPrefix, newPrefix);
    RekeyAllNodes(m.table, order, oldPrefix, newPrefix);
    assert ino !in Elems(order);
  }
}
