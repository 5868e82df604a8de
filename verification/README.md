# rs5cmd verification project

This project models the algorithmic core of rs5cmd in Dafny and proves what it promises. The network and
the disk are values here: a bucket is a map from keys to bytes, a local or cache file is a byte sequence,
and every request to S3 may fail, also after its effect took place. Failed requests are counted, so that a call
fails only when a request did or for a stated reason.

| file | component |
|---|---|
| `Prelude.dfy`, `RangedGet.dfy`, `ObjectStore.dfy` | shared sequence facts, inclusive byte ranges (section 14.1.2 of RFC 9110), the bucket |
| `Reader.dfy` | the chunked read-ahead cache of the mount (LRU, eviction guard, any fetch completion order) |
| `Inode.dfy` | the two-way inode/key table and its bulk rekey |
| `Writer.dfy`, `VfsModel.dfy`, `MountLaws.dfy`, `Vfs.dfy` | the write-back cache file, the mount as a state machine, what each call leaves for its user, and the mount class proved against it |
| `DirRename.dfy` | directory rename as copies and deletes over a flat key space |
| `Strutil.dfy`, `Url.dfy`, `PathClean.dfy` | the glob compiler, listing prefix and filter, relative keys, lexical paths |
| `Multipart.dfy`, `Pipe.dfy` | multipart downloads, uploads and copies; cutting a stream into parts |
| `Filters.dfy`, `SyncPlan.dfy`, `SyncExec.dfy`, `SyncRun.dfy` | sync filters, planner, executor, and the whole command |
| `RateLimit.dfy` | the bandwidth limiter |
| `FastPath.dfy` | retries, move semantics, sharding and the per-core driver |
| `S3cfg.dfy` | the dotfile printer and parser, and the `.s3cfg` import |

Code that updates state is modelled by classes and loops with the source's branches; each method is proved
against a function of the old state, and the properties are lemmas about those functions. Concurrency is
modelled by arbitrary completion orders and by interleaved event logs. One call of the mount is one atomic
step. Wall clocks, the attribute cache, and the parser for human byte sizes enter as parameters.

## Findings

Where a property does not hold on all inputs, the code is modelled as it is and the exact condition is proved.

- An empty write past the end of a file records a size the cache file does not have (`VfsModel.WriteKeepsIff`).
- A file handle whose inode was unlinked or replaced still uploads on close: it brings an unlinked object back
  exactly when it was dirty (`VfsModel.UnlinkedStaysGoneIff`), and may overwrite the object of another open
  handle (`VfsModel.FlushKeepsIff`). Such a state is reached by creating, unlinking and creating a file again
  (`VfsModel.ClobberIsReachable`).
- An unlink that took effect but was reported as failed leaves a clean open handle with nothing to upload: the
  file stays interned, and closing it does not store it again (`VfsModel.FailedUnlinkLosesFileIff`). Which calls
  may fail safely is decided before the call (`VfsModel.FailSafeIff`).
- After a close whose upload failed the in-progress size stays reported, also when the stored file is truncated
  later (`VfsModel.TruncateObjectContents`, reached in `VfsModel.StaleSizeIsReachable`).
- Renaming a file onto itself deletes it, since the copy is followed by a delete
  (`VfsModel.RenameMovesBytesIff`); a fast-path move onto itself does the same (`FastPath.MoveKeepsBytesIff`).
- A directory rename into a prefix that overlaps its own loses objects exactly when a target is itself moved
  (`DirRename.CompletedKeepsBytesIff`, `DirRename.NeverLosesBytesIff`).
- A fast-path core whose runtime cannot be built ends without reporting, and its whole shard has no outcome: the
  command then does not count these transfers as failed (`FastPath.RunTransfers`).
- `*` and `?` in a directory's path make the mount list something other than the directory's subtree
  (`DirRename.ListingIsSubtreeIff`). Renaming such a directory leaves every file behind
  (`DirRename.GlobRenameMovesNoFile`) while its inode is rekeyed (`VfsModel.GlobRenameStrandsFile`), and moves
  markers of other directories that match (`DirRename.ListedKeysLeave`), where two may go to one target
  (`DirRename.SharedTargetIff`, `DirRename.GlobRenameLosesKey`).
- The bulk inode rekey can lose a reverse entry, depending on the map's iteration order, exactly when a new key
  is already taken (`Inode.RekeyPrefixKeepsIff`).
- `upload_parts` narrows the part count to 32 bits, so a source of 2^31 or more parts would lose its tail
  (`Multipart.UploadIsSourceIff`).
- The limiter's documentation speaks of a burst after an idle period, but its lag bound never applies, because
  a start is never before the current time: no credit is ever granted (`RateLimit.RateLimiter.Acquire`). Above
  10^9 bytes per second a one-byte reservation costs nothing (`RateLimit.FineReservationsAreFree`).
- A relative path does not lead back from a base that is `.`, nor from an unrooted base that climbs out of the
  common part with `..` (`PathClean.JoinInvertsRelIff`).
- A sync into a destination that is neither a bucket nor ends in `/` repeats itself: the next run copies exactly
  what this one copied, so it converges only when nothing needed copying (`SyncPlan.NonContainerRepeats`).
- With `--checksum` an object with a multipart tag is never in sync, not even with itself
  (`SyncPlan.FaithfulCopyInSync`).
- An imported `.s3cfg` whose `host_base` has a blank before its trailing slashes reads back differently
  (`S3cfg.ImportSurvivesIff`).

## Model

| member | source | states |
|---|---|---|
| RangedGet.ReadRangeIsSlice | src/storage/s3.rs:696-718 | an inclusive ranged GET with its two empty cases is the plain slice of the object, also past its end |
| RangedGet.ReadRangeVisible | src/storage/s3.rs:696-718 | a range that stays below a believed size sees only that part of the object, whatever the object's real length |
| Reader.RemoveAt | src/mount/reader.rs:165-170 | removing the position found in the recency order removes that index and keeps the order of the rest |
| Reader.RotatedStep | src/mount/reader.rs:174-187 | one turn of the eviction loop rotates protected entries and drops others, whatever was popped before |
| Reader.RotatedIsSuffix | src/mount/reader.rs:174-187 | when the guarded loop stops, the survivors are a suffix of the recency order of size min(resident, max(budget, needed)) |
| Reader.TouchedNext | src/mount/reader.rs:105-109 | touching the covering chunks one by one moves them, ascending, to the most recently used end |
| Reader.MostRecentMeans | src/mount/reader.rs:104-110 | after a read the covering chunks are the most recent ones, ascending, and the others precede them in the order they had |
| Reader.FetchedStay | src/mount/reader.rs:80-110 | what a read fetched is not evicted by that read, whatever was resident before |
| Reader.NeededChunks | src/mount/reader.rs:72-78 | the first and last chunk of a clamped read exist in the object |
| Reader.FetchedChunk | src/mount/reader.rs:136-163 | a ranged GET by chunk bounds is non-empty in range and gives exactly that chunk, also when the object is shorter than believed |
| Reader.ChunkContinues | src/mount/reader.rs:113-131 | the bytes taken from the chunk that holds a position continue the slice there, and the defensive break is taken exactly at the end of the object |
| Reader.ChunkReader.constructor | src/mount/reader.rs:38-59 | the chunk size is at least 64 KiB and at least two chunks may stay resident |
| Reader.ChunkReader.FetchChunks | src/mount/reader.rs:136-163 | in every completion order each missing chunk comes back once with its bytes; the fetch fails if and only if a request did |
| Reader.ChunkReader.Touch | src/mount/reader.rs:165-170 | the recency order stays free of duplicates with the touched index last |
| Reader.ChunkReader.Evict | src/mount/reader.rs:174-187 | eviction terminates and is exact LRU: what stays is the most recently used suffix and holds every protected chunk |
| Reader.ChunkReader.Settle | src/mount/reader.rs:104-110 | after marking and evicting, the residents are the most recently used suffix and still cover the read |
| Reader.ChunkReader.Prefetch | src/mount/reader.rs:80-102 | exactly the absent chunks of the window are fetched and appended in completion order; a failed request changes nothing |
| Reader.ChunkReader.Take | src/mount/reader.rs:116-130 | the chunk that holds a position yields the next bytes of the object, and nothing exactly at its end |
| Reader.ChunkReader.Assemble | src/mount/reader.rs:112-131 | the assembly loop yields the plain slice and never meets a missing chunk |
| Reader.ChunkReader.Read | src/mount/reader.rs:71-133 | every successful read is the plain slice of the visible object and fails if and only if a request did; a read that jumps fetches only the absent chunks it covers, a sequential one also those ahead up to the budget, all of which stay; the cache keeps exactly the most recently used suffix within max(budget, needed chunks) |
| Inode.NewTableBijection | src/mount/inode.rs:44-61 | a new table is a one-to-one correspondence holding the root |
| Inode.InternKeeps | src/mount/inode.rs:74-90 | interning keeps the correspondence; a known key changes nothing, an unknown one gets a number never used before |
| Inode.ForgetKeeps | src/mount/inode.rs:127-131 | forgetting keeps the correspondence exactly for inodes other than the root |
| Inode.RekeyKeeps | src/mount/inode.rs:93-99 | a rekey keeps the correspondence exactly when no other inode holds the new key |
| Inode.InternedNode | src/mount/inode.rs:74-90 | a new key gets the next number with the given kind and parent, and no other entry changes |
| Inode.ForgottenNode | src/mount/inode.rs:127-131 | the inode and its key are gone, its number stays used, and no other entry changes |
| Inode.RekeyedNode | src/mount/inode.rs:93-99 | the inode keeps number, kind and parent, its new key leads to it and the old one nowhere, and no other entry changes |
| Inode.FreshTargetNoClash | src/mount/vfs.rs:692-699 | without interned keys under the new prefix no new key is taken |
| Inode.RekeyAllNodes | src/mount/inode.rs:106-124 | the bulk rekey is exactly prefix substitution on the affected inodes, for every iteration order |
| Inode.RekeyAllKeeps | src/mount/inode.rs:106-124 | without a clash every partial bulk rekey keeps the correspondence, in every order |
| Inode.LostEntry | src/mount/inode.rs:114-122 | visiting an inode before the holder of its new key loses the reverse entry of the first |
| Inode.RekeyPrefixKeepsIff | src/mount/inode.rs:106-124 | all iteration orders keep the correspondence if and only if no affected inode's new key belongs to another inode |
| Inode.RunKeeps | src/mount/inode.rs:74-131 | over every run of the four operations the correspondence and the root survive and no number is handed out twice |
| Inode.InodeTable.constructor | src/mount/inode.rs:44-61 | the fields start as the one-node table |
| Inode.InodeTable.Get | src/mount/inode.rs:63-65 | in a corresponding table a found node's key looks up to the same inode |
| Inode.InodeTable.LookupKey | src/mount/inode.rs:68-70 | in a corresponding table a found inode is live and has that key |
| Inode.InodeTable.InternKey | src/mount/inode.rs:74-90 | refines the table's intern step and returns the inode the key now maps to |
| Inode.InodeTable.RekeyInode | src/mount/inode.rs:93-99 | refines the table's rekey step on both maps |
| Inode.InodeTable.RekeyPrefix | src/mount/inode.rs:106-124 | lists the affected inodes once each and leaves the table the bulk rekey in that order leaves |
| Inode.InodeTable.ForgetInode | src/mount/inode.rs:127-131 | refines the table's forget step on both maps |
| Writer.WriteAtContents | src/mount/writer.rs:50-55 | written bytes replace, a gap reads as zeros, every other byte keeps its value, and the length grows as needed |
| Writer.SetLenContents | src/mount/writer.rs:76-81 | resizing keeps the bytes that fit and reads as zeros beyond the old end |
| Writer.WriteKeepsSizeIff | src/mount/writer.rs:50-55 | the recorded size stays the file's length if and only if the write is not an empty one past the end |
| Writer.Writer.Write | src/mount/writer.rs:50-55 | the cache file takes the write, the size covers it and the writer becomes dirty |
| Writer.Writer.SetDst | src/mount/writer.rs:59-61 | only the destination changes |
| Writer.Writer.Read | src/mount/writer.rs:64-73 | with the recorded size right, reading back is the plain slice of the cache file |
| Writer.Writer.Truncate | src/mount/writer.rs:76-81 | cutting or zero-extending sets the size and makes the writer dirty |
| Writer.Writer.Flush | src/mount/writer.rs:84-94 | a clean result means the stored object is the cache file; it fails if and only if the upload did, and then leaves the writer dirty |
| Writer.Writer.Close | src/mount/writer.rs:83-111 | flushing and dropping never loses the bytes: the object is the cache file or the local copy is, success means the object is, and no other key changes |
| ObjectStore.Store.Upload | src/storage/s3.rs:897-907 | success stores the bytes; a reported failure is counted and may or may not have stored them |
| ObjectStore.Store.Copy | src/storage/s3.rs:1734-1774 | success duplicates a stored object; a counted failure has no effect or the whole effect |
| ObjectStore.Store.Delete | src/storage/s3.rs:1717-1732 | success removes the key; a counted failure has no effect or the whole effect |
| ObjectStore.Store.List | src/storage/s3.rs:1239-1345 | each key the URL's filter accepts is listed once, in any order |
| VfsModel.OpenWriteKeeps | src/mount/vfs.rs:374-420 | opening a file without another write handle keeps every open handle coherent |
| VfsModel.CreateKeeps | src/mount/vfs.rs:424-459 | creating a file keeps every open handle coherent |
| VfsModel.WriteKeepsIff | src/mount/vfs.rs:464-479 | a write keeps the invariant if and only if it is not an empty write past the end of an attached handle's file |
| VfsModel.TruncateHandleKeeps | src/mount/vfs.rs:526-539 | truncating through a handle keeps the invariant |
| VfsModel.TruncateObjectKeeps | src/mount/vfs.rs:764-801 | truncating a file without a write handle keeps the invariant |
| VfsModel.TruncateObjectContents | src/mount/vfs.rs:764-801 | a stored file is resized, zero-filled where it grows, and no other object changes; the new size is what is reported if and only if no other in-progress size is left over for the file |
| VfsModel.AttachedNeverClobbers | src/mount/vfs.rs:482-487 | only a handle whose inode is gone can overwrite another open handle's object |
| VfsModel.FlushKeepsIff | src/mount/vfs.rs:482-487 | a flush keeps the invariant if and only if it overwrites no other clean open handle's object |
| VfsModel.ReleaseKeepsIff | src/mount/vfs.rs:491-516 | closing a handle keeps the invariant if and only if the upload overwrites no other clean open handle's object |
| VfsModel.CloseIsDurable | src/mount/vfs.rs:491-516 | after a successful close the object under the inode's current key is the cache file, with the size reported before, and reopening starts from those bytes |
| VfsModel.UnlinkKeeps | src/mount/vfs.rs:550-562 | unlinking keeps the remaining handles coherent |
| VfsModel.UnlinkedStaysGoneIff | src/mount/vfs.rs:491-562 | a file unlinked while open for writing stays gone after the close if and only if nothing was left to upload |
| VfsModel.ReleaseFailedKeepsIff | src/mount/vfs.rs:495-503 | a close whose upload failed keeps the invariant if and only if the bytes were not stored after all, or overwrote no other clean open handle's object |
| VfsModel.FailureChangesBucketOnly | src/mount/vfs.rs:346-703 | a failed call changes at most the bucket and the handle counter |
| VfsModel.FailSafeIff | src/mount/vfs.rs:346-703 | every outcome of a failing call keeps the invariant if and only if, before the call, no clean open handle has its object where the call would write other bytes or delete |
| VfsModel.DirRenameSparesIff | src/mount/vfs.rs:677-689 | for a directory rename no target of which is listed, that condition is: the object is not listed, and what is moved onto it has the same bytes |
| VfsModel.FailedUnlinkLosesFileIff | src/mount/vfs.rs:550-562 | after an unlink reported as failed that took effect, the file stays interned, and its close stores it again if and only if the handle was dirty |
| VfsModel.ClobberIsReachable | src/mount/vfs.rs:424-562 | from a new mount, creating, unlinking and creating a file again, then writing and flushing the second handle, leads to a first handle whose close would overwrite the second one's object |
| VfsModel.StaleSizeIsReachable | src/mount/vfs.rs:424-801 | from a new mount, creating a file, a close whose upload fails and a truncate lead to an object of the new size whose file is reported as empty |
| VfsModel.MovedTableKeeps | src/mount/vfs.rs:630-642 | dropping the destination's inode and rekeying the source keeps the correspondence and changes only that key |
| VfsModel.RenameKeepsMoved | src/mount/vfs.rs:640-649 | the handle of the moved file follows it to the new key |
| VfsModel.RenameFileKeeps | src/mount/vfs.rs:606-653 | a file rename re-points the open writer, so every open handle stays coherent |
| VfsModel.RenameMovesBytesIff | src/mount/vfs.rs:619-628 | a file rename ends with the bytes under the new name if and only if the names differ, and touches no third key |
| VfsModel.StoppedRenameKeepsBytes | src/mount/vfs.rs:621-628 | wherever a rename between two names stops, the bytes are under one of them and no third key changed |
| VfsModel.MkdirKeeps | src/mount/vfs.rs:565-583 | creating a directory keeps every open handle coherent |
| VfsModel.RmdirKeeps | src/mount/vfs.rs:586-601 | removing a directory keeps every open handle coherent |
| VfsModel.RenameDirKeeps | src/mount/vfs.rs:658-702 | a directory rename away from open writers, without key clashes, keeps the invariant |
| VfsModel.NewMountKeeps | src/mount/vfs.rs:100-120 | a new mount satisfies the invariant |
| MountLaws.ReportedSize | src/mount/vfs.rs:130-157 | no size without an inode, zero for a directory; for a file the in-progress size before a remembered one, and that before the stored object's |
| MountLaws.OpenedForWriting | src/mount/vfs.rs:374-420 | the new handle starts from the stored object and closing it changes nothing; truncated or not stored, it starts empty and closing it stores an empty object; no other handle, size or object changes |
| MountLaws.CreatedFile | src/mount/vfs.rs:424-459 | a created file is a new file inode under its directory, or the inode of that name, of size 0; closing it stores an empty object |
| MountLaws.WrittenHandle | src/mount/vfs.rs:464-479 | the cache file holds the data at its offset, zeros in a gap and its old bytes elsewhere, its size is reported, and no other handle, size or object changes |
| MountLaws.ResizedHandle | src/mount/vfs.rs:519-545 | the cache file is cut or zero-extended, its size is reported, and nothing else changes |
| MountLaws.FlushedHandle | src/mount/vfs.rs:482-487 | a changed cache file is stored under its destination and the handle clean; without changes nothing happens |
| MountLaws.ClosedHandle | src/mount/vfs.rs:491-516 | the handle and the in-progress size are gone, and no other handle, object or size changes |
| MountLaws.ClosedAfterFailure | src/mount/vfs.rs:495-503 | the handle is gone, the size reported for its file stays, and no other handle changes |
| MountLaws.WriteThenClose | src/mount/vfs.rs:464-516 | after a write and a close the object holds the data at its offset, zeros in a gap and the old bytes elsewhere, and no other object changes |
| MountLaws.ResizeThenClose | src/mount/vfs.rs:491-545 | after a resize and a close the object is the cut or zero-extended file, and no other object changes |
| MountLaws.UnlinkedFile | src/mount/vfs.rs:550-562 | object and inode are gone, and every other object and inode is as before |
| MountLaws.UnlinkedSizes | src/mount/vfs.rs:550-562 | with the inode its reported size is gone, and every other size is reported as before |
| MountLaws.MadeDirectory | src/mount/vfs.rs:565-583 | an empty marker is stored and a new directory inode linked to its parent; everything else is as before |
| MountLaws.RemovedDirectory | src/mount/vfs.rs:586-601 | marker and inode are gone, and everything else is as before |
| MountLaws.RenamedFile | src/mount/vfs.rs:618-653 | the file keeps its inode and reported size under the new name, the old name leads nowhere, and the overwritten inode is gone |
| MountLaws.RenameThenClose | src/mount/vfs.rs:491-653 | closing an open writer after its file was renamed stores its bytes under the new name and nothing under the old |
| MountLaws.RenamedListing | src/mount/vfs.rs:658-702 | after a directory rename no listed key is stored, and each one's bytes are at its new key if and only if no target is listed and shared targets agree |
| MountLaws.RenamedSubtree | src/mount/vfs.rs:658-702 | between separate names without wildcards exactly the subtree moved |
| MountLaws.RenamedDirKeepsFile | src/mount/vfs.rs:658-702 | every file below the renamed directory keeps its inode and its bytes under the new name; its size is reported as before if and only if it is not the case that only its new key was stored |
| MountLaws.RenamedDirKeepsOthers | src/mount/vfs.rs:658-702 | a file elsewhere keeps its name and size unless a moved key landed on it |
| VfsModel.RunKeepsHandles | src/mount/vfs.rs:130-157 | over every run of permitted calls, each attached write handle keeps: destination is the inode's key, reported size is writer size is cache length, and a clean writer's object is its cache file; a call that fails is permitted under the condition of `FailSafeIff`, whatever part of it took effect |
| Vfs.Vfs.constructor | src/mount/vfs.rs:100-120 | a new mount has the root only and no handles |
| Vfs.Vfs.AllocHandle | src/mount/vfs.rs:724-726 | a handle number is the next one and not in use |
| Vfs.Vfs.Getattr | src/mount/vfs.rs:130-157 | the unflushed size wins over the attribute cache, which wins over the stored object; a missing file is reported as such, and any other failure is a failed request |
| Vfs.Vfs.OpenForWriting | src/mount/vfs.rs:346-420 | refines the open step: the cache file is the stored object, or empty and dirty; a failure opens nothing and is a failed request or a name that is no file |
| Vfs.Vfs.OpenForReading | src/mount/vfs.rs:354-372 | the reader is over the stored object with the size `getattr` reports; no other handle changes |
| Vfs.Vfs.Create | src/mount/vfs.rs:424-459 | refines the create step, succeeds exactly under a live directory, and returns the inode of the name and the new handle |
| Vfs.Vfs.WriteHandle | src/mount/vfs.rs:464-479 | the cache file then holds the data at its offset with zeros in a gap and its old bytes elsewhere, nothing else changes, and it fails exactly on handles not open for writing |
| Vfs.Vfs.FlushHandle | src/mount/vfs.rs:482-487 | refines the flush step; it fails only when a request did and leaves the handle dirty, and other handles are not an error |
| Vfs.Vfs.Release | src/mount/vfs.rs:491-516 | refines the close step, or the failed one: then the bytes stay in the local file, the size stays reported, and the object is as before or the upload |
| Vfs.Vfs.FindWriteHandle | src/mount/vfs.rs:740-761 | finds a write handle of the inode whenever there is one, the given handle first |
| Vfs.Vfs.TruncateStored | src/mount/vfs.rs:764-801 | refines the truncate step; a failure leaves everything as before but a handle number, or the whole effect |
| Vfs.Vfs.Setattr | src/mount/vfs.rs:520-545 | resizes through an open write handle when there is one, the stored object otherwise, and reports the attributes; a failed resize has no effect or the whole effect |
| Vfs.Vfs.Unlink | src/mount/vfs.rs:550-562 | refines the unlink step; a failure leaves the bucket as before or without the key, and nothing else changes |
| Vfs.Vfs.Mkdir | src/mount/vfs.rs:565-583 | refines the mkdir step, succeeds rather than reporting "exists" exactly when neither a file nor a listed directory has the name, and a failure adds at most the marker |
| Vfs.NameFreeIff | src/mount/vfs.rs:565-579 | a wildcard-free name is free for a directory if and only if neither a file nor anything below it is stored |
| Vfs.Vfs.Rmdir | src/mount/vfs.rs:586-601 | refines the rmdir step, succeeds rather than reporting "not empty" exactly when only the marker is listed, and a failure removes at most the marker |
| Vfs.OnlyMarkerIff | src/mount/vfs.rs:586-592 | a wildcard-free directory counts as empty if and only if nothing but its marker is stored below it |
| Vfs.Vfs.RenameInTable | src/mount/vfs.rs:630-649 | the overwritten inode is dropped, the source rekeyed, and the writer found for it re-pointed |
| Vfs.Vfs.RenameFileObject | src/mount/vfs.rs:618-653 | refines the file rename; a failed request leaves table and handles alone and the bucket at some step of the rename |
| Vfs.Vfs.MoveObjects | src/mount/vfs.rs:677-689 | all copies precede all deletes; a failure leaves the bucket at some step of the rename |
| Vfs.Vfs.RenameDirObjects | src/mount/vfs.rs:658-702 | refines the directory rename over exactly the listed keys: none is left, each arrives under the exact condition, and between separate wildcard-free names exactly the subtree moved; a failure leaves table and handles alone and the bucket at a step of the rename of the listed keys |
| Vfs.Vfs.Rename | src/mount/vfs.rs:606-703 | a stored object under the old name makes it a file rename, its absence a directory rename that moves the listed objects; it fails only for a failed request or a name that does not exist, and then stops in a state of that rename |
| Vfs.FailedDirRenameKeepsBytes | src/mount/vfs.rs:658-689 | after a failed directory rename, no target of which is itself moved, each listed key's bytes are at the old or the new key and all other keys are as before; without wildcards the listed keys are the subtree |
| Vfs.Vfs.ReadHandle | src/mount/vfs.rs:322-340 | reading through a handle gives the plain slice of the reader's object or of the cache file, without one that of the stored object; failures are failed requests or files that cannot be read |
| Vfs.Vfs.ReadDirect | src/mount/vfs.rs:304-317 | a direct read gives the plain slice of the stored object below the reported size, nothing past it, and fails only for a failed request or a file that cannot be read |
| DirRename.SeparatePrefixesSuffice | src/mount/vfs.rs:659-660 | when neither prefix starts with the other no target lies under the old prefix, so none is moved itself |
| DirRename.CopiedAt | src/mount/vfs.rs:679-685 | a copied key's bytes are at its target whatever was copied after it |
| DirRename.DeletedContents | src/mount/vfs.rs:687-689 | the deletes remove the listed keys and nothing else |
| DirRename.SharedTargetIff | src/mount/vfs.rs:680-681 | two keys are moved to one target if and only if one is the old prefix followed by the other, which lacks the prefix |
| DirRename.NeverLosesBytes | src/mount/vfs.rs:677-689 | wherever the rename stops, each listed key's bytes are at the old or at the new key, when no target is listed and shared targets agree |
| DirRename.NeverLosesBytesIff | src/mount/vfs.rs:677-689 | every state of the rename has all bytes at the old or the new key if and only if no target is itself a moved key and keys that share a target hold the same bytes; for a subtree the first alone decides |
| DirRename.OthersUntouched | src/mount/vfs.rs:677-689 | wherever the rename stops, a key that is neither moved nor a target is as before |
| DirRename.CompletedKeepsBytesIff | src/mount/vfs.rs:677-689 | a completed rename has all bytes at their targets under the same condition, and only then |
| DirRename.CompletedMovesIff | src/mount/vfs.rs:658-689 | a completed rename moved exactly the subtree, overwriting only where a moved key landed, if and only if no target lies under the old prefix |
| DirRename.SeparatePrefixesMoveSubtree | src/mount/vfs.rs:658-689 | when neither prefix starts with the other, a completed rename moved exactly the subtree |
| DirRename.ListingIsSubtreeIff | src/mount/vfs.rs:861-865 | the recursive listing of a prefix is its subtree for every bucket if and only if the prefix has no wildcard character |
| DirRename.ListedKeysLeave | src/mount/vfs.rs:658-689 | a completed rename takes away every key the listing accepts, under the old prefix or not, and changes no other key but the targets |
| DirRename.GlobRenameMovesNoFile | src/mount/vfs.rs:658-689 | with a wildcard character in the old prefix every file stays where it is, wherever the rename stops |
| DirRename.GlobRenameLosesKey | src/mount/vfs.rs:677-689 | when the listing shows a key outside the directory and one of that name inside, both go to one target and the one inside is lost if listed first |
| VfsModel.GlobRenameStrandsFile | src/mount/vfs.rs:658-702 | with a wildcard character in the old prefix the inode of a file in the directory is rekeyed while its object stays, so a file not stored under the new key is reported as missing |
| Strutil.FirstReplacement | src/strutil.rs:7-11 | the first textual replacement turns exactly the escaped question marks into dots, with literal backslashes in the pattern too |
| Strutil.SecondReplacement | src/strutil.rs:7-11 | the second turns exactly the escaped stars into dot-stars |
| Strutil.CompilerEmits | src/strutil.rs:7-11 | both replacements together emit, character by character, the expression of the glob |
| Strutil.GlobOne | src/strutil.rs:7-11 | `*` matches everything, `?` every single character, any other character itself, the empty glob the empty key |
| Strutil.GlobConcat | src/strutil.rs:7-11 | two globs one after the other match exactly the keys that split into a match of each |
| Strutil.CompileKeepsMeaning | src/strutil.rs:7-21 | the anchored text parses as a regular expression and accepts exactly the keys the glob stands for, newlines and slashes included |
| Url.FilterMeansGlob | src/storage/url.rs:218-245 | prefix and filter, compiled apart, mean the glob of the whole path, and the expression always compiles |
| Url.GlobKeepsPrefix | src/storage/url.rs:228-231 | the part before the first wildcard is matched literally |
| Url.PrefixIsLongest | src/storage/url.rs:218-235 | the listing prefix is everything before the first wildcard character, and with the filter it is the path |
| Url.MatchHasPrefix | src/storage/url.rs:218-245 | every accepted key starts with the listing prefix |
| Url.PrefixListingIsComplete | src/storage/url.rs:218-278 | listing by prefix and then filtering equals filtering the whole bucket |
| Url.PlainPathMatches | src/storage/url.rs:223-240 | a path without wildcards accepts exactly the keys it is a prefix of |
| Url.ParseBatchRebuilds | src/storage/url.rs:307-319 | the directory part of the prefix followed by the relative key is the key again |
| Url.ParseNonBatchIsComponent | src/storage/url.rs:322-352 | the relative key is one path component of the key, the one that follows the prefix or ends the key, with its slash when more follows |
| Url.Url.constructor | src/storage/url.rs:74-108 | a parsed reference has its prefix, filter and delimiter split at the first wildcard |
| Url.Url.SetPrefixAndFilter | src/storage/url.rs:218-245 | wildcard URLs list recursively, others by directory; a raw URL gets no filter |
| Url.Url.Matches | src/storage/url.rs:263-278 | a key is accepted exactly when the glob matches it; a wildcard match leaves a relative path that rebuilds the key, another match the key's component at the prefix |
| PathClean.CleanPathLoop | src/storage/url.rs:415-447 | the segment loop computes the cleaned path the lemmas below are about |
| PathClean.CleanPathIsNormal | src/storage/url.rs:415-447 | a cleaned path has no empty or `.` segment, `..` only leading and only when unrooted, and stays rooted or unrooted |
| PathClean.CleanPathIdempotent | src/storage/url.rs:415-447 | cleaning twice is cleaning once |
| PathClean.CleanPathKeepsPlace | src/storage/url.rs:415-447 | from every current directory a path and its cleaned form lead to the same place in a tree without links |
| PathClean.PathJoinComposes | src/storage/url.rs:403-412 | a joined path leads where its second part leads from its first |
| PathClean.PathJoinEmpty | src/storage/url.rs:403-412 | joining onto an empty path leads where the path itself leads |
| PathClean.StepsLoop | src/storage/url.rs:458-468 | the comparing and pushing loops give the steps up to the common part and down again |
| PathClean.RelPathLoop | src/storage/url.rs:450-474 | the loops compute the relative path the lemma below is about |
| PathClean.JoinInvertsRel | src/storage/url.rs:403-474 | for rooted paths joining the relative path onto its base is the cleaned target |
| PathClean.JoinInvertsRelIff | src/storage/url.rs:403-474 | for all paths joining inverts relativising if and only if both clean to the same, or both or neither are rooted, the base is not `.`, and below the common part the base does not begin with `..` |
| PathClean.StepsAreShortest | src/storage/url.rs:450-474 | no walk from one path to the other has fewer segments than the relative path |
| PathClean.GoDirLoop | src/storage/url.rs:373-384 | the backward scan cuts after the last slash and cleans the rest |
| PathClean.RelativeRebuilds | src/storage/url.rs:248-260 | for rooted paths the base's directory joined with a file's relative path is the file again |
| Multipart.PartsTile | src/storage/s3.rs:848-852 | no part is empty, all but the last have the part size, and each part starts where the one before ends |
| Multipart.PositionInOnePart | src/storage/s3.rs:848-852 | every byte position lies in exactly one part |
| Multipart.PartRange | src/storage/s3.rs:861 | the inclusive range of a part fetches exactly that part |
| Multipart.PartWriteSettles | src/storage/s3.rs:877-880 | writing one part at its offset completes it and disturbs no other |
| Multipart.DownloadRemainingParts | src/storage/s3.rs:840-893 | in every interleaving of part writes a successful download leaves the file equal to the object, and it fails if and only if a request did |
| Multipart.Download | src/storage/s3.rs:744-836 | a download is the object for every size and part size, the empty object included, and fails if and only if a request did |
| Multipart.SortSorts | src/storage/s3.rs:1105 | sorting by part number is ascending and keeps exactly the same parts |
| Multipart.SortRestoresOrder | src/storage/s3.rs:1098-1105 | whatever the completion order, sorting gives the planned part list back |
| Multipart.TasksAssemble | src/storage/s3.rs:1053-1078 | the first n parts in order are the source up to the end of part n |
| Multipart.UploadIsSourceIff | src/storage/s3.rs:1052-1060 | the assembled upload is the source if and only if the part count fits a signed 32-bit number |
| Multipart.UploadParts | src/storage/s3.rs:1045-1107 | every completion order gives the same numbered part list, and it fails if and only if a request did |
| Multipart.MinPartIsLeast | src/storage/s3.rs:1926-1940 | a part size needs at most 10,000 parts if and only if it is at least the computed minimum |
| Multipart.CopyPartSizeKeptIff | src/storage/s3.rs:1926-1940 | the configured part size is kept if and only if it needs at most 10,000 parts; otherwise it becomes whole mebibytes |
| Multipart.CopyPartSizeSuffices | src/storage/s3.rs:1926-1940 | for every u64 size the grown part size needs at most 10,000 parts, does not overflow, and exceeds the minimum by less than a mebibyte |
| Multipart.CopyParts | src/storage/s3.rs:1919-1976 | the copied parts are 1..n, at most 10,000, all but the last of the grown size, and assemble to the source; it fails if and only if a request did |
| Pipe.ReadPart | src/command/pipe.rs:339-354 | whatever short reads the reader returns, a part is the next `cap` bytes or the rest of the stream |
| Pipe.NextPart | src/command/pipe.rs:318-323 | reading part by part cuts the stream at multiples of the part size and ends with it |
| Pipe.ReadNext | src/command/pipe.rs:318-323 | a non-empty read is the next part, and an empty one comes exactly when the stream is used up |
| Pipe.AcquireAndSpawn | src/command/pipe.rs:285-314 | an upload starts at once while fewer than `concurrency` are in flight, and otherwise waits for one of them |
| Pipe.UploadPartsFromReader | src/command/pipe.rs:263-332 | in every completion order the listed parts are the stream's parts, uploads in flight never exceed the limit, and it fails if and only if a read or a request did |
| Pipe.PutMultipartReader | src/command/pipe.rs:115-146 | a single PUT happens only for, and a multipart upload only for at least, one part of data, with nothing lost; it fails if and only if a read or a request did |
| Pipe.StreamPartsAreStream | src/command/pipe.rs:263-332 | the parts are numbered from one, never empty, all but the last of the part size, and concatenate to the stream |
| Filters.CompileGlobs | src/command/filters.rs:69-78 | each compiled pattern parses and accepts what its glob stands for |
| Filters.SkipMeansGlobs | src/command/filters.rs:30-40 | a key is skipped if and only if an exclude glob matches it, or includes exist and none matches |
| SyncPlan.FaithfulCopyInSync | src/command/sync_strategy.rs:48-75 | exactly when a faithful copy counts as in sync, by strategy |
| SyncPlan.InSyncIff | src/command/sync_strategy.rs:48-75 | for any two objects: by size when the sizes agree; by default when they agree and the source is not newer; by checksum when both have the same non-empty single-part tag |
| SyncPlan.TrimQuotesIs | src/command/sync_strategy.rs:64-65 | a compared tag is the stored one without the quotes around it, and nothing else is gone |
| SyncPlan.ListingOfPlain | src/command/sync.rs:549-600 | a wildcard-free destination lists its directory's subtree, and relative keys rebuild the keys |
| SyncPlan.KeysDistinctIff | src/command/sync.rs:591-599 | two listed objects share a relative key if and only if the directory's marker is stored and its absolute URL is another object's relative key |
| SyncPlan.CollectDestObjects | src/command/sync.rs:549-602 | for every destination the map holds exactly the relative keys of the listed, unfiltered objects, each with an object that has it |
| SyncPlan.PlanCopies | src/command/sync.rs:195-213 | copied are exactly the source keys missing or changed at the destination; what is left is destination-only |
| SyncPlan.PlanDeletes | src/command/sync.rs:215-222 | every leftover is deleted once |
| SyncPlan.Plan | src/command/sync.rs:190-222 | copies are the missing or changed source keys and deletes the destination-only keys, each once; no deletes unless asked |
| SyncPlan.SourceKeyArrives | src/command/sync.rs:606-620 | after an error-free run, with deletes or without, each source key is at its destination, as copied or already in sync |
| SyncPlan.OtherKeyGone | src/command/sync.rs:215-222 | every other unfiltered key under the destination is gone |
| SyncPlan.UnplannedKeyUntouched | src/command/sync.rs:190-222 | for every destination, whatever fails: a key no source object goes to, and that is not listed or is skipped, is never touched |
| SyncPlan.UnrelatedKeyUntouched | src/command/sync.rs:595-598 | whatever fails, keys outside a container and keys the filters skip are never touched |
| SyncPlan.SourceKeySurvives | src/command/sync.rs:195-222 | whatever fails, the destination object of a source key never disappears: it is as before or as copied |
| SyncPlan.SyncConverges | src/command/sync.rs:190-222 | listing the destination again gives exactly the source keys, every object as copied or already in sync |
| SyncPlan.SecondRunIsIdle | src/command/sync.rs:190-222 | a second run deletes nothing and copies only what still differs; comparing sizes, it copies nothing |
| SyncPlan.CopiesConverge | src/command/sync.rs:190-222 | without deletes, listing the destination again gives the source keys and what was listed before, every source object as copied or already in sync and every other object as it was |
| SyncPlan.SecondCopyIsIdle | src/command/sync.rs:190-222 | with deletes or without, a second run copies exactly what the first copied and still differs; comparing sizes, it copies nothing |
| SyncPlan.LeftUncopiedIff | src/command/sync.rs:195-213 | in an error-free run a source object is left uncopied if and only if the destination has an object at its key that agrees with it in size, in size and age, or in its plain tag, by strategy |
| SyncPlan.SizesAgree | src/command/sync.rs:195-213 | after an error-free run by sizes, with times or without, every source object's size is the destination's |
| SyncPlan.LastCopyStays | src/command/sync.rs:606-620 | into a destination that is neither bucket nor prefix every object is copied to its one key, so the last copy stays |
| SyncPlan.NonContainerRepeats | src/command/sync.rs:606-620 | into a destination that is neither bucket nor prefix, with deletes or without, the next run copies exactly what this one copied, so a run converges if and only if nothing needed copying |
| SyncExec.PoolBounded | src/command/sync.rs:286-313 | at every moment at most `workers` tasks run, and the spawned tasks are a prefix of the plan |
| SyncExec.ReportedOnce | src/command/sync.rs:396-436 | each task is reported once when done and never before, and the counter is the number of successes |
| SyncExec.FlagsRecordFailures | src/command/sync.rs:404-416 | the error and fatal flags are set exactly by reported failures |
| SyncExec.NoSpawnAfterStop | src/command/sync.rs:295-304 | once the loop has stopped nothing is spawned |
| SyncExec.FailureStopsSpawning | src/command/sync.rs:295-304 | after a reported fatal failure, or with exit-on-error any reported failure, only reports follow |
| SyncExec.StoppedIff | src/command/sync.rs:295-304 | the loop stops if and only if a fatal failure was reported, or with exit-on-error any failure in this phase or before |
| SyncExec.RunPhase | src/command/sync.rs:286-320 | every run of the loop is a valid log, waits before a spawn only while all workers are busy, drains all tasks, and attempts the whole plan unless a failure that stops it was reported |
| SyncExec.Execute | src/command/sync.rs:229-389 | no delete starts after a fatal failure among the copies, nor with exit-on-error after any; without such a failure everything planned is attempted; caps, counts and outcome are those of the reports |
| SyncExec.SyncedMeansAllDone | src/command/sync.rs:286-320 | without errors every planned task was reported once, as a success |
| SyncRun.Settle | src/command/sync.rs:286-320 | the tasks that took effect, in completion order without repetition: every success, and failures only if attempted |
| SyncRun.AllLanded | src/command/sync.rs:286-320 | a phase without errors carried out its whole plan |
| SyncRun.ExecutePlan | src/command/sync.rs:229-389 | only planned copies and deletes take effect, each at most once; nothing does exactly when the deletes exceed the cap; with exit-on-error a delete takes effect only after all planned copies did; success means all of them did |
| SyncRun.Sync | src/command/sync.rs:187-389 | for every destination and outcome only planned effects take place, nothing does exactly when more orphans than the cap would go, with exit-on-error an object is deleted only after all planned copies took effect, and a success means all planned copies and deletes did; for a wildcard-free bucket or prefix, listing it then gives exactly the source keys, or without deletes the source keys and what was listed before |
| RateLimit.RateLimiter.constructor | src/ratelimit.rs:38-47 | the burst is the rate, at least 5 MiB, and the cursor starts now |
| RateLimit.RateLimiter.Acquire | src/ratelimit.rs:58-89 | the assigned start is the clock when the cursor is not ahead, the cursor otherwise, so idle time costs and earns nothing, and no caller returns before it |
| RateLimit.CostCovers | src/ratelimit.rs:94-97 | rounding down loses less than one nanosecond of cost |
| RateLimit.CostAtMost | src/ratelimit.rs:94-97 | a cost never exceeds the time the bytes take at the rate |
| RateLimit.StartsOrdered | src/ratelimit.rs:67-83 | starts never run backwards and none is before its caller's clock |
| RateLimit.StartIsClockOrEnd | src/ratelimit.rs:67-83 | each start of a run is the caller's clock or the end of the reservation before it, whichever is later; an idle limiter starts a caller at once |
| RateLimit.AggregateRateBound | src/ratelimit.rs:58-97 | between any two starts of a run the bytes let through stay within the rate, up to a nanosecond per reservation |
| RateLimit.BackloggedRunsAtRate | src/ratelimit.rs:58-97 | callers that keep the limiter busy are never slowed below the rate |
| RateLimit.FineReservationsAreFree | src/ratelimit.rs:94-97 | a one-byte reservation costs nothing if and only if the rate is above 10^9 bytes per second |
| FastPath.EffectIdempotent | src/fastpath/runtime.rs:277-302 | a retried request that had already taken effect changes nothing |
| FastPath.World.WithRetry | src/fastpath/runtime.rs:277-302 | each attempt but the last failed and may be retried; it gives up only after `max_retries` + 1 attempts or on a permanent failure; every intermediate state is before or after the effect, and success means after |
| FastPath.Deliver | src/fastpath/runtime.rs:210-264 | under every failure pattern nothing but the destination changes in any state; it succeeds if and only if no local step failed and the request was not given up; a missing source fails without effect |
| FastPath.DoOne | src/fastpath/runtime.rs:210-271 | every state of a move has the bytes at the source or complete at the destination; the source is deleted exactly after the bytes arrived; it fails only when a local step did or one of the two requests was given up; success means destination present and, for a move, source gone; a missing source fails without effect |
| FastPath.MoveKeepsBytesIff | src/fastpath/runtime.rs:223-259 | a successful move keeps the bytes if and only if source and destination differ |
| FastPath.BackSwapsEnds | src/fastpath/runtime.rs:184-202 | going back swaps source and destination; only an upload reads and only a download writes a local file |
| FastPath.Shard | src/fastpath/runtime.rs:91-95 | shard c holds exactly the items whose index is c modulo the core count, in order |
| FastPath.ShardsBalanced | src/fastpath/runtime.rs:89-95 | shards differ by at most one item and none is empty |
| FastPath.SizesSumToAll | src/fastpath/runtime.rs:91-95 | the shards together hold every item |
| FastPath.RunShard | src/fastpath/runtime.rs:160-181 | in every completion order each item finishes once, and as many are in flight as the bound and the items left allow |
| FastPath.ReportClientInit | src/fastpath/runtime.rs:130-142 | a client that cannot be built is reported once per item of its shard |
| FastPath.AllReportedIff | src/fastpath/runtime.rs:115-157 | the reported shards add up to all items if and only if no core's runtime failed |
| FastPath.RunCore | src/fastpath/runtime.rs:115-145 | a running core finishes each item of its shard once with the bound in flight, one without a client reports once per item, one without a runtime reports nothing |
| FastPath.RunTransfers | src/fastpath/runtime.rs:66-157 | min(cores, items) cores, at least one, are used; each item of a running core has exactly one outcome, and there are as many outcomes as items if and only if no core's runtime failed |
| S3cfg.ReadBackNumber | src/s3cfg.rs:63-68 | every number within its width is read back from its decimal digits |
| S3cfg.ToRs5cmdIni | src/s3cfg.rs:40-75 | the printed text is the header and one entry for each present setting, without credentials |
| S3cfg.ParseIni | src/s3cfg.rs:82-97 | the parsing loop computes the map the lemmas below are about |
| S3cfg.ReadValuesClean | src/s3cfg.rs:82-97 | every value read from a text is trimmed and on one line |
| S3cfg.ParseEntry | src/s3cfg.rs:42-47 | a printed entry parses to exactly its key and value |
| S3cfg.ReadEntries | src/s3cfg.rs:40-97 | parsing printed entries gives each key its value and no other key |
| S3cfg.ReadIsWritable | src/s3cfg.rs:253-274 | whatever a file says, the settings read from it can be written |
| S3cfg.PrintedUnderOwnName | src/s3cfg.rs:40-75 | each setting is printed under its own name and absent ones are not; credentials never are |
| S3cfg.RoundTripIff | src/s3cfg.rs:40-274 | reading a printed dotfile gives the settings without credentials and notes if and only if every text is trimmed, non-empty and on one line |
| S3cfg.RewriteIsStable | src/s3cfg.rs:40-274 | rewriting any dotfile and reading it again loses nothing but the credentials |
| S3cfg.EndpointWritable | src/s3cfg.rs:149-162 | the translated endpoint can be written if and only if no blank precedes the slashes that end `host_base` |
| S3cfg.EndpointHasScheme | src/s3cfg.rs:149-162 | an imported endpoint has a scheme and ends in the host without its trailing slashes; it is plain http only when the host says so or `use_https` is off |
| S3cfg.ImportTakesEntries | src/s3cfg.rs:139-180 | importing a file of plain entries takes each credential, certificate file and region from its own entry, and no limit of zero |
| S3cfg.ImportDecides | src/s3cfg.rs:166-230 | certificates go unverified only when a check is switched off, a proxy has a scheme, hosts carry the bucket exactly when the template begins with it, and the requester pays only when asked to |
| S3cfg.ImportSurvivesIff | src/s3cfg.rs:139-274 | an imported `.s3cfg` reads back as translated, without credentials and notes, if and only if no blank precedes the slashes that end `host_base` |

## Left out

- Writer.Writer.Write: writes past 2^64 saturate the recorded size in the source; sizes are unbounded here.
- Inode.InodeTable.InternKey: the inode counter, like the handle counter, is unbounded here and never wraps.
- Writer.Writer.Flush: errors of the local cache file (`sync_all`, a full disk) are not modelled.
- SyncPlan.CollectDestObjects: objects are listed in any order, so when two share a relative key either may stay.
- SyncPlan.SyncConverges: about wildcard-free destinations that are a bucket or end in `/`, whose marker makes no key ambiguous, with non-empty relative keys and copies that keep sizes.
- SyncPlan.CopiesConverge: about the same destinations as `SyncPlan.SyncConverges`.
- SyncPlan.NonContainerRepeats: about wildcard-free destinations whose marker makes no key ambiguous.
- SyncRun.Sync: single-object sources and local destinations are not modelled.
- Pipe.UploadPartsFromReader: the 32-bit part number is unbounded here, and the dry run that drains the input is not modelled.
- Multipart.Download: the object does not change between the requests; version ids, timestamps and throttling are not modelled.
- Reader.ChunkReader.FetchChunks: any completion order is allowed; the bound on concurrent fetches is not modelled.
- Reader.ChunkReader.Read: the object is the one at open time; changes to the bucket while a handle is open are not modelled.
- Vfs.Vfs.Getattr: the attribute cache enters as a parameter, so its lifetime and invalidation are not modelled.
- VfsModel.RunKeepsHandles: uploads by handles whose inode was unlinked or replaced, several writers on one inode, directory renames above open writers, and calls that fail although they may hit a clean open file (`FailSafe`) are outside the promise.
- RateLimit.AggregateRateBound: reservations whose cost saturates at 2^64 - 1 nanoseconds are excluded.
- FastPath.World.Attempt: backoff times and the classification of errors as retryable are arbitrary here.
- FastPath.RunTransfers: a panic inside a running shard is not modelled, only a runtime that cannot be built.
- S3cfg.RoundTripIff: the parser for human sizes such as `1MiB` is a parameter; only the plain integer case of `parse_byte_rate` is modelled.
- S3cfg.ImportSurvivesIff: the notes of an import are kept as kinds, not as texts.
- The AWS SDK, signing, TLS, proxies, io_uring, FUSE bindings and other foreign interfaces.
- Command lines, printing, progress, `ls`, `du`, `select`, `presign` and other presentation.
- The worker pool of `cp`, which has the shape of the sync executor without its stop conditions.
- Interleavings inside one call of the mount, and `lookup` and `readdir` with their caches.
- Pattern files, ETag and MD5 computation, Glacier handling, raw and versioned URLs in listings.
- A bound of 10,000 parts for `upload_parts`, which does not grow its part size.
- The internals of the `regex` crate: the emitted subset has its own small parser and meaning here.
