/**
 * The sync planner: two keyed listings are compared into copies and deletes. The main result is
 * that an error-free run converges: the destination then lists exactly the source.
 */
module SyncPlan {
  import opened Prelude
  import opened Url
  import opened Filters

  // ----- comparison strategies -----

  datatype Object = Object(size: nat, modTime: Option<nat>, etag: string)

  datatype SyncStrategy = SizeOnly | SizeAndModification | Checksum

  /** An unknown time counts as the epoch. */
  function TimeOf(t: Option<nat>): nat {
    if t.Some? then t.value else 0
  }

  function TrimQuotes(s: string): string {
    if s != "" && s[0] == '"' then TrimQuotes(s[1..])
    else if s != "" && s[|s| - 1] == '"' then TrimQuotes(s[..|s| - 1])
    else s
  }

  predicate ShouldSync(strategy: SyncStrategy, src: Object, dst: Object) {
    match strategy
    case SizeOnly => src.size != dst.size
    case SizeAndModification => TimeOf(src.modTime) > TimeOf(dst.modTime) || src.size != dst.size
    case Checksum =>
      var s, d := TrimQuotes(src.etag), TrimQuotes(dst.etag);
      s == "" || d == "" || '-' in s || '-' in d || s != d
  }

  /**
   * When a faithful copy counts as in sync: always by size; by time when it is no older than its
   * source; by checksum when the source's tag is a plain, non-empty checksum. A multipart tag
   * never compares equal, not even to itself.
   */
  lemma FaithfulCopyInSync(strategy: SyncStrategy, src: Object, dst: Object)
    requires dst.size == src.size && TrimQuotes(dst.etag) == TrimQuotes(src.etag)
    ensures !ShouldSync(strategy, src, dst) <==>
      match strategy
      case SizeOnly => true
      case SizeAndModification => TimeOf(src.modTime) <= TimeOf(dst.modTime)
      case Checksum => TrimQuotes(src.etag) != "" && '-' !in TrimQuotes(src.etag)
  {
  }

  /** The source is not newer; an unknown time is the earliest. */
  predicate NotNewer(src: Object, dst: Object) {
    src.modTime.Some? ==> src.modTime.value <= if dst.modTime.Some? then dst.modTime.value else 0
  }

  /** Both carry the same non-empty tag of a single part. */
  predicate SamePlainTag(src: Object, dst: Object) {
    var tag := TrimQuotes(src.etag);
    TrimQuotes(dst.etag) == tag && tag != "" && '-' !in tag
  }

  /** When an object counts as in sync with its source, strategy by strategy. */
  lemma InSyncIff(strategy: SyncStrategy, src: Object, dst: Object)
    ensures !ShouldSync(strategy, src, dst) <==>
      match strategy
      case SizeOnly => src.size == dst.size
      case SizeAndModification => src.size == dst.size && NotNewer(src, dst)
      case Checksum => SamePlainTag(src, dst)
  {
  }

  /** What is left of a quoted tag, from `front` on: all quotes around it are gone, and nothing else. */
  lemma {:induction false} TrimQuotesIs(s: string) returns (front: nat)
    ensures var r := TrimQuotes(s);
      && (r != "" ==> r[0] != '"' && r[|r| - 1] != '"')
      && front + |r| <= |s| && s[front..front + |r|] == r
      && (forall i :: 0 <= i < |s| && !(front <= i < front + |r|) ==> s[i] == '"')
    decreases |s|
  {
    var r := TrimQuotes(s);
    if s != "" && s[0] == '"' {
      front := TrimQuotesIs(s[1..]);
      assert s[1..][front..front + |r|] == s[front + 1..front + 1 + |r|];
      assert forall i :: 1 <= i < |s| ==> s[i] == s[1..][i - 1];
      front := front + 1;
    } else if s != "" && s[|s| - 1] == '"' {
      front := TrimQuotesIs(s[..|s| - 1]);
      assert s[..|s| - 1][front..front + |r|] == s[front..front + |r|];
    } else {
      front := 0;
    }
  }

  // ----- keys at the destination -----

  type Objects = map<string, Object>

  predicate EndsWithSlash(s: string) {
    s != "" && s[|s| - 1] == '/'
  }

  /** A destination that keeps source keys apart: a whole bucket or a prefix. */
  predicate IsContainer(path: string) {
    path == "" || EndsWithSlash(path)
  }

  /** The directory a destination's recursive listing works on. */
  function ListingDir(path: string): string {
    if IsContainer(path) then path else path + "/"
  }

  /** The path of the URL that lists a destination recursively. */
  function ListingPath(path: string): string {
    ListingDir(path) + "*"
  }

  function Absolute(bucket: string, path: string): string {
    "s3://" + bucket + (if path == "" then "" else "/" + path)
  }

  /** The relative key of a listed object; an empty one falls back to the absolute URL. */
  function RelativeKey(bucket: string, path: string, key: string): string {
    var r := ParseBatch(PrefixOf(ListingPath(path)), key);
    if r != "" then r else Absolute(bucket, key)
  }

  /** Where a source object of relative key `r` goes. */
  function DestinationKey(path: string, r: string): string {
    if IsContainer(path) then path + r else path
  }

  predicate Listed(store: Objects, path: string, key: string) {
    key in store && KeyMatches(ListingPath(path), key)
  }

  lemma StarAfterPlain(path: string)
    requires !HasGlob(path)
    ensures PrefixOf(path + "*") == path && HasGlob(path + "*")
  {
    assert (path + "*")[|path|] == '*';
  }

  /** Appending `*` to a wildcard-free path does not change what it lists. */
  lemma StarListing(path: string, key: string)
    requires !HasGlob(path)
    ensures KeyMatches(path + "*", key) <==> path <= key
  {
    StarAfterPlain(path);
    FilterMeansGlob(path + "*", key);
    FilterMeansGlob(path, key);
    PlainPathMatches(path, key);
  }

  lemma ListingDirIsPlain(path: string)
    requires !HasGlob(path)
    ensures !HasGlob(ListingDir(path)) && DirPart(ListingDir(path)) == ListingDir(path)
  {
    var dir := ListingDir(path);
    forall i | 0 <= i < |dir|
      ensures dir[i] !in GLOB_CHARACTERS
    {
      if i < |path| { assert dir[i] == path[i]; }
    }
    if dir != "" {
      var index := LastIndex(dir, '/');
      assert dir[..|dir|] == dir;
    }
  }

  /** A wildcard-free destination lists its directory's subtree, and relative keys rebuild keys. */
  lemma ListingOfPlain(store: Objects, bucket: string, path: string, key: string)
    requires !HasGlob(path)
    ensures var dir := ListingDir(path);
      && (Listed(store, path, key) <==> key in store && dir <= key)
      && (dir <= key && key != dir ==>
            RelativeKey(bucket, path, key) != "" && dir + RelativeKey(bucket, path, key) == key)
      && (key == dir ==> RelativeKey(bucket, path, key) == Absolute(bucket, dir))
  {
    var dir := ListingDir(path);
    ListingDirIsPlain(path);
    StarAfterPlain(dir);
    StarListing(dir, key);
    if dir <= key { ParseBatchRebuilds(dir, key); }
  }

  // ----- listings as maps -----

  /** `dest` holds the relative key of every listed, unfiltered object, with an object that has it. */
  ghost predicate IsDestMap(dest: map<string, string>, store: Objects, bucket: string, path: string, f: Filters) {
    && (forall r :: r in dest ==>
          Listed(store, path, dest[r]) && RelativeKey(bucket, path, dest[r]) == r && !ShouldSkip(f, r))
    && (forall k :: Listed(store, path, k) && !ShouldSkip(f, RelativeKey(bucket, path, k)) ==>
          RelativeKey(bucket, path, k) in dest)
  }

  /**
   * An object stored under the listed directory itself (a directory marker) is listed by its absolute
   * URL; this must not also be some object's relative key.
   */
  ghost predicate Unambiguous(store: Objects, bucket: string, path: string) {
    var dir := ListingDir(path);
    dir in store ==> dir + Absolute(bucket, dir) !in store
  }

  predicate ShareKey(store: Objects, bucket: string, path: string, k1: string, k2: string) {
    && Listed(store, path, k1) && Listed(store, path, k2)
    && RelativeKey(bucket, path, k1) == RelativeKey(bucket, path, k2)
  }

  lemma RelativeKeysDistinct(store: Objects, bucket: string, path: string, k1: string, k2: string)
    requires !HasGlob(path) && Unambiguous(store, bucket, path) && ShareKey(store, bucket, path, k1, k2)
    ensures k1 == k2
  {
    ListingOfPlain(store, bucket, path, k1);
    ListingOfPlain(store, bucket, path, k2);
  }

  /** Two listed objects share a relative key exactly when the directory's marker makes the listing ambiguous. */
  lemma KeysDistinctIff(store: Objects, bucket: string, path: string)
    requires !HasGlob(path)
    ensures Unambiguous(store, bucket, path) <==>
      !exists k1, k2 :: k1 != k2 && ShareKey(store, bucket, path, k1, k2)
  {
    if Unambiguous(store, bucket, path) {
      forall k1, k2 | ShareKey(store, bucket, path, k1, k2)
        ensures k1 == k2
      {
        RelativeKeysDistinct(store, bucket, path, k1, k2);
      }
    } else {
      var dir := ListingDir(path);
      var other := dir + Absolute(bucket, dir);
      ListingOfPlain(store, bucket, path, dir);
      ListingOfPlain(store, bucket, path, other);
      assert dir + RelativeKey(bucket, path, other) == other;
      assert other[|dir|..] == Absolute(bucket, dir);
      assert ShareKey(store, bucket, path, dir, other);
    }
  }

  /** Lists the destination recursively into a map keyed by relative path. */
  method CollectDestObjects(store: Objects, bucket: string, path: string, f: Filters)
    returns (dest: map<string, string>)
    ensures IsDestMap(dest, store, bucket, path, f)
  {
    dest := map[];
    var pending := set k | k in store && Listed(store, path, k);
    while pending != {}
      invariant forall k :: k in pending ==> Listed(store, path, k)
      invariant forall r :: r in dest ==>
        Listed(store, path, dest[r]) && RelativeKey(bucket, path, dest[r]) == r && !ShouldSkip(f, r)
      invariant forall k :: Listed(store, path, k) && k !in pending && !ShouldSkip(f, RelativeKey(bucket, path, k)) ==>
        RelativeKey(bucket, path, k) in dest
    {
      var k :| k in pending;
      var r := RelativeKey(bucket, path, k);
      if !ShouldSkip(f, r) {
        dest := dest[r := k];
      }
      pending := pending - {k};
    }
  }

  // ----- the plan -----

  /** A source key is copied when it is missing at the destination or changed by the strategy's measure. */
  predicate NeedsCopy(source: Objects, dest: map<string, string>, store: Objects, strategy: SyncStrategy, r: string) {
    r in source && (r in dest && dest[r] in store ==> ShouldSync(strategy, source[r], store[dest[r]]))
  }

  /** A destination key is deleted when it is listed there and absent from the source. */
  ghost predicate Orphan(source: Objects, dest: map<string, string>, k: string) {
    exists r :: r in dest && r !in source && dest[r] == k
  }

  /** What the planning loop produces. */
  ghost predicate IsPlan(
      toCopy: seq<string>, toDelete: seq<string>,
      source: Objects, dest: map<string, string>, store: Objects, strategy: SyncStrategy)
  {
    && NoDup(toCopy) && (forall r :: r in toCopy <==> NeedsCopy(source, dest, store, strategy, r))
    && NoDup(toDelete) && (forall k :: k in toDelete <==> Orphan(source, dest, k))
  }

  /** Walks the source map in any order, taking the common keys out of the destination map. */
  method PlanCopies(source: Objects, dest: map<string, string>, store: Objects, strategy: SyncStrategy)
    returns (toCopy: seq<string>, left: map<string, string>)
    requires forall r :: r in dest ==> dest[r] in store
    ensures NoDup(toCopy) && forall r :: r in toCopy <==> NeedsCopy(source, dest, store, strategy, r)
    ensures left == dest - source.Keys
  {
    toCopy, left := [], dest;
    var pending := source.Keys;
    while pending != {}
      invariant pending <= source.Keys && NoDup(toCopy)
      invariant forall r :: r in toCopy <==> r !in pending && NeedsCopy(source, dest, store, strategy, r)
      invariant left == dest - (source.Keys - pending)
    {
      var key :| key in pending;
      if key !in left || ShouldSync(strategy, source[key], store[left[key]]) {
        NoDupSnoc(toCopy, key);
        toCopy := toCopy + [key];
      }
      left := left - {key};
      pending := pending - {key};
    }
  }

  /** Whatever is left is only at the destination. */
  method PlanDeletes(left: map<string, string>) returns (toDelete: seq<string>)
    requires forall r1, r2 :: r1 in left && r2 in left && r1 != r2 ==> left[r1] != left[r2]
    ensures NoDup(toDelete) && forall k :: k in toDelete <==> exists r :: r in left && left[r] == k
  {
    toDelete := [];
    var pending := left.Keys;
    while pending != {}
      invariant pending <= left.Keys && NoDup(toDelete)
      invariant forall k :: k in toDelete <==> exists r :: r in left && r !in pending && left[r] == k
    {
      var r :| r in pending;
      assert left[r] !in Elems(toDelete);
      NoDupSnoc(toDelete, left[r]);
      toDelete := toDelete + [left[r]];
      pending := pending - {r};
    }
  }

  method Plan(source: Objects, dest: map<string, string>, store: Objects, strategy: SyncStrategy, delete: bool)
    returns (toCopy: seq<string>, toDelete: seq<string>)
    requires forall r :: r in dest ==> dest[r] in store
    requires forall r1, r2 :: r1 in dest && r2 in dest && r1 != r2 ==> dest[r1] != dest[r2]
    ensures NoDup(toCopy) && forall r :: r in toCopy <==> NeedsCopy(source, dest, store, strategy, r)
    ensures if delete then IsPlan(toCopy, toDelete, source, dest, store, strategy) else toDelete == []
  {
    var left;
    toCopy, left := PlanCopies(source, dest, store, strategy);
    toDelete := [];
    if delete {
      toDelete := PlanDeletes(left);
      assert forall r :: r in left <==> r in dest && r !in source;
    }
  }

  // ----- execution -----

  /** The bucket after the copies, in completion order; `result` is each object as it is stored. */
  function AfterCopies(store: Objects, copies: seq<string>, path: string, result: Objects): Objects {
    if copies == [] then store
    else
      var s := AfterCopies(store, copies[..|copies| - 1], path, result);
      var r := copies[|copies| - 1];
      if r in result then s[DestinationKey(path, r) := result[r]] else s
  }

  function AfterDeletes(store: Objects, deletes: seq<string>): Objects {
    if deletes == [] then store
    else AfterDeletes(store, deletes[..|deletes| - 1]) - {deletes[|deletes| - 1]}
  }

  lemma {:induction false} AfterCopiesContents(
      store: Objects, copies: seq<string>, path: string, result: Objects, k: string)
    requires IsContainer(path) && forall r :: r in copies ==> r in result
    ensures var s := AfterCopies(store, copies, path, result);
      if path <= k && k[|path|..] in copies then k in s && s[k] == result[k[|path|..]]
      else (k in s <==> k in store) && (k in s ==> s[k] == store[k])
  {
    if copies != [] {
      var rest, r := copies[..|copies| - 1], copies[|copies| - 1];
      assert forall x :: x in copies <==> x in rest || x == r;
      AfterCopiesContents(store, rest, path, result, k);
      assert path <= k ==> k == path + k[|path|..];
      assert (path + r)[|path|..] == r;
    }
  }

  lemma {:induction false} AfterDeletesContents(store: Objects, deletes: seq<string>, k: string)
    ensures var s := AfterDeletes(store, deletes);
      (k in s <==> k in store && k !in deletes) && (k in s ==> s[k] == store[k])
  {
    if deletes != [] {
      AfterDeletesContents(store, deletes[..|deletes| - 1], k);
      assert forall x :: x in deletes <==> x in deletes[..|deletes| - 1] || x == deletes[|deletes| - 1];
    }
  }

  /** One sync command: the listed source, the destination, and each source object as a copy stores it. */
  datatype Job = Job(
    source: Objects, bucket: string, path: string, filters: Filters, strategy: SyncStrategy, result: Objects)

  /** One run: the listing it planned from, what it copied and deleted, and the bucket after it. */
  datatype Round = Round(
    before: Objects, listing: map<string, string>, copies: seq<string>, deletes: seq<string>, after: Objects)

  /** The job syncs into a wildcard-free bucket or prefix, and copies keep sizes. */
  ghost predicate Supported(j: Job, store: Objects) {
    && IsContainer(j.path) && !HasGlob(j.path)
    && Unambiguous(store, j.bucket, j.path) && (j.path in store ==> Absolute(j.bucket, j.path) !in j.source)
    && (forall r :: r in j.source ==> r != "" && !ShouldSkip(j.filters, r))
    && (forall r :: r in j.source ==> r in j.result && j.result[r].size == j.source[r].size)
  }

  /** Some of the planned copies took effect, then some of the planned deletes: what any run leaves. */
  ghost predicate Partial(j: Job, x: Round) {
    && IsDestMap(x.listing, x.before, j.bucket, j.path, j.filters)
    && (forall r :: r in x.copies ==> NeedsCopy(j.source, x.listing, x.before, j.strategy, r))
    && (forall k :: k in x.deletes ==> Orphan(j.source, x.listing, k))
    && x.after == AfterDeletes(AfterCopies(x.before, x.copies, j.path, j.result), x.deletes)
  }

  /** Every planned copy took effect, in any order: what an error-free run leaves, with deletes or without. */
  ghost predicate AllCopied(j: Job, x: Round) {
    && Partial(j, x) && NoDup(x.copies)
    && forall r :: NeedsCopy(j.source, x.listing, x.before, j.strategy, r) ==> r in x.copies
  }

  /** An error-free run with deletes: all copies, then all deletes, each in any order. */
  ghost predicate ErrorFree(j: Job, x: Round) {
    && AllCopied(j, x) && NoDup(x.deletes)
    && forall k :: Orphan(j.source, x.listing, k) ==> k in x.deletes
  }

  lemma AfterContents(j: Job, x: Round, k: string)
    requires Supported(j, x.before) && Partial(j, x)
    ensures k in x.deletes ==> k !in x.after
    ensures k !in x.deletes && j.path <= k && k[|j.path|..] in x.copies ==>
      k in x.after && x.after[k] == j.result[k[|j.path|..]]
    ensures k !in x.deletes && !(j.path <= k && k[|j.path|..] in x.copies) ==>
      (k in x.after <==> k in x.before) && (k in x.after ==> x.after[k] == x.before[k])
  {
    AfterCopiesContents(x.before, x.copies, j.path, j.result, k);
    AfterDeletesContents(AfterCopies(x.before, x.copies, j.path, j.result), x.deletes, k);
  }

  /** No copy writes the destination's own marker. */
  lemma MarkerIsOld(j: Job, x: Round)
    requires Supported(j, x.before) && Partial(j, x)
    ensures j.path in x.after ==> j.path in x.before
  {
    AfterContents(j, x, j.path);
    assert j.path[|j.path|..] == "";
  }

  /** A source object ends up at its destination key, with deletes or without: as copied, or as it already was. */
  lemma SourceKeyArrives(j: Job, x: Round, r: string)
    requires Supported(j, x.before) && AllCopied(j, x) && r in j.source
    ensures j.path + r in x.after
    ensures r in x.copies ==> x.after[j.path + r] == j.result[r]
    ensures r !in x.copies ==> !ShouldSync(j.strategy, j.source[r], x.after[j.path + r])
  {
    var k := j.path + r;
    assert j.path <= k && k[|j.path|..] == r && k != j.path;
    ListingOfPlain(x.before, j.bucket, j.path, k);
    AfterContents(j, x, k);
    assert RelativeKey(j.bucket, j.path, k) == r;
    assert !Orphan(j.source, x.listing, k);
    if r !in x.copies {
      assert r in x.listing && x.listing[r] in x.before;
      ListingOfPlain(x.before, j.bucket, j.path, x.listing[r]);
      assert x.listing[r] == k;
    }
  }

  /** Every source object is at its destination key: as copied, or as it already was in sync. */
  ghost predicate Arrived(j: Job, x: Round) {
    forall r :: r in j.source ==>
      && j.path + r in x.after
      && if r in x.copies then r in j.result && x.after[j.path + r] == j.result[r]
         else !ShouldSync(j.strategy, j.source[r], x.after[j.path + r])
  }

  lemma AllArrive(j: Job, x: Round)
    requires Supported(j, x.before) && AllCopied(j, x)
    ensures Arrived(j, x)
  {
    forall r | r in j.source
      ensures j.path + r in x.after
      ensures r in x.copies ==> x.after[j.path + r] == j.result[r]
      ensures r !in x.copies ==> !ShouldSync(j.strategy, j.source[r], x.after[j.path + r])
    {
      SourceKeyArrives(j, x, r);
    }
  }

  /** Every other unfiltered key under the destination is gone. */
  lemma OtherKeyGone(j: Job, x: Round, k: string)
    requires Supported(j, x.before) && ErrorFree(j, x)
    requires j.path <= k && !ShouldSkip(j.filters, RelativeKey(j.bucket, j.path, k)) && k[|j.path|..] !in j.source
    ensures k !in x.after
  {
    ListingOfPlain(x.before, j.bucket, j.path, k);
    AfterContents(j, x, k);
    assert k[|j.path|..] !in x.copies;
    if k in x.before {
      var rel := RelativeKey(j.bucket, j.path, k);
      RelativeKeysDistinct(x.before, j.bucket, j.path, x.listing[rel], k);
      if k != j.path { assert j.path + rel == k && k[|j.path|..] == rel; }
      assert rel !in j.source;
      assert Orphan(j.source, x.listing, k);
    }
  }

  /** For every destination, whatever fails: a key no source object goes to, and that is not listed or is skipped,
      is never touched. */
  lemma UnplannedKeyUntouched(j: Job, x: Round, k: string)
    requires Partial(j, x) && forall r :: r in j.source ==> DestinationKey(j.path, r) != k
    requires Listed(x.before, j.path, k) ==> ShouldSkip(j.filters, RelativeKey(j.bucket, j.path, k))
    ensures (k in x.after <==> k in x.before) && (k in x.after ==> x.after[k] == x.before[k])
  {
    CopiesWriteTargets(x.before, x.copies, j.path, j.result, k);
    AfterDeletesContents(AfterCopies(x.before, x.copies, j.path, j.result), x.deletes, k);
    assert !Orphan(j.source, x.listing, k);
  }

  lemma {:induction false} CopiesWriteTargets(
      store: Objects, copies: seq<string>, path: string, result: Objects, k: string)
    requires forall r :: r in copies ==> DestinationKey(path, r) != k
    ensures var s := AfterCopies(store, copies, path, result);
      (k in s <==> k in store) && (k in s ==> s[k] == store[k])
  {
    if copies != [] {
      CopiesWriteTargets(store, copies[..|copies| - 1], path, result, k);
    }
  }

  /** Whatever fails, keys outside the destination and keys the filters skip are never touched. */
  lemma UnrelatedKeyUntouched(j: Job, x: Round, k: string)
    requires Supported(j, x.before) && Partial(j, x)
    requires j.path <= k ==> ShouldSkip(j.filters, RelativeKey(j.bucket, j.path, k))
    ensures (k in x.after <==> k in x.before) && (k in x.after ==> x.after[k] == x.before[k])
  {
    ListingOfPlain(x.before, j.bucket, j.path, k);
    AfterContents(j, x, k);
    assert !Orphan(j.source, x.listing, k);
    if j.path <= k {
      assert j.path + k[|j.path|..] == k;
      assert k[|j.path|..] !in j.source;
    }
  }

  /** Whatever fails, the destination object of a source key never disappears: it is as before or as copied. */
  lemma SourceKeySurvives(j: Job, x: Round, r: string)
    requires Supported(j, x.before) && Partial(j, x) && r in j.source && j.path + r in x.before
    ensures j.path + r in x.after
    ensures x.after[j.path + r] == x.before[j.path + r] || (r in x.copies && x.after[j.path + r] == j.result[r])
  {
    var k := j.path + r;
    assert j.path <= k && k[|j.path|..] == r && k != j.path;
    ListingOfPlain(x.before, j.bucket, j.path, k);
    AfterContents(j, x, k);
    assert !Orphan(j.source, x.listing, k);
  }

  lemma SourceKeyRelisted(j: Job, x: Round, relisted: map<string, string>, r: string)
    requires Supported(j, x.before) && AllCopied(j, x) && r in j.source
    requires IsDestMap(relisted, x.after, j.bucket, j.path, j.filters)
    ensures r in relisted && relisted[r] == j.path + r
  {
    var k := j.path + r;
    SourceKeyArrives(j, x, r);
    assert j.path <= k && k[|j.path|..] == r && k != j.path;
    ListingOfPlain(x.after, j.bucket, j.path, k);
    assert RelativeKey(j.bucket, j.path, k) == r;
    MarkerIsOld(j, x);
    ListingOfPlain(x.after, j.bucket, j.path, relisted[r]);
  }

  lemma RelistedIsSource(j: Job, x: Round, relisted: map<string, string>, r: string)
    requires Supported(j, x.before) && ErrorFree(j, x) && r in relisted
    requires IsDestMap(relisted, x.after, j.bucket, j.path, j.filters)
    ensures r in j.source
  {
    var k := relisted[r];
    ListingOfPlain(x.after, j.bucket, j.path, k);
    if k[|j.path|..] !in j.source { OtherKeyGone(j, x, k); }
    if k != j.path { assert j.path + r == k && k[|j.path|..] == r; }
  }

  /**
   * Sync converges: after an error-free run with deletes, listing the destination again gives
   * exactly the source keys at their destination keys, every object either as copied or already
   * in sync by the strategy.
   */
  lemma SyncConverges(j: Job, x: Round, relisted: map<string, string>)
    requires Supported(j, x.before) && ErrorFree(j, x)
    requires IsDestMap(relisted, x.after, j.bucket, j.path, j.filters)
    ensures relisted.Keys == j.source.Keys
    ensures Arrived(j, x) && forall r :: r in j.source ==> relisted[r] == j.path + r
  {
    forall r
      ensures r in relisted <==> r in j.source
      ensures r in j.source ==> relisted[r] == j.path + r
    {
      if r in j.source { SourceKeyRelisted(j, x, relisted, r); }
      if r in relisted { RelistedIsSource(j, x, relisted, r); }
    }
    AllArrive(j, x);
  }

  /**
   * A second run then deletes nothing and copies only what was just copied and still differs by
   * the strategy's measure; comparing sizes, it copies nothing at all.
   */
  lemma SecondRunIsIdle(j: Job, x: Round, y: Round)
    requires Supported(j, x.before) && ErrorFree(j, x)
    requires y.before == x.after && ErrorFree(j, y)
    ensures y.deletes == []
    ensures forall r :: r in y.copies <==> r in x.copies && ShouldSync(j.strategy, j.source[r], j.result[r])
    ensures j.strategy == SizeOnly ==> y.copies == [] && y.after == x.after
    ensures j.strategy == SizeOnly ==> forall r :: r in j.source ==>
      j.path + r in x.after && x.after[j.path + r].size == j.source[r].size
  {
    SyncConverges(j, x, y.listing);
    SecondCopyIsIdle(j, x, y);
    SomeMember(y.deletes);
  }

  /**
   * A source object is left uncopied exactly when the destination already has an object at its key that is in
   * sync: of the same size; of the same size and no older; or of the same plain tag, by strategy.
   */
  lemma LeftUncopiedIff(j: Job, x: Round, r: string)
    requires Supported(j, x.before) && AllCopied(j, x) && r in j.source
    ensures r !in x.copies <==>
      j.path + r in x.before &&
      match j.strategy
      case SizeOnly => j.source[r].size == x.before[j.path + r].size
      case SizeAndModification =>
        j.source[r].size == x.before[j.path + r].size && NotNewer(j.source[r], x.before[j.path + r])
      case Checksum => SamePlainTag(j.source[r], x.before[j.path + r])
  {
    var k := j.path + r;
    assert j.path <= k && k[|j.path|..] == r && k != j.path;
    ListingOfPlain(x.before, j.bucket, j.path, k);
    assert RelativeKey(j.bucket, j.path, k) == r;
    if r in x.listing { ListingOfPlain(x.before, j.bucket, j.path, x.listing[r]); }
    if k in x.before { InSyncIff(j.strategy, j.source[r], x.before[k]); }
  }

  /** After an error-free run by sizes, with times or without, every source object's size is the destination's. */
  lemma SizesAgree(j: Job, x: Round, r: string)
    requires Supported(j, x.before) && AllCopied(j, x) && r in j.source && j.strategy != Checksum
    ensures j.path + r in x.after && x.after[j.path + r].size == j.source[r].size
  {
    SourceKeyArrives(j, x, r);
    if r !in x.copies { InSyncIff(j.strategy, j.source[r], x.after[j.path + r]); }
  }

  // ----- runs without deletes -----

  /**
   * Without deletes the destination then lists the source keys and what it listed before: every source
   * object at its destination key, as copied or already in sync, and every other object as it was.
   */
  lemma CopiesConverge(j: Job, x: Round, relisted: map<string, string>)
    requires Supported(j, x.before) && AllCopied(j, x) && x.deletes == []
    requires IsDestMap(relisted, x.after, j.bucket, j.path, j.filters)
    ensures relisted.Keys == j.source.Keys + x.listing.Keys
    ensures Arrived(j, x) && forall r :: r in j.source ==> relisted[r] == j.path + r
    ensures forall k :: k in x.before && (forall r :: r in j.source ==> j.path + r != k) ==>
      k in x.after && x.after[k] == x.before[k]
  {
    forall r
      ensures r in relisted <==> r in j.source || r in x.listing
      ensures r in j.source ==> relisted[r] == j.path + r
    {
      if r in j.source { SourceKeyRelisted(j, x, relisted, r); }
      else { OtherKeyStaysListed(j, x, relisted, r); }
    }
    AllArrive(j, x);
    forall k | k in x.before && forall r :: r in j.source ==> j.path + r != k
      ensures k in x.after && x.after[k] == x.before[k]
    {
      CopiesWriteTargets(x.before, x.copies, j.path, j.result, k);
    }
  }

  /** A relative key outside the source is listed after a run without deletes exactly when it was before. */
  lemma OtherKeyStaysListed(j: Job, x: Round, relisted: map<string, string>, r: string)
    requires Supported(j, x.before) && Partial(j, x) && x.deletes == [] && r !in j.source
    requires IsDestMap(relisted, x.after, j.bucket, j.path, j.filters)
    ensures r in relisted <==> r in x.listing
  {
    if r in x.listing { AfterContents(j, x, x.listing[r]); }
    if r in relisted {
      var k := relisted[r];
      ListingOfPlain(x.after, j.bucket, j.path, k);
      AfterContents(j, x, k);
      MarkerIsOld(j, x);
      assert k != j.path ==> k[|j.path|..] == r;
      assert Listed(x.before, j.path, k);
    }
  }

  /** A second run copies exactly what was just copied and still differs; comparing sizes, it copies nothing. */
  lemma SecondCopyIsIdle(j: Job, x: Round, y: Round)
    requires Supported(j, x.before) && AllCopied(j, x)
    requires y.before == x.after && AllCopied(j, y)
    ensures forall r :: r in y.copies <==> r in x.copies && ShouldSync(j.strategy, j.source[r], j.result[r])
    ensures j.strategy == SizeOnly ==> y.copies == []
    ensures j.strategy == SizeOnly && y.deletes == [] ==> y.after == x.after
  {
    forall r | r in j.source
      ensures r in y.copies <==> r in x.copies && ShouldSync(j.strategy, j.source[r], j.result[r])
    {
      SourceKeyArrives(j, x, r);
      SourceKeyRelisted(j, x, y.listing, r);
    }
    SomeMember(y.copies);
  }

  // ----- destinations that do not keep keys apart -----

  /** Every source object is copied to the one destination key, so the last copy stays. */
  lemma LastCopyStays(j: Job, x: Round)
    requires !IsContainer(j.path) && !HasGlob(j.path) && Partial(j, x) && x.copies != []
    requires x.copies[|x.copies| - 1] in j.result
    ensures j.path in x.after && x.after[j.path] == j.result[x.copies[|x.copies| - 1]]
  {
    AfterDeletesContents(AfterCopies(x.before, x.copies, j.path, j.result), x.deletes, j.path);
    ListingOfPlain(x.before, j.bucket, j.path, j.path);
    assert !Orphan(j.source, x.listing, j.path);
  }

  /** What is listed after an error-free run into such a destination: the undeleted part of what was. */
  lemma ListedAfterRun(j: Job, x: Round, k: string)
    requires !IsContainer(j.path) && !HasGlob(j.path) && AllCopied(j, x)
    ensures Listed(x.after, j.path, k) <==> Listed(x.before, j.path, k) && k !in x.deletes
    ensures Listed(x.after, j.path, k) ==> x.after[k] == x.before[k]
  {
    ListingOfPlain(x.before, j.bucket, j.path, k);
    ListingOfPlain(x.after, j.bucket, j.path, k);
    AfterDeletesContents(AfterCopies(x.before, x.copies, j.path, j.result), x.deletes, k);
    if k != j.path { CopiesWriteTargets(x.before, x.copies, j.path, j.result, k); }
  }

  /**
   * Into a destination that is neither a bucket nor ends in a slash every source object is copied to
   * the one destination key, which the listing does not show: the next run copies exactly what this one
   * copied. So a run converges exactly when nothing needed copying before it.
   */
  lemma NonContainerRepeats(j: Job, x: Round, relisted: map<string, string>)
    requires !IsContainer(j.path) && !HasGlob(j.path) && Unambiguous(x.before, j.bucket, j.path)
    requires AllCopied(j, x) && IsDestMap(relisted, x.after, j.bucket, j.path, j.filters)
    ensures forall r :: NeedsCopy(j.source, relisted, x.after, j.strategy, r) <==> r in x.copies
    ensures (forall r :: !NeedsCopy(j.source, relisted, x.after, j.strategy, r)) <==> x.copies == []
  {
    forall r | r in j.source
      ensures r in relisted <==> r in x.listing
      ensures r in relisted ==> SameEntry(x, relisted, r)
    {
      NonContainerKeepsEntry(j, x, relisted, r);
    }
    SomeMember(x.copies);
  }

  /** Both listings have the entry, with the same stored object. */
  predicate SameEntry(x: Round, relisted: map<string, string>, r: string) {
    && r in relisted && r in x.listing && x.listing[r] in x.before && relisted[r] in x.after
    && x.after[relisted[r]] == x.before[x.listing[r]]
  }

  /** The listing entry of a source key is neither written nor deleted. */
  lemma NonContainerKeepsEntry(j: Job, x: Round, relisted: map<string, string>, r: string)
    requires !IsContainer(j.path) && !HasGlob(j.path) && Unambiguous(x.before, j.bucket, j.path)
    requires AllCopied(j, x) && IsDestMap(relisted, x.after, j.bucket, j.path, j.filters) && r in j.source
    ensures r in relisted <==> r in x.listing
    ensures r in relisted ==> SameEntry(x, relisted, r)
  {
    if r in x.listing {
      var k := x.listing[r];
      assert !Orphan(j.source, x.listing, k);
      ListedAfterRun(j, x, k);
    }
    if r in relisted {
      var k := relisted[r];
      ListedAfterRun(j, x, k);
      if r in x.listing { RelativeKeysDistinct(x.before, j.bucket, j.path, k, x.listing[r]); }
    }
  }
}
