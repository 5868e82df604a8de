/** Object URLs: the listing prefix, the compiled key filter, relative keys and joining. */
module Url {
  import opened Prelude
  import opened Strutil

  const GLOB_CHARACTERS: string := "?*"
  const MATCH_ALL_RE: string := ".*"

  predicate HasGlob(s: string) {
    exists i :: 0 <= i < |s| && s[i] in GLOB_CHARACTERS
  }

  /** Where the first wildcard stands; the length when there is none. */
  function GlobStart(s: string): (n: nat)
    ensures n <= |s| && !HasGlob(s[..n])
    ensures n < |s| <==> HasGlob(s)
    ensures n < |s| ==> s[n] in GLOB_CHARACTERS
  {
    if s == "" then 0
    else if s[0] in GLOB_CHARACTERS then 0
    else
      var n := GlobStart(s[1..]);
      assert forall i :: 0 <= i < n ==> s[1..][..n][i] == s[..n + 1][i + 1];
      assert HasGlob(s) ==> HasGlob(s[1..]);
      n + 1
  }

  function PrefixOf(path: string): string {
    path[..GlobStart(path)]
  }

  function FilterOf(path: string): string {
    path[GlobStart(path)..]
  }

  /** The prefix is everything before the first wildcard character, the filter everything from it on. */
  lemma PrefixIsLongest(path: string)
    ensures PrefixOf(path) + FilterOf(path) == path
    ensures forall i :: 0 <= i < |PrefixOf(path)| ==> path[i] != '?' && path[i] != '*'
    ensures FilterOf(path) != "" ==> FilterOf(path)[0] == '?' || FilterOf(path)[0] == '*'
  {
    var n := GlobStart(path);
    forall i | 0 <= i < n
      ensures path[i] != '?' && path[i] != '*'
    {
      assert path[..n][i] == path[i];
    }
  }

  /** The text handed to the regular-expression engine for a prefix and a filter. */
  function FilterText(prefix: string, filter: string): string {
    AddNewlineFlag(MatchFromStartToEnd(
      Escape(prefix) + (if filter == "" then MATCH_ALL_RE else WildcardToRegexp(filter))))
  }

  /** Whether a URL with this path lets the key through. */
  predicate KeyMatches(path: string, key: string) {
    RegexMatches(FilterText(PrefixOf(path), FilterOf(path)), key)
  }

  lemma {:induction false} CompiledConcat(a: string, b: string)
    ensures Compiled(a + b) == Compiled(a) + Compiled(b)
  {
    if a == "" {
      assert a + b == b;
    } else {
      assert (a + b)[1..] == a[1..] + b;
      CompiledConcat(a[1..], b);
    }
  }

  lemma {:induction false} EscapeIsCompiled(s: string)
    requires !HasGlob(s)
    ensures Escape(s) == Compiled(s)
  {
    if s != "" {
      assert s[0] !in GLOB_CHARACTERS;
      assert !HasGlob(s[1..]);
      EscapeIsCompiled(s[1..]);
      assert s[0] != '?' && s[0] != '*';
    }
  }

  /** The glob a path stands for: itself, or everything under it when it has no wildcard. */
  function GlobOf(path: string): string {
    if HasGlob(path) then path else path + "*"
  }

  /** A missing filter is a `*`. */
  function Tail(filter: string): string {
    if filter == "" then "*" else filter
  }

  lemma GlobSplits(path: string)
    ensures GlobOf(path) == PrefixOf(path) + Tail(FilterOf(path)) && !HasGlob(PrefixOf(path))
  {
    assert path == PrefixOf(path) + FilterOf(path);
  }

  lemma BodyIsCompiled(prefix: string, filter: string)
    requires !HasGlob(prefix)
    ensures Escape(prefix) + (if filter == "" then MATCH_ALL_RE else WildcardToRegexp(filter))
         == Compiled(prefix + Tail(filter))
  {
    EscapeIsCompiled(prefix);
    CompiledConcat(prefix, Tail(filter));
    if filter == "" {
      assert "*"[1..] == "";
      assert Compiled("*") == ".*" + Compiled("");
    } else {
      CompilerEmits(filter);
    }
  }

  /** A URL's filter means the glob of its path; the regular expression always compiles. */
  lemma FilterMeansGlob(path: string, key: string)
    ensures ParseRegex(FilterText(PrefixOf(path), FilterOf(path))).Some?
    ensures KeyMatches(path, key) <==> GlobMatch(GlobOf(path), key)
  {
    GlobSplits(path);
    BodyIsCompiled(PrefixOf(path), FilterOf(path));
    AnchoredText(Compiled(GlobOf(path)));
    ParseCompiled(GlobOf(path));
    PiecesMeanGlob(GlobOf(path), key);
  }

  /** A wildcard-free beginning of a glob is matched literally. */
  lemma {:induction false} GlobKeepsPrefix(prefix: string, tail: string, key: string)
    requires !HasGlob(prefix)
    ensures GlobMatch(prefix + tail, key) <==> prefix <= key && GlobMatch(tail, key[|prefix|..])
  {
    if prefix == "" {
      assert prefix + tail == tail;
    } else {
      assert prefix[0] !in GLOB_CHARACTERS && prefix[0] != '?' && prefix[0] != '*';
      assert (prefix + tail)[1..] == prefix[1..] + tail;
      assert !HasGlob(prefix[1..]);
      if key != "" {
        GlobKeepsPrefix(prefix[1..], tail, key[1..]);
        assert prefix <= key <==> prefix[0] == key[0] && prefix[1..] <= key[1..] by {
          if prefix[0] == key[0] && prefix[1..] <= key[1..] {
            assert prefix == [prefix[0]] + prefix[1..] && key == [key[0]] + key[1..];
          }
        }
        assert |prefix| <= |key| ==> key[1..][|prefix| - 1..] == key[|prefix|..];
      }
    }
  }

  /** Every accepted key starts with the listing prefix. */
  lemma MatchHasPrefix(path: string, key: string)
    requires KeyMatches(path, key)
    ensures PrefixOf(path) <= key
  {
    FilterMeansGlob(path, key);
    GlobSplits(path);
    GlobKeepsPrefix(PrefixOf(path), Tail(FilterOf(path)), key);
  }

  /** Listing by prefix and then filtering gives what filtering the whole bucket gives. */
  lemma PrefixListingIsComplete(path: string, bucket: set<string>)
    ensures (set k | k in bucket && PrefixOf(path) <= k && KeyMatches(path, k))
         == (set k | k in bucket && KeyMatches(path, k))
  {
    forall k | k in bucket && KeyMatches(path, k)
      ensures PrefixOf(path) <= k
    {
      MatchHasPrefix(path, k);
    }
  }

  /** A path without wildcards lets through exactly the keys it is a prefix of. */
  lemma PlainPathMatches(path: string, key: string)
    requires !HasGlob(path)
    ensures KeyMatches(path, key) <==> path <= key
  {
    FilterMeansGlob(path, key);
    GlobKeepsPrefix(path, "*", key);
    if path <= key {
      var rest := key[|path|..];
      assert GlobMatch("*"[1..], rest[|rest|..]);
    }
  }

  // ----- relative keys -----

  /** The position of the last `c`, if any. */
  function LastIndex(s: string, c: char): (r: Option<nat>)
    ensures r.Some? ==> r.value < |s| && s[r.value] == c
    ensures forall i :: (if r.Some? then r.value else -1) < i < |s| ==> s[i] != c
  {
    if s == "" then None
    else if s[|s| - 1] == c then Some(|s| - 1)
    else LastIndex(s[..|s| - 1], c)
  }

  function FirstIndex(s: string, c: char): (r: Option<nat>)
    ensures r.Some? ==> r.value < |s| && s[r.value] == c
    ensures forall i :: 0 <= i < (if r.Some? then r.value else |s|) ==> s[i] != c
  {
    if s == "" then None
    else if s[0] == c then Some(0)
    else
      var r := FirstIndex(s[1..], c);
      assert forall i :: 1 <= i < |s| ==> s[i] == s[1..][i - 1];
      if r.Some? then Some(r.value + 1) else None
  }

  function StripPrefix(s: string, p: string): string {
    if p <= s then s[|p|..] else s
  }

  /** The relative key of a wildcard listing: what follows the last `/` of the prefix. */
  function ParseBatch(prefix: string, key: string): string {
    var index := LastIndex(prefix, '/');
    if index.None? then key
    else if !(prefix <= key) then key
    else StripPrefix(key[index.value..], "/")
  }

  /** The relative key of a listing without wildcards. */
  function ParseNonBatch(prefix: string, key: string): string {
    if !(prefix <= key) then key
    else
      var loc := LastIndex(StripSlash(key), '/');
      if loc.None? then key
      else if loc.value < |prefix| then StripPrefix(key[loc.value..], "/")
      else
        var stripped := StripPrefix(StripPrefix(key, prefix), "/");
        var i := FirstIndex(stripped, '/');
        if i.Some? && i.value + 1 < |stripped| then stripped[..i.value + 1] else stripped
  }

  /** The directory part of a prefix: everything up to and including its last `/`. */
  function DirPart(prefix: string): string {
    var index := LastIndex(prefix, '/');
    if index.None? then "" else prefix[..index.value + 1]
  }

  /** The directory part of the prefix followed by the relative key is the key again. */
  lemma ParseBatchRebuilds(prefix: string, key: string)
    requires prefix <= key
    ensures DirPart(prefix) + ParseBatch(prefix, key) == key
  {
    var index := LastIndex(prefix, '/');
    if index.Some? {
      assert key[index.value] == prefix[index.value] == '/';
      assert key[index.value..][1..] == key[index.value + 1..];
    }
  }

  /**
   * `r` is one path component of `key`, with its slash when it has one: it begins at a component's
   * start or at the end of the prefix, and reaches past the prefix or to the end of the key.
   */
  predicate ComponentAt(prefix: string, key: string, start: nat, r: string) {
    && start + |r| <= |key| && key[start..start + |r|] == r
    && (forall i :: 0 <= i < |r| - 1 ==> r[i] != '/')
    && (start == 0 || key[start - 1] == '/' || start == |prefix|)
    && (start + |r| == |key| || (r != "" && r[|r| - 1] == '/'))
    && start <= |prefix| + 1 && (start + |r| > |prefix| || start + |r| == |key|)
  }

  /** `key` without one trailing slash. */
  function StripSlash(key: string): string {
    if key != "" && key[|key| - 1] == '/' then key[..|key| - 1] else key
  }

  /** What follows the last slash inside the key is one component. */
  lemma LastComponent(prefix: string, key: string, start: nat)
    requires start <= |StripSlash(key)| && start <= |prefix| + 1 && (start == 0 || key[start - 1] == '/')
    requires forall i :: start <= i < |StripSlash(key)| ==> key[i] != '/'
    ensures ComponentAt(prefix, key, start, key[start..])
  {
    var r := key[start..];
    forall i | 0 <= i < |r| - 1
      ensures r[i] != '/'
    {
      assert r[i] == key[start + i];
    }
  }

  /** Where the relative key of a listing without wildcards stands in the key. */
  function ComponentStart(prefix: string, key: string): nat {
    var loc := LastIndex(StripSlash(key), '/');
    if loc.None? then 0
    else if loc.value < |prefix| then loc.value + 1
    else if |prefix| < |key| && key[|prefix|] == '/' then |prefix| + 1 else |prefix|
  }

  lemma EndingComponent(prefix: string, key: string)
    requires prefix <= key
    requires var loc := LastIndex(StripSlash(key), '/'); loc.None? || loc.value < |prefix|
    ensures ComponentAt(prefix, key, ComponentStart(prefix, key), key[ComponentStart(prefix, key)..])
    ensures ParseNonBatch(prefix, key) == key[ComponentStart(prefix, key)..]
  {
    var parsed := StripSlash(key);
    var loc := LastIndex(parsed, '/');
    assert forall i :: 0 <= i < |parsed| ==> parsed[i] == key[i];
    LastComponent(prefix, key, ComponentStart(prefix, key));
    if loc.None? {
      assert key[0..] == key;
    } else {
      assert key[loc.value..][1..] == key[loc.value + 1..];
    }
  }

  /** The relative key of a listing without wildcards is the component that follows or ends the prefix. */
  lemma ParseNonBatchIsComponent(prefix: string, key: string)
    requires prefix <= key
    ensures ComponentAt(prefix, key, ComponentStart(prefix, key), ParseNonBatch(prefix, key))
  {
    var loc := LastIndex(StripSlash(key), '/');
    if loc.None? || loc.value < |prefix| {
      EndingComponent(prefix, key);
    } else {
      FollowingComponent(prefix, key, ComponentStart(prefix, key));
    }
  }

  /** What is left of the key after the prefix and one slash. */
  lemma FollowingPart(prefix: string, key: string, start: nat)
    requires prefix <= key && |prefix| < |key| && start == (if key[|prefix|] == '/' then |prefix| + 1 else |prefix|)
    ensures StripPrefix(StripPrefix(key, prefix), "/") == key[start..]
  {
    var rest := key[|prefix|..];
    assert rest[0] == key[|prefix|];
    assert rest[1..] == key[|prefix| + 1..];
    assert "/" <= rest <==> rest[0] == '/';
  }

  /** A beginning of a key's rest whose slashes, if any, are at its end or follow it is one component. */
  lemma SlicedComponent(prefix: string, key: string, start: nat, length: nat)
    requires 0 < length && start + length <= |key| && |prefix| <= start <= |prefix| + 1
    requires start == |prefix| || key[start - 1] == '/'
    requires forall i :: 0 <= i < length - 1 ==> key[start..][i] != '/'
    requires start + length == |key| || key[start..][length - 1] == '/'
    ensures ComponentAt(prefix, key, start, key[start..][..length])
  {
    var r := key[start..][..length];
    assert r == key[start..start + length];
    assert r[|r| - 1] == key[start..][length - 1];
  }

  lemma FollowingComponent(prefix: string, key: string, start: nat)
    requires prefix <= key && |prefix| < |key| && start == (if key[|prefix|] == '/' then |prefix| + 1 else |prefix|)
    requires start < |key|
    ensures var stripped := StripPrefix(StripPrefix(key, prefix), "/");
      && stripped == key[start..]
      && (var i := FirstIndex(stripped, '/');
          ComponentAt(prefix, key, start,
            if i.Some? && i.value + 1 < |stripped| then stripped[..i.value + 1] else stripped))
  {
    FollowingPart(prefix, key, start);
    var stripped := key[start..];
    var i := FirstIndex(stripped, '/');
    var length := if i.Some? && i.value + 1 < |stripped| then i.value + 1 else |stripped|;
    SlicedComponent(prefix, key, start, length);
    assert stripped[..|stripped|] == stripped;
  }

  /** The relative key of an accepted key: it rebuilds the key, or is its component at the prefix. */
  lemma AcceptedRelative(path: string, key: string)
    requires KeyMatches(path, key)
    ensures HasGlob(path) ==> DirPart(PrefixOf(path)) + ParseBatch(PrefixOf(path), key) == key
    ensures ComponentAt(PrefixOf(path), key, ComponentStart(PrefixOf(path), key), ParseNonBatch(PrefixOf(path), key))
  {
    MatchHasPrefix(path, key);
    ParseBatchRebuilds(PrefixOf(path), key);
    ParseNonBatchIsComponent(PrefixOf(path), key);
  }

  class Url {
    const bucket: string
    const raw: bool
    var path: string
    var prefix: string
    var delimiter: string
    var filter: string
    var relativePath: string
    var filterRegex: Option<string>

    /** `Url::new` for an `s3://bucket/key` reference. */
    constructor (bucket: string, key: string, raw: bool)
      ensures path == key && this.bucket == bucket && this.raw == raw && relativePath == ""
      ensures raw ==> filterRegex == None
      ensures !raw ==> prefix == PrefixOf(key) && filter == FilterOf(key)
      ensures !raw ==> filterRegex == Some(FilterText(PrefixOf(key), FilterOf(key)))
      ensures !raw ==> delimiter == if HasGlob(key) then "" else "/"
    {
      this.bucket, this.raw, path := bucket, raw, key;
      prefix, delimiter, filter, relativePath, filterRegex := "", "", "", "", None;
      new;
      SetPrefixAndFilter();
    }

    method SetPrefixAndFilter()
      requires filter == "" && delimiter == ""
      modifies this`prefix, this`delimiter, this`filter, this`filterRegex
      ensures raw ==> filterRegex == old(filterRegex)
      ensures !raw ==> prefix == PrefixOf(path) && filter == FilterOf(path)
      ensures !raw ==> filterRegex == Some(FilterText(PrefixOf(path), FilterOf(path)))
      ensures !raw ==> delimiter == if HasGlob(path) then "" else "/"
    {
      if raw { return; }
      var loc := GlobStart(path);
      if loc == |path| {
        delimiter := "/";
        prefix := path;
      } else {
        prefix := path[..loc];
        filter := path[loc..];
      }
      assert path[..|path|] == path;
      filterRegex := Some(FilterText(prefix, filter));
    }

    /** Whether the key passes the filter; an accepted key also sets the relative path. */
    method Matches(key: string) returns (accepted: bool)
      requires !raw ==> prefix == PrefixOf(path) && filter == FilterOf(path)
      requires filterRegex == if raw then None else Some(FilterText(PrefixOf(path), FilterOf(path)))
      modifies this`relativePath
      ensures accepted <==> !raw && GlobMatch(GlobOf(path), key)
      ensures !accepted ==> relativePath == old(relativePath)
      ensures accepted && HasGlob(path) ==> DirPart(prefix) + relativePath == key
      ensures accepted && !HasGlob(path) ==> relativePath == ParseNonBatch(prefix, key)
      ensures accepted && !HasGlob(path) ==> ComponentAt(prefix, key, ComponentStart(prefix, key), relativePath)
    {
      if !raw { FilterMeansGlob(path, key); }
      if filterRegex.None? || !RegexMatches(filterRegex.value, key) { return false; }
      AcceptedRelative(path, key);
      relativePath := if filter != "" then ParseBatch(prefix, key) else ParseNonBatch(prefix, key);
      accepted := true;
    }
  }
}
