/**
 * Directory rename over a flat key space: list the subtree, copy every key, then delete every
 * original. Each step may fail, leaving the bucket as the steps before it left it.
 */
module DirRename {
  import opened Prelude
  import opened ObjectStore
  import opened Inode
  import opened Strutil
  import opened Url

  /** Where a listed key goes; a key without the old prefix is appended whole. */
  function NewKey(key: string, oldPrefix: string, newPrefix: string): string {
    newPrefix + StripPrefix(key, oldPrefix)
  }

  /** The bucket after the first `n` copies. */
  function Copied(store: Objects, keys: seq<string>, n: nat, oldPrefix: string, newPrefix: string): Objects
    requires n <= |keys|
  {
    if n == 0 then store
    else
      var s := Copied(store, keys, n - 1, oldPrefix, newPrefix);
      var k := keys[n - 1];
      if k in s then s[NewKey(k, oldPrefix, newPrefix) := s[k]] else s
  }

  /** The bucket after all copies and the first `n` deletes. */
  function Deleted(store: Objects, keys: seq<string>, n: nat, oldPrefix: string, newPrefix: string): Objects
    requires n <= |keys|
  {
    if n == 0 then Copied(store, keys, |keys|, oldPrefix, newPrefix)
    else Deleted(store, keys, n - 1, oldPrefix, newPrefix) - {keys[n - 1]}
  }

  /** A bucket some run of the rename may stop in. */
  ghost predicate Intermediate(now: Objects, store: Objects, keys: seq<string>, oldPrefix: string, newPrefix: string) {
    || (exists n: nat :: n <= |keys| && now == Copied(store, keys, n, oldPrefix, newPrefix))
    || (exists n: nat :: n <= |keys| && now == Deleted(store, keys, n, oldPrefix, newPrefix))
  }

  /** `keys` lists exactly the objects under the old prefix. */
  ghost predicate ListsSubtree(keys: seq<string>, store: Objects, oldPrefix: string) {
    NoDup(keys) && forall k :: k in keys <==> k in store && Under(k, oldPrefix)
  }

  /** `keys` lists exactly what the listing of the prefix shows. */
  ghost predicate ListingOf(keys: seq<string>, store: Objects, prefix: string) {
    NoDup(keys) && forall k :: k in keys <==> k in store && KeyMatches(prefix, k)
  }

  ghost predicate AllStored(keys: seq<string>, store: Objects) {
    forall k :: k in keys ==> k in store
  }

  /** No key is moved onto another key that is itself being moved. */
  ghost predicate TargetsOutside(keys: seq<string>, oldPrefix: string, newPrefix: string) {
    forall k :: k in keys ==> NewKey(k, oldPrefix, newPrefix) !in keys
  }

  /** Keys that are moved to one target hold the same bytes. */
  ghost predicate SharedTargetsAgree(store: Objects, keys: seq<string>, oldPrefix: string, newPrefix: string)
    requires AllStored(keys, store)
  {
    forall a, b :: a in keys && b in keys && NewKey(a, oldPrefix, newPrefix) == NewKey(b, oldPrefix, newPrefix)
      ==> store[a] == store[b]
  }

  /** Two keys share a target exactly when one is the old prefix followed by the other, which lacks the prefix. */
  lemma SharedTargetIff(a: string, b: string, oldPrefix: string, newPrefix: string)
    requires a != b
    ensures NewKey(a, oldPrefix, newPrefix) == NewKey(b, oldPrefix, newPrefix) <==>
      (a == oldPrefix + b && !Under(b, oldPrefix)) || (b == oldPrefix + a && !Under(a, oldPrefix))
  {
    assert NewKey(a, oldPrefix, newPrefix)[|newPrefix|..] == StripPrefix(a, oldPrefix);
    assert NewKey(b, oldPrefix, newPrefix)[|newPrefix|..] == StripPrefix(b, oldPrefix);
    assert forall k :: Under(k, oldPrefix) ==> k == oldPrefix + StripPrefix(k, oldPrefix);
    assert (oldPrefix + a)[|oldPrefix|..] == a && (oldPrefix + b)[|oldPrefix|..] == b;
  }

  /** The keys of one subtree have different targets. */
  lemma SubtreeTargetsAgree(store: Objects, keys: seq<string>, oldPrefix: string, newPrefix: string)
    requires ListsSubtree(keys, store, oldPrefix)
    ensures SharedTargetsAgree(store, keys, oldPrefix, newPrefix)
  {
    forall a, b | a in keys && b in keys && NewKey(a, oldPrefix, newPrefix) == NewKey(b, oldPrefix, newPrefix)
      ensures a == b
    {
      ReprefixInjective(a, b, oldPrefix, newPrefix);
    }
  }

  /** When neither prefix starts with the other, no target lies under the old prefix, so none is moved itself. */
  lemma SeparatePrefixesSuffice(keys: seq<string>, store: Objects, oldPrefix: string, newPrefix: string)
    requires ListsSubtree(keys, store, oldPrefix)
    requires !Under(oldPrefix, newPrefix) && !Under(newPrefix, oldPrefix)
    ensures forall k :: k in keys ==> !Under(NewKey(k, oldPrefix, newPrefix), oldPrefix)
    ensures TargetsOutside(keys, oldPrefix, newPrefix)
  {
    forall k | k in keys
      ensures !Under(NewKey(k, oldPrefix, newPrefix), oldPrefix)
    {
      PrefixesOfOneKey(NewKey(k, oldPrefix, newPrefix), oldPrefix, newPrefix);
    }
  }

  lemma PrefixesOfOneKey(key: string, a: string, b: string)
    requires b <= key && !(a <= b) && !(b <= a)
    ensures !(a <= key)
  {
  }

  /** A copy touches only the target keys. */
  lemma {:induction false} CopiedElsewhere(
      store: Objects, keys: seq<string>, n: nat, oldPrefix: string, newPrefix: string, k: string)
    requires n <= |keys| && forall i :: 0 <= i < n ==> NewKey(keys[i], oldPrefix, newPrefix) != k
    ensures var now := Copied(store, keys, n, oldPrefix, newPrefix);
      (k in now <==> k in store) && (k in now ==> now[k] == store[k])
  {
    if n > 0 {
      CopiedElsewhere(store, keys, n - 1, oldPrefix, newPrefix, k);
    }
  }

  /** Copies leave the moved keys themselves as they were. */
  lemma CopiedUnmoved(store: Objects, keys: seq<string>, n: nat, oldPrefix: string, newPrefix: string, k: string)
    requires n <= |keys| && AllStored(keys, store) && TargetsOutside(keys, oldPrefix, newPrefix) && k in keys
    ensures var now := Copied(store, keys, n, oldPrefix, newPrefix); k in now && now[k] == store[k]
  {
    forall i | 0 <= i < n
      ensures NewKey(keys[i], oldPrefix, newPrefix) != k
    {
      assert keys[i] in keys;
    }
    CopiedElsewhere(store, keys, n, oldPrefix, newPrefix, k);
  }

  /** A copied key's bytes are at its target, whatever was copied after it. */
  lemma {:induction false} CopiedAt(
      store: Objects, keys: seq<string>, n: nat, oldPrefix: string, newPrefix: string, i: nat)
    requires i < n <= |keys| && AllStored(keys, store)
    requires TargetsOutside(keys, oldPrefix, newPrefix) && SharedTargetsAgree(store, keys, oldPrefix, newPrefix)
    ensures var now := Copied(store, keys, n, oldPrefix, newPrefix);
      var target := NewKey(keys[i], oldPrefix, newPrefix);
      target in now && now[target] == store[keys[i]]
  {
    var k := keys[n - 1];
    assert k in keys && keys[i] in keys;
    if i == n - 1 {
      CopiedUnmoved(store, keys, n - 1, oldPrefix, newPrefix, k);
    } else {
      CopiedAt(store, keys, n - 1, oldPrefix, newPrefix, i);
      if NewKey(keys[i], oldPrefix, newPrefix) == NewKey(k, oldPrefix, newPrefix) {
        CopiedUnmoved(store, keys, n - 1, oldPrefix, newPrefix, k);
      }
    }
  }

  /** Deletes only remove the listed keys. */
  lemma {:induction false} DeletedContents(
      store: Objects, keys: seq<string>, n: nat, oldPrefix: string, newPrefix: string)
    requires n <= |keys|
    ensures var all := Copied(store, keys, |keys|, oldPrefix, newPrefix);
      Deleted(store, keys, n, oldPrefix, newPrefix) == all - Elems(keys[..n])
  {
    if n > 0 {
      DeletedContents(store, keys, n - 1, oldPrefix, newPrefix);
      TakeSnoc(keys, n - 1);
    } else {
      assert keys[..0] == [];
    }
  }

  /** The bytes of every moved key are somewhere: at the old key or at the new one. */
  ghost predicate NothingLost(now: Objects, store: Objects, keys: seq<string>, oldPrefix: string, newPrefix: string) {
    forall k :: k in keys && k in store ==>
      || (k in now && now[k] == store[k])
      || (NewKey(k, oldPrefix, newPrefix) in now && now[NewKey(k, oldPrefix, newPrefix)] == store[k])
  }

  /** Wherever the rename stops, no moved key's bytes are lost. */
  lemma NeverLosesBytes(now: Objects, store: Objects, keys: seq<string>, oldPrefix: string, newPrefix: string)
    requires AllStored(keys, store) && Intermediate(now, store, keys, oldPrefix, newPrefix)
    requires TargetsOutside(keys, oldPrefix, newPrefix) && SharedTargetsAgree(store, keys, oldPrefix, newPrefix)
    ensures NothingLost(now, store, keys, oldPrefix, newPrefix)
  {
    if n: nat :| n <= |keys| && now == Copied(store, keys, n, oldPrefix, newPrefix) {
      forall k | k in keys
        ensures k in now && now[k] == store[k]
      {
        CopiedUnmoved(store, keys, n, oldPrefix, newPrefix, k);
      }
    } else {
      var n: nat :| n <= |keys| && now == Deleted(store, keys, n, oldPrefix, newPrefix);
      DeletedContents(store, keys, n, oldPrefix, newPrefix);
      forall i | 0 <= i < |keys|
        ensures var target := NewKey(keys[i], oldPrefix, newPrefix); target in now && now[target] == store[keys[i]]
      {
        assert keys[i] in keys && NewKey(keys[i], oldPrefix, newPrefix) !in keys[..n];
        CopiedAt(store, keys, |keys|, oldPrefix, newPrefix, i);
      }
    }
  }

  /** No run of the rename loses bytes, wherever it stops. */
  ghost predicate NoRunLoses(store: Objects, keys: seq<string>, oldPrefix: string, newPrefix: string) {
    forall now :: Intermediate(now, store, keys, oldPrefix, newPrefix) ==>
      NothingLost(now, store, keys, oldPrefix, newPrefix)
  }

  /**
   * No run loses bytes exactly when no target is itself a moved key and keys that share a target agree;
   * for a subtree the first alone decides.
   */
  lemma NeverLosesBytesIff(store: Objects, keys: seq<string>, oldPrefix: string, newPrefix: string)
    requires AllStored(keys, store)
    ensures NoRunLoses(store, keys, oldPrefix, newPrefix) <==>
      TargetsOutside(keys, oldPrefix, newPrefix) && SharedTargetsAgree(store, keys, oldPrefix, newPrefix)
    ensures ListsSubtree(keys, store, oldPrefix) ==>
      (NoRunLoses(store, keys, oldPrefix, newPrefix) <==> TargetsOutside(keys, oldPrefix, newPrefix))
  {
    if ListsSubtree(keys, store, oldPrefix) { SubtreeTargetsAgree(store, keys, oldPrefix, newPrefix); }
    if TargetsOutside(keys, oldPrefix, newPrefix) && SharedTargetsAgree(store, keys, oldPrefix, newPrefix) {
      forall now | Intermediate(now, store, keys, oldPrefix, newPrefix)
        ensures NothingLost(now, store, keys, oldPrefix, newPrefix)
      {
        NeverLosesBytes(now, store, keys, oldPrefix, newPrefix);
      }
    } else {
      var now := Deleted(store, keys, |keys|, oldPrefix, newPrefix);
      DeletedContents(store, keys, |keys|, oldPrefix, newPrefix);
      assert keys[..|keys|] == keys;
      assert Intermediate(now, store, keys, oldPrefix, newPrefix);
      assert !NothingLost(now, store, keys, oldPrefix, newPrefix);
    }
  }

  /** Wherever the rename stops, a key that is neither moved nor a target is as before. */
  lemma OthersUntouched(
      now: Objects, store: Objects, keys: seq<string>, oldPrefix: string, newPrefix: string, k: string)
    requires Intermediate(now, store, keys, oldPrefix, newPrefix)
    requires k !in keys && forall x :: x in keys ==> NewKey(x, oldPrefix, newPrefix) != k
    ensures (k in now <==> k in store) && (k in now ==> now[k] == store[k])
  {
    assert forall i :: 0 <= i < |keys| ==> keys[i] in keys;
    if n: nat :| n <= |keys| && now == Copied(store, keys, n, oldPrefix, newPrefix) {
      CopiedElsewhere(store, keys, n, oldPrefix, newPrefix, k);
    } else {
      var n: nat :| n <= |keys| && now == Deleted(store, keys, n, oldPrefix, newPrefix);
      DeletedContents(store, keys, n, oldPrefix, newPrefix);
      CopiedElsewhere(store, keys, |keys|, oldPrefix, newPrefix, k);
    }
  }

  /** Every moved key's bytes are at its target. */
  ghost predicate AllArrived(now: Objects, store: Objects, keys: seq<string>, oldPrefix: string, newPrefix: string)
    requires AllStored(keys, store)
  {
    forall k :: k in keys ==>
      NewKey(k, oldPrefix, newPrefix) in now && now[NewKey(k, oldPrefix, newPrefix)] == store[k]
  }

  /**
   * A completed rename has every moved key's bytes at its target exactly when no target is moved itself and
   * keys that share a target agree; for a subtree the first alone decides.
   */
  lemma CompletedKeepsBytesIff(store: Objects, keys: seq<string>, oldPrefix: string, newPrefix: string)
    requires AllStored(keys, store)
    ensures AllArrived(Deleted(store, keys, |keys|, oldPrefix, newPrefix), store, keys, oldPrefix, newPrefix) <==>
      TargetsOutside(keys, oldPrefix, newPrefix) && SharedTargetsAgree(store, keys, oldPrefix, newPrefix)
    ensures ListsSubtree(keys, store, oldPrefix) ==>
      (AllArrived(Deleted(store, keys, |keys|, oldPrefix, newPrefix), store, keys, oldPrefix, newPrefix) <==>
        TargetsOutside(keys, oldPrefix, newPrefix))
  {
    DeletedContents(store, keys, |keys|, oldPrefix, newPrefix);
    assert keys[..|keys|] == keys;
    if ListsSubtree(keys, store, oldPrefix) { SubtreeTargetsAgree(store, keys, oldPrefix, newPrefix); }
    if TargetsOutside(keys, oldPrefix, newPrefix) && SharedTargetsAgree(store, keys, oldPrefix, newPrefix) {
      forall i | 0 <= i < |keys| { CopiedAt(store, keys, |keys|, oldPrefix, newPrefix, i); }
    }
  }

  /** The bucket with exactly one subtree moved. */
  ghost predicate SubtreeMoved(now: Objects, store: Objects, oldPrefix: string, newPrefix: string) {
    && (forall k :: k in store && Under(k, oldPrefix) ==>
          Reprefix(k, oldPrefix, newPrefix) in now && now[Reprefix(k, oldPrefix, newPrefix)] == store[k])
    && (forall k :: k in now ==> !Under(k, oldPrefix))
    && (forall k :: k in store && !Under(k, oldPrefix) && !IsTarget(k, store, oldPrefix, newPrefix) ==>
          k in now && now[k] == store[k])
    && (forall k :: k in now ==> k in store || IsTarget(k, store, oldPrefix, newPrefix))
  }

  ghost predicate IsTarget(key: string, store: Objects, oldPrefix: string, newPrefix: string) {
    exists k :: k in store && Under(k, oldPrefix) && Reprefix(k, oldPrefix, newPrefix) == key
  }

  /**
   * A completed rename moved exactly the subtree, overwriting only what a moved key landed on.
   * That holds exactly when no moved key's target is itself under the old prefix.
   */
  lemma CompletedMovesIff(store: Objects, keys: seq<string>, oldPrefix: string, newPrefix: string)
    requires ListsSubtree(keys, store, oldPrefix)
    ensures SubtreeMoved(Deleted(store, keys, |keys|, oldPrefix, newPrefix), store, oldPrefix, newPrefix)
      <==> forall k :: k in keys ==> !Under(NewKey(k, oldPrefix, newPrefix), oldPrefix)
  {
    var now := Deleted(store, keys, |keys|, oldPrefix, newPrefix);
    DeletedContents(store, keys, |keys|, oldPrefix, newPrefix);
    assert keys[..|keys|] == keys;
    if SubtreeMoved(now, store, oldPrefix, newPrefix) {
      forall k | k in keys
        ensures !Under(NewKey(k, oldPrefix, newPrefix), oldPrefix)
      {
        assert Reprefix(k, oldPrefix, newPrefix) in now;
      }
    }
    if forall k :: k in keys ==> !Under(NewKey(k, oldPrefix, newPrefix), oldPrefix) {
      CompletedMoves(store, keys, oldPrefix, newPrefix);
    }
  }

  /** When neither prefix starts with the other, a completed rename moved exactly the subtree. */
  lemma SeparatePrefixesMoveSubtree(store: Objects, keys: seq<string>, oldPrefix: string, newPrefix: string)
    requires ListsSubtree(keys, store, oldPrefix)
    requires !Under(oldPrefix, newPrefix) && !Under(newPrefix, oldPrefix)
    ensures SubtreeMoved(Deleted(store, keys, |keys|, oldPrefix, newPrefix), store, oldPrefix, newPrefix)
  {
    SeparatePrefixesSuffice(keys, store, oldPrefix, newPrefix);
    CompletedMoves(store, keys, oldPrefix, newPrefix);
  }

  lemma TargetsListed(store: Objects, keys: seq<string>, oldPrefix: string, newPrefix: string)
    requires ListsSubtree(keys, store, oldPrefix)
    ensures forall i :: 0 <= i < |keys| ==> IsTarget(NewKey(keys[i], oldPrefix, newPrefix), store, oldPrefix, newPrefix)
    ensures forall k :: IsTarget(k, store, oldPrefix, newPrefix) ==>
      exists i :: 0 <= i < |keys| && NewKey(keys[i], oldPrefix, newPrefix) == k
  {
    forall i | 0 <= i < |keys|
      ensures IsTarget(NewKey(keys[i], oldPrefix, newPrefix), store, oldPrefix, newPrefix)
    {
      assert keys[i] in keys;
    }
    forall k | IsTarget(k, store, oldPrefix, newPrefix)
      ensures exists i :: 0 <= i < |keys| && NewKey(keys[i], oldPrefix, newPrefix) == k
    {
      var x :| x in store && Under(x, oldPrefix) && Reprefix(x, oldPrefix, newPrefix) == k;
      assert x in keys;
    }
  }

  lemma CompletedMoves(store: Objects, keys: seq<string>, oldPrefix: string, newPrefix: string)
    requires ListsSubtree(keys, store, oldPrefix)
    requires forall k :: k in keys ==> !Under(NewKey(k, oldPrefix, newPrefix), oldPrefix)
    ensures SubtreeMoved(Deleted(store, keys, |keys|, oldPrefix, newPrefix), store, oldPrefix, newPrefix)
  {
    var all := Copied(store, keys, |keys|, oldPrefix, newPrefix);
    var now := Deleted(store, keys, |keys|, oldPrefix, newPrefix);
    DeletedContents(store, keys, |keys|, oldPrefix, newPrefix);
    assert keys[..|keys|] == keys;
    TargetsListed(store, keys, oldPrefix, newPrefix);
    CompletedKeepsBytesIff(store, keys, oldPrefix, newPrefix);
    forall k | !IsTarget(k, store, oldPrefix, newPrefix)
      ensures (k in all <==> k in store) && (k in all ==> all[k] == store[k])
    {
      CopiedElsewhere(store, keys, |keys|, oldPrefix, newPrefix, k);
    }
    forall k | k in now
      ensures !Under(k, oldPrefix)
    {
      if !IsTarget(k, store, oldPrefix, newPrefix) { assert k !in keys; }
      else {
        var i :| 0 <= i < |keys| && NewKey(keys[i], oldPrefix, newPrefix) == k;
        assert keys[i] in keys;
      }
    }
  }

  // ----- the listing the rename works from -----

  lemma {:induction false} GlobKeepsLast(pattern: string, key: string)
    requires pattern != "" && pattern[|pattern| - 1] !in GLOB_CHARACTERS && GlobMatch(pattern, key)
    ensures key != "" && key[|key| - 1] == pattern[|pattern| - 1]
    decreases |pattern|
  {
    if |pattern| == 1 {
      assert pattern[0] != '?' && pattern[0] != '*';
      assert pattern[1..] == "";
    } else if pattern[0] == '*' {
      var n :| 0 <= n <= |key| && GlobMatch(pattern[1..], key[n..]);
      GlobKeepsLast(pattern[1..], key[n..]);
    } else {
      GlobKeepsLast(pattern[1..], key[1..]);
    }
  }

  /**
   * The recursive listing of a directory prefix is exactly its subtree, for every bucket, exactly
   * when the prefix has no wildcard character: a `*` or `?` in a name is read as a glob.
   */
  lemma ListingIsSubtreeIff(prefix: string)
    requires prefix != "" && prefix[|prefix| - 1] == '/'
    ensures (forall key :: KeyMatches(prefix, key) <==> Under(key, prefix)) <==> !HasGlob(prefix)
  {
    if HasGlob(prefix) {
      var child := prefix + "f";
      FilterMeansGlob(prefix, child);
      if GlobMatch(prefix, child) { GlobKeepsLast(prefix, child); }
      assert Under(child, prefix) && !KeyMatches(prefix, child);
    } else {
      forall key
        ensures KeyMatches(prefix, key) <==> Under(key, prefix)
      {
        PlainPathMatches(prefix, key);
      }
    }
  }

  /** A completed rename takes away every listed key, and changes nothing else but the targets. */
  lemma ListedKeysLeave(store: Objects, keys: seq<string>, oldPrefix: string, newPrefix: string)
    requires ListingOf(keys, store, oldPrefix)
    ensures var now := Deleted(store, keys, |keys|, oldPrefix, newPrefix);
      && (forall k :: k in store && KeyMatches(oldPrefix, k) ==> k !in now)
      && (forall k :: !KeyMatches(oldPrefix, k) && (forall x :: x in keys ==> NewKey(x, oldPrefix, newPrefix) != k)
            ==> (k in now <==> k in store) && (k in now ==> now[k] == store[k]))
  {
    var now := Deleted(store, keys, |keys|, oldPrefix, newPrefix);
    DeletedContents(store, keys, |keys|, oldPrefix, newPrefix);
    assert keys[..|keys|] == keys;
    assert Intermediate(now, store, keys, oldPrefix, newPrefix);
    forall k | !KeyMatches(oldPrefix, k) && forall x :: x in keys ==> NewKey(x, oldPrefix, newPrefix) != k
      ensures (k in now <==> k in store) && (k in now ==> now[k] == store[k])
    {
      OthersUntouched(now, store, keys, oldPrefix, newPrefix, k);
    }
  }

  predicate IsMarker(key: string) {
    key != "" && key[|key| - 1] == '/'
  }

  /** A prefix with a wildcard character, ending in a slash, lists markers only. */
  lemma GlobListsMarkers(prefix: string, key: string)
    requires HasGlob(prefix) && IsMarker(prefix) && KeyMatches(prefix, key)
    ensures IsMarker(key)
  {
    FilterMeansGlob(prefix, key);
    GlobKeepsLast(prefix, key);
  }

  lemma MarkersMoveToMarkers(key: string, oldPrefix: string, newPrefix: string)
    requires IsMarker(key) && IsMarker(newPrefix)
    ensures IsMarker(NewKey(key, oldPrefix, newPrefix))
  {
    var rest := StripPrefix(key, oldPrefix);
    assert rest != "" ==> rest[|rest| - 1] == key[|key| - 1];
    assert rest == "" ==> newPrefix + rest == newPrefix;
  }

  /** With a wildcard character in the old prefix the rename touches markers only: every file stays where it is. */
  lemma GlobRenameMovesNoFile(
      now: Objects, store: Objects, keys: seq<string>, oldPrefix: string, newPrefix: string, k: string)
    requires HasGlob(oldPrefix) && IsMarker(oldPrefix) && IsMarker(newPrefix) && !IsMarker(k)
    requires ListingOf(keys, store, oldPrefix) && Intermediate(now, store, keys, oldPrefix, newPrefix)
    ensures (k in now <==> k in store) && (k in now ==> now[k] == store[k])
  {
    forall x | x in keys
      ensures IsMarker(x) && IsMarker(NewKey(x, oldPrefix, newPrefix))
    {
      GlobListsMarkers(oldPrefix, x);
      MarkersMoveToMarkers(x, oldPrefix, newPrefix);
    }
    OthersUntouched(now, store, keys, oldPrefix, newPrefix, k);
  }

  /** Two keys that share a target outside: the one copied last survives. */
  lemma SharedTargetLosesOne(store: Objects, a: string, b: string, oldPrefix: string, newPrefix: string)
    requires store.Keys == {a, b} && NewKey(b, oldPrefix, newPrefix) !in store
    requires NewKey(a, oldPrefix, newPrefix) == NewKey(b, oldPrefix, newPrefix)
    ensures Deleted(store, [a, b], 2, oldPrefix, newPrefix) == map[NewKey(b, oldPrefix, newPrefix) := store[b]]
  {
    var keys, target := [a, b], NewKey(b, oldPrefix, newPrefix);
    assert Copied(store, keys, 0, oldPrefix, newPrefix) == store;
    assert Copied(store, keys, 1, oldPrefix, newPrefix) == store[target := store[a]];
    assert Copied(store, keys, 2, oldPrefix, newPrefix) == store[target := store[b]];
    DeletedContents(store, keys, 2, oldPrefix, newPrefix);
    assert keys[..2] == keys;
  }

  lemma PrefixDetermined(p: string, q: string, s: string)
    requires p + s == q + s
    ensures p == q
  {
    assert |p| == |q|;
    assert p == (p + s)[..|p|] && q == (q + s)[..|q|];
  }

  /**
   * When a listing shows a key outside the directory and a key of that name inside it, the rename also moves
   * the one outside, both go to one target, and the one inside is lost if it is listed first.
   */
  lemma GlobRenameLosesKey(store: Objects, b: string, oldPrefix: string, newPrefix: string)
    requires !Under(b, oldPrefix) && KeyMatches(oldPrefix, b) && KeyMatches(oldPrefix, oldPrefix + b)
    requires newPrefix != "" && newPrefix != oldPrefix && store.Keys == {oldPrefix + b, b}
    ensures ListingOf([oldPrefix + b, b], store, oldPrefix)
    ensures Deleted(store, [oldPrefix + b, b], 2, oldPrefix, newPrefix) == map[newPrefix + b := store[b]]
  {
    SharedTargetIff(oldPrefix + b, b, oldPrefix, newPrefix);
    if newPrefix + b == oldPrefix + b { PrefixDetermined(newPrefix, oldPrefix, b); }
    SharedTargetLosesOne(store, oldPrefix + b, b, oldPrefix, newPrefix);
  }

  /** The listing of a directory named `*` shows the marker of every directory: inside it, and elsewhere. */
  lemma StarListsMarker(key: string)
    requires |key| >= 2 && IsMarker(key)
    ensures KeyMatches("*/", key)
  {
    FilterMeansGlob("*/", key);
    assert HasGlob("*/");
    assert "*/"[1..] == "/" && "/"[1..] == "";
    assert key[|key| - 1..] == "/";
    assert GlobMatch("/", "/");
  }
}
