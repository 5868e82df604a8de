/**
 * The bucket as a map from keys to bytes. Every request may fail, and a failure may be reported
 * although the effect took place.
 */
module ObjectStore {
  import opened Prelude
  import opened RangedGet
  import opened Url

  type Objects = map<string, Bytes>

  datatype StatReply = Found | NotFound | StatFailed

  class Store {
    var objects: Objects
    /** How many requests were reported as failed so far. */
    ghost var failures: nat

    constructor ()
      ensures objects == map[] && failures == 0
    {
      objects, failures := map[], 0;
    }

    /** Whether the service carries a request out is not ours to say. */
    method Report(ok: bool)
      modifies this`failures
      ensures failures == old(failures) + (if ok then 0 else 1)
    {
      if !ok { failures := failures + 1; }
    }

    method Stat(key: string) returns (r: StatReply)
      modifies this`failures
      ensures r == Found ==> key in objects
      ensures r == NotFound ==> key !in objects
      ensures failures == old(failures) + (if r == StatFailed then 1 else 0)
    {
      var failed: bool := *;
      r := if failed then StatFailed else if key in objects then Found else NotFound;
      Report(!failed);
    }

    /** Downloads an object; one that is not stored cannot be downloaded. */
    method Download(key: string) returns (r: Option<Bytes>)
      modifies this`failures
      ensures r.Some? ==> key in objects && r.value == objects[key]
      ensures failures == old(failures) + (if r.None? then 1 else 0)
    {
      var failed: bool := *;
      r := if failed || key !in objects then None else Some(objects[key]);
      Report(r.Some?);
    }

    /** A ranged GET; an empty range is not requested at all. */
    method GetPart(key: string, offset: nat, len: nat) returns (r: StatReply, body: Bytes)
      modifies this`failures
      ensures r == Found && len == 0 ==> body == []
      ensures r == Found && len > 0 ==> key in objects && body == ReadRange(objects[key], offset, len)
      ensures r == NotFound ==> key !in objects
      ensures failures == old(failures) + (if r == StatFailed then 1 else 0)
    {
      if len == 0 { return Found, []; }
      r := Stat(key);
      body := if r == Found then ReadRange(objects[key], offset, len) else [];
    }

    method Upload(key: string, data: Bytes) returns (ok: bool)
      modifies this
      ensures ok ==> objects == old(objects)[key := data]
      ensures !ok ==> objects == old(objects) || objects == old(objects)[key := data]
      ensures failures == old(failures) + (if ok then 0 else 1)
    {
      var applied: bool := *;
      var reported: bool := *;
      if applied { objects := objects[key := data]; }
      ok := applied && reported;
      Report(ok);
    }

    /** Server-side copy; copying a missing object fails without effect. */
    method Copy(src: string, dst: string) returns (ok: bool)
      modifies this
      ensures ok ==> src in old(objects) && objects == old(objects)[dst := old(objects)[src]]
      ensures !ok && objects != old(objects) ==>
        src in old(objects) && objects == old(objects)[dst := old(objects)[src]]
      ensures failures == old(failures) + (if ok then 0 else 1)
    {
      var applied: bool := *;
      var reported: bool := *;
      if applied && src in objects { objects := objects[dst := objects[src]]; } else { applied := false; }
      ok := applied && reported;
      Report(ok);
    }

    method Delete(key: string) returns (ok: bool)
      modifies this
      ensures ok ==> objects == old(objects) - {key}
      ensures !ok ==> objects == old(objects) || objects == old(objects) - {key}
      ensures failures == old(failures) + (if ok then 0 else 1)
    {
      var applied: bool := *;
      var reported: bool := *;
      if applied { objects := objects - {key}; }
      ok := applied && reported;
      Report(ok);
    }

    /** A recursive listing of the URL whose path is `path`: each matching key once, in any order. */
    method List(path: string) returns (r: Option<seq<string>>)
      modifies this`failures
      ensures failures == old(failures) + (if r.None? then 1 else 0)
      ensures r.Some? ==> NoDup(r.value)
      ensures r.Some? ==> forall k :: k in r.value <==> k in objects && KeyMatches(path, k)
    {
      var failed: bool := *;
      Report(!failed);
      if failed { return None; }
      var pending := set k | k in objects && KeyMatches(path, k);
      ghost var all := pending;
      var keys: seq<string> := [];
      while pending != {}
        invariant failures == old(failures) && pending <= all && NoDup(keys) && Elems(keys) == all - pending
      {
        var k :| k in pending;
        NoDupSnoc(keys, k);
        keys := keys + [k];
        pending := pending - {k};
      }
      assert forall k :: k in keys <==> k in Elems(keys);
      r := Some(keys);
    }
  }
}
