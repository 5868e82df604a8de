/** Lexical path cleaning, joining and relativising for `/`-separated paths. */
module PathClean {
  import opened Prelude
  import opened Url

  /** The pieces between slashes; a path always has at least one piece. */
  function Split(s: string): (segs: seq<string>)
    ensures segs != []
    decreases |s|
  {
    var i := FirstIndex(s, '/');
    if i.None? then [s] else [s[..i.value]] + Split(s[i.value + 1..])
  }

  function Join(segs: seq<string>): string {
    if segs == [] then ""
    else if |segs| == 1 then segs[0]
    else segs[0] + "/" + Join(segs[1..])
  }

  predicate Rooted(p: string) {
    p != "" && p[0] == '/'
  }

  /** One segment of the cleaning loop. */
  function Push(out: seq<string>, seg: string, rooted: bool): seq<string> {
    if seg == "" || seg == "." then out
    else if seg == ".." then
      if out != [] && out[|out| - 1] != ".." then out[..|out| - 1]
      else if !rooted then out + [".."] else out
    else out + [seg]
  }

  function PushAll(out: seq<string>, segs: seq<string>, rooted: bool): seq<string>
    decreases |segs|
  {
    if segs == [] then out else PushAll(Push(out, segs[0], rooted), segs[1..], rooted)
  }

  function Render(out: seq<string>, rooted: bool): string {
    var r := (if rooted then "/" else "") + Join(out);
    if r == "" then "." else r
  }

  function CleanPath(p: string): string {
    if p == "" then "." else Render(PushAll([], Split(p), Rooted(p)), Rooted(p))
  }

  /** The cleaning loop over the segments of a path. */
  method CleanPathLoop(p: string) returns (r: string)
    ensures r == CleanPath(p)
  {
    if p == "" { return "."; }
    var rooted := Rooted(p);
    var segs := Split(p);
    var out: seq<string> := [];
    for k := 0 to |segs|
      invariant PushAll([], segs, rooted) == PushAll(out, segs[k..], rooted)
    {
      assert segs[k..][1..] == segs[k + 1..];
      out := Push(out, segs[k], rooted);
    }
    r := Render(out, rooted);
  }

  function TrimEnd(s: string): string {
    if s != "" && s[|s| - 1] == '/' then TrimEnd(s[..|s| - 1]) else s
  }

  function PathJoin(a: string, b: string): string {
    CleanPath(if a == "" then b else if b == "" then a else TrimEnd(a) + "/" + b)
  }

  function NonEmpty(segs: seq<string>): seq<string> {
    if segs == [] then [] else (if segs[0] == "" then [] else [segs[0]]) + NonEmpty(segs[1..])
  }

  function CommonLength(a: seq<string>, b: seq<string>): (n: nat)
    ensures n <= |a| && n <= |b| && a[..n] == b[..n]
    ensures n < |a| && n < |b| ==> a[n] != b[n]
  {
    if a != [] && b != [] && a[0] == b[0] then
      var n := CommonLength(a[1..], b[1..]);
      assert a[..n + 1] == [a[0]] + a[1..][..n] && b[..n + 1] == [b[0]] + b[1..][..n];
      n + 1
    else 0
  }

  lemma CommonIs(a: seq<string>, b: seq<string>, i: nat)
    requires i <= |a| && i <= |b| && a[..i] == b[..i]
    requires i < |a| && i < |b| ==> a[i] != b[i]
    ensures CommonLength(a, b) == i
  {
    var n := CommonLength(a, b);
    assert forall k :: 0 <= k < i ==> a[k] == a[..i][k] == b[..i][k] == b[k];
    assert forall k :: 0 <= k < n ==> a[k] == a[..n][k] == b[..n][k] == b[k];
  }

  function Ups(n: nat): (s: seq<string>)
    ensures |s| == n && forall i :: 0 <= i < n ==> s[i] == ".."
  {
    seq(n, i => "..")
  }

  /** The path that leads from `base` to `target`. */
  function RelPath(base: string, target: string): string {
    var b, t := CleanPath(base), CleanPath(target);
    if b == t then "."
    else
      var bs, ts := NonEmpty(Split(b)), NonEmpty(Split(t));
      var parts := Steps(bs, ts);
      if parts == [] then "." else Join(parts)
  }

  /** Up from `bs` to the common part, then down to `ts`. */
  function Steps(bs: seq<string>, ts: seq<string>): seq<string> {
    var i := CommonLength(bs, ts);
    Ups(|bs| - i) + ts[i..]
  }

  /** The comparing loop and the pushing loop. */
  method StepsLoop(bs: seq<string>, ts: seq<string>) returns (parts: seq<string>)
    ensures parts == Steps(bs, ts)
  {
    var i := 0;
    while i < |bs| && i < |ts| && bs[i] == ts[i]
      invariant i <= |bs| && i <= |ts| && bs[..i] == ts[..i]
    {
      i := i + 1;
    }
    CommonIs(bs, ts, i);
    parts := [];
    for k := 0 to |bs| - i
      invariant parts == Ups(k)
    {
      parts := parts + [".."];
    }
    parts := parts + ts[i..];
  }

  method RelPathLoop(base: string, target: string) returns (r: string)
    ensures r == RelPath(base, target)
  {
    var b := CleanPathLoop(base);
    var t := CleanPathLoop(target);
    if b == t { return "."; }
    var parts := StepsLoop(NonEmpty(Split(b)), NonEmpty(Split(t)));
    r := if parts == [] then "." else Join(parts);
  }

  // ----- segments -----

  predicate NoSlash(seg: string) {
    '/' !in seg
  }

  /** An ordinary path segment. */
  predicate Plain(seg: string) {
    seg != "" && seg != "." && seg != ".." && NoSlash(seg)
  }

  /** No empty or `.` segment, and `..` only leading and only in an unrooted path. */
  ghost predicate Normal(out: seq<string>, rooted: bool) {
    && (forall i :: 0 <= i < |out| ==> Plain(out[i]) || out[i] == "..")
    && (forall i, j :: 0 <= i < j < |out| && out[j] == ".." ==> out[i] == "..")
    && (rooted ==> forall i :: 0 <= i < |out| ==> out[i] != "..")
  }

  lemma {:induction false} SplitNoSlash(s: string)
    ensures forall i :: 0 <= i < |Split(s)| ==> NoSlash(Split(s)[i])
    decreases |s|
  {
    var i := FirstIndex(s, '/');
    if i.Some? { SplitNoSlash(s[i.value + 1..]); }
  }

  lemma FirstIndexIs(s: string, c: char, i: nat)
    requires i < |s| && s[i] == c && forall j :: 0 <= j < i ==> s[j] != c
    ensures FirstIndex(s, c) == Some(i)
  {
  }

  lemma {:induction false} SplitConcat(a: string, b: string)
    ensures Split(a + "/" + b) == Split(a) + Split(b)
    decreases |a|
  {
    var s := a + "/" + b;
    var i := FirstIndex(a, '/');
    if i.None? {
      FirstIndexIs(s, '/', |a|);
      assert s[..|a|] == a && s[|a| + 1..] == b;
    } else {
      FirstIndexIs(s, '/', i.value);
      assert s[..i.value] == a[..i.value];
      assert s[i.value + 1..] == a[i.value + 1..] + "/" + b;
      SplitConcat(a[i.value + 1..], b);
    }
  }

  lemma {:induction false} SplitJoin(segs: seq<string>)
    requires segs != [] && forall i :: 0 <= i < |segs| ==> NoSlash(segs[i])
    ensures Split(Join(segs)) == segs
  {
    if |segs| > 1 {
      SplitJoin(segs[1..]);
      SplitConcat(segs[0], Join(segs[1..]));
      SplitOne(segs[0]);
    } else {
      SplitOne(segs[0]);
    }
  }

  lemma SplitOne(seg: string)
    requires NoSlash(seg)
    ensures Split(seg) == [seg]
  {
  }

  lemma {:induction false} PushAllConcat(out: seq<string>, a: seq<string>, b: seq<string>, rooted: bool)
    ensures PushAll(out, a + b, rooted) == PushAll(PushAll(out, a, rooted), b, rooted)
    decreases |a|
  {
    if a == [] {
      assert a + b == b;
    } else {
      assert (a + b)[1..] == a[1..] + b;
      PushAllConcat(Push(out, a[0], rooted), a[1..], b, rooted);
    }
  }

  lemma {:induction false} PushAllNormal(out: seq<string>, segs: seq<string>, rooted: bool)
    requires Normal(out, rooted) && forall i :: 0 <= i < |segs| ==> NoSlash(segs[i])
    ensures Normal(PushAll(out, segs, rooted), rooted)
    decreases |segs|
  {
    if segs != [] {
      assert Normal(Push(out, segs[0], rooted), rooted);
      PushAllNormal(Push(out, segs[0], rooted), segs[1..], rooted);
    }
  }

  /** Cleaning leaves a normal list of segments as it is. */
  lemma {:induction false} NormalUnchanged(out: seq<string>, segs: seq<string>, rooted: bool)
    requires Normal(out + segs, rooted)
    ensures PushAll(out, segs, rooted) == out + segs
    decreases |segs|
  {
    if segs == [] {
      assert out + segs == out;
    } else {
      assert (out + segs)[|out|] == segs[0];
      assert out != [] ==> (out + segs)[|out| - 1] == out[|out| - 1];
      assert Push(out, segs[0], rooted) == out + [segs[0]];
      assert (out + [segs[0]]) + segs[1..] == out + segs;
      NormalUnchanged(out + [segs[0]], segs[1..], rooted);
    }
  }

  /** The segments a path cleans to. */
  function Segments(p: string): seq<string> {
    PushAll([], Split(p), Rooted(p))
  }

  lemma SegmentsNormal(p: string)
    ensures Normal(Segments(p), Rooted(p))
  {
    SplitNoSlash(p);
    PushAllNormal([], Split(p), Rooted(p));
  }

  lemma RootedSplit(out: seq<string>)
    requires forall i :: 0 <= i < |out| ==> NoSlash(out[i])
    ensures Split("/" + Join(out)) == [""] + (if out == [] then [""] else out)
  {
    var tail := Join(out);
    var s := "/" + tail;
    FirstIndexIs(s, '/', 0);
    assert s[..0] == "" && s[1..] == tail;
    if out != [] { SplitJoin(out); } else { SplitOne(tail); }
  }

  /** A leading empty segment and a lone empty segment count for nothing. */
  lemma RootedSegments(out: seq<string>)
    requires Normal(out, true)
    ensures var segs := [""] + (if out == [] then [""] else out);
      PushAll([], segs, true) == out && NonEmpty(segs) == out
  {
    assert [] + out == out;
    NormalUnchanged([], out, true);
    NonEmptyOfPlain(out);
    if out == [] {
      var two := [""] + [""];
      assert two[1..] == [""] && [""][1..] == [];
      assert PushAll([], two, true) == PushAll([], [""], true) == PushAll([], [], true);
      assert NonEmpty(two) == NonEmpty([""]) == NonEmpty([]);
    } else {
      assert ([""] + out)[1..] == out;
    }
  }

  /** Reading a rendered normal path back gives its segments. */
  lemma RenderedRooted(out: seq<string>)
    requires Normal(out, true)
    ensures var r := Render(out, true);
      r != "" && Rooted(r) && Segments(r) == out && NonEmpty(Split(r)) == out
  {
    assert forall i :: 0 <= i < |out| ==> NoSlash(out[i]);
    RootedSplit(out);
    RootedSegments(out);
  }

  lemma RenderedUnrooted(out: seq<string>)
    requires Normal(out, false)
    ensures var r := Render(out, false);
      r != "" && !Rooted(r) && Segments(r) == out
  {
    if out == [] {
      DotSegments();
    } else {
      assert forall i :: 0 <= i < |out| ==> NoSlash(out[i]) && out[i] != "";
      SplitJoin(out);
      JoinHead(out);
      assert "" + Join(out) == Join(out);
      assert out[0][0] in out[0];
      assert [] + out == out;
      NormalUnchanged([], out, false);
    }
  }

  lemma DotSegments()
    ensures Segments(".") == []
  {
    var dot := ".";
    SplitOne(dot);
    assert [dot][1..] == [];
    assert PushAll([], [dot], false) == PushAll(Push([], dot, false), [], false);
  }

  lemma JoinHead(segs: seq<string>)
    requires segs != [] && segs[0] != ""
    ensures Join(segs) != "" && Join(segs)[0] == segs[0][0]
  {
  }

  lemma {:induction false} NonEmptyOfPlain(out: seq<string>)
    requires forall i :: 0 <= i < |out| ==> out[i] != ""
    ensures NonEmpty(out) == out
  {
    if out != [] { NonEmptyOfPlain(out[1..]); }
  }

  /** A cleaned path is made of normal segments only, and keeps whether it is rooted. */
  lemma CleanPathIsNormal(p: string)
    ensures var c := CleanPath(p);
      && c != "" && Rooted(c) == Rooted(p)
      && Normal(Segments(c), Rooted(c)) && c == Render(Segments(c), Rooted(c))
  {
    if p == "" {
      SplitOne(".");
    } else {
      SegmentsNormal(p);
      if Rooted(p) {
        RenderedRooted(Segments(p));
      } else {
        RenderedUnrooted(Segments(p));
      }
    }
  }

  lemma CleanPathSegments(p: string)
    ensures Rooted(CleanPath(p)) == Rooted(p) && Segments(CleanPath(p)) == Segments(p)
  {
    if p == "" {
      DotSegments();
      SplitOne(p);
      assert [p][1..] == [];
      assert PushAll([], [p], false) == PushAll(Push([], p, false), [], false);
    } else {
      SegmentsNormal(p);
      if Rooted(p) {
        RenderedRooted(Segments(p));
      } else {
        RenderedUnrooted(Segments(p));
      }
    }
  }

  lemma CleanPathIdempotent(p: string)
    ensures CleanPath(CleanPath(p)) == CleanPath(p)
  {
    CleanPathIsNormal(p);
  }

  // ----- cleaning and joining keep where a path leads -----

  /** Where one segment leads from a place in a tree of directories without links. */
  function Go(place: seq<string>, seg: string): seq<string> {
    if seg == "" || seg == "." then place
    else if seg == ".." then (if place == [] then [] else place[..|place| - 1])
    else place + [seg]
  }

  function Walk(place: seq<string>, segs: seq<string>): seq<string>
    decreases |segs|
  {
    if segs == [] then place else Walk(Go(place, segs[0]), segs[1..])
  }

  /** The place a path names, seen from a current directory. */
  function Resolve(place: seq<string>, p: string): seq<string> {
    Walk(if Rooted(p) then [] else place, Split(p))
  }

  lemma {:induction false} WalkConcat(place: seq<string>, a: seq<string>, b: seq<string>)
    ensures Walk(place, a + b) == Walk(Walk(place, a), b)
    decreases |a|
  {
    if a == [] {
      assert a + b == b;
    } else {
      assert (a + b)[1..] == a[1..] + b;
      WalkConcat(Go(place, a[0]), a[1..], b);
    }
  }

  lemma WalkSnoc(place: seq<string>, a: seq<string>, seg: string)
    ensures Walk(place, a + [seg]) == Go(Walk(place, a), seg)
  {
    WalkConcat(place, a, [seg]);
    var next := Go(Walk(place, a), seg);
    assert [seg][1..] == [];
    assert Walk(next, []) == next;
  }

  lemma PushKeepsPlace(place: seq<string>, out: seq<string>, seg: string, rooted: bool)
    requires Normal(out, rooted) && (rooted ==> place == [])
    ensures Walk(place, Push(out, seg, rooted)) == Go(Walk(place, out), seg)
  {
    WalkSnoc(place, out, seg);
    if seg == ".." && out != [] {
      var front, last := out[..|out| - 1], out[|out| - 1];
      assert front + [last] == out;
      WalkSnoc(place, front, last);
    }
  }

  lemma {:induction false} PushAllKeepsPlace(place: seq<string>, out: seq<string>, segs: seq<string>, rooted: bool)
    requires Normal(out, rooted) && (rooted ==> place == [])
    requires forall i :: 0 <= i < |segs| ==> NoSlash(segs[i])
    ensures Walk(place, PushAll(out, segs, rooted)) == Walk(Walk(place, out), segs)
    decreases |segs|
  {
    if segs != [] {
      var next := Push(out, segs[0], rooted);
      PushAllNormal(out, [segs[0]], rooted);
      assert [segs[0]][1..] == [];
      assert PushAll(out, [segs[0]], rooted) == PushAll(next, [], rooted) == next;
      PushKeepsPlace(place, out, segs[0], rooted);
      PushAllKeepsPlace(place, next, segs[1..], rooted);
    }
  }

  lemma SegmentsKeepPlace(place: seq<string>, p: string)
    ensures Walk(if Rooted(p) then [] else place, Segments(p)) == Resolve(place, p)
  {
    SplitNoSlash(p);
    PushAllKeepsPlace(if Rooted(p) then [] else place, [], Split(p), Rooted(p));
  }

  /** From every current directory, a path and its cleaned form lead to the same place. */
  lemma CleanPathKeepsPlace(place: seq<string>, p: string)
    ensures Resolve(place, CleanPath(p)) == Resolve(place, p)
  {
    SegmentsKeepPlace(place, p);
    SegmentsKeepPlace(place, CleanPath(p));
    CleanPathSegments(p);
  }

  /** Joining onto nothing leads where the path itself leads. */
  lemma PathJoinEmpty(place: seq<string>, b: string)
    ensures PathJoin("", b) == CleanPath(b) && Resolve(place, PathJoin("", b)) == Resolve(place, b)
  {
    CleanPathKeepsPlace(place, b);
  }

  /** Joining two paths leads where the second leads from the first. */
  lemma PathJoinComposes(place: seq<string>, a: string, b: string)
    requires a != ""
    ensures Resolve(place, PathJoin(a, b)) == Walk(Resolve(place, a), Split(b))
  {
    if b == "" {
      CleanPathKeepsPlace(place, a);
      var at := Resolve(place, a);
      SplitOne(b);
      assert [b][1..] == [];
      assert Walk(at, [b]) == Walk(Go(at, b), []) == at;
    } else {
      var joined := TrimEnd(a) + "/" + b;
      CleanPathKeepsPlace(place, joined);
      SplitConcat(TrimEnd(a), b);
      TrimKeepsPlace(if Rooted(a) then [] else place, a);
      TrimIsPrefix(a);
      WalkConcat(if Rooted(a) then [] else place, Split(TrimEnd(a)), Split(b));
      assert Rooted(joined) == Rooted(a);
    }
  }

  lemma {:induction false} TrimKeepsPlace(place: seq<string>, p: string)
    ensures Walk(place, Split(TrimEnd(p))) == Walk(place, Split(p))
    decreases |p|
  {
    if p != "" && p[|p| - 1] == '/' {
      var q, e := p[..|p| - 1], "";
      TrimKeepsPlace(place, q);
      assert p == q + "/" + e;
      SplitConcat(q, e);
      SplitOne(e);
      WalkSnoc(place, Split(q), e);
    }
  }

  // ----- joining inverts relativising -----

  /** Trailing slashes do not change what a path cleans to. */
  lemma {:induction false} TrimKeepsSegments(p: string, rooted: bool)
    ensures PushAll([], Split(TrimEnd(p)), rooted) == PushAll([], Split(p), rooted)
    decreases |p|
  {
    if p != "" && p[|p| - 1] == '/' {
      var q, e := p[..|p| - 1], "";
      var out := PushAll([], Split(q), rooted);
      TrimKeepsSegments(q, rooted);
      assert p == q + "/" + e;
      SplitConcat(q, e);
      SplitOne(e);
      PushAllConcat([], Split(q), [e], rooted);
      assert [e][1..] == [];
      assert PushAll(out, [e], rooted) == PushAll(Push(out, e, rooted), [], rooted) == out;
    }
  }

  /** A run of `..` drops that many ordinary segments. */
  lemma {:induction false} UpsDrop(out: seq<string>, n: nat, rooted: bool)
    requires n <= |out| && forall i :: |out| - n <= i < |out| ==> out[i] != ".."
    ensures PushAll(out, Ups(n), rooted) == out[..|out| - n]
    decreases n
  {
    if n > 0 {
      assert Ups(n)[1..] == Ups(n - 1);
      UpsDrop(out[..|out| - 1], n - 1, rooted);
      assert out[..|out| - 1][..|out| - n] == out[..|out| - n];
    }
  }

  /** A leading `..` of an unrooted path is never taken back. */
  lemma {:induction false} UpsStay(out: seq<string>, segs: seq<string>, i: nat)
    requires i < |out| && forall k :: 0 <= k <= i ==> out[k] == ".."
    ensures var r := PushAll(out, segs, false); i < |r| && r[i] == ".."
    decreases |segs|
  {
    if segs != [] { UpsStay(Push(out, segs[0], false), segs[1..], i); }
  }

  /** Joining a clean relative path onto a base continues the base's segments. */
  lemma JoinContinues(base: string, parts: seq<string>)
    requires parts != [] && parts[0] != "" && forall i :: 0 <= i < |parts| ==> NoSlash(parts[i])
    ensures PathJoin(base, Join(parts)) == Render(PushAll(Segments(base), parts, Rooted(base)), Rooted(base))
  {
    SplitJoin(parts);
    JoinHead(parts);
    assert parts[0][0] in parts[0];
    if base == "" {
      EmptySegments();
    } else {
      var p := TrimEnd(base) + "/" + Join(parts);
      SplitConcat(TrimEnd(base), Join(parts));
      TrimKeepsSegments(base, Rooted(base));
      PushAllConcat([], Split(TrimEnd(base)), parts, Rooted(base));
      TrimIsPrefix(base);
      assert Rooted(p) == Rooted(base);
    }
  }

  lemma EmptySegments()
    ensures Segments("") == []
  {
    var none := "";
    SplitOne(none);
    assert [none][1..] == [];
    assert PushAll([], [none], false) == PushAll(Push([], none, false), [], false);
  }

  lemma {:induction false} TrimIsPrefix(s: string)
    ensures TrimEnd(s) <= s
    ensures s != "" && !Rooted(s) ==> TrimEnd(s) != ""
    decreases |s|
  {
    if s != "" && s[|s| - 1] == '/' { TrimIsPrefix(s[..|s| - 1]); }
  }

  /** The part of the base below the common part begins with a `..`, which no relative path can undo. */
  predicate Blocked(bs: seq<string>, ts: seq<string>) {
    CommonLength(bs, ts) < |bs| && bs[CommonLength(bs, ts)] == ".."
  }

  /** Up to the common part and down again leads from one path to the other. */
  lemma StepsLead(bs: seq<string>, common: seq<string>, down: seq<string>, rooted: bool)
    requires common <= bs && Normal(common + down, rooted)
    requires forall i :: |common| <= i < |bs| ==> bs[i] != ".."
    ensures PushAll(bs, Ups(|bs| - |common|) + down, rooted) == common + down
  {
    var ups := Ups(|bs| - |common|);
    PushAllConcat(bs, ups, down, rooted);
    UpsDrop(bs, |bs| - |common|, rooted);
    assert PushAll(bs, ups, rooted) == common;
    NormalUnchanged(common, down, rooted);
  }

  lemma BlockedStepsFail(bs: seq<string>, ts: seq<string>, rooted: bool)
    requires Normal(bs, rooted) && Blocked(bs, ts)
    ensures PushAll(bs, Steps(bs, ts), rooted) != ts
  {
    var i := CommonLength(bs, ts);
    assert !rooted && forall k :: 0 <= k <= i ==> bs[k] == "..";
    UpsStay(bs, Steps(bs, ts), i);
  }

  lemma CommonParts(bs: seq<string>, ts: seq<string>) returns (common: seq<string>, down: seq<string>)
    ensures common <= bs && common + down == ts && |common| == CommonLength(bs, ts)
    ensures Steps(bs, ts) == Ups(|bs| - |common|) + down
  {
    var i := CommonLength(bs, ts);
    common, down := ts[..i], ts[i..];
    assert bs[..i] == common;
  }

  lemma FreeStepsLead(bs: seq<string>, ts: seq<string>, rooted: bool)
    requires Normal(bs, rooted) && Normal(ts, rooted) && !Blocked(bs, ts)
    ensures PushAll(bs, Steps(bs, ts), rooted) == ts
  {
    var common, down := CommonParts(bs, ts);
    NoUpsBelow(bs, |common|, rooted);
    StepsLead(bs, common, down, rooted);
  }

  /** Below a segment that is not `..` there is none. */
  lemma NoUpsBelow(out: seq<string>, i: nat, rooted: bool)
    requires Normal(out, rooted) && (i < |out| ==> out[i] != "..")
    ensures forall k :: i <= k < |out| ==> out[k] != ".."
  {
  }

  /** The steps lead from one path to the other exactly when they are not blocked. */
  lemma StepsLeadIff(bs: seq<string>, ts: seq<string>, rooted: bool)
    requires Normal(bs, rooted) && Normal(ts, rooted)
    ensures PushAll(bs, Steps(bs, ts), rooted) == ts <==> !Blocked(bs, ts)
  {
    if Blocked(bs, ts) { BlockedStepsFail(bs, ts, rooted); } else { FreeStepsLead(bs, ts, rooted); }
  }

  /** One more segment shares at most one more with the target. */
  lemma CommonSnoc(a: seq<string>, x: string, ts: seq<string>)
    ensures CommonLength(a, ts) <= CommonLength(a + [x], ts) <= CommonLength(a, ts) + 1
  {
    var n := CommonLength(a, ts);
    assert (a + [x])[..n] == a[..n];
    if n < |a| {
      CommonIs(a + [x], ts, n);
    } else if n < |ts| && ts[n] == x {
      assert (a + [x])[..n + 1] == a[..n] + [x] && ts[..n + 1] == ts[..n] + [x];
      CommonIs(a + [x], ts, n + 1);
    } else {
      CommonIs(a + [x], ts, n);
    }
  }

  lemma PushStaysNear(out: seq<string>, seg: string, rooted: bool, ts: seq<string>)
    ensures |Steps(out, ts)| <= |Steps(Push(out, seg, rooted), ts)| + 1
  {
    var next := Push(out, seg, rooted);
    if |next| > |out| {
      CommonSnoc(out, next[|out|], ts);
      assert next == out + [next[|out|]];
    } else if |next| < |out| {
      CommonSnoc(next, out[|out| - 1], ts);
      assert out == next + [out[|out| - 1]];
    }
  }

  /** No walk from one path to the other has fewer segments than the steps. */
  lemma {:induction false} StepsAreShortest(bs: seq<string>, parts: seq<string>, rooted: bool)
    ensures |Steps(bs, PushAll(bs, parts, rooted))| <= |parts|
    decreases |parts|
  {
    var ts := PushAll(bs, parts, rooted);
    if parts == [] {
      CommonIs(bs, bs, |bs|);
    } else {
      StepsAreShortest(Push(bs, parts[0], rooted), parts[1..], rooted);
      PushStaysNear(bs, parts[0], rooted, ts);
    }
  }

  /** The names the code splits a cleaned path into: a lone dot when nothing is left of an unrooted path. */
  function NamesOf(segs: seq<string>, rooted: bool): seq<string> {
    if segs == [] && !rooted then ["."] else segs
  }

  lemma CleanNames(p: string)
    ensures CleanPath(p) == Render(Segments(p), Rooted(p))
    ensures NonEmpty(Split(CleanPath(p))) == NamesOf(Segments(p), Rooted(p))
  {
    SegmentsNormal(p);
    if p == "" { EmptySegments(); }
    if Rooted(p) { RenderedRooted(Segments(p)); } else { UnrootedNames(Segments(p)); }
  }

  lemma UnrootedNames(out: seq<string>)
    requires Normal(out, false)
    ensures NonEmpty(Split(Render(out, false))) == NamesOf(out, false)
  {
    var names := NamesOf(out, false);
    SplitJoin(names);
    assert "" + Join(out) == Join(out);
    if out != [] { JoinHead(out); }
    NonEmptyOfPlain(names);
  }

  /** Different rendered paths have different segments or differ in being rooted. */
  lemma RenderInjective(a: seq<string>, ra: bool, b: seq<string>, rb: bool)
    requires Normal(a, ra) && Normal(b, rb)
    ensures Render(a, ra) == Render(b, rb) <==> a == b && ra == rb
  {
    if ra { RenderedRooted(a); } else { RenderedUnrooted(a); }
    if rb { RenderedRooted(b); } else { RenderedUnrooted(b); }
  }

  lemma JoinDot(base: string)
    ensures PathJoin(base, ".") == CleanPath(base)
  {
    var dot := ".";
    JoinContinues(base, [dot]);
    CleanNames(base);
    var bs := Segments(base);
    assert [dot][1..] == [];
    assert PushAll(bs, [dot], Rooted(base)) == PushAll(Push(bs, dot, Rooted(base)), [], Rooted(base)) == bs;
  }

  lemma NamesSolid(p: string)
    ensures forall i :: 0 <= i < |NamesOf(Segments(p), Rooted(p))| ==>
      NoSlash(NamesOf(Segments(p), Rooted(p))[i]) && NamesOf(Segments(p), Rooted(p))[i] != ""
  {
    SegmentsNormal(p);
  }

  /** Joining any relative path continues the base with the steps between the names. */
  lemma JoinFollowsSteps(base: string, target: string)
    requires CleanPath(base) != CleanPath(target)
    ensures PathJoin(base, RelPath(base, target)) == Render(
      PushAll(Segments(base), Steps(NamesOf(Segments(base), Rooted(base)), NamesOf(Segments(target), Rooted(target))),
              Rooted(base)), Rooted(base))
  {
    var bn, tn := NamesOf(Segments(base), Rooted(base)), NamesOf(Segments(target), Rooted(target));
    CleanNames(base);
    CleanNames(target);
    var parts := Steps(bn, tn);
    if parts == [] {
      JoinDot(base);
    } else {
      NamesSolid(base);
      NamesSolid(target);
      assert parts[0] != "";
      JoinContinues(base, parts);
    }
  }

  /** Steps that start or end at a lone dot: from one they fail, to one they work unless blocked. */
  lemma DotSteps(bs: seq<string>, ts: seq<string>)
    requires Normal(bs, false) && Normal(ts, false) && bs != ts && (bs == [] || ts == [])
    ensures PushAll(bs, Steps(NamesOf(bs, false), NamesOf(ts, false)), false) == ts
      <==> bs != [] && !Blocked(bs, ts)
  {
    var dot := ".";
    if bs == [] {
      assert CommonLength([dot], ts) == 0;
      assert Steps([dot], ts) == [".."] + ts && [] + ([".."] + ts) == [".."] + ts;
      NormalUnchanged([], [".."] + ts, false);
    } else {
      assert CommonLength(bs, [dot]) == CommonLength(bs, ts) == 0;
      assert Steps(bs, [dot]) == Ups(|bs|) + [dot] && Steps(bs, ts) == Ups(|bs|);
      var up := PushAll(bs, Ups(|bs|), false);
      PushAllConcat(bs, Ups(|bs|), [dot], false);
      assert [dot][1..] == [];
      assert PushAll(up, [dot], false) == PushAll(Push(up, dot, false), [], false) == up;
      StepsLeadIff(bs, ts, false);
    }
  }

  /** What the steps between the names of two different cleaned paths lead to. */
  lemma NameStepsLeadIff(bs: seq<string>, ts: seq<string>, rooted: bool)
    requires Normal(bs, rooted) && Normal(ts, rooted) && bs != ts
    ensures var r := PushAll(bs, Steps(NamesOf(bs, rooted), NamesOf(ts, rooted)), rooted);
      r == ts <==> (rooted || bs != []) && !Blocked(bs, ts)
  {
    if !rooted && (bs == [] || ts == []) { DotSteps(bs, ts); } else { StepsLeadIff(bs, ts, rooted); }
  }

  lemma NameStepsNormal(base: string, target: string)
    ensures Normal(PushAll(Segments(base), Steps(NamesOf(Segments(base), Rooted(base)),
      NamesOf(Segments(target), Rooted(target))), Rooted(base)), Rooted(base))
  {
    SegmentsNormal(base);
    NamesSolid(base);
    NamesSolid(target);
    PushAllNormal(Segments(base), Steps(NamesOf(Segments(base), Rooted(base)),
      NamesOf(Segments(target), Rooted(target))), Rooted(base));
  }

  lemma SameClean(base: string, target: string)
    ensures CleanPath(base) == CleanPath(target) <==>
      Segments(base) == Segments(target) && Rooted(base) == Rooted(target)
    ensures CleanPath(base) == "." <==> Segments(base) == [] && !Rooted(base)
  {
    CleanNames(base);
    CleanNames(target);
    SegmentsNormal(base);
    SegmentsNormal(target);
    RenderInjective(Segments(base), Rooted(base), Segments(target), Rooted(target));
    RenderInjective(Segments(base), Rooted(base), [], false);
  }

  /**
   * Joining the relative path onto its base gives the target again exactly when the paths clean to the
   * same, or both are rooted or both not, the base is not the current directory, and below their common
   * part the base does not begin with a `..`.
   */
  lemma JoinInvertsRelIff(base: string, target: string)
    ensures PathJoin(base, RelPath(base, target)) == CleanPath(target) <==>
      || CleanPath(base) == CleanPath(target)
      || (Rooted(base) == Rooted(target) && CleanPath(base) != "." && !Blocked(Segments(base), Segments(target)))
  {
    SameClean(base, target);
    if CleanPath(base) == CleanPath(target) {
      JoinDot(base);
    } else {
      var bs, ts, rooted := Segments(base), Segments(target), Rooted(base);
      var r := PushAll(bs, Steps(NamesOf(bs, rooted), NamesOf(ts, Rooted(target))), rooted);
      JoinFollowsSteps(base, target);
      CleanNames(target);
      NameStepsNormal(base, target);
      SegmentsNormal(base);
      SegmentsNormal(target);
      RenderInjective(r, rooted, ts, Rooted(target));
      if rooted == Rooted(target) { NameStepsLeadIff(bs, ts, rooted); }
    }
  }

  /** For rooted paths nothing blocks the way. */
  lemma JoinInvertsRel(base: string, target: string)
    requires Rooted(base) && Rooted(target)
    ensures PathJoin(base, RelPath(base, target)) == CleanPath(target)
  {
    JoinInvertsRelIff(base, target);
    SegmentsNormal(base);
    CleanPathSegments(base);
  }

  // ----- the relative path of a local file -----

  /** The directory of a path: what precedes and includes its last slash, cleaned. */
  function GoDir(p: string): string {
    if p == "" then "." else CleanPath(DirPart(p))
  }

  lemma DirPartEnds(p: string, i: int)
    requires -1 <= i < |p| && (i >= 0 ==> p[i] == '/') && forall j :: i < j < |p| ==> p[j] != '/'
    ensures DirPart(p) == p[..i + 1]
  {
    var index := LastIndex(p, '/');
    assert i == if index.Some? then index.value else -1;
  }

  method GoDirLoop(p: string) returns (r: string)
    ensures r == GoDir(p)
  {
    if p == "" { return "."; }
    var i := |p| - 1;
    while i >= 0 && p[i] != '/'
      invariant -1 <= i < |p|
      invariant forall j :: i < j < |p| ==> p[j] != '/'
    {
      i := i - 1;
    }
    DirPartEnds(p, i);
    r := CleanPathLoop(p[..i + 1]);
  }

  /** The path of a file relative to the directory a base names; a base is cut at its first wildcard. */
  function RelativeTo(base: string, file: string): string {
    RelPath(GoDir(PrefixOf(base)), file)
  }

  /** For rooted paths the base's directory joined with the relative path is the file again. */
  lemma RelativeRebuilds(base: string, file: string)
    requires Rooted(base) && Rooted(file)
    ensures PathJoin(GoDir(PrefixOf(base)), RelativeTo(base, file)) == CleanPath(file)
  {
    var prefix := PrefixOf(base);
    assert Rooted(prefix);
    var index := LastIndex(prefix, '/');
    assert index.Some?;
    assert Rooted(DirPart(prefix));
    CleanPathSegments(DirPart(prefix));
    JoinInvertsRel(GoDir(prefix), file);
  }
}
