/** Include and exclude globs, compiled once and matched against relative keys. */
module Filters {
  import opened Strutil

  /** Compiled patterns: anchored regular-expression texts. */
  datatype Filters = Filters(includes: seq<string>, excludes: seq<string>)

  function CompileGlob(pattern: string): string {
    AddNewlineFlag(MatchFromStartToEnd(WildcardToRegexp(pattern)))
  }

  method CompileGlobs(patterns: seq<string>) returns (out: seq<string>)
    ensures |out| == |patterns|
    ensures forall i :: 0 <= i < |out| ==> ParseRegex(out[i]).Some?
    ensures forall i, key :: 0 <= i < |out| ==> (RegexMatches(out[i], key) <==> GlobMatch(patterns[i], key))
  {
    out := [];
    for i := 0 to |patterns|
      invariant |out| == i && forall j :: 0 <= j < i ==> out[j] == CompileGlob(patterns[j])
    {
      out := out + [CompileGlob(patterns[i])];
    }
    forall i, key | 0 <= i < |out|
      ensures ParseRegex(out[i]).Some? && (RegexMatches(out[i], key) <==> GlobMatch(patterns[i], key))
    {
      CompileKeepsMeaning(patterns[i], key);
    }
    forall i | 0 <= i < |out|
      ensures ParseRegex(out[i]).Some?
    {
      CompileKeepsMeaning(patterns[i], "");
    }
  }

  predicate AnyMatches(texts: seq<string>, key: string) {
    exists i :: 0 <= i < |texts| && RegexMatches(texts[i], key)
  }

  /** Excludes win; with includes present a key must match one of them. */
  predicate ShouldSkip(f: Filters, key: string) {
    AnyMatches(f.excludes, key) || (f.includes != [] && !AnyMatches(f.includes, key))
  }

  function New(includes: seq<string>, excludes: seq<string>): Filters {
    Filters(seq(|includes|, i requires 0 <= i < |includes| => CompileGlob(includes[i])),
            seq(|excludes|, i requires 0 <= i < |excludes| => CompileGlob(excludes[i])))
  }

  /** A key is skipped exactly when an exclude glob matches it, or includes exist and none does. */
  lemma SkipMeansGlobs(includes: seq<string>, excludes: seq<string>, key: string)
    ensures ShouldSkip(New(includes, excludes), key) <==>
      || (exists i :: 0 <= i < |excludes| && GlobMatch(excludes[i], key))
      || (includes != [] && forall i :: 0 <= i < |includes| ==> !GlobMatch(includes[i], key))
  {
    var f := New(includes, excludes);
    forall i | 0 <= i < |includes|
      ensures RegexMatches(f.includes[i], key) <==> GlobMatch(includes[i], key)
    {
      CompileKeepsMeaning(includes[i], key);
    }
    forall i | 0 <= i < |excludes|
      ensures RegexMatches(f.excludes[i], key) <==> GlobMatch(excludes[i], key)
    {
      CompileKeepsMeaning(excludes[i], key);
    }
  }
}
