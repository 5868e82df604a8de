/**
 * The glob compiler: a wildcard pattern becomes regular-expression text by escaping it and then
 * replacing the escaped wildcards textually. A parser for the emitted subset gives that text its
 * meaning, so the compiler can be held against a direct reading of the glob.
 */
module Strutil {
  import opened Prelude

  /** The characters the `regex` crate's `escape` puts a backslash before. */
  const META: string := "\\.+*?()|[]{}^$#&-~"

  function EscapeChar(c: char): string {
    if c in META then ['\\', c] else [c]
  }

  function Escape(s: string): string {
    if s == "" then "" else EscapeChar(s[0]) + Escape(s[1..])
  }

  /** `str::replace` of the two-character text `ab`: leftmost, non-overlapping. */
  function ReplacePair(s: string, a: char, b: char, sub: string): string {
    if |s| >= 2 && s[0] == a && s[1] == b then sub + ReplacePair(s[2..], a, b, sub)
    else if s == "" then ""
    else [s[0]] + ReplacePair(s[1..], a, b, sub)
  }

  function WildcardToRegexp(pattern: string): string {
    ReplacePair(ReplacePair(Escape(pattern), '\\', '?', "."), '\\', '*', ".*")
  }

  function MatchFromStartToEnd(pattern: string): string {
    "^" + pattern + "$"
  }

  function AddNewlineFlag(pattern: string): string {
    "(?s)" + pattern
  }

  // ----- the meaning of the emitted regular expressions -----

  datatype Piece = Lit(c: char) | AnyChar | AnyRun

  /** Concatenations of escaped or plain literals, `.` and `.*`; anything else is not parsed. */
  function ParsePieces(s: string): Option<seq<Piece>> {
    if s == "" then Some([])
    else if s[0] == '\\' then
      if |s| >= 2 && s[1] in META then Cons(Lit(s[1]), ParsePieces(s[2..])) else None
    else if s[0] == '.' then
      if |s| >= 2 && s[1] == '*' then Cons(AnyRun, ParsePieces(s[2..]))
      else Cons(AnyChar, ParsePieces(s[1..]))
    else if s[0] in META then None
    else Cons(Lit(s[0]), ParsePieces(s[1..]))
  }

  function Cons(p: Piece, rest: Option<seq<Piece>>): Option<seq<Piece>> {
    if rest.Some? then Some([p] + rest.value) else None
  }

  /** The pieces of an anchored expression under the dot-matches-newline flag. */
  function ParseRegex(text: string): Option<seq<Piece>> {
    if "(?s)^" <= text && |text| > 5 && text[|text| - 1] == '$'
    then ParsePieces(text[5..|text| - 1]) else None
  }

  /** Whether the pieces match the whole of `key`. */
  predicate Accepts(pieces: seq<Piece>, key: string) {
    if pieces == [] then key == ""
    else match pieces[0]
      case Lit(c) => key != "" && key[0] == c && Accepts(pieces[1..], key[1..])
      case AnyChar => key != "" && Accepts(pieces[1..], key[1..])
      case AnyRun => exists n :: 0 <= n <= |key| && Accepts(pieces[1..], key[n..])
  }

  predicate RegexMatches(text: string, key: string) {
    var pieces := ParseRegex(text);
    pieces.Some? && Accepts(pieces.value, key)
  }

  // ----- the meaning of a glob -----

  /** `?` stands for one character, `*` for any sequence, everything else for itself. */
  predicate GlobMatch(pattern: string, key: string) {
    if pattern == "" then key == ""
    else if pattern[0] == '*' then exists n :: 0 <= n <= |key| && GlobMatch(pattern[1..], key[n..])
    else key != "" && (pattern[0] == '?' || pattern[0] == key[0]) && GlobMatch(pattern[1..], key[1..])
  }

  /** One character of a glob: `*` stands for everything, `?` for each single character, others for themselves. */
  lemma GlobOne(c: char, key: string)
    ensures GlobMatch([c], key) <==> c == '*' || (|key| == 1 && (c == '?' || key[0] == c))
    ensures GlobMatch("", key) <==> key == ""
  {
    assert [c][1..] == "";
    assert GlobMatch("", key[|key|..]);
  }

  /** The split at `n` matches both halves. */
  predicate SplitsAt(p: string, q: string, key: string, n: nat) {
    n <= |key| && GlobMatch(p, key[..n]) && GlobMatch(q, key[n..])
  }

  /** Two globs one after the other match exactly the keys that split into a match of each. */
  lemma GlobConcat(p: string, q: string, key: string)
    ensures GlobMatch(p + q, key) <==> exists n :: SplitsAt(p, q, key, n)
  {
    if GlobMatch(p + q, key) {
      var n := GlobSplit(p, q, key);
    }
    if n :| SplitsAt(p, q, key, n) {
      GlobGlue(p, q, key, n);
    }
  }

  lemma {:induction false} GlobSplit(p: string, q: string, key: string) returns (n: nat)
    requires GlobMatch(p + q, key)
    ensures SplitsAt(p, q, key, n)
    decreases |p|
  {
    if p == "" {
      n := 0;
      assert p + q == q && key[..0] == "" && key[0..] == key;
    } else {
      assert (p + q)[0] == p[0] && (p + q)[1..] == p[1..] + q;
      var m := 1;
      if p[0] == '*' {
        m :| 0 <= m <= |key| && GlobMatch(p[1..] + q, key[m..]);
      }
      n := GlobSplit(p[1..], q, key[m..]);
      n := m + n;
      assert key[m..][..n - m] == key[..n][m..] && key[m..][n - m..] == key[n..];
    }
  }

  lemma {:induction false} GlobGlue(p: string, q: string, key: string, n: nat)
    requires SplitsAt(p, q, key, n)
    ensures GlobMatch(p + q, key)
    decreases |p|
  {
    if p == "" {
      assert p + q == q && key[0..] == key;
    } else {
      assert (p + q)[0] == p[0] && (p + q)[1..] == p[1..] + q;
      var m := 1;
      if p[0] == '*' {
        m :| 0 <= m <= n && GlobMatch(p[1..], key[..n][m..]);
      }
      assert key[m..][..n - m] == key[..n][m..] && key[m..][n - m..] == key[n..];
      GlobGlue(p[1..], q, key[m..], n - m);
    }
  }

  function PieceOf(c: char): Piece {
    if c == '?' then AnyChar else if c == '*' then AnyRun else Lit(c)
  }

  function PiecesOf(pattern: string): seq<Piece> {
    if pattern == "" then [] else [PieceOf(pattern[0])] + PiecesOf(pattern[1..])
  }

  lemma {:induction false} PiecesMeanGlob(pattern: string, key: string)
    ensures Accepts(PiecesOf(pattern), key) <==> GlobMatch(pattern, key)
    decreases |pattern|
  {
    if pattern != "" {
      assert PiecesOf(pattern)[1..] == PiecesOf(pattern[1..]);
      if pattern[0] == '*' {
        forall n | 0 <= n <= |key|
          ensures Accepts(PiecesOf(pattern[1..]), key[n..]) <==> GlobMatch(pattern[1..], key[n..])
        {
          PiecesMeanGlob(pattern[1..], key[n..]);
        }
      } else if key != "" {
        PiecesMeanGlob(pattern[1..], key[1..]);
      }
    }
  }

  // ----- the text the compiler emits -----

  /** What one pattern character becomes. */
  function Emitted(c: char): string {
    if c == '?' then "." else if c == '*' then ".*" else EscapeChar(c)
  }

  function Compiled(pattern: string): string {
    if pattern == "" then "" else Emitted(pattern[0]) + Compiled(pattern[1..])
  }

  /** The text after the first of the two replacements. */
  function HalfWay(pattern: string): string {
    if pattern == "" then ""
    else (if pattern[0] == '?' then "." else EscapeChar(pattern[0])) + HalfWay(pattern[1..])
  }

  /** An escape pair is replaced or stepped over whole, whatever follows it. */
  lemma ReplacePastBlock(c: char, rest: string, b: char, sub: string)
    requires b in META && b != '\\' && (rest == "" || rest[0] != b)
    ensures ReplacePair(EscapeChar(c) + rest, '\\', b, sub)
         == (if c == b then sub else EscapeChar(c)) + ReplacePair(rest, '\\', b, sub)
  {
    var s := EscapeChar(c) + rest;
    if c == b {
      assert s[2..] == rest;
    } else if c in META {
      assert s[1..] == [c] + rest;
      assert ([c] + rest)[1..] == rest;
      assert ReplacePair([c] + rest, '\\', b, sub) == [c] + ReplacePair(rest, '\\', b, sub);
      assert ['\\'] + ([c] + ReplacePair(rest, '\\', b, sub)) == ['\\', c] + ReplacePair(rest, '\\', b, sub);
    } else {
      assert s[1..] == rest;
    }
  }

  lemma {:induction false} FirstReplacement(pattern: string)
    ensures ReplacePair(Escape(pattern), '\\', '?', ".") == HalfWay(pattern)
  {
    if pattern != "" {
      FirstReplacement(pattern[1..]);
      ReplacePastBlock(pattern[0], Escape(pattern[1..]), '?', ".");
    }
  }

  lemma {:induction false} SecondReplacement(pattern: string)
    ensures ReplacePair(HalfWay(pattern), '\\', '*', ".*") == Compiled(pattern)
  {
    if pattern != "" {
      SecondReplacement(pattern[1..]);
      var rest := HalfWay(pattern[1..]);
      if pattern[0] == '?' {
        assert ("." + rest)[1..] == rest;
      } else {
        ReplacePastBlock(pattern[0], rest, '*', ".*");
      }
    }
  }

  lemma CompilerEmits(pattern: string)
    ensures WildcardToRegexp(pattern) == Compiled(pattern)
  {
    FirstReplacement(pattern);
    SecondReplacement(pattern);
  }

  lemma {:induction false} ParseCompiled(pattern: string)
    ensures ParsePieces(Compiled(pattern)) == Some(PiecesOf(pattern))
  {
    if pattern != "" {
      var c, rest := pattern[0], Compiled(pattern[1..]);
      ParseCompiled(pattern[1..]);
      assert rest != "" ==> rest[0] != '*';
      var s := Emitted(c) + rest;
      assert s[|Emitted(c)|..] == rest;
    }
  }

  /**
   * Compiling a glob keeps its meaning: the anchored text parses, and it accepts exactly the keys
   * the glob stands for, for every pattern, literal backslashes and dots included.
   */
  lemma CompileKeepsMeaning(pattern: string, key: string)
    ensures var text := AddNewlineFlag(MatchFromStartToEnd(WildcardToRegexp(pattern)));
      ParseRegex(text).Some? && (RegexMatches(text, key) <==> GlobMatch(pattern, key))
  {
    CompilerEmits(pattern);
    AnchoredText(Compiled(pattern));
    ParseCompiled(pattern);
    PiecesMeanGlob(pattern, key);
  }

  lemma AnchoredText(body: string)
    ensures ParseRegex(AddNewlineFlag(MatchFromStartToEnd(body))) == ParsePieces(body)
  {
    var text := AddNewlineFlag(MatchFromStartToEnd(body));
    assert text == "(?s)^" + body + "$";
    assert text[5..|text| - 1] == body;
  }
}
