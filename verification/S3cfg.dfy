/** The `~/.rs5cmd` dotfile: its printer, the INI parser it shares with `.s3cfg`, and the import of a `.s3cfg`. */
module S3cfg {
  import opened Prelude
  import opened Url

  type U32 = n: int | 0 <= n < 0x1_0000_0000
  type U64 = n: int | 0 <= n < 0x1_0000_0000_0000_0000
  const U16_MAX: nat := 0xFFFF
  const U32_MAX: nat := 0xFFFF_FFFF
  const U64_MAX: nat := 0xFFFF_FFFF_FFFF_FFFF

  /** The notes on options that have no counterpart. */
  datatype Warning = BadLimitRate | SignatureV2 | StorageClass | ServerSideEncryption | ClientEncryption

  datatype Translated = Translated(
    accessKey: Option<string>, secretKey: Option<string>, sessionToken: Option<string>,
    endpointUrl: Option<string>, addressingStyle: Option<string>, region: Option<string>,
    noVerifySsl: bool, caCertsFile: Option<string>, proxy: Option<string>,
    retryCount: Option<U32>, limitRate: Option<U64>, requestPayer: Option<string>,
    warnings: seq<Warning>)

  /** What the dotfile is meant to carry: everything but the credentials and the notes. */
  function Public(t: Translated): Translated {
    t.(accessKey := None, secretKey := None, sessionToken := None, warnings := [])
  }

  // ----- text -----

  /** Unicode's `White_Space` property. */
  predicate White(c: char) {
    var n := c as int;
    || 0x09 <= n <= 0x0D || n == 0x20 || n == 0x85 || n == 0xA0 || n == 0x1680
    || 0x2000 <= n <= 0x200A || n == 0x2028 || n == 0x2029 || n == 0x202F || n == 0x205F || n == 0x3000
  }

  function TrimLeft(s: string): string {
    if s != "" && White(s[0]) then TrimLeft(s[1..]) else s
  }

  function TrimRight(s: string): string {
    if s != "" && White(s[|s| - 1]) then TrimRight(s[..|s| - 1]) else s
  }

  function Trim(s: string): string {
    TrimRight(TrimLeft(s))
  }

  predicate Trimmed(s: string) {
    s != "" ==> !White(s[0]) && !White(s[|s| - 1])
  }

  predicate OneLine(s: string) {
    '\n' !in s
  }

  function LowerChar(c: char): char {
    if 'A' <= c <= 'Z' then (c as int + 32) as char else c
  }

  /** ASCII lower case. */
  function Lower(s: string): (r: string)
    ensures |r| == |s| && forall i :: 0 <= i < |s| ==> r[i] == LowerChar(s[i])
  {
    seq(|s|, i requires 0 <= i < |s| => LowerChar(s[i]))
  }

  lemma {:induction false} TrimLeftIs(s: string)
    ensures var r := TrimLeft(s);
      && |r| <= |s| && r == s[|s| - |r|..]
      && (r != "" ==> !White(r[0]))
      && (s != "" && !White(s[0]) ==> r == s)
  {
    if s != "" && White(s[0]) { TrimLeftIs(s[1..]); }
  }

  lemma {:induction false} TrimRightIs(s: string)
    ensures var r := TrimRight(s);
      && r <= s
      && (r != "" ==> !White(r[|r| - 1]))
      && (s != "" && !White(s[|s| - 1]) ==> r == s)
      && (s != "" && !White(s[0]) ==> r != "")
    decreases |s|
  {
    if s != "" && White(s[|s| - 1]) { TrimRightIs(s[..|s| - 1]); }
  }

  /** Trimming gives a trimmed piece of the text, and leaves a trimmed text as it is. */
  lemma TrimIs(s: string)
    ensures var r := Trim(s);
      && Trimmed(r) && (OneLine(s) ==> OneLine(r))
      && (Trimmed(s) ==> r == s)
      && (s != "" && !White(s[0]) ==> r != "" && r[0] == s[0])
  {
    TrimLeftIs(s);
    TrimRightIs(TrimLeft(s));
  }

  lemma TrimPadded(s: string)
    requires s != "" && Trimmed(s)
    ensures Trim(s + " ") == s && Trim(" " + s) == s
  {
    TrimIs(s);
    TrimLeftIs(s + " ");
    var after, before := s + " ", " " + s;
    assert after[..|s|] == s && before[1..] == s;
    assert TrimRight(after) == TrimRight(s) && TrimLeft(before) == TrimLeft(s);
  }

  // ----- numbers -----

  predicate IsDigit(c: char) {
    '0' <= c <= '9'
  }

  predicate AllDigits(s: string) {
    forall i :: 0 <= i < |s| ==> IsDigit(s[i])
  }

  function Digits(n: nat): string {
    if n < 10 then [('0' as int + n) as char] else Digits(n / 10) + [('0' as int + n % 10) as char]
  }

  function Value(s: string): nat
    requires AllDigits(s)
  {
    if s == "" then 0 else Value(s[..|s| - 1]) * 10 + (s[|s| - 1] as int - '0' as int)
  }

  /** Reading an unsigned integer: an optional plus sign, digits, and no overflow. */
  function ParseUint(s: string, max: nat): (r: Option<nat>)
    ensures r.Some? ==> r.value <= max
  {
    var body := if s != "" && s[0] == '+' then s[1..] else s;
    if body != "" && AllDigits(body) && Value(body) <= max then Some(Value(body)) else None
  }

  lemma {:induction false} DigitsAreDigits(n: nat)
    ensures Digits(n) != "" && AllDigits(Digits(n)) && Value(Digits(n)) == n
  {
    if n >= 10 {
      DigitsAreDigits(n / 10);
      assert Digits(n)[..|Digits(n)| - 1] == Digits(n / 10);
    }
  }

  lemma ReadBackNumber(n: nat, max: nat)
    requires n <= max
    ensures ParseUint(Digits(n), max) == Some(n)
    ensures Digits(n) != "" && Trimmed(Digits(n)) && OneLine(Digits(n))
  {
    DigitsAreDigits(n);
    assert IsDigit(Digits(n)[0]) && IsDigit(Digits(n)[|Digits(n)| - 1]);
  }

  /** The reader of human sizes such as `1MiB`, a foreign parser. */
  type HumanSize = string -> Option<U64>

  function ParseByteRate(s: string, human: HumanSize): Option<U64> {
    var text := Trim(s);
    var n := ParseUint(text, U64_MAX);
    if n.Some? then Some(n.value) else human(text)
  }

  function ParseBool(s: string): Option<bool> {
    var word := Lower(Trim(s));
    if word in {"true", "1", "yes", "on"} then Some(true)
    else if word in {"false", "0", "no", "off"} then Some(false)
    else None
  }

  // ----- the printer -----

  /** In three pieces: the verifier compares a long literal with itself character by character. */
  const COMMENT: string := "# rs5cmd config " + "(generated by " + "`import-s3cfg`)"
  const SECTION: string := "[rs5cmd]"

  const SETTINGS: nat := 9

  /** The keys in the order the printer writes them. */
  function Key(i: nat): string
    requires i < SETTINGS
  {
    match i
    case 0 => "endpoint_url"
    case 1 => "region"
    case 2 => "addressing_style"
    case 3 => "no_verify_ssl"
    case 4 => "ca_certs_file"
    case 5 => "proxy"
    case 6 => "retry_count"
    case 7 => "limitrate"
    case _ => "request_payer"
  }

  /** The value text of a key, if the printer writes one. */
  function Setting(t: Translated, i: nat): Option<string>
    requires i < SETTINGS
  {
    match i
    case 0 => t.endpointUrl
    case 1 => t.region
    case 2 => t.addressingStyle
    case 3 => if t.noVerifySsl then Some("true") else None
    case 4 => t.caCertsFile
    case 5 => t.proxy
    case 6 => if t.retryCount.Some? then Some(Digits(t.retryCount.value)) else None
    case 7 => if t.limitRate.Some? then Some(Digits(t.limitRate.value)) else None
    case _ => t.requestPayer
  }

  function Keys(): seq<string> {
    seq(SETTINGS, i requires 0 <= i < SETTINGS => Key(i))
  }

  function Settings(t: Translated): seq<Option<string>> {
    seq(SETTINGS, i requires 0 <= i < SETTINGS => Setting(t, i))
  }

  /** The lines of a text, each with its line feed. */
  function Unlines(lines: seq<string>): string {
    if lines == [] then "" else lines[0] + "\n" + Unlines(lines[1..])
  }

  function Entry(key: string, value: string): string {
    key + " = " + value
  }

  function Opt(key: string, value: Option<string>): seq<string> {
    if value.Some? then [Entry(key, value.value)] else []
  }

  /** Leading lines and the entries of the first `n` pairs. */
  function FileLines(head: seq<string>, keys: seq<string>, values: seq<Option<string>>, n: nat): seq<string>
    requires |keys| == |values| && n <= |keys|
  {
    if n == 0 then head else FileLines(head, keys, values, n - 1) + Opt(keys[n - 1], values[n - 1])
  }

  function Head(): seq<string> {
    [COMMENT, SECTION]
  }

  function Rs5cmdIni(t: Translated): string {
    Unlines(FileLines(Head(), Keys(), Settings(t), SETTINGS))
  }

  /** What the printer has written after its first `n` settings. */
  ghost function Written(t: Translated, n: nat): string
    requires n <= SETTINGS
  {
    Unlines(FileLines(Head(), Keys(), Settings(t), n))
  }

  /** The printer: a comment, a section header and one entry for each setting present. */
  method ToRs5cmdIni(t: Translated) returns (out: string)
    ensures out == Rs5cmdIni(t)
  {
    out := COMMENT + "\n" + SECTION + "\n";
    TwoLines(COMMENT, SECTION);
    out := AppendEntry(t, 0, out, "endpoint_url", t.endpointUrl);
    out := AppendEntry(t, 1, out, "region", t.region);
    out := AppendEntry(t, 2, out, "addressing_style", t.addressingStyle);
    out := AppendEntry(t, 3, out, "no_verify_ssl", if t.noVerifySsl then Some("true") else None);
    out := AppendEntry(t, 4, out, "ca_certs_file", t.caCertsFile);
    out := AppendEntry(t, 5, out, "proxy", t.proxy);
    out := AppendEntry(t, 6, out, "retry_count",
      if t.retryCount.Some? then Some(Digits(t.retryCount.value)) else None);
    out := AppendEntry(t, 7, out, "limitrate",
      if t.limitRate.Some? then Some(Digits(t.limitRate.value)) else None);
    out := AppendEntry(t, 8, out, "request_payer", t.requestPayer);
  }

  /** The printer's closure: one more setting, if it is present. */
  method AppendEntry(ghost t: Translated, ghost n: nat, out: string, key: string, value: Option<string>)
    returns (more: string)
    requires n < SETTINGS && key == Key(n) && value == Setting(t, n) && out == Written(t, n)
    ensures more == Written(t, n + 1)
  {
    ghost var lines := FileLines(Head(), Keys(), Settings(t), n);
    more := out;
    if value.Some? {
      UnlinesSnoc(lines, Entry(key, value.value));
      Assoc(out, key, " = ");
      Assoc(out, key + " = ", value.value);
      Assoc(out, Entry(key, value.value), "\n");
      more := more + key;
      more := more + " = ";
      more := more + value.value;
      more := more + "\n";
    } else {
      assert lines + [] == lines;
    }
  }

  lemma TwoLines(a: string, b: string)
    ensures Unlines([a, b]) == a + "\n" + b + "\n"
  {
    UnlinesSnoc([], a);
    UnlinesSnoc([a], b);
    assert [] + [a] == [a] && [a] + [b] == [a, b];
    assert Unlines([a]) + (b + "\n") == a + "\n" + b + "\n";
  }

  lemma {:induction false} UnlinesSnoc(lines: seq<string>, line: string)
    ensures Unlines(lines + [line]) == Unlines(lines) + (line + "\n")
  {
    if lines == [] {
      assert [] + [line] == [line];
    } else {
      assert (lines + [line])[1..] == lines[1..] + [line];
      UnlinesSnoc(lines[1..], line);
      Assoc(lines[0] + "\n", Unlines(lines[1..]), line + "\n");
    }
  }

  lemma Assoc<T>(a: seq<T>, b: seq<T>, c: seq<T>)
    ensures (a + b) + c == a + (b + c)
  {
  }

  // ----- the parser -----

  /** The lines of a text; a carriage return before a line feed belongs to the line end. */
  function Lines(text: string): seq<string>
    decreases |text|
  {
    if text == "" then []
    else
      var i := FirstIndex(text, '\n');
      if i.None? then [text] else [StripReturn(text[..i.value])] + Lines(text[i.value + 1..])
  }

  function StripReturn(line: string): string {
    if line != "" && line[|line| - 1] == '\r' then line[..|line| - 1] else line
  }

  /** The pair a line gives, if it is neither blank, a comment nor a section header and has an `=`. */
  function ParseLine(line: string): Option<(string, string)> {
    var t := Trim(line);
    if t == "" || t[0] in {'#', ';', '['} then None
    else
      var i := FirstIndex(t, '=');
      if i.None? then None else Some((Lower(Trim(t[..i.value])), Trim(t[i.value + 1..])))
  }

  function Put(m: map<string, string>, pair: Option<(string, string)>): map<string, string> {
    if pair.Some? then m[pair.value.0 := pair.value.1] else m
  }

  type LineParser = string -> Option<(string, string)>

  /** The map the first `n` lines give, later lines winning. */
  function IniUpTo(parse: LineParser, lines: seq<string>, n: nat): map<string, string>
    requires n <= |lines|
  {
    if n == 0 then map[] else Put(IniUpTo(parse, lines, n - 1), parse(lines[n - 1]))
  }

  function IniOfLines(parse: LineParser, lines: seq<string>): map<string, string> {
    IniUpTo(parse, lines, |lines|)
  }

  function Ini(text: string): map<string, string> {
    IniOfLines(ParseLine, Lines(text))
  }

  /** The parsing loop. */
  method ParseIni(text: string) returns (m: map<string, string>)
    ensures m == Ini(text)
  {
    var lines := Lines(text);
    m := map[];
    for k := 0 to |lines|
      invariant m == IniUpTo(ParseLine, lines, k)
    {
      m := Put(m, ParseLine(lines[k]));
    }
  }

  function Get(m: map<string, string>, key: string): Option<string> {
    if key in m then Some(m[key]) else None
  }

  function NonEmpty(m: map<string, string>, key: string): Option<string> {
    if key in m && Trim(m[key]) != "" then Some(Trim(m[key])) else None
  }

  function BoolAt(m: map<string, string>, key: string): Option<bool> {
    if key in m then ParseBool(m[key]) else None
  }

  function UintAt(m: map<string, string>, key: string, max: nat): (r: Option<nat>)
    ensures r.Some? ==> r.value <= max
  {
    if key in m then ParseUint(Trim(m[key]), max) else None
  }

  function RateAt(m: map<string, string>, key: string, human: HumanSize): Option<U64> {
    var raw := NonEmpty(m, key);
    if raw.Some? then ParseByteRate(raw.value, human) else None
  }

  function FromRs5cmd(m: map<string, string>, human: HumanSize): Translated {
    var retries := UintAt(m, "retry_count", U32_MAX);
    Translated(
      NonEmpty(m, "access_key"), NonEmpty(m, "secret_key"), NonEmpty(m, "session_token"),
      NonEmpty(m, "endpoint_url"), NonEmpty(m, "addressing_style"), NonEmpty(m, "region"),
      BoolAt(m, "no_verify_ssl") == Some(true), NonEmpty(m, "ca_certs_file"), NonEmpty(m, "proxy"),
      if retries.Some? then Some(retries.value) else None,
      RateAt(m, "limitrate", human), NonEmpty(m, "request_payer"), [])
  }

  // ----- what the parser reads -----

  /** Every value read from a text is trimmed and on one line. */
  lemma {:induction false} ReadValuesClean(lines: seq<string>, n: nat, key: string)
    requires n <= |lines| && forall i :: 0 <= i < |lines| ==> OneLine(lines[i])
    requires key in IniUpTo(ParseLine, lines, n)
    ensures var v := IniUpTo(ParseLine, lines, n)[key]; Trimmed(v) && OneLine(v)
  {
    var t := Trim(lines[n - 1]);
    TrimIs(lines[n - 1]);
    if key in IniUpTo(ParseLine, lines, n - 1) { ReadValuesClean(lines, n - 1, key); }
    var i := FirstIndex(t, '=');
    if i.Some? { TrimIs(t[i.value + 1..]); }
  }

  lemma {:induction false} LinesAreLines(text: string)
    ensures forall i :: 0 <= i < |Lines(text)| ==> OneLine(Lines(text)[i])
    decreases |text|
  {
    if text != "" {
      var i := FirstIndex(text, '\n');
      if i.Some? { LinesAreLines(text[i.value + 1..]); }
    }
  }

  /** A setting read as a text is trimmed, non-empty and on one line. */
  lemma NonEmptyIsWritable(text: string, key: string)
    ensures WritableText(NonEmpty(Ini(text), key))
  {
    if key in Ini(text) {
      LinesAreLines(text);
      ReadValuesClean(Lines(text), |Lines(text)|, key);
      TrimIs(Ini(text)[key]);
    }
  }

  predicate WritableText(v: Option<string>) {
    v.Some? ==> v.value != "" && Trimmed(v.value) && OneLine(v.value)
  }

  /** The texts the dotfile can carry: trimmed, non-empty and on one line. */
  predicate Writable(t: Translated) {
    && WritableText(t.endpointUrl) && WritableText(t.addressingStyle) && WritableText(t.region)
    && WritableText(t.caCertsFile) && WritableText(t.proxy) && WritableText(t.requestPayer)
  }

  // ----- reading back what was printed -----

  lemma LinesFirst(line: string, rest: string)
    requires OneLine(line)
    ensures Lines(line + "\n" + rest) == [StripReturn(line)] + Lines(rest)
  {
    var s := line + "\n" + rest;
    assert s[..|line|] == line && s[|line| + 1..] == rest;
    FirstIs(s, '\n', |line|);
  }

  lemma FirstIs(s: string, c: char, i: nat)
    requires i < |s| && s[i] == c && c !in s[..i]
    ensures FirstIndex(s, c) == Some(i)
  {
    assert forall j :: 0 <= j < i ==> s[j] == s[..i][j];
  }

  /** A line that printing and splitting keeps whole. */
  predicate WholeLine(line: string) {
    OneLine(line) && StripReturn(line) == line
  }

  lemma {:induction false} LinesOfUnlines(lines: seq<string>)
    requires forall i :: 0 <= i < |lines| ==> WholeLine(lines[i])
    ensures Lines(Unlines(lines)) == lines
  {
    if lines != [] {
      LinesOfUnlines(lines[1..]);
      LinesFirst(lines[0], Unlines(lines[1..]));
    }
  }

  lemma IniConcatOne(parse: LineParser, lines: seq<string>, line: string)
    ensures IniOfLines(parse, lines + [line]) == Put(IniOfLines(parse, lines), parse(line))
  {
    IniPrefix(parse, lines, [line], |lines|);
  }

  lemma {:induction false} IniPrefix(parse: LineParser, lines: seq<string>, more: seq<string>, n: nat)
    requires n <= |lines|
    ensures IniUpTo(parse, lines + more, n) == IniUpTo(parse, lines, n)
  {
    if n > 0 { IniPrefix(parse, lines, more, n - 1); }
  }

  predicate KeyChar(c: char) {
    'a' <= c <= 'z' || c == '_'
  }

  /** Keys are words of lower-case letters and underscores. */
  predicate PlainKey(key: string) {
    key != "" && forall i :: 0 <= i < |key| ==> KeyChar(key[i])
  }

  /** Such a key survives printing and parsing as it is. */
  lemma PlainKeySurvives(key: string)
    requires PlainKey(key)
    ensures Trimmed(key) && OneLine(key) && '=' !in key && Lower(key) == key && key[0] !in {'#', ';', '['}
  {
    assert KeyChar(key[0]) && KeyChar(key[|key| - 1]);
    assert Lower(key) == key;
  }

  /** A printed entry parses to exactly its key and value. */
  lemma ParseEntry(key: string, value: string)
    requires PlainKey(key) && WritableText(Some(value))
    ensures ParseLine(Entry(key, value)) == Some((key, value)) && WholeLine(Entry(key, value))
  {
    var left, right := key + " ", " " + value;
    var line := Entry(key, value);
    PlainKeySurvives(key);
    EntrySplits(key, value);
    TrimIs(line);
    FirstIs(line, '=', |left|);
    TrimPadded(key);
    TrimPadded(value);
  }

  lemma EntrySplits(key: string, value: string)
    requires key != "" && value != ""
    ensures var line, n := Entry(key, value), |key| + 1;
      && line[0] == key[0] && line[|line| - 1] == value[|value| - 1] && line[n] == '='
      && line[..n] == key + " " && line[n + 1..] == " " + value
  {
  }

  /** The value the last of the first `n` pairs with key `k` gives it. */
  function LastValue(keys: seq<string>, values: seq<Option<string>>, n: nat, k: string): Option<string>
    requires |keys| == |values| && n <= |keys|
  {
    if n == 0 then None
    else if k == keys[n - 1] && values[n - 1].Some? then values[n - 1]
    else LastValue(keys, values, n - 1, k)
  }

  lemma {:induction false} LastValueIs(keys: seq<string>, values: seq<Option<string>>, n: nat, i: nat)
    requires |keys| == |values| && i < n <= |keys| && NoDup(keys)
    ensures LastValue(keys, values, n, keys[i]) == values[i]
  {
    if i == n - 1 {
      NoValue(keys, values, i, keys[i]);
    } else {
      LastValueIs(keys, values, n - 1, i);
    }
  }

  lemma {:induction false} NoValue(keys: seq<string>, values: seq<Option<string>>, n: nat, k: string)
    requires |keys| == |values| && n <= |keys| && forall i :: 0 <= i < n ==> keys[i] != k
    ensures LastValue(keys, values, n, k) == None
  {
    if n > 0 { NoValue(keys, values, n - 1, k); }
  }

  ghost predicate Printable(keys: seq<string>, values: seq<Option<string>>)
    requires |keys| == |values|
  {
    forall i :: 0 <= i < |keys| ==> PlainKey(keys[i]) && WritableText(values[i])
  }

  lemma {:induction false} FileLinesWhole(
      head: seq<string>, keys: seq<string>, values: seq<Option<string>>, n: nat, line: string)
    requires |keys| == |values| && n <= |keys| && Printable(keys, values)
    requires line in FileLines(head, keys, values, n)
    ensures line in head || WholeLine(line)
  {
    if n > 0 {
      if line in FileLines(head, keys, values, n - 1) {
        FileLinesWhole(head, keys, values, n - 1, line);
      } else {
        ParseEntry(keys[n - 1], values[n - 1].value);
      }
    }
  }

  /** The parser reads each printed entry as its pair. */
  ghost predicate ReadsEach(parse: LineParser, keys: seq<string>, values: seq<Option<string>>)
    requires |keys| == |values|
  {
    forall i :: 0 <= i < |keys| && values[i].Some? ==>
      parse(Entry(keys[i], values[i].value)) == Some((keys[i], values[i].value))
  }

  /** Parsing the printed lines gives every key exactly its printed value. */
  lemma {:induction false} ReadEntries(
      parse: LineParser, head: seq<string>, keys: seq<string>, values: seq<Option<string>>, n: nat, k: string)
    requires |keys| == |values| && n <= |keys| && ReadsEach(parse, keys, values)
    requires k !in IniOfLines(parse, head)
    ensures Get(IniOfLines(parse, FileLines(head, keys, values, n)), k) == LastValue(keys, values, n, k)
  {
    if n > 0 {
      var lines, key, value := FileLines(head, keys, values, n - 1), keys[n - 1], values[n - 1];
      ReadEntries(parse, head, keys, values, n - 1, k);
      if value.Some? {
        IniConcatOne(parse, lines, Entry(key, value.value));
      } else {
        assert lines + [] == lines;
      }
    }
  }

  lemma ParseLineReadsEach(keys: seq<string>, values: seq<Option<string>>)
    requires |keys| == |values| && Printable(keys, values)
    ensures ReadsEach(ParseLine, keys, values)
  {
    forall i | 0 <= i < |keys| && values[i].Some?
      ensures ParseLine(Entry(keys[i], values[i].value)) == Some((keys[i], values[i].value))
    {
      ParseEntry(keys[i], values[i].value);
    }
  }

  // ----- the dotfile -----

  /** A comment or a section header gives no pair. */
  lemma SilentLine(line: string)
    requires line != "" && line[0] in {'#', ';', '['}
    ensures ParseLine(line) == None
  {
    TrimIs(line);
  }

  lemma SilentPair(a: string, b: string)
    requires a != "" && a[0] in {'#', ';', '['} && b != "" && b[0] in {'#', ';', '['}
    ensures IniOfLines(ParseLine, [a, b]) == map[]
  {
    SilentLine(a);
    SilentLine(b);
    IniConcatOne(ParseLine, [], a);
    IniConcatOne(ParseLine, [a], b);
    assert [] + [a] == [a] && [a] + [b] == [a, b];
  }

  lemma HeadIsSilent()
    ensures IniOfLines(ParseLine, Head()) == map[] && WholeLine(COMMENT) && WholeLine(SECTION)
  {
    SilentPair(COMMENT, SECTION);
  }

  lemma KeysDistinct()
    ensures NoDup(Keys())
  {
    forall i: nat, j: nat | i < j < SETTINGS
      ensures Key(i) != Key(j)
    {
      assert |Key(i)| != |Key(j)| || Key(i)[0] != Key(j)[0];
    }
  }

  lemma KeyIsPlain(i: nat)
    requires i < SETTINGS
    ensures PlainKey(Key(i))
  {
    assert forall j :: 0 <= j < |Key(i)| ==> KeyChar(Key(i)[j]);
  }

  lemma SettingsPrintable(t: Translated)
    requires Writable(t)
    ensures Printable(Keys(), Settings(t))
  {
    if t.retryCount.Some? { ReadBackNumber(t.retryCount.value, U32_MAX); }
    if t.limitRate.Some? { ReadBackNumber(t.limitRate.value, U64_MAX); }
    forall i: nat | i < SETTINGS
      ensures PlainKey(Key(i)) && WritableText(Setting(t, i))
    {
      KeyIsPlain(i);
    }
  }

  // ----- the dotfile round trip -----

  lemma TextReadsBack(m: map<string, string>, key: string, value: Option<string>)
    requires Get(m, key) == value && WritableText(value)
    ensures NonEmpty(m, key) == value
  {
    if value.Some? { TrimIs(value.value); }
  }

  lemma NumberReadsBack(m: map<string, string>, key: string, value: Option<nat>, max: nat)
    requires Get(m, key) == (if value.Some? then Some(Digits(value.value)) else None)
    requires value.Some? ==> value.value <= max
    ensures UintAt(m, key, max) == value
  {
    if value.Some? {
      ReadBackNumber(value.value, max);
      TrimIs(Digits(value.value));
    }
  }

  lemma RateReadsBack(m: map<string, string>, key: string, value: Option<U64>, human: HumanSize)
    requires Get(m, key) == (if value.Some? then Some(Digits(value.value)) else None)
    ensures RateAt(m, key, human) == value
  {
    if value.Some? {
      ReadBackNumber(value.value, U64_MAX);
      TrimIs(Digits(value.value));
    }
  }

  lemma TrueReadsBack(m: map<string, string>, key: string, value: bool)
    requires Get(m, key) == (if value then Some("true") else None)
    ensures (BoolAt(m, key) == Some(true)) == value
  {
    var word := "true";
    TrimIs(word);
    assert Lower(word) == word;
  }

  /** The map carries the printed settings and no credentials. */
  ghost predicate Carries(m: map<string, string>, t: Translated) {
    && (forall i: nat :: i < SETTINGS ==> Get(m, Key(i)) == Setting(t, i))
    && "access_key" !in m && "secret_key" !in m && "session_token" !in m
  }

  lemma CredentialKeysUnprinted(i: nat)
    requires i < SETTINGS
    ensures Key(i) != "access_key" && Key(i) != "secret_key" && Key(i) != "session_token"
  {
    assert |Key(i)| != 10 && (|Key(i)| != 13 || Key(i)[0] != 's');
  }

  lemma PrintedLines(t: Translated)
    requires Writable(t)
    ensures Lines(Rs5cmdIni(t)) == FileLines(Head(), Keys(), Settings(t), SETTINGS) && Printable(Keys(), Settings(t))
  {
    var lines := FileLines(Head(), Keys(), Settings(t), SETTINGS);
    SettingsPrintable(t);
    HeadIsSilent();
    forall i | 0 <= i < |lines|
      ensures WholeLine(lines[i])
    {
      FileLinesWhole(Head(), Keys(), Settings(t), SETTINGS, lines[i]);
    }
    LinesOfUnlines(lines);
  }

  lemma SettingReadsBack(t: Translated, i: nat)
    requires Writable(t) && i < SETTINGS
    ensures Get(Ini(Rs5cmdIni(t)), Key(i)) == Setting(t, i)
  {
    PrintedLines(t);
    HeadIsSilent();
    KeysDistinct();
    ParseLineReadsEach(Keys(), Settings(t));
    ReadEntries(ParseLine, Head(), Keys(), Settings(t), SETTINGS, Key(i));
    LastValueIs(Keys(), Settings(t), SETTINGS, i);
  }

  lemma OtherKeyAbsent(t: Translated, k: string)
    requires Writable(t) && forall i: nat :: i < SETTINGS ==> Key(i) != k
    ensures k !in Ini(Rs5cmdIni(t))
  {
    PrintedLines(t);
    HeadIsSilent();
    ParseLineReadsEach(Keys(), Settings(t));
    ReadEntries(ParseLine, Head(), Keys(), Settings(t), SETTINGS, k);
    NoValue(Keys(), Settings(t), SETTINGS, k);
  }

  lemma PrintedCarries(t: Translated)
    requires Writable(t)
    ensures Carries(Ini(Rs5cmdIni(t)), t)
  {
    forall i: nat | i < SETTINGS
      ensures Get(Ini(Rs5cmdIni(t)), Key(i)) == Setting(t, i)
      ensures Key(i) != "access_key" && Key(i) != "secret_key" && Key(i) != "session_token"
    {
      SettingReadsBack(t, i);
      CredentialKeysUnprinted(i);
    }
    OtherKeyAbsent(t, "access_key");
    OtherKeyAbsent(t, "secret_key");
    OtherKeyAbsent(t, "session_token");
  }

  lemma SettingRead(m: map<string, string>, t: Translated, i: nat)
    requires Carries(m, t) && i < SETTINGS
    ensures Get(m, Key(i)) == Setting(t, i)
  {
  }

  lemma ConnectionReadsBack(m: map<string, string>, t: Translated)
    requires Carries(m, t) && Writable(t)
    ensures NonEmpty(m, "endpoint_url") == t.endpointUrl && NonEmpty(m, "region") == t.region
    ensures NonEmpty(m, "addressing_style") == t.addressingStyle && NonEmpty(m, "ca_certs_file") == t.caCertsFile
    ensures NonEmpty(m, "proxy") == t.proxy && NonEmpty(m, "request_payer") == t.requestPayer
  {
    SettingRead(m, t, 0); SettingRead(m, t, 1); SettingRead(m, t, 2);
    SettingRead(m, t, 4); SettingRead(m, t, 5); SettingRead(m, t, 8);
    TextReadsBack(m, "endpoint_url", t.endpointUrl);
    TextReadsBack(m, "region", t.region);
    TextReadsBack(m, "addressing_style", t.addressingStyle);
    TextReadsBack(m, "ca_certs_file", t.caCertsFile);
    TextReadsBack(m, "proxy", t.proxy);
    TextReadsBack(m, "request_payer", t.requestPayer);
  }

  lemma TuningReadsBack(m: map<string, string>, t: Translated, human: HumanSize)
    requires Carries(m, t)
    ensures UintAt(m, "retry_count", U32_MAX) == t.retryCount && RateAt(m, "limitrate", human) == t.limitRate
    ensures (BoolAt(m, "no_verify_ssl") == Some(true)) == t.noVerifySsl
  {
    SettingRead(m, t, 3); SettingRead(m, t, 6); SettingRead(m, t, 7);
    TrueReadsBack(m, "no_verify_ssl", t.noVerifySsl);
    NumberReadsBack(m, "retry_count", t.retryCount, U32_MAX);
    RateReadsBack(m, "limitrate", t.limitRate, human);
  }

  lemma WritableReadsBack(t: Translated, human: HumanSize)
    requires Writable(t)
    ensures FromRs5cmd(Ini(Rs5cmdIni(t)), human) == Public(t)
  {
    var m := Ini(Rs5cmdIni(t));
    PrintedCarries(t);
    ConnectionReadsBack(m, t);
    TuningReadsBack(m, t, human);
  }

  /** Each setting is printed under its own name, absent ones are not printed, and credentials never are. */
  lemma PrintedUnderOwnName(t: Translated)
    requires Writable(t)
    ensures var m := Ini(Rs5cmdIni(t));
      && Get(m, "endpoint_url") == t.endpointUrl && Get(m, "region") == t.region
      && Get(m, "addressing_style") == t.addressingStyle && Get(m, "ca_certs_file") == t.caCertsFile
      && Get(m, "proxy") == t.proxy && Get(m, "request_payer") == t.requestPayer
      && ("no_verify_ssl" in m <==> t.noVerifySsl)
      && ("retry_count" in m <==> t.retryCount.Some?) && ("limitrate" in m <==> t.limitRate.Some?)
      && "access_key" !in m && "secret_key" !in m && "session_token" !in m
  {
    var m := Ini(Rs5cmdIni(t));
    PrintedCarries(t);
    SettingRead(m, t, 0); SettingRead(m, t, 1); SettingRead(m, t, 2); SettingRead(m, t, 3); SettingRead(m, t, 4);
    SettingRead(m, t, 5); SettingRead(m, t, 6); SettingRead(m, t, 7); SettingRead(m, t, 8);
  }

  /** Whatever a file says, the settings read from it can be written. */
  lemma ReadIsWritable(text: string, human: HumanSize)
    ensures Writable(FromRs5cmd(Ini(text), human))
  {
    NonEmptyIsWritable(text, "endpoint_url");
    NonEmptyIsWritable(text, "addressing_style");
    NonEmptyIsWritable(text, "region");
    NonEmptyIsWritable(text, "ca_certs_file");
    NonEmptyIsWritable(text, "proxy");
    NonEmptyIsWritable(text, "request_payer");
  }

  /** Printing then reading gives the settings without credentials and notes exactly when every text is trimmed,
      non-empty and on one line. */
  lemma RoundTripIff(t: Translated, human: HumanSize)
    ensures FromRs5cmd(Ini(Rs5cmdIni(t)), human) == Public(t) <==> Writable(t)
  {
    if Writable(t) {
      WritableReadsBack(t, human);
    } else {
      ReadIsWritable(Rs5cmdIni(t), human);
    }
  }

  /** Rewriting any dotfile and reading it again loses nothing but the credentials. */
  lemma RewriteIsStable(text: string, human: HumanSize)
    ensures var t := FromRs5cmd(Ini(text), human);
      FromRs5cmd(Ini(Rs5cmdIni(t)), human) == Public(t)
  {
    ReadIsWritable(text, human);
    WritableReadsBack(FromRs5cmd(Ini(text), human), human);
  }

  // ----- importing a .s3cfg -----

  predicate HasScheme(lower: string) {
    "http://" <= lower || "https://" <= lower
  }

  function TrimEndSlashes(s: string): string {
    if s != "" && s[|s| - 1] == '/' then TrimEndSlashes(s[..|s| - 1]) else s
  }

  function EndpointOf(m: map<string, string>): Option<string> {
    var raw := NonEmpty(m, "host_base");
    if raw.None? then None
    else
      var host := TrimEndSlashes(raw.value);
      if HasScheme(Lower(host)) then Some(host)
      else Some((if BoolAt(m, "use_https") == Some(false) then "http" else "https") + "://" + host)
  }

  function NormalizeRegion(loc: string): string {
    var l := Trim(loc);
    if l in {"US", "us"} then "us-east-1" else if l in {"EU", "eu"} then "eu-west-1" else l
  }

  function RegionOf(m: map<string, string>): Option<string> {
    var region := NonEmpty(m, "region");
    var r := if region.Some? then region else NonEmpty(m, "bucket_location");
    if r.Some? then Some(NormalizeRegion(r.value)) else None
  }

  function StyleOf(m: map<string, string>): Option<string> {
    var hb := NonEmpty(m, "host_bucket");
    if hb.None? then None
    else Some(if "%(bucket)s" <= TrimLeft(hb.value) then "virtual" else "path")
  }

  function ProxyOf(m: map<string, string>): Option<string> {
    var host := NonEmpty(m, "proxy_host");
    if host.None? then None
    else if HasScheme(Lower(host.value)) || "socks5" <= Lower(host.value) then host
    else
      var port := UintAt(m, "proxy_port", U16_MAX);
      Some("http://" + host.value + ":" + Digits(if port.Some? then port.value else 3128))
  }

  function WarningsOf(m: map<string, string>, human: HumanSize): seq<Warning> {
    (if NonEmpty(m, "limitrate").Some? && RateAt(m, "limitrate", human).None? then [BadLimitRate] else [])
    + (if BoolAt(m, "signature_v2") == Some(true) then [SignatureV2] else [])
    + (if NonEmpty(m, "storage_class").Some? then [StorageClass] else [])
    + (if BoolAt(m, "server_side_encryption") == Some(true) || NonEmpty(m, "kms_key").Some?
       then [ServerSideEncryption] else [])
    + (if BoolAt(m, "encrypt") == Some(true) then [ClientEncryption] else [])
  }

  /** The settings of a `.s3cfg` in this program's terms. */
  function TranslateS3cfg(m: map<string, string>, human: HumanSize): Translated {
    var retries := UintAt(m, "max_retries", U32_MAX);
    var rate := RateAt(m, "limitrate", human);
    Translated(
      NonEmpty(m, "access_key"), NonEmpty(m, "secret_key"), NonEmpty(m, "access_token"),
      EndpointOf(m), StyleOf(m), RegionOf(m),
      BoolAt(m, "check_ssl_certificate") == Some(false) || BoolAt(m, "check_ssl_hostname") == Some(false),
      NonEmpty(m, "ca_certs_file"), ProxyOf(m),
      if retries.Some? then Some(retries.value) else None,
      if rate.Some? && rate.value > 0 then rate else None,
      if BoolAt(m, "requester_pays") == Some(true) then Some("requester") else None,
      WarningsOf(m, human))
  }

  lemma {:induction false} EndSlashesGone(s: string)
    ensures var r := TrimEndSlashes(s);
      && r <= s && (r != "" ==> r[|r| - 1] != '/') && forall i :: |r| <= i < |s| ==> s[i] == '/'
    decreases |s|
  {
    if s != "" && s[|s| - 1] == '/' { EndSlashesGone(s[..|s| - 1]); }
  }

  /**
   * An imported endpoint always has a scheme and ends in the host without its trailing slashes; it is plain
   * http only when the host says so itself or `use_https` is off.
   */
  lemma EndpointHasScheme(m: map<string, string>)
    ensures EndpointOf(m).Some? <==> NonEmpty(m, "host_base").Some?
    ensures EndpointOf(m).Some? ==>
      var url, raw := EndpointOf(m).value, NonEmpty(m, "host_base").value;
      && HasScheme(Lower(url))
      && ("http://" <= Lower(url) ==> "http://" <= Lower(raw) || BoolAt(m, "use_https") == Some(false))
      && TrimEndSlashes(raw) <= raw && |TrimEndSlashes(raw)| <= |url|
      && url[|url| - |TrimEndSlashes(raw)|..] == TrimEndSlashes(raw)
  {
    if EndpointOf(m).Some? {
      var url, raw := EndpointOf(m).value, NonEmpty(m, "host_base").value;
      EndSlashesGone(raw);
      var host := TrimEndSlashes(raw);
      assert Lower(host) == Lower(raw)[..|host|];
      if !HasScheme(Lower(host)) { SchemeAdded(host, BoolAt(m, "use_https") == Some(false)); }
    }
  }

  lemma SchemeAdded(host: string, plain: bool)
    ensures var url := (if plain then "http" else "https") + "://" + host;
      && HasScheme(Lower(url)) && ("http://" <= Lower(url) ==> plain)
      && |host| <= |url| && url[|url| - |host|..] == host
  {
    var scheme := if plain then "http://" else "https://";
    assert (if plain then "http" else "https") + "://" + host == scheme + host;
    SchemeLowered(scheme, host);
  }

  lemma SchemeLowered(scheme: string, host: string)
    requires scheme == "http://" || scheme == "https://"
    ensures scheme <= Lower(scheme + host)
    ensures scheme == "https://" ==> !("http://" <= Lower(scheme + host))
  {
    var low := Lower(scheme + host);
    assert low[..|scheme|] == scheme;
    assert scheme == "https://" ==> low[4] == scheme[4] == 's' && "http://"[4] == ':';
  }

  /** No blank stands before the slashes that end the host. */
  predicate HostEndsClean(m: map<string, string>) {
    var raw := NonEmpty(m, "host_base");
    raw.Some? ==> Trimmed(TrimEndSlashes(raw.value))
  }

  lemma {:induction false} TrimEndSlashesIs(s: string)
    ensures TrimEndSlashes(s) <= s
    decreases |s|
  {
    if s != "" && s[|s| - 1] == '/' { TrimEndSlashesIs(s[..|s| - 1]); }
  }

  /** A text put after a fixed, clean beginning is writable exactly when it ends clean. */
  lemma PrefixedIsWritable(front: string, back: string)
    requires front != "" && Trimmed(front) && OneLine(front) && OneLine(back)
    requires back != "" ==> !White(back[0])
    ensures WritableText(Some(front + back)) <==> Trimmed(back)
  {
    if back != "" {
      assert (front + back)[|front + back| - 1] == back[|back| - 1];
    } else {
      assert front + back == front;
    }
  }

  lemma EndpointWritable(text: string)
    ensures WritableText(EndpointOf(Ini(text))) <==> HostEndsClean(Ini(text))
  {
    var m := Ini(text);
    var raw := NonEmpty(m, "host_base");
    NonEmptyIsWritable(text, "host_base");
    if raw.Some? {
      var host := TrimEndSlashes(raw.value);
      TrimEndSlashesIs(raw.value);
      PrefixedIsWritable("http://", host);
      PrefixedIsWritable("https://", host);
    }
  }

  lemma ProxyWritable(text: string)
    ensures WritableText(ProxyOf(Ini(text)))
  {
    var m := Ini(text);
    var host := NonEmpty(m, "proxy_host");
    NonEmptyIsWritable(text, "proxy_host");
    if host.Some? {
      var port := UintAt(m, "proxy_port", U16_MAX);
      var number := Digits(if port.Some? then port.value else 3128);
      ReadBackNumber(if port.Some? then port.value else 3128, U16_MAX);
      PrefixedIsWritable("http://" + host.value + ":", number);
    }
  }

  lemma RegionWritable(text: string)
    ensures WritableText(RegionOf(Ini(text)))
  {
    NonEmptyIsWritable(text, "region");
    NonEmptyIsWritable(text, "bucket_location");
    var m := Ini(text);
    var region := NonEmpty(m, "region");
    var r := if region.Some? then region else NonEmpty(m, "bucket_location");
    if r.Some? { TrimIs(r.value); }
  }

  lemma StyleWritable(m: map<string, string>)
    ensures WritableText(StyleOf(m))
  {
  }

  lemma PayerWritable(m: map<string, string>, human: HumanSize)
    ensures WritableText(TranslateS3cfg(m, human).requestPayer)
  {
  }

  lemma TranslatedWritable(m: map<string, string>, human: HumanSize)
    requires WritableText(ProxyOf(m)) && WritableText(RegionOf(m)) && WritableText(NonEmpty(m, "ca_certs_file"))
    ensures Writable(TranslateS3cfg(m, human)) <==> WritableText(EndpointOf(m))
  {
    StyleWritable(m);
    PayerWritable(m, human);
    var t := TranslateS3cfg(m, human);
    assert t.addressingStyle == StyleOf(m) && t.endpointUrl == EndpointOf(m) && t.region == RegionOf(m);
  }

  lemma ImportWritable(text: string, human: HumanSize)
    ensures Writable(TranslateS3cfg(Ini(text), human)) <==> HostEndsClean(Ini(text))
  {
    EndpointWritable(text);
    ProxyWritable(text);
    RegionWritable(text);
    NonEmptyIsWritable(text, "ca_certs_file");
    TranslatedWritable(Ini(text), human);
  }

  /** What an import writes reads back as the imported settings, without credentials and notes, exactly when no blank
      stands before the slashes that end `host_base`. */
  lemma ImportSurvivesIff(text: string, t: Translated, human: HumanSize)
    requires t == TranslateS3cfg(Ini(text), human)
    ensures FromRs5cmd(Ini(Rs5cmdIni(t)), human) == Public(t) <==> HostEndsClean(Ini(text))
  {
    ImportWritable(text, human);
    RoundTripIff(t, human);
  }

  /** A `.s3cfg` of plain entries under distinct names gives each name its value. */
  lemma CleanFileReads(keys: seq<string>, values: seq<Option<string>>, i: nat)
    requires |keys| == |values| && Printable(keys, values) && NoDup(keys) && i < |keys|
    ensures NonEmpty(Ini(Unlines(FileLines([], keys, values, |keys|))), keys[i]) == values[i]
  {
    CleanFileLines(keys, values);
    ParseLineReadsEach(keys, values);
    ReadEntries(ParseLine, [], keys, values, |keys|, keys[i]);
    LastValueIs(keys, values, |keys|, i);
    TextReadsBack(Ini(Unlines(FileLines([], keys, values, |keys|))), keys[i], values[i]);
  }

  lemma CleanFileLines(keys: seq<string>, values: seq<Option<string>>)
    requires |keys| == |values| && Printable(keys, values)
    ensures Lines(Unlines(FileLines([], keys, values, |keys|))) == FileLines([], keys, values, |keys|)
  {
    var lines := FileLines([], keys, values, |keys|);
    forall i | 0 <= i < |lines|
      ensures WholeLine(lines[i])
    {
      FileLinesWhole([], keys, values, |keys|, lines[i]);
    }
    LinesOfUnlines(lines);
  }

  /** Importing such a file takes each text setting from its own entry. */
  lemma ImportTakesEntries(keys: seq<string>, values: seq<Option<string>>, human: HumanSize, i: nat)
    requires |keys| == |values| && Printable(keys, values) && NoDup(keys) && i < |keys|
    ensures var t := TranslateS3cfg(Ini(Unlines(FileLines([], keys, values, |keys|))), human);
      && (keys[i] == "access_key" ==> t.accessKey == values[i])
      && (keys[i] == "secret_key" ==> t.secretKey == values[i])
      && (keys[i] == "access_token" ==> t.sessionToken == values[i])
      && (keys[i] == "ca_certs_file" ==> t.caCertsFile == values[i])
      && (keys[i] == "region" && values[i].Some? && values[i].value !in {"US", "us", "EU", "eu"} ==>
            t.region == values[i])
      && (keys[i] == "host_base" ==> (t.endpointUrl.Some? <==> values[i].Some?))
      && (t.limitRate.Some? ==> t.limitRate.value > 0)
  {
    CleanFileReads(keys, values, i);
    if keys[i] == "region" && values[i].Some? { TrimIs(values[i].value); }
  }

  predicate SwitchedOff(m: map<string, string>, key: string) {
    key in m && ParseBool(m[key]) == Some(false)
  }

  /**
   * What an import decides on its own: certificates go unverified only when a check is switched off, a proxy
   * always has a scheme, buckets are addressed by host name exactly when the template begins with the bucket,
   * and the requester pays only when asked to.
   */
  lemma ImportDecides(m: map<string, string>, human: HumanSize)
    ensures var t := TranslateS3cfg(m, human);
      && (t.noVerifySsl <==> SwitchedOff(m, "check_ssl_certificate") || SwitchedOff(m, "check_ssl_hostname"))
      && (t.proxy.Some? <==> NonEmpty(m, "proxy_host").Some?)
      && (t.proxy.Some? ==> HasScheme(Lower(t.proxy.value)) || "socks5" <= Lower(t.proxy.value))
      && (t.addressingStyle.Some? <==> NonEmpty(m, "host_bucket").Some?)
      && (t.addressingStyle == Some("virtual") <==>
            NonEmpty(m, "host_bucket").Some? && "%(bucket)s" <= NonEmpty(m, "host_bucket").value)
      && (t.requestPayer.Some? <==> BoolAt(m, "requester_pays") == Some(true))
  {
    var host, hb := NonEmpty(m, "proxy_host"), NonEmpty(m, "host_bucket");
    if host.Some? {
      var port := UintAt(m, "proxy_port", U16_MAX);
      var number := Digits(if port.Some? then port.value else 3128);
      assert "http://" + host.value + ":" + number == "http://" + (host.value + ":" + number);
      SchemeLowered("http://", host.value + ":" + number);
    }
    if hb.Some? { TrimIs(m["host_bucket"]); TrimLeftIs(hb.value); }
  }
}
