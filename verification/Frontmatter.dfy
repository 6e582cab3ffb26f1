/** Frontmatter: texts written as YAML scalars, and read back by the rules of YAML 1.2.2. */
module Frontmatter {
  import opened Wrappers
  import opened Text
  import Json

  // ---- Writing ----

  /** Characters of category Cc, the byte order mark, U+FFFE, U+FFFF and the YAML 1.1 line
      separators. */
  predicate NeedsUnicodeEscape(c: char) {
    var n := c as int;
    n < 32 || 127 <= n < 160 || n in {0xFEFF, 0xFFFE, 0xFFFF, 0x2028, 0x2029}
  }

  const RESERVED: set<string> := {
    "~", "null", "Null", "NULL", "true", "True", "TRUE", "false", "False", "FALSE",
    "yes", "Yes", "YES", "no", "No", "NO", "on", "On", "ON", "off", "Off", "OFF", "<<", "="
  }

  /** Which plain scalars a reader takes for numbers. */
  type NumberPattern = string -> bool

  predicate IsPlainSafe(s: string, isNumber: NumberPattern) {
    && s != ""
    && Trim(s) == s
    && (forall i | 0 <= i < |s| :: !NeedsUnicodeEscape(s[i]))
    && s[0] !in "[]{},&*!|>%@`"
    && (s[0] in "-?:" ==> |s| > 1 && !IsWhite(s[1]))
    && s !in RESERVED && !isNumber(s)
  }

  predicate HasSpecial(s: string) {
    exists i | 0 <= i < |s| :: s[i] in ":#\n\r\t'\"\\"
  }

  function UpperHex(d: nat): char
    requires d < 16
  {
    if d < 10 then (d + 48) as char else (d + 55) as char
  }

  function EscapeChar(c: char): string {
    if c == '\\' then "\\\\"
    else if c == '"' then "\\\""
    else if c == '\n' then "\\n"
    else if c == '\r' then "\\r"
    else if c == '\t' then "\\t"
    else if NeedsUnicodeEscape(c) then
      var n := c as int;
      "\\u" + [UpperHex(n / 4096), UpperHex(n / 256 % 16), UpperHex(n / 16 % 16), UpperHex(n % 16)]
    else [c]
  }

  function Escaped(s: string): string {
    if s == "" then "" else EscapeChar(s[0]) + Escaped(s[1..])
  }

  function Scalar(s: string, isNumber: NumberPattern): string {
    if HasSpecial(s) || !IsPlainSafe(s, isNumber) then "\"" + Escaped(s) + "\"" else s
  }

  /** `yaml_escape`. */
  method YamlEscape(s: string, isNumber: NumberPattern) returns (r: string)
    ensures r == Scalar(s, isNumber)
  {
    if HasSpecial(s) || !IsPlainSafe(s, isNumber) {
      var escaped := "";
      for i := 0 to |s|
        invariant escaped + Escaped(s[i..]) == Escaped(s)
      {
        assert s[i..][0] == s[i] && s[i..][1..] == s[i + 1..];
        Associate(escaped, EscapeChar(s[i]), Escaped(s[i + 1..]));
        escaped := escaped + EscapeChar(s[i]);
      }
      assert escaped + "" == escaped;
      r := "\"" + escaped + "\"";
    } else {
      r := s;
    }
  }

  // ---- Reading ----

  /** nb-json: what may stand unescaped inside double quotes on one line (section 7.3.1). */
  predicate NbJson(c: char) { c == '\t' || c as int >= 32 }

  /** c-printable without line breaks and the byte order mark: nb-char (section 5.4). */
  predicate NbChar(c: char) {
    var n := c as int;
    (n == 9 || 0x20 <= n <= 0x7E || n == 0x85 || 0xA0 <= n <= 0xFFFD || n >= 0x10000) && n != 0xFEFF
  }

  predicate NsChar(c: char) { NbChar(c) && c != ' ' && c != '\t' }

  /** A double-quoted escape sequence (section 5.7), after its backslash. */
  function ReadEscape(s: string): (r: Option<(char, string)>)
    ensures r.Some? ==> |r.value.1| < |s|
  {
    if s == "" then None
    else if s[0] in "\"\\/ \t" then Some((s[0], s[1..]))
    else if s[0] == '0' then Some((0 as char, s[1..]))
    else if s[0] == 'a' then Some((7 as char, s[1..]))
    else if s[0] == 'b' then Some((8 as char, s[1..]))
    else if s[0] == 't' then Some((9 as char, s[1..]))
    else if s[0] == 'n' then Some((10 as char, s[1..]))
    else if s[0] == 'v' then Some((11 as char, s[1..]))
    else if s[0] == 'f' then Some((12 as char, s[1..]))
    else if s[0] == 'r' then Some((13 as char, s[1..]))
    else if s[0] == 'e' then Some((27 as char, s[1..]))
    else if s[0] == 'N' then Some((0x85 as char, s[1..]))
    else if s[0] == '_' then Some((0xA0 as char, s[1..]))
    else if s[0] == 'L' then Some((0x2028 as char, s[1..]))
    else if s[0] == 'P' then Some((0x2029 as char, s[1..]))
    else if s[0] == 'x' then ReadHex(s[1..], 2)
    else if s[0] == 'u' then ReadHex(s[1..], 4)
    else if s[0] == 'U' then ReadHex(s[1..], 8)
    else None
  }

  function HexNumber(s: string): Option<nat> {
    if s == "" then Some(0)
    else
      var (high, low) := (HexNumber(s[..|s| - 1]), Json.HexValue(s[|s| - 1]));
      if high.None? || low.None? then None else Some(16 * high.value + low.value)
  }

  function ReadHex(s: string, width: nat): (r: Option<(char, string)>)
    ensures r.Some? ==> |r.value.1| <= |s|
  {
    if |s| < width then None
    else
      var n := HexNumber(s[..width]);
      if n.None? || !(n.value < 0xD800 || 0xE000 <= n.value < 0x110000) then None
      else Some((n.value as char, s[width..]))
  }

  /** The rest of a double-quoted scalar on one line: its text, with nothing after the quote. */
  function ReadQuoted(s: string): Option<string>
    decreases |s|
  {
    if s == "" then None
    else if s[0] == '"' then (if |s| == 1 then Some("") else None)
    else if s[0] == '\\' then
      var e := ReadEscape(s[1..]);
      if e.None? then None else Prepend(e.value.0, ReadQuoted(e.value.1))
    else if !NbJson(s[0]) then None
    else Prepend(s[0], ReadQuoted(s[1..]))
  }

  function Prepend(c: char, r: Option<string>): Option<string> {
    if r.None? then None else Some([c] + r.value)
  }

  /** A plain scalar on one line, in a block context (section 7.3.3). */
  predicate PlainFirst(s: string) {
    s != "" && NsChar(s[0]) &&
    (s[0] !in "-?:,[]{}#&*!|>'\"%@`" || (s[0] in "?:-" && |s| > 1 && NsChar(s[1])))
  }

  predicate PlainAt(s: string, i: nat)
    requires i < |s|
  {
    && NbChar(s[i])
    && (s[i] == ':' ==> i + 1 < |s| && NsChar(s[i + 1]))
    && (s[i] == '#' ==> i > 0 && NsChar(s[i - 1]))
  }

  predicate PlainLine(s: string) {
    && PlainFirst(s)
    && NsChar(s[|s| - 1])
    && forall i | 0 <= i < |s| :: PlainAt(s, i)
  }

  /** The string that a reader gets from a scalar; another type, or nothing, is None. */
  function ReadString(s: string, isNumber: NumberPattern): Option<string> {
    if s != "" && s[0] == '"' then ReadQuoted(s[1..])
    else if PlainLine(s) && s !in RESERVED && !isNumber(s) then Some(s)
    else None
  }

  // ---- Round trip ----

  lemma HexDigitRead(d: nat)
    requires d < 16
    ensures Json.HexValue(UpperHex(d)) == Some(d)
  {
  }

  lemma HexNumberStep(s: string, d: nat)
    requires d < 16 && HexNumber(s).Some?
    ensures HexNumber(s + [UpperHex(d)]) == Some(16 * HexNumber(s).value + d)
  {
    HexDigitRead(d);
    assert (s + [UpperHex(d)])[..|s|] == s;
  }

  lemma FourDigits(n: nat)
    requires n < 65536
    ensures HexNumber([UpperHex(n / 4096), UpperHex(n / 256 % 16), UpperHex(n / 16 % 16), UpperHex(n % 16)]) == Some(n)
  {
    var (a, b, c, d) := (UpperHex(n / 4096), UpperHex(n / 256 % 16), UpperHex(n / 16 % 16), UpperHex(n % 16));
    assert [] + [a] == [a] && [a] + [b] == [a, b] && [a, b] + [c] == [a, b, c] && [a, b, c] + [d] == [a, b, c, d];
    HexNumberStep([], n / 4096);
    HexNumberStep([a], n / 256 % 16);
    HexNumberStep([a, b], n / 16 % 16);
    HexNumberStep([a, b, c], n % 16);
    assert n / 4096 == n / 256 / 16 && n / 256 == n / 16 / 16;
  }

  lemma EscapeCharReads(c: char, rest: string)
    ensures ReadQuoted(EscapeChar(c) + rest) == Prepend(c, ReadQuoted(rest))
  {
    var e := EscapeChar(c);
    var s := e + rest;
    if e == [c] {
      assert s[1..] == rest;
    } else if |e| == 2 {
      assert s[1..][0] == e[1] && s[1..][1..] == rest;
      assert ReadEscape(s[1..]) == Some((c, rest));
    } else {
      UnicodeEscapeReads(c, rest);
    }
  }

  lemma UnicodeEscapeReads(c: char, rest: string)
    requires |EscapeChar(c)| > 2
    ensures ReadQuoted(EscapeChar(c) + rest) == Prepend(c, ReadQuoted(rest))
  {
    var (n, s) := (c as int, EscapeChar(c) + rest);
    var digits := [UpperHex(n / 4096), UpperHex(n / 256 % 16), UpperHex(n / 16 % 16), UpperHex(n % 16)];
    FourDigits(n);
    assert s[1..] == "u" + (digits + rest);
    assert s[1..][1..] == digits + rest;
    assert (digits + rest)[..4] == digits && (digits + rest)[4..] == rest;
    assert ReadEscape(s[1..]) == Some((c, rest));
  }

  lemma {:induction false} EscapedReads(s: string)
    ensures ReadQuoted(Escaped(s) + "\"") == Some(s)
  {
    if s == "" {
      assert Escaped(s) + "\"" == "\"";
    } else {
      Associate(EscapeChar(s[0]), Escaped(s[1..]), "\"");
      EscapeCharReads(s[0], Escaped(s[1..]) + "\"");
      EscapedReads(s[1..]);
      assert [s[0]] + s[1..] == s;
    }
  }

  lemma NotSpecialAt(s: string, i: nat)
    requires i < |s| && !HasSpecial(s)
    ensures s[i] !in ":#\n\r\t'\"\\"
  {
  }

  lemma PlainIsPlainLine(s: string, isNumber: NumberPattern)
    requires !HasSpecial(s) && IsPlainSafe(s, isNumber)
    ensures PlainLine(s) && s[0] != '"'
  {
    TrimTrims(s);
    forall i | 0 <= i < |s| ensures PlainAt(s, i) && s[i] !in ":#\t'\"\\" {
      NotSpecialAt(s, i);
    }
    assert !IsWhite(s[0]) && !IsWhite(s[|s| - 1]);
  }

  /** Whatever the text, a YAML reader gets it back as a string: a quoted scalar decodes to it, and
      a plain one is a plain scalar that is nothing else. */
  lemma ScalarRoundTrip(s: string, isNumber: NumberPattern)
    ensures ReadString(Scalar(s, isNumber), isNumber) == Some(s)
    ensures Scalar(s, isNumber)[0] != '"' ==> Scalar(s, isNumber) == s
  {
    if HasSpecial(s) || !IsPlainSafe(s, isNumber) {
      EscapedReads(s);
      assert ("\"" + Escaped(s) + "\"")[1..] == Escaped(s) + "\"";
    } else {
      PlainIsPlainLine(s, isNumber);
    }
  }

  predicate Clean(s: string) {
    forall i | 0 <= i < |s| :: !NeedsUnicodeEscape(s[i])
  }

  lemma EscapeCharClean(c: char)
    ensures Clean(EscapeChar(c))
  {
  }

  lemma {:induction false} EscapedClean(s: string)
    ensures Clean(Escaped(s))
  {
    if s != "" {
      EscapeCharClean(s[0]);
      EscapedClean(s[1..]);
    }
  }

  /** No scalar holds a line break or a control character. */
  lemma ScalarClean(s: string, isNumber: NumberPattern)
    ensures Clean(Scalar(s, isNumber)) && '\n' !in Scalar(s, isNumber)
  {
    EscapedClean(s);
    var r := Scalar(s, isNumber);
    assert Clean(r);
  }

  // ---- The block ----

  /** `build_frontmatter`. */
  function BuildFrontmatter(title: string, date: string, excerpt: string, isNumber: NumberPattern): string {
    "---" + "\n" + ("title: " + Scalar(title, isNumber)) + "\n" + ("date: " + date) + "\n" +
    ("excerpt: " + Scalar(excerpt, isNumber)) + "\n" + "---" + "\n"
  }

  lemma SixLines(a: string, b: string, c: string, d: string, e: string)
    requires '\n' !in a && '\n' !in b && '\n' !in c && '\n' !in d && '\n' !in e
    ensures Split(a + "\n" + b + "\n" + c + "\n" + d + "\n" + e + "\n", '\n') == [a, b, c, d, e, ""]
  {
    SplitPlain(a, '\n');
    SplitSnoc(a, '\n', b);
    SplitSnoc(a + "\n" + b, '\n', c);
    SplitSnoc(a + "\n" + b + "\n" + c, '\n', d);
    SplitSnoc(a + "\n" + b + "\n" + c + "\n" + d, '\n', e);
    var five := a + "\n" + b + "\n" + c + "\n" + d + "\n" + e;
    SplitSnoc(five, '\n', "");
    assert five + "\n" + "" == five + "\n";
  }

  /** Nothing in the title or excerpt can end its line or the block early. */
  lemma FiveLines(title: string, date: string, excerpt: string, isNumber: NumberPattern)
    requires '\n' !in date
    ensures Split(BuildFrontmatter(title, date, excerpt, isNumber), '\n') ==
      ["---", "title: " + Scalar(title, isNumber), "date: " + date, "excerpt: " + Scalar(excerpt, isNumber), "---", ""]
  {
    ScalarClean(title, isNumber);
    ScalarClean(excerpt, isNumber);
    SixLines("---", "title: " + Scalar(title, isNumber), "date: " + date, "excerpt: " + Scalar(excerpt, isNumber), "---");
  }
}
