/** JSON texts (RFC 8259): serde_json's compact printer and a strict parser. */
module Json {
  import opened Wrappers
  import opened Text

  /** Members keep document order and duplicates; a number keeps its literal. */
  datatype Value =
    | Null
    | Bool(b: bool)
    | Number(literal: string)
    | String(text: string)
    | Array(items: seq<Value>)
    | Object(members: seq<Member>)

  datatype Member = Member(key: string, value: Value)

  // ---- Printing ----

  function HexDigit(d: nat): char
    requires d < 16
  {
    if d < 10 then (d + 48) as char else (d + 87) as char
  }

  function EscapeChar(c: char): string {
    if c == '"' then "\\\""
    else if c == '\\' then "\\\\"
    else if c as int == 8 then "\\b"
    else if c as int == 9 then "\\t"
    else if c as int == 10 then "\\n"
    else if c as int == 12 then "\\f"
    else if c as int == 13 then "\\r"
    else if c as int < 32 then "\\u00" + [HexDigit(c as int / 16), HexDigit(c as int % 16)]
    else [c]
  }

  function Escape(s: string): string {
    if s == "" then "" else EscapeChar(s[0]) + Escape(s[1..])
  }

  function Quote(s: string): string {
    "\"" + Escape(s) + "\""
  }

  function Print(v: Value): string
    decreases v, 1
  {
    match v
    case Null => "null"
    case Bool(b) => if b then "true" else "false"
    case Number(literal) => literal
    case String(text) => Quote(text)
    case Array(items) => "[" + PrintItems(items)
    case Object(members) => "{" + PrintMembers(members)
  }

  /** The items of an array and its closing bracket. */
  function PrintItems(items: seq<Value>): string
    decreases items, 0
  {
    if items == [] then "]"
    else Print(items[0]) + (if |items| == 1 then "]" else "," + PrintItems(items[1..]))
  }

  function PrintMember(m: Member): string
    decreases m, 0
  {
    Quote(m.key) + (":" + Print(m.value))
  }

  /** The members of an object and its closing brace. */
  function PrintMembers(members: seq<Member>): string
    decreases members, 0
  {
    if members == [] then "}"
    else PrintMember(members[0]) + (if |members| == 1 then "}" else "," + PrintMembers(members[1..]))
  }

  // ---- Parsing strings ----

  function HexValue(c: char): Option<nat> {
    if '0' <= c <= '9' then Some(c as int - 48)
    else if 'a' <= c <= 'f' then Some(c as int - 87)
    else if 'A' <= c <= 'F' then Some(c as int - 55)
    else None
  }

  /** Four hexadecimal digits. */
  function ParseHex4(s: string): (r: Option<nat>)
    ensures r.Some? ==> |s| >= 4 && r.value < 0x10000
  {
    if |s| < 4 then None
    else
      var (a, b, c, d) := (HexValue(s[0]), HexValue(s[1]), HexValue(s[2]), HexValue(s[3]));
      if a.None? || b.None? || c.None? || d.None? then None
      else
        Some(a.value * 4096 + b.value * 256 + c.value * 16 + d.value)
  }

  /** What follows a backslash: the character it stands for, and the rest. */
  function ParseEscape(s: string): (r: Option<(char, string)>)
    ensures r.Some? ==> |r.value.1| < |s|
  {
    if s == "" then None
    else if s[0] in "\"\\/" then Some((s[0], s[1..]))
    else if s[0] == 'b' then Some((8 as char, s[1..]))
    else if s[0] == 't' then Some((9 as char, s[1..]))
    else if s[0] == 'n' then Some((10 as char, s[1..]))
    else if s[0] == 'f' then Some((12 as char, s[1..]))
    else if s[0] == 'r' then Some((13 as char, s[1..]))
    else if s[0] != 'u' then None
    else
      var code := ParseHex4(s[1..]);
      if code.None? then None
      else if !(0xD800 <= code.value < 0xE000) then Some((code.value as char, s[5..]))
      else if code.value < 0xDC00 && |s| >= 7 && s[5..7] == "\\u" then
        var low := ParseHex4(s[7..]);
        if low.Some? && 0xDC00 <= low.value < 0xE000 then
          Some(((0x10000 + (code.value - 0xD800) * 1024 + (low.value - 0xDC00)) as char, s[11..]))
        else None
      else None
  }

  /** The text up to the closing quote, and what follows the quote. */
  function ParseString(s: string): (r: Option<(string, string)>)
    ensures r.Some? ==> |r.value.1| < |s|
    decreases |s|
  {
    if s == "" then None
    else if s[0] == '"' then Some(("", s[1..]))
    else if s[0] == '\\' then
      var escape := ParseEscape(s[1..]);
      if escape.None? then None else PrependTo(escape.value.0, ParseString(escape.value.1))
    else if s[0] as int < 32 then None
    else PrependTo(s[0], ParseString(s[1..]))
  }

  function PrependTo(c: char, r: Option<(string, string)>): Option<(string, string)> {
    if r.None? then None else Some(([c] + r.value.0, r.value.1))
  }

  // ---- Parsing numbers ----

  function TakeDigits(s: string): (r: (string, string))
    ensures r.0 + r.1 == s
    ensures AllDigits(r.0)
    ensures r.1 == "" || !IsDigit(r.1[0])
  {
    if s != "" && IsDigit(s[0]) then
      var (digits, rest) := TakeDigits(s[1..]);
      ([s[0]] + digits, rest)
    else ("", s)
  }

  /** The optional part of a number that the character(s) `mark` introduce: mark, sign, digits. */
  function ParsePart(s: string, mark: string, sign: string): (r: Option<(string, string)>)
    ensures r.Some? ==> r.value.0 + r.value.1 == s
  {
    if s == "" || s[0] !in mark then Some(("", s))
    else
      var signed := if |s| > 1 && s[1] in sign then 2 else 1;
      var (digits, rest) := TakeDigits(s[signed..]);
      if digits == "" then None else Some((s[..signed] + digits, rest))
  }

  /** The sign and integer part: no leading zeros. */
  function ParseWhole(s: string): (r: Option<(string, string)>)
    ensures r.Some? ==> r.value.0 + r.value.1 == s && r.value.0 != ""
    ensures r.Some? ==> s[0] == '-' || IsDigit(s[0])
  {
    if s == "" then None
    else if s[0] == '-' then
      var r := ParseDigits(s[1..]);
      if r.None? then None else Some(("-" + r.value.0, r.value.1))
    else ParseDigits(s)
  }

  function ParseDigits(s: string): (r: Option<(string, string)>)
    ensures r.Some? ==> r.value.0 + r.value.1 == s && r.value.0 != ""
  {
    if s == "" || !IsDigit(s[0]) then None
    else if s[0] == '0' then Some(("0", s[1..]))
    else Some(TakeDigits(s))
  }

  /** A number literal (section 6), and what follows it. */
  function ParseNumber(s: string): (r: Option<(string, string)>)
    ensures r.Some? ==> r.value.0 + r.value.1 == s && r.value.0 != ""
  {
    ThenPart(ThenPart(ParseWhole(s), ".", ""), "eE", "+-")
  }

  function ThenPart(start: Option<(string, string)>, mark: string, sign: string): (r: Option<(string, string)>)
    ensures r.Some? ==> start.Some? && start.value.0 <= r.value.0
    ensures r.Some? ==> r.value.0 + r.value.1 == start.value.0 + start.value.1
  {
    if start.None? then None
    else
      var part := ParsePart(start.value.1, mark, sign);
      if part.None? then None else Some((start.value.0 + part.value.0, part.value.1))
  }

  /** The characters of number literals. */
  predicate NumberChar(c: char) { IsDigit(c) || c in "+-.eE" }

  predicate NumberChars(s: string) {
    forall i | 0 <= i < |s| :: NumberChar(s[i])
  }

  lemma ParsePartChars(s: string, mark: string, sign: string)
    requires ParsePart(s, mark, sign).Some? && NumberChars(mark) && NumberChars(sign)
    ensures NumberChars(ParsePart(s, mark, sign).value.0)
  {
  }

  lemma NumberAlphabet(s: string)
    requires ParseNumber(s).Some?
    ensures NumberChars(ParseNumber(s).value.0)
  {
    var whole := ParseWhole(s);
    assert NumberChars(whole.value.0);
    ParsePartChars(whole.value.1, ".", "");
    var frac := ThenPart(whole, ".", "");
    ParsePartChars(frac.value.1, "eE", "+-");
  }

  predicate IsNumber(s: string) {
    ParseNumber(s) == Some((s, ""))
  }

  // ---- Parsing values ----

  predicate IsSpace(c: char) { c == ' ' || c == '\t' || c == '\n' || c == '\r' }

  function SkipSpace(s: string): (r: string)
    ensures |r| <= |s|
  {
    if s != "" && IsSpace(s[0]) then SkipSpace(s[1..]) else s
  }

  function ParseValue(s: string): (r: Option<(Value, string)>)
    ensures r.Some? ==> |r.value.1| < |s|
    decreases |s|, 3
  {
    var t := SkipSpace(s);
    if t == "" then None
    else if t[0] == 'n' then ParseWord(t, "null", Null)
    else if t[0] == 't' then ParseWord(t, "true", Bool(true))
    else if t[0] == 'f' then ParseWord(t, "false", Bool(false))
    else if t[0] == '"' then ParseText(t[1..])
    else if t[0] == '[' then ParseArray(t[1..])
    else if t[0] == '{' then ParseObject(t[1..])
    else ParseLiteral(t)
  }

  function ParseWord(s: string, word: string, v: Value): (r: Option<(Value, string)>)
    ensures r.Some? && word != "" ==> |r.value.1| < |s|
  {
    if word <= s then Some((v, s[|word|..])) else None
  }

  function ParseText(s: string): (r: Option<(Value, string)>)
    ensures r.Some? ==> |r.value.1| < |s|
  {
    var r := ParseString(s);
    if r.None? then None else Some((String(r.value.0), r.value.1))
  }

  function ParseLiteral(s: string): (r: Option<(Value, string)>)
    ensures r.Some? ==> |r.value.1| < |s|
  {
    var r := ParseNumber(s);
    if r.None? then None
    else
      assert |s| == |r.value.0| + |r.value.1|;
      Some((Number(r.value.0), r.value.1))
  }

  /** What follows an opening bracket. */
  function ParseArray(s: string): (r: Option<(Value, string)>)
    ensures r.Some? ==> |r.value.1| < |s|
    decreases |s|, 5
  {
    var t := SkipSpace(s);
    if t != "" && t[0] == ']' then Some((Array([]), t[1..]))
    else
      var r := ParseItems(s);
      if r.None? then None else Some((Array(r.value.0), r.value.1))
  }

  /** What follows an opening brace. */
  function ParseObject(s: string): (r: Option<(Value, string)>)
    ensures r.Some? ==> |r.value.1| < |s|
    decreases |s|, 5
  {
    var t := SkipSpace(s);
    if t != "" && t[0] == '}' then Some((Object([]), t[1..]))
    else
      var r := ParseMembers(s);
      if r.None? then None else Some((Object(r.value.0), r.value.1))
  }

  /** The items of an array that is not empty, through its closing bracket. */
  function ParseItems(s: string): (r: Option<(seq<Value>, string)>)
    ensures r.Some? ==> |r.value.1| < |s|
    decreases |s|, 4
  {
    var item := ParseValue(s);
    if item.None? then None
    else
      var t := SkipSpace(item.value.1);
      if t == "" then None
      else if t[0] == ']' then Some(([item.value.0], t[1..]))
      else if t[0] == ',' then
        var r := ParseItems(t[1..]);
        if r.None? then None else Some(([item.value.0] + r.value.0, r.value.1))
      else None
  }

  /** A key, a colon and a value. */
  function ParseMember(s: string): (r: Option<(Member, string)>)
    ensures r.Some? ==> |r.value.1| < |s|
    decreases |s|, 3
  {
    var k := SkipSpace(s);
    if k == "" || k[0] != '"' then None
    else
      var key := ParseString(k[1..]);
      if key.None? then None
      else
        var c := SkipSpace(key.value.1);
        if c == "" || c[0] != ':' then None
        else
          var value := ParseValue(c[1..]);
          if value.None? then None else Some((Member(key.value.0, value.value.0), value.value.1))
  }

  /** The members of an object that is not empty, through its closing brace. */
  function ParseMembers(s: string): (r: Option<(seq<Member>, string)>)
    ensures r.Some? ==> |r.value.1| < |s|
    decreases |s|, 4
  {
    var member := ParseMember(s);
    if member.None? then None
    else
      var t := SkipSpace(member.value.1);
      if t == "" then None
      else if t[0] == '}' then Some(([member.value.0], t[1..]))
      else if t[0] == ',' then
        var r := ParseMembers(t[1..]);
        if r.None? then None else Some(([member.value.0] + r.value.0, r.value.1))
      else None
  }

  /** A whole text: one value with nothing but white space around it. */
  function Parse(s: string): Option<Value> {
    var r := ParseValue(s);
    if r.Some? && SkipSpace(r.value.1) == "" then Some(r.value.0) else None
  }

  // ---- Printed texts parse back ----

  /** Every number literal in `v` follows the grammar, as those serde_json prints do. */
  ghost predicate WellFormed(v: Value)
    decreases v
  {
    match v
    case Number(literal) => IsNumber(literal)
    case Array(items) => forall i | 0 <= i < |items| :: WellFormed(items[i])
    case Object(members) => forall i | 0 <= i < |members| :: WellFormed(members[i].value)
    case _ => true
  }

  /** What may follow a value in a compact text. */
  predicate Delimited(rest: string) {
    rest == "" || rest[0] in ",]}"
  }

  lemma EscapeCharParses(c: char, rest: string)
    ensures ParseString(EscapeChar(c) + rest) == PrependTo(c, ParseString(rest))
  {
    var s := EscapeChar(c) + rest;
    if s[0] == '\\' {
      if EscapeChar(c)[1] == 'u' {
        var h, l := HexDigit(c as int / 16), HexDigit(c as int % 16);
        assert s[1..][0] == 'u' && s[1..][1..] == ['0', '0', h, l] + rest;
        assert ParseHex4(['0', '0', h, l] + rest) == Some(c as int);
        assert s[1..][5..] == rest;
      } else {
        assert s[1..][0] == EscapeChar(c)[1] && s[1..][1..] == rest;
      }
      assert ParseEscape(s[1..]) == Some((c, rest));
    } else {
      assert s[0] == c && s[1..] == rest;
    }
  }

  lemma {:induction false} QuoteParses(s: string, rest: string)
    ensures ParseString(Escape(s) + "\"" + rest) == Some((s, rest))
  {
    if s == "" {
      assert Escape(s) + "\"" + rest == "\"" + rest;
    } else {
      var tail := Escape(s[1..]) + "\"" + rest;
      assert Escape(s) + "\"" + rest == EscapeChar(s[0]) + tail;
      EscapeCharParses(s[0], tail);
      QuoteParses(s[1..], rest);
      assert [s[0]] + s[1..] == s;
    }
  }

  lemma {:induction false} TakeDigitsExtends(s: string, rest: string)
    requires Delimited(rest)
    ensures TakeDigits(s + rest) == (TakeDigits(s).0, TakeDigits(s).1 + rest)
  {
    if s == "" {
      assert s + rest == rest;
    } else if IsDigit(s[0]) {
      TakeDigitsExtends(s[1..], rest);
      assert (s + rest)[1..] == s[1..] + rest;
    }
  }

  lemma ParsePartExtends(s: string, mark: string, sign: string, rest: string)
    requires Delimited(rest) && ParsePart(s, mark, sign).Some?
    requires forall c | c in mark || c in sign :: c !in ",]}"
    ensures ParsePart(s + rest, mark, sign) == Some((ParsePart(s, mark, sign).value.0, ParsePart(s, mark, sign).value.1 + rest))
  {
    if s == "" {
      assert s + rest == rest;
    } else if s[0] in mark {
      var signed := if |s| > 1 && s[1] in sign then 2 else 1;
      assert TakeDigits(s[signed..]).0 != "";
      assert (s + rest)[signed..] == s[signed..] + rest && (s + rest)[..signed] == s[..signed];
      TakeDigitsExtends(s[signed..], rest);
    }
  }

  lemma ParseWholeExtends(s: string, rest: string)
    requires Delimited(rest) && ParseWhole(s).Some?
    ensures ParseWhole(s + rest) == Some((ParseWhole(s).value.0, ParseWhole(s).value.1 + rest))
  {
    var t := if s[0] == '-' then s[1..] else s;
    assert (s + rest)[1..] == s[1..] + rest;
    assert (t + rest)[1..] == t[1..] + rest;
    TakeDigitsExtends(t, rest);
  }

  lemma ThenPartExtends(start: (string, string), mark: string, sign: string, rest: string)
    requires Delimited(rest) && ThenPart(Some(start), mark, sign).Some?
    requires forall c | c in mark || c in sign :: c !in ",]}"
    ensures ThenPart(Some((start.0, start.1 + rest)), mark, sign)
         == Some((ThenPart(Some(start), mark, sign).value.0, ThenPart(Some(start), mark, sign).value.1 + rest))
  {
    ParsePartExtends(start.1, mark, sign, rest);
  }

  lemma ParseNumberExtends(s: string, rest: string)
    requires Delimited(rest) && ParseNumber(s).Some?
    ensures ParseNumber(s + rest) == Some((ParseNumber(s).value.0, ParseNumber(s).value.1 + rest))
  {
    ParseWholeExtends(s, rest);
    var whole := ParseWhole(s).value;
    ThenPartExtends(whole, ".", "", rest);
    ThenPartExtends(ThenPart(Some(whole), ".", "").value, "eE", "+-", rest);
  }

  /** A character that begins a value. */
  predicate StartsValue(c: char) {
    !IsSpace(c) && c != ',' && c != ']' && c != '}' && c != ':'
  }

  lemma NumberStarts(literal: string)
    requires IsNumber(literal)
    ensures literal != "" && (literal[0] == '-' || IsDigit(literal[0])) && StartsValue(literal[0])
  {
    assert ParseWhole(literal).Some?;
  }

  /** The first character of a printed value tells which branch the parser takes. */
  lemma PrintStarts(v: Value)
    requires WellFormed(v)
    ensures Print(v) != "" && StartsValue(Print(v)[0])
    ensures v.Number? ==> Print(v)[0] == '-' || IsDigit(Print(v)[0])
  {
    match v
    case Null => assert Print(v)[0] == 'n';
    case Bool(b) => assert Print(v)[0] == if b then 't' else 'f';
    case Number(literal) => NumberStarts(literal);
    case String(text) => assert Print(v)[0] == '"';
    case Array(items) => assert Print(v)[0] == '[';
    case Object(members) => assert Print(v)[0] == '{';
  }

  lemma WordParses(v: Value, rest: string)
    requires v.Null? || v.Bool?
    ensures ParseValue(Print(v) + rest) == Some((v, rest))
  {
    var s := Print(v) + rest;
    assert s[|Print(v)|..] == rest && Print(v) <= s;
    assert s[0] == Print(v)[0];
  }

  lemma NumberParses(literal: string, rest: string)
    requires IsNumber(literal) && Delimited(rest)
    ensures ParseValue(literal + rest) == Some((Number(literal), rest))
  {
    var s := literal + rest;
    assert ParseLiteral(s) == Some((Number(literal), rest)) by {
      ParseNumberExtends(literal, rest);
      assert "" + rest == rest;
    }
    assert ParseValue(s) == ParseLiteral(s) by {
      assert ParseWhole(literal).Some? && s[0] == literal[0];
      NumberBranch(s);
    }
  }

  lemma NumberBranch(s: string)
    requires s != "" && (s[0] == '-' || IsDigit(s[0]))
    ensures ParseValue(s) == ParseLiteral(s)
  {
    var c := s[0];
    assert c != 'n' && c != 't' && c != 'f' && c != '"' && c != '[' && c != '{';
    assert SkipSpace(s) == s;
  }

  lemma LiteralBranch(s: string)
    requires s != "" && !IsSpace(s[0]) && s[0] !in "ntf\"[{"
    ensures ParseValue(s) == ParseLiteral(s)
  {
    var c := s[0];
    assert c != 'n' && c != 't' && c != 'f' && c != '"' && c != '[' && c != '{';
    assert SkipSpace(s) == s;
  }

  lemma WordBranch(s: string)
    requires s != "" && s[0] in "ntf"
    ensures ParseValue(s) ==
      if s[0] == 'n' then ParseWord(s, "null", Null)
      else if s[0] == 't' then ParseWord(s, "true", Bool(true))
      else ParseWord(s, "false", Bool(false))
  {
    assert SkipSpace(s) == s;
  }

  lemma TextBranch(s: string)
    ensures ParseValue("\"" + s) == ParseText(s)
  {
    var t := "\"" + s;
    assert t[0] == '"' && t[1..] == s;
    assert SkipSpace(t) == t;
  }

  lemma StringParses(text: string, rest: string)
    ensures ParseValue(Quote(text) + rest) == Some((String(text), rest))
  {
    var inside := Escape(text) + "\"" + rest;
    assert Quote(text) + rest == "\"" + inside;
    TextBranch(inside);
    QuoteParses(text, rest);
  }

  lemma ArrayBranch(s: string)
    ensures ParseValue("[" + s) == ParseArray(s)
  {
    var t := "[" + s;
    assert t[0] == '[' && t[1..] == s;
    assert SkipSpace(t) == t;
  }

  lemma ObjectBranch(s: string)
    ensures ParseValue("{" + s) == ParseObject(s)
  {
    var t := "{" + s;
    assert t[0] == '{' && t[1..] == s;
    assert SkipSpace(t) == t;
  }

  lemma ArrayParses(items: seq<Value>, rest: string)
    requires items != [] && ParseItems(PrintItems(items) + rest) == Some((items, rest))
    requires WellFormed(items[0])
    ensures ParseArray(PrintItems(items) + rest) == Some((Array(items), rest))
  {
    PrintStarts(items[0]);
    var s := PrintItems(items) + rest;
    assert s[0] == Print(items[0])[0];
    assert SkipSpace(s) == s;
  }

  lemma ObjectParses(members: seq<Member>, rest: string)
    requires members != [] && ParseMembers(PrintMembers(members) + rest) == Some((members, rest))
    ensures ParseObject(PrintMembers(members) + rest) == Some((Object(members), rest))
  {
    var s := PrintMembers(members) + rest;
    assert s[0] == PrintMember(members[0])[0] == '"';
    assert SkipSpace(s) == s;
  }

  lemma ItemParses(s: string, item: Value, tail: string)
    requires ParseValue(s) == Some((item, tail)) && tail != ""
    ensures tail[0] == ']' ==> ParseItems(s) == Some(([item], tail[1..]))
    ensures tail[0] == ',' && ParseItems(tail[1..]).Some? ==>
      ParseItems(s) == Some(([item] + ParseItems(tail[1..]).value.0, ParseItems(tail[1..]).value.1))
  {
  }

  lemma MemberParses(s: string, key: string, after: string, value: Value, tail: string)
    requires s != "" && s[0] == '"' && ParseString(s[1..]) == Some((key, ":" + after))
    requires ParseValue(after) == Some((value, tail))
    ensures ParseMember(s) == Some((Member(key, value), tail))
  {
    assert (":" + after)[1..] == after;
  }

  lemma MembersParse(s: string, m: Member, tail: string)
    requires ParseMember(s) == Some((m, tail)) && tail != ""
    ensures tail[0] == '}' ==> ParseMembers(s) == Some(([m], tail[1..]))
    ensures tail[0] == ',' && ParseMembers(tail[1..]).Some? ==>
      ParseMembers(s) == Some(([m] + ParseMembers(tail[1..]).value.0, ParseMembers(tail[1..]).value.1))
  {
  }

  /** The ways in which the items of an array can parse. */
  lemma ItemsCases(s: string)
    requires ParseItems(s).Some?
    ensures ParseValue(s).Some?
    ensures var (item, rest) := ParseValue(s).value;
      var t := SkipSpace(rest);
      && t != "" && |t| <= |s| && t[0] in "],"
      && (t[0] == ']' ==> ParseItems(s) == Some(([item], t[1..])))
      && (t[0] == ',' ==>
            && ParseItems(t[1..]).Some?
            && ParseItems(s) == Some(([item] + ParseItems(t[1..]).value.0, ParseItems(t[1..]).value.1)))
  {
  }

  lemma MembersCases(s: string)
    requires ParseMembers(s).Some?
    ensures ParseMember(s).Some?
    ensures var (m, rest) := ParseMember(s).value;
      var t := SkipSpace(rest);
      && t != "" && |t| <= |s| && t[0] in "},"
      && (t[0] == '}' ==> ParseMembers(s) == Some(([m], t[1..])))
      && (t[0] == ',' ==>
            && ParseMembers(t[1..]).Some?
            && ParseMembers(s) == Some(([m] + ParseMembers(t[1..]).value.0, ParseMembers(t[1..]).value.1)))
  {
  }

  lemma {:induction false} PrintParses(v: Value, rest: string)
    requires WellFormed(v) && Delimited(rest)
    ensures ParseValue(Print(v) + rest) == Some((v, rest))
    decreases v, 1
  {
    match v
    case Null => WordParses(v, rest);
    case Bool(b) => WordParses(v, rest);
    case Number(literal) => NumberParses(literal, rest);
    case String(text) => StringParses(text, rest);
    case Array(items) => PrintArrayParses(items, rest);
    case Object(members) => PrintObjectParses(members, rest);
  }

  lemma {:induction false} PrintArrayParses(items: seq<Value>, rest: string)
    requires WellFormed(Array(items)) && Delimited(rest)
    ensures ParseValue(Print(Array(items)) + rest) == Some((Array(items), rest))
    decreases items, 1
  {
    var inside := PrintItems(items) + rest;
    ArrayBranch(inside);
    assert Print(Array(items)) + rest == "[" + inside;
    if items == [] {
      assert inside == "]" + rest;
    } else {
      PrintItemsParses(items, rest);
      ArrayParses(items, rest);
    }
  }

  lemma {:induction false} PrintObjectParses(members: seq<Member>, rest: string)
    requires WellFormed(Object(members))
    ensures ParseValue(Print(Object(members)) + rest) == Some((Object(members), rest))
    decreases members, 1
  {
    var inside := PrintMembers(members) + rest;
    ObjectBranch(inside);
    assert Print(Object(members)) + rest == "{" + inside;
    if members == [] {
      assert inside == "}" + rest;
    } else {
      PrintMembersParses(members, rest);
      ObjectParses(members, rest);
    }
  }

  lemma PrintItemsSplit(items: seq<Value>, rest: string)
    requires |items| > 1
    ensures PrintItems(items) + rest == Print(items[0]) + ("," + (PrintItems(items[1..]) + rest))
  {
    Reassociate(Print(items[0]), ",", PrintItems(items[1..]), rest);
  }

  lemma LastItemParses(item: Value, rest: string)
    requires ParseValue(Print(item) + ("]" + rest)) == Some((item, "]" + rest))
    ensures ParseItems(PrintItems([item]) + rest) == Some(([item], rest))
  {
    var tail := "]" + rest;
    assert PrintItems([item]) + rest == Print(item) + tail && tail[1..] == rest;
    ItemParses(Print(item) + tail, item, tail);
  }

  lemma ItemThenMore(items: seq<Value>, rest: string)
    requires |items| > 1
    requires var more := "," + (PrintItems(items[1..]) + rest);
      ParseValue(Print(items[0]) + more) == Some((items[0], more))
    requires ParseItems(PrintItems(items[1..]) + rest) == Some((items[1..], rest))
    ensures ParseItems(PrintItems(items) + rest) == Some((items, rest))
  {
    var tail := "," + (PrintItems(items[1..]) + rest);
    PrintItemsSplit(items, rest);
    assert tail[1..] == PrintItems(items[1..]) + rest;
    ItemParses(Print(items[0]) + tail, items[0], tail);
    assert [items[0]] + items[1..] == items;
  }

  lemma {:induction false} PrintItemsParses(items: seq<Value>, rest: string)
    requires items != [] && forall i | 0 <= i < |items| :: WellFormed(items[i])
    ensures ParseItems(PrintItems(items) + rest) == Some((items, rest))
    decreases items, 0
  {
    if |items| == 1 {
      PrintParses(items[0], "]" + rest);
      LastItemParses(items[0], rest);
      assert items == [items[0]];
    } else {
      PrintParses(items[0], "," + (PrintItems(items[1..]) + rest));
      PrintItemsParses(items[1..], rest);
      ItemThenMore(items, rest);
    }
  }

  lemma PrintMembersSplit(members: seq<Member>, rest: string)
    requires |members| > 1
    ensures PrintMembers(members) + rest == PrintMember(members[0]) + ("," + (PrintMembers(members[1..]) + rest))
  {
    Reassociate(PrintMember(members[0]), ",", PrintMembers(members[1..]), rest);
  }

  lemma LastMemberParses(m: Member, rest: string)
    requires ParseMember(PrintMember(m) + ("}" + rest)) == Some((m, "}" + rest))
    ensures ParseMembers(PrintMembers([m]) + rest) == Some(([m], rest))
  {
    var tail := "}" + rest;
    assert PrintMembers([m]) + rest == PrintMember(m) + tail && tail[1..] == rest;
    MembersParse(PrintMember(m) + tail, m, tail);
  }

  lemma MemberThenMore(members: seq<Member>, rest: string)
    requires |members| > 1
    requires var more := "," + (PrintMembers(members[1..]) + rest);
      ParseMember(PrintMember(members[0]) + more) == Some((members[0], more))
    requires ParseMembers(PrintMembers(members[1..]) + rest) == Some((members[1..], rest))
    ensures ParseMembers(PrintMembers(members) + rest) == Some((members, rest))
  {
    var tail := "," + (PrintMembers(members[1..]) + rest);
    PrintMembersSplit(members, rest);
    assert tail[1..] == PrintMembers(members[1..]) + rest;
    MembersParse(PrintMember(members[0]) + tail, members[0], tail);
    assert [members[0]] + members[1..] == members;
  }

  lemma {:induction false} PrintMembersParses(members: seq<Member>, rest: string)
    requires members != [] && forall i | 0 <= i < |members| :: WellFormed(members[i].value)
    ensures ParseMembers(PrintMembers(members) + rest) == Some((members, rest))
    decreases members, 0
  {
    if |members| == 1 {
      PrintMemberParses(members[0], "}" + rest);
      LastMemberParses(members[0], rest);
      assert members == [members[0]];
    } else {
      PrintMembersParses(members[1..], rest);
      PrintMemberParses(members[0], "," + (PrintMembers(members[1..]) + rest));
      MemberThenMore(members, rest);
    }
  }

  lemma {:induction false} PrintMemberParses(m: Member, tail: string)
    requires WellFormed(m.value) && Delimited(tail)
    ensures ParseMember(PrintMember(m) + tail) == Some((m, tail))
    decreases m, 0
  {
    var after := Print(m.value) + tail;
    var s := Quote(m.key) + (":" + after);
    assert PrintMember(m) + tail == s;
    KeyParses(m.key, ":" + after);
    PrintParses(m.value, tail);
    MemberParses(s, m.key, after, m.value, tail);
  }

  lemma KeyParses(key: string, rest: string)
    ensures (Quote(key) + rest)[0] == '"' && ParseString((Quote(key) + rest)[1..]) == Some((key, rest))
  {
    QuoteParses(key, rest);
    assert (Quote(key) + rest)[1..] == Escape(key) + "\"" + rest;
  }

  /** The parser inverts the printer. */
  lemma RoundTrip(v: Value)
    requires WellFormed(v)
    ensures Parse(Print(v)) == Some(v)
  {
    PrintParses(v, "");
    assert Print(v) + "" == Print(v);
  }

  // ---- Integers ----

  function FromNat(n: nat): Value { Number(Decimal(n)) }

  lemma {:induction false} TakeAllDigits(s: string)
    requires AllDigits(s)
    ensures TakeDigits(s) == (s, "")
  {
    if s != "" {
      TakeAllDigits(s[1..]);
      assert [s[0]] + s[1..] == s;
    }
  }

  lemma DecimalIsNumber(n: nat)
    ensures IsNumber(Decimal(n))
  {
    var s := Decimal(n);
    DecimalRoundTrip(n);
    TakeAllDigits(s);
    if s[0] == '0' {
      assert s == "0";
    }
    assert ParseWhole(s) == Some((s, ""));
    assert ThenPart(ParseWhole(s), ".", "") == Some((s, "")) by {
      assert s + "" == s;
    }
  }

  /** An unsigned integer below `bound`: serde accepts the plain digits form only. */
  function AsNat(v: Value, bound: nat): (r: Option<nat>)
    ensures r.Some? ==> r.value < bound
  {
    if v.Number? && AllDigits(v.literal) && DecimalValue(v.literal) < bound then Some(DecimalValue(v.literal)) else None
  }

  lemma NatRoundTrip(n: nat, bound: nat)
    requires n < bound
    ensures AsNat(FromNat(n), bound) == Some(n) && WellFormed(FromNat(n))
  {
    DecimalRoundTrip(n);
    DecimalIsNumber(n);
  }
}
