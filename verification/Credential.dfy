/** The lexical search of a response body for the API key. */
module Credential {
  import opened Wrappers
  import opened Text
  import opened Utf8
  import Json

  datatype CredentialScan = Clean | Credential | Unverifiable

  // ---- String literals of a body ----

  /** How many of the bytes after an opening quote belong to the literal, its closing quote included. */
  function InnerLength(b: seq<Byte>): (n: nat)
    ensures n <= |b|
  {
    if b == [] then 0
    else if b[0] == QUOTE then 1
    else if b[0] != BACKSLASH then 1 + InnerLength(b[1..])
    else if |b| == 1 then 1
    else 2 + InnerLength(b[2..])
  }

  function Literals(b: seq<Byte>): seq<seq<Byte>> {
    if b == [] then []
    else if b[0] != QUOTE then Literals(b[1..])
    else
      var n := 1 + InnerLength(b[1..]);
      [b[..n]] + Literals(b[n..])
  }

  /** `serde_json::from_slice::<String>`. */
  function DecodeLiteral(b: seq<Byte>): Option<string> {
    var s := Decode(b);
    if s.None? then None
    else
      var v := Json.Parse(s.value);
      if v.Some? && v.value.String? then Some(v.value.text) else None
  }

  type Decoder = seq<Byte> -> Option<string>

  /** The first literal that is not harmless decides. */
  function Verdict(literals: seq<seq<Byte>>, key: string, decode: Decoder): CredentialScan {
    if literals == [] then Clean
    else
      var content := decode(literals[0]);
      if content.None? then Unverifiable
      else if Contains(content.value, key) then Credential
      else Verdict(literals[1..], key, decode)
  }

  function ScanOf(body: seq<Byte>, key: string, decode: Decoder): CredentialScan {
    if key == "" then Clean
    else if Contains(body, Encode(key)) then Credential
    else Verdict(Literals(body), key, decode)
  }

  lemma LiteralsStep(b: seq<Byte>, i: nat)
    requires i < |b|
    ensures b[i] != QUOTE ==> Literals(b[i..]) == Literals(b[i + 1..])
    ensures b[i] == QUOTE ==>
      var end := i + 1 + InnerLength(b[i + 1..]);
      Literals(b[i..]) == [b[i..end]] + Literals(b[end..])
  {
    assert b[i..][1..] == b[i + 1..];
    var n := 1 + InnerLength(b[i + 1..]);
    assert b[i..][..n] == b[i..i + n] && b[i..][n..] == b[i + n..];
  }

  lemma InnerStep(b: seq<Byte>, i: nat)
    requires i < |b| && b[i] != QUOTE
    ensures b[i] != BACKSLASH ==> InnerLength(b[i..]) == 1 + InnerLength(b[i + 1..])
    ensures b[i] == BACKSLASH && i + 1 < |b| ==> InnerLength(b[i..]) == 2 + InnerLength(b[i + 2..])
    ensures b[i] == BACKSLASH && i + 1 == |b| ==> InnerLength(b[i..]) == 1
  {
    assert b[i..][1..] == b[i + 1..];
    if i + 1 < |b| {
      assert b[i..][2..] == b[i + 2..];
    }
  }

  ghost function LiteralEnd(body: seq<Byte>, start: nat): (end: nat)
    requires start < |body|
    ensures start < end <= |body|
  {
    start + 1 + InnerLength(body[start + 1..])
  }

  /** Where the literal ends whose scan has come to `index`. */
  ghost function EndFrom(body: seq<Byte>, index: nat): nat {
    if index > |body| then |body| else index + InnerLength(body[index..])
  }

  lemma EndStep(body: seq<Byte>, index: nat)
    requires index < |body| && body[index] != QUOTE
    ensures EndFrom(body, index) == EndFrom(body, index + if body[index] == BACKSLASH then 2 else 1)
  {
    InnerStep(body, index);
  }

  lemma VerdictStep(body: seq<Byte>, i: nat, key: string, decode: Decoder)
    requires i < |body|
    ensures body[i] != QUOTE ==> Verdict(Literals(body[i..]), key, decode) == Verdict(Literals(body[i + 1..]), key, decode)
    ensures body[i] == QUOTE ==>
      var end := LiteralEnd(body, i);
      var content := decode(body[i..end]);
      Verdict(Literals(body[i..]), key, decode) ==
        if content.None? then Unverifiable
        else if Contains(content.value, key) then Credential
        else Verdict(Literals(body[end..]), key, decode)
  {
    LiteralsStep(body, i);
  }

  /** The inner loop of `scan_credential`: an escape skips the byte after it. */
  method FindLiteralEnd(body: seq<Byte>, start: nat) returns (end: nat)
    requires start < |body|
    ensures end == LiteralEnd(body, start)
  {
    var index := start + 1;
    while index < |body| && body[index] != QUOTE
      invariant start < index <= |body| + 1
      invariant LiteralEnd(body, start) == EndFrom(body, index)
    {
      EndStep(body, index);
      index := index + if body[index] == BACKSLASH then 2 else 1;
    }
    end := if index + 1 < |body| then index + 1 else |body|;
    if index < |body| {
      assert body[index..][0] == QUOTE;
    }
  }

  /** The outer loop of `scan_credential`. */
  method ScanLiterals(body: seq<Byte>, key: string, decode: Decoder) returns (r: CredentialScan)
    ensures r == Verdict(Literals(body), key, decode)
  {
    var index := 0;
    assert body[0..] == body;
    while index < |body|
      invariant index <= |body|
      invariant Verdict(Literals(body), key, decode) == Verdict(Literals(body[index..]), key, decode)
    {
      VerdictStep(body, index, key, decode);
      if body[index] != QUOTE {
        index := index + 1;
      } else {
        var end := FindLiteralEnd(body, index);
        var content := decode(body[index..end]);
        if content.None? {
          return Unverifiable;
        }
        if Contains(content.value, key) {
          return Credential;
        }
        index := end;
      }
    }
    r := Clean;
  }

  /** `scan_credential`, on any bytes at all. */
  method ScanCredential(body: seq<Byte>, key: string) returns (r: CredentialScan)
    ensures r == ScanOf(body, key, DecodeLiteral)
  {
    var needle := Encode(key);
    if key == "" {
      return Clean;
    }
    if Contains(body, needle) {
      return Credential;
    }
    r := ScanLiterals(body, key, DecodeLiteral);
  }

  // ---- The literals are the strings of the document ----

  /** Every string of a value in document order: keys, duplicates included, and texts. */
  function StringsOf(v: Json.Value): seq<string>
    decreases v, 0
  {
    match v
    case String(text) => [text]
    case Array(items) => StringsOfItems(items)
    case Object(members) => StringsOfMembers(members)
    case _ => []
  }

  function StringsOfItems(items: seq<Json.Value>): seq<string>
    decreases items, 1
  {
    if items == [] then [] else StringsOf(items[0]) + StringsOfItems(items[1..])
  }

  function StringsOfMembers(members: seq<Json.Member>): seq<string>
    decreases members, 1
  {
    if members == [] then []
    else [members[0].key] + StringsOf(members[0].value) + StringsOfMembers(members[1..])
  }

  predicate Plain(s: string) {
    forall i | 0 <= i < |s| :: s[i] != '"' && s[i] != '\\'
  }

  lemma PlainChar(c: char, i: nat)
    requires i < |EncodeChar(c)|
    ensures EncodeChar(c)[i] == QUOTE <==> c == '"'
    ensures EncodeChar(c)[i] == BACKSLASH <==> c == '\\'
  {
  }

  lemma {:induction false} PlainBytes(s: string)
    requires Plain(s)
    ensures forall i | 0 <= i < |Encode(s)| :: Encode(s)[i] != QUOTE && Encode(s)[i] != BACKSLASH
  {
    if s != "" {
      PlainBytes(s[1..]);
      forall i | 0 <= i < |EncodeChar(s[0])| ensures EncodeChar(s[0])[i] != QUOTE && EncodeChar(s[0])[i] != BACKSLASH {
        PlainChar(s[0], i);
      }
    }
  }

  lemma {:induction false} SkipPlainBytes(b: seq<Byte>, rest: seq<Byte>)
    requires forall i | 0 <= i < |b| :: b[i] != QUOTE && b[i] != BACKSLASH
    ensures InnerLength(b + rest) == |b| + InnerLength(rest)
    ensures Literals(b + rest) == Literals(rest)
  {
    if b == [] {
      assert b + rest == rest;
    } else {
      SkipPlainBytes(b[1..], rest);
      assert (b + rest)[1..] == b[1..] + rest;
    }
  }

  /** Text without quotes and backslashes neither begins nor ends a literal. */
  lemma SkipPlain(s: string, rest: string)
    requires Plain(s)
    ensures InnerLength(Encode(s + rest)) == Len(s) + InnerLength(Encode(rest))
    ensures Literals(Encode(s + rest)) == Literals(Encode(rest))
  {
    EncodeConcat(s, rest);
    PlainBytes(s);
    SkipPlainBytes(Encode(s), Encode(rest));
  }

  /** What an escape sequence takes after its backslash. */
  function EscapeLength(s: string): nat
    requires Json.ParseEscape(s).Some?
  {
    |s| - |Json.ParseEscape(s).value.1|
  }

  lemma EscapeIsLocal(s: string, t: string)
    requires Json.ParseEscape(s).Some?
    ensures var n := EscapeLength(s);
      && 1 <= n <= |s| && s[n..] == Json.ParseEscape(s).value.1
      && s[0] as int < 128
      && Json.ParseEscape(s[..n] + t) == Some((Json.ParseEscape(s).value.0, t))
  {
  }

  lemma EscapePlain(s: string)
    requires Json.ParseEscape(s).Some? && s[0] == 'u'
    ensures EscapeLength(s) in {5, 11}
    ensures forall i | 1 <= i < 5 :: s[i] != '"' && s[i] != '\\'
    ensures EscapeLength(s) == 11 ==> s[5..7] == "\\u" && forall i | 7 <= i < 11 :: s[i] != '"' && s[i] != '\\'
  {
    assert s[1..][0] == s[1] && s[1..][1] == s[2] && s[1..][2] == s[3] && s[1..][3] == s[4];
    if EscapeLength(s) == 11 {
      assert s[7..][0] == s[7] && s[7..][1] == s[8] && s[7..][2] == s[9] && s[7..][3] == s[10];
    }
  }

  lemma SkipEscaped(t: string)
    requires |t| >= 2 && t[0] == '\\' && t[1] as int < 128
    ensures InnerLength(Encode(t)) == 2 + InnerLength(Encode(t[2..]))
  {
    assert t[1..][1..] == t[2..];
    assert Encode(t) == [BACKSLASH] + ([t[1] as int] + Encode(t[2..]));
    assert Encode(t)[2..] == Encode(t[2..]);
  }

  /** An escape sequence never looks like the end of the literal. */
  lemma EscapeLengthInBytes(s: string)
    requires Json.ParseEscape(s).Some?
    ensures var n := EscapeLength(s);
      InnerLength(Encode("\\" + s)) == 1 + n + InnerLength(Encode(s[n..]))
  {
    EscapeIsLocal(s, "");
    SkipEscaped("\\" + s);
    assert ("\\" + s)[2..] == s[1..];
    if s[0] == 'u' {
      UnicodeEscapeBytes(s);
    }
  }

  lemma UnicodeEscapeBytes(s: string)
    requires Json.ParseEscape(s).Some? && s[0] == 'u'
    ensures var n := EscapeLength(s);
      1 <= n <= |s| && InnerLength(Encode(s[1..])) == n - 1 + InnerLength(Encode(s[n..]))
  {
    EscapePlain(s);
    SkipFour(s[1..]);
    DropDrop(s, 1, 4);
    if EscapeLength(s) == 11 {
      assert s[5] == '\\' && s[6] == 'u' by {
        assert s[5..7][0] == s[5] && s[5..7][1] == s[6];
      }
      SkipEscaped(s[5..]);
      DropDrop(s, 5, 2);
      SkipFour(s[7..]);
      DropDrop(s, 7, 4);
    }
  }

  /** Four hexadecimal digits take four bytes. */
  lemma SkipFour(s: string)
    requires Json.ParseHex4(s).Some?
    ensures InnerLength(Encode(s)) == 4 + InnerLength(Encode(s[4..]))
  {
    var digits := s[..4];
    assert digits + s[4..] == s;
    EncodeAscii(digits);
    SkipPlain(digits, s[4..]);
  }

  ghost function Consumed(s: string): string
    requires Json.ParseString(s).Some?
  {
    s[..|s| - |Json.ParseString(s).value.1|]
  }

  /** What the JSON parser reads as a string is what the lexer takes as a literal. */
  lemma {:induction false} StringToken(s: string)
    requires Json.ParseString(s).Some?
    ensures var (text, rest) := Json.ParseString(s).value;
      && s == Consumed(s) + rest
      && InnerLength(Encode(s)) == Len(Consumed(s))
      && Json.ParseString(Consumed(s)) == Some((text, ""))
    decreases |s|
  {
    var (text, rest) := Json.ParseString(s).value;
    if s[0] == '"' {
      assert Consumed(s) == "\"";
      EncodeAscii("\"");
      assert Encode(s)[0] == QUOTE;
    } else if s[0] == '\\' {
      EscapeToken(s);
    } else {
      PlainToken(s);
    }
  }

  /** A token is its head and the token that goes on from there. */
  lemma JoinToken(head: string, inner: string, rest: string, s: string)
    requires s == head + (inner + rest)
    ensures s[..|s| - |rest|] == head + inner && s == head + inner + rest
    ensures Len(head + inner) == Len(head) + Len(inner)
  {
    EncodeConcat(head, inner);
    Associate(head, inner, rest);
    var whole := head + inner;
    assert s == whole + rest;
    assert s[..|whole|] == whole;
  }

  lemma ParsePlain(c: char, u: string)
    requires c != '"' && c != '\\' && c as int >= 32
    ensures Json.ParseString([c] + u) == Json.PrependTo(c, Json.ParseString(u))
  {
    assert ([c] + u)[1..] == u;
  }

  lemma ParseEscaped(c: char, e: string, u: string)
    requires Json.ParseEscape(e + u) == Some((c, u))
    ensures Json.ParseString("\\" + e + u) == Json.PrependTo(c, Json.ParseString(u))
  {
    Associate("\\", e, u);
    assert ("\\" + (e + u))[1..] == e + u;
  }

  /** An escape sequence reads the same whatever follows it. */
  lemma EscapeParts(s: string) returns (c: char, head: string, tail: string)
    requires Json.ParseString(s).Some? && s[0] == '\\'
    ensures s == head + tail && |tail| < |s|
    ensures Json.ParseString(s) == Json.PrependTo(c, Json.ParseString(tail))
    ensures InnerLength(Encode(s)) == Len(head) + InnerLength(Encode(tail))
    ensures forall u :: Json.ParseString(head + u) == Json.PrependTo(c, Json.ParseString(u))
  {
    var t := s[1..];
    var n := EscapeLength(t);
    EscapeIsLocal(t, "");
    var e := t[..n];
    c, head, tail := Json.ParseEscape(t).value.0, "\\" + e, t[n..];
    assert t == e + tail;
    Associate("\\", e, tail);
    EscapeHead(t);
    forall u ensures Json.ParseString(head + u) == Json.PrependTo(c, Json.ParseString(u)) {
      EscapeIsLocal(t, u);
      ParseEscaped(c, e, u);
    }
  }

  lemma EscapeHead(t: string)
    requires Json.ParseEscape(t).Some?
    ensures var n := EscapeLength(t);
      n <= |t| && InnerLength(Encode("\\" + t)) == Len("\\" + t[..n]) + InnerLength(Encode(t[n..]))
  {
    EscapeLengthInBytes(t);
    EscapeIsAscii(t);
    AsciiLength("\\", t, EscapeLength(t));
  }

  lemma AsciiLength(mark: string, t: string, n: nat)
    requires |mark| == 1 && mark[0] as int < 128
    requires n <= |t| && forall i | 0 <= i < n :: t[i] as int < 128
    ensures Len(mark + t[..n]) == 1 + n
  {
    EncodeAscii(mark + t[..n]);
  }

  lemma {:induction false} PlainToken(s: string)
    requires Json.ParseString(s).Some? && s[0] != '"' && s[0] != '\\'
    ensures var (text, rest) := Json.ParseString(s).value;
      && s == Consumed(s) + rest
      && InnerLength(Encode(s)) == Len(Consumed(s))
      && Json.ParseString(Consumed(s)) == Some((text, ""))
    decreases |s|, 0
  {
    var (head, tail) := ([s[0]], s[1..]);
    assert s == head + tail;
    ParsePlain(s[0], tail);
    StringToken(tail);
    var (inner, rest) := (Consumed(tail), Json.ParseString(tail).value.1);
    SkipPlain(head, tail);
    JoinToken(head, inner, rest, s);
    ParsePlain(s[0], inner);
  }

  lemma {:induction false} EscapeToken(s: string)
    requires Json.ParseString(s).Some? && s[0] == '\\'
    ensures var (text, rest) := Json.ParseString(s).value;
      && s == Consumed(s) + rest
      && InnerLength(Encode(s)) == Len(Consumed(s))
      && Json.ParseString(Consumed(s)) == Some((text, ""))
    decreases |s|, 0
  {
    var c, head, tail := EscapeParts(s);
    StringToken(tail);
    var (inner, rest) := (Consumed(tail), Json.ParseString(tail).value.1);
    JoinToken(head, inner, rest, s);
    assert Json.ParseString(head + inner) == Json.PrependTo(c, Json.ParseString(inner));
  }

  lemma EscapeIsAscii(s: string)
    requires Json.ParseEscape(s).Some?
    ensures EscapeLength(s) <= |s| && forall i | 0 <= i < EscapeLength(s) :: s[i] as int < 128
  {
    if s[0] == 'u' {
      assert s[1..][0] == s[1] && s[1..][1] == s[2] && s[1..][2] == s[3] && s[1..][3] == s[4];
      if EscapeLength(s) == 11 {
        assert s[5..7][0] == s[5] && s[5..7][1] == s[6];
        assert s[7..][0] == s[7] && s[7..][1] == s[8] && s[7..][2] == s[9] && s[7..][3] == s[10];
      }
    }
  }

  // ---- Whole documents ----

  /** `decode` reads every string token of JSON. */
  ghost predicate ReadsTokens(decode: Decoder) {
    forall s | Json.ParseString(s).Some? :: decode(Encode("\"" + Consumed(s))) == Some(Json.ParseString(s).value.0)
  }

  /** The literals, one for one, decode to the strings. */
  ghost predicate Reads(decode: Decoder, literals: seq<seq<Byte>>, strings: seq<string>) {
    |literals| == |strings| && forall i | 0 <= i < |literals| :: decode(literals[i]) == Some(strings[i])
  }

  lemma TokenDecodes(s: string)
    requires Json.ParseString(s).Some?
    ensures DecodeLiteral(Encode("\"" + Consumed(s))) == Some(Json.ParseString(s).value.0)
  {
    StringToken(s);
    var inner := Consumed(s);
    DecodeEncoded("\"" + inner);
    assert Json.SkipSpace("\"" + inner) == "\"" + inner;
    Json.TextBranch(inner);
  }

  lemma DecodeLiteralReadsTokens()
    ensures ReadsTokens(DecodeLiteral)
  {
    forall s | Json.ParseString(s).Some?
      ensures DecodeLiteral(Encode("\"" + Consumed(s))) == Some(Json.ParseString(s).value.0)
    {
      TokenDecodes(s);
    }
  }

  lemma TokenBytes(body: seq<Byte>, rest: seq<Byte>)
    requires InnerLength(body + rest) == |body|
    ensures Literals([QUOTE] + (body + rest)) == [[QUOTE] + body] + Literals(rest)
  {
    var b := [QUOTE] + (body + rest);
    assert b[1..] == body + rest;
    assert b[..1 + |body|] == [QUOTE] + body && b[1 + |body|..] == rest;
  }

  /** Reading past a string token adds its literal. */
  lemma TokenLiterals(s: string, decode: Decoder) returns (literals: seq<seq<Byte>>)
    requires Json.ParseString(s).Some? && ReadsTokens(decode)
    ensures Literals(Encode("\"" + s)) == literals + Literals(Encode(Json.ParseString(s).value.1))
    ensures Reads(decode, literals, [Json.ParseString(s).value.0])
  {
    var (body, rest) := (Consumed(s), Json.ParseString(s).value.1);
    StringToken(s);
    literals := [Encode("\"" + body)];
    QuotedBytes(s);
    QuotedBytes(body);
    EncodeConcat(body, rest);
    TokenBytes(Encode(body), Encode(rest));
  }

  lemma QuotedBytes(s: string)
    ensures Encode("\"" + s) == [QUOTE] + Encode(s)
  {
    assert ("\"" + s)[1..] == s;
  }

  lemma {:induction false} SpaceLiterals(s: string)
    ensures Literals(Encode(s)) == Literals(Encode(Json.SkipSpace(s)))
  {
    if s != "" && Json.IsSpace(s[0]) {
      CharLiterals(s);
      SpaceLiterals(s[1..]);
    }
  }

  lemma CharLiterals(s: string)
    requires s != "" && s[0] != '"' && s[0] != '\\'
    ensures Literals(Encode(s)) == Literals(Encode(s[1..]))
  {
    assert [s[0]] + s[1..] == s;
    SkipPlain([s[0]], s[1..]);
  }

  lemma PlainLiterals(a: string, rest: string)
    requires Plain(a)
    ensures Literals(Encode(a + rest)) == Literals(Encode(rest))
  {
    SkipPlain(a, rest);
  }

  lemma ReadsConcat(decode: Decoder, l1: seq<seq<Byte>>, s1: seq<string>, l2: seq<seq<Byte>>, s2: seq<string>)
    requires Reads(decode, l1, s1) && Reads(decode, l2, s2)
    ensures Reads(decode, l1 + l2, s1 + s2)
  {
  }

  lemma TextLiterals(t: string, decode: Decoder) returns (literals: seq<seq<Byte>>)
    requires t != "" && t[0] == '"' && Json.ParseText(t[1..]).Some? && ReadsTokens(decode)
    ensures Literals(Encode(t)) == literals + Literals(Encode(Json.ParseText(t[1..]).value.1))
    ensures Reads(decode, literals, StringsOf(Json.ParseText(t[1..]).value.0))
  {
    literals := TokenLiterals(t[1..], decode);
    assert "\"" + t[1..] == t;
  }

  /** These literals are the strings of what was read from `t`. */
  ghost predicate Yields(t: string, r: Option<(Json.Value, string)>, literals: seq<seq<Byte>>, decode: Decoder) {
    r.Some? ==>
      && Literals(Encode(t)) == literals + Literals(Encode(r.value.1))
      && Reads(decode, literals, StringsOf(r.value.0))
  }

  lemma SpacedValue(s: string)
    ensures Json.ParseValue(s) == Json.ParseValue(Json.SkipSpace(s))
  {
    SkipSpaceTwice(s);
  }

  lemma {:induction false} SkipSpaceTwice(s: string)
    ensures Json.SkipSpace(Json.SkipSpace(s)) == Json.SkipSpace(s)
    ensures Json.SkipSpace(s) == "" || !Json.IsSpace(Json.SkipSpace(s)[0])
  {
    if s != "" && Json.IsSpace(s[0]) {
      SkipSpaceTwice(s[1..]);
    }
  }

  lemma ScalarYields(t: string, decode: Decoder)
    requires t != "" && !Json.IsSpace(t[0]) && t[0] !in "\"[{"
    ensures Yields(t, Json.ParseValue(t), [], decode)
  {
    ScalarLiterals(t);
  }

  lemma TextYields(t: string, decode: Decoder) returns (literals: seq<seq<Byte>>)
    requires t != "" && t[0] == '"' && Json.ParseValue(t).Some? && ReadsTokens(decode)
    ensures Yields(t, Json.ParseValue(t), literals, decode)
  {
    PrefixThenRest(['"'], t);
    Json.TextBranch(t[1..]);
    literals := TextLiterals(t, decode);
  }

  lemma ArrayYields(t: string, literals: seq<seq<Byte>>, decode: Decoder)
    requires t != "" && t[0] == '[' && Yields(t[1..], Json.ParseArray(t[1..]), literals, decode)
    ensures Yields(t, Json.ParseValue(t), literals, decode)
  {
    PrefixThenRest(['['], t);
    Json.ArrayBranch(t[1..]);
    CharLiterals(t);
  }

  lemma ObjectYields(t: string, literals: seq<seq<Byte>>, decode: Decoder)
    requires t != "" && t[0] == '{' && Yields(t[1..], Json.ParseObject(t[1..]), literals, decode)
    ensures Yields(t, Json.ParseValue(t), literals, decode)
  {
    PrefixThenRest(['{'], t);
    Json.ObjectBranch(t[1..]);
    CharLiterals(t);
  }

  lemma {:induction false} ValueLiterals(s: string, decode: Decoder) returns (literals: seq<seq<Byte>>)
    requires Json.ParseValue(s).Some? && ReadsTokens(decode)
    ensures Literals(Encode(s)) == literals + Literals(Encode(Json.ParseValue(s).value.1))
    ensures Reads(decode, literals, StringsOf(Json.ParseValue(s).value.0))
    decreases |s|, 3
  {
    var t := Json.SkipSpace(s);
    SpaceLiterals(s);
    SpacedValue(s);
    SkipSpaceTwice(s);
    if t[0] == '"' {
      literals := TextYields(t, decode);
    } else if t[0] == '[' {
      literals := ArrayLiterals(t[1..], decode);
      ArrayYields(t, literals, decode);
    } else if t[0] == '{' {
      literals := ObjectLiterals(t[1..], decode);
      ObjectYields(t, literals, decode);
    } else {
      literals := [];
      ScalarYields(t, decode);
    }
  }

  /** Nothing between `t` and the end of this value is part of a string. */
  ghost predicate NoStrings(t: string, r: Option<(Json.Value, string)>) {
    r.Some? ==> Literals(Encode(t)) == Literals(Encode(r.value.1)) && StringsOf(r.value.0) == []
  }

  lemma WordLiterals(t: string, word: string, v: Json.Value)
    requires Plain(word) && (v.Null? || v.Bool?)
    ensures NoStrings(t, Json.ParseWord(t, word, v))
  {
    if word <= t {
      PrefixThenRest(word, t);
      PlainLiterals(word, t[|word|..]);
    }
  }

  lemma WordsLiterals(t: string)
    ensures NoStrings(t, Json.ParseWord(t, "null", Json.Null))
    ensures NoStrings(t, Json.ParseWord(t, "true", Json.Bool(true)))
    ensures NoStrings(t, Json.ParseWord(t, "false", Json.Bool(false)))
  {
    WordLiterals(t, "null", Json.Null);
    WordLiterals(t, "true", Json.Bool(true));
    WordLiterals(t, "false", Json.Bool(false));
  }

  lemma ScalarLiterals(t: string)
    requires t != "" && !Json.IsSpace(t[0]) && t[0] !in "\"[{"
    ensures NoStrings(t, Json.ParseValue(t))
  {
    if t[0] in "ntf" {
      Json.WordBranch(t);
      WordsLiterals(t);
    } else {
      Json.LiteralBranch(t);
      NumberLiterals(t);
    }
  }

  lemma NumberPlain(literal: string)
    requires Json.NumberChars(literal)
    ensures Plain(literal)
  {
  }

  lemma NumberLiterals(t: string)
    ensures NoStrings(t, Json.ParseLiteral(t))
  {
    if Json.ParseNumber(t).Some? {
      Json.NumberAlphabet(t);
      var (literal, rest) := Json.ParseNumber(t).value;
      NumberPlain(literal);
      PlainLiterals(literal, rest);
    }
  }

  lemma {:induction false} ArrayLiterals(s: string, decode: Decoder) returns (literals: seq<seq<Byte>>)
    requires Json.ParseArray(s).Some? && ReadsTokens(decode)
    ensures Literals(Encode(s)) == literals + Literals(Encode(Json.ParseArray(s).value.1))
    ensures Reads(decode, literals, StringsOf(Json.ParseArray(s).value.0))
    decreases |s|, 5
  {
    var t := Json.SkipSpace(s);
    if t != "" && t[0] == ']' {
      SpaceLiterals(s);
      CharLiterals(t);
      literals := [];
    } else {
      literals := ItemsLiterals(s, decode);
    }
  }

  /** After an element come white space and one character of punctuation. */
  lemma PunctuationLiterals(rest: string)
    requires var t := Json.SkipSpace(rest); t != "" && t[0] in ",]}"
    ensures Literals(Encode(rest)) == Literals(Encode(Json.SkipSpace(rest)[1..]))
  {
    SpaceLiterals(rest);
    CharLiterals(Json.SkipSpace(rest));
  }

  lemma StringsOfItemsCons(item: Json.Value, items: seq<Json.Value>)
    ensures StringsOfItems([item] + items) == StringsOf(item) + StringsOfItems(items)
    ensures StringsOfItems([item]) == StringsOf(item)
  {
    assert ([item] + items)[1..] == items;
  }

  lemma StringsOfMembersCons(m: Json.Member, members: seq<Json.Member>)
    ensures StringsOfMembers([m] + members) == [m.key] + StringsOf(m.value) + StringsOfMembers(members)
    ensures StringsOfMembers([m]) == [m.key] + StringsOf(m.value)
  {
    assert ([m] + members)[1..] == members;
  }

  lemma {:induction false} ItemsLiterals(s: string, decode: Decoder) returns (literals: seq<seq<Byte>>)
    requires Json.ParseItems(s).Some? && ReadsTokens(decode)
    ensures Literals(Encode(s)) == literals + Literals(Encode(Json.ParseItems(s).value.1))
    ensures Reads(decode, literals, StringsOfItems(Json.ParseItems(s).value.0))
    decreases |s|, 4
  {
    Json.ItemsCases(s);
    var (item, rest) := Json.ParseValue(s).value;
    literals := ValueLiterals(s, decode);
    var t := Json.SkipSpace(rest);
    PunctuationLiterals(rest);
    if t[0] == ']' {
      StringsOfItemsCons(item, []);
    } else {
      var first := literals;
      var (items, end) := Json.ParseItems(t[1..]).value;
      var more := ItemsLiterals(t[1..], decode);
      literals := first + more;
      Associate(first, more, Literals(Encode(end)));
      StringsOfItemsCons(item, items);
      ReadsConcat(decode, first, StringsOf(item), more, StringsOfItems(items));
    }
  }

  lemma {:induction false} ObjectLiterals(s: string, decode: Decoder) returns (literals: seq<seq<Byte>>)
    requires Json.ParseObject(s).Some? && ReadsTokens(decode)
    ensures Literals(Encode(s)) == literals + Literals(Encode(Json.ParseObject(s).value.1))
    ensures Reads(decode, literals, StringsOf(Json.ParseObject(s).value.0))
    decreases |s|, 5
  {
    var t := Json.SkipSpace(s);
    if t != "" && t[0] == '}' {
      SpaceLiterals(s);
      CharLiterals(t);
      literals := [];
    } else {
      literals := MembersLiterals(s, decode);
    }
  }

  /** The key of a member, up to where its value begins. */
  lemma KeyLiterals(s: string, decode: Decoder) returns (literals: seq<seq<Byte>>, rest: string)
    requires Json.ParseMember(s).Some? && ReadsTokens(decode)
    ensures |rest| < |s| && Literals(Encode(s)) == literals + Literals(Encode(rest))
    ensures var (m, end) := Json.ParseMember(s).value;
      Json.ParseValue(rest) == Some((m.value, end)) && Reads(decode, literals, [m.key])
  {
    var k := Json.SkipSpace(s);
    SpaceLiterals(s);
    var afterKey := Json.ParseString(k[1..]).value.1;
    literals := TokenLiterals(k[1..], decode);
    assert "\"" + k[1..] == k;
    var c := Json.SkipSpace(afterKey);
    SpaceLiterals(afterKey);
    CharLiterals(c);
    rest := c[1..];
  }

  lemma {:induction false} MemberLiterals(s: string, decode: Decoder) returns (literals: seq<seq<Byte>>)
    requires Json.ParseMember(s).Some? && ReadsTokens(decode)
    ensures var (m, rest) := Json.ParseMember(s).value;
      && Literals(Encode(s)) == literals + Literals(Encode(rest))
      && Reads(decode, literals, [m.key] + StringsOf(m.value))
    decreases |s|, 3
  {
    var (m, end) := Json.ParseMember(s).value;
    var first, rest := KeyLiterals(s, decode);
    var second := ValueLiterals(rest, decode);
    literals := first + second;
    Associate(first, second, Literals(Encode(end)));
    ReadsConcat(decode, first, [m.key], second, StringsOf(m.value));
  }

  lemma {:induction false} MembersLiterals(s: string, decode: Decoder) returns (literals: seq<seq<Byte>>)
    requires Json.ParseMembers(s).Some? && ReadsTokens(decode)
    ensures Literals(Encode(s)) == literals + Literals(Encode(Json.ParseMembers(s).value.1))
    ensures Reads(decode, literals, StringsOfMembers(Json.ParseMembers(s).value.0))
    decreases |s|, 4
  {
    Json.MembersCases(s);
    var (m, rest) := Json.ParseMember(s).value;
    literals := MemberLiterals(s, decode);
    var t := Json.SkipSpace(rest);
    PunctuationLiterals(rest);
    if t[0] == '}' {
      StringsOfMembersCons(m, []);
    } else {
      var first := literals;
      var (members, end) := Json.ParseMembers(t[1..]).value;
      var more := MembersLiterals(t[1..], decode);
      literals := first + more;
      Associate(first, more, Literals(Encode(end)));
      StringsOfMembersCons(m, members);
      ReadsConcat(decode, first, [m.key] + StringsOf(m.value), more, StringsOfMembers(members));
    }
  }

  lemma {:induction false} VerdictOfStrings(literals: seq<seq<Byte>>, strings: seq<string>, key: string, decode: Decoder)
    requires Reads(decode, literals, strings)
    ensures Verdict(literals, key, decode) == if exists t | t in strings :: Contains(t, key) then Credential else Clean
  {
    if literals != [] {
      VerdictOfStrings(literals[1..], strings[1..], key, decode);
      assert strings == [strings[0]] + strings[1..];
    }
  }

  lemma {:induction false} DocumentLiterals(document: string, decode: Decoder) returns (literals: seq<seq<Byte>>)
    requires Json.Parse(document).Some? && ReadsTokens(decode)
    ensures literals == Literals(Encode(document))
    ensures Reads(decode, literals, StringsOf(Json.Parse(document).value))
  {
    literals := ValueLiterals(document, decode);
    SpaceLiterals(Json.ParseValue(document).value.1);
    assert literals + [] == literals;
  }

  lemma VerdictOfDocument(document: string, key: string, decode: Decoder)
    requires Json.Parse(document).Some? && ReadsTokens(decode)
    ensures Verdict(Literals(Encode(document)), key, decode) ==
      if exists t | t in StringsOf(Json.Parse(document).value) :: Contains(t, key) then Credential else Clean
  {
    var literals := DocumentLiterals(document, decode);
    VerdictOfStrings(literals, StringsOf(Json.Parse(document).value), key, decode);
  }

  /** On a JSON document, however it is spaced and escaped, the lexical scan answers exactly what
      decoding it would: the key is in its bytes, or in a key or text of the document. */
  lemma ScanOfDocument(document: string, key: string)
    requires Json.Parse(document).Some? && key != ""
    ensures ScanOf(Encode(document), key, DecodeLiteral) ==
      if Contains(Encode(document), Encode(key)) ||
         exists t | t in StringsOf(Json.Parse(document).value) :: Contains(t, key)
      then Credential else Clean
  {
    DecodeLiteralReadsTokens();
    VerdictOfDocument(document, key, DecodeLiteral);
  }

  // ---- Bodies that need not be JSON ----

  /** Bytes without quotes, or one string token. */
  datatype Segment = Gap(bytes: seq<Byte>) | Token(bytes: seq<Byte>)

  /** The bytes after an opening quote run up to the first quote that is not escaped, and end there. */
  predicate Closes(b: seq<Byte>) {
    b != [] &&
    if b[0] == QUOTE then |b| == 1
    else if b[0] == BACKSLASH then |b| >= 2 && Closes(b[2..])
    else Closes(b[1..])
  }

  predicate GoodSegment(s: Segment) {
    match s
    case Gap(bytes) => QUOTE !in bytes
    case Token(bytes) => bytes != [] && bytes[0] == QUOTE && Closes(bytes[1..])
  }

  function Join(segments: seq<Segment>): seq<Byte> {
    if segments == [] then [] else segments[0].bytes + Join(segments[1..])
  }

  function TokensOf(segments: seq<Segment>): seq<seq<Byte>> {
    if segments == [] then []
    else (if segments[0].Token? then [segments[0].bytes] else []) + TokensOf(segments[1..])
  }

  lemma {:induction false} InnerOfClosed(b: seq<Byte>, rest: seq<Byte>)
    requires Closes(b)
    ensures InnerLength(b + rest) == |b|
  {
    if b[0] == BACKSLASH {
      InnerOfClosed(b[2..], rest);
      assert (b + rest)[2..] == b[2..] + rest;
    } else if b[0] != QUOTE {
      InnerOfClosed(b[1..], rest);
      assert (b + rest)[1..] == b[1..] + rest;
    }
  }

  lemma {:induction false} GapLiterals(b: seq<Byte>, rest: seq<Byte>)
    requires QUOTE !in b
    ensures Literals(b + rest) == Literals(rest)
  {
    if b == [] {
      assert b + rest == rest;
    } else {
      GapLiterals(b[1..], rest);
      assert (b + rest)[1..] == b[1..] + rest;
    }
  }

  lemma {:induction false} SegmentLiterals(segments: seq<Segment>)
    requires forall i | 0 <= i < |segments| :: GoodSegment(segments[i])
    ensures Literals(Join(segments)) == TokensOf(segments)
  {
    if segments != [] {
      var (b, rest) := (segments[0].bytes, Join(segments[1..]));
      assert GoodSegment(segments[0]);
      SegmentLiterals(segments[1..]);
      match segments[0]
      case Gap(_) => GapLiterals(b, rest);
      case Token(_) =>
        InnerOfClosed(b[1..], rest);
        assert b == [QUOTE] + b[1..] && b + rest == [QUOTE] + (b[1..] + rest);
        TokenBytes(b[1..], rest);
    }
  }

  lemma {:induction false} VerdictClean(literals: seq<seq<Byte>>, key: string, decode: Decoder)
    ensures Verdict(literals, key, decode) == Clean <==>
      forall l | l in literals :: decode(l).Some? && !Contains(decode(l).value, key)
  {
    if literals != [] {
      VerdictClean(literals[1..], key, decode);
      assert literals == [literals[0]] + literals[1..];
    }
  }

  /** A body is clean exactly when the key is not in its bytes and every one of its string tokens
      decodes to a text without the key: a token that does not decode is never passed over. */
  lemma CleanSegments(segments: seq<Segment>, key: string, decode: Decoder)
    requires key != "" && forall i | 0 <= i < |segments| :: GoodSegment(segments[i])
    ensures ScanOf(Join(segments), key, decode) == Clean <==>
      && !Contains(Join(segments), Encode(key))
      && forall t | t in TokensOf(segments) :: decode(t).Some? && !Contains(decode(t).value, key)
  {
    SegmentLiterals(segments);
    VerdictClean(TokensOf(segments), key, decode);
  }
}
