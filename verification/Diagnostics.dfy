/** Texts cut to a byte budget: error diagnostics and the context of run events. */
module Diagnostics {
  import opened Wrappers
  import opened Text
  import opened Utf8
  import Json

  /** The longest prefix of at most `limit` bytes. */
  function Prefix(s: string, limit: nat): (r: string)
    ensures r <= s && Len(r) <= limit
    ensures Len(s) > limit ==> limit < Len(r) + 4
  {
    if s == "" || |EncodeChar(s[0])| > limit then ""
    else
      var rest := Prefix(s[1..], limit - |EncodeChar(s[0])|);
      assert ([s[0]] + rest)[1..] == rest;
      [s[0]] + rest
  }

  /** It is the longest: no longer prefix fits. */
  lemma {:induction false} PrefixLongest(s: string, limit: nat, k: nat)
    requires k <= |s| && Len(s[..k]) <= limit
    ensures k <= |Prefix(s, limit)|
  {
    if k > 0 {
      assert s[..k][0] == s[0] && s[..k][1..] == s[1..][..k - 1];
      PrefixLongest(s[1..], limit - |EncodeChar(s[0])|, k - 1);
    }
  }

  lemma PrefixBoundary(s: string, k: nat)
    requires k <= |s|
    ensures Len(s[..k]) <= Len(s) && IsBoundary(Encode(s), Len(s[..k]))
  {
    assert s == s[..k] + s[k..];
    EncodeConcat(s[..k], s[k..]);
    if s[k..] != "" {
      StartsAtBoundary(s[k..]);
    }
  }

  lemma PrefixLonger(s: string, k: nat, m: nat)
    requires k < m <= |s|
    ensures Len(s[..k]) < Len(s[..m])
  {
    assert s[..m] == s[..k] + s[k..m];
    EncodeConcat(s[..k], s[k..m]);
    assert s[k..m] != "";
  }

  /** The last char boundary up to `limit` is where the longest prefix ends. */
  lemma LastBoundary(s: string, limit: nat, end: nat)
    requires end <= limit <= Len(s) && IsBoundary(Encode(s), end)
    requires forall m | end < m <= limit :: !IsBoundary(Encode(s), m)
    ensures Encode(s)[..end] == Encode(Prefix(s, limit))
  {
    var k := CutAtBoundary(s, end);
    assert Len(s[..k]) == end;
    PrefixLongest(s, limit, k);
    var longest := |Prefix(s, limit)|;
    assert Prefix(s, limit) == s[..longest];
    if k < longest {
      PrefixLonger(s, k, longest);
      PrefixBoundary(s, longest);
      assert false;
    }
  }

  /** The loop both truncations share: step left to the char boundary. */
  method FloorBoundary(bytes: seq<Byte>, limit: nat) returns (end: nat)
    requires Decode(bytes).Some? && limit <= |bytes|
    ensures end <= limit < end + 4 && IsBoundary(bytes, end)
    ensures bytes[..end] == Encode(Prefix(Decode(bytes).value, limit))
  {
    end := limit;
    while !IsBoundary(bytes, end)
      invariant end <= limit && forall m | end < m <= limit :: !IsBoundary(bytes, m)
      decreases end
    {
      end := end - 1;
    }
    FloorFound(Decode(bytes).value, bytes, limit, end);
  }

  lemma FloorFound(s: string, bytes: seq<Byte>, limit: nat, end: nat)
    requires bytes == Encode(s) && end <= limit <= |bytes| && IsBoundary(bytes, end)
    requires forall m | end < m <= limit :: !IsBoundary(bytes, m)
    ensures bytes[..end] == Encode(Prefix(s, limit)) && limit < end + 4
  {
    LastBoundary(s, limit, end);
    var j := BoundaryNearby(s, limit);
    assert j <= end;
  }

  method Cut(text: string, limit: nat) returns (r: string)
    requires limit <= Len(text)
    ensures r == Prefix(text, limit)
  {
    DecodeEncoded(text);
    var end := FloorBoundary(Encode(text), limit);
    DecodeEncoded(Prefix(text, limit));
    r := Decode(Encode(text)[..end]).value;
  }

  // ---- Error diagnostics ----

  /** The marker that says how long the text was. */
  function Marker(n: nat): string {
    "…" + MarkerText(n)
  }

  function MarkerText(n: nat): string {
    " [truncated, original_bytes=" + Decimal(n) + "]"
  }

  lemma Pow10Of20()
    ensures Pow10(20) >= U64
  {
    assert Pow10(5) == 100000;
    assert Pow10(10) == 10000000000;
    assert Pow10(15) == 1000000000000000;
  }

  lemma MarkerTextLength(n: nat)
    requires n < U64
    ensures Len(MarkerText(n)) <= 49
  {
    Pow10Of20();
    DecimalLength(n, 20);
    EncodeAscii(MarkerText(n));
  }

  lemma MarkerLength(n: nat)
    requires n < U64
    ensures Len(Marker(n)) <= 53
  {
    MarkerTextLength(n);
    EncodeConcat("…", MarkerText(n));
    assert Encode("…") == EncodeChar('…') + [];
  }

  function Truncated(message: string, maxBytes: nat): string
    requires maxBytes >= 64 && Len(message) < U64
  {
    if Len(message) <= maxBytes then message
    else
      MarkerLength(Len(message));
      Prefix(message, maxBytes - Len(Marker(Len(message)))) + Marker(Len(message))
  }

  /** `truncate_diagnostic` on the bytes of a `String`. */
  method TruncateDiagnostic(message: seq<Byte>, maxBytes: nat) returns (r: seq<Byte>)
    requires maxBytes >= 64 && |message| < U64 && Decode(message).Some?
    ensures r == Encode(Truncated(Decode(message).value, maxBytes))
  {
    if |message| <= maxBytes {
      return message;
    }
    var marker := Marker(|message|);
    MarkerLength(|message|);
    var suffix := Encode(marker);
    var end := FloorBoundary(message, maxBytes - |suffix|);
    r := message[..end] + suffix;
    EncodeConcat(Prefix(Decode(message).value, maxBytes - |suffix|), marker);
  }

  /** The result fits, and a text that had to be cut loses no more than it must: what is left is a
      prefix of it that, with the marker, comes within three bytes of the limit. */
  lemma TruncatedFits(message: string, maxBytes: nat)
    requires maxBytes >= 64 && Len(message) < U64
    ensures var r := Truncated(message, maxBytes);
      && Len(r) <= maxBytes
      && Truncated(r, maxBytes) == r
      && (r != message ==>
            exists kept | kept <= message :: r == kept + Marker(Len(message)) && maxBytes <= Len(r) + 3)
  {
    if Len(message) > maxBytes {
      var marker := Marker(Len(message));
      MarkerLength(Len(message));
      var kept := Prefix(message, maxBytes - Len(marker));
      EncodeConcat(kept, marker);
    }
  }

  // ---- Context of run events ----

  const CONTEXT_JSON_MAX_BYTES := 4096

  const LENGTH_KEY := "original_len"
  const PREVIEW_KEY := "preview"
  const TRUNCATED_KEY := "truncated"

  /** What stands for a context that is too long; serde_json keeps the keys sorted. */
  function Envelope(n: nat, preview: string): Json.Value {
    Json.Object([
      Json.Member(LENGTH_KEY, Json.FromNat(n)),
      Json.Member(PREVIEW_KEY, Json.String(preview)),
      Json.Member(TRUNCATED_KEY, Json.Bool(true))
    ])
  }

  /** No control characters: the second encoding finds only quotes and backslashes to escape. */
  predicate NoControl(s: string) {
    forall i | 0 <= i < |s| :: s[i] as int >= 32
  }

  lemma {:induction false} EscapeNoControl(s: string)
    ensures NoControl(Json.Escape(s))
  {
    if s != "" {
      EscapeNoControl(s[1..]);
    }
  }

  lemma NumberNoControl(literal: string)
    requires Json.NumberChars(literal)
    ensures NoControl(literal)
  {
  }

  /** Printed JSON has no control characters. */
  lemma {:induction false} PrintNoControl(v: Json.Value)
    requires Json.WellFormed(v)
    ensures NoControl(Json.Print(v))
    decreases v, 2
  {
    match v
    case Null =>
    case Bool(b) =>
    case Number(literal) =>
      Json.NumberAlphabet(literal);
      NumberNoControl(literal);
    case String(text) => EscapeNoControl(text);
    case Array(items) => ItemsNoControl(items);
    case Object(members) => MembersNoControl(members);
  }

  lemma {:induction false} ItemsNoControl(items: seq<Json.Value>)
    requires forall i | 0 <= i < |items| :: Json.WellFormed(items[i])
    ensures NoControl(Json.PrintItems(items))
    decreases items, 0
  {
    if items != [] {
      PrintNoControl(items[0]);
      ItemsNoControl(items[1..]);
    }
  }

  lemma {:induction false} MembersNoControl(members: seq<Json.Member>)
    requires forall i | 0 <= i < |members| :: Json.WellFormed(members[i].value)
    ensures NoControl(Json.PrintMembers(members))
    decreases members, 0
  {
    if members != [] {
      EscapeNoControl(members[0].key);
      PrintNoControl(members[0].value);
      MembersNoControl(members[1..]);
    }
  }

  lemma LenConcat(s: string, t: string)
    ensures Len(s + t) == Len(s) + Len(t)
  {
    EncodeConcat(s, t);
  }

  /** Encoding printed JSON as a JSON string at most doubles it. */
  lemma {:induction false} EscapeDoubles(s: string)
    requires NoControl(s)
    ensures Len(s) <= Len(Json.Escape(s)) <= 2 * Len(s)
  {
    if s != "" {
      EscapeDoubles(s[1..]);
      LenConcat(Json.EscapeChar(s[0]), Json.Escape(s[1..]));
      EncodeAscii("\\\"");
      EncodeAscii("\\\\");
      assert Encode([s[0]]) == EncodeChar(s[0]) + [];
    }
  }

  lemma QuoteLength(s: string)
    ensures Len(Json.Quote(s)) == 2 + Len(Json.Escape(s))
  {
    EncodeAscii("\"");
    LenConcat("\"", Json.Escape(s));
    LenConcat("\"" + Json.Escape(s), "\"");
  }

  lemma MemberLength(m: Json.Member)
    ensures Len(Json.PrintMember(m)) == Len(Json.Quote(m.key)) + 1 + Len(Json.Print(m.value))
  {
    EncodeAscii(":");
    LenConcat(":", Json.Print(m.value));
    LenConcat(Json.Quote(m.key), ":" + Json.Print(m.value));
  }

  lemma ObjectOfThreeLength(a: Json.Member, b: Json.Member, c: Json.Member)
    ensures Len(Json.Print(Json.Object([a, b, c])))
         == 4 + Len(Json.PrintMember(a)) + Len(Json.PrintMember(b)) + Len(Json.PrintMember(c))
  {
    var (pa, pb, pc) := (Json.PrintMember(a), Json.PrintMember(b), Json.PrintMember(c));
    EncodeAscii("{");
    EncodeAscii(",");
    EncodeAscii("}");
    assert [a, b, c][1..] == [b, c] && [b, c][1..] == [c];
    assert Json.PrintMembers([c]) == pc + "}";
    assert Json.PrintMembers([b, c]) == pb + ("," + Json.PrintMembers([c]));
    assert Json.PrintMembers([a, b, c]) == pa + ("," + Json.PrintMembers([b, c]));
    LenConcat(pc, "}");
    LenConcat(",", pc + "}");
    LenConcat(pb, "," + (pc + "}"));
    LenConcat(",", pb + ("," + (pc + "}")));
    LenConcat(pa, "," + (pb + ("," + (pc + "}"))));
    LenConcat("{", pa + ("," + (pb + ("," + (pc + "}")))));
  }

  predicate ShortKey(key: string) {
    |key| <= 12 && NoControl(key) && forall i | 0 <= i < |key| :: key[i] as int < 128
  }

  lemma KeyLength(key: string)
    requires ShortKey(key)
    ensures Len(Json.Quote(key)) <= 26
  {
    QuoteLength(key);
    EscapeDoubles(key);
    EncodeAscii(key);
  }

  /** What the preview adds to the empty envelope, and what the empty envelope takes. */
  lemma PreviewLength(a: Json.Member, key: string, preview: string, c: Json.Member)
    requires ShortKey(a.key) && ShortKey(key) && ShortKey(c.key)
    requires Len(Json.Print(a.value)) <= 20 && Len(Json.Print(c.value)) <= 20
    ensures var empty := Json.Object([a, Json.Member(key, Json.String("")), c]);
      && Len(Json.Print(Json.Object([a, Json.Member(key, Json.String(preview)), c])))
           == Len(Json.Print(empty)) + Len(Json.Escape(preview))
      && Len(Json.Print(empty)) <= 200
  {
    var b, empty := Json.Member(key, Json.String(preview)), Json.Member(key, Json.String(""));
    ObjectOfThreeLength(a, b, c);
    ObjectOfThreeLength(a, empty, c);
    MemberLength(a);
    MemberLength(b);
    MemberLength(empty);
    MemberLength(c);
    KeyLength(a.key);
    KeyLength(key);
    KeyLength(c.key);
    QuoteLength(preview);
    QuoteLength("");
  }

  lemma KeysAreShort()
    ensures ShortKey(LENGTH_KEY) && ShortKey(PREVIEW_KEY) && ShortKey(TRUNCATED_KEY)
  {
  }

  function Overhead(n: nat): nat { Len(Json.Print(Envelope(n, ""))) }

  lemma EnvelopeLength(n: nat, preview: string)
    requires n < U64
    ensures Len(Json.Print(Envelope(n, preview))) == Overhead(n) + Len(Json.Escape(preview))
    ensures Overhead(n) <= 200
  {
    Pow10Of20();
    DecimalLength(n, 20);
    EncodeAscii(Decimal(n));
    EncodeAscii("true");
    KeysAreShort();
    PreviewLength(Envelope(n, "").members[0], PREVIEW_KEY, preview, Envelope(n, "").members[2]);
  }

  /** Half of what the envelope leaves. */
  function Budget(n: nat): (r: nat)
    requires n < U64
    ensures 1948 <= r && Overhead(n) + 2 * r <= CONTEXT_JSON_MAX_BYTES
  {
    EnvelopeLength(n, "");
    (CONTEXT_JSON_MAX_BYTES - Overhead(n)) / 2
  }

  /** What `truncate_serialized` returns. */
  function Serialized(v: Json.Value): string
    requires Len(Json.Print(v)) < U64
  {
    var serialized := Json.Print(v);
    var n := Len(serialized);
    if n <= CONTEXT_JSON_MAX_BYTES then serialized
    else Json.Print(Envelope(n, Prefix(serialized, Budget(n))))
  }

  method TruncateSerialized(v: Json.Value) returns (r: string)
    requires Len(Json.Print(v)) < U64
    ensures r == Serialized(v)
  {
    var serialized := Json.Print(v);
    var n := Len(serialized);
    if n <= CONTEXT_JSON_MAX_BYTES {
      return serialized;
    }
    var preview := Cut(serialized, Budget(n));
    r := Json.Print(Envelope(n, preview));
  }

  lemma EnvelopeFits(n: nat, whole: string)
    requires n < U64 && NoControl(whole)
    ensures Len(Json.Print(Envelope(n, Prefix(whole, Budget(n))))) <= CONTEXT_JSON_MAX_BYTES
  {
    var preview := Prefix(whole, Budget(n));
    EnvelopeLength(n, preview);
    EscapeDoubles(preview);
  }

  lemma EnvelopeRoundTrip(n: nat, preview: string)
    requires n < U64
    ensures Json.Parse(Json.Print(Envelope(n, preview))) == Some(Envelope(n, preview))
  {
    Json.NatRoundTrip(n, U64);
    Json.RoundTrip(Envelope(n, preview));
  }

  /** Whatever the context, the event stores JSON of at most 4096 bytes: the context itself, or its
      length and a beginning of it. */
  lemma SerializedFits(v: Json.Value)
    requires Json.WellFormed(v) && Len(Json.Print(v)) < U64
    ensures var (r, whole) := (Serialized(v), Json.Print(v));
      && Len(r) <= CONTEXT_JSON_MAX_BYTES
      && (Len(whole) <= CONTEXT_JSON_MAX_BYTES ==> r == whole && Json.Parse(r) == Some(v))
      && (Len(whole) > CONTEXT_JSON_MAX_BYTES ==>
            exists preview | preview <= whole ::
              && Json.Parse(r) == Some(Envelope(Len(whole), preview))
              && Len(preview) >= 1945)
  {
    var whole := Json.Print(v);
    var n := Len(whole);
    if n <= CONTEXT_JSON_MAX_BYTES {
      Json.RoundTrip(v);
    } else {
      PrintNoControl(v);
      EnvelopeFits(n, whole);
      EnvelopeRoundTrip(n, Prefix(whole, Budget(n)));
    }
  }
}