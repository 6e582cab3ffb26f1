/** Feed links in canonical form: one text for all links that differ only in tracking parameters, in
    the order and encoding of the query, or in a trailing slash. */
module Links {
  import opened Wrappers
  import opened Text
  import opened Utf8

  const AMP: Byte := 38
  const EQUALS: Byte := 61
  const PERCENT: Byte := 37
  const PLUS: Byte := 43
  const SPACE: Byte := 32

  const TRACKING_QUERY_KEYS: seq<string> := [
    "utm_source", "utm_medium", "utm_campaign", "utm_term", "utm_content",
    "fbclid", "gclid", "mc_cid", "mc_eid", "igshid", "ref_src"
  ]

  datatype Pair = Pair(key: string, value: string)

  // ---- application/x-www-form-urlencoded, parsing ----

  function HexValue(b: Byte): Option<nat> {
    if 48 <= b < 58 then Some(b - 48)
    else if 65 <= b < 71 then Some(b - 55)
    else if 97 <= b < 103 then Some(b - 87)
    else None
  }

  /** A percent sign that two hexadecimal digits do not follow stands for itself. */
  function PercentDecode(b: seq<Byte>): seq<Byte> {
    if b == [] then []
    else if b[0] == PERCENT && |b| >= 3 && HexValue(b[1]).Some? && HexValue(b[2]).Some? then
      [16 * HexValue(b[1]).value + HexValue(b[2]).value] + PercentDecode(b[3..])
    else [b[0]] + PercentDecode(b[1..])
  }

  function PlusToSpace(b: seq<Byte>): seq<Byte> {
    if b == [] then [] else [if b[0] == PLUS then SPACE else b[0]] + PlusToSpace(b[1..])
  }

  function DecodePart(b: seq<Byte>): string {
    Lossy(PercentDecode(PlusToSpace(b)))
  }

  function ParsePair(segment: seq<Byte>): Pair {
    var at := IndexOf(segment, EQUALS);
    if at.None? then Pair(DecodePart(segment), DecodePart([]))
    else Pair(DecodePart(segment[..at.value]), DecodePart(segment[at.value + 1..]))
  }

  function ParseSegments(segments: seq<seq<Byte>>): seq<Pair> {
    if segments == [] then []
    else (if segments[0] == [] then [] else [ParsePair(segments[0])]) + ParseSegments(segments[1..])
  }

  /** `Url::query_pairs`. */
  function QueryPairs(query: seq<Byte>): seq<Pair> {
    ParseSegments(Split(query, AMP))
  }

  // ---- Serialising ----

  function HexDigit(n: nat): Byte
    requires n < 16
  {
    if n < 10 then 48 + n else 55 + n
  }

  predicate Kept(b: Byte) {
    48 <= b < 58 || 65 <= b < 91 || 97 <= b < 123 || b in [42, 45, 46, 95]
  }

  function EncodeByte(b: Byte): seq<Byte> {
    if Kept(b) then [b]
    else if b == SPACE then [PLUS]
    else [PERCENT, HexDigit(b / 16), HexDigit(b % 16)]
  }

  function EncodePart(b: seq<Byte>): seq<Byte> {
    if b == [] then [] else EncodeByte(b[0]) + EncodePart(b[1..])
  }

  function PairText(p: Pair): seq<Byte> {
    EncodePart(Encode(p.key)) + ([EQUALS] + EncodePart(Encode(p.value)))
  }

  function PairTexts(pairs: seq<Pair>): (r: seq<seq<Byte>>)
    ensures |r| == |pairs| && forall i | 0 <= i < |r| :: r[i] == PairText(pairs[i])
  {
    seq(|pairs|, i requires 0 <= i < |pairs| => PairText(pairs[i]))
  }

  function Serialize(pairs: seq<Pair>): seq<Byte>
    requires pairs != []
  {
    Join(PairTexts(pairs), AMP)
  }

  // ---- Round trip ----

  lemma EncodedBytes(b: Byte)
    ensures forall e | e in EncodeByte(b) :: e != AMP && e != EQUALS
  {
  }

  lemma {:induction false} EncodedPart(b: seq<Byte>)
    ensures AMP !in EncodePart(b) && EQUALS !in EncodePart(b)
  {
    if b != [] {
      EncodedBytes(b[0]);
      EncodedPart(b[1..]);
    }
  }

  lemma PlusToSpaceConcat(a: seq<Byte>, b: seq<Byte>)
    ensures PlusToSpace(a + b) == PlusToSpace(a) + PlusToSpace(b)
  {
    if a == [] {
      assert a + b == b;
    } else {
      assert (a + b)[1..] == a[1..] + b;
    }
  }

  lemma {:induction false} NoPlus(b: seq<Byte>)
    requires PLUS !in b
    ensures PlusToSpace(b) == b
  {
    if b != [] {
      assert b[0] in b && b == [b[0]] + b[1..];
      NoPlus(b[1..]);
    }
  }

  lemma ByteDecodes(b: Byte, rest: seq<Byte>)
    ensures PercentDecode(PlusToSpace(EncodeByte(b)) + rest) == [b] + PercentDecode(rest)
  {
    var e := EncodeByte(b);
    if Kept(b) || b == SPACE {
      assert PlusToSpace(e) == [b];
      assert ([b] + rest)[1..] == rest;
    } else {
      var (h, l) := (HexDigit(b / 16), HexDigit(b % 16));
      NoPlus([PERCENT, h, l]);
      assert ([PERCENT, h, l] + rest)[3..] == rest;
      assert HexValue(h) == Some(b / 16) && HexValue(l) == Some(b % 16);
    }
  }

  lemma {:induction false} PartDecodes(b: seq<Byte>)
    ensures PercentDecode(PlusToSpace(EncodePart(b))) == b
  {
    if b != [] {
      PlusToSpaceConcat(EncodeByte(b[0]), EncodePart(b[1..]));
      ByteDecodes(b[0], PlusToSpace(EncodePart(b[1..])));
      PartDecodes(b[1..]);
    }
  }

  lemma PairParses(p: Pair)
    ensures ParsePair(PairText(p)) == p && PairText(p) != [] && AMP !in PairText(p)
  {
    var (k, v) := (EncodePart(Encode(p.key)), EncodePart(Encode(p.value)));
    EncodedPart(Encode(p.key));
    EncodedPart(Encode(p.value));
    PartDecodes(Encode(p.key));
    PartDecodes(Encode(p.value));
    LossyEncoded(p.key);
    LossyEncoded(p.value);
    var text := PairText(p);
    IndexOfFirst(text, EQUALS, |k|);
    assert text[..|k|] == k && text[|k| + 1..] == v;
  }

  lemma {:induction false} PairsParse(pairs: seq<Pair>)
    ensures ParseSegments(PairTexts(pairs)) == pairs
  {
    if pairs != [] {
      PairParses(pairs[0]);
      PairsParse(pairs[1..]);
      assert PairTexts(pairs)[1..] == PairTexts(pairs[1..]);
    }
  }

  /** What was serialised is read back, pair by pair. */
  lemma SerializeRoundTrip(pairs: seq<Pair>)
    requires pairs != []
    ensures QueryPairs(Serialize(pairs)) == pairs
  {
    forall i | 0 <= i < |pairs| ensures AMP !in PairTexts(pairs)[i] {
      PairParses(pairs[i]);
    }
    SplitJoin(PairTexts(pairs), AMP);
    PairsParse(pairs);
  }

  // ---- Order ----

  predicate BytesLE(a: seq<Byte>, b: seq<Byte>) {
    a == [] || (b != [] && (a[0] < b[0] || (a[0] == b[0] && BytesLE(a[1..], b[1..]))))
  }

  lemma {:induction false} BytesTotal(a: seq<Byte>, b: seq<Byte>)
    ensures BytesLE(a, b) || BytesLE(b, a)
    ensures BytesLE(a, b) && BytesLE(b, a) ==> a == b
  {
    if a != [] && b != [] && a[0] == b[0] {
      BytesTotal(a[1..], b[1..]);
      assert a == [a[0]] + a[1..] && b == [b[0]] + b[1..];
    }
  }

  lemma {:induction false} BytesTransitive(a: seq<Byte>, b: seq<Byte>, c: seq<Byte>)
    requires BytesLE(a, b) && BytesLE(b, c)
    ensures BytesLE(a, c)
  {
    if a != [] && a[0] == b[0] == c[0] {
      BytesTransitive(a[1..], b[1..], c[1..]);
    }
  }

  /** By key, then by value; `str` compares by bytes. */
  predicate PairLE(p: Pair, q: Pair) {
    if p.key == q.key then BytesLE(Encode(p.value), Encode(q.value)) else BytesLE(Encode(p.key), Encode(q.key))
  }

  lemma PairTotal(p: Pair, q: Pair)
    ensures PairLE(p, q) || PairLE(q, p)
    ensures PairLE(p, q) && PairLE(q, p) ==> p == q
  {
    BytesTotal(Encode(p.key), Encode(q.key));
    BytesTotal(Encode(p.value), Encode(q.value));
    if Encode(p.key) == Encode(q.key) {
      EncodeInjective(p.key, q.key);
    }
    if Encode(p.value) == Encode(q.value) {
      EncodeInjective(p.value, q.value);
    }
  }

  lemma PairTransitive(p: Pair, q: Pair, r: Pair)
    requires PairLE(p, q) && PairLE(q, r)
    ensures PairLE(p, r)
  {
    if p.key == q.key && q.key == r.key {
      BytesTransitive(Encode(p.value), Encode(q.value), Encode(r.value));
    } else if p.key != q.key && q.key != r.key {
      BytesTransitive(Encode(p.key), Encode(q.key), Encode(r.key));
      if p.key == r.key {
        PairTotal(Pair(p.key, ""), Pair(q.key, ""));
      }
    }
  }

  ghost predicate Sorted(s: seq<Pair>) {
    forall i, j | 0 <= i < j < |s| :: PairLE(s[i], s[j])
  }

  function Insert(p: Pair, s: seq<Pair>): seq<Pair> {
    if s == [] || PairLE(p, s[0]) then [p] + s else [s[0]] + Insert(p, s[1..])
  }

  /** `Vec::sort_by` with this order. */
  function Sort(s: seq<Pair>): seq<Pair> {
    if s == [] then [] else Insert(s[0], Sort(s[1..]))
  }

  lemma {:induction false} InsertSorts(p: Pair, s: seq<Pair>)
    requires Sorted(s)
    ensures Sorted(Insert(p, s)) && multiset(Insert(p, s)) == multiset(s) + multiset{p}
  {
    if s == [] {
    } else if PairLE(p, s[0]) {
      forall j | 0 <= j < |s| ensures PairLE(p, s[j]) {
        if j > 0 {
          PairTransitive(p, s[0], s[j]);
        }
      }
    } else {
      InsertSorts(p, s[1..]);
      PairTotal(p, s[0]);
      LeastFirst(s[0], s[1..], p, Insert(p, s[1..]));
      PrefixThenRest([s[0]], s);
    }
  }

  lemma LeastFirst(least: Pair, s: seq<Pair>, p: Pair, rest: seq<Pair>)
    requires Sorted([least] + s) && PairLE(least, p)
    requires Sorted(rest) && multiset(rest) == multiset(s) + multiset{p}
    ensures Sorted([least] + rest)
  {
    var all := [least] + s;
    assert forall i | 0 <= i < |s| :: all[i + 1] == s[i];
    forall j | 0 <= j < |rest| ensures PairLE(least, rest[j]) {
      assert rest[j] in multiset(rest);
      if rest[j] != p {
        var i :| 0 <= i < |s| && s[i] == rest[j];
        assert PairLE(all[0], all[i + 1]);
      }
    }
  }

  lemma {:induction false} SortSorts(s: seq<Pair>)
    ensures Sorted(Sort(s)) && multiset(Sort(s)) == multiset(s)
  {
    if s != [] {
      SortSorts(s[1..]);
      InsertSorts(s[0], Sort(s[1..]));
      assert s == [s[0]] + s[1..];
    }
  }

  lemma FirstIsLeast(s: seq<Pair>, p: Pair)
    requires Sorted(s) && p in multiset(s)
    ensures s != [] && (s[0] == p || PairLE(s[0], p))
  {
    assert p in s;
  }

  lemma MultisetRest(s: seq<Pair>)
    requires s != []
    ensures multiset(s[1..]) == multiset(s) - multiset{s[0]} && s[0] in multiset(s)
  {
    assert s == [s[0]] + s[1..];
  }

  lemma FirstsEqual(a: seq<Pair>, b: seq<Pair>)
    requires Sorted(a) && Sorted(b) && multiset(a) == multiset(b) && a != []
    ensures b != [] && a[0] == b[0]
  {
    MultisetRest(a);
    FirstIsLeast(b, a[0]);
    MultisetRest(b);
    FirstIsLeast(a, b[0]);
    PairTotal(a[0], b[0]);
  }

  /** There is only one way to put pairs in order. */
  lemma {:induction false} SortedUnique(a: seq<Pair>, b: seq<Pair>)
    requires Sorted(a) && Sorted(b) && multiset(a) == multiset(b)
    ensures a == b
  {
    if a == [] {
      assert |multiset(b)| == 0;
    } else {
      FirstsEqual(a, b);
      MultisetRest(a);
      MultisetRest(b);
      SortedUnique(a[1..], b[1..]);
      PrefixThenRest([a[0]], a);
      PrefixThenRest([b[0]], b);
    }
  }

  // ---- Canonical queries ----

  function Untracked(pairs: seq<Pair>): (r: seq<Pair>)
    ensures forall p | p in r :: p.key !in TRACKING_QUERY_KEYS && p in pairs
  {
    if pairs == [] then []
    else (if pairs[0].key in TRACKING_QUERY_KEYS then [] else [pairs[0]]) + Untracked(pairs[1..])
  }

  /** The pairs that matter. */
  function Meaning(query: Option<seq<Byte>>): seq<Pair> {
    if query.None? then [] else Untracked(QueryPairs(query.value))
  }

  function CanonicalQuery(query: Option<seq<Byte>>): Option<seq<Byte>> {
    var pairs := Sort(Meaning(query));
    if pairs == [] then None else Some(Serialize(pairs))
  }

  lemma {:induction false} UntrackedKept(pairs: seq<Pair>)
    requires forall i | 0 <= i < |pairs| :: pairs[i].key !in TRACKING_QUERY_KEYS
    ensures Untracked(pairs) == pairs
  {
    if pairs != [] {
      UntrackedKept(pairs[1..]);
    }
  }

  /** A canonical query means what the query meant, pairs and their number, in order. */
  lemma CanonicalMeaning(query: Option<seq<Byte>>)
    ensures Meaning(CanonicalQuery(query)) == Sort(Meaning(query))
    ensures multiset(Meaning(CanonicalQuery(query))) == multiset(Meaning(query))
  {
    var kept := Meaning(query);
    var pairs := Sort(kept);
    SortSorts(kept);
    if pairs != [] {
      SerializeRoundTrip(pairs);
      forall i | 0 <= i < |pairs| ensures pairs[i].key !in TRACKING_QUERY_KEYS {
        assert pairs[i] in multiset(pairs);
        assert pairs[i] in kept;
      }
      UntrackedKept(pairs);
    }
  }

  /** Two queries have the same canonical form exactly if they hold the same pairs, equally often,
      apart from tracking parameters. */
  lemma SameCanonicalQuery(q1: Option<seq<Byte>>, q2: Option<seq<Byte>>)
    ensures CanonicalQuery(q1) == CanonicalQuery(q2) <==> multiset(Meaning(q1)) == multiset(Meaning(q2))
  {
    CanonicalMeaning(q1);
    CanonicalMeaning(q2);
    SortSorts(Meaning(q1));
    SortSorts(Meaning(q2));
    if multiset(Meaning(q1)) == multiset(Meaning(q2)) {
      SortedUnique(Sort(Meaning(q1)), Sort(Meaning(q2)));
    }
  }

  lemma CanonicalQueryIdempotent(query: Option<seq<Byte>>)
    ensures CanonicalQuery(CanonicalQuery(query)) == CanonicalQuery(query)
  {
    CanonicalMeaning(query);
    SameCanonicalQuery(CanonicalQuery(query), query);
  }

  // ---- Canonical links ----

  function TrimEndSlashes(path: string): string {
    if path != "" && path[|path| - 1] == '/' then TrimEndSlashes(path[..|path| - 1]) else path
  }

  function CanonicalPath(path: string): string {
    var trimmed := TrimEndSlashes(path);
    if trimmed == "" then "/" else trimmed
  }

  lemma {:induction false} TrimEndSlashesIdempotent(path: string)
    ensures TrimEndSlashes(TrimEndSlashes(path)) == TrimEndSlashes(path)
    ensures TrimEndSlashes(path) == "" || TrimEndSlashes(path)[|TrimEndSlashes(path)| - 1] != '/'
  {
    if path != "" && path[|path| - 1] == '/' {
      TrimEndSlashesIdempotent(path[..|path| - 1]);
    }
  }

  /** Paths are the same exactly if they differ in trailing slashes only. */
  lemma SameCanonicalPath(p1: string, p2: string)
    ensures CanonicalPath(p1) == CanonicalPath(p2) <==> TrimEndSlashes(p1) == TrimEndSlashes(p2)
    ensures CanonicalPath(CanonicalPath(p1)) == CanonicalPath(p1)
  {
    TrimEndSlashesIdempotent(p1);
    TrimEndSlashesIdempotent(p2);
    assert TrimEndSlashes("/") == "";
  }

  /** A parsed URL. */
  datatype Parts = Parts(
    scheme: string, username: string, password: Option<string>, host: Option<string>, port: Option<nat>,
    path: string, query: Option<seq<Byte>>, fragment: Option<string>)

  datatype LinkError = InvalidUrl | UnsupportedScheme(scheme: string)

  function CanonicalParts(u: Parts): Parts {
    u.(username := "", password := None, fragment := None, path := CanonicalPath(u.path), query := CanonicalQuery(u.query))
  }

  function CanonicalLink(u: Parts): Result<Parts, LinkError> {
    if u.scheme != "http" && u.scheme != "https" then Err(UnsupportedScheme(u.scheme))
    else if u.host.None? || u.host.value == "" then Err(InvalidUrl)
    else Ok(CanonicalParts(u))
  }

  /** What the `url` crate keeps; the setters act in place. */
  class Url {
    var parts: Parts

    constructor (parts: Parts)
      ensures this.parts == parts
    {
      this.parts := parts;
    }

    method NormalizePath()
      modifies this
      ensures parts == old(parts).(path := CanonicalPath(old(parts).path))
    {
      var path := parts.path;
      if path != "/" {
        var trimmed := TrimEndSlashes(path);
        if trimmed == "" {
          parts := parts.(path := "/");
        } else if trimmed != path {
          parts := parts.(path := trimmed);
        }
      } else {
        assert TrimEndSlashes("/") == "";
      }
    }

    method NormalizeQuery()
      modifies this
      ensures parts == old(parts).(query := CanonicalQuery(old(parts).query))
    {
      if parts.query.None? {
        return;
      }
      var pairs := Sort(Untracked(QueryPairs(parts.query.value)));
      parts := parts.(query := None);
      if pairs != [] {
        AppendPairs(pairs);
      }
    }

    /** `query_pairs_mut().append_pair(..)` for each pair, on a URL without a query. */
    method AppendPairs(pairs: seq<Pair>)
      requires parts.query == None && pairs != []
      modifies this
      ensures parts == old(parts).(query := Some(Serialize(pairs)))
    {
      var text := PairText(pairs[0]);
      var i := 1;
      SerializeFirst(pairs);
      while i < |pairs|
        invariant 1 <= i <= |pairs| && parts == old(parts)
        invariant text == Serialize(pairs[..i])
      {
        SerializeNext(pairs, i);
        text := text + ([AMP] + PairText(pairs[i]));
        i := i + 1;
      }
      assert pairs[..i] == pairs;
      parts := parts.(query := Some(text));
    }

    /** `normalize_link`, after parsing. */
    method Normalize() returns (r: Result<(), LinkError>)
      modifies this
      ensures match CanonicalLink(old(parts))
        case Ok(canonical) => r == Ok(()) && parts == canonical
        case Err(error) => r == Err(error) && parts == old(parts)
    {
      if parts.scheme != "http" && parts.scheme != "https" {
        return Err(UnsupportedScheme(parts.scheme));
      }
      if parts.host.None? || parts.host.value == "" {
        return Err(InvalidUrl);
      }
      parts := parts.(username := "", password := None, fragment := None);
      NormalizePath();
      NormalizeQuery();
      r := Ok(());
    }
  }

  lemma {:induction false} JoinOne(parts: seq<seq<Byte>>, last: seq<Byte>, sep: Byte)
    requires parts != []
    ensures Join(parts + [last], sep) == Join(parts, sep) + ([sep] + last)
  {
    assert (parts + [last])[1..] == parts[1..] + [last];
    if |parts| > 1 {
      JoinOne(parts[1..], last, sep);
      Reassociate(parts[0], [sep], Join(parts[1..], sep), [sep] + last);
      Associate([sep], Join(parts[1..], sep), [sep] + last);
    }
  }

  lemma SerializeOne(pairs: seq<Pair>, last: Pair)
    requires pairs != []
    ensures Serialize(pairs + [last]) == Serialize(pairs) + ([AMP] + PairText(last))
  {
    assert PairTexts(pairs + [last]) == PairTexts(pairs) + [PairText(last)];
    JoinOne(PairTexts(pairs), PairText(last), AMP);
  }

  lemma SerializeFirst(pairs: seq<Pair>)
    requires pairs != []
    ensures Serialize(pairs[..1]) == PairText(pairs[0])
  {
    assert PairTexts(pairs[..1]) == [PairText(pairs[0])];
  }

  lemma SerializeNext(pairs: seq<Pair>, i: nat)
    requires 1 <= i < |pairs|
    ensures Serialize(pairs[..i + 1]) == Serialize(pairs[..i]) + ([AMP] + PairText(pairs[i]))
  {
    SerializeOne(pairs[..i], pairs[i]);
    assert pairs[..i] + [pairs[i]] == pairs[..i + 1];
  }

  /** Links that are accepted have the same canonical form exactly if they name the same host and
      path, up to trailing slashes, with the same untracked parameters; and the form is stable. */
  lemma SameCanonicalLink(u1: Parts, u2: Parts)
    requires CanonicalLink(u1).Ok? && CanonicalLink(u2).Ok?
    ensures CanonicalLink(u1) == CanonicalLink(u2) <==>
      && u1.scheme == u2.scheme && u1.host == u2.host && u1.port == u2.port
      && TrimEndSlashes(u1.path) == TrimEndSlashes(u2.path)
      && multiset(Meaning(u1.query)) == multiset(Meaning(u2.query))
    ensures CanonicalLink(CanonicalLink(u1).value) == CanonicalLink(u1)
  {
    SameCanonicalPath(u1.path, u2.path);
    SameCanonicalQuery(u1.query, u2.query);
    CanonicalQueryIdempotent(u1.query);
  }
}
