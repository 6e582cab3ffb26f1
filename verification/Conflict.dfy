/** GitHub's error answers, and which of them say that the branch moved. */
module Conflict {
  import opened Wrappers
  import opened Text
  import opened Utf8
  import opened Diagnostics
  import Json

  datatype PublishError =
    | InvalidPath(path: string)
    | GitHubAuthFailed(message: string)
    | GitHubApiError(status: nat, message: string)
    | ResponseTooLarge
    | GitHubRateLimit

  /** `str::to_lowercase` on ASCII letters. */
  function LowerChar(c: char): char {
    if 'A' <= c <= 'Z' then (c as int + 32) as char else c
  }

  function Lower(s: string): (r: string)
    ensures |r| == |s| && forall i | 0 <= i < |s| :: r[i] == LowerChar(s[i])
  {
    seq(|s|, i requires 0 <= i < |s| => LowerChar(s[i]))
  }

  predicate IsNonFastForward(message: string) {
    var lower := Lower(message);
    Contains(lower, "fast forward") || Contains(lower, "not a fast-forward")
  }

  predicate IsBranchConcurrentlyUpdated(error: PublishError) {
    error.GitHubApiError? && error.status == 422 && IsNonFastForward(error.message)
  }

  function Classify(status: nat, message: string): PublishError {
    if status == 401 || status == 403 then GitHubAuthFailed(message)
    else if status == 429 then GitHubRateLimit
    else GitHubApiError(status, message)
  }

  // ---- Reading the answer ----

  /** serde_json's strict reading of a body, where it has one. */
  type JsonReader = seq<Byte> -> Option<Json.Value>

  /** A later member replaces an earlier one of the same key. */
  function Get(members: seq<Json.Member>, key: string): Option<Json.Value> {
    if members == [] then None
    else
      var last := members[|members| - 1];
      if last.key == key then Some(last.value) else Get(members[..|members| - 1], key)
  }

  /** `str::replace`; an empty pattern matches around every character. */
  function ReplaceAll(s: string, p: string, v: string): string {
    if p != "" then Replace(s, p, v) else Interleave(s, v)
  }

  function Interleave(s: string, v: string): string {
    if s == "" then v else v + [s[0]] + Interleave(s[1..], v)
  }

  const SIGNAL := "not a fast-forward"

  function Omitted(status: nat): string {
    "github api returned status " + Decimal(status) + "; unreadable error body omitted"
  }

  function MessageOf(status: nat, body: seq<Byte>, token: string, read: JsonReader): string {
    match read(body)
    case Some(value) =>
      var message := if value.Object? then Get(value.members, "message") else None;
      if message.Some? && message.value.String? then message.value.text
      else "github api returned status " + Decimal(status) + " with an unrecognized JSON error"
    case None =>
      if status == 422 && IsNonFastForward(ReplaceAll(Lossy(body), token, "***")) then SIGNAL else Omitted(status)
  }

  /** The message with the token taken out. */
  function SafeMessage(status: nat, body: seq<Byte>, token: string, read: JsonReader): string {
    var message := MessageOf(status, body, token, read);
    if token == "" then message else Redacted(message, token)
  }

  const LIMIT := 8192

  function Marked(safe: string): string { SIGNAL + ": " + safe }

  lemma MarkedLength(safe: string)
    ensures Len(Marked(safe)) == 20 + Len(safe)
  {
    EncodeAscii(SIGNAL + ": ");
    EncodeConcat(SIGNAL + ": ", safe);
  }

  /** A conflict is marked in front, where the cap cannot cut it off. */
  function Uncapped(status: nat, safe: string): (r: string)
    ensures Len(r) <= Len(safe) + 20
  {
    if Len(safe) > LIMIT && status == 422 && IsNonFastForward(safe) then
      MarkedLength(safe);
      Marked(safe)
    else safe
  }

  /** The message as it is kept. */
  function Capped(status: nat, safe: string): string
    requires Len(safe) < U64 - 20
  {
    Truncated(Uncapped(status, safe), LIMIT)
  }

  method Cap(message: string) returns (r: string)
    requires Len(message) < U64
    ensures r == Truncated(message, LIMIT)
  {
    DecodeEncoded(message);
    var bytes := TruncateDiagnostic(Encode(message), LIMIT);
    DecodeEncoded(Truncated(message, LIMIT));
    r := Decode(bytes).value;
  }

  /** `response_message`. */
  method ResponseMessage(status: nat, body: seq<Byte>, token: string, read: JsonReader) returns (r: string)
    requires Len(SafeMessage(status, body, token, read)) < U64 - 20
    ensures r == Capped(status, SafeMessage(status, body, token, read))
  {
    var message := MessageOf(status, body, token, read);
    var safe := if token == "" then message else Redacted(message, token);
    ghost var whole := safe;
    if Len(safe) > LIMIT && status == 422 && IsNonFastForward(safe) {
      safe := Marked(safe);
    }
    assert safe == Uncapped(status, whole);
    r := Cap(safe);
  }

  // ---- The cap keeps the retry decision ----

  lemma LowerConcat(a: string, b: string)
    ensures Lower(a + b) == Lower(a) + Lower(b)
  {
  }

  /** No pattern reaches over a character it does not have into a text that lacks one it has. */
  lemma OccursLeft(a: string, b: string, p: string, first: char, needed: char)
    requires b != "" && b[0] == first && first !in p && needed in p && needed !in b
    requires Contains(a + b, p)
    ensures Contains(a, p)
  {
    var i :| 0 <= i <= |a + b| && OccursAt(a + b, p, i);
    var k :| 0 <= k < |p| && p[k] == needed;
    assert (a + b)[i + k] == (a + b)[i..i + |p|][k];
    forall j | i <= j < i + |p| ensures (a + b)[j] in p {
      assert (a + b)[i..i + |p|][j - i] == (a + b)[j];
    }
    assert (a + b)[|a|] == first;
    if i + |p| > |a| {
      assert false;
    }
    assert (a + b)[i..i + |p|] == a[i..i + |p|];
    assert OccursAt(a, p, i);
  }

  lemma LowerMarker(n: nat)
    ensures var m := Lower(Marker(n)); m != "" && m[0] == '…' && 'f' !in m
  {
    var m := Marker(n);
    assert m[0] == '…' && LowerChar('…') == '…';
    forall i | 0 <= i < |m| ensures LowerChar(m[i]) != 'f' {
      NoLetterF(n, i);
    }
  }

  lemma NoLetterF(n: nat, i: nat)
    requires i < |Marker(n)|
    ensures Marker(n)[i] != 'f' && Marker(n)[i] != 'F'
  {
  }

  lemma LowerPrefix(kept: string, whole: string, p: string)
    requires kept <= whole && Contains(Lower(kept), p)
    ensures Contains(Lower(whole), p)
  {
    assert whole == kept + whole[|kept|..];
    LowerConcat(kept, whole[|kept|..]);
    ContainsPrefixed(Lower(kept), Lower(whole[|kept|..]), p);
  }

  /** The marker adds no conflict. */
  lemma CutAddsNoConflict(kept: string, whole: string, n: nat)
    requires kept <= whole && IsNonFastForward(kept + Marker(n))
    ensures IsNonFastForward(whole)
  {
    LowerConcat(kept, Marker(n));
    LowerMarker(n);
    var (a, m) := (Lower(kept), Lower(Marker(n)));
    assert "fast forward"[0] == 'f' && SIGNAL[6] == 'f';
    if Contains(a + m, "fast forward") {
      OccursLeft(a, m, "fast forward", '…', 'f');
      LowerPrefix(kept, whole, "fast forward");
    } else {
      OccursLeft(a, m, SIGNAL, '…', 'f');
      LowerPrefix(kept, whole, SIGNAL);
    }
  }

  /** A short ASCII beginning outlasts the cap. */
  lemma TruncatedKeepsStart(start: string, message: string)
    requires start <= message && |start| <= 64 && forall i | 0 <= i < |start| :: start[i] as int < 128
    requires Len(message) < U64
    ensures start <= Truncated(message, LIMIT)
  {
    if Len(message) > LIMIT {
      MarkerLength(Len(message));
      PrefixKeepsStart(start, message, LIMIT - Len(Marker(Len(message))));
    }
  }

  lemma PrefixKeepsStart(start: string, message: string, limit: nat)
    requires start <= message && |start| <= limit && forall i | 0 <= i < |start| :: start[i] as int < 128
    ensures start <= Prefix(message, limit)
  {
    EncodeAscii(start);
    assert message[..|start|] == start;
    PrefixLongest(message, limit, |start|);
  }

  lemma StartsWithSignal(s: string)
    requires SIGNAL <= s
    ensures IsNonFastForward(s)
  {
    assert Lower(SIGNAL) == SIGNAL;
    assert OccursAt(SIGNAL, SIGNAL, 0);
    LowerPrefix(SIGNAL, s, SIGNAL);
  }

  /** Whatever the length of the message, the capped one is retried exactly when the whole one,
      answered with status 422, says that the update was not a fast-forward. */
  lemma RetryDecisionKept(status: nat, safe: string)
    requires Len(safe) < U64 - 20
    ensures Len(Capped(status, safe)) <= LIMIT
    ensures IsBranchConcurrentlyUpdated(Classify(status, Capped(status, safe)))
       <==> status == 422 && IsNonFastForward(safe)
  {
    var whole := Uncapped(status, safe);
    TruncatedFits(whole, LIMIT);
    if whole != safe {
      TruncatedKeepsStart(SIGNAL, whole);
      StartsWithSignal(Truncated(whole, LIMIT));
    } else if Len(safe) > LIMIT && IsNonFastForward(Truncated(safe, LIMIT)) {
      MarkerLength(Len(safe));
      CutAddsNoConflict(Prefix(safe, LIMIT - Len(Marker(Len(safe)))), safe, Len(safe));
    }
  }

  // ---- Bodies that are not JSON ----

  predicate Apart(q: string, v: string) {
    q != "" && forall c | c in q :: c !in v
  }

  /** `q` is found no earlier in `r` than in `s`. */
  predicate Reflects(r: string, s: string, q: string) {
    (q <= r ==> q <= s) && (Contains(r, q) ==> Contains(s, q))
  }

  lemma ReflectsAfter(v: string, r: string, p: string, s: string, q: string)
    requires v != "" && Apart(q, v) && Reflects(r, s, q)
    ensures Reflects(v + r, p + s, q) && (Contains(v + r, q) ==> Contains(r, q))
  {
    assert q[0] in q && v[0] in v && (v + r)[0] == v[0];
    if Contains(v + r, q) {
      OccursRight(v, r, q);
      ContainsSuffixed(p, s, q);
    }
  }

  lemma ReflectsCons(c: char, r: string, s: string, q: string)
    requires q != "" && Reflects(r, s, q) && (q[1..] <= r ==> q[1..] <= s)
    ensures Reflects([c] + r, [c] + s, q)
  {
    assert ([c] + r)[1..] == r;
    if q <= [c] + r {
      assert q[1..] <= r && q == [q[0]] + q[1..] && q[0] == c;
    }
    if Contains([c] + r, q) {
      OccursHere([c] + r, q);
      if q <= [c] + r {
        assert OccursAt([c] + s, q, 0);
      } else {
        ContainsSuffixed([c], s, q);
      }
    }
  }

  /** A text apart from the replacement that is found afterwards was there before ... */
  lemma {:induction false} ReplaceReflects(s: string, p: string, v: string, q: string)
    requires p != "" && v != "" && Apart(q, v)
    ensures Reflects(Replace(s, p, v), s, q)
    decreases |s|
  {
    if |s| >= |p| && p <= s {
      ReplaceReflects(s[|p|..], p, v, q);
      PrefixThenRest(p, s);
      ReflectsAfter(v, Replace(s[|p|..], p, v), p, s[|p|..], q);
    } else if |s| >= |p| {
      ReplaceReflects(s[1..], p, v, q);
      if |q| > 1 {
        ReplaceReflects(s[1..], p, v, q[1..]);
      }
      PrefixThenRest([s[0]], s);
      ReflectsCons(s[0], Replace(s[1..], p, v), s[1..], q);
    }
  }

  /** ... and if anything was replaced it is shorter than the whole. */
  lemma {:induction false} ReplaceShortens(s: string, p: string, v: string, q: string)
    requires p != "" && v != "" && Apart(q, v) && Contains(s, p) && Contains(Replace(s, p, v), q)
    ensures |q| < |s|
    decreases |s|
  {
    if p <= s {
      var rest := s[|p|..];
      ReplaceReflects(rest, p, v, q);
      ReflectsAfter(v, Replace(rest, p, v), p, rest, q);
      ContainsLength(rest, q);
    } else {
      var (rest, r) := (s[1..], Replace(s[1..], p, v));
      OccursHere(s, p);
      ContainsLength(rest, p);
      assert ([s[0]] + r)[1..] == r;
      OccursHere([s[0]] + r, q);
      if Contains(r, q) {
        ReplaceShortens(rest, p, v, q);
      } else if |q| > 1 {
        assert q[1..] <= r;
        assert OccursAt(r, q[1..], 0);
        ReplaceShortens(rest, p, v, q[1..]);
      }
    }
  }

  lemma {:induction false} InterleaveApart(s: string, q: string)
    requires Apart(q, "***") && |q| > 1
    ensures !Contains(Interleave(s, "***"), q)
  {
    var r := Interleave(s, "***");
    if Contains(r, q) {
      assert r == "***" + r[3..];
      OccursRight("***", r[3..], q);
      if s != "" {
        assert r[3..] == [s[0]] + Interleave(s[1..], "***");
        assert r[3..][1..] == Interleave(s[1..], "***");
        OccursHere(r[3..], q);
        assert r[3..][1] == '*';
        assert q[1] in q;
        InterleaveApart(s[1..], q);
      }
    }
  }

  lemma LowerInterleave(s: string)
    ensures Lower(Interleave(s, "***")) == Interleave(Lower(s), "***")
  {
    if s != "" {
      LowerInterleave(s[1..]);
      LowerConcat("***" + [s[0]], Interleave(s[1..], "***"));
      assert Lower("***" + [s[0]]) == "***" + [Lower(s)[0]];
      assert Lower(s)[1..] == Lower(s[1..]);
    } else {
      assert Lower("***") == "***" && Lower("") == "";
    }
  }

  lemma NoFNoConflict(s: string)
    requires 'f' !in s && 'F' !in s
    ensures !IsNonFastForward(s)
  {
    var lower := Lower(s);
    assert 'f' !in lower;
    assert "fast forward"[0] == 'f' && SIGNAL[6] == 'f';
    if Contains(lower, "fast forward") {
      ContainsChars(lower, "fast forward");
    } else if Contains(lower, SIGNAL) {
      ContainsChars(lower, SIGNAL);
    }
  }

  lemma SignalOnlyWhole()
    ensures !Contains(SIGNAL, "fast forward")
  {
    if Contains(SIGNAL, "fast forward") {
      var i :| 0 <= i <= |SIGNAL| && OccursAt(SIGNAL, "fast forward", i);
      OccursAtChar(SIGNAL, "fast forward", i, 0);
      OccursAtChar(SIGNAL, "fast forward", i, 4);
      assert false;
    }
  }

  lemma SignalIsLower()
    ensures forall c | c in SIGNAL :: LowerChar(c) == c
  {
  }

  lemma LowerPieces(token: string)
    requires token != ""
    ensures var r := Replace(SIGNAL, token, "***"); Lower(r) == r
  {
    var r := Replace(SIGNAL, token, "***");
    ReplaceChars(SIGNAL, token, "***");
    SignalIsLower();
    forall i | 0 <= i < |r| ensures LowerChar(r[i]) == r[i] {
      assert r[i] in r;
    }
  }

  /** Taking the token out of the signal leaves a signal only if there is nothing to take out. */
  lemma SignalSurvives(token: string)
    requires token != ""
    ensures IsNonFastForward(Replace(SIGNAL, token, "***")) <==> !Contains(SIGNAL, token)
  {
    if !Contains(SIGNAL, token) {
      ReplaceAbsent(SIGNAL, token, "***");
      StartsWithSignal(SIGNAL);
    } else {
      LowerPieces(token);
      if Contains(Replace(SIGNAL, token, "***"), SIGNAL) {
        ReplaceShortens(SIGNAL, token, "***", SIGNAL);
      }
      ReplaceReflects(SIGNAL, token, "***", "fast forward");
      SignalOnlyWhole();
    }
  }

  lemma NoFReplaced(s: string, token: string)
    requires 'f' !in s && 'F' !in s && token != ""
    ensures !IsNonFastForward(Replace(s, token, "***"))
  {
    ReplaceChars(s, token, "***");
    NoFNoConflict(Replace(s, token, "***"));
  }

  lemma OmittedNoConflict(status: nat, token: string)
    ensures !IsNonFastForward(Omitted(status))
    ensures token != "" ==> !IsNonFastForward(Replace(Omitted(status), token, "***"))
  {
    var omitted := Omitted(status);
    assert 'f' !in omitted && 'F' !in omitted;
    NoFNoConflict(omitted);
    if token != "" {
      NoFReplaced(omitted, token);
    }
  }

  /** From a body that is not JSON the retry signal is kept exactly when the redacted body has it,
      unless the token is itself a piece of the signal; with an empty token it is always lost. */
  lemma UndecodableBody(body: seq<Byte>, token: string, read: JsonReader)
    requires read(body).None?
    ensures token != "" ==>
      (IsNonFastForward(SafeMessage(422, body, token, read)) <==>
        IsNonFastForward(Replace(Lossy(body), token, "***")) && !Contains(SIGNAL, token))
    ensures token == "" ==> !IsNonFastForward(SafeMessage(422, body, token, read))
  {
    OmittedNoConflict(422, token);
    if token != "" {
      SignalSurvives(token);
    } else {
      LowerInterleave(Lossy(body));
      InterleaveApart(Lower(Lossy(body)), "fast forward");
      InterleaveApart(Lower(Lossy(body)), SIGNAL);
    }
  }

  // ---- JSON bodies, and the token ----

  lemma {:induction false} LastMemberWins(before: seq<Json.Member>, key: string, value: Json.Value, after: seq<Json.Member>)
    requires forall i | 0 <= i < |after| :: after[i].key != key
    ensures Get(before + [Json.Member(key, value)] + after, key) == Some(value)
  {
    var members := before + [Json.Member(key, value)] + after;
    if after == [] {
      assert members[|members| - 1] == Json.Member(key, value);
    } else {
      LastMemberWins(before, key, value, after[..|after| - 1]);
      assert members[|members| - 1] == after[|after| - 1];
      assert members[..|members| - 1] == before + [Json.Member(key, value)] + after[..|after| - 1];
    }
  }

  /** Of a JSON error the last message is kept, whatever the status, without the token. */
  lemma JsonMessage(status: nat, body: seq<Byte>, token: string, read: JsonReader,
                    before: seq<Json.Member>, text: string, after: seq<Json.Member>)
    requires read(body) == Some(Json.Object(before + [Json.Member("message", Json.String(text))] + after))
    requires token != "" && forall i | 0 <= i < |after| :: after[i].key != "message"
    ensures SafeMessage(status, body, token, read) == Replace(text, token, "***")
  {
    LastMemberWins(before, "message", Json.String(text), after);
  }

  /** What replaces the token cannot be part of it, wherever the two might meet. */
  predicate StarSafe(p: string) {
    p != "" && p[0] != '*' && p[|p| - 1] != '*' && !Contains(p, "***")
  }

  /** A part of such a token that goes to its end. */
  predicate SafeEnd(q: string) {
    q != "" && q[|q| - 1] != '*' && !("***" <= q)
  }

  lemma StarsFirst(q: string, rest: string)
    requires SafeEnd(q)
    ensures !(q <= "***" + rest)
  {
    assert forall i | 0 <= i < 3 :: "***"[i] == '*';
    if q <= "***" + rest {
      PrefixOfConcat(q, "***", rest);
    }
  }

  /** A beginning that is found after the replacement was there before. */
  lemma {:induction false} BeginningReflects(s: string, p: string, q: string)
    requires p != "" && SafeEnd(q) && !Contains(q, "***")
    ensures q <= Replace(s, p, "***") ==> q <= s
    decreases |q|
  {
    if |s| >= |p| && p <= s {
      StarsFirst(q, Replace(s[|p|..], p, "***"));
    } else if |s| >= |p| {
      var rest := Replace(s[1..], p, "***");
      ReplaceMiss(s, p, "***");
      PrefixThenRest([s[0]], s);
      PrefixThenRest([q[0]], q);
      if |q| > 1 {
        EndIsSafe(q);
        BeginningReflects(s[1..], p, q[1..]);
      }
      assert ([s[0]] + rest)[1..] == rest;
    }
  }

  lemma EndIsSafe(q: string)
    requires |q| > 1 && SafeEnd(q) && !Contains(q, "***")
    ensures SafeEnd(q[1..]) && !Contains(q[1..], "***")
  {
    PrefixThenRest([q[0]], q);
    if Contains(q[1..], "***") {
      ContainsSuffixed([q[0]], q[1..], "***");
    }
    if "***" <= q[1..] {
      ContainsPrefix(q[1..], "***");
    }
  }

  lemma SafeTokenEnds(p: string)
    requires StarSafe(p)
    ensures SafeEnd(p)
  {
    if "***" <= p {
      ContainsPrefix(p, "***");
    }
  }

  /** Replacing such a token leaves no occurrence behind, and makes none. */
  lemma {:induction false} SafeTokenRemoved(s: string, p: string)
    requires StarSafe(p)
    ensures !Contains(Replace(s, p, "***"), p)
    decreases |s|
  {
    SafeTokenEnds(p);
    if |s| < |p| {
      if Contains(s, p) {
        ContainsLength(s, p);
      }
    } else if p <= s {
      SafeTokenRemoved(s[|p|..], p);
      if Contains("***" + Replace(s[|p|..], p, "***"), p) {
        OccursRight("***", Replace(s[|p|..], p, "***"), p);
      }
    } else {
      var rest := Replace(s[1..], p, "***");
      SafeTokenRemoved(s[1..], p);
      BeginningReflects(s, p, p);
      assert ([s[0]] + rest)[1..] == rest;
      if Contains([s[0]] + rest, p) {
        OccursHere([s[0]] + rest, p);
      }
    }
  }

  /** A text in which the pattern first occurs at its end. */
  lemma {:induction false} ReplaceEnd(x: string, p: string, y: string, v: string)
    requires p != "" && |y| < |p| && forall i | 0 <= i < |x| :: !OccursAt(x + (p + y), p, i)
    ensures Replace(x + (p + y), p, v) == x + (v + y)
  {
    if x == "" {
      ReplaceHit(p, y, v);
      assert x + (p + y) == p + y && x + (v + y) == v + y;
    } else {
      var s := x + (p + y);
      assert s[0] == x[0] && s[1..] == x[1..] + (p + y) && !OccursAt(s, p, 0);
      ReplaceMiss(s, p, v);
      forall i | 0 <= i < |x| - 1 ensures !OccursAt(x[1..] + (p + y), p, i) {
        OccursShifted(s, 1, p, i + 1);
      }
      ReplaceEnd(x[1..], p, y, v);
      assert [x[0]] + (x[1..] + (v + y)) == x + (v + y);
    }
  }

  /** For any other token there is a text in which replacing it makes it anew. */
  lemma UnsafeTokenMade(p: string) returns (s: string)
    requires p != "" && !StarSafe(p)
    ensures Contains(Replace(s, p, "***"), p)
  {
    if p[0] == '*' {
      s := p + p[1..];
      ReplaceHit(p, p[1..], "***");
      assert Replace(p[1..], p, "***") == p[1..];
      assert ("***" + p[1..])[2..2 + |p|] == p;
      assert OccursAt("***" + p[1..], p, 2);
    } else if p[|p| - 1] == '*' {
      s := MadeAtEnd(p);
    } else {
      s := MadeInside(p);
    }
  }

  lemma MadeAtEnd(p: string) returns (s: string)
    requires p != "" && p[0] != '*' && p[|p| - 1] == '*'
    ensures Contains(Replace(s, p, "***"), p)
  {
    var n := |p| - 1;
    var y := p[..n];
    s := y + (p + "");
    assert forall i | 0 <= i < n :: s[i] == p[i] && s[i + n] == p[i];
    forall i | 0 <= i < n ensures !OccursAt(s, p, i) {
      if OccursAt(s, p, i) {
        OccursAtChar(s, p, i, 0);
        OccursAtChar(s, p, i, n);
      }
    }
    ReplaceEnd(y, p, "", "***");
    var r := y + ("***" + "");
    assert r[..|p|] == p;
    assert OccursAt(r, p, 0);
  }

  lemma MadeInside(p: string) returns (s: string)
    requires Contains(p, "***")
    ensures Contains(Replace(s, p, "***"), p)
  {
    var found := FindFrom(p, "***", 0);
    var m := found.value;
    var (u, w) := (p[..m], p[m + 3..]);
    assert p == u + ("***" + w);
    s := u + (p + w);
    forall i | 0 <= i < m ensures !OccursAt(s, p, i) {
      if OccursAt(s, p, i) {
        NotEarlier(p, m, i, s, w);
      }
    }
    ReplaceEnd(u, p, w, "***");
    assert (u + ("***" + w))[0..|p|] == p;
    assert OccursAt(u + ("***" + w), p, 0);
  }

  lemma StarAt(p: string, m: nat, i: nat, s: string, w: string, k: nat)
    requires i < m && m + 3 <= |p| && k < 3
    requires OccursAt(p, "***", m) && s == p[..m] + (p + w) && OccursAt(s, p, i)
    ensures p[i + k] == '*'
  {
    OccursAtChar(p, "***", m, k);
    OccursAtChar(s, p, i, m + k);
    assert s[i + m + k] == p[i + k];
  }

  lemma NotEarlier(p: string, m: nat, i: nat, s: string, w: string)
    requires i < m && m + 3 <= |p| && OccursAt(p, "***", m) && s == p[..m] + (p + w) && OccursAt(s, p, i)
    ensures OccursAt(p, "***", i)
  {
    StarAt(p, m, i, s, w, 0);
    StarAt(p, m, i, s, w, 1);
    StarAt(p, m, i, s, w, 2);
    assert p[i..i + 3] == "***";
  }

  function Redacted(message: string, token: string): string
    requires token != ""
  {
    Replace(message, token, "***")
  }

  /** Redaction is sure, whatever the message, exactly for the tokens with no asterisk at either end
      and no three in a row; a GitHub token has none at all. */
  lemma RedactionIsSure(token: string)
    requires token != ""
    ensures (forall message :: !Contains(Redacted(message, token), token)) <==> StarSafe(token)
  {
    if StarSafe(token) {
      forall message ensures !Contains(Redacted(message, token), token) {
        SafeTokenRemoved(message, token);
      }
    } else {
      var message := UnsafeTokenMade(token);
      assert Contains(Redacted(message, token), token);
    }
  }

  lemma TokenScrubbed(status: nat, body: seq<Byte>, token: string, read: JsonReader)
    requires StarSafe(token)
    ensures !Contains(SafeMessage(status, body, token, read), token)
  {
    SafeTokenRemoved(MessageOf(status, body, token, read), token);
  }

  // ---- What the mark and the cap add ----

  lemma MarkedHas(safe: string, token: string)
    requires token != "" && ':' !in token && ' ' !in token && !Contains(safe, token)
    ensures Contains(Marked(safe), token) <==> Contains(SIGNAL, token)
  {
    SeparatedContains(SIGNAL, ':', " " + safe, token);
    SeparatedContains("", ' ', safe, token);
    assert "" + [' '] + safe == " " + safe;
    assert SIGNAL + [':'] + (" " + safe) == Marked(safe);
    if Contains("", token) {
      ContainsLength("", token);
    }
  }

  lemma CutHas(message: string, token: string)
    requires Len(message) < U64 && Len(message) > LIMIT && token != "" && '…' !in token
    ensures var n := Len(message);
      Len(Marker(n)) <= LIMIT &&
      (Contains(Truncated(message, LIMIT), token) <==>
        Contains(Prefix(message, LIMIT - Len(Marker(n))), token) || Contains(MarkerText(n), token))
  {
    var n := Len(message);
    MarkerLength(n);
    var kept := Prefix(message, LIMIT - Len(Marker(n)));
    SeparatedContains(kept, '…', MarkerText(n), token);
    Associate(kept, "…", MarkerText(n));
  }

  /** The message as it is kept holds the token in two cases only: it is part of the signal that marks
      a conflict, or part of the marker that says how much was cut. */
  lemma TokenInKeptMessage(status: nat, safe: string, token: string)
    requires Len(safe) < U64 - 20 && !Contains(safe, token)
    requires token != "" && ' ' !in token && ':' !in token && '…' !in token
    ensures var whole := Uncapped(status, safe);
      Contains(Capped(status, safe), token) <==>
        (whole != safe && Contains(SIGNAL, token)) || (Len(whole) > LIMIT && Contains(MarkerText(Len(whole)), token))
  {
    var whole := Uncapped(status, safe);
    if whole != safe {
      MarkedHas(safe, token);
      MarkedKept(safe, token);
    }
    if Len(whole) > LIMIT {
      CutHas(whole, token);
      PrefixHas(whole, LIMIT - Len(Marker(Len(whole))), token);
    }
  }

  lemma MarkedKept(safe: string, token: string)
    requires Len(Marked(safe)) < U64
    ensures Contains(SIGNAL, token) ==> Contains(Truncated(Marked(safe), LIMIT), token)
  {
    TruncatedKeepsStart(SIGNAL, Marked(safe));
    var r := Truncated(Marked(safe), LIMIT);
    PrefixThenRest(SIGNAL, r);
    if Contains(SIGNAL, token) {
      ContainsPrefixed(SIGNAL, r[|SIGNAL|..], token);
    }
  }

  lemma PrefixHas(message: string, limit: nat, token: string)
    ensures Contains(Prefix(message, limit), token) ==> Contains(message, token)
  {
    var kept := Prefix(message, limit);
    PrefixThenRest(kept, message);
    if Contains(kept, token) {
      ContainsPrefixed(kept, message[|kept|..], token);
    }
  }

  /** So a token that reads like the marker comes back with a message that is cut. */
  lemma MarkerHoldsToken(body: seq<Byte>, token: string, read: JsonReader, text: string)
    requires token == "truncated" && read(body) == Some(Json.Object([Json.Member("message", Json.String(text))]))
    requires LIMIT < Len(text) < U64 - 20 && forall i | 0 <= i < |text| :: text[i] == 'x'
    ensures var safe := SafeMessage(500, body, token, read);
      safe == text && !Contains(safe, token) && Contains(Capped(500, safe), token)
  {
    assert [] + [Json.Member("message", Json.String(text))] + [] == [Json.Member("message", Json.String(text))];
    JsonMessage(500, body, token, read, [], text, []);
    assert token[0] == 't' && 't' !in text;
    if Contains(text, token) {
      ContainsChars(text, token);
    }
    ReplaceAbsent(text, token, "***");
    TokenInKeptMessage(500, text, token);
    MarkerSays(Len(text), token);
  }

  lemma MarkerSays(n: nat, token: string)
    requires token == "truncated"
    ensures Contains(MarkerText(n), token)
  {
    var rest := ", original_bytes=" + Decimal(n) + "]";
    assert MarkerText(n) == " [" + (token + rest);
    ContainsPrefix(token + rest, token);
    ContainsSuffixed(" [", token + rest, token);
  }
}
