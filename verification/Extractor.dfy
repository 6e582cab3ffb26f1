/** Finding the JSON object that a model wrapped in other text. */
module Extractor {
  import opened Wrappers
  import opened Text
  import opened Utf8
  import Json
  import Credential

  const OPEN: Byte := 123
  const CLOSE: Byte := 125

  /** The scanner once an object has begun. */
  datatype State = State(depth: int, inString: bool, escaped: bool)

  function At(depth: int): State { State(depth, false, false) }

  function Step(st: State, b: Byte): State {
    if st.inString then
      if st.escaped then st.(escaped := false)
      else if b == BACKSLASH then st.(escaped := true)
      else if b == QUOTE then st.(inString := false)
      else st
    else if b == QUOTE then st.(inString := true)
    else if b == OPEN then st.(depth := st.depth + 1)
    else if b == CLOSE then st.(depth := st.depth - 1)
    else st
  }

  function Plus(n: nat, more: Option<nat>): Option<nat> {
    if more.None? then None else Some(n + more.value)
  }

  /** How many bytes it takes to bring the depth to zero. */
  function CloseLength(b: seq<Byte>, st: State): (r: Option<nat>)
    ensures r.Some? ==> 0 < r.value <= |b|
  {
    if b == [] then None
    else
      var next := Step(st, b[0]);
      if next.depth <= 0 then Some(1) else Plus(1, CloseLength(b[1..], next))
  }

  /** From the first opening brace to the brace that closes it. */
  function ExtractOf(raw: seq<Byte>): Option<seq<Byte>> {
    var start := IndexOf(raw, OPEN);
    if start.None? then None
    else
      var n := CloseLength(raw[start.value..], At(0));
      if n.None? then None else Some(raw[start.value..start.value + n.value])
  }

  /** `str::get` of a range of byte positions. */
  function Slice(raw: seq<Byte>, start: nat, end: nat): Option<seq<Byte>> {
    if start <= end <= |raw| && IsBoundary(raw, start) && IsBoundary(raw, end) then Some(raw[start..end]) else None
  }

  lemma CloseLengthStep(b: seq<Byte>, i: nat, st: State)
    requires i < |b|
    ensures CloseLength(b[i..], st) ==
      if Step(st, b[i]).depth <= 0 then Some(1) else Plus(1, CloseLength(b[i + 1..], Step(st, b[i])))
  {
    assert b[i..][1..] == b[i + 1..];
  }

  /** Next to an ASCII byte there is a boundary on both sides. */
  lemma {:induction false} AsciiBoundary(s: string, i: nat)
    requires i < Len(s) && Encode(s)[i] < 128
    ensures IsBoundary(Encode(s), i) && IsBoundary(Encode(s), i + 1)
  {
    var n := |EncodeChar(s[0])|;
    if i < n {
      if s[1..] != "" {
        StartsAtBoundary(s[1..]);
      }
    } else {
      AsciiBoundary(s[1..], i - n);
    }
  }

  /** The scanner has read up to `index` an object that began at `start` and has not closed. */
  ghost predicate Tracks(raw: seq<Byte>, start: nat, index: nat, st: State) {
    && start < index <= |raw| && st.depth > 0
    && IndexOf(raw, OPEN) == Some(start)
    && CloseLength(raw[start..], At(0)) == Plus(index - start, CloseLength(raw[index..], st))
  }

  lemma TrackStart(raw: seq<Byte>, index: nat)
    requires index < |raw| && raw[index] == OPEN && forall i | 0 <= i < index :: raw[i] != OPEN
    ensures Tracks(raw, index, index + 1, At(1))
  {
    IndexOfFirst(raw, OPEN, index);
    CloseLengthStep(raw, index, At(0));
  }

  lemma TrackStep(raw: seq<Byte>, start: nat, index: nat, st: State)
    requires index < |raw| && Tracks(raw, start, index, st)
    ensures var next := Step(st, raw[index]);
      if next.depth > 0 then Tracks(raw, start, index + 1, next) else ExtractOf(raw) == Some(raw[start..index + 1])
  {
    CloseLengthStep(raw, index, st);
  }

  lemma SliceFound(raw: seq<Byte>, start: nat, index: nat, r: Option<seq<Byte>>)
    requires Decode(raw).Some? && start <= index < |raw| && raw[start] < 128 && raw[index] < 128
    requires r == Some(raw[start..index + 1])
    ensures Slice(raw, start, index + 1) == r
  {
    AsciiBoundary(Decode(raw).value, start);
    AsciiBoundary(Decode(raw).value, index);
  }

  lemma TrackEnd(raw: seq<Byte>, start: nat, index: nat, st: State)
    requires index < |raw| && Tracks(raw, start, index, st) && Step(st, raw[index]).depth <= 0
    ensures raw[start] < 128 && raw[index] < 128
    ensures ExtractOf(raw) == Some(raw[start..index + 1])
  {
    TrackStep(raw, start, index, st);
    assert raw[start] == OPEN && raw[index] == CLOSE;
  }

  /** What the loop knows before it reads the byte at `index`. */
  ghost predicate Scanning(raw: seq<Byte>, start: Option<nat>, index: nat, st: State) {
    match start
    case None => st == At(0) && index <= |raw| && forall i | 0 <= i < index :: raw[i] != OPEN
    case Some(begun) => Tracks(raw, begun, index, st)
  }

  function Begun(start: Option<nat>, index: nat, b: Byte): Option<nat> {
    if start.None? && b == OPEN then Some(index) else start
  }

  function NextState(start: Option<nat>, index: nat, st: State, b: Byte): State {
    if Begun(start, index, b).None? then st else Step(st, b)
  }

  /** What reading the byte at `index` changes. */
  lemma ScanStep(raw: seq<Byte>, start: Option<nat>, index: nat, st: State)
    requires index < |raw| && Scanning(raw, start, index, st)
    ensures start.None? ==> st == At(0)
    ensures start.Some? ==> st.depth > 0
    ensures var (begun, next) := (Begun(start, index, raw[index]), NextState(start, index, st, raw[index]));
      if begun.Some? && next.depth <= 0 then
        && start == begun && start.value <= index && raw[start.value] < 128 && raw[index] < 128
        && ExtractOf(raw) == Some(raw[start.value..index + 1])
      else Scanning(raw, begun, index + 1, next)
  {
    if start.Some? {
      TrackStep(raw, start.value, index, st);
      if Step(st, raw[index]).depth <= 0 {
        TrackEnd(raw, start.value, index, st);
      }
    } else if raw[index] == OPEN {
      TrackStart(raw, index);
    }
  }

  lemma NoneFound(raw: seq<Byte>, start: Option<nat>, st: State)
    requires Scanning(raw, start, |raw|, st)
    ensures ExtractOf(raw) == None
  {
  }

  /** `raw.get(start..=index)`; at a brace on both ends it always succeeds. */
  method Get(raw: seq<Byte>, start: nat, index: nat) returns (r: Option<seq<Byte>>)
    requires Decode(raw).Some? && start <= index < |raw| && raw[start] < 128 && raw[index] < 128
    ensures r == Some(raw[start..index + 1])
  {
    SliceFound(raw, start, index, Some(raw[start..index + 1]));
    r := Slice(raw, start, index + 1);
  }

  /** The body of the loop: one byte. */
  method ReadByte(start: Option<nat>, st: State, index: nat, byte: Byte) returns (begun: Option<nat>, next: State)
    requires start.None? ==> st == At(0)
    requires start.Some? ==> st.depth > 0
    ensures begun == Begun(start, index, byte) && next == NextState(start, index, st, byte)
    ensures next.depth >= 0
  {
    begun, next := start, st;
    if st.inString {
      if st.escaped {
        next := next.(escaped := false);
      } else if byte == BACKSLASH {
        next := next.(escaped := true);
      } else if byte == QUOTE {
        next := next.(inString := false);
      }
    } else if byte == QUOTE && start.Some? {
      next := next.(inString := true);
    } else if byte == OPEN {
      if start.None? {
        begun := Some(index);
      }
      next := next.(depth := next.depth + 1);
    } else if byte == CLOSE && start.Some? {
      next := next.(depth := next.depth - 1);
    }
  }

  /** `extract_first_json_object` on the bytes of a `str`; the depth never goes below zero. */
  method ExtractFirstJsonObject(raw: seq<Byte>) returns (r: Option<seq<Byte>>)
    requires Decode(raw).Some?
    ensures r == ExtractOf(raw)
  {
    var start: Option<nat> := None;
    var st := At(0);
    for index := 0 to |raw|
      invariant Scanning(raw, start, index, st)
    {
      ScanStep(raw, start, index, st);
      start, st := ReadByte(start, st, index, raw[index]);
      if start.Some? && st.depth == 0 {
        r := Get(raw, start.value, index);
        return;
      }
    }
    NoneFound(raw, start, st);
    r := None;
  }

  // ---- What the scanner finds ----

  /** The state after the first `n` bytes. */
  ghost function After(st: State, b: seq<Byte>, n: nat): State
    requires n <= |b|
    decreases n
  {
    if n == 0 then st else After(Step(st, b[0]), b[1..], n - 1)
  }

  /** The object closes with the first byte that brings the depth back to zero, or never. */
  lemma {:induction false} CloseLengthMeaning(b: seq<Byte>, st: State)
    ensures match CloseLength(b, st)
      case Some(n) => After(st, b, n).depth <= 0 && forall m | 0 < m < n :: After(st, b, m).depth > 0
      case None => forall m | 0 < m <= |b| :: After(st, b, m).depth > 0
  {
    if b != [] && Step(st, b[0]).depth > 0 {
      var next := Step(st, b[0]);
      CloseLengthMeaning(b[1..], next);
      assert forall m | 1 < m <= |b| :: After(st, b, m) == After(next, b[1..], m - 1);
    }
  }

  /** Nothing is found exactly when no brace opens, or the depth never returns to zero. */
  lemma NothingFound(raw: seq<Byte>)
    ensures ExtractOf(raw).None? <==>
      OPEN !in raw ||
      exists start | 0 <= start < |raw| ::
        && raw[start] == OPEN && OPEN !in raw[..start]
        && forall m | 0 < m <= |raw| - start :: After(At(0), raw[start..], m).depth > 0
  {
    var found := IndexOf(raw, OPEN);
    if found.Some? {
      var start := found.value;
      CloseLengthMeaning(raw[start..], At(0));
      assert forall i | 0 <= i < |raw| && raw[i] == OPEN && OPEN !in raw[..i] :: i == start;
    }
  }

  // ---- Objects are found whole ----

  /** The state after reading `b`, if the object stays open until its last byte at least. */
  function Run(b: seq<Byte>, st: State): Option<State> {
    if b == [] then Some(st)
    else if st.depth <= 0 then None
    else Run(b[1..], Step(st, b[0]))
  }

  lemma {:induction false} RunConcat(a: seq<Byte>, b: seq<Byte>, st: State)
    requires Run(a, st).Some?
    ensures Run(a + b, st) == Run(b, Run(a, st).value)
  {
    if a == [] {
      assert a + b == b;
    } else {
      assert (a + b)[1..] == a[1..] + b;
      RunConcat(a[1..], b, Step(st, a[0]));
    }
  }

  /** An object that is open until the last byte of `b` closes there, whatever follows. */
  lemma {:induction false} RunCloses(b: seq<Byte>, rest: seq<Byte>, st: State)
    requires st.depth > 0 && Run(b, st).Some? && Run(b, st).value.depth <= 0
    ensures CloseLength(b + rest, st) == Some(|b|)
  {
    var next := Step(st, b[0]);
    assert (b + rest)[1..] == b[1..] + rest;
    if next.depth > 0 {
      RunCloses(b[1..], rest, next);
    } else if |b| > 1 {
      assert false;
    }
  }

  /** The text `s` takes the scanner from `st` to `to`. */
  predicate Leads(s: string, st: State, to: State) {
    Run(Encode(s), st) == Some(to)
  }

  lemma LeadsOn(s: string, t: string, st: State, mid: State, to: State)
    requires Leads(s, st, mid) && Leads(t, mid, to)
    ensures Leads(s + t, st, to)
  {
    EncodeConcat(s, t);
    RunConcat(Encode(s), Encode(t), st);
  }

  /** Bytes that mean nothing to the scanner in this state. */
  predicate Inert(b: seq<Byte>, st: State) {
    st.depth > 0 && forall i | 0 <= i < |b| :: Step(st, b[i]) == st
  }

  lemma {:induction false} InertRun(b: seq<Byte>, st: State)
    requires Inert(b, st)
    ensures Run(b, st) == Some(st)
  {
    if b != [] {
      InertRun(b[1..], st);
    }
  }

  predicate PlainText(s: string) {
    forall i | 0 <= i < |s| :: s[i] !in "\"{}"
  }

  lemma {:induction false} PlainLeads(s: string, depth: nat)
    requires depth > 0 && PlainText(s)
    ensures Leads(s, At(depth), At(depth))
  {
    if s != "" {
      PlainLeads(s[1..], depth);
      InertRun(EncodeChar(s[0]), At(depth));
      RunConcat(EncodeChar(s[0]), Encode(s[1..]), At(depth));
    }
  }

  function Inside(depth: nat): State { State(depth, true, false) }

  /** One ASCII character is one step. */
  lemma OneLeads(c: char, st: State)
    requires c as int < 128 && st.depth > 0
    ensures Leads([c], st, Step(st, c as int))
  {
    assert Encode([c]) == EncodeChar(c) + [] == [c as int];
    assert [c as int][1..] == [];
    assert Run([], Step(st, c as int)) == Some(Step(st, c as int));
  }

  /** Inside a string only quotes and backslashes mean something. */
  lemma {:induction false} InsideLeads(s: string, depth: nat)
    requires depth > 0 && Credential.Plain(s)
    ensures Leads(s, Inside(depth), Inside(depth))
  {
    Credential.PlainBytes(s);
    InertRun(Encode(s), Inside(depth));
  }

  lemma BackslashLeads(c: char, depth: nat)
    requires depth > 0 && c as int < 128
    ensures Leads("\\" + [c], Inside(depth), Inside(depth))
  {
    var escaped := Inside(depth).(escaped := true);
    OneLeads('\\', Inside(depth));
    OneLeads(c, escaped);
    LeadsOn("\\", [c], Inside(depth), escaped, Inside(depth));
  }

  /** An escape sequence, surrogate pairs included, does not end the string. */
  lemma EscapeLeads(t: string, depth: nat)
    requires depth > 0 && Json.ParseEscape(t).Some?
    ensures Credential.EscapeLength(t) <= |t|
    ensures Leads("\\" + t[..Credential.EscapeLength(t)], Inside(depth), Inside(depth))
  {
    var n := Credential.EscapeLength(t);
    Credential.EscapeIsLocal(t, "");
    BackslashLeads(t[0], depth);
    if t[0] == 'u' {
      Credential.EscapePlain(t);
      InsideLeads(t[1..5], depth);
      LeadsOn("\\" + [t[0]], t[1..5], Inside(depth), Inside(depth), Inside(depth));
      if n == 11 {
        BackslashLeads(t[6], depth);
        InsideLeads(t[7..11], depth);
        LeadsOn("\\" + [t[6]], t[7..11], Inside(depth), Inside(depth), Inside(depth));
        LeadsOn("\\" + [t[0]] + t[1..5], "\\" + [t[6]] + t[7..11], Inside(depth), Inside(depth), Inside(depth));
        SurrogatePair(t);
      } else {
        assert "\\" + t[..5] == "\\" + [t[0]] + t[1..5];
      }
    } else {
      assert t[..1] == [t[0]];
    }
  }

  lemma SurrogatePair(t: string)
    requires |t| >= 11 && t[5..7] == "\\u"
    ensures "\\" + t[..11] == "\\" + [t[0]] + t[1..5] + ("\\" + [t[6]] + t[7..11])
  {
    assert t[5..7][0] == t[5] && t[5..7][1] == t[6];
  }

  /** Reading `s` up to `rest` takes the scanner from `st` to `to`. */
  ghost predicate Passes(s: string, rest: string, st: State, to: State) {
    exists read :: s == read + rest && Leads(read, st, to)
  }

  lemma PassesThrough(read: string, rest: string, st: State, to: State)
    requires Leads(read, st, to)
    ensures Passes(read + rest, rest, st, to)
  {
  }

  lemma PassesOn(s: string, mid: string, rest: string, st: State, between: State, to: State)
    requires Passes(s, mid, st, between) && Passes(mid, rest, between, to)
    ensures Passes(s, rest, st, to)
  {
    var a :| s == a + mid && Leads(a, st, between);
    var b :| mid == b + rest && Leads(b, between, to);
    LeadsOn(a, b, st, between, to);
    Associate(a, b, rest);
    PassesThrough(a + b, rest, st, to);
  }

  lemma OnePasses(s: string, st: State)
    requires s != "" && s[0] as int < 128 && st.depth > 0
    ensures Passes(s, s[1..], st, Step(st, s[0] as int))
  {
    OneLeads(s[0], st);
    PrefixThenRest([s[0]], s);
    PassesThrough([s[0]], s[1..], st, Step(st, s[0] as int));
  }

  lemma PlainPasses(read: string, rest: string, depth: nat)
    requires depth > 0 && PlainText(read)
    ensures Passes(read + rest, rest, At(depth), At(depth))
  {
    PlainLeads(read, depth);
    PassesThrough(read, rest, At(depth), At(depth));
  }

  lemma {:induction false} SpacePasses(s: string, depth: nat)
    requires depth > 0
    ensures Passes(s, Json.SkipSpace(s), At(depth), At(depth))
  {
    if s != "" && Json.IsSpace(s[0]) {
      OnePasses(s, At(depth));
      SpacePasses(s[1..], depth);
      PassesOn(s, s[1..], Json.SkipSpace(s), At(depth), At(depth), At(depth));
    } else {
      PlainPasses("", s, depth);
      assert "" + s == s;
    }
  }

  /** White space, and then one character of punctuation. */
  lemma PunctuationPasses(s: string, st: State)
    requires st == At(st.depth) && st.depth > 0
    requires var t := Json.SkipSpace(s); t != "" && t[0] as int < 128
    ensures var t := Json.SkipSpace(s); Passes(s, t[1..], st, Step(st, t[0] as int))
  {
    var t := Json.SkipSpace(s);
    SpacePasses(s, st.depth);
    OnePasses(t, st);
    PassesOn(s, t, t[1..], st, st, Step(st, t[0] as int));
  }

  /** The rest of a string, through its closing quote. */
  lemma {:induction false} StringPasses(s: string, depth: nat)
    requires depth > 0 && Json.ParseString(s).Some?
    ensures Passes(s, Json.ParseString(s).value.1, Inside(depth), At(depth))
    decreases |s|
  {
    var rest := Json.ParseString(s).value.1;
    if s[0] == '"' {
      OnePasses(s, Inside(depth));
    } else if s[0] == '\\' {
      EscapePasses(s, depth);
      var tail := Json.ParseEscape(s[1..]).value.1;
      StringPasses(tail, depth);
      PassesOn(s, tail, rest, Inside(depth), Inside(depth), At(depth));
    } else {
      InsideLeads([s[0]], depth);
      PrefixThenRest([s[0]], s);
      PassesThrough([s[0]], s[1..], Inside(depth), Inside(depth));
      StringPasses(s[1..], depth);
      PassesOn(s, s[1..], rest, Inside(depth), Inside(depth), At(depth));
    }
  }

  lemma EscapePasses(s: string, depth: nat)
    requires depth > 0 && s != "" && s[0] == '\\' && Json.ParseEscape(s[1..]).Some?
    ensures Passes(s, Json.ParseEscape(s[1..]).value.1, Inside(depth), Inside(depth))
  {
    var t := s[1..];
    var n := Credential.EscapeLength(t);
    Credential.EscapeIsLocal(t, "");
    EscapeLeads(t, depth);
    assert s == "\\" + t[..n] + t[n..];
    PassesThrough("\\" + t[..n], t[n..], Inside(depth), Inside(depth));
  }

  lemma WordPasses(s: string, word: string, v: Json.Value, depth: nat)
    requires depth > 0 && PlainText(word) && Json.ParseWord(s, word, v).Some?
    ensures Passes(s, Json.ParseWord(s, word, v).value.1, At(depth), At(depth))
  {
    PrefixThenRest(word, s);
    PlainPasses(word, s[|word|..], depth);
  }

  lemma NumberPasses(s: string, depth: nat)
    requires depth > 0 && Json.ParseNumber(s).Some?
    ensures Passes(s, Json.ParseNumber(s).value.1, At(depth), At(depth))
  {
    var (literal, rest) := Json.ParseNumber(s).value;
    Json.NumberAlphabet(s);
    NumberPlain(literal);
    PlainPasses(literal, rest, depth);
  }

  lemma NumberPlain(literal: string)
    requires Json.NumberChars(literal)
    ensures PlainText(literal)
  {
  }

  lemma WordsPass(t: string, depth: nat)
    requires depth > 0
    ensures forall word, v | (word, v) in {("null", Json.Null), ("true", Json.Bool(true)), ("false", Json.Bool(false))} ::
      Json.ParseWord(t, word, v).Some? ==> Passes(t, Json.ParseWord(t, word, v).value.1, At(depth), At(depth))
  {
    forall word, v | (word, v) in {("null", Json.Null), ("true", Json.Bool(true)), ("false", Json.Bool(false))}
      && Json.ParseWord(t, word, v).Some?
      ensures Passes(t, Json.ParseWord(t, word, v).value.1, At(depth), At(depth))
    {
      assert PlainText("null") && PlainText("true") && PlainText("false");
      WordPasses(t, word, v, depth);
    }
  }

  lemma ScalarPasses(t: string, depth: nat)
    requires depth > 0 && t != "" && !Json.IsSpace(t[0]) && t[0] !in "\"[{" && Json.ParseValue(t).Some?
    ensures Passes(t, Json.ParseValue(t).value.1, At(depth), At(depth))
  {
    if t[0] in "ntf" {
      Json.WordBranch(t);
      WordsPass(t, depth);
    } else {
      Json.LiteralBranch(t);
      NumberPasses(t, depth);
    }
  }

  lemma TextPasses(t: string, depth: nat)
    requires depth > 0 && t != "" && t[0] == '"' && Json.ParseString(t[1..]).Some?
    ensures Passes(t, Json.ParseString(t[1..]).value.1, At(depth), At(depth))
  {
    OnePasses(t, At(depth));
    StringPasses(t[1..], depth);
    PassesOn(t, t[1..], Json.ParseString(t[1..]).value.1, At(depth), Inside(depth), At(depth));
  }

  lemma {:induction false} ValuePasses(s: string, depth: nat)
    requires depth > 0 && Json.ParseValue(s).Some?
    ensures Passes(s, Json.ParseValue(s).value.1, At(depth), At(depth))
    decreases |s|, 3
  {
    var (t, rest) := (Json.SkipSpace(s), Json.ParseValue(s).value.1);
    SpacePasses(s, depth);
    if t[0] == '"' {
      TextPasses(t, depth);
    } else if t[0] == '[' {
      OnePasses(t, At(depth));
      ArrayPasses(t[1..], depth);
      PassesOn(t, t[1..], rest, At(depth), At(depth), At(depth));
    } else if t[0] == '{' {
      OnePasses(t, At(depth));
      ObjectPasses(t[1..], depth + 1);
      PassesOn(t, t[1..], rest, At(depth), At(depth + 1), At(depth));
    } else {
      ScalarPasses(t, depth);
    }
    PassesOn(s, t, rest, At(depth), At(depth), At(depth));
  }

  lemma {:induction false} ArrayPasses(s: string, depth: nat)
    requires depth > 0 && Json.ParseArray(s).Some?
    ensures Passes(s, Json.ParseArray(s).value.1, At(depth), At(depth))
    decreases |s|, 5
  {
    var t := Json.SkipSpace(s);
    if t != "" && t[0] == ']' {
      PunctuationPasses(s, At(depth));
    } else {
      ItemsPass(s, depth);
    }
  }

  lemma {:induction false} ItemsPass(s: string, depth: nat)
    requires depth > 0 && Json.ParseItems(s).Some?
    ensures Passes(s, Json.ParseItems(s).value.1, At(depth), At(depth))
    decreases |s|, 4
  {
    Json.ItemsCases(s);
    var (after, rest) := (Json.ParseValue(s).value.1, Json.ParseItems(s).value.1);
    var t := Json.SkipSpace(after);
    ValuePasses(s, depth);
    PunctuationPasses(after, At(depth));
    PassesOn(s, after, t[1..], At(depth), At(depth), At(depth));
    if t[0] != ']' {
      ItemsPass(t[1..], depth);
      PassesOn(s, t[1..], rest, At(depth), At(depth), At(depth));
    }
  }

  /** What follows an opening brace; the closing brace takes the depth down. */
  lemma {:induction false} ObjectPasses(s: string, depth: nat)
    requires depth > 0 && Json.ParseObject(s).Some?
    ensures Passes(s, Json.ParseObject(s).value.1, At(depth), At(depth - 1))
    decreases |s|, 5
  {
    var t := Json.SkipSpace(s);
    if t != "" && t[0] == '}' {
      PunctuationPasses(s, At(depth));
    } else {
      MembersPass(s, depth);
    }
  }

  lemma {:induction false} MemberPasses(s: string, depth: nat)
    requires depth > 0 && Json.ParseMember(s).Some?
    ensures Passes(s, Json.ParseMember(s).value.1, At(depth), At(depth))
    decreases |s|, 3
  {
    var (k, rest) := (Json.SkipSpace(s), Json.ParseMember(s).value.1);
    var after := Json.ParseString(k[1..]).value.1;
    var c := Json.SkipSpace(after);
    SpacePasses(s, depth);
    TextPasses(k, depth);
    PunctuationPasses(after, At(depth));
    ValuePasses(c[1..], depth);
    PassesOn(s, k, after, At(depth), At(depth), At(depth));
    PassesOn(s, after, c[1..], At(depth), At(depth), At(depth));
    PassesOn(s, c[1..], rest, At(depth), At(depth), At(depth));
  }

  lemma {:induction false} MembersPass(s: string, depth: nat)
    requires depth > 0 && Json.ParseMembers(s).Some?
    ensures Passes(s, Json.ParseMembers(s).value.1, At(depth), At(depth - 1))
    decreases |s|, 4
  {
    Json.MembersCases(s);
    var (after, rest) := (Json.ParseMember(s).value.1, Json.ParseMembers(s).value.1);
    var t := Json.SkipSpace(after);
    MemberPasses(s, depth);
    PunctuationPasses(after, At(depth));
    if t[0] == '}' {
      PassesOn(s, after, rest, At(depth), At(depth), At(depth - 1));
    } else {
      PassesOn(s, after, t[1..], At(depth), At(depth), At(depth));
      MembersPass(t[1..], depth);
      PassesOn(s, t[1..], rest, At(depth), At(depth), At(depth - 1));
    }
  }

  lemma {:induction false} NoBrace(s: string)
    requires '{' !in s
    ensures OPEN !in Encode(s)
  {
    if s != "" {
      NoBrace(s[1..]);
      var c := EncodeChar(s[0]);
      assert forall i | 0 <= i < |c| :: c[i] != OPEN;
    }
  }

  /** Bytes that open with a brace and then close with their last byte are what is extracted. */
  lemma BytesFound(a: seq<Byte>, body: seq<Byte>, c: seq<Byte>)
    requires OPEN !in a && Run(body, At(1)) == Some(At(0))
    ensures ExtractOf(a + ([OPEN] + body) + c) == Some([OPEN] + body)
  {
    var b := [OPEN] + body;
    var raw := a + b + c;
    IndexOfFirst(raw, OPEN, |a|);
    assert raw[|a|..] == b + c;
    assert (b + c)[1..] == body + c;
    RunCloses(body, c, At(1));
    assert CloseLength(b + c, At(0)) == Some(|b|);
  }

  /** Whatever follows an object, and however it is spaced and escaped, the scanner returns exactly
      what a JSON parser reads as the object, as long as no brace opens before it. */
  lemma ObjectFound(before: string, text: string, after: string)
    requires '{' !in before && text != "" && text[0] == '{'
    requires Json.ParseValue(text + after).Some? && Json.ParseValue(text + after).value.1 == after
    ensures ExtractOf(Encode(before + text + after)) == Some(Encode(text))
  {
    var s := text + after;
    assert s[0] == '{' && s[1..] == text[1..] + after;
    Json.ObjectBranch(s[1..]);
    PrefixThenRest(['{'], s);
    ObjectPasses(s[1..], 1);
    var body :| s[1..] == body + after && Leads(body, At(1), At(0));
    assert body == s[1..][..|s| - 1 - |after|] == text[1..];
    EncodeConcat(before + text, after);
    EncodeConcat(before, text);
    NoBrace(before);
    BraceFirst(text);
    BytesFound(Encode(before), Encode(body), Encode(after));
  }

  lemma BraceFirst(text: string)
    requires text != "" && text[0] == '{'
    ensures Encode(text) == [OPEN] + Encode(text[1..])
  {
    assert EncodeChar('{') == [OPEN];
  }

  /** In particular, a compactly printed object is found before any text at all. */
  lemma PrintedObjectFound(before: string, members: seq<Json.Member>, after: string)
    requires '{' !in before && Json.WellFormed(Json.Object(members))
    ensures var text := Json.Print(Json.Object(members));
      ExtractOf(Encode(before + text + after)) == Some(Encode(text))
  {
    Json.PrintObjectParses(members, after);
    ObjectFound(before, Json.Print(Json.Object(members)), after);
  }

  // ---- Reading a model's answer ----

  /** `parse_schema`: the text itself, or else the first object in it. `decode` is serde's decoder. */
  function ParseSchema<T>(raw: string, decode: string -> Option<T>): Option<T> {
    if decode(raw).Some? then decode(raw)
    else
      var found := ExtractOf(Encode(raw));
      if found.None? then None
      else
        var text := Decode(found.value);
        if text.None? then None else decode(text.value)
  }

  /** An answer is read through whatever text surrounds it, if that text has no brace before it and
      the whole is not itself an answer. */
  lemma AnswerFound<T>(before: string, text: string, after: string, decode: string -> Option<T>)
    requires '{' !in before && text != "" && text[0] == '{'
    requires Json.ParseValue(text + after).Some? && Json.ParseValue(text + after).value.1 == after
    ensures var whole := before + text + after;
      ParseSchema(whole, decode) == if decode(whole).Some? then decode(whole) else decode(text)
  {
    ObjectFound(before, text, after);
    DecodeEncoded(text);
  }
}
