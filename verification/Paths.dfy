/** Report paths: the path template, its sample rendering, and when two paths are the same. */
module Paths {
  import opened Wrappers
  import opened Text
  import opened Templates

  const PATH_TOKENS: seq<string> := ["category_key", "CATEGORY_KEY", "date", "YYYY", "MM", "DD", "YYYYMMDD"]

  // ---- Dates ----

  datatype DateParts = DateParts(year: string, month: string, day: string)

  function LeapYear(year: nat): bool {
    year % 4 == 0 && (year % 100 != 0 || year % 400 == 0)
  }

  function DaysIn(year: nat, month: nat): nat {
    if month == 2 then (if LeapYear(year) then 29 else 28)
    else if month in {4, 6, 9, 11} then 30
    else 31
  }

  /** `DateParts::parse`. */
  function ParseDate(s: string): Option<DateParts> {
    var parts := Split(s, '-');
    if |parts| != 3 then None
    else
      var (year, month, day) := (parts[0], parts[1], parts[2]);
      if |year| != 4 || |month| != 2 || |day| != 2 || !AllDigits(year) || !AllDigits(month) || !AllDigits(day) then None
      else if !(1 <= DecimalValue(month) <= 12) then None
      else if !(1 <= DecimalValue(day) <= DaysIn(DecimalValue(year), DecimalValue(month))) then None
      else Some(DateParts(year, month, day))
  }

  /** The text of a date is its parts: fixed widths, and nothing lost. */
  lemma DateText(s: string)
    requires ParseDate(s).Some?
    ensures var d := ParseDate(s).value;
      s == d.year + "-" + d.month + "-" + d.day && GoodDate(d)
  {
    var parts := Split(s, '-');
    JoinSplit(s, '-');
    assert Join(parts[1..][1..], '-') == parts[2];
    assert Join(parts[1..], '-') == parts[1] + ("-" + parts[2]);
  }

  predicate GoodDate(d: DateParts) {
    && |d.year| == 4 && |d.month| == 2 && |d.day| == 2
    && AllDigits(d.year) && AllDigits(d.month) && AllDigits(d.day)
    && 1 <= DecimalValue(d.month) <= 12
    && 1 <= DecimalValue(d.day) <= DaysIn(DecimalValue(d.year), DecimalValue(d.month))
  }

  /** Every day of the calendar is a date, written in one way. */
  lemma DateParses(s: string, d: DateParts)
    requires GoodDate(d) && s == d.year + "-" + d.month + "-" + d.day
    ensures ParseDate(s) == Some(d)
  {
    var parts := [d.year, d.month, d.day];
    assert parts[1..][1..] == [d.day];
    assert Join(parts[1..], '-') == d.month + ("-" + d.day);
    assert Join(parts, '-') == d.year + ("-" + (d.month + ("-" + d.day)));
    assert Join(parts, '-') == d.year + "-" + d.month + "-" + d.day;
    SplitJoin(parts, '-');
  }

  lemma TwoDigits(s: string)
    requires |s| == 2 && AllDigits(s)
    ensures DecimalValue(s) == 10 * (s[0] as int - 48) + (s[1] as int - 48)
  {
    assert s[..1][..0] == "";
    assert DecimalValue(s[..1]) == s[0] as int - 48;
  }

  // ---- Rendering a path ----

  function UpperChar(c: char): char {
    if 'a' <= c <= 'z' then (c as int - 32) as char else c
  }

  /** `str::to_ascii_uppercase`. */
  function Upper(s: string): (r: string)
    ensures |r| == |s| && forall i | 0 <= i < |s| :: r[i] == UpperChar(s[i])
  {
    seq(|s|, i requires 0 <= i < |s| => UpperChar(s[i]))
  }

  function PathVars(key: string, date: string, d: DateParts): Vars {
    [
      ("category_key", key),
      ("CATEGORY_KEY", Upper(key)),
      ("date", date),
      ("YYYY", d.year),
      ("MM", d.month),
      ("DD", d.day),
      ("YYYYMMDD", d.year + d.month + d.day)
    ]
  }

  /** The relative path of a report, when the date is one. */
  function Path(t: string, key: string, date: string): Option<string> {
    var d := ParseDate(date);
    if d.None? then None else Some(Filled(Pieces(t), PathVars(key, date, d.value)))
  }

  /** The part of `render_markdown` that names the file. */
  method RenderPath(t: string, key: string, date: string) returns (r: Option<string>)
    ensures r == Path(t, key, date)
  {
    var d := ParseDate(date);
    if d.None? {
      return None;
    }
    var path := ApplyTemplate(t, PathVars(key, date, d.value));
    r := Some(path);
  }

  // ---- Equal paths ----

  predicate Uses(pieces: seq<Piece>, name: string) {
    Placeholder(name) in pieces
  }

  ghost predicate NoWider(pieces: seq<Piece>, v: Vars, w: Vars) {
    forall name | Uses(pieces, name) :: |Value(v, name)| <= |Value(w, name)|
  }

  lemma UsesRest(pieces: seq<Piece>, name: string)
    requires pieces != []
    ensures Uses(pieces, name) <==> pieces[0] == Placeholder(name) || Uses(pieces[1..], name)
  {
    assert pieces == [pieces[0]] + pieces[1..];
  }

  lemma {:induction false} FilledNoWider(pieces: seq<Piece>, v: Vars, w: Vars)
    requires NoWider(pieces, v, w)
    ensures |Filled(pieces, v)| <= |Filled(pieces, w)|
  {
    if pieces != [] {
      FilledNoWider(pieces[1..], v, w);
      assert pieces[0].Placeholder? ==> Uses(pieces, pieces[0].name);
    }
  }

  lemma SplitEqual(a: string, b: string, c: string, d: string)
    requires |a| <= |c| && |b| <= |d| && a + b == c + d
    ensures a == c && b == d
  {
    assert |a + b| == |c + d|;
    assert a == (a + b)[..|a|] && c == (c + d)[..|c|];
    assert b == (a + b)[|a|..] && d == (c + d)[|c|..];
  }

  /** Where no value is wider than its counterpart, texts are equal only value by value. */
  lemma {:induction false} FilledEqual(pieces: seq<Piece>, v: Vars, w: Vars)
    requires NoWider(pieces, v, w)
    ensures Filled(pieces, v) == Filled(pieces, w) <==> forall name | Uses(pieces, name) :: Value(v, name) == Value(w, name)
  {
    if pieces != [] {
      var p, rest := pieces[0], pieces[1..];
      forall name ensures Uses(pieces, name) <==> p == Placeholder(name) || Uses(rest, name) {
        UsesRest(pieces, name);
      }
      FilledEqual(rest, v, w);
      FilledNoWider(rest, v, w);
      if Filled(pieces, v) == Filled(pieces, w) {
        SplitEqual(FilledPiece(p, v), Filled(rest, v), FilledPiece(p, w), Filled(rest, w));
      }
    }
  }

  lemma PathValues(key: string, date: string, d: DateParts)
    ensures var v := PathVars(key, date, d);
      && Value(v, "category_key") == key && Value(v, "CATEGORY_KEY") == Upper(key)
      && Value(v, "date") == date && Value(v, "YYYY") == d.year && Value(v, "MM") == d.month
      && Value(v, "DD") == d.day && Value(v, "YYYYMMDD") == d.year + d.month + d.day
  {
    var v := PathVars(key, date, d);
    assert v[0].0 == "category_key" && v[1].0 == "CATEGORY_KEY" && v[2].0 == "date";
    assert v[3].0 == "YYYY" && v[4].0 == "MM" && v[5].0 == "DD" && v[6].0 == "YYYYMMDD";
    forall i | 0 <= i < 7 ensures Value(v, v[i].0) == v[i].1 {
      LookupAt(v, i);
    }
  }

  /** A template the placeholder validator accepts. */
  predicate Accepted(t: string) {
    Issues(Pieces(t), PATH_TOKENS) == []
  }

  /** The check that the template tells days apart. */
  predicate HasDateToken(t: string) {
    Contains(t, Hole("date")) || Contains(t, Hole("YYYYMMDD")) ||
    (Contains(t, Hole("YYYY")) && Contains(t, Hole("MM")) && Contains(t, Hole("DD")))
  }

  predicate HasCategoryToken(t: string) {
    Contains(t, Hole("category_key")) || Contains(t, Hole("CATEGORY_KEY"))
  }

  /** The template cannot tell the keys apart. */
  predicate SameKeys(t: string, k1: string, k2: string) {
    (Uses(Pieces(t), "category_key") ==> k1 == k2) && (Uses(Pieces(t), "CATEGORY_KEY") ==> Upper(k1) == Upper(k2))
  }

  predicate SameDates(t: string, d1: DateParts, d2: DateParts) {
    var p := Pieces(t);
    && (Uses(p, "date") || Uses(p, "YYYYMMDD") ==> d1 == d2)
    && (Uses(p, "YYYY") ==> d1.year == d2.year)
    && (Uses(p, "MM") ==> d1.month == d2.month)
    && (Uses(p, "DD") ==> d1.day == d2.day)
  }

  lemma AcceptedPieces(t: string)
    requires Accepted(t)
    ensures AllGood(Pieces(t), PATH_TOKENS) && Source(Pieces(t)) == t
  {
    PiecesShape(t);
    NoIssues(Pieces(t), PATH_TOKENS);
    PiecesSource(t);
  }

  lemma PiecesAccepted(pieces: seq<Piece>)
    requires AllGood(pieces, PATH_TOKENS)
    ensures Accepted(Source(pieces)) && Pieces(Source(pieces)) == pieces
  {
    PiecesOfSource(pieces, PATH_TOKENS);
    PiecesShape(Source(pieces));
    NoIssues(pieces, PATH_TOKENS);
  }

  lemma UsedIsToken(t: string, name: string)
    requires Accepted(t) && Uses(Pieces(t), name)
    ensures name in PATH_TOKENS
  {
    AcceptedPieces(t);
    var i :| 0 <= i < |Pieces(t)| && Pieces(t)[i] == Placeholder(name);
    assert Good(Pieces(t)[i], PATH_TOKENS);
  }

  lemma TokenNames(name: string)
    ensures name in PATH_TOKENS <==>
      name in {"category_key", "CATEGORY_KEY", "date", "YYYY", "MM", "DD", "YYYYMMDD"}
  {
    forall n: string | n in {"category_key", "CATEGORY_KEY", "date", "YYYY", "MM", "DD", "YYYYMMDD"}
      ensures n in PATH_TOKENS
    {
      var p := PATH_TOKENS;
      assert p[0] in p && p[1] in p && p[2] in p && p[3] in p && p[4] in p && p[5] in p && p[6] in p;
    }
  }

  lemma ConcatEqual(d1: DateParts, d2: DateParts)
    requires |d1.year| == |d2.year| && |d1.month| == |d2.month| && |d1.day| == |d2.day|
    ensures d1.year + d1.month + d1.day == d2.year + d2.month + d2.day <==> d1 == d2
  {
    if d1.year + d1.month + d1.day == d2.year + d2.month + d2.day {
      SplitEqual(d1.year + d1.month, d1.day, d2.year + d2.month, d2.day);
      SplitEqual(d1.year, d1.month, d2.year, d2.month);
    }
  }

  /** Two paths from one valid template are equal exactly when every category and date token in it
      has equal values; in particular, keys of different length never give the same path. */
  lemma EqualPaths(t: string, k1: string, s1: string, k2: string, s2: string)
    requires Accepted(t) && ParseDate(s1).Some? && ParseDate(s2).Some?
    ensures Path(t, k1, s1) == Path(t, k2, s2) <==>
      SameKeys(t, k1, k2) && SameDates(t, ParseDate(s1).value, ParseDate(s2).value)
  {
    if |k1| <= |k2| {
      EqualPathsOrdered(t, k1, s1, k2, s2);
    } else {
      EqualPathsOrdered(t, k2, s2, k1, s1);
    }
  }

  lemma EqualPathsOrdered(t: string, k1: string, s1: string, k2: string, s2: string)
    requires Accepted(t) && ParseDate(s1).Some? && ParseDate(s2).Some? && |k1| <= |k2|
    ensures Path(t, k1, s1) == Path(t, k2, s2) <==>
      SameKeys(t, k1, k2) && SameDates(t, ParseDate(s1).value, ParseDate(s2).value)
  {
    var (d1, d2) := (ParseDate(s1).value, ParseDate(s2).value);
    var (v, w) := (PathVars(k1, s1, d1), PathVars(k2, s2, d2));
    var pieces := Pieces(t);
    DateText(s1);
    DateText(s2);
    PathValues(k1, s1, d1);
    PathValues(k2, s2, d2);
    ConcatEqual(d1, d2);
    forall name | Uses(pieces, name)
      ensures name in {"category_key", "CATEGORY_KEY", "date", "YYYY", "MM", "DD", "YYYYMMDD"}
    {
      UsedIsToken(t, name);
      TokenNames(name);
    }
    FilledEqual(pieces, v, w);
    SameValues(pieces, k1, s1, d1, k2, s2, d2);
  }

  lemma SameValues(pieces: seq<Piece>, k1: string, s1: string, d1: DateParts, k2: string, s2: string, d2: DateParts)
    requires forall name | Uses(pieces, name) :: name in {"category_key", "CATEGORY_KEY", "date", "YYYY", "MM", "DD", "YYYYMMDD"}
    requires s1 == s2 <==> d1 == d2
    requires d1.year + d1.month + d1.day == d2.year + d2.month + d2.day <==> d1 == d2
    ensures (forall name | Uses(pieces, name) :: Value(PathVars(k1, s1, d1), name) == Value(PathVars(k2, s2, d2), name)) <==>
      && (Uses(pieces, "category_key") ==> k1 == k2) && (Uses(pieces, "CATEGORY_KEY") ==> Upper(k1) == Upper(k2))
      && (Uses(pieces, "date") || Uses(pieces, "YYYYMMDD") ==> d1 == d2)
      && (Uses(pieces, "YYYY") ==> d1.year == d2.year)
      && (Uses(pieces, "MM") ==> d1.month == d2.month)
      && (Uses(pieces, "DD") ==> d1.day == d2.day)
  {
    PathValues(k1, s1, d1);
    PathValues(k2, s2, d2);
  }

  lemma TokensBraceFree()
    ensures BraceFreeNames(PATH_TOKENS)
  {
    var p := PATH_TOKENS;
    assert BraceFree(p[0]) && BraceFree(p[1]) && BraceFree(p[2]) && BraceFree(p[3]);
    assert BraceFree(p[4]) && BraceFree(p[5]) && BraceFree(p[6]);
  }

  /** A token found in the text of a valid template is one of its placeholders. */
  lemma TokenIsUsed(t: string, tokens: seq<string>, name: string)
    requires Issues(Pieces(t), tokens) == [] && BraceFreeNames(tokens) && name in tokens
    ensures Contains(t, Hole(name)) <==> Uses(Pieces(t), name)
  {
    PiecesShape(t);
    NoIssues(Pieces(t), tokens);
    PiecesSource(t);
    ContainsHole(Pieces(t), tokens, name);
  }

  lemma TokensAreUsed(t: string)
    requires Accepted(t)
    ensures forall name | name in {"category_key", "CATEGORY_KEY", "date", "YYYY", "MM", "DD", "YYYYMMDD"} ::
      Contains(t, Hole(name)) <==> Uses(Pieces(t), name)
  {
    TokensBraceFree();
    forall name | name in {"category_key", "CATEGORY_KEY", "date", "YYYY", "MM", "DD", "YYYYMMDD"}
      ensures Contains(t, Hole(name)) <==> Uses(Pieces(t), name)
    {
      TokenNames(name);
      TokenIsUsed(t, PATH_TOKENS, name);
    }
  }

  /** With a template that passed validation, reports of different days never share a path, and on
      one day only categories whose keys the template does not tell apart do. */
  lemma PathsSeparate(t: string, k1: string, s1: string, k2: string, s2: string)
    requires Accepted(t) && HasDateToken(t) && ParseDate(s1).Some? && ParseDate(s2).Some?
    ensures Path(t, k1, s1) == Path(t, k2, s2) <==> s1 == s2 && SameKeys(t, k1, k2)
  {
    EqualPaths(t, k1, s1, k2, s2);
    TokensAreUsed(t);
    DateText(s1);
    DateText(s2);
  }

  /** A category token in the template is not enough to keep two categories apart: with the
      upper-case token alone, keys that differ in ASCII case only share their paths. */
  lemma CategoryTokenSeparates(t: string, k1: string, s1: string, k2: string, s2: string)
    requires Accepted(t) && HasDateToken(t) && HasCategoryToken(t) && k1 != k2
    requires ParseDate(s1).Some? && ParseDate(s2).Some?
    ensures Path(t, k1, s1) == Path(t, k2, s2) <==>
      s1 == s2 && !Contains(t, Hole("category_key")) && Upper(k1) == Upper(k2)
  {
    PathsSeparate(t, k1, s1, k2, s2);
    TokensAreUsed(t);
  }

  // ---- The sample rendering ----

  const SAMPLE_DATE := "2026-01-03"
  const SAMPLE := DateParts("2026", "01", "03")

  /** `render_path_template_sample`: one `replace` after another, in this order. */
  function Sample(t: string, key: string): string {
    Replace(Chain(t, PathVars(key, SAMPLE_DATE, SAMPLE)), "\\", "/")
  }

  lemma SampleIsGood()
    ensures GoodDate(SAMPLE)
  {
    TwoDigits("01");
    TwoDigits("03");
  }

  lemma SampleText()
    ensures SAMPLE_DATE == SAMPLE.year + "-" + SAMPLE.month + "-" + SAMPLE.day
  {
  }

  lemma SampleDateParses()
    ensures ParseDate(SAMPLE_DATE) == Some(SAMPLE)
  {
    SampleIsGood();
    SampleText();
    DateParses(SAMPLE_DATE, SAMPLE);
  }

  /** A key whose braces or backslashes cannot be taken for part of the template. */
  predicate PlainKey(key: string) { BraceFree(key) && '\\' !in key }

  lemma UpperPlain(key: string)
    requires PlainKey(key)
    ensures PlainKey(Upper(key))
  {
    forall i | 0 <= i < |key| ensures Upper(key)[i] !in "{}\\" {
      assert key[i] in key;
    }
  }

  lemma SampleVarsPlain(key: string)
    requires PlainKey(key)
    ensures forall i | 0 <= i < 7 :: PlainKey(PathVars(key, SAMPLE_DATE, SAMPLE)[i].1)
    ensures forall i | 0 <= i < 7 :: BraceFree(PathVars(key, SAMPLE_DATE, SAMPLE)[i].0)
  {
    UpperPlain(key);
    TokensBraceFree();
    var v := PathVars(key, SAMPLE_DATE, SAMPLE);
    forall i | 0 <= i < 7 ensures v[i].0 == PATH_TOKENS[i] {
    }
  }

  lemma ChainIsFilled(t: string, key: string)
    requires Accepted(t) && PlainKey(key)
    ensures Chain(t, PathVars(key, SAMPLE_DATE, SAMPLE)) == Filled(Pieces(t), PathVars(key, SAMPLE_DATE, SAMPLE))
  {
    AcceptedPieces(t);
    TokensBraceFree();
    SampleVarsPlain(key);
    ChainIsSimultaneous(Pieces(t), PATH_TOKENS, PathVars(key, SAMPLE_DATE, SAMPLE));
  }

  /** With braces in the key the two algorithms part: a key that reads as a date placeholder is
      expanded in the sample only. */
  lemma BracedKeyDiffers(t: string, key: string)
    requires t == Hole("category_key") && key == Hole("date")
    ensures Accepted(t) && Sample(t, key) == SAMPLE_DATE && Path(t, key, SAMPLE_DATE) == Some(key)
  {
    BracedKeyPath(t, key);
    BracedKeyChain(t, key);
    ChainIsSample(t, key, SAMPLE_DATE);
  }

  lemma ChainIsSample(t: string, key: string, s: string)
    requires Chain(t, PathVars(key, SAMPLE_DATE, SAMPLE)) == s && '\\' !in s
    ensures Sample(t, key) == s
  {
    NoBackslash(s);
  }

  lemma BracedKeyPath(t: string, key: string)
    requires t == Hole("category_key") && key == Hole("date")
    ensures Accepted(t) && Path(t, key, SAMPLE_DATE) == Some(key)
  {
    TokenNames("category_key");
    OneToken("category_key", PathVars(key, SAMPLE_DATE, SAMPLE));
    PathValues(key, SAMPLE_DATE, SAMPLE);
    SampleDateParses();
  }

  lemma NoBackslash(s: string)
    requires '\\' !in s
    ensures Replace(s, "\\", "/") == s
  {
    if Contains(s, "\\") {
      ContainsChars(s, "\\");
    }
    ReplaceAbsent(s, "\\", "/");
  }

  lemma OneToken(name: string, vars: Vars)
    requires name in PATH_TOKENS && name != ""
    ensures Accepted(Hole(name)) && Filled(Pieces(Hole(name)), vars) == Value(vars, name)
  {
    var p := [Placeholder(name)];
    assert Source(p) == Hole(name);
    TokensBraceFree();
    PiecesOfSource(p, PATH_TOKENS);
    assert Good(p[0], PATH_TOKENS);
    NoIssues(p, PATH_TOKENS);
    assert Filled(p, vars) == Value(vars, name) + "" == Value(vars, name);
  }

  lemma BracedKeyChain(t: string, key: string)
    requires t == Hole("category_key") && key == Hole("date")
    ensures Chain(t, PathVars(key, SAMPLE_DATE, SAMPLE)) == SAMPLE_DATE
  {
    var vars := PathVars(key, SAMPLE_DATE, SAMPLE);
    BracedKeyPutIn(t, key);
    BracedKeyExpands(key, vars[2..]);
  }

  lemma BracedKeyPutIn(t: string, key: string)
    requires t == Hole("category_key") && key == Hole("date")
    ensures var vars := PathVars(key, SAMPLE_DATE, SAMPLE); Chain(t, vars) == Chain(key, vars[2..])
  {
    var vars := PathVars(key, SAMPLE_DATE, SAMPLE);
    var q := [Placeholder("date")];
    assert Source(q) == key;
    TokensBraceFree();
    TokenNames("date");
    assert Good(q[0], PATH_TOKENS);
    ReplaceHit(t, "", key);
    assert t + "" == t && Replace(t, t, key) == key;
    ReplaceHole(q, PATH_TOKENS, "CATEGORY_KEY", Upper(key));
    assert Subst(q, "CATEGORY_KEY", Upper(key)) == q;
    assert vars[1..][1..] == vars[2..];
  }

  lemma BracedKeyExpands(key: string, later: Vars)
    requires key == Hole("date") && |later| == 5 && forall i | 0 <= i < 5 :: later[i] == PathVars("", SAMPLE_DATE, SAMPLE)[i + 2]
    ensures Chain(key, later) == SAMPLE_DATE
  {
    var q := [Placeholder("date")];
    assert Source(q) == key;
    TokensBraceFree();
    TokenNames("date");
    assert Good(q[0], PATH_TOKENS);
    SampleVarsPlain("");
    ChainIsSimultaneous(q, PATH_TOKENS, later);
    assert later[0] == ("date", SAMPLE_DATE);
    assert Filled(q, later) == SAMPLE_DATE;
  }
}
