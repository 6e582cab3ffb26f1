/** Report paths stay inside the publish root, and which of them the publisher accepts. */
module PathSafety {
  import opened Wrappers
  import opened Text
  import opened Templates
  import opened Paths
  import Github

  // ---- What validation checks ----

  /** A relative path (on Unix) without a component that leads to the parent directory. */
  predicate Inside(path: string) {
    (path == "" || path[0] != '/') && ".." !in Split(path, '/')
  }

  const SAMPLE_KEY := "ai_ml"

  /** `validate_path_template`, the part that is about the shape of the path. */
  predicate SafeTemplate(t: string) {
    '\\' !in t && !Contains(t, "..") && Inside(Chain(t, PathVars(SAMPLE_KEY, SAMPLE_DATE, SAMPLE)))
  }

  /** `validate_category_key_path_safety`: the key is one ordinary path component. */
  predicate SafeKey(key: string) {
    '/' !in key && '\\' !in key && key != "" && key != "." && key != ".."
  }

  // ---- Components, read from left to right ----

  /** What has been read of a component: nothing, one dot, two dots, or anything else. */
  datatype Progress = Nothing | OneDot | TwoDots | Other

  function Next(p: Progress, c: char): Progress {
    if c == '/' then Nothing
    else if c != '.' then Other
    else match p
      case Nothing => OneDot
      case OneDot => TwoDots
      case _ => Other
  }

  /** A component of two dots is completed somewhere in `s`. */
  predicate HasParent(s: string, p: Progress) {
    if s == "" then p == TwoDots
    else (s[0] == '/' && p == TwoDots) || HasParent(s[1..], Next(p, s[0]))
  }

  /** Nothing more than `rest` is missing from two dots. */
  predicate Completes(p: Progress, rest: string) {
    match p
    case Nothing => rest == ".."
    case OneDot => rest == "."
    case TwoDots => rest == ""
    case Other => false
  }

  lemma CompletesStep(p: Progress, c: char, rest: string)
    requires c != '/'
    ensures Completes(p, [c] + rest) <==> Completes(Next(p, c), rest)
  {
    assert ([c] + rest)[0] == c && ([c] + rest)[1..] == rest;
    assert ".."[1..] == "." && "."[1..] == "";
  }

  lemma {:induction false} HasParentMeaning(s: string, p: Progress)
    ensures var parts := Split(s, '/');
      HasParent(s, p) <==> ".." in parts[1..] || Completes(p, parts[0])
  {
    if s != "" {
      var rest := Split(s[1..], '/');
      HasParentMeaning(s[1..], Next(p, s[0]));
      if s[0] == '/' {
        assert Split(s, '/')[1..] == rest == [rest[0]] + rest[1..];
      } else {
        CompletesStep(p, s[0], rest[0]);
      }
    }
  }

  // ---- Every path of a validated template stays inside ----

  /** A text that no surrounding dots can turn into two dots. */
  predicate Solid(v: string) {
    '/' !in v && v != "" && v != "." && v != ".."
  }

  function After(v: string, p: Progress): Progress {
    if v == "" then p else After(v[1..], Next(p, v[0]))
  }

  lemma {:induction false} HasParentAfter(v: string, rest: string, p: Progress)
    requires '/' !in v
    ensures HasParent(v + rest, p) <==> HasParent(rest, After(v, p))
  {
    if v == "" {
      assert v + rest == rest;
    } else {
      assert v[0] in v && (v + rest)[1..] == v[1..] + rest;
      HasParentAfter(v[1..], rest, Next(p, v[0]));
    }
  }

  lemma {:induction false} OtherStays(v: string)
    requires '/' !in v
    ensures After(v, Other) == Other
  {
    if v != "" {
      assert v[0] in v;
      OtherStays(v[1..]);
    }
  }

  lemma SolidIsOther(v: string, p: Progress)
    requires Solid(v) && p != TwoDots
    ensures After(v, p) == Other
  {
    assert v[0] in v && v == [v[0]] + v[1..];
    var (u, q) := (v[1..], Next(p, v[0]));
    if q == Other {
      OtherStays(u);
    } else if u != "" {
      assert u[0] in v && u == [u[0]] + u[1..];
      if Next(q, u[0]) == Other {
        OtherStays(u[1..]);
      } else {
        var w := u[1..];
        assert w != "" && w[0] in v;
        OtherStays(w[1..]);
        assert After(v, p) == After(u, q) == After(w, TwoDots) == After(w[1..], Other);
      }
    }
  }

  /** No dot stands next to a dot. */
  predicate SingleDots(pieces: seq<Piece>) {
    forall i | 0 <= i < |pieces| - 1 :: !(pieces[i] == Char('.') && pieces[i + 1] == Char('.'))
  }

  /** Every value put in is solid. */
  predicate SolidValues(pieces: seq<Piece>, vars: Vars) {
    forall i | 0 <= i < |pieces| && !pieces[i].Char? :: Solid(FilledPiece(pieces[i], vars))
  }

  lemma {:induction false} FilledInside(pieces: seq<Piece>, vars: Vars, p: Progress)
    requires SingleDots(pieces) && SolidValues(pieces, vars)
    requires p != TwoDots && (p == OneDot && pieces != [] ==> pieces[0] != Char('.'))
    ensures !HasParent(Filled(pieces, vars), p)
  {
    if pieces != [] {
      var (text, rest) := (FilledPiece(pieces[0], vars), Filled(pieces[1..], vars));
      if pieces[0].Char? {
        assert (text + rest)[1..] == rest;
        FilledInside(pieces[1..], vars, Next(p, pieces[0].c));
      } else {
        FilledInside(pieces[1..], vars, Other);
        SolidIsOther(text, p);
        HasParentAfter(text, rest, p);
      }
    }
  }

  lemma {:induction false} SourceConcat(a: seq<Piece>, b: seq<Piece>)
    ensures Source(a + b) == Source(a) + Source(b)
  {
    if a == [] {
      assert a + b == b;
    } else {
      assert (a + b)[1..] == a[1..] + b;
      SourceConcat(a[1..], b);
    }
  }

  lemma NoDoubleDots(pieces: seq<Piece>)
    requires !Contains(Source(pieces), "..")
    ensures SingleDots(pieces)
  {
    forall i | 0 <= i < |pieces| - 1 ensures !(pieces[i] == Char('.') && pieces[i + 1] == Char('.')) {
      if pieces[i] == Char('.') && pieces[i + 1] == Char('.') {
        var tail := pieces[i..];
        assert pieces == pieces[..i] + tail;
        SourceConcat(pieces[..i], tail);
        assert Source(tail) == "." + ("." + Source(tail[1..][1..]));
        assert OccursAt(Source(tail), "..", 0);
        ContainsSuffixed(Source(pieces[..i]), Source(tail), "..");
      }
    }
  }

  lemma ValuesSolid(t: string, key: string, date: string)
    requires Accepted(t) && SafeKey(key) && ParseDate(date).Some?
    ensures SolidValues(Pieces(t), PathVars(key, date, ParseDate(date).value))
  {
    var d := ParseDate(date).value;
    var pieces := Pieces(t);
    AcceptedPieces(t);
    PathValues(key, date, d);
    DateText(date);
    DigitsSolid(d);
    UpperSafe(key);
    forall i | 0 <= i < |pieces| && !pieces[i].Char? ensures Solid(FilledPiece(pieces[i], PathVars(key, date, d))) {
      assert Good(pieces[i], PATH_TOKENS);
      TokenNames(pieces[i].name);
    }
  }

  lemma DigitsSolid(d: DateParts)
    requires |d.year| == 4 && |d.month| == 2 && |d.day| == 2
    requires AllDigits(d.year) && AllDigits(d.month) && AllDigits(d.day)
    ensures Solid(d.year) && Solid(d.month) && Solid(d.day)
    ensures Solid(d.year + "-" + d.month + "-" + d.day) && Solid(d.year + d.month + d.day)
  {
    assert d.month[0] != '.' && d.day[0] != '.';
  }

  lemma UpperSafe(key: string)
    requires SafeKey(key)
    ensures Solid(Upper(key))
  {
    var u := Upper(key);
    forall i | 0 <= i < |key| ensures u[i] != '/' && (u[i] == '.' <==> key[i] == '.') {
      assert key[i] in key;
    }
    assert key != "." ==> |key| != 1 || key[0] != '.';
    assert key != ".." ==> |key| != 2 || key[0] != '.' || key[1] != '.';
  }

  /** Text that starts at the root does so because the template does: no value starts with a slash. */
  lemma StartsAtRoot(pieces: seq<Piece>, vars: Vars)
    requires SolidValues(pieces, vars)
    ensures Filled(pieces, vars) != "" && Filled(pieces, vars)[0] == '/' <==> pieces != [] && pieces[0] == Char('/')
  {
    if pieces != [] && !pieces[0].Char? {
      var text := FilledPiece(pieces[0], vars);
      assert Solid(text) && text[0] in text;
    }
  }

  lemma ParentMeaning(path: string)
    ensures HasParent(path, Nothing) <==> ".." in Split(path, '/')
  {
    HasParentMeaning(path, Nothing);
    var parts := Split(path, '/');
    assert parts == [parts[0]] + parts[1..];
  }

  /** The one sample key stands for every safe key: whatever the key and the day, the path of a
      validated template is relative and leads to no parent directory. */
  lemma PathInside(t: string, key: string, date: string)
    requires Accepted(t) && SafeTemplate(t) && SafeKey(key) && ParseDate(date).Some?
    ensures Inside(Path(t, key, date).value)
  {
    var vars := PathVars(key, date, ParseDate(date).value);
    ValuesSolid(t, key, date);
    StartsAtRoot(Pieces(t), vars);
    SampleStartsAtRoot(t);
    AcceptedPieces(t);
    NoDoubleDots(Pieces(t));
    FilledInside(Pieces(t), vars, Nothing);
    ParentMeaning(Path(t, key, date).value);
  }

  lemma SampleKeySafe()
    ensures SafeKey(SAMPLE_KEY) && PlainKey(SAMPLE_KEY)
  {
  }

  lemma RelativeTemplate(t: string, vars: Vars, sample: string)
    requires SolidValues(Pieces(t), vars) && sample == Filled(Pieces(t), vars) && Inside(sample)
    ensures Pieces(t) == [] || Pieces(t)[0] != Char('/')
  {
    StartsAtRoot(Pieces(t), vars);
  }

  lemma SampleStartsAtRoot(t: string)
    requires Accepted(t) && SafeTemplate(t)
    ensures Pieces(t) == [] || Pieces(t)[0] != Char('/')
  {
    var vars := PathVars(SAMPLE_KEY, SAMPLE_DATE, SAMPLE);
    SampleDateParses();
    SampleKeySafe();
    ValuesSolid(t, SAMPLE_KEY, SAMPLE_DATE);
    ChainIsFilled(t, SAMPLE_KEY);
    RelativeTemplate(t, vars, Chain(t, vars));
  }

  // ---- What the publisher accepts ----

  predicate IsKey(p: Piece) {
    p == Placeholder("category_key") || p == Placeholder("CATEGORY_KEY")
  }

  predicate StartsWithDot(p: Piece, key: string) {
    p == Char('.') || (IsKey(p) && key != "" && key[0] == '.')
  }

  predicate EndsWithDot(p: Piece, key: string) {
    p == Char('.') || (IsKey(p) && key != "" && key[|key| - 1] == '.')
  }

  /** Two dots meet in a path: within the key, or where two pieces of the template touch. */
  predicate DotsMeet(pieces: seq<Piece>, key: string) {
    pieces != [] &&
    ((IsKey(pieces[0]) && Contains(key, "..")) ||
     (|pieces| > 1 && EndsWithDot(pieces[0], key) && StartsWithDot(pieces[1], key)) ||
     DotsMeet(pieces[1..], key))
  }

  lemma DotsConcat(a: string, b: string)
    requires a != ""
    ensures Contains(a + b, "..") <==>
      Contains(a, "..") || Contains(b, "..") || (b != "" && a[|a| - 1] == '.' && b[0] == '.')
  {
    var s := a + b;
    if Contains(a, "..") {
      ContainsPrefixed(a, b, "..");
    }
    if Contains(b, "..") {
      ContainsSuffixed(a, b, "..");
    }
    if b != "" && a[|a| - 1] == '.' && b[0] == '.' {
      assert s[|a| - 1..|a| + 1] == "..";
      assert OccursAt(s, "..", |a| - 1);
    }
    if i :| 0 <= i <= |s| && OccursAt(s, "..", i) {
      OccursAtChar(s, "..", i, 0);
      OccursAtChar(s, "..", i, 1);
      if i + 2 <= |a| {
        assert a[i..i + 2] == s[i..i + 2];
        assert OccursAt(a, "..", i);
      } else if i >= |a| {
        assert b[i - |a|..i - |a| + 2] == s[i..i + 2];
        assert OccursAt(b, "..", i - |a|);
      }
    }
  }

  /** What a piece puts into the path begins and ends with a dot, or has two, as the key says. */
  predicate DotsOf(text: string, p: Piece, key: string) {
    && text != ""
    && (text[0] == '.' <==> StartsWithDot(p, key))
    && (text[|text| - 1] == '.' <==> EndsWithDot(p, key))
    && (Contains(text, "..") <==> IsKey(p) && Contains(key, ".."))
  }

  lemma {:induction false} FilledDots(pieces: seq<Piece>, vars: Vars, key: string)
    requires forall i | 0 <= i < |pieces| :: DotsOf(FilledPiece(pieces[i], vars), pieces[i], key)
    ensures Contains(Filled(pieces, vars), "..") <==> DotsMeet(pieces, key)
  {
    if pieces != [] {
      var (text, rest) := (FilledPiece(pieces[0], vars), Filled(pieces[1..], vars));
      FilledDots(pieces[1..], vars, key);
      DotsConcat(text, rest);
      assert DotsOf(text, pieces[0], key);
      if |pieces| > 1 {
        assert DotsOf(FilledPiece(pieces[1], vars), pieces[1], key);
        assert rest[0] == FilledPiece(pieces[1], vars)[0];
      }
    } else {
      assert !Contains("", "..");
    }
  }

  lemma NoDotNoDots(text: string)
    requires '.' !in text
    ensures !Contains(text, "..")
  {
    assert '.' in "..";
    if Contains(text, "..") {
      ContainsChars(text, "..");
    }
  }

  lemma CharDots(c: char, key: string)
    ensures DotsOf([c], Char(c), key)
  {
  }

  lemma DateDots(text: string, p: Piece, key: string)
    requires text != "" && '.' !in text && p.Placeholder? && !IsKey(p)
    ensures DotsOf(text, p, key)
  {
    assert text[0] in text && text[|text| - 1] in text;
    NoDotNoDots(text);
  }

  lemma UpperDots(key: string)
    ensures Contains(Upper(key), "..") <==> Contains(key, "..")
  {
    var u := Upper(key);
    forall i ensures OccursAt(u, "..", i) <==> OccursAt(key, "..", i) {
      if 0 <= i && i + 2 <= |key| {
        assert u[i..i + 2] == [u[i], u[i + 1]] && key[i..i + 2] == [key[i], key[i + 1]];
      }
    }
  }

  lemma KeyDots(p: Piece, key: string)
    requires IsKey(p) && SafeKey(key)
    ensures DotsOf(key, p, key) && DotsOf(Upper(key), p, key)
  {
    UpperDots(key);
  }

  lemma DateWithoutDots(date: string)
    requires ParseDate(date).Some?
    ensures var d := ParseDate(date).value;
      '.' !in date && '.' !in d.year && '.' !in d.month && '.' !in d.day && '.' !in d.year + d.month + d.day
    ensures var d := ParseDate(date).value; date != "" && d.year != "" && d.month != "" && d.day != ""
  {
    DateText(date);
  }

  lemma PieceDots(t: string, key: string, date: string, i: nat)
    requires Accepted(t) && SafeKey(key) && ParseDate(date).Some? && i < |Pieces(t)|
    ensures DotsOf(FilledPiece(Pieces(t)[i], PathVars(key, date, ParseDate(date).value)), Pieces(t)[i], key)
  {
    var (p, d) := (Pieces(t)[i], ParseDate(date).value);
    AcceptedPieces(t);
    assert Good(p, PATH_TOKENS);
    if p.Char? {
      CharDots(p.c, key);
    } else {
      PathValues(key, date, d);
      if IsKey(p) {
        KeyDots(p, key);
      } else {
        TokenNames(p.name);
        DateWithoutDots(date);
        DateDots(Value(PathVars(key, date, d), p.name), p, key);
      }
    }
  }

  /** Validation lets through paths that the publisher refuses: exactly those in which dots meet,
      for which template and key decide alone, before any date. */
  lemma PublisherAccepts(t: string, key: string, date: string)
    requires Accepted(t) && HasDateToken(t) && SafeTemplate(t) && SafeKey(key) && ParseDate(date).Some?
    ensures Github.ValidPart(Path(t, key, date).value) <==> !DotsMeet(Pieces(t), key)
  {
    var vars := PathVars(key, date, ParseDate(date).value);
    PathInside(t, key, date);
    TokensAreUsed(t);
    forall i | 0 <= i < |Pieces(t)| ensures DotsOf(FilledPiece(Pieces(t)[i], vars), Pieces(t)[i], key) {
      PieceDots(t, key, date, i);
    }
    FilledDots(Pieces(t), vars, key);
    assert Pieces(t) != [];
  }

  /** For instance, a key such as "a..b" is a safe key, and no report of it is ever published. */
  lemma DottedKeyRefused(t: string, key: string, date: string)
    requires Accepted(t) && HasDateToken(t) && SafeTemplate(t) && ParseDate(date).Some?
    requires Placeholder("category_key") in Pieces(t) && SafeKey(key) && Contains(key, "..")
    ensures !Github.ValidPart(Path(t, key, date).value)
  {
    KeyDotsMeet(Pieces(t), key);
    PublisherAccepts(t, key, date);
  }

  lemma {:induction false} KeyDotsMeet(pieces: seq<Piece>, key: string)
    requires Placeholder("category_key") in pieces && Contains(key, "..")
    ensures DotsMeet(pieces, key)
  {
    if !IsKey(pieces[0]) {
      KeyDotsMeet(pieces[1..], key);
    }
  }
}
