/** Report paths as symbols: what of a path is fixed, and what is a digit of the date. */
module Symbols {
  import opened Wrappers
  import opened Text
  import opened Templates
  import opened Paths

  /** A fixed character, or one of the eight digits of year, month and day. */
  datatype Symbol = Fixed(c: char) | DateDigit(k: nat)

  function Literal(s: string): (r: seq<Symbol>)
    ensures |r| == |s| && forall i | 0 <= i < |s| :: r[i] == Fixed(s[i])
  {
    seq(|s|, i requires 0 <= i < |s| => Fixed(s[i]))
  }

  function DigitsFrom(from: nat, n: nat): (r: seq<Symbol>)
    ensures |r| == n && forall i | 0 <= i < n :: r[i] == DateDigit(from + i)
  {
    seq(n, i requires 0 <= i < n => DateDigit(from + i))
  }

  function PieceSymbols(p: Piece, key: string): seq<Symbol> {
    match p
    case Char(c) => [Fixed(c)]
    case Unclosed(rest) => Literal(rest)
    case Placeholder(name) =>
      if name == "category_key" then Literal(key)
      else if name == "CATEGORY_KEY" then Literal(Upper(key))
      else if name == "date" then DigitsFrom(0, 4) + [Fixed('-')] + DigitsFrom(4, 2) + [Fixed('-')] + DigitsFrom(6, 2)
      else if name == "YYYY" then DigitsFrom(0, 4)
      else if name == "MM" then DigitsFrom(4, 2)
      else if name == "DD" then DigitsFrom(6, 2)
      else if name == "YYYYMMDD" then DigitsFrom(0, 8)
      else Literal(Hole(name))
  }

  function SymbolsOf(pieces: seq<Piece>, key: string): seq<Symbol> {
    if pieces == [] then [] else PieceSymbols(pieces[0], key) + SymbolsOf(pieces[1..], key)
  }

  /** The symbols of a category's paths; no date is needed. */
  function PathSymbols(t: string, key: string): seq<Symbol> { SymbolsOf(Pieces(t), key) }

  function EvalOne(x: Symbol, digits: string): char {
    match x
    case Fixed(c) => c
    case DateDigit(k) => if k < |digits| then digits[k] else '?'
  }

  function Eval(symbols: seq<Symbol>, digits: string): (r: string)
    ensures |r| == |symbols| && forall i | 0 <= i < |r| :: r[i] == EvalOne(symbols[i], digits)
  {
    seq(|symbols|, i requires 0 <= i < |symbols| => EvalOne(symbols[i], digits))
  }

  lemma EvalConcat(a: seq<Symbol>, b: seq<Symbol>, digits: string)
    ensures Eval(a + b, digits) == Eval(a, digits) + Eval(b, digits)
  {
  }

  lemma EvalDigits(from: nat, n: nat, digits: string)
    requires from + n <= |digits|
    ensures Eval(DigitsFrom(from, n), digits) == digits[from..from + n]
  {
  }

  lemma EvalLiteral(s: string, digits: string)
    ensures Eval(Literal(s), digits) == s
  {
  }

  function DateDigits(d: DateParts): string { d.year + d.month + d.day }

  lemma EvalParts(d: DateParts)
    requires GoodDate(d)
    ensures var x := DateDigits(d);
      && |x| == 8
      && Eval(DigitsFrom(0, 4), x) == d.year && Eval(DigitsFrom(4, 2), x) == d.month
      && Eval(DigitsFrom(6, 2), x) == d.day && Eval(DigitsFrom(0, 8), x) == x
  {
    var x := DateDigits(d);
    EvalDigits(0, 4, x);
    EvalDigits(4, 2, x);
    EvalDigits(6, 2, x);
    EvalDigits(0, 8, x);
    assert x[0..4] == d.year && x[4..6] == d.month && x[6..8] == d.day && x[0..8] == x;
  }

  lemma EvalDate(d: DateParts)
    requires GoodDate(d)
    ensures Eval(DigitsFrom(0, 4) + [Fixed('-')] + DigitsFrom(4, 2) + [Fixed('-')] + DigitsFrom(6, 2), DateDigits(d))
         == d.year + "-" + d.month + "-" + d.day
  {
    var (x, dash) := (DateDigits(d), [Fixed('-')]);
    var (y, m, e) := (DigitsFrom(0, 4), DigitsFrom(4, 2), DigitsFrom(6, 2));
    EvalParts(d);
    assert Eval(dash, x) == "-";
    EvalConcat(y, dash, x);
    EvalConcat(y + dash, m, x);
    EvalConcat(y + dash + m, dash, x);
    EvalConcat(y + dash + m + dash, e, x);
  }

  lemma PieceEval(p: Piece, key: string, s: string)
    requires ParseDate(s).Some? && (p.Placeholder? ==> p.name in PATH_TOKENS)
    ensures var d := ParseDate(s).value;
      Eval(PieceSymbols(p, key), DateDigits(d)) == FilledPiece(p, PathVars(key, s, d))
  {
    var d := ParseDate(s).value;
    var x := DateDigits(d);
    DateText(s);
    if p.Placeholder? {
      TokenNames(p.name);
      PathValues(key, s, d);
      EvalParts(d);
      EvalDate(d);
      EvalLiteral(key, x);
      EvalLiteral(Upper(key), x);
    } else {
      EvalLiteral(PieceText(p), x);
    }
  }

  lemma {:induction false} PiecesEval(pieces: seq<Piece>, key: string, s: string)
    requires ParseDate(s).Some? && AllGood(pieces, PATH_TOKENS)
    ensures var d := ParseDate(s).value;
      Eval(SymbolsOf(pieces, key), DateDigits(d)) == Filled(pieces, PathVars(key, s, d))
  {
    if pieces != [] {
      var d := ParseDate(s).value;
      assert Good(pieces[0], PATH_TOKENS);
      PieceEval(pieces[0], key, s);
      PiecesEval(pieces[1..], key, s);
      EvalConcat(PieceSymbols(pieces[0], key), SymbolsOf(pieces[1..], key), DateDigits(d));
    }
  }

  /** A path is its symbols with the digits of the date in them. */
  lemma PathIsEval(t: string, key: string, s: string)
    requires Accepted(t) && ParseDate(s).Some?
    ensures Path(t, key, s) == Some(Eval(PathSymbols(t, key), DateDigits(ParseDate(s).value)))
  {
    AcceptedPieces(t);
    PiecesEval(Pieces(t), key, s);
  }

  // ---- Days ----

  datatype Day = Day(year: nat, month: nat, day: nat)

  predicate RealDay(d: Day) {
    d.year < 10000 && 1 <= d.month <= 12 && 1 <= d.day <= DaysIn(d.year, d.month)
  }

  function Two(n: nat): (s: string)
    requires n < 100
    ensures |s| == 2 && AllDigits(s)
  {
    [Text.Digit(n / 10), Text.Digit(n % 10)]
  }

  function Four(n: nat): (s: string)
    requires n < 10000
    ensures |s| == 4 && AllDigits(s)
  {
    Two(n / 100) + Two(n % 100)
  }

  lemma TwoValue(n: nat)
    requires n < 100
    ensures DecimalValue(Two(n)) == n
  {
    TwoDigits(Two(n));
  }

  lemma ValueTwo(s: string)
    requires |s| == 2 && AllDigits(s)
    ensures DecimalValue(s) < 100 && Two(DecimalValue(s)) == s
  {
    TwoDigits(s);
    assert IsDigit(s[0]) && IsDigit(s[1]);
    var n := DecimalValue(s);
    assert n / 10 == s[0] as int - 48 && n % 10 == s[1] as int - 48;
  }

  lemma FourDigits(s: string)
    requires |s| == 4 && AllDigits(s)
    ensures DecimalValue(s) == 100 * DecimalValue(s[..2]) + DecimalValue(s[2..])
  {
    TwoDigits(s[..2]);
    TwoDigits(s[2..]);
    assert s[..3][..2] == s[..2];
    assert DecimalValue(s[..3]) == 10 * DecimalValue(s[..2]) + (s[2] as int - 48);
  }

  lemma FourValue(n: nat)
    requires n < 10000
    ensures DecimalValue(Four(n)) == n
  {
    FourDigits(Four(n));
    TwoValue(n / 100);
    TwoValue(n % 100);
    assert Four(n)[..2] == Two(n / 100) && Four(n)[2..] == Two(n % 100);
  }

  lemma ValueFour(s: string)
    requires |s| == 4 && AllDigits(s)
    ensures DecimalValue(s) < 10000 && Four(DecimalValue(s)) == s
  {
    FourDigits(s);
    var (h, l) := (s[..2], s[2..]);
    ValueTwo(h);
    ValueTwo(l);
    Hundreds(DecimalValue(h), DecimalValue(l));
    assert s == h + l;
  }

  lemma Hundreds(h: nat, l: nat)
    requires h < 100 && l < 100
    ensures (100 * h + l) / 100 == h && (100 * h + l) % 100 == l && 100 * h + l < 10000
  {
  }

  function DayParts(d: Day): DateParts
    requires RealDay(d)
  {
    DateParts(Four(d.year), Two(d.month), Two(d.day))
  }

  function DayText(d: Day): string
    requires RealDay(d)
  {
    var p := DayParts(d); p.year + "-" + p.month + "-" + p.day
  }

  function DayDigits(d: Day): string
    requires RealDay(d)
  {
    DateDigits(DayParts(d))
  }

  /** Dates are days, written out. */
  lemma DayIsDate(d: Day)
    requires RealDay(d)
    ensures ParseDate(DayText(d)) == Some(DayParts(d))
  {
    FourValue(d.year);
    TwoValue(d.month);
    TwoValue(d.day);
    DateParses(DayText(d), DayParts(d));
  }

  lemma DateIsDay(s: string) returns (d: Day)
    requires ParseDate(s).Some?
    ensures RealDay(d) && DayText(d) == s && DayParts(d) == ParseDate(s).value
  {
    var p := ParseDate(s).value;
    DateText(s);
    ValueFour(p.year);
    ValueTwo(p.month);
    ValueTwo(p.day);
    d := Day(DecimalValue(p.year), DecimalValue(p.month), DecimalValue(p.day));
  }

  // ---- When paths of different templates meet ----

  /** Place by place, the symbols read the same on these days. */
  predicate Meet(a: seq<Symbol>, b: seq<Symbol>, x: string, y: string) {
    |a| == |b| && forall i | 0 <= i < |a| :: EvalOne(a[i], x) == EvalOne(b[i], y)
  }

  lemma MeetIsEqual(a: seq<Symbol>, b: seq<Symbol>, x: string, y: string)
    ensures Meet(a, b, x, y) <==> Eval(a, x) == Eval(b, y)
  {
    var (u, v) := (Eval(a, x), Eval(b, y));
    if u == v {
      assert |a| == |b|;
      forall i | 0 <= i < |a| ensures EvalOne(a[i], x) == EvalOne(b[i], y) {
        assert u[i] == v[i];
      }
    }
  }

  /** Some day of the calendar solves the equations of all places. */
  predicate MayMeet(a: seq<Symbol>, b: seq<Symbol>) {
    |a| == |b| && exists year, month, day | 0 <= year < 10000 && 1 <= month <= 12 && 1 <= day <= DaysIn(year, month) ::
      Meet(a, b, DayDigits(Day(year, month, day)), DayDigits(Day(year, month, day)))
  }

  /** Two categories, with whatever templates, have the same path on some day exactly if the places of
      their symbols agree for some day: what validation could check without rendering a path. */
  lemma CollideExactly(t1: string, k1: string, t2: string, k2: string)
    requires Accepted(t1) && Accepted(t2)
    ensures (exists s | ParseDate(s).Some? :: Path(t1, k1, s) == Path(t2, k2, s)) <==>
      MayMeet(PathSymbols(t1, k1), PathSymbols(t2, k2))
  {
    var (a, b) := (PathSymbols(t1, k1), PathSymbols(t2, k2));
    if s :| ParseDate(s).Some? && Path(t1, k1, s) == Path(t2, k2, s) {
      var d := DateIsDay(s);
      PathIsEval(t1, k1, s);
      PathIsEval(t2, k2, s);
      MeetIsEqual(a, b, DayDigits(d), DayDigits(d));
      assert Meet(a, b, DayDigits(Day(d.year, d.month, d.day)), DayDigits(Day(d.year, d.month, d.day)));
    }
    if MayMeet(a, b) {
      var year, month, day :| 0 <= year < 10000 && 1 <= month <= 12 && 1 <= day <= DaysIn(year, month) &&
        Meet(a, b, DayDigits(Day(year, month, day)), DayDigits(Day(year, month, day)));
      var d := Day(year, month, day);
      DayIsDate(d);
      PathIsEval(t1, k1, DayText(d));
      PathIsEval(t2, k2, DayText(d));
      MeetIsEqual(a, b, DayDigits(d), DayDigits(d));
      assert ParseDate(DayText(d)).Some?;
    }
  }

  /** Two reports, of whatever categories and days, have the same path exactly if the places agree. */
  lemma SamePathExactly(t1: string, k1: string, s1: string, t2: string, k2: string, s2: string)
    requires Accepted(t1) && Accepted(t2) && ParseDate(s1).Some? && ParseDate(s2).Some?
    ensures Path(t1, k1, s1) == Path(t2, k2, s2) <==>
      Meet(PathSymbols(t1, k1), PathSymbols(t2, k2), DateDigits(ParseDate(s1).value), DateDigits(ParseDate(s2).value))
  {
    PathIsEval(t1, k1, s1);
    PathIsEval(t2, k2, s2);
    MeetIsEqual(PathSymbols(t1, k1), PathSymbols(t2, k2), DateDigits(ParseDate(s1).value), DateDigits(ParseDate(s2).value));
  }

  /** Two symbols that are never the same. */
  predicate Clash(a: Symbol, b: Symbol) {
    match (a, b)
    case (Fixed(c), Fixed(e)) => c != e
    case (Fixed(c), DateDigit(_)) => !IsDigit(c)
    case (DateDigit(_), Fixed(c)) => !IsDigit(c)
    case (DateDigit(_), DateDigit(_)) => false
  }

  predicate Apart(a: seq<Symbol>, b: seq<Symbol>) {
    |a| != |b| || exists i | 0 <= i < |a| :: Clash(a[i], b[i])
  }

  predicate InRange(symbols: seq<Symbol>) {
    forall i | 0 <= i < |symbols| && symbols[i].DateDigit? :: symbols[i].k < 8
  }

  lemma {:induction false} SymbolsInRange(pieces: seq<Piece>, key: string)
    ensures InRange(SymbolsOf(pieces, key))
  {
    if pieces != [] {
      SymbolsInRange(pieces[1..], key);
      PieceInRange(pieces[0], key);
    }
  }

  lemma PieceInRange(p: Piece, key: string)
    ensures InRange(PieceSymbols(p, key))
  {
  }

  /** Paths of different length, with different characters at one place, or with a character that is no
      digit where the other has a digit of the date, never meet on any two days. */
  lemma ApartNeverMeet(t1: string, k1: string, s1: string, t2: string, k2: string, s2: string)
    requires Accepted(t1) && Accepted(t2) && ParseDate(s1).Some? && ParseDate(s2).Some?
    requires Apart(PathSymbols(t1, k1), PathSymbols(t2, k2))
    ensures Path(t1, k1, s1) != Path(t2, k2, s2)
  {
    SamePathExactly(t1, k1, s1, t2, k2, s2);
    SymbolsInRange(Pieces(t1), k1);
    SymbolsInRange(Pieces(t2), k2);
    EightDigits(s1);
    EightDigits(s2);
    ApartDiffer(PathSymbols(t1, k1), PathSymbols(t2, k2), DateDigits(ParseDate(s1).value), DateDigits(ParseDate(s2).value));
  }

  lemma EightDigits(s: string)
    requires ParseDate(s).Some?
    ensures var x := DateDigits(ParseDate(s).value); |x| == 8 && AllDigits(x)
  {
    DateText(s);
  }

  lemma ClashDiffers(a: Symbol, b: Symbol, x: string, y: string)
    requires |x| == 8 && |y| == 8 && AllDigits(x) && AllDigits(y) && Clash(a, b)
    requires (a.DateDigit? ==> a.k < 8) && (b.DateDigit? ==> b.k < 8)
    ensures EvalOne(a, x) != EvalOne(b, y)
  {
  }

  lemma ApartDiffer(a: seq<Symbol>, b: seq<Symbol>, x: string, y: string)
    requires |x| == 8 && |y| == 8 && AllDigits(x) && AllDigits(y) && InRange(a) && InRange(b) && Apart(a, b)
    ensures !Meet(a, b, x, y)
  {
    if |a| == |b| {
      var i :| 0 <= i < |a| && Clash(a[i], b[i]);
      ClashDiffers(a[i], b[i], x, y);
    }
  }
}
