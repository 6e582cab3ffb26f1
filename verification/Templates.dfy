/** Report templates: literal text with `{name}` placeholders. */
module Templates {
  import opened Wrappers
  import opened Text

  /** A template as it is read from left to right; `Unclosed` is all that follows an opening brace
      that is never closed. */
  datatype Piece = Char(c: char) | Placeholder(name: string) | Unclosed(rest: string)

  function Hole(name: string): string { "{" + name + "}" }

  function Pieces(t: string): seq<Piece>
    decreases |t|
  {
    if t == "" then []
    else if t[0] != '{' then [Char(t[0])] + Pieces(t[1..])
    else
      var end := IndexOf(t[1..], '}');
      if end.None? then [Unclosed(t)]
      else [Placeholder(t[1..1 + end.value])] + Pieces(t[2 + end.value..])
  }

  function PieceText(p: Piece): string {
    match p
    case Char(c) => [c]
    case Placeholder(name) => Hole(name)
    case Unclosed(rest) => rest
  }

  /** The template that these pieces are. */
  function Source(pieces: seq<Piece>): string {
    if pieces == [] then "" else PieceText(pieces[0]) + Source(pieces[1..])
  }

  lemma SourceCons(p: Piece, rest: seq<Piece>)
    ensures Source([p] + rest) == PieceText(p) + Source(rest)
  {
    assert ([p] + rest)[1..] == rest;
  }

  lemma HoleSplits(t: string, end: nat)
    requires t != "" && t[0] == '{' && end + 1 < |t| && t[1 + end] == '}'
    ensures t == Hole(t[1..1 + end]) + t[2 + end..]
  {
  }

  lemma SourceOfChar(t: string)
    requires t != "" && t[0] != '{'
    ensures Source(Pieces(t)) == t
    decreases |t|, 0
  {
    PiecesSource(t[1..]);
    SourceCons(Char(t[0]), Pieces(t[1..]));
    assert [t[0]] + t[1..] == t;
  }

  lemma SourceOfHole(t: string, end: nat)
    requires t != "" && t[0] == '{' && IndexOf(t[1..], '}') == Some(end)
    ensures Source(Pieces(t)) == t
    decreases |t|, 0
  {
    PiecesSource(t[2 + end..]);
    SourceCons(Placeholder(t[1..1 + end]), Pieces(t[2 + end..]));
    HoleSplits(t, end);
  }

  lemma SourceOfUnclosed(t: string)
    requires t != "" && t[0] == '{' && IndexOf(t[1..], '}').None?
    ensures Source(Pieces(t)) == t
  {
    SourceCons(Unclosed(t), []);
    assert [Unclosed(t)] + [] == [Unclosed(t)] && t + "" == t;
  }

  /** Reading loses nothing. */
  lemma {:induction false} PiecesSource(t: string)
    ensures Source(Pieces(t)) == t
    decreases |t|, 1
  {
    if t != "" {
      if t[0] != '{' {
        SourceOfChar(t);
      } else {
        var end := IndexOf(t[1..], '}');
        if end.Some? {
          SourceOfHole(t, end.value);
        } else {
          SourceOfUnclosed(t);
        }
      }
    }
  }

  // ---- Rendering ----

  type Vars = seq<(string, string)>

  /** `vars.iter().find(|(key, _)| key == name)`. */
  function Lookup(vars: Vars, name: string): Option<string> {
    if vars == [] then None
    else if vars[0].0 == name then Some(vars[0].1)
    else Lookup(vars[1..], name)
  }

  lemma {:induction false} LookupAt(vars: Vars, i: nat)
    requires i < |vars| && forall j | 0 <= j < i :: vars[j].0 != vars[i].0
    ensures Lookup(vars, vars[i].0) == Some(vars[i].1)
  {
    if i > 0 {
      LookupAt(vars[1..], i - 1);
    }
  }

  /** An unknown placeholder stays as it is. */
  function Value(vars: Vars, name: string): string {
    var found := Lookup(vars, name);
    if found.Some? then found.value else Hole(name)
  }

  function FilledPiece(p: Piece, vars: Vars): string {
    if p.Placeholder? then Value(vars, p.name) else PieceText(p)
  }

  /** The pieces with the values in place of the placeholders. */
  function Filled(pieces: seq<Piece>, vars: Vars): string {
    if pieces == [] then "" else FilledPiece(pieces[0], vars) + Filled(pieces[1..], vars)
  }

  /** `chars[from..].iter().position(|c| c == '}')`. */
  function CloseAt(t: string, from: nat): (r: Option<nat>)
    requires from <= |t|
    ensures r.Some? ==> from <= r.value < |t| && t[r.value] == '}' && '}' !in t[from..r.value]
  {
    var offset := IndexOf(t[from..], '}');
    if offset.None? then None
    else
      assert t[from..from + offset.value] == t[from..][..offset.value];
      Some(from + offset.value)
  }

  // The steps of the scan that both loops make.

  lemma StepChar(t: string, index: nat)
    requires index < |t| && t[index] != '{'
    ensures Pieces(t[index..]) == [Char(t[index])] + Pieces(t[index + 1..])
  {
    DropDrop(t, index, 1);
  }

  lemma StepUnclosed(t: string, index: nat)
    requires index < |t| && t[index] == '{' && CloseAt(t, index + 1).None?
    ensures Pieces(t[index..]) == [Unclosed(t[index..])]
  {
    DropDrop(t, index, 1);
  }

  lemma StepHole(t: string, index: nat, end: nat)
    requires index < |t| && t[index] == '{' && CloseAt(t, index + 1) == Some(end)
    ensures Pieces(t[index..]) == [Placeholder(t[index + 1..end])] + Pieces(t[end + 1..])
  {
    HoleThenRest(t, index, end);
    PiecesOfHole(t[index + 1..end], t[end + 1..]);
  }

  lemma HoleThenRest(t: string, index: nat, end: nat)
    requires index < |t| && t[index] == '{' && CloseAt(t, index + 1) == Some(end)
    ensures t[index..] == Hole(t[index + 1..end]) + t[end + 1..]
  {
    HoleAt(t, index);
    PrefixThenRest(t[index..end + 1], t[index..]);
    DropDrop(t, index, end + 1 - index);
  }

  lemma HoleAt(t: string, index: nat)
    requires index < |t| && t[index] == '{' && CloseAt(t, index + 1).Some?
    ensures var end := CloseAt(t, index + 1).value; t[index..end + 1] == Hole(t[index + 1..end])
  {
  }

  lemma FilledStep(p: Piece, rest: seq<Piece>, vars: Vars)
    ensures Filled([p] + rest, vars) == FilledPiece(p, vars) + Filled(rest, vars)
  {
    assert ([p] + rest)[1..] == rest;
  }

  lemma FilledLast(p: Piece, vars: Vars)
    ensures Filled([p], vars) == FilledPiece(p, vars)
  {
    assert FilledPiece(p, vars) + "" == FilledPiece(p, vars);
  }

  /** How what is left to write at an index comes from what is left further on. */
  ghost predicate WritesAt(t: string, vars: Vars, left: int -> string, i: nat)
    requires i < |t|
  {
    if t[i] != '{' then left(i) == [t[i]] + left(i + 1)
    else
      var end := CloseAt(t, i + 1);
      left(i) == if end.None? then t[i..] else Value(vars, t[i + 1..end.value]) + left(end.value + 1)
  }

  /** The loop of `apply_template`. */
  method ApplyFrom(t: string, vars: Vars, ghost left: int -> string) returns (out: string)
    requires left(|t|) == ""
    requires forall i {:trigger WritesAt(t, vars, left, i)} | 0 <= i < |t| :: WritesAt(t, vars, left, i)
    ensures out == left(0)
  {
    out := "";
    var index := 0;
    while index < |t|
      invariant index <= |t|
      invariant out + left(index) == left(0)
    {
      assert WritesAt(t, vars, left, index);
      if t[index] != '{' {
        Associate(out, [t[index]], left(index + 1));
        out := out + [t[index]];
        index := index + 1;
        continue;
      }
      var end := CloseAt(t, index + 1);
      if end.None? {
        out := out + t[index..];
        return;
      }
      var name := t[index + 1..end.value];
      Associate(out, Value(vars, name), left(end.value + 1));
      var found := Lookup(vars, name);
      if found.Some? {
        out := out + found.value;
      } else {
        HoleAt(t, index);
        out := out + t[index..end.value + 1];
      }
      index := end.value + 1;
    }
  }

  lemma FilledAtChar(t: string, vars: Vars, i: nat)
    requires i < |t| && t[i] != '{'
    ensures Filled(Pieces(t[i..]), vars) == [t[i]] + Filled(Pieces(t[i + 1..]), vars)
  {
    StepChar(t, i);
    FilledStep(Char(t[i]), Pieces(t[i + 1..]), vars);
  }

  lemma FilledAtUnclosed(t: string, vars: Vars, i: nat)
    requires i < |t| && t[i] == '{' && CloseAt(t, i + 1).None?
    ensures Filled(Pieces(t[i..]), vars) == t[i..]
  {
    StepUnclosed(t, i);
    FilledLast(Unclosed(t[i..]), vars);
  }

  lemma FilledAtHole(t: string, vars: Vars, i: nat, end: nat)
    requires i < |t| && t[i] == '{' && CloseAt(t, i + 1) == Some(end)
    ensures Filled(Pieces(t[i..]), vars) == Value(vars, t[i + 1..end]) + Filled(Pieces(t[end + 1..]), vars)
  {
    StepHole(t, i, end);
    FilledStep(Placeholder(t[i + 1..end]), Pieces(t[end + 1..]), vars);
  }

  lemma WritesChar(t: string, vars: Vars, left: int -> string, i: nat)
    requires i < |t| && t[i] != '{' && left(i) == [t[i]] + left(i + 1)
    ensures WritesAt(t, vars, left, i)
  {
  }

  lemma WritesUnclosed(t: string, vars: Vars, left: int -> string, i: nat)
    requires i < |t| && t[i] == '{' && CloseAt(t, i + 1).None? && left(i) == t[i..]
    ensures WritesAt(t, vars, left, i)
  {
  }

  lemma WritesHole(t: string, vars: Vars, left: int -> string, i: nat, end: nat)
    requires i < |t| && t[i] == '{' && CloseAt(t, i + 1) == Some(end)
    requires left(i) == Value(vars, t[i + 1..end]) + left(end + 1)
    ensures WritesAt(t, vars, left, i)
  {
  }

  lemma FilledWrites(t: string, vars: Vars, left: int -> string, i: nat)
    requires i < |t| && forall j | 0 <= j <= |t| :: left(j) == Filled(Pieces(t[j..]), vars)
    ensures WritesAt(t, vars, left, i)
  {
    if t[i] != '{' {
      FilledAtChar(t, vars, i);
      WritesChar(t, vars, left, i);
    } else if CloseAt(t, i + 1).None? {
      FilledAtUnclosed(t, vars, i);
      WritesUnclosed(t, vars, left, i);
    } else {
      var end := CloseAt(t, i + 1).value;
      FilledAtHole(t, vars, i, end);
      WritesHole(t, vars, left, i, end);
    }
  }

  /** `apply_template`. */
  method ApplyTemplate(t: string, vars: Vars) returns (out: string)
    ensures out == Filled(Pieces(t), vars)
  {
    ghost var left := (j: int) => if 0 <= j <= |t| then Filled(Pieces(t[j..]), vars) else "";
    assert t[0..] == t && left(|t|) == "";
    forall i: nat {:trigger WritesAt(t, vars, left, i)} | i < |t| ensures WritesAt(t, vars, left, i) {
      FilledWrites(t, vars, left, i);
    }
    out := ApplyFrom(t, vars, left);
  }

  // ---- Validation ----

  datatype Issue = UnmatchedClose | UnmatchedOpen | Unknown(name: string)

  function IssuesOf(p: Piece, allowed: seq<string>): seq<Issue> {
    match p
    case Char(c) => if c == '}' then [UnmatchedClose] else []
    case Placeholder(name) => if name == "" || name !in allowed then [Unknown(name)] else []
    case Unclosed(_) => [UnmatchedOpen]
  }

  function Issues(pieces: seq<Piece>, allowed: seq<string>): seq<Issue> {
    if pieces == [] then [] else IssuesOf(pieces[0], allowed) + Issues(pieces[1..], allowed)
  }

  lemma IssuesStep(p: Piece, rest: seq<Piece>, allowed: seq<string>)
    ensures Issues([p] + rest, allowed) == IssuesOf(p, allowed) + Issues(rest, allowed)
  {
    assert ([p] + rest)[1..] == rest;
  }

  /** How what is left to report at an index comes from what is left further on. */
  ghost predicate ReportsAt(t: string, allowed: seq<string>, left: int -> seq<Issue>, i: nat)
    requires i < |t|
  {
    if t[i] == '}' then left(i) == [UnmatchedClose] + left(i + 1)
    else if t[i] != '{' then left(i) == left(i + 1)
    else
      var end := CloseAt(t, i + 1);
      if end.None? then left(i) == [UnmatchedOpen]
      else
        var name := t[i + 1..end.value];
        left(i) == if name == "" || name !in allowed then [Unknown(name)] + left(end.value + 1) else left(end.value + 1)
  }

  /** The loop of `validate_template_placeholders`. */
  method ValidateFrom(t: string, allowed: seq<string>, ghost left: int -> seq<Issue>) returns (issues: seq<Issue>)
    requires left(|t|) == []
    requires forall i {:trigger ReportsAt(t, allowed, left, i)} | 0 <= i < |t| :: ReportsAt(t, allowed, left, i)
    ensures issues == left(0)
  {
    issues := [];
    var index := 0;
    while index < |t|
      invariant index <= |t|
      invariant issues + left(index) == left(0)
    {
      assert ReportsAt(t, allowed, left, index);
      if t[index] != '{' {
        if t[index] == '}' {
          Associate(issues, [UnmatchedClose], left(index + 1));
          issues := issues + [UnmatchedClose];
        }
        index := index + 1;
        continue;
      }
      var end := CloseAt(t, index + 1);
      if end.None? {
        issues := issues + [UnmatchedOpen];
        return;
      }
      var name := t[index + 1..end.value];
      if name == "" || name !in allowed {
        Associate(issues, [Unknown(name)], left(end.value + 1));
        issues := issues + [Unknown(name)];
      }
      index := end.value + 1;
    }
  }

  lemma IssuesAtChar(t: string, allowed: seq<string>, i: nat)
    requires i < |t| && t[i] != '{'
    ensures Issues(Pieces(t[i..]), allowed) == IssuesOf(Char(t[i]), allowed) + Issues(Pieces(t[i + 1..]), allowed)
  {
    StepChar(t, i);
    IssuesStep(Char(t[i]), Pieces(t[i + 1..]), allowed);
  }

  lemma IssuesAtUnclosed(t: string, allowed: seq<string>, i: nat)
    requires i < |t| && t[i] == '{' && CloseAt(t, i + 1).None?
    ensures Issues(Pieces(t[i..]), allowed) == [UnmatchedOpen]
  {
    StepUnclosed(t, i);
    assert [Unclosed(t[i..])] == [Unclosed(t[i..])] + [];
    IssuesStep(Unclosed(t[i..]), [], allowed);
  }

  lemma IssuesAtHole(t: string, allowed: seq<string>, i: nat, end: nat)
    requires i < |t| && t[i] == '{' && CloseAt(t, i + 1) == Some(end)
    ensures Issues(Pieces(t[i..]), allowed) ==
      IssuesOf(Placeholder(t[i + 1..end]), allowed) + Issues(Pieces(t[end + 1..]), allowed)
  {
    StepHole(t, i, end);
    IssuesStep(Placeholder(t[i + 1..end]), Pieces(t[end + 1..]), allowed);
  }

  lemma ReportsChar(t: string, allowed: seq<string>, left: int -> seq<Issue>, i: nat)
    requires i < |t| && t[i] != '{' && left(i) == IssuesOf(Char(t[i]), allowed) + left(i + 1)
    ensures ReportsAt(t, allowed, left, i)
  {
    assert [] + left(i + 1) == left(i + 1);
  }

  lemma ReportsHole(t: string, allowed: seq<string>, left: int -> seq<Issue>, i: nat, end: nat)
    requires i < |t| && t[i] == '{' && CloseAt(t, i + 1) == Some(end)
    requires left(i) == IssuesOf(Placeholder(t[i + 1..end]), allowed) + left(end + 1)
    ensures ReportsAt(t, allowed, left, i)
  {
    assert [] + left(end + 1) == left(end + 1);
  }

  lemma IssuesReports(t: string, allowed: seq<string>, left: int -> seq<Issue>, i: nat)
    requires i < |t| && forall j | 0 <= j <= |t| :: left(j) == Issues(Pieces(t[j..]), allowed)
    ensures ReportsAt(t, allowed, left, i)
  {
    if t[i] != '{' {
      IssuesAtChar(t, allowed, i);
      ReportsChar(t, allowed, left, i);
    } else if CloseAt(t, i + 1).None? {
      IssuesAtUnclosed(t, allowed, i);
    } else {
      var end := CloseAt(t, i + 1).value;
      IssuesAtHole(t, allowed, i, end);
      ReportsHole(t, allowed, left, i, end);
    }
  }

  /** `validate_template_placeholders`. */
  method ValidateTemplatePlaceholders(t: string, allowed: seq<string>) returns (issues: seq<Issue>)
    ensures issues == Issues(Pieces(t), allowed)
  {
    ghost var left := (j: int) => if 0 <= j <= |t| then Issues(Pieces(t[j..]), allowed) else [];
    assert t[0..] == t && left(|t|) == [];
    forall i: nat {:trigger ReportsAt(t, allowed, left, i)} | i < |t| ensures ReportsAt(t, allowed, left, i) {
      IssuesReports(t, allowed, left, i);
    }
    issues := ValidateFrom(t, allowed, left);
  }

  // ---- What a valid template is ----

  /** Literal characters are no braces, and placeholders have allowed names. */
  predicate Good(p: Piece, allowed: seq<string>) {
    match p
    case Char(c) => c !in "{}"
    case Placeholder(name) => name != "" && name in allowed && '}' !in name
    case Unclosed(_) => false
  }

  predicate AllGood(pieces: seq<Piece>, allowed: seq<string>) {
    forall i | 0 <= i < |pieces| :: Good(pieces[i], allowed)
  }

  lemma PiecesOfHole(name: string, rest: string)
    requires '}' !in name
    ensures Pieces(Hole(name) + rest) == [Placeholder(name)] + Pieces(rest)
  {
    var t := Hole(name) + rest;
    assert t[1..] == name + ("}" + rest);
    IndexOfFirst(t[1..], '}', |name|);
    assert t[1..1 + |name|] == name && t[2 + |name|..] == rest;
  }

  /** A template is read as the good pieces it was put together from. */
  lemma {:induction false} PiecesOfSource(pieces: seq<Piece>, allowed: seq<string>)
    requires AllGood(pieces, allowed)
    ensures Pieces(Source(pieces)) == pieces
  {
    if pieces != [] {
      var p, rest := pieces[0], pieces[1..];
      assert Good(p, allowed);
      PiecesOfSource(rest, allowed);
      if p.Char? {
        assert ([p.c] + Source(rest))[1..] == Source(rest);
      } else {
        PiecesOfHole(p.name, Source(rest));
      }
    }
  }

  lemma {:induction false} NoIssues(pieces: seq<Piece>, allowed: seq<string>)
    requires forall i | 0 <= i < |pieces| && pieces[i].Placeholder? :: '}' !in pieces[i].name
    requires forall i | 0 <= i < |pieces| && pieces[i].Char? :: pieces[i].c != '{'
    ensures Issues(pieces, allowed) == [] <==> AllGood(pieces, allowed)
  {
    if pieces != [] {
      NoIssues(pieces[1..], allowed);
      if AllGood(pieces, allowed) {
        assert Good(pieces[0], allowed);
        assert forall i | 0 <= i < |pieces| - 1 :: pieces[1..][i] == pieces[i + 1];
      }
    }
  }

  lemma {:induction false} PiecesShape(t: string)
    ensures forall i | 0 <= i < |Pieces(t)| && Pieces(t)[i].Placeholder? :: '}' !in Pieces(t)[i].name
    ensures forall i | 0 <= i < |Pieces(t)| && Pieces(t)[i].Char? :: Pieces(t)[i].c != '{'
    decreases |t|
  {
    if t != "" {
      if t[0] != '{' {
        PiecesShape(t[1..]);
      } else {
        var end := IndexOf(t[1..], '}');
        if end.Some? {
          PiecesShape(t[2 + end.value..]);
          assert t[1..1 + end.value] == t[1..][..end.value];
        }
      }
    }
  }

  /** The validator is a recogniser: it is silent exactly on the templates that are made of literal
      characters other than braces and of allowed placeholders ... */
  lemma ValidatorRecognises(t: string, allowed: seq<string>)
    ensures Issues(Pieces(t), allowed) == [] <==> exists pieces | AllGood(pieces, allowed) :: Source(pieces) == t
  {
    PiecesShape(t);
    NoIssues(Pieces(t), allowed);
    PiecesSource(t);
    if pieces :| AllGood(pieces, allowed) && Source(pieces) == t {
      PiecesOfSource(pieces, allowed);
    }
  }

  /** ... and on these the renderer puts each value in place of its placeholder, whatever braces the
      values themselves have. */
  lemma RenderedOnce(pieces: seq<Piece>, allowed: seq<string>, vars: Vars)
    requires AllGood(pieces, allowed)
    ensures Filled(Pieces(Source(pieces)), vars) == Filled(pieces, vars)
  {
    PiecesOfSource(pieces, allowed);
  }

  // ---- Replacing one placeholder after another ----

  predicate BraceFree(s: string) { '{' !in s && '}' !in s }

  predicate BraceFreeNames(allowed: seq<string>) {
    forall i | 0 <= i < |allowed| :: BraceFree(allowed[i])
  }

  /** A text begins with a placeholder exactly if that is its first piece. */
  lemma BeginsWithHole(name: string, n: string, rest: string)
    requires BraceFree(name) && '}' !in n
    ensures Hole(name) <= Hole(n) + rest <==> n == name
  {
    var t := Hole(n) + rest;
    PiecesOfHole(n, rest);
    if Hole(name) <= t {
      assert t == Hole(name) + t[|name| + 2..];
      PiecesOfHole(name, t[|name| + 2..]);
      assert Pieces(t)[0] == Placeholder(name);
    }
  }

  lemma HoleInPiece(p: Piece, rest: string, name: string)
    requires BraceFree(name) && ((p.Char? && p.c != '{') || (p.Placeholder? && BraceFree(p.name)))
    ensures Contains(PieceText(p) + rest, Hole(name)) <==> p == Placeholder(name) || Contains(rest, Hole(name))
  {
    var (text, q) := (PieceText(p), Hole(name));
    if Contains(rest, q) {
      ContainsSuffixed(text, rest, q);
    }
    if p.Char? {
      if Contains(text + rest, q) {
        OccursRight(text, rest, q);
      }
    } else {
      BeginsWithHole(name, p.name, rest);
      if q <= text + rest {
        assert OccursAt(text + rest, q, 0);
      } else if Contains(text + rest, q) {
        OccursHere(text + rest, q);
        assert (text + rest)[1..] == (p.name + "}") + rest;
        OccursRight(p.name + "}", rest, q);
      }
    }
  }

  /** A placeholder is found in the text of a valid template exactly if it is one of its pieces. */
  lemma {:induction false} ContainsHole(pieces: seq<Piece>, allowed: seq<string>, name: string)
    requires AllGood(pieces, allowed) && BraceFreeNames(allowed) && BraceFree(name)
    ensures Contains(Source(pieces), Hole(name)) <==> Placeholder(name) in pieces
  {
    if pieces != [] {
      assert Good(pieces[0], allowed) && pieces == [pieces[0]] + pieces[1..];
      ContainsHole(pieces[1..], allowed, name);
      HoleInPiece(pieces[0], Source(pieces[1..]), name);
    }
  }

  function Chars(s: string): seq<Piece> {
    if s == "" then [] else [Char(s[0])] + Chars(s[1..])
  }

  /** The pieces with one placeholder replaced by text. */
  function Subst(pieces: seq<Piece>, name: string, v: string): seq<Piece> {
    if pieces == [] then []
    else (if pieces[0] == Placeholder(name) then Chars(v) else [pieces[0]]) + Subst(pieces[1..], name, v)
  }

  lemma {:induction false} CharsThen(v: string, rest: seq<Piece>, vars: Vars)
    ensures Source(Chars(v) + rest) == v + Source(rest)
    ensures Filled(Chars(v) + rest, vars) == v + Filled(rest, vars)
  {
    if v == "" {
      assert Chars(v) + rest == rest;
    } else {
      var more := Chars(v[1..]) + rest;
      CharsThen(v[1..], rest, vars);
      assert Chars(v) + rest == [Char(v[0])] + more;
      assert ([Char(v[0])] + more)[1..] == more;
      Associate([v[0]], v[1..], Source(rest));
      Associate([v[0]], v[1..], Filled(rest, vars));
      assert [v[0]] + v[1..] == v;
    }
  }

  lemma {:induction false} CharsGood(v: string, allowed: seq<string>)
    requires BraceFree(v)
    ensures AllGood(Chars(v), allowed)
  {
    if v != "" {
      CharsGood(v[1..], allowed);
      assert v[0] in v;
    }
  }

  lemma {:induction false} SubstGood(pieces: seq<Piece>, allowed: seq<string>, name: string, v: string)
    requires AllGood(pieces, allowed) && BraceFree(v)
    ensures AllGood(Subst(pieces, name, v), allowed)
  {
    if pieces != [] {
      SubstGood(pieces[1..], allowed, name, v);
      CharsGood(v, allowed);
      assert Good(pieces[0], allowed);
    }
  }

  lemma ReplaceInPiece(p: Piece, rest: string, name: string, v: string)
    requires BraceFree(name) && ((p.Char? && p.c != '{') || (p.Placeholder? && BraceFree(p.name)))
    ensures Replace(PieceText(p) + rest, Hole(name), v) ==
      (if p == Placeholder(name) then v else PieceText(p)) + Replace(rest, Hole(name), v)
  {
    var q := Hole(name);
    if p.Char? {
      ReplaceSkip([p.c], rest, q, v);
    } else if p.name == name {
      ReplaceHit(q, rest, v);
    } else {
      var inner := p.name + "}";
      BeginsWithHole(name, p.name, rest);
      assert (Hole(p.name) + rest)[1..] == inner + rest;
      ReplaceMiss(Hole(p.name) + rest, q, v);
      ReplaceSkip(inner, rest, q, v);
      Associate("{", inner, Replace(rest, q, v));
    }
  }

  /** `str::replace` of a placeholder replaces exactly the pieces that are this placeholder. */
  lemma {:induction false} ReplaceHole(pieces: seq<Piece>, allowed: seq<string>, name: string, v: string)
    requires AllGood(pieces, allowed) && BraceFreeNames(allowed) && BraceFree(name)
    ensures Replace(Source(pieces), Hole(name), v) == Source(Subst(pieces, name, v))
  {
    if pieces != [] {
      assert Good(pieces[0], allowed);
      ReplaceHole(pieces[1..], allowed, name, v);
      ReplaceInPiece(pieces[0], Source(pieces[1..]), name, v);
      if pieces[0] == Placeholder(name) {
        CharsThen(v, Subst(pieces[1..], name, v), []);
      }
    }
  }

  lemma {:induction false} SubstFilled(pieces: seq<Piece>, vars: Vars)
    requires vars != []
    ensures Filled(Subst(pieces, vars[0].0, vars[0].1), vars[1..]) == Filled(pieces, vars)
  {
    if pieces != [] {
      SubstFilled(pieces[1..], vars);
      if pieces[0] == Placeholder(vars[0].0) {
        CharsThen(vars[0].1, Subst(pieces[1..], vars[0].0, vars[0].1), vars[1..]);
      }
    }
  }

  /** `t.replace("{name}", value)` for one variable after another. */
  function Chain(t: string, vars: Vars): string
    decreases |vars|
  {
    if vars == [] then t else Chain(Replace(t, Hole(vars[0].0), vars[0].1), vars[1..])
  }

  lemma {:induction false} FilledPlain(pieces: seq<Piece>)
    ensures Filled(pieces, []) == Source(pieces)
  {
    if pieces != [] {
      FilledPlain(pieces[1..]);
    }
  }

  /** On a valid template, replacing one placeholder after another is replacing all at once, as long
      as no value has braces. */
  lemma {:induction false} ChainIsSimultaneous(pieces: seq<Piece>, allowed: seq<string>, vars: Vars)
    requires AllGood(pieces, allowed) && BraceFreeNames(allowed)
    requires forall i | 0 <= i < |vars| :: BraceFree(vars[i].0) && BraceFree(vars[i].1)
    ensures Chain(Source(pieces), vars) == Filled(pieces, vars)
    decreases |vars|
  {
    if vars == [] {
      FilledPlain(pieces);
    } else {
      var (name, v) := vars[0];
      ReplaceHole(pieces, allowed, name, v);
      SubstGood(pieces, allowed, name, v);
      SubstFilled(pieces, vars);
      ChainIsSimultaneous(Subst(pieces, name, v), allowed, vars[1..]);
    }
  }
}
