/** Prompts: three placeholders replaced in text that may hold any other braces. */
module Prompt {
  import opened Wrappers
  import opened Text
  import opened Templates

  const PROMPT_PLACEHOLDERS: seq<string> := ["title", "body_text", "category_key"]

  /** The first of these names whose placeholder the text begins with. */
  function SlotAt(names: seq<string>, t: string): (r: Option<string>)
    ensures r.Some? ==> r.value in names && Hole(r.value) <= t
    ensures r.None? ==> forall name | name in names :: !(Hole(name) <= t)
  {
    if names == [] then None
    else if Hole(names[0]) <= t then Some(names[0])
    else SlotAt(names[1..], t)
  }

  /** The template as `render_prompt` reads it: a brace that begins no placeholder is a character. */
  function PromptPieces(names: seq<string>, t: string): seq<Piece>
    decreases |t|
  {
    if t == "" then []
    else
      var slot := SlotAt(names, t);
      if t[0] == '{' && slot.Some? then [Placeholder(slot.value)] + PromptPieces(names, t[|slot.value| + 2..])
      else [Char(t[0])] + PromptPieces(names, t[1..])
  }

  // ---- Rendering ----

  /** `truncate_chars`. */
  function TruncateChars(s: string, max: nat): (r: string)
    ensures |s| <= max ==> r == s
    ensures |s| > max ==> |r| == max + 1 && r[..max] <= s && r[max] == '…'
  {
    if |s| > max then s[..max] + "…" else s
  }

  datatype PromptInput = PromptInput(title: string, bodyText: string, categoryKey: string)

  function PromptVars(input: PromptInput, maxChars: nat): Vars {
    [("title", input.title), ("body_text", TruncateChars(input.bodyText, maxChars)), ("category_key", input.categoryKey)]
  }

  lemma PromptValues(input: PromptInput, maxChars: nat)
    ensures var v := PromptVars(input, maxChars);
      && Value(v, "title") == input.title
      && Value(v, "body_text") == TruncateChars(input.bodyText, maxChars)
      && Value(v, "category_key") == input.categoryKey
  {
    var v := PromptVars(input, maxChars);
    assert v[0].0 == "title" && v[1].0 == "body_text" && v[2].0 == "category_key";
    forall i | 0 <= i < 3 ensures Value(v, v[i].0) == v[i].1 {
      LookupAt(v, i);
    }
  }

  lemma {:induction false} SkipChars(names: seq<string>, a: string, rest: string, vars: Vars)
    requires '{' !in a
    ensures Filled(PromptPieces(names, a + rest), vars) == a + Filled(PromptPieces(names, rest), vars)
  {
    if a == "" {
      assert a + rest == rest;
    } else {
      assert a[0] in a && (a + rest)[1..] == a[1..] + rest;
      SkipChars(names, a[1..], rest, vars);
      Associate([a[0]], a[1..], Filled(PromptPieces(names, rest), vars));
      assert [a[0]] + a[1..] == a;
    }
  }

  lemma SkipToBrace(names: seq<string>, t: string, start: nat, vars: Vars)
    requires start <= |t| && forall i | 0 <= i < start :: t[i] != '{'
    ensures Filled(PromptPieces(names, t), vars) == t[..start] + Filled(PromptPieces(names, t[start..]), vars)
  {
    assert t == t[..start] + t[start..];
    SkipChars(names, t[..start], t[start..], vars);
  }

  lemma BraceStep(names: seq<string>, t: string, vars: Vars)
    requires t != "" && t[0] == '{'
    ensures match SlotAt(names, t)
      case Some(name) => Filled(PromptPieces(names, t), vars) == Value(vars, name) + Filled(PromptPieces(names, t[|name| + 2..]), vars)
      case None => Filled(PromptPieces(names, t), vars) == "{" + Filled(PromptPieces(names, t[1..]), vars)
  {
  }

  lemma SlotAtThree(a: string, b: string, c: string, t: string)
    ensures SlotAt([a, b, c], t) ==
      if Hole(a) <= t then Some(a) else if Hole(b) <= t then Some(b) else if Hole(c) <= t then Some(c) else None
  {
    assert [a, b, c][1..] == [b, c] && [b, c][1..] == [c] && [c][1..] == [];
  }

  /** `render_prompt`: `rest` is what has not been read yet; what was put out is never read. */
  method RenderPrompt(template: string, input: PromptInput, maxChars: nat) returns (output: string)
    ensures output == Filled(PromptPieces(PROMPT_PLACEHOLDERS, template), PromptVars(input, maxChars))
  {
    var bodyText := TruncateChars(input.bodyText, maxChars);
    output := "";
    var rest := template;
    ghost var (names, vars) := (PROMPT_PLACEHOLDERS, PromptVars(input, maxChars));
    PromptValues(input, maxChars);
    var found := IndexOf(rest, '{');
    while found.Some?
      invariant found == IndexOf(rest, '{')
      invariant output + Filled(PromptPieces(names, rest), vars) == Filled(PromptPieces(names, template), vars)
      decreases |rest|
    {
      var start := found.value;
      var after := rest[start..];
      ghost var before := output;
      SkipToBrace(names, rest, start, vars);
      BraceStep(names, after, vars);
      SlotAtThree("title", "body_text", "category_key", after);
      output := output + rest[..start];
      Associate(before, rest[..start], Filled(PromptPieces(names, after), vars));
      before := output;
      if Hole("title") <= after {
        output := output + input.title;
        rest := after[7..];
      } else if Hole("body_text") <= after {
        output := output + bodyText;
        rest := after[11..];
      } else if Hole("category_key") <= after {
        output := output + input.categoryKey;
        rest := after[14..];
      } else {
        output := output + "{";
        rest := after[1..];
      }
      Associate(before, output[|before|..], Filled(PromptPieces(names, rest), vars));
      found := IndexOf(rest, '{');
    }
    SkipToBrace(names, rest, |rest|, vars);
    output := output + rest;
  }

  // ---- Every placeholder, and only they ----

  lemma {:induction false} PromptPiecesSource(names: seq<string>, t: string)
    ensures Source(PromptPieces(names, t)) == t
    decreases |t|
  {
    if t != "" {
      var slot := SlotAt(names, t);
      if t[0] == '{' && slot.Some? {
        var rest := t[|slot.value| + 2..];
        PromptPiecesSource(names, rest);
        PrefixThenRest(Hole(slot.value), t);
        SourceCons(Placeholder(slot.value), PromptPieces(names, rest));
      } else {
        PromptPiecesSource(names, t[1..]);
        SourceCons(Char(t[0]), PromptPieces(names, t[1..]));
        PrefixThenRest([t[0]], t);
      }
    }
  }

  /** The place of the k-th piece in the text. */
  function Offset(pieces: seq<Piece>, k: nat): nat
    requires k <= |pieces|
  {
    if k == 0 then 0 else |PieceText(pieces[0])| + Offset(pieces[1..], k - 1)
  }

  /** The renderer puts a value at place `i`. */
  ghost predicate ReplacedAt(pieces: seq<Piece>, name: string, i: nat) {
    exists k | 0 <= k < |pieces| :: pieces[k] == Placeholder(name) && Offset(pieces, k) == i
  }

  lemma ReplacedNext(pieces: seq<Piece>, name: string, i: nat)
    requires pieces != []
    ensures var n := |PieceText(pieces[0])|;
      ReplacedAt(pieces, name, i) <==>
        (i == 0 && pieces[0] == Placeholder(name)) || (n <= i && ReplacedAt(pieces[1..], name, i - n))
  {
    var n := |PieceText(pieces[0])|;
    if ReplacedAt(pieces, name, i) {
      var k :| 0 <= k < |pieces| && pieces[k] == Placeholder(name) && Offset(pieces, k) == i;
      if k > 0 {
        assert pieces[1..][k - 1] == Placeholder(name);
      }
    }
    if n <= i && ReplacedAt(pieces[1..], name, i - n) {
      var k :| 0 <= k < |pieces[1..]| && pieces[1..][k] == Placeholder(name) && Offset(pieces[1..], k) == i - n;
      assert pieces[k + 1] == Placeholder(name) && Offset(pieces, k + 1) == i;
    }
    if i == 0 && pieces[0] == Placeholder(name) {
      assert Offset(pieces, 0) == 0;
    }
  }

  /** Inside a placeholder no other begins. */
  lemma NoneInside(t: string, name: string, other: string, i: nat)
    requires Hole(name) <= t && BraceFree(name) && 0 < i < |name| + 2
    ensures !OccursAt(t, Hole(other), i)
  {
    assert t[i] == Hole(name)[i];
    assert i <= |name| ==> name[i - 1] in name;
    if OccursAt(t, Hole(other), i) {
      OccursAtChar(t, Hole(other), i, 0);
    }
  }

  /** Two placeholders cannot begin at one place. */
  lemma OneBegins(t: string, name: string, other: string)
    requires Hole(name) <= t && Hole(other) <= t && BraceFree(name) && BraceFree(other)
    ensures name == other
  {
    assert t == Hole(name) + t[|name| + 2..];
    BeginsWithHole(other, name, t[|name| + 2..]);
  }

  /** Every occurrence of a placeholder in the template is replaced, and nothing else is. */
  lemma {:induction false} ReplacedExactly(names: seq<string>, t: string, name: string, i: nat)
    requires BraceFreeNames(names) && name in names
    ensures OccursAt(t, Hole(name), i) <==> ReplacedAt(PromptPieces(names, t), name, i)
    decreases |t|
  {
    if t != "" {
      var pieces := PromptPieces(names, t);
      var n := |PieceText(pieces[0])|;
      ReplacedNext(pieces, name, i);
      OccursPiece(names, t, name, i);
      if n <= i {
        ReplacedExactly(names, t[n..], name, i - n);
        if n <= |t| {
          OccursShifted(t, n, Hole(name), i);
        }
      }
    }
  }

  /** At the first piece: the placeholder occurs there if the piece is it, and not inside the piece. */
  lemma OccursPiece(names: seq<string>, t: string, name: string, i: nat)
    requires t != "" && BraceFreeNames(names) && name in names
    ensures var pieces := PromptPieces(names, t);
      var n := |PieceText(pieces[0])|;
      && 0 < n <= |t| && pieces[1..] == PromptPieces(names, t[n..])
      && (i < n ==> (OccursAt(t, Hole(name), i) <==> i == 0 && pieces[0] == Placeholder(name)))
  {
    var slot := SlotAt(names, t);
    if t[0] == '{' && slot.Some? {
      if i < |slot.value| + 2 {
        OccursInSlot(t, slot.value, name, i);
      }
    } else if i == 0 && OccursAt(t, Hole(name), 0) {
      OccursAtChar(t, Hole(name), 0, 0);
      assert false;
    }
  }

  lemma OccursInSlot(t: string, slot: string, name: string, i: nat)
    requires Hole(slot) <= t && BraceFree(slot) && BraceFree(name) && i < |slot| + 2
    ensures OccursAt(t, Hole(name), i) <==> i == 0 && slot == name
  {
    if i > 0 {
      NoneInside(t, slot, name, i);
    } else if OccursAt(t, Hole(name), 0) {
      OneBegins(t, slot, name);
    }
  }

  // ---- Unsupported placeholders ----

  predicate IsIdentifierChar(c: char) {
    c == '_' || '0' <= c <= '9' || 'a' <= c <= 'z' || 'A' <= c <= 'Z'
  }

  predicate IsIdentifier(name: string) {
    && name != "" && !('0' <= name[0] <= '9')
    && forall i | 0 <= i < |name| :: IsIdentifierChar(name[i])
  }

  /** How many identifier characters the text begins with. */
  function RunLength(s: string): (n: nat)
    ensures n <= |s| && (forall i | 0 <= i < n :: IsIdentifierChar(s[i])) && (n < |s| ==> !IsIdentifierChar(s[n]))
  {
    if s != "" && IsIdentifierChar(s[0]) then 1 + RunLength(s[1..]) else 0
  }

  predicate UnsupportedAfter(rest: string, names: seq<string>) {
    var end := RunLength(rest);
    end < |rest| && rest[end] == '}' && IsIdentifier(rest[..end]) && rest[..end] !in names
  }

  /** `has_unsupported_placeholder`. */
  predicate HasUnsupported(t: string, names: seq<string>) {
    exists start | 0 <= start < |t| :: t[start] == '{' && UnsupportedAfter(t[start + 1..], names)
  }

  lemma RunIsName(t: string, name: string, i: nat)
    requires OccursAt(t, Hole(name), i) && IsIdentifier(name)
    ensures t[i] == '{' && RunLength(t[i + 1..]) == |name| && t[i + 1..][..|name|] == name
    ensures |name| < |t[i + 1..]| && t[i + 1..][|name|] == '}'
  {
    var rest := t[i + 1..];
    OccursAtChar(t, Hole(name), i, 0);
    OccursAtChar(t, Hole(name), i, |name| + 1);
    forall k | 0 <= k < |name| ensures rest[k] == name[k] {
      OccursAtChar(t, Hole(name), i, k + 1);
    }
    assert rest[..|name|] == name;
  }

  lemma UnsupportedOccurs(t: string, names: seq<string>, start: nat) returns (name: string)
    requires start < |t| && t[start] == '{' && UnsupportedAfter(t[start + 1..], names)
    ensures OccursAt(t, Hole(name), start) && IsIdentifier(name) && name !in names
  {
    var end := RunLength(t[start + 1..]);
    name := t[start + 1..][..end];
    assert t[start..start + end + 2] == Hole(name);
  }

  lemma OccursUnsupported(t: string, names: seq<string>, name: string, i: nat)
    requires OccursAt(t, Hole(name), i) && IsIdentifier(name) && name !in names
    ensures HasUnsupported(t, names)
  {
    RunIsName(t, name, i);
    assert UnsupportedAfter(t[i + 1..], names);
  }

  /** The warning is given exactly if some `{identifier}` in the template is not a placeholder. */
  lemma UnsupportedMeaning(t: string, names: seq<string>)
    ensures HasUnsupported(t, names) <==>
      exists i: nat, name | OccursAt(t, Hole(name), i) :: IsIdentifier(name) && name !in names
  {
    if start :| 0 <= start < |t| && t[start] == '{' && UnsupportedAfter(t[start + 1..], names) {
      var name := UnsupportedOccurs(t, names, start);
    }
    if i: nat, name :| OccursAt(t, Hole(name), i) && IsIdentifier(name) && name !in names {
      OccursUnsupported(t, names, name, i);
    }
  }

  lemma PromptNamesBraceFree()
    ensures BraceFreeNames(PROMPT_PLACEHOLDERS)
  {
    var p := PROMPT_PLACEHOLDERS;
    assert BraceFree(p[0]) && BraceFree(p[1]) && BraceFree(p[2]);
  }

  /** When it is not given, every `{identifier}` of the template is replaced by the renderer. */
  lemma SilentMeansReplaced(t: string, name: string, i: nat)
    requires !HasUnsupported(t, PROMPT_PLACEHOLDERS)
    requires OccursAt(t, Hole(name), i) && IsIdentifier(name)
    ensures ReplacedAt(PromptPieces(PROMPT_PLACEHOLDERS, t), name, i)
  {
    var names := PROMPT_PLACEHOLDERS;
    PromptNamesBraceFree();
    UnsupportedMeaning(t, names);
    ReplacedExactly(names, t, name, i);
  }
}
