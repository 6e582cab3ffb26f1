/** For which category keys the sample rendering of a path template is the real one. */
module SampleKeys {
  import opened Wrappers
  import opened Text
  import opened Templates
  import opened Paths

  const DATE_TOKENS: seq<string> := ["date", "YYYY", "MM", "DD", "YYYYMMDD"]

  // ---- Tokens that keys can form ----

  /** The token lies inside one of the keys, or across the two with a part of its own name between. */
  predicate Forms(a: string, b: string, token: string) {
    exists i, j | 0 <= i <= j <= |token| :: Contains(a + token[i..j] + b, Hole(token))
  }

  /** A token that is replaced after the keys have been put in. */
  predicate FormsLater(key: string) {
    Forms(key, key, "CATEGORY_KEY") ||
    exists a, b, token | a in [key, Upper(key)] && b in [key, Upper(key)] && token in DATE_TOKENS :: Forms(a, b, token)
  }

  /** A key without backslashes that forms no later token; the one that is the upper-case token
      itself is replaced by itself. */
  predicate Faithful(key: string) {
    '\\' !in key && (key == Hole("CATEGORY_KEY") || !FormsLater(key))
  }

  // ---- Texts with keys put in ----

  /** A literal character, a placeholder, or a value that has been put in. */
  datatype Frag = Lit(c: char) | Slot(name: string) | Ins(text: string)

  function FragText(f: Frag): string {
    match f
    case Lit(c) => [c]
    case Slot(name) => Hole(name)
    case Ins(text) => text
  }

  function Joined(frags: seq<Frag>): string {
    if frags == [] then "" else FragText(frags[0]) + Joined(frags[1..])
  }

  predicate GoodFrag(f: Frag, keys: seq<string>) {
    match f
    case Lit(c) => c !in "{}"
    case Slot(name) => BraceFree(name)
    case Ins(text) => BraceFree(text) || text in keys
  }

  predicate GoodFrags(frags: seq<Frag>, keys: seq<string>) {
    forall i | 0 <= i < |frags| :: GoodFrag(frags[i], keys)
  }

  /** The keys are alike in having an opening brace. */
  predicate Alike(keys: seq<string>) {
    (forall i | 0 <= i < |keys| :: '{' in keys[i]) || (forall i | 0 <= i < |keys| :: '{' !in keys[i])
  }

  predicate NoneForm(keys: seq<string>, token: string) {
    forall i, j | 0 <= i < |keys| && 0 <= j < |keys| :: !Forms(keys[i], keys[j], token)
  }

  /** The rest of a placeholder, after its opening brace. */
  predicate Tail(r: string) {
    r != "" && r[|r| - 1] == '}' && BraceFree(r[..|r| - 1])
  }

  /** Where such a rest follows in a text, literal text leads up to a key. */
  lemma {:induction false} Reach(frags: seq<Frag>, keys: seq<string>, r: string) returns (m: string, b: nat)
    requires GoodFrags(frags, keys) && forall i | 0 <= i < |keys| :: '{' in keys[i]
    requires Tail(r) && r <= Joined(frags)
    ensures b < |keys| && |m| < |r| && m == r[..|m|] && r[|m|..] <= keys[b]
  {
    var (f, tail) := (frags[0], Joined(frags[1..]));
    var text := FragText(f);
    assert GoodFrag(f, keys);
    if f.Slot? {
      TailNotSlot(r, f.name, tail);
      assert false;
    } else if f.Ins? && text in keys {
      TailInKey(r, text, tail);
      b :| b < |keys| && keys[b] == text;
      m := "";
    } else {
      assert BraceFree(text);
      TailPastText(r, text, tail);
      m, b := Reach(frags[1..], keys, r[|text|..]);
      ReachPast(r, text, m);
      m := text + m;
    }
  }

  lemma ReachPast(r: string, text: string, m: string)
    requires |text| + |m| < |r| && text == r[..|text|] && m == r[|text|..][..|m|]
    ensures text + m == r[..|text| + |m|] && r[|text + m|..] == r[|text|..][|m|..]
  {
  }

  lemma TailNoOpen(r: string)
    requires Tail(r)
    ensures '{' !in r
  {
    assert r == r[..|r| - 1] + ['}'];
  }

  lemma TailNotSlot(r: string, name: string, tail: string)
    requires Tail(r)
    ensures !(r <= Hole(name) + tail)
  {
    TailNoOpen(r);
    assert (Hole(name) + tail)[0] == '{' && r[0] in r;
  }

  lemma TailInKey(r: string, key: string, tail: string)
    requires Tail(r) && r <= key + tail && '{' in key
    ensures r <= key
  {
    TailNoOpen(r);
    PrefixOfConcat(r, key, tail);
    if key <= r {
      PrefixIn(key, r, '{');
    }
  }

  lemma TailPastText(r: string, text: string, tail: string)
    requires Tail(r) && r <= text + tail && BraceFree(text)
    ensures |text| < |r| && text == r[..|text|] && Tail(r[|text|..]) && r[|text|..] <= tail
  {
    var n := |r| - 1;
    assert r[n] in r;
    PrefixOfConcat(r, text, tail);
    if r <= text {
      PrefixIn(r, text, '}');
    } else {
      assert |text| <= n;
      assert r[|text|..][..n - |text|] == r[..n][|text|..];
    }
  }

  /** No placeholder of this name begins inside a key that has been put in. */
  lemma NotFormed(a: nat, frags: seq<Frag>, keys: seq<string>, token: string, i: nat)
    requires a < |keys| && i < |keys[a]| && GoodFrags(frags, keys) && Alike(keys)
    requires BraceFree(token) && NoneForm(keys, token)
    ensures !OccursAt(keys[a] + Joined(frags), Hole(token), i)
  {
    var key := keys[a];
    if OccursAt(key + Joined(frags), Hole(token), i) {
      OccursAtChar(key + Joined(frags), Hole(token), i, 0);
      assert key[i] == '{' && key[i] in key;
      if i + |token| + 2 <= |key| {
        InsideForms(key, token, i, Joined(frags));
      } else {
        SplitsOver(key, token, i, Joined(frags));
        var m, b := Reach(frags, keys, Hole(token)[|key| - i..]);
        AcrossForms(key, keys[b], token, i, m);
      }
      assert false;
    }
  }

  lemma SplitsOver(key: string, token: string, i: nat, rest: string)
    requires OccursAt(key + rest, Hole(token), i) && i < |key| < i + |token| + 2 && BraceFree(token)
    ensures var (q, k) := (Hole(token), |key| - i);
      q[..k] == key[i..] && q[k..] <= rest && Tail(q[k..])
  {
    var (q, k, s) := (Hole(token), |key| - i, key + rest);
    assert q == s[i..i + |q|];
    assert q[..k] == s[i..i + k] == key[i..];
    assert q[k..] == s[i + k..i + |q|] == rest[..|q| - k];
    var r := q[k..];
    assert r[..|r| - 1] == token[k - 1..];
  }

  lemma InsideForms(key: string, token: string, i: nat, rest: string)
    requires i + |token| + 2 <= |key| && OccursAt(key + rest, Hole(token), i)
    ensures Forms(key, key, token)
  {
    assert key[i..i + |token| + 2] == (key + rest)[i..i + |token| + 2];
    assert OccursAt(key, Hole(token), i);
    ContainsPrefixed(key, token[0..0] + key, Hole(token));
    assert key + token[0..0] + key == key + (token[0..0] + key);
  }

  lemma AcrossForms(a: string, b: string, token: string, i: nat, m: string)
    requires i < |a| && |a| - i <= |token| + 1
    requires Hole(token)[..|a| - i] == a[i..]
    requires var r := Hole(token)[|a| - i..]; |m| < |r| && m == r[..|m|] && r[|m|..] <= b
    ensures Forms(a, b, token)
  {
    var (q, k) := (Hole(token), |a| - i);
    assert m == token[k - 1..k - 1 + |m|];
    var s := a + m + b;
    assert q == a[i..] + m + q[k + |m|..];
    assert s[i..i + |q|] == q;
    assert OccursAt(s, q, i);
  }

  // ---- Replacing ----

  /** The value in place of the placeholders of this name. */
  function Put(frags: seq<Frag>, name: string, v: string): seq<Frag> {
    if frags == [] then []
    else [if frags[0] == Slot(name) then Ins(v) else frags[0]] + Put(frags[1..], name, v)
  }

  lemma {:induction false} PutGood(frags: seq<Frag>, keys: seq<string>, name: string, v: string, more: seq<string>)
    requires GoodFrags(frags, keys) && (BraceFree(v) || v in more) && forall k | k in keys :: k in more
    ensures GoodFrags(Put(frags, name, v), more)
  {
    if frags != [] {
      PutGood(frags[1..], keys, name, v, more);
      assert GoodFrag(frags[0], keys);
    }
  }

  lemma {:induction false} ReplaceAfter(x: string, rest: string, q: string, v: string)
    requires q != "" && forall i | 0 <= i < |x| :: !OccursAt(x + rest, q, i)
    ensures Replace(x + rest, q, v) == x + Replace(rest, q, v)
  {
    if x == "" {
      assert x + rest == rest;
    } else {
      var s := x + rest;
      assert s[0] == x[0] && s[1..] == x[1..] + rest && !OccursAt(s, q, 0);
      ReplaceMiss(s, q, v);
      forall i | 0 <= i < |x| - 1 ensures !OccursAt(x[1..] + rest, q, i) {
        OccursShifted(s, 1, q, i + 1);
      }
      ReplaceAfter(x[1..], rest, q, v);
      Associate([x[0]], x[1..], Replace(rest, q, v));
    }
  }

  /** As long as no two keys form the placeholder, `str::replace` replaces exactly the slots. */
  lemma {:induction false} ReplaceFrags(frags: seq<Frag>, keys: seq<string>, name: string, v: string)
    requires GoodFrags(frags, keys) && Alike(keys) && BraceFree(name) && NoneForm(keys, name)
    ensures Replace(Joined(frags), Hole(name), v) == Joined(Put(frags, name, v))
  {
    if frags != [] {
      var (f, rest) := (frags[0], Joined(frags[1..]));
      assert GoodFrag(f, keys);
      ReplaceFrags(frags[1..], keys, name, v);
      match f
      case Lit(c) => ReplaceInPiece(Char(c), rest, name, v);
      case Slot(n) => ReplaceInPiece(Placeholder(n), rest, name, v);
      case Ins(text) =>
        if text in keys {
          var a :| 0 <= a < |keys| && keys[a] == text;
          forall i | 0 <= i < |text| ensures !OccursAt(text + rest, Hole(name), i) {
            NotFormed(a, frags[1..], keys, name, i);
          }
          ReplaceAfter(text, rest, Hole(name), v);
        } else {
          ReplaceSkip(text, rest, Hole(name), v);
        }
    }
  }

  // ---- Keys that form nothing ----

  function FromPieces(pieces: seq<Piece>): seq<Frag> {
    if pieces == [] then []
    else [if pieces[0].Placeholder? then Slot(pieces[0].name) else Ins(PieceText(pieces[0]))] + FromPieces(pieces[1..])
  }

  lemma {:induction false} FromPiecesGood(pieces: seq<Piece>, allowed: seq<string>)
    requires AllGood(pieces, allowed) && BraceFreeNames(allowed)
    ensures GoodFrags(FromPieces(pieces), []) && Joined(FromPieces(pieces)) == Source(pieces)
  {
    if pieces != [] {
      assert Good(pieces[0], allowed);
      FromPiecesGood(pieces[1..], allowed);
    }
  }

  function FragValue(f: Frag, vars: Vars): string {
    if f.Slot? then Value(vars, f.name) else FragText(f)
  }

  function FilledFrags(frags: seq<Frag>, vars: Vars): string {
    if frags == [] then "" else FragValue(frags[0], vars) + FilledFrags(frags[1..], vars)
  }

  lemma {:induction false} FromPiecesFilled(pieces: seq<Piece>, vars: Vars)
    ensures FilledFrags(FromPieces(pieces), vars) == Filled(pieces, vars)
  {
    if pieces != [] {
      FromPiecesFilled(pieces[1..], vars);
    }
  }

  lemma {:induction false} PutFilled(frags: seq<Frag>, vars: Vars)
    requires vars != []
    ensures FilledFrags(Put(frags, vars[0].0, vars[0].1), vars[1..]) == FilledFrags(frags, vars)
  {
    if frags != [] {
      PutFilled(frags[1..], vars);
    }
  }

  lemma {:induction false} NothingLeft(frags: seq<Frag>)
    ensures FilledFrags(frags, []) == Joined(frags)
  {
    if frags != [] {
      NothingLeft(frags[1..]);
    }
  }

  /** Replacing one placeholder after another, with keys in the text that form none of them. */
  lemma {:induction false} ChainFrags(frags: seq<Frag>, keys: seq<string>, vars: Vars)
    requires GoodFrags(frags, keys) && Alike(keys)
    requires forall i | 0 <= i < |vars| :: BraceFree(vars[i].0) && BraceFree(vars[i].1) && NoneForm(keys, vars[i].0)
    ensures Chain(Joined(frags), vars) == FilledFrags(frags, vars)
    decreases |vars|
  {
    if vars == [] {
      NothingLeft(frags);
    } else {
      var (name, v) := vars[0];
      ReplaceFrags(frags, keys, name, v);
      PutGood(frags, keys, name, v, keys);
      PutFilled(frags, vars);
      ChainFrags(Put(frags, name, v), keys, vars[1..]);
    }
  }

  function Later(key: string): Vars { PathVars(key, SAMPLE_DATE, SAMPLE)[2..] }

  lemma LaterVars(key: string)
    ensures |Later(key)| == 5 && Later(key) == Later("")
    ensures forall i | 0 <= i < 5 :: Later(key)[i].0 == DATE_TOKENS[i] && PlainKey(Later(key)[i].1) && BraceFree(Later(key)[i].0)
  {
    SampleVarsPlain("");
    var (v, w) := (PathVars(key, SAMPLE_DATE, SAMPLE), PathVars("", SAMPLE_DATE, SAMPLE));
    forall i | 2 <= i < 7 ensures v[i] == w[i] && v[i].0 == DATE_TOKENS[i - 2] {
    }
  }

  lemma UpperBrace(key: string)
    ensures '{' in Upper(key) <==> '{' in key
  {
    var u := Upper(key);
    forall i | 0 <= i < |key| ensures u[i] == '{' <==> key[i] == '{' {
    }
    if '{' in key {
      var i :| 0 <= i < |key| && key[i] == '{';
      assert u[i] in u;
    }
    if '{' in u {
      var i :| 0 <= i < |u| && u[i] == '{';
      assert key[i] in key;
    }
  }

  /** One replacement puts one value in. */
  lemma PutStep(frags: seq<Frag>, keys: seq<string>, vars: Vars, more: seq<string>)
    requires GoodFrags(frags, keys) && Alike(keys) && vars != []
    requires BraceFree(vars[0].0) && NoneForm(keys, vars[0].0)
    requires vars[0].1 in more && forall k | k in keys :: k in more
    ensures var put := Put(frags, vars[0].0, vars[0].1);
      && Replace(Joined(frags), Hole(vars[0].0), vars[0].1) == Joined(put)
      && GoodFrags(put, more)
      && FilledFrags(put, vars[1..]) == FilledFrags(frags, vars)
  {
    ReplaceFrags(frags, keys, vars[0].0, vars[0].1);
    PutGood(frags, keys, vars[0].0, vars[0].1, more);
    PutFilled(frags, vars);
  }

  /** The first two replacements put the keys in. */
  lemma KeysPutIn(pieces: seq<Piece>, allowed: seq<string>, vars: Vars) returns (frags: seq<Frag>)
    requires AllGood(pieces, allowed) && BraceFreeNames(allowed) && |vars| >= 2
    requires BraceFree(vars[0].0) && BraceFree(vars[1].0) && NoneForm([vars[0].1], vars[1].0)
    ensures GoodFrags(frags, [vars[0].1, vars[1].1])
    ensures Replace(Replace(Source(pieces), Hole(vars[0].0), vars[0].1), Hole(vars[1].0), vars[1].1) == Joined(frags)
    ensures FilledFrags(frags, vars[2..]) == Filled(pieces, vars)
  {
    var f0 := FromPieces(pieces);
    FromPiecesGood(pieces, allowed);
    FromPiecesFilled(pieces, vars);
    PutStep(f0, [], vars, [vars[0].1]);
    var f1 := Put(f0, vars[0].0, vars[0].1);
    PutStep(f1, [vars[0].1], vars[1..], [vars[0].1, vars[1].1]);
    frags := Put(f1, vars[1].0, vars[1].1);
    DropDrop(vars, 1, 1);
  }

  lemma NoneFormLater(key: string)
    requires !FormsLater(key)
    ensures forall i | 0 <= i < 5 :: NoneForm([key, Upper(key)], DATE_TOKENS[i])
  {
    var keys := [key, Upper(key)];
    forall t, i, j | 0 <= t < 5 && 0 <= i < 2 && 0 <= j < 2 ensures !Forms(keys[i], keys[j], DATE_TOKENS[t]) {
      assert keys[i] in [key, Upper(key)] && keys[j] in [key, Upper(key)] && DATE_TOKENS[t] in DATE_TOKENS;
    }
  }

  lemma FormlessAgrees(pieces: seq<Piece>, allowed: seq<string>, key: string)
    requires AllGood(pieces, allowed) && BraceFreeNames(allowed) && !FormsLater(key)
    ensures Chain(Source(pieces), PathVars(key, SAMPLE_DATE, SAMPLE)) == Filled(pieces, PathVars(key, SAMPLE_DATE, SAMPLE))
  {
    SampleFirstTwo(key);
    var frags := KeysPutIn(pieces, allowed, PathVars(key, SAMPLE_DATE, SAMPLE));
    UpperBrace(key);
    LaterVars(key);
    NoneFormLater(key);
    ChainFrags(frags, [key, Upper(key)], Later(key));
    ChainTwice(Source(pieces), key);
  }

  lemma SampleFirstTwo(key: string)
    ensures var v := PathVars(key, SAMPLE_DATE, SAMPLE);
      v[0] == ("category_key", key) && v[1] == ("CATEGORY_KEY", Upper(key)) && BraceFree(v[0].0) && BraceFree(v[1].0)
  {
  }

  lemma ChainTwice(t: string, key: string)
    ensures Chain(t, PathVars(key, SAMPLE_DATE, SAMPLE)) ==
      Chain(Replace(Replace(t, Hole("category_key"), key), Hole("CATEGORY_KEY"), Upper(key)), Later(key))
  {
    var vars := PathVars(key, SAMPLE_DATE, SAMPLE);
    assert vars[1..][1..] == Later(key);
  }

  // ---- The key that is the upper-case token ----

  lemma TokenKeyForms(token: string)
    requires BraceFree(token) && token != "" && token[0] != 'C'
    ensures !Forms(Hole("CATEGORY_KEY"), Hole("CATEGORY_KEY"), token)
  {
    forall i, j | 0 <= i <= j <= |token|
      ensures !Contains(Hole("CATEGORY_KEY") + token[i..j] + Hole("CATEGORY_KEY"), Hole(token))
    {
      TokenKeyApart("CATEGORY_KEY", token[i..j], token);
    }
  }

  lemma TokenKeyApart(name: string, m: string, token: string)
    requires BraceFree(name) && BraceFree(m) && BraceFree(token) && name != "" && token != "" && name[0] != token[0]
    ensures !Contains(Hole(name) + m + Hole(name), Hole(token))
  {
    var s := Hole(name) + m + Hole(name);
    if p :| 0 <= p <= |s| && OccursAt(s, Hole(token), p) {
      OccursAtChar(s, Hole(token), p, 0);
      OccursAtChar(s, Hole(token), p, 1);
      if p != 0 && p != |name| + 2 + |m| {
        OpensNowhereElse(name, m, p);
      }
    }
  }

  /** In this text braces open at its two placeholders only. */
  lemma OpensNowhereElse(name: string, m: string, p: nat)
    requires BraceFree(name) && BraceFree(m) && p != 0 && p != |name| + 2 + |m|
    requires p < 2 * |name| + |m| + 4
    ensures (Hole(name) + m + Hole(name))[p] != '{'
  {
    if p <= |name| {
      NoBraceAt(name, p - 1);
    } else if |name| + 2 <= p < |name| + 2 + |m| {
      NoBraceAt(m, p - |name| - 2);
    } else if |name| + 2 + |m| < p < 2 * |name| + |m| + 3 {
      NoBraceAt(name, p - |name| - 3 - |m|);
    }
  }

  lemma NoBraceAt(x: string, i: nat)
    requires i < |x| && BraceFree(x)
    ensures x[i] != '{'
  {
    assert x[i] in x;
  }

  /** One token renamed to another. */
  function Renamed(frags: seq<Frag>, name: string, other: string): seq<Frag> {
    if frags == [] then []
    else [if frags[0] == Slot(name) then Slot(other) else frags[0]] + Renamed(frags[1..], name, other)
  }

  /** Putting a token in for another reads as renaming it. */
  lemma {:induction false} RenamedText(frags: seq<Frag>, name: string, other: string)
    requires GoodFrags(frags, []) && BraceFree(other)
    ensures Joined(Put(frags, name, Hole(other))) == Joined(Renamed(frags, name, other))
    ensures GoodFrags(Renamed(frags, name, other), [])
    ensures Put(Renamed(frags, name, other), other, Hole(other)) == Put(Put(frags, name, Hole(other)), other, Hole(other))
  {
    if frags != [] {
      RenamedText(frags[1..], name, other);
      assert GoodFrag(frags[0], []);
    }
  }

  lemma TokenKeyUpper()
    ensures Upper(Hole("CATEGORY_KEY")) == Hole("CATEGORY_KEY")
  {
  }

  lemma DateTokenNames()
    ensures forall i | 0 <= i < 5 :: DATE_TOKENS[i] != "" && DATE_TOKENS[i][0] != 'C'
  {
    assert DATE_TOKENS[0] == "date" && DATE_TOKENS[1] == "YYYY" && DATE_TOKENS[2] == "MM";
    assert DATE_TOKENS[3] == "DD" && DATE_TOKENS[4] == "YYYYMMDD";
  }

  lemma TokenPutIn(pieces: seq<Piece>, allowed: seq<string>, vars: Vars) returns (frags: seq<Frag>)
    requires AllGood(pieces, allowed) && BraceFreeNames(allowed) && |vars| >= 2
    requires BraceFree(vars[0].0) && BraceFree(vars[1].0) && vars[0].1 == vars[1].1 == Hole(vars[1].0)
    ensures GoodFrags(frags, [vars[0].1])
    ensures Replace(Replace(Source(pieces), Hole(vars[0].0), vars[0].1), Hole(vars[1].0), vars[1].1) == Joined(frags)
    ensures FilledFrags(frags, vars[2..]) == Filled(pieces, vars)
  {
    var (f0, a, b, key) := (FromPieces(pieces), vars[0].0, vars[1].0, vars[0].1);
    FromPiecesGood(pieces, allowed);
    FromPiecesFilled(pieces, vars);
    PutStep(f0, [], vars, [key]);
    PutFilled(Put(f0, a, key), vars[1..]);
    RenamedText(f0, a, b);
    ReplaceFrags(Renamed(f0, a, b), [], b, key);
    PutGood(Renamed(f0, a, b), [], b, key, [key]);
    frags := Put(Put(f0, a, key), b, key);
    DropDrop(vars, 1, 1);
  }

  /** The key that is the upper-case token is replaced by its upper-case form, which is itself. */
  lemma TokenKeyAgrees(pieces: seq<Piece>, allowed: seq<string>, key: string)
    requires AllGood(pieces, allowed) && BraceFreeNames(allowed) && key == Hole("CATEGORY_KEY")
    ensures Chain(Source(pieces), PathVars(key, SAMPLE_DATE, SAMPLE)) == Filled(pieces, PathVars(key, SAMPLE_DATE, SAMPLE))
  {
    SampleFirstTwo(key);
    TokenKeyUpper();
    var frags := TokenPutIn(pieces, allowed, PathVars(key, SAMPLE_DATE, SAMPLE));
    LaterVars(key);
    DateTokenNames();
    forall i | 0 <= i < 5 ensures NoneForm([key], Later(key)[i].0) {
      TokenKeyForms(Later(key)[i].0);
    }
    ChainFrags(frags, [key], Later(key));
    ChainTwice(Source(pieces), key);
  }

  // ---- Keys that form something ----

  /** How many digits a text has. */
  function Digits(s: string): nat {
    if s == "" then 0 else (if IsDigit(s[0]) then 1 else 0) + Digits(s[1..])
  }

  lemma {:induction false} DigitsConcat(a: string, b: string)
    ensures Digits(a + b) == Digits(a) + Digits(b)
  {
    if a == "" {
      assert a + b == b;
    } else {
      assert (a + b)[1..] == a[1..] + b;
      DigitsConcat(a[1..], b);
    }
  }

  /** What replacing a text without digits does to the digits and to the length. */
  lemma {:induction false} ReplaceMeasures(s: string, q: string, v: string)
    requires q != "" && Digits(q) == 0
    ensures Digits(Replace(s, q, v)) >= Digits(s) + if Contains(s, q) then Digits(v) else 0
    ensures |v| >= |q| ==> |Replace(s, q, v)| >= |s| + if Contains(s, q) then |v| - |q| else 0
    ensures |v| <= |q| ==> |Replace(s, q, v)| <= |s| - if Contains(s, q) then |q| - |v| else 0
    decreases |s|
  {
    if |s| < |q| {
      if Contains(s, q) {
        ContainsLength(s, q);
      }
    } else if q <= s {
      ReplaceMeasures(s[|q|..], q, v);
      PrefixThenRest(q, s);
      DigitsConcat(q, s[|q|..]);
      DigitsConcat(v, Replace(s[|q|..], q, v));
    } else {
      ReplaceMeasures(s[1..], q, v);
      PrefixThenRest([s[0]], s);
      DigitsConcat([s[0]], s[1..]);
      DigitsConcat([s[0]], Replace(s[1..], q, v));
      if Contains(s, q) {
        OccursHere(s, q);
      }
    }
  }

  /** Values with digits for names without. */
  predicate Dated(vars: Vars) {
    forall i | 0 <= i < |vars| :: Digits(Hole(vars[i].0)) == 0 && Digits(vars[i].1) > 0
  }

  /** Such replacements add digits, unless there is nothing to replace. */
  lemma {:induction false} ChainAddsDigits(s: string, vars: Vars)
    requires Dated(vars)
    ensures Digits(Chain(s, vars)) >= Digits(s)
    ensures (exists i | 0 <= i < |vars| :: Contains(s, Hole(vars[i].0))) ==> Digits(Chain(s, vars)) > Digits(s)
    ensures (forall i | 0 <= i < |vars| :: !Contains(s, Hole(vars[i].0))) ==> Chain(s, vars) == s
    decreases |vars|
  {
    if vars != [] {
      var q := Hole(vars[0].0);
      ReplaceMeasures(s, q, vars[0].1);
      ChainAddsDigits(Replace(s, q, vars[0].1), vars[1..]);
      if !Contains(s, q) {
        ReplaceAbsent(s, q, vars[0].1);
        assert vars == [vars[0]] + vars[1..];
      }
    }
  }

  lemma LaterDated(key: string)
    ensures Dated(Later(key))
  {
    LaterVars(key);
    var v := Later("");
    assert DATE_TOKENS[0] == "date" && DATE_TOKENS[1] == "YYYY" && DATE_TOKENS[2] == "MM";
    assert DATE_TOKENS[3] == "DD" && DATE_TOKENS[4] == "YYYYMMDD";
    forall i | 0 <= i < 5 ensures Digits(Hole(v[i].0)) == 0 && Digits(v[i].1) > 0 {
      NoDigits(DATE_TOKENS[i]);
      ValueDigits(i);
    }
  }

  lemma NoDigits(name: string)
    requires forall i | 0 <= i < |name| :: !IsDigit(name[i])
    ensures Digits(Hole(name)) == 0
  {
    NoneIsDigit(Hole(name));
  }

  lemma {:induction false} NoneIsDigit(s: string)
    requires forall i | 0 <= i < |s| :: !IsDigit(s[i])
    ensures Digits(s) == 0
  {
    if s != "" {
      NoneIsDigit(s[1..]);
    }
  }

  lemma ValueDigits(i: nat)
    requires i < 5
    ensures Digits(Later("")[i].1) > 0
  {
    var v := Later("")[i].1;
    assert SAMPLE_DATE[0] == '2' && SAMPLE.year[0] == '2' && SAMPLE.month[0] == '0' && SAMPLE.day[0] == '0';
    assert IsDigit(v[0]);
  }

  /** Two copies of a key, or of its upper-case form, with literal text between. */
  function Sandwich(a: string, m: string, b: string): seq<Piece> {
    [Placeholder(a)] + Chars(m) + [Placeholder(b)]
  }

  lemma SandwichText(a: string, m: string, b: string, vars: Vars)
    ensures Source(Sandwich(a, m, b)) == Hole(a) + m + Hole(b)
    ensures Filled(Sandwich(a, m, b), vars) == Value(vars, a) + m + Value(vars, b)
  {
    var rest := Chars(m) + [Placeholder(b)];
    CharsThen(m, [Placeholder(b)], vars);
    assert Source([Placeholder(b)]) == Hole(b) && Filled([Placeholder(b)], vars) == Value(vars, b);
    assert Sandwich(a, m, b) == [Placeholder(a)] + rest;
    SourceCons(Placeholder(a), rest);
    assert ([Placeholder(a)] + rest)[1..] == rest;
    Associate(Hole(a), m, Hole(b));
    Associate(Value(vars, a), m, Value(vars, b));
  }

  lemma {:induction false} SandwichGood(a: string, m: string, b: string)
    requires a in PATH_TOKENS && b in PATH_TOKENS && a != "" && b != "" && BraceFree(m)
    ensures AllGood(Sandwich(a, m, b), PATH_TOKENS)
  {
    TokensBraceFree();
    CharsGood(m, PATH_TOKENS);
  }

  predicate KeyToken(name: string, key: string, value: string) {
    (name == "category_key" && value == key) || (name == "CATEGORY_KEY" && value == Upper(key))
  }

  lemma KeyTokenValue(name: string, key: string, value: string)
    requires KeyToken(name, key, value)
    ensures var vars := PathVars(key, SAMPLE_DATE, SAMPLE);
      Value(vars, name) == value && Value(vars[..2], name) == value && (value == key && name == "category_key" ==> Value(vars[..1], name) == value)
    ensures name in PATH_TOKENS && name != "" && '\\' !in name
  {
    var vars := PathVars(key, SAMPLE_DATE, SAMPLE);
    TokenNames(name);
    SampleFirstTwo(key);
    PathValues(key, SAMPLE_DATE, SAMPLE);
    assert vars[..2][0] == vars[0] && vars[..2][1] == vars[1] && vars[..1][0] == vars[0];
    LookupAt(vars[..2], if name == "category_key" then 0 else 1);
    LookupAt(vars[..1], 0);
  }

  lemma SandwichFilled(a: string, m: string, b: string, key: string, va: string, vb: string)
    requires KeyToken(a, key, va) && KeyToken(b, key, vb)
    ensures Filled(Sandwich(a, m, b), PathVars(key, SAMPLE_DATE, SAMPLE)) == va + m + vb
    ensures Filled(Sandwich(a, m, b), PathVars(key, SAMPLE_DATE, SAMPLE)[..2]) == va + m + vb
  {
    KeyTokenValue(a, key, va);
    KeyTokenValue(b, key, vb);
    SandwichText(a, m, b, PathVars(key, SAMPLE_DATE, SAMPLE));
    SandwichText(a, m, b, PathVars(key, SAMPLE_DATE, SAMPLE)[..2]);
  }

  lemma SandwichPlain(a: string, token: string, i: nat, j: nat, b: string, key: string, va: string, vb: string)
    requires KeyToken(a, key, va) && KeyToken(b, key, vb) && i <= j <= |token| && BraceFree(token) && '\\' !in token
    ensures AllGood(Sandwich(a, token[i..j], b), PATH_TOKENS) && '\\' !in Source(Sandwich(a, token[i..j], b))
  {
    KeyTokenValue(a, key, va);
    KeyTokenValue(b, key, vb);
    SandwichText(a, token[i..j], b, []);
    forall c | c in token[i..j] ensures c in token {
    }
    SandwichGood(a, token[i..j], b);
  }

  /** A template of two key tokens with a piece of some token's name between. */
  lemma SandwichAccepted(pieces: seq<Piece>, key: string, path: string) returns (t: string)
    requires AllGood(pieces, PATH_TOKENS) && Filled(pieces, PathVars(key, SAMPLE_DATE, SAMPLE)) == path
    ensures t == Source(pieces) && Accepted(t) && Path(t, key, SAMPLE_DATE) == Some(path)
  {
    t := Source(pieces);
    PiecesAccepted(pieces);
    SampleDateParses();
  }

  /** Backslashes never come into the text. */
  lemma {:induction false} ChainWithout(s: string, vars: Vars, c: char)
    requires c !in s && forall i | 0 <= i < |vars| :: c !in vars[i].1
    ensures c !in Chain(s, vars)
    decreases |vars|
  {
    if vars != [] {
      ReplaceChars(s, Hole(vars[0].0), vars[0].1);
      ChainWithout(Replace(s, Hole(vars[0].0), vars[0].1), vars[1..], c);
    }
  }

  lemma UpperWithout(key: string)
    requires '\\' !in key
    ensures '\\' !in Upper(key)
  {
    forall i | 0 <= i < |key| ensures Upper(key)[i] != '\\' {
      assert key[i] in key;
    }
  }

  lemma SampleIsChain(t: string, key: string)
    requires '\\' !in t && '\\' !in key
    ensures Sample(t, key) == Chain(t, PathVars(key, SAMPLE_DATE, SAMPLE))
  {
    var vars := PathVars(key, SAMPLE_DATE, SAMPLE);
    UpperWithout(key);
    LaterVars(key);
    SampleFirstTwo(key);
    forall i | 0 <= i < |vars| ensures '\\' !in vars[i].1 {
      if i >= 2 {
        assert vars[i] == Later(key)[i - 2];
      }
    }
    ChainWithout(t, vars, '\\');
    NoBackslash(Chain(t, vars));
  }

  /** A date token that the keys form is expanded in the sample, but not in the path. */
  lemma LaterTokenDiffers(key: string, va: string, vb: string, token: string) returns (t: string)
    requires '\\' !in key && !Forms(key, key, "CATEGORY_KEY")
    requires va in [key, Upper(key)] && vb in [key, Upper(key)] && token in DATE_TOKENS && Forms(va, vb, token)
    ensures Accepted(t) && '\\' !in t && Path(t, key, SAMPLE_DATE) != Some(Sample(t, key))
  {
    var i, j :| 0 <= i <= j <= |token| && Contains(va + token[i..j] + vb, Hole(token));
    var m := token[i..j];
    var a := if va == key then "category_key" else "CATEGORY_KEY";
    var b := if vb == key then "category_key" else "CATEGORY_KEY";
    DateTokenPlain(token);
    SandwichPlain(a, token, i, j, b, key, va, vb);
    SandwichFilled(a, m, b, key, va, vb);
    t := SandwichAccepted(Sandwich(a, m, b), key, va + m + vb);
    KeysOnly(t, a, m, b, key, va, vb);
    LaterVars(key);
    LaterDated(key);
    var k :| 0 <= k < 5 && DATE_TOKENS[k] == token;
    assert Later(key)[k].0 == token;
    ChainAddsDigits(va + m + vb, Later(key));
    ChainTwice(t, key);
    SampleIsChain(t, key);
  }

  lemma DateTokenPlain(token: string)
    requires token in DATE_TOKENS
    ensures BraceFree(token) && '\\' !in token
  {
    assert DATE_TOKENS[0] == "date" && DATE_TOKENS[1] == "YYYY" && DATE_TOKENS[2] == "MM";
    assert DATE_TOKENS[3] == "DD" && DATE_TOKENS[4] == "YYYYMMDD";
  }

  lemma PutInOnly(pieces: seq<Piece>, allowed: seq<string>, vars: Vars)
    requires AllGood(pieces, allowed) && BraceFreeNames(allowed) && |vars| == 2
    requires BraceFree(vars[0].0) && BraceFree(vars[1].0) && NoneForm([vars[0].1], vars[1].0)
    ensures Replace(Replace(Source(pieces), Hole(vars[0].0), vars[0].1), Hole(vars[1].0), vars[1].1) == Filled(pieces, vars)
  {
    var frags := KeysPutIn(pieces, allowed, vars);
    assert vars[2..] == [];
    NothingLeft(frags);
  }

  /** After the first two replacements the sample is the path. */
  lemma KeysOnly(t: string, a: string, m: string, b: string, key: string, va: string, vb: string)
    requires KeyToken(a, key, va) && KeyToken(b, key, vb) && !Forms(key, key, "CATEGORY_KEY")
    requires AllGood(Sandwich(a, m, b), PATH_TOKENS) && t == Source(Sandwich(a, m, b))
    ensures Replace(Replace(t, Hole("category_key"), key), Hole("CATEGORY_KEY"), Upper(key)) == va + m + vb
  {
    SampleFirstTwo(key);
    TokensBraceFree();
    PutInOnly(Sandwich(a, m, b), PATH_TOKENS, PathVars(key, SAMPLE_DATE, SAMPLE)[..2]);
    SandwichFilled(a, m, b, key, va, vb);
  }

  /** The first occurrence is replaced where it stands. */
  lemma {:induction false} FirstReplaced(s: string, q: string, v: string) returns (f: nat)
    requires q != "" && Contains(s, q)
    ensures OccursAt(s, q, f) && f + |v| <= |Replace(s, q, v)| && Replace(s, q, v)[f..f + |v|] == v
    decreases |s|
  {
    ContainsLength(s, q);
    if q <= s {
      f := 0;
    } else {
      OccursHere(s, q);
      f := FirstReplaced(s[1..], q, v);
      ReplaceMiss(s, q, v);
      OccursShifted(s, 1, q, f + 1);
      SliceOfCons(s[0], Replace(s[1..], q, v), f, f + |v|);
      f := f + 1;
    }
  }

  lemma SliceOfCons(c: char, s: string, from: nat, to: nat)
    requires from <= to <= |s|
    ensures ([c] + s)[from + 1..to + 1] == s[from..to]
  {
  }

  /** A key whose upper-case form is a placeholder is one itself. */
  lemma UpperIsHole(key: string, name: string) returns (x: string)
    requires Upper(key) == Hole(name) && BraceFree(name)
    ensures key == Hole(x) && BraceFree(x) && |x| == |name|
  {
    x := key[1..|key| - 1];
    assert Upper(key)[0] == '{' && Upper(key)[|key| - 1] == '}';
    forall i | 0 <= i < |x| ensures x[i] !in "{}" {
      assert Upper(key)[i + 1] == name[i] && name[i] in name;
    }
  }

  lemma HoleWithin(x: string, m: string, name: string, f: nat)
    requires BraceFree(x) && BraceFree(m) && |x| == |name| && OccursAt(Hole(x) + m + Hole(x), Hole(name), f)
    ensures Hole(x) == Hole(name)
  {
    var s := Hole(x) + m + Hole(x);
    OccursAtChar(s, Hole(name), f, 0);
    if f != 0 && f != |x| + 2 + |m| {
      OpensNowhereElse(x, m, f);
    }
    assert s[0..|x| + 2] == Hole(x) && s[|x| + 2 + |m|..|s|] == Hole(x);
  }

  /** If the later replacements give back a text with no more digits, they replaced nothing. */
  lemma ChainGivesBack(r: string, s: string, key: string)
    requires Chain(r, Later(key)) == s && Digits(r) >= Digits(s)
    ensures r == s
  {
    LaterDated(key);
    ChainAddsDigits(r, Later(key));
  }

  /** Putting the upper-case form in for a token that two copies of the key form changes the text for
      good: later replacements only add digits. */
  lemma UpperChainDiffers(key: string, m: string, name: string)
    requires BraceFree(name) && BraceFree(m) && Digits(Hole(name)) == 0
    requires Contains(key + m + key, Hole(name)) && key != Hole(name)
    ensures Chain(Replace(key + m + key, Hole(name), Upper(key)), Later(key)) != key + m + key
  {
    var (s, q, u) := (key + m + key, Hole(name), Upper(key));
    var r := Replace(s, q, u);
    ReplaceMeasures(s, q, u);
    if Chain(r, Later(key)) == s {
      ChainGivesBack(r, s, key);
      var f := FirstReplaced(s, q, u);
      assert s[f..f + |q|] == q && s[f..f + |u|] == u;
      var x := UpperIsHole(key, name);
      HoleWithin(x, m, name, f);
    }
  }

  lemma OneKeyOnly(pieces: seq<Piece>, allowed: seq<string>, vars: Vars)
    requires AllGood(pieces, allowed) && BraceFreeNames(allowed) && |vars| == 1 && BraceFree(vars[0].0)
    ensures Replace(Source(pieces), Hole(vars[0].0), vars[0].1) == Filled(pieces, vars)
  {
    FromPiecesGood(pieces, allowed);
    FromPiecesFilled(pieces, vars);
    PutStep(FromPieces(pieces), [], vars, [vars[0].1]);
    NothingLeft(Put(FromPieces(pieces), vars[0].0, vars[0].1));
  }

  lemma UpperTokenPlain(name: string)
    requires name == "CATEGORY_KEY"
    ensures BraceFree(name) && '\\' !in name && Digits(Hole(name)) == 0
  {
    NoDigits(name);
  }

  lemma UpperTokenDiffers(key: string, name: string) returns (t: string)
    requires '\\' !in key && name == "CATEGORY_KEY" && Forms(key, key, name) && key != Hole(name)
    ensures Accepted(t) && '\\' !in t && Path(t, key, SAMPLE_DATE) != Some(Sample(t, key))
  {
    var i, j :| 0 <= i <= j <= |name| && Contains(key + name[i..j] + key, Hole(name));
    t := UpperTokenBetween(key, name, i, j);
  }

  lemma UpperTokenBetween(key: string, name: string, i: nat, j: nat) returns (t: string)
    requires '\\' !in key && name == "CATEGORY_KEY" && key != Hole(name)
    requires i <= j <= |name| && Contains(key + name[i..j] + key, Hole(name))
    ensures Accepted(t) && '\\' !in t && Path(t, key, SAMPLE_DATE) != Some(Sample(t, key))
  {
    var (m, a) := (name[i..j], "category_key");
    UpperTokenPlain(name);
    t := KeyTwice(a, name, i, j, key);
    PartBraceFree(name, i, j);
    SandwichChain(t, a, m, key, name);
    SampleIsChain(t, key);
  }

  lemma KeyTwice(a: string, name: string, i: nat, j: nat, key: string) returns (t: string)
    requires a == "category_key" && i <= j <= |name| && BraceFree(name) && '\\' !in name
    ensures t == Source(Sandwich(a, name[i..j], a)) && AllGood(Sandwich(a, name[i..j], a), PATH_TOKENS)
    ensures Accepted(t) && '\\' !in t && Path(t, key, SAMPLE_DATE) == Some(key + name[i..j] + key)
  {
    SandwichPlain(a, name, i, j, a, key, key, key);
    SandwichFilled(a, name[i..j], a, key, key, key);
    t := SandwichAccepted(Sandwich(a, name[i..j], a), key, key + name[i..j] + key);
  }

  lemma PartBraceFree(name: string, i: nat, j: nat)
    requires i <= j <= |name| && BraceFree(name)
    ensures BraceFree(name[i..j])
  {
    forall c | c in name[i..j] ensures c in name {
    }
  }

  lemma SandwichChain(t: string, a: string, m: string, key: string, name: string)
    requires a == "category_key" && name == "CATEGORY_KEY" && AllGood(Sandwich(a, m, a), PATH_TOKENS)
    requires t == Source(Sandwich(a, m, a)) && BraceFree(m) && Contains(key + m + key, Hole(name)) && key != Hole(name)
    ensures Chain(t, PathVars(key, SAMPLE_DATE, SAMPLE)) != key + m + key
  {
    UpperTokenPlain(name);
    FirstKeyOnly(a, m, key);
    UpperChainDiffers(key, m, name);
    ChainTwice(t, key);
  }

  lemma FirstKeyOnly(a: string, m: string, key: string)
    requires a == "category_key" && AllGood(Sandwich(a, m, a), PATH_TOKENS)
    ensures Replace(Source(Sandwich(a, m, a)), Hole(a), key) == key + m + key
  {
    var vars := PathVars(key, SAMPLE_DATE, SAMPLE)[..1];
    SampleFirstTwo(key);
    TokensBraceFree();
    KeyTokenValue(a, key, key);
    OneKeyOnly(Sandwich(a, m, a), PATH_TOKENS, vars);
    SandwichText(a, m, a, vars);
  }

  // ---- Exactly the faithful keys ----

  /** For a faithful key the validator's sample is the path of the sample date, whatever the template. */
  lemma SampleIsPath(t: string, key: string)
    requires Accepted(t) && '\\' !in t && Faithful(key)
    ensures Path(t, key, SAMPLE_DATE) == Some(Sample(t, key))
  {
    AcceptedPieces(t);
    TokensBraceFree();
    SampleDateParses();
    SampleIsChain(t, key);
    if key == Hole("CATEGORY_KEY") {
      TokenKeyAgrees(Pieces(t), PATH_TOKENS, key);
    } else {
      FormlessAgrees(Pieces(t), PATH_TOKENS, key);
    }
  }

  lemma UnfaithfulDiffers(key: string) returns (t: string)
    requires '\\' !in key && !Faithful(key)
    ensures Accepted(t) && '\\' !in t && Path(t, key, SAMPLE_DATE) != Some(Sample(t, key))
  {
    if Forms(key, key, "CATEGORY_KEY") {
      t := UpperTokenDiffers(key, "CATEGORY_KEY");
    } else {
      var a, b, token :| a in [key, Upper(key)] && b in [key, Upper(key)] && token in DATE_TOKENS && Forms(a, b, token);
      t := LaterTokenDiffers(key, a, b, token);
    }
  }

  /** The validator renders its sample with another algorithm than the reports. They agree on every
      template that validation accepts exactly for the faithful keys. */
  lemma AgreesExactly(key: string)
    requires '\\' !in key
    ensures (forall t | Accepted(t) && '\\' !in t :: Path(t, key, SAMPLE_DATE) == Some(Sample(t, key))) <==> Faithful(key)
  {
    if Faithful(key) {
      forall t | Accepted(t) && '\\' !in t ensures Path(t, key, SAMPLE_DATE) == Some(Sample(t, key)) {
        SampleIsPath(t, key);
      }
    } else {
      var t := UnfaithfulDiffers(key);
    }
  }

  /** A key that has not both kinds of brace is faithful. */
  lemma OneKindOfBrace(key: string)
    requires '\\' !in key && ('{' !in key || '}' !in key)
    ensures Faithful(key)
  {
    UpperOneKind(key);
    forall a, b, token | a in [key, Upper(key)] && b in [key, Upper(key)] && BraceFree(token) ensures !Forms(a, b, token) {
      BracesNeeded(a, b, token);
    }
    UpperTokenPlain("CATEGORY_KEY");
    forall token | token in DATE_TOKENS ensures BraceFree(token) {
      DateTokenPlain(token);
    }
  }

  lemma UpperOneKind(key: string)
    ensures '{' !in key ==> '{' !in Upper(key)
    ensures '}' !in key ==> '}' !in Upper(key)
  {
    var u := Upper(key);
    forall i | 0 <= i < |key| ensures (u[i] == '{' ==> key[i] == '{') && (u[i] == '}' ==> key[i] == '}') && key[i] in key {
    }
  }

  lemma BracesNeeded(a: string, b: string, token: string)
    requires BraceFree(token) && (('{' !in a && '{' !in b) || ('}' !in a && '}' !in b))
    ensures !Forms(a, b, token)
  {
    forall i, j | 0 <= i <= j <= |token| ensures !Contains(a + token[i..j] + b, Hole(token)) {
      assert '{' in Hole(token) && '}' in Hole(token);
      assert forall c | c in token[i..j] :: c in token;
      if Contains(a + token[i..j] + b, Hole(token)) {
        ContainsChars(a + token[i..j] + b, Hole(token));
      }
    }
  }

  /** The sample date stands for every date: two faithful keys collide there exactly if they collide on
      any day, and exactly if they collide on every day. */
  lemma SampleShowsCollisions(t: string, k1: string, k2: string, s: string)
    requires Accepted(t) && '\\' !in t && Faithful(k1) && Faithful(k2) && ParseDate(s).Some?
    ensures Sample(t, k1) == Sample(t, k2) <==> Path(t, k1, s) == Path(t, k2, s)
  {
    SampleIsPath(t, k1);
    SampleIsPath(t, k2);
    SampleDateParses();
    EqualPaths(t, k1, s, k2, s);
    EqualPaths(t, k1, SAMPLE_DATE, k2, SAMPLE_DATE);
  }

  /** Two replacements give the same where what is used is the same. */
  lemma TwoReplacements(pieces: seq<Piece>, allowed: seq<string>, n1: string, v1: string, w1: string, n2: string, v2: string, w2: string)
    requires AllGood(pieces, allowed) && BraceFreeNames(allowed) && BraceFree(n1) && BraceFree(n2)
    requires (Uses(pieces, n1) ==> v1 == w1) && (Uses(pieces, n2) ==> v2 == w2) && (v1 == w1 ==> v2 == w2)
    ensures Replace(Replace(Source(pieces), Hole(n1), v1), Hole(n2), v2) == Replace(Replace(Source(pieces), Hole(n1), w1), Hole(n2), w2)
  {
    if v1 != w1 {
      UnusedStays(pieces, allowed, n1, v1);
      UnusedStays(pieces, allowed, n1, w1);
      if v2 != w2 {
        UnusedStays(pieces, allowed, n2, v2);
        UnusedStays(pieces, allowed, n2, w2);
      }
    }
  }

  /** Whatever the keys, if the template does not tell them apart then neither does the sample. */
  lemma SameKeysSameSample(t: string, k1: string, k2: string)
    requires Accepted(t) && SameKeys(t, k1, k2)
    ensures Sample(t, k1) == Sample(t, k2)
  {
    AcceptedPieces(t);
    TokensBraceFree();
    SampleFirstTwo(k1);
    TwoReplacements(Pieces(t), PATH_TOKENS, "category_key", k1, k2, "CATEGORY_KEY", Upper(k1), Upper(k2));
    LaterVars(k1);
    LaterVars(k2);
    ChainTwice(t, k1);
    ChainTwice(t, k2);
  }

  lemma UnusedStays(pieces: seq<Piece>, allowed: seq<string>, name: string, v: string)
    requires AllGood(pieces, allowed) && BraceFreeNames(allowed) && BraceFree(name) && !Uses(pieces, name)
    ensures Replace(Source(pieces), Hole(name), v) == Source(pieces)
  {
    ContainsHole(pieces, allowed, name);
    ReplaceAbsent(Source(pieces), Hole(name), v);
  }
}
