/** String operations of Rust's `str` that several components use. */
module Text {
  import opened Wrappers

  /** Bounds of the unsigned integer types. */
  const U32 := 0x1_0000_0000
  const U64 := 0x1_0000_0000_0000_0000

  // ---- Substring search ----

  predicate OccursAt<T(==)>(s: seq<T>, p: seq<T>, i: int) {
    0 <= i && i + |p| <= |s| && s[i..i + |p|] == p
  }

  predicate Contains<T(==)>(s: seq<T>, p: seq<T>) {
    exists i | 0 <= i <= |s| :: OccursAt(s, p, i)
  }

  /** The first occurrence of `p` in `s` at or after `from`. */
  function FindFrom<T(==)>(s: seq<T>, p: seq<T>, from: nat): (r: Option<nat>)
    requires from <= |s|
    ensures r.Some? ==> from <= r.value && OccursAt(s, p, r.value)
    ensures r.Some? ==> forall j :: from <= j < r.value ==> !OccursAt(s, p, j)
    ensures r.None? ==> forall j :: from <= j ==> !OccursAt(s, p, j)
    decreases |s| - from
  {
    if OccursAt(s, p, from) then Some(from)
    else if from == |s| then None
    else FindFrom(s, p, from + 1)
  }

  /** The first position of an element. */
  function IndexOf<T(==)>(s: seq<T>, x: T): (r: Option<nat>)
    ensures r.Some? ==> r.value < |s| && s[r.value] == x && forall i | 0 <= i < r.value :: s[i] != x
    ensures r.None? ==> x !in s
  {
    if s == [] then None
    else if s[0] == x then Some(0)
    else
      var rest := IndexOf(s[1..], x);
      if rest.None? then None else Some(rest.value + 1)
  }

  lemma IndexOfFirst<T>(s: seq<T>, x: T, i: nat)
    requires i < |s| && s[i] == x && forall j | 0 <= j < i :: s[j] != x
    ensures IndexOf(s, x) == Some(i)
  {
  }

  lemma ContainsPrefixed<T>(a: seq<T>, b: seq<T>, p: seq<T>)
    requires Contains(a, p)
    ensures Contains(a + b, p)
  {
    var i :| 0 <= i <= |a| && OccursAt(a, p, i);
    assert (a + b)[i..i + |p|] == a[i..i + |p|];
    assert OccursAt(a + b, p, i);
  }

  lemma ContainsSuffixed<T>(a: seq<T>, b: seq<T>, p: seq<T>)
    requires Contains(b, p)
    ensures Contains(a + b, p)
  {
    var i :| 0 <= i <= |b| && OccursAt(b, p, i);
    assert (a + b)[|a| + i..|a| + i + |p|] == b[i..i + |p|];
    assert OccursAt(a + b, p, |a| + i);
  }

  /** An occurrence that cannot begin in `a` is one in `b`. */
  lemma OccursRight(a: string, b: string, q: string)
    requires q != "" && q[0] !in a && Contains(a + b, q)
    ensures Contains(b, q)
  {
    var i :| 0 <= i <= |a + b| && OccursAt(a + b, q, i);
    assert (a + b)[i] == (a + b)[i..i + |q|][0] == q[0];
    assert i >= |a|;
    assert (a + b)[i..i + |q|] == b[i - |a|..i - |a| + |q|];
    assert OccursAt(b, q, i - |a|);
  }

  /** An occurrence is at the first place or after it. */
  lemma OccursHere(s: string, q: string)
    requires s != "" && Contains(s, q)
    ensures q <= s || Contains(s[1..], q)
  {
    var i :| 0 <= i <= |s| && OccursAt(s, q, i);
    if i > 0 {
      assert s[1..][i - 1..i - 1 + |q|] == s[i..i + |q|];
      assert OccursAt(s[1..], q, i - 1);
    }
  }

  lemma OccursShifted(t: string, n: nat, q: string, i: nat)
    requires n <= i && n <= |t|
    ensures OccursAt(t, q, i) <==> OccursAt(t[n..], q, i - n)
  {
    if i + |q| <= |t| {
      assert t[n..][i - n..i - n + |q|] == t[i..i + |q|];
    }
  }

  lemma ContainsPrefix<T>(s: seq<T>, p: seq<T>)
    requires p <= s
    ensures Contains(s, p)
  {
    assert OccursAt(s, p, 0);
  }

  /** A text without the separator is found on one side of it or the other. */
  lemma SeparatedContains(a: string, sep: char, b: string, p: string)
    requires sep !in p && p != ""
    ensures Contains(a + [sep] + b, p) <==> Contains(a, p) || Contains(b, p)
  {
    var s := a + [sep] + b;
    if Contains(a, p) {
      Associate(a, [sep], b);
      ContainsPrefixed(a, [sep] + b, p);
    }
    if Contains(b, p) {
      ContainsSuffixed(a + [sep], b, p);
    }
    if i :| 0 <= i <= |s| && OccursAt(s, p, i) {
      if i + |p| <= |a| {
        assert a[i..i + |p|] == s[i..i + |p|];
        assert OccursAt(a, p, i);
      } else if i > |a| {
        OccursShifted(s, |a| + 1, p, i);
        assert s[|a| + 1..] == b;
        assert OccursAt(b, p, i - |a| - 1);
      } else {
        OccursAtChar(s, p, i, |a| - i);
      }
    }
  }

  lemma ContainsLength(s: string, q: string)
    requires Contains(s, q)
    ensures |q| <= |s|
  {
  }

  lemma ContainsChars(s: string, p: string)
    requires Contains(s, p)
    ensures forall c | c in p :: c in s
  {
    var i :| 0 <= i <= |s| && OccursAt(s, p, i);
    forall c | c in p ensures c in s {
      var k :| 0 <= k < |p| && p[k] == c;
      OccursAtChar(s, p, i, k);
    }
  }

  lemma OccursAtChar(s: string, p: string, i: nat, k: nat)
    requires OccursAt(s, p, i) && k < |p|
    ensures s[i + k] == p[k]
  {
    assert s[i..i + |p|][k] == s[i + k];
  }

  lemma Associate<T>(a: seq<T>, b: seq<T>, c: seq<T>)
    ensures a + (b + c) == a + b + c
  {
  }

  lemma Reassociate<T>(a: seq<T>, b: seq<T>, c: seq<T>, d: seq<T>)
    ensures a + (b + c) + d == a + (b + (c + d))
  {
  }

  lemma PrefixThenRest<T>(p: seq<T>, s: seq<T>)
    requires p <= s
    ensures s == p + s[|p|..]
  {
  }

  /** A prefix of two texts ends in the first or goes on in the second. */
  lemma PrefixOfConcat<T>(r: seq<T>, a: seq<T>, b: seq<T>)
    requires r <= a + b
    ensures r <= a || (a <= r && r[|a|..] <= b)
  {
    if |r| <= |a| {
      assert r == (a + b)[..|r|] == a[..|r|];
    } else {
      assert a == (a + b)[..|a|] == r[..|a|] && (a + b)[|a|..] == b;
    }
  }

  lemma PrefixIn<T>(p: seq<T>, s: seq<T>, x: T)
    requires p <= s && x in p
    ensures x in s
  {
    var i :| 0 <= i < |p| && p[i] == x;
    assert s[i] == x;
  }

  lemma DropDrop<T>(s: seq<T>, i: nat, j: nat)
    requires i + j <= |s|
    ensures s[i..][j..] == s[i + j..]
  {
  }

  /** `str::replace`: every occurrence found left to right, without overlap. */
  function Replace(s: string, p: string, v: string): string
    requires p != ""
  {
    if |s| < |p| then s
    else if p <= s then v + Replace(s[|p|..], p, v)
    else [s[0]] + Replace(s[1..], p, v)
  }

  lemma {:induction false} ReplaceAbsent(s: string, p: string, v: string)
    requires p != "" && !Contains(s, p)
    ensures Replace(s, p, v) == s
  {
    if |s| >= |p| {
      if p <= s {
        assert OccursAt(s, p, 0);
        assert false;
      }
      assert [s[0]] + s[1..] == s;
      if Contains(s[1..], p) {
        ContainsSuffixed([s[0]], s[1..], p);
        assert false;
      }
      ReplaceAbsent(s[1..], p, v);
    }
  }

  lemma {:induction false} ReplaceChars(s: string, p: string, v: string)
    requires p != ""
    ensures forall c | c in Replace(s, p, v) :: c in s || c in v
  {
    if |s| >= |p| {
      if p <= s {
        ReplaceChars(s[|p|..], p, v);
      } else {
        ReplaceChars(s[1..], p, v);
      }
    }
  }

  lemma ReplaceHit(p: string, rest: string, v: string)
    requires p != ""
    ensures Replace(p + rest, p, v) == v + Replace(rest, p, v)
  {
    assert (p + rest)[|p|..] == rest;
  }

  lemma ReplaceMiss(s: string, p: string, v: string)
    requires p != "" && s != "" && !(p <= s)
    ensures Replace(s, p, v) == [s[0]] + Replace(s[1..], p, v)
  {
  }

  /** Text in which the pattern cannot begin is left as it is. */
  lemma {:induction false} ReplaceSkip(a: string, rest: string, p: string, v: string)
    requires p != "" && p[0] !in a
    ensures Replace(a + rest, p, v) == a + Replace(rest, p, v)
  {
    if a == "" {
      assert a + rest == rest;
    } else {
      assert a[0] in a && (a + rest)[1..] == a[1..] + rest;
      ReplaceMiss(a + rest, p, v);
      ReplaceSkip(a[1..], rest, p, v);
    }
  }

  // ---- Splitting ----

  /** `str::split` at a character. */
  function Split<T(==)>(s: seq<T>, sep: T): (r: seq<seq<T>>)
    ensures r != []
  {
    if s == [] then [[]]
    else
      var rest := Split(s[1..], sep);
      if s[0] == sep then [[]] + rest else [[s[0]] + rest[0]] + rest[1..]
  }

  function Join<T>(parts: seq<seq<T>>, sep: T): seq<T>
    requires parts != []
  {
    if |parts| == 1 then parts[0] else parts[0] + ([sep] + Join(parts[1..], sep))
  }

  lemma {:induction false} JoinSplit<T>(s: seq<T>, sep: T)
    ensures Join(Split(s, sep), sep) == s
  {
    if s != [] {
      JoinSplit(s[1..], sep);
      var rest := Split(s[1..], sep);
      assert Split(s, sep)[1..] == if s[0] == sep then rest else rest[1..];
    }
  }

  lemma {:induction false} SplitPlain<T>(s: seq<T>, sep: T)
    requires sep !in s
    ensures Split(s, sep) == [s]
  {
    if s != [] {
      SplitPlain(s[1..], sep);
      assert s[0] in s && [s[0]] + s[1..] == s;
    }
  }

  lemma {:induction false} SplitCons<T>(s: seq<T>, sep: T, rest: seq<T>)
    requires sep !in s
    ensures Split(s + ([sep] + rest), sep) == [s] + Split(rest, sep)
  {
    var t := s + ([sep] + rest);
    if s == [] {
      assert t == [sep] + rest && t[1..] == rest;
    } else {
      SplitCons(s[1..], sep, rest);
      assert t[1..] == s[1..] + ([sep] + rest);
      assert t[0] == s[0] && s[0] in s && [s[0]] + s[1..] == s;
    }
  }

  lemma {:induction false} SplitSnoc<T>(s: seq<T>, sep: T, last: seq<T>)
    requires sep !in last
    ensures Split(s + [sep] + last, sep) == Split(s, sep) + [last]
  {
    var t := s + [sep] + last;
    if s == [] {
      assert t == [sep] + last && t[1..] == last;
      SplitPlain(last, sep);
    } else {
      SplitSnoc(s[1..], sep, last);
      assert t[1..] == s[1..] + [sep] + last;
    }
  }

  /** Parts without the separator are what their joint text splits into. */
  lemma {:induction false} SplitJoin<T>(parts: seq<seq<T>>, sep: T)
    requires parts != [] && forall i | 0 <= i < |parts| :: sep !in parts[i]
    ensures Split(Join(parts, sep), sep) == parts
  {
    if |parts| == 1 {
      SplitPlain(parts[0], sep);
    } else {
      SplitJoin(parts[1..], sep);
      SplitCons(parts[0], sep, Join(parts[1..], sep));
    }
  }

  // ---- Decimal numbers ----

  predicate IsDigit(c: char) { '0' <= c <= '9' }

  predicate AllDigits(s: string) {
    forall i | 0 <= i < |s| :: IsDigit(s[i])
  }

  function Digit(d: nat): char
    requires d < 10
  {
    (d + 48) as char
  }

  function Decimal(n: nat): (s: string)
    ensures s != "" && AllDigits(s)
  {
    if n < 10 then [Digit(n)] else Decimal(n / 10) + [Digit(n % 10)]
  }

  function DecimalValue(s: string): nat
    requires AllDigits(s)
  {
    if s == "" then 0
    else 10 * DecimalValue(s[..|s| - 1]) + (s[|s| - 1] as int - 48)
  }

  lemma {:induction false} DecimalRoundTrip(n: nat)
    ensures DecimalValue(Decimal(n)) == n
    ensures n != 0 ==> Decimal(n)[0] != '0'
    ensures |Decimal(n)| > 1 ==> Decimal(n)[0] != '0'
  {
    if n < 10 {
      assert Decimal(n)[..0] == "";
      assert DecimalValue(Decimal(n)[..0]) == 0;
    } else {
      DecimalRoundTrip(n / 10);
      assert Decimal(n)[..|Decimal(n)| - 1] == Decimal(n / 10);
    }
  }

  lemma DecimalInjective(m: nat, n: nat)
    requires Decimal(m) == Decimal(n)
    ensures m == n
  {
    DecimalRoundTrip(m);
    DecimalRoundTrip(n);
  }

  function Pow10(k: nat): nat {
    if k == 0 then 1 else 10 * Pow10(k - 1)
  }

  lemma {:induction false} DecimalLength(n: nat, k: nat)
    requires 0 < k && n < Pow10(k)
    ensures |Decimal(n)| <= k
  {
    if n >= 10 {
      DecimalLength(n / 10, k - 1);
    }
  }

  // ---- Whitespace ----

  /** The code points with the Unicode property White_Space. */
  predicate IsWhite(c: char) {
    var n := c as int;
    9 <= n <= 13 || n == 32 || n == 0x85 || n == 0xA0 || n == 0x1680 || 0x2000 <= n <= 0x200A ||
    n == 0x2028 || n == 0x2029 || n == 0x202F || n == 0x205F || n == 0x3000
  }

  function TrimStart(s: string): string {
    if s != "" && IsWhite(s[0]) then TrimStart(s[1..]) else s
  }

  function TrimEnd(s: string): string {
    if s != "" && IsWhite(s[|s| - 1]) then TrimEnd(s[..|s| - 1]) else s
  }

  function Trim(s: string): string {
    TrimEnd(TrimStart(s))
  }

  predicate Trimmed(s: string) {
    s == "" || (!IsWhite(s[0]) && !IsWhite(s[|s| - 1]))
  }

  lemma {:induction false} TrimStartStarts(s: string)
    ensures TrimStart(s) == "" || !IsWhite(TrimStart(s)[0])
  {
    if s != "" && IsWhite(s[0]) {
      TrimStartStarts(s[1..]);
    }
  }

  lemma {:induction false} TrimEndEnds(s: string)
    ensures TrimEnd(s) <= s
    ensures TrimEnd(s) == "" || !IsWhite(TrimEnd(s)[|TrimEnd(s)| - 1])
  {
    if s != "" && IsWhite(s[|s| - 1]) {
      TrimEndEnds(s[..|s| - 1]);
    }
  }

  lemma TrimTrims(s: string)
    ensures Trimmed(Trim(s))
    ensures Trim(Trim(s)) == Trim(s)
  {
    TrimStartStarts(s);
    TrimEndEnds(TrimStart(s));
  }
}
