/** UTF-8 (RFC 3629): a Rust `String` is the encoding of a sequence of scalar values. */
module Utf8 {
  import opened Wrappers

  type Byte = n: int | 0 <= n < 256

  /** The bytes that delimit and escape JSON strings. */
  const QUOTE: Byte := 34
  const BACKSLASH: Byte := 92

  function EncodeChar(c: char): (b: seq<Byte>)
    ensures 1 <= |b| <= 4
    ensures (c as int < 0x80) == (|b| == 1)
    ensures |b| == 1 ==> b[0] == c as int
    ensures |b| != 1 ==> b[0] >= 0xC0
    ensures forall i | 0 < i < |b| :: 0x80 <= b[i] < 0xC0
  {
    var n := c as int;
    if n < 0x80 then [n]
    else if n < 0x800 then [0xC0 + n / 64, 0x80 + n % 64]
    else if n < 0x10000 then [0xE0 + n / 4096, 0x80 + n / 64 % 64, 0x80 + n % 64]
    else [0xF0 + n / 262144, 0x80 + n / 4096 % 64, 0x80 + n / 64 % 64, 0x80 + n % 64]
  }

  function Encode(s: string): seq<Byte> {
    if s == "" then [] else EncodeChar(s[0]) + Encode(s[1..])
  }

  /** `str::len`. */
  function Len(s: string): nat { |Encode(s)| }

  predicate Continuation(b: Byte) { 0x80 <= b < 0xC0 }

  function ScalarChar(n: int): Option<char> {
    if 0 <= n < 0xD800 || 0xE000 <= n < 0x110000 then Some(n as char) else None
  }

  function DecodeThree(b: seq<Byte>): (r: Option<char>)
    requires |b| >= 3 && 0xE0 <= b[0] < 0xF0 && Continuation(b[1]) && Continuation(b[2])
    ensures r.Some? ==> EncodeChar(r.value) <= b
  {
    var n := JoinBits(JoinBits(b[0] - 0xE0, b[1]), b[2]);
    assert n / 4096 == b[0] - 0xE0;
    if n < 0x800 then None else ScalarChar(n)
  }

  function DecodeFour(b: seq<Byte>): (r: Option<char>)
    requires |b| >= 4 && 0xF0 <= b[0] < 0xF5 && Continuation(b[1]) && Continuation(b[2]) && Continuation(b[3])
    ensures r.Some? ==> EncodeChar(r.value) <= b
  {
    var n := JoinBits(JoinBits(JoinBits(b[0] - 0xF0, b[1]), b[2]), b[3]);
    assert n / 4096 == JoinBits(b[0] - 0xF0, b[1]) && n / 262144 == b[0] - 0xF0;
    if n < 0x10000 then None else ScalarChar(n)
  }

  /** The first scalar value of `b`, when `b` starts with a well-formed encoding of one. */
  function DecodeOne(b: seq<Byte>): (r: Option<char>)
    ensures r.Some? ==> EncodeChar(r.value) <= b
  {
    if b == [] then None
    else if b[0] < 0x80 then Some(b[0] as char)
    else if 0xC2 <= b[0] < 0xE0 && |b| >= 2 && Continuation(b[1]) then
      var n := JoinBits(b[0] - 0xC0, b[1]);
      Some(n as char)
    else if 0xE0 <= b[0] < 0xF0 && |b| >= 3 && Continuation(b[1]) && Continuation(b[2]) then DecodeThree(b)
    else if 0xF0 <= b[0] < 0xF5 && |b| >= 4 && Continuation(b[1]) && Continuation(b[2]) && Continuation(b[3]) then DecodeFour(b)
    else None
  }

  /** Appends the six payload bits of a continuation byte. */
  function JoinBits(high: nat, low: Byte): (n: nat)
    requires Continuation(low)
    ensures n / 64 == high && n % 64 == low - 0x80
  {
    64 * high + (low as int - 0x80)
  }

  /** `str::from_utf8`. */
  function Decode(b: seq<Byte>): (r: Option<string>)
    ensures r.Some? ==> Encode(r.value) == b
  {
    if b == [] then Some("")
    else
      var first := DecodeOne(b);
      if first.None? then None
      else
        var n := |EncodeChar(first.value)|;
        var rest := Decode(b[n..]);
        if rest.None? then None
        else
          assert ([first.value] + rest.value)[1..] == rest.value;
          Some([first.value] + rest.value)
  }

  lemma DecodeOneEncoded(c: char, rest: seq<Byte>)
    ensures DecodeOne(EncodeChar(c) + rest) == Some(c)
  {
    var n := c as int;
    var b := EncodeChar(c) + rest;
    if n < 0x80 {
    } else if n < 0x800 {
      assert JoinBits(b[0] - 0xC0, b[1]) == n;
    } else if n < 0x10000 {
      assert n / 4096 == n / 64 / 64;
      assert JoinBits(b[0] - 0xE0, b[1]) == n / 64;
      assert JoinBits(n / 64, b[2]) == n;
    } else {
      assert n / 4096 == n / 64 / 64 && n / 262144 == n / 4096 / 64;
      assert JoinBits(b[0] - 0xF0, b[1]) == n / 4096;
      assert JoinBits(n / 4096, b[2]) == n / 64;
      assert JoinBits(n / 64, b[3]) == n;
    }
  }

  lemma {:induction false} DecodeEncoded(s: string)
    ensures Decode(Encode(s)) == Some(s)
  {
    if s != "" {
      DecodeEncoded(s[1..]);
      DecodeStep(s[0], Encode(s[1..]), s[1..]);
      assert [s[0]] + s[1..] == s;
    }
  }

  lemma DecodeStep(c: char, rest: seq<Byte>, s: string)
    requires Decode(rest) == Some(s)
    ensures Decode(EncodeChar(c) + rest) == Some([c] + s)
  {
    DecodeOneEncoded(c, rest);
    assert (EncodeChar(c) + rest)[|EncodeChar(c)|..] == rest;
  }

  lemma EncodeInjective(s: string, t: string)
    requires Encode(s) == Encode(t)
    ensures s == t
  {
    DecodeEncoded(s);
    DecodeEncoded(t);
  }

  lemma {:induction false} EncodeConcat(s: string, t: string)
    ensures Encode(s + t) == Encode(s) + Encode(t)
  {
    if s == "" {
      assert s + t == t;
    } else {
      EncodeConcat(s[1..], t);
      assert (s + t)[1..] == s[1..] + t;
    }
  }

  lemma {:induction false} EncodeAscii(s: string)
    requires forall i | 0 <= i < |s| :: s[i] as int < 0x80
    ensures |Encode(s)| == |s| && forall i | 0 <= i < |s| :: Encode(s)[i] == s[i] as int
  {
    if s != "" {
      EncodeAscii(s[1..]);
    }
  }

  // ---- Char boundaries ----

  /** `str::is_char_boundary`. */
  predicate IsBoundary(b: seq<Byte>, i: nat) {
    i == 0 || i == |b| || (i < |b| && !Continuation(b[i]))
  }

  /** Cutting at a boundary cuts between scalar values. */
  lemma {:induction false} CutAtBoundary(s: string, i: nat) returns (k: nat)
    requires i <= Len(s) && IsBoundary(Encode(s), i)
    ensures k <= |s| && Encode(s)[..i] == Encode(s[..k]) && Encode(s)[i..] == Encode(s[k..])
  {
    if i == 0 {
      k := 0;
      assert s[..0] == "" && s[0..] == s;
    } else {
      var n := |EncodeChar(s[0])|;
      if i < n {
        assert Encode(s)[i] == EncodeChar(s[0])[i];
        assert false;
      }
      k := CutAtBoundary(s[1..], i - n);
      k := k + 1;
      assert s[..k][0] == s[0] && s[..k][1..] == s[1..][..k - 1] && s[k..] == s[1..][k - 1..];
      CutConcat(EncodeChar(s[0]), Encode(s[1..]), i);
    }
  }

  lemma CutConcat(a: seq<Byte>, b: seq<Byte>, i: nat)
    requires |a| <= i <= |a| + |b|
    ensures (a + b)[..i] == a + b[..i - |a|] && (a + b)[i..] == b[i - |a|..]
  {
  }

  /** A boundary is never more than three bytes to the left. */
  lemma {:induction false} BoundaryNearby(s: string, i: nat) returns (j: nat)
    requires i <= Len(s)
    ensures j <= i < j + 4 && IsBoundary(Encode(s), j)
    ensures forall m | j < m <= i :: !IsBoundary(Encode(s), m)
  {
    if s == "" {
      j := 0;
    } else {
      var n := |EncodeChar(s[0])|;
      if i < n {
        j := 0;
        assert forall m | 0 < m < n :: Encode(s)[m] == EncodeChar(s[0])[m];
      } else {
        j := BoundaryNearby(s[1..], i - n);
        j := j + n;
        var rest := Encode(s[1..]);
        assert Encode(s) == EncodeChar(s[0]) + rest;
        if j == n && rest != [] {
          StartsAtBoundary(s[1..]);
        }
        forall m | j < m <= i ensures !IsBoundary(Encode(s), m) {
          assert !IsBoundary(rest, m - n);
        }
      }
    }
  }

  lemma StartsAtBoundary(s: string)
    requires s != ""
    ensures !Continuation(Encode(s)[0])
  {
    assert Encode(s)[0] == EncodeChar(s[0])[0];
  }

  // ---- Lossy decoding ----

  const REPLACEMENT: char := '\U{FFFD}'

  /** The number of leading bytes that `String::from_utf8_lossy` replaces at once:
      the longest prefix that could still begin a well-formed sequence, at least one byte. */
  function BadPrefix(b: seq<Byte>): (n: nat)
    requires b != []
    ensures 1 <= n <= |b| && n <= 3
  {
    if |b| == 1 then 1
    else
      var second :=
        if b[0] == 0xE0 then 0xA0 <= b[1] < 0xC0
        else if b[0] == 0xED then 0x80 <= b[1] < 0xA0
        else if 0xE1 <= b[0] < 0xF0 then Continuation(b[1])
        else if b[0] == 0xF0 then 0x90 <= b[1] < 0xC0
        else if 0xF1 <= b[0] < 0xF4 then Continuation(b[1])
        else b[0] == 0xF4 && 0x80 <= b[1] < 0x90;
      if !second then 1
      else if b[0] < 0xF0 || |b| == 2 || !Continuation(b[2]) then 2
      else 3
  }

  /** `String::from_utf8_lossy`. */
  function Lossy(b: seq<Byte>): string {
    if b == [] then ""
    else
      var first := DecodeOne(b);
      if first.Some? then [first.value] + Lossy(b[|EncodeChar(first.value)|..])
      else [REPLACEMENT] + Lossy(b[BadPrefix(b)..])
  }

  lemma {:induction false} LossyEncoded(s: string)
    ensures Lossy(Encode(s)) == s
  {
    if s != "" {
      DecodeOneEncoded(s[0], Encode(s[1..]));
      LossyEncoded(s[1..]);
      assert Encode(s)[|EncodeChar(s[0])|..] == Encode(s[1..]);
    }
  }
}
