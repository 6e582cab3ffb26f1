/** Reading the head of an HTTP request, in whatever pieces the network delivers it. */
module Headers {
  import opened Wrappers
  import opened Text
  import opened Utf8

  /** CR LF CR LF. */
  const DELIMITER: seq<Byte> := [13, 10, 13, 10]

  const CAPACITY := 4096

  function Min(a: nat, b: nat): nat { if a <= b then a else b }

  /** A connection: the bytes still to come, and how many each read delivers at most; a read
      delivers at least one byte, unless the peer has closed or the buffer is full. */
  class Socket {
    var incoming: seq<Byte>
    var sizes: seq<nat>

    constructor (incoming: seq<Byte>, sizes: seq<nat>)
      ensures this.incoming == incoming && this.sizes == sizes
    {
      this.incoming := incoming;
      this.sizes := sizes;
    }

    /** Fills `buf` from `used` on. */
    method Read(buf: array<Byte>, used: nat) returns (n: nat)
      requires used <= buf.Length
      modifies this, buf
      ensures n <= buf.Length - used && n <= |old(incoming)|
      ensures n == 0 <==> old(incoming) == [] || used == buf.Length
      ensures incoming == old(incoming)[n..]
      ensures buf[..used + n] == old(buf[..used]) + old(incoming)[..n]
    {
      var size := 1;
      if sizes != [] {
        size := if sizes[0] == 0 then 1 else sizes[0];
        sizes := sizes[1..];
      }
      n := Min(size, Min(|incoming|, buf.Length - used));
      ghost var bytes := incoming;
      for i := 0 to n
        invariant buf[..used + i] == old(buf[..used]) + bytes[..i]
        invariant incoming == bytes
      {
        buf[used + i] := incoming[i];
        assert buf[..used + i + 1] == buf[..used + i] + [bytes[i]];
      }
      incoming := incoming[n..];
    }
  }

  datatype Outcome = Head(end: nat) | TooLong | Closed

  /** What the bytes alone decide: the index past the first delimiter among the first 4096 bytes. */
  function OutcomeOf(bytes: seq<Byte>): Outcome {
    var found := FindFrom(bytes[..Min(CAPACITY, |bytes|)], DELIMITER, 0);
    if found.Some? then Head(found.value + 4)
    else if |bytes| >= CAPACITY then TooLong
    else Closed
  }

  ghost predicate NoDelimiter(b: seq<Byte>) {
    forall i :: !OccursAt(b, DELIMITER, i)
  }

  lemma OccursInPrefix(a: seq<Byte>, b: seq<Byte>, i: nat)
    requires a <= b && i + 4 <= |a|
    ensures OccursAt(a, DELIMITER, i) <==> OccursAt(b, DELIMITER, i)
  {
    assert a[i..i + 4] == b[i..i + 4];
  }

  /** Only the last three bytes read before can be part of a delimiter that is new. */
  lemma SearchFromIsEnough(a: seq<Byte>, b: seq<Byte>)
    requires a <= b && NoDelimiter(a)
    ensures var from := if |a| < 3 then 0 else |a| - 3;
      from <= |b| && FindFrom(b, DELIMITER, from) == FindFrom(b, DELIMITER, 0)
  {
    var from := if |a| < 3 then 0 else |a| - 3;
    forall i | 0 <= i < from ensures !OccursAt(b, DELIMITER, i) {
      OccursInPrefix(a, b, i);
    }
    FindUnique(b, from);
  }

  lemma FindUnique(b: seq<Byte>, from: nat)
    requires from <= |b| && forall i | 0 <= i < from :: !OccursAt(b, DELIMITER, i)
    ensures FindFrom(b, DELIMITER, from) == FindFrom(b, DELIMITER, 0)
  {
    var (x, y) := (FindFrom(b, DELIMITER, from), FindFrom(b, DELIMITER, 0));
    if x.Some? {
      assert OccursAt(b, DELIMITER, x.value);
    }
    if y.Some? {
      assert OccursAt(b, DELIMITER, y.value);
    }
  }

  /** The first delimiter of a prefix is the first of the whole. */
  lemma FoundEarly(a: seq<Byte>, b: seq<Byte>)
    requires a <= b && FindFrom(a, DELIMITER, 0).Some?
    ensures FindFrom(b, DELIMITER, 0) == FindFrom(a, DELIMITER, 0)
  {
    var at := FindFrom(a, DELIMITER, 0).value;
    OccursInPrefix(a, b, at);
    forall i | 0 <= i < at ensures !OccursAt(b, DELIMITER, i) {
      OccursInPrefix(a, b, i);
    }
    FindUnique(b, at);
  }

  lemma Grown(bytes: seq<Byte>, used: nat, n: nat)
    requires used + n <= |bytes|
    ensures bytes[..used] + bytes[used..][..n] == bytes[..used + n] && bytes[used..][n..] == bytes[used + n..]
  {
  }

  lemma SamePrefix(buf: array<Byte>, bytes: seq<Byte>, used: nat, end: nat)
    requires end <= used <= buf.Length && used <= |bytes| && buf[..used] == bytes[..used]
    ensures buf[..end] == bytes[..end]
  {
    assert buf[..used][..end] == buf[..end] && bytes[..used][..end] == bytes[..end];
  }

  /** What a search in the bytes read so far decides. */
  lemma SearchDecides(bytes: seq<Byte>, before: nat, used: nat)
    requires before <= used <= |bytes| && used <= CAPACITY && NoDelimiter(bytes[..before])
    ensures var from := if before < 3 then 0 else before - 3;
      var found := FindFrom(bytes[..used], DELIMITER, from);
      if found.Some? then OutcomeOf(bytes) == Head(found.value + 4) && found.value + 4 <= used
      else NoDelimiter(bytes[..used]) && (used == CAPACITY ==> OutcomeOf(bytes) == TooLong)
  {
    SearchFromIsEnough(bytes[..before], bytes[..used]);
    if FindFrom(bytes[..used], DELIMITER, 0).Some? {
      FoundEarly(bytes[..used], bytes[..Min(CAPACITY, |bytes|)]);
    }
  }

  lemma EndDecides(bytes: seq<Byte>)
    requires |bytes| < CAPACITY && NoDelimiter(bytes)
    ensures OutcomeOf(bytes) == Closed
  {
    assert bytes[..|bytes|] == bytes;
  }

  /** A read, as the loop sees it. */
  method ReadMore(socket: Socket, buf: array<Byte>, used: nat, ghost bytes: seq<Byte>) returns (n: nat)
    requires buf.Length == CAPACITY && used < CAPACITY && used <= |bytes|
    requires buf[..used] == bytes[..used] && socket.incoming == bytes[used..]
    modifies socket, buf
    ensures used + n <= |bytes| && used + n <= CAPACITY && (n == 0 ==> used == |bytes|)
    ensures buf[..used + n] == bytes[..used + n] && socket.incoming == bytes[used + n..]
  {
    n := socket.Read(buf, used);
    Grown(bytes, used, n);
  }

  /** The search for the delimiter after a read, which starts three bytes before the new ones. */
  method Search(buf: array<Byte>, before: nat, used: nat, ghost bytes: seq<Byte>) returns (r: Option<Outcome>)
    requires buf.Length == CAPACITY && before <= used <= CAPACITY && used <= |bytes|
    requires buf[..used] == bytes[..used] && NoDelimiter(bytes[..before])
    ensures r.Some? ==> r.value == OutcomeOf(bytes) && (r.value.Head? ==> r.value.end <= used)
    ensures r.None? ==> NoDelimiter(bytes[..used]) && used < CAPACITY
  {
    SearchDecides(bytes, before, used);
    var end := FindFrom(buf[..used], DELIMITER, if before < 3 then 0 else before - 3);
    if end.Some? {
      return Some(Head(end.value + 4));
    }
    r := if used == buf.Length then Some(TooLong) else None;
  }

  /** The loop that reads the head. However the bytes are cut into reads, the outcome is the one
      that the bytes decide, and the head is in the buffer. */
  method ReadHead(socket: Socket, buf: array<Byte>) returns (r: Outcome)
    requires buf.Length == CAPACITY
    modifies socket, buf
    ensures r == OutcomeOf(old(socket.incoming))
    ensures r.Head? ==> r.end <= |old(socket.incoming)| && r.end <= CAPACITY && buf[..r.end] == old(socket.incoming)[..r.end]
  {
    ghost var bytes := socket.incoming;
    var used := 0;
    while true
      invariant used < CAPACITY && used <= |bytes|
      invariant buf[..used] == bytes[..used] && socket.incoming == bytes[used..]
      invariant NoDelimiter(bytes[..used])
      decreases |bytes| - used
    {
      var n := ReadMore(socket, buf, used, bytes);
      if n == 0 {
        assert bytes[..used] == bytes;
        EndDecides(bytes);
        return Closed;
      }
      var found := Search(buf, used, used + n, bytes);
      used := used + n;
      if found.Some? {
        r := found.value;
        if r.Head? {
          SamePrefix(buf, bytes, used, r.end);
        }
        return;
      }
    }
  }

  // ---- The answer ----

  datatype Response = BadRequest | Metrics | NotFound | Silence

  /** `split_whitespace`. */
  function Words(s: string): seq<string> {
    if s == "" then []
    else if IsWhite(s[0]) then Words(s[1..])
    else
      var rest := s[1..];
      if rest == "" || IsWhite(rest[0]) then [[s[0]]] + Words(rest)
      else
        var words := Words(rest);
        if words == [] then [[s[0]]] else [[s[0]] + words[0]] + words[1..]
  }

  function RouteWords(words: seq<string>): Response {
    if |words| >= 3 && words[0] == "GET" && words[1] == "/metrics" && (words[2] == "HTTP/1.1" || words[2] == "HTTP/1.0")
    then Metrics else NotFound
  }

  /** The request line decides. */
  function Route(head: seq<Byte>): Response {
    RouteWords(Words(Split(Lossy(head), '\n')[0]))
  }

  function Answer(bytes: seq<Byte>): Response {
    match OutcomeOf(bytes)
    case Head(end) => if end <= |bytes| then Route(bytes[..end]) else NotFound
    case TooLong => BadRequest
    case Closed => Silence
  }

  /** `handle_metrics_connection`. */
  method HandleMetricsConnection(socket: Socket) returns (r: Response)
    modifies socket
    ensures r == Answer(old(socket.incoming))
  {
    ghost var bytes := socket.incoming;
    var buf := new Byte[CAPACITY](_ => 0);
    var outcome := ReadHead(socket, buf);
    match outcome
    case Head(end) => r := Route(buf[..end]);
    case TooLong => r := BadRequest;
    case Closed => r := Silence;
  }

  /** What comes after the head never changes the answer, and 400 is the answer exactly if the
      first 4096 bytes are there without a delimiter. */
  lemma AnswerMeaning(bytes: seq<Byte>, more: seq<Byte>)
    ensures OutcomeOf(bytes).Head? ==> OutcomeOf(bytes + more) == OutcomeOf(bytes) && Answer(bytes + more) == Answer(bytes)
    ensures Answer(bytes) == BadRequest <==>
      |bytes| >= CAPACITY && forall i :: !OccursAt(bytes[..CAPACITY], DELIMITER, i)
  {
    var (a, b) := (bytes[..Min(CAPACITY, |bytes|)], (bytes + more)[..Min(CAPACITY, |bytes + more|)]);
    assert a <= b;
    if OutcomeOf(bytes).Head? {
      FoundEarly(a, b);
      var end := OutcomeOf(bytes).end;
      assert bytes[..end] == (bytes + more)[..end];
    }
  }

  predicate Word(w: string) {
    w != "" && forall i | 0 <= i < |w| :: !IsWhite(w[i])
  }

  lemma {:induction false} WordsStep(w: string, rest: string)
    requires Word(w) && (rest == "" || IsWhite(rest[0]))
    ensures Words(w + rest) == [w] + Words(rest)
  {
    var t := w[1..] + rest;
    assert (w + rest)[0] == w[0] && (w + rest)[1..] == t;
    if |w| == 1 {
      assert t == rest && [w[0]] == w;
    } else {
      assert t[0] == w[1];
      WordsStep(w[1..], rest);
      assert [w[0]] + w[1..] == w;
    }
  }

  lemma LineWords(verb: string, path: string, version: string)
    requires Word(verb) && Word(path) && Word(version)
    ensures Words(verb + (" " + (path + (" " + (version + "\r"))))) == [verb, path, version]
  {
    var end := version + "\r";
    var middle := path + (" " + end);
    assert Words("\r") == [];
    WordsStep(version, "\r");
    WordsStep(path, " " + end);
    WordsStep(verb, " " + middle);
    assert (" " + end)[1..] == end && (" " + middle)[1..] == middle;
  }

  /** A well-formed request line is routed by its three words, whatever follows it. */
  lemma RouteMeaning(verb: string, path: string, version: string, rest: string)
    requires Word(verb) && Word(path) && Word(version)
    ensures Route(Encode(verb + (" " + (path + (" " + (version + "\r")))) + ("\n" + rest))) ==
      if verb == "GET" && path == "/metrics" && (version == "HTTP/1.1" || version == "HTTP/1.0") then Metrics else NotFound
  {
    var line := verb + (" " + (path + (" " + (version + "\r"))));
    NoBreak(verb);
    NoBreak(path);
    NoBreak(version);
    FirstLine(line, rest);
    LineWords(verb, path, version);
  }

  lemma FirstLine(line: string, rest: string)
    requires '\n' !in line
    ensures Split(Lossy(Encode(line + ("\n" + rest))), '\n')[0] == line
  {
    LossyEncoded(line + ("\n" + rest));
    SplitCons(line, '\n', rest);
  }

  lemma NoBreak(w: string)
    requires Word(w)
    ensures '\n' !in w
  {
  }
}
