/**
 The chunk decoder inverts chunked encoding (section 7.1 of RFC 9112, without extensions and
 trailers), however the reads cut the payloads and the line ends behind them; a size line may be cut
 behind leading zeros, and nowhere else.
 */
module ChunkedDecoding {
  import opened Wrappers
  import opened HttpText
  import opened ParserTables
  import opened Machine
  import opened HeaderGrammar
  import opened MessageHead
  import opened HttpMessages
  import opened ByteStream
  import opened Framing

  /** A chunk: its size in hex, spelled in any way, and its payload. */
  datatype Chunk = Chunk(size: string, payload: string)
  {
    predicate Valid() {
      IsHexNumber(size) && Value(size, 16) == |payload| && 0 < |payload| <= 0x7fff_fffd
    }

    function SizeLine(): string {
      size + CRLF
    }

    function Text(): string {
      SizeLine() + (payload + CRLF)
    }
  }

  predicate AllChunks(chunks: seq<Chunk>) {
    forall i :: 0 <= i < |chunks| ==> chunks[i].Valid()
  }

  /** The last size line: the number zero. */
  predicate IsZero(last: string) {
    IsHexNumber(last) && Value(last, 16) == 0
  }

  /** The encoded body. */
  function Wire(chunks: seq<Chunk>, last: string): string {
    if chunks == [] then (last + CRLF) + CRLF else chunks[0].Text() + Wire(chunks[1..], last)
  }

  function Payloads(chunks: seq<Chunk>): string {
    if chunks == [] then "" else chunks[0].payload + Payloads(chunks[1..])
  }

  /** A read may end inside a size line only behind leading zeros; `at` is where the line begins. */
  predicate SizeLineKept(data: string, s: Arrivals, at: nat, size: string) {
    && !Boundary(data, s, at + |size|) && !Boundary(data, s, at + |size| + 1)
    && forall k :: 0 < k < |size| && Boundary(data, s, at + k) ==> AllZeros(size, k)
  }

  predicate AllZeros(size: string, k: nat)
    requires k <= |size|
  {
    forall i :: 0 <= i < k ==> size[i] == '0'
  }

  /** The same for every size line of an encoded body that begins at `at`. */
  predicate SizeLinesKept(data: string, s: Arrivals, at: nat, chunks: seq<Chunk>, last: string)
    decreases |chunks|
  {
    if chunks == [] then SizeLineKept(data, s, at, last)
    else
      && SizeLineKept(data, s, at, chunks[0].size)
      && SizeLinesKept(data, s, at + |chunks[0].Text()|, chunks[1..], last)
  }

  predicate Accepted(m: Parser) {
    !AnyRejected(ResponseRejects, m.events)
  }

  lemma AcceptedMore(m: Parser, a: Event, b: Event)
    requires Accepted(m) && !ResponseRejects(a) && !ResponseRejects(b)
    ensures !AnyRejected(ResponseRejects, m.events + [a, b])
  {
  }

  /** A size that an int can hold is stored as it is. */
  lemma SizeIsExact(size: string)
    requires AllDigits(size, 16) && Value(size, 16) < 0x8000_0000
    ensures SizeOf(size) == Value(size, 16)
  {
  }

  /** What the parser holds behind a size line. */
  predicate Sized(m: Parser, n: nat) {
    m.contentLen == n && m.chunksDone == (n == 0) && m.chunked && Accepted(m)
  }

  /** One call of execute on a buffer that starts with a whole size line. */
  lemma SizeLineExecute(m: Parser, line: string, size: string, rest: string)
    requires Accepted(m) && IsHexNumber(size) && Value(size, 16) < 0x8000_0000 && line == size + CRLF
    ensures var (m', n) := Execute(ResponseEdge, Reset(m, -1), line + rest);
            n == |line| && m'.cs == 120 && Sized(m', Value(size, 16))
            && exists e :: m'.events == m.events + [e, HeaderDone] && (e.ChunkSize? || e.LastChunk?)
  {
    hide Run, Value, SizeOf;
    var z := ZeroRegisters(Reset(m, -1));
    assert (line + rest)[0..|line|] == line;
    SizeLineRun(z, line + rest, 0, size, CRLF);
    SizeIsExact(size);
    var n := SizeOf(size);
    var e := if n <= 0 then LastChunk(n) else ChunkSize(n);
    AcceptedMore(m, e, HeaderDone);
    assert m.events + [e] + [HeaderDone] == m.events + [e, HeaderDone];
  }

  lemma SplitText(buffer: string, more: string, line: string, rest: string)
    requires buffer + more == line + rest && |line| <= |buffer|
    ensures buffer == line + buffer[|line|..] && buffer[|line|..] + more == rest
  {
    assert (buffer + more)[..|line|] == (line + rest)[..|line|] == line;
    assert (buffer + more)[|line|..] == (line + rest)[|line|..] == rest;
  }

  // ---------------------------------------------------------------- a size line, cut anywhere

  function Power16(n: nat): nat {
    if n == 0 then 1 else 16 * Power16(n - 1)
  }

  lemma TimesSixteen(v: nat, p: nat, w: nat)
    ensures 16 * (v * p + w) == v * (16 * p) + 16 * w
  {
  }

  lemma LastDigit(s: string)
    requires s != "" && AllDigits(s, 16)
    ensures AllDigits(s[..|s| - 1], 16) && IsHex(s[|s| - 1])
    ensures Value(s, 16) == 16 * Value(s[..|s| - 1], 16) + DigitValue(s[|s| - 1])
  {
    assert IsDigitIn(s[|s| - 1], 16);
  }

  lemma {:induction false} ValueOfConcat(a: string, b: string)
    requires AllDigits(a, 16) && AllDigits(b, 16)
    ensures AllDigits(a + b, 16) && Power16(|b|) > 0
    ensures Value(a + b, 16) == Value(a, 16) * Power16(|b|) + Value(b, 16)
    decreases |b|
  {
    if b == "" {
      assert a + b == a;
    } else {
      hide Value, DigitValue;
      var front := b[..|b| - 1];
      LastDigit(b);
      ValueOfConcat(a, front);
      assert (a + b)[..|a + b| - 1] == a + front && (a + b)[|a + b| - 1] == b[|b| - 1];
      LastDigit(a + b);
      TimesSixteen(Value(a, 16), Power16(|front|), Value(front, 16));
    }
  }

  lemma {:induction false} ZeroIff(size: string, k: nat)
    requires AllDigits(size, 16) && k <= |size|
    ensures AllDigits(size[..k], 16) && (Value(size[..k], 16) == 0 <==> AllZeros(size, k))
    decreases k
  {
    if k > 0 {
      hide Value;
      ZeroIff(size, k - 1);
      LastDigit(size[..k]);
      assert size[..k][..k - 1] == size[..k - 1];
    }
  }

  /** Leaving leading digits out keeps the number if and only if they are zeros. */
  lemma DropIff(size: string, k: nat)
    requires AllDigits(size, 16) && k <= |size|
    ensures AllDigits(size[k..], 16) && Value(size[k..], 16) <= Value(size, 16)
    ensures Value(size[k..], 16) == Value(size, 16) <==> AllZeros(size, k)
  {
    hide Value, AllZeros;
    ZeroIff(size, k);
    assert size == size[..k] + size[k..];
    ValueOfConcat(size[..k], size[k..]);
    var v, p := Value(size[..k], 16), Power16(|size| - k);
    assert v * p >= 0 && (v * p == 0 <==> v == 0);
  }

  /** What is in the buffer when the loop parses for the first time, and what is left to read. */
  function FirstBuffer(data: string, s: Arrivals): (string, Arrivals)
    requires data != "" || s != []
  {
    if data != "" then (data, s) else (s[0], s[1..])
  }

  /** One round of the size-line loop, with the buffer filled. */
  function Round(m: Parser, buffer: string, s: Arrivals): Option<Head>
    requires 0 < |buffer| <= BUFFER
  {
    var (m', n) := Execute(ResponseEdge, Reset(m, -1), buffer);
    if Failed(RESPONSES, m') then None
    else
      ExecuteProgress(ResponseEdge, Reset(m, -1), buffer);
      if ResponseFinal(m'.cs) then Some((m', buffer[n..], s)) else ReceiveSize(m', buffer[n..], s, false)
  }

  lemma ReceiveSizeIsRound(m: Parser, data: string, s: Arrivals, begin: bool)
    requires |data| < BUFFER && Steady(s, BUFFER) && (data == "" ==> s != []) && (begin || data == "")
    ensures var (buffer, s') := FirstBuffer(data, s);
            0 < |buffer| <= BUFFER && ReceiveSize(m, data, s, begin) == Round(m, buffer, s')
  {
    hide Execute;
    assert data + "" == data;
    if data == "" { assert "" + s[0] == s[0]; }
  }

  /** The last place in front of n, or at it, where a read ends; 0 when there is none. */
  function LastCut(data: string, s: Arrivals, n: nat): (k: nat)
    ensures k <= n && (k > 0 ==> Boundary(data, s, k)) && forall x :: k < x <= n ==> !Boundary(data, s, x)
  {
    if n == 0 || Boundary(data, s, n) then n else LastCut(data, s, n - 1)
  }

  /** Behind the first buffer, the cuts are those that are left. */
  lemma CutsBehindBuffer(data: string, s: Arrivals)
    requires Steady(s, BUFFER) && (data == "" ==> s != [])
    ensures var (buffer, s') := FirstBuffer(data, s);
            && Boundary(data, s, |buffer|)
            && (forall x {:trigger Boundary("", s', x)} :: x > 0 ==> (Boundary("", s', x) <==> Boundary(data, s, |buffer| + x)))
            && forall x :: 0 < x < |buffer| ==> !Boundary(data, s, x)
  {
    var (buffer, s') := FirstBuffer(data, s);
    forall x | 0 < x < |buffer|
      ensures !Boundary(data, s, x)
    {
      if CutAt(s, x - |data|) { CutsArePositive(s, BUFFER, x - |data|); }
      if data == "" && CutAt(s[1..], x - |s[0]|) { CutsArePositive(s[1..], BUFFER, x - |s[0]|); }
    }
  }

  lemma LastCutIs(data: string, s: Arrivals, n: nat, k: nat)
    requires k <= n && (k > 0 ==> Boundary(data, s, k)) && forall x :: k < x <= n ==> !Boundary(data, s, x)
    ensures LastCut(data, s, n) == k
  {
  }

  /** Digits alone: all are consumed, and the parser waits for more. */
  lemma DigitsExecute(m: Parser, a: string)
    requires IsHexNumber(a)
    ensures var (m', n) := Execute(ResponseEdge, Reset(m, -1), a);
            n == |a| && m'.cs == 2 && m'.events == m.events
  {
    hide ResponseEdge;
    var z := ZeroRegisters(Reset(m, -1));
    assert a[0..|a|] == a;
    SizeDigits(z, a, 0, a);
  }

  /** Digits and a carriage return: the number is delivered, and the parser waits for the line feed. */
  lemma ReturnExecute(m: Parser, a: string)
    requires IsHexNumber(a)
    ensures var (m', n) := Execute(ResponseEdge, Reset(m, -1), a + [CR]);
            n == |a| + 1 && m'.cs == 3
  {
    hide ResponseEdge, NumberAt;
    var z, u := ZeroRegisters(Reset(m, -1)), a + [CR];
    assert u[0..|a|] == a;
    SizeDigits(z, u, 0, a);
    SizeEdges();
    Step(ResponseEdge, z.(cs := 2, mark := 0), u, |a|, Go(3, EmitChunk));
  }

  /** A call that starts at the line end fails. */
  lemma LineEndFails(m: Parser, buffer: string)
    requires 0 < |buffer| <= BUFFER && (buffer[0] == CR || buffer[0] == LF)
    ensures Failed(RESPONSES, Execute(ResponseEdge, Reset(m, -1), buffer).0)
  {
    assert ResponseEdge(1, buffer[0]) == REJECT;
  }

  /** The loop, when what is left of the line is its end, or part of it. */
  lemma NothingButLineEnd(m: Parser, s: Arrivals, eol: string)
    requires Steady(s, BUFFER) && Concat(s) != "" && (Concat(s)[0] == CR || Concat(s)[0] == LF)
    ensures ReceiveSize(m, "", s, false) == None
  {
    hide Execute, Failed;
    ReceiveSizeIsRound(m, "", s, false);
    LineEndFails(m, s[0]);
  }

  /** The result of the size-line loop over a whole line. */
  ghost predicate GotSize(m: Parser, n: nat, at: nat, data: string, s: Arrivals, rest: string, r: Head) {
    && Sized(r.0, n) && r.1 + Concat(r.2) == rest && Reached(data, s, at, r.1, r.2)
    && (r.1 == "" <==> Boundary(data, s, at))
    && exists e :: r.0.events == m.events + [e, HeaderDone] && (e.ChunkSize? || e.LastChunk?)
  }

  lemma BufferText(data: string, s: Arrivals, text: string)
    requires (data == "" ==> s != []) && data + Concat(s) == text
    ensures var (buffer, s') := FirstBuffer(data, s); buffer + Concat(s') == text
  {
    assert data == "" ==> data + Concat(s) == Concat(s);
  }

  /** The cuts behind a part of the first buffer. */
  lemma ReachedTail(data: string, s: Arrivals, n: nat)
    requires Steady(s, BUFFER) && |data| < BUFFER && (data == "" ==> s != []) && 0 < n <= |FirstBuffer(data, s).0|
    ensures var (buffer, s') := FirstBuffer(data, s);
            Reached(data, s, n, buffer[n..], s') && (buffer[n..] == "" <==> Boundary(data, s, n))
  {
    CutsBehindBuffer(data, s);
    var (buffer, s') := FirstBuffer(data, s);
    assert |data| + |Concat(s)| == |buffer| + |Concat(s')|;
    var tail := buffer[n..];
    forall x | x > 0
      ensures Boundary(tail, s', x) <==> Boundary(data, s, n + x)
    {
      var y := x - |tail|;
      if y > 0 {
        assert Boundary("", s', y) <==> Boundary(data, s, |buffer| + y);
      } else if y < 0 {
        if CutAt(s', y) { CutsArePositive(s', BUFFER, y); }
      }
    }
  }

  /** The first buffer holds the whole line. */
  lemma WholeLine(m: Parser, size: string, data: string, s: Arrivals, rest: string)
    requires Accepted(m) && IsHexNumber(size) && Value(size, 16) < 0x8000_0000 && |data| < BUFFER && Steady(s, BUFFER)
    requires (data == "" ==> s != []) && |FirstBuffer(data, s).0| >= |size| + 2 && |FirstBuffer(data, s).0| <= BUFFER
    requires var (buffer, s') := FirstBuffer(data, s); buffer + Concat(s') == (size + CRLF) + rest
    ensures var (buffer, s') := FirstBuffer(data, s);
            var r := Round(m, buffer, s');
            r.Some? && GotSize(m, Value(size, 16), |size| + 2, data, s, rest, r.value)
  {
    hide Execute, Value, Concat, Reached, IsHexNumber, AnyRejected;
    var (buffer, s') := FirstBuffer(data, s);
    var line := size + CRLF;
    SplitText(buffer, Concat(s'), line, rest);
    SizeLineExecute(m, line, size, buffer[|line|..]);
    ReachedTail(data, s, |line|);
  }

  /** The first buffer holds less: the loop reads on, with the buffer empty. */
  lemma RoundGoesOn(m: Parser, buffer: string, s: Arrivals)
    requires 0 < |buffer| <= BUFFER
    requires var (m', n) := Execute(ResponseEdge, Reset(m, -1), buffer); n == |buffer| && !ResponseFinal(m'.cs)
    ensures var m' := Execute(ResponseEdge, Reset(m, -1), buffer).0;
            Round(m, buffer, s) == if Failed(RESPONSES, m') then None else ReceiveSize(m', "", s, false)
  {
    hide Execute, ReceiveSize, Failed;
    assert buffer[|buffer|..] == "";
  }

  /** The first buffer ends right behind the digits, or between CR and LF. */
  lemma CutInLineEnd(m: Parser, size: string, buffer: string, s: Arrivals, rest: string)
    requires IsHexNumber(size) && |buffer| <= BUFFER && Steady(s, BUFFER) && buffer + Concat(s) == (size + CRLF) + rest
    requires |size| <= |buffer| <= |size| + 1
    ensures Round(m, buffer, s) == None
  {
    assert |size| > 0;
    hide Execute, ReceiveSize, Failed, IsHexNumber, Concat, Round;
    var text, n := (size + CRLF) + rest, |buffer|;
    assert buffer == text[..n] && Concat(s) == text[n..];
    var m' := Execute(ResponseEdge, Reset(m, -1), buffer).0;
    if n == |size| {
      assert buffer == size && Concat(s)[0] == CR;
      DigitsExecute(m, size);
    } else {
      assert buffer == size + [CR] && Concat(s)[0] == LF;
      ReturnExecute(m, size);
    }
    RoundGoesOn(m, buffer, s);
    NothingButLineEnd(m', s, rest);
  }

  /** The first buffer ends amid the digits: what is behind them is read as a line of its own. */
  lemma CutInDigits(m: Parser, size: string, buffer: string, s: Arrivals, rest: string) returns (m': Parser)
    requires Accepted(m) && IsHexNumber(size) && Value(size, 16) < 0x8000_0000
    requires 0 < |buffer| < |size| && |buffer| <= BUFFER && buffer + Concat(s) == (size + CRLF) + rest
    ensures Round(m, buffer, s) == ReceiveSize(m', "", s, false)
    ensures var tail := size[|buffer|..];
            && Accepted(m') && m'.events == m.events && IsHexNumber(tail) && Value(tail, 16) < 0x8000_0000
            && "" + Concat(s) == (tail + CRLF) + rest
  {
    hide Execute, ReceiveSize, AnyRejected, Concat, Round, Value;
    var text, n := (size + CRLF) + rest, |buffer|;
    assert buffer == text[..n] == size[..n] && Concat(s) == text[n..] == (size[n..] + CRLF) + rest;
    DropIff(size, n);
    DigitsExecute(m, buffer);
    RoundGoesOn(m, buffer, s);
    m' := Execute(ResponseEdge, Reset(m, -1), buffer).0;
  }

  /** Cuts seen from the beginning of the line and from behind its first buffer. */
  lemma CutsShift(data: string, s: Arrivals, n: nat)
    requires Steady(s, BUFFER) && (data == "" ==> s != []) && 0 < |FirstBuffer(data, s).0| < n
    ensures var (buffer, s') := FirstBuffer(data, s);
            var k := |buffer|;
            && (Boundary("", s', n - k) <==> Boundary(data, s, n))
            && (Boundary("", s', n - k + 1) <==> Boundary(data, s, n + 1))
            && LastCut(data, s, n - 1) == k + LastCut("", s', n - k - 1)
  {
    hide Boundary, LastCut, Steady;
    CutsBehindBuffer(data, s);
    var (buffer, s') := FirstBuffer(data, s);
    var k := |buffer|;
    var j := LastCut("", s', n - k - 1);
    forall x | k + j < x <= n - 1
      ensures !Boundary(data, s, x)
    {
      assert !Boundary("", s', x - k);
      assert Boundary("", s', x - k) <==> Boundary(data, s, k + (x - k));
    }
    LastCutIs(data, s, n - 1, k + j);
    assert Boundary("", s', n - k) <==> Boundary(data, s, k + (n - k));
    assert Boundary("", s', n - k + 1) <==> Boundary(data, s, k + (n - k + 1));
  }

  /** A line that the first buffer holds whole is not cut. */
  lemma WholeLineCuts(data: string, s: Arrivals, n: nat)
    requires Steady(s, BUFFER) && (data == "" ==> s != []) && 0 < n && n + 2 <= |FirstBuffer(data, s).0|
    ensures LastCut(data, s, n - 1) == 0 && !Boundary(data, s, n) && !Boundary(data, s, n + 1)
  {
    hide Boundary, LastCut, Steady;
    CutsBehindBuffer(data, s);
    LastCutIs(data, s, n - 1, 0);
  }

  lemma FirstCutIs(data: string, s: Arrivals)
    requires data == "" ==> s != []
    ensures Boundary(data, s, |FirstBuffer(data, s).0|)
  {
  }

  lemma GotSizeShift(m: Parser, m': Parser, v: nat, at: nat, data: string, s: Arrivals, rest: string, r: Head)
    requires Steady(s, BUFFER) && |data| < BUFFER && (data == "" ==> s != []) && 0 < |FirstBuffer(data, s).0|
    requires at > 0 && m'.events == m.events && GotSize(m', v, at, "", FirstBuffer(data, s).1, rest, r)
    ensures GotSize(m, v, |FirstBuffer(data, s).0| + at, data, s, rest, r)
  {
    hide Sized;
    CutsBehindBuffer(data, s);
    var (buffer, s') := FirstBuffer(data, s);
    assert |data| + |Concat(s)| == |buffer| + |Concat(s')|;
    hide Boundary;
    forall x | x > 0
      ensures Boundary(r.1, r.2, x) <==> Boundary(data, s, |buffer| + at + x)
    {
      assert Boundary("", s', at + x) <==> Boundary(data, s, |buffer| + (at + x));
    }
    assert Boundary("", s', at) <==> Boundary(data, s, |buffer| + at);
  }

  /**
   The size-line loop, for every way the reads cut the line: the connection closes if and only if a read
   ends right behind the digits or between CR and LF; otherwise the number behind the last cut is taken
   for the size.
   */
  lemma {:induction false} ReceiveSizeLine(m: Parser, size: string, data: string, s: Arrivals, rest: string, begin: bool)
    requires Accepted(m) && IsHexNumber(size) && Value(size, 16) < 0x8000_0000 && (begin || data == "")
    requires |data| < BUFFER && Steady(s, BUFFER) && data + Concat(s) == (size + CRLF) + rest
    ensures var r, n := ReceiveSize(m, data, s, begin), |size|;
            && (r.Some? <==> !Boundary(data, s, n) && !Boundary(data, s, n + 1))
            && var k := LastCut(data, s, n - 1);
            && AllDigits(size[k..], 16)
            && (r.Some? ==> GotSize(m, Value(size[k..], 16), n + 2, data, s, rest, r.value))
    decreases |size|
  {
    hide Execute, Value, ReceiveSize, Concat, Failed, Boundary, Reached, GotSize, AnyRejected, LastCut, Round, Steady, FirstBuffer,
      Accepted;
    var n := |size|;
    DropIff(size, LastCut(data, s, n - 1));
    TextLeft(data, s, (size + CRLF) + rest);
    ReceiveSizeIsRound(m, data, s, begin);
    FirstCutIs(data, s);
    BufferText(data, s, (size + CRLF) + rest);
    var (buffer, s') := FirstBuffer(data, s);
    SteadyBehind(data, s);
    if |buffer| >= n + 2 {
      WholeLineCuts(data, s, n);
      assert size[0..] == size;
      WholeLine(m, size, data, s, rest);
    } else if |buffer| >= n {
      CutInLineEnd(m, size, buffer, s', rest);
    } else {
      var m' := CutInDigits(m, size, buffer, s', rest);
      var tail, k := size[|buffer|..], |buffer|;
      ReceiveSizeLine(m', tail, "", s', rest, false);
      CutsShift(data, s, n);
      var j := LastCut("", s', |tail| - 1);
      assert tail[j..] == size[k + j..];
      var r := ReceiveSize(m, data, s, begin);
      if r.Some? { GotSizeShift(m, m', Value(tail[j..], 16), |tail| + 2, data, s, rest, r.value); }
    }
  }

  lemma TextLeft(data: string, s: Arrivals, text: string)
    requires data + Concat(s) == text && text != ""
    ensures data == "" ==> s != []
  {
  }

  lemma SteadyBehind(data: string, s: Arrivals)
    requires Steady(s, BUFFER) && (data == "" ==> s != [])
    ensures Steady(FirstBuffer(data, s).1, BUFFER)
  {
  }

  /**
   Exactly when a size line is understood: when no read ends right behind its digits or between CR and
   LF, and reads end amid the digits only behind leading zeros.
   */
  lemma SizeLineIff(m: Parser, size: string, data: string, s: Arrivals, rest: string)
    requires Accepted(m) && IsHexNumber(size) && Value(size, 16) < 0x8000_0000
    requires |data| < BUFFER && Steady(s, BUFFER) && data + Concat(s) == (size + CRLF) + rest
    ensures var r := ReceiveSize(m, data, s, true);
            && (r.Some? && r.value.0.contentLen == Value(size, 16) <==> SizeLineKept(data, s, 0, size))
            && (SizeLineKept(data, s, 0, size) ==> GotSize(m, Value(size, 16), |size| + 2, data, s, rest, r.value))
  {
    hide ReceiveSize, Value, Concat, Boundary, Reached, AnyRejected, LastCut, Steady, AllZeros;
    ReceiveSizeLine(m, size, data, s, rest, true);
    var k := LastCut(data, s, |size| - 1);
    DropIff(size, k);
    if AllZeros(size, k) {
      forall x | 0 < x < |size| && Boundary(data, s, 0 + x)
        ensures AllZeros(size, x)
      {
        ZerosInFront(size, x, k);
      }
    }
  }

  lemma ZerosInFront(size: string, x: nat, k: nat)
    requires x <= k <= |size| && AllZeros(size, k)
    ensures AllZeros(size, x)
  {
  }

  /** The same within an encoded body. */
  lemma ReceiveKeptSize(m: Parser, size: string, data0: string, s0: Arrivals, at: nat, data: string, s: Arrivals, rest: string)
    requires Accepted(m) && IsHexNumber(size) && Value(size, 16) < 0x8000_0000
    requires Reached(data0, s0, at, data, s) && SizeLineKept(data0, s0, at, size)
    requires data + Concat(s) == (size + CRLF) + rest
    ensures var r := ReceiveSize(m, data, s, true);
            && r.Some? && Sized(r.value.0, Value(size, 16)) && r.value.1 + Concat(r.value.2) == rest
            && Reached(data0, s0, at + |size + CRLF|, r.value.1, r.value.2)
            && (r.value.1 == "" <==> Boundary(data0, s0, at + |size + CRLF|))
            && exists e :: r.value.0.events == m.events + [e, HeaderDone] && (e.ChunkSize? || e.LastChunk?)
  {
    hide ReceiveSize, Value, Concat, Boundary, AnyRejected, Steady, AllZeros;
    KeptHere(data0, s0, at, data, s, size);
    SizeLineIff(m, size, data, s, rest);
    var r := ReceiveSize(m, data, s, true);
    forall x | x > 0
      ensures Boundary(r.value.1, r.value.2, x) <==> Boundary(data0, s0, at + |size + CRLF| + x)
    {
      assert Boundary(data, s, (|size| + 2) + x) <==> Boundary(data0, s0, at + ((|size| + 2) + x));
    }
    assert Boundary(data, s, |size| + 2) <==> Boundary(data0, s0, at + (|size| + 2));
  }

  lemma KeptHere(data0: string, s0: Arrivals, at: nat, data: string, s: Arrivals, size: string)
    requires Reached(data0, s0, at, data, s) && SizeLineKept(data0, s0, at, size) && size != ""
    ensures SizeLineKept(data, s, 0, size)
  {
    hide Boundary, AllZeros;
    forall k | 0 < k < |size| && Boundary(data, s, 0 + k)
      ensures AllZeros(size, k)
    {
      assert Boundary(data0, s0, at + k);
    }
  }

  /** The payload and the two bytes behind it, which may be any, cut anywhere. */
  lemma ReceiveWholePayload(payload: string, end: string, data0: string, s0: Arrivals, at: nat, data: string, s: Arrivals,
                            rest: string, body: string)
    requires Reached(data0, s0, at, data, s) && |end| == 2
    requires data + Concat(s) == (payload + end) + rest
    ensures var r := ReceivePayload(|payload|, data, s, body);
            && r.Got? && r.value.0 == body + payload && r.value.1 + Concat(r.value.2) == rest
            && Reached(data0, s0, at + |payload| + 2, r.value.1, r.value.2)
  {
    hide Concat, Drain, Steady;
    var n := |payload| + 2;
    if n <= |data| {
      SplitText(data, Concat(s), payload + end, rest);
      assert data[..|payload|] == payload;
      forall x | x > 0
        ensures Boundary(data[n..], s, x) <==> Boundary(data0, s0, at + n + x)
      {
        assert Boundary(data, s, n + x) <==> Boundary(data0, s0, at + (n + x));
      }
    } else {
      var left := n - |data|;
      DrainCuts(s, left, BUFFER, BUFFER);
      var (t, s') := Drain(s, left, BUFFER).value;
      Assoc(data, t, Concat(s'));
      SplitAt(data + t, Concat(s'), payload + end, rest);
      Assoc(body, data, t);
      Assoc(body, payload, end);
      forall x | x > 0
        ensures Boundary("", s', x) <==> Boundary(data0, s0, at + n + x)
      {
        assert CutAt(s', x) <==> CutAt(s, x + left);
        assert Boundary(data, s, n + x) <==> Boundary(data0, s0, at + (n + x));
      }
    }
  }

  /** The payload loop reads no further than the payload: the buffer only holds more if an earlier read did. */
  lemma BufferRunsOut(data0: string, s0: Arrivals, at: nat, data: string, s: Arrivals, n: nat)
    requires Reached(data0, s0, at, data, s) && (data == "" <==> Boundary(data0, s0, at))
    ensures |data| <= n <==> StopsWithin(data0, s0, at, at + n)
  {
    if |data| <= n {
      assert data != "" ==> Boundary(data, s, |data|);
      assert Boundary(data0, s0, at + |data|);
    }
    if StopsWithin(data0, s0, at, at + n) {
      var x :| at <= x <= at + n && Boundary(data0, s0, x);
      if x > at {
        assert Boundary(data, s, x - at) <==> Boundary(data0, s0, at + (x - at));
        if x - at != |data| { CutsArePositive(s, BUFFER, x - at - |data|); }
      }
    }
  }

  lemma PayloadLeaves(n: nat, data: string, s: Arrivals, body: string)
    requires |data| < BUFFER && ReceivePayload(n, data, s, body).Got?
    ensures ReceivePayload(n, data, s, body).value.1 == "" <==> |data| <= n + 2
  {
    hide Drain, Concat;
  }

  /** The payload behind a size line, and what is left of the buffer behind it. */
  lemma PayloadRound(payload: string, data0: string, s0: Arrivals, at: nat, data: string, s: Arrivals, rest: string, body: string)
    requires Reached(data0, s0, at, data, s) && (data == "" <==> Boundary(data0, s0, at))
    requires data + Concat(s) == (payload + CRLF) + rest
    ensures var r := ReceivePayload(|payload|, data, s, body);
            && r.Got? && r.value.0 == body + payload && r.value.1 + Concat(r.value.2) == rest
            && Reached(data0, s0, at + |payload| + 2, r.value.1, r.value.2)
            && (r.value.1 == "" <==> StopsWithin(data0, s0, at, at + |payload| + 2))
  {
    ReachedRoom(data0, s0, at, data, s);
    hide *;
    ReceiveWholePayload(payload, CRLF, data0, s0, at, data, s, rest, body);
    PayloadLeaves(|payload|, data, s, body);
    BufferRunsOut(data0, s0, at, data, s, |payload| + 2);
  }

  /**
   What one round of the decoder leads to, with `end` behind the size line: a size, the payload behind it,
   and a buffer that is empty if and only if the last read went no further.
   */
  ghost predicate RoundDone(m: Parser, m1: Parser, payload: string, data0: string, s0: Arrivals, end: nat, more: string,
                            body: string, r: Outcome<(string, string, Arrivals)>) {
    && Sized(m1, |payload|) && BuildResponse(m1.events) == BuildResponse(m.events)
    && r.Got? && r.value.0 == body + payload && r.value.1 + Concat(r.value.2) == more
    && Reached(data0, s0, end + |payload| + 2, r.value.1, r.value.2)
    && (r.value.1 == "" <==> StopsWithin(data0, s0, end, end + |payload| + 2))
  }

  /** One round of the decoder: a size line and its payload. */
  lemma DecodeOne(m: Parser, size: string, payload: string, data0: string, s0: Arrivals, at: nat,
                  data: string, s: Arrivals, more: string, body: string)
    requires Accepted(m) && IsHexNumber(size) && Value(size, 16) == |payload| < 0x8000_0000
    requires |data| < BUFFER && Reached(data0, s0, at, data, s) && SizeLineKept(data0, s0, at, size)
    requires data + Concat(s) == (size + CRLF) + ((payload + CRLF) + more)
    ensures ReceiveSize(m, data, s, true).Some?
    ensures var (m1, d1, s1) := ReceiveSize(m, data, s, true).value;
            RoundDone(m, m1, payload, data0, s0, at + |size + CRLF|, more, body, ReceivePayload(|payload|, d1, s1, body))
  {
    hide Reached, SizeLineKept, IsHexNumber, Value, AnyRejected, ReceiveSize, ReceivePayload, Concat, Boundary, BuildResponse,
      StopsWithin, Drain, Read;
    ReceiveKeptSize(m, size, data0, s0, at, data, s, (payload + CRLF) + more);
    var (m1, d1, s1) := ReceiveSize(m, data, s, true).value;
    SizesAddNothing(m, m1);
    PayloadRound(payload, data0, s0, at + |size + CRLF|, d1, s1, more, body);
  }

  /** The first size line and payload of an encoded body. */
  lemma WireParts(chunks: seq<Chunk>, last: string, rest: string)
    ensures chunks == [] ==>
              && Wire(chunks, last) + rest == (last + CRLF) + (("" + CRLF) + rest)
              && |Wire(chunks, last)| == |last + CRLF| + 2 && Payloads(chunks) == ""
    ensures chunks != [] ==>
              && Wire(chunks, last) + rest
                 == (chunks[0].size + CRLF) + ((chunks[0].payload + CRLF) + (Wire(chunks[1..], last) + rest))
              && |chunks[0].Text()| == |chunks[0].size + CRLF| + |chunks[0].payload| + 2
              && |Wire(chunks, last)| == |chunks[0].Text()| + |Wire(chunks[1..], last)|
              && Payloads(chunks) == chunks[0].payload + Payloads(chunks[1..])
  {
  }

  lemma KeptParts(data: string, s: Arrivals, at: nat, chunks: seq<Chunk>, last: string)
    requires AllChunks(chunks) && IsZero(last) && SizeLinesKept(data, s, at, chunks, last)
    ensures chunks == [] ==> SizeLineKept(data, s, at, last) && IsHexNumber(last) && Value(last, 16) == |""|
    ensures chunks != [] ==>
              && SizeLineKept(data, s, at, chunks[0].size) && IsHexNumber(chunks[0].size)
              && Value(chunks[0].size, 16) == |chunks[0].payload| && 0 < |chunks[0].payload| < 0x8000_0000
              && AllChunks(chunks[1..]) && SizeLinesKept(data, s, at + |chunks[0].Text()|, chunks[1..], last)
  {
    hide Value, SizeLineKept;
    if chunks != [] { assert chunks[0].Valid(); }
  }

  /** One round of the decoder's loop. */
  lemma RoundOfChunks(m: Parser, data: string, s: Arrivals, body: string)
    requires |data| < BUFFER && ReceiveSize(m, data, s, true).Some?
    requires var (m1, d1, s1) := ReceiveSize(m, data, s, true).value; ReceivePayload(m1.contentLen, d1, s1, body).Got?
    ensures var (m1, d1, s1) := ReceiveSize(m, data, s, true).value;
            var (body', d2, s2) := ReceivePayload(m1.contentLen, d1, s1, body).value;
            ReceiveChunks(m, data, s, body)
            == if m1.chunksDone then Got((m1, body', d2, s2)) else ReceiveChunks(m1, d2, s2, body')
  {
    hide ReceiveSize, ReceivePayload;
  }

  lemma RoundMeans(m: Parser, m1: Parser, payload: string, data0: string, s0: Arrivals, end: nat, more: string,
                   body: string, r: Outcome<(string, string, Arrivals)>)
    requires RoundDone(m, m1, payload, data0, s0, end, more, body, r)
    ensures m1.contentLen == |payload| && m1.chunksDone == (|payload| == 0) && Accepted(m1)
    ensures BuildResponse(m1.events) == BuildResponse(m.events)
    ensures r.Got? && r.value.0 == body + payload && r.value.1 + Concat(r.value.2) == more
    ensures Reached(data0, s0, end + |payload| + 2, r.value.1, r.value.2)
    ensures r.value.1 == "" <==> StopsWithin(data0, s0, end, end + |payload| + 2)
  {
  }

  lemma ReachedRoom(data0: string, s0: Arrivals, at: nat, data: string, s: Arrivals)
    requires Reached(data0, s0, at, data, s)
    ensures |data| < BUFFER
  {
  }

  lemma {:induction false} DecodeFrom(m: Parser, chunks: seq<Chunk>, last: string, data0: string, s0: Arrivals, at: nat,
                                      data: string, s: Arrivals, rest: string, body: string)
    requires Accepted(m) && AllChunks(chunks) && IsZero(last)
    requires Reached(data0, s0, at, data, s) && SizeLinesKept(data0, s0, at, chunks, last)
    requires data + Concat(s) == Wire(chunks, last) + rest
    ensures var r := ReceiveChunks(m, data, s, body);
            && r.Got? && r.value.1 == body + Payloads(chunks) && r.value.2 + Concat(r.value.3) == rest
            && Reached(data0, s0, at + |Wire(chunks, last)|, r.value.2, r.value.3)
            && (r.value.2 == "" <==> StopsWithin(data0, s0, at + |Wire(chunks, last)| - 2, at + |Wire(chunks, last)|))
            && BuildResponse(r.value.0.events) == BuildResponse(m.events)
    decreases |chunks|
  {
    hide *;
    WireParts(chunks, last, rest);
    KeptParts(data0, s0, at, chunks, last);
    ReachedRoom(data0, s0, at, data, s);
    var size, payload := if chunks == [] then last else chunks[0].size, if chunks == [] then "" else chunks[0].payload;
    var more := if chunks == [] then rest else Wire(chunks[1..], last) + rest;
    DecodeOne(m, size, payload, data0, s0, at, data, s, more, body);
    var (m1, d1, s1) := ReceiveSize(m, data, s, true).value;
    var r := ReceivePayload(|payload|, d1, s1, body);
    RoundMeans(m, m1, payload, data0, s0, at + |size + CRLF|, more, body, r);
    RoundOfChunks(m, data, s, body);
    if chunks != [] {
      var (body', d2, s2) := r.value;
      DecodeFrom(m1, chunks[1..], last, data0, s0, at + |chunks[0].Text()|, d2, s2, rest, body');
      Assoc(body, payload, Payloads(chunks[1..]));
    }
  }

  /** The callbacks of a size line do not touch the response. */
  lemma SizesAddNothing(m: Parser, m1: Parser)
    requires exists e :: m1.events == m.events + [e, HeaderDone] && (e.ChunkSize? || e.LastChunk?)
    ensures BuildResponse(m1.events) == BuildResponse(m.events)
  {
    var e :| m1.events == m.events + [e, HeaderDone] && (e.ChunkSize? || e.LastChunk?);
    var l := m1.events;
    assert l[..|l| - 1] == m.events + [e];
    assert (m.events + [e])[..|m.events|] == m.events;
  }

  /**
   Chunked decoding.  For every list of chunks with sizes up to 2^31 - 3, spelled in any way, and
   however the reads cut the encoded body, as long as none cuts a size line but behind leading zeros:
   the decoder returns the payloads, one after the other, and has consumed exactly the encoded body.  Its
   buffer is then empty if and only if the read that brought the last size line's end brought nothing
   from behind the encoded body.
   */
  lemma DecodingInvertsEncoding(m: Parser, chunks: seq<Chunk>, last: string, data: string, s: Arrivals, rest: string)
    requires Accepted(m) && AllChunks(chunks) && IsZero(last)
    requires |data| < BUFFER && Steady(s, BUFFER) && SizeLinesKept(data, s, 0, chunks, last)
    requires data + Concat(s) == Wire(chunks, last) + rest
    ensures var r := ReceiveChunks(m, data, s, "");
            && r.Got? && r.value.1 == Payloads(chunks) && r.value.2 + Concat(r.value.3) == rest
            && Reached(data, s, |Wire(chunks, last)|, r.value.2, r.value.3)
            && (r.value.2 == "" <==> StopsWithin(data, s, |Wire(chunks, last)| - 2, |Wire(chunks, last)|))
            && BuildResponse(r.value.0.events) == BuildResponse(m.events)
  {
    hide StopsWithin, Boundary, Reached, SizeLinesKept, ReceiveChunks, Concat, Wire, Payloads, AllChunks, AnyRejected,
      BuildResponse;
    ReachedItself(data, s);
    DecodeFrom(m, chunks, last, data, s, 0, data, s, rest, "");
    assert "" + Payloads(chunks) == Payloads(chunks);
  }
}
