/** Streams that end before the message does: wherever they end, the connection closes. */
module CutShort {
  import opened Wrappers
  import opened HttpText
  import opened ParserTables
  import opened Machine
  import opened Segmentation
  import opened HeaderGrammar
  import opened MessageHead
  import opened RequestHead
  import opened HttpMessages
  import opened ByteStream
  import opened Framing
  import opened HeadReceiving
  import opened ChunkedDecoding
  import opened ParserFlows
  import opened SegmentedReceiving
  import opened ResponseRoundTrip
  import opened ResponseStream
  import opened RequestExchange
  import opened RequestQueries

  // ---------------------------------------------------------------- bodies of a given length

  /** More bytes are wanted than there are. */
  lemma {:induction false} DrainShort(s: Arrivals, left: nat, limit: nat)
    requires |Concat(s)| < left
    ensures Drain(s, left, limit) == None
    decreases left
  {
    hide Concat;
    var n := if left < limit then left else limit;
    var (got, s') := Read(s, n);
    if got != "" {
      assert |got| + |Concat(s')| == |Concat(s)|;
      DrainShort(s', left - |got|, limit);
    }
  }

  /**
   A body of a given length comes if and only if that many bytes do, and the number of those that the buffer
   does not hold yet, cut to an int, is above zero: of up to 2^31 - 1 bytes always, of some longer ones never.
   */
  lemma FixedIff(length: int, data: string, s: Arrivals)
    requires Steady(s, BUFFER)
    ensures ReceiveFixed(length, data, s).Some? <==>
              || length <= |data|
              || (length <= |data| + |Concat(s)| && 0 < (length - |data|) % 0x1_0000_0000 < 0x8000_0000)
  {
    hide Drain, Concat;
    if 0 < length && length > |data| {
      var left := length - |data|;
      if length <= |data| + |Concat(s)| { DrainCuts(s, left, BUFFER, left); } else { DrainShort(s, left, left); }
    }
  }

  lemma FixedShort(length: int, data: string, s: Arrivals)
    requires length > |data| + |Concat(s)|
    ensures ReceiveFixed(length, data, s) == None
  {
    hide Drain, Concat;
    DrainShort(s, length - |data|, length - |data|);
  }

  // ---------------------------------------------------------------- heads

  /** Over a text on which the table neither fails nor halts, the loop receives no head, wherever reads end. */
  lemma {:induction false} NoHeadYet(d: Dialect, m: Parser, s: Arrivals)
    requires StopsWhenFinal(d) && m.cs != 0 && !d.final(m.cs) && Steady(s, BUFFER)
    requires !Stopped(d.table, m.cs, Concat(s))
    ensures !ReceiveHead(d, m, "", s).Got?
    decreases |s|
  {
    hide Execute, Stopped, ControlRun, StopsWhenFinal, Raised, Failed, Steady;
    if s != [] {
      var a := s[0];
      StoppedEarlier(d.table, m.cs, a, Concat(s[1..]));
      var m1 := ReadOn(d, m, s);
      SteadyTail(s, BUFFER);
      NoHeadYet(d, m1, s[1..]);
    }
  }

  /** The loop behind one read that does not stop the run. */
  lemma ReadOn(d: Dialect, m: Parser, s: Arrivals) returns (m1: Parser)
    requires StopsWhenFinal(d) && m.cs != 0 && !d.final(m.cs)
    requires Steady(s, BUFFER) && s != [] && !Stopped(d.table, m.cs, s[0])
    ensures m1.cs == ControlRun(d.table, m.cs, s[0]).0 && m1.cs != 0 && !d.final(m1.cs)
    ensures ReceiveHead(d, m, "", s).Got? ==> ReceiveHead(d, m, "", s) == ReceiveHead(d, m1, "", s[1..])
  {
    hide Run, AnyRejected, StopsWhenFinal, ControlRun, Concat;
    var a := s[0];
    RunsOn(d, m.cs, a);
    assert a[0..] == a && "" + a == a && a[|a|..] == "";
    RunControl(d.table, ZeroRegisters(m), a, 0);
    m1 := Execute(d.table, m, a).0;
  }

  lemma {:induction false} StoppedEarlier(t: Table, cs: int, a: string, b: string)
    requires !Stopped(t, cs, a + b)
    ensures !Stopped(t, cs, a) && !Stopped(t, ControlRun(t, cs, a).0, b)
    decreases |a|
  {
    if a == "" {
      assert a + b == b;
    } else {
      assert (a + b)[0] == a[0] && (a + b)[1..] == a[1..] + b;
      StoppedEarlier(t, t(cs, a[0]).target, a[1..], b);
    }
  }

  /** A run that stops at the end of a text has not stopped before. */
  lemma NotStoppedBefore(t: Table, cs: int, part: string, missing: string)
    requires missing != "" && ControlRun(t, cs, part + missing).1 == |part + missing|
    ensures !Stopped(t, cs, part)
  {
    hide ControlRun, Stopped;
    ControlSegmentation(t, cs, part, missing);
  }

  lemma EarlyLinesStop(cs: int, c: char)
    ensures ChunkLine(cs, c).target == 120 ==> ChunkLine(cs, c).Halts()
    ensures StatusLine(cs, c).target != 120
  {
  }

  lemma ConnectionGoesOn(cs: int, c: char)
    requires 34 <= cs <= 43 || 88 <= cs <= 100
    ensures ConnectionLine(cs, c).target == 120 ==> ConnectionLine(cs, c).Halts()
  {
  }

  lemma EncodingGoesOn(cs: int, c: char)
    requires 60 <= cs <= 87
    ensures EncodingLine(cs, c).target != 120
  {
  }

  lemma LengthGoesOn(cs: int, c: char)
    requires 111 <= cs <= 119
    ensures LengthLine(cs, c).target != 120
  {
  }

  lemma FinalHalts(cs: int, c: char)
    ensures ResponseEdge(cs, c).target == 120 ==> ResponseEdge(cs, c).Halts()
  {
    hide ChunkLine, StatusLine, ConnectionLine, EncodingLine, LengthLine;
    EarlyLinesStop(cs, c);
    if 34 <= cs <= 43 || 88 <= cs <= 100 { ConnectionGoesOn(cs, c); }
    if 60 <= cs <= 87 { EncodingGoesOn(cs, c); }
    if 111 <= cs <= 119 { LengthGoesOn(cs, c); }
  }

  lemma ResponseStops()
    ensures StopsWhenFinal(RESPONSES)
  {
    hide ResponseEdge;
    forall cs: int, c: char
      ensures ResponseEdge(cs, c).target == 120 ==> ResponseEdge(cs, c).Halts()
    {
      FinalHalts(cs, c);
    }
  }

  lemma HeadIsConsumed(a: Message)
    requires a.Valid()
    ensures ControlRun(ResponseEdge, 1, a.Head()).1 == |a.Head()|
  {
    hide Run, ResponseEdge, AfterBlock, BlockText, Status.Text, Status.Valid, AfterStart, AllValid, ControlRun, StatusText, At;
    var m, start, head := NewParser(-1), a.st.Text(), a.Head();
    assert start + BlockText(a.lines) + CRLF == start + (BlockText(a.lines) + CRLF);
    ItsOwnText(head);
    AtSplit(head, 0, start, BlockText(a.lines) + CRLF);
    var m1 := StartRun(m, a.st, head);
    StartIsLine(m, a.st, m1);
    ExecuteBlockEnd(m1, a.lines, CRLF, head, |start|);
    assert head[0..] == head;
    RunControl(ResponseEdge, m, head, 0);
  }

  lemma ItsOwnText(text: string)
    ensures At(text, 0, text)
  {
    assert text[0..|text|] == text;
  }

  lemma StartIsLine(m: Parser, st: Status, m1: Parser)
    requires st.Valid() && Same(m1, AfterStart(m, st))
    ensures AtLineStart(m1.cs)
  {
  }

  lemma MessageIsValid(a: Message)
    requires a.Valid()
    ensures a.st.Valid() && AllValid(a.lines) && a.Head() == (a.st.Text() + BlockText(a.lines)) + CRLF
  {
  }

  /** A response's head, cut short anywhere. */
  lemma ResponseHeadShort(a: Message, s: Arrivals, missing: string)
    requires a.Valid() && Steady(s, BUFFER) && missing != "" && Concat(s) + missing == a.Head()
    ensures ReceiveResponse(s) == Closed
  {
    hide ResponseEdge, ControlRun, Stopped, StopsWhenFinal, Concat, ReceiveHead, Message.Valid, Message.Head;
    HeadIsConsumed(a);
    NotStoppedBefore(ResponseEdge, 1, Concat(s), missing);
    ResponseStops();
    NoHeadYet(RESPONSES, NewParser(-1), s);
    NeverThrown(NewParser(-1), "", s);
  }

  lemma {:induction false} NeverThrown(m: Parser, data: string, s: Arrivals)
    requires |data| < BUFFER
    ensures !ReceiveHead(RESPONSES, m, data, s).Thrown?
    decreases |Concat(s)|
  {
    hide Execute, Failed, Raised;
    NeverRaises();
    var (got, s') := Read(s, BUFFER - |data|);
    if got != "" {
      var buffer := data + got;
      var (m', n) := Execute(ResponseEdge, m, buffer);
      if !Failed(RESPONSES, m') && !ResponseFinal(m'.cs) {
        ExecuteProgress(ResponseEdge, m, buffer) by { NotZero(RESPONSES, m'); }
        assert |Concat(s')| < |Concat(s)|;
        NeverThrown(m', buffer[n..], s');
      }
    }
  }

  // ---------------------------------------------------------------- encoded bodies

  /** Part of a size line, or what reads have left of it: digits, and perhaps the carriage return. */
  predicate IsPartOfLine(part: string) {
    AllDigits(part, 16) || (part != "" && AllDigits(part[..|part| - 1], 16) && part[|part| - 1] == CR)
  }

  lemma PartIsShorter(part: string, a: string, b: string)
    requires IsPartOfLine(part) && part == a + b && a != ""
    ensures IsPartOfLine(b)
    ensures IsHexNumber(a) || a == [CR] || (IsHexNumber(a[..|a| - 1]) && a[|a| - 1] == CR)
    ensures b != "" ==> IsHexNumber(a)
  {
    assert forall i :: 0 <= i < |a| ==> a[i] == part[i];
    assert forall i :: 0 <= i < |b| ==> b[i] == part[|a| + i];
    var n := |part| - 1;
    if !AllDigits(part, 16) {
      assert forall i :: 0 <= i < n ==> part[..n][i] == part[i] && IsDigitIn(part[i], 16);
    }
    if b == "" { assert a == part; }
  }

  /** A size line that the stream ends in, wherever reads cut it. */
  lemma {:induction false} SizeShort(m: Parser, part: string, data: string, s: Arrivals, begin: bool)
    requires IsPartOfLine(part) && |data| < BUFFER && Steady(s, BUFFER) && data + Concat(s) == part && (begin || data == "")
    ensures ReceiveSize(m, data, s, begin) == None
    decreases |part|
  {
    hide Execute, ReceiveSize, Concat, Steady, Failed, IsPartOfLine, IsHexNumber, Round;
    if part == "" {
      NothingMore(m, data, s, begin);
    } else {
      TextLeft(data, s, part);
      ReceiveSizeIsRound(m, data, s, begin);
      BufferText(data, s, part);
      SteadyBehind(data, s);
      var (buffer, s') := FirstBuffer(data, s);
      var left := Concat(s');
      PartIsShorter(part, buffer, left);
      if IsHexNumber(buffer) {
        DigitsExecute(m, buffer);
        RoundGoesOn(m, buffer, s');
        var m' := Execute(ResponseEdge, Reset(m, -1), buffer).0;
        assert "" + left == left;
        if !Failed(RESPONSES, m') { SizeShort(m', left, "", s', false); }
      } else if buffer == [CR] {
        LineEndFails(m, buffer);
        FailedRound(m, buffer, s');
      } else {
        var digits := buffer[..|buffer| - 1];
        assert buffer == digits + [CR] && left == "";
        ReturnExecute(m, digits);
        RoundGoesOn(m, buffer, s');
        NothingMore(Execute(ResponseEdge, Reset(m, -1), buffer).0, "", s', false);
      }
    }
  }

  lemma FailedRound(m: Parser, buffer: string, s: Arrivals)
    requires 0 < |buffer| <= BUFFER && Failed(RESPONSES, Execute(ResponseEdge, Reset(m, -1), buffer).0)
    ensures Round(m, buffer, s) == None
  {
    hide Execute, Failed;
  }

  lemma NothingMore(m: Parser, data: string, s: Arrivals, begin: bool)
    requires data + Concat(s) == "" && Steady(s, BUFFER)
    ensures ReceiveSize(m, data, s, begin) == None
  {
    hide Execute;
    SteadyIsNotEmpty(s);
  }

  /** A payload, or the line end behind it, that the stream ends in. */
  lemma PayloadShort(n: nat, data: string, s: Arrivals, body: string)
    requires |data| < BUFFER && |data + Concat(s)| < n + 2
    ensures ReceivePayload(n, data, s, body) == Closed
  {
    hide Drain, Concat;
    DrainShort(s, n + 2 - |data|, BUFFER);
  }

  /** Of an encoded body of which the first n bytes come: the size lines that come whole are cut as they may be. */
  predicate WholeLinesKept(data: string, s: Arrivals, at: nat, chunks: seq<Chunk>, last: string, n: nat)
    decreases |chunks|
  {
    var size := if chunks == [] then last else chunks[0].size;
    |size| + 2 <= n ==>
      && SizeLineKept(data, s, at, size)
      && (chunks != [] && |chunks[0].Text()| <= n ==>
            WholeLinesKept(data, s, at + |chunks[0].Text()|, chunks[1..], last, n - |chunks[0].Text()|))
  }

  lemma NoSize(m: Parser, data: string, s: Arrivals, body: string)
    requires |data| < BUFFER && ReceiveSize(m, data, s, true) == None
    ensures ReceiveChunks(m, data, s, body) == Closed
  {
    hide ReceiveSize;
  }

  lemma NoPayload(m: Parser, data: string, s: Arrivals, body: string)
    requires |data| < BUFFER && ReceiveSize(m, data, s, true).Some?
    requires var (m1, d1, s1) := ReceiveSize(m, data, s, true).value; ReceivePayload(m1.contentLen, d1, s1, body) == Closed
    ensures ReceiveChunks(m, data, s, body) == Closed
  {
    hide ReceiveSize, ReceivePayload;
  }

  lemma ShortLine(part: string, size: string, rest: string, missing: string)
    requires IsHexNumber(size) && part + missing == (size + CRLF) + rest && |part| < |size| + 2
    ensures IsPartOfLine(part)
  {
    var all := (size + CRLF) + rest;
    assert part == all[..|part|];
    if |part| <= |size| {
      assert forall i :: 0 <= i < |part| ==> part[i] == size[i];
    } else {
      assert part[..|part| - 1] == size && part[|part| - 1] == all[|size|] == CR;
    }
  }

  /** What of a text stands behind its first part. */
  lemma BehindPart(part: string, front: string, rest: string, missing: string)
    requires part + missing == front + rest && |front| <= |part|
    ensures part == front + part[|front|..] && part[|front|..] + missing == rest
  {
    assert (part + missing)[..|front|] == (front + rest)[..|front|] == front;
    assert (part + missing)[|front|..] == (front + rest)[|front|..] == rest;
  }

  lemma KeptLine(data: string, s: Arrivals, at: nat, chunks: seq<Chunk>, last: string, n: nat)
    requires WholeLinesKept(data, s, at, chunks, last, n) && AllChunks(chunks) && IsZero(last)
    ensures chunks == [] ==> IsHexNumber(last) && Value(last, 16) == |""| && (|last| + 2 <= n ==> SizeLineKept(data, s, at, last))
    ensures chunks != [] ==>
              && IsHexNumber(chunks[0].size) && Value(chunks[0].size, 16) == |chunks[0].payload| && 0 < |chunks[0].payload| < 0x8000_0000
              && AllChunks(chunks[1..])
              && (|chunks[0].size| + 2 <= n ==> SizeLineKept(data, s, at, chunks[0].size))
              && (|chunks[0].Text()| <= n ==>
                    WholeLinesKept(data, s, at + |chunks[0].Text()|, chunks[1..], last, n - |chunks[0].Text()|))
  {
    hide Value, SizeLineKept;
    if chunks != [] { assert chunks[0].Valid(); }
  }

  /**
   An encoded body that the stream ends in, anywhere: the decoder closes.  (Reads may cut the line in which it
   ends in any way.)
   */
  lemma {:induction false} DecodeShort(m: Parser, chunks: seq<Chunk>, last: string, data0: string, s0: Arrivals, at: nat,
                                       data: string, s: Arrivals, part: string, missing: string, body: string)
    requires Accepted(m) && AllChunks(chunks) && IsZero(last) && Reached(data0, s0, at, data, s)
    requires missing != "" && data + Concat(s) == part && part + missing == Wire(chunks, last)
    requires WholeLinesKept(data0, s0, at, chunks, last, |part|)
    ensures ReceiveChunks(m, data, s, body) == Closed
    decreases |chunks|
  {
    hide *;
    WireParts(chunks, last, "");
    KeptLine(data0, s0, at, chunks, last, |part|);
    ReachedRoom(data0, s0, at, data, s);
    ReachedSteady(data0, s0, at, data, s);
    var size, payload := if chunks == [] then last else chunks[0].size, if chunks == [] then "" else chunks[0].payload;
    var more := if chunks == [] then "" else Wire(chunks[1..], last) + "";
    var line, rest := size + CRLF, (payload + CRLF) + more;
    assert Wire(chunks, last) + "" == Wire(chunks, last);
    if |part| < |size| + 2 {
      ShortLine(part, size, rest, missing);
      SizeShort(m, part, data, s, true);
      NoSize(m, data, s, body);
    } else {
      BehindPart(part, line, rest, missing);
      var part1 := part[|line|..];
      ReceiveKeptSize(m, size, data0, s0, at, data, s, part1);
      var (m1, d1, s1) := ReceiveSize(m, data, s, true).value;
      SizedIs(m1, |payload|);
      ReachedRoom(data0, s0, at + |line|, d1, s1);
      if |part1| < |payload| + 2 {
        PayloadShort(|payload|, d1, s1, body);
        NoPayload(m, data, s, body);
      } else {
        BehindPart(part1, payload + CRLF, more, missing);
        var part2 := part1[|payload + CRLF|..];
        PayloadRound(payload, data0, s0, at + |line|, d1, s1, part2, body);
        RoundOfChunks(m, data, s, body);
        var (body', d2, s2) := ReceivePayload(|payload|, d1, s1, body).value;
        assert chunks != [];
        assert Wire(chunks[1..], last) + "" == Wire(chunks[1..], last);
        DecodeShort(m1, chunks[1..], last, data0, s0, at + |chunks[0].Text()|, d2, s2, part2, missing, body');
      }
    }
  }

  lemma SizedIs(m: Parser, n: nat)
    requires Sized(m, n)
    ensures m.contentLen == n && m.chunksDone == (n == 0) && Accepted(m)
  {
  }

  lemma ReachedSteady(data0: string, s0: Arrivals, at: nat, data: string, s: Arrivals)
    requires Reached(data0, s0, at, data, s)
    ensures Steady(s, BUFFER)
  {
  }

  // ---------------------------------------------------------------- the two receivers

  /** Reads of as much of a response as comes respect its lines, as far as its head and its size lines come whole. */
  ghost predicate RespectedSoFar(a: Message, s: Arrivals) {
    |a.Head()| <= |Concat(s)| ==>
      && (forall x :: 0 < x < |a.Head()| && Boundary("", s, x) ==> IsLineEnd(a.lines, x - |a.st.Text()|))
      && (a.Chunked? ==> WholeLinesKept("", s, |a.Head()|, a.chunks, a.last, |Concat(s)| - |a.Head()|))
  }

  lemma CutsSoFar(a: Message, s: Arrivals)
    requires RespectedSoFar(a, s) && |a.Head()| <= |Concat(s)| && Steady(s, BUFFER)
    ensures CutsAtLineEnds(s, |a.st.Text()|, a.lines, |a.Head()|)
    ensures a.Chunked? ==> WholeLinesKept("", s, |a.Head()|, a.chunks, a.last, |Concat(s)| - |a.Head()|)
  {
    hide IsLineEnd, BlockText, Status.Text, WholeLinesKept;
    forall x | CutAt(s, x) && x < |a.Head()|
      ensures IsLineEnd(a.lines, x - |a.st.Text()|)
    {
      CutsArePositive(s, BUFFER, x);
      assert Boundary("", s, x);
    }
  }

  /** A response's head that comes whole. */
  lemma WholeHead(a: Message, s: Arrivals, part: string)
    requires a.Valid() && Steady(s, BUFFER) && Concat(s) == a.Head() + part
    requires CutsAtLineEnds(s, |a.st.Text()|, a.lines, |a.Head()|)
    ensures var r := ReceiveHead(RESPONSES, NewParser(-1), "", s);
            && Leaves(r, s, |a.Head()|, part) && Accepted(r.value.0)
            && BuildResponse(r.value.0.events).headers == SetAll(map[], a.lines) && r.value.0.chunked == a.Chunked?
  {
    assert 0 < BUFFER;
    hide *;
    MessageIsValid(a);
    HeadArrives(a, s, part);
    var r := ReceiveHead(RESPONSES, NewParser(-1), "", s);
    LeavesPart(r, s, |a.Head()|, part);
    ReceivedIsAccepted(s);
    HeadBuilt(a, r.value.0);
  }

  lemma HeadArrives(a: Message, s: Arrivals, part: string)
    requires a.Valid() && a.st.Valid() && Steady(s, BUFFER) && Concat(s) == a.Head() + part
    requires CutsAtLineEnds(s, |a.st.Text()|, a.lines, |a.Head()|)
    ensures var r := ReceiveHead(RESPONSES, NewParser(-1), "", s);
            Leaves(r, s, |a.Head()|, part) && Same(r.value.0, AfterHead(AfterBlock(AfterStart(NewParser(-1), a.st), a.lines)))
  {
    hide CutsAtLineEnds, AfterBlock, AfterStart, AfterHead, Status.Text, Status.Valid, BlockText, AllValid, Concat, ReceiveHead, Leaves,
      Segmentation.Same, Steady, Chunks, SetAll, BodyLength;
    HeadLength(a);
    ReceiveWholeHead(a.st, a.lines, part, s);
  }

  lemma ReceivedIsAccepted(s: Arrivals)
    requires ReceiveHead(RESPONSES, NewParser(-1), "", s).Got?
    ensures Accepted(ReceiveHead(RESPONSES, NewParser(-1), "", s).value.0)
  {
    hide ReceiveHead;
  }

  lemma HeadBuilt(a: Message, m: Parser)
    requires a.Valid() && a.st.Valid() && Same(m, AfterHead(AfterBlock(AfterStart(NewParser(-1), a.st), a.lines)))
    ensures BuildResponse(m.events).headers == SetAll(map[], a.lines) && m.chunked == a.Chunked?
  {
    hide AfterBlock, AfterStart, AfterHead, Status.Text, Status.Valid, BlockText, Chunks, BuildResponse, SetAll, BodyLength, Value,
      VersionText, VersionByte;
    ResponseRoundTrip.HeadBuilds(a.st, a.lines, m);
  }

  /** A response whose head comes whole, and of whose body something is missing. */
  lemma ResponseBodyShort(a: Message, s: Arrivals, part: string, missing: string)
    requires a.Valid() && Steady(s, BUFFER) && missing != "" && RespectedSoFar(a, s)
    requires Concat(s) == a.Head() + part && part + missing == a.Body()
    ensures ReceiveResponse(s) == Closed
  {
    hide CutsAtLineEnds, Message.Head, AllValid, Chunks, Wire, Concat, BuildResponse, ReceiveHead, ReceiveFixed, ReceiveChunks,
      WholeLinesKept, SetAll, RespectedSoFar, ContentLength, Leaves, Status.Valid, AnyRejected;
    CutsSoFar(a, s);
    WholeHead(a, s, part);
    var r := ReceiveHead(RESPONSES, NewParser(-1), "", s);
    LeavesPart(r, s, |a.Head()|, part);
    var (m, data, s1) := r.value;
    if a.Fixed? {
      FixedShort(ContentLength(SetAll(map[], a.lines)), data, s1);
    } else {
      HeadReached(r, s, |a.Head()|, part);
      DecodeShort(m, a.chunks, a.last, "", s, |a.Head()|, data, s1, part, missing, "");
    }
  }

  /**
   A response of which not all comes.  For every valid response, and every stream that is a proper
   beginning of it, however short, recvResponse closes the connection.  It does not matter where reads end in
   a head that does not come whole, in the size line that the stream ends in, or in payloads and bodies.
   */
  lemma ResponseCutShort(a: Message, s: Arrivals, missing: string)
    requires a.Valid() && Steady(s, BUFFER) && RespectedSoFar(a, s)
    requires missing != "" && Concat(s) + missing == a.Text()
    ensures ReceiveResponse(s) == Closed
  {
    hide Message.Valid, Message.Head, Message.Body, RespectedSoFar, Concat, Steady, ReceiveResponse;
    var got, head, body := Concat(s), a.Head(), a.Body();
    if |got| < |head| {
      FrontOf(got, missing, head, body);
      ResponseHeadShort(a, s, head[|got|..]);
    } else {
      BehindPart(got, head, body, missing);
      ResponseBodyShort(a, s, got[|head|..], missing);
    }
  }

  lemma FrontOf(got: string, missing: string, head: string, body: string)
    requires got + missing == head + body && |got| < |head|
    ensures got + head[|got|..] == head
  {
    assert (got + missing)[..|got|] == (head + body)[..|got|] == head[..|got|];
  }

  lemma RequestHeadIsConsumed(o: Opening, es: seq<Entry>)
    requires o.Valid() && AllEntries(es)
    ensures ControlRun(RequestEdge, 1, HeadText(o, es)).1 == |HeadText(o, es)|
  {
    hide RequestEdge, Run, HeadText, Opening.Valid, AllEntries, ControlRun;
    var m, head := NewParser(0), HeadText(o, es);
    RequestHeadRun(m, o, es, "");
    assert head + "" == head && head[0..] == head;
    RunControl(RequestEdge, ZeroRegisters(m), head, 0);
  }

  /** A request's head, cut short anywhere: no request is returned. */
  lemma RequestHeadShort(o: Opening, es: seq<Entry>, s: Arrivals, missing: string)
    requires o.Valid() && AllEntries(es) && Steady(s, BUFFER) && missing != "" && Concat(s) + missing == HeadText(o, es)
    ensures !ReceiveRequest(s).Got? && ControlRun(RequestEdge, 1, Concat(s)).1 == |Concat(s)|
  {
    hide RequestEdge, Run, HeadText, Opening.Valid, AllEntries, ControlRun, Stopped, StopsWhenFinal, Concat, ReceiveHead;
    RequestHeadIsConsumed(o, es);
    NotStoppedBefore(RequestEdge, 1, Concat(s), missing);
    RequestStops();
    RunsOn(REQUESTS, 1, Concat(s));
    NoHeadYet(REQUESTS, NewParser(0), s);
  }

  /**
   A request of which not all comes: the same, when reads end, within what comes of the head, only where no
   register is needed.
   */
  lemma RequestCutShort(o: Opening, es: seq<Entry>, body: string, s: Arrivals, missing: string)
    requires o.Valid() && AllEntries(es) && MethodOf(o.verb).Some? && BodyLength(SetEntries(map[], es)) == |body|
    requires Steady(s, BUFFER) && missing != "" && Concat(s) + missing == HeadText(o, es) + body
    requires var n := |HeadText(o, es)|;
             CutsHarmless(REQUESTS, RequestFlow, 1, s, if |Concat(s)| < n then |Concat(s)| else n)
    ensures ReceiveRequest(s) == Closed
  {
    hide RequestEdge, HeadText, Opening.Valid, AllEntries, ControlRun, Concat, ReceiveHead, ReceiveFixed, CutsHarmless, MethodOf,
      SetEntries, BuildRequest, OpeningRequest, ContentLength, Steady;
    var got, head := Concat(s), HeadText(o, es);
    if |got| < |head| {
      FrontOf(got, missing, head, body);
      RequestHeadShort(o, es, s, head[|got|..]);
      CutsNeverThrow(s);
    } else {
      BehindPart(got, head, body, missing);
      HeadReceived(o, es, got[|head|..], s);
      var (m, data, s1) := ReceiveHead(REQUESTS, NewParser(0), "", s).value;
      FixedShort(ContentLength(SetEntries(map[], es)), data, s1);
    }
  }
}
