/**
 Responses that follow each other on a connection: recvResponse reads into a buffer of its own and drops
 with it whatever a read brought from behind the message.
 */
module ResponseStream {
  import opened HttpText
  import opened HeaderGrammar
  import opened MessageHead
  import opened HttpMessages
  import opened ByteStream
  import opened Framing
  import opened HeadReceiving
  import opened ChunkedDecoding
  import opened ResponseRoundTrip

  /** A response as it stands on the wire: with a body of a given length, which may be none, or in chunks. */
  datatype Message =
    | Fixed(st: Status, lines: seq<Line>, body: string)
    | Chunked(st: Status, lines: seq<Line>, chunks: seq<Chunk>, last: string)
  {
    predicate Valid() {
      && st.Valid() && AllValid(lines)
      && if Fixed?
         then
           && (forall i :: 0 <= i < |lines| ==> !Chunks(lines[i].name, lines[i].value))
           && BodyLength(SetAll(map[], lines)) == |body| < 0x8000_0000
         else
           && (exists i :: 0 <= i < |lines| && Chunks(lines[i].name, lines[i].value))
           && AllChunks(chunks) && IsZero(last)
    }

    function Head(): string {
      (st.Text() + BlockText(lines)) + CRLF
    }

    function Body(): string {
      if Fixed? then body else Wire(chunks, last)
    }

    function Text(): string {
      Head() + Body()
    }

    /** The response that recvResponse makes of it. */
    function Answer(): Response
      requires st.Valid()
    {
      ResponseOf(st, lines, if Fixed? then body else Payloads(chunks))
    }

    /** Where the last line ends that a read may run beyond; payloads are read to their length. */
    function LastLine(): nat {
      if Fixed? then |Head()| else |Head()| + |Body()| - 2
    }

    /** Reads of the stream, in which the message begins at `at`, respect its lines. */
    ghost predicate Respected(s: Arrivals, at: nat) {
      && (forall x :: at < x < at + |Head()| && Boundary("", s, x) ==> IsLineEnd(lines, x - at - |st.Text()|))
      && (Chunked? ==> SizeLinesKept("", s, at + |Head()|, chunks, last))
    }
  }

  lemma HeadLength(a: Message)
    ensures |a.Head()| == |a.st.Text()| + |BlockText(a.lines)| + 2 > 0
  {
  }

  lemma LineCuts(a: Message, s: Arrivals)
    requires a.Respected(s, 0) && Steady(s, BUFFER)
    ensures CutsAtLineEnds(s, |a.st.Text()|, a.lines, |a.Head()|)
  {
    forall x | CutAt(s, x) && x < |a.Head()|
      ensures IsLineEnd(a.lines, x - |a.st.Text()|)
    {
      CutsArePositive(s, BUFFER, x);
      assert Boundary("", s, x);
    }
  }

  /**
   One message, whatever follows it: it is received, and the connection keeps what follows if and only if
   the read that brought the end of its last line went no further than the message.
   */
  lemma Received(a: Message, s: Arrivals, rest: string)
    requires a.Valid() && Steady(s, BUFFER) && Concat(s) == a.Text() + rest && a.Respected(s, 0)
    ensures var x := ReceiveResponse(s);
            && x.Got? && x.value.0 == a.Answer() && x.value.1 + Concat(x.value.2) == rest
            && Reached("", s, |a.Text()|, x.value.1, x.value.2)
            && (Concat(x.value.2) == rest <==> StopsWithin("", s, a.LastLine(), |a.Text()|))
  {
    hide Status.Text, Status.Valid, BlockText, ReceiveResponse, Concat, Wire, Payloads, SizeLinesKept, CutsAtLineEnds, AllValid,
      Chunks, BodyLength, SetAll, Steady, StopsWithin, Reached, IsZero, AllChunks, ResponseOf, IsLineEnd;
    HeadLength(a);
    LineCuts(a, s);
    Assoc(a.Head(), a.Body(), rest);
    if a.Fixed? {
      FixedResponse(a.st, a.lines, a.body, s, rest);
    } else {
      WireEnds(a.chunks, a.last);
      ChunkedResponse(a.st, a.lines, a.chunks, a.last, s, rest);
    }
  }

  /** What respects a message in a stream respects it in what is left of the stream. */
  lemma StillRespected(b: Message, s: Arrivals, at: nat, s2: Arrivals)
    requires b.Valid() && b.Respected(s, at) && Reached("", s, at, "", s2)
    ensures b.Respected(s2, 0)
  {
    hide Boundary, SizeLinesKept, Status.Text, Status.Valid, BlockText, IsLineEnd, AllValid;
    forall x | 0 < x < |b.Head()| && Boundary("", s2, x)
      ensures IsLineEnd(b.lines, x - |b.st.Text()|)
    {
      assert Boundary("", s, at + x);
      assert (at + x) - at - |b.st.Text()| == x - |b.st.Text()|;
    }
    if b.Chunked? {
      SizeLinesShift("", s, at, "", s2, |b.Head()|, b.chunks, b.last);
    }
  }

  /**
   Two messages, one behind the other.  The second call has all of the second message to read, and then
   receives it, if and only if no read ran beyond the first.
   */
  lemma BackToBack(a: Message, b: Message, s: Arrivals, rest: string)
    requires a.Valid() && b.Valid() && Steady(s, BUFFER) && Concat(s) == a.Text() + (b.Text() + rest)
    requires a.Respected(s, 0) && b.Respected(s, |a.Text()|)
    ensures var x := ReceiveResponse(s);
            && x.Got? && x.value.0 == a.Answer()
            && (Concat(x.value.2) == b.Text() + rest <==> StopsWithin("", s, a.LastLine(), |a.Text()|))
            && (StopsWithin("", s, a.LastLine(), |a.Text()|) ==>
                  var y := ReceiveResponse(x.value.2);
                  y.Got? && y.value.0 == b.Answer() && y.value.1 + Concat(y.value.2) == rest)
  {
    hide Message.Valid, Message.Text, Message.Respected, Message.LastLine, Message.Answer, ReceiveResponse, Concat, StopsWithin;
    Received(a, s, b.Text() + rest);
    var x := ReceiveResponse(s);
    if StopsWithin("", s, a.LastLine(), |a.Text()|) {
      NothingDropped(x.value.1, Concat(x.value.2), b.Text() + rest);
      StillRespected(b, s, |a.Text()|, x.value.2);
      Received(b, x.value.2, rest);
    }
  }

  // ---------------------------------------------------------------- reads that run beyond a message

  /** An arrival is not cut in front of its end. */
  lemma OneArrival(t: string, more: Arrivals, x: int)
    requires 0 < x < |t|
    ensures !Boundary("", [t] + more, x)
  {
    var s := [t] + more;
    assert s[1..] == more;
    NoCutBefore(more, x - |t|);
  }

  lemma {:induction false} NoCutBefore(s: Arrivals, x: int)
    requires x < 0
    ensures !CutAt(s, x)
    decreases |s|
  {
    if s != [] { NoCutBefore(s[1..], x - |s[0]|); }
  }

  lemma UncutIsRespected(a: Message, s: Arrivals)
    requires a.Valid() && forall x :: 0 < x < |a.Text()| ==> !Boundary("", s, x)
    ensures a.Respected(s, 0)
  {
    hide Boundary, Status.Text, Status.Valid, BlockText, IsLineEnd, AllValid, Wire, AllZeros;
    assert forall x :: 0 < x < |a.Head()| ==> !Boundary("", s, x);
    if a.Chunked? {
      HeadLength(a);
      NoSizeLineCut(s, |a.Head()|, a.chunks, a.last, |a.Text()|);
    }
  }

  lemma {:induction false} NoSizeLineCut(s: Arrivals, at: nat, chunks: seq<Chunk>, last: string, n: nat)
    requires at > 0 && n == at + |Wire(chunks, last)| && forall x :: 0 < x < n ==> !Boundary("", s, x)
    ensures SizeLinesKept("", s, at, chunks, last)
    decreases |chunks|
  {
    hide Boundary, AllZeros;
    if chunks != [] {
      NoSizeLineCut(s, at + |chunks[0].Text()|, chunks[1..], last, n);
    }
  }

  /** When the first arrival brings two messages, the first is received, and the second is dropped. */
  lemma SecondIsDropped(a: Message, b: Message, more: Arrivals)
    requires a.Valid() && b.Valid() && |a.Text() + b.Text()| <= BUFFER && Steady(more, BUFFER)
    ensures var x := ReceiveResponse([a.Text() + b.Text()] + more);
            && x.Got? && x.value.0 == a.Answer() && Concat(x.value.2) == Concat(more) && Steady(x.value.2, BUFFER)
            && forall y :: y > 0 ==> (Boundary("", x.value.2, y) <==> Boundary("", more, y))
  {
    hide Message.Valid, Message.Respected, Message.Answer, Message.Body, Message.Head, ReceiveResponse, Concat;
    var t := a.Text() + b.Text();
    var s := [t] + more;
    HeadLength(b);
    HeadLength(a);
    TwoInOne(a, b, t, more);
    Assoc(a.Text(), b.Text(), Concat(more));
    UncutIsRespected(a, s);
    Received(a, s, b.Text() + Concat(more));
    DroppedWhole(a, b, t, more, ReceiveResponse(s).value.1, ReceiveResponse(s).value.2);
  }

  lemma TwoInOne(a: Message, b: Message, t: string, more: Arrivals)
    requires t == a.Text() + b.Text() && 0 < |t| <= BUFFER && |b.Text()| > 0 && Steady(more, BUFFER)
    ensures Concat([t] + more) == t + Concat(more) && Steady([t] + more, BUFFER)
    ensures forall x :: 0 < x < |t| ==> !Boundary("", [t] + more, x)
  {
    assert ([t] + more)[1..] == more;
    forall x | 0 < x < |t|
      ensures !Boundary("", [t] + more, x)
    {
      OneArrival(t, more, x);
    }
  }

  lemma DroppedWhole(a: Message, b: Message, t: string, more: Arrivals, data: string, s2: Arrivals)
    requires t == a.Text() + b.Text() && 0 < |a.Text()| && 0 < |b.Text()| && 0 < a.LastLine() && Steady(more, BUFFER)
    requires Reached("", [t] + more, |a.Text()|, data, s2) && data + Concat(s2) == b.Text() + Concat(more)
    requires Concat(s2) == b.Text() + Concat(more) <==> StopsWithin("", [t] + more, a.LastLine(), |a.Text()|)
    requires forall x :: 0 < x < |t| ==> !Boundary("", [t] + more, x)
    ensures Concat(s2) == Concat(more) && Steady(s2, BUFFER)
    ensures forall y :: y > 0 ==> (Boundary("", s2, y) <==> Boundary("", more, y))
  {
    hide Message.Text, Message.LastLine, Concat;
    var s, n, k := [t] + more, |a.Text()|, |b.Text()|;
    assert s[1..] == more;
    assert data != "" by { assert data == "" ==> data + Concat(s2) == Concat(s2); }
    assert Boundary("", s, |t|);
    assert Boundary(data, s2, |data|) && Boundary("", s, n + |data|);
    assert Boundary(data, s2, k) <==> Boundary("", s, n + k);
    if k != |data| { CutsArePositive(s2, BUFFER, k - |data|); }
    assert |data| == k;
    assert (data + Concat(s2))[k..] == (b.Text() + Concat(more))[k..];
    forall y | y > 0
      ensures Boundary("", s2, y) <==> Boundary("", more, y)
    {
      assert Boundary(data, s2, k + y) <==> Boundary("", s, n + (k + y));
    }
  }

  /** When nothing comes behind them, the second call finds the stream at its end. */
  lemma SecondIsLost(a: Message, b: Message)
    requires a.Valid() && b.Valid() && |a.Text() + b.Text()| <= BUFFER
    ensures var x := ReceiveResponse([a.Text() + b.Text()]);
            x.Got? && x.value.0 == a.Answer() && ReceiveResponse(x.value.2) == Closed
  {
    hide Message.Valid, Message.Text, Message.Answer;
    var s: Arrivals := [a.Text() + b.Text()];
    assert s == s + [];
    SecondIsDropped(a, b, []);
    NothingLeft(ReceiveResponse(s).value.2);
  }

  lemma NothingLeft(s: Arrivals)
    requires Steady(s, BUFFER) && Concat(s) == ""
    ensures ReceiveResponse(s) == Closed
  {
    SteadyIsNotEmpty(s);
  }

  lemma SteadyIsNotEmpty(s: Arrivals)
    requires Steady(s, BUFFER)
    ensures s != [] ==> Concat(s) != ""
  {
    if s != [] { assert |s[0]| > 0; }
  }

  /**
   And when the same message comes once more, the second call returns it, as if nothing had been lost:
   what the calls return does not tell whether a read ran beyond a message.
   */
  lemma LossMayNotShow(a: Message, b: Message)
    requires a.Valid() && b.Valid() && |a.Text() + b.Text()| <= BUFFER
    ensures var s := [a.Text() + b.Text()] + [b.Text()];
            var x := ReceiveResponse(s);
            && x.Got? && x.value.0 == a.Answer() && Concat(x.value.2) != b.Text() + b.Text()
            && ReceiveResponse(x.value.2).Got? && ReceiveResponse(x.value.2).value.0 == b.Answer()
  {
    hide Message.Valid, Message.Answer, Message.Body, Message.Head, Message.Respected;
    HeadLength(b);
    var more: Arrivals := [b.Text()];
    assert more[1..] == [] && Concat(more) == b.Text() + "" == b.Text();
    SecondIsDropped(a, b, more);
    var s2 := ReceiveResponse([a.Text() + b.Text()] + more).value.2;
    forall x | 0 < x < |b.Text()|
      ensures !Boundary("", s2, x)
    {
      assert more == [b.Text()] + [];
      OneArrival(b.Text(), [], x);
    }
    UncutIsRespected(b, s2);
    assert Concat(s2) == b.Text() + "";
    Received(b, s2, "");
  }
}
