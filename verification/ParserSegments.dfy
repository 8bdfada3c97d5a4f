/** What splitting the input means for the two parsers, and where it does not work. */
module ParserSegments {
  import opened HttpText
  import opened ParserTables
  import opened Machine
  import opened Segmentation
  import opened ParserFlows
  import opened HeaderGrammar
  import opened MessageHead

  /**
   Requests: from a state that needs no register, a call over a + b and calls over a and then b make the same callbacks
   and consume the same bytes, when a leaves the parser in such a state; in any case they leave the
   same control state.
   */
  lemma RequestSegmentation(m: Parser, a: string, b: string)
    requires IsCut(RequestFlow, m.cs)
    ensures Stopped(RequestEdge, m.cs, a) ==> Execute(RequestEdge, m, a + b) == Execute(RequestEdge, m, a)
    ensures var (m1, n1) := Execute(RequestEdge, m, a);
            var (m2, n2) := Execute(RequestEdge, m1, b);
            !Stopped(RequestEdge, m.cs, a) ==>
              && n1 == |a| && Execute(RequestEdge, m, a + b).0.cs == m2.cs && Execute(RequestEdge, m, a + b).1 == |a| + n2
              && (IsCut(RequestFlow, m1.cs) ==> Same(Execute(RequestEdge, m, a + b).0, m2))
  {
    hide Run, RequestEdge, Describes, ControlRun, Stopped, Contained, NeverStale;
    RequestFlowHolds();
    RequestsAreNeverStale();
    CutIsContained(RequestEdge, RequestFlow, m, a);
    CallbackSegmentation(RequestEdge, RequestFlow, m, a, b);
    if !Stopped(RequestEdge, m.cs, a) { ControlOfExecutes(RequestEdge, m, a, b); }
  }

  /** The same for responses whose runs deliver no header under a stale name. */
  lemma ResponseSegmentation(m: Parser, a: string, b: string)
    requires IsCut(ResponseFlow, m.cs) && Contained(ResponseEdge, ZeroRegisters(m), a, 0)
    ensures Stopped(ResponseEdge, m.cs, a) ==> Execute(ResponseEdge, m, a + b) == Execute(ResponseEdge, m, a)
    ensures var (m1, n1) := Execute(ResponseEdge, m, a);
            var (m2, n2) := Execute(ResponseEdge, m1, b);
            !Stopped(ResponseEdge, m.cs, a) ==>
              && n1 == |a| && Execute(ResponseEdge, m, a + b).0.cs == m2.cs && Execute(ResponseEdge, m, a + b).1 == |a| + n2
              && (IsCut(ResponseFlow, m1.cs) ==> Same(Execute(ResponseEdge, m, a + b).0, m2))
  {
    hide Run, ResponseEdge, Describes, ControlRun, Stopped, Contained;
    ResponseFlowHolds();
    CallbackSegmentation(ResponseEdge, ResponseFlow, m, a, b);
    if !Stopped(ResponseEdge, m.cs, a) { ControlOfExecutes(ResponseEdge, m, a, b); }
  }

  /** Control states and consumption under any split, for any table. */
  lemma ControlOfExecutes(t: Table, m: Parser, a: string, b: string)
    requires !Stopped(t, m.cs, a)
    ensures var (m1, n1) := Execute(t, m, a);
            var (m2, n2) := Execute(t, m1, b);
            n1 == |a| && Execute(t, m, a + b).0.cs == m2.cs && Execute(t, m, a + b).1 == |a| + n2
  {
    hide Run, ControlRun, Stopped;
    assert a[0..] == a && b[0..] == b && (a + b)[0..] == a + b;
    var m1 := Execute(t, m, a).0;
    RunControl(t, ZeroRegisters(m), a, 0);
    RunControl(t, ZeroRegisters(m1), b, 0);
    RunControl(t, ZeroRegisters(m), a + b, 0);
    ControlSegmentation(t, m.cs, a, b);
  }

  /**
   The condition is exact for responses, too: when a leads from one such state to another, cutting
   behind it changes no callback, whatever follows, if and only if no name runs on beyond a.
   */
  lemma ResponseCutIsHarmlessIff(m: Parser, a: string)
    requires IsCut(ResponseFlow, m.cs) && !Stopped(ResponseEdge, m.cs, a)
    requires IsCut(ResponseFlow, Execute(ResponseEdge, m, a).0.cs)
    ensures (forall b :: ContinuesAlike(ResponseEdge, m, a, b)) <==> Contained(ResponseEdge, ZeroRegisters(m), a, 0)
  {
    hide Run, ResponseEdge, Describes, ContinuesAlike, Stopped, Contained;
    ResponseFlowHolds();
    CutIsHarmlessIff(ResponseEdge, ResponseFlow, m, a);
  }

  // ---------------------------------------------------------------- names that run on

  // Behind an empty content-length, a line of digits alone is taken for a value, and behind an empty
  // transfer-encoding so is the word "chunked"; the name it is delivered under begins with that line
  // and has the length of the name before it.

  /** What follows in the examples: a header and the blank line. */
  const TAIL: string := "server: qs\n\n"

  const TAIL_EVENTS: seq<Event> := [Field("server", "qs"), HeaderDone]

  lemma TailRun(m: Parser, buffer: string, p: nat)
    requires m.cs == 20 && At(buffer, p, TAIL)
    ensures Run(ResponseEdge, m, buffer, p).0.events == m.events + TAIL_EVENTS
  {
    hide Run, ResponseEdge;
    var line := HeaderText("server", " ", "qs", "\n");
    assert TAIL == line + "\n";
    AtSplit(buffer, p, line, "\n");
    var m1 := HeaderLine(m, buffer, p, "server", " ", "qs", "\n");
    HeadEnd(m1, buffer, p + |line|, "\n");
  }

  /** The digit behind an empty content-length. */
  lemma StaleLengthRun(m: Parser, buffer: string) returns (m': Parser)
    requires m.cs == 20 && At(buffer, 0, "content-length:\n5\n")
    ensures m'.cs == 20 && Run(ResponseEdge, m, buffer, 0) == Run(ResponseEdge, m', buffer, 18)
    ensures m'.events == m.events + [Field("content-length", ""), Field(Slice(buffer, 16, 30), "5")]
  {
    hide Run, ResponseEdge, ColonState, At, Slice;
    var name := "content-length";
    assert "content-length:\n5\n" == (name + ":\n") + "5\n";
    AtSplit(buffer, 0, name + ":\n", "5\n");
    LengthEdges();
    var m1 := EmptyValueRun(m, buffer, 0, name, 113);
    m' := StaleDigitRun(m1, buffer, 16);
  }

  lemma StaleDigitRun(m: Parser, buffer: string, p: nat) returns (m': Parser)
    requires m.cs == 113 && At(buffer, p, "5\n")
    ensures m'.cs == 20 && Run(ResponseEdge, m, buffer, p) == Run(ResponseEdge, m', buffer, p + 2)
    ensures m'.events == m.events + [Field(Slice(buffer, p, p + m.fieldLen), "5")]
  {
    hide Run, ResponseEdge, NumberAt;
    LengthEdges();
    AtChar(buffer, p, "5\n", 0);
    AtChar(buffer, p, "5\n", 1);
    Step(ResponseEdge, m, buffer, p, Go(117, Mark, StartField));
    var m2 := m.(cs := 117, mark := p, fieldStart := p);
    Step(ResponseEdge, m2, buffer, p + 1, Go(20, SetLength, EmitField));
    FireDelivers(Go(20, SetLength, EmitField), m2, buffer, p + 1);
    m' := Fire(Go(20, SetLength, EmitField), m2, buffer, p + 1);
    assert buffer[p..p + 1] == "5";
  }

  lemma LengthEdges()
    ensures IsName("content-length") && ColonState("content-length") == 112
    ensures ResponseEdge(112, LF) == Go(113, Mark, EmitField)
    ensures ResponseEdge(113, '5') == Go(117, Mark, StartField)
    ensures ResponseEdge(117, LF) == Go(20, SetLength, EmitField)
  {
    assert Is("content-length", CONTENT_LENGTH);
  }

  /**
   The same bytes in one call and in two, cut at a line end: two lists of callbacks.  (The model reads
   no text behind the end of a buffer; in C++ the second list's name is the line, a NUL, and what the
   buffer held before.)
   */
  lemma StaleLength(m: Parser)
    requires m.cs == 20
    ensures var a := "content-length:\n5\n";
            && Execute(ResponseEdge, m, a + TAIL).0.events
               == m.events + ([Field("content-length", ""), Field("5\nserver: qs\n\n", "5")] + TAIL_EVENTS)
            && Execute(ResponseEdge, Execute(ResponseEdge, m, a).0, TAIL).0.events
               == m.events + ([Field("content-length", ""), Field("", "5")] + TAIL_EVENTS)
  {
    hide Run, ResponseEdge, NumberAt;
    var a := "content-length:\n5\n";
    var u := a + TAIL;
    StaleLengthText();
    assert |a| == 18 && |TAIL| == 12;
    var m1 := StaleLengthRun(ZeroRegisters(m), u);
    TailRun(m1, u, 18);
    var m2 := StaleLengthRun(ZeroRegisters(m), a);
    EndOfRun(m2, a);
    TailRun(ZeroRegisters(m2), TAIL, 0);
  }

  /** A text that ends one string and begins the next, in the two put together. */
  lemma JoinedSlices(a: string, b: string, from: nat, n: nat)
    requires from <= |a| && n <= |b|
    ensures (a + b)[from..|a| + n] == a[from..] + b[..n]
    ensures (a + b)[0..|a|] == a && (a + b)[|a|..|a| + |b|] == b && a[0..|a|] == a && b[0..|b|] == b
  {
  }

  lemma StaleLengthText()
    ensures var a := "content-length:\n5\n";
            var u := a + TAIL;
            u[16..30] == "5\nserver: qs\n\n" && u[0..18] == a && u[18..30] == TAIL && a[0..18] == a && TAIL[0..12] == TAIL
  {
    var a := "content-length:\n5\n";
    JoinedSlices(a, TAIL, 16, 12);
    assert a[16..] == "5\n" && TAIL[..12] == TAIL && "5\n" + TAIL == "5\nserver: qs\n\n";
  }

  lemma StaleEncodingText()
    ensures var a := "transfer-encoding:\nchunked\n";
            var u := a + TAIL;
            u[19..36] == "chunked\nserver: q" && u[0..27] == a && u[27..39] == TAIL && a[0..27] == a && TAIL[0..12] == TAIL
  {
    var a := "transfer-encoding:\nchunked\n";
    JoinedSlices(a, TAIL, 19, 9);
    JoinedSlices(a, TAIL, 19, 12);
    assert a[19..] == "chunked\n" && TAIL[..9] == "server: q";
    StaleWord();
  }

  lemma StaleWord()
    ensures "chunked\n" + "server: q" == "chunked\nserver: q"
  {
  }

  lemma EndOfRun(m: Parser, buffer: string)
    ensures Run(ResponseEdge, m, buffer, |buffer|) == (m, |buffer|)
  {
  }

  /** The word behind an empty transfer-encoding. */
  lemma StaleEncodingRun(m: Parser, buffer: string) returns (m': Parser)
    requires m.cs == 20 && At(buffer, 0, "transfer-encoding:\nchunked\n")
    ensures m'.cs == 20 && Run(ResponseEdge, m, buffer, 0) == Run(ResponseEdge, m', buffer, 27)
    ensures m'.events == m.events + [Field("transfer-encoding", ""), Field(Slice(buffer, 19, 36), "chunked")]
  {
    hide Run, ResponseEdge, ColonState, At, Slice;
    var name := "transfer-encoding";
    assert "transfer-encoding:\nchunked\n" == (name + ":\n") + ("chunked" + "\n");
    AtSplit(buffer, 0, name + ":\n", "chunked" + "\n");
    EncodingEdges();
    var m1 := EmptyValueRun(m, buffer, 0, name, 62);
    m' := StaleWordRun(m1, buffer, 19);
  }

  lemma StaleWordRun(m: Parser, buffer: string, p: nat) returns (m': Parser)
    requires m.cs == 62 && At(buffer, p, "chunked" + "\n")
    ensures m'.cs == 20 && Run(ResponseEdge, m, buffer, p) == Run(ResponseEdge, m', buffer, p + 8)
    ensures m'.events == m.events + [Field(Slice(buffer, p, p + m.fieldLen), "chunked")]
  {
    hide Run, ResponseEdge;
    EncodingEdges();
    AtSplit(buffer, p, "chunked", "\n");
    assert "chunked" == "c" + "hunked";
    AtSplit(buffer, p, "c", "hunked");
    AtChar(buffer, p, "c", 0);
    Step(ResponseEdge, m, buffer, p, Go(73, Mark, StartField));
    var m2 := Fire(Go(73, Mark, StartField), m, buffer, p);
    Spell(ResponseEdge, m2, buffer, p + 1, "hunked");
    var m3 := m2.(cs := 79);
    AtChar(buffer, p + 7, "\n", 0);
    Step(ResponseEdge, m3, buffer, p + 7, Go(20, EmitField, SetChunked));
    m' := Fire(Go(20, EmitField, SetChunked), m3, buffer, p + 7);
  }

  lemma EncodingEdges()
    ensures IsName("transfer-encoding") && ColonState("transfer-encoding") == 61
    ensures ResponseEdge(61, LF) == Go(62, Mark, EmitField)
    ensures ResponseEdge(62, 'c') == Go(73, Mark, StartField)
    ensures forall i :: 0 <= i < 6 ==> ResponseEdge(73 + i, "hunked"[i]) == Go(73 + i + 1)
    ensures ResponseEdge(79, LF) == Go(20, EmitField, SetChunked)
  {
    assert Is("transfer-encoding", TRANSFER_ENCODING);
    forall i | 0 <= i < 6
      ensures ResponseEdge(73 + i, "hunked"[i]) == Go(73 + i + 1)
    {
      EncodingLetter(i);
    }
  }

  lemma EncodingLetter(i: nat)
    requires i < 6
    ensures ResponseEdge(73 + i, "hunked"[i]) == Go(73 + i + 1)
  {
    assert CHUNKED[i + 1] == "hunked"[i];
  }

  /** The same for a transfer-encoding. */
  lemma StaleEncoding(m: Parser)
    requires m.cs == 20
    ensures var a := "transfer-encoding:\nchunked\n";
            && Execute(ResponseEdge, m, a + TAIL).0.events
               == m.events + ([Field("transfer-encoding", ""), Field("chunked\nserver: q", "chunked")] + TAIL_EVENTS)
            && Execute(ResponseEdge, Execute(ResponseEdge, m, a).0, TAIL).0.events
               == m.events + ([Field("transfer-encoding", ""), Field("", "chunked")] + TAIL_EVENTS)
  {
    hide Run, ResponseEdge;
    var a := "transfer-encoding:\nchunked\n";
    var u := a + TAIL;
    StaleEncodingText();
    assert |a| == 27 && |TAIL| == 12;
    var m1 := StaleEncodingRun(ZeroRegisters(m), u);
    TailRun(m1, u, 27);
    var m2 := StaleEncodingRun(ZeroRegisters(m), a);
    EndOfRun(m2, a);
    TailRun(ZeroRegisters(m2), TAIL, 0);
  }
}
