/**
 Where a read may end in a response: only where no register is needed and no name runs on beyond the
 text.  Everywhere else a continuation is given that is then taken for something else.
 */
module ResponseCuts {
  import opened HttpText
  import opened ParserTables
  import opened Machine
  import opened Segmentation
  import opened Registers
  import opened ParserFlows

  // ---------------------------------------------------------------- the states that need a register

  /** A name has begun. */
  predicate InName(cs: int) {
    || cs == 5 || cs == 21 || 25 <= cs <= 34 || 44 <= cs <= 60 || 73 <= cs <= 79 || 90 <= cs <= 94 || 101 <= cs <= 111
    || cs == 117
  }

  /** A name has ended, and is to be delivered. */
  predicate BehindName(cs: int) {
    || cs == 6 || cs == 7 || cs == 22 || cs == 23 || cs == 35 || 61 <= cs <= 70 || cs == 72 || 80 <= cs <= 87
    || 96 <= cs <= 100 || 112 <= cs <= 116 || cs == 118 || cs == 119 || cs == 121 || cs == 123
  }

  /** The version or the reason has begun. */
  predicate InText(cs: int) {
    8 <= cs <= 15 || cs == 19
  }

  /** A chunk size or a status code has begun. */
  predicate InNumber(cs: int) {
    cs == 2 || cs == 17
  }

  lemma NeedsRegisters(cs: int)
    ensures IsCut(ResponseFlow, cs) <==> !InName(cs) && !BehindName(cs) && !InText(cs) && !InNumber(cs)
    ensures ResponsePaired(cs) <==> BehindName(cs)
  {
  }

  // ---------------------------------------------------------------- what a run has marked

  /** What is marked lies in front of p, and a name that has ended is not empty. */
  predicate Marked(m: Parser, p: nat) {
    && m.mark <= p && m.fieldStart <= p
    && (InText(m.cs) ==> m.mark < p)
    && (InName(m.cs) ==> m.fieldStart < p)
    && (BehindName(m.cs) ==> 0 < m.fieldLen && m.fieldStart + m.fieldLen <= p)
  }

  /** The edges of the table, as far as the three registers go. */
  predicate MarksRight(cs: int, e: Edge) {
    && EndsFirst(e)
    && (InText(e.target) ==> InText(cs) || MarkAfter(e, 0, 1) == 1)
    && (InName(e.target) ==> InName(cs) || StartAfter(e, 0, 1) == 1)
    && (BehindName(e.target) ==>
          && StartAfter(e, 0, 1) == 0
          && if e.a1.EndField? then InName(cs) else BehindName(cs))
  }

  lemma MarksAtStart(cs: int, c: char)
    requires AtStart(cs)
    ensures MarksRight(cs, ResponseEdge(cs, c))
  {
    hide ConnectionLine, EncodingLine, LengthLine;
  }

  lemma MarksInNames(cs: int, c: char)
    requires InNames(cs)
    ensures MarksRight(cs, ResponseEdge(cs, c))
  {
    hide ChunkLine, StatusLine, ConnectionLine, EncodingLine, LengthLine;
  }

  lemma MarksToClose(cs: int, c: char)
    requires ToClose(cs)
    ensures MarksRight(cs, ResponseEdge(cs, c))
  {
    hide ChunkLine, StatusLine, EncodingLine, LengthLine;
  }

  lemma MarksInClose(cs: int, c: char)
    requires InClose(cs)
    ensures MarksRight(cs, ResponseEdge(cs, c))
  {
    hide ChunkLine, StatusLine, EncodingLine, LengthLine;
  }

  lemma MarksToChunked(cs: int, c: char)
    requires ToChunked(cs)
    ensures MarksRight(cs, ResponseEdge(cs, c))
  {
    hide ChunkLine, StatusLine, ConnectionLine, LengthLine;
  }

  lemma MarksInChunked(cs: int, c: char)
    requires InChunked(cs)
    ensures MarksRight(cs, ResponseEdge(cs, c))
  {
    hide ChunkLine, StatusLine, ConnectionLine, LengthLine;
  }

  lemma MarksToLength(cs: int, c: char)
    requires ToLength(cs)
    ensures MarksRight(cs, ResponseEdge(cs, c))
  {
    hide ChunkLine, StatusLine, ConnectionLine, EncodingLine;
  }

  lemma EdgesMarkRight(cs: int, c: char)
    ensures MarksRight(cs, ResponseEdge(cs, c))
  {
    hide ResponseEdge, MarksRight;
    if AtStart(cs) { MarksAtStart(cs, c); }
    else if InNames(cs) { MarksInNames(cs, c); }
    else if ToClose(cs) { MarksToClose(cs, c); }
    else if InClose(cs) { MarksInClose(cs, c); }
    else if ToChunked(cs) { MarksToChunked(cs, c); }
    else if InChunked(cs) { MarksInChunked(cs, c); }
    else { MarksToLength(cs, c); }
  }

  lemma {:induction false} RunMarks(m: Parser, buffer: string, p: nat)
    requires p <= |buffer| && Marked(m, p) && !Stopped(ResponseEdge, m.cs, buffer[p..])
    ensures Marked(Run(ResponseEdge, m, buffer, p).0, |buffer|)
    decreases |buffer| - p
  {
    hide ResponseEdge, Fire, InName, BehindName, InText;
    if p < |buffer| {
      var e := ResponseEdge(m.cs, buffer[p]);
      assert buffer[p..][0] == buffer[p] && buffer[p..][1..] == buffer[p + 1..];
      EdgesMarkRight(m.cs, buffer[p]);
      RegistersAfter(e, m, buffer, p);
      RunMarks(Fire(e, m, buffer, p), buffer, p + 1);
    }
  }

  /** A number that is being read has its digits in front of the end of the text. */
  lemma {:induction false} RunInFront(t: Table, f: Flow, m: Parser, s: string, p: nat)
    requires Describes(f, t) && InFront(f, m, s, p) && Contained(t, m, s, p) && !Stopped(t, m.cs, s[p..])
    ensures InFront(f, Run(t, m, s, p).0, s, |s|)
    decreases |s| - p
  {
    hide Fire, MarkFlow, NameFlow, QueryFlow, NumbersFlow, FieldsFlow, NamesInside;
    if p < |s| {
      assert s[p..][0] == s[p] && s[p..][1..] == s[p + 1..];
      var e := t(m.cs, s[p]);
      assert FlowAt(f, m.cs, s[p], e);
      FireBlind(e, f, m, s, "", p);
      RunInFront(t, f, Fire(e, m, s, p), s, p + 1);
    }
  }

  // ---------------------------------------------------------------- a continuation that tells

  const VERSION_REST: string := "TTP/1.1 "

  const CHUNKED_LINE: string := "chunked\n"

  /** For each state within a header or a text, a continuation that ends this header or text. */
  function Witness(cs: int): (w: string)
    requires InName(cs) || BehindName(cs) || InText(cs)
    ensures w != ""
  {
    if 8 <= cs <= 15 then VERSION_REST[cs - 8..]
    else if cs == 5 then "=x\n"
    else if InName(cs) then ":x\n"
    else if cs == 6 || cs == 22 || cs == 35 || cs == 61 || cs == 112 then "x\n"
    else if cs == 62 then " chunked\n"
    else if cs == 63 || cs == 72 || cs == 80 || cs == 121 then CHUNKED_LINE
    else if 64 <= cs <= 69 then CHUNKED_LINE[cs - 63..]
    else if cs == 113 then " 1\n"
    else if cs == 114 || cs == 116 || cs == 118 || cs == 123 then "1\n"
    else "\n"
  }

  predicate HasWitness(cs: int) {
    InName(cs) || BehindName(cs) || InText(cs)
  }

  /** The acts of an edge that is on the way. */
  predicate OnTheWay(cs: int, e: Edge) {
    && (e.a2.Skip? || e.a2.Mark?) && e.a3.Skip? && e.a4.Skip?
    && if InName(cs) then BehindName(e.target) && e.a1.EndField?
       else (e.a1.Skip? || (e.a1.Mark? && BehindName(cs))) && BehindName(e.target) == BehindName(cs) && !InName(e.target)
            && (InText(cs) ==> e.a2.Skip? && InText(e.target)) && (BehindName(cs) ==> !InText(e.target))
  }

  /** A text's last edge: it is delivered. */
  predicate Tells(cs: int, e: Edge) {
    if BehindName(cs) then e.a1.EmitField? || (e.a1.SetLength? && e.a2.EmitField?)
    else InText(cs) && (e.a1.EmitVersion? || e.a1.EmitReason?)
  }

  predicate WitnessAt(cs: int, e: Edge)
    requires HasWitness(cs)
  {
    && e.target != 0
    && if |Witness(cs)| == 1 then Tells(cs, e)
       else !e.Halts() && HasWitness(e.target) && Witness(e.target) == Witness(cs)[1..] && OnTheWay(cs, e)
  }

  lemma WitnessInName(cs: int)
    requires InName(cs) && cs != 5
    ensures WitnessAt(cs, ResponseEdge(cs, ':'))
  {
    hide StatusLine;
    assert ":x\n"[1..] == "x\n";
  }

  lemma WitnessInExtension(cs: int)
    requires cs == 5 || cs == 6 || cs == 7
    ensures WitnessAt(cs, ResponseEdge(cs, Witness(cs)[0]))
  {
    assert "=x\n"[1..] == "x\n" && "x\n"[1..] == "\n";
  }

  lemma WitnessInText(cs: int)
    requires InText(cs)
    ensures WitnessAt(cs, ResponseEdge(cs, Witness(cs)[0]))
  {
    hide ChunkLine, ConnectionLine, EncodingLine, LengthLine;
    if cs < 15 { assert VERSION_REST[cs - 8..][1..] == VERSION_REST[cs - 7..]; }
  }

  lemma WitnessInValue(cs: int)
    requires BehindName(cs) && (cs == 22 || cs == 23 || cs == 35 || cs == 61 || 80 < cs <= 87 || 96 <= cs <= 100)
    ensures WitnessAt(cs, ResponseEdge(cs, Witness(cs)[0]))
  {
    hide ChunkLine, StatusLine, LengthLine;
    assert "x\n"[1..] == "\n";
  }

  lemma WitnessInLength(cs: int)
    requires BehindName(cs) && (112 <= cs <= 119 || cs == 123)
    ensures WitnessAt(cs, ResponseEdge(cs, Witness(cs)[0]))
  {
    hide ChunkLine, StatusLine, ConnectionLine, EncodingLine;
    assert " 1\n"[1..] == "1\n" && "1\n"[1..] == "\n" && "x\n"[1..] == "\n";
  }

  lemma WitnessInWord(cs: int)
    requires 64 <= cs <= 70
    ensures WitnessAt(cs, ResponseEdge(cs, Witness(cs)[0]))
  {
    hide ResponseEdge, Witness, InName, BehindName, InText;
    WordEdge(cs);
    WordStates(cs);
    var w := CHUNKED_LINE[cs - 63..];
    assert w[0] == CHUNKED_LINE[cs - 63];
    if cs < 70 {
      WordStates(cs + 1);
      assert w[1..] == CHUNKED_LINE[cs - 62..];
    }
  }

  lemma WordStates(cs: int)
    requires 64 <= cs <= 70
    ensures BehindName(cs) && !InName(cs) && !InText(cs) && Witness(cs) == CHUNKED_LINE[cs - 63..]
  {
    assert CHUNKED_LINE[7..] == "\n";
  }

  lemma WordEdge(cs: int)
    requires 64 <= cs <= 70
    ensures ResponseEdge(cs, CHUNKED_LINE[cs - 63]) == if cs == 70 then Go(20, EmitField, SetChunked) else Go(cs + 1)
  {
    hide ChunkLine, StatusLine, ConnectionLine, LengthLine;
  }

  lemma WitnessBeforeWord(cs: int)
    requires cs == 62 || cs == 63 || cs == 72 || cs == 80 || cs == 121
    ensures WitnessAt(cs, ResponseEdge(cs, Witness(cs)[0]))
  {
    hide ChunkLine, StatusLine, ConnectionLine, LengthLine;
    assert " chunked\n"[1..] == CHUNKED_LINE;
  }

  lemma WitnessStep(cs: int)
    requires HasWitness(cs)
    ensures WitnessAt(cs, ResponseEdge(cs, Witness(cs)[0]))
  {
    hide ResponseEdge, WitnessAt;
    if 5 <= cs <= 7 { WitnessInExtension(cs); }
    else if InName(cs) { WitnessInName(cs); }
    else if InText(cs) { WitnessInText(cs); }
    else if 112 <= cs <= 119 || cs == 123 { WitnessInLength(cs); }
    else if 64 <= cs <= 70 { WitnessInWord(cs); }
    else if 62 <= cs <= 72 || cs == 80 || cs == 121 { WitnessBeforeWord(cs); }
    else { WitnessInValue(cs); }
  }

  /**
   The parser m runs over the text from its beginning, n over the part behind a cut at `cut`: what m
   has marked lies in front of the cut, where n cannot see it.
   */
  predicate Apart(m: Parser, n: Parser, cut: nat, p: nat) {
    && m.cs == n.cs && m.events == n.events && HasWitness(m.cs) && m.fieldStart <= cut + p && n.fieldStart <= p
    && (InText(m.cs) ==> m.mark < cut && n.mark == 0)
    && (InName(m.cs) ==> m.fieldStart < cut && n.fieldStart == 0)
    && (BehindName(m.cs) ==>
          n.fieldLen < m.fieldLen && m.fieldStart + m.fieldLen <= cut + p && n.fieldStart + n.fieldLen <= p)
  }

  /** One more byte of the witness. */
  lemma ApartStep(e: Edge, m: Parser, n: Parser, a: string, b: string, p: nat)
    requires p < |b| && Apart(m, n, |a|, p) && OnTheWay(m.cs, e) && HasWitness(e.target)
    ensures Apart(Fire(e, m, a + b, |a| + p), Fire(e, n, b, p), |a|, p + 1)
  {
    hide Act, Witness;
    StatesApart(m.cs);
    StatesApart(e.target);
    hide InName, BehindName, InText;
    var u, q := a + b, |a| + p;
    RegistersAfter(e, n, b, p);
    NothingDelivered(e, m, u, q);
    NothingDelivered(e, n, b, p);
    RegistersAfter(e, m, u, q);
  }

  lemma StatesApart(cs: int)
    ensures InName(cs) ==> !BehindName(cs) && !InText(cs)
    ensures BehindName(cs) ==> !InText(cs)
  {
  }

  lemma NothingDelivered(e: Edge, m: Parser, s: string, p: nat)
    requires OnTheWay(m.cs, e)
    ensures Fire(e, m, s, p).events == m.events
  {
    hide NumberAt, Slice, InName, BehindName, InText;
  }

  /** The last byte of the witness: two different callbacks. */
  lemma ApartTells(e: Edge, m: Parser, n: Parser, a: string, b: string, p: nat)
    requires p < |b| && Apart(m, n, |a|, p) && Tells(m.cs, e)
    ensures Part(Fire(e, m, a + b, |a| + p).events, Fire(e, n, b, p).events)
  {
    hide Fire, Part, InName, BehindName, InText;
    var u, q := a + b, |a| + p;
    if BehindName(m.cs) {
      FieldHere(e, m, u, q);
      FieldHere(e, n, b, p);
      assert |Slice(u, m.fieldStart, m.fieldStart + m.fieldLen)| == m.fieldLen;
      assert |Slice(b, n.fieldStart, n.fieldStart + n.fieldLen)| == n.fieldLen;
    } else {
      LongerSlice(a, b, m.mark, p);
      TextHere(e, m, u, q);
      TextHere(e, n, b, p);
    }
    PartAt(Fire(e, m, u, q).events, Fire(e, n, b, p).events, |m.events|);
  }

  lemma FieldHere(e: Edge, m: Parser, s: string, p: nat)
    requires e.a1.EmitField? || (e.a1.SetLength? && e.a2.EmitField?)
    ensures var l, k := Fire(e, m, s, p).events, |m.events|;
            k < |l| && l[k] == Field(Slice(s, m.fieldStart, m.fieldStart + m.fieldLen), Slice(s, m.mark, p))
  {
    hide Act, Slice, NumberAt;
    FireAddsEvents(e, m, s, p);
    EmitsFieldHere(m, s, p);
    if e.a1.SetLength? {
      StoresHere(m, s, p);
      EmitsFieldHere(Act(SetLength, m, s, p), s, p);
    }
  }

  lemma StoresHere(m: Parser, s: string, p: nat)
    ensures Act(SetLength, m, s, p) == m.(contentLen := NumberAt(s, m.mark, 10))
  {
  }

  lemma TextHere(e: Edge, m: Parser, s: string, p: nat)
    requires e.a1.EmitVersion? || e.a1.EmitReason?
    ensures var l, k, text := Fire(e, m, s, p).events, |m.events|, Slice(s, m.mark, p);
            k < |l| && l[k] == if e.a1.EmitVersion? then Version(text) else Reason(text)
  {
    hide Act, Slice;
    FireAddsEvents(e, m, s, p);
    EmitsTextHere(m, s, p);
  }

  lemma EmitsTextHere(m: Parser, s: string, p: nat)
    ensures Act(EmitVersion, m, s, p).events == m.events + [Version(Slice(s, m.mark, p))]
    ensures Act(EmitReason, m, s, p).events == m.events + [Reason(Slice(s, m.mark, p))]
  {
  }

  /** Over the rest of the witness the two runs part. */
  lemma {:induction false} WitnessTells(m: Parser, n: Parser, a: string, b: string, p: nat)
    requires p < |b| && Apart(m, n, |a|, p) && b[p..] == Witness(m.cs)
    ensures Part(Run(ResponseEdge, m, a + b, |a| + p).0.events, Run(ResponseEdge, n, b, p).0.events)
    decreases |b| - p
  {
    hide ResponseEdge, Fire, Witness, Tells, OnTheWay, Part, InName, BehindName, InText;
    var u, q := a + b, |a| + p;
    assert u[q] == b[p] == b[p..][0] && b[p..][1..] == b[p + 1..];
    var e := ResponseEdge(m.cs, b[p]);
    WitnessStep(m.cs);
    if |Witness(m.cs)| == 1 {
      ApartTells(e, m, n, a, b, p);
      ThenParts(e, m, n, u, q, b, p);
    } else {
      ApartStep(e, m, n, a, b, p);
      WitnessTells(Fire(e, m, u, q), Fire(e, n, b, p), a, b, p + 1);
    }
  }

  /** Runs part as soon as one of their edges' callbacks do. */
  lemma ThenParts(e: Edge, m: Parser, n: Parser, u: string, q: nat, b: string, p: nat)
    requires q < |u| && p < |b| && e == ResponseEdge(m.cs, u[q]) == ResponseEdge(n.cs, b[p])
    requires Part(Fire(e, m, u, q).events, Fire(e, n, b, p).events)
    ensures Part(Run(ResponseEdge, m, u, q).0.events, Run(ResponseEdge, n, b, p).0.events)
  {
    hide ResponseEdge, Fire, Part;
    FireThenRun(ResponseEdge, m, u, q);
    FireThenRun(ResponseEdge, n, b, p);
    PartMore(Fire(e, m, u, q).events, Fire(e, n, b, p).events,
             Run(ResponseEdge, m, u, q).0.events, Run(ResponseEdge, n, b, p).0.events);
  }

  // ---------------------------------------------------------------- numbers

  /** What ends a number: a blank, and then a digit that is taken for a number itself when the rest stands alone. */
  function NumberEnd(cs: int, d: char): string {
    (if cs == 2 then "\n" else " ") + [d]
  }

  function NumberBase(cs: int): nat {
    if cs == 2 then 16 else 10
  }

  /** strtol passes over the blank. */
  lemma StandsAlone(cs: int, d: char)
    requires InNumber(cs) && (d == '1' || d == '2')
    ensures NumberAt(NumberEnd(cs, d), 0, NumberBase(cs)) == if d == '1' then 1 else 2
  {
    var s, base := NumberEnd(cs, d), NumberBase(cs);
    assert s[0..|s|] == s && s[1..] == [d];
    assert SkipSpace(s) == [d];
    assert DigitSpan([d], base) == 1 && [d][..1] == [d] && [d][..0] == "";
    assert Value([d], base) == DigitValue(d);
  }

  lemma NumberEdge(cs: int)
    requires InNumber(cs)
    ensures var e := ResponseEdge(cs, NumberEnd(cs, '1')[0]);
            if cs == 2 then e == Go(120, EmitChunk, Done) else e == Go(18, EmitStatus)
  {
  }

  function NumberEvent(cs: int, v: int): Event {
    if cs == 17 then StatusCode(v) else if v <= 0 then LastChunk(v) else ChunkSize(v)
  }

  lemma NumberHere(m: Parser, s: string, p: nat)
    requires InNumber(m.cs) && p < |s|
    ensures var e := if m.cs == 2 then Go(120, EmitChunk, Done) else Go(18, EmitStatus);
            var l, k := Fire(e, m, s, p).events, |m.events|;
            k < |l| && l[k] == NumberEvent(m.cs, NumberAt(s, m.mark, NumberBase(m.cs)))
  {
    hide NumberAt;
  }

  /** A number in the whole text is that of its digits in front of the cut. */
  lemma NumberInWhole(a: string, mark: nat, cs: int, d: char)
    requires InNumber(cs) && mark < |a| && AllDigits(a[mark..], NumberBase(cs))
    ensures NumberAt(a + NumberEnd(cs, d), mark, NumberBase(cs)) == ToInt32(Clamp64(Value(a[mark..], NumberBase(cs))))
  {
    hide Strtol, Value;
    var s, k := a + NumberEnd(cs, d), |a| - mark;
    assert s[mark..][..k] == a[mark..];
    assert s[mark..][k] == NumberEnd(cs, d)[0];
    StrtolOfRun(s[mark..], k, NumberBase(cs));
    assert s[mark..|s|] == s[mark..];
  }

  /** A number cut within its digits, or right behind them, is taken for another one. */
  lemma NumberTells(m: Parser, n: Parser, a: string) returns (b: string)
    requires InNumber(m.cs) && m.cs == n.cs && m.events == n.events && n.mark == 0
    requires m.mark < |a| && AllDigits(a[m.mark..], NumberBase(m.cs))
    ensures Part(Run(ResponseEdge, m, a + b, |a|).0.events, Run(ResponseEdge, n, b, 0).0.events)
  {
    hide ResponseEdge, Fire, Part, NumberAt, Value, Clamp64, ToInt32;
    var v := ToInt32(Clamp64(Value(a[m.mark..], NumberBase(m.cs))));
    var d := if v == 1 then '2' else '1';
    b := NumberEnd(m.cs, d);
    var u, q := a + b, |a|;
    NumberInWhole(a, m.mark, m.cs, d);
    StandsAlone(m.cs, d);
    NumberEdge(m.cs);
    assert u[q] == b[0] == NumberEnd(m.cs, '1')[0];
    NumberHere(m, u, q);
    NumberHere(n, b, 0);
    var e := ResponseEdge(m.cs, b[0]);
    PartAt(Fire(e, m, u, q).events, Fire(e, n, b, 0).events, |m.events|);
    ThenParts(e, m, n, u, q, b, 0);
  }

  // ---------------------------------------------------------------- the theorem

  /** Behind any other text that leads on, there is a continuation that tells a cut. */
  lemma CutTells(m: Parser, a: string) returns (b: string)
    requires IsCut(ResponseFlow, m.cs) && !Stopped(ResponseEdge, m.cs, a) && Contained(ResponseEdge, ZeroRegisters(m), a, 0)
    requires !IsCut(ResponseFlow, Execute(ResponseEdge, m, a).0.cs)
    ensures !ContinuesAlike(ResponseEdge, m, a, b)
  {
    hide ResponseEdge, Run, Stopped, Contained, FlowAt, InName, BehindName, InText, InNumber, Part, Witness, IsCut;
    var z, m1 := ZeroRegisters(m), Execute(ResponseEdge, m, a).0;
    var n := ZeroRegisters(m1);
    assert a[0..] == a;
    NeedsRegisters(m.cs);
    NeedsRegisters(m1.cs);
    ResponseFlowHolds();
    StartsInFront(z, a);
    RunMarks(z, a, 0);
    RunInFront(ResponseEdge, ResponseFlow, z, a, 0);
    if InNumber(m1.cs) {
      NumberInFront(m1, a);
      b := NumberTells(m1, n, a);
    } else {
      b := Witness(m1.cs);
      assert b[0..] == b;
      WitnessTells(m1, n, a, b, 0);
    }
    RunBlind(ResponseEdge, ResponseFlow, z, a, b, 0);
    PartsFromItself(Execute(ResponseEdge, m1, b).0.events);
  }

  lemma StartsInFront(m: Parser, a: string)
    requires IsCut(ResponseFlow, m.cs) && m == ZeroRegisters(m)
    ensures InFront(ResponseFlow, m, a, 0)
  {
  }

  lemma NumberInFront(m: Parser, a: string)
    requires InNumber(m.cs) && InFront(ResponseFlow, m, a, |a|)
    ensures m.mark < |a| && AllDigits(a[m.mark..], NumberBase(m.cs))
  {
    assert a[m.mark..] == a[m.mark..|a|];
  }

  lemma PartsFromItself(a: seq<Event>)
    ensures !Part(a, a)
  {
  }

  /**
   Exactly where a read may end.  When a call over a leads on from a state that needs no register, then
   cutting behind a changes no callback, whatever follows, if and only if a leads to such a state again
   and the call delivers no header whose name runs on beyond a.
   */
  lemma ResponseCutIff(m: Parser, a: string)
    requires IsCut(ResponseFlow, m.cs) && !Stopped(ResponseEdge, m.cs, a)
    ensures (forall b :: ContinuesAlike(ResponseEdge, m, a, b))
            <==> IsCut(ResponseFlow, Execute(ResponseEdge, m, a).0.cs) && Contained(ResponseEdge, ZeroRegisters(m), a, 0)
  {
    hide ResponseEdge, Run, Stopped, Contained, Describes, IsCut, ContinuesAlike;
    ResponseFlowHolds();
    if !Contained(ResponseEdge, ZeroRegisters(m), a, 0) {
      var b := RunOnTells(ResponseEdge, ResponseFlow, m, a);
    } else if !IsCut(ResponseFlow, Execute(ResponseEdge, m, a).0.cs) {
      var b := CutTells(m, a);
    } else {
      CutIsHarmlessIff(ResponseEdge, ResponseFlow, m, a);
    }
  }
}
