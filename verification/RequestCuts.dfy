/**
 Where a read may end in a request.  The flow of the table says where no register is needed; here it is
 shown that everywhere else a register is needed: some continuation is then taken for something else.
 */
module RequestCuts {
  import opened ParserTables
  import opened Machine
  import opened Segmentation
  import opened Registers
  import opened ParserFlows
  import opened ParserSegments

  /** The states between reads at which nothing has been marked. */
  predicate RequestCut(cs: int) {
    cs == 1 || cs == 3 || cs == 4 || cs == 13 || cs == 17 || cs == 20 || cs == 174
  }

  /** The other states that a run can be left in, those beyond the modelled part of the table aside. */
  predicate MidText(cs: int) {
    cs == 2 || 5 <= cs <= 12 || 14 <= cs <= 16 || 18 <= cs <= 19 || 21 <= cs <= 33 || cs == 173 || 175 <= cs <= 193
  }

  /** The first states of the parts of the table that are not modelled. */
  predicate Beyond(cs: int) {
    cs == 34 || cs == 194 || cs == 198
  }

  // ---------------------------------------------------------------- what a run has marked

  predicate InName(cs: int) {
    cs == 14 || cs == 18
  }

  predicate BehindName(cs: int) {
    cs == 15 || cs == 16
  }

  /** What is marked lies in front of p, and a name that has ended is not empty. */
  predicate Marked(m: Parser, p: nat) {
    && m.mark <= p && m.fieldStart <= p
    && (RequestMark(m.cs) ==> m.mark < p)
    && (InName(m.cs) ==> m.fieldStart < p)
    && (BehindName(m.cs) ==> 0 < m.fieldLen && m.fieldStart + m.fieldLen <= p)
  }

  /** The edges of the table, as far as the three registers go. */
  predicate MarksRight(cs: int, e: Edge) {
    && EndsFirst(e)
    && (RequestMark(e.target) ==> RequestMark(cs) || MarkAfter(e, 0, 1) == 1)
    && (InName(e.target) ==> InName(cs) || StartAfter(e, 0, 1) == 1)
    && (BehindName(e.target) ==>
          && StartAfter(e, 0, 1) == 0
          && if e.a1.EndField? then InName(cs) else BehindName(cs))
  }

  lemma EdgesMarkRight(cs: int, c: char)
    requires cs != 348
    ensures MarksRight(cs, RequestEdge(cs, c))
  {
    hide TargetEdge, MarksRight;
    if InTarget(cs) { TargetMarksRight(cs, c); } else { OthersMarkRight(cs, c); }
  }

  lemma TargetMarksRight(cs: int, c: char)
    requires InTarget(cs)
    ensures MarksRight(cs, TargetEdge(cs, c))
  {
  }

  lemma OthersMarkRight(cs: int, c: char)
    requires cs != 348 && !InTarget(cs)
    ensures MarksRight(cs, RequestEdge(cs, c))
  {
    hide TargetEdge;
  }

  lemma {:induction false} RunMarks(m: Parser, buffer: string, p: nat)
    requires p <= |buffer| && Marked(m, p) && m.cs != 348 && !Stopped(RequestEdge, m.cs, buffer[p..])
    ensures var r := Run(RequestEdge, m, buffer, p).0;
            Marked(r, |buffer|) && (p < |buffer| || m.cs != 0 ==> r.cs != 0) && r.cs != 348
    decreases |buffer| - p
  {
    hide RequestEdge, Fire, RequestMark;
    if p < |buffer| {
      var e := RequestEdge(m.cs, buffer[p]);
      assert buffer[p..][0] == buffer[p] && buffer[p..][1..] == buffer[p + 1..];
      EdgesMarkRight(m.cs, buffer[p]);
      RegistersAfter(e, m, buffer, p);
      OnlyHaltsFinish(m.cs, buffer[p]);
      RunMarks(Fire(e, m, buffer, p), buffer, p + 1);
    }
  }

  lemma OnlyHaltsFinish(cs: int, c: char)
    ensures RequestEdge(cs, c).target == 348 ==> RequestEdge(cs, c).Halts()
    ensures var t := RequestEdge(cs, c).target; t == 0 || t == 348 || RequestCut(t) || MidText(t) || Beyond(t)
  {
  }

  // ---------------------------------------------------------------- a continuation that tells

  const VERSION_REST: string := "TTP/1.1\n"

  /** For each state amid some text, a continuation that ends this text. */
  function Witness(cs: int): (w: string)
    requires MidText(cs)
    ensures w != ""
  {
    if 5 <= cs <= 12 then VERSION_REST[cs - 5..]
    else if cs == 14 || cs == 18 then ":x\n"
    else if cs == 15 then "x\n"
    else if cs == 16 then "\n"
    else if cs == 22 || cs == 24 || cs == 27 || cs == 31 then "00 "
    else if cs == 23 || cs == 25 || cs == 28 || cs == 32 then "0 "
    else " "
  }

  /** The acts of an edge that is on the way. */
  predicate OnTheWay(cs: int, e: Edge) {
    && e.a2.Skip? && e.a3.Skip? && e.a4.Skip?
    && (e.a1.Skip? || (e.a1.EndField? && InName(cs)) || (e.a1.Mark? && cs == 15))
    && (InName(cs) ==> e.target == 15 && e.a1.EndField?)
    && (cs == 15 ==> e.target == 16)
    && (!InName(cs) && cs != 15 ==> !InName(e.target) && !BehindName(e.target))
  }

  /** A text's last edge: it is delivered. */
  predicate Tells(cs: int, e: Edge) {
    if cs == 16 then e.a1.EmitField?
    else if cs == 29 then e.a1.MarkQuery? && e.a2.EmitQuery? && e.a3.EmitUri?
    else if 30 <= cs <= 32 then e.a1.EmitQuery? && e.a2.EmitUri?
    else e.a1.EmitMethod? || e.a1.EmitVersion? || e.a1.EmitFragment? || (e.a1.Skip? && e.a2.EmitPath?)
  }

  lemma WitnessStep(cs: int)
    requires MidText(cs)
    ensures var e := RequestEdge(cs, Witness(cs)[0]);
            && e.target != 0 && !e.Halts()
            && if |Witness(cs)| == 1 then Tells(cs, e)
               else MidText(e.target) && Witness(e.target) == Witness(cs)[1..] && OnTheWay(cs, e)
  {
    if 5 <= cs <= 12 {
      VersionStep(cs);
    } else if 14 <= cs <= 18 {
      HeaderStep(cs);
    } else if 19 <= cs <= 33 || cs == 173 {
      TargetStep(cs);
    }
  }

  lemma VersionStep(cs: int)
    requires 5 <= cs <= 12
    ensures var e := RequestEdge(cs, Witness(cs)[0]);
            && e.target != 0 && !e.Halts()
            && if |Witness(cs)| == 1 then Tells(cs, e)
               else MidText(e.target) && Witness(e.target) == Witness(cs)[1..] && OnTheWay(cs, e)
  {
    VersionEdge(cs);
    hide RequestEdge;
    var w := VERSION_REST[cs - 5..];
    assert w[0] == VERSION_REST[cs - 5];
    if cs < 12 { assert w[1..] == VERSION_REST[cs - 4..]; }
  }

  lemma VersionEdge(cs: int)
    requires 5 <= cs <= 12
    ensures RequestEdge(cs, VERSION_REST[cs - 5]) == if cs == 12 then Go(13, EmitVersion) else Go(cs + 1)
  {
    hide TargetEdge, RequestHeader;
  }

  lemma HeaderStep(cs: int)
    requires 14 <= cs <= 16 || cs == 18
    ensures var e := RequestEdge(cs, Witness(cs)[0]);
            && e.target != 0 && !e.Halts()
            && if |Witness(cs)| == 1 then Tells(cs, e)
               else MidText(e.target) && Witness(e.target) == Witness(cs)[1..] && OnTheWay(cs, e)
  {
    assert ":x\n"[1..] == "x\n" && "x\n"[1..] == "\n";
  }

  lemma TargetStep(cs: int)
    requires (19 <= cs <= 33 && cs != 20) || cs == 173
    ensures var e := RequestEdge(cs, Witness(cs)[0]);
            && e.target != 0 && !e.Halts()
            && if |Witness(cs)| == 1 then Tells(cs, e)
               else MidText(e.target) && Witness(e.target) == Witness(cs)[1..] && OnTheWay(cs, e)
  {
    assert "00 "[1..] == "0 " && "0 "[1..] == " ";
  }

  /**
   The parser m runs over the text from its beginning, n over the part behind a cut at `cut`: what m
   has marked lies in front of the cut, where n cannot see it.
   */
  predicate Apart(m: Parser, n: Parser, cut: nat, p: nat) {
    && m.cs == n.cs && m.events == n.events && MidText(m.cs) && n.mark <= p && n.fieldStart <= p
    && (!BehindName(m.cs) ==> n.mark == 0 && n.fieldStart == 0)
    && (RequestMark(m.cs) && !BehindName(m.cs) ==> m.mark < cut)
    && (InName(m.cs) ==> m.fieldStart < cut)
    && (BehindName(m.cs) ==>
          n.fieldLen < m.fieldLen && m.fieldStart + m.fieldLen <= cut + p && n.fieldStart + n.fieldLen <= p)
  }

  /** One more byte of the witness. */
  lemma ApartStep(e: Edge, m: Parser, n: Parser, a: string, b: string, p: nat)
    requires p < |b| && Apart(m, n, |a|, p) && m.cs != 16 && OnTheWay(m.cs, e) && MidText(e.target)
    requires RequestMark(e.target) ==> RequestMark(m.cs) || m.cs == 15
    ensures Apart(Fire(e, m, a + b, |a| + p), Fire(e, n, b, p), |a|, p + 1)
  {
    hide NumberAt, Slice, RequestMark;
  }

  /** The last byte of the witness: two different callbacks. */
  lemma ApartTells(e: Edge, m: Parser, n: Parser, a: string, b: string, p: nat)
    requires p < |b| && Apart(m, n, |a|, p) && Tells(m.cs, e)
    requires RequestMark(m.cs) && m.cs != 15
    ensures Part(Fire(e, m, a + b, |a| + p).events, Fire(e, n, b, p).events)
  {
    hide Fire, RequestMark, Part;
    if m.cs == 16 {
      FieldTells(e, m, n, a, b, p);
    } else if 29 <= m.cs <= 32 {
      UriTells(e, m, n, a, b, p);
    } else {
      LongerSlice(a, b, m.mark, p);
      TextTells(e, m, n, a, b, p);
    }
  }

  lemma FieldTells(e: Edge, m: Parser, n: Parser, a: string, b: string, p: nat)
    requires p < |b| && Apart(m, n, |a|, p) && m.cs == 16 && e.a1.EmitField?
    ensures Part(Fire(e, m, a + b, |a| + p).events, Fire(e, n, b, p).events)
  {
    hide Act, Part, RequestMark;
    var k := |m.events|;
    var u, q := a + b, |a| + p;
    EmitsFieldHere(m, u, q);
    EmitsFieldHere(n, b, p);
    assert |Slice(u, m.fieldStart, m.fieldStart + m.fieldLen)| == m.fieldLen;
    assert |Slice(b, n.fieldStart, n.fieldStart + n.fieldLen)| == n.fieldLen;
    FireAddsEvents(e, m, u, q);
    FireAddsEvents(e, n, b, p);
    PartAt(Fire(e, m, u, q).events, Fire(e, n, b, p).events, k);
  }

  lemma UriTells(e: Edge, m: Parser, n: Parser, a: string, b: string, p: nat)
    requires p < |b| && Apart(m, n, |a|, p) && 29 <= m.cs <= 32 && Tells(m.cs, e) && RequestMark(m.cs)
    ensures Part(Fire(e, m, a + b, |a| + p).events, Fire(e, n, b, p).events)
  {
    hide Act, Part, RequestMark, Slice;
    var u, q, k := a + b, |a| + p, |m.events|;
    LongerSlice(a, b, m.mark, p);
    FireAddsEvents(e, m, u, q);
    FireAddsEvents(e, n, b, p);
    UriHere(e, m, u, q);
    UriHere(e, n, b, p);
    PartAt(Fire(e, m, u, q).events, Fire(e, n, b, p).events, k + 1);
  }

  /** The edges behind a query deliver first the query and then the whole target. */
  lemma UriHere(e: Edge, m: Parser, s: string, p: nat)
    requires 29 <= m.cs <= 32 && Tells(m.cs, e)
    ensures var l, k := Fire(e, m, s, p).events, |m.events|; k + 1 < |l| && l[k + 1] == Uri(Slice(s, m.mark, p))
  {
    hide Slice, Act;
    FireAddsEvents(e, m, s, p);
    var m1 := Act(e.a1, m, s, p);
    UriActs(m, s, p);
    UriActs(m1, s, p);
    UriActs(Act(e.a2, m1, s, p), s, p);
  }

  lemma UriActs(m: Parser, s: string, p: nat)
    ensures Act(MarkQuery, m, s, p) == m.(queryStart := p)
    ensures Act(EmitQuery, m, s, p)
            == Emit(m, if m.queryStart <= p then Query(Slice(s, m.queryStart, p)) else Overlong)
    ensures Act(EmitUri, m, s, p) == Emit(m, Uri(Slice(s, m.mark, p)))
    ensures Act(Skip, m, s, p) == m
  {
  }

  lemma TextTells(e: Edge, m: Parser, n: Parser, a: string, b: string, p: nat)
    requires p < |b| && Apart(m, n, |a|, p) && Tells(m.cs, e) && m.cs != 16 && !(29 <= m.cs <= 32) && !BehindName(m.cs)
    requires |Slice(a + b, m.mark, |a| + p)| > |Slice(b, 0, p)|
    ensures Part(Fire(e, m, a + b, |a| + p).events, Fire(e, n, b, p).events)
  {
    hide Act, Part, RequestMark, Slice;
    var u, q, k := a + b, |a| + p, |m.events|;
    FireAddsEvents(e, m, u, q);
    FireAddsEvents(e, n, b, p);
    var x := if e.a1.Skip? then e.a2 else e.a1;
    TextHere(x, m, u, q);
    TextHere(x, n, b, p);
    UriActs(m, u, q);
    UriActs(n, b, p);
    PartAt(Fire(e, m, u, q).events, Fire(e, n, b, p).events, k);
  }

  function TextEvent(x: Action, text: string): Event {
    if x.EmitMethod? then Method(text)
    else if x.EmitVersion? then Version(text)
    else if x.EmitFragment? then Fragment(text)
    else Path(text)
  }

  lemma TextHere(x: Action, m: Parser, s: string, p: nat)
    requires x.EmitMethod? || x.EmitVersion? || x.EmitFragment? || x.EmitPath?
    ensures Act(x, m, s, p).events == m.events + [TextEvent(x, Slice(s, m.mark, p))]
  {
  }

  /** Over the rest of the witness the two runs part. */
  lemma {:induction false} WitnessTells(m: Parser, n: Parser, a: string, b: string, p: nat)
    requires p < |b| && Apart(m, n, |a|, p) && b[p..] == Witness(m.cs)
    ensures Part(Run(RequestEdge, m, a + b, |a| + p).0.events, Run(RequestEdge, n, b, p).0.events)
    decreases |b| - p
  {
    hide RequestEdge, Fire, Witness, RequestMark, Tells, OnTheWay, Part, MarkFlow;
    var u, q := a + b, |a| + p;
    assert u[q] == b[p] == b[p..][0] && b[p..][1..] == b[p + 1..];
    var e := RequestEdge(m.cs, b[p]);
    WitnessStep(m.cs);
    var m', n' := Fire(e, m, u, q), Fire(e, n, b, p);
    if |Witness(m.cs)| == 1 {
      TellingIsMarked(m.cs);
      ApartTells(e, m, n, a, b, p);
      RunAddsEvents(RequestEdge, m', u, q + 1);
      RunAddsEvents(RequestEdge, n', b, p + 1);
      PartMore(m'.events, n'.events, Run(RequestEdge, m, u, q).0.events, Run(RequestEdge, n, b, p).0.events);
    } else {
      LiveStep(m.cs, b[p]);
      ApartStep(e, m, n, a, b, p);
      WitnessTells(m', n', a, b, p + 1);
    }
  }

  /** A mark that is needed behind an edge was needed in front of it, or is set by it. */
  lemma LiveStep(cs: int, c: char)
    requires MidText(cs) && c == Witness(cs)[0] && |Witness(cs)| > 1
    ensures cs != 16 && (RequestMark(RequestEdge(cs, c).target) ==> RequestMark(cs) || cs == 15)
  {
    hide RequestEdge;
    MarkFlowOfRequests(cs, c);
    WitnessStep(cs);
  }

  lemma TellingIsMarked(cs: int)
    requires MidText(cs) && |Witness(cs)| == 1
    ensures RequestMark(cs) && cs != 15
  {
  }

  /**
   Exactly where a read may end.  When a call over a leads from a state that needs no register to one
   within the modelled part of the table, then cutting behind a changes no callback, whatever follows,
   if and only if a ends at one of seven states: where nothing has been marked.
   */
  lemma RequestCutIff(m: Parser, a: string)
    requires RequestCut(m.cs) && !Stopped(RequestEdge, m.cs, a) && !Beyond(Execute(RequestEdge, m, a).0.cs)
    ensures (forall b :: ContinuesAlike(RequestEdge, m, a, b)) <==> RequestCut(Execute(RequestEdge, m, a).0.cs)
  {
    hide RequestEdge, Run, Stopped, Witness;
    var z, m1 := ZeroRegisters(m), Execute(RequestEdge, m, a).0;
    CutStates(m.cs);
    CutStates(m1.cs);
    if RequestCut(m1.cs) {
      forall b
        ensures ContinuesAlike(RequestEdge, m, a, b)
      {
        RequestSegmentation(m, a, b);
      }
    } else {
      assert a[0..] == a;
      RunMarks(z, a, 0);
      RunEndsInside(z, a, 0);
      var b := Witness(m1.cs);
      assert b[0..] == b;
      WitnessTells(m1, ZeroRegisters(m1), a, b, 0);
      WholeRun(m, a, b);
      PartMore(Run(RequestEdge, m1, a + b, |a|).0.events, Execute(RequestEdge, m1, b).0.events,
               Run(RequestEdge, m1, a + b, |a|).0.events, Execute(RequestEdge, m1, b).0.events);
      assert !ContinuesAlike(RequestEdge, m, a, b);
    }
  }

  lemma CutStates(cs: int)
    ensures RequestCut(cs) ==> IsCut(RequestFlow, cs) && cs != 348 && cs != 0 && !RequestMark(cs)
  {
  }

  /** A run over a text that does not stop it goes on in one call as it would have in two. */
  lemma WholeRun(m: Parser, a: string, b: string)
    requires IsCut(RequestFlow, m.cs) && !Stopped(RequestEdge, m.cs, a)
    ensures Execute(RequestEdge, m, a + b) == Run(RequestEdge, Execute(RequestEdge, m, a).0, a + b, |a|)
  {
    hide RequestEdge, Run, Stopped, FlowAt;
    assert a[0..] == a;
    RequestFlowHolds();
    RequestsAreNeverStale();
    CutIsContained(RequestEdge, RequestFlow, m, a);
    RunBlind(RequestEdge, RequestFlow, ZeroRegisters(m), a, b, 0);
  }

  /** A run that does not stop ends in a state of the table. */
  lemma {:induction false} RunEndsInside(m: Parser, buffer: string, p: nat)
    requires p <= |buffer| && !Stopped(RequestEdge, m.cs, buffer[p..]) && (RequestCut(m.cs) || MidText(m.cs) || Beyond(m.cs))
    ensures var cs := Run(RequestEdge, m, buffer, p).0.cs; RequestCut(cs) || MidText(cs) || Beyond(cs)
    decreases |buffer| - p
  {
    hide RequestEdge, Fire;
    if p < |buffer| {
      var e := RequestEdge(m.cs, buffer[p]);
      assert buffer[p..][0] == buffer[p] && buffer[p..][1..] == buffer[p + 1..];
      OnlyHaltsFinish(m.cs, buffer[p]);
      RunEndsInside(Fire(e, m, buffer, p), buffer, p + 1);
    }
  }
}
