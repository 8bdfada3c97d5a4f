/**
 Queries across reads: the position where a query starts is the one register that no call clears, and the
 length of the text between it and an end that lies in front of it is one no string can have.
 */
module RequestQueries {
  import opened Wrappers
  import opened HttpText
  import opened ParserTables
  import opened Machine
  import opened Segmentation
  import opened ParserFlows
  import opened HeaderGrammar
  import opened RequestGrammar
  import opened RequestHead
  import opened HttpMessages
  import opened ByteStream
  import opened Framing
  import opened SegmentedReceiving
  import opened RequestExchange

  // ---------------------------------------------------------------- queries within one call

  lemma OneMoreEvent(events: seq<Event>, e: Event)
    ensures AnyRejected(RequestRaises, events + [e]) <==> AnyRejected(RequestRaises, events) || RequestRaises(e)
  {
    var all := events + [e];
    if AnyRejected(RequestRaises, events) {
      var i :| 0 <= i < |events| && RequestRaises(events[i]);
      assert RequestRaises(all[i]);
    }
    if RequestRaises(e) { assert RequestRaises(all[|events|]); }
  }

  lemma ActQuietly(x: Action, known: bool, m: Parser, buffer: string, p: nat)
    requires (x.EmitQuery? ==> known) && (known ==> m.queryStart <= p)
    ensures var r := Act(x, m, buffer, p);
            && AnyRejected(RequestRaises, r.events) == AnyRejected(RequestRaises, m.events)
            && (x.MarkQuery? || known ==> r.queryStart <= p)
  {
    var r := Act(x, m, buffer, p);
    hide NumberAt, Slice, AnyRejected;
    if |r.events| > |m.events| {
      OneMoreEvent(m.events, r.events[|m.events|]);
    }
  }

  lemma FireQuietly(e: Edge, known: bool, after: bool, m: Parser, buffer: string, p: nat)
    requires QueryFlow(known, e, after) && (known ==> m.queryStart <= p)
    ensures var r := Fire(e, m, buffer, p);
            && AnyRejected(RequestRaises, r.events) == AnyRejected(RequestRaises, m.events)
            && (after ==> r.queryStart <= p)
  {
    hide Act, AnyRejected;
    var k1 := known || e.a1.MarkQuery?;
    var k2 := k1 || e.a2.MarkQuery?;
    var k3 := k2 || e.a3.MarkQuery?;
    ActQuietly(e.a1, known, m, buffer, p);
    var m1 := Act(e.a1, m, buffer, p);
    ActQuietly(e.a2, k1, m1, buffer, p);
    var m2 := Act(e.a2, m1, buffer, p);
    ActQuietly(e.a3, k2, m2, buffer, p);
    ActQuietly(e.a4, k3, Act(e.a3, m2, buffer, p), buffer, p);
  }

  /** A run throws nothing when the query it may be in started in this call. */
  lemma {:induction false} RunQuietly(m: Parser, buffer: string, p: nat)
    requires p <= |buffer| && (RequestQuery(m.cs) ==> m.queryStart <= p)
    ensures AnyRejected(RequestRaises, Run(RequestEdge, m, buffer, p).0.events) == AnyRejected(RequestRaises, m.events)
    decreases |buffer| - p
  {
    hide Fire, RequestEdge, AnyRejected, QueryFlow, RequestQuery;
    if p < |buffer| {
      var e := RequestEdge(m.cs, buffer[p]);
      QueryFlowOfRequests(m.cs, buffer[p]);
      FireQuietly(e, RequestQuery(m.cs), RequestQuery(e.target), m, buffer, p);
      if e.target != 0 && !e.Halts() {
        RunQuietly(Fire(e, m, buffer, p), buffer, p + 1);
      }
    }
  }

  // ---------------------------------------------------------------- exactly when a call throws

  /** Where a query ends: at the first space or hash sign; the length of the text when there is none. */
  function EndOfQuery(s: string): (k: nat)
    ensures k <= |s| && (k < |s| ==> EndsQuery(s[k])) && forall i :: 0 <= i < k ==> !EndsQuery(s[i])
  {
    if s == "" || EndsQuery(s[0]) then 0
    else
      var k := EndOfQuery(s[1..]);
      assert forall i :: 1 <= i < |s| ==> s[i] == s[1..][i - 1];
      k + 1
  }

  /** The rest of a query from a state within it: 31 and 32 stand behind a percent sign. */
  predicate QueryGoesOn(cs: int, s: string) {
    if cs == 30 then Clean(s, IsQueryChar)
    else if cs == 31 then |s| >= 2 && IsHex(s[0]) && IsHex(s[1]) && Clean(s[2..], IsQueryChar)
    else |s| >= 1 && IsHex(s[0]) && Clean(s[1..], IsQueryChar)
  }

  /** The rest of a query ends cleanly, in front of where the query is said to start. */
  predicate EndsInFront(m: Parser, s: string, p: nat) {
    var k := EndOfQuery(s);
    k < |s| && QueryGoesOn(m.cs, s[..k]) && p + k < m.queryStart
  }

  /** What the call sees of a query that an earlier call began. */
  predicate Throws(m: Parser, buffer: string) {
    30 <= m.cs <= 32 && EndsInFront(m, buffer, 0)
  }

  lemma WithinQuery(cs: int, c: char)
    requires 30 <= cs <= 32
    ensures cs == 30 && EndsQuery(c) ==> RequestEdge(cs, c) == Go(if c == ' ' then 4 else 20, EmitQuery, EmitUri)
    ensures cs == 30 && c == '%' ==> RequestEdge(cs, c) == Go(31)
    ensures cs == 30 && IsQueryChar(c) ==> RequestEdge(cs, c) == Go(30) && c != '%' && !EndsQuery(c)
    ensures cs == 30 && !EndsQuery(c) && c != '%' && !IsQueryChar(c) ==> RequestEdge(cs, c) == REJECT
    ensures cs > 30 ==> RequestEdge(cs, c) == if IsHex(c) then Go(if cs == 31 then 32 else 30) else REJECT
    ensures IsHex(c) ==> !EndsQuery(c)
  {
  }

  /** One byte further within a query. */
  lemma OneByteOn(m: Parser, n: Parser, s: string, p: nat)
    requires 30 <= m.cs <= 32 && s != "" && !EndsQuery(s[0]) && RequestEdge(m.cs, s[0]) == Go(n.cs) && n.cs != 0
    requires n.queryStart == m.queryStart
    ensures 30 <= n.cs <= 32 && (EndsInFront(m, s, p) <==> EndsInFront(n, s[1..], p + 1))
  {
    WithinQuery(m.cs, s[0]);
    hide RequestEdge, IsQueryChar, IsHex;
    var k := EndOfQuery(s);
    assert s[..k][1..] == s[1..][..k - 1];
    if k > 2 { assert s[..k][2..] == s[1..][..k - 1][1..] && s[..k][3..] == s[1..][..k - 1][2..]; }
  }

  /** A byte that is refused within a query: the query does not go on. */
  lemma RefusedByte(m: Parser, s: string, p: nat)
    requires 30 <= m.cs <= 32 && s != "" && RequestEdge(m.cs, s[0]) == REJECT
    ensures !EndsInFront(m, s, p)
  {
    WithinQuery(m.cs, s[0]);
    hide RequestEdge, IsQueryChar, IsHex;
  }

  /** The byte that ends a query throws if and only if it stands in front of the query's start. */
  lemma QueryByteEnds(m: Parser, buffer: string, p: nat)
    requires m.cs == 30 && p < |buffer| && EndsQuery(buffer[p]) && !AnyRejected(RequestRaises, m.events)
    ensures AnyRejected(RequestRaises, Run(RequestEdge, m, buffer, p).0.events) <==> p < m.queryStart
  {
    WithinQuery(30, buffer[p]);
    hide RequestEdge, AnyRejected, Slice;
    var e := RequestEdge(30, buffer[p]);
    var m' := Fire(e, m, buffer, p);
    Step(RequestEdge, m, buffer, p, e);
    var e1 := if m.queryStart <= p then Query(Slice(buffer, m.queryStart, p)) else Overlong;
    assert m'.events == (m.events + [e1]) + [Uri(Slice(buffer, m.mark, p))];
    OneMoreEvent(m.events, e1);
    OneMoreEvent(m.events + [e1], Uri(Slice(buffer, m.mark, p)));
    RunQuietly(m', buffer, p + 1);
  }

  lemma {:induction false} AlongQuery(m: Parser, buffer: string, p: nat)
    requires 30 <= m.cs <= 32 && p <= |buffer| && !AnyRejected(RequestRaises, m.events)
    ensures AnyRejected(RequestRaises, Run(RequestEdge, m, buffer, p).0.events) <==> EndsInFront(m, buffer[p..], p)
    decreases |buffer| - p
  {
    hide RequestEdge, AnyRejected, EndsInFront;
    if p == |buffer| {
      NothingEnds(m, p);
    } else {
      var s, c := buffer[p..], buffer[p];
      assert s[1..] == buffer[p + 1..];
      WithinQuery(m.cs, c);
      var e := RequestEdge(m.cs, c);
      if m.cs == 30 && EndsQuery(c) {
        QueryByteEnds(m, buffer, p);
        EndsHere(m, s, p);
      } else if e == REJECT {
        RefusedByte(m, s, p);
        assert Fire(e, m, buffer, p) == m.(cs := 0);
      } else {
        Step(RequestEdge, m, buffer, p, e);
        OneByteOn(m, m.(cs := e.target), s, p);
        AlongQuery(m.(cs := e.target), buffer, p + 1);
      }
    }
  }

  lemma NothingEnds(m: Parser, p: nat)
    ensures !EndsInFront(m, "", p)
  {
  }

  lemma EndsHere(m: Parser, s: string, p: nat)
    requires m.cs == 30 && s != "" && EndsQuery(s[0])
    ensures EndsInFront(m, s, p) <==> p < m.queryStart
  {
    assert s[..0] == "";
  }

  /**
   Exactly when a call of the request parser throws: it starts within a query, the query goes on cleanly,
   and the space or the hash sign that ends it stands in front of the position, kept from an earlier call,
   where the query is said to start.
   */
  lemma ThrowsIff(m: Parser, buffer: string)
    requires !Raised(REQUESTS, m)
    ensures Raised(REQUESTS, Execute(RequestEdge, m, buffer).0) <==> Throws(m, buffer)
  {
    hide RequestEdge, AnyRejected, Run, EndsInFront;
    var z := ZeroRegisters(m);
    assert buffer[0..] == buffer;
    SameQuery(m, z, buffer);
    if 30 <= m.cs <= 32 {
      AlongQuery(z, buffer, 0);
    } else {
      RunQuietly(z, buffer, 0);
    }
  }

  lemma SameQuery(m: Parser, n: Parser, s: string)
    requires m.cs == n.cs && m.queryStart == n.queryStart
    ensures EndsInFront(m, s, 0) <==> EndsInFront(n, s, 0)
  {
  }

  // ---------------------------------------------------------------- reads that end outside queries

  /** Among the first n bytes, no read ends within a query. */
  ghost predicate OutsideQueries(cs: int, s: Arrivals, n: nat) {
    forall x: nat :: x < n && x <= |Concat(s)| && CutAt(s, x) ==> !RequestQuery(ControlRun(RequestEdge, cs, Concat(s)[..x]).0)
  }

  lemma OutsideBehind(cs: int, s: Arrivals, n: nat)
    requires s != [] && !Stopped(RequestEdge, cs, s[0]) && OutsideQueries(cs, s, |s[0]| + n)
    ensures OutsideQueries(ControlRun(RequestEdge, cs, s[0]).0, s[1..], n)
  {
    hide RequestEdge, RequestQuery;
    var a, b := s[0], Concat(s[1..]);
    forall x: nat | x < n && x <= |b| && CutAt(s[1..], x)
      ensures !RequestQuery(ControlRun(RequestEdge, ControlRun(RequestEdge, cs, a).0, b[..x]).0)
    {
      assert CutAt(s, |a| + x);
      assert Concat(s)[..|a| + x] == a + b[..x];
      ControlSegmentation(RequestEdge, cs, a, b[..x]);
    }
  }

  lemma OutsideHere(cs: int, s: Arrivals, n: nat)
    requires s != [] && OutsideQueries(cs, s, n) && |s[0]| < n
    ensures !RequestQuery(ControlRun(RequestEdge, cs, s[0]).0)
  {
    hide RequestEdge, RequestQuery, ControlRun;
    assert CutAt(s, |s[0]|);
    assert Concat(s)[..|s[0]|] == s[0];
  }

  /** A call that starts outside queries throws nothing. */
  lemma OutsideIsQuiet(m: Parser, buffer: string)
    requires !Raised(REQUESTS, m) && !RequestQuery(m.cs)
    ensures !Raised(REQUESTS, Execute(RequestEdge, m, buffer).0)
  {
    hide RequestEdge, AnyRejected, Run;
    RunQuietly(ZeroRegisters(m), buffer, 0);
  }

  /** A call whose first byte is refused throws nothing, either, and fails. */
  lemma RefusedIsQuiet(m: Parser, buffer: string)
    requires !Raised(REQUESTS, m) && buffer != "" && ControlRun(RequestEdge, m.cs, buffer).1 == 0
    ensures var m' := Execute(RequestEdge, m, buffer).0; !Raised(REQUESTS, m') && m'.cs == 0
  {
    hide RequestEdge, AnyRejected, Run, EndsInFront;
    var z := ZeroRegisters(m);
    assert buffer[0..] == buffer;
    RunControl(RequestEdge, z, buffer, 0);
    ThrowsIff(m, buffer);
    if 30 <= m.cs <= 32 {
      WithinQuery(m.cs, buffer[0]);
      RefusedByte(m, buffer, 0);
    }
  }

  /** The loop behind one read that does not stop the run. */
  lemma OneReadOn(m: Parser, s: Arrivals)
    requires m.cs != 0 && !RequestFinal(m.cs)
    requires Steady(s, BUFFER) && s != [] && !Stopped(RequestEdge, m.cs, s[0])
    requires !Raised(REQUESTS, Execute(RequestEdge, m, s[0]).0)
    ensures var m1 := Execute(RequestEdge, m, s[0]).0;
            && m1.cs == ControlRun(RequestEdge, m.cs, s[0]).0 && m1.cs != 0 && !RequestFinal(m1.cs)
            && ReceiveHead(REQUESTS, m, "", s)
               == if Failed(REQUESTS, m1) then Closed else ReceiveHead(REQUESTS, m1, "", s[1..])
  {
    hide RequestEdge, AnyRejected, Run, RequestQuery, StopsWhenFinal, ControlRun, Concat;
    var a := s[0];
    RequestStops();
    RunsOn(REQUESTS, m.cs, a);
    assert a[0..] == a && "" + a == a && a[|a|..] == "";
    RunControl(RequestEdge, ZeroRegisters(m), a, 0);
  }

  /** The loop when its first read stops the run. */
  lemma LastRead(m: Parser, s: Arrivals)
    requires Steady(s, BUFFER) && s != [] && !Raised(REQUESTS, Execute(RequestEdge, m, s[0]).0)
    requires var c := ControlRun(RequestEdge, m.cs, s[0]).0; c == 0 || RequestFinal(c)
    ensures !ReceiveHead(REQUESTS, m, "", s).Thrown?
  {
    hide RequestEdge, AnyRejected, Run, ControlRun, Concat;
    var a := s[0];
    assert a[0..] == a && "" + a == a;
    RunControl(RequestEdge, ZeroRegisters(m), a, 0);
  }

  /** A run that stops has failed or is over. */
  lemma {:induction false} StoppedIsOver(cs: int, a: string)
    requires Stopped(RequestEdge, cs, a)
    ensures var c := ControlRun(RequestEdge, cs, a).0; c == 0 || RequestFinal(c)
    decreases |a|
  {
    hide RequestEdge;
    HaltsFinish(cs, a[0]);
    var e := RequestEdge(cs, a[0]);
    if e.target != 0 && !e.Halts() { StoppedIsOver(e.target, a[1..]); }
  }

  lemma HaltsFinish(cs: int, c: char)
    ensures RequestEdge(cs, c).Halts() ==> RequestFinal(RequestEdge(cs, c).target)
  {
    hide TargetEdge, RequestVersion;
    TargetIsNotFinal(cs, c);
  }

  /** Reads that end, as far as the parser gets, outside queries: the loop throws nothing. */
  lemma {:induction false} NoThrowOutside(m: Parser, s: Arrivals)
    requires m.cs != 0 && !RequestFinal(m.cs) && !Raised(REQUESTS, m) && !RequestQuery(m.cs) && Steady(s, BUFFER)
    requires OutsideQueries(m.cs, s, ControlRun(RequestEdge, m.cs, Concat(s)).1)
    ensures !ReceiveHead(REQUESTS, m, "", s).Thrown?
    decreases |s|
  {
    hide RequestEdge, AnyRejected, Run, ReceiveHead, RequestQuery, ControlRun, OutsideQueries, Execute;
    if s == [] {
      NothingComes(m);
    } else if Stopped(RequestEdge, m.cs, s[0]) {
      OutsideIsQuiet(m, s[0]);
      StoppedIsOver(m.cs, s[0]);
      LastRead(m, s);
    } else {
      OutsideIsQuiet(m, s[0]);
      OneReadOn(m, s);
      var m1 := Execute(RequestEdge, m, s[0]).0;
      ControlSegmentation(RequestEdge, m.cs, s[0], Concat(s[1..]));
      var n1 := ControlRun(RequestEdge, m1.cs, Concat(s[1..])).1;
      if n1 > 0 {
        OutsideHere(m.cs, s, |s[0]| + n1);
        OutsideBehind(m.cs, s, n1);
        NoThrowOutside(m1, s[1..]);
      } else {
        NothingTaken(m1, s[1..]);
      }
    }
  }

  lemma NothingComes(m: Parser)
    ensures ReceiveHead(REQUESTS, m, "", []) == Closed
  {
  }

  /** What comes next is refused at once, or nothing comes. */
  lemma NothingTaken(m: Parser, s: Arrivals)
    requires !Raised(REQUESTS, m) && Steady(s, BUFFER) && ControlRun(RequestEdge, m.cs, Concat(s)).1 == 0
    ensures !ReceiveHead(REQUESTS, m, "", s).Thrown?
  {
    hide RequestEdge, AnyRejected, Run, Execute;
    if s == [] {
      NothingComes(m);
    } else {
      assert Concat(s)[0] == s[0][0];
      RefusedIsQuiet(m, s[0]);
      assert "" + s[0] == s[0];
    }
  }

  /** recvRequest throws only in its first loop, and there only for reads that end within a query. */
  lemma NeverThrows(s: Arrivals)
    requires Steady(s, BUFFER) && OutsideQueries(1, s, ControlRun(RequestEdge, 1, Concat(s)).1)
    ensures !ReceiveRequest(s).Thrown?
  {
    hide RequestEdge, ReceiveHead, ControlRun, OutsideQueries, ContentLength, BuildRequest, ReceiveFixed;
    NoThrowOutside(NewParser(0), s);
  }

  /** In particular for reads that end where no register is needed. */
  lemma CutsNeverThrow(s: Arrivals)
    requires Steady(s, BUFFER) && CutsHarmless(REQUESTS, RequestFlow, 1, s, ControlRun(RequestEdge, 1, Concat(s)).1)
    ensures !ReceiveRequest(s).Thrown?
  {
    hide RequestEdge, ReceiveRequest, ControlRun, CutAt;
    NeverThrows(s);
  }

  // ---------------------------------------------------------------- a request that throws

  /** The target of this request is cut within its query. */
  const TORN: Arrivals := ["GET /?abc", " HTTP/1.1\r\n\r\n"]

  /** The parser behind the method, and the callbacks made by then and at the end of the path. */
  function TornAt(cs: int, mark: nat, queryStart: nat, events: seq<Event>): Parser {
    ZeroRegisters(NewParser(0)).(cs := cs, mark := mark, queryStart := queryStart, events := events)
  }

  lemma TornMethod(s: string)
    requires |s| == 9 && s[..4] == "GET "
    ensures Run(RequestEdge, TornAt(1, 0, 0, []), s, 0) == Run(RequestEdge, TornAt(3, 0, 0, [Method("GET")]), s, 4)
  {
    hide RequestEdge, Run;
    assert s[0..4] == "GET" + " ";
    var m := MethodRun(TornAt(1, 0, 0, []), s, 0, "GET");
    assert [] + [Method("GET")] == [Method("GET")];
  }

  lemma TornPath(s: string)
    requires |s| == 9 && s[4] == '/' && s[5] == '?'
    ensures Run(RequestEdge, TornAt(3, 0, 0, [Method("GET")]), s, 4)
            == Run(RequestEdge, TornAt(29, 4, 0, [Method("GET"), Path("/")]), s, 6)
  {
    hide RequestEdge, Run;
    TornEdges();
    Step(RequestEdge, TornAt(3, 0, 0, [Method("GET")]), s, 4, Go(33, Mark));
    Step(RequestEdge, TornAt(33, 4, 0, [Method("GET")]), s, 5, Go(29, Skip, EmitPath));
    assert Slice(s, 4, 5) == "/" && [Method("GET")] + [Path("/")] == [Method("GET"), Path("/")];
  }

  lemma TornQuery(s: string, events: seq<Event>)
    requires |s| == 9 && s[6] == 'a' && s[7] == 'b' && s[8] == 'c'
    ensures Run(RequestEdge, TornAt(29, 4, 0, events), s, 6) == (TornAt(30, 4, 6, events), 9)
  {
    hide RequestEdge, Run;
    TornEdges();
    StepOne(RequestEdge, TornAt(29, 4, 0, events), s, 6, 30, MarkQuery);
    StepOne(RequestEdge, TornAt(30, 4, 6, events), s, 7, 30, Skip);
    StepOne(RequestEdge, TornAt(30, 4, 6, events), s, 8, 30, Skip);
    RunIsOver(RequestEdge, TornAt(30, 4, 6, events), s);
  }

  lemma TornHead()
    ensures var m := Execute(RequestEdge, NewParser(0), "GET /?abc").0;
            && Execute(RequestEdge, NewParser(0), "GET /?abc").1 == 9
            && m.cs == 30 && m.queryStart == 6 && !Failed(REQUESTS, m) && !Raised(REQUESTS, m)
  {
    hide RequestEdge, Run, AnyRejected;
    var s := "GET /?abc";
    assert s[..4] == "GET ";
    TornMethod(s);
    TornPath(s);
    TornQuery(s, [Method("GET"), Path("/")]);
    TornEvents([Method("GET"), Path("/")]);
  }

  lemma TornEdges()
    ensures RequestEdge(3, '/') == Go(33, Mark) && RequestEdge(33, '?') == Go(29, Skip, EmitPath)
    ensures RequestEdge(29, 'a') == Go(30, MarkQuery)
    ensures RequestEdge(30, 'b') == Go(30) && RequestEdge(30, 'c') == Go(30)
  {
  }

  lemma TornEvents(events: seq<Event>)
    requires events == [Method("GET"), Path("/")]
    ensures !AnyRejected(RequestRejects, events) && !AnyRejected(RequestRaises, events)
  {
    hide MethodOf;
    MethodRoundTrip("GET");
  }

  lemma TornText()
    ensures HeadText(Opening("GET", "/?abc", '1'), []) == Concat(TORN)
  {
    hide SplitTarget, Opening.Valid;
    assert TORN[1..] == [TORN[1]] && [TORN[1]][1..] == [];
  }

  lemma TornTarget()
    ensures SplitTarget("/?abc") == Target("/", Some("abc"), None) && SplitTarget("/?abc").Valid()
  {
    var u := "/?abc";
    assert IndexOf(u, '?') == 1 && IndexOf(u, '#') == 5;
    assert u[..5] == u && u[..1] == "/" && u[2..] == "abc";
  }

  lemma TornOpening()
    ensures Opening("GET", "/?abc", '1').Valid()
  {
    hide SplitTarget, Target.Valid;
    TornTarget();
  }

  /** In one piece, the request is received, with its query. */
  lemma TornInOne()
    ensures var x := ReceiveRequest([Concat(TORN)]);
            x.Got? && x.value.0.verb == "GET" && x.value.0.path == "/" && x.value.0.query == "abc"
  {
    hide RequestEdge, MethodOf, Opening.Valid, HeadText, ReceiveRequest, SplitTarget, CutsHarmless, Reached, StopsWithin;
    var o, s := Opening("GET", "/?abc", '1'), [Concat(TORN)];
    TornText();
    TornTarget();
    TornOpening();
    MethodRoundTrip("GET");
    OneRead(s);
    NoEntries();
    FixedRequest(o, [], "", s, "");
  }

  lemma OneRead(s: Arrivals)
    requires |s| == 1 && 0 < |s[0]| <= BUFFER
    ensures Steady(s, BUFFER) && Concat(s) == s[0] && CutsHarmless(REQUESTS, RequestFlow, 1, s, |s[0]|)
  {
    hide RequestEdge, ControlRun, IsCut;
    assert s[1..] == [] && s[0] + "" == s[0];
    assert forall x: nat :: CutAt(s, x) ==> x == |s[0]|;
  }

  lemma NoEntries()
    ensures AllEntries([]) && SetEntries(map[], []) == map[] && BodyLength(map[]) == 0
  {
  }

  /**
   A request that is received when it comes in one piece is not when a read ends within its query: the
   end of the query stands in front of its start, and the exception leaves recvRequest.
   */
  lemma TornRequestThrows()
    ensures ReceiveRequest(TORN) == Thrown
  {
    hide RequestEdge, Run, AnyRejected, Execute, EndOfQuery;
    TornHead();
    var a, b := TORN[0], TORN[1];
    var m := Execute(RequestEdge, NewParser(0), a).0;
    assert "" + a == a && a[9..] == "" && "" + b == b;
    assert TORN[1..] == [b];
    EndsHere(m, b, 0);
    ThrowsIff(m, b);
  }
}
