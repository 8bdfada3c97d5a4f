/**
 Exactly when recvRequest throws, for every way reads cut the stream: when a query starts further into
 its read than it ends in another.
 */
module TornQueries {
  import opened Wrappers
  import opened HttpText
  import opened ParserTables
  import opened Machine
  import opened Segmentation
  import opened ParserFlows
  import opened HeaderGrammar
  import opened RequestGrammar
  import opened HttpMessages
  import opened ByteStream
  import opened Framing
  import opened RequestExchange
  import opened RequestQueries

  /** How far into its read the byte at x stands. */
  function OffsetIn(s: Arrivals, x: nat): (o: nat)
    ensures o <= x
    decreases |s|
  {
    if s == [] then 0 else if x < |s[0]| then x else OffsetIn(s[1..], x - |s[0]|)
  }

  // ---------------------------------------------------------------- the stages of a request line

  /** The method is being read. */
  predicate Naming(cs: int) {
    cs == 1 || cs == 2 || 175 <= cs <= 193
  }

  /** The target is being read, in front of any query; 29 stands right behind the question mark. */
  predicate Aiming(cs: int) {
    cs == 3 || cs == 19 || 24 <= cs <= 29 || cs == 33 || cs == 173 || cs == 174
  }

  predicate Past(cs: int) {
    !Naming(cs) && !Aiming(cs) && !RequestQuery(cs)
  }

  /** The stages follow each other. */
  lemma Stages(cs: int, c: char)
    ensures var n := RequestEdge(cs, c).target;
            && n != 1
            && (Past(cs) ==> Past(n))
            && (RequestQuery(cs) ==> RequestQuery(n) || Past(n))
            && (Aiming(cs) ==> !Naming(n) && (RequestQuery(n) ==> cs == 29) && (cs == 29 ==> !Aiming(n)))
            && (Naming(cs) ==> !RequestQuery(n) && n != 29 && (Aiming(n) ==> c == ' '))
  {
  }

  /** Where a query begins that the text leads to. */
  function ToQuery(cs: int, r: string): (q: Option<nat>)
    ensures q.Some? ==> q.value <= |r|
    decreases |r|
  {
    if cs == 29 then Some(0)
    else if r == "" then None
    else
      var e := RequestEdge(cs, r[0]);
      if e.target == 0 || e.Halts() then None
      else
        match ToQuery(e.target, r[1..])
        case None => None
        case Some(q) => Some(q + 1)
  }

  lemma {:induction false} PastStays(cs: int, r: string)
    requires Past(cs)
    ensures Past(ControlRun(RequestEdge, cs, r).0) && ToQuery(cs, r) == None
    decreases |r|
  {
    hide RequestEdge;
    if r != "" {
      Stages(cs, r[0]);
      var e := RequestEdge(cs, r[0]);
      if e.target != 0 && !e.Halts() { PastStays(e.target, r[1..]); }
    }
  }

  lemma {:induction false} ToQuerySplit(cs: int, a: string, b: string)
    ensures ToQuery(cs, a).Some? ==> ToQuery(cs, a + b) == ToQuery(cs, a)
    ensures ToQuery(cs, a) == None && Stopped(RequestEdge, cs, a) ==> ToQuery(cs, a + b) == None
    ensures ToQuery(cs, a) == None && !Stopped(RequestEdge, cs, a) ==>
              var q := ToQuery(ControlRun(RequestEdge, cs, a).0, b);
              ToQuery(cs, a + b) == if q.Some? then Some(|a| + q.value) else None
    decreases |a|
  {
    hide RequestEdge;
    if a == "" {
      assert a + b == b;
    } else if cs != 29 {
      assert (a + b)[1..] == a[1..] + b;
      var e := RequestEdge(cs, a[0]);
      if e.target != 0 && !e.Halts() { ToQuerySplit(e.target, a[1..], b); }
    }
  }

  // ---------------------------------------------------------------- within a query

  lemma EndOfConcat(a: string, b: string)
    ensures EndOfQuery(a + b) == if EndOfQuery(a) < |a| then EndOfQuery(a) else |a| + EndOfQuery(b)
  {
    var k := EndOfQuery(a + b);
    if EndOfQuery(a) < |a| { assert (a + b)[EndOfQuery(a)] == a[EndOfQuery(a)]; }
    else if EndOfQuery(b) < |b| { assert (a + b)[|a| + EndOfQuery(b)] == b[EndOfQuery(b)]; }
    assert forall i :: 0 <= i < |a| ==> (a + b)[i] == a[i];
    assert forall i :: 0 <= i < |b| ==> (a + b)[|a| + i] == b[i];
    if k < |a| { assert EndsQuery(a[k]); }
    else if k < |a + b| { assert EndsQuery(b[k - |a|]); }
  }

  lemma GoesOnStep(cs: int, c: char, r: string)
    requires RequestQuery(cs) && !EndsQuery(c)
    ensures var n := RequestEdge(cs, c).target;
            && (n == 0 ==> !QueryGoesOn(cs, [c] + r))
            && (n != 0 ==> RequestQuery(n) && !RequestEdge(cs, c).Halts() && (QueryGoesOn(cs, [c] + r) <==> QueryGoesOn(n, r)))
  {
    WithinQuery(cs, c);
    hide RequestEdge, IsQueryChar, IsHex;
    var s := [c] + r;
    assert s[1..] == r;
    if r != "" { assert s[2..] == r[1..]; }
    if |r| > 1 { assert s[3..] == r[2..]; }
  }

  /** A stretch of a query without its end. */
  lemma {:induction false} AmidQuery(cs: int, a: string, b: string)
    requires RequestQuery(cs) && EndOfQuery(a) == |a|
    ensures Stopped(RequestEdge, cs, a) ==> !QueryGoesOn(cs, a + b)
    ensures !Stopped(RequestEdge, cs, a) ==>
              var n := ControlRun(RequestEdge, cs, a).0;
              RequestQuery(n) && (QueryGoesOn(cs, a + b) <==> QueryGoesOn(n, b))
    decreases |a|
  {
    hide RequestEdge, QueryGoesOn, RequestQuery;
    if a == "" {
      assert a + b == b;
    } else {
      assert a + b == [a[0]] + (a[1..] + b);
      GoesOnStep(cs, a[0], a[1..] + b);
      var n := RequestEdge(cs, a[0]).target;
      if n != 0 { AmidQuery(n, a[1..], b); }
    }
  }

  /** A stretch with its end: the query is over, or it was refused. */
  lemma {:induction false} PastQuery(cs: int, a: string)
    requires RequestQuery(cs) && EndOfQuery(a) < |a| && !Stopped(RequestEdge, cs, a)
    ensures Past(ControlRun(RequestEdge, cs, a).0)
    decreases |a|
  {
    hide RequestEdge, QueryGoesOn;
    var e := RequestEdge(cs, a[0]);
    if EndsQuery(a[0]) {
      WithinQuery(cs, a[0]);
      PastStays(e.target, a[1..]);
    } else {
      GoesOnStep(cs, a[0], "");
      PastQuery(e.target, a[1..]);
    }
  }

  lemma QuietEdge(cs: int, c: char)
    requires RequestQuery(cs) && RequestQuery(RequestEdge(cs, c).target)
    ensures RequestEdge(cs, c) == Go(RequestEdge(cs, c).target)
  {
    WithinQuery(cs, c);
    hide RequestEdge;
  }

  /** As long as a run stays within a query nothing happens. */
  lemma {:induction false} QuietInQuery(m: Parser, a: string, p: nat)
    requires RequestQuery(m.cs) && p <= |a|
    ensures var r := Run(RequestEdge, m, a, p).0;
            RequestQuery(r.cs) ==> r.events == m.events && r.queryStart == m.queryStart
    decreases |a| - p
  {
    hide RequestEdge, Fire, RequestQuery, Past;
    if p < |a| {
      var e := RequestEdge(m.cs, a[p]);
      Stages(m.cs, a[p]);
      if RequestQuery(e.target) {
        QuietEdge(m.cs, a[p]);
        NotZeroInQuery(e.target);
        StepOne(RequestEdge, m, a, p, e.target, Skip);
        QuietInQuery(m.(cs := e.target), a, p + 1);
      } else {
        PastRun(m, a, p);
      }
    }
  }

  lemma NotZeroInQuery(cs: int)
    requires RequestQuery(cs)
    ensures cs != 0 && !RequestFinal(cs) && !Past(cs)
  {
  }

  /** A run that gets past the query, or the target, stays there. */
  lemma PastRun(m: Parser, a: string, p: nat)
    requires p < |a| && Past(RequestEdge(m.cs, a[p]).target)
    ensures Past(Run(RequestEdge, m, a, p).0.cs) && !RequestQuery(Run(RequestEdge, m, a, p).0.cs)
  {
    hide RequestEdge, Run;
    RunControl(RequestEdge, m, a, p);
    var r := a[p..];
    PastStays(RequestEdge(m.cs, r[0]).target, r[1..]);
  }

  /** The rest of a query, of which an earlier call saw the beginning, is torn. */
  predicate QueryTorn(cs: int, start: nat, s: Arrivals) {
    var r := Concat(s);
    var k := EndOfQuery(r);
    k < |r| && QueryGoesOn(cs, r[..k]) && OffsetIn(s, k) < start
  }

  lemma PastNeverThrows(m: Parser, s: Arrivals)
    requires Past(m.cs) && m.cs != 0 && !RequestFinal(m.cs) && !Raised(REQUESTS, m) && Steady(s, BUFFER)
    ensures !ReceiveHead(REQUESTS, m, "", s).Thrown?
  {
    hide RequestEdge, ReceiveHead, ControlRun, AnyRejected;
    forall x: nat | x <= |Concat(s)|
      ensures !RequestQuery(ControlRun(RequestEdge, m.cs, Concat(s)[..x]).0)
    {
      PastStays(m.cs, Concat(s)[..x]);
    }
    NoThrowOutside(m, s);
  }

  lemma SameEndsInFront(m: Parser, a: string)
    ensures EndsInFront(m, a, 0) <==> EndOfQuery(a) < |a| && QueryGoesOn(m.cs, a[..EndOfQuery(a)]) && EndOfQuery(a) < m.queryStart
  {
  }

  /** From within a query: the loop throws if and only if the rest is torn. */
  lemma {:induction false} QueryTornIff(m: Parser, s: Arrivals)
    requires RequestQuery(m.cs) && !Failed(REQUESTS, m) && !Raised(REQUESTS, m) && Steady(s, BUFFER)
    ensures ReceiveHead(REQUESTS, m, "", s).Thrown? <==> QueryTorn(m.cs, m.queryStart, s)
    decreases |s|
  {
    hide RequestEdge, AnyRejected, Run, ReceiveHead, ControlRun, QueryGoesOn, EndsInFront, RequestQuery, Past, Execute;
    NotZeroInQuery(m.cs);
    if s == [] {
      NothingComes(m);
    } else {
      var a, b := s[0], Concat(s[1..]);
      var m1 := Execute(RequestEdge, m, a).0;
      EndOfConcat(a, b);
      ThrowsHere(m, a);
      if EndOfQuery(a) < |a| {
        assert Concat(s)[..EndOfQuery(a)] == a[..EndOfQuery(a)];
        QueryEndsHere(m, s);
      } else {
        var k := EndOfQuery(b);
        assert Concat(s)[..|a| + k] == a + b[..k];
        AmidQuery(m.cs, a, b[..k]);
        if Stopped(RequestEdge, m.cs, a) {
          StoppedIsOver(m.cs, a);
          LastRead(m, s);
        } else {
          OneReadOn(m, s);
          QuietCall(m, a);
          QueryTornIff(m1, s[1..]);
        }
      }
    }
  }

  /** What a call over the rest of a query does. */
  lemma ThrowsHere(m: Parser, a: string)
    requires RequestQuery(m.cs) && !Raised(REQUESTS, m)
    ensures Raised(REQUESTS, Execute(RequestEdge, m, a).0)
            <==> EndOfQuery(a) < |a| && QueryGoesOn(m.cs, a[..EndOfQuery(a)]) && EndOfQuery(a) < m.queryStart
  {
    hide RequestEdge, Execute, AnyRejected, QueryGoesOn;
    ThrowsIff(m, a);
    SameEndsInFront(m, a);
  }

  lemma QuietCall(m: Parser, a: string)
    requires RequestQuery(m.cs) && RequestQuery(Execute(RequestEdge, m, a).0.cs)
    ensures var m1 := Execute(RequestEdge, m, a).0; m1.events == m.events && m1.queryStart == m.queryStart
  {
    hide RequestEdge, Run, RequestQuery;
    QuietInQuery(ZeroRegisters(m), a, 0);
  }

  /** A read that brings the end of the query: the loop throws in this call or never. */
  lemma QueryEndsHere(m: Parser, s: Arrivals)
    requires RequestQuery(m.cs) && !Failed(REQUESTS, m) && !Raised(REQUESTS, m) && Steady(s, BUFFER)
    requires s != [] && EndOfQuery(s[0]) < |s[0]|
    ensures ReceiveHead(REQUESTS, m, "", s).Thrown? <==> Raised(REQUESTS, Execute(RequestEdge, m, s[0]).0)
  {
    hide RequestEdge, AnyRejected, Run, ReceiveHead, ControlRun, RequestQuery, Past, Execute;
    NotZeroInQuery(m.cs);
    var m1 := Execute(RequestEdge, m, s[0]).0;
    if Raised(REQUESTS, m1) {
      ThrowsAtOnce(m, s);
    } else if Stopped(RequestEdge, m.cs, s[0]) {
      StoppedIsOver(m.cs, s[0]);
      LastRead(m, s);
    } else {
      OneReadOn(m, s);
      PastQuery(m.cs, s[0]);
      PastNeverThrows(m1, s[1..]);
    }
  }

  lemma ThrowsAtOnce(m: Parser, s: Arrivals)
    requires Steady(s, BUFFER) && s != [] && Raised(REQUESTS, Execute(RequestEdge, m, s[0]).0)
    ensures ReceiveHead(REQUESTS, m, "", s) == Thrown
  {
    hide RequestEdge, AnyRejected, Execute, Concat;
    assert "" + s[0] == s[0];
  }

  // ---------------------------------------------------------------- in front of a query

  lemma StartEdge(cs: int, c: char)
    requires Aiming(cs) && RequestQuery(RequestEdge(cs, c).target)
    ensures cs == 29 && RequestEdge(cs, c) == Go(RequestEdge(cs, c).target, MarkQuery)
  {
  }

  /** A run that ends within a query has begun it, and remembers where. */
  lemma {:induction false} StartFound(m: Parser, a: string, p: nat)
    requires (Naming(m.cs) || Aiming(m.cs)) && p <= |a|
    ensures var r := Run(RequestEdge, m, a, p).0;
            RequestQuery(r.cs) ==>
              var q := ToQuery(m.cs, a[p..]);
              q.Some? && p + q.value < |a| && r.queryStart == p + q.value
    decreases |a| - p
  {
    hide RequestEdge, Fire, RequestQuery, Naming, Aiming, Past;
    StageIsOne(m.cs);
    if p < |a| {
      var c := a[p];
      var e := RequestEdge(m.cs, c);
      assert a[p..][0] == c && a[p..][1..] == a[p + 1..];
      Stages(m.cs, c);
      StageIsOne(e.target);
      if RequestQuery(e.target) {
        StartEdge(m.cs, c);
        NotZeroInQuery(e.target);
        StepOne(RequestEdge, m, a, p, e.target, MarkQuery);
        QuietInQuery(m.(cs := e.target, queryStart := p), a, p + 1);
      } else if Past(e.target) {
        PastRun(m, a, p);
      } else if !e.Halts() {
        StartFound(Fire(e, m, a, p), a, p + 1);
      }
    }
  }

  lemma StageIsOne(cs: int)
    ensures Naming(cs) || Aiming(cs) || RequestQuery(cs) || Past(cs)
    ensures Naming(cs) || Aiming(cs) ==> !RequestQuery(cs) && !Past(cs) && cs != 0 && !RequestFinal(cs)
    ensures Naming(cs) ==> !Aiming(cs) && cs != 29
    ensures Past(cs) ==> cs != 29
  {
  }

  lemma AimingEdge(cs: int, c: char)
    requires Aiming(cs) && !Past(RequestEdge(cs, c).target)
    ensures var e := RequestEdge(cs, c);
            (e.a1.Skip? || e.a1.Mark? || e.a1.MarkQuery?) && (e.a2.Skip? || e.a2.EmitPath?) && e.a3.Skip? && e.a4.Skip?
  {
  }

  lemma PathIsAccepted(e: Edge, m: Parser, a: string, p: nat)
    requires (e.a1.Skip? || e.a1.Mark? || e.a1.MarkQuery?) && (e.a2.Skip? || e.a2.EmitPath?) && e.a3.Skip? && e.a4.Skip?
    ensures AnyRejected(RequestRejects, Fire(e, m, a, p).events) == AnyRejected(RequestRejects, m.events)
  {
    hide Slice, NumberAt, AnyRejected;
    var m1 := Act(e.a1, m, a, p);
    OneMoreCallback(m.events, Path(Slice(a, m1.mark, p)));
  }

  lemma OneMoreCallback(events: seq<Event>, e: Event)
    ensures AnyRejected(RequestRejects, events + [e]) == (AnyRejected(RequestRejects, events) || RequestRejects(e))
  {
    hide RequestRejects;
    var all := events + [e];
    if AnyRejected(RequestRejects, events) {
      var i :| 0 <= i < |events| && RequestRejects(events[i]);
      assert RequestRejects(all[i]);
    }
    if RequestRejects(e) { assert RequestRejects(all[|events|]); }
  }

  /** A run that gets no further than the query makes no callback that is refused. */
  lemma {:induction false} AimingAccepts(m: Parser, a: string, p: nat)
    requires Aiming(m.cs) && p <= |a|
    ensures var r := Run(RequestEdge, m, a, p).0;
            !Past(r.cs) ==> AnyRejected(RequestRejects, r.events) == AnyRejected(RequestRejects, m.events)
    decreases |a| - p
  {
    hide RequestEdge, Fire, RequestQuery, Naming, Aiming, Past, AnyRejected;
    if p < |a| {
      var c := a[p];
      var e := RequestEdge(m.cs, c);
      Stages(m.cs, c);
      StageIsOne(e.target);
      if Past(e.target) {
        PastRun(m, a, p);
      } else {
        AimingEdge(m.cs, c);
        PathIsAccepted(e, m, a, p);
        var m' := Fire(e, m, a, p);
        if RequestQuery(e.target) {
          NotZeroInQuery(e.target);
          QuietOrPast(m', a, p + 1);
        } else {
          AimingAccepts(m', a, p + 1);
        }
      }
    }
  }

  lemma {:induction false} QuietOrPast(m: Parser, a: string, p: nat)
    requires RequestQuery(m.cs) && p <= |a|
    ensures var r := Run(RequestEdge, m, a, p).0; !Past(r.cs) ==> RequestQuery(r.cs) && r.events == m.events
    decreases |a| - p
  {
    hide RequestEdge, Fire, RequestQuery, Past;
    if p < |a| {
      Stages(m.cs, a[p]);
      if RequestQuery(RequestEdge(m.cs, a[p]).target) {
        QuietInQuery(m, a, p);
        QuietEdge(m.cs, a[p]);
        NotZeroInQuery(RequestEdge(m.cs, a[p]).target);
        QuietOrPast(Fire(RequestEdge(m.cs, a[p]), m, a, p), a, p + 1);
      } else {
        PastRun(m, a, p);
      }
    }
  }

  lemma NamingEdge(cs: int, c: char)
    requires Naming(cs) && !Past(RequestEdge(cs, c).target)
    ensures var e := RequestEdge(cs, c);
            if Naming(e.target) then c != ' ' && e == Go(e.target, if cs == 1 then Mark else Skip)
            else c == ' ' && e == Go(3, EmitMethod)
  {
  }

  /** A run over a method: refused if and only if it gets to the method's end and the text so far is no method. */
  lemma {:induction false} NamingAccepts(m: Parser, a: string, p: nat)
    requires Naming(m.cs) && p <= |a| && m.mark == 0 && (m.cs == 1 ==> p == 0)
    ensures var r := Run(RequestEdge, m, a, p).0;
            var j := p + IndexOf(a[p..], ' ');
            && (Naming(r.cs) ==> j == |a| && r.events == m.events)
            && (!Naming(r.cs) && !Past(r.cs) ==>
                  && j < |a|
                  && AnyRejected(RequestRejects, r.events) == (AnyRejected(RequestRejects, m.events) || MethodOf(a[..j]) == None))
    decreases |a| - p
  {
    hide RequestEdge, Fire, RequestQuery, Naming, Aiming, Past, AnyRejected, MethodOf;
    StageIsOne(m.cs);
    if p < |a| {
      var c := a[p];
      var e := RequestEdge(m.cs, c);
      assert a[p..][0] == c && a[p..][1..] == a[p + 1..];
      Stages(m.cs, c);
      StageIsOne(e.target);
      if Past(e.target) {
        PastRun(m, a, p);
        StageIsOne(Run(RequestEdge, m, a, p).0.cs);
      } else {
        NamingEdge(m.cs, c);
        if Naming(e.target) {
          StepOne(RequestEdge, m, a, p, e.target, if m.cs == 1 then Mark else Skip);
          NamingAccepts(m.(cs := e.target), a, p + 1);
        } else {
          MethodDelivered(m, a, p);
        }
      }
    }
  }

  lemma MethodDelivered(m: Parser, a: string, p: nat)
    requires p < |a| && a[p] == ' ' && RequestEdge(m.cs, ' ') == Go(3, EmitMethod) && m.mark == 0
    ensures var r := Run(RequestEdge, m, a, p).0;
            && !Naming(r.cs)
            && (!Past(r.cs) ==>
                  AnyRejected(RequestRejects, r.events) == (AnyRejected(RequestRejects, m.events) || MethodOf(a[..p]) == None))
  {
    hide RequestEdge, Run, Fire, AnyRejected, MethodOf;
    StepOne(RequestEdge, m, a, p, 3, EmitMethod);
    assert a[0..p] == a[..p];
    var m1 := m.(cs := 3, events := m.events + [Method(a[..p])]);
    OneMoreCallback(m.events, Method(a[..p]));
    AimingAccepts(m1, a, p + 1);
    NeverNamesAgain(3, a[p + 1..]);
    RunControl(RequestEdge, m1, a, p + 1);
  }

  lemma {:induction false} NeverNamesAgain(cs: int, r: string)
    requires !Naming(cs)
    ensures !Naming(ControlRun(RequestEdge, cs, r).0)
    decreases |r|
  {
    hide RequestEdge, Naming, Aiming, RequestQuery, Past;
    StageIsOne(0);
    if r != "" {
      var e := RequestEdge(cs, r[0]);
      Stages(cs, r[0]);
      StageIsOne(cs);
      StageIsOne(e.target);
      if e.target != 0 && !e.Halts() { NeverNamesAgain(e.target, r[1..]); }
      else if e.target == 0 { NothingIsNamed(); }
    }
  }

  lemma NothingIsNamed()
    ensures !Naming(0)
  {
  }

  // ---------------------------------------------------------------- the condition on text and reads

  /** The query that begins at q ends cleanly, less far into its read than it began. */
  predicate TornFrom(s: Arrivals, q: nat) {
    var r := Concat(s);
    q <= |r| &&
    var e := q + EndOfQuery(r[q..]);
    e < |r| && Clean(r[q..e], IsQueryChar) && OffsetIn(s, e) < OffsetIn(s, q)
  }

  /** The text in front of the first space, as far back as the read with that space goes, is a method. */
  predicate NameKnown(s: Arrivals) {
    var r := Concat(s);
    var j := IndexOf(r, ' ');
    MethodOf(r[j - OffsetIn(s, j)..j]).Some?
  }

  /** From state cs, the stream holds a query that is torn, and no call closes in front of it. */
  predicate Torn(cs: int, s: Arrivals) {
    var q := ToQuery(cs, Concat(s));
    q.Some? && (Naming(cs) ==> NameKnown(s)) && TornFrom(s, q.value)
  }

  lemma TornFromShift(s: Arrivals, q: nat)
    requires s != []
    ensures TornFrom(s, |s[0]| + q) <==> TornFrom(s[1..], q)
  {
    hide IsQueryChar, Clean;
    var a, b := s[0], Concat(s[1..]);
    var r := a + b;
    if q <= |b| {
      assert r[|a| + q..] == b[q..];
      var e := q + EndOfQuery(b[q..]);
      assert r[|a| + q..|a| + e] == b[q..e];
    }
  }

  lemma IndexConcat(a: string, b: string, c: char)
    ensures IndexOf(a + b, c) == if IndexOf(a, c) < |a| then IndexOf(a, c) else |a| + IndexOf(b, c)
  {
    var k, i, j := IndexOf(a + b, c), IndexOf(a, c), IndexOf(b, c);
    if i < |a| { assert (a + b)[i] == c; } else if j < |b| { assert (a + b)[|a| + j] == c; }
    if k < |a| { assert a[k] == c; } else if k < |a + b| { assert b[k - |a|] == c; }
    assert forall x :: 0 <= x < |a| ==> (a + b)[x] == a[x];
    assert forall x :: 0 <= x < |b| ==> (a + b)[|a| + x] == b[x];
  }

  lemma NameShift(s: Arrivals)
    requires s != [] && IndexOf(s[0], ' ') == |s[0]|
    ensures NameKnown(s) <==> NameKnown(s[1..])
  {
    hide MethodOf;
    var a, b := s[0], Concat(s[1..]);
    IndexConcat(a, b, ' ');
    var j := IndexOf(b, ' ');
    var o := OffsetIn(s[1..], j);
    assert (a + b)[|a| + j - o..|a| + j] == b[j - o..j];
  }

  lemma NameHere(s: Arrivals)
    requires s != [] && IndexOf(s[0], ' ') < |s[0]|
    ensures NameKnown(s) <==> MethodOf(s[0][..IndexOf(s[0], ' ')]).Some?
  {
    hide MethodOf;
    var a, b := s[0], Concat(s[1..]);
    IndexConcat(a, b, ' ');
    var j := IndexOf(a, ' ');
    assert (a + b)[0..j] == a[..j];
  }

  /** Inside the query's first byte and behind it the table is the same. */
  lemma SameFrom29(r: string)
    requires r != "" && !EndsQuery(r[0])
    ensures ControlRun(RequestEdge, 29, r) == ControlRun(RequestEdge, 30, r)
    ensures Stopped(RequestEdge, 29, r) == Stopped(RequestEdge, 30, r)
  {
    var c := r[0];
    assert RequestEdge(29, c).target == RequestEdge(30, c).target && RequestEdge(29, c).Halts() == RequestEdge(30, c).Halts();
    hide RequestEdge;
  }

  /** The run over a text that leads to a query, from there. */
  lemma {:induction false} ThroughStart(cs: int, a: string)
    requires ToQuery(cs, a).Some?
    ensures var r := a[ToQuery(cs, a).value..];
            && ControlRun(RequestEdge, cs, a).0 == ControlRun(RequestEdge, 29, r).0
            && Stopped(RequestEdge, cs, a) == Stopped(RequestEdge, 29, r)
    decreases |a|
  {
    hide RequestEdge;
    if cs == 29 {
      assert a[0..] == a;
    } else {
      ThroughStart(RequestEdge(cs, a[0]).target, a[1..]);
      assert a[ToQuery(cs, a).value..] == a[1..][ToQuery(cs, a).value - 1..];
    }
  }

  lemma EndedInStart(c: char, r: string)
    requires EndsQuery(c)
    ensures Past(ControlRun(RequestEdge, 29, [c] + r).0)
  {
    var e := RequestEdge(29, c);
    assert ([c] + r)[1..] == r;
    PastStays(e.target, r);
  }

  /** What the read in which a query begins tells of it. */
  lemma QueryBegins(cs: int, s: Arrivals)
    requires s != []
    requires var q := ToQuery(cs, s[0]); q.Some? && q.value < |s[0]|
    ensures var q := ToQuery(cs, s[0]).value;
            var c := ControlRun(RequestEdge, cs, s[0]).0;
            if Stopped(RequestEdge, cs, s[0]) then !TornFrom(s, q)
            else if RequestQuery(c) then TornFrom(s, q) <==> QueryTorn(c, q, s[1..])
            else Past(c) && !TornFrom(s, q)
  {
    hide RequestEdge, ControlRun, Stopped, RequestQuery, Past, TornFrom, QueryTorn, EndOfQuery;
    var q := ToQuery(cs, s[0]).value;
    var t := s[0][q..];
    ThroughStart(cs, s[0]);
    if EndOfQuery(t) < |t| {
      EndsInItsRead(t);
      NotTorn(s, q);
    } else {
      SameFrom29(t) by { NoEndHere(t); }
      GoesOnBehind(s, q);
    }
  }

  lemma NoEndHere(t: string)
    requires t != "" && EndOfQuery(t) >= |t|
    ensures !EndsQuery(t[0]) && EndOfQuery(t) == |t|
  {
  }

  lemma NotTorn(s: Arrivals, q: nat)
    requires s != [] && q < |s[0]| && EndOfQuery(s[0][q..]) < |s[0]| - q
    ensures !TornFrom(s, q)
  {
    hide IsQueryChar, Clean;
    var a, b := s[0], Concat(s[1..]);
    assert (a + b)[q..] == a[q..] + b;
    EndOfConcat(a[q..], b);
  }

  lemma GoesOnBehind(s: Arrivals, q: nat)
    requires s != [] && q < |s[0]| && EndOfQuery(s[0][q..]) >= |s[0]| - q
    ensures var t := s[0][q..];
            var c := ControlRun(RequestEdge, 30, t).0;
            if Stopped(RequestEdge, 30, t) then !TornFrom(s, q) else RequestQuery(c) && (TornFrom(s, q) <==> QueryTorn(c, q, s[1..]))
  {
    hide RequestEdge, ControlRun, Stopped, RequestQuery, IsQueryChar, Clean, QueryGoesOn, OffsetIn, EndOfQuery;
    var a, b := s[0], Concat(s[1..]);
    var t, k := a[q..], EndOfQuery(b);
    EndOfConcat(t, b);
    AmidQuery(30, t, b[..k]) by { ThirtyIsQuery(); }
    FromThirty(t + b[..k]);
    OffsetBehind(s, k);
    OffsetHere(s, q);
    TwoSlices(a, b, q, k);
  }

  lemma OffsetBehind(s: Arrivals, x: nat)
    requires s != []
    ensures OffsetIn(s, |s[0]| + x) == OffsetIn(s[1..], x)
  {
  }

  lemma OffsetHere(s: Arrivals, x: nat)
    requires s != [] && x < |s[0]|
    ensures OffsetIn(s, x) == x
  {
  }

  lemma TwoSlices(a: string, b: string, q: nat, k: nat)
    requires q <= |a| && k <= |b|
    ensures (a + b)[q..] == a[q..] + b && (a + b)[q..|a| + k] == a[q..] + b[..k]
  {
  }

  lemma FromThirty(s: string)
    ensures QueryGoesOn(30, s) <==> Clean(s, IsQueryChar)
  {
    hide Clean;
  }

  lemma ThirtyIsQuery()
    ensures RequestQuery(30)
  {
  }

  lemma EndsInItsRead(t: string)
    requires EndOfQuery(t) < |t|
    ensures var c := ControlRun(RequestEdge, 29, t).0;
            !Stopped(RequestEdge, 29, t) ==> Past(c) && !RequestQuery(c)
  {
    hide RequestEdge;
    if EndsQuery(t[0]) {
      assert t == [t[0]] + t[1..];
      EndedInStart(t[0], t[1..]);
    } else if !Stopped(RequestEdge, 29, t) {
      SameFrom29(t);
      PastQuery(30, t);
    }
  }

  // ---------------------------------------------------------------- the theorem

  /** What a call over one read does in front of the end of a query. */
  lemma EarlyCall(m: Parser, a: string)
    requires (Naming(m.cs) || Aiming(m.cs)) && m.cs != 0 && !AnyRejected(RequestRejects, m.events)
    ensures var m1 := Execute(RequestEdge, m, a).0;
            && (RequestQuery(m1.cs) ==>
                  var q := ToQuery(m.cs, a); q.Some? && q.value < |a| && m1.queryStart == q.value)
            && (Aiming(m.cs) && !Past(m1.cs) ==> !AnyRejected(RequestRejects, m1.events))
            && (Naming(m.cs) && Naming(m1.cs) ==> IndexOf(a, ' ') == |a| && !AnyRejected(RequestRejects, m1.events))
            && (Naming(m.cs) && !Naming(m1.cs) && !Past(m1.cs) ==>
                  && IndexOf(a, ' ') < |a|
                  && AnyRejected(RequestRejects, m1.events) == (MethodOf(a[..IndexOf(a, ' ')]) == None))
  {
    hide RequestEdge, Run, AnyRejected, MethodOf, Naming, Aiming, Past, RequestQuery;
    var z := ZeroRegisters(m);
    assert a[0..] == a;
    StartFound(z, a, 0);
    if Aiming(m.cs) { AimingAccepts(z, a, 0); }
    if Naming(m.cs) { NamingAccepts(z, a, 0); }
  }

  /** From in front of any query: the loop throws if and only if the stream holds a torn query. */
  lemma {:induction false} TornIff(m: Parser, s: Arrivals)
    requires (Naming(m.cs) || Aiming(m.cs)) && !Failed(REQUESTS, m) && !Raised(REQUESTS, m) && Steady(s, BUFFER)
    ensures ReceiveHead(REQUESTS, m, "", s).Thrown? <==> Torn(m.cs, s)
    decreases |s|
  {
    hide RequestEdge, Run, AnyRejected, ReceiveHead, ControlRun, Naming, Aiming, Past, RequestQuery, Execute, MethodOf, TornFrom,
      NameKnown, QueryTorn, ToQuery, Stopped, Concat;
    StageIsOne(m.cs);
    if s == [] {
      NothingComes(m);
      NothingIsTorn(m.cs);
    } else {
      OutsideIsQuiet(m, s[0]);
      if Stopped(RequestEdge, m.cs, s[0]) {
        StoppedIsOver(m.cs, s[0]);
        LastRead(m, s);
        StoppedIsNotTorn(m.cs, s);
      } else {
        OneReadOn(m, s);
        EarlyCall(m, s[0]);
        var m1 := Execute(RequestEdge, m, s[0]).0;
        StageIsOne(m1.cs);
        if Past(m1.cs) {
          if !Failed(REQUESTS, m1) { PastNeverThrows(m1, s[1..]); }
          PastIsNotTorn(m.cs, s);
        } else if RequestQuery(m1.cs) {
          QueryCall(m, s);
        } else {
          if Naming(m.cs) {
            if !Naming(m1.cs) { NameHere(s); }
          } else {
            NeverNamesAgain(m.cs, s[0]);
          }
          EarlyIsTornLater(m.cs, s);
          if !Failed(REQUESTS, m1) { TornIff(m1, s[1..]); }
        }
      }
    }
  }

  lemma NothingIsTorn(cs: int)
    ensures !Torn(cs, [])
  {
  }

  lemma StoppedIsNotTorn(cs: int, s: Arrivals)
    requires s != [] && Stopped(RequestEdge, cs, s[0])
    ensures !Torn(cs, s)
  {
    hide RequestEdge, Naming, NameKnown, TornFrom;
    ToQuerySplit(cs, s[0], Concat(s[1..]));
    if ToQuery(cs, s[0]).Some? {
      StartIsInside(cs, s[0]);
      QueryBegins(cs, s);
    }
  }

  /** A query that begins right behind the text has not been stopped, and stands in state 29. */
  lemma StartIsInside(cs: int, a: string)
    requires ToQuery(cs, a).Some?
    ensures ToQuery(cs, a).value == |a| ==> !Stopped(RequestEdge, cs, a) && ControlRun(RequestEdge, cs, a).0 == 29
  {
    hide RequestEdge;
    ThroughStart(cs, a);
    assert a[|a|..] == "";
  }

  lemma PastIsNotTorn(cs: int, s: Arrivals)
    requires s != [] && !Stopped(RequestEdge, cs, s[0]) && Past(ControlRun(RequestEdge, cs, s[0]).0)
    ensures !Torn(cs, s)
  {
    hide RequestEdge, NameKnown, TornFrom, ControlRun, Stopped, QueryTorn;
    var c := ControlRun(RequestEdge, cs, s[0]).0;
    ToQuerySplit(cs, s[0], Concat(s[1..]));
    PastStays(c, Concat(s[1..]));
    if ToQuery(cs, s[0]).Some? {
      StartIsInside(cs, s[0]);
      QueryBegins(cs, s);
    }
  }

  /** A read that ends within a query. */
  lemma QueryCall(m: Parser, s: Arrivals)
    requires (Naming(m.cs) || Aiming(m.cs)) && !Failed(REQUESTS, m) && s != [] && Steady(s, BUFFER)
    requires !Stopped(RequestEdge, m.cs, s[0])
    requires var m1 := Execute(RequestEdge, m, s[0]).0;
             && RequestQuery(m1.cs) && m1.cs == ControlRun(RequestEdge, m.cs, s[0]).0 && !Raised(REQUESTS, m1)
             && ReceiveHead(REQUESTS, m, "", s)
                == if Failed(REQUESTS, m1) then Closed else ReceiveHead(REQUESTS, m1, "", s[1..])
    ensures ReceiveHead(REQUESTS, m, "", s).Thrown? <==> Torn(m.cs, s)
  {
    hide RequestEdge, Run, AnyRejected, ReceiveHead, ControlRun, Naming, Aiming, Past, RequestQuery, Execute, MethodOf, TornFrom,
      NameKnown, QueryTorn, ToQuery, Stopped, Concat;
    var m1 := Execute(RequestEdge, m, s[0]).0;
    StageIsOne(m.cs);
    StageIsOne(m1.cs);
    NotZeroInQuery(m1.cs);
    EarlyCall(m, s[0]);
    StartsHere(m.cs, s);
    QueryBegins(m.cs, s);
    if Naming(m.cs) { NameHere(s); }
    if !Failed(REQUESTS, m1) { QueryTornIff(m1, s[1..]); }
  }

  lemma StartsHere(cs: int, s: Arrivals)
    requires s != [] && ToQuery(cs, s[0]).Some?
    ensures ToQuery(cs, Concat(s)) == ToQuery(cs, s[0])
  {
    hide RequestEdge;
    ToQuerySplit(cs, s[0], Concat(s[1..]));
  }

  /** A read that ends in front of any query: one begins where it begins behind it. */
  lemma StartsLater(cs: int, s: Arrivals)
    requires s != [] && !Stopped(RequestEdge, cs, s[0])
    requires var c := ControlRun(RequestEdge, cs, s[0]).0; Naming(c) || Aiming(c)
    ensures var q := ToQuery(ControlRun(RequestEdge, cs, s[0]).0, Concat(s[1..]));
            ToQuery(cs, Concat(s)) == if q.Some? then Some(|s[0]| + q.value) else None
  {
    hide RequestEdge, ControlRun, Stopped, Naming, Aiming, Past, RequestQuery, TornFrom, QueryTorn;
    var c := ControlRun(RequestEdge, cs, s[0]).0;
    ToQuerySplit(cs, s[0], Concat(s[1..]));
    if ToQuery(cs, s[0]).Some? {
      StageIsOne(c);
      StartIsInside(cs, s[0]);
      if ToQuery(cs, s[0]).value < |s[0]| { QueryBegins(cs, s); }
    }
  }

  /** So what is torn is torn behind it. */
  lemma EarlyIsTornLater(cs: int, s: Arrivals)
    requires s != [] && !Stopped(RequestEdge, cs, s[0])
    requires var c := ControlRun(RequestEdge, cs, s[0]).0; (Naming(c) || Aiming(c)) && (Naming(c) ==> Naming(cs))
    requires Naming(ControlRun(RequestEdge, cs, s[0]).0) ==> IndexOf(s[0], ' ') == |s[0]|
    ensures var c := ControlRun(RequestEdge, cs, s[0]).0;
            && (Naming(cs) == Naming(c) ==> (Torn(cs, s) <==> Torn(c, s[1..])))
            && (Naming(cs) && !Naming(c) ==> (Torn(cs, s) <==> NameKnown(s) && Torn(c, s[1..])))
  {
    hide RequestEdge, ControlRun, Stopped, Naming, Aiming, ToQuery, TornFrom, NameKnown, Concat, IndexOf;
    var c := ControlRun(RequestEdge, cs, s[0]).0;
    StartsLater(cs, s);
    var q := ToQuery(c, Concat(s[1..]));
    if q.Some? { TornFromShift(s, q.value); }
    if Naming(c) { NameShift(s); }
  }

  /**
   Exactly when recvRequest throws, for every stream and every way reads cut it.  A query that the request
   line leads to ends cleanly, at a place that is less far into its read than the query's start is into an
   earlier one; and no earlier read has closed the connection over the method, which is taken to begin
   with the read that brings its end.
   */
  lemma RequestThrowsIff(s: Arrivals)
    requires Steady(s, BUFFER)
    ensures ReceiveRequest(s) == Thrown <==> Torn(1, s)
  {
    hide ReceiveHead, Torn, ContentLength, BuildRequest, ReceiveFixed;
    TornIff(NewParser(0), s);
  }
}
