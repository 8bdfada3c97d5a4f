/**
 The head-reading loop for any table without stale states: it does not matter where reads end, as
 long as they end where no position register is needed.
 */
module SegmentedReceiving {
  import opened Machine
  import opened Segmentation
  import opened HttpMessages
  import opened ByteStream
  import opened Framing

  /** The parser can only be finished by an edge that stops the run. */
  ghost predicate StopsWhenFinal(d: Dialect) {
    forall cs: int, c: char :: d.final(d.table(cs, c).target) ==> d.table(cs, c).Halts()
  }

  /** Among the first n bytes, reads end only where the control state needs no register. */
  ghost predicate CutsHarmless(d: Dialect, f: Flow, cs: int, s: Arrivals, n: nat) {
    forall x: nat :: x < n && x <= |Concat(s)| && CutAt(s, x) ==> IsCut(f, ControlRun(d.table, cs, Concat(s)[..x]).0)
  }

  lemma RejectedLater(rejects: Event -> bool, a: seq<Event>, b: seq<Event>)
    requires a <= b && AnyRejected(rejects, a)
    ensures AnyRejected(rejects, b)
  {
    var i :| 0 <= i < |a| && rejects(a[i]);
    assert b[i] == a[i];
  }

  /** A run that does not stop within the text leaves a state that is neither failed nor final. */
  lemma {:induction false} RunsOn(d: Dialect, cs: int, a: string)
    requires StopsWhenFinal(d) && !d.final(cs) && cs != 0 && !Stopped(d.table, cs, a)
    ensures var r := ControlRun(d.table, cs, a); r.1 == |a| && r.0 != 0 && !d.final(r.0)
    decreases |a|
  {
    if a != "" {
      RunsOn(d, d.table(cs, a[0]).target, a[1..]);
    }
  }

  /** Behind a first arrival, the other cuts are as harmless as before. */
  lemma HarmlessBehind(d: Dialect, f: Flow, cs: int, s: Arrivals, n: nat)
    requires s != [] && !Stopped(d.table, cs, s[0]) && CutsHarmless(d, f, cs, s, |s[0]| + n)
    ensures CutsHarmless(d, f, ControlRun(d.table, cs, s[0]).0, s[1..], n)
  {
    var a, b := s[0], Concat(s[1..]);
    forall x: nat | x < n && x <= |b| && CutAt(s[1..], x)
      ensures IsCut(f, ControlRun(d.table, ControlRun(d.table, cs, a).0, b[..x]).0)
    {
      assert CutAt(s, |a| + x);
      assert Concat(s)[..|a| + x] == a + b[..x];
      ControlSegmentation(d.table, cs, a, b[..x]);
    }
  }

  /** The first arrival stops the run. */
  lemma HeadInOne(d: Dialect, f: Flow, m: Parser, s: Arrivals)
    requires Describes(f, d.table) && NeverStale(f) && IsCut(f, m.cs) && Steady(s, BUFFER) && s != []
    requires Stopped(d.table, m.cs, s[0])
    requires var (w, n) := Execute(d.table, m, Concat(s)); !Failed(d, w) && !Raised(d, w) && d.final(w.cs)
    ensures var (w, n) := Execute(d.table, m, Concat(s));
            var r := ReceiveHead(d, m, "", s);
            Leaves(r, s, n, Concat(s)[n..]) && r.value.0 == w
  {
    hide Execute, Failed, Raised, Describes, IsCut, NeverStale, Boundary;
    var a, b := s[0], Concat(s[1..]);
    CutIsContained(d.table, f, m, a);
    CallbackSegmentation(d.table, f, m, a, b);
    var (w, n) := Execute(d.table, m, a);
    assert "" + a == a;
    ExecuteProgress(d.table, m, a) by { NotZero(d, w); }
    LeavesHere(w, s, n);
  }

  lemma NotZero(d: Dialect, w: Parser)
    requires !Failed(d, w)
    ensures w.cs != 0
  {
  }

  /** The first arrival does not stop the run: the loop goes on behind it. */
  lemma HeadGoesOn(d: Dialect, f: Flow, m: Parser, s: Arrivals)
    requires Describes(f, d.table) && NeverStale(f) && StopsWhenFinal(d) && IsCut(f, m.cs) && m.cs != 0 && !d.final(m.cs)
    requires Steady(s, BUFFER) && s != [] && !Stopped(d.table, m.cs, s[0])
    requires var (w, n) := Execute(d.table, m, Concat(s));
             !Failed(d, w) && !Raised(d, w) && d.final(w.cs) && CutsHarmless(d, f, m.cs, s, n)
    ensures var (w, n) := Execute(d.table, m, Concat(s));
            var m1 := Execute(d.table, m, s[0]).0;
            var (w1, n1) := Execute(d.table, m1, Concat(s[1..]));
            && ReceiveHead(d, m, "", s) == ReceiveHead(d, m1, "", s[1..])
            && IsCut(f, m1.cs) && m1.cs != 0 && !d.final(m1.cs)
            && Same(w, w1) && n == |s[0]| + n1 && n1 > 0 && CutsHarmless(d, f, m1.cs, s[1..], n1)
  {
    hide Run, Describes, NeverStale, StopsWhenFinal, CutsHarmless, ControlRun, FlowAt;
    var a, b := s[0], Concat(s[1..]);
    var (w, n) := Execute(d.table, m, a + b);
    CutIsContained(d.table, f, m, a);
    RunsOn(d, m.cs, a);
    RunControl(d.table, ZeroRegisters(m), a, 0);
    assert a[0..] == a && "" + a == a && a[|a|..] == "";
    var m1 := Execute(d.table, m, a).0;
    WholeRunPasses(d, f, m, a, b);
    CutHere(d, f, m.cs, s, n);
    CallbackSegmentation(d.table, f, m, a, b);
    var (w1, n1) := Execute(d.table, m1, b);
    HarmlessBehind(d, f, m.cs, s, n1);
    RunAddsEvents(d.table, ZeroRegisters(m1), b, 0);
    if AnyRejected(d.rejects, m1.events) { RejectedLater(d.rejects, m1.events, w1.events); }
    if AnyRejected(d.raises, m1.events) { RejectedLater(d.raises, m1.events, w1.events); }
  }

  /** The whole run ends behind the first arrival. */
  lemma WholeRunPasses(d: Dialect, f: Flow, m: Parser, a: string, b: string)
    requires StopsWhenFinal(d) && m.cs != 0 && !d.final(m.cs) && !Stopped(d.table, m.cs, a)
    requires d.final(Execute(d.table, m, a + b).0.cs) && Execute(d.table, m, a + b).0.cs != 0
    ensures Execute(d.table, m, a + b).1 > |a|
  {
    RunsOn(d, m.cs, a);
    ControlSegmentation(d.table, m.cs, a, b);
    RunControl(d.table, ZeroRegisters(m), a + b, 0);
    assert (a + b)[0..] == a + b;
  }

  lemma CutHere(d: Dialect, f: Flow, cs: int, s: Arrivals, n: nat)
    requires s != [] && CutsHarmless(d, f, cs, s, n) && |s[0]| < n
    ensures IsCut(f, ControlRun(d.table, cs, s[0]).0)
  {
    assert CutAt(s, |s[0]|);
    assert Concat(s)[..|s[0]|] == s[0];
  }

  /**
   Receiving does not depend on the reads.  If one call over the whole stream recognises a head, then
   the loop recognises it, too, makes the same callbacks and consumes the same bytes, for all reads
   that end where no register is needed.
   */
  lemma {:induction false} SegmentedHead(d: Dialect, f: Flow, m: Parser, s: Arrivals)
    requires Describes(f, d.table) && NeverStale(f) && StopsWhenFinal(d) && IsCut(f, m.cs) && m.cs != 0 && !d.final(m.cs)
    requires Steady(s, BUFFER)
    requires var (w, n) := Execute(d.table, m, Concat(s));
             !Failed(d, w) && !Raised(d, w) && d.final(w.cs) && CutsHarmless(d, f, m.cs, s, n)
    ensures var (w, n) := Execute(d.table, m, Concat(s));
            var r := ReceiveHead(d, m, "", s);
            Leaves(r, s, n, Concat(s)[n..]) && Same(r.value.0, w)
    decreases |s|
  {
    hide Run, Describes, NeverStale, StopsWhenFinal, CutsHarmless, ReceiveHead, IsCut, Boundary, Leaves;
    var (w, n) := Execute(d.table, m, Concat(s));
    if s == [] {
      NothingDone(d, m);
    } else if Stopped(d.table, m.cs, s[0]) {
      HeadInOne(d, f, m, s);
    } else {
      HeadGoesOn(d, f, m, s);
      var m1 := Execute(d.table, m, s[0]).0;
      SegmentedHead(d, f, m1, s[1..]);
      var n1 := n - |s[0]|;
      assert (s[0] + Concat(s[1..]))[n..] == Concat(s[1..])[n1..];
      LeavesBehind(ReceiveHead(d, m1, "", s[1..]), s, s[1..], n1, Concat(s)[n..]);
    }
  }

  lemma NothingDone(d: Dialect, m: Parser)
    ensures Execute(d.table, m, "").0.cs == m.cs
  {
  }
}
