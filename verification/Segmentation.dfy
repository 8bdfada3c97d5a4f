/**
 Splitting the input.  Execute starts every call with its position registers at zero, so what a
 split preserves depends on which registers the control state still needs.
 */
module Segmentation {
  import opened HttpText
  import opened ParserTables
  import opened Machine

  // ---------------------------------------------------------------- control

  /** The run with its data left out: only the control state and the position. */
  function ControlRun(t: Table, cs: int, s: string): (r: (int, nat))
    ensures r.1 <= |s|
    decreases |s|
  {
    if s == "" then (cs, 0)
    else
      var e := t(cs, s[0]);
      if e.target == 0 then (0, 0)
      else if e.Halts() then (e.target, 1)
      else
        var r := ControlRun(t, e.target, s[1..]);
        (r.0, r.1 + 1)
  }

  /** The run fails or halts within the text. */
  predicate Stopped(t: Table, cs: int, s: string)
    decreases |s|
  {
    s != "" &&
    var e := t(cs, s[0]);
    e.target == 0 || e.Halts() || Stopped(t, e.target, s[1..])
  }

  lemma {:induction false} RunControl(t: Table, m: Parser, buffer: string, p: nat)
    requires p <= |buffer|
    ensures var r := ControlRun(t, m.cs, buffer[p..]);
            Run(t, m, buffer, p).0.cs == r.0 && Run(t, m, buffer, p).1 == p + r.1
    decreases |buffer| - p
  {
    if p < |buffer| {
      var e := t(m.cs, buffer[p]);
      assert buffer[p..][1..] == buffer[p + 1..];
      if e.target != 0 && !e.Halts() {
        RunControl(t, Fire(e, m, buffer, p), buffer, p + 1);
      }
    }
  }

  /** However the input is cut, the control state and the number of bytes consumed are the same. */
  lemma {:induction false} ControlSegmentation(t: Table, cs: int, a: string, b: string)
    ensures Stopped(t, cs, a) ==> ControlRun(t, cs, a + b) == ControlRun(t, cs, a)
    ensures !Stopped(t, cs, a) ==>
              var r := ControlRun(t, cs, a);
              var s := ControlRun(t, r.0, b);
              r.1 == |a| && ControlRun(t, cs, a + b) == (s.0, |a| + s.1)
    decreases |a|
  {
    if a == "" {
      assert a + b == b;
    } else {
      var e := t(cs, a[0]);
      assert (a + b)[1..] == a[1..] + b;
      if e.target != 0 && !e.Halts() {
        ControlSegmentation(t, e.target, a[1..], b);
      }
    }
  }

  // ---------------------------------------------------------------- live registers

  /** One flag per position register. */
  datatype Regs = Regs(mark: bool, fieldStart: bool, fieldLen: bool, query: bool)

  const NONE := Regs(false, false, false, false)

  /**
   What a table's data flow is claimed to be, state by state: which of the four position registers
   still matter; the base of the number being read, or 0; whether the header name's start and length
   belong together; and the states where the table delivers a header although they do not.
   */
  datatype Flow = Flow(
    mark: int -> bool, start: int -> bool, len: int -> bool, query: int -> bool,
    base: int -> nat, paired: int -> bool, stale: int -> bool)

  function Live(f: Flow, cs: int): Regs {
    Regs(f.mark(cs), f.start(cs), f.len(cs), f.query(cs))
  }

  predicate ReadsMark(a: Action) {
    || a.EmitField? || a.EmitReason? || a.EmitVersion? || a.EmitMethod? || a.EmitPath? || a.EmitUri?
    || a.EmitFragment? || ReadsNumber(a)
  }

  predicate ReadsNumber(a: Action) {
    a.EmitStatus? || a.EmitChunk? || a.SetLength?
  }

  predicate ReadsStart(a: Action) {
    a.EmitField? || a.EndField?
  }

  /** Every register an action reads is known. */
  predicate CanAct(a: Action, r: Regs) {
    && (ReadsMark(a) ==> r.mark)
    && (ReadsStart(a) ==> r.fieldStart)
    && (a.EmitField? ==> r.fieldLen)
    && (a.EmitQuery? ==> r.query)
  }

  /** The registers known once an action has run. */
  function Known(a: Action, r: Regs): Regs {
    Regs(
      a.Mark? || r.mark,
      a.StartField? || r.fieldStart,
      if a.EndField? then r.fieldStart else r.fieldLen,
      a.MarkQuery? || r.query)
  }

  /** Does the header name's length fit its start once an action has run? */
  predicate Pairs(a: Action, before: bool) {
    if a.StartField? then false else a.EndField? || before
  }

  // An edge reads only registers that are live or that it has just set, and leaves the target's
  // live ones set.  One predicate for each register:

  predicate MarkFlow(b: bool, e: Edge, after: bool) {
    && (ReadsMark(e.a1) ==> b)
    && (ReadsMark(e.a2) ==> b || e.a1.Mark?)
    && (ReadsMark(e.a3) ==> b || e.a1.Mark? || e.a2.Mark?)
    && (ReadsMark(e.a4) ==> b || e.a1.Mark? || e.a2.Mark? || e.a3.Mark?)
    && (after ==> b || e.a1.Mark? || e.a2.Mark? || e.a3.Mark? || e.a4.Mark?)
  }

  predicate QueryFlow(b: bool, e: Edge, after: bool) {
    && (e.a1.EmitQuery? ==> b)
    && (e.a2.EmitQuery? ==> b || e.a1.MarkQuery?)
    && (e.a3.EmitQuery? ==> b || e.a1.MarkQuery? || e.a2.MarkQuery?)
    && (e.a4.EmitQuery? ==> b || e.a1.MarkQuery? || e.a2.MarkQuery? || e.a3.MarkQuery?)
    && (after ==> b || e.a1.MarkQuery? || e.a2.MarkQuery? || e.a3.MarkQuery? || e.a4.MarkQuery?)
  }

  predicate NameFlow(s: bool, l: bool, e: Edge, afterS: bool, afterL: bool) {
    var s1 := s || e.a1.StartField?;
    var s2 := s1 || e.a2.StartField?;
    var s3 := s2 || e.a3.StartField?;
    var l1 := if e.a1.EndField? then s else l;
    var l2 := if e.a2.EndField? then s1 else l1;
    var l3 := if e.a3.EndField? then s2 else l2;
    && (ReadsStart(e.a1) ==> s) && (ReadsStart(e.a2) ==> s1) && (ReadsStart(e.a3) ==> s2) && (ReadsStart(e.a4) ==> s3)
    && (e.a1.EmitField? ==> l) && (e.a2.EmitField? ==> l1) && (e.a3.EmitField? ==> l2) && (e.a4.EmitField? ==> l3)
    && (afterS ==> s3 || e.a4.StartField?)
    && (afterL ==> if e.a4.EndField? then s3 else l3)
  }

  /** A number is read by the first action of an edge, right behind its digits. */
  predicate NumbersFlow(before: nat, c: char, e: Edge, after: nat) {
    && !ReadsNumber(e.a2) && !ReadsNumber(e.a3) && !ReadsNumber(e.a4)
    && (ReadsNumber(e.a1) ==>
          && before == (if e.a1.EmitChunk? then 16 else 10)
          && !IsDigitIn(c, before) && c != 'x' && c != 'X')
    && (after != 0 ==>
          && IsDigitIn(c, after) && e.a3.Skip? && e.a4.Skip?
          && ((e.a1.Mark? && (e.a2.Skip? || e.a2.StartField?)) || (e.a1.Skip? && e.a2.Skip? && before == after)))
  }

  /** A header is delivered only when start and length belong together. */
  predicate FieldsFlow(before: bool, e: Edge, after: bool) {
    var b1 := Pairs(e.a1, before);
    var b2 := Pairs(e.a2, b1);
    var b3 := Pairs(e.a3, b2);
    && (e.a1.EmitField? ==> before) && (e.a2.EmitField? ==> b1) && (e.a3.EmitField? ==> b2) && (e.a4.EmitField? ==> b3)
    && (after ==> Pairs(e.a4, b3))
  }

  predicate EmitsField(e: Edge) {
    e.a1.EmitField? || e.a2.EmitField? || e.a3.EmitField? || e.a4.EmitField?
  }

  predicate FlowAt(f: Flow, cs: int, c: char, e: Edge) {
    && MarkFlow(f.mark(cs), e, f.mark(e.target))
    && NameFlow(f.start(cs), f.len(cs), e, f.start(e.target), f.len(e.target))
    && QueryFlow(f.query(cs), e, f.query(e.target))
    && NumbersFlow(f.base(cs), c, e, f.base(e.target))
    && (FieldsFlow(f.paired(cs), e, f.paired(e.target)) || (f.stale(cs) && EmitsField(e) && !f.paired(e.target)))
  }

  /** The claims of a flow hold on every edge of the table. */
  ghost predicate Describes(f: Flow, t: Table) {
    forall cs: int, c: char :: FlowAt(f, cs, c, t(cs, c))
  }

  /** No register matters in this state. */
  predicate IsCut(f: Flow, cs: int) {
    Live(f, cs) == NONE && f.base(cs) == 0 && !f.paired(cs)
  }

  /** No state delivers a header whose name's start and length may not belong together. */
  ghost predicate NeverStale(f: Flow) {
    forall cs: int :: !f.stale(cs)
  }

  // ---------------------------------------------------------------- names that stay inside the text

  /** A header that an action delivers has its name inside the text. */
  predicate NameInside(x: Action, m: Parser, len: nat) {
    x.EmitField? ==> m.fieldStart + m.fieldLen <= len
  }

  predicate NamesInside(e: Edge, m: Parser, s: string, p: nat) {
    var m1 := Act(e.a1, m, s, p);
    var m2 := Act(e.a2, m1, s, p);
    var m3 := Act(e.a3, m2, s, p);
    NameInside(e.a1, m, |s|) && NameInside(e.a2, m1, |s|) && NameInside(e.a3, m2, |s|) && NameInside(e.a4, m3, |s|)
  }

  /** The run over the text from p delivers no header whose name runs on beyond the text. */
  predicate Contained(t: Table, m: Parser, s: string, p: nat)
    requires p <= |s|
    decreases |s| - p
  {
    p == |s| ||
    var e := t(m.cs, s[p]);
    NamesInside(e, m, s, p) && (e.target == 0 || e.Halts() || Contained(t, Fire(e, m, s, p), s, p + 1))
  }

  // ---------------------------------------------------------------- the suffix: running from a cut

  /** Equal but for position registers, and there equal up to an offset where it matters. */
  predicate Agree(r: Regs, m: Parser, n: Parser, off: nat) {
    && m.cs == n.cs && m.contentLen == n.contentLen && m.status == n.status && m.chunked == n.chunked
    && m.chunksDone == n.chunksDone && m.close == n.close && m.events == n.events
    && (r.mark ==> m.mark == n.mark + off)
    && (r.fieldStart ==> m.fieldStart == n.fieldStart + off)
    && (r.fieldLen ==> m.fieldLen == n.fieldLen)
    && (r.query ==> m.queryStart == n.queryStart + off)
  }

  lemma SliceShift(a: string, b: string, lo: nat, hi: nat)
    ensures Slice(a + b, |a| + lo, |a| + hi) == Slice(b, lo, hi)
  {
    if lo <= hi <= |b| {
      assert (a + b)[|a| + lo..|a| + hi] == b[lo..hi];
    }
  }

  lemma NumberShift(a: string, b: string, lo: nat, base: nat)
    ensures NumberAt(a + b, |a| + lo, base) == NumberAt(b, lo, base)
  {
    SliceShift(a, b, lo, |b|);
  }

  lemma ActShift(x: Action, r: Regs, m: Parser, n: Parser, a: string, b: string, p: nat)
    requires Agree(r, m, n, |a|) && CanAct(x, r)
    ensures Agree(Known(x, r), Act(x, m, a + b, |a| + p), Act(x, n, b, p), |a|)
  {
    hide NumberAt, Slice;
    match x
    case Skip =>
    case Mark =>
    case StartField =>
    case EndField =>
    case MarkQuery =>
    case SetClose =>
    case SetChunked =>
    case Done =>
    case EmitField =>
      SliceShift(a, b, n.fieldStart, n.fieldStart + n.fieldLen);
      SliceShift(a, b, n.mark, p);
    case EmitQuery => SliceShift(a, b, n.queryStart, p);
    case EmitStatus => NumberShift(a, b, n.mark, 10);
    case SetLength => NumberShift(a, b, n.mark, 10);
    case EmitChunk => NumberShift(a, b, n.mark, 16);
    case _ => SliceShift(a, b, n.mark, p);
  }

  lemma FireShift(e: Edge, f: Flow, c: char, m: Parser, n: Parser, a: string, b: string, p: nat)
    requires Agree(Live(f, m.cs), m, n, |a|) && FlowAt(f, m.cs, c, e)
    ensures Agree(Live(f, e.target), Fire(e, m, a + b, |a| + p), Fire(e, n, b, p), |a|)
  {
    hide Act, NumbersFlow, FieldsFlow;
    var q, s := |a| + p, a + b;
    var r1 := Known(e.a1, Live(f, m.cs));
    var r2 := Known(e.a2, r1);
    var r3 := Known(e.a3, r2);
    ActShift(e.a1, Live(f, m.cs), m, n, a, b, p);
    var m1, n1 := Act(e.a1, m, s, q), Act(e.a1, n, b, p);
    ActShift(e.a2, r1, m1, n1, a, b, p);
    var m2, n2 := Act(e.a2, m1, s, q), Act(e.a2, n1, b, p);
    ActShift(e.a3, r2, m2, n2, a, b, p);
    var m3, n3 := Act(e.a3, m2, s, q), Act(e.a3, n2, b, p);
    ActShift(e.a4, r3, m3, n3, a, b, p);
  }

  lemma {:induction false} RunShift(t: Table, f: Flow, m: Parser, n: Parser, a: string, b: string, p: nat)
    requires Describes(f, t) && p <= |b| && Agree(Live(f, m.cs), m, n, |a|)
    ensures Agree(NONE, Run(t, m, a + b, |a| + p).0, Run(t, n, b, p).0, |a|)
    ensures Run(t, m, a + b, |a| + p).1 == |a| + Run(t, n, b, p).1
    decreases |b| - p
  {
    hide Fire, MarkFlow, NameFlow, QueryFlow, NumbersFlow, FieldsFlow;
    if p < |b| {
      assert (a + b)[|a| + p] == b[p];
      var e := t(m.cs, b[p]);
      assert FlowAt(f, m.cs, b[p], e);
      FireShift(e, f, b[p], m, n, a, b, p);
      if e.target != 0 && !e.Halts() {
        RunShift(t, f, Fire(e, m, a + b, |a| + p), Fire(e, n, b, p), a, b, p + 1);
      }
    }
  }

  // ---------------------------------------------------------------- the prefix: what follows is not read

  /** The registers bound text in front of p, and a number being read has its digits there. */
  predicate InFront(f: Flow, m: Parser, s: string, p: nat) {
    && p <= |s| && m.mark <= p && m.fieldStart <= p
    && (f.paired(m.cs) ==> m.fieldStart + m.fieldLen <= p)
    && (f.base(m.cs) != 0 ==> m.mark < p && AllDigits(s[m.mark..p], f.base(m.cs)))
  }

  /** What an action needs to be blind to the text behind p. */
  predicate Blind(x: Action, base: nat, paired: bool, m: Parser, s: string, p: nat) {
    && p < |s| && m.mark <= p && m.fieldStart <= p && (paired ==> m.fieldStart + m.fieldLen <= p)
    && NameInside(x, m, |s|)
    && (ReadsNumber(x) ==>
          && base == (if x.EmitChunk? then 16 else 10) && m.mark < p && AllDigits(s[m.mark..p], base)
          && !IsDigitIn(s[p], base) && s[p] != 'x' && s[p] != 'X')
  }

  lemma NumberBlind(s: string, b: string, lo: nat, p: nat, base: nat)
    requires lo < p < |s| && AllDigits(s[lo..p], base)
    requires !IsDigitIn(s[p], base) && s[p] != 'x' && s[p] != 'X'
    ensures NumberAt(s + b, lo, base) == NumberAt(s, lo, base)
    ensures NumberAt(s, lo, base) == ToInt32(Clamp64(Value(s[lo..p], base)))
  {
    hide Strtol, Value;
    var u, v := s[lo..], (s + b)[lo..];
    assert v[..p - lo] == s[lo..p] == u[..p - lo];
    assert u[p - lo] == s[p] == v[p - lo];
    StrtolOfRun(u, p - lo, base);
    StrtolOfRun(v, p - lo, base);
    assert s[lo..|s|] == u && (s + b)[lo..|s + b|] == v;
  }

  lemma SliceBlind(s: string, b: string, lo: nat, hi: nat)
    requires hi <= |s|
    ensures Slice(s + b, lo, hi) == Slice(s, lo, hi)
  {
    if lo <= hi { assert (s + b)[lo..hi] == s[lo..hi]; }
  }

  lemma ActBlind(x: Action, base: nat, paired: bool, m: Parser, s: string, b: string, p: nat)
    requires Blind(x, base, paired, m, s, p)
    ensures Act(x, m, s + b, p) == Act(x, m, s, p)
    ensures var m' := Act(x, m, s, p);
            m'.mark <= p && m'.fieldStart <= p && (Pairs(x, paired) ==> m'.fieldStart + m'.fieldLen <= p)
  {
    hide NumberAt, Slice;
    SliceBlind(s, b, m.mark, p);
    SliceBlind(s, b, m.queryStart, p);
    if x.EmitField? { SliceBlind(s, b, m.fieldStart, m.fieldStart + m.fieldLen); }
    if ReadsNumber(x) { NumberBlind(s, b, m.mark, p, base); }
  }

  lemma OneMoreByte(s: string, lo: nat, p: nat)
    requires lo <= p < |s|
    ensures s[lo..p + 1] == s[lo..p] + [s[p]]
  {
  }

  lemma FireBlind(e: Edge, f: Flow, m: Parser, s: string, b: string, p: nat)
    requires p < |s| && InFront(f, m, s, p) && FlowAt(f, m.cs, s[p], e) && NamesInside(e, m, s, p)
    ensures Fire(e, m, s + b, p) == Fire(e, m, s, p)
    ensures InFront(f, Fire(e, m, s, p), s, p + 1)
  {
    hide NumberAt;
    var base, after := f.base(m.cs), f.base(e.target);
    var b0 := f.paired(m.cs);
    var b1 := Pairs(e.a1, b0);
    var b2 := Pairs(e.a2, b1);
    var b3 := Pairs(e.a3, b2);
    ActBlind(e.a1, base, b0, m, s, b, p);
    var m1 := Act(e.a1, m, s, p);
    ActBlind(e.a2, base, b1, m1, s, b, p);
    var m2 := Act(e.a2, m1, s, p);
    ActBlind(e.a3, base, b2, m2, s, b, p);
    var m3 := Act(e.a3, m2, s, p);
    ActBlind(e.a4, base, b3, m3, s, b, p);
    var m' := Fire(e, m, s, p);
    if after != 0 {
      if e.a1.Mark? {
        assert m'.mark == p && s[p..p + 1] == [s[p]];
      } else {
        assert m'.mark == m.mark;
        OneMoreByte(s, m.mark, p);
      }
    }
  }

  lemma {:induction false} RunBlind(t: Table, f: Flow, m: Parser, s: string, b: string, p: nat)
    requires Describes(f, t) && InFront(f, m, s, p) && Contained(t, m, s, p)
    ensures Stopped(t, m.cs, s[p..]) ==> Run(t, m, s + b, p) == Run(t, m, s, p)
    ensures !Stopped(t, m.cs, s[p..]) ==> Run(t, m, s + b, p) == Run(t, Run(t, m, s, p).0, s + b, |s|)
    decreases |s| - p
  {
    hide Fire, MarkFlow, NameFlow, QueryFlow, NumbersFlow, FieldsFlow;
    if p < |s| {
      assert (s + b)[p] == s[p] == s[p..][0] && s[p..][1..] == s[p + 1..];
      var e := t(m.cs, s[p]);
      assert FlowAt(f, m.cs, s[p], e);
      FireBlind(e, f, m, s, b, p);
      if e.target != 0 && !e.Halts() {
        RunBlind(t, f, Fire(e, m, s, p), s, b, p + 1);
      }
    }
  }

  /** Where start and length always belong together, every name stays inside the text. */
  lemma {:induction false} NeverStaleIsContained(t: Table, f: Flow, m: Parser, s: string, p: nat)
    requires Describes(f, t) && NeverStale(f) && InFront(f, m, s, p)
    ensures Contained(t, m, s, p)
    decreases |s| - p
  {
    hide Fire, MarkFlow, NameFlow, QueryFlow, NumbersFlow, FieldsFlow, NamesInside;
    if p < |s| {
      var e := t(m.cs, s[p]);
      assert FlowAt(f, m.cs, s[p], e);
      PairedIsInside(e, f, m, s, p);
      FireBlind(e, f, m, s, "", p);
      if e.target != 0 && !e.Halts() {
        NeverStaleIsContained(t, f, Fire(e, m, s, p), s, p + 1);
      }
    }
  }

  lemma CutIsContained(t: Table, f: Flow, m: Parser, s: string)
    requires Describes(f, t) && NeverStale(f) && IsCut(f, m.cs)
    ensures Contained(t, ZeroRegisters(m), s, 0)
  {
    hide Describes, NeverStale, Contained;
    NeverStaleIsContained(t, f, ZeroRegisters(m), s, 0);
  }

  /** What an action leaves of a name that is known. */
  lemma ActPairs(x: Action, paired: bool, m: Parser, s: string, p: nat)
    requires m.fieldStart <= p < |s| && (paired ==> m.fieldStart + m.fieldLen <= p)
    ensures var m' := Act(x, m, s, p);
            m'.fieldStart <= p && (Pairs(x, paired) ==> m'.fieldStart + m'.fieldLen <= p)
  {
    hide NumberAt, Slice;
  }

  lemma PairedIsInside(e: Edge, f: Flow, m: Parser, s: string, p: nat)
    requires p < |s| && InFront(f, m, s, p) && FlowAt(f, m.cs, s[p], e) && !f.stale(m.cs)
    ensures NamesInside(e, m, s, p)
  {
    hide Act, MarkFlow, NameFlow, QueryFlow, NumbersFlow;
    var b0 := f.paired(m.cs);
    var b1 := Pairs(e.a1, b0);
    var b2 := Pairs(e.a2, b1);
    ActPairs(e.a1, b0, m, s, p);
    var m1 := Act(e.a1, m, s, p);
    ActPairs(e.a2, b1, m1, s, p);
    var m2 := Act(e.a2, m1, s, p);
    ActPairs(e.a3, b2, m2, s, p);
  }

  // ---------------------------------------------------------------- a name that does not

  lemma ActAddsEvents(a: Action, m: Parser, buffer: string, p: nat)
    ensures m.events <= Act(a, m, buffer, p).events
  {
    hide NumberAt, Slice;
  }

  lemma FireAddsEvents(e: Edge, m: Parser, buffer: string, p: nat)
    ensures var m1 := Act(e.a1, m, buffer, p);
            var m2 := Act(e.a2, m1, buffer, p);
            var m3 := Act(e.a3, m2, buffer, p);
            m.events <= m1.events <= m2.events <= m3.events <= Fire(e, m, buffer, p).events
  {
    hide Act;
    ActAddsEvents(e.a1, m, buffer, p);
    var m1 := Act(e.a1, m, buffer, p);
    ActAddsEvents(e.a2, m1, buffer, p);
    var m2 := Act(e.a2, m1, buffer, p);
    ActAddsEvents(e.a3, m2, buffer, p);
    ActAddsEvents(e.a4, Act(e.a3, m2, buffer, p), buffer, p);
  }

  lemma {:induction false} RunAddsEvents(t: Table, m: Parser, buffer: string, p: nat)
    requires p <= |buffer|
    ensures m.events <= Run(t, m, buffer, p).0.events
    decreases |buffer| - p
  {
    hide Fire, Act;
    if p < |buffer| {
      var m' := Fire(t(m.cs, buffer[p]), m, buffer, p);
      FireAddsEvents(t(m.cs, buffer[p]), m, buffer, p);
      RunAddsEvents(t, m', buffer, p + 1);
    }
  }

  /** Two lists of callbacks that part before either ends. */
  predicate Part(a: seq<Event>, b: seq<Event>) {
    exists k :: 0 <= k < |a| && k < |b| && a[k] != b[k]
  }

  lemma PartMore(a: seq<Event>, b: seq<Event>, a': seq<Event>, b': seq<Event>)
    requires Part(a, b) && a <= a' && b <= b'
    ensures Part(a', b') && !(a' <= b')
  {
    var k :| 0 <= k < |a| && k < |b| && a[k] != b[k];
    assert a'[k] == a[k] && b'[k] == b[k];
  }

  function Fill(n: nat, c: char): string {
    seq(n, _ => c)
  }

  /** Three views of the callbacks: without a continuation, with x's behind the text, with y's. */
  predicate AllPart(a: seq<Event>, b: seq<Event>, c: seq<Event>) {
    Part(a, b) && Part(b, c)
  }

  lemma AllPartMore(a: seq<Event>, b: seq<Event>, c: seq<Event>, a': seq<Event>, b': seq<Event>, c': seq<Event>)
    requires AllPart(a, b, c) && a <= a' && b <= b' && c <= c'
    ensures AllPart(a', b', c')
  {
    PartMore(a, b, a', b');
    PartMore(b, c, b', c');
  }

  /** A header whose name runs on beyond the text shows what is there. */
  lemma ActSees(x: Action, m: Parser, s: string, p: nat, n: nat)
    requires x.EmitField? && m.mark <= p < |s| && m.fieldStart < |s| && m.fieldStart + m.fieldLen == |s| + n && n > 0
    ensures AllPart(Act(x, m, s, p).events, Act(x, m, s + Fill(n, 'x'), p).events, Act(x, m, s + Fill(n, 'y'), p).events)
  {
    var b, c := Fill(n, 'x'), Fill(n, 'y');
    var lo, hi, k := m.fieldStart, m.fieldStart + m.fieldLen, |m.events|;
    var nb, nc := (s + b)[lo..hi], (s + c)[lo..hi];
    assert nb[m.fieldLen - 1] == 'x' && nc[m.fieldLen - 1] == 'y';
    assert Act(x, m, s, p).events[k] == Field("", Slice(s, m.mark, p));
    assert Act(x, m, s + b, p).events[k] == Field(nb, Slice(s + b, m.mark, p));
    assert Act(x, m, s + c, p).events[k] == Field(nc, Slice(s + c, m.mark, p));
  }

  /** An action all of whose text lies in front of p does the same whatever follows. */
  lemma ActBlindTwice(x: Action, base: nat, m: Parser, s: string, b: string, c: string, p: nat)
    requires Blind(x, base, false, m, s, p)
    ensures Act(x, m, s, p) == Act(x, m, s + b, p) == Act(x, m, s + c, p)
    ensures Act(x, m, s, p).mark <= p && Act(x, m, s, p).fieldStart <= p
  {
    hide Act;
    ActBlind(x, base, false, m, s, b, p);
    ActBlind(x, base, false, m, s, c, p);
  }

  /** An edge that delivers a header whose name runs on beyond the text. */
  lemma FireSees(e: Edge, f: Flow, m: Parser, s: string, p: nat) returns (n: nat)
    requires p < |s| && InFront(f, m, s, p) && FlowAt(f, m.cs, s[p], e) && !NamesInside(e, m, s, p)
    ensures AllPart(Fire(e, m, s, p).events, Fire(e, m, s + Fill(n, 'x'), p).events, Fire(e, m, s + Fill(n, 'y'), p).events)
  {
    hide Act, MarkFlow, NameFlow, QueryFlow, FieldsFlow, AllPart, Fill;
    var base := f.base(m.cs);
    var m1 := Act(e.a1, m, s, p);
    var m2 := Act(e.a2, m1, s, p);
    var m3 := Act(e.a3, m2, s, p);
    if !NameInside(e.a1, m, |s|) {
      n := m.fieldStart + m.fieldLen - |s|;
      ActSees(e.a1, m, s, p, n);
    } else if !NameInside(e.a2, m1, |s|) {
      n := m1.fieldStart + m1.fieldLen - |s|;
      ActBlindTwice(e.a1, base, m, s, Fill(n, 'x'), Fill(n, 'y'), p);
      ActSees(e.a2, m1, s, p, n);
    } else if !NameInside(e.a3, m2, |s|) {
      n := m2.fieldStart + m2.fieldLen - |s|;
      ActBlindTwice(e.a1, base, m, s, Fill(n, 'x'), Fill(n, 'y'), p);
      ActBlindTwice(e.a2, base, m1, s, Fill(n, 'x'), Fill(n, 'y'), p);
      ActSees(e.a3, m2, s, p, n);
    } else {
      n := m3.fieldStart + m3.fieldLen - |s|;
      ActBlindTwice(e.a1, base, m, s, Fill(n, 'x'), Fill(n, 'y'), p);
      ActBlindTwice(e.a2, base, m1, s, Fill(n, 'x'), Fill(n, 'y'), p);
      ActBlindTwice(e.a3, base, m2, s, Fill(n, 'x'), Fill(n, 'y'), p);
      ActSees(e.a4, m3, s, p, n);
    }
    FirePartsOn(e, m, s, s + Fill(n, 'x'), s + Fill(n, 'y'), p);
  }

  /** The callbacks of an edge part for good as soon as those of one of its actions do. */
  lemma FirePartsOn(e: Edge, m: Parser, s: string, u: string, v: string, p: nat)
    requires var a1, b1, c1 := Act(e.a1, m, s, p), Act(e.a1, m, u, p), Act(e.a1, m, v, p);
             var a2, b2, c2 := Act(e.a2, a1, s, p), Act(e.a2, b1, u, p), Act(e.a2, c1, v, p);
             var a3, b3, c3 := Act(e.a3, a2, s, p), Act(e.a3, b2, u, p), Act(e.a3, c2, v, p);
             || AllPart(a1.events, b1.events, c1.events) || AllPart(a2.events, b2.events, c2.events)
             || AllPart(a3.events, b3.events, c3.events)
             || AllPart(Act(e.a4, a3, s, p).events, Act(e.a4, b3, u, p).events, Act(e.a4, c3, v, p).events)
    ensures AllPart(Fire(e, m, s, p).events, Fire(e, m, u, p).events, Fire(e, m, v, p).events)
  {
    hide Act, AllPart;
    FireAddsEvents(e, m, s, p);
    FireAddsEvents(e, m, u, p);
    FireAddsEvents(e, m, v, p);
    var a, b, c := Fire(e, m, s, p).events, Fire(e, m, u, p).events, Fire(e, m, v, p).events;
    var a1, b1, c1 := Act(e.a1, m, s, p), Act(e.a1, m, u, p), Act(e.a1, m, v, p);
    var a2, b2, c2 := Act(e.a2, a1, s, p), Act(e.a2, b1, u, p), Act(e.a2, c1, v, p);
    var a3, b3, c3 := Act(e.a3, a2, s, p), Act(e.a3, b2, u, p), Act(e.a3, c2, v, p);
    if AllPart(a1.events, b1.events, c1.events) {
      AllPartMore(a1.events, b1.events, c1.events, a, b, c);
    } else if AllPart(a2.events, b2.events, c2.events) {
      AllPartMore(a2.events, b2.events, c2.events, a, b, c);
    } else if AllPart(a3.events, b3.events, c3.events) {
      AllPartMore(a3.events, b3.events, c3.events, a, b, c);
    }
  }

  /**
   A run that delivers a header whose name runs on beyond the text: two continuations of the same
   length lead to different callbacks, and either to others than no continuation at all.
   */
  lemma {:induction false} RunSees(t: Table, f: Flow, m: Parser, s: string, p: nat) returns (n: nat)
    requires Describes(f, t) && InFront(f, m, s, p) && !Contained(t, m, s, p)
    ensures AllPart(Run(t, m, s, p).0.events, Run(t, m, s + Fill(n, 'x'), p).0.events, Run(t, m, s + Fill(n, 'y'), p).0.events)
    decreases |s| - p
  {
    hide Fire, Act, NamesInside, AllPart, Fill, MarkFlow, NameFlow, QueryFlow, NumbersFlow, FieldsFlow;
    var e := t(m.cs, s[p]);
    assert FlowAt(f, m.cs, s[p], e);
    var m' := Fire(e, m, s, p);
    if !NamesInside(e, m, s, p) {
      n := FireSees(e, f, m, s, p);
      FireThenRun(t, m, s, p);
      FireThenRun(t, m, s + Fill(n, 'x'), p);
      FireThenRun(t, m, s + Fill(n, 'y'), p);
      AllPartMore(m'.events, Fire(e, m, s + Fill(n, 'x'), p).events, Fire(e, m, s + Fill(n, 'y'), p).events,
                  Run(t, m, s, p).0.events, Run(t, m, s + Fill(n, 'x'), p).0.events, Run(t, m, s + Fill(n, 'y'), p).0.events);
    } else {
      FireBlind(e, f, m, s, "", p);
      n := RunSees(t, f, m', s, p + 1);
      FireBlind(e, f, m, s, Fill(n, 'x'), p);
      FireBlind(e, f, m, s, Fill(n, 'y'), p);
    }
  }

  lemma FireThenRun(t: Table, m: Parser, s: string, p: nat)
    requires p < |s|
    ensures Fire(t(m.cs, s[p]), m, s, p).events <= Run(t, m, s, p).0.events
  {
    hide Fire;
    var e := t(m.cs, s[p]);
    if e.target != 0 && !e.Halts() { RunAddsEvents(t, Fire(e, m, s, p), s, p + 1); }
  }

  // ---------------------------------------------------------------- the theorem

  /** Two parsers that differ in dead registers only. */
  predicate Same(m: Parser, n: Parser) {
    Agree(NONE, m, n, 0)
  }

  /**
   Callback segmentation.  From a cut state, one call over a + b and two calls over a and then b
   make the same callbacks, leave the same state and consume the same bytes, provided the cut
   between a and b is again a cut state; if a already ends the parse, b is not looked at.
   */
  lemma CallbackSegmentation(t: Table, f: Flow, m: Parser, a: string, b: string)
    requires Describes(f, t) && IsCut(f, m.cs) && Contained(t, ZeroRegisters(m), a, 0)
    ensures Stopped(t, m.cs, a) ==> Execute(t, m, a + b) == Execute(t, m, a)
    ensures var (m1, n1) := Execute(t, m, a);
            !Stopped(t, m.cs, a) && Live(f, m1.cs) == NONE ==>
              var (m2, n2) := Execute(t, m1, b);
              && n1 == |a|
              && Same(Execute(t, m, a + b).0, m2)
              && Execute(t, m, a + b).1 == |a| + n2
  {
    hide Run, FlowAt;
    var z := ZeroRegisters(m);
    assert a[0..] == a;
    RunBlind(t, f, z, a, b, 0);
    RunControl(t, z, a, 0);
    ControlSegmentation(t, z.cs, a, b);
    var (m1, n1) := Execute(t, m, a);
    if !Stopped(t, m.cs, a) && Live(f, m1.cs) == NONE {
      RunShift(t, f, m1, ZeroRegisters(m1), a, b, 0);
    }
  }

  /**
   The condition is exact.  From a cut state, the callbacks of a call over a come first again, whatever
   follows a in the buffer, if and only if the call delivers no header whose name runs on beyond a.
   */
  lemma PrefixIff(t: Table, f: Flow, m: Parser, a: string)
    requires Describes(f, t) && IsCut(f, m.cs)
    ensures (forall b :: Execute(t, m, a).0.events <= Execute(t, m, a + b).0.events)
            <==> Contained(t, ZeroRegisters(m), a, 0)
  {
    hide Run, FlowAt, Contained, ContinuesAlike;
    var z := ZeroRegisters(m);
    if Contained(t, z, a, 0) {
      forall b
        ensures Execute(t, m, a).0.events <= Execute(t, m, a + b).0.events
      {
        RunBlindEvents(t, f, z, a, b);
      }
    } else {
      var n := RunSees(t, f, z, a, 0);
      PartsHere(Execute(t, m, a).0.events, Execute(t, m, a + Fill(n, 'x')).0.events);
    }
  }

  lemma PartsHere(a: seq<Event>, b: seq<Event>)
    requires Part(a, b)
    ensures !(a <= b)
  {
    PartMore(a, b, a, b);
  }

  lemma RunBlindEvents(t: Table, f: Flow, m: Parser, a: string, b: string)
    requires Describes(f, t) && InFront(f, m, a, 0) && Contained(t, m, a, 0)
    ensures Run(t, m, a, 0).0.events <= Run(t, m, a + b, 0).0.events
  {
    hide Run, FlowAt, Contained;
    RunBlind(t, f, m, a, b, 0);
    RunAddsEvents(t, Run(t, m, a, 0).0, a + b, |a|);
  }

  /** One call over a + b makes the callbacks of two calls, over a and then over b. */
  predicate ContinuesAlike(t: Table, m: Parser, a: string, b: string) {
    Execute(t, m, a + b).0.events == Execute(t, Execute(t, m, a).0, b).0.events
  }

  /** Behind a name that runs on, some continuation is taken for something else. */
  lemma RunOnTells(t: Table, f: Flow, m: Parser, a: string) returns (b: string)
    requires Describes(f, t) && IsCut(f, m.cs) && !Contained(t, ZeroRegisters(m), a, 0)
    ensures !ContinuesAlike(t, m, a, b)
  {
    hide Run, FlowAt, Contained;
    var m1 := Execute(t, m, a).0;
    var n := RunSees(t, f, ZeroRegisters(m), a, 0);
    b := Fill(n, 'x');
    RunAddsEvents(t, ZeroRegisters(m1), b, 0);
    PartMore(m1.events, Execute(t, m, a + b).0.events, Execute(t, m1, b).0.events, Execute(t, m, a + b).0.events);
  }

  /**
   So, when a leads from one cut state to another, cutting behind a changes no callback, whatever
   follows, if and only if the call over a delivers no header whose name runs on beyond a.
   */
  lemma CutIsHarmlessIff(t: Table, f: Flow, m: Parser, a: string)
    requires Describes(f, t) && IsCut(f, m.cs) && !Stopped(t, m.cs, a) && IsCut(f, Execute(t, m, a).0.cs)
    ensures (forall b :: ContinuesAlike(t, m, a, b)) <==> Contained(t, ZeroRegisters(m), a, 0)
  {
    hide Run, FlowAt, Contained, Stopped;
    var m1 := Execute(t, m, a).0;
    if Contained(t, ZeroRegisters(m), a, 0) {
      forall b
        ensures ContinuesAlike(t, m, a, b)
      {
        CallbackSegmentation(t, f, m, a, b);
      }
    } else {
      var b := RunOnTells(t, f, m, a);
    }
  }
}
