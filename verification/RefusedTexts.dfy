/**
 The first text of a head, a response's version or a request's method, for every way in which reads cut it:
 what of it the parser hands over, and when the connection closes for it.
 */
module RefusedTexts {
  import opened HttpText
  import opened ParserTables
  import opened Machine
  import opened Segmentation
  import opened HeaderGrammar
  import opened MessageHead
  import opened RequestHead
  import opened HttpMessages
  import opened ByteStream
  import opened Framing
  import opened HeadReceiving
  import opened ChunkedDecoding
  import opened ParserFlows
  import opened ResponseRoundTrip
  import opened RequestExchange
  import opened RequestQueries

  // ---------------------------------------------------------------- any table

  /** The callback for the first text. */
  function Handed(emit: Action, text: string): Event {
    if emit.EmitVersion? then Version(text) else Method(text)
  }

  /** The states along the text: it is marked at its first byte, and handed over at the space behind it. */
  ghost predicate Spelled(t: Table, path: seq<int>, text: string, emit: Action, next: int) {
    && text != "" && |path| == |text| + 1 && path[0] == 1 && next != 0 && (emit.EmitVersion? || emit.EmitMethod?)
    && t(1, text[0]) == Go(path[1], Mark)
    && (forall i :: 0 < i < |text| ==> t(path[i], text[i]) == Go(path[i + 1]))
    && (forall i :: 0 < i <= |text| ==> path[i] != 0)
    && t(path[|text|], ' ') == Go(next, emit)
  }

  /** No state along the text is final, and no call that starts in one throws. */
  ghost predicate Early(d: Dialect, path: seq<int>) {
    forall i :: 0 <= i < |path| ==> !d.final(path[i]) && QuietFrom(d, path[i])
  }

  ghost predicate QuietFrom(d: Dialect, cs: int) {
    forall m: Parser, buffer: string :: m.cs == cs && m.events == [] ==> !Raised(d, Execute(d.table, m, buffer).0)
  }

  /** The text from x on, byte by byte. */
  lemma FromByte(buffer: string, p: nat, text: string, x: nat, y: nat)
    requires x < y <= |text| && At(buffer, p, text[x..y])
    ensures p < |buffer| && buffer[p] == text[x] && At(buffer, p + 1, text[x + 1..y])
  {
    assert text[x..y] == [text[x]] + text[x + 1..y];
    AtChar(buffer, p, text[x..y], 0);
    AtSplit(buffer, p, [text[x]], text[x + 1..y]);
  }

  /** The bytes from x up to y, behind the first one of the text, do nothing but lead on. */
  lemma {:induction false} Along(t: Table, path: seq<int>, text: string, emit: Action, next: int,
                                 m: Parser, buffer: string, p: nat, x: nat, y: nat)
    requires Spelled(t, path, text, emit, next) && 0 < x <= y <= |text| && m.cs == path[x]
    requires At(buffer, p, text[x..y])
    ensures Run(t, m, buffer, p) == Run(t, m.(cs := path[y]), buffer, p + (y - x))
    decreases y - x
  {
    hide Run, At;
    if x < y {
      FromByte(buffer, p, text, x, y);
      Step(t, m, buffer, p, Go(path[x + 1]));
      FireSkips(path[x + 1], m, buffer, p);
      Along(t, path, text, emit, next, m.(cs := path[x + 1]), buffer, p + 1, x + 1, y);
    }
  }

  lemma FireSkips(target: int, m: Parser, buffer: string, p: nat)
    ensures Fire(Go(target), m, buffer, p) == m.(cs := target)
  {
  }

  lemma FirstMark(t: Table, path: seq<int>, text: string, emit: Action, next: int, m: Parser, buffer: string)
    requires Spelled(t, path, text, emit, next) && m.cs == path[0] && m.mark == 0 && buffer != "" && buffer[0] == text[0]
    ensures Run(t, m, buffer, 0) == Run(t, m.(cs := path[1]), buffer, 1)
  {
    hide Run;
    StepOne(t, m, buffer, 0, path[1], Mark);
  }

  lemma PathLength(t: Table, path: seq<int>, text: string, emit: Action, next: int)
    requires Spelled(t, path, text, emit, next)
    ensures text != "" && |path| == |text| + 1
  {
  }

  /** A call that starts with the text and sees it up to y. */
  lemma CallFromStart(t: Table, path: seq<int>, text: string, emit: Action, next: int, m: Parser, buffer: string, y: nat)
    requires Spelled(t, path, text, emit, next) && 0 < y <= |text| && |path| == |text| + 1 && m.cs == path[0] && m.mark == 0
    requires At(buffer, 0, text[0..y])
    ensures Run(t, m, buffer, 0) == Run(t, m.(cs := path[y]), buffer, y)
  {
    hide *;
    FromByte(buffer, 0, text, 0, y);
    FirstMark(t, path, text, emit, next, m, buffer);
    var m1 := m.(cs := path[1]);
    assert m1.(cs := path[y]) == m.(cs := path[y]) && 1 + (y - 1) == y;
    Along(t, path, text, emit, next, m1, buffer, 1, 1, y);
  }

  /** A call that starts at x and sees the text up to y. */
  lemma CallAlong(t: Table, path: seq<int>, text: string, emit: Action, next: int, m: Parser, buffer: string, x: nat, y: nat)
    requires Spelled(t, path, text, emit, next) && x < y <= |text| && |path| == |text| + 1 && m.cs == path[x] && m.mark == 0
    requires At(buffer, 0, text[x..y])
    ensures Run(t, m, buffer, 0) == Run(t, m.(cs := path[y]), buffer, y - x)
  {
    hide *;
    if x == 0 {
      CallFromStart(t, path, text, emit, next, m, buffer, y);
    } else {
      Along(t, path, text, emit, next, m, buffer, 0, x, y);
    }
  }

  /** A read that ends within the text, or at its end: nothing is handed over. */
  lemma ReadWithin(d: Dialect, path: seq<int>, text: string, emit: Action, next: int, m: Parser, x: nat, s: Arrivals)
    requires Spelled(d.table, path, text, emit, next) && Early(d, path) && x < |text| && m.cs == path[x] && m.events == []
    requires Steady(s, BUFFER) && s != [] && |s[0]| <= |text| - x && s[0] == text[x..x + |s[0]|]
    ensures var m1 := Execute(d.table, m, s[0]).0;
            && ReceiveHead(d, m, "", s) == ReceiveHead(d, m1, "", s[1..])
            && m1.cs == path[x + |s[0]|] && m1.events == []
  {
    hide Run, Spelled, Early, Concat, Raised;
    var a, y := s[0], x + |s[0]|;
    var z := ZeroRegisters(m);
    PathLength(d.table, path, text, emit, next);
    assert "" + a == a && a[|a|..] == "" && a[0..0 + |a|] == a;
    CallAlong(d.table, path, text, emit, next, z, a, x, y);
    RunIsOver(d.table, z.(cs := path[y]), a);
    QuietHere(d, path, x, m, a);
    StateAlong(d, path, text, emit, next, y);
  }

  lemma StateAlong(d: Dialect, path: seq<int>, text: string, emit: Action, next: int, y: nat)
    requires Spelled(d.table, path, text, emit, next) && Early(d, path) && 0 < y <= |text|
    ensures path[y] != 0 && !d.final(path[y])
  {
  }

  /** A read that brings the space behind the text: what this call saw of the text is handed over. */
  lemma ReadBeyond(d: Dialect, path: seq<int>, text: string, emit: Action, next: int, m: Parser, x: nat, buffer: string)
    requires Spelled(d.table, path, text, emit, next) && x <= |text| && m.cs == path[x] && m.events == []
    requires |buffer| > |text| - x && buffer[..|text| - x] == text[x..] && buffer[|text| - x] == ' '
    ensures [Handed(emit, text[x..])] <= Execute(d.table, m, buffer).0.events
  {
    hide Run;
    var z, q := ZeroRegisters(m), |text| - x;
    assert buffer[0..0 + q] == text[x..|text|];
    if x < |text| { CallAlong(d.table, path, text, emit, next, z, buffer, x, |text|); }
    assert z.(cs := path[|text|]) == z || x < |text|;
    StepOne(d.table, z.(cs := path[|text|]), buffer, q, next, emit);
    var m' := Act(emit, z.(cs := path[|text|]), buffer, q).(cs := next);
    assert buffer[0..q] == text[x..];
    assert m'.events == [Handed(emit, text[x..])];
    RunAddsEvents(d.table, m', buffer, q + 1);
  }

  lemma RefusedCall(d: Dialect, m: Parser, e: Event, s: Arrivals)
    requires Steady(s, BUFFER) && s != [] && d.rejects(e) && [e] <= Execute(d.table, m, s[0]).0.events
    requires !Raised(d, Execute(d.table, m, s[0]).0)
    ensures ReceiveHead(d, m, "", s) == Closed
  {
    hide Execute;
    assert "" + s[0] == s[0];
    assert Execute(d.table, m, s[0]).0.events[0] == e;
  }

  lemma TextThere(s: Arrivals, text: string, x: nat, tail: string)
    requires s != [] && x <= |text| && Concat(s) == text[x..] + (" " + tail)
    ensures |s[0]| <= |text| - x ==>
              && s[0] == text[x..x + |s[0]|] && Concat(s[1..]) == text[x + |s[0]|..] + (" " + tail)
    ensures |s[0]| > |text| - x ==> s[0][..|text| - x] == text[x..] && s[0][|text| - x] == ' '
  {
    var a, b, all := s[0], Concat(s[1..]), text[x..] + (" " + tail);
    assert a + b == all && a == all[..|a|] && b == all[|a|..];
    if |a| <= |text| - x {
      assert all[..|a|] == text[x..][..|a|] == text[x..x + |a|];
      assert all[|a|..] == text[x..][|a|..] + (" " + tail) && text[x..][|a|..] == text[x + |a|..];
    } else {
      assert a[|text| - x] == all[|text| - x] == (" " + tail)[0];
      assert all[..|a|][..|text| - x] == text[x..];
    }
  }

  /** Reads from x on: what is handed over begins where the last of them ended that did not go beyond the text. */
  lemma {:induction false} ClosesFrom(d: Dialect, path: seq<int>, text: string, emit: Action, next: int, m: Parser, x: nat,
                                      s: Arrivals, tail: string)
    requires Spelled(d.table, path, text, emit, next) && Early(d, path)
    requires x <= |text| && m.cs == path[x] && m.events == []
    requires Steady(s, BUFFER) && Concat(s) == text[x..] + (" " + tail)
    requires d.rejects(Handed(emit, text[x + LastCut("", s, |text| - x)..]))
    ensures ReceiveHead(d, m, "", s) == Closed
    decreases |s|
  {
    hide Execute, Concat, LastCut, Steady, Spelled, Early, ReceiveHead, Raised, QuietFrom;
    PathLength(d.table, path, text, emit, next);
    assert Concat(s) != "";
    SomethingLeft(s);
    TextThere(s, text, x, tail);
    CutsOfFirst(s, |text| - x);
    SteadyTail(s, BUFFER);
    if |s[0]| <= |text| - x {
      ReadWithin(d, path, text, emit, next, m, x, s);
      ClosesFrom(d, path, text, emit, next, Execute(d.table, m, s[0]).0, x + |s[0]|, s[1..], tail);
    } else {
      ReadBeyond(d, path, text, emit, next, m, x, s[0]);
      QuietHere(d, path, x, m, s[0]);
      RefusedCall(d, m, Handed(emit, text[x..]), s);
    }
  }

  lemma QuietHere(d: Dialect, path: seq<int>, x: nat, m: Parser, buffer: string)
    requires Early(d, path) && x < |path| && m.cs == path[x] && m.events == []
    ensures !Raised(d, Execute(d.table, m, buffer).0)
  {
    hide Execute, Raised;
    assert QuietFrom(d, path[x]);
  }

  lemma CutsOfFirst(s: Arrivals, n: nat)
    requires Steady(s, BUFFER) && s != []
    ensures |s[0]| <= n ==> LastCut("", s, n) == |s[0]| + LastCut("", s[1..], n - |s[0]|)
    ensures |s[0]| > n ==> LastCut("", s, n) == 0
  {
    hide LastCut, Boundary;
    SteadyTail(s, BUFFER);
    if |s[0]| <= n {
      CutsShift("", s, n + 1);
    } else {
      CutsBehindBuffer("", s);
      LastCutIs("", s, n, 0);
    }
  }

  // ---------------------------------------------------------------- versions

  function VersionPath(major: string, minor: string): (path: seq<int>) {
    seq(7 + |major| + |minor|, i => if i == 0 then 1 else if i < 6 then 7 + i else if i < 6 + |major| then 13
                                    else if i == 6 + |major| then 14 else 15)
  }

  lemma VersionSpelled(major: string, minor: string)
    requires IsNumber(major) && IsNumber(minor)
    ensures Spelled(ResponseEdge, VersionPath(major, minor), VersionText(major, minor), EmitVersion, 16)
  {
    hide ResponseEdge;
    var t, path := VersionText(major, minor), VersionPath(major, minor);
    assert IsDigitIn(major[0], 10);
    ProtocolEdges(major[0]);
    StatusLineEdges();
    forall i | 0 < i < |t|
      ensures ResponseEdge(path[i], t[i]) == Go(path[i + 1])
    {
      if 5 < i < 5 + |major| { assert t[i] == major[i - 5] && IsDigitIn(major[i - 5], 10); }
      if i > 5 + |major| { assert t[i] == minor[i - 6 - |major|] && IsDigitIn(minor[i - 6 - |major|], 10); }
    }
  }

  lemma VersionEarly(path: seq<int>)
    requires forall i :: 0 <= i < |path| ==> path[i] != 120
    ensures Early(RESPONSES, path)
  {
    NeverRaises();
  }

  /** Of a version text that reads have cut, only the end of it can be taken for one of the two versions: nothing. */
  lemma KnownVersion(major: string, minor: string, k: nat)
    requires IsNumber(major) && IsNumber(minor) && k <= |VersionText(major, minor)|
    ensures VersionByte(VersionText(major, minor)[k..]) != 0 <==>
              k == |VersionText(major, minor)| || (k == 0 && major == "1" && (minor == "1" || minor == "0"))
  {
    var t := VersionText(major, minor);
    assert t[..5] == "HTTP/" && |t| == 6 + |major| + |minor|;
    assert IsDigitIn(major[0], 10);
    if k == 0 {
      assert t[0..] == t;
      WholeVersion(major, minor);
    } else if k < |t| {
      assert t[k..][0] == t[k];
      NoSecondH(major, minor, k);
      assert "HTTP/1.1"[0] == 'H' && "HTTP/1.0"[0] == 'H';
    } else {
      assert t[k..] == "";
    }
  }

  lemma NoSecondH(major: string, minor: string, k: nat)
    requires IsNumber(major) && IsNumber(minor) && 0 < k < |VersionText(major, minor)|
    ensures VersionText(major, minor)[k] != 'H'
  {
    var t := VersionText(major, minor);
    if 5 <= k < 5 + |major| { assert t[k] == major[k - 5] && IsDigitIn(major[k - 5], 10); }
    if k > 5 + |major| { assert t[k] == minor[k - 6 - |major|] && IsDigitIn(minor[k - 6 - |major|], 10); }
  }

  lemma WholeVersion(major: string, minor: string)
    requires IsNumber(major) && IsNumber(minor)
    ensures VersionByte(VersionText(major, minor)) != 0 <==> major == "1" && (minor == "1" || minor == "0")
  {
    var t := VersionText(major, minor);
    assert t[5] == major[0] && t[5 + |major|] == '.' && t[6 + |major|] == minor[0];
    assert IsDigitIn(major[0], 10) && |t| == 6 + |major| + |minor|;
    if VersionByte(t) != 0 {
      var w := if t <= "HTTP/1.1" then "HTTP/1.1" else "HTTP/1.0";
      assert t <= w && |t| == 8;
      assert major == ['1'] && minor == [w[7]];
    }
    if major == "1" && minor == "1" { assert t == "HTTP/1.1"; }
    if major == "1" && minor == "0" { assert t == "HTTP/1.0"; }
  }

  /**
   A version that is refused, for every stream that begins with a version and a space, whatever follows, and
   for every way in which reads cut it.  Unless the version is 1.1 or 1.0 and no read ends within its text,
   or a read ends exactly behind it, the connection closes.
   */
  lemma VersionCloses(major: string, minor: string, tail: string, s: Arrivals)
    requires IsNumber(major) && IsNumber(minor) && Steady(s, BUFFER)
    requires Concat(s) == VersionText(major, minor) + (" " + tail)
    requires var n := |VersionText(major, minor)|;
             var k := LastCut("", s, n);
             k < n && !(k == 0 && major == "1" && (minor == "1" || minor == "0"))
    ensures ReceiveResponse(s) == Closed
  {
    hide LastCut, Steady, Concat, VersionText, ReceiveHead, Spelled, Early, VersionByte;
    var t := VersionText(major, minor);
    var k := LastCut("", s, |t|);
    KnownVersion(major, minor, k);
    VersionSpelled(major, minor);
    var path := VersionPath(major, minor);
    VersionEarly(path);
    assert t[0..] == t;
    VersionRefused(t[k..]);
    ClosesFrom(RESPONSES, path, t, EmitVersion, 16, NewParser(-1), 0, s, tail);
    ClosedHead(s);
  }

  lemma VersionRefused(text: string)
    requires VersionByte(text) == 0
    ensures RESPONSES.rejects(Handed(EmitVersion, text))
  {
  }

  lemma ClosedHead(s: Arrivals)
    requires ReceiveHead(RESPONSES, NewParser(-1), "", s) == Closed
    ensures ReceiveResponse(s) == Closed
  {
  }

  /** The status line, from behind its version on. */
  function BehindVersionText(code: string, reason: string): string {
    " " + ((code + " ") + (reason + CRLF))
  }

  lemma FromSpace(m: Parser, code: string, reason: string, buffer: string) returns (m': Parser)
    requires m.cs == 15 && m.mark == 0 && m.events == []
    requires IsNumber(code) && reason != "" && IsLineText(reason) && At(buffer, 0, BehindVersionText(code, reason))
    ensures var n := ToInt32(Clamp64(Value(code, 10)));
            && Same(m', m.(cs := 20, status := n, events := [Version(""), StatusCode(n), Reason(reason)])) && m'.cs == 20
    ensures Run(ResponseEdge, m, buffer, 0) == Run(ResponseEdge, m', buffer, |BehindVersionText(code, reason)|)
  {
    hide Run, ResponseEdge, Value, ToInt32, Clamp64, At, IsLineText;
    AtSplit(buffer, 0, " ", (code + " ") + (reason + CRLF));
    AtSplit(buffer, 1, code + " ", reason + CRLF);
    AtChar(buffer, 0, " ", 0);
    BehindVersion();
    StepOne(ResponseEdge, m, buffer, 0, 16, EmitVersion);
    var m1 := Act(EmitVersion, m, buffer, 0).(cs := 16);
    assert m1 == m.(cs := 16, events := [Version("")]);
    var m2 := CodeRun(m1, buffer, 1, code);
    m' := ReasonRun(m2, buffer, 1 + |code| + 1, reason, CRLF);
  }

  /** A first read that ends exactly behind the version. */
  lemma VersionRead(major: string, minor: string, s: Arrivals) returns (m: Parser)
    requires IsNumber(major) && IsNumber(minor) && Steady(s, BUFFER) && s != [] && s[0] == VersionText(major, minor)
    ensures m.cs == 15 && Same(m, NewParser(-1).(cs := 15))
    ensures ReceiveHead(RESPONSES, NewParser(-1), "", s) == ReceiveHead(RESPONSES, m, "", s[1..])
  {
    hide Run, VersionText, ResponseEdge, ReceiveHead, Spelled, Early;
    var t, path, m0 := s[0], VersionPath(major, minor), NewParser(-1);
    VersionSpelled(major, minor);
    VersionEarly(path);
    PathLength(ResponseEdge, path, t, EmitVersion, 16);
    LastState(major, minor);
    assert t[0..|t|] == t && t[0..0 + |t|] == t;
    ReadWithin(RESPONSES, path, t, EmitVersion, 16, m0, 0, s);
    CallAlong(ResponseEdge, path, t, EmitVersion, 16, ZeroRegisters(m0), t, 0, |t|);
    RunIsOver(ResponseEdge, ZeroRegisters(m0).(cs := 15), t);
    m := Execute(ResponseEdge, m0, t).0;
  }

  lemma LastState(major: string, minor: string)
    requires IsNumber(major) && IsNumber(minor)
    ensures |VersionPath(major, minor)| == |VersionText(major, minor)| + 1
    ensures VersionPath(major, minor)[|VersionText(major, minor)|] == 15
  {
  }

  /**
   When the first read ends exactly behind the version, the empty text is handed over instead of it, which
   passes for the beginning of "HTTP/1.1": a response of any version is then received as one of 1.1.
   */
  lemma AnyVersionPasses(major: string, minor: string, code: string, reason: string, lines: seq<Line>, body: string,
                         s: Arrivals, rest: string)
    requires IsNumber(major) && IsNumber(minor) && IsNumber(code) && reason != "" && IsLineText(reason) && AllValid(lines)
    requires forall i :: 0 <= i < |lines| ==> !Chunks(lines[i].name, lines[i].value)
    requires BodyLength(SetAll(map[], lines)) == |body| < 0x8000_0000
    requires Steady(s, BUFFER) && s != [] && s[0] == VersionText(major, minor)
    requires Concat(s[1..]) == ((BehindVersionText(code, reason) + BlockText(lines)) + CRLF) + (body + rest)
    requires var n := |BehindVersionText(code, reason)|; CutsAtLineEnds(s[1..], n, lines, n + |BlockText(lines)| + 2)
    ensures var x := ReceiveResponse(s);
            x.Got? && x.value.0 == Response(ToInt32(Clamp64(Value(code, 10))), 0x11, true, reason, body, SetAll(map[], lines))
  {
    hide CutsAtLineEnds, BlockText, AllValid, ReceiveHead, ReceiveFixed, ReceiveChunks, Run, ResponseEdge, AfterBlock, AfterHead, SetAll,
      Concat, Value, ToInt32, Clamp64, Chunks, ContentLength, VersionText, BuildResponse, BehindVersionText, IsLineText, Leaves;
    var m := VersionRead(major, minor, s);
    SteadyTail(s, BUFFER);
    var n := UnseenHead(m, code, reason, lines, body + rest, s[1..]);
    var r := ReceiveHead(RESPONSES, m, "", s[1..]);
    LeavesPart(r, s[1..], |BehindVersionText(code, reason)| + |BlockText(lines)| + 2, body + rest);
    var m1 := r.value.0;
    HeadSays(n, m1, code, reason, lines);
    BodyIfAny(body, ContentLength(SetAll(map[], lines)), r.value.1, r.value.2, rest);
  }

  /** The first read goes at least as far as the lines begin. */
  lemma StartIsWhole(s: Arrivals, lines: seq<Line>, at: nat, n: nat)
    requires s != [] && at <= n && CutsAtLineEnds(s, at, lines, n)
    ensures |s[0]| >= at
  {
    hide BlockText;
    assert CutAt(s, |s[0]|);
  }

  lemma UnseenHead(m: Parser, code: string, reason: string, lines: seq<Line>, tail: string, s: Arrivals) returns (n: Parser)
    requires m.cs == 15 && Same(m, NewParser(-1).(cs := 15))
    requires IsNumber(code) && reason != "" && IsLineText(reason) && AllValid(lines) && Steady(s, BUFFER)
    requires var start := BehindVersionText(code, reason);
             && Concat(s) == ((start + BlockText(lines)) + CRLF) + tail
             && CutsAtLineEnds(s, |start|, lines, |start| + |BlockText(lines)| + 2)
    ensures var c := ToInt32(Clamp64(Value(code, 10)));
            n.events == [Version(""), StatusCode(c), Reason(reason)] && !n.chunked && AtLineStart(n.cs)
    ensures var r := ReceiveHead(RESPONSES, m, "", s);
            && Leaves(r, s, |BehindVersionText(code, reason)| + |BlockText(lines)| + 2, tail)
            && Same(r.value.0, AfterHead(AfterBlock(n, lines)))
  {
    hide Run, ResponseEdge, AfterBlock, AfterHead, BlockText, AllValid, ReceiveHead, Value, ToInt32, Clamp64, Leaves;
    var start := BehindVersionText(code, reason);
    SomethingLeft(s);
    StartIsWhole(s, lines, |start|, |start| + |BlockText(lines)| + 2);
    assert Concat(s) == start + (BlockText(lines) + CRLF + tail);
    assert s[0][0..|start|] == start by {
      assert (s[0] + Concat(s[1..]))[..|start|] == start;
    }
    var z := ZeroRegisters(m);
    var m1 := FromSpace(z, code, reason, s[0]);
    var c := ToInt32(Clamp64(Value(code, 10)));
    n := z.(cs := 20, status := c, events := [Version(""), StatusCode(c), Reason(reason)]);
    ReceiveLines(m, m1, n, start, lines, CRLF, tail, s);
  }

  lemma HeadSays(n: Parser, m: Parser, code: string, reason: string, lines: seq<Line>)
    requires IsNumber(code) && AllValid(lines) && !n.chunked && AtLineStart(n.cs)
    requires n.events == [Version(""), StatusCode(ToInt32(Clamp64(Value(code, 10)))), Reason(reason)]
    requires Same(m, AfterHead(AfterBlock(n, lines)))
    requires forall i :: 0 <= i < |lines| ==> !Chunks(lines[i].name, lines[i].value)
    ensures !m.chunked
    ensures BuildResponse(m.events)
            == Response(ToInt32(Clamp64(Value(code, 10))), 0x11, true, reason, "", SetAll(map[], lines))
  {
    hide Chunks, Line.Valid, Value, ToInt32, Clamp64, BuildResponse, ResponseRoundTrip.DeliverAll, SetAll, AfterBlock, Fields;
    var start := n.events;
    AfterBlockFacts(n, lines);
    assert m.events == start + (Fields(lines) + [HeaderDone]);
    StartBuilds("", ToInt32(Clamp64(Value(code, 10))), reason);
    BuildMore(start, Fields(lines) + [HeaderDone]);
    BuildMore(start, Fields(lines));
    DeliverFields(BuildResponse(start), lines);
    DeliverLast(BuildResponse(start), Fields(lines));
  }

  // ---------------------------------------------------------------- methods

  function MethodPath(n: nat): (path: seq<int>)
    requires n <= 20
    ensures |path| == n + 1
  {
    seq(n + 1, i => if i <= 0 || i > 20 then 1 else MethodState(i))
  }

  lemma MethodSpelled(text: string)
    requires IsMethod(text)
    ensures Spelled(RequestEdge, MethodPath(|text|), text, EmitMethod, 3)
  {
    hide RequestEdge;
    var path := MethodPath(|text|);
    MethodStarts(text[0]);
    FirstMethodState();
    forall i | 0 < i < |text|
      ensures RequestEdge(path[i], text[i]) == Go(path[i + 1])
    {
      MethodStep(i, text[i]);
    }
    MethodEnds(|text|);
  }

  lemma MethodEarly(n: nat)
    requires n <= 20
    ensures Early(REQUESTS, MethodPath(n))
  {
    hide Execute, MethodState;
    var path := MethodPath(n);
    forall i | 0 <= i < |path|
      ensures !RequestFinal(path[i]) && QuietFrom(REQUESTS, path[i])
    {
      MethodStateIsEarly(i);
      forall m: Parser, buffer: string | m.cs == path[i] && m.events == []
        ensures !Raised(REQUESTS, Execute(RequestEdge, m, buffer).0)
      {
        OutsideIsQuiet(m, buffer);
      }
    }
  }

  lemma MethodStateIsEarly(i: nat)
    requires i <= 20
    ensures var cs := if i == 0 then 1 else MethodState(i); !RequestFinal(cs) && !RequestQuery(cs)
  {
  }

  /**
   A method that is refused: for every stream that begins with a method and a space, and for every way in
   which reads cut it, the part of the method behind the last cut is what is looked up; when no method's name
   begins it, the connection closes.
   */
  lemma MethodCloses(text: string, tail: string, s: Arrivals)
    requires IsMethod(text) && Steady(s, BUFFER) && Concat(s) == text + (" " + tail)
    requires forall name :: IsKnownMethod(name) ==> !(name <= text[LastCut("", s, |text|)..])
    ensures ReceiveRequest(s) == Closed
  {
    assert |text| <= 20;
    hide LastCut, Steady, Concat, ReceiveHead, Spelled, Early, IsMethod, MethodOf, IsKnownMethod;
    var k := LastCut("", s, |text|);
    MethodSpelled(text);
    MethodEarly(|text|);
    assert text[0..] == text;
    MethodRefused(text[k..]);
    ClosesFrom(REQUESTS, MethodPath(|text|), text, EmitMethod, 3, NewParser(0), 0, s, tail);
    ClosedRequestHead(s);
  }

  lemma MethodRefused(text: string)
    requires forall name :: IsKnownMethod(name) ==> !(name <= text)
    ensures REQUESTS.rejects(Handed(EmitMethod, text))
  {
    hide MethodOf, IsKnownMethod;
    if MethodOf(text).Some? { MethodIff(text, MethodOf(text).value); }
  }

  lemma ClosedRequestHead(s: Arrivals)
    requires ReceiveHead(REQUESTS, NewParser(0), "", s) == Closed
    ensures ReceiveRequest(s) == Closed
  {
  }
}
