/**
 Whole message heads on the response table: status line, header lines, blank line; and the
 chunk-size line, which the same table reads.
 */
module MessageHead {
  import opened HttpText
  import opened ParserTables
  import opened Machine
  import opened Segmentation
  import opened HeaderGrammar

  /** Over a stretch on which the state loops without acting. */
  lemma {:induction false} Loop(t: Table, m: Parser, buffer: string, p: nat, s: string)
    requires At(buffer, p, s) && m.cs != 0
    requires forall i :: 0 <= i < |s| ==> t(m.cs, s[i]) == Go(m.cs)
    ensures Run(t, m, buffer, p) == Run(t, m, buffer, p + |s|)
    decreases |s|
  {
    hide Run;
    if s != "" {
      AtChar(buffer, p, s, 0);
      Step(t, m, buffer, p, Go(m.cs));
      assert s == s[..1] + s[1..];
      AtSplit(buffer, p, s[..1], s[1..]);
      Loop(t, m, buffer, p + 1, s[1..]);
    }
  }

  /** Over a word that the states spell out one by one. */
  lemma {:induction false} Spell(t: Table, m: Parser, buffer: string, p: nat, s: string)
    requires At(buffer, p, s) && m.cs > 0
    requires forall i :: 0 <= i < |s| ==> t(m.cs + i, s[i]) == Go(m.cs + i + 1)
    ensures Run(t, m, buffer, p) == Run(t, m.(cs := m.cs + |s|), buffer, p + |s|)
    decreases |s|
  {
    hide Run;
    if s == "" {
      assert m.(cs := m.cs + |s|) == m;
    } else {
      AtChar(buffer, p, s, 0);
      Step(t, m, buffer, p, Go(m.cs + 1));
      assert s == s[..1] + s[1..];
      AtSplit(buffer, p, s[..1], s[1..]);
      Spell(t, m.(cs := m.cs + 1), buffer, p + 1, s[1..]);
    }
  }

  // ---------------------------------------------------------------- the status line

  /** A run of digits. */
  predicate IsNumber(s: string) {
    s != "" && AllDigits(s, 10)
  }

  function StatusText(major: string, minor: string, code: string, reason: string, eol: string): string {
    "HTTP/" + (major + ("." + (minor + (" " + (code + (" " + (reason + eol)))))))
  }

  function VersionText(major: string, minor: string): string {
    "HTTP/" + (major + ("." + minor))
  }

  function AfterStatus(m: Parser, major: string, minor: string, code: string, reason: string): Parser
    requires AllDigits(code, 10)
  {
    var n := ToInt32(Clamp64(Value(code, 10)));
    m.(cs := 20, status := n,
       events := m.events + [Version(VersionText(major, minor)), StatusCode(n), Reason(reason)])
  }

  /** The letters "HTTP/" and the first digit behind them. */
  lemma ProtocolRun(m: Parser, buffer: string, p: nat, d: char) returns (m': Parser)
    requires m.cs == 1 && At(buffer, p, "HTTP/") && p + 5 < |buffer| && buffer[p + 5] == d && IsDigit(d)
    ensures m' == m.(cs := 13, mark := p)
    ensures Run(ResponseEdge, m, buffer, p) == Run(ResponseEdge, m', buffer, p + 6)
  {
    hide Run, ResponseEdge, Fire;
    ProtocolEdges(d);
    AtChar(buffer, p, "HTTP/", 0);
    AtChar(buffer, p, "HTTP/", 1);
    AtChar(buffer, p, "HTTP/", 2);
    AtChar(buffer, p, "HTTP/", 3);
    AtChar(buffer, p, "HTTP/", 4);
    StepOne(ResponseEdge, m, buffer, p, 8, Mark);
    m' := m.(cs := 13, mark := p);
    StepOne(ResponseEdge, m'.(cs := 8), buffer, p + 1, 9, Skip);
    StepOne(ResponseEdge, m'.(cs := 9), buffer, p + 2, 10, Skip);
    StepOne(ResponseEdge, m'.(cs := 10), buffer, p + 3, 11, Skip);
    StepOne(ResponseEdge, m'.(cs := 11), buffer, p + 4, 12, Skip);
    StepOne(ResponseEdge, m'.(cs := 12), buffer, p + 5, 13, Skip);
  }

  lemma ProtocolEdges(d: char)
    requires IsDigit(d)
    ensures ResponseEdge(1, 'H') == Go(8, Mark) && ResponseEdge(8, 'T') == Go(9) && ResponseEdge(9, 'T') == Go(10)
    ensures ResponseEdge(10, 'P') == Go(11) && ResponseEdge(11, '/') == Go(12) && ResponseEdge(12, d) == Go(13)
  {
  }

  lemma StatusLineEdges()
    ensures forall c {:trigger IsDigit(c)} :: IsDigit(c) ==>
              ResponseEdge(13, c) == Go(13) && ResponseEdge(14, c) == ResponseEdge(15, c) == Go(15)
    ensures ResponseEdge(13, '.') == Go(14) && ResponseEdge(15, ' ') == Go(16, EmitVersion)
    ensures forall c {:trigger IsLineChar(c)} :: IsLineChar(c) ==>
              ResponseEdge(18, c) == Go(19, Mark) && ResponseEdge(19, c) == Go(19)
  {
  }

  lemma MinorRun(m: Parser, buffer: string, p: nat, minor: string)
    requires m.cs == 14 && IsNumber(minor) && At(buffer, p, minor)
    ensures Run(ResponseEdge, m, buffer, p) == Run(ResponseEdge, m.(cs := 15), buffer, p + |minor|)
  {
    hide Run, ResponseEdge;
    StatusLineEdges();
    AtChar(buffer, p, minor, 0);
    Step(ResponseEdge, m, buffer, p, Go(15));
    assert minor == minor[..1] + minor[1..];
    AtSplit(buffer, p, minor[..1], minor[1..]);
    Loop(ResponseEdge, m.(cs := 15), buffer, p + 1, minor[1..]);
  }

  lemma MajorRun(m: Parser, buffer: string, p: nat, major: string)
    requires m.cs == 13 && AllDigits(major, 10) && At(buffer, p, major) && At(buffer, p + |major|, ".")
    ensures Run(ResponseEdge, m, buffer, p) == Run(ResponseEdge, m.(cs := 14), buffer, p + |major| + 1)
  {
    hide Run, ResponseEdge, Fire, At;
    StatusLineEdges();
    AtText(buffer, p, major);
    AtChar(buffer, p + |major|, ".", 0);
    Loop(ResponseEdge, m, buffer, p, major);
    StepOne(ResponseEdge, m, buffer, p + |major|, 14, Skip);
  }

  /** From behind the first digit of the version to the space behind it. */
  lemma VersionRun(m: Parser, buffer: string, p: nat, major: string, minor: string) returns (m': Parser)
    requires m.cs == 13 && m.mark <= p && AllDigits(major, 10) && IsNumber(minor)
    requires var q := p + |major|;
             At(buffer, p, major) && At(buffer, q, ".") && At(buffer, q + 1, minor) && At(buffer, q + 1 + |minor|, " ")
    ensures var q := p + |major| + 1 + |minor|;
            m' == m.(cs := 16, events := m.events + [Version(buffer[m.mark..q])])
            && Run(ResponseEdge, m, buffer, p) == Run(ResponseEdge, m', buffer, q + 1)
  {
    hide Run, ResponseEdge, Fire, At, AllDigits;
    var q := p + |major| + 1 + |minor|;
    MajorRun(m, buffer, p, major);
    MinorRun(m.(cs := 14), buffer, p + |major| + 1, minor);
    AtChar(buffer, q, " ", 0);
    BehindVersion();
    StepOne(ResponseEdge, m.(cs := 15), buffer, q, 16, EmitVersion);
    m' := m.(cs := 16, events := m.events + [Version(buffer[m.mark..q])]);
  }

  lemma BehindVersion()
    ensures ResponseEdge(15, ' ') == Go(16, EmitVersion)
  {
  }

  /** The status code and the space behind it. */
  lemma CodeRun(m: Parser, buffer: string, p: nat, code: string) returns (m': Parser)
    requires m.cs == 16 && IsNumber(code) && At(buffer, p, code + " ")
    ensures var n := ToInt32(Clamp64(Value(code, 10)));
            m' == m.(cs := 18, mark := p, status := n, events := m.events + [StatusCode(n)])
    ensures Run(ResponseEdge, m, buffer, p) == Run(ResponseEdge, m', buffer, p + |code| + 1)
  {
    hide Run, NumberAt, Value, Clamp64, ToInt32;
    AtSplit(buffer, p, code, " ");
    var q := p + |code|;
    AtChar(buffer, p, code, 0);
    AtChar(buffer, q, " ", 0);
    Step(ResponseEdge, m, buffer, p, Go(17, Mark));
    var m1 := m.(cs := 17, mark := p);
    assert code == code[..1] + code[1..];
    AtSplit(buffer, p, code[..1], code[1..]);
    Loop(ResponseEdge, m1, buffer, p + 1, code[1..]);
    NumberBlind(buffer, "", p, q, 10);
    Step(ResponseEdge, m1, buffer, q, Go(18, EmitStatus));
    m' := Fire(Go(18, EmitStatus), m1, buffer, q);
  }

  lemma ReasonText(m: Parser, buffer: string, p: nat, reason: string)
    requires m.cs == 18 && reason != "" && IsLineText(reason) && At(buffer, p, reason)
    ensures Run(ResponseEdge, m, buffer, p) == Run(ResponseEdge, m.(cs := 19, mark := p), buffer, p + |reason|)
  {
    hide Run, ResponseEdge, Fire, At;
    StatusLineEdges();
    AtChar(buffer, p, reason, 0);
    StepOne(ResponseEdge, m, buffer, p, 19, Mark);
    assert reason == reason[..1] + reason[1..];
    AtSplit(buffer, p, reason[..1], reason[1..]);
    Loop(ResponseEdge, m.(cs := 19, mark := p), buffer, p + 1, reason[1..]);
  }

  lemma ReasonEdges()
    ensures ResponseEdge(19, CR) == Go(24, EmitReason) && ResponseEdge(19, LF) == Go(20, EmitReason)
  {
  }

  /** The reason phrase and the line end. */
  lemma ReasonRun(m: Parser, buffer: string, p: nat, reason: string, eol: string) returns (m': Parser)
    requires m.cs == 18 && reason != "" && IsLineText(reason) && IsEol(eol) && At(buffer, p, reason + eol)
    ensures m' == m.(cs := 20, mark := p, events := m.events + [Reason(reason)])
    ensures Run(ResponseEdge, m, buffer, p) == Run(ResponseEdge, m', buffer, p + |reason| + |eol|)
  {
    hide Run, ResponseEdge, Fire, At;
    ReasonEdges();
    AtSplit(buffer, p, reason, eol);
    AtText(buffer, p, reason);
    var q := p + |reason|;
    AtChar(buffer, q, eol, 0);
    ReasonText(m, buffer, p, reason);
    var m1 := m.(cs := 19, mark := p);
    if eol == CRLF {
      AtChar(buffer, q, eol, 1);
      StepOne(ResponseEdge, m1, buffer, q, 24, EmitReason);
      m' := Act(EmitReason, m1, buffer, q).(cs := 24);
      LineFeedStep();
      StepOne(ResponseEdge, m', buffer, q + 1, 20, Skip);
      m' := m'.(cs := 20);
    } else {
      StepOne(ResponseEdge, m1, buffer, q, 20, EmitReason);
      m' := Act(EmitReason, m1, buffer, q).(cs := 20);
    }
  }

  /** Where the parts of a status line stand. */
  lemma StatusLineParts(buffer: string, p: nat, major: string, minor: string, code: string, reason: string, eol: string)
    requires major != "" && At(buffer, p, StatusText(major, minor, code, reason, eol))
    ensures At(buffer, p, VersionText(major, minor)) && At(buffer, p, "HTTP/") && At(buffer, p + 5, major[..1])
    ensures At(buffer, p + 6, major[1..] + ("." + (minor + " ")))
    ensures var q := p + |VersionText(major, minor)| + 1;
            At(buffer, q, code + " ") && At(buffer, q + |code| + 1, reason + eol)
  {
    var rest := (code + " ") + (reason + eol);
    var tail := major[1..] + ("." + (minor + " "));
    StatusTextParts(major, minor, code, reason, eol);
    hide At, StatusText;
    AtSplit(buffer, p, VersionText(major, minor), " " + rest);
    AtSplit(buffer, p, "HTTP/", major[..1] + (tail + rest));
    AtSplit(buffer, p + 5, major[..1], tail + rest);
    AtSplit(buffer, p + 6, tail, rest);
    AtSplit(buffer, p + 6 + |tail|, code + " ", reason + eol);
  }

  /** The status line, put together in two other ways. */
  lemma StatusTextParts(major: string, minor: string, code: string, reason: string, eol: string)
    requires major != ""
    ensures var rest := (code + " ") + (reason + eol);
            StatusText(major, minor, code, reason, eol) == VersionText(major, minor) + (" " + rest)
    ensures var rest, tail := (code + " ") + (reason + eol), major[1..] + ("." + (minor + " "));
            StatusText(major, minor, code, reason, eol) == "HTTP/" + (major[..1] + (tail + rest))
  {
    var rest, dot := (code + " ") + (reason + eol), "." + minor;
    Assoc(code, " ", reason + eol);
    Assoc("HTTP/", major + dot, " " + rest);
    Assoc(major, dot, " " + rest);
    Assoc(".", minor, " " + rest);
    assert major == major[..1] + major[1..];
    Assoc(major[..1], major[1..], "." + (minor + (" " + rest)));
    Assoc(major[1..], "." + (minor + " "), rest);
    Assoc(".", minor + " ", rest);
    Assoc(minor, " ", rest);
  }

  /** A status line delivers its version, code and reason, and leads to the start of a header line. */
  lemma StatusLineRun(m: Parser, buffer: string, p: nat, major: string, minor: string, code: string, reason: string, eol: string)
    returns (m': Parser)
    requires m.cs == 1 && IsNumber(major) && IsNumber(minor) && IsNumber(code)
    requires reason != "" && IsLineText(reason) && IsEol(eol)
    requires At(buffer, p, StatusText(major, minor, code, reason, eol))
    ensures Same(m', AfterStatus(m, major, minor, code, reason))
    ensures Run(ResponseEdge, m, buffer, p)
            == Run(ResponseEdge, m', buffer, p + |StatusText(major, minor, code, reason, eol)|)
  {
    hide Run, ResponseEdge, Value, Clamp64, ToInt32, At, IsLineText, IsEol;
    StatusLineParts(buffer, p, major, minor, code, reason, eol);
    var v := VersionText(major, minor);
    var q := p + |v| + 1;
    AtChar(buffer, p + 5, major[..1], 0);
    var m1 := ProtocolRun(m, buffer, p, major[0]);
    AtSplit(buffer, p + 6, major[1..], "." + (minor + " "));
    AtSplit(buffer, p + 5 + |major|, ".", minor + " ");
    AtSplit(buffer, p + 6 + |major|, minor, " ");
    var m2 := VersionRun(m1, buffer, p + 6, major[1..], minor);
    assert buffer[p..q - 1] == v by { AtText(buffer, p, v); }
    var m3 := CodeRun(m2, buffer, q, code);
    m' := ReasonRun(m3, buffer, q + |code| + 1, reason, eol);
  }

  lemma AtText(buffer: string, p: nat, x: string)
    requires At(buffer, p, x)
    ensures p + |x| <= |buffer| && buffer[p..p + |x|] == x
  {
  }

  // ---------------------------------------------------------------- header lines

  datatype Line = Line(name: string, blanks: string, value: string, eol: string)
  {
    predicate Valid() {
      IsName(name) && IsBlanks(blanks) && IsValue(value) && IsEol(eol)
    }

    function Text(): string {
      HeaderText(name, blanks, value, eol)
    }
  }

  function BlockText(lines: seq<Line>): string {
    if lines == [] then "" else lines[0].Text() + BlockText(lines[1..])
  }

  function AfterBlock(m: Parser, lines: seq<Line>): Parser
    decreases |lines|
  {
    if lines == [] then m
    else AfterBlock(AfterHeader(m, lines[0].name, lines[0].value), lines[1..])
  }

  predicate AllValid(lines: seq<Line>) {
    forall i :: 0 <= i < |lines| ==> lines[i].Valid()
  }

  /** Parsers that differ in registers only still do after the same headers. */
  lemma {:induction false} AfterBlockSame(m: Parser, n: Parser, lines: seq<Line>)
    requires Same(m, n)
    ensures Same(AfterBlock(m, lines), AfterBlock(n, lines))
    decreases |lines|
  {
    if lines != [] {
      var l := lines[0];
      AfterBlockSame(AfterHeader(m, l.name, l.value), AfterHeader(n, l.name, l.value), lines[1..]);
    }
  }

  /** A block of header lines delivers them all, in order. */
  lemma {:induction false} BlockRun(m: Parser, buffer: string, p: nat, lines: seq<Line>) returns (m': Parser)
    requires AtLineStart(m.cs) && AllValid(lines) && At(buffer, p, BlockText(lines))
    ensures AtLineStart(m'.cs) && Same(m', AfterBlock(m, lines))
    ensures Run(ResponseEdge, m, buffer, p) == Run(ResponseEdge, m', buffer, p + |BlockText(lines)|)
    decreases |lines|
  {
    hide Run, ResponseEdge, HeaderText, Closes, Chunks, Measures, LengthAfter;
    if lines == [] {
      m' := m;
    } else {
      var l := lines[0];
      AtSplit(buffer, p, l.Text(), BlockText(lines[1..]));
      var m1 := HeaderLine(m, buffer, p, l.name, l.blanks, l.value, l.eol);
      m' := BlockRun(m1, buffer, p + |l.Text()|, lines[1..]);
      AfterBlockSame(m1, AfterHeader(m, l.name, l.value), lines[1..]);
    }
  }

  function AfterHead(m: Parser): Parser {
    m.(cs := 120, close := m.close || m.cs == 43, events := m.events + [HeaderDone])
  }

  /** The blank line ends the head: the run stops right behind it, finished. */
  lemma HeadEnd(m: Parser, buffer: string, p: nat, eol: string)
    requires AtLineStart(m.cs) && IsEol(eol) && At(buffer, p, eol)
    ensures Run(ResponseEdge, m, buffer, p) == (AfterHead(m).(bodyStart := p + |eol|), p + |eol|)
  {
    hide ResponseEdge, Run;
    AtChar(buffer, p, eol, 0);
    if eol == CRLF {
      AtChar(buffer, p, eol, 1);
      HeadEndsInTwo(m, buffer, p);
    } else {
      HeadEndsInOne(m, buffer, p);
    }
  }

  lemma HeadEndsInOne(m: Parser, buffer: string, p: nat)
    requires AtLineStart(m.cs) && p < |buffer| && buffer[p] == LF
    ensures Run(ResponseEdge, m, buffer, p) == (AfterHead(m).(bodyStart := p + 1), p + 1)
  {
    hide ResponseEdge, Run, Fire;
    HeadEndEdges();
    HaltHere(ResponseEdge, m, buffer, p, if m.cs == 43 then Go(120, SetClose, Done) else Go(120, Done));
    FireOne(120, Done, m, buffer, p);
    FireCloses(m, buffer, p);
  }

  lemma HeadEndsInTwo(m: Parser, buffer: string, p: nat)
    requires AtLineStart(m.cs) && p + 1 < |buffer| && buffer[p] == CR && buffer[p + 1] == LF
    ensures Run(ResponseEdge, m, buffer, p) == (AfterHead(m).(bodyStart := p + 2), p + 2)
  {
    hide ResponseEdge, Run, Fire;
    HeadEndEdges();
    StepOne(ResponseEdge, m, buffer, p, 3, if m.cs == 43 then SetClose else Skip);
    var m1 := m.(cs := 3, close := m.close || m.cs == 43);
    HaltHere(ResponseEdge, m1, buffer, p + 1, Go(120, Done));
    FireOne(120, Done, m1, buffer, p + 1);
  }

  lemma FireCloses(m: Parser, buffer: string, p: nat)
    ensures Fire(Go(120, SetClose, Done), m, buffer, p) == Emit(m.(cs := 120, close := true, bodyStart := p + 1), HeaderDone)
  {
  }

  /** A run that ends on its next byte. */
  lemma HaltHere(t: Table, m: Parser, buffer: string, p: nat, e: Edge)
    requires p < |buffer| && t(m.cs, buffer[p]) == e && e.target != 0 && e.Halts()
    ensures Run(t, m, buffer, p) == (Fire(e, m, buffer, p), p + 1)
  {
    hide Fire;
  }

  lemma HeadEndEdges()
    ensures ResponseEdge(20, LF) == Go(120, Done) && ResponseEdge(20, CR) == Go(3)
    ensures ResponseEdge(43, LF) == Go(120, SetClose, Done) && ResponseEdge(43, CR) == Go(3, SetClose)
    ensures ResponseEdge(3, LF) == Go(120, Done)
  {
  }

  // ---------------------------------------------------------------- the chunk-size line

  predicate IsHexNumber(s: string) {
    s != "" && AllDigits(s, 16)
  }

  /** The chunk size the parser stores: a long, cut to 32 bits. */
  function SizeOf(size: string): int
    requires AllDigits(size, 16)
  {
    ToInt32(Clamp64(Value(size, 16)))
  }

  function AfterSize(m: Parser, size: string): Parser
    requires AllDigits(size, 16)
  {
    var n := SizeOf(size);
    m.(cs := 120, chunked := true, contentLen := n, chunksDone := n <= 0,
       events := m.events + [if n <= 0 then LastChunk(n) else ChunkSize(n), HeaderDone])
  }

  lemma SizeEdges()
    ensures forall c {:trigger IsHex(c)} :: IsHex(c) ==> ResponseEdge(1, c) == Go(2, Mark) && ResponseEdge(2, c) == Go(2)
    ensures ResponseEdge(2, CR) == Go(3, EmitChunk) && ResponseEdge(2, LF) == Go(120, EmitChunk, Done)
    ensures ResponseEdge(3, LF) == Go(120, Done)
  {
  }

  /** The digits of the size. */
  lemma SizeDigits(m: Parser, buffer: string, p: nat, size: string)
    requires m.cs == 1 && IsHexNumber(size) && At(buffer, p, size)
    ensures Run(ResponseEdge, m, buffer, p) == Run(ResponseEdge, m.(cs := 2, mark := p), buffer, p + |size|)
  {
    hide Run, ResponseEdge;
    SizeEdges();
    AtChar(buffer, p, size, 0);
    Step(ResponseEdge, m, buffer, p, Go(2, Mark));
    assert size == size[..1] + size[1..];
    AtSplit(buffer, p, size[..1], size[1..]);
    Loop(ResponseEdge, m.(cs := 2, mark := p), buffer, p + 1, size[1..]);
  }

  lemma SizeEnd(m: Parser, buffer: string, q: nat, eol: string)
    requires m.cs == 2 && m.mark <= q && IsEol(eol) && At(buffer, q, eol)
    ensures var r := Run(ResponseEdge, m, buffer, q);
            var n := NumberAt(buffer, m.mark, 16);
            && r.1 == q + |eol|
            && Same(r.0, m.(cs := 120, chunked := true, contentLen := n, chunksDone := n <= 0,
                            events := m.events + [if n <= 0 then LastChunk(n) else ChunkSize(n), HeaderDone]))
  {
    hide ResponseEdge, NumberAt;
    SizeEdges();
    AtChar(buffer, q, eol, 0);
    if eol == CRLF {
      AtChar(buffer, q, eol, 1);
      Step(ResponseEdge, m, buffer, q, Go(3, EmitChunk));
    }
  }

  /** A chunk-size line stores its number and stops the run right behind its end. */
  lemma SizeLineRun(m: Parser, buffer: string, p: nat, size: string, eol: string)
    requires m.cs == 1 && IsHexNumber(size) && IsEol(eol) && At(buffer, p, size + eol)
    ensures var (m', q) := Run(ResponseEdge, m, buffer, p);
            q == p + |size| + |eol| && Same(m', AfterSize(m, size))
  {
    hide Run, ResponseEdge, Value, Clamp64, ToInt32, NumberAt;
    AtSplit(buffer, p, size, eol);
    var q := p + |size|;
    AtChar(buffer, q, eol, 0);
    SizeDigits(m, buffer, p, size);
    NumberBlind(buffer, "", p, q, 16);
    AtText(buffer, p, size);
    SizeEnd(m.(cs := 2, mark := p), buffer, q, eol);
  }
}
