/**
 The engine both HTTP parsers run on: a table automaton that walks a buffer, remembers positions
 in registers and makes callbacks.
 */
module Machine {
  import opened HttpText
  import opened ParserTables

  type Table = (int, char) -> Edge

  /**
   A callback, with the text it is given; Overlong is a query callback whose text would end in front of
   its start, a length no string can have: the string's constructor throws.  (What a run does behind
   such a callback nobody sees.)
   */
  datatype Event =
    | Field(name: string, value: string)
    | Reason(text: string)
    | StatusCode(code: int)
    | Version(text: string)
    | ChunkSize(size: int)
    | LastChunk(size: int)
    | Method(text: string)
    | Path(text: string)
    | Uri(text: string)
    | Query(text: string)
    | Overlong
    | Fragment(text: string)
    | HeaderDone

  /** The parser's fields; `events` is the list of callbacks made so far. */
  datatype Parser = Parser(
    cs: int,
    mark: nat, fieldStart: nat, fieldLen: nat, queryStart: nat, bodyStart: nat,
    contentLen: int, status: int, chunked: bool, chunksDone: bool, close: bool,
    events: seq<Event>)

  /** buffer[lo..hi]; empty where the registers do not bound a slice. */
  function Slice(buffer: string, lo: nat, hi: nat): string {
    if lo <= hi <= |buffer| then buffer[lo..hi] else ""
  }

  /** strtol on the buffer from the marked position. */
  function NumberAt(buffer: string, mark: nat, base: nat): int {
    ToInt32(Strtol(Slice(buffer, mark, |buffer|), base))
  }

  function Emit(m: Parser, e: Event): Parser {
    m.(events := m.events + [e])
  }

  /** One action at position p. */
  function Act(a: Action, m: Parser, buffer: string, p: nat): Parser {
    match a
    case Skip => m
    case Mark => m.(mark := p)
    case StartField => m.(fieldStart := p)
    case EndField => m.(fieldLen := if m.fieldStart <= p then p - m.fieldStart else 0)
    case MarkQuery => m.(queryStart := p)
    case EmitField =>
      Emit(m, Field(Slice(buffer, m.fieldStart, m.fieldStart + m.fieldLen), Slice(buffer, m.mark, p)))
    case EmitReason => Emit(m, Reason(Slice(buffer, m.mark, p)))
    case EmitStatus =>
      var code := NumberAt(buffer, m.mark, 10);
      Emit(m.(status := code), StatusCode(code))
    case EmitVersion => Emit(m, Version(Slice(buffer, m.mark, p)))
    case EmitChunk =>
      var size := NumberAt(buffer, m.mark, 16);
      var m' := m.(chunked := true, contentLen := size, chunksDone := size <= 0);
      Emit(m', if size <= 0 then LastChunk(size) else ChunkSize(size))
    case EmitMethod => Emit(m, Method(Slice(buffer, m.mark, p)))
    case EmitPath => Emit(m, Path(Slice(buffer, m.mark, p)))
    case EmitUri => Emit(m, Uri(Slice(buffer, m.mark, p)))
    case EmitQuery => Emit(m, if m.queryStart <= p then Query(Slice(buffer, m.queryStart, p)) else Overlong)
    case EmitFragment => Emit(m, Fragment(Slice(buffer, m.mark, p)))
    case SetLength => m.(contentLen := NumberAt(buffer, m.mark, 10))
    case SetClose => m.(close := true)
    case SetChunked => m.(chunked := true)
    case Done => Emit(m.(bodyStart := p + 1), HeaderDone)
  }

  /** The actions of an edge, then the move. */
  function Fire(e: Edge, m: Parser, buffer: string, p: nat): (r: Parser)
    ensures r.cs == e.target
  {
    var m1 := Act(e.a1, m, buffer, p);
    var m2 := Act(e.a2, m1, buffer, p);
    var m3 := Act(e.a3, m2, buffer, p);
    Act(e.a4, m3, buffer, p).(cs := e.target)
  }

  /** The parser and its position when it runs over the buffer from p. */
  function Run(t: Table, m: Parser, buffer: string, p: nat): (r: (Parser, nat))
    requires p <= |buffer|
    ensures p <= r.1 <= |buffer|
    decreases |buffer| - p
  {
    if p == |buffer| then (m, p)
    else
      var e := t(m.cs, buffer[p]);
      var m' := Fire(e, m, buffer, p);
      if e.target == 0 then (m', p)
      else if e.Halts() then (m', p + 1)
      else Run(t, m', buffer, p + 1)
  }

  /** What every call of the execute functions does before it looks at the buffer. */
  function ZeroRegisters(m: Parser): Parser {
    m.(mark := 0, fieldLen := 0, fieldStart := 0)
  }

  /**
   http_parser_execute and httpclient_parser_execute: the new parser and the bytes consumed.
   (The first returns at once on an empty buffer, which neither caller passes.)
   */
  function Execute(t: Table, m: Parser, buffer: string): (r: (Parser, nat))
    ensures r.1 <= |buffer|
  {
    Run(t, ZeroRegisters(m), buffer, 0)
  }

  /** The registers that every call clears lie inside the buffer. */
  predicate Bounded(m: Parser, len: nat) {
    m.mark < len && m.fieldStart < len && m.fieldLen <= len
  }

  /** What the checks at the end of the execute functions ask of the registers. */
  predicate Inside(m: Parser, len: nat) {
    Bounded(m, len) && m.bodyStart <= len
  }

  /** The run over s passes a blank line. */
  predicate PassesDone(t: Table, cs: int, s: string)
    decreases |s|
  {
    s != "" &&
    var e := t(cs, s[0]);
    e.Halts() || (e.target != 0 && PassesDone(t, e.target, s[1..]))
  }

  lemma ActStaysInside(a: Action, m: Parser, buffer: string, p: nat)
    requires p < |buffer| && Bounded(m, |buffer|)
    ensures Bounded(Act(a, m, buffer, p), |buffer|)
    ensures Act(a, m, buffer, p).bodyStart == if a.Done? then p + 1 else m.bodyStart
  {
    hide NumberAt, Slice;
  }

  lemma FireStaysInside(e: Edge, m: Parser, buffer: string, p: nat)
    requires p < |buffer| && Bounded(m, |buffer|)
    ensures Bounded(Fire(e, m, buffer, p), |buffer|)
    ensures Fire(e, m, buffer, p).bodyStart == if e.Halts() then p + 1 else m.bodyStart
  {
    hide Act;
    ActStaysInside(e.a1, m, buffer, p);
    var m1 := Act(e.a1, m, buffer, p);
    ActStaysInside(e.a2, m1, buffer, p);
    var m2 := Act(e.a2, m1, buffer, p);
    ActStaysInside(e.a3, m2, buffer, p);
    ActStaysInside(e.a4, Act(e.a3, m2, buffer, p), buffer, p);
  }

  lemma {:induction false} RunStaysInside(t: Table, m: Parser, buffer: string, p: nat)
    requires p <= |buffer| && Bounded(m, |buffer|)
    ensures var r := Run(t, m, buffer, p);
            && Bounded(r.0, |buffer|)
            && if PassesDone(t, m.cs, buffer[p..]) then r.0.bodyStart <= |buffer| else r.0.bodyStart == m.bodyStart
    decreases |buffer| - p
  {
    hide Fire;
    if p < |buffer| {
      var e := t(m.cs, buffer[p]);
      var m' := Fire(e, m, buffer, p);
      FireStaysInside(e, m, buffer, p);
      assert buffer[p..][1..] == buffer[p + 1..];
      if e.target != 0 && !e.Halts() {
        RunStaysInside(t, m', buffer, p + 1);
      }
    }
  }

  /**
   On a buffer that holds something, the checks behind the automaton hold, for any table, if and only
   if this run passes a blank line or an earlier one did so no further from its buffer's start than
   this buffer is long: no call clears that one register.
   */
  lemma ChecksHoldIff(t: Table, m: Parser, buffer: string)
    requires buffer != ""
    ensures Inside(Execute(t, m, buffer).0, |buffer|) <==> PassesDone(t, m.cs, buffer) || m.bodyStart <= |buffer|
  {
    assert buffer[0..] == buffer;
    RunStaysInside(t, ZeroRegisters(m), buffer, 0);
  }
}
