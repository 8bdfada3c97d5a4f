/**
 recvResponse on values: the loop that reads the head, the loop that decodes chunks, the body that
 a content length delimits.
 */
module Framing {
  import opened Wrappers
  import opened HttpText
  import opened ParserTables
  import opened Machine
  import opened Segmentation
  import opened HttpMessages
  import opened ByteStream

  /** The size of the read buffer. */
  const BUFFER: nat := 65532

  /** How a receive ends: the connection closes, an exception escapes, or a value comes back. */
  datatype Outcome<+T> = Closed | Thrown | Got(value: T)

  /** What tells the two receivers apart: table, final states, callbacks that are errors or that throw. */
  datatype Dialect = Dialect(table: Table, final: int -> bool, rejects: Event -> bool, raises: Event -> bool)

  predicate ResponseFinal(cs: int) {
    cs == 120
  }

  /** No callback of the response parser throws: each register it reads was cleared, or set further on. */
  predicate NoEvent(e: Event) {
    false
  }

  const RESPONSES := Dialect(ResponseEdge, ResponseFinal, ResponseRejects, NoEvent)

  /** hasError. */
  predicate Failed(d: Dialect, m: Parser) {
    m.cs == 0 || AnyRejected(d.rejects, m.events)
  }

  /** A callback has thrown. */
  predicate Raised(d: Dialect, m: Parser) {
    AnyRejected(d.raises, m.events)
  }

  lemma NeverRaises()
    ensures forall m :: !Raised(RESPONSES, m)
  {
  }

  /** httpclient_parser_init; it leaves the status register and the callbacks' effects alone. */
  function Reset(m: Parser, length: int): Parser {
    m.(cs := 1, mark := 0, fieldStart := 0, fieldLen := 0, bodyStart := 0, contentLen := length,
       chunked := false, chunksDone := false, close := false)
  }

  function NewParser(length: int): Parser {
    Reset(Parser(0, 0, 0, 0, 0, 0, 0, 0, false, false, false, []), length)
  }

  /** A call that does not fail consumes something. */
  lemma ExecuteProgress(t: Table, m: Parser, buffer: string)
    requires buffer != "" && Execute(t, m, buffer).0.cs != 0
    ensures Execute(t, m, buffer).1 > 0
  {
  }

  /** The parser, the bytes read but not consumed, and the arrivals not yet read. */
  type Head = (Parser, string, Arrivals)

  /** The loop that reads the head. */
  function ReceiveHead(d: Dialect, m: Parser, data: string, s: Arrivals): (r: Outcome<Head>)
    requires |data| < BUFFER
    ensures r.Got? ==> !Failed(d, r.value.0) && d.final(r.value.0.cs) && |r.value.1| < BUFFER
    decreases |Concat(s)|
  {
    var (got, s') := Read(s, BUFFER - |data|);
    if got == "" then Closed
    else
      var buffer := data + got;
      var (m', n) := Execute(d.table, m, buffer);
      if Raised(d, m') then Thrown
      else if Failed(d, m') then Closed
      else
        var rest := buffer[n..];
        ExecuteProgress(d.table, m, buffer);
        if d.final(m'.cs) then Got((m', rest, s'))
        else
          assert |Concat(s')| < |Concat(s)|;
          ReceiveHead(d, m', rest, s')
  }

  /** Reading from (data0, s0) has got to (data, s), `at` bytes further on. */
  ghost predicate Reached(data0: string, s0: Arrivals, at: nat, data: string, s: Arrivals) {
    && Steady(s, BUFFER) && |data| < BUFFER
    && at + |data| + |Concat(s)| == |data0| + |Concat(s0)|
    && forall x :: x > 0 ==> (Boundary(data, s, x) <==> Boundary(data0, s0, at + x))
  }

  lemma ReachedItself(data: string, s: Arrivals)
    requires Steady(s, BUFFER) && |data| < BUFFER
    ensures Reached(data, s, 0, data, s)
  {
    hide Boundary;
  }

  /**
   What receiving a head of n bytes leaves of the stream: the bytes behind it, cut where they were.  The
   bytes in the buffer end where the read ended that brought the end of the head.
   */
  ghost predicate Leaves(r: Outcome<Head>, s: Arrivals, n: nat, tail: string) {
    && r.Got?
    && |r.value.1| < BUFFER && r.value.1 + Concat(r.value.2) == tail && Steady(r.value.2, BUFFER)
    && forall x :: x >= 0 ==> (Boundary(r.value.1, r.value.2, x) <==> Boundary("", s, n + x))
  }

  lemma LeavesPart(r: Outcome<Head>, s: Arrivals, n: nat, tail: string)
    requires Leaves(r, s, n, tail)
    ensures r.Got? && |r.value.1| < BUFFER && r.value.1 + Concat(r.value.2) == tail && Steady(r.value.2, BUFFER)
  {
  }

  lemma HeadReached(r: Outcome<Head>, s: Arrivals, n: nat, tail: string)
    requires Leaves(r, s, n, tail) && |Concat(s)| == n + |tail|
    ensures Reached("", s, n, r.value.1, r.value.2)
  {
    hide Boundary;
  }

  /** Getting on from where one has got. */
  lemma ReachedMore(data0: string, s0: Arrivals, a: nat, data: string, s: Arrivals, b: nat, data2: string, s2: Arrivals)
    requires Reached(data0, s0, a, data, s) && Reached(data, s, b, data2, s2)
    ensures Reached(data0, s0, a + b, data2, s2)
  {
    hide Boundary;
    forall x | x > 0
      ensures Boundary(data2, s2, x) <==> Boundary(data0, s0, (a + b) + x)
    {
      assert Boundary(data, s, b + x) <==> Boundary(data0, s0, a + (b + x));
    }
  }

  /** The buffer holds at most k bytes behind the head if and only if the read that ended the head went no further. */
  lemma HeadRunsOut(r: Outcome<Head>, s: Arrivals, n: nat, tail: string, k: nat)
    requires Leaves(r, s, n, tail)
    ensures |r.value.1| <= k <==> StopsWithin("", s, n, n + k)
  {
    var (m, data, s1) := r.value;
    if |data| <= k {
      assert Boundary(data, s1, |data|);
      assert Boundary("", s, n + |data|);
    }
    if StopsWithin("", s, n, n + k) {
      var x :| n <= x <= n + k && Boundary("", s, x);
      assert Boundary(data, s1, x - n) <==> Boundary("", s, n + (x - n));
      if x - n != |data| { CutsArePositive(s1, BUFFER, x - n - |data|); }
    }
  }

  /** What is seen from behind the head and from the beginning of the stream. */
  lemma HeadStopsShift(r: Outcome<Head>, s: Arrivals, n: nat, tail: string, lo: nat, hi: nat)
    requires Leaves(r, s, n, tail)
    ensures StopsWithin(r.value.1, r.value.2, lo, hi) <==> StopsWithin("", s, n + lo, n + hi)
  {
    hide Boundary;
    var (m, data, s1) := r.value;
    if StopsWithin(data, s1, lo, hi) {
      var x :| lo <= x <= hi && Boundary(data, s1, x);
      assert Boundary("", s, n + x);
    }
    if StopsWithin("", s, n + lo, n + hi) {
      var x :| n + lo <= x <= n + hi && Boundary("", s, x);
      assert Boundary(data, s1, x - n) <==> Boundary("", s, n + (x - n));
    }
  }

  /** A head that ends in the first arrival. */
  lemma LeavesHere(m: Parser, s: Arrivals, n: nat)
    requires Steady(s, BUFFER) && s != [] && 0 < n <= |s[0]|
    ensures Leaves(Got((m, s[0][n..], s[1..])), s, n, Concat(s)[n..])
  {
    var data, s1 := s[0][n..], s[1..];
    assert (s[0] + Concat(s1))[n..] == data + Concat(s1);
  }

  /** What lies behind the first arrival's cuts lies behind the whole stream's. */
  lemma LeavesBehind(r: Outcome<Head>, s: Arrivals, s1: Arrivals, n: nat, tail: string)
    requires s != [] && s1 == s[1..] && n > 0 && Leaves(r, s1, n, tail)
    ensures Leaves(r, s, |s[0]| + n, tail)
  {
    forall x | x >= 0
      ensures Boundary(r.value.1, r.value.2, x) <==> Boundary("", s, (|s[0]| + n) + x)
    {
      assert Boundary("", s1, n + x) <==> Boundary("", s, |s[0]| + (n + x));
    }
  }

  /** The checks at the end of the execute functions hold for every call the loop makes. */
  ghost predicate ChecksPass(d: Dialect, m: Parser, data: string, s: Arrivals)
    requires |data| < BUFFER
    decreases |Concat(s)|
  {
    var (got, s') := Read(s, BUFFER - |data|);
    got == "" ||
    var buffer := data + got;
    var (m', n) := Execute(d.table, m, buffer);
    Inside(m', |buffer|) &&
    (Failed(d, m') || d.final(m'.cs) ||
     (ExecuteProgress(d.table, m, buffer); assert |Concat(s')| < |Concat(s)|; ChecksPass(d, m', buffer[n..], s')))
  }

  /** Only an edge that finishes the parser passes a blank line. */
  ghost predicate HaltsAreFinal(t: Table, final: int -> bool) {
    forall cs: int, c: char :: t(cs, c).Halts() ==> final(t(cs, c).target)
  }

  lemma {:induction false} PassesToFinal(t: Table, final: int -> bool, cs: int, s: string)
    requires HaltsAreFinal(t, final) && PassesDone(t, cs, s)
    ensures ControlRun(t, cs, s).0 == 0 || final(ControlRun(t, cs, s).0)
    decreases |s|
  {
    var e := t(cs, s[0]);
    if e.target != 0 && !e.Halts() {
      PassesToFinal(t, final, e.target, s[1..]);
    }
  }

  /** Where that is so, the checks hold in every run of the loop. */
  lemma {:induction false} HeadChecksPass(d: Dialect, m: Parser, data: string, s: Arrivals)
    requires HaltsAreFinal(d.table, d.final) && m.bodyStart == 0 && |data| < BUFFER
    ensures ChecksPass(d, m, data, s)
    decreases |Concat(s)|
  {
    hide Execute, PassesDone, HaltsAreFinal, ControlRun;
    var (got, s') := Read(s, BUFFER - |data|);
    if got != "" {
      var buffer := data + got;
      var (m', n) := Execute(d.table, m, buffer);
      ChecksHoldIff(d.table, m, buffer);
      if !Failed(d, m') && !d.final(m'.cs) {
        StillZero(d, m, buffer);
        ExecuteProgress(d.table, m, buffer);
        assert |Concat(s')| < |Concat(s)|;
        HeadChecksPass(d, m', buffer[n..], s');
      }
    }
  }

  lemma StillZero(d: Dialect, m: Parser, buffer: string)
    requires HaltsAreFinal(d.table, d.final) && m.bodyStart == 0 && buffer != ""
    requires var m' := Execute(d.table, m, buffer).0; m'.cs != 0 && !d.final(m'.cs)
    ensures Execute(d.table, m, buffer).0.bodyStart == 0
  {
    hide Run, PassesDone, HaltsAreFinal, ControlRun;
    assert buffer[0..] == buffer;
    RunControl(d.table, ZeroRegisters(m), buffer, 0);
    RunStaysInside(d.table, ZeroRegisters(m), buffer, 0);
    if PassesDone(d.table, m.cs, buffer) {
      PassesToFinal(d.table, d.final, m.cs, buffer);
    }
  }

  /** The inner loop of the chunk decoder: until one size line is parsed. */
  function ReceiveSize(m: Parser, data: string, s: Arrivals, begin: bool): (r: Option<Head>)
    requires |data| < BUFFER
    ensures r.Some? ==> |r.value.1| < BUFFER && |r.value.1| + |Concat(r.value.2)| < |data| + |Concat(s)|
    decreases |data| + |Concat(s)|
  {
    var wants := !begin || data == "";
    var (got, s') := if wants then Read(s, BUFFER - |data|) else ("", s);
    if wants && got == "" then None
    else
      var buffer := data + got;
      var (m', n) := Execute(ResponseEdge, Reset(m, -1), buffer);
      if Failed(RESPONSES, m') then None
      else
        var rest := buffer[n..];
        ExecuteProgress(ResponseEdge, Reset(m, -1), buffer);
        if ResponseFinal(m'.cs) then Some((m', rest, s'))
        else ReceiveSize(m', rest, s', false)
  }

  /** The payload of a chunk of size n and the CR LF behind it, appended to the body. */
  function ReceivePayload(n: int, data: string, s: Arrivals, body: string): (r: Outcome<(string, string, Arrivals)>)
    requires |data| < BUFFER
    ensures r.Got? ==> |r.value.1| < BUFFER && |r.value.1| + |Concat(r.value.2)| <= |data| + |Concat(s)|
  {
    if n + 2 <= |data| then
      if n < 0 then Thrown else Got((body + data[..n], data[n + 2..], s))
    else
      match Drain(s, n + 2 - |data|, BUFFER)
      case None => Closed
      case Some((t, s')) =>
        var all := body + data + t;
        if |all| < 2 then Thrown else Got((all[..|all| - 2], "", s'))
  }

  /** The chunk decoder: parser, body, bytes left over, arrivals left. */
  function ReceiveChunks(m: Parser, data: string, s: Arrivals, body: string): (r: Outcome<(Parser, string, string, Arrivals)>)
    requires |data| < BUFFER
    decreases |data| + |Concat(s)|
  {
    match ReceiveSize(m, data, s, true)
    case None => Closed
    case Some((m1, d1, s1)) =>
      match ReceivePayload(m1.contentLen, d1, s1, body)
      case Closed => Closed
      case Thrown => Thrown
      case Got((body', d2, s2)) =>
        if m1.chunksDone then Got((m1, body', d2, s2)) else ReceiveChunks(m1, d2, s2, body')
  }

  /** The body a content length delimits: body, bytes left over, arrivals left. */
  function ReceiveFixed(length: int, data: string, s: Arrivals): Option<(string, string, Arrivals)>
  {
    if length <= 0 then Some(("", data, s))
    else if length <= |data| then Some((data[..length], data[length..], s))
    else
      var left := length - |data|;
      match Drain(s, left, left)
      case None => None
      case Some((t, s')) => if ToInt32(left) <= 0 then None else Some((data + t, "", s'))
  }

  /**
   recvResponse: the response, what its buffer holds behind the message, which is dropped with the buffer,
   and what the connection keeps.
   */
  function ReceiveResponse(s: Arrivals): Outcome<(Response, string, Arrivals)> {
    match ReceiveHead(RESPONSES, NewParser(-1), "", s)
    case Closed => Closed
    case Thrown => Thrown
    case Got((m, data, s1)) =>
      if m.chunked then
        match ReceiveChunks(m, data, s1, "")
        case Closed => Closed
        case Thrown => Thrown
        case Got((m', body, rest, s2)) => Got((BuildResponse(m'.events).(body := body), rest, s2))
      else
        var r := BuildResponse(m.events);
        match ReceiveFixed(ContentLength(r.headers), data, s1)
        case None => Closed
        case Some((body, rest, s2)) => Got((r.(body := body), rest, s2))
  }
}
