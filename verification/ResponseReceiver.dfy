/**
 recvResponse as it is written: a parser whose fields the automaton updates, one fixed buffer that
 every execute shifts, and loops over reads.  Each method is tied to the specification on values.
 */
module ResponseReceiver {
  import opened Wrappers
  import opened HttpText
  import opened ParserTables
  import opened Machine
  import opened HttpMessages
  import opened ByteStream
  import opened Framing

  /** httpclient_parser and http_parser: the fields of the automaton. */
  class Automaton {
    const table: Table
    var cs: int
    var mark: nat
    var fieldStart: nat
    var fieldLen: nat
    var queryStart: nat
    var bodyStart: nat
    var contentLen: int
    var status: int
    var chunked: bool
    var chunksDone: bool
    var close: bool
    /** Every callback made so far. */
    ghost var events: seq<Event>

    ghost function View(): Parser
      reads this
    {
      Parser(cs, mark, fieldStart, fieldLen, queryStart, bodyStart, contentLen, status, chunked, chunksDone, close, events)
    }

    constructor (table: Table, length: int)
      ensures this.table == table && View() == NewParser(length)
    {
      this.table := table;
      cs, mark, fieldStart, fieldLen, queryStart, bodyStart := 1, 0, 0, 0, 0, 0;
      contentLen, status, chunked, chunksDone, close := length, 0, false, false, false;
      events := [];
    }

    /** httpclient_parser_init, on a parser that has been used. */
    method Init(length: int)
      modifies this
      ensures View() == Reset(old(View()), length)
    {
      cs, mark, fieldStart, fieldLen, bodyStart := 1, 0, 0, 0, 0;
      contentLen, chunked, chunksDone, close := length, false, false, false;
    }

    /** One action; `calls` is the callback it makes. */
    method Do(a: Action, text: string, p: nat) returns (calls: seq<Event>)
      modifies this
      ensures View() == Act(a, old(View()), text, p) && events == old(events) + calls
    {
      hide NumberAt, Slice;
      calls := [];
      match a {
        case Skip =>
        case Mark => mark := p;
        case StartField => fieldStart := p;
        case EndField => fieldLen := if fieldStart <= p then p - fieldStart else 0;
        case MarkQuery => queryStart := p;
        case EmitField => calls := [Field(Slice(text, fieldStart, fieldStart + fieldLen), Slice(text, mark, p))];
        case EmitReason => calls := [Reason(Slice(text, mark, p))];
        case EmitStatus =>
          status := NumberAt(text, mark, 10);
          calls := [StatusCode(status)];
        case EmitVersion => calls := [Version(Slice(text, mark, p))];
        case EmitChunk =>
          chunked := true;
          contentLen := NumberAt(text, mark, 16);
          if contentLen <= 0 {
            chunksDone := true;
            calls := [LastChunk(contentLen)];
          } else {
            chunksDone := false;
            calls := [ChunkSize(contentLen)];
          }
        case EmitMethod => calls := [Method(Slice(text, mark, p))];
        case EmitPath => calls := [Path(Slice(text, mark, p))];
        case EmitUri => calls := [Uri(Slice(text, mark, p))];
        case EmitQuery => calls := [if queryStart <= p then Query(Slice(text, queryStart, p)) else Overlong];
        case EmitFragment => calls := [Fragment(Slice(text, mark, p))];
        case SetLength => contentLen := NumberAt(text, mark, 10);
        case SetClose => close := true;
        case SetChunked => chunked := true;
        case Done =>
          bodyStart := p + 1;
          calls := [HeaderDone];
      }
      events := events + calls;
    }

    /** The actions of an edge, and the move to its target. */
    method Take(e: Edge, text: string, p: nat) returns (calls: seq<Event>)
      modifies this
      ensures View() == Fire(e, old(View()), text, p) && events == old(events) + calls
    {
      hide Act;
      calls := Do(e.a1, text, p);
      var more := Do(e.a2, text, p);
      calls := calls + more;
      more := Do(e.a3, text, p);
      calls := calls + more;
      more := Do(e.a4, text, p);
      calls := calls + more;
      cs := e.target;
    }

    /**
     httpclient_parser_execute: walks the first `len` bytes; returns how many it consumed and the
     callbacks it made, in order.
     */
    method Execute(buffer: array<char>, len: nat) returns (n: nat, calls: seq<Event>)
      requires len <= buffer.Length
      modifies this
      ensures (View(), n) == Machine.Execute(table, old(View()), buffer[..len]) && n <= len
      ensures events == old(events) + calls
      ensures len > 0 ==> Bounded(View(), len)
      ensures len > 0 ==> (bodyStart <= len <==> PassesDone(table, old(cs), buffer[..len]) || old(bodyStart) <= len)
    {
      hide Fire;
      var text := buffer[..len];
      mark, fieldLen, fieldStart := 0, 0, 0;
      calls := [];
      n := 0;
      ghost var start := View();
      if len > 0 {
        ChecksHoldIff(table, old(View()), text);
        RunStaysInside(table, start, text, 0);
      }
      while n < len
        invariant 0 <= n <= len && events == old(events) + calls
        invariant Run(table, View(), text, n) == Run(table, start, text, 0)
      {
        var e := table(cs, text[n]);
        var more := Take(e, text, n);
        calls := calls + more;
        if e.target == 0 {
          return;
        }
        n := n + 1;
        if e.Halts() {
          return;
        }
      }
    }
  }

  /** memmove to the front. */
  method MoveToFront(data: array<char>, from: nat, len: nat)
    requires from <= len <= data.Length
    modifies data
    ensures data[..len - from] == old(data[from..len])
  {
    forall i | 0 <= i < len - from {
      data[i] := data[i + from];
    }
  }

  /** HttpResponseParser: the automaton, the response its callbacks build, and their error flag. */
  class ResponseParser {
    const machine: Automaton
    var data: Response
    var error: bool

    ghost predicate Valid()
      reads this, machine
    {
      && machine.table == ResponseEdge
      && data == BuildResponse(machine.events)
      && error == AnyRejected(ResponseRejects, machine.events)
    }

    constructor ()
      ensures Valid() && fresh(machine) && machine.View() == NewParser(-1)
    {
      machine := new Automaton(ResponseEdge, -1);
      data := NEW_RESPONSE;
      error := false;
    }

    /** The callbacks. */
    method Deliver(e: Event)
      modifies this
      ensures data == DeliverResponse(old(data), e) && error == (old(error) || ResponseRejects(e))
    {
      match e {
        case Version(text) =>
          var v := VersionByte(text);
          if v == 0 {
            error := true;
          } else {
            data := data.(version := v);
          }
        case StatusCode(code) => data := data.(status := code);
        case Reason(text) => data := data.(reason := text);
        case Field(name, value) =>
          if name != "" {
            data := data.(headers := SetHeader(data.headers, name, value));
          }
        case _ =>
      }
    }

    method DeliverAll(calls: seq<Event>, ghost before: seq<Event>)
      requires data == BuildResponse(before) && error == AnyRejected(ResponseRejects, before)
      modifies this
      ensures data == BuildResponse(before + calls) && error == AnyRejected(ResponseRejects, before + calls)
    {
      hide DeliverResponse, ResponseRejects;
      assert before + [] == before;
      var i := 0;
      while i < |calls|
        invariant 0 <= i <= |calls|
        invariant data == BuildResponse(before + calls[..i])
        invariant error == AnyRejected(ResponseRejects, before + calls[..i])
      {
        DeliverOne(before + calls[..i], calls[i]);
        assert before + calls[..i + 1] == before + calls[..i] + [calls[i]];
        Deliver(calls[i]);
        i := i + 1;
      }
      assert calls[..i] == calls;
    }

    static lemma DeliverOne(events: seq<Event>, e: Event)
      ensures BuildResponse(events + [e]) == DeliverResponse(BuildResponse(events), e)
      ensures AnyRejected(ResponseRejects, events + [e]) == (AnyRejected(ResponseRejects, events) || ResponseRejects(e))
    {
      hide DeliverResponse, ResponseRejects;
      var all := events + [e];
      assert all[..|all| - 1] == events && all[|events|] == e;
      if AnyRejected(ResponseRejects, events) {
        var i :| 0 <= i < |events| && ResponseRejects(events[i]);
        assert ResponseRejects(all[i]);
      }
      if AnyRejected(ResponseRejects, all) {
        var i :| 0 <= i < |all| && ResponseRejects(all[i]);
        assert i < |events| ==> ResponseRejects(events[i]);
      }
    }

    /** execute: the first `len` bytes; what is not consumed moves to the front of the buffer. */
    method Execute(buffer: array<char>, len: nat, chunk: bool) returns (n: nat)
      requires Valid() && 0 < len <= buffer.Length
      modifies this, machine, buffer
      ensures Valid() && n <= len
      ensures var m := old(machine.View());
              (machine.View(), n) == Machine.Execute(ResponseEdge, if chunk then Reset(m, -1) else m, old(buffer[..len]))
      ensures buffer[..len - n] == old(buffer[..len])[n..]
    {
      hide BuildResponse, AnyRejected;
      if chunk {
        machine.Init(-1);
      }
      ghost var before := machine.events;
      var calls;
      n, calls := machine.Execute(buffer, len);
      DeliverAll(calls, before);
      assert buffer[n..len] == buffer[..len][n..];
      MoveToFront(buffer, n, len);
    }

    predicate HasError()
      reads this, machine
    {
      error || machine.cs == 0
    }
  }

  /** A connection: what the peer has sent and will send, and whether it is open.  Sessions read from one, too. */
  class Connection {
    var arrivals: Arrivals
    var open: bool

    constructor (arrivals: Arrivals)
      ensures this.arrivals == arrivals && open
    {
      this.arrivals := arrivals;
      open := true;
    }

    method Close()
      modifies this`open
      ensures !open
    {
      open := false;
    }

    /** read: at most n bytes, put at `offset`. */
    method Read(data: array<char>, offset: nat, n: nat) returns (rt: nat)
      requires offset + n <= data.Length
      modifies this`arrivals, data
      ensures rt == |ByteStream.Read(old(arrivals), n).0| <= n && arrivals == ByteStream.Read(old(arrivals), n).1
      ensures data[..offset + rt] == old(data[..offset]) + ByteStream.Read(old(arrivals), n).0
      ensures data[offset + rt..] == old(data[offset + rt..])
      ensures data[offset + n..] == old(data[offset + n..])
    {
      var (got, rest) := ByteStream.Read(arrivals, n);
      arrivals := rest;
      rt := |got|;
      forall i | 0 <= i < rt {
        data[offset + i] := got[i];
      }
    }

    /** readFixSize: reads until `length` bytes have come; the result is cut to an int. */
    method ReadFixSize(data: array<char>, start: nat, length: nat) returns (r: int)
      requires start + length <= data.Length
      modifies this`arrivals, data
      ensures match Drain(old(arrivals), length, length)
              case None => r == 0
              case Some((t, rest)) =>
                r == ToInt32(length) && data[..start + length] == old(data[..start]) + t && arrivals == rest
      ensures data[start + length..] == old(data[start + length..])
    {
      hide Drain, ByteStream.Read, ToInt32;
      var offset: nat, left: nat := 0, length;
      ghost var got, all := "", Drain(arrivals, length, length);
      while left > 0
        invariant offset + left == length && |got| == offset
        invariant data[..start + offset] == old(data[..start]) + got
        invariant data[start + length..] == old(data[start + length..])
        invariant Prepend("", all) == Prepend(got, Drain(arrivals, left, length))
      {
        DrainStep(got, arrivals, left, length);
        ghost var s := arrivals;
        var len := Read(data, start + offset, left);
        if len <= 0 {
          return 0;
        }
        got := got + ByteStream.Read(s, left).0;
        offset := offset + len;
        left := left - len;
      }
      DrainEnds(all, got, arrivals, length);
      r := ToInt32(length);
    }

    /** Reads behind the first `len` bytes of the buffer and terminates the text with a NUL. */
    method Fill(data: array<char>, len: nat) returns (total: nat)
      requires len < BUFFER && data.Length == BUFFER + 1
      modifies this`arrivals, data
      ensures var (got, s) := ByteStream.Read(old(arrivals), BUFFER - len);
              total == len + |got| <= BUFFER && arrivals == s && data[..total] == old(data[..len]) + got
    {
      var rt := Read(data, len, BUFFER - len);
      total := len + rt;
      data[total] := '\0';
    }

    /** The loop of recvResponse that reads the head; `offset` bytes behind it are left in the buffer. */
    method ReceiveHead(parser: ResponseParser, data: array<char>) returns (ok: bool, offset: nat)
      requires parser.Valid() && data.Length == BUFFER + 1
      modifies this, parser, parser.machine, data
      ensures parser.Valid() && (ok ==> open == old(open)) && (!ok ==> !open)
      ensures match Framing.ReceiveHead(RESPONSES, old(parser.machine.View()), "", old(arrivals))
              case Closed => !ok
              case Thrown => false
              case Got((m, rest, s)) =>
                ok && offset < BUFFER && parser.machine.View() == m && data[..offset] == rest && arrivals == s
    {
      hide Framing.ReceiveHead, Machine.Execute, ByteStream.Read, Concat, AnyRejected, Raised, BuildResponse, ResponseEdge;
      offset := 0;
      assert data[..0] == "";
      while true
        invariant parser.Valid() && offset < BUFFER && open == old(open)
        invariant Framing.ReceiveHead(RESPONSES, old(parser.machine.View()), "", old(arrivals))
                  == Framing.ReceiveHead(RESPONSES, parser.machine.View(), data[..offset], arrivals)
        decreases |Concat(arrivals)|
      {
        HeadStep(RESPONSES, parser.machine.View(), data[..offset], arrivals);
        NeverRaises();
        var len := Fill(data, offset);
        if len <= offset {
          Close();
          return false, offset;
        }
        var nparse := parser.Execute(data, len, false);
        if parser.HasError() {
          Close();
          return false, offset;
        }
        offset := len - nparse;
        // The buffer is never full here: a call of execute that reports no error has consumed something.
        assert offset < BUFFER;
        if parser.machine.cs == 120 {
          return true, offset;
        }
      }
    }

    /** The inner loop of the chunk decoder: one size line. */
    method ReceiveSize(parser: ResponseParser, data: array<char>, len0: nat) returns (ok: bool, len: nat)
      requires parser.Valid() && data.Length == BUFFER + 1 && len0 < BUFFER
      modifies this, parser, parser.machine, data
      ensures parser.Valid() && (ok ==> open == old(open)) && (!ok ==> !open)
      ensures match Framing.ReceiveSize(old(parser.machine.View()), old(data[..len0]), old(arrivals), true)
              case None => !ok
              case Some((m, rest, s)) =>
                ok && len < BUFFER && parser.machine.View() == m && data[..len] == rest && arrivals == s
    {
      hide Framing.ReceiveSize, Machine.Execute, ByteStream.Read, Concat, AnyRejected, BuildResponse, ResponseEdge;
      var begin := true;
      len := len0;
      while true
        invariant parser.Valid() && len < BUFFER && open == old(open)
        invariant Framing.ReceiveSize(old(parser.machine.View()), old(data[..len0]), old(arrivals), true)
                  == Framing.ReceiveSize(parser.machine.View(), data[..len], arrivals, begin)
        decreases len + |Concat(arrivals)|
      {
        SizeStep(parser.machine.View(), data[..len], arrivals, begin);
        if !begin || len == 0 {
          var total := Fill(data, len);
          if total <= len {
            Close();
            return false, len;
          }
          len := total;
        }
        var nparse := parser.Execute(data, len, true);
        if parser.HasError() {
          Close();
          return false, len;
        }
        len := len - nparse;
        // As above, the buffer is never full here.
        assert len < BUFFER;
        begin := false;
        if parser.machine.cs == 120 {
          return true, len;
        }
      }
    }

    /** The payload behind a size line; `raised` when resizing the body throws. */
    method ReceivePayload(size: int, data: array<char>, len0: nat, body0: string)
      returns (ok: bool, raised: bool, body: string, len: nat)
      requires data.Length == BUFFER + 1 && len0 < BUFFER
      modifies this, data
      ensures (ok || raised ==> open == old(open)) && (!ok && !raised ==> !open)
      ensures match Framing.ReceivePayload(size, old(data[..len0]), old(arrivals), body0)
              case Closed => !ok && !raised
              case Thrown => !ok && raised
              case Got((b, rest, s)) =>
                ok && !raised && len < BUFFER && body == b && data[..len] == rest && arrivals == s
    {
      hide Drain, ByteStream.Read, Concat;
      if size + 2 <= len0 {
        if size < 0 {
          return false, true, body0, len0;
        }
        body := body0 + data[..size];
        assert data[size + 2..len0] == data[..len0][size + 2..] && data[..size] == data[..len0][..size];
        MoveToFront(data, size + 2, len0);
        return true, false, body, len0 - (size + 2);
      }
      ok, body := AppendRest(size - len0 + 2, data, body0 + data[..len0]);
      if !ok {
        return false, false, body, 0;
      }
      if |body| < 2 {
        return false, true, body, 0;
      }
      body := body[..|body| - 2];
      assert data[..0] == "";
      return true, false, body, 0;
    }

    /** The loop that appends `left` more bytes to the body. */
    method AppendRest(left0: nat, data: array<char>, body0: string) returns (ok: bool, body: string)
      requires data.Length == BUFFER + 1
      modifies this, data
      ensures ok ==> open == old(open)
      ensures match Drain(old(arrivals), left0, BUFFER)
              case None => !ok && !open
              case Some((t, s)) => ok && body == body0 + t && arrivals == s
    {
      hide Drain, ByteStream.Read, Concat;
      body := body0;
      var left: nat := left0;
      ghost var all, got := Drain(arrivals, left, BUFFER), "";
      while left > 0
        invariant open == old(open) && body == body0 + got
        invariant Prepend("", all) == Prepend(got, Drain(arrivals, left, BUFFER))
      {
        DrainStep(got, arrivals, left, BUFFER);
        ghost var piece := ByteStream.Read(arrivals, if left < BUFFER then left else BUFFER).0;
        var rt := Read(data, 0, if left > BUFFER then BUFFER else left);
        if rt <= 0 {
          Close();
          return false, body;
        }
        assert data[0..rt] == piece;
        Assoc(body0, got, piece);
        body := body + data[0..rt];
        got := got + piece;
        left := left - rt;
      }
      DrainEnds(all, got, arrivals, BUFFER);
      ok := true;
    }

    /** The chunk decoder. */
    method ReceiveChunks(parser: ResponseParser, data: array<char>, offset: nat)
      returns (ok: bool, raised: bool, body: string, ghost unread: string)
      requires parser.Valid() && data.Length == BUFFER + 1 && offset < BUFFER
      modifies this, parser, parser.machine, data
      ensures parser.Valid() && (ok || raised ==> open == old(open)) && (!ok && !raised ==> !open)
      ensures match Framing.ReceiveChunks(old(parser.machine.View()), old(data[..offset]), old(arrivals), "")
              case Closed => !ok && !raised
              case Thrown => !ok && raised
              case Got((m, b, rest, s)) =>
                ok && !raised && parser.machine.View() == m && body == b && unread == rest && arrivals == s
    {
      hide Framing.ReceiveSize, Framing.ReceivePayload, Framing.ReceiveChunks, Concat, AnyRejected, BuildResponse;
      body, raised, unread := "", false, "";
      var len: nat := offset;
      while true
        invariant parser.Valid() && len < BUFFER && open == old(open) && !raised
        invariant Framing.ReceiveChunks(old(parser.machine.View()), old(data[..offset]), old(arrivals), "")
                  == Framing.ReceiveChunks(parser.machine.View(), data[..len], arrivals, body)
        decreases len + |Concat(arrivals)|
      {
        ChunkStep(parser.machine.View(), data[..len], arrivals, body);
        ok, len := ReceiveSize(parser, data, len);
        if !ok {
          return;
        }
        ok, raised, body, len := ReceivePayload(parser.machine.contentLen, data, len, body);
        if !ok {
          return;
        }
        if parser.machine.chunksDone {
          unread := data[..len];
          return;
        }
      }
    }

    /** A body with a content length: what the buffer holds of it, and the rest from the connection. */
    method ReceiveFixed(length: int, data: array<char>, offset: nat)
      returns (ok: bool, body: string, ghost unread: string)
      requires data.Length >= BUFFER && offset < BUFFER
      modifies this
      ensures (ok ==> open == old(open)) && (!ok ==> !open)
      ensures match Framing.ReceiveFixed(length, old(data[..offset]), old(arrivals))
              case None => !ok
              case Some((b, rest, s)) => ok && body == b && unread == rest && arrivals == s
    {
      hide Drain, ByteStream.Read, Concat;
      ok, body, unread := true, "", data[..offset];
      if length > 0 {
        var text := new char[length];
        var len := if length >= offset then offset else length;
        forall i | 0 <= i < len {
          text[i] := data[i];
        }
        assert text[..len] == data[..len];
        var left := length - offset;
        if left > 0 {
          unread := "";
          var r := ReadFixSize(text, len, left);
          if r <= 0 {
            Close();
            return false, "", "";
          }
          assert text[..] == text[..len + left];
        } else {
          assert text[..] == data[..offset][..length];
          unread := data[..offset][length..];
        }
        body := text[..];
      }
    }

    /** recvResponse.  `unread` is what the buffer holds behind the message when it is given up. */
    method RecvResponse() returns (r: Outcome<Response>, ghost unread: string)
      modifies this
      ensures open == (old(open) && !r.Closed?)
      ensures match ReceiveResponse(old(arrivals))
              case Closed => r == Closed
              case Thrown => r == Thrown
              case Got((response, rest, s)) => r == Got(response) && unread == rest && arrivals == s
    {
      hide Framing.ReceiveHead, Framing.ReceiveChunks, Framing.ReceiveFixed, AnyRejected, BuildResponse, ContentLength;
      unread := "";
      var parser := new ResponseParser();
      var data := new char[BUFFER + 1];
      var ok, offset := ReceiveHead(parser, data);
      if !ok {
        return Closed, "";
      }
      var body, raised;
      if parser.machine.chunked {
        ok, raised, body, unread := ReceiveChunks(parser, data, offset);
        if raised {
          return Thrown, "";
        }
      } else {
        ok, body, unread := ReceiveFixed(ContentLength(parser.data.headers), data, offset);
      }
      if !ok {
        return Closed, "";
      }
      parser.data := parser.data.(body := body);
      r := Got(parser.data);
    }
  }

  /** One round of the chunk decoder. */
  lemma ChunkStep(m: Parser, text: string, s: Arrivals, body: string)
    requires |text| < BUFFER
    ensures Framing.ReceiveChunks(m, text, s, body) ==
            match Framing.ReceiveSize(m, text, s, true)
            case None => Closed
            case Some((m1, d1, s1)) =>
              match Framing.ReceivePayload(m1.contentLen, d1, s1, body)
              case Closed => Closed
              case Thrown => Thrown
              case Got((body', d2, s2)) =>
                if m1.chunksDone then Got((m1, body', d2, s2)) else Framing.ReceiveChunks(m1, d2, s2, body')
  {
  }

  /** One round of the head loop. */
  lemma HeadStep(d: Dialect, m: Parser, text: string, s: Arrivals)
    requires |text| < BUFFER
    ensures var (got, s') := ByteStream.Read(s, BUFFER - |text|);
            var buffer := text + got;
            var (m', n) := Machine.Execute(d.table, m, buffer);
            && (got != "" && !Failed(d, m') ==> n > 0 && |Concat(s')| < |Concat(s)|)
            && Framing.ReceiveHead(d, m, text, s) ==
               if got == "" then Closed
               else if Raised(d, m') then Thrown
               else if Failed(d, m') then Closed
               else if d.final(m'.cs) then Got((m', buffer[n..], s'))
               else Framing.ReceiveHead(d, m', buffer[n..], s')
  {
    hide Run;
    var (got, s') := ByteStream.Read(s, BUFFER - |text|);
    var m' := Machine.Execute(d.table, m, text + got).0;
    if got != "" && !Failed(d, m') {
      ExecuteProgress(d.table, m, text + got);
    }
  }

  /** One round of the size-line loop. */
  lemma SizeStep(m: Parser, text: string, s: Arrivals, begin: bool)
    requires |text| < BUFFER
    ensures var wants := !begin || text == "";
            var (got, s') := if wants then ByteStream.Read(s, BUFFER - |text|) else ("", s);
            var buffer := text + got;
            var (m', n) := Machine.Execute(ResponseEdge, Reset(m, -1), buffer);
            && text + "" == text
            && ((got != "" || !wants) && !Failed(RESPONSES, m') ==>
                  n > 0 && |buffer[n..]| + |Concat(s')| < |text| + |Concat(s)|)
            && Framing.ReceiveSize(m, text, s, begin) ==
               if (wants && got == "") || Failed(RESPONSES, m') then None
               else if m'.cs == 120 then Some((m', buffer[n..], s'))
               else Framing.ReceiveSize(m', buffer[n..], s', false)
  {
    hide Run, ResponseEdge;
    var wants := !begin || text == "";
    var (got, s') := if wants then ByteStream.Read(s, BUFFER - |text|) else ("", s);
    var m' := Machine.Execute(ResponseEdge, Reset(m, -1), text + got).0;
    if (got != "" || !wants) && !Failed(RESPONSES, m') {
      ExecuteProgress(ResponseEdge, Reset(m, -1), text + got);
    }
  }
}
