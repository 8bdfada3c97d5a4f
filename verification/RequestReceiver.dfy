/** recvRequest as it is written: parser object, fixed buffer, read loop, body. */
module RequestReceiver {
  import opened Wrappers
  import opened ParserTables
  import opened Machine
  import opened HttpMessages
  import opened ByteStream
  import opened Framing
  import opened ResponseReceiver
  import opened RequestExchange

  /** HttpRequestParser: the automaton, the request its callbacks build, and their error flag. */
  class RequestParser {
    const machine: Automaton
    var data: Request
    var error: bool

    ghost predicate Valid()
      reads this, machine
    {
      && machine.table == RequestEdge
      && data == BuildRequest(machine.events)
      && error == AnyRejected(RequestRejects, machine.events)
      && !AnyRejected(RequestRaises, machine.events)
    }

    constructor ()
      ensures Valid() && fresh(machine) && machine.View() == NewParser(0)
    {
      machine := new Automaton(RequestEdge, 0);
      data := NEW_REQUEST;
      error := false;
    }

    /** The callbacks; `thrown` when the query is longer than a string can be. */
    method Deliver(e: Event) returns (thrown: bool)
      modifies this
      ensures thrown == RequestRaises(e)
      ensures data == DeliverRequest(old(data), e) && error == (old(error) || RequestRejects(e))
    {
      thrown := false;
      match e {
        case Method(text) =>
          var m := MethodOf(text);
          if m == None {
            error := true;
          } else {
            data := data.(verb := m.value);
          }
        case Path(text) => data := data.(path := text);
        case Query(text) => data := data.(query := text);
        case Overlong => thrown := true;
        case Fragment(text) => data := data.(fragment := text);
        case Version(text) =>
          var v := VersionByte(text);
          if v == 0 {
            error := true;
          } else {
            data := data.(version := v);
          }
        case Field(name, value) =>
          if name != "" {
            data := data.(headers := SetHeader(data.headers, name, value));
          }
        case _ =>
      }
    }

    /** A call's callbacks, up to the first that throws: what it finds built stays as it is. */
    method DeliverAll(calls: seq<Event>, ghost before: seq<Event>) returns (thrown: bool)
      requires data == BuildRequest(before) && error == AnyRejected(RequestRejects, before)
      modifies this
      ensures thrown == AnyRejected(RequestRaises, calls)
      ensures var k := if thrown then FirstRaise(calls) else |calls|;
              data == BuildRequest(before + calls[..k]) && error == AnyRejected(RequestRejects, before + calls[..k])
    {
      hide DeliverRequest, RequestRejects;
      assert before + [] == before;
      thrown := false;
      var i := 0;
      while i < |calls|
        invariant 0 <= i <= |calls| && forall j :: 0 <= j < i ==> !RequestRaises(calls[j])
        invariant data == BuildRequest(before + calls[..i])
        invariant error == AnyRejected(RequestRejects, before + calls[..i])
      {
        OneMore(before + calls[..i], calls[i]);
        assert before + calls[..i + 1] == before + calls[..i] + [calls[i]];
        ghost var built := data;
        thrown := Deliver(calls[i]);
        if thrown {
          ThrowingBuildsNothing(built, calls[i]);
          assert FirstRaise(calls) == i;
          return;
        }
        i := i + 1;
      }
    }

    /** The first callback that throws. */
    static ghost function FirstRaise(calls: seq<Event>): (k: nat)
      ensures k <= |calls| && (k < |calls| ==> RequestRaises(calls[k])) && forall j :: 0 <= j < k ==> !RequestRaises(calls[j])
    {
      if calls == [] || RequestRaises(calls[0]) then 0
      else
        var k := FirstRaise(calls[1..]);
        assert forall j :: 1 <= j < |calls| ==> calls[j] == calls[1..][j - 1];
        k + 1
    }

    static lemma ThrowingBuildsNothing(r: Request, e: Event)
      requires RequestRaises(e)
      ensures DeliverRequest(r, e) == r && !RequestRejects(e)
    {
    }

    static lemma OneMore(events: seq<Event>, e: Event)
      ensures BuildRequest(events + [e]) == DeliverRequest(BuildRequest(events), e)
      ensures AnyRejected(RequestRejects, events + [e]) == (AnyRejected(RequestRejects, events) || RequestRejects(e))
    {
      hide DeliverRequest, RequestRejects;
      DeliverConcat(NEW_REQUEST, events, [e]);
      DeliverOne(BuildRequest(events), e);
      var all := events + [e];
      if AnyRejected(RequestRejects, events) {
        var i :| 0 <= i < |events| && RequestRejects(events[i]);
        assert RequestRejects(all[i]);
      }
      if AnyRejected(RequestRejects, all) {
        var i :| 0 <= i < |all| && RequestRejects(all[i]);
        assert i < |events| ==> RequestRejects(events[i]);
        assert i == |events| ==> all[i] == e;
      } else {
        assert !RequestRejects(all[|events|]);
      }
    }

    /** Whether something throws among earlier and later callbacks. */
    static lemma RaisedIn(a: seq<Event>, b: seq<Event>)
      ensures AnyRejected(RequestRaises, a + b) == (AnyRejected(RequestRaises, a) || AnyRejected(RequestRaises, b))
    {
      hide RequestRaises;
      var all := a + b;
      if AnyRejected(RequestRaises, a) {
        var i :| 0 <= i < |a| && RequestRaises(a[i]);
        assert RequestRaises(all[i]);
      }
      if AnyRejected(RequestRaises, b) {
        var i :| 0 <= i < |b| && RequestRaises(b[i]);
        assert RequestRaises(all[|a| + i]);
      }
    }

    /**
     execute: the first `len` bytes; what is not consumed moves to the front of the buffer.  When a
     callback throws, so does execute.
     */
    method Execute(buffer: array<char>, len: nat) returns (n: nat, thrown: bool)
      requires Valid() && 0 < len <= buffer.Length
      modifies this, machine, buffer
      ensures var (m, k) := Machine.Execute(RequestEdge, old(machine.View()), old(buffer[..len]));
              && thrown == Raised(REQUESTS, m)
              && (!thrown ==> Valid() && (machine.View(), n) == (m, k) && buffer[..len - n] == old(buffer[..len])[n..])
    {
      hide BuildRequest, AnyRejected;
      ghost var before := machine.events;
      var calls;
      n, calls := machine.Execute(buffer, len);
      RaisedIn(before, calls);
      thrown := DeliverAll(calls, before);
      if thrown {
        return;
      }
      assert calls[..|calls|] == calls;
      assert buffer[n..len] == buffer[..len][n..];
      MoveToFront(buffer, n, len);
    }

    predicate HasError()
      reads this, machine
    {
      error || machine.cs == 0
    }
  }

  /** The loop of recvRequest: as many bytes behind the head as it returns are left in the buffer. */
  method ReadHead(c: Connection, parser: RequestParser, data: array<char>) returns (r: Outcome<nat>)
    requires parser.Valid() && data.Length == BUFFER
    modifies c, parser, parser.machine, data
    ensures c.open == (old(c.open) && !r.Closed?)
    ensures match ReceiveHead(REQUESTS, old(parser.machine.View()), "", old(c.arrivals))
            case Closed => r == Closed
            case Thrown => r == Thrown
            case Got((m, rest, s)) =>
              && r.Got? && r.value < BUFFER && parser.Valid() && parser.machine.View() == m
              && data[..r.value] == rest && c.arrivals == s
  {
    hide ReceiveHead, Machine.Execute, ByteStream.Read, Concat, AnyRejected, BuildRequest, RequestEdge;
    var offset: nat := 0;
    assert data[..0] == "";
    while true
      invariant parser.Valid() && offset < BUFFER && c.open == old(c.open)
      invariant ReceiveHead(REQUESTS, old(parser.machine.View()), "", old(c.arrivals))
                == ReceiveHead(REQUESTS, parser.machine.View(), data[..offset], c.arrivals)
      decreases |Concat(c.arrivals)|
    {
      HeadStep(REQUESTS, parser.machine.View(), data[..offset], c.arrivals);
      var len := c.Read(data, offset, BUFFER - offset);
      if len <= 0 {
        c.Close();
        return Closed;
      }
      len := len + offset;
      var nparse, thrown := parser.Execute(data, len);
      if thrown {
        return Thrown;
      }
      if parser.HasError() {
        c.Close();
        return Closed;
      }
      offset := len - nparse;
      // The buffer is never full here: a call of execute that reports no error has consumed something.
      assert offset < BUFFER;
      if parser.machine.cs >= 348 {
        return Got(offset);
      }
    }
  }

  /** HttpRequest::init. */
  function Inited(r: Request): Request {
    r.(close := Closing(r.close, r.headers))
  }

  /**
   recvRequest: a request, or the connection is closed, or an exception leaves it open.  `unread` is what
   the buffer holds behind the message when it is given up.
   */
  method RecvRequest(c: Connection) returns (r: Outcome<Request>, ghost unread: string)
    modifies c
    ensures c.open == (old(c.open) && !r.Closed?)
    ensures match ReceiveRequest(old(c.arrivals))
            case Closed => r == Closed
            case Thrown => r == Thrown
            case Got((request, rest, s)) => r == Got(request) && unread == rest && c.arrivals == s
  {
    hide ReceiveHead, Framing.ReceiveFixed, AnyRejected, BuildRequest, ContentLength;
    var parser := new RequestParser();
    var data := new char[BUFFER];
    var head := ReadHead(c, parser, data);
    match head {
      case Closed => return Closed, "";
      case Thrown => return Thrown, "";
      case Got(offset) =>
        var ok, body;
        ok, body, unread := c.ReceiveFixed(ContentLength(parser.data.headers), data, offset);
        if !ok {
          return Closed, "";
        }
        parser.data := Inited(parser.data.(body := body));
        r := Got(parser.data);
    }
  }
}
