/** Printing a response, and the round trip through the wire. */
module ResponseRoundTrip {
  import opened HttpText
  import opened ParserTables
  import opened Machine
  import opened Segmentation
  import opened HeaderGrammar
  import opened MessageHead
  import opened HttpMessages
  import opened ByteStream
  import opened Framing
  import opened HeadReceiving
  import opened ChunkedDecoding

  function InformationName(status: int): (name: string)
    ensures name != "" && IsLineText(name)
  {
    match status
    case 100 => assert IsLineText("CONTINUE"); "CONTINUE"
    case 101 => assert IsLineText("SWITCHING_PROTOCOLS"); "SWITCHING_PROTOCOLS"
    case 102 => assert IsLineText("PROCESSING"); "PROCESSING"
    case _ => assert IsLineText("UNKNOWN"); "UNKNOWN"
  }

  function EarlySuccessName(status: int): (name: string)
    ensures name != "" && IsLineText(name)
  {
    match status
    case 200 => assert IsLineText("OK"); "OK"
    case 201 => assert IsLineText("CREATED"); "CREATED"
    case 202 => assert IsLineText("ACCEPTED"); "ACCEPTED"
    case 203 => assert IsLineText("NON_AUTHORITATIVE_INFORMATION"); "NON_AUTHORITATIVE_INFORMATION"
    case 204 => assert IsLineText("NO_CONTENT"); "NO_CONTENT"
    case _ => assert IsLineText("UNKNOWN"); "UNKNOWN"
  }

  function LateSuccessName(status: int): (name: string)
    ensures name != "" && IsLineText(name)
  {
    match status
    case 205 => assert IsLineText("RESET_CONTENT"); "RESET_CONTENT"
    case 206 => assert IsLineText("PARTIAL_CONTENT"); "PARTIAL_CONTENT"
    case 207 => assert IsLineText("MULTI_STATUS"); "MULTI_STATUS"
    case 208 => assert IsLineText("ALREADY_REPORTED"); "ALREADY_REPORTED"
    case 226 => assert IsLineText("IM_USED"); "IM_USED"
    case _ => assert IsLineText("UNKNOWN"); "UNKNOWN"
  }

  function EarlyRedirectName(status: int): (name: string)
    ensures name != "" && IsLineText(name)
  {
    match status
    case 300 => assert IsLineText("MULTIPLE_CHOICES"); "MULTIPLE_CHOICES"
    case 301 => assert IsLineText("MOVED_PERMANENTLY"); "MOVED_PERMANENTLY"
    case 302 => assert IsLineText("FOUND"); "FOUND"
    case 303 => assert IsLineText("SEE_OTHER"); "SEE_OTHER"
    case _ => assert IsLineText("UNKNOWN"); "UNKNOWN"
  }

  function LateRedirectName(status: int): (name: string)
    ensures name != "" && IsLineText(name)
  {
    match status
    case 304 => assert IsLineText("NOT_MODIFIED"); "NOT_MODIFIED"
    case 305 => assert IsLineText("USE_PROXY"); "USE_PROXY"
    case 307 => assert IsLineText("TEMPORARY_REDIRECT"); "TEMPORARY_REDIRECT"
    case 308 => assert IsLineText("PERMANENT_REDIRECT"); "PERMANENT_REDIRECT"
    case _ => assert IsLineText("UNKNOWN"); "UNKNOWN"
  }

  function BadRequestName(status: int): (name: string)
    ensures name != "" && IsLineText(name)
  {
    match status
    case 400 => assert IsLineText("BAD_REQUEST"); "BAD_REQUEST"
    case 401 => assert IsLineText("UNAUTHORIZED"); "UNAUTHORIZED"
    case 402 => assert IsLineText("PAYMENT_REQUIRED"); "PAYMENT_REQUIRED"
    case 403 => assert IsLineText("FORBIDDEN"); "FORBIDDEN"
    case 404 => assert IsLineText("NOT_FOUND"); "NOT_FOUND"
    case _ => assert IsLineText("UNKNOWN"); "UNKNOWN"
  }

  function NotAllowedName(status: int): (name: string)
    ensures name != "" && IsLineText(name)
  {
    match status
    case 405 => assert IsLineText("METHOD_NOT_ALLOWED"); "METHOD_NOT_ALLOWED"
    case 406 => assert IsLineText("NOT_ACCEPTABLE"); "NOT_ACCEPTABLE"
    case 407 => assert IsLineText("PROXY_AUTHENTICATION_REQUIRED"); "PROXY_AUTHENTICATION_REQUIRED"
    case 408 => assert IsLineText("REQUEST_TIMEOUT"); "REQUEST_TIMEOUT"
    case 409 => assert IsLineText("CONFLICT"); "CONFLICT"
    case _ => assert IsLineText("UNKNOWN"); "UNKNOWN"
  }

  function GoneName(status: int): (name: string)
    ensures name != "" && IsLineText(name)
  {
    match status
    case 410 => assert IsLineText("GONE"); "GONE"
    case 411 => assert IsLineText("LENGTH_REQUIRED"); "LENGTH_REQUIRED"
    case 412 => assert IsLineText("PRECONDITION_FAILED"); "PRECONDITION_FAILED"
    case 413 => assert IsLineText("PAYLOAD_TOO_LARGE"); "PAYLOAD_TOO_LARGE"
    case 414 => assert IsLineText("URI_TOO_LONG"); "URI_TOO_LONG"
    case _ => assert IsLineText("UNKNOWN"); "UNKNOWN"
  }

  function UnsupportedName(status: int): (name: string)
    ensures name != "" && IsLineText(name)
  {
    match status
    case 415 => assert IsLineText("UNSUPPORTED_MEDIA_TYPE"); "UNSUPPORTED_MEDIA_TYPE"
    case 416 => assert IsLineText("RANGE_NOT_SATISFIABLE"); "RANGE_NOT_SATISFIABLE"
    case 417 => assert IsLineText("EXPECTATION_FAILED"); "EXPECTATION_FAILED"
    case 421 => assert IsLineText("MISDIRECTED_REQUEST"); "MISDIRECTED_REQUEST"
    case 422 => assert IsLineText("UNPROCESSABLE_ENTITY"); "UNPROCESSABLE_ENTITY"
    case _ => assert IsLineText("UNKNOWN"); "UNKNOWN"
  }

  function LockedName(status: int): (name: string)
    ensures name != "" && IsLineText(name)
  {
    match status
    case 423 => assert IsLineText("LOCKED"); "LOCKED"
    case 424 => assert IsLineText("FAILED_DEPENDENCY"); "FAILED_DEPENDENCY"
    case 426 => assert IsLineText("UPGRADE_REQUIRED"); "UPGRADE_REQUIRED"
    case 428 => assert IsLineText("PRECONDITION_REQUIRED"); "PRECONDITION_REQUIRED"
    case _ => assert IsLineText("UNKNOWN"); "UNKNOWN"
  }

  function RefusedName(status: int): (name: string)
    ensures name != "" && IsLineText(name)
  {
    match status
    case 429 => assert IsLineText("TOO_MANY_REQUESTS"); "TOO_MANY_REQUESTS"
    case 431 => assert IsLineText("REQUEST_HEADER_FIELDS_TOO_LARGE"); "REQUEST_HEADER_FIELDS_TOO_LARGE"
    case 451 => assert IsLineText("UNAVAILABLE_FOR_LEGAL_REASONS"); "UNAVAILABLE_FOR_LEGAL_REASONS"
    case _ => assert IsLineText("UNKNOWN"); "UNKNOWN"
  }

  function ServerErrorName(status: int): (name: string)
    ensures name != "" && IsLineText(name)
  {
    match status
    case 500 => assert IsLineText("INTERNAL_SERVER_ERROR"); "INTERNAL_SERVER_ERROR"
    case 501 => assert IsLineText("NOT_IMPLEMENTED"); "NOT_IMPLEMENTED"
    case 502 => assert IsLineText("BAD_GATEWAY"); "BAD_GATEWAY"
    case 503 => assert IsLineText("SERVICE_UNAVAILABLE"); "SERVICE_UNAVAILABLE"
    case 504 => assert IsLineText("GATEWAY_TIMEOUT"); "GATEWAY_TIMEOUT"
    case _ => assert IsLineText("UNKNOWN"); "UNKNOWN"
  }

  function LateServerErrorName(status: int): (name: string)
    ensures name != "" && IsLineText(name)
  {
    match status
    case 505 => assert IsLineText("HTTP_VERSION_NOT_SUPPORTED"); "HTTP_VERSION_NOT_SUPPORTED"
    case 506 => assert IsLineText("VARIANT_ALSO_NEGOTIATES"); "VARIANT_ALSO_NEGOTIATES"
    case 507 => assert IsLineText("INSUFFICIENT_STORAGE"); "INSUFFICIENT_STORAGE"
    case 508 => assert IsLineText("LOOP_DETECTED"); "LOOP_DETECTED"
    case 510 => assert IsLineText("NOT_EXTENDED"); "NOT_EXTENDED"
    case 511 => assert IsLineText("NETWORK_AUTHENTICATION_REQUIRED"); "NETWORK_AUTHENTICATION_REQUIRED"
    case _ => assert IsLineText("UNKNOWN"); "UNKNOWN"
  }

  /** HttpStatusToString: the name of the enumerator, which is also what `dump` prints for a reason. */
  function StatusName(status: int): (name: string)
    ensures name != "" && IsLineText(name)
  {
    if status < 200 then InformationName(status)
    else if status < 205 then EarlySuccessName(status)
    else if status < 300 then LateSuccessName(status)
    else if status < 304 then EarlyRedirectName(status)
    else if status < 400 then LateRedirectName(status)
    else if status < 405 then BadRequestName(status)
    else if status < 410 then NotAllowedName(status)
    else if status < 415 then GoneName(status)
    else if status < 423 then UnsupportedName(status)
    else if status < 429 then LockedName(status)
    else if status < 500 then RefusedName(status)
    else if status < 505 then ServerErrorName(status)
    else LateServerErrorName(status)
  }

  function ReasonText(r: Response): string {
    if r.reason == "" then StatusName(r.status) else r.reason
  }

  function ConnectionValue(close: bool): string {
    if close then "close" else "keep-alive"
  }

  /** The header lines of `dump` for the headers themselves, in the map's order. */
  function HeaderLines(h: Headers, order: seq<string>): seq<Line>
    requires forall k :: k in order ==> k in h
  {
    if order == [] then []
    else
      var k := order[|order| - 1];
      var front := order[..|order| - 1];
      HeaderLines(h, front) + (if h[k].0 == "connection" then [] else [Line(h[k].0, " ", h[k].1, CRLF)])
  }

  /** `order` lists the keys of the map, each once: the map's iteration order. */
  ghost predicate Enumerates(order: seq<string>, h: Headers) {
    && (forall k :: k in order <==> k in h)
    && (forall i, j :: 0 <= i < j < |order| ==> order[i] != order[j])
  }

  /** The lines `dump` adds for the connection and the body's length. */
  function ExtraLines(r: Response): seq<Line> {
    [Line("connection", " ", ConnectionValue(r.close), CRLF)]
    + (if r.body == "" then [] else [Line("content-length", " ", Decimal(|r.body|), CRLF)])
  }

  function DumpLines(r: Response, order: seq<string>): seq<Line>
    requires forall k :: k in order ==> k in r.headers
  {
    HeaderLines(r.headers, order) + ExtraLines(r)
  }

  function StatusOf(r: Response): Status
    requires 0 <= r.status
  {
    Status(Decimal(r.version / 16), Decimal(r.version % 16), Decimal(r.status), ReasonText(r))
  }

  /** What stands behind the blank line. */
  function Tail(r: Response): string {
    if r.body == "" then "" else r.body + CRLF
  }

  /** HttpResponse::dump. */
  function Dump(r: Response, order: seq<string>): string
    requires 0 <= r.status && forall k :: k in order ==> k in r.headers
  {
    ((StatusOf(r).Text() + BlockText(DumpLines(r, order))) + CRLF) + Tail(r)
  }

  /** A header whose name may be printed and read back: none of the three special ones. */
  predicate PlainHeader(k: string, h: (string, string)) {
    && k == Fold(h.0) && IsName(h.0) && IsValue(h.1)
    && !Is(h.0, CONNECTION) && !Is(h.0, CONTENT_LENGTH) && !Is(h.0, TRANSFER_ENCODING)
  }

  predicate Printable(r: Response) {
    && 0 <= r.status < 0x8000_0000 && (r.version == 0x11 || r.version == 0x10)
    && IsLineText(r.reason) && |r.body| < 0x8000_0000
    && forall k :: k in r.headers ==> PlainHeader(k, r.headers[k])
  }

  /** The response that comes back.  (`close` is not read back: nothing sets it from the header.) */
  function Parsed(r: Response): Response {
    var h := r.headers["connection" := ("connection", ConnectionValue(r.close))];
    Response(r.status, r.version, true, ReasonText(r), r.body,
             if r.body == "" then h else h["content-length" := ("content-length", Decimal(|r.body|))])
  }

  // ---------------------------------------------------------------- the callbacks of a dump

  function DeliverAll(r: Response, events: seq<Event>): Response
    decreases |events|
  {
    if events == [] then r else DeliverAll(DeliverResponse(r, events[0]), events[1..])
  }

  lemma {:induction false} BuildMore(a: seq<Event>, b: seq<Event>)
    ensures BuildResponse(a + b) == DeliverAll(BuildResponse(a), b)
    decreases |b|
  {
    if b == [] {
      assert a + b == a;
    } else {
      var a' := a + [b[0]];
      assert a'[..|a'| - 1] == a;
      assert a + b == a' + b[1..];
      BuildMore(a', b[1..]);
    }
  }

  function SetAll(h: Headers, lines: seq<Line>): Headers
    decreases |lines|
  {
    if lines == [] then h else SetAll(SetHeader(h, lines[0].name, lines[0].value), lines[1..])
  }

  lemma {:induction false} DeliverFields(r: Response, lines: seq<Line>)
    requires AllValid(lines)
    ensures DeliverAll(r, Fields(lines)) == r.(headers := SetAll(r.headers, lines))
    decreases |lines|
  {
    if lines != [] {
      assert lines[0].Valid();
      DeliverFields(r.(headers := SetHeader(r.headers, lines[0].name, lines[0].value)), lines[1..]);
    }
  }

  lemma {:induction false} SetAllMore(h: Headers, a: seq<Line>, b: seq<Line>)
    ensures SetAll(h, a + b) == SetAll(SetAll(h, a), b)
    decreases |a|
  {
    if a == [] {
      assert a + b == b;
    } else {
      assert (a + b)[1..] == a[1..] + b;
      SetAllMore(SetHeader(h, a[0].name, a[0].value), a[1..], b);
    }
  }

  function Restrict(h: Headers, order: seq<string>): Headers {
    map k | k in h && k in order :: h[k]
  }

  lemma IsFolded(name: string)
    ensures name == "connection" ==> Is(name, CONNECTION)
  {
  }

  /** Adding a header under a new key. */
  lemma SetOne(h: Headers, front: seq<string>, k: string)
    requires k in h && k == Fold(h[k].0) && k !in front
    ensures SetHeader(Restrict(h, front), h[k].0, h[k].1) == Restrict(h, front + [k])
  {
  }

  lemma {:induction false} HeaderLinesSet(h: Headers, order: seq<string>)
    requires forall k :: k in order ==> k in h && PlainHeader(k, h[k])
    requires forall i, j :: 0 <= i < j < |order| ==> order[i] != order[j]
    ensures AllValid(HeaderLines(h, order))
    ensures SetAll(map[], HeaderLines(h, order)) == Restrict(h, order)
    ensures NoneChunks(HeaderLines(h, order))
    decreases |order|
  {
    hide IsName, IsValue, Is, Fold, Restrict, SetHeader;
    if order == [] {
      assert Restrict(h, order) == map[] by { RestrictNone(h); }
    } else {
      var k := order[|order| - 1];
      var front := order[..|order| - 1];
      HeaderLinesSet(h, front);
      assert k in order && PlainHeader(k, h[k]);
      IsFolded(h[k].0);
      var l := Line(h[k].0, " ", h[k].1, CRLF);
      SetAllMore(map[], HeaderLines(h, front), [l]);
      assert [l][1..] == [];
      SetOne(h, front, k);
      assert order == front + [k];
    }
  }

  lemma RestrictNone(h: Headers)
    ensures Restrict(h, []) == map[]
  {
  }

  // ---------------------------------------------------------------- the round trip

  /**
   A body with a content length (section 6.2 of RFC 9112): exactly the first bytes behind the head,
   however they are spread over the buffer and later reads, and nothing behind them.
   */
  lemma FixedBody(body: string, data: string, s: Arrivals, rest: string)
    requires 0 < |body| < 0x8000_0000 && Steady(s, BUFFER) && data + Concat(s) == body + rest
    ensures var r := ReceiveFixed(|body|, data, s);
            && r.Some? && r.value.0 == body && r.value.1 + Concat(r.value.2) == rest
            && (|data| < BUFFER ==> Reached(data, s, |body|, r.value.1, r.value.2))
  {
    hide Steady, Concat, Drain;
    if |body| <= |data| {
      SplitAt(data[..|body|], data[|body|..] + Concat(s), body, rest) by {
        assert data[..|body|] + (data[|body|..] + Concat(s)) == data + Concat(s);
      }
    } else {
      var left := |body| - |data|;
      DrainCuts(s, left, BUFFER, left);
      var (t, s') := Drain(s, left, left).value;
      Assoc(data, t, Concat(s'));
      SplitAt(data + t, Concat(s'), body, rest);
      forall x | x > 0
        ensures Boundary("", s', x) <==> Boundary(data, s, |body| + x)
      {
        assert CutAt(s', x) <==> CutAt(s, x + left);
      }
    }
  }

  lemma KeysArePlain(h: Headers)
    requires forall k :: k in h ==> PlainHeader(k, h[k])
    ensures "connection" !in h && "content-length" !in h
  {
    forall k | k in h
      ensures k != "connection" && k != "content-length"
    {
      assert PlainHeader(k, h[k]);
    }
  }

  /** The lines of a dump, and the header map they build. */
  lemma DumpLinesFacts(r: Response, order: seq<string>)
    requires Printable(r) && Enumerates(order, r.headers)
    ensures AllValid(DumpLines(r, order))
    ensures SetAll(map[], DumpLines(r, order)) == Parsed(r).headers
    ensures NoneChunks(DumpLines(r, order))
  {
    hide PlainHeader, Is, Line.Valid, Restrict, ExtraLines, SetAll;
    HeaderLinesSet(r.headers, order);
    KeysArePlain(r.headers);
    SetAllMore(map[], HeaderLines(r.headers, order), ExtraLines(r));
    RestrictAll(r.headers, order);
    ExtraLinesValid(r);
    ExtraLinesSet(r);
  }

  lemma RestrictAll(h: Headers, order: seq<string>)
    requires Enumerates(order, h)
    ensures Restrict(h, order) == h
  {
  }

  /** No line asks for chunks. */
  predicate NoneChunks(lines: seq<Line>) {
    forall i :: 0 <= i < |lines| ==> !Is(lines[i].name, TRANSFER_ENCODING)
  }

  lemma ConnectionLineValid(close: bool)
    ensures Line("connection", " ", ConnectionValue(close), CRLF).Valid()
  {
  }

  lemma LengthLineValid(n: nat)
    ensures Line("content-length", " ", Decimal(n), CRLF).Valid()
  {
    hide Decimal;
    DecimalIsValue(n);
  }

  lemma ExtraLinesValid(r: Response)
    ensures AllValid(ExtraLines(r)) && NoneChunks(ExtraLines(r))
  {
    hide Line.Valid, Decimal, Matches;
    ConnectionLineValid(r.close);
    LengthLineValid(|r.body|);
  }

  lemma FoldOfLower(s: string)
    requires forall i :: 0 <= i < |s| ==> Lower(s[i]) == s[i]
    ensures Fold(s) == s
  {
    hide Fold;
    var f := Fold(s);
    assert forall i :: 0 <= i < |s| ==> f[i] == s[i];
  }

  lemma FoldedWords()
    ensures Fold("connection") == "connection" && Fold("content-length") == "content-length"
  {
    hide Fold;
    FoldOfLower("connection");
    FoldOfLower("content-length");
  }

  lemma ExtraLinesSet(r: Response)
    requires "connection" !in r.headers && "content-length" !in r.headers
    ensures SetAll(r.headers, ExtraLines(r)) == Parsed(r).headers
  {
    hide Decimal, Fold;
    FoldedWords();
    var a := Line("connection", " ", ConnectionValue(r.close), CRLF);
    if r.body == "" {
      assert ExtraLines(r) == [a] && [a][1..] == [];
    } else {
      var b := Line("content-length", " ", Decimal(|r.body|), CRLF);
      assert ExtraLines(r) == [a] + [b] && [a][1..] == [] && [b][1..] == [];
      SetAllMore(r.headers, [a], [b]);
    }
  }

  lemma DecimalIsValue(n: nat)
    ensures IsValue(Decimal(n)) && IsNumber(Decimal(n))
  {
    var s := Decimal(n);
    assert forall i :: 0 <= i < |s| ==> IsDigitIn(s[i], 10);
  }

  lemma SmallNumber(n: nat)
    requires n < 0x8000_0000
    ensures ToInt32(Clamp64(Value(Decimal(n), 10))) == n
  {
    ValueOfDecimal(n);
  }

  lemma VersionIsKnown(v: nat)
    requires v == 0x10 || v == 0x11
    ensures VersionByte(VersionText(Decimal(v / 16), Decimal(v % 16))) == v
  {
    assert Decimal(v / 16) == "1";
    assert VersionText("1", "1") == "HTTP/1.1" && VersionText("1", "0") == "HTTP/1.0";
    assert VersionText("1", "0")[7] != "HTTP/1.1"[7];
  }

  lemma StatusIsValid(r: Response)
    requires Printable(r)
    ensures StatusOf(r).Valid()
  {
    DecimalIsValue(r.version / 16);
    DecimalIsValue(r.version % 16);
    DecimalIsValue(r.status);
    VersionIsKnown(r.version);
  }

  /** The response that a head stands for, and a body behind it. */
  function ResponseOf(st: Status, lines: seq<Line>, body: string): Response
    requires st.Valid()
  {
    Response(ToInt32(Clamp64(Value(st.code, 10))), VersionByte(VersionText(st.major, st.minor)), true, st.reason, body,
             SetAll(map[], lines))
  }

  /** The response the callbacks build from a head. */
  lemma HeadBuilds(st: Status, lines: seq<Line>, m: Parser)
    requires st.Valid() && AllValid(lines)
    requires Same(m, AfterHead(AfterBlock(AfterStart(NewParser(-1), st), lines)))
    ensures BuildResponse(m.events) == ResponseOf(st, lines, "")
    ensures m.chunked <==> exists i :: 0 <= i < |lines| && Chunks(lines[i].name, lines[i].value)
  {
    hide Chunks, VersionText, VersionByte, Line.Valid, Value, ToInt32, Clamp64,
      BuildResponse, DeliverAll, SetAll, AfterBlock, Fields, IsLineText;
    var v, code := VersionText(st.major, st.minor), ToInt32(Clamp64(Value(st.code, 10)));
    var n := AfterStart(NewParser(-1), st);
    var start := [Version(v), StatusCode(code), Reason(st.reason)];
    assert n.events == start by { assert [] + start == start; }
    AfterBlockFacts(n, lines);
    assert m.events == start + (Fields(lines) + [HeaderDone]);
    StartBuilds(v, code, st.reason);
    BuildMore(start, Fields(lines) + [HeaderDone]);
    BuildMore(start, Fields(lines));
    DeliverFields(BuildResponse(start), lines);
    DeliverLast(BuildResponse(start), Fields(lines));
  }

  lemma StartBuilds(v: string, code: int, reason: string)
    requires VersionByte(v) != 0
    ensures BuildResponse([Version(v), StatusCode(code), Reason(reason)])
            == Response(code, VersionByte(v), true, reason, "", map[])
  {
    var e := [Version(v), StatusCode(code), Reason(reason)];
    var e1, e2 := e[..1], e[..2];
    assert BuildResponse([]) == NEW_RESPONSE;
    assert e1[..0] == [] && e1[0] == Version(v);
    assert BuildResponse(e1) == Response(200, VersionByte(v), true, "", "", map[]);
    assert e2[..1] == e1 && e2[1] == StatusCode(code);
    assert BuildResponse(e2) == Response(code, VersionByte(v), true, "", "", map[]);
    assert e[..2] == e2 && e[2] == Reason(reason);
  }

  lemma {:induction false} DeliverLast(r: Response, events: seq<Event>)
    ensures DeliverAll(r, events + [HeaderDone]) == DeliverAll(r, events)
    decreases |events|
  {
    if events == [] {
      assert [HeaderDone][1..] == [];
    } else {
      assert (events + [HeaderDone])[1..] == events[1..] + [HeaderDone];
      DeliverLast(DeliverResponse(r, events[0]), events[1..]);
    }
  }

  /** What comes back, member by member. */
  ghost predicate ComesBack(r: Response, y: Response) {
    && y.status == r.status && y.version == r.version && y.body == r.body && y.close
    && y.reason == (if r.reason == "" then StatusName(r.status) else r.reason)
    && (forall k :: k in y.headers <==> k in r.headers || k == "connection" || (k == "content-length" && r.body != ""))
    && (forall k :: k in r.headers ==> y.headers[k] == r.headers[k])
    && y.headers["connection"] == ("connection", if r.close then "close" else "keep-alive")
    && (r.body != "" ==> y.headers["content-length"] == ("content-length", Decimal(|r.body|)))
  }

  lemma ParsedComesBack(r: Response)
    requires Printable(r)
    ensures ComesBack(r, Parsed(r))
  {
    hide PlainHeader, StatusName, Decimal, IsLineText;
    KeysArePlain(r.headers);
  }

  /**
   Printing and receiving.  For every printable response, in every iteration order of its header
   map, and for reads that end, within the head, at line ends only, recvResponse gives back the
   status, version, reason, body and headers, with the connection and content-length headers that
   printing added; it leaves unread the line end that printing puts behind a body.
   */
  lemma RoundTrip(r: Response, order: seq<string>, s: Arrivals)
    requires Printable(r) && Enumerates(order, r.headers)
    requires Steady(s, BUFFER) && Concat(s) == Dump(r, order)
    requires var start, lines := StatusOf(r).Text(), DumpLines(r, order);
             CutsAtLineEnds(s, |start|, lines, |start| + |BlockText(lines)| + 2)
    ensures var x := ReceiveResponse(s);
            && x.Got? && x.value.0 == Parsed(r) && ComesBack(r, x.value.0)
            && x.value.1 + Concat(x.value.2) == if r.body == "" then "" else CRLF
  {
    hide CutsAtLineEnds, BuildResponse, AfterBlock, BlockText, StatusOf, ReceiveHead, ReceiveFixed, ReceiveChunks, Is, PlainHeader, ComesBack,
      IsLineText, DumpLines, AllValid, Boundary, ContentLength, Status.Text, Status.Valid, AfterStart, AfterHead;
    var lines := DumpLines(r, order);
    StatusIsValid(r);
    DumpLinesFacts(r, order);
    ReceiveWholeHead(StatusOf(r), lines, Tail(r), s);
    var (m, data, s1) := ReceiveHead(RESPONSES, NewParser(-1), "", s).value;
    HeadBuilds(StatusOf(r), lines, m);
    PrintedStart(r);
    LengthOfParsed(r);
    var b := BuildResponse(m.events);
    assert !m.chunked && b.headers == Parsed(r).headers;
    assert ContentLength(b.headers) == |r.body|;
    assert r.body + (if r.body == "" then "" else CRLF) == Tail(r);
    BodyIfAny(r.body, |r.body|, data, s1, if r.body == "" then "" else CRLF);
    assert b.(body := r.body) == Parsed(r);
    ParsedComesBack(r);
  }

  lemma PrintedStart(r: Response)
    requires Printable(r) && StatusOf(r).Valid()
    ensures forall lines, body ::
              ResponseOf(StatusOf(r), lines, body) == Response(r.status, r.version, true, ReasonText(r), body, SetAll(map[], lines))
  {
    hide Decimal, Value, SetAll, ToInt32, Clamp64, VersionByte, VersionText, ReasonText;
    SmallNumber(r.status);
    VersionIsKnown(r.version);
  }

  /** A body of a given length, which may be none. */
  lemma BodyIfAny(body: string, n: int, data: string, s: Arrivals, rest: string)
    requires |body| == (if n > 0 then n else 0) < 0x8000_0000 && Steady(s, BUFFER) && data + Concat(s) == body + rest
    ensures var r := ReceiveFixed(n, data, s);
            && r.Some? && r.value.0 == body && r.value.1 + Concat(r.value.2) == rest
            && (Concat(r.value.2) == rest <==> |data| <= |body|)
            && (|data| < BUFFER ==> Reached(data, s, |body|, r.value.1, r.value.2))
  {
    if body == "" {
      if |data| < BUFFER { ReachedItself(data, s); }
      assert body + rest == rest;
    } else {
      FixedBody(body, data, s, rest);
      FixedLeaves(|body|, data, s);
    }
    NothingDropped(ReceiveFixed(n, data, s).value.1, Concat(ReceiveFixed(n, data, s).value.2), rest);
  }

  lemma FixedLeaves(n: nat, data: string, s: Arrivals)
    requires n > 0 && ReceiveFixed(n, data, s).Some?
    ensures ReceiveFixed(n, data, s).value.1 == "" <==> |data| <= n
  {
    hide Drain;
  }

  lemma NothingDropped(dropped: string, kept: string, rest: string)
    requires dropped + kept == rest
    ensures kept == rest <==> dropped == ""
  {
    assert |dropped| + |kept| == |rest|;
  }

  lemma LengthOfParsed(r: Response)
    requires Printable(r)
    ensures ContentLength(Parsed(r).headers) == |r.body|
  {
    KeysArePlain(r.headers);
    LexicalOfDecimal(|r.body|);
  }

  /**
   A response with a body of a given length.  With a head of any valid lines of which none asks for
   chunks, and whose content-length says as much as the body is long, or is missing, no number, or not above zero when
   there is none, recvResponse gives back what the head says and exactly the body.  The connection keeps what follows if and only if the read that brought the
   end of the head went no further than the message; otherwise what was read beyond it is dropped.
   */
  lemma FixedResponse(st: Status, lines: seq<Line>, body: string, s: Arrivals, rest: string)
    requires st.Valid() && AllValid(lines) && Steady(s, BUFFER)
    requires forall i :: 0 <= i < |lines| ==> !Chunks(lines[i].name, lines[i].value)
    requires BodyLength(SetAll(map[], lines)) == |body| < 0x8000_0000
    requires Concat(s) == ((st.Text() + BlockText(lines)) + CRLF) + (body + rest)
    requires CutsAtLineEnds(s, |st.Text()|, lines, |st.Text()| + |BlockText(lines)| + 2)
    ensures var x := ReceiveResponse(s);
            && x.Got? && x.value.0 == ResponseOf(st, lines, body) && x.value.1 + Concat(x.value.2) == rest
            && var head := |st.Text()| + |BlockText(lines)| + 2;
            && Reached("", s, head + |body|, x.value.1, x.value.2)
            && (Concat(x.value.2) == rest <==> StopsWithin("", s, head, head + |body|))
  {
    hide CutsAtLineEnds, BuildResponse, AfterBlock, BlockText, ReceiveHead, ReceiveFixed, ReceiveChunks, Run, Chunks, Status.Valid,
      Status.Text, AfterStart, AfterHead, ContentLength, SetAll, StopsWithin, Boundary, Concat, Reached, Value, ToInt32, Clamp64, VersionByte, VersionText;
    ReceiveWholeHead(st, lines, body + rest, s);
    var (m, data, s1) := ReceiveHead(RESPONSES, NewParser(-1), "", s).value;
    HeadBuilds(st, lines, m);
    BodyIfAny(body, ContentLength(SetAll(map[], lines)), data, s1, rest);
    HeadReached(ReceiveHead(RESPONSES, NewParser(-1), "", s), s, |st.Text()| + |BlockText(lines)| + 2, body + rest);
    ReachedMore("", s, |st.Text()| + |BlockText(lines)| + 2, data, s1, |body|,
                ReceiveResponse(s).value.1, ReceiveResponse(s).value.2);
    HeadRunsOut(ReceiveHead(RESPONSES, NewParser(-1), "", s), s, |st.Text()| + |BlockText(lines)| + 2, body + rest, |body|);
    assert BuildResponse(m.events).(body := body) == ResponseOf(st, lines, body);
  }

  /**
   A chunked response.  With a head of any valid lines of which one says `transfer-encoding:
   chunked`, an encoded body behind it, and reads that respect the head's lines and the size lines,
   recvResponse gives back what the head says, with the payloads as the body.  The connection keeps what
   follows if and only if the read that brought the end of the last size line went no further than the
   message; otherwise what was read beyond it is dropped.
   */
  lemma ChunkedResponse(st: Status, lines: seq<Line>, chunks: seq<Chunk>, last: string, s: Arrivals, rest: string)
    requires st.Valid() && AllValid(lines) && AllChunks(chunks) && IsZero(last) && Steady(s, BUFFER)
    requires exists i :: 0 <= i < |lines| && Chunks(lines[i].name, lines[i].value)
    requires Concat(s) == ((st.Text() + BlockText(lines)) + CRLF) + (Wire(chunks, last) + rest)
    requires var n := |st.Text()| + |BlockText(lines)| + 2;
             CutsAtLineEnds(s, |st.Text()|, lines, n) && SizeLinesKept("", s, n, chunks, last)
    ensures var x := ReceiveResponse(s);
            && x.Got? && x.value.0 == ResponseOf(st, lines, Payloads(chunks))
            && x.value.1 + Concat(x.value.2) == rest
            && var end := |st.Text()| + |BlockText(lines)| + 2 + |Wire(chunks, last)|;
            && Reached("", s, end, x.value.1, x.value.2)
            && (Concat(x.value.2) == rest <==> StopsWithin("", s, end - 2, end))
  {
    hide CutsAtLineEnds, BuildResponse, AfterBlock, BlockText, ReceiveHead, ReceiveChunks, Run, Chunks, Status.Valid,
      Status.Text, AfterStart, AfterHead, SetAll, StopsWithin, Boundary, Concat, Reached, Value, ToInt32, Clamp64, VersionByte, VersionText, Payloads, Wire;
    ReceiveWholeHead(st, lines, Wire(chunks, last) + rest, s);
    var n := |st.Text()| + |BlockText(lines)| + 2;
    var (m, data, s1) := ReceiveHead(RESPONSES, NewParser(-1), "", s).value;
    HeadBuilds(st, lines, m);
    SizeLinesShift("", s, n, data, s1, 0, chunks, last);
    DecodingInvertsEncoding(m, chunks, last, data, s1, rest);
    WireEnds(chunks, last);
    var w := |Wire(chunks, last)|;
    HeadReached(ReceiveHead(RESPONSES, NewParser(-1), "", s), s, n, Wire(chunks, last) + rest);
    ReachedMore("", s, n, data, s1, w, ReceiveResponse(s).value.1, ReceiveResponse(s).value.2);
    HeadStopsShift(ReceiveHead(RESPONSES, NewParser(-1), "", s), s, n, Wire(chunks, last) + rest, w - 2, w);
    NothingDropped(ReceiveResponse(s).value.1, Concat(ReceiveResponse(s).value.2), rest);
  }

  lemma {:induction false} WireEnds(chunks: seq<Chunk>, last: string)
    ensures |Wire(chunks, last)| >= 4
  {
    if chunks != [] { WireEnds(chunks[1..], last); }
  }

  lemma {:induction false} SizeLinesShift(data0: string, s0: Arrivals, n: nat, data: string, s: Arrivals, at: nat,
                                          chunks: seq<Chunk>, last: string)
    requires forall x :: x > 0 ==> (Boundary(data, s, x) <==> Boundary(data0, s0, n + x))
    requires SizeLinesKept(data0, s0, n + at, chunks, last) && AllChunks(chunks) && IsZero(last)
    ensures SizeLinesKept(data, s, at, chunks, last)
    decreases |chunks|
  {
    hide Boundary, AllZeros, Value;
    SizeLineShift(data0, s0, n, data, s, at, if chunks == [] then last else chunks[0].size);
    if chunks != [] {
      SizeLinesShift(data0, s0, n, data, s, at + |chunks[0].Text()|, chunks[1..], last);
    }
  }

  lemma SizeLineShift(data0: string, s0: Arrivals, n: nat, data: string, s: Arrivals, at: nat, size: string)
    requires forall x :: x > 0 ==> (Boundary(data, s, x) <==> Boundary(data0, s0, n + x))
    requires size != "" && SizeLineKept(data0, s0, n + at, size)
    ensures SizeLineKept(data, s, at, size)
  {
    hide Boundary, AllZeros;
    forall k | 0 < k < |size| && Boundary(data, s, at + k)
      ensures AllZeros(size, k)
    {
      assert Boundary(data0, s0, n + (at + k));
    }
    assert Boundary(data, s, at + |size|) ==> Boundary(data0, s0, n + (at + |size|));
    assert Boundary(data, s, at + |size| + 1) ==> Boundary(data0, s0, n + (at + |size| + 1));
  }
}
