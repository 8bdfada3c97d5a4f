/** What `dump` writes, piece by piece, and what the status codes are called. */
module PrintedTexts {
  import opened HttpText
  import opened MessageHead
  import opened RequestHead
  import opened HttpMessages
  import opened ResponseRoundTrip
  import opened RequestExchange

  /** The headers, in the map's order, but for one spelled "connection". */
  function HeadersText(h: Headers, order: seq<string>): string
    requires forall k :: k in order ==> k in h
  {
    if order == [] then ""
    else
      var (name, value) := h[order[|order| - 1]];
      HeadersText(h, order[..|order| - 1]) + (if name == "connection" then "" else name + ": " + value + "\r\n")
  }

  lemma {:induction false} BlockMore(a: seq<Line>, b: seq<Line>)
    ensures BlockText(a + b) == BlockText(a) + BlockText(b)
    decreases |a|
  {
    hide Line.Text;
    if a == [] {
      assert a + b == b;
    } else {
      assert (a + b)[0] == a[0] && (a + b)[1..] == a[1..] + b;
      BlockMore(a[1..], b);
    }
  }

  lemma BlockOfOne(name: string, value: string)
    ensures BlockText([Line(name, " ", value, CRLF)]) == name + ": " + value + "\r\n"
  {
    var l := Line(name, " ", value, CRLF);
    assert [l][1..] == [];
    assert ":" + (" " + (value + CRLF)) == (": " + value) + "\r\n";
    assert l.Text() == name + ((": " + value) + "\r\n");
  }

  lemma {:induction false} HeaderLinesText(h: Headers, order: seq<string>)
    requires forall k :: k in order ==> k in h
    ensures BlockText(HeaderLines(h, order)) == HeadersText(h, order)
    decreases |order|
  {
    if order != [] {
      var front := order[..|order| - 1];
      var (name, value) := h[order[|order| - 1]];
      HeaderLinesText(h, front);
      var more := if name == "connection" then [] else [Line(name, " ", value, CRLF)];
      BlockMore(HeaderLines(h, front), more);
      BlockOfOne(name, value);
    }
  }

  /** What a response is printed as. */
  lemma DumpedResponse(r: Response, order: seq<string>)
    requires 0 <= r.status && forall k :: k in order ==> k in r.headers
    ensures Dump(r, order) ==
              "HTTP/" + Decimal(r.version / 16) + "." + Decimal(r.version % 16) + " " + Decimal(r.status) + " "
              + (if r.reason == "" then StatusName(r.status) else r.reason) + "\r\n"
              + HeadersText(r.headers, order)
              + "connection: " + (if r.close then "close" else "keep-alive") + "\r\n"
              + (if r.body == "" then "\r\n" else "content-length: " + Decimal(|r.body|) + "\r\n\r\n" + r.body + "\r\n")
  {
    hide *;
    StatusLineText(r);
    LinesText(r, order);
    TailText(r);
    DumpParts(r, order);
    var start := "HTTP/" + Decimal(r.version / 16) + "." + Decimal(r.version % 16) + " " + Decimal(r.status) + " "
                 + (if r.reason == "" then StatusName(r.status) else r.reason) + "\r\n";
    var close := if r.close then "close" else "keep-alive";
    Grouped(start, HeadersText(r.headers, order), "connection: ", close, "\r\n",
            if r.body == "" then "" else "content-length: " + Decimal(|r.body|) + "\r\n", "\r\n", Tail(r));
  }

  lemma DumpParts(r: Response, order: seq<string>)
    requires 0 <= r.status && forall k :: k in order ==> k in r.headers
    ensures Dump(r, order) == ((StatusOf(r).Text() + BlockText(DumpLines(r, order))) + "\r\n") + Tail(r)
  {
  }

  lemma Grouped(start: string, headers: string, name: string, close: string, eol: string, length: string, blank: string, tail: string)
    ensures ((start + (headers + (name + close + eol + length))) + blank) + tail
            == start + headers + name + close + eol + (length + blank + tail)
  {
  }

  lemma LinesText(r: Response, order: seq<string>)
    requires 0 <= r.status && forall k :: k in order ==> k in r.headers
    ensures BlockText(DumpLines(r, order))
            == HeadersText(r.headers, order)
               + ("connection: " + (if r.close then "close" else "keep-alive") + "\r\n"
                  + (if r.body == "" then "" else "content-length: " + Decimal(|r.body|) + "\r\n"))
  {
    hide HeaderLines, ExtraLines, BlockText, HeadersText, Decimal;
    ExtraText(r);
    HeaderLinesText(r.headers, order);
    BlockMore(HeaderLines(r.headers, order), ExtraLines(r));
  }

  /** The end of a dump: the blank line, and the body with a line end of its own. */
  lemma TailText(r: Response)
    ensures (if r.body == "" then "" else "content-length: " + Decimal(|r.body|) + "\r\n") + "\r\n" + Tail(r)
            == if r.body == "" then "\r\n" else "content-length: " + Decimal(|r.body|) + "\r\n\r\n" + r.body + "\r\n"
  {
    hide Decimal;
    assert "\r\n\r\n" == "\r\n" + "\r\n";
  }

  lemma StatusLineText(r: Response)
    requires 0 <= r.status
    ensures StatusOf(r).Text() ==
              "HTTP/" + Decimal(r.version / 16) + "." + Decimal(r.version % 16) + " " + Decimal(r.status) + " "
              + (if r.reason == "" then StatusName(r.status) else r.reason) + "\r\n"
  {
    hide Decimal, StatusName;
  }

  lemma ExtraText(r: Response)
    ensures BlockText(ExtraLines(r)) ==
              "connection: " + (if r.close then "close" else "keep-alive") + "\r\n"
              + (if r.body == "" then "" else "content-length: " + Decimal(|r.body|) + "\r\n")
  {
    hide Decimal, Line.Text;
    var a := [Line("connection", " ", ConnectionValue(r.close), CRLF)];
    var b := if r.body == "" then [] else [Line("content-length", " ", Decimal(|r.body|), CRLF)];
    BlockMore(a, b);
    BlockOfOne("connection", ConnectionValue(r.close));
    BlockOfOne("content-length", Decimal(|r.body|));
    hide BlockText;
    assert "connection" + ": " == "connection: " && "content-length" + ": " == "content-length: ";
  }

  // ---------------------------------------------------------------- requests

  lemma {:induction false} EntryTextMore(a: seq<Entry>, b: seq<Entry>)
    ensures EntryText(a + b) == EntryText(a) + EntryText(b)
    decreases |a|
  {
    hide Entry.Text;
    if a == [] {
      assert a + b == b;
    } else {
      assert (a + b)[0] == a[0] && (a + b)[1..] == a[1..] + b;
      EntryTextMore(a[1..], b);
    }
  }

  lemma EntryOfOne(name: string, value: string)
    ensures EntryText([Entry(name, value)]) == name + ": " + value + "\r\n"
  {
    var e := Entry(name, value);
    assert [e][1..] == [];
    assert e.Text() == name + ((": " + value) + "\r\n");
  }

  lemma {:induction false} PrintedHeadersText(h: Headers, order: seq<string>)
    requires forall k :: k in order ==> k in h
    ensures EntryText(PrintedHeaders(h, order)) == HeadersText(h, order)
    decreases |order|
  {
    if order != [] {
      var front := order[..|order| - 1];
      var (name, value) := h[order[|order| - 1]];
      PrintedHeadersText(h, front);
      var more := if name == "connection" then [] else [Entry(name, value)];
      EntryTextMore(PrintedHeaders(h, front), more);
      EntryOfOne(name, value);
    }
  }

  /** What a request with version 1.0 or 1.1 is printed as. */
  lemma DumpedRequest(r: Request, order: seq<string>)
    requires (r.version == 0x10 || r.version == 0x11) && forall k :: k in order ==> k in r.headers
    ensures DumpRequest(r, order) ==
              r.verb + " " + r.url + " HTTP/" + (if r.version == 0x11 then "1.1" else "1.0") + "\r\n"
              + HeadersText(r.headers, order)
              + (if r.body == "" then "\r\n" else "content-length: " + Decimal(|r.body|) + "\r\n\r\n" + r.body)
  {
    hide Decimal, HeadersText, PrintedHeaders, EntryText, Entry.Text;
    RequestLineText(r);
    PrintedHeadersText(r.headers, order);
    var b := if r.body == "" then [] else [Entry("content-length", Decimal(|r.body|))];
    EntryTextMore(PrintedHeaders(r.headers, order), b);
    EntryOfOne("content-length", Decimal(|r.body|));
    hide OpeningOf;
    assert "content-length" + ": " == "content-length: " && "\r\n\r\n" == "\r\n" + "\r\n";
    if r.body == "" { assert EntryText(b) == "" by { assert b == []; NoEntries(); } }
  }

  lemma NoEntries()
    ensures EntryText([]) == ""
  {
  }

  lemma RequestLineText(r: Request)
    requires r.version == 0x10 || r.version == 0x11
    ensures OpeningOf(r).Text() == r.verb + " " + r.url + " HTTP/" + (if r.version == 0x11 then "1.1" else "1.0") + "\r\n"
  {
    assert RequestVersionText('1') == "HTTP/1.1" && RequestVersionText('0') == "HTTP/1.0";
    assert " HTTP/" + "1.1" == " " + "HTTP/1.1" && " HTTP/" + "1.0" == " " + "HTTP/1.0";
  }

  // ---------------------------------------------------------------- status codes

  /** Informational and success codes. */
  lemma EarlyNames()
    ensures StatusName(100) == "CONTINUE"
    ensures StatusName(101) == "SWITCHING_PROTOCOLS"
    ensures StatusName(102) == "PROCESSING"
    ensures StatusName(200) == "OK"
    ensures StatusName(201) == "CREATED"
    ensures StatusName(202) == "ACCEPTED"
    ensures StatusName(203) == "NON_AUTHORITATIVE_INFORMATION"
    ensures StatusName(204) == "NO_CONTENT"
    ensures StatusName(205) == "RESET_CONTENT"
    ensures StatusName(206) == "PARTIAL_CONTENT"
    ensures StatusName(207) == "MULTI_STATUS"
    ensures StatusName(208) == "ALREADY_REPORTED"
    ensures StatusName(226) == "IM_USED"
  {
  }

  /** Redirections. */
  lemma RedirectNames()
    ensures StatusName(300) == "MULTIPLE_CHOICES"
    ensures StatusName(301) == "MOVED_PERMANENTLY"
    ensures StatusName(302) == "FOUND"
    ensures StatusName(303) == "SEE_OTHER"
    ensures StatusName(304) == "NOT_MODIFIED"
    ensures StatusName(305) == "USE_PROXY"
    ensures StatusName(307) == "TEMPORARY_REDIRECT"
    ensures StatusName(308) == "PERMANENT_REDIRECT"
  {
  }

  /** Client errors up to 414. */
  lemma ClientErrorNames()
    ensures StatusName(400) == "BAD_REQUEST"
    ensures StatusName(401) == "UNAUTHORIZED"
    ensures StatusName(402) == "PAYMENT_REQUIRED"
    ensures StatusName(403) == "FORBIDDEN"
    ensures StatusName(404) == "NOT_FOUND"
    ensures StatusName(405) == "METHOD_NOT_ALLOWED"
    ensures StatusName(406) == "NOT_ACCEPTABLE"
    ensures StatusName(407) == "PROXY_AUTHENTICATION_REQUIRED"
    ensures StatusName(408) == "REQUEST_TIMEOUT"
    ensures StatusName(409) == "CONFLICT"
    ensures StatusName(410) == "GONE"
    ensures StatusName(411) == "LENGTH_REQUIRED"
    ensures StatusName(412) == "PRECONDITION_FAILED"
    ensures StatusName(413) == "PAYLOAD_TOO_LARGE"
    ensures StatusName(414) == "URI_TOO_LONG"
  {
  }

  /** The other client errors. */
  lemma LateClientErrorNames()
    ensures StatusName(415) == "UNSUPPORTED_MEDIA_TYPE"
    ensures StatusName(416) == "RANGE_NOT_SATISFIABLE"
    ensures StatusName(417) == "EXPECTATION_FAILED"
    ensures StatusName(421) == "MISDIRECTED_REQUEST"
    ensures StatusName(422) == "UNPROCESSABLE_ENTITY"
    ensures StatusName(423) == "LOCKED"
    ensures StatusName(424) == "FAILED_DEPENDENCY"
    ensures StatusName(426) == "UPGRADE_REQUIRED"
    ensures StatusName(428) == "PRECONDITION_REQUIRED"
    ensures StatusName(429) == "TOO_MANY_REQUESTS"
    ensures StatusName(431) == "REQUEST_HEADER_FIELDS_TOO_LARGE"
    ensures StatusName(451) == "UNAVAILABLE_FOR_LEGAL_REASONS"
  {
  }

  /** Server errors. */
  lemma ServerErrorNames()
    ensures StatusName(500) == "INTERNAL_SERVER_ERROR"
    ensures StatusName(501) == "NOT_IMPLEMENTED"
    ensures StatusName(502) == "BAD_GATEWAY"
    ensures StatusName(503) == "SERVICE_UNAVAILABLE"
    ensures StatusName(504) == "GATEWAY_TIMEOUT"
    ensures StatusName(505) == "HTTP_VERSION_NOT_SUPPORTED"
    ensures StatusName(506) == "VARIANT_ALSO_NEGOTIATES"
    ensures StatusName(507) == "INSUFFICIENT_STORAGE"
    ensures StatusName(508) == "LOOP_DETECTED"
    ensures StatusName(510) == "NOT_EXTENDED"
    ensures StatusName(511) == "NETWORK_AUTHENTICATION_REQUIRED"
  {
  }

  /** The codes that have a name. */
  const NAMED: set<int> := {
    100, 101, 102, 200, 201, 202, 203, 204, 205, 206, 207, 208, 226, 300, 301, 302, 303, 304, 305,
    307, 308, 400, 401, 402, 403, 404, 405, 406, 407, 408, 409, 410, 411, 412, 413, 414, 415, 416,
    417, 421, 422, 423, 424, 426, 428, 429, 431, 451, 500, 501, 502, 503, 504, 505, 506, 507, 508,
    510, 511}

  /** Every other code is printed as unknown. */
  lemma OtherStatus(status: int)
    requires status !in NAMED
    ensures StatusName(status) == "UNKNOWN"
  {
  }
}
