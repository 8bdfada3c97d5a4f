/** Requests: what the callbacks build, recvRequest, printing, and the round trip through the wire. */
module RequestExchange {
  import opened Wrappers
  import opened HttpText
  import opened ParserTables
  import opened Machine
  import opened Segmentation
  import opened HeaderGrammar
  import opened RequestGrammar
  import opened RequestHead
  import opened HttpMessages
  import opened ByteStream
  import opened Framing
  import opened ParserFlows
  import opened SegmentedReceiving
  import opened ResponseRoundTrip

  /** A request; `url` is what printing puts into the request line, and the parser never sets it. */
  datatype Request = Request(
    verb: string, version: nat, close: bool, url: string, path: string, query: string, fragment: string,
    body: string, headers: Headers)

  const NEW_REQUEST := Request("GET", 0, true, "", "/", "", "", "", map[])

  // ---------------------------------------------------------------- methods

  /** The method names that begin with a letter, in the order in which they are tried. */
  function NamesFrom(c: char): seq<string> {
    match c
    case 'A' => ["ACL"]
    case 'B' => ["BIND"]
    case 'C' => ["CONNECT", "COPY", "CHECKOUT"]
    case 'D' => ["DELETE"]
    case 'G' => ["GET"]
    case 'H' => ["HEAD"]
    case 'L' => ["LOCK", "LINK"]
    case 'M' => ["MKCOL", "MOVE", "MKACTIVITY", "MERGE", "MSEARCH", "MKCALENDAR"]
    case 'N' => ["NOTIFY"]
    case 'O' => ["OPTIONS"]
    case 'P' => ["POST", "PUT", "PROPFIND", "PROPPATCH", "PATCH", "PURGE"]
    case 'R' => ["REBIND", "REPORT"]
    case 'S' => ["SEARCH", "SUBSCRIBE", "SOURCE"]
    case 'T' => ["TRACE"]
    case 'U' => ["UNLOCK", "UNBIND", "UNSUBSCRIBE", "UNLINK"]
    case _ => []
  }

  /** The first name that the text begins with. */
  function FirstPrefix(names: seq<string>, text: string): Option<string> {
    if names == [] then None
    else if names[0] <= text then Some(names[0])
    else FirstPrefix(names[1..], text)
  }

  /** CharsToHttpMethod: a text is the method whose name it begins with; None for UNKNOW. */
  function MethodOf(text: string): Option<string> {
    if text == "" then None else FirstPrefix(NamesFrom(text[0]), text)
  }

  predicate IsKnownMethod(name: string) {
    name != "" && name in NamesFrom(name[0])
  }

  /** Neither begins with the other. */
  predicate Apart(a: string, b: string) {
    !(a <= b) && !(b <= a)
  }

  /** No name on the list begins with another. */
  predicate PrefixFree(names: seq<string>) {
    forall i, j :: 0 <= i < j < |names| ==> Apart(names[i], names[j])
  }

  lemma DiffersAt(a: string, b: string, k: nat)
    requires k < |a| && k < |b| && a[k] != b[k]
    ensures Apart(a, b)
  {
  }

  /** Of names that are apart at most one can begin a text. */
  lemma OneBegins(a: string, b: string, text: string)
    requires Apart(a, b) && a <= text
    ensures !(b <= text)
  {
  }

  lemma {:induction false} FindsIt(names: seq<string>, text: string, name: string)
    requires PrefixFree(names) && name in names && name <= text
    ensures FirstPrefix(names, text) == Some(name)
  {
    if names[0] != name {
      var j :| 0 <= j < |names| && names[j] == name;
      assert Apart(names[0], names[j]);
      if names[0] <= text { OneBegins(names[0], name, text); }
      FindsIt(names[1..], text, name);
    }
  }

  lemma {:induction false} FoundIsThere(names: seq<string>, text: string)
    ensures FirstPrefix(names, text).Some? ==> FirstPrefix(names, text).value in names && FirstPrefix(names, text).value <= text
  {
    if names != [] && !(names[0] <= text) { FoundIsThere(names[1..], text); }
  }

  lemma PrefixFreeM()
    ensures PrefixFree(NamesFrom('M'))
  {
    hide PrefixFree;
    var a, b, c, d, e, f := "MKCOL", "MOVE", "MKACTIVITY", "MERGE", "MSEARCH", "MKCALENDAR";
    DiffersAt(a, b, 1); DiffersAt(a, c, 2); DiffersAt(a, d, 1); DiffersAt(a, e, 1); DiffersAt(a, f, 3);
    DiffersAt(b, c, 1); DiffersAt(b, d, 1); DiffersAt(b, e, 1); DiffersAt(b, f, 1);
    DiffersAt(c, d, 1); DiffersAt(c, e, 1); DiffersAt(c, f, 2);
    DiffersAt(d, e, 1); DiffersAt(d, f, 1); DiffersAt(e, f, 1);
    SixPrefixFree(a, b, c, d, e, f);
  }

  lemma SixPrefixFree(a: string, b: string, c: string, d: string, e: string, f: string)
    requires Apart(a, b) && Apart(a, c) && Apart(a, d) && Apart(a, e) && Apart(a, f)
    requires Apart(b, c) && Apart(b, d) && Apart(b, e) && Apart(b, f)
    requires Apart(c, d) && Apart(c, e) && Apart(c, f) && Apart(d, e) && Apart(d, f) && Apart(e, f)
    ensures PrefixFree([a, b, c, d, e, f])
  {
  }

  lemma PrefixFreeP()
    ensures PrefixFree(NamesFrom('P'))
  {
    hide PrefixFree;
    var a, b, c, d, e, f := "POST", "PUT", "PROPFIND", "PROPPATCH", "PATCH", "PURGE";
    DiffersAt(a, b, 1); DiffersAt(a, c, 1); DiffersAt(a, d, 1); DiffersAt(a, e, 1); DiffersAt(a, f, 1);
    DiffersAt(b, c, 1); DiffersAt(b, d, 1); DiffersAt(b, e, 1); DiffersAt(b, f, 2);
    DiffersAt(c, d, 4); DiffersAt(c, e, 1); DiffersAt(c, f, 1);
    DiffersAt(d, e, 1); DiffersAt(d, f, 1); DiffersAt(e, f, 1);
    SixPrefixFree(a, b, c, d, e, f);
  }

  lemma PrefixFreeU()
    ensures PrefixFree(NamesFrom('U'))
  {
    hide PrefixFree;
    var a, b, c, d := "UNLOCK", "UNBIND", "UNSUBSCRIBE", "UNLINK";
    DiffersAt(a, b, 2); DiffersAt(a, c, 2); DiffersAt(a, d, 3);
    DiffersAt(b, c, 2); DiffersAt(b, d, 2); DiffersAt(c, d, 2);
    FourPrefixFree(a, b, c, d);
  }

  lemma FourPrefixFree(a: string, b: string, c: string, d: string)
    requires Apart(a, b) && Apart(a, c) && Apart(a, d) && Apart(b, c) && Apart(b, d) && Apart(c, d)
    ensures PrefixFree([a, b, c, d])
  {
  }

  lemma ThreePrefixFree(a: string, b: string, c: string)
    requires Apart(a, b) && Apart(a, c) && Apart(b, c)
    ensures PrefixFree([a, b, c]) && PrefixFree([a, b])
  {
  }

  lemma PrefixFreeOthers(c: char)
    requires c != 'M' && c != 'P' && c != 'U'
    ensures PrefixFree(NamesFrom(c))
  {
    if c == 'C' {
      DiffersAt("CONNECT", "COPY", 2); DiffersAt("CONNECT", "CHECKOUT", 1); DiffersAt("COPY", "CHECKOUT", 1);
      ThreePrefixFree("CONNECT", "COPY", "CHECKOUT");
    } else if c == 'S' {
      DiffersAt("SEARCH", "SUBSCRIBE", 1); DiffersAt("SEARCH", "SOURCE", 1); DiffersAt("SUBSCRIBE", "SOURCE", 1);
      ThreePrefixFree("SEARCH", "SUBSCRIBE", "SOURCE");
    } else if c == 'L' {
      DiffersAt("LOCK", "LINK", 1);
    } else if c == 'R' {
      DiffersAt("REBIND", "REPORT", 2);
    }
  }

  lemma NamesAreApart(c: char)
    ensures PrefixFree(NamesFrom(c))
  {
    hide NamesFrom, PrefixFree;
    if c == 'M' { PrefixFreeM(); } else if c == 'P' { PrefixFreeP(); } else if c == 'U' { PrefixFreeU(); }
    else { PrefixFreeOthers(c); }
  }

  lemma NamesBegin(c: char, name: string)
    requires name in NamesFrom(c)
    ensures name != "" && name[0] == c
  {
  }

  /** A text is taken for a method if and only if it begins with that method's name. */
  lemma MethodIff(text: string, name: string)
    ensures MethodOf(text) == Some(name) <==> IsKnownMethod(name) && name <= text
  {
    hide NamesFrom, PrefixFree, FirstPrefix;
    if IsKnownMethod(name) && name <= text {
      assert text[0] == name[0];
      NamesAreApart(name[0]);
      FindsIt(NamesFrom(name[0]), text, name);
    }
    if MethodOf(text) == Some(name) {
      FoundIsThere(NamesFrom(text[0]), text);
      NamesBegin(text[0], name);
    }
  }

  /** Every method's name is read back as that method. */
  lemma MethodRoundTrip(name: string)
    requires IsKnownMethod(name)
    ensures MethodOf(name) == Some(name)
  {
    hide NamesFrom;
    MethodIff(name, name);
  }

  const FIRST_METHODS: set<string> := {"ACL", "BIND", "CONNECT", "COPY", "CHECKOUT", "DELETE", "GET", "HEAD", "LOCK", "LINK"}
  const M_METHODS: set<string> := {"MKCOL", "MOVE", "MKACTIVITY", "MERGE", "MSEARCH", "MKCALENDAR", "NOTIFY", "OPTIONS"}
  const P_METHODS: set<string> := {"POST", "PUT", "PROPFIND", "PROPPATCH", "PATCH", "PURGE", "REBIND", "REPORT"}
  const LAST_METHODS: set<string> := {"SEARCH", "SUBSCRIBE", "SOURCE", "TRACE", "UNLOCK", "UNBIND", "UNSUBSCRIBE", "UNLINK"}

  lemma FirstMethods(name: string)
    ensures name in FIRST_METHODS <==> name != "" && name[0] < 'M' && name in NamesFrom(name[0])
  {
  }

  lemma MMethods(name: string)
    ensures name in M_METHODS <==> name != "" && 'M' <= name[0] < 'P' && name in NamesFrom(name[0])
  {
  }

  lemma PMethods(name: string)
    ensures name in P_METHODS <==> name != "" && 'P' <= name[0] < 'S' && name in NamesFrom(name[0])
  {
  }

  lemma LastMethods(name: string)
    ensures name in LAST_METHODS <==> name != "" && 'S' <= name[0] && name in NamesFrom(name[0])
  {
  }

  /** The methods. */
  lemma KnownMethods(name: string)
    ensures IsKnownMethod(name) <==> name in FIRST_METHODS || name in M_METHODS || name in P_METHODS || name in LAST_METHODS
  {
    FirstMethods(name);
    MMethods(name);
    PMethods(name);
    LastMethods(name);
    hide NamesFrom;
  }

  // ---------------------------------------------------------------- callbacks

  /** A callback that makes the request parser report an error. */
  predicate RequestRejects(e: Event) {
    (e.Method? && MethodOf(e.text) == None) || (e.Version? && VersionByte(e.text) == 0)
  }

  /** One callback of the request parser. */
  function DeliverRequest(r: Request, e: Event): Request {
    match e
    case Method(text) => if MethodOf(text).Some? then r.(verb := MethodOf(text).value) else r
    case Path(text) => r.(path := text)
    case Query(text) => r.(query := text)
    case Fragment(text) => r.(fragment := text)
    case Version(text) => if VersionByte(text) == 0 then r else r.(version := VersionByte(text))
    case Field(name, value) => if name == "" then r else r.(headers := SetHeader(r.headers, name, value))
    case _ => r
  }

  /** Further callbacks, in order. */
  function DeliverMore(r: Request, events: seq<Event>): Request
    decreases |events|
  {
    if events == [] then r else DeliverMore(DeliverRequest(r, events[0]), events[1..])
  }

  function BuildRequest(events: seq<Event>): Request {
    DeliverMore(NEW_REQUEST, events)
  }

  lemma {:induction false} DeliverConcat(r: Request, a: seq<Event>, b: seq<Event>)
    ensures DeliverMore(r, a + b) == DeliverMore(DeliverMore(r, a), b)
    decreases |a|
  {
    if a == [] {
      assert a + b == b;
    } else {
      assert (a + b)[1..] == a[1..] + b;
      DeliverConcat(DeliverRequest(r, a[0]), a[1..], b);
    }
  }

  predicate RequestFinal(cs: int) {
    cs >= 348
  }

  /** A callback in which the request parser throws. */
  predicate RequestRaises(e: Event) {
    e.Overlong?
  }

  const REQUESTS := Dialect(RequestEdge, RequestFinal, RequestRejects, RequestRaises)

  lemma RequestStops()
    ensures StopsWhenFinal(REQUESTS) && NeverStale(RequestFlow) && IsCut(RequestFlow, 1)
  {
    hide TargetEdge, RequestVersion;
    forall cs: int, c: char
      ensures RequestEdge(cs, c).target >= 348 ==> RequestEdge(cs, c).Halts()
    {
      TargetIsNotFinal(cs, c);
    }
  }

  /** In recvRequest, the checks at the end of every call hold. */
  lemma RequestChecksPass(s: Arrivals)
    ensures ChecksPass(REQUESTS, NewParser(0), "", s)
  {
    hide ChecksPass, TargetEdge, RequestVersion;
    forall cs: int, c: char
      ensures RequestEdge(cs, c).Halts() ==> RequestFinal(RequestEdge(cs, c).target)
    {
      TargetIsNotFinal(cs, c);
    }
    HeadChecksPass(REQUESTS, NewParser(0), "", s);
  }

  lemma TargetIsNotFinal(cs: int, c: char)
    ensures TargetEdge(cs, c).target < 348 && RequestVersion(cs, c).target < 348
    ensures !TargetEdge(cs, c).Halts() && !RequestVersion(cs, c).Halts()
  {
    TargetStaysInside(cs, c);
    TargetGoesOn(cs, c);
    hide TargetEdge;
  }

  lemma TargetStaysInside(cs: int, c: char)
    ensures TargetEdge(cs, c).target < 348
  {
  }

  lemma TargetGoesOn(cs: int, c: char)
    ensures !TargetEdge(cs, c).Halts()
  {
  }

  // ---------------------------------------------------------------- recvRequest

  /** HttpRequest::init: the connection header decides whether the connection closes. */
  function Closing(close: bool, h: Headers): bool {
    var v := GetHeader(h, "connection");
    if v == "" then close else Fold(v) != "keep-alive"
  }

  /** recvRequest: the request, what is dropped with its buffer, and what the connection keeps. */
  function ReceiveRequest(s: Arrivals): Outcome<(Request, string, Arrivals)> {
    match ReceiveHead(REQUESTS, NewParser(0), "", s)
    case Closed => Closed
    case Thrown => Thrown
    case Got((m, data, s1)) =>
      var r := BuildRequest(m.events);
      match ReceiveFixed(ContentLength(r.headers), data, s1)
      case None => Closed
      case Some((body, rest, s2)) => Got((r.(body := body, close := Closing(r.close, r.headers)), rest, s2))
  }

  // ---------------------------------------------------------------- printing

  /** The header lines of `dump`: all but the one spelled "connection". */
  function PrintedHeaders(h: Headers, order: seq<string>): seq<Entry>
    requires forall k :: k in order ==> k in h
  {
    if order == [] then []
    else
      var k := order[|order| - 1];
      PrintedHeaders(h, order[..|order| - 1]) + (if h[k].0 == "connection" then [] else [Entry(h[k].0, h[k].1)])
  }

  function PrintedEntries(r: Request, order: seq<string>): seq<Entry>
    requires forall k :: k in order ==> k in r.headers
  {
    PrintedHeaders(r.headers, order) + (if r.body == "" then [] else [Entry("content-length", Decimal(|r.body|))])
  }

  function OpeningOf(r: Request): Opening {
    Opening(r.verb, r.url, if r.version == 0x11 then '1' else '0')
  }

  /** HttpRequest::dump, for versions 1.0 and 1.1. */
  function DumpRequest(r: Request, order: seq<string>): string
    requires forall k :: k in order ==> k in r.headers
  {
    HeadText(OpeningOf(r), PrintedEntries(r, order)) + r.body
  }

  predicate PlainEntry(k: string, h: (string, string)) {
    k == Fold(h.0) && IsName(h.0) && IsRequestValue(h.1) && k != "content-length"
  }

  /** A request with a known method, version 1.0 or 1.1, and a valid origin-form URL. */
  predicate PrintableRequest(r: Request) {
    && IsKnownMethod(r.verb) && (r.version == 0x11 || r.version == 0x10)
    && IsOrigin(r.url) && SplitTarget(r.url).Valid() && |r.body| < 0x8000_0000
    && forall k :: k in r.headers ==> PlainEntry(k, r.headers[k])
  }

  /** The headers that are printed. */
  function Kept(h: Headers): Headers {
    map k | k in h && h[k].0 != "connection" :: h[k]
  }

  function OrEmpty(s: Option<string>): string {
    match s
    case None => ""
    case Some(v) => v
  }

  /** The request that comes back: the URL's parts, and whether to close as the headers say. */
  function ParsedRequest(r: Request): Request {
    var t := SplitTarget(r.url);
    var h := if r.body == "" then Kept(r.headers)
             else Kept(r.headers)["content-length" := ("content-length", Decimal(|r.body|))];
    Request(r.verb, r.version, Closing(true, h), "", t.path, OrEmpty(t.query), OrEmpty(t.fragment), r.body, h)
  }

  // ---------------------------------------------------------------- the callbacks of a printed request

  lemma NamesFromM(name: string)
    requires name in NamesFrom('M')
    ensures IsMethod(name)
  {
  }

  lemma NamesFromP(name: string)
    requires name in NamesFrom('P')
    ensures IsMethod(name)
  {
  }

  lemma OtherNames(c: char, name: string)
    requires c > 'P' && name in NamesFrom(c)
    ensures IsMethod(name)
  {
  }

  lemma FirstNames(c: char, name: string)
    requires c < 'P' && c != 'M' && name in NamesFrom(c)
    ensures IsMethod(name)
  {
  }

  lemma KnownIsMethod(name: string)
    requires IsKnownMethod(name)
    ensures IsMethod(name)
  {
    hide NamesFrom, IsMethod;
    var c := name[0];
    if c == 'M' { NamesFromM(name); } else if c == 'P' { NamesFromP(name); } else if c > 'P' { OtherNames(c, name); } else { FirstNames(c, name); }
  }

  lemma OpeningIsValid(r: Request)
    requires PrintableRequest(r)
    ensures OpeningOf(r).Valid()
  {
    hide IsMethod, IsKnownMethod, IsOrigin, SplitTarget;
    KnownIsMethod(r.verb);
  }

  function SetEntries(h: Headers, entries: seq<Entry>): Headers
    decreases |entries|
  {
    if entries == [] then h else SetEntries(SetHeader(h, entries[0].name, entries[0].value), entries[1..])
  }

  lemma {:induction false} SetEntriesMore(h: Headers, a: seq<Entry>, b: seq<Entry>)
    ensures SetEntries(h, a + b) == SetEntries(SetEntries(h, a), b)
    decreases |a|
  {
    hide SetHeader;
    if a == [] {
      assert a + b == b;
    } else {
      assert (a + b)[1..] == a[1..] + b;
      SetEntriesMore(SetHeader(h, a[0].name, a[0].value), a[1..], b);
    }
  }

  lemma {:induction false} DeliverEntries(r: Request, entries: seq<Entry>)
    requires AllEntries(entries)
    ensures DeliverMore(r, EntryEvents(entries)) == r.(headers := SetEntries(r.headers, entries))
    decreases |entries|
  {
    hide SetHeader;
    if entries != [] {
      assert entries[0].Valid();
      DeliverEntries(r.(headers := SetHeader(r.headers, entries[0].name, entries[0].value)), entries[1..]);
    }
  }

  lemma {:induction false} PrintedHeadersSet(h: Headers, order: seq<string>)
    requires forall k :: k in order ==> k in h && PlainEntry(k, h[k])
    requires forall i, j :: 0 <= i < j < |order| ==> order[i] != order[j]
    ensures AllEntries(PrintedHeaders(h, order))
    ensures SetEntries(map[], PrintedHeaders(h, order)) == Restrict(Kept(h), order)
    decreases |order|
  {
    hide IsName, IsRequestValue, Fold, Restrict, SetHeader;
    if order == [] {
      RestrictNone(Kept(h));
    } else {
      var k := order[|order| - 1];
      var front := order[..|order| - 1];
      PrintedHeadersSet(h, front);
      assert k in order && PlainEntry(k, h[k]);
      assert order == front + [k];
      if h[k].0 == "connection" {
        RestrictSkips(Kept(h), front, k);
        assert PrintedHeaders(h, front) + [] == PrintedHeaders(h, front);
      } else {
        SetEntriesMore(map[], PrintedHeaders(h, front), [Entry(h[k].0, h[k].1)]);
        assert [Entry(h[k].0, h[k].1)][1..] == [];
        SetOne(Kept(h), front, k);
      }
    }
  }

  lemma RestrictSkips(h: Headers, front: seq<string>, k: string)
    requires k !in h
    ensures Restrict(h, front + [k]) == Restrict(h, front)
  {
  }

  lemma RestrictKept(h: Headers, order: seq<string>)
    requires Enumerates(order, h)
    ensures Restrict(Kept(h), order) == Kept(h)
  {
  }

  lemma LengthEntry(h: Headers, n: nat)
    requires "content-length" !in h
    ensures Entry("content-length", Decimal(n)).Valid()
    ensures SetHeader(h, "content-length", Decimal(n)) == h["content-length" := ("content-length", Decimal(n))]
  {
    LengthLineValid(n);
    FoldedWords();
    hide Decimal, Fold;
    DecimalIsRequestValue(n);
  }

  lemma DecimalIsRequestValue(n: nat)
    ensures IsRequestValue(Decimal(n))
  {
    var s := Decimal(n);
    assert forall i :: 0 <= i < |s| ==> IsDigitIn(s[i], 10);
  }

  lemma PrintedEntriesFacts(r: Request, order: seq<string>)
    requires PrintableRequest(r) && Enumerates(order, r.headers)
    ensures AllEntries(PrintedEntries(r, order))
    ensures SetEntries(map[], PrintedEntries(r, order)) == ParsedRequest(r).headers
  {
    hide PlainEntry, Restrict, Decimal, SetHeader, Entry.Valid, SplitTarget, IsOrigin, IsKnownMethod;
    PrintedHeadersSet(r.headers, order);
    RestrictKept(r.headers, order);
    if r.body == "" {
      assert PrintedEntries(r, order) == PrintedHeaders(r.headers, order);
    } else {
      NoLength(r);
      LengthEntry(Kept(r.headers), |r.body|);
      var e := Entry("content-length", Decimal(|r.body|));
      SetEntriesMore(map[], PrintedHeaders(r.headers, order), [e]);
      assert [e][1..] == [];
    }
  }

  lemma NoLength(r: Request)
    requires PrintableRequest(r)
    ensures "content-length" !in r.headers
  {
    forall k | k in r.headers
      ensures k != "content-length"
    {
      assert PlainEntry(k, r.headers[k]);
    }
  }

  // ---------------------------------------------------------------- the round trip

  /** What the request line says of a request. */
  function OpeningRequest(o: Opening): Request
    requires o.Valid() && MethodOf(o.verb).Some?
  {
    var t := SplitTarget(o.target);
    NEW_REQUEST.(verb := MethodOf(o.verb).value, version := if o.minor == '1' then 0x11 else 0x10,
                 path := t.path, query := OrEmpty(t.query), fragment := OrEmpty(t.fragment))
  }

  /** The request that a head stands for, and a body behind it. */
  function RequestOf(o: Opening, entries: seq<Entry>, body: string): Request
    requires o.Valid() && MethodOf(o.verb).Some?
  {
    var h := SetEntries(map[], entries);
    OpeningRequest(o).(headers := h, body := body, close := Closing(true, h))
  }

  /** The request line's callbacks. */
  lemma OpeningDelivered(o: Opening)
    requires o.Valid() && MethodOf(o.verb).Some?
    ensures BuildRequest(o.Events()) == OpeningRequest(o)
  {
    hide MethodOf, IsOrigin, IsMethod, Target.Valid, VersionByte;
    MinorIsKnown(if o.minor == '1' then 0x11 else 0x10);
    var v := RequestVersionText(o.minor);
    var r1 := NEW_REQUEST.(verb := MethodOf(o.verb).value);
    DeliverOne(NEW_REQUEST, Method(o.verb));
    DeliverConcat(NEW_REQUEST, [Method(o.verb)] + TargetEvents(o.target), [Version(v)]);
    DeliverConcat(NEW_REQUEST, [Method(o.verb)], TargetEvents(o.target));
    TargetDelivered(r1, o.target);
    DeliverOne(DeliverMore(r1, TargetEvents(o.target)), Version(v));
  }

  lemma DeliverOne(r: Request, e: Event)
    ensures DeliverMore(r, [e]) == DeliverRequest(r, e)
  {
    assert [e][1..] == [];
  }

  lemma MinorIsKnown(v: nat)
    requires v == 0x10 || v == 0x11
    ensures VersionByte(RequestVersionText(if v == 0x11 then '1' else '0')) == v
  {
    assert RequestVersionText('1') == "HTTP/1.1" && RequestVersionText('0') == "HTTP/1.0";
    assert RequestVersionText('0')[7] != "HTTP/1.1"[7];
  }

  lemma TargetDelivered(r: Request, t: string)
    requires r.query == "" && r.fragment == ""
    ensures var s := SplitTarget(t);
            DeliverMore(r, TargetEvents(t))
            == r.(path := s.path, query := OrEmpty(s.query), fragment := OrEmpty(s.fragment))
  {
    var main, f := Before(t, '#'), Behind(t, '#');
    MainDelivered(r, main);
    if f.Some? {
      DeliverConcat(r, MainEvents(main), [Fragment(f.value)]);
      DeliverOne(DeliverMore(r, MainEvents(main)), Fragment(f.value));
    } else {
      assert MainEvents(main) + [] == MainEvents(main);
    }
  }

  lemma MainDelivered(r: Request, main: string)
    requires r.query == ""
    ensures DeliverMore(r, MainEvents(main))
            == r.(path := Before(main, '?'), query := OrEmpty(Behind(main, '?')))
  {
    var q, p := Behind(main, '?'), Before(main, '?');
    var r1 := r.(path := p);
    if q.Some? {
      assert MainEvents(main) == [Path(p)] + ([Query(q.value)] + [Uri(main)]);
      DeliverConcat(r, [Path(p)], [Query(q.value)] + [Uri(main)]);
      DeliverConcat(r1, [Query(q.value)], [Uri(main)]);
      DeliverOne(r1, Query(q.value));
      DeliverOne(r1.(query := q.value), Uri(main));
    } else {
      assert MainEvents(main) == [Path(p)] + [Uri(main)];
      DeliverConcat(r, [Path(p)], [Uri(main)]);
      DeliverOne(r1, Uri(main));
    }
    DeliverOne(r, Path(p));
  }

  /** What the callbacks of a head build. */
  lemma HeadBuilds(o: Opening, es: seq<Entry>)
    requires o.Valid() && AllEntries(es) && MethodOf(o.verb).Some?
    ensures BuildRequest(HeadEvents(o, es)) == RequestOf(o, es, "").(close := true)
  {
    hide Opening.Events, Opening.Valid, OpeningRequest, AllEntries, SetEntries;
    OpeningDelivered(o);
    DeliverConcat(NEW_REQUEST, o.Events() + EntryEvents(es), [HeaderDone]);
    DeliverConcat(NEW_REQUEST, o.Events(), EntryEvents(es));
    DeliverEntries(BuildRequest(o.Events()), es);
    DeliverOne(DeliverMore(NEW_REQUEST, o.Events() + EntryEvents(es)), HeaderDone);
    FreshOpening(o);
  }

  lemma FreshOpening(o: Opening)
    requires o.Valid() && MethodOf(o.verb).Some?
    ensures OpeningRequest(o).headers == map[] && OpeningRequest(o).body == "" && OpeningRequest(o).close
  {
  }

  /** What the callbacks of a printed head build. */
  lemma HeadDelivered(r: Request, order: seq<string>)
    requires PrintableRequest(r) && Enumerates(order, r.headers)
    ensures BuildRequest(HeadEvents(OpeningOf(r), PrintedEntries(r, order)))
            == ParsedRequest(r).(body := "", close := true)
  {
    hide PrintableRequest, PrintedEntries, HeadEvents, OpeningOf, BuildRequest, AllEntries, SetEntries;
    OpeningIsValid(r);
    PrintedEntriesFacts(r, order);
    PrintedIsParsed(r, order);
    HeadBuilds(OpeningOf(r), PrintedEntries(r, order));
  }

  /** The request a printed one stands for is the one that comes back. */
  lemma PrintedIsParsed(r: Request, order: seq<string>)
    requires PrintableRequest(r) && Enumerates(order, r.headers) && OpeningOf(r).Valid()
    ensures MethodOf(OpeningOf(r).verb) == Some(r.verb)
    ensures RequestOf(OpeningOf(r), PrintedEntries(r, order), r.body) == ParsedRequest(r)
    ensures RequestOf(OpeningOf(r), PrintedEntries(r, order), "") == ParsedRequest(r).(body := "")
  {
    hide PrintedEntries, SetEntries, MethodOf, Closing, SplitTarget, IsOrigin, IsMethod, IsKnownMethod, PlainEntry;
    MethodRoundTrip(r.verb);
    PrintedEntriesFacts(r, order);
  }

  /** None of the callbacks of a head with a known method is refused, and none throws. */
  lemma HeadAccepted(o: Opening, es: seq<Entry>)
    requires o.Valid() && MethodOf(o.verb).Some?
    ensures !AnyRejected(RequestRejects, HeadEvents(o, es)) && !AnyRejected(RequestRaises, HeadEvents(o, es))
  {
    hide MethodOf, VersionByte, IsOrigin, IsMethod, Target.Valid, RequestVersionText;
    MinorIsKnown(if o.minor == '1' then 0x11 else 0x10);
    EntriesAccepted(es);
    assert forall i :: 0 <= i < |TargetEvents(o.target)| ==> Harmless(TargetEvents(o.target)[i]);
    hide TargetEvents;
    assert forall i :: 0 <= i < |o.Events()| ==> Harmless(o.Events()[i]);
    hide Opening.Events;
    assert forall i :: 0 <= i < |HeadEvents(o, es)| ==> Harmless(HeadEvents(o, es)[i]);
  }

  predicate Harmless(e: Event) {
    !RequestRejects(e) && !RequestRaises(e)
  }

  lemma {:induction false} EntriesAccepted(entries: seq<Entry>)
    ensures forall i :: 0 <= i < |EntryEvents(entries)| ==> Harmless(EntryEvents(entries)[i])
  {
    if entries != [] {
      EntriesAccepted(entries[1..]);
    }
  }

  /** The length of the body that a printed request announces. */
  lemma AnnouncedLength(r: Request)
    requires PrintableRequest(r)
    ensures ContentLength(ParsedRequest(r).headers) == BodyLength(ParsedRequest(r).headers) == |r.body|
  {
    hide SplitTarget, IsOrigin, IsKnownMethod, PlainEntry, Decimal, Closing;
    NoLength(r);
    LexicalOfDecimal(|r.body|);
  }

  /** A valid head is received as it stands, when reads end, within it, only where no register is needed. */
  lemma HeadReceived(o: Opening, es: seq<Entry>, tail: string, s: Arrivals)
    requires o.Valid() && AllEntries(es) && MethodOf(o.verb).Some? && Steady(s, BUFFER)
    requires Concat(s) == HeadText(o, es) + tail && CutsHarmless(REQUESTS, RequestFlow, 1, s, |HeadText(o, es)|)
    ensures var r := ReceiveHead(REQUESTS, NewParser(0), "", s);
            Leaves(r, s, |HeadText(o, es)|, tail) && BuildRequest(r.value.0.events) == RequestOf(o, es, "").(close := true)
  {
    hide CutsHarmless, Execute, StopsWhenFinal, NeverStale, Describes, IsCut, BuildRequest, HeadText, HeadEvents, ReceiveHead,
      AllEntries, SetEntries, OpeningRequest, MethodOf, Opening.Valid, Concat;
    var head, m := HeadText(o, es), NewParser(0);
    RequestHeadRun(m, o, es, tail);
    var w := Execute(RequestEdge, m, head + tail).0;
    assert [] + HeadEvents(o, es) == HeadEvents(o, es);
    HeadAccepted(o, es);
    RequestFlowHolds();
    RequestStops();
    SegmentedHead(REQUESTS, RequestFlow, m, s);
    HeadBuilds(o, es);
    assert (head + tail)[|head|..] == tail;
  }

  /**
   A request with a body of a given length.  With any valid head whose content-length says as much as
   the body is long, or is missing, no number, or not above zero when there is none, and for reads that end, within the head, only where no register is needed, recvRequest
   gives back what the head says and exactly the body.  The connection keeps what follows if and only if
   the read that brought the end of the head went no further than the message; otherwise what was read
   beyond it is dropped.
   */
  lemma FixedRequest(o: Opening, es: seq<Entry>, body: string, s: Arrivals, rest: string)
    requires o.Valid() && AllEntries(es) && MethodOf(o.verb).Some?
    requires BodyLength(SetEntries(map[], es)) == |body| < 0x8000_0000
    requires Steady(s, BUFFER) && Concat(s) == HeadText(o, es) + (body + rest)
    requires CutsHarmless(REQUESTS, RequestFlow, 1, s, |HeadText(o, es)|)
    ensures var x := ReceiveRequest(s);
            && x.Got? && x.value.0 == RequestOf(o, es, body) && x.value.1 + Concat(x.value.2) == rest
            && var head := |HeadText(o, es)|;
            && Reached("", s, head + |body|, x.value.1, x.value.2)
            && (Concat(x.value.2) == rest <==> StopsWithin("", s, head, head + |body|))
  {
    hide CutsHarmless, BuildRequest, HeadText, ReceiveHead, ReceiveFixed, ContentLength, AllEntries, SetEntries, OpeningRequest,
      MethodOf, Opening.Valid, StopsWithin, Reached, Concat;
    HeadReceived(o, es, body + rest, s);
    var n, r := |HeadText(o, es)|, ReceiveHead(REQUESTS, NewParser(0), "", s);
    var (m1, data, s1) := r.value;
    BodyIfAny(body, ContentLength(SetEntries(map[], es)), data, s1, rest);
    HeadReached(r, s, n, body + rest);
    ReachedMore("", s, n, data, s1, |body|, ReceiveRequest(s).value.1, ReceiveRequest(s).value.2);
    HeadRunsOut(r, s, n, body + rest, |body|);
  }

  /** A printed request is a head with a body of the length it announces. */
  lemma PrintedRequest(r: Request, order: seq<string>)
    requires PrintableRequest(r) && Enumerates(order, r.headers)
    ensures var o, es := OpeningOf(r), PrintedEntries(r, order);
            && o.Valid() && AllEntries(es) && MethodOf(o.verb).Some?
            && BodyLength(SetEntries(map[], es)) == |r.body| < 0x8000_0000
            && RequestOf(o, es, r.body) == ParsedRequest(r)
            && DumpRequest(r, order) == HeadText(o, es) + (r.body + "")
  {
    assert |r.body| < 0x8000_0000 && forall k :: k in order ==> k in r.headers;
    hide *;
    OpeningIsValid(r);
    PrintedEntriesFacts(r, order);
    PrintedIsParsed(r, order);
    AnnouncedLength(r);
    DumpedText(r, order);
  }

  lemma DumpedText(r: Request, order: seq<string>)
    requires forall k :: k in order ==> k in r.headers
    ensures DumpRequest(r, order) == HeadText(OpeningOf(r), PrintedEntries(r, order)) + (r.body + "")
  {
    hide HeadText, OpeningOf, PrintedEntries;
    assert r.body + "" == r.body;
  }

  /** What stands behind a mark, with the mark in front, or nothing at all. */
  predicate IsPart(part: string, mark: char, text: string) {
    (part == "" && text == "") || part == [mark] + text
  }

  /**
   What comes back, member by member.  A header spelled "connection" is not printed; one spelled in another
   way is, and decides whether the connection closes.
   */
  ghost predicate RequestComesBack(r: Request, y: Request) {
    && y.verb == r.verb && y.version == r.version && y.body == r.body && y.url == ""
    && (exists q, f :: r.url == y.path + (q + f) && IsPart(q, '?', y.query) && IsPart(f, '#', y.fragment))
    && '?' !in y.path && '#' !in y.path && '#' !in y.query
    && (forall k :: k in y.headers <==>
                      (k in r.headers && r.headers[k].0 != "connection") || (k == "content-length" && r.body != ""))
    && (forall k :: k in y.headers && k != "content-length" ==> y.headers[k] == r.headers[k])
    && (r.body != "" ==> y.headers["content-length"] == ("content-length", Decimal(|r.body|)))
    && (!y.close <==>
          && "connection" in r.headers && r.headers["connection"].0 != "connection"
          && Fold(r.headers["connection"].1) == "keep-alive")
  }

  lemma ParsedRequestComesBack(r: Request)
    requires PrintableRequest(r)
    ensures RequestComesBack(r, ParsedRequest(r))
  {
    hide SplitTarget, IsOrigin, IsKnownMethod, PlainEntry, Decimal, Fold, Target.Valid;
    NoLength(r);
    TargetParts(r.url);
    assert Fold("") == "" by { assert |Fold("")| == 0; }
  }

  /** A text, cut in front of the first c. */
  lemma CutInFront(t: string, c: char) returns (part: string)
    ensures t == Before(t, c) + part && IsPart(part, c, OrEmpty(Behind(t, c))) && c !in Before(t, c)
    ensures forall d :: d !in t ==> d !in Before(t, c) && d !in OrEmpty(Behind(t, c))
  {
    var k := IndexOf(t, c);
    part := t[k..];
    if k < |t| { assert part == [c] + t[k + 1..]; }
    var front, rest := t[..k], OrEmpty(Behind(t, c));
    assert forall i :: 0 <= i < k ==> front[i] == t[i];
    assert forall i :: 0 <= i < |rest| ==> rest[i] == t[k + 1 + i];
    hide IndexOf;
  }

  lemma TargetParts(t: string)
    ensures var s := SplitTarget(t);
            && (exists q, f :: t == s.path + (q + f) && IsPart(q, '?', OrEmpty(s.query)) && IsPart(f, '#', OrEmpty(s.fragment)))
            && '?' !in s.path && '#' !in s.path && '#' !in OrEmpty(s.query)
  {
    hide Before, Behind, IsPart, OrEmpty;
    var f := CutInFront(t, '#');
    var q := CutInFront(Before(t, '#'), '?');
    Assoc(Before(Before(t, '#'), '?'), q, f);
    var p := SplitTarget(t);
    assert t == p.path + (q + f) && IsPart(q, '?', OrEmpty(p.query)) && IsPart(f, '#', OrEmpty(p.fragment));
  }

  /**
   Printing and receiving.  For every printable request, in every iteration order of its header map,
   and for reads that end, within the head, only where no register is needed: recvRequest gives back
   the method, the version, the URL split into path, query and fragment, the printed headers, and the
   body, and nothing is left behind it.
   */
  lemma RequestRoundTrip(r: Request, order: seq<string>, s: Arrivals)
    requires PrintableRequest(r) && Enumerates(order, r.headers)
    requires Steady(s, BUFFER) && Concat(s) == DumpRequest(r, order)
    requires CutsHarmless(REQUESTS, RequestFlow, 1, s, |HeadText(OpeningOf(r), PrintedEntries(r, order))|)
    ensures var x := ReceiveRequest(s);
            && x.Got? && x.value.0 == ParsedRequest(r) && RequestComesBack(r, x.value.0)
            && x.value.1 + Concat(x.value.2) == ""
  {
    assert forall k :: k in order ==> k in r.headers;
    hide *;
    PrintedRequest(r, order);
    FixedRequest(OpeningOf(r), PrintedEntries(r, order), r.body, s, "");
    ParsedRequestComesBack(r);
  }

  // ---------------------------------------------------------------- line ends

  lemma {:induction false} EntryTextSplit(entries: seq<Entry>, k: nat)
    requires k <= |entries|
    ensures EntryText(entries) == EntryText(entries[..k]) + EntryText(entries[k..])
    decreases k
  {
    hide Entry.Text;
    if k > 0 {
      assert entries[..k][0] == entries[0] && entries[..k][1..] == entries[1..][..k - 1];
      assert entries[1..][k - 1..] == entries[k..];
      EntryTextSplit(entries[1..], k - 1);
    }
  }

  /** Behind the request line or a header line, the next header line begins. */
  lemma BehindLines(o: Opening, entries: seq<Entry>)
    requires o.Valid() && AllEntries(entries)
    ensures ControlRun(RequestEdge, 1, o.Text() + EntryText(entries)).0 == 13
  {
    hide RequestEdge, Opening.Text, Opening.Valid, Opening.Events, EntryText, AllEntries, Run, ControlRun;
    var buffer := o.Text() + EntryText(entries);
    var m := NewParser(0);
    assert buffer[0..|buffer|] == buffer && buffer[0..] == buffer;
    assert At(buffer, 0, buffer);
    hide At;
    AtSplit(buffer, 0, o.Text(), EntryText(entries));
    var m1 := OpeningRun(m, buffer, 0, o);
    var m2 := EntriesRun(m1, buffer, |o.Text()|, entries);
    RunIsOver(RequestEdge, m2, buffer);
    RunControl(RequestEdge, m, buffer, 0);
  }

  lemma RunIsOver(t: Table, m: Parser, buffer: string)
    ensures Run(t, m, buffer, |buffer|) == (m, |buffer|)
  {
  }

  /** Reads may end behind any line of the head. */
  lemma LineEndsAreHarmless(o: Opening, entries: seq<Entry>, tail: string, s: Arrivals)
    requires o.Valid() && AllEntries(entries) && Concat(s) == HeadText(o, entries) + tail
    requires forall x: nat :: x < |HeadText(o, entries)| && CutAt(s, x) ==>
               exists k: nat :: k <= |entries| && x == |o.Text()| + |EntryText(entries[..k])|
    ensures CutsHarmless(REQUESTS, RequestFlow, 1, s, |HeadText(o, entries)|)
  {
    hide RequestEdge, Opening.Text, Opening.Valid, EntryText, ControlRun, CutAt, Entry.Valid;
    forall x: nat | x < |HeadText(o, entries)| && x <= |Concat(s)| && CutAt(s, x)
      ensures IsCut(RequestFlow, ControlRun(RequestEdge, 1, Concat(s)[..x]).0)
    {
      var k: nat :| k <= |entries| && x == |o.Text()| + |EntryText(entries[..k])|;
      EntryTextSplit(entries, k);
      var front := o.Text() + EntryText(entries[..k]);
      assert Concat(s) == front + ((EntryText(entries[k..]) + CRLF) + tail);
      assert Concat(s)[..x] == front;
      BehindLines(o, entries[..k]);
    }
  }
}
