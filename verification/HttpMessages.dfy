/** The response and request objects, and what the parser callbacks do to them. */
module HttpMessages {
  import opened Wrappers
  import opened HttpText
  import opened Machine

  /**
   A header map: std::map ordered by strcasecmp.  The key is the folded name; the entry keeps the
   name as it was first spelled.
   */
  type Headers = map<string, (string, string)>

  /** headers[name] = value. */
  function SetHeader(h: Headers, name: string, value: string): Headers {
    var k := Fold(name);
    if k in h then h[k := (h[k].0, value)] else h[k := (name, value)]
  }

  /** The value under a folded name, "" when there is none. */
  function GetHeader(h: Headers, key: string): string {
    if key in h then h[key].1 else ""
  }

  /** getContentLength: the header as a number, 0 when it is missing or is none, cut to an int64. */
  function ContentLength(h: Headers): int {
    var n := LexicalUInt64(GetHeader(h, "content-length"));
    if "content-length" !in h || n == None then 0
    else if n.value < 0x8000_0000_0000_0000 then n.value
    else n.value - 0x1_0000_0000_0000_0000
  }

  /** How many bytes a body has by its content-length; with one below zero there is no body. */
  function BodyLength(h: Headers): nat {
    if ContentLength(h) > 0 then ContentLength(h) else 0
  }

  datatype Response = Response(
    status: int, version: nat, close: bool, reason: string, body: string, headers: Headers)

  /** A response as its default constructor makes it. */
  const NEW_RESPONSE := Response(200, 0, true, "", "", map[])

  /** strncmp(text, word, |text|) == 0. */
  predicate EqualUpToLength(text: string, word: string) {
    text <= word
  }

  /** The version byte for a version text; 0 for one that is refused. */
  function VersionByte(text: string): nat {
    if EqualUpToLength(text, "HTTP/1.1") then 0x11
    else if EqualUpToLength(text, "HTTP/1.0") then 0x10
    else 0
  }

  /** A callback that makes the response parser report an error. */
  predicate ResponseRejects(e: Event) {
    e.Version? && VersionByte(e.text) == 0
  }

  /** One callback of the response parser. */
  function DeliverResponse(r: Response, e: Event): Response {
    match e
    case Version(text) => if VersionByte(text) == 0 then r else r.(version := VersionByte(text))
    case StatusCode(code) => r.(status := code)
    case Reason(text) => r.(reason := text)
    case Field(name, value) => if name == "" then r else r.(headers := SetHeader(r.headers, name, value))
    case _ => r
  }

  /** All callbacks so far, in order. */
  function BuildResponse(events: seq<Event>): Response {
    if events == [] then NEW_RESPONSE
    else DeliverResponse(BuildResponse(events[..|events| - 1]), events[|events| - 1])
  }

  predicate AnyRejected(rejects: Event -> bool, events: seq<Event>) {
    exists i :: 0 <= i < |events| && rejects(events[i])
  }
}
