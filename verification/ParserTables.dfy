/**
 The transition tables of the two HTTP parsers, as one function each from a state and a byte to
 an edge.  State numbers are those of the source.
 */
module ParserTables {
  import opened HttpText

  /** What a transition does besides moving to its target state. */
  datatype Action =
    | Skip
    | Mark            // remember this position as the start of a value
    | StartField      // remember this position as the start of a header name
    | EndField        // the header name ends here
    | MarkQuery       // remember this position as the start of the query
    | EmitField       // deliver a header
    | EmitReason
    | EmitStatus
    | EmitVersion
    | EmitChunk       // deliver a chunk size
    | EmitMethod
    | EmitPath
    | EmitUri
    | EmitQuery
    | EmitFragment
    | SetLength       // store the content length
    | SetClose
    | SetChunked
    | Done            // the blank line: stop right behind it

  /** Up to four actions, performed in order, then a move to `target`. */
  datatype Edge = Go(target: int, a1: Action := Skip, a2: Action := Skip, a3: Action := Skip, a4: Action := Skip)
  {
    predicate Halts() {
      a1.Done? || a2.Done? || a3.Done? || a4.Done?
    }
  }

  const REJECT := Go(0)

  // ---------------------------------------------------------------- responses

  const CONNECTION: string := "connection"
  const CONTENT_LENGTH: string := "content-length"
  const TRANSFER_ENCODING: string := "transfer-encoding"
  const CLOSE: string := "close"
  const CHUNKED: string := "chunked"

  /** A header name that is none of the special three, from its second character on. */
  function NameEdge(c: char): Edge {
    if c == ':' then Go(22, EndField)
    else if IsToken(c) then Go(21)
    else REJECT
  }

  /** One step along a special name. */
  function NameTrie(cs: int, c: char, expected: char): Edge {
    if Lower(c) == expected then Go(cs + 1) else NameEdge(c)
  }

  /** Inside a header value. */
  function ValueEdge(c: char): Edge {
    if c == LF then Go(20, EmitField)
    else if c == CR then Go(24, EmitField)
    else Go(23)
  }

  function ValueTrie(cs: int, c: char, expected: char): Edge {
    if Lower(c) == expected then Go(cs + 1) else ValueEdge(c)
  }

  /** Between the colon and the value: `self` loops on blanks, the others follow an empty value. */
  function BeforeValue(c: char, self: int, onLF: int, onCR: int): Edge {
    if c == LF then Go(onLF, Mark, EmitField)
    else if c == CR then Go(onCR, Mark, EmitField)
    else if IsBlank(c) then Go(self, Mark)
    else Go(23, Mark)
  }

  function Expect(cs: int, c: char, expected: char): Edge {
    if Lower(c) == expected then Go(cs + 1) else REJECT
  }

  /** A blank in a folded line, where a carriage return counts as one. */
  predicate FoldBlank(c: char) {
    IsBlank(c) || c == CR
  }

  /** The start of a header line. */
  function LineStart(c: char): Edge {
    if c == LF then Go(120, Done)
    else if c == CR then Go(3)
    else if Lower(c) == 'c' then Go(25, StartField)
    else if Lower(c) == 't' then Go(44, StartField)
    else if IsToken(c) then Go(21, StartField)
    else REJECT
  }

  /** The start of a line behind `connection: close`, where that header takes effect. */
  function LineStartClosing(c: char): Edge {
    if c == LF then Go(120, SetClose, Done)
    else if c == CR then Go(3, SetClose)
    else if Lower(c) == 'c' then Go(25, SetClose, StartField)
    else if Lower(c) == 't' then Go(44, SetClose, StartField)
    else if IsToken(c) then Go(21, SetClose, StartField)
    else REJECT
  }

  /** The chunk-size line: states 1 to 7. */
  function ChunkLine(cs: int, c: char): Edge {
    if cs == 2 then
      if c == LF then Go(120, EmitChunk, Done)
      else if c == CR then Go(3, EmitChunk)
      else if c == ';' then Go(4, EmitChunk)
      else if IsHex(c) then Go(2)
      else REJECT
    else if cs == 3 then
      if c == LF then Go(120, Done) else REJECT
    else if cs == 4 then
      if IsToken(c) then Go(5, StartField) else REJECT
    else if cs == 5 then
      if c == LF then Go(120, EndField, Mark, EmitField, Done)
      else if c == CR then Go(3, EndField, Mark, EmitField)
      else if c == ';' then Go(4, EndField, Mark, EmitField)
      else if c == '=' then Go(6, EndField, Mark)
      else if IsToken(c) then Go(5)
      else REJECT
    else if cs == 6 then
      if IsToken(c) then Go(7, Mark) else REJECT
    else
      if c == LF then Go(120, EmitField, Done)
      else if c == CR then Go(3, EmitField)
      else if c == ';' then Go(4, EmitField)
      else if IsToken(c) then Go(7)
      else REJECT
  }

  /** The status line: states 8 to 19. */
  function StatusLine(cs: int, c: char): Edge {
    match cs
    case 8 => if c == 'T' then Go(9) else REJECT
    case 9 => if c == 'T' then Go(10) else REJECT
    case 10 => if c == 'P' then Go(11) else REJECT
    case 11 => if c == '/' then Go(12) else REJECT
    case 12 => if IsDigit(c) then Go(13) else REJECT
    case 13 => if c == '.' then Go(14) else if IsDigit(c) then Go(13) else REJECT
    case 14 => if IsDigit(c) then Go(15) else REJECT
    case 15 => if c == ' ' then Go(16, EmitVersion) else if IsDigit(c) then Go(15) else REJECT
    case 16 => if IsDigit(c) then Go(17, Mark) else REJECT
    case 17 => if c == ' ' then Go(18, EmitStatus) else if IsDigit(c) then Go(17) else REJECT
    case 18 => if c == LF then REJECT else Go(19, Mark)
    case _ => if c == LF then Go(20, EmitReason) else if c == CR then Go(24, EmitReason) else Go(19)
  }

  /** Behind `connection:`, including its folded continuation: states 34 to 43, 88 to 100. */
  function ConnectionLine(cs: int, c: char): Edge {
    if cs == 34 then if c == ':' then Go(35, EndField) else NameEdge(c)
    else if cs == 35 then
      if Lower(c) == 'c' then Go(96, Mark) else BeforeValue(c, 35, 36, 95)
    else if cs == 36 then
      if c == LF then Go(122, Done)
      else if c == CR then Go(89)
      else if IsBlank(c) then Go(37)
      else if Lower(c) == 'c' then Go(90, StartField)
      else if Lower(c) == 't' then Go(44, StartField)
      else if IsToken(c) then Go(21, StartField)
      else REJECT
    else if cs == 37 then
      if FoldBlank(c) || c == LF then Go(37) else if Lower(c) == 'c' then Go(38) else REJECT
    else if 38 <= cs <= 41 then Expect(cs, c, CLOSE[cs - 37])
    else if cs == 42 then if c == LF then Go(43) else if c == CR then Go(88) else REJECT
    else if cs == 43 then LineStartClosing(c)
    else if cs == 88 then if c == LF then Go(43) else REJECT
    else if cs == 89 then
      if c == LF then Go(122, Done) else if FoldBlank(c) then Go(37) else if Lower(c) == 'c' then Go(38) else REJECT
    else if cs == 90 then
      if Lower(c) == 'l' then Go(91) else if Lower(c) == 'o' then Go(26) else NameEdge(c)
    else if 91 <= cs <= 93 then NameTrie(cs, c, CLOSE[cs - 89])
    else if cs == 94 then if c == LF then Go(43) else if c == CR then Go(88) else NameEdge(c)
    else if cs == 95 then
      if c == LF then Go(36) else if FoldBlank(c) then Go(37) else if Lower(c) == 'c' then Go(38) else REJECT
    else if 96 <= cs <= 99 then ValueTrie(cs, c, CLOSE[cs - 95])
    else // 100
      if c == LF then Go(43, EmitField) else if c == CR then Go(88, EmitField) else Go(23)
  }

  /** Behind `transfer-encoding:`, including its folded continuation: states 60 to 87. */
  function EncodingLine(cs: int, c: char): Edge {
    if cs == 60 then if c == ':' then Go(61, EndField) else NameEdge(c)
    else if cs == 61 then
      if Lower(c) == 'c' then Go(81, Mark) else BeforeValue(c, 61, 62, 80)
    else if cs == 62 then
      if c == LF then Go(121, Done)
      else if c == CR then Go(72)
      else if IsBlank(c) then Go(63)
      else if Lower(c) == 'c' then Go(73, Mark, StartField)
      else if Lower(c) == 't' then Go(44, StartField)
      else if IsToken(c) then Go(21, StartField)
      else REJECT
    else if cs == 63 then
      if FoldBlank(c) || c == LF then Go(63) else if Lower(c) == 'c' then Go(64, Mark) else REJECT
    else if 64 <= cs <= 69 then Expect(cs, c, CHUNKED[cs - 63])
    else if cs == 70 then if c == LF then Go(20, EmitField, SetChunked) else if c == CR then Go(71, EmitField) else REJECT
    else if cs == 71 then if c == LF then Go(20, SetChunked) else REJECT
    else if cs == 72 then
      if c == LF then Go(121, Done) else if FoldBlank(c) then Go(63) else if Lower(c) == 'c' then Go(64, Mark) else REJECT
    else if cs == 73 then
      if Lower(c) == 'h' then Go(74) else if Lower(c) == 'o' then Go(26) else NameEdge(c)
    else if 74 <= cs <= 78 then NameTrie(cs, c, CHUNKED[cs - 72])
    else if cs == 79 then
      if c == LF then Go(20, EmitField, SetChunked) else if c == CR then Go(71, EmitField) else NameEdge(c)
    else if cs == 80 then
      if c == LF then Go(62) else if FoldBlank(c) then Go(63) else if Lower(c) == 'c' then Go(64, Mark) else REJECT
    else if 81 <= cs <= 86 then ValueTrie(cs, c, CHUNKED[cs - 80])
    else // 87
      if c == LF then Go(20, EmitField, SetChunked) else if c == CR then Go(71, EmitField) else Go(23)
  }

  /** Behind `content-length:`, including its folded continuation: states 111 to 119. */
  function LengthLine(cs: int, c: char): Edge {
    if cs == 111 then if c == ':' then Go(112, EndField) else NameEdge(c)
    else if cs == 112 then
      if IsDigit(c) then Go(119, Mark) else BeforeValue(c, 112, 113, 118)
    else if cs == 113 then
      if c == LF then Go(123, Done)
      else if c == CR then Go(116)
      else if IsBlank(c) then Go(114)
      else if IsDigit(c) then Go(117, Mark, StartField)
      else if Lower(c) == 'c' then Go(25, StartField)
      else if Lower(c) == 't' then Go(44, StartField)
      else if IsToken(c) then Go(21, StartField)
      else REJECT
    else if cs == 114 then
      if FoldBlank(c) || c == LF then Go(114) else if IsDigit(c) then Go(115, Mark) else REJECT
    else if cs == 115 then
      if c == LF then Go(20, SetLength, EmitField)
      else if c == CR then Go(24, SetLength, EmitField)
      else if IsDigit(c) then Go(115)
      else REJECT
    else if cs == 116 then
      if c == LF then Go(123, Done) else if FoldBlank(c) then Go(114) else if IsDigit(c) then Go(115, Mark) else REJECT
    else if cs == 117 then
      if c == LF then Go(20, SetLength, EmitField)
      else if c == CR then Go(24, SetLength, EmitField)
      else if IsDigit(c) then Go(117)
      else NameEdge(c)
    else if cs == 118 then
      if c == LF then Go(113) else if FoldBlank(c) then Go(114) else if IsDigit(c) then Go(115, Mark) else REJECT
    else // 119
      if c == LF then Go(20, SetLength, EmitField)
      else if c == CR then Go(24, SetLength, EmitField)
      else if IsDigit(c) then Go(119)
      else Go(23)
  }

  /** The whole table of the response parser. */
  function ResponseEdge(cs: int, c: char): Edge {
    if cs == 1 then if c == 'H' then Go(8, Mark) else if IsHex(c) then Go(2, Mark) else REJECT
    else if 2 <= cs <= 7 then ChunkLine(cs, c)
    else if 8 <= cs <= 19 then StatusLine(cs, c)
    else if cs == 20 then LineStart(c)
    else if cs == 21 then NameEdge(c)
    else if cs == 22 then BeforeValue(c, 22, 20, 24)
    else if cs == 23 then ValueEdge(c)
    else if cs == 24 then if c == LF then Go(20) else REJECT
    else if cs == 27 && Lower(c) == 't' then Go(101)
    else if 25 <= cs <= 33 then NameTrie(cs, c, CONNECTION[cs - 24])
    else if 34 <= cs <= 43 || 88 <= cs <= 100 then ConnectionLine(cs, c)
    else if 44 <= cs <= 59 then NameTrie(cs, c, TRANSFER_ENCODING[cs - 43])
    else if 60 <= cs <= 87 then EncodingLine(cs, c)
    else if 101 <= cs <= 110 then NameTrie(cs, c, CONTENT_LENGTH[cs - 97])
    else if 111 <= cs <= 119 then LengthLine(cs, c)
    else if cs == 121 then
      if FoldBlank(c) || c == LF then Go(63) else if Lower(c) == 'c' then Go(64, Mark) else REJECT
    else if cs == 122 then
      if FoldBlank(c) || c == LF then Go(37) else if Lower(c) == 'c' then Go(38) else REJECT
    else if cs == 123 then
      if FoldBlank(c) || c == LF then Go(114) else if IsDigit(c) then Go(115, Mark) else REJECT
    else REJECT
  }

  // ---------------------------------------------------------------- requests

  /** A byte allowed in every part of a target. */
  predicate IsUriChar(c: char) {
    || c == '!' || c == '$' || '&' <= c <= ';' || c == '=' || '@' <= c <= 'Z' || c == '_' || 'a' <= c <= 'z'
    || c == '~' || c as int >= 128
  }

  /** A query or a fragment may also hold question marks. */
  predicate IsQueryChar(c: char) {
    IsUriChar(c) || c == '?'
  }

  /** A path that does not begin with a slash is ASCII and holds no colon. */
  predicate IsRelativeChar(c: char) {
    IsUriChar(c) && c != '/' && c != ':' && c as int < 128
  }

  predicate IsUpperOrDigit(c: char) {
    IsDigit(c) || 'A' <= c <= 'Z'
  }

  predicate IsAlpha(c: char) {
    'A' <= c <= 'Z' || 'a' <= c <= 'z'
  }

  /** A control character the request parser accepts in a header name. */
  predicate IsNameControl(c: char) {
    1 <= c as int <= 8 || 10 <= c as int <= 31
  }

  function RequestNameEdge(c: char): Edge {
    if c == ':' then Go(15, EndField)
    else if IsToken(c) || IsNameControl(c) then Go(14)
    else REJECT
  }

  /** Where a path, begun by `start`, may end. */
  function PathEnd(c: char, start: Action): Edge {
    if c == ' ' then Go(4, start, EmitPath, EmitUri)
    else if c == '#' then Go(20, start, EmitPath, EmitUri)
    else if c == '?' then Go(29, start, EmitPath)
    else REJECT
  }

  /** `expect` behind a percent sign and one digit. */
  function Escape(c: char, next: int): Edge {
    if IsHex(c) then Go(next) else REJECT
  }

  /** The request target: states 3 and 19 to 33, 173 and 174. */
  function TargetEdge(cs: int, c: char): Edge {
    if cs == 3 then
      if c == '%' then Go(24, Mark)
      else if c == '/' then Go(33, Mark)
      else if IsAlpha(c) then Go(173, Mark)
      else if IsRelativeChar(c) then Go(19, Mark)
      else PathEnd(c, Mark)
    else if cs == 19 then
      if c == '%' then Go(24)
      else if c == '/' then Go(26)
      else if IsRelativeChar(c) then Go(19)
      else PathEnd(c, Skip)
    else if cs == 20 then
      if c == ' ' then Go(4, Mark, EmitFragment)
      else if c == '%' then Go(22, Mark)
      else if IsQueryChar(c) then Go(21, Mark)
      else REJECT
    else if cs == 21 then
      if c == ' ' then Go(4, EmitFragment)
      else if c == '%' then Go(22)
      else if IsQueryChar(c) then Go(21)
      else REJECT
    else if cs == 22 then Escape(c, 23)
    else if cs == 23 then Escape(c, 21)
    else if cs == 24 then Escape(c, 25)
    else if cs == 25 then Escape(c, 19)
    else if cs == 26 then
      if c == '%' then Go(27) else if IsUriChar(c) then Go(26) else PathEnd(c, Skip)
    else if cs == 27 then Escape(c, 28)
    else if cs == 28 then Escape(c, 26)
    else if cs == 29 then
      if c == ' ' then Go(4, MarkQuery, EmitQuery, EmitUri)
      else if c == '#' then Go(20, MarkQuery, EmitQuery, EmitUri)
      else if c == '%' then Go(31, MarkQuery)
      else if IsQueryChar(c) then Go(30, MarkQuery)
      else REJECT
    else if cs == 30 then
      if c == ' ' then Go(4, EmitQuery, EmitUri)
      else if c == '#' then Go(20, EmitQuery, EmitUri)
      else if c == '%' then Go(31)
      else if IsQueryChar(c) then Go(30)
      else REJECT
    else if cs == 31 then Escape(c, 32)
    else if cs == 32 then Escape(c, 30)
    else if cs == 33 then
      if c == '%' then Go(27)
      else if c == '/' then Go(34)
      else if IsUriChar(c) then Go(26)
      else PathEnd(c, Skip)
    else if cs == 173 then
      if c == '%' then Go(24)
      else if c == '/' then Go(26)
      else if c == ':' then Go(174)
      else if IsAlpha(c) || IsDigit(c) || c == '+' || c == '-' || c == '.' then Go(173)
      else if IsRelativeChar(c) then Go(19)
      else PathEnd(c, Skip)
    else // 174
      if c == '%' then Go(27, Mark)
      else if c == '/' then Go(33, Mark)
      else if IsUriChar(c) then Go(26, Mark)
      else PathEnd(c, Mark)
  }

  /** The version behind the target: states 4 to 12. */
  function RequestVersion(cs: int, c: char): Edge {
    match cs
    case 4 => if c == 'H' then Go(5, Mark) else REJECT
    case 5 => if c == 'T' then Go(6) else REJECT
    case 6 => if c == 'T' then Go(7) else REJECT
    case 7 => if c == 'P' then Go(8) else REJECT
    case 8 => if c == '/' then Go(9) else REJECT
    case 9 => if c == '1' then Go(10) else REJECT
    case 10 => if c == '.' then Go(11) else REJECT
    case 11 => if c == '0' || c == '1' then Go(12) else REJECT
    case _ => if c == LF then Go(13, EmitVersion) else if c == CR then Go(17, EmitVersion) else REJECT
  }

  /** The header block of a request: states 13 to 18 and 348. */
  function RequestHeader(cs: int, c: char): Edge {
    if cs == 13 then
      if c == LF then Go(348, StartField, Done)
      else if c == CR then Go(18, StartField)
      else if IsToken(c) || IsNameControl(c) then Go(14, StartField)
      else REJECT
    else if cs == 14 || cs == 348 then RequestNameEdge(c)
    else if cs == 15 then
      if c == LF then Go(13, Mark, EmitField)
      else if c == CR then Go(17, Mark, EmitField)
      else if c as int == 0 || c as int == 127 then REJECT
      else if c == ' ' || c == '\t' then Go(15, Mark)
      else Go(16, Mark)
    else if cs == 16 then
      if c == LF then Go(13, EmitField)
      else if c == CR then Go(17, EmitField)
      else if c as int == 0 || c as int == 127 then REJECT
      else Go(16)
    else if cs == 17 then if c == LF then Go(13) else REJECT
    else // 18
      if c == LF then Go(348, Done) else RequestNameEdge(c)
  }

  /**
   The table of the request parser for an HTTP request line and its headers.  The edges that leave
   this part are kept, but the states behind them (34 for `//`, 194 for `<`, 198 for `@`) are not
   part of this model and have no edges here.
   */
  function RequestEdge(cs: int, c: char): Edge {
    if cs == 1 then
      if c == '<' then Go(194, Mark) else if c == '@' then Go(198, Mark)
      else if IsUpperOrDigit(c) then Go(2, Mark) else REJECT
    else if cs == 2 then
      if c == ' ' then Go(3, EmitMethod) else if IsUpperOrDigit(c) then Go(175) else REJECT
    else if 175 <= cs <= 192 then
      if c == ' ' then Go(3, EmitMethod) else if IsUpperOrDigit(c) then Go(cs + 1) else REJECT
    else if cs == 193 then
      if c == ' ' then Go(3, EmitMethod) else REJECT
    else if cs == 3 || 19 <= cs <= 33 || cs == 173 || cs == 174 then TargetEdge(cs, c)
    else if 4 <= cs <= 12 then RequestVersion(cs, c)
    else if 13 <= cs <= 18 || cs == 348 then RequestHeader(cs, c)
    else REJECT
  }
}
