/**
 The data flow of the two tables: which registers matter where.  `ResponseFlowHolds` and
 `RequestFlowHolds` check the claim on every edge, so the segmentation theorem applies to both.
 */
module ParserFlows {
  import opened ParserTables
  import opened Segmentation

  // ---------------------------------------------------------------- responses

  predicate ResponseMark(cs: int) {
    || cs == 2 || 7 <= cs <= 15 || cs == 17 || cs == 19 || cs == 23 || 64 <= cs <= 70 || 73 <= cs <= 79
    || 81 <= cs <= 87 || 96 <= cs <= 100 || cs == 115 || cs == 117 || cs == 119
  }

  predicate ResponseStart(cs: int) {
    || 5 <= cs <= 7 || 21 <= cs <= 23 || 25 <= cs <= 35 || 44 <= cs <= 70 || 72 <= cs <= 87 || 90 <= cs <= 94
    || 96 <= cs <= 119 || cs == 121 || cs == 123
  }

  predicate ResponseLen(cs: int) {
    || 6 <= cs <= 7 || 22 <= cs <= 23 || cs == 35 || 61 <= cs <= 70 || 72 <= cs <= 87 || 96 <= cs <= 100
    || 112 <= cs <= 119 || cs == 121 || cs == 123
  }

  predicate Never(cs: int) {
    false
  }

  function ResponseBase(cs: int): nat {
    if cs == 2 then 16
    else if cs == 17 || cs == 115 || cs == 117 || cs == 119 then 10
    else 0
  }

  /** An unindented continuation line is at once a header name and the previous header's value. */
  predicate ResponseStale(cs: int) {
    73 <= cs <= 79 || cs == 117
  }

  predicate ResponsePaired(cs: int) {
    ResponseLen(cs) && !ResponseStale(cs)
  }

  const ResponseFlow := Flow(ResponseMark, ResponseStart, ResponseLen, Never, ResponseBase, ResponsePaired, ResponseStale)

  // Each of the claims, on every edge; the table is taken in pieces, by what its states are in.

  predicate AtStart(cs: int) {
    cs < 20
  }

  predicate InNames(cs: int) {
    20 <= cs <= 33 || 44 <= cs <= 59 || 101 <= cs <= 110
  }

  predicate ToClose(cs: int) {
    34 <= cs <= 37
  }

  predicate InClose(cs: int) {
    38 <= cs <= 43 || 88 <= cs <= 100
  }

  predicate ToChunked(cs: int) {
    60 <= cs <= 72 || cs == 80
  }

  predicate InChunked(cs: int) {
    73 <= cs <= 87 && cs != 80
  }

  predicate ToLength(cs: int) {
    111 <= cs
  }

  lemma QueryFlowFirst(cs: int, c: char)
    requires cs < 60
    ensures QueryFlow(false, ResponseEdge(cs, c), false)
  {
  }

  lemma QueryFlowLast(cs: int, c: char)
    requires 60 <= cs
    ensures QueryFlow(false, ResponseEdge(cs, c), false)
  {
  }

  lemma MarkFlowAtStart(cs: int, c: char)
    requires AtStart(cs)
    ensures var e := ResponseEdge(cs, c); MarkFlow(ResponseMark(cs), e, ResponseMark(e.target))
  {
    hide ConnectionLine, EncodingLine, LengthLine;
  }

  lemma MarkFlowInNames(cs: int, c: char)
    requires InNames(cs)
    ensures var e := ResponseEdge(cs, c); MarkFlow(ResponseMark(cs), e, ResponseMark(e.target))
  {
    hide ChunkLine, StatusLine, ConnectionLine, EncodingLine, LengthLine;
  }

  lemma MarkFlowToClose(cs: int, c: char)
    requires ToClose(cs)
    ensures var e := ResponseEdge(cs, c); MarkFlow(ResponseMark(cs), e, ResponseMark(e.target))
  {
    hide ChunkLine, StatusLine, EncodingLine, LengthLine;
  }

  lemma MarkFlowInClose(cs: int, c: char)
    requires InClose(cs)
    ensures var e := ResponseEdge(cs, c); MarkFlow(ResponseMark(cs), e, ResponseMark(e.target))
  {
    hide ChunkLine, StatusLine, EncodingLine, LengthLine;
  }

  lemma MarkFlowToChunked(cs: int, c: char)
    requires ToChunked(cs)
    ensures var e := ResponseEdge(cs, c); MarkFlow(ResponseMark(cs), e, ResponseMark(e.target))
  {
    hide ChunkLine, StatusLine, ConnectionLine, LengthLine;
  }

  lemma MarkFlowInChunked(cs: int, c: char)
    requires InChunked(cs)
    ensures var e := ResponseEdge(cs, c); MarkFlow(ResponseMark(cs), e, ResponseMark(e.target))
  {
    hide ChunkLine, StatusLine, ConnectionLine, LengthLine;
  }

  lemma MarkFlowToLength(cs: int, c: char)
    requires ToLength(cs)
    ensures var e := ResponseEdge(cs, c); MarkFlow(ResponseMark(cs), e, ResponseMark(e.target))
  {
    hide ChunkLine, StatusLine, ConnectionLine, EncodingLine;
  }

  lemma NameFlowAtStart(cs: int, c: char)
    requires AtStart(cs)
    ensures var e := ResponseEdge(cs, c); NameFlow(ResponseStart(cs), ResponseLen(cs), e, ResponseStart(e.target), ResponseLen(e.target))
  {
    hide ConnectionLine, EncodingLine, LengthLine;
  }

  lemma NameFlowInNames(cs: int, c: char)
    requires InNames(cs)
    ensures var e := ResponseEdge(cs, c); NameFlow(ResponseStart(cs), ResponseLen(cs), e, ResponseStart(e.target), ResponseLen(e.target))
  {
    hide ChunkLine, StatusLine, ConnectionLine, EncodingLine, LengthLine;
  }

  lemma NameFlowToClose(cs: int, c: char)
    requires ToClose(cs)
    ensures var e := ResponseEdge(cs, c); NameFlow(ResponseStart(cs), ResponseLen(cs), e, ResponseStart(e.target), ResponseLen(e.target))
  {
    hide ChunkLine, StatusLine, EncodingLine, LengthLine;
  }

  lemma NameFlowInClose(cs: int, c: char)
    requires InClose(cs)
    ensures var e := ResponseEdge(cs, c); NameFlow(ResponseStart(cs), ResponseLen(cs), e, ResponseStart(e.target), ResponseLen(e.target))
  {
    hide ChunkLine, StatusLine, EncodingLine, LengthLine;
  }

  lemma NameFlowToChunked(cs: int, c: char)
    requires ToChunked(cs)
    ensures var e := ResponseEdge(cs, c); NameFlow(ResponseStart(cs), ResponseLen(cs), e, ResponseStart(e.target), ResponseLen(e.target))
  {
    hide ChunkLine, StatusLine, ConnectionLine, LengthLine;
  }

  lemma NameFlowInChunked(cs: int, c: char)
    requires InChunked(cs)
    ensures var e := ResponseEdge(cs, c); NameFlow(ResponseStart(cs), ResponseLen(cs), e, ResponseStart(e.target), ResponseLen(e.target))
  {
    hide ChunkLine, StatusLine, ConnectionLine, LengthLine;
  }

  lemma NameFlowToLength(cs: int, c: char)
    requires ToLength(cs)
    ensures var e := ResponseEdge(cs, c); NameFlow(ResponseStart(cs), ResponseLen(cs), e, ResponseStart(e.target), ResponseLen(e.target))
  {
    hide ChunkLine, StatusLine, ConnectionLine, EncodingLine;
  }

  lemma NumberFlowAtStart(cs: int, c: char)
    requires AtStart(cs)
    ensures var e := ResponseEdge(cs, c); NumbersFlow(ResponseBase(cs), c, e, ResponseBase(e.target))
  {
    hide ConnectionLine, EncodingLine, LengthLine;
  }

  lemma NumberFlowInNames(cs: int, c: char)
    requires InNames(cs)
    ensures var e := ResponseEdge(cs, c); NumbersFlow(ResponseBase(cs), c, e, ResponseBase(e.target))
  {
    hide ChunkLine, StatusLine, ConnectionLine, EncodingLine, LengthLine;
  }

  lemma NumberFlowToClose(cs: int, c: char)
    requires ToClose(cs)
    ensures var e := ResponseEdge(cs, c); NumbersFlow(ResponseBase(cs), c, e, ResponseBase(e.target))
  {
    hide ChunkLine, StatusLine, EncodingLine, LengthLine;
  }

  lemma NumberFlowInClose(cs: int, c: char)
    requires InClose(cs)
    ensures var e := ResponseEdge(cs, c); NumbersFlow(ResponseBase(cs), c, e, ResponseBase(e.target))
  {
    hide ChunkLine, StatusLine, EncodingLine, LengthLine;
  }

  lemma NumberFlowToChunked(cs: int, c: char)
    requires ToChunked(cs)
    ensures var e := ResponseEdge(cs, c); NumbersFlow(ResponseBase(cs), c, e, ResponseBase(e.target))
  {
    hide ChunkLine, StatusLine, ConnectionLine, LengthLine;
  }

  lemma NumberFlowInChunked(cs: int, c: char)
    requires InChunked(cs)
    ensures var e := ResponseEdge(cs, c); NumbersFlow(ResponseBase(cs), c, e, ResponseBase(e.target))
  {
    hide ChunkLine, StatusLine, ConnectionLine, LengthLine;
  }

  lemma NumberFlowToLength(cs: int, c: char)
    requires ToLength(cs)
    ensures var e := ResponseEdge(cs, c); NumbersFlow(ResponseBase(cs), c, e, ResponseBase(e.target))
  {
    hide ChunkLine, StatusLine, ConnectionLine, EncodingLine;
  }

  lemma FieldFlowAtStart(cs: int, c: char)
    requires AtStart(cs)
    ensures var e := ResponseEdge(cs, c);
            || FieldsFlow(ResponsePaired(cs), e, ResponsePaired(e.target))
            || (ResponseStale(cs) && EmitsField(e) && !ResponsePaired(e.target))
  {
    hide ConnectionLine, EncodingLine, LengthLine;
  }

  lemma FieldFlowInNames(cs: int, c: char)
    requires InNames(cs)
    ensures var e := ResponseEdge(cs, c);
            || FieldsFlow(ResponsePaired(cs), e, ResponsePaired(e.target))
            || (ResponseStale(cs) && EmitsField(e) && !ResponsePaired(e.target))
  {
    hide ChunkLine, StatusLine, ConnectionLine, EncodingLine, LengthLine;
  }

  lemma FieldFlowToClose(cs: int, c: char)
    requires ToClose(cs)
    ensures var e := ResponseEdge(cs, c);
            || FieldsFlow(ResponsePaired(cs), e, ResponsePaired(e.target))
            || (ResponseStale(cs) && EmitsField(e) && !ResponsePaired(e.target))
  {
    hide ChunkLine, StatusLine, EncodingLine, LengthLine;
  }

  lemma FieldFlowInClose(cs: int, c: char)
    requires InClose(cs)
    ensures var e := ResponseEdge(cs, c);
            || FieldsFlow(ResponsePaired(cs), e, ResponsePaired(e.target))
            || (ResponseStale(cs) && EmitsField(e) && !ResponsePaired(e.target))
  {
    hide ChunkLine, StatusLine, EncodingLine, LengthLine;
  }

  lemma FieldFlowToChunked(cs: int, c: char)
    requires ToChunked(cs)
    ensures var e := ResponseEdge(cs, c);
            || FieldsFlow(ResponsePaired(cs), e, ResponsePaired(e.target))
            || (ResponseStale(cs) && EmitsField(e) && !ResponsePaired(e.target))
  {
    hide ChunkLine, StatusLine, ConnectionLine, LengthLine;
  }

  lemma FieldFlowInChunked(cs: int, c: char)
    requires InChunked(cs)
    ensures var e := ResponseEdge(cs, c);
            || FieldsFlow(ResponsePaired(cs), e, ResponsePaired(e.target))
            || (ResponseStale(cs) && EmitsField(e) && !ResponsePaired(e.target))
  {
    hide ChunkLine, StatusLine, ConnectionLine, LengthLine;
  }

  lemma FieldFlowToLength(cs: int, c: char)
    requires ToLength(cs)
    ensures var e := ResponseEdge(cs, c);
            || FieldsFlow(ResponsePaired(cs), e, ResponsePaired(e.target))
            || (ResponseStale(cs) && EmitsField(e) && !ResponsePaired(e.target))
  {
    hide ChunkLine, StatusLine, ConnectionLine, EncodingLine;
  }

  lemma ResponseEdgeFlow(cs: int, c: char)
    ensures FlowAt(ResponseFlow, cs, c, ResponseEdge(cs, c))
  {
    hide ResponseEdge, MarkFlow, NameFlow, QueryFlow, NumbersFlow, FieldsFlow, EmitsField, ResponseMark, ResponseStart,
      ResponseLen, ResponseBase, ResponsePaired, ResponseStale;
    if cs < 60 { QueryFlowFirst(cs, c); } else { QueryFlowLast(cs, c); }
    if AtStart(cs) {
      MarkFlowAtStart(cs, c); NameFlowAtStart(cs, c); NumberFlowAtStart(cs, c); FieldFlowAtStart(cs, c);
    } else if InNames(cs) {
      MarkFlowInNames(cs, c); NameFlowInNames(cs, c); NumberFlowInNames(cs, c); FieldFlowInNames(cs, c);
    } else if ToClose(cs) {
      MarkFlowToClose(cs, c); NameFlowToClose(cs, c); NumberFlowToClose(cs, c); FieldFlowToClose(cs, c);
    } else if InClose(cs) {
      MarkFlowInClose(cs, c); NameFlowInClose(cs, c); NumberFlowInClose(cs, c); FieldFlowInClose(cs, c);
    } else if ToChunked(cs) {
      MarkFlowToChunked(cs, c); NameFlowToChunked(cs, c); NumberFlowToChunked(cs, c); FieldFlowToChunked(cs, c);
    } else if InChunked(cs) {
      MarkFlowInChunked(cs, c); NameFlowInChunked(cs, c); NumberFlowInChunked(cs, c); FieldFlowInChunked(cs, c);
    } else {
      MarkFlowToLength(cs, c); NameFlowToLength(cs, c); NumberFlowToLength(cs, c); FieldFlowToLength(cs, c);
    }
  }

  lemma ResponseFlowHolds()
    ensures Describes(ResponseFlow, ResponseEdge)
  {
    hide FlowAt;
    forall cs: int, c: char
      ensures FlowAt(ResponseFlow, cs, c, ResponseEdge(cs, c))
    {
      ResponseEdgeFlow(cs, c);
    }
  }

  // ---------------------------------------------------------------- requests

  predicate RequestMark(cs: int) {
    || cs == 2 || 5 <= cs <= 12 || cs == 16 || cs == 19 || 21 <= cs <= 33 || cs == 173 || 175 <= cs <= 193
  }

  predicate RequestStart(cs: int) {
    14 <= cs <= 16 || cs == 18 || cs == 348
  }

  predicate RequestLen(cs: int) {
    15 <= cs <= 16
  }

  predicate RequestQuery(cs: int) {
    30 <= cs <= 32
  }

  function NoNumber(cs: int): nat {
    0
  }

  const RequestFlow := Flow(RequestMark, RequestStart, RequestLen, RequestQuery, NoNumber, RequestLen, Never)

  /** The states in which a target is read. */
  predicate InTarget(cs: int) {
    cs == 3 || 19 <= cs <= 33 || cs == 173 || cs == 174
  }

  lemma MarkFlowOfRequests(cs: int, c: char)
    ensures var e := RequestEdge(cs, c); MarkFlow(RequestMark(cs), e, RequestMark(e.target))
  {
  }

  lemma NameFlowInTarget(cs: int, c: char)
    requires InTarget(cs)
    ensures var e := TargetEdge(cs, c); NameFlow(RequestStart(cs), RequestLen(cs), e, RequestStart(e.target), RequestLen(e.target))
  {
  }

  lemma NameFlowOfRequests(cs: int, c: char)
    ensures var e := RequestEdge(cs, c); NameFlow(RequestStart(cs), RequestLen(cs), e, RequestStart(e.target), RequestLen(e.target))
  {
    hide TargetEdge;
    if InTarget(cs) { NameFlowInTarget(cs, c); }
  }

  lemma QueryFlowInTarget(cs: int, c: char)
    requires InTarget(cs)
    ensures var e := TargetEdge(cs, c); QueryFlow(RequestQuery(cs), e, RequestQuery(e.target))
  {
  }

  lemma QueryFlowOfRequests(cs: int, c: char)
    ensures var e := RequestEdge(cs, c); QueryFlow(RequestQuery(cs), e, RequestQuery(e.target))
  {
    hide TargetEdge;
    if InTarget(cs) { QueryFlowInTarget(cs, c); }
  }

  lemma NumberFlowInTarget(cs: int, c: char)
    requires InTarget(cs)
    ensures var e := TargetEdge(cs, c); NumbersFlow(0, c, e, 0)
  {
  }

  lemma NumberFlowOfRequests(cs: int, c: char)
    ensures var e := RequestEdge(cs, c); NumbersFlow(0, c, e, 0)
  {
    hide TargetEdge;
    if InTarget(cs) { NumberFlowInTarget(cs, c); }
  }

  lemma FieldFlowInTarget(cs: int, c: char)
    requires InTarget(cs)
    ensures var e := TargetEdge(cs, c); FieldsFlow(RequestLen(cs), e, RequestLen(e.target))
  {
  }

  lemma FieldFlowOfRequests(cs: int, c: char)
    ensures var e := RequestEdge(cs, c); FieldsFlow(RequestLen(cs), e, RequestLen(e.target))
  {
    hide TargetEdge;
    if InTarget(cs) { FieldFlowInTarget(cs, c); }
  }

  lemma RequestFlowHolds()
    ensures Describes(RequestFlow, RequestEdge)
  {
    hide RequestEdge, MarkFlow, NameFlow, QueryFlow, NumbersFlow, FieldsFlow, RequestMark, RequestStart, RequestLen, RequestQuery;
    forall cs: int, c: char
      ensures FlowAt(RequestFlow, cs, c, RequestEdge(cs, c))
    {
      MarkFlowOfRequests(cs, c);
      NameFlowOfRequests(cs, c);
      QueryFlowOfRequests(cs, c);
      NumberFlowOfRequests(cs, c);
      FieldFlowOfRequests(cs, c);
    }
  }

  /** No state of the request table is stale. */
  lemma RequestsAreNeverStale()
    ensures NeverStale(RequestFlow)
  {
  }
}
