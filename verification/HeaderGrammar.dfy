/**
 The response table against a simple line grammar: whichever special-name trie a header line
 wanders into, it is read as name, colon, blanks, value and end of line.
 */
module HeaderGrammar {
  import opened HttpText
  import opened ParserTables
  import opened Machine
  import opened Segmentation

  /** `x` stands in the buffer at p. */
  predicate At(buffer: string, p: nat, x: string) {
    p + |x| <= |buffer| && buffer[p..p + |x|] == x
  }

  predicate IsName(s: string) {
    s != "" && forall i :: 0 <= i < |s| ==> IsToken(s[i])
  }

  predicate IsLineChar(c: char) {
    c != CR && c != LF
  }

  predicate IsLineText(s: string) {
    forall i :: 0 <= i < |s| ==> IsLineChar(s[i])
  }

  predicate IsBlanks(s: string) {
    forall i :: 0 <= i < |s| ==> IsBlank(s[i])
  }

  /** A value: not empty, on one line, not starting with a blank. */
  predicate IsValue(s: string) {
    s != "" && IsLineText(s) && !IsBlank(s[0])
  }

  /** `s` is a prefix of the keyword, ignoring case. */
  predicate Matches(s: string, keyword: string) {
    |s| <= |keyword| && forall i :: 0 <= i < |s| ==> Lower(s[i]) == keyword[i]
  }

  predicate Is(s: string, keyword: string) {
    |s| == |keyword| && Matches(s, keyword)
  }

  // ---------------------------------------------------------------- the states of a line

  /** The control state behind a non-empty piece of a name. */
  function NameState(s: string): (cs: int)
    ensures 20 < cs < 120
  {
    if Matches(s, CONNECTION) then 24 + |s|
    else if Matches(s, CONTENT_LENGTH) then 97 + |s|
    else if Matches(s, TRANSFER_ENCODING) then 43 + |s|
    else 21
  }

  /** The control state behind the colon, before a value. */
  function ColonState(name: string): (cs: int)
    ensures 20 < cs < 120
  {
    if Is(name, CONNECTION) then 35
    else if Is(name, CONTENT_LENGTH) then 112
    else if Is(name, TRANSFER_ENCODING) then 61
    else 22
  }

  /** The control state behind a non-empty piece of the value of `name`. */
  function ValueState(name: string, v: string): (cs: int)
    ensures 20 < cs < 120
  {
    if Is(name, CONNECTION) && Matches(v, CLOSE) then 95 + |v|
    else if Is(name, CONTENT_LENGTH) && AllDigits(v, 10) then 119
    else if Is(name, TRANSFER_ENCODING) && Matches(v, CHUNKED) then 80 + |v|
    else 23
  }

  predicate Closes(name: string, v: string) {
    Is(name, CONNECTION) && Is(v, CLOSE)
  }

  predicate Chunks(name: string, v: string) {
    Is(name, TRANSFER_ENCODING) && Is(v, CHUNKED)
  }

  predicate Measures(name: string, v: string) {
    Is(name, CONTENT_LENGTH) && AllDigits(v, 10)
  }

  predicate AtLineStart(cs: int) {
    cs == 20 || cs == 43
  }

  lemma MatchesMore(s: string, c: char, keyword: string)
    ensures Matches(s + [c], keyword) <==> Matches(s, keyword) && |s| < |keyword| && Lower(c) == keyword[|s|]
  {
    var t := s + [c];
    if Matches(t, keyword) {
      assert forall i :: 0 <= i < |s| ==> s[i] == t[i];
      assert Lower(t[|s|]) == keyword[|s|];
    }
  }

  /** The keywords share the prefix "con" and no other. */
  lemma KeywordsApart(s: string)
    requires s != ""
    ensures Matches(s, CONNECTION) && Matches(s, CONTENT_LENGTH) <==> |s| <= 3 && Matches(s, CONNECTION)
    ensures |s| <= 3 ==> (Matches(s, CONNECTION) <==> Matches(s, CONTENT_LENGTH))
    ensures Matches(s, TRANSFER_ENCODING) ==> !Matches(s, CONNECTION) && !Matches(s, CONTENT_LENGTH)
    ensures CONNECTION[0] == 'c' && CONTENT_LENGTH[0] == 'c' && TRANSFER_ENCODING[0] == 't'
  {
    assert CONNECTION[..3] == CONTENT_LENGTH[..3] == "con";
    assert forall i :: 0 <= i < 3 ==> CONNECTION[i] == CONNECTION[..3][i] && CONTENT_LENGTH[i] == CONTENT_LENGTH[..3][i];
    assert CONNECTION[3] == 'n' && CONTENT_LENGTH[3] == 't';
  }

  lemma FirstStep(cs: int, c: char)
    requires AtLineStart(cs) && IsToken(c)
    ensures ResponseEdge(cs, c) ==
            if cs == 20 then Go(NameState([c]), StartField) else Go(NameState([c]), SetClose, StartField)
  {
    KeywordsApart([c]);
    assert [c][0] == c;
  }

  /** One step along a keyword, from the state that its matched prefix has. */
  lemma TrieStep(keyword: string, offset: int, s: string, c: char)
    requires s != "" && Matches(s, keyword) && IsToken(c)
    requires (keyword == CONNECTION && offset == 24)
             || (keyword == CONTENT_LENGTH && offset == 97 && |s| > 3)
             || (keyword == TRANSFER_ENCODING && offset == 43)
    ensures var e := ResponseEdge(offset + |s|, c);
            if |s| < |keyword| && Lower(c) == keyword[|s|] then e == Go(offset + |s| + 1)
            else if keyword == CONNECTION && |s| == 3 && Lower(c) == 't' then e == Go(101)
            else e == Go(21)
  {
    hide ChunkLine, StatusLine, LineStart, BeforeValue, ValueEdge;
  }

  lemma NameStep(s: string, c: char)
    requires s != "" && IsToken(c)
    ensures ResponseEdge(NameState(s), c) == Go(NameState(s + [c]))
  {
    hide Run, ResponseEdge, Matches;
    KeywordsApart(s);
    KeywordsApart(s + [c]);
    assert CONNECTION[3] == 'n' && CONTENT_LENGTH[3] == 't';
    MatchesMore(s, c, CONNECTION);
    MatchesMore(s, c, CONTENT_LENGTH);
    MatchesMore(s, c, TRANSFER_ENCODING);
    if Matches(s, CONNECTION) { TrieStep(CONNECTION, 24, s, c); }
    else if Matches(s, CONTENT_LENGTH) { TrieStep(CONTENT_LENGTH, 97, s, c); }
    else if Matches(s, TRANSFER_ENCODING) { TrieStep(TRANSFER_ENCODING, 43, s, c); }
    else { OtherNameStep(c); }
  }

  lemma OtherNameStep(c: char)
    requires IsToken(c)
    ensures ResponseEdge(21, c) == Go(21)
  {
  }

  lemma ColonStep(name: string)
    requires name != ""
    ensures ResponseEdge(NameState(name), ':') == Go(ColonState(name), EndField)
  {
    hide ResponseEdge;
    ColonEdge(NameState(name));
    KeywordsApart(name);
  }

  /** The colon behind a name: only a keyword that is spelled out leads to a state of its own. */
  lemma ColonEdge(cs: int)
    requires cs == 21 || 25 <= cs <= 34 || 44 <= cs <= 60 || 101 <= cs <= 111
    ensures ResponseEdge(cs, ':') == Go(if cs == 34 then 35 else if cs == 111 then 112 else if cs == 60 then 61 else 22, EndField)
  {
    hide ChunkLine, StatusLine;
  }

  lemma BlankStep(name: string, c: char)
    requires IsBlank(c)
    ensures ResponseEdge(ColonState(name), c) == Go(ColonState(name), Mark)
  {
  }

  lemma FirstValueStep(name: string, c: char)
    requires IsLineChar(c) && !IsBlank(c)
    ensures ResponseEdge(ColonState(name), c) == Go(ValueState(name, [c]), Mark)
  {
    hide ResponseEdge;
    ValueStarts(c);
    SpecialNamesApart(name);
    assert [c][0] == c && CLOSE[0] == 'c' && CHUNKED[0] == 'c';
  }

  /** The first byte of a value. */
  lemma ValueStarts(c: char)
    requires IsLineChar(c) && !IsBlank(c)
    ensures ResponseEdge(22, c) == Go(23, Mark) && ResponseEdge(35, c) == Go(if Lower(c) == 'c' then 96 else 23, Mark)
    ensures ResponseEdge(112, c) == Go(if IsDigit(c) then 119 else 23, Mark)
    ensures ResponseEdge(61, c) == Go(if Lower(c) == 'c' then 81 else 23, Mark)
  {
    hide ChunkLine, StatusLine, LineStart;
  }

  /** A further byte, along a word that means something or not. */
  lemma ValueGoesOn(c: char, k: nat)
    requires IsLineChar(c)
    ensures ResponseEdge(23, c) == Go(23) && ResponseEdge(119, c) == Go(if IsDigit(c) then 119 else 23)
    ensures 0 < k <= 5 ==> ResponseEdge(95 + k, c) == Go(if k < 5 && Lower(c) == CLOSE[k] then 96 + k else 23)
    ensures 0 < k <= 7 ==> ResponseEdge(80 + k, c) == Go(if k < 7 && Lower(c) == CHUNKED[k] then 81 + k else 23)
  {
    hide ChunkLine, StatusLine, LineStart, BeforeValue;
  }

  lemma ValueStep(name: string, v: string, c: char)
    requires v != "" && IsLineChar(c)
    ensures ResponseEdge(ValueState(name, v), c) == Go(ValueState(name, v + [c]))
  {
    hide ResponseEdge, Matches;
    ValueGoesOn(c, |v|);
    SpecialNamesApart(name);
    MatchesMore(v, c, CLOSE);
    MatchesMore(v, c, CHUNKED);
    KeywordFits(v);
    assert AllDigits(v + [c], 10) <==> AllDigits(v, 10) && IsDigit(c) by {
      assert (v + [c])[|v|] == c;
      assert forall i :: 0 <= i < |v| ==> (v + [c])[i] == v[i];
    }
  }

  lemma KeywordFits(v: string)
    ensures (Matches(v, CLOSE) ==> |v| <= 5) && (Matches(v, CHUNKED) ==> |v| <= 7)
  {
  }

  lemma SpecialNamesApart(name: string)
    ensures Is(name, CONNECTION) ==> !Is(name, CONTENT_LENGTH) && !Is(name, TRANSFER_ENCODING)
    ensures Is(name, CONTENT_LENGTH) ==> !Is(name, TRANSFER_ENCODING)
  {
  }

  lemma MeaningsApart(name: string, v: string)
    ensures Measures(name, v) ==> !Closes(name, v) && !Chunks(name, v)
    ensures Closes(name, v) ==> !Chunks(name, v)
  {
    hide AllDigits, Matches;
    SpecialNamesApart(name);
  }

  lemma ReturnStep(name: string, v: string)
    requires v != ""
    ensures ResponseEdge(ValueState(name, v), CR) ==
            if Measures(name, v) then Go(24, SetLength, EmitField)
            else if Closes(name, v) then Go(88, EmitField)
            else if Chunks(name, v) then Go(71, EmitField)
            else Go(24, EmitField)
  {
    hide AllDigits;
    SpecialNamesApart(name);
  }

  lemma FeedStep(name: string, v: string)
    requires v != ""
    ensures ResponseEdge(ValueState(name, v), LF) ==
            if Measures(name, v) then Go(20, SetLength, EmitField)
            else if Closes(name, v) then Go(43, EmitField)
            else if Chunks(name, v) then Go(20, EmitField, SetChunked)
            else Go(20, EmitField)
  {
    hide AllDigits;
    SpecialNamesApart(name);
  }

  lemma LineFeedStep()
    ensures ResponseEdge(24, LF) == Go(20) && ResponseEdge(88, LF) == Go(43) && ResponseEdge(71, LF) == Go(20, SetChunked)
  {
  }

  // ---------------------------------------------------------------- running over a line

  lemma AtSplit(buffer: string, p: nat, x: string, y: string)
    requires At(buffer, p, x + y)
    ensures At(buffer, p, x) && At(buffer, p + |x|, y)
  {
    var z := x + y;
    assert buffer[p..p + |x|] == buffer[p..p + |z|][..|x|] == x;
    assert buffer[p + |x|..p + |z|] == buffer[p..p + |z|][|x|..] == y;
  }

  lemma AtChar(buffer: string, p: nat, x: string, k: nat)
    requires At(buffer, p, x) && k < |x|
    ensures p + k < |buffer| && buffer[p + k] == x[k]
  {
    assert buffer[p..p + |x|][k] == x[k];
  }

  /** One step of a run along a known edge. */
  lemma Step(t: Table, m: Parser, buffer: string, p: nat, e: Edge)
    requires p < |buffer| && t(m.cs, buffer[p]) == e && e.target != 0 && !e.Halts()
    ensures Run(t, m, buffer, p) == Run(t, Fire(e, m, buffer, p), buffer, p + 1)
  {
  }

  /** One step along a known edge that does one thing. */
  lemma StepOne(t: Table, m: Parser, buffer: string, p: nat, target: int, x: Action)
    requires p < |buffer| && t(m.cs, buffer[p]) == Go(target, x) && target != 0 && !x.Done?
    ensures Run(t, m, buffer, p) == Run(t, Act(x, m, buffer, p).(cs := target), buffer, p + 1)
  {
    hide Run;
    Step(t, m, buffer, p, Go(target, x));
    FireOne(target, x, m, buffer, p);
  }

  lemma FireOne(target: int, x: Action, m: Parser, buffer: string, p: nat)
    ensures Fire(Go(target, x), m, buffer, p) == Act(x, m, buffer, p).(cs := target)
  {
    hide NumberAt, Slice;
  }

  lemma {:induction false} NameRun(m: Parser, buffer: string, p: nat, name: string, k: nat)
    requires 0 < k <= |name| && IsName(name) && At(buffer, p, name) && m.cs == NameState(name[..k])
    ensures Run(ResponseEdge, m, buffer, p + k) == Run(ResponseEdge, m.(cs := NameState(name)), buffer, p + |name|)
    decreases |name| - k
  {
    hide Run, ResponseEdge, NameState;
    if k == |name| {
      assert name[..k] == name;
    } else {
      NameStep(name[..k], name[k]);
      assert name[..k] + [name[k]] == name[..k + 1];
      AtChar(buffer, p, name, k);
      Step(ResponseEdge, m, buffer, p + k, Go(NameState(name[..k + 1])));
      NameRun(m.(cs := NameState(name[..k + 1])), buffer, p, name, k + 1);
    }
  }

  lemma {:induction false} BlankRun(m: Parser, buffer: string, p: nat, name: string, blanks: string) returns (mark: nat)
    requires IsBlanks(blanks) && At(buffer, p, blanks) && m.cs == ColonState(name)
    ensures Run(ResponseEdge, m, buffer, p) == Run(ResponseEdge, m.(mark := mark), buffer, p + |blanks|)
    decreases |blanks|
  {
    hide Run, ResponseEdge, ColonState;
    mark := m.mark;
    if blanks != "" {
      AtChar(buffer, p, blanks, 0);
      BlankStep(name, blanks[0]);
      Step(ResponseEdge, m, buffer, p, Go(ColonState(name), Mark));
      assert blanks == blanks[..1] + blanks[1..];
      AtSplit(buffer, p, blanks[..1], blanks[1..]);
      mark := BlankRun(m.(mark := p), buffer, p + 1, name, blanks[1..]);
    }
  }

  lemma {:induction false} ValueRun(m: Parser, buffer: string, p: nat, name: string, v: string, k: nat)
    requires 0 < k <= |v| && IsLineText(v) && At(buffer, p, v) && m.cs == ValueState(name, v[..k])
    ensures Run(ResponseEdge, m, buffer, p + k) == Run(ResponseEdge, m.(cs := ValueState(name, v)), buffer, p + |v|)
    decreases |v| - k
  {
    hide Run, ResponseEdge, ValueState;
    if k == |v| {
      assert v[..k] == v;
    } else {
      ValueStep(name, v[..k], v[k]);
      assert v[..k] + [v[k]] == v[..k + 1];
      AtChar(buffer, p, v, k);
      Step(ResponseEdge, m, buffer, p + k, Go(ValueState(name, v[..k + 1])));
      ValueRun(m.(cs := ValueState(name, v[..k + 1])), buffer, p, name, v, k + 1);
    }
  }

  predicate IsEol(eol: string) {
    eol == CRLF || eol == "\n"
  }

  /** A header line as it stands in the input. */
  function HeaderText(name: string, blanks: string, v: string, eol: string): string {
    name + (":" + (blanks + (v + eol)))
  }

  /** The content length as SetLength stores it. */
  function LengthAfter(m: Parser, name: string, v: string): int {
    if Measures(name, v) then ToInt32(Clamp64(Value(v, 10))) else m.contentLen
  }

  /** What a header line means to the parser. */
  function AfterHeader(m: Parser, name: string, v: string): Parser {
    m.(cs := if Closes(name, v) then 43 else 20,
       close := m.close || m.cs == 43,
       chunked := m.chunked || Chunks(name, v),
       contentLen := LengthAfter(m, name, v),
       events := m.events + [Field(name, v)])
  }

  /** From the start of a line over the name and the colon. */
  lemma NameAndColon(m: Parser, buffer: string, p: nat, name: string) returns (m': Parser)
    requires AtLineStart(m.cs) && IsName(name) && At(buffer, p, name) && At(buffer, p + |name|, ":")
    ensures m' == m.(cs := ColonState(name), fieldStart := p, fieldLen := |name|, close := m.close || m.cs == 43)
    ensures Run(ResponseEdge, m, buffer, p) == Run(ResponseEdge, m', buffer, p + |name| + 1)
  {
    hide Run, ResponseEdge, NameState, ColonState, Fire;
    AtChar(buffer, p, name, 0);
    assert name[..1] == [name[0]];
    FirstOfName(m, buffer, p, name[0]);
    var m1 := m.(cs := NameState([name[0]]), fieldStart := p, close := m.close || m.cs == 43);
    NameRun(m1, buffer, p, name, 1);
    ColonStep(name);
    AtChar(buffer, p + |name|, ":", 0);
    StepOne(ResponseEdge, m1.(cs := NameState(name)), buffer, p + |name|, ColonState(name), EndField);
    m' := m1.(cs := ColonState(name), fieldLen := |name|);
  }

  lemma FirstOfName(m: Parser, buffer: string, p: nat, c: char)
    requires AtLineStart(m.cs) && IsToken(c) && p < |buffer| && buffer[p] == c
    ensures Run(ResponseEdge, m, buffer, p)
            == Run(ResponseEdge, m.(cs := NameState([c]), fieldStart := p, close := m.close || m.cs == 43), buffer, p + 1)
  {
    hide Run, ResponseEdge, NameState, NumberAt, Slice;
    FirstStep(m.cs, c);
    Step(ResponseEdge, m, buffer, p, ResponseEdge(m.cs, c));
  }

  /** From the colon over blanks and value. */
  lemma BlanksAndValue(m: Parser, buffer: string, p: nat, name: string, blanks: string, v: string) returns (m': Parser)
    requires m.cs == ColonState(name) && IsBlanks(blanks) && IsValue(v)
    requires At(buffer, p, blanks) && At(buffer, p + |blanks|, v)
    ensures m' == m.(cs := ValueState(name, v), mark := p + |blanks|)
    ensures Run(ResponseEdge, m, buffer, p) == Run(ResponseEdge, m', buffer, p + |blanks| + |v|)
  {
    hide Run, ResponseEdge, ColonState, ValueState;
    var mark := BlankRun(m, buffer, p, name, blanks);
    var q := p + |blanks|;
    AtChar(buffer, q, v, 0);
    FirstValueStep(name, v[0]);
    assert v[..1] == [v[0]];
    Step(ResponseEdge, m.(mark := mark), buffer, q, Go(ValueState(name, [v[0]]), Mark));
    ValueRun(m.(cs := ValueState(name, [v[0]]), mark := q), buffer, q, name, v, 1);
    m' := m.(cs := ValueState(name, v), mark := q);
  }

  /** The byte behind the value, LF or CR, delivers the header. */
  lemma Deliver(m: Parser, buffer: string, p: nat, name: string, v: string) returns (m': Parser)
    requires m.cs == ValueState(name, v) && v != "" && p < |buffer| && !IsLineChar(buffer[p])
    requires m.mark + |v| == p && At(buffer, m.mark, v) && At(buffer, m.fieldStart, name) && m.fieldLen == |name|
    ensures var cr := buffer[p] == CR;
            m' == m.(cs := if Closes(name, v) then if cr then 88 else 43
                           else if Chunks(name, v) && cr then 71
                           else if cr then 24 else 20,
                     chunked := m.chunked || (Chunks(name, v) && !cr),
                     contentLen := LengthAfter(m, name, v),
                     events := m.events + [Field(name, v)])
    ensures Run(ResponseEdge, m, buffer, p) == Run(ResponseEdge, m', buffer, p + 1)
  {
    hide Run, ResponseEdge, ValueState, NumberAt, ToInt32, Clamp64, Value, Matches, AllDigits, Fire;
    ReturnStep(name, v);
    FeedStep(name, v);
    MeaningsApart(name, v);
    hide Closes, Chunks;
    assert buffer[m.mark..p] == v && buffer[m.fieldStart..m.fieldStart + m.fieldLen] == name;
    if Measures(name, v) {
      NumberBlind(buffer, "", m.mark, p, 10);
    }
    var e := ResponseEdge(m.cs, buffer[p]);
    Step(ResponseEdge, m, buffer, p, e);
    FireDelivers(e, m, buffer, p);
    m' := Fire(e, m, buffer, p);
  }

  /** The edges that deliver a header with no value. */
  lemma FireEmpty(target: int, m: Parser, buffer: string, p: nat)
    requires p <= |buffer|
    ensures Fire(Go(target, Mark, EmitField), m, buffer, p) ==
            m.(cs := target, mark := p,
               events := m.events + [Field(Slice(buffer, m.fieldStart, m.fieldStart + m.fieldLen), "")])
  {
    assert Slice(buffer, p, p) == "";
    hide NumberAt, Slice;
  }

  /** The edges that deliver a header. */
  lemma FireDelivers(e: Edge, m: Parser, buffer: string, p: nat)
    requires || e == Go(e.target, EmitField) || e == Go(e.target, SetLength, EmitField) || e == Go(e.target, EmitField, SetChunked)
    ensures Fire(e, m, buffer, p) ==
            m.(cs := e.target, chunked := m.chunked || e.a2.SetChunked?,
               contentLen := if e.a1.SetLength? then NumberAt(buffer, m.mark, 10) else m.contentLen,
               events := m.events + [Field(Slice(buffer, m.fieldStart, m.fieldStart + m.fieldLen), Slice(buffer, m.mark, p))])
  {
    hide NumberAt, Slice;
  }

  /** The line end, LF or CR LF. */
  lemma EndOfLine(m: Parser, buffer: string, p: nat, name: string, v: string, eol: string) returns (m': Parser)
    requires m.cs == ValueState(name, v) && v != "" && IsEol(eol) && At(buffer, p, eol)
    requires m.mark + |v| == p && At(buffer, m.mark, v) && At(buffer, m.fieldStart, name) && m.fieldLen == |name|
    ensures m' == m.(cs := if Closes(name, v) then 43 else 20,
                     chunked := m.chunked || Chunks(name, v),
                     contentLen := LengthAfter(m, name, v),
                     events := m.events + [Field(name, v)])
    ensures Run(ResponseEdge, m, buffer, p) == Run(ResponseEdge, m', buffer, p + |eol|)
  {
    hide Run, ResponseEdge, ValueState, Measures, LengthAfter, Matches;
    SpecialNamesApart(name);
    AtChar(buffer, p, eol, 0);
    m' := Deliver(m, buffer, p, name, v);
    if eol == CRLF {
      AtChar(buffer, p, eol, 1);
      LineFeedStep();
      var e := ResponseEdge(m'.cs, LF);
      Step(ResponseEdge, m', buffer, p + 1, e);
      m' := Fire(e, m', buffer, p + 1);
    }
  }

  /**
   The line grammar.  At the start of a line, a token name, a colon, blanks, a value and a line end
   deliver exactly that name and that value, once, and leave the parser at the start of a line, with
   the meaning of the special headers recorded.
   */
  lemma HeaderLine(m: Parser, buffer: string, p: nat, name: string, blanks: string, v: string, eol: string)
    returns (m': Parser)
    requires AtLineStart(m.cs) && IsName(name) && IsBlanks(blanks) && IsValue(v) && IsEol(eol)
    requires At(buffer, p, HeaderText(name, blanks, v, eol))
    ensures Same(m', AfterHeader(m, name, v))
    ensures Run(ResponseEdge, m, buffer, p) == Run(ResponseEdge, m', buffer, p + |HeaderText(name, blanks, v, eol)|)
  {
    hide Run, ResponseEdge, ColonState, ValueState, At, Measures, Closes, Chunks;
    AtSplit(buffer, p, name, ":" + (blanks + (v + eol)));
    var q := p + |name|;
    AtSplit(buffer, q, ":", blanks + (v + eol));
    AtSplit(buffer, q + 1, blanks, v + eol);
    AtSplit(buffer, q + 1 + |blanks|, v, eol);
    var m1 := NameAndColon(m, buffer, p, name);
    var m2 := BlanksAndValue(m1, buffer, q + 1, name, blanks, v);
    m' := EndOfLine(m2, buffer, q + 1 + |blanks| + |v|, name, v, eol);
  }

  /** A name with nothing behind its colon, at a line end that leads to `next`. */
  lemma EmptyValueRun(m: Parser, buffer: string, p: nat, name: string, next: int) returns (m': Parser)
    requires m.cs == 20 && IsName(name) && At(buffer, p, name + ":\n")
    requires ResponseEdge(ColonState(name), LF) == Go(next, Mark, EmitField) && next != 0
    ensures m' == m.(cs := next, mark := p + |name| + 1, fieldStart := p, fieldLen := |name|, events := m.events + [Field(name, "")])
    ensures Run(ResponseEdge, m, buffer, p) == Run(ResponseEdge, m', buffer, p + |name| + 2)
  {
    hide Run, ResponseEdge, ColonState, Fire;
    var q := p + |name| + 1;
    assert name + ":\n" == name + (":" + "\n");
    AtSplit(buffer, p, name, ":" + "\n");
    AtSplit(buffer, q - 1, ":", "\n");
    AtChar(buffer, q, "\n", 0);
    var m1 := NameAndColon(m, buffer, p, name);
    Step(ResponseEdge, m1, buffer, q, Go(next, Mark, EmitField));
    FireEmpty(next, m1, buffer, q);
    m' := m1.(cs := next, mark := q, events := m.events + [Field(name, "")]);
  }
}
