/** Whole request heads on the request table: request line, header lines, blank line. */
module RequestHead {
  import opened HttpText
  import opened ParserTables
  import opened Machine
  import opened Segmentation
  import opened HeaderGrammar
  import opened MessageHead
  import opened RequestGrammar

  // ---------------------------------------------------------------- the request line

  /** A method the table accepts: one to twenty capital letters or digits. */
  predicate IsMethod(s: string) {
    0 < |s| <= 20 && forall i :: 0 <= i < |s| ==> IsUpperOrDigit(s[i])
  }

  /** The control state behind k characters of a method. */
  function MethodState(k: nat): int
    requires 0 < k <= 20
  {
    if k == 1 then 2 else 173 + k
  }

  lemma MethodStep(k: nat, c: char)
    requires 0 < k < 20 && IsUpperOrDigit(c)
    ensures RequestEdge(MethodState(k), c) == Go(MethodState(k + 1))
  {
  }

  lemma MethodEnds(k: nat)
    requires 0 < k <= 20
    ensures RequestEdge(MethodState(k), ' ') == Go(3, EmitMethod)
  {
  }

  lemma MethodStarts(c: char)
    requires IsUpperOrDigit(c)
    ensures RequestEdge(1, c) == Go(2, Mark)
  {
  }

  lemma {:induction false} MethodRest(m: Parser, buffer: string, p: nat, s: string, k: nat)
    requires 0 < k <= |s| && IsMethod(s) && At(buffer, p, s) && m.cs == MethodState(k)
    ensures Run(RequestEdge, m, buffer, p + k) == Run(RequestEdge, m.(cs := MethodState(|s|)), buffer, p + |s|)
    decreases |s| - k
  {
    hide Run, RequestEdge;
    if k < |s| {
      MethodStep(k, s[k]);
      AtChar(buffer, p, s, k);
      Step(RequestEdge, m, buffer, p + k, Go(MethodState(k + 1)));
      MethodRest(m.(cs := MethodState(k + 1)), buffer, p, s, k + 1);
    }
  }

  /** The method and the space behind it. */
  lemma MethodRun(m: Parser, buffer: string, p: nat, s: string) returns (m': Parser)
    requires m.cs == 1 && IsMethod(s) && At(buffer, p, s + " ")
    ensures m' == m.(cs := 3, mark := p, events := m.events + [Method(s)])
    ensures Run(RequestEdge, m, buffer, p) == Run(RequestEdge, m', buffer, p + |s| + 1)
  {
    hide Run, RequestEdge, MethodState;
    AtSplit(buffer, p, s, " ");
    AtChar(buffer, p, s, 0);
    AtChar(buffer, p + |s|, " ", 0);
    MethodStarts(s[0]);
    Step(RequestEdge, m, buffer, p, Go(2, Mark));
    assert MethodState(1) == 2 by { FirstMethodState(); }
    MethodRest(m.(cs := 2, mark := p), buffer, p, s, 1);
    var m1 := m.(cs := MethodState(|s|), mark := p);
    MethodEnds(|s|);
    AtText(buffer, p, s);
    Step(RequestEdge, m1, buffer, p + |s|, Go(3, EmitMethod));
    m' := Fire(Go(3, EmitMethod), m1, buffer, p + |s|);
  }

  lemma FirstMethodState()
    ensures MethodState(1) == 2
  {
  }

  function RequestVersionText(minor: char): string {
    "HTTP/1." + [minor]
  }

  lemma VersionEdges()
    ensures RequestEdge(4, 'H') == Go(5, Mark) && RequestEdge(5, 'T') == Go(6) && RequestEdge(6, 'T') == Go(7)
    ensures RequestEdge(7, 'P') == Go(8) && RequestEdge(8, '/') == Go(9) && RequestEdge(9, '1') == Go(10)
    ensures RequestEdge(10, '.') == Go(11) && RequestEdge(11, '0') == RequestEdge(11, '1') == Go(12)
    ensures RequestEdge(12, LF) == Go(13, EmitVersion) && RequestEdge(12, CR) == Go(17, EmitVersion)
    ensures RequestEdge(17, LF) == Go(13)
  {
  }

  lemma ProtocolSteps(m: Parser, buffer: string, p: nat, minor: char)
    requires m.cs == 4 && (minor == '0' || minor == '1') && At(buffer, p, RequestVersionText(minor))
    ensures Run(RequestEdge, m, buffer, p) == Run(RequestEdge, m.(cs := 12, mark := p), buffer, p + 8)
  {
    hide Run, RequestEdge;
    VersionEdges();
    var v := RequestVersionText(minor);
    AtChar(buffer, p, v, 0);
    Step(RequestEdge, m, buffer, p, Go(5, Mark));
    var rest := "TTP/1." + [minor];
    assert v == "H" + rest;
    AtSplit(buffer, p, "H", rest);
    assert forall i :: 0 <= i < |rest| ==> RequestEdge(5 + i, rest[i]) == Go(6 + i);
    Spell(RequestEdge, m.(cs := 5, mark := p), buffer, p + 1, rest);
  }

  /** The version and the end of the request line. */
  lemma RequestVersionRun(m: Parser, buffer: string, p: nat, minor: char, eol: string) returns (m': Parser)
    requires m.cs == 4 && (minor == '0' || minor == '1') && IsEol(eol) && At(buffer, p, RequestVersionText(minor) + eol)
    ensures m' == m.(cs := 13, mark := p, events := m.events + [Version(RequestVersionText(minor))])
    ensures Run(RequestEdge, m, buffer, p) == Run(RequestEdge, m', buffer, p + 8 + |eol|)
  {
    hide Run, RequestEdge;
    var v := RequestVersionText(minor);
    AtSplit(buffer, p, v, eol);
    ProtocolSteps(m, buffer, p, minor);
    var n := m.(cs := 12, mark := p);
    VersionEdges();
    AtText(buffer, p, v);
    AtChar(buffer, p + 8, eol, 0);
    var e := if eol == CRLF then Go(17, EmitVersion) else Go(13, EmitVersion);
    Step(RequestEdge, n, buffer, p + 8, e);
    m' := Fire(e, n, buffer, p + 8);
    if eol == CRLF {
      AtChar(buffer, p + 8, eol, 1);
      Step(RequestEdge, m', buffer, p + 9, Go(13));
      m' := m'.(cs := 13);
    }
  }

  datatype Opening = Opening(verb: string, target: string, minor: char)
  {
    predicate Valid() {
      IsMethod(verb) && IsOrigin(target) && SplitTarget(target).Valid() && (minor == '0' || minor == '1')
    }

    function Text(): string {
      verb + (" " + (target + (" " + (RequestVersionText(minor) + CRLF))))
    }

    function Events(): seq<Event> {
      [Method(verb)] + TargetEvents(target) + [Version(RequestVersionText(minor))]
    }
  }

  /** A request line delivers its method, the parts of its target and its version. */
  lemma OpeningRun(m: Parser, buffer: string, p: nat, o: Opening) returns (m': Parser)
    requires m.cs == 1 && o.Valid() && At(buffer, p, o.Text())
    ensures m'.cs == 13 && Same(m', m.(cs := 13, events := m.events + o.Events()))
    ensures Run(RequestEdge, m, buffer, p) == Run(RequestEdge, m', buffer, p + |o.Text()|)
  {
    hide Run, RequestEdge, IsMethod, IsOrigin, SplitTarget, TargetEvents, At, Target.Valid;
    var (a, b, c) := (o.verb, o.target, RequestVersionText(o.minor) + CRLF);
    assert o.Text() == (a + " ") + ((b + " ") + c);
    AtSplit(buffer, p, a + " ", (b + " ") + c);
    AtSplit(buffer, p + |a| + 1, b + " ", c);
    var m1 := MethodRun(m, buffer, p, a);
    var m2 := TargetRun(m1, buffer, p + |a| + 1, b);
    m' := RequestVersionRun(m2, buffer, p + |a| + 1 + |b| + 1, o.minor, CRLF);
    assert m.events + [Method(a)] + TargetEvents(b) + [Version(RequestVersionText(o.minor))] == m.events + o.Events();
  }

  // ---------------------------------------------------------------- header lines

  predicate IsRequestBlank(c: char) {
    c == ' ' || c == '\t'
  }

  /** A byte inside a value. */
  predicate IsRequestValueChar(c: char) {
    c != CR && c != LF && c as int != 0 && c as int != 127
  }

  /** A value, possibly empty, that does not begin with a blank. */
  predicate IsRequestValue(s: string) {
    (forall i :: 0 <= i < |s| ==> IsRequestValueChar(s[i])) && (s != "" ==> !IsRequestBlank(s[0]))
  }

  /** A header line of a request, as printed: one blank, CR LF. */
  datatype Entry = Entry(name: string, value: string)
  {
    predicate Valid() {
      IsName(name) && IsRequestValue(value)
    }

    function Text(): string {
      name + (": " + (value + CRLF))
    }
  }

  lemma RequestNameEdges(c: char)
    requires IsToken(c)
    ensures RequestEdge(13, c) == Go(14, StartField) && RequestEdge(14, c) == Go(14)
  {
  }

  lemma RequestValueEdges(c: char)
    requires IsRequestValueChar(c)
    ensures RequestEdge(16, c) == Go(16)
    ensures !IsRequestBlank(c) ==> RequestEdge(15, c) == Go(16, Mark)
  {
  }

  lemma RequestLineEdges()
    ensures RequestEdge(14, ':') == Go(15, EndField) && RequestEdge(15, ' ') == Go(15, Mark)
    ensures RequestEdge(15, CR) == Go(17, Mark, EmitField) && RequestEdge(16, CR) == Go(17, EmitField)
    ensures RequestEdge(17, LF) == Go(13) && RequestEdge(13, CR) == Go(18, StartField)
    ensures RequestEdge(18, LF) == Go(348, Done)
  {
  }

  /** The name, the colon and the blank. */
  lemma EntryName(m: Parser, buffer: string, p: nat, name: string)
    requires m.cs == 13 && IsName(name) && At(buffer, p, name) && At(buffer, p + |name|, ": ")
    ensures var q := p + |name| + 2;
            Run(RequestEdge, m, buffer, p)
            == Run(RequestEdge, m.(cs := 15, fieldStart := p, fieldLen := |name|, mark := q - 1), buffer, q)
  {
    hide Run, RequestEdge, At, Fire;
    var q := p + |name|;
    RequestLineEdges();
    AtChar(buffer, p, name, 0);
    RequestNameEdges(name[0]);
    StepOne(RequestEdge, m, buffer, p, 14, StartField);
    var m1 := m.(cs := 14, fieldStart := p);
    assert name == name[..1] + name[1..];
    AtSplit(buffer, p, name[..1], name[1..]);
    forall i | 0 <= i < |name[1..]|
      ensures RequestEdge(14, name[1..][i]) == Go(14)
    {
      assert IsToken(name[i + 1]);
      RequestNameEdges(name[1..][i]);
    }
    Loop(RequestEdge, m1, buffer, p + 1, name[1..]);
    AtChar(buffer, q, ": ", 0);
    AtChar(buffer, q, ": ", 1);
    StepOne(RequestEdge, m1, buffer, q, 15, EndField);
    var m2 := m1.(cs := 15, fieldLen := |name|);
    StepOne(RequestEdge, m2, buffer, q + 1, 15, Mark);
  }

  /** The value and the CR behind it deliver the header. */
  lemma EntryValue(m: Parser, buffer: string, p: nat, name: string, value: string) returns (m': Parser)
    requires m.cs == 15 && m.fieldLen == |name| && At(buffer, m.fieldStart, name)
    requires IsRequestValue(value) && At(buffer, p, value) && At(buffer, p + |value|, CRLF)
    ensures m' == m.(cs := 17, mark := p, events := m.events + [Field(name, value)])
    ensures Run(RequestEdge, m, buffer, p) == Run(RequestEdge, m', buffer, p + |value| + 1)
  {
    hide Run, RequestEdge, At;
    var q := p + |value|;
    RequestLineEdges();
    AtChar(buffer, q, CRLF, 0);
    AtText(buffer, p, value);
    AtText(buffer, m.fieldStart, name);
    if value == "" {
      Step(RequestEdge, m, buffer, p, Go(17, Mark, EmitField));
      m' := Fire(Go(17, Mark, EmitField), m, buffer, p);
    } else {
      var m1 := m.(cs := 16, mark := p);
      ValueBytes(m, buffer, p, value);
      Step(RequestEdge, m1, buffer, q, Go(17, EmitField));
      m' := Fire(Go(17, EmitField), m1, buffer, q);
    }
  }

  lemma ValueBytes(m: Parser, buffer: string, p: nat, value: string)
    requires m.cs == 15 && IsRequestValue(value) && value != "" && At(buffer, p, value)
    ensures Run(RequestEdge, m, buffer, p) == Run(RequestEdge, m.(cs := 16, mark := p), buffer, p + |value|)
  {
    hide Run, RequestEdge, At;
    AtChar(buffer, p, value, 0);
    RequestValueEdges(value[0]);
    Step(RequestEdge, m, buffer, p, Go(16, Mark));
    assert value == value[..1] + value[1..];
    AtSplit(buffer, p, value[..1], value[1..]);
    forall i | 0 <= i < |value[1..]|
      ensures RequestEdge(16, value[1..][i]) == Go(16)
    {
      assert IsRequestValueChar(value[i + 1]);
      RequestValueEdges(value[1..][i]);
    }
    Loop(RequestEdge, m.(cs := 16, mark := p), buffer, p + 1, value[1..]);
  }

  /** A header line delivers exactly its name and its value, once. */
  lemma EntryRun(m: Parser, buffer: string, p: nat, h: Entry) returns (m': Parser)
    requires m.cs == 13 && h.Valid() && At(buffer, p, h.Text())
    ensures m'.cs == 13 && Same(m', m.(events := m.events + [Field(h.name, h.value)]))
    ensures Run(RequestEdge, m, buffer, p) == Run(RequestEdge, m', buffer, p + |h.Text()|)
  {
    hide Run, RequestEdge, IsName, IsRequestValue, At;
    AtSplit(buffer, p, h.name, ": " + (h.value + CRLF));
    var q := p + |h.name|;
    AtSplit(buffer, q, ": ", h.value + CRLF);
    AtSplit(buffer, q + 2, h.value, CRLF);
    EntryName(m, buffer, p, h.name);
    var m1 := m.(cs := 15, fieldStart := p, fieldLen := |h.name|, mark := q + 1);
    m' := EntryValue(m1, buffer, q + 2, h.name, h.value);
    var r := q + 2 + |h.value|;
    AtChar(buffer, r, CRLF, 1);
    RequestLineEdges();
    Step(RequestEdge, m', buffer, r + 1, Go(13));
    m' := m'.(cs := 13);
  }

  function EntryText(entries: seq<Entry>): string {
    if entries == [] then "" else entries[0].Text() + EntryText(entries[1..])
  }

  function EntryEvents(entries: seq<Entry>): seq<Event> {
    if entries == [] then [] else [Field(entries[0].name, entries[0].value)] + EntryEvents(entries[1..])
  }

  predicate AllEntries(entries: seq<Entry>) {
    forall i :: 0 <= i < |entries| ==> entries[i].Valid()
  }

  lemma {:induction false} EntriesRun(m: Parser, buffer: string, p: nat, entries: seq<Entry>) returns (m': Parser)
    requires m.cs == 13 && AllEntries(entries) && At(buffer, p, EntryText(entries))
    ensures m'.cs == 13 && Same(m', m.(events := m.events + EntryEvents(entries)))
    ensures Run(RequestEdge, m, buffer, p) == Run(RequestEdge, m', buffer, p + |EntryText(entries)|)
    decreases |entries|
  {
    hide Run, RequestEdge, Entry.Valid, At;
    if entries == [] {
      m' := m;
      assert m.events + [] == m.events;
    } else {
      var h := entries[0];
      hide Entry.Text;
      AtSplit(buffer, p, h.Text(), EntryText(entries[1..]));
      var m1 := EntryRun(m, buffer, p, h);
      m' := EntriesRun(m1, buffer, p + |h.Text()|, entries[1..]);
      EventsGroup(m.events, [Field(h.name, h.value)], EntryEvents(entries[1..]));
    }
  }

  lemma EventsGroup(a: seq<Event>, b: seq<Event>, c: seq<Event>)
    ensures (a + b) + c == a + (b + c)
  {
  }

  /** The blank line. */
  lemma BlankRun(m: Parser, buffer: string, p: nat) returns (m': Parser)
    requires m.cs == 13 && At(buffer, p, CRLF)
    ensures m'.cs == 348 && Same(m', m.(cs := 348, events := m.events + [HeaderDone]))
    ensures Run(RequestEdge, m, buffer, p) == (m', p + 2)
  {
    hide Run, RequestEdge, Fire;
    RequestLineEdges();
    AtChar(buffer, p, CRLF, 0);
    AtChar(buffer, p, CRLF, 1);
    StepOne(RequestEdge, m, buffer, p, 18, StartField);
    var m1 := m.(cs := 18, fieldStart := p);
    HaltHere(RequestEdge, m1, buffer, p + 1, Go(348, Done));
    FireOne(348, Done, m1, buffer, p + 1);
    m' := m1.(cs := 348, bodyStart := p + 2, events := m.events + [HeaderDone]);
  }

  function HeadText(o: Opening, entries: seq<Entry>): string {
    o.Text() + (EntryText(entries) + CRLF)
  }

  function HeadEvents(o: Opening, entries: seq<Entry>): seq<Event> {
    o.Events() + EntryEvents(entries) + [HeaderDone]
  }

  /** A whole head in one buffer: its callbacks, and not a byte behind it. */
  lemma RequestHeadRun(m: Parser, o: Opening, entries: seq<Entry>, tail: string)
    requires m.cs == 1 && o.Valid() && AllEntries(entries)
    ensures var (m', n) := Execute(RequestEdge, m, HeadText(o, entries) + tail);
            && n == |HeadText(o, entries)|
            && Same(m', m.(cs := 348, events := m.events + HeadEvents(o, entries)))
  {
    hide Run, RequestEdge, Opening.Text, Opening.Events, Opening.Valid, EntryText, EntryEvents, AllEntries;
    var head := HeadText(o, entries);
    var buffer := head + tail;
    assert buffer[0..|head|] == head;
    AtSplit(buffer, 0, o.Text(), EntryText(entries) + CRLF);
    AtSplit(buffer, |o.Text()|, EntryText(entries), CRLF);
    var z := ZeroRegisters(m);
    var m1 := OpeningRun(z, buffer, 0, o);
    var m2 := EntriesRun(m1, buffer, |o.Text()|, entries);
    var m3 := BlankRun(m2, buffer, |o.Text()| + |EntryText(entries)|);
    assert z.events + o.Events() + EntryEvents(entries) + [HeaderDone] == m.events + HeadEvents(o, entries);
  }
}
