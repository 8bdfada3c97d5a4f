/**
 The request table against the grammar of origin-form targets (section 3 of RFC 3986 for path, query
 and fragment), request lines and header lines.
 */
module RequestGrammar {
  import opened Wrappers
  import opened HttpText
  import opened ParserTables
  import opened Machine
  import opened Segmentation
  import opened HeaderGrammar
  import opened MessageHead

  // ---------------------------------------------------------------- one piece of a target

  /** Every byte is allowed, or a percent sign with two hex digits behind it. */
  predicate Clean(s: string, ok: char -> bool) {
    s == ""
    || (s[0] == '%' && |s| >= 3 && IsHex(s[1]) && IsHex(s[2]) && Clean(s[3..], ok))
    || (s[0] != '%' && ok(s[0]) && Clean(s[1..], ok))
  }

  /** In a clean text every percent sign has two hex digits behind it. */
  lemma {:induction false} EscapesAreHex(s: string, ok: char -> bool, i: nat)
    requires Clean(s, ok) && i < |s| && s[i] == '%'
    requires !ok('%') && forall c {:trigger IsHex(c)} :: IsHex(c) ==> c != '%'
    ensures i + 2 < |s| && IsHex(s[i + 1]) && IsHex(s[i + 2])
  {
    assert s[0] == '%' ==> s[1] != '%' && s[2] != '%';
    if i > 0 {
      var k := if s[0] == '%' then 3 else 1;
      if k <= i {
        EscapesAreHex(s[k..], ok, i - k);
        assert s[k..][i - k] == s[i] && s[k..][i - k + 1] == s[i + 1] && s[k..][i - k + 2] == s[i + 2];
      }
    }
  }

  /** The three states that read a piece, and what may end it. */
  ghost predicate ReadsPiece(base: int, ok: char -> bool, ends: char -> bool) {
    && base > 0
    && (forall c: char :: RequestEdge(base, c) ==
          if c == '%' then Go(base + 1) else if ok(c) then Go(base)
          else if ends(c) then RequestEdge(base, c) else REJECT)
    && (forall c: char :: RequestEdge(base + 1, c) == if IsHex(c) then Go(base + 2) else REJECT)
    && (forall c: char :: RequestEdge(base + 2, c) == if IsHex(c) then Go(base) else REJECT)
    && !ok('%') && !ends('%')
    && forall c: char :: ends(c) ==> !ok(c) && !IsHex(c)
  }

  /** Fails: the run from here ends in the error state. */
  predicate Fails(m: Parser, buffer: string, p: nat)
    requires p <= |buffer|
  {
    Run(RequestEdge, m, buffer, p).0.cs == 0
  }

  lemma Reject(m: Parser, buffer: string, p: nat)
    requires p < |buffer| && RequestEdge(m.cs, buffer[p]) == REJECT
    ensures Fails(m, buffer, p)
  {
    hide RequestEdge;
  }

  /** A percent sign in a piece. */
  lemma EscapeRun(m: Parser, buffer: string, p: nat, s: string, ok: char -> bool, ends: char -> bool)
    requires ReadsPiece(m.cs, ok, ends) && s != "" && s[0] == '%' && At(buffer, p, s)
    requires p + |s| < |buffer| && ends(buffer[p + |s|])
    ensures |s| >= 3 && IsHex(s[1]) && IsHex(s[2]) ==>
              Run(RequestEdge, m, buffer, p) == Run(RequestEdge, m, buffer, p + 3)
    ensures !(|s| >= 3 && IsHex(s[1]) && IsHex(s[2])) ==> Fails(m, buffer, p)
  {
    hide Run, RequestEdge;
    var m1, m2 := m.(cs := m.cs + 1), m.(cs := m.cs + 2);
    AtChar(buffer, p, s, 0);
    Step(RequestEdge, m, buffer, p, Go(m.cs + 1));
    if |s| > 1 { AtChar(buffer, p, s, 1); }
    if |s| == 1 || !IsHex(s[1]) {
      Reject(m1, buffer, p + 1);
    } else {
      Step(RequestEdge, m1, buffer, p + 1, Go(m.cs + 2));
      if |s| > 2 { AtChar(buffer, p, s, 2); }
      if |s| == 2 || !IsHex(s[2]) {
        Reject(m2, buffer, p + 2);
      } else {
        Step(RequestEdge, m2, buffer, p + 2, Go(m.cs));
      }
    }
  }

  /** A piece that something ends: it is passed over exactly when it is clean. */
  lemma {:induction false} PieceRun(m: Parser, buffer: string, p: nat, s: string, ok: char -> bool, ends: char -> bool)
    requires ReadsPiece(m.cs, ok, ends) && At(buffer, p, s)
    requires forall i :: 0 <= i < |s| ==> !ends(s[i])
    requires p + |s| < |buffer| && ends(buffer[p + |s|])
    ensures Clean(s, ok) ==> Run(RequestEdge, m, buffer, p) == Run(RequestEdge, m, buffer, p + |s|)
    ensures !Clean(s, ok) ==> Fails(m, buffer, p)
    decreases |s|
  {
    hide Run, RequestEdge, At, IsHex;
    if s != "" {
      AtChar(buffer, p, s, 0);
      assert !ends(s[0]);
      if s[0] == '%' {
        EscapeRun(m, buffer, p, s, ok, ends);
        if |s| >= 3 && IsHex(s[1]) && IsHex(s[2]) {
          assert s == s[..3] + s[3..];
          AtSplit(buffer, p, s[..3], s[3..]);
          PieceRun(m, buffer, p + 3, s[3..], ok, ends);
        }
      } else if ok(s[0]) {
        Step(RequestEdge, m, buffer, p, Go(m.cs));
        assert s == s[..1] + s[1..];
        AtSplit(buffer, p, s[..1], s[1..]);
        PieceRun(m, buffer, p + 1, s[1..], ok, ends);
      } else {
        Reject(m, buffer, p);
      }
    }
  }

  // ---------------------------------------------------------------- path, query, fragment

  predicate EndsPath(c: char) {
    c == ' ' || c == '#' || c == '?'
  }

  predicate EndsQuery(c: char) {
    c == ' ' || c == '#'
  }

  predicate EndsFragment(c: char) {
    c == ' '
  }

  lemma PathPiece()
    ensures ReadsPiece(26, IsUriChar, EndsPath)
  {
  }

  lemma QueryPiece()
    ensures ReadsPiece(30, IsQueryChar, EndsQuery)
  {
  }

  lemma FragmentPiece()
    ensures ReadsPiece(21, IsQueryChar, EndsFragment)
  {
  }

  lemma SecondEdge(c: char)
    requires c != '/'
    ensures RequestEdge(33, c) == RequestEdge(26, c)
  {
  }

  lemma PathEdges()
    ensures RequestEdge(3, '/') == Go(33, Mark)
    ensures RequestEdge(26, ' ') == Go(4, Skip, EmitPath, EmitUri) && RequestEdge(26, '#') == Go(20, Skip, EmitPath, EmitUri)
    ensures RequestEdge(26, '?') == Go(29, Skip, EmitPath)
  {
  }

  /** The path, from its slash to the byte that ends it. */
  lemma PathRun(m: Parser, buffer: string, p: nat, path: string, c: char) returns (m': Parser)
    requires m.cs == 3 && path != "" && path[0] == '/' && (|path| > 1 ==> path[1] != '/')
    requires EndsPath(c) && At(buffer, p, path + [c]) && forall i :: 0 <= i < |path| ==> !EndsPath(path[i])
    ensures m' == m.(cs := if c == ' ' then 4 else if c == '#' then 20 else 29, mark := p,
                     events := m.events + if c == '?' then [Path(path)] else [Path(path), Uri(path)])
    ensures Clean(path, IsUriChar) ==> Run(RequestEdge, m, buffer, p) == Run(RequestEdge, m', buffer, p + |path| + 1)
    ensures !Clean(path, IsUriChar) ==> Fails(m, buffer, p)
  {
    hide Run, RequestEdge, ReadsPiece, Fails, Clean, Fire, At;
    AtSplit(buffer, p, path, [c]);
    AtChar(buffer, p, path, 0);
    PathPiece();
    PathEdges();
    StepOne(RequestEdge, m, buffer, p, 33, Mark);
    var m1 := m.(cs := 26, mark := p);
    var q := p + |path|;
    AtChar(buffer, q, [c], 0);
    assert path == path[..1] + path[1..];
    AtSplit(buffer, p, path[..1], path[1..]);
    if |path| > 1 { AtChar(buffer, p, path, 1); }
    SecondEdge(buffer[p + 1]);
    SameBehind(m1.(cs := 33), m1, buffer, p + 1);
    PieceRun(m1, buffer, p + 1, path[1..], IsUriChar, EndsPath);
    PathTail(path);
    FailsAlike(m, m1, buffer, p, p + 1);
    AtText(buffer, p, path);
    m' := PathStops(m1, buffer, q, path, c);
  }

  /** The byte behind the path. */
  lemma PathStops(m: Parser, buffer: string, q: nat, path: string, c: char) returns (m': Parser)
    requires m.cs == 26 && q < |buffer| && buffer[q] == c && EndsPath(c) && m.mark <= q && buffer[m.mark..q] == path
    ensures m' == m.(cs := if c == ' ' then 4 else if c == '#' then 20 else 29,
                     events := m.events + if c == '?' then [Path(path)] else [Path(path), Uri(path)])
    ensures Run(RequestEdge, m, buffer, q) == Run(RequestEdge, m', buffer, q + 1)
  {
    hide Run, RequestEdge;
    PathEdges();
    var e := RequestEdge(26, c);
    Step(RequestEdge, m, buffer, q, e);
    m' := Fire(e, m, buffer, q);
    assert m.events + [Path(path)] + [Uri(path)] == m.events + [Path(path), Uri(path)];
  }

  lemma PathTail(path: string)
    requires path != "" && path[0] == '/'
    ensures Clean(path, IsUriChar) == Clean(path[1..], IsUriChar)
  {
  }

  lemma FailsAlike(m: Parser, n: Parser, buffer: string, p: nat, q: nat)
    requires p <= |buffer| && q <= |buffer|
    requires Run(RequestEdge, m, buffer, p) == Run(RequestEdge, n, buffer, q)
    ensures Fails(m, buffer, p) == Fails(n, buffer, q)
  {
    hide Run;
  }

  /** Two states with the same edge here behave alike. */
  lemma SameBehind(m: Parser, n: Parser, buffer: string, p: nat)
    requires p < |buffer| && m == n.(cs := m.cs) && RequestEdge(m.cs, buffer[p]) == RequestEdge(n.cs, buffer[p])
    ensures Run(RequestEdge, m, buffer, p) == Run(RequestEdge, n, buffer, p)
  {
    hide RequestEdge;
    var e := RequestEdge(m.cs, buffer[p]);
    FireForgets(e, m, n, buffer, p);
  }

  lemma FireForgets(e: Edge, m: Parser, n: Parser, buffer: string, p: nat)
    requires m == n.(cs := m.cs)
    ensures Fire(e, m, buffer, p) == Fire(e, n, buffer, p)
  {
    ActForgets(e.a1, m, n, buffer, p);
    var m1, n1 := Act(e.a1, m, buffer, p), Act(e.a1, n, buffer, p);
    ActForgets(e.a2, m1, n1, buffer, p);
    var m2, n2 := Act(e.a2, m1, buffer, p), Act(e.a2, n1, buffer, p);
    ActForgets(e.a3, m2, n2, buffer, p);
    ActForgets(e.a4, Act(e.a3, m2, buffer, p), Act(e.a3, n2, buffer, p), buffer, p);
  }

  lemma ActForgets(a: Action, m: Parser, n: Parser, buffer: string, p: nat)
    requires m == n.(cs := m.cs)
    ensures Act(a, m, buffer, p) == Act(a, n, buffer, p).(cs := m.cs)
  {
    hide NumberAt, Slice;
    match a
    case EmitChunk =>
    case EmitStatus =>
    case EmitField =>
    case EmitQuery =>
    case _ =>
  }

  lemma QueryEdges()
    ensures RequestEdge(30, ' ') == Go(4, EmitQuery, EmitUri) && RequestEdge(30, '#') == Go(20, EmitQuery, EmitUri)
    ensures RequestEdge(21, ' ') == Go(4, EmitFragment)
  {
  }

  /** At its first byte a query is as inside, but for the register that is set here. */
  lemma QueryStarts(m: Parser, buffer: string, p: nat)
    requires m.cs == 29 && p < |buffer|
    ensures var n := m.(cs := 30, queryStart := p);
            if RequestEdge(30, buffer[p]) == REJECT then Fails(m, buffer, p) && Fails(n, buffer, p)
            else Run(RequestEdge, m, buffer, p) == Run(RequestEdge, n, buffer, p)
  {
    var c := buffer[p];
    QueryStartEdge(c);
    hide RequestEdge, Fire;
    var f := RequestEdge(30, c);
    FirstMarks(MarkQuery, f.target, f.a1, f.a2, m, buffer, p);
    FireForgets(f, m.(queryStart := p), m.(cs := 30, queryStart := p), buffer, p);
  }

  /** Marking first, and then the rest of the edge. */
  lemma FirstMarks(mark: Action, target: int, a1: Action, a2: Action, m: Parser, buffer: string, p: nat)
    ensures Fire(Go(target, mark, a1, a2), m, buffer, p) == Fire(Go(target, a1, a2), Act(mark, m, buffer, p), buffer, p)
  {
    SkipsNothing(Act(a2, Act(a1, Act(mark, m, buffer, p), buffer, p), buffer, p), buffer, p);
    hide Act;
  }

  lemma SkipsNothing(m: Parser, buffer: string, p: nat)
    ensures Act(Skip, m, buffer, p) == m
  {
  }

  lemma QueryStartEdge(c: char)
    ensures var e, f := RequestEdge(29, c), RequestEdge(30, c);
            (e == REJECT && f == REJECT) || (e == Go(f.target, MarkQuery, f.a1, f.a2) && f == Go(f.target, f.a1, f.a2))
  {
  }

  lemma FragmentStarts(m: Parser, buffer: string, p: nat)
    requires m.cs == 20 && p < |buffer|
    ensures var n := m.(cs := 21, mark := p);
            if RequestEdge(21, buffer[p]) == REJECT then Fails(m, buffer, p) && Fails(n, buffer, p)
            else Run(RequestEdge, m, buffer, p) == Run(RequestEdge, n, buffer, p)
  {
    var c := buffer[p];
    FragmentStartEdge(c);
    hide RequestEdge, Fire;
    var f := RequestEdge(21, c);
    FirstMarks(Mark, f.target, f.a1, Skip, m, buffer, p);
    FireForgets(f, m.(mark := p), m.(cs := 21, mark := p), buffer, p);
  }

  lemma FragmentStartEdge(c: char)
    ensures var e, f := RequestEdge(20, c), RequestEdge(21, c);
            (e == REJECT && f == REJECT) || (e == Go(f.target, Mark, f.a1) && f == Go(f.target, f.a1))
  {
  }

  /** The query, from behind its question mark. */
  lemma QueryRun(m: Parser, buffer: string, p: nat, s: string, c: char) returns (m': Parser)
    requires m.cs == 29 && m.mark <= p && EndsQuery(c) && At(buffer, p, s + [c])
    requires forall i :: 0 <= i < |s| ==> !EndsQuery(s[i])
    ensures m' == m.(cs := if c == ' ' then 4 else 20, queryStart := p,
                     events := m.events + [Query(s), Uri(buffer[m.mark..p + |s|])])
    ensures Clean(s, IsQueryChar) ==> Run(RequestEdge, m, buffer, p) == Run(RequestEdge, m', buffer, p + |s| + 1)
    ensures !Clean(s, IsQueryChar) ==> Fails(m, buffer, p)
  {
    hide Run, RequestEdge, ReadsPiece, Fails, Clean;
    AtSplit(buffer, p, s, [c]);
    var q := p + |s|;
    AtChar(buffer, q, [c], 0);
    QueryPiece();
    QueryEdges();
    QueryStarts(m, buffer, p);
    var m1 := m.(cs := 30, queryStart := p);
    PieceRun(m1, buffer, p, s, IsQueryChar, EndsQuery);
    if RequestEdge(30, buffer[p]) != REJECT { FailsAlike(m, m1, buffer, p, p); }
    if s != "" { AtChar(buffer, p, s, 0); }
    if Clean(s, IsQueryChar) { CleanStarts(30, s, c, IsQueryChar, EndsQuery); }
    AtText(buffer, p, s);
    m' := QueryStops(m1, buffer, q, s, c);
  }

  /** The first byte of a clean piece, or of what ends it, is not refused. */
  lemma CleanStarts(base: int, s: string, c: char, ok: char -> bool, ends: char -> bool)
    requires ReadsPiece(base, ok, ends) && Clean(s, ok) && ends(c) && RequestEdge(base, c) != REJECT
    ensures RequestEdge(base, if s == "" then c else s[0]) != REJECT
  {
    hide RequestEdge;
  }

  lemma QueryStops(m: Parser, buffer: string, q: nat, s: string, c: char) returns (m': Parser)
    requires m.cs == 30 && q < |buffer| && buffer[q] == c && EndsQuery(c)
    requires m.mark <= q && m.queryStart <= q && buffer[m.queryStart..q] == s
    ensures m' == m.(cs := if c == ' ' then 4 else 20, events := m.events + [Query(s), Uri(buffer[m.mark..q])])
    ensures Run(RequestEdge, m, buffer, q) == Run(RequestEdge, m', buffer, q + 1)
  {
    hide Run, RequestEdge;
    QueryEdges();
    var e := RequestEdge(30, c);
    Step(RequestEdge, m, buffer, q, e);
    m' := Fire(e, m, buffer, q);
    assert m.events + [Query(s)] + [Uri(buffer[m.mark..q])] == m.events + [Query(s), Uri(buffer[m.mark..q])];
  }

  /** The fragment, from behind its hash sign. */
  lemma FragmentRun(m: Parser, buffer: string, p: nat, s: string) returns (m': Parser)
    requires m.cs == 20 && At(buffer, p, s + " ") && forall i :: 0 <= i < |s| ==> !EndsFragment(s[i])
    ensures m' == m.(cs := 4, mark := p, events := m.events + [Fragment(s)])
    ensures Clean(s, IsQueryChar) ==> Run(RequestEdge, m, buffer, p) == Run(RequestEdge, m', buffer, p + |s| + 1)
    ensures !Clean(s, IsQueryChar) ==> Fails(m, buffer, p)
  {
    hide Run, RequestEdge, ReadsPiece, Fails, Clean;
    AtSplit(buffer, p, s, " ");
    var q := p + |s|;
    AtChar(buffer, q, " ", 0);
    FragmentPiece();
    QueryEdges();
    FragmentStarts(m, buffer, p);
    var m1 := m.(cs := 21, mark := p);
    PieceRun(m1, buffer, p, s, IsQueryChar, EndsFragment);
    if RequestEdge(21, buffer[p]) != REJECT { FailsAlike(m, m1, buffer, p, p); }
    if s != "" { AtChar(buffer, p, s, 0); }
    if Clean(s, IsQueryChar) { CleanStarts(21, s, ' ', IsQueryChar, EndsFragment); }
    AtText(buffer, p, s);
    Step(RequestEdge, m1, buffer, q, Go(4, EmitFragment));
    m' := Fire(Go(4, EmitFragment), m1, buffer, q);
  }

  // ---------------------------------------------------------------- the target

  /** What stands before the first c. */
  function Before(s: string, c: char): string {
    s[..IndexOf(s, c)]
  }

  /** What stands behind the first c, if there is one. */
  function Behind(s: string, c: char): Option<string> {
    if IndexOf(s, c) < |s| then Some(s[IndexOf(s, c) + 1..]) else None
  }

  /** A target, split at its first hash sign, and before that at its first question mark. */
  datatype Target = Target(path: string, query: Option<string>, fragment: Option<string>)
  {
    predicate Valid() {
      && Clean(path, IsUriChar)
      && (query.Some? ==> Clean(query.value, IsQueryChar))
      && (fragment.Some? ==> Clean(fragment.value, IsQueryChar))
    }
  }

  function SplitTarget(t: string): Target {
    var main := Before(t, '#');
    Target(Before(main, '?'), Behind(main, '?'), Behind(t, '#'))
  }

  /** Origin form, but for a second slash, which begins an authority. */
  predicate IsOrigin(t: string) {
    t != "" && t[0] == '/' && (|t| > 1 ==> t[1] != '/') && forall i :: 0 <= i < |t| ==> t[i] != ' '
  }

  /** The callbacks for the part before the fragment. */
  function MainEvents(main: string): seq<Event> {
    var q := Behind(main, '?');
    if q.Some? then [Path(Before(main, '?')), Query(q.value), Uri(main)] else [Path(Before(main, '?')), Uri(main)]
  }

  predicate MainValid(main: string) {
    var q := Behind(main, '?');
    Clean(Before(main, '?'), IsUriChar) && (q.Some? ==> Clean(q.value, IsQueryChar))
  }

  function TargetEvents(t: string): seq<Event> {
    var f := Behind(t, '#');
    MainEvents(Before(t, '#')) + (if f.Some? then [Fragment(f.value)] else [])
  }

  /** What a piece of a target means: passed over with its callbacks if it is valid, refused if not. */
  ghost predicate Reads(m: Parser, buffer: string, p: nat, valid: bool, m': Parser, q: nat)
    requires p <= |buffer| && q <= |buffer|
  {
    if valid then Run(RequestEdge, m, buffer, p) == Run(RequestEdge, m', buffer, q) else Fails(m, buffer, p)
  }

  lemma ReadsOn(m: Parser, buffer: string, p: nat, v1: bool, m1: Parser, q: nat, v2: bool, m2: Parser, r: nat)
    requires p <= |buffer| && q <= |buffer| && r <= |buffer|
    requires Reads(m, buffer, p, v1, m1, q) && Reads(m1, buffer, q, v2, m2, r)
    ensures Reads(m, buffer, p, v1 && v2, m2, r)
  {
    hide Run;
  }

  /** The target up to the hash sign or the space behind it. */
  lemma MainRun(m: Parser, buffer: string, p: nat, main: string, c: char) returns (m': Parser)
    requires m.cs == 3 && IsOrigin(main) && EndsQuery(c) && At(buffer, p, main + [c]) && '#' !in main
    ensures m'.cs == if c == ' ' then 4 else 20
    ensures Same(m', m.(cs := m'.cs, events := m.events + MainEvents(main)))
    ensures Reads(m, buffer, p, MainValid(main), m', p + |main| + 1)
  {
    hide Run, RequestEdge, Fails, Clean;
    var k := IndexOf(main, '?');
    var path := main[..k];
    assert path[0] == '/' && (|path| > 1 ==> path[1] != '/');
    assert forall i :: 0 <= i < |path| ==> path[i] == main[i] && path[i] in main;
    if k == |main| {
      assert path == main;
      m' := PathRun(m, buffer, p, path, c);
    } else {
      m' := MainWithQuery(m, buffer, p, path, main[k + 1..], main, c);
    }
  }

  lemma MainWithQuery(m: Parser, buffer: string, p: nat, path: string, q: string, main: string, c: char)
    returns (m': Parser)
    requires m.cs == 3 && path != "" && path[0] == '/' && (|path| > 1 ==> path[1] != '/') && EndsQuery(c)
    requires main == path + ['?'] + q && At(buffer, p, main + [c])
    requires forall i :: 0 <= i < |path| ==> !EndsPath(path[i])
    requires forall i :: 0 <= i < |main| ==> !EndsQuery(main[i])
    ensures m'.cs == if c == ' ' then 4 else 20
    ensures Same(m', m.(cs := m'.cs, events := m.events + [Path(path), Query(q), Uri(main)]))
    ensures Reads(m, buffer, p, Clean(path, IsUriChar) && Clean(q, IsQueryChar), m', p + |main| + 1)
  {
    hide Run, RequestEdge, Clean;
    assert main + [c] == (path + ['?']) + (q + [c]);
    AtSplit(buffer, p, path + ['?'], q + [c]);
    var r := p + |path| + 1;
    var m1 := PathRun(m, buffer, p, path, '?');
    assert forall i :: 0 <= i < |q| ==> q[i] == main[|path| + 1 + i];
    m' := QueryRun(m1, buffer, r, q, c);
    AtSplit(buffer, p, main, [c]);
    AtText(buffer, p, main);
    assert m.events + [Path(path)] + [Query(q), Uri(main)] == m.events + [Path(path), Query(q), Uri(main)];
    ReadsOn(m, buffer, p, Clean(path, IsUriChar), m1, r, Clean(q, IsQueryChar), m', p + |main| + 1);
  }

  /**
   The request target.  An origin-form target is accepted if and only if each of its pieces holds
   only bytes allowed there and percent signs with two hex digits behind them; the callbacks are then
   the pieces got by splitting at the first hash sign and the first question mark before it.
   */
  lemma TargetRun(m: Parser, buffer: string, p: nat, t: string) returns (m': Parser)
    requires m.cs == 3 && IsOrigin(t) && At(buffer, p, t + " ")
    ensures m'.cs == 4 && Same(m', m.(cs := 4, events := m.events + TargetEvents(t)))
    ensures SplitTarget(t).Valid() ==> Run(RequestEdge, m, buffer, p) == Run(RequestEdge, m', buffer, p + |t| + 1)
    ensures !SplitTarget(t).Valid() ==> Run(RequestEdge, m, buffer, p).0.cs == 0
  {
    hide Run, RequestEdge, Clean, MainEvents;
    var k := IndexOf(t, '#');
    var main := t[..k];
    assert forall i :: 0 <= i < |main| ==> main[i] == t[i];
    assert SplitTarget(t).Valid() == (MainValid(main) && (k < |t| ==> Clean(t[k + 1..], IsQueryChar)));
    if k == |t| {
      assert main == t && t + " " == t + [' '];
      m' := MainRun(m, buffer, p, t, ' ');
      assert TargetEvents(t) == MainEvents(main);
    } else {
      m' := TargetWithFragment(m, buffer, p, main, t[k + 1..], t);
    }
  }

  lemma TargetWithFragment(m: Parser, buffer: string, p: nat, main: string, f: string, t: string) returns (m': Parser)
    requires m.cs == 3 && IsOrigin(main) && '#' !in main && t == main + ['#'] + f && At(buffer, p, t + " ")
    requires forall i :: 0 <= i < |t| ==> t[i] != ' '
    ensures m'.cs == 4 && Same(m', m.(cs := 4, events := m.events + (MainEvents(main) + [Fragment(f)])))
    ensures Reads(m, buffer, p, MainValid(main) && Clean(f, IsQueryChar), m', p + |t| + 1)
  {
    hide Run, RequestEdge, Clean, MainEvents, MainValid;
    var r := p + |main| + 1;
    assert t + " " == (main + ['#']) + (f + " ");
    AtSplit(buffer, p, main + ['#'], f + " ");
    var m1 := MainRun(m, buffer, p, main, '#');
    assert forall i :: 0 <= i < |f| ==> f[i] == t[|main| + 1 + i];
    m' := FragmentRun(m1, buffer, r, f);
    assert m.events + MainEvents(main) + [Fragment(f)] == m.events + (MainEvents(main) + [Fragment(f)]);
    ReadsOn(m, buffer, p, MainValid(main), m1, r, Clean(f, IsQueryChar), m', p + |t| + 1);
  }
}
