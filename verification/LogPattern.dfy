/** The pattern scanner of the log formatter: what it means, what it does, and its round trip. */
module LogPattern {
  import opened HttpText

  /** What the scanner cuts a pattern into: text, an item with an argument, an item whose brace never closes. */
  datatype Piece = Text(text: string) | Spec(name: string, arg: string) | Broken(name: string)

  /** A format item: plain text, or one of the known kinds with its argument. */
  datatype FormatItem = Plain(text: string) | Kind(name: string, arg: string)

  const KINDS: set<string> := {"m", "p", "r", "c", "t", "n", "d", "f", "l", "T", "F", "N"}

  predicate IsAlpha(c: char) {
    'a' <= c <= 'z' || 'A' <= c <= 'Z'
  }

  /** A character that does not end an item's name. */
  predicate InName(c: char) {
    IsAlpha(c) || c == '}'
  }

  // ---------------------------------------------------------------- what a pattern means

  function NameLength(s: string): (k: nat)
    ensures k <= |s| && (forall i :: 0 <= i < k ==> InName(s[i])) && (k < |s| ==> !InName(s[k]))
  {
    if s == "" || !InName(s[0]) then 0
    else
      var k := NameLength(s[1..]);
      assert forall i :: 1 <= i < |s| ==> s[i] == s[1..][i - 1];
      k + 1
  }

  /** The item that starts a text, and what follows it. */
  function ItemOf(s: string): (r: (Piece, string))
    ensures |r.1| <= |s| && !r.0.Text? && (r.0.Broken? ==> r.1 == "")
  {
    var k := NameLength(s);
    if k == |s| || s[k] != '{' then (Spec(s[..k], ""), s[k..])
    else
      var tail := s[k + 1..];
      var n := IndexOf(tail, '}');
      if n == |tail| then (Broken(s[..k]), "") else (Spec(s[..k], tail[..n]), tail[n + 1..])
  }

  function Flush(text: string): seq<Piece> {
    if text == "" then [] else [Text(text)]
  }

  /** The pieces of a pattern; `text` is what has been read since the last item. */
  function Scan(s: string, text: string): seq<Piece>
    decreases |s|
  {
    if s == "" then Flush(text)
    else if s[0] != '%' then Scan(s[1..], text + [s[0]])
    else if |s| > 1 && s[1] == '%' then Scan(s[1..], text + "%")
    else
      var (piece, rest) := ItemOf(s[1..]);
      if piece.Broken? then [piece] + Scan(rest, text) else Flush(text) + [piece] + Scan(rest, "")
  }

  function Resolve(p: Piece): FormatItem {
    match p
    case Text(text) => Plain(text)
    case Spec(name, arg) => if name in KINDS then Kind(name, arg) else Plain("<<error format %" + name + ">>")
    case Broken(_) => Plain("<<error format %" + "<<pattern error>>" + ">>")
  }

  predicate IsError(p: Piece) {
    p.Broken? || (p.Spec? && p.name !in KINDS)
  }

  function ResolveAll(ps: seq<Piece>): (items: seq<FormatItem>)
    ensures |items| == |ps|
  {
    seq(|ps|, i requires 0 <= i < |ps| => Resolve(ps[i]))
  }

  predicate AnyError(ps: seq<Piece>) {
    exists i :: 0 <= i < |ps| && IsError(ps[i])
  }

  // ---------------------------------------------------------------- what the scanner does

  class LoggerFormatter {
    const pattern: string
    var items: seq<FormatItem>
    var error: bool

    constructor (pattern: string)
      ensures this.pattern == pattern
      ensures items == ResolveAll(Scan(pattern, "")) && error == AnyError(Scan(pattern, ""))
    {
      this.pattern := pattern;
      items := [];
      error := false;
      new;
      Init();
    }

    /**
     The inner loop of init, from behind a percent sign: the position to go on behind, whether the item
     is complete, its name and its argument.
     */
    method ScanItem(begin: nat) returns (j: nat, status: int, format: string, arg: string)
      requires 0 < begin <= |pattern|
      ensures begin <= j + 1 && j <= |pattern|
      ensures var (piece, rest) := ItemOf(pattern[begin..]);
              if status == 0
              then piece == Spec(if j == |pattern| then pattern[begin..j] else format, arg)
                   && rest == if j == |pattern| then "" else pattern[j + 1..]
              else status == 1 && piece == Broken(format) && j == |pattern|
    {
      j, status, format, arg := begin, 0, "", "";
      var typeBegin := 0;
      while j < |pattern|
        invariant begin <= j <= |pattern| && (status == 0 || status == 1) && arg == ""
        invariant status == 0 ==> forall i :: begin <= i < j ==> InName(pattern[i])
        invariant status == 1 ==> begin < typeBegin <= j && pattern[typeBegin - 1] == '{'
        invariant status == 1 ==> forall i :: begin <= i < typeBegin - 1 ==> InName(pattern[i])
        invariant status == 1 ==> format == pattern[begin..typeBegin - 1] && forall i :: typeBegin <= i < j ==> pattern[i] != '}'
      {
        if status == 0 && !IsAlpha(pattern[j]) && pattern[j] != '{' && pattern[j] != '}' {
          format := pattern[begin..j];
          NameEnds(begin, j);
          j := j - 1;
          return;
        }
        if status == 0 && pattern[j] == '{' {
          format := pattern[begin..j];
          j := j + 1;
          typeBegin := j;
          status := 1;
          continue;
        }
        if status == 1 && pattern[j] == '}' {
          arg := pattern[typeBegin..j];
          status := 0;
          BraceCloses(begin, typeBegin, j);
          return;
        }
        j := j + 1;
      }
      if status == 0 {
        NameIsRest(begin);
      } else {
        BraceStaysOpen(begin, typeBegin);
      }
    }

    lemma NameEnds(begin: nat, j: nat)
      requires begin <= j < |pattern| && forall i :: begin <= i < j ==> InName(pattern[i])
      requires !InName(pattern[j]) && pattern[j] != '{'
      ensures ItemOf(pattern[begin..]) == (Spec(pattern[begin..j], ""), pattern[j..])
    {
      var s := pattern[begin..];
      NameLengthIs(s, j - begin);
      assert s[..j - begin] == pattern[begin..j] && s[j - begin..] == pattern[j..];
    }

    lemma NameIsRest(begin: nat)
      requires begin <= |pattern| && forall i :: begin <= i < |pattern| ==> InName(pattern[i])
      ensures ItemOf(pattern[begin..]) == (Spec(pattern[begin..], ""), "")
    {
      var s := pattern[begin..];
      NameLengthIs(s, |s|);
      assert s[..|s|] == s && s[|s|..] == "";
    }

    lemma BraceCloses(begin: nat, typeBegin: nat, j: nat)
      requires begin < typeBegin <= j < |pattern| && pattern[typeBegin - 1] == '{' && pattern[j] == '}'
      requires forall i :: begin <= i < typeBegin - 1 ==> InName(pattern[i])
      requires forall i :: typeBegin <= i < j ==> pattern[i] != '}'
      ensures ItemOf(pattern[begin..])
              == (Spec(pattern[begin..typeBegin - 1], pattern[typeBegin..j]), pattern[j + 1..])
    {
      hide *;
      var s, tail := pattern[begin..], pattern[typeBegin..];
      var k, n := typeBegin - 1 - begin, j - typeBegin;
      DropSlice(pattern, begin, k + 1, |s|);
      forall i | 0 <= i < k
        ensures InName(s[i])
      {
        assert s[i] == pattern[begin + i];
      }
      BracedAt(s, tail, k, n);
      DropSlice(pattern, begin, 0, k);
      DropSlice(pattern, typeBegin, 0, n);
      DropSlice(pattern, typeBegin, n + 1, |tail|);
    }

    lemma BraceStaysOpen(begin: nat, typeBegin: nat)
      requires begin < typeBegin <= |pattern| && pattern[typeBegin - 1] == '{'
      requires forall i :: begin <= i < typeBegin - 1 ==> InName(pattern[i])
      requires forall i :: typeBegin <= i < |pattern| ==> pattern[i] != '}'
      ensures ItemOf(pattern[begin..]) == (Broken(pattern[begin..typeBegin - 1]), "")
    {
      var s := pattern[begin..];
      var k := typeBegin - 1 - begin;
      NameLengthIs(s, k);
      assert s[..k] == pattern[begin..typeBegin - 1] && s[k + 1..] == pattern[typeBegin..];
      IndexIs(s[k + 1..], '}', |s[k + 1..]|);
    }

    /** One step of the scan. */
    lemma ScanAt(i: nat, text: string)
      requires i < |pattern|
      ensures Scan(pattern[i..], text) ==
              if pattern[i] != '%' then Scan(pattern[i + 1..], text + [pattern[i]])
              else if i + 1 < |pattern| && pattern[i + 1] == '%' then Scan(pattern[i + 1..], text + "%")
              else
                var (piece, rest) := ItemOf(pattern[i + 1..]);
                if piece.Broken? then [piece] + Scan(rest, text) else Flush(text) + [piece] + Scan(rest, "")
    {
      hide ItemOf;
      assert pattern[i..][1..] == pattern[i + 1..];
    }

    /** The first half of init: the pieces of the pattern. */
    method Cut() returns (vec: seq<Piece>)
      ensures vec == Scan(pattern, "")
    {
      hide Scan, ItemOf;
      vec := [];
      var nstr := "";
      var i: nat := 0;
      assert pattern[0..] == pattern;
      while i < |pattern|
        invariant vec + Scan(if i <= |pattern| then pattern[i..] else "", nstr) == Scan(pattern, "")
        decreases |pattern| - i
      {
        ScanAt(i, nstr);
        if pattern[i] != '%' {
          nstr := nstr + [pattern[i]];
          i := i + 1;
          continue;
        }
        if i + 1 < |pattern| && pattern[i + 1] == '%' {
          nstr := nstr + "%";
          i := i + 1;
          continue;
        }
        var j, status, format, arg := ScanItem(i + 1);
        ghost var before, text := vec, nstr;
        if status == 0 {
          if nstr != "" {
            vec := vec + [Text(nstr)];
            nstr := "";
          }
          if j == |pattern| {
            format := pattern[i + 1..j];
          }
          vec := vec + [Spec(format, arg)];
          AppendItem(before, text, Spec(format, arg), Scan(ItemOf(pattern[i + 1..]).1, ""));
        } else {
          vec := vec + [Broken(format)];
          AppendPiece(before, Broken(format), Scan("", nstr));
        }
        i := j + 1;
      }
      NothingLeft(if i <= |pattern| then pattern[i..] else "", nstr);
      if nstr != "" {
        vec := vec + [Text(nstr)];
      }
    }

    static lemma AppendItem(before: seq<Piece>, text: string, p: Piece, more: seq<Piece>)
      ensures before + (Flush(text) + [p] + more)
              == (if text != "" then before + [Text(text)] else before) + [p] + more
    {
    }

    static lemma AppendPiece(before: seq<Piece>, p: Piece, more: seq<Piece>)
      ensures before + ([p] + more) == (before + [p]) + more
    {
    }

    lemma NothingLeft(s: string, text: string)
      requires s == ""
      ensures Scan(s, text) == Flush(text)
    {
    }

    method Init()
      requires items == [] && !error
      modifies this
      ensures items == ResolveAll(Scan(pattern, "")) && error == AnyError(Scan(pattern, ""))
    {
      var vec := Cut();
      var i := 0;
      while i < |vec|
        invariant 0 <= i <= |vec| && items == ResolveAll(vec[..i]) && error == AnyError(vec[..i])
      {
        var piece := vec[i];
        if piece.Text? {
          items := items + [Plain(piece.text)];
        } else if piece.Spec? && piece.name in KINDS {
          items := items + [Kind(piece.name, piece.arg)];
        } else {
          var name := if piece.Spec? then piece.name else "<<pattern error>>";
          items := items + [Plain("<<error format %" + name + ">>")];
          error := true;
        }
        OneMorePiece(vec, i);
        i := i + 1;
      }
      assert vec[..i] == vec;
    }
  }

  lemma NameLengthIs(s: string, k: nat)
    requires k <= |s| && (forall i :: 0 <= i < k ==> InName(s[i])) && (k < |s| ==> !InName(s[k]))
    ensures NameLength(s) == k
  {
  }

  lemma IndexIs(s: string, c: char, k: nat)
    requires k <= |s| && (k < |s| ==> s[k] == c) && forall i :: 0 <= i < k ==> s[i] != c
    ensures IndexOf(s, c) == k
  {
  }

  lemma DropSlice(s: string, from: nat, lo: nat, hi: nat)
    requires from <= |s| && lo <= hi <= |s| - from
    ensures s[from..][lo..hi] == s[from + lo..from + hi]
    ensures s[from..][lo..] == s[from + lo..] && s[from..][..hi] == s[from..from + hi]
  {
  }

  lemma BracedAt(s: string, tail: string, k: nat, n: nat)
    requires k < |s| && s[k] == '{' && s[k + 1..] == tail && n < |tail| && tail[n] == '}'
    requires (forall i :: 0 <= i < k ==> InName(s[i])) && forall i :: 0 <= i < n ==> tail[i] != '}'
    ensures ItemOf(s) == (Spec(s[..k], tail[..n]), tail[n + 1..])
  {
    NameLengthIs(s, k);
    IndexIs(tail, '}', n);
    hide NameLength, IndexOf, InName;
  }

  /** An item with its argument in braces. */
  lemma BracedItem(name: string, arg: string, rest: string)
    requires (forall i :: 0 <= i < |name| ==> InName(name[i])) && forall i :: 0 <= i < |arg| ==> arg[i] != '}'
    ensures ItemOf(name + ("{" + (arg + ("}" + rest)))) == (Spec(name, arg), rest)
  {
    var tail := arg + ("}" + rest);
    var s := name + ("{" + tail);
    var k, n := |name|, |arg|;
    assert forall i :: 0 <= i < k ==> s[i] == name[i];
    BracedAt(s, tail, k, n);
    hide *;
    assert s[..k] == name && tail[..n] == arg && tail[n + 1..] == rest;
  }

  lemma OneMorePiece(ps: seq<Piece>, i: nat)
    requires i < |ps|
    ensures ResolveAll(ps[..i + 1]) == ResolveAll(ps[..i]) + [Resolve(ps[i])]
    ensures AnyError(ps[..i + 1]) == (AnyError(ps[..i]) || IsError(ps[i]))
  {
    var a, b := ps[..i], ps[..i + 1];
    assert b == a + [ps[i]];
    if AnyError(a) {
      var j :| 0 <= j < |a| && IsError(a[j]);
      assert IsError(b[j]);
    }
    if IsError(ps[i]) { assert IsError(b[i]); }
  }

  // ---------------------------------------------------------------- rendering

  /** What a pattern is made of: literal text, and items with an optional argument in braces. */
  datatype Token = Literal(text: string) | Item(name: string, arg: string)

  function Render(t: Token): string {
    match t
    case Literal(text) => text
    case Item(name, arg) => "%" + name + (if arg == "" then "" else "{" + (arg + "}"))
  }

  function RenderAll(ts: seq<Token>): string {
    if ts == [] then "" else Render(ts[0]) + RenderAll(ts[1..])
  }

  predicate IsTokenText(t: Token) {
    match t
    case Literal(text) => text != "" && forall i :: 0 <= i < |text| ==> text[i] != '%'
    case Item(name, arg) =>
      && name != "" && (forall i :: 0 <= i < |name| ==> IsAlpha(name[i]))
      && forall i :: 0 <= i < |arg| ==> arg[i] != '}'
  }

  /** Literals do not touch, and one behind an item without argument starts with neither letter nor brace. */
  predicate MayFollow(t: Token, u: Token) {
    u.Literal? ==> t.Item? && (t.arg == "" ==> u.text != "" && !InName(u.text[0]) && u.text[0] != '{')
  }

  predicate IsPattern(ts: seq<Token>) {
    && (forall i :: 0 <= i < |ts| ==> IsTokenText(ts[i]))
    && forall i :: 0 < i < |ts| ==> MayFollow(ts[i - 1], ts[i])
  }

  function PieceOf(t: Token): Piece {
    match t
    case Literal(text) => Text(text)
    case Item(name, arg) => Spec(name, arg)
  }

  function PiecesOf(ts: seq<Token>): seq<Piece> {
    if ts == [] then [] else [PieceOf(ts[0])] + PiecesOf(ts[1..])
  }

  /** Literal text is collected. */
  lemma {:induction false} LiteralScan(lit: string, rest: string, text: string)
    requires forall i :: 0 <= i < |lit| ==> lit[i] != '%'
    ensures Scan(lit + rest, text) == Scan(rest, text + lit)
    decreases |lit|
  {
    if lit == "" {
      assert lit + rest == rest && text + lit == text;
    } else {
      assert (lit + rest)[1..] == lit[1..] + rest;
      assert (text + [lit[0]]) + lit[1..] == text + lit;
      LiteralScan(lit[1..], rest, text + [lit[0]]);
    }
  }

  /** A rendered item is read back, when what follows it cannot be taken for part of it. */
  lemma ItemScan(name: string, arg: string, rest: string)
    requires IsTokenText(Item(name, arg))
    requires arg == "" && rest != "" ==> !InName(rest[0]) && rest[0] != '{'
    ensures ItemOf(name + (if arg == "" then "" else "{" + (arg + "}")) + rest) == (Spec(name, arg), rest)
  {
    var k := |name|;
    if arg == "" {
      var s := name + "" + rest;
      assert s[..k] == name && s[k..] == rest;
      assert forall i :: 0 <= i < k ==> s[i] == name[i];
      NameLengthIs(s, k);
    } else {
      BracedItem(name, arg, rest);
      assert name + ("{" + (arg + "}")) + rest == name + ("{" + (arg + ("}" + rest)));
    }
  }

  /** What follows an item is not taken for part of it. */
  lemma RestStarts(ts: seq<Token>, rest: string)
    requires IsPattern(ts) && ts != [] && ts[0].Item? && ts[0].arg == "" && (rest != "" ==> rest[0] == '%')
    ensures var s := RenderAll(ts[1..]) + rest; s != "" ==> !InName(s[0]) && s[0] != '{'
  {
    if |ts| > 1 {
      assert MayFollow(ts[0], ts[1]) && IsTokenText(ts[1]);
      assert RenderAll(ts[1..])[0] == Render(ts[1])[0];
    }
  }

  lemma TailIsPattern(ts: seq<Token>)
    requires IsPattern(ts) && ts != []
    ensures IsPattern(ts[1..]) && (ts[0].Literal? && |ts| > 1 ==> ts[1].Item?)
  {
    forall i | 0 < i < |ts[1..]|
      ensures MayFollow(ts[1..][i - 1], ts[1..][i])
    {
      assert MayFollow(ts[i], ts[i + 1]);
    }
    if |ts| > 1 { assert MayFollow(ts[0], ts[1]); }
  }

  lemma Regroup(name: string, brace: string, more: string, rest: string)
    ensures (("%" + name + brace) + more) + rest == "%" + ((name + brace) + (more + rest))
  {
  }

  lemma ScanItemAt(s: string, rest: string, piece: Piece, text: string)
    requires s != "" && s[0] != '%' && ItemOf(s) == (piece, rest) && !piece.Broken?
    ensures Scan("%" + s, text) == Flush(text) + [piece] + Scan(rest, "")
  {
    hide ItemOf;
    assert ("%" + s)[1..] == s;
  }

  /** The scan of a rendered list whose first token is an item. */
  lemma FirstItem(ts: seq<Token>, rest: string, text: string)
    requires IsPattern(ts) && ts != [] && ts[0].Item? && (rest != "" ==> rest[0] == '%')
    ensures Scan(RenderAll(ts) + rest, text) == Flush(text) + [PieceOf(ts[0])] + Scan(RenderAll(ts[1..]) + rest, "")
  {
    var t := ts[0];
    assert IsTokenText(t);
    var more := RenderAll(ts[1..]) + rest;
    if t.arg == "" { RestStarts(ts, rest); }
    ItemScan(t.name, t.arg, more);
    var brace := if t.arg == "" then "" else "{" + (t.arg + "}");
    var s := t.name + brace + more;
    assert s[0] == t.name[0] && IsAlpha(t.name[0]);
    assert RenderAll(ts) == ("%" + t.name + brace) + RenderAll(ts[1..]);
    hide *;
    Regroup(t.name, brace, RenderAll(ts[1..]), rest);
    ScanItemAt(s, more, Spec(t.name, t.arg), text);
  }

  /** The scan of a rendered list whose first token is a literal. */
  lemma FirstLiteral(ts: seq<Token>, rest: string)
    requires IsPattern(ts) && ts != [] && ts[0].Literal?
    ensures Scan(RenderAll(ts) + rest, "") == Scan(RenderAll(ts[1..]) + rest, ts[0].text)
  {
    var t, more := ts[0], RenderAll(ts[1..]);
    assert IsTokenText(t);
    assert RenderAll(ts) == t.text + more && "" + t.text == t.text;
    LiteralScan(t.text, more + rest, "");
    hide *;
    Assoc(t.text, more, rest);
  }

  lemma {:induction false} RenderedPieces(ts: seq<Token>, text: string)
    requires IsPattern(ts) && (text != "" && ts != [] ==> ts[0].Item?)
    ensures Scan(RenderAll(ts), text) == Flush(text) + PiecesOf(ts)
    decreases |ts|
  {
    if ts == [] {
      ScanNothing(text);
      assert Flush(text) + [] == Flush(text);
    } else {
      var more, tail := RenderAll(ts[1..]), PiecesOf(ts[1..]);
      assert RenderAll(ts) + "" == RenderAll(ts) && more + "" == more;
      TailIsPattern(ts);
      if ts[0].Item? {
        FirstItem(ts, "", text);
        RenderedPieces(ts[1..], "");
        GlueItem(text, PieceOf(ts[0]), tail);
      } else {
        FirstLiteral(ts, "");
        LiteralIsNotEmpty(ts);
        RenderedPieces(ts[1..], ts[0].text);
        GlueLiteral(ts[0].text, tail);
      }
      assert PiecesOf(ts) == [PieceOf(ts[0])] + tail;
      hide *;
    }
  }

  lemma GlueItem(text: string, p: Piece, tail: seq<Piece>)
    ensures Flush(text) + [p] + (Flush("") + tail) == Flush(text) + ([p] + tail)
  {
  }

  lemma GlueLiteral(text: string, tail: seq<Piece>)
    requires text != ""
    ensures Flush(text) + tail == Flush("") + ([Text(text)] + tail)
  {
  }

  lemma ScanNothing(text: string)
    ensures Scan("", text) == Flush(text)
  {
  }

  lemma LiteralIsNotEmpty(ts: seq<Token>)
    requires IsPattern(ts) && ts != [] && ts[0].Literal?
    ensures ts[0].text != ""
  {
    assert IsTokenText(ts[0]);
  }

  /** The items a token list asks for. */
  function ItemFor(t: Token): FormatItem {
    match t
    case Literal(text) => Plain(text)
    case Item(name, arg) => Kind(name, arg)
  }

  lemma {:induction false} PiecesAre(ts: seq<Token>)
    ensures |PiecesOf(ts)| == |ts| && forall i :: 0 <= i < |ts| ==> PiecesOf(ts)[i] == PieceOf(ts[i])
  {
    if ts != [] {
      PiecesAre(ts[1..]);
    }
  }

  /**
   The scanner inverts rendering: a rendered list of known items and literals is read back as that
   list, without error.
   */
  lemma ScannerRoundTrip(ts: seq<Token>)
    requires IsPattern(ts) && forall i :: 0 <= i < |ts| && ts[i].Item? ==> ts[i].name in KINDS
    ensures var ps := Scan(RenderAll(ts), "");
            !AnyError(ps) && |ps| == |ts| && forall i :: 0 <= i < |ts| ==> ResolveAll(ps)[i] == ItemFor(ts[i])
  {
    RenderedPieces(ts, "");
    PiecesAre(ts);
    assert Flush("") + PiecesOf(ts) == PiecesOf(ts);
    var ps := PiecesOf(ts);
    forall i | 0 <= i < |ts|
      ensures Resolve(ps[i]) == ItemFor(ts[i]) && !IsError(ps[i])
    {
      KnownResolves(ts[i]);
    }
    hide Resolve, ItemFor, IsError, PieceOf, PiecesOf, Scan, RenderAll;
  }

  lemma KnownResolves(t: Token)
    requires t.Item? ==> t.name in KINDS
    ensures Resolve(PieceOf(t)) == ItemFor(t) && !IsError(PieceOf(t))
  {
    hide KINDS;
  }

  predicate IsUnknown(t: Token) {
    t.Item? && t.name !in KINDS
  }

  /** A rendered list is an error if and only if one of its items is unknown. */
  lemma ErrorIffUnknown(ts: seq<Token>)
    requires IsPattern(ts)
    ensures AnyError(Scan(RenderAll(ts), "")) <==> exists i :: 0 <= i < |ts| && IsUnknown(ts[i])
  {
    RenderedPieces(ts, "");
    PiecesAre(ts);
    assert forall t: Token :: IsError(PieceOf(t)) == IsUnknown(t);
    hide IsError, IsUnknown, PieceOf, Scan, IsPattern, RenderAll, PiecesOf;
    var ps := PiecesOf(ts);
    assert Scan(RenderAll(ts), "") == ps;
    if AnyError(ps) {
      var i :| 0 <= i < |ps| && IsError(ps[i]);
      assert IsUnknown(ts[i]);
    }
    if i :| 0 <= i < |ts| && IsUnknown(ts[i]) {
      assert IsError(ps[i]);
    }
  }

  lemma ErrorBehind(a: seq<Piece>, b: seq<Piece>)
    requires AnyError(b)
    ensures AnyError(a + b)
  {
    var i :| 0 <= i < |b| && IsError(b[i]);
    assert (a + b)[|a| + i] == b[i];
  }

  /** A text with an open brace at its end: the scanner never gets out of it. */
  function Open(name: string, tail: string): string {
    "%" + (name + ("{" + tail))
  }

  /** An item's name in front of a brace, and no brace that closes. */
  predicate IsOpen(name: string, tail: string) {
    (forall i :: 0 <= i < |name| ==> IsAlpha(name[i])) && forall i :: 0 <= i < |tail| ==> tail[i] != '}'
  }

  /** An item in front of a text that starts one and closes none: it takes that text whole, or not at all. */
  lemma ItemInFront(q: string, u: string) returns (w: string)
    requires u != "" && u[0] == '%' && forall i :: 0 <= i < |u| ==> u[i] != '}'
    ensures ItemOf(q + u).0.Broken? || (|w| <= |q| && ItemOf(q + u).1 == w + u)
  {
    hide IndexOf, NameLength;
    var s := q + u;
    var k := NameLength(s);
    assert s[|q|] == '%';
    w := "";
    if k == |q| {
      assert s[k..] == u && w + u == u;
    } else if s[k] != '{' {
      w := q[k..];
      assert s[k..] == w + u;
    } else {
      var tail := s[k + 1..];
      var n := IndexOf(tail, '}');
      if n < |tail| {
        assert tail == q[k + 1..] + u;
        assert n < |q| - (k + 1);
        w := q[k + n + 2..];
        assert tail[n + 1..] == w + u;
      }
    }
  }

  lemma NoBraceCloses(name: string, tail: string)
    requires IsOpen(name, tail)
    ensures forall i :: 0 <= i < |Open(name, tail)| ==> Open(name, tail)[i] != '}'
  {
  }

  /** A brace that never closes is an error, whatever stands before it. */
  lemma {:induction false} OpenBraceIsError(p: string, name: string, tail: string, text: string)
    requires IsOpen(name, tail)
    ensures AnyError(Scan(p + Open(name, tail), text))
    decreases |p|
  {
    hide AnyError, IsOpen, ItemOf, IndexOf, NameLength;
    var u := Open(name, tail);
    var s := p + u;
    if p == "" {
      assert s == u;
      OpenBrace(name, tail, text);
    } else {
      var q := p[1..];
      assert s[1..] == q + u && s[0] == p[0];
      if p[0] != '%' {
        OpenBraceIsError(q, name, tail, text + [p[0]]);
      } else if s[1] == '%' {
        OpenBraceIsError(q, name, tail, text + "%");
      } else {
        NoBraceCloses(name, tail);
        var w := ItemInFront(q, u);
        var (piece, rest) := ItemOf(q + u);
        if piece.Broken? {
          BrokenIsError(piece, Scan(rest, text));
        } else {
          OpenBraceIsError(w, name, tail, "");
          ErrorBehind(Flush(text) + [piece], Scan(rest, ""));
        }
      }
    }
  }

  lemma BrokenIsError(piece: Piece, more: seq<Piece>)
    requires piece.Broken?
    ensures AnyError([piece] + more)
  {
    assert IsError(([piece] + more)[0]);
  }

  lemma OpenBrace(name: string, tail: string, text: string)
    requires IsOpen(name, tail)
    ensures AnyError(Scan(Open(name, tail), text))
  {
    var s := name + ("{" + tail);
    var k := |name|;
    assert s[..k] == name && s[k + 1..] == tail;
    assert forall i :: 0 <= i < k ==> s[i] == name[i];
    NameLengthIs(s, k);
    IndexIs(tail, '}', |tail|);
    assert ItemOf(s) == (Broken(name), "");
    hide ItemOf;
    var p := "%" + s;
    assert p[1..] == s;
    ScanNothing(text);
    assert Scan(p, text) == [Broken(name)] + Flush(text);
    assert IsError(Scan(p, text)[0]);
  }

  lemma ErrorsOf(a: seq<Piece>, b: seq<Piece>)
    ensures AnyError(a + b) <==> AnyError(a) || AnyError(b)
  {
    if AnyError(a) {
      var i :| 0 <= i < |a| && IsError(a[i]);
      assert IsError((a + b)[i]);
    }
    if AnyError(b) { ErrorBehind(a, b); }
  }

  lemma TextIsNoError(text: string)
    ensures !AnyError(Flush(text))
  {
  }

  /** Whether a pattern is in error does not depend on the literal text collected in front of it. */
  lemma {:induction false} ErrorIgnoresText(s: string, a: string, b: string)
    ensures AnyError(Scan(s, a)) == AnyError(Scan(s, b))
    decreases |s|
  {
    hide AnyError, ItemOf, Flush;
    TextIsNoError(a);
    TextIsNoError(b);
    if s != "" {
      if s[0] != '%' {
        ErrorIgnoresText(s[1..], a + [s[0]], b + [s[0]]);
      } else if |s| > 1 && s[1] == '%' {
        ErrorIgnoresText(s[1..], a + "%", b + "%");
      } else {
        var (piece, rest) := ItemOf(s[1..]);
        if piece.Broken? {
          BrokenIsError(piece, Scan(rest, a));
          BrokenIsError(piece, Scan(rest, b));
        } else {
          var tail := [piece] + Scan(rest, "");
          assert Flush(a) + [piece] + Scan(rest, "") == Flush(a) + tail;
          assert Flush(b) + [piece] + Scan(rest, "") == Flush(b) + tail;
          ErrorsOf(Flush(a), tail);
          ErrorsOf(Flush(b), tail);
        }
      }
    }
  }

  /**
   A doubled percent sign does not quote one: behind it an item starts all the same, so the pattern is in
   error if and only if the one with a single percent sign is.
   */
  lemma DoubledPercent(rest: string, text: string)
    ensures AnyError(Scan("%%" + rest, text)) == AnyError(Scan("%" + rest, text))
    ensures Scan("%%" + rest, text) == Scan("%" + rest, text + "%")
  {
    hide AnyError;
    assert ("%%" + rest)[1..] == "%" + rest;
    ErrorIgnoresText("%" + rest, text + "%", text);
  }
}
