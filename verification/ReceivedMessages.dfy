/**
 What a receiver gives back, said of the text that came: the header map line by line, the version and the
 status as they are spelled, and whether the connection closes.
 */
module ReceivedMessages {
  import opened HttpText
  import opened MessageHead
  import opened RequestHead
  import opened HttpMessages
  import opened ByteStream
  import opened Framing
  import opened HeadReceiving
  import opened ParserFlows
  import opened SegmentedReceiving
  import opened ResponseRoundTrip
  import opened ResponseStream
  import opened RequestExchange
  import opened HeaderMaps

  // ---------------------------------------------------------------- responses

  /**
   The headers of a received response.  A key is in the map if and only if it is the folded name of some line of
   the head; looking it up gives the value of the last such line, and its name is spelled as in the first.
   */
  lemma ResponseHeaders(a: Message, s: Arrivals, rest: string)
    requires a.Valid() && Steady(s, BUFFER) && Concat(s) == a.Text() + rest && a.Respected(s, 0)
    ensures var x, g := ReceiveResponse(s), LinesGive(a.lines);
            && x.Got? && var h := x.value.0.headers;
            && (forall key :: key in h <==> Named(g, key))
            && (forall key, i :: FirstOf(g, key, i) ==> key in h && h[key].0 == a.lines[i].name)
            && (forall key, i :: LastOf(g, key, i) ==> GetHeader(h, key) == a.lines[i].value)
            && (forall key :: !Named(g, key) ==> GetHeader(h, key) == "")
  {
    hide *;
    Received(a, s, rest);
    LinesSay(a.lines);
    AnswerSays(a);
    Looked(SetAll(map[], a.lines), LinesGive(a.lines));
    LinesGiveTheirs(a.lines);
  }

  lemma AnswerSays(a: Message)
    requires a.Valid()
    ensures a.st.Valid() && a.Answer().headers == SetAll(map[], a.lines)
  {
  }

  lemma LinesGiveTheirs(lines: seq<Line>)
    ensures forall key, i :: FirstOf(LinesGive(lines), key, i) || LastOf(LinesGive(lines), key, i) ==>
              0 <= i < |lines| && LinesGive(lines)[i] == (lines[i].name, lines[i].value)
  {
    hide LinesGive, Fold;
  }

  /** What looking a name up gives. */
  lemma Looked(h: Headers, g: Given)
    requires SaysAll(h, g)
    ensures forall key :: key in h <==> Named(g, key)
    ensures forall key, i :: FirstOf(g, key, i) ==> 0 <= i < |g| && key in h && h[key].0 == g[i].0
    ensures forall key, i :: LastOf(g, key, i) ==> 0 <= i < |g| && GetHeader(h, key) == g[i].1
    ensures forall key :: !Named(g, key) ==> GetHeader(h, key) == ""
  {
    hide Named, Fold;
    forall key
      ensures (key in h <==> Named(g, key)) && (!Named(g, key) ==> GetHeader(h, key) == "")
      ensures forall i :: FirstOf(g, key, i) ==> 0 <= i < |g| && key in h && h[key].0 == g[i].0
      ensures forall i :: LastOf(g, key, i) ==> 0 <= i < |g| && GetHeader(h, key) == g[i].1
    {
      assert Says(h, g, key);
    }
  }

  /** Its version is the one that stands in the status line, which can only be 1.1 or 1.0. */
  lemma ResponseVersion(a: Message, s: Arrivals, rest: string)
    requires a.Valid() && Steady(s, BUFFER) && Concat(s) == a.Text() + rest && a.Respected(s, 0)
    ensures var x := ReceiveResponse(s);
            && x.Got? && a.st.major == "1"
            && ((a.st.minor == "1" && x.value.0.version == 0x11) || (a.st.minor == "0" && x.value.0.version == 0x10))
  {
    hide *;
    Received(a, s, rest);
    AnswerVersion(a);
    KnownVersions(a.st);
  }

  lemma AnswerVersion(a: Message)
    requires a.Valid()
    ensures a.st.Valid() && a.Answer().version == VersionByte(VersionText(a.st.major, a.st.minor))
  {
  }

  /** The version texts that the callback knows. */
  lemma KnownVersions(st: Status)
    requires st.Valid()
    ensures var v := VersionByte(VersionText(st.major, st.minor));
            st.major == "1" && ((st.minor == "1" && v == 0x11) || (st.minor == "0" && v == 0x10))
  {
    var t := VersionText(st.major, st.minor);
    assert t[5] == st.major[0] && t[5 + |st.major|] == '.' && t[6 + |st.major|] == st.minor[0];
    assert |t| == 6 + |st.major| + |st.minor|;
    var w := if t <= "HTTP/1.1" then "HTTP/1.1" else "HTTP/1.0";
    assert t <= w && |t| == 8;
    assert st.major == ['1'] && st.minor == [w[7]];
  }

  // ---------------------------------------------------------------- requests

  /** The headers of a received request: the same. */
  lemma RequestHeaders(o: Opening, es: seq<Entry>, body: string, s: Arrivals, rest: string)
    requires o.Valid() && AllEntries(es) && MethodOf(o.verb).Some?
    requires BodyLength(SetEntries(map[], es)) == |body| < 0x8000_0000
    requires Steady(s, BUFFER) && Concat(s) == HeadText(o, es) + (body + rest)
    requires CutsHarmless(REQUESTS, RequestFlow, 1, s, |HeadText(o, es)|)
    ensures var x, g := ReceiveRequest(s), EntriesGive(es);
            && x.Got? && var h := x.value.0.headers;
            && (forall key :: key in h <==> Named(g, key))
            && (forall key, i :: FirstOf(g, key, i) ==> key in h && h[key].0 == es[i].name)
            && (forall key, i :: LastOf(g, key, i) ==> GetHeader(h, key) == es[i].value)
            && (forall key :: !Named(g, key) ==> GetHeader(h, key) == "")
  {
    hide *;
    FixedRequest(o, es, body, s, rest);
    EntriesSay(es);
    RequestSays(o, es, body);
    Looked(SetEntries(map[], es), EntriesGive(es));
    EntriesGiveTheirs(es);
  }

  lemma RequestSays(o: Opening, es: seq<Entry>, body: string)
    requires o.Valid() && MethodOf(o.verb).Some?
    ensures RequestOf(o, es, body).headers == SetEntries(map[], es)
    ensures RequestOf(o, es, body).close == Closing(true, SetEntries(map[], es))
  {
    hide OpeningRequest, SetEntries, MethodOf, Opening.Valid;
  }

  lemma EntriesGiveTheirs(es: seq<Entry>)
    ensures forall key, i :: FirstOf(EntriesGive(es), key, i) || LastOf(EntriesGive(es), key, i) ==>
              0 <= i < |es| && EntriesGive(es)[i] == (es[i].name, es[i].value)
  {
    hide EntriesGive, Fold;
  }

  /** The last entry for a key has a value that folds to the given word. */
  ghost predicate LastFolds(es: seq<Entry>, key: string, word: string) {
    exists i :: 0 <= i < |es| && Fold(es[i].name) == key && Fold(es[i].value) == word
                && forall j :: i < j < |es| ==> Fold(es[j].name) != key
  }

  /**
   Whether the connection closes behind a received request.  It stays open if and only if the last connection
   header says "keep-alive", in any case of letters; without one, or with an empty one, it closes.
   */
  lemma RequestCloses(o: Opening, es: seq<Entry>, body: string, s: Arrivals, rest: string)
    requires o.Valid() && AllEntries(es) && MethodOf(o.verb).Some?
    requires BodyLength(SetEntries(map[], es)) == |body| < 0x8000_0000
    requires Steady(s, BUFFER) && Concat(s) == HeadText(o, es) + (body + rest)
    requires CutsHarmless(REQUESTS, RequestFlow, 1, s, |HeadText(o, es)|)
    ensures var x := ReceiveRequest(s);
            x.Got? && (!x.value.0.close <==> LastFolds(es, "connection", "keep-alive"))
  {
    hide *;
    FixedRequest(o, es, body, s, rest);
    EntriesSay(es);
    RequestSays(o, es, body);
    Looked(SetEntries(map[], es), EntriesGive(es));
    ClosesIff(SetEntries(map[], es), es, EntriesGive(es));
  }

  lemma ClosesIff(h: Headers, es: seq<Entry>, g: Given)
    requires |g| == |es| && forall i :: 0 <= i < |es| ==> g[i] == (es[i].name, es[i].value)
    requires forall i :: LastOf(g, "connection", i) ==> 0 <= i < |g| && GetHeader(h, "connection") == g[i].1
    requires !Named(g, "connection") ==> GetHeader(h, "connection") == ""
    ensures !Closing(true, h) <==> LastFolds(es, "connection", "keep-alive")
  {
    hide Fold, GetHeader;
    assert Fold("") == "" by { assert |Fold("")| == 0; }
    if Named(g, "connection") {
      var i := LastNamed(g, "connection");
      assert Fold(es[i].name) == "connection" && GetHeader(h, "connection") == es[i].value;
      forall j | i < j < |es|
        ensures Fold(es[j].name) != "connection"
      {
        assert Fold(g[j].0) != "connection";
      }
      if LastFolds(es, "connection", "keep-alive") {
        var k :| 0 <= k < |es| && Fold(es[k].name) == "connection" && Fold(es[k].value) == "keep-alive"
                 && forall j :: k < j < |es| ==> Fold(es[j].name) != "connection";
        assert k == i;
      }
      if Fold(es[i].value) == "keep-alive" {
        assert es[i].value != "" && LastFolds(es, "connection", "keep-alive");
      }
    } else {
      forall i | 0 <= i < |es|
        ensures Fold(es[i].name) != "connection"
      {
        assert Fold(g[i].0) != "connection";
      }
    }
  }

  /**
   What a response prints about its connection is what its receiver would read: the printed header, taken as
   the closing of a request is, gives back the flag, whatever the flag was before.
   */
  lemma CloseRoundTrip(r: Response, order: seq<string>, s: Arrivals)
    requires Printable(r) && Enumerates(order, r.headers)
    requires Steady(s, BUFFER) && Concat(s) == Dump(r, order)
    requires var start, lines := StatusOf(r).Text(), DumpLines(r, order);
             CutsAtLineEnds(s, |start|, lines, |start| + |BlockText(lines)| + 2)
    ensures var x := ReceiveResponse(s);
            x.Got? && var h := x.value.0.headers;
            && GetHeader(h, "connection") == (if r.close then "close" else "keep-alive")
            && forall before :: Closing(before, h) == r.close
  {
    hide *;
    RoundTrip(r, order, s);
    PrintedCloses(r, ReceiveResponse(s).value.0);
  }

  lemma PrintedCloses(r: Response, y: Response)
    requires ComesBack(r, y)
    ensures GetHeader(y.headers, "connection") == (if r.close then "close" else "keep-alive")
    ensures forall before :: Closing(before, y.headers) == r.close
  {
    hide Fold;
    FoldOfLower("close");
    FoldOfLower("keep-alive");
    assert "close"[0] != "keep-alive"[0];
  }

  /** Of the lines for a key there is a last one. */
  lemma {:induction false} LastNamed(g: Given, key: string) returns (i: int)
    requires Named(g, key)
    ensures LastOf(g, key, i)
    decreases |g|
  {
    hide Fold;
    i := |g| - 1;
    if Fold(g[i].0) != key {
      var front := g[..i];
      var k :| 0 <= k < |g| && Fold(g[k].0) == key;
      assert front[k] == g[k];
      i := LastNamed(front, key);
      forall j | i < j < |g|
        ensures Fold(g[j].0) != key
      {
        if j < |front| { assert front[j] == g[j]; }
      }
    }
  }
}
