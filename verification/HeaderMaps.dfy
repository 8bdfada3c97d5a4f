/**
 What header lines leave in a header map, said of the lines: the last line of a name gives the value, the
 first one the spelling, and nothing else is in the map.
 */
module HeaderMaps {
  import opened HttpText
  import opened MessageHead
  import opened RequestHead
  import opened HttpMessages
  import opened ResponseRoundTrip
  import opened RequestExchange

  /** The names and values that lines or entries give, in order. */
  type Given = seq<(string, string)>

  function LinesGive(lines: seq<Line>): (g: Given)
    ensures |g| == |lines| && forall i :: 0 <= i < |lines| ==> g[i] == (lines[i].name, lines[i].value)
  {
    if lines == [] then [] else LinesGive(lines[..|lines| - 1]) + [(lines[|lines| - 1].name, lines[|lines| - 1].value)]
  }

  function EntriesGive(es: seq<Entry>): (g: Given)
    ensures |g| == |es| && forall i :: 0 <= i < |es| ==> g[i] == (es[i].name, es[i].value)
  {
    if es == [] then [] else EntriesGive(es[..|es| - 1]) + [(es[|es| - 1].name, es[|es| - 1].value)]
  }

  /** Some line has a name that folds to the key. */
  predicate Named(g: Given, key: string) {
    exists i :: 0 <= i < |g| && Fold(g[i].0) == key
  }

  /** Line i is the first whose name folds to the key. */
  predicate FirstOf(g: Given, key: string, i: int) {
    0 <= i < |g| && Fold(g[i].0) == key && forall j :: 0 <= j < i ==> Fold(g[j].0) != key
  }

  /** Line i is the last whose name folds to the key. */
  predicate LastOf(g: Given, key: string, i: int) {
    0 <= i < |g| && Fold(g[i].0) == key && forall j :: i < j < |g| ==> Fold(g[j].0) != key
  }

  /** The map says of one key what the lines say of it. */
  ghost predicate Says(h: Headers, g: Given, key: string) {
    && (key in h <==> Named(g, key))
    && (forall i :: FirstOf(g, key, i) ==> key in h && h[key].0 == g[i].0)
    && (forall i :: LastOf(g, key, i) ==> key in h && h[key].1 == g[i].1)
  }

  ghost predicate SaysAll(h: Headers, g: Given) {
    forall key :: Says(h, g, key)
  }

  /** One more line says something new of its own key only. */
  lemma OwnKey(h: Headers, g: Given, name: string, value: string)
    requires Says(h, g, Fold(name))
    ensures Says(SetHeader(h, name, value), g + [(name, value)], Fold(name))
  {
    hide Fold;
    var key, h', g' := Fold(name), SetHeader(h, name, value), g + [(name, value)];
    assert g'[|g|] == (name, value);
    if key in h {
      forall i | FirstOf(g', key, i)
        ensures FirstOf(g, key, i)
      {
        OldLines(g, (name, value));
        var j :| 0 <= j < |g| && Fold(g[j].0) == key;
        assert Fold(g'[j].0) == key;
      }
    } else {
      assert forall i :: 0 <= i < |g| ==> g'[i] == g[i] && Fold(g[i].0) != key;
    }
  }

  lemma OldLines(g: Given, x: (string, string))
    ensures forall i :: 0 <= i < |g| ==> (g + [x])[i] == g[i]
  {
  }

  lemma OtherKey(g: Given, x: (string, string), key: string)
    requires key != Fold(x.0)
    ensures Named(g + [x], key) <==> Named(g, key)
    ensures forall i :: (FirstOf(g + [x], key, i) <==> FirstOf(g, key, i)) && (LastOf(g + [x], key, i) <==> LastOf(g, key, i))
  {
    hide Fold;
    OldLines(g, x);
    if Named(g, key) {
      var i :| 0 <= i < |g| && Fold(g[i].0) == key;
      assert Fold((g + [x])[i].0) == key;
    }
  }

  lemma StillSays(h: Headers, g: Given, name: string, value: string, key: string)
    requires Says(h, g, key) && key != Fold(name)
    ensures Says(SetHeader(h, name, value), g + [(name, value)], key)
  {
    hide Fold, FirstOf, LastOf, Named;
    OldLines(g, (name, value));
    OtherKey(g, (name, value), key);
    var g' := g + [(name, value)];
    forall i | FirstOf(g', key, i)
      ensures 0 <= i < |g|
    {
      FirstIsThere(g, key, i);
    }
    forall i | LastOf(g', key, i)
      ensures 0 <= i < |g|
    {
      FirstIsThere(g, key, i);
    }
  }

  lemma FirstIsThere(g: Given, key: string, i: int)
    ensures FirstOf(g, key, i) || LastOf(g, key, i) ==> 0 <= i < |g|
  {
  }

  lemma SaysNothing()
    ensures SaysAll(map[], [])
  {
  }

  lemma SaysAllMore(h: Headers, g: Given, name: string, value: string)
    requires SaysAll(h, g)
    ensures SaysAll(SetHeader(h, name, value), g + [(name, value)])
  {
    hide Says, SetHeader, Fold;
    forall key
      ensures Says(SetHeader(h, name, value), g + [(name, value)], key)
    {
      if key == Fold(name) { OwnKey(h, g, name, value); } else { StillSays(h, g, name, value, key); }
    }
  }

  /**
   The header lines of a response.  A key is in the map if and only if some line's name folds to it; the
   value is that of the last such line, and the name is spelled as in the first.
   */
  lemma {:induction false} LinesSay(lines: seq<Line>)
    ensures SaysAll(SetAll(map[], lines), LinesGive(lines))
    decreases |lines|
  {
    hide SetHeader, SaysAll;
    if lines == [] {
      SaysNothing();
    } else {
      var front, l := lines[..|lines| - 1], lines[|lines| - 1];
      LinesSay(front);
      assert lines == front + [l];
      SetAllMore(map[], front, [l]);
      assert [l][1..] == [];
      SaysAllMore(SetAll(map[], front), LinesGive(front), l.name, l.value);
    }
  }

  /** The same for the header entries of a request. */
  lemma {:induction false} EntriesSay(es: seq<Entry>)
    ensures SaysAll(SetEntries(map[], es), EntriesGive(es))
    decreases |es|
  {
    hide SetHeader, SaysAll;
    if es == [] {
      SaysNothing();
    } else {
      var front, e := es[..|es| - 1], es[|es| - 1];
      EntriesSay(front);
      assert es == front + [e];
      SetEntriesMore(map[], front, [e]);
      assert [e][1..] == [];
      SaysAllMore(SetEntries(map[], front), EntriesGive(front), e.name, e.value);
    }
  }
}
