/**
 A socket as the readers see it: a sequence of arrivals.  A read returns a prefix of the first one,
 as much of it as it asked for; an empty arrival is the peer closing, and so is the end of the list.
 Every way a stream can be cut by reads is some such sequence.
 */
module ByteStream {
  import opened Wrappers

  type Arrivals = seq<string>

  function Concat(s: Arrivals): string {
    if s == [] then "" else s[0] + Concat(s[1..])
  }

  /** One read of at most n bytes; "" when the connection is closed. */
  function Read(s: Arrivals, n: nat): (r: (string, Arrivals))
    ensures |r.0| <= n && r.0 + Concat(r.1) == Concat(s)
  {
    if s == [] then ("", s)
    else if |s[0]| <= n then
      if s[0] == "" then ("", s) else (s[0], s[1..])
    else
      assert ([s[0][n..]] + s[1..])[1..] == s[1..];
      assert s[0] == s[0][..n] + s[0][n..];
      (s[0][..n], [s[0][n..]] + s[1..])
  }

  /** Reads of at most `limit` bytes until `left` bytes have come; None when the stream closes first. */
  function Drain(s: Arrivals, left: nat, limit: nat): (r: Option<(string, Arrivals)>)
    ensures r.Some? ==> |r.value.0| == left && r.value.0 + Concat(r.value.1) == Concat(s)
    decreases left
  {
    if left == 0 then Some(("", s))
    else
      var (got, s') := Read(s, if left < limit then left else limit);
      if got == "" then None
      else
        match Drain(s', left - |got|, limit)
        case None => None
        case Some((t, s'')) =>
          assert (got + t) + Concat(s'') == got + (t + Concat(s''));
          Some((got + t, s''))
  }

  /** What was drained before, and what is drained now. */
  function Prepend(got: string, r: Option<(string, Arrivals)>): Option<(string, Arrivals)> {
    match r
    case None => None
    case Some((t, s)) => Some((got + t, s))
  }

  /** One read of a drain. */
  lemma DrainStep(got: string, s: Arrivals, left: nat, limit: nat)
    requires 0 < left
    ensures var (g, s') := Read(s, if left < limit then left else limit);
            Prepend(got, Drain(s, left, limit)) ==
              if g == "" then None else Prepend(got + g, Drain(s', left - |g|, limit))
  {
    hide Read, Concat;
    var (g, s') := Read(s, if left < limit then left else limit);
    if g != "" && Drain(s', left - |g|, limit).Some? {
      var t := Drain(s', left - |g|, limit).value.0;
      assert (got + g) + t == got + (g + t);
    }
  }

  lemma DrainEnds(r: Option<(string, Arrivals)>, got: string, s: Arrivals, limit: nat)
    requires Prepend("", r) == Prepend(got, Drain(s, 0, limit))
    ensures r == Some((got, s))
  {
    assert got + "" == got;
    if r.Some? {
      assert "" + r.value.0 == r.value.0;
    }
  }

  /** One arrival ends at x. */
  predicate CutAt(s: Arrivals, x: int)
  {
    s != [] && (x == |s[0]| || CutAt(s[1..], x - |s[0]|))
  }

  /** Every arrival holds something, and fits a buffer. */
  predicate Steady(s: Arrivals, limit: nat) {
    forall i :: 0 <= i < |s| ==> 0 < |s[i]| <= limit
  }

  /** With `data` already read: a read ends at x. */
  predicate Boundary(data: string, s: Arrivals, x: int) {
    x == |data| || CutAt(s, x - |data|)
  }

  /** A read ends between lo and hi, or at one of the two. */
  ghost predicate StopsWithin(data: string, s: Arrivals, lo: int, hi: int) {
    exists x :: lo <= x <= hi && Boundary(data, s, x)
  }

  /** The first arrival, and those behind it. */
  lemma SteadyTail(s: Arrivals, limit: nat)
    requires Steady(s, limit) && s != []
    ensures Steady(s[1..], limit) && 0 < |s[0]| <= limit && Concat(s) == s[0] + Concat(s[1..])
  {
  }

  lemma {:induction false} CutsArePositive(s: Arrivals, limit: nat, x: int)
    requires Steady(s, limit) && CutAt(s, x)
    ensures 0 < x <= |Concat(s)|
  {
    if x != |s[0]| {
      CutsArePositive(s[1..], limit, x - |s[0]|);
    }
  }

  /** What reading n bytes does to the cuts. */
  lemma ReadCuts(s: Arrivals, n: nat, limit: nat)
    requires Steady(s, limit) && s != [] && 0 < n
    ensures var (got, s') := Read(s, n);
            && got != "" && Steady(s', limit)
            && (|s[0]| <= n ==> got == s[0])
            && forall x :: x > 0 ==> (CutAt(s', x) <==> CutAt(s, x + |got|))
  {
    var (got, s') := Read(s, n);
    if |s[0]| > n {
      assert s'[1..] == s[1..];
    }
  }

  lemma CutsCompose(s: Arrivals, s1: Arrivals, s2: Arrivals, a: nat, b: nat)
    requires forall x :: x > 0 ==> (CutAt(s1, x) <==> CutAt(s, x + a))
    requires forall x :: x > 0 ==> (CutAt(s2, x) <==> CutAt(s1, x + b))
    ensures forall x :: x > 0 ==> (CutAt(s2, x) <==> CutAt(s, x + (a + b)))
  {
    hide *;
    forall x | x > 0
      ensures CutAt(s2, x) <==> CutAt(s, x + (a + b))
    {
      assert CutAt(s1, x + b) <==> CutAt(s, (x + b) + a);
    }
  }

  /** Draining no more than there is succeeds and takes exactly the next bytes. */
  lemma {:induction false} DrainCuts(s: Arrivals, left: nat, limit: nat, room: nat)
    requires Steady(s, limit) && left <= |Concat(s)| && 0 < room
    ensures var r := Drain(s, left, room);
            && r.Some? && Steady(r.value.1, limit)
            && forall x :: x > 0 ==> (CutAt(r.value.1, x) <==> CutAt(s, x + left))
    decreases left
  {
    hide *;
    DrainOnce(s, left, room);
    if left > 0 {
      SomethingLeft(s);
      var n := if left < room then left else room;
      ReadCuts(s, n, limit);
      var (got, s') := Read(s, n);
      DrainCuts(s', left - |got|, limit, room);
      CutsCompose(s, s', Drain(s', left - |got|, room).value.1, |got|, left - |got|);
    }
  }

  lemma SomethingLeft(s: Arrivals)
    ensures Concat(s) != "" ==> s != []
  {
  }

  /** One read of a drain that goes on. */
  lemma DrainOnce(s: Arrivals, left: nat, room: nat)
    ensures left == 0 ==> Drain(s, left, room) == Some(("", s))
    ensures var n := if left < room then left else room;
            var (got, s') := Read(s, n);
            left > 0 && got != "" && Drain(s', left - |got|, room).Some? ==>
              Drain(s, left, room).Some? && Drain(s, left, room).value.1 == Drain(s', left - |got|, room).value.1
  {
    hide Read, Concat;
  }
}
