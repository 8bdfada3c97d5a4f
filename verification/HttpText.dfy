/**
 Characters, numbers and case folding as the HTTP code sees them.

 A byte is a `char`.  The parser tables treat every byte from 128 up alike, so the wider
 alphabet of `char` changes nothing.
 */
module HttpText {
  import opened Wrappers

  const CR := '\r'
  const LF := '\n'
  const CRLF: string := "\r\n"

  predicate IsDigit(c: char) {
    '0' <= c <= '9'
  }

  predicate IsHex(c: char) {
    '0' <= c <= '9' || 'A' <= c <= 'F' || 'a' <= c <= 'f'
  }

  /** Horizontal tab, vertical tab, form feed and space: what may stand between ':' and a value. */
  predicate IsBlank(c: char) {
    c == ' ' || c == '\t' || c as int == 11 || c as int == 12
  }

  /** C's isspace. */
  predicate IsSpace(c: char) {
    IsBlank(c) || c == LF || c == CR
  }

  /** The characters of a header name. */
  predicate IsToken(c: char) {
    || c == '!' || '#' <= c <= '\'' || c == '*' || c == '+' || c == '-' || c == '.'
    || '0' <= c <= '9' || 'A' <= c <= 'Z' || '^' <= c <= 'z' || c == '|' || c == '~'
  }

  function Lower(c: char): char {
    if 'A' <= c <= 'Z' then (c as int + 32) as char else c
  }

  function Fold(s: string): (r: string)
    ensures |r| == |s| && forall i :: 0 <= i < |s| ==> r[i] == Lower(s[i])
  {
    if s == "" then "" else [Lower(s[0])] + Fold(s[1..])
  }

  /** Where c first stands; the length when it does not. */
  function IndexOf(s: string, c: char): (k: nat)
    ensures k <= |s| && (k < |s| ==> s[k] == c) && forall i :: 0 <= i < k ==> s[i] != c
  {
    if s == "" || s[0] == c then 0
    else
      var k := IndexOf(s[1..], c);
      assert forall i :: 1 <= i < |s| ==> s[i] == s[1..][i - 1];
      k + 1
  }

  predicate AllDigits(s: string, base: int) {
    forall i :: 0 <= i < |s| ==> IsDigitIn(s[i], base)
  }

  /** Digits of base 10 or 16; strtol is called with no other base. */
  predicate IsDigitIn(c: char, base: int) {
    if base == 16 then IsHex(c) else IsDigit(c)
  }

  function DigitValue(c: char): nat
    requires IsHex(c)
  {
    if c <= '9' then c as int - '0' as int
    else if c <= 'F' then c as int - 'A' as int + 10
    else c as int - 'a' as int + 10
  }

  /** The number a run of digits stands for. */
  function Value(s: string, base: nat): nat
    requires AllDigits(s, base)
  {
    if s == "" then 0
    else
      var d := DigitValue(s[|s| - 1]);
      if base == 16 then 16 * Value(s[..|s| - 1], base) + d else 10 * Value(s[..|s| - 1], base) + d
  }

  function DigitSpan(s: string, base: int): (k: nat)
    ensures k <= |s| && AllDigits(s[..k], base)
    ensures k < |s| ==> !IsDigitIn(s[k], base)
  {
    if s == "" || !IsDigitIn(s[0], base) then 0
    else
      var k := 1 + DigitSpan(s[1..], base);
      assert forall i :: 0 < i < k ==> s[i] == s[1..][i - 1];
      k
  }

  function SkipSpace(s: string): string {
    if s != "" && IsSpace(s[0]) then SkipSpace(s[1..]) else s
  }

  /** A 64-bit value stored into a 32-bit int. */
  function ToInt32(n: int): int {
    var m := n % 0x1_0000_0000;
    if m < 0x8000_0000 then m else m - 0x1_0000_0000
  }

  function Clamp64(n: int): int {
    if n > 0x7fff_ffff_ffff_ffff then 0x7fff_ffff_ffff_ffff
    else if n < -0x8000_0000_0000_0000 then -0x8000_0000_0000_0000
    else n
  }

  /** C's strtol on the text up to the terminating NUL, for base 10 and base 16. */
  function Strtol(s: string, base: nat): int {
    var t := SkipSpace(s);
    var signed := t != "" && (t[0] == '-' || t[0] == '+');
    var u := if signed then t[1..] else t;
    var prefixed := base == 16 && |u| > 2 && u[0] == '0' && (u[1] == 'x' || u[1] == 'X') && IsHex(u[2]);
    var v := if prefixed then u[2..] else u;
    var n: int := Value(v[..DigitSpan(v, base)], base);
    Clamp64(if signed && t[0] == '-' then -n else n)
  }

  /** On a run of digits that something else ends, strtol is just the value of the run. */
  lemma StrtolOfRun(s: string, k: nat, base: nat)
    requires 0 < k <= |s| && AllDigits(s[..k], base)
    requires k < |s| ==> !IsDigitIn(s[k], base) && s[k] != 'x' && s[k] != 'X'
    ensures Strtol(s, base) == Clamp64(Value(s[..k], base))
  {
    assert s[0] == s[..k][0];
    assert SkipSpace(s) == s;
    assert k > 1 ==> IsDigitIn(s[1], base) by {
      if k > 1 { assert s[1] == s[..k][1]; }
    }
    assert DigitSpan(s, base) == k;
  }

  function Digit(n: nat): char
    requires n < 10
  {
    (n + '0' as int) as char
  }

  /** An unsigned integer as std::ostream prints it. */
  function Decimal(n: nat): (s: string)
    ensures s != "" && AllDigits(s, 10)
  {
    if n < 10 then [Digit(n)] else Decimal(n / 10) + [Digit(n % 10)]
  }

  lemma {:induction false} ValueOfDecimal(n: nat)
    ensures Value(Decimal(n), 10) == n
  {
    var s := Decimal(n);
    if n < 10 {
      assert s[..0] == "";
    } else {
      ValueOfDecimal(n / 10);
      assert s[..|s| - 1] == Decimal(n / 10);
    }
  }

  /** boost::lexical_cast<uint64_t>: an optional sign, then digits and nothing else. */
  function LexicalUInt64(s: string): Option<nat> {
    var signed := s != "" && (s[0] == '-' || s[0] == '+');
    var d := if signed then s[1..] else s;
    if d == "" || DigitSpan(d, 10) < |d| then None
    else
      assert d[..|d|] == d;
      var v := Value(d, 10);
      if v >= 0x1_0000_0000_0000_0000 then None
      else if signed && s[0] == '-' then Some((0x1_0000_0000_0000_0000 - v) % 0x1_0000_0000_0000_0000)
      else Some(v)
  }

  lemma LexicalOfDecimal(n: nat)
    requires n < 0x1_0000_0000_0000_0000
    ensures LexicalUInt64(Decimal(n)) == Some(n)
  {
    var s := Decimal(n);
    ValueOfDecimal(n);
    assert DigitSpan(s, 10) == |s|;
    assert IsDigitIn(s[0], 10);
  }

  lemma Assoc(a: string, b: string, c: string)
    ensures (a + b) + c == a + (b + c)
  {
  }

  /** Equal texts, cut at the same length. */
  lemma SplitAt(a: string, b: string, x: string, y: string)
    requires a + b == x + y && |a| == |x|
    ensures a == x && b == y
  {
    assert (a + b)[..|a|] == a && (a + b)[|a|..] == b;
    assert (x + y)[..|x|] == x && (x + y)[|x|..] == y;
  }
}
