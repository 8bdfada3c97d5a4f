/** What numbers and names mean as texts: place values, signs and prefixes, letters in either case. */
module Numerals {
  import opened Wrappers
  import opened HttpText
  import opened HttpMessages

  function Power(base: nat, k: nat): (p: nat)
    ensures base > 0 ==> p > 0
  {
    if k == 0 then 1 else base * Power(base, k - 1)
  }

  // ---------------------------------------------------------------- place values

  /** The digit for a value below sixteen. */
  lemma DigitIsItsValue(c: char)
    requires IsHex(c)
    ensures DigitValue(c) < 16 && "0123456789abcdef"[DigitValue(c)] == Lower(c)
    ensures IsDigit(c) <==> DigitValue(c) < 10
  {
  }

  function Base(base: nat): nat {
    if base == 16 then 16 else 10
  }

  lemma DigitAlone(c: char, base: nat)
    requires IsDigitIn(c, base)
    ensures Value([c], base) == DigitValue(c) < Base(base)
  {
    DigitIsItsValue(c);
    assert [c][..0] == "";
  }

  /** What stands in front of k digits counts for the k-th power of the base. */
  lemma {:induction false} PlaceValues(a: string, b: string, base: nat)
    requires AllDigits(a, base) && AllDigits(b, base)
    ensures AllDigits(a + b, base)
    ensures Value(a + b, base) == Value(a, base) * Power(Base(base), |b|) + Value(b, base)
    decreases |b|
  {
    if b == "" {
      assert a + b == a;
    } else {
      var front, s := b[..|b| - 1], a + b;
      PlaceValues(a, front, base);
      assert s[..|s| - 1] == a + front && s[|s| - 1] == b[|b| - 1];
      OneMorePlace(Value(a, base), Base(base), Power(Base(base), |b| - 1));
    }
  }

  lemma OneMorePlace(v: nat, b: nat, p: nat)
    ensures b * (v * p) == v * (b * p)
  {
  }

  /** A number is printed without leading zeros. */
  lemma {:induction false} NoLeadingZero(n: nat)
    ensures Decimal(n)[0] == '0' <==> n == 0
    decreases n
  {
    if n >= 10 { NoLeadingZero(n / 10); }
  }

  // ---------------------------------------------------------------- names

  /** Two letters that differ in case only. */
  predicate SameLetter(a: char, b: char) {
    || a == b
    || ('A' <= a <= 'Z' && b as int == a as int + 32)
    || ('A' <= b <= 'Z' && a as int == b as int + 32)
  }

  lemma LowerAlike(a: char, b: char)
    ensures Lower(a) == Lower(b) <==> SameLetter(a, b)
  {
  }

  /** Names fold to the same key if and only if they differ in the case of letters only. */
  lemma FoldsAlike(a: string, b: string)
    ensures Fold(a) == Fold(b) <==> |a| == |b| && forall i :: 0 <= i < |a| ==> SameLetter(a[i], b[i])
  {
    hide Fold, Lower, SameLetter;
    var x, y := Fold(a), Fold(b);
    if |a| == |b| {
      forall i | 0 <= i < |a|
        ensures x[i] == y[i] <==> SameLetter(a[i], b[i])
      {
        LowerAlike(a[i], b[i]);
      }
      assert x == y <==> forall i :: 0 <= i < |a| ==> x[i] == y[i];
    }
  }

  // ---------------------------------------------------------------- content-length

  /** An optional sign and digits. */
  predicate IsSigned(sign: string, digits: string) {
    (sign == "" || sign == "+" || sign == "-") && digits != "" && AllDigits(digits, 10)
  }

  /**
   The value of a content-length.  An optional sign and digits for a number below 2^64 are that number, or
   its negative, modulo 2^64, as a signed word; so a number from 2^63 up is negative, and the negative of
   such a number is positive.
   */
  lemma LengthOfNumber(h: Headers, sign: string, digits: string)
    requires IsSigned(sign, digits) && Value(digits, 10) < 0x1_0000_0000_0000_0000
    requires "content-length" in h && h["content-length"].1 == sign + digits
    ensures var n: int, v: int := ContentLength(h), Value(digits, 10);
            && -0x8000_0000_0000_0000 <= n < 0x8000_0000_0000_0000
            && (if sign == "-" then n == -v || n == 0x1_0000_0000_0000_0000 - v
                else n == v || n == v - 0x1_0000_0000_0000_0000)
  {
    SignedIsRead(sign, digits);
  }

  lemma SignedIsRead(sign: string, digits: string)
    requires IsSigned(sign, digits)
    ensures var v := Value(digits, 10);
            LexicalUInt64(sign + digits) ==
              if v >= 0x1_0000_0000_0000_0000 then None
              else if sign == "-" && v > 0 then Some(0x1_0000_0000_0000_0000 - v)
              else Some(v)
  {
    hide DigitSpan, Value;
    var t := sign + digits;
    assert IsDigitIn(digits[0], 10);
    SpanOfAll(digits);
    if sign == "" { assert t == digits; } else { assert t[1..] == digits; }
  }

  lemma {:induction false} SpanOfAll(s: string)
    requires AllDigits(s, 10)
    ensures DigitSpan(s, 10) == |s|
    decreases |s|
  {
    if s != "" {
      assert IsDigitIn(s[0], 10);
      SpanOfAll(s[1..]);
    }
  }

  /** Anything else is no length: the body is empty. */
  lemma NoLength(h: Headers)
    requires "content-length" in h ==>
               forall sign, digits :: IsSigned(sign, digits) && h["content-length"].1 == sign + digits ==>
                 Value(digits, 10) >= 0x1_0000_0000_0000_0000
    ensures ContentLength(h) == 0 && BodyLength(h) == 0
  {
    var t := GetHeader(h, "content-length");
    if "content-length" in h && LexicalUInt64(t).Some? {
      var signed := t != "" && (t[0] == '-' || t[0] == '+');
      var sign, digits := if signed then t[..1] else "", if signed then t[1..] else t;
      assert t == sign + digits;
      AllOfSpan(digits);
      assert IsSigned(sign, digits);
      SignedIsRead(sign, digits);
    }
  }

  lemma AllOfSpan(s: string)
    ensures DigitSpan(s, 10) >= |s| ==> AllDigits(s, 10)
  {
    if DigitSpan(s, 10) >= |s| { assert s[..|s|] == s; }
  }
}
