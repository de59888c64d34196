/**
What integers mean in a configuration text: decimal, octal after a leading zero, hexadecimal
after `0x`, with either sign, up to the limits of 64 bits.
*/
module ConfigNumbers {
  import opened ConfigText
  import opened ConfigRoundTrip
  import opened Words

  const LOWER := "0123456789abcdef"
  const UPPER := "0123456789ABCDEF"

  function DigitChar(d: nat, upper: bool): char
    requires d < 16
  {
    if upper then UPPER[d] else LOWER[d]
  }

  /** A number in positional notation. */
  function Numeral(n: nat, base: nat, upper: bool): (s: string)
    requires 2 <= base <= 16
    ensures s != ""
  {
    if n < base then [DigitChar(n, upper)] else Numeral(n / base, base, upper) + [DigitChar(n % base, upper)]
  }

  /** No digit of the base follows. */
  ghost predicate EndsNumeral(t: string, base: nat)
    requires base <= 16
  {
    t == "" || forall d: nat, upper: bool :: d < base ==> t[0] != DigitChar(d, upper)
  }

  datatype Sign = Unsigned | Plus | Minus

  function SignText(sign: Sign): string {
    match sign
    case Unsigned => ""
    case Plus => "+"
    case Minus => "-"
  }

  /** The number meant, within 64 bits. */
  function Meant(n: nat, sign: Sign): int {
    var m: int := if sign == Minus then -(n as int) else n;
    if m > 0x7FFF_FFFF_FFFF_FFFF then 0x7FFF_FFFF_FFFF_FFFF
    else if m < -0x8000_0000_0000_0000 then -0x8000_0000_0000_0000
    else m
  }

  // ----- digits -----

  lemma DigitValueIs(d: nat, upper: bool)
    requires d < 16
    ensures DigitValue(DigitChar(d, upper)) == d
  {
  }

  lemma OnlyDigitsHaveValues(c: char)
    requires DigitValue(c) < 16
    ensures c == DigitChar(DigitValue(c), false) || c == DigitChar(DigitValue(c), true)
  {
    if 'a' <= c <= 'f' { assert c == LOWER[c as int - 'a' as int + 10]; }
    if 'A' <= c <= 'F' { assert c == UPPER[c as int - 'A' as int + 10]; }
  }

  lemma StopsAtEnd(acc: nat, t: string, base: nat)
    requires 2 <= base <= 16 && EndsNumeral(t, base)
    ensures Digits(acc, t, base) == acc
  {
    if t != "" && DigitValue(t[0]) < base { OnlyDigitsHaveValues(t[0]); }
  }

  lemma OneDigit(acc: nat, d: nat, upper: bool, t: string, base: nat)
    requires d < base <= 16
    ensures Digits(acc, [DigitChar(d, upper)] + t, base) == Digits(acc * base + d, t, base)
  {
    DigitValueIs(d, upper);
    assert ([DigitChar(d, upper)] + t)[1..] == t;
  }

  lemma {:induction false} DigitsOfNumeral(n: nat, base: nat, upper: bool, t: string)
    requires 2 <= base <= 16
    ensures Digits(0, Numeral(n, base, upper) + t, base) == Digits(n, t, base)
    decreases n
  {
    hide Digits, DigitChar, Numeral;
    NumeralIs(n, base, upper);
    if n < base {
      OneDigit(0, n, upper, t, base);
    } else {
      var q, d := n / base, n % base;
      DivSmaller(n, base);
      var u := [DigitChar(d, upper)] + t;
      DigitsOfNumeral(q, base, upper, u);
      Associative(Numeral(q, base, upper), [DigitChar(d, upper)], t);
      OneDigit(q, d, upper, t, base);
    }
  }

  lemma NumeralIs(n: nat, base: nat, upper: bool)
    requires 2 <= base <= 16
    ensures Numeral(n, base, upper) ==
      if n < base then [DigitChar(n, upper)] else Numeral(n / base, base, upper) + [DigitChar(n % base, upper)]
  {
  }

  lemma DivSmaller(n: nat, base: nat)
    requires 2 <= base <= n
    ensures 0 <= n / base < n && 0 <= n % base < base && n / base * base + n % base == n
  {
  }

  lemma {:induction false} FirstDigit(n: nat, base: nat, upper: bool) returns (d: nat)
    requires 2 <= base <= 16
    ensures d < base && Numeral(n, base, upper)[0] == DigitChar(d, upper) && (n > 0 ==> d > 0)
    decreases n
  {
    if n < base { d := n; } else { d := FirstDigit(n / base, base, upper); }
  }

  // ----- strtoll with base 0 -----

  lemma SignedIs(sign: Sign, s: string, n: nat)
    requires s != "" && s[0] != '-' && s[0] != '+' && Magnitude(s) == n
    ensures Strtoll(SignText(sign) + s) == Meant(n, sign)
  {
    hide Magnitude;
    var u := SignText(sign) + s;
    if sign == Unsigned { assert u == s; } else { assert u[1..] == s; }
  }

  /** After a leading zero the digits are octal: `077` is 63. */
  lemma OctalReads(n: nat, sign: Sign, t: string)
    requires EndsNumeral(t, 8)
    ensures Strtoll(SignText(sign) + ("0" + Numeral(n, 8, false) + t)) == Meant(n, sign)
  {
    hide Digits, Numeral, Strtoll, SignText, Meant;
    var u := Numeral(n, 8, false) + t;
    var s := "0" + u;
    var d := FirstDigit(n, 8, false);
    assert s[0] == '0' && s[1] == DigitChar(d, false);
    assert s == [DigitChar(0, false)] + u;
    OneDigit(0, 0, false, u, 8);
    DigitsOfNumeral(n, 8, false, t);
    StopsAtEnd(n, t, 8);
    assert "0" + Numeral(n, 8, false) + t == s;
    SignedIs(sign, s, n);
  }

  /** After `0x` they are hexadecimal, in either case. */
  lemma HexReads(n: nat, sign: Sign, x: char, upper: bool, t: string)
    requires EndsNumeral(t, 16) && (x == 'x' || x == 'X')
    ensures Strtoll(SignText(sign) + (['0', x] + Numeral(n, 16, upper) + t)) == Meant(n, sign)
  {
    hide Digits, Numeral, Strtoll, SignText, Meant;
    var u := Numeral(n, 16, upper) + t;
    var s := ['0', x] + u;
    var d := FirstDigit(n, 16, upper);
    assert s[2] == DigitChar(d, upper) && s[2..] == u;
    DigitValueIs(d, upper);
    DigitsOfNumeral(n, 16, upper, t);
    StopsAtEnd(n, t, 16);
    assert ['0', x] + Numeral(n, 16, upper) + t == s;
    SignedIs(sign, s, n);
  }

  /** Without a leading zero they are decimal. */
  lemma DecimalReads(n: nat, sign: Sign, t: string)
    requires n > 0 && EndsNumeral(t, 10)
    ensures Strtoll(SignText(sign) + (Numeral(n, 10, false) + t)) == Meant(n, sign)
  {
    hide Digits, Numeral, Strtoll, SignText, Meant;
    var s := Numeral(n, 10, false) + t;
    var d := FirstDigit(n, 10, false);
    assert s[0] == DigitChar(d, false);
    DigitsOfNumeral(n, 10, false, t);
    StopsAtEnd(n, t, 10);
    SignedIs(sign, s, n);
  }

  /** A zero alone, unless hexadecimal digits follow it after an `x`. */
  lemma ZeroReads(sign: Sign, t: string)
    requires EndsNumeral(t, 8)
    requires |t| >= 2 && (t[0] == 'x' || t[0] == 'X') ==> EndsNumeral(t[1..], 16)
    ensures Strtoll(SignText(sign) + ("0" + t)) == 0
  {
    hide Digits, Strtoll, SignText;
    var s := "0" + t;
    assert s == [DigitChar(0, false)] + t;
    OneDigit(0, 0, false, t, 8);
    StopsAtEnd(0, t, 8);
    if |t| >= 2 && (t[0] == 'x' || t[0] == 'X') && DigitValue(t[1]) < 16 {
      OnlyDigitsHaveValues(t[1]);
    }
    SignedIs(sign, s, 0);
  }

  // ----- as values of a setting -----

  /** A value of digits is one token, whatever its first digit. */
  lemma LexDigits(sign: Sign, d: string, t: string)
    requires d != "" && AllDigits(d) && Stops(t)
    ensures Lex(SignText(sign) + d + t, true) == Token(TInt, SignText(sign) + d, t)
  {
    hide NumberTail, IdentifierLen, StringLen, SingleQuotedLen;
    var w := SignText(sign) + d;
    var u := w + t;
    assert u[0] == w[0];
    assert SkipSpace(u) == u;
    assert u[1..] == w[1..] + t;
    NumberTailIs(w[1..], t);
    assert u[..|w|] == w && u[|w|..] == t;
  }

  lemma {:induction false} NumeralIsDigits(n: nat, base: nat)
    requires 2 <= base <= 10
    ensures AllDigits(Numeral(n, base, false))
    decreases n
  {
    hide Numeral;
    NumeralIs(n, base, false);
    if n >= base {
      DivSmaller(n, base);
      NumeralIsDigits(n / base, base);
    }
  }

  /** An octal value in a configuration file. */
  lemma OctalParses(n: nat, sign: Sign, t: string)
    requires Stops(t)
    ensures ParseType(Lex(SignText(sign) + ("0" + Numeral(n, 8, false)) + t, true)) ==
            Ok(Int(Meant(n, sign)), Lex(t, false))
  {
    hide Lex, Numeral, Strtoll, SignText, Meant;
    var d := "0" + Numeral(n, 8, false);
    NumeralIsDigits(n, 8);
    LexDigits(sign, d, t);
    assert SignText(sign) + d + t == SignText(sign) + (d + t);
    OctalReads(n, sign, t);
  }
}
