/** Printing numbers: digit generation from the lowest place up, and reversal in place. */
module Numbers {
  import opened Division
  import opened Sequences

  type uint32 = x: int | 0 <= x < 0x1_0000_0000
  type int32 = x: int | -0x8000_0000 <= x < 0x8000_0000
  type Radix = r: int | 2 <= r <= 36 witness 10

  // ----- Numerals -----

  /** The value of a digit character, or -1. */
  function DigitValue(c: char): int {
    if '0' <= c <= '9' then c as int - '0' as int
    else if 'A' <= c <= 'Z' then c as int - 'A' as int + 10
    else -1
  }

  /** The character of a digit. */
  function DigitChar(d: nat): (c: char)
    requires d < 36
    ensures DigitValue(c) == d && c != '\0' && (c == '0' <==> d == 0)
  {
    if d < 10 then ('0' as int + d) as char else ('A' as int + d - 10) as char
  }

  /** The digit characters are those of the lookup table. */
  lemma LookupTable(d: nat)
    requires d < 36
    ensures "0123456789ABCDEFGHIJKLMNOPQRSTUVWXYZ"[d] == DigitChar(d)
  {
  }

  /** The number a string of digits denotes, highest place first. */
  function Denotes(s: string, radix: Radix): int {
    if s == [] then 0
    else Denotes(s[..|s| - 1], radix) * radix + DigitValue(s[|s| - 1])
  }

  predicate AllDigits(s: string, radix: Radix) {
    forall i :: 0 <= i < |s| ==> 0 <= DigitValue(s[i]) < radix
  }

  /** The digits of a positive number, and nothing for zero. */
  function Digits(v: nat, radix: Radix): string {
    if v == 0 then [] else Digits(Quotient(v, radix), radix) + [DigitChar(Remainder(v, radix))]
  }

  /** What itoa leaves in its buffer. */
  function Numeral(v: nat, radix: Radix): string {
    if v == 0 then "0" else Digits(v, radix)
  }

  lemma DenotesAppend(s: string, c: char, radix: Radix)
    ensures Denotes(s + [c], radix) == Denotes(s, radix) * radix + DigitValue(c)
  {
    assert (s + [c])[..|s|] == s;
  }

  lemma DigitsAppend(q: nat, d: nat, radix: Radix)
    requires d < radix && (q > 0 || d > 0)
    ensures q * radix + d > 0
    ensures Digits(q * radix + d, radix) == Digits(q, radix) + [DigitChar(d)]
  {
    Multiple(q, radix);
    DivisionOf(q, d, radix);
  }

  lemma {:induction false} DigitsShape(v: nat, radix: Radix)
    ensures AllDigits(Digits(v, radix), radix) && '\0' !in Digits(v, radix)
    ensures v > 0 ==> Digits(v, radix) != [] && Digits(v, radix)[0] != '0'
  {
    if v > 0 { DigitsShape(Quotient(v, radix), radix); }
  }

  lemma {:induction false} DigitsDenote(v: nat, radix: Radix)
    ensures Denotes(Digits(v, radix), radix) == v
  {
    if v > 0 {
      DigitsDenote(Quotient(v, radix), radix);
      DivisionParts(v, radix);
      DenotesAppend(Digits(Quotient(v, radix), radix), DigitChar(Remainder(v, radix)), radix);
    }
  }

  /** The numeral of a number denotes it, in digits of the radix, without a leading zero except for
      zero itself. */
  lemma NumeralDenotes(v: nat, radix: Radix)
    ensures var s := Numeral(v, radix);
      && Denotes(s, radix) == v && AllDigits(s, radix)
      && s != [] && '\0' !in s && (s[0] == '0' <==> v == 0) && (v == 0 ==> |s| == 1)
  {
    DigitsDenote(v, radix);
    DigitsShape(v, radix);
    if v == 0 { assert Denotes("0"[..0], radix) == 0; }
  }

  /** A digit character is the character of its value. */
  lemma DigitCharOf(c: char)
    requires DigitValue(c) >= 0
    ensures DigitValue(c) < 36 && DigitChar(DigitValue(c)) == c
  {
  }

  /** Appending a digit to the digits of a number. */
  lemma DigitsSnoc(high: string, low: char, radix: Radix)
    requires Denotes(high, radix) >= 0 && high == Digits(Denotes(high, radix), radix)
    requires 0 <= DigitValue(low) < radix && (high != [] || low != '0')
    ensures Denotes(high + [low], radix) >= 0
    ensures high + [low] == Digits(Denotes(high + [low], radix), radix)
  {
    DigitCharOf(low);
    DenotesAppend(high, low, radix);
    DigitsAppend(Denotes(high, radix), DigitValue(low), radix);
  }

  /** No other string of upper-case digits without a leading zero denotes the number. */
  lemma {:induction false} NumeralIsUnique(s: string, radix: Radix)
    requires AllDigits(s, radix) && (s != [] ==> s[0] != '0')
    ensures Denotes(s, radix) >= 0 && s == Digits(Denotes(s, radix), radix)
  {
    if s != [] {
      var high, low := s[..|s| - 1], s[|s| - 1];
      assert s == high + [low];
      NumeralIsUnique(high, radix);
      DigitsSnoc(high, low, radix);
    }
  }

  function Pow2(n: nat): nat {
    if n == 0 then 1 else 2 * Pow2(n - 1)
  }

  /** A number below 2^n has at most n digits in any radix. */
  lemma {:induction false} DigitsFit(v: nat, radix: Radix, n: nat)
    requires v < Pow2(n)
    ensures |Digits(v, radix)| <= n
    decreases n
  {
    if v > 0 {
      HalfAtMost(v, radix);
      DigitsFit(Quotient(v, radix), radix, n - 1);
    }
  }

  lemma HalfAtMost(v: nat, radix: Radix)
    ensures Quotient(v, radix) * 2 <= v
  {
    var q := Quotient(v, radix);
    DivisionParts(v, radix);
    assert q * radix == q * 2 + q * (radix - 2);
  }

  lemma WordDigits(v: uint32, radix: Radix)
    ensures |Numeral(v, radix)| <= 32
  {
    assert Pow2(8) == 0x100;
    assert Pow2(16) == 0x1_0000;
    assert Pow2(24) == 0x100_0000;
    assert Pow2(32) == 0x1_0000_0000;
    DigitsFit(v, radix, 32);
  }

  // ----- The number cases of printf -----

  function Pow16(n: nat): nat {
    if n == 0 then 1 else 16 * Pow16(n - 1)
  }

  lemma {:induction false} HexDigitsFit(v: nat, n: nat)
    requires v < Pow16(n)
    ensures |Digits(v, 16)| <= n
    decreases n
  {
    if v > 0 {
      DivisionParts(v, 16);
      HexDigitsFit(Quotient(v, 16), n - 1);
    }
  }

  lemma WordHexDigits(v: uint32)
    ensures |Numeral(v, 16)| <= 8
  {
    assert Pow16(4) == 0x1_0000;
    assert Pow16(8) == 0x1_0000_0000;
    HexDigitsFit(v, 8);
  }

  lemma {:induction false} LeadingZeros(n: nat, s: string, radix: Radix)
    ensures Denotes(Repeat('0', n) + s, radix) == Denotes(s, radix)
    decreases |s|, n
  {
    if s != [] {
      LeadingZeros(n, s[..|s| - 1], radix);
      assert (Repeat('0', n) + s)[..n + |s| - 1] == Repeat('0', n) + s[..|s| - 1];
    } else if n > 0 {
      LeadingZeros(n - 1, s, radix);
      assert (Repeat('0', n) + s)[..n - 1] == Repeat('0', n - 1) + s;
    }
  }

  /** What %#x prints. */
  function PaddedHex(v: uint32): (s: string) {
    WordHexDigits(v);
    Repeat('0', 8 - |Numeral(v, 16)|) + Numeral(v, 16)
  }

  /** %#x always prints exactly eight hexadecimal digits, and they denote the value. */
  lemma PaddedHexDenotes(v: uint32)
    ensures var s := PaddedHex(v); |s| == 8 && AllDigits(s, 16) && Denotes(s, 16) == v && '\0' !in s
  {
    WordHexDigits(v);
    NumeralDenotes(v, 16);
    LeadingZeros(8 - |Numeral(v, 16)|, Numeral(v, 16), 16);
  }

  /** Negation of a 32-bit word, and the same bits read as unsigned. */
  function NegatedWord(v: int32): uint32 {
    var negated: int32 := if v == -0x8000_0000 then v else -v;
    if negated < 0 then negated + 0x1_0000_0000 else negated
  }

  /** What %d prints. */
  function SignedNumeral(v: int32): string {
    if v < 0 then "-" + Numeral(NegatedWord(v), 10) else Numeral(v, 10)
  }

  function DenotesSigned(s: string): int {
    if s != [] && s[0] == '-' then -Denotes(s[1..], 10) else Denotes(s, 10)
  }

  /** %d prints every signed word so that it reads back, the most negative one included. */
  lemma SignedNumeralDenotes(v: int32)
    ensures DenotesSigned(SignedNumeral(v)) == v
  {
    if v < 0 {
      NumeralDenotes(NegatedWord(v), 10);
      AfterMinus(Numeral(NegatedWord(v), 10));
    } else {
      NumeralDenotes(v, 10);
      WithoutMinus(Numeral(v, 10));
    }
  }

  lemma AfterMinus(s: string)
    ensures DenotesSigned("-" + s) == -Denotes(s, 10)
  {
    assert ("-" + s)[1..] == s;
  }

  lemma WithoutMinus(s: string)
    requires AllDigits(s, 10)
    ensures DenotesSigned(s) == Denotes(s, 10)
  {
    assert DigitValue('-') == -1;
  }
}
