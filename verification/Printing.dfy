/** itoa, strrev and the number cases of printf, working in place on character buffers. A pointer
    into a buffer is the buffer and an index. */
module PrintingCode {
  import opened Division
  import opened Numbers
  import opened Sequences
  import opened Text

  // ----- Reversal -----

  function Reversed(s: string): (r: string)
    ensures |r| == |s|
  {
    seq(|s|, i requires 0 <= i < |s| => s[|s| - 1 - i])
  }

  lemma ReversedTwice(s: string)
    ensures Reversed(Reversed(s)) == s
  {
  }

  lemma ReversedHasNoEnd(text: string)
    requires '\0' !in text
    ensures '\0' !in Reversed(text)
  {
    forall i | 0 <= i < |text| ensures Reversed(text)[i] != '\0' {
      assert text[|text| - 1 - i] in text;
    }
  }

  /** The index that an index changes places with when n characters at `start` are reversed. */
  function Mirror(start: nat, n: nat, i: nat): nat {
    if start <= i < start + n then 2 * start + n - 1 - i else i
  }

  /** Reverse the text at an index in place. */
  method StrRev(buf: array<char>, start: nat, ghost text: string)
    requires HoldsText(buf[..], start, text)
    modifies buf
    ensures forall i :: 0 <= i < buf.Length ==> buf[i] == old(buf[..])[Mirror(start, |text|, i)]
  {
    var n := StrLen(buf, start, text);
    var beg, end: int := 0, n - 1;
    ghost var was := buf[..];
    while beg < end
      invariant 0 <= beg && end == n - 1 - beg && 2 * beg <= n + 1
      invariant forall i :: 0 <= i < buf.Length ==>
        buf[i] == if start + beg <= i <= start + end then was[i] else was[Mirror(start, n, i)]
    {
      var tmp := buf[start + end];
      buf[start + end] := buf[start + beg];
      buf[start + beg] := tmp;
      beg := beg + 1;
      end := end - 1;
    }
  }

  /** A buffer mirrored about its text holds the reversed text. */
  lemma MirroredText(was: seq<char>, buf: seq<char>, start: nat, text: string)
    requires HoldsText(was, start, text) && |buf| == |was|
    requires forall i :: 0 <= i < |buf| ==> buf[i] == was[Mirror(start, |text|, i)]
    ensures HoldsText(buf, start, Reversed(text))
  {
    ReversedHasNoEnd(text);
    forall i | 0 <= i < |text| ensures buf[start..start + |text|][i] == Reversed(text)[i] {
      TextAt(was, start, text, |text| - 1 - i);
    }
  }

  // ----- itoa -----

  /** The digits still to come and those written so far, lowest first, are all the digits. */
  ghost predicate DigitsSplit(value: nat, newval: nat, low: string, radix: Radix) {
    Digits(value, radix) == Digits(newval, radix) + Reversed(low)
  }

  lemma SplitStep(value: nat, newval: nat, low: string, radix: Radix)
    requires DigitsSplit(value, newval, low, radix) && newval > 0
    ensures DigitsSplit(value, Quotient(newval, radix), low + [DigitChar(Remainder(newval, radix))], radix)
    ensures |low| < |Digits(value, radix)|
  {
    var c := DigitChar(Remainder(newval, radix));
    assert Reversed(low + [c]) == [c] + Reversed(low);
    assert Digits(newval, radix) == Digits(Quotient(newval, radix), radix) + [c];
  }

  lemma SplitEnd(value: nat, low: string, radix: Radix)
    requires DigitsSplit(value, 0, low, radix)
    ensures Reversed(low) == Digits(value, radix) && '\0' !in low
  {
    DigitsShape(value, radix);
    ReversedHasNoEnd(Reversed(low));
    ReversedTwice(low);
  }

  /** The character of the lowest digit, and the rest of the number. */
  method SplitDigit(newval: uint32, radix: Radix) returns (c: char, rest: uint32)
    ensures c == DigitChar(Remainder(newval, radix)) && rest == Quotient(newval, radix)
  {
    DivisionAgrees(newval, radix);
    LookupTable(newval % radix);
    c := "0123456789ABCDEFGHIJKLMNOPQRSTUVWXYZ"[newval % radix];
    rest := newval / radix;
  }

  lemma SplitIsShort(value: uint32, newval: nat, low: string, radix: Radix)
    requires DigitsSplit(value, newval, low, radix)
    ensures |low| <= 32
  {
    WordDigits(value, radix);
  }

  /** Write the digits of a positive value from the lowest up. */
  method WriteDigits(value: uint32, buf: array<char>, start: nat, radix: Radix) returns (k: nat, ghost low: string)
    requires start + 33 <= buf.Length
    modifies buf
    ensures k == |low| <= 32 && buf[start..start + k] == low
    ensures DigitsSplit(value, 0, low, radix)
    ensures forall i :: 0 <= i < buf.Length && (i < start || i >= start + k) ==> buf[i] == old(buf[i])
  {
    var newval := value;
    k, low := 0, [];
    while newval > 0
      invariant k == |low| <= 32
      invariant DigitsSplit(value, newval, low, radix)
      invariant forall j :: 0 <= j < k ==> buf[start + j] == low[j]
      invariant forall i :: 0 <= i < buf.Length && (i < start || i >= start + k) ==> buf[i] == old(buf[i])
    {
      SplitStep(value, newval, low, radix);
      var c;
      c, newval := SplitDigit(newval, radix);
      buf[start + k] := c;
      k, low := k + 1, low + [c];
      SplitIsShort(value, newval, low, radix);
    }
  }

  /** End a text and reverse it. */
  method TerminateAndReverse(buf: array<char>, start: nat, ghost low: string, k: nat)
    requires k == |low| && start + k < buf.Length && buf[start..start + k] == low && '\0' !in low
    modifies buf
    ensures HoldsText(buf[..], start, Reversed(low))
    ensures forall i :: 0 <= i < buf.Length && (i < start || i > start + k) ==> buf[i] == old(buf[i])
  {
    buf[start + k] := '\0';
    assert buf[start..start + k] == low;
    ghost var was := buf[..];
    StrRev(buf, start, low);
    MirroredText(was, buf[..], start, low);
  }

  /** Write the numeral of a value at an index. */
  method Itoa(value: uint32, buf: array<char>, start: nat, radix: Radix)
    requires start + 33 <= buf.Length
    modifies buf
    ensures |Numeral(value, radix)| <= 32
    ensures HoldsText(buf[..], start, Numeral(value, radix))
    ensures forall i :: 0 <= i < buf.Length && (i < start || i > start + |Numeral(value, radix)|) ==> buf[i] == old(buf[i])
  {
    if value == 0 {
      buf[start] := '0';
      buf[start + 1] := '\0';
      return;
    }
    var k, low := WriteDigits(value, buf, start, radix);
    SplitEnd(value, low, radix);
    TerminateAndReverse(buf, start, low, k);
  }

  // ----- The number cases of printf -----

  /** The buffer that %#x prints from, and where it starts printing. */
  method FormatPaddedHex(value: uint32, convBuf: array<char>) returns (startingIndex: nat)
    requires convBuf.Length == 64
    modifies convBuf
    ensures HoldsText(convBuf[..], startingIndex, PaddedHex(value))
  {
    ghost var text := Numeral(value, 16);
    WordHexDigits(value);
    Itoa(value, convBuf, 8, 16);
    startingIndex := StrLen(convBuf, 8, text);
    ghost var was := convBuf[..];
    var i := startingIndex;
    while i < 8
      invariant startingIndex <= i <= 8
      invariant forall j :: startingIndex <= j < i ==> convBuf[j] == '0'
      invariant forall j :: 8 <= j < convBuf.Length ==> convBuf[j] == was[j]
    {
      convBuf[i] := '0';
      i := i + 1;
    }
    PaddedText(was, convBuf[..], text, startingIndex);
  }

  lemma PaddedText(was: seq<char>, buf: seq<char>, text: string, start: nat)
    requires HoldsText(was, 8, text) && start == |text| <= 8 && |buf| == |was|
    requires forall j :: start <= j < 8 ==> buf[j] == '0'
    requires forall j :: 8 <= j < |buf| ==> buf[j] == was[j]
    ensures HoldsText(buf, start, Repeat('0', 8 - |text|) + text)
  {
    assert buf[8..8 + start] == was[8..8 + start];
    assert buf[start..8] == Repeat('0', 8 - start);
    assert buf[start..start + 8] == buf[start..8] + buf[8..8 + start];
  }

  /** The buffer that %d prints from. */
  method FormatSigned(value: int32, convBuf: array<char>)
    requires convBuf.Length == 36
    modifies convBuf
    ensures HoldsText(convBuf[..], 0, SignedNumeral(value))
  {
    if value < 0 {
      convBuf[0] := '-';
      Itoa(NegatedWord(value), convBuf, 1, 10);
      ghost var text := Numeral(NegatedWord(value), 10);
      assert convBuf[0..1 + |text|] == "-" + convBuf[1..1 + |text|];
    } else {
      Itoa(value, convBuf, 0, 10);
    }
  }
}
