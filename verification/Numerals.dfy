/**
 What the texts of module Numbers denote, character by character and with every code
 written out: the reference for the numbers that the boot library reads and prints.
 */
module Numerals {
  import opened Words
  import opened Glob
  import opened Numbers

  // ----- the reference -----

  /** 0 to 9. */
  ghost predicate AreDecimal(s: Text) {
    forall i :: 0 <= i < |s| ==> 48 <= s[i] <= 57
  }

  ghost function DecimalValue(s: Text): nat
    requires AreDecimal(s)
  {
    if s == [] then 0 else 10 * DecimalValue(s[..|s| - 1]) + (s[|s| - 1] - 48)
  }

  /** 0 to 9, A to F, a to f. */
  ghost predicate AreHexadecimal(s: Text) {
    forall i :: 0 <= i < |s| ==> 48 <= s[i] <= 57 || 65 <= s[i] <= 70 || 97 <= s[i] <= 102
  }

  ghost function HexadecimalValue(s: Text): nat
    requires AreHexadecimal(s)
  {
    if s == [] then 0
    else
      var c := s[|s| - 1];
      16 * HexadecimalValue(s[..|s| - 1]) + if c >= 97 then c - 87 else if c >= 65 then c - 55 else c - 48
  }

  /** v in decimal, without leading zeros. */
  ghost predicate IsDecimal(s: Text, v: nat) {
    s != [] && AreDecimal(s) && DecimalValue(s) == v && (s[0] == 48 ==> |s| == 1)
  }

  /** v in hexadecimal, with capitals and without leading zeros. */
  ghost predicate IsHexadecimal(s: Text, v: nat) {
    && s != [] && (forall i :: 0 <= i < |s| ==> 48 <= s[i] <= 57 || 65 <= s[i] <= 70)
    && HexadecimalValue(s) == v && (s[0] == 48 ==> |s| == 1)
  }

  /** The commas stand before every third digit from the right. */
  ghost predicate CommasGroup(s: Text) {
    forall i :: 0 <= i < |s| ==> (s[i] == 44 <==> (|s| - i) % 4 == 0)
  }

  ghost function NoCommasIn(s: Text): Text {
    if s == [] then []
    else NoCommasIn(s[..|s| - 1]) + if s[|s| - 1] == 44 then [] else [s[|s| - 1]]
  }

  ghost predicate IsMagnitude(s: Text, v: nat, commas: bool) {
    if commas then CommasGroup(s) && IsDecimal(NoCommasIn(s), v) else IsDecimal(s, v)
  }

  /** The integer v: a minus sign exactly when it is negative, then decimal digits, grouped
      by commas if asked for. */
  ghost predicate IsInteger(s: Text, v: int, commas: bool) {
    if v < 0 then s != [] && s[0] == 45 && IsMagnitude(s[1..], -v, commas) else IsMagnitude(s, v, commas)
  }

  // ----- what is read -----

  lemma {:induction false} DecimalDigitsRead(s: Text, tail: Text)
    requires AreDecimal(s) && (tail == [] || !(48 <= tail[0] <= 57))
    ensures |LeadingDigits(s + tail, Dec)| == |s|
    ensures forall i :: 0 <= i < |s| ==> LeadingDigits(s + tail, Dec)[i] == s[i] - 48
  {
    if s == [] {
      assert s + tail == tail;
    } else {
      assert (s + tail)[1..] == s[1..] + tail;
      DecimalDigitsRead(s[1..], tail);
    }
  }

  function HexDigitOf(c: Char16): int {
    if c >= 97 then c - 87 else if c >= 65 then c - 55 else c - 48
  }

  lemma {:induction false} HexadecimalDigitsRead(s: Text, tail: Text)
    requires AreHexadecimal(s)
    requires tail == [] || !(48 <= tail[0] <= 57 || 65 <= tail[0] <= 70 || 97 <= tail[0] <= 102)
    ensures |LeadingDigits(s + tail, Hex)| == |s|
    ensures forall i :: 0 <= i < |s| ==> LeadingDigits(s + tail, Hex)[i] == HexDigitOf(s[i])
  {
    if s == [] {
      assert s + tail == tail;
    } else {
      assert (s + tail)[1..] == s[1..] + tail;
      HexadecimalDigitsRead(s[1..], tail);
    }
  }

  lemma {:induction false} DecimalValueIs(s: Text, digits: seq<nat>)
    requires AreDecimal(s) && |digits| == |s| && forall i :: 0 <= i < |s| ==> digits[i] == s[i] - 48
    ensures DecimalValue(s) == ValueOf(digits, Dec)
  {
    if s != [] {
      DecimalValueIs(s[..|s| - 1], digits[..|s| - 1]);
    }
  }

  lemma {:induction false} HexadecimalValueIs(s: Text, digits: seq<nat>)
    requires AreHexadecimal(s) && |digits| == |s| && forall i :: 0 <= i < |s| ==> digits[i] == HexDigitOf(s[i])
    ensures HexadecimalValue(s) == ValueOf(digits, Hex)
  {
    if s != [] {
      HexadecimalValueIs(s[..|s| - 1], digits[..|s| - 1]);
    }
  }

  ghost function Blanks(n: nat): (s: Text)
    ensures |s| == n && forall i :: 0 <= i < n ==> s[i] == 32
  {
    seq(n, _ => 32)
  }

  lemma {:induction false} BlanksAreSkipped(n: nat, s: Text)
    requires s == [] || s[0] != 32
    ensures SkipSpaces(Blanks(n) + s) == s
  {
    if n == 0 {
      assert Blanks(0) + s == s;
    } else {
      assert (Blanks(n) + s)[1..] == Blanks(n - 1) + s;
      BlanksAreSkipped(n - 1, s);
    }
  }

  /** What Atoi reads: behind blanks, the decimal digits up to the first other character,
      modulo 2^64; 0 if there are none. */
  lemma {:induction false} AtoiReads(n: nat, s: Text, tail: Text)
    requires AreDecimal(s) && (tail == [] || !(48 <= tail[0] <= 57)) && (s == [] && tail != [] ==> tail[0] != 32)
    ensures NumberIn(Blanks(n) + s + tail, Dec) == DecimalValue(s) % 0x1_0000_0000_0000_0000
  {
    assert Blanks(n) + s + tail == Blanks(n) + (s + tail);
    BlanksAreSkipped(n, s + tail);
    DecimalDigitsRead(s, tail);
    DecimalValueIs(s, LeadingDigits(s + tail, Dec));
  }

  /** What xtoi reads: the same with hexadecimal digits of either case. */
  lemma {:induction false} XtoiReads(n: nat, s: Text, tail: Text)
    requires AreHexadecimal(s) && (s == [] && tail != [] ==> tail[0] != 32)
    requires tail == [] || !(48 <= tail[0] <= 57 || 65 <= tail[0] <= 70 || 97 <= tail[0] <= 102)
    ensures NumberIn(Blanks(n) + s + tail, Hex) == HexadecimalValue(s) % 0x1_0000_0000_0000_0000
  {
    assert Blanks(n) + s + tail == Blanks(n) + (s + tail);
    BlanksAreSkipped(n, s + tail);
    HexadecimalDigitsRead(s, tail);
    HexadecimalValueIs(s, LeadingDigits(s + tail, Hex));
  }

  // ----- what is printed -----

  lemma {:induction false} PlainDecimal(v: nat)
    requires v > 0
    ensures IsDecimal(PlainText(v, Dec), v)
  {
    DigitsMeanTheNumber(v, Dec);
    DecimalValueIs(PlainText(v, Dec), DigitsOf(v, Dec));
  }

  lemma {:induction false} NumeralIsDecimal(v: nat)
    ensures IsDecimal(Numeral(v, Dec), v)
  {
    if v > 0 {
      PlainDecimal(v);
    } else {
      assert Numeral(v, Dec) == [48] && DecimalValue([48][..0]) == 0;
    }
  }

  /** ValueToHex prints capitals, the most significant digit first. */
  lemma {:induction false} HexadecimalPrinted(v: nat)
    ensures IsHexadecimal(Numeral(v, Hex), v)
  {
    if v > 0 {
      var s := PlainText(v, Hex);
      DigitsMeanTheNumber(v, Hex);
      HexadecimalValueIs(s, DigitsOf(v, Hex));
    } else {
      assert Numeral(v, Hex) == [48] && HexadecimalValue([48][..0]) == 0;
    }
  }

  lemma {:induction false} NoCommasIsWithoutCommas(s: Text)
    ensures NoCommasIn(s) == WithoutCommas(s)
  {
    if s != [] {
      NoCommasIsWithoutCommas(s[..|s| - 1]);
    }
  }

  lemma {:induction false} PlainMagnitude(digits: Text, v: nat)
    requires IsDecimal(digits, v)
    ensures IsMagnitude(digits, v, false)
  {
  }

  lemma {:induction false} GroupedCommasGroup(digits: Text)
    requires COMMA !in digits
    ensures CommasGroup(Grouped(digits))
  {
    hide Grouped;
    forall i | 0 <= i < |Grouped(digits)|
      ensures Grouped(digits)[i] == 44 <==> (|Grouped(digits)| - i) % 4 == 0
    {
      CommasEveryFourth(digits, i);
    }
  }

  lemma {:induction false} GroupedIsMagnitude(digits: Text, v: nat)
    requires IsDecimal(digits, v)
    ensures IsMagnitude(Grouped(digits), v, true)
  {
    assert COMMA !in digits;
    hide Grouped, IsDecimal, NoCommasIn, CommasGroup;
    GroupingOnlyAddsCommas(digits);
    NoCommasIsWithoutCommas(Grouped(digits));
    GroupedCommasGroup(digits);
  }

  /** ValueToString prints the number it is given. */
  lemma {:induction false} IntegerPrinted(v: int, commas: bool)
    ensures IsInteger(Decimal(v, commas), v, commas)
  {
    hide IsDecimal, IsMagnitude, Numeral, Grouped;
    var n: nat := if v < 0 then -v else v;
    NumeralIsDecimal(n);
    PlainMagnitude(Numeral(n, Dec), n);
    GroupedIsMagnitude(Numeral(n, Dec), n);
    var body := if commas then Grouped(Numeral(n, Dec)) else Numeral(n, Dec);
    assert Decimal(v, commas) == (if v < 0 then [45] else []) + body;
    assert if v < 0 then Decimal(v, commas)[1..] == body else Decimal(v, commas) == body;
  }
}
