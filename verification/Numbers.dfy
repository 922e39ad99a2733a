/**
 Numbers as text: xtoi and Atoi of lib/str.c, ValueToHex and ValueToString of
 lib/print.c. Text pointers are modelled as in module Glob; the number-printing
 routines write a caller's buffer and a NUL behind it.
 */
module Numbers {
  import opened Words
  import opened Glob
  import Division

  const SPACE: Char16 := 0x20
  const MINUS: Char16 := 0x2D
  const COMMA: Char16 := 0x2C
  const ZERO: Char16 := 0x30

  // ----- what digits mean -----

  datatype Base = Dec | Hex {
    function Size(): (n: nat)
      ensures n <= 16
    {
      match this case Dec => 10 case Hex => 16
    }

    function Times(v: nat): nat {
      match this case Dec => 10 * v case Hex => 16 * v
    }

    function Over(v: nat): nat {
      match this case Dec => v / 10 case Hex => v / 16
    }

    function Last(v: nat): (d: nat)
      ensures v == Times(Over(v)) + d && d < Size()
    {
      match this case Dec => v % 10 case Hex => v % 16
    }
  }

  /** Positional value, most significant digit first. */
  function ValueOf(digits: seq<nat>, base: Base): nat {
    if digits == [] then 0 else base.Times(ValueOf(digits[..|digits| - 1], base)) + digits[|digits| - 1]
  }

  function DecDigit(c: Char16): Option<nat> {
    if 0x30 <= c <= 0x39 then Some(c - 0x30) else None
  }

  /** Either case of A to F. */
  function HexDigit(c: Char16): Option<nat> {
    if 0x61 <= c <= 0x66 then Some(c - 0x61 + 10)
    else if 0x41 <= c <= 0x46 then Some(c - 0x41 + 10)
    else DecDigit(c)
  }

  function Digit(c: Char16, base: Base): (d: Option<nat>)
    ensures d.Some? ==> d.value < 16
  {
    match base case Dec => DecDigit(c) case Hex => HexDigit(c)
  }

  function SkipSpaces(s: Text): (r: Text)
    ensures |r| <= |s|
  {
    if s != [] && s[0] == SPACE then SkipSpaces(s[1..]) else s
  }

  /** The digits a text starts with. */
  function LeadingDigits(s: Text, base: Base): seq<nat> {
    if s == [] || Digit(s[0], base).None? then []
    else [Digit(s[0], base).value] + LeadingDigits(s[1..], base)
  }

  /** The number a text denotes: leading spaces skipped, then digits up to the first
      character that is none, modulo 2^64. */
  function NumberIn(s: Text, base: Base): U64 {
    Wrap(ValueOf(LeadingDigits(SkipSpaces(s), base), base))
  }

  // ----- reading -----

  /** u << 4 | d: the shifted word ends in a zero nibble. */
  function OrNibble(u: U64, d: nat): (r: U64)
    requires d < 16
    ensures r == Wrap(u * 16 + d)
  {
    assert Wrap(u * 16) % 16 == 0;
    Wrap(u * 16) + d
  }

  lemma {:induction false} WrapAppends(v: nat, base: Base, d: int)
    ensures Wrap(base.Times(Wrap(v)) + d) == Wrap(base.Times(v) + d)
  {
    WrapDropsMultiples(base.Times(v) + d, base.Times(v / TWO_64));
  }

  lemma {:induction false} ValueAppends(digits: seq<nat>, d: nat, base: Base)
    ensures ValueOf(digits + [d], base) == base.Times(ValueOf(digits, base)) + d
  {
    assert (digits + [d])[..|digits|] == digits;
  }

  function HexStep(u: U64, d: nat, ghost done: seq<nat>): (r: U64)
    requires d < 16 && u == Wrap(ValueOf(done, Hex))
    ensures r == Wrap(ValueOf(done + [d], Hex))
  {
    WrapAppends(ValueOf(done, Hex), Hex, d);
    ValueAppends(done, d, Hex);
    OrNibble(u, d)
  }

  lemma {:induction false} DecStepMeans(u: U64, c: Char16, done: seq<nat>)
    requires 0x30 <= c <= 0x39 && u == Wrap(ValueOf(done, Dec))
    ensures Wrap(Wrap(u * 10 + c) - 0x30) == Wrap(ValueOf(done + [c - 0x30], Dec))
  {
    hide Wrap, ValueOf;
    WrapAbsorbs(u * 10 + c, -0x30);
    WrapAppends(ValueOf(done, Dec), Dec, c - 0x30);
    ValueAppends(done, c - 0x30, Dec);
    assert u * 10 + c - 0x30 == Dec.Times(u) + (c - 0x30);
  }

  /** u * 10 + c - '0', each step modulo 2^64. */
  function DecStep(u: U64, c: Char16, ghost done: seq<nat>): (r: U64)
    requires 0x30 <= c <= 0x39 && u == Wrap(ValueOf(done, Dec))
    ensures r == Wrap(ValueOf(done + [c - 0x30], Dec))
  {
    DecStepMeans(u, c, done);
    Wrap(Wrap(u * 10 + c) - 0x30)
  }

  method SkipPreceding(str: Text) returns (r: Text)
    requires IsText(str)
    ensures r == SkipSpaces(str) && IsText(r)
  {
    r := str;
    while Head(r) != 0 && Head(r) == SPACE
      invariant IsText(r) && SkipSpaces(r) == SkipSpaces(str)
      decreases |r|
    {
      r := r[1..];
    }
  }

  lemma {:induction false} DigitLeads(done: seq<nat>, s: Text, d: nat, base: Base)
    requires s != [] && Digit(s[0], base) == Some(d)
    ensures done + LeadingDigits(s, base) == (done + [d]) + LeadingDigits(s[1..], base)
  {
  }

  method Xtoi(str: Text) returns (u: U64)
    requires IsText(str)
    ensures u == NumberIn(str, Hex)
  {
    var rest := SkipPreceding(str);
    ghost var all, done := LeadingDigits(rest, Hex), [];
    u := 0;
    while Head(rest) != 0
      invariant IsText(rest) && all == done + LeadingDigits(rest, Hex)
      invariant u == Wrap(ValueOf(done, Hex))
      decreases |rest|
    {
      ghost var before := rest;
      var c := Head(rest);
      rest := rest[1..];
      if 0x61 <= c <= 0x66 {
        c := c - 0x20;
      }
      if 0x30 <= c <= 0x39 || 0x41 <= c <= 0x46 {
        var d := c - if c >= 0x41 then 0x37 else 0x30;
        DigitLeads(done, before, d, Hex);
        u := HexStep(u, d, done);
        done := done + [d];
      } else {
        break;
      }
    }
    assert all == done;
  }

  method Atoi(str: Text) returns (u: U64)
    requires IsText(str)
    ensures u == NumberIn(str, Dec)
  {
    var rest := SkipPreceding(str);
    ghost var all, done := LeadingDigits(rest, Dec), [];
    u := 0;
    while Head(rest) != 0
      invariant IsText(rest) && all == done + LeadingDigits(rest, Dec)
      invariant u == Wrap(ValueOf(done, Dec))
      decreases |rest|
    {
      ghost var before := rest;
      var c := Head(rest);
      rest := rest[1..];
      if 0x30 <= c <= 0x39 {
        DigitLeads(done, before, c - 0x30, Dec);
        u := DecStep(u, c, done);
        done := done + [c - 0x30];
      } else {
        break;
      }
    }
    assert all == done;
  }

  // ----- writing -----

  /** The digits of v without leading zeros. */
  function DigitsOf(v: nat, base: Base): (digits: seq<nat>)
  {
    if v == 0 then [] else DigitsOf(base.Over(v), base) + [base.Last(v)]
  }

  function Glyph(d: nat): Char16
    requires d < 16
  {
    if d < 10 then 0x30 + d else 0x37 + d
  }

  predicate AreDigits(digits: seq<nat>, base: Base): (yes: bool)
    ensures yes ==> forall i :: 0 <= i < |digits| ==> digits[i] < 16
  {
    forall i :: 0 <= i < |digits| ==> digits[i] < base.Size()
  }

  function Glyphs(digits: seq<nat>): (s: Text)
    requires forall i :: 0 <= i < |digits| ==> digits[i] < 16
    ensures |s| == |digits| && forall i :: 0 <= i < |digits| ==> s[i] == Glyph(digits[i])
  {
    seq(|digits|, i requires 0 <= i < |digits| => Glyph(digits[i]))
  }

  lemma {:induction false} DigitsMeanTheNumber(v: nat, base: Base)
    ensures ValueOf(DigitsOf(v, base), base) == v
    ensures AreDigits(DigitsOf(v, base), base)
    ensures v != 0 ==> DigitsOf(v, base) != [] && DigitsOf(v, base)[0] != 0
  {
    if v != 0 {
      DigitsMeanTheNumber(base.Over(v), base);
      assert DigitsOf(v, base)[..|DigitsOf(v, base)| - 1] == DigitsOf(base.Over(v), base);
    }
  }

  function PlainText(v: nat, base: Base): (s: Text)
    ensures v == 0 ==> s == []
  {
    DigitsMeanTheNumber(v, base);
    Glyphs(DigitsOf(v, base))
  }

  lemma {:induction false} PlainTextUnfolds(v: nat, base: Base)
    requires v != 0
    ensures PlainText(v, base) == PlainText(base.Over(v), base) + [Glyph(base.Last(v))]
  {
    DigitsMeanTheNumber(v, base);
    DigitsMeanTheNumber(base.Over(v), base);
  }

  /** A number as text: its digits, or a single 0. */
  function Numeral(v: nat, base: Base): (s: Text)
  {
    if v == 0 then [ZERO] else PlainText(v, base)
  }

  /** Commas before every third digit from the right. */
  function Grouped(s: Text): Text {
    if |s| <= 3 then s else Grouped(s[..|s| - 3]) + [COMMA] + s[|s| - 3..]
  }

  /** What ValueToString prints. */
  function Decimal(v: int, comma: bool): Text {
    var digits := Numeral(if v < 0 then -v else v, Dec);
    (if v < 0 then [MINUS] else []) + if comma then Grouped(digits) else digits
  }

  // ----- the printing routines -----

  /** A buffer that starts with `t` and a NUL. */
  ghost predicate Holds(buffer: seq<Char16>, t: Text) {
    |t| < |buffer| && buffer[..|t|] == t && buffer[|t|] == 0
  }

  function Power(base: Base, k: nat): nat {
    if k == 0 then 1 else base.Times(Power(base, k - 1))
  }

  lemma {:induction false} DigitsFit(v: nat, base: Base, k: nat)
    requires v < Power(base, k)
    ensures |DigitsOf(v, base)| <= k
  {
    if v != 0 {
      DigitsFit(base.Over(v), base, k - 1);
    }
  }

  lemma {:induction false} WordsFit(v: U64)
    ensures |PlainText(v, Hex)| <= 16
    ensures |PlainText(v, Dec)| <= 20
  {
    assert Power(Hex, 4) == 0x1_0000;
    assert Power(Hex, 8) == 0x1_0000_0000;
    assert Power(Hex, 12) == 0x1_0000_0000_0000;
    assert Power(Hex, 16) == TWO_64;
    DigitsFit(v, Hex, 16);
    assert Power(Dec, 5) == 100_000;
    assert Power(Dec, 10) == 10_000_000_000;
    assert Power(Dec, 15) == 1_000_000_000_000_000;
    assert Power(Dec, 20) == 100_000_000_000_000_000_000;
    DigitsFit(v, Dec, 20);
  }

  /** `str` has the last n characters of a numeral, last first; `rest` still has the
      others. */
  ghost predicate Peeled(str: seq<Char16>, n: nat, text: Text, rest: nat, base: Base)
  {
    && n <= |text| && n <= |str| && PlainText(rest, base) == text[..|text| - n]
    && forall i :: 0 <= i < n ==> str[i] == text[|text| - 1 - i]
  }

  lemma {:induction false} PeelOne(str: seq<Char16>, n: nat, text: Text, rest: nat, base: Base)
    requires Peeled(str, n, text, rest, base)
    requires rest != 0 && n < |str| && str[n] == Glyph(base.Last(rest))
    ensures Peeled(str, n + 1, text, base.Over(rest), base)
  {
    PlainTextUnfolds(rest, base);
    var front := text[..|text| - n];
    assert text[|text| - 1 - n] == front[|front| - 1];
    assert text[..|text| - (n + 1)] == front[..|front| - 1];
  }

  method ValueToHex(buffer: array<Char16>, value: U64)
    requires buffer.Length >= 17
    modifies buffer
    ensures Holds(buffer[..], Numeral(value, Hex))
  {
    if value == 0 {
      buffer[0] := ZERO;
      buffer[1] := 0;
      return;
    }
    ghost var text := PlainText(value, Hex);
    WordsFit(value);
    var v := value;
    var str := new Char16[30];
    var n := 0;
    while v != 0
      invariant Peeled(str[..], n, text, v, Hex)
    {
      PlainTextUnfolds(v, Hex);
      str[n] := Glyph(v % 16);
      PeelOne(str[..], n, text, v, Hex);
      v := v / 16;
      n := n + 1;
    }
    ghost var reversed := str[..];
    var m := 0;
    while n != 0
      invariant m + n == |text| && buffer[..m] == text[..m]
      modifies buffer
    {
      n := n - 1;
      assert text[m] == reversed[n];
      buffer[m] := str[n];
      m := m + 1;
    }
    buffer[m] := 0;
  }

  /** Digits i and on, each behind a comma when a multiple of three remain and it is not
      the first. */
  function GroupedFrom(s: Text, i: nat): Text
    requires i <= |s|
    decreases |s| - i
  {
    if i == |s| then []
    else (if i > 0 && (|s| - i) % 3 == 0 then [COMMA] else []) + [s[i]] + GroupedFrom(s, i + 1)
  }

  /** What is still to be written when n digits are. */
  function Remaining(text: Text, n: nat, comma: bool): Text
    requires n <= |text|
  {
    if comma then GroupedFrom(text, |text| - n) else text[|text| - n..]
  }

  /** The countdown to the next comma, with n digits to go. */
  predicate CountsDown(c: int, text: Text, n: nat, comma: bool) {
    if !comma then c > n else if n == |text| && n % 3 == 0 then c == 4 else c == n % 3 + 1
  }

  lemma {:induction false} CommaDue(c: int, text: Text, n: nat, comma: bool)
    requires 0 < n <= |text| && CountsDown(c, text, n, comma)
    ensures c == 1 <==> comma && n < |text| && n % 3 == 0
    ensures CountsDown(if c == 1 then 3 else c - 1, text, n - 1, comma)
  {
  }

  /** One turn of the loop writes a comma when one is due, then a digit. */
  lemma {:induction false} RemainingUnfolds(text: Text, n: nat, comma: bool, due: bool)
    requires 0 < n <= |text| && (due <==> comma && n < |text| && n % 3 == 0)
    ensures Remaining(text, n, comma) == (if due then [COMMA] else []) + [text[|text| - n]] + Remaining(text, n - 1, comma)
  {
  }

  /** The body of that loop: the comma, if the countdown `c` ran out, and the digit. */
  method PutDigit(buffer: array<Char16>, m: nat, c: nat, d: Char16, ghost out: Text) returns (next: nat)
    requires m == |out| && m + (if c == 0 then 2 else 1) <= buffer.Length && buffer[..m] == out
    modifies buffer
    ensures next == m + (if c == 0 then 2 else 1)
    ensures buffer[..next] == out + ((if c == 0 then [COMMA] else []) + [d])
  {
    next := m;
    if c == 0 {
      buffer[next] := COMMA;
      next := next + 1;
    }
    buffer[next] := d;
    next := next + 1;
  }

  lemma {:induction false} OutputGrows(full: Text, out: Text, rest: Text, piece: Text, left: Text)
    requires full == out + rest && rest == piece + left
    ensures full == (out + piece) + left
  {
  }

  /** ValueToString's second loop. */
  method WriteGrouped(buffer: array<Char16>, start: nat, str: array<Char16>, digits: nat, comma: bool,
                      ghost sign: Text, ghost text: Text)
    requires buffer != str && digits == |text| <= str.Length && digits < 999
    requires forall i :: 0 <= i < digits ==> str[i] == text[digits - 1 - i]
    requires start == |sign| && |sign + Remaining(text, digits, comma)| < buffer.Length && buffer[..start] == sign
    modifies buffer
    ensures Holds(buffer[..], sign + Remaining(text, digits, comma))
  {
    var n, m := digits, start;
    var c: nat := (if !comma then 999 else if n % 3 == 0 then 3 else if n % 3 == 1 then 1 else 2) + 1;
    ghost var full, out := sign + Remaining(text, digits, comma), sign;
    while n != 0
      invariant 0 <= n <= |text| && m == |out| <= buffer.Length && buffer[..m] == out
      invariant CountsDown(c, text, n, comma)
      invariant full == out + Remaining(text, n, comma)
    {
      CommaDue(c, text, n, comma);
      RemainingUnfolds(text, n, comma, c == 1);
      ghost var piece := (if c == 1 then [COMMA] else []) + [text[|text| - n]];
      OutputGrows(full, out, Remaining(text, n, comma), piece, Remaining(text, n - 1, comma));
      c, n := c - 1, n - 1;
      m := PutDigit(buffer, m, c, str[n], out);
      out := out + piece;
      if c == 0 {
        c := 3;
      }
    }
    buffer[m] := 0;
  }

  /** ValueToString's first loop. */
  method ReversedDigits(value: U64, ghost text: Text) returns (str: array<Char16>, n: nat)
    requires text == PlainText(value, Dec) && |text| <= 20
    ensures fresh(str) && n == |text| <= str.Length
    ensures forall i :: 0 <= i < n ==> str[i] == text[|text| - 1 - i]
  {
    var v := value;
    str := new Char16[40];
    n := 0;
    while v != 0
      invariant Peeled(str[..], n, text, v, Dec)
    {
      PlainTextUnfolds(v, Dec);
      var q, r := Division.DivU64x32(v, 10);
      str[n] := r + ZERO;
      PeelOne(str[..], n, text, v, Dec);
      v := q;
      n := n + 1;
    }
  }

  lemma {:induction false} ThreeLeft(s: Text, i: nat)
    requires i + 3 == |s| && i > 0
    ensures GroupedFrom(s, i) == [COMMA] + s[i..]
  {
    assert GroupedFrom(s, i + 3) == [];
    assert GroupedFrom(s, i + 2) == [s[i + 2]];
    assert GroupedFrom(s, i + 1) == [s[i + 1]] + GroupedFrom(s, i + 2);
    assert GroupedFrom(s, i) == [COMMA] + [s[i]] + GroupedFrom(s, i + 1);
    assert s[i..] == [s[i]] + ([s[i + 1]] + [s[i + 2]]);
  }

  lemma {:induction false} LastGroup(a: Text, b: Text, i: nat)
    requires |b| == 3 && i <= |a| && a != []
    ensures GroupedFrom(a + b, i) == GroupedFrom(a, i) + [COMMA] + b
    decreases |a| - i
  {
    var s := a + b;
    if i == |a| {
      ThreeLeft(s, i);
      assert s[i..] == b;
    } else {
      LastGroup(a, b, i + 1);
      var head := (if i > 0 && (|a| - i) % 3 == 0 then [COMMA] else []) + [a[i]];
      assert (|s| - i) % 3 == (|a| - i) % 3;
      assert GroupedFrom(s, i) == head + GroupedFrom(s, i + 1);
      assert GroupedFrom(a, i) == head + GroupedFrom(a, i + 1);
    }
  }

  lemma {:induction false} GroupedFromFront(s: Text)
    ensures GroupedFrom(s, 0) == Grouped(s)
  {
    if |s| <= 3 {
      assert |s| >= 1 ==> GroupedFrom(s, |s| - 1) == [s[|s| - 1]];
      assert |s| >= 2 ==> GroupedFrom(s, |s| - 2) == [s[|s| - 2], s[|s| - 1]];
      assert |s| == 3 ==> GroupedFrom(s, 0) == [s[0], s[1], s[2]];
    } else {
      GroupedFromFront(s[..|s| - 3]);
      LastGroup(s[..|s| - 3], s[|s| - 3..], 0);
      assert s == s[..|s| - 3] + s[|s| - 3..];
    }
  }

  /** Taking the commas out gives the plain digits back. */
  function WithoutCommas(s: Text): Text {
    if s == [] then []
    else WithoutCommas(s[..|s| - 1]) + if s[|s| - 1] == COMMA then [] else [s[|s| - 1]]
  }

  lemma {:induction false} WithoutCommasAppends(s: Text, t: Text)
    ensures WithoutCommas(s + t) == WithoutCommas(s) + WithoutCommas(t)
  {
    if t == [] {
      assert s + t == s;
    } else {
      assert (s + t)[..|s + t| - 1] == s + t[..|t| - 1];
      WithoutCommasAppends(s, t[..|t| - 1]);
    }
  }

  lemma {:induction false} NoCommas(s: Text)
    requires COMMA !in s
    ensures WithoutCommas(s) == s
  {
    if s != [] {
      NoCommas(s[..|s| - 1]);
    }
  }

  lemma {:induction false} DroppingOneComma(front: Text, last: Text)
    requires COMMA !in last
    ensures WithoutCommas(front + [COMMA] + last) == WithoutCommas(front) + last
  {
    NoCommas(last);
    WithoutCommasAppends(front + [COMMA], last);
    assert (front + [COMMA])[..|front|] == front;
  }

  lemma {:induction false} GroupingOnlyAddsCommas(s: Text)
    requires COMMA !in s
    ensures WithoutCommas(Grouped(s)) == s
  {
    if |s| <= 3 {
      NoCommas(s);
    } else {
      GroupingOnlyAddsCommas(s[..|s| - 3]);
      DroppingOneComma(Grouped(s[..|s| - 3]), s[|s| - 3..]);
    }
  }

  lemma {:induction false} GroupedLength(s: Text)
    requires s != []
    ensures |Grouped(s)| == |s| + (|s| - 1) / 3
  {
    if |s| > 3 {
      GroupedLength(s[..|s| - 3]);
    }
  }

  lemma {:induction false} CommasEveryFourth(s: Text, i: nat)
    requires COMMA !in s && i < |Grouped(s)|
    ensures Grouped(s)[i] == COMMA <==> (|Grouped(s)| - i) % 4 == 0
  {
    if |s| > 3 {
      var all, front, last := Grouped(s), Grouped(s[..|s| - 3]), s[|s| - 3..];
      assert all == front + [COMMA] + last;
      hide Grouped;
      if i < |front| {
        CommasEveryFourth(s[..|s| - 3], i);
        assert all[i] == front[i] && |all| - i == (|front| - i) + 4;
      } else if i == |front| {
        assert all[i] == COMMA && |all| - i == 4;
      } else {
        assert all[i] == last[i - |front| - 1] && 1 <= |all| - i <= 3;
      }
    } else {
      assert 1 <= |Grouped(s)| - i <= 3;
    }
  }

  lemma {:induction false} GroupedIsText(s: Text)
    requires IsText(s)
    ensures IsText(Grouped(s))
  {
    if |s| > 3 { GroupedIsText(s[..|s| - 3]); }
  }

  /** A numeral is canonical: no NUL, comma or leading zero, and only 0 starts with 0. */
  lemma {:induction false} NumeralsAreCanonical(v: nat, base: Base)
    ensures IsText(Numeral(v, base)) && COMMA !in Numeral(v, base) && Numeral(v, base) != []
    ensures Numeral(v, base)[0] == ZERO <==> v == 0
  {
    hide DigitsOf;
    DigitsMeanTheNumber(v, base);
  }

  /** What ValueToString prints is text, and short. */
  lemma {:induction false} DecimalFits(v: int, comma: bool)
    requires -Division.TWO_63 <= v < Division.TWO_63
    ensures IsText(Decimal(v, comma)) && |Decimal(v, comma)| <= 30
  {
    var n: U64 := if v < 0 then -v else v;
    WordsFit(n);
    NumeralsAreCanonical(n, Dec);
    GroupedLength(Numeral(n, Dec));
    GroupedIsText(Numeral(n, Dec));
  }

  method ValueToString(buffer: array<Char16>, comma: bool, value: int)
    requires -Division.TWO_63 <= value < Division.TWO_63
    requires |Decimal(value, comma)| < buffer.Length
    modifies buffer
    ensures Holds(buffer[..], Decimal(value, comma))
  {
    if value == 0 {
      assert Decimal(0, comma) == [ZERO];
      buffer[0] := ZERO;
      buffer[1] := 0;
      return;
    }
    var v: U64, m := if value < 0 then -value else value, 0;
    ghost var text := PlainText(v, Dec);
    ghost var body := if comma then Grouped(text) else text;
    ghost var sign := if value < 0 then [MINUS] else [];
    assert Decimal(value, comma) == sign + body;
    WordsFit(v);
    if value < 0 {
      buffer[0] := MINUS;
      m := 1;
    }
    var str, n := ReversedDigits(v, text);
    GroupedFromFront(text);
    WriteGrouped(buffer, m, str, n, comma, sign, text);
  }

  // ----- reading back what was written -----

  lemma {:induction false} LeadingDigitsOfGlyphs(digits: seq<nat>, tail: Text, base: Base)
    requires AreDigits(digits, base)
    requires tail == [] || Digit(tail[0], base).None?
    ensures LeadingDigits(Glyphs(digits) + tail, base) == digits
  {
    var s := Glyphs(digits) + tail;
    if digits == [] {
      assert s == tail;
    } else {
      assert Digit(s[0], base) == Some(digits[0]);
      assert s[1..] == Glyphs(digits[1..]) + tail;
      LeadingDigitsOfGlyphs(digits[1..], tail, base);
    }
  }

  lemma {:induction false} DigitsReadBack(digits: seq<nat>, tail: Text, base: Base)
    requires digits != [] && AreDigits(digits, base)
    requires tail == [] || Digit(tail[0], base).None?
    ensures NumberIn(Glyphs(digits) + tail, base) == Wrap(ValueOf(digits, base))
  {
    LeadingDigitsOfGlyphs(digits, tail, base);
    assert (Glyphs(digits) + tail)[0] == Glyph(digits[0]) != SPACE;
  }

  lemma {:induction false} NonzeroReadsBack(v: nat, tail: Text, base: Base)
    requires v != 0 && (tail == [] || Digit(tail[0], base).None?)
    ensures NumberIn(PlainText(v, base) + tail, base) == Wrap(v)
  {
    DigitsMeanTheNumber(v, base);
    DigitsReadBack(DigitsOf(v, base), tail, base);
  }

  lemma {:induction false} ZeroReadsBack(tail: Text, base: Base)
    requires tail == [] || Digit(tail[0], base).None?
    ensures NumberIn([ZERO] + tail, base) == 0
  {
    DigitsReadBack([0], tail, base);
    assert Glyphs([0]) == [ZERO];
  }

  /** Any number below 2^64, in decimal or hexadecimal, is read back from its text, up
      to the first character that is no digit. */
  lemma {:induction false} NumeralsReadBack(v: U64, base: Base, tail: Text)
    requires tail == [] || Digit(tail[0], base).None?
    ensures NumberIn(Numeral(v, base) + tail, base) == v
  {
    hide NumberIn, PlainText;
    if v == 0 {
      ZeroReadsBack(tail, base);
    } else {
      NonzeroReadsBack(v, tail, base);
    }
  }

  /** xtoi undoes ValueToHex. */
  lemma {:induction false} XtoiUndoesValueToHex(v: U64)
    ensures NumberIn(Numeral(v, Hex), Hex) == v
  {
    NumeralsReadBack(v, Hex, []);
    assert Numeral(v, Hex) + [] == Numeral(v, Hex);
  }

  /** Atoi undoes ValueToString without commas. */
  lemma {:induction false} AtoiUndoesValueToString(v: nat)
    requires v < Division.TWO_63
    ensures NumberIn(Decimal(v, false), Dec) == v
  {
    NumeralsReadBack(v, Dec, []);
    assert Numeral(v, Dec) + [] == Decimal(v, false);
  }

  /** v divided by the power of 1000 that leaves its first group of digits. */
  function FirstGroup(v: nat): nat {
    if v < 1000 then v else FirstGroup(v / 1000)
  }

  /** Reading stops at a comma, whatever stands before it. */
  lemma {:induction false} CommaEndsDigits(s: Text, t: Text)
    ensures LeadingDigits(s + [COMMA] + t, Dec) == LeadingDigits(s, Dec)
  {
    var whole := s + [COMMA] + t;
    if s == [] {
      assert whole[0] == COMMA;
    } else {
      assert whole[0] == s[0] && whole[1..] == s[1..] + [COMMA] + t;
      CommaEndsDigits(s[1..], t);
    }
  }

  /** A thousand times as much has three digits more. */
  lemma {:induction false} ThreeMoreDigits(v: nat)
    requires v >= 1000
    ensures |Numeral(v, Dec)| > 3 && Numeral(v, Dec)[..|Numeral(v, Dec)| - 3] == Numeral(v / 1000, Dec)
  {
    assert v / 10 / 10 / 10 == v / 1000;
    PlainTextUnfolds(v, Dec);
    PlainTextUnfolds(v / 10, Dec);
    PlainTextUnfolds(v / 10 / 10, Dec);
    NumeralsAreCanonical(v / 1000, Dec);
  }

  lemma {:induction false} ShortNumeral(v: nat)
    requires v < 1000
    ensures |Numeral(v, Dec)| <= 3 && LeadingDigits(Numeral(v, Dec), Dec) != []
    ensures ValueOf(LeadingDigits(Numeral(v, Dec), Dec), Dec) == v
  {
    assert Power(Dec, 3) == 1000;
    DigitsFit(v, Dec, 3);
    DigitsMeanTheNumber(v, Dec);
    var digits := if v == 0 then [0] else DigitsOf(v, Dec);
    assert Glyphs(digits) == Numeral(v, Dec) == Numeral(v, Dec) + [];
    LeadingDigitsOfGlyphs(digits, [], Dec);
  }

  lemma {:induction false} GroupedReadsFirstGroup(v: nat)
    ensures LeadingDigits(Grouped(Numeral(v, Dec)), Dec) != []
    ensures ValueOf(LeadingDigits(Grouped(Numeral(v, Dec)), Dec), Dec) == FirstGroup(v)
  {
    var s := Numeral(v, Dec);
    if v < 1000 {
      ShortNumeral(v);
    } else {
      ThreeMoreDigits(v);
      GroupedReadsFirstGroup(v / 1000);
      CommaEndsDigits(Grouped(s[..|s| - 3]), s[|s| - 3..]);
    }
  }

  lemma {:induction false} FirstGroupIsWholeIfSmall(v: nat)
    ensures FirstGroup(v) <= v && (FirstGroup(v) == v <==> v < 1000)
  {
    if v >= 1000 {
      FirstGroupIsWholeIfSmall(v / 1000);
    }
  }

  lemma {:induction false} DigitsComeFirst(s: Text)
    requires LeadingDigits(s, Dec) != []
    ensures SkipSpaces(s) == s
  {
  }

  /** With commas Atoi reads the first group alone, so it undoes ValueToString exactly
      below 1000. */
  lemma {:induction false} AtoiReadsFirstGroup(v: nat)
    requires v < Division.TWO_63
    ensures NumberIn(Decimal(v, true), Dec) == FirstGroup(v)
    ensures NumberIn(Decimal(v, true), Dec) == v <==> v < 1000
  {
    hide Grouped, Numeral, LeadingDigits, ValueOf, FirstGroup;
    var s := Grouped(Numeral(v, Dec));
    GroupedReadsFirstGroup(v);
    FirstGroupIsWholeIfSmall(v);
    DigitsComeFirst(s);
    assert Decimal(v, true) == [] + s == s;
  }
}
