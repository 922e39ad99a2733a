/**
 What the formats of lib/print.c print, with every character code written out: a reference
 for module PrintFormat that starts from the documentation of _Print (print.c:1039-1075)
 and says, for each conversion and each option, what text comes of which argument.
 */
module PrintMeaning {
  import opened Words
  import opened Glob
  import opened Numbers
  import opened Numerals
  import opened PrintFormat

  // ----- conversions as they are written -----

  /** A width: not given, given in digits, or an asterisk that takes it from an argument. */
  datatype Count = Absent | Digits(text: Text) | Argument(slot: Slot)
  {
    ghost predicate Valid() {
      Digits? ==> text != [] && AreDecimal(text) && text[0] != 48
    }

    function Written(): Text {
      match this case Absent => [] case Digits(t) => t case Argument(_) => [42]
    }

    function Slots(): seq<Slot> {
      match this case Absent => [] case Digits(_) => [] case Argument(s) => [s]
    }

    ghost function Value(): (v: U64)
      requires Valid()
    {
      match this
      case Absent => 0
      case Digits(t) => DecimalValue(t) % 0x1_0000_0000_0000_0000
      case Argument(s) => s.word
    }
  }

  /** Zero, minus, comma, l, and the attribute letters n, h, e, N, H, E. */
  ghost predicate AreFlags(s: Text) {
    forall i :: 0 <= i < |s| ==> s[i] in {48, 45, 44, 108, 110, 104, 101, 78, 72, 69}
  }

  /** a, s, c, X, x, u, d, g, D, f, t, r. */
  predicate TakesArgument(letter: Char16) {
    letter in {97, 115, 99, 88, 120, 117, 100, 103, 68, 102, 116, 114}
  }

  /** A conversion: flags, a width, a dot and a field width, more flags, and its letter,
      which is any character that is no option. */
  datatype Directive = Directive(before: Text, width: Count, dot: bool, field: Count, behind: Text, letter: Char16)
  {
    ghost predicate Valid() {
      && AreFlags(before) && AreFlags(behind) && 48 !in behind
      && width.Valid() && field.Valid() && (!dot ==> field.Absent?)
      && letter !in {48, 45, 44, 108, 110, 104, 101, 78, 72, 69, 42, 46} && !(48 <= letter <= 57)
    }

    function Written(): Text {
      [37] + (before + (width.Written() + (if dot then [46] + (field.Written() + (behind + [letter])) else behind + [letter])))
    }

    function Flags(): Text {
      before + behind
    }

    function Slots(arg: Slot): seq<Slot> {
      width.Slots() + (field.Slots() + (if TakesArgument(letter) then [arg] else []))
    }
  }

  // ----- what they say -----

  /** The integer of `bits` bits in two's complement that a word holds in its low end. */
  ghost predicate Holds32(w: U64, v: int) {
    -0x8000_0000 <= v < 0x8000_0000 && (v - w) % 0x1_0000_0000 == 0
  }

  ghost predicate Holds64(w: U64, v: int) {
    -0x8000_0000_0000_0000 <= v < 0x8000_0000_0000_0000 && (v - w) % 0x1_0000_0000_0000_0000 == 0
  }

  /** What a conversion letter makes of its argument, before any padding. With l, u prints
      its word as a signed number, just as d does. */
  ghost predicate Says(letter: Char16, long: bool, commas: bool, arg: Slot, text: Text) {
    if letter == 100 && !long then
      exists v: int :: Holds32(arg.word, v) && IsInteger(text, v, commas)
    else if letter == 117 && !long then
      IsInteger(text, arg.word % 0x1_0000_0000, commas)
    else if letter == 100 || letter == 117 then
      exists v: int :: Holds64(arg.word, v) && IsInteger(text, v, commas)
    else if letter == 120 || letter == 88 then
      IsHexadecimal(text, if long then arg.word else arg.word % 0x1_0000_0000)
    else if letter == 99 then
      text == if arg.word % 0x1_0000 == 0 then [] else [arg.word % 0x1_0000]
    else if letter == 97 || letter == 115 then
      text == match arg.text case Some(s) => s case None => [40, 110, 117, 108, 108, 41]
    else if letter in {103, 68, 102, 116, 114} then
      text == arg.described
    else
      text == [if letter == 37 then 37 else 63]
  }

  ghost function Row(c: Char16, n: int): (s: Text)
    ensures |s| == (if n > 0 then n else 0) && forall i :: 0 <= i < |s| ==> s[i] == c
  {
    if n > 0 then seq(n, _ => c) else []
  }

  /** The text cut to the field width `field`, if one is given, and padded in front up to
      the width with zeros or blanks; blanks fill the rest of the field, in front or, if
      `left`, behind. */
  ghost function Laid(text: Text, width: nat, field: Option<nat>, zeros: bool, left: bool): Text {
    var shown := if field.Some? && field.value < |text| then text[..field.value] else text;
    var padded := Row(if zeros then 48 else 32, width - |shown|) + shown;
    var blanks := Row(32, if field.Some? then field.value - |padded| else 0);
    if left then padded + blanks else blanks + padded
  }

  /** X is x, at a width of 16 with l and of 8 without, with zeros. */
  ghost function LaidOut(d: Directive, text: Text): Text
    requires d.Valid()
  {
    var fixed := d.letter == 88;
    Laid(text,
         if fixed then if 108 in d.Flags() then 16 else 8 else d.width.Value(),
         if d.field.Absent? || d.field.Value() == 0xFFFF_FFFF_FFFF_FFFF then None else Some(d.field.Value()),
         48 in d.Flags() || fixed, 45 in d.Flags())
  }

  /** Each newline gets a carriage return in front. */
  ghost function WithReturns(s: Text): Text {
    if s == [] then [] else (if s[0] == 10 then [13, 10] else [s[0]]) + WithReturns(s[1..])
  }

  /** Of two renderings, one has `text` in front of the other, or neither exists. */
  ghost predicate Puts(whole: Option<Text>, text: Text, rest: Option<Text>) {
    if rest.None? then whole.None? else whole == Some(WithReturns(text) + rest.value)
  }

  // ----- reading a conversion -----

  ghost function AfterFlags(st: Item, flags: Text): Item {
    st.(zeros := st.zeros || 48 in flags, padBefore := st.padBefore && 45 !in flags,
        comma := st.comma || 44 in flags, long := st.long || 108 in flags)
  }

  lemma {:induction false} OneFlag(st: Item, c: Char16)
    requires c in {48, 45, 44, 108, 110, 104, 101, 78, 72, 69}
    ensures KindOf(c) == Flag && SetFlag(st, c) == AfterFlags(st, [c])
  {
  }

  lemma {:induction false} FlagsAfterFlags(st: Item, c: Char16, flags: Text)
    ensures AfterFlags(AfterFlags(st, [c]), flags) == AfterFlags(st, [c] + flags)
  {
  }

  lemma {:induction false} FlagsParse(flags: Text, rest: Text, args: seq<Slot>, st: Item)
    requires AreFlags(flags)
    ensures Parse(flags + rest, args, st) == Parse(rest, args, AfterFlags(st, flags))
  {
    if flags == [] {
      assert flags + rest == rest;
    } else {
      var c := flags[0];
      OneFlag(st, c);
      FlagsAfterFlags(st, c, flags[1..]);
      hide AfterFlags, KindOf, SetFlag;
      assert (flags + rest)[1..] == flags[1..] + rest && flags == [c] + flags[1..];
      FlagsParse(flags[1..], rest, args, AfterFlags(st, [c]));
    }
  }

  lemma {:induction false} CountParse(c: Count, rest: Text, args: seq<Slot>, st: Item)
    requires c.Valid() && (rest == [] || !(48 <= rest[0] <= 57))
    ensures Parse(c.Written() + rest, c.Slots() + args, st)
         == Parse(rest, args, if c.Absent? then st else st.WithWidth(c.Value()))
  {
    match c
    case Absent =>
      assert [] + rest == rest && [] + args == args;
    case Digits(t) =>
      var fmt := t + rest;
      DecimalDigitsRead(t, rest);
      DecimalValueIs(t, LeadingDigits(fmt, Dec));
      assert fmt[0] == t[0] && KindOf(fmt[0]) == Number;
      assert WidthIn(fmt) == (c.Value(), rest);
      assert [] + args == args;
    case Argument(s) =>
      assert ([42] + rest)[1..] == rest && ([s] + args)[1..] == args;
  }

  lemma {:induction false} DotParse(rest: Text, args: seq<Slot>, st: Item)
    ensures Parse([46] + rest, args, st) == Parse(rest, args, st.(toField := true))
  {
    assert ([46] + rest)[1..] == rest;
  }

  lemma {:induction false} LetterParse(letter: Char16, rest: Text, arg: Slot, args: seq<Slot>, st: Item)
    requires letter !in {48, 45, 44, 108, 110, 104, 101, 78, 72, 69, 42, 46} && !(48 <= letter <= 57)
    ensures Parse([letter] + rest, (if TakesArgument(letter) then [arg] else []) + args, st)
         == Some(Parsed(Converted(letter, st, if TakesArgument(letter) then arg else NO_ARGUMENT), ConvertedItem(letter, st), rest, args))
  {
    assert ([letter] + rest)[1..] == rest && ([arg] + args)[1..] == args && [] + args == args;
    assert KindOf(letter) == Convert && (NeedsArgument(letter) <==> TakesArgument(letter));
  }

  /** The options a conversion ends up with. */
  ghost function Options(d: Directive): Item
    requires d.Valid()
  {
    var st := AfterFlags(NEW_ITEM, d.before);
    var sized := if d.width.Absent? then st else st.(width := d.width.Value());
    var fielded := if !d.dot then sized
                   else if d.field.Absent? then sized.(toField := true)
                   else sized.(toField := true, fieldWidth := d.field.Value());
    AfterFlags(fielded, d.behind)
  }

  lemma {:induction false} TailParse(d: Directive, arg: Slot, fmt: Text, args: seq<Slot>, st: Item)
    requires d.Valid()
    ensures Parse(d.behind + [d.letter] + fmt, (if TakesArgument(d.letter) then [arg] else []) + args, st)
         == Some(Parsed(Converted(d.letter, AfterFlags(st, d.behind), if TakesArgument(d.letter) then arg else NO_ARGUMENT),
                        ConvertedItem(d.letter, AfterFlags(st, d.behind)), fmt, args))
  {
    hide Parse, Converted, ConvertedItem;
    var slots := (if TakesArgument(d.letter) then [arg] else []) + args;
    assert d.behind + [d.letter] + fmt == d.behind + ([d.letter] + fmt);
    FlagsParse(d.behind, [d.letter] + fmt, slots, st);
    LetterParse(d.letter, fmt, arg, args, AfterFlags(st, d.behind));
  }

  lemma {:induction false} FieldParse(d: Directive, tail: Text, args: seq<Slot>, st: Item)
    requires d.Valid() && !st.toField && (tail == [] || !(48 <= tail[0] <= 57))
    ensures Parse((if d.dot then [46] + d.field.Written() else []) + tail, d.field.Slots() + args, st)
         == Parse(tail, args, if !d.dot then st else if d.field.Absent? then st.(toField := true)
                              else st.(toField := true, fieldWidth := d.field.Value()))
  {
    hide Parse;
    if d.dot {
      assert [46] + d.field.Written() + tail == [46] + (d.field.Written() + tail);
      DotParse(d.field.Written() + tail, d.field.Slots() + args, st);
      CountParse(d.field, tail, args, st.(toField := true));
    } else {
      assert [] + tail == tail && [] + args == args;
    }
  }

  /** Behind its percent sign, a conversion is read whole. */
  lemma {:induction false} DirectiveParse(d: Directive, arg: Slot, fmt: Text, args: seq<Slot>)
    requires d.Valid()
    ensures Parse((d.Written() + fmt)[1..], d.Slots(arg) + args, NEW_ITEM)
         == Some(Parsed(Converted(d.letter, Options(d), if TakesArgument(d.letter) then arg else NO_ARGUMENT),
                        ConvertedItem(d.letter, Options(d)), fmt, args))
  {
    hide Parse, Converted, ConvertedItem, Count.Written, Count.Slots;
    var own := if TakesArgument(d.letter) then [arg] else [];
    var tail := d.behind + [d.letter] + fmt;
    var middle := (if d.dot then [46] + d.field.Written() else []) + tail;
    var st1 := AfterFlags(NEW_ITEM, d.before);
    var st2 := if d.width.Absent? then st1 else st1.WithWidth(d.width.Value());
    assert (d.Written() + fmt)[1..] == d.before + (d.width.Written() + middle);
    assert d.Slots(arg) + args == d.width.Slots() + (d.field.Slots() + (own + args));
    FlagsParse(d.before, d.width.Written() + middle, d.Slots(arg) + args, NEW_ITEM);
    CountParse(d.width, middle, d.field.Slots() + (own + args), st1);
    FieldParse(d, tail, own + args, st2);
    TailParse(d, arg, fmt, args, if !d.dot then st2 else if d.field.Absent? then st2.(toField := true)
                                 else st2.(toField := true, fieldWidth := d.field.Value()));
  }

  // ----- the texts -----

  lemma {:induction false} WordsHold(w: U64)
    ensures Holds32(w, Signed32(w)) && Holds64(w, Signed64(w))
  {
  }

  lemma {:induction false} LetterSays(letter: Char16, st: Item, arg: Slot)
    ensures Says(letter, st.long, st.comma, arg, Converted(letter, st, if TakesArgument(letter) then arg else NO_ARGUMENT))
  {
    hide IsInteger, IsHexadecimal, Decimal, Numeral;
    var w := arg.word;
    WordsHold(w);
    if letter == 100 || letter == 117 {
      IntegerPrinted(Printed(letter, st.long, w), st.comma);
    } else if letter == 120 || letter == 88 {
      HexadecimalPrinted(if st.long then w else w % 0x1_0000_0000);
    }
  }

  lemma {:induction false} FillIsRow(c: Char16, n: int)
    ensures Fill(c, n) == Row(c, n)
  {
  }

  lemma {:induction false} RowsOfNothing(c: Char16, m: int, n: int)
    requires m == n || (m <= 0 && n <= 0)
    ensures Row(c, m) == Row(c, n)
  {
  }

  lemma {:induction false} Arranged(spaces: Text, fill: Text, shown: Text, before: bool)
    ensures (if before then spaces else []) + fill + shown + (if before then [] else spaces)
         == if before then spaces + (fill + shown) else (fill + shown) + spaces
  {
  }

  /** A field as its parts: the text shown, the fill in front of it, and blanks. */
  ghost function Parts(shown: Text, fill: Text, blanks: Text, before: bool): Text {
    if before then blanks + (fill + shown) else (fill + shown) + blanks
  }

  lemma {:induction false} PartsOfField(text: Text, st: Item)
    ensures var shown, width, field := Shown(text, st), Width(text, st), FieldWidth(text, st);
            Field(text, st) == Parts(shown, Row(st.Pad(), width - |shown|), Row(32, field - width), st.padBefore)
  {
    var shown, width, field := Shown(text, st), Width(text, st), FieldWidth(text, st);
    FillIsRow(st.Pad(), width - |shown|);
    FillIsRow(SPACE, field - width);
    hide Row, Fill, Shown, Width, FieldWidth;
    Arranged(Row(32, field - width), Row(st.Pad(), width - |shown|), shown, st.padBefore);
  }

  lemma {:induction false} PartsOfLaid(text: Text, width: nat, field: Option<nat>, zeros: bool, left: bool, shown: Text, w: nat, b: int)
    requires shown == if field.Some? && field.value < |text| then text[..field.value] else text
    requires w == if |shown| > width then |shown| else width
    requires if field.Some? then b == field.value - w else b <= 0
    ensures Laid(text, width, field, zeros, left) == Parts(shown, Row(if zeros then 48 else 32, w - |shown|), Row(32, b), !left)
  {
    var pad: Char16 := if zeros then 48 else 32;
    RowsOfNothing(pad, w - |shown|, width - |shown|);
    assert |Row(pad, width - |shown|) + shown| == w;
    RowsOfNothing(32, b, if field.Some? then field.value - w else 0);
    hide Row;
  }

  lemma {:induction false} FieldIsLaid(text: Text, st: Item)
    requires |text| < 0xFFFF_FFFF_FFFF_FFFF
    ensures Field(text, st)
         == Laid(text, st.width, if st.fieldWidth == 0xFFFF_FFFF_FFFF_FFFF then None else Some(st.fieldWidth), st.zeros, !st.padBefore)
  {
    hide Field, Laid, Row, Parts;
    PartsOfField(text, st);
    PartsOfLaid(text, st.width, if st.fieldWidth == NO_WIDTH then None else Some(st.fieldWidth), st.zeros, !st.padBefore,
                Shown(text, st), Width(text, st), FieldWidth(text, st) - Width(text, st));
  }

  lemma {:induction false} ExpandIsWithReturns(s: Text)
    ensures Expand(s) == WithReturns(s)
  {
    if s != [] {
      assert s == [s[0]] + s[1..];
      ExpandSplits([s[0]], s[1..]);
      ExpandOne(s[0]);
      ExpandIsWithReturns(s[1..]);
    }
  }

  /** Texts that a 64-bit memory can hold. */
  predicate Storable(arg: Slot) {
    |arg.described| < 0xFFFF_FFFF_FFFF_FFFF && (arg.text.Some? ==> |arg.text.value| < 0xFFFF_FFFF_FFFF_FFFF)
  }

  lemma {:induction false} ConvertedIsShort(letter: Char16, st: Item, arg: Slot)
    requires Storable(arg)
    ensures |Converted(letter, st, if TakesArgument(letter) then arg else NO_ARGUMENT)| < 0xFFFF_FFFF_FFFF_FFFF
  {
    hide Decimal;
    var w := arg.word;
    if letter == 100 || letter == 117 {
      DecimalFits(Printed(letter, st.long, w), st.comma);
    } else if letter == 120 || letter == 88 {
      WordsFit(if st.long then w else w % 0x1_0000_0000);
    }
  }

  lemma {:induction false} OptionsAre(d: Directive)
    requires d.Valid()
    ensures var st := Options(d);
            && st.zeros == (48 in d.Flags()) && st.padBefore == (45 !in d.Flags())
            && st.comma == (44 in d.Flags()) && st.long == (108 in d.Flags())
            && st.width == d.width.Value()
            && st.fieldWidth == if d.field.Absent? then 0xFFFF_FFFF_FFFF_FFFF else d.field.Value()
  {
    assert forall c: Char16 :: c in d.Flags() <==> c in d.before || c in d.behind;
  }

  lemma {:induction false} OptionsLayOut(d: Directive, text: Text)
    requires d.Valid() && |text| < 0xFFFF_FFFF_FFFF_FFFF
    ensures Field(text, ConvertedItem(d.letter, Options(d))) == LaidOut(d, text)
    ensures Options(d).long == (108 in d.Flags()) && Options(d).comma == (44 in d.Flags())
  {
    OptionsAre(d);
    hide Field, Laid, Options, Directive.Flags, Directive.Valid, Count.Value;
    FieldIsLaid(text, ConvertedItem(d.letter, Options(d)));
  }

  lemma {:induction false} RenderOne(fmt: Text, args: seq<Slot>)
    requires fmt != [] && fmt[0] == 37
    ensures Render(fmt, args)
         == match Parse(fmt[1..], args, NEW_ITEM)
            case None => None
            case Some(p) => Prepend(Expand(Field(p.text, p.st)), Render(p.fmt, p.args))
  {
  }

  /** Every conversion puts out what its letter says, laid out as its options say, and the
      rest of the format follows. */
  lemma {:induction false} DirectiveMeans(d: Directive, arg: Slot, fmt: Text, args: seq<Slot>) returns (text: Text)
    requires d.Valid() && Storable(arg)
    ensures Says(d.letter, 108 in d.Flags(), 44 in d.Flags(), arg, text)
    ensures Puts(Render(d.Written() + fmt, d.Slots(arg) + args), LaidOut(d, text), Render(fmt, args))
  {
    text := Converted(d.letter, Options(d), if TakesArgument(d.letter) then arg else NO_ARGUMENT);
    LetterSays(d.letter, Options(d), arg);
    ConvertedIsShort(d.letter, Options(d), arg);
    OptionsLayOut(d, text);
    DirectiveParse(d, arg, fmt, args);
    ExpandIsWithReturns(LaidOut(d, text));
    RenderOne(d.Written() + fmt, d.Slots(arg) + args);
  }

  /** Any other character stands for itself, and the end of the format for nothing. */
  lemma {:induction false} PlainMeans(c: Char16, fmt: Text, args: seq<Slot>)
    requires c != 37
    ensures Puts(Render([c] + fmt, args), [c], Render(fmt, args))
    ensures Render([], args) == Some([])
  {
    assert ([c] + fmt)[1..] == fmt;
    ExpandIsWithReturns([c]);
  }

  // ----- u with l -----

  lemma {:induction false} NoCommasKeeps(s: Text, c: Char16)
    requires c in s && c != 44
    ensures c in NoCommasIn(s)
  {
    if s[|s| - 1] != c { NoCommasKeeps(s[..|s| - 1], c); }
  }

  lemma {:induction false} NoMinusInMagnitude(s: Text, v: nat, commas: bool)
    requires s != [] && s[0] == 45
    ensures !IsMagnitude(s, v, commas)
  {
    if commas { NoCommasKeeps(s, 45); }
  }

  /** The documentation has u print an unsigned number; with l it does so exactly below 2^63. */
  lemma {:induction false} LongUnsignedIffBelow2Pow63(arg: Slot, commas: bool, text: Text)
    requires Says(117, true, commas, arg, text)
    ensures IsInteger(text, arg.word, commas) <==> arg.word < 0x8000_0000_0000_0000
  {
    hide IsMagnitude;
    var v: int :| Holds64(arg.word, v) && IsInteger(text, v, commas);
    assert v == if arg.word < 0x8000_0000_0000_0000 then arg.word else arg.word - 0x1_0000_0000_0000_0000;
    if v < 0 {
      NoMinusInMagnitude(text, arg.word, commas);
    }
  }

  // ----- X -----

  ghost function Sixteen(k: nat): (p: nat)
    ensures p > 0
  {
    if k == 0 then 1 else 16 * Sixteen(k - 1)
  }

  lemma {:induction false} HexadecimalIsLong(s: Text)
    requires s != [] && AreHexadecimal(s) && s[0] != 48
    ensures HexadecimalValue(s) >= Sixteen(|s| - 1)
  {
    if |s| > 1 {
      HexadecimalIsLong(s[..|s| - 1]);
    }
  }

  lemma {:induction false} SixteenGrows(j: nat, k: nat)
    requires j <= k
    ensures Sixteen(j) <= Sixteen(k)
  {
    if j < k { SixteenGrows(j, k - 1); }
  }

  lemma {:induction false} SixteenToWords()
    ensures Sixteen(8) == 0x1_0000_0000 && Sixteen(16) == 0x1_0000_0000_0000_0000
  {
    assert Sixteen(4) == 0x1_0000;
    assert Sixteen(12) == 0x1_0000_0000_0000;
  }

  lemma {:induction false} HexadecimalFits(s: Text, v: nat, digits: nat)
    requires IsHexadecimal(s, v) && v < Sixteen(digits) && digits > 0
    ensures |s| <= digits
  {
    if |s| > digits {
      HexadecimalIsLong(s);
      SixteenGrows(digits, |s| - 1);
    }
  }

  lemma {:induction false} LaidWithZeros(text: Text, digits: nat, left: bool)
    requires |text| <= digits
    ensures var laid := Laid(text, digits, None, true, left);
            && |laid| == digits && laid[digits - |text|..] == text
            && forall i :: 0 <= i < digits - |text| ==> laid[i] == 48
  {
    assert Row(32, 0) == [];
    assert Laid(text, digits, None, true, left) == Row(48, digits - |text|) + text;
  }

  /** Without a field width X is always 8 digits, or 16 with l: zeros, then the numeral. */
  lemma {:induction false} FixedHexadecimalIsFilled(d: Directive, arg: Slot, text: Text)
    requires d.Valid() && d.letter == 88 && d.field.Absent? && Says(88, 108 in d.Flags(), 44 in d.Flags(), arg, text)
    ensures var digits := if 108 in d.Flags() then 16 else 8;
            && |LaidOut(d, text)| == digits && |text| <= digits
            && LaidOut(d, text)[digits - |text|..] == text
            && forall i :: 0 <= i < digits - |text| ==> LaidOut(d, text)[i] == 48
  {
    hide Laid, IsHexadecimal, Sixteen, Directive.Flags, Directive.Valid;
    var digits := if 108 in d.Flags() then 16 else 8;
    SixteenToWords();
    HexadecimalFits(text, if 108 in d.Flags() then arg.word else arg.word % 0x1_0000_0000, digits);
    LaidWithZeros(text, digits, 45 in d.Flags());
  }
}
