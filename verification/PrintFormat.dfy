/**
 What the format strings of lib/print.c mean, in one go and without buffers: the text
 _Print produces for a format and its arguments.
 */
module PrintFormat {
  import opened Words
  import opened Glob
  import opened Numbers
  import Division

  const LF: Char16 := 0x0A
  const CR: Char16 := 0x0D
  const PERCENT: Char16 := 0x25
  const NULL_TEXT: Text := [0x28, 0x6E, 0x75, 0x6C, 0x6C, 0x29]

  // Flags: pad with zeros, pad behind, group digits, give the field width, 64-bit value.
  const PAD_ZERO: Char16 := 0x30
  const PAD_BEHIND: Char16 := 0x2D
  const GROUP: Char16 := 0x2C
  const DOT: Char16 := 0x2E
  const LONG: Char16 := 0x6C

  // Attributes, for the field (n, h, e) and from here on (N, H, E).
  const FIELD_ATTRIBUTES: set<Char16> := {0x6E, 0x68, 0x65}
  const ATTRIBUTES: set<Char16> := {0x4E, 0x48, 0x45}

  // Conversions: a, s, c, X, x, u, d.
  const ASCII_STRING: Char16 := 0x61
  const STRING: Char16 := 0x73
  const CHARACTER: Char16 := 0x63
  const HEX_FIXED: Char16 := 0x58
  const HEX_VALUE: Char16 := 0x78
  const UNSIGNED: Char16 := 0x75
  const SIGNED: Char16 := 0x64

  // Conversions whose text other routines make: g, D, f, t, r.
  const GUID: Char16 := 0x67
  const DEVICE_PATH: Char16 := 0x44
  const FLOAT: Char16 := 0x66
  const TIME: Char16 := 0x74
  const STATUS: Char16 := 0x72

  /** (UINTN) -1: no field width given. */
  const NO_WIDTH: U64 := 0xFFFF_FFFF_FFFF_FFFF

  /** One variadic argument: what it is as an integer, the text it points to when it is
      used as a string, None being NULL, and the text that GuidToString, DevicePathToStr,
      FloatToString, TimeToString or StatusToString makes of it. */
  datatype Slot = Slot(word: U64, text: Option<Text>, described: Text)
  {
    predicate HoldsText() {
      (text.Some? ==> IsText(text.value)) && IsText(described)
    }
  }

  const NO_ARGUMENT: Slot := Slot(0, None, [])

  predicate SlotsHoldText(args: seq<Slot>) {
    forall i :: 0 <= i < |args| ==> args[i].HoldsText()
  }

  /** The parts of PRINT_ITEM that a conversion's options set. */
  datatype Item = Item(width: U64, fieldWidth: U64, toField: bool, zeros: bool, padBefore: bool, comma: bool, long: bool)
  {
    function Pad(): Char16 {
      if zeros then ZERO else SPACE
    }

    /** *WidthParse = w. */
    function WithWidth(w: U64): Item {
      if toField then this.(fieldWidth := w) else this.(width := w)
    }
  }

  const NEW_ITEM: Item := Item(0, NO_WIDTH, false, false, true, false, false)

  // ----- conversions -----

  datatype Kind = Flag | Star | Number | Convert

  /** The cases of the conversion switch. */
  function KindOf(c: Char16): Kind {
    if c in {PAD_ZERO, PAD_BEHIND, GROUP, DOT, LONG} || c in FIELD_ATTRIBUTES || c in ATTRIBUTES then Flag
    else if c == STAR then Star
    else if DecDigit(c).Some? then Number
    else Convert
  }

  /** 0, minus, comma, dot and l set options; the attribute letters change no option, the
      attributes of a string sink being zero. */
  function SetFlag(st: Item, c: Char16): Item {
    if c == PAD_ZERO then st.(zeros := true)
    else if c == PAD_BEHIND then st.(padBefore := false)
    else if c == GROUP then st.(comma := true)
    else if c == DOT then st.(toField := true)
    else if c == LONG then st.(long := true)
    else st
  }

  predicate IsDescribed(c: Char16) {
    c in {GUID, DEVICE_PATH, FLOAT, TIME, STATUS}
  }

  predicate NeedsArgument(c: Char16) {
    IsDescribed(c) || c in {ASCII_STRING, STRING, CHARACTER, HEX_FIXED, HEX_VALUE, UNSIGNED, SIGNED}
  }

  function Signed64(w: U64): int {
    if w >= Division.TWO_63 then w - TWO_64 else w
  }

  function Signed32(w: U64): int {
    var low := w % Division.TWO_32;
    if low >= Division.TWO_31 then low - Division.TWO_32 else low
  }

  /** The value %d and %u hand to ValueToString, which takes it as a signed number. */
  function Printed(c: Char16, long: bool, w: U64): int {
    if long then Signed64(w) else if c == SIGNED then Signed32(w) else w % Division.TWO_32
  }

  /** The text a conversion letter makes of its argument. */
  function Converted(c: Char16, st: Item, arg: Slot): Text
  {
    if c == ASCII_STRING || c == STRING then
      if arg.text.Some? then arg.text.value else NULL_TEXT
    else if c == CHARACTER then
      if arg.word % 0x1_0000 == 0 then [] else [arg.word % 0x1_0000]
    else if c == HEX_FIXED || c == HEX_VALUE then
      Numeral(if st.long then arg.word else arg.word % Division.TWO_32, Hex)
    else if c == SIGNED || c == UNSIGNED then
      Decimal(Printed(c, st.long, arg.word), st.comma)
    else if IsDescribed(c) then arg.described
    else if c == PERCENT then [PERCENT]
    else [QUESTION]
  }

  /** %X is %x at a fixed width, padded with zeros. */
  function ConvertedItem(c: Char16, st: Item): Item {
    if c == HEX_FIXED then st.(width := if st.long then 16 else 8, zeros := true) else st
  }

  // ----- fields -----

  function Fill(c: Char16, n: int): (s: Text)
    ensures |s| == (if n > 0 then n else 0) && forall i :: 0 <= i < |s| ==> s[i] == c
  {
    if n <= 0 then [] else Fill(c, n - 1) + [c]
  }

  /** The text cut to the field width, if there is one. */
  function Shown(text: Text, st: Item): (s: Text)
    ensures s <= text && |s| <= st.fieldWidth
  {
    if |text| <= st.fieldWidth then text else text[..st.fieldWidth]
  }

  function FieldWidth(text: Text, st: Item): nat {
    if st.fieldWidth == NO_WIDTH then |Shown(text, st)| else st.fieldWidth
  }

  function Width(text: Text, st: Item): nat {
    if |Shown(text, st)| > st.width then |Shown(text, st)| else st.width
  }

  /** PITEM: pad characters up to the width always come before the text; spaces up to
      the field width before that or at the end. */
  function Field(text: Text, st: Item): Text {
    var spaces := Fill(SPACE, FieldWidth(text, st) - Width(text, st));
    (if st.padBefore then spaces else [])
    + Fill(st.Pad(), Width(text, st) - |Shown(text, st)|) + Shown(text, st)
    + (if st.padBefore then [] else spaces)
  }

  /** PPUTC puts a carriage return before each newline. */
  function Expand(s: Text): Text {
    if s == [] then []
    else Expand(s[..|s| - 1]) + if s[|s| - 1] == LF then [CR, LF] else [s[|s| - 1]]
  }

  // ----- whole formats -----

  /** A conversion read off the format: its text and options, and what is left. */
  datatype Parsed = Parsed(text: Text, st: Item, fmt: Text, args: seq<Slot>)

  lemma {:induction false} LeadingDigitsAreShort(s: Text, base: Base)
    ensures |LeadingDigits(s, base)| <= |s|
  {
    if s != [] {
      LeadingDigitsAreShort(s[1..], base);
    }
  }

  /** The digits of a width, and the format behind them. */
  function WidthIn(fmt: Text): (r: (U64, Text))
    requires fmt != [] && KindOf(fmt[0]) == Number
    ensures |r.1| < |fmt|
  {
    LeadingDigitsAreShort(fmt, Dec);
    (Wrap(ValueOf(LeadingDigits(fmt, Dec), Dec)), fmt[|LeadingDigits(fmt, Dec)|..])
  }

  /** A conversion from behind its percent sign. None: the format ends first, or an
      argument is missing. */
  function Parse(fmt: Text, args: seq<Slot>, st: Item): (r: Option<Parsed>)
    ensures r.Some? ==> |r.value.fmt| < |fmt|
    decreases |fmt|
  {
    if fmt == [] then None
    else
      var c := fmt[0];
      match KindOf(c)
      case Flag => Parse(fmt[1..], args, SetFlag(st, c))
      case Star => if args == [] then None else Parse(fmt[1..], args[1..], st.WithWidth(args[0].word))
      case Number => Parse(WidthIn(fmt).1, args, st.WithWidth(WidthIn(fmt).0))
      case Convert =>
        if !NeedsArgument(c) then
          Some(Parsed(Converted(c, st, NO_ARGUMENT), st, fmt[1..], args))
        else if args == [] then None
        else Some(Parsed(Converted(c, st, args[0]), ConvertedItem(c, st), fmt[1..], args[1..]))
  }

  function Prepend(s: Text, rest: Option<Text>): Option<Text> {
    if rest.None? then None else Some(s + rest.value)
  }

  /** All the characters _Print puts out. */
  function Render(fmt: Text, args: seq<Slot>): Option<Text>
    decreases |fmt|
  {
    if fmt == [] then Some([])
    else if fmt[0] != PERCENT then
      Prepend(Expand([fmt[0]]), Render(fmt[1..], args))
    else
      match Parse(fmt[1..], args, NEW_ITEM)
      case None => None
      case Some(p) => Prepend(Expand(Field(p.text, p.st)), Render(p.fmt, p.args))
  }

  lemma {:induction false} ExpandSplits(s: Text, t: Text)
    ensures Expand(s + t) == Expand(s) + Expand(t)
  {
    if t == [] {
      assert s + t == s;
    } else {
      assert (s + t)[..|s + t| - 1] == s + t[..|t| - 1];
      ExpandSplits(s, t[..|t| - 1]);
    }
  }

  lemma {:induction false} ExpandOne(c: Char16)
    ensures Expand([c]) == if c == LF then [CR, LF] else [c]
  {
    assert [c][..0] == [];
  }

  /** A field is its text, shown whole unless a field width cuts it, in exactly the
      larger of the widths asked for: nothing but fill stands around it. */
  lemma {:induction false} FieldShape(text: Text, st: Item) returns (k: nat)
    ensures |Field(text, st)| == if FieldWidth(text, st) > Width(text, st) then FieldWidth(text, st) else Width(text, st)
    ensures k + |Shown(text, st)| <= |Field(text, st)| && Field(text, st)[k..k + |Shown(text, st)|] == Shown(text, st)
    ensures forall i :: 0 <= i < |Field(text, st)| && !(k <= i < k + |Shown(text, st)|) ==> Field(text, st)[i] in {SPACE, st.Pad()}
  {
    var shown := Shown(text, st);
    var spaces := Fill(SPACE, FieldWidth(text, st) - Width(text, st));
    var fill := Fill(st.Pad(), Width(text, st) - |shown|);
    k := |fill| + if st.padBefore then |spaces| else 0;
    assert Field(text, st)[k..k + |shown|] == shown;
  }
}
