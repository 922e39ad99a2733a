/**
 The formatted-print engine of lib/print.c as it runs: _Print fills a 200-character
 buffer and flushes it to an output function, which appends to the caller's memory
 (_SPrint) or to a growing pool allocation (_PoolPrint). The memory behind
 POOL_PRINT.str is a field that holds its contents; which allocations the firmware grants
 is an arbitrary input.
 */
module PrintEngine {
  import opened Words
  import opened Glob
  import opened Numbers
  import opened PrintFormat
  import Division

  const PRINT_STRING_LEN := 200
  const PRINT_ITEM_BUFFER_LEN := 100

  function Min(a: nat, b: nat): nat {
    if a < b then a else b
  }

  // ----- the growing buffer, on values -----

  /** What a growing POOL_PRINT holds: its text, None without memory; its size; and how
      many allocations it has asked for. */
  datatype Growth = Growth(text: Option<Text>, maxlen: nat, asked: nat)

  /** One chunk more. The memory is replaced by a larger piece when the chunk and a NUL do
      not fit, and lost when that is not granted. */
  function Grown(g: Growth, chunk: Text, grants: nat -> bool): Growth {
    var text := (if g.text.Some? then g.text.value else []) + chunk;
    if |text| + 1 <= g.maxlen then g.(text := Some(text))
    else if grants(g.asked) then Growth(Some(text), |text| + 1 + PRINT_STRING_LEN, g.asked + 1)
    else Growth(None, 0, g.asked + 1)
  }

  function GrownBy(chunks: seq<Text>, grants: nat -> bool): Growth {
    if chunks == [] then Growth(None, 0, 0)
    else Grown(GrownBy(chunks[..|chunks| - 1], grants), chunks[|chunks| - 1], grants)
  }

  function Joined(chunks: seq<Text>): Text {
    if chunks == [] then [] else Joined(chunks[..|chunks| - 1]) + chunks[|chunks| - 1]
  }

  lemma {:induction false} JoinedByOne(chunks: seq<Text>, chunk: Text)
    ensures Joined(chunks + [chunk]) == Joined(chunks) + chunk
  {
    assert (chunks + [chunk])[..|chunks|] == chunks;
  }

  /** How many characters went with refused allocations. */
  function Lost(chunks: seq<Text>, grants: nat -> bool): (n: nat)
    ensures n <= |Joined(chunks)|
  {
    if chunks == [] then 0
    else if GrownBy(chunks, grants).text.None? then |Joined(chunks)|
    else Lost(chunks[..|chunks| - 1], grants)
  }

  /** The buffer holds what came after the last refused allocation; without memory the
      last allocation was refused. */
  lemma {:induction false} GrowthKeepsTheRest(chunks: seq<Text>, grants: nat -> bool)
    ensures var g := GrownBy(chunks, grants);
            if g.text.Some? then g.text.value == Joined(chunks)[Lost(chunks, grants)..]
            else (chunks == [] ==> g.asked == 0) && (chunks != [] ==> g.asked > 0 && !grants(g.asked - 1))
    ensures GrownBy(chunks, grants).text.None? ==> GrownBy(chunks, grants).maxlen == 0 && Lost(chunks, grants) == |Joined(chunks)|
  {
    if chunks != [] {
      GrowthKeepsTheRest(chunks[..|chunks| - 1], grants);
    }
  }

  lemma {:induction false} NothingLostIfGranted(chunks: seq<Text>, grants: nat -> bool)
    requires forall k: nat :: k < GrownBy(chunks, grants).asked ==> grants(k)
    ensures Lost(chunks, grants) == 0
  {
    if chunks != [] {
      GrowthKeepsTheRest(chunks, grants);
      NothingLostIfGranted(chunks[..|chunks| - 1], grants);
    }
  }

  // ----- memory -----

  /** AllocatePool: memory with any contents, or NULL. */
  method AllocatePool(size: nat, granted: bool) returns (p: Option<seq<Char16>>)
    ensures p.Some? <==> granted
    ensures p.Some? ==> |p.value| == size
  {
    if granted {
      assert |seq(size, _ => ZERO)| == size;
      var memory: seq<Char16> :| |memory| == size;
      p := Some(memory);
    } else {
      p := None;
    }
  }

  /** ReallocatePool: when the allocation fails the old memory is gone all the same. */
  method ReallocatePool(oldPool: Option<seq<Char16>>, oldSize: nat, newSize: nat, granted: bool)
    returns (p: Option<seq<Char16>>)
    requires oldSize <= newSize && (oldPool.Some? ==> oldSize <= |oldPool.value|)
    ensures p.Some? <==> granted
    ensures p.Some? ==> |p.value| == newSize
    ensures p.Some? && oldPool.Some? ==> p.value[..oldSize] == oldPool.value[..oldSize]
  {
    p := AllocatePool(newSize, granted);
    if oldPool.Some? && p.Some? {
      p := Some(oldPool.value[..oldSize] + p.value[oldSize..]);
    }
  }

  /** POOL_PRINT, with the output function it is used with. */
  class PoolPrint {
    const grows: bool
    /** Whether the k-th allocation is granted. */
    const grants: nat -> bool
    var str: Option<seq<Char16>>
    var len: nat
    var maxlen: nat
    /** Allocations asked for. */
    var asked: nat
    /** Everything sent to the output function, as it came. */
    ghost var chunks: seq<Text>
    /** How much a caller's memory of unlimited use is good for. */
    ghost const budget: nat

    ghost predicate Valid()
      reads this
    {
      && (forall k :: 0 <= k < |chunks| ==> |chunks[k]| < PRINT_STRING_LEN)
      && if grows then Holding(GrownBy(chunks, grants)) else Filled(Joined(chunks))
    }

    /** The fields show the growing buffer. */
    ghost predicate Holding(g: Growth)
      reads this
    {
      && asked == g.asked && maxlen == g.maxlen && str.Some? == g.text.Some?
      && if str.None? then len == 0 && maxlen == 0
         else len == |g.text.value| && maxlen == |str.value| && Holds(str.value, g.text.value)
    }

    /** The caller's memory has as much of the text as the limit allows. */
    ghost predicate Filled(text: Text)
      reads this
    {
      && str.Some? && asked == 0 && len == Min(|text|, maxlen) && len <= |str.value|
      && str.value[..len] == text[..len] && (maxlen < |str.value| || budget < |str.value|)
    }

    constructor Fixed(memory: seq<Char16>, limit: nat, ghost budget: nat)
      requires limit < |memory| || budget < |memory|
      ensures Valid() && !grows && str == Some(memory) && maxlen == limit && chunks == [] && this.budget == budget
    {
      grows, grants, str, len, maxlen, asked, chunks := false, _ => false, Some(memory), 0, limit, 0, [];
      this.budget := budget;
    }

    constructor Growing(grants: nat -> bool)
      ensures Valid() && grows && chunks == [] && this.grants == grants
    {
      grows, str, len, maxlen, asked, chunks := true, None, 0, 0, 0, [];
      this.grants := grants;
      this.budget := 0;
    }

    /** _SPrint: append as much as fits, and a NUL. */
    method SPrint(chunk: Text)
      requires len <= maxlen && (str.None? ==> maxlen == 0)
      requires str.Some? ==> len <= |str.value| && (maxlen < |str.value| || len + |chunk| < |str.value|)
      modifies this`len, this`str
      ensures len == old(len) + Min(|chunk|, maxlen - old(len)) && str.Some? == old(str).Some?
      ensures str.Some? ==> |str.value| == |old(str).value| && len <= |str.value|
                            && str.value[..len] == old(str).value[..old(len)] + chunk[..len - old(len)]
      ensures str.Some? && len == old(len) && maxlen == 0 ==> str == old(str)
      ensures str.Some? && maxlen != 0 ==> len < |str.value| && str.value[len] == 0
    {
      var n := |chunk|;
      if len + n > maxlen {
        n := maxlen - len;
      }
      if str.Some? {
        str := Some(str.value[..len] + chunk[..n] + str.value[len + n..]);
      }
      len := len + n;
      if len < maxlen {
        str := Some(str.value[len := 0]);
      } else if maxlen != 0 {
        str := Some(str.value[maxlen := 0]);
      }
    }

    /** The growing half of _PoolPrint: room for n more characters and a NUL, or nothing
        left at all. */
    method Grow(n: nat)
      requires len <= maxlen && (str.None? ==> maxlen == 0) && (str.Some? ==> maxlen == |str.value|)
      modifies this`str, this`len, this`maxlen, this`asked
      ensures var short := old(len) + n + 1 > old(maxlen);
              && asked == old(asked) + (if short then 1 else 0)
              && (str.Some? <==> !short || grants(old(asked)))
              && maxlen == (if !short then old(maxlen) else if str.Some? then old(len) + n + 1 + PRINT_STRING_LEN else 0)
      ensures str.None? ==> len == 0
      ensures str.Some? ==> len == old(len) && maxlen == |str.value|
      ensures str.Some? && old(str).Some? ==> str.value[..len] == old(str).value[..len]
    {
      var newLen := len + n + 1;
      if newLen > maxlen {
        newLen := newLen + PRINT_STRING_LEN;
        maxlen := newLen;
        str := ReallocatePool(str, len, maxlen, grants(asked));
        asked := asked + 1;
        if str.None? {
          len, maxlen := 0, 0;
        }
      }
    }

    /** _PoolPrint. */
    method GrowAndPrint(chunk: Text)
      requires Valid() && grows && |chunk| < PRINT_STRING_LEN
      modifies this
      ensures Valid() && chunks == old(chunks) + [chunk]
    {
      ghost var g := GrownBy(chunks, grants);
      Grow(|chunk|);
      SPrint(chunk);
      chunks := chunks + [chunk];
      assert chunks[..|chunks| - 1] == old(chunks);
      assert Holding(Grown(g, chunk, grants));
    }

    method PrintFixed(chunk: Text)
      requires Valid() && !grows && |Joined(chunks)| + |chunk| <= budget && |chunk| < PRINT_STRING_LEN
      modifies this
      ensures Valid() && chunks == old(chunks) + [chunk]
      ensures str.Some? && old(str).Some? && maxlen == old(maxlen) && |str.value| == |old(str).value|
      ensures maxlen == 0 ==> str == old(str)
      ensures maxlen != 0 ==> len < |str.value| && str.value[len] == 0
    {
      hide Joined;
      ghost var text, taken := Joined(chunks), Min(|chunk|, maxlen - len);
      assert (text + chunk)[..len + taken] == text[..len] + chunk[..taken];
      SPrint(chunk);
      chunks := chunks + [chunk];
      JoinedByOne(old(chunks), chunk);
    }

    /** The output function: _PoolPrint or _SPrint. */
    method Output(chunk: Text)
      requires Valid() && (!grows ==> |Joined(chunks)| + |chunk| <= budget) && |chunk| < PRINT_STRING_LEN
      modifies this
      ensures Valid() && chunks == old(chunks) + [chunk]
      ensures !grows ==> str.Some? && old(str).Some? && maxlen == old(maxlen) && |str.value| == |old(str).value|
      ensures !grows && maxlen == 0 ==> str == old(str)
      ensures !grows && maxlen != 0 ==> len < |str.value| && str.value[len] == 0
    {
      if grows {
        GrowAndPrint(chunk);
      } else {
        PrintFixed(chunk);
      }
    }
  }

  /** The text a pointer to the start of a buffer shows. */
  function TextIn(buffer: seq<Char16>): (t: Text)
    requires 0 in buffer
    ensures IsText(t)
  {
    if buffer[0] == 0 then [] else [buffer[0]] + TextIn(buffer[1..])
  }

  lemma {:induction false} HeldTextIsShown(buffer: seq<Char16>, s: Text)
    requires IsText(s) && Holds(buffer, s)
    ensures 0 in buffer && TextIn(buffer) == s
  {
    if s == [] {
      assert buffer[0] == 0;
    } else {
      assert buffer[0] == buffer[..|s|][0] == s[0];
      assert buffer[1..][..|s| - 1] == buffer[..|s|][1..];
      HeldTextIsShown(buffer[1..], s[1..]);
    }
  }

  method HexText(v: U64) returns (text: Text)
    ensures text == Numeral(v, Hex) && IsText(text)
  {
    var scratch := new Char16[PRINT_ITEM_BUFFER_LEN];
    ValueToHex(scratch, v);
    NumeralsAreCanonical(v, Hex);
    HeldTextIsShown(scratch[..], Numeral(v, Hex));
    text := TextIn(scratch[..]);
  }

  method DecimalText(v: int, comma: bool) returns (text: Text)
    requires -Division.TWO_63 <= v < Division.TWO_63
    ensures text == Decimal(v, comma) && IsText(text)
  {
    var scratch := new Char16[PRINT_ITEM_BUFFER_LEN];
    DecimalFits(v, comma);
    ValueToString(scratch, comma, v);
    HeldTextIsShown(scratch[..], Decimal(v, comma));
    text := TextIn(scratch[..]);
  }

  /** The text of a conversion; numbers are written to the item's scratch buffer. */
  method ConvertArgument(c: Char16, st: Item, arg: Slot) returns (text: Text)
    requires arg.HoldsText()
    ensures text == Converted(c, st, arg) && IsText(text)
  {
    if c == HEX_FIXED || c == HEX_VALUE {
      var v: U64 := if st.long then arg.word else arg.word % Division.TWO_32;
      text := HexText(v);
    } else if c == SIGNED || c == UNSIGNED {
      var v: int := arg.word;
      if st.long {
        v := Signed64(arg.word);
      } else if c == SIGNED {
        v := Signed32(arg.word);
      } else {
        v := v % Division.TWO_32;
      }
      text := DecimalText(v, st.comma);
    } else if c == ASCII_STRING || c == STRING {
      text := if arg.text.None? then NULL_TEXT else arg.text.value;
    } else if c == CHARACTER {
      var shown := arg.word % 0x1_0000;
      text := if shown == 0 then [] else [shown];
    } else if IsDescribed(c) {
      text := arg.described;
    } else {
      text := if c == PERCENT then [PERCENT] else [QUESTION];
    }
  }

  /** PITEM's first loop: the item's length, as far as the field width reaches. */
  method ItemLength(item: Text, st: Item) returns (n: nat)
    requires IsText(item)
    ensures n <= |item| && item[..n] == Shown(item, st)
  {
    n := 0;
    while n < st.fieldWidth
      invariant 0 <= n <= |item| && n <= st.fieldWidth
      decreases |item| - n
    {
      if Head(item[n..]) == 0 {
        break;
      }
      n := n + 1;
    }
  }

  function Spaces(here: bool, n: int): Text {
    if here then Fill(SPACE, n) else []
  }

  lemma {:induction false} FourParts(start: Text, a: Text, b: Text, c: Text, d: Text)
    ensures (((start + a) + b) + c) + d == start + (((a + b) + c) + d)
  {
  }

  lemma {:induction false} NoFill(c: Char16, n: int)
    ensures Expand(Fill(c, 0)) == [] && (n <= 0 ==> Expand(Fill(c, n)) == [])
  {
  }

  lemma {:induction false} OneMore(c: Char16, k: nat, n: nat)
    requires k < n
    ensures Expand(Fill(c, k + 1)) == Expand(Fill(c, k)) + Expand([c])
    ensures |Expand(Fill(c, k + 1))| <= |Expand(Fill(c, n))|
  {
    ExpandSplits(Fill(c, k), [c]);
    assert Fill(c, n) == Fill(c, k + 1) + Fill(c, n - k - 1);
    ExpandSplits(Fill(c, k + 1), Fill(c, n - k - 1));
  }

  lemma {:induction false} PrefixGrows(s: Text, k: nat, n: nat)
    requires k < n <= |s|
    ensures Expand(s[..k + 1]) == Expand(s[..k]) + Expand([s[k]])
    ensures |Expand(s[..k + 1])| <= |Expand(s[..n])|
  {
    assert s[..k + 1] == s[..k] + [s[k]];
    ExpandSplits(s[..k], [s[k]]);
    assert s[..n] == s[..k + 1] + s[k + 1..n];
    ExpandSplits(s[..k + 1], s[k + 1..n]);
  }

  lemma {:induction false} FieldInParts(item: Text, st: Item)
    ensures var n := |Shown(item, st)|;
            var gap := FieldWidth(item, st) - Width(item, st);
            Expand(Field(item, st)) ==
            ((Expand(Spaces(st.padBefore, gap)) + Expand(Fill(st.Pad(), Width(item, st) - n)))
             + Expand(Shown(item, st))) + Expand(Spaces(!st.padBefore, gap))
  {
    var gap := FieldWidth(item, st) - Width(item, st);
    var front, back := Spaces(st.padBefore, gap), Spaces(!st.padBefore, gap);
    var pad := Fill(st.Pad(), Width(item, st) - |Shown(item, st)|);
    assert Field(item, st) == ((front + pad) + Shown(item, st)) + back;
    ExpandSplits((front + pad) + Shown(item, st), back);
    ExpandSplits(front + pad, Shown(item, st));
    ExpandSplits(front, pad);
  }

  /** What one turn of the outer loop puts out is the beginning of what is left. */
  lemma {:induction false} RenderTurn(fmt: Text, args: seq<Slot>, done: Text, full: Text)
    requires fmt != [] && Render(fmt, args).Some? && full == done + Render(fmt, args).value
    ensures fmt[0] != PERCENT ==>
              && Render(fmt[1..], args).Some?
              && full == (done + Expand([fmt[0]])) + Render(fmt[1..], args).value
    ensures fmt[0] == PERCENT ==>
              var p := Parse(fmt[1..], args, NEW_ITEM);
              && p.Some? && Render(p.value.fmt, p.value.args).Some?
              && full == (done + Expand(Field(p.value.text, p.value.st))) + Render(p.value.fmt, p.value.args).value
  {
  }

  /** PRINT_STATE; the format and the arguments are what is left of them. */
  class PrintState {
    var fmt: Text
    var args: seq<Slot>
    const buffer: array<Char16>
    var pos: nat
    var len: nat
    const sink: PoolPrint
    /** Everything PPUTC was given, carriage returns included. */
    ghost var emitted: Text

    ghost predicate Valid()
      reads this`pos, this`len, this`emitted, buffer, sink
    {
      && buffer.Length == PRINT_STRING_LEN && pos < PRINT_STRING_LEN - 1 && sink.Valid()
      && emitted == Joined(sink.chunks) + buffer[..pos] && len == |emitted| && IsText(emitted)
    }

    ghost predicate HasRoom(more: Text)
      reads this`emitted
    {
      !sink.grows ==> |emitted| + |more| <= sink.budget
    }

    constructor (fmt: Text, args: seq<Slot>, sink: PoolPrint)
      requires sink.Valid() && sink.chunks == []
      ensures Valid() && this.fmt == fmt && this.args == args && this.sink == sink
      ensures fresh(buffer) && emitted == []
    {
      this.fmt, this.args, this.sink := fmt, args, sink;
      buffer := new Char16[PRINT_STRING_LEN];
      pos, len, emitted := 0, 0, [];
    }

    /** PFLUSH: the output function gets the text in the buffer, up to its NUL. */
    method PFlush()
      requires buffer.Length == PRINT_STRING_LEN && pos < PRINT_STRING_LEN && sink.Valid() && HasRoom([])
      requires emitted == Joined(sink.chunks) + buffer[..pos] && len == |emitted| && IsText(emitted)
      modifies this`pos, buffer, sink
      ensures Valid() && pos == 0 && emitted == Joined(sink.chunks) && sink.chunks != []
      ensures SinkKept() && Terminated()
    {
      hide PoolPrint.Valid, Joined, TextIn;
      ghost var chunk := buffer[..pos];
      assert forall i :: 0 <= i < pos ==> chunk[i] == emitted[|Joined(sink.chunks)| + i];
      buffer[pos] := 0;
      HeldTextIsShown(buffer[..], chunk);
      sink.Output(TextIn(buffer[..]));
      JoinedByOne(old(sink.chunks), chunk);
      pos := 0;
    }

    /** A caller's memory has its NUL, if there is to be one. */
    ghost predicate Terminated()
      reads sink
    {
      !sink.grows && sink.maxlen != 0 ==> sink.str.Some? && sink.len < |sink.str.value| && sink.str.value[sink.len] == 0
    }

    /** What printing leaves alone in the caller's POOL_PRINT. */
    twostate predicate SinkKept()
      reads sink
    {
      !sink.grows ==>
        && sink.maxlen == old(sink.maxlen) && sink.str.Some? == old(sink.str).Some?
        && (sink.str.Some? ==> |sink.str.value| == |old(sink.str).value|)
        && (sink.maxlen == 0 ==> sink.str == old(sink.str))
    }

    /** PPUTC, past the newline case. */
    method Store(c: Char16)
      requires Valid() && c != 0 && HasRoom([c])
      modifies this`pos, this`len, this`emitted, buffer, sink
      ensures Valid() && emitted == old(emitted) + [c] && SinkKept()
    {
      buffer[pos] := c;
      emitted := emitted + [c];
      assert buffer[..pos + 1] == buffer[..pos] + [c];
      pos := pos + 1;
      len := len + 1;
      if pos >= PRINT_STRING_LEN - 1 {
        PFlush();
      }
    }

    /** PPUTC: a newline gets a carriage return first. */
    method PPutc(c: Char16)
      requires Valid() && c != 0 && HasRoom(Expand([c]))
      modifies this`pos, this`len, this`emitted, buffer, sink
      ensures Valid() && emitted == old(emitted) + Expand([c]) && SinkKept()
      decreases if c == LF then 1 else 0
    {
      ExpandOne(c);
      if c == LF {
        ExpandOne(CR);
        PPutc(CR);
      }
      Store(c);
    }

    method PutRepeated(c: Char16, from: nat, to: nat)
      requires Valid() && c != 0 && HasRoom(Expand(Fill(c, to - from)))
      modifies this`pos, this`len, this`emitted, buffer, sink
      ensures Valid() && emitted == old(emitted) + Expand(Fill(c, to - from)) && SinkKept()
    {
      NoFill(c, to - from);
      hide Expand, Fill;
      var i := from;
      while i < to
        invariant Valid() && from <= i && (i == from || i <= to) && SinkKept()
        invariant emitted == old(emitted) + Expand(Fill(c, i - from))
      {
        OneMore(c, i - from, to - from);
        PPutc(c);
        i := i + 1;
      }
      assert if to <= from then i - from == 0 else i - from == to - from;
    }

    /** The item's first n characters. */
    method PutItem(item: Text, n: nat)
      requires Valid() && IsText(item) && n <= |item| && HasRoom(Expand(item[..n]))
      modifies this`pos, this`len, this`emitted, buffer, sink
      ensures Valid() && emitted == old(emitted) + Expand(item[..n]) && SinkKept()
    {
      var i := 0;
      while i < n
        invariant Valid() && 0 <= i <= n && SinkKept()
        invariant emitted == old(emitted) + Expand(item[..i])
      {
        PrefixGrows(item, i, n);
        PPutc(item[i]);
        i := i + 1;
      }
    }

    /** The spaces up to the field width, on the side they belong on. */
    method PadField(here: bool, width: nat, fieldWidth: nat)
      requires Valid() && HasRoom(Expand(Spaces(here, fieldWidth - width)))
      modifies this`pos, this`len, this`emitted, buffer, sink
      ensures Valid() && emitted == old(emitted) + Expand(Spaces(here, fieldWidth - width)) && SinkKept()
    {
      if here {
        PutRepeated(SPACE, width, fieldWidth);
      }
    }

    /** PITEM. */
    method PItem(item: Text, st: Item)
      requires Valid() && IsText(item) && HasRoom(Expand(Field(item, st)))
      modifies this`pos, this`len, this`emitted, buffer, sink
      ensures Valid() && emitted == old(emitted) + Expand(Field(item, st)) && SinkKept()
    {
      hide Expand, Fill, Field, Spaces, PrintState.Valid, PoolPrint.Valid;
      var n := ItemLength(item, st);
      var fieldWidth: nat := if st.fieldWidth == NO_WIDTH then n else st.fieldWidth;
      var width := if n > st.width then n else st.width;
      ghost var start := emitted;
      ghost var a, b := Expand(Spaces(st.padBefore, fieldWidth - width)), Expand(Fill(st.Pad(), width - n));
      ghost var c, d := Expand(item[..n]), Expand(Spaces(!st.padBefore, fieldWidth - width));
      FieldInParts(item, st);
      PadField(st.padBefore, width, fieldWidth);
      PutRepeated(st.Pad(), n, width);
      PutItem(item, n);
      PadField(!st.padBefore, width, fieldWidth);
      FourParts(start, a, b, c, d);
    }

    /** The digits of a width. */
    method ReadWidth() returns (w: U64)
      requires fmt != [] && KindOf(fmt[0]) == Number && IsText(fmt)
      modifies this`fmt
      ensures (w, fmt) == WidthIn(old(fmt)) && IsText(fmt)
    {
      ghost var done: seq<nat> := [];
      w := 0;
      while 0x30 <= Head(fmt) <= 0x39
        invariant IsText(fmt) && LeadingDigits(old(fmt), Dec) == done + LeadingDigits(fmt, Dec)
        invariant |done| <= |old(fmt)| && fmt == old(fmt)[|done|..]
        invariant w == Wrap(ValueOf(done, Dec))
        decreases |fmt|
      {
        DigitLeads(done, fmt, Head(fmt) - 0x30, Dec);
        w := DecStep(w, Head(fmt), done);
        done := done + [Head(fmt) - 0x30];
        fmt := fmt[1..];
      }
      assert LeadingDigits(old(fmt), Dec) == done;
    }

    ghost predicate Going()
      reads this, buffer, sink
    {
      Valid() && IsText(fmt) && SlotsHoldText(args)
    }

    /** The cases of the conversion switch that set options. */
    method TakeOption(st: Item, c: Char16) returns (next: Item)
      requires Going() && fmt != [] && c == fmt[0] && HasRoom([]) && Parse(fmt, args, st).Some?
      requires KindOf(c) != Kind.Convert
      modifies this, buffer, sink
      ensures Going() && SinkKept() && emitted == old(emitted) && |fmt| < |old(fmt)|
      ensures Parse(fmt, args, next) == Parse(old(fmt), old(args), st)
    {
      match KindOf(c)
      case Flag =>
        next := st;
        fmt := fmt[1..];
        if c == PAD_ZERO {
          next := st.(zeros := true);
        } else if c == PAD_BEHIND {
          next := st.(padBefore := false);
        } else if c == GROUP {
          next := st.(comma := true);
        } else if c == DOT {
          next := st.(toField := true);
        } else if c == LONG {
          next := st.(long := true);
        } else if c in FIELD_ATTRIBUTES {
          PFlush();
        }
      case Star =>
        var w := args[0].word;
        next := if st.toField then st.(fieldWidth := w) else st.(width := w);
        fmt, args := fmt[1..], args[1..];
      case Number =>
        var w := ReadWidth();
        next := if st.toField then st.(fieldWidth := w) else st.(width := w);
    }

    /** The cases that make an item, and its printing. */
    method PrintConversion(st: Item, c: Char16, ghost p: Parsed)
      requires Going() && fmt != [] && c == fmt[0] && Parse(fmt, args, st) == Some(p)
      requires KindOf(c) == Kind.Convert && HasRoom(Expand(Field(p.text, p.st)))
      modifies this, buffer, sink
      ensures Going() && SinkKept() && emitted == old(emitted) + Expand(Field(p.text, p.st))
      ensures fmt == p.fmt && args == p.args
    {
      hide Expand, Field, PrintState.Valid, PoolPrint.Valid;
      var arg := NO_ARGUMENT;
      fmt := fmt[1..];
      if NeedsArgument(c) {
        arg, args := args[0], args[1..];
      }
      var text := ConvertArgument(c, st, arg);
      var item := st;
      if c == HEX_FIXED {
        item := st.(width := if st.long then 16 else 8, zeros := true);
      }
      PItem(text, item);
    }

    /** The inner loop, from behind the percent sign. */
    method Conversion(ghost p: Parsed)
      requires Going() && Parse(fmt, args, NEW_ITEM) == Some(p) && HasRoom(Expand(Field(p.text, p.st)))
      modifies this, buffer, sink
      ensures Going() && SinkKept() && emitted == old(emitted) + Expand(Field(p.text, p.st))
      ensures fmt == p.fmt && args == p.args
    {
      hide Expand, Field, PrintState.Valid, PoolPrint.Valid;
      var st := NEW_ITEM;
      while KindOf(Head(fmt)) != Kind.Convert
        invariant Going() && SinkKept() && emitted == old(emitted) && fmt != []
        invariant Parse(fmt, args, st) == Some(p)
        decreases |fmt|
      {
        st := TakeOption(st, Head(fmt));
      }
      PrintConversion(st, Head(fmt), p);
    }

    /** One turn of the outer loop. */
    method Turn(ghost full: Text)
      requires Going() && fmt != [] && Render(fmt, args).Some? && full == emitted + Render(fmt, args).value
      requires !sink.grows ==> |full| <= sink.budget
      modifies this, buffer, sink
      ensures Going() && SinkKept() && |fmt| < |old(fmt)|
      ensures Render(fmt, args).Some? && full == emitted + Render(fmt, args).value
    {
      RenderTurn(fmt, args, emitted, full);
      hide Expand, Field, Render, Parse, PrintState.Valid, PoolPrint.Valid;
      var c := Head(fmt);
      ghost var p := Parse(fmt[1..], args, NEW_ITEM);
      fmt := fmt[1..];
      if c != PERCENT {
        PPutc(c);
      } else {
        Conversion(p.value);
      }
    }

    /** _Print. */
    method Print(ghost full: Text)
      requires Going() && emitted == [] && Render(fmt, args) == Some(full)
      requires !sink.grows ==> |full| <= sink.budget
      modifies this, buffer, sink
      ensures Valid() && SinkKept() && Terminated() && Joined(sink.chunks) == full && len == |full|
      ensures sink.chunks != []
    {
      while Head(fmt) != 0
        invariant Going() && SinkKept()
        invariant Render(fmt, args).Some? && full == emitted + Render(fmt, args).value
        decreases |fmt|
      {
        Turn(full);
      }
      PFlush();
    }
  }

  /** StrSize / sizeof(CHAR16) - 1: sizes below 2 wrap around to no limit. */
  function LimitFor(strSize: U64): U64 {
    Wrap(strSize / 2 - 1)
  }

  /** _PoolCatPrint with a POOL_PRINT for the caller's memory. */
  method PrintInto(memory: seq<Char16>, limit: nat, fmt: Text, args: seq<Slot>, ghost full: Text)
    returns (out: seq<Char16>, n: nat)
    requires IsText(fmt) && SlotsHoldText(args) && Render(fmt, args) == Some(full)
    requires limit < |memory| || |full| < |memory|
    ensures |out| == |memory| && n == Min(|full|, limit) && n <= |out| && out[..n] == full[..n]
    ensures if limit == 0 then out == memory else n < |out| && out[n] == 0
  {
    hide Render;
    var sink := new PoolPrint.Fixed(memory, limit, |full|);
    var state := new PrintState(fmt, args, sink);
    state.Print(full);
    out, n := sink.str.value, sink.len;
  }

  /** UnicodeVSPrint into the caller's memory, `n` characters long: the beginning of the
      one-shot output, as much as the size allows, and a NUL. Sizes 2 and 3 leave no room
      for a character and get no NUL either. */
  method UnicodeVSPrint(memory: seq<Char16>, strSize: U64, fmt: Text, args: seq<Slot>)
    returns (out: seq<Char16>, n: nat)
    requires IsText(fmt) && SlotsHoldText(args) && Render(fmt, args).Some?
    requires |memory| < TWO_64 && (strSize >= 2 ==> strSize / 2 <= |memory|)
    requires strSize < 2 ==> |Render(fmt, args).value| < |memory|
    ensures |out| == |memory|
    ensures n == if strSize < 2 then |Render(fmt, args).value| else Min(|Render(fmt, args).value|, strSize / 2 - 1)
    ensures n <= |out| && out[..n] == Render(fmt, args).value[..n]
    ensures !(2 <= strSize <= 3) ==> n < |out| && out[n] == 0
    ensures 2 <= strSize <= 3 ==> n == 0 && out == memory
  {
    hide Render;
    out, n := PrintInto(memory, LimitFor(strSize), fmt, args, Render(fmt, args).value);
  }

  /** `chunks` are how the text was cut into flushes. */
  ghost predicate Cut(chunks: seq<Text>, full: Text) {
    Joined(chunks) == full && chunks != [] && forall k :: 0 <= k < |chunks| ==> |chunks[k]| < PRINT_STRING_LEN
  }

  /** The memory is what a growing buffer ends with. */
  ghost predicate Pooled(str: Option<seq<Char16>>, asked: nat, g: Growth) {
    && asked == g.asked && str.Some? == g.text.Some?
    && (str.Some? ==> |str.value| == g.maxlen && Holds(str.value, g.text.value))
  }

  /** There is a cutting into flushes after which a growing buffer is like that. */
  ghost predicate PooledSomehow(str: Option<seq<Char16>>, asked: nat, full: Text, grants: nat -> bool) {
    exists chunks: seq<Text> {:trigger Cut(chunks, full)} :: Cut(chunks, full) && Pooled(str, asked, GrownBy(chunks, grants))
  }

  ghost predicate HoldsEndOf(buffer: seq<Char16>, full: Text) {
    exists lost: nat {:trigger full[lost..]} :: lost <= |full| && Holds(buffer, full[lost..])
  }

  lemma {:induction false} PoolHoldsText(str: Option<seq<Char16>>, asked: nat, chunks: seq<Text>, full: Text, grants: nat -> bool)
    requires Cut(chunks, full) && Pooled(str, asked, GrownBy(chunks, grants))
    ensures PooledSomehow(str, asked, full, grants)
    ensures (forall k: nat :: k < asked ==> grants(k)) ==> str.Some? && Holds(str.value, full)
    ensures str.Some? ==> Lost(chunks, grants) <= |full| && Holds(str.value, full[Lost(chunks, grants)..])
    ensures str.None? ==> asked > 0 && !grants(asked - 1)
  {
    GrowthKeepsTheRest(chunks, grants);
    if forall k: nat :: k < asked ==> grants(k) {
      NothingLostIfGranted(chunks, grants);
      assert full[0..] == full;
    }
  }

  /** VPoolPrint: for some cutting of the one-shot output into flushes, what a growing
      buffer makes of it; so all of it, and a NUL, if every allocation asked for was
      granted, what came after the last refused one otherwise, and NULL only if that one
      was the last. */
  method VPoolPrint(fmt: Text, args: seq<Slot>, grants: nat -> bool) returns (str: Option<seq<Char16>>, asked: nat)
    requires IsText(fmt) && SlotsHoldText(args) && Render(fmt, args).Some?
    ensures PooledSomehow(str, asked, Render(fmt, args).value, grants)
    ensures (forall k: nat :: k < asked ==> grants(k)) ==> str.Some? && Holds(str.value, Render(fmt, args).value)
    ensures str.Some? ==> HoldsEndOf(str.value, Render(fmt, args).value)
    ensures str.None? ==> asked > 0 && !grants(asked - 1)
  {
    hide Render;
    ghost var full := Render(fmt, args).value;
    var sink := new PoolPrint.Growing(grants);
    var state := new PrintState(fmt, args, sink);
    state.Print(full);
    str, asked := sink.str, sink.asked;
    PoolHoldsText(str, asked, sink.chunks, full, grants);
  }
}
