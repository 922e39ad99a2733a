/**
 What the patterns of MetaMatch (lib/str.c) match, with the metacharacters written out by
 their codes: 0x2A `*`, 0x3F `?`, 0x5B and 0x5D the brackets, 0x2D the dash.
 */
module GlobMeaning {
  import opened Words
  import opened Glob

  // ----- classes -----

  /** What a class lists: characters one by one, and ranges. */
  datatype Listed = Single(c: Char16) | Range(lo: Char16, hi: Char16)
  {
    /** A dash or a bracket cannot be written. */
    predicate Valid() {
      match this
      case Single(c) => c !in {0x2D, 0x5D}
      case Range(lo, hi) => lo !in {0x2D, 0x5D} && hi !in {0x2D, 0x5D}
    }

    function Written(): Text {
      match this case Single(c) => [c] case Range(lo, hi) => [lo, 0x2D, hi]
    }

    /** A range lets its ends in even if they are out of order. */
    predicate Has(x: Char16) {
      match this case Single(c) => x == c case Range(lo, hi) => lo <= x <= hi || x == lo || x == hi
    }
  }

  predicate AllValid(items: seq<Listed>) {
    forall i :: 0 <= i < |items| ==> items[i].Valid()
  }

  function WrittenOut(items: seq<Listed>): Text {
    if items == [] then [] else WrittenOut(items[..|items| - 1]) + items[|items| - 1].Written()
  }

  ghost predicate SomeHas(items: seq<Listed>, x: Char16) {
    exists i :: 0 <= i < |items| && items[i].Has(x)
  }

  /** What stands in front decides nothing behind a character that is no dash. */
  lemma {:induction false} InClassSplits(a: Text, b: Text, x: Char16)
    requires a == [] || a[|a| - 1] != 0x2D
    requires b == [] || b[0] != 0x2D
    ensures InClass(a + b, x) <==> InClass(a, x) || InClass(b, x)
  {
    forall k: nat | k < |a|
      ensures LetsIn(a + b, k, x) <==> LetsIn(a, k, x)
    {
    }
    forall k: nat | k < |b|
      ensures LetsIn(a + b, |a| + k, x) <==> LetsIn(b, k, x)
    {
    }
    if InClass(a + b, x) {
      var k: nat :| k < |a + b| && LetsIn(a + b, k, x);
      if k >= |a| { assert LetsIn(b, k - |a|, x); }
    }
    if k: nat :| k < |a| && LetsIn(a, k, x) {
      assert LetsIn(a + b, k, x);
    } else if k: nat :| k < |b| && LetsIn(b, k, x) {
      assert LetsIn(a + b, |a| + k, x);
    }
  }

  lemma {:induction false} OneListed(item: Listed, x: Char16)
    requires item.Valid()
    ensures InClass(item.Written(), x) <==> item.Has(x)
  {
    match item
    case Single(c) =>
      assert LetsIn([c], 0, x) <==> x == c;
    case Range(lo, hi) =>
      var body := [lo, 0x2D, hi];
      assert LetsIn(body, 0, x) <==> x == lo;
      assert LetsIn(body, 1, x) <==> lo <= x <= hi || x == hi;
      assert LetsIn(body, 2, x) <==> x == hi;
  }

  lemma {:induction false} WrittenOutEnds(items: seq<Listed>)
    requires AllValid(items)
    ensures items != [] ==> WrittenOut(items) != [] && WrittenOut(items)[|WrittenOut(items)| - 1] != 0x2D
    ensures 0x5D !in WrittenOut(items)
  {
    if items != [] {
      WrittenOutEnds(items[..|items| - 1]);
    }
  }

  /** A class lets in exactly the characters it lists, and those in its ranges. */
  lemma {:induction false} ClassMeans(items: seq<Listed>, x: Char16)
    requires AllValid(items)
    ensures InClass(WrittenOut(items), x) <==> SomeHas(items, x)
  {
    if items != [] {
      var front, item := items[..|items| - 1], items[|items| - 1];
      ClassMeans(front, x);
      WrittenOutEnds(front);
      OneListed(item, x);
      InClassSplits(WrittenOut(front), item.Written(), x);
      assert SomeHas(items, x) <==> SomeHas(front, x) || item.Has(x) by {
        if SomeHas(front, x) {
          var i :| 0 <= i < |front| && front[i].Has(x);
          assert items[i].Has(x);
        }
      }
    }
  }

  /** A dash in front opens a range from the lowest character. */
  lemma {:induction false} LeadingDash(hi: Char16, rest: Text, x: Char16)
    requires hi != 0x2D
    ensures InClass([0x2D, hi] + rest, x) <==> x <= hi || InClass([hi] + rest, x)
  {
    var body, tail := [0x2D, hi] + rest, [hi] + rest;
    assert LetsIn(body, 0, x) <==> x <= hi;
    forall k: nat | k < |tail|
      ensures LetsIn(body, k + 1, x) <==> LetsIn(tail, k, x)
    {
    }
    if InClass(body, x) {
      var k: nat :| k < |body| && LetsIn(body, k, x);
      if k > 0 { assert LetsIn(tail, k - 1, x); }
    }
    if k: nat :| k < |tail| && LetsIn(tail, k, x) {
      assert LetsIn(body, k + 1, x);
    }
  }

  /** A dash at the end stands for nothing. */
  lemma {:induction false} TrailingDash(body: Text, x: Char16)
    requires body == [] || body[|body| - 1] != 0x2D
    ensures InClass(body + [0x2D], x) <==> InClass(body, x)
  {
    var whole := body + [0x2D];
    forall k: nat | k < |body|
      ensures LetsIn(whole, k, x) <==> LetsIn(body, k, x)
    {
    }
    if InClass(whole, x) {
      var k: nat :| k < |whole| && LetsIn(whole, k, x);
      assert k < |body|;
    }
    if k: nat :| k < |body| && LetsIn(body, k, x) {
      assert LetsIn(whole, k, x);
    }
  }

  // ----- patterns -----

  ghost predicate Matches(pattern: Text, s: Text) {
    InLanguage(Tokens(pattern), s)
  }

  lemma {:induction false} EmptyPattern(s: Text)
    ensures Matches([], s) <==> s == []
  {
    EmptyLanguage(s);
  }

  /** Any run of characters. */
  lemma {:induction false} StarMeans(pattern: Text, s: Text)
    ensures Matches([0x2A] + pattern, s) <==> exists k: nat :: k <= |s| && Matches(pattern, s[k..])
  {
    assert ([0x2A] + pattern)[1..] == pattern;
    AnyRunMeans(Tokens(pattern), s);
    if k: nat :| k <= |s| && InLanguage(Tokens(pattern), s[k..]) {
      assert Matches(pattern, s[k..]);
    }
    if k: nat :| k <= |s| && Matches(pattern, s[k..]) {
      assert InLanguage(Tokens(pattern), s[k..]);
    }
  }

  /** Any one character. */
  lemma {:induction false} QuestionMeans(pattern: Text, s: Text)
    ensures Matches([0x3F] + pattern, s) <==> s != [] && Matches(pattern, s[1..])
  {
    assert ([0x3F] + pattern)[1..] == pattern;
    OneCharacter(AnyOne, Tokens(pattern), s);
  }

  /** A character that is no metacharacter stands for itself. */
  lemma {:induction false} LiteralMeans(c: Char16, pattern: Text, s: Text)
    requires c !in {0x2A, 0x3F, 0x5B}
    ensures Matches([c] + pattern, s) <==> s != [] && s[0] == c && Matches(pattern, s[1..])
  {
    assert ([c] + pattern)[1..] == pattern;
    OneCharacter(Literal(c), Tokens(pattern), s);
  }

  lemma {:induction false} CloseIsFound(body: Text, pattern: Text)
    requires 0x5D !in body
    ensures FindClose(body + [0x5D] + pattern) == |body|
  {
    if body != [] {
      assert (body + [0x5D] + pattern)[1..] == body[1..] + [0x5D] + pattern;
      CloseIsFound(body[1..], pattern);
    }
  }

  lemma {:induction false} BracketsAreClass(body: Text, pattern: Text)
    requires 0x5D !in body
    ensures Tokens([0x5B] + body + [0x5D] + pattern) == [Class(body)] + Tokens(pattern)
  {
    var rest := body + [0x5D] + pattern;
    CloseIsFound(body, pattern);
    assert [0x5B] + body + [0x5D] + pattern == [0x5B] + rest && ([0x5B] + rest)[1..] == rest;
    assert rest[..|body|] == body && rest[|body| + 1..] == pattern;
  }

  /** Any one of the characters that the class between the brackets lists. */
  lemma {:induction false} BracketsMean(items: seq<Listed>, pattern: Text, s: Text)
    requires AllValid(items)
    ensures Matches([0x5B] + WrittenOut(items) + [0x5D] + pattern, s)
       <==> s != [] && SomeHas(items, s[0]) && Matches(pattern, s[1..])
  {
    var body := WrittenOut(items);
    WrittenOutEnds(items);
    BracketsAreClass(body, pattern);
    OneCharacter(Class(body), Tokens(pattern), s);
    if s != [] {
      ClassMeans(items, s[0]);
    }
  }

  /** So a pattern without metacharacters matches itself and nothing else. */
  lemma {:induction false} PlainPatternMatchesItself(pattern: Text, s: Text)
    requires 0x2A !in pattern && 0x3F !in pattern && 0x5B !in pattern
    ensures Matches(pattern, s) <==> s == pattern
  {
    if pattern == [] {
      EmptyPattern(s);
    } else {
      LiteralMeans(pattern[0], pattern[1..], s);
      assert [pattern[0]] + pattern[1..] == pattern;
      if s != [] {
        PlainPatternMatchesItself(pattern[1..], s[1..]);
        assert s == [s[0]] + s[1..];
      }
    }
  }
}
