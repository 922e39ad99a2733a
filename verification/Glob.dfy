/**
 MetaMatch of lib/str.c. A pointer into a NUL-terminated text is the text that is left:
 reading through it gives 0 when nothing is left, and it never moves past that 0.
 The reference is the pattern's language: a list of tokens, each taking a piece of the
 string.
 */
module Glob {
  import opened Words

  type Text = seq<Char16>

  const STAR: Char16 := 0x2A
  const QUESTION: Char16 := 0x3F
  const OPEN: Char16 := 0x5B
  const CLOSE: Char16 := 0x5D
  const DASH: Char16 := 0x2D

  /** No NUL before the terminator. */
  predicate IsText(s: Text) {
    forall i :: 0 <= i < |s| ==> s[i] != 0
  }

  /** The character a pointer shows. */
  function Head(s: Text): Char16 {
    if s == [] then 0 else s[0]
  }

  // ----- the language -----

  datatype Token = AnyRun | AnyOne | Class(body: Text) | Literal(c: Char16) | Unclosed(body: Text)

  /** The low end of the range whose dash is at `k`: the character before it. */
  function LowEnd(body: Text, k: nat): Char16
    requires k < |body|
  {
    if k == 0 then 0 else body[k - 1]
  }

  /** Position k of a class body lets `c` in: as itself, or as a range around a dash. A
      dash at the very end stands for nothing. */
  predicate LetsIn(body: Text, k: nat, c: Char16)
    requires k < |body|
  {
    if body[k] != DASH then
      c == body[k]
    else
      k + 1 < |body| && (LowEnd(body, k) <= c <= body[k + 1] || c == body[k + 1])
  }

  ghost predicate InClass(body: Text, c: Char16) {
    exists k: nat :: k < |body| && LetsIn(body, k, c)
  }

  ghost predicate Takes(t: Token, piece: Text) {
    match t
    case AnyRun => true
    case AnyOne => |piece| == 1
    case Class(body) => |piece| == 1 && InClass(body, piece[0])
    case Literal(c) => piece == [c]
    case Unclosed(_) => false
  }

  function Concat(pieces: seq<Text>): Text {
    if pieces == [] then [] else pieces[0] + Concat(pieces[1..])
  }

  /** The string splits into one piece for each token. */
  ghost predicate Splits(tokens: seq<Token>, s: Text, pieces: seq<Text>) {
    && |pieces| == |tokens| && Concat(pieces) == s
    && forall i :: 0 <= i < |tokens| ==> Takes(tokens[i], pieces[i])
  }

  ghost predicate InLanguage(tokens: seq<Token>, s: Text) {
    exists pieces: seq<Text> :: Splits(tokens, s, pieces)
  }

  // ----- patterns -----

  /** The first `]`; the length if there is none. */
  function FindClose(p: Text): (e: nat)
    ensures e <= |p| && CLOSE !in p[..e] && (e < |p| ==> p[e] == CLOSE)
  {
    if p == [] || p[0] == CLOSE then 0
    else
      assert p[..1 + FindClose(p[1..])] == [p[0]] + p[1..][..FindClose(p[1..])];
      1 + FindClose(p[1..])
  }

  /** A class that is not closed swallows the rest of the pattern and takes nothing. */
  function Tokens(p: Text): (tokens: seq<Token>) {
    if p == [] then []
    else if p[0] == OPEN then
      var e := FindClose(p[1..]);
      if e == |p[1..]| then [Unclosed(p[1..])] else [Class(p[1..][..e])] + Tokens(p[1..][e + 1..])
    else
      [if p[0] == STAR then AnyRun else if p[0] == QUESTION then AnyOne else Literal(p[0])] + Tokens(p[1..])
  }

  /** An unclosed body that refuses `c` all the same: it ends in a dash, and lets `c` in
      nowhere. */
  ghost predicate TurnsAway(body: Text, c: Char16) {
    body != [] && body[|body| - 1] == DASH && !InClass(body, c)
  }

  /** The matcher meets an unclosed class only with characters that it turns away: with any
      other it would run past the pattern's end. */
  ghost predicate StaysInside(tokens: seq<Token>, s: Text) {
    tokens != [] && tokens[|tokens| - 1].Unclosed? ==>
      forall k: nat :: k < |s| && InLanguage(tokens[..|tokens| - 1], s[..k]) ==> TurnsAway(tokens[|tokens| - 1].body, s[k])
  }

  // ----- how the language unfolds -----

  lemma {:induction false} EmptyLanguage(s: Text)
    ensures InLanguage([], s) <==> s == []
  {
    if s == [] {
      assert Splits([], s, []);
    }
  }

  lemma {:induction false} FirstPiece(t: Token, rest: seq<Token>, s: Text, k: nat)
    requires k <= |s| && Takes(t, s[..k]) && InLanguage(rest, s[k..])
    ensures InLanguage([t] + rest, s)
  {
    var pieces: seq<Text> :| Splits(rest, s[k..], pieces);
    assert ([s[..k]] + pieces)[1..] == pieces;
    assert Splits([t] + rest, s, [s[..k]] + pieces);
  }

  lemma {:induction false} SplitOffFirst(t: Token, rest: seq<Token>, s: Text) returns (k: nat)
    requires InLanguage([t] + rest, s)
    ensures k <= |s| && Takes(t, s[..k]) && InLanguage(rest, s[k..])
  {
    var pieces: seq<Text> :| Splits([t] + rest, s, pieces);
    k := |pieces[0]|;
    assert s == pieces[0] + Concat(pieces[1..]);
    assert s[..k] == pieces[0] && s[k..] == Concat(pieces[1..]);
    assert Takes(([t] + rest)[0], pieces[0]);
    forall i | 0 <= i < |rest|
      ensures Takes(rest[i], pieces[1..][i])
    {
      assert Takes(([t] + rest)[i + 1], pieces[i + 1]);
    }
    assert Splits(rest, s[k..], pieces[1..]);
  }

  lemma {:induction false} EndOfPattern(s: Text)
    ensures InLanguage(Tokens([]), s) <==> s == []
  {
    EmptyLanguage(s);
  }

  /** A token other than `*` takes exactly one character. */
  lemma {:induction false} OneCharacter(t: Token, rest: seq<Token>, s: Text)
    requires t != AnyRun
    ensures InLanguage([t] + rest, s) <==> s != [] && Takes(t, s[..1]) && InLanguage(rest, s[1..])
  {
    if s != [] && Takes(t, s[..1]) && InLanguage(rest, s[1..]) {
      FirstPiece(t, rest, s, 1);
    }
    if InLanguage([t] + rest, s) {
      var k := SplitOffFirst(t, rest, s);
      assert k == 1;
    }
  }

  /** `*` takes any number of them. */
  lemma {:induction false} AnyRunMeans(rest: seq<Token>, s: Text)
    ensures InLanguage([AnyRun] + rest, s) <==> exists k: nat :: k <= |s| && InLanguage(rest, s[k..])
  {
    if k: nat :| k <= |s| && InLanguage(rest, s[k..]) {
      FirstPiece(AnyRun, rest, s, k);
    }
    if InLanguage([AnyRun] + rest, s) {
      var k := SplitOffFirst(AnyRun, rest, s);
    }
  }

  /** Once the first token has its piece, the rest stays inside on what is left. */
  lemma {:induction false} InsideAfterPiece(t: Token, rest: seq<Token>, s: Text, n: nat)
    requires StaysInside([t] + rest, s) && n <= |s| && Takes(t, s[..n])
    ensures StaysInside(rest, s[n..])
  {
    if rest != [] && rest[|rest| - 1].Unclosed? {
      var last := |rest| - 1;
      assert ([t] + rest)[..last + 1] == [t] + rest[..last] && ([t] + rest)[last + 1] == rest[last];
      forall k: nat | k < |s[n..]| && InLanguage(rest[..last], s[n..][..k])
        ensures TurnsAway(rest[last].body, s[n..][k])
      {
        assert s[..n + k][..n] == s[..n] && s[..n + k][n..] == s[n..][..k];
        FirstPiece(t, rest[..last], s[..n + k], n);
      }
    }
  }

  /** A token other than `*` takes the first character, or the match fails. */
  lemma {:induction false} NextToken(t: Token, rest: seq<Token>, s: Text)
    requires t != AnyRun && StaysInside([t] + rest, s)
    ensures s != [] && Takes(t, s[..1]) ==>
              && StaysInside(rest, s[1..]) && (InLanguage([t] + rest, s) <==> InLanguage(rest, s[1..]))
    ensures s == [] || !Takes(t, s[..1]) ==> !InLanguage([t] + rest, s)
  {
    OneCharacter(t, rest, s);
    if s != [] && Takes(t, s[..1]) {
      InsideAfterPiece(t, rest, s, 1);
    }
  }

  /** The token a pattern starts with. */
  lemma {:induction false} TokensUnfold(p: Text)
    requires p != []
    ensures p[0] == STAR ==> Tokens(p) == [AnyRun] + Tokens(p[1..])
    ensures p[0] == QUESTION ==> Tokens(p) == [AnyOne] + Tokens(p[1..])
    ensures p[0] == OPEN ==>
              var e := FindClose(p[1..]);
              Tokens(p) == if e == |p[1..]| then [Unclosed(p[1..])] else [Class(p[1..][..e])] + Tokens(p[1..][e + 1..])
    ensures p[0] != STAR && p[0] != QUESTION && p[0] != OPEN ==> Tokens(p) == [Literal(p[0])] + Tokens(p[1..])
  {
  }

  /** An unclosed class matches nothing, and is met at the string's end or turns away. */
  lemma {:induction false} UnclosedMatchesNothing(body: Text, s: Text)
    requires StaysInside([Unclosed(body)], s)
    ensures !InLanguage([Unclosed(body)], s)
    ensures s == [] || TurnsAway(body, s[0])
  {
    EmptyLanguage(s[..0]);
    assert [Unclosed(body)][..0] == [];
    OneCharacter(Unclosed(body), [], s);
    assert [Unclosed(body)] + [] == [Unclosed(body)];
  }

  // ----- the matcher -----

  /** The loop over a class body, up to the place that lets `c` in, if there is one. */
  method ScanClass(c: Char16, pattern: Text) returns (found: bool, p: Char16, rest: Text)
    requires IsText(pattern) && (FindClose(pattern) < |pattern| || TurnsAway(pattern, c))
    ensures found <==> InClass(pattern[..FindClose(pattern)], c)
    ensures found ==> p != 0 && p != CLOSE && |pattern| - FindClose(pattern) <= |rest| <= |pattern|
    ensures found ==> rest == pattern[|pattern| - |rest|..]
  {
    ghost var e := FindClose(pattern);
    ghost var body := pattern[..e];
    ghost var at: nat := 0;
    var l: Char16 := 0;
    p, rest, found := 0, pattern, false;
    assert at < e || e < |pattern|;
    while !found
      invariant at <= e && (at < e || e < |pattern|) && rest == pattern[at..] && !found
      invariant forall k: nat :: k < at ==> !LetsIn(body, k, c)
      invariant 0 < at ==> l == body[at - 1] || (body[at - 1] == DASH && at < e && l == body[at])
      invariant at == 0 ==> l == 0
      decreases e - at
    {
      p := Head(rest);
      rest := rest[1..];
      at := at + 1;
      if p == CLOSE {
        return;
      }
      assert body[at - 1] == p;
      if p == DASH {
        p := Head(rest);
        if p == 0 || p == CLOSE {
          return;
        }
        assert body[at] == p;
        if l <= c <= p {
          assert LetsIn(body, at - 1, c);
          found := true;
          return;
        }
      }
      l := p;
      if c == p {
        assert LetsIn(body, at - 1, c);
        found := true;
        return;
      }
    }
  }

  lemma {:induction false} FindCloseFurtherOn(p: Text, at: nat)
    requires at <= FindClose(p)
    ensures FindClose(p[at..]) == FindClose(p) - at
  {
    if at > 0 {
      FindCloseFurtherOn(p[1..], at - 1);
      assert p[at..] == p[1..][at - 1..];
    }
  }

  /** The loop that skips the rest of a class, up to and including its `]`. */
  method SkipClass(p0: Char16, rest0: Text) returns (rest: Text)
    requires p0 != 0 && p0 != CLOSE && IsText(rest0) && FindClose(rest0) < |rest0|
    ensures rest == rest0[FindClose(rest0) + 1..]
  {
    var p := p0;
    rest := rest0;
    while p != 0 && p != CLOSE
      invariant IsText(rest)
      invariant if p == 0 || p == CLOSE then rest == rest0[FindClose(rest0) + 1..]
                else FindClose(rest) < |rest| && rest[FindClose(rest) + 1..] == rest0[FindClose(rest0) + 1..]
      decreases |rest|
    {
      p := Head(rest);
      rest := rest[1..];
    }
  }

  /** The two loops over a class: whether `c` is let in, and if so the pattern behind it.
      `pattern` starts behind the `[`. */
  method MatchClass(c: Char16, pattern: Text) returns (found: bool, rest: Text)
    requires IsText(pattern) && (FindClose(pattern) < |pattern| || TurnsAway(pattern, c))
    ensures found <==> InClass(pattern[..FindClose(pattern)], c)
    ensures found ==> FindClose(pattern) < |pattern| && rest == pattern[FindClose(pattern) + 1..]
  {
    var p;
    found, p, rest := ScanClass(c, pattern);
    if found {
      assert pattern[..|pattern|] == pattern;
      FindCloseFurtherOn(pattern, |pattern| - |rest|);
      rest := SkipClass(p, rest);
    }
  }

  method MetaMatch(string0: Text, pattern0: Text) returns (matched: bool)
    requires IsText(string0) && IsText(pattern0) && StaysInside(Tokens(pattern0), string0)
    ensures matched <==> InLanguage(Tokens(pattern0), string0)
    decreases |pattern0|
  {
    hide InLanguage, StaysInside, InClass, TurnsAway, Tokens, FindClose;
    var s, pattern := string0, pattern0;
    while true
      invariant IsText(s) && IsText(pattern) && StaysInside(Tokens(pattern), s) && |pattern| <= |pattern0|
      invariant InLanguage(Tokens(pattern0), string0) <==> InLanguage(Tokens(pattern), s)
      decreases |pattern|
    {
      var p := Head(pattern);
      if p == 0 {
        EndOfPattern(s);
        return Head(s) == 0;
      }
      TokensUnfold(pattern);
      pattern := pattern[1..];
      if p == STAR {
        AnyRunMeans(Tokens(pattern), s);
        matched := MatchStar(s, pattern);
        return;
      } else if p == QUESTION {
        NextToken(AnyOne, Tokens(pattern), s);
        if Head(s) == 0 {
          return false;
        }
        s := s[1..];
      } else if p == OPEN {
        var c := Head(s);
        ghost var e := FindClose(pattern);
        if e == |pattern| {
          UnclosedMatchesNothing(pattern, s);
        } else {
          NextToken(Class(pattern[..e]), Tokens(pattern[e + 1..]), s);
        }
        if c == 0 {
          return false;
        }
        var found, after := MatchClass(c, pattern);
        if !found {
          return false;
        }
        pattern, s := after, s[1..];
      } else {
        NextToken(Literal(p), Tokens(pattern), s);
        if Head(s) != p {
          return false;
        }
        s := s[1..];
      }
    }
  }

  /** The `*` case: try the rest of the pattern at every place of the string. */
  method MatchStar(string0: Text, pattern: Text) returns (matched: bool)
    requires IsText(string0) && IsText(pattern) && StaysInside([AnyRun] + Tokens(pattern), string0)
    ensures matched <==> exists k: nat :: k <= |string0| && InLanguage(Tokens(pattern), string0[k..])
    decreases |pattern| + 1, 0
  {
    var s := string0;
    ghost var at: nat := 0;
    while Head(s) != 0
      invariant IsText(s) && at <= |string0| && s == string0[at..]
      invariant forall k: nat :: k < at ==> !InLanguage(Tokens(pattern), string0[k..])
      decreases |s|
    {
      InsideAfterPiece(AnyRun, Tokens(pattern), string0, at);
      var here := MetaMatch(s, pattern);
      if here {
        return true;
      }
      s, at := s[1..], at + 1;
    }
    InsideAfterPiece(AnyRun, Tokens(pattern), string0, at);
    matched := MetaMatch(s, pattern);
    assert matched ==> InLanguage(Tokens(pattern), string0[at..]);
  }
}
