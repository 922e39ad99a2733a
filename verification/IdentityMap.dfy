/**
 The identity mappings of kernel/uefi/kernel.c on values: which virtual page takes
 which path, and what mapping a contiguous range to itself yields and costs.
 */
module IdentityMap {
  import opened Words
  import opened PageLedger
  import opened PageTables

  const PAGES_48: int := 0x10_0000_0000

  // ----- virtual page numbers and paths -----

  /** v shifted right by 9 * k bits. */
  function Up(v: nat, k: nat): (u: nat)
    ensures u <= v
    decreases k, v
  {
    if k == 0 then v else Up(v / 512, k - 1)
  }

  function Limit(d: nat): nat {
    if d == 0 then 1 else 512 * Limit(d - 1)
  }

  lemma {:induction false} UpIsMonotone(v: nat, w: nat, k: nat)
    requires v <= w
    ensures Up(v, k) <= Up(w, k)
  {
    if k > 0 {
      UpIsMonotone(v / 512, w / 512, k - 1);
    }
  }

  /** The number a path spells; for a page, its virtual page number. */
  function NumberOf(q: Path): nat {
    if q.Root? then 0 else 512 * NumberOf(q.parent) + q.i
  }

  lemma {:induction false} NumbersAreDistinct(q: Path, x: Path)
    requires Depth(q) == Depth(x) && NumberOf(q) == NumberOf(x)
    ensures q == x
  {
    if q.Sub? {
      NumbersAreDistinct(q.parent, x.parent);
    }
  }

  lemma {:induction false} NumberIsBelowLimit(q: Path)
    ensures NumberOf(q) < Limit(Depth(q))
  {
    if q.Sub? {
      NumberIsBelowLimit(q.parent);
    }
  }

  lemma {:induction false} PathWithNumber(v: nat, d: nat) returns (q: Path)
    requires v < Limit(d)
    ensures Depth(q) == d && NumberOf(q) == v
  {
    if d == 0 {
      q := Root;
    } else {
      var p := PathWithNumber(v / 512, d - 1);
      q := Sub(p, v % 512);
    }
  }

  lemma {:induction false} SomePageHasNumber(v: nat)
    requires v < PAGES_48
    ensures exists q: Path :: IsPage(q) && NumberOf(q) == v
  {
    assert Limit(4) == PAGES_48;
    var q := PathWithNumber(v, 4);
    assert IsPage(q);
  }

  /** The page whose four indices spell the low 36 bits of page number `v`. */
  ghost function PageAt(v: nat): (q: Path)
    ensures IsPage(q) && NumberOf(q) == v % PAGES_48
  {
    SomePageHasNumber(v % PAGES_48);
    var q: Path :| IsPage(q) && NumberOf(q) == v % PAGES_48;
    q
  }

  /** Page numbers below 2^36 and paths of four indices are the same thing. */
  lemma {:induction false} PageNumbersArePaths(v: nat, q: Path)
    requires v < PAGES_48 && IsPage(q)
    ensures NumberOf(q) < PAGES_48 && NumberOf(PageAt(v)) == v
    ensures NumberOf(q) == v <==> q == PageAt(v)
  {
    assert Limit(4) == PAGES_48;
    NumberIsBelowLimit(q);
    if NumberOf(q) == v {
      NumbersAreDistinct(q, PageAt(v));
    }
  }

  lemma {:induction false} FourDigits(v: nat)
    ensures 512 * (512 * (512 * (v / 512 / 512 / 512 % 512) + v / 512 / 512 % 512) + v / 512 % 512) + v % 512
         == v % PAGES_48
  {
    var v1, v2, v3 := v / 512, v / 512 / 512, v / 512 / 512 / 512;
    assert v == 512 * v1 + v % 512 && v1 == 512 * v2 + v1 % 512 && v2 == 512 * v3 + v2 % 512;
    assert v3 == 512 * (v3 / 512) + v3 % 512;
  }

  lemma {:induction false} NumberOfSub(p: Path, i: Index)
    ensures Depth(Sub(p, i)) == 1 + Depth(p) && NumberOf(Sub(p, i)) == 512 * NumberOf(p) + i
  {
  }

  /** The page of number `v` is reached by v's digits to the base 512. */
  lemma {:induction false} DigitsSpellPath(v: nat)
    ensures Sub(Sub(Sub(Sub(Root, v / 512 / 512 / 512 % 512), v / 512 / 512 % 512), v / 512 % 512), v % 512) == PageAt(v)
  {
    var p1 := Sub(Root, v / 512 / 512 / 512 % 512);
    var p2 := Sub(p1, v / 512 / 512 % 512);
    var p3 := Sub(p2, v / 512 % 512);
    var page := Sub(p3, v % 512);
    NumberOfSub(Root, v / 512 / 512 / 512 % 512);
    NumberOfSub(p1, v / 512 / 512 % 512);
    NumberOfSub(p2, v / 512 % 512);
    NumberOfSub(p3, v % 512);
    FourDigits(v);
    NumbersAreDistinct(page, PageAt(v));
  }

  /** A path is on the way to page v if it spells v's upper bits. */
  lemma {:induction false} OnWayIffUpperBits(x: Path, q: Path)
    requires Depth(x) <= Depth(q)
    ensures OnWay(x, q) <==> NumberOf(x) == Up(NumberOf(q), Depth(q) - Depth(x))
  {
    if Depth(x) == Depth(q) {
      if OnWay(x, q) {
        OnWayIsNoDeeper(x, q);
      } else if NumberOf(x) == NumberOf(q) {
        NumbersAreDistinct(x, q);
      }
    } else {
      OnWayIffUpperBits(x, q.parent);
    }
  }

  // ----- mapping a range -----

  /** The loop body of kmain for the n pages from `start`, each mapped to itself. */
  ghost function MapRange(m: Machine, start: nat, n: nat): (r: Machine)
    requires m.ledger.Valid() && start + n <= FRAMES
    ensures r.ledger.Valid() && r.root == m.root
  {
    if n == 0 then m else MapPage(MapRange(m, start, n - 1), PageAt(start + n - 1), start + n - 1)
  }

  lemma {:induction false} MapRangeUnfolds(m: Machine, start: nat, n: nat)
    requires m.ledger.Valid() && start + n < FRAMES
    ensures MapRange(m, start, n + 1) == MapPage(MapRange(m, start, n), PageAt(start + n), start + n)
  {
  }

  /** How many aligned blocks of 512^k pages the n pages from `start` meet. */
  function Blocks(start: nat, n: nat, k: nat): int {
    if n == 0 then 0 else Up(start + n - 1, k) - Up(start, k) + 1
  }

  /** Tables of all three levels for a range that has none yet. */
  function TablesFor(start: nat, n: nat): int {
    Blocks(start, n, 1) + Blocks(start, n, 2) + Blocks(start, n, 3)
  }

  lemma {:induction false} UpDivides(v: nat)
    ensures Up(v, 1) == v / 512
    ensures Up(v, 2) == v / 262144
    ensures Up(v, 3) == v / 134217728
  {
    assert v / 512 / 512 == v / 262144;
    assert v / 262144 / 512 == v / 134217728;
    assert Up(v, 2) == Up(v / 512, 1) == v / 512 / 512;
    assert Up(v, 3) == Up(v / 512, 2) == Up(v / 512 / 512, 1) == v / 512 / 512 / 512;
  }

  function CeilDiv(n: nat, d: nat): nat
    requires d > 0
  {
    (n + d - 1) / d
  }

  /** The tables needed from page 0 on: one for each started block of each level. */
  lemma {:induction false} TablesForFromZero(n: nat)
    ensures TablesFor(0, n) == CeilDiv(n, 512) + CeilDiv(n, 262144) + CeilDiv(n, 134217728)
  {
    if n > 0 {
      UpDivides(n - 1);
      UpDivides(0);
      assert CeilDiv(n, 512) == (n - 1) / 512 + 1;
      assert CeilDiv(n, 262144) == (n - 1) / 262144 + 1;
      assert CeilDiv(n, 134217728) == (n - 1) / 134217728 + 1;
    }
  }

  /** What mapping the n pages from `start` to themselves does to the pages. */
  ghost predicate RangeMapped(a: Space, b: Space, start: nat, n: nat)
    requires Total(a) && Total(b)
  {
    forall q: Path {:trigger Lookup(b, q)} {:trigger b.entries[q]} :: IsPage(q) ==>
      if start <= NumberOf(q) < start + n then Lookup(b, q) == Some(NumberOf(q)) else b.entries[q] == a.entries[q]
  }

  /** Whether page v of a range from `start` is the first in its block of 512^k pages. */
  function FirstInBlock(start: nat, v: nat, k: nat): int
    requires start <= v
  {
    if v == start || Up(v, k) != Up(v - 1, k) then 1 else 0
  }

  lemma {:induction false} UpGrowsByOne(v: nat, k: nat)
    requires v > 0
    ensures Up(v, k) <= Up(v - 1, k) + 1
  {
    if k > 0 {
      if v / 512 > 0 && (v - 1) / 512 != v / 512 {
        assert (v - 1) / 512 == v / 512 - 1;
        UpGrowsByOne(v / 512, k - 1);
      }
    }
  }

  lemma {:induction false} BlocksGrow(start: nat, n: nat, k: nat)
    ensures Blocks(start, n + 1, k) == Blocks(start, n, k) + FirstInBlock(start, start + n, k)
    ensures Blocks(start, n, k) >= 0
  {
    UpIsMonotone(start, start + n, k);
    if n > 0 {
      UpIsMonotone(start, start + n - 1, k);
      UpIsMonotone(start + n - 1, start + n, k);
      UpGrowsByOne(start + n, k);
    }
  }

  function NewTables(start: nat, n: nat): int {
    FirstInBlock(start, start + n, 1) + FirstInBlock(start, start + n, 2) + FirstInBlock(start, start + n, 3)
  }

  lemma {:induction false} TablesForGrows(start: nat, n: nat)
    ensures TablesFor(start, n + 1) == TablesFor(start, n) + NewTables(start, n)
    ensures TablesFor(start, n) >= 0
  {
    BlocksGrow(start, n, 1);
    BlocksGrow(start, n, 2);
    BlocksGrow(start, n, 3);
  }

  // ----- which tables a range has made -----

  ghost predicate NoTables(a: Space)
    requires Total(a)
  {
    forall q: Path {:trigger Lookup(a, q)} :: 1 <= Depth(q) <= 3 ==> Lookup(a, q).None?
  }

  /** Every table on the way to `last` is there. */
  ghost predicate ReachesPage(b: Space, last: Path)
    requires Total(b) && IsPage(last)
  {
    forall q: Path {:trigger Lookup(b, q)} {:trigger OnWay(q, last)} :: OnWay(q, last) && Depth(q) <= 3 ==> Lookup(b, q).Some?
  }

  lemma {:induction false} PageParents(page: Path)
    requires IsPage(page)
    ensures page.Sub? && page.parent.Sub? && page.parent.parent.Sub?
    ensures Depth(page.parent) == 3 && Depth(page.parent.parent) == 2 && Depth(page.parent.parent.parent) == 1
    ensures OnWay(page.parent, page) && OnWay(page.parent.parent, page) && OnWay(page.parent.parent.parent, page)
  {
    assert Depth(page.parent) == 3;
    assert Depth(page.parent.parent) == 2;
    assert OnWay(page.parent.parent.parent, page.parent.parent);
    assert OnWay(page.parent.parent.parent, page.parent);
  }

  /** No table at x's depth has a number beyond x's. */
  ghost predicate LastOfLevel(b: Space, x: Path)
    requires Total(b)
  {
    Depth(x) <= 3 &&
    forall q: Path {:trigger Lookup(b, q)} :: Depth(q) == Depth(x) && Lookup(b, q).Some? ==> NumberOf(q) <= NumberOf(x)
  }

  /** No table lies beyond the three tables of `last`. */
  ghost predicate NoneBeyond(b: Space, last: Path)
    requires Total(b)
  {
    && last.Sub? && LastOfLevel(b, last.parent)
    && last.parent.Sub? && LastOfLevel(b, last.parent.parent)
    && last.parent.parent.Sub? && LastOfLevel(b, last.parent.parent.parent)
  }

  /** Tables that `page` needs and the page before it, `last`, does not. */
  function StepTables(last: Path, page: Path): nat
    requires IsPage(last) && IsPage(page)
  {
    PageParents(last); PageParents(page);
    (if last.parent != page.parent then 1 else 0)
    + (if last.parent.parent != page.parent.parent then 1 else 0)
    + (if last.parent.parent.parent != page.parent.parent.parent then 1 else 0)
  }

  lemma {:induction false} MissingOnThreeLevels(a: Space, q: Path)
    requires Total(a) && Depth(q) == 3
    ensures q.Sub? && q.parent.Sub?
    ensures Missing(a, q) == (if Lookup(a, q).None? then 1 else 0)
                           + (if Lookup(a, q.parent).None? then 1 else 0)
                           + (if Lookup(a, q.parent.parent).None? then 1 else 0)
  {
    assert q.Sub? && q.parent.Sub? && Depth(q.parent.parent) == 1;
    var q1 := q.parent.parent;
    assert Depth(q1.parent) == 0;
    assert Missing(a, q1) == if Lookup(a, q1).None? then 1 else 0;
  }

  lemma {:induction false} OneLevelMissing(b: Space, x: Path, q: Path)
    requires Total(b) && 1 <= Depth(x) == Depth(q) <= 3 && Lookup(b, x).Some?
    requires NumberOf(x) <= NumberOf(q)
    ensures Lookup(b, q).None? ==> x != q
    ensures LastOfLevel(b, x) && x != q ==> Lookup(b, q).None?
  {
    if x != q && NumberOf(x) == NumberOf(q) {
      NumbersAreDistinct(x, q);
    }
  }

  /** The page after `last` lacks at most the tables it does not share with `last`, and
      exactly those if no table lies beyond. */
  lemma {:induction false} MissingIsStepTables(b: Space, last: Path, page: Path)
    requires Total(b) && IsPage(last) && IsPage(page) && NumberOf(page) == NumberOf(last) + 1
    requires ReachesPage(b, last)
    ensures Missing(b, page.parent) <= StepTables(last, page)
    ensures NoneBeyond(b, last) ==> Missing(b, page.parent) == StepTables(last, page)
  {
    PageParents(last);
    PageParents(page);
    OneLevelMissing(b, last.parent, page.parent);
    OneLevelMissing(b, last.parent.parent, page.parent.parent);
    OneLevelMissing(b, last.parent.parent.parent, page.parent.parent.parent);
    MissingOnThreeLevels(b, page.parent);
  }

  lemma {:induction false} OnWayIsUnique(x: Path, y: Path, q: Path)
    requires OnWay(x, q) && OnWay(y, q) && Depth(x) == Depth(y)
    ensures x == y
  {
    if x == q {
      OnWayIsNoDeeper(y, q);
    } else if y == q {
      OnWayIsNoDeeper(x, q);
    } else {
      OnWayIsUnique(x, y, q.parent);
    }
  }

  lemma {:induction false} LevelMoves(b: Space, c: Space, page: Path, frame: Frame, x: Path, q: Path)
    requires Total(b) && Total(c) && IsPage(page) && Maps(b, c, page, frame)
    requires Depth(x) == Depth(q) <= 3 && OnWay(q, page) && NumberOf(x) <= NumberOf(q) && LastOfLevel(b, x)
    ensures LastOfLevel(c, q)
  {
    forall y: Path | Depth(y) == Depth(q) && Lookup(c, y).Some?
      ensures NumberOf(y) <= NumberOf(q)
    {
      if OnWay(y, page) {
        OnWayIsUnique(y, q, page);
      }
    }
  }

  /** Mapping the next page moves the frontier of tables to it. */
  lemma {:induction false} FrontierMoves(b: Space, c: Space, last: Path, page: Path, frame: Frame)
    requires Total(b) && Total(c) && IsPage(last) && IsPage(page) && Maps(b, c, page, frame)
    requires NumberOf(page) == NumberOf(last) + 1
    ensures ReachesPage(c, page)
    ensures NoneBeyond(b, last) ==> NoneBeyond(c, page)
  {
    PageParents(last);
    PageParents(page);
    if NoneBeyond(b, last) {
      LevelMoves(b, c, page, frame, last.parent, page.parent);
      LevelMoves(b, c, page, frame, last.parent.parent, page.parent.parent);
      LevelMoves(b, c, page, frame, last.parent.parent.parent, page.parent.parent.parent);
    }
  }

  /** The first page of a range needs up to three tables, all three if there are none. */
  lemma {:induction false} FirstPage(a: Space, c: Space, page: Path, frame: Frame)
    requires Total(a) && Total(c) && IsPage(page) && Maps(a, c, page, frame)
    ensures ReachesPage(c, page)
    ensures Missing(a, page.parent) <= 3
    ensures NoTables(a) ==> Missing(a, page.parent) == 3 && NoneBeyond(c, page)
  {
    PageParents(page);
    MissingOnThreeLevels(a, page.parent);
    if NoTables(a) {
      forall q: Path, x: Path | OnWay(x, page) && 1 <= Depth(x) <= 3 && Depth(q) == Depth(x) && Lookup(c, q).Some?
        ensures NumberOf(q) <= NumberOf(x)
      {
        OnWayIsUnique(x, q, page);
      }
    }
  }

  // ----- pages by number -----

  /** The tables on the way to a page spell its upper bits. */
  lemma {:induction false} TablesSpellUpperBits(page: Path)
    requires IsPage(page)
    ensures page.Sub? && page.parent.Sub? && page.parent.parent.Sub?
    ensures NumberOf(page.parent) == Up(NumberOf(page), 1)
    ensures NumberOf(page.parent.parent) == Up(NumberOf(page), 2)
    ensures NumberOf(page.parent.parent.parent) == Up(NumberOf(page), 3)
  {
    PageParents(page);
    OnWayIffUpperBits(page.parent, page);
    OnWayIffUpperBits(page.parent.parent, page);
    OnWayIffUpperBits(page.parent.parent.parent, page);
  }

  lemma {:induction false} NewTablesIsStepTables(start: nat, n: nat, last: Path, page: Path)
    requires n > 0 && IsPage(last) && IsPage(page)
    requires NumberOf(last) == start + n - 1 && NumberOf(page) == start + n
    ensures NewTables(start, n) == StepTables(last, page)
  {
    TablesSpellUpperBits(last);
    TablesSpellUpperBits(page);
    PageParents(last);
    PageParents(page);
    if NumberOf(last.parent) == NumberOf(page.parent) { NumbersAreDistinct(last.parent, page.parent); }
    if NumberOf(last.parent.parent) == NumberOf(page.parent.parent) {
      NumbersAreDistinct(last.parent.parent, page.parent.parent);
    }
    if NumberOf(last.parent.parent.parent) == NumberOf(page.parent.parent.parent) {
      NumbersAreDistinct(last.parent.parent.parent, page.parent.parent.parent);
    }
  }

  lemma {:induction false} RangeGrows(a: Space, b: Space, c: Space, page: Path, frame: Frame, start: nat, n: nat)
    requires Total(a) && Total(b) && Total(c) && IsPage(page) && NumberOf(page) == start + n == frame
    requires RangeMapped(a, b, start, n) && Maps(b, c, page, frame)
    ensures RangeMapped(a, c, start, n + 1)
  {
    forall q: Path | IsPage(q)
      ensures if start <= NumberOf(q) < start + n + 1 then Lookup(c, q) == Some(NumberOf(q)) else c.entries[q] == a.entries[q]
    {
      if q == page {
        NumberIsBelowLimit(page);
        assert Limit(4) == PAGES_48 && c.entries[page].Follows(4);
      } else {
        if NumberOf(q) == NumberOf(page) { NumbersAreDistinct(q, page); }
        assert c.entries[q] == b.entries[q] && Lookup(c, q) == Lookup(b, q);
      }
    }
  }

  // ----- the range as a list of consecutive pages -----

  /** Pages with consecutive numbers from `start`. */
  ghost predicate Consecutive(pages: seq<Path>, start: nat) {
    forall k :: 0 <= k < |pages| ==> IsPage(pages[k]) && NumberOf(pages[k]) == start + k
  }

  /** The tables a list of consecutive pages asks for, if none is there yet. */
  ghost function Demand(pages: seq<Path>): nat
    requires forall k :: 0 <= k < |pages| ==> IsPage(pages[k])
  {
    var n := |pages| - 1;
    if n < 0 then 0
    else if n == 0 then 3
    else Demand(pages[..n]) + StepTables(pages[n - 1], pages[n])
  }

  /** b is what mapping the consecutive `pages` to themselves made of a. */
  ghost predicate Progress(a: Space, b: Space, pages: seq<Path>, start: nat) {
    && Total(a) && Total(b) && Consecutive(pages, start)
    && RangeMapped(a, b, start, |pages|)
    && (pages == [] ==> b == a)
    && (pages != [] ==> ReachesPage(b, pages[|pages| - 1]))
    && (pages != [] && NoTables(a) ==> NoneBeyond(b, pages[|pages| - 1]))
    && (AllWritable(a) ==> AllWritable(b))
  }

  lemma {:induction false} ProgressNeeds(a: Space, b: Space, pages: seq<Path>, start: nat, page: Path)
    requires Progress(a, b, pages, start) && IsPage(page) && NumberOf(page) == start + |pages|
    ensures Missing(b, page.parent) <= Demand(pages + [page]) - Demand(pages)
    ensures NoTables(a) ==> Missing(b, page.parent) == Demand(pages + [page]) - Demand(pages)
  {
    assert (pages + [page])[..|pages|] == pages;
    if pages == [] {
      PageParents(page);
      MissingOnThreeLevels(b, page.parent);
    } else {
      MissingIsStepTables(b, pages[|pages| - 1], page);
    }
  }

  lemma {:induction false} ConsecutiveGrows(pages: seq<Path>, start: nat, page: Path)
    requires Consecutive(pages, start) && IsPage(page) && NumberOf(page) == start + |pages|
    ensures Consecutive(pages + [page], start)
  {
  }

  lemma {:induction false} ProgressMoves(a: Space, b: Space, c: Space, pages: seq<Path>, start: nat, page: Path, frame: Frame)
    requires Progress(a, b, pages, start) && IsPage(page) && NumberOf(page) == start + |pages| == frame
    requires Total(c) && Maps(b, c, page, frame)
    ensures Progress(a, c, pages + [page], start)
  {
    ConsecutiveGrows(pages, start, page);
    RangeGrows(a, b, c, page, frame, start, |pages|);
    if pages == [] {
      FirstPage(a, c, page, frame);
    } else {
      FrontierMoves(b, c, pages[|pages| - 1], page, frame);
    }
  }

  /** Everything mapping a list of consecutive pages achieves, and what it takes. */
  ghost predicate EachMapped(a: Space, c: Space, keep: set<nat>, pages: seq<Path>, start: nat) {
    && Tree(c, keep) && Progress(a, c, pages, start)
    && FreeFrames(c.ledger) >= FreeFrames(a.ledger) - Demand(pages)
    && (NoTables(a) ==> FreeFrames(c.ledger) == FreeFrames(a.ledger) - Demand(pages))
  }

  lemma {:induction false} FramesSufficeForOneMore(a: Space, b: Space, keep: set<nat>, front: seq<Path>, start: nat, page: Path)
    requires EachMapped(a, b, keep, front, start) && IsPage(page) && NumberOf(page) == start + |front|
    requires Demand(front + [page]) <= FreeFrames(a.ledger)
    ensures Missing(b, page.parent) <= FreeFrames(b.ledger)
  {
    ProgressNeeds(a, b, front, start, page);
  }

  lemma {:induction false} OneMoreMapped(
    a: Space, b: Space, c: Space, keep: set<nat>, front: seq<Path>, start: nat, page: Path, frame: Frame)
    requires EachMapped(a, b, keep, front, start) && IsPage(page) && NumberOf(page) == start + |front| == frame
    requires Demand(front + [page]) <= FreeFrames(a.ledger)
    requires Tree(c, keep) && Maps(b, c, page, frame)
    requires FreeFrames(c.ledger) == FreeFrames(b.ledger) - Missing(b, page.parent)
    ensures EachMapped(a, c, keep, front + [page], start)
  {
    ProgressNeeds(a, b, front, start, page);
    ProgressMoves(a, b, c, front, start, page, frame);
  }

  lemma {:induction false} NothingMapped(a: Space, keep: set<nat>, start: nat)
    requires Tree(a, keep)
    ensures EachMapped(a, a, keep, [], start)
  {
  }

  // ----- the range by page numbers -----

  ghost function PagesFrom(start: nat, n: nat): (pages: seq<Path>)
    ensures |pages| == n && forall k :: 0 <= k < n ==> IsPage(pages[k])
  {
    if n == 0 then [] else PagesFrom(start, n - 1) + [PageAt(start + n - 1)]
  }

  lemma {:induction false} PagesFromUnfolds(start: nat, n: nat)
    ensures PagesFrom(start, n + 1) == PagesFrom(start, n) + [PageAt(start + n)]
  {
  }

  lemma {:induction false} PagesFromAreConsecutive(start: nat, n: nat)
    requires start + n <= PAGES_48
    ensures Consecutive(PagesFrom(start, n), start)
  {
    if n > 0 {
      PagesFromAreConsecutive(start, n - 1);
      PageNumbersArePaths(start + n - 1, PageAt(start + n - 1));
    }
  }

  lemma {:induction false} MapOneMore(a: Space, b: Machine, keep: set<nat>, front: seq<Path>, start: nat, page: Path, frame: Frame)
    requires EachMapped(a, View(b), keep, front, start) && IsPage(page) && NumberOf(page) == start + |front| == frame
    requires Demand(front + [page]) <= FreeFrames(a.ledger)
    ensures b.ledger.Valid() && EachMapped(a, View(MapPage(b, page, frame)), keep, front + [page], start)
  {
    FramesSufficeForOneMore(a, View(b), keep, front, start, page);
    MapPageTranslates(b, keep, page, frame);
    OneMoreMapped(a, View(b), View(MapPage(b, page, frame)), keep, front, start, page, frame);
  }

  lemma {:induction false} DemandGrows(front: seq<Path>, page: Path)
    requires IsPage(page) && forall k :: 0 <= k < |front| ==> IsPage(front[k])
    ensures Demand(front) <= Demand(front + [page])
  {
    assert (front + [page])[..|front|] == front;
  }

  lemma {:induction false} MapRangeMapsOneMore(m: Machine, keep: set<nat>, start: nat, n: nat)
    requires m.ledger.Valid() && start + n < PAGES_48
    requires EachMapped(View(m), View(MapRange(m, start, n)), keep, PagesFrom(start, n), start)
    requires Demand(PagesFrom(start, n + 1)) <= FreeFrames(m.ledger)
    ensures EachMapped(View(m), View(MapRange(m, start, n + 1)), keep, PagesFrom(start, n + 1), start)
  {
    hide EachMapped, Demand, MapPage, MapRange, PagesFrom, PageAt, NumberOf;
    PageNumbersArePaths(start + n, PageAt(start + n));
    PagesFromUnfolds(start, n);
    MapOneMore(View(m), MapRange(m, start, n), keep, PagesFrom(start, n), start, PageAt(start + n), start + n);
    MapRangeUnfolds(m, start, n);
  }

  lemma {:induction false} MapRangeMapsEach(m: Machine, keep: set<nat>, start: nat, n: nat)
    requires Tree(View(m), keep) && start + n <= PAGES_48
    requires Demand(PagesFrom(start, n)) <= FreeFrames(m.ledger)
    ensures EachMapped(View(m), View(MapRange(m, start, n)), keep, PagesFrom(start, n), start)
  {
    hide EachMapped, Demand;
    if n == 0 {
      NothingMapped(View(m), keep, start);
    } else {
      DemandGrows(PagesFrom(start, n - 1), PageAt(start + n - 1));
      MapRangeMapsEach(m, keep, start, n - 1);
      MapRangeMapsOneMore(m, keep, start, n - 1);
    }
  }

  lemma {:induction false} DemandIsTablesFor(start: nat, n: nat)
    requires start + n <= PAGES_48
    ensures Demand(PagesFrom(start, n)) == TablesFor(start, n)
  {
    if n > 0 {
      var pages := PagesFrom(start, n);
      assert pages[..n - 1] == PagesFrom(start, n - 1);
      DemandIsTablesFor(start, n - 1);
      TablesForGrows(start, n - 1);
      if n > 1 {
        PagesFromAreConsecutive(start, n);
        NewTablesIsStepTables(start, n - 1, pages[n - 2], pages[n - 1]);
      }
    }
  }

  /** Mapping a range keeps the tree, makes every page of it translate to itself, leaves
      every other page alone, and takes no more frames than the blocks it meets; from a
      root without tables it takes exactly that many. */
  lemma {:induction false} MapRangeTranslates(m: Machine, keep: set<nat>, start: nat, n: nat)
    requires Tree(View(m), keep) && start + n <= PAGES_48 && TablesFor(start, n) <= FreeFrames(m.ledger)
    ensures var r := MapRange(m, start, n);
            && Tree(View(r), keep)
            && (forall q: Path :: IsPage(q) ==>
                  Walk(r, q) == if start <= NumberOf(q) < start + n then Some(NumberOf(q)) else Walk(m, q))
            && FreeFrames(r.ledger) >= FreeFrames(m.ledger) - TablesFor(start, n)
            && (NoTables(View(m)) ==> FreeFrames(r.ledger) == FreeFrames(m.ledger) - TablesFor(start, n))
            && (AllWritable(View(m)) ==> AllWritable(View(r)))
  {
    var r := MapRange(m, start, n);
    DemandIsTablesFor(start, n);
    PagesFromAreConsecutive(start, n);
    MapRangeMapsEach(m, keep, start, n);
    forall q: Path | IsPage(q)
      ensures Walk(r, q) == if start <= NumberOf(q) < start + n then Some(NumberOf(q)) else Walk(m, q)
    {
      WalkIsLookup(m, q);
      WalkIsLookup(r, q);
    }
  }

  // ----- how far identity mapping can go -----

  /** Half of the page numbers four indices can spell. */
  const PAGES_47: int := 0x8_0000_0000

  /** The page numbers of canonical linear addresses: bits 63:48 repeat bit 47. */
  predicate IsCanonical(v: nat) {
    v < PAGES_47 || FRAMES - PAGES_47 <= v < FRAMES
  }

  /** Where the processor takes the page of a 64-bit linear address: a page number that is
      not canonical faults, any other is walked by its low 36 bits. */
  ghost function Translate(m: Machine, v: nat): Option<Frame> {
    if IsCanonical(v) then Walk(m, PageAt(v)) else None
  }

  lemma {:induction false} WalkEndsInPhysicalFrame(m: Machine, q: Path)
    ensures q.Sub? && Walk(m, q).Some? ==> Walk(m, q).value < PHYSICAL
  {
  }

  /** Whatever the tables hold, no page number from 2^35 on translates to itself: up to
      the upper canonical half it faults, and there no entry can name the frame. */
  lemma {:induction false} NoIdentityBeyond47Bits(m: Machine, v: nat)
    requires v >= PAGES_47
    ensures Translate(m, v) != Some(v)
  {
    WalkEndsInPhysicalFrame(m, PageAt(v));
  }

  /** Where the walk takes the pages below `limit` and those of a range to themselves and
      no others, so does translation, all of it below 2^35. */
  lemma {:induction false} TranslatesAsWalked(m: Machine, limit: nat, start: nat, n: nat, v: nat)
    requires limit <= PAGES_47 && start + n <= PAGES_47
    requires forall q: Path :: IsPage(q) ==>
               Walk(m, q) == if NumberOf(q) < limit || start <= NumberOf(q) < start + n then Some(NumberOf(q)) else None
    ensures Translate(m, v) == if v < limit || start <= v < start + n then Some(v) else None
  {
    if IsCanonical(v) {
      var q := PageAt(v);
      assert Walk(m, q) == if NumberOf(q) < limit || start <= NumberOf(q) < start + n then Some(NumberOf(q)) else None;
      assert v < PAGES_47 ==> v % PAGES_48 == v;
      assert FRAMES - PAGES_47 <= v ==> v % PAGES_48 == v - FRAMES + PAGES_48;
    }
  }

  /** The n pages from 0 all translate to themselves after kmain's loop exactly when there
      are no more than 2^35 of them. */
  lemma {:induction false} IdentityIffWithin47Bits(m: Machine, keep: set<nat>, n: nat)
    requires Tree(View(m), keep) && n <= FRAMES && TablesFor(0, n) <= FreeFrames(m.ledger)
    ensures (forall v: nat :: v < n ==> Translate(MapRange(m, 0, n), v) == Some(v)) <==> n <= PAGES_47
  {
    var r := MapRange(m, 0, n);
    if n <= PAGES_47 {
      MapRangeTranslates(m, keep, 0, n);
      forall v: nat | v < n
        ensures Translate(r, v) == Some(v)
      {
        PageNumbersArePaths(v, PageAt(v));
      }
    } else {
      NoIdentityBeyond47Bits(r, PAGES_47);
    }
  }
}
