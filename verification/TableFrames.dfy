/**
 Which frames the page tables take: requestPage grants the lowest clear frame, so tables
 fill the clear frames from below, whatever those are used for outside of memory.
 */
module TableFrames {
  import opened Words
  import opened PageLedger
  import opened PageTables
  import opened PagingRuns
  import opened IdentityMap

  // ----- frames taken from below -----

  /** From a to b some clear frames were taken, and only frames below all that are left. */
  ghost predicate TakenFromBelow(a: Ledger, b: Ledger) {
    && |b.bits| == |a.bits|
    && (forall f: nat :: b.IsClear(f) ==> a.IsClear(f))
    && (forall f: nat, g: nat :: a.IsClear(f) && !b.IsClear(f) && b.IsClear(g) ==> f < g)
  }

  /** How many frames below `f` are clear. */
  function ClearBelow(a: Ledger, f: nat): nat
    requires f <= |a.bits|
  {
    f - Marked(a.bits[..f])
  }

  lemma {:induction false} MoreMarked(s: seq<bool>, t: seq<bool>, i: nat)
    requires |s| == |t| && forall k :: 0 <= k < |s| && s[k] ==> t[k]
    ensures Marked(s) <= Marked(t)
    ensures i < |s| && !s[i] && t[i] ==> Marked(s) < Marked(t)
  {
    if s != [] {
      MoreMarked(s[..|s| - 1], t[..|s| - 1], i);
    }
  }

  /** Marks that were only added, all of them below `f` or none behind it. */
  lemma {:induction false} MarksAddedAround(x: seq<bool>, y: seq<bool>, f: nat)
    requires |x| == |y| && f < |x| && !x[f] && forall k :: 0 <= k < |x| && x[k] ==> y[k]
    ensures y[f] && (forall k :: 0 <= k < f ==> y[k]) ==> f - Marked(x[..f]) < Marked(y) - Marked(x)
    ensures y[f..] == x[f..] ==> f - Marked(x[..f]) >= Marked(y) - Marked(x)
  {
    MarkedSplits(x, f);
    MarkedSplits(y, f);
    if y[f] && forall k :: 0 <= k < f ==> y[k] {
      AllMarked(y[..f]);
      MoreMarked(x[f..], y[f..], 0);
    }
  }

  /** A clear frame is among those taken exactly when fewer frames below it are clear than
      were taken. */
  lemma {:induction false} TakenIffFewBelow(a: Ledger, b: Ledger, f: nat)
    requires a.Valid() && b.Valid() && TakenFromBelow(a, b) && a.IsClear(f)
    ensures !b.IsClear(f) <==> ClearBelow(a, f) < FreeFrames(a) - FreeFrames(b)
  {
    hide Marked;
    var x, y := a.bits[..a.Pages()], b.bits[..a.Pages()];
    assert forall k :: 0 <= k < |x| ==> (a.IsClear(k) <==> !x[k]) && (b.IsClear(k) <==> !y[k]);
    assert x[..f] == a.bits[..f];
    MarksAddedAround(x, y, f);
  }

  lemma {:induction false} RequestTakesFromBelow(a: Ledger, b: Ledger)
    requires a.Valid() && b.Valid() && TakenFromBelow(a, b)
    ensures TakenFromBelow(a, Request(b).0)
  {
    RequestGrantsLowestClear(b);
  }

  // ----- tables are the frames taken -----

  /** Since the ledger stood at `a` and the tables were `before`, every frame taken has become
      a table and nothing else has, and frames were taken from below. */
  ghost predicate TablesFill(a: Ledger, before: set<nat>, b: Space) {
    && Total(b) && TakenFromBelow(a, b.ledger)
    && forall f: nat :: IsTable(b, f) <==> f in before || (a.IsClear(f) && !b.ledger.IsClear(f))
  }

  lemma {:induction false} SameTablesFill(a: Ledger, before: set<nat>, b: Space, c: Space)
    requires TablesFill(a, before, b) && Total(c) && c.ledger == b.ledger
    requires forall x: Path, t: Frame :: TableAt(c, x, t) <==> TableAt(b, x, t)
    ensures TablesFill(a, before, c)
  {
    forall f: nat
      ensures IsTable(c, f) <==> IsTable(b, f)
    {
    }
  }

  lemma {:induction false} LinkFills(a: Ledger, before: set<nat>, b: Space, keep: set<nat>, q: Path)
    requires a.Valid() && TablesFill(a, before, b)
    requires Tree(b, keep) && 1 <= Depth(q) <= 3 && Lookup(b, q.parent).Some?
    requires Lookup(b, q).None? ==> FreeFrames(b.ledger) > 0
    ensures TablesFill(a, before, Link(b, q))
  {
    LinkKeepsTree(b, keep, q);
    if Lookup(b, q).None? {
      var c, h := Link(b, q), Request(b.ledger).1.value;
      RequestTakesFromBelow(a, b.ledger);
      RequestGrantsLowestClear(b.ledger);
      HungTables(b, c, keep, q, h);
      assert TableAt(c, q, h);
      forall f: nat
        ensures IsTable(c, f) <==> IsTable(b, f) || f == h
      {
      }
    }
  }

  lemma {:induction false} LinkAllFills(a: Ledger, before: set<nat>, b: Space, keep: set<nat>, q: Path)
    requires a.Valid() && TablesFill(a, before, b)
    requires Tree(b, keep) && Depth(q) <= 3 && Missing(b, q) <= FreeFrames(b.ledger)
    ensures TablesFill(a, before, LinkAll(b, q))
  {
    if q.Sub? {
      LinkAllFills(a, before, b, keep, q.parent);
      LinkAllDescends(b, keep, q.parent);
      var c := LinkAll(b, q.parent);
      assert Lookup(c, q) == Lookup(b, q) && Lookup(c, q.parent).Some? by {
        if OnWay(q, q.parent) { OnWayIsNoDeeper(q, q.parent); }
        assert OnWay(q.parent, q.parent);
      }
      LinkFills(a, before, c, keep, q);
    }
  }

  lemma {:induction false} MapPageFills(a: Ledger, before: set<nat>, m: Machine, keep: set<nat>, page: Path, frame: Frame)
    requires a.Valid() && TablesFill(a, before, View(m))
    requires Tree(View(m), keep) && IsPage(page) && Missing(View(m), page.parent) <= FreeFrames(m.ledger)
    ensures TablesFill(a, before, View(MapPage(m, page, frame)))
  {
    var b := LinkAll(View(m), page.parent);
    LinkAllFills(a, before, View(m), keep, page.parent);
    LinkAllDescends(View(m), keep, page.parent);
    assert Lookup(b, page.parent).Some? by {
      assert OnWay(page.parent, page.parent);
    }
    LeafKeepsTree(b, keep, page, frame);
    MapPageRefines(m, keep, page, frame);
    SameTablesFill(a, before, b, View(MapPage(m, page, frame)));
  }

  lemma {:induction false} OneMoreFills(
    a: Ledger, before: set<nat>, s: Space, b: Machine, keep: set<nat>, front: seq<Path>, start: nat, page: Path, frame: Frame)
    requires a.Valid() && TablesFill(a, before, View(b))
    requires EachMapped(s, View(b), keep, front, start) && IsPage(page) && NumberOf(page) == start + |front|
    requires Demand(front + [page]) <= FreeFrames(s.ledger)
    ensures b.ledger.Valid() && TablesFill(a, before, View(MapPage(b, page, frame)))
  {
    FramesSufficeForOneMore(s, View(b), keep, front, start, page);
    MapPageFills(a, before, b, keep, page, frame);
  }

  /** The range's last page, mapped in the state `b` that the others left. */
  lemma {:induction false} LastPageFills(
    a: Ledger, before: set<nat>, m: Machine, keep: set<nat>, start: nat, n: nat, b: Machine, front: seq<Path>)
    requires a.Valid() && m.ledger.Valid() && start + n < PAGES_48
    requires b == MapRange(m, start, n) && front == PagesFrom(start, n)
    requires TablesFill(a, before, View(b)) && EachMapped(View(m), View(b), keep, front, start)
    requires Demand(PagesFrom(start, n + 1)) <= FreeFrames(m.ledger)
    ensures TablesFill(a, before, View(MapRange(m, start, n + 1)))
  {
    hide EachMapped, Demand, TablesFill, MapPage, FreeFrames, Tree, PageAt, NumberOf;
    var page := PageAt(start + n);
    assert NumberOf(page) == start + n by {
      PageNumbersArePaths(start + n, page);
    }
    OneMoreFills(a, before, View(m), b, keep, front, start, page, start + n);
    MapRangeUnfolds(m, start, n);
  }

  lemma {:induction false} MapRangeFillsEach(a: Ledger, before: set<nat>, m: Machine, keep: set<nat>, start: nat, n: nat)
    requires a.Valid() && m.ledger.Valid() && TablesFill(a, before, View(m))
    requires Tree(View(m), keep) && start + n <= PAGES_48 && Demand(PagesFrom(start, n)) <= FreeFrames(m.ledger)
    ensures TablesFill(a, before, View(MapRange(m, start, n)))
  {
    hide EachMapped, Demand, TablesFill, MapPage, FreeFrames, Tree, PageAt;
    if n > 0 {
      DemandGrows(PagesFrom(start, n - 1), PageAt(start + n - 1));
      MapRangeFillsEach(a, before, m, keep, start, n - 1);
      MapRangeMapsEach(m, keep, start, n - 1);
      LastPageFills(a, before, m, keep, start, n - 1, MapRange(m, start, n - 1), PagesFrom(start, n - 1));
    }
  }

  /** Mapping a range makes tables of the lowest clear frames, and of nothing else. */
  lemma {:induction false} MapRangeFills(a: Ledger, before: set<nat>, m: Machine, keep: set<nat>, start: nat, n: nat)
    requires a.Valid() && TablesFill(a, before, View(m))
    requires Tree(View(m), keep) && start + n <= PAGES_48 && TablesFor(start, n) <= FreeFrames(m.ledger)
    ensures TablesFill(a, before, View(MapRange(m, start, n)))
  {
    hide TablesFill, MapRange;
    DemandIsTablesFor(start, n);
    MapRangeFillsEach(a, before, m, keep, start, n);
  }
}
