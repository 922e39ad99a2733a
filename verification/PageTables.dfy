/**
 The four-level page tables that kernel/uefi/mem.c builds out of allocator frames,
 on values. Physical memory is one 512-entry table per 52-bit frame number, so every
 address an entry can hold names some table. A path lists up to four table indices;
 it is walked from the root as section 4.5 "4-Level Paging" of the Intel
 SDM volume 3A describes.
 */
module PageTables {
  import opened Words
  import opened PageLedger

  const FRAMES: int := 0x10_0000_0000_0000

  /** The frames an entry can lead the processor to: bits 51:12 of an entry hold 40 bits. */
  const PHYSICAL: int := 0x100_0000_0000

  type Frame = f: int | 0 <= f < 0x10_0000_0000_0000
  type Index = i: int | 0 <= i < 512

  /** A place in the tree of tables: the root table, or an index into the table there. */
  datatype Path = Root | Sub(parent: Path, i: Index)

  function Depth(q: Path): nat {
    if q.Root? then 0 else 1 + Depth(q.parent)
  }

  /** `x` is met on the way from the root to `q`, both ends included. */
  predicate OnWay(x: Path, q: Path) {
    x == q || (q.Sub? && OnWay(x, q.parent))
  }

  predicate IsPage(q: Path) {
    Depth(q) == 4
  }

  datatype PageDirEntry = PageDirEntry(
    present: bool, readWrite: bool, userSuper: bool, writeThrough: bool, cacheDisabled: bool,
    accessed: bool, ignoreZero: bool, largerPages: bool, ignoreOne: bool, available: bv3, address: Frame)
  {
    /** What the builder writes over an entry: the other fields stay. */
    function PointingTo(frame: Frame): PageDirEntry {
      this.(address := frame, present := true, readWrite := true)
    }

    /** The processor goes on through an entry met after `depth` indices: large-page
        entries stop the walk before the fourth level, and so do address bits above the
        40 that name a frame, which the builder fills all the same. */
    predicate Follows(depth: nat) {
      present && (depth >= 4 || !largerPages) && address < PHYSICAL
    }
  }

  const ZERO_ENTRY :=
    PageDirEntry(false, false, false, false, false, false, false, false, false, 0, 0)

  type PageTable = t: seq<PageDirEntry> | |t| == 512 ghost witness seq(512, _ => ZERO_ENTRY)

  function ZeroTable(): PageTable {
    seq(512, _ => ZERO_ENTRY)
  }

  type Ram = r: seq<PageTable> | |r| == 0x10_0000_0000_0000
    ghost witness seq(0x10_0000_0000_0000, _ => ZeroTable())

  datatype Machine = Machine(ledger: Ledger, ram: Ram, root: Frame)

  // ----- the processor's walk -----

  /** The entry `q` selects; all zero if the table that should hold it is not there. */
  ghost function Entry(m: Machine, q: Path): PageDirEntry
    requires q.Sub?
    decreases q, 0
  {
    match Walk(m, q.parent)
    case None => ZERO_ENTRY
    case Some(table) => m.ram[table][q.i]
  }

  /** The frame `q` leads to: a table for up to three indices, a page for four. */
  ghost function Walk(m: Machine, q: Path): Option<Frame>
    decreases q, 1
  {
    if q.Root? then Some(m.root)
    else if Entry(m, q).Follows(Depth(q)) then Some(Entry(m, q).address)
    else None
  }

  /** Where a present entry for `frame` leads. */
  function Reached(frame: Frame): Option<Frame> {
    if frame < PHYSICAL then Some(frame) else None
  }

  // ----- the builder -----

  function SetEntry(ram: Ram, table: Frame, i: Index, e: PageDirEntry): Ram {
    ram[table := ram[table][i := e]]
  }

  /** requestPage followed by the zeroing of the page it returned, frame 0 on failure. */
  function ClaimTable(m: Machine): (Machine, Frame)
    requires m.ledger.Valid()
  {
    var (ledger, page) := Request(m.ledger);
    var frame: Frame := AddressOf(page) / PAGE;
    (m.(ledger := ledger, ram := m.ram[frame := ZeroTable()]), frame)
  }

  /** getNextPageTable. */
  function NextTable(m: Machine, table: Frame, i: Index): (r: (Machine, Frame))
    requires m.ledger.Valid()
    ensures r.0.ledger.Valid() && r.0.root == m.root
  {
    var e := m.ram[table][i];
    if e.present then
      (m, e.address)
    else
      var (claimed, frame) := ClaimTable(m);
      var linked := claimed.ram[table][i].PointingTo(frame);
      (claimed.(ram := SetEntry(claimed.ram, table, i, linked)), frame)
  }

  function SetLeaf(m: Machine, table: Frame, i: Index, frame: Frame): Machine {
    m.(ram := SetEntry(m.ram, table, i, m.ram[table][i].PointingTo(frame)))
  }

  /** The table at `q`, after getNextPageTable was called for each index on the way. */
  function TableFor(m: Machine, q: Path): (r: (Machine, Frame))
    requires m.ledger.Valid()
    ensures r.0.ledger.Valid() && r.0.root == m.root
  {
    if q.Root? then (m, m.root)
    else
      var (n, t) := TableFor(m, q.parent);
      NextTable(n, t, q.i)
  }

  /** pageTableManagerMapMemory. */
  function MapPage(m: Machine, page: Path, frame: Frame): (r: Machine)
    requires m.ledger.Valid() && page.Sub?
    ensures r.ledger.Valid() && r.root == m.root
  {
    var (n, t) := TableFor(m, page.parent);
    SetLeaf(n, t, page.i, frame)
  }

  // ----- the address space, seen as one entry per path -----

  ghost predicate IsEntryPath(q: Path) {
    1 <= Depth(q) <= 4
  }

  /** The same state with the tables forgotten: what entry each path selects. */
  datatype Space = Space(ledger: Ledger, root: Frame, entries: imap<Path, PageDirEntry>)

  ghost function View(m: Machine): Space {
    Space(m.ledger, m.root, imap q: Path | IsEntryPath(q) :: Entry(m, q))
  }

  ghost predicate Total(a: Space) {
    a.ledger.Valid() && forall q: Path :: q in a.entries <==> IsEntryPath(q)
  }

  /** Walk, read off the entries. */
  ghost function Lookup(a: Space, q: Path): Option<Frame>
    requires Total(a) && Depth(q) <= 4
  {
    if q.Root? then Some(a.root)
    else if a.entries[q].Follows(Depth(q)) then Some(a.entries[q].address)
    else None
  }

  lemma {:induction false} WalkIsLookup(m: Machine, q: Path)
    requires m.ledger.Valid() && Depth(q) <= 4
    ensures Total(View(m)) && Walk(m, q) == Lookup(View(m), q)
  {
    assert q.Sub? ==> IsEntryPath(q);
  }

  ghost function SetView(a: Space, q: Path, frame: Frame): (b: Space)
    requires Total(a) && IsEntryPath(q)
    ensures Total(b)
  {
    a.(entries := a.entries[q := a.entries[q].PointingTo(frame)])
  }

  /** getNextPageTable on a space: link a granted frame at `q` unless one is there. */
  ghost function Link(a: Space, q: Path): (b: Space)
    requires Total(a) && IsEntryPath(q)
    ensures Total(b) && b.root == a.root
  {
    if a.entries[q].present then a
    else
      var (ledger, page) := Request(a.ledger);
      SetView(a, q, AddressOf(page) / PAGE).(ledger := ledger)
  }

  /** All tables on the way to `q`, `q` included. */
  ghost function LinkAll(a: Space, q: Path): (b: Space)
    requires Total(a) && Depth(q) <= 4
    ensures Total(b) && b.root == a.root
  {
    if q.Root? then a else Link(LinkAll(a, q.parent), q)
  }

  /** pageTableManagerMapMemory on a space. */
  ghost function MapSpace(a: Space, page: Path, frame: Frame): (b: Space)
    requires Total(a) && IsPage(page)
    ensures Total(b)
  {
    SetView(LinkAll(a, page.parent), page, frame)
  }

  // ----- the invariant -----

  /** A table entry the builder can have made: followed whenever it is present. */
  predicate LeadsOn(e: PageDirEntry) {
    !e.largerPages && (e.present ==> e.address < PHYSICAL)
  }

  ghost predicate TableAt(a: Space, q: Path, table: Frame)
    requires Total(a)
  {
    Depth(q) <= 3 && Lookup(a, q) == Some(table)
  }

  /** The tables reachable from the root form a tree of marked frames, none of them in
      `keep` (frames that belong to someone else, such as the bitmap's own), and the
      bitmap counts no frame that an entry could not name. */
  ghost predicate Tree(a: Space, keep: set<nat>) {
    && Total(a) && a.ledger.Pages() <= PHYSICAL
    && (forall p: Path, t: Frame :: TableAt(a, p, t) ==> t < a.ledger.Pages() && a.ledger.bits[t] && t !in keep)
    && (forall p: Path, q: Path, t: Frame :: TableAt(a, p, t) && TableAt(a, q, t) ==> p == q)
    && (forall q: Path {:trigger a.entries[q]} :: 1 <= Depth(q) <= 3 ==> LeadsOn(a.entries[q]))
    && (forall k :: k in keep && k < a.ledger.Pages() ==> a.ledger.bits[k])
  }

  /** Replacing one entry by one that points to `h` redirects that path alone. */
  lemma {:induction false} LookupAfterSet(a: Space, q: Path, h: Frame, x: Path)
    requires Total(a) && IsEntryPath(q) && Depth(x) <= 4
    requires Depth(q) == 4 || !a.entries[q].largerPages
    ensures Lookup(SetView(a, q, h), x) == if x == q then Reached(h) else Lookup(a, x)
  {
    if x.Sub? && x != q {
      assert SetView(a, q, h).entries[x] == a.entries[x];
    }
  }

  /** The tables after an unused frame was hung under a missing path: one more. */
  ghost predicate Hung(a: Space, b: Space, q: Path, h: Frame)
    requires Total(a) && Total(b)
  {
    && Depth(q) <= 3 && Lookup(a, q).None? && a.ledger.IsClear(h)
    && b.ledger.bits == a.ledger.bits[h := true]
    && forall x: Path {:trigger Lookup(a, x)} {:trigger Lookup(b, x)} :: Depth(x) <= 4 ==> Lookup(b, x) == if x == q then Some(h) else Lookup(a, x)
  }

  lemma {:induction false} HungTables(a: Space, b: Space, keep: set<nat>, q: Path, h: Frame)
    requires Tree(a, keep) && Total(b) && Hung(a, b, q, h)
    ensures h !in keep && forall x: Path :: !TableAt(a, x, h)
    ensures forall x: Path, t: Frame :: TableAt(b, x, t) <==> TableAt(a, x, t) || (x == q && t == h)
  {
  }

  lemma {:induction false} TreeAfterLink(a: Space, b: Space, keep: set<nat>, q: Path, h: Frame)
    requires Tree(a, keep) && Total(b) && q.Sub? && Hung(a, b, q, h) && Lookup(a, q.parent).Some?
    requires b.entries == SetView(a, q, h).entries
    ensures Tree(b, keep)
  {
    HungTables(a, b, keep, q, h);
    assert forall x: Path :: 1 <= Depth(x) <= 3 ==> LeadsOn(b.entries[x]) by {
      assert forall x: Path :: IsEntryPath(x) && x != q ==> b.entries[x] == a.entries[x];
    }
  }

  /** Linking keeps the tree as long as a frame is there when one is needed. */
  lemma {:induction false} LinkKeepsTree(a: Space, keep: set<nat>, q: Path)
    requires Tree(a, keep) && 1 <= Depth(q) <= 3 && Lookup(a, q.parent).Some?
    requires Lookup(a, q).None? ==> FreeFrames(a.ledger) > 0
    ensures var b := Link(a, q);
            && Tree(b, keep)
            && (Lookup(a, q).Some? ==> b == a)
            && (Lookup(a, q).None? ==>
                  && b.ledger == Request(a.ledger).0 && Request(a.ledger).1.Some?
                  && Hung(a, b, q, Request(a.ledger).1.value))
  {
    assert LeadsOn(a.entries[q]);
    if Lookup(a, q).None? {
      RequestTakesOneFrame(a.ledger);
      RequestGrantsLowestClear(a.ledger);
      var h: Frame := Request(a.ledger).1.value;
      assert AddressOf(Some(h)) / PAGE == h;
      forall x: Path | Depth(x) <= 4
        ensures Lookup(Link(a, q), x) == if x == q then Some(h) else Lookup(a, x)
      {
        LookupAfterSet(a, q, h, x);
      }
      TreeAfterLink(a, Link(a, q), keep, q, h);
    }
  }

  // ----- mapping one page -----

  /** How many of the tables on the way to `q` do not exist yet. */
  ghost function Missing(a: Space, q: Path): nat
    requires Total(a) && Depth(q) <= 4
  {
    if q.Root? then 0 else Missing(a, q.parent) + if Lookup(a, q).None? then 1 else 0
  }

  /** From a to b the tables on the way to `q` were made to exist; no other walk and no
      page entry changed. */
  ghost predicate Descended(a: Space, b: Space, q: Path)
    requires Total(a) && Total(b) && Depth(q) <= 3
  {
    && (forall x: Path {:trigger Lookup(a, x)} {:trigger Lookup(b, x)} ::
          Depth(x) <= 4 && (Lookup(a, x).Some? || !OnWay(x, q)) ==> Lookup(b, x) == Lookup(a, x))
    && (forall x: Path {:trigger OnWay(x, q)} {:trigger Lookup(b, x)} :: Depth(x) <= 4 && OnWay(x, q) ==> Lookup(b, x).Some?)
    && (forall x: Path :: IsPage(x) ==> b.entries[x] == a.entries[x])
  }

  /** b's new tables are frames that were free in a, `n` of them. */
  ghost predicate TookFrames(a: Space, b: Space, n: int)
    requires Total(a) && Total(b)
  {
    && (forall x: Path, t: Frame :: TableAt(b, x, t) ==> TableAt(a, x, t) || a.ledger.IsClear(t))
    && |b.ledger.bits| == |a.ledger.bits|
    && (forall f: nat :: b.ledger.IsClear(f) ==> a.ledger.IsClear(f))
    && FreeFrames(b.ledger) == FreeFrames(a.ledger) - n
  }

  lemma {:induction false} OnWayIsNoDeeper(x: Path, q: Path)
    requires OnWay(x, q)
    ensures Depth(x) <= Depth(q)
    ensures Depth(x) == Depth(q) ==> x == q
  {
    if x != q {
      OnWayIsNoDeeper(x, q.parent);
    }
  }

  lemma {:induction false} HungTakesOneFrame(a: Space, b: Space, c: Space, keep: set<nat>, q: Path, n: int)
    requires Total(a) && Tree(b, keep) && Total(c) && TookFrames(a, b, n)
    requires Request(b.ledger).1.Some? && c.ledger == Request(b.ledger).0
    requires Hung(b, c, q, Request(b.ledger).1.value)
    ensures TookFrames(a, c, n + 1)
  {
    RequestGrantsLowestClear(b.ledger);
    RequestTakesOneFrame(b.ledger);
    HungTables(b, c, keep, q, Request(b.ledger).1.value);
  }

  lemma {:induction false} HungDescends(a: Space, b: Space, c: Space, q: Path, h: Frame)
    requires Total(a) && Total(b) && Total(c) && 1 <= Depth(q) <= 3
    requires Descended(a, b, q.parent) && Lookup(a, q).None? && Hung(b, c, q, h)
    requires c.entries == SetView(b, q, h).entries
    ensures Descended(a, c, q)
  {
    assert OnWay(q, q);
    assert forall x: Path :: OnWay(x, q) <==> x == q || OnWay(x, q.parent);
  }

  lemma {:induction false} LinkAllDescends(a: Space, keep: set<nat>, q: Path)
    requires Tree(a, keep) && Depth(q) <= 3 && Missing(a, q) <= FreeFrames(a.ledger)
    ensures var b := LinkAll(a, q);
            Tree(b, keep) && Descended(a, b, q) && TookFrames(a, b, Missing(a, q))
  {
    if q.Sub? {
      var b, c := LinkAll(a, q.parent), LinkAll(a, q);
      LinkAllDescends(a, keep, q.parent);
      assert Lookup(b, q) == Lookup(a, q) && Lookup(b, q.parent).Some? by {
        if OnWay(q, q.parent) { OnWayIsNoDeeper(q, q.parent); }
        assert OnWay(q.parent, q.parent);
      }
      LinkKeepsTree(b, keep, q);
      if Lookup(a, q).None? {
        HungTakesOneFrame(a, b, c, keep, q, Missing(a, q.parent));
        HungDescends(a, b, c, q, Request(b.ledger).1.value);
      } else {
        assert forall x: Path :: OnWay(x, q) <==> x == q || OnWay(x, q.parent);
      }
    }
  }

  /** Every present entry lets writes through. */
  ghost predicate AllWritable(a: Space)
    requires Total(a)
  {
    forall q: Path {:trigger a.entries[q]} :: IsEntryPath(q) && a.entries[q].present ==> a.entries[q].readWrite
  }

  lemma {:induction false} LinkAllKeepsWritable(a: Space, q: Path)
    requires Total(a) && Depth(q) <= 4 && AllWritable(a)
    ensures AllWritable(LinkAll(a, q))
  {
    if q.Sub? {
      LinkAllKeepsWritable(a, q.parent);
    }
  }

  /** What mapping promises for the whole tree: the page's entry points to `frame` and
      keeps its other fields, every other page's entry is what it was, tables are only
      added, and only on the way to the page, and what lets writes through still does. */
  ghost predicate Maps(a: Space, b: Space, page: Path, frame: Frame)
    requires Total(a) && Total(b) && IsPage(page)
  {
    && b.entries[page] == a.entries[page].PointingTo(frame)
    && (forall x: Path :: IsPage(x) && x != page ==> b.entries[x] == a.entries[x])
    && (forall x: Path {:trigger Lookup(a, x)} {:trigger Lookup(b, x)} {:trigger OnWay(x, page)} ::
          Depth(x) <= 3 ==> (Lookup(b, x).Some? <==> Lookup(a, x).Some? || OnWay(x, page)))
    && (forall x: Path {:trigger Lookup(a, x)} {:trigger Lookup(b, x)} :: Depth(x) <= 3 && Lookup(a, x).Some? ==> Lookup(b, x) == Lookup(a, x))
    && (AllWritable(a) ==> AllWritable(b))
  }

  lemma {:induction false} LeafKeepsTree(b: Space, keep: set<nat>, page: Path, frame: Frame)
    requires Tree(b, keep) && IsPage(page) && Lookup(b, page.parent).Some?
    ensures var c := SetView(b, page, frame);
            && Tree(c, keep)
            && forall x: Path :: Depth(x) <= 3 ==> Lookup(c, x) == Lookup(b, x)
  {
    var c := SetView(b, page, frame);
    forall x: Path | Depth(x) <= 3
      ensures Lookup(c, x) == Lookup(b, x)
    {
      LookupAfterSet(b, page, frame, x);
    }
    assert forall x: Path, t: Frame :: TableAt(c, x, t) <==> TableAt(b, x, t);
  }

  lemma {:induction false} LeafMaps(a: Space, b: Space, page: Path, frame: Frame)
    requires Total(a) && Total(b) && IsPage(page) && Descended(a, b, page.parent)
    requires forall x: Path :: Depth(x) <= 3 ==> Lookup(SetView(b, page, frame), x) == Lookup(b, x)
    requires AllWritable(a) ==> AllWritable(b)
    ensures Maps(a, SetView(b, page, frame), page, frame)
  {
    assert forall x: Path :: OnWay(x, page) <==> x == page || OnWay(x, page.parent);
  }

  /** Given the frames for the missing tables, mapping does what it promises and takes
      exactly those frames. */
  lemma {:induction false} MapSpaceMaps(a: Space, keep: set<nat>, page: Path, frame: Frame)
    requires Tree(a, keep) && IsPage(page) && Missing(a, page.parent) <= FreeFrames(a.ledger)
    ensures var b := MapSpace(a, page, frame);
            && Tree(b, keep) && Maps(a, b, page, frame) && b.root == a.root
            && TookFrames(a, b, Missing(a, page.parent))
  {
    var b := LinkAll(a, page.parent);
    LinkAllDescends(a, keep, page.parent);
    assert Lookup(b, page.parent).Some? by {
      assert OnWay(page.parent, page.parent);
    }
    LeafKeepsTree(b, keep, page, frame);
    if AllWritable(a) {
      LinkAllKeepsWritable(a, page.parent);
    }
    LeafMaps(a, b, page, frame);
  }

  // ----- the tables in memory refine the space -----

  /** `t` holds the entry at `q`, and only that entry of that table may change. */
  ghost predicate Stores(m: Machine, n: Machine, q: Path, t: Frame) {
    && q.Sub? && Depth(q) <= 4 && Walk(m, q.parent) == Some(t) && n.root == m.root
    && (forall x: Path, y: Frame :: Depth(x) <= 3 && Walk(m, x) == Some(y) && y != t ==> n.ram[y] == m.ram[y])
    && (forall j: Index :: j != q.i ==> n.ram[t][j] == m.ram[t][j])
  }

  /** A store changes the one entry, provided a table newly reached by it is blank. */
  lemma {:induction false} StoreChangesOneEntry(m: Machine, n: Machine, keep: set<nat>, q: Path, t: Frame, x: Path)
    requires Tree(View(m), keep) && Stores(m, n, q, t) && IsEntryPath(x)
    requires Depth(q) == 4 || (!m.ram[t][q.i].present && n.ram[n.ram[t][q.i].address] == ZeroTable())
    ensures Entry(n, x) == if x == q then n.ram[t][q.i] else Entry(m, x)
  {
    var p := x.parent;
    if p.Sub? {
      StoreChangesOneEntry(m, n, keep, q, t, p);
    }
    if p == q {
      assert Entry(m, q) == m.ram[t][q.i] && Walk(m, q) == None;
      assert Entry(m, x) == ZERO_ENTRY;
    } else if Walk(m, p).Some? && Walk(m, p).value == t {
      WalkIsLookup(m, p);
      WalkIsLookup(m, q.parent);
      assert TableAt(View(m), p, t) && TableAt(View(m), q.parent, t);
    }
  }

  lemma {:induction false} ViewAfterStore(m: Machine, n: Machine, keep: set<nat>, q: Path, t: Frame, h: Frame)
    requires Tree(View(m), keep) && Stores(m, n, q, t) && n.ledger.Valid()
    requires n.ram[t][q.i] == m.ram[t][q.i].PointingTo(h)
    requires Depth(q) == 4 || (!m.ram[t][q.i].present && n.ram[h] == ZeroTable())
    ensures Total(View(m)) && IsEntryPath(q) && View(n).entries == SetView(View(m), q, h).entries
  {
    forall x: Path | IsEntryPath(x)
      ensures View(n).entries[x] == SetView(View(m), q, h).entries[x]
    {
      StoreChangesOneEntry(m, n, keep, q, t, x);
    }
  }

  lemma {:induction false} NextTableRefinesLink(m: Machine, keep: set<nat>, q: Path, t: Frame)
    requires Tree(View(m), keep) && 1 <= Depth(q) <= 3 && Walk(m, q.parent) == Some(t)
    requires Lookup(View(m), q).None? ==> FreeFrames(m.ledger) > 0
    ensures var (n, h) := NextTable(m, t, q.i);
            View(n) == Link(View(m), q) && Walk(n, q) == Some(h)
  {
    var (n, h) := NextTable(m, t, q.i);
    WalkIsLookup(m, q.parent);
    LinkKeepsTree(View(m), keep, q);
    assert IsEntryPath(q) && Entry(m, q) == m.ram[t][q.i] == View(m).entries[q];
    if !m.ram[t][q.i].present {
      RequestTakesOneFrame(m.ledger);
      RequestGrantsLowestClear(m.ledger);
      assert h == Request(m.ledger).1.value;
      forall x: Path, y: Frame | Depth(x) <= 3 && Walk(m, x) == Some(y)
        ensures y != h
      {
        WalkIsLookup(m, x);
        assert TableAt(View(m), x, y);
      }
      ViewAfterStore(m, n, keep, q, t, h);
    }
    WalkIsLookup(n, q);
  }

  lemma {:induction false} TableForRefines(m: Machine, keep: set<nat>, q: Path)
    requires Tree(View(m), keep) && Depth(q) <= 3 && Missing(View(m), q) <= FreeFrames(m.ledger)
    ensures var (n, t) := TableFor(m, q);
            View(n) == LinkAll(View(m), q) && Walk(n, q) == Some(t)
  {
    if q.Sub? {
      var (n, t) := TableFor(m, q.parent);
      TableForRefines(m, keep, q.parent);
      LinkAllDescends(View(m), keep, q.parent);
      assert Lookup(View(n), q) == Lookup(View(m), q) by {
        if OnWay(q, q.parent) { OnWayIsNoDeeper(q, q.parent); }
      }
      NextTableRefinesLink(n, keep, q, t);
    }
  }

  /** pageTableManagerMapMemory refines mapping in the space. */
  lemma {:induction false} MapPageRefines(m: Machine, keep: set<nat>, page: Path, frame: Frame)
    requires Tree(View(m), keep) && IsPage(page) && Missing(View(m), page.parent) <= FreeFrames(m.ledger)
    ensures View(MapPage(m, page, frame)) == MapSpace(View(m), page, frame)
  {
    var (n, t) := TableFor(m, page.parent);
    TableForRefines(m, keep, page.parent);
    LinkAllDescends(View(m), keep, page.parent);
    ViewAfterStore(n, SetLeaf(n, t, page.i, frame), keep, page, t, frame);
  }

  /** The main result on one call: if the free frames suffice for the missing tables,
      the four-level walk of the page then leads to `frame` (if an entry can name it),
      the walk of every other page is what it was, and the tables still form a tree of
      marked, unshared frames. */
  lemma {:induction false} MapPageTranslates(m: Machine, keep: set<nat>, page: Path, frame: Frame)
    requires Tree(View(m), keep) && IsPage(page) && Missing(View(m), page.parent) <= FreeFrames(m.ledger)
    ensures var n := MapPage(m, page, frame);
            && Tree(View(n), keep) && Maps(View(m), View(n), page, frame)
            && TookFrames(View(m), View(n), Missing(View(m), page.parent))
            && Walk(n, page) == Reached(frame)
            && forall x: Path :: IsPage(x) && x != page ==> Walk(n, x) == Walk(m, x)
  {
    var n := MapPage(m, page, frame);
    MapPageRefines(m, keep, page, frame);
    MapSpaceMaps(View(m), keep, page, frame);
    forall x: Path | IsPage(x)
      ensures Walk(n, x) == if x == page then Reached(frame) else Walk(m, x)
    {
      WalkIsLookup(m, x);
      WalkIsLookup(n, x);
    }
  }
}
