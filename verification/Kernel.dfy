/**
 The page-table builder of kernel/uefi/mem.c as it runs, writing through physical
 memory, and the part of kmain (kernel/uefi/kernel.c) that sets up paging.
 */
module Kernel {
  import opened Words
  import opened PageLedger
  import opened PageAllocator
  import opened PageTables
  import opened PagingRuns
  import opened IdentityMap
  import opened TableFrames

  /** How often a loop from `from` while below `to` turns, a page at a time, as long as
      its counter does not wrap; and that it does not, which is when the loop ends. */
  function LoopPages(from: U64, to: U64): nat {
    if from < to then CeilDiv(to - from, PAGE) else 0
  }

  predicate LoopEnds(from: U64, to: U64) {
    from + LoopPages(from, to) * PAGE < TWO_64
  }

  /** The counter is below `to` for exactly that many turns. */
  lemma {:induction false} LoopTurns(from: U64, to: U64, n: nat)
    ensures from + n * PAGE < to <==> n < LoopPages(from, to)
  {
  }

  /** initPageMapIndexer: nine bits per level, from the page offset up. */
  method InitPageMapIndexer(virtualAddress: U64) returns (pdpI: Index, pdI: Index, ptI: Index, pI: Index)
    ensures Sub(Sub(Sub(Sub(Root, pdpI), pdI), ptI), pI) == PageAt(virtualAddress / PAGE)
  {
    var v := virtualAddress / PAGE;
    pI := v % 512;
    v := v / 512;
    ptI := v % 512;
    v := v / 512;
    pdI := v % 512;
    v := v / 512;
    pdpI := v % 512;
    DigitsSpellPath(virtualAddress / PAGE);
  }

  class PageTableManager {
    const mem: MemDesc
    /** All of physical memory, a table's worth per frame. */
    const ram: array<PageTable>
    var pml4: Frame
    /** The values of the allocator, of memory and of the root, kept up to date. */
    ghost var state: Machine

    ghost predicate Valid()
      reads this, mem, mem.bitmap, mem.bitmap.buffer, ram
    {
      && mem.Valid() && mem.initialized
      && ram.Length == FRAMES && ram as object != mem.bitmap.buffer
      && state.ledger == mem.Contents() && state.ram == ram[..] && state.root == pml4
    }

    /** initPageTableManager. */
    constructor (mem: MemDesc, ram: array<PageTable>, pml4: Frame)
      requires mem.Valid() && mem.initialized
      requires ram.Length == FRAMES && ram as object != mem.bitmap.buffer
      ensures Valid() && this.mem == mem && this.ram == ram
      ensures state == Machine(mem.Contents(), ram[..], pml4)
    {
      this.mem, this.ram, this.pml4 := mem, ram, pml4;
      this.state := Machine(mem.Contents(), ram[..], pml4);
    }

    /** lockPages on the allocator behind the tables. */
    method LockPages(addr: U64, n: nat)
      requires Valid()
      modifies this`state, mem`free, mem`used, mem.bitmap.buffer
      ensures Valid()
      ensures state == old(state).(ledger := ApplyRange(old(state).ledger, Lock, addr, n))
    {
      mem.LockPages(addr, n);
      state := state.(ledger := mem.Contents());
    }

    /** getNextPageTable for entry i of the table in frame `table`. */
    method GetNextPageTable(table: Frame, i: Index) returns (next: Frame)
      requires Valid()
      modifies this`state, mem`free, mem`used, mem.bitmap.buffer, ram
      ensures Valid()
      ensures (state, next) == NextTable(old(state), table, i)
    {
      if ram[table][i].present {
        return ram[table][i].address;
      }
      var addr := mem.RequestPage();
      next := addr / PAGE;
      ram[next] := ZeroTable();
      assert ram[..] == state.ram[next := ZeroTable()];
      ram[table] := ram[table][i := ram[table][i].PointingTo(next)];
      state := NextTable(state, table, i).0;
      assert ram[..] == state.ram;
    }

    /** pageTableManagerMapMemory. */
    method MapMemory(virtMem: U64, physMem: U64)
      requires Valid()
      modifies this`state, mem`free, mem`used, mem.bitmap.buffer, ram
      ensures Valid()
      ensures state == MapPage(old(state), PageAt(virtMem / PAGE), physMem / PAGE)
    {
      hide NextTable, PageAt;
      ghost var m := state;
      var pdpI, pdI, ptI, pI := InitPageMapIndexer(virtMem);
      ghost var p1 := Sub(Root, pdpI);
      ghost var p2 := Sub(p1, pdI);
      ghost var p3 := Sub(p2, ptI);
      var pdp := GetNextPageTable(pml4, pdpI);
      assert (state, pdp) == TableFor(m, p1);
      var pd := GetNextPageTable(pdp, pdI);
      assert (state, pd) == TableFor(m, p2);
      var pt := GetNextPageTable(pd, ptI);
      assert (state, pt) == TableFor(m, p3);
      ram[pt] := ram[pt][pI := ram[pt][pI].PointingTo(physMem / PAGE)];
      state := SetLeaf(state, pt, pI, physMem / PAGE);
      assert ram[..] == state.ram;
    }

    /** The body of kmain's loops, at the n-th page of a range that starts in page `first`. */
    method MapToItself(t: U64, ghost m: Machine, ghost first: nat, ghost n: nat)
      requires Valid() && m.ledger.Valid() && (first + n) * PAGE <= t < (first + n + 1) * PAGE
      requires first + n <= FRAMES && Same(state, MapRange(m, first, n))
      modifies this`state, mem`free, mem`used, mem.bitmap.buffer, ram
      ensures Valid() && first + n < FRAMES && Same(state, MapRange(m, first, n + 1))
    {
      hide MapPage, MapRange;
      assert t / PAGE == first + n;
      MapMemory(t, t);
      MapRangeUnfolds(m, first, n);
    }

    /** One of kmain's loops: map [from, to) to itself, a page at a time. */
    method MapIdentity(from: U64, to: U64, ghost first: nat)
      requires Valid() && LoopEnds(from, to) && first * PAGE <= from < (first + 1) * PAGE
      modifies this`state, mem`free, mem`used, mem.bitmap.buffer, ram
      ensures Valid() && first + LoopPages(from, to) <= FRAMES
      ensures Same(state, MapRange(old(state), first, LoopPages(from, to)))
    {
      hide MapPage, LoopPages;
      ghost var n, all := 0, LoopPages(from, to);
      var t := from;
      LoopTurns(from, to, 0);
      while t < to
        invariant Valid() && n <= all && t == from + n * PAGE && first + n <= FRAMES
        invariant Same(state, MapRange(old(state), first, n))
        decreases all - n
      {
        LoopTurns(from, to, n);
        MapToItself(t, old(state), first, n);
        t, n := Wrap(t + PAGE), n + 1;
      }
      LoopTurns(from, to, n);
    }
  }

  // ----- kmain -----

  /** A fresh, zeroed PML4 out of the allocator. */
  function NewRoot(a: Ledger, ram: Ram): (m: Machine)
    requires a.Valid()
    ensures m.ledger.Valid()
  {
    var (claimed, frame) := ClaimTable(Machine(a, ram, 0));
    claimed.(root := frame)
  }

  /** kmain's memory loop: every page below the memory size, mapped to itself. */
  ghost function MemoryMapped(m: Machine, memSize: U64): (r: Machine)
    requires m.ledger.Valid() && memSize + PAGE <= TWO_64
    ensures r.ledger.Valid()
  {
    MapRange(m, 0, CeilDiv(memSize, PAGE))
  }

  /** The number of pages the framebuffer loop maps; its bound is a wrapping sum. */
  function FramebufferPages(fbBase: U64, fbSize: U64): nat {
    LoopPages(fbBase, Wrap(fbBase + fbSize))
  }

  predicate FramebufferLoopEnds(fbBase: U64, fbSize: U64): (ends: bool)
    ensures ends ==> fbBase / PAGE + FramebufferPages(fbBase, fbSize) <= FRAMES
  {
    LoopEnds(fbBase, Wrap(fbBase + fbSize))
  }

  /** kmain's framebuffer step: its pages are locked, then mapped to themselves. */
  ghost function FramebufferMapped(m: Machine, fbBase: U64, fbSize: U64): (r: Machine)
    requires m.ledger.Valid() && FramebufferLoopEnds(fbBase, fbSize)
    ensures r.ledger.Valid()
  {
    RangeKeepsLength(m.ledger, Lock, fbBase, fbSize / PAGE + 1);
    MapRange(m.(ledger := ApplyRange(m.ledger, Lock, fbBase, fbSize / PAGE + 1)), fbBase / PAGE, FramebufferPages(fbBase, fbSize))
  }

  /** The machine when kmain loads cr3, from the ledger and memory it set paging up with. */
  ghost function Booted(a: Ledger, ram: Ram, memSize: U64, fbBase: U64, fbSize: U64): (r: Machine)
    requires a.Valid() && memSize + PAGE <= TWO_64 && FramebufferLoopEnds(fbBase, fbSize)
    ensures r.ledger.Valid()
  {
    FramebufferMapped(MemoryMapped(NewRoot(a, ram), memSize), fbBase, fbSize)
  }

  lemma {:induction false} EmptyRootHasNoWalks(m: Machine, q: Path)
    requires m.ram[m.root] == ZeroTable() && q.Sub?
    ensures Walk(m, q) == None && Entry(m, q) == ZERO_ENTRY
  {
    if q.parent.Sub? {
      EmptyRootHasNoWalks(m, q.parent);
    } else {
      assert Walk(m, q.parent) == Some(m.root) && m.ram[m.root][q.i] == ZERO_ENTRY;
    }
    assert Entry(m, q) == ZERO_ENTRY && !ZERO_ENTRY.present;
  }

  /** A granted, zeroed root is a tree of one table that translates nothing. */
  lemma {:induction false} NewRootIsEmptyTree(a: Ledger, ram: Ram, keep: set<nat>)
    requires a.Valid() && a.Pages() <= PHYSICAL && FreeFrames(a) > 0
    requires forall k :: k in keep && k < a.Pages() ==> a.bits[k]
    ensures var m := NewRoot(a, ram);
            && Tree(View(m), keep) && NoTables(View(m)) && AllWritable(View(m))
            && FreeFrames(m.ledger) == FreeFrames(a) - 1
            && forall q: Path :: IsPage(q) ==> Walk(m, q) == None
  {
    var m := NewRoot(a, ram);
    RequestTakesOneFrame(a);
    RequestGrantsLowestClear(a);
    assert m.root == Request(a).1.value;
    forall q: Path | IsEntryPath(q)
      ensures View(m).entries[q] == ZERO_ENTRY && Walk(m, q) == None
    {
      EmptyRootHasNoWalks(m, q);
    }
    assert forall q: Path, t: Frame :: TableAt(View(m), q, t) <==> q == Root && t == m.root;
  }

  lemma {:induction false} LockTakesAtMost(a: Ledger, addr: U64, n: nat)
    requires a.Valid()
    ensures var b := ApplyRange(a, Lock, addr, n);
            b.Valid() && FreeFrames(b) >= FreeFrames(a) - n
  {
    RangeKeepsLength(a, Lock, addr, n);
    if n > 0 {
      LockTakesAtMost(a, addr, n - 1);
      RangeKeepsLength(a, Lock, addr, n - 1);
      var b, c, p := ApplyRange(a, Lock, addr, n - 1), ApplyRange(a, Lock, addr, n), PageOf(addr, n - 1);
      if c != b {
        if p < b.Pages() {
          assert c.bits[..c.Pages()] == b.bits[..b.Pages()][p := true];
          MarkedAfterUpdate(b.bits[..b.Pages()], p, true);
        } else {
          assert c.bits[..c.Pages()] == b.bits[..b.Pages()];
        }
      }
    }
  }

  lemma {:induction false} LockingKeepsTree(m: Machine, keep: set<nat>, addr: U64, n: nat)
    requires Tree(View(m), keep)
    ensures var r := m.(ledger := ApplyRange(m.ledger, Lock, addr, n));
            && r.ledger.Valid() && Tree(View(r), keep)
            && FreeFrames(r.ledger) >= FreeFrames(m.ledger) - n
            && (forall q: Path :: Walk(r, q) == Walk(m, q)) && View(r).entries == View(m).entries
  {
    var e := OnRange(Lock, addr, n);
    LockTakesAtMost(m.ledger, addr, n);
    assert m.(ledger := ApplyRange(m.ledger, Lock, addr, n)) == StepMachine(m, Memory(e));
    LedgerStepKeepsTree(m, keep, e);
  }

  /** Frames that make kmain's mapping certain to succeed. */
  function BootFrames(memSize: U64, fbBase: U64, fbSize: U64): int {
    1 + TablesFor(0, CeilDiv(memSize, PAGE)) + (fbSize / PAGE + 1) + TablesFor(fbBase / PAGE, FramebufferPages(fbBase, fbSize))
  }

  lemma {:induction false} MemoryLoopWalks(a: Ledger, ram: Ram, keep: set<nat>, memSize: U64, m2: Machine)
    requires a.Valid() && a.Pages() <= PHYSICAL && memSize <= PAGES_48 * PAGE
    requires forall k :: k in keep && k < a.Pages() ==> a.bits[k]
    requires 1 + TablesFor(0, CeilDiv(memSize, PAGE)) <= FreeFrames(a)
    requires m2 == MemoryMapped(NewRoot(a, ram), memSize)
    ensures Tree(View(m2), keep)
    ensures forall q: Path :: IsPage(q) ==> Walk(m2, q) == if NumberOf(q) < CeilDiv(memSize, PAGE) then Some(NumberOf(q)) else None
    ensures FreeFrames(m2.ledger) == FreeFrames(a) - 1 - TablesFor(0, CeilDiv(memSize, PAGE))
    ensures AllWritable(View(m2))
  {
    TablesForFromZero(CeilDiv(memSize, PAGE));
    NewRootIsEmptyTree(a, ram, keep);
    MapRangeTranslates(NewRoot(a, ram), keep, 0, CeilDiv(memSize, PAGE));
  }

  /** After the memory loop, exactly the pages below the memory size translate, each to
      itself, and the tables took one frame for the root and one per block of pages. */
  lemma {:induction false} MemoryLoopMapsIdentity(a: Ledger, ram: Ram, keep: set<nat>, memSize: U64, m2: Machine)
    requires a.Valid() && a.Pages() <= PHYSICAL && memSize <= PAGES_47 * PAGE
    requires forall k :: k in keep && k < a.Pages() ==> a.bits[k]
    requires 1 + TablesFor(0, CeilDiv(memSize, PAGE)) <= FreeFrames(a)
    requires m2 == MemoryMapped(NewRoot(a, ram), memSize)
    ensures Tree(View(m2), keep)
    ensures forall v: nat :: Translate(m2, v) == if v < CeilDiv(memSize, PAGE) then Some(v) else None
    ensures var n := CeilDiv(memSize, PAGE);
            FreeFrames(m2.ledger) == FreeFrames(a) - 1 - CeilDiv(n, 512) - CeilDiv(n, 262144) - CeilDiv(n, 134217728)
  {
    TablesForFromZero(CeilDiv(memSize, PAGE));
    MemoryLoopWalks(a, ram, keep, memSize, m2);
    forall v: nat
      ensures Translate(m2, v) == if v < CeilDiv(memSize, PAGE) then Some(v) else None
    {
      TranslatesAsWalked(m2, CeilDiv(memSize, PAGE), 0, 0, v);
    }
  }

  lemma {:induction false} FramebufferLoopWalks(keep: set<nat>, fbBase: U64, fbSize: U64, m2: Machine, m4: Machine)
    requires Tree(View(m2), keep) && FramebufferLoopEnds(fbBase, fbSize)
    requires fbBase / PAGE + FramebufferPages(fbBase, fbSize) <= PAGES_48
    requires fbSize / PAGE + 1 + TablesFor(fbBase / PAGE, FramebufferPages(fbBase, fbSize)) <= FreeFrames(m2.ledger)
    requires m4 == FramebufferMapped(m2, fbBase, fbSize)
    ensures Tree(View(m4), keep)
    ensures forall q: Path :: IsPage(q) ==>
              Walk(m4, q) == if fbBase / PAGE <= NumberOf(q) < fbBase / PAGE + FramebufferPages(fbBase, fbSize)
                             then Some(NumberOf(q)) else Walk(m2, q)
    ensures AllWritable(View(m2)) ==> AllWritable(View(m4))
  {
    var m3 := m2.(ledger := ApplyRange(m2.ledger, Lock, fbBase, fbSize / PAGE + 1));
    LockingKeepsTree(m2, keep, fbBase, fbSize / PAGE + 1);
    MapRangeTranslates(m3, keep, fbBase / PAGE, FramebufferPages(fbBase, fbSize));
  }

  /** The page numbers kmain maps: memory's and the framebuffer's. */
  predicate InBootRange(v: nat, memSize: U64, fbBase: U64, fbSize: U64) {
    v < CeilDiv(memSize, PAGE) || fbBase / PAGE <= v < fbBase / PAGE + FramebufferPages(fbBase, fbSize)
  }

  lemma {:induction false} TablesForIsNonNegative(start: nat, n: nat)
    ensures TablesFor(start, n) >= 0
  {
    TablesForGrows(start, n);
  }

  /** When kmain loads cr3, with enough free frames to start with and all of it below
      2^47: every page of memory and of the framebuffer translates to itself, nothing
      else translates, and the tables are an unshared tree clear of the kept frames. */
  lemma {:induction false} BootMapsIdentity(
    a: Ledger, ram: Ram, keep: set<nat>, memSize: U64, fbBase: U64, fbSize: U64, m: Machine)
    requires a.Valid() && a.Pages() <= PHYSICAL && memSize <= PAGES_47 * PAGE
    requires FramebufferLoopEnds(fbBase, fbSize) && fbBase / PAGE + FramebufferPages(fbBase, fbSize) <= PAGES_47
    requires forall k :: k in keep && k < a.Pages() ==> a.bits[k]
    requires BootFrames(memSize, fbBase, fbSize) <= FreeFrames(a)
    requires m == Booted(a, ram, memSize, fbBase, fbSize)
    ensures Tree(View(m), keep) && AllWritable(View(m))
    ensures forall v: nat :: Translate(m, v) == if InBootRange(v, memSize, fbBase, fbSize) then Some(v) else None
  {
    var m2 := MemoryMapped(NewRoot(a, ram), memSize);
    TablesForIsNonNegative(fbBase / PAGE, FramebufferPages(fbBase, fbSize));
    MemoryLoopWalks(a, ram, keep, memSize, m2);
    FramebufferLoopWalks(keep, fbBase, fbSize, m2, m);
    forall v: nat
      ensures Translate(m, v) == if InBootRange(v, memSize, fbBase, fbSize) then Some(v) else None
    {
      TranslatesAsWalked(m, CeilDiv(memSize, PAGE), fbBase / PAGE, FramebufferPages(fbBase, fbSize), v);
    }
  }

  lemma {:induction false} BootRangeIsBelow(memSize: U64, fbBase: U64, fbSize: U64)
    requires forall v: nat :: InBootRange(v, memSize, fbBase, fbSize) ==> v < PAGES_47
    ensures memSize <= PAGES_47 * PAGE
    ensures FramebufferPages(fbBase, fbSize) > 0 ==> fbBase / PAGE + FramebufferPages(fbBase, fbSize) <= PAGES_47
  {
    var n, k := CeilDiv(memSize, PAGE), FramebufferPages(fbBase, fbSize);
    if n > 0 { assert InBootRange(n - 1, memSize, fbBase, fbSize); }
    if k > 0 { assert InBootRange(fbBase / PAGE + k - 1, memSize, fbBase, fbSize); }
  }

  /** A framebuffer step that maps nothing still locks. */
  lemma {:induction false} BootWithoutFramebuffer(a: Ledger, ram: Ram, memSize: U64, fbBase: U64, fbSize: U64, m: Machine)
    requires a.Valid() && a.Pages() <= PHYSICAL && memSize <= PAGES_47 * PAGE
    requires FramebufferLoopEnds(fbBase, fbSize) && FramebufferPages(fbBase, fbSize) == 0
    requires 1 + TablesFor(0, CeilDiv(memSize, PAGE)) <= FreeFrames(a) && m == Booted(a, ram, memSize, fbBase, fbSize)
    ensures forall v: nat :: v < CeilDiv(memSize, PAGE) ==> Translate(m, v) == Some(v)
  {
    var m2 := MemoryMapped(NewRoot(a, ram), memSize);
    MemoryLoopMapsIdentity(a, ram, {}, memSize, m2);
    LockingKeepsTree(m2, {}, fbBase, fbSize / PAGE + 1);
    forall v: nat
      ensures Translate(m, v) == Translate(m2, v)
    {
    }
  }

  /** The bound is exact: given the frames, everything kmain maps translates to itself if
      and only if it maps nothing from 2^47 on. */
  lemma {:induction false} BootIsIdentityIffBelow2Pow47(
    a: Ledger, ram: Ram, memSize: U64, fbBase: U64, fbSize: U64, m: Machine)
    requires a.Valid() && a.Pages() <= PHYSICAL && memSize + PAGE <= TWO_64 && FramebufferLoopEnds(fbBase, fbSize)
    requires BootFrames(memSize, fbBase, fbSize) <= FreeFrames(a) && m == Booted(a, ram, memSize, fbBase, fbSize)
    ensures (forall v: nat :: InBootRange(v, memSize, fbBase, fbSize) ==> Translate(m, v) == Some(v))
       <==> forall v: nat :: InBootRange(v, memSize, fbBase, fbSize) ==> v < PAGES_47
  {
    if v: nat :| InBootRange(v, memSize, fbBase, fbSize) && v >= PAGES_47 {
      NoIdentityBeyond47Bits(m, v);
    } else {
      BootRangeIsBelow(memSize, fbBase, fbSize);
      if FramebufferPages(fbBase, fbSize) > 0 {
        BootMapsIdentity(a, ram, {}, memSize, fbBase, fbSize, m);
      } else {
        BootWithoutFramebuffer(a, ram, memSize, fbBase, fbSize, m);
      }
    }
  }

  // ----- tables and the framebuffer -----

  lemma {:induction false} NewRootFills(a: Ledger, ram: Ram)
    requires a.Valid() && a.Pages() <= PHYSICAL && FreeFrames(a) > 0
    ensures TablesFill(a, {}, View(NewRoot(a, ram)))
  {
    var m := NewRoot(a, ram);
    NewRootIsEmptyTree(a, ram, {});
    RequestTakesOneFrame(a);
    RequestGrantsLowestClear(a);
    RequestTakesFromBelow(a, a);
    assert TableAt(View(m), Root, m.root);
    forall f: nat
      ensures IsTable(View(m), f) <==> f == m.root
    {
    }
  }

  /** The root and the memory loop's tables are the lowest frames that were clear. */
  lemma {:induction false} MemoryLoopFills(a: Ledger, ram: Ram, memSize: U64, m2: Machine)
    requires a.Valid() && a.Pages() <= PHYSICAL && memSize <= PAGES_48 * PAGE
    requires 1 + TablesFor(0, CeilDiv(memSize, PAGE)) <= FreeFrames(a)
    requires m2 == MemoryMapped(NewRoot(a, ram), memSize)
    ensures TablesFill(a, {}, View(m2))
  {
    hide TablesFill;
    TablesForIsNonNegative(0, CeilDiv(memSize, PAGE));
    NewRootIsEmptyTree(a, ram, {});
    NewRootFills(a, ram);
    MapRangeFills(a, {}, NewRoot(a, ram), {}, 0, CeilDiv(memSize, PAGE));
  }

  lemma {:induction false} LockedPagesAreNotClear(a: Ledger, addr: U64, n: nat, f: nat)
    requires InRange(f, addr, n)
    ensures !ApplyRange(a, Lock, addr, n).IsClear(f)
  {
    RangeKeepsLength(a, Lock, addr, n);
    if f < |a.bits| {
      RangeSetsExactlyItsPages(a, Lock, addr, n, f);
    }
  }

  lemma {:induction false} SameTables(m: Machine, n: Machine, f: nat)
    requires m.ledger.Valid() && n.ledger.Valid() && n.root == m.root && n.ram == m.ram
    ensures Total(View(m)) && Total(View(n)) && (IsTable(View(n), f) <==> IsTable(View(m), f))
  {
    forall x: Path, t: Frame
      ensures TableAt(View(n), x, t) <==> TableAt(View(m), x, t)
    {
      if Depth(x) <= 3 {
        WalkIsLookup(m, x);
        WalkIsLookup(n, x);
        SameTablesSameWalk(m, n, x);
      }
    }
  }

  ghost function TablesOf(m: Machine): set<nat>
    requires m.ledger.Valid()
  {
    set f: nat | f < FRAMES && IsTable(View(m), f)
  }

  lemma {:induction false} LockingFills(m: Machine, r: Machine, f: nat)
    requires m.ledger.Valid() && r.ledger.Valid() && r == m.(ledger := r.ledger)
    ensures f in TablesOf(m) <==> IsTable(View(m), f)
    ensures TablesFill(r.ledger, TablesOf(m), View(r))
  {
    forall g: nat
      ensures IsTable(View(r), g) <==> g in TablesOf(m)
    {
      SameTables(m, r, g);
    }
    SameTables(m, r, f);
  }

  /** Once the framebuffer's pages are locked, no more tables come to lie on them. */
  lemma {:induction false} FramebufferLoopSparesIt(keep: set<nat>, fbBase: U64, fbSize: U64, m2: Machine, m4: Machine, f: nat)
    requires Tree(View(m2), keep) && FramebufferLoopEnds(fbBase, fbSize)
    requires fbBase / PAGE + FramebufferPages(fbBase, fbSize) <= PAGES_48
    requires fbSize / PAGE + 1 + TablesFor(fbBase / PAGE, FramebufferPages(fbBase, fbSize)) <= FreeFrames(m2.ledger)
    requires m4 == FramebufferMapped(m2, fbBase, fbSize) && InRange(f, fbBase, fbSize / PAGE + 1)
    ensures Total(View(m4)) && (IsTable(View(m4), f) <==> IsTable(View(m2), f))
    ensures !m4.ledger.IsClear(f)
  {
    hide TablesOf, MapRange, ApplyRange, IsTable;
    var m3 := m2.(ledger := ApplyRange(m2.ledger, Lock, fbBase, fbSize / PAGE + 1));
    LockingKeepsTree(m2, keep, fbBase, fbSize / PAGE + 1);
    LockedPagesAreNotClear(m2.ledger, fbBase, fbSize / PAGE + 1, f);
    LockingFills(m2, m3, f);
    MapRangeFills(m3.ledger, TablesOf(m2), m3, keep, fbBase / PAGE, FramebufferPages(fbBase, fbSize));
  }

  /** The framebuffer is locked only after the memory loop has taken its tables. No table
      lies on its locked pages if and only if each of them that is clear beforehand has
      clear frames below it for the root and all of that loop's tables. */
  lemma {:induction false} TablesSpareFramebufferIffRoomBelow(
    a: Ledger, ram: Ram, memSize: U64, fbBase: U64, fbSize: U64, m: Machine)
    requires a.Valid() && a.Pages() <= PHYSICAL && memSize <= PAGES_47 * PAGE
    requires FramebufferLoopEnds(fbBase, fbSize) && fbBase / PAGE + FramebufferPages(fbBase, fbSize) <= PAGES_47
    requires BootFrames(memSize, fbBase, fbSize) <= FreeFrames(a)
    requires m == Booted(a, ram, memSize, fbBase, fbSize)
    ensures Total(View(m))
    ensures (forall f: nat :: InRange(f, fbBase, fbSize / PAGE + 1) ==> !IsTable(View(m), f))
       <==> forall f: nat :: InRange(f, fbBase, fbSize / PAGE + 1) && a.IsClear(f) ==>
              ClearBelow(a, f) >= 1 + TablesFor(0, CeilDiv(memSize, PAGE))
  {
    var m2 := MemoryMapped(NewRoot(a, ram), memSize);
    TablesForIsNonNegative(fbBase / PAGE, FramebufferPages(fbBase, fbSize));
    MemoryLoopWalks(a, ram, {}, memSize, m2);
    MemoryLoopFills(a, ram, memSize, m2);
    FramebufferLoopWalks({}, fbBase, fbSize, m2, m);
    hide MemoryMapped, FramebufferMapped, Booted, MapRange, FreeFrames, ClearBelow, Tree;
    forall f: nat | InRange(f, fbBase, fbSize / PAGE + 1)
      ensures IsTable(View(m), f) <==> a.IsClear(f) && ClearBelow(a, f) < 1 + TablesFor(0, CeilDiv(memSize, PAGE))
    {
      FramebufferLoopSparesIt({}, fbBase, fbSize, m2, m, f);
      if a.IsClear(f) {
        TakenIffFewBelow(a, m2.ledger, f);
      }
    }
  }

  /** The pages that loop maps hold every byte of a framebuffer that ends a page before
      2^64, because the size it is given is a page more than the buffer's. */
  lemma {:induction false} FramebufferBytesAreMapped(fbBase: U64, bufferSize: U64, offset: nat)
    requires offset < bufferSize && fbBase + bufferSize + PAGE < TWO_64
    ensures fbBase / PAGE <= (fbBase + offset) / PAGE < fbBase / PAGE + FramebufferPages(fbBase, Wrap(bufferSize + PAGE))
  {
    assert Wrap(fbBase + Wrap(bufferSize + PAGE)) == fbBase + bufferSize + PAGE;
  }

  // ----- kmain as it runs -----

  /** The ledger kmain sets paging up with: the memory map read, the kernel locked. */
  function BootLedger(descs: seq<MemoryDescriptor>, addr: U64, guard: bv8, kernelStart: U64, kernelEnd: U64): (a: Ledger)
    ensures a.Valid() && a.Pages() == 8 * BitmapBytes(TotalBytes(descs))
  {
    MapMarksExactly(descs, TotalBytes(descs), addr, guard, 0);
    RangeKeepsLength(LedgerAfterMap(descs, TotalBytes(descs), addr, guard), Lock, kernelStart, Wrap(kernelEnd - kernelStart) / PAGE + 1);
    ApplyRange(LedgerAfterMap(descs, TotalBytes(descs), addr, guard), Lock, kernelStart, Wrap(kernelEnd - kernelStart) / PAGE + 1)
  }

  /** Every frame that is not free when paging is set up: marked, or beyond the bitmap. */
  ghost function TakenFrames(a: Ledger): set<nat> {
    set k: nat | k < FRAMES && !a.IsClear(k)
  }

  /** The pages of the kernel image, as kmain locks them. */
  predicate InKernelImage(page: nat, kernelStart: U64, kernelEnd: U64) {
    InRange(page, kernelStart, Wrap(kernelEnd - kernelStart) / PAGE + 1)
  }

  /** The marked ones are the firmware's pages, the bitmap's own, and the kernel image's. */
  lemma {:induction false} BootLedgerMarks(
    a: Ledger, descs: seq<MemoryDescriptor>, addr: U64, guard: bv8, kernelStart: U64, kernelEnd: U64, page: nat)
    requires a == BootLedger(descs, addr, guard, kernelStart, kernelEnd) && page < a.Pages()
    ensures a.bits[page]
       <==> || FirmwareOwned(page, descs) || InBitmapStorage(page, addr, BitmapBytes(TotalBytes(descs)))
            || InKernelImage(page, kernelStart, kernelEnd)
  {
    var memSize := TotalBytes(descs);
    MapMarksExactly(descs, memSize, addr, guard, page);
    RangeSetsExactlyItsPages(LedgerAfterMap(descs, memSize, addr, guard), Lock, kernelStart,
                             Wrap(kernelEnd - kernelStart) / PAGE + 1, page);
  }

  /** From the firmware's memory map to cr3: with frames enough, kmain identity-maps
      memory and framebuffer through tables that touch neither firmware pages, nor the
      bitmap's storage, nor the kernel image. */
  lemma {:induction false} KernelBootMapsIdentity(
    descs: seq<MemoryDescriptor>, addr: U64, guard: bv8, kernelStart: U64, kernelEnd: U64,
    a: Ledger, ram: Ram, memSize: U64, fbBase: U64, fbSize: U64, m: Machine)
    requires a == BootLedger(descs, addr, guard, kernelStart, kernelEnd)
    requires memSize == TotalBytes(descs) <= PAGES_47 * PAGE
    requires FramebufferLoopEnds(fbBase, fbSize) && fbBase / PAGE + FramebufferPages(fbBase, fbSize) <= PAGES_47
    requires BootFrames(memSize, fbBase, fbSize) <= FreeFrames(a)
    requires m == Booted(a, ram, memSize, fbBase, fbSize)
    ensures Tree(View(m), TakenFrames(a)) && AllWritable(View(m))
    ensures forall x: Path, t: Frame :: TableAt(View(m), x, t) ==>
              && !FirmwareOwned(t, descs) && !InBitmapStorage(t, addr, BitmapBytes(memSize))
              && !InKernelImage(t, kernelStart, kernelEnd)
    ensures forall v: nat :: Translate(m, v) == if InBootRange(v, memSize, fbBase, fbSize) then Some(v) else None
  {
    hide BootLedger, Booted, BootFrames, FreeFrames, Tree, AllWritable, FirmwareOwned, InKernelImage;
    BootMapsIdentity(a, ram, TakenFrames(a), memSize, fbBase, fbSize, m);
    forall x: Path, t: Frame | TableAt(View(m), x, t)
      ensures && !FirmwareOwned(t, descs) && !InBitmapStorage(t, addr, BitmapBytes(memSize))
              && !InKernelImage(t, kernelStart, kernelEnd)
    {
      assert t !in TakenFrames(a);
      BootLedgerMarks(a, descs, addr, guard, kernelStart, kernelEnd, t);
    }
  }

  lemma {:induction false} ImagePages(start: nat, end: nat)
    requires start < end
    ensures (end - 1) / 4096 - start / 4096 <= (end - start) / 4096 <==> start % 4096 + (end - start) % 4096 <= 4096
  {
    var s, r := start % 4096, (end - start) % 4096;
    assert end - 1 == 4096 * (start / 4096 + (end - start) / 4096) + (s + r - 1);
  }

  /** Page p holds a byte of the image from `start` up to `end`. */
  predicate HoldsImage(p: nat, start: U64, end: U64) {
    start < end && start / 4096 <= p <= (end - 1) / 4096
  }

  /** Start and size are not so far into a page each that together they reach into one more. */
  predicate EndsInRange(start: U64, end: U64) {
    start % 4096 + (end - start) % 4096 <= 4096
  }

  lemma {:induction false} SmallDifference(start: U64, end: U64, p: nat)
    requires HoldsImage(p, start, end)
    ensures Wrap(end - start) / PAGE == (end - start) / 4096
    ensures p < 0x10_0000_0000_0000 && (p - start / 4096) % 0x10_0000_0000_0000 == p - start / 4096
  {
  }

  lemma {:induction false} LockedImagePage(b: Ledger, start: U64, end: U64, p: nat)
    requires HoldsImage(p, start, end) && p < |b.bits|
    ensures var a := ApplyRange(b, Lock, start, Wrap(end - start) / PAGE + 1);
            p < |a.bits| && (a.bits[p] <==> b.bits[p] || p - start / 4096 <= (end - start) / 4096)
  {
    hide ApplyRange, InRange, Wrap;
    var n := Wrap(end - start) / PAGE + 1;
    SmallDifference(start, end, p);
    RangeKeepsLength(b, Lock, start, n);
    InRangeMeans(p, start, n);
    RangeSetsExactlyItsPages(b, Lock, start, n, p);
  }

  /** What kmain locks for its image holds every byte of it, if the image ends in range, as
      any does that starts on a page. */
  lemma {:induction false} KernelImageIsMarked(
    a: Ledger, descs: seq<MemoryDescriptor>, addr: U64, guard: bv8, kernelStart: U64, kernelEnd: U64, p: nat)
    requires a == BootLedger(descs, addr, guard, kernelStart, kernelEnd) && p < a.Pages()
    requires HoldsImage(p, kernelStart, kernelEnd) && EndsInRange(kernelStart, kernelEnd)
    ensures a.bits[p]
  {
    hide ApplyRange, LedgerAfterMap, TotalBytes;
    MapMarksExactly(descs, TotalBytes(descs), addr, guard, 0);
    ImagePages(kernelStart, kernelEnd);
    LockedImagePage(LedgerAfterMap(descs, TotalBytes(descs), addr, guard), kernelStart, kernelEnd, p);
  }

  /** That is exact: if the map has left the image's last page clear, kmain marks all of
      the image's pages if and only if the image ends in range. */
  lemma {:induction false} KernelImageIsMarkedIffEndsInRange(
    b: Ledger, a: Ledger, kernelStart: U64, kernelEnd: U64)
    requires b.Valid() && kernelStart < kernelEnd && b.IsClear((kernelEnd - 1) / 4096)
    requires a == ApplyRange(b, Lock, kernelStart, Wrap(kernelEnd - kernelStart) / PAGE + 1) && |a.bits| == |b.bits|
    ensures (forall p: nat :: HoldsImage(p, kernelStart, kernelEnd) && p < a.Pages() ==> a.bits[p])
       <==> EndsInRange(kernelStart, kernelEnd)
  {
    var last := (kernelEnd - 1) / 4096;
    ImagePages(kernelStart, kernelEnd);
    assert HoldsImage(last, kernelStart, kernelEnd);
    hide ApplyRange;
    forall p: nat | HoldsImage(p, kernelStart, kernelEnd) && p < a.Pages()
      ensures a.bits[p] <==> b.bits[p] || p - kernelStart / 4096 <= (kernelEnd - kernelStart) / 4096
    {
      LockedImagePage(b, kernelStart, kernelEnd, p);
    }
  }

  lemma {:induction false} HeldIsTaken(
    a: Ledger, descs: seq<MemoryDescriptor>, addr: U64, guard: bv8, kernelStart: U64, kernelEnd: U64, p: nat)
    requires a == BootLedger(descs, addr, guard, kernelStart, kernelEnd)
    requires || HeldByType(p, descs) || HoldsBitmap(p, addr, TotalBytes(descs))
             || (HoldsImage(p, kernelStart, kernelEnd) && EndsInRange(kernelStart, kernelEnd))
    ensures !a.IsClear(p) && p < FRAMES
  {
    var memSize := TotalBytes(descs);
    if p < a.Pages() {
      assert memSize / PAGE / 8 == memSize / 32768;
      BootLedgerMarks(a, descs, addr, guard, kernelStart, kernelEnd, p);
      FirmwareOwnedByType(p, descs);
      InRangeMeans(p, addr, BitmapBytes(memSize) / PAGE + 1);
      if HoldsImage(p, kernelStart, kernelEnd) && EndsInRange(kernelStart, kernelEnd) {
        KernelImageIsMarked(a, descs, addr, guard, kernelStart, kernelEnd, p);
      }
    }
  }

  /** From the firmware's memory map to cr3, by type numbers and addresses: no table lies on
      a page of a descriptor other than of conventional memory or of memory-mapped I/O, on
      the bitmap, or on a page that holds a byte of a kernel image that ends in range. */
  lemma {:induction false} TablesSpareWhatIsHeld(
    descs: seq<MemoryDescriptor>, addr: U64, guard: bv8, kernelStart: U64, kernelEnd: U64,
    a: Ledger, ram: Ram, memSize: U64, fbBase: U64, fbSize: U64, m: Machine, p: nat)
    requires a == BootLedger(descs, addr, guard, kernelStart, kernelEnd)
    requires memSize == TotalBytes(descs) <= PAGES_47 * PAGE
    requires FramebufferLoopEnds(fbBase, fbSize) && fbBase / PAGE + FramebufferPages(fbBase, fbSize) <= PAGES_47
    requires BootFrames(memSize, fbBase, fbSize) <= FreeFrames(a)
    requires m == Booted(a, ram, memSize, fbBase, fbSize)
    requires || HeldByType(p, descs) || HoldsBitmap(p, addr, memSize)
             || (HoldsImage(p, kernelStart, kernelEnd) && EndsInRange(kernelStart, kernelEnd))
    ensures Total(View(m)) && !IsTable(View(m), p)
  {
    hide BootLedger, Booted, BootFrames, FreeFrames, AllWritable, HeldByType, HoldsBitmap, HoldsImage, EndsInRange;
    BootMapsIdentity(a, ram, TakenFrames(a), memSize, fbBase, fbSize, m);
    HeldIsTaken(a, descs, addr, guard, kernelStart, kernelEnd, p);
  }

  lemma {:induction false} BufferPages(fbBase: U64, bufferSize: U64, p: nat)
    requires fbBase + bufferSize < TWO_64 && HoldsImage(p, fbBase, fbBase + bufferSize)
    ensures p - fbBase / 4096 < (bufferSize + PAGE) / PAGE + 1
  {
  }

  /** Every page that holds a byte of the framebuffer is taken when cr3 is loaded. */
  lemma {:induction false} FramebufferIsMarked(
    a: Ledger, ram: Ram, memSize: U64, fbBase: U64, bufferSize: U64, m: Machine, p: nat)
    requires a.Valid() && a.Pages() <= PHYSICAL && memSize <= PAGES_47 * PAGE && bufferSize + PAGE < TWO_64
    requires FramebufferLoopEnds(fbBase, bufferSize + PAGE) && fbBase + bufferSize < TWO_64
    requires fbBase / PAGE + FramebufferPages(fbBase, bufferSize + PAGE) <= PAGES_47
    requires BootFrames(memSize, fbBase, bufferSize + PAGE) <= FreeFrames(a)
    requires m == Booted(a, ram, memSize, fbBase, bufferSize + PAGE)
    requires HoldsImage(p, fbBase, fbBase + bufferSize)
    ensures !m.ledger.IsClear(p)
  {
    var m2 := MemoryMapped(NewRoot(a, ram), memSize);
    hide MemoryMapped, FramebufferMapped, MapRange, Tree, InRange;
    TablesForIsNonNegative(fbBase / PAGE, FramebufferPages(fbBase, bufferSize + PAGE));
    MemoryLoopWalks(a, ram, {}, memSize, m2);
    SmallDifference(fbBase, fbBase + bufferSize, p);
    BufferPages(fbBase, bufferSize, p);
    InRangeMeans(p, fbBase, (bufferSize + PAGE) / PAGE + 1);
    FramebufferLoopSparesIt({}, fbBase, bufferSize + PAGE, m2, m, p);
  }

  lemma {:induction false} WrapKeepsWholePages(n: nat)
    ensures Wrap(n * PAGE) % PAGE == 0 && Wrap(n * PAGE) + PAGE <= TWO_64
  {
    var k := n - FRAMES * (n / FRAMES);
    assert Wrap(n * PAGE) == k * PAGE;
  }

  lemma {:induction false} TotalBytesAreWholePages(descs: seq<MemoryDescriptor>)
    ensures TotalBytes(descs) % PAGE == 0 && TotalBytes(descs) + PAGE <= TWO_64
  {
    if descs != [] {
      TotalBytesAreWholePages(descs[..|descs| - 1]);
      WrapKeepsWholePages(TotalBytes(descs[..|descs| - 1]) / PAGE + descs[|descs| - 1].numPages);
    }
  }

  /** kmain lines 30-42: size memory, read the map, lock the kernel image. */
  method PrepareMemory(mem: MemDesc, descs: seq<MemoryDescriptor>, guard: bv8, kernelStart: U64, kernelEnd: U64)
    returns (memSize: Option<U64>)
    requires mem.Valid() && !mem.initialized && mem.memSizeBytes == 0
    modifies mem
    ensures mem.Valid()
    ensures memSize.None? <==> exists i :: 0 <= i < |descs| && descs[i].kind > 15
    ensures memSize.Some? ==>
              && memSize.value == TotalBytes(descs) && mem.initialized && fresh(mem.bitmap.buffer)
              && IsLargestSegment(descs, mem.bitmapAddr)
              && Same(mem.Contents(), BootLedger(descs, mem.bitmapAddr, guard, kernelStart, kernelEnd))
  {
    memSize := mem.GetMemSize(descs);
    if memSize.Some? {
      var done := mem.ReadEFIMemoryMap(descs, guard);
      mem.LockPages(kernelStart, Wrap(kernelEnd - kernelStart) / PAGE + 1);
    }
  }

  /** kmain lines 51-54: a zeroed PML4 and the manager for it. */
  method NewPageTableManager(mem: MemDesc, ram: array<PageTable>) returns (ptm: PageTableManager)
    requires mem.Valid() && mem.initialized
    requires ram.Length == FRAMES && ram as object != mem.bitmap.buffer
    modifies mem`free, mem`used, mem.bitmap.buffer, ram
    ensures fresh(ptm) && ptm.Valid() && ptm.mem == mem && ptm.ram == ram
    ensures ptm.state == NewRoot(old(mem.Contents()), old(ram[..]))
  {
    var addr := mem.RequestPage();
    var pml4: Frame := addr / PAGE;
    ram[pml4] := ZeroTable();
    ptm := new PageTableManager(mem, ram, pml4);
    assert ram[..] == old(ram[..])[pml4 := ZeroTable()];
  }

  lemma {:induction false} MemoryLoopEnds(memSize: U64)
    requires memSize + PAGE <= TWO_64
    ensures LoopEnds(0, memSize) && LoopPages(0, memSize) == CeilDiv(memSize, PAGE)
  {
  }

  /** kmain lines 56-61: map memory. */
  method MapAllMemory(ptm: PageTableManager, memSize: U64)
    requires ptm.Valid() && memSize + PAGE <= TWO_64
    modifies ptm`state, ptm.mem`free, ptm.mem`used, ptm.mem.bitmap.buffer, ptm.ram
    ensures ptm.Valid() && old(ptm.state).ledger.Valid()
    ensures Same(ptm.state, MemoryMapped(old(ptm.state), memSize))
  {
    hide MapRange;
    MemoryLoopEnds(memSize);
    ptm.MapIdentity(0, memSize, 0);
  }

  /** kmain lines 63-69: lock the framebuffer's pages, then map them. */
  method MapFramebuffer(ptm: PageTableManager, fbBase: U64, fbSize: U64)
    requires ptm.Valid() && FramebufferLoopEnds(fbBase, fbSize)
    modifies ptm`state, ptm.mem`free, ptm.mem`used, ptm.mem.bitmap.buffer, ptm.ram
    ensures ptm.Valid() && old(ptm.state).ledger.Valid()
    ensures Same(ptm.state, FramebufferMapped(old(ptm.state), fbBase, fbSize))
  {
    hide ApplyRange, MapRange;
    ptm.LockPages(fbBase, fbSize / PAGE + 1);
    ptm.MapIdentity(fbBase, Wrap(fbBase + fbSize), fbBase / PAGE);
  }

  /** kmain lines 51-69: a new root, memory mapped, the framebuffer locked and mapped. */
  method SetUpPaging(mem: MemDesc, ram: array<PageTable>, memSize: U64, fbBase: U64, fbSize: U64)
    returns (ptm: PageTableManager)
    requires mem.Valid() && mem.initialized
    requires ram.Length == FRAMES && ram as object != mem.bitmap.buffer
    requires memSize + PAGE <= TWO_64 && FramebufferLoopEnds(fbBase, fbSize)
    modifies mem`free, mem`used, mem.bitmap.buffer, ram
    ensures fresh(ptm) && ptm.Valid() && ptm.mem == mem && ptm.ram == ram
    ensures Same(ptm.state, Booted(old(mem.Contents()), old(ram[..]), memSize, fbBase, fbSize))
  {
    ptm := NewPageTableManager(mem, ram);
    MapAllMemory(ptm, memSize);
    MapFramebuffer(ptm, fbBase, fbSize);
  }

  /** kmain up to the load of cr3, for a framebuffer whose loop ends; null models the hang
      on a bad memory type. */
  method KMain(mem: MemDesc, ram: array<PageTable>, descs: seq<MemoryDescriptor>, guard: bv8,
               kernelStart: U64, kernelEnd: U64, fbBase: U64, fbBufferSize: U64)
    returns (ptm: PageTableManager?)
    requires mem.Valid() && !mem.initialized && mem.memSizeBytes == 0 && ram.Length == FRAMES
    requires FramebufferLoopEnds(fbBase, Wrap(fbBufferSize + PAGE))
    modifies mem, ram
    ensures ptm == null <==> exists i :: 0 <= i < |descs| && descs[i].kind > 15
    ensures ptm != null ==>
              && ptm.Valid() && ptm.mem == mem && ptm.ram == ram && IsLargestSegment(descs, mem.bitmapAddr)
              && TotalBytes(descs) + PAGE <= TWO_64
              && Same(ptm.state, Booted(BootLedger(descs, mem.bitmapAddr, guard, kernelStart, kernelEnd), old(ram[..]),
                                        TotalBytes(descs), fbBase, Wrap(fbBufferSize + PAGE)))
  {
    hide BootLedger, Booted;
    var memSize := PrepareMemory(mem, descs, guard, kernelStart, kernelEnd);
    if memSize.None? {
      return null;
    }
    TotalBytesAreWholePages(descs);
    ptm := SetUpPaging(mem, ram, memSize.value, fbBase, Wrap(fbBufferSize + PAGE));
  }
}
