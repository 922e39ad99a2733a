/**
 Linear addresses through the page tables, with every shift and mask written out as the
 Intel SDM has them (volume 3A, section 4.5): a reference for the walk along paths, and
 what mapping and booting mean to an access, be it a read or a write.
 */
module Addresses {
  import opened Words
  import opened PageLedger
  import opened PageAllocator
  import opened PageTables
  import opened PagingRuns
  import opened IdentityMap
  import opened Kernel

  /** The entry lets the access through, and can name the frame it points to. */
  predicate Lets(e: PageDirEntry, write: bool) {
    e.present && (write ==> e.readWrite) && e.address < 0x100_0000_0000
  }

  predicate LetsOn(e: PageDirEntry, write: bool) {
    Lets(e, write) && !e.largerPages
  }

  /** Bits 63:48 repeat bit 47. */
  predicate IsCanonicalAddress(x: nat) {
    x < 0x8000_0000_0000 || 0xFFFF_8000_0000_0000 <= x < 0x1_0000_0000_0000_0000
  }

  /** The physical address that an access to linear address x reaches: four tables, each
      indexed by nine bits of x, and the lowest twelve bits as they are. */
  ghost function Reaches(m: Machine, x: nat, write: bool): Option<nat> {
    if !IsCanonicalAddress(x) then None
    else
      var pml4e := m.ram[m.root][x / 0x80_0000_0000 % 512];
      if !LetsOn(pml4e, write) then None
      else
        var pdpte := m.ram[pml4e.address][x / 0x4000_0000 % 512];
        if !LetsOn(pdpte, write) then None
        else
          var pde := m.ram[pdpte.address][x / 0x20_0000 % 512];
          if !LetsOn(pde, write) then None
          else
            var pte := m.ram[pde.address][x / 0x1000 % 512];
            if !Lets(pte, write) then None else Some(pte.address * 0x1000 + x % 0x1000)
  }

  // ----- the walk along a path is that walk -----

  lemma {:induction false} Digits(x: nat)
    ensures x / 4096 / 512 == x / 0x20_0000
    ensures x / 4096 / 512 / 512 == x / 0x4000_0000
    ensures x / 4096 / 512 / 512 / 512 == x / 0x80_0000_0000
  {
    assert x / 0x20_0000 / 512 == x / 0x4000_0000;
    assert x / 0x4000_0000 / 512 == x / 0x80_0000_0000;
  }

  lemma {:induction false} WalkUnfolds(m: Machine, p: Path, i: Index)
    ensures Walk(m, Sub(p, i))
         == match Walk(m, p)
            case None => None
            case Some(t) => if m.ram[t][i].Follows(Depth(p) + 1) then Some(m.ram[t][i].address) else None
  {
    assert Entry(m, Sub(p, i)) == match Walk(m, p) case None => ZERO_ENTRY case Some(t) => m.ram[t][i];
  }

  /** For reads it is the walk of the page's path, and the offset stays. */
  lemma {:induction false} ReachesIsTranslate(m: Machine, x: nat)
    requires x < 0x1_0000_0000_0000_0000
    ensures Reaches(m, x, false)
         == match Translate(m, x / 4096) case None => None case Some(f) => Some(f * 4096 + x % 4096)
  {
    var v := x / 4096;
    var p1 := Sub(Root, v / 512 / 512 / 512 % 512);
    var p2 := Sub(p1, v / 512 / 512 % 512);
    var p3 := Sub(p2, v / 512 % 512);
    Digits(x);
    DigitsSpellPath(v);
    WalkUnfolds(m, Root, p1.i);
    WalkUnfolds(m, p1, p2.i);
    WalkUnfolds(m, p2, p3.i);
    WalkUnfolds(m, p3, v % 512);
    assert Depth(p1) == 1 && Depth(p2) == 2 && Depth(p3) == 3;
    assert IsCanonicalAddress(x) <==> IsCanonical(v);
  }

  lemma {:induction false} ViewedEntry(m: Machine, q: Path)
    requires m.ledger.Valid() && IsEntryPath(q)
    ensures Total(View(m)) && View(m).entries[q] == Entry(m, q)
  {
  }

  /** Where every entry lets writes through, they go where reads go. */
  lemma {:induction false} WritesFollowReads(m: Machine, x: nat)
    requires m.ledger.Valid() && AllWritable(View(m)) && x < 0x1_0000_0000_0000_0000
    ensures Reaches(m, x, true) == Reaches(m, x, false)
  {
    var p1 := Sub(Root, x / 0x80_0000_0000 % 512);
    var p2 := Sub(p1, x / 0x4000_0000 % 512);
    var p3 := Sub(p2, x / 0x20_0000 % 512);
    var p4 := Sub(p3, x / 0x1000 % 512);
    assert Depth(p1) == 1 && Depth(p2) == 2 && Depth(p3) == 3 && Depth(p4) == 4;
    WalkUnfolds(m, Root, p1.i);
    WalkUnfolds(m, p1, p2.i);
    WalkUnfolds(m, p2, p3.i);
    ViewedEntry(m, p1);
    ViewedEntry(m, p2);
    ViewedEntry(m, p3);
    ViewedEntry(m, p4);
  }

  // ----- what mapping means to an access -----

  /** The byte of a frame that x's lowest twelve bits select. */
  function ByteOf(frame: nat, x: nat): nat {
    frame * 4096 + x % 4096
  }

  /** The addresses are of pages that the four tables cannot tell apart. */
  predicate SameIndices(x: nat, y: nat) {
    x / 4096 % 0x10_0000_0000 == y / 4096 % 0x10_0000_0000
  }

  lemma {:induction false} BothWays(m: Machine, x: nat, write: bool)
    requires m.ledger.Valid() && AllWritable(View(m)) && x < 0x1_0000_0000_0000_0000
    ensures Reaches(m, x, write) == match Translate(m, x / 4096) case None => None case Some(f) => Some(ByteOf(f, x))
  {
    ReachesIsTranslate(m, x);
    if write { WritesFollowReads(m, x); }
  }

  lemma {:induction false} SamePage(x: nat, y: nat)
    ensures PageAt(x / 4096) == PageAt(y / 4096) <==> SameIndices(x, y)
  {
    if SameIndices(x, y) {
      NumbersAreDistinct(PageAt(x / 4096), PageAt(y / 4096));
    }
  }

  lemma {:induction false} CanonicalPages(x: nat)
    ensures IsCanonicalAddress(x) <==> IsCanonical(x / 4096)
  {
  }

  lemma {:induction false} TranslateMoves(m: Machine, n: Machine, x: nat, y: nat, frame: Frame)
    requires Walk(n, PageAt(y / 4096)) == Reached(frame)
    requires forall q: Path :: IsPage(q) && q != PageAt(y / 4096) ==> Walk(n, q) == Walk(m, q)
    ensures Translate(n, x / 4096)
         == if IsCanonicalAddress(x) && SameIndices(x, y) then Reached(frame) else Translate(m, x / 4096)
  {
    hide Walk, PageAt, SameIndices, IsCanonical, IsCanonicalAddress, Reached;
    CanonicalPages(x);
    SamePage(x, y);
  }

  lemma {:induction false} ReachesMoves(m: Machine, n: Machine, x: nat, write: bool, y: nat, frame: Frame)
    requires m.ledger.Valid() && AllWritable(View(m)) && n.ledger.Valid() && AllWritable(View(n)) && x < 0x1_0000_0000_0000_0000
    requires Walk(n, PageAt(y / 4096)) == Reached(frame)
    requires forall q: Path :: IsPage(q) && q != PageAt(y / 4096) ==> Walk(n, q) == Walk(m, q)
    ensures Reaches(n, x, write)
         == if IsCanonicalAddress(x) && SameIndices(x, y) then
              if frame < 0x100_0000_0000 then Some(ByteOf(frame, x)) else None
            else Reaches(m, x, write)
  {
    hide Reaches, Translate, Walk, PageAt, NumberOf, AllWritable, View, IsCanonicalAddress, SameIndices, ByteOf;
    TranslateMoves(m, n, x, y, frame);
    BothWays(m, x, write);
    BothWays(n, x, write);
  }

  lemma {:induction false} TreeIsValid(m: Machine, keep: set<nat>)
    requires Tree(View(m), keep)
    ensures m.ledger.Valid() && Total(View(m))
  {
  }

  lemma {:induction false} MapsKeepsWritable(a: Space, b: Space, page: Path, frame: Frame)
    requires Total(a) && Total(b) && IsPage(page) && Maps(a, b, page, frame) && AllWritable(a)
    ensures AllWritable(b)
  {
  }

  /** pageTableManagerMapMemory, by addresses: with frames for the missing tables, the
      addresses of the given page reach the given frame, and all others reach what they
      did, by reads and, all entries letting writes through, by writes alike. */
  lemma {:induction false} MapMemoryReaches(
    m: Machine, n: Machine, keep: set<nat>, virtMem: U64, frame: Frame, x: nat, write: bool)
    requires Tree(View(m), keep) && AllWritable(View(m)) && x < 0x1_0000_0000_0000_0000
    requires Missing(View(m), PageAt(virtMem / 4096).parent) <= FreeFrames(m.ledger)
    requires n == MapPage(m, PageAt(virtMem / 4096), frame)
    ensures Reaches(n, x, write)
         == if IsCanonicalAddress(x) && SameIndices(x, virtMem) then
              if frame < 0x100_0000_0000 then Some(ByteOf(frame, x)) else None
            else Reaches(m, x, write)
  {
    TreeIsValid(m, keep);
    hide Tree, Maps, AllWritable, TookFrames, MapPage, Walk, View, Reaches, PageAt, NumberOf, IsCanonicalAddress, SameIndices, ByteOf;
    MapPageTranslates(m, keep, PageAt(virtMem / 4096), frame);
    TreeIsValid(n, keep);
    MapsKeepsWritable(View(m), View(n), PageAt(virtMem / 4096), frame);
    ReachesMoves(m, n, x, write, virtMem, frame);
  }

  // ----- what booting means to an access -----

  /** The bytes of memory, and those of all pages that kmain maps for the framebuffer. */
  predicate InBootBytes(x: nat, memSize: nat, fbBase: nat, bufferSize: nat) {
    x < memSize || fbBase / 4096 * 4096 <= x < (fbBase / 4096 + (bufferSize + 8191) / 4096) * 4096
  }

  lemma {:induction false} FramebufferRange(fbBase: U64, bufferSize: U64)
    requires fbBase + bufferSize + 0x2000 <= 0x8000_0000_0000
    ensures FramebufferLoopEnds(fbBase, bufferSize + 0x1000)
    ensures FramebufferPages(fbBase, bufferSize + 0x1000) == (bufferSize + 8191) / 4096
    ensures fbBase / PAGE + FramebufferPages(fbBase, bufferSize + 0x1000) <= PAGES_47
  {
  }

  lemma {:induction false} BootPages(memSize: U64, fbBase: U64, bufferSize: U64, x: nat)
    requires fbBase + bufferSize + 0x2000 <= 0x8000_0000_0000 && memSize % 4096 == 0
    ensures InBootRange(x / 4096, memSize, fbBase, bufferSize + 0x1000) <==> InBootBytes(x, memSize, fbBase, bufferSize)
  {
    FramebufferRange(fbBase, bufferSize);
    hide FramebufferPages;
  }

  lemma {:induction false} FramebufferIsInBootBytes(memSize: nat, fbBase: nat, bufferSize: nat, x: nat)
    requires x < memSize || fbBase <= x < fbBase + bufferSize
    ensures InBootBytes(x, memSize, fbBase, bufferSize)
  {
  }

  lemma {:induction false} ByteOfItsPage(x: nat)
    ensures ByteOf(x / 4096, x) == x
  {
  }

  /** When kmain has loaded cr3, from the firmware's memory map and framebuffer on, and all
      of it below 2^47: every byte of memory and of the framebuffer can be read and written
      at its own address, and outside of their pages nothing can. */
  lemma {:induction false} BootReaches(
    descs: seq<MemoryDescriptor>, addr: U64, guard: bv8, kernelStart: U64, kernelEnd: U64,
    a: Ledger, ram: Ram, memSize: U64, fbBase: U64, bufferSize: U64, fbSize: U64, m: Machine, x: nat, write: bool)
    requires a == BootLedger(descs, addr, guard, kernelStart, kernelEnd)
    requires memSize == TotalBytes(descs) <= 0x8000_0000_0000
    requires fbSize == bufferSize + 0x1000 && fbBase + bufferSize + 0x2000 <= 0x8000_0000_0000
    requires FramebufferLoopEnds(fbBase, fbSize) && BootFrames(memSize, fbBase, fbSize) <= FreeFrames(a)
    requires m == Booted(a, ram, memSize, fbBase, fbSize) && x < 0x1_0000_0000_0000_0000
    ensures x < memSize || fbBase <= x < fbBase + bufferSize ==> Reaches(m, x, write) == Some(x)
    ensures Reaches(m, x, write) == if InBootBytes(x, memSize, fbBase, bufferSize) then Some(x) else None
  {
    hide BootLedger, Booted, BootFrames, Tree, AllWritable, View, Reaches, Translate, FramebufferPages, FramebufferLoopEnds;
    hide InBootRange, InBootBytes, ByteOf;
    FramebufferRange(fbBase, bufferSize);
    TotalBytesAreWholePages(descs);
    KernelBootMapsIdentity(descs, addr, guard, kernelStart, kernelEnd, a, ram, memSize, fbBase, fbSize, m);
    BothWays(m, x, write);
    BootPages(memSize, fbBase, bufferSize, x);
    ByteOfItsPage(x);
    if x < memSize || fbBase <= x < fbBase + bufferSize { FramebufferIsInBootBytes(memSize, fbBase, bufferSize, x); }
  }
}
