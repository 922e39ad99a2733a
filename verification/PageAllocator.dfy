/** The page allocator of kernel/uefi/mem.c: counters and bitmap updated in place. */
module PageAllocator {
  import opened Words
  import opened Bitmap
  import opened PageLedger

  datatype MemoryDescriptor = MemoryDescriptor(kind: nat, physAddr: U64, numPages: U64) {
    /** EfiConventionalMemory. */
    predicate IsConventional() {
      kind == 7
    }

    /** _descReservePage's test: neither conventional nor memory-mapped I/O (11, 12). */
    predicate IsReserved() {
      kind != 7 && kind != 11 && kind != 12
    }

    function Bytes(): U64 {
      Wrap(numPages * PAGE)
    }
  }

  // ----- reading the firmware memory map, on values -----

  function TotalBytes(descs: seq<MemoryDescriptor>): U64 {
    if descs == [] then 0
    else Wrap(TotalBytes(descs[..|descs| - 1]) + descs[|descs| - 1].numPages * PAGE)
  }

  ghost function WrappedSize(d: MemoryDescriptor): int {
    d.numPages * 4096 % 0x1_0000_0000_0000_0000
  }

  /** Descriptor i is the first of the largest of type 7, EfiConventionalMemory, by its size
      in bytes, which wraps at 2^64. */
  ghost predicate IsFirstLargest(descs: seq<MemoryDescriptor>, i: nat)
    requires i < |descs|
  {
    && descs[i].kind == 7
    && (forall j :: 0 <= j < |descs| && descs[j].kind == 7 ==> WrappedSize(descs[j]) <= WrappedSize(descs[i]))
    && (forall j :: 0 <= j < i && descs[j].kind == 7 ==> WrappedSize(descs[j]) < WrappedSize(descs[i]))
  }

  /** `addr` starts the first largest non-empty conventional segment; NULL if none. */
  ghost predicate IsLargestSegment(descs: seq<MemoryDescriptor>, addr: U64) {
    if exists i :: 0 <= i < |descs| && descs[i].kind == 7 && WrappedSize(descs[i]) > 0 then
      exists i :: 0 <= i < |descs| && IsFirstLargest(descs, i) && descs[i].physAddr == addr
    else
      addr == 0
  }

  function ReserveDescriptors(a: Ledger, descs: seq<MemoryDescriptor>): Ledger {
    if descs == [] then a
    else
      var b, d := ReserveDescriptors(a, descs[..|descs| - 1]), descs[|descs| - 1];
      if d.IsReserved() then ApplyRange(b, Reserve, d.physAddr, d.numPages) else b
  }

  function BitmapBytes(memSize: U64): nat {
    memSize / PAGE / 8 + 1
  }

  /** The pages readEFIMemoryMap locks for the bitmap itself. */
  predicate InBitmapStorage(page: nat, addr: U64, size: nat) {
    InRange(page, addr, size / PAGE + 1)
  }

  predicate FirmwareOwned(page: nat, descs: seq<MemoryDescriptor>) {
    exists i :: 0 <= i < |descs| && descs[i].IsReserved() && InRange(page, descs[i].physAddr, descs[i].numPages)
  }

  /** PGinitBitMap's clean bitmap; the guard byte keeps whatever memory held there. */
  function CleanLedger(memSize: U64, guard: bv8): (a: Ledger)
    ensures a.Valid() && a.Pages() == 8 * BitmapBytes(memSize)
    ensures forall p :: 0 <= p < a.Pages() ==> !a.bits[p]
  {
    var bytes := seq(BitmapBytes(memSize), _ => 0 as bv8) + [guard];
    var bits := Unpack(bytes);
    assert forall p, k: nat :: 0 <= p < 8 * BitmapBytes(memSize) && k < 8 ==> !Bit(bytes[p / 8], k) by {
      assert forall k: nat :: k < 8 ==> (0 as bv8) & Mask(k) == 0;
    }
    Ledger(bits, memSize, 0, 0)
  }

  function LedgerAfterMap(descs: seq<MemoryDescriptor>, memSize: U64, addr: U64, guard: bv8): Ledger {
    ReserveDescriptors(
      ApplyRange(CleanLedger(memSize, guard), Lock, addr, BitmapBytes(memSize) / PAGE + 1), descs)
  }

  lemma {:induction false} ReserveDescriptorsSetsExactly(a: Ledger, descs: seq<MemoryDescriptor>, page: nat)
    requires page < |a.bits|
    ensures |ReserveDescriptors(a, descs).bits| == |a.bits|
    ensures ReserveDescriptors(a, descs).bits[page] == (a.bits[page] || FirmwareOwned(page, descs))
  {
    if descs != [] {
      var front, d := descs[..|descs| - 1], descs[|descs| - 1];
      ReserveDescriptorsSetsExactly(a, front, page);
      var b := ReserveDescriptors(a, front);
      RangeSetsExactlyItsPages(b, Reserve, d.physAddr, d.numPages, page);
      assert FirmwareOwned(page, descs)
        <==> FirmwareOwned(page, front) || (d.IsReserved() && InRange(page, d.physAddr, d.numPages));
    }
  }

  /** The bitmap after the first readEFIMemoryMap: a counted bit is set exactly for
      firmware-owned pages and for the bitmap's own; a guard bit may also be left over. */
  lemma {:induction false} MapMarksExactly(descs: seq<MemoryDescriptor>, memSize: U64, addr: U64, guard: bv8, page: nat)
    requires page < |CleanLedger(memSize, guard).bits|
    ensures var a := LedgerAfterMap(descs, memSize, addr, guard);
            && a.Valid() && a.Pages() == 8 * BitmapBytes(memSize)
            && a.bits[page] == (|| FirmwareOwned(page, descs)
                                || InBitmapStorage(page, addr, BitmapBytes(memSize))
                                || (page >= a.Pages() && Bit(guard, page % 8)))
  {
    var clean := CleanLedger(memSize, guard);
    var n := BitmapBytes(memSize) / PAGE + 1;
    RangeSetsExactlyItsPages(clean, Lock, addr, n, page);
    ReserveDescriptorsSetsExactly(ApplyRange(clean, Lock, addr, n), descs, page);
  }

  lemma {:induction false} ReserveDescriptorsMove(a: Ledger, descs: seq<MemoryDescriptor>)
    ensures Moves(a, ReserveDescriptors(a, descs), Reserve)
  {
    if descs == [] {
      NothingMoves(a, Reserve);
    } else {
      var front, d := descs[..|descs| - 1], descs[|descs| - 1];
      ReserveDescriptorsMove(a, front);
      if d.IsReserved() {
        RangeMovesBytes(ReserveDescriptors(a, front), Reserve, d.physAddr, d.numPages);
        MovesCompose(a, ReserveDescriptors(a, front), ReserveDescriptors(a, descs), Reserve);
      }
    }
  }

  lemma {:induction false} ReserveDescriptorsKeepsAccounts(a: Ledger, descs: seq<MemoryDescriptor>, total: U64, guard: nat)
    requires Accounts(a, total, guard)
    ensures Accounts(ReserveDescriptors(a, descs), total, guard)
  {
    ReserveDescriptorsMove(a, descs);
    MovingKeepsAccounts(a, ReserveDescriptors(a, descs), Reserve, total, guard);
  }

  lemma {:induction false} NoneMarked(bits: seq<bool>)
    requires forall i :: 0 <= i < |bits| ==> !bits[i]
    ensures Marked(bits) == 0
  {
    if bits != [] {
      NoneMarked(bits[..|bits| - 1]);
    }
  }

  lemma {:induction false} ClearPagesBalance(a: Ledger)
    requires a.Valid() && a.reserved == 0 && a.used == 0 && forall p :: 0 <= p < a.Pages() ==> !a.bits[p]
    ensures Accounts(a, a.free, Marked(a.bits[a.Pages()..]))
  {
    MarkedSplits(a.bits, a.Pages());
    NoneMarked(a.bits[..a.Pages()]);
    hide Marked;
    assert PAGE * (Marked(a.bits) - Marked(a.bits[a.Pages()..])) == 0;
  }

  lemma {:induction false} CleanBooksBalance(memSize: U64, guard: bv8)
    ensures var a := CleanLedger(memSize, guard);
            Accounts(a, memSize, Marked(a.bits[a.Pages()..]))
  {
    hide Accounts, Marked, Unpack;
    ClearPagesBalance(CleanLedger(memSize, guard));
  }

  /** The books balance from the first call on, and so over every later run. */
  lemma {:induction false} BooksBalanceAfterMap(descs: seq<MemoryDescriptor>, memSize: U64, addr: U64, guard: bv8, es: seq<Event>)
    ensures var clean := CleanLedger(memSize, guard);
            var a := LedgerAfterMap(descs, memSize, addr, guard);
            && a.Valid()
            && Accounts(Run(a, es), memSize, Marked(clean.bits[clean.Pages()..]))
  {
    var clean := CleanLedger(memSize, guard);
    var g := Marked(clean.bits[clean.Pages()..]);
    CleanBooksBalance(memSize, guard);
    var n := BitmapBytes(memSize) / PAGE + 1;
    RangeKeepsAccounts(clean, Lock, addr, n, memSize, g);
    ReserveDescriptorsKeepsAccounts(ApplyRange(clean, Lock, addr, n), descs, memSize, g);
    MapMarksExactly(descs, memSize, addr, guard, 0);
    RunKeepsAccounts(LedgerAfterMap(descs, memSize, addr, guard), es, memSize, g);
  }

  /** For a page-aligned segment the locked pages hold every byte of the bitmap, the
      guard byte included. */
  lemma {:induction false} BitmapStorageHoldsBitmap(addr: U64, size: nat, offset: nat)
    requires addr % PAGE == 0 && addr + size < TWO_64 && offset <= size
    ensures InBitmapStorage((addr + offset) / PAGE, addr, size)
  {
    var i := offset / PAGE;
    assert PageOf(addr, i) == (addr + offset) / PAGE;
    assert i < size / PAGE + 1;
  }

  // ----- the map by type numbers and page numbers -----

  /** Page `p` is one of the descriptor's; page numbers wrap at 2^52. */
  predicate HasPage(d: MemoryDescriptor, p: nat) {
    p < 0x10_0000_0000_0000 && (p - d.physAddr / 4096) % 0x10_0000_0000_0000 < d.numPages
  }

  /** Page `p` is one of those locked for a bitmap at `addr` with a bit for each 4096 bytes. */
  predicate HoldsBitmap(p: nat, addr: U64, memSize: U64) {
    p < 0x10_0000_0000_0000 && (p - addr / 4096) % 0x10_0000_0000_0000 < (memSize / 32768 + 1) / 4096 + 1
  }

  /** Some descriptor other than of conventional memory (7) or of memory-mapped I/O (11, 12)
      has the page. */
  ghost predicate HeldByType(p: nat, descs: seq<MemoryDescriptor>) {
    exists k :: 0 <= k < |descs| && descs[k].kind !in {7, 11, 12} && HasPage(descs[k], p)
  }

  lemma {:induction false} FirmwareOwnedByType(p: nat, descs: seq<MemoryDescriptor>)
    ensures FirmwareOwned(p, descs) <==> HeldByType(p, descs)
  {
    forall k | 0 <= k < |descs|
      ensures descs[k].IsReserved() && InRange(p, descs[k].physAddr, descs[k].numPages)
         <==> descs[k].kind !in {7, 11, 12} && HasPage(descs[k], p)
    {
      InRangeMeans(p, descs[k].physAddr, descs[k].numPages);
    }
  }

  /** When the map is read, a counted page is marked if and only if its type says so or it
      holds the bitmap; what is marked is granted in no run that does not free it. */
  lemma {:induction false} MarkedByType(a: Ledger, descs: seq<MemoryDescriptor>, memSize: U64, addr: U64, guard: bv8, p: nat)
    requires a.Valid() && a == LedgerAfterMap(descs, memSize, addr, guard) && p < a.Pages()
    ensures a.Pages() == 8 * (memSize / 32768 + 1)
    ensures a.bits[p] <==> HeldByType(p, descs) || HoldsBitmap(p, addr, memSize)
    ensures forall es: seq<Event>, i: nat :: i < |es| && a.bits[p] && (forall k :: 0 <= k < i ==> !Frees(es[k], p)) ==>
              Grant(a, es, i) != Some(p)
  {
    assert memSize / PAGE / 8 == memSize / 32768;
    MapMarksExactly(descs, memSize, addr, guard, 0);
    MapMarksExactly(descs, memSize, addr, guard, p);
    FirmwareOwnedByType(p, descs);
    InRangeMeans(p, addr, BitmapBytes(memSize) / PAGE + 1);
    forall es: seq<Event>, i: nat | i < |es| && a.bits[p] && (forall k :: 0 <= k < i ==> !Frees(es[k], p))
      ensures Grant(a, es, i) != Some(p)
    {
      if Grant(a, es, i) == Some(p) {
        GrantsComeFrom(a, es, i, p);
      }
    }
  }

  /** So every counted page that holds a byte of a bitmap that starts on a page, the guard
      byte included, is marked. */
  lemma {:induction false} BitmapBytesAreMarked(a: Ledger, descs: seq<MemoryDescriptor>, memSize: U64, addr: U64, guard: bv8, x: nat)
    requires a.Valid() && a == LedgerAfterMap(descs, memSize, addr, guard)
    requires addr % 4096 == 0 && addr <= x <= addr + (memSize / 32768 + 1) < 0x1_0000_0000_0000_0000
    requires x / 4096 < a.Pages()
    ensures a.bits[x / 4096]
  {
    hide LedgerAfterMap, HeldByType;
    assert x / 4096 - addr / 4096 == (x - addr) / 4096;
    assert HoldsBitmap(x / 4096, addr, memSize);
    MarkedByType(a, descs, memSize, addr, guard, x / 4096);
  }

  lemma {:induction false} LockedBits(clean: Ledger, memSize: U64, addr: U64, p: nat)
    requires p < |clean.bits|
    ensures var locked := ApplyRange(clean, Lock, addr, BitmapBytes(memSize) / PAGE + 1);
            |locked.bits| == |clean.bits| && (locked.bits[p] <==> clean.bits[p] || HoldsBitmap(p, addr, memSize))
  {
    var n := BitmapBytes(memSize) / PAGE + 1;
    assert memSize / PAGE / 8 == memSize / 32768;
    RangeKeepsLength(clean, Lock, addr, n);
    RangeSetsExactlyItsPages(clean, Lock, addr, n, p);
    InRangeMeans(p, addr, n);
  }

  lemma {:induction false} LockedByNumber(clean: Ledger, memSize: U64, addr: U64, guard: bv8)
    requires clean == CleanLedger(memSize, guard)
    ensures var locked := ApplyRange(clean, Lock, addr, BitmapBytes(memSize) / PAGE + 1);
            && |locked.bits| == |clean.bits|
            && (forall p: nat :: p < |clean.bits| ==> (locked.bits[p] <==> clean.bits[p] || HoldsBitmap(p, addr, memSize)))
            && Marked(locked.bits) - Marked(clean.bits) == |set p: nat | p < |clean.bits| && !clean.bits[p] && HoldsBitmap(p, addr, memSize)|
            && Moves(clean, locked, Lock)
  {
    hide CleanLedger, ApplyRange, HoldsBitmap, Marked, Moves, BitmapBytes;
    var n := BitmapBytes(memSize) / PAGE + 1;
    var locked := ApplyRange(clean, Lock, addr, n);
    RangeKeepsLength(clean, Lock, addr, n);
    forall p: nat | p < |clean.bits|
      ensures locked.bits[p] <==> clean.bits[p] || HoldsBitmap(p, addr, memSize)
    {
      LockedBits(clean, memSize, addr, p);
    }
    RangeMovesBytes(clean, Lock, addr, n);
    MarkedGrowth(clean.bits, locked.bits, set p: nat | p < |clean.bits| && !clean.bits[p] && HoldsBitmap(p, addr, memSize));
  }

  lemma {:induction false} ReserveDescriptorsKeepLength(a: Ledger, descs: seq<MemoryDescriptor>)
    ensures |ReserveDescriptors(a, descs).bits| == |a.bits|
  {
    if descs != [] {
      var front, d := descs[..|descs| - 1], descs[|descs| - 1];
      ReserveDescriptorsKeepLength(a, front);
      RangeKeepsLength(ReserveDescriptors(a, front), Reserve, d.physAddr, d.numPages);
    }
  }

  lemma {:induction false} ReservedByNumber(locked: Ledger, descs: seq<MemoryDescriptor>)
    ensures var a := ReserveDescriptors(locked, descs);
            && |a.bits| == |locked.bits|
            && Marked(a.bits) - Marked(locked.bits) == |set p: nat | p < |locked.bits| && !locked.bits[p] && HeldByType(p, descs)|
            && Moves(locked, a, Reserve)
  {
    hide ReserveDescriptors, HeldByType, FirmwareOwned, Marked, Moves;
    var a := ReserveDescriptors(locked, descs);
    ReserveDescriptorsKeepLength(locked, descs);
    forall p: nat | p < |locked.bits|
      ensures a.bits[p] <==> locked.bits[p] || HeldByType(p, descs)
    {
      ReserveDescriptorsSetsExactly(locked, descs, p);
      FirmwareOwnedByType(p, descs);
    }
    ReserveDescriptorsMove(locked, descs);
    MarkedGrowth(locked.bits, a.bits, set p: nat | p < |locked.bits| && !locked.bits[p] && HeldByType(p, descs));
  }

  lemma {:induction false} CleanCounters(memSize: U64, guard: bv8)
    ensures var a := CleanLedger(memSize, guard);
            a.free == memSize && a.used == 0 && a.reserved == 0
  {
  }

  lemma {:induction false} TwoMoves(a: Ledger, b: Ledger, c: Ledger, used: int, reserved: int)
    requires Moves(a, b, Lock) && Moves(b, c, Reserve) && a.used == 0 && a.reserved == 0
    requires used == Marked(b.bits) - Marked(a.bits) && reserved == Marked(c.bits) - Marked(b.bits)
    ensures c.used == 4096 * used % 0x1_0000_0000_0000_0000
    ensures c.reserved == 4096 * reserved % 0x1_0000_0000_0000_0000
    ensures c.free == (a.free - 4096 * (used + reserved)) % 0x1_0000_0000_0000_0000
  {
    hide Marked;
    WrapAddsOn(a.free - 4096 * used, -4096 * reserved);
  }

  /** The counters when the map is read, modulo 2^64: 4096 bytes are used for each page that
      was clear and holds the bitmap, 4096 are reserved for each other page that was clear
      and is held by its type, and the rest of the memory size is free. */
  lemma {:induction false} CountersByType(a: Ledger, descs: seq<MemoryDescriptor>, memSize: U64, addr: U64, guard: bv8)
    requires a.Valid() && a == LedgerAfterMap(descs, memSize, addr, guard)
    ensures var clean := CleanLedger(memSize, guard).bits;
            var used := |set p: nat | p < |clean| && !clean[p] && HoldsBitmap(p, addr, memSize)|;
            var reserved := |set p: nat | p < |clean| && !clean[p] && !HoldsBitmap(p, addr, memSize) && HeldByType(p, descs)|;
            && a.used == 4096 * used % 0x1_0000_0000_0000_0000
            && a.reserved == 4096 * reserved % 0x1_0000_0000_0000_0000
            && a.free == (memSize - 4096 * (used + reserved)) % 0x1_0000_0000_0000_0000
  {
    hide CleanLedger, ApplyRange, ReserveDescriptors, Moves, Marked, HoldsBitmap, HeldByType;
    var clean := CleanLedger(memSize, guard);
    var locked := ApplyRange(clean, Lock, addr, BitmapBytes(memSize) / PAGE + 1);
    LockedByNumber(clean, memSize, addr, guard);
    ReservedByNumber(locked, descs);
    assert (set p: nat | p < |locked.bits| && !locked.bits[p] && HeldByType(p, descs))
        == set p: nat | p < |clean.bits| && !clean.bits[p] && !HoldsBitmap(p, addr, memSize) && HeldByType(p, descs);
    CleanCounters(memSize, guard);
    TwoMoves(clean, locked, a, Marked(locked.bits) - Marked(clean.bits), Marked(a.bits) - Marked(locked.bits));
  }

  // ----- which pages the map lets requestPage grant -----

  predicate InConventional(page: nat, descs: seq<MemoryDescriptor>) {
    exists i :: 0 <= i < |descs| && descs[i].IsConventional() && InRange(page, descs[i].physAddr, descs[i].numPages)
  }

  /** Pages are only handed back to where they belong. */
  ghost predicate FreesOnlyConventional(es: seq<Event>, descs: seq<MemoryDescriptor>) {
    forall k: nat, f: nat :: k < |es| && Frees(es[k], f) ==> InConventional(f, descs)
  }

  ghost predicate GrantsAreConventional(a: Ledger, descs: seq<MemoryDescriptor>)
    requires a.Valid()
  {
    forall es: seq<Event>, i: nat, page: nat ::
      i < |es| && FreesOnlyConventional(es, descs) && Grant(a, es, i) == Some(page) ==> InConventional(page, descs)
  }

  /** Every page that the bitmap counts, the few beyond the memory size included, belongs
      to a conventional descriptor, to the firmware or to the bitmap: no holes, and no
      memory-mapped I/O. */
  ghost predicate MapCovers(descs: seq<MemoryDescriptor>, addr: U64, size: nat) {
    forall page: nat {:trigger InConventional(page, descs)} :: page < 8 * size ==>
      InConventional(page, descs) || FirmwareOwned(page, descs) || InBitmapStorage(page, addr, size)
  }

  /** After the map is read, every grant of every run lies in conventional memory if and
      only if the map covers all counted pages. */
  lemma {:induction false} GrantsAreConventionalIffMapCovers(
    a: Ledger, descs: seq<MemoryDescriptor>, memSize: U64, addr: U64, guard: bv8)
    requires a.Valid() && a == LedgerAfterMap(descs, memSize, addr, guard)
    ensures GrantsAreConventional(a, descs) <==> MapCovers(descs, addr, BitmapBytes(memSize))
  {
    var size := BitmapBytes(memSize);
    forall page: nat | page < 8 * size
      ensures a.IsClear(page) <==> !FirmwareOwned(page, descs) && !InBitmapStorage(page, addr, size)
    {
      MapMarksExactly(descs, memSize, addr, guard, page);
    }
    MapMarksExactly(descs, memSize, addr, guard, 0);
    if MapCovers(descs, addr, size) {
      forall es: seq<Event>, i: nat, page: nat | i < |es| && FreesOnlyConventional(es, descs) && Grant(a, es, i) == Some(page)
        ensures InConventional(page, descs)
      {
        GrantsComeFrom(a, es, i, page);
      }
    }
    if GrantsAreConventional(a, descs) {
      forall page: nat | page < 8 * size && a.IsClear(page)
        ensures InConventional(page, descs)
      {
        var n := EveryClearPageIsGranted(a, page);
        assert FreesOnlyConventional(Requests(n + 1), descs);
      }
    }
  }

  // ----- no map is covered -----

  predicate Described(page: nat, descs: seq<MemoryDescriptor>) {
    exists i :: 0 <= i < |descs| && InRange(page, descs[i].physAddr, descs[i].numPages)
  }

  function TotalPages(descs: seq<MemoryDescriptor>): nat {
    if descs == [] then 0 else TotalPages(descs[..|descs| - 1]) + descs[|descs| - 1].numPages
  }

  /** The locked pages lie in the conventional segment that starts where the bitmap does. */
  ghost predicate BitmapFits(descs: seq<MemoryDescriptor>, addr: U64, size: nat) {
    exists i :: 0 <= i < |descs| && descs[i].IsConventional() && descs[i].physAddr == addr && size / PAGE < descs[i].numPages
  }

  lemma {:induction false} PagesOfRange(addr: U64, n: nat) returns (s: set<nat>)
    ensures |s| <= n && forall page: nat :: page in s <==> InRange(page, addr, n)
  {
    s := {};
    for i := 0 to n
      invariant |s| <= i && forall page: nat :: page in s <==> InRange(page, addr, i)
    {
      s := s + {PageOf(addr, i)};
      assert InRange(PageOf(addr, i), addr, i + 1);
    }
  }

  lemma {:induction false} PagesOfMap(descs: seq<MemoryDescriptor>) returns (s: set<nat>)
    ensures |s| <= TotalPages(descs) && forall page: nat :: page in s <==> Described(page, descs)
  {
    s := {};
    if descs != [] {
      var front, d := descs[..|descs| - 1], descs[|descs| - 1];
      var t := PagesOfMap(front);
      var r := PagesOfRange(d.physAddr, d.numPages);
      s := t + r;
      forall page: nat
        ensures page in s <==> Described(page, descs)
      {
        assert Described(page, descs) <==> Described(page, front) || InRange(page, d.physAddr, d.numPages);
      }
    }
  }

  lemma {:induction false} HoldsTheFirst(s: set<nat>, n: nat)
    requires forall p: nat :: p < n ==> p in s
    ensures |s| >= n
  {
    if n > 0 {
      HoldsTheFirst(s - {n - 1}, n - 1);
    }
  }

  /** The memory size is 4096 bytes for each page of each descriptor, modulo 2^64. */
  lemma {:induction false} BytesOfPages(descs: seq<MemoryDescriptor>)
    ensures TotalBytes(descs) == TotalPages(descs) * 4096 % 0x1_0000_0000_0000_0000
  {
    if descs != [] {
      var front := descs[..|descs| - 1];
      BytesOfPages(front);
      WrapAddsOn(TotalPages(front) * 4096, descs[|descs| - 1].numPages * 4096);
    }
  }

  lemma {:induction false} StorageIsDescribed(page: nat, descs: seq<MemoryDescriptor>, addr: U64, size: nat)
    requires BitmapFits(descs, addr, size)
    ensures InBitmapStorage(page, addr, size) ==> Described(page, descs)
  {
    if i: nat :| i < size / PAGE + 1 && PageOf(addr, i) == page {
      var k :| 0 <= k < |descs| && descs[k].IsConventional() && descs[k].physAddr == addr && size / PAGE < descs[k].numPages;
      assert InRange(page, descs[k].physAddr, descs[k].numPages);
    }
  }

  /** Whatever the map, unless its sizes add up to 2^64 bytes: the bitmap counts a page
      that no descriptor has, it is clear, and so some run is granted it. */
  lemma {:induction false} MapsAreNeverCovered(a: Ledger, descs: seq<MemoryDescriptor>, addr: U64, guard: bv8)
    returns (page: nat)
    requires TotalPages(descs) * PAGE < TWO_64 && BitmapFits(descs, addr, BitmapBytes(TotalBytes(descs)))
    requires a.Valid() && a == LedgerAfterMap(descs, TotalBytes(descs), addr, guard)
    ensures a.IsClear(page) && !Described(page, descs)
    ensures !MapCovers(descs, addr, BitmapBytes(TotalBytes(descs))) && !GrantsAreConventional(a, descs)
  {
    var size := BitmapBytes(TotalBytes(descs));
    BytesOfPages(descs);
    var s := PagesOfMap(descs);
    if forall p: nat :: p < 8 * size ==> p in s {
      HoldsTheFirst(s, 8 * size);
      assert false;
    }
    page :| page < 8 * size && page !in s;
    StorageIsDescribed(page, descs, addr, size);
    assert !InConventional(page, descs) && !FirmwareOwned(page, descs);
    MapMarksExactly(descs, TotalBytes(descs), addr, guard, page);
    GrantsAreConventionalIffMapCovers(a, descs, TotalBytes(descs), addr, guard);
  }

  // ----- the allocator object -----

  class MemDesc {
    var bitmap: BitMap
    var bitmapAddr: U64
    var free: U64
    var reserved: U64
    var used: U64
    var memSizeBytes: U64
    var initialized: bool

    ghost predicate Valid()
      reads this, bitmap
    {
      && bitmap.Valid() && 8 * bitmap.size <= 0x10_0000_0000_0000
      && (!initialized ==> reserved == 0 && used == 0)
    }

    ghost function Contents(): (a: Ledger)
      reads this, bitmap, bitmap.buffer
      requires Valid()
      ensures a.Valid()
    {
      Ledger(bitmap.Bits(), free, reserved, used)
    }

    /** The zeroed static mem_info. */
    constructor ()
      ensures Valid() && !initialized && memSizeBytes == 0
      ensures fresh(bitmap) && fresh(bitmap.buffer)
    {
      var storage := new bv8[1];
      bitmap := new BitMap(0, storage);
      bitmapAddr, free, reserved, used, memSizeBytes := 0, 0, 0, 0, 0;
      initialized := false;
    }

    method ReservePage(addr: U64)
      requires Valid() && initialized
      modifies this`free, this`reserved, bitmap.buffer
      ensures Valid() && Contents() == Apply(old(Contents()), Reserve, addr / PAGE)
    {
      hide BitMap.Bits, BitMap.GetVal;
      var index := addr / PAGE;
      if bitmap.GetVal(index) {
        return;
      }
      var ok := bitmap.SetVal(index, true);
      if ok {
        free := Wrap(free - PAGE);
        reserved := Wrap(reserved + PAGE);
      }
    }

    method FreePage(addr: U64)
      requires Valid() && initialized
      modifies this`free, this`used, bitmap.buffer
      ensures Valid() && Contents() == Apply(old(Contents()), Free, addr / PAGE)
    {
      hide BitMap.Bits, BitMap.GetVal;
      var index := addr / PAGE;
      if !bitmap.GetVal(index) {
        return;
      }
      var ok := bitmap.SetVal(index, false);
      if ok {
        free := Wrap(free + PAGE);
        used := Wrap(used - PAGE);
      }
    }

    method LockPage(addr: U64)
      requires Valid() && initialized
      modifies this`free, this`used, bitmap.buffer
      ensures Valid() && Contents() == Apply(old(Contents()), Lock, addr / PAGE)
    {
      hide BitMap.Bits, BitMap.GetVal;
      var index := addr / PAGE;
      if bitmap.GetVal(index) {
        return;
      }
      var ok := bitmap.SetVal(index, true);
      if ok {
        free := Wrap(free - PAGE);
        used := Wrap(used + PAGE);
      }
    }

    method ReservePages(addr: U64, n: nat)
      requires Valid() && initialized
      modifies this`free, this`reserved, bitmap.buffer
      ensures Valid() && Contents() == ApplyRange(old(Contents()), Reserve, addr, n)
    {
      hide Apply, BitMap.Bits;
      for i := 0 to n
        invariant Valid() && Contents() == ApplyRange(old(Contents()), Reserve, addr, i)
      {
        ghost var before := Contents();
        ReservePage(Wrap(addr + i * PAGE));
        assert Contents() == Apply(before, Reserve, PageOf(addr, i));
      }
    }

    method FreePages(addr: U64, n: nat)
      requires Valid() && initialized
      modifies this`free, this`used, bitmap.buffer
      ensures Valid() && Contents() == ApplyRange(old(Contents()), Free, addr, n)
    {
      hide Apply, BitMap.Bits;
      for i := 0 to n
        invariant Valid() && Contents() == ApplyRange(old(Contents()), Free, addr, i)
      {
        ghost var before := Contents();
        FreePage(Wrap(addr + i * PAGE));
        assert Contents() == Apply(before, Free, PageOf(addr, i));
      }
    }

    method LockPages(addr: U64, n: nat)
      requires Valid() && initialized
      modifies this`free, this`used, bitmap.buffer
      ensures Valid() && Contents() == ApplyRange(old(Contents()), Lock, addr, n)
    {
      hide Apply, BitMap.Bits;
      for i := 0 to n
        invariant Valid() && Contents() == ApplyRange(old(Contents()), Lock, addr, i)
      {
        ghost var before := Contents();
        LockPage(Wrap(addr + i * PAGE));
        assert Contents() == Apply(before, Lock, PageOf(addr, i));
      }
    }

    /** requestPage. */
    method RequestPage() returns (addr: U64)
      requires Valid() && initialized
      modifies this`free, this`used, bitmap.buffer
      ensures Valid()
      ensures Contents() == Request(old(Contents())).0
      ensures addr == AddressOf(Request(old(Contents())).1)
    {
      hide BitMap.GetVal;
      var index := 0;
      while index < bitmap.size * 8
        invariant 0 <= index <= bitmap.size * 8
        invariant Contents() == old(Contents())
        invariant LowestClear(Contents().bits, 0, Contents().Pages())
               == LowestClear(Contents().bits, index, Contents().Pages())
      {
        if bitmap.GetVal(index) {
          index := index + 1;
          continue;
        }
        LockPage(index * PAGE);
        return index * PAGE;
      }
      return 0;
    }

    /** getMemSize: the sum of all descriptors, computed once. None models the endless
        loop _descAddMemSize enters on a type above 15. */
    method GetMemSize(descs: seq<MemoryDescriptor>) returns (size: Option<U64>)
      requires Valid()
      modifies this`memSizeBytes
      ensures Valid()
      ensures old(memSizeBytes) > 0 ==> size == Some(old(memSizeBytes)) && memSizeBytes == old(memSizeBytes)
      ensures old(memSizeBytes) == 0 ==>
                && (size.None? <==> exists i :: 0 <= i < |descs| && descs[i].kind > 15)
                && (size.Some? ==> size.value == memSizeBytes == TotalBytes(descs))
    {
      if memSizeBytes > 0 {
        return Some(memSizeBytes);
      }
      for i := 0 to |descs|
        invariant memSizeBytes == TotalBytes(descs[..i])
        invariant forall j :: 0 <= j < i ==> descs[j].kind <= 15
      {
        if descs[i].kind > 15 {
          return None;
        }
        assert descs[..i + 1][..i] == descs[..i];
        memSizeBytes := Wrap(memSizeBytes + descs[i].numPages * PAGE);
      }
      assert descs[..|descs|] == descs;
      return Some(memSizeBytes);
    }

    method LargestSegment(descs: seq<MemoryDescriptor>) returns (addr: U64)
      ensures IsLargestSegment(descs, addr)
    {
      var largest: U64 := 0;
      ghost var at := 0;
      addr := 0;
      for i := 0 to |descs|
        invariant forall j :: 0 <= j < i && descs[j].IsConventional() ==> descs[j].Bytes() <= largest
        invariant largest == 0 ==> addr == 0
        invariant largest > 0 ==>
                    && 0 <= at < i && descs[at].IsConventional() && descs[at].Bytes() == largest
                    && descs[at].physAddr == addr
                    && forall j :: 0 <= j < at && descs[j].IsConventional() ==> descs[j].Bytes() < largest
      {
        if descs[i].IsConventional() && descs[i].Bytes() > largest {
          addr, largest, at := descs[i].physAddr, descs[i].Bytes(), i;
        }
      }
      if largest > 0 {
        assert IsFirstLargest(descs, at);
      }
    }

    /** PGinitBitMap: zero `size` bytes at `addr`. */
    method InitBitMap(size: nat, addr: U64, guard: bv8)
      requires size == BitmapBytes(free) && reserved == 0 && used == 0 && initialized
      modifies this`bitmap, this`bitmapAddr
      ensures Valid() && fresh(bitmap) && fresh(bitmap.buffer)
      ensures bitmap.size == size && bitmapAddr == addr
      ensures Contents() == CleanLedger(free, guard)
    {
      var storage := new bv8[size + 1];
      storage[size] := guard;
      for i := 0 to size
        invariant storage[size] == guard
        invariant forall j :: 0 <= j < i ==> storage[j] == 0
      {
        storage[i] := 0;
      }
      assert storage[..size + 1] == seq(size, _ => 0 as bv8) + [guard];
      bitmap := new BitMap(size, storage);
      bitmapAddr := addr;
    }

    /** _doForAllMMapDesc with _descReservePage. */
    method ReserveFirmwarePages(descs: seq<MemoryDescriptor>)
      requires Valid() && initialized
      modifies this`free, this`reserved, bitmap.buffer
      ensures Valid() && Contents() == ReserveDescriptors(old(Contents()), descs)
    {
      for i := 0 to |descs|
        invariant Valid() && Contents() == ReserveDescriptors(old(Contents()), descs[..i])
      {
        assert descs[..i + 1][..i] == descs[..i];
        if descs[i].IsReserved() {
          ReservePages(descs[i].physAddr, descs[i].numPages);
        }
      }
      assert descs[..|descs|] == descs;
    }

    /** The rest of readEFIMemoryMap once the memory size is known. */
    method BuildBitMap(descs: seq<MemoryDescriptor>, memSize: U64, segment: U64, guard: bv8)
      requires Valid() && initialized && reserved == 0 && used == 0
      modifies this`bitmap, this`bitmapAddr, this`free, this`used, this`reserved
      ensures Valid() && fresh(bitmap) && fresh(bitmap.buffer)
      ensures bitmap.size == BitmapBytes(memSize) && bitmapAddr == segment
      ensures Contents() == LedgerAfterMap(descs, memSize, segment, guard)
    {
      hide CleanLedger, ApplyRange, ReserveDescriptors, BitMap.Bits;
      free := memSize;
      InitBitMap(BitmapBytes(memSize), segment, guard);
      ghost var clean := Contents();
      LockPages(bitmapAddr, bitmap.size / PAGE + 1);
      ghost var locked := Contents();
      assert locked == ApplyRange(clean, Lock, segment, BitmapBytes(memSize) / PAGE + 1);
      ReserveFirmwarePages(descs);
      assert Contents() == ReserveDescriptors(locked, descs);
    }

    /** readEFIMemoryMap; `guard` is what memory holds just past the bitmap. */
    method ReadEFIMemoryMap(descs: seq<MemoryDescriptor>, guard: bv8) returns (done: bool)
      requires Valid()
      modifies this
      ensures Valid()
      ensures old(initialized) ==> done && unchanged(this)
      ensures !old(initialized) && done ==>
                && initialized && fresh(bitmap) && fresh(bitmap.buffer)
                && memSizeBytes == (if old(memSizeBytes) > 0 then old(memSizeBytes) else TotalBytes(descs))
                && IsLargestSegment(descs, bitmapAddr)
                && bitmap.size == BitmapBytes(memSizeBytes)
                && Contents() == LedgerAfterMap(descs, memSizeBytes, bitmapAddr, guard)
      ensures done <==> old(initialized) || old(memSizeBytes) > 0 || forall i :: 0 <= i < |descs| ==> descs[i].kind <= 15
    {
      if initialized {
        return true;
      }
      initialized := true;
      var segment := LargestSegment(descs);
      var memSize := GetMemSize(descs);
      if memSize.None? {
        return false;
      }
      BuildBitMap(descs, memSize.value, segment, guard);
      return true;
    }
  }
}
