/**
 What the page allocator of kernel/uefi/mem.c promises, on values. A ledger is the
 unpacked bitmap (one boolean per page frame, then the eight guard bits) and the
 three byte counters, which wrap at 2^64 as uint64_t does.
 */
module PageLedger {
  import opened Words

  const PAGE := 4096

  datatype PageOp = Lock | Reserve | Free

  datatype Ledger = Ledger(bits: seq<bool>, free: U64, reserved: U64, used: U64) {
    /** The number of page frames the bitmap counts: all but the guard byte's. */
    function Pages(): int {
      |bits| - 8
    }

    /** The guard byte is there, and every counted page has a 64-bit address. */
    ghost predicate Valid() {
      8 <= |bits| <= 0x10_0000_0000_0008
    }

    ghost predicate IsClear(page: nat) {
      page < Pages() && !bits[page]
    }
  }

  // ----- the operations -----

  /** _LockPage, _ReservePage and _FreePage: a page that is already in the wanted
      state, or that the bitmap does not reach, changes nothing. */
  function Apply(a: Ledger, op: PageOp, page: nat): Ledger {
    if page >= |a.bits| || a.bits[page] == (op != Free) then
      a
    else
      var bits := a.bits[page := op != Free];
      match op
      case Lock => a.(bits := bits, free := Wrap(a.free - PAGE), used := Wrap(a.used + PAGE))
      case Reserve => a.(bits := bits, free := Wrap(a.free - PAGE), reserved := Wrap(a.reserved + PAGE))
      case Free => a.(bits := bits, free := Wrap(a.free + PAGE), used := Wrap(a.used - PAGE))
  }

  /** The frame of the i-th page from `addr`, in wrapping pointer arithmetic. */
  function PageOf(addr: U64, i: nat): nat {
    Wrap(addr + i * PAGE) / PAGE
  }

  predicate InRange(page: nat, addr: U64, n: nat) {
    exists i: nat :: i < n && PageOf(addr, i) == page
  }

  /** lockPages, ReservePages and freePages. */
  function ApplyRange(a: Ledger, op: PageOp, addr: U64, n: nat): Ledger {
    if n == 0 then a else Apply(ApplyRange(a, op, addr, n - 1), op, PageOf(addr, n - 1))
  }

  /** The first clear bit at or after `from`. */
  function LowestClear(bits: seq<bool>, from: nat, limit: nat): (r: Option<nat>)
    requires from <= limit <= |bits|
    ensures r.None? ==> forall i :: from <= i < limit ==> bits[i]
    ensures r.Some? ==> from <= r.value < limit && !bits[r.value]
    ensures r.Some? ==> forall i :: from <= i < r.value ==> bits[i]
    decreases limit - from
  {
    if from == limit then None
    else if !bits[from] then Some(from)
    else LowestClear(bits, from + 1, limit)
  }

  /** requestPage: the page granted, and the ledger with that page locked. */
  function Request(a: Ledger): (r: (Ledger, Option<nat>))
    requires a.Valid()
  {
    var page := LowestClear(a.bits, 0, a.Pages());
    match page
    case None => (a, None)
    case Some(p) => (Apply(a, Lock, p), page)
  }

  /** The pointer requestPage returns: NULL stands for failure and for page 0. */
  function AddressOf(page: Option<nat>): int {
    match page
    case None => 0
    case Some(p) => p * PAGE
  }

  /** A grant is the lowest clear page, only its bit changes, and failure means that
      no page is clear. */
  lemma {:induction false} RequestGrantsLowestClear(a: Ledger)
    requires a.Valid()
    ensures var (b, page) := Request(a);
            && (page.None? <==> forall p: nat :: !a.IsClear(p))
            && (page.None? ==> b == a)
            && (page.Some? ==> a.IsClear(page.value) && b.bits == a.bits[page.value := true])
            && (page.Some? ==> forall p: nat :: p < page.value ==> !a.IsClear(p))
  {
    var page := Request(a).1;
    if page.Some? {
      assert a.IsClear(page.value);
    }
  }

  /** The returned pointer tells a grant from a failure exactly when page 0 is taken. */
  lemma {:induction false} NullMeansFailureIffPageZeroTaken(a: Ledger)
    requires a.Valid()
    ensures (AddressOf(Request(a).1) == 0 <==> Request(a).1.None?) <==> !a.IsClear(0)
  {
    RequestGrantsLowestClear(a);
  }

  // ----- counting -----

  function Marked(bits: seq<bool>): (n: nat)
    ensures n <= |bits|
  {
    if bits == [] then 0
    else Marked(bits[..|bits| - 1]) + if bits[|bits| - 1] then 1 else 0
  }

  /** Frames requestPage can still grant. */
  function FreeFrames(a: Ledger): nat
    requires a.Valid()
  {
    a.Pages() - Marked(a.bits[..a.Pages()])
  }

  lemma {:induction false} MarkedAfterUpdate(bits: seq<bool>, i: nat, value: bool)
    requires i < |bits|
    ensures Marked(bits[i := value])
         == Marked(bits) + (if value then 1 else 0) - (if bits[i] then 1 else 0)
  {
    var last := |bits| - 1;
    if i == last {
      assert bits[i := value][..last] == bits[..last];
    } else {
      assert bits[i := value][..last] == bits[..last][i := value];
      MarkedAfterUpdate(bits[..last], i, value);
    }
  }

  lemma {:induction false} MarkedSplits(bits: seq<bool>, k: nat)
    requires k <= |bits|
    ensures Marked(bits) == Marked(bits[..k]) + Marked(bits[k..])
  {
    var last := |bits| - 1;
    if k == |bits| {
      assert bits[..k] == bits;
    } else {
      MarkedSplits(bits[..last], k);
      assert bits[..last][..k] == bits[..k];
      assert bits[k..][..|bits[k..]| - 1] == bits[..last][k..];
    }
  }

  lemma {:induction false} AllMarked(bits: seq<bool>)
    requires forall i :: 0 <= i < |bits| ==> bits[i]
    ensures Marked(bits) == |bits|
  {
    if bits != [] {
      AllMarked(bits[..|bits| - 1]);
    }
  }

  lemma {:induction false} RequestTakesOneFrame(a: Ledger)
    requires a.Valid()
    ensures Request(a).1.Some? <==> FreeFrames(a) > 0
    ensures Request(a).1.Some? ==> FreeFrames(Request(a).0) == FreeFrames(a) - 1
  {
    var page := Request(a).1;
    var counted := a.bits[..a.Pages()];
    if page.Some? {
      assert Request(a).0.bits[..a.Pages()] == counted[page.value := true];
      MarkedAfterUpdate(counted, page.value, true);
    } else {
      AllMarked(counted);
    }
  }

  // ----- runs -----

  datatype Event = OnRange(op: PageOp, addr: U64, n: nat) | RequestPage

  lemma {:induction false} RangeKeepsLength(a: Ledger, op: PageOp, addr: U64, n: nat)
    ensures |ApplyRange(a, op, addr, n).bits| == |a.bits|
  {
    if n > 0 {
      RangeKeepsLength(a, op, addr, n - 1);
    }
  }

  function Step(a: Ledger, e: Event): Ledger
    requires a.Valid()
    ensures Step(a, e).Valid() && |Step(a, e).bits| == |a.bits|
  {
    match e
    case OnRange(op, addr, n) => RangeKeepsLength(a, op, addr, n); ApplyRange(a, op, addr, n)
    case RequestPage => Request(a).0
  }

  function Run(a: Ledger, es: seq<Event>): (b: Ledger)
    requires a.Valid()
    ensures b.Valid() && |b.bits| == |a.bits|
  {
    if es == [] then a else Step(Run(a, es[..|es| - 1]), es[|es| - 1])
  }

  /** Every byte of memory is free, used or reserved, and the taken bytes are 4096 for
      each set bit beyond the `guard` bits that were set from the start. */
  ghost predicate Accounts(a: Ledger, total: U64, guard: nat) {
    && Wrap(a.free + a.used + a.reserved) == total
    && Wrap(a.used + a.reserved) == Wrap(PAGE * (Marked(a.bits) - guard))
  }

  /** Moving `d` bytes from one wrapping counter to another keeps their sum, and keeps
      the taken bytes in step with a count `m` of marked bytes that grows by `d`. */
  lemma {:induction false} MovingBytes(from: U64, to: U64, other: U64, m: int, d: int)
    requires Wrap(to + other) == Wrap(m)
    ensures Wrap(Wrap(from - d) + Wrap(to + d) + other) == Wrap(from + to + other)
    ensures Wrap(Wrap(to + d) + other) == Wrap(m + d)
  {
    WrapAbsorbs(from - d, Wrap(to + d) + other);
    WrapAbsorbs(to + d, from - d + other);
    WrapAbsorbs(to + d, other);
    WrapShifts(to + other, m, d);
    assert from - d + (Wrap(to + d) + other) == Wrap(to + d) + (from - d + other);
  }

  lemma {:induction false} ApplyMarksOne(a: Ledger, op: PageOp, page: nat)
    requires Apply(a, op, page) != a
    ensures Marked(Apply(a, op, page).bits) == Marked(a.bits) + if op == Free then -1 else 1
  {
    MarkedAfterUpdate(a.bits, page, op != Free);
  }

  /** Locking moves 4096 bytes from free to used for each page that was clear, reserving
      from free to reserved, and freeing from used to free for each page that was set. */
  ghost predicate Moves(a: Ledger, b: Ledger, op: PageOp) {
    var d := 4096 * (Marked(b.bits) - Marked(a.bits));
    && b.free == (a.free - d) % 0x1_0000_0000_0000_0000
    && (if op == Free then d <= 0 else d >= 0)
    && (op != Reserve ==> b.reserved == a.reserved && b.used == (a.used + d) % 0x1_0000_0000_0000_0000)
    && (op == Reserve ==> b.used == a.used && b.reserved == (a.reserved + d) % 0x1_0000_0000_0000_0000)
  }

  lemma {:induction false} WrapAddsOn(x: int, k: int)
    ensures Wrap(x % 0x1_0000_0000_0000_0000 + k) == (x + k) % 0x1_0000_0000_0000_0000
  {
    WrapAbsorbs(x, k);
  }

  /** One page, in whichever direction. */
  lemma {:induction false} ApplyMoves(b: Ledger, op: PageOp, page: nat)
    requires Apply(b, op, page) != b
    ensures var c, e := Apply(b, op, page), if op == Free then -4096 else 4096;
            && 4096 * (Marked(c.bits) - Marked(b.bits)) == e && c.free == Wrap(b.free - e)
            && if op == Reserve then c.used == b.used && c.reserved == Wrap(b.reserved + e)
               else c.reserved == b.reserved && c.used == Wrap(b.used + e)
  {
    ApplyMarksOne(b, op, page);
  }

  lemma {:induction false} MovesOneMore(a: Ledger, b: Ledger, op: PageOp, page: nat)
    requires Moves(a, b, op)
    ensures Moves(a, Apply(b, op, page), op)
  {
    hide Marked, Wrap, Apply;
    if Apply(b, op, page) != b {
      ApplyMoves(b, op, page);
      var d, e := 4096 * (Marked(b.bits) - Marked(a.bits)), if op == Free then -4096 else 4096;
      WrapAddsOn(a.free - d, -e);
      if op == Reserve {
        WrapAddsOn(a.reserved + d, e);
      } else {
        WrapAddsOn(a.used + d, e);
      }
    }
  }

  lemma {:induction false} NothingMoves(a: Ledger, op: PageOp)
    ensures Moves(a, a, op)
  {
  }

  lemma {:induction false} MovesCompose(a: Ledger, b: Ledger, c: Ledger, op: PageOp)
    requires Moves(a, b, op) && Moves(b, c, op)
    ensures Moves(a, c, op)
  {
    hide Marked;
    var d, e := 4096 * (Marked(b.bits) - Marked(a.bits)), 4096 * (Marked(c.bits) - Marked(b.bits));
    WrapAddsOn(a.free - d, -e);
    WrapAddsOn(a.used + d, e);
    WrapAddsOn(a.reserved + d, e);
  }

  lemma {:induction false} RangeMovesBytes(a: Ledger, op: PageOp, addr: U64, n: nat)
    ensures Moves(a, ApplyRange(a, op, addr, n), op)
  {
    hide Moves;
    if n == 0 {
      NothingMoves(a, op);
    } else {
      RangeMovesBytes(a, op, addr, n - 1);
      MovesOneMore(a, ApplyRange(a, op, addr, n - 1), op, PageOf(addr, n - 1));
    }
  }

  lemma {:induction false} MovesInWords(a: Ledger, b: Ledger, op: PageOp, d: int)
    requires Moves(a, b, op) && d == 4096 * (Marked(b.bits) - Marked(a.bits))
    ensures b.free == Wrap(a.free - d)
    ensures if op == Reserve then b.used == a.used && b.reserved == Wrap(a.reserved + d)
            else b.reserved == a.reserved && b.used == Wrap(a.used + d)
  {
  }

  lemma {:induction false} MovingKeepsAccounts(a: Ledger, b: Ledger, op: PageOp, total: U64, guard: nat)
    requires Moves(a, b, op) && Accounts(a, total, guard)
    ensures Accounts(b, total, guard)
  {
    hide Marked, Wrap, Moves;
    var m, d := PAGE * (Marked(a.bits) - guard), 4096 * (Marked(b.bits) - Marked(a.bits));
    MovesInWords(a, b, op, d);
    assert PAGE * (Marked(b.bits) - guard) == m + d;
    if op == Reserve {
      MovingBytes(a.free, a.reserved, a.used, m, d);
    } else {
      MovingBytes(a.free, a.used, a.reserved, m, d);
    }
  }

  lemma {:induction false} RangeKeepsAccounts(a: Ledger, op: PageOp, addr: U64, n: nat, total: U64, guard: nat)
    requires Accounts(a, total, guard)
    ensures Accounts(ApplyRange(a, op, addr, n), total, guard)
  {
    RangeMovesBytes(a, op, addr, n);
    MovingKeepsAccounts(a, ApplyRange(a, op, addr, n), op, total, guard);
  }

  /** Conservation over every run of lock, reserve, free and request. */
  lemma {:induction false} RunKeepsAccounts(a: Ledger, es: seq<Event>, total: U64, guard: nat)
    requires a.Valid() && Accounts(a, total, guard)
    ensures Accounts(Run(a, es), total, guard)
  {
    if es != [] {
      var b, e := Run(a, es[..|es| - 1]), es[|es| - 1];
      RunKeepsAccounts(a, es[..|es| - 1], total, guard);
      match e
      case OnRange(op, addr, n) => RangeKeepsAccounts(b, op, addr, n, total, guard);
      case RequestPage =>
        if Request(b).1.Some? {
          NothingMoves(b, Lock);
          MovesOneMore(b, b, Lock, Request(b).1.value);
          MovingKeepsAccounts(b, Request(b).0, Lock, total, guard);
        }
    }
  }

  lemma {:induction false} SmallShiftShows(x: int, d: int)
    requires -TWO_64 < d < TWO_64
    ensures Wrap(x + d) == Wrap(x) <==> d == 0
  {
    if Wrap(x + d) == Wrap(x) {
      var q, r := (x + d) / TWO_64, x / TWO_64;
      assert d == TWO_64 * (q - r);
    }
  }

  /** The counters agree with the counted pages alone exactly when the guard byte holds
      as many set bits as it started with. */
  lemma {:induction false} CountedPagesAgreeIffGuardUnchanged(a: Ledger, total: U64, guard: nat)
    requires a.Valid() && Accounts(a, total, guard) && guard <= 8
    ensures Wrap(a.used + a.reserved) == Wrap(PAGE * Marked(a.bits[..a.Pages()]))
       <==> Marked(a.bits[a.Pages()..]) == guard
  {
    MarkedSplits(a.bits, a.Pages());
    var extra := Marked(a.bits[a.Pages()..]) - guard;
    SmallShiftShows(PAGE * Marked(a.bits[..a.Pages()]), PAGE * extra);
    assert PAGE * (Marked(a.bits) - guard) == PAGE * Marked(a.bits[..a.Pages()]) + PAGE * extra;
  }

  lemma {:induction false} OneCounterFromTheSum(used: U64, reserved: int, m: int)
    requires Wrap(used + reserved) == Wrap(m)
    ensures used == Wrap(m - reserved)
  {
    WrapShifts(used + reserved, m, -reserved);
  }

  lemma {:induction false} RangeKeepsReserved(a: Ledger, op: PageOp, addr: U64, n: nat)
    requires op != Reserve
    ensures ApplyRange(a, op, addr, n).reserved == a.reserved
  {
    if n > 0 {
      RangeKeepsReserved(a, op, addr, n - 1);
    }
  }

  lemma {:induction false} RunKeepsReserved(a: Ledger, es: seq<Event>)
    requires a.Valid() && forall k :: 0 <= k < |es| && es[k].OnRange? ==> es[k].op != Reserve
    ensures Run(a, es).reserved == a.reserved
  {
    if es != [] {
      var front, e := es[..|es| - 1], es[|es| - 1];
      RunKeepsReserved(a, front);
      if e.OnRange? {
        RangeKeepsReserved(Run(a, front), e.op, e.addr, e.n);
      }
    }
  }

  /** Only reserving moves bytes to or from the reserved counter, so in runs without it
      the used counter alone follows the set bits. */
  lemma {:induction false} UsedFollowsLocking(a: Ledger, es: seq<Event>, total: U64, guard: nat)
    requires a.Valid() && Accounts(a, total, guard)
    requires forall k :: 0 <= k < |es| && es[k].OnRange? ==> es[k].op != Reserve
    ensures Run(a, es).reserved == a.reserved
    ensures Run(a, es).used == Wrap(PAGE * (Marked(Run(a, es).bits) - guard) - a.reserved)
  {
    RunKeepsReserved(a, es);
    RunKeepsAccounts(a, es, total, guard);
    hide Run, Marked;
    OneCounterFromTheSum(Run(a, es).used, a.reserved, PAGE * (Marked(Run(a, es).bits) - guard));
  }

  ghost predicate Touches(e: Event, page: nat) {
    e.OnRange? && InRange(page, e.addr, e.n)
  }

  ghost predicate Frees(e: Event, page: nat) {
    Touches(e, page) && e.op == Free
  }

  lemma {:induction false} RangeSetsExactlyItsPages(a: Ledger, op: PageOp, addr: U64, n: nat, page: nat)
    requires page < |a.bits|
    ensures |ApplyRange(a, op, addr, n).bits| == |a.bits|
    ensures ApplyRange(a, op, addr, n).bits[page]
         == if InRange(page, addr, n) then op != Free else a.bits[page]
  {
    if n > 0 {
      RangeSetsExactlyItsPages(a, op, addr, n - 1, page);
      assert InRange(page, addr, n) <==> InRange(page, addr, n - 1) || PageOf(addr, n - 1) == page by {
        assert PageOf(addr, n - 1) == page ==> n - 1 < n;
      }
    }
  }

  lemma {:induction false} StepKeepsMarked(a: Ledger, e: Event, page: nat)
    requires a.Valid() && page < |a.bits| && a.bits[page] && !Frees(e, page)
    ensures Step(a, e).bits[page]
  {
    if e.OnRange? {
      RangeSetsExactlyItsPages(a, e.op, e.addr, e.n, page);
    }
  }

  /** What the i-th event of a run was granted. */
  function Grant(a: Ledger, es: seq<Event>, i: nat): Option<nat>
    requires a.Valid() && i < |es|
  {
    if es[i].RequestPage? then Request(Run(a, es[..i])).1 else None
  }

  lemma {:induction false} HeldUntilFreed(a: Ledger, es: seq<Event>, i: nat, j: nat, page: nat)
    requires a.Valid() && i < j <= |es| && Grant(a, es, i) == Some(page)
    requires forall k :: i < k < j ==> !Frees(es[k], page)
    ensures page < |a.bits| && Run(a, es[..j]).bits[page]
  {
    assert es[..j][..j - 1] == es[..j - 1];
    if i == j - 1 {
      RequestGrantsLowestClear(Run(a, es[..i]));
    } else {
      HeldUntilFreed(a, es, i, j - 1, page);
      StepKeepsMarked(Run(a, es[..j - 1]), es[j - 1], page);
    }
  }

  /** No page is granted twice without having been freed in between, in any run. */
  lemma {:induction false} NeverGrantedTwice(a: Ledger, es: seq<Event>, i: nat, j: nat, page: nat)
    requires a.Valid() && i < j < |es|
    requires Grant(a, es, i) == Some(page) && Grant(a, es, j) == Some(page)
    ensures exists k :: i < k < j && Frees(es[k], page)
  {
    if forall k :: i < k < j ==> !Frees(es[k], page) {
      HeldUntilFreed(a, es, i, j, page);
      RequestGrantsLowestClear(Run(a, es[..j]));
      assert false;
    }
  }

  /** Runs that never name a guard page leave the guard bits alone; requests never do. */
  lemma {:induction false} GuardKeptUnlessNamed(a: Ledger, es: seq<Event>, page: nat)
    requires a.Valid() && a.Pages() <= page < |a.bits|
    requires forall k :: 0 <= k < |es| ==> !Touches(es[k], page)
    ensures Run(a, es).bits[page] == a.bits[page]
  {
    if es != [] {
      GuardKeptUnlessNamed(a, es[..|es| - 1], page);
      var b, e := Run(a, es[..|es| - 1]), es[|es| - 1];
      if e.OnRange? {
        RangeSetsExactlyItsPages(b, e.op, e.addr, e.n, page);
      } else {
        RequestGrantsLowestClear(b);
      }
    }
  }

  // ----- which pages can be granted -----

  lemma {:induction false} MarkedUnlessFreed(a: Ledger, es: seq<Event>, page: nat)
    requires a.Valid() && page < |a.bits| && a.bits[page]
    requires forall k :: 0 <= k < |es| ==> !Frees(es[k], page)
    ensures Run(a, es).bits[page]
  {
    if es != [] {
      MarkedUnlessFreed(a, es[..|es| - 1], page);
      StepKeepsMarked(Run(a, es[..|es| - 1]), es[|es| - 1], page);
    }
  }

  /** A page is granted only if it was clear at the start or was freed since. */
  lemma {:induction false} GrantsComeFrom(a: Ledger, es: seq<Event>, i: nat, page: nat)
    requires a.Valid() && i < |es| && Grant(a, es, i) == Some(page)
    ensures a.IsClear(page) || exists k :: 0 <= k < i && Frees(es[k], page)
  {
    RequestGrantsLowestClear(Run(a, es[..i]));
    if page < |a.bits| && a.bits[page] && forall k :: 0 <= k < i ==> !Frees(es[k], page) {
      MarkedUnlessFreed(a, es[..i], page);
    }
  }

  function Requests(n: nat): (es: seq<Event>)
    ensures |es| == n && forall k :: 0 <= k < n ==> es[k] == RequestPage
  {
    if n == 0 then [] else Requests(n - 1) + [RequestPage]
  }

  lemma {:induction false} RunFromFront(a: Ledger, e: Event, es: seq<Event>)
    requires a.Valid()
    ensures Run(a, [e] + es) == Run(Step(a, e), es)
  {
    if es == [] {
      assert [e] + es == [e] && [e][..0] == [];
    } else {
      assert ([e] + es)[..|es|] == [e] + es[..|es| - 1];
      RunFromFront(a, e, es[..|es| - 1]);
    }
  }

  /** Every clear page is granted in the end, if pages are only requested. */
  lemma {:induction false} EveryClearPageIsGranted(a: Ledger, page: nat) returns (n: nat)
    requires a.Valid() && a.IsClear(page)
    ensures Grant(a, Requests(n + 1), n) == Some(page)
    decreases FreeFrames(a)
  {
    RequestGrantsLowestClear(a);
    RequestTakesOneFrame(a);
    var b := Request(a).0;
    if Request(a).1 == Some(page) {
      n := 0;
    } else {
      var k := EveryClearPageIsGranted(b, page);
      n := k + 1;
      assert Requests(k + 1)[..k] == Requests(k);
      assert [RequestPage] + Requests(k) == Requests(n);
      RunFromFront(a, RequestPage, Requests(k));
    }
    assert Requests(n + 1)[..n] == Requests(n);
  }

  // ----- the operations in numbers -----

  lemma {:induction false} PageOfMeans(addr: U64, i: nat)
    ensures PageOf(addr, i) == (addr / 4096 + i) % 0x10_0000_0000_0000
  {
    var x, q := addr / 4096 + i, addr % 4096;
    var k, r := x / 0x10_0000_0000_0000, x % 0x10_0000_0000_0000;
    assert addr + i * PAGE == k * TWO_64 + (4096 * r + q);
    WrapDropsMultiples(addr + i * PAGE, k);
    assert Wrap(addr + i * PAGE) == 4096 * r + q;
  }

  lemma {:induction false} Distance(page: nat, first: nat, i: nat)
    requires page == (first + i) % 0x10_0000_0000_0000
    ensures (page - first) % 0x10_0000_0000_0000 <= i
  {
    var q := (first + i) / 0x10_0000_0000_0000;
    assert page - first == i - q * 0x10_0000_0000_0000;
    var d := (page - first) % 0x10_0000_0000_0000;
    var e := (page - first) / 0x10_0000_0000_0000;
    assert i == d + (q + e) * 0x10_0000_0000_0000;
  }

  lemma {:induction false} DistanceLeads(page: nat, first: nat)
    requires page < 0x10_0000_0000_0000
    ensures (first + (page - first) % 0x10_0000_0000_0000) % 0x10_0000_0000_0000 == page
  {
    var q := (page - first) / 0x10_0000_0000_0000;
    assert first + (page - first) % 0x10_0000_0000_0000 == page - q * 0x10_0000_0000_0000;
  }

  /** The pages of a range: n of them from the page of its address on, wrapping at 2^52. */
  lemma {:induction false} InRangeMeans(page: nat, addr: U64, n: nat)
    ensures InRange(page, addr, n)
       <==> page < 0x10_0000_0000_0000 && (page - addr / 4096) % 0x10_0000_0000_0000 < n
  {
    hide PageOf;
    var first := addr / 4096;
    if InRange(page, addr, n) {
      var i: nat :| i < n && PageOf(addr, i) == page;
      PageOfMeans(addr, i);
      Distance(page, first, i);
    }
    var d := (page - first) % 0x10_0000_0000_0000;
    if page < 0x10_0000_0000_0000 && d < n {
      PageOfMeans(addr, d);
      DistanceLeads(page, first);
      assert PageOf(addr, d) == page;
    }
  }

  /** The count of bits that were set in between. */
  lemma {:induction false} MarkedGrowth(s: seq<bool>, t: seq<bool>, grown: set<nat>)
    requires |s| == |t| && forall k :: 0 <= k < |s| && s[k] ==> t[k]
    requires forall k: nat :: (k in grown) == (k < |s| && t[k] && !s[k])
    ensures Marked(t) - Marked(s) == |grown|
    decreases grown
  {
    if grown == {} {
      assert s == t;
    } else {
      var k :| k in grown;
      hide Marked;
      MarkedAfterUpdate(s, k, true);
      MarkedGrowth(s[k := true], t, grown - {k});
    }
  }
}
