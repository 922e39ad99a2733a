/** Whole runs of the page-table builder and the allocator it draws from. */
module PagingRuns {
  import opened Words
  import opened PageLedger
  import opened PageTables

  // ----- exactly when one mapping is sound -----

  /** A mapping is sound if the tables still form a tree, the page's tables exist, and
      every table that was added is a frame that nobody owned. */
  ghost predicate SoundMap(m: Machine, keep: set<nat>, page: Path, frame: Frame)
    requires m.ledger.Valid() && IsPage(page)
  {
    var n := MapPage(m, page, frame);
    && Tree(View(n), keep)
    && (forall x: Path :: OnWay(x, page.parent) ==> Depth(x) <= 3 && Lookup(View(n), x).Some?)
    && (forall x: Path, t: Frame :: TableAt(View(n), x, t) ==> TableAt(View(m), x, t) || m.ledger.IsClear(t))
  }

  /** The frames b uses for the tables that a lacks on the way to `q`. */
  ghost function AddedFrames(a: Space, b: Space, q: Path): set<nat>
    requires Total(a) && Total(b) && Depth(q) <= 3
    requires forall x: Path :: OnWay(x, q) ==> Depth(x) <= 3 && Lookup(b, x).Some?
  {
    if q.Root? then {}
    else
      assert OnWay(q, q) && forall x: Path :: OnWay(x, q.parent) ==> OnWay(x, q);
      AddedFrames(a, b, q.parent) + if Lookup(a, q).None? then {Lookup(b, q).value} else {}
  }

  lemma {:induction false} AddedFramesAreDistinct(a: Space, b: Space, keep: set<nat>, q: Path)
    requires Total(a) && Tree(b, keep) && Depth(q) <= 3
    requires forall x: Path :: OnWay(x, q) ==> Depth(x) <= 3 && Lookup(b, x).Some?
    ensures |AddedFrames(a, b, q)| == Missing(a, q)
    ensures forall t :: t in AddedFrames(a, b, q) ==>
              exists x: Path :: OnWay(x, q) && Lookup(a, x).None? && TableAt(b, x, t)
  {
    if q.Sub? {
      assert OnWay(q, q) && forall x: Path :: OnWay(x, q.parent) ==> OnWay(x, q);
      AddedFramesAreDistinct(a, b, keep, q.parent);
      if Lookup(a, q).None? {
        var t := Lookup(b, q).value;
        assert TableAt(b, q, t);
        if t in AddedFrames(a, b, q.parent) {
          var x: Path :| OnWay(x, q.parent) && TableAt(b, x, t);
          OnWayIsNoDeeper(x, q.parent);
          assert false;
        }
      }
    }
  }

  /** A set of clear frames is no larger than the number of free frames. */
  lemma {:induction false} ClearSetFits(a: Ledger, s: set<nat>)
    requires a.Valid() && forall t :: t in s ==> a.IsClear(t)
    ensures |s| <= FreeFrames(a)
    decreases s
  {
    if s != {} {
      var t :| t in s;
      var b := a.(bits := a.bits[t := true]);
      var counted := a.bits[..a.Pages()];
      assert b.bits[..b.Pages()] == counted[t := true];
      MarkedAfterUpdate(counted, t, true);
      ClearSetFits(b, s - {t});
    }
  }

  lemma {:induction false} AddedFramesAreClear(a: Space, b: Space, q: Path)
    requires Total(a) && Total(b) && Depth(q) <= 3
    requires forall x: Path :: OnWay(x, q) ==> Depth(x) <= 3 && Lookup(b, x).Some?
    requires forall x: Path, t: Frame :: TableAt(b, x, t) ==> TableAt(a, x, t) || a.ledger.IsClear(t)
    ensures forall t :: t in AddedFrames(a, b, q) ==> a.ledger.IsClear(t)
  {
    if q.Sub? {
      assert OnWay(q, q) && forall x: Path :: OnWay(x, q.parent) ==> OnWay(x, q);
      AddedFramesAreClear(a, b, q.parent);
      assert TableAt(b, q, Lookup(b, q).value);
    }
  }

  lemma {:induction false} AddedTablesNeedFrames(a: Space, b: Space, keep: set<nat>, q: Path)
    requires Total(a) && Tree(b, keep) && Depth(q) <= 3
    requires forall x: Path :: OnWay(x, q) ==> Depth(x) <= 3 && Lookup(b, x).Some?
    requires forall x: Path, t: Frame :: TableAt(b, x, t) ==> TableAt(a, x, t) || a.ledger.IsClear(t)
    ensures Missing(a, q) <= FreeFrames(a.ledger)
  {
    AddedFramesAreDistinct(a, b, keep, q);
    AddedFramesAreClear(a, b, q);
    ClearSetFits(a.ledger, AddedFrames(a, b, q));
  }

  lemma {:induction false} FramesMakeMapSound(m: Machine, keep: set<nat>, page: Path, frame: Frame)
    requires Tree(View(m), keep) && IsPage(page) && Missing(View(m), page.parent) <= FreeFrames(m.ledger)
    ensures SoundMap(m, keep, page, frame)
  {
    MapPageTranslates(m, keep, page, frame);
    forall x: Path | OnWay(x, page.parent)
      ensures Depth(x) <= 3 && OnWay(x, page)
    {
      OnWayIsNoDeeper(x, page.parent);
    }
  }

  /** A mapping is sound exactly when the free frames suffice for the missing tables;
      otherwise the page at address 0 is pressed into service as a table. */
  lemma {:induction false} SoundMapIffFramesSuffice(m: Machine, keep: set<nat>, page: Path, frame: Frame)
    requires Tree(View(m), keep) && IsPage(page)
    ensures SoundMap(m, keep, page, frame) <==> Missing(View(m), page.parent) <= FreeFrames(m.ledger)
  {
    if Missing(View(m), page.parent) <= FreeFrames(m.ledger) {
      FramesMakeMapSound(m, keep, page, frame);
    } else if SoundMap(m, keep, page, frame) {
      AddedTablesNeedFrames(View(m), View(MapPage(m, page, frame)), keep, page.parent);
    }
  }

  // ----- runs -----

  datatype KernelOp = Memory(event: Event) | Map(page: Path, frame: Frame)

  function StepMachine(m: Machine, op: KernelOp): (r: Machine)
    requires m.ledger.Valid()
    ensures r.ledger.Valid()
  {
    match op
    case Memory(e) => m.(ledger := Step(m.ledger, e))
    case Map(page, frame) => if page.Sub? then MapPage(m, page, frame) else m
  }

  function RunMachine(m: Machine, ops: seq<KernelOp>): (r: Machine)
    requires m.ledger.Valid()
    ensures r.ledger.Valid()
  {
    if ops == [] then m else StepMachine(RunMachine(m, ops[..|ops| - 1]), ops[|ops| - 1])
  }

  ghost predicate IsTable(a: Space, f: nat)
    requires Total(a)
  {
    exists x: Path, t: Frame :: TableAt(a, x, t) && t == f
  }

  /** The caller frees no table and no kept frame, and maps only while frames suffice. */
  ghost predicate Allowed(m: Machine, keep: set<nat>, op: KernelOp)
    requires m.ledger.Valid()
  {
    match op
    case Memory(e) => forall f: nat :: Frees(e, f) ==> f !in keep && !IsTable(View(m), f)
    case Map(page, _) => IsPage(page) && Missing(View(m), page.parent) <= FreeFrames(m.ledger)
  }

  ghost predicate AllowedRun(m: Machine, keep: set<nat>, ops: seq<KernelOp>)
    requires m.ledger.Valid()
  {
    ops == [] ||
    (AllowedRun(m, keep, ops[..|ops| - 1]) && Allowed(RunMachine(m, ops[..|ops| - 1]), keep, ops[|ops| - 1]))
  }

  lemma {:induction false} SameTablesSameWalk(m: Machine, n: Machine, x: Path)
    requires n.root == m.root && n.ram == m.ram
    ensures Walk(n, x) == Walk(m, x) && (x.Sub? ==> Entry(n, x) == Entry(m, x))
  {
    if x.Sub? {
      SameTablesSameWalk(m, n, x.parent);
    }
  }

  lemma {:induction false} LedgerStepKeepsTree(m: Machine, keep: set<nat>, e: Event)
    requires Tree(View(m), keep) && Allowed(m, keep, Memory(e))
    ensures Tree(View(StepMachine(m, Memory(e))), keep)
    ensures forall x: Path :: Walk(StepMachine(m, Memory(e)), x) == Walk(m, x)
    ensures View(StepMachine(m, Memory(e))).entries == View(m).entries
  {
    var n := StepMachine(m, Memory(e));
    forall x: Path
      ensures Walk(n, x) == Walk(m, x) && (x.Sub? ==> Entry(n, x) == Entry(m, x))
    {
      SameTablesSameWalk(m, n, x);
    }
    assert View(n).entries == View(m).entries;
    forall f: nat | f < m.ledger.Pages() && m.ledger.bits[f] && (f in keep || IsTable(View(m), f))
      ensures n.ledger.bits[f]
    {
      StepKeepsMarked(m.ledger, e, f);
    }
    assert forall x: Path, t: Frame :: TableAt(View(n), x, t) <==> TableAt(View(m), x, t);
  }

  /** In every state an allowed run reaches, the tables form a tree of marked frames,
      none shared between two entries and none of them kept for someone else, and what let
      writes through still does. */
  lemma {:induction false} RunKeepsTree(m: Machine, keep: set<nat>, ops: seq<KernelOp>)
    requires Tree(View(m), keep) && AllowedRun(m, keep, ops)
    ensures Tree(View(RunMachine(m, ops)), keep)
    ensures AllWritable(View(m)) ==> AllWritable(View(RunMachine(m, ops)))
  {
    if ops != [] {
      var front, op := ops[..|ops| - 1], ops[|ops| - 1];
      RunKeepsTree(m, keep, front);
      match op
      case Memory(e) => LedgerStepKeepsTree(RunMachine(m, front), keep, e);
      case Map(page, frame) => MapPageTranslates(RunMachine(m, front), keep, page, frame);
    }
  }

  /** Where the last mapping of `page` leads; before any, what the walk gave. */
  ghost function LastMapped(m: Machine, ops: seq<KernelOp>, page: Path): Option<Frame> {
    if ops == [] then Walk(m, page)
    else
      var op := ops[|ops| - 1];
      if op.Map? && op.page == page then Reached(op.frame) else LastMapped(m, ops[..|ops| - 1], page)
  }

  /** After any allowed run every page translates as its own last mapping said. */
  lemma {:induction false} RunTranslatesByLastMapping(m: Machine, keep: set<nat>, ops: seq<KernelOp>, page: Path)
    requires Tree(View(m), keep) && AllowedRun(m, keep, ops) && IsPage(page)
    ensures Walk(RunMachine(m, ops), page) == LastMapped(m, ops, page)
  {
    if ops != [] {
      var front, op := ops[..|ops| - 1], ops[|ops| - 1];
      RunKeepsTree(m, keep, front);
      RunTranslatesByLastMapping(m, keep, front, page);
      match op
      case Memory(e) => LedgerStepKeepsTree(RunMachine(m, front), keep, e);
      case Map(p, frame) => MapPageTranslates(RunMachine(m, front), keep, p, frame);
    }
  }

  /** A marked frame that is no table never becomes one in a run that does not free it:
      pages granted to other callers are safe from the builder. */
  lemma {:induction false} HeldFrameNeverBecomesTable(m: Machine, keep: set<nat>, ops: seq<KernelOp>, f: nat)
    requires Tree(View(m), keep) && !IsTable(View(m), f)
    requires f < m.ledger.Pages() && m.ledger.bits[f] && AllowedRun(m, keep + {f}, ops)
    ensures !IsTable(View(RunMachine(m, ops)), f)
  {
    RunKeepsTree(m, keep + {f}, ops);
  }
}
