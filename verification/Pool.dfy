/**
 Who owns what in the grow-and-retry loops of lib/misc.c and lib/hand.c: GrowBuffer, and
 the loops of LibLocateHandle and LibMemoryMap around it. The firmware is any list of
 replies, and any choice of which allocations it grants; buffers are known by the order of
 their allocation.
 */
module Pool {
  import opened Words

  type Buffer = nat

  datatype Status = Success | Warning | BufferTooSmall | OutOfResources | OtherError {
    predicate IsError() {
      this != Success && this != Warning
    }
  }

  /** What a firmware call returns and leaves in BufferSize. */
  datatype Reply = Reply(status: Status, size: nat)

  /** The pool: buffer numbers in the order of allocation and of release. */
  class PoolServices {
    /** Whether the k-th allocation is granted. */
    const grants: nat -> bool
    var asked: nat
    var next: Buffer
    /** The sizes asked for. */
    ghost var sizes: seq<nat>
    /** The size of every buffer granted. */
    ghost var room: map<Buffer, nat>
    ghost var granted: seq<Buffer>
    ghost var released: seq<Buffer>

    ghost predicate Valid()
      reads this
    {
      && (forall k :: 0 <= k < |granted| ==> granted[k] < next)
      && (forall j, k :: 0 <= j < k < |granted| ==> granted[j] < granted[k])
    }

    constructor (grants: nat -> bool)
      ensures Valid() && asked == 0 && sizes == [] && room == map[] && granted == [] && released == [] && this.grants == grants
    {
      asked, next, sizes, room, granted, released := 0, 0, [], map[], [], [];
      this.grants := grants;
    }

    method AllocatePool(size: nat) returns (p: Option<Buffer>)
      requires Valid()
      modifies this
      ensures Valid() && released == old(released)
      ensures asked == old(asked) + 1 && sizes == old(sizes) + [size] && (p.Some? <==> grants(old(asked)))
      ensures granted == old(granted) + if p.Some? then [p.value] else []
      ensures room == if p.Some? then old(room)[p.value := size] else old(room)
    {
      asked, sizes := asked + 1, sizes + [size];
      if !grants(asked - 1) {
        return None;
      }
      p := Some(next);
      next, granted, room := next + 1, granted + [next], room[next := size];
    }

    method FreePool(p: Buffer)
      modifies this`released
      ensures released == old(released) + [p]
    {
      released := released + [p];
    }
  }

  /** Since the pool stood at `a` and `f`, every buffer granted was released exactly once,
      in order, but for the one still held. */
  ghost predicate Owns(pool: PoolServices, a: seq<Buffer>, f: seq<Buffer>, held: Option<Buffer>)
    reads pool
  {
    && pool.Valid() && a <= pool.granted && f <= pool.released
    && pool.granted[|a|..] == pool.released[|f|..] + if held.Some? then [held.value] else []
  }

  /** GrowBuffer: it allocates when there is no buffer yet or the call asked for a larger
      one; only a refused allocation makes it report OutOfResources. */
  method GrowBuffer(pool: PoolServices, status: Status, buffer: Option<Buffer>, size: nat,
                    ghost a: seq<Buffer>, ghost f: seq<Buffer>)
    returns (tryAgain: bool, newStatus: Status, newBuffer: Option<Buffer>)
    requires Owns(pool, a, f, buffer)
    modifies pool
    ensures Owns(pool, a, f, newBuffer)
    ensures var grow := status == BufferTooSmall || (buffer.None? && size != 0);
            && pool.asked == old(pool.asked) + (if grow then 1 else 0)
            && pool.sizes == old(pool.sizes) + (if grow then [size] else [])
            && (tryAgain <==> grow && pool.grants(old(pool.asked)))
            && newStatus == (if !grow then status else if tryAgain then BufferTooSmall else OutOfResources)
            && (newBuffer.Some? <==> tryAgain || (buffer.Some? && !newStatus.IsError()))
            && pool.granted == old(pool.granted) + (if tryAgain then [newBuffer.value] else [])
            && pool.room == if tryAgain then old(pool.room)[newBuffer.value := size] else old(pool.room)
    ensures !tryAgain && newBuffer.Some? ==> newBuffer == buffer
  {
    newStatus, newBuffer, tryAgain := status, buffer, false;
    assert forall b: Buffer :: (pool.granted + [b])[|a|..] == pool.granted[|a|..] + [b];
    assert forall b: Buffer :: (pool.released + [b])[|f|..] == pool.released[|f|..] + [b];
    if newBuffer.None? && size != 0 {
      newStatus := BufferTooSmall;
    }
    if newStatus == BufferTooSmall {
      if newBuffer.Some? {
        pool.FreePool(newBuffer.value);
      }
      newBuffer := pool.AllocatePool(size);
      if newBuffer.Some? {
        tryAgain := true;
      } else {
        newStatus := OutOfResources;
      }
    }
    if !tryAgain && newStatus.IsError() && newBuffer.Some? {
      pool.FreePool(newBuffer.value);
      newBuffer := None;
    }
  }

  /** The first reply that does not ask for a larger buffer. */
  function FirstAnswer(replies: seq<Reply>): (k: nat)
    ensures k <= |replies| && forall j :: 0 <= j < k ==> replies[j].status == BufferTooSmall
    ensures k < |replies| ==> replies[k].status != BufferTooSmall
  {
    if replies == [] || replies[0].status != BufferTooSmall then 0
    else
      var rest := FirstAnswer(replies[1..]);
      assert forall j :: 1 <= j < 1 + rest ==> replies[j] == replies[1..][j - 1];
      1 + rest
  }

  /** One of the n allocations from number `first` on is refused. */
  ghost predicate RefusesAny(grants: nat -> bool, first: nat, n: nat) {
    exists k: nat :: first <= k < first + n && !grants(k)
  }

  /** How many of up to `most` allocations, from number `first` on, are made: up to the
      first that is refused, which is made too. */
  function Allocations(grants: nat -> bool, first: nat, most: nat): (n: nat)
    ensures n <= most && (most > 0 ==> n > 0) && forall k: nat :: first <= k < first + n - 1 ==> grants(k)
    ensures n < most ==> !grants(first + n - 1)
    decreases most
  {
    if most == 0 then 0 else if !grants(first) then 1 else 1 + Allocations(grants, first + 1, most - 1)
  }

  lemma {:induction false} AllocationsAre(grants: nat -> bool, first: nat, most: nat, n: nat)
    requires 0 < n <= most && !RefusesAny(grants, first, n - 1) && (n < most ==> !grants(first + n - 1))
    ensures Allocations(grants, first, most) == n
    ensures RefusesAny(grants, first, most) <==> !grants(first + n - 1)
  {
  }

  /** The sizes to ask for: the first guess, then whatever each reply said. */
  function SizesFor(firstSize: nat, replies: seq<Reply>): (sizes: seq<nat>)
    ensures |sizes| == |replies| + 1
  {
    seq(|replies| + 1, i requires 0 <= i <= |replies| => if i == 0 then firstSize else replies[i - 1].size)
  }

  /** Since the pool stood at `asked` and `sizes`, the loop made n allocations, of which at
      most the last was refused, for the sizes in order; a buffer held is the last one's. */
  ghost predicate Asked(pool: PoolServices, asked: nat, sizes: seq<nat>, firstSize: nat, replies: seq<Reply>,
                        n: nat, held: Option<Buffer>)
    reads pool
  {
    && n <= |replies| + 1 && pool.asked == asked + n && (n > 0 ==> !RefusesAny(pool.grants, asked, n - 1))
    && pool.sizes == sizes + SizesFor(firstSize, replies)[..n]
    && (held.Some? ==> n > 0 && held.value in pool.room && pool.room[held.value] == SizesFor(firstSize, replies)[n - 1])
  }

  /** So many allocations that the loop ends: at one refused, or behind the first answer. */
  ghost predicate AskedToTheEnd(pool: PoolServices, asked: nat, sizes: seq<nat>, firstSize: nat, replies: seq<Reply>,
                                held: Option<Buffer>)
    reads pool
  {
    Asked(pool, asked, sizes, firstSize, replies, Allocations(pool.grants, asked, FirstAnswer(replies) + 1), held)
  }

  lemma {:induction false} AskedEnough(pool: PoolServices, asked: nat, sizes: seq<nat>, firstSize: nat, replies: seq<Reply>,
                                       n: nat, held: Option<Buffer>)
    requires Asked(pool, asked, sizes, firstSize, replies, n, held)
    requires 0 < n <= FirstAnswer(replies) + 1 && (n <= FirstAnswer(replies) ==> !pool.grants(asked + n - 1))
    ensures AskedToTheEnd(pool, asked, sizes, firstSize, replies, held)
    ensures RefusesAny(pool.grants, asked, FirstAnswer(replies) + 1) <==> !pool.grants(asked + n - 1)
  {
    AllocationsAre(pool.grants, asked, FirstAnswer(replies) + 1, n);
  }

  /** How the loop ends: a refused allocation leaves no buffer; else the first answer
      stands; and if there is none the loop goes on. */
  ghost predicate EndsAs(grants: nat -> bool, asked: nat, replies: seq<Reply>,
                         finished: bool, status: Status, size: nat, buffer: Option<Buffer>) {
    var k := FirstAnswer(replies);
    if RefusesAny(grants, asked, k + 1) then finished && status == OutOfResources && buffer.None?
    else if k < |replies| then finished && Reply(status, size) == replies[k] && (buffer.Some? <==> !status.IsError())
    else !finished && buffer.Some?
  }

  /** It ends in the turn that does not try again, or has no more replies. */
  lemma {:induction false} LastTurn(grants: nat -> bool, asked: nat, replies: seq<Reply>, n: nat, before: Status,
                                    tryAgain: bool, status: Status, size: nat, buffer: Option<Buffer>)
    requires n <= |replies| && n <= FirstAnswer(replies) + 1 && !RefusesAny(grants, asked, n)
    requires n > 0 ==> Reply(before, size) == replies[n - 1]
    requires var grow := n == 0 || before == BufferTooSmall;
             && (tryAgain <==> grow && grants(asked + n))
             && status == (if !grow then before else if tryAgain then BufferTooSmall else OutOfResources)
    requires buffer.Some? <==> tryAgain || !status.IsError()
    requires tryAgain ==> n == |replies|
    ensures EndsAs(grants, asked, replies, !tryAgain, status, size, buffer)
    ensures var made := if n == 0 || before == BufferTooSmall then n + 1 else n;
            0 < made <= FirstAnswer(replies) + 1 && (made <= FirstAnswer(replies) ==> !grants(asked + made - 1))
  {
    if n == 0 || before == BufferTooSmall {
      AllocationsAre(grants, asked, n + 1, n + 1);
    }
  }

  /** One turn of the loop, after n allocations, all of them granted, and as many calls less
      one. */
  method Turn(pool: PoolServices, status: Status, buffer: Option<Buffer>, size: nat, ghost a: seq<Buffer>, ghost f: seq<Buffer>,
              ghost asked: nat, ghost sizes: seq<nat>, ghost firstSize: nat, ghost replies: seq<Reply>, ghost n: nat)
    returns (tryAgain: bool, newStatus: Status, newBuffer: Option<Buffer>)
    requires Owns(pool, a, f, buffer) && Asked(pool, asked, sizes, firstSize, replies, n, buffer)
    requires n <= |replies| && !RefusesAny(pool.grants, asked, n)
    requires n == 0 ==> status == Success && buffer.None? && size == firstSize != 0
    requires n > 0 ==> buffer.Some? && Reply(status, size) == replies[n - 1]
    modifies pool
    ensures Owns(pool, a, f, newBuffer)
    ensures var grow := n == 0 || status == BufferTooSmall;
            && pool.asked == asked + (if grow then n + 1 else n)
            && Asked(pool, asked, sizes, firstSize, replies, pool.asked - asked, newBuffer)
            && (tryAgain <==> grow && pool.grants(asked + n))
            && newStatus == (if !grow then status else if tryAgain then BufferTooSmall else OutOfResources)
            && (newBuffer.Some? <==> tryAgain || !newStatus.IsError())
    ensures tryAgain ==> !RefusesAny(pool.grants, asked, n + 1)
  {
    ghost var all := SizesFor(firstSize, replies);
    assert all[n] == size && all[..n + 1] == all[..n] + [size];
    hide SizesFor;
    tryAgain, newStatus, newBuffer := GrowBuffer(pool, status, buffer, size, a, f);
  }

  /** The loop around GrowBuffer, run on a list of firmware replies: each reply is asked
      for with a buffer of its own. A refused allocation ends it without a buffer; else
      the first answer ends it, and if there is none it does not end. */
  method RetryLoop(pool: PoolServices, firstSize: nat, replies: seq<Reply>)
    returns (finished: bool, status: Status, buffer: Option<Buffer>, size: nat)
    requires pool.Valid() && firstSize != 0
    modifies pool
    ensures Owns(pool, old(pool.granted), old(pool.released), buffer)
    ensures EndsAs(pool.grants, old(pool.asked), replies, finished, status, size, buffer)
    ensures AskedToTheEnd(pool, old(pool.asked), old(pool.sizes), firstSize, replies, buffer)
  {
    ghost var a, f, asked, sizes := pool.granted, pool.released, pool.asked, pool.sizes;
    var calls := 0;
    status, buffer, size, finished := Success, None, firstSize, false;
    assert Owns(pool, a, f, buffer) && Asked(pool, asked, sizes, firstSize, replies, 0, buffer);
    assert !RefusesAny(pool.grants, asked, 0);
    hide Owns, Asked, AskedToTheEnd, EndsAs, RefusesAny, SizesFor, FirstAnswer, Status.IsError;
    while true
      invariant 0 <= calls <= |replies| && Owns(pool, a, f, buffer)
      invariant Asked(pool, asked, sizes, firstSize, replies, calls, buffer) && !RefusesAny(pool.grants, asked, calls)
      invariant calls == 0 ==> status == Success && buffer == None && size == firstSize
      invariant calls > 0 ==> buffer.Some? && Reply(status, size) == replies[calls - 1]
      invariant calls <= FirstAnswer(replies) + 1
      decreases |replies| - calls
    {
      ghost var before := status;
      var tryAgain;
      tryAgain, status, buffer := Turn(pool, status, buffer, size, a, f, asked, sizes, firstSize, replies, calls);
      if !tryAgain || calls == |replies| {
        finished := !tryAgain;
        LastTurn(pool.grants, asked, replies, calls, before, tryAgain, status, size, buffer);
        AskedEnough(pool, asked, sizes, firstSize, replies, pool.asked - asked, buffer);
        return;
      }
      status, size := replies[calls].status, replies[calls].size;
      calls := calls + 1;
    }
  }

  const HANDLE_SIZE: nat := 8
  const DESCRIPTOR_SIZE: nat := 40

  /** LibLocateHandle. */
  method LibLocateHandle(pool: PoolServices, replies: seq<Reply>)
    returns (finished: bool, status: Status, noHandles: nat, buffer: Option<Buffer>)
    requires pool.Valid()
    modifies pool
    ensures Owns(pool, old(pool.granted), old(pool.released), buffer)
    ensures AskedToTheEnd(pool, old(pool.asked), old(pool.sizes), 400, replies, buffer)
    ensures var k := FirstAnswer(replies);
            if RefusesAny(pool.grants, old(pool.asked), k + 1) then
              finished && status == OutOfResources && buffer.None? && noHandles == 0
            else if k < |replies| then
              && finished && status == replies[k].status && (buffer.Some? <==> !status.IsError())
              && noHandles == if status.IsError() then 0 else replies[k].size / 8
            else !finished
  {
    var size;
    finished, status, buffer, size := RetryLoop(pool, 50 * HANDLE_SIZE, replies);
    noHandles := size / HANDLE_SIZE;
    if status.IsError() {
      noHandles := 0;
    }
  }

  /** LibMemoryMap; no count is stored on an error. */
  method LibMemoryMap(pool: PoolServices, replies: seq<Reply>, descriptorSize: nat)
    returns (finished: bool, buffer: Option<Buffer>, noEntries: Option<nat>)
    requires pool.Valid() && descriptorSize != 0
    modifies pool
    ensures Owns(pool, old(pool.granted), old(pool.released), buffer)
    ensures AskedToTheEnd(pool, old(pool.asked), old(pool.sizes), 40, replies, buffer)
    ensures var k := FirstAnswer(replies);
            if RefusesAny(pool.grants, old(pool.asked), k + 1) then
              finished && buffer.None? && noEntries.None?
            else if k < |replies| then
              && finished && (buffer.Some? <==> !replies[k].status.IsError())
              && noEntries == if buffer.Some? then Some(replies[k].size / descriptorSize) else None
            else !finished
  {
    var status, size;
    finished, status, buffer, size := RetryLoop(pool, DESCRIPTOR_SIZE, replies);
    noEntries := if status.IsError() then None else Some(size / descriptorSize);
  }

  lemma {:induction false} OnceAtMost(s: seq<Buffer>, b: Buffer, k: nat)
    requires forall j :: 0 <= j < |s| && j != k ==> s[j] != b
    ensures multiset(s)[b] == if k < |s| && s[k] == b then 1 else 0
  {
    if s != [] {
      var last := |s| - 1;
      assert s == s[..last] + [s[last]];
      OnceAtMost(s[..last], b, k);
    }
  }

  /** Nothing leaks and nothing is released twice: the buffers of a loop that ended in an
      error are exactly those released, each of them once; of one that ended well, all
      but the last. */
  lemma {:induction false} EachReleasedOnce(pool: PoolServices, a: seq<Buffer>, f: seq<Buffer>, held: Option<Buffer>, b: Buffer)
    requires Owns(pool, a, f, held) && b in pool.granted[|a|..]
    ensures b in pool.released[|f|..] <==> held != Some(b)
    ensures multiset(pool.released[|f|..])[b] <= 1
  {
    var mine, gone := pool.granted[|a|..], pool.released[|f|..];
    var k :| 0 <= k < |mine| && mine[k] == b;
    assert forall j :: 0 <= j < |mine| && j != k ==> mine[j] == pool.granted[|a| + j] != b;
    if held.Some? {
      assert mine[|mine| - 1] == held.value;
    }
    assert forall j :: 0 <= j < |gone| ==> gone[j] == mine[j];
    OnceAtMost(gone, b, k);
  }
}
