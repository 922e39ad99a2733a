/**
 Device paths (section 9.3.1 of UEFI 2.4) as lib/dpath.c and the macros of inc/efidevp.h
 handle them: byte strings of nodes. A pointer into memory is the bytes from there on;
 the parsed form is a list of nodes, ends included.
 */
module DevicePath {
  import opened Words

  type Byte = x: int | 0 <= x < 256
  type Memory = seq<Byte>

  const END_TYPE: Byte := 0x7F
  const END_ENTIRE: Byte := 0xFF
  const END_INSTANCE: Byte := 0x01
  const UNPACKED: Byte := 0x80
  const HEADER: nat := 4

  /** A node: the raw type byte, the subtype, and what follows the header. */
  datatype Node = Node(kind: Byte, sub: Byte, body: seq<Byte>) {
    predicate Fits() {
      HEADER + |body| < 0x1_0000
    }

    function Length(): nat {
      HEADER + |body|
    }

    /** The type without the unpacked mark. */
    function Type(): Byte {
      kind % 128
    }

    predicate IsEndType() {
      Type() == END_TYPE
    }

    predicate IsEnd() {
      IsEndType() && sub == END_ENTIRE
    }
  }

  // ----- encoding -----

  function Encode(n: Node): (bytes: Memory)
    requires n.Fits()
    ensures |bytes| == n.Length()
  {
    [n.kind, n.sub, n.Length() % 256, n.Length() / 256] + n.body
  }

  predicate AllFit(nodes: seq<Node>) {
    forall i :: 0 <= i < |nodes| ==> nodes[i].Fits()
  }

  function EncodeAll(nodes: seq<Node>): Memory
    requires AllFit(nodes)
  {
    if nodes == [] then [] else Encode(nodes[0]) + EncodeAll(nodes[1..])
  }

  /** A whole path: end nodes have length 4 and a proper subtype, and the one that ends
      the entire path comes last. */
  ghost predicate IsPath(nodes: seq<Node>) {
    && nodes != [] && AllFit(nodes)
    && (forall i :: 0 <= i < |nodes| && nodes[i].IsEndType() ==> nodes[i].body == [] && nodes[i].sub in {END_ENTIRE, END_INSTANCE})
    && (forall i :: 0 <= i < |nodes| ==> (nodes[i].IsEnd() <==> i == |nodes| - 1))
  }

  /** The pointer shows the path. */
  ghost predicate Shows(dp: Memory, nodes: seq<Node>) {
    IsPath(nodes) && EncodeAll(nodes) <= dp
  }

  // ----- the macros -----

  function DevicePathType(dp: Memory): Byte
    requires |dp| >= HEADER
  {
    dp[0] % 128
  }

  function NodeLength(dp: Memory): nat
    requires |dp| >= HEADER
  {
    var high: int := dp[3];
    dp[2] + 256 * high
  }

  function NextNode(dp: Memory): Memory
    requires |dp| >= HEADER && NodeLength(dp) <= |dp|
  {
    dp[NodeLength(dp)..]
  }

  predicate IsEndType(dp: Memory)
    requires |dp| >= HEADER
  {
    DevicePathType(dp) == END_TYPE
  }

  predicate IsEnd(dp: Memory)
    requires |dp| >= HEADER
  {
    IsEndType(dp) && dp[1] == END_ENTIRE
  }

  /** The macros read the first node, and step to the rest. */
  lemma {:induction false} MacrosReadFirst(dp: Memory, nodes: seq<Node>)
    requires nodes != [] && AllFit(nodes) && EncodeAll(nodes) <= dp
    ensures |dp| >= HEADER && NodeLength(dp) == nodes[0].Length() <= |dp|
    ensures dp[0] == nodes[0].kind && dp[1] == nodes[0].sub
    ensures EncodeAll(nodes[1..]) <= NextNode(dp)
    ensures dp[..NodeLength(dp)] == Encode(nodes[0])
  {
    var first := Encode(nodes[0]);
    assert EncodeAll(nodes) == first + EncodeAll(nodes[1..]);
    assert first == dp[..|first|];
    assert dp[0] == first[0] && dp[1] == first[1] && dp[2] == first[2] && dp[3] == first[3];
    assert EncodeAll(nodes)[|first|..] == EncodeAll(nodes[1..]);
  }

  lemma {:induction false} RestIsPath(nodes: seq<Node>)
    requires IsPath(nodes) && !nodes[0].IsEnd()
    ensures IsPath(nodes[1..])
  {
  }

  lemma {:induction false} EncodeOne(n: Node)
    requires n.Fits()
    ensures AllFit([n]) && EncodeAll([n]) == Encode(n)
  {
    hide Encode;
    assert [n][1..] == [];
  }

  lemma {:induction false} EncodeAllSplits(x: seq<Node>, y: seq<Node>)
    requires AllFit(x) && AllFit(y)
    ensures AllFit(x + y) && EncodeAll(x + y) == EncodeAll(x) + EncodeAll(y)
  {
    hide Encode;
    if x == [] {
      assert x + y == y;
    } else {
      assert (x + y)[1..] == x[1..] + y && (x + y)[0] == x[0];
      EncodeAllSplits(x[1..], y);
    }
  }

  /** A node in bytes (section 9.3.1 of UEFI 2.4): type, subtype, the length of the whole node, least
      significant byte first, and what the node carries; a type of 0x7F, whatever the top
      bit, is an end, of the entire path with subtype 0xFF. */
  lemma {:induction false} NodeBytes(n: Node)
    requires n.Fits()
    ensures var b := Encode(n);
            && |b| == 4 + |n.body| < 0x1_0000 && b[0] == n.kind && b[1] == n.sub
            && b[2] as int + 256 * b[3] as int == |b| && b[4..] == n.body
    ensures n.IsEndType() <==> n.kind in {0x7F, 0xFF}
    ensures n.IsEnd() <==> n.kind in {0x7F, 0xFF} && n.sub == 0xFF
  {
  }

  // ----- parsing undoes encoding -----

  /** The nodes a pointer shows, up to the end of the entire path. */
  function Parse(dp: Memory): Option<seq<Node>> {
    if |dp| < HEADER || !(HEADER <= NodeLength(dp) <= |dp|) then None
    else
      var n := Node(dp[0], dp[1], dp[HEADER..NodeLength(dp)]);
      if n.IsEnd() then Some([n])
      else
        match Parse(NextNode(dp))
        case None => None
        case Some(rest) => Some([n] + rest)
  }

  /** So a pointer shows at most one path. */
  lemma {:induction false} ParseUndoesEncoding(dp: Memory, nodes: seq<Node>)
    requires Shows(dp, nodes)
    ensures Parse(dp) == Some(nodes)
  {
    MacrosReadFirst(dp, nodes);
    assert Encode(nodes[0])[HEADER..] == nodes[0].body;
    assert dp[HEADER..NodeLength(dp)] == dp[..NodeLength(dp)][HEADER..];
    if nodes[0].IsEnd() {
      assert nodes == [nodes[0]];
    } else {
      RestIsPath(nodes);
      ParseUndoesEncoding(NextNode(dp), nodes[1..]);
      assert nodes == [nodes[0]] + nodes[1..];
    }
  }

  // ----- instances -----

  /** The first end node, of either kind. */
  ghost function FirstEnd(nodes: seq<Node>): (k: nat)
    requires IsPath(nodes)
    ensures k < |nodes| && nodes[k].IsEndType()
    ensures forall i :: 0 <= i < k ==> !nodes[i].IsEndType()
  {
    if nodes[0].IsEndType() then 0
    else
      RestIsPath(nodes);
      assert nodes[1..][FirstEnd(nodes[1..])] == nodes[1 + FirstEnd(nodes[1..])];
      assert forall i :: 1 <= i < 1 + FirstEnd(nodes[1..]) ==> nodes[i] == nodes[1..][i - 1];
      1 + FirstEnd(nodes[1..])
  }

  lemma {:induction false} SuffixIsPath(nodes: seq<Node>, k: nat)
    requires IsPath(nodes) && k < |nodes|
    ensures IsPath(nodes[k..])
  {
  }

  /** The node lists between end nodes. */
  ghost function Instances(nodes: seq<Node>): seq<seq<Node>>
    requires IsPath(nodes)
    decreases |nodes|
  {
    var k := FirstEnd(nodes);
    if nodes[k].IsEnd() then [nodes[..k]]
    else
      SuffixIsPath(nodes, k + 1);
      [nodes[..k]] + Instances(nodes[k + 1..])
  }

  /** DevicePathInstance gives up on an instance at this node, counted from zero. */
  const GIVE_UP: nat := 513

  ghost function StopAt(nodes: seq<Node>): (k: nat)
    requires IsPath(nodes)
    ensures k < |nodes|
  {
    if FirstEnd(nodes) <= GIVE_UP then FirstEnd(nodes) else GIVE_UP
  }

  /** What calling DevicePathInstance over and over yields. */
  ghost function Iterated(nodes: seq<Node>): seq<seq<Node>>
    requires IsPath(nodes)
    decreases |nodes|
  {
    var k := StopAt(nodes);
    if nodes[k].sub == END_ENTIRE then [nodes[..k]]
    else
      SuffixIsPath(nodes, k + 1);
      [nodes[..k]] + Iterated(nodes[k + 1..])
  }

  lemma {:induction false} EndIsLast(nodes: seq<Node>, k: nat)
    requires IsPath(nodes) && k < |nodes|
    ensures nodes[k].IsEnd() <==> k + 1 == |nodes|
  {
  }

  ghost predicate AllShort(instances: seq<seq<Node>>) {
    forall i :: 0 <= i < |instances| ==> |instances[i]| <= 513
  }

  lemma {:induction false} FirstOfMany(first: seq<Node>, x: seq<seq<Node>>, y: seq<seq<Node>>)
    requires |first| <= GIVE_UP
    ensures [first] + x == [first] + y <==> x == y
    ensures AllShort([first] + y) <==> AllShort(y)
  {
    assert ([first] + x)[1..] == x && ([first] + y)[1..] == y;
    assert forall i :: 0 <= i < |y| ==> ([first] + y)[i + 1] == y[i];
  }

  /** The iteration yields exactly the instances if and only if none has more than 513
      nodes. */
  lemma {:induction false} IterationYieldsInstancesIffShort(nodes: seq<Node>)
    requires IsPath(nodes)
    ensures Iterated(nodes) == Instances(nodes) <==> AllShort(Instances(nodes))
    decreases |nodes|
  {
    hide IsPath, FirstEnd;
    var k := FirstEnd(nodes);
    EndIsLast(nodes, k);
    if k > GIVE_UP {
      assert |Instances(nodes)[0]| == k && |Iterated(nodes)[0]| == GIVE_UP;
    } else if nodes[k].IsEnd() {
      FirstOfMany(nodes[..k], [], []);
      assert Instances(nodes) == [nodes[..k]] + [];
    } else {
      SuffixIsPath(nodes, k + 1);
      IterationYieldsInstancesIffShort(nodes[k + 1..]);
      FirstOfMany(nodes[..k], Iterated(nodes[k + 1..]), Instances(nodes[k + 1..]));
    }
  }

  lemma {:induction false} OneMoreNode(nodes: seq<Node>, k: nat)
    requires AllFit(nodes) && k < |nodes|
    ensures nodes[k..][1..] == nodes[k + 1..]
    ensures |EncodeAll(nodes[..k + 1])| == |EncodeAll(nodes[..k])| + nodes[k].Length()
  {
    assert nodes[..k + 1] == nodes[..k] + [nodes[k]];
    EncodeAllSplits(nodes[..k], [nodes[k]]);
    EncodeOne(nodes[k]);
  }

  method DevicePathInstance(devicePath: Option<Memory>, ghost nodes: seq<Node>)
    returns (start: Option<Memory>, next: Option<Memory>, size: nat)
    requires devicePath.Some? ==> Shows(devicePath.value, nodes)
    ensures start == devicePath && (devicePath.None? ==> next.None?)
    ensures devicePath.Some? ==> size == |EncodeAll(nodes[..StopAt(nodes)])|
    ensures devicePath.Some? ==> var k := StopAt(nodes);
              && (next.None? <==> nodes[k].sub == END_ENTIRE)
              && (next.Some? && k + 1 < |nodes| ==> Shows(next.value, nodes[k + 1..]))
  {
    start, next, size := devicePath, None, 0;
    if devicePath.None? {
      return;
    }
    var p := devicePath.value;
    var count := 0;
    while true
      invariant 0 <= count <= StopAt(nodes)
      invariant EncodeAll(nodes[count..]) <= p && |p| <= |devicePath.value|
      invariant |devicePath.value| - |p| == |EncodeAll(nodes[..count])|
      decreases |nodes| - count
    {
      MacrosReadFirst(p, nodes[count..]);
      var after := NextNode(p);
      if IsEndType(p) || count > 0x200 {
        next := if p[1] == END_ENTIRE then None else Some(after);
        size := |devicePath.value| - |p|;
        assert count == StopAt(nodes);
        assert nodes[count..][1..] == nodes[count + 1..];
        if count + 1 < |nodes| { SuffixIsPath(nodes, count + 1); }
        return;
      }
      OneMoreNode(nodes, count);
      p, count := after, count + 1;
    }
  }

  /** Every path is iterated to its end: the count is that of the instances seen. */
  method DevicePathInstanceCount(devicePath: Memory, ghost nodes: seq<Node>) returns (count: nat)
    requires Shows(devicePath, nodes)
    ensures count == |Iterated(nodes)|
    ensures AllShort(Instances(nodes)) ==> count == |Instances(nodes)|
  {
    count := 0;
    ghost var left := nodes;
    var path := Some(devicePath);
    while true
      invariant path.Some? ==> Shows(path.value, left) && count + |Iterated(left)| == |Iterated(nodes)|
      invariant path.None? ==> count == |Iterated(nodes)|
      decreases path.Some?, |left|
    {
      ghost var k := if path.Some? then StopAt(left) else 0;
      var inst, next, size := DevicePathInstance(path, left);
      if inst.None? {
        break;
      }
      path, count := next, count + 1;
      if path.Some? {
        left := left[k + 1..];
      }
    }
    IterationYieldsInstancesIffShort(nodes);
  }

  // ----- sizes -----

  lemma {:induction false} LastByOne(nodes: seq<Node>)
    requires AllFit(nodes) && nodes != []
    ensures EncodeAll(nodes) == EncodeAll(nodes[..|nodes| - 1]) + Encode(nodes[|nodes| - 1])
  {
    assert nodes == nodes[..|nodes| - 1] + [nodes[|nodes| - 1]];
    EncodeAllSplits(nodes[..|nodes| - 1], [nodes[|nodes| - 1]]);
    EncodeOne(nodes[|nodes| - 1]);
  }

  /** The walk to the end of the entire path. */
  method FindEnd(devPath: Memory, ghost nodes: seq<Node>) returns (offset: nat)
    requires Shows(devPath, nodes)
    ensures offset == |EncodeAll(nodes[..|nodes| - 1])|
  {
    var p := devPath;
    ghost var k := 0;
    MacrosReadFirst(p, nodes);
    while !IsEnd(p)
      invariant 0 <= k < |nodes| && EncodeAll(nodes[k..]) <= p && |p| <= |devPath| && |p| >= HEADER
      invariant NodeLength(p) == nodes[k].Length() <= |p| && p[0] == nodes[k].kind && p[1] == nodes[k].sub
      invariant |devPath| - |p| == |EncodeAll(nodes[..k])|
      decreases |nodes| - k
    {
      OneMoreNode(nodes, k);
      MacrosReadFirst(p, nodes[k..]);
      p, k := NextNode(p), k + 1;
      MacrosReadFirst(p, nodes[k..]);
    }
    offset := |devPath| - |p|;
  }

  method DevicePathSize(devPath: Memory, ghost nodes: seq<Node>) returns (size: nat)
    requires Shows(devPath, nodes)
    ensures size == |EncodeAll(nodes)| <= |devPath|
  {
    LastByOne(nodes);
    var end := FindEnd(devPath, nodes);
    size := end + HEADER;
  }

  ghost function TotalSize(instances: seq<seq<Node>>): nat
    requires forall i :: 0 <= i < |instances| ==> AllFit(instances[i])
  {
    if instances == [] then 0 else |EncodeAll(instances[0])| + HEADER + TotalSize(instances[1..])
  }

  /** The path's size is that of its instances and one end node for each. */
  lemma {:induction false} SizesAddUp(nodes: seq<Node>)
    requires IsPath(nodes)
    ensures forall i :: 0 <= i < |Instances(nodes)| ==> AllFit(Instances(nodes)[i])
    ensures |EncodeAll(nodes)| == TotalSize(Instances(nodes))
    decreases |nodes|
  {
    var k := FirstEnd(nodes);
    assert nodes == (nodes[..k] + [nodes[k]]) + nodes[k + 1..];
    EncodeAllSplits(nodes[..k], [nodes[k]]);
    EncodeAllSplits(nodes[..k] + [nodes[k]], nodes[k + 1..]);
    EncodeOne(nodes[k]);
    if !nodes[k].IsEnd() {
      SuffixIsPath(nodes, k + 1);
      SizesAddUp(nodes[k + 1..]);
      assert Instances(nodes)[1..] == Instances(nodes[k + 1..]);
    }
  }

  // ----- joining -----

  /** The path with its entire-path end turned into an instance end. */
  ghost function Reopened(nodes: seq<Node>): seq<Node>
    requires IsPath(nodes)
  {
    nodes[|nodes| - 1 := nodes[|nodes| - 1].(sub := END_INSTANCE)]
  }

  ghost function Joined(a: seq<Node>, b: seq<Node>): seq<Node>
    requires IsPath(a) && IsPath(b)
  {
    Reopened(a) + b
  }

  lemma {:induction false} JoinedIsPath(a: seq<Node>, b: seq<Node>)
    requires IsPath(a) && IsPath(b)
    ensures IsPath(Joined(a, b))
  {
    var j := Joined(a, b);
    forall i | 0 <= i < |j|
      ensures j[i].IsEnd() <==> i == |j| - 1
      ensures j[i].IsEndType() ==> j[i].body == [] && j[i].sub in {END_ENTIRE, END_INSTANCE}
      ensures j[i].Fits()
    {
      if i >= |a| { assert j[i] == b[i - |a|]; }
    }
  }

  lemma {:induction false} FirstEndIs(nodes: seq<Node>, k: nat)
    requires IsPath(nodes) && k < |nodes| && nodes[k].IsEndType()
    requires forall i :: 0 <= i < k ==> !nodes[i].IsEndType()
    ensures FirstEnd(nodes) == k
  {
  }

  lemma {:induction false} JoinedParts(a: seq<Node>, b: seq<Node>, k: nat)
    requires IsPath(a) && IsPath(b) && k < |a|
    ensures Joined(a, b)[..k] == a[..k] && Joined(a, b)[k].IsEndType() == a[k].IsEndType()
    ensures k + 1 == |a| ==> Joined(a, b)[k + 1..] == b && !Joined(a, b)[k].IsEnd()
    ensures k + 1 < |a| ==> IsPath(a[k + 1..]) && Joined(a, b)[k + 1..] == Joined(a[k + 1..], b) && Joined(a, b)[k] == a[k]
  {
    if k + 1 < |a| {
      SuffixIsPath(a, k + 1);
    }
  }

  lemma {:induction false} JoinedFirstEnd(a: seq<Node>, b: seq<Node>)
    requires IsPath(a) && IsPath(b)
    ensures IsPath(Joined(a, b)) && FirstEnd(Joined(a, b)) == FirstEnd(a)
  {
    JoinedIsPath(a, b);
    forall i | 0 <= i <= FirstEnd(a)
      ensures Joined(a, b)[i].IsEndType() == a[i].IsEndType()
    {
      JoinedParts(a, b, i);
    }
    FirstEndIs(Joined(a, b), FirstEnd(a));
  }

  /** Joining puts the instances of one path behind those of the other. */
  lemma {:induction false} JoinedInstances(a: seq<Node>, b: seq<Node>)
    requires IsPath(a) && IsPath(b)
    ensures IsPath(Joined(a, b)) && Instances(Joined(a, b)) == Instances(a) + Instances(b)
    decreases |a|
  {
    hide IsPath, Joined, FirstEnd;
    var k := FirstEnd(a);
    JoinedFirstEnd(a, b);
    JoinedParts(a, b, k);
    if a[k].IsEnd() {
      EndIsLast(a, k);
    } else {
      EndIsLast(a, k);
      JoinedInstances(a[k + 1..], b);
      assert Instances(a) == [a[..k]] + Instances(a[k + 1..]);
    }
  }

  /** CopyMem into a block. */
  method CopyMem(dest: array<Byte>, at: nat, bytes: Memory)
    requires at + |bytes| <= dest.Length
    modifies dest
    ensures dest[..] == old(dest[..at]) + bytes + old(dest[at + |bytes|..])
  {
    var i := 0;
    while i < |bytes|
      invariant 0 <= i <= |bytes|
      invariant forall j :: 0 <= j < dest.Length && !(at <= j < at + i) ==> dest[j] == old(dest[j])
      invariant forall j :: 0 <= j < i ==> dest[at + j] == bytes[j]
    {
      dest[at + i] := bytes[i];
      i := i + 1;
    }
    assert dest[..at] == old(dest[..at]) && dest[at..at + |bytes|] == bytes && dest[at + |bytes|..] == old(dest[at + |bytes|..]);
    assert dest[..] == dest[..at] + dest[at..at + |bytes|] + dest[at + |bytes|..];
  }

  /** CopyMem to the end of what is already written. */
  method Put(dest: array<Byte>, at: nat, bytes: Memory, ghost written: Memory) returns (next: nat)
    requires at + |bytes| <= dest.Length && dest[..at] == written
    modifies dest
    ensures next == at + |bytes| && dest[..next] == written + bytes
  {
    CopyMem(dest, at, bytes);
    next := at + |bytes|;
    assert dest[..][..next] == dest[..next];
  }

  method DuplicateDevicePath(devPath: Memory, ghost nodes: seq<Node>) returns (copy: array<Byte>)
    requires Shows(devPath, nodes)
    ensures fresh(copy) && copy[..] == EncodeAll(nodes)
  {
    var size := DevicePathSize(devPath, nodes);
    copy := new Byte[size];
    CopyMem(copy, 0, devPath[..size]);
  }

  lemma {:induction false} ReopenedBytes(nodes: seq<Node>, end: nat)
    requires IsPath(nodes) && end == |EncodeAll(nodes[..|nodes| - 1])|
    ensures end + 1 < |EncodeAll(nodes)| && AllFit(Reopened(nodes))
    ensures EncodeAll(Reopened(nodes)) == EncodeAll(nodes)[end + 1 := END_INSTANCE]
  {
    LastByOne(nodes);
    LastByOne(Reopened(nodes));
    assert Reopened(nodes)[..|nodes| - 1] == nodes[..|nodes| - 1];
  }

  lemma {:induction false} JoinedBytes(a: seq<Node>, b: seq<Node>)
    requires IsPath(a) && IsPath(b) && AllFit(Reopened(a))
    ensures IsPath(Joined(a, b)) && EncodeAll(Joined(a, b)) == EncodeAll(Reopened(a)) + EncodeAll(b)
  {
    EncodeAllSplits(Reopened(a), b);
    JoinedIsPath(a, b);
  }

  /** AppendDevicePathInstance, with memory to allocate from. */
  method AppendDevicePathInstance(src: Option<Memory>, instance: Memory, ghost a: seq<Node>, ghost b: seq<Node>)
    returns (path: array<Byte>)
    requires (src.Some? ==> Shows(src.value, a)) && Shows(instance, b)
    ensures fresh(path)
    ensures src.None? ==> path[..] == EncodeAll(b)
    ensures src.Some? ==> Shows(path[..], Joined(a, b)) && path[..] == EncodeAll(Joined(a, b))
  {
    if src.None? {
      path := DuplicateDevicePath(instance, b);
      return;
    }
    hide IsPath, EncodeAll, Encode, Joined;
    var srcSize := DevicePathSize(src.value, a);
    var instanceSize := DevicePathSize(instance, b);
    path := new Byte[srcSize + instanceSize];
    var at := Put(path, 0, src.value[..srcSize], []);
    assert path[..srcSize] == path[..][..srcSize] == EncodeAll(a);
    var end := FindEnd(path[..], a);
    ReopenedBytes(a, end);
    path[end + 1] := END_INSTANCE;
    assert path[..srcSize] == EncodeAll(Reopened(a));
    at := Put(path, at, instance[..instanceSize], EncodeAll(Reopened(a)));
    assert path[..at] == path[..];
    JoinedBytes(a, b);
  }

  // ----- appending to a path of one instance -----

  const END_NODE: Node := Node(END_TYPE, END_ENTIRE, [])

  ghost predicate SingleInstance(nodes: seq<Node>)
    requires IsPath(nodes)
  {
    FirstEnd(nodes) == |nodes| - 1 && |nodes| - 1 <= GIVE_UP
  }

  /** The first path's nodes, then the second path. */
  ghost function Appended(a: seq<Node>, b: seq<Node>): seq<Node>
    requires IsPath(a) && IsPath(b)
  {
    a[..|a| - 1] + b
  }

  lemma {:induction false} AppendedIsPath(a: seq<Node>, b: seq<Node>)
    requires IsPath(a) && IsPath(b)
    ensures IsPath(Appended(a, b))
    ensures SingleInstance(a) ==> Instances(Appended(a, b))[0] == a[..|a| - 1] + Instances(b)[0]
  {
    var j := Appended(a, b);
    forall i | 0 <= i < |j|
      ensures j[i].IsEnd() <==> i == |j| - 1
      ensures j[i].IsEndType() ==> j[i].body == [] && j[i].sub in {END_ENTIRE, END_INSTANCE}
      ensures j[i].Fits()
    {
      if i >= |a| - 1 { assert j[i] == b[i - (|a| - 1)]; }
    }
    if SingleInstance(a) {
      FirstEndIs(j, |a| - 1 + FirstEnd(b));
    }
  }

  lemma {:induction false} SumsAssociate(x: seq<Node>, y: seq<Node>, z: seq<Node>)
    requires y != []
    ensures (x + y)[..|x + y| - 1] + z == x + (y[..|y| - 1] + z)
  {
    assert (x + y)[..|x + y| - 1] == x + y[..|y| - 1];
  }

  lemma {:induction false} FirstEndOfAppended(a: seq<Node>, b: seq<Node>)
    requires IsPath(a) && IsPath(b) && SingleInstance(a) && SingleInstance(b) && IsPath(Appended(a, b))
    ensures FirstEnd(Appended(a, b)) == |a| + |b| - 2
  {
    var j := Appended(a, b);
    assert forall i :: |a| - 1 <= i < |j| ==> j[i] == b[i - (|a| - 1)];
    FirstEndIs(j, |a| + |b| - 2);
  }

  /** Appending is associative on the node lists, and yields one instance that is iterated
      whole as long as it has no more than 513 nodes. */
  lemma {:induction false} AppendingIsAssociative(a: seq<Node>, b: seq<Node>, c: seq<Node>)
    requires IsPath(a) && IsPath(b) && IsPath(c) && SingleInstance(a) && SingleInstance(b)
    ensures IsPath(Appended(a, b)) && IsPath(Appended(b, c))
    ensures Appended(Appended(a, b), c) == Appended(a, Appended(b, c))
    ensures SingleInstance(Appended(a, b)) <==> |a| + |b| - 2 <= GIVE_UP
  {
    AppendedIsPath(a, b);
    AppendedIsPath(b, c);
    SumsAssociate(a[..|a| - 1], b, c);
    FirstEndOfAppended(a, b);
  }

  lemma {:induction false} AppendedBytes(a: seq<Node>, b: seq<Node>)
    requires IsPath(a) && IsPath(b)
    ensures IsPath(Appended(a, b)) && EncodeAll(Appended(a, b)) == EncodeAll(a[..|a| - 1]) + EncodeAll(b)
  {
    AppendedIsPath(a, b);
    EncodeAllSplits(a[..|a| - 1], b);
  }

  // ----- appending to every instance -----

  const INSTANCE_END: Node := Node(END_TYPE, END_INSTANCE, [])

  ghost predicate NoEnds(nodes: seq<Node>) {
    AllFit(nodes) && forall i :: 0 <= i < |nodes| ==> !nodes[i].IsEndType()
  }

  ghost predicate AllWithoutEnds(pieces: seq<seq<Node>>) {
    forall i :: 0 <= i < |pieces| ==> NoEnds(pieces[i])
  }

  lemma {:induction false} PieceHasNoEnds(nodes: seq<Node>)
    requires IsPath(nodes)
    ensures NoEnds(nodes[..StopAt(nodes)])
  {
  }

  lemma {:induction false} OnePieceMore(piece: seq<Node>, pieces: seq<seq<Node>>)
    requires NoEnds(piece)
    ensures AllWithoutEnds([piece] + pieces) <==> AllWithoutEnds(pieces)
    ensures pieces == [] ==> AllWithoutEnds(pieces)
  {
    assert forall i :: 0 <= i < |pieces| ==> ([piece] + pieces)[i + 1] == pieces[i];
  }

  lemma {:induction false} IteratedHaveNoEnds(nodes: seq<Node>)
    requires IsPath(nodes)
    ensures Iterated(nodes) != [] && AllWithoutEnds(Iterated(nodes))
    decreases |nodes|
  {
    hide IsPath, NoEnds, AllWithoutEnds, FirstEnd;
    var k := StopAt(nodes);
    var piece := nodes[..k];
    PieceHasNoEnds(nodes);
    EndIsLast(nodes, k);
    if nodes[k].sub == END_ENTIRE {
      OnePieceMore(piece, []);
      assert Iterated(nodes) == [piece] + [];
    } else {
      SuffixIsPath(nodes, k + 1);
      IteratedHaveNoEnds(nodes[k + 1..]);
      OnePieceMore(piece, Iterated(nodes[k + 1..]));
    }
  }

  /** The two ends that are written, in bytes. */
  lemma {:induction false} EndBytes()
    ensures Encode(END_NODE) == [0x7F, 0xFF, 4, 0] && Encode(INSTANCE_END) == [0x7F, 1, 4, 0]
  {
  }

  /** What the loop copies: behind each piece of the first path all of the second, its end
      included, and then an instance end. */
  ghost function Copied(pieces: seq<seq<Node>>, b: seq<Node>): (nodes: seq<Node>)
    requires AllWithoutEnds(pieces) && IsPath(b)
    ensures AllFit(nodes)
  {
    if pieces == [] then [] else Copied(pieces[..|pieces| - 1], b) + pieces[|pieces| - 1] + b + [INSTANCE_END]
  }

  /** The block in the end, the last marker changed. */
  ghost function Extended(pieces: seq<seq<Node>>, b: seq<Node>): (nodes: seq<Node>)
    requires pieces != [] && AllWithoutEnds(pieces) && IsPath(b)
    ensures AllFit(nodes)
  {
    var copied := Copied(pieces, b);
    copied[..|copied| - 1] + [END_NODE]
  }

  /** The block allocated has room for what is copied. */
  ghost predicate HasRoom(a: seq<Node>, b: seq<Node>)
    requires IsPath(a) && IsPath(b)
  {
    IteratedHaveNoEnds(a);
    |EncodeAll(Copied(Iterated(a), b))| <= |EncodeAll(a)| * |Iterated(a)| + |EncodeAll(b)|
  }

  lemma {:induction false} CopiedByOne(pieces: seq<seq<Node>>, b: seq<Node>, n: nat)
    requires AllWithoutEnds(pieces) && IsPath(b) && n < |pieces|
    ensures AllWithoutEnds(pieces[..n]) && AllWithoutEnds(pieces[..n + 1])
    ensures EncodeAll(Copied(pieces[..n + 1], b))
         == EncodeAll(Copied(pieces[..n], b)) + EncodeAll(pieces[n]) + EncodeAll(b) + Encode(INSTANCE_END)
  {
    var front := pieces[..n + 1];
    assert front[..n] == pieces[..n] && front[n] == pieces[n];
    var done := Copied(pieces[..n], b);
    EncodeAllSplits(done, pieces[n]);
    EncodeAllSplits(done + pieces[n], b);
    EncodeAllSplits(done + pieces[n] + b, [INSTANCE_END]);
    EncodeOne(INSTANCE_END);
  }

  lemma {:induction false} NothingCopied(pieces: seq<seq<Node>>, b: seq<Node>)
    requires IsPath(b)
    ensures AllWithoutEnds(pieces[..0]) && EncodeAll(Copied(pieces[..0], b)) == []
  {
  }

  lemma {:induction false} CopiedGrows(pieces: seq<seq<Node>>, b: seq<Node>, n: nat)
    requires AllWithoutEnds(pieces) && IsPath(b) && n <= |pieces|
    ensures AllWithoutEnds(pieces[..n])
    ensures |EncodeAll(Copied(pieces[..n], b))| <= |EncodeAll(Copied(pieces, b))|
    decreases |pieces| - n
  {
    if n < |pieces| {
      CopiedByOne(pieces, b, n);
      CopiedGrows(pieces, b, n + 1);
    } else {
      assert pieces[..n] == pieces;
    }
  }

  lemma {:induction false} ExtendedBytes(pieces: seq<seq<Node>>, b: seq<Node>)
    requires pieces != [] && AllWithoutEnds(pieces) && IsPath(b)
    ensures var bytes := EncodeAll(Copied(pieces, b));
            |bytes| >= HEADER && EncodeAll(Extended(pieces, b)) == bytes[..|bytes| - HEADER] + Encode(END_NODE)
  {
    var copied := Copied(pieces, b);
    LastByOne(copied);
    EncodeAllSplits(copied[..|copied| - 1], [END_NODE]);
    EncodeOne(END_NODE);
  }

  /** The three copies for one instance. */
  method PutInstance(dst: array<Byte>, at: nat, inst: Memory, size: nat, src2: Memory, src2Size: nat,
                     ghost written: Memory, ghost piece: seq<Node>, ghost b: seq<Node>)
    returns (pos: nat)
    requires NoEnds(piece) && Shows(src2, b) && src2Size == |EncodeAll(b)|
    requires size <= |inst| && inst[..size] == EncodeAll(piece)
    requires at + size + src2Size + HEADER <= dst.Length && dst[..at] == written
    modifies dst
    ensures pos == at + size + src2Size + HEADER
    ensures dst[..pos] == written + EncodeAll(piece) + EncodeAll(b) + Encode(INSTANCE_END)
  {
    pos := Put(dst, at, inst[..size], written);
    pos := Put(dst, pos, src2[..src2Size], written + EncodeAll(piece));
    pos := Put(dst, pos, Encode(INSTANCE_END), written + EncodeAll(piece) + EncodeAll(b));
  }

  lemma {:induction false} StopShowsPiece(path: Memory, nodes: seq<Node>)
    requires Shows(path, nodes)
    ensures NoEnds(nodes[..StopAt(nodes)]) && |EncodeAll(nodes[..StopAt(nodes)])| <= |path|
    ensures path[..|EncodeAll(nodes[..StopAt(nodes)])|] == EncodeAll(nodes[..StopAt(nodes)])
  {
    var k := StopAt(nodes);
    assert nodes == nodes[..k] + nodes[k..];
    EncodeAllSplits(nodes[..k], nodes[k..]);
  }

  /** The loop over the first path's instances. */
  method CopyInstances(dst: array<Byte>, src1: Memory, src2: Memory, src2Size: nat, ghost a: seq<Node>, ghost b: seq<Node>)
    returns (pos: nat)
    requires Shows(src1, a) && Shows(src2, b) && src2Size == |EncodeAll(b)|
    requires AllWithoutEnds(Iterated(a)) && |EncodeAll(Copied(Iterated(a), b))| <= dst.Length
    modifies dst
    ensures pos <= dst.Length && dst[..pos] == EncodeAll(Copied(Iterated(a), b))
  {
    hide IsPath, EncodeAll, Copied, AllWithoutEnds, StopAt;
    ghost var pieces, left, n := Iterated(a), a, 0;
    NothingCopied(pieces, b);
    pos := 0;
    var path := Some(src1);
    while true
      invariant path.Some? ==> n < |pieces| && Shows(path.value, left) && Iterated(left) == pieces[n..]
      invariant path.None? ==> n == |pieces|
      invariant n <= |pieces| && AllWithoutEnds(pieces[..n])
      invariant pos <= dst.Length && dst[..pos] == EncodeAll(Copied(pieces[..n], b))
      decreases |pieces| - n, path.Some?
    {
      var inst, next, size := DevicePathInstance(path, left);
      if inst.None? {
        break;
      }
      ghost var k := StopAt(left);
      StopShowsPiece(path.value, left);
      CopiedByOne(pieces, b, n);
      CopiedGrows(pieces, b, n + 1);
      pos := PutInstance(dst, pos, inst.value, size, src2, src2Size, dst[..pos], left[..k], b);
      path, n := next, n + 1;
      if path.Some? {
        left := left[k + 1..];
      }
    }
    assert pieces[..n] == pieces;
  }

  method AppendTo(src1: Memory, src2: Memory, ghost a: seq<Node>, ghost b: seq<Node>) returns (dst: array<Byte>)
    requires Shows(src1, a) && Shows(src2, b) && HasRoom(a, b)
    ensures fresh(dst) && dst.Length == |EncodeAll(a)| * |Iterated(a)| + |EncodeAll(b)|
    ensures Iterated(a) != [] && AllWithoutEnds(Iterated(a)) && EncodeAll(Extended(Iterated(a), b)) <= dst[..]
  {
    hide IsPath, EncodeAll, Copied, Extended, Iterated, AllWithoutEnds;
    IteratedHaveNoEnds(a);
    var src1Size := DevicePathSize(src1, a);
    var src1Inst := DevicePathInstanceCount(src1, a);
    var src2Size := DevicePathSize(src2, b);
    dst := new Byte[src1Size * src1Inst + src2Size];
    var pos := CopyInstances(dst, src1, src2, src2Size, a, b);
    ExtendedBytes(Iterated(a), b);
    ghost var copied := dst[..pos];
    pos := pos - HEADER;
    assert dst[..pos] == copied[..|copied| - HEADER];
    pos := Put(dst, pos, Encode(END_NODE), dst[..pos]);
  }

  // ----- what the block shows -----

  lemma {:induction false} PrefixedIsPath(piece: seq<Node>, b: seq<Node>)
    requires NoEnds(piece) && IsPath(b)
    ensures IsPath(piece + b)
  {
    var j := piece + b;
    forall i | 0 <= i < |j|
      ensures j[i].IsEnd() <==> i == |j| - 1
      ensures j[i].IsEndType() ==> j[i].body == [] && j[i].sub in {END_ENTIRE, END_INSTANCE}
      ensures j[i].Fits()
    {
      if i >= |piece| { assert j[i] == b[i - |piece|]; }
    }
  }

  lemma {:induction false} CopiedStarts(pieces: seq<seq<Node>>, b: seq<Node>)
    requires pieces != [] && AllWithoutEnds(pieces) && IsPath(b)
    ensures pieces[0] + b + [INSTANCE_END] <= Copied(pieces, b)
  {
    if |pieces| > 1 {
      CopiedStarts(pieces[..|pieces| - 1], b);
    } else {
      assert pieces[..0] == [] && [] + pieces[0] == pieces[0];
    }
  }

  /** A reader finds the first piece with the second path behind it, and nothing more. */
  lemma {:induction false} ExtendedShowsFirst(pieces: seq<seq<Node>>, b: seq<Node>, dst: Memory)
    requires pieces != [] && AllWithoutEnds(pieces) && IsPath(b) && EncodeAll(Extended(pieces, b)) <= dst
    ensures Shows(dst, pieces[0] + b) && Parse(dst) == Some(pieces[0] + b)
  {
    var x := Extended(pieces, b);
    var shown := pieces[0] + b;
    PrefixedIsPath(pieces[0], b);
    CopiedStarts(pieces, b);
    assert x == shown + x[|shown|..];
    EncodeAllSplits(shown, x[|shown|..]);
    ParseUndoesEncoding(dst, shown);
  }

  lemma {:induction false} IterationOfOne(nodes: seq<Node>)
    requires IsPath(nodes) && SingleInstance(nodes)
    ensures Iterated(nodes) == [nodes[..|nodes| - 1]] && NoEnds(nodes[..|nodes| - 1]) && AllWithoutEnds(Iterated(nodes))
  {
  }

  lemma {:induction false} CopiedOnce(piece: seq<Node>, b: seq<Node>)
    requires NoEnds(piece) && IsPath(b)
    ensures AllWithoutEnds([piece]) && AllFit(piece + b)
    ensures Copied([piece], b) == piece + b + [INSTANCE_END] && Extended([piece], b) == piece + b + [END_NODE]
    ensures EncodeAll(Extended([piece], b)) == EncodeAll(piece + b) + Encode(END_NODE)
    ensures |EncodeAll(Copied([piece], b))| == |EncodeAll(Extended([piece], b))|
  {
    assert [piece][..0] == [] && Copied([], b) + piece == piece;
    EncodeAllSplits(piece + b, [INSTANCE_END]);
    EncodeAllSplits(piece + b, [END_NODE]);
    EncodeOne(INSTANCE_END);
    EncodeOne(END_NODE);
  }

  /** A first path of one instance fills its block. */
  lemma {:induction false} OneInstanceFills(a: seq<Node>, b: seq<Node>)
    requires IsPath(a) && IsPath(b) && SingleInstance(a)
    ensures IsPath(Appended(a, b)) && Iterated(a) == [a[..|a| - 1]] && AllWithoutEnds(Iterated(a)) && HasRoom(a, b)
    ensures EncodeAll(Extended(Iterated(a), b)) == EncodeAll(Appended(a, b)) + Encode(END_NODE)
    ensures |EncodeAll(Extended(Iterated(a), b))| == |EncodeAll(a)| * |Iterated(a)| + |EncodeAll(b)|
  {
    LastByOne(a);
    hide IsPath, EncodeAll, Encode, Copied, Extended, Iterated, AllWithoutEnds, NoEnds, SingleInstance;
    IterationOfOne(a);
    AppendedBytes(a, b);
    CopiedOnce(a[..|a| - 1], b);
  }

  /** AppendDevicePath, with memory to allocate from. Behind each instance of the first path
      comes all of the second, up to its end node, so the block shows the first instance
      extended, and no more of it; for a first path of one instance that is the appended
      path, which then fills the block but for a second end node. */
  method AppendDevicePath(src1: Option<Memory>, src2: Option<Memory>, ghost a: seq<Node>, ghost b: seq<Node>)
    returns (dst: array<Byte>)
    requires src1.Some? || src2.Some?
    requires (src1.Some? ==> Shows(src1.value, a)) && (src2.Some? ==> Shows(src2.value, b))
    requires src1.Some? && src2.Some? ==> HasRoom(a, b)
    ensures fresh(dst)
    ensures src1.None? ==> dst[..] == EncodeAll(b)
    ensures src2.None? ==> dst[..] == EncodeAll(a)
    ensures src1.Some? && src2.Some? ==>
              && dst.Length == |EncodeAll(a)| * |Iterated(a)| + |EncodeAll(b)|
              && Iterated(a) != [] && AllWithoutEnds(Iterated(a)) && EncodeAll(Extended(Iterated(a), b)) <= dst[..]
              && Shows(dst[..], Iterated(a)[0] + b)
              && (SingleInstance(a) ==> Shows(dst[..], Appended(a, b)) && dst[..] == EncodeAll(Appended(a, b)) + Encode(END_NODE))
  {
    if src1.None? {
      dst := DuplicateDevicePath(src2.value, b);
    } else if src2.None? {
      dst := DuplicateDevicePath(src1.value, a);
    } else {
      dst := AppendTo(src1.value, src2.value, a, b);
      ExtendedShowsFirst(Iterated(a), b, dst[..]);
      if SingleInstance(a) {
        OneInstanceFills(a, b);
      }
    }
  }

  /** Every piece with the second path behind it, joined as instances of one path. */
  ghost function EachExtended(pieces: seq<seq<Node>>, b: seq<Node>): (nodes: seq<Node>)
    requires pieces != [] && AllWithoutEnds(pieces) && IsPath(b)
    ensures IsPath(nodes) && |nodes| >= |pieces[0]| + |b| && (|nodes| == |pieces[0]| + |b| ==> |pieces| == 1)
  {
    PrefixedIsPath(pieces[0], b);
    if |pieces| == 1 then pieces[0] + b
    else
      JoinedIsPath(pieces[0] + b, EachExtended(pieces[1..], b));
      Joined(pieces[0] + b, EachExtended(pieces[1..], b))
  }

  /** The second path is appended to each instance, as the comment on AppendDevicePath says,
      if and only if there is only one. */
  lemma {:induction false} ExtendsEachIffOnlyOne(a: seq<Node>, b: seq<Node>, dst: Memory)
    requires IsPath(a) && IsPath(b) && Iterated(a) != [] && AllWithoutEnds(Iterated(a))
    requires EncodeAll(Extended(Iterated(a), b)) <= dst
    ensures Parse(dst) == Some(EachExtended(Iterated(a), b)) <==> |Iterated(a)| == 1
  {
    ExtendedShowsFirst(Iterated(a), b, dst);
  }

  // ----- whether the block is large enough -----

  lemma {:induction false} TotalSizeByOne(pieces: seq<seq<Node>>)
    requires pieces != [] && forall i :: 0 <= i < |pieces| ==> AllFit(pieces[i])
    ensures TotalSize(pieces) == TotalSize(pieces[..|pieces| - 1]) + |EncodeAll(pieces[|pieces| - 1])| + HEADER
  {
    if |pieces| > 1 {
      assert pieces[1..][..|pieces| - 2] == pieces[..|pieces| - 1][1..];
      TotalSizeByOne(pieces[1..]);
    }
  }

  lemma {:induction false} CopiedSize(pieces: seq<seq<Node>>, b: seq<Node>)
    requires AllWithoutEnds(pieces) && IsPath(b)
    ensures |EncodeAll(Copied(pieces, b))| == TotalSize(pieces) + |pieces| * |EncodeAll(b)|
  {
    if pieces != [] {
      var n := |pieces| - 1;
      CopiedSize(pieces[..n], b);
      CopiedByOne(pieces, b, n);
      TotalSizeByOne(pieces);
      assert pieces[..n + 1] == pieces;
      assert (n + 1) * |EncodeAll(b)| == n * |EncodeAll(b)| + |EncodeAll(b)|;
    }
  }

  lemma {:induction false} IteratedSize(nodes: seq<Node>)
    requires IsPath(nodes) && AllWithoutEnds(Iterated(nodes))
    ensures TotalSize(Iterated(nodes)) <= |EncodeAll(nodes)|
    decreases |nodes|
  {
    var k := StopAt(nodes);
    assert nodes == (nodes[..k] + [nodes[k]]) + nodes[k + 1..];
    EncodeAllSplits(nodes[..k], [nodes[k]]);
    EncodeAllSplits(nodes[..k] + [nodes[k]], nodes[k + 1..]);
    EncodeOne(nodes[k]);
    if nodes[k].sub != END_ENTIRE {
      SuffixIsPath(nodes, k + 1);
      IteratedHaveNoEnds(nodes[k + 1..]);
      IteratedSize(nodes[k + 1..]);
      assert Iterated(nodes)[1..] == Iterated(nodes[k + 1..]);
    }
  }

  lemma {:induction false} RoomForCopies(first: nat, second: nat, k: nat)
    requires k > 0
    ensures second <= first ==> first + k * second <= first * k + second
    ensures first < second ==> (first + k * second <= first * k + second <==> k == 1)
    ensures k == 1 ==> first + k * second <= first * k + second
  {
    if k > 1 {
      RoomForCopies(first, second, k - 1);
      assert k * second == (k - 1) * second + second && first * k == first * (k - 1) + first;
    }
  }

  /** The block has room if there is one instance or the second path is no longer than the
      first; and only then, where iteration yields the instances. */
  lemma {:induction false} HasRoomIffSecondNoLonger(a: seq<Node>, b: seq<Node>)
    requires IsPath(a) && IsPath(b)
    ensures |Iterated(a)| == 1 || |EncodeAll(b)| <= |EncodeAll(a)| ==> HasRoom(a, b)
    ensures AllShort(Instances(a)) && HasRoom(a, b) ==> |Instances(a)| == 1 || |EncodeAll(b)| <= |EncodeAll(a)|
  {
    IteratedHaveNoEnds(a);
    IteratedSize(a);
    CopiedSize(Iterated(a), b);
    RoomForCopies(|EncodeAll(a)|, |EncodeAll(b)|, |Iterated(a)|);
    if AllShort(Instances(a)) {
      IterationYieldsInstancesIffShort(a);
      SizesAddUp(a);
    }
  }

  // ----- appending a node -----

  ghost function Terminated(n: Node): (nodes: seq<Node>)
    requires n.Fits() && !n.IsEndType()
    ensures IsPath(nodes)
  {
    [n, END_NODE]
  }

  /** The node with a terminator on it. */
  method TerminatedNode(src2: Memory, ghost n: Node) returns (temp: array<Byte>)
    requires n.Fits() && !n.IsEndType() && Encode(n) <= src2
    ensures fresh(temp) && Shows(temp[..], Terminated(n))
  {
    ghost var b := Terminated(n);
    EncodeOne(n);
    EncodeOne(END_NODE);
    EncodeAllSplits([n], [END_NODE]);
    assert [n] + [END_NODE] == b;
    MacrosReadFirst(src2, [n]);
    var length := NodeLength(src2);
    temp := new Byte[length + HEADER];
    var pos := Put(temp, 0, src2[..length], []);
    assert temp[..length] == Encode(n);
    MacrosReadFirst(temp[..], [n]);
    pos := Put(temp, NodeLength(temp[..]), Encode(END_NODE), Encode(n));
    assert temp[..] == temp[..pos] == EncodeAll(b);
  }

  /** AppendDevicePathNode, with memory to allocate from: the node goes in at the end of the
      first instance, and nothing comes behind it. */
  method AppendDevicePathNode(src1: Option<Memory>, src2: Memory, ghost a: seq<Node>, ghost n: Node) returns (dst: array<Byte>)
    requires n.Fits() && !n.IsEndType() && Encode(n) <= src2
    requires src1.Some? ==> Shows(src1.value, a) && HasRoom(a, Terminated(n))
    ensures fresh(dst)
    ensures src1.None? ==> Shows(dst[..], Terminated(n))
    ensures src1.Some? ==> Iterated(a) != [] && Shows(dst[..], Iterated(a)[0] + Terminated(n))
    ensures src1.Some? && SingleInstance(a) ==> Shows(dst[..], a[..|a| - 1] + Terminated(n))
  {
    var temp := TerminatedNode(src2, n);
    dst := AppendDevicePath(src1, Some(temp[..]), a, Terminated(n));
  }

  // ----- unpacking -----

  const MIN_ALIGNMENT_SIZE: nat := 4

  /** ALIGN_SIZE: what a size lacks to the next boundary. */
  function AlignSize(size: nat): (pad: nat)
    ensures pad < MIN_ALIGNMENT_SIZE && (size + pad) % MIN_ALIGNMENT_SIZE == 0
  {
    if size % MIN_ALIGNMENT_SIZE != 0 then MIN_ALIGNMENT_SIZE - size % MIN_ALIGNMENT_SIZE else 0
  }

  function Marked(kind: Byte): (r: Byte)
    ensures r % 128 == kind % 128 && r >= UNPACKED && (kind >= UNPACKED ==> r == kind)
  {
    if kind < UNPACKED then kind + UNPACKED else kind
  }

  function Zeros(n: nat): (z: Memory)
    ensures |z| == n && forall i :: 0 <= i < n ==> z[i] == 0
  {
    seq(n, _ => 0)
  }

  /** The node with its type marked and its body padded. */
  function UnpackedNode(n: Node): (u: Node) {
    Node(Marked(n.kind), n.sub, n.body + Zeros(AlignSize(n.Length())))
  }

  function Unpacked(nodes: seq<Node>): (u: seq<Node>)
    ensures |u| == |nodes| && forall i :: 0 <= i < |u| ==> u[i] == UnpackedNode(nodes[i])
  {
    if nodes == [] then [] else [UnpackedNode(nodes[0])] + Unpacked(nodes[1..])
  }

  /** The bytes UnpackDevicePath writes for a node: the length field takes 16 bits of the
      aligned length. */
  function RawNode(n: Node): (bytes: Memory)
    ensures |bytes| == UnpackedNode(n).Length() && |bytes| % MIN_ALIGNMENT_SIZE == 0
  {
    var length := UnpackedNode(n).Length();
    [Marked(n.kind), n.sub, length % 256, length / 256 % 256] + UnpackedNode(n).body
  }

  function RawAll(nodes: seq<Node>): (bytes: Memory) {
    if nodes == [] then [] else RawAll(nodes[..|nodes| - 1]) + RawNode(nodes[|nodes| - 1])
  }

  lemma {:induction false} AlignedSum(x: nat, y: nat)
    requires x % MIN_ALIGNMENT_SIZE == 0 && y % MIN_ALIGNMENT_SIZE == 0
    ensures (x + y) % MIN_ALIGNMENT_SIZE == 0
  {
    assert x + y == MIN_ALIGNMENT_SIZE * (x / MIN_ALIGNMENT_SIZE + y / MIN_ALIGNMENT_SIZE);
  }

  lemma {:induction false} RawAllIsAligned(nodes: seq<Node>)
    ensures |RawAll(nodes)| % MIN_ALIGNMENT_SIZE == 0
  {
    if nodes != [] {
      var k := |nodes| - 1;
      hide RawNode, UnpackedNode, AlignSize;
      RawAllIsAligned(nodes[..k]);
      AlignedSum(|RawAll(nodes[..k])|, |RawNode(nodes[k])|);
    }
  }

  ghost predicate FitWhenAligned(nodes: seq<Node>) {
    forall i :: 0 <= i < |nodes| ==> nodes[i].Length() <= 0xFFFC
  }

  lemma {:induction false} RawNodeIsEncoded(n: Node)
    requires n.Fits()
    ensures UnpackedNode(n).Fits() <==> n.Length() <= 0xFFFC
    ensures n.Length() <= 0xFFFC ==> RawNode(n) == Encode(UnpackedNode(n))
    ensures n.Length() > 0xFFFC ==> RawNode(n)[2] == 0 && RawNode(n)[3] == 0
  {
  }

  lemma {:induction false} UnpackedByOne(nodes: seq<Node>, k: nat)
    requires k < |nodes|
    ensures Unpacked(nodes[..k + 1]) == Unpacked(nodes[..k]) + [UnpackedNode(nodes[k])]
    ensures RawAll(nodes[..k + 1]) == RawAll(nodes[..k]) + RawNode(nodes[k])
  {
    hide RawNode, UnpackedNode;
    assert nodes[..k + 1][..k] == nodes[..k];
  }

  lemma {:induction false} RawIsEncoded(nodes: seq<Node>)
    requires AllFit(nodes) && FitWhenAligned(nodes)
    ensures AllFit(Unpacked(nodes)) && RawAll(nodes) == EncodeAll(Unpacked(nodes))
  {
    forall i | 0 <= i < |nodes|
      ensures UnpackedNode(nodes[i]).Fits()
    {
      RawNodeIsEncoded(nodes[i]);
    }
    if nodes != [] {
      var k := |nodes| - 1;
      RawIsEncoded(nodes[..k]);
      RawNodeIsEncoded(nodes[k]);
      UnpackedByOne(nodes, k);
      assert nodes[..k + 1] == nodes;
      LastByOne(Unpacked(nodes));
      assert Unpacked(nodes)[..k] == Unpacked(nodes[..k]);
    }
  }

  method AllocateZeroPool(size: nat) returns (p: array<Byte>)
    ensures fresh(p) && p[..] == Zeros(size)
  {
    p := new Byte[size](_ => 0);
    assert p[..] == Zeros(size);
  }

  lemma {:induction false} SamePadding(total: nat, size: nat)
    requires total % MIN_ALIGNMENT_SIZE == 0
    ensures AlignSize(total + size) == AlignSize(size)
  {
    var q := total / MIN_ALIGNMENT_SIZE;
    assert total == MIN_ALIGNMENT_SIZE * q;
    assert (total + size) % MIN_ALIGNMENT_SIZE == size % MIN_ALIGNMENT_SIZE;
  }

  lemma {:induction false} SizeByOne(nodes: seq<Node>, k: nat, size: nat)
    requires k < |nodes| && size == |RawAll(nodes[..k])|
    ensures var next := size + nodes[k].Length();
            next + AlignSize(next) == |RawAll(nodes[..k + 1])|
  {
    hide AlignSize;
    UnpackedByOne(nodes, k);
    RawAllIsAligned(nodes[..k]);
    SamePadding(size, nodes[k].Length());
    assert |RawNode(nodes[k])| == nodes[k].Length() + AlignSize(nodes[k].Length());
  }

  /** Where both passes stand at node k. */
  lemma {:induction false} AtNode(src: Memory, nodes: seq<Node>, k: nat)
    requires IsPath(nodes) && k < |nodes| && EncodeAll(nodes[k..]) <= src
    ensures |src| >= HEADER && NodeLength(src) == nodes[k].Length() <= |src| && src[..NodeLength(src)] == Encode(nodes[k])
    ensures IsEnd(src) <==> k + 1 == |nodes|
    ensures EncodeAll(nodes[k + 1..]) <= NextNode(src)
  {
    MacrosReadFirst(src, nodes[k..]);
    EndIsLast(nodes, k);
    assert nodes[k..][1..] == nodes[k + 1..];
  }

  lemma {:induction false} SizeAtNode(src: Memory, nodes: seq<Node>, k: nat, size: nat)
    requires IsPath(nodes) && k < |nodes| && EncodeAll(nodes[k..]) <= src && size == |RawAll(nodes[..k])|
    ensures |src| >= HEADER && NodeLength(src) <= |src| && EncodeAll(nodes[k + 1..]) <= NextNode(src)
    ensures var next := size + NodeLength(src);
            next + AlignSize(next) == |RawAll(nodes[..k + 1])|
    ensures IsEnd(src) <==> k + 1 == |nodes|
  {
    hide IsPath, EncodeAll, RawAll, AlignSize, Encode, IsEnd;
    AtNode(src, nodes, k);
    SizeByOne(nodes, k, size);
  }

  /** The sizing pass: it aligns the running total, the copying pass each node; the two
      agree. */
  method UnpackedSize(devPath: Memory, ghost nodes: seq<Node>) returns (size: nat)
    requires Shows(devPath, nodes)
    ensures size == |RawAll(nodes)|
  {
    var src := devPath;
    ghost var k := 0;
    size := 0;
    assert nodes != [] && nodes[0..] == nodes && RawAll(nodes[..0]) == [];
    hide EncodeAll, RawAll, AlignSize, IsPath, IsEnd, NodeLength, NextNode;
    while true
      invariant 0 <= k < |nodes| && EncodeAll(nodes[k..]) <= src
      invariant size == |RawAll(nodes[..k])|
      decreases |nodes| - k
    {
      SizeAtNode(src, nodes, k, size);
      size := size + NodeLength(src);
      size := size + AlignSize(size);
      if IsEnd(src) {
        break;
      }
      src, k := NextNode(src), k + 1;
    }
    assert nodes[..k + 1] == nodes;
  }

  lemma {:induction false} RawPrefixFits(nodes: seq<Node>, k: nat)
    requires k <= |nodes|
    ensures |RawAll(nodes[..k])| <= |RawAll(nodes)|
    decreases |nodes| - k
  {
    if k < |nodes| {
      UnpackedByOne(nodes, k);
      RawPrefixFits(nodes, k + 1);
    } else {
      assert nodes[..k] == nodes;
    }
  }

  /** The header rewritten: length and type. */
  function Patch(bytes: Memory, at: nat, length: nat, kind: Byte): (r: Memory)
    requires at + HEADER <= |bytes|
    ensures |r| == |bytes|
  {
    bytes[at + 2 := length % 256][at + 3 := length / 256 % 256][at := kind]
  }

  lemma {:induction false} PatchedNode(bytes: Memory, before: Memory, n: Node, tail: Memory)
    requires n.Fits() && bytes == before + Encode(n) + tail
    requires AlignSize(n.Length()) <= |tail| && forall i :: 0 <= i < |tail| ==> tail[i] == 0
    ensures var length := n.Length() + AlignSize(n.Length());
            var r := Patch(bytes, |before|, length, Marked(n.kind));
            && r[..|before| + length] == before + RawNode(n)
            && forall i :: |before| + length <= i < |r| ==> r[i] == 0
  {
    hide AlignSize;
    var pad := Zeros(AlignSize(n.Length()));
    assert tail == pad + tail[|pad|..];
    assert bytes == before + (Encode(n) + pad) + tail[|pad|..];
    var length := n.Length() + |pad|;
    var r := Patch(bytes, |before|, length, Marked(n.kind));
    assert r == before + Patch(Encode(n) + pad, 0, length, Marked(n.kind)) + tail[|pad|..];
    assert Patch(Encode(n) + pad, 0, length, Marked(n.kind)) == RawNode(n);
  }

  method RewriteHeader(path: array<Byte>, at: nat, length: nat)
    requires at + HEADER <= path.Length
    modifies path
    ensures path[..] == Patch(old(path[..]), at, length, Marked(old(path[at])))
  {
    path[at + 2] := length % 256;
    path[at + 3] := length / 256 % 256;
    path[at] := Marked(path[at]);
  }

  /** The copying pass's turn: copy the node, then rewrite its length and mark its type. */
  method UnpackNode(newPath: array<Byte>, dest: nat, src: Memory, ghost n: Node, ghost before: Memory) returns (next: nat)
    requires n.Fits() && |src| >= HEADER && NodeLength(src) == n.Length() <= |src| && src[..n.Length()] == Encode(n)
    requires dest + |RawNode(n)| <= newPath.Length && newPath[..dest] == before
    requires forall i :: dest <= i < newPath.Length ==> newPath[i] == 0
    modifies newPath
    ensures next == dest + |RawNode(n)| && newPath[..next] == before + RawNode(n)
    ensures forall i :: next <= i < newPath.Length ==> newPath[i] == 0
  {
    hide Patch;
    var size := NodeLength(src);
    ghost var tail := newPath[dest + size..];
    CopyMem(newPath, dest, src[..size]);
    assert newPath[..] == before + Encode(n) + tail;
    size := size + AlignSize(size);
    ghost var copied := newPath[..];
    PatchedNode(copied, before, n, tail);
    assert copied[dest] == Encode(n)[0];
    RewriteHeader(newPath, dest, size);
    next := dest + size;
    assert newPath[..next] == newPath[..][..next];
  }

  lemma {:induction false} UnpackedKeepsEnds(n: Node)
    requires n.Length() <= 0xFFFC
    ensures var u := UnpackedNode(n);
            && u.Fits() && u.sub == n.sub && (n.body == [] ==> u.body == [])
            && (u.IsEndType() <==> n.IsEndType()) && (u.IsEnd() <==> n.IsEnd())
  {
    RawNodeIsEncoded(n);
  }

  lemma {:induction false} UnpackedIsPath(nodes: seq<Node>)
    requires IsPath(nodes) && FitWhenAligned(nodes)
    ensures IsPath(Unpacked(nodes))
  {
    hide UnpackedNode, Node.Fits, Node.IsEndType, Node.IsEnd;
    forall i | 0 <= i < |nodes|
      ensures var u := Unpacked(nodes)[i];
              && u.Fits() && (u.IsEndType() ==> u.body == [] && u.sub in {END_ENTIRE, END_INSTANCE})
              && (u.IsEnd() <==> i == |nodes| - 1)
    {
      UnpackedKeepsEnds(nodes[i]);
    }
  }

  /** UnpackDevicePath, with memory to allocate from. The block is filled exactly. */
  method UnpackDevicePath(devPath: Memory, ghost nodes: seq<Node>) returns (newPath: array<Byte>)
    requires Shows(devPath, nodes)
    ensures fresh(newPath) && newPath[..] == RawAll(nodes)
    ensures FitWhenAligned(nodes) ==> Shows(newPath[..], Unpacked(nodes)) && newPath[..] == EncodeAll(Unpacked(nodes))
  {
    var size := UnpackedSize(devPath, nodes);
    newPath := AllocateZeroPool(size);
    var src, dest := devPath, 0;
    ghost var k := 0;
    while true
      invariant 0 <= k < |nodes| && EncodeAll(nodes[k..]) <= src
      invariant dest == |RawAll(nodes[..k])| <= newPath.Length == |RawAll(nodes)|
      invariant newPath[..dest] == RawAll(nodes[..k])
      invariant forall i :: dest <= i < newPath.Length ==> newPath[i] == 0
      decreases |nodes| - k
    {
      AtNode(src, nodes, k);
      UnpackedByOne(nodes, k);
      RawPrefixFits(nodes, k + 1);
      dest := UnpackNode(newPath, dest, src, nodes[k], RawAll(nodes[..k]));
      if IsEnd(src) {
        break;
      }
      src, k := NextNode(src), k + 1;
    }
    assert nodes[..k + 1] == nodes;
    assert newPath[..] == newPath[..dest];
    if FitWhenAligned(nodes) {
      RawIsEncoded(nodes);
      UnpackedIsPath(nodes);
    }
  }

  /** A node is unpacked to the same type, marked with 0x80, the same subtype, the same
      payload with up to three zero bytes behind it, and a length that is a multiple of 4. */
  lemma {:induction false} UnpackingKeepsContents(n: Node)
    ensures var u := UnpackedNode(n);
            && u.kind == (if n.kind >= 0x80 then n.kind else n.kind + 0x80) && u.sub == n.sub && n.body <= u.body
            && (4 + |u.body|) % 4 == 0 && |u.body| < |n.body| + 4
            && forall i :: |n.body| <= i < |u.body| ==> u.body[i] == 0
  {
  }

  lemma {:induction false} LowWord(n: nat)
    ensures n % 256 + 256 * (n / 256 % 256) == n % 0x1_0000
  {
    assert n == 256 * (n / 256) + n % 256 && n / 256 == 256 * (n / 256 / 256) + n / 256 % 256;
  }

  /** What is written for it: its header takes the low 16 bits of that length. */
  lemma {:induction false} UnpackedBytes(n: Node)
    ensures var u, raw := UnpackedNode(n), RawNode(n);
            && |raw| == 4 + |u.body| && raw[0] == u.kind && raw[1] == u.sub
            && raw[2] as int + 256 * raw[3] as int == |raw| % 0x1_0000 && raw[4..] == u.body
  {
    hide AlignSize, Marked;
    LowWord(UnpackedNode(n).Length());
  }

  lemma {:induction false} UnpackedNodeIsUnpacked(n: Node)
    ensures UnpackedNode(UnpackedNode(n)) == UnpackedNode(n)
  {
    var u := UnpackedNode(n);
    assert AlignSize(u.Length()) == 0;
    assert u.body + Zeros(0) == u.body;
  }

  lemma {:induction false} UnpackedTwice(nodes: seq<Node>)
    ensures Unpacked(Unpacked(nodes)) == Unpacked(nodes)
  {
    hide UnpackedNode;
    forall i | 0 <= i < |nodes|
      ensures Unpacked(Unpacked(nodes))[i] == Unpacked(nodes)[i]
    {
      UnpackedNodeIsUnpacked(nodes[i]);
    }
  }

  lemma {:induction false} AlignedStaysBelow(length: nat)
    requires length <= 0xFFFC
    ensures length + AlignSize(length) <= 0xFFFC
  {
  }

  lemma {:induction false} UnpackedFitsAgain(nodes: seq<Node>)
    requires FitWhenAligned(nodes)
    ensures FitWhenAligned(Unpacked(nodes))
  {
    forall i | 0 <= i < |nodes|
      ensures Unpacked(nodes)[i].Length() <= 0xFFFC
    {
      AlignedStaysBelow(nodes[i].Length());
    }
  }

  /** Unpacking an unpacked path changes no byte. */
  lemma {:induction false} UnpackingIsIdempotent(nodes: seq<Node>)
    requires IsPath(nodes) && FitWhenAligned(nodes)
    ensures IsPath(Unpacked(nodes)) && RawAll(Unpacked(nodes)) == RawAll(nodes)
  {
    hide UnpackedNode, RawNode, Encode;
    UnpackedIsPath(nodes);
    UnpackedTwice(nodes);
    UnpackedFitsAgain(nodes);
    RawIsEncoded(nodes);
    RawIsEncoded(Unpacked(nodes));
  }

  lemma {:induction false} RawFromFront(nodes: seq<Node>)
    requires nodes != []
    ensures RawAll(nodes) == RawNode(nodes[0]) + RawAll(nodes[1..])
  {
    hide RawNode;
    var k := |nodes| - 1;
    if k > 0 {
      assert nodes[..k][1..] == nodes[1..][..k - 1];
      RawFromFront(nodes[..k]);
    }
  }

  lemma {:induction false} LongNodeStopsParse(nodes: seq<Node>)
    requires IsPath(nodes) && !FitWhenAligned(nodes)
    ensures Parse(RawAll(nodes)).None?
  {
    var n, bytes := nodes[0], RawAll(nodes);
    RawFromFront(nodes);
    RawNodeIsEncoded(n);
    assert bytes[0] == RawNode(n)[0] && bytes[1] == RawNode(n)[1] && bytes[2] == RawNode(n)[2] && bytes[3] == RawNode(n)[3];
    if n.Length() <= 0xFFFC {
      assert NodeLength(bytes) == UnpackedNode(n).Length();
      assert NextNode(bytes) == RawAll(nodes[1..]);
      assert !n.IsEnd();
      RestIsPath(nodes);
      LongNodeStopsParse(nodes[1..]);
    }
  }

  /** The unpacked bytes show the unpacked path if and only if every node is at most
      65532 bytes long: a longer one gets the length 0. */
  lemma {:induction false} UnpackedParsesIffNodesFit(nodes: seq<Node>)
    requires IsPath(nodes)
    ensures Parse(RawAll(nodes)) == Some(Unpacked(nodes)) <==> FitWhenAligned(nodes)
  {
    if FitWhenAligned(nodes) {
      RawIsEncoded(nodes);
      UnpackedIsPath(nodes);
      ParseUndoesEncoding(RawAll(nodes), Unpacked(nodes));
    } else {
      LongNodeStopsParse(nodes);
    }
  }
}
