/** UEFI device paths (gnu-efi/lib/dpath.c, gnu-efi/inc/efidevp.h; section 9.3 of UEFI 2.4).

    A device path is a run of length-prefixed nodes.  An end node with subtype 0x01 closes one
    instance, an end node with subtype 0xFF closes the path.  The library walks these runs by
    pointer; here a pointer is an offset into a byte sequence. */
module DevicePath {
  import opened Bytes

  // -------------------------------------------------------------------- nodes

  /** Type, SubType and what follows the four header bytes. */
  datatype Node = Node(typ: byte, sub: byte, payload: seq<byte>) {
    function Length(): nat {
      4 + |payload|
    }

    /** The length field can hold the length. */
    predicate Fits() {
      Length() < 65536
    }

    /** IsDevicePathEndType: bit 7 of the type marks unpacked nodes and is masked. */
    predicate EndType() {
      typ % 128 == 127
    }

    /** IsDevicePathEnd */
    predicate End() {
      EndType() && sub == 0xFF
    }
  }

  const END_INSTANCE := Node(0x7F, 0x01, [])
  const END_ENTIRE := Node(0x7F, 0xFF, [])

  /** The two length bytes keep the low sixteen bits, as SetDevicePathNodeLength does. */
  function EncodeNode(n: Node): (s: seq<byte>)
    ensures |s| == n.Length()
  {
    [n.typ, n.sub, n.Length() % 256, n.Length() / 256 % 256] + n.payload
  }

  function EncodeNodes(ns: seq<Node>): seq<byte> {
    if ns == [] then [] else EncodeNode(ns[0]) + EncodeNodes(ns[1..])
  }

  predicate AllFit(ns: seq<Node>) {
    forall i :: 0 <= i < |ns| ==> ns[i].Fits()
  }

  /** A run of nodes that is closed by its only end-of-path node. */
  predicate Terminated(ns: seq<Node>) {
    && |ns| > 0 && AllFit(ns)
    && ns[|ns| - 1].End()
    && forall i :: 0 <= i < |ns| - 1 ==> !ns[i].End()
  }

  /** Only the last node of a closed run is the end node. */
  lemma EndIsLast(ns: seq<Node>, k: nat)
    requires Terminated(ns) && k < |ns|
    ensures ns[k].Fits() && (ns[k].End() <==> k == |ns| - 1)
  {}

  lemma {:induction false} EncodeAppend(a: seq<Node>, b: seq<Node>)
    ensures EncodeNodes(a + b) == EncodeNodes(a) + EncodeNodes(b)
  {
    if a == [] {
      assert a + b == b;
    } else {
      assert (a + b)[1..] == a[1..] + b;
      EncodeAppend(a[1..], b);
    }
  }

  lemma EncodeOne(n: Node)
    ensures EncodeNodes([n]) == EncodeNode(n)
  {
    assert [n][1..] == [];
  }

  // ------------------------------------------------------- walking the memory

  /** The nodes `ns` are stored in `m` from offset `p`. */
  ghost predicate At(m: seq<byte>, p: nat, ns: seq<Node>) {
    p + |EncodeNodes(ns)| <= |m| && m[p..p + |EncodeNodes(ns)|] == EncodeNodes(ns)
  }

  /** DevicePathNodeLength */
  function NodeLength(m: seq<byte>, p: nat): nat
    requires p + 4 <= |m|
  {
    (m[p + 2] as int) + 256 * (m[p + 3] as int)
  }

  predicate EndTypeAt(m: seq<byte>, p: nat)
    requires p + 4 <= |m|
  {
    m[p] % 128 == 127
  }

  predicate EndAt(m: seq<byte>, p: nat)
    requires p + 4 <= |m|
  {
    EndTypeAt(m, p) && m[p + 1] == 0xFF
  }

  /** What the header macros see at the first of the nodes stored at `p`. */
  lemma HeadAt(m: seq<byte>, p: nat, ns: seq<Node>)
    requires At(m, p, ns) && ns != [] && ns[0].Fits()
    ensures p + ns[0].Length() <= |m|
    ensures m[p] == ns[0].typ && m[p + 1] == ns[0].sub
    ensures NodeLength(m, p) == ns[0].Length()
    ensures EndTypeAt(m, p) == ns[0].EndType() && EndAt(m, p) == ns[0].End()
    ensures m[p..p + ns[0].Length()] == EncodeNode(ns[0])
    ensures At(m, p + ns[0].Length(), ns[1..])
  {
    HeadStored(m, p, ns);
    var n := ns[0];
    HeaderBytes(n);
    hide At, EncodeNodes, EncodeNode;
    var w := m[p..p + n.Length()];
    assert m[p] == w[0] && m[p + 1] == w[1] && m[p + 2] == w[2] && m[p + 3] == w[3];
  }

  lemma HeadStored(m: seq<byte>, p: nat, ns: seq<Node>)
    requires At(m, p, ns) && ns != []
    ensures p + ns[0].Length() <= |m|
    ensures m[p..p + ns[0].Length()] == EncodeNode(ns[0])
    ensures At(m, p + ns[0].Length(), ns[1..])
  {
    var h, r := EncodeNode(ns[0]), EncodeNodes(ns[1..]);
    hide EncodeNode;
    assert EncodeNodes(ns) == h + r;
    var w := m[p..p + |h| + |r|];
    assert w == h + r;
    assert m[p..p + |h|] == w[..|h|];
    assert m[p + |h|..p + |h| + |r|] == w[|h|..];
  }

  lemma HeaderBytes(n: Node)
    requires n.Fits()
    ensures var h := EncodeNode(n);
            h[0] == n.typ && h[1] == n.sub && (h[2] as int) + 256 * (h[3] as int) == n.Length()
  {}

  lemma {:induction false} AtDrop(m: seq<byte>, p: nat, ns: seq<Node>, k: nat)
    requires At(m, p, ns) && k <= |ns|
    ensures At(m, p + |EncodeNodes(ns[..k])|, ns[k..])
    ensures m[p..p + |EncodeNodes(ns[..k])|] == EncodeNodes(ns[..k])
  {
    assert ns == ns[..k] + ns[k..];
    EncodeAppend(ns[..k], ns[k..]);
    var a, b := EncodeNodes(ns[..k]), EncodeNodes(ns[k..]);
    var w := m[p..p + |a| + |b|];
    assert w == a + b;
    assert m[p..p + |a|] == w[..|a|];
    assert m[p + |a|..p + |a| + |b|] == w[|a|..];
  }

  lemma AtEnd(m: seq<byte>, p: nat, ns: seq<Node>)
    requires At(m, p, ns)
    ensures p + |EncodeNodes(ns)| <= |m|
  {}

  lemma EncodedPrefix(ns: seq<Node>, k: nat)
    requires k <= |ns|
    ensures |EncodeNodes(ns[..k])| <= |EncodeNodes(ns)|
  {
    assert ns == ns[..k] + ns[k..];
    EncodeAppend(ns[..k], ns[k..]);
  }

  lemma EncodedLengthSnoc(ns: seq<Node>, k: nat)
    requires k < |ns|
    ensures |EncodeNodes(ns[..k + 1])| == |EncodeNodes(ns[..k])| + ns[k].Length()
  {
    assert ns[..k + 1] == ns[..k] + [ns[k]];
    EncodeAppend(ns[..k], [ns[k]]);
    EncodeOne(ns[k]);
  }

  /** Walk to the node that closes the path. */
  method FindEnd(m: seq<byte>, start: nat, ghost ns: seq<Node>) returns (p: nat)
    requires At(m, start, ns) && Terminated(ns) && |ns| > 0
    ensures p == start + |EncodeNodes(ns[..|ns| - 1])|
    ensures p + 4 <= p + ns[|ns| - 1].Length() <= |m|
    ensures m[p..p + ns[|ns| - 1].Length()] == EncodeNode(ns[|ns| - 1])
  {
    hide At, EncodeNodes, EncodeNode, Terminated, Node.End, Node.Fits;
    p := start;
    ghost var k := 0;
    EndIsLast(ns, 0);
    AtDrop(m, start, ns, 0);
    NothingEncoded(ns);
    HeadAt(m, start, ns[0..]);
    while !EndAt(m, p)
      invariant 0 <= k < |ns| && p == start + |EncodeNodes(ns[..k])|
      invariant p + 4 <= p + ns[k].Length() <= |m|
      invariant EndAt(m, p) == ns[k].End() && NodeLength(m, p) == ns[k].Length()
      invariant m[p..p + ns[k].Length()] == EncodeNode(ns[k])
      decreases |ns| - k
    {
      EncodedLengthSnoc(ns, k);
      EndIsLast(ns, k);
      p := p + NodeLength(m, p);
      k := k + 1;
      EndIsLast(ns, k);
      AtDrop(m, start, ns, k);
      HeadAt(m, p, ns[k..]);
    }
    EndIsLast(ns, k);
  }

  /** DevicePathSize: up to the closing end node, plus the four bytes of an end node. */
  method DevicePathSize(m: seq<byte>, start: nat, ghost ns: seq<Node>) returns (size: nat)
    requires At(m, start, ns) && Terminated(ns)
    ensures size == |EncodeNodes(ns[..|ns| - 1])| + 4
    ensures ns[|ns| - 1].payload == [] ==> size == |EncodeNodes(ns)|
  {
    hide At, EncodeNodes;
    var p := FindEnd(m, start, ns);
    EncodedLengthSnoc(ns, |ns| - 1);
    assert ns[..|ns|] == ns;
    size := p - start + 4;
  }

  lemma NothingEncoded(ns: seq<Node>)
    ensures EncodeNodes(ns[..0]) == []
  {}

  // -------------------------------------------------------------------- paths

  /** A path is a list of instances, each a list of nodes that are not end nodes. */
  type Path = seq<seq<Node>>

  predicate ValidInstance(inst: seq<Node>) {
    forall i :: 0 <= i < |inst| ==> inst[i].Fits() && !inst[i].EndType() && !inst[i].End()
  }

  predicate ValidPath(p: Path) {
    |p| > 0 && forall i :: 0 <= i < |p| ==> ValidInstance(p[i])
  }

  /** The nodes of a path, end nodes included. */
  function Stream(p: Path): seq<Node>
    requires |p| > 0
  {
    if |p| == 1 then p[0] + [END_ENTIRE] else p[0] + [END_INSTANCE] + Stream(p[1..])
  }

  function EncodePath(p: Path): seq<byte>
    requires |p| > 0
  {
    EncodeNodes(Stream(p))
  }

  lemma {:induction false} StreamTerminated(p: Path)
    requires ValidPath(p)
    ensures Terminated(Stream(p)) && Stream(p)[|Stream(p)| - 1] == END_ENTIRE
  {
    hide Node.End, Node.Fits;
    if |p| == 1 {
      OneTerminated();
      Prepended(p[0], [END_ENTIRE]);
    } else {
      StreamTerminated(p[1..]);
      EndInstanceFits();
      Prepended(p[0] + [END_INSTANCE], Stream(p[1..]));
    }
  }

  lemma OneTerminated()
    ensures Terminated([END_ENTIRE])
  {}

  lemma EndInstanceFits()
    ensures END_INSTANCE.Fits() && !END_INSTANCE.End()
  {}

  lemma Prepended(a: seq<Node>, ns: seq<Node>)
    requires Terminated(ns)
    requires forall i :: 0 <= i < |a| ==> a[i].Fits() && !a[i].End()
    ensures Terminated(a + ns) && (a + ns)[|a + ns| - 1] == ns[|ns| - 1]
  {
    hide Node.End, Node.Fits;
    var s := a + ns;
    forall i | 0 <= i < |s| ensures s[i].Fits() && (i < |s| - 1 ==> !s[i].End()) {
      if i >= |a| {
        assert s[i] == ns[i - |a|];
      }
    }
  }

  // ----------------------------------------------------- splitting by instance

  datatype Pointer = Null | To(offset: nat)

  /** The walk gives up on a node that is not an end node after this many (octal 01000, then one more). */
  const NODE_GUARD: nat := 513

  /** Index of the node at which DevicePathInstance stops. */
  function Cut(ns: seq<Node>, count: nat): (c: nat)
    requires count < |ns|
    ensures count <= c < |ns|
    decreases |ns| - count
  {
    if ns[count].EndType() || count >= NODE_GUARD || count == |ns| - 1 then count else Cut(ns, count + 1)
  }

  lemma {:induction false} CutAt(ns: seq<Node>, count: nat, n: nat)
    requires count <= n < |ns| && ns[n].EndType()
    requires forall i :: count <= i < n ==> !ns[i].EndType()
    ensures Cut(ns, count) == if n <= NODE_GUARD then n else if count <= NODE_GUARD then NODE_GUARD else count
    decreases n - count
  {
    if count < n && count < NODE_GUARD {
      CutAt(ns, count + 1, n);
    }
  }

  /** DevicePathInstance on the nodes `ns` stored at a non-null pointer: the size of the first
      instance and the pointer after it. */
  method DevicePathInstance(m: seq<byte>, devicePath: Pointer, ghost ns: seq<Node>)
    returns (start: Pointer, size: nat, next: Pointer)
    requires devicePath.To? ==> At(m, devicePath.offset, ns) && Terminated(ns)
    ensures start == devicePath
    ensures devicePath.Null? ==> next == Null
    ensures devicePath.To? ==>
              var c := Cut(ns, 0);
              && size == |EncodeNodes(ns[..c])|
              && next == (if ns[c].sub == 0xFF then Null else To(devicePath.offset + |EncodeNodes(ns[..c + 1])|))
  {
    hide At, EncodeNodes, Cut, Terminated;
    start := devicePath;
    if devicePath.Null? {
      return devicePath, 0, Null;
    }
    var p := devicePath.offset;
    var count := 0;
    WalkStarts(m, p, ns);
    while true
      invariant 0 <= count < |ns| && p == devicePath.offset + |EncodeNodes(ns[..count])|
      invariant Reads(m, p, ns[count])
      invariant Cut(ns, count) == Cut(ns, 0)
      decreases |ns| - count
    {
      CutStep(ns, count);
      EncodedLengthSnoc(ns, count);
      if count + 1 < |ns| {
        WalkSteps(m, devicePath.offset, ns, count);
      }
      if EndTypeAt(m, p) {
        break;
      }
      if count > 512 {
        break;
      }
      p := p + NodeLength(m, p);
      count := count + 1;
    }
    next := if m[p + 1] == 0xFF then Null else To(p + NodeLength(m, p));
    size := p - devicePath.offset;
  }

  /** The header macros at `p` see node `n`. */
  predicate Reads(m: seq<byte>, p: nat, n: Node) {
    && p + 4 <= |m| && EndTypeAt(m, p) == n.EndType() && NodeLength(m, p) == n.Length()
    && m[p + 1] == n.sub
  }

  lemma WalkStarts(m: seq<byte>, q: nat, ns: seq<Node>)
    requires At(m, q, ns) && Terminated(ns)
    ensures |ns| > 0 && |EncodeNodes(ns[..0])| == 0 && Reads(m, q, ns[0])
  {
    hide At, EncodeNodes;
    NothingEncoded(ns);
    HeadAt(m, q, ns);
  }

  lemma WalkSteps(m: seq<byte>, q: nat, ns: seq<Node>, count: nat)
    requires At(m, q, ns) && Terminated(ns) && count + 1 < |ns|
    ensures Reads(m, q + |EncodeNodes(ns[..count + 1])|, ns[count + 1])
  {
    hide At, EncodeNodes;
    AtDrop(m, q, ns, count + 1);
    EndIsLast(ns, count + 1);
    assert ns[count + 1..][0] == ns[count + 1];
    HeadAt(m, q + |EncodeNodes(ns[..count + 1])|, ns[count + 1..]);
  }

  lemma CutStep(ns: seq<Node>, count: nat)
    requires Terminated(ns) && count < |ns|
    ensures ns[count].EndType() || count > 512 ==> Cut(ns, count) == count
    ensures !(ns[count].EndType() || count > 512) ==> count + 1 < |ns| && Cut(ns, count) == Cut(ns, count + 1)
  {}

  lemma StreamShape(p: Path)
    requires |p| > 0
    ensures var ns, n := Stream(p), |p[0]|;
            && n < |ns| && ns[..n] == p[0]
            && ns[n] == (if |p| == 1 then END_ENTIRE else END_INSTANCE)
            && (|p| > 1 ==> ns[n + 1..] == Stream(p[1..]))
  {}

  /** On an encoded path the walk stops at the end of the first instance exactly when that
      instance has at most 513 nodes; otherwise it stops inside it. */
  lemma CutOfPath(p: Path)
    requires ValidPath(p)
    ensures |Stream(p)| > 0
    ensures Cut(Stream(p), 0) == if |p[0]| <= NODE_GUARD then |p[0]| else NODE_GUARD
  {
    hide Stream;
    StreamShape(p);
    var ns := Stream(p);
    assert forall i :: 0 <= i < |p[0]| ==> ns[i] == ns[..|p[0]|][i];
    CutAt(ns, 0, |p[0]|);
  }

  predicate Guarded(p: Path) {
    forall i :: 0 <= i < |p| ==> |p[i]| <= NODE_GUARD
  }

  function EncodedInstances(p: Path): seq<seq<byte>> {
    seq(|p|, i requires 0 <= i < |p| => EncodeNodes(p[i]))
  }

  /** One call on an encoded path: its first instance, and a pointer to the rest. */
  lemma FirstInstance(m: seq<byte>, q: nat, p: Path)
    requires ValidPath(p) && At(m, q, Stream(p)) && |p[0]| <= NODE_GUARD
    ensures |Stream(p)| > 0
    ensures var ns := Stream(p);
            var c := Cut(ns, 0);
            && c == |p[0]| && EncodeNodes(ns[..c]) == EncodeNodes(p[0])
            && q + |EncodeNodes(p[0])| <= |m|
            && m[q..q + |EncodeNodes(p[0])|] == EncodeNodes(p[0])
            && (ns[c].sub == 0xFF <==> |p| == 1)
            && (|p| > 1 ==> At(m, q + |EncodeNodes(ns[..c + 1])|, Stream(p[1..])))
  {
    hide At, Stream, Cut, EncodeNodes;
    var ns := Stream(p);
    CutOfPath(p);
    StreamShape(p);
    assert END_ENTIRE.sub == 0xFF && END_INSTANCE.sub == 0x01;
    AtEnd(m, q, ns);
    AtDrop(m, q, ns, |p[0]|);
    EncodedPrefix(ns, |p[0]|);
    AtDrop(m, q, ns, |p[0]| + 1);
  }

  /** The parts that repeated calls of DevicePathInstance cut a run of nodes into. */
  function Parts(ns: seq<Node>): seq<seq<Node>>
    requires Terminated(ns)
  {
    var c := Cut(ns, 0);
    if ns[c].sub == 0xFF then [ns[..c]]
    else
      RestTerminated(ns, c);
      [ns[..c]] + Parts(ns[c + 1..])
  }

  lemma RestTerminated(ns: seq<Node>, c: nat)
    requires Terminated(ns) && c < |ns| && ns[c].sub != 0xFF
    ensures c + 1 < |ns| && Terminated(ns[c + 1..])
  {
    hide Node.Fits;
    assert ns[|ns| - 1].sub == 0xFF;
    var r := ns[c + 1..];
    forall i | 0 <= i < |r| ensures r[i].Fits() && (r[i].End() <==> i == |r| - 1) {
      EndIsLast(ns, c + 1 + i);
    }
  }

  lemma PartsStep(ns: seq<Node>)
    requires Terminated(ns)
    ensures var c := Cut(ns, 0);
            && (ns[c].sub == 0xFF ==> Parts(ns) == [ns[..c]])
            && (ns[c].sub != 0xFF ==>
                  c + 1 < |ns| && Terminated(ns[c + 1..]) && Parts(ns) == [ns[..c]] + Parts(ns[c + 1..]))
  {
    if ns[Cut(ns, 0)].sub != 0xFF {
      RestTerminated(ns, Cut(ns, 0));
    }
  }

  /** The parts of an encoded path are its instances if and only if none has more than 513 nodes. */
  lemma {:induction false} PartsOfPath(p: Path)
    requires ValidPath(p)
    ensures Terminated(Stream(p)) && (Parts(Stream(p)) == p <==> Guarded(p))
    decreases |p|
  {
    hide Stream, Cut, Parts, Terminated;
    var ns := Stream(p);
    StreamTerminated(p);
    CutOfPath(p);
    StreamShape(p);
    PartsStep(ns);
    if |p[0]| <= NODE_GUARD && |p| > 1 {
      PartsOfPath(p[1..]);
      assert p == [p[0]] + p[1..];
      assert ns[|p[0]|].sub != 0xFF;
      if Guarded(p) {
        assert Guarded(p[1..]);
      }
      if Guarded(p[1..]) {
        forall i | 0 <= i < |p| ensures |p[i]| <= NODE_GUARD {
          assert i > 0 ==> p[i] == p[1..][i - 1];
        }
      }
      if Parts(ns) == p {
        assert Parts(ns)[1..] == p[1..];
        assert Parts(ns)[1..] == Parts(Stream(p[1..]));
      }
    } else if |p[0]| > NODE_GUARD {
      assert |Parts(ns)[0]| == NODE_GUARD;
    }
  }

  /** What a path is cut into: its instances, as long as none has more than 513 nodes. */
  function Pieces(p: Path): Path
    requires ValidPath(p)
  {
    StreamTerminated(p);
    Parts(Stream(p))
  }

  lemma PiecesValid(p: Path)
    requires ValidPath(p)
    ensures Terminated(Stream(p)) && Pieces(p) == Parts(Stream(p))
    ensures ValidPath(Pieces(p)) && |EncodePath(Pieces(p))| <= |EncodePath(p)| && (Pieces(p) == p <==> Guarded(p))
    ensures Pieces(p)[0] == if |p[0]| <= NODE_GUARD then p[0] else p[0][..NODE_GUARD]
  {
    hide Stream, Parts, EncodeNodes, Terminated, ValidInstance, Cut;
    PartsOfPath(p);
    PartsValid(Stream(p));
    PartsBytes(Stream(p));
    CutOfPath(p);
    StreamShape(p);
    PartsStep(Stream(p));
    if |p[0]| > NODE_GUARD {
      assert Stream(p)[..NODE_GUARD] == Stream(p)[..|p[0]|][..NODE_GUARD];
    }
  }

  lemma {:induction false} CutBefore(ns: seq<Node>, count: nat, i: nat)
    requires count <= i < |ns| && count < |ns| && i < Cut(ns, count)
    ensures !ns[i].EndType()
    decreases |ns| - count
  {
    if count < i {
      CutBefore(ns, count + 1, i);
    }
  }

  lemma {:induction false} PartsValid(ns: seq<Node>)
    requires Terminated(ns)
    ensures ValidPath(Parts(ns))
    decreases |ns|
  {
    var c := Cut(ns, 0);
    var first := ns[..c];
    forall i | 0 <= i < |first| ensures first[i].Fits() && !first[i].EndType() && !first[i].End() {
      CutBefore(ns, 0, i);
      EndIsLast(ns, i);
    }
    hide Cut, Parts, Terminated, ValidInstance;
    PartsStep(ns);
    if ns[c].sub != 0xFF {
      PartsValid(ns[c + 1..]);
    }
  }

  /** Encoded, the parts take no more room than the nodes they come from. */
  lemma {:induction false} PartsBytes(ns: seq<Node>)
    requires Terminated(ns)
    ensures |Parts(ns)| > 0 && |EncodePath(Parts(ns))| <= |EncodeNodes(ns)|
    decreases |ns|
  {
    var c := Cut(ns, 0);
    hide Cut, Parts, Terminated, EncodeNodes, EncodePath;
    PartsStep(ns);
    assert ns == ns[..c + 1] + ns[c + 1..];
    EncodeAppend(ns[..c + 1], ns[c + 1..]);
    EncodedLengthSnoc(ns, c);
    EncodePathSteps(Parts(ns));
    if ns[c].sub != 0xFF {
      PartsBytes(ns[c + 1..]);
      assert Parts(ns)[1..] == Parts(ns[c + 1..]);
    }
  }

  /** DevicePathInstanceCount, on any closed run of nodes.  `parts` are the byte ranges DevicePathInstance
      returned, in order. */
  method DevicePathInstanceCount(m: seq<byte>, devicePath: nat, ghost all: seq<Node>)
    returns (count: nat, ghost parts: seq<seq<byte>>)
    requires At(m, devicePath, all) && Terminated(all)
    ensures count == |Parts(all)|
    ensures parts == EncodedInstances(Parts(all))
  {
    hide At, EncodeNodes, Cut, Parts, Terminated;
    count, parts := 0, [];
    var q := To(devicePath);
    ghost var ns, whole := all, Parts(all);
    assert whole[0..] == whole;
    while true
      invariant 0 <= count <= |whole| && |parts| == count
      invariant q.Null? ==> count == |whole|
      invariant q.To? ==> At(m, q.offset, ns) && Terminated(ns) && Parts(ns) == whole[count..]
      invariant forall i :: 0 <= i < count ==> parts[i] == EncodeNodes(whole[i])
      decreases if q.To? then |ns| + 1 else 0
    {
      var inst, size, next := DevicePathInstance(m, q, ns);
      if inst.Null? {
        break;
      }
      ghost var c := Cut(ns, 0);
      PartsStep(ns);
      CutStored(m, q.offset, ns, c);
      assert whole[count] == whole[count..][0] == ns[..c];
      assert whole[count..][1..] == whole[count + 1..];
      parts := parts + [m[inst.offset..inst.offset + size]];
      q := next;
      count := count + 1;
      if q.To? {
        ns := ns[c + 1..];
      }
    }
  }

  lemma CutStored(m: seq<byte>, q: nat, ns: seq<Node>, c: nat)
    requires At(m, q, ns) && c < |ns|
    ensures q + |EncodeNodes(ns[..c])| <= |m| && m[q..q + |EncodeNodes(ns[..c])|] == EncodeNodes(ns[..c])
    ensures At(m, q + |EncodeNodes(ns[..c + 1])|, ns[c + 1..])
  {
    hide At, EncodeNodes;
    AtEnd(m, q, ns);
    EncodedPrefix(ns, c);
    AtDrop(m, q, ns, c);
    AtDrop(m, q, ns, c + 1);
  }

  // --------------------------------------------------- one path read one way

  lemma SameHead(m: seq<byte>, q: nat, ns: seq<Node>, ns': seq<Node>)
    requires At(m, q, ns) && At(m, q, ns') && ns != [] && ns' != [] && ns[0].Fits() && ns'[0].Fits()
    ensures ns[0] == ns'[0]
  {
    HeadAt(m, q, ns);
    HeadAt(m, q, ns');
    hide At, EncodeNodes;
    var a, b := EncodeNode(ns[0]), EncodeNode(ns'[0]);
    assert a == b;
    assert ns[0].payload == a[4..] && ns'[0].payload == b[4..];
  }

  lemma {:induction false} StreamUnique(m: seq<byte>, q: nat, ns: seq<Node>, ns': seq<Node>)
    requires At(m, q, ns) && At(m, q, ns') && Terminated(ns) && Terminated(ns')
    ensures ns == ns'
    decreases |ns|
  {
    hide At, EncodeNodes, EncodeNode;
    SameHead(m, q, ns, ns');
    if !ns[0].End() {
      HeadAt(m, q, ns);
      HeadAt(m, q, ns');
      StreamUnique(m, q + ns[0].Length(), ns[1..], ns'[1..]);
    }
    assert ns == [ns[0]] + ns[1..] && ns' == [ns'[0]] + ns'[1..];
  }

  lemma {:induction false} PathOfStream(p: Path, p': Path)
    requires ValidPath(p) && ValidPath(p') && Stream(p) == Stream(p')
    ensures p == p'
    decreases |p|
  {
    hide Stream;
    StreamShape(p);
    StreamShape(p');
    var ns, n, n' := Stream(p), |p[0]|, |p'[0]|;
    assert forall i :: 0 <= i < n ==> ns[i] == ns[..n][i] && !ns[i].EndType();
    assert forall i :: 0 <= i < n' ==> ns[i] == ns[..n'][i] && !ns[i].EndType();
    assert ns[n].EndType() && ns[n'].EndType();
    assert n == n' && p[0] == p'[0];
    if |p| > 1 && |p'| > 1 {
      PathOfStream(p[1..], p'[1..]);
      assert p == [p[0]] + p[1..] && p' == [p'[0]] + p'[1..];
    }
  }

  /** At most one path can be read at a given place. */
  lemma PathUnique(m: seq<byte>, q: nat, p: Path, p': Path)
    requires ValidPath(p) && ValidPath(p') && At(m, q, Stream(p)) && At(m, q, Stream(p'))
    ensures p == p'
  {
    StreamTerminated(p);
    StreamTerminated(p');
    StreamUnique(m, q, Stream(p), Stream(p'));
    PathOfStream(p, p');
  }

  // ---------------------------------------------------------------- appending

  /** DuplicateDevicePath */
  method DuplicateDevicePath(m: seq<byte>, ghost p: Path) returns (dst: array<byte>)
    requires ValidPath(p) && At(m, 0, Stream(p))
    ensures fresh(dst) && dst[..] == EncodePath(p)
  {
    StreamTerminated(p);
    var size := DevicePathSize(m, 0, Stream(p));
    dst := new byte[size];
    Copy(dst, 0, m[..size]);
    assert m[..size] == m[0..0 + size];
  }

  /** An argument that may be NULL. */
  datatype Source = Absent | Present(bytes: seq<byte>)

  ghost predicate Encodes(src: Source, p: Path) {
    src.Present? ==> ValidPath(p) && At(src.bytes, 0, Stream(p))
  }

  /** The bytes of `k` instances, each followed by the second path and an end-of-instance node. */
  function Glued(p: Path, second: seq<byte>, k: nat): seq<byte>
    requires k <= |p|
  {
    if k == 0 then []
    else Glued(p, second, k - 1) + EncodeNodes(p[k - 1]) + second + EncodeNode(END_INSTANCE)
  }

  /** ... with the last end marker changed. */
  function Appended(p: Path, second: seq<byte>): seq<byte>
    requires |p| > 0
  {
    Glued(p, second, |p| - 1) + EncodeNodes(p[|p| - 1]) + second + EncodeNode(END_ENTIRE)
  }

  lemma {:induction false} GluedMonotone(p: Path, second: seq<byte>, k: nat, n: nat)
    requires k <= n <= |p|
    ensures |Glued(p, second, k)| <= |Glued(p, second, n)|
    decreases n - k
  {
    if k < n {
      GluedMonotone(p, second, k, n - 1);
    }
  }

  lemma EncodePathSteps(p: Path)
    requires |p| > 0
    ensures |p| == 1 ==> EncodePath(p) == EncodeNodes(p[0]) + EncodeNode(END_ENTIRE)
    ensures |p| > 1 ==> EncodePath(p) == EncodeNodes(p[0]) + EncodeNode(END_INSTANCE) + EncodePath(p[1..])
  {
    hide EncodeNodes;
    if |p| == 1 {
      EncodeAppend(p[0], [END_ENTIRE]);
      EncodeOne(END_ENTIRE);
    } else {
      EncodeAppend(p[0] + [END_INSTANCE], Stream(p[1..]));
      EncodeAppend(p[0], [END_INSTANCE]);
      EncodeOne(END_INSTANCE);
    }
  }

  function InstanceBytes(p: Path, k: nat): nat
    requires k <= |p|
  {
    if k == 0 then 0 else InstanceBytes(p, k - 1) + |EncodeNodes(p[k - 1])|
  }

  lemma {:induction false} InstanceBytesTail(p: Path, k: nat)
    requires 0 < k <= |p|
    ensures InstanceBytes(p, k) == |EncodeNodes(p[0])| + InstanceBytes(p[1..], k - 1)
  {
    if k > 1 {
      InstanceBytesTail(p, k - 1);
      assert p[1..][k - 2] == p[k - 1];
    }
  }

  lemma {:induction false} PathLength(p: Path)
    requires |p| > 0
    ensures |EncodePath(p)| == InstanceBytes(p, |p|) + 4 * |p|
  {
    hide EncodeNodes, EncodePath;
    EncodePathSteps(p);
    InstanceBytesTail(p, |p|);
    if |p| > 1 {
      PathLength(p[1..]);
    }
  }

  lemma {:induction false} GluedLength(p: Path, second: seq<byte>, k: nat)
    requires k <= |p|
    ensures |Glued(p, second, k)| == InstanceBytes(p, k) + k * |second| + 4 * k
  {
    if k > 0 {
      GluedLength(p, second, k - 1);
      assert k * |second| == (k - 1) * |second| + |second|;
    }
  }

  /** What the copies take for `n` parts. */
  lemma WrittenBytes(parts: Path, second: seq<byte>)
    requires |parts| > 0
    ensures |Appended(parts, second)| == |EncodePath(parts)| + |parts| * |second|
    ensures |Glued(parts, second, |parts|)| == |Appended(parts, second)| >= 4
  {
    hide EncodeNodes, EncodePath;
    PathLength(parts);
    GluedLength(parts, second, |parts|);
    GluedSteps(parts, second, |parts|);
    assert |Appended(parts, second)| == |Glued(parts, second, |parts|)|;
  }

  /** The bytes of a path that are in none of its pieces: what the walk skips when it gives up inside an instance. */
  function Skipped(p: Path): nat
    requires ValidPath(p)
  {
    PiecesValid(p);
    |EncodePath(p)| - |EncodePath(Pieces(p))|
  }

  /** AppendDevicePath allocates (size of Src1) * (pieces of Src1) + (size of Src2) bytes, and what it writes stays
      inside. */
  predicate CopiesFit(p: Path, second: seq<byte>)
    requires ValidPath(p)
  {
    PiecesValid(p);
    |Appended(Pieces(p), second)| <= |EncodePath(p)| * |Pieces(p)| + |second|
  }

  /** It does if and only if the bytes skipped make up for the length by which Src2 exceeds Src1, once for each piece
      but one. */
  lemma AllocationSuffices(p: Path, second: seq<byte>)
    requires ValidPath(p)
    ensures CopiesFit(p, second) <==> (|Pieces(p)| - 1) * (|second| - |EncodePath(p)|) <= Skipped(p)
  {
    hide EncodePath, Pieces, Appended, ValidPath, Glued;
    PiecesValid(p);
    WrittenBytes(Pieces(p), second);
    Balance(|Pieces(p)|, |EncodePath(p)|, |EncodePath(Pieces(p))|, |second|);
  }

  lemma Balance(n: nat, a: nat, c: nat, b: nat)
    ensures c + n * b <= a * n + b <==> (n - 1) * (b - a) <= a - c
  {
    assert (n - 1) * (b - a) == n * b - a * n - b + a;
  }

  /** Within the node guard nothing is skipped: then it does if and only if Src1 has one instance or is at least as long
      as Src2, and for one instance the allocation is filled. */
  lemma AllocationWithinGuard(p: Path, second: seq<byte>)
    requires ValidPath(p) && Guarded(p)
    ensures Pieces(p) == p && Skipped(p) == 0
    ensures CopiesFit(p, second) <==> |p| == 1 || |second| <= |EncodePath(p)|
    ensures |p| == 1 ==> |Appended(p, second)| == |EncodePath(p)| * |p| + |second|
  {
    hide EncodePath, Pieces, Appended, ValidPath, Glued;
    PiecesValid(p);
    WrittenBytes(p, second);
    Room(|p|, |EncodePath(p)|, |second|);
  }

  lemma Room(n: nat, a: nat, b: nat)
    requires n >= 1
    ensures a + n * b <= a * n + b <==> n == 1 || b <= a
    ensures n == 1 ==> a + n * b == a * n + b
  {
    assert (a * n + b) - (a + n * b) == (n - 1) * (a - b);
    if n > 1 {
      if b > a { Negative(n - 1, a - b); } else { NonNegative(n - 1, a - b); }
    }
  }

  lemma Negative(x: nat, y: int)
    requires x >= 1 && y < 0
    ensures x * y < 0
  {}

  lemma NonNegative(x: nat, y: nat)
    ensures x * y >= 0
  {}

  /** CopyMem(DstPos, src, size); DstPos += size */
  method CopyNext(dst: array<byte>, pos: nat, src: seq<byte>) returns (next: nat)
    requires pos + |src| <= dst.Length
    modifies dst
    ensures next == pos + |src|
    ensures dst[..next] == old(dst[..pos]) + src
  {
    Copy(dst, pos, src);
    next := pos + |src|;
  }

  /** The loop of lines 176-186, on any closed run of nodes: each part it is cut into, followed by the second path. */
  method CopyInstances(dst: array<byte>, m1: seq<byte>, second: seq<byte>, ghost all: seq<Node>) returns (pos: nat)
    requires At(m1, 0, all) && Terminated(all)
    requires |Glued(Parts(all), second, |Parts(all)|)| <= dst.Length
    modifies dst
    ensures pos == |Glued(Parts(all), second, |Parts(all)|)|
    ensures dst[..pos] == Glued(Parts(all), second, |Parts(all)|)
  {
    hide At, EncodeNodes, Cut, Parts, Terminated, Glued;
    pos := 0;
    var q := To(0);
    ghost var k, ns, parts := 0, all, Parts(all);
    assert parts[0..] == parts;
    GluedSteps(parts, second, 0);
    while true
      invariant 0 <= k <= |parts| && (q.Null? ==> k == |parts|)
      invariant q.To? ==> At(m1, q.offset, ns) && Terminated(ns) && Parts(ns) == parts[k..]
      invariant pos == |Glued(parts, second, k)| <= dst.Length
      invariant dst[..pos] == Glued(parts, second, k)
      decreases if q.To? then |ns| + 1 else 0
    {
      var inst, size, next := DevicePathInstance(m1, q, ns);
      if inst.Null? {
        break;
      }
      ghost var c := Cut(ns, 0);
      PartsStep(ns);
      CutStored(m1, q.offset, ns, c);
      assert parts[k] == parts[k..][0] == ns[..c];
      assert parts[k..][1..] == parts[k + 1..];
      GluedSteps(parts, second, k + 1);
      GluedMonotone(parts, second, k + 1, |parts|);
      pos := CopyNext(dst, pos, m1[inst.offset..inst.offset + size]);
      pos := CopyNext(dst, pos, second);
      pos := CopyNext(dst, pos, EncodeNode(END_INSTANCE));
      q := next;
      k := k + 1;
      if q.To? {
        ns := ns[c + 1..];
      }
    }
  }

  lemma GluedSteps(p: Path, second: seq<byte>, k: nat)
    requires k <= |p|
    ensures k == 0 ==> Glued(p, second, k) == []
    ensures k > 0 ==>
              Glued(p, second, k) == Glued(p, second, k - 1) + EncodeNodes(p[k - 1]) + second + EncodeNode(END_INSTANCE)
  {}

  lemma GluedToAppended(p: Path, second: seq<byte>, bytes: seq<byte>, all: seq<byte>)
    requires |p| > 0 && bytes == Glued(p, second, |p|)
    requires |all| >= |bytes| && all[..|bytes| - 4] == bytes[..|bytes| - 4]
    requires all[|bytes| - 4..|bytes|] == EncodeNode(END_ENTIRE)
    ensures Appended(p, second) <= all
  {
    hide EncodeNodes;
    var front := Glued(p, second, |p| - 1) + EncodeNodes(p[|p| - 1]) + second;
    assert bytes == front + EncodeNode(END_INSTANCE);
    assert bytes[..|bytes| - 4] == front;
    assert all[..|bytes|] == all[..|bytes| - 4] + all[|bytes| - 4..|bytes|];
  }

  /** AppendDevicePath (allocation assumed to succeed).  The copies have to stay inside the allocation;
      AllocationSuffices says when they do. */
  method AppendDevicePath(src1: Source, src2: Source, ghost p1: Path, ghost p2: Path) returns (dst: array<byte>)
    requires src1.Present? || src2.Present?
    requires Encodes(src1, p1) && Encodes(src2, p2)
    requires src1.Present? && src2.Present? ==> CopiesFit(p1, EncodePath(p2))
    ensures fresh(dst)
    ensures src1.Absent? ==> dst[..] == EncodePath(p2)
    ensures src2.Absent? ==> dst[..] == EncodePath(p1)
    ensures src1.Present? && src2.Present? ==>
              && dst.Length == |EncodePath(p1)| * |Pieces(p1)| + |EncodePath(p2)|
              && |Pieces(p1)| > 0 && Appended(Pieces(p1), EncodePath(p2)) <= dst[..]
  {
    hide At, EncodeNodes, EncodePath, Cut, Stream, Glued, InstanceBytes, Parts, Terminated, Pieces, ValidInstance;
    if src1.Absent? {
      dst := DuplicateDevicePath(src2.bytes, p2);
      return;
    }
    if src2.Absent? {
      dst := DuplicateDevicePath(src1.bytes, p1);
      return;
    }
    var m1, m2 := src1.bytes, src2.bytes;
    PiecesValid(p1);
    ghost var e2, pieces := EncodePath(p2), Pieces(p1);
    StreamTerminated(p1);
    StreamTerminated(p2);
    var src1Size := DevicePathSize(m1, 0, Stream(p1));
    var src1Inst, parts := DevicePathInstanceCount(m1, 0, Stream(p1));
    var src2Size := DevicePathSize(m2, 0, Stream(p2));
    StreamStored(m1, p1);
    StreamStored(m2, p2);
    WrittenBytes(pieces, e2);
    dst := new byte[src1Size * src1Inst + src2Size];
    var pos := CopyInstances(dst, m1, m2[..src2Size], Stream(p1));
    ghost var glued := dst[..pos];
    // The end-of-instance node behind the last copy becomes the end of the path.
    pos := pos - 4;
    Copy(dst, pos, EncodeNode(END_ENTIRE));
    assert dst[..pos] == glued[..pos];
    GluedToAppended(pieces, e2, glued, dst[..]);
  }

  lemma StreamStored(m: seq<byte>, p: Path)
    requires ValidPath(p) && At(m, 0, Stream(p))
    ensures |EncodePath(p)| == |EncodeNodes(Stream(p))| <= |m|
    ensures m[..|EncodePath(p)|] == EncodePath(p)
    ensures Stream(p)[|Stream(p)| - 1].payload == []
  {
    StreamTerminated(p);
    assert m[..|EncodePath(p)|] == m[0..0 + |EncodePath(p)|];
  }

  /** The second path hung onto one instance. */
  function Extended(inst: seq<Node>, p2: Path): Path
    requires |p2| > 0
  {
    [inst + p2[0]] + p2[1..]
  }

  /** What AppendDevicePath documents: the second path appended to each instance of the first. */
  function ExtendedEach(p1: Path, p2: Path): Path
    requires |p2| > 0
  {
    if p1 == [] then [] else Extended(p1[0], p2) + ExtendedEach(p1[1..], p2)
  }

  lemma ExtendedEncodes(inst: seq<Node>, p2: Path)
    requires |p2| > 0
    ensures EncodeNodes(inst) + EncodePath(p2) == EncodePath(Extended(inst, p2))
  {
    hide EncodeNodes;
    var p := Extended(inst, p2);
    assert p[1..] == p2[1..];
    assert Stream(p) == inst + Stream(p2);
    EncodeAppend(inst, Stream(p2));
  }

  lemma {:induction false} GluedStarts(p: Path, second: seq<byte>, k: nat)
    requires 0 < k <= |p|
    ensures EncodeNodes(p[0]) + second <= Glued(p, second, k)
  {
    hide EncodeNodes;
    if k > 1 {
      GluedStarts(p, second, k - 1);
    }
  }

  /** Read back, the result is the first instance of Src1 extended by Src2: Src2 is copied with its
      own end-of-path node, so nothing after it belongs to the path. */
  lemma AppendedReads(p1: Path, p2: Path, all: seq<byte>)
    requires ValidPath(p1) && ValidPath(p2)
    requires Appended(p1, EncodePath(p2)) <= all
    ensures ValidPath(Extended(p1[0], p2))
    ensures At(all, 0, Stream(Extended(p1[0], p2)))
  {
    var p, e := Extended(p1[0], p2), EncodePath(p2);
    var x := EncodeNodes(p1[0]) + e;
    ExtendedValid(p1, p2);
    ExtendedEncodes(p1[0], p2);
    AppendedStarts(p1, e);
    hide EncodeNodes, EncodePath, Appended, ValidPath, Extended;
    assert all[0..0 + |x|] == x;
    StreamIsEncodePath(p);
  }

  lemma ExtendedValid(p1: Path, p2: Path)
    requires ValidPath(p1) && ValidPath(p2)
    ensures ValidPath(Extended(p1[0], p2))
  {}

  lemma AppendedStarts(p: Path, e: seq<byte>)
    requires |p| > 0
    ensures EncodeNodes(p[0]) + e <= Appended(p, e)
  {
    hide EncodeNodes;
    if |p| > 1 {
      GluedStarts(p, e, |p| - 1);
    }
    hide Glued;
  }

  lemma StreamIsEncodePath(p: Path)
    requires |p| > 0
    ensures EncodeNodes(Stream(p)) == EncodePath(p)
  {}

  lemma {:induction false} EachLength(p1: Path, p2: Path)
    requires |p2| > 0
    ensures |ExtendedEach(p1, p2)| == |p1| * |p2|
  {
    if p1 != [] {
      EachLength(p1[1..], p2);
      assert |p1| * |p2| == |p2| + (|p1| - 1) * |p2|;
    }
  }

  /** The path AppendDevicePath produces is the documented one if and only if Src1 has one instance, and that has at
      most 513 nodes. */
  lemma AppendMeetsDocumentation(p1: Path, p2: Path, all: seq<byte>, r: Path)
    requires ValidPath(p1) && ValidPath(p2) && |Pieces(p1)| > 0
    requires Appended(Pieces(p1), EncodePath(p2)) <= all
    requires ValidPath(r) && At(all, 0, Stream(r))
    ensures r == Extended(Pieces(p1)[0], p2)
    ensures r == ExtendedEach(p1, p2) <==> |p1| == 1 && |p1[0]| <= NODE_GUARD
  {
    hide At, Appended, Pieces, ValidInstance, Stream, Extended, ExtendedEach, EncodePath;
    PiecesValid(p1);
    AppendedReads(Pieces(p1), p2, all);
    PathUnique(all, 0, r, Extended(Pieces(p1)[0], p2));
    ExtendedLengths(Pieces(p1)[0], p1[0], p2);
    EachMeaning(p1, p2);
  }

  lemma ExtendedLengths(a: seq<Node>, b: seq<Node>, p2: Path)
    requires |p2| > 0
    ensures |Extended(a, p2)| == |p2| && (Extended(a, p2) == Extended(b, p2) ==> |a| == |b|)
  {
    assert Extended(a, p2)[0] == a + p2[0] && Extended(b, p2)[0] == b + p2[0];
  }

  lemma EachMeaning(p1: Path, p2: Path)
    requires |p1| > 0 && |p2| > 0
    ensures |p1| == 1 ==> ExtendedEach(p1, p2) == Extended(p1[0], p2)
    ensures |p1| > 1 ==> |ExtendedEach(p1, p2)| > |p2|
  {
    hide Extended;
    EachLength(p1, p2);
    if |p1| == 1 {
      assert p1[1..] == [];
      assert ExtendedEach(p1, p2) == Extended(p1[0], p2) + [];
    } else {
      MoreThanOne(|p1|, |p2|);
    }
  }

  lemma MoreThanOne(a: nat, b: nat)
    requires a > 1 && b > 0
    ensures a * b > b
  {
    assert a * b == b + (a - 1) * b;
  }

  /** AppendDevicePathNode: the node with a terminator is appended as a path of its own. */
  method AppendDevicePathNode(src1: Source, src2: seq<byte>, ghost p1: Path, ghost node: Node)
    returns (dst: array<byte>)
    requires Encodes(src1, p1) && At(src2, 0, [node]) && node.Fits() && !node.EndType()
    requires src1.Present? ==> CopiesFit(p1, EncodePath([[node]]))
    ensures src1.Absent? ==> dst[..] == EncodePath([[node]])
    ensures src1.Present? ==> |Pieces(p1)| > 0 && At(dst[..], 0, Stream([Pieces(p1)[0] + [node]]))
    ensures src1.Present? && |p1| == 1 && |p1[0]| <= NODE_GUARD ==>
              && At(dst[..], 0, Stream([p1[0] + [node]]))
              && dst.Length == |EncodePath(p1)| + |EncodePath([[node]])|
  {
    hide At, EncodeNodes, EncodePath, Stream, Appended, Pieces;
    ghost var p2 := [[node]];
    var temp := TerminatedCopy(src2, node);
    StreamAt(temp[..], p2);
    dst := AppendDevicePath(src1, Present(temp[..]), p1, p2);
    if src1.Present? {
      PiecesValid(p1);
      AppendedReads(Pieces(p1), p2, dst[..]);
      assert Extended(Pieces(p1)[0], p2) == [Pieces(p1)[0] + [node]];
    }
  }

  /** Lines 213-221: a copy of the node with an end-of-path node set behind it. */
  method TerminatedCopy(src: seq<byte>, ghost node: Node) returns (temp: array<byte>)
    requires At(src, 0, [node]) && node.Fits() && !node.EndType()
    ensures fresh(temp) && temp[..] == EncodePath([[node]])
  {
    hide At, EncodeNodes, EncodePath, EncodeNode;
    HeadAt(src, 0, [node]);
    EncodePathSteps([[node]]);
    EncodeOne(node);
    var length := NodeLength(src, 0);
    temp := new byte[length + 4];
    Copy(temp, 0, src[0..0 + length]);
    SetDevicePathEndNode(temp, length);
  }

  method SetDevicePathEndNode(dst: array<byte>, at: nat)
    requires at + 4 <= dst.Length
    modifies dst
    ensures dst[..] == old(dst[..at]) + EncodeNode(END_ENTIRE) + old(dst[at + 4..])
  {
    dst[at] := 0x7F;
    dst[at + 1] := 0xFF;
    dst[at + 2] := 4;
    dst[at + 3] := 0;
    assert EncodeNode(END_ENTIRE) == [0x7F, 0xFF, 4, 0];
  }

  // --------------------------------------------------------- adding an instance

  lemma {:induction false} StreamConcat(p: Path, q: Path)
    requires |p| > 0 && |q| > 0
    ensures |Stream(p)| > 0
    ensures Stream(p + q) == Stream(p)[..|Stream(p)| - 1] + ([END_INSTANCE] + Stream(q))
    ensures Stream(p)[|Stream(p)| - 1] == END_ENTIRE
  {
    hide Stream;
    StreamStep(p);
    ConcatStep(p, q);
    if |p| == 1 {
      Snoc(p[0], END_ENTIRE);
      assert p[0] + [END_INSTANCE] + Stream(q) == p[0] + ([END_INSTANCE] + Stream(q));
    } else {
      StreamConcat(p[1..], q);
      Reassociate(p[0] + [END_INSTANCE], Stream(p[1..]), [END_INSTANCE] + Stream(q));
    }
  }

  lemma ConcatStep(p: Path, q: Path)
    requires |p| > 0 && |q| > 0
    ensures Stream(p + q) == p[0] + [END_INSTANCE] + Stream(if |p| == 1 then q else p[1..] + q)
  {
    hide Stream;
    StreamStep(p + q);
    assert (p + q)[1..] == if |p| == 1 then q else p[1..] + q;
  }

  lemma Snoc(a: seq<Node>, n: Node)
    ensures (a + [n])[..|a + [n]| - 1] == a && (a + [n])[|a + [n]| - 1] == n
  {}

  lemma StreamStep(p: Path)
    requires |p| > 0
    ensures |p| == 1 ==> Stream(p) == p[0] + [END_ENTIRE]
    ensures |p| > 1 ==> Stream(p) == p[0] + [END_INSTANCE] + Stream(p[1..])
  {}

  lemma Reassociate(a: seq<Node>, t: seq<Node>, m: seq<Node>)
    requires |t| > 0
    ensures (a + t)[..|a + t| - 1] + m == a + (t[..|t| - 1] + m)
    ensures (a + t)[|a + t| - 1] == t[|t| - 1]
  {}

  /** AppendDevicePathInstance: the encoding of the instances of one path followed by the other's. */
  method AppendDevicePathInstance(src: Source, instance: seq<byte>, ghost p: Path, ghost q: Path)
    returns (dst: array<byte>)
    requires Encodes(src, p) && ValidPath(q) && At(instance, 0, Stream(q))
    ensures src.Absent? ==> dst[..] == EncodePath(q)
    ensures src.Present? ==> dst[..] == EncodePath(p + q)
  {
    hide At, EncodeNodes, EncodePath, Stream;
    if src.Absent? {
      dst := DuplicateDevicePath(instance, q);
      return;
    }
    StreamTerminated(p);
    StreamTerminated(q);
    StreamStored(src.bytes, p);
    StreamStored(instance, q);
    var srcSize := DevicePathSize(src.bytes, 0, Stream(p));
    var instanceSize := DevicePathSize(instance, 0, Stream(q));
    dst := new byte[srcSize + instanceSize];
    Copy(dst, 0, src.bytes[..srcSize]);
    ghost var copied := dst[..];
    assert copied[..srcSize] == EncodePath(p);
    StreamAt(copied, p);
    var end := FindEnd(dst[..], 0, Stream(p));
    StreamEnds(p, end);
    SetAndCopy(dst, end, instance[..instanceSize]);
    InstanceJoined(p, q, end, copied, dst[..]);
  }

  lemma StreamEnds(p: Path, end: nat)
    requires ValidPath(p) && |Stream(p)| > 0 && end == |EncodeNodes(Stream(p)[..|Stream(p)| - 1])|
    ensures Stream(p)[|Stream(p)| - 1] == END_ENTIRE && END_ENTIRE.Length() == 4
    ensures EncodeNode(END_ENTIRE) == [0x7F, 0xFF, 4, 0]
    ensures |EncodePath(p)| == end + 4
  {
    hide Stream, EncodeNodes;
    StreamTerminated(p);
    var s := Stream(p);
    EncodedLengthSnoc(s, |s| - 1);
    assert s[..|s|] == s;
  }

  /** Turn the end-of-path node at `end` into an end-of-instance node and copy the rest behind it. */
  method SetAndCopy(dst: array<byte>, end: nat, rest: seq<byte>)
    requires end + 4 + |rest| == dst.Length && dst[end..end + 4] == [0x7F, 0xFF, 4, 0]
    modifies dst
    ensures dst[..] == old(dst[..end]) + [0x7F, 0x01, 4, 0] + rest
  {
    ghost var before := dst[..];
    assert before[end..end + 4] == [0x7F, 0xFF, 4, 0];
    assert before[end] == before[end..end + 4][0] && before[end + 1] == before[end..end + 4][1];
    assert before[end + 2] == before[end..end + 4][2] && before[end + 3] == before[end..end + 4][3];
    dst[end + 1] := 0x01;
    var next := end + (dst[end + 2] as int) + 256 * (dst[end + 3] as int);
    assert dst[..next] == before[..end] + [0x7F, 0x01, 4, 0];
    Copy(dst, next, rest);
  }

  lemma StreamAt(m: seq<byte>, p: Path)
    requires |p| > 0 && EncodePath(p) <= m
    ensures At(m, 0, Stream(p))
  {
    assert m[0..0 + |EncodePath(p)|] == m[..|EncodePath(p)|];
  }

  lemma InstanceJoined(p: Path, q: Path, end: nat, before: seq<byte>, after: seq<byte>)
    requires ValidPath(p) && ValidPath(q) && |Stream(p)| > 0
    requires end == |EncodeNodes(Stream(p)[..|Stream(p)| - 1])|
    requires EncodePath(p) <= before && end + 4 <= |before|
    requires after == before[..end] + [0x7F, 0x01, 4, 0] + EncodePath(q)
    ensures after == EncodePath(p + q)
  {
    hide EncodeNodes;
    StreamConcat(p, q);
    hide Stream;
    var s := Stream(p);
    var front := s[..|s| - 1];
    assert s == front + [END_ENTIRE];
    EncodeAppend(front, [END_ENTIRE]);
    assert before[..end] == EncodePath(p)[..end] == EncodeNodes(front);
    EncodeAppend(front, [END_INSTANCE] + Stream(q));
    EncodeAppend([END_INSTANCE], Stream(q));
    EncodeOne(END_INSTANCE);
    EndInstanceBytes();
    hide EncodeNode;
    assert after == before[..end] + (EncodeNode(END_INSTANCE) + EncodePath(q));
  }

  lemma EndInstanceBytes()
    ensures EncodeNode(END_INSTANCE) == [0x7F, 0x01, 4, 0]
  {}

  // ---------------------------------------------------------------- unpacking

  /** MIN_ALIGNMENT_SIZE on x86_64 (gnu-efi/inc/x86_64/efibind.h:150). */
  const ALIGNMENT: nat := 4

  /** ALIGN_SIZE */
  function AlignSize(a: nat): nat {
    if a % ALIGNMENT != 0 then ALIGNMENT - a % ALIGNMENT else 0
  }

  function Zeros(n: nat): (z: seq<byte>)
    ensures |z| == n
  {
    seq(n, _ => 0)
  }

  /** Type |= EFI_DP_TYPE_UNPACKED */
  function MarkUnpacked(t: byte): byte {
    if t < 128 then t + 128 else t
  }

  function UnpackNode(n: Node): Node {
    Node(MarkUnpacked(n.typ), n.sub, n.payload + Zeros(AlignSize(n.Length())))
  }

  function UnpackNodes(ns: seq<Node>): (r: seq<Node>)
    ensures |r| == |ns|
  {
    if ns == [] then [] else UnpackNodes(ns[..|ns| - 1]) + [UnpackNode(ns[|ns| - 1])]
  }

  /** The bytes the copy pass has written after `k` nodes. */
  function UnpackedPrefix(ns: seq<Node>, k: nat): seq<byte>
    requires k <= |ns|
  {
    EncodeNodes(UnpackNodes(ns[..k]))
  }

  lemma PrefixStep(ns: seq<Node>, k: nat)
    requires k < |ns|
    ensures UnpackedPrefix(ns, k + 1) == UnpackedPrefix(ns, k) + EncodeNode(UnpackNode(ns[k]))
  {
    hide EncodeNodes, EncodeNode;
    assert ns[..k + 1][..k] == ns[..k];
    EncodeAppend(UnpackNodes(ns[..k]), [UnpackNode(ns[k])]);
    EncodeOne(UnpackNode(ns[k]));
  }

  lemma PrefixNone(ns: seq<Node>)
    ensures UnpackedPrefix(ns, 0) == []
  {
    assert ns[..0] == [];
  }

  /** Every node of the result starts on an aligned offset. */
  lemma {:induction false} PrefixAligned(ns: seq<Node>, k: nat)
    requires k <= |ns|
    ensures |UnpackedPrefix(ns, k)| % ALIGNMENT == 0
  {
    hide UnpackedPrefix;
    if k == 0 {
      PrefixNone(ns);
    } else {
      PrefixAligned(ns, k - 1);
      PrefixStep(ns, k - 1);
      UnpackedLength(ns[k - 1]);
    }
  }

  lemma UnpackedLength(n: Node)
    ensures UnpackNode(n).Length() == n.Length() + AlignSize(n.Length())
    ensures UnpackNode(n).Length() % ALIGNMENT == 0
  {}

  /** Rounding the running total, as the sizing pass does, is rounding each node. */
  lemma RoundingAgrees(size: nat, n: Node)
    requires size % ALIGNMENT == 0
    ensures size + n.Length() + AlignSize(size + n.Length()) == size + UnpackNode(n).Length()
  {
    hide UnpackNode;
    UnpackedLength(n);
    AlignedShift(size, n.Length());
  }

  lemma AlignedShift(size: nat, length: nat)
    requires size % ALIGNMENT == 0
    ensures (size + length) % ALIGNMENT == length % ALIGNMENT
  {}

  lemma {:induction false} PrefixMonotone(ns: seq<Node>, k: nat)
    requires k <= |ns|
    ensures |UnpackedPrefix(ns, k)| <= |UnpackedPrefix(ns, |ns|)|
    decreases |ns| - k
  {
    hide UnpackedPrefix;
    if k < |ns| {
      PrefixStep(ns, k);
      PrefixMonotone(ns, k + 1);
    }
  }

  /** The sizing pass, lines 348-359. */
  method UnpackedSize(m: seq<byte>, start: nat, ghost ns: seq<Node>) returns (size: nat)
    requires At(m, start, ns) && Terminated(ns) && |ns| > 0
    ensures size == |UnpackedPrefix(ns, |ns|)|
  {
    hide At, EncodeNodes, UnpackedPrefix, UnpackNode, AlignSize, Terminated, Node.End, Node.Fits;
    var src := start;
    size := 0;
    ghost var k := 0;
    PrefixNone(ns);
    AtDrop(m, start, ns, 0);
    NothingEncoded(ns);
    while true
      invariant 0 <= k < |ns| && src == start + |EncodeNodes(ns[..k])|
      invariant At(m, src, ns[k..])
      invariant size == |UnpackedPrefix(ns, k)|
      decreases |ns| - k
    {
      EndIsLast(ns, k);
      HeadAt(m, src, ns[k..]);
      PrefixAligned(ns, k);
      PrefixStep(ns, k);
      RoundingAgrees(size, ns[k]);
      size := size + NodeLength(m, src);
      size := size + AlignSize(size);
      if EndAt(m, src) {
        break;
      }
      EncodedLengthSnoc(ns, k);
      src := src + NodeLength(m, src);
      k := k + 1;
      AtDrop(m, start, ns, k);
    }
  }

  /** One round of the copy pass: the node's bytes, its padded length, its unpacked mark. */
  method CopyUnpacked(dst: array<byte>, at: nat, bytes: seq<byte>, ghost n: Node) returns (next: nat)
    requires bytes == EncodeNode(n) && n.Fits()
    requires at + UnpackNode(n).Length() <= dst.Length
    requires forall i :: at <= i < dst.Length ==> dst[i] == 0
    modifies dst
    ensures next == at + UnpackNode(n).Length()
    ensures dst[..next] == old(dst[..at]) + EncodeNode(UnpackNode(n))
    ensures forall i :: next <= i < dst.Length ==> dst[i] == 0
  {
    UnpackedLength(n);
    HeaderBytes(n);
    hide EncodeNode, UnpackNode;
    ghost var before := dst[..];
    var size := |bytes|;
    Copy(dst, at, bytes);
    ghost var copied := dst[..];
    size := size + AlignSize(size);
    next := at + size;
    SetUnpackedHeader(dst, at, size);
    UnpackedWindow(n, before, copied, dst[..], at, next);
  }

  /** SetDevicePathNodeLength(Dest, Size); Dest->Type |= EFI_DP_TYPE_UNPACKED */
  method SetUnpackedHeader(dst: array<byte>, at: nat, size: nat)
    requires at + 4 <= dst.Length
    modifies dst
    ensures dst[..] == old(dst[..])[at + 2 := size % 256][at + 3 := size / 256 % 256][at := MarkUnpacked(old(dst[at]))]
  {
    dst[at + 2] := size % 256;
    dst[at + 3] := size / 256 % 256;
    dst[at] := MarkUnpacked(dst[at]);
  }

  lemma UnpackedWindow(n: Node, before: seq<byte>, copied: seq<byte>, after: seq<byte>, at: nat, next: nat)
    requires n.Fits() && |before| == |copied| == |after| && next == at + UnpackNode(n).Length() <= |before|
    requires at + n.Length() <= |before| && copied == before[..at] + EncodeNode(n) + before[at + n.Length()..]
    requires forall i :: at <= i < |before| ==> before[i] == 0
    requires var sized := copied[at + 2 := (next - at) % 256][at + 3 := (next - at) / 256 % 256];
             after == sized[at := MarkUnpacked(copied[at])]
    ensures after[..next] == before[..at] + EncodeNode(UnpackNode(n))
    ensures forall i :: next <= i < |after| ==> after[i] == 0
  {
    UnpackedLength(n);
    var e, u := EncodeNode(n), EncodeNode(UnpackNode(n));
    UnpackedByte(n);
    hide EncodeNode, UnpackNode, AlignSize;
    forall i | 0 <= i < next - at ensures after[at + i] == u[i] {
      if i < n.Length() {
        assert copied[at + i] == e[i];
      } else {
        assert copied[at + i] == before[at + i];
      }
    }
    assert after[..at] == before[..at];
    assert after[at..next] == u;
    assert after[..next] == after[..at] + after[at..next];
  }

  /** The bytes of an unpacked node. */
  lemma UnpackedByte(n: Node)
    ensures var e, u := EncodeNode(n), EncodeNode(UnpackNode(n));
            && |e| <= |u| && u[0] == MarkUnpacked(e[0]) && u[1] == e[1]
            && u[2] == |u| % 256 && u[3] == |u| / 256 % 256
            && (forall i :: 4 <= i < |e| ==> u[i] == e[i])
            && (forall i :: |e| <= i < |u| ==> u[i] == 0)
  {}

  /** UnpackDevicePath (allocation assumed to succeed): the copy pass fills exactly what the sizing
      pass computed, with the unpacked nodes. */
  method UnpackDevicePath(m: seq<byte>, start: nat, ghost ns: seq<Node>) returns (dst: array<byte>)
    requires At(m, start, ns) && Terminated(ns)
    ensures fresh(dst) && dst[..] == EncodeNodes(UnpackNodes(ns))
  {
    var size := UnpackedSize(m, start, ns);
    dst := new byte[size](_ => 0);
    CopyPass(dst, m, start, ns);
    WholePrefix(ns);
  }

  /** The copy pass, lines 375-390. */
  method CopyPass(dst: array<byte>, m: seq<byte>, start: nat, ghost ns: seq<Node>)
    requires At(m, start, ns) && Terminated(ns) && |ns| > 0
    requires dst.Length == |UnpackedPrefix(ns, |ns|)| && forall i :: 0 <= i < dst.Length ==> dst[i] == 0
    modifies dst
    ensures dst[..] == UnpackedPrefix(ns, |ns|)
  {
    hide At, EncodeNodes, UnpackedPrefix, UnpackNode, AlignSize, EncodeNode, Terminated, Node.End, Node.Fits;
    var src, dest := start, 0;
    ghost var k := 0;
    PrefixNone(ns);
    AtDrop(m, start, ns, 0);
    NothingEncoded(ns);
    while true
      invariant 0 <= k < |ns| && src == start + |EncodeNodes(ns[..k])|
      invariant At(m, src, ns[k..])
      invariant dest == |UnpackedPrefix(ns, k)| <= dst.Length && dst[..dest] == UnpackedPrefix(ns, k)
      invariant forall i :: dest <= i < dst.Length ==> dst[i] == 0
      decreases |ns| - k
    {
      EndIsLast(ns, k);
      HeadAt(m, src, ns[k..]);
      PrefixStep(ns, k);
      PrefixMonotone(ns, k + 1);
      dest := CopyUnpacked(dst, dest, m[src..src + NodeLength(m, src)], ns[k]);
      if EndAt(m, src) {
        break;
      }
      EncodedLengthSnoc(ns, k);
      src := src + NodeLength(m, src);
      k := k + 1;
      AtDrop(m, start, ns, k);
    }
    assert dst[..dest] == dst[..];
  }

  lemma WholePrefix(ns: seq<Node>)
    ensures UnpackedPrefix(ns, |ns|) == EncodeNodes(UnpackNodes(ns))
  {
    assert ns[..|ns|] == ns;
  }

  lemma {:induction false} UnpackAt(ns: seq<Node>, i: nat)
    requires i < |ns|
    ensures UnpackNodes(ns)[i] == UnpackNode(ns[i])
  {
    if i < |ns| - 1 {
      UnpackAt(ns[..|ns| - 1], i);
    }
  }

  lemma {:induction false} UnpackNodesIdempotent(ns: seq<Node>)
    ensures UnpackNodes(UnpackNodes(ns)) == UnpackNodes(ns)
  {
    if ns != [] {
      var u := UnpackNodes(ns);
      assert u[..|u| - 1] == UnpackNodes(ns[..|ns| - 1]);
      UnpackNodesIdempotent(ns[..|ns| - 1]);
      UnpackNodeIdempotent(ns[|ns| - 1]);
    }
  }

  lemma UnpackNodeIdempotent(n: Node)
    ensures UnpackNode(UnpackNode(n)) == UnpackNode(n)
  {
    UnpackedLength(n);
    var u := UnpackNode(n);
    assert AlignSize(u.Length()) == 0;
    assert u.payload + Zeros(0) == u.payload;
  }

  /** `u` is node `n` marked as unpacked, its payload padded with fewer than four zeros. */
  predicate UnpackedFrom(u: Node, n: Node) {
    && u.typ % 128 == n.typ % 128 && u.typ >= 128 && u.sub == n.sub
    && n.payload <= u.payload && u.Length() < n.Length() + ALIGNMENT && u.Length() % ALIGNMENT == 0
    && (forall j :: |n.payload| <= j < |u.payload| ==> u.payload[j] == 0)
  }

  lemma UnpackNodeMeaning(n: Node)
    ensures UnpackedFrom(UnpackNode(n), n)
    ensures UnpackNode(n).Fits() <==> n.Length() <= 65532
    ensures UnpackNode(n).End() <==> n.End()
  {
    UnpackedLength(n);
  }

  /** Node by node the result keeps type, subtype and payload. */
  lemma UnpackedKeeps(ns: seq<Node>)
    ensures forall i :: 0 <= i < |ns| ==> UnpackedFrom(UnpackNodes(ns)[i], ns[i])
  {
    forall i | 0 <= i < |ns| ensures UnpackedFrom(UnpackNodes(ns)[i], ns[i]) {
      UnpackAt(ns, i);
      UnpackNodeMeaning(ns[i]);
    }
  }

  /** The result is again a closed path exactly when no node is longer than 65532 bytes: a longer
      one's padded length does not fit the length field. */
  lemma UnpackedTerminated(ns: seq<Node>)
    requires Terminated(ns)
    ensures Terminated(UnpackNodes(ns)) <==> forall i :: 0 <= i < |ns| ==> ns[i].Length() <= 65532
  {
    hide UnpackNodes, UnpackNode;
    var us := UnpackNodes(ns);
    forall i | 0 <= i < |ns|
      ensures us[i].Fits() <==> ns[i].Length() <= 65532
      ensures us[i].End() <==> ns[i].End()
    {
      UnpackAt(ns, i);
      UnpackNodeMeaning(ns[i]);
    }
    hide Node.End, Node.Fits;
    if Terminated(us) {
      forall i | 0 <= i < |ns| ensures ns[i].Length() <= 65532 {
        assert us[i].Fits();
      }
    }
  }

  /** What the length field of a node with more than 65535 bytes reads as. */
  lemma LengthOverflows(m: seq<byte>, q: nat, us: seq<Node>)
    requires At(m, q, us) && us != [] && us[0].Length() == 65536
    ensures q + 4 <= |m| && NodeLength(m, q) == 0
  {
    HeadStored(m, q, us);
    hide At, EncodeNodes;
    var w := m[q..q + 65536];
    assert w[2] == 0 && w[3] == 0;
    assert m[q + 2] == w[2] && m[q + 3] == w[3];
  }

  /** Bytes that hold the nodes `us` and can also be read as some closed path: then every node of `us` fits its
      length field. */
  lemma {:induction false} ReadableFits(m: seq<byte>, q: nat, us: seq<Node>, rs: seq<Node>)
    requires At(m, q, us) && At(m, q, rs) && Terminated(rs) && |us| > 0
    requires forall i :: 0 <= i < |us| ==> us[i].Fits() || us[i].Length() == 65536
    requires forall i :: 0 <= i < |us| - 1 ==> !us[i].End()
    ensures AllFit(us)
    decreases |us|
  {
    hide At, EncodeNodes, EncodeNode;
    EndIsLast(rs, 0);
    HeadAt(m, q, rs);
    if !us[0].Fits() {
      LengthOverflows(m, q, us);
      assert false;
    }
    SameHead(m, q, us, rs);
    if |us| > 1 {
      HeadAt(m, q, us);
      TailTerminated(rs);
      ReadableFits(m, q + us[0].Length(), us[1..], rs[1..]);
      assert us == [us[0]] + us[1..];
    }
  }

  lemma TailTerminated(rs: seq<Node>)
    requires Terminated(rs) && !rs[0].End()
    ensures |rs| > 1 && Terminated(rs[1..])
  {
    hide Node.End, Node.Fits;
    var r := rs[1..];
    forall i | 0 <= i < |r| ensures r[i].Fits() && (r[i].End() <==> i == |r| - 1) {
      EndIsLast(rs, 1 + i);
    }
  }

  /** The bytes UnpackDevicePath writes can be read as a closed path, any at all, if and only if no node is longer
      than 65532 bytes. */
  lemma UnpackedReadable(ns: seq<Node>)
    requires Terminated(ns)
    ensures (exists rs :: Terminated(rs) && At(EncodeNodes(UnpackNodes(ns)), 0, rs)) <==>
            forall i :: 0 <= i < |ns| ==> ns[i].Length() <= 65532
  {
    var us := UnpackNodes(ns);
    var m := EncodeNodes(us);
    hide UnpackNodes, UnpackNode, EncodeNodes;
    UnpackedTerminated(ns);
    assert m[0..0 + |m|] == m;
    assert At(m, 0, us);
    forall i | 0 <= i < |ns|
      ensures us[i].Fits() || us[i].Length() == 65536
      ensures us[i].Fits() <==> ns[i].Length() <= 65532
      ensures us[i].End() <==> ns[i].End()
    {
      UnpackAt(ns, i);
      UnpackNodeMeaning(ns[i]);
      PaddedLength(ns[i]);
    }
    hide At;
    if rs :| Terminated(rs) && At(m, 0, rs) {
      ReadableFits(m, 0, us, rs);
    }
  }

  lemma PaddedLength(n: Node)
    requires n.Fits()
    ensures UnpackNode(n).Fits() || UnpackNode(n).Length() == 65536
  {
    UnpackedLength(n);
    hide UnpackNode;
  }

  /** Unpacking twice: the bytes are those of unpacking once, as long as the result can be read at all. */
  method UnpackTwice(m: seq<byte>, start: nat, ghost ns: seq<Node>) returns (once: array<byte>, twice: array<byte>)
    requires At(m, start, ns) && Terminated(ns) && forall i :: 0 <= i < |ns| ==> ns[i].Length() <= 65532
    ensures once[..] == twice[..] == EncodeNodes(UnpackNodes(ns))
  {
    hide EncodeNodes, UnpackNodes;
    once := UnpackDevicePath(m, start, ns);
    UnpackedTerminated(ns);
    UnpackNodesIdempotent(ns);
    ghost var us := UnpackNodes(ns);
    assert once[..][0..0 + |EncodeNodes(us)|] == EncodeNodes(us);
    twice := UnpackDevicePath(once[..], 0, us);
  }

  // --------------------------------------------------------------- the limits

  const HARDWARE := Node(0x01, 0x01, [])

  lemma InstancesValid(p: Path)
    requires |p| > 0 && forall i, j :: 0 <= i < |p| && 0 <= j < |p[i]| ==> p[i][j] == HARDWARE
    ensures ValidPath(p)
  {}

  /** Two instances of one node, appended to: the second instance is not in the path that results. */
  lemma AppendToTwo(all: seq<byte>, r: Path)
    requires Appended([[HARDWARE], [HARDWARE]], EncodePath([[HARDWARE]])) <= all
    requires ValidPath(r) && At(all, 0, Stream(r))
    ensures r == [[HARDWARE, HARDWARE]] != ExtendedEach([[HARDWARE], [HARDWARE]], [[HARDWARE]])
  {
    var p1, p2: Path := [[HARDWARE], [HARDWARE]], [[HARDWARE]];
    InstancesValid(p1);
    InstancesValid(p2);
    PiecesValid(p1);
    AppendMeetsDocumentation(p1, p2, all, r);
    assert p1[0] + p2[0] == [HARDWARE, HARDWARE] && p2[1..] == [];
    assert Extended(p1[0], p2) == [[HARDWARE, HARDWARE]];
  }

  /** An instance of 514 nodes is cut after 513. */
  lemma LongInstance()
    ensures var p: Path := [seq(514, _ => HARDWARE)];
            ValidPath(p) && |Stream(p)| > 0 && Cut(Stream(p), 0) == 513
  {
    var p: Path := [seq(514, _ => HARDWARE)];
    InstancesValid(p);
    CutOfPath(p);
  }

  /** A node of 65533 bytes unpacks to one whose length field reads zero. */
  lemma LongNode()
    ensures var n := Node(0x01, 0x01, Zeros(65529));
            n.Fits() && UnpackNode(n).Length() == 65536 && EncodeNode(UnpackNode(n))[2..4] == [0, 0]
  {
    var n := Node(0x01, 0x01, Zeros(65529));
    UnpackNodeMeaning(n);
    assert UnpackNode(n).Length() == 65536;
  }

  /** A single instance of 514 nodes ... */
  function Long(): Path {
    [seq(514, _ => HARDWARE)]
  }

  /** ... is cut into its first 513 nodes and nothing: the last one is lost. */
  lemma LongPieces()
    ensures ValidPath(Long()) && Pieces(Long()) == [Long()[0][..513], []]
  {
    var p := Long();
    InstancesValid(p);
    CutOfPath(p);
    StreamTerminated(p);
    StreamShape(p);
    var ns := Stream(p);
    hide Stream, Cut, Parts, Terminated;
    PartsStep(ns);
    assert ns[..514] == p[0] && ns[513] == p[0][513] == HARDWARE;
    assert ns[..513] == p[0][..513];
    assert |ns| == 515 by { LongStream(); }
    assert ns[514..] == [END_ENTIRE];
    ClosedAtOnce();
  }

  lemma LongStream()
    ensures |Stream(Long())| == 515
  {}

  lemma ClosedAtOnce()
    ensures Terminated([END_ENTIRE]) && Parts([END_ENTIRE]) == [[]]
  {}

  /** Appending to it loses the last node too, so the result is not the documented path although Src1 is a single
      instance. */
  lemma AppendToLong(p2: Path, all: seq<byte>, r: Path)
    requires ValidPath(p2) && ValidPath(Long()) && |Pieces(Long())| > 0
    requires Appended(Pieces(Long()), EncodePath(p2)) <= all && ValidPath(r) && At(all, 0, Stream(r))
    ensures r == Extended(Long()[0][..513], p2) != ExtendedEach(Long(), p2)
  {
    hide At, Appended, Pieces, ValidPath, Stream;
    LongPieces();
    AppendMeetsDocumentation(Long(), p2, all, r);
  }

  /** And a Src2 of 2064 bytes overruns the allocation: 6188 bytes are written into 6184. */
  lemma LongOverruns()
    ensures ValidPath(Long()) && |Pieces(Long())| == 2
    ensures var second := EncodePath([seq(515, _ => HARDWARE)]);
            && |second| == 2064
            && |Appended(Pieces(Long()), second)| == 6188 && |EncodePath(Long())| * 2 + |second| == 6184
  {
    var p, q: Path := Long(), [seq(515, _ => HARDWARE)];
    hide EncodeNodes, Appended, Pieces;
    LongPieces();
    EncodedCount(p[0]);
    EncodedCount(q[0]);
    EncodedCount(p[0][..513]);
    EncodedCount([]);
    EncodePathSteps(p);
    EncodePathSteps(q);
    EncodePathSteps(Pieces(p));
    assert Pieces(p)[1..] == [[]];
    EncodePathSteps([[]]);
    WrittenBytes(Pieces(p), EncodePath(q));
    hide EncodePath;
  }

  /** Two instances of one node against a path of four: 56 bytes are written into an allocation of 52. */
  lemma AppendOverruns()
    ensures var p: Path := [[HARDWARE], [HARDWARE]];
            var second := EncodePath([[HARDWARE, HARDWARE, HARDWARE, HARDWARE]]);
            |Appended(p, second)| == 56 && |EncodePath(p)| * |p| + |second| == 52
  {
    hide EncodeNodes, Appended;
    var p: Path := [[HARDWARE], [HARDWARE]];
    var four := [HARDWARE, HARDWARE, HARDWARE, HARDWARE];
    EncodedCount([HARDWARE]);
    EncodedCount(four);
    EncodePathSteps([four]);
    EncodePathSteps(p);
    EncodePathSteps([[HARDWARE]]);
    assert p[1..] == [[HARDWARE]];
    hide EncodePath;
    WrittenBytes(p, EncodePath([four]));
  }

  lemma {:induction false} EncodedCount(ns: seq<Node>)
    requires forall i :: 0 <= i < |ns| ==> ns[i] == HARDWARE
    ensures |EncodeNodes(ns)| == 4 * |ns|
  {
    if ns != [] {
      EncodedCount(ns[1..]);
    }
  }
}
