/** Sizing and flattening a device tree: the second part of src/device_tree.c. */
module FdtWriter {
  import opened Bytes
  import opened FdtFormat
  import opened DtNode
  import opened FdtReader

  // ---- the sizer ---------------------------------------------------------------------------

  /** dt_flat_prop_size */
  method FlatPropSize(p: Property, struct0: uint32, strings0: uint32) returns (structSize: uint32, stringsSize: uint32)
    requires struct0 + PropSize(p) < 0x1_0000_0000 && strings0 + |p.name| + 1 < 0x1_0000_0000
    ensures structSize == struct0 + PropSize(p) && stringsSize == strings0 + |p.name| + 1
  {
    structSize := struct0 + 4;
    structSize := structSize + 4;
    structSize := structSize + 4;
    structSize := structSize + Align4(|p.data|);
    stringsSize := strings0 + |p.name| + 1;
  }

  /** The property loop of dt_flat_node_size. */
  method FlatPropsSize(ps: seq<Property>, struct0: uint32, strings0: uint32)
    returns (structSize: uint32, stringsSize: uint32)
    requires struct0 + PropsSize(ps, |ps|) < 0x1_0000_0000 && strings0 + PropsStrings(ps, |ps|) < 0x1_0000_0000
    ensures structSize == struct0 + PropsSize(ps, |ps|) && stringsSize == strings0 + PropsStrings(ps, |ps|)
  {
    hide PropSize;
    structSize, stringsSize := struct0, strings0;
    for k := 0 to |ps|
      invariant structSize == struct0 + PropsSize(ps, k) && stringsSize == strings0 + PropsStrings(ps, k)
    {
      PropsSizeMono(ps, k + 1, |ps|);
      structSize, stringsSize := FlatPropSize(ps[k], structSize, stringsSize);
    }
  }

  /** The child loop of dt_flat_node_size. */
  method FlatChildrenSize(node: Node, ghost t: Tree, struct0: uint32, strings0: uint32)
    returns (structSize: uint32, stringsSize: uint32)
    requires node.Is(t)
    requires struct0 + KidsSize(t.children, |t.children|) < 0x1_0000_0000
    requires strings0 + KidsStrings(t.children, |t.children|) < 0x1_0000_0000
    ensures structSize == struct0 + KidsSize(t.children, |t.children|)
    ensures stringsSize == strings0 + KidsStrings(t.children, |t.children|)
    decreases t, 0
  {
    ghost var ts := t.children;
    structSize, stringsSize := struct0, strings0;
    for k := 0 to |node.children|
      invariant structSize == struct0 + KidsSize(ts, k) && stringsSize == strings0 + KidsStrings(ts, k)
    {
      assert node.KidIs(k, ts[k]);
      KidsSizeMono(ts, k + 1, |ts|);
      structSize, stringsSize := FlatNodeSize(node.children[k], ts[k], structSize, stringsSize);
    }
  }

  /** dt_flat_node_size; no sum on the way leaves 32 bits when the final sums do not. */
  method FlatNodeSize(node: Node, ghost t: Tree, struct0: uint32, strings0: uint32)
    returns (structSize: uint32, stringsSize: uint32)
    requires node.Is(t)
    requires struct0 + NodeSize(t) < 0x1_0000_0000 && strings0 + NodeStrings(t) < 0x1_0000_0000
    ensures structSize == struct0 + NodeSize(t) && stringsSize == strings0 + NodeStrings(t)
    decreases t, 1
  {
    hide Align4;
    NodeSums(t);
    structSize := struct0 + 4;
    structSize := structSize + Align4(|node.name| + 1);
    structSize, stringsSize := FlatPropsSize(node.properties, structSize, strings0);
    structSize, stringsSize := FlatChildrenSize(node, t, structSize, stringsSize);
    structSize := structSize + 4;
  }

  /** dt_flat_size */
  method DtFlatSize(tree: DeviceTree, ghost src: seq<byte>, ghost m: Blob) returns (size: uint32)
    requires TreeIs(tree, src, m) && FlatSize(m) < 0x1_0000_0000
    ensures size == FlatSize(m)
  {
    size := tree.headerSize;
    for k := 0 to |tree.reserveMap|
      invariant size == tree.headerSize + 16 * k
    {
      size := size + 16;
    }
    size := size + 16;
    var structSize, stringsSize := FlatNodeSize(tree.root, m.root, 0, 0);
    size := size + structSize;
    size := size + 4;
    size := size + stringsSize;
  }

  // ---- the writer --------------------------------------------------------------------------

  /** The two cursors have moved over [s0, s1) and [t0, t1); nothing else was written. */
  ghost predicate Wrote(a: seq<byte>, b: seq<byte>, s0: nat, s1: nat, t0: nat, t1: nat) {
    && |a| == |b|
    && forall i :: 0 <= i < |a| && !(s0 <= i < s1) && !(t0 <= i < t1) ==> a[i] == b[i]
  }

  lemma {:induction false} WroteThen(a: seq<byte>, b: seq<byte>, c: seq<byte>,
                                     s0: nat, s1: nat, s2: nat, t0: nat, t1: nat, t2: nat)
    requires s0 <= s1 <= s2 && t0 <= t1 <= t2
    requires Wrote(a, b, s0, s1, t0, t1) && Wrote(b, c, s1, s2, t1, t2)
    ensures Wrote(a, c, s0, s2, t0, t2)
  {
  }

  /** dt_flatten_prop.  The padding after the value keeps whatever the buffer held. */
  method FlattenProp(p: Property, dest: array<byte>, struct0: nat, base: nat, strings0: nat)
    returns (struct1: nat, strings1: nat)
    requires 0 !in p.name && strings0 + |p.name| + 1 < 0x1_0000_0000
    requires struct0 + PropSize(p) <= base <= strings0
    requires strings0 + |p.name| + 1 <= dest.Length
    modifies dest
    ensures struct1 == struct0 + PropSize(p) && strings1 == strings0 + |p.name| + 1
    ensures PropAt(dest[..], struct0, base, strings1, p)
    ensures Wrote(old(dest[..]), dest[..], struct0, struct1, strings0, strings1)
  {
    hide Word32;
    var nameOffset := strings0 - base;
    PutWords(dest, struct0, TOKEN_PROPERTY, |p.data|, nameOffset);
    ghost var words := dest[..];
    StrCpy(dest, strings0, p.name);
    ghost var named := dest[..];
    strings1 := strings0 + |p.name| + 1;
    MemCpy(dest, struct0 + 12, p.data);
    CStrFrame(named, dest[..], strings0, strings1, strings1, p.name);
    WordFrame(words, dest[..], struct0);
    WordFrame(words, dest[..], struct0 + 4);
    WordFrame(words, dest[..], struct0 + 8);
    struct1 := struct0 + 12 + Align4(|p.data|);
  }

  /** Three words in a row. */
  method PutWords(dest: array<byte>, o: nat, x: nat, y: nat, z: nat)
    requires o + 12 <= dest.Length && x < 0x1_0000_0000 && y < 0x1_0000_0000 && z < 0x1_0000_0000
    modifies dest
    ensures Word32(dest[..], o) == x && Word32(dest[..], o + 4) == y && Word32(dest[..], o + 8) == z
    ensures Wrote(old(dest[..]), dest[..], o, o + 12, o, o)
  {
    PutBe32(dest, o, x);
    ghost var one := dest[..];
    PutBe32(dest, o + 4, y);
    ghost var two := dest[..];
    PutBe32(dest, o + 8, z);
    WordFrame(one, two, o);
    WordFrame(two, dest[..], o);
    WordFrame(two, dest[..], o + 4);
  }

  /** The property loop of dt_flatten_node. */
  method FlattenProperties(ps: seq<Property>, dest: array<byte>, struct0: nat, base: nat, strings0: nat)
    returns (struct1: nat, strings1: nat)
    requires strings0 + PropsStrings(ps, |ps|) < 0x1_0000_0000 && forall p :: p in ps ==> 0 !in p.name
    requires struct0 + PropsSize(ps, |ps|) <= base <= strings0
    requires strings0 + PropsStrings(ps, |ps|) <= dest.Length
    modifies dest
    ensures struct1 == struct0 + PropsSize(ps, |ps|) && strings1 == strings0 + PropsStrings(ps, |ps|)
    ensures PropsAt(dest[..], struct0, base, strings1, ps, |ps|)
    ensures Wrote(old(dest[..]), dest[..], struct0, struct1, strings0, strings1)
  {
    hide Align4, Word32;
    struct1, strings1 := struct0, strings0;
    for k := 0 to |ps|
      invariant struct1 == struct0 + PropsSize(ps, k) && strings1 == strings0 + PropsStrings(ps, k)
      invariant PropsAt(dest[..], struct0, base, strings1, ps, k)
      invariant Wrote(old(dest[..]), dest[..], struct0, struct1, strings0, strings1)
    {
      PropsSizeMono(ps, k + 1, |ps|);
      ghost var before, lim := dest[..], strings1;
      struct1, strings1 := FlattenProp(ps[k], dest, struct1, base, strings1);
      PropsFrame(before, dest[..], struct0, base, lim, strings1, ps, k);
      assert PropIn(dest[..], struct0, base, strings1, ps, k);
    }
  }

  /** The child loop of dt_flatten_node. */
  method FlattenChildren(node: Node, ghost t: Tree, dest: array<byte>, struct0: nat, base: nat, strings0: nat)
    returns (struct1: nat, strings1: nat)
    requires node.Is(t) && NulFree(t)
    requires strings0 + KidsStrings(t.children, |t.children|) < 0x1_0000_0000
    requires struct0 + KidsSize(t.children, |t.children|) <= base <= strings0
    requires strings0 + KidsStrings(t.children, |t.children|) <= dest.Length
    modifies dest
    ensures struct1 == struct0 + KidsSize(t.children, |t.children|)
    ensures strings1 == strings0 + KidsStrings(t.children, |t.children|)
    ensures KidsAt(dest[..], struct0, base, strings1, t.children, |t.children|)
    ensures Wrote(old(dest[..]), dest[..], struct0, struct1, strings0, strings1)
    decreases t, 1
  {
    hide Align4, Word32;
    ghost var ts := t.children;
    struct1, strings1 := struct0, strings0;
    for k := 0 to |node.children|
      invariant struct1 == struct0 + KidsSize(ts, k) && strings1 == strings0 + KidsStrings(ts, k)
      invariant KidsAt(dest[..], struct0, base, strings1, ts, k)
      invariant Wrote(old(dest[..]), dest[..], struct0, struct1, strings0, strings1)
    {
      KidsSizeMono(ts, k + 1, |ts|);
      ghost var before, s, l := dest[..], struct1, strings1;
      struct1, strings1 := FlattenNext(node, t, k, dest, struct0, struct1, base, strings1);
      WroteThen(old(dest[..]), before, dest[..], struct0, s, struct1, strings0, l, strings1);
    }
  }

  /** One round of the child loop: child k goes behind the first k children. */
  method FlattenNext(node: Node, ghost t: Tree, k: nat, dest: array<byte>, ghost start: nat,
                     struct0: nat, base: nat, strings0: nat)
    returns (struct1: nat, strings1: nat)
    requires node.Is(t) && NulFree(t)
    requires k < |t.children| && struct0 == start + KidsSize(t.children, k)
    requires strings0 + NodeStrings(t.children[k]) < 0x1_0000_0000
    requires start + KidsSize(t.children, k + 1) <= base <= strings0
    requires strings0 + NodeStrings(t.children[k]) <= dest.Length
    requires KidsAt(dest[..], start, base, strings0, t.children, k)
    modifies dest
    ensures struct1 == start + KidsSize(t.children, k + 1)
    ensures strings1 == strings0 + NodeStrings(t.children[k])
    ensures KidsAt(dest[..], start, base, strings1, t.children, k + 1)
    ensures Wrote(old(dest[..]), dest[..], struct0, struct1, strings0, strings1)
    decreases t, 0
  {
    assert node.KidIs(k, t.children[k]);
    struct1, strings1 := FlattenNode(node.children[k], t.children[k], dest, struct0, base, strings0);
    KidsGrow(old(dest[..]), dest[..], start, base, strings0, strings1, t.children, k);
  }

  /** One more child is stored, and the earlier ones still are. */
  lemma {:induction false} KidsGrow(a: seq<byte>, b: seq<byte>, o: nat, base: nat, lim0: nat, lim1: nat,
                                    ts: seq<Tree>, k: nat)
    requires k < |ts| && o + KidsSize(ts, k + 1) <= base <= lim0 <= lim1 <= |b|
    requires KidsAt(a, o, base, lim0, ts, k)
    requires NodeAt(b, o + KidsSize(ts, k), base, lim1, ts[k])
    requires Wrote(a, b, o + KidsSize(ts, k), o + KidsSize(ts, k + 1), lim0, lim1)
    ensures KidsAt(b, o, base, lim1, ts, k + 1)
  {
    KidsFrame(a, b, o, base, lim0, lim1, ts, k);
    assert KidIn(b, o, base, lim1, ts, k);
  }

  /** dt_flatten_node: whatever the buffer held, afterwards the node is stored in it; the two
      cursors end exactly where the sizer says, and nothing outside their way was written. */
  method FlattenNode(node: Node, ghost t: Tree, dest: array<byte>, struct0: nat, base: nat, strings0: nat)
    returns (struct1: nat, strings1: nat)
    requires node.Is(t) && NulFree(t) && strings0 + NodeStrings(t) < 0x1_0000_0000
    requires struct0 + NodeSize(t) <= base <= strings0
    requires strings0 + NodeStrings(t) <= dest.Length
    modifies dest
    ensures struct1 == struct0 + NodeSize(t) && strings1 == strings0 + NodeStrings(t)
    ensures NodeAt(dest[..], struct0, base, strings1, t)
    ensures Wrote(old(dest[..]), dest[..], struct0, struct1, strings0, strings1)
    decreases t, 2
  {
    hide Align4, Word32, HeadAt, PropsAt, KidsAt;
    NodeSums(t);
    ghost var a := dest[..];
    var s1 := FlattenHead(node.name, dest, struct0, strings0);
    ghost var b := dest[..];
    var s2, t2 := FlattenProperties(node.properties, dest, s1, base, strings0);
    ghost var c := dest[..];
    WroteThen(a, b, c, struct0, s1, s2, strings0, strings0, t2);
    var s3, t3 := FlattenChildren(node, t, dest, s2, base, t2);
    ghost var d := dest[..];
    WroteThen(a, c, d, struct0, s2, s3, strings0, t2, t3);
    struct1 := FlattenEnd(dest, s3, t3);
    strings1 := t3;
    WroteThen(a, d, dest[..], struct0, s3, struct1, strings0, t3, t3);
    NodeDone(b, c, d, dest[..], struct0, base, strings0, t2, t3, t);
  }

  lemma {:induction false} NodeSums(t: Tree)
    ensures NodeSize(t) == KidsOff(t) + KidsSize(t.children, |t.children|) + 4
    ensures NodeStrings(t) == PropsStrings(t.properties, |t.properties|) + KidsStrings(t.children, |t.children|)
  {
  }

  /** The BEGIN_NODE token and the name, as dt_flatten_node writes them. */
  method FlattenHead(name: seq<byte>, dest: array<byte>, struct0: nat, ghost strings: nat) returns (struct1: nat)
    requires 0 !in name && struct0 + NameSize(name) <= dest.Length
    modifies dest
    ensures struct1 == struct0 + NameSize(name)
    ensures HeadAt(dest[..], struct0, name)
    ensures Wrote(old(dest[..]), dest[..], struct0, struct1, strings, strings)
  {
    PutBe32(dest, struct0, TOKEN_BEGIN_NODE);
    ghost var a := dest[..];
    StrCpy(dest, struct0 + 4, name);
    WordFrame(a, dest[..], struct0);
    struct1 := struct0 + 4 + Align4(|name| + 1);
    CStrFrame(dest[..], dest[..], struct0 + 4, struct0 + 4 + |name| + 1, struct1, name);
  }

  /** The END_NODE token, as dt_flatten_node writes it. */
  method FlattenEnd(dest: array<byte>, struct0: nat, ghost strings: nat) returns (struct1: nat)
    requires struct0 + 4 <= dest.Length
    modifies dest
    ensures struct1 == struct0 + 4
    ensures Word32(dest[..], struct0) == TOKEN_END_NODE
    ensures Wrote(old(dest[..]), dest[..], struct0, struct1, strings, strings)
  {
    PutBe32(dest, struct0, TOKEN_END_NODE);
    struct1 := struct0 + 4;
  }

  /** The parts of a node make the node: b has its head, c its properties, d its children. */
  lemma {:induction false} NodeDone(b: seq<byte>, c: seq<byte>, d: seq<byte>, e: seq<byte>,
                                    o: nat, base: nat, lim0: nat, lim1: nat, lim2: nat, t: Tree)
    requires o + NodeSize(t) <= base <= lim0 <= lim1 <= lim2 <= |e|
    requires HeadAt(b, o, t.name)
    requires PropsAt(c, o + NameSize(t.name), base, lim1, t.properties, |t.properties|)
    requires KidsAt(d, o + KidsOff(t), base, lim2, t.children, |t.children|)
    requires o + NodeSize(t) <= |e| && Word32(e, o + EndOff(t)) == TOKEN_END_NODE
    requires Wrote(b, c, o + NameSize(t.name), o + KidsOff(t), lim0, lim1)
    requires Wrote(c, d, o + KidsOff(t), o + EndOff(t), lim1, lim2)
    requires Wrote(d, e, o + EndOff(t), o + NodeSize(t), lim2, lim2)
    ensures NodeAt(e, o, base, lim2, t)
  {
    hide Align4, Word32, HeadAt, PropsAt, KidsAt;
    NodeSums(t);
    HeadFrame(b, e, o, t.name);
    PropsFrame(c, e, o + NameSize(t.name), base, lim1, lim2, t.properties, |t.properties|);
    KidsFrame(d, e, o + KidsOff(t), base, lim2, lim2, t.children, |t.children|);
  }

  // ---- the whole blob ----------------------------------------------------------------------

  /** The header fields dt_flatten rewrites: totalsize, structure and strings offset and size. */
  predicate Patched(i: nat) {
    4 <= i < 16 || 32 <= i < 40
  }

  /** Where the structure block starts. */
  function StructOff(m: Blob): nat {
    m.headerSize + MapSize(m.reserve)
  }

  /** Where the strings block starts, behind the END token. */
  function StringsOff(m: Blob): nat {
    StructOff(m) + NodeSize(m.root) + 4
  }

  /** b is the tree m flattened behind the header of src: header, reserve map, structure block,
      END token and strings block follow each other without a gap. */
  ghost predicate Flattened(b: seq<byte>, src: seq<byte>, m: Blob) {
    && 40 <= m.headerSize <= |src|
    && FlatSize(m) == |b|
    && Word32(b, 4) == FlatSize(m)
    && Word32(b, 8) == StructOff(m) && Word32(b, 36) == NodeSize(m.root)
    && Word32(b, 12) == StringsOff(m) && Word32(b, 32) == NodeStrings(m.root)
    && (forall i :: 0 <= i < m.headerSize && !Patched(i) ==> b[i] == src[i])
    && MapAt(b, m.headerSize, m.reserve) && Word64(b, StructOff(m) - 16) == 0
    && NodeAt(b, StructOff(m), StringsOff(m), |b|, m.root)
    && Word32(b, StringsOff(m) - 4) == TOKEN_END
  }

  /** dt_flatten_map_entry */
  method FlattenMapEntry(e: ReserveEntry, dest: array<byte>, o: nat) returns (o1: nat)
    requires o + 16 <= dest.Length
    requires e.start < 0x1_0000_0000_0000_0000 && e.size < 0x1_0000_0000_0000_0000
    modifies dest
    ensures o1 == o + 16
    ensures Word64(dest[..], o) == e.start && Word64(dest[..], o + 8) == e.size
    ensures EntryAt(dest[..], o, e) <==> e.size != 0
    ensures Wrote(old(dest[..]), dest[..], o, o1, o1, o1)
  {
    PutBe64(dest, o, e.start);
    ghost var a := dest[..];
    PutBe64(dest, o + 8, e.size);
    WordFrame(a, dest[..], o);
    WordFrame(a, dest[..], o + 4);
    o1 := o + 16;
  }

  ghost predicate GoodMap(es: seq<ReserveEntry>) {
    forall e :: e in es ==> e.start < 0x1_0000_0000_0000_0000 && 0 < e.size < 0x1_0000_0000_0000_0000
  }

  /** The reserve map and its terminator, as dt_flatten writes them. */
  method FlattenMap(es: seq<ReserveEntry>, dest: array<byte>, o: nat) returns (o1: nat)
    requires o + MapSize(es) <= dest.Length && GoodMap(es)
    modifies dest
    ensures o1 == o + MapSize(es)
    ensures MapAt(dest[..], o, es) && Word64(dest[..], o1 - 16) == 0
    ensures Wrote(old(dest[..]), dest[..], o, o1, o1, o1)
  {
    hide Word32;
    o1 := o;
    for k := 0 to |es|
      invariant o1 == o + 16 * k
      invariant forall i :: 0 <= i < k ==> EntryAt(dest[..], o + 16 * i, es[i])
      invariant Wrote(old(dest[..]), dest[..], o, o1, o1, o1)
    {
      ghost var a := dest[..];
      o1 := FlattenMapEntry(es[k], dest, o1);
      forall i | 0 <= i < k ensures EntryAt(dest[..], o + 16 * i, es[i]) {
        EntryFrame(a, dest[..], o + 16 * i, es[i]);
      }
    }
    ghost var a := dest[..];
    PutBe64(dest, o1, 0);
    ghost var c := dest[..];
    PutBe64(dest, o1 + 8, 0);
    WordFrame(c, dest[..], o1);
    WordFrame(c, dest[..], o1 + 4);
    forall i | 0 <= i < |es| ensures EntryAt(dest[..], o + 16 * i, es[i]) {
      EntryFrame(a, dest[..], o + 16 * i, es[i]);
    }
    o1 := o1 + 16;
  }

  /** A tree that can be flattened: names are C strings, reserve entries are not empty. */
  ghost predicate GoodBlob(m: Blob) {
    NulFree(m.root) && GoodMap(m.reserve)
  }

  /** dt_flatten: for any earlier contents of dest, the tree in memory is flattened into it. */
  method DtFlatten(tree: DeviceTree, ghost src: seq<byte>, ghost m: Blob, dest: array<byte>)
    requires TreeIs(tree, src, m) && GoodBlob(m)
    requires 40 <= m.headerSize <= |src|
    requires FlatSize(m) <= dest.Length && FlatSize(m) < 0x1_0000_0000
    modifies dest
    ensures Flattened(dest[..FlatSize(m)], src, m)
    ensures forall i :: FlatSize(m) <= i < dest.Length ==> dest[i] == old(dest[i])
  {
    hide Word32, MapAt, NodeAt, HeaderAt, Flattened, NodeSize, NodeStrings;
    MemCpy(dest, 0, tree.header[..tree.headerSize]);
    ghost var s1 := dest[..];
    var o := FlattenMap(tree.reserveMap, dest, tree.headerSize);
    ghost var s2 := dest[..];
    var structSize, stringsSize := FlatNodeSize(tree.root, m.root, 0, 0);
    var structStart := o;
    var stringsStart := o + structSize + 4;
    FlattenHeader(dest, structStart, structSize, stringsStart, stringsSize);
    ghost var s3 := dest[..];
    var structEnd, stringsEnd := FlattenNode(tree.root, m.root, dest, structStart, stringsStart, stringsStart);
    ghost var s4 := dest[..];
    PutBe32(dest, 4, stringsStart + stringsSize);
    FlattenDone(s1, s2, s3, s4, dest[..], dest[..FlatSize(m)], src, m);
  }

  /** What dt_flatten writes between the reserve map and the nodes: four fields of the header and
      the END token in front of the strings block. */
  method FlattenHeader(dest: array<byte>, structStart: uint32, structSize: uint32,
                       stringsStart: uint32, stringsSize: uint32)
    requires 40 <= structStart && stringsStart == structStart + structSize + 4 <= dest.Length
    modifies dest
    ensures HeaderAt(dest[..], structStart, structSize, stringsStart, stringsSize)
    ensures |dest[..]| == |old(dest[..])|
    ensures forall i :: 0 <= i < dest.Length && !Patched(i) && !(stringsStart - 4 <= i < stringsStart) ==>
                          dest[i] == old(dest[i])
  {
    hide Word32;
    PutBe32(dest, 8, structStart);
    ghost var a := dest[..];
    PutBe32(dest, 36, structSize);
    ghost var b := dest[..];
    PutBe32(dest, stringsStart - 4, TOKEN_END);
    ghost var c := dest[..];
    PutBe32(dest, 12, stringsStart);
    ghost var d := dest[..];
    PutBe32(dest, 32, stringsSize);
    WordFrame(a, dest[..], 8);
    WordFrame(b, dest[..], 36);
    WordFrame(c, dest[..], stringsStart - 4);
    WordFrame(d, dest[..], 12);
  }

  ghost predicate HeaderAt(b: seq<byte>, structStart: nat, structSize: nat, stringsStart: nat, stringsSize: nat) {
    && 40 <= structStart && stringsStart == structStart + structSize + 4 <= |b|
    && Word32(b, 8) == structStart && Word32(b, 36) == structSize
    && Word32(b, 12) == stringsStart && Word32(b, 32) == stringsSize
    && Word32(b, stringsStart - 4) == TOKEN_END
  }

  lemma {:induction false} HeaderFrame(a: seq<byte>, b: seq<byte>, structStart: nat, structSize: nat,
                                       stringsStart: nat, stringsSize: nat)
    requires HeaderAt(a, structStart, structSize, stringsStart, stringsSize)
    requires Same(a, b, 8, 16) && Same(a, b, 32, 40) && Same(a, b, stringsStart - 4, stringsStart)
    ensures HeaderAt(b, structStart, structSize, stringsStart, stringsSize)
  {
    WordFrame(a, b, 8);
    WordFrame(a, b, 12);
    WordFrame(a, b, 32);
    WordFrame(a, b, 36);
    WordFrame(a, b, stringsStart - 4);
  }

  /** The steps of dt_flatten make a flattened tree: s1 has the header's bytes, s2 the reserve map,
      s3 the header's fields, s4 the nodes, f the total size; b is the blob in f. */
  lemma {:induction false} FlattenDone(s1: seq<byte>, s2: seq<byte>, s3: seq<byte>, s4: seq<byte>,
                                       f: seq<byte>, b: seq<byte>, src: seq<byte>, m: Blob)
    requires 40 <= m.headerSize <= |src| && FlatSize(m) <= |f| && b == f[..FlatSize(m)]
    requires Same(src, s1, 0, m.headerSize)
    requires Wrote(s1, s2, m.headerSize, StructOff(m), StructOff(m), StructOff(m))
    requires MapAt(s2, m.headerSize, m.reserve) && Word64(s2, StructOff(m) - 16) == 0
    requires HeaderAt(s3, StructOff(m), NodeSize(m.root), StringsOff(m), NodeStrings(m.root))
    requires |s2| == |s3| && forall i :: 0 <= i < |s2| && !Patched(i) && !(StringsOff(m) - 4 <= i < StringsOff(m)) ==>
                                           s2[i] == s3[i]
    requires Wrote(s3, s4, StructOff(m), StringsOff(m) - 4, StringsOff(m), FlatSize(m))
    requires NodeAt(s4, StructOff(m), StringsOff(m), FlatSize(m), m.root)
    requires Wrote(s4, f, 4, 8, 4, 4) && Word32(f, 4) == FlatSize(m)
    ensures Flattened(b, src, m)
  {
    hide Word32, NodeAt, MapAt, NodeSize, NodeStrings;
    HeaderFrame(s3, b, StructOff(m), NodeSize(m.root), StringsOff(m), NodeStrings(m.root));
    NodeFrame(s4, b, StructOff(m), StringsOff(m), FlatSize(m), FlatSize(m), m.root);
    MapFrame(s2, b, m.headerSize, m.reserve);
    WordFrame(s2, b, StructOff(m) - 16);
    WordFrame(s2, b, StructOff(m) - 12);
    WordFrame(f, b, 4);
  }
}
