/** Picking a flattened tree apart: the first half of src/device_tree.c. */
module FdtReader {
  import opened Bytes
  import opened FdtFormat
  import opened DtNode

  /** fdt_next_property: the property at an offset, and the bytes it takes; 0 if there is none. */
  method NextProperty(blob: seq<byte>, offset: nat, ghost p: Property) returns (size: nat, prop: Property)
    requires 40 <= |blob| && offset + 4 <= |blob|
    requires Word32(blob, offset) == TOKEN_PROPERTY ==> PropAt(blob, offset, Word32(blob, 12), |blob|, p)
    ensures Word32(blob, offset) != TOKEN_PROPERTY ==> size == 0
    ensures Word32(blob, offset) == TOKEN_PROPERTY ==> size == PropSize(p) && prop == p
  {
    if Word32(blob, offset) != TOKEN_PROPERTY {
      return 0, Property([], []);
    }
    var dataSize := Word32(blob, offset + 4);
    var nameOffset := Word32(blob, offset + 8) + Word32(blob, 12);
    var nameLen := StrLen(blob, nameOffset, |blob|, p.name);
    prop := Property(blob[nameOffset..nameOffset + nameLen], blob[offset + 12..offset + 12 + dataSize]);
    assert prop.data == p.data;
    var index := 3 + (dataSize + 3) / 4;
    size := index * 4;
  }

  /** fdt_node_name: the name of the node at an offset, and the bytes up to its properties. */
  method NodeName(blob: seq<byte>, offset: nat, ghost nm: seq<byte>) returns (size: nat, name: seq<byte>)
    requires offset + 4 <= |blob|
    requires Word32(blob, offset) == TOKEN_BEGIN_NODE ==> HeadAt(blob, offset, nm)
    ensures Word32(blob, offset) != TOKEN_BEGIN_NODE ==> size == 0
    ensures Word32(blob, offset) == TOKEN_BEGIN_NODE ==> size == NameSize(nm) && name == nm
  {
    if Word32(blob, offset) != TOKEN_BEGIN_NODE {
      return 0, [];
    }
    var n := StrLen(blob, offset + 4, offset + NameSize(nm), nm);
    return Align4(n + 1) + 4, blob[offset + 4..offset + 4 + n];
  }

  /** One round of a property loop: the k-th of the properties ps that start at an offset. */
  method NextOf(blob: seq<byte>, offset: nat, ghost start: nat, ghost ps: seq<Property>, ghost k: nat)
    returns (size: nat, prop: Property)
    requires 40 <= |blob| && PropsAt(blob, start, Word32(blob, 12), |blob|, ps, |ps|)
    requires PropsEnd(blob, start, ps)
    requires k <= |ps| && offset == start + PropsSize(ps, k)
    ensures size == if k < |ps| then PropSize(ps[k]) else 0
    ensures k < |ps| ==> prop == ps[k]
  {
    PropsToken(blob, start, ps, k);
    size, prop := NextProperty(blob, offset, PropOr(ps, k));
  }

  /** The property loop of fdt_skip_node: the offset of the first token that is no PROPERTY. */
  method SkipProperties(blob: seq<byte>, start: nat, ghost ps: seq<Property>) returns (offset: nat)
    requires 40 <= |blob| && PropsAt(blob, start, Word32(blob, 12), |blob|, ps, |ps|)
    requires PropsEnd(blob, start, ps)
    ensures offset == start + PropsSize(ps, |ps|)
  {
    offset := start;
    ghost var k := 0;
    var size, prop := NextOf(blob, offset, start, ps, k);
    while size != 0
      invariant k <= |ps|
      invariant offset == start + PropsSize(ps, k)
      invariant size == if k < |ps| then PropSize(ps[k]) else 0
      decreases |ps| - k
    {
      offset := offset + size;
      k := k + 1;
      size, prop := NextOf(blob, offset, start, ps, k);
    }
  }

  /** One round of the child loop of fdt_skip_node. */
  method SkipNext(blob: seq<byte>, offset: nat, ghost start: nat, ghost ts: seq<Tree>, ghost k: nat)
    returns (size: nat)
    requires 40 <= |blob| && KidsAt(blob, start, Word32(blob, 12), |blob|, ts, |ts|)
    requires KidsEnd(blob, start, ts)
    requires k <= |ts| && offset == start + KidsSize(ts, k)
    ensures size == if k < |ts| then NodeSize(ts[k]) else 0
    decreases |blob| - offset, 1
  {
    KidsToken(blob, start, ts, k);
    size := SkipNode(blob, offset, KidOr(ts, k));
  }

  /** The child loop of fdt_skip_node: the offset of the first token that is no BEGIN_NODE. */
  method SkipChildren(blob: seq<byte>, start: nat, ghost ts: seq<Tree>) returns (offset: nat)
    requires 40 <= |blob| && KidsAt(blob, start, Word32(blob, 12), |blob|, ts, |ts|)
    requires KidsEnd(blob, start, ts)
    ensures offset == start + KidsSize(ts, |ts|)
    decreases |blob| - start, 2
  {
    offset := start;
    ghost var k := 0;
    var size := SkipNext(blob, offset, start, ts, k);
    while size != 0
      invariant k <= |ts|
      invariant offset == start + KidsSize(ts, k)
      invariant size == if k < |ts| then NodeSize(ts[k]) else 0
      decreases |ts| - k
    {
      offset := offset + size;
      k := k + 1;
      size := SkipNext(blob, offset, start, ts, k);
    }
  }

  /** fdt_skip_node: the bytes a node takes, 0 if there is none.  Every offset stays inside the
      blob, so a C int holds it when the blob is smaller than 2 GiB. */
  method SkipNode(blob: seq<byte>, start: nat, ghost t: Tree) returns (r: nat)
    requires 40 <= |blob| && start + 4 <= |blob|
    requires Word32(blob, start) == TOKEN_BEGIN_NODE ==> NodeAt(blob, start, Word32(blob, 12), |blob|, t)
    ensures Word32(blob, start) != TOKEN_BEGIN_NODE ==> r == 0
    ensures Word32(blob, start) == TOKEN_BEGIN_NODE ==> r == NodeSize(t) && start + r <= |blob|
    decreases |blob| - start, 0
  {
    var size, name := NodeName(blob, start, t.name);
    if size == 0 {
      return 0;
    }
    NodeEnds(blob, start, t);
    var offset := SkipProperties(blob, start + size, t.properties);
    offset := SkipChildren(blob, offset, t.children);
    return offset - start + 4;
  }

  /** The property loop of fdt_unflatten_node. */
  method UnflattenProperties(blob: seq<byte>, start: nat, node: Node, ghost ps: seq<Property>) returns (offset: nat)
    requires 40 <= |blob| && PropsAt(blob, start, Word32(blob, 12), |blob|, ps, |ps|)
    requires PropsEnd(blob, start, ps)
    requires node.properties == []
    modifies node`properties
    ensures offset == start + PropsSize(ps, |ps|)
    ensures node.properties == ps
  {
    offset := start;
    ghost var k := 0;
    var size, prop := NextOf(blob, offset, start, ps, k);
    while size != 0
      invariant k <= |ps|
      invariant offset == start + PropsSize(ps, k)
      invariant size == if k < |ps| then PropSize(ps[k]) else 0
      invariant k < |ps| ==> prop == ps[k]
      invariant node.properties == ps[..k]
      decreases |ps| - k
    {
      node.properties := node.properties + [prop];
      offset := offset + size;
      k := k + 1;
      size, prop := NextOf(blob, offset, start, ps, k);
    }
  }

  /** One round of the child loop of fdt_unflatten_node. */
  method UnflattenNext(blob: seq<byte>, offset: nat, ghost start: nat, ghost ts: seq<Tree>, ghost k: nat)
    returns (size: nat, child: Node?)
    requires 40 <= |blob| && KidsAt(blob, start, Word32(blob, 12), |blob|, ts, |ts|)
    requires KidsEnd(blob, start, ts)
    requires k <= |ts| && offset == start + KidsSize(ts, k)
    ensures size == if k < |ts| then NodeSize(ts[k]) else 0
    ensures k < |ts| ==> child != null && child.Is(ts[k]) && child in child.Repr && fresh(child.Repr)
    decreases |blob| - offset, 1
  {
    KidsToken(blob, start, ts, k);
    size, child := UnflattenNode(blob, offset, KidOr(ts, k));
  }

  /** The child loop of fdt_unflatten_node. */
  method UnflattenChildren(blob: seq<byte>, start: nat, node: Node, ghost t: Tree) returns (offset: nat)
    requires 40 <= |blob| && KidsAt(blob, start, Word32(blob, 12), |blob|, t.children, |t.children|)
    requires KidsEnd(blob, start, t.children)
    requires node.Holds(t, 0)
    modifies node
    ensures offset == start + KidsSize(t.children, |t.children|)
    ensures node.Is(t) && fresh(node.Repr - old(node.Repr))
    decreases |blob| - start, 2
  {
    hide KidsAt, NodeAt, Word32, Node.Holds;
    ghost var ts := t.children;
    offset := start;
    ghost var k := 0;
    var size, child := UnflattenNext(blob, offset, start, ts, k);
    while size != 0
      invariant k <= |ts|
      invariant offset == start + KidsSize(ts, k)
      invariant size == if k < |ts| then NodeSize(ts[k]) else 0
      invariant k < |ts| ==> child != null && child.Is(ts[k]) && child in child.Repr
      invariant k < |ts| ==> fresh(child.Repr) && child.Repr !! node.Repr
      invariant node.Holds(t, k) && fresh(node.Repr - old(node.Repr))
      decreases |ts| - k
    {
      node.AddChild(child, t, k);
      offset := offset + size;
      k := k + 1;
      size, child := UnflattenNext(blob, offset, start, ts, k);
    }
  }

  /** fdt_unflatten_node: builds the node stored at an offset; 0 and no node if there is none. */
  method UnflattenNode(blob: seq<byte>, start: nat, ghost t: Tree) returns (r: nat, node: Node?)
    requires 40 <= |blob| && start + 4 <= |blob|
    requires Word32(blob, start) == TOKEN_BEGIN_NODE ==> NodeAt(blob, start, Word32(blob, 12), |blob|, t)
    ensures Word32(blob, start) != TOKEN_BEGIN_NODE ==> r == 0 && node == null
    ensures Word32(blob, start) == TOKEN_BEGIN_NODE ==>
              r == NodeSize(t) && start + r <= |blob| && node != null && node.Is(t) && fresh(node.Repr)
    decreases |blob| - start, 0
  {
    var size, name := NodeName(blob, start, t.name);
    if size == 0 {
      return 0, null;
    }
    NodeEnds(blob, start, t);
    node := new Node(name);
    var offset := UnflattenProperties(blob, start + size, node, t.properties);
    offset := UnflattenChildren(blob, offset, node, t);
    r := offset - start + 4;
  }

  /** fdt_unflatten_map_entry: the entry at an offset and its 16 bytes; 0 at the terminator. */
  method UnflattenMapEntry(blob: seq<byte>, offset: nat) returns (size: nat, entry: ReserveEntry)
    requires offset + 16 <= |blob|
    ensures size == if Word64(blob, offset + 8) == 0 then 0 else 16
    ensures size != 0 ==> EntryAt(blob, offset, entry)
  {
    entry := ReserveEntry(Word64(blob, offset), Word64(blob, offset + 8));
    size := if entry.size == 0 then 0 else 16;
  }

  /** The loop of fdt_unflatten over the reserve map. */
  method UnflattenMap(blob: seq<byte>, start: nat, ghost es: seq<ReserveEntry>) returns (map_: seq<ReserveEntry>)
    requires MapAt(blob, start, es)
    ensures map_ == es
  {
    map_ := [];
    var offset := start;
    assert es != [] ==> EntryAt(blob, offset, es[0]);
    var size, entry := UnflattenMapEntry(blob, offset);
    while size != 0
      invariant |map_| <= |es| && map_ == es[..|map_|]
      invariant offset == start + 16 * |map_|
      invariant size == if |map_| < |es| then 16 else 0
      invariant size != 0 ==> entry == es[|map_|]
      decreases |es| - |map_|
    {
      map_ := map_ + [entry];
      offset := offset + size;
      assert |map_| < |es| ==> EntryAt(blob, offset, es[|map_|]);
      size, entry := UnflattenMapEntry(blob, offset);
    }
  }

  /** struct device_tree.  The header pointer is the blob it points into. */
  datatype DeviceTree = DeviceTree(header: seq<byte>, headerSize: nat, reserveMap: seq<ReserveEntry>, root: Node)

  /** The device tree in memory is what the blob src means. */
  ghost predicate TreeIs(tree: DeviceTree, src: seq<byte>, m: Blob)
    reads tree.root, tree.root.Repr
  {
    && tree.header == src && tree.headerSize == m.headerSize && tree.reserveMap == m.reserve
    && tree.root.Is(m.root)
  }

  /** fdt_unflatten: every blob is read as what it means. */
  method Unflatten(blob: seq<byte>, ghost m: Blob) returns (tree: DeviceTree)
    requires IsBlob(blob, m)
    ensures TreeIs(tree, blob, m) && fresh(tree.root.Repr)
  {
    var structOffset := Word32(blob, 8);
    var stringsOffset := Word32(blob, 12);
    var reserveOffset := Word32(blob, 16);
    var minOffset := Min(Min(structOffset, stringsOffset), reserveOffset);
    var reserveMap := UnflattenMap(blob, reserveOffset, m.reserve);
    var _, root := UnflattenNode(blob, structOffset, m.root);
    tree := DeviceTree(blob, minOffset, reserveMap, root);
  }

  // ---- what the loops see at each offset ------------------------------------------------------

  /** The k-th property, or anything when there are fewer. */
  ghost function PropOr(ps: seq<Property>, k: nat): Property {
    if k < |ps| then ps[k] else Property([], [])
  }

  /** The k-th child, or anything when there are fewer. */
  ghost function KidOr(ts: seq<Tree>, k: nat): Tree {
    if k < |ts| then ts[k] else Tree([], [], [])
  }

  /** No property follows the properties ps. */
  ghost predicate PropsEnd(blob: seq<byte>, o: nat, ps: seq<Property>) {
    o + PropsSize(ps, |ps|) + 4 <= |blob| && Word32(blob, o + PropsSize(ps, |ps|)) != TOKEN_PROPERTY
  }

  /** No node follows the nodes ts. */
  ghost predicate KidsEnd(blob: seq<byte>, o: nat, ts: seq<Tree>) {
    o + KidsSize(ts, |ts|) + 4 <= |blob| && Word32(blob, o + KidsSize(ts, |ts|)) != TOKEN_BEGIN_NODE
  }

  lemma {:induction false} PropsToken(blob: seq<byte>, o: nat, ps: seq<Property>, k: nat)
    requires 40 <= |blob| && PropsAt(blob, o, Word32(blob, 12), |blob|, ps, |ps|)
    requires PropsEnd(blob, o, ps)
    requires k <= |ps|
    ensures o + PropsSize(ps, k) + 4 <= |blob|
    ensures Word32(blob, o + PropsSize(ps, k)) == TOKEN_PROPERTY <==> k < |ps|
    ensures k < |ps| ==> PropAt(blob, o + PropsSize(ps, k), Word32(blob, 12), |blob|, PropOr(ps, k))
  {
    assert k < |ps| ==> PropIn(blob, o, Word32(blob, 12), |blob|, ps, k);
  }

  lemma {:induction false} KidsToken(blob: seq<byte>, o: nat, ts: seq<Tree>, k: nat)
    requires 40 <= |blob| && KidsAt(blob, o, Word32(blob, 12), |blob|, ts, |ts|)
    requires KidsEnd(blob, o, ts)
    requires k <= |ts|
    ensures o + KidsSize(ts, k) + 4 <= |blob|
    ensures Word32(blob, o + KidsSize(ts, k)) == TOKEN_BEGIN_NODE <==> k < |ts|
    ensures k < |ts| ==> NodeAt(blob, o + KidsSize(ts, k), Word32(blob, 12), |blob|, KidOr(ts, k))
  {
    if k < |ts| {
      assert KidIn(blob, o, Word32(blob, 12), |blob|, ts, k);
      assert NodeAt(blob, o + KidsSize(ts, k), Word32(blob, 12), |blob|, ts[k]);
    }
  }

  lemma {:induction false} NodeEnds(blob: seq<byte>, o: nat, t: Tree)
    requires 40 <= |blob| && NodeAt(blob, o, Word32(blob, 12), |blob|, t)
    ensures PropsAt(blob, o + NameSize(t.name), Word32(blob, 12), |blob|, t.properties, |t.properties|)
    ensures PropsEnd(blob, o + NameSize(t.name), t.properties)
    ensures KidsAt(blob, o + KidsOff(t), Word32(blob, 12), |blob|, t.children, |t.children|)
    ensures KidsEnd(blob, o + KidsOff(t), t.children)
    ensures KidsOff(t) + KidsSize(t.children, |t.children|) + 4 == NodeSize(t)
  {
    PropToken(blob, o, Word32(blob, 12), |blob|, t, |t.properties|);
    KidToken(blob, o, Word32(blob, 12), |blob|, t, |t.children|);
  }
}
