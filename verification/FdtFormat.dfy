/** What the bytes of a flattened device tree mean: Devicetree Specification v0.3,
    sections 5.2 to 5.5.  Everything here is independent of how the blob is read or written;
    padding bytes are left unconstrained. */
module FdtFormat {
  import opened Bytes

  const TOKEN_BEGIN_NODE := 1
  const TOKEN_END_NODE := 2
  const TOKEN_PROPERTY := 3
  const TOKEN_END := 9

  datatype Property = Property(name: seq<byte>, data: seq<byte>)
  datatype Tree = Tree(name: seq<byte>, properties: seq<Property>, children: seq<Tree>)
  datatype ReserveEntry = ReserveEntry(start: nat, size: nat)

  /** A blob's meaning: the bytes that belong to its header, its reserve map, its root node. */
  datatype Blob = Blob(headerSize: nat, reserve: seq<ReserveEntry>, root: Tree)

  // ---- sizes -------------------------------------------------------------------------------

  function PropSize(p: Property): nat {
    12 + Align4(|p.data|)
  }

  /** Size of the first k properties. */
  function PropsSize(ps: seq<Property>, k: nat): nat
    requires k <= |ps|
  {
    if k == 0 then 0 else PropsSize(ps, k - 1) + PropSize(ps[k - 1])
  }

  /** Offset of the first property relative to the node's BEGIN_NODE token. */
  function NameSize(name: seq<byte>): (n: nat)
    ensures n >= |name| + 5
  {
    4 + Align4(|name| + 1)
  }

  /** Where a node's children start, relative to the node. */
  function KidsOff(t: Tree): (n: nat)
    ensures n >= 5
  {
    NameSize(t.name) + PropsSize(t.properties, |t.properties|)
  }

  function NodeSize(t: Tree): (n: nat)
    ensures n >= 9
    decreases t
  {
    KidsOff(t) + KidsSize(t.children, |t.children|) + 4
  }

  /** Size of the first k children. */
  function KidsSize(ts: seq<Tree>, k: nat): nat
    requires k <= |ts|
    decreases ts, k
  {
    if k == 0 then 0 else KidsSize(ts, k - 1) + NodeSize(ts[k - 1])
  }

  /** Where a node's END_NODE token lies, relative to the node. */
  function EndOff(t: Tree): nat {
    NodeSize(t) - 4
  }

  /** Room the names of the first k properties take in the strings block. */
  function PropsStrings(ps: seq<Property>, k: nat): nat
    requires k <= |ps|
  {
    if k == 0 then 0 else PropsStrings(ps, k - 1) + |ps[k - 1].name| + 1
  }

  function NodeStrings(t: Tree): nat
    decreases t
  {
    PropsStrings(t.properties, |t.properties|) + KidsStrings(t.children, |t.children|)
  }

  function KidsStrings(ts: seq<Tree>, k: nat): nat
    requires k <= |ts|
    decreases ts, k
  {
    if k == 0 then 0 else KidsStrings(ts, k - 1) + NodeStrings(ts[k - 1])
  }

  function MapSize(map_: seq<ReserveEntry>): nat {
    16 * (|map_| + 1)
  }

  /** Size of a whole blob: header, reserve map, structure block, END token, strings block. */
  function FlatSize(m: Blob): nat {
    m.headerSize + MapSize(m.reserve) + NodeSize(m.root) + 4 + NodeStrings(m.root)
  }

  // ---- layout ------------------------------------------------------------------------------

  /** Property p is stored at offset o; its name lies in the strings block [strs, lim). */
  ghost predicate PropAt(b: seq<byte>, o: nat, strs: nat, lim: nat, p: Property) {
    && o + PropSize(p) <= |b|
    && Word32(b, o) == TOKEN_PROPERTY
    && Word32(b, o + 4) == |p.data|
    && CStrAt(b, strs + Word32(b, o + 8), lim, p.name)
    && forall i :: 0 <= i < |p.data| ==> b[o + 12 + i] == p.data[i]
  }

  /** The k-th of the properties that start at offset o is stored. */
  ghost predicate PropIn(b: seq<byte>, o: nat, strs: nat, lim: nat, ps: seq<Property>, k: nat)
    requires k < |ps|
  {
    PropAt(b, o + PropsSize(ps, k), strs, lim, ps[k])
  }

  /** The first n of the properties ps are stored one after the other from offset o. */
  ghost predicate PropsAt(b: seq<byte>, o: nat, strs: nat, lim: nat, ps: seq<Property>, n: nat)
    requires n <= |ps|
  {
    forall k :: 0 <= k < n ==> PropIn(b, o, strs, lim, ps, k)
  }

  /** The BEGIN_NODE token and the name of a node. */
  ghost predicate HeadAt(b: seq<byte>, o: nat, name: seq<byte>) {
    && o + NameSize(name) <= |b|
    && Word32(b, o) == TOKEN_BEGIN_NODE
    && CStrAt(b, o + 4, o + NameSize(name), name)
  }

  /** The k-th of the nodes that start at offset o is stored. */
  ghost predicate KidIn(b: seq<byte>, o: nat, strs: nat, lim: nat, ts: seq<Tree>, k: nat)
    requires k < |ts|
    decreases ts, 1
  {
    NodeAt(b, o + KidsSize(ts, k), strs, lim, ts[k])
  }

  /** The first n of the nodes ts are stored one after the other from offset o. */
  ghost predicate KidsAt(b: seq<byte>, o: nat, strs: nat, lim: nat, ts: seq<Tree>, n: nat)
    requires n <= |ts|
    decreases ts, 2
  {
    forall k :: 0 <= k < n ==> KidIn(b, o, strs, lim, ts, k)
  }

  /** Node t, with everything under it, is stored at offset o. */
  ghost predicate NodeAt(b: seq<byte>, o: nat, strs: nat, lim: nat, t: Tree)
    decreases t
  {
    && HeadAt(b, o, t.name)
    && PropsAt(b, o + NameSize(t.name), strs, lim, t.properties, |t.properties|)
    && KidsAt(b, o + KidsOff(t), strs, lim, t.children, |t.children|)
    && o + NodeSize(t) <= |b|
    && Word32(b, o + EndOff(t)) == TOKEN_END_NODE
  }

  /** The reserve map is stored at offset o; an entry of size zero ends it. */
  ghost predicate MapAt(b: seq<byte>, o: nat, es: seq<ReserveEntry>) {
    && o + MapSize(es) <= |b|
    && (forall k :: 0 <= k < |es| ==> EntryAt(b, o + 16 * k, es[k]))
    && Word64(b, o + 16 * |es| + 8) == 0
  }

  ghost predicate EntryAt(b: seq<byte>, o: nat, e: ReserveEntry) {
    o + 16 <= |b| && e.size != 0 && Word64(b, o) == e.start && Word64(b, o + 8) == e.size
  }

  function Min(x: nat, y: nat): nat {
    if x < y then x else y
  }

  /** b is a blob that means m. */
  ghost predicate IsBlob(b: seq<byte>, m: Blob) {
    && 40 <= |b|
    && 40 <= m.headerSize == Min(Min(Word32(b, 8), Word32(b, 12)), Word32(b, 16))
    && MapAt(b, Word32(b, 16), m.reserve)
    && NodeAt(b, Word32(b, 8), Word32(b, 12), |b|, m.root)
  }

  // ---- properties of sizes -----------------------------------------------------------------

  lemma {:induction false} PropsSizeMono(ps: seq<Property>, j: nat, k: nat)
    requires j <= k <= |ps|
    ensures PropsSize(ps, j) <= PropsSize(ps, k)
    ensures PropsStrings(ps, j) <= PropsStrings(ps, k)
  {
    if j < k {
      PropsSizeMono(ps, j, k - 1);
    }
  }

  lemma {:induction false} KidsSizeMono(ts: seq<Tree>, j: nat, k: nat)
    requires j <= k <= |ts|
    ensures KidsSize(ts, j) <= KidsSize(ts, k)
    ensures KidsStrings(ts, j) <= KidsStrings(ts, k)
  {
    if j < k {
      KidsSizeMono(ts, j, k - 1);
    }
  }

  // ---- framing -----------------------------------------------------------------------------

  lemma {:induction false} HeadFrame(a: seq<byte>, b: seq<byte>, o: nat, name: seq<byte>)
    requires HeadAt(a, o, name)
    requires Same(a, b, o, o + NameSize(name))
    ensures HeadAt(b, o, name)
  {
    WordFrame(a, b, o);
    CStrFrame(a, b, o + 4, o + NameSize(name), o + NameSize(name), name);
  }

  lemma {:induction false} PropFrame(a: seq<byte>, b: seq<byte>, o: nat, strs: nat, lim: nat, lim': nat, p: Property)
    requires PropAt(a, o, strs, lim, p)
    requires lim <= lim' <= |b|
    requires Same(a, b, o, o + PropSize(p)) && Same(a, b, strs, lim)
    ensures PropAt(b, o, strs, lim', p)
  {
    assert Word32(a, o + 8) == Word32(b, o + 8);
    CStrFrame(a, b, strs + Word32(a, o + 8), lim, lim', p.name);
  }

  lemma {:induction false} PropsFrame(a: seq<byte>, b: seq<byte>, o: nat, strs: nat, lim: nat, lim': nat,
                                      ps: seq<Property>, n: nat)
    requires n <= |ps| && PropsAt(a, o, strs, lim, ps, n)
    requires lim <= lim' <= |b|
    requires Same(a, b, o, o + PropsSize(ps, n)) && Same(a, b, strs, lim)
    ensures PropsAt(b, o, strs, lim', ps, n)
  {
    forall k | 0 <= k < n ensures PropIn(b, o, strs, lim', ps, k) {
      PropsSizeMono(ps, k + 1, n);
      assert PropIn(a, o, strs, lim, ps, k);
      PropFrame(a, b, o + PropsSize(ps, k), strs, lim, lim', ps[k]);
    }
  }

  lemma {:induction false} KidsFrame(a: seq<byte>, b: seq<byte>, o: nat, strs: nat, lim: nat, lim': nat,
                                     ts: seq<Tree>, n: nat)
    requires n <= |ts| && KidsAt(a, o, strs, lim, ts, n)
    requires lim <= lim' <= |b|
    requires Same(a, b, o, o + KidsSize(ts, n)) && Same(a, b, strs, lim)
    ensures KidsAt(b, o, strs, lim', ts, n)
    decreases ts, 1
  {
    forall k | 0 <= k < n ensures KidIn(b, o, strs, lim', ts, k) {
      KidsSizeMono(ts, k + 1, n);
      assert KidIn(a, o, strs, lim, ts, k);
      NodeFrame(a, b, o + KidsSize(ts, k), strs, lim, lim', ts[k]);
    }
  }

  lemma {:induction false} EntryFrame(a: seq<byte>, b: seq<byte>, o: nat, e: ReserveEntry)
    requires EntryAt(a, o, e)
    requires Same(a, b, o, o + 16)
    ensures EntryAt(b, o, e)
  {
    WordFrame(a, b, o);
    WordFrame(a, b, o + 4);
    WordFrame(a, b, o + 8);
    WordFrame(a, b, o + 12);
  }

  lemma {:induction false} MapFrame(a: seq<byte>, b: seq<byte>, o: nat, es: seq<ReserveEntry>)
    requires MapAt(a, o, es)
    requires Same(a, b, o, o + MapSize(es))
    ensures MapAt(b, o, es)
  {
    forall k | 0 <= k < |es| ensures EntryAt(b, o + 16 * k, es[k]) {
      EntryFrame(a, b, o + 16 * k, es[k]);
    }
    WordFrame(a, b, o + 16 * |es| + 8);
    WordFrame(a, b, o + 16 * |es| + 12);
  }

  /** Writing outside a node's structure bytes and outside its names leaves it stored. */
  lemma {:induction false} NodeFrame(a: seq<byte>, b: seq<byte>, o: nat, strs: nat, lim: nat, lim': nat, t: Tree)
    requires NodeAt(a, o, strs, lim, t)
    requires lim <= lim' <= |b|
    requires Same(a, b, o, o + NodeSize(t)) && Same(a, b, strs, lim)
    ensures NodeAt(b, o, strs, lim', t)
    decreases t
  {
    HeadFrame(a, b, o, t.name);
    PropsFrame(a, b, o + NameSize(t.name), strs, lim, lim', t.properties, |t.properties|);
    KidsFrame(a, b, o + KidsOff(t), strs, lim, lim', t.children, |t.children|);
  }

  // ---- C strings in the tree ---------------------------------------------------------------

  /** No name in the tree contains a NUL. */
  ghost predicate NulFree(t: Tree)
    decreases t
  {
    && 0 !in t.name
    && (forall p :: p in t.properties ==> 0 !in p.name)
    && (forall k :: 0 <= k < |t.children| ==> NulFree(t.children[k]))
  }

  lemma {:induction false} StoredNulFree(b: seq<byte>, o: nat, strs: nat, lim: nat, t: Tree)
    requires NodeAt(b, o, strs, lim, t)
    ensures NulFree(t)
    decreases t
  {
    forall p | p in t.properties ensures 0 !in p.name {
      var k :| 0 <= k < |t.properties| && t.properties[k] == p;
      assert PropIn(b, o + NameSize(t.name), strs, lim, t.properties, k);
    }
    forall k | 0 <= k < |t.children| ensures NulFree(t.children[k]) {
      KidToken(b, o, strs, lim, t, k);
      StoredNulFree(b, o + KidsOff(t) + KidsSize(t.children, k), strs, lim, t.children[k]);
    }
  }

  // ---- the format is unambiguous -----------------------------------------------------------

  lemma {:induction false} PropUnique(b: seq<byte>, o: nat, strs: nat, l1: nat, l2: nat, p1: Property, p2: Property)
    requires PropAt(b, o, strs, l1, p1) && PropAt(b, o, strs, l2, p2)
    ensures p1 == p2
  {
    CStrUnique(b, strs + Word32(b, o + 8), l1, p1.name, l2, p2.name);
    assert p1.data == p2.data;
  }

  /** The word after k properties is a PROPERTY token exactly when there are more than k. */
  lemma {:induction false} PropToken(b: seq<byte>, o: nat, strs: nat, lim: nat, t: Tree, k: nat)
    requires NodeAt(b, o, strs, lim, t)
    requires k <= |t.properties|
    ensures o + NameSize(t.name) + PropsSize(t.properties, k) + 4 <= |b|
    ensures Word32(b, o + NameSize(t.name) + PropsSize(t.properties, k)) == TOKEN_PROPERTY <==> k < |t.properties|
    ensures k < |t.properties| ==>
              PropAt(b, o + NameSize(t.name) + PropsSize(t.properties, k), strs, lim, t.properties[k])
  {
    if k < |t.properties| {
      assert PropIn(b, o + NameSize(t.name), strs, lim, t.properties, k);
    } else {
      KidToken(b, o, strs, lim, t, 0);
    }
  }

  /** The word after k children is BEGIN_NODE when there are more than k and END_NODE otherwise. */
  lemma {:induction false} KidToken(b: seq<byte>, o: nat, strs: nat, lim: nat, t: Tree, k: nat)
    requires NodeAt(b, o, strs, lim, t)
    requires k <= |t.children|
    ensures o + KidsOff(t) + KidsSize(t.children, k) + 4 <= |b|
    ensures Word32(b, o + KidsOff(t) + KidsSize(t.children, k))
            == if k < |t.children| then TOKEN_BEGIN_NODE else TOKEN_END_NODE
    ensures k < |t.children| ==> NodeAt(b, o + KidsOff(t) + KidsSize(t.children, k), strs, lim, t.children[k])
  {
    var kids := o + KidsOff(t);
    if k < |t.children| {
      assert KidIn(b, kids, strs, lim, t.children, k);
      assert NodeAt(b, kids + KidsSize(t.children, k), strs, lim, t.children[k]);
    } else {
      assert EndOff(t) == KidsOff(t) + KidsSize(t.children, k);
    }
  }

  lemma {:induction false} PropsUnique(b: seq<byte>, o: nat, strs: nat, l1: nat, l2: nat,
                                       ps1: seq<Property>, ps2: seq<Property>, k: nat)
    requires k <= |ps1| && k <= |ps2|
    requires PropsAt(b, o, strs, l1, ps1, k) && PropsAt(b, o, strs, l2, ps2, k)
    ensures forall i :: 0 <= i < k ==> ps1[i] == ps2[i]
    ensures PropsSize(ps1, k) == PropsSize(ps2, k)
  {
    if k > 0 {
      PropsUnique(b, o, strs, l1, l2, ps1, ps2, k - 1);
      assert PropIn(b, o, strs, l1, ps1, k - 1) && PropIn(b, o, strs, l2, ps2, k - 1);
      PropUnique(b, o + PropsSize(ps1, k - 1), strs, l1, l2, ps1[k - 1], ps2[k - 1]);
    }
  }

  lemma {:induction false} KidsUnique(b: seq<byte>, o: nat, strs: nat, l1: nat, l2: nat,
                                      ts1: seq<Tree>, ts2: seq<Tree>, k: nat)
    requires k <= |ts1| && k <= |ts2|
    requires KidsAt(b, o, strs, l1, ts1, k) && KidsAt(b, o, strs, l2, ts2, k)
    ensures forall i :: 0 <= i < k ==> ts1[i] == ts2[i]
    ensures KidsSize(ts1, k) == KidsSize(ts2, k)
    decreases ts1, 1, k
  {
    if k > 0 {
      KidsUnique(b, o, strs, l1, l2, ts1, ts2, k - 1);
      assert KidIn(b, o, strs, l1, ts1, k - 1) && KidIn(b, o, strs, l2, ts2, k - 1);
      NodeUnique(b, o + KidsSize(ts1, k - 1), strs, l1, l2, ts1[k - 1], ts2[k - 1]);
    }
  }

  /** At most one tree is stored at an offset. */
  lemma {:induction false} NodeUnique(b: seq<byte>, o: nat, strs: nat, l1: nat, l2: nat, t1: Tree, t2: Tree)
    requires NodeAt(b, o, strs, l1, t1) && NodeAt(b, o, strs, l2, t2)
    ensures t1 == t2
    decreases t1, 0, 0
  {
    hide PropsAt, Word32, Align4;
    CStrUnique(b, o + 4, o + NameSize(t1.name), t1.name, o + NameSize(t2.name), t2.name);
    SamePropCount(b, o, strs, l1, l2, t1, t2);
    var c := Min(|t1.children|, |t2.children|);
    KidsUnique(b, o + KidsOff(t1), strs, l1, l2, t1.children, t2.children, c);
    KidToken(b, o, strs, l1, t1, c);
    KidToken(b, o, strs, l2, t2, c);
    assert t1.children == t2.children;
  }

  lemma {:induction false} SamePropCount(b: seq<byte>, o: nat, strs: nat, l1: nat, l2: nat, t1: Tree, t2: Tree)
    requires NodeAt(b, o, strs, l1, t1) && NodeAt(b, o, strs, l2, t2)
    requires t1.name == t2.name
    ensures t1.properties == t2.properties
  {
    var p := Min(|t1.properties|, |t2.properties|);
    PropsUnique(b, o + NameSize(t1.name), strs, l1, l2, t1.properties, t2.properties, p);
    PropToken(b, o, strs, l1, t1, p);
    PropToken(b, o, strs, l2, t2, p);
    assert t1.properties == t2.properties;
  }

  lemma {:induction false} MapUnique(b: seq<byte>, o: nat, es1: seq<ReserveEntry>, es2: seq<ReserveEntry>)
    requires MapAt(b, o, es1) && MapAt(b, o, es2)
    ensures es1 == es2
  {
    assert |es1| < |es2| ==> EntryAt(b, o + 16 * |es1|, es2[|es1|]);
    assert |es2| < |es1| ==> EntryAt(b, o + 16 * |es2|, es1[|es2|]);
    forall k | 0 <= k < |es1| ensures es1[k] == es2[k] {
      assert EntryAt(b, o + 16 * k, es1[k]) && EntryAt(b, o + 16 * k, es2[k]);
    }
  }

  /** A byte string has at most one meaning as a blob. */
  lemma {:induction false} BlobUnique(b: seq<byte>, m1: Blob, m2: Blob)
    requires IsBlob(b, m1) && IsBlob(b, m2)
    ensures m1 == m2
  {
    NodeUnique(b, Word32(b, 8), Word32(b, 12), |b|, |b|, m1.root, m2.root);
    MapUnique(b, Word32(b, 16), m1.reserve, m2.reserve);
  }
}
