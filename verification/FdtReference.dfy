/** A reading of flattened device trees straight from the Devicetree Specification v0.3: section 5.2
    (header), 5.3 (reserve map), 5.4 (structure block: big-endian tokens on 4-byte boundaries from its
    beginning) and 5.5 (strings block).  It shares nothing with FdtFormat but the types of trees, and
    says the same. */
module FdtReference {
  import opened Bytes
  import opened Endian
  import opened FdtFormat
  import opened Options

  /** The word w is stored big-endian at o. */
  predicate IsWord(b: seq<byte>, o: nat, w: nat) {
    o + 4 <= |b| && BigEndian(b[o..o + 4]) == w
  }

  /** The next 4-byte boundary. */
  function Boundary(p: nat): (r: nat)
    ensures p <= r
  {
    if p % 4 == 0 then p else p - p % 4 + 4
  }

  /** The NUL-terminated string at o. */
  function ReadString(b: seq<byte>, o: nat): (r: Option<seq<byte>>)
    ensures r.Some? ==> o + |r.value| < |b|
    decreases |b| - o
  {
    if o >= |b| then None
    else if b[o] == 0 then Some([])
    else
      match ReadString(b, o + 1)
      case None => None
      case Some(s) => Some([b[o]] + s)
  }

  /** The properties at position p of the structure block that starts at start, and where they end. */
  function ReadProps(b: seq<byte>, start: nat, strs: nat, p: nat): (r: Option<(seq<Property>, nat)>)
    ensures r.Some? ==> p <= r.value.1
    decreases |b| - start - p
  {
    if !IsWord(b, start + p, 3) then Some(([], p))
    else if start + p + 12 > |b| then None
    else
      var size := BigEndian(b[start + p + 4..start + p + 8]);
      var name := ReadString(b, strs + BigEndian(b[start + p + 8..start + p + 12]));
      var next := Boundary(p + 12 + size);
      if start + next > |b| || name == None then None
      else
        match ReadProps(b, start, strs, next)
        case None => None
        case Some((ps, end)) => Some(([Property(name.value, b[start + p + 12..start + p + 12 + size])] + ps, end))
  }

  /** The node at position p, and where it ends. */
  function ReadNode(b: seq<byte>, start: nat, strs: nat, p: nat): (r: Option<(Tree, nat)>)
    ensures r.Some? ==> p < r.value.1 && start + r.value.1 <= |b|
    decreases |b| - start - p, 0
  {
    if !IsWord(b, start + p, 1) then None
    else
      match ReadString(b, start + p + 4)
      case None => None
      case Some(name) =>
        match ReadProps(b, start, strs, Boundary(p + 4 + |name| + 1))
        case None => None
        case Some((ps, q)) =>
          match ReadNodes(b, start, strs, q)
          case None => None
          case Some((ts, end)) =>
            if IsWord(b, start + end, 2) then Some((Tree(name, ps, ts), end + 4)) else None
  }

  /** The nodes at position p, and where they end. */
  function ReadNodes(b: seq<byte>, start: nat, strs: nat, p: nat): (r: Option<(seq<Tree>, nat)>)
    ensures r.Some? ==> p <= r.value.1
    decreases |b| - start - p, 1
  {
    if !IsWord(b, start + p, 1) then Some(([], p))
    else
      match ReadNode(b, start, strs, p)
      case None => None
      case Some((t, q)) =>
        match ReadNodes(b, start, strs, q)
        case None => None
        case Some((ts, end)) => Some(([t] + ts, end))
  }

  /** The reserve map at o: pairs of 64-bit numbers up to a size of 0. */
  function ReadMap(b: seq<byte>, o: nat): Option<seq<ReserveEntry>>
    decreases |b| - o
  {
    if o + 16 > |b| then None
    else
      var start, size := BigEndian(b[o..o + 8]), BigEndian(b[o + 8..o + 16]);
      if size == 0 then Some([])
      else
        match ReadMap(b, o + 16)
        case None => None
        case Some(es) => Some([ReserveEntry(start, size)] + es)
  }

  function Least(x: nat, y: nat, z: nat): nat {
    if x <= y && x <= z then x else if y <= z then y else z
  }

  /** A blob: the offsets of structure block, strings block and reserve map are at 8, 12 and 16. */
  function ReadBlob(b: seq<byte>): Option<Blob> {
    if |b| < 40 then None
    else
      var structs, strs, map_ := BigEndian(b[8..12]), BigEndian(b[12..16]), BigEndian(b[16..20]);
      match ReadMap(b, map_)
      case None => None
      case Some(es) =>
        match ReadNode(b, structs, strs, 0)
        case None => None
        case Some((root, end)) =>
          var header := Least(structs, strs, map_);
          if header < 40 then None else Some(Blob(header, es, root))
  }

  // ---- it says the same ------------------------------------------------------------------------

  lemma {:induction false} WordIs(b: seq<byte>, o: nat, w: nat)
    ensures IsWord(b, o, w) <==> o + 4 <= |b| && Word32(b, o) == w
  {
    if o + 4 <= |b| {
      Word32Is(b, o);
    }
  }

  /** Rounding up a size behind a boundary is going to the next boundary. */
  lemma {:induction false} BoundaryIs(p: nat, k: nat, n: nat)
    requires p % 4 == 0 && k % 4 == 0
    ensures Boundary(p + k + n) == p + k + Align4(n)
  {
  }

  /** Sizes are multiples of 4, and less than 4 bytes of each part are padding. */
  lemma {:induction false} SizesAligned(t: Tree, p: Property, k: nat, n: nat)
    requires k <= |t.properties| && n <= |t.children|
    ensures PropSize(p) % 4 == 0 && 12 + |p.data| <= PropSize(p) < 12 + |p.data| + 4
    ensures NameSize(t.name) % 4 == 0 && 4 + |t.name| + 1 <= NameSize(t.name) < 4 + |t.name| + 1 + 4
    ensures PropsSize(t.properties, k) % 4 == 0 && KidsSize(t.children, n) % 4 == 0 && NodeSize(t) % 4 == 0
  {
    hide Align4, PropsSize, KidsSize;
    PropsAligned(t.properties, k);
    PropsAligned(t.properties, |t.properties|);
    KidsAligned(t.children, n);
    KidsAligned(t.children, |t.children|);
  }

  lemma {:induction false} PropsAligned(ps: seq<Property>, k: nat)
    requires k <= |ps|
    ensures PropsSize(ps, k) % 4 == 0
  {
    hide Align4;
    if k > 0 {
      PropsAligned(ps, k - 1);
    }
  }

  lemma {:induction false} KidsAligned(ts: seq<Tree>, k: nat)
    requires k <= |ts|
    ensures KidsSize(ts, k) % 4 == 0
    decreases ts, k
  {
    hide Align4;
    if k > 0 {
      KidsAligned(ts, k - 1);
      var t := ts[k - 1];
      PropsAligned(t.properties, |t.properties|);
      KidsAligned(t.children, |t.children|);
    }
  }

  lemma {:induction false} StringIs(b: seq<byte>, o: nat, s: seq<byte>)
    ensures ReadString(b, o) == Some(s) <==> CStrAt(b, o, |b|, s)
    decreases |s|
  {
    if o < |b| && b[o] != 0 && s != [] {
      StringIs(b, o + 1, s[1..]);
      assert s == [s[0]] + s[1..];
      assert CStrAt(b, o, |b|, s) ==> CStrAt(b, o + 1, |b|, s[1..]) && b[o] == s[0] by {
        assert forall i :: 0 <= i < |s| - 1 ==> s[1..][i] == s[i + 1];
      }
      if s[0] == b[o] && CStrAt(b, o + 1, |b|, s[1..]) {
        assert forall i :: 0 <= i < |s| ==> b[o + i] == s[i];
        assert CStrAt(b, o, |b|, s);
      }
    }
  }

  /** One property, in both readings. */
  lemma {:induction false} PropIs(b: seq<byte>, start: nat, strs: nat, p: nat, x: Property)
    requires p % 4 == 0
    ensures PropAt(b, start + p, strs, |b|, x) <==>
              && IsWord(b, start + p, 3) && start + p + 12 <= |b|
              && BigEndian(b[start + p + 4..start + p + 8]) == |x.data|
              && ReadString(b, strs + BigEndian(b[start + p + 8..start + p + 12])) == Some(x.name)
              && start + Boundary(p + 12 + |x.data|) <= |b|
              && b[start + p + 12..start + p + 12 + |x.data|] == x.data
    ensures Boundary(p + 12 + |x.data|) == p + PropSize(x) && (p + PropSize(x)) % 4 == 0
  {
    hide Word32, BigEndian, Boundary, ReadString, CStrAt, IsWord, Align4;
    var o := start + p;
    WordIs(b, o, 3);
    BoundaryIs(p, 12, |x.data|);
    if o + 12 <= |b| {
      Word32Is(b, o + 4);
      Word32Is(b, o + 8);
      StringIs(b, strs + Word32(b, o + 8), x.name);
    }
    if o + 12 + |x.data| <= |b| {
      DataIs(b, o + 12, x.data);
    }
  }

  lemma {:induction false} DataIs(b: seq<byte>, o: nat, d: seq<byte>)
    requires o + |d| <= |b|
    ensures b[o..o + |d|] == d <==> forall i :: 0 <= i < |d| ==> b[o + i] == d[i]
  {
    var e := b[o..o + |d|];
    assert forall i :: 0 <= i < |d| ==> e[i] == b[o + i];
  }

  lemma {:induction false} PropsSizeCons(x: Property, ps: seq<Property>, k: nat)
    requires k <= |ps|
    ensures PropsSize([x] + ps, k + 1) == PropSize(x) + PropsSize(ps, k)
    decreases k
  {
    if k > 0 {
      PropsSizeCons(x, ps, k - 1);
    }
  }

  /** The first property and the others. */
  lemma {:induction false} PropsAtCons(b: seq<byte>, o: nat, strs: nat, lim: nat, x: Property, ps: seq<Property>)
    ensures PropsAt(b, o, strs, lim, [x] + ps, |ps| + 1) <==>
              PropAt(b, o, strs, lim, x) && PropsAt(b, o + PropSize(x), strs, lim, ps, |ps|)
  {
    hide PropAt, PropSize;
    var qs, o1 := [x] + ps, o + PropSize(x);
    assert PropIn(b, o, strs, lim, qs, 0) == PropAt(b, o, strs, lim, x);
    if PropsAt(b, o, strs, lim, qs, |qs|) {
      forall k | 0 <= k < |ps| ensures PropIn(b, o1, strs, lim, ps, k) {
        PropsSizeCons(x, ps, k);
        assert PropIn(b, o, strs, lim, qs, k + 1);
      }
    }
    if PropAt(b, o, strs, lim, x) && PropsAt(b, o1, strs, lim, ps, |ps|) {
      forall k | 0 <= k < |qs| ensures PropIn(b, o, strs, lim, qs, k) {
        if k > 0 {
          PropsSizeCons(x, ps, k - 1);
          assert PropIn(b, o1, strs, lim, ps, k - 1);
        }
      }
    }
  }

  /** The properties up to the first token that is none. */
  lemma {:induction false} PropsRead(b: seq<byte>, start: nat, strs: nat, p: nat, ps: seq<Property>)
    requires p % 4 == 0 && PropsAt(b, start + p, strs, |b|, ps, |ps|)
    requires !IsWord(b, start + p + PropsSize(ps, |ps|), 3)
    ensures ReadProps(b, start, strs, p) == Some((ps, p + PropsSize(ps, |ps|)))
    decreases |ps|
  {
    hide PropsAt, PropAt, PropSize, Boundary, BigEndian, ReadString;
    if ps != [] {
      var x, rest := ps[0], ps[1..];
      assert ps == [x] + rest;
      PropsAtCons(b, start + p, strs, |b|, x, rest);
      PropIs(b, start, strs, p, x);
      PropsSizeCons(x, rest, |rest|);
      PropsRead(b, start, strs, p + PropSize(x), rest);
    }
  }

  lemma {:induction false} PropsReadBack(b: seq<byte>, start: nat, strs: nat, p: nat, ps: seq<Property>, q: nat)
    requires p % 4 == 0 && ReadProps(b, start, strs, p) == Some((ps, q))
    ensures PropsAt(b, start + p, strs, |b|, ps, |ps|) && q == p + PropsSize(ps, |ps|)
    ensures q % 4 == 0 && !IsWord(b, start + q, 3)
    decreases |ps|
  {
    hide PropAt, PropSize, Boundary, BigEndian, ReadString;
    if ps != [] {
      var x, rest := ps[0], ps[1..];
      assert ps == [x] + rest;
      PropIs(b, start, strs, p, x);
      PropsReadBack(b, start, strs, p + PropSize(x), rest, q);
      PropsAtCons(b, start + p, strs, |b|, x, rest);
      PropsSizeCons(x, rest, |rest|);
    }
  }

  lemma {:induction false} KidsSizeCons(t: Tree, ts: seq<Tree>, k: nat)
    requires k <= |ts|
    ensures KidsSize([t] + ts, k + 1) == NodeSize(t) + KidsSize(ts, k)
    decreases k
  {
    hide NodeSize;
    if k > 0 {
      KidsSizeCons(t, ts, k - 1);
    }
  }

  /** The first node and the others. */
  lemma {:induction false} KidsAtCons(b: seq<byte>, o: nat, strs: nat, lim: nat, t: Tree, ts: seq<Tree>)
    ensures KidsAt(b, o, strs, lim, [t] + ts, |ts| + 1) <==>
              NodeAt(b, o, strs, lim, t) && KidsAt(b, o + NodeSize(t), strs, lim, ts, |ts|)
  {
    hide NodeAt, NodeSize;
    var us, o1 := [t] + ts, o + NodeSize(t);
    assert KidIn(b, o, strs, lim, us, 0) == NodeAt(b, o, strs, lim, t);
    if KidsAt(b, o, strs, lim, us, |us|) {
      forall k | 0 <= k < |ts| ensures KidIn(b, o1, strs, lim, ts, k) {
        KidsSizeCons(t, ts, k);
        assert KidIn(b, o, strs, lim, us, k + 1);
      }
    }
    if NodeAt(b, o, strs, lim, t) && KidsAt(b, o1, strs, lim, ts, |ts|) {
      forall k | 0 <= k < |us| ensures KidIn(b, o, strs, lim, us, k) {
        if k > 0 {
          KidsSizeCons(t, ts, k - 1);
          assert KidIn(b, o1, strs, lim, ts, k - 1);
        }
      }
    }
  }

  /** What follows what in a stored node. */
  ghost predicate NodeParts(b: seq<byte>, start: nat, strs: nat, p: nat, t: Tree) {
    var q, r, end := p + NameSize(t.name), p + KidsOff(t), p + EndOff(t);
    && IsWord(b, start + p, 1) && ReadString(b, start + p + 4) == Some(t.name)
    && PropsAt(b, start + q, strs, |b|, t.properties, |t.properties|) && !IsWord(b, start + r, 3)
    && KidsAt(b, start + r, strs, |b|, t.children, |t.children|) && !IsWord(b, start + end, 1)
    && IsWord(b, start + end, 2)
  }

  lemma {:induction false} NodeIsParts(b: seq<byte>, start: nat, strs: nat, p: nat, t: Tree)
    ensures NodeAt(b, start + p, strs, |b|, t) <==> NodeParts(b, start, strs, p, t)
  {
    var o := start + p;
    hide IsWord, BigEndian, ReadString, CStrAt, PropsAt, KidsAt, Align4;
    WordIs(b, o, 1);
    WordIs(b, o + KidsOff(t), 3);
    WordIs(b, o + EndOff(t), 1);
    WordIs(b, o + EndOff(t), 2);
    StringIs(b, o + 4, t.name);
    if NodeAt(b, o, strs, |b|, t) {
      NameFits(b, o + 4, t.name, o + NameSize(t.name), |b|);
      PropToken(b, o, strs, |b|, t, |t.properties|);
      KidToken(b, o, strs, |b|, t, |t.children|);
    }
    if NodeParts(b, start, strs, p, t) {
      OffsetsGrow(t);
      NameFits(b, o + 4, t.name, |b|, o + NameSize(t.name));
    }
  }

  lemma {:induction false} OffsetsGrow(t: Tree)
    ensures NameSize(t.name) <= KidsOff(t) <= EndOff(t) && NodeSize(t) == EndOff(t) + 4
    ensures |t.name| + 5 <= NameSize(t.name)
  {
  }

  lemma {:induction false} NameFits(b: seq<byte>, o: nat, s: seq<byte>, l1: nat, l2: nat)
    requires CStrAt(b, o, l1, s) && o + |s| < l2 <= |b|
    ensures CStrAt(b, o, l2, s)
  {
  }

  /** Where the parts lie is on the boundaries. */
  lemma {:induction false} OffsetsAligned(p: nat, t: Tree)
    requires p % 4 == 0
    ensures Boundary(p + 4 + |t.name| + 1) == p + NameSize(t.name) && (p + NameSize(t.name)) % 4 == 0
    ensures (p + KidsOff(t)) % 4 == 0 && (p + NodeSize(t)) % 4 == 0
    ensures KidsOff(t) == NameSize(t.name) + PropsSize(t.properties, |t.properties|)
    ensures EndOff(t) == KidsOff(t) + KidsSize(t.children, |t.children|) && NodeSize(t) == EndOff(t) + 4
  {
    hide Align4, PropsSize, KidsSize, Boundary;
    BoundaryIs(p, 4, |t.name| + 1);
    PropsAligned(t.properties, |t.properties|);
    KidsAligned(t.children, |t.children|);
  }

  /** Every stored node is read, ... */
  lemma {:induction false} NodeRead(b: seq<byte>, start: nat, strs: nat, p: nat, t: Tree)
    requires p % 4 == 0 && NodeAt(b, start + p, strs, |b|, t)
    ensures ReadNode(b, start, strs, p) == Some((t, p + NodeSize(t))) && NodeSize(t) % 4 == 0
    decreases t, 0, 0
  {
    hide NodeAt, IsWord, PropsAt, KidsAt, ReadString, ReadProps, ReadNodes, Boundary;
    NodeIsParts(b, start, strs, p, t);
    OffsetsAligned(p, t);
    PropsRead(b, start, strs, p + NameSize(t.name), t.properties);
    NodesRead(b, start, strs, p + KidsOff(t), t.children);
    hide NodeParts, NameSize, KidsOff, EndOff, NodeSize;
  }

  lemma {:induction false} NodesRead(b: seq<byte>, start: nat, strs: nat, p: nat, ts: seq<Tree>)
    requires p % 4 == 0 && KidsAt(b, start + p, strs, |b|, ts, |ts|)
    requires !IsWord(b, start + p + KidsSize(ts, |ts|), 1)
    ensures ReadNodes(b, start, strs, p) == Some((ts, p + KidsSize(ts, |ts|)))
    decreases ts, 1, |ts|
  {
    hide NodeSize, ReadNode, BigEndian, KidsAt;
    if ts != [] {
      var t, rest := ts[0], ts[1..];
      assert ts == [t] + rest;
      KidsAtCons(b, start + p, strs, |b|, t, rest);
      NodeIsParts(b, start, strs, p, t);
      assert IsWord(b, start + p, 1);
      hide NodeAt, IsWord, NodeParts;
      NodeRead(b, start, strs, p, t);
      KidsSizeCons(t, rest, |rest|);
      NodesRead(b, start, strs, p + NodeSize(t), rest);
    }
  }

  /** ... and what is read is stored. */
  lemma {:induction false} NodeReadBack(b: seq<byte>, start: nat, strs: nat, p: nat, t: Tree, end: nat)
    requires p % 4 == 0 && ReadNode(b, start, strs, p) == Some((t, end))
    ensures NodeAt(b, start + p, strs, |b|, t) && end == p + NodeSize(t) && end % 4 == 0
    decreases t, 0, 0
  {
    hide NodeAt, IsWord, PropsAt, KidsAt, ReadString, ReadProps, ReadNodes, Boundary;
    var q := Boundary(p + 4 + |t.name| + 1);
    var r := ReadProps(b, start, strs, q).value.1;
    OffsetsAligned(p, t);
    PropsReadBack(b, start, strs, q, t.properties, r);
    NodesReadBack(b, start, strs, r, t.children, end - 4);
    WordIsOne(b, start + end - 4);
    NodeIsParts(b, start, strs, p, t);
  }

  /** A word is not two numbers. */
  lemma {:induction false} WordIsOne(b: seq<byte>, o: nat)
    ensures !(IsWord(b, o, 1) && IsWord(b, o, 2))
  {
  }

  lemma {:induction false} NodesReadBack(b: seq<byte>, start: nat, strs: nat, p: nat, ts: seq<Tree>, end: nat)
    requires p % 4 == 0 && ReadNodes(b, start, strs, p) == Some((ts, end))
    ensures KidsAt(b, start + p, strs, |b|, ts, |ts|) && end == p + KidsSize(ts, |ts|) && end % 4 == 0
    decreases ts, 1, |ts|
  {
    hide NodeSize, ReadNode, BigEndian;
    if ts != [] {
      var t, rest := ts[0], ts[1..];
      assert ts == [t] + rest;
      var q := ReadNode(b, start, strs, p).value.1;
      NodeReadBack(b, start, strs, p, t, q);
      NodesReadBack(b, start, strs, q, rest, end);
      KidsAtCons(b, start + p, strs, |b|, t, rest);
      KidsSizeCons(t, rest, |rest|);
    }
  }

  lemma {:induction false} MapRead(b: seq<byte>, o: nat, es: seq<ReserveEntry>)
    ensures ReadMap(b, o) == Some(es) <==> MapAt(b, o, es)
    decreases |es|
  {
    hide BigEndian, Word64;
    if o + 16 <= |b| {
      Word64Is(b, o);
      Word64Is(b, o + 8);
      if es != [] {
        MapRead(b, o + 16, es[1..]);
        assert es == [es[0]] + es[1..];
        MapAtCons(b, o, es[0], es[1..]);
      } else if MapAt(b, o, es) {
        assert Word64(b, o + 8) == 0;
      }
    }
  }

  lemma {:induction false} MapAtCons(b: seq<byte>, o: nat, e: ReserveEntry, es: seq<ReserveEntry>)
    ensures MapAt(b, o, [e] + es) <==> EntryAt(b, o, e) && MapAt(b, o + 16, es)
  {
    hide EntryAt, Word64;
    var fs := [e] + es;
    if MapAt(b, o, fs) {
      assert EntryAt(b, o + 16 * 0, fs[0]);
      forall k | 0 <= k < |es| ensures EntryAt(b, o + 16 + 16 * k, es[k]) {
        assert EntryAt(b, o + 16 * (k + 1), fs[k + 1]);
      }
    }
    if EntryAt(b, o, e) && MapAt(b, o + 16, es) {
      forall k | 0 <= k < |fs| ensures EntryAt(b, o + 16 * k, fs[k]) {
        assert k > 0 ==> EntryAt(b, o + 16 + 16 * (k - 1), es[k - 1]);
      }
    }
  }

  /** The format that reader and writer are proved against is that of the specification, for every
      byte string and every tree. */
  lemma {:induction false} BlobIsReference(b: seq<byte>, m: Blob)
    ensures IsBlob(b, m) <==> ReadBlob(b) == Some(m)
  {
    hide Word32, BigEndian, NodeAt, MapAt, ReadNode, ReadMap;
    if |b| >= 40 {
      Word32Is(b, 8);
      Word32Is(b, 12);
      Word32Is(b, 16);
      MapRead(b, Word32(b, 16), m.reserve);
      RootRead(b, Word32(b, 8), Word32(b, 12), m.root);
    }
  }

  lemma {:induction false} RootRead(b: seq<byte>, start: nat, strs: nat, t: Tree)
    ensures NodeAt(b, start, strs, |b|, t) <==>
              ReadNode(b, start, strs, 0).Some? && ReadNode(b, start, strs, 0).value.0 == t
  {
    hide NodeAt, ReadNode;
    if NodeAt(b, start, strs, |b|, t) {
      NodeRead(b, start, strs, 0, t);
    }
    var r := ReadNode(b, start, strs, 0);
    if r.Some? && r.value.0 == t {
      NodeReadBack(b, start, strs, 0, t, r.value.1);
    }
  }
}
