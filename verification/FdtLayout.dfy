/** What dt_flatten writes, in the terms of the specification. */
module FdtLayout {
  import opened Bytes
  import opened Endian
  import opened FdtFormat
  import opened FdtReference
  import opened FdtWriter
  import opened Options

  /** The names of some properties, each with its NUL. */
  function PropNames(ps: seq<Property>): seq<byte> {
    if ps == [] then [] else ps[0].name + [0] + PropNames(ps[1..])
  }

  /** The names of all properties of a tree. */
  function Names(t: Tree): seq<byte>
    decreases t, 0
  {
    PropNames(t.properties) + KidNames(t.children)
  }

  function KidNames(ts: seq<Tree>): seq<byte>
    decreases ts, 1, |ts|
  {
    if ts == [] then [] else Names(ts[0]) + KidNames(ts[1..])
  }

  lemma {:induction false} PropsStringsCons(x: Property, ps: seq<Property>, k: nat)
    requires k <= |ps|
    ensures PropsStrings([x] + ps, k + 1) == |x.name| + 1 + PropsStrings(ps, k)
    decreases k
  {
    if k > 0 {
      PropsStringsCons(x, ps, k - 1);
    }
  }

  lemma {:induction false} KidsStringsCons(t: Tree, ts: seq<Tree>, k: nat)
    requires k <= |ts|
    ensures KidsStrings([t] + ts, k + 1) == NodeStrings(t) + KidsStrings(ts, k)
    decreases k
  {
    hide NodeStrings;
    if k > 0 {
      KidsStringsCons(t, ts, k - 1);
    }
  }

  lemma {:induction false} PropNamesSize(ps: seq<Property>)
    ensures |PropNames(ps)| == PropsStrings(ps, |ps|)
  {
    if ps != [] {
      PropNamesSize(ps[1..]);
      assert ps == [ps[0]] + ps[1..];
      PropsStringsCons(ps[0], ps[1..], |ps| - 1);
    }
  }

  /** The strings block has room for every name and nothing else. */
  lemma {:induction false} NamesSize(t: Tree)
    ensures |Names(t)| == NodeStrings(t)
    decreases t, 0, 0
  {
    PropNamesSize(t.properties);
    KidNamesSize(t.children);
  }

  lemma {:induction false} KidNamesSize(ts: seq<Tree>)
    ensures |KidNames(ts)| == KidsStrings(ts, |ts|)
    decreases ts, 1, |ts|
  {
    hide NodeStrings, Names;
    if ts != [] {
      NamesSize(ts[0]);
      KidNamesSize(ts[1..]);
      assert ts == [ts[0]] + ts[1..];
      KidsStringsCons(ts[0], ts[1..], |ts| - 1);
    }
  }

  /** The header says where everything is: the reserve map behind the header, the structure block
      behind the map, FDT_END and the strings block behind it, on 4-byte boundaries, and nothing
      else.  Read as the specification says, they are the map and the tree. */
  lemma {:induction false} FlattenedReads(b: seq<byte>, src: seq<byte>, m: Blob)
    requires Flattened(b, src, m)
    ensures var structs, strs := BigEndian(b[8..12]), BigEndian(b[12..16]);
            && structs == m.headerSize + 16 * (|m.reserve| + 1) && strs == structs + BigEndian(b[36..40]) + 4 <= |b|
            && BigEndian(b[4..8]) == |b| && BigEndian(b[32..36]) == |b| - strs == |Names(m.root)|
            && (strs - structs) % 4 == 0 && IsWord(b, strs - 4, 9)
            && ReadMap(b, m.headerSize) == Some(m.reserve)
            && ReadNode(b, structs, strs, 0) == Some((m.root, strs - structs - 4))
  {
    hide Word32, BigEndian, NodeAt, MapAt, NodeSize, NodeStrings, ReadMap, ReadNode, Names, IsWord;
    Word32Is(b, 4);
    Word32Is(b, 8);
    Word32Is(b, 12);
    Word32Is(b, 32);
    Word32Is(b, 36);
    WordIs(b, StringsOff(m) - 4, 9);
    MapRead(b, m.headerSize, m.reserve);
    NodeRead(b, StructOff(m), StringsOff(m), 0, m.root);
    NamesSize(m.root);
  }
}
