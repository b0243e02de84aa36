/** What flattening and unflattening promise together. */
module FdtRoundTrip {
  import opened Bytes
  import opened FdtFormat
  import opened FdtReader
  import opened FdtWriter

  /** Whatever a blob means can be flattened. */
  lemma {:induction false} BlobGood(b: seq<byte>, m: Blob)
    requires IsBlob(b, m)
    ensures GoodBlob(m)
  {
    StoredNulFree(b, Word32(b, 8), Word32(b, 12), |b|, m.root);
    forall e | e in m.reserve
      ensures e.start < 0x1_0000_0000_0000_0000 && 0 < e.size < 0x1_0000_0000_0000_0000
    {
      var k :| 0 <= k < |m.reserve| && m.reserve[k] == e;
      assert EntryAt(b, Word32(b, 16) + 16 * k, m.reserve[k]);
    }
  }

  /** A flattened tree is a blob that means this tree, provided the header it was given says that
      the reserve map follows the header. */
  lemma {:induction false} FlattenedIsBlob(b: seq<byte>, src: seq<byte>, m: Blob)
    requires Flattened(b, src, m)
    requires Word32(src, 16) == m.headerSize
    ensures IsBlob(b, m)
  {
    WordFrame(src, b, 16);
  }

  /** The whole codec: what is read back from the flattened tree is the tree, for every tree
      and for any earlier contents of the destination. */
  method FlattenUnflatten(tree: DeviceTree, ghost src: seq<byte>, ghost m: Blob, dest: array<byte>)
    returns (again: DeviceTree)
    requires TreeIs(tree, src, m) && GoodBlob(m)
    requires 40 <= m.headerSize <= |src| && Word32(src, 16) == m.headerSize
    requires FlatSize(m) == dest.Length < 0x1_0000_0000
    modifies dest
    ensures TreeIs(again, dest[..], m)
  {
    DtFlatten(tree, src, m, dest);
    assert dest[..FlatSize(m)] == dest[..];
    FlattenedIsBlob(dest[..], src, m);
    again := Unflatten(dest[..], m);
  }
}
