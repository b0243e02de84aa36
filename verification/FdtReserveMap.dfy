/** What dt_flatten does to the reserve map of a blob: it puts the map behind the header, but copies
    the header's own reserve_map_offset. */
module FdtReserveMap {
  import opened Bytes
  import opened FdtFormat
  import opened FdtReader
  import opened FdtWriter
  import opened FdtRoundTrip

  /** A reserve map whose bytes are all ones. */
  function OnesMap(n: nat): seq<ReserveEntry> {
    seq(n, i => ReserveEntry(0x0101_0101_0101_0101, 0x0101_0101_0101_0101))
  }

  lemma {:induction false} OnesBytes(b: seq<byte>, o: nat)
    requires o + 8 <= |b| && Word64(b, o) == 0x0101_0101_0101_0101
    ensures b[o + 7] == 1
  {
  }

  lemma {:induction false} ZeroBytes(b: seq<byte>, o: nat, i: nat)
    requires o + 8 <= |b| && Word64(b, o) == 0 && i < 8
    ensures b[o + i] == 0
  {
    assert Word32(b, o) == 0 && Word32(b, o + 4) == 0;
  }

  lemma {:induction false} MovedMapLost(b: seq<byte>, hs: nat, rs: nat, n: nat)
    requires hs < rs && n == (rs - hs) / 16 + 2
    requires MapAt(b, hs, OnesMap(n)) && Word64(b, hs + 16 * n) == 0
    ensures !MapAt(b, rs, OnesMap(n))
  {
    if MapAt(b, rs, OnesMap(n)) {
      var k := if (rs - hs) % 16 == 0 then 2 else 1;
      assert EntryAt(b, rs + 16 * k, OnesMap(n)[k]);
      var last := rs + 16 * k + 15;
      OnesBytes(b, last - 7);
      var z := last - (hs + 16 * n);
      if z < 8 {
        ZeroBytes(b, hs + 16 * n, z);
      } else {
        ZeroBytes(b, hs + 16 * n + 8, z - 8);
      }
      assert false;
    }
  }

  /** dt_flatten puts the map behind the header but keeps the header's own reserve_map_offset:
      the map is found again, for every tree, exactly when the offset says that it follows the
      header; otherwise the map of the given number of all-ones entries is lost, with any root. */
  lemma {:induction false} MapFoundAgain(b: seq<byte>, src: seq<byte>, m: Blob)
    requires Flattened(b, src, m)
    requires m.headerSize <= Word32(src, 16)
    ensures Word32(src, 16) == m.headerSize ==> MapAt(b, Word32(b, 16), m.reserve)
    ensures Word32(src, 16) != m.headerSize && m.reserve == OnesMap((Word32(src, 16) - m.headerSize) / 16 + 2) ==>
              !MapAt(b, Word32(b, 16), m.reserve)
  {
    WordFrame(src, b, 16);
    var n := (Word32(src, 16) - m.headerSize) / 16 + 2;
    if Word32(src, 16) != m.headerSize && m.reserve == OnesMap(n) {
      MovedMapLost(b, m.headerSize, Word32(src, 16), n);
    }
  }

  // ---- a source blob whose map is lost -------------------------------------------------------

  /** b with the four bytes at o replaced by a word. */
  function Put(b: seq<byte>, o: nat, w: uint32): (r: seq<byte>)
    requires o + 4 <= |b|
    ensures |r| == |b| && Same(Be32(w), r[o..], 0, 4)
    ensures forall i :: 0 <= i < |b| && !(o <= i < o + 4) ==> r[i] == b[i]
  {
    var r := b[..o] + Be32(w) + b[o + 4..];
    assert forall k :: 0 <= k < 4 ==> r[o..][k] == Be32(w)[k];
    r
  }

  datatype Word = Word(at: nat, value: uint32)

  /** The words fit into len bytes and do not overlap. */
  ghost predicate Apart(ws: seq<Word>, len: nat) {
    && (forall i :: 0 <= i < |ws| ==> ws[i].at + 4 <= len)
    && forall i, j :: 0 <= i < j < |ws| ==> ws[i].at + 4 <= ws[j].at || ws[j].at + 4 <= ws[i].at
  }

  function Patch(b: seq<byte>, ws: seq<Word>): (r: seq<byte>)
    requires forall i :: 0 <= i < |ws| ==> ws[i].at + 4 <= |b|
    ensures |r| == |b|
  {
    if ws == [] then b else Put(Patch(b, ws[..|ws| - 1]), ws[|ws| - 1].at, ws[|ws| - 1].value)
  }

  lemma {:induction false} ApartFront(ws: seq<Word>, len: nat)
    requires Apart(ws, len) && ws != []
    ensures Apart(ws[..|ws| - 1], len)
  {
  }

  /** What lies elsewhere stays. */
  lemma {:induction false} PutElsewhere(b: seq<byte>, x: Word, o: nat)
    requires x.at + 4 <= |b| && o + 4 <= |b| && (o + 4 <= x.at || x.at + 4 <= o)
    ensures forall k :: 0 <= k < 4 ==> Put(b, x.at, x.value)[o..][k] == b[o..][k]
  {
    var r := Put(b, x.at, x.value);
    assert forall k :: 0 <= k < 4 ==> r[o..][k] == r[o + k] == b[o + k] == b[o..][k];
  }

  lemma {:induction false} PatchWord(b: seq<byte>, ws: seq<Word>, i: nat)
    requires Apart(ws, |b|) && i < |ws|
    ensures Same(Be32(ws[i].value), Patch(b, ws)[ws[i].at..], 0, 4)
    decreases |ws|
  {
    hide Be32;
    var n := |ws| - 1;
    var a := Patch(b, ws[..n]);
    assert Patch(b, ws) == Put(a, ws[n].at, ws[n].value);
    if i < n {
      ApartFront(ws, |b|);
      PutElsewhere(a, ws[n], ws[i].at);
      hide Apart, Patch, Put;
      PatchWord(b, ws[..n], i);
    }
  }

  /** The word that was put is there. */
  lemma {:induction false} PatchedWord(b: seq<byte>, ws: seq<Word>, i: nat)
    requires Apart(ws, |b|) && i < |ws|
    ensures Word32(Patch(b, ws), ws[i].at) == ws[i].value
  {
    hide Patch, Be32;
    var r, o := Patch(b, ws), ws[i].at;
    PatchWord(b, ws, i);
    WordFrame(Be32(ws[i].value), r[o..], 0);
    WordOfTail(r, o);
  }

  lemma {:induction false} WordOfTail(b: seq<byte>, o: nat)
    requires o + 4 <= |b|
    ensures Word32(b, o) == Word32(b[o..], 0)
  {
  }

  lemma {:induction false} PatchOther(b: seq<byte>, ws: seq<Word>, k: nat)
    requires Apart(ws, |b|) && k < |b| && forall i :: 0 <= i < |ws| ==> k < ws[i].at || ws[i].at + 4 <= k
    ensures Patch(b, ws)[k] == b[k]
    decreases |ws|
  {
    if ws != [] {
      PatchOther(b, ws[..|ws| - 1], k);
    }
  }

  /** Ones from a to b, zeros elsewhere. */
  function Ones(len: nat, a: nat, b: nat): (r: seq<byte>)
    ensures |r| == len && forall i :: 0 <= i < len ==> r[i] == if a <= i < b then 1 else 0
  {
    seq<byte>(len, (i: nat) => if a <= i < b then 1 else 0)
  }

  /** A root without a name, properties and children: three words. */
  const ROOT := Tree([], [], [])

  /** How many entries of ones reach past the map's own end when they are read rs - hs too late. */
  function Entries(hs: nat, rs: nat): nat
    requires hs <= rs
  {
    (rs - hs) / 16 + 2
  }

  function Lost(hs: nat, rs: nat): Blob
    requires hs <= rs
  {
    Blob(hs, OnesMap(Entries(hs, rs)), ROOT)
  }

  /** Where the source's root lies: between header and map if there is room, otherwise behind. */
  function RootAt(hs: nat, rs: nat): nat
    requires hs <= rs
  {
    if rs - hs >= 12 then hs else rs + 16 * (Entries(hs, rs) + 1)
  }

  function SourceWords(hs: nat, rs: nat): seq<Word>
    requires 40 <= hs <= rs && rs + 64 < 0x1_0000_0000
  {
    var root := RootAt(hs, rs);
    [Word(8, root), Word(12, hs), Word(16, rs), Word(root, TOKEN_BEGIN_NODE), Word(root + 8, TOKEN_END_NODE)]
  }

  /** A blob with a header of hs bytes and its map at rs. */
  function Source(hs: nat, rs: nat): (b: seq<byte>)
    requires 40 <= hs <= rs && rs + 64 < 0x1_0000_0000
  {
    var n := Entries(hs, rs);
    Patch(Ones(rs + 16 * (n + 1) + 12, rs, rs + 16 * n), SourceWords(hs, rs))
  }

  /** A map of ones, with zeros behind it. */
  lemma {:induction false} OnesAt(b: seq<byte>, o: nat, n: nat)
    requires o + 16 * (n + 1) <= |b|
    requires forall i :: o <= i < o + 16 * n ==> b[i] == 1
    requires forall i :: o + 16 * n <= i < o + 16 * (n + 1) ==> b[i] == 0
    ensures MapAt(b, o, OnesMap(n)) && Word64(b, o + 16 * n) == 0
  {
    forall k | 0 <= k < n ensures EntryAt(b, o + 16 * k, OnesMap(n)[k]) {
      assert Word32(b, o + 16 * k) == Word32(b, o + 16 * k + 4) == 0x0101_0101;
      assert Word32(b, o + 16 * k + 8) == Word32(b, o + 16 * k + 12) == 0x0101_0101;
    }
  }

  lemma {:induction false} RootStored(b: seq<byte>, o: nat, strs: nat, lim: nat)
    requires o + 12 <= |b|
    requires Word32(b, o) == TOKEN_BEGIN_NODE && b[o + 4] == 0 && Word32(b, o + 8) == TOKEN_END_NODE
    ensures NodeAt(b, o, strs, lim, ROOT) && NodeSize(ROOT) == 12 && NodeStrings(ROOT) == 0
  {
    assert KidsOff(ROOT) == 8;
  }

  lemma {:induction false} SourceApart(hs: nat, rs: nat)
    requires 40 <= hs <= rs && rs + 64 < 0x1_0000_0000
    ensures Apart(SourceWords(hs, rs), rs + 16 * (Entries(hs, rs) + 1) + 12)
  {
  }

  lemma {:induction false} SourceIs(hs: nat, rs: nat)
    requires 40 <= hs <= rs && rs + 64 < 0x1_0000_0000
    ensures var b, root, n := Source(hs, rs), RootAt(hs, rs), Entries(hs, rs);
            && Word32(b, 8) == root && Word32(b, 12) == hs && Word32(b, 16) == rs && Same(Be32(rs), b[16..], 0, 4)
            && Word32(b, root) == TOKEN_BEGIN_NODE && b[root + 4] == 0 && Word32(b, root + 8) == TOKEN_END_NODE
            && forall i :: 0 <= i < |b| && !(8 <= i < 20) && !(root <= i < root + 12) ==>
                             b[i] == if rs <= i < rs + 16 * n then 1 else 0
  {
    hide Word32, Be32;
    var b, ws, n, root := Source(hs, rs), SourceWords(hs, rs), Entries(hs, rs), RootAt(hs, rs);
    var a := Ones(|b|, rs, rs + 16 * n);
    SourceApart(hs, rs);
    hide Apart;
    PatchWord(a, ws, 2);
    PatchedWord(a, ws, 0);
    PatchedWord(a, ws, 1);
    PatchedWord(a, ws, 2);
    PatchedWord(a, ws, 3);
    PatchedWord(a, ws, 4);
    hide Patch, Ones;
    forall i | 0 <= i < |b| && !(8 <= i < 20) && !(root <= i < root + 12) ensures b[i] == a[i] {
      PatchOther(a, ws, i);
    }
    PatchOther(a, ws, root + 4);
  }

  lemma {:induction false} SourceIsBlob(hs: nat, rs: nat)
    requires 40 <= hs <= rs && rs + 64 < 0x1_0000_0000
    ensures IsBlob(Source(hs, rs), Lost(hs, rs)) && Word32(Source(hs, rs), 16) == rs
  {
    var b := Source(hs, rs);
    SourceIs(hs, rs);
    hide Word32, NodeAt, MapAt, Source, Be32;
    OnesAt(b, rs, Entries(hs, rs));
    RootStored(b, RootAt(hs, rs), hs, |b|);
  }

  // ---- what flattening makes of it -----------------------------------------------------------

  function FlatWords(hs: nat, rs: nat): seq<Word>
    requires 40 <= hs <= rs && rs + 64 < 0x1_0000_0000
  {
    var so := hs + 16 * (Entries(hs, rs) + 1);
    [Word(4, so + 16), Word(8, so), Word(12, so + 16), Word(16, rs), Word(36, 12),
     Word(so, TOKEN_BEGIN_NODE), Word(so + 8, TOKEN_END_NODE), Word(so + 12, TOKEN_END)]
  }

  function Flat(hs: nat, rs: nat): seq<byte>
    requires 40 <= hs <= rs && rs + 64 < 0x1_0000_0000
  {
    var n := Entries(hs, rs);
    Patch(Ones(hs + 16 * (n + 1) + 16, hs, hs + 16 * n), FlatWords(hs, rs))
  }

  lemma {:induction false} FlatApart(hs: nat, rs: nat)
    requires 40 <= hs <= rs && rs + 64 < 0x1_0000_0000
    ensures Apart(FlatWords(hs, rs), hs + 16 * (Entries(hs, rs) + 1) + 16)
  {
  }

  lemma {:induction false} FlatIs(hs: nat, rs: nat)
    requires 40 <= hs <= rs && rs + 64 < 0x1_0000_0000
    ensures var b, n := Flat(hs, rs), Entries(hs, rs);
            var so := hs + 16 * (n + 1);
            && Word32(b, 4) == so + 16 && Word32(b, 8) == so && Word32(b, 12) == so + 16
            && Word32(b, 16) == rs && Same(Be32(rs), b[16..], 0, 4)
            && Word32(b, 36) == 12 && Word32(b, so) == TOKEN_BEGIN_NODE && b[so + 4] == 0
            && Word32(b, so + 8) == TOKEN_END_NODE && Word32(b, so + 12) == TOKEN_END
            && forall i :: 0 <= i < so && !(4 <= i < 20) && !(36 <= i < 40) ==>
                             b[i] == if hs <= i < hs + 16 * n then 1 else 0
  {
    hide Word32, Be32;
    var b, ws, n := Flat(hs, rs), FlatWords(hs, rs), Entries(hs, rs);
    var so, a := hs + 16 * (n + 1), Ones(|b|, hs, hs + 16 * n);
    FlatApart(hs, rs);
    hide Apart;
    PatchWord(a, ws, 3);
    PatchedWord(a, ws, 0);
    PatchedWord(a, ws, 1);
    PatchedWord(a, ws, 2);
    PatchedWord(a, ws, 3);
    PatchedWord(a, ws, 4);
    PatchedWord(a, ws, 5);
    PatchedWord(a, ws, 6);
    PatchedWord(a, ws, 7);
    hide Patch, Ones;
    forall i | 0 <= i < so && !(4 <= i < 20) && !(36 <= i < 40) ensures b[i] == a[i] {
      PatchOther(a, ws, i);
    }
    PatchOther(a, ws, so + 4);
  }

  lemma {:induction false} HeaderKept(hs: nat, rs: nat)
    requires 40 <= hs <= rs && rs + 64 < 0x1_0000_0000
    ensures forall i :: 0 <= i < hs && !Patched(i) ==> Flat(hs, rs)[i] == Source(hs, rs)[i]
  {
    var b, src := Flat(hs, rs), Source(hs, rs);
    FlatIs(hs, rs);
    SourceIs(hs, rs);
    hide Word32, Source, Flat, Be32;
    forall i | 16 <= i < 20 ensures b[i] == src[i] {
      assert b[i] == b[16..][i - 16] && src[i] == src[16..][i - 16];
    }
  }

  lemma {:induction false} LostSizes(hs: nat, rs: nat)
    requires 40 <= hs <= rs && rs + 64 < 0x1_0000_0000
    ensures var m, so := Lost(hs, rs), hs + 16 * (Entries(hs, rs) + 1);
            && NodeSize(m.root) == 12 && NodeStrings(m.root) == 0
            && StructOff(m) == so && StringsOff(m) == so + 16 == FlatSize(m)
  {
  }

  lemma {:induction false} FlatIsFlattened(hs: nat, rs: nat)
    requires 40 <= hs <= rs && rs + 64 < 0x1_0000_0000
    ensures Flattened(Flat(hs, rs), Source(hs, rs), Lost(hs, rs)) && Word32(Flat(hs, rs), 16) == rs
  {
    var b, n := Flat(hs, rs), Entries(hs, rs);
    var so := hs + 16 * (n + 1);
    FlatIs(hs, rs);
    HeaderKept(hs, rs);
    LostSizes(hs, rs);
    hide Word32, NodeAt, MapAt, Source, Flat, Be32, Patched;
    hide NodeSize, NodeStrings, StructOff, StringsOff, FlatSize, Entries;
    OnesAt(b, hs, n);
    RootStored(b, so, so + 16, |b|);
    ZeroWord(b, 32);
  }

  lemma {:induction false} ZeroWord(b: seq<byte>, o: nat)
    requires o + 4 <= |b| && forall i :: o <= i < o + 4 ==> b[i] == 0
    ensures Word32(b, o) == 0
  {
  }

  lemma {:induction false} FlatLost(hs: nat, rs: nat)
    requires 40 <= hs < rs && rs + 64 < 0x1_0000_0000
    ensures Flattened(Flat(hs, rs), Source(hs, rs), Lost(hs, rs)) && !IsBlob(Flat(hs, rs), Lost(hs, rs))
  {
    hide Flat, Source, Word32, NodeAt;
    FlatIsFlattened(hs, rs);
    MovedMapLost(Flat(hs, rs), hs, rs, Entries(hs, rs));
  }

  /** src means m, its header has hs bytes, and it says that the map is at rs. */
  ghost predicate MapIsAt(src: seq<byte>, m: Blob, hs: nat, rs: nat) {
    IsBlob(src, m) && m.headerSize == hs && Word32(src, 16) == rs
  }

  /** What dt_flatten makes of a blob with a header of hs bytes and its map at rs is a blob that means
      the same, for every such blob, exactly when the map follows the header. */
  lemma {:induction false} MapSurvives(hs: nat, rs: nat)
    requires 40 <= hs <= rs && rs + 64 < 0x1_0000_0000
    ensures (forall src, m, b :: MapIsAt(src, m, hs, rs) && Flattened(b, src, m) ==> IsBlob(b, m)) <==> rs == hs
  {
    hide IsBlob, Flattened, Source, Flat, Word32;
    if hs < rs {
      SourceIsBlob(hs, rs);
      FlatLost(hs, rs);
      assert MapIsAt(Source(hs, rs), Lost(hs, rs), hs, rs);
    } else {
      forall src, m, b | MapIsAt(src, m, hs, rs) && Flattened(b, src, m) ensures IsBlob(b, m) {
        FlattenedIsBlob(b, src, m);
      }
    }
  }

  /** What the code asks of the source before it loses the map. */
  lemma {:induction false} SourceReady(hs: nat, rs: nat)
    requires 40 <= hs <= rs && rs + 64 < 0x1_0000_0000
    ensures var src, m := Source(hs, rs), Lost(hs, rs);
            && IsBlob(src, m) && GoodBlob(m) && FlatSize(m) < 0x1_0000_0000
            && m.headerSize <= |src| && Word32(src, 16) == rs
  {
    hide Source, Flat, Word32, NodeAt, MapAt;
    SourceIsBlob(hs, rs);
    BlobGood(Source(hs, rs), Lost(hs, rs));
    FlatIsFlattened(hs, rs);
  }

  /** The code at work on such a blob: read and flattened again, it has lost its meaning. */
  method LoseMap(hs: nat, rs: nat) returns (src: seq<byte>, dest: array<byte>)
    requires 40 <= hs < rs && rs + 64 < 0x1_0000_0000
    ensures IsBlob(src, Lost(hs, rs)) && Flattened(dest[..], src, Lost(hs, rs)) && !IsBlob(dest[..], Lost(hs, rs))
  {
    hide Source, Word32, NodeAt, MapAt, FlatSize, Flattened, NulFree;
    ghost var m := Lost(hs, rs);
    src := Source(hs, rs);
    SourceReady(hs, rs);
    var tree := Unflatten(src, m);
    var size := DtFlatSize(tree, src, m);
    dest := new byte[size];
    DtFlatten(tree, src, m, dest);
    assert dest[..size] == dest[..];
    MapFoundAgain(dest[..], src, m);
  }
}
