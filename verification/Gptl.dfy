/** Finding the GPTL partition of a disk and loading from it: src/gptl.c and src/gpt.c
    (UEFI Specification, section 5.3). */
module Gptl {
  import opened Bytes
  import opened SdCard
  import opened BlockRead
  import opened Endian
  import opened GptDisk
  import opened GptlImage
  import opened Options

  const GPTL_GUID: seq<byte> := [0x4c, 0x54, 0x50, 0x47, 0, 0, 0, 0, 0, 0, 0x52, 0x49, 0x53, 0x43, 0x2d, 0x56]
  /** sizeof(struct protective_mbr), sizeof(struct gpt_header), sizeof(struct gpt_partition_entry) */
  const MBR_SIZE := 512
  const GPT_HEADER_SIZE := 92
  const ENTRY_SIZE := 128

  // ---- what the loader reads from the structures ---------------------------------------------

  /** A native load of 32 bits on the little-endian machine. */
  function Le32(b: seq<byte>, o: nat): (w: nat)
    requires o + 4 <= |b|
    ensures w < 0x1_0000_0000 && w == LittleEndian(b[o..o + 4])
  {
    LittleEndianFour(b[o], b[o + 1], b[o + 2], b[o + 3], []);
    assert b[o..o + 4] == [b[o], b[o + 1], b[o + 2], b[o + 3]] + [];
    (b[o] as int) + (b[o+1] as int) * 0x100 + (b[o+2] as int) * 0x1_0000 + (b[o+3] as int) * 0x100_0000
  }

  /** A native load of 64 bits. */
  function Le64(b: seq<byte>, o: nat): (w: nat)
    requires o + 8 <= |b|
    ensures w == LittleEndian(b[o..o + 8])
  {
    LittleEndianFour(b[o], b[o + 1], b[o + 2], b[o + 3], b[o + 4..o + 8]);
    LittleEndianFour(b[o], b[o + 1], b[o + 2], b[o + 3], []);
    assert b[o..o + 8] == [b[o], b[o + 1], b[o + 2], b[o + 3]] + b[o + 4..o + 8];
    assert b[o..o + 4] == [b[o], b[o + 1], b[o + 2], b[o + 3]] + [];
    Le32(b, o) + Le32(b, o + 4) * 0x1_0000_0000
  }

  /** is_gpt_mbr: the first partition type is 0xee, the others are 0. */
  predicate IsGptMbr(mbr: seq<byte>)
    requires |mbr| == MBR_SIZE
    ensures IsGptMbr(mbr) <==> IsProtective(mbr)
  {
    mbr[450] == 0xee && mbr[466] == 0 && mbr[482] == 0 && mbr[498] == 0
  }

  /** gpt_partitions_num: the count as a C int. */
  function PartitionsNum(gptHeader: seq<byte>): int
    requires |gptHeader| == GPT_HEADER_SIZE
  {
    var n := Le32(gptHeader, 80);
    if n < 0x8000_0000 then n else n - 0x1_0000_0000
  }

  /** The offset of entry i of the partition array, as search_gptl computes it. */
  function EntryOff(gptHeader: seq<byte>, i: nat): nat
    requires |gptHeader| == GPT_HEADER_SIZE
  {
    Le64(gptHeader, 72) * BLOCK + i * ENTRY_SIZE
  }

  /** gpt_partition_offset(entry, 0) in bytes. */
  function PartStart(entry: seq<byte>): (o: nat)
    requires |entry| == ENTRY_SIZE
    ensures o == StartOf(entry)
  {
    var first, last := Le64(entry, 32), Le64(entry, 40);
    BLOCK * if first > last then last else first
  }

  /** compare_guid with the GPTL type. */
  predicate IsGptlEntry(e: seq<byte>)
    requires |e| == ENTRY_SIZE
    ensures IsGptlEntry(e) <==> IsGptl(e)
  {
    e[..16] == GPTL_GUID
  }

  function GptHeaderOf(disk: seq<byte>): (h: seq<byte>)
    requires 604 <= |disk|
    ensures |h| == GPT_HEADER_SIZE
  {
    disk[512..604]
  }

  /** A partition starts at its first block; if its last block comes before that, the loader takes the
      last one for the start. */
  lemma {:induction false} PartitionStart(entry: seq<byte>)
    requires |entry| == ENTRY_SIZE
    ensures var first, last := LittleEndian(entry[32..40]), LittleEndian(entry[40..48]);
            PartStart(entry) == if first <= last then 512 * first else 512 * last
  {
  }

  /** What the loader makes of the GPT header of a disk is what the disk says. */
  lemma {:induction false} GptHeaderSays(disk: seq<byte>, i: nat)
    requires 604 <= |disk|
    ensures PartitionsNum(GptHeaderOf(disk)) == Count(disk)
    ensures EntryOff(GptHeaderOf(disk), i) == EntryPos(disk, i)
  {
    var h := GptHeaderOf(disk);
    assert h[80..84] == disk[592..596] && h[72..80] == disk[584..592];
    hide LittleEndian;
  }

  // ---- what a partition says -----------------------------------------------------------------

  /** The bytes of a partition from its start to the end of the disk. */
  function PartBytes(disk: seq<byte>, entry: seq<byte>): seq<byte>
    requires |entry| == ENTRY_SIZE && StartOf(entry) <= |disk|
  {
    disk[StartOf(entry)..]
  }

  /** The offset and the size of part k, as the header at the start of p has them. */
  function PartOffset(p: seq<byte>, k: nat): nat
    requires 48 <= |p| && k < 4
  {
    BigEndian(p[16 + 8 * k..20 + 8 * k])
  }

  function PartLength(p: seq<byte>, k: nat): nat
    requires 48 <= |p| && k < 4
  {
    BigEndian(p[20 + 8 * k..24 + 8 * k])
  }

  /** gptl_header_get_field on a copy of the header. */
  lemma {:induction false} FieldIs(h: seq<byte>, p: seq<byte>, o: nat)
    requires |h| == 48 <= |p| && h == p[..48] && o + 4 <= 48
    ensures Word32(h, o) == BigEndian(p[o..o + 4]) == BigEndian(h[o..o + 4])
  {
    Word32Is(h, o);
    assert h[o..o + 4] == p[o..o + 4];
  }

  /** The partition of an entry has room for a GPTL header and, if the header passes the checks, for
      the command line it announces. */
  ghost predicate HasHeader(disk: seq<byte>, entry: seq<byte>)
    requires |entry| == ENTRY_SIZE
  {
    && StartOf(entry) + 48 <= |disk|
    && (Verdict(PartBytes(disk, entry)) == Found ==>
          StartOf(entry) + BigEndian(PartBytes(disk, entry)[8..12]) <= |disk|)
  }

  // ---- the loader ----------------------------------------------------------------------------

  /** How search_gptl ends: returning NULL, aborting, or returning the header.  It is Undefined when
      the MBR or the GPT header cannot be read: the source then looks at uninitialised memory. */
  datatype Search = NotFound | Corrupt | Unsupported | Found | Undefined

  /** Every entry can be read, and every GPTL entry has room for what its header announces. */
  ghost predicate WellFormed(disk: seq<byte>) {
    && 604 <= |disk|
    && forall j :: 0 <= j < Count(disk) ==>
                     HasEntry(disk, j) && (IsGptl(EntryOf(disk, j)) ==> HasHeader(disk, EntryOf(disk, j)))
  }

  /** What the search needs of a disk with a GPT: all of it well formed, or, when no read fails, what
      is read up to the first GPTL entry i. */
  ghost predicate Searchable(card: Card, disk: seq<byte>, i: nat) {
    || WellFormed(disk)
    || (Reliable(card, disk) && (NoGptl(disk) || (FirstGptl(disk, i) && HasHeader(disk, EntryOf(disk, i)))))
  }

  /** Entry k has the GPTL type and room for what its header announces. */
  ghost predicate IsGptlAt(disk: seq<byte>, k: nat) {
    && 604 <= |disk| && k < Count(disk) && HasEntry(disk, k)
    && IsGptl(EntryOf(disk, k)) && HasHeader(disk, EntryOf(disk, k))
  }

  /** The statics of src/gptl.c. */
  class Loader {
    const spi: Spi
    const entry: array<byte>
    const header: array<byte>
    var bootargs: Option<seq<byte>>

    ghost predicate Valid()
      reads this
    {
      entry.Length == ENTRY_SIZE && header.Length == HEADER && entry != header
    }

    constructor (spi: Spi)
      ensures Valid() && Unset() && this.spi == spi && fresh(entry) && fresh(header) && bootargs == None
    {
      this.spi := spi;
      entry := new byte[ENTRY_SIZE](i => 0);
      header := new byte[HEADER](i => 0);
      bootargs := None;
      new;
      assert entry[..][..16][0] == 0;
    }

    /** No search has found anything yet: the statics are no GPTL entry and no good header. */
    ghost predicate Unset()
      requires Valid()
      reads this, entry, header
    {
      !IsGptl(entry[..]) && Verdict(header[..]) != Found
    }

    /** The loader has found the partition of entry e. */
    ghost predicate At(disk: seq<byte>, e: seq<byte>)
      reads this, entry, header
    {
      && Valid() && |e| == ENTRY_SIZE && HasHeader(disk, e)
      && entry[..] == e
      && header[..] == PartBytes(disk, e)[..HEADER]
    }

    /** gptl_read: bytes of the partition, or NULL. */
    method ReadPartition(offset: nat, size: nat, buff: array<byte>, ghost disk: seq<byte>) returns (ok: bool)
      requires Valid() && buff != entry && size > 0 && size <= buff.Length
      requires IsDisk(disk) && Faithful(spi.card, disk)
      requires StartOf(entry[..]) + offset + size <= |disk|
      modifies spi, buff
      ensures ok ==> buff[..size] == PartBytes(disk, entry[..])[offset..offset + size]
      ensures Reliable(spi.card, disk) ==> ok
      ensures forall i :: size <= i < buff.Length ==> buff[i] == old(buff[i])
      ensures !ok && offset + size <= BLOCK ==> buff[..] == old(buff[..])
    {
      hide Faithful, Reliable, PartStart, StartOf, Covered, Tiles, SendsAll;
      StartAligned(entry[..]);
      ghost var e := entry[..];
      var start := PartStart(entry[..]);
      var done, _ := Read(spi, start + offset, size, buff, disk);
      ok := done;
      assert entry[..] == e;
      if ok {
        SliceOfSlice(disk, start, |disk|, offset, offset + size);
      }
    }

    /** Reads entry i of the partition array into the static, which stays as it is if that fails. */
    method ReadEntry(gptHeader: array<byte>, i: nat, ghost disk: seq<byte>) returns (ok: bool)
      requires Valid() && gptHeader != entry && gptHeader.Length == GPT_HEADER_SIZE
      requires IsDisk(disk) && Faithful(spi.card, disk)
      requires 604 <= |disk| && gptHeader[..] == GptHeaderOf(disk) && HasEntry(disk, i)
      modifies spi, entry
      ensures entry[..] == if ok then EntryOf(disk, i) else old(entry[..])
      ensures Reliable(spi.card, disk) ==> ok
    {
      hide Faithful, Reliable, EntryOff, EntryPos, LittleEndian, Covered, Tiles, SendsAll, PartitionsNum, Count;
      GptHeaderSays(disk, i);
      EntryInBlock(disk, i);
      var offset := EntryOff(gptHeader[..], i);
      var done, _ := Read(spi, offset, ENTRY_SIZE, entry, disk);
      ok := done;
      assert entry[..] == entry[..ENTRY_SIZE];
    }

    /** What search_gptl does with a GPTL entry: reads the header, checks it, and reads the command
        line if there is one.  Whatever fails, a header that was not read is never taken for one. */
    method ReadHeader(ghost disk: seq<byte>) returns (r: Search)
      requires Valid() && HasHeader(disk, entry[..]) && Verdict(header[..]) != Found
      requires IsDisk(disk) && Faithful(spi.card, disk)
      modifies this, spi, header
      ensures r == Found ==> At(disk, entry[..]) && Verdict(PartBytes(disk, entry[..])) == Found
      ensures r == Found ==> bootargs == CommandLine(PartBytes(disk, entry[..])) || bootargs == None
      ensures Reliable(spi.card, disk) ==>
                && At(disk, entry[..]) && r == Verdict(PartBytes(disk, entry[..]))
                && (r == Found ==> bootargs == CommandLine(PartBytes(disk, entry[..])))
    {
      hide Word32, Faithful, Reliable, BigEndian, StartOf;
      ghost var p := PartBytes(disk, entry[..]);
      var ok := ReadPartition(0, HEADER, header, disk);
      assert header[..HEADER] == header[..];
      if ok {
        VerdictFrame(header[..], p);
      }
      FieldIs(header[..], header[..], 0);
      FieldIs(header[..], header[..], 4);
      FieldIs(header[..], header[..], 8);
      var magic, version, headerSize := Word32(header[..], 0), Word32(header[..], 4), Word32(header[..], 8);
      if magic != MAGIC || headerSize < HEADER {
        return Corrupt;
      }
      if version > 0 {
        return Unsupported;
      }
      bootargs := None;
      if headerSize > HEADER {
        var size := headerSize - HEADER;
        var args := new byte[size];
        ok := ReadPartition(HEADER, size, args, disk);
        assert args[..] == args[..size];
        bootargs := if ok then Some(args[..]) else None;
      }
      r := Found;
    }

    /** search_gptl, with any reads failing: what it finds is always a GPTL entry of the disk with its
        good header.  When no read fails, it finds the first one, if there is one. */
    method SearchGptl(ghost disk: seq<byte>, ghost i: nat) returns (r: Search, ghost k: nat)
      requires Valid() && Unset() && IsDisk(disk) && Faithful(spi.card, disk)
      requires 604 <= |disk|
      requires IsProtective(disk[..512]) ==> Searchable(spi.card, disk, i)
      modifies this, spi, entry, header
      ensures Valid()
      ensures r == Found ==>
                && IsGptlAt(disk, k) && At(disk, EntryOf(disk, k))
                && Verdict(PartBytes(disk, EntryOf(disk, k))) == Found
                && (bootargs == CommandLine(PartBytes(disk, EntryOf(disk, k))) || bootargs == None)
      ensures Reliable(spi.card, disk) && (!IsProtective(disk[..512]) || NoGptl(disk)) ==>
                r == NotFound && bootargs == old(bootargs) && header[..] == old(header[..])
      ensures Reliable(spi.card, disk) && IsProtective(disk[..512]) && FirstGptl(disk, i) ==>
                var p := PartBytes(disk, EntryOf(disk, i));
                k == i && At(disk, EntryOf(disk, i)) && r == Verdict(p) && (r == Found ==> bootargs == CommandLine(p))
    {
      hide Faithful, Reliable, HasHeader, Verdict, Searchable, IsGptlAt, IsGptl, StartOf, Count, LittleEndian;
      k := 0;
      var mbr := new byte[MBR_SIZE];
      var ok, _ := Read(spi, 0, MBR_SIZE, mbr, disk);
      if !ok {
        return Undefined, 0;
      }
      assert mbr[..] == mbr[..MBR_SIZE];
      if !IsGptMbr(mbr[..]) {
        return NotFound, 0;
      }
      var gptHeader := new byte[GPT_HEADER_SIZE];
      var ok2, _ := Read(spi, BLOCK, GPT_HEADER_SIZE, gptHeader, disk);
      if !ok2 {
        return Undefined, 0;
      }
      assert gptHeader[..] == gptHeader[..GPT_HEADER_SIZE];
      r, k := SearchEntries(gptHeader, disk, i);
    }

    /** The loop of search_gptl over the entries. */
    method SearchEntries(gptHeader: array<byte>, ghost disk: seq<byte>, ghost i: nat) returns (r: Search, ghost k: nat)
      requires Valid() && Unset() && IsDisk(disk) && Faithful(spi.card, disk)
      requires gptHeader != entry && gptHeader != header && gptHeader.Length == GPT_HEADER_SIZE
      requires Searchable(spi.card, disk, i) && gptHeader[..] == GptHeaderOf(disk)
      modifies this, spi, entry, header
      ensures Valid()
      ensures r == Found ==>
                && IsGptlAt(disk, k) && At(disk, EntryOf(disk, k))
                && Verdict(PartBytes(disk, EntryOf(disk, k))) == Found
                && (bootargs == CommandLine(PartBytes(disk, EntryOf(disk, k))) || bootargs == None)
      ensures Reliable(spi.card, disk) && NoGptl(disk) ==>
                r == NotFound && bootargs == old(bootargs) && header[..] == old(header[..])
      ensures Reliable(spi.card, disk) && FirstGptl(disk, i) ==>
                var p := PartBytes(disk, EntryOf(disk, i));
                k == i && At(disk, EntryOf(disk, i)) && r == Verdict(p) && (r == Found ==> bootargs == CommandLine(p))
    {
      hide Faithful, Reliable, HasHeader, Verdict, IsGptlEntry, IsGptl, PartitionsNum, StartOf, EntryPos, Count;
      GptHeaderSays(disk, 0);
      k := 0;
      var j := 0;
      while j < PartitionsNum(gptHeader[..])
        invariant 0 <= j && gptHeader[..] == GptHeaderOf(disk)
        invariant Searchable(spi.card, disk, i) && !IsGptl(entry[..])
        invariant Reliable(spi.card, disk) && FirstGptl(disk, i) ==> j <= i
        invariant bootargs == old(bootargs) && header[..] == old(header[..])
        decreases PartitionsNum(gptHeader[..]) - j
      {
        assert HasEntry(disk, j);
        var read := ReadEntry(gptHeader, j, disk);
        if IsGptlEntry(entry[..]) {
          k := j;
          assert Reliable(spi.card, disk) && FirstGptl(disk, i) ==> j == i;
          r := ReadHeader(disk);
          return;
        }
        MemSet(entry);
        ZeroEntry(entry[..]);
        j := j + 1;
      }
      r := NotFound;
    }

    /** gptl_header_get_field of the size of part k. */
    method Field(k: nat, ghost disk: seq<byte>) returns (size: nat)
      requires k < 4 && Valid() && At(disk, entry[..])
      ensures size == PartLength(PartBytes(disk, entry[..]), k)
    {
      FieldIs(header[..], PartBytes(disk, entry[..]), OffField(k) + 4);
      size := Word32(header[..], OffField(k) + 4);
    }

    /** gptl_load_opensbi, gptl_load_kernel, gptl_load_initrd and gptl_load_fdt, for k = 0 to 3.  The
        size is returned whether the read succeeds or not. */
    method Load(k: nat, buff: array<byte>, ghost disk: seq<byte>) returns (size: nat, ok: bool)
      requires k < 4 && Valid() && At(disk, entry[..]) && buff != entry && buff != header
      requires IsDisk(disk) && Faithful(spi.card, disk)
      requires var p := PartBytes(disk, entry[..]);
               PartOffset(p, k) + PartLength(p, k) <= |p| && PartLength(p, k) <= buff.Length
      modifies spi, buff
      ensures var p := PartBytes(disk, entry[..]);
              && size == PartLength(p, k)
              && (ok ==> buff[..size] == p[PartOffset(p, k)..PartOffset(p, k) + size])
      ensures Reliable(spi.card, disk) ==> ok
      ensures forall i :: size <= i < buff.Length ==> buff[i] == old(buff[i])
    {
      hide Word32, Faithful, Reliable, BigEndian, StartOf;
      ghost var p := PartBytes(disk, entry[..]);
      FieldIs(header[..], p, OffField(k));
      FieldIs(header[..], p, OffField(k) + 4);
      size, ok := Word32(header[..], OffField(k) + 4), true;
      if size != 0 {
        var offset := Word32(header[..], OffField(k));
        ok := ReadPartition(offset, size, buff, disk);
      }
    }
  }

  lemma {:induction false} StartAligned(e: seq<byte>)
    requires |e| == ENTRY_SIZE
    ensures StartOf(e) % BLOCK == 0
  {
  }

  /** No entry lies in two blocks. */
  lemma {:induction false} EntryInBlock(disk: seq<byte>, i: nat)
    requires 604 <= |disk|
    ensures EntryPos(disk, i) / BLOCK == (EntryPos(disk, i) + ENTRY_SIZE - 1) / BLOCK
  {
  }

  lemma {:induction false} ZeroEntry(e: seq<byte>)
    requires |e| == ENTRY_SIZE && forall i :: 0 <= i < |e| ==> e[i] == 0
    ensures !IsGptl(e)
  {
    assert e[..16][0] == 0;
  }

  /** The verdict depends on the header alone. */
  lemma {:induction false} VerdictFrame(h: seq<byte>, p: seq<byte>)
    requires |h| == 48 <= |p| && h == p[..48]
    ensures Verdict(h) == Verdict(p) && BigEndian(h[8..12]) == BigEndian(p[8..12])
  {
    hide BigEndian;
    FieldIs(h, p, 0);
    FieldIs(h, p, 4);
    FieldIs(h, p, 8);
  }

  /** memset of a whole struct to 0. */
  method MemSet(a: array<byte>)
    modifies a
    ensures forall i :: 0 <= i < a.Length ==> a[i] == 0
  {
    for i := 0 to a.Length
      invariant forall j :: 0 <= j < i ==> a[j] == 0
    {
      a[i] := 0;
    }
  }

  /** What search_gptl makes of a partition that starts with p: the magic number is "GPTL", the header
      is not shorter than it is, and the version is 0. */
  function Verdict(p: seq<byte>): Search
    requires 48 <= |p|
  {
    if BigEndian(p[0..4]) != 0x4750544c || BigEndian(p[8..12]) < 48 then Corrupt
    else if BigEndian(p[4..8]) > 0 then Unsupported
    else Found
  }

  /** The bytes between the header and the size it announces. */
  function CommandLine(p: seq<byte>): Option<seq<byte>>
    requires 48 <= |p| && BigEndian(p[8..12]) <= |p|
  {
    if BigEndian(p[8..12]) > 48 then Some(p[48..BigEndian(p[8..12])]) else None
  }

  // ---- from the packer to the boot loader ----------------------------------------------------

  /** An image lies at the start of the partition of entry e. */
  ghost predicate Holds(disk: seq<byte>, e: seq<byte>, image: seq<byte>)
    requires |e| == ENTRY_SIZE
  {
    StartOf(e) + |image| <= |disk| && disk[StartOf(e)..StartOf(e) + |image|] == image
  }

  lemma {:induction false} ImageWord(disk: seq<byte>, e: seq<byte>, image: seq<byte>, o: nat)
    requires |e| == ENTRY_SIZE && Holds(disk, e, image) && o + 4 <= |image|
    ensures BigEndian(PartBytes(disk, e)[o..o + 4]) == Word32(image, o)
  {
    var p := PartBytes(disk, e);
    assert p[..|image|] == image;
    assert p[o..o + 4] == p[..|image|][o..o + 4];
    Word32Is(image, o);
  }

  /** What the packer wrote is what the loader looks at first: the header passes the checks, and the
      command line comes with its NUL. */
  lemma {:induction false} HeaderFound(disk: seq<byte>, e: seq<byte>, image: seq<byte>, input: Input)
    requires |e| == ENTRY_SIZE && IsImage(image, input) && Holds(disk, e, image)
    ensures HasHeader(disk, e) && Verdict(PartBytes(disk, e)) == Found
    ensures CommandLine(PartBytes(disk, e)) ==
            if input.cmdline.Some? then Some(input.cmdline.value + [0]) else None
  {
    hide Word32, AlignPage, BigEndian, StartOf;
    var p := PartBytes(disk, e);
    assert p[..|image|] == image;
    Sizes(input);
    ImageWord(disk, e, image, 0);
    ImageWord(disk, e, image, 4);
    ImageWord(disk, e, image, 8);
    if input.cmdline.Some? {
      var c, n := input.cmdline.value, HeaderSize(input);
      assert p[..|image|][HEADER..n] == p[HEADER..n];
      assert image[HEADER..n] == c + [0];
    }
  }

  /** Every part that was packed lies where its fields say. */
  lemma {:induction false} PartFound(disk: seq<byte>, e: seq<byte>, image: seq<byte>, input: Input, k: nat)
    requires |e| == ENTRY_SIZE && IsImage(image, input) && Holds(disk, e, image) && k < 4
    ensures var p := PartBytes(disk, e);
            && 48 <= |p|
            && var o, s := PartOffset(p, k), PartLength(p, k);
            && o + s <= |p| && s == PartSize(input.parts[k])
            && (NonEmpty(input.parts[k]).Some? ==> p[o..o + s] == input.parts[k].value)
  {
    hide Word32, AlignPage, BigEndian, StartOf;
    var p := PartBytes(disk, e);
    assert p[..|image|] == image;
    Sizes(input);
    assert PartAt(image, input, k);
    ImageWord(disk, e, image, OffField(k));
    ImageWord(disk, e, image, OffField(k) + 4);
    if input.parts[k].Some? {
      var o, s := PartOff(input, k), |input.parts[k].value|;
      assert p[..|image|][o..o + s] == p[o..o + s];
    }
  }

  /** An image lies in the partition that is found: the first GPTL one, and the only one unless no
      read fails. */
  ghost predicate Installed(card: Card, disk: seq<byte>, i: nat, image: seq<byte>, input: Input) {
    && IsDisk(disk) && 604 <= |disk| && IsProtective(disk[..512])
    && FirstGptl(disk, i) && (Reliable(card, disk) || Sole(disk, i))
    && IsImage(image, input) && Holds(disk, EntryOf(disk, i), image)
  }

  /** search_gptl on a disk with an installed image, with any reads failing: it finds nothing else, and
      the command line it finds, if any, is the packed one with its NUL. */
  method FindImage(loader: Loader, ghost disk: seq<byte>, ghost i: nat, ghost image: seq<byte>, ghost input: Input)
    returns (r: Search)
    requires loader.Valid() && loader.Unset() && Faithful(loader.spi.card, disk)
    requires Installed(loader.spi.card, disk, i, image, input)
    modifies loader, loader.spi, loader.entry, loader.header
    ensures Reliable(loader.spi.card, disk) ==> r == Found
    ensures r == Found ==> loader.Valid() && loader.At(disk, EntryOf(disk, i))
    ensures var args := if input.cmdline.Some? then Some(input.cmdline.value + [0]) else None;
            r == Found ==> loader.bootargs == args || (loader.bootargs == None && !Reliable(loader.spi.card, disk))
  {
    HeaderFound(disk, EntryOf(disk, i), image, input);
    hide Reliable, Faithful, HasHeader, Verdict, IsImage, Holds, StartOf, Count, EntryPos;
    ghost var k;
    r, k := loader.SearchGptl(disk, i);
  }

  /** The whole way: an image built by create_image, written to a GPTL partition of a disk, is found by
      search_gptl, and every part is loaded as it was packed.  A read that fails costs the image, the
      command line or the part, but never changes them. */
  method LoadImage(loader: Loader, ghost disk: seq<byte>, ghost i: nat, ghost image: seq<byte>, ghost input: Input,
                   k: nat, buff: array<byte>) returns (r: Search, size: nat, ok: bool)
    requires loader.Valid() && loader.Unset() && Faithful(loader.spi.card, disk)
    requires Installed(loader.spi.card, disk, i, image, input)
    requires k < 4 && PartSize(input.parts[k]) <= buff.Length && buff != loader.entry && buff != loader.header
    modifies loader, loader.spi, loader.entry, loader.header, buff
    ensures Reliable(loader.spi.card, disk) ==> r == Found && ok
    ensures var args := if input.cmdline.Some? then Some(input.cmdline.value + [0]) else None;
            r == Found ==> loader.bootargs == args || (loader.bootargs == None && !Reliable(loader.spi.card, disk))
    ensures r == Found ==>
              size == PartSize(input.parts[k]) && (ok && size > 0 ==> buff[..size] == input.parts[k].value)
  {
    PartFound(disk, EntryOf(disk, i), image, input, k);
    hide Reliable, Faithful, HasHeader, IsImage, Holds, Word32, Installed, StartOf, EntryPos, PartOffset, PartLength;
    r := FindImage(loader, disk, i, image, input);
    if r != Found {
      return r, 0, false;
    }
    size, ok := loader.Load(k, buff, disk);
  }
}
