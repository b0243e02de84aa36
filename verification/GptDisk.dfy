/** What the bytes of a disk with a GPT say (UEFI Specification, section 5.3): blocks of 512 bytes,
    entries of 128 bytes, little-endian numbers.  The MBR is block 0, the GPT header block 1. */
module GptDisk {
  import opened Bytes
  import opened Endian

  /** A protective MBR: the type of the first of its four partitions is 0xee, the others are unused. */
  predicate IsProtective(mbr: seq<byte>)
    requires |mbr| == 512
  {
    mbr[446 + 4] == 0xee && mbr[462 + 4] == 0 && mbr[478 + 4] == 0 && mbr[494 + 4] == 0
  }

  /** The number of entries, at 80 in the header; the loader takes it for a signed number. */
  function Count(disk: seq<byte>): int
    requires 604 <= |disk|
  {
    var n := LittleEndian(disk[512 + 80..512 + 84]);
    if n < 0x8000_0000 then n else n - 0x1_0000_0000
  }

  /** Where entry i lies: the array starts at the block whose number is at 72 in the header. */
  function EntryPos(disk: seq<byte>, i: nat): nat
    requires 604 <= |disk|
  {
    512 * LittleEndian(disk[512 + 72..512 + 80]) + 128 * i
  }

  predicate HasEntry(disk: seq<byte>, i: nat)
    requires 604 <= |disk|
  {
    EntryPos(disk, i) + 128 <= |disk|
  }

  function EntryOf(disk: seq<byte>, i: nat): (e: seq<byte>)
    requires 604 <= |disk| && HasEntry(disk, i)
    ensures |e| == 128
  {
    disk[EntryPos(disk, i)..EntryPos(disk, i) + 128]
  }

  /** The type GUID 4750544c-0000-0000-0000-524953432d56, as it is stored. */
  predicate IsGptl(e: seq<byte>)
    requires |e| == 128
  {
    e[..16] == [0x4c, 0x54, 0x50, 0x47, 0, 0, 0, 0, 0, 0, 0x52, 0x49, 0x53, 0x43, 0x2d, 0x56]
  }

  function FirstBlock(e: seq<byte>): nat
    requires |e| == 128
  {
    LittleEndian(e[32..40])
  }

  function LastBlock(e: seq<byte>): nat
    requires |e| == 128
  {
    LittleEndian(e[40..48])
  }

  /** Where the loader takes the partition to start: at its first block, or at its last block if that
      comes before the first. */
  function StartOf(e: seq<byte>): nat
    requires |e| == 128
  {
    512 * if FirstBlock(e) <= LastBlock(e) then FirstBlock(e) else LastBlock(e)
  }

  /** Entry i is the first one with the GPTL type, and everything up to it is on the disk. */
  ghost predicate FirstGptl(disk: seq<byte>, i: nat) {
    && 604 <= |disk| && i < Count(disk)
    && (forall j :: 0 <= j <= i ==> HasEntry(disk, j))
    && (forall j :: 0 <= j < i ==> !IsGptl(EntryOf(disk, j)))
    && IsGptl(EntryOf(disk, i))
  }

  /** All entries are on the disk, and none has the GPTL type. */
  ghost predicate NoGptl(disk: seq<byte>) {
    604 <= |disk| && forall j :: 0 <= j < Count(disk) ==> HasEntry(disk, j) && !IsGptl(EntryOf(disk, j))
  }

  /** All entries are on the disk, and only entry i has the GPTL type. */
  ghost predicate Sole(disk: seq<byte>, i: nat) {
    604 <= |disk| && forall j :: 0 <= j < Count(disk) ==> HasEntry(disk, j) && (IsGptl(EntryOf(disk, j)) ==> j == i)
  }
}
