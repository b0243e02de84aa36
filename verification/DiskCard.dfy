/** A card that holds a disk and serves every read of it: what SdCard, BlockRead and Gptl ask of a
    card can be met, for every disk. */
module DiskCard {
  import opened Bytes
  import opened SdCrc
  import opened SdCard

  /** Token, data and crc of a block. */
  const PACKET := 515

  /** A read command, as sd_cmd frames it, starts at position i of what was sent. */
  predicate CommandAt(h: seq<byte>, i: nat) {
    i + 7 <= |h| && h[i] == DUMMY && h[i + 1] == CMD_READ_BLOCK_MULTIPLE && h[i + 6] == 1
  }

  /** The last read command that starts before position n; n if there is none. */
  function LastCommand(h: seq<byte>, n: nat): (i: nat)
    ensures CommandAt(h, i) || i == |h| || i == n
  {
    if n == 0 then |h| else if CommandAt(h, n - 1) then n - 1 else LastCommand(h, n - 1)
  }

  function DiskBlock(disk: seq<byte>, n: nat): (b: seq<byte>)
    ensures |b| == BLOCK
  {
    if BLOCK * (n + 1) <= |disk| then disk[BLOCK * n..BLOCK * (n + 1)] else seq(BLOCK, i => 0)
  }

  function HighByte(c: bv16): byte {
    ByteFits(c >> 8);
    (c >> 8) as int
  }

  function LowByte(c: bv16): byte {
    ByteFits(c & 0xff);
    (c & 0xff) as int
  }

  lemma {:induction false} ByteFits(x: bv16)
    requires x < 256
    ensures 0 <= x as int < 256
  {
  }

  lemma {:induction false} ThereAndBack(x: bv16)
    ensures (x as int) as bv16 == x
  {
  }

  lemma {:induction false} Halves(c: bv16)
    ensures ((c >> 8) << 8) | (c & 0xff) == c
  {
  }

  lemma {:induction false} Word16Is(c: bv16)
    ensures Word16(HighByte(c), LowByte(c)) == c
  {
    ThereAndBack(c >> 8);
    ThereAndBack(c & 0xff);
    Halves(c);
  }

  /** One byte of a block with its token and crc. */
  function PacketByte(b: seq<byte>, r: nat): byte
    requires |b| == BLOCK && r < PACKET
  {
    var c := CrcFrom(0, Raw(b));
    if r == 0 then DATA_TOKEN else if r <= BLOCK then b[r - 1] else if r == BLOCK + 1 then HighByte(c) else LowByte(c)
  }

  /** The k-th byte after a read command: the response 0, then one packet after the other. */
  function Stream(disk: seq<byte>, lba: nat, k: nat): byte {
    if k == 0 then 0 else PacketByte(DiskBlock(disk, lba + (k - 1) / PACKET), (k - 1) % PACKET)
  }

  function Answer(disk: seq<byte>, h: seq<byte>): byte {
    var i := LastCommand(h, |h|);
    if CommandAt(h, i) then Stream(disk, Word32(h, i + 2), |h| - i - 7) else DUMMY
  }

  function CardOf(disk: seq<byte>): Card {
    h => Answer(disk, h)
  }

  // ---- it serves the disk --------------------------------------------------------------------

  lemma {:induction false} LastCommandIs(h: seq<byte>, i: nat, n: nat)
    requires i < n && CommandAt(h, i) && forall j :: i < j < n ==> !CommandAt(h, j)
    ensures LastCommand(h, n) == i
    decreases n
  {
    if i < n - 1 {
      LastCommandIs(h, i, n - 1);
    }
  }

  /** What has been sent once the command is out. */
  ghost function Commanded(h: seq<byte>, lba: uint32): seq<byte> {
    h + Frame(CMD_READ_BLOCK_MULTIPLE, lba, ReadCrc(lba))
  }

  /** After a read command and k dummy bytes, the card sends the k-th byte of the stream. */
  lemma {:induction false} Answers(disk: seq<byte>, h: seq<byte>, lba: uint32, k: nat)
    ensures CardOf(disk)(Commanded(h, lba) + Dummies(k)) == Stream(disk, lba, k)
  {
    hide Stream, Word32;
    var s := Commanded(h, lba) + Dummies(k);
    ReadCrcIs(lba);
    LastCommandIs(s, |h|, |s|);
    WordFrame(Frame(CMD_READ_BLOCK_MULTIPLE, lba, 1)[2..6], s[|h| + 2..|h| + 6], 0);
    assert s[|h| + 2..|h| + 6] == Be32(lba);
    WordAt(s, |h| + 2);
  }

  lemma {:induction false} WordAt(s: seq<byte>, o: nat)
    requires o + 4 <= |s|
    ensures Word32(s, o) == Word32(s[o..o + 4], 0)
  {
  }


  /** The command is accepted, with one byte. */
  lemma {:induction false} ReadAccepted(disk: seq<byte>, h: seq<byte>, lba: uint32)
    ensures Accepted(CardOf(disk), h, lba)
    ensures AfterRead(CardOf(disk), h, lba) == Commanded(h, lba) + Dummies(1)
  {
    Answers(disk, h, lba, 0);
    var p := Commanded(h, lba);
    assert p + Dummies(0) == p && p + Dummies(1) == p + [DUMMY];
    hide Answer, Frame, ReadCrc;
  }

  /** Block j of a transfer starts with its token right after the packets before it. */
  lemma {:induction false} PacketStart(disk: seq<byte>, h: seq<byte>, lba: uint32, j: nat)
    ensures var card, p := CardOf(disk), Commanded(h, lba);
            var b := BlockStart(card, AfterRead(card, h, lba), j);
            && b == p + Dummies(1 + PACKET * j)
            && HasToken(card, b) && Start(card, b) == p + Dummies(2 + PACKET * j)
  {
    hide Answer, AfterRead, CardOf, Commanded, PacketByte, DiskBlock;
    var card, p := CardOf(disk), Commanded(h, lba);
    var a := AfterRead(card, h, lba);
    ReadAccepted(disk, h, lba);
    if j > 0 {
      PacketStart(disk, h, lba, j - 1);
      DummiesAdd(p, 2 + PACKET * (j - 1), BLOCK + 2);
    }
    var b := p + Dummies(1 + PACKET * j);
    Answers(disk, h, lba, 1 + PACKET * j);
    TokenFirst(DiskBlock(disk, lba + j));
    assert b + Dummies(0) == b;
    assert TokenAfter(card, b, 0);
    StartIs(card, b, 0);
    DummiesAdd(p, 1 + PACKET * j, 1);
  }

  lemma {:induction false} TokenFirst(b: seq<byte>)
    requires |b| == BLOCK
    ensures PacketByte(b, 0) == DATA_TOKEN
  {
  }

  /** The bytes of packet j behind its token. */
  lemma {:induction false} PacketIs(disk: seq<byte>, h: seq<byte>, lba: uint32, j: nat, i: nat)
    requires i < PACKET - 1
    ensures CardOf(disk)(Commanded(h, lba) + Dummies(2 + PACKET * j) + Dummies(i))
            == PacketByte(DiskBlock(disk, lba + j), i + 1)
  {
    hide CardOf, Commanded, PacketByte, DiskBlock;
    DummiesAdd(Commanded(h, lba), 2 + PACKET * j, i);
    Answers(disk, h, lba, 2 + PACKET * j + i);
  }

  /** Block j arrives as it is on the disk, with its crc. */
  lemma {:induction false} BlockServed(disk: seq<byte>, h: seq<byte>, lba: uint32, j: nat)
    ensures var card := CardOf(disk);
            var a := AfterRead(card, h, lba);
            && HasToken(card, BlockStart(card, a, j))
            && BlockAt(card, a, j) == DiskBlock(disk, lba + j) && BlockOk(card, a, j)
  {
    hide Answer, AfterRead, CardOf, Commanded, DiskBlock, CrcFrom, BlockStart, Start, HasToken;
    var card, s := CardOf(disk), Commanded(h, lba) + Dummies(2 + PACKET * j);
    var b := DiskBlock(disk, lba + j);
    PacketStart(disk, h, lba, j);
    forall i | 0 <= i < BLOCK ensures Received(card, s)[i] == b[i] {
      PacketIs(disk, h, lba, j, i);
    }
    assert Received(card, s) == b;
    PacketIs(disk, h, lba, j, BLOCK);
    PacketIs(disk, h, lba, j, BLOCK + 1);
    Word16Is(CrcFrom(0, Raw(b)));
  }

  lemma {:induction false} ReadServed(disk: seq<byte>, h: seq<byte>, lba: uint32, n: nat)
    requires BLOCK * (lba + n) <= |disk|
    ensures var card := CardOf(disk);
            Succeeds(card, h, lba, n) && ServesDisk(card, AfterRead(card, h, lba), disk, lba, n)
  {
    hide CardOf, Accepted, AfterRead, BlockOk, BlockAt, HasToken, BlockStart;
    ReadAccepted(disk, h, lba);
    forall j: nat | j < n
      ensures var a := AfterRead(CardOf(disk), h, lba);
              && BlockOk(CardOf(disk), a, j) && HasToken(CardOf(disk), BlockStart(CardOf(disk), a, j))
              && BlockAt(CardOf(disk), a, j) == disk[BLOCK * (lba + j)..BLOCK * (lba + j + 1)]
    {
      BlockServed(disk, h, lba, j);
    }
  }

  /** The conditions on the card hold of this card: every theorem about a faithful and reliable
      card is about some card, for every disk. */
  lemma {:induction false} CardServes(disk: seq<byte>)
    ensures Faithful(CardOf(disk), disk) && Reliable(CardOf(disk), disk)
  {
    hide CardOf, Accepted, AfterRead, Succeeds, ServesDisk;
    var card := CardOf(disk);
    forall h: seq<byte>, lba: uint32, n: nat | BLOCK * (lba + n) <= |disk|
      ensures Succeeds(card, h, lba, n)
    {
      ReadServed(disk, h, lba, n);
    }
    forall h: seq<byte>, lba: uint32, n: nat | BLOCK * (lba + n) <= |disk| && Accepted(card, h, lba)
      ensures ServesDisk(card, AfterRead(card, h, lba), disk, lba, n)
    {
      ReadServed(disk, h, lba, n);
    }
  }
}
