/** Reading blocks from an SD card in SPI mode: sd_cmd, sd_cmd_end and sd_copy of
    platform/hifive-unleashed/sd.c (SD Physical Layer Simplified Specification, section 7.2.3). */
module SdCard {
  import opened Bytes
  import opened SdCrc
  import ByteBits

  const DUMMY: byte := 0xff
  const DATA_TOKEN: byte := 0xfe
  const CMD_READ_BLOCK_MULTIPLE: byte := 0x52
  const CMD_STOP_TRANSMISSION: byte := 0x4c
  const BLOCK := 512

  /** A card answers each exchange with a byte that depends on all bytes sent to it before. */
  type Card = seq<byte> -> byte

  datatype CsMode = Auto | Hold | Off

  /** struct spi_ctrl, as far as the protocol sees it. */
  class Spi {
    const card: Card
    var sent: seq<byte>
    var cs: CsMode

    constructor (card: Card)
      ensures this.card == card && sent == [] && cs == Off
    {
      this.card, sent, cs := card, [], Off;
    }

    /** spi_txrx */
    method TxRx(x: byte) returns (r: byte)
      modifies this`sent
      ensures r == card(old(sent)) && sent == old(sent) + [x]
    {
      r := card(sent);
      sent := sent + [x];
    }

    /** The command frame of sd_cmd. */
    method SendFrame(cmd: byte, arg: uint32, crc: byte)
      modifies this`sent
      ensures sent == old(sent) + Frame(cmd, arg, crc)
    {
      var _ := TxRx(DUMMY);
      var _ := TxRx(cmd);
      var _ := TxRx(arg / 0x100_0000);
      var _ := TxRx(arg / 0x1_0000 % 0x100);
      var _ := TxRx(arg / 0x100 % 0x100);
      var _ := TxRx(arg % 0x100);
      var _ := TxRx(crc);
    }

    /** The wait of sd_cmd: up to 1000 bytes until one has its top bit clear. */
    method AwaitResponse() returns (r: byte)
      modifies this`sent
      ensures sent == AfterWait(card, old(sent), 1000)
      ensures r == WaitFor(card, old(sent), 1000)
      ensures exists k: nat :: Answered(card, old(sent), k, r) && sent == old(sent) + Dummies(k)
    {
      ghost var k := WaitIs(card, sent, 1000);
      var n := 1000;
      ghost var h := sent;
      r := TxRx(DUMMY);
      while r >= 0x80 && n > 1
        invariant 1 <= n <= 1000 && sent == h + [DUMMY] && r == card(h)
        invariant AfterWait(card, old(sent), 1000) == AfterWait(card, h, n)
        invariant WaitFor(card, old(sent), 1000) == WaitFor(card, h, n)
        decreases n
      {
        n := n - 1;
        h := sent;
        r := TxRx(DUMMY);
      }
    }

    /** sd_cmd: sends a command and returns the card's response. */
    method Cmd(cmd: byte, arg: uint32, crc: byte) returns (r: byte)
      modifies this
      ensures cs == Hold
      ensures sent == AfterCmd(card, old(sent), cmd, arg, crc)
      ensures r == Response(card, old(sent), cmd, arg, crc)
    {
      cs := Hold;
      SendFrame(cmd, arg, crc);
      r := AwaitResponse();
    }

    /** sd_cmd_end */
    method CmdEnd()
      modifies this
      ensures cs == Auto && sent == old(sent) + [DUMMY]
    {
      var _ := TxRx(DUMMY);
      cs := Auto;
    }
  }

  /** The bytes of a command: one dummy, the command, its argument big-endian, its crc. */
  function Frame(cmd: byte, arg: uint32, crc: byte): seq<byte> {
    [DUMMY, cmd, arg / 0x100_0000, arg / 0x1_0000 % 0x100, arg / 0x100 % 0x100, arg % 0x100, crc]
  }

  /** What has been sent when the wait for a response ends, after at most n bytes. */
  function AfterWait(card: Card, h: seq<byte>, n: nat): seq<byte>
    decreases n
  {
    if n <= 1 || card(h) < 0x80 then h + [DUMMY] else AfterWait(card, h + [DUMMY], n - 1)
  }

  /** The first byte without its top bit, or the n-th byte. */
  function WaitFor(card: Card, h: seq<byte>, n: nat): byte
    decreases n
  {
    if n <= 1 || card(h) < 0x80 then card(h) else WaitFor(card, h + [DUMMY], n - 1)
  }

  function AfterCmd(card: Card, h: seq<byte>, cmd: byte, arg: uint32, crc: byte): seq<byte> {
    AfterWait(card, h + Frame(cmd, arg, crc), 1000)
  }

  function Response(card: Card, h: seq<byte>, cmd: byte, arg: uint32, crc: byte): byte {
    WaitFor(card, h + Frame(cmd, arg, crc), 1000)
  }

  // ---- data blocks ---------------------------------------------------------------------------

  function Dummies(n: nat): seq<byte> {
    seq(n, i => DUMMY)
  }

  lemma {:induction false} DummiesMore(h: seq<byte>, n: nat)
    ensures h + Dummies(n) + [DUMMY] == h + Dummies(n + 1)
  {
  }

  /** The first token comes after g other bytes. */
  ghost predicate TokenAfter(card: Card, h: seq<byte>, g: nat) {
    card(h + Dummies(g)) == DATA_TOKEN && forall j :: 0 <= j < g ==> card(h + Dummies(j)) != DATA_TOKEN
  }

  ghost predicate HasToken(card: Card, h: seq<byte>) {
    exists g: nat :: TokenAfter(card, h, g)
  }

  /** What has been sent when the token has been read. */
  ghost function Start(card: Card, h: seq<byte>): seq<byte> {
    if HasToken(card, h) then var g: nat :| TokenAfter(card, h, g); h + Dummies(g + 1) else h
  }

  lemma {:induction false} NotBefore(card: Card, h: seq<byte>, g: nat, j: nat)
    requires TokenAfter(card, h, g) && TokenAfter(card, h, j)
    ensures g <= j
  {
  }

  lemma {:induction false} StartIs(card: Card, h: seq<byte>, g: nat)
    requires TokenAfter(card, h, g)
    ensures Start(card, h) == h + Dummies(g + 1)
  {
    var k: nat :| TokenAfter(card, h, k) && Start(card, h) == h + Dummies(k + 1);
    NotBefore(card, h, g, k);
    NotBefore(card, h, k, g);
  }

  /** The block that follows. */
  ghost function Received(card: Card, s: seq<byte>): (b: seq<byte>)
    ensures |b| == BLOCK
  {
    seq<byte>(BLOCK, (j: nat) requires j < BLOCK => card(s + Dummies(j)))
  }

  /** The crc the card sends after the block, high byte first. */
  ghost function SentCrc(card: Card, s: seq<byte>): bv16 {
    Word16(card(s + Dummies(BLOCK)), card(s + Dummies(BLOCK + 1)))
  }

  function Word16(hi: byte, lo: byte): bv16 {
    ((hi as bv16) << 8) | (lo as bv16)
  }

  function Raw(b: seq<byte>): seq<bv8> {
    seq(|b|, i requires 0 <= i < |b| => b[i] as bv8)
  }

  ghost predicate CrcOk(card: Card, s: seq<byte>) {
    CrcFrom(0, Raw(Received(card, s))) == SentCrc(card, s)
  }

  lemma {:induction false} CrcMore(b: seq<byte>, x: byte)
    ensures CrcFrom(0, Raw(b + [x])) == Crc16(CrcFrom(0, Raw(b)), x as bv8)
  {
    hide Crc16;
    assert Raw(b + [x]) == Raw(b) + [x as bv8];
    CrcFromConcat(0, Raw(b), [x as bv8]);
    assert CrcFrom(CrcFrom(0, Raw(b)), [x as bv8]) == CrcFrom(Crc16(CrcFrom(0, Raw(b)), x as bv8), []);
  }

  /** Waits for the token: the loop of sd_copy without a bound of its own. */
  method AwaitToken(spi: Spi)
    requires HasToken(spi.card, spi.sent)
    modifies spi`sent
    ensures spi.sent == Start(spi.card, old(spi.sent))
  {
    ghost var h := spi.sent;
    ghost var g: nat :| TokenAfter(spi.card, h, g);
    ghost var k := 0;
    assert h + Dummies(0) == h;
    var x := spi.TxRx(DUMMY);
    while x != DATA_TOKEN
      invariant k <= g && spi.sent == h + Dummies(k) + [DUMMY] && x == spi.card(h + Dummies(k))
      decreases g - k
    {
      DummiesMore(h, k);
      k := k + 1;
      x := spi.TxRx(DUMMY);
    }
    DummiesMore(h, k);
    StartIs(spi.card, h, k);
  }

  /** The 512 data bytes. */
  method ReceiveData(spi: Spi, dst: array<byte>, p: nat) returns (crc: bv16)
    requires p + BLOCK <= dst.Length
    modifies spi`sent, dst
    ensures spi.sent == old(spi.sent) + Dummies(BLOCK)
    ensures dst[p..p + BLOCK] == Received(spi.card, old(spi.sent))
    ensures forall i :: 0 <= i < dst.Length && !(p <= i < p + BLOCK) ==> dst[i] == old(dst[i])
    ensures crc == CrcFrom(0, Raw(Received(spi.card, old(spi.sent))))
  {
    ghost var s := spi.sent;
    ghost var b := Received(spi.card, s);
    crc := 0;
    assert s + Dummies(0) == s && b[..0] == [];
    for j := 0 to BLOCK
      invariant spi.sent == s + Dummies(j)
      invariant forall i :: 0 <= i < j ==> dst[p + i] == b[i]
      invariant forall i :: 0 <= i < dst.Length && !(p <= i < p + j) ==> dst[i] == old(dst[i])
      invariant crc == CrcFrom(0, Raw(b[..j]))
    {
      var x := spi.TxRx(DUMMY);
      dst[p + j] := x;
      CrcMore(b[..j], x);
      assert b[..j + 1] == b[..j] + [x];
      DummiesMore(s, j);
      crc := Crc16(crc, x as bv8);
    }
    assert b[..BLOCK] == b;
  }

  /** One round of sd_copy's outer loop; ok says whether the crcs agree. */
  method ReceiveBlock(spi: Spi, dst: array<byte>, p: nat) returns (ok: bool)
    requires p + BLOCK <= dst.Length && HasToken(spi.card, spi.sent)
    modifies spi`sent, dst
    ensures var s := Start(spi.card, old(spi.sent));
            && spi.sent == s + Dummies(BLOCK + 2)
            && dst[p..p + BLOCK] == Received(spi.card, s)
            && ok == CrcOk(spi.card, s)
    ensures forall i :: 0 <= i < dst.Length && !(p <= i < p + BLOCK) ==> dst[i] == old(dst[i])
  {
    AwaitToken(spi);
    ghost var s := spi.sent;
    var crc := ReceiveData(spi, dst, p);
    var hi := spi.TxRx(DUMMY);
    DummiesMore(s, BLOCK);
    var lo := spi.TxRx(DUMMY);
    DummiesMore(s, BLOCK + 1);
    ok := crc == Word16(hi, lo);
  }

  // ---- sd_copy -------------------------------------------------------------------------------

  const SD_COPY_ERROR_CMD18 := 1
  const SD_COPY_ERROR_CMD18_CRC := 2

  /** crc7 as it is written. */
  function Crc7(prev: bv8, x: bv8): bv8 {
    var r1 := prev & x;
    var r2 := r1 ^ (r1 >> 4) ^ (r1 >> 7);
    (r2 ^ (r2 << 4)) & 0x7f
  }

  /** The crc byte sd_copy sends with its read command. */
  function ReadCrc(lba: uint32): byte {
    var c1 := Crc7(0, 0x52);
    var c2 := Crc7(c1, (lba / 0x100_0000) as bv8);
    var c3 := Crc7(c2, (lba / 0x1_0000 % 0x100) as bv8);
    var c4 := Crc7(c3, (lba / 0x100 % 0x100) as bv8);
    var c5 := Crc7(c4, (lba % 0x100) as bv8);
    ((c5 << 1) | 1) as int
  }

  lemma {:induction false} Crc7Stays(x: bv8)
    ensures Crc7(0, x) == 0
  {
  }

  /** Starting from 0, crc7 stays 0, and the crc byte of every read command is 1. */
  lemma {:induction false} ReadCrcIs(lba: uint32)
    ensures ReadCrc(lba) == 1
  {
    hide Crc7;
    Crc7Stays(0x52);
    Crc7Stays((lba / 0x100_0000) as bv8);
    Crc7Stays((lba / 0x1_0000 % 0x100) as bv8);
    Crc7Stays((lba / 0x100 % 0x100) as bv8);
    Crc7Stays((lba % 0x100) as bv8);
  }

  /** What has been sent before the k-th block of a transfer. */
  ghost function BlockStart(card: Card, h: seq<byte>, k: nat): seq<byte> {
    if k == 0 then h else Start(card, BlockStart(card, h, k - 1)) + Dummies(BLOCK + 2)
  }

  /** The k-th block as received. */
  ghost function BlockAt(card: Card, h: seq<byte>, k: nat): (b: seq<byte>)
    ensures |b| == BLOCK
  {
    Received(card, Start(card, BlockStart(card, h, k)))
  }

  /** The k-th block agrees with the crc received behind it. */
  ghost predicate BlockOk(card: Card, h: seq<byte>, k: nat) {
    CrcOk(card, Start(card, BlockStart(card, h, k)))
  }

  /** The first k blocks agree with their crcs. */
  ghost predicate AllOk(card: Card, h: seq<byte>, k: nat) {
    forall j :: 0 <= j < k ==> BlockOk(card, h, j)
  }

  /** The card sends a token for each of n blocks, up to the first one with a wrong crc. */
  ghost predicate Served(card: Card, h: seq<byte>, n: nat) {
    forall k :: 0 <= k < n && AllOk(card, h, k) ==> HasToken(card, BlockStart(card, h, k))
  }

  /** What has been sent when the read command has been answered, and the answer. */
  function AfterRead(card: Card, h: seq<byte>, lba: uint32): seq<byte> {
    AfterCmd(card, h, CMD_READ_BLOCK_MULTIPLE, lba, ReadCrc(lba))
  }

  predicate Accepted(card: Card, h: seq<byte>, lba: uint32) {
    Response(card, h, CMD_READ_BLOCK_MULTIPLE, lba, ReadCrc(lba)) == 0
  }

  /** What has been sent when the transfer has been stopped. */
  function Stopped(card: Card, h: seq<byte>): seq<byte> {
    AfterCmd(card, h, CMD_STOP_TRANSMISSION, 0, 1) + [DUMMY]
  }

  /** The number of blocks sd_copy reads when asked for size: its loop runs at least once. */
  function Blocks(size: nat): nat {
    if size == 0 then 1 else size
  }

  /** b holds the first k blocks of the transfer at p. */
  ghost predicate Holds(b: seq<byte>, p: nat, card: Card, h: seq<byte>, k: nat) {
    && BlockPos(p, k) <= |b|
    && forall j :: 0 <= j < k ==> HoldsBlock(b, p, card, h, j)
  }

  /** b holds block j of the transfer at its place. */
  ghost predicate HoldsBlock(b: seq<byte>, p: nat, card: Card, h: seq<byte>, j: nat) {
    BlockPos(p, j + 1) <= |b| && b[BlockPos(p, j)..BlockPos(p, j + 1)] == BlockAt(card, h, j)
  }

  // ---- sd_copy on the wire -------------------------------------------------------------------

  /** Waiting after h, the card's answer x is its first byte below 0x80 within 1000 exchanges, the k-th,
      or the 1000th byte if there is none. */
  ghost predicate Answered(card: Card, h: seq<byte>, k: nat, x: byte) {
    && 1 <= k <= 1000 && x == card(h + Dummies(k - 1))
    && (forall j :: 0 <= j < k - 1 ==> card(h + Dummies(j)) >= 0x80)
    && (k < 1000 ==> x < 0x80)
  }

  /** A command frame on the wire, with its argument big-endian. */
  function OnWire(cmd: byte, arg: uint32): seq<byte> {
    [0xff, cmd] + Be32(arg) + [1]
  }

  /** From h to h', the command is sent and answered with x. */
  ghost predicate Commands(card: Card, h: seq<byte>, cmd: byte, arg: uint32, h': seq<byte>, x: byte) {
    exists k: nat :: Answered(card, h + OnWire(cmd, arg), k, x) && h' == h + OnWire(cmd, arg) + Dummies(k)
  }

  /** The first 0xfe after m is the card's byte g. */
  ghost predicate TokenIs(card: Card, m: seq<byte>, g: nat) {
    card(m + Dummies(g)) == 0xfe && forall j :: 0 <= j < g ==> card(m + Dummies(j)) != 0xfe
  }

  /** From m to e, the block b is read: the 512 bytes behind the first 0xfe, and two bytes of crc, high
      byte first, which agree if ok. */
  ghost predicate ReadsBlock(card: Card, m: seq<byte>, b: seq<byte>, ok: bool, e: seq<byte>) {
    exists g: nat ::
      && TokenIs(card, m, g) && e == m + Dummies(g + 515)
      && |b| == 512 && (forall i :: 0 <= i < 512 ==> b[i] == card(m + Dummies(g + 1 + i)))
      && var hi, lo := card(m + Dummies(g + 513)), card(m + Dummies(g + 514));
         ok <==> CrcFrom(0, Raw(b)) == ((hi as bv16) << 8) | (lo as bv16)
  }

  /** From a to e, the blocks bs are read, all of them but possibly the last with their crcs. */
  ghost predicate ReadsAll(card: Card, a: seq<byte>, bs: seq<seq<byte>>, ok: bool, e: seq<byte>) {
    if bs == [] then a == e && ok
    else
      var front, last := bs[..|bs| - 1], bs[|bs| - 1];
      exists m :: ReadsAll(card, a, front, true, m) && ReadsBlock(card, m, last, ok, e)
  }

  /** sd_copy, from h to h': READ_MULTIPLE_BLOCK; if it is refused, one more byte and the result 1.
      Otherwise the blocks bs, as many as are asked for but at least one, or up to the first wrong
      crc, with the result 0 or 2; then STOP_TRANSMISSION and one more byte. */
  ghost predicate Copies(card: Card, h: seq<byte>, lba: uint32, size: nat, rc: nat, bs: seq<seq<byte>>, h': seq<byte>) {
    exists a, x :: Commands(card, h, 0x52, lba, a, x) &&
      if x != 0 then rc == 1 && bs == [] && h' == a + [0xff]
      else ReadsAndStops(card, a, if size == 0 then 1 else size, rc, bs, h')
  }

  ghost predicate ReadsAndStops(card: Card, a: seq<byte>, n: nat, rc: nat, bs: seq<seq<byte>>, h': seq<byte>) {
    && (rc == 0 || rc == 2) && 1 <= |bs| <= n && (rc == 0 ==> |bs| == n)
    && exists e, y, z :: ReadsAll(card, a, bs, rc == 0, e) && Commands(card, e, 0x4c, 0, y, z) && h' == y + [0xff]
  }

  lemma {:induction false} DummiesAdd(h: seq<byte>, a: nat, b: nat)
    ensures h + Dummies(a) + Dummies(b) == h + Dummies(a + b)
  {
  }

  /** How long sd_cmd waits, and for what. */
  lemma {:induction false} WaitIs(card: Card, h: seq<byte>, n: nat) returns (k: nat)
    requires n > 0
    ensures 1 <= k <= n && AfterWait(card, h, n) == h + Dummies(k) && WaitFor(card, h, n) == card(h + Dummies(k - 1))
    ensures forall j :: 0 <= j < k - 1 ==> card(h + Dummies(j)) >= 0x80
    ensures k < n ==> WaitFor(card, h, n) < 0x80
    decreases n
  {
    assert h + Dummies(0) == h && h + Dummies(1) == h + [DUMMY];
    if n <= 1 || card(h) < 0x80 {
      k := 1;
    } else {
      var l := WaitIs(card, h + [DUMMY], n - 1);
      k := l + 1;
      forall j: nat ensures h + [DUMMY] + Dummies(j) == h + Dummies(j + 1) {
        DummiesAdd(h, 1, j);
      }
      forall j | 0 <= j < k - 1 ensures card(h + Dummies(j)) >= 0x80 {
        assert j > 0 ==> h + [DUMMY] + Dummies(j - 1) == h + Dummies(j);
      }
    }
  }

  lemma {:induction false} CommandIs(card: Card, h: seq<byte>, cmd: byte, arg: uint32)
    ensures Commands(card, h, cmd, arg, AfterCmd(card, h, cmd, arg, 1), Response(card, h, cmd, arg, 1))
  {
    FrameIs(cmd, arg);
    var k := WaitIs(card, h + OnWire(cmd, arg), 1000);
    hide AfterWait, WaitFor, Frame, OnWire, Dummies;
    assert Answered(card, h + OnWire(cmd, arg), k, Response(card, h, cmd, arg, 1));
  }

  lemma {:induction false} FrameIs(cmd: byte, arg: uint32)
    ensures Frame(cmd, arg, 1) == OnWire(cmd, arg)
  {
  }

  lemma {:induction false} BlockIs(card: Card, m: seq<byte>)
    requires HasToken(card, m)
    ensures var s := Start(card, m);
            ReadsBlock(card, m, Received(card, s), CrcOk(card, s), s + Dummies(BLOCK + 2))
  {
    var g: nat :| TokenAfter(card, m, g);
    StartIs(card, m, g);
    var s, b := Start(card, m), Received(card, Start(card, m));
    hide Start, CrcFrom, Word16;
    forall i | 0 <= i < 512 ensures b[i] == card(m + Dummies(g + 1 + i)) {
      DummiesAdd(m, g + 1, i);
    }
    DummiesAdd(m, g + 1, 512);
    DummiesAdd(m, g + 1, 513);
    DummiesAdd(m, g + 1, 514);
    assert TokenIs(card, m, g);
  }

  /** The blocks of a transfer. */
  ghost function BlocksOf(card: Card, h: seq<byte>, n: nat): (bs: seq<seq<byte>>)
    ensures |bs| == n && forall k :: 0 <= k < n ==> bs[k] == BlockAt(card, h, k)
  {
    seq<seq<byte>>(n, (k: nat) requires k < n => BlockAt(card, h, k))
  }

  /** The card sends a token for each of n blocks. */
  ghost predicate Tokens(card: Card, h: seq<byte>, n: nat) {
    forall k :: 0 <= k < n ==> HasToken(card, BlockStart(card, h, k))
  }

  lemma {:induction false} BlocksAre(card: Card, h: seq<byte>, n: nat)
    requires AllOk(card, h, n) && Tokens(card, h, n)
    ensures ReadsAll(card, h, BlocksOf(card, h, n), true, BlockStart(card, h, n))
    decreases n
  {
    hide ReadsBlock, HasToken, Start, CrcOk, Received;
    if n > 0 {
      assert AllOk(card, h, n - 1) && Tokens(card, h, n - 1) && BlockOk(card, h, n - 1);
      assert HasToken(card, BlockStart(card, h, n - 1));
      BlocksAre(card, h, n - 1);
      OneMoreBlock(card, h, n - 1);
      hide ReadsAll, BlockStart, BlocksOf, BlockOk, AllOk, Tokens;
    }
  }

  lemma {:induction false} OneMoreBlock(card: Card, h: seq<byte>, n: nat)
    requires ReadsAll(card, h, BlocksOf(card, h, n), true, BlockStart(card, h, n))
    requires HasToken(card, BlockStart(card, h, n))
    ensures ReadsAll(card, h, BlocksOf(card, h, n + 1), BlockOk(card, h, n), BlockStart(card, h, n + 1))
  {
    hide ReadsBlock, HasToken, Received, Start, CrcOk;
    var bs, m := BlocksOf(card, h, n + 1), BlockStart(card, h, n);
    BlockIs(card, m);
    assert bs[..|bs| - 1] == BlocksOf(card, h, n);
    assert bs[|bs| - 1] == BlockAt(card, h, n);
  }

  /** What sd_copy does is what it does on the wire. */
  lemma {:induction false} CopiesIs(card: Card, h: seq<byte>, lba: uint32, size: nat, rc: nat, done: nat)
    requires if !Accepted(card, h, lba) then rc == SD_COPY_ERROR_CMD18 && done == 0
             else
               var a := AfterRead(card, h, lba);
               && 1 <= done <= Blocks(size) && AllOk(card, a, done - 1) && Tokens(card, a, done)
               && rc == (if BlockOk(card, a, done - 1) then 0 else SD_COPY_ERROR_CMD18_CRC)
               && (rc == 0 ==> done == Blocks(size))
    ensures var a := AfterRead(card, h, lba);
            Copies(card, h, lba, size, rc, BlocksOf(card, a, done),
                   if Accepted(card, h, lba) then Stopped(card, BlockStart(card, a, done)) else a + [DUMMY])
  {
    ReadCrcIs(lba);
    var a := AfterRead(card, h, lba);
    CommandIs(card, h, 0x52, lba);
    hide Commands, AfterCmd, Response, ReadCrc;
    if Accepted(card, h, lba) {
      StopsIs(card, a, Blocks(size), rc, done);
    }
    hide ReadsAndStops, Stopped, BlockStart, BlocksOf, AllOk, BlockOk, Tokens;
  }

  lemma {:induction false} StopsIs(card: Card, a: seq<byte>, n: nat, rc: nat, done: nat)
    requires 1 <= done <= n && AllOk(card, a, done - 1) && Tokens(card, a, done)
    requires rc == if BlockOk(card, a, done - 1) then 0 else SD_COPY_ERROR_CMD18_CRC
    requires rc == 0 ==> done == n
    ensures ReadsAndStops(card, a, n, rc, BlocksOf(card, a, done), Stopped(card, BlockStart(card, a, done)))
  {
    hide ReadsAll, ReadsBlock, HasToken, Commands, AfterCmd, Response, BlockOk, BlockStart;
    assert Tokens(card, a, done - 1) && HasToken(card, BlockStart(card, a, done - 1));
    BlocksAre(card, a, done - 1);
    OneMoreBlock(card, a, done - 1);
    CommandIs(card, BlockStart(card, a, done), 0x4c, 0);
  }

  /** What one call of sd_copy sends: from h, what has been sent becomes h'. */
  ghost predicate Sends(card: Card, h: seq<byte>, r: Request, h': seq<byte>) {
    exists rc, bs :: Copies(card, h, r.lba, r.count, rc, bs, h')
  }

  /** One call of sd_copy: the first block and the number of blocks. */
  datatype Request = Request(lba: uint32, count: nat)

  /** What a sequence of calls of sd_copy sends, and nothing else. */
  ghost predicate SendsAll(card: Card, h: seq<byte>, rs: seq<Request>, h': seq<byte>) {
    if rs == [] then h == h'
    else
      var front, last := rs[..|rs| - 1], rs[|rs| - 1];
      exists m :: SendsAll(card, h, front, m) && Sends(card, m, last, h')
  }

  lemma {:induction false} SendsMore(card: Card, h: seq<byte>, rs: seq<Request>, m: seq<byte>, r: Request,
                                     h': seq<byte>)
    requires SendsAll(card, h, rs, m) && Sends(card, m, r, h')
    ensures SendsAll(card, h, rs + [r], h')
  {
    assert (rs + [r])[..|rs + [r]| - 1] == rs;
  }

  /** sd_copy: reads blocks with CMD18 until all are there or one has a wrong crc.  The blocks bs are
      what the card sent; done is their number. */
  method SdCopy(spi: Spi, dst: array<byte>, p: nat, lba: uint32, size: nat)
    returns (rc: nat, ghost done: nat, ghost bs: seq<seq<byte>>)
    requires p + BLOCK * Blocks(size) <= dst.Length
    requires Accepted(spi.card, spi.sent, lba) ==> Served(spi.card, AfterRead(spi.card, spi.sent, lba), Blocks(size))
    modifies spi, dst
    ensures spi.cs == Auto
    ensures Copies(spi.card, old(spi.sent), lba, size, rc, bs, spi.sent)
    ensures p + 512 * |bs| <= dst.Length && forall j :: 0 <= j < |bs| ==> dst[p + 512 * j..p + 512 * (j + 1)] == bs[j]
    ensures forall i :: 0 <= i < dst.Length && !(p <= i < p + 512 * |bs|) ==> dst[i] == old(dst[i])
    ensures var h := AfterRead(spi.card, old(spi.sent), lba);
            if !Accepted(spi.card, old(spi.sent), lba) then
              rc == SD_COPY_ERROR_CMD18 && done == 0
            else
              && 1 <= done <= Blocks(size)
              && AllOk(spi.card, h, done - 1)
              && Holds(dst[..], p, spi.card, h, done)
              && rc == (if BlockOk(spi.card, h, done - 1) then 0 else SD_COPY_ERROR_CMD18_CRC)
              && (rc == 0 ==> done == Blocks(size))
    ensures |bs| == done
  {
    hide AfterWait, WaitFor, BlockOk, BlockStart, BlockAt, Frame, ReadCrc, Copies;
    ghost var sent := spi.sent;
    var c := ReadCrc(lba);
    var r := spi.Cmd(CMD_READ_BLOCK_MULTIPLE, lba, c);
    if r != 0 {
      spi.CmdEnd();
      CopiesIs(spi.card, sent, lba, size, SD_COPY_ERROR_CMD18, 0);
      return SD_COPY_ERROR_CMD18, 0, [];
    }
    ghost var h := spi.sent;
    rc, done := Transfer(spi, dst, p, size);
    var _ := spi.Cmd(CMD_STOP_TRANSMISSION, 0, 1);
    spi.CmdEnd();
    bs := BlocksOf(spi.card, h, done);
    CopiesIs(spi.card, sent, lba, size, rc, done);
    HeldBlocks(dst[..], p, spi.card, h, done);
  }

  lemma {:induction false} HeldBlocks(b: seq<byte>, p: nat, card: Card, h: seq<byte>, n: nat)
    requires Holds(b, p, card, h, n)
    ensures p + 512 * n <= |b|
    ensures forall j :: 0 <= j < n ==> b[p + 512 * j..p + 512 * (j + 1)] == BlocksOf(card, h, n)[j]
  {
    hide BlockAt;
    forall j | 0 <= j < n ensures b[p + 512 * j..p + 512 * (j + 1)] == BlocksOf(card, h, n)[j] {
      assert HoldsBlock(b, p, card, h, j);
    }
  }

  /** One round of that loop, as the next block of the transfer that began at h. */
  method ReceiveNext(spi: Spi, dst: array<byte>, p: nat, ghost h: seq<byte>, ghost k: nat) returns (ok: bool)
    requires p + BLOCK <= dst.Length
    requires spi.sent == BlockStart(spi.card, h, k) && HasToken(spi.card, spi.sent)
    modifies spi`sent, dst
    ensures spi.sent == BlockStart(spi.card, h, k + 1)
    ensures dst[p..p + BLOCK] == BlockAt(spi.card, h, k) && ok == BlockOk(spi.card, h, k)
    ensures forall i :: 0 <= i < dst.Length && !(p <= i < p + BLOCK) ==> dst[i] == old(dst[i])
  {
    hide CrcOk, Start, Received, HasToken;
    ok := ReceiveBlock(spi, dst, p);
  }

  /** The loop of sd_copy over the blocks. */
  method Transfer(spi: Spi, dst: array<byte>, p: nat, size: nat) returns (rc: nat, ghost done: nat)
    requires p + BLOCK * Blocks(size) <= dst.Length
    requires Served(spi.card, spi.sent, Blocks(size))
    modifies spi`sent, dst
    ensures 1 <= done <= Blocks(size)
    ensures forall i :: 0 <= i < dst.Length && !(p <= i < p + BLOCK * done) ==> dst[i] == old(dst[i])
    ensures AllOk(spi.card, old(spi.sent), done - 1)
    ensures Holds(dst[..], p, spi.card, old(spi.sent), done)
    ensures spi.sent == BlockStart(spi.card, old(spi.sent), done)
    ensures rc == if BlockOk(spi.card, old(spi.sent), done - 1) then 0 else SD_COPY_ERROR_CMD18_CRC
    ensures rc == 0 ==> done == Blocks(size)
  {
    hide BlockOk, BlockAt, HasToken, Holds;
    ghost var h := spi.sent;
    var i: int := size;
    var q := p;
    rc := 0;
    done := 0;
    HoldsNone(dst[..], p, spi.card, h);
    var first := true;
    while first || (rc == 0 && i > 0)
      invariant done <= Blocks(size) && first == (done == 0)
      invariant rc == 0 || rc == SD_COPY_ERROR_CMD18_CRC
      invariant i == size - done && q == p + BLOCK * done
      invariant spi.sent == BlockStart(spi.card, h, done)
      invariant Holds(dst[..], p, spi.card, h, done)
      invariant rc == 0 ==> AllOk(spi.card, h, done)
      invariant rc != 0 ==> 1 <= done && AllOk(spi.card, h, done - 1) && !BlockOk(spi.card, h, done - 1)
      invariant forall j :: 0 <= j < dst.Length && !(p <= j < q) ==> dst[j] == old(dst[j])
      decreases Blocks(size) - done
    {
      ghost var before := dst[..];
      var ok := ReceiveNext(spi, dst, q, h, done);
      HoldsMore(before, dst[..], p, spi.card, h, done);
      first := false;
      done := done + 1;
      q := q + BLOCK;
      if !ok {
        rc := SD_COPY_ERROR_CMD18_CRC;
      }
      i := i - 1;
    }
  }

  /** Where block k of a transfer to p lies in the buffer. */
  function BlockPos(p: nat, k: nat): nat {
    p + BLOCK * k
  }

  lemma {:induction false} BlockPosOrder(p: nat, j: nat, k: nat)
    requires j < k
    ensures BlockPos(p, j) + BLOCK == BlockPos(p, j + 1) <= BlockPos(p, k)
  {
  }

  lemma {:induction false} SliceSame(a: seq<byte>, b: seq<byte>, lo: nat, hi: nat)
    requires lo <= hi && Same(a, b, lo, hi)
    ensures a[lo..hi] == b[lo..hi]
  {
  }

  lemma {:induction false} HoldsNone(b: seq<byte>, p: nat, card: Card, h: seq<byte>)
    requires p <= |b|
    ensures Holds(b, p, card, h, 0)
  {
  }

  lemma {:induction false} HoldsMore(a: seq<byte>, b: seq<byte>, p: nat, card: Card, h: seq<byte>, k: nat)
    requires Holds(a, p, card, h, k)
    requires |a| == |b| && p + BLOCK * (k + 1) <= |b|
    requires forall i :: 0 <= i < p + BLOCK * k ==> a[i] == b[i]
    requires b[p + BLOCK * k..p + BLOCK * k + BLOCK] == BlockAt(card, h, k)
    ensures Holds(b, p, card, h, k + 1)
  {
    assert BlockPos(p, k) == p + BLOCK * k && BlockPos(p, k + 1) == p + BLOCK * (k + 1);
    hide BlockAt, BlockPos;
    BlockPosOrder(p, k, k + 1);
    forall j | 0 <= j < k + 1 ensures HoldsBlock(b, p, card, h, j) {
      if j < k {
        assert HoldsBlock(a, p, card, h, j);
        BlockPosOrder(p, j, k);
        SliceSame(a, b, BlockPos(p, j), BlockPos(p, j + 1));
      }
    }
  }

  // ---- corruption ----------------------------------------------------------------------------

  lemma {:induction false} RawInjective(a: seq<byte>, b: seq<byte>)
    requires |a| == |b|
    ensures Raw(a) == Raw(b) ==> a == b
  {
    if Raw(a) == Raw(b) {
      forall k | 0 <= k < |a| ensures a[k] == b[k] {
        assert Raw(a)[k] == Raw(b)[k];
        ByteBits.BitsDistinct(a[k], b[k]);
      }
    }
  }

  /** A block that arrives with its original crc but differs from it within sixteen consecutive bits,
      and so one that differs within two adjacent bytes, is rejected. */
  lemma {:induction false} CorruptBlockRejected(card: Card, s: seq<byte>, b: seq<byte>, i: nat)
    requires |b| == BLOCK && SentCrc(card, s) == CrcFrom(0, Raw(b))
    requires WithinBurst(MsgBits(Raw(Received(card, s))), MsgBits(Raw(b)), i)
    ensures CrcOk(card, s) <==> Received(card, s) == b
  {
    var r := Received(card, s);
    hide CrcFrom, MsgBits;
    if r != b {
      RawInjective(r, b);
      BitBurstDetected(0, Raw(r), Raw(b), i);
    }
  }

  // ---- a card that holds a disk --------------------------------------------------------------

  /** Whatever passes the crc check after the read command is the disk's content. */
  ghost predicate ServesDisk(card: Card, h: seq<byte>, disk: seq<byte>, lba: nat, n: nat)
    requires BLOCK * (lba + n) <= |disk|
  {
    && Served(card, h, n)
    && forall k :: 0 <= k < n && AllOk(card, h, k + 1) ==>
                     BlockAt(card, h, k) == disk[BLOCK * (lba + k)..BLOCK * (lba + k + 1)]
  }

  ghost predicate Faithful(card: Card, disk: seq<byte>) {
    forall h: seq<byte>, lba: uint32, n: nat :: BLOCK * (lba + n) <= |disk| && Accepted(card, h, lba) ==>
      ServesDisk(card, AfterRead(card, h, lba), disk, lba, n)
  }

  /** The block at s comes with the checksum of b and is b but for one burst of at most sixteen bits. */
  ghost predicate Delivered(card: Card, s: seq<byte>, b: seq<byte>) {
    && |b| == BLOCK && SentCrc(card, s) == CrcFrom(0, Raw(b))
    && exists i: nat :: WithinBurst(MsgBits(Raw(Received(card, s))), MsgBits(Raw(b)), i)
  }

  /** The blocks of a read, up to the first one that is rejected, are delivered, damaged or not. */
  ghost predicate Delivers(card: Card, h: seq<byte>, disk: seq<byte>, lba: nat, n: nat)
    requires BLOCK * (lba + n) <= |disk|
  {
    forall k :: 0 <= k < n && AllOk(card, h, k) ==>
      HasToken(card, BlockStart(card, h, k))
      && Delivered(card, Start(card, BlockStart(card, h, k)), disk[BLOCK * (lba + k)..BLOCK * (lba + k + 1)])
  }

  /** A card on whose way every block may suffer a burst is faithful: no damaged block is taken for
      the disk's, so whatever is proved of faithful cards holds of it. */
  lemma {:induction false} DamageDetected(card: Card, disk: seq<byte>)
    requires forall h: seq<byte>, lba: uint32, n: nat :: BLOCK * (lba + n) <= |disk| && Accepted(card, h, lba) ==>
               Delivers(card, AfterRead(card, h, lba), disk, lba, n)
    ensures Faithful(card, disk)
  {
    hide Accepted, AfterRead, Delivers, ServesDisk;
    forall h: seq<byte>, lba: uint32, n: nat | BLOCK * (lba + n) <= |disk| && Accepted(card, h, lba)
      ensures ServesDisk(card, AfterRead(card, h, lba), disk, lba, n)
    {
      DeliversServes(card, AfterRead(card, h, lba), disk, lba, n);
    }
  }

  lemma {:induction false} DeliversServes(card: Card, h: seq<byte>, disk: seq<byte>, lba: nat, n: nat)
    requires BLOCK * (lba + n) <= |disk| && Delivers(card, h, disk, lba, n)
    ensures ServesDisk(card, h, disk, lba, n)
  {
    hide HasToken, BlockStart, Start, CrcOk, Received, SentCrc, MsgBits, CrcFrom;
    forall k | 0 <= k < n && AllOk(card, h, k + 1)
      ensures BlockAt(card, h, k) == disk[BLOCK * (lba + k)..BLOCK * (lba + k + 1)]
    {
      var s, b := Start(card, BlockStart(card, h, k)), disk[BLOCK * (lba + k)..BLOCK * (lba + k + 1)];
      assert BlockOk(card, h, k) && AllOk(card, h, k) && Delivered(card, s, b);
      var i: nat :| WithinBurst(MsgBits(Raw(Received(card, s))), MsgBits(Raw(b)), i);
      CorruptBlockRejected(card, s, b, i);
    }
  }

  /** The card accepts every read of the disk and no bit is lost on the way. */
  ghost predicate Reliable(card: Card, disk: seq<byte>) {
    forall h: seq<byte>, lba: uint32, n: nat :: BLOCK * (lba + n) <= |disk| ==> Succeeds(card, h, lba, n)
  }

  /** A read of n blocks is accepted and all the blocks agree with their crcs. */
  ghost predicate Succeeds(card: Card, h: seq<byte>, lba: uint32, n: nat) {
    Accepted(card, h, lba) && AllOk(card, AfterRead(card, h, lba), n)
  }

  lemma {:induction false} JoinBlocks(b: seq<byte>, p: nat, disk: seq<byte>, lba: nat, n: nat)
    requires BLOCK * (lba + n) <= |disk| && p + BLOCK * n <= |b|
    requires forall j :: 0 <= j < n ==>
               b[p + BLOCK * j..p + BLOCK * (j + 1)] == disk[BLOCK * (lba + j)..BLOCK * (lba + j + 1)]
    ensures b[p..p + BLOCK * n] == disk[BLOCK * lba..BLOCK * (lba + n)]
    decreases n
  {
    if n > 0 {
      var m := n - 1;
      JoinBlocks(b, p, disk, lba, m);
      assert b[p..p + BLOCK * n] == b[p..p + BLOCK * m] + b[p + BLOCK * m..p + BLOCK * n];
      assert disk[BLOCK * lba..BLOCK * (lba + n)]
          == disk[BLOCK * lba..BLOCK * (lba + m)] + disk[BLOCK * (lba + m)..BLOCK * (lba + n)];
    }
  }

  lemma {:induction false} ReliableRead(card: Card, disk: seq<byte>, h: seq<byte>, lba: uint32, n: nat)
    requires Reliable(card, disk) && BLOCK * (lba + n) <= |disk|
    ensures Accepted(card, h, lba) && AllOk(card, AfterRead(card, h, lba), n)
  {
    assert Succeeds(card, h, lba, n);
  }

  /** sd_copy on a card that holds a disk: success means the disk's blocks. */
  method ReadBlocks(spi: Spi, dst: array<byte>, p: nat, lba: uint32, size: nat, ghost disk: seq<byte>) returns (rc: nat)
    requires size > 0 && p + BLOCK * size <= dst.Length
    requires BLOCK * (lba + size) <= |disk| && Faithful(spi.card, disk)
    modifies spi, dst
    ensures rc == 0 ==> dst[p..p + BLOCK * size] == disk[BLOCK * lba..BLOCK * (lba + size)]
    ensures Reliable(spi.card, disk) ==> rc == 0
    ensures Sends(spi.card, old(spi.sent), Request(lba, size), spi.sent)
    ensures forall i :: 0 <= i < dst.Length && !(p <= i < p + BLOCK * size) ==> dst[i] == old(dst[i])
  {
    hide Accepted, AfterRead, BlockOk, Reliable, Copies, Holds, Served;
    ghost var h := AfterRead(spi.card, spi.sent, lba);
    assert Accepted(spi.card, spi.sent, lba) ==> ServesDisk(spi.card, h, disk, lba, size);
    ghost var done, bs;
    rc, done, bs := SdCopy(spi, dst, p, lba, size);
    assert Sends(spi.card, old(spi.sent), Request(lba, size), spi.sent);
    if rc == 0 {
      HeldDisk(spi.card, h, dst[..], p, disk, lba, size);
    }
    if Reliable(spi.card, disk) {
      ReliableRead(spi.card, disk, old(spi.sent), lba, size);
    }
  }

  lemma {:induction false} HeldDisk(card: Card, h: seq<byte>, b: seq<byte>, p: nat, disk: seq<byte>, lba: nat, n: nat)
    requires BLOCK * (lba + n) <= |disk| && ServesDisk(card, h, disk, lba, n)
    requires AllOk(card, h, n) && Holds(b, p, card, h, n)
    ensures b[p..p + BLOCK * n] == disk[BLOCK * lba..BLOCK * (lba + n)]
  {
    forall j | 0 <= j < n
      ensures b[p + BLOCK * j..p + BLOCK * (j + 1)] == disk[BLOCK * (lba + j)..BLOCK * (lba + j + 1)]
    {
      assert HoldsBlock(b, p, card, h, j) && AllOk(card, h, j + 1);
    }
    JoinBlocks(b, p, disk, lba, n);
  }
}
