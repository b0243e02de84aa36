/** fu540_read of platform/hifive-unleashed/platform.c: bytes at any offset, read in whole blocks. */
module BlockRead {
  import opened Bytes
  import opened SdCard

  /** A request for at least one block, within the blocks that cover the bytes asked for. */
  ghost predicate Covered(r: Request, offset: nat, size: nat)
    requires offset + size > 0
  {
    r.count > 0 && offset / BLOCK <= r.lba && r.lba + r.count - 1 <= (offset + size - 1) / BLOCK
  }

  /** The requests are for at least one block each and follow each other from block a to block b. */
  ghost predicate Tiles(rs: seq<Request>, a: int, b: int) {
    if rs == [] then a == b
    else
      var r := rs[|rs| - 1];
      r.count > 0 && r.lba + r.count == b && Tiles(rs[..|rs| - 1], a, r.lba)
  }

  lemma {:induction false} TilesMore(rs: seq<Request>, a: int, r: Request)
    requires Tiles(rs, a, r.lba) && r.count > 0
    ensures Tiles(rs + [r], a, r.lba + r.count)
  {
    assert (rs + [r])[..|rs + [r]| - 1] == rs;
  }

  /** A disk that 32-bit block addresses reach. */
  ghost predicate IsDisk(disk: seq<byte>) {
    |disk| % BLOCK == 0 && |disk| <= BLOCK * 0x1_0000_0000
  }

  /** memcpy(buff + at, tmp + o, l) of the bytes that make up disk[from..from + l]. */
  method CopyOut(buff: array<byte>, at: nat, tmp: array<byte>, o: nat, l: nat)
    requires at + l <= buff.Length && o + l <= tmp.Length && buff != tmp
    modifies buff
    ensures buff[at..at + l] == tmp[o..o + l]
    ensures forall i :: 0 <= i < buff.Length && !(at <= i < at + l) ==> buff[i] == old(buff[i])
  {
    var part := tmp[o..o + l];
    MemCpy(buff, at, part);
    assert forall i :: 0 <= i < l ==> buff[at..at + l][i] == part[i];
  }

  lemma {:induction false} SliceOfSlice(s: seq<byte>, a: nat, b: nat, c: nat, d: nat)
    requires a <= b <= |s| && c <= d <= b - a
    ensures s[a..b][c..d] == s[a + c..a + d]
  {
    var x, y := s[a..b][c..d], s[a + c..a + d];
    assert forall i :: 0 <= i < d - c ==> x[i] == y[i];
  }

  /** One block through the bounce buffer: the part [o, o + l) of block lba goes to buff + at. */
  method ReadPart(spi: Spi, lba: uint32, o: nat, l: nat, buff: array<byte>, at: nat, tmp: array<byte>,
                  ghost disk: seq<byte>) returns (ok: bool)
    requires o + l <= BLOCK && at + l <= buff.Length && tmp.Length == BLOCK && buff != tmp
    requires BLOCK * (lba + 1) <= |disk| && Faithful(spi.card, disk)
    modifies spi, buff, tmp
    ensures ok ==> buff[at..at + l] == disk[BLOCK * lba + o..BLOCK * lba + o + l]
    ensures Reliable(spi.card, disk) ==> ok
    ensures !ok ==> buff[..] == old(buff[..])
    ensures Sends(spi.card, old(spi.sent), Request(lba, 1), spi.sent)
    ensures forall i :: 0 <= i < buff.Length && !(at <= i < at + l) ==> buff[i] == old(buff[i])
  {
    hide Sends;
    var rc := ReadBlocks(spi, tmp, 0, lba, 1, disk);
    if rc != 0 {
      return false;
    }
    CopyOut(buff, at, tmp, o, l);
    ghost var t := tmp[..];
    assert tmp[0..BLOCK * 1] == t[0..BLOCK] && tmp[o..o + l] == t[o..o + l];
    SliceOfSlice(t, 0, BLOCK, o, o + l);
    SliceOfSlice(disk, BLOCK * lba, BLOCK * (lba + 1), o, o + l);
    return true;
  }

  /** fu540_read, for everything but no bytes at offset 0.  A successful read leaves exactly the
      disk's bytes in the buffer; it writes nothing behind them.  What it sends is what sd_copy sends
      for the requests: each is for at least one of the covering blocks, and a successful read
      requests every covering block once, in order.  A failed read within one block leaves the buffer
      alone. */
  method Read(spi: Spi, offset: nat, size: nat, buff: array<byte>, ghost disk: seq<byte>)
    returns (ok: bool, ghost requests: seq<Request>)
    requires offset + size > 0 && size <= buff.Length
    requires IsDisk(disk) && offset + size <= |disk| && Faithful(spi.card, disk)
    modifies spi, buff
    ensures ok ==> buff[..size] == disk[offset..offset + size]
    ensures Reliable(spi.card, disk) ==> ok
    ensures forall i :: size <= i < buff.Length ==> buff[i] == old(buff[i])
    ensures SendsAll(spi.card, old(spi.sent), requests, spi.sent)
    ensures forall r :: r in requests ==> Covered(r, offset, size)
    ensures ok ==> Tiles(requests, offset / BLOCK, (offset + size - 1) / BLOCK + 1)
    ensures !ok && offset / BLOCK == (offset + size - 1) / BLOCK ==> buff[..] == old(buff[..])
  {
    hide Faithful, Reliable, Sends;
    var tmp := new byte[BLOCK];
    if offset / BLOCK == (offset + size - 1) / BLOCK {
      ghost var r := Request(offset / BLOCK, 1);
      requests := [r];
      ok := ReadPart(spi, offset / BLOCK, offset % BLOCK, size, buff, 0, tmp, disk);
      SendsMore(spi.card, old(spi.sent), [], old(spi.sent), r, spi.sent);
      TilesMore([], offset / BLOCK, r);
    } else {
      ok, requests := ReadSpan(spi, offset, size, buff, tmp, disk);
    }
  }

  /** How many bytes of a span over several blocks lie in its first, partial block. */
  function Head(offset: nat): nat {
    if offset % BLOCK != 0 then BLOCK - offset % BLOCK else 0
  }

  /** How many bytes lie in its last, partial block. */
  function Tail(offset: nat, size: nat): nat {
    (offset + size) % BLOCK
  }

  function Has(n: nat): nat {
    if n % BLOCK != 0 then 1 else 0
  }

  /** Head and tail border on the whole blocks between them, of which there may be none. */
  lemma {:induction false} SpanParts(offset: nat, size: nat)
    requires offset + size > 0 && offset / BLOCK != (offset + size - 1) / BLOCK
    ensures var first, last := offset / BLOCK + Has(offset), (offset + size - 1) / BLOCK - Has(offset + size);
            && offset + Head(offset) == BLOCK * first
            && offset + size - Tail(offset, size) == BLOCK * (last + 1)
            && first <= last + 1
    ensures Head(offset) <= size && Tail(offset, size) <= size
    ensures Head(offset) == (if Has(offset) == 1 then BLOCK - offset % BLOCK else 0) && 0 <= Has(offset) <= 1
    ensures Tail(offset, size) == 0 <==> Has(offset + size) == 0
    ensures 0 <= Has(offset + size) <= 1 && Tail(offset, size) == (offset + size) % BLOCK < BLOCK
  {
    var n := (offset + size - 1) / BLOCK;
    assert (offset + size) % BLOCK == 0 ==> (offset + size) / BLOCK == n + 1;
    assert (offset + size) % BLOCK != 0 ==> (offset + size) / BLOCK == n;
  }

  /** The requests of a span so far: sent, and tiling the blocks from the first one up to block b. */
  ghost predicate Requested(card: Card, h: seq<byte>, rs: seq<Request>, h': seq<byte>, offset: nat, b: int) {
    SendsAll(card, h, rs, h') && Tiles(rs, offset / BLOCK, b)
  }

  /** One more request, for the next blocks. */
  lemma {:induction false} RequestedMore(card: Card, h: seq<byte>, rs: seq<Request>, m: seq<byte>, offset: nat,
                                         r: Request, h': seq<byte>)
    requires Requested(card, h, rs, m, offset, r.lba) && r.count > 0 && Sends(card, m, r, h')
    ensures Requested(card, h, rs + [r], h', offset, r.lba + r.count)
  {
    SendsMore(card, h, rs, m, r, h');
    TilesMore(rs, offset / BLOCK, r);
  }

  /** What tiles a range lies in it. */
  lemma {:induction false} TilesCovered(rs: seq<Request>, a: int, b: int, r: Request)
    requires Tiles(rs, a, b) && r in rs
    ensures r.count > 0 && a <= r.lba && r.lba + r.count <= b
    decreases |rs|
  {
    var n := |rs| - 1;
    TilesOrder(rs[..n], a, rs[n].lba);
    if r != rs[n] {
      TilesCovered(rs[..n], a, rs[n].lba, r);
    }
  }

  lemma {:induction false} TilesOrder(rs: seq<Request>, a: int, b: int)
    requires Tiles(rs, a, b)
    ensures a <= b
    decreases |rs|
  {
    if rs != [] {
      TilesOrder(rs[..|rs| - 1], a, rs[|rs| - 1].lba);
    }
  }

  /** The case of several blocks: head, middle and tail. */
  method ReadSpan(spi: Spi, offset: nat, size: nat, buff: array<byte>, tmp: array<byte>, ghost disk: seq<byte>)
    returns (ok: bool, ghost requests: seq<Request>)
    requires offset + size > 0 && size <= buff.Length && tmp.Length == BLOCK && buff != tmp
    requires IsDisk(disk) && offset + size <= |disk| && Faithful(spi.card, disk)
    requires offset / BLOCK != (offset + size - 1) / BLOCK
    modifies spi, buff, tmp
    ensures ok ==> buff[..size] == disk[offset..offset + size]
    ensures Reliable(spi.card, disk) ==> ok
    ensures forall i :: size <= i < buff.Length ==> buff[i] == old(buff[i])
    ensures SendsAll(spi.card, old(spi.sent), requests, spi.sent)
    ensures forall r :: r in requests ==> Covered(r, offset, size)
    ensures ok ==> Tiles(requests, offset / BLOCK, (offset + size - 1) / BLOCK + 1)
  {
    hide Faithful, Reliable, Sends, SendsAll, Tiles;
    SpanParts(offset, size);
    ghost var h := spi.sent;
    ghost var last := (offset + size - 1) / BLOCK;
    ok, requests := ReadHead(spi, offset, size, buff, tmp, disk);
    ghost var end := offset / BLOCK + Has(offset);
    if ok {
      ok, requests := ReadMiddle(spi, offset, size, buff, disk, h, requests);
      end := last + 1 - Has(offset + size);
    }
    if ok {
      ok, requests := ReadTail(spi, offset, size, buff, tmp, disk, h, requests);
      end := last + 1;
    }
    forall r | r in requests ensures Covered(r, offset, size) {
      TilesCovered(requests, offset / BLOCK, end, r);
    }
  }

  method ReadHead(spi: Spi, offset: nat, size: nat, buff: array<byte>, tmp: array<byte>, ghost disk: seq<byte>)
    returns (ok: bool, ghost requests: seq<Request>)
    requires offset + size > 0 && size <= buff.Length && tmp.Length == BLOCK && buff != tmp
    requires IsDisk(disk) && offset + size <= |disk| && Faithful(spi.card, disk)
    requires offset / BLOCK != (offset + size - 1) / BLOCK
    modifies spi, buff, tmp
    ensures Head(offset) <= size && (ok ==> buff[..Head(offset)] == disk[offset..offset + Head(offset)])
    ensures Reliable(spi.card, disk) ==> ok
    ensures forall i :: size <= i < buff.Length ==> buff[i] == old(buff[i])
    ensures Requested(spi.card, old(spi.sent), requests, spi.sent, offset, offset / BLOCK + Has(offset))
  {
    hide Faithful, Reliable, Sends, Head, Tail, Has;
    SpanParts(offset, size);
    ok, requests := true, [];
    var hasBegin := Has(offset);
    if hasBegin == 1 {
      var o := offset % BLOCK;
      ok := ReadPart(spi, offset / BLOCK, o, BLOCK - o, buff, 0, tmp, disk);
      ghost var r := Request(offset / BLOCK, 1);
      RequestedMore(spi.card, old(spi.sent), [], old(spi.sent), offset, r, spi.sent);
      requests := [] + [r];
    }
  }

  /** Whole blocks, directly behind the o bytes that are already in the buffer. */
  method ReadWhole(spi: Spi, lba: uint32, count: nat, buff: array<byte>, o: nat, ghost disk: seq<byte>,
                   ghost offset: nat)
    returns (ok: bool)
    requires count > 0 && o + BLOCK * count <= buff.Length && offset + o == BLOCK * lba
    requires BLOCK * (lba + count) <= |disk| && Faithful(spi.card, disk)
    requires buff[..o] == disk[offset..offset + o]
    modifies spi, buff
    ensures ok ==> buff[..o + BLOCK * count] == disk[offset..offset + o + BLOCK * count]
    ensures Reliable(spi.card, disk) ==> ok
    ensures forall i :: o + BLOCK * count <= i < buff.Length ==> buff[i] == old(buff[i])
    ensures Sends(spi.card, old(spi.sent), Request(lba, count), spi.sent)
  {
    hide Faithful, Reliable, Sends;
    ghost var was := buff[..];
    var rc := ReadBlocks(spi, buff, o, lba, count, disk);
    ok := rc == 0;
    if ok {
      Append(was, buff[..], o, o + BLOCK * count, disk, offset);
    }
  }

  method ReadMiddle(spi: Spi, offset: nat, size: nat, buff: array<byte>, ghost disk: seq<byte>,
                    ghost h: seq<byte>, ghost before: seq<Request>)
    returns (ok: bool, ghost requests: seq<Request>)
    requires offset + size > 0 && size <= buff.Length
    requires IsDisk(disk) && offset + size <= |disk| && Faithful(spi.card, disk)
    requires offset / BLOCK != (offset + size - 1) / BLOCK
    requires Head(offset) <= size && buff[..Head(offset)] == disk[offset..offset + Head(offset)]
    requires Requested(spi.card, h, before, spi.sent, offset, offset / BLOCK + Has(offset))
    modifies spi, buff
    ensures Tail(offset, size) <= size
    ensures ok ==> buff[..size - Tail(offset, size)] == disk[offset..offset + size - Tail(offset, size)]
    ensures Reliable(spi.card, disk) ==> ok
    ensures forall i :: size <= i < buff.Length ==> buff[i] == old(buff[i])
    ensures Requested(spi.card, h, requests, spi.sent, offset, (offset + size - 1) / BLOCK + 1 - Has(offset + size))
  {
    hide Faithful, Reliable, Sends, Requested, Head, Tail, Has;
    SpanParts(offset, size);
    ok, requests := true, before;
    var hasBegin, hasEnd := Has(offset), Has(offset + size);
    var firstLba, lastLba := offset / BLOCK, (offset + size - 1) / BLOCK;
    if firstLba + hasBegin <= lastLba - hasEnd {
      var lba := firstLba + hasBegin;
      var count := (lastLba - hasEnd) - lba + 1;
      var o := if hasBegin == 1 then BLOCK - offset % BLOCK else 0;
      ghost var sent := spi.sent;
      ok := ReadWhole(spi, lba, count, buff, o, disk, offset);
      RequestedMore(spi.card, h, before, sent, offset, Request(lba, count), spi.sent);
      requests := before + [Request(lba, count)];
    }
  }

  method ReadTail(spi: Spi, offset: nat, size: nat, buff: array<byte>, tmp: array<byte>, ghost disk: seq<byte>,
                  ghost h: seq<byte>, ghost before: seq<Request>)
    returns (ok: bool, ghost requests: seq<Request>)
    requires offset + size > 0 && size <= buff.Length && tmp.Length == BLOCK && buff != tmp
    requires IsDisk(disk) && offset + size <= |disk| && Faithful(spi.card, disk)
    requires offset / BLOCK != (offset + size - 1) / BLOCK
    requires Tail(offset, size) <= size
    requires buff[..size - Tail(offset, size)] == disk[offset..offset + size - Tail(offset, size)]
    requires Requested(spi.card, h, before, spi.sent, offset, (offset + size - 1) / BLOCK + 1 - Has(offset + size))
    modifies spi, buff, tmp
    ensures ok ==> buff[..size] == disk[offset..offset + size]
    ensures Reliable(spi.card, disk) ==> ok
    ensures forall i :: size <= i < buff.Length ==> buff[i] == old(buff[i])
    ensures Requested(spi.card, h, requests, spi.sent, offset, (offset + size - 1) / BLOCK + 1)
  {
    hide Faithful, Reliable, Sends, Requested, Head, Tail, Has;
    SpanParts(offset, size);
    ok, requests := true, before;
    var hasEnd, lba := Has(offset + size), (offset + size - 1) / BLOCK;
    if hasEnd == 1 {
      var l := (offset + size) % BLOCK;
      ghost var was, sent := buff[..], spi.sent;
      ghost var r := Request(lba, 1);
      ok := ReadPart(spi, lba, 0, l, buff, size - l, tmp, disk);
      RequestedMore(spi.card, h, before, sent, offset, r, spi.sent);
      requests := before + [r];
      if ok {
        Append(was, buff[..], size - l, size, disk, offset);
      }
    }
  }

  /** Bytes read behind bytes read earlier. */
  lemma {:induction false} Append(a: seq<byte>, b: seq<byte>, k: nat, n: nat, disk: seq<byte>, offset: nat)
    requires k <= n <= |b| && |a| == |b| && offset + n <= |disk|
    requires a[..k] == disk[offset..offset + k]
    requires forall i :: 0 <= i < k ==> a[i] == b[i]
    requires b[k..n] == disk[offset + k..offset + n]
    ensures b[..n] == disk[offset..offset + n]
  {
    assert b[..k] == a[..k];
    assert b[..n] == b[..k] + b[k..n];
    assert disk[offset..offset + n] == disk[offset..offset + k] + disk[offset + k..offset + n];
  }
}
