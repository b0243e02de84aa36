/** dt_write_int and dt_add_reg_prop: numbers of any whole number of cells, big-endian. */
module DtReg {
  import opened Bytes
  import opened DtNode
  import opened DtProps
  import opened Endian

  const REG: seq<byte> := Ascii("reg")

  function Pow256(n: nat): (p: nat)
    ensures p > 0
  {
    if n == 0 then 1 else Pow256(n - 1) * 256
  }

  lemma {:induction false} ValueBound(d: seq<byte>)
    ensures BigEndian(d) < Pow256(|d|)
  {
    if d != [] {
      ValueBound(d[..|d| - 1]);
    }
  }

  /** The last n bytes of v, most significant first. */
  function Digits(v: nat, n: nat): (d: seq<byte>)
    ensures |d| == n
  {
    if n == 0 then [] else Digits(v / 256, n - 1) + [v % 256]
  }

  /** What is left of v above its last n bytes. */
  function Above(v: nat, n: nat): nat {
    if n == 0 then v else Above(v / 256, n - 1)
  }

  /** Storing a number and reading it back gives the number modulo what fits: what is too much is cut
      off at the top, and nothing is lost when the number fits. */
  lemma {:induction false} DigitsValue(v: nat, n: nat)
    ensures BigEndian(Digits(v, n)) < Pow256(n)
    ensures v == Above(v, n) * Pow256(n) + BigEndian(Digits(v, n))
    ensures v < Pow256(n) ==> BigEndian(Digits(v, n)) == v
  {
    ValueBound(Digits(v, n));
    if n > 0 {
      DigitsValue(v / 256, n - 1);
      assert Digits(v, n)[..n - 1] == Digits(v / 256, n - 1);
      Horner(v, Above(v, n), Pow256(n - 1), BigEndian(Digits(v / 256, n - 1)));
    }
    AtLeastOnce(Above(v, n), Pow256(n));
  }

  lemma {:induction false} Horner(v: nat, h: nat, p: nat, x: nat)
    requires v / 256 == h * p + x
    ensures v == h * (p * 256) + (x * 256 + v % 256)
  {
    assert h * (p * 256) == h * p * 256;
  }

  lemma {:induction false} AtLeastOnce(h: nat, p: nat)
    ensures h == 0 || h * p >= p
  {
  }

  /** Every byte string is the digits of the number it stores. */
  lemma {:induction false} ValueDigits(d: seq<byte>)
    ensures Digits(BigEndian(d), |d|) == d
  {
    if d != [] {
      ValueDigits(d[..|d| - 1]);
    }
  }

  /** dt_write_int */
  method WriteInt(dest: array<byte>, o: nat, src: nat, length: nat)
    requires o + length <= dest.Length
    modifies dest
    ensures dest[o..o + length] == Digits(src, length)
    ensures forall i :: 0 <= i < dest.Length && !(o <= i < o + length) ==> dest[i] == old(dest[i])
  {
    var v: nat, n: nat := src, length;
    while n > 0
      invariant 0 <= n <= length
      invariant forall i :: 0 <= i < dest.Length && !(o + n <= i < o + length) ==> dest[i] == old(dest[i])
      invariant Digits(v, n) + dest[o + n..o + length] == Digits(src, length)
    {
      ghost var tail := dest[o + n..o + length];
      n := n - 1;
      dest[o + n] := v % 256;
      assert dest[o + n..o + length] == [v % 256] + tail;
      v := v / 256;
    }
  }

  /** Where entry i starts if every entry takes w bytes. */
  function Off(w: nat, i: nat): nat {
    if i == 0 then 0 else Off(w, i - 1) + w
  }

  lemma {:induction false} OffIsMul(w: nat, i: nat)
    ensures Off(w, i) == w * i
  {
    if i > 0 {
      OffIsMul(w, i - 1);
      assert w * i == w * (i - 1) + w;
    }
  }

  lemma {:induction false} OffMono(w: nat, i: nat, j: nat)
    requires i < j
    ensures Off(w, i) + w <= Off(w, j)
  {
    if i < j - 1 {
      OffMono(w, i, j - 1);
    }
  }

  /** The first n entries of a "reg" value: each an address of a bytes and a size of s bytes. */
  function RegData(addrs: seq<nat>, sizes: seq<nat>, n: nat, a: nat, s: nat): (d: seq<byte>)
    requires n <= |addrs| && n <= |sizes|
    ensures |d| == Off(a + s, n)
  {
    if n == 0 then []
    else RegData(addrs, sizes, n - 1, a, s) + (Digits(addrs[n - 1], a) + Digits(sizes[n - 1], s))
  }

  /** One round of the loop of dt_add_reg_prop. */
  method WriteEntry(data: array<byte>, cur: nat, addr: nat, size: nat, a: nat, s: nat)
    requires cur + a + s <= data.Length
    modifies data
    ensures data[..cur + a + s] == old(data[..cur]) + (Digits(addr, a) + Digits(size, s))
  {
    ghost var before := data[..cur];
    WriteInt(data, cur, addr, a);
    assert data[..cur + a] == before + Digits(addr, a);
    ghost var half := data[..cur + a];
    WriteInt(data, cur + a, size, s);
    assert data[..cur + a + s] == half + Digits(size, s);
  }

  /** dt_add_reg_prop */
  method AddRegProp(node: Node, addrs: seq<nat>, sizes: seq<nat>, count: nat, addrCells: nat, sizeCells: nat)
    requires count == |addrs| == |sizes| && addrCells + sizeCells < 0x1_0000_0000
    modifies node`properties
    ensures node.properties
         == SetProp(old(node.properties), Ascii("reg"), RegData(addrs, sizes, count, addrCells * 4, sizeCells * 4))
  {
    var a, s := addrCells * 4, sizeCells * 4;
    var length := (a + s) * count;
    OffIsMul(a + s, count);
    var data := new byte[length];
    var cur := 0;
    for i := 0 to count
      invariant cur == Off(a + s, i) <= length
      invariant data[..cur] == RegData(addrs, sizes, i, a, s)
      invariant node.properties == old(node.properties)
    {
      OffMono(a + s, i, count);
      WriteEntry(data, cur, addrs[i], sizes[i], a, s);
      cur := cur + a + s;
    }
    assert data[..cur] == data[..];
    AddBinProp(node, REG, data[..]);
  }

  /** Reading entry i of a "reg" value gives the address and the size it was built from, when they
      fit their cells. */
  lemma {:induction false} RegEntry(addrs: seq<nat>, sizes: seq<nat>, n: nat, a: nat, s: nat, i: nat)
    requires i < n <= |addrs| && n <= |sizes|
    ensures var d, o := RegData(addrs, sizes, n, a, s), Off(a + s, i);
            && o + a + s <= |d|
            && (addrs[i] < Pow256(a) ==> BigEndian(d[o..o + a]) == addrs[i])
            && (sizes[i] < Pow256(s) ==> BigEndian(d[o + a..o + a + s]) == sizes[i])
  {
    hide BigEndian, Digits, Pow256;
    EntryAt(addrs, sizes, n, a, s, i);
    DigitsValue(addrs[i], a);
    DigitsValue(sizes[i], s);
  }

  lemma {:induction false} EntryAt(addrs: seq<nat>, sizes: seq<nat>, n: nat, a: nat, s: nat, i: nat)
    requires i < n <= |addrs| && n <= |sizes|
    ensures var d, o := RegData(addrs, sizes, n, a, s), Off(a + s, i);
            && o + a + s <= |d|
            && d[o..o + a] == Digits(addrs[i], a) && d[o + a..o + a + s] == Digits(sizes[i], s)
  {
    hide Digits;
    var d, o := RegData(addrs, sizes, n, a, s), Off(a + s, i);
    var e, x, y := RegData(addrs, sizes, n - 1, a, s), Digits(addrs[n - 1], a), Digits(sizes[n - 1], s);
    assert d == e + (x + y);
    OffMono(a + s, i, n);
    hide RegData, Off;
    if i < n - 1 {
      EntryAt(addrs, sizes, n - 1, a, s, i);
      SliceOfFront(e, x + y, o, o + a);
      SliceOfFront(e, x + y, o + a, o + a + s);
    } else {
      SliceOfBack(e, x, y);
    }
  }

  lemma {:induction false} SliceOfBack(e: seq<byte>, x: seq<byte>, y: seq<byte>)
    ensures var d, m := e + (x + y), |e| + |x|;
            d[|e|..m] == x && d[m..m + |y|] == y
  {
  }

  lemma {:induction false} SliceOfFront(e: seq<byte>, f: seq<byte>, i: nat, j: nat)
    requires i <= j <= |e|
    ensures (e + f)[i..j] == e[i..j]
  {
  }
}
