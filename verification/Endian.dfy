/** Numbers as bytes, most or least significant byte first, of any length. */
module Endian {
  import opened Bytes

  /** The number that d stores big-endian. */
  function BigEndian(d: seq<byte>): nat {
    if d == [] then 0 else BigEndian(d[..|d| - 1]) * 256 + d[|d| - 1]
  }

  /** The number that d stores little-endian. */
  function LittleEndian(d: seq<byte>): nat {
    if d == [] then 0 else d[0] + 256 * LittleEndian(d[1..])
  }

  lemma {:induction false} BigEndianMore(d: seq<byte>, x: byte)
    ensures BigEndian(d + [x]) == BigEndian(d) * 256 + x
  {
    assert (d + [x])[..|d|] == d;
  }

  lemma {:induction false} BigEndianFour(a: byte, b: byte, c: byte, d: byte)
    ensures BigEndian([a, b, c, d]) == (((a as int) * 256 + b) * 256 + c) * 256 + d
  {
    hide BigEndian;
    BigEndianMore([], a);
    BigEndianMore([a], b);
    BigEndianMore([a, b], c);
    BigEndianMore([a, b, c], d);
    assert [] + [a] == [a] && [a] + [b] == [a, b] && [a, b] + [c] == [a, b, c] && [a, b, c] + [d] == [a, b, c, d];
    assert BigEndian([]) == 0 by {
      BigEndianNone();
    }
  }

  lemma {:induction false} BigEndianNone()
    ensures BigEndian([]) == 0
  {
  }

  /** be32_to_cpu of a word is the number that its four bytes store big-endian. */
  lemma {:induction false} Word32Is(b: seq<byte>, o: nat)
    requires o + 4 <= |b|
    ensures Word32(b, o) == BigEndian(b[o..o + 4])
  {
    hide BigEndian;
    BigEndianFour(b[o], b[o + 1], b[o + 2], b[o + 3]);
    assert b[o..o + 4] == [b[o], b[o + 1], b[o + 2], b[o + 3]];
  }

  lemma {:induction false} BigEndianConcat(d: seq<byte>, e: seq<byte>)
    requires |e| == 4
    ensures BigEndian(d + e) == BigEndian(d) * 0x1_0000_0000 + BigEndian(e)
  {
    hide BigEndian;
    var a, b, c, x := e[0], e[1], e[2], e[3];
    BigEndianMore(d, a);
    BigEndianMore(d + [a], b);
    BigEndianMore(d + [a] + [b], c);
    BigEndianMore(d + [a] + [b] + [c], x);
    BigEndianFour(a, b, c, x);
    assert e == [a, b, c, x] && d + e == d + [a] + [b] + [c] + [x];
  }

  /** be64_to_cpu likewise. */
  lemma {:induction false} Word64Is(b: seq<byte>, o: nat)
    requires o + 8 <= |b|
    ensures Word64(b, o) == BigEndian(b[o..o + 8])
  {
    hide BigEndian, Word32;
    Word32Is(b, o);
    Word32Is(b, o + 4);
    BigEndianConcat(b[o..o + 4], b[o + 4..o + 8]);
    assert b[o..o + 8] == b[o..o + 4] + b[o + 4..o + 8];
  }

  /** cpu_to_be32 stores the number big-endian. */
  lemma {:induction false} Be32Is(w: nat)
    requires w < 0x1_0000_0000
    ensures |Be32(w)| == 4 && BigEndian(Be32(w)) == w
  {
    hide BigEndian, Word32, Be32;
    Word32Is(Be32(w), 0);
    assert Be32(w)[0..4] == Be32(w);
  }

  /** cpu_to_be64 likewise. */
  lemma {:induction false} Be64Is(w: nat)
    requires w < 0x1_0000_0000_0000_0000
    ensures |Be64(w)| == 8 && BigEndian(Be64(w)) == w
  {
    hide BigEndian, Word64, Be64;
    Word64Is(Be64(w), 0);
    assert Be64(w)[0..8] == Be64(w);
  }

  lemma {:induction false} LittleEndianFour(a: byte, b: byte, c: byte, d: byte, e: seq<byte>)
    ensures LittleEndian([a, b, c, d] + e)
         == (a as int) + 0x100 * b + 0x1_0000 * c + 0x100_0000 * d + 0x1_0000_0000 * LittleEndian(e)
  {
    var s := [a, b, c, d] + e;
    assert s[1..] == [b, c, d] + e && s[1..][1..] == [c, d] + e;
    assert s[1..][1..][1..] == [d] + e && s[1..][1..][1..][1..] == e;
    var s1, s2, s3 := [b, c, d] + e, [c, d] + e, [d] + e;
    assert LittleEndian(s3) == d + 256 * LittleEndian(e);
    assert LittleEndian(s2) == c + 256 * LittleEndian(s3);
    assert LittleEndian(s1) == b + 256 * LittleEndian(s2);
  }
}
