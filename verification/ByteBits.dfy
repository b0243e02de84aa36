/** A byte as a number and as eight bits. */
module ByteBits {
  lemma {:induction false} ByteAsBits(x: int)
    requires 0 <= x < 256
    ensures (x as bv8) as int == x
  {
  }

  lemma {:induction false} BitsDistinct(x: int, y: int)
    requires 0 <= x < 256 && 0 <= y < 256
    requires x as bv8 == y as bv8
    ensures x == y
  {
    ByteAsBits(x);
    ByteAsBits(y);
  }
}
