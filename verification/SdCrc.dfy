/** crc16 of platform/hifive-unleashed/sd.c: the CRC of a data block (SD Physical Layer Simplified
    Specification, section 4.5), with the generator x^16 + x^12 + x^5 + 1. */
module SdCrc {

  /** crc16: the bytes of the crc swapped, the data added, then four exclusive-ors. */
  function Crc16(crc: bv16, data: bv8): bv16 {
    Mix(Swap(crc) ^ (data as bv16))
  }

  function Swap(crc: bv16): bv16 {
    (crc >> 8) | (crc << 8)
  }

  function Mix(c2: bv16): bv16 {
    var c3 := c2 ^ ((c2 >> 4) & 0xf);
    var c4 := c3 ^ (c3 << 12);
    c4 ^ ((c4 & 0xff) << 5)
  }

  /** The loop of sd_copy that folds crc16 over a block. */
  function CrcFrom(crc: bv16, msg: seq<bv8>): bv16
    decreases |msg|
  {
    if msg == [] then crc else CrcFrom(Crc16(crc, msg[0]), msg[1..])
  }

  // ---- one bit at a time -------------------------------------------------------------------

  predicate Top(r: bv16) {
    r & 0x8000 != 0
  }

  function Shl(r: bv16): bv16 {
    r << 1
  }

  /** Taking the generator away when its leading term is there. */
  function Reduce(r: bv16, carry: bool): bv16 {
    if carry then Add(r, 0x1021) else r
  }

  /** Adding polynomials. */
  function Add(x: bv16, y: bv16): bv16 {
    x ^ y
  }

  /** Appending one bit to a message with remainder r. */
  function BitStep(r: bv16, b: bool): bv16 {
    Reduce(Shl(r), Top(r) != b)
  }

  function CrcBits(r: bv16, bits: seq<bool>): bv16
    decreases |bits|
  {
    if bits == [] then r else CrcBits(BitStep(r, bits[0]), bits[1..])
  }

  /** The bits of a byte, most significant first. */
  function ByteBits(d: bv8): seq<bool> {
    [d & 0x80 != 0, d & 0x40 != 0, d & 0x20 != 0, d & 0x10 != 0, d & 0x8 != 0, d & 0x4 != 0, d & 0x2 != 0, d & 0x1 != 0]
  }

  function MsgBits(msg: seq<bv8>): seq<bool> {
    if msg == [] then [] else ByteBits(msg[0]) + MsgBits(msg[1..])
  }

  /** Multiplying a remainder by x, modulo the generator. */
  function Times(r: bv16): bv16 {
    BitStep(r, false)
  }

  function Times2(r: bv16): bv16 {
    Times(Times(r))
  }

  function Times4(r: bv16): bv16 {
    Times2(Times2(r))
  }

  /** Multiplying by x^8. */
  function Times8(r: bv16): bv16 {
    Times4(Times4(r))
  }

  lemma {:induction false} Two(x: bv16, m: bv16, mm: bv16)
    requires m == (x << 1) ^ ((x >> 15) << 12) ^ ((x >> 15) << 5) ^ (x >> 15)
    requires mm == (m << 1) ^ ((m >> 15) << 12) ^ ((m >> 15) << 5) ^ (m >> 15)
    ensures mm == (x << 2) ^ ((x >> 14) << 12) ^ ((x >> 14) << 5) ^ (x >> 14)
  {
  }

  lemma {:induction false} Four(x: bv16, m: bv16, mm: bv16)
    requires m == (x << 2) ^ ((x >> 14) << 12) ^ ((x >> 14) << 5) ^ (x >> 14)
    requires mm == (m << 2) ^ ((m >> 14) << 12) ^ ((m >> 14) << 5) ^ (m >> 14)
    ensures mm == (x << 4) ^ ((x >> 12) << 12) ^ ((x >> 12) << 5) ^ (x >> 12)
  {
  }

  lemma {:induction false} Eight(x: bv16, m: bv16, mm: bv16, c2: bv16, c3: bv16, c4: bv16)
    requires m == (x << 4) ^ ((x >> 12) << 12) ^ ((x >> 12) << 5) ^ (x >> 12)
    requires mm == (m << 4) ^ ((m >> 12) << 12) ^ ((m >> 12) << 5) ^ (m >> 12)
    requires c2 == (x >> 8) | (x << 8)
    requires c3 == c2 ^ ((c2 >> 4) & 0xf)
    requires c4 == c3 ^ (c3 << 12)
    ensures mm == c4 ^ ((c4 & 0xff) << 5)
  {
  }

  lemma {:induction false} Carry(x: bv16)
    requires Top(x)
    ensures (x << 1) ^ 0x1021 == (x << 1) ^ ((x >> 15) << 12) ^ ((x >> 15) << 5) ^ (x >> 15)
  {
  }

  lemma {:induction false} NoCarry(x: bv16)
    requires !Top(x)
    ensures x << 1 == (x << 1) ^ ((x >> 15) << 12) ^ ((x >> 15) << 5) ^ (x >> 15)
  {
  }

  lemma {:induction false} TimesIs(x: bv16)
    ensures Times(x) == (x << 1) ^ ((x >> 15) << 12) ^ ((x >> 15) << 5) ^ (x >> 15)
  {
    if Top(x) {
      Carry(x);
    } else {
      NoCarry(x);
    }
  }

  lemma {:induction false} Times2Is(x: bv16)
    ensures Times2(x) == (x << 2) ^ ((x >> 14) << 12) ^ ((x >> 14) << 5) ^ (x >> 14)
  {
    hide Times;
    TimesIs(x);
    TimesIs(Times(x));
    Two(x, Times(x), Times(Times(x)));
  }

  lemma {:induction false} Times4Is(x: bv16)
    ensures Times4(x) == (x << 4) ^ ((x >> 12) << 12) ^ ((x >> 12) << 5) ^ (x >> 12)
  {
    hide Times2;
    Times2Is(x);
    Times2Is(Times2(x));
    Four(x, Times2(x), Times2(Times2(x)));
  }

  lemma {:induction false} SwapXor(c: bv16, d: bv16)
    requires d < 256
    ensures Swap(c) ^ d == Swap(c ^ (d << 8))
  {
  }

  lemma {:induction false} MixEight(x: bv16, m: bv16, mm: bv16)
    requires m == (x << 4) ^ ((x >> 12) << 12) ^ ((x >> 12) << 5) ^ (x >> 12)
    requires mm == (m << 4) ^ ((m >> 12) << 12) ^ ((m >> 12) << 5) ^ (m >> 12)
    ensures mm == Mix(Swap(x))
  {
    var c2 := (x >> 8) | (x << 8);
    var c3 := c2 ^ ((c2 >> 4) & 0xf);
    Eight(x, m, mm, c2, c3, c3 ^ (c3 << 12));
  }

  lemma {:induction false} MixIs(x: bv16)
    ensures Mix(Swap(x)) == Times8(x)
  {
    hide Times4, Mix, Swap;
    Times4Is(x);
    Times4Is(Times4(x));
    MixEight(x, Times4(x), Times4(Times4(x)));
  }

  /** crc16 multiplies by x^8 after adding the byte at the top. */
  lemma {:induction false} CrcIsTimes8(c: bv16, d: bv8)
    ensures Crc16(c, d) == Times8(Add(c, (d as bv16) << 8))
  {
    hide Mix, Swap, Times8;
    SwapXor(c, d as bv16);
    MixIs(c ^ ((d as bv16) << 8));
  }

  lemma {:induction false} TopXor(s: bv16, d: bv16)
    ensures Top(Add(s, d)) == (Top(s) != Top(d))
  {
  }

  lemma {:induction false} ShlXor(s: bv16, d: bv16)
    ensures Shl(Add(s, d)) == Add(Shl(s), Shl(d))
  {
  }

  lemma {:induction false} XorLeft(a: bv16, b: bv16, g: bv16)
    ensures (a ^ b) ^ g == (a ^ g) ^ b
  {
  }

  lemma {:induction false} XorRight(a: bv16, b: bv16, g: bv16)
    ensures (a ^ b) ^ g == a ^ (b ^ g)
  {
  }

  lemma {:induction false} AddLeft(a: bv16, b: bv16, g: bv16)
    ensures Add(Add(a, b), g) == Add(Add(a, g), b)
  {
    XorLeft(a, b, g);
  }

  lemma {:induction false} AddRight(a: bv16, b: bv16, g: bv16)
    ensures Add(Add(a, b), g) == Add(a, Add(b, g))
  {
    XorRight(a, b, g);
  }

  lemma {:induction false} AddBoth(a: bv16, b: bv16, g: bv16)
    ensures Add(Add(a, g), Add(b, g)) == Add(a, b)
  {
    AddSelf(g);
    AddZero(b);
    AddRight(b, g, g);
    AddRight(a, g, Add(b, g));
    AddSwap(g, Add(b, g));
    hide Add;
  }

  lemma {:induction false} AddSwap(a: bv16, b: bv16)
    ensures Add(a, b) == Add(b, a)
  {
  }

  lemma {:induction false} AddSelf(a: bv16)
    ensures Add(a, a) == 0
  {
  }

  lemma {:induction false} AddZero(a: bv16)
    ensures Add(a, 0) == a
  {
  }

  lemma {:induction false} ReduceAdd(a: bv16, p: bool, b: bv16, q: bool)
    ensures Reduce(Add(a, b), p != q) == Add(Reduce(a, p), Reduce(b, q))
  {
    hide Add;
    AddLeft(a, b, 0x1021);
    AddRight(a, b, 0x1021);
    AddBoth(a, b, 0x1021);
  }

  lemma {:induction false} ReduceLeft(a: bv16, p: bool, b: bv16)
    ensures Reduce(Add(a, b), p) == Add(Reduce(a, p), b)
  {
    hide Add;
    AddLeft(a, b, 0x1021);
  }

  /** One bit taken from the top of d: the rest of d stays pending. */
  lemma {:induction false} BitIsTimes(s: bv16, d: bv16)
    ensures Add(BitStep(s, Top(d)), Shl(d)) == Times(Add(s, d))
  {
    hide Top, Shl, Reduce, Add;
    TopXor(s, d);
    ShlXor(s, d);
    ReduceLeft(Shl(s), Top(s) != Top(d), Shl(d));
  }

  // ---- a byte is eight bits ------------------------------------------------------------------

  /** The bits that d has at its top. */
  function TopBits(d: bv16, n: nat): seq<bool>
    decreases n
  {
    if n == 0 then [] else [Top(d)] + TopBits(Shl(d), n - 1)
  }

  function ShlN(d: bv16, n: nat): bv16
    decreases n
  {
    if n == 0 then d else ShlN(Shl(d), n - 1)
  }

  function TimesN(r: bv16, n: nat): bv16
    decreases n
  {
    if n == 0 then r else TimesN(Times(r), n - 1)
  }

  /** Bits that go in one by one at the top, or all at once before multiplying. */
  lemma {:induction false} BitsAreTimes(s: bv16, d: bv16, n: nat)
    ensures Add(CrcBits(s, TopBits(d, n)), ShlN(d, n)) == TimesN(Add(s, d), n)
    decreases n
  {
    hide Top, Shl, BitStep, Times, Add;
    if n > 0 {
      BitIsTimes(s, d);
      BitsAreTimes(BitStep(s, Top(d)), Shl(d), n - 1);
      assert TopBits(d, n)[1..] == TopBits(Shl(d), n - 1);
    }
  }

  lemma {:induction false} Times8Is(x: bv16)
    ensures TimesN(x, 8) == Times8(x)
  {
    hide Times;
    var y := Times4(x);
    assert TimesN(x, 8) == TimesN(Times(x), 7) == TimesN(Times2(x), 6);
    assert TimesN(Times2(x), 6) == TimesN(Times(Times2(x)), 5) == TimesN(y, 4);
    assert TimesN(y, 4) == TimesN(Times(y), 3) == TimesN(Times2(y), 2);
    assert TimesN(Times2(y), 2) == TimesN(Times(Times2(y)), 1) == TimesN(Times4(y), 0);
  }

  lemma {:induction false} TopOfByte(d: bv8, x: bv16)
    requires x == (d as bv16) << 8
    ensures ByteBits(d) == [Top(x), Top(x << 1), Top(x << 2), Top(x << 3),
                            Top(x << 4), Top(x << 5), Top(x << 6), Top(x << 7)]
    ensures x << 8 == 0
  {
    assert Top(x) == (d & 0x80 != 0);
    assert Top(x << 1) == (d & 0x40 != 0);
    assert Top(x << 2) == (d & 0x20 != 0);
    assert Top(x << 3) == (d & 0x10 != 0);
    assert Top(x << 4) == (d & 0x8 != 0);
    assert Top(x << 5) == (d & 0x4 != 0);
    assert Top(x << 6) == (d & 0x2 != 0);
    assert Top(x << 7) == (d & 0x1 != 0);
  }

  lemma {:induction false} ShlTwice(x: bv16)
    ensures Shl(x) == x << 1 && Shl(x << 1) == x << 2 && Shl(x << 2) == x << 3 && Shl(x << 3) == x << 4
    ensures Shl(x << 4) == x << 5 && Shl(x << 5) == x << 6 && Shl(x << 6) == x << 7 && Shl(x << 7) == x << 8
  {
  }

  lemma {:induction false} TopBitsAre(x0: bv16, x1: bv16, x2: bv16, x3: bv16, x4: bv16, n: nat)
    requires x1 == Shl(x0) && x2 == Shl(x1) && x3 == Shl(x2) && x4 == Shl(x3)
    ensures TopBits(x0, n + 4) == [Top(x0), Top(x1), Top(x2), Top(x3)] + TopBits(x4, n)
    ensures ShlN(x0, n + 4) == ShlN(x4, n)
  {
    hide Shl, Top;
    TopBitsNext(x2, n + 1);
    TopBitsNext(x3, n);
    assert TopBits(x2, n + 2) == [Top(x2), Top(x3)] + TopBits(x4, n);
    TopBitsNext(x0, n + 3);
    TopBitsNext(x1, n + 2);
    hide TopBits, ShlN;
  }

  lemma {:induction false} TopBitsNext(d: bv16, n: nat)
    ensures TopBits(d, n + 1) == [Top(d)] + TopBits(Shl(d), n)
    ensures ShlN(d, n + 1) == ShlN(Shl(d), n)
    ensures TopBits(d, 0) == [] && ShlN(d, 0) == d
  {
  }

  lemma {:induction false} TopBitsByte(d: bv8)
    ensures TopBits((d as bv16) << 8, 8) == ByteBits(d)
    ensures ShlN((d as bv16) << 8, 8) == 0
  {
    hide Shl, Top, ByteBits, TopBits, ShlN;
    var x := (d as bv16) << 8;
    TopOfByte(d, x);
    ShlTwice(x);
    TopBitsAre(x, x << 1, x << 2, x << 3, x << 4, 4);
    TopBitsAre(x << 4, x << 5, x << 6, x << 7, x << 8, 0);
    TopBitsNext(x << 8, 0);
  }

  /** crc16 is eight bit steps. */
  lemma {:induction false} ByteIsBits(c: bv16, d: bv8)
    ensures CrcBits(c, ByteBits(d)) == Crc16(c, d)
  {
    hide Top, Shl, BitStep, Times, Times8, Crc16, ByteBits, Add;
    var x := (d as bv16) << 8;
    BitsAreTimes(c, x, 8);
    TopBitsByte(d);
    Times8Is(Add(c, x));
    CrcIsTimes8(c, d);
    AddZero(CrcBits(c, ByteBits(d)));
  }

  lemma {:induction false} CrcBitsConcat(r: bv16, a: seq<bool>, b: seq<bool>)
    ensures CrcBits(r, a + b) == CrcBits(CrcBits(r, a), b)
    decreases |a|
  {
    hide BitStep;
    if a == [] {
      assert a + b == b;
    } else {
      assert (a + b)[1..] == a[1..] + b;
      CrcBitsConcat(BitStep(r, a[0]), a[1..], b);
    }
  }

  /** The fold over the bytes of a message is the fold over its bits. */
  lemma {:induction false} CrcIsBits(c: bv16, msg: seq<bv8>)
    ensures CrcFrom(c, msg) == CrcBits(c, MsgBits(msg))
    decreases |msg|
  {
    hide Crc16, BitStep, ByteBits;
    if msg != [] {
      ByteIsBits(c, msg[0]);
      CrcBitsConcat(c, ByteBits(msg[0]), MsgBits(msg[1..]));
      CrcIsBits(Crc16(c, msg[0]), msg[1..]);
    }
  }

  // ---- the remainder -------------------------------------------------------------------------

  /** The generator, most significant coefficient first. */
  const GENERATOR: seq<bool> := [true, false, false, false, true, false, false, false, false,
                                 false, false, true, false, false, false, false, true]

  function Zeros(n: nat): seq<bool> {
    seq(n, i => false)
  }

  /** The sum of two polynomials over the field of two elements. */
  function Sum(a: seq<bool>, b: seq<bool>): (r: seq<bool>)
    requires |a| == |b|
    ensures |r| == |a|
  {
    seq(|a|, i requires 0 <= i < |a| => a[i] != b[i])
  }

  /** The product of the polynomial q with the generator, schoolbook: q = q' x + c has the product
      q' G x + c G. */
  function Product(q: seq<bool>): (r: seq<bool>)
    ensures |r| == |q| + 16
  {
    if q == [] then Zeros(16)
    else
      var n := |q| - 1;
      Sum(Product(q[..n]) + [false], Zeros(n) + if q[n] then GENERATOR else Zeros(17))
  }

  /** r is a remainder of the message times x^16 modulo the generator: the message times x^16,
      plus r, is a multiple of the generator. */
  ghost predicate IsRemainder(msg: seq<bool>, r: seq<bool>) {
    |r| == 16 && exists q :: |q| == |msg| && Product(q) == msg + r
  }

  /** The coefficients of a 16-bit remainder. */
  function Bits(r: bv16): (s: seq<bool>)
    ensures |s| == 16
  {
    [r & 0x8000 != 0, r & 0x4000 != 0, r & 0x2000 != 0, r & 0x1000 != 0,
     r & 0x800 != 0, r & 0x400 != 0, r & 0x200 != 0, r & 0x100 != 0,
     r & 0x80 != 0, r & 0x40 != 0, r & 0x20 != 0, r & 0x10 != 0,
     r & 0x8 != 0, r & 0x4 != 0, r & 0x2 != 0, r & 0x1 != 0]
  }

  lemma {:induction false} BitsShl(r: bv16)
    ensures Bits(Shl(r)) == Bits(r)[1..] + [false]
  {
  }

  lemma {:induction false} BitsDistinct(r: bv16, s: bv16)
    requires Bits(r) == Bits(s)
    ensures r == s
  {
  }

  lemma {:induction false} BitsFlip(r: bv16, s: bv16)
    requires s == r ^ 0x1021
    ensures Bits(s) ==
            [Bits(r)[0], Bits(r)[1], Bits(r)[2], !Bits(r)[3], Bits(r)[4], Bits(r)[5], Bits(r)[6], Bits(r)[7],
             Bits(r)[8], Bits(r)[9], !Bits(r)[10], Bits(r)[11], Bits(r)[12], Bits(r)[13], Bits(r)[14], !Bits(r)[15]]
  {
  }

  lemma {:induction false} SumGenerator(b: seq<bool>)
    requires |b| == 16
    ensures Sum(b, GENERATOR[1..]) ==
            [b[0], b[1], b[2], !b[3], b[4], b[5], b[6], b[7], b[8], b[9], !b[10], b[11], b[12], b[13], b[14], !b[15]]
  {
  }

  lemma {:induction false} BitsReduce(r: bv16)
    ensures Bits(Reduce(r, true)) == Sum(Bits(r), GENERATOR[1..])
  {
    hide Bits, Sum;
    BitsFlip(r, r ^ 0x1021);
    SumGenerator(Bits(r));
  }

  lemma {:induction false} BitsTop(r: bv16)
    ensures Bits(r)[0] == Top(r)
  {
  }

  /** A bit step on the coefficients: shift, and take the generator away if the quotient's next
      coefficient is one. */
  lemma {:induction false} BitsStep(r: bv16, b: bool)
    ensures var s := Bits(r)[1..] + [false];
            Bits(BitStep(r, b)) == if Bits(r)[0] != b then Sum(s, GENERATOR[1..]) else s
  {
    hide Bits, Sum, Top, Shl;
    BitsTop(r);
    BitsShl(r);
    BitsReduce(Shl(r));
  }

  lemma {:induction false} CrcBitsSnoc(r: bv16, a: seq<bool>, b: bool)
    ensures CrcBits(r, a + [b]) == BitStep(CrcBits(r, a), b)
  {
    hide BitStep;
    CrcBitsConcat(r, a, [b]);
  }

  lemma {:induction false} ProductSnoc(q: seq<bool>, c: bool)
    ensures Product(q + [c]) == Sum(Product(q) + [false], Zeros(|q|) + if c then GENERATOR else Zeros(17))
  {
    assert (q + [c])[..|q|] == q;
  }

  lemma {:induction false} SumFront(m: seq<bool>, x: seq<bool>, y: seq<bool>)
    requires |x| == |y|
    ensures Sum(m + x, Zeros(|m|) + y) == m + Sum(x, y)
  {
  }

  lemma {:induction false} SumConcat(a: seq<bool>, b: seq<bool>, c: seq<bool>, d: seq<bool>)
    requires |a| == |c| && |b| == |d|
    ensures Sum(a + b, c + d) == Sum(a, c) + Sum(b, d)
  {
  }

  lemma {:induction false} GeneratorLeads(c: bool)
    ensures var g := if c then GENERATOR else Zeros(17);
            g == [c] + g[1..]
  {
  }

  /** Taking c times the generator away changes the leading coefficient by c. */
  lemma {:induction false} SumLeading(s: seq<bool>, c: bool)
    requires |s| == 16
    ensures var t := s[1..] + [false];
            Sum(s + [false], if c then GENERATOR else Zeros(17))
            == [s[0] != c] + if c then Sum(t, GENERATOR[1..]) else t
  {
    var t, g := s[1..] + [false], if c then GENERATOR else Zeros(17);
    GeneratorLeads(c);
    assert s + [false] == [s[0]] + t;
    SumConcat([s[0]], t, [c], g[1..]);
    if !c {
      assert g[1..] == Zeros(16) && Sum(t, Zeros(16)) == t;
    }
  }

  /** One step of the long division: the quotient gets the coefficient that makes the product
      agree with the message's next bit. */
  lemma {:induction false} DivideStep(q: seq<bool>, m: seq<bool>, s: seq<bool>, b: bool)
    requires |q| == |m| && |s| == 16 && Product(q) == m + s
    ensures var t := s[1..] + [false];
            Product(q + [s[0] != b]) == (m + [b]) + if s[0] != b then Sum(t, GENERATOR[1..]) else t
  {
    hide Product, Sum;
    var c := s[0] != b;
    var t, g := s[1..] + [false], if c then GENERATOR else Zeros(17);
    ProductSnoc(q, c);
    assert m + s + [false] == m + (s + [false]);
    SumFront(m, s + [false], g);
    SumLeading(s, c);
    assert m + ([b] + if c then Sum(t, GENERATOR[1..]) else t) == (m + [b]) + if c then Sum(t, GENERATOR[1..]) else t;
  }

  /** The crc of a bit string, from 0, is a remainder of it. */
  lemma {:induction false} CrcDivides(msg: seq<bool>) returns (q: seq<bool>)
    ensures |q| == |msg| && Product(q) == msg + Bits(CrcBits(0, msg))
    decreases |msg|
  {
    if msg == [] {
      q := [];
      assert Bits(0) == Zeros(16);
    } else {
      var n := |msg| - 1;
      var m, b := msg[..n], msg[n];
      assert msg == m + [b];
      q := CrcDivides(m);
      var r := CrcBits(0, m);
      hide Product, Bits, BitStep, CrcBits;
      CrcBitsSnoc(0, m, b);
      BitsStep(r, b);
      DivideStep(q, m, Bits(r), b);
      q := q + [Bits(r)[0] != b];
    }
  }

  /** The leading coefficients of a product with one more coefficient in the factor. */
  lemma {:induction false} ProductLead(q: seq<bool>, c: bool)
    ensures var n, r := |q|, Product(q + [c]);
            r[..n] == Product(q)[..n] && r[n] == (Product(q)[n] != c)
  {
    var a, g := Product(q), if c then GENERATOR else Zeros(17);
    ProductSnoc(q, c);
    hide Product;
    assert a + [false] == a[..|q|] + (a[|q|..] + [false]);
    SumFront(a[..|q|], a[|q|..] + [false], g);
  }

  /** The leading coefficients of a product determine the factor. */
  lemma {:induction false} ProductInjective(p: seq<bool>, q: seq<bool>)
    requires |p| == |q| && Product(p)[..|p|] == Product(q)[..|q|]
    ensures p == q
    decreases |p|
  {
    hide Product;
    if p != [] {
      var n := |p| - 1;
      var p', q' := p[..n], q[..n];
      assert p == p' + [p[n]] && q == q' + [q[n]];
      ProductLead(p', p[n]);
      ProductLead(q', q[n]);
      var a, b := Product(p), Product(q);
      assert a[..n] == a[..n + 1][..n] == b[..n + 1][..n] == b[..n];
      assert a[n] == a[..n + 1][n] == b[..n + 1][n] == b[n];
      ProductInjective(p', q');
    }
  }

  /** Folding crc16 from 0 over a message gives the remainder of the message times x^16 modulo
      x^16 + x^12 + x^5 + 1, and there is no other remainder. */
  lemma {:induction false} CrcIsRemainder(msg: seq<bv8>, r: seq<bool>)
    ensures IsRemainder(MsgBits(msg), r) <==> r == Bits(CrcFrom(0, msg))
  {
    CrcIsBits(0, msg);
    var m := MsgBits(msg);
    var q := CrcDivides(m);
    hide Product, Bits, CrcFrom, CrcBits, MsgBits;
    if IsRemainder(m, r) {
      var p :| |p| == |m| && Product(p) == m + r;
      assert Product(p)[..|p|] == m == Product(q)[..|q|];
      ProductInjective(p, q);
      assert r == (m + r)[|m|..] == Product(q)[|m|..];
    }
  }

  // ---- what the receiver checks --------------------------------------------------------------

  lemma {:induction false} SwapHigh(c: bv16)
    ensures Swap(c) ^ (c >> 8) == c << 8
  {
  }

  lemma {:induction false} MixHigh(c: bv16)
    ensures Mix(c << 8) == c << 8 && Mix(0) == 0
  {
  }

  lemma {:induction false} SwapLow(c: bv16)
    ensures Swap(c << 8) ^ (c & 0xff) == 0
  {
  }

  /** A message followed by its own crc, high byte first, has the crc 0. */
  lemma {:induction false} CrcOfCrc(c: bv16)
    ensures CrcFrom(c, [(c >> 8) as bv8, (c & 0xff) as bv8]) == 0
  {
    hide Mix, Swap;
    var hi, lo := (c >> 8) as bv8, (c & 0xff) as bv8;
    SwapHigh(c);
    MixHigh(c);
    SwapLow(c);
    assert Crc16(c, hi) == c << 8;
    assert Crc16(c << 8, lo) == 0;
    hide Crc16;
    assert [hi, lo][1..] == [lo];
    assert CrcFrom(c << 8, [lo]) == CrcFrom(0, []);
  }

  /** ... so a receiver may fold the received crc in and compare with 0. */
  lemma {:induction false} CodewordZero(msg: seq<bv8>)
    ensures var c := CrcFrom(0, msg);
            CrcFrom(0, msg + [(c >> 8) as bv8, (c & 0xff) as bv8]) == 0
  {
    hide CrcFrom;
    var c := CrcFrom(0, msg);
    CrcOfCrc(c);
    CrcFromConcat(0, msg, [(c >> 8) as bv8, (c & 0xff) as bv8]);
  }

  // ---- detection -----------------------------------------------------------------------------

  /** Dividing a remainder by x. */
  function Divided(y: bv16): bv16 {
    if y & 1 != 0 then ((y ^ 0x1021) >> 1) | 0x8000 else y >> 1
  }

  lemma {:induction false} DividedTimes(x: bv16)
    ensures Divided(Times(x)) == x
  {
    if Top(x) {
      DividedCarry(x, Reduce(Shl(x), true));
    } else {
      DividedNoCarry(x, Shl(x));
    }
    hide Divided, Shl, Reduce;
  }

  lemma {:induction false} DividedCarry(x: bv16, y: bv16)
    requires Top(x) && y == (x << 1) ^ 0x1021
    ensures Divided(y) == x
  {
  }

  lemma {:induction false} DividedNoCarry(x: bv16, y: bv16)
    requires !Top(x) && y == x << 1
    ensures Divided(y) == x
  {
  }

  lemma {:induction false} Times8Injective(x: bv16, y: bv16)
    requires Times8(x) == Times8(y)
    ensures x == y
  {
    hide Times, Divided;
    Times2Injective(Times4(x), Times4(y));
    Times2Injective(Times2(Times4(x)), Times2(Times4(y)));
    Times2Injective(Times2(x), Times2(y));
    Times2Injective(x, y);
  }

  lemma {:induction false} Times2Injective(x: bv16, y: bv16)
    ensures Times2(x) == Times2(y) ==> x == y
  {
    hide Times, Divided;
    DividedTimes(x);
    DividedTimes(y);
    DividedTimes(Times(x));
    DividedTimes(Times(y));
  }

  lemma {:induction false} TimesAdd(x: bv16, y: bv16)
    ensures Times(Add(x, y)) == Add(Times(x), Times(y))
  {
    hide Top, Shl, Reduce, Add;
    TopXor(x, y);
    ShlXor(x, y);
    ReduceAdd(Shl(x), Top(x), Shl(y), Top(y));
  }

  lemma {:induction false} Times2Add(x: bv16, y: bv16)
    ensures Times2(Add(x, y)) == Add(Times2(x), Times2(y))
  {
    hide Times, Add;
    TimesAdd(x, y);
    TimesAdd(Times(x), Times(y));
  }

  lemma {:induction false} Times8Add(x: bv16, y: bv16)
    ensures Times8(Add(x, y)) == Add(Times8(x), Times8(y))
  {
    hide Times2, Add;
    Times2Add(x, y);
    Times2Add(Times2(x), Times2(y));
    Times2Add(Times4(x), Times4(y));
    Times2Add(Times2(Times4(x)), Times2(Times4(y)));
  }

  lemma {:induction false} Times8Low(d: bv8)
    ensures Times8(d as bv16) == (d as bv16) << 8
  {
    hide Mix, Swap, Times8;
    var x := d as bv16;
    MixIs(x);
    SwapByte(d);
    MixHigh(x);
  }

  lemma {:induction false} SwapByte(d: bv8)
    ensures Swap(d as bv16) == (d as bv16) << 8
  {
  }

  /** Two bytes in a row are one 16-bit word added before multiplying by x^16. */
  lemma {:induction false} CrcTwo(c: bv16, a: bv8, b: bv8)
    ensures Crc16(Crc16(c, a), b) == Times8(Times8(Add(Add(c, (a as bv16) << 8), b as bv16)))
  {
    hide Crc16, Times8, Add;
    CrcIsTimes8(c, a);
    CrcIsTimes8(Crc16(c, a), b);
    Times8Low(b);
    Times8Add(Add(c, (a as bv16) << 8), b as bv16);
  }

  lemma {:induction false} AddCancels(c: bv16, a1: bv8, b1: bv8, a2: bv8, b2: bv8)
    requires Add(Add(c, (a1 as bv16) << 8), b1 as bv16) == Add(Add(c, (a2 as bv16) << 8), b2 as bv16)
    ensures a1 == a2 && b1 == b2
  {
  }

  /** Different pairs of bytes lead to different crcs. */
  lemma {:induction false} PairInjective(c: bv16, a1: bv8, b1: bv8, a2: bv8, b2: bv8)
    requires Crc16(Crc16(c, a1), b1) == Crc16(Crc16(c, a2), b2)
    ensures a1 == a2 && b1 == b2
  {
    hide Crc16, Times8, Add;
    var x1 := Add(Add(c, (a1 as bv16) << 8), b1 as bv16);
    var x2 := Add(Add(c, (a2 as bv16) << 8), b2 as bv16);
    CrcTwo(c, a1, b1);
    CrcTwo(c, a2, b2);
    Times8Injective(Times8(x1), Times8(x2));
    Times8Injective(x1, x2);
    AddCancels(c, a1, b1, a2, b2);
  }

  lemma {:induction false} StateCancels(c1: bv16, c2: bv16, d: bv16)
    requires Add(c1, d) == Add(c2, d)
    ensures c1 == c2
  {
  }

  /** The same byte keeps different crcs different. */
  lemma {:induction false} StateInjective(c1: bv16, c2: bv16, d: bv8)
    requires Crc16(c1, d) == Crc16(c2, d)
    ensures c1 == c2
  {
    hide Crc16, Times8, Add;
    CrcIsTimes8(c1, d);
    CrcIsTimes8(c2, d);
    Times8Injective(Add(c1, (d as bv16) << 8), Add(c2, (d as bv16) << 8));
    StateCancels(c1, c2, (d as bv16) << 8);
  }

  lemma {:induction false} SuffixInjective(c1: bv16, c2: bv16, msg: seq<bv8>)
    requires CrcFrom(c1, msg) == CrcFrom(c2, msg)
    ensures c1 == c2
    decreases |msg|
  {
    hide Crc16;
    if msg != [] {
      SuffixInjective(Crc16(c1, msg[0]), Crc16(c2, msg[0]), msg[1..]);
      StateInjective(c1, c2, msg[0]);
    }
  }

  lemma {:induction false} CrcFromConcat(c: bv16, a: seq<bv8>, b: seq<bv8>)
    ensures CrcFrom(c, a + b) == CrcFrom(CrcFrom(c, a), b)
    decreases |a|
  {
    hide Crc16;
    if a == [] {
      assert a + b == b;
    } else {
      assert (a + b)[1..] == a[1..] + b;
      CrcFromConcat(Crc16(c, a[0]), a[1..], b);
    }
  }

  /** Two messages of any equal length that differ only within two adjacent bytes have different
      crcs. */
  lemma {:induction false} BurstDetected(c: bv16, m1: seq<bv8>, m2: seq<bv8>, i: nat)
    requires |m1| == |m2| && i + 2 <= |m1|
    requires forall k :: 0 <= k < |m1| && k != i && k != i + 1 ==> m1[k] == m2[k]
    requires m1 != m2
    ensures CrcFrom(c, m1) != CrcFrom(c, m2)
  {
    hide Crc16;
    var pre, suf := m1[..i], m1[i + 2..];
    var x1, x2 := [m1[i], m1[i + 1]], [m2[i], m2[i + 1]];
    assert m1 == pre + (x1 + suf) && m2 == pre + (x2 + suf);
    var s := CrcFrom(c, pre);
    CrcFromConcat(c, pre, x1 + suf);
    CrcFromConcat(c, pre, x2 + suf);
    CrcFromConcat(s, x1, suf);
    CrcFromConcat(s, x2, suf);
    CrcPair(s, m1[i], m1[i + 1]);
    CrcPair(s, m2[i], m2[i + 1]);
    if CrcFrom(c, m1) == CrcFrom(c, m2) {
      SuffixInjective(CrcFrom(s, x1), CrcFrom(s, x2), suf);
      PairInjective(s, m1[i], m1[i + 1], m2[i], m2[i + 1]);
      assert false;
    }
  }

  lemma {:induction false} CrcPair(c: bv16, a: bv8, b: bv8)
    ensures CrcFrom(c, [a, b]) == Crc16(Crc16(c, a), b)
  {
    hide Crc16;
    assert [a, b][1..] == [b];
    assert CrcFrom(Crc16(c, a), [b]) == CrcFrom(Crc16(Crc16(c, a), b), []);
  }

  // ---- bursts of bits ------------------------------------------------------------------------

  /** The byte with given bits. */
  function ByteOf(b: seq<bool>): (d: bv8)
    requires |b| == 8
  {
    (if b[0] then 0x80 else 0) | (if b[1] then 0x40 else 0) | (if b[2] then 0x20 else 0) | (if b[3] then 0x10 else 0)
    | (if b[4] then 0x8 else 0) | (if b[5] then 0x4 else 0) | (if b[6] then 0x2 else 0) | (if b[7] then 0x1 else 0)
  }

  lemma {:induction false} BitsOfByte(b: seq<bool>)
    requires |b| == 8
    ensures ByteBits(ByteOf(b)) == b
  {
  }

  lemma {:induction false} ByteOfBits(d: bv8)
    ensures ByteOf(ByteBits(d)) == d
  {
  }

  /** Different windows of sixteen bits lead to different crcs. */
  lemma {:induction false} WindowInjective(c: bv16, v: seq<bool>, w: seq<bool>)
    requires |v| == |w| == 16 && CrcBits(c, v) == CrcBits(c, w)
    ensures v == w
  {
    hide Crc16, ByteBits, ByteOf, CrcBits;
    WindowIsPair(c, v);
    WindowIsPair(c, w);
    PairInjective(c, ByteOf(v[..8]), ByteOf(v[8..]), ByteOf(w[..8]), ByteOf(w[8..]));
    assert v == v[..8] + v[8..] && w == w[..8] + w[8..];
  }

  lemma {:induction false} WindowIsPair(c: bv16, v: seq<bool>)
    requires |v| == 16
    ensures CrcBits(c, v) == Crc16(Crc16(c, ByteOf(v[..8])), ByteOf(v[8..]))
    ensures ByteBits(ByteOf(v[..8])) == v[..8] && ByteBits(ByteOf(v[8..])) == v[8..]
  {
    hide Crc16, ByteBits, ByteOf, CrcBits;
    BitsOfByte(v[..8]);
    BitsOfByte(v[8..]);
    assert v == v[..8] + v[8..];
    CrcBitsConcat(c, v[..8], v[8..]);
    ByteIsBits(c, ByteOf(v[..8]));
    ByteIsBits(Crc16(c, ByteOf(v[..8])), ByteOf(v[8..]));
  }

  lemma {:induction false} BitStepInjective(c1: bv16, c2: bv16, b: bool)
    requires BitStep(c1, b) == BitStep(c2, b)
    ensures c1 == c2
  {
    hide Top, Shl, Reduce, Add, Times, BitStep;
    var d := if b then 0x8000 else 0;
    BitStepIs(c1, b, d);
    BitStepIs(c2, b, d);
    DividedTimes(Add(c1, d));
    DividedTimes(Add(c2, d));
    hide Divided;
    StateCancels(c1, c2, d);
  }

  lemma {:induction false} BitStepIs(c: bv16, b: bool, d: bv16)
    requires d == if b then 0x8000 else 0
    ensures BitStep(c, b) == Times(Add(c, d))
  {
    TopFlips(c);
    assert !b ==> Add(c, d) == c;
    hide Top, Shl, Add, Reduce;
  }

  lemma {:induction false} TopFlips(c: bv16)
    ensures Top(Add(c, 0x8000)) == !Top(c) && Shl(Add(c, 0x8000)) == Shl(c)
  {
  }

  lemma {:induction false} BitsInjective(c1: bv16, c2: bv16, bits: seq<bool>)
    requires CrcBits(c1, bits) == CrcBits(c2, bits)
    ensures c1 == c2
    decreases |bits|
  {
    hide BitStep;
    if bits != [] {
      BitsInjective(BitStep(c1, bits[0]), BitStep(c2, bits[0]), bits[1..]);
      BitStepInjective(c1, c2, bits[0]);
    }
  }

  /** a and b differ at most within the sixteen bits from bit i on. */
  ghost predicate WithinBurst(a: seq<bool>, b: seq<bool>, i: nat) {
    |a| == |b| && forall k :: 0 <= k < |a| && !(i <= k < i + 16) ==> a[k] == b[k]
  }

  lemma {:induction false} WindowDetected(c: bv16, a: seq<bool>, b: seq<bool>, i: nat)
    requires WithinBurst(a, b, i) && i + 16 <= |a| && CrcBits(c, a) == CrcBits(c, b)
    ensures a == b
  {
    hide CrcBits;
    var pre, suf := a[..i], a[i + 16..];
    var v, w := a[i..i + 16], b[i..i + 16];
    assert a == pre + (v + suf) && b == pre + (w + suf);
    var s := CrcBits(c, pre);
    CrcBitsConcat(c, pre, v + suf);
    CrcBitsConcat(c, pre, w + suf);
    CrcBitsConcat(s, v, suf);
    CrcBitsConcat(s, w, suf);
    BitsInjective(CrcBits(s, v), CrcBits(s, w), suf);
    WindowInjective(s, v, w);
  }

  /** Every burst of at most sixteen bits, anywhere in messages of any equal length and at any bit,
      is detected: it may touch three bytes. */
  lemma {:induction false} BitBurstDetected(c: bv16, m1: seq<bv8>, m2: seq<bv8>, i: nat)
    requires |m1| == |m2| && WithinBurst(MsgBits(m1), MsgBits(m2), i) && m1 != m2
    ensures CrcFrom(c, m1) != CrcFrom(c, m2)
  {
    hide CrcFrom, CrcBits, MsgBits;
    CrcIsBits(c, m1);
    CrcIsBits(c, m2);
    if CrcFrom(c, m1) == CrcFrom(c, m2) {
      var a, b, pad := MsgBits(m1), MsgBits(m2), Zeros(16);
      CrcBitsConcat(c, a, pad);
      CrcBitsConcat(c, b, pad);
      WindowDetected(c, a + pad, b + pad, if i < |a| then i else |a|);
      assert a == (a + pad)[..|a|] == (b + pad)[..|b|] == b;
      MsgBitsInjective(m1, m2);
      assert false;
    }
  }

  lemma {:induction false} MsgBitsInjective(m1: seq<bv8>, m2: seq<bv8>)
    requires |m1| == |m2| && MsgBits(m1) == MsgBits(m2)
    ensures m1 == m2
  {
    if m1 != [] {
      var x, y := ByteBits(m1[0]), ByteBits(m2[0]);
      assert |x| == |y| == 8;
      hide ByteBits, ByteOf;
      ByteOfBits(m1[0]);
      ByteOfBits(m2[0]);
      assert x == MsgBits(m1)[..8] == MsgBits(m2)[..8] == y;
      assert MsgBits(m1[1..]) == MsgBits(m1)[8..] == MsgBits(m2)[8..] == MsgBits(m2[1..]);
      MsgBitsInjective(m1[1..], m2[1..]);
    }
  }

  lemma {:induction false} MsgBitsConcat(a: seq<bv8>, b: seq<bv8>)
    ensures MsgBits(a + b) == MsgBits(a) + MsgBits(b)
    ensures |MsgBits(a)| == 8 * |a|
    decreases |a|
  {
    if a == [] {
      assert a + b == b;
    } else {
      assert |ByteBits(a[0])| == 8;
      hide ByteBits;
      assert (a + b)[1..] == a[1..] + b;
      MsgBitsConcat(a[1..], b);
    }
  }

  /** A difference within two adjacent bytes is such a burst. */
  lemma {:induction false} AdjacentIsBurst(m1: seq<bv8>, m2: seq<bv8>, i: nat)
    requires |m1| == |m2| && i + 2 <= |m1|
    requires forall k :: 0 <= k < |m1| && k != i && k != i + 1 ==> m1[k] == m2[k]
    ensures WithinBurst(MsgBits(m1), MsgBits(m2), 8 * i)
  {
    hide MsgBits;
    var pre, suf := m1[..i], m1[i + 2..];
    var x1, x2 := m1[i..i + 2], m2[i..i + 2];
    assert m1 == pre + (x1 + suf) && m2 == pre + (x2 + suf);
    MsgBitsConcat(pre, x1 + suf);
    MsgBitsConcat(pre, x2 + suf);
    MsgBitsConcat(x1, suf);
    MsgBitsConcat(x2, suf);
  }
}
