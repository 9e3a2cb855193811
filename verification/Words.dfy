/** 32-bit words as lists of bits, lowest bit first: the bridge between the bit operations of the
    code and polynomials over GF(2). */
module Words {
  import opened Gf2

  function Mask(i: nat): bv32
    requires i < 32
  {
    match i
    case 0 => 0x1 case 1 => 0x2 case 2 => 0x4 case 3 => 0x8
    case 4 => 0x10 case 5 => 0x20 case 6 => 0x40 case 7 => 0x80
    case 8 => 0x100 case 9 => 0x200 case 10 => 0x400 case 11 => 0x800
    case 12 => 0x1000 case 13 => 0x2000 case 14 => 0x4000 case 15 => 0x8000
    case 16 => 0x10000 case 17 => 0x20000 case 18 => 0x40000 case 19 => 0x80000
    case 20 => 0x100000 case 21 => 0x200000 case 22 => 0x400000 case 23 => 0x800000
    case 24 => 0x1000000 case 25 => 0x2000000 case 26 => 0x4000000 case 27 => 0x8000000
    case 28 => 0x10000000 case 29 => 0x20000000 case 30 => 0x40000000 case 31 => 0x80000000
  }

  predicate Has(w: bv32, m: bv32) {
    w & m != 0
  }

  function Bits(w: bv32): (b: Poly)
    ensures |b| == 32
    ensures forall i :: 0 <= i < 32 ==> b[i] == Has(w, Mask(i))
  {
    seq(32, i requires 0 <= i < 32 => Has(w, Mask(i)))
  }

  predicate OneBit(m: bv32) {
    m != 0 && m & (m - 1) == 0
  }

  lemma MasksAreBits(i: nat)
    requires i < 32
    ensures OneBit(Mask(i))
  {
    match i
    case 0 => case 1 => case 2 => case 3 => case 4 => case 5 => case 6 => case 7 =>
    case 8 => case 9 => case 10 => case 11 => case 12 => case 13 => case 14 => case 15 =>
    case 16 => case 17 => case 18 => case 19 => case 20 => case 21 => case 22 => case 23 =>
    case 24 => case 25 => case 26 => case 27 => case 28 => case 29 => case 30 => case 31 =>
  }

  lemma MasksDouble(i: nat)
    requires i < 31
    ensures Mask(i + 1) == Mask(i) << 1
  {
    match i
    case 0 => case 1 => case 2 => case 3 => case 4 => case 5 => case 6 => case 7 =>
    case 8 => case 9 => case 10 => case 11 => case 12 => case 13 => case 14 => case 15 =>
    case 16 => case 17 => case 18 => case 19 => case 20 => case 21 => case 22 => case 23 =>
    case 24 => case 25 => case 26 => case 27 => case 28 => case 29 => case 30 =>
  }

  lemma XorAt(x: bv32, y: bv32, m: bv32)
    requires OneBit(m)
    ensures Has(x ^ y, m) == Xor(Has(x, m), Has(y, m))
  {
  }

  lemma BitsOfXor(x: bv32, y: bv32)
    ensures Bits(x ^ y) == Add(Bits(x), Bits(y))
  {
    forall i | 0 <= i < 32 ensures Has(x ^ y, Mask(i)) == Xor(Has(x, Mask(i)), Has(y, Mask(i))) {
      MasksAreBits(i);
      XorAt(x, y, Mask(i));
    }
  }

  lemma NotAt(x: bv32, m: bv32)
    requires OneBit(m)
    ensures Has(!x, m) == !Has(x, m)
  {
  }

  lemma BitsOfNot(x: bv32)
    ensures forall i :: 0 <= i < 32 ==> Bits(!x)[i] == !Bits(x)[i]
  {
    forall i | 0 <= i < 32 ensures Has(!x, Mask(i)) == !Has(x, Mask(i)) {
      MasksAreBits(i);
      NotAt(x, Mask(i));
    }
  }

  lemma ShiftAt(x: bv32, m: bv32, m': bv32)
    requires m' == m << 1
    ensures Has(x >> 1, m) == Has(x, m')
  {
  }

  lemma ShiftTop(x: bv32)
    ensures !Has(x >> 1, 0x8000_0000)
  {
  }

  lemma ShiftBit(c: bv32, i: nat)
    requires i < 32
    ensures Bits(c >> 1)[i] == (Bits(c)[1..] + [false])[i]
  {
    if i < 31 {
      MasksDouble(i);
      ShiftAt(c, Mask(i), Mask(i + 1));
    } else {
      ShiftTop(c);
    }
  }

  /** Shifting right drops the lowest bit and brings in a zero at the top. */
  lemma BitsOfShift(c: bv32)
    ensures Bits(c >> 1) == Bits(c)[1..] + [false]
  {
    forall i | 0 <= i < 32 ensures Bits(c >> 1)[i] == (Bits(c)[1..] + [false])[i] {
      ShiftBit(c, i);
    }
  }

  lemma SameBit(c: bv32, d: bv32, i: nat, m: bv32)
    requires Bits(c) == Bits(d) && i < 32 && m == Mask(i)
    ensures Has(c, m) == Has(d, m)
  {
    assert Bits(c)[i] == Bits(d)[i];
  }

  lemma Byte0(c: bv32, d: bv32)
    requires Has(c, 0x1) == Has(d, 0x1) && Has(c, 0x2) == Has(d, 0x2)
    requires Has(c, 0x4) == Has(d, 0x4) && Has(c, 0x8) == Has(d, 0x8)
    requires Has(c, 0x10) == Has(d, 0x10) && Has(c, 0x20) == Has(d, 0x20)
    requires Has(c, 0x40) == Has(d, 0x40) && Has(c, 0x80) == Has(d, 0x80)
    ensures c & 0xFF == d & 0xFF
  {
  }

  lemma SameByte0(c: bv32, d: bv32)
    requires Bits(c) == Bits(d)
    ensures c & 0xFF == d & 0xFF
  {
    SameBit(c, d, 0, 0x1); SameBit(c, d, 1, 0x2);
    SameBit(c, d, 2, 0x4); SameBit(c, d, 3, 0x8);
    SameBit(c, d, 4, 0x10); SameBit(c, d, 5, 0x20);
    SameBit(c, d, 6, 0x40); SameBit(c, d, 7, 0x80);
    Byte0(c, d);
  }

  lemma Byte1(c: bv32, d: bv32)
    requires Has(c, 0x100) == Has(d, 0x100) && Has(c, 0x200) == Has(d, 0x200)
    requires Has(c, 0x400) == Has(d, 0x400) && Has(c, 0x800) == Has(d, 0x800)
    requires Has(c, 0x1000) == Has(d, 0x1000) && Has(c, 0x2000) == Has(d, 0x2000)
    requires Has(c, 0x4000) == Has(d, 0x4000) && Has(c, 0x8000) == Has(d, 0x8000)
    ensures c & 0xFF00 == d & 0xFF00
  {
  }

  lemma SameByte1(c: bv32, d: bv32)
    requires Bits(c) == Bits(d)
    ensures c & 0xFF00 == d & 0xFF00
  {
    SameBit(c, d, 8, 0x100); SameBit(c, d, 9, 0x200);
    SameBit(c, d, 10, 0x400); SameBit(c, d, 11, 0x800);
    SameBit(c, d, 12, 0x1000); SameBit(c, d, 13, 0x2000);
    SameBit(c, d, 14, 0x4000); SameBit(c, d, 15, 0x8000);
    Byte1(c, d);
  }

  lemma Byte2(c: bv32, d: bv32)
    requires Has(c, 0x10000) == Has(d, 0x10000) && Has(c, 0x20000) == Has(d, 0x20000)
    requires Has(c, 0x40000) == Has(d, 0x40000) && Has(c, 0x80000) == Has(d, 0x80000)
    requires Has(c, 0x100000) == Has(d, 0x100000) && Has(c, 0x200000) == Has(d, 0x200000)
    requires Has(c, 0x400000) == Has(d, 0x400000) && Has(c, 0x800000) == Has(d, 0x800000)
    ensures c & 0xFF_0000 == d & 0xFF_0000
  {
  }

  lemma SameByte2(c: bv32, d: bv32)
    requires Bits(c) == Bits(d)
    ensures c & 0xFF_0000 == d & 0xFF_0000
  {
    SameBit(c, d, 16, 0x10000); SameBit(c, d, 17, 0x20000);
    SameBit(c, d, 18, 0x40000); SameBit(c, d, 19, 0x80000);
    SameBit(c, d, 20, 0x100000); SameBit(c, d, 21, 0x200000);
    SameBit(c, d, 22, 0x400000); SameBit(c, d, 23, 0x800000);
    Byte2(c, d);
  }

  lemma Byte3(c: bv32, d: bv32)
    requires Has(c, 0x1000000) == Has(d, 0x1000000) && Has(c, 0x2000000) == Has(d, 0x2000000)
    requires Has(c, 0x4000000) == Has(d, 0x4000000) && Has(c, 0x8000000) == Has(d, 0x8000000)
    requires Has(c, 0x10000000) == Has(d, 0x10000000) && Has(c, 0x20000000) == Has(d, 0x20000000)
    requires Has(c, 0x40000000) == Has(d, 0x40000000) && Has(c, 0x80000000) == Has(d, 0x80000000)
    ensures c & 0xFF00_0000 == d & 0xFF00_0000
  {
  }

  lemma SameByte3(c: bv32, d: bv32)
    requires Bits(c) == Bits(d)
    ensures c & 0xFF00_0000 == d & 0xFF00_0000
  {
    SameBit(c, d, 24, 0x1000000); SameBit(c, d, 25, 0x2000000);
    SameBit(c, d, 26, 0x4000000); SameBit(c, d, 27, 0x8000000);
    SameBit(c, d, 28, 0x10000000); SameBit(c, d, 29, 0x20000000);
    SameBit(c, d, 30, 0x40000000); SameBit(c, d, 31, 0x80000000);
    Byte3(c, d);
  }

  lemma FourBytes(c: bv32, d: bv32)
    requires c & 0xFF == d & 0xFF && c & 0xFF00 == d & 0xFF00
    requires c & 0xFF_0000 == d & 0xFF_0000 && c & 0xFF00_0000 == d & 0xFF00_0000
    ensures c == d
  {
  }

  /** A word is determined by its bits. */
  lemma BitsInjective(c: bv32, d: bv32)
    ensures Bits(c) == Bits(d) <==> c == d
  {
    if Bits(c) == Bits(d) {
      SameByte0(c, d);
      SameByte1(c, d);
      SameByte2(c, d);
      SameByte3(c, d);
      FourBytes(c, d);
    }
  }

  // ---------------------------------------------------------------------------------------------
  // Bytes
  // ---------------------------------------------------------------------------------------------

  function ByteBits(b: bv8): (bits: Poly)
    ensures |bits| == 8
  {
    Bits(b as bv32)[..8]
  }

  lemma ByteHas(b: bv8, m: bv32)
    requires m & 0xFF == 0
    ensures !Has(b as bv32, m)
  {
  }

  lemma HighMask(i: nat)
    requires i < 32
    ensures if i < 8 then Mask(i) & 0xFF == Mask(i) else Mask(i) & 0xFF == 0
  {
    match i
    case 0 => case 1 => case 2 => case 3 => case 4 => case 5 => case 6 => case 7 =>
    case 8 => case 9 => case 10 => case 11 => case 12 => case 13 => case 14 => case 15 =>
    case 16 => case 17 => case 18 => case 19 => case 20 => case 21 => case 22 => case 23 =>
    case 24 => case 25 => case 26 => case 27 => case 28 => case 29 => case 30 => case 31 =>
  }

  lemma BitsOfByte(b: bv8)
    ensures Bits(b as bv32) == ByteBits(b) + Zeros(24)
  {
    forall i | 8 <= i < 32 ensures !Has(b as bv32, Mask(i)) {
      HighMask(i);
      ByteHas(b, Mask(i));
    }
  }

  lemma ByteBitsInjective(a: bv8, b: bv8)
    ensures ByteBits(a) == ByteBits(b) <==> a == b
  {
    if ByteBits(a) == ByteBits(b) {
      BitsOfByte(a);
      BitsOfByte(b);
      BitsInjective(a as bv32, b as bv32);
      Widening(a, b);
    }
  }

  lemma Widening(a: bv8, b: bv8)
    requires a as bv32 == b as bv32
    ensures a == b
  {
  }

  function LowByte(w: bv32): bv8 {
    (w & 0xFF) as bv8
  }

  lemma LowByteHas(w: bv32, m: bv32)
    requires m & 0xFF == m
    ensures Has(LowByte(w) as bv32, m) == Has(w, m)
  {
  }

  lemma BitsOfLowByte(w: bv32)
    ensures ByteBits(LowByte(w)) == Bits(w)[..8]
  {
    forall i | 0 <= i < 8 ensures Has(LowByte(w) as bv32, Mask(i)) == Has(w, Mask(i)) {
      HighMask(i);
      LowByteHas(w, Mask(i));
    }
  }

  lemma ShiftTwo(w: bv32)
    ensures w >> 1 >> 1 == w >> 2
  {
  }

  lemma ShiftFour(w: bv32)
    ensures w >> 2 >> 2 == w >> 4
  {
  }

  lemma ShiftEight(w: bv32)
    ensures w >> 4 >> 4 == w >> 8
  {
  }

  lemma DropTwice(a: Poly, b: Poly, c: Poly, n: nat)
    requires |a| == |b| == 32 && n <= 16
    requires b == a[n..] + Zeros(n) && c == b[n..] + Zeros(n)
    ensures c == a[2 * n..] + Zeros(2 * n)
  {
  }

  lemma BitsOfShiftTwo(w: bv32)
    ensures Bits(w >> 2) == Bits(w)[2..] + Zeros(2)
  {
    BitsOfShift(w);
    BitsOfShift(w >> 1);
    assert Zeros(1) == [false];
    DropTwice(Bits(w), Bits(w >> 1), Bits(w >> 1 >> 1), 1);
    ShiftTwo(w);
  }

  lemma BitsOfShiftFour(w: bv32)
    ensures Bits(w >> 4) == Bits(w)[4..] + Zeros(4)
  {
    BitsOfShiftTwo(w);
    BitsOfShiftTwo(w >> 2);
    DropTwice(Bits(w), Bits(w >> 2), Bits(w >> 2 >> 2), 2);
    ShiftFour(w);
  }

  lemma BitsOfShiftEight(w: bv32)
    ensures Bits(w >> 8) == Bits(w)[8..] + Zeros(8)
  {
    BitsOfShiftFour(w);
    BitsOfShiftFour(w >> 4);
    DropTwice(Bits(w), Bits(w >> 4), Bits(w >> 4 >> 4), 4);
    ShiftEight(w);
  }
}
