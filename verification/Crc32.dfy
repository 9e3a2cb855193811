/** crc32_calculate (src/bootloader/bootloader.c) computes the CRC-32 of RFC 1952. */
module Crc32 {
  import opened CrcRegister
  import opened Gf2
  import opened Words

  /** x^32 + x^26 + x^23 + x^22 + x^16 + x^12 + x^11 + x^10 + x^8 + x^7 + x^5 + x^4 + x^2 + x + 1 */
  function Generator(): (g: Poly)
    ensures Generating(g)
  {
    var o, l := false, true;
    [l,
     o, o, o, o, o, l, o, o, l, l, o, o, o, o, o, l,
     o, o, o, l, l, l, o, l, l, o, l, l, o, l, l, l]
  }

  /** The bits of a message in the order of transmission, the lowest bit of each byte first. */
  function MessageBits(data: seq<bv8>): (bits: seq<bool>)
    ensures |bits| == 8 * |data|
  {
    if data == [] then [] else ByteBits(data[0]) + MessageBits(data[1..])
  }

  lemma {:induction false} MessageBitsConcat(a: seq<bv8>, b: seq<bv8>)
    ensures MessageBits(a + b) == MessageBits(a) + MessageBits(b)
    decreases |a|
  {
    if a == [] {
      assert a + b == b;
    } else {
      assert (a + b)[1..] == a[1..] + b;
      MessageBitsConcat(a[1..], b);
    }
  }

  lemma {:induction false} MessageBitsInjective(a: seq<bv8>, b: seq<bv8>)
    requires |a| == |b|
    ensures MessageBits(a) == MessageBits(b) <==> a == b
    decreases |a|
  {
    if a != [] && MessageBits(a) == MessageBits(b) {
      assert MessageBits(a)[..8] == ByteBits(a[0]) && MessageBits(a)[8..] == MessageBits(a[1..]);
      assert MessageBits(b)[..8] == ByteBits(b[0]) && MessageBits(b)[8..] == MessageBits(b[1..]);
      ByteBitsInjective(a[0], b[0]);
      MessageBitsInjective(a[1..], b[1..]);
      assert a == [a[0]] + a[1..] && b == [b[0]] + b[1..];
    }
  }

  lemma {:induction false} MessageBitsOfThree(a: seq<bv8>, b: seq<bv8>, c: seq<bv8>)
    ensures MessageBits(a + b + c) == MessageBits(a) + MessageBits(b) + MessageBits(c)
  {
    MessageBitsConcat(a + b, c);
    MessageBitsConcat(a, b);
  }

  // ---------------------------------------------------------------------------------------------
  // The code
  // ---------------------------------------------------------------------------------------------

  const REFLECTED_POLYNOMIAL: bv32 := 0xEDB88320

  /** The constant of the code is the generator without its leading term, bits reversed. */
  lemma PolynomialBits()
    ensures Bits(REFLECTED_POLYNOMIAL) == Generator()[1..]
  {
    forall i | 0 <= i < 32 ensures Has(REFLECTED_POLYNOMIAL, Mask(i)) == Generator()[i + 1] {
      match i
      case 0 => case 1 => case 2 => case 3 => case 4 => case 5 => case 6 => case 7 =>
      case 8 => case 9 => case 10 => case 11 => case 12 => case 13 => case 14 => case 15 =>
      case 16 => case 17 => case 18 => case 19 => case 20 => case 21 => case 22 => case 23 =>
      case 24 => case 25 => case 26 => case 27 => case 28 => case 29 => case 30 => case 31 =>
    }
  }

  /** One turn of the inner loop, with the mask -(crc & 1) spelled out as a choice. */
  function Step(c: bv32): bv32 {
    if Has(c, 1) then (c >> 1) ^ REFLECTED_POLYNOMIAL else c >> 1
  }

  lemma StepInCode(c: bv32)
    ensures (c >> 1) ^ (REFLECTED_POLYNOMIAL & (0 - (c & 1))) == Step(c)
  {
    if Has(c, 1) {
      assert c & 1 == 1;
    } else {
      assert c & 1 == 0;
    }
  }

  lemma StepIsFeed(c: bv32, g: Poly)
    requires g == Generator()
    ensures Bits(Step(c)) == Feed(Bits(c), false, g)
  {
    BitsOfShift(c);
    BitsOfXor(c >> 1, REFLECTED_POLYNOMIAL);
    PolynomialBits();
    assert Bits(c)[0] == Has(c, Mask(0));
    AddZeros(Bits(c >> 1));
  }

  method ShiftOnce(crc: bv32, ghost g: Poly) returns (r: bv32)
    requires g == Generator()
    ensures Bits(r) == Feed(Bits(crc), false, g)
  {
    StepInCode(crc);
    StepIsFeed(crc, g);
    r := (crc >> 1) ^ (REFLECTED_POLYNOMIAL & (0 - (crc & 1)));
  }

  /** The inner loop. */
  method ShiftByte(start: bv32, ghost g: Poly) returns (crc: bv32)
    requires g == Generator()
    ensures Bits(crc) == FeedAll(Bits(start), Zeros(8), g)
  {
    crc := start;
    for j := 0 to 8
      invariant Bits(crc) == FeedAll(Bits(start), Zeros(j), g)
    {
      crc := ShiftOnce(crc, g);
      FeedConcat(Bits(start), Zeros(j), [false], g);
      assert Zeros(j + 1) == Zeros(j) + [false];
    }
  }

  method XorByte(crc: bv32, b: bv8) returns (r: bv32)
    ensures Bits(r) == Add(Bits(crc), ByteBits(b) + Zeros(24))
  {
    r := crc ^ (b as bv32);
    BitsOfXor(crc, b as bv32);
    BitsOfByte(b);
  }

  /** The body of the outer loop. */
  method FeedByte(crc: bv32, b: bv8, ghost g: Poly) returns (r: bv32)
    requires g == Generator()
    ensures Bits(r) == FeedAll(Bits(crc), ByteBits(b), g)
  {
    r := XorByte(crc, b);
    r := ShiftByte(r, g);
    AbsorbString(Bits(crc), ByteBits(b), g);
  }

  lemma {:induction false} FeedLastByte(data: seq<bv8>, b: bv8, g: Poly)
    requires Generating(g)
    ensures FeedAll(Ones(32), MessageBits(data + [b]), g) ==
            FeedAll(FeedAll(Ones(32), MessageBits(data), g), ByteBits(b), g)
  {
    MessageBitsConcat(data, [b]);
    assert MessageBits([b]) == ByteBits(b) + MessageBits([]) == ByteBits(b);
    FeedConcat(Ones(32), MessageBits(data), ByteBits(b), g);
  }

  lemma PresetIsOnes()
    ensures Bits(0xFFFF_FFFF) == Ones(32)
  {
    forall i | 0 <= i < 32 ensures Has(0xFFFF_FFFF, Mask(i)) {
      MasksAreBits(i);
      AllHas(Mask(i));
    }
  }

  lemma AllHas(m: bv32)
    requires OneBit(m)
    ensures Has(0xFFFF_FFFF, m)
  {
  }

  method Complement(crc: bv32) returns (r: bv32)
    ensures Bits(r) == Add(Bits(crc), Ones(32))
  {
    BitsOfNot(crc);
    r := !crc;
  }

  /** The bits of the checksum of a message, lowest bit first. */
  function CrcBits(data: seq<bv8>): (r: Poly)
    ensures |r| == 32
  {
    Checksum(MessageBits(data), Generator())
  }

  /** For every message the code computes the specified checksum, and no other word has its bits. */
  method Crc32Calculate(data: array<bv8>, len: nat) returns (result: bv32)
    requires len <= data.Length
    ensures forall w :: Bits(w) == CrcBits(data[..len]) <==> w == result
  {
    ghost var g := Generator();
    var crc: bv32 := 0xFFFF_FFFF;
    PresetIsOnes();
    for i := 0 to len
      invariant Bits(crc) == FeedAll(Ones(32), MessageBits(data[..i]), g)
    {
      crc := FeedByte(crc, data[i], g);
      FeedLastByte(data[..i], data[i], g);
      assert data[..i + 1] == data[..i] + [data[i]];
    }
    FeedIsRemainder(Ones(32), MessageBits(data[..len]), g);
    result := Complement(crc);
    OnlyWord(result);
  }

  lemma OnlyWord(v: bv32)
    ensures forall w :: Bits(w) == Bits(v) <==> w == v
  {
    forall w ensures Bits(w) == Bits(v) <==> w == v {
      BitsInjective(w, v);
    }
  }

  // ---------------------------------------------------------------------------------------------
  // What the checksum detects
  // ---------------------------------------------------------------------------------------------

  /** Messages of one length that differ only within four consecutive bytes never share a CRC. */
  lemma FourBytesAreDetected(pre: seq<bv8>, p: seq<bv8>, q: seq<bv8>, post: seq<bv8>)
    requires |p| == |q| <= 4
    ensures CrcBits(pre + p + post) == CrcBits(pre + q + post) <==> p == q
  {
    MessageBitsOfThree(pre, p, post);
    MessageBitsOfThree(pre, q, post);
    BurstsAreDetected(MessageBits(pre), MessageBits(p), MessageBits(q), MessageBits(post), Generator());
    MessageBitsInjective(p, q);
  }

  // ---------------------------------------------------------------------------------------------
  // Residue
  // ---------------------------------------------------------------------------------------------

  const RESIDUE: bv32 := 0x2144DF1C

  lemma BitsOfLittleEndian(w: bv32, w1: bv32, w2: bv32, w3: bv32)
    requires w1 == w >> 8 && w2 == w1 >> 8 && w3 == w2 >> 8
    ensures MessageBits([LowByte(w), LowByte(w1), LowByte(w2), LowByte(w3)]) == Bits(w)
  {
    BitsOfLowByte(w);
    BitsOfLowByte(w1);
    BitsOfLowByte(w2);
    BitsOfLowByte(w3);
    BitsOfShiftEight(w);
    BitsOfShiftEight(w1);
    BitsOfShiftEight(w2);
    BytesInOrder(LowByte(w), LowByte(w1), LowByte(w2), LowByte(w3), Bits(w), Bits(w1), Bits(w2), Bits(w3));
  }

  lemma BytesInOrder(a: bv8, b: bv8, c: bv8, d: bv8, x: Poly, y: Poly, z: Poly, u: Poly)
    requires |x| == |y| == |z| == |u| == 32
    requires y == x[8..] + Zeros(8) && z == y[8..] + Zeros(8) && u == z[8..] + Zeros(8)
    requires ByteBits(a) == x[..8] && ByteBits(b) == y[..8] && ByteBits(c) == z[..8] && ByteBits(d) == u[..8]
    ensures MessageBits([a, b, c, d]) == x
  {
    MessageBitsConcat([a, b], [c, d]);
    MessageBitsConcat([a], [b]);
    MessageBitsConcat([c], [d]);
    assert [a, b, c, d] == [a, b] + [c, d] && [a, b] == [a] + [b] && [c, d] == [c] + [d];
    assert MessageBits([a]) == ByteBits(a) && MessageBits([b]) == ByteBits(b);
    assert MessageBits([c]) == ByteBits(c) && MessageBits([d]) == ByteBits(d);
    DropTwice(x, y, z, 8);
    assert u == x[24..] + Zeros(24);
    assert y[..8] == x[8..16] && z[..8] == x[16..24] && u[..8] == x[24..];
    assert x == x[..8] + x[8..16] + (x[16..24] + x[24..]);
  }

  /** The bytes of a word, least significant first. */
  function LittleEndian(w: bv32): (bytes: seq<bv8>)
    ensures |bytes| == 4 && MessageBits(bytes) == Bits(w)
  {
    var w1 := w >> 8;
    var w2 := w1 >> 8;
    var w3 := w2 >> 8;
    BitsOfLittleEndian(w, w1, w2, w3);
    [LowByte(w), LowByte(w1), LowByte(w2), LowByte(w3)]
  }

  lemma {:induction false} FourFeeds(a: Poly, b: Poly, c: Poly, d: Poly, e: Poly, g: Poly)
    requires |a| == |b| == |c| == |d| == 32 && Generating(g)
    requires b == Feed(a, false, g) && c == Feed(b, false, g) && d == Feed(c, false, g) && e == Feed(d, false, g)
    ensures FeedAll(a, [false, false, false, false], g) == e
  {
    assert FeedAll(a, [false, false, false, false], g) == FeedAll(b, [false, false, false], g);
    assert FeedAll(b, [false, false, false], g) == FeedAll(c, [false, false], g);
    assert FeedAll(c, [false, false], g) == FeedAll(d, [false], g) == e;
  }

  /** Four more zeros into the register that started with ones. */
  lemma FourSteps(n: nat, a: bv32, b: bv32, c: bv32, d: bv32, e: bv32)
    requires FeedAll(Ones(32), Zeros(n), Generator()) == Bits(a)
    requires b == Step(a) && c == Step(b) && d == Step(c) && e == Step(d)
    ensures FeedAll(Ones(32), Zeros(n + 4), Generator()) == Bits(e)
  {
    var g := Generator();
    StepIsFeed(a, g);
    StepIsFeed(b, g);
    StepIsFeed(c, g);
    StepIsFeed(d, g);
    FourFeeds(Bits(a), Bits(b), Bits(c), Bits(d), Bits(e), g);
    assert Zeros(n + 4) == Zeros(n) + [false, false, false, false];
    FeedConcat(Ones(32), Zeros(n), [false, false, false, false], g);
  }

  lemma OnesAfterSixteen()
    ensures FeedAll(Ones(32), Zeros(16), Generator()) == Bits(0xBE26ED00)
  {
    PresetIsOnes();
    assert Zeros(0) == [];
    FourSteps(0, 0xFFFFFFFF, 0x92477CDF, 0xA49B3D4F, 0xBFF51D87, 0xB2420DE3);
    FourSteps(4, 0xB2420DE3, 0xB49985D1, 0xB7F441C8, 0x5BFA20E4, 0x2DFD1072);
    FourSteps(8, 0x2DFD1072, 0x16FE8839, 0xE6C7C73C, 0x7363E39E, 0x39B1F1CF);
    FourSteps(12, 0x39B1F1CF, 0xF1607BC7, 0x9508BEC3, 0xA73CDC41, 0xBE26ED00);
  }

  lemma OnesRunOut()
    ensures FeedAll(Ones(32), Zeros(32), Generator()) == Bits(0xDEBB20E3)
  {
    OnesAfterSixteen();
    FourSteps(16, 0xBE26ED00, 0x5F137680, 0x2F89BB40, 0x17C4DDA0, 0x0BE26ED0);
    FourSteps(20, 0x0BE26ED0, 0x05F13768, 0x02F89BB4, 0x017C4DDA, 0x00BE26ED);
    FourSteps(24, 0x00BE26ED, 0xEDE79056, 0x76F3C82B, 0xD6C16735, 0x86D830BA);
    FourSteps(28, 0x86D830BA, 0x436C185D, 0xCC0E8F0E, 0x66074787, 0xDEBB20E3);
  }

  lemma ResidueBits()
    ensures Bits(RESIDUE) == Add(FeedAll(Ones(32), Zeros(32), Generator()), Ones(32))
  {
    OnesRunOut();
    BitsOfNot(0xDEBB20E3);
    assert Bits(RESIDUE) == Add(Bits(0xDEBB20E3), Ones(32));
  }

  lemma {:induction false} TrailerBits(trailer: seq<bv8>, crc: bv32)
    requires |trailer| == 4
    ensures MessageBits(trailer) == Bits(crc) <==> trailer == LittleEndian(crc)
  {
    MessageBitsInjective(trailer, LittleEndian(crc));
  }

  /** A message and a four-byte trailer have the CRC 0x2144DF1C exactly if the trailer is the
      little-endian CRC of the message. */
  lemma Residue(data: seq<bv8>, trailer: seq<bv8>, crc: bv32)
    requires |trailer| == 4 && Bits(crc) == CrcBits(data)
    ensures CrcBits(data + trailer) == Bits(RESIDUE) <==> trailer == LittleEndian(crc)
  {
    MessageBitsConcat(data, trailer);
    TrailerIsChecked(MessageBits(data), MessageBits(trailer), Generator());
    ResidueBits();
    TrailerBits(trailer, crc);
  }
}
