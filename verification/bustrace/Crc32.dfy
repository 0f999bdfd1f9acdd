/** The trace's CRC-32: the bitwise loop, and what it means as division of the
    message polynomial. */
module Crc32 {
  import opened Common
  import opened Gf2

  const POLY: bv32 := 0xedb8_8320

  /** One shift of the register. */
  function Shift(crc: bv32): bv32 {
    if crc & 1 == 1 then (crc >> 1) ^ POLY else crc >> 1
  }

  function Shifts(crc: bv32, n: nat): bv32
    decreases n, crc
  {
    if n == 0 then crc else Shifts(Shift(crc), n - 1)
  }

  function Absorb(crc: bv32, b: bv8): bv32 {
    Shifts(crc ^ (b as bv32), 8)
  }

  function AbsorbAll(crc: bv32, buf: seq<bv8>): bv32
    decreases |buf|
  {
    if buf == [] then crc else AbsorbAll(Absorb(crc, buf[0]), buf[1..])
  }

  function Complement(x: bv32): bv32 {
    x ^ 0xffff_ffff
  }

  function Crc(seed: bv32, buf: seq<bv8>): bv32 {
    Complement(AbsorbAll(Complement(seed), buf))
  }

  /** The inner loop: eight shifts, the generator selected by a mask of ones. */
  method ShiftByte(start: bv32) returns (crc: bv32)
    ensures crc == Shifts(start, 8)
  {
    crc := start;
    ghost var left: nat := 8;
    for b := 0 to 8
      invariant left == 8 - b && Shifts(crc, left) == Shifts(start, 8)
    {
      MaskSelects(crc);
      var mask: bv32 := 0 - (crc & 1);
      crc := (crc >> 1) ^ (POLY & mask);
      left := left - 1;
    }
  }

  /** revice_bustrace_crc32 */
  method Compute(seed: bv32, buf: seq<bv8>) returns (crc: bv32)
    ensures crc == Crc(seed, buf)
  {
    crc := Complement(seed);
    for i := 0 to |buf|
      invariant AbsorbAll(crc, buf[i..]) == AbsorbAll(Complement(seed), buf)
    {
      assert buf[i..][0] == buf[i] && buf[i..][1..] == buf[i + 1..];
      crc := crc ^ (buf[i] as bv32);
      crc := ShiftByte(crc);
    }
    assert buf[|buf|..] == [];
    crc := Complement(crc);
  }

  lemma MaskSelects(crc: bv32)
    ensures (crc >> 1) ^ (POLY & (0 - (crc & 1))) == Shift(crc)
  {
    assert crc & 1 == 0 || crc & 1 == 1;
  }

  // ---- Words as coefficient lists -----------------------------------------------

  /** The word with only bit i set. */
  function Weight(i: nat): bv32
    requires i < 32
  {
    if i >= 16 then Weight(i - 16) << 16
    else if i < 8 then
      if i < 4 then (if i == 0 then 0x1 else if i == 1 then 0x2 else if i == 2 then 0x4 else 0x8)
      else (if i == 4 then 0x10 else if i == 5 then 0x20 else if i == 6 then 0x40 else 0x80)
    else
      if i < 12 then (if i == 8 then 0x100 else if i == 9 then 0x200 else if i == 10 then 0x400 else 0x800)
      else (if i == 12 then 0x1000 else if i == 13 then 0x2000 else if i == 14 then 0x4000 else 0x8000)
  }

  predicate Bit(x: bv32, i: nat)
    requires i < 32
  {
    x & Weight(i) != 0
  }

  /** The register reflected: bit i is the coefficient of x^(31 - i). */
  function Bits(x: bv32): (c: Poly)
    ensures |c| == 32 && forall i :: 0 <= i < 32 ==> c[i] == Bit(x, i)
  {
    seq(32, i requires 0 <= i < 32 => Bit(x, i))
  }

  predicate Single(m: bv32) {
    m != 0 && m & (m - 1) == 0
  }

  lemma WeightFacts(i: nat)
    requires i < 32
    ensures Single(Weight(i))
    ensures i < 31 ==> Weight(i) & 0x8000_0000 == 0 && Weight(i + 1) == Weight(i) << 1
  {
  }

  lemma SingleXor(a: bv32, b: bv32, m: bv32)
    requires Single(m)
    ensures ((a ^ b) & m != 0) <==> ((a & m != 0) != (b & m != 0))
  {
  }

  lemma ShiftedMask(x: bv32, half: bv32, m: bv32, up: bv32)
    requires half == x >> 1 && up == m << 1 && m & 0x8000_0000 == 0
    ensures half & m != 0 <==> x & up != 0
  {
  }

  lemma BitsXor(a: bv32, b: bv32)
    ensures Bits(a ^ b) == Xor(Bits(a), Bits(b))
  {
    forall i | 0 <= i < 32 ensures Bits(a ^ b)[i] == Xor(Bits(a), Bits(b))[i] {
      WeightFacts(i);
      SingleXor(a, b, Weight(i));
    }
  }

  // The weights are parameters so that the solver need not look inside them.
  lemma HalfBit(x: bv32, half: bv32, i: nat, m: bv32, up: bv32)
    requires half == x >> 1 && i < 31 && m == Weight(i) && up == Weight(i + 1)
    ensures half & m != 0 <==> x & up != 0
  {
    WeightFacts(i);
    ShiftedMask(x, half, m, up);
  }

  lemma BitIs(x: bv32, i: nat, m: bv32)
    requires i < 32 && m == Weight(i)
    ensures Bit(x, i) <==> x & m != 0
  {
  }

  lemma BitHalf(x: bv32, half: bv32, i: nat, m: bv32, up: bv32)
    requires half == x >> 1 && i < 31 && m == Weight(i) && up == Weight(i + 1)
    ensures Bit(half, i) <==> Bit(x, i + 1)
  {
    HalfBit(x, half, i, m, up);
    BitIs(half, i, m);
    BitIs(x, i + 1, up);
  }

  lemma AllHalf(x: bv32, half: bv32)
    requires half == x >> 1
    ensures forall i :: 0 <= i < 31 ==> (Bit(half, i) <==> Bit(x, i + 1))
  {
    forall i | 0 <= i < 31 ensures Bit(half, i) <==> Bit(x, i + 1) {
      BitHalf(x, half, i, Weight(i), Weight(i + 1));
    }
  }

  lemma EndBit(x: bv32, half: bv32)
    requires half == x >> 1
    ensures !Bit(half, 31)
    ensures Bit(x, 0) <==> x & 1 == 1
  {
  }

  lemma ShiftedList(p: Poly, q: Poly)
    requires |p| == |q| == 32 && !q[31] && forall i :: 0 <= i < 31 ==> q[i] == p[i + 1]
    ensures q == p[1..] + [false]
  {
  }

  lemma BitsHalf(x: bv32)
    ensures Bits(x >> 1) == Bits(x)[1..] + [false]
    ensures Bits(x)[0] == (x & 1 == 1)
  {
    AllHalf(x, x >> 1);
    EndBit(x, x >> 1);
    ShiftedList(Bits(x), Bits(x >> 1));
  }

  lemma PolyBit(i: nat)
    requires i < 32
    ensures Bit(POLY, i) <==> HasTerm(31 - i)
  {
    if i >= 16 {
      assert Weight(i) == Weight(i - 16) << 16;
    }
  }

  /** The constant in the code is the generator of the standard, reflected. */
  lemma PolyIsGenerator()
    ensures Bits(POLY) == Tail()
  {
    forall i | 0 <= i < 32 ensures Bits(POLY)[i] == Tail()[i] {
      PolyBit(i);
    }
  }

  lemma BitsShift(x: bv32)
    ensures Bits(Shift(x)) == Feed(Bits(x), false)
  {
    BitsHalf(x);
    BitsXor(x >> 1, POLY);
    PolyIsGenerator();
  }

  lemma {:induction false} BitsShifts(x: bv32, n: nat)
    ensures Bits(Shifts(x, n)) == Run(Bits(x), Zeros(n))
    decreases n
  {
    if n > 0 {
      BitsShift(x);
      BitsShifts(Shift(x), n - 1);
      FeedZeros(Bits(x), n);
    }
  }

  /** A byte goes out least significant bit first. */
  function ByteBits(b: bv8): (c: Poly)
    ensures |c| == 8
  {
    Bits(b as bv32)[..8]
  }

  function MessageBits(buf: seq<bv8>): (c: Poly)
    ensures |c| == 8 * |buf|
  {
    if buf == [] then [] else ByteBits(buf[0]) + MessageBits(buf[1..])
  }

  lemma HighBitsClear(b: bv8, i: nat)
    requires 8 <= i < 32
    ensures !Bit(b as bv32, i)
  {
    assert Weight(i) & 0xff == 0;
    ByteBelow(b, Weight(i));
  }

  lemma ByteBelow(b: bv8, m: bv32)
    requires m & 0xff == 0
    ensures (b as bv32) & m == 0
  {
  }

  lemma BitsOfByte(b: bv8)
    ensures Bits(b as bv32) == ByteBits(b) + Zeros(24)
  {
    var x := b as bv32;
    forall i | 8 <= i < 32 ensures !Bits(x)[i] { HighBitsClear(b, i); }
  }

  lemma BitsAbsorb(crc: bv32, b: bv8)
    ensures Bits(Absorb(crc, b)) == Run(Bits(crc), ByteBits(b))
  {
    BitsOfByte(b);
    BitsXor(crc, b as bv32);
    BitsShifts(crc ^ (b as bv32), 8);
    RunIsShiftOfSum(Bits(crc), ByteBits(b));
  }

  /** The loop over bytes is the shift register over the transmitted bits. */
  lemma {:induction false} BitsAbsorbAll(crc: bv32, buf: seq<bv8>)
    ensures Bits(AbsorbAll(crc, buf)) == Run(Bits(crc), MessageBits(buf))
    decreases |buf|
  {
    if buf != [] {
      BitsAbsorb(crc, buf[0]);
      BitsAbsorbAll(Absorb(crc, buf[0]), buf[1..]);
      RunSplit(Bits(crc), ByteBits(buf[0]), MessageBits(buf[1..]));
    }
  }

  lemma ZeroWord(z: bv32)
    requires forall i :: 0 <= i < 32 ==> !Bit(z, i)
    ensures z == 0
  {
    assert !Bit(z, 0) && !Bit(z, 1) && !Bit(z, 2) && !Bit(z, 3) && !Bit(z, 4) && !Bit(z, 5) && !Bit(z, 6) && !Bit(z, 7);
    assert !Bit(z, 8) && !Bit(z, 9) && !Bit(z, 10) && !Bit(z, 11) && !Bit(z, 12) && !Bit(z, 13) && !Bit(z, 14) && !Bit(z, 15);
    assert !Bit(z, 16) && !Bit(z, 17) && !Bit(z, 18) && !Bit(z, 19) && !Bit(z, 20) && !Bit(z, 21) && !Bit(z, 22) && !Bit(z, 23);
    assert !Bit(z, 24) && !Bit(z, 25) && !Bit(z, 26) && !Bit(z, 27) && !Bit(z, 28) && !Bit(z, 29) && !Bit(z, 30) && !Bit(z, 31);
  }

  lemma BitsInjective(x: bv32, y: bv32)
    requires Bits(x) == Bits(y)
    ensures x == y
  {
    BitsXor(x, y);
    var z := x ^ y;
    forall i | 0 <= i < 32 ensures !Bit(z, i) {
      assert Bits(z)[i] == Xor(Bits(x), Bits(y))[i];
    }
    ZeroWord(z);
    XorZero(x, y);
  }

  lemma XorZero(x: bv32, y: bv32)
    requires x ^ y == 0
    ensures x == y
  {
  }

  // ---- What the checksum is -------------------------------------------------------

  const ONES: bv32 := 0xffff_ffff

  lemma BitsOfComplement(x: bv32)
    ensures Bits(Complement(x)) == Xor(Bits(x), Fill(true, 32))
  {
    BitsXor(x, ONES);
    BitsOfOnes();
  }

  lemma BitsOfOnes()
    ensures Bits(ONES) == Fill(true, 32)
  {
    forall i | 0 <= i < 32 ensures Bits(ONES)[i] {
      WeightFacts(i);
      AndOnes(Weight(i));
    }
  }

  lemma AndOnes(m: bv32)
    ensures ONES & m == m
  {
  }

  lemma ComplementTwice(x: bv32)
    ensures Complement(Complement(x)) == x && Complement(0) == ONES
  {
  }

  /** For every byte string, the checksum is the complement of the reflected
      remainder of (message * x^32 with its first 32 coefficients complemented)
      modulo the generator: no other word's complement is such a remainder. */
  lemma CrcIsRemainder(buf: seq<bv8>, crc: bv32)
    ensures IsRemainder(Dividend(Fill(true, 32), MessageBits(buf)), Bits(Complement(crc)))
      <==> crc == Crc(0, buf)
  {
    var state := AbsorbAll(ONES, buf);
    ComplementTwice(crc);
    ComplementTwice(state);
    BitsOfOnes();
    BitsAbsorbAll(ONES, buf);
    RunIsTheRemainder(Fill(true, 32), MessageBits(buf), Bits(Complement(crc)));
    if Bits(Complement(crc)) == Bits(state) {
      BitsInjective(Complement(crc), state);
    }
  }

  lemma {:induction false} AbsorbAllSplit(crc: bv32, a: seq<bv8>, b: seq<bv8>)
    ensures AbsorbAll(crc, a + b) == AbsorbAll(AbsorbAll(crc, a), b)
    decreases |a|
  {
    if a == [] {
      assert a + b == b;
    } else {
      AbsorbAllSplit(Absorb(crc, a[0]), a[1..], b);
      assert (a + b)[1..] == a[1..] + b;
    }
  }

  /** A checksum may be continued from any split point. */
  lemma CrcComposes(seed: bv32, a: seq<bv8>, b: seq<bv8>)
    ensures Crc(Crc(seed, a), b) == Crc(seed, a + b)
  {
    AbsorbAllSplit(Complement(seed), a, b);
    ComplementTwice(AbsorbAll(Complement(seed), a));
  }

  function XorBytes(a: seq<bv8>, b: seq<bv8>): (c: seq<bv8>)
    requires |a| == |b|
    ensures |c| == |a|
  {
    if a == [] then [] else [a[0] ^ b[0]] + XorBytes(a[1..], b[1..])
  }

  lemma ByteBitsXor(a: bv8, b: bv8)
    ensures ByteBits(a ^ b) == Xor(ByteBits(a), ByteBits(b))
  {
    WidenXor(a, b);
    BitsXor(a as bv32, b as bv32);
  }

  lemma WidenXor(a: bv8, b: bv8)
    ensures (a ^ b) as bv32 == (a as bv32) ^ (b as bv32)
  {
  }

  lemma {:induction false} MessageBitsXor(a: seq<bv8>, b: seq<bv8>)
    requires |a| == |b|
    ensures MessageBits(XorBytes(a, b)) == Xor(MessageBits(a), MessageBits(b))
  {
    if a != [] {
      ByteBitsXor(a[0], b[0]);
      MessageBitsXor(a[1..], b[1..]);
      assert XorBytes(a, b)[1..] == XorBytes(a[1..], b[1..]);
    }
  }

  lemma BitsOfCrc(seed: bv32, buf: seq<bv8>)
    ensures Bits(Crc(seed, buf)) == Xor(Run(Bits(Complement(seed)), MessageBits(buf)), Fill(true, 32))
  {
    BitsAbsorbAll(Complement(seed), buf);
    BitsOfComplement(AbsorbAll(Complement(seed), buf));
  }

  lemma RunAffine(r: Poly, u: Poly, v: Poly, w: Poly)
    requires |r| == 32 && |u| == |v| == |w|
    ensures Run(r, Xor(Xor(u, v), w)) == Xor(Xor(Run(r, u), Run(r, v)), Run(r, w))
  {
    RunLinear(r, r, u, v);
    RunLinear(Xor(r, r), r, Xor(u, v), w);
    assert Xor(Xor(r, r), r) == r;
  }

  lemma XorThreeComplements(x: Poly, y: Poly, z: Poly, one: Poly)
    requires |x| == |y| == |z| == |one|
    ensures Xor(Xor(Xor(x, y), z), one) == Xor(Xor(Xor(x, one), Xor(y, one)), Xor(z, one))
  {
  }

  lemma BitsXorThree(x: bv32, y: bv32, z: bv32)
    ensures Bits(x ^ y ^ z) == Xor(Xor(Bits(x), Bits(y)), Bits(z))
  {
    BitsXor(x, y);
    BitsXor(x ^ y, z);
  }

  /** The checksum is XOR-affine in equal-length inputs. */
  lemma CrcAffine(seed: bv32, a: seq<bv8>, b: seq<bv8>, c: seq<bv8>)
    requires |a| == |b| == |c|
    ensures Crc(seed, XorBytes(XorBytes(a, b), c)) == Crc(seed, a) ^ Crc(seed, b) ^ Crc(seed, c)
  {
    var r, u, v, w := Bits(Complement(seed)), MessageBits(a), MessageBits(b), MessageBits(c);
    var all := XorBytes(XorBytes(a, b), c);
    BitsOfCrc(seed, a);
    BitsOfCrc(seed, b);
    BitsOfCrc(seed, c);
    BitsOfCrc(seed, all);
    MessageBitsXor(a, b);
    MessageBitsXor(XorBytes(a, b), c);
    RunAffine(r, u, v, w);
    XorThreeComplements(Run(r, u), Run(r, v), Run(r, w), Fill(true, 32));
    var x, y, z := Crc(seed, a), Crc(seed, b), Crc(seed, c);
    BitsXorThree(x, y, z);
    BitsInjective(Crc(seed, all), x ^ y ^ z);
  }

  // ---- Error detection --------------------------------------------------------------

  /** Byte strings whose transmitted bits differ, but only inside one window of 32
      consecutive bits (wherever it starts), have different checksums. */
  lemma BurstDetected(seed: bv32, a: seq<bv8>, b: seq<bv8>, before: Poly, u: Poly, v: Poly, after: Poly)
    requires MessageBits(a) == before + u + after && MessageBits(b) == before + v + after
    requires |u| == |v| <= 32 && u != v
    ensures Crc(seed, a) != Crc(seed, b)
  {
    var s := Complement(seed);
    BitsAbsorbAll(s, a);
    BitsAbsorbAll(s, b);
    BurstChangesRemainder(Bits(s), before, u, v, after);
    ComplementTwice(AbsorbAll(s, a));
    ComplementTwice(AbsorbAll(s, b));
  }

  lemma {:induction false} MessageBitsSplit(a: seq<bv8>, b: seq<bv8>)
    ensures MessageBits(a + b) == MessageBits(a) + MessageBits(b)
  {
    if a == [] {
      assert a + b == b;
    } else {
      MessageBitsSplit(a[1..], b);
      assert (a + b)[1..] == a[1..] + b;
      Regroup(ByteBits(a[0]), MessageBits(a[1..]), MessageBits(b));
    }
  }

  lemma {:induction false} MessageBitsInjective(a: seq<bv8>, b: seq<bv8>)
    requires |a| == |b| && MessageBits(a) == MessageBits(b)
    ensures a == b
  {
    if a != [] {
      assert ByteBits(a[0]) == MessageBits(a)[..8] == MessageBits(b)[..8] == ByteBits(b[0]);
      assert MessageBits(a[1..]) == MessageBits(a)[8..] == MessageBits(b)[8..] == MessageBits(b[1..]);
      MessageBitsInjective(a[1..], b[1..]);
      BitsOfByte(a[0]);
      BitsOfByte(b[0]);
      BitsInjective(a[0] as bv32, b[0] as bv32);
      NarrowBack(a[0], b[0]);
      assert a == [a[0]] + a[1..] && b == [b[0]] + b[1..];
    }
  }

  lemma NarrowBack(a: bv8, b: bv8)
    requires a as bv32 == b as bv32
    ensures a == b
  {
  }

  /** In particular, any change confined to four consecutive bytes. */
  lemma FourByteChangeDetected(seed: bv32, before: seq<bv8>, u: seq<bv8>, v: seq<bv8>, after: seq<bv8>)
    requires |u| == |v| <= 4 && u != v
    ensures Crc(seed, before + u + after) != Crc(seed, before + v + after)
  {
    MessageBitsSplit(before, u);
    MessageBitsSplit(before, v);
    MessageBitsSplit(before + u, after);
    MessageBitsSplit(before + v, after);
    if MessageBits(u) == MessageBits(v) {
      MessageBitsInjective(u, v);
    }
    BurstDetected(seed, before + u + after, before + v + after,
                  MessageBits(before), MessageBits(u), MessageBits(v), MessageBits(after));
  }

  // ---- Residue ------------------------------------------------------------------------

  /** put_u32 */
  function PutU32(x: bv32): (bytes: seq<bv8>)
    ensures |bytes| == 4
  {
    [(x & 0xff) as bv8, ((x >> 8) & 0xff) as bv8, ((x >> 16) & 0xff) as bv8, ((x >> 24) & 0xff) as bv8]
  }

  lemma WeightUp(i: nat, k: nat)
    requires i < 8 && k < 4
    ensures Weight(i + 8 * k) == (if k == 0 then Weight(i) else if k == 1 then Weight(i) << 8 else if k == 2 then Weight(i) << 16 else Weight(i) << 24)
    ensures Weight(i) & 0xff == Weight(i)
  {
  }

  lemma ByteBit(b: bv8, i: nat)
    requires i < 8
    ensures ByteBits(b)[i] <==> (b as bv32) & Weight(i) != 0
  {
  }

  // Each byte of a word is transmitted as a run of the word's own bits.
  lemma FirstByte(x: bv32, b: bv8, m: bv32, w: bv32)
    requires m & 0xff == m && b == (x & 0xff) as bv8 && w == m
    ensures (b as bv32) & m != 0 <==> x & w != 0
  {
  }

  lemma SecondByte(x: bv32, b: bv8, m: bv32, w: bv32)
    requires m & 0xff == m && b == ((x >> 8) & 0xff) as bv8 && w == m << 8
    ensures (b as bv32) & m != 0 <==> x & w != 0
  {
  }

  lemma ThirdByte(x: bv32, b: bv8, m: bv32, w: bv32)
    requires m & 0xff == m && b == ((x >> 16) & 0xff) as bv8 && w == m << 16
    ensures (b as bv32) & m != 0 <==> x & w != 0
  {
  }

  lemma FourthByte(x: bv32, b: bv8, m: bv32, w: bv32)
    requires m & 0xff == m && b == ((x >> 24) & 0xff) as bv8 && w == m << 24
    ensures (b as bv32) & m != 0 <==> x & w != 0
  {
  }

  lemma FirstByteBits(x: bv32, b: bv8)
    requires b == (x & 0xff) as bv8
    ensures ByteBits(b) == Bits(x)[..8]
  {
    forall i | 0 <= i < 8 ensures ByteBits(b)[i] == Bits(x)[i] {
      WeightUp(i, 0);
      FirstByte(x, b, Weight(i), Weight(i));
      ByteBit(b, i);
    }
  }

  lemma SecondByteBits(x: bv32, b: bv8)
    requires b == ((x >> 8) & 0xff) as bv8
    ensures ByteBits(b) == Bits(x)[8..16]
  {
    forall i | 0 <= i < 8 ensures ByteBits(b)[i] == Bits(x)[i + 8] {
      WeightUp(i, 1);
      SecondByte(x, b, Weight(i), Weight(i + 8));
      ByteBit(b, i);
    }
  }

  lemma ThirdByteBits(x: bv32, b: bv8)
    requires b == ((x >> 16) & 0xff) as bv8
    ensures ByteBits(b) == Bits(x)[16..24]
  {
    forall i | 0 <= i < 8 ensures ByteBits(b)[i] == Bits(x)[i + 16] {
      WeightUp(i, 2);
      ThirdByte(x, b, Weight(i), Weight(i + 16));
      ByteBit(b, i);
    }
  }

  lemma FourthByteBits(x: bv32, b: bv8)
    requires b == ((x >> 24) & 0xff) as bv8
    ensures ByteBits(b) == Bits(x)[24..]
  {
    forall i | 0 <= i < 8 ensures ByteBits(b)[i] == Bits(x)[i + 24] {
      WeightUp(i, 3);
      FourthByte(x, b, Weight(i), Weight(i + 24));
      ByteBit(b, i);
    }
  }

  /** A little-endian word is transmitted in the order of its own bits. */
  lemma PutU32Bits(x: bv32)
    ensures MessageBits(PutU32(x)) == Bits(x)
  {
    var b := PutU32(x);
    FirstByteBits(x, b[0]);
    SecondByteBits(x, b[1]);
    ThirdByteBits(x, b[2]);
    FourthByteBits(x, b[3]);
    FourBytes(b);
    Quarters(Bits(x));
  }

  lemma FourBytes(b: seq<bv8>)
    requires |b| == 4
    ensures MessageBits(b) == ByteBits(b[0]) + (ByteBits(b[1]) + (ByteBits(b[2]) + ByteBits(b[3])))
  {
    assert b[1..][1..] == b[2..] && b[2..][1..] == b[3..] && b[3..][1..] == [];
    assert MessageBits(b[3..]) == ByteBits(b[3]);
    assert MessageBits(b[2..]) == ByteBits(b[2]) + ByteBits(b[3]);
    assert MessageBits(b[1..]) == ByteBits(b[1]) + (ByteBits(b[2]) + ByteBits(b[3]));
  }

  lemma Quarters(p: Poly)
    requires |p| == 32
    ensures p == p[..8] + (p[8..16] + (p[16..24] + p[24..]))
  {
    assert p[16..] == p[16..24] + p[24..];
    assert p[8..] == p[8..16] + p[16..];
    assert p == p[..8] + p[8..];
  }

  /** Appending a stream's own checksum always leads to the same checksum. */
  lemma CrcResidue(buf: seq<bv8>)
    ensures Crc(0, buf + PutU32(Crc(0, buf))) == 0x2144_df1c
  {
    var state := AbsorbAll(ONES, buf);
    ComplementTwice(state);
    AbsorbAllSplit(ONES, buf, PutU32(Complement(state)));
    AbsorbOwnComplement(state);
    ResidueValue();
  }

  lemma AbsorbOwnComplement(state: bv32)
    ensures AbsorbAll(state, PutU32(Complement(state))) == Shifts(ONES, 32)
  {
    var crc := Complement(state);
    BitsAbsorbAll(state, PutU32(crc));
    PutU32Bits(crc);
    BitsOfComplement(state);
    RunOwnComplement(Bits(state), Fill(true, 32));
    BitsOfOnes();
    BitsShifts(ONES, 32);
    BitsInjective(AbsorbAll(state, PutU32(crc)), Shifts(ONES, 32));
  }

  lemma FourShifts(x: bv32, y: bv32, n: nat)
    requires Shift(Shift(Shift(Shift(x)))) == y
    ensures Shifts(x, n + 4) == Shifts(y, n)
  {
    var x1 := Shift(x);
    var x2 := Shift(x1);
    var x3 := Shift(x2);
    assert Shifts(x, n + 4) == Shifts(x1, n + 3) == Shifts(x2, n + 2) == Shifts(x3, n + 1) == Shifts(y, n);
  }

  lemma ResidueValue()
    ensures Complement(Shifts(ONES, 32)) == 0x2144_df1c
  {
    assert Shifts(0xffffffff, 32) == Shifts(0xb2420de3, 28) by { FourShifts(0xffffffff, 0xb2420de3, 28); }
    assert Shifts(0xb2420de3, 28) == Shifts(0x2dfd1072, 24) by { FourShifts(0xb2420de3, 0x2dfd1072, 24); }
    assert Shifts(0x2dfd1072, 24) == Shifts(0x39b1f1cf, 20) by { FourShifts(0x2dfd1072, 0x39b1f1cf, 20); }
    assert Shifts(0x39b1f1cf, 20) == Shifts(0xbe26ed00, 16) by { FourShifts(0x39b1f1cf, 0xbe26ed00, 16); }
    assert Shifts(0xbe26ed00, 16) == Shifts(0x0be26ed0, 12) by { FourShifts(0xbe26ed00, 0x0be26ed0, 12); }
    assert Shifts(0x0be26ed0, 12) == Shifts(0x00be26ed, 8) by { FourShifts(0x0be26ed0, 0x00be26ed, 8); }
    assert Shifts(0x00be26ed, 8) == Shifts(0x86d830ba, 4) by { FourShifts(0x00be26ed, 0x86d830ba, 4); }
    assert Shifts(0x86d830ba, 4) == Shifts(0xdebb20e3, 0) by { FourShifts(0x86d830ba, 0xdebb20e3, 0); }
  }
}
