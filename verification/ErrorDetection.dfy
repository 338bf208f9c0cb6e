/** Which changes to a byte sequence the frame check sequence is guaranteed to notice. */
module ErrorDetection {
  import opened Crc16

  /** The bits of a byte in the order they are fed to the register. */
  function Bits(b: bv8): (bits: seq<bool>) {
    [b & 0x01 != 0, b & 0x02 != 0, b & 0x04 != 0, b & 0x08 != 0,
     b & 0x10 != 0, b & 0x20 != 0, b & 0x40 != 0, b & 0x80 != 0]
  }

  function BitsOf(bytes: seq<bv8>): (bits: seq<bool>)
    ensures |bits| == 8 * |bytes|
  {
    if bytes == [] then [] else BitsOf(bytes[..|bytes| - 1]) + Bits(bytes[|bytes| - 1])
  }

  function BitCrc(crc: bv16, bits: seq<bool>): bv16
    decreases |bits|
  {
    if bits == [] then crc else BitCrc(StepBit(crc, bits[0]), bits[1..])
  }

  /** The number of bit positions at which two equally long bit strings differ. */
  function Distance(p: seq<bool>, q: seq<bool>): nat
    requires |p| == |q|
  {
    if p == [] then 0 else (if p[0] != q[0] then 1 else 0) + Distance(p[1..], q[1..])
  }

  /** All differences lie within 16 consecutive bits starting at `start`. */
  ghost predicate BurstAt(p: seq<bool>, q: seq<bool>, start: nat)
    requires |p| == |q|
  {
    forall k :: 0 <= k < |p| && !(start <= k < start + 16) ==> p[k] == q[k]
  }

  // ----- The bitwise and the bytewise register agree

  lemma {:induction false} BitCrcAppend(crc: bv16, p: seq<bool>, q: seq<bool>)
    ensures BitCrc(crc, p + q) == BitCrc(BitCrc(crc, p), q)
    decreases |p|
  {
    if p == [] {
      assert p + q == q;
    } else {
      BitCrcAppend(StepBit(crc, p[0]), p[1..], q);
      assert (p + q)[1..] == p[1..] + q;
    }
  }

  lemma BitCrcFour(crc: bv16, bits: seq<bool>)
    requires |bits| >= 4
    ensures BitCrc(crc, bits)
            == BitCrc(StepBit(StepBit(StepBit(StepBit(crc, bits[0]), bits[1]), bits[2]), bits[3]), bits[4..])
  {
    hide StepBit;
    var c1 := StepBit(crc, bits[0]);
    var c2 := StepBit(c1, bits[1]);
    var c3 := StepBit(c2, bits[2]);
    assert bits[1..][1..] == bits[2..] && BitCrc(c1, bits[1..]) == BitCrc(c2, bits[2..]);
    assert bits[2..][1..] == bits[3..] && BitCrc(c2, bits[2..]) == BitCrc(c3, bits[3..]);
    assert bits[3..][1..] == bits[4..];
  }

  lemma BitCrcByte(crc: bv16, b: bv8)
    ensures BitCrc(crc, Bits(b)) == Step(crc, b)
  {
    hide StepBit, BitCrc;
    var bits := Bits(b);
    BitCrcFour(crc, bits);
    var middle := StepBit(StepBit(StepBit(StepBit(crc, bits[0]), bits[1]), bits[2]), bits[3]);
    BitCrcFour(middle, bits[4..]);
    assert bits[4..][4..] == [];
    BitCrcNone(Step(crc, b));
  }

  lemma BitCrcNone(crc: bv16)
    ensures BitCrc(crc, []) == crc
  {
  }

  lemma {:induction false} CrcIsBitwise(crc: bv16, bytes: seq<bv8>)
    ensures Crc(crc, bytes) == BitCrc(crc, BitsOf(bytes))
  {
    if bytes != [] {
      var n := |bytes| - 1;
      CrcIsBitwise(crc, bytes[..n]);
      BitCrcAppend(crc, BitsOf(bytes[..n]), Bits(bytes[n]));
      BitCrcByte(Crc(crc, bytes[..n]), bytes[n]);
    }
  }

  // ----- Bursts of at most 16 bits

  /** The bit shifted out can be read off the top bit. */
  lemma ShiftBitInjective(x: bv16, y: bv16)
    requires x != y
    ensures ShiftBit(x) != ShiftBit(y)
  {
    assert ShiftBit(x) & 0x8000 == x << 15;
    assert ShiftBit(y) & 0x8000 == y << 15;
  }

  lemma StepBitInjective(x: bv16, y: bv16, bit: bool)
    requires x != y
    ensures StepBit(x, bit) != StepBit(y, bit)
  {
    hide ShiftBit;
    if bit {
      assert (x ^ 1) ^ 1 == x && (y ^ 1) ^ 1 == y;
      ShiftBitInjective(x ^ 1, y ^ 1);
    } else {
      ShiftBitInjective(x, y);
    }
  }

  lemma {:induction false} BitCrcInjective(x: bv16, y: bv16, bits: seq<bool>)
    requires x != y
    ensures BitCrc(x, bits) != BitCrc(y, bits)
    decreases |bits|
  {
    if bits != [] {
      hide StepBit;
      StepBitInjective(x, y, bits[0]);
      BitCrcInjective(StepBit(x, bits[0]), StepBit(y, bits[0]), bits[1..]);
    }
  }

  /** The 16 - n high bits of the register. */
  function HighBits(n: nat): bv16
  {
    if n == 0 then 0xffff else HighBits(n - 1) << 1
  }

  lemma TopBitIsHigh(n: nat)
    requires n < 16
    ensures HighBits(n) & 0x8000 != 0
  {
    assert HighBits(1) == 0xfffe;
    assert HighBits(2) == 0xfffc;
    assert HighBits(3) == 0xfff8;
    assert HighBits(4) == 0xfff0;
    assert HighBits(5) == 0xffe0;
    assert HighBits(6) == 0xffc0;
    assert HighBits(7) == 0xff80;
    assert HighBits(8) == 0xff00;
    assert HighBits(9) == 0xfe00;
    assert HighBits(10) == 0xfc00;
    assert HighBits(11) == 0xf800;
    assert HighBits(12) == 0xf000;
    assert HighBits(13) == 0xe000;
    assert HighBits(14) == 0xc000;
    assert HighBits(15) == 0x8000;
  }

  /** The registers agree in their 16 - n high bits. */
  predicate SameHigh(x: bv16, y: bv16, n: nat) {
    x & HighBits(n) == y & HighBits(n)
  }

  lemma StepBackMasked(x: bv16, y: bv16, a: bool, b: bool, high: bv16)
    requires high & 0x8000 != 0
    requires StepBit(x, a) & high == StepBit(y, b) & high
    ensures x & (high << 1) == y & (high << 1)
  {
  }

  lemma StepBack(x: bv16, y: bv16, a: bool, b: bool, n: nat)
    requires 0 < n <= 16
    requires SameHigh(StepBit(x, a), StepBit(y, b), n - 1)
    ensures SameHigh(x, y, n)
  {
    hide StepBit;
    TopBitIsHigh(n - 1);
    StepBackMasked(x, y, a, b, HighBits(n - 1));
  }

  lemma StepDiffersMasked(crc: bv16, a: bool, b: bool, high: bv16)
    requires a != b && high & 0x8000 != 0
    ensures StepBit(crc, a) & high != StepBit(crc, b) & high
  {
    assert StepBit(crc, true) & 0x8000 != StepBit(crc, false) & 0x8000;
  }

  lemma StepDiffers(crc: bv16, a: bool, b: bool, n: nat)
    requires a != b && n < 16
    ensures !SameHigh(StepBit(crc, a), StepBit(crc, b), n)
  {
    hide StepBit;
    TopBitIsHigh(n);
    StepDiffersMasked(crc, a, b, HighBits(n));
  }

  /** Equal registers after at most 16 bits agreed, that many bits earlier, in their high bits. */
  lemma {:induction false} RunBack(x: bv16, y: bv16, p: seq<bool>, q: seq<bool>)
    requires |p| == |q| <= 16
    requires BitCrc(x, p) == BitCrc(y, q)
    ensures SameHigh(x, y, |p|)
    decreases |p|
  {
    hide StepBit, SameHigh;
    if p == [] {
      SameHighReflexive(x, 0);
    } else {
      RunBack(StepBit(x, p[0]), StepBit(y, q[0]), p[1..], q[1..]);
      StepBack(x, y, p[0], q[0], |p|);
    }
  }

  lemma SameHighReflexive(x: bv16, n: nat)
    ensures SameHigh(x, x, n)
  {
  }

  lemma FirstBit(crc: bv16, p: seq<bool>, q: seq<bool>)
    requires 0 < |p| == |q| <= 16
    requires BitCrc(crc, p) == BitCrc(crc, q)
    ensures p[0] == q[0]
  {
    hide StepBit, SameHigh;
    RunBack(StepBit(crc, p[0]), StepBit(crc, q[0]), p[1..], q[1..]);
    if p[0] != q[0] {
      StepDiffers(crc, p[0], q[0], |p| - 1);
    }
  }

  /** From one register value, different bit strings of at most 16 bits lead to different values. */
  lemma {:induction false} ShortInjective(crc: bv16, p: seq<bool>, q: seq<bool>)
    requires |p| == |q| <= 16
    requires BitCrc(crc, p) == BitCrc(crc, q)
    ensures p == q
    decreases |p|
  {
    if p != [] {
      hide StepBit;
      FirstBit(crc, p, q);
      ShortInjective(StepBit(crc, p[0]), p[1..], q[1..]);
    }
  }

  /** Every burst of at most 16 bits changes the register, whatever follows it. */
  lemma BurstChangesCrc(crc: bv16, p: seq<bool>, q: seq<bool>, start: nat)
    requires |p| == |q| && p != q
    requires BurstAt(p, q, start)
    ensures BitCrc(crc, p) != BitCrc(crc, q)
  {
    var lo := if start < |p| then start else |p|;
    var hi := if start + 16 < |p| then start + 16 else |p|;
    assert p[..lo] == q[..lo];
    assert p[hi..] == q[hi..];
    assert p == p[..lo] + (p[lo..hi] + p[hi..]);
    assert q == q[..lo] + (q[lo..hi] + q[hi..]);
    BitCrcAppend(crc, p[..lo], p[lo..hi] + p[hi..]);
    BitCrcAppend(crc, q[..lo], q[lo..hi] + q[hi..]);
    var x := BitCrc(crc, p[..lo]);
    BitCrcAppend(x, p[lo..hi], p[hi..]);
    BitCrcAppend(x, q[lo..hi], q[hi..]);
    if BitCrc(x, p[lo..hi]) == BitCrc(x, q[lo..hi]) {
      ShortInjective(x, p[lo..hi], q[lo..hi]);
      assert false;
    }
    BitCrcInjective(BitCrc(x, p[lo..hi]), BitCrc(x, q[lo..hi]), p[hi..]);
  }

  // ----- Errors in an odd number of bits

  /** Whether an odd number of the register's bits is set. */
  predicate OddRegister(x: bv16) {
    ((((x & 0x0001 != 0) != (x & 0x0002 != 0)) != ((x & 0x0004 != 0) != (x & 0x0008 != 0))) !=
     (((x & 0x0010 != 0) != (x & 0x0020 != 0)) != ((x & 0x0040 != 0) != (x & 0x0080 != 0)))) !=
    ((((x & 0x0100 != 0) != (x & 0x0200 != 0)) != ((x & 0x0400 != 0) != (x & 0x0800 != 0))) !=
     (((x & 0x1000 != 0) != (x & 0x2000 != 0)) != ((x & 0x4000 != 0) != (x & 0x8000 != 0))))
  }

  lemma ShiftZeroKeepsParity(x: bv16)
    requires x & 1 == 0
    ensures OddRegister(ShiftBit(x)) == OddRegister(x)
  {
  }

  lemma ShiftOneKeepsParity(x: bv16)
    requires x & 1 == 1
    ensures OddRegister(ShiftBit(x)) == OddRegister(x)
  {
  }

  lemma ShiftKeepsParity(x: bv16)
    ensures OddRegister(ShiftBit(x)) == OddRegister(x)
  {
    hide ShiftBit, OddRegister;
    if x & 1 == 0 {
      ShiftZeroKeepsParity(x);
    } else {
      LowBit(x);
      ShiftOneKeepsParity(x);
    }
  }

  lemma LowBit(x: bv16)
    ensures x & 1 == 0 || x & 1 == 1
  {
  }

  lemma StepBitParity(x: bv16, bit: bool)
    ensures OddRegister(StepBit(x, bit)) == (OddRegister(x) != bit)
  {
    hide ShiftBit, OddRegister;
    if bit {
      FlipLowBit(x);
      ShiftKeepsParity(x ^ 1);
    } else {
      ShiftKeepsParity(x);
    }
  }

  lemma FlipLowBit(x: bv16)
    ensures OddRegister(x ^ 1) == !OddRegister(x)
  {
  }

  /** The polynomial has an even number of terms: the register tracks the parity of its input. */
  lemma {:induction false} DistanceParity(x: bv16, y: bv16, p: seq<bool>, q: seq<bool>)
    requires |p| == |q|
    ensures (OddRegister(BitCrc(x, p)) == OddRegister(BitCrc(y, q)))
            == ((OddRegister(x) == OddRegister(y)) == (Distance(p, q) % 2 == 0))
    decreases |p|
  {
    hide StepBit, OddRegister;
    if p != [] {
      StepBitParity(x, p[0]);
      StepBitParity(y, q[0]);
      DistanceParity(StepBit(x, p[0]), StepBit(y, q[0]), p[1..], q[1..]);
    }
  }

  lemma OddErrorChangesCrc(crc: bv16, p: seq<bool>, q: seq<bool>)
    requires |p| == |q| && Distance(p, q) % 2 == 1
    ensures BitCrc(crc, p) != BitCrc(crc, q)
  {
    DistanceParity(crc, crc, p, q);
  }

  // ----- The same for bytes

  lemma SameBits(a: bv8, b: bv8)
    requires (a & 0x01 != 0) == (b & 0x01 != 0) && (a & 0x02 != 0) == (b & 0x02 != 0)
    requires (a & 0x04 != 0) == (b & 0x04 != 0) && (a & 0x08 != 0) == (b & 0x08 != 0)
    requires (a & 0x10 != 0) == (b & 0x10 != 0) && (a & 0x20 != 0) == (b & 0x20 != 0)
    requires (a & 0x40 != 0) == (b & 0x40 != 0) && (a & 0x80 != 0) == (b & 0x80 != 0)
    ensures a == b
  {
  }

  lemma BitsListed(b: bv8)
    ensures |Bits(b)| == 8
    ensures Bits(b)[0] == (b & 0x01 != 0) && Bits(b)[1] == (b & 0x02 != 0)
    ensures Bits(b)[2] == (b & 0x04 != 0) && Bits(b)[3] == (b & 0x08 != 0)
    ensures Bits(b)[4] == (b & 0x10 != 0) && Bits(b)[5] == (b & 0x20 != 0)
    ensures Bits(b)[6] == (b & 0x40 != 0) && Bits(b)[7] == (b & 0x80 != 0)
  {
  }

  lemma BitsInjective(a: bv8, b: bv8)
    requires Bits(a) == Bits(b)
    ensures a == b
  {
    hide Bits;
    BitsListed(a);
    BitsListed(b);
    SameBits(a, b);
  }

  lemma {:induction false} BitsOfAt(bytes: seq<bv8>, i: nat)
    requires i < |bytes|
    ensures BitsOf(bytes)[8 * i..8 * i + 8] == Bits(bytes[i])
  {
    if i + 1 < |bytes| {
      BitsOfAt(bytes[..|bytes| - 1], i);
    }
  }

  lemma BitsOfInjective(a: seq<bv8>, b: seq<bv8>)
    requires |a| == |b| && BitsOf(a) == BitsOf(b)
    ensures a == b
  {
    forall i | 0 <= i < |a|
      ensures a[i] == b[i]
    {
      BitsOfAt(a, i);
      BitsOfAt(b, i);
      BitsInjective(a[i], b[i]);
    }
  }

  lemma SameByteSameBit(a: seq<bv8>, b: seq<bv8>, k: nat)
    requires |a| == |b| && k < 8 * |a| && a[k / 8] == b[k / 8]
    ensures BitsOf(a)[k] == BitsOf(b)[k]
  {
    hide Bits;
    var j := k / 8;
    BitsOfAt(a, j);
    BitsOfAt(b, j);
    assert BitsOf(a)[k] == BitsOf(a)[8 * j..8 * j + 8][k - 8 * j];
    assert BitsOf(b)[k] == BitsOf(b)[8 * j..8 * j + 8][k - 8 * j];
  }

  lemma AdjacentBytesAreBurst(a: seq<bv8>, b: seq<bv8>, i: nat)
    requires |a| == |b|
    requires forall k :: 0 <= k < |a| && k != i && k != i + 1 ==> a[k] == b[k]
    ensures BurstAt(BitsOf(a), BitsOf(b), 8 * i)
  {
    forall k | 0 <= k < 8 * |a| && !(8 * i <= k < 8 * i + 16)
      ensures BitsOf(a)[k] == BitsOf(b)[k]
    {
      SameByteSameBit(a, b, k);
    }
  }

  /** Two different byte sequences that agree outside two adjacent positions have different registers. */
  lemma AdjacentBytesChangeCrc(crc: bv16, a: seq<bv8>, b: seq<bv8>, i: nat)
    requires |a| == |b| && a != b
    requires forall k :: 0 <= k < |a| && k != i && k != i + 1 ==> a[k] == b[k]
    ensures Crc(crc, a) != Crc(crc, b)
  {
    hide StepBit;
    AdjacentBytesAreBurst(a, b, i);
    if BitsOf(a) == BitsOf(b) {
      BitsOfInjective(a, b);
    }
    BurstChangesCrc(crc, BitsOf(a), BitsOf(b), 8 * i);
    CrcIsBitwise(crc, a);
    CrcIsBitwise(crc, b);
  }

  /** The residue tells exactly the byte sequences that end with their check sequence. */
  lemma GoodIffFcs(bytes: seq<bv8>)
    requires |bytes| >= 2
    ensures Crc(INITIAL, bytes) == GOOD <==> bytes == WithFcs(bytes[..|bytes| - 2])
  {
    hide Crc;
    var n := |bytes| - 2;
    var good := WithFcs(bytes[..n]);
    Residue(bytes[..n]);
    if bytes != good {
      assert forall k :: 0 <= k < n ==> good[k] == bytes[k];
      AdjacentBytesChangeCrc(INITIAL, bytes, good, n);
    }
  }

  // ----- The preset

  function Flip(x: bv16, mask: bv16): bv16 { x ^ mask }

  function Half(mask: bv16): bv16 { mask >> 1 }

  function Complement(b: bv8): bv8 { b ^ 0xff }

  /** The 16 - n low bits of the register. */
  function LowBits(n: nat): bv16 {
    if n == 0 then 0xffff else Half(LowBits(n - 1))
  }

  predicate Odd(mask: bv16) { mask & 1 == 1 }

  lemma LowBitsOdd(n: nat)
    ensures n < 16 ==> Odd(LowBits(n))
    ensures n == 16 ==> LowBits(n) == 0
  {
    assert LowBits(1) == 0x7fff && LowBits(2) == 0x3fff && LowBits(3) == 0x1fff;
    assert LowBits(4) == 0x0fff && LowBits(5) == 0x07ff && LowBits(6) == 0x03ff;
    assert LowBits(7) == 0x01ff && LowBits(8) == 0x00ff && LowBits(9) == 0x007f;
    assert LowBits(10) == 0x003f && LowBits(11) == 0x001f && LowBits(12) == 0x000f;
    assert LowBits(13) == 0x0007 && LowBits(14) == 0x0003 && LowBits(15) == 0x0001;
  }

  lemma StepFlipped(x: bv16, mask: bv16, bit: bool)
    requires mask & 1 == 1
    ensures StepBit(x ^ mask, bit) == StepBit(x, !bit) ^ (mask >> 1)
  {
  }

  lemma FlippedMask(x: bv16, mask: bv16, bit: bool)
    requires Odd(mask)
    ensures StepBit(Flip(x, mask), bit) == Flip(StepBit(x, !bit), Half(mask))
  {
    hide StepBit;
    StepFlipped(x, mask, bit);
  }

  /** Flipping the low bits of the register flips the next bit of input; after it, one fewer is left. */
  lemma FlippedBit(x: bv16, n: nat, bit: bool)
    requires n < 16
    ensures StepBit(Flip(x, LowBits(n)), bit) == Flip(StepBit(x, !bit), LowBits(n + 1))
  {
    hide StepBit, Flip, Half, Odd;
    LowBitsOdd(n);
    FlippedMask(x, LowBits(n), bit);
  }

  function Negated(bits: seq<bool>): (r: seq<bool>)
    ensures |r| == |bits| && forall i :: 0 <= i < |bits| ==> r[i] == !bits[i]
  {
    if bits == [] then [] else [!bits[0]] + Negated(bits[1..])
  }

  lemma {:induction false} FlippedBits(x: bv16, n: nat, bits: seq<bool>)
    requires n + |bits| <= 16
    ensures BitCrc(Flip(x, LowBits(n)), bits) == Flip(BitCrc(x, Negated(bits)), LowBits(n + |bits|))
    decreases |bits|
  {
    hide StepBit, Flip, LowBits;
    if bits != [] {
      FlippedBit(x, n, bits[0]);
      FlippedBits(StepBit(x, !bits[0]), n + 1, bits[1..]);
      assert Negated(bits)[1..] == Negated(bits[1..]);
    }
  }

  lemma ComplementBits(b: bv8)
    ensures (Complement(b) & 0x01 != 0) == !(b & 0x01 != 0) && (Complement(b) & 0x02 != 0) == !(b & 0x02 != 0)
    ensures (Complement(b) & 0x04 != 0) == !(b & 0x04 != 0) && (Complement(b) & 0x08 != 0) == !(b & 0x08 != 0)
    ensures (Complement(b) & 0x10 != 0) == !(b & 0x10 != 0) && (Complement(b) & 0x20 != 0) == !(b & 0x20 != 0)
    ensures (Complement(b) & 0x40 != 0) == !(b & 0x40 != 0) && (Complement(b) & 0x80 != 0) == !(b & 0x80 != 0)
  {
  }

  lemma BitsNegated(b: bv8)
    ensures Bits(Complement(b)) == Negated(Bits(b))
  {
    hide Bits, Complement;
    BitsListed(b);
    BitsListed(Complement(b));
    ComplementBits(b);
  }

  lemma PresetIsFlip()
    ensures INITIAL == Flip(0, LowBits(0))
  {
  }

  lemma FlipNothing(x: bv16)
    ensures Flip(x, 0) == x
  {
  }

  lemma TwoBytes(crc: bv16, a: bv8, b: bv8)
    ensures Crc(crc, [a, b]) == BitCrc(crc, Bits(a) + Bits(b))
  {
    hide Step, Bits, BitCrc, Crc;
    CrcNone(crc);
    CrcSnocTwo(crc, [], a, b);
    assert [] + [a, b] == [a, b];
    BitCrcByte(crc, a);
    BitCrcByte(Step(crc, a), b);
    BitCrcAppend(crc, Bits(a), Bits(b));
  }

  lemma CrcNone(crc: bv16)
    ensures Crc(crc, []) == crc
  {
  }

  lemma FirstTwo(a: bv8, b: bv8)
    ensures Crc(INITIAL, [a, b]) == Crc(0, [Complement(a), Complement(b)])
  {
    hide Crc, Bits, BitCrc, Flip, LowBits, Complement, Negated;
    BitsListed(a);
    BitsListed(b);
    TwoBytes(INITIAL, a, b);
    TwoBytes(0, Complement(a), Complement(b));
    BitsNegated(a);
    BitsNegated(b);
    assert Negated(Bits(a) + Bits(b)) == Negated(Bits(a)) + Negated(Bits(b));
    PresetIsFlip();
    FlippedBits(0, 0, Bits(a) + Bits(b));
    LowBitsOdd(16);
    FlipNothing(BitCrc(0, Negated(Bits(a) + Bits(b))));
  }

  /** The preset of the register, as RFC 1662 has it: the check sequence is that of a register that
      starts at zero and sees the message with its first sixteen bits complemented. */
  lemma PresetComplements(bytes: seq<bv8>)
    requires |bytes| >= 2
    ensures Crc(INITIAL, bytes) == Crc(0, [bytes[0] ^ 0xff, bytes[1] ^ 0xff] + bytes[2..])
  {
    var first, flipped := [bytes[0], bytes[1]], [Complement(bytes[0]), Complement(bytes[1])];
    assert flipped == [bytes[0] ^ 0xff, bytes[1] ^ 0xff];
    hide Crc, Complement;
    assert bytes == first + bytes[2..];
    CrcAppend(INITIAL, first, bytes[2..]);
    CrcAppend(0, flipped, bytes[2..]);
    FirstTwo(bytes[0], bytes[1]);
  }
}
