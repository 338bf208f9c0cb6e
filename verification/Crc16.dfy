/** The 16-bit frame check sequence of RFC 1662, Appendix C: the register is shifted one
    bit at a time, least significant bit first, with the reflected polynomial 0x8408. */
module Crc16 {

  const INITIAL: bv16 := 0xffff
  const GOOD: bv16 := 0xf0b8

  function ShiftBit(crc: bv16): bv16 {
    if crc & 1 == 1 then (crc >> 1) ^ 0x8408 else crc >> 1
  }

  /** One bit of input. */
  function StepBit(crc: bv16, bit: bool): bv16 {
    ShiftBit(if bit then crc ^ 1 else crc)
  }

  /** One byte of input, least significant bit first. */
  function Step(crc: bv16, b: bv8): bv16 {
    StepBit(StepBit(StepBit(StepBit(StepBit(StepBit(StepBit(StepBit(crc,
      b & 0x01 != 0), b & 0x02 != 0), b & 0x04 != 0), b & 0x08 != 0),
      b & 0x10 != 0), b & 0x20 != 0), b & 0x40 != 0), b & 0x80 != 0)
  }

  function Crc(crc: bv16, bytes: seq<bv8>): bv16 {
    if bytes == [] then crc else Step(Crc(crc, bytes[..|bytes| - 1]), bytes[|bytes| - 1])
  }

  function Low(x: bv16): bv8 { (x & 0xff) as bv8 }

  function High(x: bv16): bv8 { (x >> 8) as bv8 }

  function Inverted(x: bv16): bv16 { x ^ 0xffff }

  /** The bytes followed by their check sequence: the complemented register, low byte first. */
  function WithFcs(bytes: seq<bv8>): seq<bv8> {
    var fcs := Inverted(Crc(INITIAL, bytes));
    bytes + [Low(fcs), High(fcs)]
  }

  lemma CrcSnoc(crc: bv16, bytes: seq<bv8>, b: bv8)
    ensures Crc(crc, bytes + [b]) == Step(Crc(crc, bytes), b)
  {
    hide Step;
    assert (bytes + [b])[..|bytes|] == bytes;
  }

  lemma {:induction false} CrcAppend(crc: bv16, a: seq<bv8>, b: seq<bv8>)
    ensures Crc(crc, a + b) == Crc(Crc(crc, a), b)
  {
    hide Step;
    if b == [] {
      assert a + b == a;
    } else {
      var n := |b| - 1;
      CrcAppend(crc, a, b[..n]);
      assert a + b == a + b[..n] + [b[n]];
      CrcSnoc(crc, a + b[..n], b[n]);
    }
  }

  /** The complement of the low byte leaves the high byte, changed by a constant. */
  lemma StepLowComplement(crc: bv16)
    ensures Step(crc, Low(crc ^ 0xffff)) == (crc >> 8) ^ 0x0f78
  {
  }

  lemma StepHighComplement(crc: bv16)
    ensures Step((crc >> 8) ^ 0x0f78, High(crc ^ 0xffff)) == GOOD
  {
  }

  lemma StepResidue(crc: bv16)
    ensures Step(Step(crc, Low(crc ^ 0xffff)), High(crc ^ 0xffff)) == GOOD
  {
    hide Step, Low, High;
    StepLowComplement(crc);
    StepHighComplement(crc);
  }

  lemma CrcSnocTwo(crc: bv16, bytes: seq<bv8>, b: bv8, c: bv8)
    ensures Crc(crc, bytes + [b, c]) == Step(Step(Crc(crc, bytes), b), c)
  {
    hide Step;
    assert bytes + [b, c] == bytes + [b] + [c];
    CrcSnoc(crc, bytes, b);
    CrcSnoc(crc, bytes + [b], c);
  }

  /** Sender and receiver agree on the good value for every byte sequence. */
  lemma Residue(bytes: seq<bv8>)
    ensures Crc(INITIAL, WithFcs(bytes)) == GOOD
  {
    hide Step, Crc, Low, High;
    var crc := Crc(INITIAL, bytes);
    StepResidue(crc);
    CrcSnocTwo(INITIAL, bytes, Low(crc ^ 0xffff), High(crc ^ 0xffff));
  }
}
