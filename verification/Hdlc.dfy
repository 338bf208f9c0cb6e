/** The HDLC framing of src/hdlc.c as functions on values: what the sender puts on the wire, and
    how the receiver moves from one state to the next on each byte. */
module Hdlc {
  import opened Crc16
  import opened Sequences

  const FLAG: bv8 := 0x7e
  const ESCAPE: bv8 := 0x7d
  const FLIP: bv8 := 0x20

  /** HDLC_MAX_BLOCK_SIZE: the receive buffer holds at least one byte and its length is a uint16_t. */
  type BlockSize = n: nat | 1 <= n < 0x10000 witness 256

  // ----- Sender

  predicate Special(b: bv8) { b == FLAG || b == ESCAPE }

  /** One byte with transparency applied. */
  function Stuff(b: bv8): seq<bv8> {
    if Special(b) then [ESCAPE, b ^ FLIP] else [b]
  }

  function StuffAll(bytes: seq<bv8>): seq<bv8> {
    if bytes == [] then [] else StuffAll(bytes[..|bytes| - 1]) + Stuff(bytes[|bytes| - 1])
  }

  datatype Frame = Frame(address: bv8, control: bv8, payload: seq<bv8>)
  {
    /** Address, control and payload, followed by the frame check sequence. */
    function Body(): seq<bv8> {
      WithFcs([address, control] + payload)
    }

    function Wire(): seq<bv8> {
      [FLAG] + StuffAll(Body()) + [FLAG]
    }

    /** The receive buffer has room for the whole body. */
    predicate Fits(max: BlockSize) {
      |payload| + 4 <= max
    }
  }

  function WireAll(frames: seq<Frame>): seq<bv8> {
    if frames == [] then [] else frames[0].Wire() + WireAll(frames[1..])
  }

  // ----- Receiver

  /** One call of the process-frame callback. */
  datatype Delivery = Delivery(address: bv8, payload: seq<bv8>)

  /** The receiving half of struct hdlc_driver, with the valid part of its buffer and the log of
      callback calls. */
  datatype Receiver = Receiver(
    crc: bv16, escaped: bool, sendSeq: bv8, buffer: seq<bv8>, delivered: seq<Delivery>)
  {
    predicate Idle() {
      buffer == [] && crc == INITIAL
    }

    /** What every byte stream keeps. */
    predicate Valid(max: BlockSize) {
      && |buffer| <= max
      && (crc == Crc(INITIAL, buffer) || (buffer != [] && crc == Crc(INITIAL, buffer[1..])))
      && forall d :: d in delivered ==> |d.payload| + 4 <= max
    }
  }

  const INITIAL_RECEIVER := Receiver(INITIAL, false, 0, [], [])

  function ProcessFrame(s: Receiver): Receiver {
    var r :=
      if |s.buffer| > 3 && s.crc == GOOD then
        if s.buffer[1] & 1 == 0 then
          s.(sendSeq := (s.buffer[1] >> 5) & 0x07)
        else
          s.(delivered := s.delivered + [Delivery(s.buffer[0], s.buffer[2..|s.buffer| - 2])])
      else
        s;
    r.(crc := INITIAL, buffer := [])
  }

  function SaveByte(max: BlockSize, s: Receiver, b: bv8): Receiver {
    if |s.buffer| >= max then s.(crc := INITIAL, buffer := [b]) else s.(buffer := s.buffer + [b])
  }

  /** One byte that is neither a flag nor an escape, after any escaping has been undone. */
  function DataByte(max: BlockSize, s: Receiver, b: bv8): Receiver {
    SaveByte(max, s.(crc := Step(s.crc, b)), b)
  }

  function InputByte(max: BlockSize, s: Receiver, b: bv8): Receiver {
    if b == FLAG then
      if s.buffer != [] then ProcessFrame(s) else s
    else if b == ESCAPE then
      s.(escaped := true)
    else if s.escaped then
      DataByte(max, s.(escaped := false), b ^ FLIP)
    else
      DataByte(max, s, b)
  }

  function Receive(max: BlockSize, s: Receiver, bytes: seq<bv8>): Receiver {
    if bytes == [] then s
    else InputByte(max, Receive(max, s, bytes[..|bytes| - 1]), bytes[|bytes| - 1])
  }

  function ReceiveChunks(max: BlockSize, s: Receiver, chunks: seq<seq<bv8>>): Receiver
    decreases |chunks|
  {
    if chunks == [] then s else ReceiveChunks(max, Receive(max, s, chunks[0]), chunks[1..])
  }

  function Flatten(chunks: seq<seq<bv8>>): seq<bv8> {
    if chunks == [] then [] else chunks[0] + Flatten(chunks[1..])
  }

  // ----- Reference: what a receiver does with whole frames

  /** The effect of one intact frame. */
  function Accept(s: Receiver, f: Frame): Receiver {
    if f.control & 1 == 0 then s.(sendSeq := (f.control >> 5) & 0x07)
    else s.(delivered := s.delivered + [Delivery(f.address, f.payload)])
  }

  function AcceptAll(s: Receiver, frames: seq<Frame>): Receiver
    decreases |frames|
  {
    if frames == [] then s else AcceptAll(Accept(s, frames[0]), frames[1..])
  }

  /** The callbacks a list of intact frames causes: one for each frame with an odd control byte. */
  function Deliveries(frames: seq<Frame>): seq<Delivery> {
    if frames == [] then []
    else (if frames[0].control & 1 == 0 then [] else [Delivery(frames[0].address, frames[0].payload)])
         + Deliveries(frames[1..])
  }

  // ----- Runs compose, however the stream is cut

  lemma ReceiveSnoc(max: BlockSize, s: Receiver, bytes: seq<bv8>, b: bv8)
    ensures Receive(max, s, bytes + [b]) == InputByte(max, Receive(max, s, bytes), b)
  {
    hide InputByte;
    assert (bytes + [b])[..|bytes|] == bytes;
  }

  lemma {:induction false} ReceiveAppend(max: BlockSize, s: Receiver, a: seq<bv8>, b: seq<bv8>)
    ensures Receive(max, s, a + b) == Receive(max, Receive(max, s, a), b)
  {
    hide InputByte;
    if b == [] {
      assert a + b == a;
    } else {
      var n := |b| - 1;
      ReceiveAppend(max, s, a, b[..n]);
      assert a + b == a + b[..n] + [b[n]];
      ReceiveSnoc(max, s, a + b[..n], b[n]);
    }
  }

  /** Chunking does not matter: any split of the stream into calls gives the same final state. */
  lemma {:induction false} ChunkingIrrelevant(max: BlockSize, s: Receiver, chunks: seq<seq<bv8>>)
    ensures ReceiveChunks(max, s, chunks) == Receive(max, s, Flatten(chunks))
    decreases |chunks|
  {
    if chunks != [] {
      ChunkingIrrelevant(max, Receive(max, s, chunks[0]), chunks[1..]);
      ReceiveAppend(max, s, chunks[0], Flatten(chunks[1..]));
    }
  }

  // ----- Transparency

  lemma StuffSnoc(bytes: seq<bv8>, b: bv8)
    ensures StuffAll(bytes + [b]) == StuffAll(bytes) + Stuff(b)
  {
    hide Stuff;
    assert (bytes + [b])[..|bytes|] == bytes;
  }

  lemma {:induction false} StuffAppend(a: seq<bv8>, b: seq<bv8>)
    ensures StuffAll(a + b) == StuffAll(a) + StuffAll(b)
    decreases |b|
  {
    if b == [] {
      assert a + b == a;
    } else {
      hide Stuff, StuffAll;
      var head, last := b[..|b| - 1], b[|b| - 1];
      assert b == head + [last];
      calc {
        StuffAll(a + b);
        { Associative(a, head, [last]); StuffSnoc(a + head, last); }
        StuffAll(a + head) + Stuff(last);
        { StuffAppend(a, head); Associative(StuffAll(a), StuffAll(head), Stuff(last)); }
        StuffAll(a) + (StuffAll(head) + Stuff(last));
        { StuffSnoc(head, last); }
        StuffAll(a) + StuffAll(b);
      }
    }
  }

  /** A stuffed byte string holds no flag, and every escape in it is followed by 0x5d or 0x5e. */
  lemma {:induction false} StuffedIsTransparent(bytes: seq<bv8>)
    ensures FLAG !in StuffAll(bytes)
    ensures forall i :: 0 <= i < |StuffAll(bytes)| && StuffAll(bytes)[i] == ESCAPE ==>
      i + 1 < |StuffAll(bytes)| && (StuffAll(bytes)[i + 1] == 0x5d || StuffAll(bytes)[i + 1] == 0x5e)
  {
    if bytes != [] {
      StuffedIsTransparent(bytes[..|bytes| - 1]);
    }
  }

  // ----- The invariant of every stream

  lemma DataByteValid(max: BlockSize, s: Receiver, b: bv8)
    requires s.Valid(max)
    ensures DataByte(max, s, b).Valid(max)
  {
    hide Step;
    if |s.buffer| < max {
      CrcSnoc(INITIAL, s.buffer, b);
      if s.buffer != [] {
        CrcSnoc(INITIAL, s.buffer[1..], b);
        assert (s.buffer + [b])[1..] == s.buffer[1..] + [b];
      }
    } else {
      assert [b][1..] == [];
    }
  }

  lemma InputByteValid(max: BlockSize, s: Receiver, b: bv8)
    requires s.Valid(max)
    ensures InputByte(max, s, b).Valid(max)
  {
    hide DataByte;
    DataByteValid(max, s.(escaped := false), b ^ FLIP);
    DataByteValid(max, s, b);
  }

  lemma {:induction false} ReceiveValid(max: BlockSize, s: Receiver, bytes: seq<bv8>)
    requires s.Valid(max)
    ensures Receive(max, s, bytes).Valid(max)
  {
    if bytes != [] {
      hide InputByte;
      ReceiveValid(max, s, bytes[..|bytes| - 1]);
      InputByteValid(max, Receive(max, s, bytes[..|bytes| - 1]), bytes[|bytes| - 1]);
    }
  }
}
