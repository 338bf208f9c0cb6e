/** Greybus messages over HDLC: the printer of include/hdlc.h, the parser of src/main.c, and the
    round trip through the whole stack between them. */
module GreybusHdlc {
  import opened Crc16
  import opened ErrorDetection
  import opened Greybus
  import opened Hdlc
  import opened HdlcStream
  import opened HdlcReference
  import opened HdlcDriver
  import opened Sequences

  const ADDRESS_GREYBUS: bv8 := 0x01

  /** The frame gb_message_hdlc_send makes of a message. */
  function FrameOf(o: Outgoing): Frame {
    Frame(ADDRESS_GREYBUS, 0x03, Serialize(o.cport, o.message, o.pad))
  }

  /** The header size is that of the message, and the frame fits the receive buffer. */
  predicate Sendable(max: BlockSize, o: Outgoing) {
    o.message.WellSized() && o.message.size + 6 <= max
  }

  /** What hdlc_process_greybus_frame does with a frame payload: submit a message, or refuse it. A
      payload without the size field, or one whose size field claims less than a header, is outside
      the contract of the C code. */
  datatype Submission = Submitted(cport: U16, message: Message) | Refused | OutsideContract

  /** The size field of the header, after the cport. */
  function ClaimedSize(buffer: seq<bv8>): U16
    requires |buffer| >= 4
  {
    FromLe16(buffer[2], buffer[3])
  }

  function ProcessGreybusFrame(buffer: seq<bv8>, heapHasRoom: bool): Submission {
    if |buffer| < 4 then OutsideContract
    else if ClaimedSize(buffer) > |buffer| - 2 then Refused
    else match Parse(buffer)
      case Whole(cport, message, _) => if heapHasRoom then Submitted(cport, message) else Refused
      case _ => OutsideContract
  }

  /** The Greybus submissions among a log of delivered frames, while the heap has room. */
  function Submissions(log: seq<Delivery>): seq<Submission> {
    if log == [] then []
    else
      var n := |log| - 1;
      Submissions(log[..n])
      + if log[n].address == ADDRESS_GREYBUS then [ProcessGreybusFrame(log[n].payload, true)] else []
  }

  function ToFrames(out: seq<Outgoing>): seq<Frame> {
    if out == [] then [] else [FrameOf(out[0])] + ToFrames(out[1..])
  }

  function AsSubmitted(out: seq<Outgoing>): seq<Submission> {
    if out == [] then [] else [Submitted(out[0].cport, out[0].message)] + AsSubmitted(out[1..])
  }

  /** gb_message_hdlc_send: the message is assembled in a local buffer of HDLC_MAX_BLOCK_SIZE bytes. */
  method GbMessageHdlcSend(driver: Driver, o: Outgoing)
    requires o.message.WellSized() && o.message.size + 2 <= driver.rxBuffer.Length
    modifies driver`wire
    ensures driver.wire == old(driver.wire) + FrameOf(o).Wire()
  {
    var m := o.message;
    var buffer := new bv8[driver.rxBuffer.Length](_ => 0);
    var cportBytes, header := Le16(o.cport), HeaderBytes(m, o.pad);
    forall i | 0 <= i < 2 { buffer[i] := cportBytes[i]; }
    forall i | 0 <= i < HEADER_SIZE { buffer[2 + i] := header[i]; }
    forall i | 0 <= i < |m.payload| { buffer[2 + HEADER_SIZE + i] := m.payload[i]; }
    assert buffer[..m.size + 2] == Serialize(o.cport, m, o.pad);
    driver.BlockSendSync(buffer[..m.size + 2], ADDRESS_GREYBUS, 0x03);
  }

  /** A frame is submitted exactly when it starts with a serialised message and the heap has room, and
      as that message; it is refused exactly when it claims more than is there, or the heap is full. */
  lemma SubmittedIffSerialized(buffer: seq<bv8>, heapHasRoom: bool, cport: U16, m: Message)
    ensures ProcessGreybusFrame(buffer, heapHasRoom) == Submitted(cport, m)
            <==> heapHasRoom && m.WellSized() && exists pad :: Serialize(cport, m, pad) <= buffer
    ensures ProcessGreybusFrame(buffer, heapHasRoom).Refused?
            <==> |buffer| >= 4
                 && (ClaimedSize(buffer) > |buffer| - 2 || (!heapHasRoom && ClaimedSize(buffer) >= HEADER_SIZE))
  {
    hide Serialize, FromHeader;
    if |buffer| >= 2 + HEADER_SIZE {
      assert SizeOf(buffer[2..2 + HEADER_SIZE]) == ClaimedSize(buffer);
    }
    if m.WellSized() && exists pad :: Serialize(cport, m, pad) <= buffer {
      var pad :| Serialize(cport, m, pad) <= buffer;
      var rest := buffer[|Serialize(cport, m, pad)|..];
      assert buffer == Serialize(cport, m, pad) + rest;
      ParseSerialized(cport, m, pad, rest);
    }
    if ProcessGreybusFrame(buffer, heapHasRoom) == Submitted(cport, m) {
      SerializeParsed(buffer);
    }
  }

  lemma SubmissionsSnoc(log: seq<Delivery>, o: Outgoing)
    requires o.message.WellSized()
    ensures Submissions(log + [Delivery(ADDRESS_GREYBUS, FrameOf(o).payload)])
            == Submissions(log) + [Submitted(o.cport, o.message)]
  {
    hide ProcessGreybusFrame, Serialize;
    var d := Delivery(ADDRESS_GREYBUS, FrameOf(o).payload);
    assert Serialize(o.cport, o.message, o.pad) <= d.payload;
    SubmittedIffSerialized(d.payload, true, o.cport, o.message);
    assert (log + [d])[..|log|] == log;
  }

  lemma {:induction false} DeliveriesSubmitted(log: seq<Delivery>, out: seq<Outgoing>)
    requires forall o :: o in out ==> o.message.WellSized()
    ensures Submissions(log + Deliveries(ToFrames(out))) == Submissions(log) + AsSubmitted(out)
    decreases |out|
  {
    hide Submissions, Serialize;
    if out == [] {
      assert log + Deliveries(ToFrames(out)) == log;
    } else {
      var o := out[0];
      var one := [Delivery(ADDRESS_GREYBUS, FrameOf(o).payload)];
      assert Deliveries(ToFrames(out)) == one + Deliveries(ToFrames(out[1..])) by {
        assert ToFrames(out)[1..] == ToFrames(out[1..]);
      }
      Associative(log, one, Deliveries(ToFrames(out[1..])));
      SubmissionsSnoc(log, o);
      DeliveriesSubmitted(log + one, out[1..]);
      Associative(Submissions(log), [Submitted(o.cport, o.message)], AsSubmitted(out[1..]));
    }
  }

  lemma {:induction false} FramesFit(max: BlockSize, out: seq<Outgoing>)
    requires forall o :: o in out ==> Sendable(max, o)
    ensures |ToFrames(out)| == |out|
    ensures forall i :: 0 <= i < |out| ==> ToFrames(out)[i] == FrameOf(out[i])
    ensures forall f :: f in ToFrames(out) ==> f.Fits(max)
    decreases |out|
  {
    if out != [] {
      assert Sendable(max, out[0]);
      FramesFit(max, out[1..]);
    }
  }

  /** Whole-stack round trip. Whatever bytes came first and however the stream is cut into calls,
      the messages sent are submitted in order, each exactly once, with cport, operation id, type,
      result, size and payload intact. Only when the earlier bytes left an escape pending is the
      first one lost. */
  lemma {:induction false} WholeStackRoundTrip(
    max: BlockSize, garbage: seq<bv8>, out: seq<Outgoing>, chunks: seq<seq<bv8>>)
    requires out != [] && forall o :: o in out ==> Sendable(max, o)
    requires Flatten(chunks) == garbage + WireAll(ToFrames(out))
    ensures
      var earlier := Receive(max, INITIAL_RECEIVER, garbage + [FLAG]).delivered;
      Submissions(ReceiveChunks(max, INITIAL_RECEIVER, chunks).delivered)
      == Submissions(earlier) + AsSubmitted(if Pending(false, garbage) then out[1..] else out)
  {
    hide Receive, Accept, Submissions;
    var frames := ToFrames(out);
    var sent := if Pending(false, garbage) then out[1..] else out;
    FramesFit(max, out);
    assert frames[1..] == ToFrames(out[1..]);
    EscapePending(max, INITIAL_RECEIVER, garbage);
    StreamRoundTrip(max, garbage, frames, chunks);
    var idle := Receive(max, INITIAL_RECEIVER, garbage + [FLAG]).(escaped := false);
    AcceptAllDelivers(idle, ToFrames(sent));
    forall o | o in sent ensures o.message.WellSized() {
      assert Sendable(max, o);
    }
    DeliveriesSubmitted(idle.delivered, sent);
  }

  // ----- One frame, byte by byte

  const IMAGE_MESSAGE := Outgoing(0x1234, Message(10, 0xabcd, 0x90, 0x7e, [0x7d, 0x55]), (0, 0))
  const IMAGE_BODY: seq<bv8> :=
    [0x01, 0x03, 0x34, 0x12, 0x0a, 0x00, 0xcd, 0xab, 0x90, 0x7e, 0x00, 0x00, 0x7d, 0x55]

  lemma CrcNext(bytes: seq<bv8>, k: nat, crc: bv16)
    requires k < |bytes| && Crc(INITIAL, bytes[..k]) == crc
    ensures Crc(INITIAL, bytes[..k + 1]) == Step(crc, bytes[k])
  {
    hide Step;
    CrcSnoc(INITIAL, bytes[..k], bytes[k]);
    assert bytes[..k + 1] == bytes[..k] + [bytes[k]];
  }

  lemma ImageSteps()
    ensures Step(0xffff, 0x01) == 0x1e0e && Step(0x1e0e, 0x03) == 0xdbfb && Step(0xdbfb, 0x34) == 0x3e20
    ensures Step(0x3e20, 0x12) == 0x12af && Step(0x12af, 0x0a) == 0xf2b5 && Step(0xf2b5, 0x00) == 0xe2d4
    ensures Step(0xe2d4, 0xcd) == 0x8da2 && Step(0x8da2, 0xab) == 0x9d4c && Step(0x9d4c, 0x90) == 0x1c7c
    ensures Step(0x1c7c, 0x7e) == 0x230e && Step(0x230e, 0x00) == 0xe95d && Step(0xe95d, 0x00) == 0x8989
    ensures Step(0x8989, 0x7d) == 0xb122 && Step(0xb122, 0x55) == 0x0789
  {
  }

  lemma ImageCrc()
    ensures Crc(INITIAL, IMAGE_BODY) == 0x0789
  {
    hide Step, Crc;
    ImageSteps();
    CrcNone(INITIAL);
    assert IMAGE_BODY[..0] == [];
    CrcNext(IMAGE_BODY, 0, 0xffff);
    CrcNext(IMAGE_BODY, 1, 0x1e0e);
    CrcNext(IMAGE_BODY, 2, 0xdbfb);
    CrcNext(IMAGE_BODY, 3, 0x3e20);
    CrcNext(IMAGE_BODY, 4, 0x12af);
    CrcNext(IMAGE_BODY, 5, 0xf2b5);
    CrcNext(IMAGE_BODY, 6, 0xe2d4);
    CrcNext(IMAGE_BODY, 7, 0x8da2);
    CrcNext(IMAGE_BODY, 8, 0x9d4c);
    CrcNext(IMAGE_BODY, 9, 0x1c7c);
    CrcNext(IMAGE_BODY, 10, 0x230e);
    CrcNext(IMAGE_BODY, 11, 0xe95d);
    CrcNext(IMAGE_BODY, 12, 0x8989);
    CrcNext(IMAGE_BODY, 13, 0xb122);
    assert IMAGE_BODY[..14] == IMAGE_BODY;
  }

  /** Nothing to escape. */
  lemma {:induction false} PlainStuffed(bytes: seq<bv8>)
    requires FLAG !in bytes && ESCAPE !in bytes
    ensures StuffAll(bytes) == bytes
  {
    if bytes != [] {
      var n := |bytes| - 1;
      PlainStuffed(bytes[..n]);
      assert bytes == bytes[..n] + [bytes[n]];
    }
  }

  /** The bytes of one Greybus frame: address, control, little-endian fields, check sequence low byte
      first, and escapes for the two bytes that need them. */
  lemma FrameImage()
    ensures
      FrameOf(IMAGE_MESSAGE).Wire()
      == [0x7e, 0x01, 0x03, 0x34, 0x12, 0x0a, 0x00, 0xcd, 0xab, 0x90, 0x7d, 0x5e, 0x00, 0x00, 0x7d, 0x5d, 0x55,
          0x76, 0xf8, 0x7e]
  {
    hide Crc, Step, StuffAll;
    ImageBody();
    ImageCrc();
    assert Low(0x0789 ^ 0xffff) == 0x76 && High(0x0789 ^ 0xffff) == 0xf8;
    var body := IMAGE_BODY + [0x76, 0xf8];
    assert FrameOf(IMAGE_MESSAGE).Body() == body;
    ImageStuffed(body);
  }

  lemma ImageBody()
    ensures
      var o := IMAGE_MESSAGE;
      [ADDRESS_GREYBUS, 0x03] + Serialize(o.cport, o.message, o.pad) == IMAGE_BODY
  {
    assert Le16(0x1234) == [0x34, 0x12] && Le16(10) == [0x0a, 0x00] && Le16(0xabcd) == [0xcd, 0xab];
  }

  lemma ImageStuffed(body: seq<bv8>)
    requires body == IMAGE_BODY + [0x76, 0xf8]
    ensures
      StuffAll(body)
      == [0x01, 0x03, 0x34, 0x12, 0x0a, 0x00, 0xcd, 0xab, 0x90, 0x7d, 0x5e, 0x00, 0x00, 0x7d, 0x5d, 0x55, 0x76, 0xf8]
  {
    hide StuffAll;
    var head, middle, tail: seq<bv8> :=
      [0x01, 0x03, 0x34, 0x12, 0x0a, 0x00, 0xcd, 0xab, 0x90], [0x00, 0x00], [0x55, 0x76, 0xf8];
    PlainStuffed(head);
    PlainStuffed(middle);
    PlainStuffed(tail);
    StuffSnoc(head, 0x7e);
    StuffAppend(head + [0x7e], middle);
    StuffSnoc(head + [0x7e] + middle, 0x7d);
    StuffAppend(head + [0x7e] + middle + [0x7d], tail);
    assert body == head + [0x7e] + middle + [0x7d] + tail;
    assert Stuff(0x7e) == [0x7d, 0x5e] && Stuff(0x7d) == [0x7d, 0x5d];
  }
}
