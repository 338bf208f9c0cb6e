/** Laws of the HDLC codec over whole byte streams: the round trip, resynchronisation after
    arbitrary input, and the agreement of the byte-at-a-time receiver with a decoder that works
    on complete flag-delimited segments. */
module HdlcStream {
  import opened Crc16
  import opened ErrorDetection
  import opened Hdlc
  import opened Sequences

  /** An even control byte carries the sequence number in its three high bits. */
  lemma SequenceNumber(s: Receiver, f: Frame, number: bv8)
    requires number < 8 && f.control & 0xe1 == number << 5
    ensures Accept(s, f).sendSeq == number
  {
  }

  // ----- One stuffed byte

  lemma FlipTwice(b: bv8)
    ensures (b ^ FLIP) ^ FLIP == b
    ensures Special(b) ==> !Special(b ^ FLIP)
    ensures b ^ FLIP != b
  {
  }

  /** What the receiver takes from the stuffed form of a byte; only a pending escape can spoil it,
      and then only if the byte was sent unescaped. */
  function Seen(escaped: bool, b: bv8): bv8 {
    if escaped && !Special(b) then b ^ FLIP else b
  }

  lemma StuffedByte(max: BlockSize, s: Receiver, b: bv8)
    ensures Receive(max, s, Stuff(b)) == DataByte(max, s.(escaped := false), Seen(s.escaped, b))
  {
    hide DataByte;
    FlipTwice(b);
    if Special(b) {
      var r := InputByte(max, s, ESCAPE);
      assert [ESCAPE, b ^ FLIP] == [ESCAPE] + [b ^ FLIP];
      ReceiveOne(max, s, ESCAPE);
      ReceiveAppend(max, s, [ESCAPE], [b ^ FLIP]);
      ReceiveOne(max, r, b ^ FLIP);
      assert r.(escaped := false) == s.(escaped := false);
    } else {
      ReceiveOne(max, s, b);
      assert !s.escaped ==> s.(escaped := false) == s;
    }
  }

  lemma ReceiveOne(max: BlockSize, s: Receiver, b: bv8)
    ensures Receive(max, s, [b]) == InputByte(max, s, b)
  {
    hide InputByte;
    ReceiveSnoc(max, s, [], b);
    assert [] + [b] == [b];
  }

  // ----- A stuffed body

  lemma {:induction false} StuffedBytes(max: BlockSize, s: Receiver, bytes: seq<bv8>)
    requires !s.escaped && |s.buffer| + |bytes| <= max
    ensures Receive(max, s, StuffAll(bytes)) == s.(crc := Crc(s.crc, bytes), buffer := s.buffer + bytes)
  {
    if bytes == [] {
      assert StuffAll(bytes) == [] && s.buffer + bytes == s.buffer;
    } else {
      hide InputByte, Stuff, Step, Receive, Special;
      var head, last := bytes[..|bytes| - 1], bytes[|bytes| - 1];
      assert bytes == head + [last];
      StuffedBytes(max, s, head);
      ReceiveAppend(max, s, StuffAll(head), Stuff(last));
      StuffedByte(max, Receive(max, s, StuffAll(head)), last);
      Associative(s.buffer, head, [last]);
    }
  }

  /** From an idle receiver, the first byte of a body is the one a pending escape can spoil. */
  lemma StuffedBody(max: BlockSize, s: Receiver, body: seq<bv8>)
    requires s.Idle() && 0 < |body| <= max
    ensures
      var seen := [Seen(s.escaped, body[0])] + body[1..];
      Receive(max, s, StuffAll(body)) == s.(escaped := false, crc := Crc(INITIAL, seen), buffer := seen)
  {
    hide InputByte, Stuff, Step, Receive;
    var b := Seen(s.escaped, body[0]);
    var r := s.(escaped := false, crc := Step(INITIAL, b), buffer := [b]);
    assert body == [body[0]] + body[1..];
    StuffAppend([body[0]], body[1..]);
    StuffSnoc([], body[0]);
    assert [] + [body[0]] == [body[0]];
    assert StuffAll([]) + Stuff(body[0]) == Stuff(body[0]);
    ReceiveAppend(max, s, Stuff(body[0]), StuffAll(body[1..]));
    StuffedByte(max, s, body[0]);
    assert Receive(max, s, Stuff(body[0])) == r;
    StuffedBytes(max, r, body[1..]);
    CrcAppend(INITIAL, [b], body[1..]);
    CrcSnoc(INITIAL, [], b);
    assert [] + [b] == [b];
  }

  // ----- One frame

  lemma BodyShape(f: Frame)
    ensures |f.Body()| == |f.payload| + 4
    ensures f.Body()[0] == f.address && f.Body()[1] == f.control
    ensures f.Body()[2..|f.Body()| - 2] == f.payload
    ensures Crc(INITIAL, f.Body()) == GOOD
  {
    hide Crc, Low, High;
    Residue([f.address, f.control] + f.payload);
  }

  /** A flag leaves the receiver idle, whatever came before it. */
  lemma FlagMakesIdle(max: BlockSize, s: Receiver)
    requires s.Valid(max)
    ensures Receive(max, s, [FLAG]).Idle()
    ensures Receive(max, s, [FLAG]).escaped == s.escaped
    ensures s.Idle() ==> Receive(max, s, [FLAG]) == s
  {
    hide Step;
    ReceiveOne(max, s, FLAG);
  }

  /** Whether the first frame after state `s` is lost: an escape is pending and the frame's address
      was sent unescaped. */
  predicate Spoils(s: Receiver, f: Frame) {
    s.escaped && !Special(f.address)
  }

  /** The receiver when the closing flag of a frame arrives. */
  function Full(idle: Receiver, seen: seq<bv8>): Receiver {
    idle.(escaped := false, crc := Crc(INITIAL, seen), buffer := seen)
  }

  lemma FrameProcessed(max: BlockSize, s: Receiver, f: Frame)
    requires s.Valid(max) && f.Fits(max)
    ensures
      var idle := Receive(max, s, [FLAG]);
      |f.Body()| > 0 && Receive(max, s, f.Wire())
                        == ProcessFrame(Full(idle, [Seen(s.escaped, f.Body()[0])] + f.Body()[1..]))
  {
    hide Crc, ProcessFrame, Receive;
    var body := f.Body();
    BodyShape(f);
    var idle := Receive(max, s, [FLAG]);
    var full := Full(idle, [Seen(s.escaped, body[0])] + body[1..]);
    FlagMakesIdle(max, s);
    ReceiveAppend(max, s, [FLAG], StuffAll(body));
    ReceiveAppend(max, s, [FLAG] + StuffAll(body), [FLAG]);
    StuffedBody(max, idle, body);
    ReceiveOne(max, full, FLAG);
  }

  lemma IntactProcessed(idle: Receiver, f: Frame)
    requires idle.Idle()
    ensures ProcessFrame(Full(idle, f.Body())) == Accept(idle.(escaped := false), f)
  {
    hide Crc, Frame.Body;
    BodyShape(f);
  }

  lemma SpoiledProcessed(idle: Receiver, f: Frame, seen: seq<bv8>)
    requires idle.Idle()
    requires |seen| == |f.Body()| && seen[0] != f.Body()[0] && seen[1..] == f.Body()[1..]
    ensures ProcessFrame(Full(idle, seen)) == idle.(escaped := false)
  {
    hide Crc, Frame.Body;
    BodyShape(f);
    assert forall k :: 0 < k < |seen| ==> seen[k] == seen[1..][k - 1] && f.Body()[k] == f.Body()[1..][k - 1];
    AdjacentBytesChangeCrc(INITIAL, seen, f.Body(), 0);
  }

  lemma FrameReceived(max: BlockSize, s: Receiver, f: Frame)
    requires s.Valid(max) && f.Fits(max)
    ensures
      var idle := Receive(max, s, [FLAG]).(escaped := false);
      Receive(max, s, f.Wire()) == if Spoils(s, f) then idle else Accept(idle, f)
  {
    hide Receive, ProcessFrame, Full, Accept, Frame.Body, Special;
    var body := f.Body();
    BodyShape(f);
    var seen := [Seen(s.escaped, body[0])] + body[1..];
    FlagMakesIdle(max, s);
    FrameProcessed(max, s, f);
    if Spoils(s, f) {
      FlipTwice(f.address);
      SpoiledProcessed(Receive(max, s, [FLAG]), f, seen);
    } else {
      assert seen == body;
      IntactProcessed(Receive(max, s, [FLAG]), f);
    }
  }

  // ----- Any number of frames

  lemma AcceptKeeps(max: BlockSize, s: Receiver, f: Frame)
    requires s.Valid(max) && f.Fits(max)
    ensures Accept(s, f).Valid(max)
    ensures Accept(s, f).escaped == s.escaped
    ensures s.Idle() ==> Accept(s, f).Idle()
  {
    hide Crc;
  }

  lemma {:induction false} FramesReceived(max: BlockSize, s: Receiver, frames: seq<Frame>)
    requires s.Valid(max) && s.Idle() && !s.escaped
    requires forall f :: f in frames ==> f.Fits(max)
    ensures Receive(max, s, WireAll(frames)) == AcceptAll(s, frames)
    decreases |frames|
  {
    if frames != [] {
      hide Crc, InputByte, Accept;
      var f := frames[0];
      assert f.Fits(max);
      FlagMakesIdle(max, s);
      FrameReceived(max, s, f);
      assert s.(escaped := false) == s;
      AcceptKeeps(max, s, f);
      ReceiveAppend(max, s, f.Wire(), WireAll(frames[1..]));
      FramesReceived(max, Accept(s, f), frames[1..]);
    }
  }

  /** Stream round trip and resynchronisation. After any byte stream, however cut into calls, the
      encodings of any frames that fit are all taken, in order and once each, and the receiver ends
      idle; only a pending escape costs the first frame, and it does so exactly when that
      frame's address was sent unescaped. */
  lemma {:induction false} StreamRoundTrip(max: BlockSize, garbage: seq<bv8>, frames: seq<Frame>, chunks: seq<seq<bv8>>)
    requires frames != [] && forall f :: f in frames ==> f.Fits(max)
    requires Flatten(chunks) == garbage + WireAll(frames)
    ensures
      var s := Receive(max, INITIAL_RECEIVER, garbage);
      var idle := Receive(max, INITIAL_RECEIVER, garbage + [FLAG]).(escaped := false);
      && ReceiveChunks(max, INITIAL_RECEIVER, chunks)
         == AcceptAll(idle, if Spoils(s, frames[0]) then frames[1..] else frames)
      && ReceiveChunks(max, INITIAL_RECEIVER, chunks).Idle()
      && !ReceiveChunks(max, INITIAL_RECEIVER, chunks).escaped
  {
    hide Crc, InputByte, Accept;
    var s := Receive(max, INITIAL_RECEIVER, garbage);
    var idle := Receive(max, s, [FLAG]).(escaped := false);
    var f := frames[0];
    InitialValid(max);
    ReceiveValid(max, INITIAL_RECEIVER, garbage);
    ReceiveValid(max, s, [FLAG]);
    assert idle.Valid(max);
    ChunkingIrrelevant(max, INITIAL_RECEIVER, chunks);
    ReceiveAppend(max, INITIAL_RECEIVER, garbage, WireAll(frames));
    ReceiveAppend(max, INITIAL_RECEIVER, garbage, [FLAG]);
    ReceiveAppend(max, s, f.Wire(), WireAll(frames[1..]));
    FrameReceived(max, s, f);
    FlagMakesIdle(max, s);
    AcceptKeeps(max, idle, f);
    var next := if Spoils(s, f) then idle else Accept(idle, f);
    FramesReceived(max, next, frames[1..]);
    AcceptAllKeeps(max, next, frames[1..]);
  }

  lemma InitialValid(max: BlockSize)
    ensures INITIAL_RECEIVER.Valid(max)
  {
  }

  lemma {:induction false} AcceptAllKeeps(max: BlockSize, s: Receiver, frames: seq<Frame>)
    requires s.Valid(max)
    requires forall f :: f in frames ==> f.Fits(max)
    ensures AcceptAll(s, frames).Valid(max)
    ensures AcceptAll(s, frames).escaped == s.escaped
    ensures s.Idle() ==> AcceptAll(s, frames).Idle()
    decreases |frames|
  {
    if frames != [] {
      hide Crc, Accept;
      AcceptKeeps(max, s, frames[0]);
      AcceptAllKeeps(max, Accept(s, frames[0]), frames[1..]);
    }
  }

  /** The callbacks of accepted frames: one for each with an odd control byte, in order. */
  lemma {:induction false} AcceptAllDelivers(s: Receiver, frames: seq<Frame>)
    ensures AcceptAll(s, frames).delivered == s.delivered + Deliveries(frames)
    decreases |frames|
  {
    if frames != [] {
      AcceptAllDelivers(Accept(s, frames[0]), frames[1..]);
    }
  }
}
