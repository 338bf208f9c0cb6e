/** A decoder that cuts the stream at its flags and judges each segment as a whole. The receiver's
    byte-at-a-time state machine computes exactly its callbacks, on every stream. */
module HdlcReference {
  import opened Crc16
  import opened ErrorDetection
  import opened Hdlc
  import opened HdlcStream
  import opened Sequences

  /** The position of the first flag, or the length of the stream when there is none. */
  function FirstFlag(stream: seq<bv8>): (i: nat)
    ensures i <= |stream|
    ensures FLAG !in stream[..i]
    ensures i < |stream| ==> stream[i] == FLAG
  {
    if stream == [] || stream[0] == FLAG then 0 else 1 + FirstFlag(stream[1..])
  }

  /** Whether an escape is pending after the stream: its last byte other than a flag is an escape. */
  predicate Pending(escaped: bool, stream: seq<bv8>) {
    if stream == [] then escaped
    else
      var n := |stream| - 1;
      if stream[n] == FLAG then Pending(escaped, stream[..n]) else stream[n] == ESCAPE
  }

  /** The data bytes of a flag-free segment. */
  function Unescape(escaped: bool, segment: seq<bv8>): seq<bv8> {
    if segment == [] then []
    else
      var n := |segment| - 1;
      var head := Unescape(escaped, segment[..n]);
      if segment[n] == ESCAPE then head
      else head + [if Pending(escaped, segment[..n]) then segment[n] ^ FLIP else segment[n]]
  }

  /** How many of n data bytes have been thrown away by buffer overflows: whole buffers, so that
      between 1 and `max` bytes remain. */
  function Lost(max: BlockSize, n: nat): (lost: nat)
    ensures lost <= n
    ensures n > 0 ==> 0 < n - lost <= max
    ensures n <= max ==> lost == 0
  {
    if n <= max then 0 else max + Lost(max, n - max)
  }

  /** The bytes the register covers. The byte whose arrival overflows the buffer is kept, but the
      register is reset after that byte has gone through it. */
  function Checked(max: BlockSize, data: seq<bv8>): seq<bv8> {
    data[CheckedFrom(max, |data|)..]
  }

  function CheckedFrom(max: BlockSize, n: nat): (k: nat)
    ensures k <= n
  {
    if Lost(max, n) == 0 then 0 else Lost(max, n) + 1
  }

  /** The callbacks due to one segment's data bytes: at most one. */
  function Judge(max: BlockSize, data: seq<bv8>): seq<Delivery> {
    var kept := data[Lost(max, |data|)..];
    if |kept| > 3 && Crc(INITIAL, Checked(max, data)) == GOOD && kept[1] & 1 != 0 then
      [Delivery(kept[0], kept[2..|kept| - 2])]
    else
      []
  }

  function Decode(max: BlockSize, escaped: bool, stream: seq<bv8>): seq<Delivery>
    decreases |stream|
  {
    var i := FirstFlag(stream);
    if i == |stream| then []
    else Judge(max, Unescape(escaped, stream[..i])) + Decode(max, Pending(escaped, stream[..i]), stream[i + 1..])
  }

  // ----- A segment without flags

  lemma {:induction false} LostNext(max: BlockSize, n: nat)
    ensures Lost(max, n + 1) == if n - Lost(max, n) >= max then n else Lost(max, n)
  {
    if n > max {
      LostNext(max, n - max);
    }
  }

  /** The state after some data bytes have arrived at an idle receiver. */
  function Holding(max: BlockSize, s: Receiver, escaped: bool, data: seq<bv8>): Receiver {
    s.(escaped := escaped, crc := Crc(INITIAL, Checked(max, data)), buffer := data[Lost(max, |data|)..])
  }

  lemma DropSnoc(data: seq<bv8>, b: bv8, k: nat)
    requires k <= |data|
    ensures (data + [b])[k..] == data[k..] + [b]
  {
  }

  lemma CheckedFromNext(max: BlockSize, n: nat)
    ensures CheckedFrom(max, n + 1) == if n - Lost(max, n) >= max then n + 1 else CheckedFrom(max, n)
  {
    LostNext(max, n);
    hide Lost;
  }

  lemma CheckedOneMore(max: BlockSize, data: seq<bv8>, b: bv8)
    ensures
      var lost := Lost(max, |data|);
      Checked(max, data + [b]) == if |data| - lost >= max then [] else Checked(max, data) + [b]
  {
    hide Lost, CheckedFrom;
    CheckedFromNext(max, |data|);
    DropSnoc(data, b, CheckedFrom(max, |data|));
  }

  lemma HoldingOneMore(max: BlockSize, s: Receiver, escaped: bool, data: seq<bv8>, b: bv8)
    ensures DataByte(max, Holding(max, s, escaped, data), b) == Holding(max, s, escaped, data + [b])
  {
    hide Step, Checked, Lost;
    var lost := Lost(max, |data|);
    LostNext(max, |data|);
    CheckedOneMore(max, data, b);
    CrcSnoc(INITIAL, Checked(max, data), b);
    if |data| - lost >= max {
      DropSnoc(data, b, |data|);
    } else {
      DropSnoc(data, b, lost);
    }
  }

  lemma {:induction false} SegmentReceived(max: BlockSize, s: Receiver, segment: seq<bv8>)
    requires s.Idle() && FLAG !in segment
    ensures Receive(max, s, segment)
            == Holding(max, s, Pending(s.escaped, segment), Unescape(s.escaped, segment))
  {
    if segment != [] {
      hide DataByte, Lost, Crc, Holding;
      var n := |segment| - 1;
      var b := segment[n];
      var escaped, data := Pending(s.escaped, segment[..n]), Unescape(s.escaped, segment[..n]);
      SegmentReceived(max, s, segment[..n]);
      EscapedFlag(max, s, escaped, data, b);
      if b != ESCAPE {
        HoldingOneMore(max, s, false, data, if escaped then b ^ FLIP else b);
      }
    } else {
      assert Unescape(s.escaped, segment) == [];
    }
  }

  lemma EscapedFlag(max: BlockSize, s: Receiver, escaped: bool, data: seq<bv8>, b: bv8)
    requires b != FLAG
    ensures InputByte(max, Holding(max, s, escaped, data), b)
            == if b == ESCAPE then Holding(max, s, true, data)
               else DataByte(max, Holding(max, s, false, data), if escaped then b ^ FLIP else b)
  {
    hide DataByte, Lost, Crc, Checked;
  }

  // ----- The whole stream

  lemma FlagJudges(max: BlockSize, s: Receiver, escaped: bool, data: seq<bv8>)
    requires s.Idle()
    ensures
      var r := Receive(max, Holding(max, s, escaped, data), [FLAG]);
      r.Idle() && r.escaped == escaped && r.delivered == s.delivered + Judge(max, data)
  {
    hide Crc, Checked;
    ReceiveOne(max, Holding(max, s, escaped, data), FLAG);
    if data == [] {
      EmptySegment(max, s, escaped);
    } else {
      LowBitSet(if |data| > Lost(max, |data|) + 1 then data[Lost(max, |data|) + 1] else 0);
    }
  }

  lemma EmptySegment(max: BlockSize, s: Receiver, escaped: bool)
    requires s.Idle()
    ensures Holding(max, s, escaped, []) == s.(escaped := escaped)
    ensures Judge(max, []) == []
  {
  }

  lemma LowBitSet(b: bv8)
    ensures b & 1 != 0 <==> !(b & 1 == 0)
  {
  }

  lemma SegmentAndFlag(max: BlockSize, s: Receiver, segment: seq<bv8>)
    requires s.Idle() && FLAG !in segment
    ensures
      var r := Receive(max, s, segment + [FLAG]);
      && r.Idle() && r.escaped == Pending(s.escaped, segment)
      && r.delivered == s.delivered + Judge(max, Unescape(s.escaped, segment))
  {
    hide Judge, Holding, InputByte, Unescape, Pending, Crc;
    SegmentReceived(max, s, segment);
    ReceiveAppend(max, s, segment, [FLAG]);
    FlagJudges(max, s, Pending(s.escaped, segment), Unescape(s.escaped, segment));
  }

  /** On every stream, the callbacks of the state machine are those of the segment decoder. */
  lemma {:induction false} ReceiverRefinesReference(max: BlockSize, s: Receiver, stream: seq<bv8>)
    requires s.Idle()
    ensures Receive(max, s, stream).delivered == s.delivered + Decode(max, s.escaped, stream)
    decreases |stream|
  {
    hide Judge, Holding, Receive, Unescape, Pending, FirstFlag;
    var i := FirstFlag(stream);
    var segment := stream[..i];
    var judged := Judge(max, Unescape(s.escaped, segment));
    if i == |stream| {
      assert stream == segment;
      SegmentReceived(max, s, segment);
      HoldingDelivered(max, s, Pending(s.escaped, segment), Unescape(s.escaped, segment));
    } else {
      var rest := stream[i + 1..];
      assert stream == segment + [FLAG] + rest;
      SegmentAndFlag(max, s, segment);
      ReceiveAppend(max, s, segment + [FLAG], rest);
      ReceiverRefinesReference(max, Receive(max, s, segment + [FLAG]), rest);
      Associative(s.delivered, judged, Decode(max, Pending(s.escaped, segment), rest));
    }
  }

  lemma HoldingDelivered(max: BlockSize, s: Receiver, escaped: bool, data: seq<bv8>)
    ensures Holding(max, s, escaped, data).delivered == s.delivered
  {
  }

  /** A flag does not clear a pending escape: after any stream one is pending exactly when the last
      byte other than a flag is an escape. */
  lemma {:induction false} EscapePending(max: BlockSize, s: Receiver, stream: seq<bv8>)
    ensures Receive(max, s, stream).escaped == Pending(s.escaped, stream)
  {
    if stream != [] {
      hide Step;
      EscapePending(max, s, stream[..|stream| - 1]);
    }
  }

  /** The register and the buffer after every stream, in terms of the data bytes since its last flag:
      `before` is empty or ends with that flag. */
  lemma StateSinceFlag(max: BlockSize, before: seq<bv8>, segment: seq<bv8>)
    requires FLAG !in segment && (before == [] || before[|before| - 1] == FLAG)
    ensures
      var r := Receive(max, INITIAL_RECEIVER, before + segment);
      var data := Unescape(Pending(false, before), segment);
      var lost := Lost(max, |data|);
      && r.buffer == data[lost..]
      && |r.buffer| <= max
      && (r.buffer == [] ==> r.crc == INITIAL)
      && r.crc == Crc(INITIAL, if lost == 0 then r.buffer else r.buffer[1..])
  {
    hide InputByte, Unescape, Pending, Receive;
    var s := Receive(max, INITIAL_RECEIVER, before);
    IdleAfterFlag(max, before);
    EscapePending(max, INITIAL_RECEIVER, before);
    ReceiveAppend(max, INITIAL_RECEIVER, before, segment);
    SegmentReceived(max, s, segment);
    var data := Unescape(Pending(false, before), segment);
    var lost := Lost(max, |data|);
    if data != [] {
      assert data[lost..][1..] == data[lost + 1..];
    }
    assert data[0..] == data;
  }

  lemma IdleAfterFlag(max: BlockSize, before: seq<bv8>)
    requires before == [] || before[|before| - 1] == FLAG
    ensures Receive(max, INITIAL_RECEIVER, before).Idle()
  {
    if before != [] {
      hide InputByte;
      var earlier := before[..|before| - 1];
      InitialValid(max);
      ReceiveValid(max, INITIAL_RECEIVER, earlier);
      FlagMakesIdle(max, Receive(max, INITIAL_RECEIVER, earlier));
      assert before == earlier + [FLAG];
      ReceiveAppend(max, INITIAL_RECEIVER, earlier, [FLAG]);
    }
  }

  /** RFC 1662, section 4.3, has an escape followed by a flag abort the frame. Here it closes the frame
      like a flag alone, and stays pending. */
  lemma AbortNotHonoured(max: BlockSize, s: Receiver, f: Frame)
    requires s.Valid(max) && s.Idle() && !s.escaped && f.Fits(max)
    ensures Receive(max, s, StuffAll(f.Body()) + [ESCAPE] + [FLAG]) == Accept(s, f).(escaped := true)
  {
    hide Crc, ProcessFrame, Accept, Receive, Frame.Body;
    var body := f.Body();
    BodyShape(f);
    var full := Full(s, body);
    assert [Seen(false, body[0])] + body[1..] == body;
    StuffedBody(max, s, body);
    ReceiveAppend(max, s, StuffAll(body) + [ESCAPE], [FLAG]);
    ReceiveAppend(max, s, StuffAll(body), [ESCAPE]);
    ReceiveOne(max, full, ESCAPE);
    ReceiveOne(max, full.(escaped := true), FLAG);
    ProcessIgnoresEscape(full);
    IntactProcessed(s, f);
    AcceptIgnoresEscape(s, f);
  }

  lemma ProcessIgnoresEscape(s: Receiver)
    ensures ProcessFrame(s.(escaped := true)) == ProcessFrame(s).(escaped := true)
  {
  }

  lemma AcceptIgnoresEscape(s: Receiver, f: Frame)
    ensures Accept(s.(escaped := false), f).(escaped := true) == Accept(s, f).(escaped := true)
  {
  }

  // ----- What is delivered

  /** A whole body; after an overflow its check sequence leaves out the address. */
  function Sealed(overflowed: bool, address: bv8, control: bv8, payload: seq<bv8>): (body: seq<bv8>)
    ensures |body| == |payload| + 4
    ensures body[0] == address && body[1] == control && body[2..|body| - 2] == payload
  {
    hide Crc, Low, High;
    if overflowed then [address] + WithFcs([control] + payload) else Frame(address, control, payload).Body()
  }

  /** The front of a body is its address, its control byte and its payload. */
  lemma BodyFront(kept: seq<bv8>)
    requires |kept| > 3
    ensures kept[..|kept| - 2] == [kept[0], kept[1]] + kept[2..|kept| - 2]
    ensures kept[1..][..|kept| - 3] == [kept[1]] + kept[2..|kept| - 2]
  {
  }

  lemma AfterFirst(kept: seq<bv8>, first: bv8, rest: seq<bv8>)
    requires kept != []
    ensures kept == [first] + rest <==> kept[0] == first && kept[1..] == rest
  {
    assert kept == [kept[0]] + kept[1..];
    assert ([first] + rest)[1..] == rest;
  }

  lemma GoodIffSealed(overflowed: bool, kept: seq<bv8>)
    requires |kept| > 3
    ensures Crc(INITIAL, if overflowed then kept[1..] else kept) == GOOD
            <==> kept == Sealed(overflowed, kept[0], kept[1], kept[2..|kept| - 2])
  {
    hide Crc, WithFcs, GOOD;
    BodyFront(kept);
    if overflowed {
      GoodIffFcs(kept[1..]);
      AfterFirst(kept, kept[0], WithFcs([kept[1]] + kept[2..|kept| - 2]));
    } else {
      GoodIffFcs(kept);
    }
  }

  /** What the buffer keeps of a segment that is delivered. */
  predicate SealedOdd(max: BlockSize, data: seq<bv8>, address: bv8, control: bv8, payload: seq<bv8>) {
    var lost := Lost(max, |data|);
    control & 1 != 0 && data[lost..] == Sealed(lost > 0, address, control, payload)
  }

  lemma CheckedIsKept(max: BlockSize, data: seq<bv8>)
    requires data != []
    ensures
      var lost := Lost(max, |data|);
      Checked(max, data) == if lost > 0 then data[lost..][1..] else data[lost..]
  {
  }

  /** A segment is delivered exactly when the data bytes the buffer keeps are a whole body with an odd
      control byte: without overflow, one the sender would make; after one, the address may be
      anything. */
  lemma DeliveredIffSealed(max: BlockSize, data: seq<bv8>, address: bv8, payload: seq<bv8>)
    ensures Judge(max, data) == [Delivery(address, payload)]
            <==> exists control :: SealedOdd(max, data, address, control, payload)
  {
    hide Crc, Checked, Sealed, Lost;
    var lost := Lost(max, |data|);
    var kept := data[lost..];
    if |kept| > 3 {
      CheckedIsKept(max, data);
      GoodIffSealed(lost > 0, kept);
      if Judge(max, data) == [Delivery(address, payload)] {
        assert SealedOdd(max, data, address, kept[1], payload);
      }
    }
  }

  lemma UnescapeOne(segment: seq<bv8>, b: bv8)
    ensures Pending(false, segment + [b]) == if b == FLAG then Pending(false, segment) else b == ESCAPE
    ensures Unescape(false, segment + [b])
            == Unescape(false, segment)
               + if b == ESCAPE then [] else [if Pending(false, segment) then b ^ FLIP else b]
  {
    assert (segment + [b])[..|segment|] == segment;
  }

  lemma UnescapeStuff(segment: seq<bv8>, b: bv8)
    requires !Pending(false, segment)
    ensures !Pending(false, segment + Stuff(b))
    ensures Unescape(false, segment + Stuff(b)) == Unescape(false, segment) + [b]
  {
    hide Pending, Unescape, FLIP;
    UnescapeOne(segment, b);
    if Special(b) {
      assert segment + Stuff(b) == segment + [ESCAPE] + [b ^ FLIP];
      UnescapeOne(segment, ESCAPE);
      UnescapeOne(segment + [ESCAPE], b ^ FLIP);
      FlipTwice(b);
    }
  }

  lemma NothingStuffed()
    ensures StuffAll([]) == [] && !Pending(false, []) && Unescape(false, []) == []
  {
  }

  lemma {:induction false} UnescapeStuffed(data: seq<bv8>)
    ensures !Pending(false, StuffAll(data)) && Unescape(false, StuffAll(data)) == data
  {
    hide Pending, Unescape, StuffAll, Stuff;
    NothingStuffed();
    if data != [] {
      var head, b := data[..|data| - 1], data[|data| - 1];
      UnescapeStuffed(head);
      UnescapeStuff(StuffAll(head), b);
      StuffSnoc(head, b);
      assert data == head + [b];
    }
  }

  /** So after a buffer full of anything, bytes whose check sequence does not cover the address are
      delivered, if they are sent without a flag in between. */
  lemma OverflowDelivers(max: BlockSize, junk: seq<bv8>, address: bv8, control: bv8, payload: seq<bv8>)
    requires |junk| == max && control & 1 != 0 && |payload| + 4 <= max
    ensures
      var data := junk + [address] + WithFcs([control] + payload);
      Receive(max, INITIAL_RECEIVER, StuffAll(data) + [FLAG]).delivered == [Delivery(address, payload)]
  {
    hide WithFcs, Judge, Receive, StuffAll, Pending, Unescape;
    var body := Sealed(true, address, control, payload);
    var data := junk + [address] + WithFcs([control] + payload);
    assert data == junk + body;
    assert Lost(max, |data|) == max;
    assert data[max..] == body;
    assert SealedOdd(max, data, address, control, payload);
    DeliveredIffSealed(max, data, address, payload);
    UnescapeStuffed(data);
    StuffedIsTransparent(data);
    SegmentAndFlag(max, INITIAL_RECEIVER, StuffAll(data));
  }

  // ----- Corrupted bodies

  /** The test of hdlc_process_frame on a body that has been received in full. */
  predicate Intact(body: seq<bv8>) {
    |body| > 3 && Crc(INITIAL, body) == GOOD
  }

  /** The changes that are certain to be noticed: a burst of at most 16 consecutive bits anywhere in
      the body, or any odd number of changed bits. */
  ghost predicate Detectable(body: seq<bv8>, changed: seq<bv8>)
    requires |body| == |changed|
  {
    || (body != changed && exists start: nat :: BurstAt(BitsOf(body), BitsOf(changed), start))
    || Distance(BitsOf(body), BitsOf(changed)) % 2 == 1
  }

  /** Error detection: a frame whose body suffered such a change has no effect at all. */
  lemma CorruptionDropped(s: Receiver, body: seq<bv8>, changed: seq<bv8>)
    requires Intact(body) && |body| == |changed|
    requires Detectable(body, changed)
    ensures ProcessFrame(s.(buffer := changed, crc := Crc(INITIAL, changed)))
            == s.(buffer := [], crc := INITIAL)
  {
    var p, q := BitsOf(body), BitsOf(changed);
    assert BitCrc(INITIAL, p) != BitCrc(INITIAL, q) by {
      if Distance(p, q) % 2 == 1 {
        OddErrorChangesCrc(INITIAL, p, q);
      } else {
        if p == q { BitsOfInjective(body, changed); }
        var start: nat :| BurstAt(p, q, start);
        BurstChangesCrc(INITIAL, p, q, start);
      }
    }
    CrcIsBitwise(INITIAL, body);
    CrcIsBitwise(INITIAL, changed);
  }

  /** Changing one byte, or two adjacent ones, is such a change. */
  lemma AdjacentBytesDetectable(body: seq<bv8>, changed: seq<bv8>, i: nat)
    requires |body| == |changed| && body != changed
    requires forall k :: 0 <= k < |body| && k != i && k != i + 1 ==> body[k] == changed[k]
    ensures Detectable(body, changed)
  {
    AdjacentBytesAreBurst(body, changed, i);
  }
}
