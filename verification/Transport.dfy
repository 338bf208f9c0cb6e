/** Greybus messages over a TCP byte stream (src/node.c). A plan of return values decides how much each
    socket call moves, so every fragmentation and every failure is covered. */
module Transport {
  import opened Greybus
  import opened Numbers

  /** The plan makes progress at every call and covers n bytes. */
  predicate Steady(plan: seq<int>, n: int) {
    |plan| >= n && forall i :: 0 <= i < |plan| ==> plan[i] > 0
  }

  lemma SteadyNext(plan: seq<int>, n: int, moved: nat)
    requires Steady(plan, n) && moved > 0 && plan != []
    ensures Steady(plan[1..], n - moved)
  {
  }

  /** How many socket calls reading n bytes may take when `available` are left before the peer has
      closed: the call that finds nothing counts too. */
  function Calls(n: nat, available: nat): (calls: nat)
    ensures calls <= n
  {
    if n <= available then n else available + 1
  }

  class Socket {
    var outgoing: seq<bv8>
    var incoming: seq<bv8>
    var sendPlan: seq<int>
    var recvPlan: seq<int>
    /** how often the removal of the node's module has been reported to the AP */
    var removals: nat

    /** zsock_send: at most the planned number of bytes, or the planned error. */
    method Send(data: seq<bv8>) returns (ret: int)
      modifies this`outgoing, this`sendPlan
      ensures old(sendPlan) == [] ==> ret < 0 && sendPlan == []
      ensures old(sendPlan) != [] ==>
        && sendPlan == old(sendPlan)[1..]
        && ret == if old(sendPlan)[0] < 0 then old(sendPlan)[0] else Min(old(sendPlan)[0], |data|)
      ensures outgoing == if ret < 0 then old(outgoing) else old(outgoing) + data[..ret]
    {
      if sendPlan == [] {
        return -1;
      }
      ret := sendPlan[0];
      sendPlan := sendPlan[1..];
      if ret >= 0 {
        ret := Min(ret, |data|);
        outgoing := outgoing + data[..ret];
      }
    }

    /** zsock_recv for at least one byte: 0 exactly when nothing is left, the peer having closed. */
    method Recv(len: nat) returns (ret: int, data: seq<bv8>)
      requires len > 0
      modifies this`incoming, this`recvPlan
      ensures old(recvPlan) == [] ==> ret < 0 && recvPlan == []
      ensures old(recvPlan) != [] ==>
        && recvPlan == old(recvPlan)[1..]
        && ret == if old(recvPlan)[0] < 0 then old(recvPlan)[0]
                  else Min(Min(Max(old(recvPlan)[0], 1), len), |old(incoming)|)
      ensures ret >= 0 ==> |data| == ret && old(incoming) == data + incoming
      ensures ret < 0 ==> incoming == old(incoming)
    {
      data := [];
      if recvPlan == [] {
        return -1, [];
      }
      ret := recvPlan[0];
      recvPlan := recvPlan[1..];
      if ret >= 0 {
        ret := Min(Min(Max(ret, 1), len), |incoming|);
        data := incoming[..ret];
        incoming := incoming[ret..];
      }
    }

    constructor (incoming: seq<bv8>, sendPlan: seq<int>, recvPlan: seq<int>)
      ensures this.outgoing == [] && this.incoming == incoming
      ensures this.sendPlan == sendPlan && this.recvPlan == recvPlan && this.removals == 0
    {
      this.outgoing := [];
      this.incoming := incoming;
      this.sendPlan, this.recvPlan := sendPlan, recvPlan;
      removals := 0;
    }

    // ----- Whole buffers

    /** write_data: all of the data or, on an error, some of it; never anything else. `more` is how
        much of a steady plan the caller still needs afterwards. */
    method WriteData(data: seq<bv8>, ghost more: nat) returns (ret: int)
      modifies this`outgoing, this`sendPlan
      ensures ret == |data| || ret < 0
      ensures ret >= 0 ==> outgoing == old(outgoing) + data
      ensures ret < 0 ==> SentPart(old(outgoing), data, outgoing)
      ensures Steady(old(sendPlan), |data| + more) ==> ret == |data| && Steady(sendPlan, more)
    {
      hide Steady;
      var transmitted := 0;
      while transmitted < |data|
        invariant 0 <= transmitted <= |data|
        invariant outgoing == old(outgoing) + data[..transmitted]
        invariant Steady(old(sendPlan), |data| + more) ==> Steady(sendPlan, |data| + more - transmitted)
        decreases |sendPlan|
      {
        ghost var plan := sendPlan;
        ghost var steady := Steady(plan, |data| + more - transmitted);
        assert steady ==> plan != [] && plan[0] > 0 by { SteadyBegins(plan, |data| + more - transmitted); }
        ret := Send(data[transmitted..]);
        if ret < 0 {
          return;
        }
        if steady {
          SteadyNext(plan, |data| + more - transmitted, ret);
        }
        assert data[..transmitted] + data[transmitted..][..ret] == data[..transmitted + ret];
        transmitted := transmitted + ret;
      }
      assert data[..transmitted] == data;
      return transmitted;
    }

    /** read_data: the next bytes of the stream, exactly as many as asked for, or an error; 0 for fewer
        bytes than asked for exactly when the stream ends before them. */
    method ReadData(buffer: array<bv8>, ghost more: nat) returns (ret: int)
      modifies this`incoming, this`recvPlan, buffer
      ensures ret == buffer.Length || ret <= 0
      ensures ret == buffer.Length ==> old(incoming) == buffer[..] + incoming
      ensures ret == 0 && buffer.Length > 0 ==> incoming == [] && |old(incoming)| < buffer.Length
      ensures RestOf(old(incoming), incoming)
      ensures Steady(old(recvPlan), Calls(buffer.Length, |old(incoming)|) + more) ==>
        ret >= 0 && (ret == buffer.Length ==> Steady(recvPlan, more))
    {
      hide Steady;
      var received := 0;
      ghost var calls := Calls(buffer.Length, |incoming|) + more;
      while received < buffer.Length
        invariant 0 <= received <= buffer.Length
        invariant |old(incoming)| == received + |incoming|
        invariant old(incoming)[..received] == buffer[..received] && old(incoming)[received..] == incoming
        invariant Steady(old(recvPlan), calls) ==> Steady(recvPlan, calls - received)
        decreases |recvPlan|
      {
        ghost var had, rest, plan := buffer[..received], incoming, recvPlan;
        ghost var steady := Steady(plan, calls - received);
        assert steady ==> plan != [] && plan[0] > 0 by { SteadyBegins(plan, calls - received); }
        var data;
        ret, data := Recv(buffer.Length - received);
        if ret <= 0 {
          assert incoming == old(incoming)[received..];
          return;
        }
        if steady {
          SteadyNext(plan, calls - received, ret);
        }
        forall i | 0 <= i < ret { buffer[received + i] := data[i]; }
        assert buffer[..received + ret] == had + data;
        Consumed(old(incoming), received, data, incoming);
        received := received + ret;
      }
      assert incoming == old(incoming)[received..];
      assert old(incoming) == old(incoming)[..received] + old(incoming)[received..];
      return received;
    }

    /** read_data into a local of n bytes */
    method ReadBytes(n: nat, ghost more: nat) returns (ret: int, bytes: seq<bv8>)
      modifies this`incoming, this`recvPlan
      ensures ret == n || ret <= 0
      ensures ret == n ==> |bytes| == n && old(incoming) == bytes + incoming
      ensures ret == 0 && n > 0 ==> incoming == [] && |old(incoming)| < n
      ensures RestOf(old(incoming), incoming)
      ensures Steady(old(recvPlan), Calls(n, |old(incoming)|) + more) ==>
        ret >= 0 && (ret == n ==> Steady(recvPlan, more))
    {
      hide Steady, RestOf, Calls;
      var buffer := new bv8[n](_ => 0);
      ret := ReadData(buffer, more);
      bytes := buffer[..];
    }

    // ----- Messages

    /** gb_message_send: cport, header and payload, in that order; when that fails, the removal of the
        module is reported, if the cache knows the socket. */
    method MessageSend(cport: U16, m: Message, pad: (bv8, bv8), cached: bool, ghost more: nat) returns (ret: int)
      requires m.WellSized()
      modifies this`outgoing, this`sendPlan, this`removals
      ensures ret <= 0
      ensures ret == 0 ==> outgoing == old(outgoing) + Serialize(cport, m, pad) && removals == old(removals)
      ensures ret < 0 ==> SentPart(old(outgoing), Serialize(cport, m, pad), outgoing)
      ensures ret < 0 ==> removals == old(removals) + if cached then 1 else 0
      ensures Steady(old(sendPlan), 2 + m.size + more) ==> ret == 0 && Steady(sendPlan, more)
    {
      ret := WriteMessage(cport, m, pad, more);
      if ret < 0 && cached {
        removals := removals + 1;
      }
    }

    /** The three writes of gb_message_send */
    method WriteMessage(cport: U16, m: Message, pad: (bv8, bv8), ghost more: nat) returns (ret: int)
      requires m.WellSized()
      modifies this`outgoing, this`sendPlan
      ensures ret <= 0
      ensures ret == 0 ==> outgoing == old(outgoing) + Serialize(cport, m, pad)
      ensures ret < 0 ==> SentPart(old(outgoing), Serialize(cport, m, pad), outgoing)
      ensures Steady(old(sendPlan), 2 + m.size + more) ==> ret == 0 && Steady(sendPlan, more)
    {
      hide Le16, Steady;
      ghost var start := outgoing;
      var first, header := Le16(cport), HeaderBytes(m, pad);
      ret := WriteData(first, m.size + more);
      if ret != 2 {
        PartlySent(start, [], first, header + m.payload, outgoing);
        assert [] + first + (header + m.payload) == Serialize(cport, m, pad);
        return;
      }
      ret := WriteData(header, |m.payload| + more);
      if ret != HEADER_SIZE {
        PartlySent(start, first, header, m.payload, outgoing);
        return;
      }
      ret := WriteData(m.payload, more);
      if ret != m.size - HEADER_SIZE {
        assert start + first + header == start + (first + header);
        PartlySent(start, first + header, m.payload, [], outgoing);
        assert first + header + m.payload + [] == Serialize(cport, m, pad);
        return;
      }
      assert start + first + header + m.payload == start + Serialize(cport, m, pad);
      return 0;
    }

    /** node_inf_write reports the removal too, so a failed write to a cached node reports it twice. */
    method InfWrite(cport: U16, m: Message, pad: (bv8, bv8), cached: bool) returns (ret: int)
      requires m.WellSized()
      modifies this`outgoing, this`sendPlan, this`removals
      ensures ret == 0 ==> outgoing == old(outgoing) + Serialize(cport, m, pad) && removals == old(removals)
      ensures ret < 0 ==> SentPart(old(outgoing), Serialize(cport, m, pad), outgoing)
      ensures ret != 0 ==> ret < 0 && removals == old(removals) + if cached then 2 else 1
    {
      ret := MessageSend(cport, m, pad, cached, 0);
      if ret < 0 {
        removals := removals + 1;
      }
    }

    /** gb_message_receive. A message that comes out is the one at the front of the stream, and exactly
        its bytes are gone. The peer is taken to have closed only at the end of a stream that stops
        inside a message. And while the socket keeps delivering, the outcome is the one due. */
    method MessageReceive(heapHasRoom: bool, ghost more: nat) returns (r: Reception)
      modifies this`incoming, this`recvPlan
      ensures r.Received? ==> Parse(old(incoming)) == Whole(r.cport, r.message, incoming)
      ensures r.OutsideContract? ==> Parse(old(incoming)).BadSize?
      ensures r.NoRoom? ==> !heapHasRoom && (Parse(old(incoming)).Whole? || Parse(old(incoming)).NoPayload?)
      ensures r == Broken(true) ==>
        incoming == [] && (Parse(old(incoming)).NoHeader? || Parse(old(incoming)).NoPayload?)
      ensures RestOf(old(incoming), incoming)
      ensures Steady(old(recvPlan), CallsFor(old(incoming)) + more) ==>
        r == Due(Parse(old(incoming)), heapHasRoom) && (r.Received? ==> Steady(recvPlan, more))
    {
      hide Steady, Parse, FromHeader, SizeOf, CportOf, CallsFor, RestOf, Due;
      ghost var stream := incoming;
      ghost var calls := CallsFor(stream) + more;
      CallsSplit(stream);
      var ret, first := ReadBytes(2, calls - Calls(2, |stream|));
      if ret != 2 {
        StreamEnds(stream, heapHasRoom);
        return Broken(ret == 0);
      }
      ghost var afterFirst := incoming;
      var header;
      ret, header := ReadBytes(HEADER_SIZE, calls - 2 - Calls(HEADER_SIZE, |afterFirst|));
      if ret != HEADER_SIZE {
        StreamEnds(stream, heapHasRoom);
        RestOfRest(stream, first, afterFirst, incoming);
        return Broken(ret == 0);
      }
      ghost var afterHeader := incoming;
      assert stream == first + (header + afterHeader);
      FrontOf(stream, first, header, afterHeader, heapHasRoom);
      RestAfter(stream, first + header, afterHeader);
      if SizeOf(header) < HEADER_SIZE {
        return OutsideContract;
      }
      if !heapHasRoom {
        return NoRoom;
      }
      var payload;
      ret, payload := ReadBytes(SizeOf(header) - HEADER_SIZE, more);
      if ret != SizeOf(header) - HEADER_SIZE {
        RestOfRest(stream, first + header, afterHeader, incoming);
        return Broken(ret == 0);
      }
      WholeFrom(stream, first, header, payload, incoming);
      RestAfter(stream, first + header + payload, incoming);
      return Received(CportOf(first), FromHeader(header, payload));
    }
  }

  // ----- What is due

  /** What comes out of gb_message_receive. A header that claims less than its own size is outside the
      contract of the C code. */
  datatype Reception = Received(cport: U16, message: Message) | Broken(closed: bool) | NoRoom | OutsideContract

  /** What should come out of a stream that is delivered to its end. */
  function Due(parsed: Parsed, heapHasRoom: bool): Reception {
    match parsed
    case Whole(cport, message, _) => if heapHasRoom then Received(cport, message) else NoRoom
    case NoHeader => Broken(true)
    case NoPayload => if heapHasRoom then Broken(true) else NoRoom
    case BadSize => OutsideContract
  }

  /** How many socket calls receiving the first message may take. */
  function CallsFor(stream: seq<bv8>): nat {
    var p := Parse(stream);
    if p.Whole? then 2 + p.message.size else |stream| + 1
  }

  lemma CallsSplit(stream: seq<bv8>)
    ensures CallsFor(stream) >= Calls(2, |stream|)
    ensures |stream| >= 2 ==> CallsFor(stream) >= 2 + Calls(HEADER_SIZE, |stream| - 2)
    ensures |stream| < 2 + HEADER_SIZE ==> Parse(stream).NoHeader? && CallsFor(stream) == |stream| + 1
  {
    hide FromHeader;
    ParsedSize(stream);
  }

  lemma ParsedSize(stream: seq<bv8>)
    ensures Parse(stream).Whole? ==> HEADER_SIZE <= Parse(stream).message.size <= |stream| - 2
  {
    if Parse(stream).Whole? {
      hide Parse, Serialize;
      SerializeParsed(stream);
    }
  }

  // ----- Sequences of messages

  function WireAll(out: seq<Outgoing>): seq<bv8> {
    if out == [] then [] else Serialize(out[0].cport, out[0].message, out[0].pad) + WireAll(out[1..])
  }

  function AsReceived(out: seq<Outgoing>): seq<Reception> {
    if out == [] then [] else [Received(out[0].cport, out[0].message)] + AsReceived(out[1..])
  }

  /** Repeated gb_message_send. */
  method SendAll(socket: Socket, out: seq<Outgoing>)
    requires forall o :: o in out ==> o.message.WellSized()
    requires Steady(socket.sendPlan, |WireAll(out)|)
    modifies socket`outgoing, socket`sendPlan, socket`removals
    ensures socket.outgoing == old(socket.outgoing) + WireAll(out) && socket.removals == old(socket.removals)
  {
    hide Steady, Serialize;
    var i := 0;
    ghost var start := socket.outgoing;
    assert out[0..] == out && start + WireAll(out) == socket.outgoing + WireAll(out);
    while i < |out|
      invariant 0 <= i <= |out|
      invariant start + WireAll(out) == socket.outgoing + WireAll(out[i..])
      invariant socket.removals == old(socket.removals)
      invariant Steady(socket.sendPlan, |WireAll(out[i..])|)
    {
      var o := out[i];
      assert out[i..][0] == o && out[i..][1..] == out[i + 1..];
      var ret := socket.MessageSend(o.cport, o.message, o.pad, true, |WireAll(out[i + 1..])|);
      i := i + 1;
    }
    assert out[i..] == [];
  }

  /** TCP framing: repeated gb_message_receive on the bytes of repeated gb_message_send gives back the
      same messages in order and consumes exactly their bytes, however either side is fragmented. */
  method ReceiveAll(socket: Socket, ghost out: seq<Outgoing>, ghost after: seq<bv8>, n: nat)
    returns (log: seq<Reception>)
    requires n == |out| && forall o :: o in out ==> o.message.WellSized()
    requires socket.incoming == WireAll(out) + after
    requires Steady(socket.recvPlan, |WireAll(out)|)
    modifies socket`incoming, socket`recvPlan
    ensures log == AsReceived(out)
    ensures socket.incoming == after
  {
    hide Steady, Serialize, Parse;
    log := [];
    var i := 0;
    assert out[0..] == out;
    while i < n
      invariant 0 <= i <= n
      invariant log + AsReceived(out[i..]) == AsReceived(out)
      invariant socket.incoming == WireAll(out[i..]) + after
      invariant Steady(socket.recvPlan, |WireAll(out[i..])|)
    {
      ghost var o := out[i];
      ghost var rest := WireAll(out[i + 1..]);
      assert out[i..][0] == o && out[i..][1..] == out[i + 1..];
      ParseSerialized(o.cport, o.message, o.pad, rest + after);
      assert socket.incoming == Serialize(o.cport, o.message, o.pad) + (rest + after);
      var r := socket.MessageReceive(true, |rest|);
      assert log + ([r] + AsReceived(out[i + 1..])) == log + [r] + AsReceived(out[i + 1..]);
      log := log + [r];
      i := i + 1;
    }
    assert out[i..] == [] && WireAll([]) + after == after;
  }

  /** What is left of a stream after some bytes have been read. */
  ghost predicate RestOf(stream: seq<bv8>, now: seq<bv8>) {
    exists k :: 0 <= k <= |stream| && now == stream[k..]
  }

  lemma RestOfRest(stream: seq<bv8>, front: seq<bv8>, after: seq<bv8>, now: seq<bv8>)
    requires stream == front + after && RestOf(after, now)
    ensures RestOf(stream, now)
  {
    var k :| 0 <= k <= |after| && now == after[k..];
    assert now == stream[|front| + k..];
  }

  lemma RestAfter(stream: seq<bv8>, front: seq<bv8>, now: seq<bv8>)
    requires stream == front + now
    ensures RestOf(stream, now)
  {
    assert now == stream[|front|..];
  }

  /** A stream that stops before the end of the header. */
  lemma StreamEnds(stream: seq<bv8>, heapHasRoom: bool)
    ensures |stream| < 2 + HEADER_SIZE ==> Parse(stream).NoHeader? && Due(Parse(stream), heapHasRoom) == Broken(true)
  {
  }

  /** What the header says about the stream it was read from. */
  lemma FrontOf(stream: seq<bv8>, first: seq<bv8>, header: seq<bv8>, rest: seq<bv8>, heapHasRoom: bool)
    requires |first| == 2 && |header| == HEADER_SIZE && stream == first + (header + rest)
    ensures
      var size := SizeOf(header);
      var p := Parse(stream);
      && (size < HEADER_SIZE ==> p.BadSize? && Due(p, heapHasRoom) == OutsideContract)
      && (size > |rest| + HEADER_SIZE ==>
            p.NoPayload? && Due(p, heapHasRoom) == if heapHasRoom then Broken(true) else NoRoom)
      && (HEADER_SIZE <= size <= |rest| + HEADER_SIZE ==> p.Whole? && (!heapHasRoom ==> Due(p, heapHasRoom) == NoRoom))
      && (size >= HEADER_SIZE ==> CallsFor(stream) == 2 + HEADER_SIZE + Calls(size - HEADER_SIZE, |rest|))
  {
    hide SizeOf, FromHeader, CportOf;
    assert stream[2..2 + HEADER_SIZE] == header;
    ParsedAsClaimed(stream);
  }

  lemma ParsedAsClaimed(stream: seq<bv8>)
    ensures Parse(stream).Whole? ==> Parse(stream).message.size == SizeOf(stream[2..2 + HEADER_SIZE])
  {
    hide SizeOf, CportOf;
    if Parse(stream).Whole? {
      var header := stream[2..2 + HEADER_SIZE];
      HeaderParsed(header, stream[2 + HEADER_SIZE..2 + SizeOf(header)]);
    }
  }

  lemma WholeFrom(stream: seq<bv8>, first: seq<bv8>, header: seq<bv8>, payload: seq<bv8>, rest: seq<bv8>)
    requires |first| == 2 && |header| == HEADER_SIZE
    requires stream == first + (header + (payload + rest)) && SizeOf(header) == HEADER_SIZE + |payload|
    ensures Parse(stream) == Whole(CportOf(first), FromHeader(header, payload), rest)
    ensures Due(Parse(stream), true) == Received(CportOf(first), FromHeader(header, payload))
  {
    hide SizeOf, FromHeader;
    var size := HEADER_SIZE + |payload|;
    assert stream[2..2 + HEADER_SIZE] == header;
    assert stream[2 + HEADER_SIZE..2 + size] == payload;
    assert stream[2 + size..] == rest;
    assert stream[0] == first[0] && stream[1] == first[1];
  }

  /** Some of the bytes of `wire` have gone out after `start`. */
  ghost predicate SentPart(start: seq<bv8>, wire: seq<bv8>, now: seq<bv8>) {
    exists k :: 0 <= k <= |wire| && now == start + wire[..k]
  }

  lemma SteadyBegins(plan: seq<int>, n: int)
    ensures Steady(plan, n) && n > 0 ==> plan != [] && plan[0] > 0
  {
  }

  lemma Consumed(stream: seq<bv8>, k: nat, data: seq<bv8>, rest: seq<bv8>)
    requires k <= |stream| && stream[k..] == data + rest
    ensures k + |data| <= |stream|
    ensures stream[..k + |data|] == stream[..k] + data && stream[k + |data|..] == rest
  {
    assert stream == stream[..k] + data + rest;
  }

  lemma PartlySent(start: seq<bv8>, before: seq<bv8>, piece: seq<bv8>, after: seq<bv8>, now: seq<bv8>)
    requires SentPart(start + before, piece, now)
    ensures SentPart(start, before + piece + after, now)
  {
    var k :| 0 <= k <= |piece| && now == start + before + piece[..k];
    var wire := before + piece + after;
    assert wire[..|before| + k] == before + piece[..k];
    assert now == start + wire[..|before| + k];
  }
}
