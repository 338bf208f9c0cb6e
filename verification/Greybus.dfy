/** Greybus messages and their byte layout (include/greybus_messages.h, src/greybus_messages.c). */
module Greybus {
  const HEADER_SIZE := 8
  const RESPONSE: bv8 := 0x80

  /** uint16_t */
  type U16 = n: nat | n < 0x10000

  /** A message as allocated: the header fields and the payload. The two header pad bytes carry
      nothing and are left out. */
  datatype Message = Message(size: U16, operationId: U16, messageType: bv8, result: bv8, payload: seq<bv8>)
  {
    /** What gb_message_alloc establishes for payloads whose total size a uint16_t can hold. */
    predicate WellSized() {
      size == HEADER_SIZE + |payload|
    }

    /** gb_hdr_is_response */
    predicate IsResponse() { messageType & RESPONSE != 0 }
  }

  /** gb_message_alloc with the payload its callers copy in. The size field is a uint16_t. */
  function Alloc(payload: seq<bv8>, messageType: bv8, operationId: U16, result: bv8): (m: Message)
    ensures m.WellSized() <==> |payload| + HEADER_SIZE < 0x10000
  {
    Message((HEADER_SIZE + |payload|) % 0x10000, operationId, messageType, result, payload)
  }

  /** gb_message_response_alloc */
  function ResponseTo(request: Message, payload: seq<bv8>, status: bv8): Message {
    Alloc(payload, RESPONSE | request.messageType, request.operationId, status)
  }

  // ----- Operation ids

  const FIRST_OPERATION := 1
  const OPERATION_PERIOD := 0xffff

  /** new_operation_id: the value the counter has after one more id. */
  function AfterOperation(id: U16): U16 {
    if id == 0xffff then FIRST_OPERATION else id + 1
  }

  function NthOperation(n: nat): (id: U16)
    ensures id >= FIRST_OPERATION
  {
    FIRST_OPERATION + n % OPERATION_PERIOD
  }

  function OperationCounterAfter(n: nat): U16 {
    if n == 0 then FIRST_OPERATION else AfterOperation(OperationCounterAfter(n - 1))
  }

  lemma NextOperation(n: nat)
    ensures AfterOperation(NthOperation(n)) == NthOperation(n + 1)
  {
  }

  lemma OperationsDiffer(n: nat, m: nat)
    requires n < m < n + OPERATION_PERIOD
    ensures NthOperation(m) != NthOperation(n)
  {
  }

  /** The ids run through 1..65535 cyclically, so any 65535 consecutive ones are distinct. */
  lemma {:induction false} OperationIdsCyclic(n: nat)
    ensures OperationCounterAfter(n) == NthOperation(n)
    ensures forall m :: n < m < n + OPERATION_PERIOD ==> NthOperation(m) != NthOperation(n)
  {
    if n > 0 {
      OperationIdsCyclic(n - 1);
      NextOperation(n - 1);
    }
    forall m | n < m < n + OPERATION_PERIOD
      ensures NthOperation(m) != NthOperation(n)
    {
      OperationsDiffer(n, m);
    }
  }

  // ----- Byte layout

  function Le16(x: U16): (bytes: seq<bv8>)
    ensures |bytes| == 2
  {
    [(x % 0x100) as bv8, (x / 0x100) as bv8]
  }

  function FromLe16(low: bv8, high: bv8): U16 {
    low as int + 0x100 * (high as int)
  }

  lemma Successor(b: bv8)
    requires b != 0xff
    ensures (b + 1) as int == b as int + 1
  {
  }

  lemma {:induction false} ByteRoundTrip(n: nat)
    requires n < 0x100
    ensures (n as bv8) as int == n
  {
    if n > 0 {
      ByteRoundTrip(n - 1);
      var b := (n - 1) as bv8;
      Successor(b);
      assert ((b + 1) as int) as bv8 == b + 1;
    }
  }

  lemma Le16RoundTrip(x: U16)
    ensures FromLe16(Le16(x)[0], Le16(x)[1]) == x
  {
    ByteRoundTrip(x % 0x100);
    ByteRoundTrip(x / 0x100);
  }

  lemma FromLe16RoundTrip(low: bv8, high: bv8)
    ensures Le16(FromLe16(low, high)) == [low, high]
  {
    hide Le16, FromLe16;
    FromLe16Digits(low, high);
    Le16OfDigits(FromLe16(low, high), low, high);
  }

  lemma FromLe16Digits(low: bv8, high: bv8)
    ensures FromLe16(low, high) % 0x100 == low as int
    ensures FromLe16(low, high) / 0x100 == high as int
  {
    var l: nat, h: nat := low as int, high as int;
    Digits(l, h);
  }

  lemma Digits(low: nat, high: nat)
    requires low < 0x100 && high < 0x100
    ensures (low + 0x100 * high) % 0x100 == low && (low + 0x100 * high) / 0x100 == high
  {
  }

  lemma Le16OfDigits(x: U16, low: bv8, high: bv8)
    requires x % 0x100 == low as int && x / 0x100 == high as int
    ensures Le16(x) == [low, high]
  {
    assert (low as int) as bv8 == low;
    assert (high as int) as bv8 == high;
  }

  /** struct gb_operation_msg_hdr in memory and on the wire, with whatever its pad bytes hold. */
  function HeaderBytes(m: Message, pad: (bv8, bv8)): (bytes: seq<bv8>)
    ensures |bytes| == HEADER_SIZE
  {
    Le16(m.size) + Le16(m.operationId) + [m.messageType, m.result, pad.0, pad.1]
  }

  /** A message preceded by the cport it is for: the form shared by the HDLC and the TCP transport. */
  function Serialize(cport: U16, m: Message, pad: (bv8, bv8)): (bytes: seq<bv8>)
    ensures |bytes| == 2 + HEADER_SIZE + |m.payload|
  {
    Le16(cport) + HeaderBytes(m, pad) + m.payload
  }

  /** A message for a cport, with the contents of its header pad bytes. */
  datatype Outgoing = Outgoing(cport: U16, message: Message, pad: (bv8, bv8))

  /** The layout, byte by byte: numbers are little-endian. */
  lemma SerializeLayout(cport: U16, m: Message, pad: (bv8, bv8))
    ensures
      var bytes := Serialize(cport, m, pad);
      && |bytes| == 10 + |m.payload|
      && bytes[0] as int + 256 * (bytes[1] as int) == cport
      && bytes[2] as int + 256 * (bytes[3] as int) == m.size
      && bytes[4] as int + 256 * (bytes[5] as int) == m.operationId
      && bytes[6] == m.messageType && bytes[7] == m.result && bytes[10..] == m.payload
  {
    hide Le16;
    Le16RoundTrip(cport);
    Le16RoundTrip(m.size);
    Le16RoundTrip(m.operationId);
    var bytes := Serialize(cport, m, pad);
    assert bytes[0] == Le16(cport)[0] && bytes[1] == Le16(cport)[1];
    assert bytes[2] == Le16(m.size)[0] && bytes[3] == Le16(m.size)[1];
    assert bytes[4] == Le16(m.operationId)[0] && bytes[5] == Le16(m.operationId)[1];
  }

  // ----- Reading the fields back

  function CportOf(bytes: seq<bv8>): U16
    requires |bytes| >= 2
  {
    FromLe16(bytes[0], bytes[1])
  }

  function SizeOf(header: seq<bv8>): U16
    requires |header| >= HEADER_SIZE
  {
    FromLe16(header[0], header[1])
  }

  /** The message gb_message_alloc builds from a received header and the payload copied after it. */
  function FromHeader(header: seq<bv8>, payload: seq<bv8>): Message
    requires |header| >= HEADER_SIZE
  {
    Alloc(payload, header[4], FromLe16(header[2], header[3]), header[5])
  }

  lemma FromHeaderRoundTrip(m: Message, pad: (bv8, bv8))
    requires m.WellSized()
    ensures SizeOf(HeaderBytes(m, pad)) == m.size
    ensures FromHeader(HeaderBytes(m, pad), m.payload) == m
  {
    hide Le16, FromLe16;
    Le16RoundTrip(m.size);
    Le16RoundTrip(m.operationId);
  }

  /** What the front of a byte sequence holds: a whole message and what follows it, a header that
      claims less than its own size, or not enough bytes for the header or for the payload. */
  datatype Parsed = Whole(cport: U16, message: Message, rest: seq<bv8>) | BadSize | NoHeader | NoPayload

  function Parse(bytes: seq<bv8>): Parsed {
    if |bytes| < 2 + HEADER_SIZE then NoHeader
    else
      var header := bytes[2..2 + HEADER_SIZE];
      var size := SizeOf(header);
      if size < HEADER_SIZE then BadSize
      else if size > |bytes| - 2 then NoPayload
      else Whole(CportOf(bytes), FromHeader(header, bytes[2 + HEADER_SIZE..2 + size]), bytes[2 + size..])
  }

  /** Parsing inverts serialising, whatever follows. */
  lemma {:induction false} ParseSerialized(cport: U16, m: Message, pad: (bv8, bv8), rest: seq<bv8>)
    requires m.WellSized()
    ensures Parse(Serialize(cport, m, pad) + rest) == Whole(cport, m, rest)
  {
    hide Le16, FromLe16, Alloc, FromHeader, SizeOf;
    var bytes := Serialize(cport, m, pad) + rest;
    Le16RoundTrip(cport);
    FromHeaderRoundTrip(m, pad);
    assert bytes[2..2 + HEADER_SIZE] == HeaderBytes(m, pad);
    assert bytes[2 + HEADER_SIZE..2 + m.size] == m.payload;
  }

  /** The header pad bytes a parsed message carried. */
  function PadOf(bytes: seq<bv8>): (bv8, bv8)
    requires |bytes| >= 2 + HEADER_SIZE
  {
    (bytes[8], bytes[9])
  }

  lemma HeaderParsed(header: seq<bv8>, payload: seq<bv8>)
    requires |header| == HEADER_SIZE && SizeOf(header) == HEADER_SIZE + |payload|
    ensures
      var m := FromHeader(header, payload);
      m.WellSized() && m.size == SizeOf(header) && m.payload == payload
      && HeaderBytes(m, (header[6], header[7])) == header
  {
    hide Le16, FromLe16;
    FromLe16RoundTrip(header[0], header[1]);
    FromLe16RoundTrip(header[2], header[3]);
  }

  lemma SerializeParsed(bytes: seq<bv8>)
    requires Parse(bytes).Whole?
    ensures |bytes| >= 2 + HEADER_SIZE
    ensures
      var r := Parse(bytes);
      r.message.WellSized() && bytes == Serialize(r.cport, r.message, PadOf(bytes)) + r.rest
  {
    hide Le16, FromLe16, FromHeader, SizeOf, HeaderBytes;
    var r := Parse(bytes);
    var header := bytes[2..2 + HEADER_SIZE];
    FromLe16RoundTrip(bytes[0], bytes[1]);
    HeaderParsed(header, bytes[2 + HEADER_SIZE..2 + SizeOf(header)]);
    assert bytes == bytes[..2] + header + bytes[2 + HEADER_SIZE..2 + r.message.size] + bytes[2 + r.message.size..];
  }

  /** A message is parsed exactly when the bytes start with its serialised form. */
  lemma {:induction false} WholeIffSerialized(bytes: seq<bv8>, cport: U16, m: Message, rest: seq<bv8>)
    ensures Parse(bytes) == Whole(cport, m, rest)
            <==> m.WellSized() && exists pad :: bytes == Serialize(cport, m, pad) + rest
  {
    hide Parse, Serialize;
    if m.WellSized() && exists pad :: bytes == Serialize(cport, m, pad) + rest {
      var pad :| bytes == Serialize(cport, m, pad) + rest;
      ParseSerialized(cport, m, pad, rest);
    }
    if Parse(bytes) == Whole(cport, m, rest) {
      SerializeParsed(bytes);
    }
  }
}
