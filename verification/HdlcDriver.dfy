/** struct hdlc_driver and the functions of src/hdlc.c that update it, byte by byte and in place.
    The UART is an ordered byte sequence; the frame callback is a log of its calls. */
module HdlcDriver {
  import opened Crc16
  import opened Hdlc
  import opened Sequences

  /** The control byte that goes out: a zero argument stands for twice the send sequence number. */
  function ControlByte(control: bv8, sendSeq: bv8): (byte: bv8)
    ensures control != 0 ==> byte == control
    ensures control == 0 ==> byte == sendSeq + sendSeq
  {
    if control == 0 then sendSeq << 1 else control
  }

  class Driver {
    var crc: bv16
    var nextEscaped: bool
    var rxSendSeq: bv8
    var sendSeq: bv8
    var rxBufferLen: nat
    const rxBuffer: array<bv8>
    var delivered: seq<Delivery>
    var wire: seq<bv8>

    ghost predicate Valid()
      reads this, rxBuffer
    {
      1 <= rxBuffer.Length < 0x10000 && rxBufferLen <= rxBuffer.Length
    }

    ghost function Max(): BlockSize
      reads this, rxBuffer
      requires Valid()
    {
      rxBuffer.Length
    }

    ghost function State(): Receiver
      reads this, rxBuffer
      requires Valid()
    {
      Receiver(crc, nextEscaped, rxSendSeq, rxBuffer[..rxBufferLen], delivered)
    }

    /** hdlc_init, with a receive buffer of HDLC_MAX_BLOCK_SIZE bytes. */
    constructor (max: BlockSize)
      ensures Valid() && Max() == max && fresh(rxBuffer)
      ensures State() == INITIAL_RECEIVER
      ensures wire == [] && sendSeq == 0
    {
      crc := INITIAL;
      sendSeq := 0;
      rxSendSeq := 0;
      nextEscaped := false;
      rxBufferLen := 0;
      rxBuffer := new bv8[max](_ => 0);
      delivered := [];
      wire := [];
    }

    // ----- Sending

    method UartPollOutCrc(byte: bv8, crc: bv16) returns (next: bv16)
      modifies this`wire
      ensures wire == old(wire) + Stuff(byte)
      ensures next == Step(crc, byte)
    {
      hide Step;
      next := Step(crc, byte);
      var out := byte;
      if byte == FLAG || byte == ESCAPE {
        wire := wire + [ESCAPE];
        out := byte ^ FLIP;
      }
      wire := wire + [out];
    }

    /** hdlc_block_send_sync */
    method BlockSendSync(buffer: seq<bv8>, address: bv8, control: bv8)
      modifies this`wire
      ensures wire == old(wire) + Frame(address, ControlByte(control, old(sendSeq)), buffer).Wire()
    {
      hide Step, Stuff, StuffAll, Low, High, Crc, WithFcs, ControlByte, Frame.Wire, Inverted;
      var second := ControlByte(control, sendSeq);
      ghost var before := wire + [FLAG];
      ghost var sent: seq<bv8> := [];
      var runningCrc := INITIAL;
      wire := wire + [FLAG];
      NothingSent(before);

      runningCrc := UartPollOutCrc(address, runningCrc);
      sent := SendOneMore(before, sent, address);
      runningCrc := UartPollOutCrc(second, runningCrc);
      sent := SendOneMore(before, sent, second);

      var i := 0;
      while i < |buffer|
        invariant 0 <= i <= |buffer|
        invariant sent == [address, second] + buffer[..i]
        invariant runningCrc == Crc(INITIAL, sent)
        invariant wire == before + StuffAll(sent)
      {
        runningCrc := UartPollOutCrc(buffer[i], runningCrc);
        sent := SendOneMore(before, sent, buffer[i]);
        i := i + 1;
      }
      assert sent == [address, second] + buffer;

      var fcs := Inverted(runningCrc);
      runningCrc := UartPollOutCrc(Low(fcs), runningCrc);
      runningCrc := UartPollOutCrc(High(fcs), runningCrc);
      assert wire == before + StuffAll(WithFcs(sent)) by { SendFcs(before, sent); }
      wire := wire + [FLAG];
      FrameSent(old(wire), Frame(address, second, buffer));
    }

    // ----- Receiving

    method ProcessCompleteFrame()
      requires Valid() && rxBufferLen > 3
      modifies this`delivered
      ensures delivered == old(delivered) + [Delivery(rxBuffer[0], rxBuffer[2..rxBufferLen - 2])]
    {
      var address := rxBuffer[0];
      var len := rxBufferLen - 4;
      delivered := delivered + [Delivery(address, rxBuffer[2..2 + len])];
    }

    method ProcessFrame()
      requires Valid()
      modifies this`crc, this`rxBufferLen, this`rxSendSeq, this`delivered
      ensures Valid() && State() == Hdlc.ProcessFrame(old(State()))
    {
      if rxBufferLen > 3 && crc == 0xf0b8 {
        var ctrl := rxBuffer[1];
        if ctrl & 1 == 0 {
          rxSendSeq := (ctrl >> 5) & 0x07;
        } else {
          ProcessCompleteFrame();
          assert rxBuffer[..rxBufferLen][2..rxBufferLen - 2] == rxBuffer[2..rxBufferLen - 2];
        }
      }
      crc := 0xffff;
      rxBufferLen := 0;
    }

    method SaveByte(byte: bv8)
      requires Valid()
      modifies this`crc, this`rxBufferLen, rxBuffer
      ensures Valid() && State() == Hdlc.SaveByte(Max(), old(State()), byte)
    {
      if rxBufferLen >= rxBuffer.Length {
        crc := 0xffff;
        rxBufferLen := 0;
      }
      rxBuffer[rxBufferLen] := byte;
      rxBufferLen := rxBufferLen + 1;
    }

    method RxInputByte(byte: bv8)
      requires Valid()
      modifies this`crc, this`nextEscaped, this`rxBufferLen, this`rxSendSeq, this`delivered, rxBuffer
      ensures Valid() && State() == InputByte(Max(), old(State()), byte)
    {
      hide Step;
      if byte == 0x7e {
        if rxBufferLen != 0 {
          ProcessFrame();
        }
      } else if byte == 0x7d {
        nextEscaped := true;
      } else {
        var data := byte;
        if nextEscaped {
          data := byte ^ 0x20;
          nextEscaped := false;
        }
        crc := Step(crc, data);
        SaveByte(data);
      }
    }

    method ProcessBuffer(buf: seq<bv8>) returns (processed: nat)
      requires Valid()
      modifies this`crc, this`nextEscaped, this`rxBufferLen, this`rxSendSeq, this`delivered, rxBuffer
      ensures Valid() && State() == Receive(Max(), old(State()), buf)
      ensures processed == |buf|
    {
      hide InputByte;
      var i := 0;
      while i < |buf|
        invariant 0 <= i <= |buf| && Valid()
        invariant State() == Receive(Max(), old(State()), buf[..i])
      {
        ReceiveSnoc(Max(), old(State()), buf[..i], buf[i]);
        assert buf[..i + 1] == buf[..i] + [buf[i]];
        RxInputByte(buf[i]);
        i := i + 1;
      }
      assert buf[..i] == buf;
      processed := |buf|;
    }
  }

  lemma NothingSent(before: seq<bv8>)
    ensures before == before + StuffAll([])
    ensures Crc(INITIAL, []) == INITIAL
  {
  }

  lemma SendOneMore(before: seq<bv8>, sent: seq<bv8>, b: bv8) returns (more: seq<bv8>)
    ensures more == sent + [b]
    ensures before + StuffAll(sent) + Stuff(b) == before + StuffAll(more)
    ensures Step(Crc(INITIAL, sent), b) == Crc(INITIAL, more)
  {
    hide Step, Stuff;
    more := sent + [b];
    StuffSnoc(sent, b);
    CrcSnoc(INITIAL, sent, b);
    Associative(before, StuffAll(sent), Stuff(b));
  }

  lemma SendFcs(before: seq<bv8>, sent: seq<bv8>)
    ensures
      var fcs := Inverted(Crc(INITIAL, sent));
      before + StuffAll(sent) + Stuff(Low(fcs)) + Stuff(High(fcs)) == before + StuffAll(WithFcs(sent))
  {
    hide Step, Stuff, StuffAll, Low, High, Crc, Inverted;
    var fcs := Inverted(Crc(INITIAL, sent));
    var one := SendOneMore(before, sent, Low(fcs));
    var two := SendOneMore(before, one, High(fcs));
    assert two == WithFcs(sent);
  }

  lemma FrameSent(before: seq<bv8>, f: Frame)
    ensures before + [FLAG] + StuffAll(f.Body()) + [FLAG] == before + f.Wire()
  {
  }
}
