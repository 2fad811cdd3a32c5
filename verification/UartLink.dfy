/**
 * The three imperative ends of a link: the byte writer that both boards share in form
 * (`write_byte`/`uart_send_L0` on the gateway, `gw_write_frame_byte` and the framing loop on
 * the modem), and the two receivers.
 */
module UartLink {
  import opened Bytes
  import opened Options
  import opened Framing

  /** A transmit line; `sent` is everything written to it. */
  class Transmitter {
    var sent: seq<byte>

    constructor ()
      ensures sent == []
    {
      sent := [];
    }

    method Write(c: byte)
      modifies this
      ensures sent == old(sent) + [c]
    {
      sent := sent + [c];
    }

    method WriteByte(c: byte)
      modifies this
      ensures sent == old(sent) + Escape(c)
    {
      if c == STX || c == ETX || c == DLE {
        Write(DLE);
      }
      Write(c);
    }

    /** `uart_send_L0` */
    method SendFrame(data: seq<byte>)
      modifies this
      ensures sent == old(sent) + Encode(data)
    {
      Write(STX);
      for i := 0 to |data|
        invariant sent == old(sent) + [STX] + Body(data[..i])
      {
        BodyAppend(data[..i], data[i]);
        assert data[..i + 1] == data[..i] + [data[i]];
        WriteByte(data[i]);
      }
      assert data[..|data|] == data;
      Write(ETX);
    }

    /** The downlink half of `gw_lte_tx_thread`: as many bytes of the queued buffer as its IP header says. */
    method SendQueued(txb: array<byte>)
      requires txb.Length >= 4 && Be16(txb[..], 2) <= txb.Length
      modifies this
      ensures sent == old(sent) + Encode(txb[..Be16(txb[..], 2)])
    {
      var size := 0x100 * txb[2] as int + txb[3] as int;
      Write(STX);
      for i := 0 to size
        invariant sent == old(sent) + [STX] + Body(txb[..i])
      {
        BodyAppend(txb[..i], txb[i]);
        assert txb[..i + 1] == txb[..i] + [txb[i]];
        WriteByte(txb[i]);
      }
      Write(ETX);
    }
  }

  const MAX_RX_DATA_L1_LENGTH := 1295
  const GW_MAX_PACKET_SIZE := 2048

  /** `operate_gw_uart_rx`: one UART's static receive state on the gateway. */
  class GatewayReceiver {
    var inFrame: bool
    var inEscape: bool
    var index: nat
    const buffer: array<byte>

    ghost predicate Valid()
      reads this
    {
      buffer.Length == MAX_RX_DATA_L1_LENGTH &&
      (inEscape ==> inFrame) &&
      (inFrame ==> index < MAX_RX_DATA_L1_LENGTH)
    }

    ghost function State(): Receiver
      reads this, buffer
      requires Valid()
    {
      if inFrame then InFrame(buffer[..index], inEscape) else Idle
    }

    constructor ()
      ensures Valid() && State() == Idle && fresh(buffer)
    {
      inFrame, inEscape, index := false, false, 0;
      buffer := new byte[MAX_RX_DATA_L1_LENGTH](_ => 0);
    }

    /**
     * One turn of the receive loop. The test for a full buffer at ETX is dead: see the assertion. `discard`
     * says that the loop has called `SerialDiscard`.
     */
    method Read(c: byte) returns (frame: Option<seq<byte>>, discard: bool)
      requires Valid()
      modifies this, buffer
      ensures Valid()
      ensures (State(), frame) == Step(Bounded(MAX_RX_DATA_L1_LENGTH), old(State()), c)
      ensures discard <==> Overflows(MAX_RX_DATA_L1_LENGTH, old(State()), c)
    {
      frame, discard := None, false;
      if !inFrame {
        if c == STX {
          index, inFrame := 0, true;
        }
        return;
      } else if inEscape {
        inEscape := false;
        if !(c == STX || c == ETX || c == DLE) {
          inFrame := false;
          return;
        }
      } else {
        if c == STX {
          inFrame := false;
          return;
        } else if c == ETX {
          inFrame := false;
          assert index < MAX_RX_DATA_L1_LENGTH;
        } else if c == DLE {
          inEscape := true;
          return;
        }
      }
      if inFrame {
        buffer[index] := c;
        index := index + 1;
        assert buffer[..index] == old(buffer[..index]) + [c];
        if index >= MAX_RX_DATA_L1_LENGTH {
          inEscape, inFrame := false, false;
          discard := true;
        }
      } else {
        frame := Some(buffer[..index]);
        inEscape, inFrame, index := false, false, 0;
      }
    }

    /** The loop over what arrives; at each discard the next number of `drops` says how many bytes are pending. */
    method Receive(stream: seq<byte>, drops: seq<nat>) returns (frames: seq<seq<byte>>)
      requires Valid()
      modifies this, buffer
      ensures Valid()
      ensures (State(), frames) == RunDropping(MAX_RX_DATA_L1_LENGTH, old(State()), stream, drops)
    {
      frames := [];
      var rest: seq<byte>, pending: seq<nat> := stream, drops;
      assert forall fs: seq<seq<byte>> :: [] + fs == fs;
      while rest != []
        invariant Valid()
        invariant var (r, fs) := RunDropping(MAX_RX_DATA_L1_LENGTH, State(), rest, pending);
                  RunDropping(MAX_RX_DATA_L1_LENGTH, old(State()), stream, drops) == (r, frames + fs)
        decreases |rest|
      {
        ghost var before := State();
        ghost var skipped := Dropped(MAX_RX_DATA_L1_LENGTH, before, rest, pending);
        var c := rest[0];
        var frame, discard := Read(c);
        rest := rest[1..];
        var drop := 0;
        if discard && pending != [] {
          drop := if pending[0] < |rest| then pending[0] else |rest|;
          pending := pending[1..];
        }
        assert drop == skipped;
        rest := rest[drop..];
        Reassociate(frames, Emit(frame), RunDropping(MAX_RX_DATA_L1_LENGTH, State(), rest, pending).1);
        frames := frames + Emit(frame);
      }
      assert frames + [] == frames;
    }
  }

  /** `gw_uart_serial_cb`: the modem's receive state. There is no test for a full buffer. */
  class ModemReceiver {
    var inFrame: bool
    var inEscape: bool
    var size: nat
    const packet: array<byte>

    ghost predicate Valid()
      reads this
    {
      packet.Length == GW_MAX_PACKET_SIZE &&
      (inEscape ==> inFrame) &&
      (inFrame ==> size <= GW_MAX_PACKET_SIZE)
    }

    ghost function State(): Receiver
      reads this, packet
      requires Valid()
    {
      if inFrame then InFrame(packet[..size], inEscape) else Idle
    }

    constructor ()
      ensures Valid() && State() == Idle && fresh(packet)
    {
      inFrame, inEscape, size := false, false, 0;
      packet := new byte[GW_MAX_PACKET_SIZE](_ => 0);
    }

    /**
     * One turn of the interrupt loop up to the end of a frame. The caller of `Read` answers for
     * the room in the buffer, because the code does not.
     */
    method Read(c: byte) returns (frame: Option<seq<byte>>)
      requires Valid()
      requires Fits(GW_MAX_PACKET_SIZE, State(), [c])
      modifies this, packet
      ensures Valid()
      ensures (State(), frame) == Step(Unbounded, old(State()), c)
    {
      assert Fits(GW_MAX_PACKET_SIZE, Step(Unbounded, State(), c).0, []) by {
        assert [c][1..] == [];
      }
      frame := None;
      if !inFrame {
        if c == STX {
          size, inFrame := 0, true;
        }
        return;
      }
      if inEscape {
        inEscape := false;
        if !(c == STX || c == ETX || c == DLE) {
          inFrame := false;
          return;
        }
      } else {
        if c == STX {
          inFrame := false;
          return;
        } else if c == ETX {
          inFrame := false;
        } else if c == DLE {
          inEscape := true;
          return;
        }
      }
      if !inFrame && c == ETX {
        frame := Some(packet[..size]);
      } else {
        packet[size] := c;
        size := size + 1;
        assert packet[..size] == old(packet[..size]) + [c];
      }
    }

    method Receive(stream: seq<byte>) returns (frames: seq<seq<byte>>)
      requires Valid()
      requires Fits(GW_MAX_PACKET_SIZE, State(), stream)
      modifies this, packet
      ensures Valid()
      ensures (State(), frames) == Run(Unbounded, old(State()), stream)
    {
      frames := [];
      for i := 0 to |stream|
        invariant Valid()
        invariant Fits(GW_MAX_PACKET_SIZE, State(), stream[i..])
        invariant (State(), frames) == Run(Unbounded, old(State()), stream[..i])
      {
        assert stream[i..][1..] == stream[i + 1..];
        RunAppend(Unbounded, old(State()), stream[..i], stream[i]);
        assert stream[..i + 1] == stream[..i] + [stream[i]];
        assert Fits(GW_MAX_PACKET_SIZE, State(), [stream[i]]) by {
          assert [stream[i]][1..] == [];
        }
        var frame := Read(stream[i]);
        frames := frames + Emit(frame);
      }
      assert stream[..|stream|] == stream;
    }
  }
}
