/**
 * `task_gw_uart_tx`: each method is one atomic step of the task on its own variables and on the shared port map,
 * and is tied to the step of the state machine. Times are given twice: the true time for the
 * specification, and what `millis()` returns to the code.
 */
module UplinkTasks {
  import opened Bytes
  import opened Options
  import opened Clock
  import opened PortTable
  import opened PortMaps
  import opened UartChoice
  import opened NatMachine
  import opened Framing
  import opened UartLink
  import opened Packet

  /** The frame that a slot of the ring holds starts with the Ethernet header. */
  const ETH_HDR := 14

  /** What the task handles: TCP, UDP, and ICMP echo or echo reply. */
  predicate Translatable(p: seq<byte>)
  {
    WellFormed(p) && (p[9] == ICMP ==> p[HeaderLen(p)] == 0 || p[HeaderLen(p)] == 8)
  }

  function FlowOfPacket(p: seq<byte>): (f: Flow)
    requires Translatable(p)
    ensures f.Valid()
  {
    Flow(p[9], SrcIp(p), SrcPort(p), DstIp(p))
  }

  /** Which packets these are, byte by byte. */
  lemma TranslatableExactlyWhen(p: seq<byte>)
    ensures Translatable(p) <==>
            |p| >= 20 && 0x100 * p[2] as int + p[3] as int == |p| &&
            var hdr := p[0] as int % 0x10 * 4;
            hdr >= 20 &&
            ((p[9] == 0x06 && |p| >= hdr + 18) || (p[9] == 0x11 && |p| >= hdr + 8) ||
             (p[9] == 0x01 && |p| >= hdr + 6 && (p[hdr] == 0 || p[hdr] == 8)))
  {
  }

  /** What the task reads from a packet: client from the source address, server from the destination, and the source port or the identifier. */
  lemma FlowIsRead(p: seq<byte>)
    requires Translatable(p)
    ensures var hdr := p[0] as int % 0x10 * 4;
            var at := hdr + if p[9] == 0x01 then 4 else 0;
            var f := FlowOfPacket(p);
            f.protocol == p[9] && f.ethPort == 0x100 * p[at] as int + p[at + 1] as int &&
            f.clientIp == p[12] as int + 0x100 * p[13] as int + 0x1_0000 * p[14] as int + 0x100_0000 * p[15] as int &&
            f.serverIp == p[16] as int + 0x100 * p[17] as int + 0x1_0000 * p[18] as int + 0x100_0000 * p[19] as int
  {
  }

  /** The three-way choice, written out for every packet class in the code. */
  method ChooseUart(cntr: nat, ready: Readiness) returns (chosen: Option<Uart>)
    ensures chosen == Choose(cntr, ready)
  {
    var uart := if cntr % 3 == 0 then Uart3 else if cntr % 3 == 2 then Uart2 else Uart1;
    if !ready.Ready(uart) {
      uart := if uart == Uart3 then Uart1 else if uart == Uart2 then Uart3 else Uart2;
      if !ready.Ready(uart) {
        uart := if uart == Uart3 then Uart1 else if uart == Uart2 then Uart3 else Uart2;
        if !ready.Ready(uart) {
          return None;
        }
      }
      uart := if uart == Uart2 then Uart3 else if uart == Uart1 then Uart2 else Uart1;
    }
    chosen := Some(uart);
  }

  class UplinkTask {
    const pmap: PortMap
    var cntr: nat
    var tx: Tx
    ghost var stamps: seq<nat>
    ghost var clock: nat
    ghost var log: seq<LogEntry>

    ghost function State(): State
      reads this, pmap, pmap.row
    {
      NatMachine.State.State(pmap.row[..], stamps, pmap.portSeq, cntr, tx, clock, log)
    }

    ghost predicate Valid()
      reads this, pmap, pmap.row
    {
      pmap.Valid() && |stamps| == pmap.row.Length
    }

    constructor (pmap: PortMap)
      requires pmap.Valid()
      ensures this.pmap == pmap && Valid()
      ensures cntr == 0 && tx == Ready && log == [] && clock == 0
      ensures pmap.portSeq == 0 && pmap.row[..] == Init(pmap.row.Length).rows ==> State() == Init(pmap.row.Length)
    {
      this.pmap := pmap;
      cntr, tx, clock, log := 0, Ready, 0, [];
      stamps := seq(pmap.row.Length, _ => 0);
    }

    method FindRow(q: Query, now: u32, ghost at: nat) returns (i: nat)
      requires Valid() && q != Empty && now == Millis(at)
      modifies this`stamps, this`clock, pmap.row
      ensures Valid() && (State(), i) == Find(old(State()), q, at)
    {
      i := pmap.Search(q, now);
      stamps := if i < |stamps| then stamps[i := at] else stamps;
      clock := at;
    }

    /** The packet belongs to a TCP row. */
    method OnTcpRow(i: nat, flow: Flow, now: u32, ghost at: nat) returns (uart: Uart, port: u16)
      requires Valid() && i < pmap.row.Length && now == Millis(at)
      modifies this, pmap.row
      ensures Valid() && State() == TcpHit(old(State()), i, flow, at)
      ensures log == old(log) + [Sent(flow, port, uart, false)]
    {
      uart := pmap.row[i].uart;
      var j := FindRow(ByClient(flow.protocol, flow.clientIp, flow.ethPort), now, at);
      cntr := if uart == Uart3 then 2 else if uart == Uart2 then 1 else 0;
      port := pmap.row[i].ltePort;
      log := log + [Sent(flow, port, uart, false)];
    }

    /** The packet belongs to a UDP or ICMP row. */
    method OnClientRow(i: nat, flow: Flow, ready: Readiness, now: u32, ghost at: nat) returns (out: Option<(Uart, u16)>)
      requires Valid() && i < pmap.row.Length && now == Millis(at)
      modifies this, pmap.row
      ensures Valid() && State() == ClientHit(old(State()), i, flow, ready, at)
      ensures log == match out case None => old(log) case Some((uart, port)) => old(log) + [Sent(flow, port, uart, false)]
    {
      var chosen := ChooseUart(cntr, ready);
      if chosen == None {
        return None;
      }
      var uart := chosen.value;
      ghost var before := State();
      pmap.row[i] := pmap.row[i].(uart := uart);
      assert State() == SetUart(before, i, uart);
      var j := FindRow(ByClient(flow.protocol, flow.clientIp, flow.ethPort), now, at);
      cntr := if uart == Uart3 then 2 else if uart == Uart2 then 1 else 0;
      log := log + [Sent(flow, pmap.row[i].ltePort, uart, false)];
      out := Some((uart, pmap.row[i].ltePort));
    }

    /** The first step for a packet: what to send now, if its row exists; otherwise a link is chosen for a new row. */
    method LookUp(flow: Flow, ready: Readiness, now: u32, ghost at: nat) returns (out: Option<(Uart, u16)>)
      requires Valid() && tx == Ready && flow.Valid() && now == Millis(at)
      modifies this, pmap.row
      ensures Valid() && State() == UplinkStep(old(State()), flow, ready, at)
      ensures log == match out case None => old(log) case Some((uart, port)) => old(log) + [Sent(flow, port, uart, false)]
    {
      out := None;
      var i := FindRow(flow.Key(), now, at);
      if i < pmap.row.Length {
        if flow.protocol == TCP {
          var uart, port := OnTcpRow(i, flow, now, at);
          out := Some((uart, port));
        } else {
          out := OnClientRow(i, flow, ready, now, at);
        }
      } else {
        var chosen := ChooseUart(cntr, ready);
        if chosen != None {
          tx := Chosen(flow, chosen.value);
        }
      }
    }

    /** The second step: `lte_port_genarator` or `lte_port_genarator_icmp_echo`. */
    method PickPort()
      requires Valid() && tx.Chosen?
      modifies this`tx, pmap`portSeq
      ensures Valid() && State() == GenerateStep(old(State()), old(tx).flow, old(tx).uart)
    {
      var port := pmap.GeneratePort(tx.flow.protocol == ICMP);
      tx := Ported(tx.flow, tx.uart, port);
    }

    /** The third step: `add_pmap`. With no free row the task would read through a null pointer. */
    method AddRow(now: u32, ghost at: nat) returns (out: Option<(Uart, u16)>)
      requires Valid() && tx.Ported? && now == Millis(at)
      modifies this, pmap.row
      ensures Valid() && State() == AddStep(old(State()), old(tx).flow, old(tx).uart, old(tx).ltePort, at)
      ensures log == match out case None => old(log) case Some((uart, port)) => old(log) + [Sent(old(tx).flow, port, uart, true)]
    {
      var flow, uart, port := tx.flow, tx.uart, tx.ltePort;
      var i := pmap.AddPmap(flow.protocol, flow.clientIp, flow.ethPort, flow.serverIp, port, uart, now);
      stamps := if i < |stamps| then stamps[i := at] else stamps;
      clock := at;
      if i < pmap.row.Length {
        cntr := if uart == Uart3 then 2 else if uart == Uart2 then 1 else 0;
        tx := Ready;
        log := log + [Sent(flow, port, uart, true)];
        out := Some((uart, port));
      } else {
        tx := Crashed;
        out := None;
      }
    }

    /** The port goes into the slot, and the packet out on the line. */
    method Emit(slot: array<byte>, size: u16, port: u16, line: Transmitter)
      requires ETH_HDR + size <= slot.Length && Translatable(slot[ETH_HDR..ETH_HDR + size])
      modifies slot, line
      ensures var p := old(slot[ETH_HDR..ETH_HDR + size]);
              slot[ETH_HDR..ETH_HDR + size] == UplinkRewrite(p, port) &&
              line.sent == old(line.sent) + Encode(UplinkRewrite(p, port))
    {
      ghost var p := slot[ETH_HDR..ETH_HDR + size];
      var hdr := slot[ETH_HDR] % 0x10 * 4;
      assert hdr == HeaderLen(p) && slot[ETH_HDR + 9] == p[9];
      var at := ETH_HDR + hdr + if slot[ETH_HDR + 9] == ICMP then 4 else 0;
      slot[at] := port / 0x100;
      slot[at + 1] := port % 0x100;
      assert slot[ETH_HDR..ETH_HDR + size] == UplinkRewrite(p, port);
      line.SendFrame(slot[ETH_HDR..ETH_HDR + size]);
    }
  }
}
