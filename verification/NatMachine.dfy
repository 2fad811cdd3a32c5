/**
 * The gateway's address translation as a state machine. The uplink task looks a flow up, picks
 * a link, generates a port and adds a row in separate steps; the three receive tasks look
 * packets from the modems up at any moment between them. Each table function is one atomic step.
 */
module NatMachine {
  import opened Bytes
  import opened Clock
  import opened PortTable
  import opened UartChoice

  /** What the uplink task reads from a packet: protocol, client, client port or ICMP identifier, server. */
  datatype Flow = Flow(protocol: byte, clientIp: u32, ethPort: u16, serverIp: u32)
  {
    predicate Valid()
    {
      protocol == TCP || protocol == UDP || protocol == ICMP
    }

    /** TCP flows are looked up with their server, the others by client only. */
    function Key(): Query
    {
      if protocol == TCP then ForTcp(clientIp, serverIp, ethPort) else ByClient(protocol, clientIp, ethPort)
    }

    function ToRow(ltePort: u16, uart: Uart): Row
    {
      Row(protocol, clientIp, ethPort, serverIp, ltePort, uart, 0)
    }
  }

  datatype LogEntry =
    | Sent(flow: Flow, ltePort: u16, uart: Uart, added: bool)
    | Delivered(protocol: byte, serverIp: u32, ltePort: u16, clientIp: u32, ethPort: u16)

  /** Where the uplink task stands with the packet it is working on. */
  datatype Tx =
    | Ready
    | Chosen(flow: Flow, uart: Uart)
    | Ported(flow: Flow, uart: Uart, ltePort: u16)
    | Crashed

  /**
   * `stamps[i]` is the true time at which row `i` was last refreshed, `clock` the true time of the
   * last collection; the program itself sees both modulo 2^32 only. The log is a history variable.
   */
  datatype State = State(rows: seq<Row>, stamps: seq<nat>, portSeq: nat, cntr: nat, tx: Tx, clock: nat, log: seq<LogEntry>)

  datatype Event =
    | Uplink(flow: Flow, ready: Readiness, at: nat)
    | GeneratePort
    | AddRow(at: nat)
    | Downlink(protocol: byte, serverIp: u32, ltePort: u16, at: nat)
    | Collect(at: nat)

  function Init(n: nat): State
  {
    State(seq(n, _ => Row(0, 0, 0, 0, 0, NoUart, 0)), seq(n, _ => 0), 0, 0, Ready, 0, [])
  }

  // Table steps with the true clock kept beside the 32-bit one

  function Stamp(s: State, i: nat, at: nat): seq<nat>
  {
    if i < |s.stamps| then s.stamps[i := at] else s.stamps
  }

  function Find(s: State, q: Query, at: nat): (State, nat)
  {
    var (rows, i) := Lookup(s.rows, q, Millis(at));
    (s.(rows := rows, stamps := Stamp(s, i, at), clock := at), i)
  }

  function SetUart(s: State, i: nat, uart: Uart): State
    requires i < |s.rows|
  {
    s.(rows := s.rows[i := s.rows[i].(uart := uart)])
  }

  function Append(s: State, entry: LogEntry): State
  {
    s.(log := s.log + [entry])
  }

  // The uplink task

  /** A TCP row keeps its link; `update_pmap_by_client_info` then refreshes the first row of that client and port. */
  function TcpHit(s: State, i: nat, flow: Flow, at: nat): State
    requires i < |s.rows|
  {
    var uart := s.rows[i].uart;
    var s1 := Find(s, ByClient(flow.protocol, flow.clientIp, flow.ethPort), at).0;
    if i < |s1.rows| then
      Append(s1.(cntr := CntrAfter(uart)), Sent(flow, s1.rows[i].ltePort, uart, false))
    else s1
  }

  /** A UDP or ICMP row moves to the link whose turn it is. */
  function ClientHit(s: State, i: nat, flow: Flow, ready: Readiness, at: nat): State
    requires i < |s.rows|
  {
    match Choose(s.cntr, ready)
    case None => s
    case Some(uart) =>
      var s1 := Find(SetUart(s, i, uart), ByClient(flow.protocol, flow.clientIp, flow.ethPort), at).0;
      if i < |s1.rows| then
        Append(s1.(cntr := CntrAfter(uart)), Sent(flow, s1.rows[i].ltePort, uart, false))
      else s1
  }

  function UplinkStep(s: State, flow: Flow, ready: Readiness, at: nat): State
  {
    var (s1, i) := Find(s, flow.Key(), at);
    if i < |s1.rows| then
      if flow.protocol == TCP then TcpHit(s1, i, flow, at) else ClientHit(s1, i, flow, ready, at)
    else
      match Choose(s1.cntr, ready)
      case None => s1
      case Some(uart) => s1.(tx := Chosen(flow, uart))
  }

  function GenerateStep(s: State, flow: Flow, uart: Uart): State
    requires s.portSeq < Candidates(s.rows) && PMAP_BASE_PORT + |s.rows| * 4 < 0x1_0000
  {
    var (next, port) := Generate(s.rows, flow.protocol == ICMP, s.portSeq);
    s.(portSeq := next, tx := Ported(flow, uart, port))
  }

  /** With no free row `add_pmap` returns null and the task reads through it. */
  function AddStep(s: State, flow: Flow, uart: Uart, ltePort: u16, at: nat): State
  {
    var (rows, i) := Insert(s.rows, flow.ToRow(ltePort, uart), Millis(at));
    var s1 := s.(rows := rows, stamps := Stamp(s, i, at), clock := at);
    if i < |rows| then
      Append(s1.(cntr := CntrAfter(uart), tx := Ready), Sent(flow, ltePort, uart, true))
    else s1.(tx := Crashed)
  }

  // The receive tasks

  function DownlinkStep(s: State, protocol: byte, serverIp: u32, ltePort: u16, at: nat): State
  {
    var (s1, i) := Find(s, ByServer(protocol, serverIp, ltePort), at);
    if i < |s1.rows| then
      Append(s1, Delivered(protocol, serverIp, ltePort, s1.rows[i].clientIp, s1.rows[i].ethPort))
    else s1
  }

  predicate Sized(s: State)
  {
    |s.stamps| == |s.rows| && s.portSeq < Candidates(s.rows) && PMAP_BASE_PORT + |s.rows| * 4 < 0x1_0000
  }

  /** An event that the program counter of the uplink task does not allow does nothing. */
  function Next(s: State, e: Event): (s': State)
    requires Sized(s)
    ensures Sized(s') && |s'.rows| == |s.rows|
  {
    match e
    case Uplink(flow, ready, at) => if s.tx == Ready && flow.Valid() then UplinkStep(s, flow, ready, at) else s
    case GeneratePort => if s.tx.Chosen? then GenerateStep(s, s.tx.flow, s.tx.uart) else s
    case AddRow(at) => if s.tx.Ported? then AddStep(s, s.tx.flow, s.tx.uart, s.tx.ltePort, at) else s
    case Downlink(p, sip, l, at) => DownlinkStep(s, p, sip, l, at)
    case Collect(at) => s.(rows := Gc(s.rows, Millis(at)), clock := at)
  }

  function Run(s: State, es: seq<Event>): (s': State)
    requires Sized(s)
    ensures Sized(s') && |s'.rows| == |s.rows|
    decreases |es|
  {
    if es == [] then s else Run(Next(s, es[0]), es[1..])
  }
}
