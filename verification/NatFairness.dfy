/**
 * Which link a packet leaves on: in every run the first choice is the link after the one used last, and as long as all
 * three modems are ready and no packet belongs to an existing TCP row, the links take turns.
 */
module NatFairness {
  import opened Options
  import opened Bytes
  import opened Clock
  import opened PortTable
  import opened UartChoice
  import opened NatMachine

  function SentUarts(log: seq<LogEntry>): seq<Uart>
  {
    if log == [] then []
    else
      var e := log[|log| - 1];
      SentUarts(log[..|log| - 1]) + if e.Sent? then [e.uart] else []
  }

  lemma SentUartsAppend(log: seq<LogEntry>, e: LogEntry)
    ensures SentUarts(log + [e]) == SentUarts(log) + if e.Sent? then [e.uart] else []
  {
  }

  // The counter

  /** Every row, packet under way and packet sent has one of the three links, and the counter tells the last one used. */
  ghost predicate CounterOk(s: State)
  {
    var uarts := SentUarts(s.log);
    (forall i :: 0 <= i < |s.rows| && s.rows[i].Live() ==> s.rows[i].uart != NoUart) &&
    (s.tx.Chosen? || s.tx.Ported? ==> s.tx.uart != NoUart) &&
    if uarts == [] then s.cntr == 0
    else
      match uarts[|uarts| - 1]
      case Uart3 => s.cntr == 2
      case Uart2 => s.cntr == 1
      case Uart1 => s.cntr == 0
      case NoUart => false
  }

  lemma {:induction false} SendKeepsCounter(s: State, s': State, e: LogEntry)
    requires CounterOk(s) && e.Sent? && e.uart != NoUart && s'.log == s.log + [e] && s'.cntr == CntrAfter(e.uart)
    requires forall i :: 0 <= i < |s'.rows| && s'.rows[i].Live() ==> s'.rows[i].uart != NoUart
    requires s'.tx == Ready
    ensures CounterOk(s')
  {
    SentUartsAppend(s.log, e);
  }

  lemma FindKeepsLinks(s: State, q: Query, at: nat)
    requires CounterOk(s) && q != Empty
    ensures CounterOk(Find(s, q, at).0)
  {
  }

  lemma TcpHitKeepsCounter(s: State, i: nat, flow: Flow, at: nat)
    requires Sized(s) && CounterOk(s) && s.tx == Ready && i < |s.rows| && s.rows[i].Live()
    ensures CounterOk(TcpHit(s, i, flow, at))
  {
    var q := ByClient(flow.protocol, flow.clientIp, flow.ethPort);
    var s1 := Find(s, q, at).0;
    FindKeepsLinks(s, q, at);
    SendKeepsCounter(s1, TcpHit(s, i, flow, at), Sent(flow, s1.rows[i].ltePort, s.rows[i].uart, false));
  }

  lemma SetUartKeepsCounter(s: State, i: nat, uart: Uart)
    requires CounterOk(s) && i < |s.rows| && uart != NoUart
    ensures CounterOk(SetUart(s, i, uart))
  {
  }

  lemma ClientHitKeepsCounter(s: State, i: nat, flow: Flow, ready: Readiness, at: nat)
    requires Sized(s) && CounterOk(s) && s.tx == Ready && i < |s.rows|
    ensures CounterOk(ClientHit(s, i, flow, ready, at))
  {
    if Choose(s.cntr, ready).Some? {
      var uart := Choose(s.cntr, ready).value;
      var q := ByClient(flow.protocol, flow.clientIp, flow.ethPort);
      var s1 := SetUart(s, i, uart);
      SetUartKeepsCounter(s, i, uart);
      var s2 := Find(s1, q, at).0;
      FindKeepsLinks(s1, q, at);
      SendKeepsCounter(s2, ClientHit(s, i, flow, ready, at), Sent(flow, s2.rows[i].ltePort, uart, false));
    }
  }

  lemma {:induction false} UplinkKeepsCounter(s: State, flow: Flow, ready: Readiness, at: nat)
    requires Sized(s) && CounterOk(s) && s.tx == Ready && flow.Valid()
    ensures CounterOk(UplinkStep(s, flow, ready, at))
  {
    var (s1, i) := Find(s, flow.Key(), at);
    FindKeepsLinks(s, flow.Key(), at);
    if i < |s1.rows| {
      if flow.protocol == TCP {
        TcpHitKeepsCounter(s1, i, flow, at);
      } else {
        ClientHitKeepsCounter(s1, i, flow, ready, at);
      }
    }
  }

  lemma AddKeepsCounter(s: State, at: nat)
    requires Sized(s) && CounterOk(s) && s.tx.Ported?
    ensures CounterOk(Next(s, AddRow(at)))
  {
    var s' := Next(s, AddRow(at));
    if s'.log != s.log {
      SendKeepsCounter(s, s', Sent(s.tx.flow, s.tx.ltePort, s.tx.uart, true));
    }
  }

  lemma DownlinkKeepsCounter(s: State, protocol: byte, serverIp: u32, ltePort: u16, at: nat)
    requires Sized(s) && CounterOk(s)
    ensures CounterOk(DownlinkStep(s, protocol, serverIp, ltePort, at))
  {
    var s' := DownlinkStep(s, protocol, serverIp, ltePort, at);
    FindKeepsLinks(s, ByServer(protocol, serverIp, ltePort), at);
    if s'.log != s.log {
      SentUartsAppend(s.log, s'.log[|s.log|]);
    }
  }

  lemma CollectKeepsCounter(s: State, at: nat)
    requires Sized(s) && CounterOk(s)
    ensures CounterOk(Next(s, Collect(at)))
  {
  }

  lemma StepKeepsCounter(s: State, e: Event)
    requires Sized(s) && CounterOk(s)
    ensures CounterOk(Next(s, e))
  {
    match e
    case Uplink(flow, ready, at) =>
      if s.tx == Ready && flow.Valid() {
        UplinkKeepsCounter(s, flow, ready, at);
      }
    case GeneratePort =>
    case AddRow(at) =>
      if s.tx.Ported? {
        AddKeepsCounter(s, at);
      }
    case Downlink(p, sip, l, at) => DownlinkKeepsCounter(s, p, sip, l, at);
    case Collect(at) => CollectKeepsCounter(s, at);
  }

  lemma {:induction false} RunKeepsCounter(s: State, es: seq<Event>)
    requires Sized(s) && CounterOk(s)
    ensures CounterOk(Run(s, es))
    decreases |es|
  {
    if es != [] {
      StepKeepsCounter(s, es[0]);
      RunKeepsCounter(Next(s, es[0]), es[1..]);
    }
  }

  /**
   * In every run, with any modems ready and packets of any rows: the link that a packet without a row tries first is
   * UART3 at power-up, and then the one after the link of the last packet sent, in the order 3, 2, 1.
   */
  lemma FirstChoiceFollowsLast(n: nat, es: seq<Event>)
    requires PMAP_BASE_PORT + n * 4 < 0x1_0000
    ensures var s := Run(Init(n), es);
            var uarts := SentUarts(s.log);
            if uarts == [] then Order(s.cntr).0 == Uart3
            else
              match uarts[|uarts| - 1]
              case Uart3 => Order(s.cntr).0 == Uart2
              case Uart2 => Order(s.cntr).0 == Uart1
              case Uart1 => Order(s.cntr).0 == Uart3
              case NoUart => false
  {
    RunKeepsCounter(Init(n), es);
  }

  // Turns

  predicate TcpRowHit(s: State, flow: Flow, at: nat)
  {
    flow.protocol == TCP && First(Gc(s.rows, Millis(at)), flow.Key()) < |s.rows|
  }

  /**
   * What one packet does. The packet of a TCP row leaves on the row's link whether it is ready or not. Any other is
   * dropped exactly when no modem is ready, and otherwise gets the link of the choice, at once or with its new row.
   */
  lemma LinkOfPacket(s: State, flow: Flow, ready: Readiness, at: nat)
    requires Sized(s) && s.tx == Ready && flow.Valid()
    ensures var s' := UplinkStep(s, flow, ready, at);
            var sent := s'.log != s.log;
            if TcpRowHit(s, flow, at) then
              sent && s'.log[|s.log|].uart == s.rows[First(Gc(s.rows, Millis(at)), flow.Key())].uart
            else
              (!sent && s'.tx == Ready <==> !ready.uart1 && !ready.uart2 && !ready.uart3) &&
              (sent ==> Some(s'.log[|s.log|].uart) == Choose(s.cntr, ready)) &&
              (s'.tx.Chosen? ==> Some(s'.tx.uart) == Choose(s.cntr, ready))
  {
    DroppedExactlyWhenNoneReady(s.cntr, ready);
  }

  /** All modems ready, and the packet does not belong to a TCP row. */
  predicate Balanced(s: State, e: Event)
  {
    e.Uplink? ==> e.ready == Readiness(true, true, true) && !TcpRowHit(s, e.flow, e.at)
  }

  ghost predicate BalancedRun(s: State, es: seq<Event>)
    requires Sized(s)
    decreases |es|
  {
    es == [] || (Balanced(s, es[0]) && BalancedRun(Next(s, es[0]), es[1..]))
  }

  /** The counter names the link after the last one used, and a packet under way holds the link whose turn it is. */
  ghost predicate InTurn(s: State)
  {
    RoundRobin(0, SentUarts(s.log)) &&
    Turn(s.cntr) == TurnAfter(0, |SentUarts(s.log)|) &&
    (s.tx.Chosen? || s.tx.Ported? ==> s.tx.uart == Turn(s.cntr))
  }

  lemma SendInTurn(s: State, s': State, e: LogEntry)
    requires InTurn(s) && e.Sent? && e.uart == Turn(s.cntr)
    requires s'.log == s.log + [e] && s'.cntr == CntrAfter(e.uart) && s'.tx == Ready
    ensures InTurn(s')
  {
  }

  lemma UplinkInTurn(s: State, flow: Flow, ready: Readiness, at: nat)
    requires Sized(s) && InTurn(s) && Balanced(s, Uplink(flow, ready, at)) && s.tx == Ready
    ensures InTurn(UplinkStep(s, flow, ready, at))
  {
    var s' := UplinkStep(s, flow, ready, at);
    if s'.log != s.log {
      SendInTurn(s, s', s'.log[|s.log|]);
    }
  }

  lemma AddInTurn(s: State, at: nat)
    requires Sized(s) && InTurn(s) && s.tx.Ported?
    ensures InTurn(Next(s, AddRow(at)))
  {
    var s' := Next(s, AddRow(at));
    if s'.log != s.log {
      SendInTurn(s, s', Sent(s.tx.flow, s.tx.ltePort, s.tx.uart, true));
    }
  }

  lemma DownlinkInTurn(s: State, protocol: byte, serverIp: u32, ltePort: u16, at: nat)
    requires Sized(s) && InTurn(s)
    ensures InTurn(DownlinkStep(s, protocol, serverIp, ltePort, at))
  {
    var s' := DownlinkStep(s, protocol, serverIp, ltePort, at);
    if s'.log != s.log {
      SentUartsAppend(s.log, s'.log[|s.log|]);
    }
  }

  lemma StepInTurn(s: State, e: Event)
    requires Sized(s) && InTurn(s) && Balanced(s, e)
    ensures InTurn(Next(s, e))
  {
    match e
    case Uplink(flow, ready, at) =>
      if s.tx == Ready && flow.Valid() {
        UplinkInTurn(s, flow, ready, at);
      }
    case GeneratePort =>
    case AddRow(at) =>
      if s.tx.Ported? {
        AddInTurn(s, at);
      }
    case Downlink(p, sip, l, at) => DownlinkInTurn(s, p, sip, l, at);
    case Collect(at) =>
  }

  lemma {:induction false} RunInTurn(s: State, es: seq<Event>)
    requires Sized(s) && InTurn(s) && BalancedRun(s, es)
    ensures InTurn(Run(s, es))
    decreases |es|
  {
    if es != [] {
      StepInTurn(s, es[0]);
      RunInTurn(Next(s, es[0]), es[1..]);
    }
  }

  /**
   * In every such run the packets go to UART3, UART2, UART1 in turn, so the loads of any two
   * links differ by at most one packet.
   */
  lemma RoundRobinFairness(n: nat, es: seq<Event>, u: Uart, v: Uart)
    requires PMAP_BASE_PORT + n * 4 < 0x1_0000 && BalancedRun(Init(n), es)
    requires u != NoUart && v != NoUart
    ensures var uarts := SentUarts(Run(Init(n), es).log);
            (forall k :: 0 <= k < |uarts| ==> uarts[k] == InOrder(k)) &&
            Count(u, uarts) <= Count(v, uarts) + 1
  {
    var uarts := SentUarts(Run(Init(n), es).log);
    RunInTurn(Init(n), es);
    forall k | 0 <= k < |uarts|
      ensures uarts[k] == InOrder(k)
    {
      TurnsInOrder(k);
    }
    RoundRobinIsFair(0, uarts, u, v);
  }

  function InOrder(k: nat): Uart
  {
    match k % 3
    case 0 => Uart3
    case 1 => Uart2
    case _ => Uart1
  }

  lemma {:induction false} TurnsInOrder(k: nat)
    ensures TurnAfter(0, k) == InOrder(k)
  {
    if k >= 3 {
      TurnsInOrder(k - 3);
      AddThree(k - 3);
      AddThree(2 * k - 6);
      AddThree(2 * k - 3);
    }
  }

  lemma AddThree(x: nat)
    ensures (x + 3) % 3 == x % 3
  {
  }
}
