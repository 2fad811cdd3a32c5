/** Where the translation falls short: runs that reach a crash, and servers that are never heard. */
module NatLimits {
  import opened Bytes
  import opened Clock
  import opened PortTable
  import opened UartChoice
  import opened NatMachine
  import opened NatInvariant
  import opened NatSafety
  import opened NatTiming

  // A full table

  const ALL_READY := Readiness(true, true, true)

  /** One client, one UDP packet from each of its ports in turn. */
  function FloodFlow(k: u16): Flow
  {
    Flow(UDP, 1, k, 2)
  }

  /** `k` new flows at time 0, each looked up, given a port and added. */
  function Flood(k: nat): seq<Event>
    requires k <= 0x1_0000
  {
    if k == 0 then [] else Flood(k - 1) + NewFlow(FloodFlow(k - 1))
  }

  /** The first `k` rows hold the first `k` flows, the others are free. */
  ghost predicate Loaded(s: State, k: nat)
  {
    Sized(s) && s.tx == Ready && k <= |s.rows| &&
    (forall i :: 0 <= i < k ==> s.rows[i].protocol == UDP && s.rows[i].ethPort == i && s.rows[i].ts == 0) &&
    (forall i :: k <= i < |s.rows| ==> !s.rows[i].Live())
  }

  lemma {:induction false} RunAppend(s: State, es: seq<Event>, fs: seq<Event>)
    requires Sized(s)
    ensures Run(s, es + fs) == Run(Run(s, es), fs)
    decreases |es|
  {
    if es == [] {
      assert es + fs == fs;
    } else {
      assert (es + fs)[1..] == es[1..] + fs;
      RunAppend(Next(s, es[0]), es[1..], fs);
    }
  }

  lemma RunThree(s: State, a: Event, b: Event, c: Event)
    requires Sized(s)
    ensures Run(s, [a, b, c]) == Next(Next(Next(s, a), b), c)
  {
    assert [a, b, c][1..] == [b, c] && [b, c][1..] == [c] && [c][1..] == [];
    assert Run(Next(Next(s, a), b), [c]) == Next(Next(Next(s, a), b), c);
  }

  lemma FreshIsKept(rows: seq<Row>)
    requires forall i :: 0 <= i < |rows| && rows[i].Live() ==> rows[i].ts == 0
    ensures Gc(rows, Millis(0)) == rows
  {
  }

  /** A state at time 0 in which the flow has no row, and `k` is the first free one. */
  ghost predicate New(s: State, flow: Flow, k: nat)
  {
    Sized(s) && flow.Valid() && (forall i :: 0 <= i < |s.rows| && s.rows[i].Live() ==> s.rows[i].ts == 0) &&
    First(s.rows, flow.Key()) == |s.rows| && First(s.rows, Empty) == k
  }

  /** The three steps of a packet of a new flow. */
  function NewFlow(flow: Flow): seq<Event>
  {
    [Uplink(flow, ALL_READY, 0), GeneratePort, AddRow(0)]
  }

  lemma NewFlowIsChosen(s: State, flow: Flow, k: nat)
    requires New(s, flow, k) && s.tx == Ready
    ensures var s1 := Next(s, Uplink(flow, ALL_READY, 0));
            s1.tx.Chosen? && s1.tx.flow == flow && s1.rows == s.rows
  {
    FreshIsKept(s.rows);
    DroppedExactlyWhenNoneReady(s.cntr, ALL_READY);
  }

  lemma NewFlowIsPorted(s: State)
    requires Sized(s) && s.tx.Chosen?
    ensures var s1 := Next(s, GeneratePort);
            s1.tx.Ported? && s1.tx.flow == s.tx.flow && s1.rows == s.rows
  {
  }

  /** The flow takes the first free row, or crashes the task when there is none. */
  lemma NewFlowIsAdded(s: State, flow: Flow, k: nat)
    requires New(s, flow, k) && s.tx.Ported? && s.tx.flow == flow
    ensures var s1 := Next(s, AddRow(0));
            if k < |s.rows| then s1.tx == Ready && s1.rows == s.rows[k := flow.ToRow(s.tx.ltePort, s.tx.uart)]
            else s1.tx == Crashed
  {
    FreshIsKept(s.rows);
  }

  lemma NewFlowSteps(s: State, flow: Flow, k: nat) returns (port: u16, uart: Uart)
    requires New(s, flow, k) && s.tx == Ready
    ensures var s3 := Run(s, NewFlow(flow));
            if k < |s.rows| then s3.tx == Ready && s3.rows == s.rows[k := flow.ToRow(port, uart)]
            else s3.tx == Crashed
  {
    RunThree(s, Uplink(flow, ALL_READY, 0), GeneratePort, AddRow(0));
    NewFlowIsChosen(s, flow, k);
    var s1 := Next(s, Uplink(flow, ALL_READY, 0));
    NewFlowIsPorted(s1);
    var s2 := Next(s1, GeneratePort);
    NewFlowIsAdded(s2, flow, k);
    port, uart := s2.tx.ltePort, s2.tx.uart;
  }

  lemma FloodStep(s: State, k: nat)
    requires Loaded(s, k) && k < 0x1_0000
    ensures var s3 := Run(s, NewFlow(FloodFlow(k)));
            if k < |s.rows| then Loaded(s3, k + 1) else s3.tx == Crashed
  {
    FirstIs(s.rows, FloodFlow(k).Key(), |s.rows|);
    FirstIs(s.rows, Empty, k);
    var port, uart := NewFlowSteps(s, FloodFlow(k), k);
  }

  lemma {:induction false} FloodLoads(n: nat, k: nat)
    requires PMAP_BASE_PORT + n * 4 < 0x1_0000 && k <= n
    ensures Loaded(Run(Init(n), Flood(k)), k) && |Run(Init(n), Flood(k)).rows| == n
  {
    if k > 0 {
      FloodLoads(n, k - 1);
      FloodStep(Run(Init(n), Flood(k - 1)), k - 1);
      RunAppend(Init(n), Flood(k - 1), NewFlow(FloodFlow(k - 1)));
    }
  }

  /**
   * From power-up, for every table size, one client that sends a UDP packet from one port more than the table has rows
   * crashes the uplink task, with all modems ready. One packet fewer does not.
   */
  lemma FloodCrashes(n: nat)
    requires PMAP_BASE_PORT + n * 4 < 0x1_0000
    ensures Run(Init(n), Flood(n)).tx == Ready && Run(Init(n), Flood(n + 1)).tx == Crashed
  {
    FloodLoads(n, n);
    FloodStep(Run(Init(n), Flood(n)), n);
    RunAppend(Init(n), Flood(n), NewFlow(FloodFlow(n)));
  }

  // A second server

  /**
   * A client with a live UDP or ICMP row writes from the same port to another server. The packet leaves on the row's
   * port, and no answer of that other server to that port is ever delivered while the row lives.
   */
  lemma SecondServerIsNotHeard(s: State, i: nat, flow: Flow, ready: Readiness, at: nat, later: nat)
    requires Inv(s) && TimeInv(s) && Survives(s, Collect(at), i) && flow.Valid() && flow.protocol != TCP
    requires flow.Key().Matches(s.rows[i]) && flow.serverIp != s.rows[i].serverIp
    requires s.tx == Ready && Choose(s.cntr, ready).Some?
    ensures var s1 := UplinkStep(s, flow, ready, at);
            var port := s.rows[i].ltePort;
            (exists uart :: s1.log == s.log + [Sent(flow, port, uart, false)]) &&
            (Timely(s1.clock, Collect(later)) ==>
              DownlinkStep(s1, flow.protocol, flow.serverIp, port, later).log == s1.log)
  {
    var s1 := UplinkStep(s, flow, ready, at);
    SentWhenReady(s, i, flow, ready, at);
    UplinkIsConsistent(s, flow, ready, at, i);
    UplinkKeepsRow(s, flow, ready, at, i);
    UplinkKeepsTime(s, flow, ready, at);
    UplinkIsQuiet(s, flow, ready, at);
    QuietKeepsInv(s, s1);
    if Timely(s1.clock, Collect(later)) {
      DeliveredExactlyWhen(s1, i, flow.serverIp, later);
    }
  }

  /** With a row and a modem, a packet is sent. */
  lemma SentWhenReady(s: State, i: nat, flow: Flow, ready: Readiness, at: nat)
    requires Inv(s) && TimeInv(s) && Survives(s, Collect(at), i) && flow.Valid() && flow.protocol != TCP
    requires flow.Key().Matches(s.rows[i]) && Choose(s.cntr, ready).Some?
    ensures UplinkStep(s, flow, ready, at).log != s.log
  {
    var (s1, f) := Find(s, flow.Key(), at);
    FindKeepsTime(s, flow.Key(), at);
    FindKeepsRow(s, flow.Key(), at, i);
    FindFinds(s, flow.Key(), at);
    MissIsAbsent(s, flow, at);
  }

  /** Such a state exists: after one UDP packet of a client from power-up, another server is such a second server. */
  lemma SecondServerExample(flow: Flow, other: u32, s: State)
    requires flow.Valid() && flow.protocol != TCP && other != flow.serverIp
    requires s == Run(Init(1), NewFlow(flow))
    ensures var second := flow.(serverIp := other);
            Inv(s) && TimeInv(s) && s.tx == Ready && Survives(s, Collect(0), 0) &&
            second.Key().Matches(s.rows[0]) && second.serverIp != s.rows[0].serverIp
  {
    InitInv(1);
    RunKeepsInv(Init(1), NewFlow(flow));
    NewFlowKeepsTime(Init(1), flow);
    FirstFlow(flow, s);
    assert StampOk(s.rows[0], s.stamps[0], s.clock);
  }

  lemma FirstFlow(flow: Flow, s: State)
    requires flow.Valid() && s == Run(Init(1), NewFlow(flow))
    ensures s.tx == Ready && |s.rows| == 1 && FlowOf(s.rows[0]) == flow
  {
    var rows := Init(1).rows;
    FirstIs(rows, flow.Key(), 1);
    FirstIs(rows, Empty, 0);
    var port, uart := NewFlowSteps(Init(1), flow, 0);
  }

  lemma NewFlowKeepsTime(s: State, flow: Flow)
    requires TimeInv(s) && s.clock == 0
    ensures TimeInv(Run(s, NewFlow(flow))) && Run(s, NewFlow(flow)).clock == 0
  {
    var a, b, c := Uplink(flow, ALL_READY, 0), GeneratePort, AddRow(0);
    RunThree(s, a, b, c);
    StepKeepsTime(s, a);
    StepKeepsTime(Next(s, a), b);
    StepKeepsTime(Next(Next(s, a), b), c);
  }
}
