/** Every run of the translation keeps the invariant; what follows from it for packets. */
module NatSafety {
  import opened Bytes
  import opened Options
  import opened Clock
  import opened PortTable
  import opened UartChoice
  import opened NatMachine
  import opened NatInvariant

  lemma FindShrinks(s: State, q: Query, at: nat)
    requires Sized(s) && q != Empty
    ensures Sized(Find(s, q, at).0) && Shrinks(s.rows, Find(s, q, at).0.rows)
  {
  }

  /** The row that a query finds is the first one that matches after the collection, refreshed. */
  lemma FindFinds(s: State, q: Query, at: nat)
    requires Sized(s) && q != Empty
    ensures var (s1, i) := Find(s, q, at);
            i < |s1.rows| ==> q.Matches(s1.rows[i]) && s1.rows[i].Live()
  {
  }

  lemma MissIsAbsent(s: State, flow: Flow, at: nat)
    requires Sized(s) && flow.Valid()
    ensures var (s1, i) := Find(s, flow.Key(), at); i >= |s1.rows| ==> Absent(s1.rows, flow)
  {
  }

  lemma DownlinkIsQuiet(s: State, protocol: byte, serverIp: u32, ltePort: u16, at: nat)
    requires Inv(s)
    ensures Quiet(s, DownlinkStep(s, protocol, serverIp, ltePort, at))
  {
    var q := ByServer(protocol, serverIp, ltePort);
    var (s1, i) := Find(s, q, at);
    FindShrinks(s, q, at);
    FindFinds(s, q, at);
    ShrinkKeepsTx(s.rows, s1.rows, s.tx);
    if i < |s1.rows| {
      FoundIsBacked(s, s1.rows, i);
    }
  }

  lemma CollectIsQuiet(s: State, at: nat)
    requires Inv(s)
    ensures Quiet(s, Next(s, Collect(at)))
  {
  }

  lemma GeneratedIsUnused(rows: seq<Row>, icmp: bool, portSeq: nat)
    requires portSeq < Candidates(rows)
    ensures Unused(rows, icmp, Generate(rows, icmp, portSeq).1)
  {
    var port := Generate(rows, icmp, portSeq).1;
    UsedPortsAre(rows, icmp, port);
  }

  lemma GenerateIsQuiet(s: State)
    requires Inv(s) && s.tx.Chosen?
    ensures Quiet(s, Next(s, GeneratePort))
  {
    GeneratedIsUnused(s.rows, s.tx.flow.protocol == ICMP, s.portSeq);
  }

  lemma SetUartShrinks(s: State, i: nat, uart: Uart)
    requires Sized(s) && i < |s.rows|
    ensures Sized(SetUart(s, i, uart)) && Shrinks(s.rows, SetUart(s, i, uart).rows)
  {
  }

  /** Collections at the same instant free nothing new, so a row just refreshed is still there. */
  lemma HitEntryOk(s: State, rows': seq<Row>, i: nat, flow: Flow, uart: Uart)
    requires Inv(s) && flow.Valid() && i < |rows'| && Shrinks(s.rows, rows') && flow.Key().Matches(rows'[i])
    ensures EntryOk(s.log, Sent(flow, rows'[i].ltePort, uart, false))
  {
  }

  /** `Find` at the time of the last refresh leaves the row found in place. */
  lemma FindAgain(s: State, q: Query, at: nat, i: nat)
    requires Sized(s) && q != Empty && i < |s.rows| && s.rows[i].Live() && s.rows[i].ts == Millis(at)
    ensures var s1 := Find(s, q, at).0;
            Sized(s1) && s1.rows[i] == s.rows[i]
  {
  }

  lemma TcpHitIsQuiet(s: State, s1: State, i: nat, flow: Flow, at: nat)
    requires Inv(s) && Sized(s1) && Shrinks(s.rows, s1.rows) && s1.log == s.log && s1.tx == s.tx
    requires flow.Valid() && i < |s1.rows| && flow.Key().Matches(s1.rows[i]) && s1.rows[i].ts == Millis(at)
    ensures Quiet(s, TcpHit(s1, i, flow, at))
  {
    var q := ByClient(flow.protocol, flow.clientIp, flow.ethPort);
    var s2 := Find(s1, q, at).0;
    FindShrinks(s1, q, at);
    FindAgain(s1, q, at, i);
    ShrinksTransitive(s.rows, s1.rows, s2.rows);
    ShrinkKeepsTx(s.rows, s2.rows, s.tx);
    HitEntryOk(s, s2.rows, i, flow, s1.rows[i].uart);
  }

  lemma {:induction false} ClientHitIsQuiet(s: State, s1: State, i: nat, flow: Flow, ready: Readiness, at: nat)
    requires Inv(s) && Sized(s1) && Shrinks(s.rows, s1.rows) && s1.log == s.log && s1.tx == s.tx
    requires flow.Valid() && i < |s1.rows| && flow.Key().Matches(s1.rows[i]) && s1.rows[i].ts == Millis(at)
    ensures Quiet(s, ClientHit(s1, i, flow, ready, at))
  {
    ShrinkKeepsTx(s.rows, s1.rows, s.tx);
    if Choose(s1.cntr, ready).Some? {
      var uart := Choose(s1.cntr, ready).value;
      var q := ByClient(flow.protocol, flow.clientIp, flow.ethPort);
      var s2 := SetUart(s1, i, uart);
      var s3 := Find(s2, q, at).0;
      SetUartShrinks(s1, i, uart);
      FindShrinks(s2, q, at);
      FindAgain(s2, q, at, i);
      ShrinksTransitive(s.rows, s1.rows, s2.rows);
      ShrinksTransitive(s.rows, s2.rows, s3.rows);
      ShrinkKeepsTx(s.rows, s3.rows, s.tx);
      HitEntryOk(s, s3.rows, i, flow, uart);
    }
  }

  lemma {:induction false} UplinkIsQuiet(s: State, flow: Flow, ready: Readiness, at: nat)
    requires Inv(s) && s.tx == Ready && flow.Valid()
    ensures Quiet(s, UplinkStep(s, flow, ready, at))
  {
    var (s1, i) := Find(s, flow.Key(), at);
    FindShrinks(s, flow.Key(), at);
    FindFinds(s, flow.Key(), at);
    if i < |s1.rows| {
      if flow.protocol == TCP {
        TcpHitIsQuiet(s, s1, i, flow, at);
      } else {
        ClientHitIsQuiet(s, s1, i, flow, ready, at);
      }
    } else {
      MissIsAbsent(s, flow, at);
    }
  }

  // The step that adds a row

  lemma InsertKeepsTable(rows: seq<Row>, k: nat, row: Row)
    requires TableInv(rows) && k < |rows| && RowOk(row, |rows|) && row.Live()
    requires forall j :: 0 <= j < |rows| && j != k ==> !Conflict(row, rows[j])
    ensures TableInv(rows[k := row])
  {
  }

  lemma NewRowConflictsWithNone(rows: seq<Row>, flow: Flow, l: u16, row: Row)
    requires flow.Valid() && Absent(rows, flow) && Unused(rows, flow.protocol == ICMP, l)
    requires FlowOf(row) == flow && row.ltePort == l
    ensures forall j :: 0 <= j < |rows| ==> !Conflict(row, rows[j])
  {
  }

  /** The new row is backed by the new entry, the others still by theirs. */
  lemma InsertKeepsBacked(s: State, live: seq<Row>, k: nat, row: Row, e: LogEntry, rows: seq<Row>)
    requires Inv(s) && Shrinks(s.rows, live) && k < |live| && e.Sent? && e.added
    requires rows == live[k := row] && FlowOf(row) == e.flow && row.ltePort == e.ltePort && Unused(live, e.flow.protocol == ICMP, e.ltePort)
    ensures forall i :: 0 <= i < |rows| ==> Backed(rows[i], s.log + [e])
  {
    forall i | 0 <= i < |rows|
      ensures Backed(rows[i], s.log + [e])
    {
      var r := rows[i];
      LastAllocationAppend(s.log, e, r.protocol == ICMP, r.ltePort);
      if i != k && r.Live() {
        assert Kept(s.rows[i], live[i]) && Backed(s.rows[i], s.log);
        assert !(InClass(live[i], e.flow.protocol == ICMP) && live[i].ltePort == e.ltePort);
      }
    }
  }

  lemma {:induction false} AddKeepsInv(s: State, at: nat)
    requires Inv(s) && s.tx.Ported?
    ensures Inv(Next(s, AddRow(at)))
  {
    var flow, uart, l := s.tx.flow, s.tx.uart, s.tx.ltePort;
    var now := Millis(at);
    var live := Gc(s.rows, now);
    var k := First(live, Empty);
    var s' := Next(s, AddRow(at));
    assert Shrinks(s.rows, live);
    ShrinkKeepsTable(s.rows, live);
    ShrinkKeepsTx(s.rows, live, s.tx);
    if k < |live| {
      var row := flow.ToRow(l, uart).(ts := now);
      var e := Sent(flow, l, uart, true);
      NewRowConflictsWithNone(live, flow, l, row);
      InsertKeepsTable(live, k, row);
      LogAppend(s.log, e);
      InsertKeepsBacked(s, live, k, row, e, s'.rows);
    } else {
      CollectIsQuiet(s, at);
      QuietKeepsInv(s, Next(s, Collect(at)));
    }
  }

  lemma StepKeepsInv(s: State, e: Event)
    requires Inv(s)
    ensures Inv(Next(s, e))
  {
    match e
    case Uplink(flow, ready, at) =>
      if s.tx == Ready && flow.Valid() {
        UplinkIsQuiet(s, flow, ready, at);
        QuietKeepsInv(s, Next(s, e));
      }
    case GeneratePort =>
      if s.tx.Chosen? {
        GenerateIsQuiet(s);
        QuietKeepsInv(s, Next(s, e));
      }
    case AddRow(at) =>
      if s.tx.Ported? {
        AddKeepsInv(s, at);
      }
    case Downlink(p, sip, l, at) =>
      DownlinkIsQuiet(s, p, sip, l, at);
      QuietKeepsInv(s, Next(s, e));
    case Collect(at) =>
      CollectIsQuiet(s, at);
      QuietKeepsInv(s, Next(s, e));
  }

  lemma {:induction false} RunKeepsInv(s: State, es: seq<Event>)
    requires Inv(s)
    ensures Inv(Run(s, es))
    decreases |es|
  {
    if es != [] {
      StepKeepsInv(s, es[0]);
      RunKeepsInv(Next(s, es[0]), es[1..]);
    }
  }

  lemma InitInv(n: nat)
    requires PMAP_BASE_PORT + n * 4 < 0x1_0000
    ensures Inv(Init(n))
  {
  }

  /**
   * In every state that any interleaving of uplink steps, collections and downlink lookups can
   * reach: translated ports are unique in their class and in range, client keys are unique, so
   * that at most one row can answer a reverse lookup, and the history is consistent.
   */
  lemma ReachableStatesAreSafe(n: nat, es: seq<Event>, i: nat, j: nat)
    requires PMAP_BASE_PORT + n * 4 < 0x1_0000
    requires i < n && j < n && i != j
    ensures var rows := Run(Init(n), es).rows;
            rows[i].Live() && rows[j].Live() ==>
              !(rows[i].SameClass(rows[j]) && rows[i].ltePort == rows[j].ltePort) &&
              !rows[i].SameKey(rows[j]) && PortInRange(rows[i].protocol, rows[i].ltePort, n)
    ensures var rows := Run(Init(n), es).rows;
            forall q: Query :: q.ByServer? && q.Matches(rows[i]) ==> !q.Matches(rows[j])
  {
    InitInv(n);
    RunKeepsInv(Init(n), es);
    var rows := Run(Init(n), es).rows;
    assert !Conflict(rows[i], rows[j]) && RowOk(rows[i], n);
  }

  /** With the gateway's 1800 rows, TCP and UDP ports lie in 32768 .. 39968 and ICMP identifiers in 0 .. 7200. */
  lemma GatewayPorts(es: seq<Event>, i: nat)
    requires i < MAX_PMAP_ROWS && Run(Init(MAX_PMAP_ROWS), es).rows[i].Live()
    ensures var r := Run(Init(MAX_PMAP_ROWS), es).rows[i];
            if r.protocol == ICMP then r.ltePort <= 7200 else 32768 <= r.ltePort <= 39968
  {
    InitInv(MAX_PMAP_ROWS);
    RunKeepsInv(Init(MAX_PMAP_ROWS), es);
    assert RowOk(Run(Init(MAX_PMAP_ROWS), es).rows[i], MAX_PMAP_ROWS);
  }

  /** The first port that a gateway gives out is 32769, or identifier 1. */
  lemma FirstPort(n: nat, icmp: bool)
    requires n > 0
    ensures Generate(Init(n).rows, icmp, Init(n).portSeq) == if icmp then (1, 1) else (1, 32769)
  {
    var port := if icmp then 1 else 32769;
    UsedPortsAre(Init(n).rows, icmp, port);
  }

  /**
   * No cross-delivery. In every run, a packet from the modem that is delivered to a client
   * answers an earlier uplink packet of the same protocol from that client and port,
   * sent to that very server, which was translated to this port and for which the port was
   * allocated; and the port has not been allocated again in its class since.
   */
  lemma NoCrossDelivery(n: nat, es: seq<Event>, k: nat)
    requires PMAP_BASE_PORT + n * 4 < 0x1_0000
    requires var log := Run(Init(n), es).log; k < |log| && log[k].Delivered?
    ensures var log := Run(Init(n), es).log;
            var d := log[k];
            exists j, uart :: 0 <= j < k &&
              log[j] == Sent(Flow(d.protocol, d.clientIp, d.ethPort, d.serverIp), d.ltePort, uart, true) &&
              forall m :: j < m < k ==> !AllocatesPort(log[m], d.protocol == ICMP, d.ltePort)
  {
    InitInv(n);
    RunKeepsInv(Init(n), es);
    var log := Run(Init(n), es).log;
    var d := log[k];
    assert EntryOk(log[..k], log[k]);
    var j := LastAllocationAt(log[..k], d.protocol == ICMP, d.ltePort);
    assert log[j] == Sent(Flow(d.protocol, d.clientIp, d.ethPort, d.serverIp), d.ltePort, log[j].uart, true);
    forall m | j < m < k
      ensures !AllocatesPort(log[m], d.protocol == ICMP, d.ltePort)
    {
      assert log[..k][m] == log[m];
    }
  }

  predicate AllocatesPort(e: LogEntry, icmp: bool, l: u16)
  {
    e.Sent? && e.added && (e.flow.protocol == ICMP) == icmp && e.ltePort == l
  }

  lemma {:induction false} LastAllocationAt(log: seq<LogEntry>, icmp: bool, l: u16) returns (j: nat)
    requires LastAllocation(log, icmp, l).Some?
    ensures j < |log| && AllocatesPort(log[j], icmp, l) && Some(log[j].flow) == LastAllocation(log, icmp, l)
    ensures forall m :: j < m < |log| ==> !AllocatesPort(log[m], icmp, l)
  {
    var last := |log| - 1;
    if AllocatesPort(log[last], icmp, l) {
      j := last;
    } else {
      j := LastAllocationAt(log[..last], icmp, l);
      forall m | j < m < |log|
        ensures !AllocatesPort(log[m], icmp, l)
      {
        if m < last {
          assert log[..last][m] == log[m];
        }
      }
    }
  }

  /** The uplink task crashes exactly when every row is live and none has expired. */
  lemma CrashesExactlyWhenFull(s: State, at: nat)
    requires Sized(s) && s.tx.Ported?
    ensures Next(s, AddRow(at)).tx == Crashed <==>
            forall i :: 0 <= i < |s.rows| ==> s.rows[i].Live() && !Expired(s.rows[i], Millis(at))
  {
  }
}
