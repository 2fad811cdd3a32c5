/**
 * What every step of the translation keeps: no two live rows share a translated port
 * (or ICMP identifier) or a client key, and every live row and every delivery goes back to
 * the uplink packet for which its port was allocated last.
 */
module NatInvariant {
  import opened Bytes
  import opened Options
  import opened PortTable
  import opened NatMachine

  // Table

  predicate Conflict(a: Row, b: Row)
  {
    a.Live() && b.Live() && ((a.SameClass(b) && a.ltePort == b.ltePort) || a.SameKey(b))
  }

  ghost predicate Unique(rows: seq<Row>)
  {
    forall i, j :: 0 <= i < |rows| && 0 <= j < |rows| && i != j ==> !Conflict(rows[i], rows[j])
  }

  predicate PortInRange(protocol: byte, port: nat, n: nat)
  {
    if protocol == ICMP then port <= 4 * n else PMAP_BASE_PORT <= port <= PMAP_BASE_PORT + 4 * n
  }

  predicate RowOk(r: Row, n: nat)
  {
    r.Live() ==> (r.protocol == TCP || r.protocol == UDP || r.protocol == ICMP) && PortInRange(r.protocol, r.ltePort, n)
  }

  /** No new row: each row is gone or still serves the same flow on the same port. */
  predicate Kept(r: Row, r': Row)
  {
    r'.Live() ==> r.SameFlow(r')
  }

  ghost predicate Shrinks(rows: seq<Row>, rows': seq<Row>)
  {
    |rows| == |rows'| && forall i :: 0 <= i < |rows| ==> Kept(rows[i], rows'[i])
  }

  ghost predicate Absent(rows: seq<Row>, flow: Flow)
  {
    forall i :: 0 <= i < |rows| ==> !flow.Key().Matches(rows[i])
  }

  ghost predicate Unused(rows: seq<Row>, icmp: bool, port: nat)
  {
    forall i :: 0 <= i < |rows| ==> !(InClass(rows[i], icmp) && rows[i].ltePort == port)
  }

  ghost predicate TxOk(rows: seq<Row>, tx: Tx)
  {
    match tx
    case Ready => true
    case Crashed => true
    case Chosen(flow, _) => flow.Valid() && Absent(rows, flow)
    case Ported(flow, _, l) =>
      flow.Valid() && Absent(rows, flow) && Unused(rows, flow.protocol == ICMP, l) && PortInRange(flow.protocol, l, |rows|)
  }

  // History

  /** The flow for which port `l` of a class was allocated last. */
  function LastAllocation(log: seq<LogEntry>, icmp: bool, l: u16): Option<Flow>
  {
    if log == [] then None
    else
      var e := log[|log| - 1];
      if e.Sent? && e.added && (e.flow.protocol == ICMP) == icmp && e.ltePort == l then Some(e.flow)
      else LastAllocation(log[..|log| - 1], icmp, l)
  }

  function FlowOf(r: Row): Flow
  {
    Flow(r.protocol, r.clientIp, r.ethPort, r.serverIp)
  }

  ghost predicate Backed(r: Row, log: seq<LogEntry>)
  {
    r.Live() ==> LastAllocation(log, r.protocol == ICMP, r.ltePort) == Some(FlowOf(r))
  }

  /** What a log entry says, given the entries before it. */
  ghost predicate EntryOk(before: seq<LogEntry>, e: LogEntry)
  {
    match e
    case Sent(flow, l, _, true) => true
    case Sent(flow, l, _, false) =>
      (match LastAllocation(before, flow.protocol == ICMP, l)
       case None => false
       case Some(f) => f.protocol == flow.protocol && f.clientIp == flow.clientIp && f.ethPort == flow.ethPort &&
                       (flow.protocol == TCP ==> f.serverIp == flow.serverIp))
    case Delivered(p, sip, l, cip, port) =>
      LastAllocation(before, p == ICMP, l) == Some(Flow(p, cip, port, sip))
  }

  ghost predicate LogOk(log: seq<LogEntry>)
  {
    forall k :: 0 <= k < |log| ==> EntryOk(log[..k], log[k])
  }

  ghost predicate TableInv(rows: seq<Row>)
  {
    Unique(rows) && forall i :: 0 <= i < |rows| ==> RowOk(rows[i], |rows|)
  }

  ghost predicate Inv(s: State)
  {
    Sized(s) && TableInv(s.rows) && TxOk(s.rows, s.tx) && LogOk(s.log) &&
    forall i :: 0 <= i < |s.rows| ==> Backed(s.rows[i], s.log)
  }

  // Steps that only shrink the table

  lemma ShrinksTransitive(a: seq<Row>, b: seq<Row>, c: seq<Row>)
    requires Shrinks(a, b) && Shrinks(b, c)
    ensures Shrinks(a, c)
  {
  }

  lemma ShrinkKeepsTable(rows: seq<Row>, rows': seq<Row>)
    requires TableInv(rows) && Shrinks(rows, rows')
    ensures TableInv(rows')
  {
  }

  lemma ShrinkKeepsTx(rows: seq<Row>, rows': seq<Row>, tx: Tx)
    requires Shrinks(rows, rows') && TxOk(rows, tx)
    ensures TxOk(rows', tx)
  {
  }

  lemma LastAllocationAppend(log: seq<LogEntry>, e: LogEntry, icmp: bool, l: u16)
    ensures LastAllocation(log + [e], icmp, l) ==
            if e.Sent? && e.added && (e.flow.protocol == ICMP) == icmp && e.ltePort == l then Some(e.flow)
            else LastAllocation(log, icmp, l)
  {
  }

  lemma LogAppend(log: seq<LogEntry>, e: LogEntry)
    requires LogOk(log) && EntryOk(log, e)
    ensures LogOk(log + [e])
  {
    forall k | 0 <= k < |log| + 1
      ensures EntryOk((log + [e])[..k], (log + [e])[k])
    {
      assert (log + [e])[..k] == log[..k];
      if k == |log| {
        assert log[..k] == log;
      }
    }
  }

  /** The log grows by at most one entry that allocates nothing, and rows only go. */
  ghost predicate Quiet(s: State, s': State)
  {
    Sized(s') && Shrinks(s.rows, s'.rows) && TxOk(s'.rows, s'.tx) &&
    (s'.log == s.log ||
     (|s'.log| == |s.log| + 1 && s'.log == s.log + [s'.log[|s.log|]] &&
      EntryOk(s.log, s'.log[|s.log|]) && !(s'.log[|s.log|].Sent? && s'.log[|s.log|].added)))
  }

  lemma QuietKeepsInv(s: State, s': State)
    requires Inv(s) && Quiet(s, s')
    ensures Inv(s')
  {
    ShrinkKeepsTable(s.rows, s'.rows);
    if s'.log != s.log {
      LogAppend(s.log, s'.log[|s.log|]);
    }
    forall i | 0 <= i < |s'.rows|
      ensures Backed(s'.rows[i], s'.log)
    {
      var r := s'.rows[i];
      assert Kept(s.rows[i], r) && Backed(s.rows[i], s.log);
      if r.Live() && s'.log != s.log {
        LastAllocationAppend(s.log, s'.log[|s.log|], r.protocol == ICMP, r.ltePort);
      }
    }
  }

  /** A row found by a query was in the table before, with the same flow and port, and is backed by the log. */
  lemma FoundIsBacked(s: State, rows': seq<Row>, i: nat)
    requires Inv(s) && Shrinks(s.rows, rows') && i < |rows'| && rows'[i].Live()
    ensures LastAllocation(s.log, rows'[i].protocol == ICMP, rows'[i].ltePort) == Some(FlowOf(rows'[i]))
  {
  }
}
