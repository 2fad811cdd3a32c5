/**
 * The translation against true time: rows expire exactly after 20 seconds without use, a row that is
 * in use keeps its port (and, for TCP, its link), and a reply within 20 seconds finds its client.
 */
module NatTiming {
  import opened Bytes
  import opened Clock
  import opened PortTable
  import opened UartChoice
  import opened NatMachine
  import opened NatInvariant
  import opened NatSafety

  ghost predicate StampOk(r: Row, stamp: nat, clock: nat)
  {
    r.Live() ==> r.ts == Millis(stamp) && stamp <= clock && clock - stamp < PMAP_TIMEOUT_MS
  }

  ghost predicate TimeInv(s: State)
  {
    Sized(s) && forall i :: 0 <= i < |s.rows| ==> StampOk(s.rows[i], s.stamps[i], s.clock)
  }

  /** Time does not go back, and collections are at most 2^32 ms less the timeout apart. */
  predicate Timely(clock: nat, e: Event)
  {
    e.GeneratePort? || (clock <= e.at && e.at - clock <= WRAP - PMAP_TIMEOUT_MS)
  }

  /** The collection of a step frees a row exactly when it has truly been idle for 20 seconds. */
  lemma ExpiresExactly(s: State, at: nat, i: nat)
    requires TimeInv(s) && i < |s.rows| && s.rows[i].Live()
    requires s.clock <= at && at - s.clock <= WRAP - PMAP_TIMEOUT_MS
    ensures Expired(s.rows[i], Millis(at)) <==> at - s.stamps[i] >= PMAP_TIMEOUT_MS
  {
  }

  lemma FindKeepsTime(s: State, q: Query, at: nat)
    requires TimeInv(s) && q != Empty && s.clock <= at && at - s.clock <= WRAP - PMAP_TIMEOUT_MS
    ensures TimeInv(Find(s, q, at).0)
  {
    var (s1, f) := Find(s, q, at);
    forall i | 0 <= i < |s1.rows|
      ensures StampOk(s1.rows[i], s1.stamps[i], s1.clock)
    {
      assert StampOk(s.rows[i], s.stamps[i], s.clock);
      if s1.rows[i].Live() {
        ExpiresExactly(s, at, i);
      }
    }
  }

  lemma CollectKeepsTime(s: State, at: nat)
    requires TimeInv(s) && s.clock <= at && at - s.clock <= WRAP - PMAP_TIMEOUT_MS
    ensures TimeInv(Next(s, Collect(at)))
  {
    var s1 := Next(s, Collect(at));
    forall i | 0 <= i < |s1.rows|
      ensures StampOk(s1.rows[i], s1.stamps[i], s1.clock)
    {
      assert StampOk(s.rows[i], s.stamps[i], s.clock);
      if s.rows[i].Live() {
        ExpiresExactly(s, at, i);
      }
    }
  }

  lemma {:induction false} AddKeepsTime(s: State, at: nat)
    requires TimeInv(s) && s.tx.Ported? && s.clock <= at && at - s.clock <= WRAP - PMAP_TIMEOUT_MS
    ensures TimeInv(Next(s, AddRow(at)))
  {
    var s1 := Next(s, AddRow(at));
    CollectKeepsTime(s, at);
    var c := Next(s, Collect(at));
    forall i | 0 <= i < |s1.rows|
      ensures StampOk(s1.rows[i], s1.stamps[i], s1.clock)
    {
      assert StampOk(c.rows[i], c.stamps[i], c.clock);
    }
  }

  lemma SetUartKeepsTime(s: State, i: nat, uart: Uart)
    requires TimeInv(s) && i < |s.rows|
    ensures TimeInv(SetUart(s, i, uart))
  {
  }

  lemma {:induction false} UplinkKeepsTime(s: State, flow: Flow, ready: Readiness, at: nat)
    requires TimeInv(s) && s.clock <= at && at - s.clock <= WRAP - PMAP_TIMEOUT_MS && flow.Valid()
    ensures TimeInv(UplinkStep(s, flow, ready, at))
  {
    var (s1, i) := Find(s, flow.Key(), at);
    var q := ByClient(flow.protocol, flow.clientIp, flow.ethPort);
    FindKeepsTime(s, flow.Key(), at);
    if i < |s1.rows| {
      if flow.protocol == TCP {
        FindKeepsTime(s1, q, at);
      } else if Choose(s1.cntr, ready).Some? {
        SetUartKeepsTime(s1, i, Choose(s1.cntr, ready).value);
        FindKeepsTime(SetUart(s1, i, Choose(s1.cntr, ready).value), q, at);
      }
    }
  }

  lemma {:induction false} StepKeepsTime(s: State, e: Event)
    requires TimeInv(s) && Timely(s.clock, e)
    ensures TimeInv(Next(s, e))
    ensures Next(s, e).clock == s.clock || (!e.GeneratePort? && Next(s, e).clock == e.at)
  {
    match e
    case Uplink(flow, ready, at) =>
      if s.tx == Ready && flow.Valid() {
        UplinkKeepsTime(s, flow, ready, at);
      }
    case GeneratePort =>
    case AddRow(at) =>
      if s.tx.Ported? {
        AddKeepsTime(s, at);
      }
    case Downlink(p, sip, l, at) => FindKeepsTime(s, ByServer(p, sip, l), at);
    case Collect(at) => CollectKeepsTime(s, at);
  }

  ghost predicate TimelyRun(s: State, es: seq<Event>)
    requires Sized(s)
    decreases |es|
  {
    es == [] || (Timely(s.clock, es[0]) && TimelyRun(Next(s, es[0]), es[1..]))
  }

  lemma {:induction false} RunKeepsTime(s: State, es: seq<Event>)
    requires TimeInv(s) && TimelyRun(s, es)
    ensures TimeInv(Run(s, es))
    decreases |es|
  {
    if es != [] {
      StepKeepsTime(s, es[0]);
      RunKeepsTime(Next(s, es[0]), es[1..]);
    }
  }

  /**
   * Over any number of wraps of the 32-bit clock: in every run whose collections are close enough
   * together, the next collection frees a live row if and only if 20 seconds have
   * really passed since its last use.
   */
  lemma ExpiryAgreesWithRealTime(n: nat, es: seq<Event>, at: nat, i: nat)
    requires PMAP_BASE_PORT + n * 4 < 0x1_0000 && TimelyRun(Init(n), es)
    requires var s := Run(Init(n), es); i < n && s.rows[i].Live() && Timely(s.clock, Collect(at))
    ensures var s := Run(Init(n), es);
            !Next(s, Collect(at)).rows[i].Live() <==> at - s.stamps[i] >= 20_000
  {
    RunKeepsTime(Init(n), es);
    ExpiresExactly(Run(Init(n), es), at, i);
  }

  // Rows in use

  /** Row `i` is in use and will not have been idle for 20 seconds when the event happens. */
  predicate Survives(s: State, e: Event, i: nat)
    requires Sized(s)
  {
    i < |s.rows| && s.rows[i].Live() && Timely(s.clock, e) &&
    (e.GeneratePort? || e.at - s.stamps[i] < PMAP_TIMEOUT_MS)
  }

  predicate Faithful(r: Row, r': Row)
  {
    r'.Live() && r.SameFlow(r') && (r.protocol == TCP ==> r'.uart == r.uart)
  }

  lemma FindKeepsRow(s: State, q: Query, at: nat, i: nat)
    requires TimeInv(s) && q != Empty && Survives(s, Collect(at), i)
    ensures var s1 := Find(s, q, at).0;
            Sized(s1) && i < |s1.rows| && Faithful(s.rows[i], s1.rows[i]) && s1.rows[i].uart == s.rows[i].uart &&
            s.stamps[i] <= s1.stamps[i]
  {
    ExpiresExactly(s, at, i);
  }

  lemma {:induction false} UplinkKeepsRow(s: State, flow: Flow, ready: Readiness, at: nat, i: nat)
    requires TimeInv(s) && Survives(s, Collect(at), i) && flow.Valid()
    ensures var s1 := UplinkStep(s, flow, ready, at);
            Sized(s1) && i < |s1.rows| && Faithful(s.rows[i], s1.rows[i]) && s.stamps[i] <= s1.stamps[i]
  {
    var (s1, f) := Find(s, flow.Key(), at);
    var q := ByClient(flow.protocol, flow.clientIp, flow.ethPort);
    FindKeepsTime(s, flow.Key(), at);
    FindKeepsRow(s, flow.Key(), at, i);
    FindFinds(s, flow.Key(), at);
    if f < |s1.rows| {
      if flow.protocol == TCP {
        FindKeepsRow(s1, q, at, i);
      } else {
        ClientHitKeepsRow(s1, f, flow, ready, at, i);
      }
    }
  }

  lemma ClientHitKeepsRow(s: State, f: nat, flow: Flow, ready: Readiness, at: nat, i: nat)
    requires TimeInv(s) && Survives(s, Collect(at), i) && f < |s.rows| && s.rows[f].protocol != TCP
    ensures var s1 := ClientHit(s, f, flow, ready, at);
            Sized(s1) && i < |s1.rows| && Faithful(s.rows[i], s1.rows[i]) && s.stamps[i] <= s1.stamps[i]
  {
    if Choose(s.cntr, ready).Some? {
      var uart := Choose(s.cntr, ready).value;
      SetUartKeepsTime(s, f, uart);
      FindKeepsRow(SetUart(s, f, uart), ByClient(flow.protocol, flow.clientIp, flow.ethPort), at, i);
    }
  }

  lemma {:induction false} StepKeepsRow(s: State, e: Event, i: nat)
    requires TimeInv(s) && Survives(s, e, i)
    ensures var s' := Next(s, e);
            i < |s'.rows| && Faithful(s.rows[i], s'.rows[i]) && s.stamps[i] <= s'.stamps[i]
  {
    match e
    case Uplink(flow, ready, at) =>
      if s.tx == Ready && flow.Valid() {
        UplinkKeepsRow(s, flow, ready, at, i);
      }
    case GeneratePort =>
    case AddRow(at) =>
      if s.tx.Ported? {
        ExpiresExactly(s, at, i);
        var live := Gc(s.rows, Millis(at));
        assert !Empty.Matches(live[i]);
      }
    case Downlink(p, sip, l, at) => FindKeepsRow(s, ByServer(p, sip, l), at, i);
    case Collect(at) => ExpiresExactly(s, at, i);
  }

  ghost predicate SurvivesRun(s: State, es: seq<Event>, i: nat)
    requires Sized(s)
    decreases |es|
  {
    es == [] || (Survives(s, es[0], i) && SurvivesRun(Next(s, es[0]), es[1..], i))
  }

  /** Two rows that answer the same flow are the same row. */
  lemma KeyIsUnique(rows: seq<Row>, flow: Flow, i: nat, j: nat)
    requires TableInv(rows) && flow.Valid() && i < |rows| && j < |rows|
    requires flow.Key().Matches(rows[i]) && flow.Key().Matches(rows[j])
    ensures i == j
  {
  }

  /** What one step adds to the log about the flow of row `i`. */
  ghost predicate Consistent(r: Row, e: LogEntry)
  {
    e.Sent? && e.flow.Key().Matches(r) ==> e.ltePort == r.ltePort && (r.protocol == TCP ==> e.uart == r.uart)
  }

  lemma UplinkIsConsistent(s: State, flow: Flow, ready: Readiness, at: nat, i: nat)
    requires Inv(s) && TimeInv(s) && Survives(s, Collect(at), i) && flow.Valid() && flow.Key().Matches(s.rows[i])
    ensures var s1 := UplinkStep(s, flow, ready, at);
            s1.log == s.log || (exists uart :: s1.log == s.log + [Sent(flow, s.rows[i].ltePort, uart, false)] &&
                                               (s.rows[i].protocol == TCP ==> uart == s.rows[i].uart))
  {
    var (s1, f) := Find(s, flow.Key(), at);
    FindKeepsTime(s, flow.Key(), at);
    FindKeepsRow(s, flow.Key(), at, i);
    FindShrinks(s, flow.Key(), at);
    ShrinkKeepsTable(s.rows, s1.rows);
    FindFinds(s, flow.Key(), at);
    if f < |s1.rows| {
      KeyIsUnique(s1.rows, flow, f, i);
      var q := ByClient(flow.protocol, flow.clientIp, flow.ethPort);
      if flow.protocol == TCP {
        FindKeepsRow(s1, q, at, i);
      } else if Choose(s1.cntr, ready).Some? {
        var uart := Choose(s1.cntr, ready).value;
        SetUartKeepsTime(s1, f, uart);
        FindKeepsRow(SetUart(s1, f, uart), q, at, i);
      }
    } else {
      MissIsAbsent(s, flow, at);
    }
  }

  lemma StepIsConsistent(s: State, e: Event, i: nat)
    requires Inv(s) && TimeInv(s) && Survives(s, e, i)
    ensures var s' := Next(s, e);
            s'.log == s.log || (s'.log == s.log + [s'.log[|s.log|]] && Consistent(s.rows[i], s'.log[|s.log|]))
  {
    match e
    case Uplink(flow, ready, at) =>
      if s.tx == Ready && flow.Valid() {
        UplinkIsQuiet(s, flow, ready, at);
        SentFlow(s, flow, ready, at);
        if flow.Key().Matches(s.rows[i]) {
          UplinkIsConsistent(s, flow, ready, at, i);
        }
      }
    case GeneratePort =>
    case AddRow(at) =>
    case Downlink(p, sip, l, at) =>
    case Collect(at) =>
  }

  lemma SentFlow(s: State, flow: Flow, ready: Readiness, at: nat)
    requires Sized(s) && flow.Valid()
    ensures var s' := UplinkStep(s, flow, ready, at);
            s'.log == s.log || (|s'.log| == |s.log| + 1 && s'.log[|s.log|].Sent? && s'.log[|s.log|].flow == flow)
  {
  }

  /**
   * Flow affinity. As long as a row is in use, every uplink packet of its flow leaves on its port,
   * and for TCP on its link, whatever else happens in between.
   */
  lemma {:induction false} FlowAffinity(s: State, es: seq<Event>, i: nat)
    requires Inv(s) && TimeInv(s) && i < |s.rows| && s.rows[i].Live() && SurvivesRun(s, es, i)
    ensures var s' := Run(s, es);
            Inv(s') && TimeInv(s') && Faithful(s.rows[i], s'.rows[i]) && s.stamps[i] <= s'.stamps[i] &&
            s.log <= s'.log && forall k :: |s.log| <= k < |s'.log| ==> Consistent(s.rows[i], s'.log[k])
    decreases |es|
  {
    if es != [] {
      var s1 := Next(s, es[0]);
      StepKeepsInv(s, es[0]);
      StepKeepsTime(s, es[0]);
      StepKeepsRow(s, es[0], i);
      StepIsConsistent(s, es[0], i);
      FlowAffinity(s1, es[1..], i);
      var s' := Run(s, es);
      forall k | |s.log| <= k < |s'.log|
        ensures Consistent(s.rows[i], s'.log[k])
      {
        if k < |s1.log| {
          assert s'.log[k] == s1.log[k];
        } else {
          assert Consistent(s1.rows[i], s'.log[k]);
        }
      }
    }
  }

  // Replies

  /** A run whose events all happen before `deadline`. */
  ghost predicate Before(clock: nat, es: seq<Event>, deadline: nat)
    decreases |es|
  {
    es == [] ||
    (if es[0].GeneratePort? then Before(clock, es[1..], deadline)
     else clock <= es[0].at < deadline && Before(es[0].at, es[1..], deadline))
  }

  lemma {:induction false} BeforeIsMonotone(clock: nat, later: nat, es: seq<Event>, deadline: nat)
    requires Before(later, es, deadline) && clock <= later
    ensures Before(clock, es, deadline)
    decreases |es|
  {
    if es != [] && es[0].GeneratePort? {
      BeforeIsMonotone(clock, later, es[1..], deadline);
    }
  }

  lemma {:induction false} InUseSurvives(s: State, es: seq<Event>, i: nat, deadline: nat)
    requires TimeInv(s) && i < |s.rows| && s.rows[i].Live()
    requires deadline <= s.stamps[i] + PMAP_TIMEOUT_MS && Before(s.clock, es, deadline)
    ensures SurvivesRun(s, es, i)
    ensures Run(s, es).clock <= s.clock || Run(s, es).clock < deadline
    decreases |es|
  {
    if es != [] {
      var s1 := Next(s, es[0]);
      assert s.stamps[i] <= s.clock by { assert StampOk(s.rows[i], s.stamps[i], s.clock); }
      StepKeepsTime(s, es[0]);
      StepKeepsRow(s, es[0], i);
      if !es[0].GeneratePort? && s1.clock == s.clock {
        BeforeIsMonotone(s.clock, es[0].at, es[1..], deadline);
      }
      InUseSurvives(s1, es[1..], i, deadline);
    }
  }

  /** A reverse lookup of a row in use finds that row. */
  lemma DownlinkFinds(s: State, i: nat, at: nat)
    requires Inv(s) && TimeInv(s) && Survives(s, Collect(at), i)
    ensures var r := s.rows[i];
            Find(s, ByServer(r.protocol, r.serverIp, r.ltePort), at).1 == i &&
            var s1 := DownlinkStep(s, r.protocol, r.serverIp, r.ltePort, at);
            s1.log == s.log + [Delivered(r.protocol, r.serverIp, r.ltePort, r.clientIp, r.ethPort)] &&
            s1.stamps == s.stamps[i := at]
  {
  }

  // Refreshes

  /** A packet of row `i` in either direction, at a moment at which its task is free to handle it. */
  predicate Touches(s: State, e: Event, i: nat)
    requires i < |s.rows|
  {
    match e
    case Uplink(flow, _, _) => s.tx == Ready && flow.Valid() && flow.Key().Matches(s.rows[i])
    case Downlink(p, sip, l, _) => p == s.rows[i].protocol && sip == s.rows[i].serverIp && l == s.rows[i].ltePort
    case _ => false
  }

  /** Such a packet gives the row another 20 seconds, whether it is sent on or not. */
  lemma TouchRefreshes(s: State, e: Event, i: nat)
    requires Inv(s) && TimeInv(s) && Survives(s, e, i) && Touches(s, e, i)
    ensures Next(s, e).stamps[i] == e.at
  {
    match e
    case Uplink(flow, ready, at) => UplinkRefreshes(s, flow, ready, at, i);
    case Downlink(p, sip, l, at) => DownlinkFinds(s, i, at);
    case _ =>
  }

  lemma UplinkRefreshes(s: State, flow: Flow, ready: Readiness, at: nat, i: nat)
    requires Inv(s) && TimeInv(s) && Survives(s, Collect(at), i) && flow.Valid() && flow.Key().Matches(s.rows[i])
    ensures UplinkStep(s, flow, ready, at).stamps[i] == at
  {
    var (s1, f) := Find(s, flow.Key(), at);
    FindKeepsRow(s, flow.Key(), at, i);
    FindShrinks(s, flow.Key(), at);
    ShrinkKeepsTable(s.rows, s1.rows);
    FindFinds(s, flow.Key(), at);
    if f < |s1.rows| {
      KeyIsUnique(s1.rows, flow, f, i);
    } else {
      MissIsAbsent(s, flow, at);
    }
  }

  /** Never 20 seconds between a packet of the row and the next event; `last` is the time of its last packet so far. */
  ghost predicate UsedOften(s: State, es: seq<Event>, i: nat, last: nat)
    requires Sized(s) && i < |s.rows|
    decreases |es|
  {
    es == [] ||
    ((es[0].GeneratePort? || s.clock <= es[0].at < last + PMAP_TIMEOUT_MS) &&
     UsedOften(Next(s, es[0]), es[1..], i, if Touches(s, es[0], i) then es[0].at else last))
  }

  /** The time of the last packet of the row. */
  ghost function LastUse(s: State, es: seq<Event>, i: nat, last: nat): nat
    requires Sized(s) && i < |s.rows|
    decreases |es|
  {
    if es == [] then last else LastUse(Next(s, es[0]), es[1..], i, if Touches(s, es[0], i) then es[0].at else last)
  }

  /** A row whose packets, in either direction, come less than 20 seconds apart stays in use, whatever else happens. */
  lemma {:induction false} PacketsKeepRowInUse(s: State, es: seq<Event>, i: nat, last: nat)
    requires Inv(s) && TimeInv(s) && i < |s.rows| && s.rows[i].Live() && last <= s.stamps[i]
    requires UsedOften(s, es, i, last)
    ensures SurvivesRun(s, es, i) && LastUse(s, es, i, last) <= Run(s, es).stamps[i]
    decreases |es|
  {
    if es != [] {
      var e, s1 := es[0], Next(s, es[0]);
      assert StampOk(s.rows[i], s.stamps[i], s.clock);
      StepKeepsInv(s, e);
      StepKeepsTime(s, e);
      StepKeepsRow(s, e, i);
      if Touches(s, e, i) {
        TouchRefreshes(s, e, i);
        PacketsKeepRowInUse(s1, es[1..], i, e.at);
      } else {
        PacketsKeepRowInUse(s1, es[1..], i, last);
      }
    }
  }

  // Deliveries

  /**
   * A packet from the modem to the port of a live row is delivered exactly when it comes from the server
   * recorded in the row and the row has not been idle for 20 seconds. A UDP or ICMP row keeps the
   * server of its first packet, so no other server that the client writes to from the
   * same port is ever heard.
   */
  lemma DeliveredExactlyWhen(s: State, i: nat, serverIp: u32, at: nat)
    requires Inv(s) && TimeInv(s) && i < |s.rows| && s.rows[i].Live() && Timely(s.clock, Collect(at))
    ensures var r := s.rows[i];
            DownlinkStep(s, r.protocol, serverIp, r.ltePort, at).log != s.log <==>
            serverIp == r.serverIp && at - s.stamps[i] < 20_000
  {
    var r := s.rows[i];
    var q := ByServer(r.protocol, serverIp, r.ltePort);
    var live := Gc(s.rows, Millis(at));
    ExpiresExactly(s, at, i);
    if serverIp == r.serverIp && at - s.stamps[i] < PMAP_TIMEOUT_MS {
      DownlinkFinds(s, i, at);
    } else {
      forall j | 0 <= j < |live|
        ensures !q.Matches(live[j])
      {
        assert j != i ==> !Conflict(s.rows[j], s.rows[i]);
      }
      FirstIs(live, q, |live|);
    }
  }

  /**
   * A packet of an existing TCP flow refreshes its own row, and then the first row of the same client and
   * port, which is another one exactly when the client has an earlier row to a different server.
   * No other row is refreshed.
   */
  lemma TcpHitRefreshes(s: State, flow: Flow, ready: Readiness, at: nat, k: nat)
    requires Sized(s) && flow.Valid() && flow.protocol == TCP && k < |s.rows|
    requires Find(s, flow.Key(), at).1 < |s.rows|
    ensures var i := Find(s, flow.Key(), at).1;
            var j := First(Gc(s.rows, Millis(at)), ByClient(TCP, flow.clientIp, flow.ethPort));
            var s' := UplinkStep(s, flow, ready, at);
            j <= i && s'.stamps[k] == (if k == i || k == j then at else s.stamps[k]) &&
            s'.rows[k].ts == (if k == i || k == j then Millis(at) else s.rows[k].ts)
  {
    var live := Gc(s.rows, Millis(at));
    var (s1, i) := Find(s, flow.Key(), at);
    var q := ByClient(TCP, flow.clientIp, flow.ethPort);
    var j := First(live, q);
    assert q.Matches(live[i]);
    assert j <= i;
    var live1 := Gc(s1.rows, Millis(at));
    RefreshedStays(live, i, at);
    assert live1 == s1.rows;
    FirstIs(live1, q, j);
  }

  /** A packet of a UDP or ICMP row refreshes that row and no other, and may move that row and no other to another link. */
  lemma ClientHitRefreshes(s: State, flow: Flow, ready: Readiness, at: nat, k: nat)
    requires Sized(s) && flow.Valid() && flow.protocol != TCP && k < |s.rows|
    requires Find(s, flow.Key(), at).1 < |s.rows|
    ensures var i := Find(s, flow.Key(), at).1;
            var s' := UplinkStep(s, flow, ready, at);
            s'.stamps[k] == (if k == i then at else s.stamps[k]) &&
            s'.rows[k].ts == (if k == i then Millis(at) else s.rows[k].ts) &&
            (k != i && s'.rows[k].Live() ==> s'.rows[k].uart == s.rows[k].uart)
  {
    var (s1, i) := Find(s, flow.Key(), at);
    ClientHitMoves(s1, Gc(s.rows, Millis(at)), i, flow, ready, at);
  }

  lemma ClientHitMoves(s: State, live: seq<Row>, i: nat, flow: Flow, ready: Readiness, at: nat)
    requires i < |live| && s.rows == Refresh(live, i, Millis(at)) && |s.stamps| == |s.rows| && s.stamps[i] == at
    requires First(live, ByClient(flow.protocol, flow.clientIp, flow.ethPort)) == i
    requires forall k :: 0 <= k < |live| ==> !Expired(live[k], Millis(at))
    ensures var s1 := ClientHit(s, i, flow, ready, at);
            s1.stamps == s.stamps && exists uart :: s1.rows == s.rows[i := s.rows[i].(uart := uart)]
  {
    match Choose(s.cntr, ready)
    case None => assert s.rows == s.rows[i := s.rows[i].(uart := s.rows[i].uart)];
    case Some(uart) =>
      MovedIsFoundAgain(live, i, ByClient(flow.protocol, flow.clientIp, flow.ethPort), uart, at);
      assert SetUart(s, i, uart).rows == live[i := live[i].(ts := Millis(at), uart := uart)];
      assert s.stamps[i := at] == s.stamps;
  }

  /** The second lookup of such a packet finds the same row, and frees nothing. */
  lemma MovedIsFoundAgain(live: seq<Row>, i: nat, q: Query, uart: Uart, at: nat)
    requires i < |live| && q.ByClient? && First(live, q) == i && forall k :: 0 <= k < |live| ==> !Expired(live[k], Millis(at))
    ensures var rows := live[i := live[i].(ts := Millis(at), uart := uart)];
            Lookup(rows, q, Millis(at)) == (rows, i)
  {
    var rows := live[i := live[i].(ts := Millis(at), uart := uart)];
    assert Gc(rows, Millis(at)) == rows;
    FirstIs(rows, q, i);
    assert rows[i].(ts := Millis(at)) == rows[i];
    assert Refresh(rows, i, Millis(at)) == rows;
  }

  /** Collecting again at the same instant frees nothing. */
  lemma RefreshedStays(live: seq<Row>, i: nat, at: nat)
    requires i < |live| && forall k :: 0 <= k < |live| ==> !Expired(live[k], Millis(at))
    ensures Gc(Refresh(live, i, Millis(at)), Millis(at)) == Refresh(live, i, Millis(at))
  {
  }

  /** The row behind a packet that has just left. */
  ghost predicate Serves(s: State, i: nat, flow: Flow, ltePort: u16, uart: Uart)
  {
    Sized(s) && i < |s.rows| && s.rows[i].Live() && s.rows[i].ltePort == ltePort && s.rows[i].uart == uart &&
    s.rows[i].protocol == flow.protocol && s.rows[i].clientIp == flow.clientIp && s.rows[i].ethPort == flow.ethPort &&
    (flow.protocol == TCP ==> s.rows[i].serverIp == flow.serverIp) && s.stamps[i] == s.clock
  }

  lemma SentByUplinkHasRow(s: State, flow: Flow, ready: Readiness, at: nat) returns (i: nat)
    requires TimeInv(s) && Timely(s.clock, Collect(at)) && flow.Valid()
    requires UplinkStep(s, flow, ready, at).log != s.log
    ensures var s' := UplinkStep(s, flow, ready, at);
            |s'.log| == |s.log| + 1 && s'.log[|s.log|].Sent? && Serves(s', i, flow, s'.log[|s.log|].ltePort, s'.log[|s.log|].uart)
  {
    var (s1, f) := Find(s, flow.Key(), at);
    FindKeepsTime(s, flow.Key(), at);
    FindFinds(s, flow.Key(), at);
    i := f;
    var q := ByClient(flow.protocol, flow.clientIp, flow.ethPort);
    if flow.protocol == TCP {
      FindAgain(s1, q, at, i);
    } else {
      var uart := Choose(s1.cntr, ready).value;
      FindAgain(SetUart(s1, i, uart), q, at, i);
    }
  }

  lemma SentHasRow(s: State, e: Event) returns (i: nat)
    requires Inv(s) && TimeInv(s) && Timely(s.clock, e)
    requires var log := Next(s, e).log; |log| == |s.log| + 1 && log[|s.log|].Sent?
    ensures var s' := Next(s, e);
            var sent := s'.log[|s.log|];
            Serves(s', i, sent.flow, sent.ltePort, sent.uart) &&
            (sent.flow.protocol == TCP || sent.added ==> s'.rows[i].serverIp == sent.flow.serverIp)
  {
    i := 0;
    match e
    case Uplink(flow, ready, at) =>
      SentFlow(s, flow, ready, at);
      i := SentByUplinkHasRow(s, flow, ready, at);
    case AddRow(at) =>
      i := First(Gc(s.rows, Millis(at)), Empty);
    case _ =>
  }

  /** The reverse lookup works for as long as the row has never been idle for 20 seconds. */
  lemma RowInUseAnswers(s: State, i: nat, es: seq<Event>, at: nat)
    requires Inv(s) && TimeInv(s) && i < |s.rows| && s.rows[i].Live() && SurvivesRun(s, es, i)
    requires Survives(Run(s, es), Collect(at), i)
    ensures var r := s.rows[i];
            var s' := Run(s, es);
            var s1 := DownlinkStep(s', r.protocol, r.serverIp, r.ltePort, at);
            s1.log == s'.log + [Delivered(r.protocol, r.serverIp, r.ltePort, r.clientIp, r.ethPort)] &&
            s1.stamps == s'.stamps[i := at]
  {
    FlowAffinity(s, es, i);
    DownlinkFinds(Run(s, es), i, at);
  }

  lemma {:induction false} ReplyInTime(s: State, i: nat, flow: Flow, ltePort: u16, uart: Uart, es: seq<Event>, at: nat)
    requires Inv(s) && TimeInv(s) && Serves(s, i, flow, ltePort, uart)
    requires Before(s.clock, es, s.clock + PMAP_TIMEOUT_MS)
    requires Run(s, es).clock <= at < s.clock + PMAP_TIMEOUT_MS
    ensures SurvivesRun(s, es, i) && Survives(Run(s, es), Collect(at), i)
    ensures var s' := Run(s, es);
            DownlinkStep(s', flow.protocol, s.rows[i].serverIp, ltePort, at).log ==
              s'.log + [Delivered(flow.protocol, s.rows[i].serverIp, ltePort, flow.clientIp, flow.ethPort)]
  {
    InUseSurvives(s, es, i, s.clock + PMAP_TIMEOUT_MS);
    FlowAffinity(s, es, i);
    ClockAdvances(s, es);
    RowInUseAnswers(s, i, es, at);
  }

  lemma {:induction false} ClockAdvances(s: State, es: seq<Event>)
    requires Sized(s) && Before(s.clock, es, s.clock + PMAP_TIMEOUT_MS)
    ensures Run(s, es).clock >= s.clock
  {
    ClockAtLeast(s, es, s.clock, s.clock + PMAP_TIMEOUT_MS);
  }

  lemma {:induction false} ClockAtLeast(s: State, es: seq<Event>, low: nat, deadline: nat)
    requires Sized(s) && low <= s.clock && Before(low, es, deadline)
    ensures Run(s, es).clock >= low
    decreases |es|
  {
    if es != [] {
      var s1 := Next(s, es[0]);
      if !es[0].GeneratePort? {
        BeforeIsMonotone(low, es[0].at, es[1..], deadline);
      }
      ClockAtLeast(s1, es[1..], low, deadline);
    }
  }

  /**
   * Return path. A packet of a flow has just left on port `l`. Whatever happens in the next
   * 20 seconds, a packet from the recorded server to that port is
   * delivered to the client and port the flow came from.
   */
  lemma ReplyReachesClient(s: State, e: Event, s1: State, sent: LogEntry, es: seq<Event>, at: nat) returns (i: nat)
    requires Inv(s) && TimeInv(s) && Timely(s.clock, e)
    requires s1 == Next(s, e) && s1.log == s.log + [sent] && sent.Sent?
    requires Before(s1.clock, es, s1.clock + PMAP_TIMEOUT_MS)
    requires Run(s1, es).clock <= at < s1.clock + PMAP_TIMEOUT_MS
    ensures Serves(s1, i, sent.flow, sent.ltePort, sent.uart)
    ensures var s2 := Run(s1, es);
            DownlinkStep(s2, sent.flow.protocol, s1.rows[i].serverIp, sent.ltePort, at).log ==
              s2.log + [Delivered(sent.flow.protocol, s1.rows[i].serverIp, sent.ltePort, sent.flow.clientIp, sent.flow.ethPort)]
  {
    StepKeepsInv(s, e);
    StepKeepsTime(s, e);
    i := SentHasRow(s, e);
    ReplyInTime(s1, i, sent.flow, sent.ltePort, sent.uart, es, at);
  }
}
