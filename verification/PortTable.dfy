/**
 * The port map as a value: rows, lookups, expiry, and the two port generators of
 * `hdr_portmap.cpp`. This is the table of Network Address Port Translation (section 2.2 of RFC 3022).
 * The table size is a parameter; the gateway is built with 1800 rows.
 */
module PortTable {
  import opened Bytes
  import opened Clock

  const PMAP_BASE_PORT := 32768
  const PMAP_TIMEOUT_MS: u32 := 20 * 1000
  const MAX_PMAP_ROWS := 1800

  const TCP: byte := 0x06
  const UDP: byte := 0x11
  const ICMP: byte := 0x01

  datatype Uart = NoUart | Uart1 | Uart2 | Uart3

  /** Protocol 0 marks a free row. */
  datatype Row = Row(protocol: byte, clientIp: u32, ethPort: u16, serverIp: u32, ltePort: u16, uart: Uart, ts: u32)
  {
    predicate Live()
    {
      protocol != 0
    }

    /** ICMP identifiers are allocated apart from TCP and UDP ports. */
    predicate SameClass(other: Row)
    {
      (protocol == ICMP) == (other.protocol == ICMP)
    }

    predicate SameKey(other: Row)
    {
      protocol == other.protocol && clientIp == other.clientIp && ethPort == other.ethPort &&
      (protocol == TCP ==> serverIp == other.serverIp)
    }

    /** Everything except the device and the time stamp. */
    predicate SameFlow(other: Row)
    {
      protocol == other.protocol && clientIp == other.clientIp && ethPort == other.ethPort &&
      serverIp == other.serverIp && ltePort == other.ltePort
    }
  }

  // Expiry

  function Freed(r: Row): Row
  {
    Row(0, 0, 0, 0, 0, NoUart, r.ts)
  }

  predicate Expired(r: Row, now: u32)
  {
    r.Live() && IsTimeout(PMAP_TIMEOUT_MS, r.ts, now)
  }

  function GcRow(r: Row, now: u32): Row
  {
    if Expired(r, now) then Freed(r) else r
  }

  function Gc(rows: seq<Row>, now: u32): (r: seq<Row>)
    ensures |r| == |rows|
    ensures forall i :: 0 <= i < |rows| ==> r[i] == GcRow(rows[i], now)
  {
    seq(|rows|, i requires 0 <= i < |rows| => GcRow(rows[i], now))
  }

  // Lookups

  datatype Query =
    | ForTcp(clientIp: u32, serverIp: u32, ethPort: u16)
    | ByClient(protocol: byte, clientIp: u32, ethPort: u16)
    | ByServer(protocol: byte, serverIp: u32, ltePort: u16)
    | Empty
  {
    predicate Matches(r: Row)
    {
      match this
      case ForTcp(c, s, e) => r.protocol == TCP && r.serverIp == s && r.clientIp == c && r.ethPort == e
      case ByClient(p, c, e) => r.Live() && r.protocol == p && r.clientIp == c && r.ethPort == e
      case ByServer(p, s, l) => r.Live() && r.protocol == p && r.serverIp == s && r.ltePort == l
      case Empty => !r.Live()
    }
  }

  /** The first matching row, or the size of the table. */
  function First(rows: seq<Row>, q: Query): (i: nat)
    ensures i <= |rows|
    ensures i < |rows| ==> q.Matches(rows[i])
    ensures forall j :: 0 <= j < i ==> !q.Matches(rows[j])
  {
    if |rows| == 0 || q.Matches(rows[0]) then 0
    else
      var i := First(rows[1..], q);
      assert forall j :: 0 < j < i + 1 ==> rows[j] == rows[1..][j - 1];
      i + 1
  }

  lemma FirstIs(rows: seq<Row>, q: Query, i: nat)
    requires i <= |rows| && (i < |rows| ==> q.Matches(rows[i]))
    requires forall j :: 0 <= j < i ==> !q.Matches(rows[j])
    ensures First(rows, q) == i
  {
  }

  function Refresh(rows: seq<Row>, i: nat, now: u32): seq<Row>
    requires i <= |rows|
  {
    if i < |rows| then rows[i := rows[i].(ts := now)] else rows
  }

  /** Collect, find the first match, refresh it: the body of every `search_pmap_*` and `update_pmap_*`. */
  function Lookup(rows: seq<Row>, q: Query, now: u32): (seq<Row>, nat)
  {
    var live := Gc(rows, now);
    var i := First(live, q);
    (Refresh(live, i, now), i)
  }

  /** A lookup finds a row if and only if one matches that has not expired. */
  lemma FoundExactlyWhen(rows: seq<Row>, q: Query, now: u32)
    requires q != Empty
    ensures Lookup(rows, q, now).1 < |rows| <==> exists i :: 0 <= i < |rows| && !Expired(rows[i], now) && q.Matches(rows[i])
  {
    var live := Gc(rows, now);
    var f := First(live, q);
    if f < |live| {
      assert q.Matches(live[f]) && live[f] == rows[f];
    } else {
      forall i | 0 <= i < |rows| && !Expired(rows[i], now)
        ensures !q.Matches(rows[i])
      {
        assert live[i] == rows[i];
      }
    }
  }

  function Insert(rows: seq<Row>, row: Row, now: u32): (seq<Row>, nat)
  {
    var live := Gc(rows, now);
    var i := First(live, Empty);
    (if i < |live| then live[i := row.(ts := now)] else live, i)
  }

  lemma GcIdempotent(rows: seq<Row>, now: u32)
    ensures Gc(Gc(rows, now), now) == Gc(rows, now)
  {
  }

  // Port generators

  /** The number of candidates: port_seq runs through 0 .. 4N. */
  function Candidates(rows: seq<Row>): nat
  {
    |rows| * 4 + 1
  }

  predicate InClass(r: Row, icmp: bool)
  {
    r.Live() && (r.protocol == ICMP) == icmp
  }

  /** Live rows of one class. */
  function ClassSize(rows: seq<Row>, icmp: bool): (n: nat)
    ensures n <= |rows|
  {
    if rows == [] then 0 else (if InClass(rows[0], icmp) then 1 else 0) + ClassSize(rows[1..], icmp)
  }

  function UsedPorts(rows: seq<Row>, icmp: bool): (used: set<int>)
    ensures |used| <= ClassSize(rows, icmp)
  {
    if rows == [] then {}
    else
      var rest := UsedPorts(rows[1..], icmp);
      if InClass(rows[0], icmp) then {rows[0].ltePort as int} + rest else rest
  }

  lemma {:induction false} UsedPortsAre(rows: seq<Row>, icmp: bool, p: int)
    ensures p in UsedPorts(rows, icmp) <==> exists i :: 0 <= i < |rows| && InClass(rows[i], icmp) && rows[i].ltePort == p
  {
    if rows != [] {
      UsedPortsAre(rows[1..], icmp, p);
      if p in UsedPorts(rows[1..], icmp) {
        var i :| 0 <= i < |rows[1..]| && InClass(rows[1..][i], icmp) && rows[1..][i].ltePort == p;
        assert rows[i + 1] == rows[1..][i];
      }
      forall i | 0 < i < |rows| && InClass(rows[i], icmp) && rows[i].ltePort == p
        ensures p in UsedPorts(rows[1..], icmp)
      {
        assert rows[1..][i - 1] == rows[i];
      }
    }
  }

  /** The `k`-th candidate after `portSeq`, counting from 0, in the cyclic order of `(port_seq + 1) % candidates`. */
  function Candidate(portSeq: nat, k: nat, candidates: nat): (c: nat)
    requires portSeq < candidates && k < candidates
    ensures c < candidates
  {
    var c := portSeq + 1 + k;
    if c < candidates then c else c - candidates
  }

  lemma CyclicStep(portSeq: nat, candidates: nat)
    requires portSeq < candidates
    ensures (portSeq + 1) % candidates == Candidate(portSeq, 0, candidates)
  {
  }

  /** How many candidates the search rejects before it stops; the bound is proved below. */
  function Rejected(used: set<int>, base: nat, portSeq: nat, candidates: nat, k: nat): (r: nat)
    requires portSeq < candidates && k <= candidates
    ensures k <= r <= candidates
    decreases candidates - k
  {
    if k == candidates || base + Candidate(portSeq, k, candidates) !in used then k
    else Rejected(used, base, portSeq, candidates, k + 1)
  }

  lemma {:induction false} RejectedAreUsed(used: set<int>, base: nat, portSeq: nat, candidates: nat, k: nat)
    requires portSeq < candidates && k <= candidates
    ensures var r := Rejected(used, base, portSeq, candidates, k);
            (forall j :: k <= j < r ==> base + Candidate(portSeq, j, candidates) in used) &&
            (r < candidates ==> base + Candidate(portSeq, r, candidates) !in used)
    decreases candidates - k
  {
    if k < candidates && base + Candidate(portSeq, k, candidates) in used {
      RejectedAreUsed(used, base, portSeq, candidates, k + 1);
    }
  }

  /** The rejected candidates are as many different used ports. */
  lemma {:induction false} RejectedAreDistinct(used: set<int>, base: nat, portSeq: nat, candidates: nat, r: nat) returns (seen: set<int>)
    requires portSeq < candidates && r <= candidates
    requires forall j :: 0 <= j < r ==> base + Candidate(portSeq, j, candidates) in used
    ensures seen <= used && |seen| == r
    ensures forall p :: p in seen <==> exists j :: 0 <= j < r && p == base + Candidate(portSeq, j, candidates)
  {
    if r == 0 {
      seen := {};
    } else {
      seen := RejectedAreDistinct(used, base, portSeq, candidates, r - 1);
      var p := base + Candidate(portSeq, r - 1, candidates);
      seen := seen + {p};
    }
  }

  lemma SubsetSize<T>(a: set<T>, b: set<T>)
    requires a <= b
    ensures |a| <= |b|
  {
    assert b == a + (b - a);
  }

  /**
   * By pigeonhole the search stops: it rejects no more candidates than there are ports in use in
   * its class, hence no more than there are live rows in the class, whatever the table holds and wherever `port_seq` stands.
   */
  lemma SearchStops(rows: seq<Row>, icmp: bool, base: nat, portSeq: nat)
    requires portSeq < Candidates(rows)
    ensures Rejected(UsedPorts(rows, icmp), base, portSeq, Candidates(rows), 0) <= ClassSize(rows, icmp) < Candidates(rows)
  {
    var used := UsedPorts(rows, icmp);
    var r := Rejected(used, base, portSeq, Candidates(rows), 0);
    RejectedAreUsed(used, base, portSeq, Candidates(rows), 0);
    var seen := RejectedAreDistinct(used, base, portSeq, Candidates(rows), r);
    SubsetSize(seen, used);
  }

  /** Next `port_seq` and the port generated: an identifier for ICMP, a port from 32768 on otherwise. */
  function Generate(rows: seq<Row>, icmp: bool, portSeq: nat): (r: (nat, nat))
    requires portSeq < Candidates(rows)
    ensures r.0 < Candidates(rows)
    ensures r.1 == (if icmp then 0 else PMAP_BASE_PORT) + r.0
    ensures r.1 !in UsedPorts(rows, icmp)
  {
    var base := if icmp then 0 else PMAP_BASE_PORT;
    var k := Rejected(UsedPorts(rows, icmp), base, portSeq, Candidates(rows), 0);
    SearchStops(rows, icmp, base, portSeq);
    RejectedAreUsed(UsedPorts(rows, icmp), base, portSeq, Candidates(rows), 0);
    var next := Candidate(portSeq, k, Candidates(rows));
    (next, base + next)
  }

  /** `x` comes after `a` and before `b` in the cyclic order of the candidates. */
  predicate Between(a: nat, x: nat, b: nat, candidates: nat)
  {
    x < candidates && if a < b then a < x < b else a < x || x < b
  }

  /** The port generated is the next one after the last that is not in use: every candidate passed over is in use. */
  lemma GeneratesNext(rows: seq<Row>, icmp: bool, portSeq: nat, x: nat)
    requires portSeq < Candidates(rows)
    requires Between(portSeq, x, Generate(rows, icmp, portSeq).0, Candidates(rows))
    ensures exists i :: 0 <= i < |rows| && rows[i].Live() && (rows[i].protocol == ICMP <==> icmp) &&
                        rows[i].ltePort == x + if icmp then 0 else 32768
  {
    var n, base := Candidates(rows), if icmp then 0 else PMAP_BASE_PORT;
    var used := UsedPorts(rows, icmp);
    var j: nat := if portSeq < x then x - portSeq - 1 else n + x - portSeq - 1;
    assert Candidate(portSeq, j, n) == x;
    RejectedAreUsed(used, base, portSeq, n, 0);
    SearchStops(rows, icmp, base, portSeq);
    assert j < Rejected(used, base, portSeq, n, 0);
    UsedPortsAre(rows, icmp, base + x);
  }

  /** An ICMP identifier can be 0: the search accepts any candidate that is not in use. */
  lemma IcmpIdentifierZero(rows: seq<Row>)
    requires 0 !in UsedPorts(rows, true)
    ensures Generate(rows, true, 4 * |rows|) == (0, 0)
  {
  }

  /** The search has rejected `k` candidates and looks at the next one. */
  ghost predicate Searching(rows: seq<Row>, icmp: bool, portSeq: nat, k: nat)
    requires portSeq < Candidates(rows)
  {
    var base := if icmp then 0 else PMAP_BASE_PORT;
    k < Candidates(rows) &&
    Rejected(UsedPorts(rows, icmp), base, portSeq, Candidates(rows), k) ==
    Rejected(UsedPorts(rows, icmp), base, portSeq, Candidates(rows), 0)
  }

  lemma SearchBegins(rows: seq<Row>, icmp: bool, portSeq: nat)
    requires portSeq < Candidates(rows)
    ensures Searching(rows, icmp, portSeq, 0)
  {
  }

  lemma SearchContinues(rows: seq<Row>, icmp: bool, portSeq: nat, k: nat)
    requires portSeq < Candidates(rows) && Searching(rows, icmp, portSeq, k)
    ensures var base := if icmp then 0 else PMAP_BASE_PORT;
            var c := Candidate(portSeq, k, Candidates(rows));
            if base + c in UsedPorts(rows, icmp) then Searching(rows, icmp, portSeq, k + 1)
            else Generate(rows, icmp, portSeq) == (c, base + c)
  {
    SearchStops(rows, icmp, if icmp then 0 else PMAP_BASE_PORT, portSeq);
  }
}
