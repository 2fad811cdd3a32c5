/**
 * The port map as the gateway keeps it: a static array changed in place, and the search position
 * of the port generators. Each table function is one atomic step at one clock reading.
 */
module PortMaps {
  import opened Bytes
  import opened PortTable

  class PortMap {
    const row: array<Row>
    var portSeq: nat

    /** The largest port, 32768 + 4N, is a 16-bit number. */
    ghost predicate Valid()
      reads this
    {
      PMAP_BASE_PORT + row.Length * 4 < 0x1_0000 && portSeq <= row.Length * 4
    }

    constructor (rows: nat)
      requires PMAP_BASE_PORT + rows * 4 < 0x1_0000
      ensures Valid() && fresh(row) && row.Length == rows && portSeq == 0
      ensures row[..] == seq(rows, _ => Row(0, 0, 0, 0, 0, NoUart, 0))
    {
      row := new Row[rows](_ => Row(0, 0, 0, 0, 0, NoUart, 0));
      portSeq := 0;
    }

    /** `__gc_pmap` */
    method GcPmap(now: u32)
      modifies row
      ensures row[..] == Gc(old(row[..]), now)
    {
      for i := 0 to row.Length
        invariant forall k :: 0 <= k < i ==> row[k] == GcRow(old(row[k]), now)
        invariant forall k :: i <= k < row.Length ==> row[k] == old(row[k])
      {
        if Expired(row[i], now) {
          row[i] := Freed(row[i]);
        }
      }
    }

    /** `search_pmap_by_server_info`, `search_pmap_for_tcp`, `search_pmap_by_client_info`, `update_pmap_by_client_info` */
    method Search(q: Query, now: u32) returns (found: nat)
      requires q != Empty
      modifies row
      ensures (row[..], found) == Lookup(old(row[..]), q, now)
    {
      GcPmap(now);
      ghost var live := row[..];
      found := FirstMatch(q);
      if found < row.Length {
        row[found] := row[found].(ts := now);
      }
      assert row[..] == Refresh(live, found, now);
    }

    /** The scan that all of them run, and `search_pmap_empty` after its collection. */
    method FirstMatch(q: Query) returns (i: nat)
      ensures i == First(row[..], q)
    {
      i := 0;
      while i < row.Length && !q.Matches(row[i])
        invariant i <= row.Length
        invariant forall j :: 0 <= j < i ==> !q.Matches(row[..][j])
      {
        i := i + 1;
      }
      FirstIs(row[..], q, i);
    }

    /** `add_pmap`: the size of the table stands for the null result. */
    method AddPmap(protocol: byte, clientIp: u32, ethPort: u16, serverIp: u32, ltePort: u16, uart: Uart, now: u32)
      returns (at: nat)
      modifies row
      ensures (row[..], at) == Insert(old(row[..]), Row(protocol, clientIp, ethPort, serverIp, ltePort, uart, 0), now)
    {
      GcPmap(now);
      GcIdempotent(row[..], now);
      GcIdempotent(old(row[..]), now);
      GcPmap(now);
      at := FirstMatch(Empty);
      if at < row.Length {
        row[at] := Row(protocol, clientIp, ethPort, serverIp, ltePort, uart, now);
      }
    }

    /** The inner loop of the generators. */
    method IsDuplicate(icmp: bool, tmp: nat) returns (dup: bool)
      ensures dup <==> tmp in UsedPorts(row[..], icmp)
    {
      dup := false;
      UsedPortsAre(row[..], icmp, tmp);
      for i := 0 to row.Length
        invariant forall k :: 0 <= k < i ==> !(InClass(row[k], icmp) && row[k].ltePort == tmp)
      {
        if InClass(row[i], icmp) && row[i].ltePort == tmp {
          assert row[..][i] == row[i];
          return true;
        }
      }
      assert forall k :: 0 <= k < row.Length ==> row[..][k] == row[k];
    }

    method NextSeq()
      requires Valid()
      modifies this`portSeq
      ensures Valid() && portSeq == Candidate(old(portSeq), 0, row.Length * 4 + 1)
    {
      CyclicStep(portSeq, row.Length * 4 + 1);
      portSeq := (portSeq + 1) % (row.Length * 4 + 1);
    }

    /** One turn of the generators' loop: it either rejects candidate number `tries` or has found the result. */
    method TryNext(icmp: bool, ghost seq0: nat, ghost tries: nat) returns (port: u16, dup: bool)
      requires Valid() && seq0 <= row.Length * 4
      requires Searching(row[..], icmp, seq0, tries)
      requires portSeq == if tries == 0 then seq0 else Candidate(seq0, tries - 1, Candidates(row[..]))
      modifies this`portSeq
      ensures Valid() && portSeq == Candidate(seq0, tries, Candidates(row[..]))
      ensures if dup then Searching(row[..], icmp, seq0, tries + 1) else (portSeq, port as nat) == Generate(row[..], icmp, seq0)
    {
      SearchContinues(row[..], icmp, seq0, tries);
      NextSeq();
      port := portSeq + if icmp then 0 else PMAP_BASE_PORT;
      dup := IsDuplicate(icmp, port);
    }

    /**
     * `lte_port_genarator` and `lte_port_genarator_icmp_echo`. The loop has no bound of its own;
     * it ends because no more candidates can be rejected than ports are in use.
     */
    method GeneratePort(icmp: bool) returns (port: u16)
      requires Valid()
      modifies this`portSeq
      ensures Valid()
      ensures (portSeq, port as nat) == Generate(row[..], icmp, old(portSeq))
    {
      ghost var seq0, tries := portSeq, 0;
      SearchBegins(row[..], icmp, seq0);
      var dup;
      port, dup := TryNext(icmp, seq0, 0);
      while dup
        invariant Valid() && tries < Candidates(row[..]) && portSeq == Candidate(seq0, tries, Candidates(row[..]))
        invariant if dup then Searching(row[..], icmp, seq0, tries + 1) else (portSeq, port as nat) == Generate(row[..], icmp, seq0)
        decreases Candidates(row[..]) - tries, dup
      {
        tries := tries + 1;
        port, dup := TryNext(icmp, seq0, tries);
      }
    }
  }
}
