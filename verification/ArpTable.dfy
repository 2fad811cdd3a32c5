/**
 * The ARP cache as a value, and the expiring map it stands for. The table knows 32-bit time stamps only
 * and has a fixed number of rows (96 in the gateway); the map keeps true times and forgets nothing.
 */
module ArpTable {
  import opened Bytes
  import opened Options
  import opened Clock

  const ARP_CACHE_TIMEOUT_MS: u32 := 20 * 60 * 1000

  type Mac = m: seq<byte> | |m| == 6 witness [0, 0, 0, 0, 0, 0]

  /** Address 0 marks a free row. */
  datatype ArpRow = ArpRow(ip: u32, mac: Mac, ts: u32)

  function GcRow(r: ArpRow, now: u32): ArpRow
  {
    if r.ip != 0 && IsTimeout(ARP_CACHE_TIMEOUT_MS, r.ts, now) then r.(ip := 0) else r
  }

  function Gc(rows: seq<ArpRow>, now: u32): (r: seq<ArpRow>)
    ensures |r| == |rows|
    ensures forall i :: 0 <= i < |rows| ==> r[i] == GcRow(rows[i], now)
  {
    seq(|rows|, i requires 0 <= i < |rows| => GcRow(rows[i], now))
  }

  /** The first row with this address field, or the size of the table. */
  function First(rows: seq<ArpRow>, ip: u32): (i: nat)
    ensures i <= |rows|
    ensures i < |rows| ==> rows[i].ip == ip
    ensures forall j :: 0 <= j < i ==> rows[j].ip != ip
  {
    if |rows| == 0 || rows[0].ip == ip then 0
    else
      var i := First(rows[1..], ip);
      assert forall j :: 0 < j < i + 1 ==> rows[j] == rows[1..][j - 1];
      i + 1
  }

  lemma FirstIs(rows: seq<ArpRow>, ip: u32, i: nat)
    requires i <= |rows| && (i < |rows| ==> rows[i].ip == ip)
    requires forall j :: 0 <= j < i ==> rows[j].ip != ip
    ensures First(rows, ip) == i
  {
  }

  /** `search_arp_cache_by_ip`: address 0 is never found. */
  function Find(rows: seq<ArpRow>, ip: u32, now: u32): (seq<ArpRow>, Option<Mac>)
  {
    var live := Gc(rows, now);
    var i := First(live, ip);
    (live, if ip != 0 && i < |live| then Some(live[i].mac) else None)
  }

  /** The row that an update takes: that of the address, else the first free row, else none. */
  function Target(live: seq<ArpRow>, ip: u32): (j: nat)
    ensures j <= |live|
  {
    var i := if ip == 0 then |live| else First(live, ip);
    if i < |live| then i else First(live, 0)
  }

  /** `update_arp_cache_by_ip` */
  function Update(rows: seq<ArpRow>, ip: u32, mac: Mac, now: u32): seq<ArpRow>
  {
    var live := Gc(rows, now);
    var j := Target(live, ip);
    if j < |live| then live[j := ArpRow(ip, mac, now)] else live
  }

  // The expiring map

  datatype Entry = Entry(mac: Mac, time: nat)

  predicate Recent(e: Entry, now: nat)
  {
    now < e.time + ARP_CACHE_TIMEOUT_MS
  }

  ghost function RecentKeys(m: map<u32, Entry>, now: nat): set<u32>
  {
    set k | k in m && Recent(m[k], now)
  }

  function MapFind(m: map<u32, Entry>, ip: u32, now: nat): Option<Mac>
  {
    if ip in m && Recent(m[ip], now) then Some(m[ip].mac) else None
  }

  /** An update is dropped only when its address is not among the recent ones and these fill the table. */
  ghost predicate Dropped(m: map<u32, Entry>, ip: u32, now: nat, n: nat)
  {
    ip == 0 || (ip !in RecentKeys(m, now) && |RecentKeys(m, now)| >= n)
  }

  ghost function MapUpdate(m: map<u32, Entry>, ip: u32, mac: Mac, now: nat, n: nat): map<u32, Entry>
  {
    if Dropped(m, ip, now, n) then m else m[ip := Entry(mac, now)]
  }

  // Refinement

  ghost predicate RowOk(r: ArpRow, m: map<u32, Entry>, clock: nat)
  {
    r.ip != 0 ==>
      r.ip in m && m[r.ip].mac == r.mac && r.ts == Millis(m[r.ip].time) && m[r.ip].time <= clock && Recent(m[r.ip], clock)
  }

  ghost predicate Distinct(rows: seq<ArpRow>)
  {
    forall i, j :: 0 <= i < j < |rows| && rows[i].ip != 0 ==> rows[i].ip != rows[j].ip
  }

  /** Live rows have distinct addresses, and are exactly the recent entries of the map. */
  ghost predicate Refines(rows: seq<ArpRow>, m: map<u32, Entry>, clock: nat)
  {
    Distinct(rows) && 0 !in m &&
    (forall i :: 0 <= i < |rows| ==> RowOk(rows[i], m, clock)) &&
    (forall k :: k in m && Recent(m[k], clock) ==> First(rows, k) < |rows|)
  }

  predicate Timely(clock: nat, at: nat)
  {
    clock <= at && at - clock <= WRAP - ARP_CACHE_TIMEOUT_MS
  }

  lemma {:induction false} GcRefines(rows: seq<ArpRow>, m: map<u32, Entry>, clock: nat, at: nat)
    requires Refines(rows, m, clock) && Timely(clock, at)
    ensures Refines(Gc(rows, Millis(at)), m, at)
  {
    var live := Gc(rows, Millis(at));
    forall i | 0 <= i < |rows|
      ensures RowOk(live[i], m, at)
      ensures rows[i].ip != 0 && Recent(m[rows[i].ip], at) ==> live[i] == rows[i]
    {
      assert RowOk(rows[i], m, clock);
      if rows[i].ip != 0 {
        ExpiryIsTrue(ARP_CACHE_TIMEOUT_MS, m[rows[i].ip].time, clock, at);
      }
    }
    assert Distinct(live);
    forall k | k in m && Recent(m[k], at)
      ensures First(live, k) < |live|
    {
      var i := First(rows, k);
      assert Recent(m[k], clock) && live[i].ip == k;
    }
  }

  lemma {:induction false} FindRefines(rows: seq<ArpRow>, m: map<u32, Entry>, clock: nat, ip: u32, at: nat)
    requires Refines(rows, m, clock) && Timely(clock, at)
    ensures var (rows', mac) := Find(rows, ip, Millis(at));
            Refines(rows', m, at) && mac == MapFind(m, ip, at)
  {
    GcRefines(rows, m, clock, at);
    var live := Gc(rows, Millis(at));
    var i := First(live, ip);
    if ip != 0 && i < |live| {
      assert RowOk(live[i], m, at);
    }
  }

  /** The number of recent entries is the number of live rows. */
  function LiveKeys(rows: seq<ArpRow>): set<u32>
  {
    if rows == [] then {}
    else LiveKeys(rows[1..]) + if rows[0].ip != 0 then {rows[0].ip} else {}
  }

  lemma {:induction false} LiveKeysAre(rows: seq<ArpRow>, k: u32)
    ensures k in LiveKeys(rows) <==> k != 0 && First(rows, k) < |rows|
  {
    if rows != [] {
      LiveKeysAre(rows[1..], k);
    }
  }

  lemma {:induction false} LiveKeysCount(rows: seq<ArpRow>)
    requires Distinct(rows)
    ensures |LiveKeys(rows)| <= |rows|
    ensures |LiveKeys(rows)| == |rows| <==> First(rows, 0) == |rows|
  {
    if rows != [] {
      assert Distinct(rows[1..]);
      LiveKeysCount(rows[1..]);
      LiveKeysAre(rows[1..], rows[0].ip);
      assert forall j :: 0 <= j < |rows[1..]| ==> rows[1..][j] == rows[j + 1];
    }
  }

  lemma FullExactlyWhen(rows: seq<ArpRow>, m: map<u32, Entry>, clock: nat)
    requires Refines(rows, m, clock)
    ensures |RecentKeys(m, clock)| >= |rows| <==> First(rows, 0) == |rows|
  {
    LiveKeysCount(rows);
    forall k: u32
      ensures k in LiveKeys(rows) <==> k in RecentKeys(m, clock)
    {
      LiveKeysAre(rows, k);
      if k != 0 && First(rows, k) < |rows| {
        assert RowOk(rows[First(rows, k)], m, clock);
      }
    }
    assert LiveKeys(rows) == RecentKeys(m, clock);
  }

  lemma {:induction false} StoreRefines(live: seq<ArpRow>, m: map<u32, Entry>, j: nat, ip: u32, mac: Mac, at: nat)
    requires Refines(live, m, at) && ip != 0 && j < |live|
    requires live[j].ip == ip || (live[j].ip == 0 && First(live, ip) == |live|)
    ensures Refines(live[j := ArpRow(ip, mac, Millis(at))], m[ip := Entry(mac, at)], at)
  {
    var rows' := live[j := ArpRow(ip, mac, Millis(at))];
    var m' := m[ip := Entry(mac, at)];
    forall i | 0 <= i < |live|
      ensures RowOk(rows'[i], m', at)
      ensures i != j ==> rows'[i].ip != ip
    {
      assert RowOk(live[i], m, at);
    }
    forall k | k in m' && Recent(m'[k], at)
      ensures First(rows', k) < |rows'|
    {
      if k == ip {
        assert rows'[j].ip == k;
      } else {
        assert First(live, k) < |live|;
        assert rows'[First(live, k)].ip == k;
      }
    }
  }

  lemma {:induction false} UpdateRefines(rows: seq<ArpRow>, m: map<u32, Entry>, clock: nat, ip: u32, mac: Mac, at: nat)
    requires Refines(rows, m, clock) && Timely(clock, at)
    ensures var rows' := Update(rows, ip, mac, Millis(at));
            |rows'| == |rows| && Refines(rows', MapUpdate(m, ip, mac, at, |rows|), at)
  {
    GcRefines(rows, m, clock, at);
    var live := Gc(rows, Millis(at));
    FullExactlyWhen(live, m, at);
    if ip == 0 {
      var j := First(live, 0);
      if j < |live| {
        FreeRowRefines(live, m, j, ArpRow(0, mac, Millis(at)), at);
      }
    } else {
      var i := First(live, ip);
      var j := if i < |live| then i else First(live, 0);
      if i < |live| {
        assert RowOk(live[i], m, at);
      }
      if j < |live| {
        StoreRefines(live, m, j, ip, mac, at);
      }
    }
  }

  /** What a free row holds does not matter. */
  lemma FreeRowRefines(live: seq<ArpRow>, m: map<u32, Entry>, j: nat, row: ArpRow, at: nat)
    requires Refines(live, m, at) && j < |live| && live[j].ip == 0 && row.ip == 0
    ensures Refines(live[j := row], m, at)
  {
    var rows' := live[j := row];
    forall i | 0 <= i < |live|
      ensures RowOk(rows'[i], m, at)
    {
      assert RowOk(live[i], m, at);
    }
    forall k | k in m && Recent(m[k], at)
      ensures First(rows', k) < |rows'|
    {
      assert rows'[First(live, k)].ip == k;
    }
  }

  // Runs

  datatype Op = UpdateOp(ip: u32, mac: Mac, at: nat) | FindOp(ip: u32, at: nat)

  function TableAfter(rows: seq<ArpRow>, ops: seq<Op>): seq<ArpRow>
  {
    if ops == [] then rows
    else
      var before := TableAfter(rows, ops[..|ops| - 1]);
      match ops[|ops| - 1]
      case UpdateOp(ip, mac, at) => Update(before, ip, mac, Millis(at))
      case FindOp(ip, at) => Find(before, ip, Millis(at)).0
  }

  ghost function MapAfter(n: nat, ops: seq<Op>): map<u32, Entry>
  {
    if ops == [] then map[]
    else
      var before := MapAfter(n, ops[..|ops| - 1]);
      match ops[|ops| - 1]
      case UpdateOp(ip, mac, at) => MapUpdate(before, ip, mac, at, n)
      case FindOp(ip, at) => before
  }

  /** The last update of this address that was not dropped. */
  ghost function Latest(n: nat, ops: seq<Op>, ip: u32): Option<nat>
  {
    if ops == [] then None
    else
      var k := |ops| - 1;
      if ops[k].UpdateOp? && ops[k].ip == ip && !Dropped(MapAfter(n, ops[..k]), ip, ops[k].at, n) then Some(k)
      else Latest(n, ops[..k], ip)
  }

  lemma {:induction false} MapHoldsLatest(n: nat, ops: seq<Op>, ip: u32)
    ensures match Latest(n, ops, ip)
            case None => ip !in MapAfter(n, ops)
            case Some(k) => k < |ops| && ops[k].UpdateOp? && ip in MapAfter(n, ops) &&
                            MapAfter(n, ops)[ip] == Entry(ops[k].mac, ops[k].at)
  {
    if ops != [] {
      MapHoldsLatest(n, ops[..|ops| - 1], ip);
    }
  }

  predicate TimelySeq(ops: seq<Op>)
  {
    ops == [] ||
    (TimelySeq(ops[..|ops| - 1]) && Timely(ClockAfter(ops[..|ops| - 1]), ops[|ops| - 1].at))
  }

  function ClockAfter(ops: seq<Op>): nat
  {
    if ops == [] then 0 else ops[|ops| - 1].at
  }

  lemma {:induction false} TableAfterRefines(rows: seq<ArpRow>, ops: seq<Op>)
    requires (forall i :: 0 <= i < |rows| ==> rows[i].ip == 0) && TimelySeq(ops)
    ensures |TableAfter(rows, ops)| == |rows| && Refines(TableAfter(rows, ops), MapAfter(|rows|, ops), ClockAfter(ops))
  {
    if ops != [] {
      var k := |ops| - 1;
      var before, m := TableAfter(rows, ops[..k]), MapAfter(|rows|, ops[..k]);
      TableAfterRefines(rows, ops[..k]);
      match ops[k]
      case UpdateOp(ip, mac, at) => UpdateRefines(before, m, ClockAfter(ops[..k]), ip, mac, at);
      case FindOp(ip, at) => FindRefines(before, m, ClockAfter(ops[..k]), ip, at);
    }
  }

  /**
   * After any sequence of operations, a lookup gives the MAC address of the latest update of that
   * address that was not dropped, if that update is less than 20 minutes old, and nothing otherwise.
   */
  lemma LookupGivesLatestUpdate(rows: seq<ArpRow>, ops: seq<Op>, ip: u32, at: nat)
    requires (forall i :: 0 <= i < |rows| ==> rows[i].ip == 0) && TimelySeq(ops) && Timely(ClockAfter(ops), at)
    ensures Find(TableAfter(rows, ops), ip, Millis(at)).1 ==
            match Latest(|rows|, ops, ip)
            case None => None
            case Some(k) => if k < |ops| && ops[k].UpdateOp? && at - ops[k].at < 1_200_000 then Some(ops[k].mac) else None
  {
    TableAfterRefines(rows, ops);
    FindRefines(TableAfter(rows, ops), MapAfter(|rows|, ops), ClockAfter(ops), ip, at);
    MapHoldsLatest(|rows|, ops, ip);
  }

  /**
   * An update of a real address is dropped, with a null result, exactly when its address is not among the
   * recent ones and these fill the table. No two live rows ever hold the same address.
   */
  lemma {:induction false} DroppedExactlyWhenFull(rows: seq<ArpRow>, ops: seq<Op>, ip: u32, at: nat)
    requires (forall i :: 0 <= i < |rows| ==> rows[i].ip == 0) && TimelySeq(ops) && Timely(ClockAfter(ops), at)
    requires ip != 0
    ensures var live := Gc(TableAfter(rows, ops), Millis(at));
            Distinct(live) &&
            (Target(live, ip) == |live| <==> Dropped(MapAfter(|rows|, ops), ip, at, |rows|))
  {
    var table, m := TableAfter(rows, ops), MapAfter(|rows|, ops);
    TableAfterRefines(rows, ops);
    GcRefines(table, m, ClockAfter(ops), at);
    var live := Gc(table, Millis(at));
    FullExactlyWhen(live, m, at);
    if First(live, ip) < |live| {
      assert RowOk(live[First(live, ip)], m, at);
    }
  }
}
