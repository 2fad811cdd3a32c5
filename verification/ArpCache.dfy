/** The ARP cache as the gateway keeps it: a static array expired, searched and overwritten in place. */
module ArpCaches {
  import opened Bytes
  import opened Options
  import opened Clock
  import opened ArpTable

  class ArpCache {
    const rows: array<ArpRow>

    constructor (n: nat)
      ensures fresh(rows) && rows.Length == n
      ensures forall i :: 0 <= i < n ==> rows[i].ip == 0
    {
      rows := new ArpRow[n](_ => ArpRow(0, [0, 0, 0, 0, 0, 0], 0));
    }

    /** `__gc_arp_cache` */
    method GcArpCache(now: u32)
      modifies rows
      ensures rows[..] == Gc(old(rows[..]), now)
    {
      for i := 0 to rows.Length
        invariant forall k :: 0 <= k < i ==> rows[k] == GcRow(old(rows[k]), now)
        invariant forall k :: i <= k < rows.Length ==> rows[k] == old(rows[k])
      {
        if rows[i].ip != 0 && IsTimeout(ARP_CACHE_TIMEOUT_MS, rows[i].ts, now) {
          rows[i] := rows[i].(ip := 0);
        }
      }
    }

    /** `search_arp_cache_by_ip`, with the MAC address that its callers copy out of the row. */
    method SearchArpCacheByIp(targetIp: u32, now: u32) returns (mac: Option<Mac>)
      modifies rows
      ensures (rows[..], mac) == Find(old(rows[..]), targetIp, now)
    {
      GcArpCache(now);
      var i := 0;
      while i < rows.Length
        invariant i <= rows.Length
        invariant rows[..] == Gc(old(rows[..]), now)
        invariant targetIp != 0 ==> forall j :: 0 <= j < i ==> rows[..][j].ip != targetIp
      {
        if rows[i].ip != 0 && rows[i].ip == targetIp {
          FirstIs(rows[..], targetIp, i);
          return Some(rows[i].mac);
        }
        i := i + 1;
      }
      if targetIp != 0 {
        FirstIs(rows[..], targetIp, rows.Length);
      }
      mac := None;
    }

    /**
     * `update_arp_cache_by_ip`: one pass that remembers the first free row on its way. The result is the index
     * of the row written, or the size of the table for the null result.
     */
    method UpdateArpCacheByIp(targetIp: u32, mac: Mac, now: u32) returns (at: nat)
      modifies rows
      ensures rows[..] == Update(old(rows[..]), targetIp, mac, now)
      ensures at == Target(Gc(old(rows[..]), now), targetIp)
    {
      GcArpCache(now);
      ghost var live := rows[..];
      var empty: nat := rows.Length;
      var i := 0;
      while i < rows.Length
        invariant i <= rows.Length && rows[..] == live
        invariant targetIp != 0 ==> forall j :: 0 <= j < i ==> live[j].ip != targetIp
        invariant forall j :: 0 <= j < i && j < empty ==> live[j].ip != 0
        invariant empty < rows.Length ==> empty < i && live[empty].ip == 0
        invariant empty <= rows.Length
      {
        if rows[i].ip == 0 {
          if empty == rows.Length {
            empty := i;
          }
        } else if rows[i].ip == targetIp {
          FirstIs(live, targetIp, i);
          rows[i] := ArpRow(rows[i].ip, mac, now);
          return i;
        }
        i := i + 1;
      }
      FirstIs(live, 0, empty);
      if targetIp != 0 {
        FirstIs(live, targetIp, rows.Length);
      }
      if empty < rows.Length {
        rows[empty] := ArpRow(targetIp, mac, now);
      }
      at := empty;
    }
  }
}
