/**
 * The rewrites as the two programs do them: in place, in a receive buffer that is longer than the packet, and with no
 * look at the packet's shape. The functions here say what happens to the whole buffer for any content;
 * on a packet of the right shape they are the rewrites of module `Packet`.
 */
module PacketEdit {
  import opened Bytes
  import opened Options
  import opened InternetChecksum
  import opened IpUtil
  import opened PortTable
  import opened PortMaps
  import opened Packet
  import opened PacketRewrite

  /** Room for the longest IP header and every field behind it that is written; both static buffers are far larger. */
  const ROOM := 78

  function HeaderSize(b: seq<byte>): (h: nat)
    requires |b| > 0
    ensures h <= 60
  {
    b[0] as int % 0x10 * 4
  }

  /** The pseudo header structure; its length field is a 16-bit difference. */
  function RawPseudo(b: seq<byte>, n: nat, hdr: nat): (h: seq<byte>)
    requires |b| >= ROOM
    ensures |h| == 12
  {
    var len := (n - hdr) % 0x1_0000;
    b[12..20] + [0, b[9], len / 0x100, len % 0x100]
  }

  /** The transport part that `ip_checksum2` is given: nothing when the header is longer than the packet. */
  function Segment(b: seq<byte>, n: nat, hdr: nat): seq<byte>
    requires n <= |b|
  {
    if hdr <= n then b[hdr..n] else []
  }

  /** What is stored once the field is cleared. */
  function RawSum(zeroed: seq<byte>, n: nat, hdr: nat): u16
    requires |zeroed| >= ROOM && n <= |zeroed|
  {
    Checksum(Joined(RawPseudo(zeroed, n, hdr), Segment(zeroed, n, hdr)))
  }

  function RawFillPort(b: seq<byte>, n: nat, hdr: nat, protocol: byte): (r: seq<byte>)
    requires |b| >= ROOM && n <= |b| && hdr <= 60
    ensures |r| == |b|
  {
    var at := hdr + ChecksumOffset(protocol);
    var zeroed := PutLe16(b, at, 0);
    PutLe16(zeroed, at, RawSum(zeroed, n, hdr))
  }

  /** What `forward_downlink_packet` leaves in the buffer. */
  function RawDownlink(b: seq<byte>, n: nat, clientIp: u32, ethPort: u16): (r: seq<byte>)
    requires |b| >= ROOM && n <= |b| && (IsPort(b[9]) || HeaderSize(b) <= n)
    ensures |r| == |b|
  {
    var hdr := HeaderSize(b);
    if IsPort(b[9]) then
      RawFillPort(PutBe16(WithChecksum(PutLe32(b, 16, clientIp), 0, hdr, 10), hdr + 2, ethPort), n, hdr, b[9])
    else
      WithChecksum(WithChecksum(PutLe32(PutBe16(b, hdr + 4, ethPort), 16, clientIp), 0, hdr, 10), hdr, n - hdr, 2)
  }

  /** What the modem's end-of-frame code leaves in the buffer. */
  function RawUplink(b: seq<byte>, n: nat, myAddr: u32): (r: seq<byte>)
    requires |b| >= ROOM && n <= |b| && (IsPort(b[9]) || HeaderSize(b) <= n)
    ensures |r| == |b|
  {
    var hdr := HeaderSize(b);
    var q := WithChecksum(PutLe32(b, 12, myAddr), 0, hdr, 10);
    if IsPort(b[9]) then RawFillPort(q, n, hdr, b[9]) else WithChecksum(q, hdr, n - hdr, 2)
  }

  // On packets of the right shape

  /** A store inside the packet is the same store in the packet's bytes. */
  lemma PutPrefix(b: seq<byte>, n: nat, i: nat, v: u16)
    requires i + 2 <= n <= |b|
    ensures PutLe16(b, i, v)[..n] == PutLe16(b[..n], i, v) && PutBe16(b, i, v)[..n] == PutBe16(b[..n], i, v)
  {
  }

  lemma WithChecksumPrefix(b: seq<byte>, n: nat, off: nat, len: nat, pos: nat)
    requires n <= |b| && off + len <= n && off + pos + 2 <= n
    ensures WithChecksum(b, off, len, pos)[..n] == WithChecksum(b[..n], off, len, pos)
  {
    var zeroed := PutLe16(b, off + pos, 0);
    PutPrefix(b, n, off + pos, 0);
    assert zeroed[..n][off..off + len] == zeroed[off..off + len];
    PutPrefix(b, n, off + pos, Checksum(zeroed[off..off + len]));
  }

  lemma PutLe32Prefix(b: seq<byte>, n: nat, i: nat, v: u32)
    requires i + 4 <= n <= |b|
    ensures PutLe32(b, i, v)[..n] == PutLe32(b[..n], i, v)
  {
    PutPrefix(b, n, i, v % 0x1_0000);
    PutPrefix(PutLe16(b, i, v % 0x1_0000), n, i + 2, v / 0x1_0000);
  }

  lemma SegmentPrefix(b: seq<byte>, n: nat)
    requires |b| >= ROOM && n <= |b| && n < 0x1_0000 && Shaped(b[..n])
    ensures Segment(b, n, HeaderLen(b[..n])) == Transport(b[..n])
    ensures RawPseudo(b, n, HeaderLen(b[..n])) == Pseudo(b[..n])
  {
    assert b[12..20] == b[..n][12..20];
  }

  lemma FillPortPrefix(b: seq<byte>, n: nat, hdr: nat)
    requires |b| >= ROOM && n <= |b| && n < 0x1_0000 && Shaped(b[..n]) && hdr == HeaderLen(b[..n]) && IsPort(b[9])
    ensures RawFillPort(b, n, hdr, b[9])[..n] == FillTransport(b[..n])
  {
    var at := ChecksumAt(b[..n]);
    SummedPrefix(b, n, hdr, at);
    StoreTwicePrefix(b, n, at, RawSum(PutLe16(b, at, 0), n, hdr));
    RawFillPortIs(b, n, hdr, b[9], at);
    FillTransportIs(b[..n], at);
  }

  lemma RawFillPortIs(b: seq<byte>, n: nat, hdr: nat, protocol: byte, at: nat)
    requires |b| >= ROOM && n <= |b| && hdr <= 60 && at == hdr + ChecksumOffset(protocol)
    ensures RawFillPort(b, n, hdr, protocol) == PutLe16(PutLe16(b, at, 0), at, RawSum(PutLe16(b, at, 0), n, hdr))
  {
  }

  lemma FillTransportIs(p: seq<byte>, at: nat)
    requires Shaped(p) && |p| < 0x1_0000 && IsPort(p[9]) && at == ChecksumAt(p) && Shaped(PutLe16(p, at, 0))
    ensures FillTransport(p) == PutLe16(PutLe16(p, at, 0), at, TransportSum(PutLe16(p, at, 0)))
  {
  }

  lemma StoreTwicePrefix(b: seq<byte>, n: nat, i: nat, v: u16)
    requires i + 2 <= n <= |b|
    ensures PutLe16(PutLe16(b, i, 0), i, v)[..n] == PutLe16(PutLe16(b[..n], i, 0), i, v)
  {
    PutPrefix(b, n, i, 0);
    PutPrefix(PutLe16(b, i, 0), n, i, v);
  }

  /** The bytes that are summed once the field is cleared. */
  lemma SummedPrefix(b: seq<byte>, n: nat, hdr: nat, at: nat)
    requires |b| >= ROOM && n <= |b| && n < 0x1_0000 && Shaped(b[..n]) && hdr == HeaderLen(b[..n]) && at == ChecksumAt(b[..n])
    ensures Shaped(PutLe16(b[..n], at, 0))
    ensures RawSum(PutLe16(b, at, 0), n, hdr) == TransportSum(PutLe16(b[..n], at, 0))
  {
    PutPrefix(b, n, at, 0);
    SameLayout(b[..n], PutLe16(b[..n], at, 0), at, at + 2);
    SegmentPrefix(PutLe16(b, at, 0), n);
  }

  lemma PortPrefix(b: seq<byte>, n: nat, i: nat, v: u16)
    requires |b| >= ROOM && n <= |b| && Shaped(b[..n]) && 10 <= i && i + 2 <= n
    ensures var q := PutBe16(b, i, v);
            q[..n] == PutBe16(b[..n], i, v) && Shaped(q[..n]) && HeaderLen(q[..n]) == HeaderLen(b[..n]) && q[9] == b[9]
  {
    PutPrefix(b, n, i, v);
    PutBe16Same(b[..n], i, v);
    SameLayout(b[..n], PutBe16(b, i, v)[..n], i, i + 2);
  }

  lemma AddressPrefix(b: seq<byte>, n: nat, i: nat, ip: u32)
    requires |b| >= ROOM && n <= |b| && Shaped(b[..n]) && 10 <= i <= 16
    ensures var q := PutLe32(b, i, ip);
            q[..n] == PutLe32(b[..n], i, ip) && Shaped(q[..n]) && HeaderLen(q[..n]) == HeaderLen(b[..n]) && q[9] == b[9]
  {
    PutLe32Prefix(b, n, i, ip);
    PutLe32Same(b[..n], i, ip);
    SameLayout(b[..n], PutLe32(b, i, ip)[..n], i, i + 4);
  }

  lemma HeaderPrefix(b: seq<byte>, n: nat, hdr: nat)
    requires |b| >= ROOM && n <= |b| && Shaped(b[..n]) && hdr == HeaderLen(b[..n])
    ensures var q := WithChecksum(b, 0, hdr, 10);
            q[..n] == FillHeader(b[..n]) && Shaped(q[..n]) && HeaderLen(q[..n]) == hdr && q[9] == b[9]
  {
    WithChecksumPrefix(b, n, 0, hdr, 10);
    FillHeaderIsValid(b[..n]);
    SameLayout(b[..n], FillHeader(b[..n]), 10, 12);
  }

  lemma MessagePrefix(b: seq<byte>, n: nat, hdr: nat)
    requires |b| >= ROOM && n <= |b| && n < 0x1_0000 && Shaped(b[..n]) && hdr == HeaderLen(b[..n]) && !IsPort(b[9])
    ensures WithChecksum(b, hdr, n - hdr, 2)[..n] == FillTransport(b[..n])
  {
    WithChecksumPrefix(b, n, hdr, n - hdr, 2);
  }

  /** Address and header checksum. */
  lemma HeadPrefix(b: seq<byte>, n: nat, hdr: nat, i: nat, ip: u32)
    requires |b| >= ROOM && n <= |b| && Shaped(b[..n]) && hdr == HeaderLen(b[..n]) && 10 <= i <= 16
    ensures Shaped(PutLe32(b[..n], i, ip))
    ensures var q := WithChecksum(PutLe32(b, i, ip), 0, hdr, 10);
            q[..n] == FillHeader(PutLe32(b[..n], i, ip)) && Shaped(q[..n]) && HeaderLen(q[..n]) == hdr && q[9] == b[9]
  {
    AddressPrefix(b, n, i, ip);
    HeaderPrefix(PutLe32(b, i, ip), n, hdr);
  }

  /** Port and transport checksum. */
  lemma TailPrefix(b: seq<byte>, n: nat, hdr: nat, i: nat, port: u16)
    requires |b| >= ROOM && n <= |b| && n < 0x1_0000 && Shaped(b[..n]) && hdr == HeaderLen(b[..n]) && IsPort(b[9])
    requires hdr <= i && i + 2 <= n
    ensures Shaped(PutBe16(b[..n], i, port))
    ensures RawFillPort(PutBe16(b, i, port), n, hdr, b[9])[..n] == FillTransport(PutBe16(b[..n], i, port))
  {
    PortPrefix(b, n, i, port);
    FillPortPrefix(PutBe16(b, i, port), n, hdr);
  }

  lemma RawDownlinkIs(b: seq<byte>, n: nat, hdr: nat, i: nat, clientIp: u32, ethPort: u16)
    requires |b| >= ROOM && n <= |b| && hdr == HeaderSize(b) <= n && i == hdr + if IsPort(b[9]) then 2 else 4
    ensures RawDownlink(b, n, clientIp, ethPort) ==
            if IsPort(b[9]) then
              RawFillPort(PutBe16(WithChecksum(PutLe32(b, 16, clientIp), 0, hdr, 10), i, ethPort), n, hdr, b[9])
            else
              WithChecksum(WithChecksum(PutLe32(PutBe16(b, i, ethPort), 16, clientIp), 0, hdr, 10), hdr, n - hdr, 2)
  {
  }

  lemma DownlinkPortPrefix(b: seq<byte>, n: nat, clientIp: u32, ethPort: u16)
    requires |b| >= ROOM && n <= |b| && n < 0x1_0000 && Shaped(b[..n]) && IsPort(b[9])
    ensures RawDownlink(b, n, clientIp, ethPort)[..n] == DownlinkRewrite(b[..n], clientIp, ethPort)
  {
    var hdr, i := HeaderLen(b[..n]), DstPortAt(b[..n]);
    HeadPrefix(b, n, hdr, 16, clientIp);
    TailPrefix(WithChecksum(PutLe32(b, 16, clientIp), 0, hdr, 10), n, hdr, i, ethPort);
    RawDownlinkIs(b, n, hdr, i, clientIp, ethPort);
  }

  lemma DownlinkIcmpPrefix(b: seq<byte>, n: nat, clientIp: u32, ethPort: u16)
    requires |b| >= ROOM && n <= |b| && n < 0x1_0000 && Shaped(b[..n]) && !IsPort(b[9])
    ensures RawDownlink(b, n, clientIp, ethPort)[..n] == DownlinkRewrite(b[..n], clientIp, ethPort)
  {
    var hdr, i := HeaderLen(b[..n]), DstPortAt(b[..n]);
    var q := PutBe16(b, i, ethPort);
    PortPrefix(b, n, i, ethPort);
    HeadPrefix(q, n, hdr, 16, clientIp);
    MessagePrefix(WithChecksum(PutLe32(q, 16, clientIp), 0, hdr, 10), n, hdr);
    RawDownlinkIs(b, n, hdr, i, clientIp, ethPort);
  }

  /** The in-place edits of the gateway are the downlink rewrite. */
  lemma RawDownlinkIsRewrite(b: seq<byte>, n: nat, clientIp: u32, ethPort: u16)
    requires |b| >= ROOM && n <= |b| && n < 0x1_0000 && Shaped(b[..n])
    ensures RawDownlink(b, n, clientIp, ethPort)[..n] == DownlinkRewrite(b[..n], clientIp, ethPort)
  {
    if IsPort(b[9]) {
      DownlinkPortPrefix(b, n, clientIp, ethPort);
    } else {
      DownlinkIcmpPrefix(b, n, clientIp, ethPort);
    }
  }

  /** The in-place edits of the modem are the modem's rewrite. */
  lemma RawUplinkIsRewrite(b: seq<byte>, n: nat, myAddr: u32)
    requires |b| >= ROOM && n <= |b| && n < 0x1_0000 && Shaped(b[..n])
    ensures RawUplink(b, n, myAddr)[..n] == ModemRewrite(b[..n], myAddr)
  {
    var hdr := HeaderLen(b[..n]);
    var q := WithChecksum(PutLe32(b, 12, myAddr), 0, hdr, 10);
    HeadPrefix(b, n, hdr, 12, myAddr);
    if IsPort(b[9]) {
      FillPortPrefix(q, n, hdr);
    } else {
      MessagePrefix(q, n, hdr);
    }
  }

  // In place

  method Store16Le(buffer: array<byte>, i: nat, v: u16)
    requires i + 2 <= buffer.Length
    modifies buffer
    ensures buffer[..] == PutLe16(old(buffer[..]), i, v)
  {
    buffer[i] := v % 0x100;
    buffer[i + 1] := v / 0x100;
  }

  method Store16Be(buffer: array<byte>, i: nat, v: u16)
    requires i + 2 <= buffer.Length
    modifies buffer
    ensures buffer[..] == PutBe16(old(buffer[..]), i, v)
  {
    buffer[i] := v / 0x100;
    buffer[i + 1] := v % 0x100;
  }

  /** `memcpy` of an address. */
  method Store32Le(buffer: array<byte>, i: nat, v: u32)
    requires i + 4 <= buffer.Length
    modifies buffer
    ensures buffer[..] == PutLe32(old(buffer[..]), i, v)
  {
    Store16Le(buffer, i, v % 0x1_0000);
    Store16Le(buffer, i + 2, v / 0x1_0000);
  }

  /** `ip_htons`: a little-endian store of the result has the high byte first in memory. */
  function IpHtons(v: u16): (r: u16)
    ensures r % 0x100 == v / 0x100 && r / 0x100 == v % 0x100
  {
    (v as int % 0x100) * 0x100 + v as int / 0x100
  }

  /** The pseudo header structure, field by field; its length field is stored by a little-endian machine. */
  method MakePseudo(buffer: array<byte>, length: u16, hdr: nat) returns (h: seq<byte>)
    requires buffer.Length >= ROOM && hdr <= 60
    ensures h == RawPseudo(buffer[..], length, hdr)
  {
    var ipLen := IpHtons((length - hdr) % 0x1_0000);
    h := buffer[12..16] + buffer[16..20] + [0, buffer[9]] + [ipLen % 0x100, ipLen / 0x100];
    assert buffer[12..16] + buffer[16..20] == buffer[..][12..20];
  }

  /** The TCP and UDP checksum; `is_udp` selects the field. */
  method CalcPortChecksum(buffer: array<byte>, length: u16, hdr: nat, protocol: byte)
    requires buffer.Length >= ROOM && length <= buffer.Length && hdr <= 60 && IsPort(protocol)
    modifies buffer
    ensures buffer[..] == RawFillPort(old(buffer[..]), length, hdr, protocol)
  {
    var at := hdr + if protocol == UDP then 6 else 16;
    Store16Le(buffer, at, 0);
    var h := MakePseudo(buffer, length, hdr);
    var data := if hdr <= length then buffer[hdr..length] else [];
    assert data == Segment(buffer[..], length, hdr);
    var cs := IpChecksum2(h, data);
    Store16Le(buffer, at, cs);
  }

  // The gateway's downlink

  /** What the frame receiver checks of a frame of `n` bytes before it hands it on. */
  predicate PassesFilter(b: seq<byte>, n: nat)
    requires |b| >= ROOM
  {
    n > 20 && (b[9] == ICMP || IsPort(b[9])) && Be16(b, 2) == n
  }

  const MIN_LENGTH := 21
  const MTU := 1280

  /** What `forward_downlink_packet` checks before it looks the first `n` bytes of the buffer up. */
  predicate Acceptable(b: seq<byte>, n: nat)
    requires |b| >= ROOM
  {
    MIN_LENGTH <= n <= MTU && Be16(b, 2) == n && Checksum(b[0..HeaderSize(b)]) == 0
  }

  /** The reverse lookup of a packet: by its source address and its destination port. */
  function ReverseQuery(b: seq<byte>): Query
    requires |b| >= ROOM
  {
    ByServer(b[9], Le32(b, 12), Be16(b, HeaderSize(b) + if IsPort(b[9]) then 2 else 4))
  }

  /** The code stays inside the buffer: an ICMP packet with a header longer than itself would be summed far beyond it. */
  predicate InBounds(b: seq<byte>, n: nat)
    requires |b| >= ROOM
  {
    n <= |b| && (IsPort(b[9]) || HeaderSize(b) <= n)
  }

  /** The new table and the packet for the Ethernet side. */
  function Forward(rows: seq<Row>, b: seq<byte>, n: nat, now: u32): (seq<Row>, Option<seq<byte>>)
    requires |b| >= ROOM && (Acceptable(b, n) ==> InBounds(b, n))
  {
    if !Acceptable(b, n) then (rows, None)
    else
      var (rows', i) := Lookup(rows, ReverseQuery(b), now);
      (rows', if i < |rows'| then Some(RawDownlink(b, n, rows'[i].clientIp, rows'[i].ethPort)[..n]) else None)
  }

  /** What becomes of a frame that a modem has sent. */
  function HandleFrame(rows: seq<Row>, b: seq<byte>, n: nat, now: u32): (seq<Row>, Option<seq<byte>>)
    requires |b| >= ROOM && (PassesFilter(b, n) && Acceptable(b, n) ==> InBounds(b, n))
  {
    if PassesFilter(b, n) then Forward(rows, b, n, now) else (rows, None)
  }

  /**
   * Nothing damaged reaches a client. A frame leads to a packet for the Ethernet side if and only if it has 21 to 1280
   * bytes, as many as its length field says, a header with a valid checksum, and one of the three protocols, and an
   * unexpired row has its protocol, source address and destination port or identifier.
   */
  lemma ForwardedExactlyWhen(rows: seq<Row>, b: seq<byte>, n: nat, now: u32)
    requires |b| >= ROOM && (PassesFilter(b, n) && Acceptable(b, n) ==> InBounds(b, n))
    ensures var hdr := b[0] as int % 0x10 * 4;
            var at := hdr + if b[9] == 0x01 then 4 else 2;
            HandleFrame(rows, b, n, now).1.Some? <==>
              21 <= n <= 1280 && 0x100 * b[2] as int + b[3] as int == n && Checksum(b[0..hdr]) == 0 &&
              (b[9] == 0x01 || b[9] == 0x06 || b[9] == 0x11) &&
              exists i :: 0 <= i < |rows| && !Expired(rows[i], now) && rows[i].protocol == b[9] &&
                          rows[i].serverIp == Le32(b, 12) && rows[i].ltePort == 0x100 * b[at] as int + b[at + 1] as int
  {
    if PassesFilter(b, n) && Acceptable(b, n) {
      FoundExactlyWhen(rows, ReverseQuery(b), now);
    }
  }

  /** On a packet of the right shape: exactly the reverse lookup of its source and destination port, and the rewrite. */
  lemma ForwardRewrites(rows: seq<Row>, b: seq<byte>, n: nat, now: u32)
    requires |b| >= ROOM && n <= |b| && Shaped(b[..n]) && Acceptable(b, n)
    ensures var p := b[..n];
            var (rows', i) := Lookup(rows, ByServer(p[9], SrcIp(p), DstPort(p)), now);
            Forward(rows, b, n, now) ==
              (rows', if i < |rows'| then Some(DownlinkRewrite(p, rows'[i].clientIp, rows'[i].ethPort)) else None)
  {
    var p := b[..n];
    assert ReverseQuery(b) == ByServer(p[9], SrcIp(p), DstPort(p));
    var (rows', i) := Lookup(rows, ReverseQuery(b), now);
    if i < |rows'| {
      RawDownlinkIsRewrite(b, n, rows'[i].clientIp, rows'[i].ethPort);
    }
  }

  /** The rewriting part, once the row is known. */
  method Redirect(buffer: array<byte>, length: u16, clientIp: u32, ethPort: u16)
    requires buffer.Length >= ROOM && InBounds(buffer[..], length)
    modifies buffer
    ensures buffer[..] == RawDownlink(old(buffer[..]), length, clientIp, ethPort)
  {
    var hdr := buffer[0] as int % 0x10 * 4;
    var protocol := buffer[9];
    if protocol == TCP || protocol == UDP {
      Store32Le(buffer, 16, clientIp);
      CalcChecksum(buffer, 0, hdr, 10);
      Store16Be(buffer, hdr + 2, ethPort);
      CalcPortChecksum(buffer, length, hdr, protocol);
    } else {
      Store16Be(buffer, hdr + 4, ethPort);
      Store32Le(buffer, 16, clientIp);
      CalcChecksum(buffer, 0, hdr, 10);
      CalcChecksum(buffer, hdr, length - hdr, 2);
    }
  }

  method CheckPacket(buffer: array<byte>, length: u16) returns (ok: bool)
    requires buffer.Length >= ROOM
    ensures ok <==> Acceptable(buffer[..], length)
  {
    ok := false;
    if length >= MIN_LENGTH && MTU >= length {
      var hdr := buffer[0] as int % 0x10 * 4;
      var total: u16 := 0x100 * buffer[2] as int + buffer[3] as int;
      assert buffer[0..hdr] == buffer[..][0..hdr];
      var cs := IpChecksum1(buffer[0..hdr]);
      ok := total == length && cs == 0;
    }
  }

  method ReadQuery(buffer: array<byte>) returns (q: Query)
    requires buffer.Length >= ROOM
    ensures q == ReverseQuery(buffer[..])
  {
    var at := buffer[0] as int % 0x10 * 4 + if buffer[9] == TCP || buffer[9] == UDP then 2 else 4;
    var port: u16 := 0x100 * buffer[at] as int + buffer[at + 1] as int;
    q := ByServer(buffer[9], Le32(buffer[..], 12), port);
  }

  /** `forward_downlink_packet`, up to the point where the Ethernet frame is put together. */
  method ForwardDownlinkPacket(pmap: PortMap, buffer: array<byte>, length: u16, now: u32) returns (out: Option<seq<byte>>)
    requires buffer.Length >= ROOM && (Acceptable(buffer[..], length) ==> InBounds(buffer[..], length))
    modifies pmap.row, buffer
    ensures (pmap.row[..], out) == Forward(old(pmap.row[..]), old(buffer[..]), length, now)
    ensures out == None ==> buffer[..] == old(buffer[..])
  {
    out := None;
    var ok := CheckPacket(buffer, length);
    if ok {
      var q := ReadQuery(buffer);
      var i := pmap.Search(q, now);
      if i < pmap.row.Length {
        ghost var rows := pmap.row[..];
        Redirect(buffer, length, pmap.row[i].clientIp, pmap.row[i].ethPort);
        assert pmap.row[..] == rows;
        out := Some(buffer[..length]);
        assert buffer[..length] == buffer[..][..length];
      }
    }
  }

  /** The end of a frame in `operate_gw_uart_rx`. */
  method OnDownlinkFrame(pmap: PortMap, buffer: array<byte>, length: u16, now: u32) returns (out: Option<seq<byte>>)
    requires buffer.Length >= ROOM
    requires PassesFilter(buffer[..], length) && Acceptable(buffer[..], length) ==> InBounds(buffer[..], length)
    modifies pmap.row, buffer
    ensures (pmap.row[..], out) == HandleFrame(old(pmap.row[..]), old(buffer[..]), length, now)
  {
    out := None;
    if length > 20 && (buffer[9] == ICMP || buffer[9] == TCP || buffer[9] == UDP) {
      var total: u16 := 0x100 * buffer[2] as int + buffer[3] as int;
      if length == total {
        out := ForwardDownlinkPacket(pmap, buffer, length, now);
      }
    }
  }

  // The modem's uplink

  /** Whether the modem relays a frame: it has an address and a connection, and the length field agrees. */
  predicate Relays(b: seq<byte>, n: nat, myAddr: u32, attached: bool)
    requires |b| >= ROOM
  {
    myAddr != 0 && attached && Be16(b, 2) == n
  }

  /** Read off the bytes. */
  lemma RelayedExactlyWhen(b: seq<byte>, n: nat, myAddr: u32, attached: bool)
    requires |b| >= ROOM && (Relays(b, n, myAddr, attached) ==> InBounds(b, n))
    ensures ModemForward(b, n, myAddr, attached).Some? <==>
            0x100 * b[2] as int + b[3] as int == n && attached && myAddr != 0
  {
  }

  /** What the modem queues for LTE when a frame is complete. */
  function ModemForward(b: seq<byte>, n: nat, myAddr: u32, attached: bool): Option<seq<byte>>
    requires |b| >= ROOM && (Relays(b, n, myAddr, attached) ==> InBounds(b, n))
  {
    if Relays(b, n, myAddr, attached) then Some(RawUplink(b, n, myAddr)[..n]) else None
  }

  /** The end-of-frame part of `gw_uart_serial_cb`. */
  method OnFrame(packet: array<byte>, size: u16, myAddr: u32, attached: bool) returns (queued: Option<seq<byte>>)
    requires packet.Length >= ROOM
    requires Relays(packet[..], size, myAddr, attached) ==> InBounds(packet[..], size)
    modifies packet
    ensures queued == ModemForward(old(packet[..]), size, myAddr, attached)
    ensures queued == None ==> packet[..] == old(packet[..])
  {
    if myAddr == 0 || !attached {
      return None;
    }
    var total: u16 := 0x100 * packet[2] as int + packet[3] as int;
    if total != size {
      return None;
    }
    var hdr := packet[0] as int % 0x10 * 4;
    Store32Le(packet, 12, myAddr);
    CalcChecksum(packet, 0, hdr, 10);
    if packet[9] == TCP || packet[9] == UDP {
      CalcPortChecksum(packet, size, hdr, packet[9]);
    } else {
      CalcChecksum(packet, hdr, size - hdr, 2);
    }
    queued := Some(packet[..size]);
    assert packet[..size] == packet[..][..size];
  }
}
