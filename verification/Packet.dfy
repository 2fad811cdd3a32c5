/**
 * IPv4 packets as byte strings and the four in-place rewrites the gateway makes: the port on the way up,
 * the source address on the modem, the destination on the way down, and the echo reply.
 * These are the header changes of section 4.1 of RFC 3022.
 */
module Packet {
  import opened Bytes
  import opened InternetChecksum
  import opened IpUtil
  import opened PortTable

  // Layout

  function HeaderLen(p: seq<byte>): nat
    requires |p| > 0
  {
    p[0] % 0x10 * 4
  }

  function TotalLen(p: seq<byte>): u16
    requires |p| >= 4
  {
    Be16(p, 2)
  }

  function SrcIp(p: seq<byte>): u32
    requires |p| >= 20
  {
    Le32(p, 12)
  }

  function DstIp(p: seq<byte>): u32
    requires |p| >= 20
  {
    Le32(p, 16)
  }

  predicate IsPort(protocol: byte)
  {
    protocol == TCP || protocol == UDP
  }

  /** Where the transport checksum is, from the start of the transport part. */
  function ChecksumOffset(protocol: byte): nat
  {
    if protocol == UDP then 6 else if protocol == TCP then 16 else 2
  }

  /** The bytes of the transport part that the rewrites touch, at least. */
  function TransportMin(protocol: byte): nat
  {
    if protocol == UDP then 8 else if protocol == TCP then 18 else 6
  }

  /** The shape that the rewrites rely on and do not check: a full header and enough of a transport part. */
  predicate Shaped(p: seq<byte>)
  {
    |p| >= 20 && HeaderLen(p) >= 20 && HeaderLen(p) + TransportMin(p[9]) <= |p|
  }

  predicate WellFormed(p: seq<byte>)
  {
    Shaped(p) && TotalLen(p) == |p| && (IsPort(p[9]) || p[9] == ICMP)
  }

  /** Source port, or the ICMP identifier. */
  function SrcPortAt(p: seq<byte>): nat
    requires Shaped(p)
  {
    HeaderLen(p) + if IsPort(p[9]) then 0 else 4
  }

  function DstPortAt(p: seq<byte>): nat
    requires Shaped(p)
  {
    HeaderLen(p) + if IsPort(p[9]) then 2 else 4
  }

  function SrcPort(p: seq<byte>): u16
    requires Shaped(p)
  {
    Be16(p, SrcPortAt(p))
  }

  function DstPort(p: seq<byte>): u16
    requires Shaped(p)
  {
    Be16(p, DstPortAt(p))
  }

  function ChecksumAt(p: seq<byte>): nat
    requires Shaped(p)
  {
    HeaderLen(p) + ChecksumOffset(p[9])
  }

  function Transport(p: seq<byte>): seq<byte>
    requires Shaped(p)
  {
    p[HeaderLen(p)..]
  }

  /** The pseudo header of section 3.1 of RFC 9293 and of RFC 768. */
  function Pseudo(p: seq<byte>): (h: seq<byte>)
    requires Shaped(p) && |p| < 0x1_0000
    ensures |h| == 12
  {
    var len := |p| - HeaderLen(p);
    p[12..20] + [0, p[9], len / 0x100, len % 0x100]
  }

  /** Its fields: source, destination, zero, protocol, length of the transport part in network byte order. */
  lemma PseudoFields(p: seq<byte>)
    requires Shaped(p) && |p| < 0x1_0000
    ensures var h := Pseudo(p);
            Le32(h, 0) == SrcIp(p) && Le32(h, 4) == DstIp(p) && h[8] == 0 && h[9] == p[9] && Be16(h, 10) == |Transport(p)|
  {
    var h, len := Pseudo(p), |p| - HeaderLen(p);
    assert forall k :: 0 <= k < 8 ==> h[k] == p[12 + k];
    assert 0x100 * (len / 0x100) + len % 0x100 == len;
  }

  predicate HeaderValid(p: seq<byte>)
    requires Shaped(p)
  {
    Checksum(p[0..HeaderLen(p)]) == 0
  }

  predicate TransportValid(p: seq<byte>)
    requires Shaped(p) && |p| < 0x1_0000
  {
    Checksum(if IsPort(p[9]) then Pseudo(p) + Transport(p) else Transport(p)) == 0
  }

  // Rewrites

  /** What `ip_checksum2` returns for pseudo header and transport part. */
  function TransportSum(p: seq<byte>): u16
    requires Shaped(p) && |p| < 0x1_0000
  {
    Checksum(Joined(Pseudo(p), Transport(p)))
  }

  /** Clear the transport checksum, sum, store: the common tail of the two rewrites. */
  function FillTransport(p: seq<byte>): (r: seq<byte>)
    requires Shaped(p) && |p| < 0x1_0000
    ensures |r| == |p|
  {
    if IsPort(p[9]) then
      var zeroed := PutLe16(p, ChecksumAt(p), 0);
      PutLe16(zeroed, ChecksumAt(p), TransportSum(zeroed))
    else
      WithChecksum(p, HeaderLen(p), |p| - HeaderLen(p), 2)
  }

  function FillHeader(p: seq<byte>): (r: seq<byte>)
    requires Shaped(p)
    ensures |r| == |p|
  {
    WithChecksum(p, 0, HeaderLen(p), 10)
  }

  /** `task_gw_uart_tx`: only the port changes; the checksums are left to the modem. */
  function UplinkRewrite(p: seq<byte>, ltePort: u16): seq<byte>
    requires Shaped(p)
  {
    PutBe16(p, SrcPortAt(p), ltePort)
  }

  /** `gw_uart_serial_cb`: the modem's own address as source, then both checksums. */
  function ModemRewrite(p: seq<byte>, myAddr: u32): seq<byte>
    requires Shaped(p) && |p| < 0x1_0000
  {
    FillTransport(FillHeader(PutLe32(p, 12, myAddr)))
  }

  /** `forward_downlink_packet`: client address and port as destination, then both checksums. */
  function DownlinkRewrite(p: seq<byte>, clientIp: u32, ethPort: u16): seq<byte>
    requires Shaped(p) && |p| < 0x1_0000
  {
    if IsPort(p[9]) then
      FillTransport(PutBe16(FillHeader(PutLe32(p, 16, clientIp)), DstPortAt(p), ethPort))
    else
      FillTransport(FillHeader(PutLe32(PutBe16(p, DstPortAt(p), ethPort), 16, clientIp)))
  }

  // What the stores do

  lemma PutBe16Get(b: seq<byte>, i: nat, v: u16)
    requires i + 2 <= |b|
    ensures Be16(PutBe16(b, i, v), i) == v
  {
  }

  lemma PutLe32Get(b: seq<byte>, i: nat, v: u32)
    requires i + 4 <= |b|
    ensures Le32(PutLe32(b, i, v), i) == v
  {
  }

  /** Same bytes outside the half-open interval, so same header layout. */
  ghost predicate SameExcept(p: seq<byte>, r: seq<byte>, from: nat, to: nat)
  {
    |p| == |r| && forall k :: 0 <= k < |p| && !(from <= k < to) ==> r[k] == p[k]
  }

  /** The first ten bytes hold the version, lengths and protocol. */
  lemma SameLayout(p: seq<byte>, r: seq<byte>, from: nat, to: nat)
    requires Shaped(p) && SameExcept(p, r, from, to) && from >= 10
    ensures Shaped(r) && HeaderLen(r) == HeaderLen(p) && TotalLen(r) == TotalLen(p) && r[9] == p[9]
  {
  }

  lemma HeaderUntouched(p: seq<byte>, r: seq<byte>, from: nat, to: nat)
    requires Shaped(p) && SameExcept(p, r, from, to) && from >= HeaderLen(p)
    ensures Shaped(r) && r[0..HeaderLen(r)] == p[0..HeaderLen(p)]
  {
  }

  lemma FillHeaderIsValid(p: seq<byte>)
    requires Shaped(p)
    ensures SameExcept(p, FillHeader(p), 10, 12)
    ensures Shaped(FillHeader(p)) && HeaderValid(FillHeader(p))
  {
    var r := FillHeader(p);
    SameLayout(p, r, 10, 12);
    CalcThenCheck(p, 0, HeaderLen(p), 10);
  }

  lemma FillTransportIsValid(p: seq<byte>)
    requires Shaped(p) && |p| < 0x1_0000
    ensures SameExcept(p, FillTransport(p), ChecksumAt(p), ChecksumAt(p) + 2)
    ensures Shaped(FillTransport(p)) && TransportValid(FillTransport(p))
  {
    var r := FillTransport(p);
    var at, h := ChecksumAt(p), HeaderLen(p);
    SameLayout(p, r, at, at + 2);
    if IsPort(p[9]) {
      FillPortIsValid(p);
    } else {
      CalcThenCheck(p, h, |p| - h, 2);
      assert r[h..h + (|p| - h)] == Transport(r);
    }
  }

  /** With the pseudo header in front, the field is filled by the sender's rule. */
  lemma FillPortIsFilled(p: seq<byte>)
    requires Shaped(p) && |p| < 0x1_0000 && IsPort(p[9])
    ensures var whole := Pseudo(p) + Transport(p);
            var pos := 12 + ChecksumOffset(p[9]);
            FillTransport(p) == PutLe16(p, ChecksumAt(p), Checksum(PutLe16(whole, pos, 0)))
  {
    var at := ChecksumAt(p);
    var zeroed := PutLe16(p, at, 0);
    SameLayout(p, zeroed, at, at + 2);
    PseudoUntouched(p, zeroed, at, at + 2);
    TransportPut(p, zeroed, 0);
    assert Joined(Pseudo(zeroed), Transport(zeroed)) == Pseudo(zeroed) + Transport(zeroed);
    PutTwice(p, at, 0, Checksum(Pseudo(zeroed) + Transport(zeroed)));
  }

  lemma PutTwice(b: seq<byte>, i: nat, v: u16, w: u16)
    requires i + 2 <= |b|
    ensures PutLe16(PutLe16(b, i, v), i, w) == PutLe16(b, i, w)
  {
  }

  lemma FillPortIsValid(p: seq<byte>)
    requires Shaped(p) && |p| < 0x1_0000 && IsPort(p[9])
    ensures var r := FillTransport(p); Shaped(r) && r[9] == p[9] && Checksum(Pseudo(r) + Transport(r)) == 0
  {
    var whole := Pseudo(p) + Transport(p);
    var pos := 12 + ChecksumOffset(p[9]);
    FillPortIsFilled(p);
    StoredChecksumIsValid(p, whole, pos, Checksum(PutLe16(whole, pos, 0)));
  }

  lemma StoredChecksumIsValid(p: seq<byte>, whole: seq<byte>, pos: nat, c: u16)
    requires Shaped(p) && |p| < 0x1_0000 && whole == Pseudo(p) + Transport(p)
    requires pos == 12 + ChecksumOffset(p[9]) && c == Checksum(PutLe16(whole, pos, 0))
    ensures var r := PutLe16(p, ChecksumAt(p), c); Shaped(r) && r[9] == p[9] && Checksum(Pseudo(r) + Transport(r)) == 0
  {
    var at := ChecksumAt(p);
    var r := PutLe16(p, at, c);
    SameLayout(p, r, at, at + 2);
    PseudoUntouched(p, r, at, at + 2);
    TransportPut(p, r, c);
    FilledChecksumIsZero(whole, pos);
  }

  lemma PseudoUntouched(p: seq<byte>, r: seq<byte>, from: nat, to: nat)
    requires Shaped(p) && |p| < 0x1_0000 && SameExcept(p, r, from, to) && from >= 20
    ensures Shaped(r) && Pseudo(r) == Pseudo(p)
  {
  }

  /** A store in the checksum field, seen from the pseudo header on. */
  lemma TransportPut(p: seq<byte>, r: seq<byte>, v: u16)
    requires Shaped(p) && |p| < 0x1_0000 && r == PutLe16(p, ChecksumAt(p), v)
    ensures Shaped(r) && Pseudo(p) + Transport(r) == PutLe16(Pseudo(p) + Transport(p), 12 + ChecksumOffset(p[9]), v)
  {
  }
}
