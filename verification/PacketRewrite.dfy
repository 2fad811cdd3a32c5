/** Every rewrite leaves a packet with valid checksums, the intended addresses, and all other bytes as they were. */
module PacketRewrite {
  import opened Bytes
  import opened Packet

  lemma PutLe32Same(b: seq<byte>, i: nat, v: u32)
    requires i + 4 <= |b|
    ensures SameExcept(b, PutLe32(b, i, v), i, i + 4)
  {
  }

  lemma PutBe16Same(b: seq<byte>, i: nat, v: u16)
    requires i + 2 <= |b|
    ensures SameExcept(b, PutBe16(b, i, v), i, i + 2)
  {
  }

  /** The port changes, nothing else does. */
  lemma UplinkRewriteChangesThePort(p: seq<byte>, ltePort: u16)
    requires Shaped(p)
    ensures var r := UplinkRewrite(p, ltePort);
            SameExcept(p, r, SrcPortAt(p), SrcPortAt(p) + 2) && Shaped(r) && SrcPort(r) == ltePort &&
            r[9] == p[9] && SrcIp(r) == SrcIp(p) && DstIp(r) == DstIp(p) && TotalLen(r) == TotalLen(p)
  {
  }

  lemma SameWord(p: seq<byte>, r: seq<byte>, i: nat)
    requires i + 4 <= |p| && |p| == |r|
    requires p[i..i + 4] == r[i..i + 4]
    ensures Le32(p, i) == Le32(r, i)
  {
    assert p[i..i + 4][0] == p[i] && p[i..i + 4][1] == p[i + 1] && p[i..i + 4][2] == p[i + 2] && p[i..i + 4][3] == p[i + 3];
    assert r[i..i + 4][0] == r[i] && r[i..i + 4][1] == r[i + 1] && r[i..i + 4][2] == r[i + 2] && r[i..i + 4][3] == r[i + 3];
  }

  lemma SameHalf(p: seq<byte>, r: seq<byte>, i: nat)
    requires i + 2 <= |p| && |p| == |r| && p[i] == r[i] && p[i + 1] == r[i + 1]
    ensures Be16(p, i) == Be16(r, i)
  {
  }

  /** The header is filled, then only the transport part is written. */
  lemma HeaderStaysValid(q: seq<byte>, r: seq<byte>, from: nat, to: nat)
    requires Shaped(q) && HeaderValid(q) && SameExcept(q, r, from, to) && from >= HeaderLen(q)
    ensures Shaped(r) && HeaderValid(r)
  {
    HeaderUntouched(q, r, from, to);
  }

  /** The bytes that a rewrite of the address at `addr` and the port at `port` may change. */
  predicate Field(p: seq<byte>, addr: nat, port: nat, k: nat)
    requires Shaped(p)
  {
    10 <= k < 12 || addr <= k < addr + 4 || port <= k < port + 2 || ChecksumAt(p) <= k < ChecksumAt(p) + 2
  }

  ghost predicate OnlyFieldsChange(p: seq<byte>, r: seq<byte>, addr: nat, port: nat)
    requires Shaped(p)
  {
    |r| == |p| && forall k :: 0 <= k < |p| && !Field(p, addr, port, k) ==> r[k] == p[k]
  }

  /** The modem's rewrite, for every well-shaped packet. */
  lemma {:induction false} ModemRewriteIsValid(p: seq<byte>, myAddr: u32)
    requires Shaped(p) && |p| < 0x1_0000
    ensures var r := ModemRewrite(p, myAddr);
            Shaped(r) && HeaderValid(r) && TransportValid(r) && SrcIp(r) == myAddr &&
            OnlyFieldsChange(p, r, 12, ChecksumAt(p))
  {
    ModemHeaderIsValid(p, myAddr);
    var q := FillHeader(PutLe32(p, 12, myAddr));
    var r := FillTransport(q);
    FillTransportIsValid(q);
    HeaderStaysValid(q, r, ChecksumAt(q), ChecksumAt(q) + 2);
    assert q[12..16] == r[12..16];
    SameWord(q, r, 12);
  }

  /** Its own address, and the header checksum. */
  lemma {:induction false} ModemHeaderIsValid(p: seq<byte>, myAddr: u32)
    requires Shaped(p)
    ensures Shaped(PutLe32(p, 12, myAddr))
    ensures var q := FillHeader(PutLe32(p, 12, myAddr));
            Shaped(q) && HeaderLen(q) == HeaderLen(p) && q[9] == p[9] && HeaderValid(q) && SrcIp(q) == myAddr &&
            |q| == |p| && forall k :: (0 <= k < 10 || 16 <= k < |p|) ==> q[k] == p[k]
  {
    var q1 := PutLe32(p, 12, myAddr);
    var q2 := FillHeader(q1);
    PutLe32Same(p, 12, myAddr);
    PutLe32Get(p, 12, myAddr);
    SameLayout(p, q1, 12, 16);
    FillHeaderIsValid(q1);
    SameLayout(q1, q2, 10, 12);
    assert q1[12..16] == q2[12..16];
    SameWord(q1, q2, 12);
  }

  /** `r` is `p` with a valid header, sent to the given client and port. */
  ghost predicate Redirected(p: seq<byte>, r: seq<byte>, clientIp: u32, ethPort: u16)
    requires Shaped(p)
  {
    Shaped(r) && HeaderLen(r) == HeaderLen(p) && r[9] == p[9] && HeaderValid(r) &&
    DstIp(r) == clientIp && DstPort(r) == ethPort && OnlyFieldsChange(p, r, 16, DstPortAt(p))
  }

  /** TCP and UDP: address, header checksum, port. */
  lemma PortRedirected(p: seq<byte>, clientIp: u32, ethPort: u16)
    requires Shaped(p) && IsPort(p[9])
    ensures Shaped(PutLe32(p, 16, clientIp))
    ensures Redirected(p, PutBe16(FillHeader(PutLe32(p, 16, clientIp)), DstPortAt(p), ethPort), clientIp, ethPort)
  {
    var q1 := PutLe32(p, 16, clientIp);
    var d := DstPortAt(p);
    PutLe32Same(p, 16, clientIp);
    PutLe32Get(p, 16, clientIp);
    SameLayout(p, q1, 16, 20);
    FillHeaderIsValid(q1);
    var q2 := FillHeader(q1);
    SameLayout(q1, q2, 10, 12);
    PutBe16Same(q2, d, ethPort);
    PutBe16Get(q2, d, ethPort);
    var q3 := PutBe16(q2, d, ethPort);
    SameLayout(q2, q3, d, d + 2);
    HeaderStaysValid(q2, q3, d, d + 2);
    assert q1[16..20] == q3[16..20];
    SameWord(q1, q3, 16);
  }

  /** ICMP: identifier, address, header checksum. */
  lemma IcmpRedirected(p: seq<byte>, clientIp: u32, ethPort: u16)
    requires Shaped(p) && !IsPort(p[9])
    ensures Shaped(PutLe32(PutBe16(p, DstPortAt(p), ethPort), 16, clientIp))
    ensures Redirected(p, FillHeader(PutLe32(PutBe16(p, DstPortAt(p), ethPort), 16, clientIp)), clientIp, ethPort)
  {
    var d := DstPortAt(p);
    var q1 := PutBe16(p, d, ethPort);
    PutBe16Same(p, d, ethPort);
    PutBe16Get(p, d, ethPort);
    SameLayout(p, q1, d, d + 2);
    var q2 := PutLe32(q1, 16, clientIp);
    PutLe32Same(q1, 16, clientIp);
    PutLe32Get(q1, 16, clientIp);
    SameLayout(q1, q2, 16, 20);
    FillHeaderIsValid(q2);
    var q3 := FillHeader(q2);
    SameLayout(q2, q3, 10, 12);
    assert q2[16..20] == q3[16..20];
    SameWord(q2, q3, 16);
    SameHalf(q1, q3, d);
  }

  /** Filling the transport checksum disturbs nothing of that. */
  lemma RedirectedAndFilled(p: seq<byte>, q: seq<byte>, clientIp: u32, ethPort: u16)
    requires Shaped(p) && |p| < 0x1_0000 && Redirected(p, q, clientIp, ethPort)
    ensures Redirected(p, FillTransport(q), clientIp, ethPort) && TransportValid(FillTransport(q))
  {
    var r := FillTransport(q);
    var at, d := ChecksumAt(q), DstPortAt(q);
    FillTransportIsValid(q);
    SameLayout(q, r, at, at + 2);
    HeaderStaysValid(q, r, at, at + 2);
    assert q[16..20] == r[16..20];
    SameWord(q, r, 16);
    SameHalf(q, r, d);
  }

  /** The gateway's downlink rewrite, for every well-shaped packet of any of the three protocols. */
  lemma {:induction false} DownlinkRewriteIsValid(p: seq<byte>, clientIp: u32, ethPort: u16)
    requires Shaped(p) && |p| < 0x1_0000
    ensures var r := DownlinkRewrite(p, clientIp, ethPort);
            Redirected(p, r, clientIp, ethPort) && TransportValid(r)
  {
    if IsPort(p[9]) {
      PortRedirected(p, clientIp, ethPort);
      RedirectedAndFilled(p, PutBe16(FillHeader(PutLe32(p, 16, clientIp)), DstPortAt(p), ethPort), clientIp, ethPort);
    } else {
      IcmpRedirected(p, clientIp, ethPort);
      RedirectedAndFilled(p, FillHeader(PutLe32(PutBe16(p, DstPortAt(p), ethPort), 16, clientIp)), clientIp, ethPort);
    }
  }

  // The same byte by byte

  /** All bytes are the same except two from each of the positions, and four from `addr`. */
  ghost predicate ChangedOnly(p: seq<byte>, r: seq<byte>, addr: nat, sums: (nat, nat), port: nat)
  {
    |r| == |p| &&
    forall k :: 0 <= k < |p| && !(addr <= k < addr + 4) && !IsPair(k, sums.0) && !IsPair(k, sums.1) && !IsPair(k, port) ==>
      r[k] == p[k]
  }

  predicate IsPair(k: nat, at: nat)
  {
    k == at || k == at + 1
  }

  /** The transport checksum of UDP, TCP and ICMP, from the start of the transport part. */
  function SumOffset(protocol: byte): nat
  {
    match protocol
    case 0x11 => 6
    case 0x06 => 16
    case _ => 2
  }

  /** The uplink writes the source port or identifier only: destination port, UDP length and payload stay. */
  lemma UplinkBytes(p: seq<byte>, ltePort: u16)
    requires Shaped(p)
    ensures var at := p[0] as int % 0x10 * 4 + if p[9] == 0x11 || p[9] == 0x06 then 0 else 4;
            var r := UplinkRewrite(p, ltePort);
            |r| == |p| && 0x100 * r[at] as int + r[at + 1] as int == ltePort &&
            forall k :: 0 <= k < |p| && k != at && k != at + 1 ==> r[k] == p[k]
  {
  }

  /** The modem writes the source address and the two checksums. */
  lemma ModemBytes(p: seq<byte>, myAddr: u32)
    requires Shaped(p) && |p| < 0x1_0000
    ensures var cs := p[0] as int % 0x10 * 4 + SumOffset(p[9]);
            ChangedOnly(p, ModemRewrite(p, myAddr), 12, (10, cs), cs)
  {
    ModemRewriteIsValid(p, myAddr);
  }

  /** The gateway's downlink writes the destination address and port or identifier, and the two checksums. */
  lemma DownlinkBytes(p: seq<byte>, clientIp: u32, ethPort: u16)
    requires Shaped(p) && |p| < 0x1_0000
    ensures var hdr := p[0] as int % 0x10 * 4;
            var at := hdr + if p[9] == 0x11 || p[9] == 0x06 then 2 else 4;
            var r := DownlinkRewrite(p, clientIp, ethPort);
            ChangedOnly(p, r, 16, (10, hdr + SumOffset(p[9])), at) &&
            0x100 * r[at] as int + r[at + 1] as int == ethPort
  {
    DownlinkRewriteIsValid(p, clientIp, ethPort);
  }
}
