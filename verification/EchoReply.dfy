/**
 * `operate_packet_icmp_echo_req`: the gateway answers echo requests for its own address itself. The reply
 * is built in a static structure the size of an Ethernet frame and transmitted with the request's length.
 */
module EchoReplies {
  import opened Bytes
  import opened Options
  import opened InternetChecksum
  import opened IpUtil

  const ETH := 14
  const IP_HDR := 20
  const PKT_SIZE := 1534

  /** The gateway's addresses: `my_mac_addr` and `my_if_ip`. */
  datatype Interface = Interface(mac: seq<byte>, ip: seq<byte>)
  {
    predicate Valid()
    {
      |mac| == 6 && |ip| == 4
    }
  }

  function Splice(b: seq<byte>, at: nat, part: seq<byte>): (r: seq<byte>)
    requires at + |part| <= |b|
    ensures |r| == |b|
    ensures forall k :: 0 <= k < |b| ==> r[k] == if at <= k < at + |part| then part[k - at] else b[k]
  {
    b[..at] + part + b[at + |part|..]
  }

  /** The request is answered only with a 20-byte header and a valid ICMP checksum. */
  predicate Answered(f: seq<byte>)
    requires |f| >= ETH + IP_HDR
  {
    f[ETH] % 0x10 * 4 == IP_HDR && Checksum(f[ETH + IP_HDR..]) == 0
  }

  /** The request with the addresses turned round. */
  function Turned(pkt: seq<byte>, me: Interface): (r: seq<byte>)
    requires |pkt| == PKT_SIZE && me.Valid()
    ensures |r| == PKT_SIZE
  {
    var eth := Splice(Splice(pkt, 0, pkt[6..12]), 6, me.mac);
    Splice(Splice(eth, 26, me.ip), 30, pkt[26..30])
  }

  /** Header checksum, type, ICMP checksum over the length of the frame. */
  function Fills(turned: seq<byte>, length: nat): (r: seq<byte>)
    requires |turned| == PKT_SIZE && ETH + IP_HDR <= length <= PKT_SIZE
    ensures |r| == PKT_SIZE
  {
    var headed := WithChecksum(turned, ETH, IP_HDR, 10);
    WithChecksum(headed[ETH + IP_HDR := 0], ETH + IP_HDR, length - IP_HDR - ETH, 2)
  }

  /** The structure after the reply has been built for a frame of the given length. */
  function Reply(pkt: seq<byte>, length: nat, me: Interface): (r: seq<byte>)
    requires |pkt| == PKT_SIZE && ETH + IP_HDR <= length <= PKT_SIZE && me.Valid()
    ensures |r| == PKT_SIZE
  {
    Fills(Turned(pkt, me), length)
  }

  class Responder {
    const pkt: array<byte>
    const me: Interface

    constructor (me: Interface)
      requires me.Valid()
      ensures this.me == me && fresh(pkt) && pkt.Length == PKT_SIZE
    {
      this.me := me;
      pkt := new byte[PKT_SIZE](_ => 0);
    }

    method Copy(at: nat, part: seq<byte>)
      requires at + |part| <= pkt.Length
      modifies pkt
      ensures pkt[..] == Splice(old(pkt[..]), at, part)
    {
      for i := 0 to |part|
        invariant forall k :: 0 <= k < pkt.Length ==> pkt[k] == if at <= k < at + i then part[k - at] else old(pkt[k])
      {
        pkt[at + i] := part[i];
      }
    }

    method TurnRound(buffer: seq<byte>)
      requires pkt.Length == PKT_SIZE && me.Valid() && ETH + IP_HDR <= |buffer| <= PKT_SIZE
      requires pkt[..|buffer|] == buffer
      modifies pkt
      ensures pkt[..] == Turned(old(pkt[..]), me)
    {
      assert buffer[6..12] == pkt[..][6..12] && buffer[26..30] == pkt[..][26..30];
      Copy(0, buffer[6..12]);
      Copy(6, me.mac);
      Copy(26, me.ip);
      Copy(30, buffer[ETH + 12..ETH + 16]);
    }

    method OperatePacketIcmpEchoReq(buffer: seq<byte>) returns (sent: Option<seq<byte>>)
      requires pkt.Length == PKT_SIZE && me.Valid() && ETH + IP_HDR <= |buffer| <= PKT_SIZE
      modifies pkt
      ensures sent.Some? <==> Answered(buffer)
      ensures sent.Some? ==>
              var filled := Splice(old(pkt[..]), 0, buffer);
              sent.value == Reply(filled, |buffer|, me)[..|buffer|]
    {
      sent := None;
      if buffer[ETH] % 0x10 * 4 != IP_HDR {
        return;
      }
      var cs := IpChecksum1(buffer[ETH + IP_HDR..]);
      if cs != 0 {
        return;
      }
      Copy(0, buffer);
      TurnRound(buffer);
      CalcChecksum(pkt, ETH, IP_HDR, 10);
      ghost var headed := pkt[..];
      pkt[ETH + IP_HDR] := 0;
      assert pkt[..] == headed[ETH + IP_HDR := 0];
      CalcChecksum(pkt, ETH + IP_HDR, |buffer| - IP_HDR - ETH, 2);
      sent := Some(pkt[..|buffer|]);
      assert pkt[..][..|buffer|] == pkt[..|buffer|];
    }
  }

  /** In terms of the words summed: a 20-byte header, and an ICMP part whose words carry around to 65535. */
  lemma AnsweredExactlyWhen(f: seq<byte>)
    requires |f| >= ETH + IP_HDR
    ensures Answered(f) <==> f[14] % 0x10 == 5 && Residue(WordSum(f[34..], 0)) == 0xFFFF
  {
    ZeroChecksum(f[34..]);
  }

  /** What the handler passes on: at least 35 bytes, of type echo request. */
  predicate IsEchoRequest(f: seq<byte>)
  {
    |f| > ETH + IP_HDR && f[ETH + IP_HDR] == 8
  }

  /** A frame that ends before its ICMP checksum field is answered only if it is this one. */
  lemma ShortRequests(f: seq<byte>)
    requires IsEchoRequest(f) && |f| < ETH + IP_HDR + 4 && f[ETH] % 0x10 * 4 == IP_HDR
    ensures Answered(f) <==> f[ETH + IP_HDR..] == [8, 0xFF, 0xF7]
  {
    var icmp := f[ETH + IP_HDR..];
    assert icmp[0] == 8;
    if |icmp| > 1 {
      ShortSum(icmp);
    }
  }

  lemma ShortSum(icmp: seq<byte>)
    requires 2 <= |icmp| <= 3
    ensures OnesSum(icmp, 0) == if |icmp| == 2 then Le16(icmp, 0) else OnesAdd(Le16(icmp, 0), icmp[2])
  {
    assert OnesSum(icmp, 2) == if |icmp| == 2 then 0 else icmp[2];
  }

  /**
   * The reply to every request that is answered, and to any frame with a full ICMP checksum field: both
   * checksums are valid, the addresses are exchanged, the type is echo reply, and every other byte, so in
   * particular identifier, sequence number and data, is the request's.
   */
  lemma ReplyIsValid(f: seq<byte>, rest: seq<byte>, me: Interface)
    requires |f| >= ETH + IP_HDR + 4 || (IsEchoRequest(f) && Answered(f))
    requires |f| + |rest| == PKT_SIZE && me.Valid()
    ensures var r := Reply(f + rest, |f|, me)[..|f|];
            Checksum(r[ETH..ETH + IP_HDR]) == 0 && Checksum(r[ETH + IP_HDR..]) == 0 &&
            r[0..6] == f[6..12] && r[6..12] == me.mac && r[26..30] == me.ip && r[30..34] == f[26..30] && r[34] == 0 &&
            forall k :: (12 <= k < 24 || k == 35 || 38 <= k) && k < |f| ==> r[k] == f[k]
  {
    ReplyChecksums(f, rest, me);
    ReplyFields(f, rest, me);
  }

  lemma ReplyChecksums(f: seq<byte>, rest: seq<byte>, me: Interface)
    requires |f| >= ETH + IP_HDR + 4 || (IsEchoRequest(f) && Answered(f))
    requires |f| + |rest| == PKT_SIZE && me.Valid()
    ensures var r := Reply(f + rest, |f|, me)[..|f|];
            Checksum(r[ETH..ETH + IP_HDR]) == 0 && Checksum(r[ETH + IP_HDR..]) == 0
  {
    var turned := Turned(f + rest, me);
    HeaderIsValid(turned, |f|);
    if |f| >= ETH + IP_HDR + 4 {
      MessageIsValid(turned, |f|);
    } else {
      ShortRequests(f);
      TurnedIs(f, rest, me);
      assert f[35] == f[ETH + IP_HDR..][1];
      ShortMessageIsValid(turned);
    }
  }

  lemma ReplyFields(f: seq<byte>, rest: seq<byte>, me: Interface)
    requires |f| > ETH + IP_HDR && |f| + |rest| == PKT_SIZE && me.Valid()
    ensures var r := Reply(f + rest, |f|, me)[..|f|];
            r[0..6] == f[6..12] && r[6..12] == me.mac && r[26..30] == me.ip && r[30..34] == f[26..30] && r[34] == 0 &&
            forall k :: (12 <= k < 24 || k == 35 || 38 <= k) && k < |f| ==> r[k] == f[k]
  {
    var turned := Turned(f + rest, me);
    TurnedIs(f, rest, me);
    FillsChangeFields(turned, |f|);
    var r := Reply(f + rest, |f|, me)[..|f|];
    assert r[0..6] == turned[0..6] && r[6..12] == turned[6..12];
    assert r[26..30] == turned[26..30] && r[30..34] == turned[30..34];
  }

  lemma HeaderIsValid(turned: seq<byte>, length: nat)
    requires |turned| == PKT_SIZE && ETH + IP_HDR < length <= PKT_SIZE
    ensures Checksum(Fills(turned, length)[..length][ETH..ETH + IP_HDR]) == 0
  {
    var headed := WithChecksum(turned, ETH, IP_HDR, 10);
    CalcThenCheck(turned, ETH, IP_HDR, 10);
    assert Fills(turned, length)[..length][ETH..ETH + IP_HDR] == headed[ETH..ETH + IP_HDR];
  }

  lemma MessageIsValid(turned: seq<byte>, length: nat)
    requires |turned| == PKT_SIZE && ETH + IP_HDR + 4 <= length <= PKT_SIZE
    ensures Checksum(Fills(turned, length)[..length][ETH + IP_HDR..]) == 0
  {
    var typed := WithChecksum(turned, ETH, IP_HDR, 10)[ETH + IP_HDR := 0];
    var len := length - IP_HDR - ETH;
    var full := WithChecksum(typed, ETH + IP_HDR, len, 2);
    CalcThenCheck(typed, ETH + IP_HDR, len, 2);
    assert full[..length][ETH + IP_HDR..] == full[ETH + IP_HDR..ETH + IP_HDR + len];
  }

  /** Here half of the checksum field lies behind the frame, and the other half completes the sum by itself. */
  lemma ShortMessageIsValid(turned: seq<byte>)
    requires |turned| == PKT_SIZE && turned[35] == 0xFF
    ensures Checksum(Fills(turned, 37)[..37][ETH + IP_HDR..]) == 0
  {
    var typed := WithChecksum(turned, ETH, IP_HDR, 10)[ETH + IP_HDR := 0];
    var cleared := PutLe16(typed, 36, 0)[ETH + IP_HDR..37];
    assert cleared == [0, 0xFF, 0];
    ShortSum(cleared);
    assert Checksum(cleared) == 0xFF;
    var icmp := Fills(turned, 37)[..37][ETH + IP_HDR..];
    assert icmp == [0, 0xFF, 0xFF];
    ShortSum(icmp);
  }

  lemma FillsChangeFields(turned: seq<byte>, length: nat)
    requires |turned| == PKT_SIZE && ETH + IP_HDR < length <= PKT_SIZE
    ensures var r := Fills(turned, length);
            r[34] == 0 && forall k :: (0 <= k < 24 || 26 <= k < 34 || k == 35 || 38 <= k < |r|) ==> r[k] == turned[k]
  {
  }

  lemma TurnedIs(f: seq<byte>, rest: seq<byte>, me: Interface)
    requires ETH + IP_HDR <= |f| && |f| + |rest| == PKT_SIZE && me.Valid()
    ensures var t := Turned(f + rest, me);
            t[0..6] == f[6..12] && t[6..12] == me.mac && t[26..30] == me.ip && t[30..34] == f[26..30] &&
            forall k :: (12 <= k < 26 || 34 <= k < |f|) ==> t[k] == f[k]
  {
  }
}
