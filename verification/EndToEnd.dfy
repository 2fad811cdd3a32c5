/**
 * The whole path: uplink port rewrite, link, modem rewrite; a reply from the server, link, gateway
 * rewrite. It puts together the framing, the translation machine and the packet rewrites.
 */
module EndToEnd {
  import opened Bytes
  import opened InternetChecksum
  import opened Clock
  import opened PortTable
  import opened NatMachine
  import opened NatInvariant
  import opened NatSafety
  import opened NatTiming
  import opened Framing
  import opened FrameSoundness
  import opened UartLink
  import opened Packet
  import opened PacketRewrite
  import opened PacketEdit
  import opened UplinkTasks

  /** Handling the first `n` bytes of the gateway's buffer is the machine's downlink step. */
  lemma ForwardIsDownlinkStep(s: State, b: seq<byte>, n: nat, at: nat)
    requires Sized(s) && |b| >= ROOM && n <= |b| && Shaped(b[..n]) && Acceptable(b, n)
    ensures var r := b[..n];
            var s' := DownlinkStep(s, r[9], SrcIp(r), DstPort(r), at);
            var (rows, out) := Forward(s.rows, b, n, Millis(at));
            s'.rows == rows &&
            (out.Some? <==> s'.log != s.log) &&
            (out.Some? ==>
              s'.log[|s.log|].Delivered? && s'.log == s.log + [s'.log[|s.log|]] &&
              out.value == DownlinkRewrite(r, s'.log[|s.log|].clientIp, s'.log[|s.log|].ethPort))
  {
    ForwardRewrites(s.rows, b, n, Millis(at));
  }

  /** What a packet from a client becomes on the LTE side. */
  ghost predicate SentToServer(p: seq<byte>, q: seq<byte>, myAddr: u32, ltePort: u16)
    requires Translatable(p)
  {
    Shaped(q) && |q| == |p| && |q| < 0x1_0000 && HeaderLen(q) == HeaderLen(p) && q[9] == p[9] &&
    HeaderValid(q) && TransportValid(q) &&
    SrcIp(q) == myAddr && DstIp(q) == DstIp(p) && SrcPort(q) == ltePort &&
    forall k :: 0 <= k < |p| && !Field(p, 12, SrcPortAt(p), k) ==> q[k] == p[k]
  }

  /** The frame fits the modem's buffer, is received exactly, and becomes that packet. */
  ghost predicate UplinkDelivered(p: seq<byte>, ltePort: u16, myAddr: u32, stale: seq<byte>)
    requires Translatable(p) && |p| + |stale| == GW_MAX_PACKET_SIZE
  {
    var up := UplinkRewrite(p, ltePort);
    Fits(GW_MAX_PACKET_SIZE, Idle, Encode(up)) &&
    Framing.Run(Unbounded, Idle, Encode(up)) == (Idle, [up]) &&
    |up| == |p| && InBounds(up + stale, |up|) && Relays(up + stale, |up|, myAddr, true) &&
    SentToServer(p, ModemForward(up + stale, |up|, myAddr, true).value, myAddr, ltePort)
  }

  /**
   * From the uplink task over the link and through the modem: the frame fits the modem's buffer and is received
   * exactly, and what the modem makes of it does not depend on what the buffer held behind it.
   */
  lemma UplinkPath(p: seq<byte>, ltePort: u16, myAddr: u32, stale: seq<byte>)
    requires Translatable(p) && |p| <= MTU && myAddr != 0 && |p| + |stale| == GW_MAX_PACKET_SIZE
    ensures UplinkDelivered(p, ltePort, myAddr, stale)
  {
    var up := UplinkRewrite(p, ltePort);
    FrameFits(GW_MAX_PACKET_SIZE, up);
    FrameDecodes(Unbounded, up);
    UplinkRewriteChangesThePort(p, ltePort);
    SameLayout(p, up, SrcPortAt(p), SrcPortAt(p) + 2);
    ModemRewriteIsValid(up, myAddr);
    ModemPath(p, up, ModemRewrite(up, myAddr), ltePort);
    assert (up + stale)[..|up|] == up;
    RawUplinkIsRewrite(up + stale, |up|, myAddr);
  }

  lemma ModemPath(p: seq<byte>, sent: seq<byte>, q: seq<byte>, ltePort: u16)
    requires Translatable(p) && sent == UplinkRewrite(p, ltePort) && Shaped(sent)
    requires HeaderLen(sent) == HeaderLen(p) && sent[9] == p[9] && SrcPort(sent) == ltePort
    requires Shaped(q) && OnlyFieldsChange(sent, q, 12, ChecksumAt(sent))
    ensures HeaderLen(q) == HeaderLen(p) && q[9] == p[9] && DstIp(q) == DstIp(p) && SrcPort(q) == ltePort
    ensures forall k :: 0 <= k < |p| && !Field(p, 12, SrcPortAt(p), k) ==> q[k] == p[k]
  {
  }

  /** A packet that the server may send back to the translated port. */
  predicate IsReply(r: seq<byte>, protocol: byte, serverIp: u32, ltePort: u16)
  {
    WellFormed(r) && MIN_LENGTH <= |r| <= MTU && HeaderValid(r) &&
    r[9] == protocol && SrcIp(r) == serverIp && DstPort(r) == ltePort
  }

  /** In the gateway's buffer the packet is acceptable, whatever is behind it. */
  lemma ReplyIsAcceptable(r: seq<byte>, protocol: byte, serverIp: u32, ltePort: u16, stale: seq<byte>)
    requires IsReply(r, protocol, serverIp, ltePort) && |r| + |stale| == MAX_RX_DATA_L1_LENGTH
    ensures (r + stale)[..|r|] == r && Acceptable(r + stale, |r|) && InBounds(r + stale, |r|) &&
            PassesFilter(r + stale, |r|)
  {
    var b := r + stale;
    assert b[..|r|] == r;
    assert b[0..HeaderSize(b)] == r[0..HeaderLen(r)];
  }

  /** Over the link, whatever the driver would drop. */
  lemma ReplyArrives(r: seq<byte>, drops: seq<nat>)
    requires |r| <= MTU
    ensures RunDropping(MAX_RX_DATA_L1_LENGTH, Idle, Encode(r), drops) == (Idle, [r])
  {
    FrameFits(MAX_RX_DATA_L1_LENGTH - 1, r);
    NothingDropped(MAX_RX_DATA_L1_LENGTH, Idle, Encode(r), drops);
    FrameDecodes(Bounded(MAX_RX_DATA_L1_LENGTH), r);
  }

  /** The gateway receives `r` and sends it to exactly this client and port, with valid checksums and all other bytes unchanged. */
  ghost predicate ReplyDelivered(rows: seq<Row>, r: seq<byte>, stale: seq<byte>, at: nat, clientIp: u32, ethPort: u16)
    requires Shaped(r) && |r| + |stale| == MAX_RX_DATA_L1_LENGTH && InBounds(r + stale, |r|)
  {
    var out := HandleFrame(rows, r + stale, |r|, Millis(at)).1;
    out.Some? && Redirected(r, out.value, clientIp, ethPort) && TransportValid(out.value) &&
    forall drops :: RunDropping(MAX_RX_DATA_L1_LENGTH, Idle, Encode(r), drops) == (Idle, [r])
  }

  /** The row is in use during the whole run and has been used less than 20 seconds before `at`. */
  ghost predicate InUse(s: State, es: seq<Event>, at: nat, i: nat)
    requires Sized(s)
  {
    SurvivesRun(s, es, i) && Survives(NatMachine.Run(s, es), Collect(at), i)
  }

  lemma {:induction false} DeliveredReply(s: State, r: seq<byte>, stale: seq<byte>, at: nat, d: LogEntry)
    requires Sized(s) && d.Delivered? && |r| + |stale| == MAX_RX_DATA_L1_LENGTH
    requires IsReply(r, d.protocol, d.serverIp, d.ltePort)
    requires DownlinkStep(s, r[9], SrcIp(r), DstPort(r), at).log == s.log + [d]
    ensures InBounds(r + stale, |r|) && ReplyDelivered(s.rows, r, stale, at, d.clientIp, d.ethPort)
  {
    ReplyIsAcceptable(r, d.protocol, d.serverIp, d.ltePort, stale);
    ForwardIsDownlinkStep(s, r + stale, |r|, at);
    DownlinkRewriteIsValid(r, d.clientIp, d.ethPort);
    forall drops
      ensures RunDropping(MAX_RX_DATA_L1_LENGTH, Idle, Encode(r), drops) == (Idle, [r])
    {
      ReplyArrives(r, drops);
    }
  }

  /** Every reply to a row that has stayed in use is delivered. */
  lemma {:induction false} ReplyWhileInUse(s: State, i: nat, es: seq<Event>, at: nat, r: seq<byte>, stale: seq<byte>)
    requires Inv(s) && TimeInv(s) && i < |s.rows| && s.rows[i].Live() && InUse(s, es, at, i)
    requires IsReply(r, s.rows[i].protocol, s.rows[i].serverIp, s.rows[i].ltePort)
    requires |r| + |stale| == MAX_RX_DATA_L1_LENGTH
    ensures InBounds(r + stale, |r|)
    ensures ReplyDelivered(NatMachine.Run(s, es).rows, r, stale, at, s.rows[i].clientIp, s.rows[i].ethPort)
  {
    var row := s.rows[i];
    RowInUseAnswers(s, i, es, at);
    DeliveredReply(NatMachine.Run(s, es), r, stale, at,
                   Delivered(row.protocol, row.serverIp, row.ltePort, row.clientIp, row.ethPort));
  }

  /** If `r` is a reply and the row has stayed in use until it comes, it is delivered. */
  ghost predicate Answers(
    s: State, i: nat, protocol: byte, ltePort: u16, clientIp: u32, ethPort: u16,
    es: seq<Event>, at: nat, r: seq<byte>, stale: seq<byte>)
    requires Sized(s) && i < |s.rows|
  {
    InUse(s, es, at, i) && IsReply(r, protocol, s.rows[i].serverIp, ltePort) && |r| + |stale| == MAX_RX_DATA_L1_LENGTH ==>
      InBounds(r + stale, |r|) && ReplyDelivered(NatMachine.Run(s, es).rows, r, stale, at, clientIp, ethPort)
  }

  /** Every reply from the row's server to the row's port, at any time at which the row has stayed in use. */
  ghost predicate RepliesDelivered(s: State, i: nat, protocol: byte, ltePort: u16, clientIp: u32, ethPort: u16)
    requires Sized(s) && i < |s.rows|
  {
    forall es, at, r, stale :: Answers(s, i, protocol, ltePort, clientIp, ethPort, es, at, r, stale)
  }

  lemma {:induction false} RepliesWhileInUse(s: State, i: nat)
    requires Inv(s) && TimeInv(s) && i < |s.rows| && s.rows[i].Live()
    ensures var r := s.rows[i]; RepliesDelivered(s, i, r.protocol, r.ltePort, r.clientIp, r.ethPort)
  {
    var row := s.rows[i];
    forall es, at, r, stale
      ensures Answers(s, i, row.protocol, row.ltePort, row.clientIp, row.ethPort, es, at, r, stale)
    {
      if InUse(s, es, at, i) && IsReply(r, row.protocol, row.serverIp, row.ltePort) && |r| + |stale| == MAX_RX_DATA_L1_LENGTH {
        ReplyWhileInUse(s, i, es, at, r, stale);
      }
    }
  }

  /**
   * The round trip. In any reachable state, let a step of the uplink task translate packet `p`. The modem receives
   * exactly the translated packet and sends it on, from its own address and the translated port, with
   * valid checksums and everything else as the client sent it. From then on, for as long as the flow's row is
   * never left unused for 20 seconds, by packets in either direction, every reply from
   * the recorded server to that port is received exactly and leaves for precisely the client's address and
   * port, with valid checksums and no other change. For TCP, and for the first packet of a UDP or ICMP row, that
   * server is the packet's destination.
   */
  lemma {:induction false} RoundTrip(s: State, e: Event, s1: State, p: seq<byte>, sent: LogEntry, myAddr: u32, stale: seq<byte>)
    returns (i: nat)
    requires Inv(s) && TimeInv(s) && Timely(s.clock, e)
    requires Translatable(p) && |p| <= MTU && myAddr != 0 && |p| + |stale| == GW_MAX_PACKET_SIZE
    requires s1 == Next(s, e) && s1.log == s.log + [sent] && sent.Sent? && sent.flow == FlowOfPacket(p)
    ensures Serves(s1, i, sent.flow, sent.ltePort, sent.uart)
    ensures UplinkDelivered(p, sent.ltePort, myAddr, stale)
    ensures RepliesDelivered(s1, i, p[9], sent.ltePort, SrcIp(p), SrcPort(p))
    ensures p[9] == TCP || sent.added ==> s1.rows[i].serverIp == DstIp(p)
  {
    UplinkPath(p, sent.ltePort, myAddr, stale);
    StepKeepsInv(s, e);
    StepKeepsTime(s, e);
    i := SentHasRow(s, e);
    RepliesWhileInUse(s1, i);
  }

  /** A row stays in use for as long as its packets, in either direction, come less than 20 seconds apart, whatever else happens. */
  lemma {:induction false} UsedWhileTalking(s: State, i: nat, es: seq<Event>, at: nat)
    requires Inv(s) && TimeInv(s) && i < |s.rows| && s.rows[i].Live() && UsedOften(s, es, i, s.stamps[i])
    requires NatMachine.Run(s, es).clock <= at < LastUse(s, es, i, s.stamps[i]) + PMAP_TIMEOUT_MS
    ensures InUse(s, es, at, i)
  {
    var s' := NatMachine.Run(s, es);
    PacketsKeepRowInUse(s, es, i, s.stamps[i]);
    FlowAffinity(s, es, i);
    assert StampOk(s'.rows[i], s'.stamps[i], s'.clock);
  }

  /** In particular whatever happens in the 20 seconds after the packet has left. */
  lemma {:induction false} UsedForTwentySeconds(s: State, i: nat, es: seq<Event>, at: nat)
    requires Inv(s) && TimeInv(s) && i < |s.rows| && s.rows[i].Live() && s.stamps[i] == s.clock
    requires Before(s.clock, es, s.clock + PMAP_TIMEOUT_MS)
    requires NatMachine.Run(s, es).clock <= at < s.clock + PMAP_TIMEOUT_MS
    ensures InUse(s, es, at, i)
  {
    var r := s.rows[i];
    ReplyInTime(s, i, FlowOf(r), r.ltePort, r.uart, es, at);
  }

  /**
   * Nothing damaged reaches a client. Whatever a line has carried since power-up and whatever the driver has thrown
   * away: if a frame leads to a packet for a client, the line carried its encoding in one piece, its length field and
   * its header checksum are right, and an unexpired row has its protocol and its source address.
   */
  lemma {:induction false} NothingDamagedReachesClients(
    stream: seq<byte>, drops: seq<nat>, k: nat, f: seq<byte>, stale: seq<byte>, rows: seq<Row>, now: u32)
    returns (at: nat)
    requires var frames := RunDropping(MAX_RX_DATA_L1_LENGTH, Idle, stream, drops).1; k < |frames| && f == frames[k]
    requires |f| + |stale| == MAX_RX_DATA_L1_LENGTH
    requires PassesFilter(f + stale, |f|) && Acceptable(f + stale, |f|) ==> InBounds(f + stale, |f|)
    ensures at + |Encode(f)| <= |stream| && stream[at..at + |Encode(f)|] == Encode(f)
    ensures var b := f + stale;
            HandleFrame(rows, b, |f|, now).1.Some? ==>
              21 <= |f| <= 1280 && b[..|f|] == f && 0x100 * b[2] as int + b[3] as int == |f| &&
              Checksum(b[0..b[0] as int % 0x10 * 4]) == 0 &&
              exists i :: 0 <= i < |rows| && !Expired(rows[i], now) && rows[i].protocol == b[9] && rows[i].serverIp == Le32(b, 12)
  {
    at := DeliveredWasOnTheLine(MAX_RX_DATA_L1_LENGTH, stream, drops, k);
    ForwardedExactlyWhen(rows, f + stale, |f|, now);
  }

  /** Every state of a timely run from power-up meets the conditions of the round trip. */
  lemma ReachableStatesQualify(n: nat, es: seq<Event>)
    requires PMAP_BASE_PORT + n * 4 < 0x1_0000 && TimelyRun(Init(n), es)
    ensures Inv(NatMachine.Run(Init(n), es)) && TimeInv(NatMachine.Run(Init(n), es))
  {
    InitInv(n);
    RunKeepsInv(Init(n), es);
    RunKeepsTime(Init(n), es);
  }
}
