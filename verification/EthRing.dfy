/** The ring as the two tasks use it: a static array of slots and two volatile indices. */
module EthRings {
  import opened Bytes
  import opened InternetChecksum
  import opened IpUtil
  import opened RingMachine
  import opened EchoReplies

  const MIN_FRAME_SZ := 35
  const MTU := 1280

  /** The longest IP header, behind an Ethernet header. */
  const HEADERS := 14 + 60

  /** The frames of `n` bytes in the driver's buffer that `eth_rx_handler` passes on to the uplink task when there is room. */
  predicate ForUplink(b: seq<byte>, n: nat, me: Interface)
    requires |b| >= HEADERS && me.Valid()
  {
    MIN_FRAME_SZ <= n <= MTU && b[12] == 0x08 && b[13] == 0x00 &&
    b[22] >= 64 && b[0..6] == me.mac && b[14] / 0x10 == 4 &&
    Checksum(b[14..14 + b[14] % 0x10 * 4]) == 0 &&
    (b[23] == 0x06 || b[23] == 0x11 || (b[23] == 0x01 && b[30..34] != me.ip))
  }

  /**
   * In terms of the IP packet `p` behind the Ethernet header, for any bytes: a frame of 35 to 1280 bytes is passed on if
   * and only if it is an IPv4 frame for the gateway's MAC address, the TTL is at least 64, the words of the IP header carry
   * around to 65535, and it is TCP, UDP, or an ICMP message that is not for the gateway itself.
   */
  lemma PassedOnExactlyWhen(b: seq<byte>, n: nat, p: seq<byte>, me: Interface)
    requires |b| >= HEADERS && me.Valid() && p == b[14..]
    ensures ForUplink(b, n, me) <==>
            35 <= n <= 1280 && b[0..6] == me.mac && b[12..14] == [0x08, 0x00] && p[0] / 0x10 == 4 && p[8] >= 64 &&
            Residue(WordSum(p[0..p[0] % 0x10 * 4], 0)) == 0xFFFF &&
            (p[9] == 0x06 || p[9] == 0x11 || (p[9] == 0x01 && p[16..20] != me.ip))
  {
    ZeroChecksum(p[0..p[0] % 0x10 * 4]);
    assert p[0..p[0] % 0x10 * 4] == b[14..14 + b[14] % 0x10 * 4];
    assert b[30..34] == p[16..20];
    assert b[12..14] == [b[12], b[13]];
  }

  /** The tests of `eth_rx_handler`. A header longer than the frame is read from what lies behind it in the buffer. */
  method WantsUplink(buffer: seq<byte>, length: nat, me: Interface) returns (go: bool)
    requires |buffer| >= HEADERS && me.Valid()
    ensures go <==> ForUplink(buffer, length, me)
    ensures go ==> length <= SLOT_SIZE
  {
    go := false;
    if length >= MIN_FRAME_SZ && MTU >= length {
      var frameType := 0x100 * buffer[12] as int + buffer[13] as int;
      if frameType == 0x0800 && buffer[22] >= 64 && buffer[0..6] == me.mac && buffer[14] / 0x10 == 4 {
        var hdr := buffer[14] % 0x10 * 4;
        var cs := IpChecksum1(buffer[14..14 + hdr]);
        if cs == 0 {
          if buffer[23] == 0x01 {
            go := buffer[30..34] != me.ip;
          } else {
            go := buffer[23] == 0x06 || buffer[23] == 0x11;
          }
        }
      }
    }
  }

  class EthRing {
    const rxb: array2<byte>
    var wi: nat
    var ri: nat
    // where the two tasks stand, and the history
    ghost var producer: Producer
    ghost var consumer: Consumer
    ghost var accepted: seq<seq<byte>>
    ghost var consumed: seq<seq<byte>>

    ghost function Slot(i: nat): (s: seq<byte>)
      reads rxb
      requires i < rxb.Length0
      ensures |s| == rxb.Length1
    {
      seq(rxb.Length1, j requires 0 <= j < rxb.Length1 reads rxb => rxb[i, j])
    }

    ghost function Slots(): (s: seq<seq<byte>>)
      reads rxb
      ensures |s| == rxb.Length0
    {
      seq(rxb.Length0, i requires 0 <= i < rxb.Length0 reads rxb => Slot(i))
    }

    ghost function State(): Ring
      reads this, rxb
    {
      Ring(Slots(), wi, ri, producer, consumer, accepted, consumed)
    }

    ghost predicate Valid()
      reads this, rxb
    {
      rxb.Length0 == COUNT && rxb.Length1 == SLOT_SIZE && Inv(State())
    }

    constructor ()
      ensures Valid() && fresh(rxb)
      ensures accepted == [] && consumed == [] && producer == Waiting && consumer == Polling
    {
      rxb := new byte[COUNT, SLOT_SIZE]((_, _) => 0);
      wi, ri := COUNT - 1, COUNT - 1;
      producer, consumer, accepted, consumed := Waiting, Polling, [], [];
    }

    lemma SlotsUpdate(i: nat, j: nat, v: byte, before: seq<seq<byte>>)
      requires i < rxb.Length0 && j < rxb.Length1 && |before| == rxb.Length0
      requires forall a :: 0 <= a < |before| ==> |before[a]| == rxb.Length1
      requires forall a, b :: 0 <= a < rxb.Length0 && 0 <= b < rxb.Length1 ==>
                 rxb[a, b] == if a == i && b == j then v else before[a][b]
      ensures Slots() == before[i := Put(before[i], j, v)]
    {
      forall a | 0 <= a < rxb.Length0
        ensures Slots()[a] == before[i := Put(before[i], j, v)][a]
      {
        assert forall b :: 0 <= b < rxb.Length1 ==> Slot(a)[b] == rxb[a, b];
      }
    }

    // Producer

    /** `is_eth_rxb_we` and the decision to copy. */
    method CheckWritable(frame: seq<byte>) returns (nxt: nat, go: bool)
      requires Valid() && producer == Waiting && |frame| <= SLOT_SIZE
      modifies this`producer
      ensures Valid() && State() == Next(old(State()), Check(frame))
      ensures go <==> producer == Copying(frame, 0)
      ensures nxt == After(wi)
    {
      StepKeepsInv(State(), Check(frame));
      nxt := (wi + 1) % COUNT;
      go := nxt != ri;
      if go {
        producer := Copying(frame, 0);
      }
    }

    /** One byte of the `memcpy`. */
    method CopyOne(nxt: nat, k: nat, value: byte)
      requires Valid() && producer.Copying? && producer.copied == k < |producer.frame|
      requires nxt == After(wi) && value == producer.frame[k]
      modifies rxb, this`producer
      ensures Valid() && State() == Next(old(State()), CopyByte)
    {
      StepKeepsInv(State(), CopyByte);
      ghost var before := Slots();
      rxb[nxt, k] := value;
      SlotsUpdate(nxt, k, value, before);
      producer := Copying(producer.frame, k + 1);
    }

    /** `eth_rxb_wi = nxt` */
    method PublishSlot(nxt: nat)
      requires Valid() && producer.Copying? && producer.copied == |producer.frame| && nxt == After(wi)
      modifies this`wi, this`producer, this`accepted
      ensures Valid() && State() == Next(old(State()), Publish)
    {
      StepKeepsInv(State(), Publish);
      wi := nxt;
      accepted := accepted + [producer.frame];
      producer := Waiting;
    }

    // Consumer

    /** `is_eth_rxb_re` */
    method PollReadable() returns (nxt: nat, go: bool)
      requires Valid() && consumer == Polling
      modifies this`consumer
      ensures Valid() && State() == Next(old(State()), Poll)
      ensures go <==> consumer.Working?
      ensures nxt == After(ri)
    {
      StepKeepsInv(State(), Poll);
      nxt := (ri + 1) % COUNT;
      go := ri != wi;
      if go {
        consumer := Working(Slot(nxt), Slot(nxt));
      }
    }

    /** What the consumer reads is what it took, with its own edits. */
    method ReadByte(nxt: nat, k: nat) returns (value: byte)
      requires Valid() && consumer.Working? && nxt == After(ri) && k < SLOT_SIZE
      ensures value == consumer.now[k]
    {
      value := rxb[nxt, k];
      assert Slots()[nxt][k] == rxb[nxt, k];
    }

    method EditByte(nxt: nat, k: nat, value: byte)
      requires Valid() && consumer.Working? && nxt == After(ri) && k < SLOT_SIZE
      modifies rxb, this`consumer
      ensures Valid() && State() == Next(old(State()), Edit(k, value))
    {
      StepKeepsInv(State(), Edit(k, value));
      ghost var before := Slots();
      rxb[nxt, k] := value;
      SlotsUpdate(nxt, k, value, before);
      consumer := consumer.(now := Put(consumer.now, k, value));
    }

    /** `eth_rxb_ri = nxt` */
    method ReleaseSlot(nxt: nat)
      requires Valid() && consumer.Working? && nxt == After(ri)
      modifies this`ri, this`consumer, this`consumed
      ensures Valid() && State() == Next(old(State()), Advance)
    {
      StepKeepsInv(State(), Advance);
      ri := nxt;
      consumed := consumed + [consumer.taken];
      consumer := Polling;
    }
  }
}
