/**
 * The byte-stuffed link between the ESP32 and a modem. A frame is STX, the packet with every
 * STX, ETX and DLE preceded by DLE, and ETX.
 *
 * The two receivers are one machine with different limits: the gateway's gives a frame up when
 * its 1295-byte buffer is full, the modem's does not count.
 */
module Framing {
  import opened Bytes
  import opened Options

  const STX: byte := 0x02
  const ETX: byte := 0x03
  const DLE: byte := 0x10

  predicate IsControl(c: byte)
  {
    c == STX || c == ETX || c == DLE
  }

  // Sender

  function Escape(c: byte): seq<byte>
  {
    if IsControl(c) then [DLE, c] else [c]
  }

  function Body(packet: seq<byte>): seq<byte>
  {
    if packet == [] then [] else Escape(packet[0]) + Body(packet[1..])
  }

  function Encode(packet: seq<byte>): seq<byte>
  {
    [STX] + Body(packet) + [ETX]
  }

  function EncodeAll(packets: seq<seq<byte>>): seq<byte>
  {
    if packets == [] then [] else Encode(packets[0]) + EncodeAll(packets[1..])
  }

  /** One byte as it goes over the wire. */
  lemma OnTheWire(c: byte)
    ensures Encode([c]) == if c == 0x02 || c == 0x03 || c == 0x10 then [0x02, 0x10, c, 0x03] else [0x02, c, 0x03]
  {
    assert [c][1..] == [];
    assert Body([c]) == Escape(c) + Body([]);
  }

  lemma {:induction false} BodyAppend(p: seq<byte>, c: byte)
    ensures Body(p + [c]) == Body(p) + Escape(c)
  {
    if p == [] {
      assert Body([c]) == Escape(c) + Body([]);
    } else {
      assert (p + [c])[1..] == p[1..] + [c];
      BodyAppend(p[1..], c);
      Reassociate(Escape(p[0]), Body(p[1..]), Escape(c));
    }
  }

  // Receiver

  /** `Bounded(n)`: the frame is abandoned when its `n`-th byte is stored. */
  datatype Limit = Unbounded | Bounded(n: nat)
  {
    predicate Admits(length: nat)
    {
      Bounded? ==> length < n
    }
  }

  datatype Receiver = Idle | InFrame(data: seq<byte>, escaped: bool)

  function Store(limit: Limit, data: seq<byte>, c: byte): Receiver
  {
    if limit.Admits(|data| + 1) then InFrame(data + [c], false) else Idle
  }

  /** One received byte: the next state and the frame that the byte completes, if any. */
  function Step(limit: Limit, r: Receiver, c: byte): (Receiver, Option<seq<byte>>)
  {
    match r
    case Idle => (if c == STX then InFrame([], false) else Idle, None)
    case InFrame(data, true) =>
      if IsControl(c) then (Store(limit, data, c), None) else (Idle, None)
    case InFrame(data, false) =>
      if c == STX then (Idle, None)
      else if c == ETX then (Idle, Some(data))
      else if c == DLE then (InFrame(data, true), None)
      else (Store(limit, data, c), None)
  }

  function Emit(frame: Option<seq<byte>>): seq<seq<byte>>
  {
    match frame
    case None => []
    case Some(f) => [f]
  }

  function Run(limit: Limit, r: Receiver, stream: seq<byte>): (Receiver, seq<seq<byte>>)
    decreases |stream|
  {
    if stream == [] then (r, [])
    else
      var (r1, frame) := Step(limit, r, stream[0]);
      var (r2, frames) := Run(limit, r1, stream[1..]);
      (r2, Emit(frame) + frames)
  }

  lemma {:induction false} RunConcat(limit: Limit, r: Receiver, s: seq<byte>, t: seq<byte>)
    ensures var (r1, f1) := Run(limit, r, s);
            var (r2, f2) := Run(limit, r1, t);
            Run(limit, r, s + t) == (r2, f1 + f2)
    decreases |s|
  {
    if s == [] {
      assert s + t == t;
      assert [] + Run(limit, r, t).1 == Run(limit, r, t).1;
    } else {
      var (r1, frame) := Step(limit, r, s[0]);
      RunConcat(limit, r1, s[1..], t);
      assert (s + t)[1..] == s[1..] + t;
      var (r2, f2) := Run(limit, r1, s[1..]);
      Reassociate(Emit(frame), f2, Run(limit, r2, t).1);
    }
  }

  lemma RunAppend(limit: Limit, r: Receiver, s: seq<byte>, c: byte)
    ensures var (r1, f1) := Run(limit, r, s);
            var (r2, f2) := Step(limit, r1, c);
            Run(limit, r, s + [c]) == (r2, f1 + Emit(f2))
  {
    RunConcat(limit, r, s, [c]);
    var (r1, f1) := Run(limit, r, s);
    RunOne(limit, r1, c);
  }

  lemma RunOne(limit: Limit, r: Receiver, c: byte)
    ensures var (r2, f) := Step(limit, r, c); Run(limit, r, [c]) == (r2, Emit(f))
  {
    var (r2, f) := Step(limit, r, c);
    assert Run(limit, r2, [c][1..]) == (r2, []);
    assert Emit(f) + [] == Emit(f);
  }

  // Round trip

  /** Inside a frame, the encoded bytes are appended to what has been received. */
  lemma {:induction false} BodyDecodes(limit: Limit, data: seq<byte>, packet: seq<byte>)
    requires limit.Admits(|data| + |packet|)
    ensures Run(limit, InFrame(data, false), Body(packet)) == (InFrame(data + packet, false), [])
    decreases |packet|
  {
    if packet == [] {
      assert data + packet == data;
    } else {
      var c, rest := packet[0], packet[1..];
      assert data + [c] + rest == data + packet by {
        assert [c] + rest == packet;
      }
      UnitThenBody(limit, data, c, Body(rest));
      BodyDecodes(limit, data + [c], rest);
    }
  }

  /** One escape unit with room for its byte, then anything. */
  lemma UnitThenBody(limit: Limit, data: seq<byte>, c: byte, tail: seq<byte>)
    requires limit.Admits(|data| + 1)
    ensures Run(limit, InFrame(data, false), Escape(c) + tail) == Run(limit, InFrame(data + [c], false), tail)
  {
    EscapeDecodes(limit, data, c);
    RunConcat(limit, InFrame(data, false), Escape(c), tail);
    var frames := Run(limit, InFrame(data + [c], false), tail).1;
    assert [] + frames == frames;
  }

  lemma EscapeDecodes(limit: Limit, data: seq<byte>, c: byte)
    ensures Run(limit, InFrame(data, false), Escape(c)) == (Store(limit, data, c), [])
  {
    if IsControl(c) {
      RunOne(limit, InFrame(data, true), c);
      assert Escape(c)[1..] == [c];
    } else {
      RunOne(limit, InFrame(data, false), c);
    }
  }

  /** One frame, received from the idle state, is exactly the packet that was sent. */
  lemma FrameDecodes(limit: Limit, packet: seq<byte>)
    requires limit.Admits(|packet|)
    ensures Run(limit, Idle, Encode(packet)) == (Idle, [packet])
  {
    var s := [STX] + Body(packet);
    RunOne(limit, Idle, STX);
    RunConcat(limit, Idle, [STX], Body(packet));
    BodyDecodes(limit, [], packet);
    assert [] + packet == packet;
    RunAppend(limit, Idle, s, ETX);
    assert [] + [packet] == [packet];
  }

  /** Every list of packets that fit comes out of the other end of the link as sent. */
  lemma {:induction false} StreamRoundTrip(limit: Limit, packets: seq<seq<byte>>)
    requires forall p :: p in packets ==> limit.Admits(|p|)
    ensures Run(limit, Idle, EncodeAll(packets)) == (Idle, packets)
  {
    if packets != [] {
      FrameDecodes(limit, packets[0]);
      StreamRoundTrip(limit, packets[1..]);
      RunConcat(limit, Idle, Encode(packets[0]), EncodeAll(packets[1..]));
      assert [packets[0]] + packets[1..] == packets;
    }
  }

  /** Two different lists of packets never produce the same bytes on the wire. */
  lemma EncodingIsInjective(ps: seq<seq<byte>>, qs: seq<seq<byte>>)
    ensures EncodeAll(ps) == EncodeAll(qs) <==> ps == qs
  {
    StreamRoundTrip(Unbounded, ps);
    StreamRoundTrip(Unbounded, qs);
  }

  // Self-synchronisation

  /**
   * Where a packet body can leave a receiver that entered it at a boundary between escape units:
   * idle, still in the frame it was in, or in a false frame begun at an escaped STX
   * inside the body, which holds less than the packet.
   */
  ghost predicate AfterBody(r: Receiver, packet: seq<byte>, r': Receiver)
  {
    r'.InFrame? ==> !r'.escaped && (|r'.data| < |packet| || (r.InFrame? && r'.data == r.data + packet))
  }

  /** A full buffer may end a frame and an escaped STX may start one, but only at such a boundary. */
  lemma {:induction false} BodyKeepsBoundary(limit: Limit, r: Receiver, packet: seq<byte>)
    requires r.InFrame? ==> !r.escaped
    ensures var (r', frames) := Run(limit, r, Body(packet)); AfterBody(r, packet, r') && frames == []
    decreases |packet|
  {
    if packet == [] {
      assert r.InFrame? ==> r.data == r.data + packet;
    } else {
      var c := packet[0];
      UnitKeepsBoundary(limit, r, c);
      RunConcat(limit, r, Escape(c), Body(packet[1..]));
      var r1 := Run(limit, r, Escape(c)).0;
      BodyKeepsBoundary(limit, r1, packet[1..]);
      if r.InFrame? && r1.InFrame? {
        assert r.data + [c] + packet[1..] == r.data + packet;
      }
    }
  }

  lemma UnitKeepsBoundary(limit: Limit, r: Receiver, c: byte)
    requires r.InFrame? ==> !r.escaped
    ensures var (r', frames) := Run(limit, r, Escape(c));
            frames == [] &&
            (r'.InFrame? ==> !r'.escaped && r'.data == if r.InFrame? then r.data + [c] else [])
  {
    if r.InFrame? {
      EscapeDecodes(limit, r.data, c);
    } else if IsControl(c) {
      assert Escape(c) == [DLE] + [c];
      RunConcat(limit, r, [DLE], [c]);
      RunOne(limit, r, DLE);
      RunOne(limit, r, c);
    } else {
      RunOne(limit, r, c);
    }
  }

  /**
   * One complete frame brings the receiver back to idle, whatever state it was in and however
   * long the packet. A packet that fits is received if and only if the receiver was idle already.
   */
  lemma FrameResynchronises(limit: Limit, r: Receiver, packet: seq<byte>)
    ensures Run(limit, r, Encode(packet)).0 == Idle
    ensures limit.Admits(|packet|) ==> (Run(limit, r, Encode(packet)).1 == [packet] <==> r == Idle)
  {
    var s := [STX] + Body(packet);
    RunOne(limit, r, STX);
    RunConcat(limit, r, [STX], Body(packet));
    var r1 := Run(limit, r, [STX]).0;
    BodyKeepsBoundary(limit, r1, packet);
    RunAppend(limit, r, s, ETX);
    if r == Idle {
      if limit.Admits(|packet|) {
        FrameDecodes(limit, packet);
      }
    } else {
      var r2 := Run(limit, r, s).0;
      assert r2.InFrame? ==> |r2.data| != |packet|;
      assert Run(limit, r, Encode(packet)).1 == Emit(Step(limit, r2, ETX).1);
    }
  }

  /**
   * After any noise whatever, at most one frame is lost: everything sent after the first
   * complete frame is received exactly, and the first frame too if and only if the noise
   * leaves the receiver idle.
   */
  lemma SelfSynchronising(limit: Limit, noise: seq<byte>, first: seq<byte>, packets: seq<seq<byte>>)
    requires limit.Admits(|first|) && forall p :: p in packets ==> limit.Admits(|p|)
    ensures Run(limit, Idle, noise + Encode(first) + EncodeAll(packets)) ==
            (Idle, Run(limit, Idle, noise + Encode(first)).1 + packets)
    ensures Run(limit, Idle, noise + Encode(first)).1 == Run(limit, Idle, noise).1 + [first] <==>
            Run(limit, Idle, noise).0 == Idle
  {
    var (r, frames) := Run(limit, Idle, noise);
    var lost := Run(limit, r, Encode(first)).1;
    assert frames + lost == frames + [first] <==> lost == [first] by {
      assert (frames + lost)[|frames|..] == lost && (frames + [first])[|frames|..] == [first];
    }
    RunConcat(limit, Idle, noise, Encode(first));
    FrameResynchronises(limit, Run(limit, Idle, noise).0, first);
    RunConcat(limit, Idle, noise + Encode(first), EncodeAll(packets));
    StreamRoundTrip(limit, packets);
  }

  /** A bounded receiver never holds as many bytes as its limit, and never delivers that many. */
  lemma {:induction false} BoundedNeverFull(n: nat, r: Receiver, stream: seq<byte>)
    requires n > 0 && (r.InFrame? ==> |r.data| < n)
    ensures var (r', frames) := Run(Bounded(n), r, stream);
            (r'.InFrame? ==> |r'.data| < n) && forall f :: f in frames ==> |f| < n
    decreases |stream|
  {
    if stream != [] {
      BoundedNeverFull(n, Step(Bounded(n), r, stream[0]).0, stream[1..]);
    }
  }

  /** The stream never makes the unbounded receiver hold more than `n` bytes. */
  ghost predicate Fits(n: nat, r: Receiver, stream: seq<byte>)
    decreases |stream|
  {
    (r.InFrame? ==> |r.data| <= n) &&
    (stream == [] || Fits(n, Step(Unbounded, r, stream[0]).0, stream[1..]))
  }

  lemma {:induction false} FitsSplit(n: nat, r: Receiver, s: seq<byte>, t: seq<byte>)
    ensures Fits(n, r, s + t) <==> Fits(n, r, s) && Fits(n, Run(Unbounded, r, s).0, t)
    decreases |s|
  {
    if s == [] {
      assert s + t == t;
    } else {
      FitsSplit(n, Step(Unbounded, r, s[0]).0, s[1..], t);
      assert (s + t)[1..] == s[1..] + t;
    }
  }

  lemma FitsOne(n: nat, r: Receiver, c: byte)
    ensures Fits(n, r, [c]) <==> (r.InFrame? ==> |r.data| <= n) && Fits(n, Step(Unbounded, r, c).0, [])
  {
    assert [c][1..] == [];
  }

  lemma UnitFits(n: nat, data: seq<byte>, c: byte)
    requires |data| < n
    ensures Fits(n, InFrame(data, false), Escape(c))
  {
    if IsControl(c) {
      assert Escape(c) == [DLE] + [c];
      FitsSplit(n, InFrame(data, false), [DLE], [c]);
      RunOne(Unbounded, InFrame(data, false), DLE);
      FitsOne(n, InFrame(data, false), DLE);
      FitsOne(n, InFrame(data, true), c);
    } else {
      FitsOne(n, InFrame(data, false), c);
    }
  }

  lemma {:induction false} BodyFits(n: nat, data: seq<byte>, packet: seq<byte>)
    requires |data| + |packet| <= n
    ensures Fits(n, InFrame(data, false), Body(packet))
    decreases |packet|
  {
    if packet != [] {
      var c := packet[0];
      UnitFits(n, data, c);
      EscapeDecodes(Unbounded, data, c);
      BodyFits(n, data + [c], packet[1..]);
      FitsSplit(n, InFrame(data, false), Escape(c), Body(packet[1..]));
    }
  }

  /** One frame fits exactly when its packet does. */
  lemma FrameFits(n: nat, packet: seq<byte>)
    ensures Fits(n, Idle, Encode(packet)) <==> |packet| <= n
  {
    var s := [STX] + Body(packet);
    assert [] + packet == packet;
    RunOne(Unbounded, Idle, STX);
    RunConcat(Unbounded, Idle, [STX], Body(packet));
    BodyDecodes(Unbounded, [], packet);
    FitsSplit(n, Idle, s, [ETX]);
    FitsOne(n, InFrame(packet, false), ETX);
    if |packet| <= n {
      BodyFits(n, [], packet);
      FitsOne(n, Idle, STX);
      FitsSplit(n, Idle, [STX], Body(packet));
    }
  }

  /**
   * A receiver with `n` bytes of buffer and no test for a full one is never overrun exactly when the
   * sender keeps to `n` bytes a packet.
   */
  lemma {:induction false} StreamFits(n: nat, packets: seq<seq<byte>>)
    ensures Fits(n, Idle, EncodeAll(packets)) <==> forall p :: p in packets ==> |p| <= n
  {
    if packets != [] {
      var p, rest := packets[0], packets[1..];
      StreamFits(n, rest);
      FrameFits(n, p);
      FrameDecodes(Unbounded, p);
      FitsSplit(n, Idle, Encode(p), EncodeAll(rest));
      assert packets == [p] + rest;
    }
  }

  // Pending bytes dropped when the buffer is full

  predicate Stores(r: Receiver, c: byte)
  {
    r.InFrame? && if r.escaped then IsControl(c) else !IsControl(c)
  }

  /** The byte fills the buffer, and the gateway throws away whatever its UART driver has pending. */
  predicate Overflows(n: nat, r: Receiver, c: byte)
  {
    Stores(r, c) && |r.data| + 1 >= n
  }

  /** How many pending bytes are dropped at an overflow is up to the driver: `drops` lists it, one number an overflow. */
  function Dropped(n: nat, r: Receiver, stream: seq<byte>, drops: seq<nat>): (d: nat)
    requires stream != []
    ensures d < |stream|
  {
    if !Overflows(n, r, stream[0]) || drops == [] then 0
    else if drops[0] < |stream| then drops[0] else |stream| - 1
  }

  function DropsAfter(n: nat, r: Receiver, c: byte, drops: seq<nat>): seq<nat>
  {
    if Overflows(n, r, c) && drops != [] then drops[1..] else drops
  }

  function RunDropping(n: nat, r: Receiver, stream: seq<byte>, drops: seq<nat>): (Receiver, seq<seq<byte>>)
    decreases |stream|
  {
    if stream == [] then (r, [])
    else
      var c := stream[0];
      var (r1, frame) := Step(Bounded(n), r, c);
      var (r2, frames) := RunDropping(n, r1, stream[1 + Dropped(n, r, stream, drops)..], DropsAfter(n, r, c, drops));
      (r2, Emit(frame) + frames)
  }

  /** A byte for which there is room overflows nothing, and the limit makes no difference to it. */
  lemma StepFits(n: nat, r: Receiver, s: seq<byte>)
    requires n > 0 && s != [] && Fits(n - 1, r, s)
    ensures !Overflows(n, r, s[0]) && Step(Bounded(n), r, s[0]) == Step(Unbounded, r, s[0])
    ensures Fits(n - 1, Step(Unbounded, r, s[0]).0, s[1..])
  {
    var r1 := Step(Unbounded, r, s[0]).0;
    assert Fits(n - 1, r1, s[1..]);
    if Stores(r, s[0]) {
      assert r1 == InFrame(r.data + [s[0]], false);
    }
  }

  /** As long as the buffer does not fill, nothing is dropped. */
  lemma {:induction false} NothingDropped(n: nat, r: Receiver, stream: seq<byte>, drops: seq<nat>)
    requires n > 0 && Fits(n - 1, r, stream)
    ensures RunDropping(n, r, stream, drops) == Run(Bounded(n), r, stream)
    decreases |stream|
  {
    if stream != [] {
      StepFits(n, r, stream);
      NothingDropped(n, Step(Bounded(n), r, stream[0]).0, stream[1..], drops);
    }
  }

  lemma Reassociate<T>(a: seq<T>, b: seq<T>, c: seq<T>)
    ensures a + (b + c) == (a + b) + c
  {
  }

  /**
   * Synchronisation with dropped bytes. In whatever state noise and drops have left the receiver, once it
   * reads a whole frame without filling its buffer it is idle, and everything sent after that frame is received
   * exactly, whatever the driver would have dropped.
   */
  lemma SynchronisesDespiteDrops(n: nat, r: Receiver, first: seq<byte>, packets: seq<seq<byte>>, drops: seq<nat>)
    requires n > 0 && Fits(n - 1, r, Encode(first)) && forall p :: p in packets ==> |p| < n
    ensures RunDropping(n, r, Encode(first) + EncodeAll(packets), drops) ==
            (Idle, Run(Bounded(n), r, Encode(first)).1 + packets)
  {
    FrameResynchronises(Unbounded, r, first);
    StreamFits(n - 1, packets);
    FitsSplit(n - 1, r, Encode(first), EncodeAll(packets));
    NothingDropped(n, r, Encode(first) + EncodeAll(packets), drops);
    FrameResynchronises(Bounded(n), r, first);
    RunConcat(Bounded(n), r, Encode(first), EncodeAll(packets));
    StreamRoundTrip(Bounded(n), packets);
  }
}
