/**
 * The receive ring between the Ethernet driver (`eth_rx_handler`, the only producer) and the
 * uplink task (`task_gw_uart_tx`, the only consumer). There is no lock: two indices and the order of
 * the steps have to do. Every memory access of either side is a step of its own here.
 */
module RingMachine {
  import opened Bytes

  const COUNT := 16
  const SLOT_SIZE := 1294

  /** The producer has seen a free slot and has copied `copied` bytes of the frame into it. */
  datatype Producer = Waiting | Copying(frame: seq<byte>, copied: nat)

  /** The consumer holds a slot: its content when it was taken, and now, after the consumer's own edits. */
  datatype Consumer = Polling | Working(taken: seq<byte>, now: seq<byte>)

  /** `accepted` and `consumed` are history variables. */
  datatype Ring = Ring(
    slots: seq<seq<byte>>, wi: nat, ri: nat,
    producer: Producer, consumer: Consumer,
    accepted: seq<seq<byte>>, consumed: seq<seq<byte>>)

  datatype Event =
    | Check(frame: seq<byte>)
    | CopyByte
    | Publish
    | Poll
    | Edit(at: nat, value: byte)
    | Advance

  function Init(): Ring
  {
    Ring(seq(COUNT, _ => seq(SLOT_SIZE, _ => 0)), COUNT - 1, COUNT - 1, Waiting, Polling, [], [])
  }

  predicate Shaped(r: Ring)
  {
    |r.slots| == COUNT && r.wi < COUNT && r.ri < COUNT &&
    (forall i :: 0 <= i < COUNT ==> |r.slots[i]| == SLOT_SIZE) &&
    (r.producer.Copying? ==> r.producer.copied <= |r.producer.frame| <= SLOT_SIZE) &&
    (r.consumer.Working? ==> |r.consumer.now| == SLOT_SIZE)
  }

  function Put(b: seq<byte>, i: nat, v: byte): (r: seq<byte>)
    requires i < |b|
    ensures |r| == |b|
  {
    b[i := v]
  }

  function After(i: nat): (n: nat)
    ensures n < COUNT
  {
    (i + 1) % COUNT
  }

  predicate Writable(r: Ring)
  {
    After(r.wi) != r.ri
  }

  predicate Readable(r: Ring)
  {
    r.ri != r.wi
  }

  /** A step that its task cannot take where it stands does nothing. */
  function Next(r: Ring, e: Event): (r': Ring)
    requires Shaped(r)
    ensures Shaped(r')
  {
    match e
    case Check(frame) =>
      if r.producer.Waiting? && |frame| <= SLOT_SIZE && Writable(r) then r.(producer := Copying(frame, 0)) else r
    case CopyByte =>
      if r.producer.Copying? && r.producer.copied < |r.producer.frame| then
        var c := r.producer.copied;
        var i := After(r.wi);
        r.(slots := r.slots[i := Put(r.slots[i], c, r.producer.frame[c])], producer := Copying(r.producer.frame, c + 1))
      else r
    case Publish =>
      if r.producer.Copying? && r.producer.copied == |r.producer.frame| then
        r.(wi := After(r.wi), producer := Waiting, accepted := r.accepted + [r.producer.frame])
      else r
    case Poll =>
      if r.consumer.Polling? && Readable(r) then
        r.(consumer := Working(r.slots[After(r.ri)], r.slots[After(r.ri)]))
      else r
    case Edit(at, value) =>
      if r.consumer.Working? && at < SLOT_SIZE then
        var i := After(r.ri);
        r.(slots := r.slots[i := Put(r.slots[i], at, value)], consumer := r.consumer.(now := Put(r.consumer.now, at, value)))
      else r
    case Advance =>
      if r.consumer.Working? then
        r.(ri := After(r.ri), consumer := Polling, consumed := r.consumed + [r.consumer.taken])
      else r
  }

  function Run(r: Ring, es: seq<Event>): (r': Ring)
    requires Shaped(r)
    ensures Shaped(r')
    decreases |es|
  {
    if es == [] then r else Run(Next(r, es[0]), es[1..])
  }

  // Invariant

  /** The slot of frame number `n`. */
  function SlotOf(n: nat): (i: nat)
    ensures i < COUNT
  {
    if n < COUNT then n else SlotOf(n - COUNT)
  }

  lemma {:induction false} SlotAfter(n: nat)
    ensures After(SlotOf(n)) == SlotOf(n + 1)
  {
    if n >= COUNT {
      SlotAfter(n - COUNT);
    }
  }

  /** Sixteen consecutive frames have sixteen different slots. */
  lemma {:induction false} SlotsDiffer(n: nat, m: nat)
    requires n < m < n + COUNT
    ensures SlotOf(n) != SlotOf(m)
  {
    if n >= COUNT {
      SlotsDiffer(n - COUNT, m - COUNT);
    }
  }

  ghost predicate Holds(slot: seq<byte>, frame: seq<byte>)
  {
    |frame| <= |slot| && slot[..|frame|] == frame
  }

  /** Frame number `n` lives in its slot from its acceptance until it is taken. */
  ghost predicate Inv(r: Ring)
  {
    var w, c := |r.accepted|, |r.consumed|;
    Shaped(r) && c <= w < c + COUNT &&
    After(r.wi) == SlotOf(w) && After(r.ri) == SlotOf(c) &&
    (forall n :: c <= n < w && (n > c || r.consumer.Polling?) ==> Holds(r.slots[SlotOf(n)], r.accepted[n])) &&
    (r.producer.Copying? ==> w + 1 < c + COUNT && Holds(r.slots[SlotOf(w)], r.producer.frame[..r.producer.copied])) &&
    (r.consumer.Working? ==> c < w && r.slots[SlotOf(c)] == r.consumer.now && Holds(r.consumer.taken, r.accepted[c])) &&
    (forall k :: 0 <= k < c ==> Holds(r.consumed[k], r.accepted[k]))
  }

  /** Equal slots follow equal indices. */
  lemma AfterIsInjective(i: nat, j: nat)
    requires i < COUNT && j < COUNT
    ensures After(i) == After(j) <==> i == j
  {
  }

  /** The producer's test, as a statement about how many frames wait. */
  lemma WritableExactly(r: Ring)
    requires Inv(r)
    ensures Writable(r) <==> |r.accepted| + 1 < |r.consumed| + COUNT
  {
    var w, c := |r.accepted|, |r.consumed|;
    SlotAfter(w);
    AfterIsInjective(After(r.wi), r.ri);
    if w + 1 < c + COUNT {
      SlotsDiffer(c, w + 1);
    } else {
      assert SlotOf(c + COUNT) == SlotOf(c);
    }
  }

  /** The consumer's test. */
  lemma ReadableExactly(r: Ring)
    requires Inv(r)
    ensures Readable(r) <==> |r.consumed| < |r.accepted|
  {
    var w, c := |r.accepted|, |r.consumed|;
    AfterIsInjective(r.wi, r.ri);
    if c < w {
      SlotsDiffer(c, w);
    }
  }

  /** The slot the producer writes and the slot the consumer holds are not those of the frames that wait. */
  lemma OwnSlots(r: Ring)
    requires Inv(r)
    ensures forall n :: |r.consumed| <= n < |r.accepted| ==> SlotOf(n) != After(r.wi)
    ensures forall n :: |r.consumed| < n < |r.accepted| ==> SlotOf(n) != After(r.ri)
  {
    var w, c := |r.accepted|, |r.consumed|;
    forall n | c <= n < w
      ensures SlotOf(n) != SlotOf(w)
    {
      SlotsDiffer(n, w);
    }
    forall n | c < n < w
      ensures SlotOf(n) != SlotOf(c)
    {
      SlotsDiffer(c, n);
    }
  }

  lemma Indices(r: Ring)
    requires Inv(r)
    ensures Writable(r) <==> |r.accepted| + 1 < |r.consumed| + COUNT
    ensures Readable(r) <==> |r.consumed| < |r.accepted|
    ensures forall n :: |r.consumed| <= n < |r.accepted| ==> SlotOf(n) != After(r.wi)
    ensures forall n :: |r.consumed| < n < |r.accepted| ==> SlotOf(n) != After(r.ri)
  {
    WritableExactly(r);
    ReadableExactly(r);
    OwnSlots(r);
  }

  lemma CopyKeepsInv(r: Ring)
    requires Inv(r)
    ensures Inv(Next(r, CopyByte))
  {
    Indices(r);
    if r.producer.Copying? && r.producer.copied < |r.producer.frame| {
      var c := r.producer.copied;
      var slot := r.slots[After(r.wi)];
      var slot' := Put(slot, c, r.producer.frame[c]);
      assert slot'[..c + 1] == slot[..c] + [r.producer.frame[c]];
      assert r.producer.frame[..c + 1] == r.producer.frame[..c] + [r.producer.frame[c]];
    }
  }

  lemma PublishKeepsInv(r: Ring)
    requires Inv(r)
    ensures Inv(Next(r, Publish))
  {
    Indices(r);
    SlotAfter(|r.accepted|);
    if r.producer.Copying? && r.producer.copied == |r.producer.frame| {
      var f := r.producer.frame;
      assert f[..|f|] == f;
      var r' := Next(r, Publish);
      var w, c := |r.accepted|, |r.consumed|;
      assert r'.accepted[w] == f;
      forall n | c <= n < w + 1 && (n > c || r.consumer.Polling?)
        ensures Holds(r'.slots[SlotOf(n)], r'.accepted[n])
      {
        if n < w {
          assert r'.accepted[n] == r.accepted[n];
        }
      }
    }
  }

  lemma EditKeepsInv(r: Ring, at: nat, value: byte)
    requires Inv(r)
    ensures Inv(Next(r, Edit(at, value)))
  {
    Indices(r);
  }

  lemma AdvanceKeepsInv(r: Ring)
    requires Inv(r)
    ensures Inv(Next(r, Advance))
  {
    Indices(r);
    SlotAfter(|r.consumed|);
  }

  lemma StepKeepsInv(r: Ring, e: Event)
    requires Inv(r)
    ensures Inv(Next(r, e))
  {
    match e
    case Check(frame) => Indices(r);
    case CopyByte => CopyKeepsInv(r);
    case Publish => PublishKeepsInv(r);
    case Poll => Indices(r);
    case Edit(at, value) => EditKeepsInv(r, at, value);
    case Advance => AdvanceKeepsInv(r);
  }

  lemma {:induction false} RunKeepsInv(r: Ring, es: seq<Event>)
    requires Inv(r)
    ensures Inv(Run(r, es))
    decreases |es|
  {
    if es != [] {
      StepKeepsInv(r, es[0]);
      RunKeepsInv(Next(r, es[0]), es[1..]);
    }
  }

  /**
   * Safety under every interleaving: the slot being written is never the slot being consumed, the
   * consumer sees no change in its slot but its own, at most 15 frames wait, and the frames
   * consumed are those accepted, in order, each once and none skipped.
   */
  lemma RingIsSafe(es: seq<Event>)
    ensures var r := Run(Init(), es);
            (r.producer.Copying? && r.consumer.Working? ==> After(r.wi) != After(r.ri)) &&
            (r.consumer.Working? ==> r.slots[After(r.ri)] == r.consumer.now) &&
            |r.consumed| <= |r.accepted| <= |r.consumed| + 15 &&
            (forall k :: 0 <= k < |r.consumed| ==> Holds(r.consumed[k], r.accepted[k]))
  {
    RunKeepsInv(Init(), es);
    Indices(Run(Init(), es));
  }

  /** A frame is refused exactly when 15 frames wait, and the consumer finds nothing exactly when none does. */
  lemma FullAndEmpty(es: seq<Event>)
    ensures var r := Run(Init(), es);
            (Writable(r) <==> |r.accepted| - |r.consumed| < 15) && (Readable(r) <==> |r.accepted| - |r.consumed| > 0)
  {
    RunKeepsInv(Init(), es);
    Indices(Run(Init(), es));
  }

  // Progress

  predicate OfProducer(e: Event)
  {
    e.Check? || e.CopyByte? || e.Publish?
  }

  /** The steps of one side, in order. */
  function Steps(es: seq<Event>, producer: bool): seq<Event>
  {
    if es == [] then []
    else if OfProducer(es[0]) == producer then [es[0]] + Steps(es[1..], producer)
    else Steps(es[1..], producer)
  }

  /** Neither side does anything for the other. */
  lemma OtherSideWaits(r: Ring, e: Event)
    requires Shaped(r)
    ensures OfProducer(e) ==> Next(r, e).consumer == r.consumer && Next(r, e).consumed == r.consumed
    ensures !OfProducer(e) ==> Next(r, e).producer == r.producer && Next(r, e).accepted == r.accepted
  {
  }

  function Copies(n: nat): seq<Event>
  {
    seq(n, _ => CopyByte)
  }

  lemma {:induction false} CopiedToTheEnd(r: Ring, es: seq<Event>, frame: seq<byte>, c: nat)
    requires Shaped(r) && r.producer == Copying(frame, c) && Steps(es, true) == Copies(|frame| - c) + [Publish]
    ensures Run(r, es).producer == Waiting && Run(r, es).accepted == r.accepted + [frame]
    decreases |es|
  {
    var own := Steps(es[1..], true);
    OtherSideWaits(r, es[0]);
    if !OfProducer(es[0]) {
      CopiedToTheEnd(Next(r, es[0]), es[1..], frame, c);
    } else if c < |frame| {
      assert Steps(es, true)[0] == CopyByte && own == Steps(es, true)[1..];
      assert own == Copies(|frame| - (c + 1)) + [Publish];
      CopiedToTheEnd(Next(r, es[0]), es[1..], frame, c + 1);
    } else {
      assert Steps(es, true) == [Publish] && es[0] == Steps(es, true)[0] && own == Steps(es, true)[1..];
      ProducerRests(Next(r, es[0]), es[1..]);
    }
  }

  lemma {:induction false} ProducerRests(r: Ring, es: seq<Event>)
    requires Shaped(r) && Steps(es, true) == []
    ensures Run(r, es).producer == r.producer && Run(r, es).accepted == r.accepted
    decreases |es|
  {
    if es != [] {
      OtherSideWaits(r, es[0]);
      ProducerRests(Next(r, es[0]), es[1..]);
    }
  }

  /**
   * An offered frame is taken if and only if fewer than 15 frames wait, and once taken it is accepted when it has
   * been copied and published, whatever the consumer does meanwhile.
   */
  lemma OfferedFrame(before: seq<Event>, frame: seq<byte>, es: seq<Event>)
    requires Run(Init(), before).producer == Waiting && |frame| <= SLOT_SIZE
    requires Steps(es, true) == Copies(|frame|) + [Publish]
    ensures var r := Run(Init(), before);
            var offered := Next(r, Check(frame));
            if |r.accepted| - |r.consumed| < 15 then
              offered.producer == Copying(frame, 0) && Run(offered, es).accepted == r.accepted + [frame]
            else offered == r
  {
    var r := Run(Init(), before);
    FullAndEmpty(before);
    if |r.accepted| - |r.consumed| < 15 {
      CopiedToTheEnd(Next(r, Check(frame)), es, frame, 0);
    }
  }

  lemma {:induction false} EditedToTheEnd(r: Ring, es: seq<Event>, edits: seq<Event>)
    requires Shaped(r) && r.consumer.Working? && Steps(es, false) == edits + [Advance]
    requires forall k :: 0 <= k < |edits| ==> edits[k].Edit?
    ensures Run(r, es).consumer == Polling && Run(r, es).consumed == r.consumed + [r.consumer.taken]
    decreases |es|
  {
    var own := Steps(es[1..], false);
    OtherSideWaits(r, es[0]);
    if OfProducer(es[0]) {
      EditedToTheEnd(Next(r, es[0]), es[1..], edits);
    } else if edits != [] {
      assert Steps(es, false)[0] == edits[0] && own == Steps(es, false)[1..];
      assert own == edits[1..] + [Advance];
      EditedToTheEnd(Next(r, es[0]), es[1..], edits[1..]);
    } else {
      assert Steps(es, false) == [Advance] && es[0] == Steps(es, false)[0] && own == Steps(es, false)[1..];
      ConsumerRests(Next(r, es[0]), es[1..]);
    }
  }

  lemma {:induction false} ConsumerRests(r: Ring, es: seq<Event>)
    requires Shaped(r) && Steps(es, false) == []
    ensures Run(r, es).consumer == r.consumer && Run(r, es).consumed == r.consumed
    decreases |es|
  {
    if es != [] {
      OtherSideWaits(r, es[0]);
      ConsumerRests(Next(r, es[0]), es[1..]);
    }
  }

  /**
   * A poll takes the oldest frame that waits if and only if one does, and once taken the frame is consumed, however
   * the consumer edits it and whatever the producer does meanwhile.
   */
  lemma PolledFrame(before: seq<Event>, edits: seq<Event>, es: seq<Event>)
    requires Run(Init(), before).consumer == Polling
    requires Steps(es, false) == edits + [Advance] && forall k :: 0 <= k < |edits| ==> edits[k].Edit?
    ensures var r := Run(Init(), before);
            var polled := Next(r, Poll);
            if |r.consumed| < |r.accepted| then
              polled.consumer.Working? && polled.consumer.now == polled.consumer.taken &&
              Holds(polled.consumer.taken, r.accepted[|r.consumed|]) &&
              Run(polled, es).consumed == r.consumed + [polled.consumer.taken]
            else polled == r
  {
    var r := Run(Init(), before);
    FullAndEmpty(before);
    RunKeepsInv(Init(), before);
    StepKeepsInv(r, Poll);
    if |r.consumed| < |r.accepted| {
      EditedToTheEnd(Next(r, Poll), es, edits);
    }
  }

  /** An edit is what a read of that byte then returns, and the only thing that it changes. */
  lemma EditIsRead(r: Ring, at: nat, value: byte, k: nat)
    requires Shaped(r) && r.consumer.Working? && at < SLOT_SIZE && k < SLOT_SIZE
    ensures Next(r, Edit(at, value)).consumer.now[k] == if k == at then value else r.consumer.now[k]
  {
  }
}
