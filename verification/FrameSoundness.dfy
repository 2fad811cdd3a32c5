/**
 * The receivers deliver nothing that was not framed on the line: the stream is the encodings of what they
 * deliver, in order, with other bytes between.
 */
module FrameSoundness {
  import opened Bytes
  import opened Framing

  /** `gaps[0]`, then each frame's encoding and the gap after it. */
  function Interleave(gaps: seq<seq<byte>>, frames: seq<seq<byte>>): seq<byte>
    requires |gaps| == |frames| + 1
  {
    if frames == [] then gaps[0] else gaps[0] + Encode(frames[0]) + Interleave(gaps[1..], frames[1..])
  }

  /** The part of a frame that the line has carried so far. */
  function Open(r: Receiver): seq<byte>
  {
    match r
    case Idle => []
    case InFrame(data, escaped) => [STX] + Body(data) + if escaped then [DLE] else []
  }

  lemma FourParts<T>(a: seq<T>, b: seq<T>, c: seq<T>, d: seq<T>)
    ensures a + b + c + d == a + (b + c + d) && a + b + (c + d) == a + (b + c + d)
  {
  }

  /** A stored byte, with its escape, is one unit more of the body. */
  lemma UnitCarried(data: seq<byte>, c: byte, escape: seq<byte>)
    requires escape + [c] == Escape(c)
    ensures [STX] + Body(data) + escape + [c] == [STX] + Body(data + [c])
  {
    BodyAppend(data, c);
    FourParts([STX], Body(data), escape, [c]);
    Reassociate(Body(data), escape, [c]);
  }

  /** A byte completes the open frame, extends it, or leaves the receiver idle. */
  lemma StepIsSound(limit: Limit, r: Receiver, c: byte)
    ensures var (r1, frame) := Step(limit, r, c);
            match frame
            case Some(f) => r1 == Idle && Open(r) + [c] == Encode(f)
            case None => r1 == Idle || Open(r1) == Open(r) + [c]
  {
    match r
    case Idle =>
      assert c == STX ==> Open(InFrame([], false)) == [] + [c];
    case InFrame(data, true) =>
      if IsControl(c) {
        assert [DLE] + [c] == Escape(c);
        UnitCarried(data, c, [DLE]);
        NothingMore([STX] + Body(data + [c]));
      }
    case InFrame(data, false) =>
      NothingMore([STX] + Body(data));
      if !IsControl(c) {
        assert [] + [c] == Escape(c);
        UnitCarried(data, c, []);
        NothingMore([STX] + Body(data + [c]));
      }
  }

  lemma NothingMore<T>(a: seq<T>)
    ensures a + [] == a
  {
  }

  /** Bytes in front of everything make the first gap longer. */
  lemma Widen(bytes: seq<byte>, gaps: seq<seq<byte>>, frames: seq<seq<byte>>) returns (wider: seq<seq<byte>>)
    requires |gaps| == |frames| + 1
    ensures |wider| == |gaps| && Interleave(wider, frames) == bytes + Interleave(gaps, frames)
  {
    wider := [bytes + gaps[0]] + gaps[1..];
    if frames != [] {
      assert bytes + gaps[0] + Encode(frames[0]) + Interleave(gaps[1..], frames[1..]) ==
             bytes + (gaps[0] + Encode(frames[0]) + Interleave(gaps[1..], frames[1..]));
    }
  }

  lemma FirstFrame(f: seq<byte>, all: seq<seq<byte>>, gaps: seq<seq<byte>>, frames: seq<seq<byte>>)
    requires |gaps| == |frames| + 1 && all == [[]] + gaps
    ensures Interleave(all, [f] + frames) == Encode(f) + Interleave(gaps, frames)
  {
    assert all[1..] == gaps && ([f] + frames)[1..] == frames;
    assert [] + Encode(f) == Encode(f);
  }

  /** `c` completes a frame, and the bytes `lost` after it go unread. */
  lemma AfterFrame(open: seq<byte>, c: byte, f: seq<byte>, lost: seq<byte>, rest: seq<byte>, gaps: seq<seq<byte>>, frames: seq<seq<byte>>)
    returns (all: seq<seq<byte>>)
    requires open + [c] == Encode(f) && |gaps| == |frames| + 1 && Interleave(gaps, frames) == rest
    ensures |all| == |[f] + frames| + 1 && Interleave(all, [f] + frames) == open + ([c] + lost + rest)
  {
    var wider := Widen(lost, gaps, frames);
    all := [[]] + wider;
    FirstFrame(f, all, wider, frames);
    FourParts(open, [c], lost, rest);
  }

  /** `c` and the bytes after it belong to no frame. */
  lemma AfterGap(open: seq<byte>, c: byte, lost: seq<byte>, rest: seq<byte>, gaps: seq<seq<byte>>, frames: seq<seq<byte>>)
    returns (all: seq<seq<byte>>)
    requires |gaps| == |frames| + 1 && Interleave(gaps, frames) == rest
    ensures |all| == |frames| + 1 && Interleave(all, frames) == open + ([c] + lost + rest)
  {
    all := Widen(open + [c] + lost, gaps, frames);
    FourParts(open, [c], lost, rest);
  }

  /** One byte and the bytes `lost` after it, in front of a stream that is already taken apart. */
  lemma Prepend(limit: Limit, r: Receiver, c: byte, lost: seq<byte>, rest: seq<byte>, gaps: seq<seq<byte>>, frames: seq<seq<byte>>)
    returns (all: seq<seq<byte>>)
    requires |gaps| == |frames| + 1
    requires var r1 := Step(limit, r, c).0; Interleave(gaps, frames) == Open(r1) + rest && (lost == [] || r1 == Idle)
    ensures var out := Emit(Step(limit, r, c).1) + frames;
            |all| == |out| + 1 && Interleave(all, out) == Open(r) + ([c] + lost + rest)
  {
    StepIsSound(limit, r, c);
    var (r1, frame) := Step(limit, r, c);
    var open := Open(r);
    assert r1 == Idle ==> Open(r1) + rest == rest;
    match frame
    case Some(f) => all := AfterFrame(open, c, f, lost, rest, gaps, frames);
    case None =>
      assert [] + frames == frames;
      if r1 == Idle {
        all := AfterGap(open, c, lost, rest, gaps, frames);
      } else {
        all := gaps;
        NothingMore([c]);
        Reassociate(open, [c], rest);
      }
  }

  lemma {:induction false} RunIsSound(limit: Limit, r: Receiver, stream: seq<byte>) returns (gaps: seq<seq<byte>>)
    ensures var frames := Run(limit, r, stream).1;
            |gaps| == |frames| + 1 && Interleave(gaps, frames) == Open(r) + stream
    decreases |stream|
  {
    if stream == [] {
      gaps := [Open(r)];
    } else {
      var r1 := Step(limit, r, stream[0]).0;
      var rest := RunIsSound(limit, r1, stream[1..]);
      gaps := Prepend(limit, r, stream[0], [], stream[1..], rest, Run(limit, r1, stream[1..]).1);
      HeadAndTail(stream, 0);
      assert stream[1..1] == [];
    }
  }

  lemma {:induction false} DroppingIsSound(n: nat, r: Receiver, stream: seq<byte>, drops: seq<nat>) returns (gaps: seq<seq<byte>>)
    ensures var frames := RunDropping(n, r, stream, drops).1;
            |gaps| == |frames| + 1 && Interleave(gaps, frames) == Open(r) + stream
    decreases |stream|
  {
    if stream == [] {
      gaps := [Open(r)];
    } else {
      var c := stream[0];
      var r1 := Step(Bounded(n), r, c).0;
      var d: nat := Dropped(n, r, stream, drops);
      var lost, rest, later := stream[1..1 + d], stream[1 + d..], DropsAfter(n, r, c, drops);
      LostOnlyWhenIdle(n, r, stream, drops);
      var inner := DroppingIsSound(n, r1, rest, later);
      gaps := Prepend(Bounded(n), r, c, lost, rest, inner, RunDropping(n, r1, rest, later).1);
      HeadAndTail(stream, d);
    }
  }

  lemma LostOnlyWhenIdle(n: nat, r: Receiver, stream: seq<byte>, drops: seq<nat>)
    requires stream != []
    ensures Dropped(n, r, stream, drops) == 0 || Step(Bounded(n), r, stream[0]).0 == Idle
  {
  }

  lemma HeadAndTail(stream: seq<byte>, d: nat)
    requires d < |stream|
    ensures [stream[0]] + stream[1..1 + d] + stream[1 + d..] == stream
  {
  }

  /** A byte overflows exactly when the frame goes on without a limit, and is given up with it. */
  lemma OverflowGivesUp(n: nat, r: Receiver, c: byte)
    ensures Overflows(n, r, c) <==> Step(Bounded(n), r, c).0 == Idle && Step(Unbounded, r, c).0.InFrame? && r.InFrame?
  {
  }

  /** At an overflow the receiver is idle, and as many of the bytes that follow go unread as were pending. */
  lemma OverflowDrops(n: nat, r: Receiver, c: byte, lost: seq<byte>, rest: seq<byte>, pending: nat, drops: seq<nat>)
    requires Overflows(n, r, c) && (pending == |lost| || (pending > |lost| && rest == []))
    ensures RunDropping(n, r, [c] + lost + rest, [pending] + drops) == RunDropping(n, Idle, rest, drops)
  {
    var stream := [c] + lost + rest;
    OverflowGivesUp(n, r, c);
    assert stream[0] == c && stream[1 + |lost|..] == rest && ([pending] + drops)[1..] == drops;
    var frames := RunDropping(n, Idle, rest, drops).1;
    assert [] + frames == frames;
  }

  /**
   * The modem, and the gateway whatever it throws away: from power-up, what the line has carried is the encodings of the
   * delivered frames, in order and each once, with other bytes between. A damaged frame delivers nothing.
   */
  lemma DeliveredWasEncoded(limit: Limit, n: nat, stream: seq<byte>, drops: seq<nat>)
    ensures var frames := Run(limit, Idle, stream).1;
            exists gaps :: |gaps| == |frames| + 1 && Interleave(gaps, frames) == stream
    ensures var frames := RunDropping(n, Idle, stream, drops).1;
            exists gaps :: |gaps| == |frames| + 1 && Interleave(gaps, frames) == stream
  {
    assert Open(Idle) + stream == stream;
    var a := RunIsSound(limit, Idle, stream);
    var b := DroppingIsSound(n, Idle, stream, drops);
  }

  /** So each delivered frame's own encoding is there, in one piece. */
  lemma {:induction false} EncodingIsThere(gaps: seq<seq<byte>>, frames: seq<seq<byte>>, k: nat) returns (at: nat)
    requires |gaps| == |frames| + 1 && k < |frames|
    ensures at + |Encode(frames[k])| <= |Interleave(gaps, frames)|
    ensures Interleave(gaps, frames)[at..at + |Encode(frames[k])|] == Encode(frames[k])
    decreases k
  {
    var front, tail := gaps[0] + Encode(frames[0]), Interleave(gaps[1..], frames[1..]);
    if k == 0 {
      at := |gaps[0]|;
      PieceBefore(gaps[0], Encode(frames[0]), tail);
    } else {
      var inner := EncodingIsThere(gaps[1..], frames[1..], k - 1);
      at := |front| + inner;
      PieceBehind(front, tail, inner, |Encode(frames[k])|);
    }
  }

  lemma DeliveredWasOnTheLine(n: nat, stream: seq<byte>, drops: seq<nat>, k: nat) returns (at: nat)
    requires k < |RunDropping(n, Idle, stream, drops).1|
    ensures var e := Encode(RunDropping(n, Idle, stream, drops).1[k]);
            at + |e| <= |stream| && stream[at..at + |e|] == e
  {
    var frames := RunDropping(n, Idle, stream, drops).1;
    var gaps := DroppingIsSound(n, Idle, stream, drops);
    assert Open(Idle) + stream == stream;
    at := EncodingIsThere(gaps, frames, k);
  }

  lemma PieceBefore<T>(a: seq<T>, b: seq<T>, c: seq<T>)
    ensures (a + b + c)[|a|..|a| + |b|] == b
  {
  }

  lemma PieceBehind<T>(a: seq<T>, b: seq<T>, from: nat, n: nat)
    requires from + n <= |b|
    ensures (a + b)[|a| + from..|a| + from + n] == b[from..from + n]
  {
  }
}
