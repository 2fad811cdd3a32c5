/** The 32-bit millisecond clock and the timeout test that every expiring table uses. */
module Clock {
  import opened Bytes

  const WRAP := 0x1_0000_0000

  /** What `millis()` returns at true time `t`. */
  function Millis(t: nat): u32
  {
    t % WRAP
  }

  function IsTimeout(timeoutMs: u32, startMs: u32, currentMs: u32): bool
  {
    if startMs <= currentMs then
      currentMs as int - startMs as int >= timeoutMs
    else
      0xFFFF_FFFF - startMs as int + currentMs as int + 1 >= timeoutMs
  }

  /** The test sees the true idle time modulo 2^32, on either side of a wrap. */
  lemma TimeoutIsModular(timeoutMs: u32, start: nat, now: nat)
    requires start <= now
    ensures IsTimeout(timeoutMs, Millis(start), Millis(now)) <==> (now - start) % WRAP >= timeoutMs
  {
  }

  /** A row alive at the collection at time `previous` is judged by its true age at the collection at `now`. */
  ghost predicate JudgedTruly(timeoutMs: u32, previous: nat, now: nat)
    requires previous <= now
  {
    forall start: nat :: start <= previous && previous - start < timeoutMs ==>
      (IsTimeout(timeoutMs, Millis(start), Millis(now)) <==> now - start >= timeoutMs)
  }

  /** No idle time wraps within this gap or, in a longer one, no age wraps to less than the timeout. */
  predicate GapIsRight(timeoutMs: u32, gap: nat)
  {
    gap <= WRAP - timeoutMs || timeoutMs <= gap % WRAP <= WRAP - timeoutMs
  }

  lemma WrapsOnce(gap: nat, age: u32)
    ensures var sum := gap % WRAP + age;
            (gap + age) % WRAP == if sum < WRAP then sum else sum - WRAP
  {
  }

  lemma RightGapJudges(timeoutMs: u32, gap: nat, age: nat)
    requires age < timeoutMs && GapIsRight(timeoutMs, gap)
    ensures (gap + age) % WRAP >= timeoutMs <==> gap + age >= timeoutMs
  {
    WrapsOnce(gap, age);
  }

  /** An age that a wrong gap misjudges. */
  function MisjudgedAge(timeoutMs: u32, gap: nat): (age: nat)
    requires 0 < timeoutMs && !GapIsRight(timeoutMs, gap)
    ensures age < timeoutMs
  {
    if gap % WRAP > WRAP - timeoutMs then WRAP - gap % WRAP else 0
  }

  lemma WrongGapMisjudges(timeoutMs: u32, gap: nat)
    requires 0 < timeoutMs && !GapIsRight(timeoutMs, gap)
    ensures var age := MisjudgedAge(timeoutMs, gap);
            (gap + age) % WRAP < timeoutMs <= gap + age
  {
    WrapsOnce(gap, MisjudgedAge(timeoutMs, gap));
  }

  /** From one timeout after power-up on, the gap alone decides whether every age is judged truly. */
  lemma TimeoutIsTrueExactly(timeoutMs: u32, previous: nat, now: nat)
    requires 0 < timeoutMs <= previous + 1 && previous <= now
    ensures JudgedTruly(timeoutMs, previous, now) <==> GapIsRight(timeoutMs, now - previous)
  {
    var gap: nat := now - previous;
    if GapIsRight(timeoutMs, gap) {
      forall start: nat | start <= previous && previous - start < timeoutMs
        ensures IsTimeout(timeoutMs, Millis(start), Millis(now)) <==> now - start >= timeoutMs
      {
        TimeoutIsModular(timeoutMs, start, now);
        RightGapJudges(timeoutMs, gap, previous - start);
      }
    } else {
      var start: nat := previous - MisjudgedAge(timeoutMs, gap);
      TimeoutIsModular(timeoutMs, start, now);
      WrongGapMisjudges(timeoutMs, gap);
    }
  }

  /**
   * A row that was alive at the previous collection is judged by its true age at the
   * next one, provided the collections are at most 2^32 - timeout apart.
   */
  lemma ExpiryIsTrue(timeoutMs: u32, start: nat, previous: nat, now: nat)
    requires start <= previous <= now
    requires previous - start < timeoutMs && now - previous <= WRAP - timeoutMs
    ensures IsTimeout(timeoutMs, Millis(start), Millis(now)) <==> now - start >= timeoutMs
  {
  }

  /** One millisecond more between two collections, and a row can live on for ever. */
  lemma ExpiryGapIsTight(timeoutMs: u32, start: nat)
    requires timeoutMs > 0
    ensures var previous := start + timeoutMs - 1;
            var now := previous + (WRAP - timeoutMs) + 1;
            !IsTimeout(timeoutMs, Millis(start), Millis(now)) && now - start >= timeoutMs
  {
  }
}
