/**
 * The checksum loops of the ESP32 (`ip_util.h`) and of the nRF9160 (`ip_util.c`).
 * `check_ics` and `calc_ics` on the modem are statement for statement `ip_checksum1` and
 * `calc_checksum` on the gateway, so each pair is one method here.
 */
module IpUtil {
  import opened Bytes
  import opened InternetChecksum

  const WORD: int := 0x1_0000_0000

  /** `h += s; if (h < s) h++;` on 32-bit unsigned values. */
  function EndAroundAdd(h: u32, s: u32): (r: u32)
    ensures Agrees(r, h as int + s as int)
  {
    var sum: int := (h as int + s as int) % WORD;
    var r := if sum < s then sum + 1 else sum;
    assert Agrees(r, h as int + s as int) by {
      if sum < s {
        assert r == h as int + s as int - 0xFFFF * 0x1_0001;
        Carry(h as int + s as int, 0x1_0001);
      }
    }
    r
  }

  /** `(x & 0xFFFF) + (x >> 16)` */
  function Fold(x: u32): (r: u32)
    ensures Agrees(r, x)
    ensures x > 0xFFFF ==> r < x
    ensures r <= 0x1_FFFE
  {
    var r := x % 0x1_0000 + x / 0x1_0000;
    assert r == x - 0xFFFF * (x / 0x1_0000);
    Carry(x, x / 0x1_0000);
    r
  }

  /** `acc` stands for the words of `b` before index `p`. */
  ghost predicate Absorbed(b: seq<byte>, p: nat, acc: nat)
  {
    Agrees(acc + WordSum(b, p), WordSum(b, 0))
  }

  lemma AbsorbWord(b: seq<byte>, p: nat, acc: nat, acc': nat)
    requires p + 2 <= |b| && Absorbed(b, p, acc) && Agrees(acc', acc + Le16(b, p))
    ensures Absorbed(b, p + 2, acc')
  {
    AgreesAdd(acc', WordSum(b, p + 2), acc + Le16(b, p), WordSum(b, p + 2));
  }

  /** A 32-bit load has the residue of its two 16-bit halves. */
  lemma AbsorbLong(b: seq<byte>, p: nat, acc: nat, acc': nat)
    requires p + 4 <= |b| && Absorbed(b, p, acc) && Agrees(acc', acc + Le32(b, p))
    ensures Absorbed(b, p + 4, acc')
  {
    var lo, hi: int := Le16(b, p), Le16(b, p + 2);
    assert acc + lo + hi == acc + Le32(b, p) - 0xFFFF * hi;
    Carry(acc + Le32(b, p), hi);
    AbsorbWord(b, p, acc, acc + lo);
    AbsorbWord(b, p + 2, acc + lo, acc');
  }

  lemma AbsorbByte(b: seq<byte>, p: nat, acc: nat, acc': nat)
    requires p + 1 == |b| && Absorbed(b, p, acc) && Agrees(acc', acc + b[p])
    ensures Absorbed(b, p + 1, acc')
  {
  }

  /** The folding loop and the complement that end both routines. */
  method FoldAndComplement(hcs: u32, ghost b: seq<byte>) returns (r: u16)
    requires Agrees(hcs, WordSum(b, 0))
    ensures r == Checksum(b)
  {
    var x := hcs;
    while x > 0xFFFF
      invariant Agrees(x, WordSum(b, 0))
    {
      x := Fold(x);
    }
    FoldedIsOnesSum(x, b);
    r := 0xFFFF - x;
  }

  /** `ip_checksum1` / `check_ics`: 32-bit loads, end-around carry, one fold at the end. */
  method IpChecksum1(buffer: seq<byte>) returns (r: u16)
    ensures r == Checksum(buffer)
  {
    var hcs: u32 := 0;
    var p: nat := 0;
    var n: nat, tail: nat := |buffer| / 4, |buffer| % 4;
    while n > 0
      invariant p + 4 * n + tail == |buffer|
      invariant Absorbed(buffer, p, hcs)
    {
      ghost var before := hcs;
      hcs := EndAroundAdd(hcs, Le32(buffer, p));
      AbsorbLong(buffer, p, before, hcs);
      p, n := p + 4, n - 1;
    }
    hcs := AddTail(buffer, p, tail, hcs);
    r := FoldAndComplement(hcs, buffer);
  }

  /** The `len & 2` and `len & 1` parts. */
  method AddTail(buffer: seq<byte>, p: nat, tail: nat, hcs: u32) returns (r: u32)
    requires p + tail == |buffer| && tail < 4 && Absorbed(buffer, p, hcs)
    ensures Agrees(r, WordSum(buffer, 0))
  {
    r := hcs;
    if tail >= 2 {
      r := EndAroundAdd(r, Le16(buffer, p));
      AbsorbWord(buffer, p, hcs, r);
    }
    if tail == 1 || tail == 3 {
      ghost var before := r;
      r := EndAroundAdd(r, buffer[|buffer| - 1]);
      AbsorbByte(buffer, |buffer| - 1, before, r);
    }
  }

  /** `calc_checksum` / `calc_ics` as a function of the whole buffer. */
  function WithChecksum(b: seq<byte>, off: nat, len: nat, pos: nat): (r: seq<byte>)
    requires off + len <= |b| && off + pos + 2 <= |b|
    ensures |r| == |b|
  {
    PutLe16(b, off + pos, Checksum(PutLe16(b, off + pos, 0)[off..off + len]))
  }

  method CalcChecksum(buffer: array<byte>, off: nat, len: nat, pos: nat)
    requires off + len <= buffer.Length && off + pos + 2 <= buffer.Length
    modifies buffer
    ensures buffer[..] == WithChecksum(old(buffer[..]), off, len, pos)
  {
    buffer[off + pos], buffer[off + pos + 1] := 0, 0;
    assert buffer[..] == PutLe16(old(buffer[..]), off + pos, 0);
    assert buffer[..][off..off + len] == buffer[off..off + len];
    var hcs := IpChecksum1(buffer[off..off + len]);
    buffer[off + pos] := hcs % 0x100;
    buffer[off + pos + 1] := hcs / 0x100;
  }

  /** After `calc_checksum` at any even position inside the region, `ip_checksum1` returns 0. */
  lemma CalcThenCheck(b: seq<byte>, off: nat, len: nat, pos: nat)
    requires off + len <= |b| && pos % 2 == 0 && pos + 2 <= len
    ensures Checksum(WithChecksum(b, off, len, pos)[off..off + len]) == 0
  {
    var region := b[off..off + len];
    assert PutLe16(b, off + pos, 0)[off..off + len] == PutLe16(region, pos, 0);
    assert WithChecksum(b, off, len, pos)[off..off + len] == Filled(region, pos);
    FilledChecksumIsZero(region, pos);
  }

  /**
   * The byte string that `ip_checksum2` really sums. For an odd first part the code shifts
   * the first part's last byte into the high half of a word whose low half is the first byte
   * of the second part: on a little-endian machine the two bytes have changed places.
   */
  function Joined(d1: seq<byte>, d2: seq<byte>): seq<byte>
    requires |d1| % 2 == 1 ==> |d2| > 0
  {
    if |d1| % 2 == 0 then d1 + d2
    else d1[..|d1| - 1] + [d2[0], d1[|d1| - 1]] + d2[1..]
  }

  /** `ip_checksum2`: 16-bit loads over two buffers; the sum is folded only when bit 31 is set. */
  method IpChecksum2(data1: seq<byte>, data2: seq<byte>) returns (r: u16)
    requires |data1| % 2 == 1 ==> |data2| > 0
    ensures r == Checksum(Joined(data1, data2))
  {
    ghost var b: seq<byte> := Joined(data1, data2);
    var sum: u32, c := SumPairs(data1, 0, b, 0);
    if c == 1 {
      SeamOfJoined(data1, data2);
      sum := AddSeam(data1[|data1| - 1], data2[0], sum, b, |data1| - 1);
      sum := SumSecond(data2[1..], sum, b);
    } else {
      sum := SumSecond(data2, sum, b);
    }
    r := FoldAndComplement(sum, b);
  }

  lemma SeamOfJoined(d1: seq<byte>, d2: seq<byte>)
    requires |d1| % 2 == 1 && |d2| > 0
    ensures var b := Joined(d1, d2);
            var n := |d1| - 1;
            |b| == |d1| + |d2| && b[n] == d2[0] && b[n + 1] == d1[n] && b[n + 2..] == d2[1..]
  {
  }

  /** The second loop and the odd byte after it. */
  method SumSecond(rest: seq<byte>, sum0: u32, ghost b: seq<byte>) returns (sum: u32)
    requires |rest| <= |b| && rest == b[|b| - |rest|..]
    requires sum0 < 0x8000_0000 && Absorbed(b, |b| - |rest|, sum0)
    ensures Agrees(sum, WordSum(b, 0))
  {
    var c;
    sum, c := SumPairs(rest, sum0, b, |b| - |rest|);
    if c == 1 {
      ghost var before := sum;
      sum := sum + rest[|rest| - 1];
      AbsorbByte(b, |b| - 1, before, sum);
    }
  }

  /** The word made of the last byte of an odd first part and the first byte of the second. */
  method AddSeam(last: byte, first: byte, sum: u32, ghost b: seq<byte>, ghost p: nat) returns (r: u32)
    requires p + 2 <= |b| && b[p] == first && b[p + 1] == last
    requires sum < 0x8000_0000 && Absorbed(b, p, sum)
    ensures r < 0x8000_0000 && Absorbed(b, p + 2, r)
  {
    var val: u16 := last as int * 0x100 + first as int;
    r := AddLazily(sum, val);
    AbsorbWord(b, p, sum, r);
  }

  /** The `for (c = len; c > 1; c -= 2)` loop that both halves of `ip_checksum2` run; `c` is what is left. */
  method SumPairs(data: seq<byte>, sum0: u32, ghost b: seq<byte>, ghost at: nat) returns (sum: u32, c: nat)
    requires at + |data| <= |b| + |data| % 2
    requires forall k :: 0 <= k < |data| - |data| % 2 ==> data[k] == b[at..][k]
    requires sum0 < 0x8000_0000 && Absorbed(b, at, sum0)
    ensures c == |data| % 2
    ensures sum < 0x8000_0000 && Absorbed(b, at + |data| - c, sum)
  {
    sum := sum0;
    var ptr: nat := 0;
    c := |data|;
    while c > 1
      invariant ptr + c == |data| && c % 2 == |data| % 2
      invariant sum < 0x8000_0000 && Absorbed(b, at + ptr, sum)
    {
      assert data[ptr] == b[at + ptr] && data[ptr + 1] == b[at + ptr + 1];
      ghost var before := sum;
      sum := AddLazily(sum, Le16(data, ptr));
      AbsorbWord(b, at + ptr, before, sum);
      ptr, c := ptr + 2, c - 2;
    }
  }

  /** `sum += w; if (sum & 0x80000000) fold`: below bit 31 before, below it after, never past 32 bits between. */
  function AddLazily(sum: u32, w: u16): (r: u32)
    requires sum < 0x8000_0000
    ensures r < 0x8000_0000
    ensures Agrees(r, sum as int + w as int)
  {
    var s: u32 := sum as int + w as int;
    if s >= 0x8000_0000 then Fold(s) else s
  }

  /**
   * The two routines agree bit for bit on an even first part. On an odd one they agree
   * exactly when the two bytes that meet at the seam are equal.
   */
  lemma TwoPartsAgree(d1: seq<byte>, d2: seq<byte>)
    requires |d1| % 2 == 1 ==> |d2| > 0
    ensures Checksum(Joined(d1, d2)) == Checksum(d1 + d2) <==>
            |d1| % 2 == 0 || d1[|d1| - 1] == d2[0]
  {
    if |d1| % 2 == 1 {
      var n := |d1| - 1;
      var plain, joined := d1 + d2, Joined(d1, d2);
      var w: u16 := d1[n] as int * 0x100 + d2[0] as int;
      assert joined == PutLe16(plain, n, w);
      WordSumUpdate(plain, n, w, 0);
      OnesSumAgrees(plain, 0);
      OnesSumAgrees(joined, 0);
      var diff := 0xFF * (d1[n] as int - d2[0] as int);
      assert WordSum(joined, 0) == WordSum(plain, 0) + diff;
      if d1[n] != d2[0] {
        NotCongruent(WordSum(plain, 0), WordSum(joined, 0));
      } else {
        assert joined == plain;
      }
    }
  }

  lemma NotCongruent(x: nat, y: nat)
    requires -0xFFFF < y - x < 0xFFFF && y != x
    ensures !Agrees(x, y)
  {
    var i := Decompose(x);
    var j := Decompose(y);
  }
}
