/**
 * The Internet checksum as RFC 1071 section 2 defines it: the one's-complement of the
 * one's-complement sum of the 16-bit words, an odd last byte being padded with a zero byte.
 *
 * Every fast implementation is compared with it through `Agrees`: two accumulators
 * agree when end-around carries bring both to the same 16-bit value. This is congruence
 * modulo 65535 together with being zero at the same time, which settles the choice
 * between the two representations 0 and 65535 of the zero residue.
 */
module InternetChecksum {
  import opened Bytes

  function OnesAdd(a: u16, b: u16): u16
  {
    if a + b > 0xFFFF then a + b - 0xFFFF else a + b
  }

  /** The one's-complement sum of the little-endian words of `b` from index `i` on. */
  function OnesSum(b: seq<byte>, i: nat): u16
    decreases |b| - i
  {
    if i >= |b| then 0
    else if i + 1 == |b| then b[i]
    else OnesAdd(Le16(b, i), OnesSum(b, i + 2))
  }

  function Checksum(b: seq<byte>): u16
  {
    0xFFFF - OnesSum(b, 0)
  }

  /** The ordinary integer sum of the same words. */
  function WordSum(b: seq<byte>, i: nat): nat
    decreases |b| - i
  {
    if i >= |b| then 0
    else if i + 1 == |b| then b[i]
    else Le16(b, i) + WordSum(b, i + 2)
  }

  /** The 16-bit value that end-around carries reduce `x` to. */
  ghost function Residue(x: nat): u16
  {
    if x <= 0xFFFF then x else Residue(x - 0xFFFF)
  }

  ghost predicate Agrees(x: nat, y: nat)
  {
    Residue(x) == Residue(y)
  }

  /** What the carries removed is a multiple of 65535, and they never remove a number to 0. */
  lemma {:induction false} Decompose(x: nat) returns (k: nat)
    ensures x == Residue(x) + 0xFFFF * k
    ensures Residue(x) == 0 <==> x == 0
  {
    if x <= 0xFFFF {
      k := 0;
    } else {
      k := Decompose(x - 0xFFFF);
      k := k + 1;
    }
  }

  lemma AgreesUnique(x: u16, y: u16)
    requires Agrees(x, y)
    ensures x == y
  {
  }

  /** Carrying some multiple of 65536 around. */
  lemma {:induction false} Carry(x: nat, k: nat)
    requires x > 0xFFFF * k || k == 0
    ensures Agrees(x - 0xFFFF * k, x)
    decreases k
  {
    if k > 0 {
      Carry(x - 0xFFFF, k - 1);
    }
  }

  lemma AgreesAdd(x: nat, y: nat, x': nat, y': nat)
    requires Agrees(x, x') && Agrees(y, y')
    ensures Agrees(x + y, x' + y')
  {
    var i := Decompose(x);
    var j := Decompose(y);
    var i' := Decompose(x');
    var j' := Decompose(y');
    Carry(x + y, i + j);
    Carry(x' + y', i' + j');
  }

  lemma OnesAddAgrees(a: u16, b: u16)
    ensures Agrees(OnesAdd(a, b), a as int + b as int)
  {
  }

  lemma {:induction false} OnesSumAgrees(b: seq<byte>, i: nat)
    ensures Agrees(OnesSum(b, i), WordSum(b, i))
    decreases |b| - i
  {
    if i + 1 < |b| {
      OnesSumAgrees(b, i + 2);
      OnesAddAgrees(Le16(b, i), OnesSum(b, i + 2));
      AgreesAdd(Le16(b, i), OnesSum(b, i + 2), Le16(b, i), WordSum(b, i + 2));
    }
  }

  /** Any 16-bit value that agrees with the word sum is the RFC's sum, the choice of 0 or 65535 included. */
  lemma FoldedIsOnesSum(folded: u16, b: seq<byte>)
    requires Agrees(folded, WordSum(b, 0))
    ensures 0xFFFF - folded == Checksum(b)
  {
    OnesSumAgrees(b, 0);
    AgreesUnique(folded, OnesSum(b, 0));
  }

  /** A checksum of 0 means that the words carry around to 65535. */
  lemma ZeroChecksum(b: seq<byte>)
    ensures Checksum(b) == 0 <==> Residue(WordSum(b, 0)) == 0xFFFF
  {
    OnesSumAgrees(b, 0);
  }

  /** Changing one aligned word changes the word sum by the difference. */
  lemma {:induction false} WordSumUpdate(b: seq<byte>, pos: nat, v: u16, i: nat)
    requires pos % 2 == 0 && pos + 2 <= |b| && i % 2 == 0
    ensures WordSum(PutLe16(b, pos, v), i) ==
            if i <= pos then WordSum(b, i) - Le16(b, pos) + v else WordSum(b, i)
    decreases |b| - i
  {
    if i + 1 < |b| {
      WordSumUpdate(b, pos, v, i + 2);
    }
  }

  /** The sender's rule: zero the field, sum, store the complement. */
  function Filled(b: seq<byte>, pos: nat): (r: seq<byte>)
    requires pos + 2 <= |b|
  {
    PutLe16(b, pos, Checksum(PutLe16(b, pos, 0)))
  }

  /** The sum of a buffer with `v` in the field, from the sum with the field cleared. */
  lemma FieldSum(b: seq<byte>, pos: nat, v: u16)
    requires pos % 2 == 0 && pos + 2 <= |b|
    ensures Residue(WordSum(PutLe16(b, pos, v), 0)) == Residue(OnesSum(PutLe16(b, pos, 0), 0) as int + v as int)
  {
    var zeroed := PutLe16(b, pos, 0);
    OnesSumAgrees(zeroed, 0);
    WordSumUpdate(b, pos, 0, 0);
    WordSumUpdate(b, pos, v, 0);
    AgreesAdd(WordSum(zeroed, 0), v, OnesSum(zeroed, 0), v);
  }

  /**
   * The receiver's rule accepts a buffer exactly when the field holds what the sender's rule stores,
   * or 65535 where that is 0.
   */
  lemma AcceptedExactlyWhen(b: seq<byte>, pos: nat, v: u16)
    requires pos % 2 == 0 && pos + 2 <= |b|
    ensures var c := Checksum(PutLe16(b, pos, 0));
            Checksum(PutLe16(b, pos, v)) == 0 <==> v == c || (c == 0 && v == 0xFFFF)
  {
    FieldSum(b, pos, v);
    ZeroChecksum(PutLe16(b, pos, v));
  }

  lemma FilledChecksumIsZero(b: seq<byte>, pos: nat)
    requires pos % 2 == 0 && pos + 2 <= |b|
    ensures Checksum(Filled(b, pos)) == 0
  {
    AcceptedExactlyWhen(b, pos, Checksum(PutLe16(b, pos, 0)));
  }

  // Byte order independence (RFC 1071 section 2 (B))

  function NetworkOnesSum(b: seq<byte>, i: nat): u16
    decreases |b| - i
  {
    if i >= |b| then 0
    else if i + 1 == |b| then 0x100 * b[i]
    else OnesAdd(Be16(b, i), NetworkOnesSum(b, i + 2))
  }

  lemma SwapAgrees(v: u16)
    ensures Agrees(Swap16(v), 0x100 * v as int)
  {
    assert Swap16(v) == 0x100 * v as int - 0xFFFF * (v as int / 0x100);
    Carry(0x100 * v, v / 0x100);
  }

  lemma AgreesScale(x: nat, y: nat)
    requires Agrees(x, y)
    ensures Agrees(0x100 * x, 0x100 * y)
  {
    var i := Decompose(x);
    var j := Decompose(y);
    Carry(0x100 * x, 0x100 * i);
    Carry(0x100 * y, 0x100 * j);
  }

  lemma {:induction false} SwapAdd(x: u16, y: u16)
    ensures OnesAdd(Swap16(x), Swap16(y)) == Swap16(OnesAdd(x, y))
  {
    SwapAgrees(x);
    SwapAgrees(y);
    SwapAgrees(OnesAdd(x, y));
    OnesAddAgrees(Swap16(x), Swap16(y));
    AgreesAdd(Swap16(x), Swap16(y), 0x100 * x, 0x100 * y);
    OnesAddAgrees(x, y);
    AgreesScale(OnesAdd(x, y), x as int + y as int);
    AgreesUnique(OnesAdd(Swap16(x), Swap16(y)), Swap16(OnesAdd(x, y)));
  }

  lemma SwapWord(b: seq<byte>, i: nat)
    requires i + 2 <= |b|
    ensures Swap16(Le16(b, i)) == Be16(b, i)
  {
  }

  lemma SwapByte(v: byte)
    ensures Swap16(v) == 0x100 * v as int
  {
  }

  /**
   * The checksum computed on a little-endian machine and stored with a little-endian store is,
   * byte for byte, the checksum a big-endian machine stores.
   */
  lemma {:induction false} ByteOrderIndependent(b: seq<byte>, i: nat)
    ensures NetworkOnesSum(b, i) == Swap16(OnesSum(b, i))
    decreases |b| - i
  {
    if i + 1 < |b| {
      ByteOrderIndependent(b, i + 2);
      SwapWord(b, i);
      SwapAdd(Le16(b, i), OnesSum(b, i + 2));
    } else if i + 1 == |b| {
      SwapByte(b[i]);
    }
  }
}
