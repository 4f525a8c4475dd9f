/**
 * SHA-1 in plain arithmetic: every operation of a round and of the schedule as
 * sums, products and remainders, one bit at a time where bits are combined.
 */
module Sha1Arithmetic {
  import opened Bits
  import opened Bytes
  import opened Sha1

  const WORD: nat := 0x1_0000_0000

  /** The round function of one bit: choice, parity or majority. */
  function Mix1(t: nat, x: nat, y: nat, z: nat): nat {
    var a, b, c := x % 2, y % 2, z % 2;
    if t < 20 then (if a == 1 then b else c) else if 40 <= t < 60 then (a + b + c) / 2 else (a + b + c) % 2
  }

  /** The round function of n bits, one after the other. */
  function MixBits(t: nat, x: nat, y: nat, z: nat, n: nat): nat {
    if n == 0 then 0 else Mix1(t, x, y, z) + 2 * MixBits(t, x / 2, y / 2, z / 2, n - 1)
  }

  /** One bit of the round function. */
  ghost predicate MixesTo(t: nat, a: bool, b: bool, c: bool) {
    if t < 20 then (if a then b else c) else if 40 <= t < 60 then (a && b) || (a && c) || (b && c) else a != (b != c)
  }

  lemma {:induction false} BitMixBits(t: nat, x: nat, y: nat, z: nat, n: nat, i: nat)
    ensures Bit(MixBits(t, x, y, z, n), i) == (i < n && MixesTo(t, Bit(x, i), Bit(y, i), Bit(z, i)))
  {
    if n == 0 {
      BitZero(i);
    } else {
      var m, rest := Mix1(t, x, y, z), MixBits(t, x / 2, y / 2, z / 2, n - 1);
      assert MixBits(t, x, y, z, n) == m + 2 * rest;
      MixOne(t, x, y, z);
      hide Mix1, MixBits, MixesTo;
      assert (m + 2 * rest) / 2 == rest && (m + 2 * rest) % 2 == m;
      if i > 0 { BitMixBits(t, x / 2, y / 2, z / 2, n - 1, i - 1); }
    }
  }

  lemma MixOne(t: nat, x: nat, y: nat, z: nat)
    ensures Mix1(t, x, y, z) < 2
    ensures Mix1(t, x, y, z) == 1 <==> MixesTo(t, x % 2 == 1, y % 2 == 1, z % 2 == 1)
  {
  }

  lemma BitF(t: nat, x: nat, y: nat, z: nat, i: nat)
    requires x < Pow2(32) && y < Pow2(32) && z < Pow2(32)
    ensures Bit(F(t, x, y, z), i) == (i < 32 && MixesTo(t, Bit(x, i), Bit(y, i), Bit(z, i)))
  {
    hide Bit, And, Xor, Pow2;
    OnesIsAllOnes();
    BitAnd(x, y, i);
    BitAnd(x, z, i);
    BitAnd(y, z, i);
    BitXor(x, ONES, i);
    BitOnes(32, i);
    if i >= 32 {
      BitBeyond(x, 32, i);
      BitBeyond(y, 32, i);
      BitBeyond(z, 32, i);
    }
    BitAnd(Xor(x, ONES), z, i);
    BitXor(And(x, y), And(Xor(x, ONES), z), i);
    BitXor(x, y, i);
    BitXor(Xor(x, y), z, i);
    BitXor(And(x, y), And(x, z), i);
    BitXor(Xor(And(x, y), And(x, z)), And(y, z), i);
  }

  /** The round function takes the bits of its three words together by choice, parity or majority. */
  lemma MixIsF(t: nat, x: nat, y: nat, z: nat)
    requires x < Pow2(32) && y < Pow2(32) && z < Pow2(32)
    ensures F(t, x, y, z) == MixBits(t, x, y, z, 32)
  {
    hide Bit, F, Pow2;
    forall i: nat ensures Bit(F(t, x, y, z), i) == Bit(MixBits(t, x, y, z, 32), i) {
      BitF(t, x, y, z, i);
      BitMixBits(t, x, y, z, 32, i);
    }
    SameBits(F(t, x, y, z), MixBits(t, x, y, z, 32));
  }

  /** Rotation by n is multiplication by p = 2^n, with what leaves at the top added at the bottom. */
  function Rotated(x: nat, p: nat): nat {
    x * p % WORD + x * p / WORD
  }

  /** The rotation of the source and the standard is that. */
  lemma RotatedIs(x: nat, n: nat)
    requires x < Pow2(32) && 0 < n < 32
    ensures RotateLeft(x, n) == Rotated(x, Pow2(n))
  {
    hide Pow2, Low, Shr, Up, RotateLeft;
    var k := 32 - n;
    var lo, hi := Low(x, k), Shr(x, k);
    TopIsSmall(x, k);
    RotatedParts(x, n);
    SplitAt(x, k);
    UpIsTimes(x, n);
    UpLinear(lo, Up(hi, k), n);
    UpUp(hi, k, n);
    UpIsTimes(hi, 32);
    UpFits(lo, k, n);
    MorePowers();
    DivisionIsUnique(x * Pow2(n), WORD, hi, Up(lo, n));
  }

  /** The upper n bits go below the others. */
  lemma RotatedParts(x: nat, n: nat)
    requires x < Pow2(32) && 0 < n < 32
    ensures RotateLeft(x, n) == Shr(x, 32 - n) + Up(Low(x, 32 - n), n)
  {
    hide Bit, Pow2, Low, Shr, Up, RotateLeft;
    var k := 32 - n;
    var lo, hi := Low(x, k), Shr(x, k);
    TopIsSmall(x, k);
    forall i: nat ensures Bit(RotateLeft(x, n), i) == Bit(hi + Up(lo, n), i) {
      BitRotate(x, n, i);
      BitSplit(hi, lo, n, i);
      if i < n {
        BitShr(x, k, i);
        assert (i + 32 - n) % 32 == i + k;
      } else {
        BitLow(x, k, i - n);
        if i < 32 { assert (i + 32 - n) % 32 == i - n; }
      }
    }
    SameBits(RotateLeft(x, n), hi + Up(lo, n));
  }

  lemma {:induction false} UpUp(x: int, a: nat, b: nat)
    ensures Up(Up(x, a), b) == Up(x, a + b)
  {
    if b > 0 { UpUp(x, a, b - 1); }
  }

  lemma UpFits(x: nat, k: nat, n: nat)
    requires x < Pow2(k)
    ensures 0 <= Up(x, n) < Pow2(k + n)
  {
    UpMonotone(x, Pow2(k), n);
    UpPow2(k, n);
  }

  lemma TopIsSmall(x: nat, k: nat)
    requires x < Pow2(32) && k <= 32
    ensures 0 <= Shr(x, k) < Pow2(32 - k)
  {
    hide Bit, Shr, Pow2;
    forall i: nat | i >= 32 - k ensures !Bit(Shr(x, k), i) {
      BitShr(x, k, i);
      BitBeyond(x, 32, i + k);
    }
    BelowPow2(Shr(x, k), 32 - k);
  }

  /** A round in arithmetic. */
  function RoundSum(h: Hash, t: nat, w: nat): Hash {
    var temp := (Rotated(h.a, 0x20) + MixBits(t, h.b, h.c, h.d, 32) + h.e + K(t) + w) % WORD;
    Hash(temp, h.a, Rotated(h.b, 0x4000_0000), h.c, h.d)
  }

  /** The standard's round is that sum. */
  lemma RoundIs(h: Hash, t: nat, w: nat)
    requires IsHash(h)
    ensures Round(h, t, w) == RoundSum(h, t, w)
  {
    hide RotateLeft, Rotated, F, MixBits, K, Low, Pow2;
    MorePowers();
    MixIsF(t, h.b, h.c, h.d);
    RotatedIs(h.a, 5);
    RotatedIs(h.b, 30);
    ShiftIsDivision(RotateLeft(h.a, 5) + F(t, h.b, h.c, h.d) + h.e + K(t) + w, 32);
  }

  lemma MorePowers()
    ensures Pow2(1) == 2 && Pow2(5) == 0x20 && Pow2(30) == 0x4000_0000 && Pow2(32) == WORD
  {
    Powers();
    assert Pow2(5) == 2 * Pow2(4) && Pow2(31) == 2 * Pow2(30);
  }

  /** A later word of the schedule in arithmetic. */
  function NextWord(a: nat, b: nat, c: nat, d: nat): nat {
    Rotated(MixBits(20, MixBits(20, a, b, c, 32), d, 0, 32), 2)
  }

  /** The standard's schedule continues with that. */
  lemma NextWordIs(a: nat, b: nat, c: nat, d: nat)
    requires a < Pow2(32) && b < Pow2(32) && c < Pow2(32) && d < Pow2(32)
    ensures RotateLeft(Xor(Xor(Xor(a, b), c), d), 1) == NextWord(a, b, c, d)
  {
    hide RotateLeft, Rotated, MixBits, Xor, Pow2;
    MorePowers();
    XorBound(a, b, 32);
    XorBound(Xor(a, b), c, 32);
    XorBound(Xor(Xor(a, b), c), d, 32);
    MixIsF(20, a, b, c);
    MixIsF(20, Xor(Xor(a, b), c), d, 0);
    XorNothing(Xor(Xor(Xor(a, b), c), d));
    RotatedIs(Xor(Xor(Xor(a, b), c), d), 1);
  }

  lemma XorNothing(x: nat)
    ensures Xor(x, 0) == x
  {
  }

  /** The five words of a hash are added modulo 2^32, each to its own. */
  lemma AddHashIs(h: Hash, k: Hash)
    ensures AddHash(h, k) == Hash((h.a + k.a) % WORD, (h.b + k.b) % WORD, (h.c + k.c) % WORD, (h.d + k.d) % WORD,
                                  (h.e + k.e) % WORD)
  {
    hide Low;
    LowIsRemainder(h.a + k.a);
    LowIsRemainder(h.b + k.b);
    LowIsRemainder(h.c + k.c);
    LowIsRemainder(h.d + k.d);
    LowIsRemainder(h.e + k.e);
  }

  lemma LowIsRemainder(x: nat)
    ensures Low(x, 32) == x % WORD
  {
    hide Low, Pow2;
    MorePowers();
    ShiftIsDivision(x, 32);
  }

  /** Digest words are written most significant byte first. */
  lemma WordBytesAre(w: nat)
    ensures WordBytes(w) == [w / 0x100_0000 % 0x100, w / 0x1_0000 % 0x100, w / 0x100 % 0x100, w % 0x100]
  {
    hide ByteAt;
    FourBytes(w);
    assert ByteAt(w, 0) == ToBytes(w, 4)[0] && ByteAt(w, 1) == ToBytes(w, 4)[1];
    assert ByteAt(w, 2) == ToBytes(w, 4)[2] && ByteAt(w, 3) == ToBytes(w, 4)[3];
  }
}
