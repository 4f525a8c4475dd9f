/**
 * Machine words as natural numbers: bitwise operators, shifts and truncation
 * defined one bit at a time, the bit-by-bit facts that connect them, and their
 * meaning as multiplication and division by powers of two.
 */
module Bits {

  function Pow2(k: nat): (r: nat)
    ensures r > 0
  {
    if k == 0 then 1 else 2 * Pow2(k - 1)
  }

  /** Bit i of x, least significant first. */
  predicate Bit(x: nat, i: nat) {
    if i == 0 then x % 2 == 1 else Bit(x / 2, i - 1)
  }

  function And(x: nat, y: nat): nat {
    if x == 0 || y == 0 then 0
    else 2 * And(x / 2, y / 2) + (if x % 2 == 1 && y % 2 == 1 then 1 else 0)
  }

  function Or(x: nat, y: nat): nat {
    if x == 0 then y else if y == 0 then x
    else 2 * Or(x / 2, y / 2) + (if x % 2 == 1 || y % 2 == 1 then 1 else 0)
  }

  function Xor(x: nat, y: nat): nat {
    if x == 0 then y else if y == 0 then x
    else 2 * Xor(x / 2, y / 2) + (if x % 2 != y % 2 then 1 else 0)
  }

  /** The low k bits of x, which is x modulo 2^k, also for negative x. */
  function Low(x: int, k: nat): (r: nat)
    ensures r < Pow2(k)
    decreases k
  {
    if k == 0 then 0 else 2 * Low(x / 2, k - 1) + x % 2
  }

  /** x times 2^k. */
  function Up(x: int, k: nat): (r: int)
    ensures x >= 0 ==> r >= 0
  {
    if k == 0 then x else 2 * Up(x, k - 1)
  }

  /** The arithmetic right shift: x divided by 2^k, rounded down. */
  function Shr(x: int, k: nat): (r: int)
    ensures x >= 0 ==> 0 <= r <= x
    decreases k
  {
    if k == 0 then x else Shr(x / 2, k - 1)
  }

  /** The left shift of a w-bit word: bits pushed past the top are lost. */
  function Shl(x: nat, k: nat, w: nat): nat {
    Low(Up(x, k), w)
  }

  /** Ones' complement of a word of w bits. */
  function Not(x: nat, w: nat): nat
    requires x < Pow2(w)
  {
    Pow2(w) - 1 - x
  }

  /** A word of w bits read as two's complement. */
  function Signed(x: nat, w: nat): int
    requires w > 0
  {
    if x < Pow2(w - 1) then x else x - Pow2(w)
  }

  /** The powers of two that machine words meet. */
  lemma Powers()
    ensures Pow2(4) == 16 && Pow2(8) == 0x100 && Pow2(16) == 0x1_0000 && Pow2(28) == 0x1000_0000
    ensures Pow2(31) == 0x8000_0000 && Pow2(32) == 0x1_0000_0000
  {
    assert Pow2(8) == 0x100;
    assert Pow2(16) == 0x1_0000;
    assert Pow2(24) == 0x100_0000;
  }

  // ----- bits of the constructors

  lemma {:induction false} BitZero(i: nat)
    ensures !Bit(0, i)
  {
    if i > 0 { BitZero(i - 1); }
  }

  lemma {:induction false} BitAnd(x: nat, y: nat, i: nat)
    ensures Bit(And(x, y), i) == (Bit(x, i) && Bit(y, i))
  {
    BitZero(i);
    if x != 0 && y != 0 && i > 0 { BitAnd(x / 2, y / 2, i - 1); }
  }

  lemma {:induction false} BitOr(x: nat, y: nat, i: nat)
    ensures Bit(Or(x, y), i) == (Bit(x, i) || Bit(y, i))
  {
    BitZero(i);
    if x != 0 && y != 0 && i > 0 { BitOr(x / 2, y / 2, i - 1); }
  }

  lemma {:induction false} BitXor(x: nat, y: nat, i: nat)
    ensures Bit(Xor(x, y), i) == (Bit(x, i) != Bit(y, i))
  {
    BitZero(i);
    if x != 0 && y != 0 && i > 0 { BitXor(x / 2, y / 2, i - 1); }
  }

  lemma {:induction false} BitLow(x: nat, k: nat, i: nat)
    ensures Bit(Low(x, k), i) == (i < k && Bit(x, i))
  {
    if k == 0 {
      BitZero(i);
    } else if i > 0 {
      assert Low(x, k) / 2 == Low(x / 2, k - 1);
      BitLow(x / 2, k - 1, i - 1);
    }
  }

  lemma {:induction false} BitUp(x: nat, k: nat, i: nat)
    ensures Bit(Up(x, k), i) == (i >= k && Bit(x, i - k))
  {
    if k > 0 && i > 0 {
      assert Up(x, k) / 2 == Up(x, k - 1);
      BitUp(x, k - 1, i - 1);
    }
  }

  lemma {:induction false} BitShr(x: nat, k: nat, i: nat)
    ensures Bit(Shr(x, k), i) == Bit(x, i + k)
  {
    if k > 0 { BitShr(x / 2, k - 1, i); }
  }

  lemma BitShl(x: nat, k: nat, w: nat, i: nat)
    ensures Bit(Shl(x, k, w), i) == (k <= i < w && Bit(x, i - k))
  {
    BitLow(Up(x, k), w, i);
    BitUp(x, k, i);
  }

  /** A number split at bit k has the bits of its two parts. */
  lemma {:induction false} BitSplit(lo: nat, hi: nat, k: nat, i: nat)
    requires lo < Pow2(k)
    ensures Bit(lo + Up(hi, k), i) == if i < k then Bit(lo, i) else Bit(hi, i - k)
  {
    if k > 0 && i > 0 {
      assert (lo + Up(hi, k)) / 2 == lo / 2 + Up(hi, k - 1);
      BitSplit(lo / 2, hi, k - 1, i - 1);
    }
  }

  lemma {:induction false} BitBeyond(x: nat, k: nat, i: nat)
    requires x < Pow2(k) && i >= k
    ensures !Bit(x, i)
  {
    if k == 0 { BitZero(i); } else { BitBeyond(x / 2, k - 1, i - 1); }
  }

  lemma {:induction false} BitOnes(k: nat, i: nat)
    ensures Bit(Pow2(k) - 1, i) == (i < k)
  {
    if k == 0 {
      BitZero(i);
    } else if i > 0 {
      assert (Pow2(k) - 1) / 2 == Pow2(k - 1) - 1;
      BitOnes(k - 1, i - 1);
    }
  }

  lemma HalfComplement(p: nat, x: nat)
    requires x < 2 * p
    ensures (2 * p - 1 - x) / 2 == p - 1 - x / 2 && (2 * p - 1 - x) % 2 == 1 - x % 2
  {
  }

  lemma {:induction false} BitNot(x: nat, w: nat, i: nat)
    requires x < Pow2(w)
    ensures Bit(Not(x, w), i) == (i < w && !Bit(x, i))
  {
    if w == 0 {
      BitZero(i);
    } else if i > 0 {
      HalfComplement(Pow2(w - 1), x);
      BitNot(x / 2, w - 1, i - 1);
    } else {
      HalfComplement(Pow2(w - 1), x);
    }
  }

  // ----- numbers with the same bits are equal

  lemma {:induction false} SameBits(x: nat, y: nat)
    requires forall i: nat :: Bit(x, i) == Bit(y, i)
    ensures x == y
    decreases x + y
  {
    if x + y > 0 {
      assert Bit(x, 0) == Bit(y, 0);
      forall i: nat ensures Bit(x / 2, i) == Bit(y / 2, i) {
        assert Bit(x, i + 1) == Bit(y, i + 1);
      }
      SameBits(x / 2, y / 2);
    }
  }

  lemma BelowPow2(x: nat, k: nat)
    requires forall i: nat :: i >= k ==> !Bit(x, i)
    ensures x < Pow2(k)
  {
    forall i: nat ensures Bit(x, i) == Bit(Low(x, k), i) {
      BitLow(x, k, i);
    }
    SameBits(x, Low(x, k));
  }

  lemma AndZero(x: nat)
    ensures And(x, 0) == 0 && And(0, x) == 0
  {
  }

  /** Masking with 2^k - 1 keeps the low k bits. */
  lemma AndMask(x: nat, k: nat)
    ensures And(x, Pow2(k) - 1) == Low(x, k)
  {
    forall i: nat ensures Bit(And(x, Pow2(k) - 1), i) == Bit(Low(x, k), i) {
      BitAnd(x, Pow2(k) - 1, i);
      BitOnes(k, i);
      BitLow(x, k, i);
    }
    SameBits(And(x, Pow2(k) - 1), Low(x, k));
  }

  lemma AndBound(x: nat, y: nat, k: nat)
    requires x < Pow2(k) || y < Pow2(k)
    ensures And(x, y) < Pow2(k)
  {
    forall i: nat | i >= k ensures !Bit(And(x, y), i) {
      BitAnd(x, y, i);
      if x < Pow2(k) { BitBeyond(x, k, i); } else { BitBeyond(y, k, i); }
    }
    BelowPow2(And(x, y), k);
  }

  lemma OrBound(x: nat, y: nat, k: nat)
    requires x < Pow2(k) && y < Pow2(k)
    ensures Or(x, y) < Pow2(k)
  {
    forall i: nat | i >= k ensures !Bit(Or(x, y), i) {
      BitOr(x, y, i);
      BitBeyond(x, k, i);
      BitBeyond(y, k, i);
    }
    BelowPow2(Or(x, y), k);
  }

  lemma XorBound(x: nat, y: nat, k: nat)
    requires x < Pow2(k) && y < Pow2(k)
    ensures Xor(x, y) < Pow2(k)
  {
    forall i: nat | i >= k ensures !Bit(Xor(x, y), i) {
      BitXor(x, y, i);
      BitBeyond(x, k, i);
      BitBeyond(y, k, i);
    }
    BelowPow2(Xor(x, y), k);
  }

  /** The top bit of a word says whether it is in the upper half. */
  lemma {:induction false} TopBit(x: nat, k: nat)
    requires x < Pow2(k + 1)
    ensures Bit(x, k) == (x >= Pow2(k))
  {
    if k > 0 { TopBit(x / 2, k - 1); }
  }

  // ----- truncation and shifts

  lemma {:induction false} LowFits(x: nat, k: nat)
    requires x < Pow2(k)
    ensures Low(x, k) == x
  {
    if k > 0 { LowFits(x / 2, k - 1); }
  }

  lemma {:induction false} LowLow(x: int, w: nat, k: nat)
    requires k <= w
    ensures Low(Low(x, w), k) == Low(x, k)
    decreases k
  {
    if k > 0 {
      assert Low(x, w) / 2 == Low(x / 2, w - 1) && Low(x, w) % 2 == x % 2;
      LowLow(x / 2, w - 1, k - 1);
    }
  }

  lemma {:induction false} ShrUp(x: int, k: nat)
    ensures Shr(Up(x, k), k) == x
  {
    if k > 0 {
      assert Up(x, k) / 2 == Up(x, k - 1);
      ShrUp(x, k - 1);
    }
  }

  lemma {:induction false} UpMonotone(x: int, y: int, k: nat)
    ensures x < y ==> Up(x, k) < Up(y, k)
    ensures x <= y ==> Up(x, k) <= Up(y, k)
  {
    if k > 0 { UpMonotone(x, y, k - 1); }
  }

  lemma {:induction false} UpPow2(a: nat, k: nat)
    ensures Up(Pow2(a), k) == Pow2(a + k)
  {
    if k > 0 { UpPow2(a, k - 1); }
  }

  lemma {:induction false} UpZeroOne(n: nat)
    ensures Up(0, n) == 0 && Up(1, n) == Pow2(n)
  {
    if n > 0 { UpZeroOne(n - 1); }
  }

  lemma {:induction false} UpLinear(x: int, y: int, k: nat)
    ensures Up(x + y, k) == Up(x, k) + Up(y, k)
    ensures Up(x - y, k) == Up(x, k) - Up(y, k)
  {
    if k > 0 { UpLinear(x, y, k - 1); }
  }

  lemma {:induction false} Pow2Monotone(a: nat, b: nat)
    requires a <= b
    ensures Pow2(a) <= Pow2(b)
  {
    if a < b { Pow2Monotone(a, b - 1); }
  }

  lemma {:induction false} SplitAt(x: int, k: nat)
    ensures x == Low(x, k) + Up(Shr(x, k), k)
    decreases k
  {
    if k > 0 {
      SplitAt(x / 2, k - 1);
      assert x == 2 * (x / 2) + x % 2;
    }
  }

  // ----- the arithmetic meaning

  lemma {:induction false} UpIsTimes(x: int, k: nat)
    ensures Up(x, k) == x * Pow2(k)
  {
    if k > 0 {
      UpIsTimes(x, k - 1);
      Reassociate(x, Pow2(k - 1));
    }
  }

  lemma Reassociate(x: int, m: int)
    ensures 2 * (x * m) == x * (2 * m)
  {
  }

  lemma {:induction false} Multiple(d: nat, m: nat)
    requires d >= 1
    ensures d * m >= m
  {
    if d > 1 {
      Multiple(d - 1, m);
      assert d * m == (d - 1) * m + m;
    }
  }

  lemma QuotientUnique(m: nat, q: int, r: nat, q': int, r': nat)
    requires r < m && r' < m && q * m + r == q' * m + r'
    ensures q == q'
  {
    assert (q - q') * m == r' - r;
    assert (q' - q) * m == r - r';
    if q' < q { Multiple(q - q', m); }
    if q < q' { Multiple(q' - q, m); }
  }

  /** Shr and Low are division and remainder by 2^k. */
  lemma ShiftIsDivision(x: int, k: nat)
    ensures Shr(x, k) == x / Pow2(k)
    ensures Low(x, k) == x % Pow2(k)
  {
    SplitAt(x, k);
    UpIsTimes(Shr(x, k), k);
    DivisionIsUnique(x, Pow2(k), Shr(x, k), Low(x, k));
  }

  lemma DivisionIsUnique(x: int, m: nat, q: int, r: nat)
    requires m > 0 && x == q * m + r && r < m
    ensures x / m == q && x % m == r
  {
    var q', r' := x / m, x % m;
    assert x == q' * m + r';
    QuotientUnique(m, q, r, q', r');
  }
}
