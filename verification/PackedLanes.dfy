/**
 * Packed MMI operations: saturating word arithmetic on both of its code paths,
 * and the interleave (PEXT) and pack (PPAC) shuffles.
 */
module PackedLanes {
  import opened Bits

  // ----- one lane of n + 1 bits; the word operations use n == 31

  function AllOnes(n: nat): nat {
    Pow2(n + 1) - 1
  }

  /** The arithmetic right shift of a lane by n: its sign spread over all bits. */
  function SpreadSign(x: nat, n: nat): nat {
    Low(Shr(Signed(x, n + 1), n), n + 1)
  }

  /** The byte-wise blend: each byte comes from y when the top bit of the mask byte is set. */
  function BlendBytes(x: nat, y: nat, mask: nat, bytes: nat): nat
    decreases bytes
  {
    if bytes == 0 then 0
    else
      (if Bit(mask, 7) then Low(y, 8) else Low(x, 8)) + Up(BlendBytes(Shr(x, 8), Shr(y, 8), Shr(mask, 8), bytes - 1), 8)
  }

  /** The and/or select used when the blend instruction is not available. */
  function SelectBits(x: nat, y: nat, mask: nat, n: nat): nat
    requires mask < Pow2(n + 1)
  {
    Or(And(mask, y), And(Not(mask, n + 1), x))
  }

  datatype CodePath = Blend | AndOr

  function Choose(path: CodePath, x: nat, y: nat, mask: nat, n: nat): nat
    requires mask < Pow2(n + 1)
  {
    match path
    case Blend => BlendBytes(x, y, mask, (n + 1) / 8)
    case AndOr => SelectBits(x, y, mask, n)
  }

  /** One lane of ps2_paddsw. */
  function AddSignedSaturate(path: CodePath, a: nat, b: nat, n: nat): nat {
    var sum := Low(a + b, n + 1);
    var overflow := SpreadSign(And(Xor(a, sum), Xor(b, sum)), n);
    var inputSign := SpreadSign(a, n);
    var sat := Choose(path, Pow2(n) - 1, Pow2(n), inputSign, n);
    Choose(path, sum, sat, overflow, n)
  }

  /** One lane of ps2_psubsw. */
  function SubSignedSaturate(path: CodePath, a: nat, b: nat, n: nat): nat {
    var diff := Low(a - b, n + 1);
    var overflow := SpreadSign(And(Xor(a, b), Xor(a, diff)), n);
    var inputSign := SpreadSign(a, n);
    var sat := Choose(path, Pow2(n) - 1, Pow2(n), inputSign, n);
    Choose(path, diff, sat, overflow, n)
  }

  /** The lane mask of a signed greater-than comparison. */
  function GreaterMask(x: nat, y: nat, n: nat): nat {
    if Signed(x, n + 1) > Signed(y, n + 1) then AllOnes(n) else 0
  }

  /** One lane of ps2_paddu32. */
  function AddUnsignedSaturate(a: nat, b: nat, n: nat): nat {
    var sum := Low(a + b, n + 1);
    Or(sum, GreaterMask(Xor(a, Pow2(n)), Xor(sum, Pow2(n)), n))
  }

  /** One lane of ps2_psubu32. */
  function SubUnsignedSaturate(a: nat, b: nat, n: nat): nat {
    var diff := Low(a - b, n + 1);
    And(Not(GreaterMask(Xor(b, Pow2(n)), Xor(a, Pow2(n)), n), n + 1), diff)
  }

  // ----- helpers about lanes

  function Lowest(n: nat): int {
    0 - (Pow2(n) as int)
  }

  function Clamp(x: int, lo: int, hi: int): int {
    if x < lo then lo else if x > hi then hi else x
  }

  lemma {:induction false} ShrSmall(x: int, n: nat)
    requires Lowest(n) <= x < Pow2(n)
    ensures Shr(x, n) == if x < 0 then -1 else 0
    decreases n
  {
    if n > 0 { ShrSmall(x / 2, n - 1); }
  }

  lemma {:induction false} LowMinusOne(k: nat)
    ensures Low(-1, k) == Pow2(k) - 1
  {
    if k > 0 { LowMinusOne(k - 1); }
  }

  lemma SpreadSignMask(x: nat, n: nat)
    requires x < Pow2(n + 1)
    ensures SpreadSign(x, n) == if Bit(x, n) then AllOnes(n) else 0
  {
    hide Bit, Shr, Low;
    TopBit(x, n);
    ShrSmall(Signed(x, n + 1), n);
    LowMinusOne(n + 1);
    LowFits(0, n + 1);
  }

  lemma {:induction false} BlendZero(x: nat, y: nat, bytes: nat)
    requires x < Pow2(8 * bytes)
    ensures BlendBytes(x, y, 0, bytes) == x
    decreases bytes
  {
    hide Bit, Shr, Low, Up, Pow2;
    if bytes == 0 {
      OnlyZero(x);
    } else {
      BitZero(7);
      ShrZero(8);
      ShrFits(x, 8, 8 * (bytes - 1));
      BlendZero(Shr(x, 8), Shr(y, 8), bytes - 1);
      SplitAt(x, 8);
    }
  }

  lemma {:induction false} BlendOnes(x: nat, y: nat, bytes: nat)
    requires y < Pow2(8 * bytes)
    ensures BlendBytes(x, y, Pow2(8 * bytes) - 1, bytes) == y
    decreases bytes
  {
    hide Bit, Shr, Low, Up, Pow2;
    if bytes == 0 {
      OnlyZero(y);
    } else {
      BitOnes(8 * bytes, 7);
      ShrOnes(8 * (bytes - 1), 8);
      ShrFits(y, 8, 8 * (bytes - 1));
      BlendOnes(Shr(x, 8), Shr(y, 8), bytes - 1);
      SplitAt(y, 8);
    }
  }

  lemma OnlyZero(x: nat)
    requires x < Pow2(0)
    ensures x == 0
  {
  }

  lemma {:induction false} ShrZero(k: nat)
    ensures Shr(0, k) == 0
  {
    if k > 0 { ShrZero(k - 1); }
  }

  lemma {:induction false} ShrFits(x: nat, k: nat, w: nat)
    requires x < Pow2(w + k)
    ensures Shr(x, k) < Pow2(w)
    decreases k
  {
    if k > 0 { ShrFits(x / 2, k - 1, w); }
  }

  lemma {:induction false} ShrOnes(w: nat, k: nat)
    ensures Shr(Pow2(w + k) - 1, k) == Pow2(w) - 1
  {
    if k > 0 {
      assert (Pow2(w + k) - 1) / 2 == Pow2(w + k - 1) - 1;
      ShrOnes(w, k - 1);
    }
  }

  lemma SelectZero(x: nat, y: nat, n: nat)
    requires x < Pow2(n + 1)
    ensures SelectBits(x, y, 0, n) == x
  {
    hide Bit, Pow2, And, Or, Not;
    forall i: nat ensures Bit(SelectBits(x, y, 0, n), i) == Bit(x, i) {
      BitSelect(x, y, 0, n, i);
      BitZero(i);
      if i > n { BitBeyond(x, n + 1, i); }
    }
    SameBits(SelectBits(x, y, 0, n), x);
  }

  lemma SelectOnes(x: nat, y: nat, n: nat)
    requires y < Pow2(n + 1)
    ensures SelectBits(x, y, AllOnes(n), n) == y
  {
    hide Bit, Pow2, And, Or, Not;
    forall i: nat ensures Bit(SelectBits(x, y, AllOnes(n), n), i) == Bit(y, i) {
      BitSelect(x, y, AllOnes(n), n, i);
      BitOnes(n + 1, i);
      if i > n { BitBeyond(y, n + 1, i); }
    }
    SameBits(SelectBits(x, y, AllOnes(n), n), y);
  }

  lemma BitSelect(x: nat, y: nat, mask: nat, n: nat, i: nat)
    requires mask < Pow2(n + 1)
    ensures Bit(SelectBits(x, y, mask, n), i) == if Bit(mask, i) then Bit(y, i) else i <= n && Bit(x, i)
  {
    hide Bit, Pow2, And, Or, Not;
    BitOr(And(mask, y), And(Not(mask, n + 1), x), i);
    BitAnd(mask, y, i);
    BitAnd(Not(mask, n + 1), x, i);
    BitNot(mask, n + 1, i);
  }

  /** Both code paths pick y under a mask of ones and x under a mask of zeros. */
  lemma ChooseByMask(path: CodePath, x: nat, y: nat, take: bool, n: nat)
    requires x < Pow2(n + 1) && y < Pow2(n + 1) && (n + 1) % 8 == 0
    ensures Choose(path, x, y, if take then AllOnes(n) else 0, n) == if take then y else x
  {
    hide Bit, Pow2, BlendBytes, SelectBits;
    assert 8 * ((n + 1) / 8) == n + 1;
    match path
    case Blend => if take { BlendOnes(x, y, (n + 1) / 8); } else { BlendZero(x, y, (n + 1) / 8); }
    case AndOr => if take { SelectOnes(x, y, n); } else { SelectZero(x, y, n); }
  }

  /** The low n + 1 bits of a value at most one modulus away. */
  lemma LowNear(x: int, n: nat)
    requires Lowest(n + 1) <= x < 2 * Pow2(n + 1)
    ensures Low(x, n + 1) == if x < 0 then x + Pow2(n + 1) else if x < Pow2(n + 1) then x else x - Pow2(n + 1)
  {
    hide Low, Pow2;
    var r := if x < 0 then x + Pow2(n + 1) else if x < Pow2(n + 1) then x else x - Pow2(n + 1);
    ShiftIsDivision(x, n + 1);
    DivisionIsUnique(x, Pow2(n + 1), if x < 0 then -1 else if x < Pow2(n + 1) then 0 else 1, r);
  }

  lemma OverflowBit(a: nat, b: nat, c: nat, d: nat, n: nat)
    requires a < Pow2(n + 1) && b < Pow2(n + 1) && c < Pow2(n + 1) && d < Pow2(n + 1)
    ensures And(Xor(a, b), Xor(c, d)) < Pow2(n + 1)
    ensures Bit(And(Xor(a, b), Xor(c, d)), n)
        <==> ((a >= Pow2(n)) != (b >= Pow2(n))) && ((c >= Pow2(n)) != (d >= Pow2(n)))
  {
    hide Bit, And, Xor, Pow2;
    XorBound(a, b, n + 1);
    AndBound(Xor(a, b), Xor(c, d), n + 1);
    BitAnd(Xor(a, b), Xor(c, d), n);
    BitXor(a, b, n);
    BitXor(c, d, n);
    TopBit(a, n);
    TopBit(b, n);
    TopBit(c, n);
    TopBit(d, n);
  }

  lemma Halves(n: nat)
    ensures Pow2(n + 1) == 2 * Pow2(n)
  {
  }

  // ----- saturating arithmetic is clamped arithmetic

  lemma AddSignedIsClamped(path: CodePath, a: nat, b: nat, n: nat)
    requires a < Pow2(n + 1) && b < Pow2(n + 1) && (n + 1) % 8 == 0
    ensures AddSignedSaturate(path, a, b, n) < Pow2(n + 1)
    ensures Signed(AddSignedSaturate(path, a, b, n), n + 1) ==
        Clamp(Signed(a, n + 1) + Signed(b, n + 1), Lowest(n), Pow2(n) - 1)
  {
    hide Bit, And, Xor, Pow2, Low, SpreadSign, Choose, AllOnes;
    Halves(n);
    var sum := Low(a + b, n + 1);
    LowNear(a + b, n);
    OverflowBit(a, sum, b, sum, n);
    SpreadSignMask(And(Xor(a, sum), Xor(b, sum)), n);
    SpreadSignMask(a, n);
    TopBit(a, n);
    var sat := if Bit(a, n) then Pow2(n) else Pow2(n) - 1;
    ChooseByMask(path, Pow2(n) - 1, Pow2(n), Bit(a, n), n);
    ChooseByMask(path, sum, sat, Bit(And(Xor(a, sum), Xor(b, sum)), n), n);
  }

  lemma SubSignedIsClamped(path: CodePath, a: nat, b: nat, n: nat)
    requires a < Pow2(n + 1) && b < Pow2(n + 1) && (n + 1) % 8 == 0
    ensures SubSignedSaturate(path, a, b, n) < Pow2(n + 1)
    ensures Signed(SubSignedSaturate(path, a, b, n), n + 1) ==
        Clamp(Signed(a, n + 1) - Signed(b, n + 1), Lowest(n), Pow2(n) - 1)
  {
    hide Bit, And, Xor, Pow2, Low, SpreadSign, Choose, AllOnes;
    Halves(n);
    var diff := Low(a - b, n + 1);
    LowNear(a - b, n);
    OverflowBit(a, b, a, diff, n);
    SpreadSignMask(And(Xor(a, b), Xor(a, diff)), n);
    SpreadSignMask(a, n);
    TopBit(a, n);
    var sat := if Bit(a, n) then Pow2(n) else Pow2(n) - 1;
    ChooseByMask(path, Pow2(n) - 1, Pow2(n), Bit(a, n), n);
    ChooseByMask(path, diff, sat, Bit(And(Xor(a, b), Xor(a, diff)), n), n);
  }

  /** Flipping the top bit turns signed comparison into unsigned comparison. */
  lemma FlipSign(x: nat, n: nat)
    requires x < Pow2(n + 1)
    ensures Signed(Xor(x, Pow2(n)), n + 1) == x - Pow2(n)
  {
    hide Bit, Xor, Pow2, Up;
    Halves(n);
    var h := if x < Pow2(n) then 0 else 1;
    var lo := if x < Pow2(n) then x else x - Pow2(n);
    UpZeroOne(n);
    var flipped := lo + Up(1 - h, n);
    forall i: nat ensures Bit(Xor(x, Pow2(n)), i) == Bit(flipped, i) {
      BitXor(x, Pow2(n), i);
      BitSplit(lo, h, n, i);
      BitSplit(lo, 1 - h, n, i);
      BitSplit(0, 1, n, i);
      BitZero(i);
      if i >= n { BitsOfZeroOne(i - n); }
    }
    SameBits(Xor(x, Pow2(n)), flipped);
  }

  lemma BitsOfZeroOne(i: nat)
    ensures !Bit(0, i) && Bit(1, i) == (i == 0)
  {
    BitZero(i);
    if i > 0 {
      BitZero(i - 1);
      assert Bit(1, i) == Bit(0, i - 1);
    }
  }

  lemma AddUnsignedIsClamped(a: nat, b: nat, n: nat)
    requires a < Pow2(n + 1) && b < Pow2(n + 1)
    ensures AddUnsignedSaturate(a, b, n) == Clamp(a + b, 0, Pow2(n + 1) - 1)
  {
    hide Bit, Xor, Or, Pow2, Low, Signed;
    var sum := Low(a + b, n + 1);
    LowNear(a + b, n);
    FlipSign(a, n);
    FlipSign(sum, n);
    if a > sum { OrOnes(sum, n + 1); } else { OrZero(sum); }
  }

  lemma OrOnes(x: nat, w: nat)
    requires x < Pow2(w)
    ensures Or(x, Pow2(w) - 1) == Pow2(w) - 1
  {
    hide Bit, Or, Pow2;
    var ones := Pow2(w) - 1;
    forall i: nat ensures Bit(Or(x, ones), i) == Bit(ones, i) {
      BitOr(x, ones, i);
      BitOnes(w, i);
      if i >= w { BitBeyond(x, w, i); }
    }
    SameBits(Or(x, ones), ones);
  }

  lemma OrZero(x: nat)
    ensures Or(x, 0) == x
  {
  }

  lemma SubUnsignedIsClamped(a: nat, b: nat, n: nat)
    requires a < Pow2(n + 1) && b < Pow2(n + 1)
    ensures SubUnsignedSaturate(a, b, n) == Clamp(a - b, 0, Pow2(n + 1) - 1)
  {
    hide Bit, Xor, And, Pow2, Low, Signed;
    var diff := Low(a - b, n + 1);
    LowNear(a - b, n);
    FlipSign(a, n);
    FlipSign(b, n);
    if b > a { AndZero(diff); } else { AndOnes(diff, n + 1); }
  }

  lemma AndOnes(x: nat, w: nat)
    requires x < Pow2(w)
    ensures And(Pow2(w) - 1, x) == x
  {
    hide Bit, And, Pow2;
    forall i: nat ensures Bit(And(Pow2(w) - 1, x), i) == Bit(x, i) {
      BitAnd(Pow2(w) - 1, x, i);
      BitOnes(w, i);
      if i >= w { BitBeyond(x, w, i); }
    }
    SameBits(And(Pow2(w) - 1, x), x);
  }

  // ----- registers of four lanes

  predicate IsLanes(v: seq<nat>, n: nat) {
    |v| == 4 && forall i :: 0 <= i < 4 ==> v[i] < Pow2(n + 1)
  }

  function Paddsw(path: CodePath, a: seq<nat>, b: seq<nat>, n: nat): seq<nat>
    requires IsLanes(a, n) && IsLanes(b, n)
  {
    seq(4, i requires 0 <= i < 4 => AddSignedSaturate(path, a[i], b[i], n))
  }

  function Psubsw(path: CodePath, a: seq<nat>, b: seq<nat>, n: nat): seq<nat>
    requires IsLanes(a, n) && IsLanes(b, n)
  {
    seq(4, i requires 0 <= i < 4 => SubSignedSaturate(path, a[i], b[i], n))
  }

  function Paddu32(a: seq<nat>, b: seq<nat>, n: nat): seq<nat>
    requires IsLanes(a, n) && IsLanes(b, n)
  {
    seq(4, i requires 0 <= i < 4 => AddUnsignedSaturate(a[i], b[i], n))
  }

  function Psubu32(a: seq<nat>, b: seq<nat>, n: nat): seq<nat>
    requires IsLanes(a, n) && IsLanes(b, n)
  {
    seq(4, i requires 0 <= i < 4 => SubUnsignedSaturate(a[i], b[i], n))
  }

  /** Lane i of a signed result is x clamped to the signed range of the lane. */
  ghost predicate SignedLane(r: seq<nat>, i: nat, n: nat, x: int) {
    i < |r| && Signed(r[i], n + 1) == Clamp(x, Lowest(n), Pow2(n) - 1)
  }

  /** Lane i of an unsigned result is x clamped to the unsigned range of the lane. */
  ghost predicate UnsignedLane(r: seq<nat>, i: nat, n: nat, x: int) {
    i < |r| && r[i] == Clamp(x, 0, Pow2(n + 1) - 1)
  }

  /** PADDSW on either code path is signed addition clamped to the lane. */
  lemma PaddswClamped(path: CodePath, a: seq<nat>, b: seq<nat>, n: nat, i: nat)
    requires IsLanes(a, n) && IsLanes(b, n) && i < 4 && (n + 1) % 8 == 0
    ensures SignedLane(Paddsw(path, a, b, n), i, n, Signed(a[i], n + 1) + Signed(b[i], n + 1))
  {
    hide AddSignedSaturate, SubSignedSaturate, AddUnsignedSaturate, SubUnsignedSaturate, Pow2;
    AddSignedIsClamped(path, a[i], b[i], n);
  }

  /** PSUBSW on either code path is signed subtraction clamped to the lane. */
  lemma PsubswClamped(path: CodePath, a: seq<nat>, b: seq<nat>, n: nat, i: nat)
    requires IsLanes(a, n) && IsLanes(b, n) && i < 4 && (n + 1) % 8 == 0
    ensures SignedLane(Psubsw(path, a, b, n), i, n, Signed(a[i], n + 1) - Signed(b[i], n + 1))
  {
    hide AddSignedSaturate, SubSignedSaturate, AddUnsignedSaturate, SubUnsignedSaturate, Pow2;
    SubSignedIsClamped(path, a[i], b[i], n);
  }

  /** PADDU is unsigned addition clamped to the lane. */
  lemma PadduClamped(a: seq<nat>, b: seq<nat>, n: nat, i: nat)
    requires IsLanes(a, n) && IsLanes(b, n) && i < 4
    ensures UnsignedLane(Paddu32(a, b, n), i, n, a[i] + b[i])
  {
    hide AddSignedSaturate, SubSignedSaturate, AddUnsignedSaturate, SubUnsignedSaturate, Pow2;
    AddUnsignedIsClamped(a[i], b[i], n);
  }

  /** PSUBU is unsigned subtraction clamped to the lane. */
  lemma PsubuClamped(a: seq<nat>, b: seq<nat>, n: nat, i: nat)
    requires IsLanes(a, n) && IsLanes(b, n) && i < 4
    ensures UnsignedLane(Psubu32(a, b, n), i, n, (a[i] as int) - b[i])
  {
    hide AddSignedSaturate, SubSignedSaturate, AddUnsignedSaturate, SubUnsignedSaturate, Pow2;
    SubUnsignedIsClamped(a[i], b[i], n);
  }

  /** For the word lanes of the source these are the ranges of int32_t and uint32_t. */
  lemma WordRange()
    ensures Lowest(31) == -0x8000_0000 && Pow2(31) - 1 == 0x7FFF_FFFF && Pow2(32) - 1 == 0xFFFF_FFFF
  {
    Powers();
  }

  // ----- interleave and pack, on the sixteen bytes of a register

  /** Elements of width bytes taken alternately from b and a, starting at byte from. */
  function Interleave(a: seq<nat>, b: seq<nat>, width: nat, from: nat): seq<nat>
    requires |a| == 16 && |b| == 16 && width in {1, 2, 4} && from <= 8
  {
    seq(16, i requires 0 <= i < 16 =>
      var k := from + i / (2 * width) * width + i % width;
      InterleaveInRange(width, from, i);
      if i / width % 2 == 0 then b[k] else a[k])
  }

  lemma InterleaveInRange(width: nat, from: nat, i: nat)
    requires width in {1, 2, 4} && from <= 8 && i < 16
    ensures i / (2 * width) * width + i % width < 8
  {
  }

  /** PEXTLW, PEXTLH and PEXTLB: interleave the lower halves. */
  function Pextl(a: seq<nat>, b: seq<nat>, width: nat): seq<nat>
    requires |a| == 16 && |b| == 16 && width in {1, 2, 4}
  {
    Interleave(a, b, width, 0)
  }

  /** PEXTUW, PEXTUH and PEXTUB: interleave the upper halves. */
  function Pextu(a: seq<nat>, b: seq<nat>, width: nat): seq<nat>
    requires |a| == 16 && |b| == 16 && width in {1, 2, 4}
  {
    Interleave(a, b, width, 8)
  }

  /** The byte shuffle: byte i of the result is the byte of x that the mask names. */
  function Shuffle(x: seq<nat>, mask: seq<nat>): seq<nat>
    requires |x| == 16 && forall i :: 0 <= i < |mask| ==> mask[i] < 16
  {
    seq(|mask|, i requires 0 <= i < |mask| => x[mask[i]])
  }

  /** Words 0 and 2 of rt below words 0 and 2 of rs. */
  function Ppacw(rs: seq<nat>, rt: seq<nat>): seq<nat>
    requires |rs| == 16 && |rt| == 16
  {
    rt[0..4] + rt[8..12] + rs[0..4] + rs[8..12]
  }

  function Ppach(rs: seq<nat>, rt: seq<nat>): seq<nat>
    requires |rs| == 16 && |rt| == 16
  {
    var mask := [0, 1, 4, 5, 8, 9, 12, 13, 0, 1, 4, 5, 8, 9, 12, 13];
    Shuffle(rt, mask)[..8] + Shuffle(rs, mask)[..8]
  }

  function Ppacb(rs: seq<nat>, rt: seq<nat>): seq<nat>
    requires |rs| == 16 && |rt| == 16
  {
    var mask := [0, 2, 4, 6, 8, 10, 12, 14, 0, 2, 4, 6, 8, 10, 12, 14];
    Shuffle(rt, mask)[..8] + Shuffle(rs, mask)[..8]
  }

  /** Byte j of element k of a register cut into elements of width bytes, from the low end. */
  function ElementByte(x: seq<nat>, width: nat, k: nat, j: nat): nat
    requires |x| == 16 && width in {1, 2, 4} && k < 16 / width && j < width
  {
    x[k * width + j]
  }

  /** The lower interleaving has element k of b at place 2k and element k of a at place 2k + 1, the
      upper one those of the upper halves. */
  lemma InterleavedElements(a: seq<nat>, b: seq<nat>, width: nat, k: nat, j: nat)
    requires |a| == 16 && |b| == 16 && width in {1, 2, 4} && k < 8 / width && j < width
    ensures |Pextl(a, b, width)| == 16 && |Pextu(a, b, width)| == 16 && 2 * k + 1 < 16 / width
    ensures ElementByte(Pextl(a, b, width), width, 2 * k, j) == ElementByte(b, width, k, j)
    ensures ElementByte(Pextl(a, b, width), width, 2 * k + 1, j) == ElementByte(a, width, k, j)
    ensures 8 / width + k < 16 / width
    ensures ElementByte(Pextu(a, b, width), width, 2 * k, j) == ElementByte(b, width, 8 / width + k, j)
    ensures ElementByte(Pextu(a, b, width), width, 2 * k + 1, j) == ElementByte(a, width, 8 / width + k, j)
  {
    hide Interleave;
    PlaceIn(width, k, j);
    InterleavedPair(a, b, width, 0, k, j);
    InterleavedPair(a, b, width, 8, k, j);
  }

  lemma InterleavedPair(a: seq<nat>, b: seq<nat>, width: nat, from: nat, k: nat, j: nat)
    requires |a| == 16 && |b| == 16 && width in {1, 2, 4} && from <= 8 && k < 8 / width && j < width
    ensures |Interleave(a, b, width, from)| == 16 && (2 * k + 1) * width + j < 16 && k * width + j < 8
    ensures Interleave(a, b, width, from)[2 * k * width + j] == b[from + k * width + j]
    ensures Interleave(a, b, width, from)[(2 * k + 1) * width + j] == a[from + k * width + j]
  {
    hide Interleave;
    PlaceIn(width, k, j);
    InterleavedAt(a, b, width, from, 2 * k * width + j);
    InterleavedAt(a, b, width, from, (2 * k + 1) * width + j);
  }

  lemma InterleavedAt(a: seq<nat>, b: seq<nat>, width: nat, from: nat, i: nat)
    requires |a| == 16 && |b| == 16 && width in {1, 2, 4} && from <= 8 && i < 16
    ensures |Interleave(a, b, width, from)| == 16 && i / (2 * width) * width + i % width < 8
    ensures var k := from + i / (2 * width) * width + i % width;
            Interleave(a, b, width, from)[i] == if i / width % 2 == 0 then b[k] else a[k]
  {
    InterleaveInRange(width, from, i);
  }

  lemma PlaceIn(width: nat, k: nat, j: nat)
    requires width in {1, 2, 4} && k < 8 / width && j < width
    ensures (8 / width + k) * width == 8 + k * width && k * width + j < 8
    ensures 2 * k + 1 < 16 / width && 8 / width + k < 16 / width
    ensures var i := 2 * k * width + j;
            i < 16 && i / (2 * width) * width + i % width == k * width + j && i / width % 2 == 0
    ensures var i := (2 * k + 1) * width + j;
            i < 16 && i / (2 * width) * width + i % width == k * width + j && i / width % 2 == 1
  {
    if width == 1 {
      PlaceOfByte(k);
    } else if width == 2 {
      PlaceOfHalfword(k, j);
    } else {
      PlaceOfWord(k, j);
    }
  }

  lemma PlaceOfByte(k: nat)
    ensures 2 * k / 2 == k && (2 * k + 1) / 2 == k && 2 * k % 2 == 0 && (2 * k + 1) % 2 == 1
  {
  }

  lemma PlaceOfHalfword(k: nat, j: nat)
    requires j < 2
    ensures (4 * k + j) / 4 == k && (4 * k + j) % 2 == j && (4 * k + j) / 2 % 2 == 0
    ensures (4 * k + 2 + j) / 4 == k && (4 * k + 2 + j) % 2 == j && (4 * k + 2 + j) / 2 % 2 == 1
  {
    PlaceOfByte(k);
    DivisionIsUnique(4 * k + j, 4, k, j);
    DivisionIsUnique(4 * k + j, 2, 2 * k, j);
    DivisionIsUnique(4 * k + 2 + j, 4, k, 2 + j);
    DivisionIsUnique(4 * k + 2 + j, 2, 2 * k + 1, j);
  }

  lemma PlaceOfWord(k: nat, j: nat)
    requires j < 4
    ensures (8 * k + j) / 8 == k && (8 * k + j) % 4 == j && (8 * k + j) / 4 % 2 == 0
    ensures (8 * k + 4 + j) / 8 == k && (8 * k + 4 + j) % 4 == j && (8 * k + 4 + j) / 4 % 2 == 1
  {
    PlaceOfByte(k);
    DivisionIsUnique(8 * k + j, 8, k, j);
    DivisionIsUnique(8 * k + j, 4, 2 * k, j);
    DivisionIsUnique(8 * k + 4 + j, 8, k, 4 + j);
    DivisionIsUnique(8 * k + 4 + j, 4, 2 * k + 1, j);
  }

  /** PPACW, PPACH and PPACB by the width of their elements. */
  function Ppac(rs: seq<nat>, rt: seq<nat>, width: nat): seq<nat>
    requires |rs| == 16 && |rt| == 16 && width in {1, 2, 4}
  {
    if width == 4 then Ppacw(rs, rt) else if width == 2 then Ppach(rs, rt) else Ppacb(rs, rt)
  }

  /** Packing takes the elements at even places, those of rt into the lower half. */
  lemma PackedElements(rs: seq<nat>, rt: seq<nat>, width: nat, k: nat, j: nat)
    requires |rs| == 16 && |rt| == 16 && width in {1, 2, 4} && k < 8 / width && j < width
    ensures |Ppac(rs, rt, width)| == 16 && 2 * k < 16 / width && 8 / width + k < 16 / width
    ensures ElementByte(Ppac(rs, rt, width), width, k, j) == ElementByte(rt, width, 2 * k, j)
    ensures ElementByte(Ppac(rs, rt, width), width, 8 / width + k, j) == ElementByte(rs, width, 2 * k, j)
  {
    hide Ppacw, Ppach, Ppacb;
    if width == 4 {
      PackedWord(rs, rt, k, j);
    } else if width == 2 {
      PackedHalfword(rs, rt, k, j);
    } else {
      PackedByte(rs, rt, k);
    }
  }

  lemma PackedWord(rs: seq<nat>, rt: seq<nat>, k: nat, j: nat)
    requires |rs| == 16 && |rt| == 16 && k < 2 && j < 4
    ensures |Ppacw(rs, rt)| == 16
    ensures Ppacw(rs, rt)[4 * k + j] == rt[8 * k + j] && Ppacw(rs, rt)[8 + 4 * k + j] == rs[8 * k + j]
  {
  }

  lemma PackedHalfword(rs: seq<nat>, rt: seq<nat>, k: nat, j: nat)
    requires |rs| == 16 && |rt| == 16 && k < 4 && j < 2
    ensures |Ppach(rs, rt)| == 16
    ensures Ppach(rs, rt)[2 * k + j] == rt[4 * k + j] && Ppach(rs, rt)[8 + 2 * k + j] == rs[4 * k + j]
  {
    assert [0, 1, 4, 5, 8, 9, 12, 13, 0, 1, 4, 5, 8, 9, 12, 13][2 * k + j] == 4 * k + j;
  }

  lemma PackedByte(rs: seq<nat>, rt: seq<nat>, i: nat)
    requires |rs| == 16 && |rt| == 16 && i < 8
    ensures |Ppacb(rs, rt)| == 16 && Ppacb(rs, rt)[i] == rt[2 * i] && Ppacb(rs, rt)[8 + i] == rs[2 * i]
  {
    assert [0, 2, 4, 6, 8, 10, 12, 14, 0, 2, 4, 6, 8, 10, 12, 14][i] == 2 * i;
  }

  /** Packing the upper and lower interleavings of a and b gives b back, at every width. */
  lemma PackUndoesInterleave(a: seq<nat>, b: seq<nat>)
    requires |a| == 16 && |b| == 16
    ensures Ppacw(Pextu(a, b, 4), Pextl(a, b, 4)) == b
    ensures Ppach(Pextu(a, b, 2), Pextl(a, b, 2)) == b
    ensures Ppacb(Pextu(a, b, 1), Pextl(a, b, 1)) == b
  {
    PackWords(a, b);
    PackHalfwords(a, b);
    PackBytes(a, b);
  }

  lemma PackWords(a: seq<nat>, b: seq<nat>)
    requires |a| == 16 && |b| == 16
    ensures Ppacw(Pextu(a, b, 4), Pextl(a, b, 4)) == b
  {
    var u, l := Pextu(a, b, 4), Pextl(a, b, 4);
    var r := Ppacw(u, l);
    assert |r| == 16;
    forall i | 0 <= i < 16 ensures r[i] == b[i] {
      assert r[i] == if i < 4 then l[i] else if i < 8 then l[i + 4] else if i < 12 then u[i - 8] else u[i - 4];
    }
  }

  lemma PackHalfwords(a: seq<nat>, b: seq<nat>)
    requires |a| == 16 && |b| == 16
    ensures Ppach(Pextu(a, b, 2), Pextl(a, b, 2)) == b
  {
    var r := Ppach(Pextu(a, b, 2), Pextl(a, b, 2));
    assert |r| == 16;
    forall i | 0 <= i < 16 ensures r[i] == b[i] {
    }
  }

  lemma PackBytes(a: seq<nat>, b: seq<nat>)
    requires |a| == 16 && |b| == 16
    ensures Ppacb(Pextu(a, b, 1), Pextl(a, b, 1)) == b
  {
    var u, l := Pextu(a, b, 1), Pextl(a, b, 1);
    forall i | 0 <= i < 8 ensures l[2 * i] == b[i] && u[2 * i] == b[8 + i] {
      assert 2 * i / 2 == i && 2 * i / 1 % 2 == 0 && 2 * i % 1 == 0;
    }
    var r := Ppacb(u, l);
    assert |r| == 16;
    forall i | 0 <= i < 16 ensures r[i] == b[i] {
      assert r[i] == if i < 8 then l[2 * i] else u[2 * (i - 8)];
    }
  }

  /** A register rotated down by width bytes, which brings the odd elements to even places. */
  ghost function Rotate(x: seq<nat>, width: nat): seq<nat>
    requires width <= |x|
  {
    x[width..] + x[..width]
  }

  /** The elements that packing drops are exactly those of a: rotated down by one element, the
      two interleavings pack to a. */
  lemma PackOfOddElements(a: seq<nat>, b: seq<nat>)
    requires |a| == 16 && |b| == 16
    ensures Ppacw(Rotate(Pextu(a, b, 4), 4), Rotate(Pextl(a, b, 4), 4)) == a
    ensures Ppach(Rotate(Pextu(a, b, 2), 2), Rotate(Pextl(a, b, 2), 2)) == a
    ensures Ppacb(Rotate(Pextu(a, b, 1), 1), Rotate(Pextl(a, b, 1), 1)) == a
  {
    RotatedInterleave(a, b, 4);
    RotatedInterleave(a, b, 2);
    RotatedInterleave(a, b, 1);
    PackUndoesInterleave(b, a);
    PackSeesEvenElements(Rotate(Pextu(a, b, 4), 4), Rotate(Pextl(a, b, 4), 4), Pextu(b, a, 4), Pextl(b, a, 4));
    PackSeesEvenElements(Rotate(Pextu(a, b, 2), 2), Rotate(Pextl(a, b, 2), 2), Pextu(b, a, 2), Pextl(b, a, 2));
    PackSeesEvenElements(Rotate(Pextu(a, b, 1), 1), Rotate(Pextl(a, b, 1), 1), Pextu(b, a, 1), Pextl(b, a, 1));
  }

  /** The two registers agree on all elements of width bytes at even places. */
  ghost predicate EvenElementsAgree(x: seq<nat>, y: seq<nat>, width: nat) {
    |x| == 16 && |y| == 16 && width in {1, 2, 4} &&
    forall i :: 0 <= i < 16 && i / width % 2 == 0 ==> x[i] == y[i]
  }

  lemma RotatedInterleave(a: seq<nat>, b: seq<nat>, width: nat)
    requires |a| == 16 && |b| == 16 && width in {1, 2, 4}
    ensures EvenElementsAgree(Rotate(Pextl(a, b, width), width), Pextl(b, a, width), width)
    ensures EvenElementsAgree(Rotate(Pextu(a, b, width), width), Pextu(b, a, width), width)
  {
    hide Interleave;
    SwappedInterleave(a, b, width, 0, 0);
    SwappedInterleave(a, b, width, 8, 0);
    forall i | 0 <= i < 16 && i / width % 2 == 0
      ensures Rotate(Pextl(a, b, width), width)[i] == Pextl(b, a, width)[i]
      ensures Rotate(Pextu(a, b, width), width)[i] == Pextu(b, a, width)[i]
    {
      SwappedInterleave(a, b, width, 0, i);
      SwappedInterleave(a, b, width, 8, i);
    }
  }

  lemma SwappedInterleave(a: seq<nat>, b: seq<nat>, width: nat, from: nat, i: nat)
    requires |a| == 16 && |b| == 16 && width in {1, 2, 4} && from <= 8 && i < 16 && i / width % 2 == 0
    ensures |Interleave(a, b, width, from)| == 16 && |Interleave(b, a, width, from)| == 16 && i + width < 16
    ensures Interleave(a, b, width, from)[i + width] == Interleave(b, a, width, from)[i]
  {
    NextElement(width, i);
  }

  lemma NextElement(width: nat, i: nat)
    requires width in {1, 2, 4} && i < 16 && i / width % 2 == 0
    ensures i + width < 16 && (i + width) / width % 2 == 1
    ensures (i + width) / (2 * width) == i / (2 * width) && (i + width) % width == i % width
  {
  }

  lemma PackSeesEvenElements(u: seq<nat>, l: seq<nat>, u': seq<nat>, l': seq<nat>)
    requires |u| == 16 && |l| == 16 && |u'| == 16 && |l'| == 16
    ensures EvenElementsAgree(u, u', 4) && EvenElementsAgree(l, l', 4) ==> Ppacw(u, l) == Ppacw(u', l')
    ensures EvenElementsAgree(u, u', 2) && EvenElementsAgree(l, l', 2) ==> Ppach(u, l) == Ppach(u', l')
    ensures EvenElementsAgree(u, u', 1) && EvenElementsAgree(l, l', 1) ==> Ppacb(u, l) == Ppacb(u', l')
  {
    hide Ppacw, Ppach, Ppacb, EvenElementsAgree;
    if EvenElementsAgree(u, u', 4) && EvenElementsAgree(l, l', 4) { PackSeesWords(u, l, u', l'); }
    if EvenElementsAgree(u, u', 2) && EvenElementsAgree(l, l', 2) { PackSeesHalfwords(u, l, u', l'); }
    if EvenElementsAgree(u, u', 1) && EvenElementsAgree(l, l', 1) { PackSeesBytes(u, l, u', l'); }
  }

  lemma PackSeesWords(u: seq<nat>, l: seq<nat>, u': seq<nat>, l': seq<nat>)
    requires EvenElementsAgree(u, u', 4) && EvenElementsAgree(l, l', 4)
    ensures Ppacw(u, l) == Ppacw(u', l')
  {
    assert l[0..4] == l'[0..4] && l[8..12] == l'[8..12] && u[0..4] == u'[0..4] && u[8..12] == u'[8..12];
  }

  lemma PackSeesHalfwords(u: seq<nat>, l: seq<nat>, u': seq<nat>, l': seq<nat>)
    requires EvenElementsAgree(u, u', 2) && EvenElementsAgree(l, l', 2)
    ensures Ppach(u, l) == Ppach(u', l')
  {
    hide Ppach;
    PackedHalfword(u, l, 0, 0);
    PackedHalfword(u', l', 0, 0);
    var r, r' := Ppach(u, l), Ppach(u', l');
    forall i | 0 <= i < 16 ensures r[i] == r'[i] {
      var k, j := i % 8 / 2, i % 2;
      PackedHalfword(u, l, k, j);
      PackedHalfword(u', l', k, j);
      assert (4 * k + j) / 2 % 2 == 0 && i == (if i < 8 then 2 * k + j else 8 + 2 * k + j);
    }
  }

  lemma PackSeesBytes(u: seq<nat>, l: seq<nat>, u': seq<nat>, l': seq<nat>)
    requires EvenElementsAgree(u, u', 1) && EvenElementsAgree(l, l', 1)
    ensures Ppacb(u, l) == Ppacb(u', l')
  {
    hide Ppacb;
    PackedByte(u, l, 0);
    PackedByte(u', l', 0);
    var r, r' := Ppacb(u, l), Ppacb(u', l');
    forall i | 0 <= i < 16 ensures r[i] == r'[i] {
      var k := i % 8;
      PackedByte(u, l, k);
      PackedByte(u', l', k);
      assert 2 * k / 1 % 2 == 0 && i == (if i < 8 then k else 8 + k);
    }
  }
}
