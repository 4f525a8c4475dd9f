/**
 * QFSRV, the quadword funnel shift: the 256-bit concatenation of two registers
 * shifted right by any amount, computed through byte buffers and 64-bit lanes.
 * A 128-bit register is a natural number below 2^128.
 */
module FunnelShift {
  import opened Bits
  import opened Bytes

  // ----- the intrinsics, on registers as numbers

  function Lane(x: nat, j: nat): (r: nat)
    ensures r < Pow2(64)
  {
    Low(Shr(x, 64 * j), 64)
  }

  function SetLanes(lo: nat, hi: nat): nat {
    lo + Up(hi, 64)
  }

  function ShiftLanesRight(x: nat, k: nat): nat {
    SetLanes(Shr(Lane(x, 0), k), Shr(Lane(x, 1), k))
  }

  function ShiftLanesLeft(x: nat, k: nat): nat {
    SetLanes(Shl(Lane(x, 0), k, 64), Shl(Lane(x, 1), k, 64))
  }

  function ShiftBytesRight8(x: nat): nat {
    SetLanes(Lane(x, 1), 0)
  }

  // ----- their bits

  lemma BitLane(x: nat, j: nat, b: nat)
    ensures Bit(Lane(x, j), b) == (b < 64 && Bit(x, 64 * j + b))
  {
    hide Bit, Low, Shr;
    BitLow(Shr(x, 64 * j), 64, b);
    BitShr(x, 64 * j, b);
  }

  lemma BitSetLanes(lo: nat, hi: nat, i: nat)
    requires lo < Pow2(64)
    ensures Bit(SetLanes(lo, hi), i) == if i < 64 then Bit(lo, i) else Bit(hi, i - 64)
  {
    hide Bit, Up, Pow2;
    BitSplit(lo, hi, 64, i);
  }

  lemma ShrBelow(x: nat, k: nat, w: nat)
    requires x < Pow2(w)
    ensures Shr(x, k) < Pow2(w)
  {
    hide Shr, Pow2;
  }

  lemma BitShiftLanesRight(x: nat, k: nat, i: nat)
    requires k < 64 && i < 128
    ensures Bit(ShiftLanesRight(x, k), i) == (i % 64 + k < 64 && Bit(x, i + k))
  {
    hide Bit, Up, Low, Shr, Pow2, SetLanes, Lane;
    ShrBelow(Lane(x, 0), k, 64);
    BitSetLanes(Shr(Lane(x, 0), k), Shr(Lane(x, 1), k), i);
    BitShr(Lane(x, i / 64), k, i % 64);
    BitLane(x, i / 64, i % 64 + k);
  }

  lemma BitShiftLanesLeft(x: nat, k: nat, i: nat)
    requires k < 64 && i < 128
    ensures Bit(ShiftLanesLeft(x, k), i) == (i >= k && i % 64 >= k && Bit(x, i - k))
  {
    hide Bit, Up, Low, Shl, Pow2, SetLanes, Lane;
    ShlBelow(Lane(x, 0), k, 64);
    BitSetLanes(Shl(Lane(x, 0), k, 64), Shl(Lane(x, 1), k, 64), i);
    BitShl(Lane(x, i / 64), k, 64, i % 64);
    if i % 64 >= k { BitLane(x, i / 64, i % 64 - k); }
  }

  lemma ShlBelow(x: nat, k: nat, w: nat)
    ensures Shl(x, k, w) < Pow2(w)
  {
    hide Up, Low, Pow2;
  }

  lemma BitShiftBytesRight8(x: nat, i: nat)
    ensures Bit(ShiftBytesRight8(x), i) == (i < 64 && Bit(x, i + 64))
  {
    hide Bit, Up, Low, Pow2, SetLanes, Lane;
    BitSetLanes(Lane(x, 1), 0, i);
    if i < 64 { BitLane(x, 1, i); } else { BitZero(i - 64); }
  }

  // ----- the specification, bit by bit and as arithmetic

  /** Bit j of the funnel shift of rs and rt by sa. */
  ghost predicate FunnelBit(rs: nat, rt: nat, sa: nat, j: nat) {
    j < 128 && if j + sa < 128 then Bit(rt, j + sa) else Bit(rs, j + sa - 128)
  }

  ghost function Funnel(rs: nat, rt: nat, sa: nat): int {
    (rs * Pow2(128) + rt) / Pow2(sa) % Pow2(128)
  }

  lemma FunnelFromBits(rs: nat, rt: nat, sa: nat, r: nat)
    requires rt < Pow2(128)
    requires forall j: nat :: Bit(r, j) == FunnelBit(rs, rt, sa, j)
    ensures r == Funnel(rs, rt, sa)
  {
    hide Bit, Up, Low, Shr, Pow2;
    var all := rt + Up(rs, 128);
    var spec := Low(Shr(all, sa), 128);
    forall j: nat ensures Bit(r, j) == Bit(spec, j) {
      assert Bit(r, j) == FunnelBit(rs, rt, sa, j);
      BitLow(Shr(all, sa), 128, j);
      BitShr(all, sa, j);
      BitSplit(rt, rs, 128, j + sa);
    }
    SameBits(r, spec);
    FunnelArithmetic(rs, rt, sa);
  }

  lemma FunnelArithmetic(rs: nat, rt: nat, sa: nat)
    ensures Low(Shr(rt + Up(rs, 128), sa), 128) == Funnel(rs, rt, sa)
  {
    hide Up, Low, Shr, Pow2;
    UpIsTimes(rs, 128);
    ShiftIsDivision(rt + Up(rs, 128), sa);
    ShiftIsDivision(Shr(rt + Up(rs, 128), sa), 128);
  }

  // ----- the paths

  /** Each byte of a shifted buffer is a byte of the source further up. */
  ghost predicate ShiftedBytes(rs: nat, rt: nat, byteShift: nat, s: seq<nat>) {
    |s| == 16 && AllBytes(s) &&
    forall i, b: nat :: 0 <= i < 16 && b < 8 ==> Bit(s[i], b) == FunnelBit(rs, rt, 8 * byteShift, 8 * i + b)
  }

  lemma BytePathBits(rs: nat, rt: nat, byteShift: nat, s: seq<nat>, j: nat)
    requires ShiftedBytes(rs, rt, byteShift, s)
    ensures Bit(FromBytes(s), j) == FunnelBit(rs, rt, 8 * byteShift, j)
  {
    hide Bit, Pow2, FromBytes, FunnelBit;
    BitFromBytes(s, j);
    if j < 128 {
      assert Bit(s[j / 8], j % 8) == FunnelBit(rs, rt, 8 * byteShift, 8 * (j / 8) + j % 8);
    } else {
      FunnelTop(rs, rt, 8 * byteShift, j);
    }
  }

  lemma FunnelTop(rs: nat, rt: nat, sa: nat, j: nat)
    requires j >= 128
    ensures !FunnelBit(rs, rt, sa, j)
  {
  }

  /** The lane correction after a byte shift finishes a shift of rs alone. */
  lemma HighPathBits(rs: nat, byteShift: nat, bitShift: nat, whole: nat, j: nat)
    requires 0 < bitShift < 8 && 16 <= byteShift < 32
    requires forall i: nat :: Bit(whole, i) == FunnelBit(rs, 0, 8 * byteShift, i)
    requires rs < Pow2(128)
    ensures Bit(Or(ShiftLanesRight(whole, bitShift), ShiftLanesLeft(ShiftBytesRight8(whole), 64 - bitShift)), j)
         == FunnelBit(rs, 0, 8 * byteShift + bitShift, j)
  {
    hide Bit, Pow2, Or, ShiftLanesRight, ShiftLanesLeft, ShiftBytesRight8;
    var sa := 8 * byteShift + bitShift;
    var a, b := ShiftLanesRight(whole, bitShift), ShiftLanesLeft(ShiftBytesRight8(whole), 64 - bitShift);
    BitOr(a, b, j);
    if j < 128 {
      BitShiftLanesRight(whole, bitShift, j);
      BitShiftLanesLeft(ShiftBytesRight8(whole), 64 - bitShift, j);
      if j % 64 >= 64 - bitShift { BitShiftBytesRight8(whole, j - (64 - bitShift)); }
      assert Bit(whole, j + bitShift) == FunnelBit(rs, 0, 8 * byteShift, j + bitShift);
      if j + bitShift >= 128 { BitBeyond(rs, 128, j + sa - 128); }
    } else {
      HighPathTop(whole, bitShift, j);
    }
  }

  lemma HighPathTop(x: nat, k: nat, j: nat)
    requires k < 64 && j >= 128
    ensures !Bit(ShiftLanesRight(x, k), j)
    ensures !Bit(ShiftLanesLeft(ShiftBytesRight8(x), 64 - k), j)
  {
    hide Bit, Up, Low, Shr, Shl, Pow2, SetLanes, Lane;
    ShrBelow(Lane(x, 0), k, 64);
    ShrBelow(Lane(x, 1), k, 64);
    BitSetLanes(Shr(Lane(x, 0), k), Shr(Lane(x, 1), k), j);
    BitBeyond(Shr(Lane(x, 1), k), 64, j - 64);
    var y := ShiftBytesRight8(x);
    ShlBelow(Lane(y, 0), 64 - k, 64);
    ShlBelow(Lane(y, 1), 64 - k, 64);
    BitSetLanes(Shl(Lane(y, 0), 64 - k, 64), Shl(Lane(y, 1), 64 - k, 64), j);
    BitBeyond(Shl(Lane(y, 1), 64 - k, 64), 64, j - 64);
  }

  /** One 64-bit result lane joined from two neighbouring source lanes. */
  function JoinLanes(lo: nat, hi: nat, s: nat): nat
    requires 0 < s < 64
  {
    Or(Shr(lo, s), Shl(hi, 64 - s, 64))
  }

  lemma BitJoinLanes(lo: nat, hi: nat, s: nat, i: nat)
    requires 0 < s < 64 && lo < Pow2(64) && hi < Pow2(64)
    ensures Bit(JoinLanes(lo, hi, s), i) == (i < 64 && if i + s < 64 then Bit(lo, i + s) else Bit(hi, i + s - 64))
  {
    hide Bit, Shr, Shl, Or, Pow2;
    BitOr(Shr(lo, s), Shl(hi, 64 - s, 64), i);
    BitShr(lo, s, i);
    BitShl(hi, 64 - s, 64, i);
    if i + s >= 64 { BitBeyond(lo, 64, i + s); }
  }

  lemma JoinLanesFits(lo: nat, hi: nat, s: nat)
    requires 0 < s < 64 && lo < Pow2(64) && hi < Pow2(64)
    ensures JoinLanes(lo, hi, s) < Pow2(64)
  {
    hide Bit, Shr, Shl, Or, Pow2;
    ShrBelow(lo, s, 64);
    ShlBelow(hi, 64 - s, 64);
    OrBound(Shr(lo, s), Shl(hi, 64 - s, 64), 64);
  }

  /** Lane q of the concatenation of rs above rt. */
  ghost function SourceLane(rs: nat, rt: nat, q: nat): (r: nat)
    ensures r < Pow2(64)
  {
    if q < 2 then Lane(rt, q) else Lane(rs, q - 2)
  }

  lemma BitSourceLane(rs: nat, rt: nat, q: nat, b: nat)
    requires q < 4 && b < 64
    ensures Bit(SourceLane(rs, rt, q), b) == if 64 * q + b < 128 then Bit(rt, 64 * q + b) else Bit(rs, 64 * q + b - 128)
  {
    hide Bit, Lane;
    BitLane(if q < 2 then rt else rs, if q < 2 then q else q - 2, b);
  }

  /** Joining three neighbouring lanes pairwise shifts the concatenation by 64 * q + s. */
  lemma LanePathBits(rs: nat, rt: nat, q: nat, s: nat, j: nat)
    requires q < 2 && 0 < s < 64
    ensures Bit(SetLanes(JoinLanes(SourceLane(rs, rt, q), SourceLane(rs, rt, q + 1), s),
                         JoinLanes(SourceLane(rs, rt, q + 1), SourceLane(rs, rt, q + 2), s)), j)
         == FunnelBit(rs, rt, 64 * q + s, j)
  {
    hide Bit, SetLanes, JoinLanes, SourceLane, Pow2;
    var a, b, c := SourceLane(rs, rt, q), SourceLane(rs, rt, q + 1), SourceLane(rs, rt, q + 2);
    JoinLanesFits(a, b, s);
    BitSetLanes(JoinLanes(a, b, s), JoinLanes(b, c, s), j);
    if j < 64 {
      BitJoinLanes(a, b, s, j);
      if j + s < 64 { BitSourceLane(rs, rt, q, j + s); } else { BitSourceLane(rs, rt, q + 1, j + s - 64); }
    } else {
      BitJoinLanes(b, c, s, j - 64);
      if j < 128 {
        if j - 64 + s < 64 {
          BitSourceLane(rs, rt, q + 1, j - 64 + s);
        } else {
          BitSourceLane(rs, rt, q + 2, j + s - 128);
        }
      }
    }
  }

  // ----- the operation

  /** The memory image of a register. */
  method StoreBytes(x: nat) returns (buf: array<nat>)
    ensures fresh(buf) && buf.Length == 16
    ensures forall i :: 0 <= i < 16 ==> buf[i] == ByteAt(x, i)
  {
    buf := new nat[16](i requires i >= 0 => ByteAt(x, i));
  }

  /** Byte k of the 32-byte image of rt followed by rs, and zero past its end. */
  ghost function SourceByte(rs: nat, rt: nat, k: nat): nat {
    if k < 16 then ByteAt(rt, k) else if k < 32 then ByteAt(rs, k - 16) else 0
  }

  lemma SourceByteBits(rs: nat, rt: nat, byteShift: nat, i: nat, b: nat)
    requires rs < Pow2(128) && i < 16 && b < 8
    ensures Bit(SourceByte(rs, rt, i + byteShift), b) == FunnelBit(rs, rt, 8 * byteShift, 8 * i + b)
    ensures SourceByte(rs, rt, i + byteShift) < Pow2(8)
  {
    hide Bit, ByteAt, Pow2;
    var k := i + byteShift;
    if k < 16 {
      BitByteAt(rt, k, b);
      ByteAtFits(rt, k);
    } else if k < 32 {
      BitByteAt(rs, k - 16, b);
      ByteAtFits(rs, k - 16);
    } else {
      BitZero(b);
      BitBeyond(rs, 128, 8 * k + b - 128);
    }
  }

  lemma BytesAreShifted(rs: nat, rt: nat, byteShift: nat, s: seq<nat>)
    requires rs < Pow2(128) && |s| == 16
    requires forall i :: 0 <= i < 16 ==> s[i] == SourceByte(rs, rt, i + byteShift)
    ensures ShiftedBytes(rs, rt, byteShift, s)
  {
    hide Bit, FunnelBit, Pow2, SourceByte;
    forall i, b: nat | 0 <= i < 16 && b < 8
      ensures Bit(s[i], b) == FunnelBit(rs, rt, 8 * byteShift, 8 * i + b)
    {
      SourceByteBits(rs, rt, byteShift, i, b);
    }
    forall i | 0 <= i < 16 ensures s[i] < Pow2(8) {
      SourceByteBits(rs, rt, byteShift, i, 0);
    }
  }

  lemma FunnelPast(rs: nat, rt: nat, sa: nat, j: nat)
    requires rs < Pow2(128) && j + sa >= 256
    ensures !FunnelBit(rs, rt, sa, j)
  {
    hide Bit, Pow2;
    BitBeyond(rs, 128, j + sa - 128);
  }

  lemma ByteShiftBits(rs: nat, rt: nat, byteShift: nat, s: seq<nat>)
    requires rs < Pow2(128) && |s| == 16
    requires forall i :: 0 <= i < 16 ==> s[i] == SourceByte(rs, rt, i + byteShift)
    ensures forall j: nat :: Bit(FromBytes(s), j) == FunnelBit(rs, rt, 8 * byteShift, j)
  {
    hide Bit, FunnelBit, Pow2, SourceByte, FromBytes;
    BytesAreShifted(rs, rt, byteShift, s);
    forall j: nat ensures Bit(FromBytes(s), j) == FunnelBit(rs, rt, 8 * byteShift, j) {
      BytePathBits(rs, rt, byteShift, s, j);
    }
  }

  /** Concatenates rs above rt, shifts right by sa bits and keeps the lower 128 bits. */
  method Qfsrv(rs: nat, rt: nat, sa: nat) returns (r: nat)
    requires rs < Pow2(128) && rt < Pow2(128)
    ensures r == (rs * Pow2(128) + rt) / Pow2(sa) % Pow2(128)
  {
    hide Bit, Pow2, Low, Shr, Up, Or, Shl, ShiftLanesRight, ShiftLanesLeft, ShiftBytesRight8, Lane, SetLanes, JoinLanes;
    if sa == 0 {
      r := rt;
      forall j: nat ensures Bit(r, j) == FunnelBit(rs, rt, sa, j) {
        if j >= 128 { BitBeyond(rt, 128, j); }
      }
    } else if sa >= 256 {
      r := 0;
      forall j: nat ensures Bit(r, j) == FunnelBit(rs, rt, sa, j) {
        BitZero(j);
        FunnelPast(rs, rt, sa, j);
      }
    } else if sa >= 128 {
      r := ShiftHigh(rs, rt, sa);
    } else {
      r := ShiftBoth(rs, rt, sa);
    }
    FunnelFromBits(rs, rt, sa, r);
  }

  /** The paths for 128 <= sa < 256: only rs is left in the window. */
  method ShiftHigh(rs: nat, rt: nat, sa: nat) returns (r: nat)
    requires rs < Pow2(128) && 128 <= sa < 256
    ensures forall j: nat :: Bit(r, j) == FunnelBit(rs, rt, sa, j)
  {
    hide Bit, Pow2, Or, ShiftLanesRight, ShiftLanesLeft, ShiftBytesRight8, FromBytes, ByteAt;
    var shift := sa - 128;
    if shift == 0 {
      r := rs;
      forall j: nat ensures Bit(r, j) == FunnelBit(rs, rt, sa, j) {
        if j >= 128 { BitBeyond(rs, 128, j); }
      }
    } else {
      var byteShift, bitShift := shift / 8, shift % 8;
      var buf := new nat[16](i => 0);
      var src := StoreBytes(rs);
      var i := 0;
      while i + byteShift < 16
        invariant 0 <= i && i + byteShift <= 16
        invariant forall k :: 0 <= k < 16 ==> src[k] == ByteAt(rs, k)
        invariant forall k :: 0 <= k < 16 ==> buf[k] == if k < i then ByteAt(rs, k + byteShift) else 0
      {
        buf[i] := src[i + byteShift];
        i := i + 1;
      }
      var whole := FromBytes(buf[..]);
      ByteShiftBits(rs, 0, byteShift + 16, buf[..]);
      if bitShift > 0 {
        r := Or(ShiftLanesRight(whole, bitShift), ShiftLanesLeft(ShiftBytesRight8(whole), 64 - bitShift));
        forall j: nat ensures Bit(r, j) == FunnelBit(rs, rt, sa, j) {
          HighPathBits(rs, byteShift + 16, bitShift, whole, j);
        }
      } else {
        r := whole;
        forall j: nat ensures Bit(r, j) == FunnelBit(rs, rt, sa, j) {
          assert Bit(whole, j) == FunnelBit(rs, 0, 8 * (byteShift + 16), j);
        }
      }
    }
  }

  /** The paths for 1 <= sa <= 127: bytes when sa is a multiple of eight, 64-bit lanes otherwise. */
  method ShiftBoth(rs: nat, rt: nat, sa: nat) returns (r: nat)
    requires rs < Pow2(128) && 0 < sa < 128
    ensures forall j: nat :: Bit(r, j) == FunnelBit(rs, rt, sa, j)
  {
    hide Bit, Pow2, FunnelBit, Lane, SetLanes, JoinLanes, FromBytes, ByteAt;
    var byteShift, bitShift := sa / 8, sa % 8;
    var combined := new nat[32](k requires k >= 0 => if k < 16 then ByteAt(rt, k) else ByteAt(rs, k - 16));
    var shifted := new nat[16];
    var i := 0;
    while i < 16
      invariant 0 <= i <= 16
      invariant forall k :: 0 <= k < 32 ==> combined[k] == SourceByte(rs, rt, k)
      invariant forall k :: 0 <= k < i ==> shifted[k] == SourceByte(rs, rt, k + byteShift)
    {
      shifted[i] := if i + byteShift < 32 then combined[i + byteShift] else 0;
      i := i + 1;
    }
    ByteShiftBits(rs, rt, byteShift, shifted[..]);
    r := FromBytes(shifted[..]);
    if bitShift > 0 {
      var lo0, lo1, hi0, hi1 := Lane(rt, 0), Lane(rt, 1), Lane(rs, 0), Lane(rs, 1);
      var r0, r1: nat;
      if sa < 64 {
        r0 := JoinLanes(lo0, lo1, sa);
        r1 := JoinLanes(lo1, hi0, sa);
      } else {
        var s := sa - 64;
        r0 := JoinLanes(lo1, hi0, s);
        r1 := JoinLanes(hi0, hi1, s);
      }
      r := SetLanes(r0, r1);
      forall j: nat ensures Bit(r, j) == FunnelBit(rs, rt, sa, j) {
        LanePathBits(rs, rt, sa / 64, sa % 64, j);
      }
    } else {
      assert 8 * byteShift == sa;
    }
  }
}
