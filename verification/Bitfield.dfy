/**
 * The runtime's Bitfield template: a field of bitCount bits at an offset inside
 * an unsigned backing word, read with Raw/Value and written with Store.
 */
module Bitfield {
  import opened Bits

  /** The template parameters: width of the backing type in bits, offset and bit count. */
  datatype Layout = Layout(width: nat, offset: nat, bitCount: nat)

  predicate Legal(f: Layout) {
    f.width in {8, 16, 32, 64} && f.bitCount > 0 && f.offset + f.bitCount <= f.width
  }

  /** All ones of the backing type, widened to 64 bits. Below 32 bits the complement is
      taken after promotion to int, so the widened value has all 64 bits set. */
  function One(f: Layout): nat {
    Pow2(if f.width >= 32 then f.width else 64) - 1
  }

  function WidthMask(f: Layout): nat
    requires Legal(f)
  {
    Shr(One(f), f.width - f.bitCount)
  }

  function ValueMask(f: Layout): (r: nat)
    requires Legal(f)
    ensures r < Pow2(64)
  {
    Shl(WidthMask(f), f.offset, 64)
  }

  function Raw(f: Layout, data: nat): nat
    requires Legal(f)
  {
    Low(Shr(And(data, ValueMask(f)), f.offset), f.width)
  }

  /** The unsigned reading of the field. */
  function Value(f: Layout, data: nat): nat
    requires Legal(f)
  {
    Raw(f, data)
  }

  /** The signed reading: shift the field to the top, then arithmetic shift back down. */
  function SignedValue(f: Layout, data: nat): int
    requires Legal(f)
  {
    var shift := f.width - f.bitCount;
    Shr(Signed(Shl(Raw(f, data), shift, f.width), f.width), shift)
  }

  function Stored(f: Layout, data: nat, val: int): (r: nat)
    requires Legal(f)
    ensures r < Pow2(f.width)
  {
    var bits := Low(val, f.width);
    var shifted := Shl(bits, f.offset, if f.width >= 32 then f.width else 32);
    Low(Or(And(data, Not(ValueMask(f), 64)), And(shifted, ValueMask(f))), f.width)
  }

  class Cell {
    const f: Layout
    var data: nat

    ghost predicate Valid()
      reads this
    {
      Legal(f) && data < Pow2(f.width)
    }

    constructor (f: Layout)
      requires Legal(f)
      ensures Valid() && this.f == f && data == 0
    {
      this.f := f;
      data := 0;
    }

    /** Writes the field, and nothing else on the layouts on which the masks are exact. */
    method Store(val: int)
      requires Valid()
      modifies this
      ensures Valid() && data == Stored(f, old(data), val)
      ensures Field(f, data) == val % Pow2(f.bitCount)
      ensures Exact(f) ==> forall i: nat :: !Inside(f, i) ==> Bit(data, i) == Bit(old(data), i)
    {
      hide Stored, Pow2, Bit;
      ghost var before := data;
      data := Stored(f, data, val);
      FieldAfterStore(f, before, val);
      if Exact(f) { StoreKeepsOutside(f, before, val); }
    }

    method Load() returns (r: nat)
      requires Valid()
      ensures Exact(f) ==> r == Field(f, data)
    {
      if Exact(f) { RawIsField(f, data); }
      r := Value(f, data);
    }
  }

  // ----- what the masks select

  /** The field as plain arithmetic. */
  ghost function Field(f: Layout, data: nat): int {
    data / Pow2(f.offset) % Pow2(f.bitCount)
  }

  ghost predicate Inside(f: Layout, i: nat) {
    f.offset <= i < f.offset + f.bitCount
  }

  /** The first bit above the offset that the mask does not select. */
  function MaskEnd(f: Layout): nat {
    if f.width >= 32 then f.offset + f.bitCount else f.width
  }

  /** The mask ends where the field ends: a backing of 32 or 64 bits, or a field at the top. */
  predicate Exact(f: Layout) {
    f.width >= 32 || f.offset + f.bitCount == f.width
  }

  lemma BitMask(f: Layout, i: nat)
    requires Legal(f) && i < f.width
    ensures Bit(ValueMask(f), i) == (f.offset <= i < MaskEnd(f))
  {
    hide Bit, Low, Up, Shr, Pow2, And, Or;
    BitShl(WidthMask(f), f.offset, 64, i);
    if i >= f.offset {
      BitShr(One(f), f.width - f.bitCount, i - f.offset);
      BitOnes(if f.width >= 32 then f.width else 64, i - f.offset + f.width - f.bitCount);
    }
  }

  lemma BitRaw(f: Layout, data: nat, i: nat)
    requires Legal(f) && data < Pow2(f.width)
    ensures Bit(Raw(f, data), i) == (i + f.offset < MaskEnd(f) && Bit(data, i + f.offset))
  {
    hide Bit, Low, Up, Shr, Pow2, And, Or;
    BitLow(Shr(And(data, ValueMask(f)), f.offset), f.width, i);
    BitShr(And(data, ValueMask(f)), f.offset, i);
    BitAnd(data, ValueMask(f), i + f.offset);
    if i + f.offset < f.width { BitMask(f, i + f.offset); } else { BitBeyond(data, f.width, i + f.offset); }
  }

  lemma BitStored(f: Layout, data: nat, val: int, i: nat)
    requires Legal(f) && data < Pow2(f.width)
    ensures Bit(Stored(f, data, val), i) ==
            if f.offset <= i < MaskEnd(f) then Bit(Low(val, f.width), i - f.offset) else Bit(data, i)
  {
    hide Bit, Low, Up, Shr, Pow2, And, Or;
    var bits := Low(val, f.width);
    var w := if f.width >= 32 then f.width else 32;
    var keep, put := And(data, Not(ValueMask(f), 64)), And(Shl(bits, f.offset, w), ValueMask(f));
    BitLow(Or(keep, put), f.width, i);
    if i < f.width {
      BitOr(keep, put, i);
      BitAnd(data, Not(ValueMask(f), 64), i);
      BitNot(ValueMask(f), 64, i);
      BitAnd(Shl(bits, f.offset, w), ValueMask(f), i);
      BitShl(bits, f.offset, w, i);
      BitMask(f, i);
    } else {
      BitBeyond(data, f.width, i);
    }
  }

  lemma BitPow2(k: nat)
    ensures Bit(Pow2(k), k)
  {
    TopBit(Pow2(k), k);
  }

  lemma BitOne()
    ensures Bit(1, 0)
  {
  }

  lemma FieldIsBits(f: Layout, data: nat)
    ensures Field(f, data) == Low(Shr(data, f.offset), f.bitCount)
  {
    ShiftIsDivision(data, f.offset);
    ShiftIsDivision(Shr(data, f.offset), f.bitCount);
  }

  lemma BitField(f: Layout, data: nat, i: nat)
    ensures Bit(Low(Shr(data, f.offset), f.bitCount), i) == (i < f.bitCount && Bit(data, i + f.offset))
  {
    BitLow(Shr(data, f.offset), f.bitCount, i);
    BitShr(data, f.offset, i);
  }

  // ----- loading and storing

  /** A store puts the value, reduced to the field width, into the field on every layout. */
  lemma FieldAfterStore(f: Layout, data: nat, val: int)
    requires Legal(f) && data < Pow2(f.width)
    ensures Field(f, Stored(f, data, val)) == val % Pow2(f.bitCount)
  {
    hide Bit, Low, Up, Shr, Pow2, And, Or, Stored;
    var after := Stored(f, data, val);
    var field := Low(Shr(after, f.offset), f.bitCount);
    forall i: nat ensures Bit(field, i) == Bit(Low(Low(val, f.width), f.bitCount), i) {
      BitField(f, after, i);
      BitStored(f, data, val, i + f.offset);
      BitLow(Low(val, f.width), f.bitCount, i);
    }
    SameBits(field, Low(Low(val, f.width), f.bitCount));
    LowLow(val, f.width, f.bitCount);
    FieldIsBits(f, after);
    ShiftIsDivision(val, f.bitCount);
  }

  lemma RawIsField(f: Layout, data: nat)
    requires Legal(f) && Exact(f) && data < Pow2(f.width)
    ensures Raw(f, data) == Field(f, data)
  {
    hide Bit, Low, Up, Shr, Pow2, And, Or, Raw;
    var field := Low(Shr(data, f.offset), f.bitCount);
    forall i: nat ensures Bit(Raw(f, data), i) == Bit(field, i) {
      BitRaw(f, data, i);
      BitField(f, data, i);
    }
    SameBits(Raw(f, data), field);
    FieldIsBits(f, data);
  }

  /** Loading after a store gives the value reduced to the field width. */
  lemma LoadAfterStore(f: Layout, data: nat, val: int)
    requires Legal(f) && Exact(f) && data < Pow2(f.width)
    ensures Value(f, Stored(f, data, val)) == val % Pow2(f.bitCount)
  {
    hide Pow2, Raw, Stored;
    RawIsField(f, Stored(f, data, val));
    FieldAfterStore(f, data, val);
  }

  /** A store leaves every bit outside the field as it was. */
  lemma StoreKeepsOutside(f: Layout, data: nat, val: int)
    requires Legal(f) && Exact(f) && data < Pow2(f.width)
    ensures forall i: nat :: !Inside(f, i) ==> Bit(Stored(f, data, val), i) == Bit(data, i)
  {
    hide Bit, Low, Up, Shr, Pow2, And, Or, Stored;
    forall i: nat | !Inside(f, i) ensures Bit(Stored(f, data, val), i) == Bit(data, i) {
      BitStored(f, data, val, i);
    }
  }

  ghost predicate Disjoint(f: Layout, g: Layout) {
    f.width == g.width && (f.offset + f.bitCount <= g.offset || g.offset + g.bitCount <= f.offset)
  }

  lemma DisjointStoresCommute(f: Layout, g: Layout, data: nat, a: int, b: int)
    requires Legal(f) && Legal(g) && Disjoint(f, g) && f.width >= 32 && data < Pow2(f.width)
    ensures Stored(f, Stored(g, data, b), a) == Stored(g, Stored(f, data, a), b)
  {
    hide Bit, Low, Up, Shr, Pow2, And, Or, Stored;
    var x, y := Stored(g, data, b), Stored(f, data, a);
    forall i: nat ensures Bit(Stored(f, x, a), i) == Bit(Stored(g, y, b), i) {
      BitStored(f, x, a, i);
      BitStored(g, data, b, i);
      BitStored(g, y, b, i);
      BitStored(f, data, a, i);
    }
    SameBits(Stored(f, x, a), Stored(g, y, b));
  }

  /** Clearing a field of a narrow word clears every field above it. */
  lemma LowerStoreClobbers(f: Layout, g: Layout)
    requires Legal(f) && Legal(g) && f.width == g.width < 32 && f.offset + f.bitCount <= g.offset
    ensures Stored(f, Stored(g, 0, 1), 0) != Stored(g, Stored(f, 0, 0), 1)
  {
    hide Bit, Low, Up, Shr, Pow2, And, Or, Stored;
    var i := g.offset;
    BitStored(f, Stored(g, 0, 1), 0, i);
    BitStored(g, Stored(f, 0, 0), 1, i);
    BitLow(0, f.width, i - f.offset);
    BitZero(i - f.offset);
    BitLow(1, g.width, 0);
    BitOne();
  }

  /** Stores to disjoint fields of one word can be done in either order, for all words and values,
      exactly when the backing has at least 32 bits. */
  lemma DisjointStoresCommuteIff(f: Layout, g: Layout)
    requires Legal(f) && Legal(g) && Disjoint(f, g)
    ensures (forall data: nat, a: int, b: int :: data < Pow2(f.width) ==>
               Stored(f, Stored(g, data, b), a) == Stored(g, Stored(f, data, a), b)) <==> f.width >= 32
  {
    hide Pow2, Stored;
    if f.width >= 32 {
      forall data: nat, a: int, b: int | data < Pow2(f.width)
        ensures Stored(f, Stored(g, data, b), a) == Stored(g, Stored(f, data, a), b)
      {
        DisjointStoresCommute(f, g, data, a, b);
      }
    } else if f.offset + f.bitCount <= g.offset {
      LowerStoreClobbers(f, g);
    } else {
      LowerStoreClobbers(g, f);
    }
  }

  /** The signed reading shifts everything above the field out, so it is right on every layout. */
  lemma SignedValueIsField(f: Layout, data: nat)
    requires Legal(f) && data < Pow2(f.width)
    ensures SignedValue(f, data) == Signed(Low(Shr(data, f.offset), f.bitCount), f.bitCount)
  {
    hide Bit, Low, Up, Shr, Shl, Pow2, And, Or, Raw, Signed;
    var shift, field := f.width - f.bitCount, Low(Shr(data, f.offset), f.bitCount);
    var x, y := Shl(Raw(f, data), shift, f.width), Shl(field, shift, f.width);
    forall i: nat ensures Bit(x, i) == Bit(y, i) {
      BitShl(Raw(f, data), shift, f.width, i);
      BitShl(field, shift, f.width, i);
      if shift <= i < f.width {
        BitRaw(f, data, i - shift);
        BitField(f, data, i - shift);
      }
    }
    SameBits(x, y);
    SignExtend(field, f.bitCount, shift);
  }

  /** The signed reading of a stored value wraps it into the two's complement range of the field. */
  lemma SignedLoadAfterStore(f: Layout, data: nat, val: int)
    requires Legal(f) && data < Pow2(f.width)
    ensures SignedValue(f, Stored(f, data, val)) == Signed(val % Pow2(f.bitCount), f.bitCount)
  {
    hide Low, Up, Shr, Shl, Pow2, And, Or, Stored, Raw, SignedValue, Signed;
    var after := Stored(f, data, val);
    SignedValueIsField(f, after);
    FieldIsBits(f, after);
    FieldAfterStore(f, data, val);
  }

  lemma SignExtend(raw: nat, n: nat, shift: nat)
    requires n > 0 && raw < Pow2(n)
    ensures Shr(Signed(Shl(raw, shift, n + shift), n + shift), shift) == Signed(raw, n)
  {
    UpPow2(n, shift);
    UpPow2(n - 1, shift);
    UpMonotone(raw, Pow2(n), shift);
    UpMonotone(raw, Pow2(n - 1), shift);
    UpMonotone(Pow2(n - 1), raw, shift);
    LowFits(Up(raw, shift), n + shift);
    UpLinear(raw, Pow2(n), shift);
    ShrUp(Signed(raw, n), shift);
  }

  // ----- when the masks are not exact

  /** Reading is right for every word exactly when the backing has at least 32 bits or the field is
      at the top: otherwise the bits above the field leak into the value. */
  lemma RawExactIff(f: Layout)
    requires Legal(f)
    ensures (forall data: nat :: data < Pow2(f.width) ==> Raw(f, data) == Field(f, data)) <==> Exact(f)
  {
    hide Bit, Low, Up, Shr, Pow2, And, Or;
    if Exact(f) {
      forall data: nat | data < Pow2(f.width) ensures Raw(f, data) == Field(f, data) {
        RawIsField(f, data);
      }
    } else {
      RawLeaks(f);
    }
  }

  lemma RawLeaks(f: Layout)
    requires Legal(f) && !Exact(f)
    ensures Raw(f, Pow2(f.width) - 1) != Field(f, Pow2(f.width) - 1)
  {
    hide Bit, Low, Up, Shr, Pow2, And, Or;
    var data := Pow2(f.width) - 1;
    FieldIsBits(f, data);
    BitRaw(f, data, f.bitCount);
    BitField(f, data, f.bitCount);
    BitOnes(f.width, f.bitCount + f.offset);
  }

  /** An unsigned load gives back what was stored, for all words and values, exactly on the same
      layouts: elsewhere a value one bit too wide is read back with that bit. */
  lemma LoadExactIff(f: Layout)
    requires Legal(f)
    ensures (forall data: nat, val: int :: data < Pow2(f.width) ==>
               Value(f, Stored(f, data, val)) == val % Pow2(f.bitCount)) <==> Exact(f)
  {
    hide Pow2, Stored, Raw;
    if Exact(f) {
      forall data: nat, val: int | data < Pow2(f.width)
        ensures Value(f, Stored(f, data, val)) == val % Pow2(f.bitCount)
      {
        LoadAfterStore(f, data, val);
      }
    } else {
      LoadLeaks(f);
    }
  }

  lemma LoadLeaks(f: Layout)
    requires Legal(f) && !Exact(f)
    ensures Value(f, Stored(f, 0, Pow2(f.bitCount))) != Pow2(f.bitCount) % Pow2(f.bitCount)
  {
    hide Bit, Low, Up, Shr, Pow2, And, Or, Stored, Raw;
    var n, val := f.bitCount, Pow2(f.bitCount);
    BitRaw(f, Stored(f, 0, val), n);
    BitStored(f, 0, val, n + f.offset);
    BitLow(val, f.width, n);
    BitPow2(n);
    ShiftIsDivision(val, n);
    BitLow(val, n, n);
  }

  /** Storing leaves the rest of every word alone exactly on the same layouts. */
  lemma StoreExactIff(f: Layout)
    requires Legal(f)
    ensures (forall data: nat, val: int, i: nat :: data < Pow2(f.width) && !Inside(f, i) ==>
              Bit(Stored(f, data, val), i) == Bit(data, i)) <==> Exact(f)
  {
    hide Bit, Low, Up, Shr, Pow2, And, Or;
    if Exact(f) {
      forall data: nat, val: int, i: nat | data < Pow2(f.width) && !Inside(f, i)
        ensures Bit(Stored(f, data, val), i) == Bit(data, i)
      {
        StoreKeepsOutside(f, data, val);
      }
    } else {
      StoreLeaks(f);
      assert !Inside(f, f.offset + f.bitCount);
    }
  }

  lemma StoreLeaks(f: Layout)
    requires Legal(f) && !Exact(f)
    ensures Bit(Stored(f, Pow2(f.width) - 1, 0), f.offset + f.bitCount) != Bit(Pow2(f.width) - 1, f.offset + f.bitCount)
  {
    hide Bit, Low, Up, Shr, Pow2, And, Or;
    var i := f.offset + f.bitCount;
    BitStored(f, Pow2(f.width) - 1, 0, i);
    BitOnes(f.width, i);
    BitLow(0, f.width, f.bitCount);
    BitZero(f.bitCount);
  }
}
