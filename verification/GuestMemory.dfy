/**
 * The fast path of guest RAM access: masked addresses over a power-of-two byte
 * array, with a contiguous copy when the access fits and a byte loop when it
 * runs over the end of RAM.
 */
module GuestMemory {
  import opened Bits
  import opened Bytes

  // ----- RAM as a circular byte array of 2^k bytes

  /** The location i bytes past an address, going around the end of RAM. */
  ghost function Location(addr: nat, i: nat, k: nat): (p: nat)
    ensures p < Pow2(k)
  {
    Low(addr + i, k)
  }

  /** The n bytes starting at an address, continuing at the start of RAM past its end. */
  ghost function Window(m: seq<nat>, k: nat, addr: nat, n: nat): (s: seq<nat>)
    requires |m| == Pow2(k)
    ensures |s| == n
  {
    seq(n, i requires 0 <= i < n => m[Location(addr, i, k)])
  }

  /** How far location p lies past an address, going around the end of RAM. */
  ghost function Distance(p: nat, addr: nat, k: nat): (d: nat)
    ensures d < Pow2(k)
  {
    Low(p - addr, k)
  }

  /** RAM after the little-endian bytes of v replaced the n bytes starting at an address. */
  ghost function Written(m: seq<nat>, k: nat, addr: nat, n: nat, v: nat): (r: seq<nat>)
    ensures |r| == |m|
  {
    seq(|m|, p requires 0 <= p < |m| => if Distance(p, addr, k) < n then ByteAt(v, Distance(p, addr, k)) else m[p])
  }

  // ----- circular address arithmetic

  lemma {:induction false} LowPlusUp(x: int, q: int, k: nat)
    ensures Low(x + Up(q, k), k) == Low(x, k)
    decreases k
  {
    if k > 0 {
      assert (x + Up(q, k)) / 2 == x / 2 + Up(q, k - 1) && (x + Up(q, k)) % 2 == x % 2;
      LowPlusUp(x / 2, q, k - 1);
    }
  }

  /** Reducing before adding changes nothing. */
  lemma LowAdd(x: int, y: int, k: nat)
    ensures Low(Low(x, k) + y, k) == Low(x + y, k)
  {
    hide Low, Up, Shr;
    SplitAt(x, k);
    LowPlusUp(Low(x, k) + y, Shr(x, k), k);
  }

  /** Location p lies at distance d past an address exactly when it is d bytes further on. */
  lemma DistanceIff(p: nat, addr: nat, k: nat, d: nat)
    requires p < Pow2(k) && d < Pow2(k)
    ensures Distance(p, addr, k) == d <==> Location(addr, d, k) == p
  {
    hide Low, Pow2;
    LowFits(p, k);
    LowFits(d, k);
    LowAdd(p - addr, addr, k);
    LowAdd(addr + d, 0 - (addr as int), k);
  }

  /** Addresses that differ by a 32-bit wrap name the same location. */
  lemma WrappedAddress(addr: nat, k: nat)
    requires k <= 32
    ensures Low(Low(addr, 32), k) == Low(addr, k)
  {
    hide Low;
    LowLow(addr, 32, k);
  }

  // ----- reads and writes

  lemma WrittenAt(m: seq<nat>, k: nat, addr: nat, n: nat, v: nat, i: nat)
    requires |m| == Pow2(k) && i < Pow2(k)
    ensures Written(m, k, addr, n, v)[Location(addr, i, k)] == if i < n then ByteAt(v, i) else m[Location(addr, i, k)]
  {
    hide Low, Pow2, ByteAt;
    DistanceIff(Location(addr, i, k), addr, k, i);
  }

  /** Reading where a value was just written gives the value back, also across the end of RAM. */
  lemma ReadAfterWrite(m: seq<nat>, k: nat, addr: nat, n: nat, v: nat)
    requires |m| == Pow2(k) && n <= Pow2(k) && v < Pow2(8 * n)
    ensures FromBytes(Window(Written(m, k, addr, n, v), k, addr, n)) == v
  {
    hide Low, Pow2, ByteAt, Written;
    var w := Window(Written(m, k, addr, n, v), k, addr, n);
    forall i | 0 <= i < n ensures w[i] == ToBytes(v, n)[i] {
      WrittenAt(m, k, addr, n, v, i);
    }
    assert w == ToBytes(v, n);
    BytesRoundTrip(v, n);
    LowFits(v, 8 * n);
  }

  /** Every location outside the written window keeps its byte. */
  lemma WriteKeepsOthers(m: seq<nat>, k: nat, addr: nat, n: nat, v: nat, p: nat)
    requires |m| == Pow2(k) && p < Pow2(k) && n <= Pow2(k)
    requires forall i: nat :: i < n ==> Location(addr, i, k) != p
    ensures Written(m, k, addr, n, v)[p] == m[p]
  {
    hide Low, Pow2, ByteAt;
    var d := Distance(p, addr, k);
    DistanceIff(p, addr, k, d);
    assert Location(addr, d, k) == p;
  }

  /** A wide read is its two narrower reads side by side. */
  lemma WideReadIsNarrowReads(m: seq<nat>, k: nat, addr: nat, a: nat, b: nat)
    requires |m| == Pow2(k)
    ensures FromBytes(Window(m, k, addr, a + b))
         == FromBytes(Window(m, k, addr, a)) + Up(FromBytes(Window(m, k, addr + a, b)), 8 * a)
  {
    hide Low, Pow2, Up, FromBytes;
    var whole, lo, hi := Window(m, k, addr, a + b), Window(m, k, addr, a), Window(m, k, addr + a, b);
    assert whole == lo + hi by {
      forall i | 0 <= i < a + b ensures whole[i] == (lo + hi)[i] {
        if i >= a { assert Location(addr + a, i - a, k) == Location(addr, i, k); }
      }
    }
    FromBytesConcat(Window(m, k, addr, a), Window(m, k, addr + a, b));
  }

  /** A wide write is the write of its low part followed by the write of its high part. */
  lemma WideWriteIsNarrowWrites(m: seq<nat>, k: nat, addr: nat, a: nat, b: nat, v: nat)
    requires |m| == Pow2(k) && a + b <= Pow2(k)
    ensures Written(m, k, addr, a + b, v)
         == Written(Written(m, k, addr, a, Low(v, 8 * a)), k, addr + a, b, Shr(v, 8 * a))
  {
    hide Low, Pow2, Shr, ByteAt;
    var lo := Written(m, k, addr, a, Low(v, 8 * a));
    var wide, narrow := Written(m, k, addr, a + b, v), Written(lo, k, addr + a, b, Shr(v, 8 * a));
    forall p | 0 <= p < |m| ensures wide[p] == narrow[p] {
      DistanceShift(p, addr, a, k);
      var d := Distance(p, addr, k);
      if d < a { ByteOfLow(v, a, d); } else { ByteOfHigh(v, a, d - a); }
    }
  }

  lemma DistanceShift(p: nat, addr: nat, a: nat, k: nat)
    requires a <= Pow2(k)
    ensures Distance(p, addr + a, k) ==
            if Distance(p, addr, k) >= a then Distance(p, addr, k) - a else Distance(p, addr, k) - a + Pow2(k)
  {
    hide Low, Pow2, Up;
    var d := Distance(p, addr, k);
    LowAdd(p - addr, 0 - (a as int), k);
    if d >= a {
      LowFits(d - a, k);
    } else {
      LowPlusUp(d - a, 1, k);
      UpZeroOne(k);
      LowFits(d - a + Pow2(k), k);
    }
  }

  lemma SameByte(x: nat, i: nat, y: nat, j: nat)
    requires forall b: nat :: b < 8 ==> Bit(ByteAt(x, i), b) == Bit(ByteAt(y, j), b)
    ensures ByteAt(x, i) == ByteAt(y, j)
  {
    hide Bit, ByteAt, Pow2;
    forall b: nat ensures Bit(ByteAt(x, i), b) == Bit(ByteAt(y, j), b) {
      if b >= 8 {
        ByteAtFits(x, i);
        ByteAtFits(y, j);
        BitBeyond(ByteAt(x, i), 8, b);
        BitBeyond(ByteAt(y, j), 8, b);
      }
    }
    SameBits(ByteAt(x, i), ByteAt(y, j));
  }

  lemma ByteOfLow(v: nat, a: nat, i: nat)
    requires i < a
    ensures ByteAt(Low(v, 8 * a), i) == ByteAt(v, i)
  {
    hide Bit, Low, ByteAt;
    forall b: nat | b < 8 ensures Bit(ByteAt(Low(v, 8 * a), i), b) == Bit(ByteAt(v, i), b) {
      BitByteAt(Low(v, 8 * a), i, b);
      BitByteAt(v, i, b);
      BitLow(v, 8 * a, 8 * i + b);
    }
    SameByte(Low(v, 8 * a), i, v, i);
  }

  lemma ByteOfHigh(v: nat, a: nat, i: nat)
    ensures ByteAt(Shr(v, 8 * a), i) == ByteAt(v, a + i)
  {
    hide Bit, Shr, ByteAt;
    forall b: nat | b < 8 ensures Bit(ByteAt(Shr(v, 8 * a), i), b) == Bit(ByteAt(v, a + i), b) {
      BitByteAt(Shr(v, 8 * a), i, b);
      BitByteAt(v, a + i, b);
      BitShr(v, 8 * a, 8 * i + b);
    }
    SameByte(Shr(v, 8 * a), i, v, a + i);
  }

  // ----- the accesses themselves

  /** Guest RAM of 2^bits bytes; the console has bits == 25. */
  class Ram {
    const bits: nat
    const bytes: array<nat>

    ghost predicate Valid()
      reads this, bytes
    {
      4 <= bits <= 31 && bytes.Length == Pow2(bits) && AllBytes(bytes[..])
    }

    constructor (bits: nat)
      requires 4 <= bits <= 31
      ensures Valid() && this.bits == bits && fresh(bytes)
      ensures forall p :: 0 <= p < bytes.Length ==> bytes[p] == 0
    {
      this.bits := bits;
      bytes := new nat[Pow2(bits)](i => 0);
    }

    /** Ps2FastRangeIsContiguous. */
    predicate Contiguous(offset: nat, n: nat) {
      offset + n <= bytes.Length
    }

    /** Ps2FastRead8 to Ps2FastRead128, for an access of n bytes. */
    method Read(addr: nat, n: nat) returns (value: nat)
      requires Valid() && n in {1, 2, 4, 8, 16}
      ensures value == FromBytes(Window(bytes[..], bits, addr, n))
    {
      hide Low, Pow2, FromBytes, And;
      var offset := And(addr, bytes.Length - 1);
      AndMask(addr, bits);
      SixteenFits(bits);
      var image: seq<nat>;
      if !Contiguous(offset, n) {
        var wrapped := new nat[n];
        var i := 0;
        while i < n
          invariant 0 <= i <= n
          invariant forall j :: 0 <= j < i ==> wrapped[j] == bytes[Location(addr, j, bits)]
        {
          AndMask(offset + i, bits);
          LowAdd(addr, i, bits);
          wrapped[i] := bytes[And(offset + i, bytes.Length - 1)];
          i := i + 1;
        }
        image := wrapped[..];
      } else {
        image := bytes[offset..offset + n];
        forall i | 0 <= i < n ensures image[i] == bytes[Location(addr, i, bits)] {
          ContiguousIndex(addr, i, bits);
        }
      }
      assert image == Window(bytes[..], bits, addr, n);
      value := FromBytes(image);
    }

    /** Ps2FastWrite8 to Ps2FastWrite128, for an access of n bytes. */
    method Write(addr: nat, n: nat, value: nat)
      requires Valid() && n in {1, 2, 4, 8, 16}
      modifies bytes
      ensures Valid()
      ensures bytes[..] == Written(old(bytes[..]), bits, addr, n, value)
    {
      hide Low, Pow2, ByteAt, And;
      var offset := And(addr, bytes.Length - 1);
      AndMask(addr, bits);
      SixteenFits(bits);
      var i := 0;
      if !Contiguous(offset, n) {
        var wrapped := ToBytes(value, n);
        while i < n
          invariant 0 <= i <= n
          invariant bytes[..] == Written(old(bytes[..]), bits, addr, i, value)
        {
          AndMask(offset + i, bits);
          LowAdd(addr, i, bits);
          WriteOneMore(old(bytes[..]), bits, addr, i, value);
          bytes[And(offset + i, bytes.Length - 1)] := wrapped[i];
          i := i + 1;
        }
      } else {
        while i < n
          invariant 0 <= i <= n
          invariant bytes[..] == Written(old(bytes[..]), bits, addr, i, value)
        {
          ContiguousIndex(addr, i, bits);
          WriteOneMore(old(bytes[..]), bits, addr, i, value);
          bytes[offset + i] := ByteAt(value, i);
          i := i + 1;
        }
      }
      WrittenIsBytes(old(bytes[..]), bits, addr, n, value);
    }
  }

  lemma SixteenFits(k: nat)
    requires k >= 4
    ensures Pow2(k) >= 16
  {
    Pow2Monotone(4, k);
    assert Pow2(4) == 16;
  }

  lemma ContiguousIndex(addr: nat, i: nat, k: nat)
    requires Low(addr, k) + i < Pow2(k)
    ensures Location(addr, i, k) == Low(addr, k) + i
  {
    hide Low, Pow2;
    LowAdd(addr, i, k);
    LowFits(Low(addr, k) + i, k);
  }

  lemma WriteOneMore(m: seq<nat>, k: nat, addr: nat, i: nat, v: nat)
    requires |m| == Pow2(k) && i < Pow2(k)
    ensures Written(m, k, addr, i + 1, v) == Written(m, k, addr, i, v)[Location(addr, i, k) := ByteAt(v, i)]
  {
    hide Low, Pow2, ByteAt;
    var r, s := Written(m, k, addr, i + 1, v), Written(m, k, addr, i, v)[Location(addr, i, k) := ByteAt(v, i)];
    forall p | 0 <= p < |m| ensures r[p] == s[p] {
      DistanceIff(p, addr, k, i);
    }
  }

  lemma WrittenIsBytes(m: seq<nat>, k: nat, addr: nat, n: nat, v: nat)
    requires AllBytes(m)
    ensures AllBytes(Written(m, k, addr, n, v))
  {
    hide Low, Pow2, ByteAt;
    var r := Written(m, k, addr, n, v);
    forall p | 0 <= p < |m| ensures r[p] < Pow2(8) {
      ByteAtFits(v, Distance(p, addr, k));
    }
  }
}
