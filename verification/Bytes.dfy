/** Little-endian memory images of numbers. */
module Bytes {
  import opened Bits

  /** Byte i of a number, least significant first. */
  function ByteAt(x: nat, i: nat): nat {
    Low(Shr(x, 8 * i), 8)
  }

  /** The number whose little-endian image is the given bytes. */
  function FromBytes(s: seq<nat>): nat {
    if |s| == 0 then 0 else s[0] + Up(FromBytes(s[1..]), 8)
  }

  /** The little-endian image of a number in n bytes. */
  function ToBytes(x: nat, n: nat): (s: seq<nat>)
    ensures |s| == n
  {
    seq(n, i requires 0 <= i < n => ByteAt(x, i))
  }

  ghost predicate AllBytes(s: seq<nat>) {
    forall i :: 0 <= i < |s| ==> s[i] < Pow2(8)
  }

  lemma {:induction false} BitFromBytes(s: seq<nat>, j: nat)
    requires AllBytes(s)
    ensures Bit(FromBytes(s), j) == (j / 8 < |s| && Bit(s[j / 8], j % 8))
  {
    hide Bit, Low, Up, Shr, Pow2;
    if |s| == 0 {
      BitZero(j);
    } else {
      BitSplit(s[0], FromBytes(s[1..]), 8, j);
      if j >= 8 {
        BitFromBytes(s[1..], j - 8);
        assert (j - 8) / 8 == j / 8 - 1 && (j - 8) % 8 == j % 8;
      }
    }
  }

  lemma BitByteAt(x: nat, i: nat, b: nat)
    requires b < 8
    ensures Bit(ByteAt(x, i), b) == Bit(x, 8 * i + b)
  {
    hide Bit, Low, Shr;
    BitLow(Shr(x, 8 * i), 8, b);
    BitShr(x, 8 * i, b);
  }

  lemma ByteAtFits(x: nat, i: nat)
    ensures ByteAt(x, i) < Pow2(8)
  {
    hide Low, Shr, Pow2;
  }

  lemma ToBytesAreBytes(x: nat, n: nat)
    ensures AllBytes(ToBytes(x, n))
  {
    hide ByteAt, Pow2;
    forall i | 0 <= i < n ensures ToBytes(x, n)[i] < Pow2(8) {
      ByteAtFits(x, i);
    }
  }

  /** Reading back the image of a number gives the number reduced to that many bytes. */
  lemma BytesRoundTrip(x: nat, n: nat)
    ensures FromBytes(ToBytes(x, n)) == Low(x, 8 * n)
  {
    hide Bit, Low, ByteAt, FromBytes, Pow2;
    var s := ToBytes(x, n);
    ToBytesAreBytes(x, n);
    forall j: nat ensures Bit(FromBytes(s), j) == Bit(Low(x, 8 * n), j) {
      BitFromBytes(s, j);
      BitLow(x, 8 * n, j);
      if j < 8 * n { BitByteAt(x, j / 8, j % 8); }
    }
    SameBits(FromBytes(s), Low(x, 8 * n));
  }

  /** Images concatenate: the later bytes are the more significant ones. */
  lemma {:induction false} FromBytesConcat(s: seq<nat>, t: seq<nat>)
    ensures FromBytes(s + t) == FromBytes(s) + Up(FromBytes(t), 8 * |s|)
  {
    hide Up;
    if |s| == 0 {
      assert s + t == t;
      UpNone(FromBytes(t));
    } else {
      assert (s + t)[1..] == s[1..] + t;
      FromBytesConcat(s[1..], t);
      UpLinear(FromBytes(s[1..]), Up(FromBytes(t), 8 * (|s| - 1)), 8);
      UpUp(FromBytes(t), 8 * (|s| - 1), 8);
    }
  }

  lemma UpNone(x: int)
    ensures Up(x, 0) == x
  {
  }

  lemma {:induction false} UpUp(x: int, a: nat, b: nat)
    ensures Up(Up(x, a), b) == Up(x, a + b)
  {
    if b > 0 { UpUp(x, a, b - 1); }
  }
}
