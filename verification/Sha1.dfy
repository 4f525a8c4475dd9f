/**
 * The scanner's hand-written SHA-1, against the definition in FIPS 180-4. Words
 * are natural numbers below 2^32 and bytes natural numbers below 256.
 */
module Sha1 {
  import opened Bits
  import opened Bytes

  const ONES: nat := 0xFFFF_FFFF

  // ----- FIPS 180-4, section 4: functions and constants

  /** ROTL of section 2.2.2, which the source spells the same way. */
  function RotateLeft(x: nat, n: nat): nat
    requires 0 < n < 32
  {
    Or(Shl(x, n, 32), Shr(x, 32 - n))
  }

  function Ch(x: nat, y: nat, z: nat): nat { Xor(And(x, y), And(Xor(x, ONES), z)) }

  function Parity(x: nat, y: nat, z: nat): nat { Xor(Xor(x, y), z) }

  function Maj(x: nat, y: nat, z: nat): nat { Xor(Xor(And(x, y), And(x, z)), And(y, z)) }

  function F(t: nat, x: nat, y: nat, z: nat): nat {
    if t < 20 then Ch(x, y, z) else if t < 40 then Parity(x, y, z) else if t < 60 then Maj(x, y, z) else Parity(x, y, z)
  }

  function K(t: nat): nat {
    if t < 20 then 0x5A827999 else if t < 40 then 0x6ED9EBA1 else if t < 60 then 0x8F1BBCDC else 0xCA62C1D6
  }

  /** Rotation moves bit i - n to place i, and the bits that leave at the top come in at the bottom. */
  lemma BitRotate(x: nat, n: nat, i: nat)
    requires x < Pow2(32) && 0 < n < 32
    ensures Bit(RotateLeft(x, n), i) == (i < 32 && Bit(x, (i + 32 - n) % 32))
  {
    hide Bit, Or, Shl, Shr, Pow2;
    BitOr(Shl(x, n, 32), Shr(x, 32 - n), i);
    BitShl(x, n, 32, i);
    BitShr(x, 32 - n, i);
    if i + 32 - n >= 32 { BitBeyond(x, 32, i + 32 - n); }
    if i < n { assert (i + 32 - n) % 32 == i + 32 - n; } else if i < 32 { assert (i + 32 - n) % 32 == i - n; }
  }

  /** The constants are the square roots of 2, 3, 5 and 10 times 2^30, rounded down. */
  lemma RoundConstants(t: nat)
    requires t < 80
    ensures var n := [2, 3, 5, 10][t / 20];
            K(t) * K(t) <= n * 0x1000_0000_0000_0000 < (K(t) + 1) * (K(t) + 1)
  {
  }

  /** The source's spelling of Ch with OR is the standard's with XOR. */
  lemma OrFormOfCh(b: nat, c: nat, d: nat)
    requires b < Pow2(32)
    ensures Or(And(b, c), And(Xor(b, ONES), d)) == Ch(b, c, d)
  {
    hide Bit, And, Or, Xor, Pow2;
    OnesIsAllOnes();
    var l, r := Or(And(b, c), And(Xor(b, ONES), d)), Ch(b, c, d);
    forall i: nat ensures Bit(l, i) == Bit(r, i) {
      BitOr(And(b, c), And(Xor(b, ONES), d), i);
      BitXor(And(b, c), And(Xor(b, ONES), d), i);
      BitAnd(b, c, i);
      BitAnd(Xor(b, ONES), d, i);
      BitXor(b, ONES, i);
      BitOnes(32, i);
      if i >= 32 { BitBeyond(b, 32, i); }
    }
    SameBits(l, r);
  }

  /** The source's spelling of Maj with OR is the standard's with XOR. */
  lemma OrFormOfMaj(b: nat, c: nat, d: nat)
    ensures Or(Or(And(b, c), And(b, d)), And(c, d)) == Maj(b, c, d)
  {
    hide Bit, And, Or, Xor;
    var l, r := Or(Or(And(b, c), And(b, d)), And(c, d)), Maj(b, c, d);
    forall i: nat ensures Bit(l, i) == Bit(r, i) {
      BitOr(Or(And(b, c), And(b, d)), And(c, d), i);
      BitOr(And(b, c), And(b, d), i);
      BitXor(Xor(And(b, c), And(b, d)), And(c, d), i);
      BitXor(And(b, c), And(b, d), i);
      BitAnd(b, c, i);
      BitAnd(b, d, i);
      BitAnd(c, d, i);
    }
    SameBits(l, r);
  }

  lemma OnesIsAllOnes()
    ensures ONES == Pow2(32) - 1
  {
    Powers();
  }

  // ----- section 5.1.1: padding

  function Zeros(n: nat): (s: seq<nat>)
    ensures |s| == n && forall i :: 0 <= i < n ==> s[i] == 0
  {
    seq(n, i => 0)
  }

  /** The number of zero bytes between the 0x80 byte and the length. */
  function ZeroBytes(n: nat): nat {
    (119 - n % 64) % 64
  }

  /** The n low bytes of a number, most significant first. */
  function BigEndian(x: nat, n: nat): (s: seq<nat>)
    ensures |s| == n
  {
    seq(n, i requires 0 <= i < n => ByteAt(x, n - 1 - i))
  }

  /** The message length in bits as a 64-bit number, big-endian. */
  function LengthField(n: nat): (s: seq<nat>)
    ensures |s| == 8
  {
    BigEndian(Low(8 * n, 64), 8)
  }

  function Pad(m: seq<nat>): seq<nat> {
    m + [0x80] + Zeros(ZeroBytes(|m|)) + LengthField(|m|)
  }

  /** Padded messages are whole blocks. */
  lemma PaddedLength(m: seq<nat>)
    ensures |Pad(m)| == |m| + 9 + ZeroBytes(|m|) && |Pad(m)| % 64 == 0
  {
    hide LengthField, ZeroBytes;
    WholeBlocks(|m|);
  }

  lemma WholeBlocks(n: nat)
    ensures (n + 9 + ZeroBytes(n)) % 64 == 0
  {
    var q, r := n / 64, n % 64;
    if r <= 55 {
      assert n + 9 + ZeroBytes(n) == 64 * (q + 1);
    } else {
      assert n + 9 + ZeroBytes(n) == 64 * (q + 2);
    }
  }

  /** The zero bits after the one bit are the least number k with l + 1 + k congruent to 448
      modulo 512, where l is the message length in bits. */
  lemma FewestZeros(n: nat, k: nat)
    requires (8 * n + 1 + k) % 512 == 448
    ensures (8 * n + 1 + 7 + 8 * ZeroBytes(n)) % 512 == 448
    ensures 7 + 8 * ZeroBytes(n) <= k
  {
    var q, r := n / 64, n % 64;
    var j := (8 * n + 1 + k) / 512;
    assert k == 512 * (j - q) + 447 - 8 * r;
    if r <= 55 {
      assert ZeroBytes(n) == 55 - r;
      assert 8 * n + 8 + 8 * ZeroBytes(n) == 512 * q + 448;
    } else {
      assert ZeroBytes(n) == 119 - r;
      assert 8 * n + 8 + 8 * ZeroBytes(n) == 512 * (q + 1) + 448;
    }
  }

  lemma LengthFieldInjective(n: nat, n': nat)
    requires 8 * n < Pow2(64) && 8 * n' < Pow2(64) && LengthField(n) == LengthField(n')
    ensures n == n'
  {
    hide ByteAt, Low, Pow2, FromBytes;
    LowFits(8 * n, 64);
    LowFits(8 * n', 64);
    forall i | 0 <= i < 8 ensures ByteAt(8 * n, i) == ByteAt(8 * n', i) {
      assert LengthField(n)[7 - i] == LengthField(n')[7 - i];
    }
    assert ToBytes(8 * n, 8) == ToBytes(8 * n', 8);
    BytesRoundTrip(8 * n, 8);
    BytesRoundTrip(8 * n', 8);
  }

  /** Messages of representable length with the same padding are the same message. */
  lemma PaddingInjective(m: seq<nat>, m': seq<nat>)
    requires 8 * |m| < Pow2(64) && 8 * |m'| < Pow2(64) && Pad(m) == Pad(m')
    ensures m == m'
  {
    hide LengthField, Pow2;
    var p := Pad(m);
    assert p[|p| - 8..] == LengthField(|m|);
    assert p[|p| - 8..] == LengthField(|m'|);
    LengthFieldInjective(|m|, |m'|);
    assert m == p[..|m|] && m' == p[..|m'|];
  }

  // ----- section 6.1.2: computation

  datatype Hash = Hash(a: nat, b: nat, c: nat, d: nat, e: nat)

  const INITIAL: Hash := Hash(0x67452301, 0xEFCDAB89, 0x98BADCFE, 0x10325476, 0xC3D2E1F0)

  /** The bytes of the first four words, least significant first, run through the hex digits upwards
      and back down; the fifth word runs through them in steps of two. */
  lemma InitialPattern()
    ensures INITIAL.a == FromBytes([0x01, 0x23, 0x45, 0x67]) && INITIAL.b == FromBytes([0x89, 0xAB, 0xCD, 0xEF])
    ensures INITIAL.c == FromBytes([0xFE, 0xDC, 0xBA, 0x98]) && INITIAL.d == FromBytes([0x76, 0x54, 0x32, 0x10])
    ensures INITIAL.e == FromBytes([0xF0, 0xE1, 0xD2, 0xC3])
  {
    hide FromBytes;
    FourFromBytes(0x01, 0x23, 0x45, 0x67);
    FourFromBytes(0x89, 0xAB, 0xCD, 0xEF);
    FourFromBytes(0xFE, 0xDC, 0xBA, 0x98);
    FourFromBytes(0x76, 0x54, 0x32, 0x10);
    FourFromBytes(0xF0, 0xE1, 0xD2, 0xC3);
  }

  lemma FourFromBytes(b0: nat, b1: nat, b2: nat, b3: nat)
    ensures FromBytes([b0, b1, b2, b3]) == b0 + 0x100 * b1 + 0x1_0000 * b2 + 0x100_0000 * b3
  {
    hide Up;
    assert FromBytes([]) == 0;
    FirstByte(b3, []);
    FirstByte(b2, [b3]);
    FirstByte(b1, [b2, b3]);
    FirstByte(b0, [b1, b2, b3]);
    hide FromBytes;
    assert [b3] + [] == [b3];
    assert [b2] + [b3] == [b2, b3];
    assert [b1] + [b2, b3] == [b1, b2, b3];
    assert [b0] + [b1, b2, b3] == [b0, b1, b2, b3];
  }

  lemma FirstByte(b: nat, s: seq<nat>)
    ensures FromBytes([b] + s) == b + 0x100 * FromBytes(s)
  {
    hide Up;
    assert ([b] + s)[1..] == s;
    Powers();
    UpIsTimes(FromBytes(s), 8);
  }

  lemma FourBytes(x: nat)
    ensures ToBytes(x, 4) == [x % 0x100, x / 0x100 % 0x100, x / 0x1_0000 % 0x100, x / 0x100_0000 % 0x100]
  {
    hide Low, Shr;
    Powers();
    assert Pow2(24) == 0x100_0000 by { UpPow2(8, 16); UpIsTimes(Pow2(8), 16); }
    assert Pow2(0) == 1;
    hide Pow2;
    forall i | 0 <= i < 4 ensures ByteAt(x, i) == x / Pow2(8 * i) % 0x100 {
      ShiftIsDivision(x, 8 * i);
      ShiftIsDivision(Shr(x, 8 * i), 8);
    }
  }

  /** Word t of the block at a byte position: four bytes, most significant first. */
  function BlockWord(p: seq<nat>, at: nat, t: nat): nat
    requires at + 4 * t + 4 <= |p|
  {
    FromBytes([p[at + 4 * t + 3], p[at + 4 * t + 2], p[at + 4 * t + 1], p[at + 4 * t]])
  }

  /** The first n words of the message schedule of the block at a byte position. */
  function Schedule(p: seq<nat>, at: nat, n: nat): (w: seq<nat>)
    requires at + 64 <= |p|
    ensures |w| == n
  {
    if n == 0 then []
    else
      var w := Schedule(p, at, n - 1);
      var t := n - 1;
      w + [if t < 16 then BlockWord(p, at, t)
          else RotateLeft(Xor(Xor(Xor(w[t - 3], w[t - 8]), w[t - 14]), w[t - 16]), 1)]
  }

  function Round(h: Hash, t: nat, w: nat): Hash {
    var temp := Low(RotateLeft(h.a, 5) + F(t, h.b, h.c, h.d) + h.e + K(t) + w, 32);
    Hash(temp, h.a, RotateLeft(h.b, 30), h.c, h.d)
  }

  function Rounds(h: Hash, w: seq<nat>, n: nat): Hash
    requires n <= |w|
  {
    if n == 0 then h else Round(Rounds(h, w, n - 1), n - 1, w[n - 1])
  }

  function AddHash(h: Hash, k: Hash): Hash {
    Hash(Low(h.a + k.a, 32), Low(h.b + k.b, 32), Low(h.c + k.c, 32), Low(h.d + k.d, 32), Low(h.e + k.e, 32))
  }

  /** The intermediate hash value after the first n blocks. */
  function HashBlocks(p: seq<nat>, n: nat): Hash
    requires 64 * n <= |p|
  {
    if n == 0 then INITIAL
    else
      var h := HashBlocks(p, n - 1);
      AddHash(h, Rounds(h, Schedule(p, 64 * (n - 1), 80), 80))
  }

  function WordBytes(w: nat): seq<nat> {
    [ByteAt(w, 3), ByteAt(w, 2), ByteAt(w, 1), ByteAt(w, 0)]
  }

  /** The first n words of a sequence, each most significant byte first. */
  function WordsBytes(words: seq<nat>, n: nat): seq<nat>
    requires n <= |words|
  {
    if n == 0 then [] else WordsBytes(words, n - 1) + WordBytes(words[n - 1])
  }

  /** The 160-bit message digest. */
  function Digest(m: seq<nat>): seq<nat> {
    PaddedLength(m);
    var h := HashBlocks(Pad(m), |Pad(m)| / 64);
    WordsBytes([h.a, h.b, h.c, h.d, h.e], 5)
  }

  // ----- the implementation

  /** (x >> (8 * i)) & 0xFF selects byte i. */
  lemma ShiftAndMask(x: nat, i: nat)
    ensures And(Shr(x, 8 * i), 0xFF) == ByteAt(x, i)
  {
    hide And, Shr, Low;
    assert Pow2(8) == 0x100;
    hide Pow2;
    AndMask(Shr(x, 8 * i), 8);
  }

  /** The source's padding loops. */
  method PadMessage(data: seq<nat>) returns (message: seq<nat>)
    ensures message == Pad(data)
  {
    hide Low, ByteAt, Pow2, And, Shr;
    var bitLength := Low(|data| * 8, 64);
    message := data + [0x80];
    var z := 0;
    while |message| % 64 != 56
      invariant 0 <= z <= ZeroBytes(|data|)
      invariant message == data + [0x80] + Zeros(z)
      decreases ZeroBytes(|data|) - z
    {
      LoopStops(|data|, z);
      message := message + [0];
      z := z + 1;
      assert message == data + [0x80] + Zeros(z);
    }
    LoopStops(|data|, z);
    ghost var field := LengthField(|data|);
    var i := 8;
    while i > 0
      invariant 0 <= i <= 8
      invariant message == data + [0x80] + Zeros(z) + field[..8 - i]
      decreases i
    {
      i := i - 1;
      ShiftAndMask(bitLength, i);
      assert field[..8 - i] == field[..7 - i] + [field[7 - i]];
      message := message + [And(Shr(bitLength, 8 * i), 0xFF)];
    }
    assert field[..8] == field;
  }

  lemma LoopStops(n: nat, z: nat)
    requires z <= ZeroBytes(n)
    ensures (n + 1 + z) % 64 == 56 <==> z == ZeroBytes(n)
  {
    var q, t := n / 64, n % 64 + 1 + z;
    assert n + 1 + z == 64 * q + t;
    ZeroBytesSplit(n);
    hide ZeroBytes;
    if t < 64 { Remainder(q, t); } else { Remainder(q + 1, t - 64); }
  }

  lemma ZeroBytesSplit(n: nat)
    ensures ZeroBytes(n) == if n % 64 <= 55 then 55 - n % 64 else 119 - n % 64
  {
  }

  lemma Remainder(q: nat, r: nat)
    requires r < 64
    ensures (64 * q + r) % 64 == r
  {
  }

  /** The source's assembly of a word from four bytes with shifts and OR. */
  function ShiftedWord(b0: nat, b1: nat, b2: nat, b3: nat): nat {
    Or(Or(Or(Shl(b0, 24, 32), Shl(b1, 16, 32)), Shl(b2, 8, 32)), b3)
  }

  lemma ShiftedWordIsValue(b0: nat, b1: nat, b2: nat, b3: nat)
    requires b0 < Pow2(8) && b1 < Pow2(8) && b2 < Pow2(8) && b3 < Pow2(8)
    ensures ShiftedWord(b0, b1, b2, b3) == FromBytes([b3, b2, b1, b0])
  {
    hide Bit, Or, Shl, FromBytes, Pow2;
    var s := [b3, b2, b1, b0];
    assert AllBytes(s);
    forall j: nat ensures Bit(ShiftedWord(b0, b1, b2, b3), j) == Bit(FromBytes(s), j) {
      BitFromBytes(s, j);
      BitShiftedWord(b0, b1, b2, b3, j);
    }
    SameBits(ShiftedWord(b0, b1, b2, b3), FromBytes(s));
  }

  lemma BitShiftedWord(b0: nat, b1: nat, b2: nat, b3: nat, j: nat)
    requires b0 < Pow2(8) && b1 < Pow2(8) && b2 < Pow2(8) && b3 < Pow2(8)
    ensures Bit(ShiftedWord(b0, b1, b2, b3), j) == (j / 8 < 4 && Bit([b3, b2, b1, b0][j / 8], j % 8))
  {
    hide Bit, Or, Shl, Pow2;
    BitOr(Or(Or(Shl(b0, 24, 32), Shl(b1, 16, 32)), Shl(b2, 8, 32)), b3, j);
    BitOr(Or(Shl(b0, 24, 32), Shl(b1, 16, 32)), Shl(b2, 8, 32), j);
    BitOr(Shl(b0, 24, 32), Shl(b1, 16, 32), j);
    BitShl(b0, 24, 32, j);
    BitShl(b1, 16, 32, j);
    BitShl(b2, 8, 32, j);
    if j >= 8 { BitBeyond(b3, 8, j); }
    if j >= 16 { BitBeyond(b2, 8, j - 8); }
    if j >= 24 { BitBeyond(b1, 8, j - 16); }
  }

  method BuildSchedule(p: seq<nat>, at: nat) returns (w: array<nat>)
    requires at + 64 <= |p| && AllBytes(p)
    ensures w.Length == 80 && w[..] == Schedule(p, at, 80)
  {
    hide RotateLeft, ShiftedWord, Xor, FromBytes, Pow2;
    w := new nat[80](_ => 0);
    var i := 0;
    while i < 16
      invariant 0 <= i <= 16
      invariant w[..i] == Schedule(p, at, i)
    {
      var base := at + i * 4;
      ShiftedWordIsValue(p[base], p[base + 1], p[base + 2], p[base + 3]);
      w[i] := ShiftedWord(p[base], p[base + 1], p[base + 2], p[base + 3]);
      i := i + 1;
      assert w[..i] == w[..i - 1] + [w[i - 1]];
    }
    while i < 80
      invariant 16 <= i <= 80
      invariant w[..i] == Schedule(p, at, i)
    {
      w[i] := RotateLeft(Xor(Xor(Xor(w[i - 3], w[i - 8]), w[i - 14]), w[i - 16]), 1);
      i := i + 1;
      assert w[..i] == w[..i - 1] + [w[i - 1]];
    }
    assert w[..] == w[..80];
  }

  /** The function and constant of round i, in the source's spelling. */
  method RoundFunction(i: nat, b: nat, c: nat, d: nat) returns (f: nat, k: nat)
    requires b < Pow2(32)
    ensures f == F(i, b, c, d) && k == K(i)
  {
    hide And, Or, Xor, Ch, Maj, Pow2;
    OrFormOfCh(b, c, d);
    OrFormOfMaj(b, c, d);
    if i < 20 {
      f, k := Or(And(b, c), And(Xor(b, ONES), d)), 0x5A827999;
    } else if i < 40 {
      f, k := Xor(Xor(b, c), d), 0x6ED9EBA1;
    } else if i < 60 {
      f, k := Or(Or(And(b, c), And(b, d)), And(c, d)), 0x8F1BBCDC;
    } else {
      f, k := Xor(Xor(b, c), d), 0xCA62C1D6;
    }
  }

  ghost predicate IsHash(h: Hash) {
    h.a < Pow2(32) && h.b < Pow2(32) && h.c < Pow2(32) && h.d < Pow2(32) && h.e < Pow2(32)
  }

  method RunRounds(h: Hash, w: seq<nat>) returns (r: Hash)
    requires |w| == 80 && IsHash(h)
    ensures r == Rounds(h, w, 80)
  {
    hide F, K, RotateLeft, Low, Pow2;
    var a: nat, b: nat, c: nat, d: nat, e: nat := h.a, h.b, h.c, h.d, h.e;
    var i := 0;
    while i < 80
      invariant 0 <= i <= 80
      invariant Hash(a, b, c, d, e) == Rounds(h, w, i)
      invariant a < Pow2(32) && b < Pow2(32)
    {
      var f, k := RoundFunction(i, b, c, d);
      var temp := Low(RotateLeft(a, 5) + f + e + k + w[i], 32);
      e := d;
      d := c;
      c := RotateLeft(b, 30);
      b := a;
      a := temp;
      i := i + 1;
    }
    r := Hash(a, b, c, d, e);
  }

  lemma InitialFits()
    ensures IsHash(INITIAL)
  {
    OnesIsAllOnes();
  }

  lemma AddHashFits(h: Hash, k: Hash)
    ensures IsHash(AddHash(h, k))
  {
    hide Low, Pow2;
  }

  lemma PaddedBytes(m: seq<nat>)
    requires AllBytes(m)
    ensures AllBytes(Pad(m))
  {
    hide Low, ByteAt;
    assert Pow2(8) == 0x100;
    forall i | 0 <= i < 8 ensures LengthField(|m|)[i] < Pow2(8) {
      ByteAtFits(Low(8 * |m|, 64), 7 - i);
    }
  }

  /** sha1: for every byte sequence the digest that FIPS 180-4 defines. */
  method ComputeDigest(data: seq<nat>) returns (digest: seq<nat>)
    requires AllBytes(data)
    ensures digest == Digest(data)
  {
    hide Schedule, Rounds, WordsBytes, AllBytes, IsHash, AddHash, Pad;
    var message := PadMessage(data);
    PaddedLength(data);
    PaddedBytes(data);
    InitialFits();
    var h := INITIAL;
    var chunk := 0;
    ghost var n := 0;
    while chunk < |message|
      invariant chunk == 64 * n && chunk <= |message|
      invariant IsHash(h) && h == HashBlocks(message, n)
    {
      var w := BuildSchedule(message, chunk);
      var r := RunRounds(h, w[..]);
      AddHashFits(h, r);
      h := AddHash(h, r);
      chunk := chunk + 64;
      n := n + 1;
    }
    digest := EmitWords([h.a, h.b, h.c, h.d, h.e]);
  }

  /** The source's output loop. */
  method EmitWords(words: seq<nat>) returns (digest: seq<nat>)
    ensures digest == WordsBytes(words, |words|)
  {
    hide And, Shr, ByteAt;
    digest := [];
    for i := 0 to |words|
      invariant digest == WordsBytes(words, i)
    {
      var w := words[i];
      ShiftAndMask(w, 3);
      ShiftAndMask(w, 2);
      ShiftAndMask(w, 1);
      ShiftAndMask(w, 0);
      ShiftByZero(w);
      digest := digest + [And(Shr(w, 24), 0xFF), And(Shr(w, 16), 0xFF), And(Shr(w, 8), 0xFF), And(w, 0xFF)];
    }
  }

  lemma ShiftByZero(x: nat)
    ensures Shr(x, 0) == x
  {
  }
}
