/**
 * Relocation masking of code windows before hashing: each relocation record
 * clears the relocated bits of the little-endian word at its offset.
 */
module Relocations {
  import opened Bits
  import opened Bytes
  import Sha1

  datatype RelocationType = NoRelocation | Mips26 | MipsLo16 | MipsHi16 | Mips32 | MipsGpRel16 | MipsLiteral

  datatype Relocation = Relocation(offset: nat, kind: RelocationType)

  /** The bits of a word that a relocation leaves alone. */
  function RelocationMask(t: RelocationType): nat {
    match t
    case NoRelocation => 0xFFFF_FFFF
    case Mips26 => 0xFC00_0000
    case MipsLo16 => 0xFFFF_0000
    case MipsHi16 => 0xFFFF_0000
    case MipsGpRel16 => 0xFFFF_0000
    case MipsLiteral => 0xFFFF_0000
    case Mips32 => 0
  }

  function DisabledRelocationValue(t: RelocationType, value: nat): nat {
    match t
    case NoRelocation => value
    case Mips26 => And(value, 0xFC00_0000)
    case MipsLo16 => And(value, 0xFFFF_0000)
    case MipsHi16 => And(value, 0xFFFF_0000)
    case MipsGpRel16 => And(value, 0xFFFF_0000)
    case MipsLiteral => And(value, 0xFFFF_0000)
    case Mips32 => 0
  }

  /** The bits of an instruction word that the linker does not write: it writes the 26 bits of a jump
      target, the lower half of an instruction with an immediate, or the whole word. */
  predicate KeepsBit(t: RelocationType, j: nat) {
    match t
    case NoRelocation => j < 32
    case Mips26 => 26 <= j < 32
    case Mips32 => false
    case _ => 16 <= j < 32
  }

  /** The masks select exactly the bits that survive a relocation. */
  lemma MaskBits(t: RelocationType, j: nat)
    ensures Bit(RelocationMask(t), j) <==> KeepsBit(t, j)
  {
    hide Bit, Up, Pow2;
    Powers();
    Sha1.OnesIsAllOnes();
    match t
    case NoRelocation => BitOnes(32, j);
    case Mips26 => HighBits(6, 26, j);
    case Mips32 => BitZero(j);
    case _ => HighBits(16, 16, j);
  }

  /** n ones above k zeros. */
  lemma HighBits(n: nat, k: nat, j: nat)
    ensures Bit(Up(Pow2(n) - 1, k), j) <==> k <= j < n + k
    ensures n == 6 && k == 26 ==> Up(Pow2(n) - 1, k) == 0xFC00_0000
    ensures n == 16 && k == 16 ==> Up(Pow2(n) - 1, k) == 0xFFFF_0000
  {
    BitUp(Pow2(n) - 1, k, j);
    if j >= k { BitOnes(n, j - k); }
    hide Bit;
    UpIsTimes(Pow2(n) - 1, k);
    Powers();
  }

  /** Disabling a relocation is a bitwise AND with the mask that the tree search uses. */
  lemma DisablingIsMasking(t: RelocationType, value: nat)
    requires value < Pow2(32)
    ensures DisabledRelocationValue(t, value) == And(value, RelocationMask(t))
  {
    hide And, Low, Pow2;
    match t
    case NoRelocation =>
      Sha1.OnesIsAllOnes();
      AndMask(value, 32);
      LowFits(value, 32);
    case Mips32 => AndZero(value);
    case _ =>
  }

  // ----- masking a window

  function ReadLe32(s: seq<nat>, at: nat): nat
    requires at + 4 <= |s|
  {
    FromBytes(s[at..at + 4])
  }

  function WriteLe32(s: seq<nat>, at: nat, value: nat): (r: seq<nat>)
    requires at + 4 <= |s|
    ensures |r| == |s|
  {
    s[..at] + ToBytes(value, 4) + s[at + 4..]
  }

  function Disable(w: seq<nat>, r: Relocation): (w': seq<nat>)
    ensures |w'| == |w|
  {
    if r.offset + 4 > |w| then w
    else WriteLe32(w, r.offset, DisabledRelocationValue(r.kind, ReadLe32(w, r.offset)))
  }

  /** The window after its relocation records, taken in order. */
  function Masked(w: seq<nat>, rs: seq<Relocation>): (w': seq<nat>)
    ensures |w'| == |w|
  {
    if |rs| == 0 then w else Disable(Masked(w, rs[..|rs| - 1]), rs[|rs| - 1])
  }

  /** Record r, when it fits into a window of n bytes, covers byte i and clears its bit b. */
  ghost predicate Clears(r: Relocation, n: nat, i: nat, b: nat) {
    r.offset + 4 <= n && r.offset <= i < r.offset + 4 && !KeepsBit(r.kind, 8 * (i - r.offset) + b)
  }

  ghost predicate Kept(rs: seq<Relocation>, n: nat, i: nat, b: nat) {
    forall r :: r in rs ==> !Clears(r, n, i, b)
  }

  lemma BitDisable(w: seq<nat>, r: Relocation, i: nat, b: nat)
    requires AllBytes(w) && i < |w| && b < 8
    ensures Bit(Disable(w, r)[i], b) == (Bit(w[i], b) && !Clears(r, |w|, i, b))
  {
    hide Bit, And, Pow2, FromBytes, ByteAt, DisabledRelocationValue, RelocationMask;
    if r.offset + 4 <= |w| && r.offset <= i < r.offset + 4 {
      var word, k := w[r.offset..r.offset + 4], i - r.offset;
      assert word[k] == w[i] && AllBytes(word);
      WordFits(word);
      DisablingIsMasking(r.kind, FromBytes(word));
      var value := And(FromBytes(word), RelocationMask(r.kind));
      assert Disable(w, r)[i] == ByteAt(value, k);
      BitByteAt(value, k, b);
      BitAnd(FromBytes(word), RelocationMask(r.kind), 8 * k + b);
      MaskBits(r.kind, 8 * k + b);
      BitFromBytes(word, 8 * k + b);
      assert (8 * k + b) / 8 == k && (8 * k + b) % 8 == b;
    }
  }

  lemma WordFits(s: seq<nat>)
    requires AllBytes(s) && |s| == 4
    ensures FromBytes(s) < Pow2(32)
  {
    hide Bit, FromBytes, Pow2;
    forall j: nat | j >= 32 ensures !Bit(FromBytes(s), j) {
      BitFromBytes(s, j);
    }
    BelowPow2(FromBytes(s), 32);
  }

  lemma DisableKeepsBytes(w: seq<nat>, r: Relocation)
    requires AllBytes(w)
    ensures AllBytes(Disable(w, r))
  {
    hide Pow2, FromBytes, ByteAt, DisabledRelocationValue;
    if r.offset + 4 <= |w| {
      ToBytesAreBytes(DisabledRelocationValue(r.kind, ReadLe32(w, r.offset)), 4);
    }
  }

  lemma {:induction false} MaskedKeepsBytes(w: seq<nat>, rs: seq<Relocation>)
    requires AllBytes(w)
    ensures AllBytes(Masked(w, rs))
  {
    if |rs| > 0 {
      MaskedKeepsBytes(w, rs[..|rs| - 1]);
      DisableKeepsBytes(Masked(w, rs[..|rs| - 1]), rs[|rs| - 1]);
    }
  }

  /** Masking keeps exactly the bits that no record clears, also when records overlap. */
  lemma {:induction false} BitMasked(w: seq<nat>, rs: seq<Relocation>, i: nat, b: nat)
    requires AllBytes(w) && i < |w| && b < 8
    ensures Bit(Masked(w, rs)[i], b) == (Bit(w[i], b) && Kept(rs, |w|, i, b))
  {
    if |rs| > 0 {
      var init, last := rs[..|rs| - 1], rs[|rs| - 1];
      BitMasked(w, init, i, b);
      MaskedKeepsBytes(w, init);
      BitDisable(Masked(w, init), last, i, b);
      assert rs == init + [last];
    }
  }

  lemma SameWindow(v: seq<nat>, w: seq<nat>)
    requires AllBytes(v) && AllBytes(w) && |v| == |w|
    requires forall i, b: nat :: 0 <= i < |v| && b < 8 ==> Bit(v[i], b) == Bit(w[i], b)
    ensures v == w
  {
    hide Bit, Pow2;
    forall i | 0 <= i < |v| ensures v[i] == w[i] {
      forall b: nat ensures Bit(v[i], b) == Bit(w[i], b) {
        if b >= 8 {
          BitBeyond(v[i], 8, b);
          BitBeyond(w[i], 8, b);
        }
      }
      SameBits(v[i], w[i]);
    }
  }

  /** The order and multiplicity of the relocation records do not matter. */
  lemma MaskingIgnoresOrder(w: seq<nat>, rs: seq<Relocation>, rs': seq<Relocation>)
    requires AllBytes(w) && forall r :: r in rs <==> r in rs'
    ensures Masked(w, rs) == Masked(w, rs')
  {
    hide Bit, Pow2, Masked;
    MaskedKeepsBytes(w, rs);
    MaskedKeepsBytes(w, rs');
    forall i, b: nat | 0 <= i < |w| && b < 8 ensures Bit(Masked(w, rs)[i], b) == Bit(Masked(w, rs')[i], b) {
      BitMasked(w, rs, i, b);
      BitMasked(w, rs', i, b);
    }
    SameWindow(Masked(w, rs), Masked(w, rs'));
  }

  /** Two windows agree on every bit that the records keep. */
  ghost predicate AgreeOnKept(v: seq<nat>, w: seq<nat>, rs: seq<Relocation>) {
    |v| == |w| && forall i, b: nat :: 0 <= i < |v| && b < 8 && Kept(rs, |v|, i, b) ==> Bit(v[i], b) == Bit(w[i], b)
  }

  /** Windows mask to the same bytes exactly when they differ only in cleared bits. */
  lemma MaskedEqualIff(v: seq<nat>, w: seq<nat>, rs: seq<Relocation>)
    requires AllBytes(v) && AllBytes(w)
    ensures Masked(v, rs) == Masked(w, rs) <==> AgreeOnKept(v, w, rs)
  {
    hide Bit, Pow2, Masked, Kept;
    MaskedKeepsBytes(v, rs);
    MaskedKeepsBytes(w, rs);
    if |v| == |w| {
      forall i, b: nat | 0 <= i < |v| && b < 8
        ensures Bit(Masked(v, rs)[i], b) == (Bit(v[i], b) && Kept(rs, |v|, i, b))
        ensures Bit(Masked(w, rs)[i], b) == (Bit(w[i], b) && Kept(rs, |v|, i, b))
      {
        BitMasked(v, rs, i, b);
        BitMasked(w, rs, i, b);
      }
      if AgreeOnKept(v, w, rs) {
        SameWindow(Masked(v, rs), Masked(w, rs));
      }
    }
  }

  /** matchesSymbol: whether the masked window hashes to the symbol's digest. */
  method MatchesSymbol(window: seq<nat>, relocations: seq<Relocation>, hash: seq<nat>) returns (r: bool)
    requires AllBytes(window)
    ensures r <==> Sha1.Digest(Masked(window, relocations)) == hash
  {
    hide Sha1.Digest;
    var bytes := window;
    for k := 0 to |relocations|
      invariant bytes == Masked(window, relocations[..k])
    {
      assert relocations[..k + 1][..k] == relocations[..k];
      var relocation := relocations[k];
      if !(relocation.offset > |bytes| || |bytes| - relocation.offset < 4) {
        var value := ReadLe32(bytes, relocation.offset);
        bytes := WriteLe32(bytes, relocation.offset, DisabledRelocationValue(relocation.kind, value));
      }
    }
    assert relocations[..|relocations|] == relocations;
    MaskedKeepsBytes(window, relocations);
    var digest := Sha1.ComputeDigest(bytes);
    r := digest == hash;
  }

  /** Windows that differ only in relocated bits get the same verdict. */
  lemma VerdictIgnoresRelocatedBits(v: seq<nat>, w: seq<nat>, relocations: seq<Relocation>, hash: seq<nat>)
    requires AllBytes(v) && AllBytes(w) && AgreeOnKept(v, w, relocations)
    ensures Sha1.Digest(Masked(v, relocations)) == hash <==> Sha1.Digest(Masked(w, relocations)) == hash
  {
    hide Sha1.Digest;
    MaskedEqualIff(v, w, relocations);
  }
}
