/**
 * The scanner's measure of how much of a symbol is fixed, against the bits of
 * its bytes that masking actually keeps.
 */
module StaticBits {
  import opened Relocations
  import opened SymbolTree

  function RelocatedStaticBits(rs: seq<Relocation>): nat {
    if |rs| == 0 then 0
    else
      RelocatedStaticBits(rs[..|rs| - 1]) +
      match rs[|rs| - 1].kind
      case NoRelocation => 32
      case Mips26 => 6
      case Mips32 => 0
      case _ => 16
  }

  /** staticBitCount. */
  function StaticBitCount(x: Symbol): nat {
    var total, relocated := x.size * 8, RelocatedStaticBits(x.relocations);
    if relocated >= total then 0 else total - relocated
  }

  predicate Viable(x: Symbol) {
    StaticBitCount(x) >= 256
  }

  /** Without relocations eight instructions are enough, and fewer are not. */
  lemma ViableWithoutRelocations(x: Symbol)
    requires x.relocations == []
    ensures Viable(x) <==> x.size >= 32
  {
  }

  // ----- the bits that masking keeps

  /** The numbers from lo up to, but not including, hi. */
  ghost function Range(lo: nat, hi: nat): (s: set<nat>)
    ensures forall j :: j in s <==> lo <= j < hi
    ensures |s| == if lo <= hi then hi - lo else 0
    decreases hi
  {
    if hi <= lo then {} else Range(lo, hi - 1) + {hi - 1}
  }

  /** The bits of a window of n bytes, counted through, that no record clears. */
  ghost function KeptPlaces(rs: seq<Relocation>, n: nat): set<nat> {
    set p | p in Range(0, 8 * n) && Kept(rs, n, p / 8, p % 8)
  }

  /** The lowest bit of a word that a relocation keeps; it keeps all bits above. */
  function LowestKept(t: RelocationType): nat {
    match t
    case NoRelocation => 0
    case Mips26 => 26
    case Mips32 => 32
    case _ => 16
  }

  /** A record that fits clears the bits of its word below the lowest one it keeps. */
  lemma ClearsIff(r: Relocation, n: nat, p: nat)
    requires r.offset + 4 <= n
    ensures Clears(r, n, p / 8, p % 8) <==> 8 * r.offset <= p < 8 * r.offset + LowestKept(r.kind)
  {
    var i, b := p / 8, p % 8;
    assert p == 8 * i + b;
    if r.offset <= i < r.offset + 4 {
      assert 8 * (i - r.offset) + b == p - 8 * r.offset;
    }
  }

  /** All records fit into the n bytes, and no two touch the same byte. */
  ghost predicate Separate(rs: seq<Relocation>, n: nat) {
    && (forall i :: 0 <= i < |rs| ==> rs[i].offset + 4 <= n)
    && forall i, j :: 0 <= i < j < |rs| ==> rs[i].offset + 4 <= rs[j].offset || rs[j].offset + 4 <= rs[i].offset
  }

  /** Masking with separate records keeps all bits but 32 for each record, plus those that the code
      counts. */
  lemma {:induction false} KeptSize(rs: seq<Relocation>, n: nat)
    requires Separate(rs, n)
    ensures |KeptPlaces(rs, n)| == 8 * n - 32 * |rs| + RelocatedStaticBits(rs)
  {
    if |rs| == 0 {
      assert KeptPlaces(rs, n) == Range(0, 8 * n);
    } else {
      var init, r := rs[..|rs| - 1], rs[|rs| - 1];
      assert rs == init + [r];
      SeparateMeans(init, r, n);
      KeptSize(init, n);
      KeptAfter(init, r, n);
      CountedAfter(init, r);
      hide KeptPlaces, RelocatedStaticBits, Separate;
      DifferenceSize(KeptPlaces(init, n), Range(8 * r.offset, 8 * r.offset + LowestKept(r.kind)));
    }
  }

  lemma DifferenceSize(a: set<nat>, b: set<nat>)
    requires b <= a
    ensures |a - b| == |a| - |b|
  {
  }

  /** What the count adds for a record is the number of bits that its relocation keeps. */
  lemma CountedAfter(init: seq<Relocation>, r: Relocation)
    ensures RelocatedStaticBits(init + [r]) == RelocatedStaticBits(init) + 32 - LowestKept(r.kind)
  {
    assert (init + [r])[..|init|] == init;
  }

  /** One more record takes away exactly the bits that it clears. */
  lemma KeptAfter(init: seq<Relocation>, r: Relocation, n: nat)
    requires Separate(init + [r], n)
    ensures var cleared := Range(8 * r.offset, 8 * r.offset + LowestKept(r.kind));
            cleared <= KeptPlaces(init, n) && KeptPlaces(init + [r], n) == KeptPlaces(init, n) - cleared
  {
    hide Clears, Separate, Kept, Range, LowestKept;
    var cleared := Range(8 * r.offset, 8 * r.offset + LowestKept(r.kind));
    SeparateMeans(init, r, n);
    LowestFits(r.kind);
    forall p: nat ensures Kept(init + [r], n, p / 8, p % 8) <==> Kept(init, n, p / 8, p % 8) && p !in cleared {
      ClearsIff(r, n, p);
      KeptAppend(init, r, n, p / 8, p % 8);
    }
    forall p | p in cleared ensures p in Range(0, 8 * n) && Kept(init, n, p / 8, p % 8) {
      KeptElsewhere(init, r, n, p);
    }
  }

  lemma LowestFits(t: RelocationType)
    ensures LowestKept(t) <= 32
  {
  }

  lemma KeptAppend(init: seq<Relocation>, r: Relocation, n: nat, i: nat, b: nat)
    ensures Kept(init + [r], n, i, b) <==> Kept(init, n, i, b) && !Clears(r, n, i, b)
  {
    hide Clears;
  }

  lemma KeptElsewhere(init: seq<Relocation>, r: Relocation, n: nat, p: nat)
    requires forall q :: q in init ==> q.offset + 4 <= n && (q.offset + 4 <= r.offset || r.offset + 4 <= q.offset)
    requires 8 * r.offset <= p < 8 * r.offset + 32
    ensures Kept(init, n, p / 8, p % 8)
  {
    hide Clears, LowestKept;
    forall q | q in init ensures !Clears(q, n, p / 8, p % 8) {
      ClearsIff(q, n, p);
      LowestFits(q.kind);
    }
  }

  lemma SeparateMeans(init: seq<Relocation>, r: Relocation, n: nat)
    requires Separate(init + [r], n)
    ensures r.offset + 4 <= n && Separate(init, n)
    ensures forall q :: q in init ==> q.offset + 4 <= n && (q.offset + 4 <= r.offset || r.offset + 4 <= q.offset)
  {
    var rs := init + [r];
    assert rs[|init|] == r;
    assert forall i :: 0 <= i < |init| ==> rs[i] == init[i];
  }

  /** The count subtracts the bits that relocated words keep where those that they lose were meant:
      for separate records it is the number of bits that masking keeps exactly when both are equal, as
      with 16-bit relocations alone, or when it comes out as zero on both sides. */
  lemma StaticBitCountIff(x: Symbol)
    requires Separate(x.relocations, x.size)
    ensures var kept := RelocatedStaticBits(x.relocations);
            StaticBitCount(x) == |KeptPlaces(x.relocations, x.size)| <==>
            (2 * kept == 32 * |x.relocations| || (kept >= 8 * x.size && kept + 8 * x.size == 32 * |x.relocations|))
  {
    KeptSize(x.relocations, x.size);
  }

  /** One call in 36 bytes: the code counts 282 bits, masking keeps 262. */
  lemma CallIsMiscounted(x: Symbol)
    requires x.size == 36 && x.relocations == [Relocation(0, Mips26)]
    ensures StaticBitCount(x) == 282 && |KeptPlaces(x.relocations, x.size)| == 262
  {
    KeptSize(x.relocations, x.size);
    assert RelocatedStaticBits(x.relocations[..0]) == 0;
  }
}
