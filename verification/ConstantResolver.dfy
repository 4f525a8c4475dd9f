/**
 * The analyzer's backward constant resolver: from an index in a listing it walks
 * back over at most eight instructions for a LUI, ADDIU or ORI that wrote the
 * register, and resolves the source of an ADDIU or ORI the same way.
 */
module ConstantResolver {
  import opened Bits
  import opened Instructions
  import opened Options

  function LuiValue(i: Instruction): nat {
    i.immediate * 0x1_0000 % WORD
  }

  /** ADDIU or ORI applied to a 32-bit base. */
  function ApplyImmediate(i: Instruction, base: nat): nat {
    if i.opcode == OPCODE_ADDIU then (base + SignedImmediate(i)) % WORD else Or(base, i.immediate)
  }

  predicate AddsImmediate(i: Instruction) {
    i.opcode == OPCODE_ADDIU || i.opcode == OPCODE_ORI
  }

  function WindowStart(index: nat): nat {
    if index > 8 then index - 8 else 0
  }

  // ----- what the resolver answers

  function Resolve(l: seq<Instruction>, index: nat, reg: nat): Option<nat>
    requires index <= |l|
    decreases index, 1
  {
    Scan(l, index, WindowStart(index), reg)
  }

  /** The rest of the backward loop when position pos is next and stop is its end. */
  function Scan(l: seq<Instruction>, pos: nat, stop: nat, reg: nat): Option<nat>
    requires pos <= |l|
    decreases pos, 0
  {
    if pos <= stop then None
    else
      var prev := l[pos - 1];
      if AddsImmediate(prev) && prev.rt == reg then
        match Resolve(l, pos - 1, prev.rs)
        case None => None
        case Some(base) => Some(ApplyImmediate(prev, base))
      else if prev.opcode == OPCODE_LUI && prev.rt == reg then Some(LuiValue(prev))
      else if prev.rt == reg || prev.rd == reg then None
      else Scan(l, pos - 1, stop, reg)
  }

  /** tryResolveLuiBase: each level reopens an eight-instruction window, yet positions only go down. */
  method TryResolveLuiBase(l: seq<Instruction>, index: nat, reg: nat) returns (ok: bool, baseAddr: nat)
    requires index <= |l|
    ensures ok <==> Resolve(l, index, reg).Some?
    ensures baseAddr == if ok then Resolve(l, index, reg).value else 0
    decreases index
  {
    ok, baseAddr := false, 0;
    var start := WindowStart(index);
    var pos := index;
    while pos > start
      invariant start <= pos <= index
      invariant Resolve(l, index, reg) == Scan(l, pos, start, reg)
    {
      pos := pos - 1;
      var prev := l[pos];
      if AddsImmediate(prev) && prev.rt == reg {
        var found, hiBase := TryResolveLuiBase(l, pos, prev.rs);
        if !found { return; }
        ok, baseAddr := true, ApplyImmediate(prev, hiBase);
        return;
      }
      if prev.opcode == OPCODE_LUI && prev.rt == reg {
        ok, baseAddr := true, LuiValue(prev);
        return;
      }
      if prev.rt == reg || prev.rd == reg {
        return;
      }
    }
  }

  /** tryResolveBasePlusOffset: the effective address of a load or store with a resolved base. */
  method TryResolveBasePlusOffset(l: seq<Instruction>, index: nat, baseReg: nat, offset: int)
      returns (ok: bool, outAddr: nat)
    requires index <= |l|
    ensures ok <==> Resolve(l, index, baseReg).Some?
    ensures ok ==> outAddr == (Resolve(l, index, baseReg).value + offset) % WORD
  {
    var baseAddr;
    ok, baseAddr := TryResolveLuiBase(l, index, baseReg);
    outAddr := if ok then (baseAddr + offset) % WORD else 0;
  }

  // ----- when it answers, and what it answers for the assembler's splits

  /** The last position before index whose instruction names reg as rt or rd. */
  ghost predicate LastMention(l: seq<Instruction>, index: nat, reg: nat, w: nat) {
    && w < index <= |l| && (l[w].rt == reg || l[w].rd == reg)
    && forall k :: w < k < index ==> l[k].rt != reg && l[k].rd != reg
  }

  /** A chain of last mentions from reg back to a LUI, each at most eight instructions before the one
      that reads it: an ADDIU or ORI into the register hands over to its source. */
  ghost predicate IsChain(l: seq<Instruction>, index: nat, reg: nat, ws: seq<nat>) {
    && |ws| > 0 && LastMention(l, index, reg, ws[0]) && index - ws[0] <= 8 && l[ws[0]].rt == reg
    && if |ws| == 1 then l[ws[0]].opcode == OPCODE_LUI
       else AddsImmediate(l[ws[0]]) && IsChain(l, ws[0], l[ws[0]].rs, ws[1..])
  }

  /** The scan stops at the last mention or at the end of its window. */
  lemma {:induction false} ScanReachesMention(l: seq<Instruction>, pos: nat, stop: nat, reg: nat, w: nat)
    requires LastMention(l, pos, reg, w)
    ensures Scan(l, pos, stop, reg) == if w < stop then None else Scan(l, w + 1, stop, reg)
    decreases pos
  {
    if w + 1 < pos && stop < pos { ScanReachesMention(l, pos - 1, stop, reg, w); }
  }

  lemma {:induction false} ScanFindsMention(l: seq<Instruction>, pos: nat, stop: nat, reg: nat) returns (w: nat)
    requires pos <= |l| && Scan(l, pos, stop, reg).Some?
    ensures stop <= w && LastMention(l, pos, reg, w) && Scan(l, pos, stop, reg) == Scan(l, w + 1, stop, reg)
    decreases pos
  {
    var prev := l[pos - 1];
    if prev.rt == reg || prev.rd == reg { w := pos - 1; } else { w := ScanFindsMention(l, pos - 1, stop, reg); }
  }

  lemma {:induction false} ChainResolves(l: seq<Instruction>, index: nat, reg: nat, ws: seq<nat>)
    requires index <= |l| && IsChain(l, index, reg, ws)
    ensures Resolve(l, index, reg).Some?
    decreases |ws|
  {
    ScanReachesMention(l, index, WindowStart(index), reg, ws[0]);
    if |ws| > 1 { ChainResolves(l, ws[0], l[ws[0]].rs, ws[1..]); }
  }

  lemma {:induction false} ResolvedHasChain(l: seq<Instruction>, index: nat, reg: nat) returns (ws: seq<nat>)
    requires index <= |l| && Resolve(l, index, reg).Some?
    ensures IsChain(l, index, reg, ws)
    decreases index
  {
    var w := ScanFindsMention(l, index, WindowStart(index), reg);
    ws := [w];
    if AddsImmediate(l[w]) {
      var rest := ResolvedHasChain(l, w, l[w].rs);
      ws := [w] + rest;
      assert ws[1..] == rest;
    }
  }

  ghost predicate HasChain(l: seq<Instruction>, index: nat, reg: nat) {
    exists ws :: IsChain(l, index, reg, ws)
  }

  /** The resolver answers exactly when such a chain exists. */
  lemma ResolvesIff(l: seq<Instruction>, index: nat, reg: nat)
    requires index <= |l|
    ensures Resolve(l, index, reg).Some? <==> HasChain(l, index, reg)
  {
    if Resolve(l, index, reg).Some? { var ws := ResolvedHasChain(l, index, reg); }
    if HasChain(l, index, reg) {
      var ws :| IsChain(l, index, reg, ws);
      ChainResolves(l, index, reg, ws);
    }
  }

  function Immediate(opcode: nat, rs: nat, rt: nat, imm: nat): Instruction {
    Instruction(0, opcode, rs, rt, 0, imm, 0, false, false, false, false, false)
  }

  /** Every address is resolved from the assembler's split into a rounded upper half and a signed
      lower half. */
  lemma AdjustedSplitResolves(a: nat, reg: nat)
    requires a < WORD && 0 < reg < 32
    ensures Resolve([Immediate(OPCODE_LUI, 0, reg, (a + 0x8000) / 0x1_0000 % 0x1_0000),
                     Immediate(OPCODE_ADDIU, reg, reg, a % 0x1_0000)], 2, reg) == Some(a)
  {
    var lui := Immediate(OPCODE_LUI, 0, reg, (a + 0x8000) / 0x1_0000 % 0x1_0000);
    var addiu := Immediate(OPCODE_ADDIU, reg, reg, a % 0x1_0000);
    var l := [lui, addiu];
    assert Resolve(l, 1, reg) == Scan(l, 1, 0, reg) == Some(LuiValue(lui));
    assert Resolve(l, 2, reg) == Scan(l, 2, 0, reg) == Some(ApplyImmediate(addiu, LuiValue(lui)));
    hide Resolve, Scan;
    AdjustedSum(a);
  }

  lemma AdjustedSum(a: nat)
    requires a < WORD
    ensures var hi, lo := (a + 0x8000) / 0x1_0000 % 0x1_0000, a % 0x1_0000;
            (hi * 0x1_0000 % WORD + if lo < 0x8000 then lo else lo - 0x1_0000) % WORD == a
  {
    var q, lo := a / 0x1_0000, a % 0x1_0000;
    if lo < 0x8000 {
      DivisionIsUnique(a + 0x8000, 0x1_0000, q, lo + 0x8000);
    } else {
      DivisionIsUnique(a + 0x8000, 0x1_0000, q + 1, lo - 0x8000);
      if q == 0xFFFF { assert (0 + (lo - 0x1_0000)) % WORD == a; }
    }
  }

  /** Every address is resolved from its two halves. */
  lemma PlainSplitResolves(a: nat, reg: nat)
    requires a < WORD && 0 < reg < 32
    ensures Resolve([Immediate(OPCODE_LUI, 0, reg, a / 0x1_0000), Immediate(OPCODE_ORI, reg, reg, a % 0x1_0000)],
                    2, reg) == Some(a)
  {
    var lui, ori := Immediate(OPCODE_LUI, 0, reg, a / 0x1_0000), Immediate(OPCODE_ORI, reg, reg, a % 0x1_0000);
    var l := [lui, ori];
    assert Resolve(l, 1, reg) == Scan(l, 1, 0, reg) == Some(LuiValue(lui));
    assert Resolve(l, 2, reg) == Scan(l, 2, 0, reg) == Some(Or(LuiValue(lui), ori.immediate));
    hide Resolve, Scan, Or;
    OrOfHalves(a / 0x1_0000, a % 0x1_0000);
  }

  lemma OrOfHalves(hi: nat, lo: nat)
    requires lo < 0x1_0000
    ensures Or(hi * 0x1_0000, lo) == hi * 0x1_0000 + lo
  {
    hide Bit, Or, Up, Pow2;
    Powers();
    UpIsTimes(hi, 16);
    forall j: nat ensures Bit(Or(Up(hi, 16), lo), j) == Bit(lo + Up(hi, 16), j) {
      BitOr(Up(hi, 16), lo, j);
      BitUp(hi, 16, j);
      BitSplit(lo, hi, 16, j);
      if j >= 16 { BitBeyond(lo, 16, j); }
    }
    SameBits(Or(Up(hi, 16), lo), lo + Up(hi, 16));
  }

  // ----- straight-line execution

  /** The low 32 bits of the 32 general registers. */
  type Registers = seq<nat>

  /** Instructions that write the return address register without naming it as rd. */
  predicate Links(i: Instruction) {
    i.opcode == OPCODE_JAL || (i.opcode == OPCODE_REGIMM && 0x10 <= i.rt <= 0x13)
  }

  /** The return address that a link writes. */
  function LinkValue(i: Instruction): nat {
    (i.address + 8) % WORD
  }

  ghost predicate IsRegisters(r: Registers) {
    |r| == 32 && r[0] == 0 && forall q :: 0 <= q < 32 ==> r[q] < WORD
  }

  /** The machine's LUI, ADDIU and ORI on 32 bits: the immediate in the upper half, the sum with the
      number that the immediate encodes, the bits of either. */
  ghost predicate Produces(i: Instruction, base: nat, value: nat) {
    if i.opcode == OPCODE_LUI then value == i.immediate * 0x1_0000
    else if i.opcode == OPCODE_ADDIU then forall n :: Encodes16(i.immediate, n) ==> value == (base + n) % WORD
    else HasBitsOf(value, base, i.immediate)
  }

  /** The bits of z are those of x and those of y. */
  ghost predicate HasBitsOf(z: nat, x: nat, y: nat) {
    forall j: nat :: Bit(z, j) <==> Bit(x, j) || Bit(y, j)
  }

  lemma ProducesIff(i: Instruction, base: nat, value: nat)
    requires WellFormed(i)
    ensures i.opcode == OPCODE_LUI ==> (Produces(i, base, value) <==> value == LuiValue(i))
    ensures AddsImmediate(i) ==> (Produces(i, base, value) <==> value == ApplyImmediate(i, base))
  {
    hide Or, HasBitsOf;
    if i.opcode == OPCODE_ADDIU {
      assert Encodes16(i.immediate, SignedImmediate(i));
    } else if i.opcode == OPCODE_ORI {
      OrIff(base, i.immediate, value);
    }
  }

  lemma OrIff(x: nat, y: nat, z: nat)
    ensures z == Or(x, y) <==> HasBitsOf(z, x, y)
  {
    hide Bit, Or;
    forall j: nat ensures Bit(Or(x, y), j) <==> Bit(x, j) || Bit(y, j) {
      BitOr(x, y, j);
    }
    if HasBitsOf(z, x, y) { SameBits(z, Or(x, y)); }
  }

  /** One instruction: LUI, ADDIU, ORI and links have their meaning, every other instruction may put
      anything into rt and rd; register 0 stays zero. */
  ghost predicate Step(i: Instruction, r: Registers, r': Registers) {
    && IsRegisters(r) && IsRegisters(r')
    && (forall q :: 0 < q < 32 && !MayWrite(i, q) ==> r'[q] == r[q])
    && ((i.opcode == OPCODE_LUI || AddsImmediate(i)) && 0 < i.rt < 32 && i.rs < 32 ==>
        Produces(i, r[i.rs], r'[i.rt]))
    && (Links(i) ==> r'[31] == LinkValue(i))
  }

  ghost predicate MayWrite(i: Instruction, q: nat) {
    if i.opcode == OPCODE_LUI || AddsImmediate(i) then q == i.rt
    else q == i.rt || q == i.rd || (Links(i) && q == 31)
  }

  /** Register files before and after each of the first n instructions. */
  ghost predicate IsRun(l: seq<Instruction>, n: nat, states: seq<Registers>) {
    && n <= |l| && |states| == n + 1
    && (forall i :: 0 <= i <= n ==> IsRegisters(states[i]))
    && forall i :: 0 <= i < n ==> Step(l[i], states[i], states[i + 1])
  }

  // ----- the corrected answer: register 0 reads as zero, register 31 as the last link wrote it

  ghost function ResolveGuarded(l: seq<Instruction>, index: nat, reg: nat): Option<nat>
    requires index <= |l|
    decreases index, 1
  {
    if reg == 0 then Some(0) else ScanGuarded(l, index, WindowStart(index), reg)
  }

  ghost function ScanGuarded(l: seq<Instruction>, pos: nat, stop: nat, reg: nat): Option<nat>
    requires pos <= |l|
    decreases pos, 0
  {
    if pos <= stop then None
    else
      var prev := l[pos - 1];
      if AddsImmediate(prev) && prev.rt == reg then
        match ResolveGuarded(l, pos - 1, prev.rs)
        case None => None
        case Some(base) => Some(ApplyImmediate(prev, base))
      else if prev.opcode == OPCODE_LUI && prev.rt == reg then Some(LuiValue(prev))
      else if prev.rt == reg || prev.rd == reg then None
      else if Links(prev) && reg == 31 then Some(LinkValue(prev))
      else ScanGuarded(l, pos - 1, stop, reg)
  }

  /** On the walk from (pos, reg), no linking instruction is passed while register 31 is followed. */
  ghost predicate NoLinkHit(l: seq<Instruction>, pos: nat, reg: nat)
    requires pos <= |l|
    decreases pos
  {
    pos == 0 || reg == 0 ||
    var prev := l[pos - 1];
    if AddsImmediate(prev) && prev.rt == reg then NoLinkHit(l, pos - 1, prev.rs)
    else if prev.rt == reg || prev.rd == reg then true
    else !(Links(prev) && reg == 31) && NoLinkHit(l, pos - 1, reg)
  }

  /** On the walk from (pos, reg), register 0 is never followed. */
  ghost predicate AvoidsZero(l: seq<Instruction>, pos: nat, reg: nat)
    requires pos <= |l|
    decreases pos
  {
    reg != 0 &&
    (pos == 0 ||
     var prev := l[pos - 1];
     if AddsImmediate(prev) && prev.rt == reg then AvoidsZero(l, pos - 1, prev.rs)
     else if prev.rt == reg || prev.rd == reg then true
     else AvoidsZero(l, pos - 1, reg))
  }

  // ----- soundness

  /** The guarded answer is the value that every run leaves in the register. */
  lemma {:induction false} GuardedIsSound(l: seq<Instruction>, pos: nat, stop: nat, reg: nat, states: seq<Registers>)
    requires pos <= |l| && WellFormedListing(l) && 0 < reg < 32
    requires IsRun(l, pos, states)
    requires ScanGuarded(l, pos, stop, reg).Some?
    ensures states[pos][reg] == ScanGuarded(l, pos, stop, reg).value
    decreases pos
  {
    var prev := l[pos - 1];
    assert WellFormed(prev) && Step(l[pos - 1], states[pos - 1], states[pos - 1 + 1]);
    hide Produces, ApplyImmediate;
    var before := states[..pos];
    assert IsRun(l, pos - 1, before);
    if prev.rt == reg { ProducesIff(prev, states[pos - 1][prev.rs], states[pos][reg]); }
    if AddsImmediate(prev) && prev.rt == reg {
      if prev.rs != 0 {
        GuardedIsSound(l, pos - 1, WindowStart(pos - 1), prev.rs, before);
      }
    } else if prev.rt != reg && prev.rd != reg && !(Links(prev) && reg == 31) {
      GuardedIsSound(l, pos - 1, stop, reg, before);
    }
  }

  // ----- when the answer is right

  /** The given ADDIU and ORI instructions applied in order to a base. */
  ghost function Applied(ops: seq<Instruction>, base: nat): nat {
    if |ops| == 0 then base else Applied(ops[1..], ApplyImmediate(ops[0], base))
  }

  /** If something was read, the instructions ops turn it and the right value into the same value. */
  ghost predicate Agree(read: Option<nat>, value: nat, ops: seq<Instruction>) {
    read.Some? ==> Applied(ops, read.value) == Applied(ops, value)
  }

  /** On the walk from (pos, reg), with the instructions ops still to be applied to what is read: what
      is read for register 0 or for register 31 past a link, if anything, makes no difference to the
      instructions that come after. */
  ghost predicate Harmless(l: seq<Instruction>, pos: nat, stop: nat, reg: nat, ops: seq<Instruction>)
    requires pos <= |l|
    decreases pos
  {
    if reg == 0 then Agree(Scan(l, pos, stop, 0), 0, ops)
    else
      pos <= stop ||
      var prev := l[pos - 1];
      if AddsImmediate(prev) && prev.rt == reg then
        Harmless(l, pos - 1, WindowStart(pos - 1), prev.rs, [prev] + ops)
      else if prev.rt == reg || prev.rd == reg then true
      else if Links(prev) && reg == 31 then Agree(Scan(l, pos - 1, stop, 31), LinkValue(prev), ops)
      else Harmless(l, pos - 1, stop, reg, ops)
  }

  lemma AppliedFirst(op: Instruction, ops: seq<Instruction>, base: nat)
    ensures Applied([op] + ops, base) == Applied(ops, ApplyImmediate(op, base))
  {
    assert ([op] + ops)[1..] == ops;
  }

  /** The resolver and the guarded one agree after the remaining instructions exactly on harmless
      walks. */
  lemma {:induction false} HarmlessIff(l: seq<Instruction>, pos: nat, stop: nat, reg: nat, ops: seq<Instruction>)
    requires pos <= |l| && reg != 0 && Scan(l, pos, stop, reg).Some?
    ensures ScanGuarded(l, pos, stop, reg).Some?
    ensures Applied(ops, Scan(l, pos, stop, reg).value) == Applied(ops, ScanGuarded(l, pos, stop, reg).value)
       <==> Harmless(l, pos, stop, reg, ops)
    decreases pos
  {
    hide Applied, ApplyImmediate, LinkValue;
    var prev := l[pos - 1];
    if AddsImmediate(prev) && prev.rt == reg {
      var read := Resolve(l, pos - 1, prev.rs).value;
      AppliedFirst(prev, ops, read);
      if prev.rs == 0 {
        AppliedFirst(prev, ops, 0);
      } else {
        HarmlessIff(l, pos - 1, WindowStart(pos - 1), prev.rs, [prev] + ops);
        AppliedFirst(prev, ops, ResolveGuarded(l, pos - 1, prev.rs).value);
      }
    } else if prev.rt != reg && prev.rd != reg && !(Links(prev) && reg == 31) {
      HarmlessIff(l, pos - 1, stop, reg, ops);
    }
  }

  /** The answer is right on every run exactly when what the walk reads for register 0 and for
      register 31 past a link, if anything, does not matter. */
  lemma ResolverSoundIff(l: seq<Instruction>, index: nat, reg: nat)
    requires index <= |l| && WellFormedListing(l) && reg < 32 && Resolve(l, index, reg).Some?
    ensures (forall states :: IsRun(l, index, states) ==> states[index][reg] == Resolve(l, index, reg).value)
       <==> Harmless(l, index, WindowStart(index), reg, [])
  {
    hide Step, Scan, ScanGuarded;
    if reg == 0 {
      ZeroStaysZero(l, index);
    } else {
      HarmlessIff(l, index, WindowStart(index), reg, []);
      forall states | IsRun(l, index, states)
        ensures states[index][reg] == ResolveGuarded(l, index, reg).value
      {
        GuardedIsSound(l, index, WindowStart(index), reg, states);
      }
      var states := SomeRun(l, index);
    }
  }

  /** Walks that follow neither register 0 nor register 31 past a link are harmless. */
  lemma {:induction false} AvoidingIsHarmless(l: seq<Instruction>, pos: nat, stop: nat, reg: nat,
                                              ops: seq<Instruction>)
    requires pos <= |l| && AvoidsZero(l, pos, reg) && NoLinkHit(l, pos, reg)
    ensures Harmless(l, pos, stop, reg, ops)
    decreases pos
  {
    if pos > stop {
      var prev := l[pos - 1];
      if AddsImmediate(prev) && prev.rt == reg {
        AvoidingIsHarmless(l, pos - 1, WindowStart(pos - 1), prev.rs, [prev] + ops);
      } else if prev.rt != reg && prev.rd != reg {
        AvoidingIsHarmless(l, pos - 1, stop, reg, ops);
      }
    }
  }

  /** When the resolver succeeds on a walk that avoids register 0 and link writes, every run leaves
      exactly the resolved value in the register. */
  lemma ResolverIsSound(l: seq<Instruction>, index: nat, reg: nat, states: seq<Registers>)
    requires index <= |l| && WellFormedListing(l) && reg < 32
    requires Resolve(l, index, reg).Some?
    requires AvoidsZero(l, index, reg) && NoLinkHit(l, index, reg)
    requires IsRun(l, index, states)
    ensures states[index][reg] == Resolve(l, index, reg).value
  {
    hide Harmless, Resolve, AvoidsZero, NoLinkHit, IsRun;
    AvoidingIsHarmless(l, index, WindowStart(index), reg, []);
    ResolverSoundIff(l, index, reg);
  }

  /** Register 0 reads as zero after every run. */
  lemma ZeroStaysZero(l: seq<Instruction>, index: nat)
    requires index <= |l| && WellFormedListing(l)
    ensures forall states :: IsRun(l, index, states) ==> states[index][0] == 0
    ensures exists states :: IsRun(l, index, states)
  {
    var states := SomeRun(l, index);
  }

  /** One more instruction of a run, in which instructions other than LUI, ADDIU, ORI and links change
      nothing. */
  lemma ExtendRun(l: seq<Instruction>, n: nat, states: seq<Registers>) returns (states': seq<Registers>)
    requires n < |l| && WellFormedListing(l) && IsRun(l, n, states)
    ensures IsRun(l, n + 1, states')
  {
    var i, r := l[n], states[n];
    assert WellFormed(i);
    hide Produces;
    var r' := r;
    if Links(i) {
      r' := r[31 := LinkValue(i)];
    } else if 0 < i.rt {
      if i.opcode == OPCODE_LUI {
        ProducesIff(i, r[i.rs], LuiValue(i));
        r' := r[i.rt := LuiValue(i)];
      }
      if AddsImmediate(i) {
        ApplyFits(i, r[i.rs]);
        ProducesIff(i, r[i.rs], ApplyImmediate(i, r[i.rs]));
        r' := r[i.rt := ApplyImmediate(i, r[i.rs])];
      }
    }
    assert Step(i, r, r');
    states' := states + [r'];
    forall k | 0 <= k < n + 1 ensures Step(l[k], states'[k], states'[k + 1]) {
      if k < n { assert Step(l[k], states[k], states[k + 1]); }
    }
  }

  /** Every listing has a run. */
  lemma {:induction false} SomeRun(l: seq<Instruction>, n: nat) returns (states: seq<Registers>)
    requires n <= |l| && WellFormedListing(l)
    ensures IsRun(l, n, states)
  {
    if n == 0 {
      states := [seq(32, i => 0)];
    } else {
      var before := SomeRun(l, n - 1);
      states := ExtendRun(l, n - 1, before);
    }
  }

  lemma ApplyFits(i: Instruction, base: nat)
    requires WellFormed(i) && base < WORD
    ensures ApplyImmediate(i, base) < WORD
  {
    hide Or;
    Powers();
    OrBound(base, i.immediate, 32);
  }

  // ----- the family of wrong answers

  /** lui $0, 1; addiu $4, $0, 5: the resolver answers 0x10005 for $4 although every run leaves 5. */
  lemma FollowingZeroIsWrong(states: seq<Registers>)
    ensures var l := [Immediate(OPCODE_LUI, 0, 0, 1), Immediate(OPCODE_ADDIU, 0, 4, 5)];
            Resolve(l, 2, 4) == Some(0x1_0005) && (IsRun(l, 2, states) ==> states[2][4] == 5)
  {
    var lui, addiu := Immediate(OPCODE_LUI, 0, 0, 1), Immediate(OPCODE_ADDIU, 0, 4, 5);
    var l := [lui, addiu];
    assert Scan(l, 1, 0, 0) == Some(0x1_0000);
    assert Resolve(l, 1, 0) == Some(0x1_0000);
    assert Scan(l, 2, 0, 4) == Some(0x1_0005);
    if IsRun(l, 2, states) {
      assert Step(l[1], states[1], states[1 + 1]);
      ProducesIff(addiu, states[1][0], states[2][4]);
    }
  }

  /** JAL, BLTZAL, BGEZAL, BLTZALL or BGEZALL. */
  predicate IsCallOpcode(i: Instruction) {
    i.opcode == 3 || (i.opcode == 1 && i.rt in {0x10, 0x11, 0x12, 0x13})
  }

  /** lui $31, 1 and an instruction that does not name $31: the resolver answers 0x10000 for $31 without
      ever following register 0. That is right on every run unless the instruction is a call; then every
      run leaves the return address, which is that number only for a call at 0xFFF8. */
  lemma PassingLinkIsWrong(i: Instruction, states: seq<Registers>)
    requires WellFormed(i) && i.rt != 31 && i.rd != 31
    ensures var l := [Immediate(OPCODE_LUI, 0, 31, 1), i];
            && Resolve(l, 2, 31) == Some(0x1_0000) && AvoidsZero(l, 2, 31)
            && (IsRun(l, 2, states) ==>
                (states[2][31] == 0x1_0000 <==> !IsCallOpcode(i) || i.address == 0xFFF8))
  {
    var lui := Immediate(OPCODE_LUI, 0, 31, 1);
    var l := [lui, i];
    assert Scan(l, 1, 0, 31) == Some(0x1_0000);
    assert Scan(l, 2, 0, 31) == Some(0x1_0000);
    assert AvoidsZero(l, 1, 31);
    if IsRun(l, 2, states) {
      assert Step(l[0], states[0], states[0 + 1]) && Step(l[1], states[1], states[1 + 1]);
      ProducesIff(lui, states[0][0], states[1][31]);
    }
  }
}
