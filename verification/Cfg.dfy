/**
 * The analyzer's control-flow graphs: a decoded listing is cut into blocks at
 * leader addresses, and edges are added from the terminator of every block.
 */
module Cfg {
  import opened Bits
  import opened Instructions

  /** The bounds of the function whose listing is analyzed. */
  datatype Function = Function(start: nat, end: nat)

  datatype CfgNode = CfgNode(
    startAddress: nat,
    endAddress: nat,
    instructions: seq<Instruction>,
    predecessors: seq<nat>,
    successors: seq<nat>)

  type Graph = map<nat, CfgNode>

  // ----- addresses

  function BranchTarget(i: Instruction): nat {
    (i.address + 4 + SignedImmediate(i) * 4) % WORD
  }

  /** decodeAbsoluteJumpTarget. */
  function JumpTarget(i: Instruction): nat {
    Or(And((i.address + 4) % WORD, 0xF000_0000), i.target * 4)
  }

  predicate IsDirectJump(i: Instruction) {
    i.opcode == OPCODE_J || i.opcode == OPCODE_JAL
  }

  predicate IsTransfer(i: Instruction) {
    i.isBranch || i.isJump
  }

  predicate IsLikely(i: Instruction) {
    i.opcode == OPCODE_BEQL || i.opcode == OPCODE_BNEL || i.opcode == OPCODE_BLEZL || i.opcode == OPCODE_BGTZL
  }

  /** A branch goes n words past its delay slot, where n is the number that its immediate encodes. */
  lemma BranchTargetIs(i: Instruction, n: int)
    requires Encodes16(i.immediate, n)
    ensures BranchTarget(i) == (i.address + 4 + 4 * n) % WORD
  {
  }

  /** The opcodes whose meaning the graph depends on. */
  lemma TransferOpcodes(i: Instruction)
    ensures IsLikely(i) <==> 0x14 <= i.opcode <= 0x17
    ensures IsDirectJump(i) <==> 2 <= i.opcode <= 3
  {
  }

  ghost predicate Ascending(l: seq<Instruction>) {
    forall i, j :: 0 <= i < j < |l| ==> l[i].address < l[j].address
  }

  /** A jump stays in the 256 MB region of the instruction after it. */
  lemma JumpTargetInRegion(i: Instruction)
    requires WellFormed(i)
    ensures JumpTarget(i) == (i.address + 4) % WORD / 0x1000_0000 * 0x1000_0000 + i.target * 4
  {
    hide Bit, Or, And, Low, Up, Shr, Pow2;
    var next := (i.address + 4) % WORD;
    Powers();
    SplitAt(next, 28);
    ShiftIsDivision(next, 28);
    var hi, lo := Shr(next, 28), Low(next, 28);
    UpIsTimes(hi, 28);
    assert next / 0x1000_0000 * 0x1000_0000 == Up(hi, 28);
    forall b: nat ensures Bit(JumpTarget(i), b) == Bit(i.target * 4 + Up(hi, 28), b) {
      BitSplit(i.target * 4, hi, 28, b);
      BitOr(And(next, 0xF000_0000), i.target * 4, b);
      BitAnd(next, 0xF000_0000, b);
      RegionMask(b);
      BitSplit(lo, hi, 28, b);
      if b >= 28 { BitBeyond(i.target * 4, 28, b); }
      if b >= 32 { BitBeyond(next, 32, b); }
    }
    SameBits(JumpTarget(i), i.target * 4 + Up(hi, 28));
  }

  lemma RegionMask(b: nat)
    ensures Bit(0xF000_0000, b) == (28 <= b < 32)
  {
    hide Bit, Up, Pow2;
    Powers();
    UpIsTimes(15, 28);
    BitUp(15, 28, b);
    if b >= 28 { BitOnes(4, b - 28); }
  }

  // ----- leaders

  function FallthroughIndex(l: seq<Instruction>, i: nat): nat
    requires i < |l|
  {
    i + (if l[i].hasDelaySlot then 2 else 1)
  }

  /** The leader addresses that instruction i adds. */
  function Marked(l: seq<Instruction>, i: nat): set<nat>
    requires i < |l|
  {
    var inst, fall := l[i], FallthroughIndex(l, i);
    if !IsTransfer(inst) then {}
    else
      (if fall < |l| then {l[fall].address} else {})
      + (if inst.isBranch then {BranchTarget(inst)} else {})
      + (if IsDirectJump(inst) && !inst.isCall then {JumpTarget(inst)} else {})
  }

  /** The entry point and what the first n instructions mark. */
  function LeadersUpTo(f: Function, l: seq<Instruction>, n: nat): set<nat>
    requires n <= |l|
  {
    if n == 0 then {f.start} else LeadersUpTo(f, l, n - 1) + Marked(l, n - 1)
  }

  function Leaders(f: Function, l: seq<Instruction>): set<nat> {
    LeadersUpTo(f, l, |l|)
  }

  lemma {:induction false} MarkedIsLeader(f: Function, l: seq<Instruction>, i: nat, n: nat)
    requires i < n <= |l|
    ensures Marked(l, i) <= LeadersUpTo(f, l, n) && f.start in LeadersUpTo(f, l, n)
    decreases n
  {
    if i < n - 1 {
      MarkedIsLeader(f, l, i, n - 1);
    } else if n > 1 {
      MarkedIsLeader(f, l, i - 1, n - 1);
    }
  }

  /** Instruction i transfers control to address a, or control goes on at a after it. */
  ghost predicate LeadsTo(l: seq<Instruction>, i: nat, a: nat)
    requires i < |l|
  {
    && IsTransfer(l[i])
    && (|| (FallthroughIndex(l, i) < |l| && l[FallthroughIndex(l, i)].address == a)
        || (l[i].isBranch && BranchTarget(l[i]) == a)
        || (IsDirectJump(l[i]) && !l[i].isCall && JumpTarget(l[i]) == a))
  }

  /** The leaders are the entry point and the addresses that some transfer leads to. */
  lemma LeaderIff(f: Function, l: seq<Instruction>, a: nat)
    ensures a in Leaders(f, l) <==> a == f.start || exists i :: 0 <= i < |l| && LeadsTo(l, i, a)
  {
    hide BranchTarget, JumpTarget;
    LeaderUpToIff(f, l, a, |l|);
  }

  lemma {:induction false} LeaderUpToIff(f: Function, l: seq<Instruction>, a: nat, n: nat)
    requires n <= |l|
    ensures a in LeadersUpTo(f, l, n) <==> a == f.start || exists i :: 0 <= i < n && LeadsTo(l, i, a)
    decreases n
  {
    hide BranchTarget, JumpTarget;
    if n > 0 {
      LeaderUpToIff(f, l, a, n - 1);
      assert a in Marked(l, n - 1) <==> LeadsTo(l, n - 1, a);
    }
  }

  /** The first loop of the source. */
  method CollectLeaders(f: Function, l: seq<Instruction>) returns (leaders: set<nat>)
    ensures leaders == Leaders(f, l)
  {
    hide BranchTarget, JumpTarget;
    leaders := {f.start};
    for n := 0 to |l|
      invariant leaders == LeadersUpTo(f, l, n)
    {
      var inst := l[n];
      if inst.isBranch || inst.isJump {
        var fallthroughIndex := n + (if inst.hasDelaySlot then 2 else 1);
        if fallthroughIndex < |l| {
          leaders := leaders + {l[fallthroughIndex].address};
        }
        if inst.isBranch {
          leaders := leaders + {BranchTarget(inst)};
        }
        if (inst.opcode == OPCODE_J || inst.opcode == OPCODE_JAL) && !inst.isCall {
          leaders := leaders + {JumpTarget(inst)};
        }
      }
    }
  }

  // ----- blocks

  /** The first leader position at or after i, or the end of the listing. */
  function NextLeader(leaders: set<nat>, l: seq<Instruction>, i: nat): (j: nat)
    requires i <= |l|
    ensures i <= j <= |l|
    ensures forall k :: i <= k < j ==> l[k].address !in leaders
    ensures j < |l| ==> l[j].address in leaders
    decreases |l| - i
  {
    if i == |l| || l[i].address in leaders then i else NextLeader(leaders, l, i + 1)
  }

  /** The block that runs from position k up to, not including, position e. */
  function BlockNode(l: seq<Instruction>, start: nat, k: nat, e: nat): CfgNode
    requires k < e <= |l|
  {
    CfgNode(start, l[e - 1].address, l[k..e], [], [])
  }

  function BlockFrom(leaders: set<nat>, l: seq<Instruction>, k: nat): CfgNode
    requires k < |l|
  {
    BlockNode(l, l[k].address, k, NextLeader(leaders, l, k + 1))
  }

  /** Position k starts a block of the graph: a leader at a non-zero address. */
  predicate StartsBlock(leaders: set<nat>, l: seq<Instruction>, k: int) {
    0 <= k < |l| && l[k].address in leaders && l[k].address != 0
  }

  /** Address zero stands for "no block yet" in the source, so only non-zero leaders start blocks;
      without any, the whole listing is filed under zero. */
  ghost predicate IsBlocks(leaders: set<nat>, l: seq<Instruction>, g: Graph) {
    if exists k :: StartsBlock(leaders, l, k) then
      && (forall k :: StartsBlock(leaders, l, k) ==> l[k].address in g && g[l[k].address] == BlockFrom(leaders, l, k))
      && (forall a :: a in g ==> BlockStartBefore(leaders, l, |l|, a))
    else if |l| == 0 then g == map[]
    else g == map[0 := BlockNode(l, 0, 0, |l|)]
  }

  /** The blocks completed when the current run of instructions began at position c. */
  ghost predicate BlocksBefore(leaders: set<nat>, l: seq<Instruction>, g: Graph, c: nat) {
    && (forall k :: StartsBlock(leaders, l, k) && k < c ==>
        l[k].address in g && g[l[k].address] == BlockFrom(leaders, l, k))
    && (forall a :: a in g ==> BlockStartBefore(leaders, l, c, a))
  }

  ghost predicate BlockStartBefore(leaders: set<nat>, l: seq<Instruction>, c: nat, a: nat) {
    exists k :: StartsBlock(leaders, l, k) && k < c && l[k].address == a
  }

  /** The address under which the run that began at position c is filed. */
  function Filed(leaders: set<nat>, l: seq<Instruction>, c: nat): nat
    requires c < |l|
  {
    if l[c].address in leaders then l[c].address else 0
  }

  lemma NextLeaderIs(leaders: set<nat>, l: seq<Instruction>, c: nat, i: nat)
    requires c < i <= |l| && (i < |l| ==> l[i].address in leaders) && forall k :: c < k < i ==> l[k].address !in leaders
    ensures NextLeader(leaders, l, c + 1) == i
  {
    hide NextLeader;
  }

  /** Filing the run from c up to i completes the blocks before i. */
  lemma CloseBlock(leaders: set<nat>, l: seq<Instruction>, g: Graph, c: nat, i: nat)
    requires Ascending(l) && c < i <= |l| && BlocksBefore(leaders, l, g, c)
    requires (i < |l| ==> l[i].address in leaders) && forall k :: c < k < i ==> l[k].address !in leaders
    requires Filed(leaders, l, c) != 0
    ensures BlocksBefore(leaders, l, g[l[c].address := BlockNode(l, l[c].address, c, i)], i)
  {
    hide NextLeader, BlockNode;
    NextLeaderIs(leaders, l, c, i);
    var g' := g[l[c].address := BlockNode(l, l[c].address, c, i)];
    assert StartsBlock(leaders, l, c) && BlockFrom(leaders, l, c) == BlockNode(l, l[c].address, c, i);
    hide BlockFrom;
    forall k | StartsBlock(leaders, l, k) && k < i
      ensures l[k].address in g' && g'[l[k].address] == BlockFrom(leaders, l, k)
    {
      assert k <= c;
      assert k < c ==> l[k].address < l[c].address;
    }
    forall a | a in g' ensures BlockStartBefore(leaders, l, i, a) {
      if a != l[c].address {
        assert BlockStartBefore(leaders, l, c, a);
      }
    }
  }

  lemma SkipRun(leaders: set<nat>, l: seq<Instruction>, g: Graph, c: nat, i: nat)
    requires c <= i < |l| && BlocksBefore(leaders, l, g, c)
    requires forall k :: c < k < i ==> l[k].address !in leaders
    requires c == i || Filed(leaders, l, c) == 0
    ensures BlocksBefore(leaders, l, g, i)
  {
    forall k | StartsBlock(leaders, l, k) && k < i ensures k < c {
      assert k != c;
    }
  }

  lemma FinalBlock(leaders: set<nat>, l: seq<Instruction>, g: Graph, c: nat)
    requires Ascending(l) && c < |l| && BlocksBefore(leaders, l, g, c)
    requires (c > 0 ==> l[c].address in leaders) && forall k :: c < k < |l| ==> l[k].address !in leaders
    ensures IsBlocks(leaders, l, g[Filed(leaders, l, c) := BlockNode(l, Filed(leaders, l, c), c, |l|)])
  {
    hide NextLeader, IsBlocks, BlocksBefore;
    if Filed(leaders, l, c) != 0 {
      FinalNamedBlock(leaders, l, g, c);
    } else {
      assert forall k :: 0 < k < |l| ==> l[0].address < l[k].address;
      FinalNamelessBlock(leaders, l, g);
    }
  }

  lemma FinalNamedBlock(leaders: set<nat>, l: seq<Instruction>, g: Graph, c: nat)
    requires Ascending(l) && c < |l| && BlocksBefore(leaders, l, g, c) && Filed(leaders, l, c) != 0
    requires forall k :: c < k < |l| ==> l[k].address !in leaders
    ensures IsBlocks(leaders, l, g[l[c].address := BlockNode(l, l[c].address, c, |l|)])
  {
    hide NextLeader, BlockNode, BlockFrom;
    CloseBlock(leaders, l, g, c, |l|);
    assert StartsBlock(leaders, l, c);
  }

  lemma FinalNamelessBlock(leaders: set<nat>, l: seq<Instruction>, g: Graph)
    requires |l| > 0 && BlocksBefore(leaders, l, g, 0) && Filed(leaders, l, 0) == 0
    requires forall k :: 0 < k < |l| ==> l[k].address !in leaders
    ensures IsBlocks(leaders, l, g[0 := BlockNode(l, 0, 0, |l|)])
  {
    hide NextLeader;
    assert forall k :: !StartsBlock(leaders, l, k);
    assert g.Keys == {};
  }

  /** The second loop of the source, which cuts the listing at leaders. */
  method BuildBlocks(leaders: set<nat>, l: seq<Instruction>) returns (g: Graph)
    requires Ascending(l)
    ensures IsBlocks(leaders, l, g)
  {
    hide NextLeader, BlocksBefore, IsBlocks;
    g := map[];
    var currentLeader, nodeStart := 0, 0;
    var run: seq<Instruction> := [];
    ghost var c := 0;
    NoBlocks(leaders, l);
    for i := 0 to |l|
      invariant c <= i && (i > 0 ==> c < i) && run == l[c..i]
      invariant forall k :: c < k < i ==> l[k].address !in leaders
      invariant c > 0 ==> l[c].address in leaders
      invariant currentLeader == nodeStart == if i > 0 then Filed(leaders, l, c) else 0
      invariant if i < |l| || |l| == 0 then BlocksBefore(leaders, l, g, c) else IsBlocks(leaders, l, g)
      invariant |l| == 0 ==> g == map[]
    {
      if l[i].address in leaders {
        if currentLeader != 0 {
          CloseBlock(leaders, l, g, c, i);
          g := g[currentLeader := CfgNode(nodeStart, l[i - 1].address, run, [], [])];
        } else {
          SkipRun(leaders, l, g, c, i);
        }
        c := i;
        currentLeader := l[i].address;
        nodeStart := currentLeader;
        run := [];
      }
      SliceGrows(l, c, i);
      run := run + [l[i]];
      if i == |l| - 1 {
        FinalBlock(leaders, l, g, c);
        g := g[currentLeader := CfgNode(nodeStart, l[i].address, run, [], [])];
      }
    }
  }

  lemma SliceGrows(l: seq<Instruction>, c: nat, i: nat)
    requires c <= i < |l|
    ensures l[c..i + 1] == l[c..i] + [l[i]]
  {
  }

  lemma NoBlocks(leaders: set<nat>, l: seq<Instruction>)
    ensures BlocksBefore(leaders, l, map[], 0)
    ensures |l| == 0 ==> IsBlocks(leaders, l, map[])
  {
  }

  // ----- edges

  /** The control transfer that ends a block: its second to last instruction when the last one fills
      its delay slot, otherwise the last. */
  function Terminator(b: seq<Instruction>): Instruction
    requires |b| > 0
  {
    var last := b[|b| - 1];
    if |b| >= 2 && b[|b| - 2].hasDelaySlot && IsTransfer(b[|b| - 2]) && (b[|b| - 2].address + 4) % WORD == last.address
    then b[|b| - 2] else last
  }

  /** The address after a transfer and its delay slot. */
  function NextAddress(i: Instruction): nat {
    (i.address + (if i.hasDelaySlot then 8 else 4)) % WORD
  }

  /** Block b of the graph starts at address a or contains it. */
  predicate Contains(g: Graph, b: nat, a: nat) {
    b in g && (b == a || (a > b && a <= g[b].endAddress))
  }

  /** No address lies in two blocks, so searching them in any order finds the same one. */
  ghost predicate UniqueBlocks(g: Graph) {
    forall a, b, b' :: Contains(g, b, a) && Contains(g, b', a) ==> b == b'
  }

  /** The block that contains an address, as a list of at most one. */
  ghost function BlockOf(g: Graph, a: nat): seq<nat> {
    if exists b :: Contains(g, b, a) then
      var b :| Contains(g, b, a);
      [b]
    else []
  }

  /** An address, kept when it is the start of a block. */
  function KeptKey(g: Graph, a: nat): seq<nat> {
    if a in g then [a] else []
  }

  /** The edges out of a block, in the order in which the source adds them. */
  ghost function Successors(f: Function, g: Graph, b: nat): seq<nat>
    requires b in g && |g[b].instructions| > 0
  {
    var block := g[b].instructions;
    var last, term := block[|block| - 1], Terminator(block);
    if term.isBranch then
      KeptKey(g, BranchTarget(term)) +
          (if !IsLikely(term) && NextAddress(term) <= f.end then BlockOf(g, NextAddress(term)) else [])
    else if term.isJump then
      if IsDirectJump(term) && f.start <= JumpTarget(term) < f.end then KeptKey(g, JumpTarget(term)) else []
    else if !last.isReturn && (last.address + 4) % WORD <= f.end then KeptKey(g, (last.address + 4) % WORD)
    else []
  }

  /** The blocks of a graph without their edges. */
  function Skeleton(g: Graph): Graph {
    map b | b in g :: g[b].(predecessors := [], successors := [])
  }

  function AddEdge(g: Graph, a: nat, b: nat): Graph
    requires a in g && b in g
  {
    var g1 := g[a := g[a].(successors := g[a].successors + [b])];
    g1[b := g1[b].(predecessors := g1[b].predecessors + [a])]
  }

  ghost predicate EdgesInside(g: Graph) {
    forall a, b :: a in g && (b in g[a].successors || b in g[a].predecessors) ==> b in g
  }

  /** Block b occurs among the successors of a as often as a among the predecessors of b. */
  ghost predicate Balanced(g: Graph) {
    EdgesInside(g) &&
    forall a, b :: a in g && b in g ==> multiset(g[b].predecessors)[a] == multiset(g[a].successors)[b]
  }

  lemma AddEdgeEffect(g: Graph, a: nat, b: nat)
    requires a in g && b in g
    ensures Skeleton(AddEdge(g, a, b)) == Skeleton(g) && AddEdge(g, a, b).Keys == g.Keys
    ensures forall x :: x in g ==> AddEdge(g, a, b)[x].successors == g[x].successors + (if x == a then [b] else [])
    ensures forall x :: x in g ==> AddEdge(g, a, b)[x].predecessors == g[x].predecessors + (if x == b then [a] else [])
  {
  }

  lemma CountAppend(s: seq<nat>, c: bool, x: nat, y: nat)
    ensures multiset(s + (if c then [x] else []))[y] == multiset(s)[y] + (if c && x == y then 1 else 0)
  {
  }

  lemma AddEdgeKeepsBalance(g: Graph, a: nat, b: nat)
    requires a in g && b in g && Balanced(g)
    ensures Balanced(AddEdge(g, a, b))
  {
    hide Skeleton, AddEdge, EdgesInside;
    AddEdgeEffect(g, a, b);
    var g' := AddEdge(g, a, b);
    forall x, y | x in g && y in g ensures multiset(g'[y].predecessors)[x] == multiset(g'[x].successors)[y] {
      CountAppend(g[y].predecessors, y == b, a, x);
      CountAppend(g[x].successors, x == a, b, y);
    }
    EdgesStayInside(g, g', a, b);
  }

  lemma EdgesStayInside(g: Graph, g': Graph, a: nat, b: nat)
    requires a in g && b in g && EdgesInside(g) && g'.Keys == g.Keys
    requires forall x :: x in g ==> g'[x].successors == g[x].successors + (if x == a then [b] else [])
    requires forall x :: x in g ==> g'[x].predecessors == g[x].predecessors + (if x == b then [a] else [])
    ensures EdgesInside(g')
  {
  }

  /** Adds an edge when the target exists. */
  method AddEdgeIfBlock(g: Graph, a: nat, b: nat) returns (g': Graph)
    requires a in g && Balanced(g)
    ensures Balanced(g') && Skeleton(g') == Skeleton(g) && g'.Keys == g.Keys
    ensures forall x :: x in g ==> g'[x].successors == g[x].successors + (if x == a then KeptKey(g, b) else [])
  {
    hide Skeleton, AddEdge, Balanced;
    g' := g;
    if b in g {
      AddEdgeEffect(g, a, b);
      AddEdgeKeepsBalance(g, a, b);
      g' := AddEdge(g, a, b);
    }
  }

  /** Adds an edge to the block that contains an address, if there is one. */
  method AddEdgeToContaining(g: Graph, a: nat, address: nat) returns (g': Graph)
    requires a in g && Balanced(g) && UniqueBlocks(Skeleton(g))
    ensures Balanced(g') && Skeleton(g') == Skeleton(g) && g'.Keys == g.Keys
    ensures forall x :: x in g ==>
        g'[x].successors == g[x].successors + (if x == a then BlockOf(Skeleton(g), address) else [])
  {
    hide Skeleton, AddEdge, Balanced, BlockOf, UniqueBlocks;
    g' := g;
    SkeletonContains(g, address);
    BlockOfIs(Skeleton(g), address);
    if exists b :: b in g && Contains(g, b, address) {
      var b :| b in g && Contains(g, b, address);
      assert Contains(Skeleton(g), b, address);
      AddEdgeEffect(g, a, b);
      AddEdgeKeepsBalance(g, a, b);
      g' := AddEdge(g, a, b);
    }
  }

  lemma BlockOfIs(g: Graph, a: nat)
    requires UniqueBlocks(g)
    ensures forall b: nat :: Contains(g, b, a) ==> BlockOf(g, a) == [b]
    ensures (forall b: nat :: !Contains(g, b, a)) ==> BlockOf(g, a) == []
  {
  }

  lemma SkeletonContains(g: Graph, a: nat)
    ensures forall b :: Contains(Skeleton(g), b, a) <==> Contains(g, b, a)
  {
  }

  /** One round of the third loop of the source: the edges out of block b. */
  method AddBlockEdges(f: Function, g: Graph, b: nat) returns (g': Graph)
    requires b in g && |g[b].instructions| > 0 && Balanced(g) && UniqueBlocks(Skeleton(g))
    ensures Balanced(g') && Skeleton(g') == Skeleton(g) && g'.Keys == g.Keys
    ensures forall x :: x in g ==>
        g'[x].successors == g[x].successors + (if x == b then Successors(f, Skeleton(g), b) else [])
  {
    hide Balanced, UniqueBlocks, BlockOf, JumpTarget, BranchTarget;
    g' := g;
    var block := g[b].instructions;
    var last, terminator := block[|block| - 1], Terminator(block);
    if terminator.isBranch {
      g' := AddEdgeIfBlock(g, b, BranchTarget(terminator));
      if !IsLikely(terminator) && NextAddress(terminator) <= f.end {
        g' := AddEdgeToContaining(g', b, NextAddress(terminator));
      }
    } else if terminator.isJump {
      if terminator.opcode == OPCODE_J || terminator.opcode == OPCODE_JAL {
        var targetAddr := JumpTarget(terminator);
        if targetAddr >= f.start && targetAddr < f.end {
          g' := AddEdgeIfBlock(g, b, targetAddr);
        }
      }
    } else if !last.isReturn {
      if (last.address + 4) % WORD <= f.end {
        g' := AddEdgeIfBlock(g, b, (last.address + 4) % WORD);
      }
    }
  }

  ghost predicate NoEmptyBlocks(g: Graph) {
    forall b :: b in g ==> |g[b].instructions| > 0
  }

  lemma SkeletonHasNoEdges(g: Graph)
    requires Skeleton(g) == g
    ensures forall b :: b in g ==> g[b].successors == [] && g[b].predecessors == []
  {
    assert forall b :: b in g ==> g[b] == Skeleton(g)[b];
  }

  lemma SkeletonKeepsBlocks(g: Graph, b: nat)
    requires b in g
    ensures b in Skeleton(g) && Skeleton(g)[b].instructions == g[b].instructions
  {
  }

  method AddEdges(f: Function, g0: Graph) returns (g: Graph)
    requires Skeleton(g0) == g0 && NoEmptyBlocks(g0) && UniqueBlocks(g0)
    ensures Skeleton(g) == g0 && Balanced(g)
    ensures forall b :: b in g ==> g[b].successors == Successors(f, g0, b)
  {
    hide Successors, UniqueBlocks, Balanced, Skeleton;
    g := g0;
    SkeletonHasNoEdges(g0);
    NoEdgesBalanced(g0);
    var todo := g.Keys;
    while todo != {}
      invariant g.Keys == g0.Keys && todo <= g.Keys
      invariant Skeleton(g) == g0 && Balanced(g)
      invariant forall b :: b in g ==> g[b].successors == if b in todo then [] else Successors(f, g0, b)
      decreases todo
    {
      var b :| b in todo;
      SkeletonKeepsBlocks(g, b);
      g := AddBlockEdges(f, g, b);
      todo := todo - {b};
    }
  }

  lemma NoEdgesBalanced(g: Graph)
    requires forall b :: b in g ==> g[b].successors == [] && g[b].predecessors == []
    ensures Balanced(g)
  {
  }

  // ----- the graph of a listing

  ghost predicate IsCfg(f: Function, l: seq<Instruction>, g: Graph) {
    && IsBlocks(Leaders(f, l), l, Skeleton(g)) && NoEmptyBlocks(Skeleton(g))
    && Balanced(g)
    && forall b :: b in g ==> g[b].successors == Successors(f, Skeleton(g), b)
  }

  lemma BlocksAreSkeleton(leaders: set<nat>, l: seq<Instruction>, g: Graph)
    requires IsBlocks(leaders, l, g)
    ensures Skeleton(g) == g && NoEmptyBlocks(g)
  {
    hide IsBlocks;
    forall b | b in g ensures g[b].predecessors == [] && g[b].successors == [] && |g[b].instructions| > 0 {
      BlockIsPlain(leaders, l, g, b);
    }
  }

  lemma BlockIsPlain(leaders: set<nat>, l: seq<Instruction>, g: Graph, b: nat)
    requires IsBlocks(leaders, l, g) && b in g
    ensures g[b].predecessors == [] && g[b].successors == [] && |g[b].instructions| > 0
  {
    hide NextLeader;
    if exists k :: StartsBlock(leaders, l, k) {
      var k := BlockSpan(leaders, l, g, b);
    }
  }

  /** Where a block of the graph lies in the listing. */
  lemma BlockSpan(leaders: set<nat>, l: seq<Instruction>, g: Graph, b: nat) returns (k: nat)
    requires IsBlocks(leaders, l, g) && b in g && exists j :: StartsBlock(leaders, l, j)
    ensures StartsBlock(leaders, l, k) && l[k].address == b && g[b] == BlockFrom(leaders, l, k)
  {
    hide NextLeader;
    assert BlockStartBefore(leaders, l, |l|, b);
    k :| StartsBlock(leaders, l, k) && k < |l| && l[k].address == b;
  }

  lemma BlocksAreUnique(leaders: set<nat>, l: seq<Instruction>, g: Graph)
    requires IsBlocks(leaders, l, g) && Ascending(l)
    ensures UniqueBlocks(g)
  {
    hide IsBlocks;
    if exists k :: StartsBlock(leaders, l, k) {
      forall a, b, b' | Contains(g, b, a) && Contains(g, b', a) ensures b == b' {
        SameBlock(leaders, l, g, a, b, b');
      }
    } else {
      SingleBlock(leaders, l, g);
    }
  }

  lemma SingleBlock(leaders: set<nat>, l: seq<Instruction>, g: Graph)
    requires IsBlocks(leaders, l, g) && !exists k :: StartsBlock(leaders, l, k)
    ensures forall b :: b in g ==> b == 0
  {
  }

  lemma SameBlock(leaders: set<nat>, l: seq<Instruction>, g: Graph, a: nat, b: nat, b': nat)
    requires IsBlocks(leaders, l, g) && Ascending(l) && exists k :: StartsBlock(leaders, l, k)
    requires Contains(g, b, a) && Contains(g, b', a)
    ensures b == b'
  {
    hide NextLeader, IsBlocks, BlockFrom;
    var k := BlockSpan(leaders, l, g, b);
    var k' := BlockSpan(leaders, l, g, b');
    if k < k' { LaterBlockIsAbove(leaders, l, k, k'); }
    if k' < k { LaterBlockIsAbove(leaders, l, k', k); }
  }

  lemma LaterBlockIsAbove(leaders: set<nat>, l: seq<Instruction>, k: nat, k': nat)
    requires Ascending(l) && k < k' < |l| && l[k'].address in leaders
    ensures BlockFrom(leaders, l, k).endAddress < l[k'].address
  {
    hide NextLeader;
    var e := NextLeader(leaders, l, k + 1);
    assert e <= k';
  }

  /** buildCFG. */
  method BuildCfg(f: Function, l: seq<Instruction>) returns (g: Graph)
    requires Ascending(l)
    ensures IsCfg(f, l, g)
  {
    hide IsBlocks, Balanced, Successors, UniqueBlocks;
    var leaders := CollectLeaders(f, l);
    var blocks := BuildBlocks(leaders, l);
    BlocksAreSkeleton(leaders, l, blocks);
    BlocksAreUnique(leaders, l, blocks);
    g := AddEdges(f, blocks);
  }

  // ----- nothing is lost or duplicated

  ghost predicate StrictlyAscending(s: seq<nat>) {
    forall i, j :: 0 <= i < j < |s| ==> s[i] < s[j]
  }

  /** The instructions of the blocks at the given addresses, one after the other. */
  ghost function Concat(g: Graph, order: seq<nat>): seq<Instruction>
    requires forall a :: a in order ==> a in g
  {
    if |order| == 0 then [] else g[order[0]].instructions + Concat(g, order[1..])
  }

  ghost predicate IsAddressOrder(g: Graph, order: seq<nat>) {
    StrictlyAscending(order) && forall a :: a in order <==> a in g
  }

  /** The blocks, taken in address order, are the listing. */
  ghost predicate NothingLost(g: Graph, l: seq<Instruction>) {
    exists order :: IsAddressOrder(g, order) && Concat(g, order) == l
  }

  /** The addresses of the blocks that start at or after position i. */
  ghost function Starts(leaders: set<nat>, l: seq<Instruction>, i: nat): seq<nat>
    requires i <= |l|
    decreases |l| - i
  {
    if i == |l| then []
    else (if StartsBlock(leaders, l, i) then [l[i].address] else []) + Starts(leaders, l, i + 1)
  }

  ghost predicate StartsFrom(leaders: set<nat>, l: seq<Instruction>, i: nat, a: nat) {
    exists k :: i <= k && StartsBlock(leaders, l, k) && l[k].address == a
  }

  lemma {:induction false} StartsMembers(leaders: set<nat>, l: seq<Instruction>, i: nat)
    requires i <= |l|
    ensures forall a :: a in Starts(leaders, l, i) <==> StartsFrom(leaders, l, i, a)
    decreases |l| - i
  {
    if i < |l| {
      StartsMembers(leaders, l, i + 1);
      forall a ensures a in Starts(leaders, l, i) <==> StartsFrom(leaders, l, i, a) {
        StartsFromNext(leaders, l, i, a);
      }
    } else {
      assert forall k :: i <= k ==> !StartsBlock(leaders, l, k);
    }
  }

  lemma StartsFromNext(leaders: set<nat>, l: seq<Instruction>, i: nat, a: nat)
    requires i < |l|
    ensures StartsFrom(leaders, l, i, a) <==>
        StartsFrom(leaders, l, i + 1, a) || (StartsBlock(leaders, l, i) && l[i].address == a)
  {
    if StartsFrom(leaders, l, i + 1, a) {
      var k :| i + 1 <= k && StartsBlock(leaders, l, k) && l[k].address == a;
      assert i <= k;
    }
    if StartsFrom(leaders, l, i, a) {
      var k :| i <= k && StartsBlock(leaders, l, k) && l[k].address == a;
      assert k == i || i + 1 <= k;
    }
  }

  lemma {:induction false} StartsAscend(leaders: set<nat>, l: seq<Instruction>, i: nat)
    requires i <= |l| && Ascending(l)
    ensures StrictlyAscending(Starts(leaders, l, i))
    decreases |l| - i
  {
    if i < |l| {
      StartsAscend(leaders, l, i + 1);
      StartsMembers(leaders, l, i + 1);
      var rest := Starts(leaders, l, i + 1);
      forall j | 0 <= j < |rest| ensures l[i].address < rest[j] {
        assert StartsFrom(leaders, l, i + 1, rest[j]);
        var k :| i + 1 <= k && StartsBlock(leaders, l, k) && l[k].address == rest[j];
      }
    }
  }

  /** A block start before the end splits the remaining listing into its block and the rest. */
  lemma {:induction false} StartsSkip(leaders: set<nat>, l: seq<Instruction>, i: nat, e: nat)
    requires i <= e <= |l| && forall k :: i <= k < e ==> !StartsBlock(leaders, l, k)
    ensures Starts(leaders, l, i) == Starts(leaders, l, e)
    decreases e - i
  {
    if i < e {
      assert Starts(leaders, l, i) == [] + Starts(leaders, l, i + 1);
      hide Starts, StartsBlock;
      StartsSkip(leaders, l, i + 1, e);
    }
  }

  lemma {:induction false} ConcatFrom(leaders: set<nat>, l: seq<Instruction>, g: Graph, i: nat)
    requires IsBlocks(leaders, l, g) && Ascending(l) && StartsBlock(leaders, l, i)
    requires forall a :: a in Starts(leaders, l, i) ==> a in g
    ensures Concat(g, Starts(leaders, l, i)) == l[i..]
    decreases |l| - i
  {
    hide NextLeader, IsBlocks, Starts, Concat, Ascending;
    var e := NextLeader(leaders, l, i + 1);
    StartsStep(leaders, l, i, e);
    BlockInstructions(leaders, l, g, i);
    ConcatStep(g, l[i].address, Starts(leaders, l, e));
    if e < |l| {
      AscendsFromFirst(l, e);
      ConcatFrom(leaders, l, g, e);
      assert l[i..] == l[i..e] + l[e..];
    } else {
      ConcatNothing(g);
      assert l[i..e] == l[i..];
    }
  }

  lemma AscendsFromFirst(l: seq<Instruction>, e: nat)
    requires Ascending(l) && 0 < e < |l|
    ensures l[e].address != 0
  {
    assert l[0].address < l[e].address;
  }

  lemma StartsStep(leaders: set<nat>, l: seq<Instruction>, i: nat, e: nat)
    requires StartsBlock(leaders, l, i) && i < e <= |l|
    requires forall k :: i < k < e ==> !StartsBlock(leaders, l, k)
    ensures Starts(leaders, l, i) == [l[i].address] + Starts(leaders, l, e)
    ensures e == |l| ==> Starts(leaders, l, e) == []
  {
    StartsSkip(leaders, l, i + 1, e);
  }

  lemma ConcatStep(g: Graph, a: nat, rest: seq<nat>)
    requires a in g && forall b :: b in rest ==> b in g
    ensures forall b :: b in [a] + rest ==> b in g
    ensures Concat(g, [a] + rest) == g[a].instructions + Concat(g, rest)
  {
    assert ([a] + rest)[1..] == rest;
  }

  lemma ConcatNothing(g: Graph)
    ensures Concat(g, []) == []
  {
  }

  lemma BlockInstructions(leaders: set<nat>, l: seq<Instruction>, g: Graph, i: nat)
    requires IsBlocks(leaders, l, g) && StartsBlock(leaders, l, i)
    ensures l[i].address in g && g[l[i].address].instructions == l[i..NextLeader(leaders, l, i + 1)]
  {
    hide NextLeader;
    assert g[l[i].address] == BlockFrom(leaders, l, i);
  }

  lemma {:induction false} OrderIsUnique(s: seq<nat>, t: seq<nat>)
    requires StrictlyAscending(s) && StrictlyAscending(t) && forall a :: a in s <==> a in t
    ensures s == t
  {
    assert |t| == 0 || t[0] in s;
    if |s| > 0 {
      assert s[0] in t && |t| > 0;
      assert t[0] in s;
      assert s[0] == t[0];
      forall a ensures a in s[1..] <==> a in t[1..] {
        assert a in s <==> a == s[0] || a in s[1..];
        assert a in t <==> a == t[0] || a in t[1..];
        assert forall i :: 0 <= i < |s[1..]| ==> s[0] < s[1..][i];
        assert forall i :: 0 <= i < |t[1..]| ==> t[0] < t[1..][i];
      }
      OrderIsUnique(s[1..], t[1..]);
      assert s == [s[0]] + s[1..] && t == [t[0]] + t[1..];
    }
  }

  lemma StartsAreOrder(leaders: set<nat>, l: seq<Instruction>, g: Graph, first: nat)
    requires IsBlocks(leaders, l, g) && Ascending(l)
    requires StartsBlock(leaders, l, first) && forall k :: StartsBlock(leaders, l, k) ==> first <= k
    ensures first <= |l| && IsAddressOrder(g, Starts(leaders, l, first))
  {
    hide NextLeader;
    StartsMembers(leaders, l, first);
    StartsAscend(leaders, l, first);
    forall a ensures StartsFrom(leaders, l, first, a) <==> a in g {
      if a in g {
        assert BlockStartBefore(leaders, l, |l|, a);
        var k :| StartsBlock(leaders, l, k) && k < |l| && l[k].address == a;
        assert first <= k;
      }
    }
  }

  /** The blocks of a listing with block starts concatenate to what follows the first start. */
  lemma ConcatIsSuffix(leaders: set<nat>, l: seq<Instruction>, g: Graph, first: nat, order: seq<nat>)
    requires IsBlocks(leaders, l, g) && Ascending(l)
    requires StartsBlock(leaders, l, first) && forall k :: StartsBlock(leaders, l, k) ==> first <= k
    requires IsAddressOrder(g, order)
    ensures Concat(g, order) == l[first..]
  {
    hide NextLeader, StartsBlock;
    var starts := Starts(leaders, l, first);
    StartsAreOrder(leaders, l, g, first);
    OrderIsUnique(order, starts);
    ConcatFrom(leaders, l, g, first);
  }

  /** Blocks lose nothing exactly when the first instruction starts a block or none does: otherwise
      everything before the first block start is dropped. */
  lemma NothingLostIff(leaders: set<nat>, l: seq<Instruction>, g: Graph)
    requires IsBlocks(leaders, l, g) && Ascending(l)
    ensures NothingLost(g, l) <==> StartsBlock(leaders, l, 0) || forall k :: !StartsBlock(leaders, l, k)
  {
    hide NextLeader, StartsBlock;
    if exists k :: StartsBlock(leaders, l, k) {
      var k :| StartsBlock(leaders, l, k);
      PositionInRange(leaders, l, k);
      var first := FirstStart(leaders, l, k);
      var starts := Starts(leaders, l, first);
      StartsAreOrder(leaders, l, g, first);
      ConcatIsSuffix(leaders, l, g, first, starts);
      if StartsBlock(leaders, l, 0) {
        assert first == 0 && l[0..] == l;
      } else {
        forall order | IsAddressOrder(g, order) ensures Concat(g, order) != l {
          ConcatIsSuffix(leaders, l, g, first, order);
          assert |l[first..]| < |l| by { PositionInRange(leaders, l, first); }
        }
      }
    } else if |l| == 0 {
      assert IsAddressOrder(g, []) && Concat(g, []) == l;
    } else {
      WholeListing(l, g);
    }
  }

  function Word(address: nat): Instruction {
    Instruction(address, 0, 0, 0, 0, 0, 0, false, false, false, false, false)
  }

  /** A branch to itself. */
  function SelfBranch(address: nat): Instruction {
    Instruction(address, 4, 0, 0, 0, 0xFFFF, 0, true, false, false, false, true)
  }

  /** A transfer with a delay slot ends its block exactly when its delay slot is the next instruction. */
  lemma TerminatorIff(b: seq<Instruction>)
    requires |b| >= 2 && IsTransfer(b[|b| - 2]) && b[|b| - 2].hasDelaySlot && b[|b| - 1] != b[|b| - 2]
    ensures Terminator(b) == b[|b| - 2] <==> b[|b| - 1].address == (b[|b| - 2].address + 4) % WORD
  {
  }

  /** Where the delay slot does not decode, the branch is lost: here it jumps to itself, and its block
      has no successor. */
  lemma UndecodedDelaySlotLosesBranch(g: Graph)
    requires IsCfg(Function(8, 20), [SelfBranch(8), Word(16)], g)
    ensures 8 in g && g[8].instructions == [SelfBranch(8), Word(16)] && g[8].successors == []
    ensures BranchTarget(SelfBranch(8)) == 8
  {
    hide IsBlocks, NextLeader, Balanced, Leaders, Successors, Skeleton;
    var f, l := Function(8, 20), [SelfBranch(8), Word(16)];
    var s := Skeleton(g);
    GapLeaders();
    BlockInstructions(Leaders(f, l), l, s, 0);
    assert NextLeader(Leaders(f, l), l, 1) == 2 && l[0..2] == l;
    SkeletonKeys(g);
    SkeletonKeepsBlocks(g, 8);
    OnlyLeadersHere(Leaders(f, l), l, s, 20);
    PlainSuccessors(f, s, 8);
  }

  lemma GapLeaders()
    ensures Leaders(Function(8, 20), [SelfBranch(8), Word(16)]) == {8} && BranchTarget(SelfBranch(8)) == 8
  {
    var f, l := Function(8, 20), [SelfBranch(8), Word(16)];
    assert LeadersUpTo(f, l, 0) == {8};
    assert LeadersUpTo(f, l, 1) == {8};
    assert LeadersUpTo(f, l, 2) == {8};
  }

  lemma OnlyLeadersHere(leaders: set<nat>, l: seq<Instruction>, g: Graph, a: nat)
    requires IsBlocks(leaders, l, g) && StartsBlock(leaders, l, 0)
    requires forall k :: 0 <= k < |l| ==> l[k].address != a
    ensures a !in g
  {
  }

  /** The first word of the function at 4 does not decode, so its listing begins at 8, and the branch
      at 12 marks itself: the instruction at 8 is in no block. */
  lemma UndecodedEntryLosesInstructions(g: Graph)
    requires IsBlocks(Leaders(Function(4, 20), [Word(8), SelfBranch(12), Word(16)]),
                      [Word(8), SelfBranch(12), Word(16)], g)
    ensures !NothingLost(g, [Word(8), SelfBranch(12), Word(16)])
  {
    hide NextLeader, IsBlocks, NothingLost;
    var f, l := Function(4, 20), [Word(8), SelfBranch(12), Word(16)];
    assert BranchTarget(l[1]) == 12;
    assert LeadersUpTo(f, l, 1) == {4};
    assert LeadersUpTo(f, l, 2) == {4, 12};
    assert LeadersUpTo(f, l, 3) == {4, 12};
    assert StartsBlock(Leaders(f, l), l, 1) && !StartsBlock(Leaders(f, l), l, 0);
    NothingLostIff(Leaders(f, l), l, g);
  }

  lemma PositionInRange(leaders: set<nat>, l: seq<Instruction>, k: int)
    requires StartsBlock(leaders, l, k)
    ensures 0 <= k < |l|
  {
  }

  lemma WholeListing(l: seq<Instruction>, g: Graph)
    requires |l| > 0 && g == map[0 := BlockNode(l, 0, 0, |l|)]
    ensures NothingLost(g, l)
  {
    var order: seq<nat> := [0];
    assert order[1..] == [];
    assert Concat(g, order[1..]) == [];
    assert g[0].instructions == l[0..|l|] == l;
    assert IsAddressOrder(g, order) && Concat(g, order) == l;
  }

  lemma {:induction false} FirstStart(leaders: set<nat>, l: seq<Instruction>, k: nat) returns (first: nat)
    requires StartsBlock(leaders, l, k)
    ensures first < |l| && StartsBlock(leaders, l, first) && forall j :: StartsBlock(leaders, l, j) ==> first <= j
    decreases k
  {
    if j :| 0 <= j < k && StartsBlock(leaders, l, j) {
      first := FirstStart(leaders, l, j);
    } else {
      first := k;
    }
  }

  /** Only the first instruction of a block is a leader. */
  lemma OnlyFirstIsLeader(leaders: set<nat>, l: seq<Instruction>, g: Graph, b: nat, j: nat)
    requires IsBlocks(leaders, l, g) && b in g && StartsBlock(leaders, l, 0) && j < |g[b].instructions|
    ensures g[b].instructions[j].address in leaders <==> j == 0
    ensures g[b].instructions[0].address == b
  {
    hide NextLeader;
    var k := BlockSpan(leaders, l, g, b);
  }

  /** In the graph of a listing that begins at a non-zero function start, the blocks in address order
      are the listing, every edge ends at a block, and edges are recorded at both ends. */
  lemma GraphIsComplete(f: Function, l: seq<Instruction>, g: Graph)
    requires IsCfg(f, l, g) && Ascending(l) && |l| > 0 && l[0].address == f.start != 0
    ensures NothingLost(Skeleton(g), l) && Balanced(g)
    ensures forall b, j :: b in g && 0 <= j < |g[b].instructions| ==>
        (g[b].instructions[j].address in Leaders(f, l) <==> j == 0)
  {
    hide IsBlocks, Balanced, Successors, NothingLost, Leaders;
    EntryStartsBlock(f, l);
    NothingLostIff(Leaders(f, l), l, Skeleton(g));
    forall b, j | b in g && 0 <= j < |g[b].instructions|
      ensures g[b].instructions[j].address in Leaders(f, l) <==> j == 0
    {
      SkeletonKeepsBlocks(g, b);
      OnlyFirstIsLeader(Leaders(f, l), l, Skeleton(g), b, j);
    }
  }

  lemma EntryStartsBlock(f: Function, l: seq<Instruction>)
    requires |l| > 0 && l[0].address == f.start != 0
    ensures StartsBlock(Leaders(f, l), l, 0)
  {
    MarkedIsLeader(f, l, 0, |l|);
  }

  // ----- exact successors

  /** A listing without gaps that begins at the non-zero start of its function, lies inside the
      function and stays clear of the end of the address space. */
  ghost predicate Contiguous(f: Function, l: seq<Instruction>) {
    && |l| > 0 && f.start > 0 && f.start + 4 * (|l| - 1) < f.end && f.start + 4 * |l| + 4 <= WORD
    && forall i :: 0 <= i < |l| ==> l[i].address == f.start + 4 * i
  }

  ghost predicate InListing(l: seq<Instruction>, a: nat) {
    exists i :: 0 <= i < |l| && l[i].address == a
  }

  /** An address, kept when there is an instruction. */
  ghost function Kept(l: seq<Instruction>, a: nat): seq<nat> {
    if InListing(l, a) then [a] else []
  }

  ghost predicate NoTransferInDelaySlot(l: seq<Instruction>) {
    forall i :: 0 <= i < |l| - 1 && IsTransfer(l[i]) && l[i].hasDelaySlot ==> !IsTransfer(l[i + 1])
  }

  lemma ContiguousAscends(f: Function, l: seq<Instruction>)
    requires Contiguous(f, l)
    ensures Ascending(l)
  {
  }

  /** The last leader at or before position i. */
  ghost function BlockStartOf(leaders: set<nat>, l: seq<Instruction>, i: nat): (k: nat)
    requires i < |l| && l[0].address in leaders
    ensures k <= i && l[k].address in leaders && forall j :: k < j <= i ==> l[j].address !in leaders
  {
    if l[i].address in leaders then i else BlockStartOf(leaders, l, i - 1)
  }

  /** A leader inside the listing is a block. */
  lemma LeaderIsBlock(f: Function, l: seq<Instruction>, g: Graph, a: nat)
    requires Contiguous(f, l) && IsBlocks(Leaders(f, l), l, g) && a in Leaders(f, l)
    ensures KeptKey(g, a) == Kept(l, a)
  {
    hide NextLeader, Leaders;
    var leaders := Leaders(f, l);
    EntryStartsBlock(f, l);
    if InListing(l, a) {
      var i :| 0 <= i < |l| && l[i].address == a;
      assert StartsBlock(leaders, l, i);
    }
    if a in g {
      var k := BlockSpan(leaders, l, g, a);
    }
  }

  lemma MarkedAddress(f: Function, l: seq<Instruction>, i: nat)
    requires i < |l| && IsTransfer(l[i])
    ensures l[i].isBranch ==> BranchTarget(l[i]) in Leaders(f, l)
    ensures FallthroughIndex(l, i) < |l| ==> l[FallthroughIndex(l, i)].address in Leaders(f, l)
  {
    hide BranchTarget, JumpTarget;
    MarkedIsLeader(f, l, i, |l|);
    if l[i].isBranch { assert BranchTarget(l[i]) in Marked(l, i); }
    if FallthroughIndex(l, i) < |l| { assert l[FallthroughIndex(l, i)].address in Marked(l, i); }
  }

  /** The address after a delayed branch at position i leads to the block there, or nowhere. */
  lemma FallthroughBlock(f: Function, l: seq<Instruction>, g: Graph, i: nat)
    requires Contiguous(f, l) && IsBlocks(Leaders(f, l), l, g)
    requires i < |l| && IsTransfer(l[i])
    ensures BlockOf(g, NextAddress(l[i])) == Kept(l, NextAddress(l[i]))
    ensures InListing(l, NextAddress(l[i])) ==> NextAddress(l[i]) <= f.end
  {
    hide NextLeader, Leaders, IsBlocks;
    var a := NextAddress(l[i]);
    ContiguousAscends(f, l);
    EntryStartsBlock(f, l);
    var next := FallthroughIndex(l, i);
    if next < |l| {
      assert l[next].address == a && InListing(l, a);
      MarkedAddress(f, l, i);
      LeaderIsBlock(f, l, g, a);
      assert Contains(g, a, a);
      BlocksAreUnique(Leaders(f, l), l, g);
    } else {
      forall b ensures !Contains(g, b, a) {
        NothingPastTheEnd(f, l, g, i, b);
      }
      assert !InListing(l, a) by { OutsideListing(f, l, i); }
    }
  }

  lemma OutsideListing(f: Function, l: seq<Instruction>, i: nat)
    requires Contiguous(f, l) && i < |l| <= FallthroughIndex(l, i)
    ensures !InListing(l, NextAddress(l[i]))
    ensures NextAddress(l[i]) < f.start || NextAddress(l[i]) >= f.start + 4 * |l|
  {
  }

  lemma NothingPastTheEnd(f: Function, l: seq<Instruction>, g: Graph, i: nat, b: nat)
    requires Contiguous(f, l) && IsBlocks(Leaders(f, l), l, g)
    requires i < |l| <= FallthroughIndex(l, i)
    ensures !Contains(g, b, NextAddress(l[i]))
  {
    hide NextLeader, Leaders, IsBlocks;
    OutsideListing(f, l, i);
    EntryStartsBlock(f, l);
    if b in g {
      var k := BlockSpan(Leaders(f, l), l, g, b);
      assert l[k].address == f.start + 4 * k;
    }
  }

  lemma LastIsTerminator(b: seq<Instruction>)
    requires |b| > 0 && (|b| >= 2 ==> !(b[|b| - 2].hasDelaySlot && IsTransfer(b[|b| - 2])))
    ensures Terminator(b) == b[|b| - 1]
  {
  }

  lemma DelayedIsTerminator(b: seq<Instruction>)
    requires |b| >= 2 && b[|b| - 2].hasDelaySlot && IsTransfer(b[|b| - 2])
    requires b[|b| - 1].address == b[|b| - 2].address + 4 < WORD
    ensures Terminator(b) == b[|b| - 2]
  {
  }

  /** A block that holds a transfer ends with it, or with its delay slot. */
  lemma BranchEndsBlock(f: Function, l: seq<Instruction>, i: nat)
    requires Contiguous(f, l) && NoTransferInDelaySlot(l) && i < |l| && IsTransfer(l[i])
    requires l[0].address in Leaders(f, l)
    ensures var k := BlockStartOf(Leaders(f, l), l, i);
            var e := NextLeader(Leaders(f, l), l, k + 1);
            i < e && Terminator(l[k..e]) == l[i]
  {
    hide NextLeader, Leaders, BlockStartOf, Terminator;
    var leaders := Leaders(f, l);
    var k := BlockStartOf(leaders, l, i);
    var e := NextLeader(leaders, l, k + 1);
    if FallthroughIndex(l, i) < |l| { MarkedAddress(f, l, i); }
    assert i < e <= FallthroughIndex(l, i);
    TerminatorOfSpan(f, l, k, i, e);
  }

  lemma BeforeTransfer(l: seq<Instruction>, j: nat)
    requires NoTransferInDelaySlot(l) && j + 1 < |l| && IsTransfer(l[j + 1])
    ensures !(l[j].hasDelaySlot && IsTransfer(l[j]))
  {
  }

  lemma TerminatorOfSpan(f: Function, l: seq<Instruction>, k: nat, i: nat, e: nat)
    requires Contiguous(f, l) && NoTransferInDelaySlot(l) && k <= i < e <= |l| && e <= FallthroughIndex(l, i)
    requires IsTransfer(l[i])
    ensures Terminator(l[k..e]) == l[i]
  {
    hide Terminator, IsTransfer;
    var block := l[k..e];
    if e == i + 1 {
      if |block| >= 2 {
        assert block[|block| - 2] == l[i - 1];
        BeforeTransfer(l, i - 1);
      }
      LastIsTerminator(block);
    } else {
      assert block[|block| - 1] == l[i + 1] && block[|block| - 2] == l[i];
      DelayedIsTerminator(block);
    }
  }

  /** The block that ends in a branch outside the four likely opcodes flows to exactly the taken target
      and the address after the branch and its delay slot, each where there is an instruction. */
  lemma OrdinaryBranchSuccessors(f: Function, l: seq<Instruction>, g: Graph, i: nat)
    requires IsCfg(f, l, g) && Contiguous(f, l) && NoTransferInDelaySlot(l)
    requires i < |l| && l[i].isBranch && !IsLikely(l[i])
    ensures l[0].address in Leaders(f, l)
    ensures var b := l[BlockStartOf(Leaders(f, l), l, i)].address;
            b in g && |g[b].instructions| > 0 && Terminator(g[b].instructions) == l[i] &&
            g[b].successors == Kept(l, BranchTarget(l[i])) + Kept(l, NextAddress(l[i]))
  {
    hide NextLeader, Leaders, IsBlocks, BlockStartOf, Terminator, Balanced, BlockOf, Kept, KeptKey, BranchTarget,
        NextAddress;
    var leaders, s := Leaders(f, l), Skeleton(g);
    EntryStartsBlock(f, l);
    var k := BlockStartOf(leaders, l, i);
    BranchEndsBlock(f, l, i);
    BlockInstructions(leaders, l, s, k);
    SkeletonKeepsBlocks(g, l[k].address);
    MarkedAddress(f, l, i);
    LeaderIsBlock(f, l, s, BranchTarget(l[i]));
    FallthroughBlock(f, l, s, i);
    KeptBeyond(l, NextAddress(l[i]));
  }

  /** The same in numbers: a branch that encodes n flows to the address n words past the next one and to
      the address after itself and its delay slot, each where there is an instruction; one of the
      opcodes 0x14 to 0x17 flows only to the former. */
  lemma BranchSuccessors(f: Function, l: seq<Instruction>, g: Graph, i: nat, n: int)
    requires IsCfg(f, l, g) && Contiguous(f, l) && NoTransferInDelaySlot(l)
    requires i < |l| && l[i].isBranch && Encodes16(l[i].immediate, n)
    ensures l[0].address in Leaders(f, l)
    ensures var b := l[BlockStartOf(Leaders(f, l), l, i)].address;
            var taken := Kept(l, (l[i].address + 4 + 4 * n) % WORD);
            var next := Kept(l, (l[i].address + if l[i].hasDelaySlot then 8 else 4) % WORD);
            b in g && g[b].successors == if 0x14 <= l[i].opcode <= 0x17 then taken else taken + next
  {
    hide Leaders, BlockStartOf, Terminator, Kept, BranchTarget, IsLikely, IsCfg;
    TransferOpcodes(l[i]);
    BranchTargetIs(l[i], n);
    if IsLikely(l[i]) {
      LikelyBranchSuccessors(f, l, g, i);
    } else {
      OrdinaryBranchSuccessors(f, l, g, i);
    }
  }

  /** The block that ends in one of the four likely branches flows only to the taken target. */
  lemma LikelyBranchSuccessors(f: Function, l: seq<Instruction>, g: Graph, i: nat)
    requires IsCfg(f, l, g) && Contiguous(f, l) && NoTransferInDelaySlot(l)
    requires i < |l| && l[i].isBranch && IsLikely(l[i])
    ensures l[0].address in Leaders(f, l)
    ensures var b := l[BlockStartOf(Leaders(f, l), l, i)].address;
            b in g && |g[b].instructions| > 0 && Terminator(g[b].instructions) == l[i] &&
            g[b].successors == Kept(l, BranchTarget(l[i]))
  {
    hide NextLeader, Leaders, IsBlocks, BlockStartOf, Terminator, Balanced, BlockOf, Kept, KeptKey, BranchTarget,
        NextAddress;
    var leaders, s := Leaders(f, l), Skeleton(g);
    EntryStartsBlock(f, l);
    var k := BlockStartOf(leaders, l, i);
    BranchEndsBlock(f, l, i);
    BlockInstructions(leaders, l, s, k);
    SkeletonKeepsBlocks(g, l[k].address);
    MarkedAddress(f, l, i);
    LeaderIsBlock(f, l, s, BranchTarget(l[i]));
  }

  /** The block that ends in a direct jump or call flows only to its target, exactly when the target
      is a leader and has an instruction; the target of a jump that is no call always is a leader, that
      of a call only for another reason. A register jump flows nowhere, and nothing falls through. */
  lemma JumpSuccessors(f: Function, l: seq<Instruction>, g: Graph, i: nat)
    requires IsCfg(f, l, g) && Contiguous(f, l) && NoTransferInDelaySlot(l)
    requires i < |l| && l[i].isJump && !l[i].isBranch
    ensures l[0].address in Leaders(f, l)
    ensures IsDirectJump(l[i]) && !l[i].isCall ==> JumpTarget(l[i]) in Leaders(f, l)
    ensures var b := l[BlockStartOf(Leaders(f, l), l, i)].address;
            b in g && |g[b].instructions| > 0 && Terminator(g[b].instructions) == l[i] &&
            g[b].successors == if IsDirectJump(l[i]) && JumpTarget(l[i]) in Leaders(f, l)
                               then Kept(l, JumpTarget(l[i])) else []
  {
    hide NextLeader, Leaders, IsBlocks, BlockStartOf, Terminator, Balanced, BlockOf, Kept, KeptKey,
         BranchTarget, NextAddress, JumpTarget;
    var leaders, s := Leaders(f, l), Skeleton(g);
    EntryStartsBlock(f, l);
    var k := BlockStartOf(leaders, l, i);
    BranchEndsBlock(f, l, i);
    BlockInstructions(leaders, l, s, k);
    SkeletonKeepsBlocks(g, l[k].address);
    if IsDirectJump(l[i]) {
      var target := JumpTarget(l[i]);
      if !l[i].isCall { JumpIsMarked(f, l, i); }
      if target in leaders { LeaderIsBlock(f, l, s, target); } else { OnlyLeadersAreBlocks(f, l, s, target); }
      KeptOutside(f, l, target);
    }
  }

  lemma OnlyLeadersAreBlocks(f: Function, l: seq<Instruction>, g: Graph, a: nat)
    requires Contiguous(f, l) && IsBlocks(Leaders(f, l), l, g) && a !in Leaders(f, l)
    ensures KeptKey(g, a) == []
  {
    hide NextLeader, Leaders, IsBlocks;
    EntryStartsBlock(f, l);
    if a in g { var k := BlockSpan(Leaders(f, l), l, g, a); }
  }

  lemma JumpIsMarked(f: Function, l: seq<Instruction>, i: nat)
    requires i < |l| && l[i].isJump && IsDirectJump(l[i]) && !l[i].isCall
    ensures JumpTarget(l[i]) in Leaders(f, l)
  {
    hide BranchTarget, JumpTarget;
    MarkedIsLeader(f, l, i, |l|);
    assert JumpTarget(l[i]) in Marked(l, i);
  }

  lemma KeptOutside(f: Function, l: seq<Instruction>, a: nat)
    requires Contiguous(f, l)
    ensures !(f.start <= a < f.end) ==> Kept(l, a) == []
  {
  }

  lemma KeptBeyond(l: seq<Instruction>, a: nat)
    ensures !InListing(l, a) ==> Kept(l, a) == []
  {
  }

  /** A block that ends in no control transfer and no return flows to exactly the next block. */
  lemma PlainBlockSuccessors(f: Function, l: seq<Instruction>, g: Graph, k: nat, e: nat)
    requires IsCfg(f, l, g) && Contiguous(f, l) && StartsBlock(Leaders(f, l), l, k)
    requires e == NextLeader(Leaders(f, l), l, k + 1)
    requires !IsTransfer(Terminator(l[k..e])) && !l[e - 1].isReturn
    ensures l[k].address in g && g[l[k].address].successors == if e < |l| then [l[e].address] else []
  {
    hide NextLeader, Leaders, IsBlocks, Terminator, Balanced, Successors, Skeleton, KeptKey;
    var leaders, s := Leaders(f, l), Skeleton(g);
    BlockInstructions(leaders, l, s, k);
    SkeletonKeys(g);
    assert s[l[k].address].instructions[e - k - 1] == l[e - 1];
    assert (l[e - 1].address + 4) % WORD == f.start + 4 * e;
    NextBlockKey(f, l, s, e);
    PlainSuccessors(f, s, l[k].address);
  }

  lemma SkeletonKeys(g: Graph)
    ensures Skeleton(g).Keys == g.Keys
  {
  }

  lemma PlainSuccessors(f: Function, g: Graph, b: nat)
    requires b in g && |g[b].instructions| > 0 && !IsTransfer(Terminator(g[b].instructions))
    requires !g[b].instructions[|g[b].instructions| - 1].isReturn
    ensures var next := (g[b].instructions[|g[b].instructions| - 1].address + 4) % WORD;
            Successors(f, g, b) == if next <= f.end then KeptKey(g, next) else []
  {
    hide Terminator, BlockOf, BranchTarget, JumpTarget;
  }

  lemma NextBlockKey(f: Function, l: seq<Instruction>, g: Graph, e: nat)
    requires Contiguous(f, l) && IsBlocks(Leaders(f, l), l, g) && e <= |l| &&
        (e < |l| ==> l[e].address in Leaders(f, l))
    ensures KeptKey(g, f.start + 4 * e) == if e < |l| then [l[e].address] else []
  {
    hide NextLeader, Leaders, IsBlocks;
    var next := f.start + 4 * e;
    if e < |l| {
      LeaderIsBlock(f, l, g, next);
      assert InListing(l, next);
    } else {
      EntryStartsBlock(f, l);
      if next in g {
        var j := BlockSpan(Leaders(f, l), l, g, next);
      }
    }
  }
}
