/**
 * The scanner's decision tree: nodes test the word at an offset, edges match it
 * under a relocation mask, and child nodes name symbols. The walk keeps its
 * pending nodes on an explicit stack.
 */
module SymbolTree {
  import opened Bits
  import opened Bytes
  import opened Relocations
  import opened HexText

  datatype Symbol = Symbol(
    library: string,
    name: string,
    hashText: string,
    hash: seq<nat>,
    variant: nat,
    size: nat,
    isFunction: bool,
    relocations: seq<Relocation>)

  datatype Key = Key(library: string, name: string, hash: string, variant: nat)

  datatype Node = Node(offset: nat, next: seq<Edge>, symbols: seq<Key>)

  datatype Edge = Edge(value: nat, kind: RelocationType, child: Node)

  /** Symbol records under their key text. */
  type Database = map<string, Symbol>

  /** makeSymbolKey: the four parts on lines of their own, the variant in eight hex digits. */
  function KeyText(k: Key): string {
    k.library + "\n" + k.name + "\n" + k.hash + "\n" + HexDigits(k.variant, 8)
  }

  /** Keys without line breaks and with 32-bit variants have different texts. */
  lemma KeyTextInjective(k: Key, k': Key)
    requires '\n' !in k.library + k.name + k.hash && '\n' !in k'.library + k'.name + k'.hash
    requires k.variant < 0x1_0000_0000 && k'.variant < 0x1_0000_0000 && KeyText(k) == KeyText(k')
    ensures k == k'
  {
    hide HexDigits, HexValue, KeyText;
    Pow16Word();
    HexRoundTrip(k.variant, 8);
    HexRoundTrip(k'.variant, 8);
    KeyLines(k);
    KeyLines(k');
    var v, v' := HexDigits(k.variant, 8), HexDigits(k'.variant, 8);
    var t, t' := k.hash + "\n" + v, k'.hash + "\n" + v';
    FirstLine(k.library, k'.library, k.name + "\n" + t, k'.name + "\n" + t');
    FirstLine(k.name, k'.name, t, t');
    FirstLine(k.hash, k'.hash, v, v');
  }

  lemma KeyLines(k: Key)
    ensures KeyText(k) == k.library + "\n" + (k.name + "\n" + (k.hash + "\n" + HexDigits(k.variant, 8)))
  {
    hide HexDigits;
  }

  /** The text before the first line break and the text after it are determined. */
  lemma FirstLine(a: string, a': string, b: string, b': string)
    requires '\n' !in a && '\n' !in a' && a + "\n" + b == a' + "\n" + b'
    ensures a == a' && b == b'
  {
    var s := a + "\n" + b;
    assert s[|a|] == '\n' && s[|a'|] == '\n';
    assert a == s[..|a|] && a' == s[..|a'|] && b == s[|a| + 1..] && b' == s[|a'| + 1..];
  }

  function KeyOf(s: Symbol): string {
    KeyText(Key(s.library, s.name, s.hashText, s.variant))
  }

  /** The word that a node tests lies inside the section. */
  predicate InRange(n: Node, size: nat, offset: nat) {
    n.offset + offset + 4 <= size
  }

  function TestedWord(n: Node, data: seq<nat>, offset: nat): nat
    requires InRange(n, |data|, offset)
  {
    ReadLe32(data, offset + n.offset)
  }

  predicate Matches(e: Edge, value: nat) {
    And(value, RelocationMask(e.kind)) == And(e.value, RelocationMask(e.kind))
  }

  // ----- the specification: recursion over the tree

  /** The records of the keys that the database knows, in order. */
  function Known(db: Database, keys: seq<Key>): seq<Symbol> {
    if |keys| == 0 then []
    else
      var init, last := Known(db, keys[..|keys| - 1]), keys[|keys| - 1];
      if KeyText(last) in db then init + [db[KeyText(last)]] else init
  }

  /** The symbols found below a node: those of every child reached by a match. */
  ghost function Walk(db: Database, n: Node, data: seq<nat>, offset: nat): multiset<Symbol>
    decreases n, 1
  {
    if InRange(n, |data|, offset) then WalkEdges(db, n.next, TestedWord(n, data, offset), data, offset) else multiset{}
  }

  ghost function WalkEdges(db: Database, es: seq<Edge>, value: nat, data: seq<nat>, offset: nat): multiset<Symbol>
    decreases es, 0
  {
    if |es| == 0 then multiset{}
    else WalkEdge(db, es[0], value, data, offset) + WalkEdges(db, es[1..], value, data, offset)
  }

  ghost function WalkEdge(db: Database, e: Edge, value: nat, data: seq<nat>, offset: nat): multiset<Symbol>
    decreases e, 0
  {
    if Matches(e, value) then multiset(Known(db, e.child.symbols)) + Walk(db, e.child, data, offset) else multiset{}
  }

  // ----- the specification as paths

  /** The word of the section that node n tests agrees with the value of the edge on every bit that
      the edge's relocation leaves alone. */
  ghost predicate Agrees(n: Node, e: Edge, data: seq<nat>, offset: nat)
    requires InRange(n, |data|, offset)
  {
    forall j: nat :: j < 32 && KeepsBit(e.kind, j) ==>
      (Bit(data[offset + n.offset + j / 8], j % 8) <==> Bit(e.value, j))
  }

  lemma BitTestedWord(n: Node, data: seq<nat>, offset: nat, j: nat)
    requires InRange(n, |data|, offset) && AllBytes(data) && j < 32
    ensures Bit(TestedWord(n, data, offset), j) == Bit(data[offset + n.offset + j / 8], j % 8)
  {
    hide Bit, FromBytes, Pow2;
    var at := offset + n.offset;
    BitFromBytes(data[at..at + 4], j);
  }

  /** The masked comparison of the source is agreement on those bits. */
  lemma MatchesIff(n: Node, e: Edge, data: seq<nat>, offset: nat)
    requires InRange(n, |data|, offset) && AllBytes(data)
    ensures Matches(e, TestedWord(n, data, offset)) <==> Agrees(n, e, data, offset)
  {
    hide And, RelocationMask, TestedWord, Bit, KeepsBit;
    var value, mask := TestedWord(n, data, offset), RelocationMask(e.kind);
    forall j: nat
      ensures Bit(And(value, mask), j) == (Bit(value, j) && KeepsBit(e.kind, j))
      ensures Bit(And(e.value, mask), j) == (Bit(e.value, j) && KeepsBit(e.kind, j))
      ensures j < 32 ==> Bit(value, j) == Bit(data[offset + n.offset + j / 8], j % 8)
      ensures KeepsBit(e.kind, j) ==> j < 32
    {
      BitAnd(value, mask, j);
      BitAnd(e.value, mask, j);
      MaskBits(e.kind, j);
      if j < 32 { BitTestedWord(n, data, offset, j); }
      KeptBelow(e.kind, j);
    }
    if Agrees(n, e, data, offset) { SameBits(And(value, mask), And(e.value, mask)); }
  }

  lemma KeptBelow(t: RelocationType, j: nat)
    ensures KeepsBit(t, j) ==> j < 32
  {
  }

  /** Following the edges with the given positions from n, every one agreeing with the section, leads
      to m. */
  ghost predicate Leads(n: Node, path: seq<nat>, m: Node, data: seq<nat>, offset: nat)
    decreases |path|
  {
    if |path| == 0 then n == m
    else
      && InRange(n, |data|, offset) && path[0] < |n.next|
      && Agrees(n, n.next[path[0]], data, offset)
      && Leads(n.next[path[0]].child, path[1..], m, data, offset)
  }

  ghost predicate HeldBelow(db: Database, n: Node, s: Symbol, data: seq<nat>, offset: nat) {
    exists path, m :: |path| > 0 && Leads(n, path, m, data, offset) && s in Known(db, m.symbols)
  }

  lemma {:induction false} WalkEdgesMember(db: Database, es: seq<Edge>, value: nat, data: seq<nat>, offset: nat,
      s: Symbol)
    ensures s in WalkEdges(db, es, value, data, offset) <==>
            exists i :: 0 <= i < |es| && Matches(es[i], value) &&
                        (s in Known(db, es[i].child.symbols) || s in Walk(db, es[i].child, data, offset))
  {
    if |es| > 0 {
      WalkEdgesMember(db, es[1..], value, data, offset, s);
      assert forall i :: 0 <= i < |es| - 1 ==> es[1..][i] == es[i + 1];
    }
  }

  /** A symbol is found exactly when a non-root node that holds it is reached through matches. */
  lemma WalkIffHeldBelow(db: Database, n: Node, data: seq<nat>, offset: nat, s: Symbol)
    requires AllBytes(data)
    ensures s in Walk(db, n, data, offset) <==> HeldBelow(db, n, s, data, offset)
  {
    if s in Walk(db, n, data, offset) { WalkIsHeld(db, n, data, offset, s); }
    if HeldBelow(db, n, s, data, offset) {
      var path, m :| |path| > 0 && Leads(n, path, m, data, offset) && s in Known(db, m.symbols);
      HeldIsWalked(db, n, path, m, data, offset, s);
    }
  }

  lemma {:induction false} WalkIsHeld(db: Database, n: Node, data: seq<nat>, offset: nat, s: Symbol)
    requires AllBytes(data) && s in Walk(db, n, data, offset)
    ensures HeldBelow(db, n, s, data, offset)
    decreases n
  {
    hide Matches, TestedWord, Known, Agrees, AllBytes;
    var value := TestedWord(n, data, offset);
    WalkEdgesMember(db, n.next, value, data, offset, s);
    var i :| 0 <= i < |n.next| && Matches(n.next[i], value) &&
      (s in Known(db, n.next[i].child.symbols) || s in Walk(db, n.next[i].child, data, offset));
    var child := n.next[i].child;
    MatchesIff(n, n.next[i], data, offset);
    if s in Known(db, child.symbols) {
      StepLeads(n, i, [], child, data, offset);
    } else {
      assert n.next[i] < n;
      WalkIsHeld(db, child, data, offset, s);
      var path, m :| |path| > 0 && Leads(child, path, m, data, offset) && s in Known(db, m.symbols);
      StepLeads(n, i, path, m, data, offset);
    }
  }

  lemma {:induction false} HeldIsWalked(db: Database, n: Node, path: seq<nat>, m: Node, data: seq<nat>, offset: nat,
      s: Symbol)
    requires AllBytes(data) && |path| > 0 && Leads(n, path, m, data, offset) && s in Known(db, m.symbols)
    ensures s in Walk(db, n, data, offset)
    decreases |path|
  {
    hide Matches, TestedWord, Known, Agrees, AllBytes;
    MatchesIff(n, n.next[path[0]], data, offset);
    var child := n.next[path[0]].child;
    if |path| > 1 {
      HeldIsWalked(db, child, path[1..], m, data, offset, s);
    }
    WalkEdgesMember(db, n.next, TestedWord(n, data, offset), data, offset, s);
  }

  lemma StepLeads(n: Node, i: nat, path: seq<nat>, m: Node, data: seq<nat>, offset: nat)
    requires InRange(n, |data|, offset) && i < |n.next| && Agrees(n, n.next[i], data, offset)
    requires Leads(n.next[i].child, path, m, data, offset)
    ensures Leads(n, [i] + path, m, data, offset)
    ensures path == [] ==> [i] + path == [i]
  {
    assert ([i] + path)[1..] == path;
  }

  // ----- the walk with an explicit stack

  ghost function Size(n: Node): nat
    decreases n, 1
  {
    1 + EdgesSize(n.next)
  }

  ghost function EdgesSize(es: seq<Edge>): nat
    decreases es, 0
  {
    if |es| == 0 then 0 else EdgeSize(es[0]) + EdgesSize(es[1..])
  }

  ghost function EdgeSize(e: Edge): nat
    decreases e, 0
  {
    Size(e.child)
  }

  ghost function StackSize(stack: seq<Node>): nat {
    if |stack| == 0 then 0 else StackSize(stack[..|stack| - 1]) + Size(stack[|stack| - 1])
  }

  ghost function WalkStack(db: Database, stack: seq<Node>, data: seq<nat>, offset: nat): multiset<Symbol> {
    if |stack| == 0 then multiset{}
    else WalkStack(db, stack[..|stack| - 1], data, offset) + Walk(db, stack[|stack| - 1], data, offset)
  }

  lemma PushStack(db: Database, stack: seq<Node>, n: Node, data: seq<nat>, offset: nat)
    ensures StackSize(stack + [n]) == StackSize(stack) + Size(n)
    ensures WalkStack(db, stack + [n], data, offset) == WalkStack(db, stack, data, offset) + Walk(db, n, data, offset)
  {
    assert (stack + [n])[..|stack|] == stack;
  }

  lemma WalkLeaf(db: Database, n: Node, data: seq<nat>, offset: nat)
    requires n.next == []
    ensures Walk(db, n, data, offset) == multiset{}
  {
  }

  lemma KnownAppend(db: Database, keys: seq<Key>, k: nat)
    requires k < |keys|
    ensures Known(db, keys[..k + 1]) ==
            if KeyText(keys[k]) in db then Known(db, keys[..k]) + [db[KeyText(keys[k])]] else Known(db, keys[..k])
  {
    assert keys[..k + 1][..k] == keys[..k];
  }

  method AppendKnown(db: Database, keys: seq<Key>, symbols: seq<Symbol>) returns (symbols': seq<Symbol>)
    ensures symbols' == symbols + Known(db, keys)
  {
    hide KeyText;
    symbols' := symbols;
    for k := 0 to |keys|
      invariant symbols' == symbols + Known(db, keys[..k])
    {
      KnownAppend(db, keys, k);
      if KeyText(keys[k]) in db { symbols' := symbols' + [db[KeyText(keys[k])]]; }
    }
    assert keys[..|keys|] == keys;
  }

  /** Tests one edge, collecting the child's symbols and pushing the child if it has edges. */
  method ExpandEdge(db: Database, edge: Edge, value: nat, data: seq<nat>, offset: nat, symbols: seq<Symbol>,
      stack: seq<Node>)
      returns (symbols': seq<Symbol>, stack': seq<Node>)
    ensures multiset(symbols') + WalkStack(db, stack', data, offset)
         == multiset(symbols) + WalkStack(db, stack, data, offset) + WalkEdge(db, edge, value, data, offset)
    ensures StackSize(stack') <= StackSize(stack) + EdgeSize(edge)
  {
    hide And, RelocationMask;
    symbols', stack' := symbols, stack;
    if Matches(edge, value) {
      symbols' := AppendKnown(db, edge.child.symbols, symbols);
      if edge.child.next != [] {
        PushStack(db, stack, edge.child, data, offset);
        stack' := stack + [edge.child];
      } else {
        WalkLeaf(db, edge.child, data, offset);
      }
    }
  }

  /** Tests every edge of one node. */
  method ExpandNode(db: Database, node: Node, data: seq<nat>, offset: nat, symbols: seq<Symbol>, stack: seq<Node>)
      returns (symbols': seq<Symbol>, stack': seq<Node>)
    requires InRange(node, |data|, offset)
    ensures multiset(symbols') + WalkStack(db, stack', data, offset)
         == multiset(symbols) + WalkStack(db, stack, data, offset) + Walk(db, node, data, offset)
    ensures StackSize(stack') < StackSize(stack) + Size(node)
  {
    hide WalkEdge, WalkStack, StackSize, EdgeSize, FromBytes;
    var value := TestedWord(node, data, offset);
    symbols', stack' := symbols, stack;
    var i := 0;
    while i < |node.next|
      invariant 0 <= i <= |node.next|
      invariant multiset(symbols') + WalkStack(db, stack', data, offset) +
          WalkEdges(db, node.next[i..], value, data, offset)
             == multiset(symbols) + WalkStack(db, stack, data, offset) + Walk(db, node, data, offset)
      invariant StackSize(stack') + EdgesSize(node.next[i..]) <= StackSize(stack) + EdgesSize(node.next)
    {
      assert node.next[i..][0] == node.next[i] && node.next[i..][1..] == node.next[i + 1..];
      symbols', stack' := ExpandEdge(db, node.next[i], value, data, offset, symbols', stack');
      i := i + 1;
    }
    assert node.next[i..] == [];
  }

  /** findCandidateSymbols: all symbols below the root, as the recursive definition counts them; no
      word outside the section is read, and the total size of the pending subtrees goes down. */
  method FindCandidateSymbols(db: Database, root: Node, data: seq<nat>, offset: nat) returns (symbols: seq<Symbol>)
    ensures multiset(symbols) == Walk(db, root, data, offset)
  {
    symbols := [];
    var stack := [root];
    PushStack(db, [], root, data, offset);
    assert [] + [root] == [root];
    while |stack| > 0
      invariant multiset(symbols) + WalkStack(db, stack, data, offset) == Walk(db, root, data, offset)
      decreases StackSize(stack)
    {
      var node := stack[|stack| - 1];
      stack := stack[..|stack| - 1];
      if !(node.offset > |data| || offset > |data| - node.offset || |data| - offset - node.offset < 4) {
        symbols, stack := ExpandNode(db, node, data, offset, symbols, stack);
      }
    }
  }
}
