/**
 * The analyzer's search for recursive functions: one depth-first pass that
 * numbers functions, tracks low links and emits strongly connected components.
 */
module Tarjan {
  import opened CallGraph

  /** The variables captured by the recursive closure of the source. */
  datatype State = State(
    index: map<Name, int>,
    lowlink: map<Name, int>,
    onStack: set<Name>,
    stack: seq<Name>,
    count: int,
    sccs: seq<seq<Name>>)

  // ----- components

  ghost function Elements(c: seq<Name>): set<Name> {
    set x | x in c
  }

  ghost function Emitted(sccs: seq<seq<Name>>): set<Name> {
    if |sccs| == 0 then {} else Emitted(sccs[..|sccs| - 1]) + Elements(sccs[|sccs| - 1])
  }

  ghost predicate NoDuplicates(c: seq<Name>) {
    forall i, j :: 0 <= i < j < |c| ==> c[i] != c[j]
  }

  ghost predicate Mutual(g: Graph, x: Name, y: Name) {
    Reaches(g, x, y) && Reaches(g, y, x)
  }

  /** A maximal set of mutually reachable names. */
  ghost predicate IsComponent(g: Graph, c: seq<Name>) {
    |c| > 0 && forall x, y :: x in c ==> (y in c <==> Mutual(g, x, y))
  }

  /** Emitted components are disjoint, maximal, and call only themselves or earlier ones. */
  ghost predicate ComponentsOk(g: Graph, sccs: seq<seq<Name>>) {
    |sccs| == 0 ||
    var init, last := sccs[..|sccs| - 1], sccs[|sccs| - 1];
    && ComponentsOk(g, init)
    && IsComponent(g, last) && NoDuplicates(last)
    && Elements(last) !! Emitted(init)
    && Closed(g, Emitted(sccs))
  }

  lemma EmittedAppend(sccs: seq<seq<Name>>, c: seq<Name>)
    ensures Emitted(sccs + [c]) == Emitted(sccs) + Elements(c)
  {
    assert (sccs + [c])[..|sccs|] == sccs;
  }

  lemma ComponentsOkAppend(g: Graph, sccs: seq<seq<Name>>, c: seq<Name>)
    requires ComponentsOk(g, sccs) && IsComponent(g, c) && NoDuplicates(c)
    requires Elements(c) !! Emitted(sccs) && Closed(g, Emitted(sccs) + Elements(c))
    ensures ComponentsOk(g, sccs + [c])
  {
    assert (sccs + [c])[..|sccs|] == sccs;
    EmittedAppend(sccs, c);
  }

  // ----- the invariant, in independent pieces

  ghost predicate Tables(s: State) {
    && s.lowlink.Keys == s.index.Keys
    && s.onStack == Elements(s.stack)
    && 0 <= s.count
    && (forall x :: x in s.index ==> 0 <= s.index[x] < s.count)
    && (forall x :: x in s.stack ==> x in s.index)
    && (forall i, j :: 0 <= i < j < |s.stack| ==> s.index[s.stack[i]] < s.index[s.stack[j]])
  }

  ghost predicate Partitioned(g: Graph, s: State, nodes: set<Name>) {
    && s.index.Keys <= nodes
    && s.index.Keys == s.onStack + Emitted(s.sccs)
    && s.onStack !! Emitted(s.sccs)
    && ComponentsOk(g, s.sccs)
    && Closed(g, Emitted(s.sccs))
  }

  /** Finished names have all their callees numbered. */
  ghost predicate FinishedSeeNumbered(g: Graph, s: State, active: set<Name>) {
    forall x, y :: x in s.index && x !in active && Edge(g, x, y) ==> y in s.index
  }

  ghost predicate StackOrdered(g: Graph, stack: seq<Name>) {
    forall i, j :: 0 <= i <= j < |stack| ==> Reaches(g, stack[i], stack[j])
  }

  ghost predicate ReachesActiveBelow(g: Graph, stack: seq<Name>, active: set<Name>, j: int)
    requires 0 <= j < |stack|
  {
    exists i :: 0 <= i <= j && stack[i] in active && Reaches(g, stack[j], stack[i])
  }

  ghost predicate StackAnchored(g: Graph, stack: seq<Name>, active: set<Name>) {
    forall j :: 0 <= j < |stack| ==> ReachesActiveBelow(g, stack, active, j)
  }

  ghost predicate Invariant(g: Graph, nodes: set<Name>, s: State, active: set<Name>) {
    && Tables(s)
    && Partitioned(g, s, nodes)
    && active <= s.onStack
    && FinishedSeeNumbered(g, s, active)
    && StackOrdered(g, s.stack)
    && StackAnchored(g, s.stack, active)
  }

  // ----- entering a name

  function Entered(s: State, v: Name): State {
    State(s.index[v := s.count], s.lowlink[v := s.count], s.onStack + {v}, s.stack + [v], s.count + 1, s.sccs)
  }

  lemma EnterStack(g: Graph, stack: seq<Name>, active: set<Name>, v: Name)
    requires StackOrdered(g, stack) && StackAnchored(g, stack, active)
    requires forall x :: x in active ==> Reaches(g, x, v)
    ensures StackOrdered(g, stack + [v]) && StackAnchored(g, stack + [v], active + {v})
  {
    var stack' := stack + [v];
    forall i, j | 0 <= i <= j < |stack'|
      ensures Reaches(g, stack'[i], stack'[j])
    {
      if j == |stack| {
        if i == j {
          ReachesSelf(g, v);
        } else {
          assert ReachesActiveBelow(g, stack, active, i);
          var a :| 0 <= a <= i && stack[a] in active && Reaches(g, stack[i], stack[a]);
          ReachesTransitive(g, stack[i], stack[a], v);
        }
      }
    }
    forall j | 0 <= j < |stack'|
      ensures ReachesActiveBelow(g, stack', active + {v}, j)
    {
      if j == |stack| {
        ReachesSelf(g, v);
        assert stack'[j] == v && v in active + {v};
      } else {
        assert ReachesActiveBelow(g, stack, active, j);
        var a :| 0 <= a <= j && stack[a] in active && Reaches(g, stack[j], stack[a]);
        assert stack'[a] == stack[a];
      }
    }
  }

  lemma EnterKeepsInvariant(g: Graph, nodes: set<Name>, s: State, active: set<Name>, v: Name)
    requires Invariant(g, nodes, s, active)
    requires v in nodes && v !in s.index
    requires forall x :: x in active ==> Reaches(g, x, v)
    ensures Invariant(g, nodes, Entered(s, v), active + {v})
  {
    EnterStack(g, s.stack, active, v);
    var s' := Entered(s, v);
    assert Elements(s'.stack) == Elements(s.stack) + {v} by {
      assert s'.stack[|s.stack|] == v;
    }
    assert s'.index.Keys == s.index.Keys + {v};
    assert v !in Emitted(s.sccs);
  }

  // ----- what a call of strongconnect achieves

  /** Numbers, low links and the stack of s0 survive in s1. */
  ghost predicate Extends(s0: State, s1: State) {
    && s0.index.Keys <= s1.index.Keys
    && s0.index.Keys <= s0.lowlink.Keys && s0.index.Keys <= s1.lowlink.Keys
    && (forall x :: x in s0.index ==> s1.index[x] == s0.index[x] && s1.lowlink[x] == s0.lowlink[x])
    && s0.stack <= s1.stack
    && s0.sccs <= s1.sccs
    && s0.count <= s1.count
  }

  /** The low link n is the number of a stacked name at or below position top that v reaches. */
  ghost predicate LowWitness(g: Graph, stack: seq<Name>, index: map<Name, int>, v: Name, n: int, top: int) {
    exists i :: 0 <= i <= top && i < |stack| && stack[i] in index && n == index[stack[i]] && Reaches(g, v, stack[i])
  }

  /** No stacked name at or above base calls a name of below that is numbered lower than n; the
      name at base itself is charged only for its callees in seen. */
  ghost predicate LowBound(g: Graph, stack: seq<Name>, index: map<Name, int>, base: nat, below: set<Name>,
      seen: seq<Name>, n: int) {
    forall j, z :: base <= j < |stack| && Edge(g, stack[j], z) && (j == base ==> z in seen) && z in below && z in index
                   ==> n <= index[z]
  }

  /** No stacked name at or above base calls a name of below that is numbered lower than n. */
  ghost predicate LowBoundAll(g: Graph, stack: seq<Name>, index: map<Name, int>, base: nat, below: set<Name>, n: int) {
    forall j, z :: base <= j < |stack| && Edge(g, stack[j], z) && z in below && z in index ==> n <= index[z]
  }

  ghost predicate Connected(g: Graph, s0: State, s1: State, v: Name) {
    && Extends(s0, s1)
    && v in s1.index && v in s1.lowlink && s1.index[v] == s0.count
    && (if |s1.stack| == |s0.stack| then s1.lowlink[v] == s1.index[v]
        else LowWitness(g, s1.stack, s1.index, v, s1.lowlink[v], |s0.stack| - 1))
    && LowBoundAll(g, s1.stack, s1.index, |s0.stack|, s0.onStack, s1.lowlink[v])
  }

  ghost predicate ScanFrame(s0: State, s: State, v: Name, seen: seq<Name>) {
    && Extends(s0, s)
    && v in s.index && v in s.lowlink && s.index[v] == s0.count
    && s0.stack + [v] <= s.stack
    && (forall z :: z in seen ==> z in s.index)
  }

  /** The state of the callee loop of v after the callees in seen. */
  ghost predicate Scanning(g: Graph, s0: State, s: State, v: Name, seen: seq<Name>) {
    && ScanFrame(s0, s, v, seen)
    && LowWitness(g, s.stack, s.index, v, s.lowlink[v], |s0.stack|)
    && LowBound(g, s.stack, s.index, |s0.stack|, s0.onStack, seen, s.lowlink[v])
  }

  function Min(a: int, b: int): int {
    if b < a then b else a
  }

  function WithLow(s: State, v: Name, n: int): State
    requires v in s.lowlink
  {
    s.(lowlink := s.lowlink[v := Min(s.lowlink[v], n)])
  }

  lemma EnterStartsScan(g: Graph, nodes: set<Name>, s0: State, active: set<Name>, v: Name)
    requires Invariant(g, nodes, s0, active) && v !in s0.index
    ensures Scanning(g, s0, Entered(s0, v), v, [])
  {
    var s := Entered(s0, v);
    ReachesSelf(g, v);
    assert s.stack[|s0.stack|] == v;
  }

  lemma LowerKeepsInvariant(g: Graph, nodes: set<Name>, s: State, active: set<Name>, v: Name, n: int)
    requires Invariant(g, nodes, s, active) && v in s.index
    ensures Invariant(g, nodes, WithLow(s, v, n), active)
  {
  }

  lemma StackSurvives(s0: State, s: State)
    requires s0.stack <= s.stack && s0.onStack == Elements(s0.stack) && s.onStack == Elements(s.stack)
    ensures s0.onStack <= s.onStack
  {
    forall z | z in s0.onStack
      ensures z in s.onStack
    {
      var i :| 0 <= i < |s0.stack| && s0.stack[i] == z;
      assert s.stack[i] == z;
    }
  }

  lemma LowIsAtOrBelow(g: Graph, s: State, v: Name, top: nat)
    requires Tables(s) && v in s.index && top < |s.stack| && s.stack[top] == v
    requires LowWitness(g, s.stack, s.index, v, s.lowlink[v], top)
    ensures s.lowlink[v] <= s.index[v]
  {
  }

  /** A callee that is numbered and no longer stacked changes nothing. */
  lemma ScanSkips(g: Graph, s0: State, s: State, v: Name, seen: seq<Name>, w: Name)
    requires Tables(s0) && Tables(s)
    requires Scanning(g, s0, s, v, seen) && w in s.index && w !in s.onStack
    ensures Scanning(g, s0, s, v, seen + [w])
  {
    StackSurvives(s0, s);
  }

  /** A stacked callee lowers the link to its number. */
  lemma ScanLowers(g: Graph, s0: State, s: State, v: Name, seen: seq<Name>, w: Name)
    requires Tables(s) && v !in s0.index
    requires Scanning(g, s0, s, v, seen) && w in s.onStack && Edge(g, v, w)
    ensures Scanning(g, s0, WithLow(s, v, s.index[w]), v, seen + [w])
  {
    var base := |s0.stack|;
    assert s.stack[base] == v;
    LowIsAtOrBelow(g, s, v, base);
    assert LowWitness(g, s.stack, s.index, v, Min(s.lowlink[v], s.index[w]), base) by {
      LowerWitness(g, s, v, w, base);
    }
    assert LowBound(g, s.stack, s.index, base, s0.onStack, seen + [w], Min(s.lowlink[v], s.index[w])) by {
      LowerBound(g, s, base, s0.onStack, seen, w, s.lowlink[v]);
    }
    assert ScanFrame(s0, WithLow(s, v, s.index[w]), v, seen + [w]);
  }

  lemma LowerWitness(g: Graph, s: State, v: Name, w: Name, base: nat)
    requires Tables(s) && base < |s.stack| && s.stack[base] == v && s.lowlink[v] <= s.index[v]
    requires LowWitness(g, s.stack, s.index, v, s.lowlink[v], base)
    requires w in s.onStack && Edge(g, v, w)
    ensures LowWitness(g, s.stack, s.index, v, Min(s.lowlink[v], s.index[w]), base)
  {
    if s.index[w] < s.lowlink[v] {
      var i :| 0 <= i < |s.stack| && s.stack[i] == w;
      EdgeReaches(g, v, w);
      assert i <= base && Reaches(g, v, s.stack[i]);
    }
  }

  lemma LowerBound(g: Graph, s: State, base: nat, below: set<Name>, seen: seq<Name>, w: Name, n: int)
    requires w in s.index && LowBound(g, s.stack, s.index, base, below, seen, n)
    ensures LowBound(g, s.stack, s.index, base, below, seen + [w], Min(n, s.index[w]))
  {
  }

  /** A callee explored by a nested call passes its low link up. */
  lemma ScanDescends(g: Graph, s0: State, s: State, s1: State, v: Name, seen: seq<Name>, w: Name)
    requires Tables(s0) && Tables(s) && Tables(s1)
    requires v !in s0.index && w !in s.index && Edge(g, v, w)
    requires Scanning(g, s0, s, v, seen) && Connected(g, s, s1, w)
    ensures Scanning(g, s0, WithLow(s1, v, s1.lowlink[w]), v, seen + [w])
  {
    var base := |s0.stack|;
    var n := Min(s1.lowlink[v], s1.lowlink[w]);
    assert s.stack[base] == v && s1.stack[base] == v;
    assert LowWitness(g, s1.stack, s1.index, v, n, base) by {
      EdgeReaches(g, v, w);
      LowIsAtOrBelow(g, s, v, base);
      DescendWitness(g, s, s1, v, w, base);
    }
    assert LowBound(g, s1.stack, s1.index, base, s0.onStack, seen + [w], n) by {
      StackSurvives(s0, s);
      DescendBound(g, s, s1, v, s0.onStack, seen, w, base);
    }
    DescendFrame(s0, s, s1, v, seen, w);
  }

  lemma DescendFrame(s0: State, s: State, s1: State, v: Name, seen: seq<Name>, w: Name)
    requires ScanFrame(s0, s, v, seen) && Extends(s, s1) && w in s1.index && v !in s0.index && w in s1.lowlink
    ensures ScanFrame(s0, WithLow(s1, v, s1.lowlink[w]), v, seen + [w])
  {
    assert s0.stack <= s1.stack;
  }

  lemma DescendWitness(g: Graph, s: State, s1: State, v: Name, w: Name, base: nat)
    requires Tables(s) && Tables(s1) && Reaches(g, v, w) && Connected(g, s, s1, w)
    requires base < |s.stack| && s.stack[base] == v && s.lowlink[v] <= s.index[v]
    requires LowWitness(g, s.stack, s.index, v, s.lowlink[v], base)
    ensures LowWitness(g, s1.stack, s1.index, v, Min(s1.lowlink[v], s1.lowlink[w]), base)
  {
    assert s1.stack[base] == v;
    if s1.lowlink[w] < s1.lowlink[v] {
      var i :| 0 <= i <= |s.stack| - 1 && i < |s1.stack| && s1.stack[i] in s1.index
        && s1.lowlink[w] == s1.index[s1.stack[i]] && Reaches(g, w, s1.stack[i]);
      ReachesTransitive(g, v, w, s1.stack[i]);
      assert i <= base;
    } else {
      var i :| 0 <= i <= base && i < |s.stack| && s.stack[i] in s.index
        && s.lowlink[v] == s.index[s.stack[i]] && Reaches(g, v, s.stack[i]);
      assert s1.stack[i] == s.stack[i];
    }
  }

  lemma DescendBound(g: Graph, s: State, s1: State, v: Name, below: set<Name>, seen: seq<Name>, w: Name, base: nat)
    requires Tables(s) && w !in s.index && Connected(g, s, s1, w) && below <= s.onStack
    requires base < |s.stack| && s.stack[base] == v && v in s.index
    requires LowBound(g, s.stack, s.index, base, below, seen, s.lowlink[v])
    ensures LowBound(g, s1.stack, s1.index, base, below, seen + [w], Min(s1.lowlink[v], s1.lowlink[w]))
  {
    forall j, z | base <= j < |s1.stack| && Edge(g, s1.stack[j], z) && (j == base ==> z in seen + [w])
                  && z in below && z in s1.index
      ensures Min(s1.lowlink[v], s1.lowlink[w]) <= s1.index[z]
    {
      assert z in s.index;
      if j < |s.stack| {
        assert s1.stack[j] == s.stack[j];
      }
    }
  }

  // ----- leaving a name

  /** A name whose link points below itself stays stacked as finished. */
  lemma LeaveKeepsInvariant(g: Graph, nodes: set<Name>, s0: State, s: State, active: set<Name>, v: Name,
      callees: seq<Name>)
    requires Invariant(g, nodes, s0, active) && v !in s0.index && v !in active
    requires Invariant(g, nodes, s, active + {v}) && Scanning(g, s0, s, v, callees)
    requires forall z :: Edge(g, v, z) ==> z in callees
    requires s.lowlink[v] != s.index[v]
    ensures Invariant(g, nodes, s, active) && Connected(g, s0, s, v)
  {
    var base := |s0.stack|;
    assert s.stack[base] == v;
    var i :| 0 <= i <= base && i < |s.stack| && s.stack[i] in s.index
      && s.lowlink[v] == s.index[s.stack[i]] && Reaches(g, v, s.stack[i]);
    assert i < base;
    LeaveStack(g, s.stack, active, v, base, i);
    PopFinished(g, nodes, s0, s, active, v, callees);
    assert LowWitness(g, s.stack, s.index, v, s.lowlink[v], |s0.stack| - 1);
    LeaveBound(g, s.stack, s.index, base, s0.onStack, callees, s.lowlink[v]);
  }

  lemma LeaveBound(g: Graph, stack: seq<Name>, index: map<Name, int>, base: nat, below: set<Name>, callees: seq<Name>,
      n: int)
    requires base < |stack| && LowBound(g, stack, index, base, below, callees, n)
    requires forall z :: Edge(g, stack[base], z) ==> z in callees
    ensures LowBoundAll(g, stack, index, base, below, n)
  {
  }

  lemma LeaveStack(g: Graph, stack: seq<Name>, active: set<Name>, v: Name, base: nat, i: nat)
    requires StackAnchored(g, stack, active + {v})
    requires i < base < |stack| && stack[base] == v && Reaches(g, v, stack[i])
    requires forall k :: 0 <= k < |stack| && k != base ==> stack[k] != v
    ensures StackAnchored(g, stack, active)
  {
    assert ReachesActiveBelow(g, stack, active + {v}, i);
    var a :| 0 <= a <= i && stack[a] in active + {v} && Reaches(g, stack[i], stack[a]);
    assert stack[a] in active;
    ReachesTransitive(g, v, stack[i], stack[a]);
    forall j | 0 <= j < |stack|
      ensures ReachesActiveBelow(g, stack, active, j)
    {
      assert ReachesActiveBelow(g, stack, active + {v}, j);
      var b :| 0 <= b <= j && stack[b] in active + {v} && Reaches(g, stack[j], stack[b]);
      if stack[b] == v {
        ReachesTransitive(g, stack[j], v, stack[a]);
        assert a <= j;
      }
    }
  }

  /** The state after popping the stack down to position base into component c. */
  function Popped(s: State, base: nat, c: seq<Name>): State
    requires base <= |s.stack|
  {
    State(s.index, s.lowlink, s.onStack - (set x | x in s.stack[base..]), s.stack[..base], s.count, s.sccs + [c])
  }

  ghost predicate SameNames(c: seq<Name>, suffix: seq<Name>) {
    NoDuplicates(c) && Elements(c) == Elements(suffix)
  }

  /** The callees of the popped suffix are inside it or already emitted. */
  lemma SuffixClosed(g: Graph, nodes: set<Name>, s0: State, s: State, active: set<Name>, v: Name, callees: seq<Name>)
    requires Invariant(g, nodes, s0, active) && v !in s0.index && v !in active
    requires Invariant(g, nodes, s, active + {v}) && Scanning(g, s0, s, v, callees)
    requires forall z :: Edge(g, v, z) ==> z in callees
    requires s.lowlink[v] == s.index[v]
    ensures Closed(g, Emitted(s.sccs) + Elements(s.stack[|s0.stack|..]))
  {
    var base := |s0.stack|;
    assert s.stack[base] == v;
    LeaveBound(g, s.stack, s.index, base, s0.onStack, callees, s.lowlink[v]);
    forall x, y | x in Emitted(s.sccs) + Elements(s.stack[base..]) && Edge(g, x, y)
      ensures y in Emitted(s.sccs) + Elements(s.stack[base..])
    {
      if x !in Emitted(s.sccs) {
        var j :| base <= j < |s.stack| && s.stack[j] == x;
        SuffixNumbered(g, nodes, s0, s, active, v, callees, j, y);
        assert y !in s0.onStack;
        if y in s.onStack {
          NotBelowIsAbove(s0, s, y);
        }
      }
    }
  }

  lemma NotBelowIsAbove(s0: State, s: State, y: Name)
    requires Tables(s0) && Tables(s) && s0.stack <= s.stack && y in s.onStack && y !in s0.onStack
    ensures y in Elements(s.stack[|s0.stack|..])
  {
    var i :| 0 <= i < |s.stack| && s.stack[i] == y;
    assert forall k :: 0 <= k < |s0.stack| ==> s.stack[k] == s0.stack[k] && s.stack[k] in s0.onStack;
    assert y == s.stack[|s0.stack|..][i - |s0.stack|];
  }

  lemma SuffixNumbered(g: Graph, nodes: set<Name>, s0: State, s: State, active: set<Name>, v: Name,
      callees: seq<Name>, j: nat, y: Name)
    requires Invariant(g, nodes, s0, active) && v !in active
    requires Invariant(g, nodes, s, active + {v}) && Scanning(g, s0, s, v, callees)
    requires forall z :: Edge(g, v, z) ==> z in callees
    requires |s0.stack| <= j < |s.stack| && Edge(g, s.stack[j], y)
    ensures y in s.index
  {
    var base := |s0.stack|;
    assert s.stack[base] == v;
    if j != base {
      SuffixNotActive(s0, s, active, v);
    }
  }

  lemma SuffixIsComponent(g: Graph, s: State, active: set<Name>, v: Name, base: nat, c: seq<Name>)
    requires Tables(s) && StackOrdered(g, s.stack) && StackAnchored(g, s.stack, active + {v})
    requires base < |s.stack| && s.stack[base] == v
    requires forall k :: base < k < |s.stack| ==> s.stack[k] !in active + {v}
    requires Closed(g, Emitted(s.sccs)) && s.onStack !! Emitted(s.sccs)
    requires Closed(g, Emitted(s.sccs) + Elements(s.stack[base..]))
    requires SameNames(c, s.stack[base..])
    ensures IsComponent(g, c)
  {
    assert v == s.stack[base..][0];
    assert v in Elements(c);
    forall x | x in c
      ensures Mutual(g, x, v)
    {
      assert x in Elements(c);
      var j :| base <= j < |s.stack| && s.stack[j] == x;
      assert ReachesActiveBelow(g, s.stack, active + {v}, j);
      var a :| 0 <= a <= j && s.stack[a] in active + {v} && Reaches(g, s.stack[j], s.stack[a]);
      assert a <= base;
      ReachesTransitive(g, x, s.stack[a], v);
    }
    forall x, y | x in c
      ensures y in c <==> Mutual(g, x, y)
    {
      if y in c {
        ReachesTransitive(g, x, v, y);
        ReachesTransitive(g, y, v, x);
      }
      if Mutual(g, x, y) {
        assert x in Elements(c);
        ReachesStaysInside(g, Emitted(s.sccs) + Elements(s.stack[base..]), x, y);
        assert x in s.onStack;
        if y in Emitted(s.sccs) {
          ReachesStaysInside(g, Emitted(s.sccs), y, x);
          assert false;
        }
        assert y in Elements(c);
      }
    }
  }

  /** Emitting the component of a root restores the invariant of the caller. */
  lemma PopKeepsInvariant(g: Graph, nodes: set<Name>, s0: State, s: State, active: set<Name>, v: Name,
                          callees: seq<Name>, c: seq<Name>)
    requires Invariant(g, nodes, s0, active) && v !in s0.index && v !in active
    requires Invariant(g, nodes, s, active + {v}) && Scanning(g, s0, s, v, callees)
    requires forall z :: Edge(g, v, z) ==> z in callees
    requires s.lowlink[v] == s.index[v]
    requires SameNames(c, s.stack[|s0.stack|..])
    ensures Invariant(g, nodes, Popped(s, |s0.stack|, c), active)
    ensures Connected(g, s0, Popped(s, |s0.stack|, c), v)
  {
    var base := |s0.stack|;
    var s' := Popped(s, base, c);
    assert s.stack[base] == v;
    assert s'.stack == s0.stack;
    SuffixClosed(g, nodes, s0, s, active, v, callees);
    SuffixNotActive(s0, s, active, v);
    SuffixIsComponent(g, s, active, v, base, c);
    SplitStack(s, base);
    assert Elements(c) !! Emitted(s.sccs);
    ComponentsOkAppend(g, s.sccs, c);
    EmittedAppend(s.sccs, c);
    PopFinished(g, nodes, s0, s, active, v, callees);
  }

  lemma SuffixNotActive(s0: State, s: State, active: set<Name>, v: Name)
    requires Tables(s0) && Tables(s) && active <= s0.onStack && Extends(s0, s)
    requires v in s.index && s.index[v] == s0.count && s0.stack + [v] <= s.stack
    ensures forall k :: |s0.stack| < k < |s.stack| ==> s.stack[k] !in active + {v}
  {
    var base := |s0.stack|;
    assert s.stack[base] == v;
    forall k | base < k < |s.stack|
      ensures s.stack[k] !in active + {v}
    {
      assert s.index[v] < s.index[s.stack[k]];
      assert forall x :: x in active ==> x in s0.index && s.index[x] < s0.count;
    }
  }

  lemma SplitStack(s: State, base: nat)
    requires Tables(s) && base <= |s.stack|
    ensures Elements(s.stack[..base]) + Elements(s.stack[base..]) == s.onStack
    ensures Elements(s.stack[..base]) !! Elements(s.stack[base..])
  {
    assert s.stack == s.stack[..base] + s.stack[base..];
  }

  lemma PopFinished(g: Graph, nodes: set<Name>, s0: State, s: State, active: set<Name>, v: Name, callees: seq<Name>)
    requires Invariant(g, nodes, s0, active) && v !in active
    requires Invariant(g, nodes, s, active + {v}) && Scanning(g, s0, s, v, callees)
    requires forall z :: Edge(g, v, z) ==> z in callees
    ensures FinishedSeeNumbered(g, s, active)
  {
  }

  // ----- from components to recursive names

  lemma {:induction false} EmittedMember(sccs: seq<seq<Name>>, x: Name)
    ensures x in Emitted(sccs) <==> exists k :: 0 <= k < |sccs| && x in sccs[k]
  {
    if |sccs| > 0 {
      var init := sccs[..|sccs| - 1];
      EmittedMember(init, x);
      if x in Emitted(init) {
        var k :| 0 <= k < |init| && x in init[k];
        assert x in sccs[k];
      }
      if exists k :: 0 <= k < |sccs| && x in sccs[k] {
        var k :| 0 <= k < |sccs| && x in sccs[k];
        if k < |init| {
          assert x in init[k];
        }
      }
    }
  }

  lemma {:induction false} ComponentAt(g: Graph, sccs: seq<seq<Name>>, k: nat)
    requires ComponentsOk(g, sccs) && k < |sccs|
    ensures IsComponent(g, sccs[k]) && NoDuplicates(sccs[k])
    ensures Elements(sccs[k]) !! Emitted(sccs[..k])
    ensures Closed(g, Emitted(sccs[..k + 1]))
  {
    if k < |sccs| - 1 {
      var init := sccs[..|sccs| - 1];
      ComponentAt(g, init, k);
      assert init[..k] == sccs[..k] && init[..k + 1] == sccs[..k + 1];
    } else {
      assert sccs[..k + 1] == sccs;
    }
  }

  /** The emitted components partition the nodes into maximal strongly connected sets, and every
      call leads into the same component or an earlier one. */
  ghost predicate IsDecomposition(g: Graph, sccs: seq<seq<Name>>) {
    && (forall x :: IsNodeOf(g, x) <==> exists k :: 0 <= k < |sccs| && x in sccs[k])
    && (forall k :: 0 <= k < |sccs| ==> IsComponent(g, sccs[k]) && NoDuplicates(sccs[k]))
    && (forall j, k, x :: 0 <= j < k < |sccs| && x in sccs[j] ==> x !in sccs[k])
    && (forall k, x, y :: 0 <= k < |sccs| && x in sccs[k] && Edge(g, x, y) ==> EarlierOrSame(sccs, k, y))
  }

  ghost predicate EarlierOrSame(sccs: seq<seq<Name>>, k: int, y: Name) {
    exists j :: 0 <= j <= k && j < |sccs| && y in sccs[j]
  }

  lemma EmittedIsDecomposition(g: Graph, sccs: seq<seq<Name>>)
    requires ComponentsOk(g, sccs)
    requires forall x :: IsNodeOf(g, x) <==> x in Emitted(sccs)
    ensures IsDecomposition(g, sccs)
  {
    forall x ensures IsNodeOf(g, x) <==> exists k :: 0 <= k < |sccs| && x in sccs[k] {
      EmittedMember(sccs, x);
    }
    forall k | 0 <= k < |sccs| ensures IsComponent(g, sccs[k]) && NoDuplicates(sccs[k]) {
      ComponentAt(g, sccs, k);
    }
    forall j, k, x | 0 <= j < k < |sccs| && x in sccs[j] ensures x !in sccs[k] {
      ComponentAt(g, sccs, k);
      assert x in sccs[..k][j];
      EmittedMember(sccs[..k], x);
    }
    forall k, x, y | 0 <= k < |sccs| && x in sccs[k] && Edge(g, x, y) ensures EarlierOrSame(sccs, k, y) {
      ComponentAt(g, sccs, k);
      assert x in sccs[..k + 1][k];
      EmittedMember(sccs[..k + 1], x);
      EmittedMember(sccs[..k + 1], y);
      var j :| 0 <= j < |sccs[..k + 1]| && y in sccs[..k + 1][j];
      assert y in sccs[j];
    }
  }

  /** Membership rule of the final loop: big components, and singletons that call themselves. */
  predicate Selected(g: Graph, c: seq<Name>, x: Name)
    requires |c| > 0
  {
    x in c && (|c| > 1 || Edge(g, c[0], c[0]))
  }

  lemma SelectedIffOnCycle(g: Graph, c: seq<Name>, x: Name)
    requires IsComponent(g, c) && NoDuplicates(c) && x in c
    ensures Selected(g, c, x) <==> OnCycle(g, x)
  {
    OnCycleIffCalleeReaches(g, x);
    if |c| > 1 {
      var y := if c[0] == x then c[1] else c[0];
      assert y in c && y != x;
      assert Mutual(g, x, y);
      var p :| PathFromTo(g, p, x, y);
      assert Edge(g, p[0], p[0 + 1]);
      PathTail(g, p);
      assert Reaches(g, p[1], y);
      ReachesTransitive(g, p[1], y, x);
    } else {
      assert x == c[0];
      if Edge(g, x, x) {
        ReachesSelf(g, x);
      }
      if exists y :: Edge(g, x, y) && Reaches(g, y, x) {
        var y :| Edge(g, x, y) && Reaches(g, y, x);
        EdgeReaches(g, x, y);
        assert Mutual(g, x, y);
        assert y in c;
      }
    }
  }

  lemma PathTail(g: Graph, p: seq<Name>)
    requires IsPath(g, p) && |p| >= 2
    ensures Reaches(g, p[1], p[|p| - 1])
  {
    var q := p[1..];
    forall i | 0 <= i < |q| - 1 ensures Edge(g, q[i], q[i + 1]) {
      assert Edge(g, p[i + 1], p[i + 1 + 1]);
    }
    assert PathFromTo(g, q, p[1], p[|p| - 1]);
  }

  lemma ActiveReachesCallee(g: Graph, active: set<Name>, v: Name, w: Name)
    requires Edge(g, v, w) && forall x :: x in active ==> Reaches(g, x, v)
    ensures forall x :: x in active + {v} ==> Reaches(g, x, w)
  {
    EdgeReaches(g, v, w);
    forall x | x in active ensures Reaches(g, x, w) {
      ReachesTransitive(g, x, v, w);
    }
  }

  lemma ReversedSuffix(stack: seq<Name>, base: nat, c: seq<Name>)
    requires base <= |stack| && |c| == |stack| - base && NoDuplicates(stack)
    requires forall i :: 0 <= i < |c| ==> c[i] == stack[|stack| - 1 - i]
    ensures SameNames(c, stack[base..])
  {
    var suffix := stack[base..];
    forall x | x in suffix ensures x in c {
      var i :| 0 <= i < |suffix| && suffix[i] == x;
      assert c[|c| - 1 - i] == x;
    }
  }

  lemma InvariantTables(g: Graph, nodes: set<Name>, s: State, active: set<Name>)
    requires Invariant(g, nodes, s, active)
    ensures Tables(s)
  {
  }

  /** While v is scanned at least one more name is numbered than before. */
  lemma ScanningNumbers(g: Graph, s0: State, s: State, v: Name, seen: seq<Name>)
    requires Scanning(g, s0, s, v, seen)
    ensures s0.index.Keys <= s.index.Keys && v in s.index
  {
  }

  // ----- the search itself

  class Finder {
    const callGraph: Graph
    var index: map<Name, int>
    var lowlink: map<Name, int>
    var onStack: set<Name>
    var stack: seq<Name>
    var currentIndex: int
    var sccs: seq<seq<Name>>

    ghost function Snapshot(): State
      reads this
    {
      State(index, lowlink, onStack, stack, currentIndex, sccs)
    }

    constructor (callGraph: Graph)
      ensures this.callGraph == callGraph
      ensures Snapshot() == State(map[], map[], {}, [], 0, [])
    {
      this.callGraph := callGraph;
      index, lowlink, onStack, stack, currentIndex, sccs := map[], map[], {}, [], 0, [];
    }

    /** Pops the stack down to v and emits what was popped as one component. */
    method EmitComponent(v: Name, ghost base: nat) returns (scc: seq<Name>)
      requires base < |stack| && stack[base] == v && NoDuplicates(stack)
      modifies this
      ensures Snapshot() == Popped(old(Snapshot()), base, scc)
      ensures SameNames(scc, old(stack)[base..])
    {
      ghost var full := stack;
      scc := [];
      var found := false;
      while |stack| > 0 && !found
        invariant base <= |stack| <= |full| && stack == full[..|stack|]
        invariant found <==> |stack| == base
        invariant |scc| == |full| - |stack|
        invariant forall i :: 0 <= i < |scc| ==> scc[i] == full[|full| - 1 - i]
        invariant onStack == old(onStack) - Elements(full[|stack|..])
        invariant index == old(index) && lowlink == old(lowlink) && currentIndex == old(currentIndex) &&
            sccs == old(sccs)
        decreases |stack|
      {
        var w := stack[|stack| - 1];
        assert full[|stack| - 1..] == [w] + full[|stack|..];
        stack := stack[..|stack| - 1];
        onStack := onStack - {w};
        scc := scc + [w];
        found := w == v;
      }
      ReversedSuffix(full, base, scc);
      sccs := sccs + [scc];
    }

    /** Numbers v and everything newly reachable from it, emitting finished components. */
    method StrongConnect(v: Name, ghost nodes: set<Name>, ghost active: set<Name>)
      requires Closed(callGraph, nodes) && v in nodes && v !in index
      requires Invariant(callGraph, nodes, Snapshot(), active)
      requires forall x :: x in active ==> Reaches(callGraph, x, v)
      modifies this
      ensures Invariant(callGraph, nodes, Snapshot(), active)
      ensures Connected(callGraph, old(Snapshot()), Snapshot(), v)
      decreases nodes - index.Keys, 0
    {
      hide Invariant, Scanning, Connected, Reaches, Closed, Tables;
      ghost var s0 := Snapshot();
      InvariantTables(callGraph, nodes, s0, active);
      Enter(v, nodes, active);
      var callees := if v in callGraph then callGraph[v] else [];
      var i := 0;
      while i < |callees|
        invariant 0 <= i <= |callees|
        invariant Invariant(callGraph, nodes, Snapshot(), active + {v})
        invariant Scanning(callGraph, s0, Snapshot(), v, callees[..i])
      {
        assert callees[..i] + [callees[i]] == callees[..i + 1];
        ScanningNumbers(callGraph, s0, Snapshot(), v, callees[..i]);
        ScanCallee(v, callees[i], nodes, active, s0, callees[..i]);
        i := i + 1;
      }
      assert callees[..i] == callees;
      Leave(v, nodes, active, s0, callees);
    }

    method Enter(v: Name, ghost nodes: set<Name>, ghost active: set<Name>)
      requires v in nodes && v !in index
      requires Invariant(callGraph, nodes, Snapshot(), active)
      requires forall x :: x in active ==> Reaches(callGraph, x, v)
      modifies this
      ensures Snapshot() == Entered(old(Snapshot()), v)
      ensures Invariant(callGraph, nodes, Snapshot(), active + {v})
      ensures Scanning(callGraph, old(Snapshot()), Snapshot(), v, [])
    {
      EnterKeepsInvariant(callGraph, nodes, Snapshot(), active, v);
      EnterStartsScan(callGraph, nodes, Snapshot(), active, v);
      index := index[v := currentIndex];
      lowlink := lowlink[v := currentIndex];
      currentIndex := currentIndex + 1;
      stack := stack + [v];
      onStack := onStack + {v};
    }

    /** One iteration of the callee loop of v. */
    method ScanCallee(v: Name, w: Name, ghost nodes: set<Name>, ghost active: set<Name>, ghost s0: State,
        ghost seen: seq<Name>)
      requires Closed(callGraph, nodes) && v in nodes && Edge(callGraph, v, w)
      requires Tables(s0) && v !in s0.index
      requires forall x :: x in active ==> Reaches(callGraph, x, v)
      requires Invariant(callGraph, nodes, Snapshot(), active + {v})
      requires Scanning(callGraph, s0, Snapshot(), v, seen)
      modifies this
      ensures Invariant(callGraph, nodes, Snapshot(), active + {v})
      ensures Scanning(callGraph, s0, Snapshot(), v, seen + [w])
      decreases nodes - index.Keys, 1
    {
      ghost var s := Snapshot();
      if w !in index {
        ActiveReachesCallee(callGraph, active, v, w);
        StrongConnect(w, nodes, active + {v});
        ScanDescends(callGraph, s0, s, Snapshot(), v, seen, w);
        LowerKeepsInvariant(callGraph, nodes, Snapshot(), active + {v}, v, lowlink[w]);
        lowlink := lowlink[v := Min(lowlink[v], lowlink[w])];
      } else if w in onStack {
        ScanLowers(callGraph, s0, s, v, seen, w);
        LowerKeepsInvariant(callGraph, nodes, s, active + {v}, v, index[w]);
        lowlink := lowlink[v := Min(lowlink[v], index[w])];
      } else {
        ScanSkips(callGraph, s0, s, v, seen, w);
      }
    }

    /** Emits the component of v when v is its root. */
    method Leave(v: Name, ghost nodes: set<Name>, ghost active: set<Name>, ghost s0: State, ghost callees: seq<Name>)
      requires Invariant(callGraph, nodes, s0, active) && v !in s0.index
      requires Invariant(callGraph, nodes, Snapshot(), active + {v})
      requires Scanning(callGraph, s0, Snapshot(), v, callees)
      requires forall z :: Edge(callGraph, v, z) ==> z in callees
      modifies this
      ensures Invariant(callGraph, nodes, Snapshot(), active)
      ensures Connected(callGraph, s0, Snapshot(), v)
    {
      ghost var s := Snapshot();
      if lowlink[v] == index[v] {
        assert s.stack[|s0.stack|] == v;
        var scc := EmitComponent(v, |s0.stack|);
        PopKeepsInvariant(callGraph, nodes, s0, s, active, v, callees, scc);
      } else {
        LeaveKeepsInvariant(callGraph, nodes, s0, s, active, v, callees);
      }
    }

    /** Explores every node, in any order, so that all components are emitted. */
    method ExploreAll(nodes: set<Name>)
      requires Closed(callGraph, nodes)
      requires Snapshot() == State(map[], map[], {}, [], 0, [])
      modifies this
      ensures ComponentsOk(callGraph, sccs) && Emitted(sccs) == nodes
      ensures stack == [] && onStack == {}
    {
      var todo := nodes;
      while todo != {}
        invariant todo <= nodes && nodes - todo <= index.Keys
        invariant Invariant(callGraph, nodes, Snapshot(), {})
        decreases todo
      {
        var name :| name in todo;
        if name !in index {
          StrongConnect(name, nodes, {});
        }
        todo := todo - {name};
      }
      EmptyStackWhenIdle(callGraph, nodes, Snapshot());
    }
  }

  lemma EmptyStackWhenIdle(g: Graph, nodes: set<Name>, s: State)
    requires Invariant(g, nodes, s, {})
    ensures s.stack == [] && s.onStack == {}
  {
    if |s.stack| > 0 {
      AnchoredNeedsActive(g, s.stack, {});
    }
  }

  lemma AnchoredNeedsActive(g: Graph, stack: seq<Name>, active: set<Name>)
    requires StackAnchored(g, stack, active) && |stack| > 0
    ensures active != {}
  {
    assert ReachesActiveBelow(g, stack, active, 0);
  }

  /** All callers and callees. */
  method CollectNodes(callGraph: Graph) returns (nodes: set<Name>)
    ensures forall x :: x in nodes <==> IsNodeOf(callGraph, x)
    ensures Closed(callGraph, nodes)
  {
    nodes := {};
    var todo := callGraph.Keys;
    while todo != {}
      invariant todo <= callGraph.Keys
      invariant forall x :: x in nodes <==> exists c :: c in callGraph && c !in todo && (x == c || x in callGraph[c])
      decreases todo
    {
      var caller :| caller in todo;
      nodes := nodes + {caller} + (set callee | callee in callGraph[caller]);
      todo := todo - {caller};
    }
  }

  /** Splits the graph into its strongly connected components. */
  method FindComponents(callGraph: Graph) returns (sccs: seq<seq<Name>>)
    ensures IsDecomposition(callGraph, sccs)
  {
    var nodes := CollectNodes(callGraph);
    var finder := new Finder(callGraph);
    finder.ExploreAll(nodes);
    sccs := finder.sccs;
    EmittedIsDecomposition(callGraph, sccs);
  }

  /** The names returned are exactly those that can call themselves through some chain of calls. */
  method FindRecursiveFunctions(callGraph: Graph) returns (recursive: set<Name>)
    ensures forall x :: x in recursive <==> OnCycle(callGraph, x)
  {
    var sccs := FindComponents(callGraph);
    recursive := {};
    var k := 0;
    while k < |sccs|
      invariant 0 <= k <= |sccs|
      invariant forall x :: x in recursive <==>
          exists j :: 0 <= j < k && x in sccs[j] && Selected(callGraph, sccs[j], x)
    {
      var scc := sccs[k];
      if |scc| > 1 {
        recursive := recursive + (set x | x in scc);
      } else {
        var name := scc[0];
        if name in callGraph && name in callGraph[name] {
          recursive := recursive + {name};
        }
      }
      k := k + 1;
    }
    forall x ensures x in recursive <==> OnCycle(callGraph, x) {
      RecursiveIffOnCycle(callGraph, sccs, recursive, x);
    }
  }

  lemma RecursiveIffOnCycle(g: Graph, sccs: seq<seq<Name>>, recursive: set<Name>, x: Name)
    requires IsDecomposition(g, sccs)
    requires x in recursive <==> exists j :: 0 <= j < |sccs| && x in sccs[j] && Selected(g, sccs[j], x)
    ensures x in recursive <==> OnCycle(g, x)
  {
    if x in recursive {
      var j :| 0 <= j < |sccs| && x in sccs[j] && Selected(g, sccs[j], x);
      SelectedIffOnCycle(g, sccs[j], x);
    }
    if OnCycle(g, x) {
      OnCycleIffCalleeReaches(g, x);
      assert IsNodeOf(g, x);
      var j :| 0 <= j < |sccs| && x in sccs[j];
      SelectedIffOnCycle(g, sccs[j], x);
    }
  }
}
