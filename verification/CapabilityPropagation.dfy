/**
 * Propagation of capabilities from called functions to their callers: functions
 * are renamed level by level from the leaves upwards, and the passes repeat
 * until no name changes. All state is in the names.
 */
module CapabilityPropagation {
  import opened CapabilityNames

  type Id = nat

  /** What the listing knows of a function: the capabilities of the library calls it makes, the
      functions its static calls name, and whether it makes calls of any other kind. */
  datatype Info = Info(entry: string, xrefs: nat, own: set<Capability>, targets: set<Id>, otherCalls: bool)

  /** A program: its functions, those that may be renamed, Ghidra's callers of each function, and what
      a caller reads from the names of the functions that no pass renames. */
  datatype Program = Program(info: map<Id, Info>, list: set<Id>, callers: map<Id, set<Id>>,
                             shown: map<Id, set<Capability>>)

  ghost predicate IsProgram(p: Program) {
    && p.list <= p.info.Keys && p.list <= p.callers.Keys
    && (forall f :: f in p.info ==> p.info[f].targets <= p.info.Keys && IsLabel(LabelOf(p, f)))
  }

  /** The called functions other than the function itself. */
  function Callees(p: Program, f: Id): set<Id>
    requires f in p.info
  {
    p.info[f].targets - {f}
  }

  /** Calls that remain after direct self-calls are dropped. */
  predicate HasCalls(p: Program, f: Id)
    requires f in p.info
  {
    p.info[f].otherCalls || p.info[f].own != {} || Callees(p, f) != {}
  }

  function LabelOf(p: Program, f: Id): Label
    requires f in p.info
  {
    Label(p.info[f].entry, p.info[f].xrefs, HasCalls(p, f))
  }

  function DefaultName(p: Program, f: Id): string
    requires f in p.info
  {
    "FUN_" + p.info[f].entry
  }

  type Names = map<Id, string>

  /** What a caller reads from the name of g: nothing unless it is an automatic name. */
  function NameShows(names: Names, g: Id): set<Capability>
    requires g in names
  {
    if PREFIX <= names[g] then ReadName(names[g]) else {}
  }

  /** The capabilities read from the names of the automatically named callees. */
  function ChildRead(p: Program, names: Names, f: Id): set<Capability>
    requires f in p.info && Callees(p, f) <= names.Keys
  {
    set g, x | g in Callees(p, f) && x in NameShows(names, g) :: x
  }

  function NewName(p: Program, names: Names, f: Id): string
    requires f in p.info && Callees(p, f) <= names.Keys
  {
    BuildName(LabelOf(p, f), p.info[f].own, ChildRead(p, names, f))
  }

  // ----- which functions are visited

  /** The functions of the list that call no function of the list. */
  function Leaves(p: Program): set<Id>
    requires p.list <= p.callers.Keys
  {
    set f | f in p.list && forall g :: g in p.list ==> f !in p.callers[g]
  }

  ghost predicate ClosedUpwards(p: Program, s: set<Id>)
    requires p.list <= p.callers.Keys
  {
    Leaves(p) <= s && forall f, g :: f in s && f in p.list && g in p.callers[f] && g in p.list ==> g in s
  }

  /** The least set of listed functions that has the leaves and the listed callers of its members. */
  ghost predicate IsVisited(p: Program, v: set<Id>)
    requires p.list <= p.callers.Keys
  {
    v <= p.list && ClosedUpwards(p, v) && forall s :: ClosedUpwards(p, s) ==> v <= s
  }

  /** A chain of callers inside the list that starts at a leaf. */
  ghost predicate CallerChain(p: Program, chain: seq<Id>)
    requires p.list <= p.callers.Keys
  {
    && |chain| > 0 && chain[0] in Leaves(p) && (forall i :: 0 <= i < |chain| ==> chain[i] in p.list)
    && forall i :: 0 < i < |chain| ==> chain[i] in p.callers[chain[i - 1]]
  }

  ghost predicate AboveLeaf(p: Program, f: Id)
    requires p.list <= p.callers.Keys
  {
    exists chain :: CallerChain(p, chain) && chain[|chain| - 1] == f
  }

  /** The functions reached upwards from the leaves. */
  ghost function Visited(p: Program): set<Id>
    requires p.list <= p.callers.Keys
  {
    set f | f in p.list && AboveLeaf(p, f)
  }

  lemma VisitedIsLeast(p: Program)
    requires p.list <= p.callers.Keys
    ensures IsVisited(p, Visited(p))
  {
    forall f | f in Leaves(p) ensures f in Visited(p) {
      assert CallerChain(p, [f]);
    }
    forall f, g | f in Visited(p) && g in p.callers[f] && g in p.list ensures g in Visited(p) {
      var chain :| CallerChain(p, chain) && chain[|chain| - 1] == f;
      assert CallerChain(p, chain + [g]);
    }
    forall s, f | ClosedUpwards(p, s) && f in Visited(p) ensures f in s {
      var chain :| CallerChain(p, chain) && chain[|chain| - 1] == f;
      ChainStaysIn(p, s, chain);
    }
  }

  lemma {:induction false} ChainStaysIn(p: Program, s: set<Id>, chain: seq<Id>)
    requires p.list <= p.callers.Keys && ClosedUpwards(p, s) && CallerChain(p, chain)
    ensures chain[|chain| - 1] in s
    decreases |chain|
  {
    if |chain| > 1 { ChainStaysIn(p, s, chain[..|chain| - 1]); }
  }

  // ----- what the names mean

  /** The child capabilities written into the names of the functions renamed so far. */
  type Child = map<Id, set<Capability>>

  ghost function Caps(p: Program, child: Child, g: Id): set<Capability>
    requires g in p.info && g in child
  {
    Previewed(p.info[g].own) + child[g]
  }

  /** A static call of f names another function g. */
  ghost predicate Calls(p: Program, f: Id, g: Id) {
    f in p.info && g != f && g in p.info[f].targets
  }

  /** What the callees that no pass renames show in f. */
  ghost function Outside(p: Program, f: Id): set<Capability> {
    Previewed(set g, x | Calls(p, f, g) && g in p.shown && x in p.shown[g] :: x)
  }

  /** The union of the capabilities of the renamed callees. */
  ghost function Written(p: Program, child: Child, f: Id): set<Capability>
    requires IsProgram(p) && f in p.info
  {
    set g, x | g in Callees(p, f) && g in child && x in Caps(p, child, g) :: x
  }

  /** The union of the capabilities of all callees. */
  ghost function ChildNow(p: Program, child: Child, f: Id): set<Capability>
    requires IsProgram(p) && f in p.info
  {
    Outside(p, f) + Written(p, child, f)
  }

  /** The program records what the names of the functions outside v show. The names in v are arbitrary. */
  ghost predicate Fits(p: Program, v: set<Id>, names: Names) {
    && names.Keys == p.info.Keys && p.shown.Keys == p.info.Keys - v
    && forall f :: f in p.shown ==> p.shown[f] == NameShows(names, f)
  }

  /** Some of the names in v are built from the child capabilities. */
  ghost predicate Encodes(p: Program, v: set<Id>, names: Names, child: Child) {
    && IsProgram(p) && v <= p.list && Fits(p, v, names) && child.Keys <= v
    && (forall f :: f in child ==> names[f] == BuildName(LabelOf(p, f), p.info[f].own, child[f]))
    && (forall f :: f in child ==> child[f] == Previewed(child[f]))
    && (forall f :: f in child && !HasCalls(p, f) ==> child[f] == {})
  }

  lemma ReadEncoded(p: Program, v: set<Id>, names: Names, child: Child, g: Id)
    requires Encodes(p, v, names, child) && g in child
    ensures NameShows(names, g) == Caps(p, child, g)
  {
    hide BuildName, ReadName, Previewed;
    BuiltNameHasPrefix(LabelOf(p, g), p.info[g].own, child[g]);
    ReadBuiltName(LabelOf(p, g), p.info[g].own, child[g]);
    PreviewedUnion(p.info[g].own, child[g]);
    PreviewedNothing();
  }

  lemma PreviewedUnion(a: set<Capability>, b: set<Capability>)
    ensures Previewed(a + b) == Previewed(a) + Previewed(b)
  {
  }

  lemma PreviewedNothing()
    ensures Previewed({}) == {}
  {
  }

  lemma DefaultHasNoPrefix(p: Program, f: Id)
    requires f in p.info
    ensures !(PREFIX <= DefaultName(p, f))
  {
    assert PREFIX[0] != DefaultName(p, f)[0];
  }

  // ----- the specification: capabilities of everything that can be reached

  ghost predicate CallStep(p: Program, v: set<Id>, f: Id, g: Id) {
    Calls(p, f, g) && g in v
  }

  /** A chain of calls, none of them a direct self-call, to visited functions. */
  ghost predicate IsChain(p: Program, v: set<Id>, chain: seq<Id>) {
    |chain| > 0 && forall i :: 0 <= i < |chain| - 1 ==> CallStep(p, v, chain[i], chain[i + 1])
  }

  /** The last function of the chain has x, unless it is f itself, or calls a function that no pass
      renames and whose name shows x. */
  ghost predicate ChainShows(p: Program, v: set<Id>, f: Id, x: Capability, chain: seq<Id>) {
    && IsChain(p, v, chain) && chain[0] == f && chain[|chain| - 1] in p.info
    && ((|chain| > 1 && x in Previewed(p.info[chain[|chain| - 1]].own)) || x in Outside(p, chain[|chain| - 1]))
  }

  ghost predicate Reached(p: Program, v: set<Id>, f: Id, x: Capability) {
    exists chain :: ChainShows(p, v, f, x, chain)
  }

  lemma ChainPrepend(p: Program, v: set<Id>, f: Id, g: Id, x: Capability)
    requires CallStep(p, v, f, g) && (Reached(p, v, g, x) || (g in p.info && x in Previewed(p.info[g].own)))
    ensures Reached(p, v, f, x)
  {
    hide Previewed, CallStep, Outside;
    if Reached(p, v, g, x) {
      var c :| ChainShows(p, v, g, x, c);
      var chain := [f] + c;
      forall i | 0 <= i < |chain| - 1 ensures CallStep(p, v, chain[i], chain[i + 1]) {
        if i > 0 { assert CallStep(p, v, c[i - 1], c[i - 1 + 1]); }
      }
      assert ChainShows(p, v, f, x, chain);
    } else {
      assert ChainShows(p, v, f, x, [f, g]);
    }
  }

  lemma OutsideIsReached(p: Program, v: set<Id>, f: Id, x: Capability)
    requires f in p.info && x in Outside(p, f)
    ensures Reached(p, v, f, x)
  {
    hide Outside;
    assert ChainShows(p, v, f, x, [f]);
  }

  /** A chain of more than one function is a call and either ends there or goes on from the callee. */
  lemma ChainTail(p: Program, v: set<Id>, f: Id, x: Capability, chain: seq<Id>)
    requires ChainShows(p, v, f, x, chain) && |chain| > 1
    ensures CallStep(p, v, f, chain[1])
    ensures ChainShows(p, v, chain[1], x, chain[1..]) ||
            (|chain| == 2 && chain[1] in p.info && x in Previewed(p.info[chain[1]].own))
  {
    hide CallStep, Outside, Previewed;
    assert CallStep(p, v, chain[0], chain[0 + 1]);
    var rest := chain[1..];
    forall i | 0 <= i < |rest| - 1 ensures CallStep(p, v, rest[i], rest[i + 1]) {
      assert CallStep(p, v, chain[i + 1], chain[i + 1 + 1]);
    }
  }

  lemma ReachedIsPreviewed(p: Program, v: set<Id>, f: Id, x: Capability)
    requires Reached(p, v, f, x)
    ensures InNomenclature(x)
  {
  }

  // ----- the invariant of all renaming

  /** Everything written is reachable, and still readable from the callees. */
  ghost predicate Sound(p: Program, v: set<Id>, child: Child) {
    && IsProgram(p) && child.Keys <= v <= p.list
    && (forall f, x :: f in child && x in child[f] ==> Reached(p, v, f, x))
    && (forall f :: f in child ==> child[f] <= ChildNow(p, child, f))
  }

  /** Later states have written at least as much. */
  ghost predicate Grown(a: Child, b: Child) {
    a.Keys <= b.Keys && forall f :: f in a ==> a[f] <= b[f]
  }

  lemma ChildNowGrows(p: Program, a: Child, b: Child, f: Id)
    requires IsProgram(p) && f in p.info && Grown(a, b)
    ensures ChildNow(p, a, f) <= ChildNow(p, b, f)
  {
    forall x | x in Written(p, a, f) ensures x in Written(p, b, f) {
      var g :| g in Callees(p, f) && g in a && x in Caps(p, a, g);
      assert x in Caps(p, b, g);
    }
  }

  /** Nothing but reachable capabilities is written. */
  ghost predicate Bounded(p: Program, v: set<Id>, child: Child) {
    && IsProgram(p) && child.Keys <= v <= p.list
    && forall f, x :: f in child && x in child[f] ==> Reached(p, v, f, x)
  }

  lemma RenameKeepsBounded(p: Program, v: set<Id>, child: Child, f: Id)
    requires Bounded(p, v, child) && f in v
    ensures Bounded(p, v, child[f := ChildNow(p, child, f)])
  {
    hide Previewed, Reached, Outside;
    forall x | x in ChildNow(p, child, f) ensures Reached(p, v, f, x) {
      if x in Outside(p, f) {
        OutsideIsReached(p, v, f, x);
      } else {
        var g :| g in Callees(p, f) && g in child && x in Caps(p, child, g);
        assert CallStep(p, v, f, g);
        ChainPrepend(p, v, f, g, x);
      }
    }
  }

  /** Renaming one visited function keeps the invariant and only adds to what is written. */
  lemma RenameKeepsSound(p: Program, v: set<Id>, child: Child, f: Id)
    requires Sound(p, v, child) && f in v
    ensures Sound(p, v, child[f := ChildNow(p, child, f)]) && Grown(child, child[f := ChildNow(p, child, f)])
  {
    hide Previewed, Reached;
    var child' := child[f := ChildNow(p, child, f)];
    assert Grown(child, child');
    RenameKeepsBounded(p, v, child, f);
    forall h | h in child' ensures child'[h] <= ChildNow(p, child', h) {
      ChildNowGrows(p, child, child', h);
    }
  }

  lemma ChildNowEmpty(p: Program, child: Child, f: Id)
    requires IsProgram(p) && f in p.info && !HasCalls(p, f)
    ensures ChildNow(p, child, f) == {}
  {
    assert forall g :: Calls(p, f, g) ==> g in Callees(p, f);
  }

  // ----- what a renaming writes

  /** No name in v that is not built yet shows more than high allows. */
  ghost predicate RoughBelow(p: Program, v: set<Id>, names: Names, child: Child, high: Child) {
    forall g :: g in v && g !in child ==>
      g in names && g in p.info && g in high && Previewed(NameShows(names, g)) <= Caps(p, high, g)
  }

  /** The preview letters that the callees' names show. */
  ghost function ToWrite(p: Program, names: Names, f: Id): set<Capability>
    requires f in p.info && Callees(p, f) <= names.Keys
  {
    Previewed(ChildRead(p, names, f))
  }

  /** What is read lies between what both bounds say, whatever the names that are not built yet. */
  lemma ReadIsBetween(p: Program, v: set<Id>, names: Names, low: Child, child: Child, high: Child, f: Id)
    requires Encodes(p, v, names, child) && f in p.info && RoughBelow(p, v, names, child, high)
    requires Grown(low, child) && Grown(child, high)
    ensures Callees(p, f) <= names.Keys
    ensures ChildNow(p, low, f) <= ToWrite(p, names, f) <= ChildNow(p, high, f)
  {
    hide Encodes, Grown, RoughBelow, NameShows, InNomenclature;
    EncodedCallees(p, v, names, child, f);
    forall x | x in ToWrite(p, names, f) ensures x in ChildNow(p, high, f) {
      var g :| g in Callees(p, f) && x in NameShows(names, g);
      ReadBelow(p, v, names, child, high, f, g, x);
    }
    forall x | x in ChildNow(p, low, f) ensures x in ToWrite(p, names, f) {
      if x in Outside(p, f) {
        var g :| g in Callees(p, f) && g in p.shown && x in p.shown[g];
        assert x in NameShows(names, g) by { FitsMeans(p, v, names, child, g); }
      } else {
        var g :| g in Callees(p, f) && g in low && x in Caps(p, low, g);
        WrittenIsRead(p, v, names, low, child, g, x);
      }
    }
  }

  lemma EncodedCallees(p: Program, v: set<Id>, names: Names, child: Child, f: Id)
    requires Encodes(p, v, names, child) && f in p.info
    ensures IsProgram(p) && Callees(p, f) <= names.Keys == p.info.Keys
  {
  }

  lemma FitsMeans(p: Program, v: set<Id>, names: Names, child: Child, g: Id)
    requires Encodes(p, v, names, child) && g in p.shown
    ensures g in names && p.shown[g] == NameShows(names, g)
  {
  }

  lemma ReadBelow(p: Program, v: set<Id>, names: Names, child: Child, high: Child, f: Id, g: Id, x: Capability)
    requires Encodes(p, v, names, child) && f in p.info && RoughBelow(p, v, names, child, high)
    requires Grown(child, high) && g in Callees(p, f) && g in names && x in NameShows(names, g) && InNomenclature(x)
    ensures x in ChildNow(p, high, f)
  {
    hide BuildName, ReadName, NameShows, InNomenclature, HasCalls, LabelOf;
    if g in child {
      ReadEncoded(p, v, names, child, g);
      assert x in Caps(p, high, g);
    } else if g in v {
      assert x in Previewed(NameShows(names, g));
      assert x in Caps(p, high, g);
    } else {
      assert g in p.shown && x in p.shown[g];
      assert x in Outside(p, f);
    }
  }

  lemma WrittenIsRead(p: Program, v: set<Id>, names: Names, low: Child, child: Child, g: Id, x: Capability)
    requires Encodes(p, v, names, child) && Grown(low, child) && g in low && g in p.info && x in Caps(p, low, g)
    ensures g in names && x in NameShows(names, g) && InNomenclature(x)
  {
    hide BuildName, ReadName, NameShows, InNomenclature, HasCalls, LabelOf;
    ReadEncoded(p, v, names, child, g);
    assert x in Caps(p, child, g);
    if x in child[g] { assert x in Previewed(child[g]); }
  }

  /** When all names in v are built, reading the callees' names gives the union of what was written
      into them and of what the other names show. */
  lemma ChildReadIsNow(p: Program, v: set<Id>, names: Names, child: Child, f: Id)
    requires Encodes(p, v, names, child) && child.Keys == v && f in p.info
    ensures Callees(p, f) <= names.Keys && ToWrite(p, names, f) == ChildNow(p, child, f)
  {
    hide Encodes, ToWrite, ChildNow, NameShows;
    GrownSame(child);
    ReadIsBetween(p, v, names, child, child, child, f);
  }

  /** A renaming builds the name from what it reads, whatever the old name was. */
  lemma RenameKeepsEncoding(p: Program, v: set<Id>, names: Names, child: Child, f: Id)
    requires Encodes(p, v, names, child) && f in v
    ensures f in p.info && f in names && Callees(p, f) <= names.Keys
    ensures f in child ==> names[f] == BuildName(LabelOf(p, f), p.info[f].own, child[f])
    ensures Encodes(p, v, names[f := NewName(p, names, f)], child[f := ToWrite(p, names, f)])
  {
    hide BuildName, NameShows, LabelOf, NewName, ToWrite, HasCalls, Previewed;
    EncodedCallees(p, v, names, child, f);
    NewNameIsBuilt(p, names, f);
    var names' := names[f := NewName(p, names, f)];
    forall g | g in p.shown ensures NameShows(names', g) == NameShows(names, g) {
      SameShows(names, names', g);
    }
  }

  lemma NewNameIsBuilt(p: Program, names: Names, f: Id)
    requires f in p.info && Callees(p, f) <= names.Keys
    ensures NewName(p, names, f) == BuildName(LabelOf(p, f), p.info[f].own, ToWrite(p, names, f))
    ensures ToWrite(p, names, f) == Previewed(ToWrite(p, names, f))
    ensures !HasCalls(p, f) ==> ToWrite(p, names, f) == {}
  {
    hide BuildName, NameShows;
    OnlyPreviewedCounts(LabelOf(p, f), p.info[f].own, ChildRead(p, names, f));
  }

  lemma SameShows(names: Names, names': Names, g: Id)
    requires g in names && g in names' && names[g] == names'[g]
    ensures NameShows(names, g) == NameShows(names', g)
  {
  }

  lemma RenameKeepsRough(p: Program, v: set<Id>, names: Names, child: Child, high: Child, f: Id, name: string,
                         c: set<Capability>, h: set<Capability>)
    requires RoughBelow(p, v, names, child, high)
    ensures RoughBelow(p, v, names[f := name], child[f := c], high[f := h])
  {
    hide NameShows, Previewed;
    var names' := names[f := name];
    forall g | g in v && g !in child[f := c]
      ensures g in names && g in p.info && g in high
      ensures NameShows(names', g) == NameShows(names, g) && Caps(p, high[f := h], g) == Caps(p, high, g)
    {
      SameShows(names, names', g);
    }
  }

  // ----- the fixpoint is the specification

  /** At a fixpoint over all visited functions, the child capabilities are exactly those of all
      functions reached through visited callees. */
  lemma FixpointIsReached(p: Program, v: set<Id>, child: Child, f: Id, x: Capability)
    requires Sound(p, v, child) && child.Keys == v && f in v
    requires forall f :: f in v ==> child[f] == ChildNow(p, child, f)
    ensures x in child[f] <==> Reached(p, v, f, x)
  {
    hide ChildNow;
    if Reached(p, v, f, x) {
      var chain :| ChainShows(p, v, f, x, chain);
      ChainInside(p, v, child, x, chain);
    }
  }

  /** The fixpoint is the least one: any assignment that contains what it reads contains it. */
  lemma FixpointIsLeast(p: Program, v: set<Id>, child: Child, other: Child)
    requires Sound(p, v, child) && child.Keys == v == other.Keys
    requires forall f :: f in v ==> child[f] == ChildNow(p, child, f)
    requires forall f :: f in v ==> ChildNow(p, other, f) <= other[f]
    ensures Grown(child, other)
  {
    hide ChildNow;
    forall f, x | f in v && x in child[f] ensures x in other[f] {
      var chain :| ChainShows(p, v, f, x, chain);
      ChainInside(p, v, other, x, chain);
    }
  }

  lemma {:induction false} ChainInside(p: Program, v: set<Id>, other: Child, x: Capability, chain: seq<Id>)
    requires IsProgram(p) && other.Keys == v && v <= p.list && |chain| > 0 && chain[0] in v
    requires ChainShows(p, v, chain[0], x, chain)
    requires forall f :: f in v ==> ChildNow(p, other, f) <= other[f]
    ensures x in other[chain[0]]
    decreases |chain|
  {
    hide Previewed, Outside;
    if |chain| > 1 {
      var f, g := chain[0], chain[1];
      ChainTail(p, v, f, x, chain);
      if ChainShows(p, v, g, x, chain[1..]) { ChainInside(p, v, other, x, chain[1..]); }
      assert x in Caps(p, other, g);
      assert x in Written(p, other, f);
    }
    assert x in ChildNow(p, other, chain[0]);
  }

  // ----- termination: names can only gain a finite number of entries

  datatype Fact = Named(f: Id) | Shows(f: Id, x: Capability)

  ghost function AllCapabilities(): set<Capability> {
    set i, j | 0 <= i < 7 && 0 <= j < |Letters(ORDER[i])| :: Capability(ORDER[i], Letters(ORDER[i])[j])
  }

  lemma PreviewedIsKnown(x: Capability)
    requires InNomenclature(x)
    ensures x in AllCapabilities()
  {
    var i := Position(x.category);
    var j :| 0 <= j < |Letters(x.category)| && Letters(x.category)[j] == x.letter;
    assert Capability(ORDER[i], Letters(ORDER[i])[j]) == x;
  }

  ghost function Universe(v: set<Id>): set<Fact> {
    (set f | f in v :: Named(f)) + (set f, x | f in v && x in AllCapabilities() :: Shows(f, x))
  }

  ghost function Facts(child: Child): set<Fact> {
    (set f | f in child :: Named(f)) + (set f, x | f in child && x in child[f] :: Shows(f, x))
  }

  lemma FactsInUniverse(v: set<Id>, child: Child)
    requires child.Keys <= v && forall f :: f in child ==> child[f] == Previewed(child[f])
    ensures Facts(child) <= Universe(v)
  {
    hide AllCapabilities;
    forall f, x | f in child && x in child[f] ensures Shows(f, x) in Universe(v) {
      assert x in Previewed(child[f]);
      PreviewedIsKnown(x);
    }
  }

  lemma GrownFacts(a: Child, b: Child)
    requires Grown(a, b)
    ensures Facts(a) <= Facts(b)
    ensures Facts(a) == Facts(b) ==> a == b
  {
    if Facts(a) == Facts(b) {
      forall f | f in b ensures f in a {
        assert Named(f) in Facts(b);
      }
      forall f | f in b ensures b[f] == a[f] {
        forall x | x in b[f] ensures x in a[f] {
          assert Shows(f, x) in Facts(b);
        }
      }
    }
  }

  // ----- the passes

  /** A fixpoint over all visited functions. */
  ghost predicate IsFixpoint(p: Program, v: set<Id>, child: Child) {
    IsProgram(p) && child.Keys == v <= p.list && forall f :: f in v ==> child[f] == ChildNow(p, child, f)
  }

  /** Nothing that can still be read from the callees is missing. */
  ghost predicate Closed(p: Program, v: set<Id>, high: Child) {
    IsProgram(p) && high.Keys == v <= p.list && forall f :: f in v ==> ChildNow(p, high, f) <= high[f]
  }

  /** At most one fixpoint lies below high. */
  ghost predicate OneBelow(p: Program, v: set<Id>, high: Child) {
    forall c, d :: IsFixpoint(p, v, c) && IsFixpoint(p, v, d) && Grown(c, high) && Grown(d, high) ==> c == d
  }

  /** The names as they change. What the renamed ones show is child. It stays between low, what they
      would show after the same renamings from names that show nothing, which only grows, and high,
      what they would show from names that show more, which only shrinks. */
  class Renamer {
    const program: Program
    var names: Names
    ghost var child: Child
    ghost var low: Child
    ghost var high: Child

    constructor (program: Program, names: Names, ghost high: Child)
      ensures this.program == program && this.names == names
      ensures child == map[] && low == map[] && this.high == high
    {
      this.program, this.names, child, low, this.high := program, names, map[], map[], high;
    }

    /** Names, written capabilities and visited set fit together. */
    ghost predicate Valid(v: set<Id>)
      reads this
    {
      && Encodes(program, v, names, child) && IsVisited(program, v)
      && Sound(program, v, low) && Grown(low, child) && low.Keys == child.Keys
      && Closed(program, v, high) && Grown(child, high) && OneBelow(program, v, high)
      && RoughBelow(program, v, names, child, high)
    }

    /** Renames one function and reports whether its name changed. */
    method Rename(f: Id, ghost v: set<Id>) returns (changed: bool)
      requires Valid(v) && f in v
      modifies this
      ensures Valid(v) && names.Keys == old(names).Keys
      ensures f in program.info && Callees(program, f) <= old(names).Keys
      ensures child == old(child)[f := ToWrite(program, old(names), f)]
      ensures low == old(low)[f := ChildNow(program, old(low), f)] && Grown(old(low), low)
      ensures high == old(high)[f := ChildNow(program, old(high), f)] && Grown(high, old(high))
      ensures Still(program, v, old(low), old(high)) ==> !changed && low == old(low) && high == old(high)
      ensures !changed ==> names == old(names)
      ensures forall g :: g in names && g != f ==> names[g] == old(names)[g]
    {
      hide Sound, Grown, IsVisited, ChildNow, Closed, OneBelow, Still, RoughBelow, ToWrite, NewName, Encodes, Callees,
           IsProgram;
      SoundMeans(program, v, low);
      RenameKeepsEncoding(program, v, names, child, f);
      RenameKeepsSound(program, v, low, f);
      RenameKeepsClosed(program, v, high, f);
      ReadIsBetween(program, v, names, low, child, high, f);
      RenameKeepsOrder(low, child, f, ChildNow(program, low, f), ToWrite(program, names, f));
      RenameKeepsOrder(child, high, f, ToWrite(program, names, f), ChildNow(program, high, f));
      RenameKeepsRough(program, v, names, child, high, f, NewName(program, names, f), ToWrite(program, names, f),
                       ChildNow(program, high, f));
      OneBelowShrinks(program, v, high, high[f := ChildNow(program, high, f)]);
      if Still(program, v, low, high) {
        StillKeepsName(program, v, names, low, child, high, f);
      }
      var oldName := names[f];
      var newName := NewName(program, names, f);
      names := names[f := newName];
      child := child[f := ToWrite(program, old(names), f)];
      low := low[f := ChildNow(program, low, f)];
      high := high[f := ChildNow(program, high, f)];
      changed := oldName != newName;
      if !changed { SameUpdate(old(names), f); }
    }

    /** Renames one level of nodes, in any order, and collects the next level. */
    method RenameLevel(nodes: set<Id>, traversed: set<Id>, ghost v: set<Id>)
        returns (renamed: nat, traversed': set<Id>, parents: set<Id>)
      requires Valid(v) && nodes <= v
      modifies this
      ensures Valid(v) && Moved(old(low), low, old(high), high)
      ensures Still(program, v, old(low), old(high)) ==> renamed == 0 && low == old(low) && high == old(high)
      ensures low == old(low) && high == old(high) ==> BothSettled(program, low, high, nodes)
      ensures renamed == 0 ==> names == old(names)
      ensures renamed == 0 && Settled(program, old(names), old(child), traversed) ==>
                Settled(program, names, child, traversed')
      ensures SameOutside(old(names), names, nodes)
      ensures traversed' == traversed + nodes && child.Keys == old(child).Keys + nodes
      ensures parents !! traversed' && parents <= v && (nodes == {} ==> parents == {})
      ensures CallersIn(program, nodes, traversed' + parents)
    {
      hide Sound, Encodes, Grown, Settled, IsVisited, ChildNow, ToWrite, CallersIn, Closed, OneBelow, Still,
           BothSettled, Moved, RoughBelow, IsProgram, Callees, SameOutside;
      renamed, traversed', parents := 0, traversed, {};
      var todo := nodes;
      MovedNot(low, high);
      SameNames(names, nodes);
      CallersInNothing(program, traversed' + parents);
      SoundMeans(program, v, low);
      BothSettledNothing(program, low, high);
      assert nodes - todo == {};
      while todo != {}
        invariant todo <= nodes && Valid(v) && Moved(old(low), low, old(high), high)
        invariant Still(program, v, old(low), old(high)) ==> renamed == 0 && low == old(low) && high == old(high)
        invariant low == old(low) && high == old(high) ==> BothSettled(program, low, high, nodes - todo)
        invariant renamed == 0 ==> names == old(names)
        invariant renamed == 0 && Settled(program, old(names), old(child), traversed) ==>
                    Settled(program, names, child, traversed')
        invariant SameOutside(old(names), names, nodes)
        invariant traversed' == traversed + (nodes - todo) && child.Keys == old(child).Keys + (nodes - todo)
        invariant parents !! traversed' && parents <= v && (nodes == {} ==> parents == {})
        invariant CallersIn(program, nodes - todo, traversed' + parents)
        decreases todo
      {
        var f :| f in todo;
        ghost var before, lowBefore, highBefore, done := child, low, high, traversed';
        ghost var namesBefore := names;
        var changed := Rename(f, v);
        SameOutsideStep(old(names), namesBefore, names, nodes, f);
        MovedOn(old(low), lowBefore, low, old(high), highBefore, high);
        SoundMeans(program, v, low);
        if low == old(low) && high == old(high) { BothSettledStep(program, low, high, nodes - todo, f); }
        if !changed {
          SettledStep(program, names, before, done, f);
        } else {
          renamed := renamed + 1;
        }
        CallersInStep(program, v, nodes - todo, f, traversed', parents);
        assert nodes - (todo - {f}) == nodes - todo + {f};
        todo := todo - {f};
        traversed' := traversed' + {f};
        parents := parents + (program.callers[f] * program.list);
        parents := parents - traversed';
      }
      assert nodes - todo == nodes;
    }

    /** One pass from the leaves upwards: it visits every function above a leaf once. */
    method Pass(ghost v: set<Id>) returns (renamed: nat)
      requires Valid(v)
      modifies this
      ensures Valid(v) && Moved(old(low), low, old(high), high) && child.Keys == v
      ensures renamed > 0 ==> low != old(low) || high != old(high)
      ensures renamed == 0 ==> names == old(names) && Settled(program, names, child, v)
      ensures SameOutside(old(names), names, v)
    {
      hide Sound, Encodes, Grown, Settled, ChildNow, ToWrite, IsVisited, CallersIn, Leaves, Closed, OneBelow, Still,
           BothSettled, Moved, RoughBelow, SameOutside;
      renamed := 0;
      SoundMeans(program, v, low);
      VisitedHasLeaves(program, v);
      var traversed, nodes := {}, Leaves(program);
      MovedNot(low, high);
      SameNames(names, v);
      SettledNothing(program, names, child);
      BothSettledNothing(program, low, high);
      CallersInNothing(program, traversed + nodes);
      while true
        invariant Valid(v) && Moved(old(low), low, old(high), high)
        invariant Still(program, v, old(low), old(high)) ==> renamed == 0 && low == old(low) && high == old(high)
        invariant low == old(low) && high == old(high) ==> BothSettled(program, low, high, traversed)
        invariant renamed == 0 ==> names == old(names) && Settled(program, names, child, traversed)
        invariant SameOutside(old(names), names, v)
        invariant traversed <= child.Keys && nodes !! traversed && nodes <= v && traversed <= v
        invariant Leaves(program) <= traversed + nodes && CallersIn(program, traversed, traversed + nodes)
        invariant nodes == {} ==> traversed == {}
        decreases v - traversed
      {
        ghost var lowBefore, highBefore := low, high;
        ghost var namesBefore := names;
        var count, traversed', parents := RenameLevel(nodes, traversed, v);
        SameOutsideJoin(old(names), namesBefore, names, v, nodes);
        MovedFurther(old(low), lowBefore, low, old(high), highBefore, high);
        if low == old(low) && high == old(high) { BothSettledJoin(program, low, high, traversed, nodes); }
        renamed := renamed + count;
        SoundMeans(program, v, low);
        CallersInJoin(program, traversed, nodes, parents);
        traversed := traversed';
        assert traversed + {} == traversed;
        if parents == {} { break; }
        nodes := parents;
      }
      SoundMeans(program, v, low);
      BelowClosed(program, v, child, high);
      ClosedIsAll(program, v, traversed);
      if low == old(low) && high == old(high) { BothSettledIsStill(program, v, low, high); }
    }

    /** Passes until no name changes. */
    method Run(ghost v: set<Id>)
      requires Valid(v)
      modifies this
      ensures Valid(v) && child.Keys == v && Settled(program, names, child, v)
      ensures SameOutside(old(names), names, v)
    {
      hide Sound, Grown, Settled, IsVisited, ChildNow, ToWrite, Facts, Universe, Encodes, Closed, OneBelow, Moved,
           RoughBelow;
      while true
        invariant Valid(v)
        invariant SameOutside(old(names), names, v)
        decreases Universe(v) - Facts(low), Facts(high)
      {
        ghost var lowBefore, highBefore := low, high;
        var renamed := Pass(v);
        if renamed == 0 { break; }
        LowIsPreviewed(program, v, names, low, child);
        FactsInUniverse(v, low);
        MovedFacts(lowBefore, low, highBefore, high);
      }
    }
  }

  // ----- facts that the passes use

  /** The same functions have names, and outside s the same ones. */
  ghost predicate SameOutside(a: Names, b: Names, s: set<Id>) {
    a.Keys == b.Keys && forall g :: g in a && g !in s ==> b[g] == a[g]
  }

  lemma SameNames(a: Names, s: set<Id>)
    ensures SameOutside(a, a, s)
  {
  }

  lemma SameOutsideStep(a: Names, b: Names, c: Names, s: set<Id>, f: Id)
    requires SameOutside(a, b, s) && f in s
    requires b.Keys == c.Keys && forall g :: g in c && g != f ==> c[g] == b[g]
    ensures SameOutside(a, c, s)
  {
  }

  lemma SameOutsideJoin(a: Names, b: Names, c: Names, s: set<Id>, t: set<Id>)
    requires SameOutside(a, b, s) && SameOutside(b, c, t) && t <= s
    ensures SameOutside(a, c, s)
  {
  }

  /** The written child capabilities are what the callees' names show. */
  ghost predicate Settled(p: Program, names: Names, child: Child, s: set<Id>) {
    forall f :: f in s ==>
      f in child && f in p.info && Callees(p, f) <= names.Keys && child[f] == ToWrite(p, names, f)
  }

  lemma SettledNothing(p: Program, names: Names, child: Child)
    ensures Settled(p, names, child, {})
  {
  }

  lemma SettledStep(p: Program, names: Names, child: Child, s: set<Id>, f: Id)
    requires f in p.info && Callees(p, f) <= names.Keys
    ensures Settled(p, names, child, s) ==> Settled(p, names, child[f := ToWrite(p, names, f)], s + {f})
  {
    hide ToWrite;
  }

  /** Both bounds are fixpoints, so no renaming changes anything any more. */
  ghost predicate Still(p: Program, v: set<Id>, low: Child, high: Child) {
    IsFixpoint(p, v, low) && IsFixpoint(p, v, high)
  }

  /** Both bounds are settled on s. */
  ghost predicate BothSettled(p: Program, low: Child, high: Child, s: set<Id>) {
    IsProgram(p) && SettledOn(p, low, s) && SettledOn(p, high, s)
  }

  ghost predicate SettledOn(p: Program, child: Child, s: set<Id>)
    requires IsProgram(p)
  {
    forall f :: f in s ==> f in child && f in p.info && child[f] == ChildNow(p, child, f)
  }

  lemma BothSettledNothing(p: Program, low: Child, high: Child)
    requires IsProgram(p)
    ensures BothSettled(p, low, high, {})
  {
  }

  lemma BothSettledStep(p: Program, low: Child, high: Child, s: set<Id>, f: Id)
    requires BothSettled(p, low, high, s) && f in p.info
    requires low == low[f := ChildNow(p, low, f)] && high == high[f := ChildNow(p, high, f)]
    ensures BothSettled(p, low, high, s + {f})
  {
    hide ChildNow;
    assert f in low && low[f] == low[f := ChildNow(p, low, f)][f];
    assert f in high && high[f] == high[f := ChildNow(p, high, f)][f];
  }

  lemma BothSettledJoin(p: Program, low: Child, high: Child, s: set<Id>, t: set<Id>)
    requires BothSettled(p, low, high, s) && BothSettled(p, low, high, t)
    ensures BothSettled(p, low, high, s + t)
  {
    hide ChildNow;
  }

  lemma BothSettledIsStill(p: Program, v: set<Id>, low: Child, high: Child)
    requires BothSettled(p, low, high, v) && Sound(p, v, low) && Closed(p, v, high)
    ensures Still(p, v, low, high)
  {
    hide ChildNow, Reached;
  }

  lemma BelowClosed(p: Program, v: set<Id>, child: Child, high: Child)
    requires Closed(p, v, high) && Grown(child, high)
    ensures IsProgram(p) && child.Keys <= v <= p.list
  {
  }

  lemma RenameKeepsClosed(p: Program, v: set<Id>, high: Child, f: Id)
    requires Closed(p, v, high) && f in v
    ensures Closed(p, v, high[f := ChildNow(p, high, f)]) && Grown(high[f := ChildNow(p, high, f)], high)
  {
    hide ChildNow;
    var high' := high[f := ChildNow(p, high, f)];
    assert Grown(high', high);
    forall h | h in v ensures ChildNow(p, high', h) <= high'[h] {
      ChildNowGrows(p, high', high, h);
    }
  }

  lemma OneBelowShrinks(p: Program, v: set<Id>, high: Child, high': Child)
    requires OneBelow(p, v, high) && Grown(high', high)
    ensures OneBelow(p, v, high')
  {
    hide IsFixpoint;
    forall c | Grown(c, high') ensures Grown(c, high) {
    }
  }

  /** Between two fixpoints below high there is only one. */
  lemma StillMeansAll(p: Program, v: set<Id>, low: Child, child: Child, high: Child)
    requires Still(p, v, low, high) && OneBelow(p, v, high) && Grown(low, child) && Grown(child, high)
    ensures low == child == high && IsFixpoint(p, v, child)
  {
    hide ChildNow;
    GrownSame(high);
    GrownStrict(low, child, high);
    assert low == high;
  }

  lemma StillKeepsName(p: Program, v: set<Id>, names: Names, low: Child, child: Child, high: Child, f: Id)
    requires Still(p, v, low, high) && OneBelow(p, v, high) && Grown(low, child) && Grown(child, high)
    requires Encodes(p, v, names, child) && f in v
    ensures f in p.info && Callees(p, f) <= names.Keys && NewName(p, names, f) == names[f]
    ensures low == low[f := ChildNow(p, low, f)] && high == high[f := ChildNow(p, high, f)]
  {
    hide ChildNow, OneBelow, Encodes, Grown, IsFixpoint;
    StillMeansAll(p, v, low, child, high);
    FixpointNamesStay(p, names, child, v, f);
    FixpointStays(p, v, child, f);
  }

  /** The lower bound grew and the upper bound shrank. */
  ghost predicate Moved(low: Child, low': Child, high: Child, high': Child) {
    Grown(low, low') && Grown(high', high)
  }

  lemma MovedNot(low: Child, high: Child)
    ensures Moved(low, low, high, high)
  {
  }

  lemma MovedOn(low0: Child, low1: Child, low2: Child, high0: Child, high1: Child, high2: Child)
    requires Moved(low0, low1, high0, high1) && Grown(low1, low2) && Grown(high2, high1)
    ensures Moved(low0, low2, high0, high2)
    ensures low0 == low2 ==> low0 == low1
    ensures high0 == high2 ==> high0 == high1
  {
    hide Grown;
    GrownStrict(low0, low1, low2);
    GrownStrict(high2, high1, high0);
  }

  lemma MovedFurther(low0: Child, low1: Child, low2: Child, high0: Child, high1: Child, high2: Child)
    requires Moved(low0, low1, high0, high1) && Moved(low1, low2, high1, high2)
    ensures Moved(low0, low2, high0, high2)
    ensures low0 == low2 ==> low0 == low1
    ensures high0 == high2 ==> high0 == high1
  {
    hide Grown;
    MovedOn(low0, low1, low2, high0, high1, high2);
  }

  lemma MovedFacts(low: Child, low': Child, high: Child, high': Child)
    requires Moved(low, low', high, high')
    ensures Facts(low) <= Facts(low') && (Facts(low) == Facts(low') ==> low == low')
    ensures Facts(high') <= Facts(high) && (Facts(high) == Facts(high') ==> high == high')
  {
    hide Facts, Grown;
    GrownFacts(low, low');
    GrownFacts(high', high);
  }

  lemma RenameKeepsOrder(low: Child, child: Child, f: Id, l: set<Capability>, c: set<Capability>)
    requires Grown(low, child) && l <= c
    ensures Grown(low[f := l], child[f := c])
  {
  }

  lemma FixpointStays(p: Program, v: set<Id>, child: Child, f: Id)
    requires IsFixpoint(p, v, child) && f in v
    ensures f in p.info && child[f := ChildNow(p, child, f)] == child
  {
    hide ChildNow;
  }

  lemma LowIsPreviewed(p: Program, v: set<Id>, names: Names, low: Child, child: Child)
    requires Sound(p, v, low) && Grown(low, child) && Encodes(p, v, names, child)
    ensures low.Keys <= v && forall f :: f in low ==> low[f] == Previewed(low[f])
  {
    hide Reached, ChildNow, BuildName, ReadName;
    forall f, x | f in low && x in low[f] ensures InNomenclature(x) {
      assert x in child[f] && x in Previewed(child[f]);
    }
  }

  /** The listed callers of all of s are in t. */
  ghost predicate CallersIn(p: Program, s: set<Id>, t: set<Id>) {
    forall f, g :: f in s && f in p.callers && g in p.callers[f] && g in p.list ==> g in t
  }

  lemma CallersInNothing(p: Program, t: set<Id>)
    ensures CallersIn(p, {}, t)
  {
  }

  lemma CallersInJoin(p: Program, traversed: set<Id>, nodes: set<Id>, parents: set<Id>)
    requires CallersIn(p, traversed, traversed + nodes) && CallersIn(p, nodes, traversed + nodes + parents)
    ensures CallersIn(p, traversed + nodes, traversed + nodes + parents)
  {
  }

  lemma VisitedHasLeaves(p: Program, v: set<Id>)
    requires IsProgram(p) && IsVisited(p, v)
    ensures Leaves(p) <= v
  {
  }

  lemma ClosedIsAll(p: Program, v: set<Id>, s: set<Id>)
    requires IsProgram(p) && IsVisited(p, v) && s <= v && Leaves(p) <= s && CallersIn(p, s, s)
    ensures s == v
  {
    assert ClosedUpwards(p, s);
  }

  /** Adding one node and its callers, less the nodes already traversed. */
  lemma CallersInStep(p: Program, v: set<Id>, s: set<Id>, f: Id, traversed: set<Id>, parents: set<Id>)
    requires IsProgram(p) && IsVisited(p, v) && f in v && CallersIn(p, s, traversed + parents)
    ensures f in p.callers && p.callers[f] * p.list <= v
    ensures var t := traversed + {f}; CallersIn(p, s + {f}, t + (parents + (p.callers[f] * p.list) - t))
  {
  }

  lemma SoundMeans(p: Program, v: set<Id>, child: Child)
    requires Sound(p, v, child)
    ensures IsProgram(p) && child.Keys <= v <= p.list
  {
  }

  lemma GrownFromNothing(a: Child)
    ensures Grown(map[], a)
  {
  }

  lemma GrownSame(a: Child)
    ensures Grown(a, a)
  {
  }

  lemma SameUpdate(names: Names, f: Id)
    requires f in names
    ensures names[f := names[f]] == names
  {
  }

  lemma GrownStrict(a: Child, b: Child, c: Child)
    requires Grown(a, b) && Grown(b, c)
    ensures Grown(a, c) && b.Keys <= c.Keys && (a == c ==> a == b && b == c)
  {
    if a == c {
      assert forall f :: f in b ==> f in a && b[f] == a[f];
    }
  }

  lemma SettledIsFixpoint(p: Program, names: Names, child: Child, v: set<Id>)
    requires Encodes(p, v, names, child) && child.Keys == v && Settled(p, names, child, v)
    ensures IsFixpoint(p, v, child)
  {
    hide ToWrite, ChildNow, BuildName, NameShows;
    forall f | f in v ensures f in child && f in p.info && child[f] == ChildNow(p, child, f) {
      ChildReadIsNow(p, v, names, child, f);
    }
  }

  // ----- the result

  /** The capabilities of everything that f reaches by calls through visited functions. */
  ghost function ReachedCapabilities(p: Program, f: Id): set<Capability>
    requires p.list <= p.callers.Keys
  {
    set x | x in AllCapabilities() && Reached(p, Visited(p), f, x)
  }

  /** Default names for the functions above a leaf. */
  ghost predicate DefaultNames(p: Program, names: Names)
    requires p.list <= p.callers.Keys
  {
    forall f :: f in Visited(p) ==> f in names && f in p.info && names[f] == DefaultName(p, f)
  }

  lemma VisitedIsListed(p: Program)
    requires p.list <= p.callers.Keys
    ensures Visited(p) <= p.list
  {
  }

  /** Any names whatsoever fit a program that records what those outside the visited functions show. */
  lemma EveryStartFits(p: Program, names: Names) returns (q: Program)
    requires IsProgram(p) && names.Keys == p.info.Keys
    ensures q == p.(shown := q.shown) && IsProgram(q) && Visited(q) == Visited(p) && Fits(q, Visited(q), names)
  {
    hide NameShows;
    q := p.(shown := map f | f in p.info && f !in Visited(p) :: NameShows(names, f));
    forall f | f in p.info ensures LabelOf(q, f) == LabelOf(p, f) {
    }
    SameChains(p, q);
    hide CallerChain, LabelOf;
    assert Visited(q) == Visited(p);
  }

  lemma SameChains(p: Program, q: Program)
    requires p.list <= p.callers.Keys && p.list == q.list && p.callers == q.callers
    ensures forall chain :: CallerChain(p, chain) <==> CallerChain(q, chain)
  {
    assert Leaves(p) == Leaves(q);
  }

  /** Every function above a leaf has the name that shows its own capabilities, in upper case, and
      those of everything it reaches, in lower case, and reads back as such. */
  ghost predicate FinalNames(p: Program, names: Names)
    requires p.list <= p.callers.Keys && p.list <= p.info.Keys
  {
    names.Keys == p.info.Keys &&
    forall f :: f in Visited(p) ==>
      && names[f] == BuildName(LabelOf(p, f), p.info[f].own, ReachedCapabilities(p, f))
      && OwnShown(names[f]) == Previewed(p.info[f].own) && ChildShown(names[f]) == ReachedCapabilities(p, f)
      && ReadName(names[f]) == Previewed(p.info[f].own) + ReachedCapabilities(p, f)
  }

  /** The names of the visited functions show no more than their own capabilities and high. */
  ghost predicate ShowAtMost(p: Program, names: Names, high: Child) {
    RoughBelow(p, high.Keys, names, map[], high)
  }

  /** A final name says that there are no calls exactly when the function makes none but to itself. */
  lemma FinalNameForm(p: Program, names: Names, f: Id)
    requires IsProgram(p) && FinalNames(p, names) && f in Visited(p)
    ensures f in names && |names[f]| > 5
    ensures names[f][5] == 'z' <==> !p.info[f].otherCalls && p.info[f].own == {} && p.info[f].targets <= {f}
  {
    hide Visited, BuildName, ReachedCapabilities;
    VisitedIsListed(p);
    NameForm(LabelOf(p, f), p.info[f].own, ReachedCapabilities(p, f));
  }

  /** The renaming of a whole program, whatever the order within a level, from names below an upper
      bound with only one fixpoint. */
  method PreviewBelow(p: Program, names: Names, ghost high: Child) returns (names': Names)
    requires IsProgram(p) && Fits(p, Visited(p), names) && ShowAtMost(p, names, high)
    requires Closed(p, Visited(p), high) && OneBelow(p, Visited(p), high)
    ensures FinalNames(p, names')
    ensures forall f :: f in names && f !in Visited(p) ==> names'[f] == names[f]
  {
    hide BuildName, Visited, IsVisited, Settled, Reached, Grown, OneBelow, ChildNow, Fits, FinalNames, FinalChild,
         NameShows, Previewed;
    ghost var v := Visited(p);
    VisitedIsLeast(p);
    VisitedIsListed(p);
    GrownFromNothing(map[]);
    GrownFromNothing(high);
    var r := new Renamer(p, names, high);
    r.Run(v);
    names' := r.names;
    SettledIsFixpoint(p, r.names, r.child, v);
    FinalIsOnly(p, r.child, r.high);
    EncodedIsFinal(p, r.names);
  }

  /** Names that are built from what is reached are the final ones. */
  lemma EncodedIsFinal(p: Program, names: Names)
    requires IsProgram(p) && Encodes(p, Visited(p), names, FinalChild(p))
    ensures FinalNames(p, names)
  {
    hide BuildName, ReadName, OwnShown, ChildShown, Visited, ReachedCapabilities, Previewed;
    PreviewedNothing();
    forall f | f in Visited(p)
      ensures OwnShown(names[f]) == Previewed(p.info[f].own) && ChildShown(names[f]) == ReachedCapabilities(p, f)
      ensures ReadName(names[f]) == Previewed(p.info[f].own) + ReachedCapabilities(p, f)
    {
      ReadBuiltParts(LabelOf(p, f), p.info[f].own, FinalChild(p)[f]);
      ReadIsBothParts(names[f]);
    }
  }

  /** The fixpoint below the bound is the final one. */
  lemma FinalIsOnly(p: Program, child: Child, high: Child)
    requires IsProgram(p) && IsFixpoint(p, Visited(p), child) && Grown(child, high)
    requires Closed(p, Visited(p), high) && OneBelow(p, Visited(p), high)
    ensures child == FinalChild(p)
  {
    hide Visited, ChildNow, Reached, FinalChild;
    FinalIsSound(p);
    FinalIsFixpoint(p);
    FixpointIsLeast(p, Visited(p), FinalChild(p), high);
  }

  /** From any names of the visited functions that show nothing but own and reachable capabilities. */
  method PreviewFrom(p: Program, names: Names) returns (names': Names)
    requires IsProgram(p) && Fits(p, Visited(p), names)
    requires forall f, x :: f in Visited(p) && x in NameShows(names, f) && InNomenclature(x) ==>
               x in p.info[f].own || Reached(p, Visited(p), f, x)
    ensures FinalNames(p, names')
    ensures forall f :: f in names && f !in Visited(p) ==> names'[f] == names[f]
  {
    hide BuildName, ReadName, Visited, Reached, FinalNames, Fits;
    FinalBounds(p, names);
    names' := PreviewBelow(p, names, FinalChild(p));
  }

  lemma FinalBounds(p: Program, names: Names)
    requires IsProgram(p) && Fits(p, Visited(p), names)
    requires forall f, x :: f in Visited(p) && x in NameShows(names, f) && InNomenclature(x) ==>
               x in p.info[f].own || Reached(p, Visited(p), f, x)
    ensures Closed(p, Visited(p), FinalChild(p)) && OneBelow(p, Visited(p), FinalChild(p))
    ensures ShowAtMost(p, names, FinalChild(p))
  {
    hide Visited, ChildNow, Reached, NameShows, AllCapabilities;
    VisitedIsListed(p);
    FinalIsSound(p);
    FinalIsFixpoint(p);
    forall f, x | f in Visited(p) && x in Previewed(NameShows(names, f)) ensures x in Caps(p, FinalChild(p), f) {
      PreviewedIsKnown(x);
    }
    forall f | f in Visited(p) ensures Previewed(NameShows(names, f)) <= Caps(p, FinalChild(p), f) {
    }
    forall c | IsFixpoint(p, Visited(p), c) && Grown(c, FinalChild(p)) ensures c == FinalChild(p) {
      FixpointIsLeast(p, Visited(p), FinalChild(p), c);
      GrownBoth(c, FinalChild(p));
    }
  }

  lemma GrownBoth(a: Child, b: Child)
    requires Grown(a, b) && Grown(b, a)
    ensures a == b
  {
    assert a.Keys == b.Keys;
    assert forall f :: f in a ==> a[f] == b[f];
  }

  /** From default names the renaming ends with the final names; other functions keep their names. */
  method PreviewCapabilities(p: Program, names: Names) returns (names': Names)
    requires IsProgram(p) && Fits(p, Visited(p), names) && DefaultNames(p, names)
    ensures FinalNames(p, names')
    ensures forall f :: f in names && f !in Visited(p) ==> names'[f] == names[f]
  {
    hide BuildName, ReadName, Visited, Reached, FinalNames, Fits;
    VisitedIsListed(p);
    forall f | f in Visited(p) ensures NameShows(names, f) == {} {
      DefaultHasNoPrefix(p, f);
    }
    names' := PreviewFrom(p, names);
  }

  /** The capabilities of everything reached, as written into the final names. */
  ghost function FinalChild(p: Program): Child
    requires p.list <= p.callers.Keys
  {
    map f | f in Visited(p) :: ReachedCapabilities(p, f)
  }

  /** What f reaches is what its visited callees are and reach. */
  lemma ReachedIsUnion(p: Program, f: Id)
    requires IsProgram(p) && f in p.info
    ensures ReachedCapabilities(p, f) == ChildNow(p, FinalChild(p), f)
  {
    hide Visited, AllCapabilities, Outside, InNomenclature;
    var v := Visited(p);
    VisitedIsListed(p);
    forall x | x in ReachedCapabilities(p, f) ensures x in ChildNow(p, FinalChild(p), f) {
      var chain :| ChainShows(p, v, f, x, chain);
      if |chain| > 1 {
        ChainTail(p, v, f, x, chain);
        assert x in Caps(p, FinalChild(p), chain[1]);
        assert x in Written(p, FinalChild(p), f);
      }
    }
    forall x | x in ChildNow(p, FinalChild(p), f) ensures x in ReachedCapabilities(p, f) {
      if x in Outside(p, f) {
        OutsideIsReached(p, v, f, x);
      } else {
        var g :| g in Callees(p, f) && g in FinalChild(p) && x in Caps(p, FinalChild(p), g);
        assert CallStep(p, v, f, g);
        ChainPrepend(p, v, f, g, x);
      }
      ReachedIsPreviewed(p, v, f, x);
      PreviewedIsKnown(x);
    }
  }

  /** The final names are a state from which the renaming may start again. */
  lemma FinalIsSound(p: Program)
    requires IsProgram(p)
    ensures Sound(p, Visited(p), FinalChild(p))
    ensures forall f :: f in Visited(p) ==>
        FinalChild(p)[f] == Previewed(FinalChild(p)[f]) && (!HasCalls(p, f) ==> FinalChild(p)[f] == {})
  {
    hide Visited, Reached, ChildNow;
    VisitedIsListed(p);
    forall f | f in Visited(p)
      ensures FinalChild(p)[f] == ChildNow(p, FinalChild(p), f)
      ensures FinalChild(p)[f] == Previewed(FinalChild(p)[f])
      ensures !HasCalls(p, f) ==> FinalChild(p)[f] == {}
    {
      ReachedIsUnion(p, f);
      if !HasCalls(p, f) { ChildNowEmpty(p, FinalChild(p), f); }
      forall x | x in FinalChild(p)[f] ensures InNomenclature(x) {
      }
    }
  }

  /** No renaming of a visited function changes its name. */
  ghost predicate Stopped(p: Program, names: Names)
    requires IsProgram(p) && Fits(p, Visited(p), names)
  {
    forall f :: f in Visited(p) ==> f in p.info && names[f] == NewName(p, names, f)
  }

  /** Whatever names the passes started from, when they stop every name shows at least its function's
      own capabilities and everything the function reaches, and no more exactly when the names are
      the final ones. */
  lemma StoppedNamesShowAll(p: Program, names: Names)
    requires IsProgram(p) && Fits(p, Visited(p), names) && Stopped(p, names)
    ensures forall f :: f in Visited(p) ==>
              Previewed(p.info[f].own) + ReachedCapabilities(p, f) <= NameShows(names, f)
    ensures FinalNames(p, names) <==> forall f :: f in Visited(p) ==>
              NameShows(names, f) <= Previewed(p.info[f].own) + ReachedCapabilities(p, f)
  {
    hide Visited, ChildNow, Reached, ReachedCapabilities, NameShows, NewName, BuildName, ReadName, Previewed, ToWrite;
    VisitedIsListed(p);
    var v, child := Visited(p), StoppedChild(p, names);
    forall f | f in v
      ensures f in child && names[f] == BuildName(LabelOf(p, f), p.info[f].own, child[f])
      ensures child[f] == ToWrite(p, names, f) == Previewed(child[f]) && (!HasCalls(p, f) ==> child[f] == {})
    {
      StoppedIsBuilt(p, names, f);
    }
    assert Encodes(p, v, names, child);
    SettledIsFixpoint(p, names, child, v);
    FinalIsFixpoint(p);
    FinalIsSound(p);
    FixpointIsLeast(p, v, FinalChild(p), child);
    forall f | f in v ensures NameShows(names, f) == Caps(p, child, f) {
      ReadEncoded(p, v, names, child, f);
    }
    forall f | f in v ensures ReachedCapabilities(p, f) <= child[f] {
      assert FinalChild(p)[f] <= child[f];
    }
    StoppedIsFinalIff(p, names, child);
  }

  lemma StoppedIsFinalIff(p: Program, names: Names, child: Child)
    requires IsProgram(p) && Encodes(p, Visited(p), names, child)
    requires IsFixpoint(p, Visited(p), child) && Grown(FinalChild(p), child)
    ensures FinalNames(p, names) <==> forall f :: f in Visited(p) ==>
              NameShows(names, f) <= Previewed(p.info[f].own) + ReachedCapabilities(p, f)
  {
    hide Visited, ChildNow, Reached, ReadName, BuildName, ReachedCapabilities, Previewed;
    var v := Visited(p);
    VisitedIsListed(p);
    if forall f :: f in v ==> NameShows(names, f) <= Previewed(p.info[f].own) + ReachedCapabilities(p, f) {
      forall g | g in v ensures Caps(p, child, g) <= Caps(p, FinalChild(p), g) {
        ReadEncoded(p, v, names, child, g);
      }
      FinalIsFixpoint(p);
      forall f | f in v ensures child[f] <= FinalChild(p)[f] {
        CapsGrow(p, child, FinalChild(p), f);
      }
      GrownBoth(child, FinalChild(p));
      EncodedIsFinal(p, names);
    }
  }

  lemma CapsGrow(p: Program, a: Child, b: Child, f: Id)
    requires IsProgram(p) && f in p.info && a.Keys <= b.Keys
    requires forall g :: g in a && g in p.info ==> Caps(p, a, g) <= Caps(p, b, g)
    ensures ChildNow(p, a, f) <= ChildNow(p, b, f)
  {
    hide Outside;
  }

  lemma StoppedIsBuilt(p: Program, names: Names, f: Id)
    requires IsProgram(p) && Fits(p, Visited(p), names) && Stopped(p, names) && f in Visited(p)
    ensures f in p.info && names[f] == BuildName(LabelOf(p, f), p.info[f].own, ToWrite(p, names, f))
    ensures ToWrite(p, names, f) == Previewed(ToWrite(p, names, f))
    ensures !HasCalls(p, f) ==> ToWrite(p, names, f) == {}
  {
    hide Visited, BuildName, NameShows, NewName, ToWrite;
    NewNameIsBuilt(p, names, f);
  }

  /** What the names that the passes stop at were built from. */
  ghost function StoppedChild(p: Program, names: Names): Child
    requires IsProgram(p) && Fits(p, Visited(p), names)
  {
    map f | f in Visited(p) && f in p.info :: ToWrite(p, names, f)
  }

  lemma FinalIsFixpoint(p: Program)
    requires IsProgram(p)
    ensures IsFixpoint(p, Visited(p), FinalChild(p))
  {
    hide Visited, ChildNow, ReachedCapabilities;
    VisitedIsListed(p);
    forall f | f in Visited(p) ensures FinalChild(p)[f] == ChildNow(p, FinalChild(p), f) {
      ReachedIsUnion(p, f);
    }
  }

  /** Running the renaming again changes no name. */
  method PreviewTwice(p: Program, names: Names) returns (once: Names, twice: Names)
    requires IsProgram(p) && Fits(p, Visited(p), names) && DefaultNames(p, names)
    ensures FinalNames(p, once) && twice == once
  {
    hide BuildName, ReadName, Visited, Reached, AllCapabilities;
    VisitedIsListed(p);
    once := PreviewCapabilities(p, names);
    twice := PreviewFrom(p, once);
    forall f | f in p.info ensures twice[f] == once[f] {
    }
  }

  // ----- from any names

  /** The given function lies on a cycle of calls through visited functions. */
  ghost predicate OnCallCycle(p: Program, v: set<Id>, f: Id) {
    exists chain :: IsChain(p, v, chain) && |chain| > 1 && chain[0] == f && chain[|chain| - 1] == f
  }

  /** Every visited function on a cycle of calls reaches every capability. */
  ghost predicate CyclesReachAll(p: Program)
    requires p.list <= p.callers.Keys
  {
    forall f, x :: f in Visited(p) && OnCallCycle(p, Visited(p), f) && InNomenclature(x) ==>
        Reached(p, Visited(p), f, x)
  }

  /** A state of names: only preview letters, and nothing where there are no calls. */
  ghost predicate Writable(p: Program, v: set<Id>, child: Child) {
    child.Keys == v <= p.info.Keys &&
    forall f :: f in v ==> child[f] == Previewed(child[f]) && (!HasCalls(p, f) ==> child[f] == {})
  }

  /** Along the path, which ends where x is written, x is not reachable. */
  ghost predicate StalePath(p: Program, v: set<Id>, child: Child, x: Capability, path: seq<Id>) {
    && |path| > 0 && (forall i :: 0 <= i < |path| ==> path[i] in v && !Reached(p, v, path[i], x))
    && (forall i :: 0 <= i < |path| - 1 ==> CallStep(p, v, path[i], path[i + 1]))
    && path[|path| - 1] in child && x in child[path[|path| - 1]]
  }

  /** A capability that a fixpoint shows without being reachable comes from a callee that shows it
      without reaching it either. */
  lemma StaleCallee(p: Program, v: set<Id>, child: Child, x: Capability, f: Id) returns (g: Id)
    requires IsFixpoint(p, v, child) && f in v && x in child[f] && !Reached(p, v, f, x)
    ensures CallStep(p, v, f, g) && g in v && x in child[g] && !Reached(p, v, g, x)
  {
    hide Reached, Previewed, Outside;
    assert x in ChildNow(p, child, f);
    if x in Outside(p, f) { OutsideIsReached(p, v, f, x); }
    g :| g in Callees(p, f) && g in child && x in Caps(p, child, g);
    assert CallStep(p, v, f, g);
    if x in Previewed(p.info[g].own) || Reached(p, v, g, x) { ChainPrepend(p, v, f, g, x); }
  }

  /** Followed far enough, such a path runs into itself. */
  lemma {:induction false} StaleCycle(p: Program, v: set<Id>, child: Child, x: Capability, path: seq<Id>)
      returns (f: Id)
    requires IsFixpoint(p, v, child) && StalePath(p, v, child, x, path)
    ensures f in v && OnCallCycle(p, v, f) && !Reached(p, v, f, x)
    decreases v - (set i | 0 <= i < |path| :: path[i])
  {
    hide Reached, CallStep, IsFixpoint;
    var n := |path|;
    var g := StaleCallee(p, v, child, x, path[n - 1]);
    if j :| 0 <= j < n && path[j] == g {
      CycleOf(p, v, path, j);
      f := g;
    } else {
      var longer := path + [g];
      assert (set i | 0 <= i < |longer| :: longer[i]) >= (set i | 0 <= i < n :: path[i]) + {g} by {
        assert longer[n] == g;
        forall i | 0 <= i < n ensures path[i] in (set i | 0 <= i < |longer| :: longer[i]) {
          assert longer[i] == path[i];
        }
      }
      assert g !in (set i | 0 <= i < n :: path[i]);
      forall i | 0 <= i < |longer| - 1 ensures CallStep(p, v, longer[i], longer[i + 1]) {
        if i < n - 1 { assert CallStep(p, v, path[i], path[i + 1]); }
      }
      FixpointKeys(p, v, child);
      f := StaleCycle(p, v, child, x, longer);
    }
  }

  lemma FixpointKeys(p: Program, v: set<Id>, child: Child)
    requires IsFixpoint(p, v, child)
    ensures child.Keys == v
  {
  }

  lemma CycleOf(p: Program, v: set<Id>, path: seq<Id>, j: nat)
    requires j < |path| && (forall i :: 0 <= i < |path| - 1 ==> CallStep(p, v, path[i], path[i + 1]))
    requires CallStep(p, v, path[|path| - 1], path[j])
    ensures OnCallCycle(p, v, path[j])
  {
    hide CallStep;
    var chain := path[j..] + [path[j]];
    forall i | 0 <= i < |chain| - 1 ensures CallStep(p, v, chain[i], chain[i + 1]) {
      if i < |chain| - 2 { assert CallStep(p, v, path[j + i], path[j + i + 1]); }
    }
    assert IsChain(p, v, chain) && chain[0] == path[j] && chain[|chain| - 1] == path[j];
  }

  /** When cycles reach everything, the final names are the only ones at which the passes can stop. */
  lemma OnlyFinalSettles(p: Program, child: Child)
    requires IsProgram(p) && CyclesReachAll(p) && IsFixpoint(p, Visited(p), child) && Writable(p, Visited(p), child)
    ensures child == FinalChild(p)
  {
    hide Visited, ChildNow, Reached, OnCallCycle, AllCapabilities;
    FinalIsSound(p);
    FinalIsFixpoint(p);
    FixpointIsLeast(p, Visited(p), FinalChild(p), child);
    forall f, x | f in child && x in child[f] ensures x in FinalChild(p)[f] {
      assert x in Previewed(child[f]);
      PreviewedIsKnown(x);
      if !Reached(p, Visited(p), f, x) {
        assert StalePath(p, Visited(p), child, x, [f]);
        var g := StaleCycle(p, Visited(p), child, x, [f]);
        assert false;
      }
    }
    forall f | f in child ensures child[f] <= FinalChild(p)[f] {
    }
    GrownBoth(FinalChild(p), child);
  }

  /** The function calls its way to a given one. */
  ghost predicate Above(p: Program, v: set<Id>, f: Id, target: Id) {
    exists chain :: IsChain(p, v, chain) && |chain| > 1 && chain[0] == f && chain[|chain| - 1] == target
  }

  lemma AbovePrepend(p: Program, v: set<Id>, f: Id, g: Id, target: Id)
    requires CallStep(p, v, f, g) && Above(p, v, g, target)
    ensures Above(p, v, f, target)
  {
    hide CallStep;
    var c :| IsChain(p, v, c) && |c| > 1 && c[0] == g && c[|c| - 1] == target;
    var chain := [f] + c;
    forall i | 0 <= i < |chain| - 1 ensures CallStep(p, v, chain[i], chain[i + 1]) {
      if i > 0 { assert CallStep(p, v, c[i - 1], c[i - 1 + 1]); }
    }
    assert IsChain(p, v, chain) && chain[0] == f && chain[|chain| - 1] == target;
  }

  /** The first call on the way to a target leads to it or above it. */
  lemma AboveStep(p: Program, v: set<Id>, f: Id, target: Id) returns (g: Id)
    requires Above(p, v, f, target)
    ensures CallStep(p, v, f, g) && (g == target || Above(p, v, g, target))
  {
    hide CallStep;
    var chain :| IsChain(p, v, chain) && |chain| > 1 && chain[0] == f && chain[|chain| - 1] == target;
    g := chain[1];
    assert CallStep(p, v, chain[0], chain[0 + 1]);
    if |chain| > 2 {
      var rest := chain[1..];
      forall i | 0 <= i < |rest| - 1 ensures CallStep(p, v, rest[i], rest[i + 1]) {
        assert CallStep(p, v, chain[i + 1], chain[i + 1 + 1]);
      }
      assert IsChain(p, v, rest) && rest[0] == g && rest[|rest| - 1] == target;
    }
  }

  /** The final names with x added to everything above a function on a cycle. */
  ghost function WithStale(p: Program, target: Id, x: Capability): Child
    requires p.list <= p.callers.Keys
  {
    map f | f in Visited(p) ::
      ReachedCapabilities(p, f) + if Above(p, Visited(p), f, target) then {x} else {}
  }

  lemma WithStaleMember(p: Program, target: Id, x: Capability, f: Id, y: Capability)
    requires IsProgram(p) && f in Visited(p) && target in Visited(p) && Above(p, Visited(p), target, target)
    ensures y in WithStale(p, target, x)[f] <==> y in ChildNow(p, WithStale(p, target, x), f)
  {
    hide Visited, Above, ReachedCapabilities, Previewed, CallStep, Outside;
    var v, stale := Visited(p), WithStale(p, target, x);
    VisitedIsListed(p);
    ReachedIsUnion(p, f);
    if y in ReachedCapabilities(p, f) && y !in Outside(p, f) {
      var g :| g in Callees(p, f) && g in FinalChild(p) && y in Caps(p, FinalChild(p), g);
      assert y in Caps(p, stale, g);
    }
    if Above(p, v, f, target) {
      var g := AboveStep(p, v, f, target);
      StepIsCall(p, v, f, g);
      assert x in Caps(p, stale, g);
    }
    if y in ChildNow(p, stale, f) && y !in Outside(p, f) {
      var g :| g in Callees(p, f) && g in stale && y in Caps(p, stale, g);
      StepIsCall(p, v, f, g);
      if y in Caps(p, FinalChild(p), g) {
        assert y in ChildNow(p, FinalChild(p), f);
      } else {
        AbovePrepend(p, v, f, g, target);
      }
    }
  }

  lemma StepIsCall(p: Program, v: set<Id>, f: Id, g: Id)
    requires f in p.info
    ensures CallStep(p, v, f, g) <==> g in Callees(p, f) && g in v
  {
  }

  /** When a cycle misses a capability, there are other names at which the passes stop at once. */
  lemma StaleSettles(p: Program, target: Id, x: Capability)
    requires IsProgram(p) && target in Visited(p) && OnCallCycle(p, Visited(p), target)
    requires InNomenclature(x) && !Reached(p, Visited(p), target, x)
    ensures IsFixpoint(p, Visited(p), WithStale(p, target, x)) && Writable(p, Visited(p), WithStale(p, target, x))
    ensures WithStale(p, target, x) != FinalChild(p)
  {
    var v, stale := Visited(p), WithStale(p, target, x);
    assert Above(p, v, target, target);
    hide Visited, Above, ChildNow, Reached, AllCapabilities, ReachedCapabilities, Previewed, InNomenclature,
        OnCallCycle,
         WithStale;
    VisitedIsListed(p);
    forall f | f in v ensures f in stale && stale[f] == ChildNow(p, stale, f) {
      WithStaleKeys(p, target, x);
      forall y ensures y in stale[f] <==> y in ChildNow(p, stale, f) {
        WithStaleMember(p, target, x, f, y);
      }
    }
    forall f | f in v
      ensures f in stale && stale[f] == Previewed(stale[f]) && (!HasCalls(p, f) ==> stale[f] == {})
    {
      WithStaleIsPreviewed(p, target, x, f);
      if !HasCalls(p, f) { ChildNowEmpty(p, stale, f); }
    }
    WithStaleKeys(p, target, x);
    WithStaleDiffers(p, target, x);
  }

  lemma WithStaleKeys(p: Program, target: Id, x: Capability)
    requires p.list <= p.callers.Keys
    ensures WithStale(p, target, x).Keys == Visited(p)
  {
  }

  lemma WithStaleIsPreviewed(p: Program, target: Id, x: Capability, f: Id)
    requires IsProgram(p) && InNomenclature(x) && f in Visited(p)
    ensures WithStale(p, target, x)[f] == Previewed(WithStale(p, target, x)[f])
  {
    hide Visited, Above, Reached, AllCapabilities;
    forall y | y in WithStale(p, target, x)[f] ensures InNomenclature(y) {
      KnownIsPreviewed(y);
    }
  }

  lemma WithStaleDiffers(p: Program, target: Id, x: Capability)
    requires IsProgram(p) && target in Visited(p) && Above(p, Visited(p), target, target)
    requires !Reached(p, Visited(p), target, x)
    ensures WithStale(p, target, x) != FinalChild(p)
  {
    hide Visited, Above, Reached, AllCapabilities;
    assert x in WithStale(p, target, x)[target] && x !in FinalChild(p)[target];
  }

  /** The final names are the only ones at which the passes can stop exactly when every visited
      function on a cycle of calls reaches every capability. */
  lemma OnlyFinalSettlesIff(p: Program)
    requires IsProgram(p)
    ensures CyclesReachAll(p) <==>
            forall child :: IsFixpoint(p, Visited(p), child) && Writable(p, Visited(p), child) ==>
                child == FinalChild(p)
  {
    hide IsFixpoint, Writable, FinalChild, Visited, Reached, OnCallCycle;
    if CyclesReachAll(p) {
      forall child | IsFixpoint(p, Visited(p), child) && Writable(p, Visited(p), child) ensures child == FinalChild(p) {
        OnlyFinalSettles(p, child);
      }
    } else {
      var f, x :| f in Visited(p) && OnCallCycle(p, Visited(p), f) && InNomenclature(x) &&
          !Reached(p, Visited(p), f, x);
      StaleSettles(p, f, x);
    }
  }

  /** Names that are written from a fixpoint are left as they are. */
  lemma FixpointNamesStay(p: Program, names: Names, child: Child, v: set<Id>, f: Id)
    requires Encodes(p, v, names, child) && IsFixpoint(p, v, child) && f in v
    ensures f in p.info && Callees(p, f) <= names.Keys && NewName(p, names, f) == names[f]
  {
    hide BuildName, NameShows, ChildNow, NewName, ToWrite;
    EncodedCallees(p, v, names, child, f);
    NewNameIsBuilt(p, names, f);
    ChildReadIsNow(p, v, names, child, f);
  }

  /** Every state of the visited names can be written down. */
  lemma NamesFor(p: Program, names: Names, child: Child) returns (names': Names)
    requires IsProgram(p) && Fits(p, Visited(p), names) && Writable(p, Visited(p), child)
    ensures Encodes(p, Visited(p), names', child)
    ensures forall f :: f in names && f !in Visited(p) ==> names'[f] == names[f]
  {
    hide Visited, BuildName, NameShows;
    VisitedIsListed(p);
    names' := map f | f in p.info ::
      if f in child then BuildName(LabelOf(p, f), p.info[f].own, child[f]) else names[f];
    forall f | f in p.shown ensures NameShows(names', f) == NameShows(names, f) {
      SameShows(names, names', f);
    }
  }

  /** When a cycle misses a capability, the visited functions can have names that are not the final
      ones and stay for ever. */
  lemma WrongNamesStay(p: Program, names: Names) returns (names': Names)
    requires IsProgram(p) && Fits(p, Visited(p), names) && !CyclesReachAll(p)
    ensures Fits(p, Visited(p), names') && Stopped(p, names') && !FinalNames(p, names')
    ensures forall f :: f in names && f !in Visited(p) ==> names'[f] == names[f]
  {
    hide Visited, Reached, OnCallCycle, FinalChild, NewName, IsFixpoint, Writable, WithStale, InNomenclature,
         Callees, BuildName, NameShows, FinalNames;
    var f, x :| f in Visited(p) && OnCallCycle(p, Visited(p), f) && InNomenclature(x) && !Reached(p, Visited(p), f, x);
    StaleSettles(p, f, x);
    var child := WithStale(p, f, x);
    names' := NamesFor(p, names, child);
    forall g | g in Visited(p)
      ensures g in p.info && Callees(p, g) <= names'.Keys && NewName(p, names', g) == names'[g]
    {
      FixpointNamesStay(p, names', child, Visited(p), g);
    }
    StaleIsNotFinal(p, names', f, x);
  }

  /** The leftover capability is read from the name of the function on the cycle. */
  lemma StaleIsNotFinal(p: Program, names: Names, f: Id, x: Capability)
    requires IsProgram(p) && Encodes(p, Visited(p), names, WithStale(p, f, x))
    requires f in Visited(p) && OnCallCycle(p, Visited(p), f) && InNomenclature(x) && !Reached(p, Visited(p), f, x)
    ensures !FinalNames(p, names)
  {
    hide Visited, Reached, IsChain, InNomenclature, BuildName, ReadName, AllCapabilities;
    VisitedIsListed(p);
    CycleHasOwn(p, Visited(p), f, x);
    ReadEncoded(p, Visited(p), names, WithStale(p, f, x), f);
    assert Above(p, Visited(p), f, f) && x in WithStale(p, f, x)[f];
    assert x in NameShows(names, f) && x in ReadName(names[f]);
  }

  /** A function on a cycle reaches what it has itself. */
  lemma CycleHasOwn(p: Program, v: set<Id>, f: Id, x: Capability)
    requires f in p.info && OnCallCycle(p, v, f)
    ensures x in Previewed(p.info[f].own) ==> Reached(p, v, f, x)
  {
    hide CallStep, Outside, Previewed;
    var chain :| IsChain(p, v, chain) && |chain| > 1 && chain[0] == f && chain[|chain| - 1] == f;
    assert x in Previewed(p.info[f].own) ==> ChainShows(p, v, f, x, chain);
  }

  /** Everything shown everywhere. */
  ghost function Top(p: Program): Child
    requires p.list <= p.callers.Keys
  {
    map f | f in Visited(p) :: AllCapabilities()
  }

  lemma TopBounds(p: Program, names: Names)
    requires IsProgram(p) && Fits(p, Visited(p), names) && CyclesReachAll(p)
    ensures Closed(p, Visited(p), Top(p)) && OneBelow(p, Visited(p), Top(p)) && ShowAtMost(p, names, Top(p))
  {
    hide Visited, NameShows, AllCapabilities, CyclesReachAll, ChildNow;
    VisitedIsListed(p);
    forall f | f in Visited(p) ensures ChildNow(p, Top(p), f) <= Top(p)[f] {
      TopIsClosed(p, f);
    }
    forall f | f in Visited(p) ensures Previewed(NameShows(names, f)) <= Caps(p, Top(p), f) {
      forall x | x in Previewed(NameShows(names, f)) ensures x in Top(p)[f] {
        PreviewedIsKnown(x);
      }
    }
    forall c | IsFixpoint(p, Visited(p), c) && Grown(c, Top(p)) ensures c == FinalChild(p) {
      BelowTopIsWritable(p, c);
      OnlyFinalSettles(p, c);
    }
  }

  lemma TopIsClosed(p: Program, f: Id)
    requires IsProgram(p) && f in Visited(p)
    ensures f in p.info && ChildNow(p, Top(p), f) <= Top(p)[f]
  {
    hide Visited, AllCapabilities;
    VisitedIsListed(p);
    forall x | x in ChildNow(p, Top(p), f) ensures x in Top(p)[f] {
      if x in Outside(p, f) {
        PreviewedIsKnown(x);
      } else {
        var g :| g in Callees(p, f) && g in Top(p) && x in Caps(p, Top(p), g);
        if x in Previewed(p.info[g].own) { PreviewedIsKnown(x); }
      }
    }
  }

  lemma BelowTopIsWritable(p: Program, c: Child)
    requires IsProgram(p) && IsFixpoint(p, Visited(p), c) && Grown(c, Top(p))
    ensures Writable(p, Visited(p), c)
  {
    hide Visited, ChildNow, AllCapabilities;
    VisitedIsListed(p);
    forall f, x | f in c && x in c[f] ensures InNomenclature(x) {
      assert x in Top(p)[f];
      KnownIsPreviewed(x);
    }
    forall f | f in c ensures c[f] == Previewed(c[f]) && (!HasCalls(p, f) ==> c[f] == {}) {
      if !HasCalls(p, f) { ChildNowEmpty(p, c, f); }
    }
  }

  lemma KnownIsPreviewed(x: Capability)
    ensures x in AllCapabilities() ==> InNomenclature(x)
  {
  }

  /** Where cycles reach everything, the renaming ends at the final names whatever texts the
      functions above a leaf have as names. */
  method PreviewAny(p: Program, names: Names) returns (names': Names)
    requires IsProgram(p) && Fits(p, Visited(p), names) && CyclesReachAll(p)
    ensures FinalNames(p, names')
    ensures forall f :: f in names && f !in Visited(p) ==> names'[f] == names[f]
  {
    hide Fits, Visited, FinalNames, CyclesReachAll, ShowAtMost;
    TopBounds(p, names);
    names' := PreviewBelow(p, names, Top(p));
  }

  // ----- names left over from another program

  /** The written child capabilities after renaming the given functions one after the other. */
  ghost function RenamedInOrder(p: Program, child: Child, order: seq<Id>): Child
    requires IsProgram(p) && forall f :: f in order ==> f in p.info
    decreases |order|
  {
    if |order| == 0 then child
    else RenamedInOrder(p, child[order[0] := ChildNow(p, child, order[0])], order[1..])
  }

  function Caller(targets: set<Id>): Info {
    Info("", 0, {}, targets, true)
  }

  /** A leaf called by three functions that call each other in a ring: 1 calls 2, 2 calls 3, 3 calls 1. */
  function Ring(): Program {
    Program(map[0 := Caller({}), 1 := Caller({0, 2}), 2 := Caller({0, 3}), 3 := Caller({0, 1})],
            {0, 1, 2, 3},
            map[0 := {1, 2, 3}, 1 := {3}, 2 := {1}, 3 := {2}], map[])
  }

  function AroundRing(f: Id): Id {
    if f == 3 then 1 else f + 1
  }

  lemma RingIsProgram()
    ensures IsProgram(Ring()) && Ring().info.Keys == {0, 1, 2, 3} && Leaves(Ring()) == {0}
    ensures Ring().callers[0] * Ring().list == {1, 2, 3}
  {
  }

  lemma RingCallees(f: Id)
    requires 1 <= f <= 3
    ensures f in Ring().info && Callees(Ring(), f) == {0, AroundRing(f)}
  {
  }

  lemma RingOwn(f: Id)
    requires f <= 3
    ensures f in Ring().info && Ring().info[f].own == {}
  {
  }

  /** The names of the ring show x at the given functions and nothing else. */
  function RingChild(x: Capability, at: set<Id>): Child {
    map f: Id | f in {0, 1, 2, 3} :: if f in at then {x} else {}
  }

  lemma RingNow(x: Capability, at: set<Id>, f: Id)
    requires 1 <= f <= 3 && 0 !in at
    ensures IsProgram(Ring()) && f in Ring().info
    ensures ChildNow(Ring(), RingChild(x, at), f) == RingChild(x, at)[AroundRing(f)]
  {
    RingIsProgram();
    RingCallees(f);
    RingShowsNothing(f);
    RingCaps(x, at, 0);
    RingCaps(x, at, AroundRing(f));
    hide Ring, IsProgram, Callees, Caps, Outside;
  }

  lemma RingCaps(x: Capability, at: set<Id>, f: Id)
    requires f <= 3
    ensures f in Ring().info && Caps(Ring(), RingChild(x, at), f) == RingChild(x, at)[f]
  {
    hide Previewed, Ring;
    RingOwn(f);
    PreviewedNothing();
  }

  lemma RingShowsNothing(f: Id)
    ensures Outside(Ring(), f) == {}
  {
  }

  /** One renaming in the ring: a function takes over what the next one shows. */
  lemma RingStep(x: Capability, at: set<Id>, f: Id)
    requires 1 <= f <= 3 && 0 !in at
    ensures IsProgram(Ring()) && f in Ring().info
    ensures RingChild(x, at)[f := ChildNow(Ring(), RingChild(x, at), f)]
         == RingChild(x, if AroundRing(f) in at then at + {f} else at - {f})
  {
    hide Ring, IsProgram, ChildNow;
    RingNow(x, at, f);
  }

  lemma RingLeaf(x: Capability, at: set<Id>)
    requires 0 !in at
    ensures IsProgram(Ring()) && 0 in Ring().info
    ensures RingChild(x, at)[0 := ChildNow(Ring(), RingChild(x, at), 0)] == RingChild(x, at)
  {
    RingIsProgram();
    var child := RingChild(x, at);
    assert Callees(Ring(), 0) == {};
    assert ChildNow(Ring(), child, 0) == {} && child[0] == {};
    assert child[0 := child[0]] == child;
  }

  /** One pass that visits the leaf and then 2, 3 and 1. */
  lemma RingPass(x: Capability, at: set<Id>, after: set<Id>)
    requires 0 !in at
    requires var a := if 3 in at then at + {2} else at - {2};
             var b := if 1 in a then a + {3} else a - {3};
             after == if 2 in b then b + {1} else b - {1}
    ensures IsProgram(Ring()) && (forall f :: f in [0, 2, 3, 1] ==> f in Ring().info)
    ensures RenamedInOrder(Ring(), RingChild(x, at), [0, 2, 3, 1]) == RingChild(x, after)
  {
    RingIsProgram();
    hide Ring, IsProgram, ChildNow, RingChild;
    var p, order := Ring(), [0, 2, 3, 1];
    var a := if 3 in at then at + {2} else at - {2};
    var b := if 1 in a then a + {3} else a - {3};
    RingLeaf(x, at);
    RingStep(x, at, 2);
    RingStep(x, a, 3);
    RingStep(x, b, 1);
    assert order[1..] == [2, 3, 1] && [2, 3, 1][1..] == [3, 1] && [3, 1][1..] == [1] && [1][1..] == [];
    assert RenamedInOrder(p, RingChild(x, after), []) == RingChild(x, after);
    assert RenamedInOrder(p, RingChild(x, b), [1]) == RingChild(x, after);
    assert RenamedInOrder(p, RingChild(x, a), [3, 1]) == RingChild(x, after);
    assert RenamedInOrder(p, RingChild(x, at), [2, 3, 1]) == RingChild(x, after);
  }

  /** Names left over from other calls can keep the passes going for ever: when the level above the leaf
      is renamed in the order 2, 3, 1, a capability that only 3 shows is shown by 1 and 2 after one pass and by
      3 alone again after the next, and each pass changes names, although no function has it. */
  lemma StaleNamesNeverSettle(x: Capability)
    requires InNomenclature(x)
    ensures IsProgram(Ring()) && Leaves(Ring()) == {0} && Ring().callers[0] * Ring().list == {1, 2, 3}
    ensures forall f :: f in [0, 2, 3, 1] ==> f in Ring().info
    ensures RenamedInOrder(Ring(), RingChild(x, {3}), [0, 2, 3, 1]) == RingChild(x, {1, 2})
    ensures RenamedInOrder(Ring(), RingChild(x, {1, 2}), [0, 2, 3, 1]) == RingChild(x, {3})
    ensures BuildName(LabelOf(Ring(), 3), {}, RingChild(x, {3})[3]) !=
            BuildName(LabelOf(Ring(), 3), {}, RingChild(x, {1, 2})[3])
  {
    hide BuildName, ReadName, RenamedInOrder;
    RingIsProgram();
    RingPass(x, {3}, {1, 2});
    RingPass(x, {1, 2}, {3});
    var shown, none: set<Capability> := LabelOf(Ring(), 3), {};
    assert none + {x} == {x} && none + none == none;
    ReadBuiltName(shown, none, {x});
    ReadBuiltName(shown, none, none);
    assert x in Previewed({x}) && x !in Previewed(none);
  }
}
