/**
 * The analyzer's function table: functions with their bounds, the index from
 * start address to position, and decoded listings kept in the functions and in
 * a cache, across the passes that rename, extend, add, sort and decode.
 */
module FunctionTable {
  import opened Instructions
  import opened Options
  import opened Sorting
  import Cfg

  datatype Function = Function(name: string, start: nat, end: nat, instructions: seq<Instruction>)

  datatype Match = Match(address: nat, size: nat, name: string)

  /** One well-formed line of an imported map. */
  datatype MapLine = MapLine(name: string, start: nat, end: nat)

  /** What decoding the word at an address gives; None when it cannot be read or decoded. */
  type Decoder = nat -> Option<Instruction>

  datatype Table = Table(functions: seq<Function>, index: map<nat, nat>, cache: map<nat, seq<Instruction>>)

  // ----- decoding

  /** The listing of the words in [start, end), skipping those that do not decode. */
  function FreshDecode(d: Decoder, start: nat, end: nat): seq<Instruction>
    decreases end - start
  {
    if start >= end then []
    else
      DecodedAt(d, start) + FreshDecode(d, start + 4, end)
  }

  /** What the word at an address adds to a listing. */
  function DecodedAt(d: Decoder, addr: nat): seq<Instruction> {
    match d(addr)
    case None => []
    case Some(i) => [i]
  }

  /** The address the decoding loop visits after n rounds, in 32-bit arithmetic. */
  ghost function LoopAddress(start: nat, n: nat): nat {
    (start + 4 * n) % WORD
  }

  /** The loop over 32-bit addresses can only stop when the end is not above the last address
      that is congruent to the start. */
  predicate LoopEnds(start: nat, end: nat) {
    start >= end || end <= WORD - 4 + start % 4
  }

  lemma LoopEndsIff(start: nat, end: nat)
    requires start < WORD && end < WORD
    ensures LoopEnds(start, end) <==> exists n: nat :: LoopAddress(start, n) >= end
  {
    if LoopEnds(start, end) {
      if start >= end {
        assert LoopAddress(start, 0) >= end;
      } else {
        var n := (WORD - 4 + start % 4 - start) / 4;
        assert start + 4 * n == WORD - 4 + start % 4;
        assert LoopAddress(start, n) >= end;
      }
    } else {
      forall n: nat ensures LoopAddress(start, n) < end {
        KeepsResidue(start, n);
      }
    }
  }

  lemma KeepsResidue(start: nat, n: nat)
    ensures LoopAddress(start, n) % 4 == start % 4 && LoopAddress(start, n) <= WORD - 4 + start % 4
  {
  }

  method DecodeFunction(d: Decoder, f: Function) returns (instructions: seq<Instruction>)
    requires f.start < WORD && f.end < WORD && LoopEnds(f.start, f.end)
    ensures instructions == FreshDecode(d, f.start, f.end)
  {
    hide FreshDecode, LoopEnds;
    instructions := [];
    var addr := f.start;
    while addr < f.end
      invariant f.start <= addr && (addr >= f.end || addr % 4 == f.start % 4)
      invariant instructions + FreshDecode(d, addr, f.end) == FreshDecode(d, f.start, f.end)
      decreases f.end - addr
    {
      NoWrap(f.start, f.end, addr);
      FreshDecodeStep(d, addr, f.end, instructions);
      match d(addr) {
        case None =>
        case Some(i) => instructions := instructions + [i];
      }
      addr := (addr + 4) % WORD;
    }
    FreshDecodeEnds(d, addr, f.end);
  }

  lemma NoWrap(start: nat, end: nat, addr: nat)
    requires LoopEnds(start, end) && start <= addr < end && end < WORD && addr % 4 == start % 4
    ensures addr + 4 < WORD && (addr + 4) % 4 == start % 4
  {
  }

  lemma FreshDecodeStep(d: Decoder, addr: nat, end: nat, before: seq<Instruction>)
    requires addr < end
    ensures before + FreshDecode(d, addr, end) == before + DecodedAt(d, addr) + FreshDecode(d, addr + 4, end)
    ensures d(addr).None? ==> before + DecodedAt(d, addr) == before
  {
    var now, rest := DecodedAt(d, addr), FreshDecode(d, addr + 4, end);
    assert FreshDecode(d, addr, end) == now + rest;
    hide FreshDecode;
    assert before + (now + rest) == before + now + rest;
  }

  lemma FreshDecodeEnds(d: Decoder, addr: nat, end: nat)
    requires addr >= end
    ensures FreshDecode(d, addr, end) == []
  {
  }

  /** The decoder records the address it was asked about. */
  ghost predicate RecordsAddresses(d: Decoder) {
    forall a: nat :: d(a).Some? ==> d(a).value.address == a
  }

  lemma {:induction false} FreshDecodeWithin(d: Decoder, start: nat, end: nat)
    requires RecordsAddresses(d)
    ensures Cfg.Ascending(FreshDecode(d, start, end))
    ensures forall i :: 0 <= i < |FreshDecode(d, start, end)| ==> start <= FreshDecode(d, start, end)[i].address < end
    decreases end - start
  {
    if start < end { FreshDecodeWithin(d, start + 4, end); }
  }

  /** Every word in [start, end) decodes. */
  ghost predicate AllDecode(d: Decoder, start: nat, end: nat) {
    forall k: nat :: WordAt(start, k) < end ==> d(WordAt(start, k)).Some?
  }

  /** When every word decodes, the listing has one instruction per word. */
  lemma {:induction false} FullDecodeAt(d: Decoder, start: nat, end: nat)
    requires RecordsAddresses(d) && AllDecode(d, start, end)
    ensures var l := FreshDecode(d, start, end);
            && (start < end ==> |l| > 0 && start + 4 * (|l| - 1) < end <= start + 4 * |l|)
            && forall i :: 0 <= i < |l| ==> l[i].address == start + 4 * i
    decreases end - start
  {
    if start < end {
      assert WordAt(start, 0) == start;
      var next := start + 4;
      forall k: nat | WordAt(next, k) < end ensures d(WordAt(next, k)).Some? {
        assert WordAt(next, k) == WordAt(start, k + 1);
      }
      FullDecodeAt(d, next, end);
      var l, rest := FreshDecode(d, start, end), FreshDecode(d, start + 4, end);
      assert l == [d(start).value] + rest;
      forall i | 0 <= i < |l| ensures l[i].address == start + 4 * i {
        if i > 0 { assert l[i] == rest[i - 1]; }
      }
    }
  }

  /** The listing of a function whose words all decode meets what the control-flow results ask of a
      listing exactly when the function is not at address zero and the two words after its last one
      fit into the address space. For aligned functions this is the bound of the decoding loop. */
  lemma FullDecodeIsContiguous(d: Decoder, f: Function)
    requires RecordsAddresses(d) && f.start < f.end && AllDecode(d, f.start, f.end)
    ensures Cfg.Contiguous(Cfg.Function(f.start, f.end), FreshDecode(d, f.start, f.end))
       <==> f.start > 0 && f.end <= WORD - 4 - (if f.start % 4 == 0 then 0 else 4 - f.start % 4)
    ensures 0 < f.start && f.start % 4 == 0 && LoopEnds(f.start, f.end) ==>
            Cfg.Contiguous(Cfg.Function(f.start, f.end), FreshDecode(d, f.start, f.end))
  {
    hide FreshDecode;
    FullDecodeAt(d, f.start, f.end);
  }

  // ----- the index

  ghost predicate DistinctStarts(fs: seq<Function>) {
    forall i, j :: 0 <= i < j < |fs| ==> fs[i].start != fs[j].start
  }

  function StartKey(f: Function): int {
    f.start
  }

  function BuildIndex(fs: seq<Function>): map<nat, nat> {
    if |fs| == 0 then map[] else BuildIndex(fs[..|fs| - 1])[fs[|fs| - 1].start := |fs| - 1]
  }

  /** Linear search by start. */
  function Find(fs: seq<Function>, start: nat): Option<nat> {
    if |fs| == 0 then None
    else
      match Find(fs[..|fs| - 1], start)
      case Some(i) => Some(i)
      case None => if fs[|fs| - 1].start == start then Some(|fs| - 1) else None
  }

  lemma {:induction false} FindIsFirst(fs: seq<Function>, start: nat)
    ensures match Find(fs, start)
            case Some(i) => i < |fs| && fs[i].start == start && forall j :: 0 <= j < i ==> fs[j].start != start
            case None => forall j :: 0 <= j < |fs| ==> fs[j].start != start
  {
    if |fs| > 0 { FindIsFirst(fs[..|fs| - 1], start); }
  }

  /** The index names exactly the starts in the table, each at a position that has it. */
  ghost predicate IndexOk(fs: seq<Function>, index: map<nat, nat>) {
    && (forall s :: s in index ==> index[s] < |fs| && fs[index[s]].start == s)
    && (forall i :: 0 <= i < |fs| ==> fs[i].start in index)
  }

  lemma {:induction false} BuildIndexOk(fs: seq<Function>)
    ensures IndexOk(fs, BuildIndex(fs))
  {
    if |fs| > 0 { BuildIndexOk(fs[..|fs| - 1]); }
  }

  /** On distinct starts the index answers as linear search does. */
  lemma IndexAgreesWithSearch(fs: seq<Function>, index: map<nat, nat>, s: nat)
    requires IndexOk(fs, index) && DistinctStarts(fs)
    ensures Find(fs, s) == if s in index then Some(index[s]) else None
  {
    FindIsFirst(fs, s);
  }

  // ----- the passes as functions of the table

  function Cleared(fs: seq<Function>): (r: seq<Function>)
    ensures |r| == |fs|
  {
    seq(|fs|, i requires 0 <= i < |fs| => fs[i].(instructions := []))
  }

  function Max(a: nat, b: nat): nat {
    if a < b then b else a
  }

  function AddMatch(t: Table, m: Match): Table {
    if m.size > WORD - 1 - m.address then t
    else if m.address in t.index then
      var i := t.index[m.address];
      if i < |t.functions| then
        var f := t.functions[i];
        t.(functions := t.functions[i := f.(name := m.name, end := Max(f.end, m.address + m.size))])
      else t
    else
      t.(functions := t.functions + [Function(m.name, m.address, m.address + m.size, [])],
         index := t.index[m.address := |t.functions|])
  }

  function AddMatches(t: Table, ms: seq<Match>): Table {
    if |ms| == 0 then t else AddMatch(AddMatches(t, ms[..|ms| - 1]), ms[|ms| - 1])
  }

  /** Sorted, reindexed, with every decoded listing dropped. */
  function Settled(fs: seq<Function>): Table {
    var sorted := Sort(Cleared(fs), StartKey);
    Table(sorted, BuildIndex(sorted), map[])
  }

  /** discoverSceSdkSymbols, given the scanner's matches. */
  function Discovered(t: Table, ms: seq<Match>): Table {
    if |ms| == 0 then t else Settled(AddMatches(t, ms).functions)
  }

  function AddLine(fs: seq<Function>, line: MapLine): seq<Function> {
    match Find(fs, line.start)
    case Some(i) => if i < |fs| then fs[i := fs[i].(name := line.name, end := line.end)] else fs
    case None => fs + [Function(line.name, line.start, line.end, [])]
  }

  function AddLines(fs: seq<Function>, lines: seq<MapLine>): seq<Function> {
    if |lines| == 0 then fs else AddLine(AddLines(fs, lines[..|lines| - 1]), lines[|lines| - 1])
  }

  /** importGhidraMap, given the well-formed lines. */
  function Imported(t: Table, lines: seq<MapLine>): Table {
    Settled(AddLines(t.functions, lines))
  }

  function Decoded(d: Decoder, libs: set<string>, f: Function): Function {
    if f.name in libs || f.start >= f.end || f.instructions != [] then f
    else f.(instructions := FreshDecode(d, f.start, f.end))
  }

  /** decodeAllFunctionsOnce. */
  function AllDecoded(d: Decoder, libs: set<string>, t: Table): Table {
    Table(seq(|t.functions|, i requires 0 <= i < |t.functions| => Decoded(d, libs, t.functions[i])), t.index, map[])
  }

  /** The listing getDecodedInstructions hands out for the function at position i. */
  function Listing(d: Decoder, t: Table, i: nat): seq<Instruction>
    requires i < |t.functions|
  {
    var f := t.functions[i];
    if f.instructions != [] || f.start >= f.end then f.instructions
    else if f.start in t.cache then t.cache[f.start]
    else FreshDecode(d, f.start, f.end)
  }

  /** The table after that request. */
  function Requested(d: Decoder, t: Table, i: nat): Table
    requires i < |t.functions|
  {
    var f := t.functions[i];
    if f.instructions != [] || f.start >= f.end || f.start in t.cache then t
    else t.(cache := t.cache[f.start := FreshDecode(d, f.start, f.end)])
  }

  // ----- the invariant

  ghost predicate ListingsOk(d: Decoder, fs: seq<Function>) {
    forall i :: 0 <= i < |fs| ==>
      fs[i].instructions == [] || fs[i].instructions == FreshDecode(d, fs[i].start, fs[i].end)
  }

  ghost predicate CacheOk(d: Decoder, fs: seq<Function>, cache: map<nat, seq<Instruction>>) {
    forall i :: 0 <= i < |fs| && fs[i].start in cache ==> cache[fs[i].start] == FreshDecode(d, fs[i].start, fs[i].end)
  }

  ghost predicate Ok(d: Decoder, t: Table) {
    && DistinctStarts(t.functions) && IndexOk(t.functions, t.index)
    && ListingsOk(d, t.functions) && CacheOk(d, t.functions, t.cache)
  }

  ghost predicate StartsOk(t: Table) {
    DistinctStarts(t.functions) && IndexOk(t.functions, t.index)
  }

  lemma AddMatchKeeps(t: Table, m: Match)
    requires StartsOk(t)
    ensures StartsOk(AddMatch(t, m))
  {
  }

  lemma {:induction false} AddMatchesKeeps(t: Table, ms: seq<Match>)
    requires StartsOk(t)
    ensures StartsOk(AddMatches(t, ms))
  {
    if |ms| > 0 {
      AddMatchesKeeps(t, ms[..|ms| - 1]);
      AddMatchKeeps(AddMatches(t, ms[..|ms| - 1]), ms[|ms| - 1]);
    }
  }

  lemma {:induction false} AddLinesKeeps(fs: seq<Function>, lines: seq<MapLine>)
    requires DistinctStarts(fs)
    ensures DistinctStarts(AddLines(fs, lines))
  {
    if |lines| > 0 {
      var before, line := AddLines(fs, lines[..|lines| - 1]), lines[|lines| - 1];
      AddLinesKeeps(fs, lines[..|lines| - 1]);
      FindIsFirst(before, line.start);
    }
  }

  lemma SettledOk(d: Decoder, fs: seq<Function>)
    requires DistinctStarts(fs)
    ensures Ok(d, Settled(fs)) && StrictlySortedBy(Settled(fs).functions, StartKey)
  {
    var cleared := Cleared(fs);
    var sorted := Sort(cleared, StartKey);
    SortDistinct(cleared, StartKey);
    SortMembers(cleared, StartKey);
    BuildIndexOk(sorted);
    forall i | 0 <= i < |sorted| ensures sorted[i].instructions == [] {
      assert sorted[i] in cleared;
    }
    StrictIsDistinct(sorted);
  }

  lemma StrictIsDistinct(fs: seq<Function>)
    requires StrictlySortedBy(fs, StartKey)
    ensures DistinctStarts(fs)
  {
    forall i, j | 0 <= i < j < |fs| ensures fs[i].start != fs[j].start {
      assert StartKey(fs[i]) < StartKey(fs[j]);
    }
  }

  // ----- runs

  datatype Op =
    | Discover(matches: seq<Match>)
    | Import(lines: seq<MapLine>)
    | DecodeAll(libs: set<string>)
    | Request(position: nat)

  function Apply(d: Decoder, t: Table, op: Op): Table {
    match op
    case Discover(ms) => Discovered(t, ms)
    case Import(lines) => Imported(t, lines)
    case DecodeAll(libs) => AllDecoded(d, libs, t)
    case Request(i) => if i < |t.functions| then Requested(d, t, i) else t
  }

  function Run(d: Decoder, t: Table, ops: seq<Op>): Table {
    if |ops| == 0 then t else Apply(d, Run(d, t, ops[..|ops| - 1]), ops[|ops| - 1])
  }

  lemma ApplyKeepsOk(d: Decoder, t: Table, op: Op)
    requires Ok(d, t)
    ensures Ok(d, Apply(d, t, op))
  {
    hide FreshDecode, BuildIndex;
    match op
    case Discover(ms) =>
      if |ms| > 0 {
        AddMatchesKeeps(t, ms);
        SettledOk(d, AddMatches(t, ms).functions);
      }
    case Import(lines) =>
      AddLinesKeeps(t.functions, lines);
      SettledOk(d, AddLines(t.functions, lines));
    case DecodeAll(libs) => DecodeAllKeepsOk(d, libs, t);
    case Request(i) => if i < |t.functions| { RequestKeepsOk(d, t, i); }
  }

  lemma DecodeAllKeepsOk(d: Decoder, libs: set<string>, t: Table)
    requires Ok(d, t)
    ensures Ok(d, AllDecoded(d, libs, t))
  {
    hide FreshDecode;
  }

  lemma RequestKeepsOk(d: Decoder, t: Table, i: nat)
    requires Ok(d, t) && i < |t.functions|
    ensures Ok(d, Requested(d, t, i))
  {
    hide FreshDecode;
  }

  lemma {:induction false} RunKeepsOk(d: Decoder, t: Table, ops: seq<Op>)
    requires Ok(d, t)
    ensures Ok(d, Run(d, t, ops))
  {
    if |ops| > 0 {
      RunKeepsOk(d, t, ops[..|ops| - 1]);
      ApplyKeepsOk(d, Run(d, t, ops[..|ops| - 1]), ops[|ops| - 1]);
    }
  }

  /** In every run over a table with distinct starts, starts stay distinct, lookup by index agrees
      with linear search, and every listing handed out is a fresh decode of the current bounds. */
  lemma EveryRunAnswersFreshly(d: Decoder, fs: seq<Function>, ops: seq<Op>, i: nat, s: nat)
    requires DistinctStarts(fs) && (forall k :: 0 <= k < |fs| ==> fs[k].instructions == [])
    ensures var t := Run(d, Table(fs, BuildIndex(fs), map[]), ops);
            && DistinctStarts(t.functions)
            && Find(t.functions, s) == (if s in t.index then Some(t.index[s]) else None)
            && (i < |t.functions| ==> Listing(d, t, i) == FreshDecode(d, t.functions[i].start, t.functions[i].end))
  {
    hide FreshDecode;
    var t0 := Table(fs, BuildIndex(fs), map[]);
    BuildIndexOk(fs);
    RunKeepsOk(d, t0, ops);
    var t := Run(d, t0, ops);
    IndexAgreesWithSearch(t.functions, t.index, s);
    if i < |t.functions| { ListingIsFresh(d, t, i); }
  }

  lemma ListingIsFresh(d: Decoder, t: Table, i: nat)
    requires Ok(d, t) && i < |t.functions|
    ensures Listing(d, t, i) == FreshDecode(d, t.functions[i].start, t.functions[i].end)
  {
    var f := t.functions[i];
    if f.start >= f.end {
      assert FreshDecode(d, f.start, f.end) == [];
    }
  }

  // ----- two functions with one start

  /** The address of word k from a start. */
  function WordAt(start: nat, k: nat): nat {
    start + 4 * k
  }

  /** No word of the listing from start that lies in [from, to) decodes. */
  ghost predicate NothingBetween(d: Decoder, start: nat, from: nat, to: nat) {
    forall k: nat :: from <= WordAt(start, k) < to ==> d(WordAt(start, k)).None?
  }

  lemma NothingBetweenNext(d: Decoder, start: nat, from: nat, to: nat)
    ensures NothingBetween(d, start, from, to) <==>
            (from <= start < to ==> d(start).None?) && NothingBetween(d, start + 4, from, to)
  {
    var next := start + 4;
    if NothingBetween(d, start, from, to) {
      assert WordAt(start, 0) == start;
      forall k: nat | from <= WordAt(next, k) < to ensures d(WordAt(next, k)).None? {
        assert WordAt(next, k) == WordAt(start, k + 1);
      }
    }
    if (from <= start < to ==> d(start).None?) && NothingBetween(d, next, from, to) {
      forall k: nat | from <= WordAt(start, k) < to ensures d(WordAt(start, k)).None? {
        if k > 0 { assert WordAt(start, k) == WordAt(next, k - 1); }
      }
    }
  }

  lemma {:induction false} EmptyListingIff(d: Decoder, start: nat, from: nat, to: nat)
    requires from <= start
    ensures FreshDecode(d, start, to) == [] <==> NothingBetween(d, start, from, to)
    decreases if start < to then to - start else 0
  {
    if start < to {
      NothingBetweenNext(d, start, from, to);
      EmptyListingIff(d, start + 4, from, to);
    }
  }

  /** Two ends give one listing exactly when no word between them decodes. */
  lemma {:induction false} SameListingIff(d: Decoder, start: nat, from: nat, to: nat)
    requires from <= to
    ensures FreshDecode(d, start, from) == FreshDecode(d, start, to) <==> NothingBetween(d, start, from, to)
    decreases if start < to then to - start else 0
  {
    hide NothingBetween;
    if start >= from {
      FreshDecodeEnds(d, start, from);
      hide FreshDecode;
      EmptyListingIff(d, start, from, to);
    } else {
      var now, a, b := DecodedAt(d, start), FreshDecode(d, start + 4, from), FreshDecode(d, start + 4, to);
      assert FreshDecode(d, start, from) == now + a && FreshDecode(d, start, to) == now + b;
      hide FreshDecode, DecodedAt;
      NothingBetweenNext(d, start, from, to);
      SameListingIff(d, start + 4, from, to);
      assert a == (now + a)[|now|..] && b == (now + b)[|now|..];
    }
  }

  /** Without distinct starts the cache is keyed too coarsely: after a request for one of two
      functions with the same start, the other gets the listing of its own bounds exactly when no
      word between the two ends decodes. */
  lemma SharedStartIff(d: Decoder, t: Table, i: nat, j: nat)
    requires i < |t.functions| && j < |t.functions| && t.functions[i].start == t.functions[j].start
    requires t.functions[i].instructions == [] && t.functions[j].instructions == []
    requires t.functions[i].start < t.functions[i].end && t.functions[j].start < t.functions[j].end
    requires t.functions[i].start !in t.cache
    ensures var f, g := t.functions[i], t.functions[j];
            (Listing(d, Requested(d, t, i), j) == FreshDecode(d, g.start, g.end) <==>
             NothingBetween(d, f.start, Min(f.end, g.end), Max(f.end, g.end)))
  {
    hide FreshDecode, NothingBetween;
    var f, g := t.functions[i], t.functions[j];
    SameListingIff(d, f.start, Min(f.end, g.end), Max(f.end, g.end));
  }

  function Min(a: nat, b: nat): nat {
    if b < a then b else a
  }

  /** A table with one start at which a request for the longer function gets the listing of the
      shorter one: the word between the two ends is missing. */
  lemma SharedStartLosesWords(d: Decoder)
    requires d(4).Some? && d(8).Some?
    ensures var t := Table([Function("short", 4, 8, []), Function("long", 4, 12, [])], map[4 := 1], map[]);
            Listing(d, Requested(d, t, 0), 1) == [d(4).value] && FreshDecode(d, 4, 12) == [d(4).value, d(8).value]
  {
    assert FreshDecode(d, 12, 12) == [] && FreshDecode(d, 8, 8) == [];
    assert FreshDecode(d, 8, 12) == [d(8).value];
    assert FreshDecode(d, 4, 8) == [d(4).value];
    assert FreshDecode(d, 4, 12) == [d(4).value] + FreshDecode(d, 8, 12);
  }

  // ----- the table is a map from start to name and end

  datatype Bounds = Bounds(name: string, end: nat)

  ghost predicate Represents(fs: seq<Function>, m: map<nat, Bounds>) {
    && (forall i :: 0 <= i < |fs| ==> fs[i].start in m && m[fs[i].start] == Bounds(fs[i].name, fs[i].end))
    && (forall s :: s in m ==> HasStart(fs, s))
  }

  ghost predicate HasStart(fs: seq<Function>, s: nat) {
    exists i :: 0 <= i < |fs| && fs[i].start == s
  }

  function MatchInMap(m: map<nat, Bounds>, x: Match): map<nat, Bounds> {
    if x.size > WORD - 1 - x.address then m
    else
      var end := x.address + x.size;
      m[x.address := Bounds(x.name, if x.address in m && end < m[x.address].end then m[x.address].end else end)]
  }

  function MatchesInMap(m: map<nat, Bounds>, xs: seq<Match>): map<nat, Bounds> {
    if |xs| == 0 then m else MatchInMap(MatchesInMap(m, xs[..|xs| - 1]), xs[|xs| - 1])
  }

  function LinesInMap(m: map<nat, Bounds>, lines: seq<MapLine>): map<nat, Bounds> {
    if |lines| == 0 then m
    else
      var line := lines[|lines| - 1];
      LinesInMap(m, lines[..|lines| - 1])[line.start := Bounds(line.name, line.end)]
  }

  function ApplyToMap(m: map<nat, Bounds>, op: Op): map<nat, Bounds> {
    match op
    case Discover(ms) => MatchesInMap(m, ms)
    case Import(lines) => LinesInMap(m, lines)
    case DecodeAll(_) => m
    case Request(_) => m
  }

  function RunOnMap(m: map<nat, Bounds>, ops: seq<Op>): map<nat, Bounds> {
    if |ops| == 0 then m else ApplyToMap(RunOnMap(m, ops[..|ops| - 1]), ops[|ops| - 1])
  }

  lemma UpdateRepresents(fs: seq<Function>, m: map<nat, Bounds>, i: nat, f: Function)
    requires Represents(fs, m) && DistinctStarts(fs) && i < |fs| && f.start == fs[i].start
    ensures Represents(fs[i := f], m[f.start := Bounds(f.name, f.end)])
  {
    var fs' := fs[i := f];
    forall s | s in m[f.start := Bounds(f.name, f.end)] ensures HasStart(fs', s) {
      if s == f.start {
        assert fs'[i].start == s;
      } else {
        var k :| 0 <= k < |fs| && fs[k].start == s;
        assert fs'[k].start == s;
      }
    }
  }

  lemma AppendRepresents(fs: seq<Function>, m: map<nat, Bounds>, f: Function)
    requires Represents(fs, m) && !HasStart(fs, f.start)
    ensures Represents(fs + [f], m[f.start := Bounds(f.name, f.end)])
  {
    var fs' := fs + [f];
    forall i | 0 <= i < |fs'|
      ensures fs'[i].start in m[f.start := Bounds(f.name, f.end)]
      ensures m[f.start := Bounds(f.name, f.end)][fs'[i].start] == Bounds(fs'[i].name, fs'[i].end)
    {
      assert i < |fs| ==> fs[i].start != f.start;
    }
    forall s | s in m[f.start := Bounds(f.name, f.end)] ensures HasStart(fs', s) {
      if s == f.start {
        assert fs'[|fs|].start == s;
      } else {
        var k :| 0 <= k < |fs| && fs[k].start == s;
        assert fs'[k].start == s;
      }
    }
  }

  lemma AddMatchRepresents(t: Table, m: map<nat, Bounds>, x: Match)
    requires StartsOk(t) && Represents(t.functions, m)
    ensures Represents(AddMatch(t, x).functions, MatchInMap(m, x))
  {
    if x.size <= WORD - 1 - x.address {
      if x.address in t.index {
        var i := t.index[x.address];
        var f := t.functions[i];
        UpdateRepresents(t.functions, m, i, f.(name := x.name, end := Max(f.end, x.address + x.size)));
      } else {
        AppendRepresents(t.functions, m, Function(x.name, x.address, x.address + x.size, []));
      }
    }
  }

  lemma {:induction false} AddMatchesRepresents(t: Table, m: map<nat, Bounds>, ms: seq<Match>)
    requires StartsOk(t) && Represents(t.functions, m)
    ensures Represents(AddMatches(t, ms).functions, MatchesInMap(m, ms))
  {
    if |ms| > 0 {
      var init := ms[..|ms| - 1];
      AddMatchesRepresents(t, m, init);
      AddMatchesKeeps(t, init);
      AddMatchRepresents(AddMatches(t, init), MatchesInMap(m, init), ms[|ms| - 1]);
    }
  }

  lemma {:induction false} AddLinesRepresents(fs: seq<Function>, m: map<nat, Bounds>, lines: seq<MapLine>)
    requires DistinctStarts(fs) && Represents(fs, m)
    ensures Represents(AddLines(fs, lines), LinesInMap(m, lines))
  {
    if |lines| > 0 {
      var init, line := lines[..|lines| - 1], lines[|lines| - 1];
      AddLinesRepresents(fs, m, init);
      AddLinesKeeps(fs, init);
      var before := AddLines(fs, init);
      FindIsFirst(before, line.start);
      match Find(before, line.start)
      case Some(i) => UpdateRepresents(before, LinesInMap(m, init), i, before[i].(name := line.name, end := line.end));
      case None => AppendRepresents(before, LinesInMap(m, init), Function(line.name, line.start, line.end, []));
    }
  }

  lemma SettledRepresents(fs: seq<Function>, m: map<nat, Bounds>)
    requires Represents(fs, m)
    ensures Represents(Settled(fs).functions, m)
  {
    var cleared := Cleared(fs);
    var sorted := Sort(cleared, StartKey);
    SortMembers(cleared, StartKey);
    forall i | 0 <= i < |sorted|
      ensures sorted[i].start in m && m[sorted[i].start] == Bounds(sorted[i].name, sorted[i].end)
    {
      assert sorted[i] in cleared;
    }
    forall s | s in m ensures HasStart(sorted, s) {
      assert HasStart(fs, s);
      var k :| 0 <= k < |fs| && fs[k].start == s;
      assert cleared[k] in sorted;
    }
  }

  lemma DecodedRepresents(d: Decoder, libs: set<string>, t: Table, m: map<nat, Bounds>)
    requires Represents(t.functions, m)
    ensures Represents(AllDecoded(d, libs, t).functions, m)
  {
    hide FreshDecode;
    var fs := AllDecoded(d, libs, t).functions;
    forall s | s in m ensures HasStart(fs, s) {
      var k :| 0 <= k < |t.functions| && t.functions[k].start == s;
      assert fs[k].start == s;
    }
  }

  lemma ApplyRepresents(d: Decoder, t: Table, m: map<nat, Bounds>, op: Op)
    requires StartsOk(t) && Represents(t.functions, m)
    ensures Represents(Apply(d, t, op).functions, ApplyToMap(m, op))
  {
    hide Represents, FreshDecode, BuildIndex;
    match op
    case Discover(ms) =>
      AddMatchesRepresents(t, m, ms);
      SettledRepresents(AddMatches(t, ms).functions, MatchesInMap(m, ms));
    case Import(lines) =>
      AddLinesRepresents(t.functions, m, lines);
      SettledRepresents(AddLines(t.functions, lines), LinesInMap(m, lines));
    case DecodeAll(libs) => DecodedRepresents(d, libs, t, m);
    case Request(_) =>
  }

  /** Every run over the vector, index and cache computes what the same run computes on a plain map
      from start address to name and end. */
  lemma {:induction false} RunRefinesMap(d: Decoder, t: Table, m: map<nat, Bounds>, ops: seq<Op>)
    requires Ok(d, t) && Represents(t.functions, m)
    ensures Represents(Run(d, t, ops).functions, RunOnMap(m, ops))
  {
    hide Represents;
    if |ops| > 0 {
      var init := ops[..|ops| - 1];
      RunRefinesMap(d, t, m, init);
      RunKeepsOk(d, t, init);
      ApplyRepresents(d, Run(d, t, init), RunOnMap(m, init), ops[|ops| - 1]);
    }
  }

  // ----- the passes as they run

  lemma {:induction false} InsertCleared(f: Function, fs: seq<Function>)
    ensures Insert(f.(instructions := []), Cleared(fs), StartKey) == Cleared(Insert(f, fs, StartKey))
  {
    if |fs| > 0 && StartKey(f) > StartKey(fs[0]) {
      assert Cleared(fs)[1..] == Cleared(fs[1..]);
      InsertCleared(f, fs[1..]);
    }
  }

  lemma {:induction false} SortCleared(fs: seq<Function>)
    ensures Sort(Cleared(fs), StartKey) == Cleared(Sort(fs, StartKey))
  {
    if |fs| > 0 {
      assert Cleared(fs)[1..] == Cleared(fs[1..]);
      SortCleared(fs[1..]);
      InsertCleared(fs[0], Sort(fs[1..], StartKey));
    }
  }

  lemma {:induction false} IndexIgnoresListings(fs: seq<Function>)
    ensures BuildIndex(Cleared(fs)) == BuildIndex(fs)
  {
    if |fs| > 0 {
      assert Cleared(fs)[..|fs| - 1] == Cleared(fs[..|fs| - 1]);
      IndexIgnoresListings(fs[..|fs| - 1]);
    }
  }

  class ElfAnalysisContext {
    const decoder: Decoder
    var functions: seq<Function>
    var functionIndexByStart: map<nat, nat>
    var instructionCache: map<nat, seq<Instruction>>

    ghost function Snapshot(): Table
      reads this
    {
      Table(functions, functionIndexByStart, instructionCache)
    }

    /** The state after loading: functions without listings, indexed. */
    constructor (decoder: Decoder, functions: seq<Function>)
      requires DistinctStarts(functions) && forall i :: 0 <= i < |functions| ==> functions[i].instructions == []
      ensures this.decoder == decoder && this.functions == functions && Ok(decoder, Snapshot())
    {
      this.decoder := decoder;
      this.functions := functions;
      functionIndexByStart, instructionCache := BuildIndex(functions), map[];
      BuildIndexOk(functions);
    }

    method BuildFunctionIndex()
      modifies this`functionIndexByStart
      ensures functionIndexByStart == BuildIndex(functions)
    {
      functionIndexByStart := map[];
      for i := 0 to |functions|
        invariant functionIndexByStart == BuildIndex(functions[..i])
      {
        assert functions[..i + 1][..i] == functions[..i];
        functionIndexByStart := functionIndexByStart[functions[i].start := i];
      }
      assert functions[..|functions|] == functions;
    }

    method ClearInstructionCache()
      modifies this`functions, this`instructionCache
      ensures functions == Cleared(old(functions)) && instructionCache == map[]
    {
      instructionCache := map[];
      for i := 0 to |functions|
        invariant |functions| == |old(functions)| && instructionCache == map[]
        invariant forall j :: 0 <= j < |functions| ==>
          functions[j] == if j < i then old(functions)[j].(instructions := []) else old(functions)[j]
      {
        functions := functions[i := functions[i].(instructions := [])];
      }
    }

    /** The position of the function with a start, as linear search would find it. */
    method FindFunction(start: nat) returns (r: Option<nat>)
      requires StartsOk(Snapshot())
      ensures r == Find(functions, start)
    {
      IndexAgreesWithSearch(functions, functionIndexByStart, start);
      r := if start in functionIndexByStart then Some(functionIndexByStart[start]) else None;
    }

    /** Renames and extends the function at the match's address, or adds one there. */
    method AddSymbol(m: Match)
      requires StartsOk(Snapshot())
      modifies this
      ensures Snapshot() == AddMatch(old(Snapshot()), m)
    {
      if m.size > WORD - 1 - m.address { return; }
      if m.address in functionIndexByStart {
        var i := functionIndexByStart[m.address];
        var f := functions[i];
        functions := functions[i := f.(name := m.name, end := if f.end < m.address + m.size then m.address + m.size
            else f.end)];
      } else {
        functions := functions + [Function(m.name, m.address, m.address + m.size, [])];
        functionIndexByStart := functionIndexByStart[m.address := |functions| - 1];
      }
    }

    method DiscoverSceSdkSymbols(matches: seq<Match>)
      requires Ok(decoder, Snapshot())
      modifies this
      ensures Snapshot() == Discovered(old(Snapshot()), matches)
      ensures Ok(decoder, Snapshot())
    {
      hide FreshDecode, BuildIndex, CacheOk, ListingsOk, IndexOk, DistinctStarts, AddMatch;
      ghost var t0 := Snapshot();
      ApplyKeepsOk(decoder, t0, Discover(matches));
      if |matches| == 0 { return; }
      for k := 0 to |matches|
        invariant Snapshot() == AddMatches(t0, matches[..k])
      {
        assert matches[..k + 1][..k] == matches[..k];
        AddMatchesKeeps(t0, matches[..k]);
        AddSymbol(matches[k]);
      }
      assert matches[..|matches|] == matches;
      ghost var added := functions;
      functions := Sort(functions, StartKey);
      BuildFunctionIndex();
      ClearInstructionCache();
      SortCleared(added);
      IndexIgnoresListings(Sort(added, StartKey));
    }

    method ImportGhidraMap(lines: seq<MapLine>)
      requires Ok(decoder, Snapshot())
      modifies this
      ensures Snapshot() == Imported(old(Snapshot()), lines)
      ensures Ok(decoder, Snapshot())
    {
      ghost var t0 := Snapshot();
      ApplyKeepsOk(decoder, t0, Import(lines));
      for k := 0 to |lines|
        invariant functions == AddLines(t0.functions, lines[..k])
      {
        assert lines[..k + 1][..k] == lines[..k];
        ImportLine(lines[k]);
      }
      assert lines[..|lines|] == lines;
      ClearInstructionCache();
      functions := Sort(functions, StartKey);
      BuildFunctionIndex();
    }

    /** Updates the first function with the line's start, or appends a new one. */
    method ImportLine(line: MapLine)
      modifies this`functions
      ensures functions == AddLine(old(functions), line)
    {
      FindIsFirst(functions, line.start);
      var i := 0;
      while i < |functions|
        invariant 0 <= i <= |functions| && functions == old(functions)
        invariant forall j :: 0 <= j < i ==> functions[j].start != line.start
      {
        if functions[i].start == line.start {
          functions := functions[i := functions[i].(name := line.name, end := line.end)];
          return;
        }
        i := i + 1;
      }
      functions := functions + [Function(line.name, line.start, line.end, [])];
    }

    method DecodeAllFunctionsOnce(libs: set<string>)
      requires Ok(decoder, Snapshot())
      requires forall i :: 0 <= i < |functions| && functions[i].name !in libs ==> Decodable(functions[i])
      modifies this
      ensures Snapshot() == AllDecoded(decoder, libs, old(Snapshot()))
      ensures Ok(decoder, Snapshot())
    {
      hide FreshDecode;
      DecodeAllKeepsOk(decoder, libs, Snapshot());
      instructionCache := map[];
      for i := 0 to |functions|
        invariant |functions| == |old(functions)| && functionIndexByStart == old(functionIndexByStart) &&
            instructionCache == map[]
        invariant forall j :: 0 <= j < |functions| ==>
          functions[j] == if j < i then Decoded(decoder, libs, old(functions)[j]) else old(functions)[j]
      {
        var f := functions[i];
        if !(f.name in libs || f.start >= f.end) && f.instructions == [] {
          var listing := DecodeFunction(decoder, f);
          functions := functions[i := f.(instructions := listing)];
        }
      }
    }

    /** Hands out a listing, decoding and caching it when there is none. */
    method GetDecodedInstructions(i: nat) returns (listing: seq<Instruction>)
      requires Ok(decoder, Snapshot()) && i < |functions| && Decodable(functions[i])
      modifies this`instructionCache
      ensures listing == FreshDecode(decoder, functions[i].start, functions[i].end)
      ensures Snapshot() == Requested(decoder, old(Snapshot()), i) && Ok(decoder, Snapshot())
    {
      hide FreshDecode;
      var f := functions[i];
      ListingIsFresh(decoder, Snapshot(), i);
      RequestKeepsOk(decoder, Snapshot(), i);
      if f.instructions != [] || f.start >= f.end {
        return f.instructions;
      }
      if f.start !in instructionCache {
        var decoded := DecodeFunction(decoder, f);
        instructionCache := instructionCache[f.start := decoded];
      }
      listing := instructionCache[f.start];
    }
  }

  /** The control-flow graph of the function at a position, built from whatever listing the table
      hands out, is the graph of a fresh decode of its current bounds. */
  method FunctionGraph(context: ElfAnalysisContext, i: nat) returns (g: Cfg.Graph)
    requires Ok(context.decoder, context.Snapshot()) && RecordsAddresses(context.decoder)
    requires i < |context.functions| && Decodable(context.functions[i])
    modifies context`instructionCache
    ensures Ok(context.decoder, context.Snapshot())
    ensures var f := context.functions[i];
            Cfg.IsCfg(Cfg.Function(f.start, f.end), FreshDecode(context.decoder, f.start, f.end), g)
  {
    hide FreshDecode, Cfg.IsCfg;
    var f := context.functions[i];
    var listing := context.GetDecodedInstructions(i);
    FreshDecodeWithin(context.decoder, f.start, f.end);
    g := Cfg.BuildCfg(Cfg.Function(f.start, f.end), listing);
  }

  /** Bounds on which the 32-bit decoding loop stops. */
  predicate Decodable(f: Function) {
    f.start < WORD && f.end < WORD && LoopEnds(f.start, f.end)
  }
}
