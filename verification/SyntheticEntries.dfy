/**
 * The Ghidra exporter's synthetic entries: callable labels that are not
 * functions get address ranges that stop at the next known start.
 */
module SyntheticEntries {
  import opened Sorting
  import opened HexText

  datatype Record = Record(name: string, start: int, endExclusive: int, size: int, syntheticEntry: bool)

  /** A memory block, both ends included. */
  datatype Block = Block(first: int, last: int)

  /** A symbol or instruction that the exporter accepts as a callable entry. */
  datatype Candidate = Candidate(name: string, address: int)

  ghost predicate DistinctStarts(rs: seq<Record>) {
    forall i, j :: 0 <= i < j < |rs| ==> rs[i].start != rs[j].start
  }

  ghost predicate StartsAt(rs: seq<Record>, a: int) {
    exists i :: 0 <= i < |rs| && rs[i].start == a
  }

  /** A record created for a candidate. */
  predicate IsLabel(r: Record) {
    r.start >= 0 && r.syntheticEntry
  }

  // ----- collecting the entries

  /** The name of an entry that has no symbol: its address in eight hex digits. */
  function AnonymousName(start: int): string {
    "entry_" + HexDigits(start % 0x1_0000_0000, 8)
  }

  /** Anonymous names tell addresses apart that differ in their low 32 bits. */
  lemma AnonymousNamesEqualIff(a: int, b: int)
    ensures AnonymousName(a) == AnonymousName(b) <==> a % 0x1_0000_0000 == b % 0x1_0000_0000
  {
    hide HexDigits, HexValue;
    Pow16Word();
    var c, d := a % 0x1_0000_0000, b % 0x1_0000_0000;
    HexRoundTrip(c, 8);
    HexRoundTrip(d, 8);
    assert AnonymousName(a)[6..] == HexDigits(c, 8) && AnonymousName(b)[6..] == HexDigits(d, 8);
  }

  /** Candidate n is the first one at its address, and gives the record its name. */
  ghost predicate NamedAfter(candidates: seq<Candidate>, n: nat, r: Record) {
    n < |candidates| && candidates[n].address == r.start && candidates[n].name == r.name &&
    forall k :: 0 <= k < n ==> candidates[k].address != r.start
  }

  ghost predicate NamedIn(candidates: seq<Candidate>, r: Record) {
    exists n: nat :: NamedAfter(candidates, n, r)
  }

  /** Adds a record for every candidate whose address has no start yet. */
  method AddCandidates(labels: seq<Record>, existing: set<int>, candidates: seq<Candidate>)
      returns (labels': seq<Record>, existing': set<int>)
    requires DistinctStarts(labels) && forall a :: StartsAt(labels, a) ==> a in existing
    requires forall i :: 0 <= i < |labels| ==> IsLabel(labels[i])
    requires forall i :: 0 <= i < |candidates| ==> candidates[i].address >= 0
    ensures forall i :: 0 <= i < |labels'| ==> IsLabel(labels'[i])
    ensures DistinctStarts(labels') && labels <= labels'
    ensures forall a :: a in existing' <==>
        a in existing || exists i :: 0 <= i < |candidates| && candidates[i].address == a
    ensures forall a :: StartsAt(labels', a) <==> StartsAt(labels, a) || (a in existing' && a !in existing)
    ensures forall i :: |labels| <= i < |labels'| ==>
              labels'[i].start !in existing && NamedIn(candidates, labels'[i])
  {
    hide NamedIn;
    labels', existing' := labels, existing;
    for n := 0 to |candidates|
      invariant DistinctStarts(labels') && labels <= labels'
      invariant forall i :: 0 <= i < |labels'| ==> IsLabel(labels'[i])
      invariant forall a :: a in existing' <==> a in existing || exists i :: 0 <= i < n && candidates[i].address == a
      invariant forall a :: StartsAt(labels', a) <==> StartsAt(labels, a) || (a in existing' && a !in existing)
      invariant forall i :: |labels| <= i < |labels'| ==>
                  labels'[i].start !in existing && NamedIn(candidates, labels'[i])
    {
      var c := candidates[n];
      if c.address !in existing' {
        var record := Record(c.name, c.address, 0, 0, true);
        AppendStart(labels', record);
        FirstIsNamed(candidates, n, record);
        labels' := labels' + [record];
        existing' := existing' + {c.address};
      }
    }
  }

  lemma FirstIsNamed(candidates: seq<Candidate>, n: nat, r: Record)
    requires NamedAfter(candidates, n, r)
    ensures NamedIn(candidates, r)
  {
  }

  lemma AppendStart(rs: seq<Record>, r: Record)
    ensures forall a :: StartsAt(rs + [r], a) <==> StartsAt(rs, a) || a == r.start
    ensures DistinctStarts(rs) && !StartsAt(rs, r.start) ==> DistinctStarts(rs + [r])
  {
    var all := rs + [r];
    assert all[|rs|] == r;
    forall a ensures StartsAt(all, a) <==> StartsAt(rs, a) || a == r.start {
      if StartsAt(rs, a) {
        var i :| 0 <= i < |rs| && rs[i].start == a;
        assert all[i].start == a;
      }
      if StartsAt(all, a) && a != r.start {
        var i :| 0 <= i < |all| && all[i].start == a;
        assert rs[i].start == a;
      }
    }
  }

  // ----- the range of one entry

  function StartKey(r: Record): int {
    r.start
  }

  /** Where the surroundings of an address end: the first function in address order that contains
      it past its start, or else its memory block, or 0 when there is neither. */
  function Limit(functions: seq<Record>, blocks: seq<Block>, start: int): int {
    var f := ContainingEnd(functions, start);
    if f != 0 then f else BlockEnd(blocks, start)
  }

  function ContainingEnd(functions: seq<Record>, start: int): (e: int)
    ensures start >= 0 ==> (e == 0 <==> forall i :: 0 <= i < |functions| ==> !Inside(functions[i], start))
    ensures e != 0 ==> exists i :: 0 <= i < |functions| && Inside(functions[i], start) &&
                         functions[i].endExclusive == e && forall j :: 0 <= j < i ==> !Inside(functions[j], start)
  {
    if |functions| == 0 then 0
    else if functions[0].start < start < functions[0].endExclusive then functions[0].endExclusive
    else
      var rest := functions[1..];
      var e := ContainingEnd(rest, start);
      ShiftedInside(functions, start, e);
      e
  }

  /** The address lies in the function, past its start. */
  ghost predicate Inside(f: Record, a: int) {
    f.start < a < f.endExclusive
  }

  lemma ShiftedInside(functions: seq<Record>, start: int, e: int)
    requires |functions| > 0 && !Inside(functions[0], start)
    ensures var rest := functions[1..];
            (forall i :: 0 <= i < |functions| ==> !Inside(functions[i], start)) <==>
            (forall i :: 0 <= i < |rest| ==> !Inside(rest[i], start))
    ensures var rest := functions[1..];
            (exists i :: 0 <= i < |rest| && Inside(rest[i], start) && rest[i].endExclusive == e &&
                         forall j :: 0 <= j < i ==> !Inside(rest[j], start)) ==>
            exists i :: 0 <= i < |functions| && Inside(functions[i], start) && functions[i].endExclusive == e &&
                        forall j :: 0 <= j < i ==> !Inside(functions[j], start)
  {
    var rest := functions[1..];
    assert forall i :: 0 <= i < |rest| ==> rest[i] == functions[i + 1];
    assert forall i :: 0 < i < |functions| ==> functions[i] == rest[i - 1];
    if i :| 0 <= i < |rest| && Inside(rest[i], start) && rest[i].endExclusive == e &&
            forall j :: 0 <= j < i ==> !Inside(rest[j], start) {
      assert Inside(functions[i + 1], start) && functions[i + 1].endExclusive == e;
      forall j | 0 <= j < i + 1 ensures !Inside(functions[j], start) {
        if j > 0 { assert functions[j] == rest[j - 1]; }
      }
    }
  }

  /** One past the last address of the first block that holds the address, or 0 when none does. */
  function BlockEnd(blocks: seq<Block>, start: int): (e: int)
    ensures start >= 0 ==> (e == 0 <==> forall i :: 0 <= i < |blocks| ==> !HasAddress(blocks[i], start))
    ensures e != 0 ==> exists i :: 0 <= i < |blocks| && HasAddress(blocks[i], start) && e == blocks[i].last + 1
  {
    if |blocks| == 0 then 0
    else if blocks[0].first <= start <= blocks[0].last then blocks[0].last + 1
    else
      var rest := blocks[1..];
      assert forall i :: 0 <= i < |rest| ==> rest[i] == blocks[i + 1];
      assert forall i :: 0 < i < |blocks| ==> blocks[i] == rest[i - 1];
      BlockEnd(rest, start)
  }

  ghost predicate HasAddress(b: Block, a: int) {
    b.first <= a <= b.last
  }

  /** The end of the range: the least of the limit and the starts above, or four bytes when there
      is neither. */
  ghost predicate IsRangeEnd(start: int, end: int, limit: int, boundaries: seq<int>) {
    && start < end
    && (forall b :: b in boundaries ==> !(start < b < end))
    && (limit != 0 ==> end <= limit)
    && (end in boundaries || end == limit ||
        (limit == 0 && end == start + 4 && forall b :: b in boundaries ==> b <= start))
  }

  /** The specification leaves no choice. */
  lemma RangeEndIsUnique(start: int, e1: int, e2: int, limit: int, boundaries: seq<int>)
    requires start >= 0 && IsRangeEnd(start, e1, limit, boundaries) && IsRangeEnd(start, e2, limit, boundaries)
    ensures e1 == e2
  {
  }

  method RangeEnd(functions: seq<Record>, blocks: seq<Block>, boundaries: seq<int>, start: int)
      returns (endExclusive: int)
    requires start >= 0 && SortedBy(boundaries, (b: int) => b)
    ensures IsRangeEnd(start, endExclusive, Limit(functions, blocks, start), boundaries)
  {
    ghost var limit := Limit(functions, blocks, start);
    endExclusive := 0;
    var i := 0;
    while i < |functions|
      invariant 0 <= i <= |functions|
      invariant endExclusive == 0 && ContainingEnd(functions, start) == ContainingEnd(functions[i..], start)
    {
      if start > functions[i].start && start < functions[i].endExclusive {
        endExclusive := functions[i].endExclusive;
        break;
      }
      assert functions[i..][1..] == functions[i + 1..];
      i := i + 1;
    }
    assert endExclusive == ContainingEnd(functions, start);
    if endExclusive == 0 {
      endExclusive := BlockEnd(blocks, start);
    }
    assert endExclusive == limit && (limit == 0 || limit > start);
    i := 0;
    while i < |boundaries|
      invariant 0 <= i <= |boundaries|
      invariant endExclusive == limit
      invariant forall j :: 0 <= j < i ==> !(boundaries[j] > start && (limit == 0 || boundaries[j] < limit))
    {
      if boundaries[i] > start && (endExclusive == 0 || boundaries[i] < endExclusive) {
        endExclusive := boundaries[i];
        forall b | b in boundaries ensures !(start < b < endExclusive) {
          var j :| 0 <= j < |boundaries| && boundaries[j] == b;
          assert j > i ==> boundaries[i] <= boundaries[j];
        }
        return;
      }
      i := i + 1;
    }
    if endExclusive <= start {
      endExclusive := start + 4;
    }
  }

  // ----- all ranges

  ghost predicate RangeOk(functions: seq<Record>, blocks: seq<Block>, boundaries: seq<int>, r: Record) {
    r.size == r.endExclusive - r.start && r.syntheticEntry &&
    IsRangeEnd(r.start, r.endExclusive, Limit(functions, blocks, r.start), boundaries)
  }

  function Starts(rs: seq<Record>): (s: seq<int>)
    ensures |s| == |rs| && forall i :: 0 <= i < |rs| ==> s[i] == rs[i].start
  {
    seq(|rs|, i requires 0 <= i < |rs| => rs[i].start)
  }

  /** Gives every label its range, in place, then orders the labels by start. */
  method AssignRanges(functions: seq<Record>, labels: seq<Record>, blocks: seq<Block>)
      returns (sorted: seq<Record>, ranged: seq<Record>)
    requires forall i :: 0 <= i < |labels| ==> IsLabel(labels[i])
    ensures sorted == Sort(functions, StartKey) && |ranged| == |labels|
    ensures forall i :: 0 <= i < |labels| ==> ranged[i].name == labels[i].name && ranged[i].start == labels[i].start
    ensures forall i :: 0 <= i < |labels| ==> RangeOk(sorted, blocks, Starts(functions) + Starts(labels), ranged[i])
  {
    ghost var all := Starts(functions) + Starts(labels);
    var boundaries := Sort(Starts(functions) + Starts(labels), (b: int) => b);
    SortSorts(all, (b: int) => b);
    SortMembers(all, (b: int) => b);
    sorted := Sort(functions, StartKey);
    ranged := labels;
    for n := 0 to |labels|
      invariant |ranged| == |labels|
      invariant forall i :: n <= i < |labels| ==> ranged[i] == labels[i]
      invariant forall i :: 0 <= i < n ==> ranged[i].name == labels[i].name && ranged[i].start == labels[i].start
      invariant forall i :: 0 <= i < n ==> RangeOk(sorted, blocks, all, ranged[i])
    {
      var r := ranged[n];
      var end := RangeEnd(sorted, blocks, boundaries, r.start);
      SameBoundaries(r.start, end, Limit(sorted, blocks, r.start), boundaries, all);
      ranged := ranged[n := r.(endExclusive := end, size := end - r.start)];
    }
  }

  lemma SameBoundaries(start: int, end: int, limit: int, bs: seq<int>, cs: seq<int>)
    requires forall b :: b in bs <==> b in cs
    ensures IsRangeEnd(start, end, limit, bs) <==> IsRangeEnd(start, end, limit, cs)
  {
  }

  ghost predicate Covers(r: Record, a: int) {
    r.start <= a < r.endExclusive
  }

  /** Ranges that stop at every other start cannot overlap. */
  lemma RangesAreDisjoint(functions: seq<Record>, blocks: seq<Block>, boundaries: seq<int>, r: Record, s: Record,
      a: int)
    requires RangeOk(functions, blocks, boundaries, r) && RangeOk(functions, blocks, boundaries, s)
    requires r.start in boundaries && s.start in boundaries && r.start != s.start
    ensures !(Covers(r, a) && Covers(s, a))
  {
  }

  ghost predicate IsCandidate(symbols: seq<Candidate>, instructions: seq<int>, a: int) {
    (exists i :: 0 <= i < |symbols| && symbols[i].address == a) || a in instructions
  }

  /** The entry has the name of the first symbol at its address, or an anonymous name without one. */
  ghost predicate IsNamed(symbols: seq<Candidate>, r: Record) {
    NamedIn(symbols, r) ||
    ((forall n :: 0 <= n < |symbols| ==> symbols[n].address != r.start) && r.name == AnonymousName(r.start))
  }

  function Anonymous(instructions: seq<int>): (s: seq<Candidate>)
    ensures |s| == |instructions|
    ensures forall i :: 0 <= i < |s| ==> s[i] == Candidate(AnonymousName(instructions[i]), instructions[i])
  {
    seq(|instructions|, i requires 0 <= i < |instructions| =>
      Candidate(AnonymousName(instructions[i]), instructions[i]))
  }

  /** Every range is non-empty, holds no start but its own, and meets no other range. */
  ghost predicate RangesOk(functions: seq<Record>, labels: seq<Record>) {
    && (forall i :: 0 <= i < |labels| ==>
          labels[i].start < labels[i].endExclusive && labels[i].size == labels[i].endExclusive - labels[i].start)
    && (forall i, a :: 0 <= i < |labels| && labels[i].start < a < labels[i].endExclusive ==>
          !StartsAt(functions, a) && !StartsAt(labels, a))
    && (forall i, j, a :: 0 <= i < j < |labels| ==> !(Covers(labels[i], a) && Covers(labels[j], a)))
  }

  /** The exporter's label records, one for each callable address that is no function start, for
      any mix of overlapping functions and blocks. */
  method CollectExecutableLabelRecords(functions: seq<Record>, symbols: seq<Candidate>, instructions: seq<int>,
      blocks: seq<Block>)
      returns (labels: seq<Record>)
    requires forall i :: 0 <= i < |symbols| ==> symbols[i].address >= 0
    requires forall i :: 0 <= i < |instructions| ==> instructions[i] >= 0
    ensures StrictlySortedBy(labels, StartKey)
    ensures forall i :: 0 <= i < |labels| ==> IsNamed(symbols, labels[i])
    ensures forall a :: StartsAt(labels, a) <==> !StartsAt(functions, a) && IsCandidate(symbols, instructions, a)
    ensures RangesOk(functions, labels)
    ensures forall i :: 0 <= i < |labels| ==>
      RangeOk(Sort(functions, StartKey), blocks, Starts(functions) + Starts(labels), labels[i])
  {
    hide Sort, Limit, AnonymousName, IsRangeEnd;
    var existing := set i | 0 <= i < |functions| :: functions[i].start;
    assert forall a :: a in existing <==> StartsAt(functions, a);
    assert forall a :: !StartsAt([], a);
    var fromSymbols, seen := AddCandidates([], existing, symbols);
    var anonymous := Anonymous(instructions);
    var found, seen' := AddCandidates(fromSymbols, seen, anonymous);
    forall i | 0 <= i < |found| ensures IsNamed(symbols, found[i]) {
      if i < |fromSymbols| { assert found[i] == fromSymbols[i]; }
    }
    assert forall a :: StartsAt(found, a) <==> !StartsAt(functions, a) && IsCandidate(symbols, instructions, a);
    labels := [];
    if |found| > 0 {
      var sorted, ranged := AssignRanges(functions, found, blocks);
      labels := Sort(ranged, StartKey);
      SortedLabels(functions, sorted, found, ranged, blocks);
      SortMembers(ranged, StartKey);
      forall r | r in ranged ensures IsNamed(symbols, r) {
        var i :| 0 <= i < |ranged| && ranged[i] == r;
        SameNameAndStart(symbols, found[i], r);
      }
      forall i | 0 <= i < |labels| ensures IsNamed(symbols, labels[i]) {
        assert labels[i] in ranged;
      }
    }
  }

  lemma SameNameAndStart(symbols: seq<Candidate>, r: Record, s: Record)
    requires r.name == s.name && r.start == s.start && IsNamed(symbols, r)
    ensures IsNamed(symbols, s)
  {
    hide AnonymousName;
    if n: nat :| NamedAfter(symbols, n, r) { assert NamedAfter(symbols, n, s); }
  }

  lemma SortedLabels(functions: seq<Record>, sorted: seq<Record>, found: seq<Record>, ranged: seq<Record>,
      blocks: seq<Block>)
    requires DistinctStarts(found) && |ranged| == |found|
    requires forall i :: 0 <= i < |found| ==> ranged[i].start == found[i].start
    requires forall i :: 0 <= i < |found| ==> RangeOk(sorted, blocks, Starts(functions) + Starts(found), ranged[i])
    ensures var labels := Sort(ranged, StartKey);
            StrictlySortedBy(labels, StartKey) && RangesOk(functions, labels) &&
            (forall a :: StartsAt(labels, a) <==> StartsAt(found, a)) &&
            forall i :: 0 <= i < |labels| ==> RangeOk(sorted, blocks, Starts(functions) + Starts(labels), labels[i])
  {
    hide Limit, Sort;
    var labels := Sort(ranged, StartKey);
    SortDistinct(ranged, StartKey);
    SortMembers(ranged, StartKey);
    SameStarts(found, ranged, labels);
    var boundaries := Starts(functions) + Starts(found);
    BoundaryMembers(functions, found);
    forall i | 0 <= i < |labels|
      ensures RangeOk(sorted, blocks, boundaries, labels[i]) && labels[i].start in boundaries
    {
      assert labels[i] in ranged;
      assert StartsAt(labels, labels[i].start);
    }
    BoundaryMembers(functions, labels);
    forall i | 0 <= i < |labels| ensures RangeOk(sorted, blocks, Starts(functions) + Starts(labels), labels[i]) {
      var r := labels[i];
      SameBoundaries(r.start, r.endExclusive, Limit(sorted, blocks, r.start), boundaries,
          Starts(functions) + Starts(labels));
    }
    forall i, j, a | 0 <= i < j < |labels| ensures !(Covers(labels[i], a) && Covers(labels[j], a)) {
      assert StartKey(labels[i]) < StartKey(labels[j]);
      RangesAreDisjoint(sorted, blocks, boundaries, labels[i], labels[j], a);
    }
  }

  lemma SameStarts(found: seq<Record>, ranged: seq<Record>, labels: seq<Record>)
    requires |ranged| == |found| && forall i :: 0 <= i < |found| ==> ranged[i].start == found[i].start
    requires forall r :: r in labels <==> r in ranged
    ensures forall a :: StartsAt(labels, a) <==> StartsAt(found, a)
  {
    forall a ensures StartsAt(labels, a) <==> StartsAt(found, a) {
      if StartsAt(labels, a) {
        var i :| 0 <= i < |labels| && labels[i].start == a;
        assert labels[i] in ranged;
      }
      if StartsAt(found, a) {
        var i :| 0 <= i < |found| && found[i].start == a;
        assert ranged[i] in labels;
      }
    }
  }

  lemma BoundaryMembers(functions: seq<Record>, labels: seq<Record>)
    ensures forall a :: a in Starts(functions) + Starts(labels) <==> StartsAt(functions, a) || StartsAt(labels, a)
  {
    var fs, ls := Starts(functions), Starts(labels);
    forall a ensures a in fs + ls <==> StartsAt(functions, a) || StartsAt(labels, a) {
      if StartsAt(functions, a) {
        var i :| 0 <= i < |functions| && functions[i].start == a;
        assert fs[i] == a;
      }
      if StartsAt(labels, a) {
        var i :| 0 <= i < |labels| && labels[i].start == a;
        assert ls[i] == a;
      }
    }
  }
}
