/**
 * The SDK symbol scan: candidates at every word of the code sections, keyed by
 * address and symbol, reduced to the addresses with one unambiguous identity.
 */
module SymbolScanner {
  import opened Bits
  import opened Bytes
  import opened Relocations
  import opened SymbolTree
  import opened StaticBits
  import opened Options
  import opened Instructions
  import opened Sorting
  import Sha1

  datatype Section = Section(address: nat, isCode: bool, hasData: bool, data: seq<nat>)

  datatype Candidate = Candidate(symbol: Symbol, address: nat, actualSize: nat)

  datatype Match = Match(address: nat, size: nat, name: string, library: string, hash: string, variant: nat)

  ghost predicate IsSection(s: Section) {
    s.address < WORD && AllBytes(s.data)
  }

  predicate Scanned(s: Section) {
    s.isCode && s.hasData && |s.data| >= 4
  }

  // ----- the loop over word offsets

  /** In 32-bit arithmetic the loop condition offset + 4 <= size can only fail when the section is
      shorter than 0xFFFFFFFC bytes. */
  predicate LoopEnds(size: nat) {
    size < WORD - 4
  }

  lemma LoopEndsIff(size: nat)
    requires size < WORD
    ensures LoopEnds(size) <==> exists n: nat :: (OffsetAt(n) + 4) % WORD > size
  {
    if LoopEnds(size) {
      assert (OffsetAt(size / 4) + 4) % WORD > size;
    } else {
      forall n: nat ensures (OffsetAt(n) + 4) % WORD <= size {
      }
    }
  }

  /** The offset after n rounds of the loop. */
  ghost function OffsetAt(n: nat): nat {
    4 * n % WORD
  }

  // ----- what makes a candidate

  /** The words from byte position from up to to are all zero. */
  ghost predicate ZeroWords(data: seq<nat>, from: nat, to: nat) {
    from <= to <= |data| && (to - from) % 4 == 0 &&
    forall k: nat :: k < (to - from) / 4 ==> ZeroWordAt(data, from + 4 * k)
  }

  ghost predicate ZeroWordAt(data: seq<nat>, at: nat) {
    at + 4 <= |data| && ReadLe32(data, at) == 0
  }

  /** The symbol's masked bytes at an offset of a section hash to its digest. */
  ghost predicate HashMatches(x: Symbol, data: seq<nat>, offset: nat) {
    offset + x.size <= |data| && Sha1.Digest(Masked(data[offset..offset + x.size], x.relocations)) == x.hash
  }

  /** Candidate c stands for a symbol of the tree that matches at an offset of a scanned section,
      extended over all zero words that follow. */
  ghost predicate Justified(db: Database, root: Node, s: Section, offset: nat, c: Candidate) {
    && Scanned(s) && offset % 4 == 0 && offset + 4 <= |s.data|
    && c.symbol in Walk(db, root, s.data, offset)
    && c.symbol.isFunction && c.symbol.size > 0
    && HashMatches(c.symbol, s.data, offset)
    && c.address == (s.address + offset) % WORD
    && c.symbol.size <= c.actualSize && offset + c.actualSize <= |s.data|
    && ZeroWords(s.data, offset + c.symbol.size, offset + c.actualSize)
    && !ZeroWordAt(s.data, offset + c.actualSize)
  }

  ghost predicate JustifiedIn(db: Database, root: Node, sections: seq<Section>, c: Candidate) {
    exists i, offset :: 0 <= i < |sections| && Justified(db, root, sections[i], offset, c)
  }

  lemma ExtendZeros(data: seq<nat>, from: nat, to: nat)
    requires ZeroWords(data, from, to) && ZeroWordAt(data, to)
    ensures ZeroWords(data, from, to + 4)
  {
    hide FromBytes;
    assert (to + 4 - from) / 4 == (to - from) / 4 + 1;
    assert from + 4 * ((to - from) / 4) == to;
  }

  /** Extends a matched symbol over the zero words that follow it. */
  method ExtendOverZeros(data: seq<nat>, offset: nat, size: nat) returns (actualSize: nat)
    requires offset + 4 <= |data| && offset + size <= |data|
    ensures size <= actualSize && offset + actualSize <= |data|
    ensures ZeroWords(data, offset + size, offset + actualSize) && !ZeroWordAt(data, offset + actualSize)
  {
    hide FromBytes;
    actualSize := size;
    while actualSize <= |data| - offset - 4 && ReadLe32(data, offset + actualSize) == 0
      invariant size <= actualSize && offset + actualSize <= |data|
      invariant ZeroWords(data, offset + size, offset + actualSize)
      decreases |data| - actualSize
    {
      ExtendZeros(data, offset + size, offset + actualSize);
      actualSize := actualSize + 4;
    }
  }

  // ----- collecting candidates

  type Candidates = map<nat, map<string, Candidate>>

  function Put(m: Candidates, c: Candidate): Candidates {
    var at := if c.address in m then m[c.address] else map[];
    m[c.address := at[KeyOf(c.symbol) := c]]
  }

  ghost predicate Holds(m: Candidates, address: nat, key: string) {
    address in m && key in m[address]
  }

  /** Every entry is filed under its own address and key, and is justified. */
  ghost predicate EntriesOk(db: Database, root: Node, sections: seq<Section>, m: Candidates) {
    forall a, k :: Holds(m, a, k) ==>
      m[a][k].address == a && KeyOf(m[a][k].symbol) == k && JustifiedIn(db, root, sections, m[a][k])
  }

  lemma PutKeeps(db: Database, root: Node, sections: seq<Section>, m: Candidates, c: Candidate)
    requires EntriesOk(db, root, sections, m) && JustifiedIn(db, root, sections, c)
    ensures EntriesOk(db, root, sections, Put(m, c))
    ensures forall a, k :: Holds(Put(m, c), a, k) <==> Holds(m, a, k) || (a == c.address && k == KeyOf(c.symbol))
  {
    hide JustifiedIn, KeyOf;
    var m' := Put(m, c);
    forall a, k ensures Holds(m', a, k) <==> Holds(m, a, k) || (a == c.address && k == KeyOf(c.symbol)) {
    }
  }

  /** The candidate a symbol gives at an offset, when all the scan's tests pass. */
  method TrySymbol(s: Section, offset: nat, x: Symbol, candidates: Candidates, ghost db: Database, ghost root: Node,
      ghost sections: seq<Section>)
      returns (candidates': Candidates)
    requires IsSection(s) && s in sections && Scanned(s) && offset % 4 == 0 && offset + 4 <= |s.data|
    requires x in Walk(db, root, s.data, offset)
    requires EntriesOk(db, root, sections, candidates)
    ensures EntriesOk(db, root, sections, candidates')
    ensures forall a, k :: Holds(candidates', a, k) <==> (Holds(candidates, a, k) ||
                             (a == (s.address + offset) % WORD && k == KeyOf(x) && Passes(db, root, s, offset, x)))
  {
    hide Walk, KeyOf, Sha1.Digest, FromBytes, ZeroWords, ZeroWordAt;
    candidates' := candidates;
    if !x.isFunction || x.size == 0 { return; }
    if x.size > |s.data| - offset { return; }
    assert AllBytes(s.data[offset..offset + x.size]);
    var ok := MatchesSymbol(s.data[offset..offset + x.size], x.relocations, x.hash);
    if !ok { return; }
    var actualSize := ExtendOverZeros(s.data, offset, x.size);
    var c := Candidate(x, (s.address + offset) % WORD, actualSize);
    ghost var i :| 0 <= i < |sections| && sections[i] == s;
    assert Justified(db, root, sections[i], offset, c);
    PutKeeps(db, root, sections, candidates, c);
    candidates' := Put(candidates, c);
  }

  /** Symbol x passes the scan's tests at an offset of a section. */
  ghost predicate Passes(db: Database, root: Node, s: Section, offset: nat, x: Symbol) {
    && Scanned(s) && offset % 4 == 0 && offset + 4 <= |s.data|
    && x in Walk(db, root, s.data, offset) && x.isFunction && x.size > 0 && HashMatches(x, s.data, offset)
  }

  /** Some symbol with key k passes at address a, in section s at an offset below limit. */
  ghost predicate PassesBelow(db: Database, root: Node, s: Section, limit: nat, a: nat, k: string) {
    exists offset: nat :: offset < limit && PassesAt(db, root, s, offset, a, k)
  }

  ghost predicate PassesAt(db: Database, root: Node, s: Section, offset: nat, a: nat, k: string) {
    a == (s.address + offset) % WORD && exists x :: Passes(db, root, s, offset, x) && k == KeyOf(x)
  }

  method ScanOffset(db: Database, root: Node, s: Section, offset: nat, candidates: Candidates,
      ghost sections: seq<Section>)
      returns (candidates': Candidates)
    requires IsSection(s) && s in sections && Scanned(s) && offset % 4 == 0 && offset + 4 <= |s.data|
    requires EntriesOk(db, root, sections, candidates)
    ensures EntriesOk(db, root, sections, candidates')
    ensures forall a, k :: Holds(candidates', a, k) <==> Holds(candidates, a, k) || PassesAt(db, root, s, offset, a, k)
  {
    hide Walk, KeyOf, HashMatches, EntriesOk;
    var symbols := FindCandidateSymbols(db, root, s.data, offset);
    candidates' := candidates;
    ghost var address := (s.address + offset) % WORD;
    for j := 0 to |symbols|
      invariant EntriesOk(db, root, sections, candidates')
      invariant forall a, k :: Holds(candidates', a, k) <==> (Holds(candidates, a, k) ||
                                 (a == address && SomePasses(db, root, s, offset, symbols[..j], k)))
    {
      assert symbols[j] in multiset(symbols);
      candidates' := TrySymbol(s, offset, symbols[j], candidates', db, root, sections);
      AppendPasses(db, root, s, offset, symbols, j);
    }
    assert symbols[..|symbols|] == symbols;
    forall k
      ensures SomePasses(db, root, s, offset, symbols, k) <==>
          exists x :: Passes(db, root, s, offset, x) && k == KeyOf(x)
    {
      WalkedAll(db, root, s, offset, symbols, k);
    }
  }

  ghost predicate SomePasses(db: Database, root: Node, s: Section, offset: nat, xs: seq<Symbol>, k: string) {
    exists x :: x in xs && k == KeyOf(x) && Passes(db, root, s, offset, x)
  }

  lemma AppendPasses(db: Database, root: Node, s: Section, offset: nat, xs: seq<Symbol>, j: nat)
    requires j < |xs|
    ensures forall k :: SomePasses(db, root, s, offset, xs[..j + 1], k) <==>
                        (SomePasses(db, root, s, offset, xs[..j], k) ||
                            (k == KeyOf(xs[j]) && Passes(db, root, s, offset, xs[j])))
  {
    hide Passes, KeyOf;
    assert xs[..j + 1] == xs[..j] + [xs[j]];
    forall k
      ensures SomePasses(db, root, s, offset, xs[..j + 1], k) <==>
              (SomePasses(db, root, s, offset, xs[..j], k) || (k == KeyOf(xs[j]) && Passes(db, root, s, offset, xs[j])))
    {
      if SomePasses(db, root, s, offset, xs[..j], k) {
        var x :| x in xs[..j] && k == KeyOf(x) && Passes(db, root, s, offset, x);
        assert x in xs[..j + 1];
      }
      assert xs[j] in xs[..j + 1];
    }
  }

  lemma WalkedAll(db: Database, root: Node, s: Section, offset: nat, xs: seq<Symbol>, k: string)
    requires multiset(xs) == Walk(db, root, s.data, offset)
    ensures SomePasses(db, root, s, offset, xs, k) <==> exists x :: Passes(db, root, s, offset, x) && k == KeyOf(x)
  {
    hide Walk, KeyOf, HashMatches;
    assert forall x :: x in Walk(db, root, s.data, offset) <==> x in xs;
  }

  method ScanSection(db: Database, root: Node, s: Section, candidates: Candidates, ghost sections: seq<Section>)
      returns (candidates': Candidates)
    requires IsSection(s) && s in sections && Scanned(s) && LoopEnds(|s.data|)
    requires EntriesOk(db, root, sections, candidates)
    ensures EntriesOk(db, root, sections, candidates')
    ensures forall a, k :: Holds(candidates', a, k) <==>
        (Holds(candidates, a, k) || PassesBelow(db, root, s, |s.data|, a, k))
  {
    hide EntriesOk, PassesAt;
    candidates' := candidates;
    var offset := 0;
    while (offset + 4) % WORD <= |s.data|
      invariant offset % 4 == 0 && offset <= |s.data|
      invariant EntriesOk(db, root, sections, candidates')
      invariant forall a, k :: Holds(candidates', a, k) <==>
          (Holds(candidates, a, k) || PassesBelow(db, root, s, offset, a, k))
      decreases |s.data| + 4 - offset
    {
      ghost var before := candidates';
      candidates' := ScanOffset(db, root, s, offset, candidates', sections);
      forall a, k ensures PassesBelow(db, root, s, offset + 4, a, k) <==>
                          (PassesBelow(db, root, s, offset, a, k) || PassesAt(db, root, s, offset, a, k)) {
        NextOffset(db, root, s, offset, a, k);
      }
      offset := (offset + 4) % WORD;
    }
    forall a, k ensures PassesBelow(db, root, s, offset, a, k) <==> PassesBelow(db, root, s, |s.data|, a, k) {
      LastOffset(db, root, s, offset, a, k);
    }
  }

  lemma NextOffset(db: Database, root: Node, s: Section, offset: nat, a: nat, k: string)
    requires offset % 4 == 0
    ensures PassesBelow(db, root, s, offset + 4, a, k) <==>
            (PassesBelow(db, root, s, offset, a, k) || PassesAt(db, root, s, offset, a, k))
  {
    hide Walk, KeyOf, HashMatches;
    if PassesBelow(db, root, s, offset + 4, a, k) {
      var o: nat :| o < offset + 4 && PassesAt(db, root, s, o, a, k);
      assert o % 4 == 0;
      assert o < offset || o == offset;
    }
  }

  lemma LastOffset(db: Database, root: Node, s: Section, offset: nat, a: nat, k: string)
    requires offset % 4 == 0 && offset <= |s.data| < offset + 4
    ensures PassesBelow(db, root, s, offset, a, k) <==> PassesBelow(db, root, s, |s.data|, a, k)
  {
    hide Walk, KeyOf, HashMatches;
    forall o: nat | PassesAt(db, root, s, o, a, k) ensures o < offset && o < |s.data| {
    }
  }

  /** Symbol x passes somewhere at address a. */
  ghost predicate PassesIn(db: Database, root: Node, sections: seq<Section>, a: nat, k: string) {
    exists i :: 0 <= i < |sections| && PassesBelow(db, root, sections[i], |sections[i].data|, a, k)
  }

  method CollectCandidates(db: Database, root: Node, sections: seq<Section>) returns (candidates: Candidates)
    requires forall i :: 0 <= i < |sections| ==> IsSection(sections[i])
    requires forall i :: 0 <= i < |sections| && Scanned(sections[i]) ==> LoopEnds(|sections[i].data|)
    ensures EntriesOk(db, root, sections, candidates)
    ensures forall a, k :: Holds(candidates, a, k) <==> PassesIn(db, root, sections, a, k)
  {
    hide JustifiedIn, KeyOf, PassesBelow;
    candidates := map[];
    for n := 0 to |sections|
      invariant EntriesOk(db, root, sections, candidates)
      invariant forall a, k :: Holds(candidates, a, k) <==> PassesIn(db, root, sections[..n], a, k)
    {
      var s := sections[n];
      if s.isCode && s.hasData && |s.data| >= 4 {
        candidates := ScanSection(db, root, s, candidates, sections);
      }
      forall a, k ensures PassesIn(db, root, sections[..n + 1], a, k) <==>
                          (PassesIn(db, root, sections[..n], a, k) || PassesBelow(db, root, s, |s.data|, a, k)) {
        NextSection(db, root, sections, n, a, k);
      }
      if !Scanned(s) {
        forall a, k ensures !PassesBelow(db, root, s, |s.data|, a, k) { NotScanned(db, root, s, a, k); }
      }
    }
    assert sections[..|sections|] == sections;
  }

  lemma NotScanned(db: Database, root: Node, s: Section, a: nat, k: string)
    requires !Scanned(s)
    ensures !PassesBelow(db, root, s, |s.data|, a, k)
  {
    hide Walk, KeyOf, HashMatches;
  }

  lemma NextSection(db: Database, root: Node, sections: seq<Section>, n: nat, a: nat, k: string)
    requires n < |sections|
    ensures PassesIn(db, root, sections[..n + 1], a, k) <==>
            (PassesIn(db, root, sections[..n], a, k) || PassesBelow(db, root, sections[n], |sections[n].data|, a, k))
  {
    hide PassesBelow;
    var s, t := sections[..n], sections[..n + 1];
    if PassesIn(db, root, s, a, k) {
      var i :| 0 <= i < |s| && PassesBelow(db, root, s[i], |s[i].data|, a, k);
      assert t[i] == s[i];
    }
    if PassesBelow(db, root, sections[n], |sections[n].data|, a, k) {
      assert t[n] == sections[n];
    }
    if PassesIn(db, root, t, a, k) {
      var i :| 0 <= i < |t| && PassesBelow(db, root, t[i], |t[i].data|, a, k);
      if i < n { assert s[i] == t[i]; }
    }
  }

  // ----- resolving ambiguity

  function Identity(x: Symbol): string {
    x.library + "\n" + x.name
  }

  /** Candidate c is at most as good as d in the source's ordering. */
  predicate AtMost(c: Candidate, d: Candidate) {
    c.actualSize < d.actualSize ||
    (c.actualSize == d.actualSize && StaticBitCount(c.symbol) <= StaticBitCount(d.symbol))
  }

  ghost predicate IsViableKey(at: map<string, Candidate>, k: string) {
    k in at && Viable(at[k].symbol)
  }

  /** There is a viable candidate, and all viable candidates have the same identity. */
  ghost predicate Unambiguous(at: map<string, Candidate>) {
    (exists k :: IsViableKey(at, k)) &&
    forall k, k' :: IsViableKey(at, k) && IsViableKey(at, k') ==> Identity(at[k].symbol) == Identity(at[k'].symbol)
  }

  ghost predicate IsBest(at: map<string, Candidate>, c: Candidate) {
    (exists k :: IsViableKey(at, k) && at[k] == c) && forall k :: IsViableKey(at, k) ==> AtMost(at[k], c)
  }

  lemma OneIdentityIff(s: set<string>)
    ensures |s| == 1 <==> s != {} && forall x, y :: x in s && y in s ==> x == y
  {
    if s != {} {
      var x :| x in s;
      assert s == (s - {x}) + {x};
      if |s| == 1 {
        assert |s - {x}| == 0;
      }
      if forall x, y :: x in s && y in s ==> x == y {
        assert s == {x};
      }
    }
  }

  method ResolveAddress(at: map<string, Candidate>) returns (r: Option<Candidate>)
    ensures r.Some? <==> Unambiguous(at)
    ensures r.Some? ==> IsBest(at, r.value)
  {
    hide Identity, StaticBitCount;
    var todo := at.Keys;
    var viable: set<string>, identities: set<string> := {}, {};
    while todo != {}
      invariant todo <= at.Keys
      invariant forall k :: k in viable <==> IsViableKey(at, k) && k !in todo
      invariant forall id :: id in identities <==> exists k :: k in viable && Identity(at[k].symbol) == id
      decreases todo
    {
      var k :| k in todo;
      todo := todo - {k};
      if Viable(at[k].symbol) {
        viable, identities := viable + {k}, identities + {Identity(at[k].symbol)};
      }
    }
    SameIdentity(at, viable, identities);
    if viable == {} || |identities| != 1 { return None; }
    var first :| first in viable;
    var best := at[first];
    var rest := viable - {first};
    ghost var done := {first};
    while rest != {}
      invariant done + rest == viable && done !! rest
      invariant exists k :: k in done && at[k] == best
      invariant forall k :: k in done ==> AtMost(at[k], best)
      decreases rest
    {
      var k :| k in rest;
      if !AtMost(at[k], best) { best := at[k]; }
      done, rest := done + {k}, rest - {k};
    }
    r := Some(best);
  }

  lemma SameIdentity(at: map<string, Candidate>, viable: set<string>, identities: set<string>)
    requires viable <= at.Keys && forall k :: k in viable <==> IsViableKey(at, k)
    requires forall id :: id in identities <==> exists k :: k in viable && Identity(at[k].symbol) == id
    ensures Unambiguous(at) <==> viable != {} && |identities| == 1
  {
    hide Identity, StaticBitCount;
    OneIdentityIff(identities);
    if viable != {} {
      var k :| k in viable;
      assert Identity(at[k].symbol) in identities;
      if |identities| == 1 {
        forall k, k' | IsViableKey(at, k) && IsViableKey(at, k')
          ensures Identity(at[k].symbol) == Identity(at[k'].symbol)
        {
          assert k in viable && k' in viable;
          assert Identity(at[k].symbol) in identities && Identity(at[k'].symbol) in identities;
        }
      }
      if Unambiguous(at) {
        forall x, y | x in identities && y in identities ensures x == y {
          var kx :| kx in viable && Identity(at[kx].symbol) == x;
          var ky :| ky in viable && Identity(at[ky].symbol) == y;
          assert IsViableKey(at, kx) && IsViableKey(at, ky);
        }
      }
    }
  }

  /** The identity text separates libraries and names exactly when no library is another one
      followed by a line break: then equal texts mean equal library and name. */
  lemma {:induction false} IdentityCollidesIff(lib: string, lib': string)
    requires lib != lib'
    ensures (exists name: string, name': string :: lib + "\n" + name == lib' + "\n" + name')
       <==> (lib + "\n" <= lib' || lib' + "\n" <= lib)
  {
    if lib + "\n" <= lib' {
      var rest := lib'[|lib| + 1..];
      assert lib' == lib + "\n" + rest;
      assert lib + "\n" + (rest + "\n" + "") == lib' + "\n" + "";
    }
    if lib' + "\n" <= lib {
      var rest := lib[|lib'| + 1..];
      assert lib == lib' + "\n" + rest;
      assert lib + "\n" + "" == lib' + "\n" + (rest + "\n" + "");
    }
    if exists name: string, name': string :: lib + "\n" + name == lib' + "\n" + name' {
      var name: string, name': string :| lib + "\n" + name == lib' + "\n" + name';
      PrefixesNest(lib, lib', name, name');
    }
  }

  lemma PrefixesNest(lib: string, lib': string, name: string, name': string)
    requires lib + "\n" + name == lib' + "\n" + name' && lib != lib'
    ensures lib + "\n" <= lib' || lib' + "\n" <= lib
  {
    var t := lib + "\n" + name;
    assert t[..|lib|] == lib && t[..|lib'|] == lib';
    assert t[|lib|] == '\n' && t[|lib'|] == '\n';
    if |lib| < |lib'| {
      assert lib + "\n" == t[..|lib| + 1];
    } else if |lib'| < |lib| {
      assert lib' + "\n" == t[..|lib'| + 1];
    }
  }

  function AddressKey(m: Match): int {
    m.address
  }

  function MatchOf(address: nat, c: Candidate): Match {
    Match(address, c.actualSize, c.symbol.name, c.symbol.library, c.symbol.hashText, c.symbol.variant)
  }

  /** The matches are the best candidates of exactly the unambiguous addresses, in ascending order. */
  method ResolveCandidates(candidates: Candidates) returns (matches: seq<Match>)
    ensures StrictlySortedBy(matches, AddressKey)
    ensures forall i :: 0 <= i < |matches| ==> IsResolved(candidates, matches[i])
    ensures forall a :: a in candidates && Unambiguous(candidates[a]) ==> HasAddress(matches, a)
  {
    hide Unambiguous, IsBest, MatchOf;
    var found: seq<Match> := [];
    var todo := candidates.Keys;
    while todo != {}
      invariant todo <= candidates.Keys
      invariant forall i :: 0 <= i < |found| ==> found[i].address !in todo && IsResolved(candidates, found[i])
      invariant DistinctKeys(found, AddressKey)
      invariant forall a :: a in candidates && a !in todo && Unambiguous(candidates[a]) ==> HasAddress(found, a)
      decreases todo
    {
      var address :| address in todo;
      todo := todo - {address};
      var r := ResolveAddress(candidates[address]);
      if r.Some? {
        var m := MatchOf(address, r.value);
        MatchAddress(address, r.value);
        AppendMatch(found, m);
        found := found + [m];
      }
    }
    matches := Sort(found, AddressKey);
    SortDistinct(found, AddressKey);
    SortMembers(found, AddressKey);
    forall i | 0 <= i < |matches| ensures IsResolved(candidates, matches[i]) {
      assert matches[i] in found;
    }
    forall a | a in candidates && Unambiguous(candidates[a]) ensures HasAddress(matches, a) {
      var i :| 0 <= i < |found| && found[i].address == a;
      assert found[i] in matches;
    }
  }

  lemma MatchAddress(a: nat, c: Candidate)
    ensures MatchOf(a, c).address == a
  {
  }

  lemma AppendMatch(found: seq<Match>, m: Match)
    ensures forall a :: HasAddress(found + [m], a) <==> HasAddress(found, a) || a == m.address
  {
    var all := found + [m];
    assert all[|found|] == m;
    forall a | HasAddress(found, a) ensures HasAddress(all, a) {
      var i :| 0 <= i < |found| && found[i].address == a;
      assert all[i].address == a;
    }
  }

  ghost predicate HasAddress(matches: seq<Match>, a: nat) {
    exists i :: 0 <= i < |matches| && matches[i].address == a
  }

  ghost predicate IsResolved(candidates: Candidates, m: Match) {
    m.address in candidates && Unambiguous(candidates[m.address]) &&
    exists c :: IsBest(candidates[m.address], c) && m == MatchOf(m.address, c)
  }

  // ----- the whole scan

  /** Every record is filed under its own key, as loading the database does. */
  ghost predicate DatabaseOk(db: Database) {
    forall k :: k in db ==> KeyOf(db[k]) == k
  }

  /** Viable symbol x passes the scan's tests at address a. */
  ghost predicate ViableAt(db: Database, root: Node, sections: seq<Section>, a: nat, x: Symbol) {
    Viable(x) && exists i, offset: nat ::
      0 <= i < |sections| && Passes(db, root, sections[i], offset, x) && a == (sections[i].address + offset) % WORD
  }

  /** Symbol y gives a candidate at the address of c that is at most as good as c. */
  ghost predicate NoBetterThan(db: Database, root: Node, sections: seq<Section>, y: Symbol, c: Candidate) {
    exists size: nat ::
      JustifiedIn(db, root, sections, Candidate(y, c.address, size)) && AtMost(Candidate(y, c.address, size), c)
  }

  /** Match m is a symbol of the database found in a code section: its masked bytes hash to its
      digest, its extra size is zero words, and every viable symbol at its address has the same
      identity and is no better in size and static bits. */
  ghost predicate Reported(db: Database, root: Node, sections: seq<Section>, m: Match) {
    exists i, offset, x ::
      && 0 <= i < |sections| && m == MatchOf(m.address, Candidate(x, m.address, m.size)) && Viable(x)
      && Justified(db, root, sections[i], offset, Candidate(x, m.address, m.size))
      && forall y :: ViableAt(db, root, sections, m.address, y) ==>
           Identity(y) == Identity(x) && NoBetterThan(db, root, sections, y, Candidate(x, m.address, m.size))
  }

  /** Some viable symbol passes at the address, and all that do have one identity. */
  ghost predicate OneIdentityAt(db: Database, root: Node, sections: seq<Section>, a: nat) {
    (exists x :: ViableAt(db, root, sections, a, x)) &&
    forall x, y :: ViableAt(db, root, sections, a, x) && ViableAt(db, root, sections, a, y) ==>
        Identity(x) == Identity(y)
  }

  lemma {:induction false} KnownAreRecords(db: Database, keys: seq<Key>, x: Symbol)
    requires x in Known(db, keys)
    ensures exists k :: k in db && db[k] == x
  {
    hide KeyText;
    if |keys| > 0 && x in Known(db, keys[..|keys| - 1]) { KnownAreRecords(db, keys[..|keys| - 1], x); }
  }

  /** The symbols found by the walk are records of the database, so their key determines them. */
  lemma {:induction false} WalkedIsRecord(db: Database, n: Node, data: seq<nat>, offset: nat, x: Symbol)
    requires DatabaseOk(db) && x in Walk(db, n, data, offset)
    ensures KeyOf(x) in db && db[KeyOf(x)] == x
    decreases n
  {
    hide KeyOf, Known, Matches, TestedWord;
    var value := TestedWord(n, data, offset);
    WalkEdgesMember(db, n.next, value, data, offset, x);
    var i :| 0 <= i < |n.next| && Matches(n.next[i], value) &&
      (x in Known(db, n.next[i].child.symbols) || x in Walk(db, n.next[i].child, data, offset));
    var child := n.next[i].child;
    if x in Known(db, child.symbols) {
      KnownAreRecords(db, child.symbols, x);
    } else {
      assert n.next[i] < n;
      WalkedIsRecord(db, child, data, offset, x);
    }
  }

  /** What the map of candidates holds at an address are the records that pass there. */
  lemma HeldIffViable(db: Database, root: Node, sections: seq<Section>, m: Candidates, a: nat, x: Symbol)
    requires DatabaseOk(db) && EntriesOk(db, root, sections, m)
    requires forall a, k :: Holds(m, a, k) <==> PassesIn(db, root, sections, a, k)
    ensures ViableAt(db, root, sections, a, x) <==> (Holds(m, a, KeyOf(x)) && m[a][KeyOf(x)].symbol == x && Viable(x))
  {
    hide Walk, KeyOf, HashMatches, ZeroWords, ZeroWordAt, StaticBitCount, DatabaseOk;
    if ViableAt(db, root, sections, a, x) {
      var i, offset: nat :| 0 <= i < |sections| && Passes(db, root, sections[i], offset, x) &&
          a == (sections[i].address + offset) % WORD;
      assert PassesAt(db, root, sections[i], offset, a, KeyOf(x));
      assert PassesBelow(db, root, sections[i], |sections[i].data|, a, KeyOf(x));
      assert Holds(m, a, KeyOf(x));
      var c := m[a][KeyOf(x)];
      var j, o :| 0 <= j < |sections| && Justified(db, root, sections[j], o, c);
      WalkedIsRecord(db, root, sections[i].data, offset, x);
      WalkedIsRecord(db, root, sections[j].data, o, c.symbol);
    }
    if Holds(m, a, KeyOf(x)) && m[a][KeyOf(x)].symbol == x && Viable(x) {
      var c := m[a][KeyOf(x)];
      var j, o :| 0 <= j < |sections| && Justified(db, root, sections[j], o, c);
      assert Passes(db, root, sections[j], o, x);
    }
  }

  lemma UnambiguousIff(db: Database, root: Node, sections: seq<Section>, m: Candidates, a: nat)
    requires DatabaseOk(db) && EntriesOk(db, root, sections, m)
    requires forall a, k :: Holds(m, a, k) <==> PassesIn(db, root, sections, a, k)
    ensures (a in m && Unambiguous(m[a])) <==> OneIdentityAt(db, root, sections, a)
  {
    hide KeyOf, Identity, Viable, PassesIn, JustifiedIn, DatabaseOk, ViableAt;
    forall x
      ensures ViableAt(db, root, sections, a, x) <==> (Holds(m, a, KeyOf(x)) && m[a][KeyOf(x)].symbol == x && Viable(x))
    {
      HeldIffViable(db, root, sections, m, a, x);
    }
    if a in m {
      forall k | IsViableKey(m[a], k) ensures ViableAt(db, root, sections, a, m[a][k].symbol) {
        assert Holds(m, a, k);
      }
      forall x | ViableAt(db, root, sections, a, x) ensures IsViableKey(m[a], KeyOf(x)) && m[a][KeyOf(x)].symbol == x {
      }
    }
  }

  lemma ResolvedIsReported(db: Database, root: Node, sections: seq<Section>, cs: Candidates, m: Match)
    requires DatabaseOk(db) && EntriesOk(db, root, sections, cs)
    requires forall a, k :: Holds(cs, a, k) <==> PassesIn(db, root, sections, a, k)
    requires IsResolved(cs, m)
    ensures Reported(db, root, sections, m)
  {
    hide KeyOf, Identity, Viable, PassesIn, Justified, DatabaseOk, ViableAt;
    var at := cs[m.address];
    var c :| IsBest(at, c) && m == MatchOf(m.address, c);
    var k :| IsViableKey(at, k) && at[k] == c;
    assert Holds(cs, m.address, k);
    assert JustifiedIn(db, root, sections, c);
    var i, offset :| 0 <= i < |sections| && Justified(db, root, sections[i], offset, c);
    assert c == Candidate(c.symbol, m.address, m.size);
    HeldIffViable(db, root, sections, cs, m.address, c.symbol);
    UnambiguousIff(db, root, sections, cs, m.address);
    forall y | ViableAt(db, root, sections, m.address, y) ensures NoBetterThan(db, root, sections, y, c) {
      HeldIffViable(db, root, sections, cs, m.address, y);
      var d := at[KeyOf(y)];
      assert IsViableKey(at, KeyOf(y)) && AtMost(d, c);
      assert JustifiedIn(db, root, sections, Candidate(y, c.address, d.actualSize));
    }
  }

  // ----- what a reported match means when nothing overlaps

  /** Address a belongs to one place of the scanned sections only. */
  ghost predicate OnePlace(sections: seq<Section>, a: nat) {
    forall i, j, o: nat, p: nat :: IsPlace(sections, i, o, a) && IsPlace(sections, j, p, a) ==> i == j && o == p
  }

  ghost predicate IsPlace(sections: seq<Section>, i: int, offset: nat, a: nat) {
    0 <= i < |sections| && Scanned(sections[i]) && offset + 4 <= |sections[i].data| &&
    a == (sections[i].address + offset) % WORD
  }

  /** How far a symbol extends at a place is determined. */
  lemma SizeIsUnique(db: Database, root: Node, s: Section, offset: nat, c: Candidate, d: Candidate)
    requires Justified(db, root, s, offset, c) && Justified(db, root, s, offset, d) && c.symbol == d.symbol
    ensures c.actualSize == d.actualSize
  {
    hide Walk, HashMatches, ZeroWordAt;
    if c.actualSize < d.actualSize {
      ZeroInside(s.data, offset + c.symbol.size, offset + c.actualSize, offset + d.actualSize);
    }
    if d.actualSize < c.actualSize {
      ZeroInside(s.data, offset + c.symbol.size, offset + d.actualSize, offset + c.actualSize);
    }
  }

  lemma ZeroInside(data: seq<nat>, from: nat, mid: nat, to: nat)
    requires ZeroWords(data, from, to) && from <= mid < to && (mid - from) % 4 == 0
    ensures ZeroWordAt(data, mid)
  {
    hide ZeroWordAt;
    var k := (mid - from) / 4;
    assert k < (to - from) / 4 && from + 4 * k == mid;
  }

  /** Where sections do not overlap, no viable candidate at the address is larger than the match. */
  lemma ReportedIsLargest(db: Database, root: Node, sections: seq<Section>, m: Match, d: Candidate)
    requires Reported(db, root, sections, m) && OnePlace(sections, m.address)
    requires JustifiedIn(db, root, sections, d) && Viable(d.symbol) && d.address == m.address
    ensures d.actualSize <= m.size
  {
    hide Walk, HashMatches, ZeroWords, ZeroWordAt, Identity, StaticBitCount, Viable;
    var i, offset, x :|
      && 0 <= i < |sections| && m == MatchOf(m.address, Candidate(x, m.address, m.size)) && Viable(x)
      && Justified(db, root, sections[i], offset, Candidate(x, m.address, m.size))
      && forall y :: ViableAt(db, root, sections, m.address, y) ==>
           Identity(y) == Identity(x) && NoBetterThan(db, root, sections, y, Candidate(x, m.address, m.size));
    var c, y := Candidate(x, m.address, m.size), d.symbol;
    var j, o :| 0 <= j < |sections| && Justified(db, root, sections[j], o, d);
    assert Passes(db, root, sections[j], o, y);
    assert ViableAt(db, root, sections, m.address, y);
    var size: nat :| JustifiedIn(db, root, sections, Candidate(y, c.address, size)) &&
        AtMost(Candidate(y, c.address, size), c);
    var k, q :| 0 <= k < |sections| && Justified(db, root, sections[k], q, Candidate(y, c.address, size));
    assert IsPlace(sections, j, o, m.address) && IsPlace(sections, k, q, m.address);
    SizeIsUnique(db, root, sections[j], o, d, Candidate(y, c.address, size));
  }

  /** A match names a record of the database by all four parts of its key. That record is a viable
      function that hashes to its digest at the place, and of the viable candidates there that are as
      large it has the most static bits. */
  lemma ReportedRecord(db: Database, root: Node, sections: seq<Section>, m: Match, d: Candidate)
    requires DatabaseOk(db) && Reported(db, root, sections, m) && OnePlace(sections, m.address)
    requires JustifiedIn(db, root, sections, d) && Viable(d.symbol) && d.address == m.address
    ensures var key := KeyText(Key(m.library, m.name, m.hash, m.variant));
            && key in db && db[key].library == m.library && db[key].name == m.name
            && db[key].hashText == m.hash && db[key].variant == m.variant && Viable(db[key])
            && JustifiedIn(db, root, sections, Candidate(db[key], m.address, m.size))
            && (d.actualSize == m.size ==> StaticBitCount(d.symbol) <= StaticBitCount(db[key]))
  {
    hide Walk, HashMatches, ZeroWords, ZeroWordAt, Identity, StaticBitCount, Viable, KeyText;
    var i, offset, x :|
      && 0 <= i < |sections| && m == MatchOf(m.address, Candidate(x, m.address, m.size)) && Viable(x)
      && Justified(db, root, sections[i], offset, Candidate(x, m.address, m.size))
      && forall y :: ViableAt(db, root, sections, m.address, y) ==>
           Identity(y) == Identity(x) && NoBetterThan(db, root, sections, y, Candidate(x, m.address, m.size));
    WalkedIsRecord(db, root, sections[i].data, offset, x);
    var c, y := Candidate(x, m.address, m.size), d.symbol;
    var j, o :| 0 <= j < |sections| && Justified(db, root, sections[j], o, d);
    assert Passes(db, root, sections[j], o, y);
    assert ViableAt(db, root, sections, m.address, y);
    var size: nat :| JustifiedIn(db, root, sections, Candidate(y, c.address, size)) &&
        AtMost(Candidate(y, c.address, size), c);
    var k, q :| 0 <= k < |sections| && Justified(db, root, sections[k], q, Candidate(y, c.address, size));
    assert IsPlace(sections, j, o, m.address) && IsPlace(sections, k, q, m.address);
    SizeIsUnique(db, root, sections[j], o, d, Candidate(y, c.address, size));
  }

  ghost predicate NoLineBreaks(db: Database) {
    forall k :: k in db ==> '\n' !in db[k].library
  }

  /** When no library name has a line break, every viable symbol at the address of a match has its
      library and its name. */
  lemma ReportedNames(db: Database, root: Node, sections: seq<Section>, m: Match, y: Symbol)
    requires DatabaseOk(db) && NoLineBreaks(db) && Reported(db, root, sections, m)
    requires ViableAt(db, root, sections, m.address, y)
    ensures y.library == m.library && y.name == m.name
  {
    hide Walk, HashMatches, ZeroWords, ZeroWordAt, StaticBitCount, Viable, DatabaseOk, NoBetterThan, KeyOf;
    var i, offset, x :|
      && 0 <= i < |sections| && m == MatchOf(m.address, Candidate(x, m.address, m.size)) && Viable(x)
      && Justified(db, root, sections[i], offset, Candidate(x, m.address, m.size))
      && forall y :: ViableAt(db, root, sections, m.address, y) ==>
           Identity(y) == Identity(x) && NoBetterThan(db, root, sections, y, Candidate(x, m.address, m.size));
    var j, o: nat :| 0 <= j < |sections| && Passes(db, root, sections[j], o, y) &&
        m.address == (sections[j].address + o) % WORD;
    WalkedIsRecord(db, root, sections[i].data, offset, x);
    WalkedIsRecord(db, root, sections[j].data, o, y);
    SameText(x, y);
  }

  lemma BreakInside(lib: string, lib': string)
    ensures lib + "\n" <= lib' ==> '\n' in lib'
  {
    if lib + "\n" <= lib' { assert lib'[|lib|] == (lib + "\n")[|lib|]; }
  }

  lemma SameText(x: Symbol, y: Symbol)
    requires Identity(x) == Identity(y) && '\n' !in x.library && '\n' !in y.library
    ensures x.library == y.library && x.name == y.name
  {
    if x.library != y.library {
      assert x.library + "\n" + x.name == y.library + "\n" + y.name;
      IdentityCollidesIff(x.library, y.library);
      BreakInside(x.library, y.library);
      BreakInside(y.library, x.library);
    } else {
      var lib := x.library + "\n";
      assert x.name == Identity(x)[|lib|..] && y.name == Identity(y)[|lib|..];
    }
  }

  /** scan: the reported matches are sound, unambiguous and complete, in ascending address order. */
  method Scan(db: Database, root: Option<Node>, sections: seq<Section>) returns (matches: seq<Match>)
    requires DatabaseOk(db)
    requires forall i :: 0 <= i < |sections| ==> IsSection(sections[i])
    requires forall i :: 0 <= i < |sections| && Scanned(sections[i]) ==> LoopEnds(|sections[i].data|)
    ensures StrictlySortedBy(matches, AddressKey)
    ensures root.None? ==> matches == []
    ensures root.Some? ==> forall i :: 0 <= i < |matches| ==> Reported(db, root.value, sections, matches[i])
    ensures root.Some? ==> forall a :: HasAddress(matches, a) <==> OneIdentityAt(db, root.value, sections, a)
  {
    hide Reported, OneIdentityAt, DatabaseOk, EntriesOk, PassesIn, IsResolved;
    matches := [];
    if root.None? { return; }
    var candidates := CollectCandidates(db, root.value, sections);
    matches := ResolveCandidates(candidates);
    forall i | 0 <= i < |matches| ensures Reported(db, root.value, sections, matches[i]) {
      ResolvedIsReported(db, root.value, sections, candidates, matches[i]);
    }
    forall a ensures HasAddress(matches, a) <==> OneIdentityAt(db, root.value, sections, a) {
      UnambiguousIff(db, root.value, sections, candidates, a);
      if HasAddress(matches, a) {
        var i :| 0 <= i < |matches| && matches[i].address == a;
        ResolvedAddress(candidates, matches[i]);
      }
    }
  }

  lemma ResolvedAddress(cs: Candidates, m: Match)
    requires IsResolved(cs, m)
    ensures m.address in cs && Unambiguous(cs[m.address])
  {
  }
}
