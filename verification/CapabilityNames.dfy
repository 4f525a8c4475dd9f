/**
 * Preview names: a function's capabilities written into its own name, category
 * by category, and read back from the names of called functions by a search for
 * the category text.
 */
module CapabilityNames {
  import opened Options

  datatype Category = Netw | Reg | File | Proc | Serv | Thread | Str

  /** A capability: a category and one of its lower-case preview letters. */
  datatype Capability = Capability(category: Category, letter: char)

  function CategoryText(c: Category): string {
    match c
    case Netw => "netw"
    case Reg => "reg"
    case File => "file"
    case Proc => "proc"
    case Serv => "serv"
    case Thread => "thread"
    case Str => "str"
  }

  /** The preview letters of a category, in the order in which names show them. */
  function Letters(c: Category): string {
    match c
    case Netw => "bclsrtm"
    case Reg => "hrwd"
    case File => "hrwdcme"
    case Proc => "hectrw"
    case Serv => "hcdsrw"
    case Thread => "cosr"
    case Str => "c"
  }

  predicate InNomenclature(x: Capability) {
    x.letter in Letters(x.category)
  }

  // ----- characters

  predicate IsLower(ch: char) { 'a' <= ch <= 'z' }

  predicate IsUpper(ch: char) { 'A' <= ch <= 'Z' }

  predicate IsLetter(ch: char) { IsLower(ch) || IsUpper(ch) }

  predicate IsHexDigit(ch: char) { '0' <= ch <= '9' || 'a' <= ch <= 'f' }

  /** The characters that the search pattern and addresses are made of. */
  lemma CharacterSets(ch: char)
    ensures IsLower(ch) <==> ch in "abcdefghijklmnopqrstuvwxyz"
    ensures IsUpper(ch) <==> ch in "ABCDEFGHIJKLMNOPQRSTUVWXYZ"
    ensures IsHexDigit(ch) <==> ch in "0123456789abcdef"
  {
  }

  function ToUpper(ch: char): char {
    if IsLower(ch) then (ch as int - 32) as char else ch
  }

  function ToLower(ch: char): char {
    if IsUpper(ch) then (ch as int + 32) as char else ch
  }

  function UpperText(s: string): (r: string)
    ensures |r| == |s|
  {
    seq(|s|, i requires 0 <= i < |s| => ToUpper(s[i]))
  }

  // ----- building a name

  /** The given letters of which the capability is present, in order. */
  function Shown(letters: string, c: Category, caps: set<Capability>): string {
    if |letters| == 0 then ""
    else (if Capability(c, letters[0]) in caps then [letters[0]] else "") + Shown(letters[1..], c, caps)
  }

  /** The upper-case letters of the function's own capabilities. */
  function ParentText(c: Category, own: set<Capability>): string {
    UpperText(Shown(Letters(c), c, own))
  }

  /** The lower-case letters of the capabilities of its children. */
  function ChildText(c: Category, child: set<Capability>): string {
    Shown(Letters(c), c, child)
  }

  /** A part of a name followed by an underscore, or nothing. */
  function Token(t: string): string {
    if t == "" then "" else t + "_"
  }

  /** A category with its letters, or nothing when it has none. */
  function Segment(c: Category, own: set<Capability>, child: set<Capability>): string {
    var p, k := ParentText(c, own), ChildText(c, child);
    if p == "" && k == "" then "" else CategoryText(c) + "_" + Token(p) + Token(k) + "_"
  }

  const ORDER: seq<Category> := [Netw, Reg, File, Proc, Serv, Thread, Str]

  /** The segments of the first n categories. */
  function Purpose(n: nat, own: set<Capability>, child: set<Capability>): string
    requires n <= 7
  {
    if n == 0 then "" else Purpose(n - 1, own, child) + Segment(ORDER[n - 1], own, child)
  }

  function Digits(n: nat): string {
    if n < 10 then ["0123456789"[n]] else Digits(n / 10) + ["0123456789"[n % 10]]
  }

  /** A number in at least two digits. */
  function TwoDigits(n: nat): string {
    if n < 10 then "0" + Digits(n) else Digits(n)
  }

  /** What a name shows of a function besides its capabilities. */
  datatype Label = Label(entry: string, xrefs: nat, hasCalls: bool)

  ghost predicate IsLabel(x: Label) {
    forall i :: 0 <= i < |x.entry| ==> IsHexDigit(x.entry[i])
  }

  const PREFIX: string := "f_p__"

  /** Build_New_Func_Name. */
  function BuildName(x: Label, own: set<Capability>, child: set<Capability>): string {
    if !x.hasCalls then PREFIX + "zc_FUN_" + x.entry + "__xref_" + TwoDigits(x.xrefs)
    else if Purpose(7, own, child) != "" then
      PREFIX + Purpose(7, own, child) + "xref_" + TwoDigits(x.xrefs) + "_" + x.entry
    else PREFIX + "FUN_" + x.entry + "__xref_" + TwoDigits(x.xrefs)
  }

  // ----- reading a name

  /** The search pattern matches at position i: the category text, an underscore and a letter. */
  predicate MatchAt(name: string, cat: string, i: nat) {
    var j := i + |cat|;
    j + 1 < |name| && name[i..j] == cat && name[j] == '_' && IsLetter(name[j + 1])
  }

  /** The leftmost match at or after position i. */
  function Search(name: string, cat: string, i: nat): (r: Option<nat>)
    ensures r.Some? ==> i <= r.value && MatchAt(name, cat, r.value)
    ensures r.Some? ==> forall k :: i <= k < r.value ==> !MatchAt(name, cat, k)
    ensures r.None? ==> forall k: nat :: i <= k ==> !MatchAt(name, cat, k)
    decreases |name| - i
  {
    if i >= |name| then None
    else if MatchAt(name, cat, i) then Some(i)
    else Search(name, cat, i + 1)
  }

  /** The end of the longest run of letters from position i. */
  function RunEnd(name: string, i: nat): (e: nat)
    requires i <= |name|
    ensures i <= e <= |name|
    ensures forall k :: i <= k < e ==> IsLetter(name[k])
    ensures e < |name| ==> !IsLetter(name[e])
    decreases |name| - i
  {
    if i == |name| || !IsLetter(name[i]) then i else RunEnd(name, i + 1)
  }

  /** The letters that the two groups of the pattern capture. */
  function Captured(name: string, cat: string): set<char> {
    match Search(name, cat, 0)
    case None => {}
    case Some(i) =>
      var start := i + |cat| + 1;
      var e1 := RunEnd(name, start);
      var second := if e1 < |name| && name[e1] == '_' then e1 + 1 else e1;
      var e2 := RunEnd(name, second);
      Between(name, start, e1) + Between(name, second, e2)
  }

  /** The characters of a stretch of a name. */
  function Between(name: string, i: nat, e: nat): set<char>
    requires i <= e <= |name|
  {
    set k | i <= k < e :: name[k]
  }

  /** The captured letters in lower case. */
  function ReadLetters(name: string, cat: string): set<char> {
    set ch | ch in Captured(name, cat) :: ToLower(ch)
  }

  /** The capabilities that a caller reads from a name. */
  function ReadName(name: string): set<Capability> {
    set i, ch | 0 <= i < 7 && ch in ReadLetters(name, CategoryText(ORDER[i])) :: Capability(ORDER[i], ch)
  }

  // ----- where the category text can occur

  predicate EndsWith(s: string, t: string) {
    |t| <= |s| && s[|s| - |t|..] == t
  }

  /** No underscore of s has the category text right before it. */
  ghost predicate Free(s: string, cat: string) {
    forall j :: 0 <= j < |s| && s[j] == '_' ==> !EndsWith(s[..j], cat)
  }

  /** A place in a name where a new part begins. */
  ghost predicate AtPart(s: string) {
    s == "" || s[|s| - 1] == '_'
  }

  lemma FreeToken(s: string, t: string, cat: string)
    requires Free(s, cat) && AtPart(s) && '_' !in t && '_' !in cat && !EndsWith(t, cat)
    ensures Free(s + t + "_", cat) && AtPart(s + t + "_")
  {
    var r := s + t + "_";
    assert forall j :: |s| <= j < |s| + |t| ==> r[j] == t[j - |s|] && r[j] != '_';
    forall j | 0 <= j < |r| && r[j] == '_' ensures !EndsWith(r[..j], cat) {
      if j < |s| {
        assert r[..j] == s[..j];
      } else {
        assert j == |s| + |t| && r[..j] == s + t;
        ShortSuffix(s, t, cat);
      }
    }
  }

  /** A suffix of s + t without underscores is a suffix of t when s ends in an underscore. */
  lemma ShortSuffix(s: string, t: string, cat: string)
    requires AtPart(s) && '_' !in cat && !EndsWith(t, cat)
    ensures !EndsWith(s + t, cat)
  {
    var st := s + t;
    if |cat| <= |st| {
      if |cat| <= |t| {
        assert st[|st| - |cat|..] == t[|t| - |cat|..];
      } else {
        var k := |cat| - |t| - 1;
        assert st[|st| - |cat|..][k] == s[|s| - 1] == '_';
        assert k < |cat| && cat[k] != '_';
      }
    }
  }

  lemma FreeLast(s: string, t: string, cat: string)
    requires Free(s, cat) && '_' !in t
    ensures Free(s + t, cat)
  {
    var r := s + t;
    assert forall j :: |s| <= j < |s| + |t| ==> r[j] == t[j - |s|] && r[j] != '_';
    forall j | 0 <= j < |r| && r[j] == '_' ensures !EndsWith(r[..j], cat) {
      assert r[..j] == s[..j];
    }
  }

  /** Without the category text before an underscore the search fails. */
  lemma FreeMeansNothingRead(name: string, cat: string)
    requires Free(name, cat)
    ensures Captured(name, cat) == {} && ReadLetters(name, cat) == {}
  {
    forall i: nat ensures !MatchAt(name, cat, i) {
      if MatchAt(name, cat, i) {
        MatchHasSuffix(name, cat, i);
      }
    }
  }

  lemma MatchHasSuffix(name: string, cat: string, i: nat)
    requires MatchAt(name, cat, i)
    ensures i + |cat| < |name| && name[i + |cat|] == '_' && EndsWith(name[..i + |cat|], cat)
  {
    var j := i + |cat|;
    assert name[..j][|name[..j]| - |cat|..] == name[i..j];
  }

  // ----- no other part of a name ends in a category text

  lemma SuffixChars(s: string, t: string, i: nat)
    requires EndsWith(s, t) && i < |t|
    ensures t[i] in s && s[|s| - |t| + i] == t[i]
  {
    assert s[|s| - |t|..][i] == s[|s| - |t| + i];
  }

  /** A letter of each category text that is no preview letter and no hex digit; the last
      category has none and is told apart by the order of its letters. */
  lemma CategoryHasNoUnderscore(c: Category)
    ensures '_' !in CategoryText(c) && |CategoryText(c)| >= 3
    ensures forall i :: 0 <= i < |CategoryText(c)| ==> IsLower(CategoryText(c)[i])
  {
  }

  /** The last letters of the category texts are all different. */
  lemma OtherCategory(c: Category, d: Category)
    requires c != d
    ensures !EndsWith(CategoryText(d), CategoryText(c))
  {
    var s, t := CategoryText(d), CategoryText(c);
    if EndsWith(s, t) { SuffixChars(s, t, |t| - 1); }
  }

  lemma UpperPart(c: Category, t: string)
    requires forall i :: 0 <= i < |t| ==> IsUpper(t[i])
    ensures !EndsWith(t, CategoryText(c)) && '_' !in t
  {
    CategoryHasNoUnderscore(c);
    var cat := CategoryText(c);
    if EndsWith(t, cat) { SuffixChars(t, cat, 0); }
  }

  lemma HexPart(c: Category, t: string)
    requires forall i :: 0 <= i < |t| ==> IsHexDigit(t[i])
    ensures !EndsWith(t, CategoryText(c)) && '_' !in t
  {
    var cat := CategoryText(c);
    if EndsWith(t, cat) {
      var i := match c case Proc => 0 case Reg => 0 case File => 1 case _ => 0;
      SuffixChars(t, cat, i);
    }
  }

  lemma {:induction false} ShownMembers(letters: string, c: Category, caps: set<Capability>)
    ensures forall ch :: ch in Shown(letters, c, caps) <==> ch in letters && Capability(c, ch) in caps
  {
    if |letters| > 0 {
      ShownMembers(letters[1..], c, caps);
      assert letters == [letters[0]] + letters[1..];
    }
  }

  lemma {:induction false} ShownSplit(a: string, b: string, c: Category, caps: set<Capability>)
    ensures Shown(a + b, c, caps) == Shown(a, c, caps) + Shown(b, c, caps)
  {
    if |a| == 0 {
      assert a + b == b;
    } else {
      var ab := a + b;
      assert ab[0] == a[0] && ab[1..] == a[1..] + b;
      var head := if Capability(c, a[0]) in caps then [a[0]] else "";
      assert Shown(ab, c, caps) == head + Shown(ab[1..], c, caps);
      assert Shown(a, c, caps) == head + Shown(a[1..], c, caps);
      hide Shown;
      ShownSplit(a[1..], b, c, caps);
    }
  }

  lemma LettersAreLower(c: Category)
    ensures forall ch :: ch in Letters(c) ==> IsLower(ch) && ch !in "ngipva_"
  {
  }

  /** The letters of children never spell a category text at their end. */
  lemma ChildPart(c: Category, d: Category, child: set<Capability>)
    ensures !EndsWith(ChildText(d, child), CategoryText(c)) && '_' !in ChildText(d, child)
  {
    var t, cat := ChildText(d, child), CategoryText(c);
    ShownMembers(Letters(d), d, child);
    LettersAreLower(d);
    if EndsWith(t, cat) {
      if c == Str {
        StrPart(d, child);
      } else {
        var i := match c
          case Netw => 0 case Reg => 2 case File => 1 case Proc => 0
          case Serv => 3 case Thread => 4 case Str => 0;
        SuffixChars(t, cat, i);
      }
    }
  }

  /** Only networking has both an 's' and a 't', and there the 'r' comes before the 't'. */
  lemma StrPart(d: Category, child: set<Capability>)
    ensures !EndsWith(ChildText(d, child), "str")
  {
    var t := ChildText(d, child);
    ShownMembers(Letters(d), d, child);
    if EndsWith(t, "str") {
      SuffixChars(t, "str", 0);
      SuffixChars(t, "str", 1);
      assert 's' in Letters(d) && 't' in Letters(d);
      LettersOfStr(d);
      NetworkPart(child);
    }
  }

  lemma LettersOfStr(d: Category)
    requires 's' in Letters(d) && 't' in Letters(d)
    ensures d == Netw
  {
  }

  lemma NetworkPart(child: set<Capability>)
    ensures !EndsWith(ChildText(Netw, child), "str")
  {
    var front, back := Shown("bclsr", Netw, child), Shown("tm", Netw, child);
    assert Letters(Netw) == "bclsr" + "tm";
    ShownSplit("bclsr", "tm", Netw, child);
    ShownMembers("bclsr", Netw, child);
    ShownMembers("tm", Netw, child);
    hide Shown;
    var t := front + back;
    assert 't' !in front && 'r' !in back;
    if EndsWith(t, "str") {
      SuffixChars(t, "str", 1);
      SuffixChars(t, "str", 2);
    }
  }

  // ----- reading one segment

  /** The name with the segment of a category between pre and post. */
  function WithSegment(pre: string, cat: string, p: string, k: string, post: string): string {
    pre + cat + "_" + Token(p) + Token(k) + "_" + post
  }

  ghost predicate AllLetters(s: string) {
    forall i :: 0 <= i < |s| ==> IsLetter(s[i])
  }

  function Chars(s: string): set<char> {
    set i | 0 <= i < |s| :: s[i]
  }

  /** The leftmost match is the segment itself. */
  lemma SegmentIsFound(pre: string, cat: string, rest: string)
    requires Free(pre, cat) && '_' !in cat && |cat| > 0
    requires |rest| > 0 && IsLetter(rest[0])
    ensures Search(pre + cat + "_" + rest, cat, 0) == Some(|pre|)
  {
    hide Search, Free, EndsWith;
    var name := pre + cat + "_" + rest;
    assert MatchAt(name, cat, |pre|) by {
      assert name[|pre|..|pre| + |cat|] == cat && name[|pre| + |cat|] == '_' && name[|pre| + |cat| + 1] == rest[0];
    }
    forall i: nat | i < |pre| ensures !MatchAt(name, cat, i) {
      NoEarlierMatch(pre, cat, rest, i);
    }
  }

  lemma NoEarlierMatch(pre: string, cat: string, rest: string, i: nat)
    requires Free(pre, cat) && '_' !in cat && i < |pre|
    ensures !MatchAt(pre + cat + "_" + rest, cat, i)
  {
    hide EndsWith;
    var name, j := pre + cat + "_" + rest, i + |cat|;
    if j < |pre| {
      assert name[..j] == pre[..j] && name[j] == pre[j];
      if MatchAt(name, cat, i) { MatchHasSuffix(name, cat, i); }
    } else {
      assert name[j] == cat[j - |pre|] && name[j] != '_';
    }
  }

  lemma RunIs(name: string, i: nat, e: nat)
    requires i <= e < |name| && !IsLetter(name[e]) && forall k :: i <= k < e ==> IsLetter(name[k])
    ensures RunEnd(name, i) == e
  {
    hide RunEnd;
  }

  lemma SliceChars(name: string, i: nat, e: nat, s: string)
    requires i <= e <= |name| && name[i..e] == s
    ensures Between(name, i, e) == Chars(s)
  {
    assert |s| == e - i;
    assert forall k :: 0 <= k < |s| ==> s[k] == name[i + k];
    assert forall k :: i <= k < e ==> name[k] == s[k - i];
  }

  lemma ReadOneGroup(pre: string, cat: string, p: string, post: string)
    requires Free(pre, cat) && '_' !in cat && |cat| > 0 && |p| > 0 && AllLetters(p)
    ensures Captured(pre + cat + "_" + p + "__" + post, cat) == Chars(p)
  {
    hide RunEnd, Free, Search, EndsWith, MatchAt;
    var name := pre + cat + "_" + p + "__" + post;
    assert name == pre + cat + "_" + (p + "__" + post);
    SegmentIsFound(pre, cat, p + "__" + post);
    var start := |pre| + |cat| + 1;
    assert name[start..start + |p|] == p && name[start + |p|] == '_' && name[start + |p| + 1] == '_';
    assert forall k :: start <= k < start + |p| ==> name[k] == p[k - start];
    RunIs(name, start, start + |p|);
    RunIs(name, start + |p| + 1, start + |p| + 1);
    SliceChars(name, start, start + |p|, p);
  }

  lemma ReadTwoGroups(pre: string, cat: string, p: string, k: string, post: string)
    requires Free(pre, cat) && '_' !in cat && |cat| > 0 && |p| > 0 && AllLetters(p) && |k| > 0 && AllLetters(k)
    ensures Captured(pre + cat + "_" + p + "_" + k + "__" + post, cat) == Chars(p) + Chars(k)
  {
    hide RunEnd, Free, Search, EndsWith, MatchAt, Chars, Between;
    var rest := p + "_" + k + "__" + post;
    var name := pre + cat + "_" + rest;
    var first, second := |pre| + |cat| + 1, |pre| + |cat| + 1 + |p| + 1;
    TwoGroupsText(pre + cat + "_", p, k, post);
    SegmentIsFound(pre, cat, rest);
    GroupSlice(pre + cat + "_", p, k + "__" + post);
    GroupSlice(pre + cat + "_" + p + "_", k, "_" + post);
    GroupIn(name, first, first + |p|, p);
    GroupIn(name, second, second + |k|, k);
  }

  lemma TwoGroupsText(s: string, p: string, k: string, post: string)
    ensures s + p + "_" + k + "__" + post == s + (p + "_" + k + "__" + post)
    ensures s + p + "_" + k + "__" + post == s + p + "_" + (k + "__" + post)
    ensures s + p + "_" + k + "__" + post == (s + p + "_") + k + "_" + ("_" + post)
  {
  }

  lemma GroupSlice(before: string, group: string, after: string)
    ensures var name := before + group + "_" + after;
            name[|before|..|before| + |group|] == group && name[|before| + |group|] == '_'
  {
  }

  /** A run of letters before an underscore is captured whole. */
  lemma GroupIn(name: string, i: nat, e: nat, group: string)
    requires i <= e < |name| && name[i..e] == group && name[e] == '_' && AllLetters(group)
    ensures RunEnd(name, i) == e && Between(name, i, e) == Chars(group)
  {
    hide RunEnd, Chars, Between;
    forall k | i <= k < e ensures IsLetter(name[k]) {
      assert name[k] == group[k - i];
    }
    RunIs(name, i, e);
    SliceChars(name, i, e, group);
  }

  /** Reading a segment captures the letters of both of its parts. */
  lemma ReadSegment(pre: string, cat: string, p: string, k: string, post: string)
    requires Free(pre, cat) && '_' !in cat && |cat| > 0 && AllLetters(p) && AllLetters(k) && (p != "" || k != "")
    ensures Captured(WithSegment(pre, cat, p, k, post), cat) == Chars(p) + Chars(k)
  {
    hide Captured, Free;
    if p != "" && k != "" {
      assert WithSegment(pre, cat, p, k, post) == pre + cat + "_" + p + "_" + k + "__" + post;
      ReadTwoGroups(pre, cat, p, k, post);
    } else if p != "" {
      assert WithSegment(pre, cat, p, k, post) == pre + cat + "_" + p + "__" + post;
      ReadOneGroup(pre, cat, p, post);
    } else {
      assert WithSegment(pre, cat, p, k, post) == pre + cat + "_" + k + "__" + post;
      ReadOneGroup(pre, cat, k, post);
    }
  }

  // ----- the whole name

  lemma TokenFree(s: string, t: string, cat: string)
    requires Free(s, cat) && AtPart(s) && '_' !in t && '_' !in cat && !EndsWith(t, cat)
    ensures Free(s + Token(t), cat) && AtPart(s + Token(t))
  {
    if t == "" {
      assert s + Token(t) == s;
    } else {
      FreeToken(s, t, cat);
      assert s + Token(t) == s + t + "_";
    }
  }

  lemma ParentIsUpper(c: Category, own: set<Capability>)
    ensures forall i :: 0 <= i < |ParentText(c, own)| ==> IsUpper(ParentText(c, own)[i])
  {
    ShownMembers(Letters(c), c, own);
    LettersAreLower(c);
    var shown := Shown(Letters(c), c, own);
    forall i | 0 <= i < |shown| ensures IsUpper(ToUpper(shown[i])) {
      assert shown[i] in shown;
    }
  }

  /** The segment of another category does not disturb the search. */
  lemma SegmentFree(s: string, c: Category, d: Category, own: set<Capability>, child: set<Capability>)
    requires Free(s, CategoryText(c)) && AtPart(s) && c != d
    ensures Free(s + Segment(d, own, child), CategoryText(c)) && AtPart(s + Segment(d, own, child))
  {
    hide Free, AtPart, EndsWith, CategoryText, ParentText, ChildText;
    var p, k := ParentText(d, own), ChildText(d, child);
    if p == "" && k == "" {
      assert s + Segment(d, own, child) == s;
    } else {
      CategoryHasNoUnderscore(c);
      CategoryHasNoUnderscore(d);
      OtherCategory(c, d);
      ParentIsUpper(d, own);
      UpperPart(c, p);
      ChildPart(c, d, child);
      ShortPart(c, "");
      FourTokens(s, CategoryText(d), p, k, CategoryText(c));
      assert s + Segment(d, own, child) == s + CategoryText(d) + "_" + Token(p) + Token(k) + "_";
    }
  }

  lemma FourTokens(s: string, text: string, p: string, k: string, cat: string)
    requires Free(s, cat) && AtPart(s) && '_' !in cat
    requires '_' !in text && '_' !in p && '_' !in k
    requires !EndsWith(text, cat) && !EndsWith(p, cat) && !EndsWith(k, cat) && !EndsWith("", cat)
    ensures Free(s + text + "_" + Token(p) + Token(k) + "_", cat) && AtPart(s + text + "_" + Token(p) + Token(k) + "_")
  {
    hide Free, AtPart, EndsWith, Token;
    FreeToken(s, text, cat);
    var s1 := s + text + "_";
    TokenFree(s1, p, cat);
    TokenFree(s1 + Token(p), k, cat);
    var s2 := s1 + Token(p) + Token(k);
    FreeToken(s2, "", cat);
    assert s2 + "" + "_" == s2 + "_";
  }

  lemma ShortPart(c: Category, t: string)
    requires |t| < 3
    ensures !EndsWith(t, CategoryText(c))
  {
    CategoryHasNoUnderscore(c);
  }

  function Position(c: Category): (n: nat)
    ensures n < 7 && ORDER[n] == c
  {
    match c case Netw => 0 case Reg => 1 case File => 2 case Proc => 3 case Serv => 4 case Thread => 5 case Str => 6
  }

  lemma PrefixFree(c: Category)
    ensures Free(PREFIX, CategoryText(c)) && AtPart(PREFIX)
  {
    NothingFree(CategoryText(c));
    hide Free, AtPart, EndsWith, CategoryText;
    var cat := CategoryText(c);
    CategoryHasNoUnderscore(c);
    ShortPart(c, "");
    ShortPart(c, "f");
    ShortPart(c, "p");
    FreeToken("", "f", cat);
    assert "" + "f" + "_" == "f_";
    FreeToken("f_", "p", cat);
    assert "f_" + "p" + "_" == "f_p_";
    FreeToken("f_p_", "", cat);
    assert "f_p_" + "" + "_" == PREFIX;
  }

  lemma NothingFree(cat: string)
    ensures Free("", cat) && AtPart("")
  {
  }

  /** The parts of a name before the segment of c, or all of them when c has no segment. */
  lemma {:induction false} PurposeFree(c: Category, n: nat, own: set<Capability>, child: set<Capability>)
    requires n <= 7 && (n <= Position(c) || Segment(c, own, child) == "")
    ensures Free(PREFIX + Purpose(n, own, child), CategoryText(c)) && AtPart(PREFIX + Purpose(n, own, child))
  {
    hide Free, AtPart, Segment;
    PrefixFree(c);
    if n == 0 {
      assert PREFIX + Purpose(0, own, child) == PREFIX;
    } else {
      PurposeFree(c, n - 1, own, child);
      var s, d := PREFIX + Purpose(n - 1, own, child), ORDER[n - 1];
      if d == c {
        PositionIs(c, n - 1);
        assert s + Segment(d, own, child) == s;
      } else {
        SegmentFree(s, c, d, own, child);
      }
      assert PREFIX + Purpose(n, own, child) == s + Segment(d, own, child);
    }
  }

  lemma PositionIs(c: Category, n: nat)
    requires n < 7 && ORDER[n] == c
    ensures n == Position(c)
  {
  }

  lemma {:induction false} DigitsAreDigits(n: nat)
    ensures forall i :: 0 <= i < |Digits(n)| ==> '0' <= Digits(n)[i] <= '9'
  {
    if n >= 10 { DigitsAreDigits(n / 10); }
  }

  lemma NumberPart(c: Category, n: nat)
    ensures !EndsWith(TwoDigits(n), CategoryText(c)) && '_' !in TwoDigits(n)
  {
    DigitsAreDigits(n);
    HexPart(c, TwoDigits(n));
  }

  lemma WordPart(c: Category)
    ensures !EndsWith("xref", CategoryText(c)) && !EndsWith("FUN", CategoryText(c)) && !EndsWith("zc", CategoryText(c))
  {
    hide EndsWith, CategoryText;
    XrefPart(c);
    UpperPart(c, "FUN");
    ShortPart(c, "zc");
  }

  lemma XrefPart(c: Category)
    ensures !EndsWith("xref", CategoryText(c))
  {
    var cat := CategoryText(c);
    if EndsWith("xref", cat) { SuffixChars("xref", cat, |cat| - 1); }
  }

  /** The end of a name with a purpose: the reference count and the entry address. */
  lemma TailFree(s: string, c: Category, x: Label)
    requires IsLabel(x) && Free(s, CategoryText(c)) && AtPart(s)
    ensures Free(s + "xref_" + TwoDigits(x.xrefs) + "_" + x.entry, CategoryText(c))
  {
    hide Free, AtPart, EndsWith, TwoDigits;
    var cat := CategoryText(c);
    CategoryHasNoUnderscore(c);
    WordPart(c);
    NumberPart(c, x.xrefs);
    HexPart(c, x.entry);
    FreeToken(s, "xref", cat);
    var s1 := s + "xref" + "_";
    FreeToken(s1, TwoDigits(x.xrefs), cat);
    FreeLast(s1 + TwoDigits(x.xrefs) + "_", x.entry, cat);
    assert s + "xref_" + TwoDigits(x.xrefs) + "_" + x.entry == s1 + TwoDigits(x.xrefs) + "_" + x.entry;
  }

  /** The end of a name without a purpose. */
  lemma PlainTailFree(s: string, c: Category, x: Label)
    requires IsLabel(x) && Free(s, CategoryText(c)) && AtPart(s)
    ensures Free(s + "FUN_" + x.entry + "__xref_" + TwoDigits(x.xrefs), CategoryText(c))
  {
    hide Free, AtPart, EndsWith, TwoDigits, CategoryText;
    CategoryHasNoUnderscore(c);
    WordPart(c);
    NumberPart(c, x.xrefs);
    HexPart(c, x.entry);
    ShortPart(c, "");
    PlainTokens(s, x.entry, TwoDigits(x.xrefs), CategoryText(c));
  }

  lemma PlainTokens(s: string, entry: string, number: string, cat: string)
    requires Free(s, cat) && AtPart(s) && '_' !in cat && '_' !in entry && '_' !in number
    requires !EndsWith("FUN", cat) && !EndsWith(entry, cat) && !EndsWith("", cat) && !EndsWith("xref", cat)
    ensures Free(s + "FUN_" + entry + "__xref_" + number, cat)
  {
    hide Free, AtPart, EndsWith;
    FreeToken(s, "FUN", cat);
    var s1 := s + "FUN" + "_";
    FreeToken(s1, entry, cat);
    var s2 := s1 + entry + "_";
    FreeToken(s2, "", cat);
    var s3 := s2 + "" + "_";
    FreeToken(s3, "xref", cat);
    var s4 := s3 + "xref" + "_";
    FreeLast(s4, number, cat);
    assert s1 == s + "FUN_";
    assert s4 == s1 + entry + "__xref_";
  }

  /** The letters of a category that stand for the given capabilities. */
  ghost function ShownLetters(c: Category, caps: set<Capability>): set<char> {
    set i | 0 <= i < |Letters(c)| && Capability(c, Letters(c)[i]) in caps :: Letters(c)[i]
  }

  ghost function UpperLetters(letters: set<char>): set<char> {
    set ch | ch in letters :: ToUpper(ch)
  }

  /** The parent text shows own letters in upper case, the child text those of children in lower case. */
  lemma TextLetters(c: Category, caps: set<Capability>)
    ensures Chars(ParentText(c, caps)) == UpperLetters(ShownLetters(c, caps))
    ensures Chars(ChildText(c, caps)) == ShownLetters(c, caps)
  {
    var k := ChildText(c, caps);
    ShownMembers(Letters(c), c, caps);
    forall ch ensures ch in Chars(k) <==> ch in ShownLetters(c, caps) {
      assert ch in Chars(k) <==> ch in k;
    }
    var p := ParentText(c, caps);
    forall ch | ch in UpperLetters(Chars(k)) ensures ch in Chars(p) {
      var i :| 0 <= i < |k| && ToUpper(k[i]) == ch;
      assert p[i] == ch;
    }
  }

  lemma CaseRoundTrip(ch: char)
    requires IsLower(ch)
    ensures ToLower(ToUpper(ch)) == ch && ToLower(ch) == ch && IsUpper(ToUpper(ch)) && !IsUpper(ch)
  {
  }

  /** The purpose text around the segment of a category. */
  lemma {:induction false} PurposeSplit(c: Category, n: nat, own: set<Capability>, child: set<Capability>)
      returns (post: string)
    requires Position(c) < n <= 7
    ensures Purpose(n, own, child) == Purpose(Position(c), own, child) + Segment(c, own, child) + post
  {
    hide Segment;
    if n == Position(c) + 1 {
      post := "";
    } else {
      var rest := PurposeSplit(c, n - 1, own, child);
      post := rest + Segment(ORDER[n - 1], own, child);
    }
  }

  /** The pattern of one category captures from a built name exactly the letters of that category,
      the function's own in upper case and those of its children in lower case. */
  lemma ReadCategory(x: Label, own: set<Capability>, child: set<Capability>, c: Category)
    requires IsLabel(x)
    ensures Captured(BuildName(x, own, child), CategoryText(c)) ==
        if x.hasCalls then UpperLetters(ShownLetters(c, own)) + ShownLetters(c, child) else {}
  {
    hide Captured, Free, AtPart, Segment, TwoDigits, ShownLetters, CategoryText, EndsWith;
    if !x.hasCalls {
      NoCallsFree(x, c);
      assert BuildName(x, own, child) == PREFIX + "zc_" + "FUN_" + x.entry + "__xref_" + TwoDigits(x.xrefs);
      FreeMeansNothingRead(BuildName(x, own, child), CategoryText(c));
    } else {
      if Segment(c, own, child) == "" {
        EmptySegmentShowsNothing(c, own, child);
        PurposeFree(c, 7, own, child);
        NoSegmentFree(x, own, child, c);
        FreeMeansNothingRead(BuildName(x, own, child), CategoryText(c));
      } else {
        ReadPresentSegment(x, own, child, c);
      }
    }
  }

  lemma NoCallsFree(x: Label, c: Category)
    requires IsLabel(x)
    ensures Free(PREFIX + "zc_" + "FUN_" + x.entry + "__xref_" + TwoDigits(x.xrefs), CategoryText(c))
  {
    hide Free, AtPart, TwoDigits, CategoryText, EndsWith;
    PrefixFree(c);
    WordPart(c);
    CategoryHasNoUnderscore(c);
    FreeToken(PREFIX, "zc", CategoryText(c));
    assert PREFIX + "zc" + "_" == PREFIX + "zc_";
    PlainTailFree(PREFIX + "zc_", c, x);
  }

  lemma NoSegmentFree(x: Label, own: set<Capability>, child: set<Capability>, c: Category)
    requires IsLabel(x) && x.hasCalls
    requires Free(PREFIX + Purpose(7, own, child), CategoryText(c)) && AtPart(PREFIX + Purpose(7, own, child))
    ensures Free(BuildName(x, own, child), CategoryText(c))
  {
    hide Free, AtPart, TwoDigits, CategoryText, Purpose;
    if Purpose(7, own, child) != "" {
      TailFree(PREFIX + Purpose(7, own, child), c, x);
    } else {
      assert PREFIX + Purpose(7, own, child) == PREFIX;
      PlainTailFree(PREFIX, c, x);
    }
  }

  lemma EmptySegmentShowsNothing(c: Category, own: set<Capability>, child: set<Capability>)
    requires Segment(c, own, child) == ""
    ensures UpperLetters(ShownLetters(c, own)) == {} && ShownLetters(c, child) == {}
  {
    hide ShownLetters, CategoryText, ParentText, ChildText, UpperLetters;
    TextLetters(c, own);
    TextLetters(c, child);
    CategoryHasNoUnderscore(c);
    assert ParentText(c, own) == "" && ChildText(c, child) == "";
  }

  lemma ReadPresentSegment(x: Label, own: set<Capability>, child: set<Capability>, c: Category)
    requires IsLabel(x) && x.hasCalls && Segment(c, own, child) != ""
    ensures Captured(BuildName(x, own, child), CategoryText(c)) ==
            UpperLetters(ShownLetters(c, own)) + ShownLetters(c, child)
  {
    hide Captured, UpperLetters, Free, AtPart, TwoDigits, ShownLetters, CategoryText, EndsWith, ParentText, ChildText,
         Token, Purpose;
    var p, k, cat := ParentText(c, own), ChildText(c, child), CategoryText(c);
    var pre := PREFIX + Purpose(Position(c), own, child);
    PurposeFree(c, Position(c), own, child);
    CategoryHasNoUnderscore(c);
    ParentIsUpper(c, own);
    ChildIsLower(c, child);
    var rest := PurposeSplit(c, 7, own, child);
    var post := rest + "xref_" + TwoDigits(x.xrefs) + "_" + x.entry;
    PresentName(x, own, child, c, rest);
    ReadSegment(pre, cat, p, k, post);
    TextLetters(c, own);
    TextLetters(c, child);
  }

  lemma PresentName(x: Label, own: set<Capability>, child: set<Capability>, c: Category, rest: string)
    requires x.hasCalls && Segment(c, own, child) != ""
    requires Purpose(7, own, child) == Purpose(Position(c), own, child) + Segment(c, own, child) + rest
    ensures BuildName(x, own, child) ==
            WithSegment(PREFIX + Purpose(Position(c), own, child), CategoryText(c), ParentText(c, own),
                ChildText(c, child),
                        rest + "xref_" + TwoDigits(x.xrefs) + "_" + x.entry)
  {
    hide TwoDigits, CategoryText, ParentText, ChildText, Token, Purpose, Segment;
    SegmentText(c, own, child);
    var tail := "xref_" + TwoDigits(x.xrefs) + "_" + x.entry;
    assert |Purpose(7, own, child)| > 0;
    assert BuildName(x, own, child) == PREFIX + Purpose(7, own, child) + tail;
    Regroup(PREFIX, Purpose(Position(c), own, child), CategoryText(c), Token(ParentText(c, own)),
        Token(ChildText(c, child)), rest, tail);
    assert rest + tail == rest + "xref_" + TwoDigits(x.xrefs) + "_" + x.entry;
  }

  lemma SegmentText(c: Category, own: set<Capability>, child: set<Capability>)
    requires Segment(c, own, child) != ""
    ensures Segment(c, own, child) ==
        CategoryText(c) + "_" + Token(ParentText(c, own)) + Token(ChildText(c, child)) + "_"
  {
  }

  lemma Regroup(a: string, b: string, cat: string, p: string, k: string, rest: string, tail: string)
    ensures a + (b + (cat + "_" + p + k + "_") + rest) + tail == (a + b) + cat + "_" + p + k + "_" + (rest + tail)
  {
  }

  lemma ChildIsLower(c: Category, child: set<Capability>)
    ensures AllLetters(ChildText(c, child))
  {
    ShownMembers(Letters(c), c, child);
    LettersAreLower(c);
    var k := ChildText(c, child);
    forall i | 0 <= i < |k| ensures IsLetter(k[i]) {
      assert k[i] in k;
    }
  }

  /** The capabilities with a preview letter. */
  ghost function Previewed(caps: set<Capability>): set<Capability> {
    set x | x in caps && InNomenclature(x)
  }

  lemma {:induction false} ShownPreviewed(letters: string, c: Category, caps: set<Capability>)
    requires forall ch :: ch in letters ==> ch in Letters(c)
    ensures Shown(letters, c, Previewed(caps)) == Shown(letters, c, caps)
  {
    if |letters| > 0 {
      assert InNomenclature(Capability(c, letters[0]));
      ShownPreviewed(letters[1..], c, caps);
    }
  }

  lemma {:induction false} PurposePreviewed(n: nat, own: set<Capability>, child: set<Capability>)
    requires n <= 7
    ensures Purpose(n, own, Previewed(child)) == Purpose(n, own, child)
  {
    hide Shown, Previewed;
    if n > 0 {
      PurposePreviewed(n - 1, own, child);
      ShownPreviewed(Letters(ORDER[n - 1]), ORDER[n - 1], child);
    }
  }

  /** A name takes up only preview letters. */
  lemma OnlyPreviewedCounts(x: Label, own: set<Capability>, child: set<Capability>)
    ensures BuildName(x, own, child) == BuildName(x, own, Previewed(child))
  {
    hide Purpose, TwoDigits, Previewed;
    PurposePreviewed(7, own, child);
  }

  /** The capabilities that a name shows in upper case: those of the function itself. */
  function OwnShown(name: string): set<Capability> {
    set i, ch | 0 <= i < 7 && ch in Captured(name, CategoryText(ORDER[i])) && IsUpper(ch) ::
      Capability(ORDER[i], ToLower(ch))
  }

  /** The capabilities that a name shows in lower case: those of its children. */
  function ChildShown(name: string): set<Capability> {
    set i, ch | 0 <= i < 7 && ch in Captured(name, CategoryText(ORDER[i])) && !IsUpper(ch) :: Capability(ORDER[i], ch)
  }

  /** A built name shows in upper case exactly the function's own capabilities and in lower case
      exactly those of its children. */
  lemma ReadBuiltParts(x: Label, own: set<Capability>, child: set<Capability>)
    requires IsLabel(x)
    ensures OwnShown(BuildName(x, own, child)) == if x.hasCalls then Previewed(own) else {}
    ensures ChildShown(BuildName(x, own, child)) == if x.hasCalls then Previewed(child) else {}
  {
    hide Captured, BuildName, ShownLetters, CategoryText;
    var name := BuildName(x, own, child);
    forall y
      ensures y in OwnShown(name) <==> x.hasCalls && y in Previewed(own)
      ensures y in ChildShown(name) <==> x.hasCalls && y in Previewed(child)
    {
      ReadCategory(x, own, child, y.category);
      ShownIff(y, own);
      ShownIff(y, child);
      CapturedParts(y.category, own, child);
      assert ORDER[Position(y.category)] == y.category;
      if x.hasCalls && y in Previewed(own) { assert ToUpper(y.letter) in Captured(name, CategoryText(y.category)); }
    }
  }

  lemma CapturedParts(c: Category, own: set<Capability>, child: set<Capability>)
    ensures forall ch :: ch in UpperLetters(ShownLetters(c, own)) ==>
              IsUpper(ch) && ToLower(ch) in ShownLetters(c, own)
    ensures forall ch :: ch in ShownLetters(c, child) ==> !IsUpper(ch) && ToLower(ch) == ch
    ensures forall ch :: ch in ShownLetters(c, own) ==>
              ToUpper(ch) in UpperLetters(ShownLetters(c, own)) && ToLower(ToUpper(ch)) == ch
  {
    LettersAreLower(c);
    forall ch | ch in Letters(c) ensures IsUpper(ToUpper(ch)) && ToLower(ToUpper(ch)) == ch {
      CaseRoundTrip(ch);
    }
  }

  /** What a caller reads is what the name shows in either case. */
  lemma ReadIsBothParts(name: string)
    ensures ReadName(name) == OwnShown(name) + ChildShown(name)
  {
    hide Captured, CategoryText;
    forall i, ch | 0 <= i < 7 && ch in Captured(name, CategoryText(ORDER[i]))
      ensures ToLower(ch) in ReadLetters(name, CategoryText(ORDER[i]))
    {
    }
  }

  /** Reading a built name yields exactly the capabilities written into it. */
  lemma ReadBuiltName(x: Label, own: set<Capability>, child: set<Capability>)
    requires IsLabel(x)
    ensures ReadName(BuildName(x, own, child)) == if x.hasCalls then Previewed(own + child) else {}
  {
    hide ReadName, BuildName, OwnShown, ChildShown;
    ReadIsBothParts(BuildName(x, own, child));
    ReadBuiltParts(x, own, child);
  }

  lemma ShownIff(y: Capability, caps: set<Capability>)
    ensures y.letter in ShownLetters(y.category, caps) <==> y in caps && InNomenclature(y)
  {
    if y in caps && InNomenclature(y) {
      var i :| 0 <= i < |Letters(y.category)| && Letters(y.category)[i] == y.letter;
      assert Capability(y.category, Letters(y.category)[i]) == y;
    }
  }

  lemma BuiltNameHasPrefix(x: Label, own: set<Capability>, child: set<Capability>)
    ensures PREFIX <= BuildName(x, own, child)
  {
    hide Purpose, TwoDigits;
  }

  /** Names of thread starts show no capability. */
  lemma ThreadStartReadsNothing(entry: string)
    requires IsLabel(Label(entry, 0, false))
    ensures ReadName(PREFIX + "TS__FUN_" + entry) == {}
  {
    var name := PREFIX + "TS__FUN_" + entry;
    forall c ensures ReadLetters(name, CategoryText(c)) == {} {
      ThreadStartFree(entry, c);
      FreeMeansNothingRead(name, CategoryText(c));
    }
  }

  lemma ThreadStartFree(entry: string, c: Category)
    requires IsLabel(Label(entry, 0, false))
    ensures Free(PREFIX + "TS__FUN_" + entry, CategoryText(c))
  {
    hide Free, AtPart, CategoryText, EndsWith;
    var cat := CategoryText(c);
    PrefixFree(c);
    CategoryHasNoUnderscore(c);
    ShortPart(c, "TS");
    ShortPart(c, "");
    WordPart(c);
    HexPart(c, entry);
    FreeToken(PREFIX, "TS", cat);
    var s1 := PREFIX + "TS" + "_";
    FreeToken(s1, "", cat);
    var s2 := s1 + "" + "_";
    FreeToken(s2, "FUN", cat);
    FreeLast(s2 + "FUN" + "_", entry, cat);
    assert s2 + "FUN" + "_" + entry == PREFIX + "TS__FUN_" + entry;
  }

  // ----- names tell functions apart

  lemma {:induction false} PurposeStart(n: nat, own: set<Capability>, child: set<Capability>)
    requires n <= 7 && Purpose(n, own, child) != ""
    ensures Purpose(n, own, child)[0] in "nrfpst"
  {
    hide Segment;
    if Purpose(n - 1, own, child) != "" {
      PurposeStart(n - 1, own, child);
    } else {
      var c := ORDER[n - 1];
      SegmentText(c, own, child);
      CategoryStart(c);
      assert Purpose(n, own, child) == Segment(c, own, child);
    }
  }

  lemma CategoryStart(c: Category)
    ensures |CategoryText(c)| > 0 && CategoryText(c)[0] in "nrfpst"
  {
  }

  /** The character after the prefix tells which of the three forms a name has. */
  lemma NameForm(x: Label, own: set<Capability>, child: set<Capability>)
    ensures var name := BuildName(x, own, child);
            && |name| > 5 && (name[5] == 'z' <==> !x.hasCalls)
            && (name[5] == 'F' <==> x.hasCalls && Purpose(7, own, child) == "")
  {
    hide Purpose, TwoDigits;
    if Purpose(7, own, child) != "" { PurposeStart(7, own, child); }
  }

  /** Two names are equal only for functions with the same address, as many references, and the same
      capabilities, own and of children, provided that addresses are printed at one width. */
  lemma NamesTellApart(x: Label, own: set<Capability>, child: set<Capability>,
                       y: Label, own': set<Capability>, child': set<Capability>)
    requires IsLabel(x) && IsLabel(y) && |x.entry| == |y.entry|
    requires BuildName(x, own, child) == BuildName(y, own', child')
    ensures x == y
    ensures x.hasCalls ==> Previewed(own) == Previewed(own') && Previewed(child) == Previewed(child')
  {
    hide Purpose, TwoDigits, BuildName, Previewed;
    NameForm(x, own, child);
    NameForm(y, own', child');
    ReadBuiltParts(x, own, child);
    ReadBuiltParts(y, own', child');
    if !x.hasCalls {
      PlainForm(x, own, child, PREFIX + "zc_FUN_");
      PlainForm(y, own', child', PREFIX + "zc_FUN_");
      SamePlainTail(PREFIX + "zc_FUN_", x.entry, y.entry, x.xrefs, y.xrefs);
    } else if Purpose(7, own, child) == "" {
      PlainForm(x, own, child, PREFIX + "FUN_");
      PlainForm(y, own', child', PREFIX + "FUN_");
      SamePlainTail(PREFIX + "FUN_", x.entry, y.entry, x.xrefs, y.xrefs);
    } else {
      PurposeForm(x, own, child);
      PurposeForm(y, own', child');
      SameTail(PREFIX + Purpose(7, own, child), PREFIX + Purpose(7, own', child'), x.entry, y.entry, x.xrefs, y.xrefs);
    }
  }

  lemma PlainForm(x: Label, own: set<Capability>, child: set<Capability>, start: string)
    requires if x.hasCalls then Purpose(7, own, child) == "" && start == PREFIX + "FUN_"
             else start == PREFIX + "zc_FUN_"
    ensures BuildName(x, own, child) == start + x.entry + "__xref_" + TwoDigits(x.xrefs)
  {
    hide Purpose, TwoDigits;
  }

  lemma PurposeForm(x: Label, own: set<Capability>, child: set<Capability>)
    requires x.hasCalls && Purpose(7, own, child) != ""
    ensures BuildName(x, own, child) ==
            PREFIX + Purpose(7, own, child) + "xref_" + TwoDigits(x.xrefs) + "_" + x.entry
  {
    hide Purpose, TwoDigits;
  }

  lemma SamePlainTail(start: string, e: string, e': string, n: nat, n': nat)
    requires |e| == |e'|
    requires start + e + "__xref_" + TwoDigits(n) == start + e' + "__xref_" + TwoDigits(n')
    ensures e == e' && n == n'
  {
    hide TwoDigits;
    var s, t := start + e + "__xref_" + TwoDigits(n), start + e' + "__xref_" + TwoDigits(n');
    var i, j := |start| + |e|, |start| + |e| + 7;
    assert s[|start|..i] == e && t[|start|..i] == e';
    assert s[j..] == TwoDigits(n) && t[j..] == TwoDigits(n');
    NumberText(n);
    NumberText(n');
  }

  lemma SameTail(a: string, b: string, e: string, e': string, n: nat, n': nat)
    requires |e| == |e'| && a + "xref_" + TwoDigits(n) + "_" + e == b + "xref_" + TwoDigits(n') + "_" + e'
    ensures e == e' && n == n'
  {
    hide TwoDigits;
    NumberText(n);
    NumberText(n');
    var a1, b1 := a + "xref", b + "xref";
    var s, t := a1 + "_" + TwoDigits(n) + "_" + e, b1 + "_" + TwoDigits(n') + "_" + e';
    assert s == a + "xref_" + TwoDigits(n) + "_" + e && t == b + "xref_" + TwoDigits(n') + "_" + e';
    var k := |s| - |e|;
    assert s[k..] == e && t[k..] == e';
    assert s[..k - 1] == a1 + "_" + TwoDigits(n) && t[..k - 1] == b1 + "_" + TwoDigits(n');
    LastPart(a1, b1, TwoDigits(n), TwoDigits(n'));
  }

  /** The text after the last underscore is determined. */
  lemma LastPart(a: string, b: string, d: string, d': string)
    requires '_' !in d && '_' !in d' && a + "_" + d == b + "_" + d'
    ensures d == d'
  {
    var s := a + "_" + d;
    assert s[|a|] == '_' && s[|b|] == '_';
    assert |a| == |b| by {
      assert forall i :: |a| < i < |s| ==> s[i] == d[i - |a| - 1];
      assert forall i :: |b| < i < |s| ==> s[i] == d'[i - |b| - 1];
    }
    assert d == s[|a| + 1..] && d' == s[|b| + 1..];
  }

  /** The number that a text of decimal digits stands for. */
  ghost function NumberValue(s: string): int {
    if |s| == 0 then 0 else 10 * NumberValue(s[..|s| - 1]) + (s[|s| - 1] as int - '0' as int)
  }

  lemma {:induction false} DigitsValue(n: nat)
    ensures NumberValue(Digits(n)) == n && |Digits(n)| > 0
    decreases n
  {
    var s := Digits(n);
    if n < 10 {
      assert NumberValue(s[..0]) == 0;
    } else {
      assert s == Digits(n / 10) + ["0123456789"[n % 10]];
      DigitsValue(n / 10);
      assert s[..|s| - 1] == Digits(n / 10);
    }
  }

  lemma {:induction false} LeadingZero(s: string)
    ensures NumberValue("0" + s) == NumberValue(s)
  {
    var t := "0" + s;
    if |s| == 0 {
      assert t == "0" && NumberValue(t[..0]) == 0;
    } else {
      LeadingZero(s[..|s| - 1]);
      assert t[..|t| - 1] == "0" + s[..|s| - 1];
    }
  }

  /** The reference count is a decimal number of at least two digits. */
  lemma NumberText(n: nat)
    ensures NumberValue(TwoDigits(n)) == n && |TwoDigits(n)| >= 2 && '_' !in TwoDigits(n)
    ensures |TwoDigits(n)| > 2 ==> n >= 100
  {
    hide NumberValue;
    DigitsAreDigits(n);
    DigitsValue(n);
    LeadingZero(Digits(n));
  }

  // ----- a name in full

  lemma {:induction false} ShownAll(letters: string, c: Category, caps: set<Capability>)
    requires forall ch :: ch in letters ==> Capability(c, ch) in caps
    ensures Shown(letters, c, caps) == letters
  {
    if |letters| > 0 {
      ShownAll(letters[1..], c, caps);
      assert letters == [letters[0]] + letters[1..];
    }
  }

  lemma {:induction false} ShownNothing(letters: string, c: Category, caps: set<Capability>)
    requires forall ch :: ch in letters ==> Capability(c, ch) !in caps
    ensures Shown(letters, c, caps) == ""
  {
    if |letters| > 0 { ShownNothing(letters[1..], c, caps); }
  }

  /** The function has every capability that has a preview letter. */
  ghost predicate HasAll(own: set<Capability>) {
    forall x :: InNomenclature(x) ==> x in own
  }

  /** A part of a name with own capabilities only, such as "netw_BCLSRTM__". */
  function Part(text: string, letters: string): string {
    text + "_" + (letters + "_") + "" + "_"
  }

  function FullText(c: Category): string {
    match c
    case Netw => Part("netw", "BCLSRTM")
    case Reg => Part("reg", "HRWD")
    case File => Part("file", "HRWDCME")
    case Proc => Part("proc", "HECTRW")
    case Serv => Part("serv", "HCDSRW")
    case Thread => Part("thread", "COSR")
    case Str => Part("str", "C")
  }

  lemma FullTextIs(c: Category)
    ensures Part(CategoryText(c), UpperText(Letters(c))) == FullText(c) && Letters(c) != ""
  {
    hide Part, UpperText;
    UpperCaseIs(c);
  }

  lemma UpperCaseIs(c: Category)
    ensures UpperText(Letters(c)) == match c
      case Netw => "BCLSRTM"
      case Reg => "HRWD"
      case File => "HRWDCME"
      case Proc => "HECTRW"
      case Serv => "HCDSRW"
      case Thread => "COSR"
      case Str => "C"
  {
  }

  lemma FullParts(c: Category, own: set<Capability>)
    requires HasAll(own)
    ensures ParentText(c, own) == UpperText(Letters(c)) && ChildText(c, {}) == ""
  {
    hide UpperText, Letters;
    forall ch | ch in Letters(c) ensures Capability(c, ch) in own {
      assert InNomenclature(Capability(c, ch));
    }
    ShownAll(Letters(c), c, own);
    ShownNothing(Letters(c), c, {});
  }

  lemma FullSegment(c: Category, own: set<Capability>)
    requires HasAll(own)
    ensures Segment(c, own, {}) == FullText(c)
  {
    hide ParentText, ChildText, HasAll, FullText, Letters, CategoryText;
    FullParts(c, own);
    FullTextIs(c);
    assert |UpperText(Letters(c))| == |Letters(c)|;
    hide UpperText;
  }

  /** The name of a function that does everything itself. */
  lemma FullName(own: set<Capability>)
    requires HasAll(own)
    ensures BuildName(Label("00101000", 12, true), own, {}) ==
            "f_p__" + ("" + Part("netw", "BCLSRTM") + Part("reg", "HRWD") + Part("file", "HRWDCME")
                       + Part("proc", "HECTRW") + Part("serv", "HCDSRW") + Part("thread", "COSR") + Part("str", "C"))
            + "xref_" + "12" + "_" + "00101000"
  {
    hide Segment, HasAll;
    FullSegment(Netw, own);
    FullSegment(Reg, own);
    FullSegment(File, own);
    FullSegment(Proc, own);
    FullSegment(Serv, own);
    FullSegment(Thread, own);
    FullSegment(Str, own);
    PurposeUnfolds(own, {});
    hide Purpose;
    assert TwoDigits(12) == "12";
    hide TwoDigits;
    assert |FullText(Str)| > 0;
  }

  lemma PurposeUnfolds(own: set<Capability>, child: set<Capability>)
    ensures Purpose(7, own, child) ==
            "" + Segment(Netw, own, child) + Segment(Reg, own, child) + Segment(File, own, child)
            + Segment(Proc, own, child) + Segment(Serv, own, child) + Segment(Thread, own, child)
            + Segment(Str, own, child)
  {
    hide Segment;
    assert Purpose(1, own, child) == Purpose(0, own, child) + Segment(Netw, own, child);
    assert Purpose(2, own, child) == Purpose(1, own, child) + Segment(Reg, own, child);
    assert Purpose(3, own, child) == Purpose(2, own, child) + Segment(File, own, child);
    assert Purpose(4, own, child) == Purpose(3, own, child) + Segment(Proc, own, child);
    assert Purpose(5, own, child) == Purpose(4, own, child) + Segment(Serv, own, child);
    assert Purpose(6, own, child) == Purpose(5, own, child) + Segment(Thread, own, child);
  }
}
