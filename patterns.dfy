/**
 * The regular expressions of the outline-title classifier in scripts/merger.py,
 * written out as character-level recognisers. Each recogniser returns where
 * Python's `re.match` would end (the greedy, first-found match), and each is
 * tied by lemmas to a declarative description of the strings the pattern
 * accepts.
 */
module Patterns {
  import opened Options
  import opened Text

  /** `[-:\s]`, the separator after "Chapter"/"CH". */
  predicate IsChapterSep(c: char) {
    c == '-' || c == ':' || IsSpace(c)
  }

  /** `[:\.\s-]`, what may trail the chapter number. */
  predicate IsNumberTrail(c: char) {
    c == ':' || c == '.' || IsSpace(c) || c == '-'
  }

  /** `s` begins with the lower-case `word`, compared under `re.IGNORECASE`. */
  predicate StartsWithCI(s: string, word: string) {
    |word| <= |s| && forall i :: 0 <= i < |word| ==> LowerChar(s[i]) == word[i]
  }

  ghost predicate AllIn(s: string, p: char -> bool) {
    forall i :: 0 <= i < |s| ==> p(s[i])
  }

  /** A property of every character of a slice of a prefix is a property of those positions of the whole. */
  lemma AllInSlice(s: string, m: nat, lo: nat, hi: nat, p: char -> bool)
    requires lo <= hi <= m <= |s|
    requires AllIn(s[..m][lo..hi], p)
    ensures forall i :: lo <= i < hi ==> p(s[i])
  {
    forall i | lo <= i < hi ensures p(s[i]) {
      assert s[..m][lo..hi][i - lo] == s[i];
    }
  }

  /** ... and back: positions of the whole with a property make a slice of a prefix with it. */
  lemma SliceAllIn(s: string, m: nat, lo: nat, hi: nat, p: char -> bool)
    requires lo <= hi <= m <= |s|
    requires forall i :: lo <= i < hi ==> p(s[i])
    ensures AllIn(s[..m][lo..hi], p)
  {
    forall i | 0 <= i < hi - lo ensures p(s[..m][lo..hi][i]) {
      assert s[..m][lo..hi][i] == s[lo + i];
    }
  }

  // ---------------------------------------------------------------------------
  // ^(Chapter|CH)[-:\s]+\d+[:\.\s-]*   (re.IGNORECASE)

  /** The end of `[-:\s]+\d+[:\.\s-]*` matched from position `k`, if it matches there. */
  function NumberedPrefixEnd(s: string, k: nat): (r: Option<nat>)
    requires k <= |s|
  {
    var a := RunEnd(s, k, IsChapterSep);
    if a == k then None
    else
      var b := RunEnd(s, a, IsDigit);
      if b == a then None else Some(RunEnd(s, b, IsNumberTrail))
  }

  /**
   * Where `re.match(r'^(Chapter|CH)[-:\s]+\d+[:\.\s-]*', s, re.IGNORECASE)` ends,
   * trying the "Chapter" alternative first.
   */
  function ChapterPrefixEnd(s: string): (r: Option<nat>)
    ensures r.Some? ==> 2 < r.value <= |s|
    ensures r.Some? ==> r.value == |s| || !IsNumberTrail(s[r.value])
  {
    if StartsWithCI(s, "chapter") && NumberedPrefixEnd(s, 7).Some? then NumberedPrefixEnd(s, 7)
    else if StartsWithCI(s, "ch") then NumberedPrefixEnd(s, 2)
    else None
  }

  /**
   * The strings the chapter pattern accepts, with the positions that split one:
   * the keyword ends at `k`, the separators at `a`, the number at `b`, and the
   * rest is the trailing run.
   */
  ghost predicate ChapterPrefixSplit(p: string, k: nat, a: nat, b: nat) {
    && ((k == 7 && StartsWithCI(p, "chapter")) || (k == 2 && StartsWithCI(p, "ch")))
    && k < a < b <= |p|
    && AllIn(p[k..a], IsChapterSep) && AllIn(p[a..b], IsDigit) && AllIn(p[b..], IsNumberTrail)
  }

  ghost predicate IsChapterPrefix(p: string) {
    exists k, a, b :: ChapterPrefixSplit(p, k, a, b)
  }

  /** A case-insensitive start survives cutting the string after it. */
  lemma StartsWithCIPrefix(s: string, n: nat, word: string)
    requires |word| <= n <= |s| && StartsWithCI(s, word)
    ensures StartsWithCI(s[..n], word)
  {
    forall i | 0 <= i < |word| ensures LowerChar(s[..n][i]) == word[i] {
      assert s[..n][i] == s[i];
    }
  }

  /** The three runs that `NumberedPrefixEnd` reads, within the prefix it matches. */
  lemma NumberedPrefixParts(s: string, k: nat)
    requires k <= |s| && NumberedPrefixEnd(s, k).Some?
    ensures var n := NumberedPrefixEnd(s, k).value;
      var a := RunEnd(s, k, IsChapterSep);
      var b := RunEnd(s, a, IsDigit);
      && k < a < b <= n <= |s|
      && AllIn(s[..n][k..a], IsChapterSep) && AllIn(s[..n][a..b], IsDigit) && AllIn(s[..n][b..], IsNumberTrail)
  {
    var n := NumberedPrefixEnd(s, k).value;
    var a := RunEnd(s, k, IsChapterSep);
    var b := RunEnd(s, a, IsDigit);
    assert n == RunEnd(s, b, IsNumberTrail);
    assert k < a < b <= n <= |s|;
    SliceAllIn(s, n, k, a, IsChapterSep);
    SliceAllIn(s, n, a, b, IsDigit);
    SliceAllIn(s, n, b, n, IsNumberTrail);
    assert s[..n][b..] == s[..n][b..n];
  }

  /** What the recogniser matches is a chapter prefix. */
  lemma ChapterPrefixSound(s: string)
    requires ChapterPrefixEnd(s).Some?
    ensures IsChapterPrefix(s[..ChapterPrefixEnd(s).value])
  {
    var n := ChapterPrefixEnd(s).value;
    var k: nat := if StartsWithCI(s, "chapter") && NumberedPrefixEnd(s, 7).Some? then 7 else 2;
    var word := if k == 7 then "chapter" else "ch";
    assert StartsWithCI(s, word) && NumberedPrefixEnd(s, k) == Some(n);
    NumberedPrefixParts(s, k);
    StartsWithCIPrefix(s, n, word);
    var a := RunEnd(s, k, IsChapterSep);
    var b := RunEnd(s, a, IsDigit);
    assert ChapterPrefixSplit(s[..n], k, a, b);
  }

  /**
   * Every chapter prefix of `s` is matched, and the match is at least as long:
   * the recogniser finds the longest prefix the pattern accepts, which is what
   * `re.sub` then removes.
   */
  lemma ChapterPrefixLongest(s: string, m: nat)
    requires m <= |s| && IsChapterPrefix(s[..m])
    ensures ChapterPrefixEnd(s).Some? && m <= ChapterPrefixEnd(s).value
  {
    var p := s[..m];
    var k: nat, a: nat, b: nat :| ChapterPrefixSplit(p, k, a, b);
    AllInSlice(s, m, k, a, IsChapterSep);
    AllInSlice(s, m, a, b, IsDigit);
    assert p[b..] == p[b..m];
    AllInSlice(s, m, b, m, IsNumberTrail);
    NumberedPrefixLongest(s, k, a, b, m);
    if k == 2 {
      assert StartsWithCI(s, "ch") by {
        assert forall i :: 0 <= i < 2 ==> s[i] == p[i];
      }
      ShortKeywordOnly(s);
    } else {
      assert StartsWithCI(s, "chapter") by {
        assert forall i :: 0 <= i < 7 ==> s[i] == p[i];
      }
    }
  }

  /** After "CH", a separator rules out the longer keyword "Chapter". */
  lemma ShortKeywordOnly(s: string)
    requires |s| > 2 && IsChapterSep(s[2])
    ensures !StartsWithCI(s, "chapter")
  {
    assert "chapter"[2] == 'a';
  }

  /** Runs of separators, digits and trailing characters from `k` to `m` are all matched, and maybe more. */
  lemma NumberedPrefixLongest(s: string, k: nat, a: nat, b: nat, m: nat)
    requires k < a < b <= m <= |s|
    requires forall i :: k <= i < a ==> IsChapterSep(s[i])
    requires forall i :: a <= i < b ==> IsDigit(s[i])
    requires forall i :: b <= i < m ==> IsNumberTrail(s[i])
    ensures NumberedPrefixEnd(s, k).Some? && m <= NumberedPrefixEnd(s, k).value
  {
    RunEndExact(s, k, a, IsChapterSep);
    var b' := RunEnd(s, a, IsDigit);
    RunEndCovers(s, a, b, IsDigit);
    if b' < m {
      RunEndCovers(s, b', m, IsNumberTrail);
    }
  }

  // ---------------------------------------------------------------------------
  // ^\d+\.?\s+   and the substitution  ^\d+\.?\s*

  predicate SpaceAt(s: string, i: nat) {
    i < |s| && IsSpace(s[i])
  }

  /** `re.match(r'^\d+\.?\s+', s)`: a number, an optional dot, then whitespace. */
  predicate BareNumberMatch(s: string) {
    var a := RunEnd(s, 0, IsDigit);
    a > 0 && (SpaceAt(s, a) || (a < |s| && s[a] == '.' && SpaceAt(s, a + 1)))
  }

  /** Where `^\d+\.?\s*` ends: what `re.sub` removes from a title that `BareNumberMatch` accepts. */
  function BareNumberSubEnd(s: string): (e: nat)
    ensures e <= |s|
  {
    var a := RunEnd(s, 0, IsDigit);
    var d := if a < |s| && s[a] == '.' then a + 1 else a;
    RunEnd(s, d, IsSpace)
  }

  /** `s.split()[0]`: the first whitespace-separated word (empty when there is none). */
  function FirstWord(s: string): (w: string)
  {
    var i := RunEnd(s, 0, IsSpace);
    s[i..RunEnd(s, i, c => !IsSpace(c))]
  }

  /** `s.rstrip('.')`. */
  function RStripDots(s: string): (r: string)
    ensures |r| <= |s| && r == s[..|r|]
    ensures r == [] || r[|r| - 1] != '.'
    ensures forall k :: |r| <= k < |s| ==> s[k] == '.'
  {
    if s != [] && s[|s| - 1] == '.' then RStripDots(s[..|s| - 1]) else s
  }

  /**
   * The guard `'.' not in title.split()[0].rstrip('.')` that follows the bare
   * number test can never fail: a title the test accepts begins with a word of
   * digits and at most one final dot.
   */
  lemma BareNumberGuardHolds(s: string)
    requires BareNumberMatch(s)
    ensures '.' !in RStripDots(FirstWord(s))
  {
    var a := RunEnd(s, 0, IsDigit);
    RunEndExact(s, 0, 0, IsSpace);
    var e := RunEnd(s, 0, c => !IsSpace(c));
    var w := FirstWord(s);
    assert w == s[..e];
    RunEndCovers(s, 0, a, c => !IsSpace(c));
    if SpaceAt(s, a) {
      assert e == a;
    } else {
      RunEndCovers(s, 0, a + 1, c => !IsSpace(c));
      assert e == a + 1;
    }
    var r := RStripDots(w);
    assert |r| >= a;
    assert |r| == a;
    assert forall i :: 0 <= i < |r| ==> r[i] == s[i];
  }

  // ---------------------------------------------------------------------------
  // ^\d+\.\d+(\.\d+)?\.?(\s|$)   and the substitution  ^\d+\.\d+(\.\d+)?\.?\s*

  /** `(\s|$)` at position `i`: whitespace or the end of the (stripped) title. */
  predicate BoundaryAt(s: string, i: nat) {
    i == |s| || SpaceAt(s, i)
  }

  /**
   * Where the section number that `re.match(r'^\d+\.\d+(\.\d+)?\.?(\s|$)', s)`
   * accepts ends (before the boundary), following the order in which the
   * backtracking matcher tries the optional group and the optional dot.
   */
  function SectionNumberEnd(s: string): (r: Option<nat>)
    ensures r.Some? ==> 3 <= r.value <= |s| && BoundaryAt(s, r.value)
  {
    var a := RunEnd(s, 0, IsDigit);
    if a == 0 || a == |s| || s[a] != '.' then None
    else
      var b := RunEnd(s, a + 1, IsDigit);
      if b == a + 1 then None else SectionTailEnd(s, b)
  }

  /** `(\.\d+)?\.?(\s|$)` from position `b`, the end of "X.Y". */
  function SectionTailEnd(s: string, b: nat): (r: Option<nat>)
    requires b <= |s|
    ensures r.Some? ==> b <= r.value <= |s| && BoundaryAt(s, r.value)
  {
    if b + 1 < |s| && s[b] == '.' && IsDigit(s[b + 1]) then
      var c := RunEnd(s, b + 1, IsDigit);
      if c < |s| && s[c] == '.' && BoundaryAt(s, c + 1) then Some(c + 1)
      else if BoundaryAt(s, c) then Some(c)
      else None
    else if b < |s| && s[b] == '.' then
      if BoundaryAt(s, b + 1) then Some(b + 1) else None
    else if BoundaryAt(s, b) then Some(b)
    else None
  }

  /**
   * The section numbers "X.Y", "X.Y.", "X.Y.Z" and "X.Y.Z.": `a` is the end of
   * X, `b` the end of Y, `c` the end of the optional ".Z" (`c == b` when absent),
   * and at most one dot follows.
   */
  ghost predicate SectionNumberSplit(p: string, a: nat, b: nat, c: nat) {
    && 0 < a && a + 1 < b <= c <= |p| <= c + 1
    && AllIn(p[..a], IsDigit) && p[a] == '.' && AllIn(p[a + 1..b], IsDigit)
    && (c == b || (b + 1 < c && p[b] == '.' && AllIn(p[b + 1..c], IsDigit)))
    && (|p| == c + 1 ==> p[c] == '.')
  }

  ghost predicate IsSectionNumber(p: string) {
    exists a, b, c :: SectionNumberSplit(p, a, b, c)
  }

  /** The section test accepts `s` exactly when `s` starts with a section number followed by whitespace or the end. */
  lemma SectionMatchIff(s: string)
    ensures SectionNumberEnd(s).Some? <==> exists n: nat :: n <= |s| && IsSectionNumber(s[..n]) && BoundaryAt(s, n)
  {
    if SectionNumberEnd(s).Some? {
      SectionNumberSound(s);
    }
    if n: nat :| n <= |s| && IsSectionNumber(s[..n]) && BoundaryAt(s, n) {
      SectionNumberComplete(s, n);
    }
  }

  lemma SectionNumberSound(s: string)
    requires SectionNumberEnd(s).Some?
    ensures IsSectionNumber(s[..SectionNumberEnd(s).value])
  {
    var n := SectionNumberEnd(s).value;
    var a := RunEnd(s, 0, IsDigit);
    var b := RunEnd(s, a + 1, IsDigit);
    var p := s[..n];
    var c := if b + 1 < |s| && s[b] == '.' && IsDigit(s[b + 1]) then RunEnd(s, b + 1, IsDigit) else b;
    assert a < b <= c <= n;
    SliceAllIn(s, n, 0, a, IsDigit);
    assert p[..a] == p[0..a];
    SliceAllIn(s, n, a + 1, b, IsDigit);
    if c != b {
      SliceAllIn(s, n, b + 1, c, IsDigit);
    }
    assert SectionNumberSplit(p, a, b, c);
  }

  /** A section number followed by whitespace or the end is found, and found whole. */
  lemma SectionNumberComplete(s: string, n: nat)
    requires n <= |s| && IsSectionNumber(s[..n]) && BoundaryAt(s, n)
    ensures SectionNumberEnd(s) == Some(n)
  {
    var p := s[..n];
    var a: nat, b: nat, c: nat :| SectionNumberSplit(p, a, b, c);
    assert p[..a] == p[0..a];
    AllInSlice(s, n, 0, a, IsDigit);
    AllInSlice(s, n, a + 1, b, IsDigit);
    assert s[a] == p[a] == '.';
    RunEndExact(s, 0, a, IsDigit);
    RunEndExact(s, a + 1, b, IsDigit);
    if c != b {
      assert s[b] == p[b] == '.';
      AllInSlice(s, n, b + 1, c, IsDigit);
    }
    assert n == c + 1 ==> s[c] == p[c];
    SectionTailComplete(s, b, c, n);
  }

  lemma SectionTailComplete(s: string, b: nat, c: nat, n: nat)
    requires b <= c <= n <= |s| && n <= c + 1 && BoundaryAt(s, n)
    requires c == b || (b + 1 < c && s[b] == '.' && forall i :: b + 1 <= i < c ==> IsDigit(s[i]))
    requires n == c + 1 ==> s[c] == '.'
    requires b < |s| ==> !IsDigit(s[b])
    ensures SectionTailEnd(s, b) == Some(n)
  {
    if c != b {
      RunEndExact(s, b + 1, c, IsDigit);
    }
  }

  /** Where `^\d+\.\d+(\.\d+)?\.?\s*` ends, if it matches; the greedy choice never needs to backtrack. */
  function SectionSubEnd(s: string): (r: Option<nat>)
    ensures r.Some? ==> r.value <= |s|
  {
    var a := RunEnd(s, 0, IsDigit);
    if a == 0 || a == |s| || s[a] != '.' then None
    else
      var b := RunEnd(s, a + 1, IsDigit);
      if b == a + 1 then None
      else
        var c := if b + 1 < |s| && s[b] == '.' && IsDigit(s[b + 1]) then RunEnd(s, b + 1, IsDigit) else b;
        var d := if c < |s| && s[c] == '.' then c + 1 else c;
        Some(RunEnd(s, d, IsSpace))
  }

  /** On a title the section test accepts, the substitution removes the section number and the whitespace after it. */
  lemma SectionSubAfterNumber(s: string)
    requires SectionNumberEnd(s).Some?
    ensures SectionSubEnd(s) == Some(RunEnd(s, SectionNumberEnd(s).value, IsSpace))
  {
  }

  // ---------------------------------------------------------------------------
  // title.split(' ')[0].rstrip('.').count('.')

  /** `s.split(' ')[0]`: everything before the first ASCII space. */
  function FirstSpaceField(s: string): (f: string)
    ensures |f| <= |s| && f == s[..|f|]
    ensures ' ' !in f
    ensures |f| < |s| ==> s[|f|] == ' '
  {
    if s == [] || s[0] == ' ' then [] else [s[0]] + FirstSpaceField(s[1..])
  }

  /** `s.count(c)`. */
  function CountChar(s: string, c: char): (n: nat)
    ensures n <= |s|
  {
    if s == [] then 0 else (if s[0] == c then 1 else 0) + CountChar(s[1..], c)
  }

  lemma CountCharAppend(s: string, t: string, c: char)
    ensures CountChar(s + t, c) == CountChar(s, c) + CountChar(t, c)
  {
    if s != [] {
      assert (s + t)[0] == s[0];
      assert (s + t)[1..] == s[1..] + t;
      CountCharAppend(s[1..], t, c);
    } else {
      assert s + t == t;
    }
  }
}
