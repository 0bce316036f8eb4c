/**
 * The parts of Python's `str` that the merger script relies on: whitespace and
 * line-break classes, `strip`, `lower`, `replace`, `split`, `splitlines`,
 * `join`, the `in` substring test and `str(n)` for a natural number.
 * Letters are mapped between cases in the ASCII range only.
 */
module Text {

  /** `str.isspace()`; the same class is `\s` in a `re` pattern and the separator of `strip()` and `split()`. */
  predicate IsSpace(c: char) {
    || c == ' ' || '\t' <= c <= '\r' || '\U{1c}' <= c <= '\U{1f}'
    || c == '\U{85}' || c == '\U{a0}' || c == '\U{1680}'
    || '\U{2000}' <= c <= '\U{200a}' || c == '\U{2028}' || c == '\U{2029}'
    || c == '\U{202f}' || c == '\U{205f}' || c == '\U{3000}'
  }

  /** `\d`, restricted to the ASCII digits. */
  predicate IsDigit(c: char) {
    '0' <= c <= '9'
  }

  /** The characters at which `str.splitlines()` ends a line. */
  predicate IsLineBreak(c: char) {
    || c == '\n' || c == '\r' || c == '\U{0b}' || c == '\U{0c}'
    || '\U{1c}' <= c <= '\U{1e}' || c == '\U{85}' || c == '\U{2028}' || c == '\U{2029}'
  }

  function LowerChar(c: char): char {
    if 'A' <= c <= 'Z' then (c as int + 32) as char else c
  }

  function UpperChar(c: char): char {
    if 'a' <= c <= 'z' then (c as int - 32) as char else c
  }

  /** `str.lower()`. */
  function Lower(s: string): (r: string)
    ensures |r| == |s|
    ensures forall i :: 0 <= i < |s| ==> r[i] == LowerChar(s[i])
  {
    seq(|s|, i requires 0 <= i < |s| => LowerChar(s[i]))
  }

  /** `str.replace(a, b)` for single characters. */
  function ReplaceChar(s: string, a: char, b: char): (r: string)
    ensures |r| == |s|
    ensures forall i :: 0 <= i < |s| ==> r[i] == if s[i] == a then b else s[i]
  {
    seq(|s|, i requires 0 <= i < |s| => if s[i] == a then b else s[i])
  }

  /**
   * The end of the longest run of characters satisfying `p` that starts at `i`:
   * every character in s[i..j] satisfies `p`, and the one at `j`, if any, does not.
   */
  function RunEnd(s: string, i: nat, p: char -> bool): (j: nat)
    requires i <= |s|
    ensures i <= j <= |s|
    ensures forall k :: i <= k < j ==> p(s[k])
    ensures j < |s| ==> !p(s[j])
    decreases |s| - i
  {
    if i < |s| && p(s[i]) then RunEnd(s, i + 1, p) else i
  }

  /** A run ending where `p` first fails covers every prefix of the input that satisfies `p` throughout. */
  lemma RunEndCovers(s: string, i: nat, j: nat, p: char -> bool)
    requires i <= j <= |s|
    requires forall k :: i <= k < j ==> p(s[k])
    ensures j <= RunEnd(s, i, p)
  {
    var e := RunEnd(s, i, p);
  }

  /** The run is exactly s[i..j] when `p` holds throughout and fails at `j` (or `j` is the end). */
  lemma RunEndExact(s: string, i: nat, j: nat, p: char -> bool)
    requires i <= j <= |s|
    requires forall k :: i <= k < j ==> p(s[k])
    requires j < |s| ==> !p(s[j])
    ensures RunEnd(s, i, p) == j
  {
    RunEndCovers(s, i, j, p);
  }

  function TrimStart(s: string): (r: string)
    ensures |r| <= |s| && r == s[|s| - |r|..]
    ensures r == [] || !IsSpace(r[0])
    ensures forall k :: 0 <= k < |s| - |r| ==> IsSpace(s[k])
  {
    if s != [] && IsSpace(s[0]) then TrimStart(s[1..]) else s
  }

  function TrimEnd(s: string): (r: string)
    ensures |r| <= |s| && r == s[..|r|]
    ensures r == [] || !IsSpace(r[|r| - 1])
    ensures forall k :: |r| <= k < |s| ==> IsSpace(s[k])
  {
    if s != [] && IsSpace(s[|s| - 1]) then TrimEnd(s[..|s| - 1]) else s
  }

  /** The number of whitespace characters that `str.strip()` removes from the front. */
  function LeadingSpaces(s: string): (n: nat)
    ensures n <= |s|
  {
    |s| - |TrimStart(s)|
  }

  /** `str.strip()`: the input without its leading and trailing whitespace. */
  function Strip(s: string): (r: string)
    ensures r == [] || (!IsSpace(r[0]) && !IsSpace(r[|r| - 1]))
    ensures LeadingSpaces(s) + |r| <= |s| && r == s[LeadingSpaces(s)..LeadingSpaces(s) + |r|]
    ensures forall k :: 0 <= k < LeadingSpaces(s) ==> IsSpace(s[k])
    ensures forall k :: LeadingSpaces(s) + |r| <= k < |s| ==> IsSpace(s[k])
  {
    TrimEnd(TrimStart(s))
  }

  predicate AllSpace(s: string) {
    forall i :: 0 <= i < |s| ==> IsSpace(s[i])
  }

  /** Stripping leaves nothing exactly when the input is all whitespace. */
  lemma StripEmptyIff(s: string)
    ensures Strip(s) == [] <==> AllSpace(s)
  {
    var t := TrimStart(s);
    if !AllSpace(s) {
      var k :| 0 <= k < |s| && !IsSpace(s[k]);
      assert t != [];
      assert !IsSpace(t[0]);
      assert TrimEnd(t) != [];
    }
  }

  /** A string with no whitespace at either end is its own strip. */
  lemma StripTrimmed(s: string)
    requires s == [] || (!IsSpace(s[0]) && !IsSpace(s[|s| - 1]))
    ensures Strip(s) == s
  {
  }

  /** Characters of a strip come from the input. */
  lemma StripChars(s: string, c: char)
    requires c in Strip(s)
    ensures c in s
  {
    var r := Strip(s);
    var i := LeadingSpaces(s);
    var k :| 0 <= k < |r| && r[k] == c;
    assert s[i + k] == c;
  }

  /** Leading whitespace does not change the strip. */
  lemma StripSkipsLeadingSpace(s: string, i: nat)
    requires i <= |s|
    requires forall k :: 0 <= k < i ==> IsSpace(s[k])
    ensures Strip(s[i..]) == Strip(s)
    decreases i
  {
    if i > 0 {
      assert s[1..][i - 1..] == s[i..];
      StripSkipsLeadingSpace(s[1..], i - 1);
    }
  }

  /** `pat in text` for strings: the reference definition of a substring. */
  ghost predicate OccursAt(pat: string, text: string, i: int) {
    0 <= i <= |text| - |pat| && text[i..i + |pat|] == pat
  }

  /** Python's `pat in text`, computed by trying every start position. */
  function IsSubstring(pat: string, text: string): (r: bool)
    ensures r <==> exists i :: OccursAt(pat, text, i)
    decreases |text|
  {
    if pat <= text then
      assert OccursAt(pat, text, 0);
      true
    else if text == [] then
      false
    else
      OccursShift(pat, text);
      IsSubstring(pat, text[1..])
  }

  /** When `pat` does not start `text`, it occurs in `text` exactly when it occurs in the tail. */
  lemma OccursShift(pat: string, text: string)
    requires text != [] && !(pat <= text)
    ensures (exists i :: OccursAt(pat, text, i)) <==> (exists i :: OccursAt(pat, text[1..], i))
  {
    if i :| OccursAt(pat, text[1..], i) {
      assert text[1..][i..i + |pat|] == text[i + 1..i + 1 + |pat|];
      assert OccursAt(pat, text, i + 1);
    }
    assert !OccursAt(pat, text, 0);
    if i :| OccursAt(pat, text, i) {
      assert text[1..][i - 1..i - 1 + |pat|] == text[i..i + |pat|];
      assert OccursAt(pat, text[1..], i - 1);
    }
  }

  /**
   * `re.split` with a one-character class: the pieces between separator
   * characters, including the empty ones at the ends and between adjacent
   * separators.
   */
  function SplitOn(s: string, isSep: char -> bool): (r: seq<string>)
    ensures |r| >= 1
    ensures forall k, i :: 0 <= k < |r| && 0 <= i < |r[k]| ==> !isSep(r[k][i])
    decreases |s|
  {
    if s == [] then [""]
    else if isSep(s[0]) then [""] + SplitOn(s[1..], isSep)
    else
      var rest := SplitOn(s[1..], isSep);
      [[s[0]] + rest[0]] + rest[1..]
  }

  /** A string without a separator is one piece. */
  lemma {:induction false} SplitOnNone(x: string, isSep: char -> bool)
    requires forall i :: 0 <= i < |x| ==> !isSep(x[i])
    ensures SplitOn(x, isSep) == [x]
    decreases |x|
  {
    if x != [] {
      SplitOnNone(x[1..], isSep);
      assert [x[0]] + x[1..] == x;
    }
  }

  /** Splitting at a separator character splits the two sides independently. */
  lemma {:induction false} SplitOnAround(x: string, c: char, y: string, isSep: char -> bool)
    requires isSep(c)
    ensures SplitOn(x + [c] + y, isSep) == SplitOn(x, isSep) + SplitOn(y, isSep)
    decreases |x|
  {
    if x == [] {
      assert x + [c] + y == [c] + y;
      assert ([c] + y)[1..] == y;
    } else {
      assert (x + [c] + y)[1..] == x[1..] + [c] + y;
      assert (x + [c] + y)[0] == x[0];
      SplitOnAround(x[1..], c, y, isSep);
    }
  }

  function Concat(parts: seq<string>): string {
    if parts == [] then "" else parts[0] + Concat(parts[1..])
  }

  function Filter(s: string, keep: char -> bool): string {
    if s == [] then "" else (if keep(s[0]) then [s[0]] else "") + Filter(s[1..], keep)
  }

  /** Splitting loses exactly the separators: the pieces put together are the input without them. */
  lemma {:induction false} SplitOnLosesOnlySeparators(s: string, isSep: char -> bool)
    ensures Concat(SplitOn(s, isSep)) == Filter(s, c => !isSep(c))
    decreases |s|
  {
    if s != [] {
      SplitOnLosesOnlySeparators(s[1..], isSep);
      var rest := SplitOn(s[1..], isSep);
      if !isSep(s[0]) {
        assert SplitOn(s, isSep)[1..] == rest[1..];
        assert Concat(rest) == rest[0] + Concat(rest[1..]);
      }
    }
  }

  /**
   * `str.splitlines()`: the lines of `s` without their line ends, where
   * "\r\n" ends one line and a final line end adds no empty line.
   */
  function SplitLines(s: string): (r: seq<string>)
    ensures forall k, i :: 0 <= k < |r| && 0 <= i < |r[k]| ==> !IsLineBreak(r[k][i])
    ensures s == [] <==> r == []
    decreases |s|
  {
    if s == [] then []
    else
      var j := RunEnd(s, 0, c => !IsLineBreak(c));
      if j == |s| then [s]
      else
        var next := if s[j] == '\r' && j + 1 < |s| && s[j + 1] == '\n' then j + 2 else j + 1;
        [s[..j]] + SplitLines(s[next..])
  }

  /** `sep.join(parts)`. */
  function Join(parts: seq<string>, sep: string): string {
    if parts == [] then ""
    else if |parts| == 1 then parts[0]
    else parts[0] + sep + Join(parts[1..], sep)
  }

  function DigitChar(d: nat): (c: char)
    requires d < 10
    ensures IsDigit(c)
  {
    ('0' as int + d) as char
  }

  /** `str(n)` for a natural number: its decimal digits, without leading zeros. */
  function NatToString(n: nat): (r: string)
    ensures r != []
    ensures forall i :: 0 <= i < |r| ==> IsDigit(r[i])
    ensures |r| > 1 ==> r[0] != '0'
    decreases n
  {
    if n < 10 then [DigitChar(n)] else NatToString(n / 10) + [DigitChar(n % 10)]
  }

  /** `int(s)` for a string of ASCII digits. */
  function DigitsValue(s: string): nat
    requires forall i :: 0 <= i < |s| ==> IsDigit(s[i])
  {
    if s == [] then 0
    else
      assert IsDigit(s[|s| - 1]);
      DigitsValue(s[..|s| - 1]) * 10 + (s[|s| - 1] as int - '0' as int)
  }

  /** Reading back what `str(n)` wrote gives `n`. */
  lemma {:induction false} NatToStringRoundTrip(n: nat)
    ensures DigitsValue(NatToString(n)) == n
    decreases n
  {
    if n >= 10 {
      NatToStringRoundTrip(n / 10);
      var r := NatToString(n);
      assert r[..|r| - 1] == NatToString(n / 10);
    }
  }

  /** `str(n)` is one-to-one. */
  lemma NatToStringInjective(m: nat, n: nat)
    requires NatToString(m) == NatToString(n)
    ensures m == n
  {
    NatToStringRoundTrip(m);
    NatToStringRoundTrip(n);
  }
}
