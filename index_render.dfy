/**
 * The body of the index page (`generate_index_pdf` in scripts/merger.py): the
 * keywords found are listed in case-insensitive order, each on one `\item`
 * line holding its name, with `_`, `%` and `&` escaped, and its pages.
 */
module IndexRender {
  import opened Options
  import opened Text
  import Keywords
  import opened Sorting

  // ---------------------------------------------------------------------------
  // Escaping

  /** `s.replace(c, rep)` for a one-character `c`. */
  function ReplaceBy(s: string, c: char, rep: string): string
    decreases |s|
  {
    if s == [] then "" else (if s[0] == c then rep else [s[0]]) + ReplaceBy(s[1..], c, rep)
  }

  /** `kw.replace('_', '\\_').replace('%', '\\%').replace('&', '\\&')`. */
  function Escape(kw: string): string {
    ReplaceBy(ReplaceBy(ReplaceBy(kw, '_', "\\_"), '%', "\\%"), '&', "\\&")
  }

  predicate IsEscaped(c: char) {
    c == '_' || c == '%' || c == '&'
  }

  /** What one character becomes: a backslash is put before `_`, `%` and `&`. */
  function EscapeChar(c: char): string {
    if IsEscaped(c) then ['\\', c] else [c]
  }

  /** The inverse of the escaping: a backslash before `_`, `%` or `&` is dropped. */
  function Unescape(s: string): string
    decreases |s|
  {
    if s == [] then ""
    else if s[0] == '\\' && |s| > 1 && IsEscaped(s[1]) then [s[1]] + Unescape(s[2..])
    else [s[0]] + Unescape(s[1..])
  }

  lemma ReplaceByCons(x: char, s: string, c: char, rep: string)
    ensures ReplaceBy([x] + s, c, rep) == (if x == c then rep else [x]) + ReplaceBy(s, c, rep)
  {
    assert ([x] + s)[0] == x;
    assert ([x] + s)[1..] == s;
  }

  lemma {:induction false} ReplaceByAppend(a: string, b: string, c: char, rep: string)
    ensures ReplaceBy(a + b, c, rep) == ReplaceBy(a, c, rep) + ReplaceBy(b, c, rep)
    decreases |a|
  {
    if a == [] {
      assert a + b == b;
    } else {
      ReplaceByAppend(a[1..], b, c, rep);
      assert a + b == [a[0]] + (a[1..] + b);
      assert a == [a[0]] + a[1..];
      ReplaceByCons(a[0], a[1..] + b, c, rep);
      ReplaceByCons(a[0], a[1..], c, rep);
    }
  }

  lemma ReplaceByOther(s: string, c: char, rep: string)
    requires c !in s
    ensures ReplaceBy(s, c, rep) == s
  {
  }

  /** The three replacements act character by character. */
  lemma EscapeCons(c: char, s: string)
    ensures Escape([c] + s) == EscapeChar(c) + Escape(s)
  {
    var s1 := ReplaceBy(s, '_', "\\_");
    var s2 := ReplaceBy(s1, '%', "\\%");
    ReplaceByAppend([c], s, '_', "\\_");
    var c1 := ReplaceBy([c], '_', "\\_");
    ReplaceByAppend(c1, s1, '%', "\\%");
    var c2 := ReplaceBy(c1, '%', "\\%");
    ReplaceByAppend(c2, s2, '&', "\\&");
    assert c1 == if c == '_' then "\\_" else [c];
    if c != '%' {
      ReplaceByOther(c1, '%', "\\%");
    }
    assert c2 == if c == '_' then "\\_" else if c == '%' then "\\%" else [c];
    if c != '&' {
      ReplaceByOther(c2, '&', "\\&");
    }
  }

  /** The first character of an escaped name is never one of the escaped characters. */
  lemma EscapeHead(s: string)
    requires s != []
    ensures Escape(s) != [] && !IsEscaped(Escape(s)[0])
  {
    EscapeCons(s[0], s[1..]);
    assert s == [s[0]] + s[1..];
  }

  /** Escaping loses nothing: reading the escaped name back gives the keyword. */
  lemma {:induction false} UnescapeEscape(s: string)
    ensures Unescape(Escape(s)) == s
    decreases |s|
  {
    if s != [] {
      var c, rest := s[0], s[1..];
      assert s == [c] + rest;
      EscapeCons(c, rest);
      UnescapeEscape(rest);
      var e := Escape(rest);
      if IsEscaped(c) {
        assert (['\\', c] + e)[2..] == e;
      } else {
        if e != [] {
          EscapeHead(rest);
        }
        assert ([c] + e)[1..] == e;
      }
    }
  }

  /** Distinct keywords never print the same name. */
  lemma EscapeInjective(a: string, b: string)
    requires Escape(a) == Escape(b)
    ensures a == b
  {
    UnescapeEscape(a);
    UnescapeEscape(b);
  }

  /** Escaping brings in no character but the backslash. */
  lemma {:induction false} EscapeChars(s: string)
    ensures forall i :: 0 <= i < |Escape(s)| ==> Escape(s)[i] in s || Escape(s)[i] == '\\'
    decreases |s|
  {
    if s != [] {
      EscapeCons(s[0], s[1..]);
      EscapeChars(s[1..]);
      assert s == [s[0]] + s[1..];
    }
  }

  // ---------------------------------------------------------------------------
  // The item lines

  predicate IsNewline(c: char) {
    c == '\n'
  }

  /** `", ".join(map(str, pages))`. */
  function PageList(pages: seq<nat>): string {
    Join(seq(|pages|, i requires 0 <= i < |pages| => NatToString(pages[i])), ", ")
  }

  /** One `\item` line without its line end. */
  function ItemText(kw: string, pages: seq<nat>): string {
    "    \\item[" + Escape(kw) + "] " + PageList(pages)
  }

  /** f"    \\item[{safe_kw}] {pages}\n". */
  function ItemLine(kw: string, pages: seq<nat>): string {
    ItemText(kw, pages) + "\n"
  }

  /** The lines for the keys in the given order. */
  function Items(keys: seq<string>, m: map<string, seq<nat>>): string
    requires forall k :: k in keys ==> k in m
    decreases |keys|
  {
    if keys == [] then "" else ItemLine(keys[0], m[keys[0]]) + Items(keys[1..], m)
  }

  lemma ItemsCons(keys: seq<string>, m: map<string, seq<nat>>)
    requires keys != [] && forall x :: x in keys ==> x in m
    ensures Items(keys, m) == ItemLine(keys[0], m[keys[0]]) + Items(keys[1..], m)
  {
  }

  lemma {:induction false} ItemsSnoc(keys: seq<string>, k: string, m: map<string, seq<nat>>)
    requires forall x :: x in keys ==> x in m
    requires k in m
    ensures Items(keys + [k], m) == Items(keys, m) + ItemLine(k, m[k])
    decreases |keys|
  {
    if keys != [] {
      assert (keys + [k])[1..] == keys[1..] + [k];
      ItemsSnoc(keys[1..], k, m);
      ItemsCons(keys + [k], m);
      ItemsCons(keys, m);
    } else {
      ItemsCons([k], m);
    }
  }

  lemma {:induction false} JoinNoNewline(parts: seq<string>)
    requires forall i, j :: 0 <= i < |parts| && 0 <= j < |parts[i]| ==> IsDigit(parts[i][j])
    ensures forall j :: 0 <= j < |Join(parts, ", ")| ==> !IsNewline(Join(parts, ", ")[j])
    decreases |parts|
  {
    if |parts| > 1 {
      JoinNoNewline(parts[1..]);
      var rest := Join(parts[1..], ", ");
      forall j | 0 <= j < |Join(parts, ", ")| ensures !IsNewline(Join(parts, ", ")[j]) {
        if j < |parts[0]| {
          assert Join(parts, ", ")[j] == parts[0][j];
        } else if j >= |parts[0]| + 2 {
          assert Join(parts, ", ")[j] == rest[j - |parts[0]| - 2];
        }
      }
    } else if |parts| == 1 {
      assert Join(parts, ", ") == parts[0];
    }
  }

  /** A line holds no line end when its keyword has none. */
  lemma ItemTextOneLine(kw: string, pages: seq<nat>)
    requires '\n' !in kw
    ensures forall j :: 0 <= j < |ItemText(kw, pages)| ==> !IsNewline(ItemText(kw, pages)[j])
  {
    EscapeChars(kw);
    var strs := seq(|pages|, i requires 0 <= i < |pages| => NatToString(pages[i]));
    JoinNoNewline(strs);
    var e, p := Escape(kw), PageList(pages);
    var t := ItemText(kw, pages);
    forall j | 0 <= j < |t| ensures !IsNewline(t[j]) {
      if 10 <= j < 10 + |e| {
        assert t[j] == e[j - 10];
      } else if j >= 12 + |e| {
        assert t[j] == p[j - 12 - |e|];
      }
    }
  }

  /**
   * The body reads back as one line per key, in the given order, when no key
   * holds a line end (which the parsed keywords never do).
   */
  lemma {:induction false} ItemsLines(keys: seq<string>, m: map<string, seq<nat>>)
    requires forall k :: k in keys ==> k in m && '\n' !in k
    ensures SplitOn(Items(keys, m), IsNewline) ==
      seq(|keys|, i requires 0 <= i < |keys| => ItemText(keys[i], m[keys[i]])) + [""]
    decreases |keys|
  {
    if keys != [] {
      var first := ItemText(keys[0], m[keys[0]]);
      ItemTextOneLine(keys[0], m[keys[0]]);
      ItemsLines(keys[1..], m);
      SplitOnNone(first, IsNewline);
      assert ItemLine(keys[0], m[keys[0]]) == first + ['\n'];
      SplitOnAround(first, '\n', Items(keys[1..], m), IsNewline);
    }
  }

  // ---------------------------------------------------------------------------
  // The dictionary and the loop

  /** The result of the indexer as a dictionary: each keyword to its pages. */
  function DictOf(found: seq<(string, seq<nat>)>): (m: map<string, seq<nat>>)
    requires Keywords.Unique(Keywords.KeysOf(found))
    ensures forall i :: 0 <= i < |found| ==> found[i].0 in m && m[found[i].0] == found[i].1
    ensures forall k :: k in m ==> k in Keywords.KeysOf(found)
  {
    map i | 0 <= i < |found| :: found[i].0 := found[i].1
  }

  /**
   * `generate_index_pdf` up to the file it writes: nothing when no keyword was
   * found, else the `\item` lines of the keywords sorted by lower-cased form.
   */
  function IndexItems(keys: seq<string>, m: map<string, seq<nat>>): (r: Option<string>)
    requires forall k :: k in keys ==> k in m
  {
    if keys == [] then None
    else
      var sorted := SortBy(Lower, keys);
        Some(Items(sorted, m))
  }

  /**
   * No index page is made exactly when nothing was found; otherwise the page
   * holds one line per keyword, in case-insensitive order.
   */
  lemma IndexItemsLines(keys: seq<string>, m: map<string, seq<nat>>)
    requires forall k :: k in keys ==> k in m && '\n' !in k
    ensures IndexItems(keys, m).None? <==> keys == []
    ensures IndexItems(keys, m).Some? ==>
      var sorted := SortBy(Lower, keys);
      SplitOn(IndexItems(keys, m).value, IsNewline) ==
        seq(|sorted|, i requires 0 <= i < |sorted| => ItemText(sorted[i], m[sorted[i]])) + [""]
  {
    if keys != [] {
      ItemsLines(SortBy(Lower, keys), m);
    }
  }

  /** The loop that appends one `\item` line per key. */
  method AppendItems(sorted: seq<string>, m: map<string, seq<nat>>) returns (content: string)
    requires forall k :: k in sorted ==> k in m
    ensures content == Items(sorted, m)
  {
    content := "";
    for i := 0 to |sorted|
      invariant content == Items(sorted[..i], m)
    {
      var kw := sorted[i];
      var safe := Escape(kw);
      var pages := PageList(m[kw]);
      var line := "    \\item[" + safe + "] " + pages + "\n";
      ItemsSnoc(sorted[..i], kw, m);
      assert sorted[..i + 1] == sorted[..i] + [kw];
      content := content + line;
    }
    assert sorted[..|sorted|] == sorted;
  }

  /** `generate_index_pdf` up to its output: nothing for an empty result, else the sorted `\item` lines. */
  method GenerateIndexItems(keys: seq<string>, m: map<string, seq<nat>>) returns (body: Option<string>)
    requires forall k :: k in keys ==> k in m
    ensures body == IndexItems(keys, m)
  {
    if keys == [] {
      return None;
    }
    var sorted := SortBy(Lower, keys);
    var content := AppendItems(sorted, m);
    body := Some(content);
  }
}
