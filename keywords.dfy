/**
 * The keyword index (`extract_keywords` in scripts/merger.py): the keywords are
 * parsed from the keywords file, every page of every chapter PDF is searched
 * for each of them, and pages are numbered across the whole document by a
 * running `global_page` counter.
 */
module Keywords {
  import opened Options
  import opened Text
  import opened Pdf

  // ---------------------------------------------------------------------------
  // Parsing the keywords file

  /** `[,\n]`: the separators of the keywords file. */
  predicate IsKeywordSep(c: char) {
    c == ',' || c == '\n'
  }

  /** The string holds neither separator. */
  predicate NoSep(s: string) {
    forall j :: 0 <= j < |s| ==> !IsKeywordSep(s[j])
  }

  lemma StripNoSep(s: string)
    ensures NoSep(s) ==> NoSep(Strip(s))
  {
    var n := LeadingSpaces(s);
    forall j | 0 <= j < |Strip(s)| ensures Strip(s)[j] == s[n + j] {
    }
  }

  /** A keyword as the comprehension keeps it: non-empty, with no whitespace at either end. */
  predicate IsKept(k: string) {
    k != "" && !IsSpace(k[0]) && !IsSpace(k[|k| - 1])
  }

  predicate AllKept(ks: seq<string>) {
    forall i :: 0 <= i < |ks| ==> IsKept(ks[i])
  }

  predicate AllNoSep(ks: seq<string>) {
    forall i :: 0 <= i < |ks| ==> NoSep(ks[i])
  }

  predicate AllBlank(pieces: seq<string>) {
    forall i :: 0 <= i < |pieces| ==> AllSpace(pieces[i])
  }

  /** `[k.strip() for k in pieces if k.strip()]`. */
  function StripNonEmpty(pieces: seq<string>): (r: seq<string>)
    ensures AllKept(r)
    decreases |pieces|
  {
    if pieces == [] then []
    else
      var k := Strip(pieces[0]);
      var rest := StripNonEmpty(pieces[1..]);
      if k != "" then
        AllKeptCons(k, rest);
        [k] + rest
      else
        rest
  }

  lemma AllKeptCons(k: string, rest: seq<string>)
    requires IsKept(k) && AllKept(rest)
    ensures AllKept([k] + rest)
  {
    forall i | 0 < i < |rest| + 1 ensures IsKept(([k] + rest)[i]) {
      assert ([k] + rest)[i] == rest[i - 1];
    }
  }

  /** Stripping keeps a piece free of separators. */
  lemma {:induction false} StripNonEmptyNoSep(pieces: seq<string>)
    requires AllNoSep(pieces)
    ensures AllNoSep(StripNonEmpty(pieces))
    decreases |pieces|
  {
    if pieces != [] {
      StripNoSep(pieces[0]);
      AllNoSepTail(pieces);
      StripNonEmptyNoSep(pieces[1..]);
      var k := Strip(pieces[0]);
      var rest := StripNonEmpty(pieces[1..]);
      if k != "" {
        assert StripNonEmpty(pieces) == [k] + rest;
        AllNoSepCons(k, rest);
      } else {
        assert StripNonEmpty(pieces) == rest;
      }
    }
  }

  lemma AllNoSepCons(k: string, rest: seq<string>)
    requires NoSep(k) && AllNoSep(rest)
    ensures AllNoSep([k] + rest)
  {
    forall i | 0 < i < |rest| + 1 ensures NoSep(([k] + rest)[i]) {
      assert ([k] + rest)[i] == rest[i - 1];
    }
  }

  lemma AllNoSepTail(pieces: seq<string>)
    requires pieces != [] && AllNoSep(pieces)
    ensures NoSep(pieces[0]) && AllNoSep(pieces[1..])
  {
    assert forall i :: 0 <= i < |pieces| - 1 ==> pieces[1..][i] == pieces[i + 1];
  }

  /** Nothing is kept exactly when every piece is whitespace. */
  lemma {:induction false} StripNonEmptyNone(pieces: seq<string>)
    ensures StripNonEmpty(pieces) == [] <==> AllBlank(pieces)
    decreases |pieces|
  {
    if pieces != [] {
      StripEmptyIff(pieces[0]);
      StripNonEmptyNone(pieces[1..]);
      AllBlankCons(pieces);
    }
  }

  lemma AllBlankCons(pieces: seq<string>)
    requires pieces != []
    ensures AllBlank(pieces) <==> AllSpace(pieces[0]) && AllBlank(pieces[1..])
  {
    assert forall i :: 1 <= i < |pieces| ==> pieces[i] == pieces[1..][i - 1];
  }

  /** The keywords of a file's content, duplicates and order kept. */
  function KeywordList(content: string): (ks: seq<string>)
    ensures AllKept(ks) && AllNoSep(ks)
  {
    var pieces := SplitOn(content, IsKeywordSep);
    StripNonEmptyNoSep(pieces);
    StripNonEmpty(pieces)
  }

  /**
   * `[f(k) for k in pieces if f(k)]` for any `f`: the comprehension's shape,
   * stated once so the facts about positions below do not depend on `Strip`.
   */
  function KeepMapped(f: string -> string, pieces: seq<string>): seq<string>
    decreases |pieces|
  {
    if pieces == [] then []
    else if f(pieces[0]) != "" then [f(pieces[0])] + KeepMapped(f, pieces[1..])
    else KeepMapped(f, pieces[1..])
  }

  lemma {:induction false} StripNonEmptyMapped(pieces: seq<string>)
    ensures StripNonEmpty(pieces) == KeepMapped(Strip, pieces)
    decreases |pieces|
  {
    if pieces != [] {
      StripNonEmptyMapped(pieces[1..]);
    }
  }

  /** The positions, from `i` on, of the pieces that `f` maps to something, ascending. */
  function KeptPositions(f: string -> string, pieces: seq<string>, i: nat): (idx: seq<nat>)
    requires i <= |pieces|
    ensures forall j :: 0 <= j < |idx| ==> i <= idx[j] < |pieces| && f(pieces[idx[j]]) != ""
    ensures StrictlyIncreasing(idx)
    decreases |pieces| - i
  {
    if i == |pieces| then []
    else
      var rest := KeptPositions(f, pieces, i + 1);
      if f(pieces[i]) != "" then
        KeptPositionsCons(f, pieces, i, rest);
        [i] + rest
      else rest
  }

  lemma KeptPositionsCons(f: string -> string, pieces: seq<string>, i: nat, rest: seq<nat>)
    requires i < |pieces| && f(pieces[i]) != ""
    requires forall j :: 0 <= j < |rest| ==> i < rest[j] < |pieces| && f(pieces[rest[j]]) != ""
    requires StrictlyIncreasing(rest)
    ensures forall j :: 0 <= j < |rest| + 1 ==> i <= ([i] + rest)[j] < |pieces| && f(pieces[([i] + rest)[j]]) != ""
    ensures StrictlyIncreasing([i] + rest)
  {
    forall j | 0 < j < |rest| + 1 ensures ([i] + rest)[j] == rest[j - 1] {
    }
  }

  /** Every piece from `i` on that `f` maps to something has its position listed. */
  lemma {:induction false} KeptPositionsComplete(f: string -> string, pieces: seq<string>, i: nat, k: nat)
    requires i <= k < |pieces| && f(pieces[k]) != ""
    ensures k in KeptPositions(f, pieces, i)
    decreases |pieces| - i
  {
    var rest := KeptPositions(f, pieces, i + 1);
    if i == k {
      assert KeptPositions(f, pieces, i) == [i] + rest;
    } else {
      KeptPositionsComplete(f, pieces, i + 1, k);
      if f(pieces[i]) != "" {
        assert KeptPositions(f, pieces, i) == [i] + rest;
      } else {
        assert KeptPositions(f, pieces, i) == rest;
      }
    }
  }

  /** The comprehension yields, in order, `f` of the pieces at the kept positions. */
  lemma {:induction false} KeepMappedAt(f: string -> string, pieces: seq<string>, i: nat)
    requires i <= |pieces|
    ensures var r := KeepMapped(f, pieces[i..]);
      var idx := KeptPositions(f, pieces, i);
      |r| == |idx| && forall j :: 0 <= j < |r| ==> r[j] == f(pieces[idx[j]])
    decreases |pieces| - i
  {
    if i < |pieces| {
      KeepMappedAt(f, pieces, i + 1);
      assert pieces[i..][0] == pieces[i];
      assert pieces[i..][1..] == pieces[i + 1..];
    }
  }

  /**
   * The keywords are the non-blank pieces of the split, stripped, in order: the
   * `j`-th keyword is the strip of the `j`-th piece that strips to something,
   * and every such piece gives a keyword.
   */
  lemma KeywordListPieces(content: string)
    ensures var pieces := SplitOn(content, IsKeywordSep);
      var idx := KeptPositions(Strip, pieces, 0);
      var ks := KeywordList(content);
      && |ks| == |idx|
      && StrictlyIncreasing(idx)
      && (forall j :: 0 <= j < |ks| ==> idx[j] < |pieces| && ks[j] == Strip(pieces[idx[j]]))
      && (forall i :: 0 <= i < |pieces| && Strip(pieces[i]) != "" ==> i in idx)
  {
    var pieces := SplitOn(content, IsKeywordSep);
    assert pieces[0..] == pieces;
    assert KeywordList(content) == StripNonEmpty(pieces);
    StripNonEmptyMapped(pieces);
    KeepMappedAt(Strip, pieces, 0);
    forall i | 0 <= i < |pieces| && Strip(pieces[i]) != "" ensures i in KeptPositions(Strip, pieces, 0) {
      KeptPositionsComplete(Strip, pieces, 0, i);
    }
  }

  /** The comprehension keeps a string exactly when it is non-empty and some piece strips to it. */
  lemma {:induction false} StripNonEmptyMembers(pieces: seq<string>, k: string)
    ensures k in StripNonEmpty(pieces) <==> k != "" && exists i :: 0 <= i < |pieces| && Strip(pieces[i]) == k
    decreases |pieces|
  {
    if pieces != [] {
      var rest := StripNonEmpty(pieces[1..]);
      StripNonEmptyMembers(pieces[1..], k);
      if Strip(pieces[0]) != "" {
        assert StripNonEmpty(pieces) == [Strip(pieces[0])] + rest;
      } else {
        assert StripNonEmpty(pieces) == rest;
      }
      if exists i :: 0 <= i < |pieces| && Strip(pieces[i]) == k {
        var i :| 0 <= i < |pieces| && Strip(pieces[i]) == k;
        if i > 0 {
          assert pieces[1..][i - 1] == pieces[i];
        }
      }
      if exists i :: 0 <= i < |pieces| - 1 && Strip(pieces[1..][i]) == k {
        var i :| 0 <= i < |pieces| - 1 && Strip(pieces[1..][i]) == k;
        assert pieces[i + 1] == pieces[1..][i];
      }
    }
  }

  /** A string is a keyword exactly when some piece of the split strips to it and it is not empty. */
  lemma KeywordListMembers(content: string, k: string)
    ensures k in KeywordList(content) <==>
      k != "" && exists i :: 0 <= i < |SplitOn(content, IsKeywordSep)| && Strip(SplitOn(content, IsKeywordSep)[i]) == k
  {
    var pieces := SplitOn(content, IsKeywordSep);
    assert KeywordList(content) == StripNonEmpty(pieces);
    StripNonEmptyMembers(pieces, k);
    assert k in KeywordList(content) ==> k != "";
    assert k in KeywordList(content) ==> exists i :: 0 <= i < |SplitOn(content, IsKeywordSep)| && Strip(SplitOn(content, IsKeywordSep)[i]) == k;
    assert (k != "" && exists i :: 0 <= i < |SplitOn(content, IsKeywordSep)| && Strip(SplitOn(content, IsKeywordSep)[i]) == k) ==> k in KeywordList(content);
  }


  /** The keywords of the file, or None when the file is missing or holds no keyword. */
  function ParseKeywords(content: Option<string>): Option<seq<string>> {
    match content
    case None => None
    case Some(c) =>
      var ks := KeywordList(c);
      if ks == [] then None else Some(ks)
  }

  /** A character that leaves no keyword behind: a separator or whitespace. */
  predicate IsFiller(c: char) {
    IsKeywordSep(c) || IsSpace(c)
  }

  predicate AllFiller(s: string) {
    forall i :: 0 <= i < |s| ==> IsFiller(s[i])
  }

  lemma AllSpaceCons(c: char, t: string)
    ensures AllSpace([c] + t) <==> IsSpace(c) && AllSpace(t)
  {
    var u := [c] + t;
    if IsSpace(c) && AllSpace(t) {
      forall i | 0 <= i < |u| ensures IsSpace(u[i]) {
        if i > 0 {
          assert u[i] == t[i - 1];
        }
      }
    }
    if AllSpace(u) {
      assert IsSpace(u[0]);
      forall i | 0 <= i < |t| ensures IsSpace(t[i]) {
        assert t[i] == u[i + 1];
      }
    }
  }

  /** The pieces are all blank exactly when the content is made of separators and whitespace. */
  lemma {:induction false} SplitBlankIff(s: string)
    ensures AllBlank(SplitOn(s, IsKeywordSep)) <==> AllFiller(s)
    decreases |s|
  {
    if s != [] {
      SplitBlankIff(s[1..]);
      var rest := SplitOn(s[1..], IsKeywordSep);
      assert AllFiller(s) <==> IsFiller(s[0]) && AllFiller(s[1..]) by {
        assert forall i :: 1 <= i < |s| ==> s[i] == s[1..][i - 1];
      }
      if IsKeywordSep(s[0]) {
        AllBlankCons([""] + rest);
        assert ([""] + rest)[1..] == rest;
      } else {
        var first := [s[0]] + rest[0];
        AllBlankCons([first] + rest[1..]);
        assert ([first] + rest[1..])[1..] == rest[1..];
        AllBlankCons(rest);
        AllSpaceCons(s[0], rest[0]);
      }
    }
  }

  /**
   * The file gives no keyword (and the index is skipped) exactly when it is
   * missing or holds nothing but commas, newlines and whitespace.
   */
  lemma ParseKeywordsNone(content: Option<string>)
    ensures ParseKeywords(content).None? <==>
      content.None? || AllFiller(content.value)
  {
    if content.Some? {
      var pieces := SplitOn(content.value, IsKeywordSep);
      StripNonEmptyNone(pieces);
      SplitBlankIff(content.value);
    }
  }

  // ---------------------------------------------------------------------------
  // Which pages are searched, and their numbers

  /** A page as the search sees it: its number in the merged document and its lower-cased text. */
  datatype Page = Page(number: nat, text: string)

  /** How many pages, from the first, have text that can be extracted: the loop over pages stops at the first that raises. */
  function ReadableCount(pages: seq<Option<string>>): (n: nat)
    ensures n <= |pages|
    ensures forall j :: 0 <= j < n ==> pages[j].Some?
    ensures n < |pages| ==> pages[n].None?
    decreases |pages|
  {
    if pages == [] || pages[0].None? then 0
    else
      var n := ReadableCount(pages[1..]);
      assert forall j :: 1 <= j <= n ==> pages[j] == pages[1..][j - 1];
      n + 1
  }

  /** The first `n` pages, numbered from `base`, their text lower-cased. */
  function NumberedPages(pages: seq<Option<string>>, n: nat, base: nat): (ps: seq<Page>)
    requires n <= |pages| && forall j :: 0 <= j < n ==> pages[j].Some?
    ensures |ps| == n
    ensures forall j :: 0 <= j < n ==> ps[j] == Page(base + j, Lower(pages[j].value))
  {
    seq(n, j requires 0 <= j < n => Page(base + j, Lower(pages[j].value)))
  }

  /** Whether a chapter is indexed at all: it has a PDF and the reader opens it. */
  predicate Opens(pdf: Option<PdfDoc>) {
    pdf.Some? && pdf.value.opens
  }

  /** Whether every page of an opened chapter is read, so that `global_page` moves past it. */
  predicate Completes(pdf: Option<PdfDoc>) {
    Opens(pdf) && ReadableCount(pdf.value.pages) == |pdf.value.pages|
  }

  /** The pages of one chapter that are searched when its first page is numbered `base`. */
  function ChapterPages(pdf: Option<PdfDoc>, base: nat): seq<Page> {
    if Opens(pdf) then NumberedPages(pdf.value.pages, ReadableCount(pdf.value.pages), base) else []
  }

  /** `global_page` after a chapter: advanced by its page count only when every page was read. */
  function Advance(pdf: Option<PdfDoc>, base: nat): nat {
    if Completes(pdf) then base + |pdf.value.pages| else base
  }

  function Pdfs(chapters: seq<Chapter>): seq<Option<PdfDoc>> {
    seq(|chapters|, i requires 0 <= i < |chapters| => chapters[i].pdf)
  }

  /** `global_page` after the chapters, starting from `base`. */
  function FinalBase(pdfs: seq<Option<PdfDoc>>, base: nat): nat
    decreases |pdfs|
  {
    if pdfs == [] then base else Advance(pdfs[|pdfs| - 1], FinalBase(pdfs[..|pdfs| - 1], base))
  }

  /** Every page searched, in order, with the number it is recorded under. */
  function IndexedPages(pdfs: seq<Option<PdfDoc>>, base: nat): seq<Page>
    decreases |pdfs|
  {
    if pdfs == [] then []
    else
      var init := pdfs[..|pdfs| - 1];
      IndexedPages(init, base) + ChapterPages(pdfs[|pdfs| - 1], FinalBase(init, base))
  }

  /** Every chapter that opens is read to its last page. */
  predicate AllComplete(pdfs: seq<Option<PdfDoc>>) {
    forall i :: 0 <= i < |pdfs| ==> Opens(pdfs[i]) ==> Completes(pdfs[i])
  }

  /**
   * When no page raises, the searched pages are numbered consecutively from
   * `base`, and `global_page` ends one past the last of them.
   */
  lemma {:induction false} ContiguousNumbering(pdfs: seq<Option<PdfDoc>>, base: nat)
    requires AllComplete(pdfs)
    ensures var ps := IndexedPages(pdfs, base);
      FinalBase(pdfs, base) == base + |ps| &&
      forall j :: 0 <= j < |ps| ==> ps[j].number == base + j
    decreases |pdfs|
  {
    if pdfs != [] {
      var init, last := pdfs[..|pdfs| - 1], pdfs[|pdfs| - 1];
      assert AllComplete(init) by {
        forall i | 0 <= i < |init| ensures Opens(init[i]) ==> Completes(init[i]) {
          assert init[i] == pdfs[i];
        }
      }
      ContiguousNumbering(init, base);
      assert Opens(last) ==> Completes(last);
    }
  }

  /**
   * A chapter whose pages stop being readable part-way does not move
   * `global_page`, so the next chapter's first page is recorded under the same
   * number as the interrupted chapter's first page.
   */
  lemma NumberReusedAfterAbort(a: PdfDoc, b: PdfDoc, base: nat)
    requires a.opens && 0 < ReadableCount(a.pages) < |a.pages|
    requires b.opens && |b.pages| > 0 && b.pages[0].Some?
    ensures var ps := IndexedPages([Some(a), Some(b)], base);
      var k := ReadableCount(a.pages);
      k < |ps| && ps[0].number == ps[k].number == base
  {
    var k := ReadableCount(a.pages);
    assert [Some(a), Some(b)][..1] == [Some(a)];
    assert [Some(a)][..0] == [];
    assert !Completes(Some(a));
    assert FinalBase([Some(a)], base) == base;
    var pa := ChapterPages(Some(a), base);
    var pb := ChapterPages(Some(b), base);
    assert IndexedPages([Some(a)], base) == pa;
    assert IndexedPages([Some(a), Some(b)], base) == pa + pb;
    assert |pa| == k && pa[0].number == base;
    assert ReadableCount(b.pages) > 0;
    assert pb[0].number == base;
  }

  // ---------------------------------------------------------------------------
  // Matches

  /** The numbers of the pages whose text contains the lower-cased keyword. */
  function Hits(kw: string, pages: seq<Page>): set<nat> {
    set j | 0 <= j < |pages| && IsSubstring(Lower(kw), pages[j].text) :: pages[j].number
  }

  lemma HitsAppend(kw: string, pages: seq<Page>, p: Page)
    ensures Hits(kw, pages + [p]) == Hits(kw, pages) + (if IsSubstring(Lower(kw), p.text) then {p.number} else {})
  {
    var ps := pages + [p];
    assert forall j :: 0 <= j < |pages| ==> ps[j] == pages[j];
    assert ps[|pages|] == p;
  }

  /** `keyword_map` once the given pages are searched: every keyword, with the pages it was found on. */
  function HitMap(keywords: seq<string>, pages: seq<Page>): map<string, set<nat>> {
    map k | k in keywords :: Hits(k, pages)
  }

  /** The keywords in the order of their first occurrence: the keys of `keyword_map` in insertion order. */
  function Distinct(ks: seq<string>): (r: seq<string>)
    ensures forall k :: k in r <==> k in ks
    ensures forall i, j :: 0 <= i < j < |r| ==> r[i] != r[j]
    decreases |ks|
  {
    if ks == [] then []
    else
      var d := Distinct(ks[..|ks| - 1]);
      assert ks == ks[..|ks| - 1] + [ks[|ks| - 1]];
      if ks[|ks| - 1] in d then d else d + [ks[|ks| - 1]]
  }

  // ---------------------------------------------------------------------------
  // The result

  predicate StrictlyIncreasing(xs: seq<nat>) {
    forall i, j :: 0 <= i < j < |xs| ==> xs[i] < xs[j]
  }

  predicate IsMin(m: nat, s: set<nat>) {
    m in s && forall y :: y in s ==> m <= y
  }

  lemma {:induction false} MinExists(s: set<nat>)
    requires s != {}
    ensures exists m :: IsMin(m, s)
    decreases |s|
  {
    var x :| x in s;
    if s == {x} {
      assert IsMin(x, s);
    } else {
      MinExists(s - {x});
      var m :| IsMin(m, s - {x});
      var least := if x < m then x else m;
      forall y | y in s ensures least <= y {
        if y != x {
          assert y in s - {x};
        }
      }
      assert IsMin(least, s);
    }
  }

  function SetMin(s: set<nat>): (m: nat)
    requires s != {}
    ensures IsMin(m, s)
  {
    MinExists(s);
    var m :| IsMin(m, s);
    m
  }

  /** `sorted(list(v))` for a set of page numbers: its elements in strictly ascending order. */
  function SortedElems(s: set<nat>): (r: seq<nat>)
    ensures |r| == |s|
    ensures forall x :: x in r <==> x in s
    ensures StrictlyIncreasing(r)
    decreases |s|
  {
    if s == {} then []
    else
      var m := SetMin(s);
      var rest := SortedElems(s - {m});
      MinBeforeRest(m, s, rest);
      [m] + rest
  }

  /** The least element put before the ascending elements of the rest of the set. */
  lemma MinBeforeRest(m: nat, s: set<nat>, rest: seq<nat>)
    requires IsMin(m, s)
    requires forall x :: x in rest <==> x in s - {m}
    requires StrictlyIncreasing(rest)
    ensures forall x :: x in [m] + rest <==> x in s
    ensures StrictlyIncreasing([m] + rest)
  {
    var r := [m] + rest;
    forall i, j | 0 <= i < j < |r| ensures r[i] < r[j] {
      assert r[j] == rest[j - 1];
      assert rest[j - 1] in rest;
      if i > 0 {
        assert r[i] == rest[i - 1];
      }
    }
  }

  /** `{k: sorted(list(v)) for k, v in keyword_map.items() if v}`, with the keys visited in `order`. */
  function Collect(order: seq<string>, kmap: map<string, set<nat>>): seq<(string, seq<nat>)>
    requires forall k :: k in order ==> k in kmap
    decreases |order|
  {
    if order == [] then []
    else
      var k := order[|order| - 1];
      Collect(order[..|order| - 1], kmap) + (if kmap[k] != {} then [(k, SortedElems(kmap[k]))] else [])
  }

  /** The index of the keywords over the given pages. */
  function Indexed(keywords: seq<string>, pages: seq<Page>): seq<(string, seq<nat>)> {
    Collect(Distinct(keywords), HitMap(keywords, pages))
  }

  /** What `extract_keywords` returns for the keywords file content and the chapters. */
  function IndexOf(content: Option<string>, chapters: seq<Chapter>): Option<seq<(string, seq<nat>)>> {
    match ParseKeywords(content)
    case None => None
    case Some(ks) => Some(Indexed(ks, IndexedPages(Pdfs(chapters), 1)))
  }

  // ---------------------------------------------------------------------------
  // The loops

  /** The `for kw in keywords` loop on one page. */
  method SearchPage(keywords: seq<string>, kmap: map<string, set<nat>>, ghost pages: seq<Page>, p: Page)
    returns (next: map<string, set<nat>>)
    requires kmap == HitMap(keywords, pages)
    ensures next == HitMap(keywords, pages + [p])
  {
    next := kmap;
    var t := 0;
    while t < |keywords|
      invariant 0 <= t <= |keywords|
      invariant next.Keys == kmap.Keys
      invariant forall k :: k in next ==>
        next[k] == kmap[k] + (if k in keywords[..t] && IsSubstring(Lower(k), p.text) then {p.number} else {})
    {
      var kw := keywords[t];
      assert keywords[..t + 1] == keywords[..t] + [kw];
      if IsSubstring(Lower(kw), p.text) {
        next := next[kw := next[kw] + {p.number}];
      }
      t := t + 1;
    }
    assert keywords[..t] == keywords;
    forall k | k in keywords ensures next[k] == Hits(k, pages + [p]) {
      HitsAppend(k, pages, p);
    }
  }

  /** One chapter of the loop over chapters: its pages are searched until one raises, and `global_page` advances only when none did. */
  method IndexChapter(keywords: seq<string>, kmap: map<string, set<nat>>, ghost done: seq<Page>, pdf: Option<PdfDoc>, globalPage: nat)
    returns (next: map<string, set<nat>>, nextPage: nat)
    requires kmap == HitMap(keywords, done)
    ensures next == HitMap(keywords, done + ChapterPages(pdf, globalPage))
    ensures nextPage == Advance(pdf, globalPage)
  {
    next, nextPage := kmap, globalPage;
    if pdf.None? || !pdf.value.opens {
      assert done + [] == done;
      return;
    }
    var pages := pdf.value.pages;
    var i := 0;
    while i < |pages|
      invariant 0 <= i <= |pages|
      invariant forall j :: 0 <= j < i ==> pages[j].Some?
      invariant next == HitMap(keywords, done + NumberedPages(pages, i, globalPage))
    {
      if pages[i].None? {
        return;
      }
      var text := Lower(pages[i].value);
      var page := Page(globalPage + i, text);
      next := SearchPage(keywords, next, done + NumberedPages(pages, i, globalPage), page);
      assert NumberedPages(pages, i + 1, globalPage) == NumberedPages(pages, i, globalPage) + [page];
      assert done + NumberedPages(pages, i + 1, globalPage) == done + NumberedPages(pages, i, globalPage) + [page];
      i := i + 1;
    }
    nextPage := globalPage + |pages|;
  }

  /** The loop over chapters: `keyword_map` and `global_page` after every chapter is searched. */
  method IndexChapters(keywords: seq<string>, chapters: seq<Chapter>) returns (kmap: map<string, set<nat>>, globalPage: nat)
    ensures kmap == HitMap(keywords, IndexedPages(Pdfs(chapters), 1))
    ensures globalPage == FinalBase(Pdfs(chapters), 1)
  {
    kmap := map k | k in keywords :: {};
    globalPage := 1;
    ghost var pdfs := Pdfs(chapters);
    assert pdfs[..0] == [];
    forall k | k in keywords ensures Hits(k, []) == {} {
    }
    var c := 0;
    while c < |chapters|
      invariant 0 <= c <= |chapters|
      invariant globalPage == FinalBase(pdfs[..c], 1)
      invariant kmap == HitMap(keywords, IndexedPages(pdfs[..c], 1))
    {
      assert pdfs[..c + 1][..c] == pdfs[..c];
      kmap, globalPage := IndexChapter(keywords, kmap, IndexedPages(pdfs[..c], 1), chapters[c].pdf, globalPage);
      c := c + 1;
    }
    assert pdfs[..c] == pdfs;
  }

  /** The comprehension over `keyword_map.items()` that keeps the keywords found, each with its sorted pages. */
  method FoundKeywords(order: seq<string>, kmap: map<string, set<nat>>) returns (result: seq<(string, seq<nat>)>)
    requires forall k :: k in order ==> k in kmap
    ensures result == Collect(order, kmap)
  {
    result := [];
    var t := 0;
    while t < |order|
      invariant 0 <= t <= |order|
      invariant result == Collect(order[..t], kmap)
    {
      assert order[..t + 1][..t] == order[..t];
      var k := order[t];
      if kmap[k] != {} {
        result := result + [(k, SortedElems(kmap[k]))];
      }
      t := t + 1;
    }
    assert order[..t] == order;
  }

  /** `extract_keywords`: parse the keywords, search every page of every chapter, keep the keywords found. */
  method ExtractKeywords(content: Option<string>, chapters: seq<Chapter>) returns (found: Option<seq<(string, seq<nat>)>>)
    ensures found == IndexOf(content, chapters)
  {
    var parsed := ParseKeywords(content);
    if parsed.None? {
      return None;
    }
    var keywords := parsed.value;
    var kmap, _ := IndexChapters(keywords, chapters);
    var result := FoundKeywords(Distinct(keywords), kmap);
    return Some(result);
  }

  // ---------------------------------------------------------------------------
  // What the index holds

  function KeysOf(r: seq<(string, seq<nat>)>): (ks: seq<string>)
    ensures |ks| == |r| && forall i :: 0 <= i < |r| ==> ks[i] == r[i].0
  {
    seq(|r|, i requires 0 <= i < |r| => r[i].0)
  }

  predicate Unique(ks: seq<string>) {
    forall i, j :: 0 <= i < j < |ks| ==> ks[i] != ks[j]
  }

  /** The entry a key contributes to the comprehension. */
  function EntryOf(k: string, kmap: map<string, set<nat>>): seq<(string, seq<nat>)>
    requires k in kmap
  {
    if kmap[k] != {} then [(k, SortedElems(kmap[k]))] else []
  }

  lemma CollectSnoc(order: seq<string>, k: string, kmap: map<string, set<nat>>)
    requires forall x :: x in order ==> x in kmap
    requires k in kmap
    ensures Collect(order + [k], kmap) == Collect(order, kmap) + EntryOf(k, kmap)
  {
    assert (order + [k])[..|order|] == order;
  }

  /** An entry of the comprehension: a key of `order` with a non-empty set of pages, sorted. */
  predicate EntryIn(e: (string, seq<nat>), order: seq<string>, kmap: map<string, set<nat>>) {
    e.0 in order && e.0 in kmap && kmap[e.0] != {} && e.1 == SortedElems(kmap[e.0])
  }

  /** Every entry of the comprehension is a key of `order` with a non-empty set, sorted. */
  lemma {:induction false} CollectEntries(order: seq<string>, kmap: map<string, set<nat>>)
    requires forall k :: k in order ==> k in kmap
    ensures forall i :: 0 <= i < |Collect(order, kmap)| ==> EntryIn(Collect(order, kmap)[i], order, kmap)
    decreases |order|
  {
    if order != [] {
      var init, k := order[..|order| - 1], order[|order| - 1];
      assert order == init + [k];
      CollectEntries(init, kmap);
      CollectSnoc(init, k, kmap);
    }
  }

  /** The comprehension keeps exactly the keys of `order` whose set is non-empty. */
  lemma {:induction false} CollectKeys(order: seq<string>, kmap: map<string, set<nat>>)
    requires forall k :: k in order ==> k in kmap
    ensures forall k :: k in KeysOf(Collect(order, kmap)) <==> k in order && kmap[k] != {}
    decreases |order|
  {
    if order != [] {
      var init, k := order[..|order| - 1], order[|order| - 1];
      assert order == init + [k];
      CollectKeys(init, kmap);
      CollectSnoc(init, k, kmap);
      var front, tail := Collect(init, kmap), EntryOf(k, kmap);
      KeysOfAppend(front, tail);
      assert KeysOf(tail) == if kmap[k] != {} then [k] else [];
      forall x | true ensures x in KeysOf(Collect(order, kmap)) <==> x in order && kmap[x] != {} {
        assert x in KeysOf(Collect(order, kmap)) <==> x in KeysOf(front) || x in KeysOf(tail);
        assert x in order <==> x in init || x == k;
      }
    }
  }

  lemma KeysOfAppend(a: seq<(string, seq<nat>)>, b: seq<(string, seq<nat>)>)
    ensures KeysOf(a + b) == KeysOf(a) + KeysOf(b)
  {
  }

  /** Keys given once are kept once. */
  lemma {:induction false} CollectUnique(order: seq<string>, kmap: map<string, set<nat>>)
    requires forall k :: k in order ==> k in kmap
    requires Unique(order)
    ensures Unique(KeysOf(Collect(order, kmap)))
    decreases |order|
  {
    if order != [] {
      var init, k := order[..|order| - 1], order[|order| - 1];
      assert order == init + [k];
      assert Unique(init) by {
        assert forall i :: 0 <= i < |init| ==> init[i] == order[i];
      }
      assert k !in init by {
        assert forall i :: 0 <= i < |init| ==> init[i] == order[i];
      }
      CollectUnique(init, kmap);
      CollectKeys(init, kmap);
      CollectSnoc(init, k, kmap);
      KeysOfAppend(Collect(init, kmap), EntryOf(k, kmap));
    }
  }

  /**
   * The index holds exactly the keywords found on some page, each once, in the
   * order of their first occurrence in the file, each with the pages whose text
   * contains it, sorted.
   */
  lemma IndexedSpec(keywords: seq<string>, pages: seq<Page>)
    ensures var r := Indexed(keywords, pages);
      forall i :: 0 <= i < |r| ==>
        r[i].0 in keywords && Hits(r[i].0, pages) != {} && r[i].1 == SortedElems(Hits(r[i].0, pages))
    ensures forall k :: k in KeysOf(Indexed(keywords, pages)) <==> k in keywords && Hits(k, pages) != {}
    ensures Unique(KeysOf(Indexed(keywords, pages)))
  {
    var order := Distinct(keywords);
    var kmap := HitMap(keywords, pages);
    var r := Collect(order, kmap);
    assert r == Indexed(keywords, pages);
    CollectEntries(order, kmap);
    forall i | 0 <= i < |r|
      ensures r[i].0 in keywords && Hits(r[i].0, pages) != {} && r[i].1 == SortedElems(Hits(r[i].0, pages))
    {
      assert EntryIn(r[i], order, kmap);
      assert kmap[r[i].0] == Hits(r[i].0, pages);
    }
    CollectKeys(order, kmap);
    CollectUnique(order, kmap);
  }
}
