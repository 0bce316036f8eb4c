/**
 * Bookmark extraction and chapter-title recovery (`get_pdf_bookmarks` in
 * scripts/merger.py): every outline title is cleaned and classified by an
 * ordered, first-match chain of patterns; section and subsection titles become
 * `addtotoc` entries, chapter titles overwrite the recovered title, and when
 * no title was recovered the first five lines of page 1 are searched.
 */
module Outline {
  import opened Options
  import opened Text
  import opened Patterns
  import opened Directives
  import opened Pdf

  /** What the classifier makes of one cleaned title. */
  datatype Verdict = ChapterTitle(title: string) | Heading(level: Level, title: string) | Dropped

  /** `item.title.replace(',', ' ').strip()`. */
  function CleanTitle(raw: string): (t: string)
    ensures ',' !in t
    ensures IsTrimmed(t)
  {
    var r := ReplaceChar(raw, ',', ' ');
    var t := Strip(r);
    assert ',' !in t by {
      if ',' in t {
        StripChars(r, ',');
      }
    }
    t
  }

  /** The level from the dots of `title.split(' ')[0].rstrip('.')`: one dot is a section, any other count a subsection. */
  function SectionLevel(title: string): Level {
    if CountChar(RStripDots(FirstSpaceField(title)), '.') == 1 then Section else Subsection
  }

  /** `re.sub(r'^\d+\.\d+(\.\d+)?\.?\s*', '', title).strip()`. */
  function SectionTitle(title: string): string {
    match SectionSubEnd(title)
    case Some(e) => Strip(title[e..])
    case None => Strip(title)
  }

  /** `re.sub(r'^\d+\.?\s*', '', title).strip()`. */
  function BareNumberTitle(title: string): string {
    Strip(title[BareNumberSubEnd(title)..])
  }

  /** The first-match chain applied to a cleaned title: the chapter prefix first, then the numbered forms. */
  function Classify(title: string): Verdict {
    match ChapterPrefixEnd(title)
    case Some(n) => ChapterTitle(Strip(title[n..]))
    case None => ClassifyNumbered(title)
  }

  /** The rest of the chain for a title without a chapter prefix: a bare chapter number, then a section number. */
  function ClassifyNumbered(title: string): Verdict {
    if BareNumberMatch(title) && '.' !in RStripDots(FirstWord(title)) then
      ChapterTitle(BareNumberTitle(title))
    else if SectionNumberEnd(title).Some? then
      Heading(SectionLevel(title), SectionTitle(title))
    else
      Dropped
  }

  /** A title the classifier keeps has no comma and no surrounding whitespace. */
  predicate CleanVerdict(v: Verdict) {
    match v
    case ChapterTitle(t) => ',' !in t && IsTrimmed(t)
    case Heading(_, t) => ',' !in t && IsTrimmed(t)
    case Dropped => true
  }

  /** Stripping a slice of a comma-free string leaves it comma-free and trimmed. */
  lemma StripSliceClean(c: string, e: nat)
    requires ',' !in c && e <= |c|
    ensures ',' !in Strip(c[e..]) && IsTrimmed(Strip(c[e..]))
  {
    if ',' in Strip(c[e..]) {
      StripChars(c[e..], ',');
    }
  }

  lemma ClassifyNumberedClean(c: string)
    requires ',' !in c
    ensures CleanVerdict(ClassifyNumbered(c))
  {
    if BareNumberMatch(c) {
      StripSliceClean(c, BareNumberSubEnd(c));
    }
    if SectionSubEnd(c).Some? {
      StripSliceClean(c, SectionSubEnd(c).value);
    } else {
      StripSliceClean(c, 0);
    }
  }

  /** Every title the classifier keeps is free of commas and trimmed. */
  lemma ClassifyClean(c: string)
    requires ',' !in c
    ensures CleanVerdict(Classify(c))
  {
    match ChapterPrefixEnd(c)
    case Some(n) => StripSliceClean(c, n);
    case None => ClassifyNumberedClean(c);
  }

  /** A bookmark of the outline, nesting forgotten: what the classifier makes of its cleaned title, and its destination page. */
  datatype Mark = Mark(verdict: Verdict, dest: Option<nat>)

  /** A mark whose verdict is clean, as every mark taken from an outline is. */
  type CleanMark = m: Mark | CleanVerdict(m.verdict) witness Mark(Dropped, None)

  function MarkOf(title: string, dest: Option<nat>): CleanMark {
    ClassifyClean(CleanTitle(title));
    Mark(Classify(CleanTitle(title)), dest)
  }

  /** The bookmarks of an outline in the depth-first order in which `recurse_outlines` visits them. */
  function Flatten(items: seq<OutlineItem>): (ms: seq<CleanMark>)
    decreases items
  {
    if items == [] then []
    else
      (match items[0]
       case Bookmark(t, d) => [MarkOf(t, d)]
       case Nested(sub) => Flatten(sub))
      + Flatten(items[1..])
  }

  lemma {:induction false} FlattenAppend(a: seq<OutlineItem>, b: seq<OutlineItem>)
    ensures Flatten(a + b) == Flatten(a) + Flatten(b)
    decreases |a|
  {
    if a != [] {
      assert (a + b)[0] == a[0];
      assert (a + b)[1..] == a[1..] + b;
      FlattenAppend(a[1..], b);
      var head := match a[0] case Bookmark(t, d) => [MarkOf(t, d)] case Nested(sub) => Flatten(sub);
      assert Flatten(a + b) == head + Flatten(a[1..] + b);
      assert Flatten(a) == head + Flatten(a[1..]);
    } else {
      assert a + b == b;
    }
  }

  /**
   * The state `recurse_outlines` builds up: the bookmarks list, the nonlocal
   * `found_chapter_title`, and whether a call has raised (which ends the walk).
   */
  datatype WalkState = WalkState(entries: seq<TocEntry>, found: Option<string>, raised: bool)

  const Start := WalkState([], None, false)

  function Label(k: nat): string {
    "label" + NatToString(k)
  }

  /** One bookmark: a chapter title overwrites the one found so far; a section appends an entry labelled by its position. */
  function Visit(st: WalkState, m: Mark): WalkState {
    if st.raised then st
    else
      match m.verdict
      case ChapterTitle(t) => st.(found := Some(t))
      case Heading(level, t) =>
        (match m.dest
         case None => st.(raised := true)
         case Some(d) => st.(entries := st.entries + [TocEntry(d + 1, level, t, Label(|st.entries|))]))
      case Dropped => st
  }

  function Walk(st: WalkState, ms: seq<Mark>): WalkState
    decreases |ms|
  {
    if ms == [] then st else Walk(Visit(st, ms[0]), ms[1..])
  }

  lemma {:induction false} WalkAppend(st: WalkState, a: seq<Mark>, b: seq<Mark>)
    ensures Walk(st, a + b) == Walk(Walk(st, a), b)
    decreases |a|
  {
    if a != [] {
      assert (a + b)[0] == a[0];
      assert (a + b)[1..] == a[1..] + b;
      WalkAppend(Visit(st, a[0]), a[1..], b);
    } else {
      assert a + b == b;
    }
  }

  /** Once a call has raised, nothing more happens. */
  lemma {:induction false} WalkRaised(st: WalkState, ms: seq<Mark>)
    requires st.raised
    ensures Walk(st, ms) == st
    decreases |ms|
  {
    if ms != [] {
      WalkRaised(st, ms[1..]);
    }
  }

  lemma WalkOne(st: WalkState, m: Mark)
    ensures Walk(st, [m]) == Visit(st, m)
  {
    assert [m][1..] == [];
  }

  /** Walking the first `i + 1` items is walking the first `i` and then item `i`. */
  lemma WalkStep(st: WalkState, items: seq<OutlineItem>, i: nat)
    requires i < |items|
    ensures Walk(st, Flatten(items[..i + 1])) == Walk(Walk(st, Flatten(items[..i])), Flatten([items[i]]))
  {
    assert items[..i + 1] == items[..i] + [items[i]];
    FlattenAppend(items[..i], [items[i]]);
    WalkAppend(st, Flatten(items[..i]), Flatten([items[i]]));
  }

  /** After a raising call the rest of the items change nothing. */
  lemma WalkStopsAt(st: WalkState, items: seq<OutlineItem>, i: nat)
    requires i < |items| && Walk(st, Flatten(items[..i + 1])).raised
    ensures Walk(st, Flatten(items)) == Walk(st, Flatten(items[..i + 1]))
  {
    var front, back := items[..i + 1], items[i + 1..];
    assert front + back == items;
    FlattenAppend(front, back);
    var w := Walk(st, Flatten(front));
    WalkAppend(st, Flatten(front), Flatten(back));
    WalkRaised(w, Flatten(back));
  }

  lemma FlattenBookmark(t: string, d: Option<nat>)
    ensures Flatten([Bookmark(t, d)]) == [MarkOf(t, d)]
  {
  }

  lemma FlattenNested(sub: seq<OutlineItem>)
    ensures Flatten([Nested(sub)]) == Flatten(sub)
  {
    assert Flatten([Nested(sub)]) == Flatten(sub) + Flatten([]);
  }

  /**
   * `recurse_outlines`: the loop over one level of the outline, recursing into
   * nested lists; a raising call ends every level of the walk.
   */
  method RecurseOutlines(items: seq<OutlineItem>, st: WalkState) returns (r: WalkState)
    ensures r == Walk(st, Flatten(items))
    decreases items
  {
    r := st;
    var i := 0;
    while i < |items|
      invariant 0 <= i <= |items|
      invariant r == Walk(st, Flatten(items[..i]))
    {
      WalkStep(st, items, i);
      match items[i] {
        case Nested(sub) =>
          FlattenNested(sub);
          r := RecurseOutlines(sub, r);
        case Bookmark(t, d) =>
          FlattenBookmark(t, d);
          var m := MarkOf(t, d);
          WalkOne(r, m);
          r := Visit(r, m);
      }
      if r.raised {
        WalkStopsAt(st, items, i);
        return;
      }
      i := i + 1;
    }
    assert items[..i] == items;
  }

  // ---------------------------------------------------------------------------
  // The page-1 fallback

  /** A stripped line of page 1 with the chapter prefix: its rest, or the whole line when the rest is empty. */
  function LineTitle(line: string): (r: Option<string>)
    ensures r.Some? <==> ChapterPrefixEnd(line).Some?
    ensures r.Some? ==> r.value != ""
  {
    match ChapterPrefixEnd(line)
    case None => None
    case Some(n) =>
      var t := Strip(line[n..]);
      Some(if t == "" then line else t)
  }

  /** What each line gives, stripped first. */
  function LineTitles(lines: seq<string>): (r: seq<Option<string>>)
    ensures |r| == |lines|
    ensures forall i :: 0 <= i < |lines| ==> r[i] == LineTitle(Strip(lines[i]))
  {
    seq(|lines|, i requires 0 <= i < |lines| => LineTitle(Strip(lines[i])))
  }

  /** The first present value, if any. */
  function FirstSome<T>(xs: seq<Option<T>>): Option<T>
    decreases |xs|
  {
    if xs == [] then None
    else if xs[0].Some? then xs[0]
    else FirstSome(xs[1..])
  }

  /** The title the first matching line gives. */
  function TitleInLines(lines: seq<string>): Option<string> {
    FirstSome(LineTitles(lines))
  }

  /** `first_page_text.splitlines()[:5]`. */
  function FirstLines(text: string): (r: seq<string>)
    ensures |r| <= 5
  {
    var lines := SplitLines(text);
    if |lines| <= 5 then lines else lines[..5]
  }

  /** The `for line in lines[:5]` loop, leaving at the first line that carries the chapter prefix. */
  method FindTitleInText(text: string) returns (title: Option<string>)
    ensures title == TitleInLines(FirstLines(text))
  {
    var first := FirstLines(text);
    title := None;
    var i := 0;
    while i < |first|
      invariant 0 <= i <= |first|
      invariant FirstSome(LineTitles(first)[i..]) == TitleInLines(first)
    {
      assert LineTitles(first)[i..][1..] == LineTitles(first)[i + 1..];
      var line := Strip(first[i]);
      var m := ChapterPrefixEnd(line);
      if m.Some? {
        var t := Strip(line[m.value..]);
        if t == "" {
          t := line;
        }
        title := Some(t);
        return;
      }
      i := i + 1;
    }
  }

  /** Python's truth test on `found_chapter_title`: None and "" are false. */
  predicate IsBlank(o: Option<string>) {
    o.None? || o.value == ""
  }

  /** What `get_pdf_bookmarks` returns, before its entries are joined into one string. */
  datatype Recovered = Recovered(entries: seq<TocEntry>, title: Option<string>)

  function BookmarksOf(doc: PdfDoc): Recovered {
    if !doc.opens || doc.outline.None? then Recovered([], None)
    else
      var st := Walk(Start, Flatten(doc.outline.value));
      if st.raised || !IsBlank(st.found) || |doc.pages| == 0 || doc.pages[0].None? then
        Recovered(st.entries, st.found)
      else
        match TitleInLines(FirstLines(doc.pages[0].value))
        case Some(t) => Recovered(st.entries, Some(t))
        case None => Recovered(st.entries, st.found)
  }

  /**
   * `get_pdf_bookmarks`: walk the outline, then fall back on page 1; a reader
   * that cannot be opened or an outline that cannot be read gives nothing.
   */
  method GetPdfBookmarks(doc: PdfDoc) returns (addtotoc: string, title: Option<string>)
    ensures addtotoc == RenderEntries(BookmarksOf(doc).entries)
    ensures title == BookmarksOf(doc).title
  {
    if !doc.opens || doc.outline.None? {
      return "", None;
    }
    var st := RecurseOutlines(doc.outline.value, Start);
    if !st.raised && IsBlank(st.found) && |doc.pages| > 0 && doc.pages[0].Some? {
      var t := FindTitleInText(doc.pages[0].value);
      if t.Some? {
        st := st.(found := t);
      }
    }
    addtotoc := RenderEntries(st.entries);
    title := st.found;
  }

  // ---------------------------------------------------------------------------
  // The classifier, rule by rule

  /** A section number is never read as a bare chapter number: after its digits comes a dot and another digit. */
  lemma SectionIsNotBareNumber(t: string)
    requires SectionNumberEnd(t).Some?
    ensures !BareNumberMatch(t)
  {
    var a := RunEnd(t, 0, IsDigit);
    var b := RunEnd(t, a + 1, IsDigit);
    assert IsDigit(t[a + 1]);
  }

  /**
   * Rule 1: a title that starts with a chapter prefix becomes the chapter
   * title, with the longest such prefix removed and the rest trimmed.
   */
  lemma ClassifyChapterPrefix(t: string, m: nat)
    requires m <= |t| && IsChapterPrefix(t[..m])
    ensures ChapterPrefixEnd(t).Some?
    ensures var n := ChapterPrefixEnd(t).value;
      && m <= n && IsChapterPrefix(t[..n])
      && Classify(t) == ChapterTitle(Strip(t[n..]))
  {
    ChapterPrefixLongest(t, m);
    ChapterPrefixSound(t);
  }

  /** On a trimmed title the bare-number test accepts, the substitution leaves a non-empty, already trimmed rest. */
  lemma BareNumberRest(t: string)
    requires IsTrimmed(t) && BareNumberMatch(t)
    ensures 0 < BareNumberSubEnd(t) < |t|
    ensures BareNumberTitle(t) == t[BareNumberSubEnd(t)..]
  {
    var e := BareNumberSubEnd(t);
    var a := RunEnd(t, 0, IsDigit);
    var d := if a < |t| && t[a] == '.' then a + 1 else a;
    assert SpaceAt(t, d);
    StripTrimmed(t[e..]);
  }

  /**
   * Rule 2: a trimmed title without a chapter prefix that starts with a number,
   * an optional dot and whitespace becomes the chapter title with the number,
   * the dot and the whitespace removed, and that title is never empty.
   */
  lemma ClassifyBareNumber(t: string)
    requires IsTrimmed(t) && ChapterPrefixEnd(t).None? && BareNumberMatch(t)
    ensures 0 < BareNumberSubEnd(t) < |t|
    ensures Classify(t) == ChapterTitle(t[BareNumberSubEnd(t)..])
  {
    BareNumberGuardHolds(t);
    BareNumberRest(t);
  }

  /** The dots in a string of digits and nothing else: none. */
  lemma CountDotsInDigits(s: string)
    requires forall i :: 0 <= i < |s| ==> IsDigit(s[i])
    ensures CountChar(s, '.') == 0
  {
    if s != [] {
      CountDotsInDigits(s[1..]);
    }
  }

  /**
   * Rule 3: a title with neither kind of chapter number that starts with a
   * section number followed by whitespace or the end becomes a heading whose
   * title is what follows the number, trimmed.
   */
  lemma ClassifySection(t: string)
    requires ChapterPrefixEnd(t).None? && SectionNumberEnd(t).Some?
    ensures Classify(t) == Heading(SectionLevel(t), Strip(t[SectionNumberEnd(t).value..]))
  {
    SectionIsNotBareNumber(t);
    assert Classify(t) == Heading(SectionLevel(t), SectionTitle(t));
    SectionTitleAfterNumber(t);
  }

  /** The section title is what follows the section number, trimmed. */
  lemma SectionTitleAfterNumber(t: string)
    requires SectionNumberEnd(t).Some?
    ensures SectionTitle(t) == Strip(t[SectionNumberEnd(t).value..])
  {
    var n := SectionNumberEnd(t).value;
    SectionSubAfterNumber(t);
    var e := RunEnd(t, n, IsSpace);
    assert SectionTitle(t) == Strip(t[e..]);
    assert t[n..][e - n..] == t[e..];
    StripSkipsLeadingSpace(t[n..], e - n);
  }

  /** `split(' ')[0]` of a string whose first space, if any, is at `n`. */
  lemma FirstSpaceFieldAt(t: string, n: nat)
    requires n <= |t| && (n == |t| || t[n] == ' ')
    requires forall i :: 0 <= i < n ==> t[i] != ' '
    ensures FirstSpaceField(t) == t[..n]
  {
    var f := FirstSpaceField(t);
    assert |f| == n;
  }

  /** Appending a dot and a run of digits adds one dot. */
  lemma CountDotsJoin(x: string, y: string)
    requires forall i :: 0 <= i < |y| ==> IsDigit(y[i])
    ensures CountChar(x + ['.'] + y, '.') == CountChar(x, '.') + 1
  {
    CountCharAppend(x + ['.'], y, '.');
    CountCharAppend(x, ['.'], '.');
    CountDotsInDigits(y);
  }

  /** A section number loses at most its final dot to `rstrip('.')`. */
  lemma SectionNumberStripped(p: string, a: nat, b: nat, c: nat)
    requires SectionNumberSplit(p, a, b, c)
    ensures RStripDots(p) == p[..c]
  {
    assert p[c - 1] != '.';
  }

  /** A section number, with its one optional final dot removed, keeps one dot per component after the first. */
  lemma SectionNumberDots(p: string, a: nat, b: nat, c: nat)
    requires SectionNumberSplit(p, a, b, c)
    ensures RStripDots(p) == p[..c]
    ensures CountChar(p[..c], '.') == if c == b then 1 else 2
  {
    SectionNumberStripped(p, a, b, c);
    var xy := p[..a] + ['.'] + p[a + 1..b];
    assert p[..b] == xy;
    CountDotsInDigits(p[..a]);
    CountDotsJoin(p[..a], p[a + 1..b]);
    if c != b {
      assert p[..c] == xy + ['.'] + p[b + 1..c];
      CountDotsJoin(xy, p[b + 1..c]);
    }
  }

  /** A title with no ASCII space is its own first space-separated word. */
  lemma {:induction false} FirstSpaceFieldNoSpace(s: string)
    requires ' ' !in s
    ensures FirstSpaceField(s) == s
    decreases |s|
  {
    if s != [] {
      assert ' ' !in s[1..];
      FirstSpaceFieldNoSpace(s[1..]);
    }
  }

  /**
   * A tab after the number: the first word at line 149 runs on into the title
   * text, and its dots make "1.2<tab>A.B" a subsection, although the number
   * names a section.
   */
  lemma TabAfterNumberLevel()
    ensures SectionNumberEnd("1.2\tA.B") == Some(3)
    ensures SectionLevel("1.2\tA.B") == Subsection
  {
    TabAfterNumberMatches();
    TabAfterNumberWord();
  }

  lemma TabAfterNumberMatches()
    ensures SectionNumberEnd("1.2\tA.B") == Some(3)
  {
    var t := "1.2\tA.B";
    assert RunEnd(t, 0, IsDigit) == 1;
    assert RunEnd(t, 2, IsDigit) == 3;
  }

  lemma TabAfterNumberWord()
    ensures SectionLevel("1.2\tA.B") == Subsection
  {
    var t := "1.2\tA.B";
    FirstSpaceFieldNoSpace(t);
    assert RStripDots(t) == t;
    assert t == "1.2\t" + "A.B";
    CountCharAppend("1.2\t", "A.B", '.');
  }

  /**
   * The level of a heading whose number is followed by a space or ends the
   * title: a section for "X.Y" or "X.Y.", a subsection for "X.Y.Z" or "X.Y.Z.".
   */
  lemma SectionLevelFromNumber(t: string, a: nat, b: nat, c: nat)
    requires SectionNumberEnd(t).Some?
    requires SectionNumberSplit(t[..SectionNumberEnd(t).value], a, b, c)
    requires var n := SectionNumberEnd(t).value; n == |t| || t[n] == ' '
    ensures SectionLevel(t) == if c == b then Section else Subsection
  {
    var n := SectionNumberEnd(t).value;
    var p := t[..n];
    forall i | 0 <= i < n ensures t[i] != ' ' {
      assert p[i] == t[i];
      if i < a {
        assert p[..a][i] == t[i];
      } else if a < i < b {
        assert p[a + 1..b][i - a - 1] == t[i];
      } else if b < i < c {
        assert p[b + 1..c][i - b - 1] == t[i];
      }
    }
    FirstSpaceFieldAt(t, n);
    SectionNumberDots(p, a, b, c);
  }

  /** Rule 4: a title is dropped exactly when none of the three patterns accepts it. */
  lemma ClassifyDropped(t: string)
    ensures Classify(t) == Dropped <==> ChapterPrefixEnd(t).None? && !BareNumberMatch(t) && SectionNumberEnd(t).None?
  {
    if BareNumberMatch(t) {
      BareNumberGuardHolds(t);
    }
  }

  // ---------------------------------------------------------------------------
  // What the walk produces

  predicate IsHeading(m: Mark) {
    m.verdict.Heading?
  }

  /** A heading whose destination page cannot be resolved: resolving it raises. */
  predicate Unresolved(m: Mark) {
    IsHeading(m) && m.dest.None?
  }

  /** Every heading among the bookmarks resolves to a page. */
  predicate AllResolved(ms: seq<Mark>) {
    forall i :: 0 <= i < |ms| ==> !Unresolved(ms[i])
  }

  /** The headings among the bookmarks, in outline order. */
  function Headings(ms: seq<Mark>): (hs: seq<Mark>)
    ensures |hs| <= |ms|
    ensures forall i :: 0 <= i < |hs| ==> IsHeading(hs[i])
    ensures AllResolved(ms) ==> forall i :: 0 <= i < |hs| ==> hs[i].dest.Some?
  {
    if ms == [] then []
    else (if IsHeading(ms[0]) then [ms[0]] else []) + Headings(ms[1..])
  }

  /** The entry a resolved heading gives as the `k`-th entry: its page counted from 1, its level, its title and "label`k`". */
  function EntryFor(m: Mark, k: nat): TocEntry
    requires IsHeading(m) && m.dest.Some?
  {
    TocEntry(m.dest.value + 1, m.verdict.level, m.verdict.title, Label(k))
  }

  /** The entries of resolved headings numbered from `base`: the `j`-th is the entry of the `j`-th heading, labelled `base + j`. */
  function HeadingEntries(hs: seq<Mark>, base: nat): (es: seq<TocEntry>)
    requires forall i :: 0 <= i < |hs| ==> IsHeading(hs[i]) && hs[i].dest.Some?
    ensures |es| == |hs|
    ensures forall j :: 0 <= j < |hs| ==> es[j] == EntryFor(hs[j], base + j)
  {
    if hs == [] then [] else [EntryFor(hs[0], base)] + HeadingEntries(hs[1..], base + 1)
  }

  /** The walk raises exactly when some heading has no resolvable destination. */
  lemma {:induction false} WalkRaisesIff(st: WalkState, ms: seq<Mark>)
    requires !st.raised
    ensures Walk(st, ms).raised <==> !AllResolved(ms)
    decreases |ms|
  {
    if ms != [] {
      var next := Visit(st, ms[0]);
      if Unresolved(ms[0]) {
        WalkRaised(next, ms[1..]);
      } else {
        WalkRaisesIff(next, ms[1..]);
        if exists i :: 0 <= i < |ms| && Unresolved(ms[i]) {
          var i :| 0 <= i < |ms| && Unresolved(ms[i]);
          assert ms[1..][i - 1] == ms[i];
        }
        if exists i :: 0 <= i < |ms[1..]| && Unresolved(ms[1..][i]) {
          var i :| 0 <= i < |ms[1..]| && Unresolved(ms[1..][i]);
          assert ms[i + 1] == ms[1..][i];
        }
      }
    }
  }

  lemma AppendAssociative<T>(a: seq<T>, b: seq<T>, c: seq<T>)
    ensures (a + b) + c == a + (b + c)
  {
  }

  lemma HeadingEntriesCons(m: Mark, hs: seq<Mark>, base: nat)
    requires IsHeading(m) && m.dest.Some?
    requires forall i :: 0 <= i < |hs| ==> IsHeading(hs[i]) && hs[i].dest.Some?
    ensures HeadingEntries([m] + hs, base) == [EntryFor(m, base)] + HeadingEntries(hs, base + 1)
  {
    assert ([m] + hs)[1..] == hs;
  }

  /**
   * A walk that does not raise appends one entry per heading, in outline
   * order, labelled by its position in the list.
   */
  lemma {:induction false} WalkEntries(st: WalkState, ms: seq<Mark>)
    requires !st.raised && AllResolved(ms)
    ensures Walk(st, ms).entries == st.entries + HeadingEntries(Headings(ms), |st.entries|)
    decreases |ms|
  {
    if ms != [] {
      var m := ms[0];
      assert !Unresolved(m);
      var next := Visit(st, m);
      assert AllResolved(ms[1..]) by {
        forall i | 0 <= i < |ms[1..]| ensures !Unresolved(ms[1..][i]) {
          assert ms[1..][i] == ms[i + 1];
        }
      }
      WalkEntries(next, ms[1..]);
      var hs := Headings(ms[1..]);
      var rest := HeadingEntries(hs, |next.entries|);
      assert Walk(st, ms).entries == next.entries + rest;
      if IsHeading(m) {
        var e := EntryFor(m, |st.entries|);
        assert next.entries == st.entries + [e];
        assert Headings(ms) == [m] + hs;
        HeadingEntriesCons(m, hs, |st.entries|);
        AppendAssociative(st.entries, [e], rest);
      } else {
        assert next.entries == st.entries;
        assert Headings(ms) == hs;
      }
    }
  }

  /** The title of the last bookmark that the classifier reads as a chapter title, if any. */
  function LastChapterTitle(ms: seq<Mark>): Option<string>
    decreases |ms|
  {
    if ms == [] then None
    else
      match ms[|ms| - 1].verdict
      case ChapterTitle(t) => Some(t)
      case _ => LastChapterTitle(ms[..|ms| - 1])
  }

  /** A walk that does not raise ends with the last chapter title it met, or the one it started with when it met none. */
  lemma {:induction false} WalkFindsLastTitle(st: WalkState, ms: seq<Mark>)
    requires !Walk(st, ms).raised
    ensures Walk(st, ms).found == if LastChapterTitle(ms).Some? then LastChapterTitle(ms) else st.found
    decreases |ms|
  {
    if ms != [] {
      var init, last := ms[..|ms| - 1], ms[|ms| - 1];
      assert init + [last] == ms;
      WalkAppend(st, init, [last]);
      WalkOne(Walk(st, init), last);
      WalkFindsLastTitle(st, init);
    }
  }

  /** A heading's title carries no comma and no surrounding whitespace, so it survives the `addtotoc` encoding. */
  lemma HeadingEncodable(m: Mark, k: nat)
    requires IsHeading(m) && m.dest.Some? && CleanVerdict(m.verdict)
    ensures Encodable(EntryFor(m, k))
  {
    var digits := NatToString(k);
    assert Label(k)[|Label(k)| - 1] == digits[|digits| - 1];
    assert ',' !in Label(k) by {
      forall i | 0 <= i < |Label(k)| ensures Label(k)[i] != ',' {
        if i >= 5 {
          assert Label(k)[i] == digits[i - 5];
        }
      }
    }
  }

  /** Every entry the outline gives survives the encoding: decoding the `addtotoc` string gives the entries back. */
  lemma BookmarksRoundTrip(doc: PdfDoc)
    ensures DecodeEntries(RenderEntries(BookmarksOf(doc).entries)) == Some(BookmarksOf(doc).entries)
  {
    BookmarksEncodable(doc);
    DecodeRenderRoundTrip(BookmarksOf(doc).entries);
  }

  /** No entry the outline gives has a comma or surrounding whitespace in its title or label. */
  lemma BookmarksEncodable(doc: PdfDoc)
    ensures forall i :: 0 <= i < |BookmarksOf(doc).entries| ==> Encodable(BookmarksOf(doc).entries[i])
  {
    var es := BookmarksOf(doc).entries;
    if doc.opens && doc.outline.Some? {
      var ms := Flatten(doc.outline.value);
      WalkRaisesIff(Start, ms);
      var st := Walk(Start, ms);
      if st.raised {
        WalkEncodable(Start, ms);
      } else {
        WalkEntries(Start, ms);
        HeadingsClean(ms);
        var hs := Headings(ms);
        forall j | 0 <= j < |hs| ensures Encodable(es[j]) {
          HeadingEncodable(hs[j], j);
        }
      }
    }
  }

  /** The walk keeps every entry encodable, including when it stops by raising. */
  lemma {:induction false} WalkEncodable(st: WalkState, ms: seq<Mark>)
    requires forall i :: 0 <= i < |st.entries| ==> Encodable(st.entries[i])
    requires forall i :: 0 <= i < |ms| ==> CleanVerdict(ms[i].verdict)
    ensures forall i :: 0 <= i < |Walk(st, ms).entries| ==> Encodable(Walk(st, ms).entries[i])
    decreases |ms|
  {
    if ms != [] {
      var m := ms[0];
      if !st.raised && IsHeading(m) && m.dest.Some? {
        HeadingEncodable(m, |st.entries|);
      }
      WalkEncodable(Visit(st, m), ms[1..]);
    }
  }

  lemma {:induction false} HeadingsClean(ms: seq<Mark>)
    requires forall i :: 0 <= i < |ms| ==> CleanVerdict(ms[i].verdict)
    ensures forall i :: 0 <= i < |Headings(ms)| ==> CleanVerdict(Headings(ms)[i].verdict)
    decreases |ms|
  {
    if ms != [] {
      HeadingsClean(ms[1..]);
    }
  }

  // ---------------------------------------------------------------------------
  // Which title is recovered

  lemma {:induction false} FirstSomeAt<T>(xs: seq<Option<T>>, i: nat)
    requires i < |xs| && xs[i].Some?
    requires forall j :: 0 <= j < i ==> xs[j].None?
    ensures FirstSome(xs) == xs[i]
    decreases i
  {
    if i > 0 {
      assert forall j :: 0 <= j < i - 1 ==> xs[1..][j] == xs[j + 1];
      FirstSomeAt(xs[1..], i - 1);
    }
  }

  lemma {:induction false} FirstSomeNone<T>(xs: seq<Option<T>>)
    ensures FirstSome(xs).None? <==> forall j :: 0 <= j < |xs| ==> xs[j].None?
    decreases |xs|
  {
    if xs != [] {
      FirstSomeNone(xs[1..]);
      assert forall j :: 0 < j < |xs| ==> xs[1..][j - 1] == xs[j];
    }
  }

  /** The fallback takes the first line that carries the chapter prefix. */
  lemma TitleInLinesFirst(lines: seq<string>, i: nat)
    requires i < |lines| && LineTitle(Strip(lines[i])).Some?
    requires forall j :: 0 <= j < i ==> LineTitle(Strip(lines[j])).None?
    ensures TitleInLines(lines) == LineTitle(Strip(lines[i]))
  {
    FirstSomeAt(LineTitles(lines), i);
  }

  /** The fallback finds nothing exactly when no line carries the chapter prefix. */
  lemma TitleInLinesNone(lines: seq<string>)
    ensures TitleInLines(lines).None? <==> forall j :: 0 <= j < |lines| ==> LineTitle(Strip(lines[j])).None?
  {
    FirstSomeNone(LineTitles(lines));
  }

  /**
   * When the outline can be read and every heading resolves, the entries are
   * those of the headings in order, and the title is the last chapter title of
   * the outline unless that is absent or empty, in which case page 1 decides
   * when it can.
   */
  lemma BookmarksOfReadable(doc: PdfDoc)
    requires doc.opens && doc.outline.Some?
    requires AllResolved(Flatten(doc.outline.value))
    ensures var ms := Flatten(doc.outline.value);
      BookmarksOf(doc).entries == HeadingEntries(Headings(ms), 0)
    ensures var last := LastChapterTitle(Flatten(doc.outline.value));
      BookmarksOf(doc).title ==
        if !IsBlank(last) || |doc.pages| == 0 || doc.pages[0].None? then last
        else if TitleInLines(FirstLines(doc.pages[0].value)).Some? then TitleInLines(FirstLines(doc.pages[0].value))
        else last
  {
    var ms := Flatten(doc.outline.value);
    assert !Start.raised && |Start.entries| == 0;
    WalkRaisesIff(Start, ms);
    WalkEntries(Start, ms);
    WalkFindsLastTitle(Start, ms);
  }

  /** A call that raises stops the walk: the entries and title found up to it are kept, and page 1 is not read. */
  lemma BookmarksOfRaising(doc: PdfDoc, i: nat)
    requires doc.opens && doc.outline.Some?
    requires var ms := Flatten(doc.outline.value); i < |ms| && Unresolved(ms[i])
    requires AllResolved(Flatten(doc.outline.value)[..i])
    ensures var ms := Flatten(doc.outline.value);
      && BookmarksOf(doc).entries == HeadingEntries(Headings(ms[..i]), 0)
      && BookmarksOf(doc).title == LastChapterTitle(ms[..i])
  {
    var ms := Flatten(doc.outline.value);
    var front := ms[..i];
    assert ms == front + [ms[i]] + ms[i + 1..];
    WalkAppend(Start, front + [ms[i]], ms[i + 1..]);
    WalkAppend(Start, front, [ms[i]]);
    WalkRaisesIff(Start, front);
    WalkEntries(Start, front);
    WalkFindsLastTitle(Start, front);
    var w := Walk(Start, front);
    WalkOne(w, ms[i]);
    WalkRaised(Visit(w, ms[i]), ms[i + 1..]);
  }
}
