/**
 * The table of contents of the master document (`create_master_latex` in
 * scripts/merger.py): every chapter that has a PDF is included with an
 * `addtotoc` value made of its chapter entry followed by the entries of its
 * outline, and the index, when there is one, comes last.
 */
module Toc {
  import opened Options
  import opened Text
  import opened Directives
  import Pdf
  import Outline

  /** `found_title if found_title else chapter['name']`. */
  function TitleOr(found: Option<string>, name: string): string {
    if Outline.IsBlank(found) then name else found.value
  }

  function ChapterLabel(i: nat): string {
    "chap" + NatToString(i)
  }

  /** `1,chapter,0,{chapter_title},chap{i}`: page 1 of the chapter's PDF, at chapter level. */
  function ChapterEntry(i: nat, title: string): TocEntry {
    TocEntry(1, Level.Chapter, title, ChapterLabel(i))
  }

  /** The chapter entry, then ", " and the outline's entries when there are any. */
  function FullAddtotoc(entry: string, addtotoc: string): string {
    if addtotoc != "" then entry + ", " + addtotoc else entry
  }

  /** The `addtotoc` value of the chapter at 1-based position `i` among all chapters. */
  function ChapterDirective(i: nat, name: string, doc: Pdf.PdfDoc): string {
    var rec := Outline.BookmarksOf(doc);
    FullAddtotoc(RenderEntry(ChapterEntry(i, TitleOr(rec.title, name))), RenderEntries(rec.entries))
  }

  /** The entry of the index: `1,chapter,0,Index,idx`. */
  const IndexEntry := TocEntry(1, Level.Chapter, "Index", "idx")

  /** Where an included PDF comes from: the chapter at a 1-based position, or the index. */
  datatype Source = ChapterPdf(position: nat) | IndexPdf

  /** One `\includepdf` of the master document, without the path it names. */
  datatype Include = Include(source: Source, addtotoc: string)

  /** The includes of the chapters, in order: one for each chapter that has a PDF. */
  function ChapterIncludes(chapters: seq<Pdf.Chapter>): seq<Include>
    decreases |chapters|
  {
    if chapters == [] then []
    else
      var n := |chapters|;
      var c := chapters[n - 1];
      ChapterIncludes(chapters[..n - 1]) +
        (if c.pdf.Some? then [Include(ChapterPdf(n), ChapterDirective(n, c.name, c.pdf.value))] else [])
  }

  /** The includes of the master document: the chapters, then the index when it was compiled. */
  function MasterIncludes(chapters: seq<Pdf.Chapter>, hasIndex: bool): seq<Include> {
    ChapterIncludes(chapters) + (if hasIndex then [Include(IndexPdf, RenderEntry(IndexEntry))] else [])
  }

  /** The loop over `enumerate(self.chapters, 1)` and the index that follows it. */
  method CreateMasterLatex(chapters: seq<Pdf.Chapter>, hasIndex: bool) returns (includes: seq<Include>)
    ensures includes == MasterIncludes(chapters, hasIndex)
  {
    includes := [];
    for i := 0 to |chapters|
      invariant includes == ChapterIncludes(chapters[..i])
    {
      var chapter := chapters[i];
      assert chapters[..i + 1][..i] == chapters[..i];
      if chapter.pdf.Some? {
        var addtotoc, found := Outline.GetPdfBookmarks(chapter.pdf.value);
        var title := if found.Some? && found.value != "" then found.value else chapter.name;
        var entry := "1,chapter,0," + title + ",chap" + NatToString(i + 1);
        ChapterEntryRendered(i + 1, title);
        var full := if addtotoc != "" then entry + ", " + addtotoc else entry;
        includes := includes + [Include(ChapterPdf(i + 1), full)];
      }
    }
    assert chapters[..|chapters|] == chapters;
    if hasIndex {
      IndexEntryRendered();
      includes := includes + [Include(IndexPdf, "1,chapter,0,Index,idx")];
    }
  }

  // ---------------------------------------------------------------------------
  // Which PDFs are included, and in what order

  /** An include of the chapter at its 1-based position, which has a PDF, with that chapter's directive. */
  predicate IncludesChapter(chapters: seq<Pdf.Chapter>, inc: Include) {
    && inc.source.ChapterPdf?
    && 1 <= inc.source.position <= |chapters|
    && chapters[inc.source.position - 1].pdf.Some?
    && inc.addtotoc == ChapterDirective(inc.source.position,
         chapters[inc.source.position - 1].name, chapters[inc.source.position - 1].pdf.value)
  }

  lemma IncludesChapterExtend(chapters: seq<Pdf.Chapter>, inc: Include)
    requires chapters != [] && IncludesChapter(chapters[..|chapters| - 1], inc)
    ensures IncludesChapter(chapters, inc)
  {
    var p := inc.source.position;
    assert chapters[..|chapters| - 1][p - 1] == chapters[p - 1];
  }

  /** Every include of the chapters is a chapter with a PDF, under its position, with its directive. */
  lemma {:induction false} ChapterIncludesSound(chapters: seq<Pdf.Chapter>)
    ensures forall j :: 0 <= j < |ChapterIncludes(chapters)| ==> IncludesChapter(chapters, ChapterIncludes(chapters)[j])
    decreases |chapters|
  {
    if chapters != [] {
      var init := chapters[..|chapters| - 1];
      ChapterIncludesSound(init);
      var prev := ChapterIncludes(init);
      var inc := ChapterIncludes(chapters);
      forall j | 0 <= j < |inc| ensures IncludesChapter(chapters, inc[j]) {
        if j < |prev| {
          assert inc[j] == prev[j];
          IncludesChapterExtend(chapters, prev[j]);
        }
      }
    }
  }

  /** The chapters are included in their order, so no position is included twice. */
  lemma {:induction false} ChapterIncludesOrdered(chapters: seq<Pdf.Chapter>)
    ensures forall j, k :: 0 <= j < k < |ChapterIncludes(chapters)| ==>
      ChapterIncludes(chapters)[j].source.ChapterPdf? && ChapterIncludes(chapters)[k].source.ChapterPdf? &&
      ChapterIncludes(chapters)[j].source.position < ChapterIncludes(chapters)[k].source.position
    decreases |chapters|
  {
    if chapters != [] {
      var init := chapters[..|chapters| - 1];
      ChapterIncludesOrdered(init);
      ChapterIncludesSound(init);
      var prev := ChapterIncludes(init);
      var inc := ChapterIncludes(chapters);
      forall j, k | 0 <= j < k < |inc|
        ensures inc[j].source.ChapterPdf? && inc[k].source.ChapterPdf? && inc[j].source.position < inc[k].source.position
      {
        assert inc[j] == prev[j];
        assert IncludesChapter(init, prev[j]);
        if k < |prev| {
          assert inc[k] == prev[k];
        } else {
          assert inc[k].source == ChapterPdf(|chapters|);
        }
      }
    } else {
      assert ChapterIncludes(chapters) == [];
    }
  }

  /** Every chapter that has a PDF is included. */
  lemma {:induction false} ChapterIncludesComplete(chapters: seq<Pdf.Chapter>, p: nat)
    requires 1 <= p <= |chapters| && chapters[p - 1].pdf.Some?
    ensures exists j :: 0 <= j < |ChapterIncludes(chapters)| && ChapterIncludes(chapters)[j].source == ChapterPdf(p)
    decreases |chapters|
  {
    var n := |chapters|;
    var init := chapters[..n - 1];
    var prev := ChapterIncludes(init);
    var inc := ChapterIncludes(chapters);
    if p < n {
      assert init[p - 1] == chapters[p - 1];
      ChapterIncludesComplete(init, p);
      var j :| 0 <= j < |prev| && prev[j].source == ChapterPdf(p);
      assert inc[j] == prev[j];
    } else {
      assert inc[|prev|].source == ChapterPdf(n);
    }
  }

  /** The index, when there is one, is the last PDF included, after every chapter. */
  lemma IndexComesLast(chapters: seq<Pdf.Chapter>, hasIndex: bool)
    ensures var inc := MasterIncludes(chapters, hasIndex);
      (forall j :: 0 <= j < |inc| - 1 ==> inc[j].source.ChapterPdf?) &&
      (hasIndex <==> inc != [] && inc[|inc| - 1].source == IndexPdf)
  {
    ChapterIncludesSound(chapters);
    var ch := ChapterIncludes(chapters);
    var inc := MasterIncludes(chapters, hasIndex);
    assert forall j :: 0 <= j < |ch| ==> inc[j] == ch[j];
    assert forall j :: 0 <= j < |ch| ==> IncludesChapter(chapters, ch[j]);
  }

  // ---------------------------------------------------------------------------
  // What the comma-splitting decoder reads from a directive

  lemma ChapterLabelEncodable(i: nat)
    ensures ',' !in ChapterLabel(i) && IsTrimmed(ChapterLabel(i))
  {
    var digits := NatToString(i);
    var l := ChapterLabel(i);
    assert l[|l| - 1] == digits[|digits| - 1];
    forall k | 0 <= k < |l| ensures l[k] != ',' {
      if k >= 4 {
        assert l[k] == digits[k - 4];
      }
    }
  }

  lemma SmallNumerals()
    ensures NatToString(1) == "1" && NatToString(0) == "0"
  {
  }

  lemma ChapterHeadRendered(rest: string)
    ensures Field("1", Field("chapter", Field("0", rest))) == "1,chapter,0," + rest
  {
  }

  lemma ChapterTailRendered(title: string, n: string)
    ensures Field(title, "chap" + n) == title + ",chap" + n
  {
  }

  lemma ChapterEntryRendered(i: nat, title: string)
    ensures RenderEntry(ChapterEntry(i, title)) == "1,chapter,0," + title + ",chap" + NatToString(i)
  {
    var n := NatToString(i);
    SmallNumerals();
    var tail := Field(title, "chap" + n);
    assert RenderEntry(ChapterEntry(i, title)) == Field("1", Field("chapter", Field("0", tail)));
    ChapterHeadRendered(tail);
    ChapterTailRendered(title, n);
    assert "1,chapter,0," + (title + ",chap" + n) == "1,chapter,0," + title + ",chap" + n;
  }

  lemma IndexEntryRendered()
    ensures RenderEntry(IndexEntry) == "1,chapter,0,Index,idx"
  {
    SmallNumerals();
    assert RenderEntry(IndexEntry) == Field("1", Field("chapter", Field("0", Field("Index", "idx"))));
    ChapterHeadRendered(Field("Index", "idx"));
  }

  /** The directive is the chapter entry and the outline's entries, joined the way the outline's own are. */
  lemma DirectiveRendersEntries(entry: TocEntry, es: seq<TocEntry>)
    ensures FullAddtotoc(RenderEntry(entry), RenderEntries(es)) == RenderEntries([entry] + es)
  {
    RenderEntriesCons(entry, es);
    RenderEntriesEmpty(es);
  }

  /**
   * When the chapter title holds no comma and no surrounding whitespace,
   * the decoder reads the directive as the chapter entry followed by the entries
   * of the chapter's outline.
   */
  lemma DirectiveRoundTrip(i: nat, name: string, doc: Pdf.PdfDoc)
    requires var t := TitleOr(Outline.BookmarksOf(doc).title, name); ',' !in t && IsTrimmed(t)
    ensures DecodeEntries(ChapterDirective(i, name, doc)) ==
      Some([ChapterEntry(i, TitleOr(Outline.BookmarksOf(doc).title, name))] + Outline.BookmarksOf(doc).entries)
  {
    var rec := Outline.BookmarksOf(doc);
    var e := ChapterEntry(i, TitleOr(rec.title, name));
    ChapterLabelEncodable(i);
    Outline.BookmarksEncodable(doc);
    DirectiveRendersEntries(e, rec.entries);
    var all := [e] + rec.entries;
    forall j | 0 <= j < |all| ensures Encodable(all[j]) {
      if j > 0 {
        assert all[j] == rec.entries[j - 1];
      }
    }
    DecodeRenderRoundTrip(all);
  }

  /**
   * A chapter title holding a comma breaks the directive: the decoder never reads
   * back the intended entries. The title comes unchanged from the chapter's
   * display name or from the first page's text, where commas are not replaced.
   */
  lemma CommaTitleBreaksDirective(i: nat, name: string, doc: Pdf.PdfDoc)
    requires ',' in TitleOr(Outline.BookmarksOf(doc).title, name)
    ensures DecodeEntries(ChapterDirective(i, name, doc)) !=
      Some([ChapterEntry(i, TitleOr(Outline.BookmarksOf(doc).title, name))] + Outline.BookmarksOf(doc).entries)
  {
    var rec := Outline.BookmarksOf(doc);
    CommaBreaksEntries(ChapterDirective(i, name, doc), ChapterEntry(i, TitleOr(rec.title, name)), rec.entries);
  }

  lemma CommaBreaksEntries(s: string, e: TocEntry, es: seq<TocEntry>)
    requires ',' in e.title
    ensures DecodeEntries(s) != Some([e] + es)
  {
    DecodedTitlesCommaFree(s);
    assert !TitlesCommaFree([e] + es) by {
      assert ([e] + es)[0] == e;
    }
  }

  /** Such a chapter exists: any chapter whose PDF cannot be opened and whose display name holds a comma. */
  lemma UnopenedCommaName(i: nat, name: string, doc: Pdf.PdfDoc)
    requires !doc.opens && ',' in name
    ensures DecodeEntries(ChapterDirective(i, name, doc)) != Some([ChapterEntry(i, name)])
  {
    assert Outline.BookmarksOf(doc) == Outline.Recovered([], None);
    CommaTitleBreaksDirective(i, name, doc);
    assert [ChapterEntry(i, name)] + [] == [ChapterEntry(i, name)];
  }

  /**
   * The directive as evidently intended: the chapter title cleaned like the
   * outline's titles, commas replaced by spaces and the result stripped.
   */
  function CleanChapterDirective(i: nat, name: string, doc: Pdf.PdfDoc): string {
    var rec := Outline.BookmarksOf(doc);
    FullAddtotoc(RenderEntry(ChapterEntry(i, Outline.CleanTitle(TitleOr(rec.title, name)))), RenderEntries(rec.entries))
  }

  /** With the cleaned title, the decoder always reads back the chapter entry and the outline's entries. */
  lemma CleanDirectiveRoundTrip(i: nat, name: string, doc: Pdf.PdfDoc)
    ensures DecodeEntries(CleanChapterDirective(i, name, doc)) ==
      Some([ChapterEntry(i, Outline.CleanTitle(TitleOr(Outline.BookmarksOf(doc).title, name)))] + Outline.BookmarksOf(doc).entries)
  {
    var rec := Outline.BookmarksOf(doc);
    var e := ChapterEntry(i, Outline.CleanTitle(TitleOr(rec.title, name)));
    ChapterLabelEncodable(i);
    Outline.BookmarksEncodable(doc);
    DirectiveRendersEntries(e, rec.entries);
    var all := [e] + rec.entries;
    forall j | 0 <= j < |all| ensures Encodable(all[j]) {
      if j > 0 {
        assert all[j] == rec.entries[j - 1];
      }
    }
    DecodeRenderRoundTrip(all);
  }

  /** The index's directive reads back as its one entry. */
  lemma IndexDirectiveRoundTrip()
    ensures DecodeEntries(RenderEntry(IndexEntry)) == Some([IndexEntry])
  {
    var e := IndexEntry;
    assert RenderEntries([e]) == RenderEntry(e);
    assert e.title == "Index" && e.tag == "idx";
    assert Encodable(e);
    DecodeRenderRoundTrip([e]);
  }
}
