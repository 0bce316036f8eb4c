/**
 * Which PDF `convert_to_pdf` attaches to a chapter (scripts/merger.py:59-103).
 * The external conversion itself is not modelled: its outcome is an input,
 * the document found at the output path, or `None` when the conversion raised.
 * For a `.pdf` input the outcome is the input file read as a PDF.
 */
module Conversion {
  import opened Options
  import opened Pdf
  import Keywords
  import Toc

  /**
   * The chapter after `convert_to_pdf`, as written: a `.pdf` input takes its
   * own file as the output path but is never given a `pdf`; any other format
   * gets the converted document, and keeps what it had when conversion raised.
   */
  function Converted(c: Chapter, outcome: Option<PdfDoc>): (r: Chapter)
    ensures r.original == c.original && r.name == c.name && r.format == c.format
    ensures c.format == ".pdf" ==> r.pdf == c.pdf
  {
    if c.format == ".pdf" || outcome.None? then c else c.(pdf := outcome)
  }

  /** The evidently intended conversion: every input whose PDF is at hand gets it, a `.pdf` input included. */
  function ConvertedFixed(c: Chapter, outcome: Option<PdfDoc>): (r: Chapter)
    ensures r.original == c.original && r.name == c.name && r.format == c.format
    ensures outcome.Some? ==> r.pdf == outcome
  {
    if outcome.None? then c else c.(pdf := outcome)
  }

  /** The two agree on every input that is not a `.pdf`. */
  lemma ConvertedDiffersOnlyForPdf(c: Chapter, outcome: Option<PdfDoc>)
    ensures Converted(c, outcome) == ConvertedFixed(c, outcome) <==>
      c.format != ".pdf" || outcome.None? || c.pdf == outcome
  {
  }

  /** The loop `for chapter in merger.chapters: merger.convert_to_pdf(chapter)`, as written. */
  function ConvertAll(chapters: seq<Chapter>, outcomes: seq<Option<PdfDoc>>): (r: seq<Chapter>)
    requires |outcomes| == |chapters|
    ensures |r| == |chapters|
    ensures forall i :: 0 <= i < |r| ==> r[i] == Converted(chapters[i], outcomes[i])
  {
    seq(|chapters|, i requires 0 <= i < |chapters| => Converted(chapters[i], outcomes[i]))
  }

  /** The same loop with the intended conversion. */
  function ConvertAllFixed(chapters: seq<Chapter>, outcomes: seq<Option<PdfDoc>>): (r: seq<Chapter>)
    requires |outcomes| == |chapters|
    ensures |r| == |chapters|
    ensures forall i :: 0 <= i < |r| ==> r[i] == ConvertedFixed(chapters[i], outcomes[i])
  {
    seq(|chapters|, i requires 0 <= i < |chapters| => ConvertedFixed(chapters[i], outcomes[i]))
  }

  /**
   * As written: a `.pdf` input fresh from scanning is never searched for
   * keywords and never included in the master document, whatever its file holds.
   */
  lemma PdfInputNeverIncluded(chapters: seq<Chapter>, outcomes: seq<Option<PdfDoc>>, p: nat)
    requires |outcomes| == |chapters|
    requires 1 <= p <= |chapters| && chapters[p - 1].format == ".pdf" && chapters[p - 1].pdf.None?
    ensures Keywords.Pdfs(ConvertAll(chapters, outcomes))[p - 1].None?
    ensures forall j :: 0 <= j < |Toc.ChapterIncludes(ConvertAll(chapters, outcomes))| ==>
      Toc.ChapterIncludes(ConvertAll(chapters, outcomes))[j].source != Toc.ChapterPdf(p)
  {
    var converted := ConvertAll(chapters, outcomes);
    var inc := Toc.ChapterIncludes(converted);
    Toc.ChapterIncludesSound(converted);
    forall j | 0 <= j < |inc| ensures inc[j].source != Toc.ChapterPdf(p) {
      assert Toc.IncludesChapter(converted, inc[j]);
    }
  }

  /** Corrected: every input whose PDF is at hand, a `.pdf` input included, is searched and included. */
  lemma PdfInputIncluded(chapters: seq<Chapter>, outcomes: seq<Option<PdfDoc>>, p: nat)
    requires |outcomes| == |chapters|
    requires 1 <= p <= |chapters| && outcomes[p - 1].Some?
    ensures Keywords.Pdfs(ConvertAllFixed(chapters, outcomes))[p - 1] == outcomes[p - 1]
    ensures var inc := Toc.ChapterIncludes(ConvertAllFixed(chapters, outcomes));
      exists j :: 0 <= j < |inc| && inc[j].source == Toc.ChapterPdf(p)
  {
    Toc.ChapterIncludesComplete(ConvertAllFixed(chapters, outcomes), p);
  }
}
