/**
 * What the merger reads from a PDF through PyPDF2, given as data. A `None`
 * stands for a call that raises: the outline that cannot be read, a bookmark
 * whose destination cannot be resolved, a page whose text cannot be extracted.
 */
module Pdf {
  import opened Options

  /**
   * A node of `reader.outline`: a bookmark with its title and the 0-based page
   * its destination resolves to, or a nested list (the children of the
   * bookmark before it).
   */
  datatype OutlineItem = Bookmark(title: string, dest: Option<nat>) | Nested(items: seq<OutlineItem>)

  /**
   * One PDF as the reader sees it: whether `PdfReader` opens it, its outline,
   * and the extracted text of each page.
   */
  datatype PdfDoc = PdfDoc(opens: bool, outline: Option<seq<OutlineItem>>, pages: seq<Option<string>>)

  /**
   * One entry of `self.chapters`: the input file, its display name and lower-cased
   * suffix, and the PDF that conversion attached to it, if any.
   */
  datatype Chapter = Chapter(original: string, name: string, format: string, pdf: Option<PdfDoc>)
}
