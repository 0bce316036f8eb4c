# Document merger core, in Dafny

This project models the text and bookkeeping logic of `scripts/merger.py`, a
script that merges a directory of documents into one PDF with a table of
contents and a keyword index. Pandoc, xelatex and PyPDF2 do the heavy lifting
there. What is modelled and proved here is the logic the script itself
contains:

- **Scanning** (`scan_documents`): which files become chapters, in what order,
  and under what display name. The modelled state is `self.chapters`, a field of
  the class `Naming.DocumentMerger`.
- **Outline classification and title recovery** (`get_pdf_bookmarks`). Each
  bookmark title is cleaned and run through the first-match chain of regular
  expressions: a chapter prefix, then a bare chapter number, then a section
  number. The regular expressions are written as character-level recognisers
  (`Patterns`) and proved equal to declarative descriptions of what they
  accept. Section bookmarks become `addtotoc` entries. The last chapter match
  gives the chapter title. Failing that, the first five lines of page 1 are
  scanned, and the first match wins.
- **Keyword indexing** (`extract_keywords`): parsing the keywords file, and
  numbering pages across the document with the running `global_page` counter.
  A page is recorded for a keyword when the lower-cased keyword occurs in the
  lower-cased page text. The result keeps the keywords found, each with its
  pages ascending and without duplicates.
- **Index page body** (`generate_index_pdf`): the keywords in case-insensitive,
  stable order, with `_`, `%` and `&` escaped, one `\item` line each.
- **Master document assembly** (`create_master_latex`): one `\includepdf` per
  chapter that has a PDF, in order. Each carries the chapter entry
  `1,chapter,0,<title>,chap<i>` followed by the outline's entries. An optional
  index comes last.
- **Final file name** (`compile_final_pdf`): the `.pdf` suffix rule.

PyPDF2 is replaced by data (`Pdf.PdfDoc`): whether the reader opens, the
outline if it can be read, and the text of each page. A `None` stands for a
call that raises. The `addtotoc` strings are given meaning by `Directives.DecodeEntries`, a
comma-splitting decoder. It models only the comma structure of pdfpages'
`addtotoc` option: split at every comma, trim each field, take the fields
five at a time. The round-trip lemmas are stated against that decoder, not
against TeX's full reading of the text (see "Left out").

Behaviour worth knowing, which the model reproduces and proves:

- In the outline, the last chapter match overwrites earlier ones. In the page-1
  fallback, the first matching line wins. If stripping the prefix leaves
  nothing, the whole line is used.
- The `'.' not in first_part` guard (scripts/merger.py:134) always holds once
  the regex at line 132 matched (`Patterns.BareNumberGuardHolds`).
- A bookmark whose destination cannot be resolved raises inside the walk. The
  entries and title found before it are kept, and the page-1 fallback is then
  skipped (`Outline.BookmarksOfRaising`).
- If a chapter raises part-way through indexing, the pages it already matched
  stay recorded, but `global_page` does not advance. The next chapter's pages
  are then numbered from the same value, so two pages share a number
  (`Keywords.NumberReusedAfterAbort`).
- A file named only by a suffix, such as `.md`, has no suffix in `pathlib`'s
  sense, so it is not picked up (`Naming.NoSuffixNotSupported`).
- The section level is read from `title.split(' ')[0]` (scripts/merger.py:149),
  which splits at the ASCII space only. When a tab follows the number, the
  first word runs on into the title text, and its dots decide the level.
  `"1.2\tA.B"` is then a `subsection` (`Outline.TabAfterNumberLevel`).
  `Outline.SectionLevelFromNumber` states the level by the number only when a
  space or the end follows it.
- The keywords are the stripped, non-blank pieces of the file split at commas
  and line ends, in file order, duplicates kept (`Keywords.KeywordListPieces`).

## Model

| member | source | states |
|---|---|---|
| `Text.Strip` | scripts/merger.py:119 | `str.strip()`: the result is a slice of the input, has no whitespace at either end, and everything before and after that slice is whitespace |
| `Text.StripEmptyIff` | scripts/merger.py:211 | a string strips to "" exactly when it is all whitespace, which is the `if k.strip()` filter |
| `Text.SplitOnLosesOnlySeparators` | scripts/merger.py:211 | splitting at `[,\n]` keeps every character except the separators |
| `Text.NatToStringRoundTrip` | scripts/merger.py:287 | the decimal digits `str(n)` prints read back as `n` |
| `Text.NatToStringInjective` | scripts/merger.py:287 | distinct page numbers print differently |
| `Patterns.ChapterPrefixSound` | scripts/merger.py:123 | what the recogniser for `^(Chapter\|CH)[-:\s]+\d+[:\.\s-]*` (case-insensitive) matches is a keyword, separators, digits and a trailing run |
| `Patterns.ChapterPrefixLongest` | scripts/merger.py:123-127 | every prefix the pattern accepts is matched, and the match is at least as long, so `re.sub` removes the longest one |
| `Patterns.BareNumberGuardHolds` | scripts/merger.py:132-134 | once `^\d+\.?\s+` matches, the first word with trailing dots removed never contains a dot: the guard at line 134 is always true |
| `Patterns.SectionMatchIff` | scripts/merger.py:144 | the section test accepts a title exactly when it starts with "X.Y", "X.Y.", "X.Y.Z" or "X.Y.Z." followed by whitespace or the end |
| `Patterns.SectionNumberComplete` | scripts/merger.py:144 | a section number followed by whitespace or the end is found, and found whole |
| `Patterns.SectionSubAfterNumber` | scripts/merger.py:164 | the substitution at line 164 removes the matched section number and the whitespace after it |
| `Outline.CleanTitle` | scripts/merger.py:119 | a cleaned bookmark title holds no comma and no surrounding whitespace |
| `Outline.ClassifyClean` | scripts/merger.py:119-165 | every title the chain keeps, chapter title or heading, is comma-free and trimmed |
| `Outline.ClassifyChapterPrefix` | scripts/merger.py:123-128 | rule 1: a title with a chapter prefix becomes the chapter title, with the longest prefix removed and the rest stripped |
| `Outline.ClassifyBareNumber` | scripts/merger.py:132-137 | rule 2: a title without a chapter prefix that starts with a number, an optional dot and whitespace becomes a non-empty chapter title with the number removed |
| `Outline.ClassifySection` | scripts/merger.py:144-164 | rule 3: a section-numbered title becomes a heading whose title is what follows the number, stripped |
| `Outline.SectionLevelFromNumber` | scripts/merger.py:149-157 | the level is `section` for "X.Y" and `subsection` for "X.Y.Z", with or without a final dot, when a space or the end follows the number |
| `Outline.TabAfterNumberLevel` | scripts/merger.py:144-157 | "1.2", then a tab, then "A.B" is a section-numbered title whose level comes out `subsection`, because the first space-separated word takes in the title's dot |
| `Outline.ClassifyDropped` | scripts/merger.py:123-144 | a title is dropped exactly when none of the three patterns matches |
| `Outline.RecurseOutlines` | scripts/merger.py:113-165 | the recursive walk over the nested outline gives the fold of the bookmark visitor over the depth-first flattening |
| `Outline.WalkRaisesIff` | scripts/merger.py:146 | the walk raises exactly when some heading's destination cannot be resolved |
| `Outline.WalkEntries` | scripts/merger.py:144-165 | when every heading resolves, the entries are one per heading in outline order, with page = destination + 1 and labels `label<k>` consecutive from the number of entries already present |
| `Outline.WalkFindsLastTitle` | scripts/merger.py:127-136 | the chapter title after the walk is the last chapter match, or the earlier value when there is none |
| `Outline.FindTitleInText` | scripts/merger.py:171-191 | the page-1 scan over the first five stripped lines returns the title of the first line with a chapter prefix |
| `Outline.TitleInLinesFirst` | scripts/merger.py:176-191 | the first line with a chapter prefix decides the title, whatever follows it |
| `Outline.TitleInLinesNone` | scripts/merger.py:176-191 | no title is found exactly when none of the lines has a chapter prefix |
| `Outline.LineTitle` | scripts/merger.py:179-189 | a line gives a title exactly when it has a chapter prefix, and that title is never empty, because an empty rest falls back to the whole line |
| `Outline.GetPdfBookmarks` | scripts/merger.py:105-198 | returns the ", "-joined entries and the title of the recovery |
| `Outline.BookmarksOfReadable` | scripts/merger.py:167-191 | for a readable outline whose headings all resolve: the entries are the headings' entries. The title is the last outline match. It is replaced by the page-1 title only when that match is blank, page 1 has text, and a line there has a chapter prefix |
| `Outline.BookmarksOfRaising` | scripts/merger.py:144-198 | when a heading cannot be resolved, the entries and title found before it are kept and the page-1 fallback is skipped |
| `Outline.BookmarksRoundTrip` | scripts/merger.py:165-198 | the joined bookmark entries read back under `Directives.DecodeEntries` as exactly those entries |
| `Outline.BookmarksEncodable` | scripts/merger.py:119-165 | every bookmark entry has a comma-free, trimmed title and label |
| `Directives.DecodeRenderRoundTrip` | scripts/merger.py:165-198 | entries with comma-free, trimmed titles and labels, rendered as "page,level,depth,title,label" and joined with ", ", decode back to themselves |
| `Directives.DecodedTitlesCommaFree` | scripts/merger.py:368-373 | whatever the decoder reads back has comma-free titles |
| `Directives.RenderEntriesEmpty` | scripts/merger.py:370-373 | the joined entries are "" exactly when there are none |
| `Keywords.ParseKeywordsNone` | scripts/merger.py:211-215 | parsing gives no keyword list exactly when there is no content or it consists only of commas, line ends and whitespace |
| `Keywords.KeywordList` | scripts/merger.py:211 | every parsed keyword is non-empty, stripped and free of `,` and `\n` |
| `Keywords.StripNonEmptyMembers` | scripts/merger.py:211 | the comprehension keeps a string exactly when it is non-empty and some piece strips to it |
| `Keywords.KeywordListPieces` | scripts/merger.py:211 | the keywords are the strips of the pieces of the `[,\n]` split that strip to something, in order: the `j`-th keyword comes from the `j`-th such piece, and every such piece gives one |
| `Keywords.KeywordListMembers` | scripts/merger.py:211 | a string is a keyword exactly when it is non-empty and some piece of the split strips to it |
| `Keywords.ContiguousNumbering` | scripts/merger.py:221-244 | when no chapter raises, the searched pages are numbered consecutively from the start, and `global_page` ends one past the last |
| `Keywords.NumberReusedAfterAbort` | scripts/merger.py:229-247 | a chapter that raises after reading some pages does not advance `global_page`, so the next chapter's first page reuses its first number |
| `Keywords.SearchPage` | scripts/merger.py:238-242 | the inner keyword loop adds the page's number to exactly the keywords whose lower-cased form occurs in the page text |
| `Keywords.IndexChapter` | scripts/merger.py:229-247 | one chapter adds its readable pages to the map, numbered from `global_page`, and advances it only when every page was read |
| `Keywords.IndexChapters` | scripts/merger.py:219-247 | the chapter loop yields the hit map over all numbered pages and the final `global_page` |
| `Keywords.FoundKeywords` | scripts/merger.py:250 | the filtering comprehension over the map in key order |
| `Keywords.ExtractKeywords` | scripts/merger.py:200-252 | `extract_keywords` returns nothing for missing or empty keyword content, else the index over the chapters' pages from page 1 |
| `Keywords.SortedElems` | scripts/merger.py:250 | `sorted(list(v))` lists exactly the set's elements, strictly ascending |
| `Keywords.IndexedSpec` | scripts/merger.py:240-250 | every keyword in the result occurs in the keyword list, has at least one hit, and is mapped to its hit pages in ascending order. Every keyword with a hit is in the result, and none appears twice |
| `Sorting.SortBy` | scripts/merger.py:262 | `sorted(..., key=...)` returns a permutation of its input |
| `Sorting.SortBySpec` | scripts/merger.py:262 | the sort is ordered by key, keeps the order of elements with equal keys, and is the only ordering that does both |
| `Sorting.LexLeTotal` | scripts/merger.py:262 | Python's string order is total |
| `Sorting.LexLeTransitive` | scripts/merger.py:262 | Python's string order is transitive |
| `Sorting.LexLeAntisymmetric` | scripts/merger.py:262 | Python's string order is antisymmetric |
| `IndexRender.UnescapeEscape` | scripts/merger.py:289 | escaping `_`, `%` and `&` loses nothing: dropping the backslash before those three characters gives back the keyword |
| `IndexRender.EscapeInjective` | scripts/merger.py:289 | distinct keywords never print the same name |
| `IndexRender.EscapeChars` | scripts/merger.py:289 | escaping adds no character except the backslash |
| `IndexRender.ItemsLines` | scripts/merger.py:286-290 | the item lines read back as one line per key, in order, each `\item[<escaped key>] <pages>` |
| `IndexRender.DictOf` | scripts/merger.py:250 | the result as a dictionary maps each found keyword to its page list and holds nothing else |
| `IndexRender.IndexItemsLines` | scripts/merger.py:256-290 | no index body is made exactly when nothing was found. Otherwise the body has one line per keyword, in case-insensitive order |
| `IndexRender.AppendItems` | scripts/merger.py:286-290 | the loop's content is the item lines of the sorted keys |
| `IndexRender.GenerateIndexItems` | scripts/merger.py:254-290 | `generate_index_pdf` up to the file it writes: nothing for an empty result, else the sorted item lines |
| `Toc.CreateMasterLatex` | scripts/merger.py:356-384 | the loop emits the includes of the chapters with a PDF, then the index's when there is one |
| `Toc.ChapterIncludesSound` | scripts/merger.py:356-373 | each include belongs to a chapter with a PDF, at that chapter's 1-based position among all chapters, with that chapter's directive |
| `Toc.ChapterIncludesOrdered` | scripts/merger.py:356 | the includes follow the chapters' order |
| `Toc.ChapterIncludesComplete` | scripts/merger.py:356-357 | every chapter with a PDF gets an include |
| `Toc.IndexComesLast` | scripts/merger.py:380-384 | the index include is present exactly when there is an index, and then it is last |
| `Toc.ChapterEntryRendered` | scripts/merger.py:368 | the chapter entry renders as `1,chapter,0,<title>,chap<i>` |
| `Toc.IndexEntryRendered` | scripts/merger.py:383 | the index entry renders as `1,chapter,0,Index,idx` |
| `Toc.DirectiveRendersEntries` | scripts/merger.py:370-373 | the chapter entry, then ", " and the outline's entries if there are any, is the ", "-join of all of them |
| `Toc.DirectiveRoundTrip` | scripts/merger.py:361-373 | when the chosen title is comma-free and trimmed, the directive reads back under `Directives.DecodeEntries` as the chapter entry followed by the outline's entries |
| `Toc.CommaTitleBreaksDirective` | scripts/merger.py:364-368 | as written: when the chosen title holds a comma, the directive does not read back under `Directives.DecodeEntries` as the chapter entry and the outline's entries |
| `Toc.UnopenedCommaName` | scripts/merger.py:364-368 | as written: a chapter whose PDF cannot be read and whose display name holds a comma gets a directive that does not read back as its chapter entry |
| `Toc.CleanDirectiveRoundTrip` | scripts/merger.py:364-373 | corrected: with the chosen title cleaned like a bookmark title, the directive always reads back as the chapter entry and the outline's entries |
| `Toc.IndexDirectiveRoundTrip` | scripts/merger.py:383 | the index directive reads back as its one entry |
| `Naming.StemSuffix` | scripts/merger.py:27-29 | `Path.stem` and `Path.suffix` split the name, and the stem is the whole name when there is no suffix |
| `Naming.SuffixShape` | scripts/merger.py:27 | the suffix is the last dot and what follows it, provided both sides of that dot are non-empty, and "" otherwise |
| `Naming.NoSuffixNotSupported` | scripts/merger.py:23-27 | a name without a dot, a hidden name such as `.md`, or a name ending in a dot is never picked up |
| `Naming.TitleCaseAt` | scripts/merger.py:29 | `str.title()` upper-cases a letter at the start or after a non-letter, and lower-cases one after a letter |
| `Naming.TitleCaseIdempotent` | scripts/merger.py:29 | title-casing twice is title-casing once |
| `Naming.TitleCaseSameLetters` | scripts/merger.py:29 | title-casing changes only the case of letters |
| `Naming.DisplayNameShape` | scripts/merger.py:29 | the display name has the stem's length and no underscore, and differs from the stem with underscores made spaces only in case |
| `Naming.ScanSpec` | scripts/merger.py:21-32 | each chapter scanned comes from an input file with a supported lower-cased suffix and carries that file's display name and format. Every such file gives a chapter, in sorted order of the files |
| `Naming.DocumentMerger.ScanDocuments` | scripts/merger.py:21-32 | appends to `chapters` the chapters of the sorted files, leaving the earlier ones in place |
| `Naming.DocumentMerger.AppendScanned` | scripts/merger.py:26-32 | the loop appends one chapter per supported file, in the given order |
| `Conversion.Converted` | scripts/merger.py:59-103 | as written: a `.pdf` input keeps the `pdf` it had; any other input gets the converted document, or keeps what it had when conversion raised |
| `Conversion.ConvertedFixed` | scripts/merger.py:59-103 | corrected: every input whose PDF is at hand gets it |
| `Conversion.ConvertedDiffersOnlyForPdf` | scripts/merger.py:64-65 | the two conversions differ exactly for a `.pdf` input whose file is at hand and not already attached |
| `Conversion.PdfInputNeverIncluded` | scripts/merger.py:64-99 | as written: a scanned `.pdf` input is never searched for keywords and never gets an include in the master document |
| `Conversion.PdfInputIncluded` | scripts/merger.py:64-99 | corrected: an input whose PDF is at hand is searched and gets an include |
| `Naming.EnsurePdfSuffixSpec` | scripts/merger.py:396-397 | the final name ends in ".pdf" ignoring case. It is the given name when that already does, and the given name plus ".pdf" otherwise. Applying the rule twice changes nothing more |

## Left out

- External tools and I/O are not modelled: pandoc and xelatex conversion, the header, index and master `.tex` files, the LaTeX preamble templates, and renaming the compiled output. Their behaviour is not visible in the script. Of `convert_to_pdf`, only the choice of the `pdf` it attaches is modelled (`Conversion`), and the conversion's outcome is an input.
- TeX's reading of special characters is not modelled. Titles written into `addtotoc` (scripts/merger.py:368-373) are not escaped, so `%`, `{`, `}`, `\`, `#`, `$`, `^`, `~`, `_` and `&` in a title are read by TeX, not as text. Index keywords are escaped for `_`, `%` and `&` only (line 289), so `\`, `{`, `}`, `#`, `$`, `^`, `~` and `]` (which closes `\item[`) are not escaped either. The round trips are stated against the comma-splitting decoder `Directives.DecodeEntries` and the inverse `IndexRender.Unescape` only.
- PyPDF2 is not modelled; its results are inputs (`Pdf.PdfDoc`). A `None` stands for a call that raises.
- The command-line layer is not modelled: `click`, prompts, progress bars and logging.
- The keywords file is not read. Its content is an input, and a missing file is `None`.
- The paths in `\includepdf` and the document title are not modelled. An include is modelled by its source and its `addtotoc` value only.
- Directories matched by `glob('*')` are not distinguished from files; a file is given by its name alone. Comparing two `Path`s in the same directory compares their names, which is what the model sorts.
- Text.Lower: maps case in the ASCII range only. Python's `str.lower()` also maps other letters, so non-ASCII keywords and sort keys are not modelled exactly.
- Text.IsDigit: accepts ASCII digits only. Python's `\d` also matches other decimal digits.
- Naming.TitleCase: models `str.title()` on ASCII letters only. Other cased characters are treated as uncased.
- Toc.CreateMasterLatex: builds directives with the chapter title as the script chooses it, not with the corrected `Toc.CleanChapterDirective`. This keeps the loop faithful to the script; the corrected directive is stated and proved separately.

## Findings

| source | as written | input that shows it | evidently intended | confidence | as-written member | corrected member |
|---|---|---|---|---|---|---|
| scripts/merger.py:364-368 | the chapter title goes into the comma-separated `addtotoc` entry unchanged. Only bookmark titles have their commas replaced (line 119) | a chapter whose page 1 starts with "Chapter 2: Data, Models" and whose outline has no chapter match; or a chapter whose PDF cannot be read, from a file named `data,_models.docx` | commas in the chapter title replaced by spaces and the title stripped, as for bookmark titles, so that the directive reads back as one chapter entry | medium, not executed | `Toc.CommaTitleBreaksDirective`, `Toc.UnopenedCommaName` | `Toc.CleanDirectiveRoundTrip` |
| scripts/merger.py:64-65 | a `.pdf` input is given its own file as the output path, but `chapter['pdf']` is set only in the conversion branch (line 98) | an input folder holding `notes.pdf` | the `.pdf` input attached as its own PDF, so that it is indexed and included | high, not executed | `Conversion.PdfInputNeverIncluded` | `Conversion.PdfInputIncluded` |
