/**
 * The naming rules of the merger (scripts/merger.py): which files of the input
 * directory become chapters, in what order and under what display name
 * (`scan_documents`), and the `.pdf` suffix of the final document
 * (`compile_final_pdf`). A file is given by its name, the final component of
 * its path; letters change case in the ASCII range only.
 */
module Naming {
  import opened Options
  import opened Text
  import opened Pdf
  import opened Sorting

  // ---------------------------------------------------------------------------
  // pathlib's suffix and stem

  /** `name.rfind(c)`: the last position of `c`, or -1. */
  function RFind(s: string, c: char): (r: int)
    ensures -1 <= r < |s|
    ensures r == -1 ==> c !in s
    ensures 0 <= r ==> s[r] == c && c !in s[r + 1..]
    decreases |s|
  {
    if s == [] then -1
    else if s[|s| - 1] == c then |s| - 1
    else
      var r := RFind(s[..|s| - 1], c);
      assert s == s[..|s| - 1] + [s[|s| - 1]];
      r
  }

  /** `Path.suffix`: from the last dot on, unless that dot is the first or the last character. */
  function Suffix(name: string): string {
    var i := RFind(name, '.');
    if 0 < i < |name| - 1 then name[i..] else ""
  }

  /** `Path.stem`: the name without its suffix. */
  function Stem(name: string): string {
    var i := RFind(name, '.');
    if 0 < i < |name| - 1 then name[..i] else name
  }

  /** The stem and the suffix split the name. */
  lemma StemSuffix(name: string)
    ensures Stem(name) + Suffix(name) == name
    ensures Suffix(name) == "" ==> Stem(name) == name
  {
  }

  /**
   * A name with a non-empty part before its last dot and a non-empty part
   * after it has that dot and what follows as its suffix; any other name has
   * none.
   */
  lemma SuffixShape(name: string, x: string, y: string)
    ensures name == x + "." + y && x != [] && y != [] && '.' !in y ==>
      Suffix(name) == "." + y && Stem(name) == x
    ensures ('.' !in name || (name == "." + y && '.' !in y) || name == x + ".") ==>
      Suffix(name) == ""
  {
    if name == x + "." + y && x != [] && y != [] && '.' !in y {
      var i := RFind(name, '.');
      assert name[|x|] == '.';
      assert name[|x| + 1..] == y;
      assert name[i..] == "." + y;
      assert name[..i] == x;
    }
  }

  // ---------------------------------------------------------------------------
  // str.title()

  /** A letter: the characters that `str.title()` treats as cased. */
  predicate IsCased(c: char) {
    'a' <= c <= 'z' || 'A' <= c <= 'Z'
  }

  /** A character after a cased one is lower-cased, any other is upper-cased. */
  function CaseAfter(c: char, prevCased: bool): char {
    if prevCased then LowerChar(c) else UpperChar(c)
  }

  function TitleFrom(s: string, prevCased: bool): (r: string)
    ensures |r| == |s|
    decreases |s|
  {
    if s == [] then [] else [CaseAfter(s[0], prevCased)] + TitleFrom(s[1..], IsCased(s[0]))
  }

  /** `s.title()`. */
  function TitleCase(s: string): (r: string)
    ensures |r| == |s|
  {
    TitleFrom(s, false)
  }

  lemma {:induction false} TitleFromAt(s: string, p: bool, i: nat)
    requires i < |s|
    ensures TitleFrom(s, p)[i] == CaseAfter(s[i], if i == 0 then p else IsCased(s[i - 1]))
    decreases i
  {
    if i > 0 {
      TitleFromAt(s[1..], IsCased(s[0]), i - 1);
      if i > 1 {
        assert s[1..][i - 2] == s[i - 1];
      }
    }
  }

  /**
   * Each character of `s.title()`: upper-cased at the start of the string and
   * after a character that is not a letter, lower-cased after a letter.
   */
  lemma TitleCaseAt(s: string, i: nat)
    requires i < |s|
    ensures TitleCase(s)[i] == if i > 0 && IsCased(s[i - 1]) then LowerChar(s[i]) else UpperChar(s[i])
  {
    TitleFromAt(s, false, i);
  }

  lemma {:induction false} TitleFromIdempotent(s: string, p: bool)
    ensures TitleFrom(TitleFrom(s, p), p) == TitleFrom(s, p)
    decreases |s|
  {
    if s != [] {
      var r := TitleFrom(s, p);
      TitleFromIdempotent(s[1..], IsCased(s[0]));
      assert r[0] == CaseAfter(s[0], p);
      assert r[1..] == TitleFrom(s[1..], IsCased(s[0]));
    }
  }

  /** Title-casing a title-cased string changes nothing. */
  lemma TitleCaseIdempotent(s: string)
    ensures TitleCase(TitleCase(s)) == TitleCase(s)
  {
    TitleFromIdempotent(s, false);
  }

  /** Title-casing changes only the case of letters. */
  lemma TitleCaseSameLetters(s: string)
    ensures Lower(TitleCase(s)) == Lower(s)
  {
    forall i | 0 <= i < |s| ensures Lower(TitleCase(s))[i] == Lower(s)[i] {
      TitleCaseAt(s, i);
    }
  }

  // ---------------------------------------------------------------------------
  // scan_documents

  /** `file_path.stem.replace('_', ' ').title()`. */
  function DisplayName(name: string): string {
    TitleCase(ReplaceChar(Stem(name), '_', ' '))
  }

  /** The display name is the stem with every underscore turned into a space and only case changed otherwise. */
  lemma DisplayNameShape(name: string)
    ensures |DisplayName(name)| == |Stem(name)|
    ensures '_' !in DisplayName(name)
    ensures Lower(DisplayName(name)) == Lower(ReplaceChar(Stem(name), '_', ' '))
  {
    var u := ReplaceChar(Stem(name), '_', ' ');
    TitleCaseSameLetters(u);
    forall i | 0 <= i < |u| ensures DisplayName(name)[i] != '_' {
      TitleCaseAt(u, i);
    }
  }

  const SupportedFormats: set<string> := {".pdf", ".docx", ".tex", ".md", ".doc"}

  /** `file_path.suffix.lower() in supported_formats`. */
  predicate IsSupported(name: string) {
    Lower(Suffix(name)) in SupportedFormats
  }

  /** A name with no suffix is never picked: no dot, a hidden file such as `.md`, or a trailing dot. */
  lemma NoSuffixNotSupported(name: string, x: string, y: string)
    requires '.' !in name || (name == "." + y && '.' !in y) || name == x + "."
    ensures !IsSupported(name)
  {
    SuffixShape(name, x, y);
    assert Lower("") == "";
  }

  /** The entry appended for a supported file; conversion attaches its pdf later. */
  function ChapterOf(name: string): Chapter {
    Chapter(name, DisplayName(name), Lower(Suffix(name)), None)
  }

  /** What one file contributes: its chapter when its format is supported, else nothing. */
  function Picked(name: string): seq<Chapter> {
    if IsSupported(name) then [ChapterOf(name)] else []
  }

  /** The chapters made from the files in the given order. */
  function Scanned(files: seq<string>): seq<Chapter>
    decreases |files|
  {
    if files == [] then [] else Picked(files[0]) + Scanned(files[1..])
  }

  lemma {:induction false} ScannedSnoc(files: seq<string>, f: string)
    ensures Scanned(files + [f]) == Scanned(files) + Picked(f)
    decreases |files|
  {
    if files == [] {
      assert Scanned([f]) == Picked(f) + Scanned([]);
    } else {
      assert (files + [f])[1..] == files[1..] + [f];
      ScannedSnoc(files[1..], f);
    }
  }

  /** Every chapter comes from a file of a supported format, with that file's display name and format. */
  lemma {:induction false} ScannedSound(files: seq<string>)
    ensures forall c :: c in Scanned(files) ==>
      c.original in files && IsSupported(c.original) && c.format in SupportedFormats && c == ChapterOf(c.original)
    decreases |files|
  {
    if files != [] {
      ScannedSound(files[1..]);
    }
  }

  /** Every file of a supported format gives a chapter. */
  lemma {:induction false} ScannedComplete(files: seq<string>)
    ensures forall f :: f in files && IsSupported(f) ==> ChapterOf(f) in Scanned(files)
    decreases |files|
  {
    if files != [] {
      ScannedComplete(files[1..]);
      assert forall f :: f in files ==> f == files[0] || f in files[1..];
    }
  }

  function Id(s: string): string {
    s
  }

  /** The first file, when no later file sorts below it, leads the chapters made from the rest. */
  lemma FirstFileLeads(files: seq<string>)
    requires files != []
    requires forall j :: 0 < j < |files| ==> LexLe(files[0], files[j])
    ensures forall j :: 0 <= j < |Scanned(files[1..])| ==> LexLe(files[0], Scanned(files[1..])[j].original)
  {
    var rest := Scanned(files[1..]);
    ScannedSound(files[1..]);
    forall j | 0 <= j < |rest| ensures LexLe(files[0], rest[j].original) {
      assert rest[j] in rest;
      var k :| 0 <= k < |files[1..]| && files[1..][k] == rest[j].original;
      assert files[k + 1] == rest[j].original;
    }
  }

  predicate OrderedChapters(cs: seq<Chapter>) {
    forall i, j :: 0 <= i < j < |cs| ==> LexLe(cs[i].original, cs[j].original)
  }

  /** Files given in order give chapters in that order. */
  lemma {:induction false} ScannedOrdered(files: seq<string>)
    requires SortedBy(Id, files)
    ensures OrderedChapters(Scanned(files))
    decreases |files|
  {
    if files != [] {
      SortedTail(Id, files);
      ScannedOrdered(files[1..]);
      var rest := Scanned(files[1..]);
      if IsSupported(files[0]) {
        assert forall j :: 0 < j < |files| ==> KeyLe(Id, files[0], files[j]);
        FirstFileLeads(files);
        var out := [ChapterOf(files[0])] + rest;
        forall i, j | 0 <= i < j < |out| ensures LexLe(out[i].original, out[j].original) {
          assert out[j] == rest[j - 1];
          if i > 0 {
            assert out[i] == rest[i - 1];
          }
        }
        assert Scanned(files) == out;
      } else {
        assert Scanned(files) == rest;
      }
    }
  }

  /**
   * `scan_documents` appends the supported files in sorted order: each
   * chapter comes from a supported file, each supported file gives one, and
   * their files are in Python's order of strings.
   */
  lemma ScanSpec(files: seq<string>)
    ensures forall c :: c in Scanned(SortBy(Id, files)) ==>
      c.original in files && c.format in SupportedFormats && c == ChapterOf(c.original)
    ensures forall f :: f in files && IsSupported(f) ==> ChapterOf(f) in Scanned(SortBy(Id, files))
    ensures OrderedChapters(Scanned(SortBy(Id, files)))
  {
    var sorted := SortBy(Id, files);
    ScannedSound(sorted);
    ScannedComplete(sorted);
    SortSorted(Id, files);
    ScannedOrdered(sorted);
  }

  lemma PrefixSnoc(s: seq<string>, i: nat)
    requires i < |s|
    ensures s[..i + 1] == s[..i] + [s[i]]
  {
  }

  /** The merger's list of chapters, as far as scanning fills it. */
  class DocumentMerger {
    var chapters: seq<Chapter>

    constructor()
      ensures chapters == []
    {
      chapters := [];
    }

    /** Appends one chapter per supported file of the directory, in sorted order. */
    method ScanDocuments(files: seq<string>)
      modifies this
      ensures chapters == old(chapters) + Scanned(SortBy(Id, files))
    {
      AppendScanned(SortBy(Id, files));
    }

    /** The loop of `scan_documents` over the files in the order given. */
    method AppendScanned(sorted: seq<string>)
      modifies this
      ensures chapters == old(chapters) + Scanned(sorted)
    {
      for i := 0 to |sorted|
        invariant chapters == old(chapters) + Scanned(sorted[..i])
      {
        var f := sorted[i];
        var format := Lower(Suffix(f));
        if format in SupportedFormats {
          var name := TitleCase(ReplaceChar(Stem(f), '_', ' '));
          assert Picked(f) == [Chapter(f, name, format, None)];
          chapters := chapters + [Chapter(f, name, format, None)];
        } else {
          assert Picked(f) == [];
        }
        ScannedSnoc(sorted[..i], f);
        PrefixSnoc(sorted, i);
      }
      assert sorted[..|sorted|] == sorted;
    }
  }

  // ---------------------------------------------------------------------------
  // compile_final_pdf

  predicate EndsWith(s: string, t: string) {
    |t| <= |s| && s[|s| - |t|..] == t
  }

  /** `final_name`, with ".pdf" appended unless it already ends so in any case. */
  function EnsurePdfSuffix(finalName: string): string {
    if EndsWith(Lower(finalName), ".pdf") then finalName else finalName + ".pdf"
  }

  lemma LowerAppendPdf(s: string)
    ensures Lower(s + ".pdf") == Lower(s) + ".pdf"
  {
  }

  /**
   * The final name always ends in ".pdf" ignoring case, is the given name when
   * that already does, and the given name with ".pdf" appended otherwise;
   * applying the rule twice changes nothing more.
   */
  lemma EnsurePdfSuffixSpec(finalName: string)
    ensures EndsWith(Lower(EnsurePdfSuffix(finalName)), ".pdf")
    ensures EndsWith(Lower(finalName), ".pdf") <==> EnsurePdfSuffix(finalName) == finalName
    ensures !EndsWith(Lower(finalName), ".pdf") ==> EnsurePdfSuffix(finalName) == finalName + ".pdf"
    ensures EnsurePdfSuffix(EnsurePdfSuffix(finalName)) == EnsurePdfSuffix(finalName)
  {
    if !EndsWith(Lower(finalName), ".pdf") {
      LowerAppendPdf(finalName);
      var l := Lower(finalName) + ".pdf";
      assert l[|l| - 4..] == ".pdf";
    }
  }
}
