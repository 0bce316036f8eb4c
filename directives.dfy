/**
 * The `addtotoc` entries that the merger hands to LaTeX's pdfpages package:
 * five comma-separated fields "page,level,depth,title,label", several entries
 * joined by ", ". The decoder models only the comma structure of that option:
 * split at every comma, trim each field, take the fields five at a time.
 * How TeX itself treats special characters in the fields (`%`, braces,
 * backslashes and the like) is not part of it.
 */
module Directives {
  import opened Options
  import opened Text

  /** A table-of-contents level with the depth LaTeX gives it. */
  datatype Level = Chapter | Section | Subsection {
    function Name(): string {
      match this
      case Chapter => "chapter"
      case Section => "section"
      case Subsection => "subsection"
    }

    function Depth(): nat {
      match this
      case Chapter => 0
      case Section => 1
      case Subsection => 2
    }
  }

  /** One entry: the page within the included PDF (1-based), the level, the title and the label (a LaTeX label). */
  datatype TocEntry = TocEntry(page: nat, level: Level, title: string, tag: string)

  predicate IsComma(c: char) {
    c == ','
  }

  /** A field followed by a comma and the rest of the entry. */
  function Field(x: string, rest: string): string {
    x + "," + rest
  }

  /** f"{page},{level},{depth},{title},{label}". */
  function RenderEntry(e: TocEntry): string {
    Field(NatToString(e.page), Field(e.level.Name(), Field(NatToString(e.level.Depth()), Field(e.title, e.tag))))
  }

  /** ", ".join of the rendered entries. */
  function RenderEntries(es: seq<TocEntry>): string {
    Join(seq(|es|, i requires 0 <= i < |es| => RenderEntry(es[i])), ", ")
  }

  function ParseLevel(s: string): Option<Level> {
    if s == "chapter" then Some(Chapter)
    else if s == "section" then Some(Section)
    else if s == "subsection" then Some(Subsection)
    else None
  }

  predicate IsNumeral(s: string) {
    s != [] && forall i :: 0 <= i < |s| ==> IsDigit(s[i])
  }

  /** Five trimmed fields read back as an entry; the depth must agree with the level. */
  function DecodeEntry(f: seq<string>): Option<TocEntry>
    requires |f| == 5
  {
    var level := ParseLevel(f[1]);
    if IsNumeral(f[0]) && level.Some? && f[2] == NatToString(level.value.Depth()) then
      Some(TocEntry(DigitsValue(f[0]), level.value, f[3], f[4]))
    else
      None
  }

  function DecodeFields(fs: seq<string>): Option<seq<TocEntry>>
    decreases |fs|
  {
    if fs == [] then Some([])
    else if |fs| < 5 then None
    else
      match DecodeEntry(fs[..5])
      case None => None
      case Some(e) =>
        match DecodeFields(fs[5..])
        case None => None
        case Some(rest) => Some([e] + rest)
  }

  function StripAll(fs: seq<string>): (r: seq<string>)
    ensures |r| == |fs|
    ensures forall i :: 0 <= i < |fs| ==> r[i] == Strip(fs[i])
  {
    seq(|fs|, i requires 0 <= i < |fs| => Strip(fs[i]))
  }

  /** The comma structure of an `addtotoc` value: the fields split at commas, trimmed, five to an entry. */
  function DecodeEntries(s: string): Option<seq<TocEntry>> {
    if s == "" then Some([]) else DecodeFields(StripAll(SplitOn(s, IsComma)))
  }

  predicate IsTrimmed(s: string) {
    s == [] || (!IsSpace(s[0]) && !IsSpace(s[|s| - 1]))
  }

  /**
   * An entry survives the comma-separated encoding when its free-text fields
   * hold no comma and no surrounding whitespace.
   */
  predicate Encodable(e: TocEntry) {
    ',' !in e.title && ',' !in e.tag && IsTrimmed(e.title) && IsTrimmed(e.tag)
  }

  // ---------------------------------------------------------------------------
  // Splitting facts

  lemma SplitOnNoSep(x: string)
    requires ',' !in x
    ensures SplitOn(x, IsComma) == [x]
  {
    SplitOnNone(x, IsComma);
  }

  lemma SplitOnSep(x: string, y: string)
    ensures SplitOn(Field(x, y), IsComma) == SplitOn(x, IsComma) + SplitOn(y, IsComma)
  {
    assert Field(x, y) == x + [','] + y;
    SplitOnAround(x, ',', y, IsComma);
  }

  /** A leading character that is not a comma joins the first piece. */
  lemma SplitOnCons(c: char, y: string)
    requires c != ','
    ensures var r := SplitOn(y, IsComma); SplitOn([c] + y, IsComma) == [[c] + r[0]] + r[1..]
  {
    assert ([c] + y)[1..] == y;
  }

  function EntryFields(e: TocEntry): seq<string> {
    [NatToString(e.page), e.level.Name(), NatToString(e.level.Depth()), e.title, e.tag]
  }

  lemma NumeralHasNoComma(n: nat)
    ensures ',' !in NatToString(n)
  {
    var r := NatToString(n);
    forall i | 0 <= i < |r| ensures r[i] != ',' {
      assert IsDigit(r[i]);
    }
  }

  /** A field without a comma is the first piece. */
  lemma SplitField(f: string, rest: string)
    requires ',' !in f
    ensures SplitOn(Field(f, rest), IsComma) == [f] + SplitOn(rest, IsComma)
  {
    SplitOnNoSep(f);
    SplitOnSep(f, rest);
  }

  lemma SplitFive(f0: string, f1: string, f2: string, f3: string, f4: string)
    requires ',' !in f0 && ',' !in f1 && ',' !in f2 && ',' !in f3 && ',' !in f4
    ensures SplitOn(Field(f0, Field(f1, Field(f2, Field(f3, f4)))), IsComma) == [f0, f1, f2, f3, f4]
  {
    var r3 := Field(f3, f4);
    var r2 := Field(f2, r3);
    var r1 := Field(f1, r2);
    SplitOnNoSep(f4);
    SplitField(f3, f4);
    SplitField(f2, r3);
    SplitField(f1, r2);
    SplitField(f0, r1);
  }

  lemma SplitRenderedEntry(e: TocEntry)
    requires Encodable(e)
    ensures SplitOn(RenderEntry(e), IsComma) == EntryFields(e)
  {
    NumeralHasNoComma(e.page);
    NumeralHasNoComma(e.level.Depth());
    assert ',' !in e.level.Name();
    SplitFive(NatToString(e.page), e.level.Name(), NatToString(e.level.Depth()), e.title, e.tag);
  }

  /** The fields of several rendered entries, the first field of every later entry keeping the space of ", ". */
  function SpacedFields(es: seq<TocEntry>): seq<string>
    requires |es| > 0
  {
    if |es| == 1 then EntryFields(es[0])
    else EntryFields(es[0]) + SpacedTail(SpacedFields(es[1..]))
  }

  function SpacedTail(fs: seq<string>): seq<string>
    requires |fs| > 0
  {
    [" " + fs[0]] + fs[1..]
  }

  /** A rendered entry followed by ", " and more splits into its fields and the spaced pieces of the rest. */
  lemma SplitJoined(first: string, rest: string)
    ensures SplitOn(Field(first, " " + rest), IsComma) == SplitOn(first, IsComma) + SpacedTail(SplitOn(rest, IsComma))
  {
    SplitOnSep(first, " " + rest);
    SplitOnCons(' ', rest);
  }

  lemma {:induction false} SplitRenderedEntries(es: seq<TocEntry>)
    requires |es| > 0
    requires forall i :: 0 <= i < |es| ==> Encodable(es[i])
    ensures RenderEntries(es) != ""
    ensures SplitOn(RenderEntries(es), IsComma) == SpacedFields(es)
    ensures |SpacedFields(es)| == 5 * |es|
    decreases |es|
  {
    SpacedFieldsLength(es);
    RenderEntriesCons(es[0], es[1..]);
    assert [es[0]] + es[1..] == es;
    if |es| == 1 {
      SplitRenderedEntry(es[0]);
    } else {
      SplitRenderedEntries(es[1..]);
      SplitRenderedCons(es[0], es[1..]);
    }
  }

  /** ", " is a comma and then a space. */
  lemma CommaSpace(a: string, b: string)
    ensures a + ", " + b == Field(a, " " + b)
  {
  }

  /** One step of the split: the first entry's fields, then the spaced fields of the rest. */
  lemma SplitRenderedCons(e: TocEntry, tail: seq<TocEntry>)
    requires Encodable(e) && tail != []
    requires SplitOn(RenderEntries(tail), IsComma) == SpacedFields(tail)
    ensures SplitOn(RenderEntries([e] + tail), IsComma) == SpacedFields([e] + tail)
  {
    var rest := RenderEntries(tail);
    SplitRenderedEntry(e);
    RenderEntriesCons(e, tail);
    CommaSpace(RenderEntry(e), rest);
    SplitJoined(RenderEntry(e), rest);
    assert ([e] + tail)[0] == e && ([e] + tail)[1..] == tail;
  }

  lemma {:induction false} SpacedFieldsLength(es: seq<TocEntry>)
    requires |es| > 0
    ensures |SpacedFields(es)| == 5 * |es|
    decreases |es|
  {
    if |es| > 1 {
      SpacedFieldsLength(es[1..]);
    }
  }

  lemma StripSpaced(x: string)
    requires IsTrimmed(x)
    ensures Strip(" " + x) == x
  {
    StripSkipsLeadingSpace(" " + x, 1);
    assert (" " + x)[1..] == x;
    StripTrimmed(x);
  }

  /** The fields of the entries, five per entry. */
  function AllFields(es: seq<TocEntry>): (r: seq<string>)
    ensures |r| == 5 * |es|
  {
    if es == [] then [] else EntryFields(es[0]) + AllFields(es[1..])
  }

  lemma NumeralTrimmed(n: nat)
    ensures IsTrimmed(NatToString(n))
  {
    var r := NatToString(n);
    assert IsDigit(r[0]) && IsDigit(r[|r| - 1]);
  }

  lemma EntryFieldsTrimmed(e: TocEntry)
    requires Encodable(e)
    ensures forall i :: 0 <= i < 5 ==> IsTrimmed(EntryFields(e)[i])
  {
    NumeralTrimmed(e.page);
    NumeralTrimmed(e.level.Depth());
    assert IsTrimmed(e.level.Name());
  }

  lemma StripAllTrimmed(fs: seq<string>)
    requires forall i :: 0 <= i < |fs| ==> IsTrimmed(fs[i])
    ensures StripAll(fs) == fs
  {
    forall i | 0 <= i < |fs| ensures StripAll(fs)[i] == fs[i] {
      StripTrimmed(fs[i]);
    }
  }

  lemma StripAllAppend(xs: seq<string>, ys: seq<string>)
    ensures StripAll(xs + ys) == StripAll(xs) + StripAll(ys)
  {
  }

  lemma {:induction false} SpacedFieldsShape(es: seq<TocEntry>)
    requires |es| > 0
    ensures |SpacedFields(es)| == 5 * |es|
    ensures SpacedFields(es)[0] == NatToString(es[0].page)
    decreases |es|
  {
    if |es| > 1 {
      SpacedFieldsShape(es[1..]);
    }
  }

  lemma StripSpacedTail(fs: seq<string>)
    requires |fs| > 0 && IsTrimmed(fs[0])
    ensures StripAll(SpacedTail(fs)) == StripAll(fs)
  {
    StripSpaced(fs[0]);
    StripTrimmed(fs[0]);
    var t := SpacedTail(fs);
    forall i | 0 <= i < |fs| ensures StripAll(t)[i] == StripAll(fs)[i] {
      if i > 0 {
        assert t[i] == fs[i];
      }
    }
  }

  lemma {:induction false} StripSpacedFields(es: seq<TocEntry>)
    requires |es| > 0
    requires forall i :: 0 <= i < |es| ==> Encodable(es[i])
    ensures StripAll(SpacedFields(es)) == AllFields(es)
    decreases |es|
  {
    var e := es[0];
    EntryFieldsTrimmed(e);
    StripAllTrimmed(EntryFields(e));
    if |es| > 1 {
      var tail := SpacedFields(es[1..]);
      StripSpacedFields(es[1..]);
      SpacedFieldsShape(es[1..]);
      NumeralTrimmed(es[1].page);
      StripSpacedTail(tail);
      StripAllAppend(EntryFields(e), SpacedTail(tail));
    } else {
      assert AllFields(es) == EntryFields(e) + [];
    }
  }

  lemma {:induction false} DecodeAllFields(es: seq<TocEntry>)
    ensures DecodeFields(AllFields(es)) == Some(es)
    decreases |es|
  {
    if es != [] {
      var e := es[0];
      var fs := AllFields(es);
      assert fs[..5] == EntryFields(e);
      assert fs[5..] == AllFields(es[1..]);
      DecodeEntryFields(e);
      DecodeAllFields(es[1..]);
      assert [e] + es[1..] == es;
    }
  }

  /** The five fields of one entry decode back to it. */
  lemma DecodeEntryFields(e: TocEntry)
    ensures DecodeEntry(EntryFields(e)) == Some(e)
  {
    NatToStringRoundTrip(e.page);
  }

  /**
   * Reading the rendered `addtotoc` string back gives the entries, whenever no
   * title or label holds a comma or surrounding whitespace.
   */
  lemma DecodeRenderRoundTrip(es: seq<TocEntry>)
    requires forall i :: 0 <= i < |es| ==> Encodable(es[i])
    ensures DecodeEntries(RenderEntries(es)) == Some(es)
  {
    if es != [] {
      SplitRenderedEntries(es);
      StripSpacedFields(es);
      DecodeAllFields(es);
    }
  }

  predicate TitlesCommaFree(es: seq<TocEntry>) {
    forall i :: 0 <= i < |es| ==> ',' !in es[i].title
  }

  lemma {:induction false} DecodeFieldsCommaFree(fs: seq<string>)
    requires forall i :: 0 <= i < |fs| ==> ',' !in fs[i]
    ensures DecodeFields(fs).Some? ==> TitlesCommaFree(DecodeFields(fs).value)
    decreases |fs|
  {
    if |fs| >= 5 && DecodeEntry(fs[..5]).Some? {
      assert fs[..5][3] == fs[3];
      DecodeFieldsCommaFree(fs[5..]);
      assert forall i :: 0 <= i < |fs[5..]| ==> fs[5..][i] == fs[i + 5];
    }
  }

  /** The decoder never yields a title holding a comma: the comma always ends a field. */
  lemma DecodedTitlesCommaFree(s: string)
    ensures DecodeEntries(s).Some? ==> TitlesCommaFree(DecodeEntries(s).value)
  {
    if s != "" {
      var pieces := SplitOn(s, IsComma);
      var fs := StripAll(pieces);
      forall i | 0 <= i < |fs| ensures ',' !in fs[i] {
        if ',' in fs[i] {
          StripChars(pieces[i], ',');
        }
      }
      DecodeFieldsCommaFree(fs);
    }
  }

  /** Appending entries is appending their rendered text after ", "; no entries render as "". */
  lemma {:induction false} RenderEntriesCons(e: TocEntry, es: seq<TocEntry>)
    ensures RenderEntries([e] + es) == if es == [] then RenderEntry(e) else RenderEntry(e) + ", " + RenderEntries(es)
  {
    var all := [e] + es;
    var parts := seq(|all|, i requires 0 <= i < |all| => RenderEntry(all[i]));
    var tailParts := seq(|es|, i requires 0 <= i < |es| => RenderEntry(es[i]));
    assert parts[1..] == tailParts;
  }

  lemma RenderEntriesEmpty(es: seq<TocEntry>)
    ensures RenderEntries(es) == "" <==> es == []
  {
    if es != [] {
      RenderEntriesCons(es[0], es[1..]);
      assert [es[0]] + es[1..] == es;
    }
  }
}
