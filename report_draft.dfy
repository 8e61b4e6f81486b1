/** The report-writing page of src/pages/Week6.tsx: the first tab shown and the first draft
    written out from an outline. The outline type is declared in a module that is not part of
    this model; its shape is read off its uses here. */
module ReportDraft {
  import opened Strings

  /** A first-level heading with its second-level points. */
  datatype Section = Section(lvl1: string, lvl2: seq<string>)

  datatype Outline = Outline(title: string, sections: seq<Section>)

  datatype Tab = Perspective | Report

  /** The page opens on the report tab exactly when it was handed an outline. */
  function InitialTab(outline: Option<Outline>): Tab {
    if outline.Some? then Report else Perspective
  }

  /** The heading number of the section at `idx`: 一 to 五 for the first five, then decimal. */
  function Numeral(idx: nat): (r: string)
    ensures r != []
  {
    if idx < 5 then ["一", "二", "三", "四", "五"][idx] else NatToString(idx + 1)
  }

  /** The number of the point at `idx` within its section: 一 to 三 for the first three, then
      decimal. */
  function SubNumeral(idx: nat): (r: string)
    ensures r != []
  {
    if idx < 3 then ["一", "二", "三"][idx] else NatToString(idx + 1)
  }

  /** No two sections share a heading number, and no two points of a section share one. */
  lemma NumeralsDistinct(i: nat, j: nat)
    requires i != j
    ensures Numeral(i) != Numeral(j)
    ensures SubNumeral(i) != SubNumeral(j)
  {
    DecimalsDistinct(i, j);
    if i >= 3 {
      assert IsDigit(NatToString(i + 1)[0]);
    }
    if j >= 3 {
      assert IsDigit(NatToString(j + 1)[0]);
    }
  }

  lemma DecimalsDistinct(i: nat, j: nat)
    requires i != j
    ensures NatToString(i + 1) != NatToString(j + 1)
  {
    if NatToString(i + 1) == NatToString(j + 1) {
      NatToStringInjective(i + 1, j + 1);
    }
  }

  /** The point at `idx`, indented, numbered in parentheses and followed by an empty line. */
  function PointLine(idx: nat, point: string): string {
    "  （" + SubNumeral(idx) + "）" + point + "\n\n"
  }

  /** The text of the first `n` points of a section. */
  function PointsText(points: seq<string>, n: nat): string
    requires n <= |points|
  {
    if n == 0 then "" else PointsText(points, n - 1) + PointLine(n - 1, points[n - 1])
  }

  /** The numbered heading line of the section at `idx`. */
  function HeadingLine(idx: nat, lvl1: string): string {
    Numeral(idx) + "、" + lvl1 + "\n"
  }

  /** The text of the section at `idx`: its heading line, then its points. */
  function SectionText(idx: nat, section: Section): string {
    HeadingLine(idx, section.lvl1) + PointsText(section.lvl2, |section.lvl2|)
  }

  /** The text of the first `n` sections. */
  function SectionsText(sections: seq<Section>, n: nat): string
    requires n <= |sections|
  {
    if n == 0 then "" else SectionsText(sections, n - 1) + SectionText(n - 1, sections[n - 1])
  }

  /** The first draft: nothing without an outline; otherwise the title, an empty line and the
      sections in order. */
  function Draft(outline: Option<Outline>): string {
    if outline.None? then ""
    else outline.value.title + "\n\n" + SectionsText(outline.value.sections, |outline.value.sections|)
  }

  /** The inner pass of the draft builder: the points of one section appended to `text`. */
  method AppendPoints(text: string, points: seq<string>) returns (r: string)
    ensures r == text + PointsText(points, |points|)
  {
    r := text;
    for sIdx := 0 to |points|
      invariant r == text + PointsText(points, sIdx)
    {
      var line := "  （" + SubNumeral(sIdx) + "）" + points[sIdx] + "\n\n";
      assert line == PointLine(sIdx, points[sIdx]);
      r := r + line;
      AppendAssoc(text, PointsText(points, sIdx), PointLine(sIdx, points[sIdx]));
    }
  }

  /** One step of the outer pass: the heading line of the section at `idx`, then its points. */
  method AppendSection(text: string, idx: nat, sec: Section) returns (r: string)
    ensures r == text + SectionText(idx, sec)
  {
    r := AppendPoints(text + Numeral(idx) + "、" + sec.lvl1 + "\n", sec.lvl2);
    AppendAssoc(text, HeadingLine(idx, sec.lvl1), PointsText(sec.lvl2, |sec.lvl2|));
  }

  /** The draft builder of `ReportWriting`: one pass over the sections, and for each one a pass
      over its points, appending as it goes. */
  method InitialDraft(outline: Option<Outline>) returns (text: string)
    ensures text == Draft(outline)
  {
    if outline.None? {
      return "";
    }
    var sections := outline.value.sections;
    var title := outline.value.title;
    var head := title + "\n\n";
    text := head;
    for idx := 0 to |sections|
      invariant text == head + SectionsText(sections, idx)
    {
      text := AppendSection(text, idx, sections[idx]);
      AppendAssoc(head, SectionsText(sections, idx), SectionText(idx, sections[idx]));
    }
  }

  /** The draft is empty exactly when there is no outline, which is exactly when the page
      opens on the other tab; with an outline it starts with the title and an empty line. */
  lemma DraftOpens(outline: Option<Outline>)
    ensures Draft(outline) == "" <==> InitialTab(outline) == Perspective
    ensures outline.Some? ==> StartsWith(Draft(outline), outline.value.title + "\n\n")
  {
    if outline.Some? {
      var head := outline.value.title + "\n\n";
      assert Draft(outline)[..|head|] == head;
    }
  }

  /** Sections are written in the order given: the text of the first `n` sections begins with
      the text of the first `i` and then the section at `i`. */
  lemma {:induction false} SectionsInOrder(sections: seq<Section>, i: nat, n: nat)
    requires i < n <= |sections|
    ensures StartsWith(SectionsText(sections, n), SectionsText(sections, i) + SectionText(i, sections[i]))
  {
    var p := SectionsText(sections, i) + SectionText(i, sections[i]);
    if n == i + 1 {
      assert SectionsText(sections, n) == p;
      StartsWithSelf(p);
    } else {
      SectionsInOrder(sections, i, n - 1);
      StartsWithExtended(SectionsText(sections, n - 1), SectionText(n - 1, sections[n - 1]), p);
    }
  }

  /** Points are written in the order given in the same way. */
  lemma {:induction false} PointsInOrder(points: seq<string>, i: nat, n: nat)
    requires i < n <= |points|
    ensures StartsWith(PointsText(points, n), PointsText(points, i + 1))
  {
    if n > i + 1 {
      PointsInOrder(points, i, n - 1);
      StartsWithExtended(PointsText(points, n - 1), PointLine(n - 1, points[n - 1]), PointsText(points, i + 1));
    } else {
      StartsWithSelf(PointsText(points, n));
    }
  }
}
