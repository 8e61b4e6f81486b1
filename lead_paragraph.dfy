/** The lead-paragraph exercise of src/pages/Week5.tsx: the paragraph is written in three parts
    (origin, analysis, suggestion) and the page judges each part's length and the length of the
    whole. */
module LeadParagraph {
  import opened Strings

  /** What the page derives from the three parts. */
  datatype Assessment = Assessment(fullText: string, charCount: nat, hasOrigin: bool,
                                   hasAnalysis: bool, hasSuggestion: bool, isLengthOk: bool)

  const MinOrigin := 10
  const MinAnalysis := 20
  const MinSuggestion := 10
  const MinLength := 150
  const MaxLength := 300

  /** The whole paragraph is the three parts joined by single spaces and trimmed; each part must
      be strictly longer than its threshold; the whole must be 150 to 300 characters, both
      included. Lengths count every character, whitespace included. */
  function Assess(origin: string, analysis: string, suggestion: string): (r: Assessment)
    ensures r.fullText == Trim(origin + " " + analysis + " " + suggestion)
    ensures r.charCount == |r.fullText| && IsTrimmed(r.fullText)
    ensures r.hasOrigin <==> |origin| >= MinOrigin + 1
    ensures r.hasAnalysis <==> |analysis| >= MinAnalysis + 1
    ensures r.hasSuggestion <==> |suggestion| >= MinSuggestion + 1
    ensures r.isLengthOk <==> MinLength <= r.charCount <= MaxLength
  {
    var fullText := Trim(origin + " " + analysis + " " + suggestion);
    Assessment(fullText, |fullText|, |origin| > MinOrigin, |analysis| > MinAnalysis,
               |suggestion| > MinSuggestion, |fullText| >= MinLength && |fullText| <= MaxLength)
  }

  /** The count includes at most the two joining spaces beyond the parts' own characters, and
      never loses a character that is not whitespace. */
  lemma CountBounds(origin: string, analysis: string, suggestion: string)
    ensures var n := Assess(origin, analysis, suggestion).charCount;
      |Visible(origin)| + |Visible(analysis)| + |Visible(suggestion)| <= n <= |origin| + |analysis| + |suggestion| + 2
  {
    var joined := origin + " " + analysis + " " + suggestion;
    TrimKeepsVisible(joined);
    VisibleAppend(origin + " " + analysis + " ", suggestion);
    VisibleAppend(origin + " " + analysis, " ");
    VisibleAppend(origin + " ", analysis);
    VisibleAppend(origin, " ");
    assert Visible(" ") == [];
    assert |Visible(Trim(joined))| <= |Trim(joined)|;
  }

  /** When the origin does not start and the suggestion does not end with whitespace, nothing is
      trimmed: the count is the parts' lengths plus the two joining spaces. */
  lemma ExactCount(origin: string, analysis: string, suggestion: string)
    requires origin != [] && !IsWS(origin[0])
    requires suggestion != [] && !IsWS(suggestion[|suggestion| - 1])
    ensures Assess(origin, analysis, suggestion).charCount == |origin| + |analysis| + |suggestion| + 2
  {
    var joined := origin + " " + analysis + " " + suggestion;
    assert joined[0] == origin[0];
    assert joined[|joined| - 1] == suggestion[|suggestion| - 1];
    TrimOfTrimmed(joined);
  }

  /** The part checks count whitespace: parts of blanks pass them while the paragraph is empty. */
  lemma BlankPartsPass()
    ensures var r := Assess(seq(11, _ => ' '), seq(21, _ => ' '), seq(11, _ => ' '));
      r.hasOrigin && r.hasAnalysis && r.hasSuggestion && r.charCount == 0 && !r.isLengthOk
  {
    var joined := seq(11, _ => ' ') + " " + seq(21, _ => ' ') + " " + seq(11, _ => ' ');
    assert AllWS(joined);
    TrimEmptyIffAllWS(joined);
  }
}
