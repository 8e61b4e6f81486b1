/** `cleanContent` and `splitIntoParagraphs` of src/lib/textImport.ts: the noise a text file
    brings along is stripped, then the text is cut into paragraphs at blank lines. Each
    global regular-expression replacement is a scan that, at every position, either removes
    a match and resumes after it or keeps one character, as `String.prototype.replace`
    does with a pattern that never matches the empty string. */
module Cleaning {
  import opened Strings

  // ---------------------------------------------------------------------------------
  // Control characters

  /** `[\x00-\x08\x0B\x0C\x0E-\x1F\x7F]`: C0 controls and DEL, but not tab, line feed or
      carriage return. */
  predicate IsControl(c: char) {
    c <= '\U{8}' || c == '\U{B}' || c == '\U{C}' || ('\U{E}' <= c <= '\U{1F}') || c == '\U{7F}'
  }

  function RemoveControls(s: string): (r: string)
    ensures forall k :: 0 <= k < |r| ==> !IsControl(r[k])
  {
    if s == [] then [] else (if IsControl(s[0]) then [] else [s[0]]) + RemoveControls(s[1..])
  }

  /** Text with no control character is unchanged, and the removal only takes characters
      away. */
  lemma {:induction false} RemoveControlsKeepsOthers(s: string)
    ensures multiset(RemoveControls(s)) <= multiset(s)
    ensures (forall k :: 0 <= k < |s| ==> !IsControl(s[k])) ==> RemoveControls(s) == s
  {
    if s != [] {
      RemoveControlsKeepsOthers(s[1..]);
      assert s == [s[0]] + s[1..];
    }
  }

  /** Every character that is not a control character (tab, line feed and carriage return
      among them) survives as often as it occurs. */
  lemma {:induction false} RemoveControlsCount(s: string, c: char)
    requires !IsControl(c)
    ensures multiset(RemoveControls(s))[c] == multiset(s)[c]
  {
    if s != [] {
      RemoveControlsCount(s[1..], c);
      var head := if IsControl(s[0]) then [] else [s[0]];
      assert RemoveControls(s) == head + RemoveControls(s[1..]);
      assert multiset(head)[c] == multiset([s[0]])[c];
      assert s == [s[0]] + s[1..];
    }
  }

  /** The removal works one character at a time, in order: a control character goes, any
      other character stays where it was. */
  lemma {:induction false} RemoveControlsAppend(a: string, b: string)
    ensures RemoveControls(a + b) == RemoveControls(a) + RemoveControls(b)
  {
    if a == [] {
      assert a + b == b;
    } else {
      assert (a + b)[1..] == a[1..] + b;
      RemoveControlsAppend(a[1..], b);
    }
  }

  lemma RemoveControlsOne(c: char)
    ensures RemoveControls([c]) == if IsControl(c) then [] else [c]
  {
  }

  // ---------------------------------------------------------------------------------
  // Page numbers: /第\s*\d+\s*页/g

  /** The first index at or after `i` that is not whitespace (`\s*` from `i`). */
  function SkipSpaces(s: string, i: nat): (j: nat)
    requires i <= |s|
    ensures i <= j <= |s|
    ensures forall m :: i <= m < j ==> IsWS(s[m])
    ensures j < |s| ==> !IsWS(s[j])
    decreases |s| - i
  {
    if i < |s| && IsWS(s[i]) then SkipSpaces(s, i + 1) else i
  }

  /** The first index at or after `i` that is not a digit (`\d*` from `i`). */
  function SkipDigits(s: string, i: nat): (j: nat)
    requires i <= |s|
    ensures i <= j <= |s|
    ensures forall m :: i <= m < j ==> IsDigit(s[m])
    ensures j < |s| ==> !IsDigit(s[j])
    decreases |s| - i
  {
    if i < |s| && IsDigit(s[i]) then SkipDigits(s, i + 1) else i
  }

  /** The length of the page marker at the start of `s`, or 0 when there is none. Whitespace
      and digits are disjoint, so the greedy match never needs to backtrack. */
  function PageMarkAt(s: string): (n: nat)
    ensures n <= |s|
  {
    if |s| == 0 || s[0] != '第' then 0
    else
      var i := SkipSpaces(s, 1);
      var j := SkipDigits(s, i);
      if j == i then 0
      else
        var k := SkipSpaces(s, j);
        if k < |s| && s[k] == '页' then k + 1 else 0
  }

  /** What a marker looks like: `第`, then whitespace and digits with at least one digit,
      then `页`. */
  lemma PageMarkShape(s: string)
    requires PageMarkAt(s) > 0
    ensures PageMarkAt(s) >= 3 && s[0] == '第' && s[PageMarkAt(s) - 1] == '页'
    ensures forall k :: 1 <= k < PageMarkAt(s) - 1 ==> IsWS(s[k]) || IsDigit(s[k])
    ensures exists k :: 1 <= k < PageMarkAt(s) - 1 && IsDigit(s[k])
  {
    var i := SkipSpaces(s, 1);
    assert IsDigit(s[i]);
  }

  function RemovePageMarks(s: string): string
    decreases |s|
  {
    if s == [] then []
    else if PageMarkAt(s) > 0 then RemovePageMarks(s[PageMarkAt(s)..])
    else [s[0]] + RemovePageMarks(s[1..])
  }

  /** Text without a `第` is left alone. */
  lemma {:induction false} RemovePageMarksWithoutMarker(s: string)
    requires '第' !in s
    ensures RemovePageMarks(s) == s
  {
    if s != [] {
      assert s[0] != '第';
      assert '第' !in s[1..] by { assert forall c :: c in s[1..] ==> c in s; }
      RemovePageMarksWithoutMarker(s[1..]);
    }
  }

  /** The scan keeps text before the first `第` as it is. */
  lemma {:induction false} RemovePageMarksPrefix(a: string, t: string)
    requires '第' !in a
    ensures RemovePageMarks(a + t) == a + RemovePageMarks(t)
  {
    if a == [] {
      assert a + t == t;
    } else {
      var s := a + t;
      assert s[0] == a[0] && s[0] != '第';
      assert PageMarkAt(s) == 0;
      assert s[1..] == a[1..] + t;
      assert RemovePageMarks(s) == [a[0]] + RemovePageMarks(a[1..] + t);
      assert '第' !in a[1..] by { assert forall c :: c in a[1..] ==> c in a; }
      RemovePageMarksPrefix(a[1..], t);
      calc {
        RemovePageMarks(s);
        [a[0]] + RemovePageMarks(a[1..] + t);
        [a[0]] + (a[1..] + RemovePageMarks(t));
        ([a[0]] + a[1..]) + RemovePageMarks(t);
        { assert [a[0]] + a[1..] == a; }
        a + RemovePageMarks(t);
      }
    }
  }

  /** A marker is dropped whole, and the scan goes on right after it. */
  lemma RemovePageMarksAtMark(t: string)
    requires PageMarkAt(t) > 0
    ensures RemovePageMarks(t) == RemovePageMarks(t[PageMarkAt(t)..])
  {
  }

  /** The replacement makes one pass: a marker the removal of another one brings together
      stays. */
  lemma PageMarkRemovalIsOnePass()
    ensures RemovePageMarks("第第1页1页") == "第1页"
  {
    var s := "第第1页1页";
    NoMarkAtDoubledStart();
    assert s[1..] == "第1页1页";
    MarkAtSecond();
    assert "第1页1页"[3..] == "1页";
    NoMarkInTail();
    assert RemovePageMarks(s) == [s[0]] + RemovePageMarks(s[1..]);
  }

  lemma NoMarkAtDoubledStart()
    ensures PageMarkAt("第第1页1页") == 0
  {
    var s := "第第1页1页";
    assert !IsWS(s[1]) && !IsDigit(s[1]);
    assert SkipSpaces(s, 1) == 1;
    assert SkipDigits(s, 1) == 1;
  }

  lemma MarkAtSecond()
    ensures PageMarkAt("第1页1页") == 3
  {
    var t := "第1页1页";
    assert t[0] == '第' && IsDigit(t[1]) && !IsWS(t[1]) && !IsDigit(t[2]) && !IsWS(t[2]) && t[2] == '页';
    assert SkipSpaces(t, 1) == 1;
    assert SkipDigits(t, 2) == 2;
    assert SkipDigits(t, 1) == 2;
    assert SkipSpaces(t, 2) == 2;
  }

  lemma NoMarkInTail()
    ensures RemovePageMarks("1页") == "1页"
  {
    RemovePageMarksWithoutMarker("1页");
  }

  // ---------------------------------------------------------------------------------
  // Markers that run to the end of the line: /本章未完.*/g and /待续.*/g

  /** How many characters a `.` matches from the start of `s`: up to a line terminator. */
  function LineRest(s: string): (n: nat)
    ensures n <= |s|
    ensures n < |s| ==> IsLineTerminator(s[n])
  {
    if |s| > 0 && !IsLineTerminator(s[0]) then 1 + LineRest(s[1..]) else 0
  }

  predicate LineFree(w: string) {
    forall k :: 0 <= k < |w| ==> !IsLineTerminator(w[k])
  }

  /** `s.replace(new RegExp(w + '.*', 'g'), '')` */
  function CutToLineEnd(s: string, w: string): string
    requires w != []
    decreases |s|
  {
    if s == [] then []
    else if StartsWith(s, w) then
      var t := s[|w|..];
      CutToLineEnd(t[LineRest(t)..], w)
    else [s[0]] + CutToLineEnd(s[1..], w)
  }

  lemma StartsWithHead(s: string, p: string)
    requires StartsWith(s, p) && p != []
    ensures s[0] == p[0]
  {
    assert s[..|p|][0] == s[0];
  }

  /** Right after a cut the text goes on with a line terminator, or ends. */
  lemma CutResumesAtLineEnd(s: string, w: string)
    requires w != [] && LineFree(w) && StartsWith(s, w)
    ensures forall v :: LineFree(v) && v != [] ==> !StartsWith(CutToLineEnd(s, w), v)
  {
    var t := s[|w|..];
    var rest := t[LineRest(t)..];
    if rest != [] {
      assert IsLineTerminator(rest[0]);
      if StartsWith(rest, w) {
        StartsWithHead(rest, w);
      }
      assert CutToLineEnd(s, w) == [rest[0]] + CutToLineEnd(rest[1..], w);
      forall v | LineFree(v) && v != [] ensures !StartsWith(CutToLineEnd(s, w), v) {
        if StartsWith(CutToLineEnd(s, w), v) {
          StartsWithHead(CutToLineEnd(s, w), v);
        }
      }
    }
  }

  /** A cut always resumes at a line terminator or at the end, and a line-free `v` never
      spans a line terminator, so text the cut produces starts with `v` only where the
      original text did. */
  lemma {:induction false} CutStartsWith(s: string, w: string, v: string)
    requires w != [] && LineFree(w) && LineFree(v)
    requires StartsWith(CutToLineEnd(s, w), v)
    ensures StartsWith(s, v)
    decreases |s|
  {
    if v != [] && s != [] {
      if StartsWith(s, w) {
        CutResumesAtLineEnd(s, w);
        assert false;
      } else {
        var out := CutToLineEnd(s, w);
        assert out == [s[0]] + CutToLineEnd(s[1..], w);
        assert out[1..][..|v| - 1] == out[..|v|][1..];
        CutStartsWith(s[1..], w, v[1..]);
        assert s[..|v|] == [s[0]] + s[1..][..|v| - 1];
      }
    }
  }

  /** The cut adds nothing: a line-free `v` is found in the cut text only if it was in the
      text before. */
  lemma {:induction false} CutContains(s: string, w: string, v: string)
    requires w != [] && LineFree(w) && LineFree(v)
    requires Contains(CutToLineEnd(s, w), v)
    ensures Contains(s, v)
    decreases |s|
  {
    var out := CutToLineEnd(s, w);
    if StartsWith(out, v) {
      CutStartsWith(s, w, v);
    } else if s != [] {
      if StartsWith(s, w) {
        var t := s[|w|..];
        var rest := t[LineRest(t)..];
        assert out == CutToLineEnd(rest, w);
        CutContains(rest, w, v);
        assert rest == s[|w| + LineRest(t)..];
        ContainsInSuffix(s, |w| + LineRest(t), v);
      } else {
        assert out == [s[0]] + CutToLineEnd(s[1..], w);
        assert out[1..] == CutToLineEnd(s[1..], w);
        assert Contains(out[1..], v);
        CutContains(s[1..], w, v);
      }
    }
  }

  /** Text before the first occurrence of the marker is kept as it is. */
  lemma {:induction false} CutKeepsPrefix(s: string, w: string, i: nat)
    requires w != [] && i <= |s|
    requires forall j :: 0 <= j < i ==> !StartsWith(s[j..], w)
    ensures CutToLineEnd(s, w) == s[..i] + CutToLineEnd(s[i..], w)
  {
    if i > 0 {
      var u := s[1..];
      assert !StartsWith(s, w) by { assert s[0..] == s; }
      assert CutToLineEnd(s, w) == [s[0]] + CutToLineEnd(u, w);
      forall j | 0 <= j < i - 1
        ensures !StartsWith(u[j..], w)
      {
        assert u[j..] == s[j + 1..];
      }
      CutKeepsPrefix(u, w, i - 1);
      assert u[i - 1..] == s[i..];
      assert s[..i] == [s[0]] + u[..i - 1];
    }
  }

  /** The first occurrence of the marker and the rest of its line go; what comes before is
      kept, and the scan goes on at the line terminator. */
  lemma CutAtFirstMarker(s: string, w: string, i: nat)
    requires w != [] && i <= |s| && StartsWith(s[i..], w)
    requires forall j :: 0 <= j < i ==> !StartsWith(s[j..], w)
    ensures var t := s[i + |w|..];
      CutToLineEnd(s, w) == s[..i] + CutToLineEnd(t[LineRest(t)..], w)
  {
    CutKeepsPrefix(s, w, i);
    assert s[i..][|w|..] == s[i + |w|..];
  }

  /** After the cut the marker is gone. */
  lemma {:induction false} CutRemovesMarker(s: string, w: string)
    requires w != [] && LineFree(w)
    ensures !Contains(CutToLineEnd(s, w), w)
    decreases |s|
  {
    var out := CutToLineEnd(s, w);
    if s != [] {
      if StartsWith(s, w) {
        var t := s[|w|..];
        CutRemovesMarker(t[LineRest(t)..], w);
      } else {
        CutRemovesMarker(s[1..], w);
        if StartsWith(out, w) {
          CutStartsWith(s, w, w);
        }
        assert out[1..] == CutToLineEnd(s[1..], w);
      }
    }
  }

  /** Text without the marker is left alone. */
  lemma {:induction false} CutWithoutMarker(s: string, w: string)
    requires w != [] && !Contains(s, w)
    ensures CutToLineEnd(s, w) == s
  {
    if s != [] {
      CutWithoutMarker(s[1..], w);
    }
  }

  lemma {:induction false} CutKeepsNoControl(s: string, w: string)
    requires w != [] && forall k :: 0 <= k < |s| ==> !IsControl(s[k])
    ensures forall k :: 0 <= k < |CutToLineEnd(s, w)| ==> !IsControl(CutToLineEnd(s, w)[k])
    decreases |s|
  {
    if s != [] {
      if StartsWith(s, w) {
        var t := s[|w|..];
        var rest := t[LineRest(t)..];
        assert rest == s[|w| + LineRest(t)..];
        CutKeepsNoControl(rest, w);
      } else {
        CutKeepsNoControl(s[1..], w);
      }
    }
  }

  lemma {:induction false} PageMarksKeepNoControl(s: string)
    requires forall k :: 0 <= k < |s| ==> !IsControl(s[k])
    ensures forall k :: 0 <= k < |RemovePageMarks(s)| ==> !IsControl(RemovePageMarks(s)[k])
    decreases |s|
  {
    if s != [] {
      if PageMarkAt(s) > 0 {
        PageMarksKeepNoControl(s[PageMarkAt(s)..]);
      } else {
        PageMarksKeepNoControl(s[1..]);
      }
    }
  }

  // ---------------------------------------------------------------------------------
  // The whole cleaning pass

  const UnfinishedChapter := "本章未完"
  const ToBeContinued := "待续"

  /** `cleanContent(text)` */
  function CleanContent(text: string): string {
    var noControls := RemoveControls(text);
    var noPages := RemovePageMarks(noControls);
    var noUnfinished := CutToLineEnd(noPages, UnfinishedChapter);
    var noContinued := CutToLineEnd(noUnfinished, ToBeContinued);
    Trim(noContinued)
  }

  lemma TrimKeepsNoControl(s: string)
    requires forall k :: 0 <= k < |s| ==> !IsControl(s[k])
    ensures forall k :: 0 <= k < |Trim(s)| ==> !IsControl(Trim(s)[k])
  {
    TrimChars(s);
    forall k | 0 <= k < |Trim(s)| ensures !IsControl(Trim(s)[k]) {
      assert Trim(s)[k] in s;
    }
  }

  /** The cleaned text has nothing to trim, no control character, and neither of the two
      end-of-chapter markers. */
  lemma CleanContentShape(text: string)
    ensures IsTrimmed(CleanContent(text))
    ensures forall k :: 0 <= k < |CleanContent(text)| ==> !IsControl(CleanContent(text)[k])
    ensures !Contains(CleanContent(text), ToBeContinued)
    ensures !Contains(CleanContent(text), UnfinishedChapter)
  {
    var noControls := RemoveControls(text);
    var noPages := RemovePageMarks(noControls);
    var noUnfinished := CutToLineEnd(noPages, UnfinishedChapter);
    var noContinued := CutToLineEnd(noUnfinished, ToBeContinued);
    PageMarksKeepNoControl(noControls);
    CutKeepsNoControl(noPages, UnfinishedChapter);
    CutKeepsNoControl(noUnfinished, ToBeContinued);
    TrimKeepsNoControl(noContinued);
    CutRemovesMarker(noUnfinished, ToBeContinued);
    if Contains(Trim(noContinued), ToBeContinued) {
      TrimContains(noContinued, ToBeContinued);
    }
    CutRemovesMarker(noPages, UnfinishedChapter);
    if Contains(Trim(noContinued), UnfinishedChapter) {
      TrimContains(noContinued, UnfinishedChapter);
      CutContains(noUnfinished, ToBeContinued, UnfinishedChapter);
    }
  }

  /** A control character anywhere in the text makes no difference to the cleaned text. */
  lemma ControlCharIgnored(a: string, c: char, b: string)
    requires IsControl(c)
    ensures CleanContent(a + [c] + b) == CleanContent(a + b)
  {
    RemoveControlsAppend(a + [c], b);
    RemoveControlsAppend(a, [c]);
    RemoveControlsAppend(a, b);
    RemoveControlsOne(c);
    assert RemoveControls(a + [c] + b) == RemoveControls(a + b);
  }

  lemma NoControlSuffix(t: string, n: nat)
    requires n <= |t| && forall k :: 0 <= k < |t| ==> !IsControl(t[k])
    ensures forall k :: 0 <= k < |t[n..]| ==> !IsControl(t[n..][k])
  {
    forall k | 0 <= k < |t[n..]| ensures !IsControl(t[n..][k]) {
      assert t[n..][k] == t[n + k];
    }
  }

  /** A page marker in control-free text, with no `第` before it, makes no difference to the
      cleaned text. */
  lemma PageMarkIgnored(a: string, t: string)
    requires '第' !in a && PageMarkAt(t) > 0
    requires forall k :: 0 <= k < |a| ==> !IsControl(a[k])
    requires forall k :: 0 <= k < |t| ==> !IsControl(t[k])
    ensures CleanContent(a + t) == CleanContent(a + t[PageMarkAt(t)..])
  {
    var n := PageMarkAt(t);
    NoControlSuffix(t, n);
    RemoveControlsKeepsOthers(a);
    RemoveControlsKeepsOthers(t);
    RemoveControlsKeepsOthers(t[n..]);
    RemoveControlsAppend(a, t);
    RemoveControlsAppend(a, t[n..]);
    RemovePageMarksPrefix(a, t);
    RemovePageMarksPrefix(a, t[n..]);
    RemovePageMarksAtMark(t);
    assert RemovePageMarks(RemoveControls(a + t)) == RemovePageMarks(RemoveControls(a + t[n..]));
  }

  /** Noise of every kind goes and the rest stays: `甲\t\U{1}第 3 页乙` is cleaned to `甲\t乙`,
      keeping the tab. */
  lemma MixedNoiseExample()
    ensures CleanContent("甲\t\U{1}第 3 页乙") == "甲\t乙"
  {
    ControlCharIgnored("甲\t", '\U{1}', "第 3 页乙");
    assert "甲\t" + ['\U{1}'] + "第 3 页乙" == "甲\t\U{1}第 3 页乙";
    assert "甲\t" + "第 3 页乙" == "甲\t第 3 页乙";
    MarkInExample();
    PageMarkIgnored("甲\t", "第 3 页乙");
    assert "第 3 页乙"[5..] == "乙";
    assert "甲\t" + "乙" == "甲\t乙";
    CleanExampleRest();
  }

  lemma MarkInExample()
    ensures PageMarkAt("第 3 页乙") == 5
  {
    var t := "第 3 页乙";
    assert IsWS(t[1]) && !IsWS(t[2]) && IsDigit(t[2]) && !IsDigit(t[3]) && IsWS(t[3]) && !IsWS(t[4]);
    assert SkipSpaces(t, 2) == 2;
    assert SkipSpaces(t, 1) == 2;
    assert SkipDigits(t, 3) == 3;
    assert SkipDigits(t, 2) == 3;
    assert SkipSpaces(t, 4) == 4;
    assert SkipSpaces(t, 3) == 4;
  }

  lemma CleanExampleRest()
    ensures CleanContent("甲\t乙") == "甲\t乙"
  {
    var s := "甲\t乙";
    assert '本' !in s && '待' !in s;
    NotContainsWithoutHead(s, UnfinishedChapter);
    NotContainsWithoutHead(s, ToBeContinued);
    CleanContentKeepsCleanText(s);
  }

  /** Text with none of the noise, already trimmed, comes out unchanged. */
  lemma CleanContentKeepsCleanText(text: string)
    requires forall k :: 0 <= k < |text| ==> !IsControl(text[k])
    requires '第' !in text
    requires !Contains(text, UnfinishedChapter) && !Contains(text, ToBeContinued)
    requires IsTrimmed(text)
    ensures CleanContent(text) == text
  {
    RemoveControlsKeepsOthers(text);
    RemovePageMarksWithoutMarker(text);
    CutWithoutMarker(text, UnfinishedChapter);
    CutWithoutMarker(text, ToBeContinued);
    TrimOfTrimmed(text);
  }

  // ---------------------------------------------------------------------------------
  // splitIntoParagraphs: text.split(/\n\n+/), trimmed, empty pieces dropped

  /** The pieces of `cur + s` between runs of two or more line feeds. */
  function SplitBlankAcc(s: string, cur: string): (r: seq<string>)
    ensures |r| >= 1
    decreases |s|
  {
    if s == [] then [cur]
    else if StartsWith(s, "\n\n") then
      var k := NewlineRun(s);
      [cur] + SplitBlankAcc(s[k..], "")
    else SplitBlankAcc(s[1..], cur + [s[0]])
  }

  function SplitBlankLines(s: string): seq<string> {
    SplitBlankAcc(s, "")
  }

  /** `splitIntoParagraphs(text)` */
  function SplitIntoParagraphs(text: string): seq<string> {
    NonEmpty(TrimAll(SplitBlankLines(text)))
  }

  /** No two line feeds side by side: the piece never holds a match of `\n\n+`. */
  predicate NoBlankLine(p: string) {
    forall i :: 0 <= i < |p| - 1 ==> !(p[i] == '\n' && p[i + 1] == '\n')
  }

  /** While a piece is accumulated, it never holds a blank line; and when it ends in a line
      feed, the text still to read does not start with one. */
  lemma {:induction false} SplitBlankPieces(s: string, cur: string)
    requires NoBlankLine(cur)
    requires cur != [] && cur[|cur| - 1] == '\n' ==> s == [] || s[0] != '\n'
    ensures forall k :: 0 <= k < |SplitBlankAcc(s, cur)| ==> NoBlankLine(SplitBlankAcc(s, cur)[k])
    decreases |s|
  {
    if s != [] {
      if StartsWith(s, "\n\n") {
        var k := NewlineRun(s);
        SplitBlankPieces(s[k..], "");
      } else {
        var next := cur + [s[0]];
        if s[0] == '\n' && |s| > 1 {
          assert s[1] != '\n' by { assert s[..2] == [s[0], s[1]]; }
        }
        assert NoBlankLine(next) by {
          forall i | 0 <= i < |next| - 1 ensures !(next[i] == '\n' && next[i + 1] == '\n') {
            if i + 1 < |cur| { assert next[i] == cur[i] && next[i + 1] == cur[i + 1]; }
          }
        }
        SplitBlankPieces(s[1..], next);
      }
    }
  }

  lemma {:induction false} SplitBlankVisible(s: string, cur: string)
    ensures Visible(Concat(SplitBlankAcc(s, cur))) == Visible(cur + s)
    decreases |s|
  {
    if s == [] {
      assert Concat([cur]) == cur + [];
      assert cur + s == cur + [];
    } else if StartsWith(s, "\n\n") {
      var k := NewlineRun(s);
      var rest := SplitBlankAcc(s[k..], "");
      SplitBlankVisible(s[k..], "");
      assert "" + s[k..] == s[k..];
      assert Concat([cur] + rest) == cur + Concat(rest) by {
        assert ([cur] + rest)[1..] == rest;
      }
      VisibleAppend(cur, Concat(rest));
      NewlinesVisible(s, k);
      VisibleAppend(cur, s);
    } else {
      SplitBlankVisible(s[1..], cur + [s[0]]);
      assert cur + [s[0]] + s[1..] == cur + s;
    }
  }

  /** Leading line feeds are not visible. */
  lemma NewlinesVisible(s: string, k: nat)
    requires k <= |s| && forall i :: 0 <= i < k ==> s[i] == '\n'
    ensures Visible(s) == Visible(s[k..])
  {
    assert s == s[..k] + s[k..];
    VisibleAppend(s[..k], s[k..]);
    VisibleOfAllWS(s[..k]);
  }

  lemma {:induction false} NonEmptyConcat(xs: seq<string>)
    ensures Concat(NonEmpty(xs)) == Concat(xs)
  {
    if xs != [] {
      NonEmptyConcat(xs[1..]);
      var head := if xs[0] == [] then [] else [xs[0]];
      ConcatAppend(head, NonEmpty(xs[1..]));
      assert Concat(xs) == xs[0] + Concat(xs[1..]);
      if xs[0] == [] {
        assert Concat(xs) == Concat(xs[1..]);
      } else {
        assert Concat(head) == xs[0] + [];
      }
    }
  }

  lemma TrimKeepsNoBlankLine(s: string)
    requires NoBlankLine(s)
    ensures NoBlankLine(Trim(s))
  {
    var a := TrimStart(s);
    var r := TrimEnd(a);
    var i := |s| - |a|;
    TrimStartSlice(s);
    TrimEndSlice(a);
    forall k | 0 <= k < |r| - 1 ensures !(r[k] == '\n' && r[k + 1] == '\n') {
      assert r[k] == s[i + k] && r[k + 1] == s[i + k + 1];
    }
  }

  /** Every paragraph is non-empty, trimmed and free of blank lines, and together the
      paragraphs hold every visible character of the text, in order. */
  lemma SplitIntoParagraphsShape(text: string)
    ensures forall k :: 0 <= k < |SplitIntoParagraphs(text)| ==>
              SplitIntoParagraphs(text)[k] != [] && IsTrimmed(SplitIntoParagraphs(text)[k])
              && NoBlankLine(SplitIntoParagraphs(text)[k])
    ensures Visible(Concat(SplitIntoParagraphs(text))) == Visible(text)
  {
    var pieces := SplitBlankLines(text);
    SplitBlankPieces(text, "");
    var trimmed := TrimAll(pieces);
    forall k | 0 <= k < |trimmed| ensures NoBlankLine(trimmed[k]) {
      TrimKeepsNoBlankLine(pieces[k]);
    }
    var r := NonEmpty(trimmed);
    forall k | 0 <= k < |r| ensures IsTrimmed(r[k]) && NoBlankLine(r[k]) {
      var j :| 0 <= j < |trimmed| && trimmed[j] == r[k];
    }
    NonEmptyConcat(trimmed);
    VisibleConcatTrimAll(pieces);
    SplitBlankVisible(text, "");
    assert "" + text == text;
  }
}
