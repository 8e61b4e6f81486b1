/** `preprocessText` of src/lib/textImport.ts: rebuilds paragraphs from hard-wrapped text.
    The line-merging loop is `MergeParagraphs`; the function `PreprocessText` describes the
    whole pipeline with the loop's specification `Paragraphs` in its place. */
module Preprocess {
  import opened Strings

  // ---------------------------------------------------------------------------------
  // Line endings

  function StripBom(s: string): string {
    if |s| > 0 && s[0] == '\U{FEFF}' then s[1..] else s
  }

  /** `s.replace(/\r\n/g, '\n')` */
  function ReplaceCrLf(s: string): string {
    if |s| >= 2 && s[0] == '\r' && s[1] == '\n' then "\n" + ReplaceCrLf(s[2..])
    else if s == [] then []
    else [s[0]] + ReplaceCrLf(s[1..])
  }

  /** `s.replace(/\r/g, '\n')` */
  function ReplaceCr(s: string): (r: string)
    ensures '\r' !in r
  {
    if s == [] then [] else [if s[0] == '\r' then '\n' else s[0]] + ReplaceCr(s[1..])
  }

  function NormalizeNewlines(s: string): (r: string)
    ensures '\r' !in r
  {
    ReplaceCr(ReplaceCrLf(s))
  }

  // The two replacements act as one pass over the text in which every line break, whether
  // CRLF, a lone CR or LF, becomes one LF and every other character stays.

  lemma NormalizeCrLf(t: string)
    ensures NormalizeNewlines("\r\n" + t) == "\n" + NormalizeNewlines(t)
  {
    assert ("\r\n" + t)[2..] == t;
    assert ReplaceCrLf("\r\n" + t) == "\n" + ReplaceCrLf(t);
    assert ("\n" + ReplaceCrLf(t))[1..] == ReplaceCrLf(t);
  }

  lemma NormalizeLoneCr(t: string)
    requires t == [] || t[0] != '\n'
    ensures NormalizeNewlines("\r" + t) == "\n" + NormalizeNewlines(t)
  {
    assert ("\r" + t)[1..] == t;
    assert ReplaceCrLf("\r" + t) == "\r" + ReplaceCrLf(t);
    assert ("\r" + ReplaceCrLf(t))[1..] == ReplaceCrLf(t);
  }

  lemma NormalizeOther(c: char, t: string)
    requires c != '\r'
    ensures NormalizeNewlines([c] + t) == [c] + NormalizeNewlines(t)
  {
    assert ([c] + t)[1..] == t;
    assert ReplaceCrLf([c] + t) == [c] + ReplaceCrLf(t);
    assert ([c] + ReplaceCrLf(t))[1..] == ReplaceCrLf(t);
  }

  /** Text without a carriage return is left alone. */
  lemma {:induction false} NormalizeCrFree(s: string)
    requires '\r' !in s
    ensures NormalizeNewlines(s) == s
  {
    if s != [] {
      assert '\r' !in s[1..] by { assert forall c :: c in s[1..] ==> c in s; }
      NormalizeCrFree(s[1..]);
      NormalizeOther(s[0], s[1..]);
      assert [s[0]] + s[1..] == s;
    }
  }

  /** The lines of the text, as the loop walks them. */
  function Lines(text: string): (r: seq<string>)
    ensures forall k :: 0 <= k < |r| ==> '\n' !in r[k]
  {
    Split(NormalizeNewlines(StripBom(text)), '\n')
  }

  // ---------------------------------------------------------------------------------
  // Paragraph merging

  /** The line starts with a full-width space or two spaces (a first-line indent). */
  predicate IsIndented(raw: string) {
    StartsWith(raw, "\U{3000}") || StartsWith(raw, "  ")
  }

  predicate IsSentenceEnd(c: char) {
    c == '。' || c == '！' || c == '？' || c == '…' || c == '」' || c == '』' || c == '\U{201D}'
  }

  /** `/[。！？…」』”]$/.test(line)`: only the end of the line is looked at. */
  predicate EndsSentence(line: string) {
    |line| > 0 && IsSentenceEnd(line[|line| - 1])
  }

  /** The loop's state: the paragraphs already flushed and the one being accumulated. */
  datatype MergeState = MergeState(flushed: seq<string>, current: string)

  /** A non-empty trimmed `line` joins the open paragraph, unless `raw` is indented and a
      paragraph is open: then that one is closed and `line` opens the next. */
  function Absorb(st: MergeState, raw: string, line: string): MergeState {
    if IsIndented(raw) && st.current != "" then MergeState(st.flushed + [st.current], line)
    else MergeState(st.flushed, st.current + line)
  }

  /** One turn of the loop over the line `raw`. */
  function MergeStep(st: MergeState, raw: string): MergeState {
    var line := Trim(raw);
    if line == "" then
      (if st.current != "" then MergeState(st.flushed + [st.current], "") else st)
    else
      var st1 := Absorb(st, raw, line);
      if EndsSentence(line) then MergeState(st1.flushed + [st1.current], "") else st1
  }

  function Fold(lines: seq<string>): MergeState {
    if lines == [] then MergeState([], "")
    else MergeStep(Fold(lines[..|lines| - 1]), lines[|lines| - 1])
  }

  /** The paragraphs the loop produces, with the final flush. */
  function Paragraphs(lines: seq<string>): seq<string> {
    var st := Fold(lines);
    if st.current != "" then st.flushed + [st.current] else st.flushed
  }

  /** The loop of `preprocessText` that accumulates `currentParagraph` into `resultLines`. */
  method MergeParagraphs(lines: seq<string>) returns (resultLines: seq<string>)
    ensures resultLines == Paragraphs(lines)
  {
    resultLines := [];
    var currentParagraph := "";
    for i := 0 to |lines|
      invariant MergeState(resultLines, currentParagraph) == Fold(lines[..i])
    {
      ghost var state := MergeState(resultLines, currentParagraph);
      ghost var next := MergeStep(state, lines[i]);
      assert lines[..i + 1][..i] == lines[..i];
      assert Fold(lines[..i + 1]) == next;
      var line := Trim(lines[i]);
      if line == "" {
        if currentParagraph != "" {
          resultLines := resultLines + [currentParagraph];
          currentParagraph := "";
        }
        assert MergeState(resultLines, currentParagraph) == next;
        continue;
      }
      var isIndented := StartsWith(lines[i], "\U{3000}") || StartsWith(lines[i], "  ");
      assert isIndented == IsIndented(lines[i]);
      if isIndented && currentParagraph != "" {
        resultLines := resultLines + [currentParagraph];
        currentParagraph := line;
      } else {
        currentParagraph := if currentParagraph != "" then currentParagraph + line else line;
      }
      assert MergeState(resultLines, currentParagraph) == Absorb(state, lines[i], line);
      if EndsSentence(line) {
        resultLines := resultLines + [currentParagraph];
        currentParagraph := "";
      }
      assert MergeState(resultLines, currentParagraph) == next;
    }
    assert lines[..|lines|] == lines;
    if currentParagraph != "" {
      resultLines := resultLines + [currentParagraph];
    }
  }

  /** A paragraph as the merge emits it: non-empty, trimmed, on one line. */
  predicate WellFormed(p: string) {
    p != [] && IsTrimmed(p) && '\n' !in p
  }

  predicate GoodState(st: MergeState) {
    (forall k :: 0 <= k < |st.flushed| ==> WellFormed(st.flushed[k])) &&
    (st.current == [] || WellFormed(st.current))
  }

  lemma TrimAllSnoc(xs: seq<string>, x: string)
    ensures TrimAll(xs + [x]) == TrimAll(xs) + [Trim(x)]
  {
  }

  lemma TrimmedConcat(a: string, b: string)
    requires WellFormed(a) && WellFormed(b)
    ensures WellFormed(a + b)
  {
  }

  lemma FlushGood(st: MergeState)
    requires GoodState(st) && st.current != ""
    ensures GoodState(MergeState(st.flushed + [st.current], ""))
  {
  }

  lemma AbsorbGood(st: MergeState, raw: string, line: string)
    requires GoodState(st) && WellFormed(line)
    ensures GoodState(Absorb(st, raw, line)) && Absorb(st, raw, line).current != ""
  {
    if IsIndented(raw) && st.current != "" {
      FlushGood(st);
    } else if st.current != "" {
      TrimmedConcat(st.current, line);
    } else {
      assert st.current + line == line;
    }
  }

  lemma StepGood(st: MergeState, raw: string)
    requires GoodState(st) && '\n' !in raw
    ensures GoodState(MergeStep(st, raw))
  {
    var line := Trim(raw);
    if line == "" {
      if st.current != "" { FlushGood(st); }
    } else {
      TrimChars(raw);
      assert WellFormed(line);
      var st1 := Absorb(st, raw, line);
      AbsorbGood(st, raw, line);
      if EndsSentence(line) { FlushGood(st1); }
    }
  }

  lemma StepConcat(st: MergeState, raw: string)
    ensures Concat(MergeStep(st, raw).flushed) + MergeStep(st, raw).current
         == Concat(st.flushed) + st.current + Trim(raw)
  {
    var line := Trim(raw);
    if line == "" {
      FlushConcat(st.flushed, st.current);
      assert st.current + line == st.current;
    } else {
      var st1 := Absorb(st, raw, line);
      AbsorbConcat(st, raw, line);
      FlushConcat(st1.flushed, st1.current);
    }
  }

  /** Closing the open paragraph keeps the text. */
  lemma FlushConcat(flushed: seq<string>, current: string)
    ensures Concat(flushed + [current]) == Concat(flushed) + current
  {
    ConcatAppend(flushed, [current]);
    assert [current][1..] == [];
    assert Concat([current]) == current + [];
  }

  lemma AbsorbConcat(st: MergeState, raw: string, line: string)
    ensures Concat(Absorb(st, raw, line).flushed) + Absorb(st, raw, line).current
         == Concat(st.flushed) + st.current + line
  {
    if IsIndented(raw) && st.current != "" {
      FlushConcat(st.flushed, st.current);
    } else {
      assert Concat(st.flushed) + (st.current + line) == Concat(st.flushed) + st.current + line;
    }
  }

  lemma {:induction false} FoldInvariant(lines: seq<string>)
    requires forall k :: 0 <= k < |lines| ==> '\n' !in lines[k]
    ensures GoodState(Fold(lines))
    ensures Concat(Fold(lines).flushed) + Fold(lines).current == Concat(TrimAll(lines))
  {
    if lines != [] {
      var init := lines[..|lines| - 1];
      var raw := lines[|lines| - 1];
      assert lines == init + [raw];
      var st := Fold(init);
      assert Fold(lines) == MergeStep(st, raw);
      FoldInvariant(init);
      StepGood(st, raw);
      StepConcat(st, raw);
      TrimAllSnoc(init, raw);
      ConcatAppend(TrimAll(init), [Trim(raw)]);
    }
  }

  /** Every paragraph is non-empty, trimmed and on one line, and together they hold exactly
      the trimmed lines, in order: merging loses nothing but the whitespace at line ends. */
  lemma ParagraphsWellFormed(lines: seq<string>)
    requires forall k :: 0 <= k < |lines| ==> '\n' !in lines[k]
    ensures forall k :: 0 <= k < |Paragraphs(lines)| ==> WellFormed(Paragraphs(lines)[k])
    ensures Concat(Paragraphs(lines)) == Concat(TrimAll(lines))
  {
    FoldInvariant(lines);
    var st := Fold(lines);
    ConcatAppend(st.flushed, [st.current]);
  }

  /** A line whose trimmed text ends a sentence closes the paragraph it belongs to. */
  lemma SentenceEndFlushes(st: MergeState, raw: string)
    requires EndsSentence(Trim(raw))
    ensures MergeStep(st, raw).current == ""
    ensures |MergeStep(st, raw).flushed| > 0
    ensures EndsWith(MergeStep(st, raw).flushed[|MergeStep(st, raw).flushed| - 1], Trim(raw))
  {
  }

  /** A blank line leaves nothing open. */
  lemma BlankLineFlushes(st: MergeState, raw: string)
    requires AllWS(raw)
    ensures MergeStep(st, raw).current == ""
    ensures MergeStep(st, raw).flushed == if st.current != "" then st.flushed + [st.current] else st.flushed
  {
    TrimEmptyIffAllWS(raw);
  }

  /** An indented line closes the open paragraph and opens a new one. */
  lemma IndentStartsParagraph(st: MergeState, raw: string)
    requires IsIndented(raw) && st.current != "" && Trim(raw) != "" && !EndsSentence(Trim(raw))
    ensures MergeStep(st, raw) == MergeState(st.flushed + [st.current], Trim(raw))
  {
  }

  // ---------------------------------------------------------------------------------
  // Whitespace passes

  /** Whitespace other than a line feed: what `[^\S\n]` matches. */
  predicate IsBlank(c: char) {
    IsWS(c) && c != '\n'
  }

  function SkipBlanks(s: string): (r: string)
    ensures |r| <= |s|
    ensures r == [] || !IsBlank(r[0])
  {
    if |s| > 0 && IsBlank(s[0]) then SkipBlanks(s[1..]) else s
  }

  /** What is left after the blanks is the rest of `s`. */
  lemma {:induction false} SkipBlanksSuffix(s: string)
    ensures SkipBlanks(s) == s[|s| - |SkipBlanks(s)|..]
  {
    if |s| > 0 && IsBlank(s[0]) {
      SkipBlanksSuffix(s[1..]);
      assert s[1..][|s| - 1 - |SkipBlanks(s)|..] == s[|s| - |SkipBlanks(s)|..];
    }
  }

  /** `s.replace(/[^\S\n]+/g, ' ')`: every run of blanks becomes one space. */
  function CollapseBlanks(s: string): (r: string)
    ensures |s| > 0 ==> |r| > 0 && r[0] == (if IsBlank(s[0]) then ' ' else s[0])
    ensures s == [] ==> r == []
    decreases |s|
  {
    if s == [] then []
    else if IsBlank(s[0]) then [' '] + CollapseBlanks(SkipBlanks(s))
    else [s[0]] + CollapseBlanks(s[1..])
  }

  /** Skipping the blanks at the start of a text that ends with a non-blank character stops
      inside it, before anything that follows. */
  lemma {:induction false} SkipBlanksWithin(a: string, t: string)
    requires a != [] && !IsBlank(a[|a| - 1])
    ensures SkipBlanks(a + t) == SkipBlanks(a) + t
    ensures SkipBlanks(a) != [] && |SkipBlanks(a)| < |a| + 1
    ensures !IsBlank(SkipBlanks(a)[|SkipBlanks(a)| - 1])
  {
    if IsBlank(a[0]) {
      assert |a| > 1;
      assert (a + t)[1..] == a[1..] + t;
      SkipBlanksWithin(a[1..], t);
    }
  }

  /** Collapsing works piece by piece where a piece ends with a non-blank character: no run
      of blanks spans the cut. */
  lemma {:induction false} CollapseAfterNonBlank(a: string, t: string)
    requires a == [] || !IsBlank(a[|a| - 1])
    ensures CollapseBlanks(a + t) == CollapseBlanks(a) + CollapseBlanks(t)
    decreases |a|
  {
    if a == [] {
      assert a + t == t;
    } else if IsBlank(a[0]) {
      SkipBlanksWithin(a, t);
      var rest := SkipBlanks(a);
      SkipBlanksSuffix(a);
      calc {
        CollapseBlanks(a + t);
        { assert (a + t)[0] == a[0]; }
        [' '] + CollapseBlanks(SkipBlanks(a + t));
        [' '] + CollapseBlanks(rest + t);
        { CollapseAfterNonBlank(rest, t); }
        [' '] + (CollapseBlanks(rest) + CollapseBlanks(t));
        ([' '] + CollapseBlanks(rest)) + CollapseBlanks(t);
        CollapseBlanks(a) + CollapseBlanks(t);
      }
    } else {
      calc {
        CollapseBlanks(a + t);
        { assert (a + t)[0] == a[0]; }
        [a[0]] + CollapseBlanks((a + t)[1..]);
        { assert (a + t)[1..] == a[1..] + t; }
        [a[0]] + CollapseBlanks(a[1..] + t);
        { CollapseAfterNonBlank(a[1..], t); }
        [a[0]] + (CollapseBlanks(a[1..]) + CollapseBlanks(t));
        ([a[0]] + CollapseBlanks(a[1..])) + CollapseBlanks(t);
        CollapseBlanks(a) + CollapseBlanks(t);
      }
    }
  }

  /** A whole run of blanks goes, up to the next non-blank character. */
  lemma {:induction false} SkipBlanksRun(run: string, b: string)
    requires forall k :: 0 <= k < |run| ==> IsBlank(run[k])
    requires b == [] || !IsBlank(b[0])
    ensures SkipBlanks(run + b) == b
  {
    if run == [] {
      assert run + b == b;
    } else {
      assert (run + b)[1..] == run[1..] + b;
      SkipBlanksRun(run[1..], b);
    }
  }

  /** The replacement's own promise: a run of blanks between two non-blank characters, or at
      either end, becomes exactly one space, and the text on both sides is collapsed on its
      own. */
  lemma {:induction false} CollapseRunHead(run: string, b: string)
    requires run != [] && forall k :: 0 <= k < |run| ==> IsBlank(run[k])
    requires b == [] || !IsBlank(b[0])
    ensures CollapseBlanks(run + b) == [' '] + CollapseBlanks(b)
  {
    SkipBlanksRun(run, b);
    assert (run + b)[0] == run[0];
  }

  lemma {:induction false} CollapseRun(a: string, run: string, b: string)
    requires a == [] || !IsBlank(a[|a| - 1])
    requires run != [] && forall k :: 0 <= k < |run| ==> IsBlank(run[k])
    requires b == [] || !IsBlank(b[0])
    ensures CollapseBlanks(a + run + b) == CollapseBlanks(a) + " " + CollapseBlanks(b)
  {
    calc {
      CollapseBlanks(a + run + b);
      { assert a + run + b == a + (run + b); }
      CollapseBlanks(a + (run + b));
      { CollapseAfterNonBlank(a, run + b); }
      CollapseBlanks(a) + CollapseBlanks(run + b);
      { CollapseRunHead(run, b); }
      CollapseBlanks(a) + ([' '] + CollapseBlanks(b));
      CollapseBlanks(a) + " " + CollapseBlanks(b);
    }
  }

  /** After collapsing, the only blank left is the plain space, no two blanks stand side by
      side, and every other character comes from the input. */
  lemma {:induction false} CollapseShape(s: string)
    ensures forall k :: 0 <= k < |CollapseBlanks(s)| ==> (IsBlank(CollapseBlanks(s)[k]) ==> CollapseBlanks(s)[k] == ' ')
    ensures forall k :: 0 <= k < |CollapseBlanks(s)| - 1 ==> !(IsBlank(CollapseBlanks(s)[k]) && IsBlank(CollapseBlanks(s)[k + 1]))
    ensures forall c :: c in CollapseBlanks(s) ==> c in s || c == ' '
    decreases |s|
  {
    if s != [] {
      var t := if IsBlank(s[0]) then SkipBlanks(s) else s[1..];
      CollapseShape(t);
      if IsBlank(s[0]) {
        SkipBlanksSuffix(s);
      }
      assert forall c :: c in t ==> c in s;
      var r := CollapseBlanks(s);
      var u := CollapseBlanks(t);
      assert r == [r[0]] + u;
      forall k | 0 <= k < |r| ensures IsBlank(r[k]) ==> r[k] == ' ' {
        if k > 0 { assert r[k] == u[k - 1]; }
      }
      forall k | 0 <= k < |r| - 1 ensures !(IsBlank(r[k]) && IsBlank(r[k + 1])) {
        assert r[k + 1] == u[k];
        if k > 0 { assert r[k] == u[k - 1]; }
      }
    }
  }

  /** `s.replace(/\n{3,}/g, '\n\n')` */
  function LimitNewlines(s: string): string
    decreases |s|
  {
    if s == [] then []
    else if s[0] != '\n' then [s[0]] + LimitNewlines(s[1..])
    else
      var k := NewlineRun(s);
      (if k >= 3 then "\n\n" else s[..k]) + LimitNewlines(s[k..])
  }

  function CollapseAll(ps: seq<string>): (r: seq<string>)
    ensures |r| == |ps|
    ensures forall k :: 0 <= k < |r| ==> r[k] == CollapseBlanks(ps[k])
  {
    if ps == [] then [] else [CollapseBlanks(ps[0])] + CollapseAll(ps[1..])
  }

  /** `preprocessText(text)` */
  function PreprocessText(text: string): string {
    var joined := Join(Paragraphs(Lines(text)), "\n\n");
    Trim(LimitNewlines(CollapseBlanks(joined)))
  }

  // ---------------------------------------------------------------------------------
  // What the passes do to merged paragraphs

  lemma {:induction false} CollapseAppend(a: string, b: string)
    requires b == [] || !IsBlank(b[0])
    ensures CollapseBlanks(a + b) == CollapseBlanks(a) + CollapseBlanks(b)
    decreases |a|, 1
  {
    if a == [] {
      assert a + b == b;
    } else if IsBlank(a[0]) {
      CollapseAppendBlank(a, b);
    } else {
      CollapseAppendOther(a, b);
    }
  }

  lemma {:induction false} CollapseAppendBlank(a: string, b: string)
    requires a != [] && IsBlank(a[0])
    requires b == [] || !IsBlank(b[0])
    ensures CollapseBlanks(a + b) == CollapseBlanks(a) + CollapseBlanks(b)
    decreases |a|, 0
  {
    var t := SkipBlanks(a);
    assert t == SkipBlanks(a[1..]) && |t| < |a|;
    SkipBlanksAppend(a, b);
    assert (a + b)[0] == a[0];
    CollapseAppend(t, b);
  }

  lemma {:induction false} CollapseAppendOther(a: string, b: string)
    requires a != [] && !IsBlank(a[0])
    requires b == [] || !IsBlank(b[0])
    ensures CollapseBlanks(a + b) == CollapseBlanks(a) + CollapseBlanks(b)
    decreases |a|, 0
  {
    assert (a + b)[0] == a[0];
    assert (a + b)[1..] == a[1..] + b;
    CollapseAppend(a[1..], b);
  }

  lemma {:induction false} SkipBlanksAppend(a: string, b: string)
    requires b == [] || !IsBlank(b[0])
    ensures SkipBlanks(a + b) == SkipBlanks(a) + b
  {
    if a == [] {
      assert a + b == b;
    } else if IsBlank(a[0]) {
      assert (a + b)[1..] == a[1..] + b;
      SkipBlanksAppend(a[1..], b);
    }
  }

  lemma CollapseNonBlankHead(c: char, rest: string)
    requires !IsBlank(c)
    ensures CollapseBlanks([c] + rest) == [c] + CollapseBlanks(rest)
  {
    assert ([c] + rest)[1..] == rest;
  }

  lemma CollapseAfterSeparator(rest: string)
    ensures CollapseBlanks("\n\n" + rest) == "\n\n" + CollapseBlanks(rest)
  {
    CollapseNonBlankHead('\n', rest);
    CollapseNonBlankHead('\n', "\n" + rest);
    assert "\n\n" + rest == ['\n'] + ("\n" + rest);
  }

  /** Collapsing blanks acts paragraph by paragraph: no blank run crosses a line feed. */
  lemma {:induction false} CollapseJoin(ps: seq<string>)
    ensures CollapseBlanks(Join(ps, "\n\n")) == Join(CollapseAll(ps), "\n\n")
  {
    if |ps| > 1 {
      var rest := Join(ps[1..], "\n\n");
      assert Join(ps, "\n\n") == ps[0] + ("\n\n" + rest);
      CollapseAppend(ps[0], "\n\n" + rest);
      CollapseJoin(ps[1..]);
      CollapseAfterSeparator(rest);
      assert CollapseAll(ps)[1..] == CollapseAll(ps[1..]);
    }
  }

  lemma {:induction false} CollapseKeepsWellFormed(p: string)
    requires WellFormed(p)
    ensures WellFormed(CollapseBlanks(p))
    ensures CollapseBlanks(p)[0] == p[0]
  {
    var r := CollapseBlanks(p);
    var init := p[..|p| - 1];
    var last := p[|p| - 1];
    assert p == init + [last];
    CollapseAppend(init, [last]);
    assert CollapseBlanks([last]) == [last];
    assert r[|r| - 1] == last;
    CollapseShape(p);
  }

  lemma {:induction false} LimitNoNewline(p: string, t: string)
    requires '\n' !in p
    ensures LimitNewlines(p + t) == p + LimitNewlines(t)
  {
    if p == [] {
      assert p + t == t;
    } else {
      assert (p + t)[1..] == p[1..] + t;
      LimitNoNewline(p[1..], t);
    }
  }

  /** A blank-line separator before a line that starts with another character is kept. */
  lemma LimitSeparator(rest: string)
    requires rest != [] && rest[0] != '\n'
    ensures LimitNewlines("\n\n" + rest) == "\n\n" + LimitNewlines(rest)
  {
    var s := "\n\n" + rest;
    assert NewlineRun(s) == 2 by {
      assert s[1..] == "\n" + rest;
      assert s[1..][1..] == rest;
    }
    assert s[..2] == "\n\n";
    assert s[2..] == rest;
  }

  /** Paragraphs on one line joined by a blank line have no run of three line feeds. */
  lemma {:induction false} LimitJoin(ps: seq<string>)
    requires forall k :: 0 <= k < |ps| ==> ps[k] != [] && '\n' !in ps[k]
    ensures LimitNewlines(Join(ps, "\n\n")) == Join(ps, "\n\n")
  {
    if |ps| == 1 {
      LimitNoNewline(ps[0], []);
      assert ps[0] + [] == ps[0];
    } else if |ps| > 1 {
      var rest := Join(ps[1..], "\n\n");
      LimitJoin(ps[1..]);
      JoinFirstLast(ps[1..]);
      assert rest[0] == ps[1][0];
      LimitNoNewline(ps[0], "\n\n" + rest);
      LimitSeparator(rest);
      assert Join(ps, "\n\n") == ps[0] + ("\n\n" + rest);
    }
  }

  lemma {:induction false} JoinFirstLast(ps: seq<string>)
    requires |ps| > 0 && forall k :: 0 <= k < |ps| ==> ps[k] != []
    ensures |Join(ps, "\n\n")| > 0
    ensures Join(ps, "\n\n")[0] == ps[0][0]
    ensures Join(ps, "\n\n")[|Join(ps, "\n\n")| - 1] == ps[|ps| - 1][|ps[|ps| - 1]| - 1]
  {
    if |ps| > 1 {
      JoinFirstLast(ps[1..]);
    }
  }

  /** The structure of the result: the merged paragraphs, each with its blank runs
      collapsed, joined by a blank line. The later passes only collapse blanks. */
  lemma PreprocessStructure(text: string)
    ensures PreprocessText(text) == Join(CollapseAll(Paragraphs(Lines(text))), "\n\n")
    ensures forall k :: 0 <= k < |Paragraphs(Lines(text))| ==> WellFormed(CollapseAll(Paragraphs(Lines(text)))[k])
  {
    var ps := Paragraphs(Lines(text));
    ParagraphsWellFormed(Lines(text));
    var cps := CollapseAll(ps);
    forall k | 0 <= k < |cps| ensures WellFormed(cps[k]) {
      CollapseKeepsWellFormed(ps[k]);
    }
    CollapseJoin(ps);
    LimitJoin(cps);
    var j := Join(cps, "\n\n");
    if |cps| > 0 {
      JoinFirstLast(cps);
    }
    TrimOfTrimmed(j);
  }

  lemma {:induction false} JoinChars(ps: seq<string>, sep: string, c: char)
    requires c in Join(ps, sep)
    ensures c in sep || exists k :: 0 <= k < |ps| && c in ps[k]
  {
    if |ps| > 1 {
      var rest := Join(ps[1..], sep);
      assert Join(ps, sep) == ps[0] + sep + rest;
      if c !in ps[0] && c !in sep {
        JoinChars(ps[1..], sep, c);
        var k :| 0 <= k < |ps[1..]| && c in ps[1..][k];
        assert c in ps[k + 1];
      }
    }
  }

  lemma {:induction false} JoinNoDoubleBlank(ps: seq<string>)
    requires forall k :: 0 <= k < |ps| ==> ps[k] != [] && !IsBlank(ps[k][0]) && !IsBlank(ps[k][|ps[k]| - 1])
    requires forall k, i :: 0 <= k < |ps| && 0 <= i < |ps[k]| - 1 ==> !(IsBlank(ps[k][i]) && IsBlank(ps[k][i + 1]))
    ensures forall i :: 0 <= i < |Join(ps, "\n\n")| - 1 ==> !(IsBlank(Join(ps, "\n\n")[i]) && IsBlank(Join(ps, "\n\n")[i + 1]))
  {
    if |ps| > 1 {
      JoinNoDoubleBlank(ps[1..]);
      var rest := Join(ps[1..], "\n\n");
      var j := Join(ps, "\n\n");
      assert j == ps[0] + "\n\n" + rest;
      forall i | 0 <= i < |j| - 1 ensures !(IsBlank(j[i]) && IsBlank(j[i + 1])) {
        var n := |ps[0]|;
        if i + 1 < n {
          assert j[i] == ps[0][i] && j[i + 1] == ps[0][i + 1];
        } else if i >= n + 2 {
          assert j[i] == rest[i - n - 2] && j[i + 1] == rest[i - n - 1];
        } else if i + 1 == n {
          assert j[i] == ps[0][n - 1] && j[i + 1] == '\n';
        } else if i == n {
          assert j[i] == '\n';
        } else {
          assert j[i] == '\n';
        }
      }
    }
  }

  lemma CollapsedHasNoCr(p: string)
    ensures '\r' !in CollapseBlanks(p)
  {
    CollapseShape(p);
    var r := CollapseBlanks(p);
    forall k | 0 <= k < |r| ensures r[k] != '\r' {
    }
  }

  /** The result holds no carriage return. */
  lemma PreprocessNoCr(text: string)
    ensures '\r' !in PreprocessText(text)
  {
    PreprocessStructure(text);
    var cps := CollapseAll(Paragraphs(Lines(text)));
    forall k | 0 <= k < |cps| ensures '\r' !in cps[k] {
      CollapsedHasNoCr(Paragraphs(Lines(text))[k]);
    }
    if '\r' in Join(cps, "\n\n") {
      JoinChars(cps, "\n\n", '\r');
    }
  }

  /** The result never holds two whitespace characters other than line feeds side by side. */
  lemma PreprocessNoDoubleBlank(text: string)
    ensures forall i :: 0 <= i < |PreprocessText(text)| - 1 ==>
              !(IsBlank(PreprocessText(text)[i]) && IsBlank(PreprocessText(text)[i + 1]))
  {
    PreprocessStructure(text);
    var ps := Paragraphs(Lines(text));
    var cps := CollapseAll(ps);
    forall k | 0 <= k < |cps|
      ensures cps[k] != [] && !IsBlank(cps[k][0]) && !IsBlank(cps[k][|cps[k]| - 1])
    {
      assert WellFormed(cps[k]);
    }
    forall k, i | 0 <= k < |cps| && 0 <= i < |cps[k]| - 1
      ensures !(IsBlank(cps[k][i]) && IsBlank(cps[k][i + 1]))
    {
      CollapseShape(ps[k]);
    }
    JoinNoDoubleBlank(cps);
  }

  /** The result never holds three line feeds in a row, and there is nothing to trim. */
  lemma PreprocessNoTripleNewline(text: string)
    ensures !Contains(PreprocessText(text), "\n\n\n")
    ensures IsTrimmed(PreprocessText(text))
  {
    PreprocessStructure(text);
    var cps := CollapseAll(Paragraphs(Lines(text)));
    var r := Join(cps, "\n\n");
    if Contains(r, "\n\n\n") {
      var i := ContainsWitness(r, "\n\n\n");
      NoTripleNewline(cps, i);
      assert false;
    }
    if |cps| > 0 {
      JoinFirstLast(cps);
    }
  }

  lemma {:induction false} NoTripleNewline(ps: seq<string>, i: nat)
    requires forall k :: 0 <= k < |ps| ==> ps[k] != [] && '\n' !in ps[k]
    requires i + 3 <= |Join(ps, "\n\n")|
    ensures Join(ps, "\n\n")[i..i + 3] != "\n\n\n"
  {
    if |ps| == 1 {
      assert Join(ps, "\n\n")[i] in ps[0];
    } else if |ps| > 1 {
      var rest := Join(ps[1..], "\n\n");
      var j := Join(ps, "\n\n");
      var n := |ps[0]|;
      assert j == ps[0] + "\n\n" + rest;
      if i >= n + 2 {
        assert j[i..i + 3] == rest[i - n - 2..i - n + 1];
        NoTripleNewline(ps[1..], i - n - 2);
      } else if i < n {
        assert j[i] == ps[0][i];
        assert j[i..i + 3][0] == j[i];
      } else {
        assert |ps[1]| > 0 && rest[0] == ps[1][0] by { JoinFirstLast(ps[1..]); }
        assert j[n + 2] == rest[0];
        assert j[n + 2] in ps[1];
        assert j[i..i + 3][2 - (i - n)] == j[n + 2];
      }
    }
  }

  // ---------------------------------------------------------------------------------
  // Nothing visible is lost

  lemma {:induction false} ReplaceCrLfVisible(s: string)
    ensures Visible(ReplaceCrLf(s)) == Visible(s)
  {
    if |s| >= 2 && s[0] == '\r' && s[1] == '\n' {
      ReplaceCrLfVisible(s[2..]);
      assert s == "\r\n" + s[2..];
      VisibleAppend("\r\n", s[2..]);
      VisibleAppend("\n", ReplaceCrLf(s[2..]));
    } else if s != [] {
      ReplaceCrLfVisible(s[1..]);
      assert s == [s[0]] + s[1..];
      VisibleAppend([s[0]], s[1..]);
      VisibleAppend([s[0]], ReplaceCrLf(s[1..]));
    }
  }

  lemma {:induction false} ReplaceCrVisible(s: string)
    ensures Visible(ReplaceCr(s)) == Visible(s)
  {
    if s != [] {
      ReplaceCrVisible(s[1..]);
      var c := if s[0] == '\r' then '\n' else s[0];
      assert s == [s[0]] + s[1..];
      VisibleAppend([s[0]], s[1..]);
      VisibleAppend([c], ReplaceCr(s[1..]));
    }
  }

  lemma {:induction false} SkipBlanksVisible(s: string)
    ensures Visible(SkipBlanks(s)) == Visible(s)
  {
    if |s| > 0 && IsBlank(s[0]) {
      SkipBlanksVisible(s[1..]);
    }
  }

  lemma {:induction false} CollapseVisible(s: string)
    ensures Visible(CollapseBlanks(s)) == Visible(s)
    decreases |s|
  {
    if s != [] {
      var t := if IsBlank(s[0]) then SkipBlanks(s) else s[1..];
      var head := if IsBlank(s[0]) then " " else [s[0]];
      assert CollapseBlanks(s) == head + CollapseBlanks(t);
      CollapseVisible(t);
      VisibleAppend(head, CollapseBlanks(t));
      if IsBlank(s[0]) {
        SkipBlanksVisible(s);
      } else {
        assert s == [s[0]] + s[1..];
        VisibleAppend([s[0]], s[1..]);
      }
    }
  }

  lemma {:induction false} VisibleConcatCollapseAll(ps: seq<string>)
    ensures Visible(Concat(CollapseAll(ps))) == Visible(Concat(ps))
  {
    if ps != [] {
      VisibleConcatCollapseAll(ps[1..]);
      assert CollapseAll(ps)[1..] == CollapseAll(ps[1..]);
      VisibleAppend(CollapseBlanks(ps[0]), Concat(CollapseAll(ps[1..])));
      VisibleAppend(ps[0], Concat(ps[1..]));
      CollapseVisible(ps[0]);
    }
  }

  lemma LinesVisible(text: string)
    ensures Visible(Concat(Lines(text))) == Visible(text)
  {
    var n := NormalizeNewlines(StripBom(text));
    JoinSplit(n, '\n');
    VisibleJoin(Split(n, '\n'), "\n");
    ReplaceCrVisible(ReplaceCrLf(StripBom(text)));
    ReplaceCrLfVisible(StripBom(text));
    if |text| > 0 && text[0] == '\U{FEFF}' {
      assert text == [text[0]] + text[1..];
      VisibleAppend([text[0]], text[1..]);
    }
  }

  /** Preprocessing only moves whitespace: the characters that are not whitespace come
      out exactly as they went in, none lost, added or reordered. */
  lemma PreprocessKeepsVisible(text: string)
    ensures Visible(PreprocessText(text)) == Visible(text)
  {
    var lines := Lines(text);
    var ps := Paragraphs(lines);
    calc {
      Visible(PreprocessText(text));
      { PreprocessStructure(text); }
      Visible(Join(CollapseAll(ps), "\n\n"));
      { VisibleJoin(CollapseAll(ps), "\n\n"); }
      Visible(Concat(CollapseAll(ps)));
      { VisibleConcatCollapseAll(ps); }
      Visible(Concat(ps));
      { ParagraphsWellFormed(lines); }
      Visible(Concat(TrimAll(lines)));
      { VisibleConcatTrimAll(lines); }
      Visible(Concat(lines));
      { LinesVisible(text); }
      Visible(text);
    }
  }

  // ---------------------------------------------------------------------------------
  // The flush rules on small inputs

  lemma FoldSnoc(lines: seq<string>, raw: string)
    ensures Fold(lines + [raw]) == MergeStep(Fold(lines), raw)
  {
    assert (lines + [raw])[..|lines|] == lines;
  }

  /** Only the end of a line is looked at: a full stop inside a line splits nothing. */
  lemma MidLineFullStopKeepsParagraph()
    ensures Paragraphs(["甲。乙"]) == ["甲。乙"]
  {
    var a := "甲。乙";
    TrimOfTrimmed(a);
    FoldSnoc([], a);
    assert [] + [a] == [a];
    assert !EndsSentence(a);
    assert Absorb(MergeState([], ""), a, a) == MergeState([], a);
  }

  /** Hard-wrapped lines are glued back together until a line ends a sentence. */
  lemma WrappedLinesRejoin(a: string, b: string, c: string)
    requires WellFormed(a) && WellFormed(b) && WellFormed(c)
    requires !EndsSentence(a) && EndsSentence(b) && !EndsSentence(c)
    ensures Paragraphs([a, b, c]) == [a + b, c]
  {
    FoldSnoc([], a);
    assert [] + [a] == [a];
    OpenStep([], a);
    FoldSnoc([a], b);
    assert [a] + [b] == [a, b];
    CloseStep(a, b);
    FoldSnoc([a, b], c);
    assert [a, b] + [c] == [a, b, c];
    OpenStep([a + b], c);
  }

  /** A well-formed line that does not end a sentence opens a paragraph when none is open. */
  lemma OpenStep(flushed: seq<string>, a: string)
    requires WellFormed(a) && !EndsSentence(a)
    ensures MergeStep(MergeState(flushed, ""), a) == MergeState(flushed, a)
  {
    TrimOfTrimmed(a);
    assert "" + a == a;
  }

  /** A well-formed line that ends a sentence is glued to the open paragraph and closes it. */
  lemma CloseStep(a: string, b: string)
    requires a != "" && WellFormed(b) && EndsSentence(b)
    ensures MergeStep(MergeState([], a), b) == MergeState([a + b], "")
  {
    TrimOfTrimmed(b);
    NotIndented(b);
  }

  lemma NotIndented(b: string)
    requires b != [] && !IsWS(b[0])
    ensures !IsIndented(b)
  {
    assert b[..1][0] == b[0];
    if |b| >= 2 { assert b[..2][0] == b[0]; }
  }

  /** An indented line closes the open paragraph and starts a new one. */
  lemma IndentedLineSplits(a: string, b: string)
    requires WellFormed(a) && !EndsSentence(a)
    requires IsIndented(b) && Trim(b) != "" && !EndsSentence(Trim(b))
    ensures Paragraphs([a, b]) == [a, Trim(b)]
  {
    TrimOfTrimmed(a);
    FoldSnoc([], a);
    assert [] + [a] == [a];
    assert Fold([a]) == MergeState([], a);
    FoldSnoc([a], b);
    assert [a] + [b] == [a, b];
  }
}
