/** The fill-in-the-blank practice and word lists of src/pages/Week2.tsx: how a blank-like part
    of the practice text finds its blank, how answers are checked, how hints are cleaned, how
    keywords are split and how the word list is merged. */
module BlankPractice {
  import opened Strings

  /** A blank of a generated lesson: its id, the expected answer and an optional hint. */
  datatype Blank = Blank(id: int, answer: string, hint: Option<string>)

  /** A piece of the practice text. A blank-like piece carries the id and hint its pattern
      captured; which pattern matched is decided before resolution and is an input here. */
  datatype Part = Plain(text: string) | BlankLike(text: string, idStr: Option<string>, hint: Option<string>)

  /** What a piece is shown as: its text, or an answer field for a blank. */
  datatype Rendered = Text(text: string) | Field(blank: Blank)

  // ---------------------------------------------------------------------------------
  // Full-width digits

  predicate IsFullWidthDigit(c: char) {
    '０' <= c <= '９'
  }

  function NormalizeDigit(c: char): char {
    if IsFullWidthDigit(c) then (c as int - 0xFEE0) as char else c
  }

  /** The hint with every full-width digit replaced by its ASCII digit. */
  function NormalizeDigits(s: string): (r: string)
    ensures |r| == |s|
  {
    if s == [] then [] else NormalizeDigits(s[..|s| - 1]) + [NormalizeDigit(s[|s| - 1])]
  }

  /** A full-width digit becomes the ASCII digit of the same value, and every other character is
      kept; so no full-width digit is left and normalising again changes nothing. */
  lemma {:induction false} NormalizeDigitsSpec(s: string)
    ensures forall k :: 0 <= k < |s| ==>
      (IsFullWidthDigit(s[k]) ==> IsDigit(NormalizeDigits(s)[k])
                                  && DigitValue(NormalizeDigits(s)[k]) == s[k] as int - '０' as int)
      && (!IsFullWidthDigit(s[k]) ==> NormalizeDigits(s)[k] == s[k])
    ensures forall k :: 0 <= k < |s| ==> !IsFullWidthDigit(NormalizeDigits(s)[k])
  {
    if s != [] {
      NormalizeDigitsSpec(s[..|s| - 1]);
    }
  }

  lemma NormalizeDigitsIdempotent(s: string)
    ensures NormalizeDigits(NormalizeDigits(s)) == NormalizeDigits(s)
  {
    NormalizeDigitsSpec(s);
    NormalizeDigitsSpec(NormalizeDigits(s));
  }

  // ---------------------------------------------------------------------------------
  // Resolution

  /** The tests a blank can be found by: its id, its hint equal to the hint or to the
      normalised hint, or its hint overlapping the hint. */
  datatype Rule = IdIs(id: int) | HintIs(hint: string, normalized: string) | HintOverlaps(hint: string)

  predicate Matches(rule: Rule, b: Blank) {
    match rule
    case IdIs(id) => b.id == id
    case HintIs(hint, normalized) => b.hint == Some(hint) || b.hint == Some(normalized)
    case HintOverlaps(hint) => Truthy(b.hint) && (Contains(b.hint.value, hint) || Contains(hint, b.hint.value))
  }

  /** `blanks.find(...)`, as the index found, or -1. */
  function FindIndex(blanks: seq<Blank>, rule: Rule): (i: int)
    ensures -1 <= i < |blanks|
    ensures 0 <= i ==> Matches(rule, blanks[i]) && forall j :: 0 <= j < i ==> !Matches(rule, blanks[j])
    ensures i < 0 ==> forall j :: 0 <= j < |blanks| ==> !Matches(rule, blanks[j])
  {
    if blanks == [] then -1
    else if Matches(rule, blanks[0]) then 0
    else
      var i := FindIndex(blanks[1..], rule);
      if i < 0 then -1 else i + 1
  }

  function Find(blanks: seq<Blank>, rule: Rule): Option<Blank> {
    var i := FindIndex(blanks, rule);
    if i < 0 then None else Some(blanks[i])
  }

  /** The part's hint with full-width digits made ASCII, or empty without a hint. */
  function NormalizedHint(hint: Option<string>): string {
    if Truthy(hint) then NormalizeDigits(hint.value) else ""
  }

  /** The blank a blank-like part stands for, found by the first rule that finds one: the
      explicit numeric id, the normalised hint read as an id, a hint equal to a blank's hint,
      a hint overlapping a blank's hint, and last the blank at the position `counter`. */
  function Resolve(part: Part, blanks: seq<Blank>, counter: nat): Option<Blank>
    requires part.BlankLike?
  {
    var hint := part.hint;
    var normalized := NormalizedHint(hint);
    var byId := if Truthy(part.idStr) && IsDigits(part.idStr.value)
                then Find(blanks, IdIs(ParseNat(part.idStr.value))) else None;
    var byHintId := if byId.None? && normalized != "" && IsDigits(normalized)
                    then Find(blanks, IdIs(ParseNat(normalized))) else byId;
    var byExact := if byHintId.None? && Truthy(hint)
                   then Find(blanks, HintIs(hint.value, normalized)) else byHintId;
    var byOverlap := if byExact.None? && Truthy(hint)
                     then Find(blanks, HintOverlaps(hint.value)) else byExact;
    if byOverlap.None? && counter < |blanks| then Some(blanks[counter]) else byOverlap
  }

  /** How many blank-like parts there are. */
  function BlankLikeCount(parts: seq<Part>): (n: nat)
    ensures n <= |parts|
  {
    if parts == [] then 0
    else BlankLikeCount(parts[..|parts| - 1]) + (if parts[|parts| - 1].BlankLike? then 1 else 0)
  }

  function RenderPart(part: Part, blanks: seq<Blank>, counter: nat): Rendered {
    if part.Plain? then Text(part.text)
    else
      var blank := Resolve(part, blanks, counter);
      if blank.Some? then Field(blank.value) else Text(part.text)
  }

  /** The practice text as shown: each part in order, a blank-like part resolved with the
      number of blank-like parts before it as its position. */
  function Rendering(parts: seq<Part>, blanks: seq<Blank>): (r: seq<Rendered>)
    ensures |r| == |parts|
  {
    if parts == [] then []
    else
      var n := |parts| - 1;
      Rendering(parts[..n], blanks) + [RenderPart(parts[n], blanks, BlankLikeCount(parts[..n]))]
  }

  /** The resolution steps of `renderPracticeText` for one blank-like part, each tried only
      when the earlier ones found nothing. */
  method ResolveBlank(part: Part, blanks: seq<Blank>, blankIndexCounter: nat) returns (blank: Option<Blank>)
    requires part.BlankLike?
    ensures blank == Resolve(part, blanks, blankIndexCounter)
  {
    blank := None;
    if Truthy(part.idStr) && IsDigits(part.idStr.value) {
      blank := Find(blanks, IdIs(ParseNat(part.idStr.value)));
    }
    var normalizedHint := NormalizedHint(part.hint);
    if blank.None? && normalizedHint != "" && IsDigits(normalizedHint) {
      blank := Find(blanks, IdIs(ParseNat(normalizedHint)));
    }
    if blank.None? && Truthy(part.hint) {
      var hint := part.hint.value;
      blank := Find(blanks, HintIs(hint, normalizedHint));
      if blank.None? {
        blank := Find(blanks, HintOverlaps(hint));
      }
    }
    if blank.None? {
      if blankIndexCounter < |blanks| {
        blank := Some(blanks[blankIndexCounter]);
      }
    }
  }

  /** `renderPracticeText`: the walk over the parts with the running counter of blank-like
      parts, which grows for every blank-like part whether or not a blank is found. */
  method RenderPracticeText(parts: seq<Part>, blanks: seq<Blank>) returns (out: seq<Rendered>)
    ensures out == Rendering(parts, blanks)
  {
    out := [];
    var blankIndexCounter := 0;
    for i := 0 to |parts|
      invariant out == Rendering(parts[..i], blanks)
      invariant blankIndexCounter == BlankLikeCount(parts[..i])
    {
      assert parts[..i + 1][..i] == parts[..i];
      var part := parts[i];
      if part.BlankLike? {
        var blank := ResolveBlank(part, blanks, blankIndexCounter);
        blankIndexCounter := blankIndexCounter + 1;
        if blank.None? {
          out := out + [Text(part.text)];
        } else {
          out := out + [Field(blank.value)];
        }
      } else {
        out := out + [Text(part.text)];
      }
    }
    assert parts[..|parts|] == parts;
  }

  lemma RenderingAt(parts: seq<Part>, blanks: seq<Blank>, k: nat)
    requires k < |parts|
    ensures Rendering(parts, blanks)[k] == RenderPart(parts[k], blanks, BlankLikeCount(parts[..k]))
    decreases |parts|
  {
    var n := |parts| - 1;
    if k < n {
      assert parts[..n][k] == parts[k];
      assert parts[..n][..k] == parts[..k];
      RenderingAt(parts[..n], blanks, k);
    }
  }

  /** Every part is shown, in order: a plain part as its text, a blank-like part as a field for
      a blank of the lesson or, when none is found, as its text. */
  lemma RenderingShape(parts: seq<Part>, blanks: seq<Blank>, k: nat)
    requires k < |parts|
    ensures var r := Rendering(parts, blanks)[k];
      (parts[k].Plain? ==> r == Text(parts[k].text))
      && (r.Field? ==> r.blank in blanks)
      && (r.Text? ==> r.text == parts[k].text)
  {
    RenderingAt(parts, blanks, k);
    if parts[k].BlankLike? {
      ResolveInBlanks(parts[k], blanks, BlankLikeCount(parts[..k]));
    }
  }

  lemma ResolveInBlanks(part: Part, blanks: seq<Blank>, counter: nat)
    requires part.BlankLike?
    ensures Resolve(part, blanks, counter).Some? ==> Resolve(part, blanks, counter).value in blanks
  {
  }

  /** An explicit numeric id wins: the part gets the first blank with that id whenever there
      is one. */
  lemma ExplicitIdWins(part: Part, blanks: seq<Blank>, counter: nat, k: nat)
    requires part.BlankLike? && Truthy(part.idStr) && IsDigits(part.idStr.value)
    requires k < |blanks| && blanks[k].id == ParseNat(part.idStr.value)
    ensures Resolve(part, blanks, counter).Some?
    ensures var b := Resolve(part, blanks, counter).value;
      b.id == ParseNat(part.idStr.value)
      && exists i :: 0 <= i <= k && blanks[i] == b && forall j :: 0 <= j < i ==> blanks[j].id != b.id
  {
    var i := FindIndex(blanks, IdIs(ParseNat(part.idStr.value)));
    assert Matches(IdIs(ParseNat(part.idStr.value)), blanks[k]);
  }

  /** Step A finds nothing: there is no numeric id, or no blank has it. */
  predicate NoIdMatch(part: Part, blanks: seq<Blank>)
    requires part.BlankLike?
  {
    !(Truthy(part.idStr) && IsDigits(part.idStr.value))
    || forall j :: 0 <= j < |blanks| ==> !Matches(IdIs(ParseNat(part.idStr.value)), blanks[j])
  }

  /** Step B finds nothing: the normalised hint is not a number, or no blank has it as id. */
  predicate NoHintIdMatch(part: Part, blanks: seq<Blank>)
    requires part.BlankLike?
  {
    var n := NormalizedHint(part.hint);
    !(n != "" && IsDigits(n)) || forall j :: 0 <= j < |blanks| ==> !Matches(IdIs(ParseNat(n)), blanks[j])
  }

  /** `blanks[i]` is the first blank the rule matches. */
  predicate FirstMatch(blanks: seq<Blank>, rule: Rule, i: int) {
    0 <= i < |blanks| && Matches(rule, blanks[i]) && forall j :: 0 <= j < i ==> !Matches(rule, blanks[j])
  }

  /** Step B: when no blank has the explicit id, a hint that is a number (full-width digits
      allowed) selects the first blank with that id. */
  lemma HintAsIdWins(part: Part, blanks: seq<Blank>, counter: nat, k: nat)
    requires part.BlankLike? && NoIdMatch(part, blanks)
    requires NormalizedHint(part.hint) != "" && IsDigits(NormalizedHint(part.hint))
    requires k < |blanks| && Matches(IdIs(ParseNat(NormalizedHint(part.hint))), blanks[k])
    ensures exists i :: FirstMatch(blanks, IdIs(ParseNat(NormalizedHint(part.hint))), i)
                        && Resolve(part, blanks, counter) == Some(blanks[i])
  {
    var rule := IdIs(ParseNat(NormalizedHint(part.hint)));
    var i := FindIndex(blanks, rule);
    assert FirstMatch(blanks, rule, i);
  }

  /** Step C: when neither id finds a blank, the first blank whose hint equals the hint or the
      normalised hint is taken. */
  lemma ExactHintWins(part: Part, blanks: seq<Blank>, counter: nat, k: nat)
    requires part.BlankLike? && Truthy(part.hint) && NoIdMatch(part, blanks) && NoHintIdMatch(part, blanks)
    requires k < |blanks| && Matches(HintIs(part.hint.value, NormalizedHint(part.hint)), blanks[k])
    ensures exists i :: FirstMatch(blanks, HintIs(part.hint.value, NormalizedHint(part.hint)), i)
                        && Resolve(part, blanks, counter) == Some(blanks[i])
  {
    var rule := HintIs(part.hint.value, NormalizedHint(part.hint));
    var i := FindIndex(blanks, rule);
    assert FirstMatch(blanks, rule, i);
  }

  /** Step D: when no hint is equal either, the first blank whose hint contains the part's
      hint or is contained in it is taken. */
  lemma OverlapHintWins(part: Part, blanks: seq<Blank>, counter: nat, k: nat)
    requires part.BlankLike? && Truthy(part.hint) && NoIdMatch(part, blanks) && NoHintIdMatch(part, blanks)
    requires forall j :: 0 <= j < |blanks| ==> !Matches(HintIs(part.hint.value, NormalizedHint(part.hint)), blanks[j])
    requires k < |blanks| && Matches(HintOverlaps(part.hint.value), blanks[k])
    ensures exists i :: FirstMatch(blanks, HintOverlaps(part.hint.value), i)
                        && Resolve(part, blanks, counter) == Some(blanks[i])
  {
    var i := FindIndex(blanks, HintOverlaps(part.hint.value));
    assert FirstMatch(blanks, HintOverlaps(part.hint.value), i);
  }

  /** Step E: when every search fails, the part takes the blank at the counter, or none past
      the last blank. */
  lemma PositionWhenUnmatched(part: Part, blanks: seq<Blank>, counter: nat)
    requires part.BlankLike? && NoIdMatch(part, blanks) && NoHintIdMatch(part, blanks)
    requires Truthy(part.hint) ==>
               forall j :: 0 <= j < |blanks| ==> !Matches(HintIs(part.hint.value, NormalizedHint(part.hint)), blanks[j])
                                                 && !Matches(HintOverlaps(part.hint.value), blanks[j])
    ensures Resolve(part, blanks, counter) == if counter < |blanks| then Some(blanks[counter]) else None
  {
  }

  /** A part with neither id nor hint takes the blank at its position among the blank-like
      parts, and is shown as text past the last blank. */
  lemma PositionFallback(parts: seq<Part>, blanks: seq<Blank>, k: nat)
    requires k < |parts| && parts[k].BlankLike?
    requires !Truthy(parts[k].idStr) && !Truthy(parts[k].hint)
    ensures var c := BlankLikeCount(parts[..k]);
      Rendering(parts, blanks)[k] == if c < |blanks| then Field(blanks[c]) else Text(parts[k].text)
  {
    RenderingAt(parts, blanks, k);
  }

  /** The counter counts every blank-like part, resolved or not. */
  lemma {:induction false} CounterCountsBlankLike(parts: seq<Part>, k: nat)
    requires k <= |parts|
    ensures BlankLikeCount(parts[..k]) == |set i | 0 <= i < k && parts[i].BlankLike?|
  {
    if k > 0 {
      CounterCountsBlankLike(parts, k - 1);
      assert parts[..k][..k - 1] == parts[..k - 1];
      var before := set i | 0 <= i < k - 1 && parts[i].BlankLike?;
      var now := set i | 0 <= i < k && parts[i].BlankLike?;
      if parts[k - 1].BlankLike? {
        assert now == before + {k - 1};
      } else {
        assert now == before;
      }
    }
  }

  // ---------------------------------------------------------------------------------
  // Answers

  /** A blank is answered correctly when the answer stored under its id, trimmed, is its
      answer. */
  predicate IsCorrect(answers: map<int, string>, blank: Blank) {
    blank.id in answers && Trim(answers[blank.id]) == blank.answer
  }

  /** Whitespace around an answer does not matter... */
  lemma SurroundingSpaceIgnored(answers: map<int, string>, blank: Blank, pad1: string, pad2: string)
    requires AllWS(pad1) && AllWS(pad2) && IsTrimmed(blank.answer) && blank.answer != ""
    ensures IsCorrect(answers[blank.id := pad1 + blank.answer + pad2], blank)
  {
    TrimPadded(pad1, blank.answer, pad2);
  }

  /** ...but a blank whose expected answer has surrounding whitespace can never be answered
      correctly. */
  lemma AnswerableIffTrimmed(answers: map<int, string>, blank: Blank)
    ensures IsCorrect(answers[blank.id := blank.answer], blank) <==> IsTrimmed(blank.answer)
    ensures !IsTrimmed(blank.answer) ==> !IsCorrect(answers, blank)
  {
    if IsTrimmed(blank.answer) {
      TrimOfTrimmed(blank.answer);
    }
  }

  /** The scenario exercise's state. */
  datatype Status = Testing | Success | Fail

  /** `targets.some(t => input.includes(t) || t.includes(input))` */
  predicate AnyOverlap(targets: seq<string>, input: string) {
    targets != [] && (Contains(input, targets[0]) || Contains(targets[0], input) || AnyOverlap(targets[1..], input))
  }

  lemma {:induction false} AnyOverlapIff(targets: seq<string>, input: string)
    ensures AnyOverlap(targets, input)
            <==> exists k :: 0 <= k < |targets| && (Contains(input, targets[k]) || Contains(targets[k], input))
  {
    if targets != [] {
      AnyOverlapIff(targets[1..], input);
      if AnyOverlap(targets[1..], input) {
        var k :| 0 <= k < |targets[1..]| && (Contains(input, targets[1..][k]) || Contains(targets[1..][k], input));
        assert targets[k + 1] == targets[1..][k];
      }
      if exists k :: 0 <= k < |targets| && (Contains(input, targets[k]) || Contains(targets[k], input)) {
        var k :| 0 <= k < |targets| && (Contains(input, targets[k]) || Contains(targets[k], input));
        if k > 0 {
          assert targets[1..][k - 1] == targets[k];
        }
      }
    }
  }

  /** `check()` of the scenario exercise: nothing happens without data or with a blank input;
      otherwise it succeeds exactly when some target and the trimmed input contain one another. */
  function Check(targets: Option<seq<string>>, input: string, status: Status): (r: Status)
    ensures targets.None? || Trim(input) == "" ==> r == status
    ensures targets.Some? && Trim(input) != "" ==>
              (r == Success <==> exists k :: 0 <= k < |targets.value|
                                  && (Contains(Trim(input), targets.value[k]) || Contains(targets.value[k], Trim(input))))
    ensures targets.Some? && Trim(input) != "" ==> r != Testing
  {
    if targets.None? then status
    else
      var normalized := Trim(input);
      if normalized == "" then status
      else
        AnyOverlapIff(targets.value, normalized);
        if AnyOverlap(targets.value, normalized) then Success else Fail
  }

  /** A target typed with surrounding spaces passes. */
  lemma TargetPasses(targets: seq<string>, k: nat, pad1: string, pad2: string)
    requires k < |targets| && targets[k] != "" && IsTrimmed(targets[k]) && AllWS(pad1) && AllWS(pad2)
    ensures Check(Some(targets), pad1 + targets[k] + pad2, Testing) == Success
  {
    TrimPadded(pad1, targets[k], pad2);
    ContainsAt(targets[k], targets[k], 0);
  }

  /** An empty target accepts every non-blank input. */
  lemma EmptyTargetAcceptsAll(targets: seq<string>, k: nat, input: string)
    requires k < |targets| && targets[k] == "" && Trim(input) != ""
    ensures Check(Some(targets), input, Testing) == Success
  {
    ContainsAt(Trim(input), "", 0);
  }

  lemma TrimPadded(pad1: string, s: string, pad2: string)
    requires AllWS(pad1) && AllWS(pad2) && IsTrimmed(s) && s != ""
    ensures Trim(pad1 + s + pad2) == s
  {
    assert pad1 + s + pad2 == pad1 + (s + pad2);
    TrimStartOfPadded(pad1, s + pad2);
    TrimEndOfPadded(s, pad2);
  }

  lemma {:induction false} TrimStartOfPadded(pad: string, s: string)
    requires AllWS(pad) && s != [] && !IsWS(s[0])
    ensures TrimStart(pad + s) == s
  {
    if pad != [] {
      assert (pad + s)[1..] == pad[1..] + s;
      TrimStartOfPadded(pad[1..], s);
    } else {
      assert pad + s == s;
    }
  }

  lemma {:induction false} TrimEndOfPadded(s: string, pad: string)
    requires AllWS(pad) && s != [] && !IsWS(s[|s| - 1])
    ensures TrimEnd(s + pad) == s
  {
    if pad != [] {
      var n := |pad| - 1;
      assert (s + pad)[..|s + pad| - 1] == s + pad[..n];
      TrimEndOfPadded(s, pad[..n]);
    } else {
      assert s + pad == s;
    }
  }

  // ---------------------------------------------------------------------------------
  // Hints

  predicate IsParen(c: char) {
    c == '（' || c == '(' || c == ')' || c == '）'
  }

  /** Where the text after a leading `提示词` or `提示` label ends: an optional opening
      parenthesis before it, an optional colon and any whitespace after it; 0 without a label. */
  function LabelEnd(s: string): (j: nat)
    ensures j <= |s|
  {
    var i := if |s| > 0 && (s[0] == '（' || s[0] == '(') then 1 else 0;
    if i + 2 <= |s| && s[i] == '提' && s[i + 1] == '示' then
      var after := if i + 2 < |s| && s[i + 2] == '词' then i + 3 else i + 2;
      var c := if after < |s| && (s[after] == ':' || s[after] == '：') then after + 1 else after;
      SkipWS(s, c)
    else 0
  }

  function SkipWS(s: string, i: nat): (j: nat)
    requires i <= |s|
    ensures i <= j <= |s|
    decreases |s| - i
  {
    if i < |s| && IsWS(s[i]) then SkipWS(s, i + 1) else i
  }

  /** The characters of `s` that are not parentheses. */
  function DropParens(s: string): (r: string)
    ensures |r| <= |s|
  {
    if s == [] then []
    else DropParens(s[..|s| - 1]) + (if IsParen(s[|s| - 1]) then [] else [s[|s| - 1]])
  }

  /** Without a closing parenthesis at the end. */
  function Unclosed(s: string): (r: string)
    ensures |r| <= |s|
  {
    if |s| > 0 && (s[|s| - 1] == ')' || s[|s| - 1] == '）') then s[..|s| - 1] else s
  }

  /** The cleanup of a hint: the leading label, a closing parenthesis at the end and every
      parenthesis removed, then trimmed. */
  function CleanHint(raw: string): string {
    Trim(DropParens(Unclosed(raw[LabelEnd(raw)..])))
  }

  /** The hint shown in an answer field: the blank's hint, else the part's, cleaned. */
  function DisplayHint(blankHint: Option<string>, partHint: Option<string>): string {
    var raw := if Truthy(blankHint) then blankHint.value else if Truthy(partHint) then partHint.value else "";
    if raw == "" then "" else CleanHint(raw)
  }

  lemma {:induction false} DropParensSpec(s: string)
    ensures forall k :: 0 <= k < |DropParens(s)| ==> !IsParen(DropParens(s)[k]) && DropParens(s)[k] in s
    ensures (forall k :: 0 <= k < |s| ==> !IsParen(s[k])) ==> DropParens(s) == s
  {
    if s != [] {
      DropParensSpec(s[..|s| - 1]);
      assert s == s[..|s| - 1] + [s[|s| - 1]];
    }
  }

  /** Trimming text without parentheses leaves none. */
  lemma TrimNoParens(s: string)
    requires forall k :: 0 <= k < |s| ==> !IsParen(s[k])
    ensures forall k :: 0 <= k < |Trim(s)| ==> !IsParen(Trim(s)[k])
  {
    TrimIsSlice(s);
  }

  /** The hint shown holds no parenthesis and has no surrounding whitespace. */
  lemma DisplayHintSpec(blankHint: Option<string>, partHint: Option<string>)
    ensures var d := DisplayHint(blankHint, partHint);
      IsTrimmed(d) && forall k :: 0 <= k < |d| ==> !IsParen(d[k])
  {
    var raw := if Truthy(blankHint) then blankHint.value else if Truthy(partHint) then partHint.value else "";
    if raw != "" {
      var dropped := DropParens(Unclosed(raw[LabelEnd(raw)..]));
      DropParensSpec(Unclosed(raw[LabelEnd(raw)..]));
      TrimNoParens(dropped);
    }
  }

  /** `[（(]?`, `提示词|提示` and `[:：]?` */
  predicate IsOpening(o: string) { o == "" || o == "（" || o == "(" }
  predicate IsLabel(w: string) { w == "提示" || w == "提示词" }
  predicate IsColon(c: string) { c == "" || c == ":" || c == "：" }

  /** `\s*` from `i` stops at the end of the whitespace run `s[i..j]`. */
  lemma {:induction false} SkipWSRun(s: string, i: nat, j: nat)
    requires i <= j <= |s| && forall m :: i <= m < j ==> IsWS(s[m])
    requires j == |s| || !IsWS(s[j])
    ensures SkipWS(s, i) == j
    decreases j - i
  {
    if i < j {
      SkipWSRun(s, i + 1, j);
    }
  }

  /** The leading label is removed for every hint of the form opening, label, colon,
      whitespace and body, when the greedy match of `^[（(]?(?:提示词|提示)[:：]?\s*` takes
      exactly those pieces: the body does not start with whitespace, and a piece left out
      is not there to be taken. The body is then cleaned of a closing parenthesis at the
      end and of every parenthesis, and trimmed. */
  lemma LabelRemoved(o: string, w: string, c: string, ws: string, body: string, partHint: Option<string>)
    requires IsOpening(o) && IsLabel(w) && IsColon(c) && AllWS(ws)
    requires w == "提示" ==> c + (ws + body) == [] || (c + (ws + body))[0] != '词'
    requires c == "" ==> ws + body == [] || ((ws + body)[0] != ':' && (ws + body)[0] != '：')
    requires body == [] || !IsWS(body[0])
    ensures DisplayHint(Some(o + (w + (c + (ws + body)))), partHint) == Trim(DropParens(Unclosed(body)))
  {
    var raw := o + (w + (c + (ws + body)));
    LabelEndOf(raw, o, w, c, ws, body);
    DropPieces(o, w, c, ws, body);
    assert |raw| >= 2;
    assert raw[LabelEnd(raw)..] == body;
    assert CleanHint(raw) == Trim(DropParens(Unclosed(body)));
  }

  lemma DropPieces(o: string, w: string, c: string, ws: string, body: string)
    ensures (o + (w + (c + (ws + body))))[|o| + |w| + |c| + |ws|..] == body
  {
    var rs := ws + body;
    var rc := c + rs;
    var rw := w + rc;
    var raw := o + rw;
    assert raw[|o|..] == rw;
    assert raw[|o| + |w|..] == rw[|w|..] == rc;
    assert raw[|o| + |w| + |c|..] == rc[|c|..] == rs;
    assert raw[|o| + |w| + |c| + |ws|..] == rs[|ws|..] == body;
  }

  /** Where the label of such a hint ends. */
  lemma LabelEndOf(raw: string, o: string, w: string, c: string, ws: string, body: string)
    requires raw == o + (w + (c + (ws + body)))
    requires IsOpening(o) && IsLabel(w) && IsColon(c) && AllWS(ws)
    requires w == "提示" ==> c + (ws + body) == [] || (c + (ws + body))[0] != '词'
    requires c == "" ==> ws + body == [] || ((ws + body)[0] != ':' && (ws + body)[0] != '：')
    requires body == [] || !IsWS(body[0])
    ensures LabelEnd(raw) == |o| + |w| + |c| + |ws|
  {
    var i := |o|;
    var after := i + |w|;
    var colonEnd := after + |c|;
    var end := colonEnd + |ws|;
    var rest := c + (ws + body);
    assert raw[i] == w[0] && raw[i + 1] == w[1];
    if o != "" {
      assert raw[0] == o[0];
    }
    assert i == (if |raw| > 0 && (raw[0] == '（' || raw[0] == '(') then 1 else 0);
    if w == "提示词" {
      assert raw[i + 2] == w[2];
    } else if after < |raw| {
      assert raw[after] == rest[0];
    }
    assert after == (if i + 2 < |raw| && raw[i + 2] == '词' then i + 3 else i + 2);
    if after < |raw| {
      assert raw[after] == rest[0];
    }
    assert colonEnd == (if after < |raw| && (raw[after] == ':' || raw[after] == '：') then after + 1 else after);
    forall m | colonEnd <= m < end ensures IsWS(raw[m]) {
      assert raw[m] == ws[m - colonEnd];
    }
    if end < |raw| {
      assert raw[end] == body[0];
    }
    SkipWSRun(raw, colonEnd, end);
    LabelEndSteps(raw, i, after, colonEnd, end);
  }

  lemma LabelEndSteps(raw: string, i: nat, after: nat, colonEnd: nat, end: nat)
    requires i == (if |raw| > 0 && (raw[0] == '（' || raw[0] == '(') then 1 else 0)
    requires i + 2 <= |raw| && raw[i] == '提' && raw[i + 1] == '示'
    requires after == (if i + 2 < |raw| && raw[i + 2] == '词' then i + 3 else i + 2)
    requires colonEnd == (if after < |raw| && (raw[after] == ':' || raw[after] == '：') then after + 1 else after)
    requires colonEnd <= |raw| && SkipWS(raw, colonEnd) == end
    ensures LabelEnd(raw) == end
  {
  }

  /** A hint with no label and no parentheses is shown trimmed and otherwise as it is. */
  lemma PlainHintKept(h: string)
    requires h != "" && !StartsWith(h, "提示") && forall k :: 0 <= k < |h| ==> !IsParen(h[k])
    ensures DisplayHint(Some(h), None) == Trim(h)
  {
    NoLabel(h);
    assert h[0..] == h;
    assert Unclosed(h) == h;
    DropParensSpec(h);
    assert CleanHint(h) == Trim(DropParens(h));
  }

  lemma NoLabel(h: string)
    requires h != "" && !StartsWith(h, "提示") && h[0] != '（' && h[0] != '('
    ensures LabelEnd(h) == 0
  {
  }

  lemma LabelledHintA()
    ensures CleanHint("（提示词：名词）") == "名词"
  {
    LabelEndA();
    assert "（提示词：名词）"[5..] == "名词）";
    UnclosedDropsParen("名词");
    WordHintKept("名词");
  }

  lemma LabelEndA()
    ensures LabelEnd("（提示词：名词）") == 5
  {
    var a := "（提示词：名词）";
    assert a[0] == '（' && a[1] == '提' && a[2] == '示' && a[3] == '词' && a[4] == '：';
    assert !IsWS(a[5]);
  }

  lemma LabelledHintB()
    ensures CleanHint("提示：动词") == "动词"
  {
    LabelEndB();
    assert "提示：动词"[3..] == "动词";
    assert Unclosed("动词") == "动词";
    WordHintKept("动词");
  }

  lemma LabelEndB()
    ensures LabelEnd("提示：动词") == 3
  {
    var b := "提示：动词";
    assert b[0] == '提' && b[1] == '示' && b[2] == '：';
    assert !IsWS(b[3]);
  }

  lemma UnclosedDropsParen(w: string)
    ensures Unclosed(w + "）") == w
  {
    assert (w + "）")[..|w|] == w;
  }

  /** A two-character word without parentheses or whitespace passes the cleanup unchanged. */
  lemma WordHintKept(w: string)
    requires |w| == 2 && !IsParen(w[0]) && !IsParen(w[1]) && !IsWS(w[0]) && !IsWS(w[1])
    ensures Trim(DropParens(w)) == w
  {
    DropParensSpec(w);
    TrimOfTrimmed(w);
  }

  // ---------------------------------------------------------------------------------
  // Keywords and word lists

  /** Keyword separators: ASCII and full-width commas and whitespace. */
  predicate IsSeparator(c: char) {
    c == ',' || c == '，' || IsWS(c)
  }

  predicate NoSeparator(w: string) {
    forall k :: 0 <= k < |w| ==> !IsSeparator(w[k])
  }

  /** The keywords of the rest `s` when the keyword `current` is being read. */
  function KeywordsFrom(s: string, current: string): seq<string> {
    if s == [] then (if current == [] then [] else [current])
    else if IsSeparator(s[0]) then (if current == [] then [] else [current]) + KeywordsFrom(s[1..], [])
    else KeywordsFrom(s[1..], current + [s[0]])
  }

  /** `input.split(/[,，\s\n]+/).filter(w => w.trim().length > 0)`: the maximal runs of
      characters between separators. */
  function Keywords(s: string): seq<string> {
    KeywordsFrom(s, [])
  }

  lemma {:induction false} KeywordsFromShape(s: string, current: string)
    requires NoSeparator(current)
    ensures forall k :: 0 <= k < |KeywordsFrom(s, current)| ==>
      KeywordsFrom(s, current)[k] != [] && NoSeparator(KeywordsFrom(s, current)[k])
    decreases |s|
  {
    if s != [] {
      if IsSeparator(s[0]) {
        KeywordsFromShape(s[1..], []);
      } else {
        KeywordsFromShape(s[1..], current + [s[0]]);
      }
    }
  }

  /** Every keyword is non-empty and holds no separator. */
  lemma KeywordsShape(s: string)
    ensures forall k :: 0 <= k < |Keywords(s)| ==> Keywords(s)[k] != [] && NoSeparator(Keywords(s)[k])
  {
    KeywordsFromShape(s, []);
  }

  /** The characters of `s` that are not separators. */
  function Unseparated(s: string): string {
    if s == [] then [] else (if IsSeparator(s[0]) then [] else [s[0]]) + Unseparated(s[1..])
  }

  lemma {:induction false} KeywordsFromKeepText(s: string, current: string)
    ensures Concat(KeywordsFrom(s, current)) == current + Unseparated(s)
    decreases |s|
  {
    if s == [] {
      assert current + [] == current;
    } else if IsSeparator(s[0]) {
      KeywordsFromKeepText(s[1..], []);
      ConcatAppend(if current == [] then [] else [current], KeywordsFrom(s[1..], []));
      if current != [] {
        assert Concat([current]) == current + Concat([]);
      }
    } else {
      KeywordsFromKeepText(s[1..], current + [s[0]]);
    }
  }

  /** The keywords hold every character of the input but the separators, in order. */
  lemma KeywordsKeepText(s: string)
    ensures Concat(Keywords(s)) == Unseparated(s)
  {
    KeywordsFromKeepText(s, []);
  }

  lemma {:induction false} ReadRun(w: string, rest: string, current: string)
    requires NoSeparator(w)
    ensures KeywordsFrom(w + rest, current) == KeywordsFrom(rest, current + w)
    decreases |w|
  {
    if w == [] {
      assert w + rest == rest;
      assert current + w == current;
    } else {
      assert (w + rest)[0] == w[0];
      assert (w + rest)[1..] == w[1..] + rest;
      ReadRun(w[1..], rest, current + [w[0]]);
      assert current + [w[0]] + w[1..] == current + w;
    }
  }

  /** Keywords written out with commas split back into the same keywords. */
  lemma {:induction false} KeywordsJoin(ws: seq<string>)
    requires forall k :: 0 <= k < |ws| ==> ws[k] != [] && NoSeparator(ws[k])
    ensures Keywords(Join(ws, ",")) == ws
  {
    if |ws| == 1 {
      ReadRun(ws[0], [], []);
      assert ws[0] + [] == ws[0];
      assert [] + ws[0] == ws[0];
    } else if |ws| > 1 {
      var tail := Join(ws[1..], ",");
      KeywordsJoin(ws[1..]);
      assert Join(ws, ",") == ws[0] + ([','] + tail);
      ReadRun(ws[0], [','] + tail, []);
      assert [] + ws[0] == ws[0];
      assert ([','] + tail)[1..] == tail;
    }
  }

  /** The vocabulary file's words: its lines trimmed, the empty ones dropped. */
  function VocabularyLines(raw: string): (r: seq<string>)
    ensures forall k :: 0 <= k < |r| ==> r[k] != [] && IsTrimmed(r[k])
  {
    NonEmpty(TrimAll(Split(raw, '\n')))
  }

  /** Every line of the file that is not blank is kept, trimmed, right after the words kept
      from the lines before it; the lines are exactly the pieces between line feeds. */
  lemma VocabularyLineKept(raw: string, i: nat)
    requires i < |Split(raw, '\n')| && Trim(Split(raw, '\n')[i]) != ""
    ensures Join(Split(raw, '\n'), "\n") == raw
    ensures var trimmed := TrimAll(Split(raw, '\n'));
      var p := |NonEmpty(trimmed[..i])|;
      var r := VocabularyLines(raw);
      p < |r| && r[..p] == NonEmpty(trimmed[..i]) && r[p] == Trim(Split(raw, '\n')[i])
  {
    JoinSplit(raw, '\n');
    var lines := Split(raw, '\n');
    NonEmptyAt(TrimAll(lines), i);
  }

  /** A word of the merged list: a core pair shows its colloquial phrase; a custom word its
      text. */
  datatype WordId = CoreId(pairId: int) | CustomId(index: nat)
  datatype WordKind = Core | Custom
  datatype WordItem = WordItem(id: WordId, text: string, kind: WordKind)

  datatype WordPair = WordPair(id: int, colloquial: string, official: string)

  function CoreItems(pairs: seq<WordPair>): (r: seq<WordItem>)
    ensures |r| == |pairs|
    ensures forall k :: 0 <= k < |r| ==> r[k] == WordItem(CoreId(pairs[k].id), pairs[k].colloquial, Core)
  {
    if pairs == [] then []
    else CoreItems(pairs[..|pairs| - 1]) + [WordItem(CoreId(pairs[|pairs| - 1].id), pairs[|pairs| - 1].colloquial, Core)]
  }

  function CustomItems(words: seq<string>): (r: seq<WordItem>)
    ensures |r| == |words|
    ensures forall k :: 0 <= k < |r| ==> r[k] == WordItem(CustomId(k), words[k], Custom)
  {
    if words == [] then []
    else CustomItems(words[..|words| - 1]) + [WordItem(CustomId(|words| - 1), words[|words| - 1], Custom)]
  }

  /** `allWords`: the core pairs, then the file's words and the saved vocabulary with
      repetitions removed, numbered in order. */
  function AllWords(pairs: seq<WordPair>, myWords: seq<string>, vocabList: seq<string>): seq<WordItem> {
    CoreItems(pairs) + CustomItems(Dedup(myWords + vocabList))
  }

  /** The core pairs come first and in order; the custom words after them are numbered in
      order, and their texts are the file's and the saved words without repetitions. */
  lemma AllWordsSpec(pairs: seq<WordPair>, myWords: seq<string>, vocabList: seq<string>)
    ensures var all := AllWords(pairs, myWords, vocabList);
      |all| >= |pairs|
      && (forall k :: 0 <= k < |pairs| ==> all[k] == WordItem(CoreId(pairs[k].id), pairs[k].colloquial, Core))
      && (forall k :: |pairs| <= k < |all| ==> all[k].kind == Custom && all[k].id == CustomId(k - |pairs|))
      && TextsOf(all[|pairs|..]) == Dedup(myWords + vocabList)
  {
    var all := AllWords(pairs, myWords, vocabList);
    assert all[|pairs|..] == CustomItems(Dedup(myWords + vocabList));
  }

  /** So each custom word is listed once, every word of the file and of the saved vocabulary is
      listed, and in the order of first appearance. */
  lemma CustomWordsSpec(myWords: seq<string>, vocabList: seq<string>)
    ensures var texts := Dedup(myWords + vocabList);
      Distinct(texts)
      && (forall w :: w in texts <==> w in myWords || w in vocabList)
      && InFirstOrder(myWords + vocabList, texts)
  {
    DedupDistinct(myWords + vocabList);
    DedupMembers(myWords + vocabList);
    DedupOrder(myWords + vocabList);
  }

  function TextsOf(items: seq<WordItem>): (r: seq<string>)
    ensures |r| == |items|
    ensures forall k :: 0 <= k < |r| ==> r[k] == items[k].text
  {
    if items == [] then [] else TextsOf(items[..|items| - 1]) + [items[|items| - 1].text]
  }
}
