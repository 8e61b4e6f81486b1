/** The typing drill of src/pages/Week1.tsx: the state of one drill session and the handlers
    that change it, the error count, the accuracy and the clock display. */
module TypingDrill {
  import opened Strings
  import W1 = Week1Memory

  /** A level of the drill: the text to type and its pronunciation questions. */
  datatype Level = Level(id: int, content: string, quizzes: seq<W1.Quiz>)

  // ---------------------------------------------------------------------------------
  // Completion

  /** The characters the source counts as Hanzi: U+4E00 to U+9FA5. */
  predicate IsHanzi(c: char) {
    '一' <= c <= '龥'
  }

  function HanziCount(s: string): (n: nat)
    ensures n <= |s|
  {
    if s == [] then 0 else HanziCount(s[..|s| - 1]) + (if IsHanzi(s[|s| - 1]) then 1 else 0)
  }

  /** The input completes the drill when it is at least as long as the target and, when the
      target has Hanzi, has at least as many Hanzi. */
  predicate IsComplete(input: string, target: string) {
    |input| >= |target| && (HanziCount(target) > 0 ==> HanziCount(input) >= HanziCount(target))
  }

  /** Typing the target itself completes the drill... */
  lemma TargetCompletes(target: string)
    ensures IsComplete(target, target)
  {
  }

  /** ...while an input of the same length with no Hanzi, such as a pinyin transcription,
      does not complete a target that has some. */
  lemma PinyinDoesNotComplete(input: string, target: string)
    requires |input| >= |target| && HanziCount(target) > 0
    requires forall k :: 0 <= k < |input| ==> !IsHanzi(input[k])
    ensures !IsComplete(input, target)
  {
    NoHanzi(input);
  }

  /** In general, an input with fewer Hanzi than the target never completes it, however
      long it is. */
  lemma FewerHanziDoesNotComplete(input: string, target: string)
    requires HanziCount(input) < HanziCount(target)
    ensures !IsComplete(input, target)
  {
  }

  lemma {:induction false} NoHanzi(s: string)
    requires forall k :: 0 <= k < |s| ==> !IsHanzi(s[k])
    ensures HanziCount(s) == 0
  {
    if s != [] {
      NoHanzi(s[..|s| - 1]);
    }
  }

  // ---------------------------------------------------------------------------------
  // Errors and accuracy

  /** The mistyped positions among the first `n` typed characters: those inside the target
      holding a different character. */
  function ErrorsUpTo(input: string, target: string, n: nat): nat
    requires n <= |input|
  {
    if n == 0 then 0
    else ErrorsUpTo(input, target, n - 1) + (if n - 1 < |target| && input[n - 1] != target[n - 1] then 1 else 0)
  }

  function Errors(input: string, target: string): nat {
    ErrorsUpTo(input, target, |input|)
  }


  /** There are no more errors than typed characters, nor than target characters... */
  lemma {:induction false} ErrorsBounded(input: string, target: string, n: nat)
    requires n <= |input|
    ensures ErrorsUpTo(input, target, n) <= Min(n, |target|)
  {
    if n > 0 {
      ErrorsBounded(input, target, n - 1);
    }
  }

  /** ...and none exactly when the typed text agrees with the target as far as both go. */
  lemma {:induction false} NoErrorsIffAgrees(input: string, target: string, n: nat)
    requires n <= |input|
    ensures ErrorsUpTo(input, target, n) == 0
            <==> forall k :: 0 <= k < Min(n, |target|) ==> input[k] == target[k]
  {
    if n > 0 {
      NoErrorsIffAgrees(input, target, n - 1);
    }
  }

  /** The error-counting loop of the page. */
  method CountErrors(input: string, target: string) returns (errorCount: nat)
    ensures errorCount == Errors(input, target)
  {
    errorCount := 0;
    for i := 0 to |input|
      invariant errorCount == ErrorsUpTo(input, target, i)
    {
      if i < |target| && input[i] != target[i] {
        errorCount := errorCount + 1;
      }
    }
  }

  /** `Math.round(num / den)` for a non-negative fraction: halves round up. */
  function RoundHalfUp(num: nat, den: nat): (r: nat)
    requires den > 0
    ensures 2 * r * den <= 2 * num + den < 2 * (r + 1) * den
  {
    (2 * num + den) / (2 * den)
  }

  /** The accuracy shown: 100 for no input, otherwise the percentage of typed characters that
      are not errors, rounded to the nearest integer. */
  function Accuracy(input: string, target: string): int {
    if |input| > 0 then
      ErrorsBounded(input, target, |input|);
      RoundHalfUp(100 * (|input| - Errors(input, target)), |input|)
    else 100
  }

  /** `a * n < b * n` with a positive `n` means `a < b`. */
  lemma CancelFactor(a: int, b: int, n: int)
    requires n > 0 && a * n < b * n
    ensures a < b
  {
    assert b * n - a * n == (b - a) * n;
  }

  /** A rounded percentage of `good` out of `n` lies between 0 and 100, and is 100 when all
      are good. */
  lemma RoundedPercent(good: nat, n: nat)
    requires 0 < n && good <= n
    ensures RoundHalfUp(100 * good, n) <= 100
    ensures good == n ==> RoundHalfUp(100 * good, n) == 100
  {
    var r := RoundHalfUp(100 * good, n);
    assert (2 * r) * n <= 201 * n < 202 * n;
    CancelFactor(2 * r, 202, n);
    if good == n {
      assert 201 * n < (2 * (r + 1)) * n;
      CancelFactor(201, 2 * (r + 1), n);
    }
  }

  /** The accuracy lies between 0 and 100, is 100 when nothing is mistyped, and is within half
      a point of the exact percentage. */
  lemma AccuracySpec(input: string, target: string)
    ensures 0 <= Accuracy(input, target) <= 100
    ensures Errors(input, target) == 0 ==> Accuracy(input, target) == 100
    ensures |input| > 0 ==>
              var exact := 100 * (|input| - Errors(input, target));
              2 * Accuracy(input, target) * |input| <= 2 * exact + |input| < 2 * (Accuracy(input, target) + 1) * |input|
  {
    if |input| > 0 {
      ErrorsBounded(input, target, |input|);
      RoundedPercent(|input| - Errors(input, target), |input|);
    }
  }

  /** Rounding can show 100 although a character is wrong. */
  lemma RoundingHidesOneError()
    ensures var input := seq(201, _ => 'x');
      var target := ['y'] + seq(200, _ => 'x');
      Errors(input, target) == 1 && Accuracy(input, target) == 100
  {
    var input := seq(201, _ => 'x');
    var target := ['y'] + seq(200, _ => 'x');
    assert input[0] != target[0];
    NoErrorsTail(input, target, 201);
    assert ErrorsUpTo(input, target, 1) == 1;
  }

  lemma {:induction false} NoErrorsTail(input: string, target: string, n: nat)
    requires n <= |input| && n <= |target|
    requires forall k :: 1 <= k < n ==> input[k] == target[k]
    ensures n >= 1 ==> ErrorsUpTo(input, target, n) == ErrorsUpTo(input, target, 1)
  {
    if n > 1 {
      NoErrorsTail(input, target, n - 1);
    }
  }

  // ---------------------------------------------------------------------------------
  // The clock

  /** `String(n)` for any integer. */
  function IntToString(n: int): string {
    if n < 0 then "-" + NatToString(-n) else NatToString(n)
  }

  /** JavaScript's `%`: the remainder takes the sign of the dividend. */
  function JsRem(a: int, b: int): int
    requires b > 0
  {
    if a >= 0 then a % b else -((-a) % b)
  }

  /** `formatTime(ms)`: whole minutes and the remaining seconds, each padded to two digits.
      `/` on integers with a positive divisor rounds down, as `Math.floor` does. */
  function FormatTime(ms: int): string {
    var sec := ms / 1000;
    var m := sec / 60;
    var s := JsRem(sec, 60);
    PadStart2(IntToString(m)) + ":" + PadStart2(IntToString(s))
  }

  lemma {:induction false} ParseNatLeadingZero(s: string)
    requires forall k :: 0 <= k < |s| ==> IsDigit(s[k])
    ensures ParseNat("0" + s) == ParseNat(s)
  {
    if s != [] {
      var n := |s| - 1;
      assert ("0" + s)[..|"0" + s| - 1] == "0" + s[..n];
      ParseNatLeadingZero(s[..n]);
    }
  }

  /** Reading a padded number back gives the number. */
  lemma PaddedReadsBack(n: nat)
    ensures var p := PadStart2(NatToString(n));
      IsDigits(p) && |p| >= 2 && ParseNat(p) == n
  {
    var t := NatToString(n);
    ParseNatToString(n);
    if |t| == 1 {
      ParseNatLeadingZero(t);
    }
  }

  /** A number below 100 prints in at most two digits. */
  lemma TwoDigitsAtMost(n: nat)
    requires n < 100
    ensures |NatToString(n)| <= 2
  {
    if n >= 10 {
      assert NatToString(n) == NatToString(n / 10) + [DigitChar(n % 10)];
    }
  }

  /** Two digit runs joined by a colon split back into the two runs. */
  lemma SplitAtColon(a: string, b: string)
    requires IsDigits(a) && IsDigits(b)
    ensures Split(a + ":" + b, ':') == [a, b]
  {
    assert ':' !in a;
    assert ':' !in b;
    assert a + ":" + b == a + ([':'] + b);
    SplitPrefix(a, b, ':');
    SplitNoSeparator(b, ':');
  }

  /** For a non-negative time the display is two runs of at least two digits around a colon;
      read back, they give the whole minutes and the seconds below 60 of `ms`. */
  lemma FormatTimeReadsBack(ms: int)
    requires ms >= 0
    ensures var parts := Split(FormatTime(ms), ':');
      |parts| == 2 && IsDigits(parts[0]) && IsDigits(parts[1]) && |parts[0]| >= 2 && |parts[1]| == 2
      && ParseNat(parts[1]) < 60
      && ParseNat(parts[0]) * 60 + ParseNat(parts[1]) == ms / 1000
  {
    var sec := ms / 1000;
    var m := sec / 60;
    var s := sec % 60;
    assert JsRem(sec, 60) == s;
    var a := PadStart2(NatToString(m));
    var b := PadStart2(NatToString(s));
    assert FormatTime(ms) == a + ":" + b;
    PaddedReadsBack(m);
    PaddedReadsBack(s);
    TwoDigitsAtMost(s);
    SplitAtColon(a, b);
  }

  // ---------------------------------------------------------------------------------
  // The session

  class TypingSession {
    const levels: seq<Level>
    var levelId: int
    var customText: Option<string>
    var customQuizzes: seq<W1.Quiz>
    var smartGuidance: Option<string>
    var inputVal: string
    var isRunning: bool
    var startTime: Option<int>
    var elapsed: int
    var isFinished: bool
    var showQuiz: bool
    var quizResults: map<int, bool>
    var memory: W1.Memory

    /** `levels.find(l => l.id === currentLevelId) || levels[0]` */
    function CurrentLevel(): Level
      reads this
      requires |levels| > 0
    {
      FindLevel(levels, levelId)
    }

    /** A custom text replaces the level's text unless it is empty. */
    function TargetText(): string
      reads this
      requires |levels| > 0
    {
      if customText.Some? && customText.value != "" then customText.value else CurrentLevel().content
    }

    function ActiveQuizzes(): seq<W1.Quiz>
      reads this
      requires |levels| > 0
    {
      if customText.Some? && customText.value != "" then customQuizzes else CurrentLevel().quizzes
    }

    /** A stopped clock once the drill is finished, a start time while it runs, the quiz shown
        exactly when finished, answers only for questions that exist, and a memory whose counts
        add up. */
    ghost predicate Valid()
      reads this
    {
      |levels| > 0
      && (isFinished ==> !isRunning)
      && (isRunning ==> startTime.Some?)
      && showQuiz == isFinished
      && (forall k :: k in quizResults ==> 0 <= k < |ActiveQuizzes()|)
      && W1.Balanced(memory)
    }

    /** The page as first shown: level 0, nothing typed, the stored memory. */
    constructor (levels: seq<Level>, memory: W1.Memory)
      requires |levels| > 0 && W1.Balanced(memory)
      ensures Valid()
      ensures this.levels == levels && this.memory == memory
      ensures levelId == 0 && customText.None? && customQuizzes == [] && smartGuidance.None?
      ensures inputVal == "" && !isRunning && startTime.None? && elapsed == 0
      ensures !isFinished && !showQuiz && quizResults == map[]
    {
      this.levels := levels;
      this.memory := memory;
      levelId := 0;
      customText := None;
      customQuizzes := [];
      smartGuidance := None;
      inputVal := "";
      isRunning := false;
      startTime := None;
      elapsed := 0;
      isFinished := false;
      showQuiz := false;
      quizResults := map[];
    }

    /** `finishTest()` */
    method FinishTest()
      requires Valid()
      modifies this
      ensures Valid()
      ensures !isRunning && isFinished && showQuiz
      ensures inputVal == old(inputVal) && startTime == old(startTime) && elapsed == old(elapsed)
      ensures quizResults == old(quizResults) && memory == old(memory) && levelId == old(levelId)
      ensures customText == old(customText) && customQuizzes == old(customQuizzes)
      ensures smartGuidance == old(smartGuidance)
    {
      isRunning := false;
      isFinished := true;
      showQuiz := true;
    }

    /** `handleInput` with the new text `val` at the time `now`: the clock starts on the first
        non-empty input of an unfinished drill, and the drill finishes when the input completes
        the target. */
    method HandleInput(val: string, now: int)
      requires Valid()
      modifies this
      ensures Valid()
      ensures inputVal == val
      ensures isFinished == (old(isFinished) || IsComplete(val, TargetText()))
      ensures isRunning == (!isFinished && (old(isRunning) || |val| > 0))
      ensures startTime == if !old(isRunning) && |val| > 0 && !old(isFinished) then Some(now) else old(startTime)
      ensures elapsed == old(elapsed) && quizResults == old(quizResults) && memory == old(memory)
      ensures levelId == old(levelId) && customText == old(customText) && customQuizzes == old(customQuizzes)
      ensures smartGuidance == old(smartGuidance)
    {
      inputVal := val;
      if !isRunning && |val| > 0 && !isFinished {
        isRunning := true;
        startTime := Some(now);
      }
      var target := TargetText();
      var inputHanzi := HanziCount(val);
      var targetHanzi := HanziCount(target);
      var isLengthReached := |val| >= |target|;
      var isHanziReached := if targetHanzi > 0 then inputHanzi >= targetHanzi else true;
      if isLengthReached && isHanziReached {
        FinishTest();
      }
    }

    /** One tick of the page's one-second timer at the time `now`: while running, the elapsed
        time is the time since the start (a zero start time counts as none). */
    method Tick(now: int)
      requires Valid()
      modifies this
      ensures Valid()
      ensures elapsed == if isRunning && startTime.Some? && startTime.value != 0 then now - startTime.value else old(elapsed)
      ensures isRunning == old(isRunning) && startTime == old(startTime) && inputVal == old(inputVal)
      ensures isFinished == old(isFinished) && quizResults == old(quizResults) && memory == old(memory)
      ensures levelId == old(levelId) && customText == old(customText) && customQuizzes == old(customQuizzes)
      ensures smartGuidance == old(smartGuidance)
    {
      if isRunning && startTime.Some? && startTime.value != 0 {
        elapsed := now - startTime.value;
      }
    }

    /** `resetTest()` */
    method ResetTest()
      requires Valid()
      modifies this
      ensures Valid()
      ensures !isRunning && !isFinished && !showQuiz && startTime.None? && elapsed == 0
      ensures inputVal == "" && quizResults == map[]
      ensures memory == old(memory) && levelId == old(levelId) && customText == old(customText)
      ensures customQuizzes == old(customQuizzes) && smartGuidance == old(smartGuidance)
    {
      isRunning := false;
      isFinished := false;
      showQuiz := false;
      startTime := None;
      elapsed := 0;
      inputVal := "";
      quizResults := map[];
    }

    /** `switchLevel(id)`: the chosen level without custom text, questions or guidance, and
        a fresh drill. */
    method SwitchLevel(id: int)
      requires Valid()
      modifies this
      ensures Valid()
      ensures levelId == id && customText.None? && customQuizzes == [] && smartGuidance.None?
      ensures TargetText() == FindLevel(levels, id).content
      ensures !isRunning && !isFinished && !showQuiz && startTime.None? && elapsed == 0
      ensures inputVal == "" && quizResults == map[] && memory == old(memory)
    {
      levelId := id;
      customText := None;
      customQuizzes := [];
      smartGuidance := None;
      quizResults := map[];
      ResetTest();
    }

    /** The "next level" button: `switchLevel((currentLevelId + 1) % levels.length)` with
        JavaScript's remainder, which keeps the sign of a negative id. */
    method NextLevel()
      requires Valid()
      modifies this
      ensures Valid()
      ensures levelId == JsRem(old(levelId) + 1, |levels|)
      ensures customText.None? && customQuizzes == [] && smartGuidance.None?
      ensures TargetText() == FindLevel(levels, levelId).content
      ensures !isRunning && !isFinished && !showQuiz && startTime.None? && elapsed == 0
      ensures inputVal == "" && quizResults == map[] && memory == old(memory)
    {
      SwitchLevel(JsRem(levelId + 1, |levels|));
    }

    /** `handleQuizAnswer(idx, opt)` at the time `at`: a question is answered once; an answer
        to a question already answered, or to one that does not exist, changes nothing;
        otherwise the answer is marked right or wrong and recorded in the memory. */
    method HandleQuizAnswer(idx: int, opt: W1.Choice, at: int)
      requires Valid()
      modifies this
      ensures Valid()
      ensures old(idx in quizResults) || !(0 <= idx < |old(ActiveQuizzes())|) ==>
                quizResults == old(quizResults) && memory == old(memory)
      ensures !old(idx in quizResults) && 0 <= idx < |old(ActiveQuizzes())| ==>
                var q := old(ActiveQuizzes())[idx];
                quizResults == old(quizResults)[idx := opt == q.correct]
                && memory == W1.RecordQuizAttempt(old(memory), q, opt == q.correct, at)
      ensures ActiveQuizzes() == old(ActiveQuizzes()) && inputVal == old(inputVal)
      ensures isRunning == old(isRunning) && isFinished == old(isFinished) && elapsed == old(elapsed)
      ensures levelId == old(levelId) && customText == old(customText) && startTime == old(startTime)
      ensures customQuizzes == old(customQuizzes) && smartGuidance == old(smartGuidance)
      ensures showQuiz == old(showQuiz)
    {
      if idx in quizResults {
        return;
      }
      var quizzes := ActiveQuizzes();
      if !(0 <= idx < |quizzes|) {
        return;
      }
      var q := quizzes[idx];
      var isCorrectAnswer := opt == q.correct;
      quizResults := quizResults[idx := isCorrectAnswer];
      W1.RecordKeepsBalance(memory, q, isCorrectAnswer, at);
      memory := W1.RecordQuizAttempt(memory, q, isCorrectAnswer, at);
    }
  }

  /** No level from `from` up to `k` has the id. */
  predicate NoIdBefore(levels: seq<Level>, id: int, from: nat, k: nat) {
    forall j :: from <= j < k && j < |levels| ==> levels[j].id != id
  }

  /** The first level with the given id, as `find` returns it, or the first level when there
      is none. */
  function FindLevel(levels: seq<Level>, id: int): (l: Level)
    requires |levels| > 0
    ensures l in levels
    ensures (exists k :: 0 <= k < |levels| && levels[k].id == id) ==>
              exists k :: 0 <= k < |levels| && levels[k] == l && l.id == id && NoIdBefore(levels, id, 0, k)
    ensures (forall k :: 0 <= k < |levels| ==> levels[k].id != id) ==> l == levels[0]
  {
    FindFrom(levels, id, 0)
  }

  function FindFrom(levels: seq<Level>, id: int, from: nat): (l: Level)
    requires 0 < |levels| && from <= |levels|
    ensures l in levels
    ensures (exists k :: from <= k < |levels| && levels[k].id == id) ==>
              exists k :: from <= k < |levels| && levels[k] == l && l.id == id && NoIdBefore(levels, id, from, k)
    ensures (forall k :: from <= k < |levels| ==> levels[k].id != id) ==> l == levels[0]
    decreases |levels| - from
  {
    if from == |levels| then levels[0]
    else if levels[from].id == id then levels[from]
    else FindFrom(levels, id, from + 1)
  }
}
