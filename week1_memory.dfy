/** The pronunciation-quiz memory of src/lib/week1Memory.ts: per-question statistics with a
    streak and a due date, per-final-pair statistics, the most-missed words and the questions
    due for review. Items are kept in the order their keys were first stored, as the
    properties of a JavaScript object are. */
module Week1Memory {
  import opened Strings
  import Sorting

  /** `FinalPair`: 'in/ing' or 'en/eng'. */
  datatype FinalPair = InIng | EnEng

  datatype Choice = A | B {
    function Letter(): string {
      match this
      case A => "A"
      case B => "B"
    }
  }

  /** `Week1QuizLike`; either option text may be missing. */
  datatype Quiz = Quiz(word: string, focus: string, optionA: Option<string>, optionB: Option<string>,
                       correct: Choice, finalPair: Option<FinalPair>)

  datatype PairStat = PairStat(attempts: nat, correct: nat, wrong: nat, lastAt: Option<int>)

  datatype ItemStat = ItemStat(attempts: nat, correct: nat, wrong: nat, streak: nat, lastAt: Option<int>,
                               dueAt: Option<int>, word: Option<string>, finalPair: Option<FinalPair>)

  /** `Week1MemoryV1`; `items` lists the keys in insertion order. */
  datatype Memory = Memory(version: int, pairs: map<FinalPair, PairStat>, items: seq<(string, ItemStat)>)

  const DayMs: int := 24 * 60 * 60 * 1000

  const FreshItem := ItemStat(0, 0, 0, 0, None, None, None, None)
  const FreshPair := PairStat(0, 0, 0, None)

  // ---------------------------------------------------------------------------------
  // The item list

  function Keys(items: seq<(string, ItemStat)>): (r: seq<string>)
    ensures |r| == |items| && forall k :: 0 <= k < |items| ==> r[k] == items[k].0
  {
    if items == [] then [] else Keys(items[..|items| - 1]) + [items[|items| - 1].0]
  }

  function Values(items: seq<(string, ItemStat)>): (r: seq<ItemStat>)
    ensures |r| == |items| && forall k :: 0 <= k < |items| ==> r[k] == items[k].1
  {
    if items == [] then [] else Values(items[..|items| - 1]) + [items[|items| - 1].1]
  }

  predicate DistinctKeys(items: seq<(string, ItemStat)>) {
    forall i, j :: 0 <= i < j < |items| ==> items[i].0 != items[j].0
  }

  /** The position of `key`, or -1. */
  function IndexOf(items: seq<(string, ItemStat)>, key: string): (i: int)
    ensures -1 <= i < |items|
    ensures i >= 0 ==> items[i].0 == key
    ensures i == -1 ==> forall k :: 0 <= k < |items| ==> items[k].0 != key
  {
    if items == [] then -1
    else if items[|items| - 1].0 == key then |items| - 1
    else IndexOf(items[..|items| - 1], key)
  }

  /** `items[key]` */
  function Lookup(items: seq<(string, ItemStat)>, key: string): Option<ItemStat> {
    var i := IndexOf(items, key);
    if i < 0 then None else Some(items[i].1)
  }

  /** `{ ...items, [key]: value }`: an existing key keeps its place, a new one goes last. */
  function Put(items: seq<(string, ItemStat)>, key: string, value: ItemStat): seq<(string, ItemStat)> {
    var i := IndexOf(items, key);
    if i < 0 then items + [(key, value)] else items[i := (key, value)]
  }

  /** Storing under a key changes what that key finds and nothing else, keeps the keys
      distinct and keeps the order of the keys already there. */
  lemma PutLookup(items: seq<(string, ItemStat)>, key: string, value: ItemStat)
    requires DistinctKeys(items)
    ensures DistinctKeys(Put(items, key, value))
    ensures Lookup(Put(items, key, value), key) == Some(value)
    ensures forall k :: k != key ==> Lookup(Put(items, key, value), k) == Lookup(items, k)
    ensures Keys(Put(items, key, value)) == if IndexOf(items, key) < 0 then Keys(items) + [key] else Keys(items)
  {
    var r := Put(items, key, value);
    PutDistinct(items, key, value);
    forall k
      ensures Lookup(r, k) == (if k == key then Some(value) else Lookup(items, k))
    {
      PutLookupAt(items, key, value, k);
    }
  }

  lemma PutDistinct(items: seq<(string, ItemStat)>, key: string, value: ItemStat)
    requires DistinctKeys(items)
    ensures DistinctKeys(Put(items, key, value))
  {
    var r := Put(items, key, value);
    if IndexOf(items, key) < 0 {
      forall i, j | 0 <= i < j < |r| ensures r[i].0 != r[j].0 {
        if j == |items| {
          assert r[i] == items[i];
        } else {
          assert r[i] == items[i] && r[j] == items[j];
        }
      }
    }
  }

  lemma PutLookupAt(items: seq<(string, ItemStat)>, key: string, value: ItemStat, k: string)
    requires DistinctKeys(items) && DistinctKeys(Put(items, key, value))
    ensures Lookup(Put(items, key, value), k) == (if k == key then Some(value) else Lookup(items, k))
  {
    var r := Put(items, key, value);
    var i := IndexOf(r, k);
    var j := IndexOf(items, k);
    if j >= 0 {
      assert r[j].0 == k;
    }
    if i >= 0 && i < |items| {
      assert items[i].0 == k;
    }
  }

  // ---------------------------------------------------------------------------------
  // Keys and the update of one answer

  /** `clamp(n, min, max)`: `Math.min(max, Math.max(min, n))`. */
  function Clamp(n: int, lo: int, hi: int): (r: int)
    ensures lo <= hi ==> lo <= r <= hi
    ensures lo <= n <= hi ==> r == n
    ensures n <= lo <= hi ==> r == lo
    ensures hi <= n ==> r == hi
    ensures r <= hi
  {
    var up := if n < lo then lo else n;
    if up < hi then up else hi
  }

  function OrEmpty(s: Option<string>): string {
    if s.Some? then s.value else ""
  }

  /** `makeQuizKey(q)`: `[word, focus, A, B, correct].join('|')`, a missing option being the
      empty string. */
  function MakeQuizKey(q: Quiz): string {
    q.word + "|" + q.focus + "|" + OrEmpty(q.optionA) + "|" + OrEmpty(q.optionB) + "|" + q.correct.Letter()
  }

  function KeyFields(q: Quiz): seq<string> {
    [q.word, q.focus, OrEmpty(q.optionA), OrEmpty(q.optionB), q.correct.Letter()]
  }

  predicate KeySafe(q: Quiz) {
    '|' !in q.word && '|' !in q.focus && '|' !in OrEmpty(q.optionA) && '|' !in OrEmpty(q.optionB)
  }

  /** When no field holds a `|`, the key splits back into its five fields... */
  lemma QuizKeyFields(q: Quiz)
    requires KeySafe(q)
    ensures Split(MakeQuizKey(q), '|') == KeyFields(q)
  {
    var f := KeyFields(q);
    assert forall k :: 0 <= k < |f| ==> '|' !in f[k] by {
      assert '|' !in q.correct.Letter();
    }
    JoinFive(f[0], f[1], f[2], f[3], f[4]);
    assert f == [f[0], f[1], f[2], f[3], f[4]];
    SplitJoin(f, '|');
  }

  lemma JoinFive(a: string, b: string, c: string, d: string, e: string)
    ensures Join([a, b, c, d, e], "|") == a + "|" + b + "|" + c + "|" + d + "|" + e
  {
    var f := [a, b, c, d, e];
    assert Join(f[4..], "|") == e;
    assert Join(f[3..], "|") == d + "|" + e;
    assert Join(f[2..], "|") == c + "|" + (d + "|" + e);
    assert Join(f[1..], "|") == b + "|" + (c + "|" + (d + "|" + e));
  }

  /** ...so two such questions share a key only when they agree on every field. */
  lemma QuizKeyInjective(q1: Quiz, q2: Quiz)
    requires KeySafe(q1) && KeySafe(q2) && MakeQuizKey(q1) == MakeQuizKey(q2)
    ensures q1.word == q2.word && q1.focus == q2.focus && q1.correct == q2.correct
    ensures OrEmpty(q1.optionA) == OrEmpty(q2.optionA) && OrEmpty(q1.optionB) == OrEmpty(q2.optionB)
  {
    QuizKeyFields(q1);
    QuizKeyFields(q2);
    assert KeyFields(q1)[4] == KeyFields(q2)[4];
  }

  /** Without that condition two different questions can share a key. */
  lemma KeyNeedsPipeFreeFields()
    ensures var q1 := Quiz("a|b", "c", None, None, A, None);
      var q2 := Quiz("a", "b|c", None, None, A, None);
      q1 != q2 && MakeQuizKey(q1) == MakeQuizKey(q2)
  {
    assert MakeQuizKey(Quiz("a|b", "c", None, None, A, None)) == "a|b|c|||A";
    assert MakeQuizKey(Quiz("a", "b|c", None, None, A, None)) == "a|b|c|||A";
  }

  /** A missing option and an empty one give the same key. */
  lemma MissingOptionIsEmpty(q: Quiz)
    ensures MakeQuizKey(q.(optionA := None)) == MakeQuizKey(q.(optionA := Some("")))
  {
  }

  /** Days until the question is due again: one after a wrong answer, otherwise one more than
      the streak, at most ten. */
  function IntervalDays(isCorrect: bool, streak: nat): (d: int)
    ensures 1 <= d <= 10
    ensures !isCorrect ==> d == 1
    ensures isCorrect ==> d == if 1 + streak < 10 then 1 + streak else 10
  {
    if isCorrect then Clamp(1 + streak, 1, 10) else 1
  }

  /** `quiz.finalPair ?? prevItem.finalPair` */
  function PairOf(prev: Option<ItemStat>, quiz: Quiz): Option<FinalPair> {
    if quiz.finalPair.Some? then quiz.finalPair
    else if prev.Some? then prev.value.finalPair
    else None
  }

  /** The statistics of a question before the answer: zeros when it is new. */
  function Before(prev: Option<ItemStat>): ItemStat {
    if prev.Some? then prev.value else FreshItem
  }

  /** The new statistics of the answered question: one more attempt, counted as right or
      wrong, the streak grown or reset, the time and the word recorded, and due again after
      one day when wrong and after one to ten days when right. */
  function NextItem(prev: Option<ItemStat>, quiz: Quiz, isCorrect: bool, at: int): (s: ItemStat)
    ensures var b := Before(prev);
      s.attempts == b.attempts + 1
      && (isCorrect ==> s.correct == b.correct + 1 && s.wrong == b.wrong && s.streak == b.streak + 1)
      && (!isCorrect ==> s.correct == b.correct && s.wrong == b.wrong + 1 && s.streak == 0)
    ensures ItemBalanced(Before(prev)) ==> ItemBalanced(s)
    ensures s.lastAt == Some(at) && s.word == Some(quiz.word) && s.finalPair == PairOf(prev, quiz)
    ensures s.dueAt.Some? && at + DayMs <= s.dueAt.value <= at + 10 * DayMs
    ensures !isCorrect ==> s.dueAt == Some(at + DayMs)
    ensures isCorrect ==> s.dueAt == Some(at + (if 1 + s.streak < 10 then 1 + s.streak else 10) * DayMs)
  {
    var b := Before(prev);
    var streak := if isCorrect then b.streak + 1 else 0;
    var d := IntervalDays(isCorrect, streak);
    assert DayMs <= d * DayMs <= 10 * DayMs;
    ItemStat(b.attempts + 1,
             b.correct + (if isCorrect then 1 else 0),
             b.wrong + (if isCorrect then 0 else 1),
             streak, Some(at), Some(at + d * DayMs),
             Some(quiz.word), PairOf(prev, quiz))
  }

  /** The pair statistics after one answer about `pair`: the pair gains one attempt, counted
      as right or wrong, and its time; the other pair is untouched, and without a pair nothing
      changes. */
  function RecordPair(pairs: map<FinalPair, PairStat>, pair: Option<FinalPair>, isCorrect: bool, at: int)
    : (r: map<FinalPair, PairStat>)
    ensures pair.None? ==> r == pairs
    ensures pair.Some? ==> r.Keys == pairs.Keys + {pair.value}
    ensures pair.Some? ==>
              var base := if pair.value in pairs then pairs[pair.value] else FreshPair;
              var s := r[pair.value];
              s.attempts == base.attempts + 1
              && s.correct == base.correct + (if isCorrect then 1 else 0)
              && s.wrong == base.wrong + (if isCorrect then 0 else 1)
              && s.lastAt == Some(at)
              && forall p :: p in pairs && p != pair.value ==> r[p] == pairs[p]
  {
    if pair.None? then pairs
    else
      var base := if pair.value in pairs then pairs[pair.value] else FreshPair;
      pairs[pair.value := PairStat(base.attempts + 1,
                                   base.correct + (if isCorrect then 1 else 0),
                                   base.wrong + (if isCorrect then 0 else 1),
                                   Some(at))]
  }

  /** `recordQuizAttempt(memory, quiz, isCorrect, at)` */
  function RecordQuizAttempt(memory: Memory, quiz: Quiz, isCorrect: bool, at: int): Memory {
    var key := MakeQuizKey(quiz);
    var prev := Lookup(memory.items, key);
    Memory(1, RecordPair(memory.pairs, PairOf(prev, quiz), isCorrect, at),
           Put(memory.items, key, NextItem(prev, quiz, isCorrect, at)))
  }

  /** Each attempt is either right or wrong. */
  predicate ItemBalanced(s: ItemStat) { s.attempts == s.correct + s.wrong }
  predicate PairBalanced(s: PairStat) { s.attempts == s.correct + s.wrong }

  predicate ItemsBalanced(items: seq<(string, ItemStat)>) {
    forall k :: 0 <= k < |items| ==> ItemBalanced(items[k].1)
  }

  predicate PairsBalanced(pairs: map<FinalPair, PairStat>) {
    forall p :: p in pairs ==> PairBalanced(pairs[p])
  }

  predicate Balanced(memory: Memory) {
    DistinctKeys(memory.items) && ItemsBalanced(memory.items) && PairsBalanced(memory.pairs)
  }

  /** Recording stores the new statistics of the answered question under its key, leaves every
      other question as it was, keeps the order of the questions (a new one goes last) and
      sets the version to 1. */
  lemma RecordItems(memory: Memory, quiz: Quiz, isCorrect: bool, at: int)
    requires DistinctKeys(memory.items)
    ensures var key := MakeQuizKey(quiz);
      var prev := Lookup(memory.items, key);
      var r := RecordQuizAttempt(memory, quiz, isCorrect, at);
      r.version == 1 && DistinctKeys(r.items)
      && Lookup(r.items, key) == Some(NextItem(prev, quiz, isCorrect, at))
      && (forall k :: k != key ==> Lookup(r.items, k) == Lookup(memory.items, k))
      && Keys(r.items) == if prev.None? then Keys(memory.items) + [key] else Keys(memory.items)
  {
    var key := MakeQuizKey(quiz);
    var prev := Lookup(memory.items, key);
    PutLookup(memory.items, key, NextItem(prev, quiz, isCorrect, at));
  }

  lemma PutKeepsBalance(items: seq<(string, ItemStat)>, key: string, value: ItemStat)
    requires ItemsBalanced(items) && ItemBalanced(value)
    ensures ItemsBalanced(Put(items, key, value))
  {
  }

  lemma LookupBalanced(items: seq<(string, ItemStat)>, key: string)
    requires ItemsBalanced(items)
    ensures ItemBalanced(Before(Lookup(items, key)))
  {
    var i := IndexOf(items, key);
    if i >= 0 {
      assert ItemBalanced(items[i].1);
    }
  }

  lemma RecordPairKeepsBalance(pairs: map<FinalPair, PairStat>, pair: Option<FinalPair>, isCorrect: bool, at: int)
    requires PairsBalanced(pairs)
    ensures PairsBalanced(RecordPair(pairs, pair, isCorrect, at))
  {
    if pair.Some? && pair.value in pairs {
      assert PairBalanced(pairs[pair.value]);
    }
  }

  /** Every attempt stays counted as exactly one right or one wrong answer, and the keys stay
      distinct. */
  lemma RecordKeepsBalance(memory: Memory, quiz: Quiz, isCorrect: bool, at: int)
    requires Balanced(memory)
    ensures Balanced(RecordQuizAttempt(memory, quiz, isCorrect, at))
  {
    var key := MakeQuizKey(quiz);
    var prev := Lookup(memory.items, key);
    LookupBalanced(memory.items, key);
    PutKeepsBalance(memory.items, key, NextItem(prev, quiz, isCorrect, at));
    PutLookup(memory.items, key, NextItem(prev, quiz, isCorrect, at));
    RecordPairKeepsBalance(memory.pairs, PairOf(prev, quiz), isCorrect, at);
  }

  // ---------------------------------------------------------------------------------
  // The most-missed words

  function Score(s: ItemStat): int { s.wrong - s.correct }

  /** A statistic that names a word with some visible character. */
  predicate HasWord(s: ItemStat) { s.word.Some? && Trim(s.word.value) != "" }

  function WithWords(stats: seq<ItemStat>): (r: seq<ItemStat>)
    ensures forall k :: 0 <= k < |r| ==> HasWord(r[k]) && r[k] in stats
  {
    if stats == [] then []
    else
      var rest := WithWords(stats[..|stats| - 1]);
      var last := stats[|stats| - 1];
      if HasWord(last) then rest + [last] else rest
  }

  /** The entries `getTopWrongWords` walks: the statistics naming a word, most missed first. */
  function Ranked(memory: Memory): seq<ItemStat> {
    Sorting.SortBy(WithWords(Values(memory.items)), Score, false)
  }

  /** The trimmed words of the entries, skipping those the loop skips. */
  function Words(entries: seq<ItemStat>): seq<string> {
    if entries == [] then []
    else
      var rest := Words(entries[..|entries| - 1]);
      var e := entries[|entries| - 1];
      if HasWord(e) then rest + [Trim(e.word.value)] else rest
  }


  /** What `getTopWrongWords` returns: the first distinct words of the ranking, as many as the
      limit allows, and at least one when there is one, since the limit is checked only after
      a word is added. */
  function TopWrongWords(memory: Memory, limit: int): seq<string> {
    var d := Dedup(Words(Ranked(memory)));
    d[..Min(|d|, Max(limit, 1))]
  }

  lemma WordsStep(entries: seq<ItemStat>, i: nat)
    requires i < |entries|
    ensures Words(entries[..i + 1]) == Words(entries[..i]) + if HasWord(entries[i]) then [Trim(entries[i].word.value)] else []
  {
    assert entries[..i + 1][..i] == entries[..i];
  }

  lemma {:induction false} WordsPrefix(entries: seq<ItemStat>, i: nat)
    requires i <= |entries|
    ensures |Words(entries[..i])| <= |Words(entries)|
    ensures Words(entries[..i]) == Words(entries)[..|Words(entries[..i])|]
  {
    if i < |entries| {
      var n := |entries| - 1;
      assert entries[..n][..i] == entries[..i];
      WordsPrefix(entries[..n], i);
    } else {
      assert entries[..i] == entries;
    }
  }

  /** Once the words taken so far reach the limit, they are the answer. */
  lemma StopEarly(entries: seq<ItemStat>, i: nat, limit: int)
    requires i < |entries|
    requires var p := Dedup(Words(entries[..i + 1])); p != [] && limit <= |p| <= Max(limit, 1)
    ensures var all := Dedup(Words(entries));
      Dedup(Words(entries[..i + 1])) == all[..Min(|all|, Max(limit, 1))]
  {
    WordsPrefix(entries, i + 1);
    DedupPrefix(Words(entries), |Words(entries[..i + 1])|);
  }

  /** One entry of the loop: a usable word not yet taken is appended. */
  lemma TopStep(entries: seq<ItemStat>, i: nat)
    requires i < |entries|
    ensures var before := Dedup(Words(entries[..i]));
      Dedup(Words(entries[..i + 1]))
      == if HasWord(entries[i]) && Trim(entries[i].word.value) !in before
         then before + [Trim(entries[i].word.value)] else before
  {
    WordsStep(entries, i);
    if HasWord(entries[i]) {
      var t := Trim(entries[i].word.value);
      assert Words(entries[..i + 1]) == Words(entries[..i]) + [t];
      DedupStep(Words(entries[..i]), t);
    } else {
      assert Words(entries[..i + 1]) == Words(entries[..i]) + [];
      assert Words(entries[..i]) + [] == Words(entries[..i]);
    }
  }

  /** The loop of `getTopWrongWords`: walks the ranked entries, skipping those without a
      visible word, collecting each trimmed word once, and stops once the limit is reached. */
  method CollectWords(entries: seq<ItemStat>, limit: int) returns (result: seq<string>)
    ensures var all := Dedup(Words(entries)); result == all[..Min(|all|, Max(limit, 1))]
  {
    result := [];
    var i := 0;
    while i < |entries|
      invariant 0 <= i <= |entries|
      invariant result == Dedup(Words(entries[..i]))
      invariant |result| < Max(limit, 1)
    {
      var e := entries[i];
      TopStep(entries, i);
      if e.word.Some? && Trim(e.word.value) != "" {
        var w := Trim(e.word.value);
        if w !in result {
          result := result + [w];
        }
        if |result| >= limit {
          StopEarly(entries, i, limit);
          break;
        }
      }
      i := i + 1;
    }
    if i == |entries| {
      assert entries[..i] == entries;
    }
  }

  /** `getTopWrongWords(memory, limit)` */
  method GetTopWrongWords(memory: Memory, limit: int) returns (result: seq<string>)
    ensures result == TopWrongWords(memory, limit)
  {
    result := CollectWords(Ranked(memory), limit);
  }

  // Properties of the most-missed words

  lemma {:induction false} WithWordsKeeps(stats: seq<ItemStat>, s: ItemStat)
    requires s in stats && HasWord(s)
    ensures s in WithWords(stats)
  {
    var n := |stats| - 1;
    var rest := WithWords(stats[..n]);
    assert WithWords(stats) == if HasWord(stats[n]) then rest + [stats[n]] else rest;
    if s == stats[n] {
      assert WithWords(stats)[|rest|] == s;
    } else {
      assert s in stats[..n];
      WithWordsKeeps(stats[..n], s);
      var k :| 0 <= k < |rest| && rest[k] == s;
      assert WithWords(stats)[k] == s;
    }
  }

  lemma {:induction false} WordsOfUsable(es: seq<ItemStat>)
    requires forall k :: 0 <= k < |es| ==> HasWord(es[k])
    ensures |Words(es)| == |es|
    ensures forall k :: 0 <= k < |es| ==> es[k].word.Some? && Words(es)[k] == Trim(es[k].word.value)
  {
    if es != [] {
      var n := |es| - 1;
      WordsOfUsable(es[..n]);
      assert HasWord(es[n]);
      var w := Words(es[..n]);
      assert Words(es) == w + [Trim(es[n].word.value)];
      forall k | 0 <= k < |es|
        ensures es[k].word.Some? && Words(es)[k] == Trim(es[k].word.value)
      {
        if k < n {
          assert es[k] == es[..n][k];
          assert Words(es)[k] == w[k];
        }
      }
    }
  }

  /** The ranking holds exactly the stored statistics that name a word, most missed first. */
  lemma RankedEntries(memory: Memory)
    ensures var e := Ranked(memory);
      Sorting.Sorted(e, Score, false)
      && (forall k :: 0 <= k < |e| ==> HasWord(e[k]) && e[k] in Values(memory.items))
      && forall s :: s in Values(memory.items) && HasWord(s) ==> s in e
  {
    var f := WithWords(Values(memory.items));
    var e := Ranked(memory);
    Sorting.SortBySorted(f, Score, false);
    assert multiset(e) == multiset(f);
    forall k | 0 <= k < |e|
      ensures HasWord(e[k]) && e[k] in Values(memory.items)
    {
      assert e[k] in multiset(f);
    }
    forall s | s in Values(memory.items) && HasWord(s)
      ensures s in e
    {
      WithWordsKeeps(Values(memory.items), s);
      assert s in multiset(e);
    }
  }

  /** Every returned word is the trimmed, visible word of a stored question; no word is
      returned twice; and no more words than the limit come back, except that one always
      may. */
  lemma TopWordsShape(memory: Memory, limit: int)
    ensures var r := TopWrongWords(memory, limit);
      |r| <= Max(limit, 1) && Distinct(r)
      && forall k :: 0 <= k < |r| ==>
           r[k] != "" && IsTrimmed(r[k])
           && exists i :: 0 <= i < |memory.items| && HasWord(memory.items[i].1)
                          && r[k] == Trim(memory.items[i].1.word.value)
  {
    var w := Words(Ranked(memory));
    var all := Dedup(w);
    var r := TopWrongWords(memory, limit);
    assert r == all[..|r|];
    DedupDistinct(w);
    DedupMembers(w);
    forall k | 0 <= k < |r|
      ensures r[k] != "" && IsTrimmed(r[k])
      ensures exists i :: 0 <= i < |memory.items| && HasWord(memory.items[i].1)
                          && r[k] == Trim(memory.items[i].1.word.value)
    {
      assert r[k] == all[k];
      RankedWordFromItem(memory, r[k]);
    }
  }

  /** A ranked word is the trimmed, visible word of some stored question. */
  lemma RankedWordFromItem(memory: Memory, x: string)
    requires x in Words(Ranked(memory))
    ensures x != "" && IsTrimmed(x)
    ensures exists i :: 0 <= i < |memory.items| && HasWord(memory.items[i].1)
                        && x == Trim(memory.items[i].1.word.value)
  {
    var values := Values(memory.items);
    RankedEntries(memory);
    WordOfEntries(Ranked(memory), values, x);
    var i :| 0 <= i < |values| && HasWord(values[i]) && x == Trim(values[i].word.value);
    assert values[i] == memory.items[i].1;
  }

  lemma WordOfEntries(e: seq<ItemStat>, values: seq<ItemStat>, x: string)
    requires forall k :: 0 <= k < |e| ==> HasWord(e[k]) && e[k] in values
    requires x in Words(e)
    ensures x != "" && IsTrimmed(x)
    ensures exists i :: 0 <= i < |values| && HasWord(values[i]) && x == Trim(values[i].word.value)
  {
    WordsOfUsable(e);
    var q :| 0 <= q < |e| && Words(e)[q] == x;
    assert e[q] in values;
    var i :| 0 <= i < |values| && values[i] == e[q];
  }

  /** When fewer words than the limit come back, every word of every stored question is among
      them; in particular nothing comes back only when no question names a word. */
  lemma TopWordsComplete(memory: Memory, limit: int)
    requires |TopWrongWords(memory, limit)| < Max(limit, 1)
    ensures forall i :: 0 <= i < |memory.items| && HasWord(memory.items[i].1) ==>
              Trim(memory.items[i].1.word.value) in TopWrongWords(memory, limit)
  {
    var e := Ranked(memory);
    var w := Words(e);
    var all := Dedup(w);
    assert TopWrongWords(memory, limit) == all;
    DedupMembers(w);
    RankedEntries(memory);
    WordsOfUsable(e);
    forall i | 0 <= i < |memory.items| && HasWord(memory.items[i].1)
      ensures Trim(memory.items[i].1.word.value) in all
    {
      var s := memory.items[i].1;
      assert s == Values(memory.items)[i];
      assert s in e;
      var q :| 0 <= q < |e| && e[q] == s;
      assert w[q] == Trim(s.word.value);
    }
  }

  lemma PrefixFirstOrder(w: seq<string>, r: seq<string>)
    requires |r| <= |Dedup(w)| && r == Dedup(w)[..|r|]
    ensures InFirstOrder(w, r)
  {
    var all := Dedup(w);
    DedupOrder(w);
    forall i, j | 0 <= i < j < |r|
      ensures FirstPos(w, r[i]) < FirstPos(w, r[j]) < |w|
    {
      assert r[i] == all[i] && r[j] == all[j];
    }
  }

  lemma {:induction false} WordsLength(es: seq<ItemStat>)
    requires forall k :: 0 <= k < |es| ==> HasWord(es[k])
    ensures |Words(es)| == |es|
  {
    if es != [] {
      WordsLength(es[..|es| - 1]);
    }
  }

  /** The words of `r`, placed at their first entries of `e`, have non-increasing scores. */
  predicate ScoresDescend(e: seq<ItemStat>, w: seq<string>, r: seq<string>) {
    forall i, j :: 0 <= i < j < |r| ==> NoWorse(e, w, r[i], r[j])
  }

  /** The first entry of `a` in `e` scores at least as much as the first entry of `b`. */
  predicate NoWorse(e: seq<ItemStat>, w: seq<string>, a: string, b: string) {
    FirstPos(w, a) < |e| && FirstPos(w, b) < |e| && Score(e[FirstPos(w, a)]) >= Score(e[FirstPos(w, b)])
  }

  lemma RankOrder(e: seq<ItemStat>, r: seq<string>)
    requires Sorting.Sorted(e, Score, false)
    requires forall k :: 0 <= k < |e| ==> HasWord(e[k])
    requires |r| <= |Dedup(Words(e))| && r == Dedup(Words(e))[..|r|]
    ensures |Words(e)| == |e|
    ensures InFirstOrder(Words(e), r) && ScoresDescend(e, Words(e), r)
  {
    var w := Words(e);
    WordsLength(e);
    PrefixFirstOrder(w, r);
    forall i, j | 0 <= i < j < |r|
      ensures NoWorse(e, w, r[i], r[j])
    {
      var pi, pj := FirstPos(w, r[i]), FirstPos(w, r[j]);
      assert pi < pj < |e|;
      assert !Sorting.Before(Score, false, e[pj], e[pi]);
    }
  }

  /** The entry `q` of `e` is outscored by nobody but the first entry of its own word, which
      comes no later. */
  predicate FirstIsBest(e: seq<ItemStat>, w: seq<string>, q: nat)
    requires q < |e| == |w|
  {
    FirstPos(w, w[q]) <= q && Score(e[FirstPos(w, w[q])]) >= Score(e[q])
  }

  lemma FirstEntryBest(e: seq<ItemStat>)
    requires Sorting.Sorted(e, Score, false)
    requires forall k :: 0 <= k < |e| ==> HasWord(e[k])
    ensures |Words(e)| == |e|
    ensures forall q :: 0 <= q < |e| ==> FirstIsBest(e, Words(e), q)
  {
    var w := Words(e);
    WordsLength(e);
    forall q | 0 <= q < |e|
      ensures FirstIsBest(e, w, q)
    {
      var p := FirstPos(w, w[q]);
      FirstPosAtMost(w, q);
      if p < q {
        assert !Sorting.Before(Score, false, e[q], e[p]);
      }
    }
  }

  /** The words come in the order of their first entries in the ranking, whose scores do not
      increase, so a word never follows one whose best score is lower... */
  lemma TopWordsOrder(memory: Memory, limit: int)
    ensures |Words(Ranked(memory))| == |Ranked(memory)|
    ensures var e := Ranked(memory);
      var r := TopWrongWords(memory, limit);
      InFirstOrder(Words(e), r) && ScoresDescend(e, Words(e), r)
  {
    RankedEntries(memory);
    RankOrder(Ranked(memory), TopWrongWords(memory, limit));
  }

  /** ...and the first entry of a word in the ranking carries its best score. */
  lemma RankedFirstIsBest(memory: Memory)
    ensures |Words(Ranked(memory))| == |Ranked(memory)|
    ensures forall q :: 0 <= q < |Ranked(memory)| ==> FirstIsBest(Ranked(memory), Words(Ranked(memory)), q)
  {
    RankedEntries(memory);
    FirstEntryBest(Ranked(memory));
  }

  // ---------------------------------------------------------------------------------
  // Questions due for review

  /** The limits the two queries use when the caller gives none. */
  const DefaultTopLimit := 6
  const DefaultDueLimit := 10

  /** The ranking score of `pickDueItems` in milliseconds rather than days: the answer balance
      counts a day per wrong answer over right ones, plus the time since the last attempt, or
      999 days when there is none (a zero time counts as none). Multiplying every score by the
      same positive number keeps the order the comparator gives. */
  function DueScore(now: int, s: ItemStat): int {
    (s.wrong - s.correct) * DayMs
    + (if s.lastAt.Some? && s.lastAt.value != 0 then now - s.lastAt.value else 999 * DayMs)
  }

  function Urgency(now: int): ((string, ItemStat)) -> int {
    (e: (string, ItemStat)) => DueScore(now, e.1)
  }

  /** Of the wanted pair (any pair when none is given), and due: a missing due time counts as 0. */
  predicate IsDue(pair: Option<FinalPair>, now: int, s: ItemStat) {
    (pair.None? || s.finalPair == pair) && (if s.dueAt.Some? then s.dueAt.value else 0) <= now
  }

  function DueEntries(items: seq<(string, ItemStat)>, pair: Option<FinalPair>, now: int): (r: seq<(string, ItemStat)>)
    ensures forall e :: e in r <==> e in items && IsDue(pair, now, e.1)
  {
    if items == [] then []
    else
      var n := |items| - 1;
      var rest := DueEntries(items[..n], pair, now);
      assert items == items[..n] + [items[n]];
      if IsDue(pair, now, items[n].1) then rest + [items[n]] else rest
  }

  /** The due entries, most urgent first. */
  function Urgent(memory: Memory, pair: Option<FinalPair>, now: int): seq<(string, ItemStat)> {
    Sorting.SortBy(DueEntries(memory.items, pair, now), Urgency(now), false)
  }

  /** `pickDueItems(memory, pair, limit)` at the time `now`. */
  function PickDueItems(memory: Memory, pair: Option<FinalPair>, limit: int, now: int): seq<string> {
    var u := Urgent(memory, pair, now);
    Keys(u[..SliceEnd(|u|, limit)])
  }

  /** The ranking holds every due question of the pair once, and nothing else, with the
      scores not increasing. */
  lemma UrgentEntries(memory: Memory, pair: Option<FinalPair>, now: int)
    ensures var u := Urgent(memory, pair, now);
      Sorting.Sorted(u, Urgency(now), false)
      && multiset(u) == multiset(DueEntries(memory.items, pair, now))
      && forall e :: e in u <==> e in memory.items && IsDue(pair, now, e.1)
  {
    var d := DueEntries(memory.items, pair, now);
    var u := Urgent(memory, pair, now);
    Sorting.SortBySorted(d, Urgency(now), false);
    forall e
      ensures e in u <==> e in d
    {
      assert e in u <==> e in multiset(u);
      assert e in d <==> e in multiset(d);
    }
  }

  /** Each picked key is that of a due question of the wanted pair, in ranking order; the
      count is the limit when enough are due, all of them when the limit allows, and shorter
      by the limit's size when it is negative. */
  lemma PickDueSpec(memory: Memory, pair: Option<FinalPair>, limit: int, now: int)
    ensures var u := Urgent(memory, pair, now);
      var r := PickDueItems(memory, pair, limit, now);
      |r| == SliceEnd(|u|, limit) && |u| == |DueEntries(memory.items, pair, now)|
      && (forall j :: 0 <= j < |r| ==> r[j] == u[j].0 && u[j] in memory.items && IsDue(pair, now, u[j].1))
      && (forall i, j :: 0 <= i < j < |r| ==> DueScore(now, u[i].1) >= DueScore(now, u[j].1))
  {
    var u := Urgent(memory, pair, now);
    var r := PickDueItems(memory, pair, limit, now);
    UrgentEntries(memory, pair, now);
    forall i, j | 0 <= i < j < |r|
      ensures DueScore(now, u[i].1) >= DueScore(now, u[j].1)
    {
      assert !Sorting.Before(Urgency(now), false, u[j], u[i]);
    }
    forall j | 0 <= j < |r|
      ensures u[j] in memory.items && IsDue(pair, now, u[j].1)
    {
      assert u[j] in u;
    }
  }

  /** With a limit no smaller than the number of due questions, every due question of the
      pair is picked. */
  lemma PickDueComplete(memory: Memory, pair: Option<FinalPair>, limit: int, now: int)
    requires limit >= |DueEntries(memory.items, pair, now)|
    ensures forall i :: 0 <= i < |memory.items| && IsDue(pair, now, memory.items[i].1) ==>
              memory.items[i].0 in PickDueItems(memory, pair, limit, now)
  {
    var u := Urgent(memory, pair, now);
    UrgentEntries(memory, pair, now);
    assert u[..SliceEnd(|u|, limit)] == u;
    forall i | 0 <= i < |memory.items| && IsDue(pair, now, memory.items[i].1)
      ensures memory.items[i].0 in PickDueItems(memory, pair, limit, now)
    {
      assert memory.items[i] in u;
      var j :| 0 <= j < |u| && u[j] == memory.items[i];
      assert Keys(u)[j] == memory.items[i].0;
    }
  }
}
