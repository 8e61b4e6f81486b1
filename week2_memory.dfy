/** The vocabulary and study-history memory of src/lib/week2Memory.ts. The memory the source
    reads from storage, changes in place and writes back is an object here whose methods
    change its fields. */
module Week2Memory {
  import opened Strings
  import Sorting

  datatype WordStat = WordStat(encounters: nat, correct: nat, lastSeen: int, lastScore: real)

  datatype Source = AiGenerated | UserUploaded

  datatype DocumentRecord = DocumentRecord(source: Source, titleOrTopic: string, trainedAt: int,
                                           keywordsLearned: seq<string>)

  /** The history keeps the most recent records only. */
  const MaxDocuments := 20

  /** The statistics of `word` after one practice: one more encounter, one more correct answer
      exactly when the answer was right, seen at `now`, and the given score, or 1 for a right
      answer and 0 for a wrong one when no score is given. A word seen for the first time
      starts from no encounters. */
  function Practised(before: Option<WordStat>, isCorrect: bool, score: Option<real>, now: int): (s: WordStat)
    ensures var b := if before.Some? then before.value else WordStat(0, 0, now, 0.0);
      s.encounters == b.encounters + 1
      && (isCorrect ==> s.correct == b.correct + 1)
      && (!isCorrect ==> s.correct == b.correct)
      && (b.correct <= b.encounters ==> s.correct <= s.encounters)
    ensures s.lastSeen == now
    ensures score.Some? ==> s.lastScore == score.value
    ensures score.None? ==> s.lastScore == if isCorrect then 1.0 else 0.0
  {
    var b := if before.Some? then before.value else WordStat(0, 0, now, 0.0);
    WordStat(b.encounters + 1, if isCorrect then b.correct + 1 else b.correct, now,
             if score.Some? then score.value else if isCorrect then 1.0 else 0.0)
  }

  /** The history after studying `record`: it comes first, the earlier records follow in
      their order, and the oldest is dropped once there are more than 20. */
  function Studied(documents: seq<DocumentRecord>, record: DocumentRecord): (r: seq<DocumentRecord>)
    ensures |r| >= 1 && r[0] == record
    ensures |documents| < MaxDocuments ==> r == [record] + documents
    ensures |documents| >= MaxDocuments ==> r == [record] + documents[..|documents| - 1]
    ensures |documents| <= MaxDocuments ==> |r| <= MaxDocuments
  {
    var grown := [record] + documents;
    if |grown| > MaxDocuments then grown[..|grown| - 1] else grown
  }

  /** A history built only by studying never holds more than 20 records. */
  lemma {:induction false} HistoryBounded(records: seq<DocumentRecord>)
    ensures |StudyAll([], records)| <= MaxDocuments
    ensures records != [] ==> StudyAll([], records)[0] == records[|records| - 1]
  {
    if records != [] {
      HistoryBounded(records[..|records| - 1]);
    }
  }

  /** The history after studying `records` in order. */
  function StudyAll(documents: seq<DocumentRecord>, records: seq<DocumentRecord>): seq<DocumentRecord> {
    if records == [] then documents
    else Studied(StudyAll(documents, records[..|records| - 1]), records[|records| - 1])
  }

  // ---------------------------------------------------------------------------------
  // The order of `Object.entries`

  /** A key JavaScript treats as an array index: the canonical decimal form of a number
      below 2^32 - 1 (no leading zero except for `0` itself). */
  predicate IsArrayIndex(k: string) {
    IsDigits(k) && (k[0] != '0' || |k| == 1) && ParseNat(k) < 0xFFFF_FFFF
  }

  /** The number an array-index key stands for. */
  function IndexValue(k: string): int {
    if IsArrayIndex(k) then ParseNat(k) else 0
  }

  /** The array-index keys among `keys`, in their order. */
  function IndexKeys(keys: seq<string>): (r: seq<string>)
    ensures forall k :: 0 <= k < |r| ==> IsArrayIndex(r[k])
  {
    if keys == [] then []
    else IndexKeys(keys[..|keys| - 1]) + (if IsArrayIndex(keys[|keys| - 1]) then [keys[|keys| - 1]] else [])
  }

  /** The other keys among `keys`, in their order. */
  function OtherKeys(keys: seq<string>): (r: seq<string>)
    ensures forall k :: 0 <= k < |r| ==> !IsArrayIndex(r[k])
  {
    if keys == [] then []
    else OtherKeys(keys[..|keys| - 1]) + (if IsArrayIndex(keys[|keys| - 1]) then [] else [keys[|keys| - 1]])
  }

  /** The keys of an object whose string keys were stored in the order `keys`, as
      `Object.entries` lists them: array-index keys first, in ascending numeric order, then
      the other keys in the order they were stored. */
  function EntriesOrder(keys: seq<string>): seq<string> {
    Sorting.SortBy(IndexKeys(keys), IndexValue, true) + OtherKeys(keys)
  }

  /** The two kinds of keys split the keys between them. */
  lemma {:induction false} SplitKeysPermutes(keys: seq<string>)
    ensures multiset(IndexKeys(keys)) + multiset(OtherKeys(keys)) == multiset(keys)
  {
    if keys != [] {
      var n := |keys| - 1;
      SplitKeysPermutes(keys[..n]);
      assert keys == keys[..n] + [keys[n]];
    }
  }

  lemma EntriesPermutes(keys: seq<string>)
    ensures multiset(EntriesOrder(keys)) == multiset(keys)
  {
    SplitKeysPermutes(keys);
  }

  /** `Object.entries` lists every key once: the same keys, the array indices first and in
      ascending order, the other keys after them exactly as they were stored. */
  lemma EntriesOrderSpec(keys: seq<string>)
    ensures var r := EntriesOrder(keys); var n := |IndexKeys(keys)|;
      multiset(r) == multiset(keys)
      && n <= |r|
      && (forall k :: 0 <= k < n ==> IsArrayIndex(r[k]))
      && Sorting.Sorted(r[..n], IndexValue, true)
      && r[n..] == OtherKeys(keys)
  {
    var r := EntriesOrder(keys);
    var sorted := Sorting.SortBy(IndexKeys(keys), IndexValue, true);
    SplitKeysPermutes(keys);
    Sorting.SortBySorted(IndexKeys(keys), IndexValue, true);
    assert r[..|sorted|] == sorted;
    assert r[|sorted|..] == OtherKeys(keys);
    forall k | 0 <= k < |sorted|
      ensures IsArrayIndex(sorted[k])
    {
      assert sorted[k] in multiset(IndexKeys(keys));
    }
  }

  /** Keys that are not array indices keep the order they were stored in. */
  lemma NoIndexKeys(keys: seq<string>)
    requires forall k :: 0 <= k < |keys| ==> !IsArrayIndex(keys[k])
    ensures EntriesOrder(keys) == keys
  {
    NoIndexKeysSplit(keys);
  }

  lemma {:induction false} NoIndexKeysSplit(keys: seq<string>)
    requires forall k :: 0 <= k < |keys| ==> !IsArrayIndex(keys[k])
    ensures IndexKeys(keys) == [] && OtherKeys(keys) == keys
  {
    if keys != [] {
      NoIndexKeysSplit(keys[..|keys| - 1]);
    }
  }

  class Memory {
    /** `vocabulary`, with `words` listing its keys in the order they were first stored. */
    var vocabulary: map<string, WordStat>
    var words: seq<string>
    var documents: seq<DocumentRecord>

    /** The keys are listed once each, and no word was answered right more often than it
        was met. */
    ghost predicate Valid()
      reads this
    {
      Distinct(words)
      && (forall w :: w in words <==> w in vocabulary)
      && forall w :: w in vocabulary ==> vocabulary[w].correct <= vocabulary[w].encounters
    }

    /** The default memory: no words and no history. */
    constructor ()
      ensures Valid()
      ensures vocabulary == map[] && words == [] && documents == []
    {
      vocabulary := map[];
      words := [];
      documents := [];
    }

    /** `recordWordPractice(word, result)` at the time `now`. */
    method RecordWordPractice(word: string, isCorrect: bool, score: Option<real>, now: int)
      requires Valid()
      modifies this
      ensures Valid()
      ensures vocabulary == old(vocabulary)[word := Practised(
        if word in old(vocabulary) then Some(old(vocabulary)[word]) else None, isCorrect, score, now)]
      ensures words == if word in old(vocabulary) then old(words) else old(words) + [word]
      ensures documents == old(documents)
    {
      var current := Practised(if word in vocabulary then Some(vocabulary[word]) else None,
                               isCorrect, score, now);
      if word !in vocabulary {
        words := words + [word];
      }
      vocabulary := vocabulary[word := current];
    }

    /** `recordDocumentStudy(source, titleOrTopic, keywordsLearned)` at the time `now`. */
    method RecordDocumentStudy(source: Source, titleOrTopic: string, keywordsLearned: seq<string>, now: int)
      modifies this
      ensures documents == Studied(old(documents), DocumentRecord(source, titleOrTopic, now, keywordsLearned))
      ensures vocabulary == old(vocabulary) && words == old(words)
    {
      documents := [DocumentRecord(source, titleOrTopic, now, keywordsLearned)] + documents;
      if |documents| > MaxDocuments {
        documents := documents[..|documents| - 1];
      }
    }

    /** `getWordsNeedingReview(limit)`: the words in the order `Object.entries` lists them,
        sorted stably least mastered first, cut to `limit`. `mastery` ranks the words as the
        source's mastery estimate does. */
    function WordsNeedingReview(mastery: string -> int, limit: int): (r: seq<string>)
      reads this
    {
      var ranked := Sorting.SortBy(EntriesOrder(words), mastery, true);
      ranked[..SliceEnd(|ranked|, limit)]
    }

    /** At most `limit` words come back, each a key of the vocabulary and none twice, least
        mastered first; a word left out is mastered at least as well as every word that comes
        back; with a limit at least the vocabulary's size, every word comes back. */
    lemma ReviewSpec(mastery: string -> int, limit: int)
      requires Valid()
      ensures var r := WordsNeedingReview(mastery, limit);
        |r| == SliceEnd(|vocabulary|, limit)
        && (forall k :: 0 <= k < |r| ==> r[k] in vocabulary)
        && Distinct(r)
        && Sorting.Sorted(r, mastery, true)
        && (limit >= |vocabulary| ==> forall w :: w in vocabulary ==> w in r)
        && (forall w, k :: w in vocabulary && w !in r && 0 <= k < |r| ==> mastery(r[k]) <= mastery(w))
    {
      EntriesPermutes(words);
      RankedPrefixSpec(EntriesOrder(words), words, vocabulary, mastery, limit);
    }
  }

  /** The review list cut from any arrangement of the keys: distinct vocabulary keys, least
      mastered first, none left out that is mastered less than one taken. */
  lemma RankedPrefixSpec(order: seq<string>, words: seq<string>, vocabulary: map<string, WordStat>,
                         mastery: string -> int, limit: int)
    requires Distinct(words) && (forall w :: w in words <==> w in vocabulary)
    requires multiset(order) == multiset(words)
    ensures var ranked := Sorting.SortBy(order, mastery, true); var r := ranked[..SliceEnd(|ranked|, limit)];
      |r| == SliceEnd(|vocabulary|, limit)
      && (forall k :: 0 <= k < |r| ==> r[k] in vocabulary)
      && Distinct(r)
      && Sorting.Sorted(r, mastery, true)
      && (limit >= |vocabulary| ==> forall w :: w in vocabulary ==> w in r)
      && (forall w, k :: w in vocabulary && w !in r && 0 <= k < |r| ==> mastery(r[k]) <= mastery(w))
  {
    var ranked := Sorting.SortBy(order, mastery, true);
    var r := ranked[..SliceEnd(|ranked|, limit)];
    Sorting.SortBySorted(order, mastery, true);
    KeysCount(words, vocabulary);
    forall k | 0 <= k < |r|
      ensures r[k] in vocabulary
    {
      assert r[k] in multiset(ranked);
    }
    forall i, j | 0 <= i < j < |r|
      ensures r[i] != r[j]
    {
      PermutationDistinct(words, ranked, i, j);
    }
    forall w, k | w in vocabulary && w !in r && 0 <= k < |r|
      ensures mastery(r[k]) <= mastery(w)
    {
      assert w in multiset(ranked) by { assert w in multiset(words); }
      var m :| 0 <= m < |ranked| && ranked[m] == w;
      assert m >= |r| by {
        assert forall i :: 0 <= i < |r| ==> r[i] == ranked[i];
      }
      assert r[k] == ranked[k];
    }
    if limit >= |vocabulary| {
      assert r == ranked;
      forall w | w in vocabulary
        ensures w in r
      {
        assert w in multiset(words);
      }
    }
  }

  /** On a tie the order of `Object.entries` decides: the key `1`, stored after `乙`, comes
      back first. */
  lemma IndexKeyFirstOnTie(m: Memory, mastery: string -> int)
    requires m.words == ["乙", "1"] && mastery("乙") == mastery("1")
    ensures m.WordsNeedingReview(mastery, 1) == ["1"]
  {
    var keys := ["乙", "1"];
    assert IsArrayIndex("1") by {
      assert ParseNat("1") == ParseNat("") * 10 + DigitValue('1');
    }
    assert !IsArrayIndex("乙");
    assert keys[..1] == ["乙"];
    assert IndexKeys(["乙"]) == [] by { assert ["乙"][..0] == []; }
    assert OtherKeys(["乙"]) == ["乙"] by { assert ["乙"][..0] == []; }
    assert IndexKeys(keys) == ["1"];
    assert OtherKeys(keys) == ["乙"];
    assert Sorting.SortBy(["1"], IndexValue, true) == ["1"] by { assert ["1"][1..] == []; }
    assert EntriesOrder(keys) == ["1", "乙"];
    var order := ["1", "乙"];
    assert Sorting.SortBy(order[1..], mastery, true) == ["乙"] by {
      assert order[1..] == ["乙"];
      assert ["乙"][1..] == [];
    }
    assert Sorting.SortBy(order, mastery, true) == ["1", "乙"];
  }

  /** Distinct keys listing a map's domain are as many as the map's keys. */
  lemma {:induction false} KeysCount<V>(words: seq<string>, m: map<string, V>)
    requires Distinct(words) && forall w :: w in words <==> w in m
    ensures |words| == |m|
  {
    if words != [] {
      var n := |words| - 1;
      var w := words[n];
      var rest := m - {w};
      DropLastKey(words, m);
      KeysCount(words[..n], rest);
      assert m.Keys == rest.Keys + {w};
    }
  }

  /** Without its last word, the list names the map's domain without that word. */
  lemma DropLastKey<V>(words: seq<string>, m: map<string, V>)
    requires words != [] && Distinct(words) && forall w :: w in words <==> w in m
    ensures Distinct(words[..|words| - 1])
    ensures forall x :: x in words[..|words| - 1] <==> x in m && x != words[|words| - 1]
  {
    var n := |words| - 1;
    forall x
      ensures x in words[..n] <==> x in m && x != words[n]
    {
      if x in words[..n] {
        var k :| 0 <= k < n && words[k] == x;
        assert words[k] != words[n];
      }
      if x in m && x != words[n] {
        assert x in words;
        var k :| 0 <= k < |words| && words[k] == x;
        assert k != n;
        assert words[..n][k] == x;
      }
    }
  }

  /** A rearrangement of distinct words has distinct words. */
  lemma PermutationDistinct(s: seq<string>, t: seq<string>, i: nat, j: nat)
    requires Distinct(s) && multiset(s) == multiset(t) && i < j < |t|
    ensures t[i] != t[j]
  {
    if t[i] == t[j] {
      var x := t[i];
      assert multiset(t)[x] >= 2 by {
        assert t == t[..j] + [t[j]] + t[j + 1..];
        assert x in t[..j] by {
          assert t[..j][i] == x;
        }
      }
      DistinctCount(s, x);
      assert false;
    }
  }

  lemma {:induction false} DistinctCount(s: seq<string>, x: string)
    requires Distinct(s)
    ensures multiset(s)[x] <= 1
  {
    if s != [] {
      var n := |s| - 1;
      assert s == s[..n] + [s[n]];
      DistinctCount(s[..n], x);
      if s[n] == x {
        assert x !in s[..n];
      }
    }
  }
}
