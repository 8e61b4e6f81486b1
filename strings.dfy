/** String helpers that behave like the JavaScript built-ins the application uses.
    A `char` stands for one UTF-16 code unit; `|s|` is JavaScript's `s.length`. */
module Strings {

  /** A value that may be missing (`undefined` in the source). */
  datatype Option<T> = None | Some(value: T)

  /** A JavaScript string that is neither missing nor empty. */
  predicate Truthy(s: Option<string>) {
    s.Some? && s.value != ""
  }

  function Min(a: int, b: int): int { if a < b then a else b }
  function Max(a: int, b: int): int { if a < b then b else a }

  /** Where `slice(0, limit)` stops in a list of `n` elements: a negative limit counts from
      the end. */
  function SliceEnd(n: nat, limit: int): (e: nat)
    ensures e <= n
    ensures 0 <= limit ==> e == Min(n, limit)
    ensures limit < 0 ==> e == Max(n + limit, 0)
  {
    if limit >= 0 then Min(n, limit) else Max(n + limit, 0)
  }

  /** The characters JavaScript's `trim` strips and the regular-expression class `\s`
      matches: the WhiteSpace and LineTerminator productions of ECMAScript. */
  predicate IsWS(c: char) {
    c == '\t' || c == '\n' || c == '\U{B}' || c == '\U{C}' || c == '\r' || c == ' ' ||
    c == '\U{A0}' || c == '\U{1680}' || ('\U{2000}' <= c <= '\U{200A}') ||
    c == '\U{2028}' || c == '\U{2029}' || c == '\U{202F}' || c == '\U{205F}' ||
    c == '\U{3000}' || c == '\U{FEFF}'
  }

  /** The characters a regular-expression `.` does not match. */
  predicate IsLineTerminator(c: char) {
    c == '\n' || c == '\r' || c == '\U{2028}' || c == '\U{2029}'
  }

  /** `\d` without the unicode flag: ASCII digits only. */
  predicate IsDigit(c: char) {
    '0' <= c <= '9'
  }

  predicate IsTrimmed(s: string) {
    s == [] || (!IsWS(s[0]) && !IsWS(s[|s| - 1]))
  }

  predicate AllWS(s: string) {
    forall k :: 0 <= k < |s| ==> IsWS(s[k])
  }

  /** `s.trimStart()` */
  function TrimStart(s: string): (r: string)
    ensures |r| <= |s|
    ensures r == [] || !IsWS(r[0])
  {
    if |s| > 0 && IsWS(s[0]) then TrimStart(s[1..]) else s
  }

  /** `trimStart` cuts off a whitespace prefix and keeps the rest of `s`. */
  lemma {:induction false} TrimStartSlice(s: string)
    ensures TrimStart(s) == s[|s| - |TrimStart(s)|..]
    ensures AllWS(s[..|s| - |TrimStart(s)|])
  {
    if |s| > 0 && IsWS(s[0]) {
      var t := s[1..];
      TrimStartSlice(t);
      var m := |s| - |TrimStart(s)|;
      assert TrimStart(s) == TrimStart(t);
      assert t[|t| - |TrimStart(t)|..] == s[m..];
      forall k | 0 <= k < m
        ensures IsWS(s[..m][k])
      {
        if k > 0 {
          assert s[..m][k] == t[..m - 1][k - 1];
        }
      }
    }
  }

  lemma TrimStartSkipsWS(s: string)
    ensures forall k :: 0 <= k < |s| - |TrimStart(s)| ==> IsWS(s[k])
  {
    var m := |s| - |TrimStart(s)|;
    TrimStartSlice(s);
    forall k | 0 <= k < m ensures IsWS(s[k]) {
      assert s[k] == s[..m][k];
    }
  }

  /** `s.trimEnd()` */
  function TrimEnd(s: string): (r: string)
    ensures |r| <= |s|
    ensures r == [] || !IsWS(r[|r| - 1])
    ensures r != [] ==> r[0] == s[0]
  {
    if |s| > 0 && IsWS(s[|s| - 1]) then TrimEnd(s[..|s| - 1]) else s
  }

  /** `trimEnd` cuts off a whitespace suffix and keeps the start of `s`. */
  lemma {:induction false} TrimEndSlice(s: string)
    ensures TrimEnd(s) == s[..|TrimEnd(s)|]
    ensures AllWS(s[|TrimEnd(s)|..])
  {
    if |s| > 0 && IsWS(s[|s| - 1]) {
      var t := s[..|s| - 1];
      TrimEndSlice(t);
      var n := |TrimEnd(s)|;
      assert TrimEnd(s) == TrimEnd(t);
      assert t[..n] == s[..n];
      forall k | 0 <= k < |s| - n
        ensures IsWS(s[n..][k])
      {
        if n + k < |s| - 1 {
          assert s[n..][k] == t[n..][k];
        }
      }
    }
  }

  /** `s.trim()` */
  function Trim(s: string): (r: string)
    ensures IsTrimmed(r)
    ensures |r| <= |s|
  {
    TrimEnd(TrimStart(s))
  }

  /** The trimmed text is a piece of `s` with only whitespace cut off either end. */
  lemma TrimIsSlice(s: string)
    ensures exists i :: 0 <= i <= |s| - |Trim(s)| && Trim(s) == s[i..i + |Trim(s)|]
                        && AllWS(s[..i]) && AllWS(s[i + |Trim(s)|..])
  {
    var a := TrimStart(s);
    var r := TrimEnd(a);
    var i := |s| - |a|;
    TrimStartSlice(s);
    TrimEndSlice(a);
    assert a == s[i..];
    assert r == s[i..i + |r|];
    assert s[i + |r|..] == a[|r|..];
    assert Trim(s) == r;
  }

  /** Every character of the trimmed text comes from `s`. */
  lemma TrimChars(s: string)
    ensures forall c :: c in Trim(s) ==> c in s
  {
    var a := TrimStart(s);
    TrimStartSlice(s);
    TrimEndSlice(a);
    assert forall c :: c in a ==> c in s;
    assert forall c :: c in TrimEnd(a) ==> c in a;
  }

  lemma TrimOfTrimmed(s: string)
    requires IsTrimmed(s)
    ensures Trim(s) == s
  {
  }

  /** Trimming twice is trimming once. */
  lemma TrimIdempotent(s: string)
    ensures Trim(Trim(s)) == Trim(s)
  {
    TrimOfTrimmed(Trim(s));
  }

  /** A string of whitespace trims to the empty string, and only such a string does. */
  lemma {:induction false} TrimEmptyIffAllWS(s: string)
    ensures Trim(s) == [] <==> AllWS(s)
  {
    var a := TrimStart(s);
    var i := |s| - |a|;
    TrimStartSlice(s);
    TrimEndSlice(a);
    if Trim(s) == [] {
      forall k | 0 <= k < |s| ensures IsWS(s[k]) {
        assert s[k] == s[..i][k];
      }
    } else {
      assert a[0] == s[i];
    }
  }

  /** The characters of `s` that are not whitespace, in order. */
  function Visible(s: string): (r: string)
    ensures |r| <= |s|
    ensures forall k :: 0 <= k < |r| ==> !IsWS(r[k])
  {
    if s == [] then [] else (if IsWS(s[0]) then [] else [s[0]]) + Visible(s[1..])
  }

  lemma {:induction false} VisibleAppend(a: string, b: string)
    ensures Visible(a + b) == Visible(a) + Visible(b)
  {
    if a == [] {
      assert a + b == b;
    } else {
      assert (a + b)[1..] == a[1..] + b;
      VisibleAppend(a[1..], b);
    }
  }

  lemma {:induction false} VisibleOfAllWS(s: string)
    requires AllWS(s)
    ensures Visible(s) == []
  {
    if s != [] {
      VisibleOfAllWS(s[1..]);
    }
  }

  /** Trimming loses no visible character. */
  lemma TrimKeepsVisible(s: string)
    ensures Visible(Trim(s)) == Visible(s)
  {
    TrimStartKeepsVisible(s);
    TrimEndKeepsVisible(TrimStart(s));
  }

  lemma {:induction false} TrimStartKeepsVisible(s: string)
    ensures Visible(TrimStart(s)) == Visible(s)
  {
    if |s| > 0 && IsWS(s[0]) {
      TrimStartKeepsVisible(s[1..]);
    }
  }

  lemma {:induction false} TrimEndKeepsVisible(s: string)
    ensures Visible(TrimEnd(s)) == Visible(s)
  {
    if |s| > 0 && IsWS(s[|s| - 1]) {
      var init := s[..|s| - 1];
      TrimEndKeepsVisible(init);
      assert s == init + [s[|s| - 1]];
      VisibleAppend(init, [s[|s| - 1]]);
      assert Visible([s[|s| - 1]]) == [];
    }
  }

  predicate StartsWith(s: string, p: string) {
    |p| <= |s| && s[..|p|] == p
  }

  predicate EndsWith(s: string, p: string) {
    |p| <= |s| && s[|s| - |p|..] == p
  }

  /** Joining with a whitespace separator adds nothing visible. */
  lemma {:induction false} VisibleJoin(xs: seq<string>, sep: string)
    requires AllWS(sep)
    ensures Visible(Join(xs, sep)) == Visible(Concat(xs))
  {
    if |xs| == 1 {
      assert xs[1..] == [];
      assert Concat(xs) == xs[0] + Concat(xs[1..]);
      assert xs[0] + [] == xs[0];
    } else if |xs| > 1 {
      VisibleJoin(xs[1..], sep);
      VisibleAppend(xs[0] + sep, Join(xs[1..], sep));
      VisibleAppend(xs[0], sep);
      VisibleOfAllWS(sep);
      VisibleAppend(xs[0], Concat(xs[1..]));
    }
  }

  /** Trimming every piece keeps the visible text of the whole. */
  lemma {:induction false} VisibleConcatTrimAll(xs: seq<string>)
    ensures Visible(Concat(TrimAll(xs))) == Visible(Concat(xs))
  {
    if xs != [] {
      VisibleConcatTrimAll(xs[1..]);
      assert TrimAll(xs) == [Trim(xs[0])] + TrimAll(xs[1..]);
      VisibleAppend(Trim(xs[0]), Concat(TrimAll(xs[1..])));
      VisibleAppend(xs[0], Concat(xs[1..]));
      TrimKeepsVisible(xs[0]);
    }
  }

  /** The length of the run of line feeds at the start of `s` (what `\n+` matches there). */
  function NewlineRun(s: string): (k: nat)
    ensures k <= |s|
    ensures forall i :: 0 <= i < k ==> s[i] == '\n'
    ensures k < |s| ==> s[k] != '\n'
  {
    if |s| > 0 && s[0] == '\n' then 1 + NewlineRun(s[1..]) else 0
  }

  /** `s.includes(p)` */
  predicate Contains(s: string, p: string)
    decreases |s|
  {
    StartsWith(s, p) || (|s| > 0 && Contains(s[1..], p))
  }

  /** A text without the first character of `p` does not contain `p`. */
  lemma {:induction false} NotContainsWithoutHead(s: string, p: string)
    requires p != [] && p[0] !in s
    ensures !Contains(s, p)
    decreases |s|
  {
    if s != [] {
      assert s[0] != p[0];
      assert p[0] !in s[1..] by { assert forall c :: c in s[1..] ==> c in s; }
      NotContainsWithoutHead(s[1..], p);
    }
  }

  /** `includes` finds exactly the occurrences at some index. */
  lemma {:induction false} ContainsAt(s: string, p: string, i: nat)
    requires i + |p| <= |s| && s[i..i + |p|] == p
    ensures Contains(s, p)
  {
    if i > 0 {
      assert s[1..][i - 1..i - 1 + |p|] == s[i..i + |p|];
      ContainsAt(s[1..], p, i - 1);
    }
  }

  lemma {:induction false} ContainsWitness(s: string, p: string) returns (i: nat)
    requires Contains(s, p)
    ensures i + |p| <= |s| && s[i..i + |p|] == p
  {
    if StartsWith(s, p) {
      i := 0;
    } else {
      var j := ContainsWitness(s[1..], p);
      i := j + 1;
      assert s[i..i + |p|] == s[1..][j..j + |p|];
    }
  }

  /** A piece of a string holds only what the string holds. */
  lemma ContainsInfix(s: string, i: nat, j: nat, p: string)
    requires i <= j <= |s| && Contains(s[i..j], p)
    ensures Contains(s, p)
  {
    assert s[i..j] == s[i..][..j - i];
    ContainsInPrefix(s[i..], j - i, p);
    ContainsInSuffix(s, i, p);
  }

  lemma {:induction false} ContainsInPrefix(s: string, j: nat, p: string)
    requires j <= |s| && Contains(s[..j], p)
    ensures Contains(s, p)
  {
    if !StartsWith(s[..j], p) {
      assert s[..j][1..] == s[1..][..j - 1];
      ContainsInPrefix(s[1..], j - 1, p);
    }
  }

  lemma {:induction false} ContainsInSuffix(s: string, i: nat, p: string)
    requires i <= |s| && Contains(s[i..], p)
    ensures Contains(s, p)
  {
    if i > 0 {
      assert s[i..] == s[1..][i - 1..];
      ContainsInSuffix(s[1..], i - 1, p);
    }
  }

  /** An infix of the trimmed text is an infix of the text. */
  lemma TrimContains(s: string, p: string)
    requires Contains(Trim(s), p)
    ensures Contains(s, p)
  {
    var a := TrimStart(s);
    var r := TrimEnd(a);
    TrimEndSlice(a);
    ContainsInPrefix(a, |r|, p);
    TrimStartSlice(s);
    ContainsInSuffix(s, |s| - |a|, p);
  }

  /** `s.split(c)` for a one-character separator: always one more piece than separators. */
  function Split(s: string, c: char): (r: seq<string>)
    ensures |r| >= 1
    ensures forall k :: 0 <= k < |r| ==> c !in r[k]
  {
    if s == [] then [""]
    else
      var rest := Split(s[1..], c);
      if s[0] == c then [""] + rest else [[s[0]] + rest[0]] + rest[1..]
  }

  /** `parts.join(sep)` */
  function Join(parts: seq<string>, sep: string): string {
    if parts == [] then ""
    else if |parts| == 1 then parts[0]
    else parts[0] + sep + Join(parts[1..], sep)
  }

  lemma {:induction false} JoinLength(parts: seq<string>, sep: string)
    requires parts != []
    ensures |Join(parts, sep)| == TotalLength(parts) + (|parts| - 1) * |sep|
  {
    if |parts| > 1 {
      JoinLength(parts[1..], sep);
    }
  }

  function TotalLength(parts: seq<string>): nat {
    if parts == [] then 0 else |parts[0]| + TotalLength(parts[1..])
  }

  /** Splitting on a character and joining with it gives back the string. */
  lemma {:induction false} JoinSplit(s: string, c: char)
    ensures Join(Split(s, c), [c]) == s
  {
    if s != [] {
      var rest := Split(s[1..], c);
      JoinSplit(s[1..], c);
      if s[0] != c {
        if |rest| > 1 {
          assert Join(rest, [c]) == rest[0] + [c] + Join(rest[1..], [c]);
        }
      }
    }
  }

  /** Joining pieces free of `c` with `c` and splitting again gives back the pieces. */
  lemma {:induction false} SplitJoin(parts: seq<string>, c: char)
    requires parts != []
    requires forall k :: 0 <= k < |parts| ==> c !in parts[k]
    ensures Split(Join(parts, [c]), c) == parts
  {
    if |parts| == 1 {
      SplitNoSeparator(parts[0], c);
    } else {
      SplitJoin(parts[1..], c);
      SplitPrefix(parts[0], Join(parts[1..], [c]), c);
      assert Join(parts, [c]) == parts[0] + ([c] + Join(parts[1..], [c]));
    }
  }

  lemma {:induction false} SplitNoSeparator(s: string, c: char)
    requires c !in s
    ensures Split(s, c) == [s]
  {
    if s != [] {
      SplitNoSeparator(s[1..], c);
      assert s[0] != c;
      assert [s[0]] + s[1..] == s;
    }
  }

  lemma {:induction false} SplitPrefix(a: string, b: string, c: char)
    requires c !in a
    ensures Split(a + ([c] + b), c) == [a] + Split(b, c)
  {
    if a == [] {
      assert a + ([c] + b) == [c] + b;
      assert ([c] + b)[1..] == b;
    } else {
      assert (a + ([c] + b))[1..] == a[1..] + ([c] + b);
      SplitPrefix(a[1..], b, c);
      assert a[0] != c;
      assert [a[0]] + a[1..] == a;
    }
  }

  /** The pieces of `xs` that are non-empty, in order (`filter(p => p.length > 0)`). */
  function NonEmpty(xs: seq<string>): (r: seq<string>)
    ensures |r| <= |xs|
    ensures forall k :: 0 <= k < |r| ==> r[k] != [] && r[k] in xs
  {
    if xs == [] then []
    else (if xs[0] == [] then [] else [xs[0]]) + NonEmpty(xs[1..])
  }

  lemma {:induction false} NonEmptyAppend(xs: seq<string>, ys: seq<string>)
    ensures NonEmpty(xs + ys) == NonEmpty(xs) + NonEmpty(ys)
  {
    if xs == [] {
      assert xs + ys == ys;
    } else {
      assert (xs + ys)[1..] == xs[1..] + ys;
      NonEmptyAppend(xs[1..], ys);
    }
  }

  /** A non-empty piece is kept, right after what is kept of the pieces before it. */
  lemma NonEmptyAt(xs: seq<string>, i: nat)
    requires i < |xs| && xs[i] != []
    ensures var p := |NonEmpty(xs[..i])|;
      p < |NonEmpty(xs)| && NonEmpty(xs)[..p] == NonEmpty(xs[..i]) && NonEmpty(xs)[p] == xs[i]
  {
    var tail := [xs[i]] + xs[i + 1..];
    assert xs == xs[..i] + tail;
    NonEmptyAppend(xs[..i], tail);
    assert tail[1..] == xs[i + 1..];
    assert NonEmpty(tail) == [xs[i]] + NonEmpty(xs[i + 1..]);
  }

  /** `xs.map(x => x.trim())` */
  function TrimAll(xs: seq<string>): (r: seq<string>)
    ensures |r| == |xs|
    ensures forall k :: 0 <= k < |r| ==> r[k] == Trim(xs[k])
  {
    if xs == [] then [] else [Trim(xs[0])] + TrimAll(xs[1..])
  }

  lemma StartsWithSelf(s: string)
    ensures StartsWith(s, s)
  {
    assert s[..|s|] == s;
  }

  /** A prefix stays a prefix when text is appended. */
  lemma StartsWithExtended(s: string, t: string, p: string)
    requires StartsWith(s, p)
    ensures StartsWith(s + t, p)
  {
    assert (s + t)[..|p|] == s[..|p|];
  }

  lemma AppendAssoc(a: string, b: string, c: string)
    ensures a + b + c == a + (b + c)
  {
  }

  function Concat(xs: seq<string>): string {
    if xs == [] then [] else xs[0] + Concat(xs[1..])
  }

  lemma {:induction false} ConcatAppend(xs: seq<string>, ys: seq<string>)
    ensures Concat(xs + ys) == Concat(xs) + Concat(ys)
  {
    if xs == [] {
      assert xs + ys == ys;
    } else {
      assert (xs + ys)[1..] == xs[1..] + ys;
      ConcatAppend(xs[1..], ys);
    }
  }

  /** The simple lower-case mapping of the capital letters of the Latin, Latin-1, Greek and
      Cyrillic blocks and of the full-width Latin letters; every other character is kept. */
  function LowerChar(c: char): char {
    if 'A' <= c <= 'Z' || ('\U{C0}' <= c <= '\U{DE}' && c != '\U{D7}')
       || ('\U{391}' <= c <= '\U{3A9}' && c != '\U{3A2}') || ('\U{410}' <= c <= '\U{42F}')
       || ('\U{FF21}' <= c <= '\U{FF3A}')
    then (c as int + 32) as char
    else if '\U{400}' <= c <= '\U{40F}' then (c as int + 80) as char
    else c
  }

  /** A lower-case letter stays as it is. */
  lemma LowerCharIdempotent(c: char)
    ensures LowerChar(LowerChar(c)) == LowerChar(c)
  {
  }

  /** `s.toLowerCase()`, one code unit at a time. */
  function ToLower(s: string): (r: string)
    ensures |r| == |s|
    ensures forall k :: 0 <= k < |s| ==> r[k] == LowerChar(s[k])
  {
    seq(|s|, k requires 0 <= k < |s| => LowerChar(s[k]))
  }

  predicate IsDigits(s: string) {
    |s| > 0 && forall k :: 0 <= k < |s| ==> IsDigit(s[k])
  }

  function DigitChar(d: nat): char
    requires d < 10
  {
    ('0' as int + d) as char
  }

  function DigitValue(c: char): nat
    requires IsDigit(c)
  {
    c as int - '0' as int
  }

  /** `String(n)` for a natural number: its decimal digits. */
  function NatToString(n: nat): (r: string)
    ensures IsDigits(r)
    ensures r[0] == '0' ==> n == 0
  {
    if n < 10 then [DigitChar(n)] else NatToString(n / 10) + [DigitChar(n % 10)]
  }

  /** `parseInt(s, 10)` of a string of ASCII digits. */
  function ParseNat(s: string): nat
    requires forall k :: 0 <= k < |s| ==> IsDigit(s[k])
  {
    if s == [] then 0 else 10 * ParseNat(s[..|s| - 1]) + DigitValue(s[|s| - 1])
  }

  /** Printing and parsing decimal numbers are inverse. */
  lemma {:induction false} ParseNatToString(n: nat)
    ensures ParseNat(NatToString(n)) == n
  {
    if n >= 10 {
      var s := NatToString(n);
      assert s[..|s| - 1] == NatToString(n / 10);
      ParseNatToString(n / 10);
    }
  }

  lemma NatToStringInjective(m: nat, n: nat)
    requires NatToString(m) == NatToString(n)
    ensures m == n
  {
    ParseNatToString(m);
    ParseNatToString(n);
  }

  /** `s.padStart(2, '0')` */
  function PadStart2(s: string): (r: string)
    ensures |r| == if |s| < 2 then 2 else |s|
    ensures EndsWith(r, s)
  {
    if |s| == 0 then "00" else if |s| == 1 then "0" + s else s
  }

  // Removing repetitions (`Array.from(new Set(ws))`)

  /** The first occurrence of each word, in order. */
  function Dedup(ws: seq<string>): seq<string> {
    if ws == [] then []
    else
      var rest := Dedup(ws[..|ws| - 1]);
      if ws[|ws| - 1] in rest then rest else rest + [ws[|ws| - 1]]
  }

  lemma {:induction false} DedupPrefix(ws: seq<string>, i: nat)
    requires i <= |ws|
    ensures |Dedup(ws[..i])| <= |Dedup(ws)|
    ensures Dedup(ws)[..|Dedup(ws[..i])|] == Dedup(ws[..i])
  {
    if i < |ws| {
      var n := |ws| - 1;
      assert ws[..n][..i] == ws[..i];
      DedupPrefix(ws[..n], i);
    } else {
      assert ws[..i] == ws;
    }
  }

  lemma DedupStep(ws: seq<string>, w: string)
    ensures Dedup(ws + [w]) == if w in Dedup(ws) then Dedup(ws) else Dedup(ws) + [w]
  {
    assert (ws + [w])[..|ws|] == ws;
  }

  lemma {:induction false} DedupMembers(ws: seq<string>)
    ensures forall x :: x in Dedup(ws) <==> x in ws
  {
    if ws != [] {
      var n := |ws| - 1;
      DedupMembers(ws[..n]);
      assert ws == ws[..n] + [ws[n]];
    }
  }

  predicate Distinct(d: seq<string>) {
    forall i, j :: 0 <= i < j < |d| ==> d[i] != d[j]
  }

  lemma {:induction false} DedupDistinct(ws: seq<string>)
    ensures Distinct(Dedup(ws))
  {
    if ws != [] {
      var n := |ws| - 1;
      DedupDistinct(ws[..n]);
      var rest := Dedup(ws[..n]);
      if ws[n] !in rest {
        var d := rest + [ws[n]];
        forall i, j | 0 <= i < j < |d|
          ensures d[i] != d[j]
        {
          if j == |rest| {
            assert d[i] in rest;
          }
        }
      }
    }
  }

  /** Where `x` first occurs in `ws`; `|ws|` when it does not. */
  function FirstPos(ws: seq<string>, x: string): (p: nat)
    ensures p <= |ws|
  {
    if ws == [] then 0
    else if x in ws[..|ws| - 1] then FirstPos(ws[..|ws| - 1], x)
    else if ws[|ws| - 1] == x then |ws| - 1
    else |ws|
  }

  lemma {:induction false} FirstPosSpec(ws: seq<string>, x: string)
    ensures var p := FirstPos(ws, x);
      x !in ws[..p] && (x in ws <==> p < |ws|) && (p < |ws| ==> ws[p] == x)
  {
    if ws != [] {
      var n := |ws| - 1;
      assert ws == ws[..n] + [ws[n]];
      if x in ws[..n] {
        FirstPosSpec(ws[..n], x);
        var p := FirstPos(ws, x);
        assert ws[..p] == ws[..n][..p];
      }
    }
  }

  lemma {:induction false} FirstPosAtMost(ws: seq<string>, q: nat)
    requires q < |ws|
    ensures FirstPos(ws, ws[q]) <= q
  {
    var n := |ws| - 1;
    if q < n {
      assert ws[..n][q] == ws[q];
      FirstPosAtMost(ws[..n], q);
    }
  }

  /** `d` lists words of `ws` in the order of their first occurrences. */
  predicate InFirstOrder(ws: seq<string>, d: seq<string>) {
    forall i, j :: 0 <= i < j < |d| ==> FirstPos(ws, d[i]) < FirstPos(ws, d[j]) < |ws|
  }

  lemma {:induction false} DedupOrder(ws: seq<string>)
    ensures InFirstOrder(ws, Dedup(ws))
  {
    if ws != [] {
      var n := |ws| - 1;
      var prefix := ws[..n];
      DedupOrder(prefix);
      DedupMembers(prefix);
      var rest := Dedup(prefix);
      var d := Dedup(ws);
      forall i, j | 0 <= i < j < |d|
        ensures FirstPos(ws, d[i]) < FirstPos(ws, d[j]) < |ws|
      {
        assert d[i] == rest[i];
        assert d[i] in prefix;
        assert FirstPos(ws, d[i]) == FirstPos(prefix, d[i]);
        if j < |rest| {
          assert d[j] == rest[j];
          assert FirstPos(ws, d[j]) == FirstPos(prefix, d[j]);
        } else {
          assert d[j] == ws[n] && d[j] !in prefix;
          assert FirstPos(ws, d[j]) == n;
        }
      }
      assert InFirstOrder(ws, d);
    }
  }
}
