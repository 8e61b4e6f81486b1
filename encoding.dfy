/** `detectEncoding` of src/lib/textImport.ts: a byte-order-mark sniff, then a heuristic
    that scores the first 5000 bytes as UTF-8 or as GBK. The UTF-8 byte-order mark and the
    two- and three-byte sequence shapes are those of RFC 3629 (sections 6 and 3). */
module EncodingDetection {

  type Byte = x: int | 0 <= x < 256

  datatype Encoding = Utf8 | Utf16LE | Utf16BE | Gbk {
    /** The label handed to the decoder. */
    function Label(): string {
      match this
      case Utf8 => "UTF-8"
      case Utf16LE => "UTF-16LE"
      case Utf16BE => "UTF-16BE"
      case Gbk => "GBK"
    }
  }

  /** How many leading bytes the heuristic looks at. */
  const CheckWindow: nat := 5000

  /** The running state of the scan: the two scores and whether every byte seen was ASCII. */
  datatype Scores = Scores(utf8: nat, gbk: nat, pureAscii: bool)

  const Start := Scores(0, 0, true)

  predicate HasUtf8Bom(b: seq<Byte>) { |b| >= 3 && b[0] == 0xEF && b[1] == 0xBB && b[2] == 0xBF }
  predicate HasUtf16LEBom(b: seq<Byte>) { |b| >= 2 && b[0] == 0xFF && b[1] == 0xFE }
  predicate HasUtf16BEBom(b: seq<Byte>) { |b| >= 2 && b[0] == 0xFE && b[1] == 0xFF }
  predicate HasBom(b: seq<Byte>) { HasUtf8Bom(b) || HasUtf16LEBom(b) || HasUtf16BEBom(b) }

  predicate IsContinuation(x: Byte) { 0x80 <= x <= 0xBF }

  /** Where the scan stands after the UTF-8 test at `i`: past a matched two- or three-byte
      sequence, or still at `i`. */
  function AfterUtf8Test(b: seq<Byte>, i: nat): (j: nat)
    requires i < |b|
    ensures i <= j <= i + 2 && j < |b|
  {
    if 0xC2 <= b[i] <= 0xDF && i + 1 < |b| && IsContinuation(b[i + 1]) then i + 1
    else if 0xE0 <= b[i] <= 0xEF && i + 2 < |b| && IsContinuation(b[i + 1]) && IsContinuation(b[i + 2]) then i + 2
    else i
  }

  /** One turn of the scanning loop at position `i`: the position the next turn starts at
      and the updated scores. The GBK test looks at the byte after the position the UTF-8
      test left the scan at, not at the byte after `i`. */
  function Step(b: seq<Byte>, i: nat, s: Scores): (r: (nat, Scores))
    requires i < |b|
    ensures i < r.0 <= i + 3
  {
    var x := b[i];
    var j := AfterUtf8Test(b, i);
    var utf8 := s.utf8 + (j - i) + (if j > i then 1 else 0);
    var gbk := if 0x81 <= x <= 0xFE && j + 1 < |b| && 0x40 <= b[j + 1] <= 0xFE then s.gbk + 2 else s.gbk;
    (j + 1, Scores(utf8, gbk, s.pureAscii && x <= 0x7F))
  }

  /** The scores the loop ends with when it runs from position `i` while below `n`. */
  function ScanFrom(b: seq<Byte>, i: nat, n: nat, s: Scores): Scores
    requires n <= |b|
    decreases n - i
  {
    if i >= n then s else var (j, t) := Step(b, i, s); ScanFrom(b, j, n, t)
  }

  function Scan(b: seq<Byte>): Scores {
    ScanFrom(b, 0, if |b| < CheckWindow then |b| else CheckWindow, Start)
  }

  /** The encoding `detectEncoding` reports for a buffer. */
  function Detect(b: seq<Byte>): Encoding {
    if HasUtf8Bom(b) then Utf8
    else if HasUtf16LEBom(b) then Utf16LE
    else if HasUtf16BEBom(b) then Utf16BE
    else
      var s := Scan(b);
      if s.pureAscii then Utf8
      else if s.utf8 > s.gbk then Utf8
      else if s.gbk > s.utf8 then Gbk
      else Utf8
  }

  /** The body of the scanning loop of `detectEncoding`. */
  method ScanTurn(b: seq<Byte>, i: nat, utf8: nat, gbk: nat, ascii: bool)
    returns (j: nat, utf8': nat, gbk': nat, ascii': bool)
    requires i < |b|
    ensures (j, Scores(utf8', gbk', ascii')) == Step(b, i, Scores(utf8, gbk, ascii))
  {
    var x := b[i];
    j, utf8', gbk', ascii' := i, utf8, gbk, ascii;
    if x > 0x7F { ascii' := false; }
    if 0xC2 <= x <= 0xDF {
      if j + 1 < |b| && 0x80 <= b[j + 1] <= 0xBF {
        utf8' := utf8' + 2;
        j := j + 1;
      }
    } else if 0xE0 <= x <= 0xEF {
      if j + 2 < |b| && 0x80 <= b[j + 1] <= 0xBF && 0x80 <= b[j + 2] <= 0xBF {
        utf8' := utf8' + 3;
        j := j + 2;
      }
    }
    if 0x81 <= x <= 0xFE {
      if j + 1 < |b| && 0x40 <= b[j + 1] <= 0xFE {
        gbk' := gbk' + 2;
      }
    }
    j := j + 1;
  }

  /** `detectEncoding(buffer)` */
  method DetectEncoding(b: seq<Byte>) returns (e: Encoding)
    ensures e == Detect(b)
    ensures HasUtf8Bom(b) ==> e == Utf8
    ensures !HasUtf8Bom(b) && HasUtf16LEBom(b) ==> e == Utf16LE
    ensures !HasUtf8Bom(b) && HasUtf16BEBom(b) ==> e == Utf16BE
    ensures !HasBom(b) ==> (e == Gbk <==> !Scan(b).pureAscii && Scan(b).gbk > Scan(b).utf8)
  {
    if |b| >= 3 && b[0] == 0xEF && b[1] == 0xBB && b[2] == 0xBF { return Utf8; }
    if |b| >= 2 && b[0] == 0xFF && b[1] == 0xFE { return Utf16LE; }
    if |b| >= 2 && b[0] == 0xFE && b[1] == 0xFF { return Utf16BE; }

    var utf8Probable: nat := 0;
    var gbkProbable: nat := 0;
    var isPureAscii := true;
    var checkLength := if |b| < CheckWindow then |b| else CheckWindow;
    var i := 0;
    while i < checkLength
      invariant ScanFrom(b, i, checkLength, Scores(utf8Probable, gbkProbable, isPureAscii)) == Scan(b)
      decreases checkLength - i
    {
      i, utf8Probable, gbkProbable, isPureAscii := ScanTurn(b, i, utf8Probable, gbkProbable, isPureAscii);
    }
    assert Scores(utf8Probable, gbkProbable, isPureAscii) == Scan(b);

    if isPureAscii { return Utf8; }
    if utf8Probable > gbkProbable { return Utf8; }
    if gbkProbable > utf8Probable { return Gbk; }
    return Utf8;
  }

  /** Without a byte-order mark the heuristic only ever answers UTF-8 or GBK, and a tie
      between the two scores goes to UTF-8. */
  lemma HeuristicAnswers(b: seq<Byte>)
    requires !HasBom(b)
    ensures Detect(b) == Utf8 || Detect(b) == Gbk
    ensures Scan(b).utf8 == Scan(b).gbk ==> Detect(b) == Utf8
  {
  }

  lemma {:induction false} ScanStaysNonAscii(b: seq<Byte>, i: nat, n: nat, s: Scores)
    requires n <= |b| && !s.pureAscii
    ensures !ScanFrom(b, i, n, s).pureAscii
    decreases n - i
  {
    if i < n {
      var (j, t) := Step(b, i, s);
      ScanStaysNonAscii(b, j, n, t);
    }
  }

  /** The ASCII flag survives the scan exactly when every byte of the window is ASCII:
      a skipped continuation byte always follows a non-ASCII lead byte. */
  lemma {:induction false} ScanAsciiIff(b: seq<Byte>, i: nat, n: nat, s: Scores)
    requires i <= n <= |b|
    ensures ScanFrom(b, i, n, s).pureAscii <==> s.pureAscii && forall k :: i <= k < n ==> b[k] <= 0x7F
    decreases n - i
  {
    if i < n {
      var (j, t) := Step(b, i, s);
      if b[i] <= 0x7F {
        assert j == i + 1 && t.pureAscii == s.pureAscii;
        ScanAsciiIff(b, j, n, t);
      } else {
        ScanStaysNonAscii(b, j, n, t);
      }
    }
  }

  /** A buffer whose first 5000 bytes are all ASCII is read as UTF-8. */
  lemma AsciiWindowIsUtf8(b: seq<Byte>)
    requires forall k :: 0 <= k < |b| && k < CheckWindow ==> b[k] <= 0x7F
    ensures Detect(b) == Utf8
  {
    var n := if |b| < CheckWindow then |b| else CheckWindow;
    ScanAsciiIff(b, 0, n, Start);
  }

  lemma {:induction false} ScanPrefix(b: seq<Byte>, c: seq<Byte>, i: nat, s: Scores)
    requires |c| == CheckWindow + 3 && |b| >= |c| && c == b[..|c|]
    ensures ScanFrom(b, i, CheckWindow, s) == ScanFrom(c, i, CheckWindow, s)
    decreases CheckWindow - i
  {
    if i < CheckWindow {
      assert Step(b, i, s) == Step(c, i, s);
      var (j, t) := Step(b, i, s);
      ScanPrefix(b, c, j, t);
    }
  }

  /** Only the first 5003 bytes can influence the answer: the window of 5000 lead positions,
      plus the two bytes a sequence may extend into and the byte the GBK test looks at. */
  lemma OnlyWindowMatters(b: seq<Byte>)
    requires |b| > CheckWindow + 3
    ensures Detect(b) == Detect(b[..CheckWindow + 3])
  {
    ScanPrefix(b, b[..CheckWindow + 3], 0, Start);
  }

  /** After the two-byte sequence C3 A9 the GBK test reads the space after it, not A9, so
      the pair 81 40 only brings GBK level with UTF-8, and the tie goes to UTF-8. Had the
      test read the byte after the lead, GBK would have scored 4 and won. */
  lemma GbkTestReadsPastSequence()
    ensures Scan([0xC3, 0xA9, 0x20, 0x81, 0x40]) == Scores(2, 2, false)
    ensures Detect([0xC3, 0xA9, 0x20, 0x81, 0x40]) == Utf8
  {
    var b: seq<Byte> := [0xC3, 0xA9, 0x20, 0x81, 0x40];
    assert Step(b, 0, Start) == (2, Scores(2, 0, false));
    assert Step(b, 2, Scores(2, 0, false)) == (3, Scores(2, 0, false));
    assert Step(b, 3, Scores(2, 0, false)) == (4, Scores(2, 2, false));
    assert Step(b, 4, Scores(2, 2, false)) == (5, Scores(2, 2, false));
  }
}
