/** The import pipeline of src/lib/textImport.ts around the text passes: validation of a
    file, the single-file import as a result value, the batch import loop with its progress
    counters, and the utilities over imported texts. Reading the file, decoding bytes and
    extracting the text of a Word document are inputs to the model. */
module TextImport {
  import opened Strings
  import Sorting
  import EncodingDetection
  import Preprocess
  import Cleaning

  type Byte = EncodingDetection.Byte

  /** `MAX_FILE_SIZE`: 10 MiB. */
  const MaxFileSize: nat := 10 * 1024 * 1024

  const ValidExtensions: seq<string> := [".txt", ".docx", ".md", ".log", ".csv", ".json", ".yml", ".yaml"]

  // ---------------------------------------------------------------------------------
  // Validation

  datatype Validation = Valid | Invalid(error: string)

  function SizeError(name: string): string {
    "文件 \"" + name + "\" 超过大小限制（最大 10MB）"
  }

  function TypeError(name: string): string {
    "文件 \"" + name + "\" 格式不支持，支持 .txt, .docx, .md, .log, .csv, .json 等文本格式"
  }

  /** `validateFileSize` */
  function ValidateFileSize(name: string, size: nat): (v: Validation)
    ensures v == Valid <==> size <= MaxFileSize
    ensures v != Valid ==> v == Invalid(SizeError(name))
  {
    if size > MaxFileSize then Invalid(SizeError(name)) else Valid
  }

  predicate HasValidExtension(name: string) {
    exists k :: 0 <= k < |ValidExtensions| && EndsWith(ToLower(name), ValidExtensions[k])
  }

  /** `validateFileType`: `validExtensions.some(ext => fileName.endsWith(ext))`. */
  function ValidateFileType(name: string): (v: Validation)
    ensures v == Valid <==> HasValidExtension(name)
    ensures v != Valid ==> v == Invalid(TypeError(name))
  {
    if AnyExtension(ToLower(name), 0) then Valid else Invalid(TypeError(name))
  }

  function AnyExtension(lowered: string, from: nat): (b: bool)
    requires from <= |ValidExtensions|
    ensures b <==> exists k :: from <= k < |ValidExtensions| && EndsWith(lowered, ValidExtensions[k])
    decreases |ValidExtensions| - from
  {
    if from == |ValidExtensions| then false
    else EndsWith(lowered, ValidExtensions[from]) || AnyExtension(lowered, from + 1)
  }

  /** Upper-case extensions are accepted: the name is lowered first. */
  lemma UpperCaseExtensionAccepted()
    ensures ValidateFileType("A.TXT") == Valid
  {
    assert ToLower("A.TXT") == "a.txt";
    assert EndsWith("a.txt", ValidExtensions[0]);
  }

  // ---------------------------------------------------------------------------------
  // Importing one file

  /** What was thrown inside the `try`: an `Error` with its message, or anything else. */
  datatype Thrown = ErrorThrown(message: string) | OtherThrown

  /** A step that may throw. */
  datatype Attempt<T> = Done(value: T) | Threw(thrown: Thrown)

  /** The file handed to the importer. Reading its bytes may fail. */
  datatype FileInput = FileInput(name: string, size: nat, contents: Attempt<seq<Byte>>)

  /** The library code the importer calls: the text decoder, which never throws (it is not
      fatal), and the Word-document text extractor, which may. */
  datatype Services = Services(decode: (seq<Byte>, string) -> string, extractDocx: seq<Byte> -> Attempt<string>)

  /** The identifier and the import time the clock and the random generator provide. */
  datatype Stamp = Stamp(id: string, importTime: int)

  datatype Metadata = Metadata(fileSize: nat, importTime: int, encoding: string, paragraphCount: nat, characterCount: nat)

  datatype ImportedText = ImportedText(id: string, fileName: string, content: string, paragraphs: seq<string>, metadata: Metadata)

  datatype ImportError = ImportError(fileName: string, error: string, details: Option<string>)

  datatype ImportResult = Imported(text: ImportedText) | Failed(failure: ImportError)

  /** The result together with the values reported through `onProgress`, in order. */
  datatype SingleRun = SingleRun(result: ImportResult, ticks: seq<nat>)

  function ThrownMessage(t: Thrown): string {
    match t
    case ErrorThrown(m) => m
    case OtherThrown => "未知错误"
  }

  function Caught(name: string, t: Thrown): ImportResult {
    var msg := ThrownMessage(t);
    Failed(ImportError(name, "导入失败: " + msg, Some(msg)))
  }

  predicate IsDocx(name: string) {
    EndsWith(ToLower(name), ".docx")
  }

  /** The decoded text and the encoding label, or what the extractor threw. */
  function ReadText(name: string, bytes: seq<Byte>, services: Services): Attempt<(string, string)> {
    if IsDocx(name) then
      match services.extractDocx(bytes)
      case Done(text) => Done((text, "DOCX"))
      case Threw(t) => Threw(t)
    else
      var encoding := EncodingDetection.Detect(bytes).Label();
      Done((services.decode(bytes, encoding), encoding))
  }

  /** The text stored for a decoded file: preprocessed, then cleaned. */
  function ImportContent(decoded: string): string {
    Cleaning.CleanContent(Preprocess.PreprocessText(decoded))
  }

  /** `importSingleFile(file, onProgress)` */
  function ImportSingleFile(file: FileInput, services: Services, stamp: Stamp): SingleRun {
    match ValidateFileSize(file.name, file.size)
    case Invalid(e) => SingleRun(Failed(ImportError(file.name, e, None)), [])
    case Valid =>
      match ValidateFileType(file.name)
      case Invalid(e) => SingleRun(Failed(ImportError(file.name, e, None)), [])
      case Valid =>
        match file.contents
        case Threw(t) => SingleRun(Caught(file.name, t), [10])
        case Done(bytes) =>
          match ReadText(file.name, bytes, services)
          case Threw(t) => SingleRun(Caught(file.name, t), [10, 30])
          case Done((decoded, encoding)) =>
            var content := ImportContent(decoded);
            var paragraphs := Cleaning.SplitIntoParagraphs(content);
            var metadata := Metadata(file.size, stamp.importTime, encoding, |paragraphs|, |content|);
            SingleRun(Imported(ImportedText(stamp.id, file.name, content, paragraphs, metadata)),
                      [10, 30, 60, 80, 95, 100])
  }

  /** The counts stored with an imported text agree with the text. */
  predicate Consistent(t: ImportedText) {
    t.metadata.paragraphCount == |t.paragraphs| && t.metadata.characterCount == |t.content|
  }

  /** The size is checked first, then the type; either failure reports its message without
      the file being read, and no progress is reported. */
  lemma ValidationComesFirst(file: FileInput, services: Services, stamp: Stamp)
    ensures file.size > MaxFileSize ==>
      ImportSingleFile(file, services, stamp) == SingleRun(Failed(ImportError(file.name, SizeError(file.name), None)), [])
    ensures file.size <= MaxFileSize && !HasValidExtension(file.name) ==>
      ImportSingleFile(file, services, stamp) == SingleRun(Failed(ImportError(file.name, TypeError(file.name), None)), [])
  {
  }

  /** A successful import stores the cleaned text, its paragraphs and matching counts, and
      reports 10, 30, 60, 80, 95 and 100 percent. */
  lemma ImportedTextShape(file: FileInput, services: Services, stamp: Stamp)
    requires ImportSingleFile(file, services, stamp).result.Imported?
    ensures var t := ImportSingleFile(file, services, stamp).result.text;
      Consistent(t) && t.fileName == file.name && t.metadata.fileSize == file.size
      && t.paragraphs == Cleaning.SplitIntoParagraphs(t.content)
      && t.metadata.fileSize <= MaxFileSize && HasValidExtension(file.name)
    ensures ImportSingleFile(file, services, stamp).ticks == [10, 30, 60, 80, 95, 100]
  {
  }

  /** A Word document is labelled `DOCX`... */
  lemma ImportedDocxEncoding(file: FileInput, services: Services, stamp: Stamp)
    requires ImportSingleFile(file, services, stamp).result.Imported?
    requires IsDocx(file.name)
    ensures ImportSingleFile(file, services, stamp).result.text.metadata.encoding == "DOCX"
  {
  }

  /** ...and any other file carries the label of the detected encoding. */
  lemma ImportedDetectedEncoding(file: FileInput, services: Services, stamp: Stamp)
    requires ImportSingleFile(file, services, stamp).result.Imported?
    requires !IsDocx(file.name)
    ensures ImportSingleFile(file, services, stamp).result.text.metadata.encoding
              == EncodingDetection.Detect(file.contents.value).Label()
  {
  }

  /** Whatever is thrown after validation becomes an error prefixed `导入失败: ` whose
      details are the message alone. */
  lemma FailureAfterValidation(file: FileInput, services: Services, stamp: Stamp)
    requires file.size <= MaxFileSize && HasValidExtension(file.name)
    requires ImportSingleFile(file, services, stamp).result.Failed?
    ensures var f := ImportSingleFile(file, services, stamp).result.failure;
      f.fileName == file.name && f.details.Some? && f.error == "导入失败: " + f.details.value
    ensures ImportSingleFile(file, services, stamp).ticks in [[10], [10, 30]]
  {
  }

  /** The paragraphs of an import never hold a blank line and hold every visible character
      of the stored text. */
  lemma ImportedParagraphs(file: FileInput, services: Services, stamp: Stamp)
    requires ImportSingleFile(file, services, stamp).result.Imported?
    ensures var t := ImportSingleFile(file, services, stamp).result.text;
      (forall k :: 0 <= k < |t.paragraphs| ==>
         t.paragraphs[k] != [] && IsTrimmed(t.paragraphs[k]) && Cleaning.NoBlankLine(t.paragraphs[k]))
      && Visible(Concat(t.paragraphs)) == Visible(t.content)
  {
    var t := ImportSingleFile(file, services, stamp).result.text;
    Cleaning.SplitIntoParagraphsShape(t.content);
  }

  // ---------------------------------------------------------------------------------
  // Importing a batch

  datatype Progress = Progress(total: nat, processed: nat, currentFile: string, success: nat, failed: nat)

  /** The runs of the first `n` files of a batch, in order. */
  function RunsUpTo(files: seq<FileInput>, services: Services, stamps: seq<Stamp>, n: nat): (runs: seq<SingleRun>)
    requires |stamps| == |files| && n <= |files|
    ensures |runs| == n
  {
    if n == 0 then []
    else RunsUpTo(files, services, stamps, n - 1) + [ImportSingleFile(files[n - 1], services, stamps[n - 1])]
  }

  /** The runs of a batch, one per file in order. */
  function ImportAll(files: seq<FileInput>, services: Services, stamps: seq<Stamp>): (runs: seq<SingleRun>)
    requires |stamps| == |files|
    ensures |runs| == |files|
  {
    RunsUpTo(files, services, stamps, |files|)
  }

  function Successes(runs: seq<SingleRun>): seq<ImportedText> {
    if runs == [] then []
    else
      var last := runs[|runs| - 1];
      Successes(runs[..|runs| - 1]) + (if last.result.Imported? then [last.result.text] else [])
  }

  function Failures(runs: seq<SingleRun>): seq<ImportError> {
    if runs == [] then []
    else
      var last := runs[|runs| - 1];
      Failures(runs[..|runs| - 1]) + (if last.result.Failed? then [last.result.failure] else [])
  }

  /** Each run lands in exactly one of the two lists. */
  lemma {:induction false} PartitionCounts(runs: seq<SingleRun>)
    ensures |Successes(runs)| + |Failures(runs)| == |runs|
  {
    if runs != [] {
      PartitionCounts(runs[..|runs| - 1]);
    }
  }

  predicate SnapshotOk(p: Progress, total: nat) {
    p.total == total && p.processed == p.success + p.failed && p.processed <= total
  }

  /** Every reported copy of the counters is coherent, and `processed` never goes back from
      one copy to the next. */
  predicate SnapshotsOk(snaps: seq<Progress>, total: nat) {
    (forall k :: 0 <= k < |snaps| ==> SnapshotOk(snaps[k], total))
    && (forall k :: 0 < k < |snaps| ==> snaps[k - 1].processed <= snaps[k].processed)
  }

  /** Read as a whole: each copy is coherent and `processed` never decreases. */
  lemma SnapshotsOkMeaning(snaps: seq<Progress>, total: nat)
    requires SnapshotsOk(snaps, total)
    ensures forall k :: 0 <= k < |snaps| ==> SnapshotOk(snaps[k], total)
    ensures forall k, l :: 0 <= k <= l < |snaps| ==> snaps[k].processed <= snaps[l].processed
  {
    forall k, l | 0 <= k <= l < |snaps|
      ensures snaps[k].processed <= snaps[l].processed
    {
      ProcessedGrows(snaps, total, k, l);
    }
  }

  lemma {:induction false} ProcessedGrows(snaps: seq<Progress>, total: nat, k: nat, l: nat)
    requires SnapshotsOk(snaps, total) && k <= l < |snaps|
    ensures snaps[k].processed <= snaps[l].processed
    decreases l - k
  {
    if k < l {
      ProcessedGrows(snaps, total, k, l - 1);
    }
  }

  lemma SnapshotsSnoc(snaps: seq<Progress>, p: Progress, total: nat)
    requires SnapshotsOk(snaps, total) && SnapshotOk(p, total)
    requires snaps != [] ==> snaps[|snaps| - 1].processed <= p.processed
    ensures SnapshotsOk(snaps + [p], total)
  {
    var s := snaps + [p];
    forall k | 0 <= k < |s| ensures SnapshotOk(s[k], total) {
      if k < |snaps| { assert s[k] == snaps[k]; }
    }
    forall k | 0 < k < |s| ensures s[k - 1].processed <= s[k].processed {
      assert s[k - 1] == snaps[k - 1];
      if k < |snaps| { assert s[k] == snaps[k]; }
    }
  }

  function Repeat(p: Progress, n: nat): (r: seq<Progress>)
    ensures |r| == n
  {
    if n == 0 then [] else Repeat(p, n - 1) + [p]
  }

  lemma {:induction false} RepeatOk(snaps: seq<Progress>, p: Progress, n: nat, total: nat)
    requires SnapshotsOk(snaps, total) && SnapshotOk(p, total)
    requires snaps != [] ==> snaps[|snaps| - 1].processed <= p.processed
    ensures SnapshotsOk(snaps + Repeat(p, n), total)
    ensures snaps + Repeat(p, n) != [] ==> (snaps + Repeat(p, n))[|snaps| + n - 1].processed <= p.processed
  {
    if n > 0 {
      var q := snaps + Repeat(p, n - 1);
      RepeatOk(snaps, p, n - 1, total);
      assert Repeat(p, n) == Repeat(p, n - 1) + [p];
      assert snaps + Repeat(p, n) == q + [p];
      SnapshotsSnoc(q, p, total);
      assert (q + [p])[|snaps| + n - 1] == p;
    } else {
      assert snaps + Repeat(p, n) == snaps;
    }
  }

  /** The copies reported while one file is imported: one when it starts, one for each of
      its own progress reports (the counters are unchanged then), one when it is done. */
  function FileSnapshots(before: Progress, ticks: nat, after: Progress): (r: seq<Progress>)
    ensures |r| == ticks + 2 && r[ticks + 1] == after
  {
    Repeat(before, ticks + 1) + [after]
  }

  lemma FileSnapshotsOk(snaps: seq<Progress>, before: Progress, ticks: nat, after: Progress, total: nat)
    requires SnapshotsOk(snaps, total)
    requires snaps != [] ==> snaps[|snaps| - 1].processed <= before.processed
    requires SnapshotOk(before, total) && SnapshotOk(after, total) && before.processed <= after.processed
    ensures SnapshotsOk(snaps + FileSnapshots(before, ticks, after), total)
  {
    var q := snaps + Repeat(before, ticks + 1);
    RepeatOk(snaps, before, ticks + 1, total);
    assert q[|q| - 1].processed <= after.processed;
    assert snaps + FileSnapshots(before, ticks, after) == q + [after];
    SnapshotsSnoc(q, after, total);
  }

  /** One more run adds its result to the list it belongs in. */
  lemma RunsSnoc(runs: seq<SingleRun>, run: SingleRun)
    ensures |Successes(runs)| + |Failures(runs)| == |runs|
    ensures Successes(runs + [run]) == Successes(runs) + (if run.result.Imported? then [run.result.text] else [])
    ensures Failures(runs + [run]) == Failures(runs) + (if run.result.Failed? then [run.result.failure] else [])
  {
    PartitionCounts(runs);
    assert (runs + [run])[..|runs|] == runs;
  }

  /** The bookkeeping of one turn of the loop of `importMultipleFiles`: the file `name` is
      announced, the outcome of its import is counted as a success or a failure, and the
      counters are reported. */
  method CountRun(name: string, run: SingleRun, i: nat,
                  success: seq<ImportedText>, failed: seq<ImportError>, progress: Progress, snapshots: seq<Progress>)
    returns (success': seq<ImportedText>, failed': seq<ImportError>, progress': Progress, snapshots': seq<Progress>)
    requires i < progress.total && i == |success| + |failed|
    requires progress == Progress(progress.total, i, progress.currentFile, |success|, |failed|)
    requires SnapshotsOk(snapshots, progress.total)
    requires snapshots != [] ==> snapshots[|snapshots| - 1] == progress
    ensures success' == success + (if run.result.Imported? then [run.result.text] else [])
    ensures failed' == failed + (if run.result.Failed? then [run.result.failure] else [])
    ensures progress' == Progress(progress.total, i + 1, name, |success'|, |failed'|)
    ensures SnapshotsOk(snapshots', progress.total)
    ensures |snapshots'| > 0 && snapshots'[|snapshots'| - 1] == progress'
  {
    progress' := progress.(currentFile := name);
    var before := progress';
    success', failed' := success, failed;
    if run.result.Imported? {
      success' := success' + [run.result.text];
      progress' := progress'.(success := progress'.success + 1);
    } else {
      failed' := failed' + [run.result.failure];
      progress' := progress'.(failed := progress'.failed + 1);
    }
    progress' := progress'.(processed := progress'.processed + 1);
    FileSnapshotsOk(snapshots, before, |run.ticks|, progress', progress.total);
    snapshots' := snapshots + FileSnapshots(before, |run.ticks|, progress');
  }

  /** `importMultipleFiles(files, onProgress)`: every file is imported in turn, whatever
      happened to the ones before it. */
  method ImportMultipleFiles(files: seq<FileInput>, services: Services, stamps: seq<Stamp>)
    returns (success: seq<ImportedText>, failed: seq<ImportError>, snapshots: seq<Progress>)
    requires |stamps| == |files|
    ensures success == Successes(ImportAll(files, services, stamps))
    ensures failed == Failures(ImportAll(files, services, stamps))
    ensures |success| + |failed| == |files|
    ensures SnapshotsOk(snapshots, |files|)
    ensures |files| > 0 ==>
      |snapshots| > 0 && snapshots[|snapshots| - 1] == Progress(|files|, |files|, files[|files| - 1].name, |success|, |failed|)
  {
    success, failed, snapshots := [], [], [];
    var progress := Progress(|files|, 0, "", 0, 0);
    ghost var runs := [];
    for i := 0 to |files|
      invariant runs == RunsUpTo(files, services, stamps, i)
      invariant success == Successes(runs) && failed == Failures(runs)
      invariant progress == Progress(|files|, i, progress.currentFile, |success|, |failed|)
      invariant SnapshotsOk(snapshots, |files|)
      invariant i == 0 ==> snapshots == []
      invariant i > 0 ==> |snapshots| > 0 && snapshots[|snapshots| - 1] == progress == Progress(|files|, i, files[i - 1].name, |success|, |failed|)
    {
      var run := ImportSingleFile(files[i], services, stamps[i]);
      RunsSnoc(runs, run);
      success, failed, progress, snapshots := CountRun(files[i].name, run, i, success, failed, progress, snapshots);
      runs := runs + [run];
    }
    PartitionCounts(ImportAll(files, services, stamps));
  }

  /** A failing file never keeps later files from being imported: the successes of a batch
      are those of its files taken one by one. */
  lemma SuccessesOfBatch(files: seq<FileInput>, services: Services, stamps: seq<Stamp>, k: nat)
    requires |stamps| == |files| && k < |files|
    requires ImportSingleFile(files[k], services, stamps[k]).result.Imported?
    ensures ImportSingleFile(files[k], services, stamps[k]).result.text in Successes(ImportAll(files, services, stamps))
  {
    RunsUpToAt(files, services, stamps, |files|, k);
    SuccessesContain(ImportAll(files, services, stamps), k);
  }

  /** The run at position `k` is the import of file `k`. */
  lemma {:induction false} RunsUpToAt(files: seq<FileInput>, services: Services, stamps: seq<Stamp>, n: nat, k: nat)
    requires |stamps| == |files| && k < n <= |files|
    ensures RunsUpTo(files, services, stamps, n)[k] == ImportSingleFile(files[k], services, stamps[k])
  {
    if k < n - 1 {
      RunsUpToAt(files, services, stamps, n - 1, k);
    }
  }

  lemma {:induction false} SuccessesContain(runs: seq<SingleRun>, k: nat)
    requires k < |runs| && runs[k].result.Imported?
    ensures runs[k].result.text in Successes(runs)
  {
    if k < |runs| - 1 {
      SuccessesContain(runs[..|runs| - 1], k);
    }
  }

  // ---------------------------------------------------------------------------------
  // Statistics

  /** The integer parts of `calculateImportStats`. */
  datatype ImportStats = ImportStats(totalFiles: nat, successFiles: nat, failedFiles: nat,
                                     totalSizeBytes: nat, totalCharacters: nat, totalParagraphs: nat)

  function SumSizes(ts: seq<ImportedText>): nat {
    if ts == [] then 0 else SumSizes(ts[..|ts| - 1]) + ts[|ts| - 1].metadata.fileSize
  }

  function SumCharacters(ts: seq<ImportedText>): nat {
    if ts == [] then 0 else SumCharacters(ts[..|ts| - 1]) + ts[|ts| - 1].metadata.characterCount
  }

  function SumParagraphs(ts: seq<ImportedText>): nat {
    if ts == [] then 0 else SumParagraphs(ts[..|ts| - 1]) + ts[|ts| - 1].metadata.paragraphCount
  }

  function CalculateImportStats(success: seq<ImportedText>, failed: seq<ImportError>): (s: ImportStats)
    ensures s.totalFiles == s.successFiles + s.failedFiles
    ensures s.successFiles == |success| && s.failedFiles == |failed|
  {
    ImportStats(|success| + |failed|, |success|, |failed|,
                SumSizes(success), SumCharacters(success), SumParagraphs(success))
  }

  function ContentLengths(ts: seq<ImportedText>): nat {
    if ts == [] then 0 else ContentLengths(ts[..|ts| - 1]) + |ts[|ts| - 1].content|
  }

  function ParagraphTotals(ts: seq<ImportedText>): nat {
    if ts == [] then 0 else ParagraphTotals(ts[..|ts| - 1]) + |ts[|ts| - 1].paragraphs|
  }

  /** For texts whose stored counts agree with them, the totals count the characters and the
      paragraphs actually held. */
  lemma {:induction false} StatsCountTexts(ts: seq<ImportedText>)
    requires forall k :: 0 <= k < |ts| ==> Consistent(ts[k])
    ensures SumCharacters(ts) == ContentLengths(ts)
    ensures SumParagraphs(ts) == ParagraphTotals(ts)
  {
    if ts != [] {
      StatsCountTexts(ts[..|ts| - 1]);
    }
  }

  predicate ImportsConsistent(runs: seq<SingleRun>) {
    forall k :: 0 <= k < |runs| && runs[k].result.Imported? ==> Consistent(runs[k].result.text)
  }

  lemma {:induction false} SuccessesConsistent(runs: seq<SingleRun>)
    requires ImportsConsistent(runs)
    ensures forall k :: 0 <= k < |Successes(runs)| ==> Consistent(Successes(runs)[k])
  {
    if runs != [] {
      var n := |runs| - 1;
      assert ImportsConsistent(runs[..n]) by {
        assert forall k :: 0 <= k < n ==> runs[..n][k] == runs[k];
      }
      SuccessesConsistent(runs[..n]);
    }
  }

  lemma BatchConsistent(files: seq<FileInput>, services: Services, stamps: seq<Stamp>)
    requires |stamps| == |files|
    ensures ImportsConsistent(ImportAll(files, services, stamps))
  {
    var runs := ImportAll(files, services, stamps);
    forall k | 0 <= k < |runs| && runs[k].result.Imported?
      ensures Consistent(runs[k].result.text)
    {
      RunsUpToAt(files, services, stamps, |files|, k);
      ImportedTextShape(files[k], services, stamps[k]);
    }
  }

  /** The statistics of a batch count every file once, and its character and paragraph
      totals are those of the imported texts. */
  lemma BatchStats(files: seq<FileInput>, services: Services, stamps: seq<Stamp>)
    requires |stamps| == |files|
    ensures var runs := ImportAll(files, services, stamps);
      var s := CalculateImportStats(Successes(runs), Failures(runs));
      s.totalFiles == |files|
      && s.totalCharacters == ContentLengths(Successes(runs))
      && s.totalParagraphs == ParagraphTotals(Successes(runs))
  {
    var runs := ImportAll(files, services, stamps);
    PartitionCounts(runs);
    BatchConsistent(files, services, stamps);
    SuccessesConsistent(runs);
    StatsCountTexts(Successes(runs));
  }

  // ---------------------------------------------------------------------------------
  // Utilities

  /** `previewText(text, maxLength)`: `substring` treats a negative length as 0. */
  function PreviewText(text: string, maxLength: int): (r: string)
    ensures |text| <= maxLength ==> r == text
    ensures |text| > maxLength ==>
      EndsWith(r, "...") && |r| == (if maxLength < 0 then 0 else maxLength) + 3
      && r[..|r| - 3] == text[..|r| - 3]
  {
    if |text| <= maxLength then text
    else text[..if maxLength < 0 then 0 else maxLength] + "..."
  }

  const DefaultPreviewLength := 500

  function Contents(texts: seq<ImportedText>): (r: seq<string>)
    ensures |r| == |texts| && forall k :: 0 <= k < |texts| ==> r[k] == texts[k].content
  {
    if texts == [] then [] else [texts[0].content] + Contents(texts[1..])
  }

  /** `mergeImportedTexts(texts, separator)` */
  function MergeImportedTexts(texts: seq<ImportedText>, separator: string): string {
    Join(Contents(texts), separator)
  }

  /** The merge holds every content and one separator between each two. */
  lemma MergeLength(texts: seq<ImportedText>, separator: string)
    requires texts != []
    ensures |MergeImportedTexts(texts, separator)| == TotalLength(Contents(texts)) + (|texts| - 1) * |separator|
  {
    JoinLength(Contents(texts), separator);
  }

  /** With a one-character separator no content holds, the merge splits back into the
      contents. */
  lemma MergeSplitsBack(texts: seq<ImportedText>, c: char)
    requires texts != []
    requires forall k :: 0 <= k < |texts| ==> c !in texts[k].content
    ensures Split(MergeImportedTexts(texts, [c]), c) == Contents(texts)
  {
    SplitJoin(Contents(texts), c);
  }

  predicate MatchesKeyword(t: ImportedText, lowerKeyword: string) {
    Contains(ToLower(t.content), lowerKeyword) || Contains(ToLower(t.fileName), lowerKeyword)
  }

  function FilterMatching(texts: seq<ImportedText>, lowerKeyword: string): seq<ImportedText> {
    if texts == [] then []
    else (if MatchesKeyword(texts[0], lowerKeyword) then [texts[0]] else [])
         + FilterMatching(texts[1..], lowerKeyword)
  }

  /** `filterTextsByKeyword(texts, keyword)` */
  function FilterTextsByKeyword(texts: seq<ImportedText>, keyword: string): seq<ImportedText> {
    FilterMatching(texts, ToLower(keyword))
  }

  /** A text is kept exactly when its content or its file name contains the keyword, case
      aside; the kept texts stay in their order. */
  lemma {:induction false} FilterKeepsMatches(texts: seq<ImportedText>, lowerKeyword: string)
    ensures forall t :: t in FilterMatching(texts, lowerKeyword) <==> t in texts && MatchesKeyword(t, lowerKeyword)
    ensures |FilterMatching(texts, lowerKeyword)| <= |texts|
  {
    if texts != [] {
      FilterKeepsMatches(texts[1..], lowerKeyword);
      assert texts == [texts[0]] + texts[1..];
    }
  }

  lemma {:induction false} FilterPreservesOrder(texts: seq<ImportedText>, lowerKeyword: string, i: nat, j: nat)
    requires i < j < |texts|
    requires MatchesKeyword(texts[i], lowerKeyword) && MatchesKeyword(texts[j], lowerKeyword)
    ensures exists a, b :: 0 <= a < b < |FilterMatching(texts, lowerKeyword)|
              && FilterMatching(texts, lowerKeyword)[a] == texts[i] && FilterMatching(texts, lowerKeyword)[b] == texts[j]
  {
    if i == 0 {
      FilterKeepsFirst(texts, lowerKeyword, j);
    } else {
      FilterPreservesOrder(texts[1..], lowerKeyword, i - 1, j - 1);
      var rest := FilterMatching(texts[1..], lowerKeyword);
      var a, b :| 0 <= a < b < |rest| && rest[a] == texts[i] && rest[b] == texts[j];
      FilterBehindHead(texts, lowerKeyword, a);
      FilterBehindHead(texts, lowerKeyword, b);
    }
  }

  /** A kept first text comes first, before any other kept text. */
  lemma FilterKeepsFirst(texts: seq<ImportedText>, lowerKeyword: string, j: nat)
    requires 0 < j < |texts|
    requires MatchesKeyword(texts[0], lowerKeyword) && MatchesKeyword(texts[j], lowerKeyword)
    ensures exists b :: 0 < b < |FilterMatching(texts, lowerKeyword)|
              && FilterMatching(texts, lowerKeyword)[0] == texts[0] && FilterMatching(texts, lowerKeyword)[b] == texts[j]
  {
    var rest := FilterMatching(texts[1..], lowerKeyword);
    var r := FilterMatching(texts, lowerKeyword);
    FilterKeepsMatches(texts[1..], lowerKeyword);
    assert texts[j] == texts[1..][j - 1];
    assert texts[j] in rest;
    var b :| 0 <= b < |rest| && rest[b] == texts[j];
    assert r == [texts[0]] + rest;
    assert r[b + 1] == texts[j];
  }

  /** The texts kept from the tail stand behind what is kept of the first text. */
  lemma FilterBehindHead(texts: seq<ImportedText>, lowerKeyword: string, a: nat)
    requires texts != [] && a < |FilterMatching(texts[1..], lowerKeyword)|
    ensures var k := |FilterMatching(texts, lowerKeyword)| - |FilterMatching(texts[1..], lowerKeyword)|;
      0 <= k && FilterMatching(texts, lowerKeyword)[k + a] == FilterMatching(texts[1..], lowerKeyword)[a]
  {
  }

  /** An empty keyword keeps every text. */
  lemma {:induction false} EmptyKeywordKeepsAll(texts: seq<ImportedText>)
    ensures FilterTextsByKeyword(texts, "") == texts
  {
    if texts != [] {
      EmptyKeywordKeepsAll(texts[1..]);
      assert StartsWith(ToLower(texts[0].content), "");
    }
  }

  /** Case is ignored beyond ASCII too: the keyword `ａ` finds a text holding `Ａ`. */
  lemma FullWidthCaseIgnored(t: ImportedText)
    requires t.content == "\U{FF21}"
    ensures FilterTextsByKeyword([t], "\U{FF41}") == [t]
  {
    assert ToLower("\U{FF41}") == "\U{FF41}";
    assert ToLower(t.content) == "\U{FF41}";
    assert StartsWith(ToLower(t.content), "\U{FF41}");
    assert FilterMatching([t][1..], "\U{FF41}") == [];
  }

  function ImportTime(t: ImportedText): int { t.metadata.importTime }
  function FileSize(t: ImportedText): int { t.metadata.fileSize }

  /** `sortTextsByDate(texts, ascending)` */
  function SortTextsByDate(texts: seq<ImportedText>, ascending: bool): seq<ImportedText> {
    Sorting.SortBy(texts, ImportTime, ascending)
  }

  /** `sortTextsBySize(texts, ascending)` */
  function SortTextsBySize(texts: seq<ImportedText>, ascending: bool): seq<ImportedText> {
    Sorting.SortBy(texts, FileSize, ascending)
  }

  /** Newest first by default (or oldest first), the same texts, and texts imported at the
      same time keep their order. */
  lemma SortTextsByDateOrders(texts: seq<ImportedText>, ascending: bool, time: int)
    ensures multiset(SortTextsByDate(texts, ascending)) == multiset(texts)
    ensures forall i, j :: 0 <= i < j < |SortTextsByDate(texts, ascending)| ==>
      var r := SortTextsByDate(texts, ascending);
      if ascending then ImportTime(r[i]) <= ImportTime(r[j]) else ImportTime(r[i]) >= ImportTime(r[j])
    ensures Sorting.WithKey(SortTextsByDate(texts, ascending), ImportTime, time) == Sorting.WithKey(texts, ImportTime, time)
  {
    Sorting.SortBySorted(texts, ImportTime, ascending);
    Sorting.SortByStable(texts, ImportTime, ascending, time);
  }

  /** Largest first by default (or smallest first), the same texts, and texts of equal size
      keep their order. */
  lemma SortTextsBySizeOrders(texts: seq<ImportedText>, ascending: bool, size: int)
    ensures multiset(SortTextsBySize(texts, ascending)) == multiset(texts)
    ensures forall i, j :: 0 <= i < j < |SortTextsBySize(texts, ascending)| ==>
      var r := SortTextsBySize(texts, ascending);
      if ascending then FileSize(r[i]) <= FileSize(r[j]) else FileSize(r[i]) >= FileSize(r[j])
    ensures Sorting.WithKey(SortTextsBySize(texts, ascending), FileSize, size) == Sorting.WithKey(texts, FileSize, size)
  {
    Sorting.SortBySorted(texts, FileSize, ascending);
    Sorting.SortByStable(texts, FileSize, ascending, size);
  }
}
