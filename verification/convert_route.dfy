/** The server-side batch conversion endpoint `POST /api/convert` of
    `app/api/convert/route.ts`: it validates the requested output format
    and the uploaded files, copies same-format files, converts the others
    with up to three attempts separated by a pause, and answers with an
    archive of the successful results and a summary, or with an error.

    The form data arrives already parsed; the converter is an oracle
    indexed by the file's position among the valid files and the attempt
    number; a failed converter start-up is a parameter. */
module ConvertRoute {
  import opened Common
  import BatchMode

  /** `SUPPORTED_FORMATS`, in insertion order (used in the error message). */
  const SUPPORTED_FORMATS: seq<string> :=
    ["docx", "doc", "xlsx", "xls", "pptx", "ppt",
     "odt", "ods", "odp", "rtf", "txt", "csv", "html",
     "pdf", "png", "jpg", "jpeg", "svg"]

  /** `OUTPUT_FORMATS`, in insertion order. */
  const OUTPUT_FORMATS: seq<string> :=
    ["pdf", "docx", "odt", "rtf", "txt", "html",
     "xlsx", "ods", "csv",
     "pptx", "odp",
     "png", "svg"]

  /** `maxRetries`: attempts are numbered 0 to 2. */
  const MAX_RETRIES: nat := 2

  predicate IsSupportedFormat(name: string) {
    FileExtension(name) in SUPPORTED_FORMATS
  }

  /** The server accepts the browser's input extensions except `htm`. */
  lemma ServerFormatsAreBrowserFormatsWithoutHtm()
    ensures (set e | e in SUPPORTED_FORMATS) == BatchMode.SUPPORTED_INPUT_EXTENSIONS - {"htm"}
  {
  }

  /** `[...set].join(sep)` */
  function Join(xs: seq<string>, sep: string): string {
    if xs == [] then "" else if |xs| == 1 then xs[0] else xs[0] + sep + Join(xs[1..], sep)
  }

  // ------------------------------------------------------------ requests

  /** An entry of the `files` field: an uploaded file, or a plain text value
      (dropped by the `instanceof File` check). */
  datatype FormEntry = FileEntry(name: string, data: Bytes) | TextEntry(value: string)

  /** The parsed form: the `outputFormat` field (absent is `None`) and the
      `files` entries. */
  datatype Request = Request(outputFormat: Option<string>, files: seq<FormEntry>)

  /** A file that passed the checks: its name and bytes. */
  datatype Upload = Upload(name: string, data: Bytes)

  datatype Status = Converted | Copied | Failed

  datatype ConversionResult = ConversionResult(filename: string, originalName: string, data: Bytes,
                                               size: nat, status: Status, error: Option<string>)

  datatype Detail = Detail(file: string, error: Option<string>)

  datatype Summary = Summary(total: nat, converted: nat, copied: nat, failed: nat, skipped: nat,
                             failures: seq<Detail>)

  datatype ArchiveEntry = ArchiveEntry(name: string, data: Bytes)

  datatype Response =
    | JsonError(status: nat, error: string, details: seq<Detail>)
    | InternalError(message: string)
    | ZipResponse(entries: seq<ArchiveEntry>, summary: Summary)

  /** The file entries whose extension the server supports, in order. */
  function ValidFiles(files: seq<FormEntry>): (r: seq<Upload>)
    ensures |r| <= |files|
  {
    if files == [] then []
    else
      var f := files[|files| - 1];
      ValidFiles(files[..|files| - 1]) + (if f.FileEntry? && IsSupportedFormat(f.name) then [Upload(f.name, f.data)] else [])
  }

  /** The valid files are exactly the uploaded files with a supported
      extension. */
  lemma {:induction false} ValidFilesSpec(files: seq<FormEntry>)
    ensures forall u :: u in ValidFiles(files) ==> FileEntry(u.name, u.data) in files && IsSupportedFormat(u.name)
    ensures forall f :: f in files && f.FileEntry? && IsSupportedFormat(f.name) ==> Upload(f.name, f.data) in ValidFiles(files)
  {
    if files != [] {
      var init := files[..|files| - 1];
      ValidFilesSpec(init);
      assert files == init + [files[|files| - 1]];
    }
  }

  // ------------------------------------------------------------- retries

  /** What happens in the retry loop: a conversion attempt, or the 500 ms
      pause after a failed one. */
  datatype Step = Try(attempt: nat) | Wait

  datatype RetryRun = RetryRun(outcome: Result<Bytes>, trace: seq<Step>)

  /** The retry loop from attempt `a` on: stop at the first success, pause
      after every failure but the last permitted attempt. */
  function RetryFrom(convert: (nat, nat) -> Result<Bytes>, j: nat, a: nat): RetryRun
    requires a <= MAX_RETRIES
    decreases MAX_RETRIES - a
  {
    match convert(j, a)
    case Ok(data) => RetryRun(Ok(data), [Try(a)])
    case Err(m) =>
      if a == MAX_RETRIES then RetryRun(Err(m), [Try(a)])
      else
        var rest := RetryFrom(convert, j, a + 1);
        RetryRun(rest.outcome, [Try(a), Wait] + rest.trace)
  }

  /** The loop succeeds exactly when some attempt does, with the data of
      the first successful attempt, and otherwise ends with the error of the
      last attempt; attempts and pauses alternate, numbered from `a`,
      ending with an attempt, and the attempts made are the failed ones
      before the first success and that success. */
  lemma {:induction false} RetryFromSpec(convert: (nat, nat) -> Result<Bytes>, j: nat, a: nat)
    requires a <= MAX_RETRIES
    decreases MAX_RETRIES - a
    ensures var r := RetryFrom(convert, j, a);
      && (r.outcome.Ok? <==> exists b :: a <= b <= MAX_RETRIES && convert(j, b).Ok?)
      && (r.outcome.Ok? ==> var last := a + |r.trace| / 2;
            last <= MAX_RETRIES && r.outcome == convert(j, last)
            && forall b :: a <= b < last ==> convert(j, b).Err?)
      && (r.outcome.Err? ==>
            r.outcome == convert(j, MAX_RETRIES) && forall b :: a <= b <= MAX_RETRIES ==> convert(j, b).Err?)
      && |r.trace| % 2 == 1 && |r.trace| <= 2 * (MAX_RETRIES - a) + 1
      && (r.outcome.Err? ==> |r.trace| == 2 * (MAX_RETRIES - a) + 1)
      && forall k :: 0 <= k < |r.trace| ==> r.trace[k] == if k % 2 == 0 then Try(a + k / 2) else Wait
  {
    RetryOutcome(convert, j, a);
    RetryShape(convert, j, a);
  }

  lemma {:induction false} RetryOutcome(convert: (nat, nat) -> Result<Bytes>, j: nat, a: nat)
    requires a <= MAX_RETRIES
    decreases MAX_RETRIES - a
    ensures var r := RetryFrom(convert, j, a);
      && (r.outcome.Ok? <==> exists b :: a <= b <= MAX_RETRIES && convert(j, b).Ok?)
      && (r.outcome.Ok? ==> var last := a + |r.trace| / 2;
            last <= MAX_RETRIES && r.outcome == convert(j, last)
            && forall b :: a <= b < last ==> convert(j, b).Err?)
      && (r.outcome.Err? ==>
            r.outcome == convert(j, MAX_RETRIES) && forall b :: a <= b <= MAX_RETRIES ==> convert(j, b).Err?)
  {
    if convert(j, a).Err? && a < MAX_RETRIES {
      RetryOutcome(convert, j, a + 1);
      var rest := RetryFrom(convert, j, a + 1);
      assert RetryFrom(convert, j, a) == RetryRun(rest.outcome, [Try(a), Wait] + rest.trace);
      if rest.outcome.Ok? {
        var b :| a + 1 <= b <= MAX_RETRIES && convert(j, b).Ok?;
      }
    }
  }

  lemma {:induction false} RetryShape(convert: (nat, nat) -> Result<Bytes>, j: nat, a: nat)
    requires a <= MAX_RETRIES
    decreases MAX_RETRIES - a
    ensures var r := RetryFrom(convert, j, a);
      && |r.trace| % 2 == 1 && |r.trace| <= 2 * (MAX_RETRIES - a) + 1
      && (r.outcome.Err? ==> |r.trace| == 2 * (MAX_RETRIES - a) + 1)
      && forall k :: 0 <= k < |r.trace| ==> r.trace[k] == if k % 2 == 0 then Try(a + k / 2) else Wait
  {
    if convert(j, a).Err? && a < MAX_RETRIES {
      RetryShape(convert, j, a + 1);
      var rest := RetryFrom(convert, j, a + 1);
      var t := [Try(a), Wait] + rest.trace;
      assert RetryFrom(convert, j, a).trace == t;
      forall k | 0 <= k < |t| ensures t[k] == if k % 2 == 0 then Try(a + k / 2) else Wait {
        if k >= 2 {
          assert t[k] == rest.trace[k - 2];
        }
      }
    }
  }

  /** The message a failed file reports: `lastError?.message || 'Unknown error'`. */
  function ErrorText(message: string): string {
    if message == "" then "Unknown error" else message
  }

  /** The result for the j-th valid file: a same-format file is copied with
      its own bytes, any other is converted with retries; a conversion that
      never succeeds is a failure with no data. */
  function FileResult(name: string, data: Bytes, j: nat, outputFormat: string,
                      convert: (nat, nat) -> Result<Bytes>): ConversionResult
  {
    var outputName := ReplaceExtension(name, outputFormat);
    if FileExtension(name) == outputFormat then
      ConversionResult(outputName, name, data, |data|, Copied, None)
    else
      match RetryFrom(convert, j, 0).outcome
      case Ok(out) => ConversionResult(outputName, name, out, |out|, Converted, None)
      case Err(m) => ConversionResult(outputName, name, [], 0, Failed, Some(ErrorText(m)))
  }

  /** The retry `for` loop for the j-th valid file, with its attempts and
      pauses recorded in `trace`. */
  method ConvertWithRetry(name: string, j: nat, outputFormat: string, convert: (nat, nat) -> Result<Bytes>)
    returns (result: ConversionResult, trace: seq<Step>)
    requires FileExtension(name) != outputFormat
    ensures result == FileResult(name, [], j, outputFormat, convert)
    ensures trace == RetryFrom(convert, j, 0).trace
  {
    var outputName := ReplaceExtension(name, outputFormat);
    var lastError: Option<string> := None;
    var converted := false;
    var attempt := 0;
    var out: Bytes := [];
    trace := [];
    while attempt <= MAX_RETRIES && !converted
      invariant attempt <= MAX_RETRIES + 1
      invariant converted ==> RetryFrom(convert, j, 0) == RetryRun(Ok(out), trace)
      invariant !converted && attempt <= MAX_RETRIES ==> Pending(convert, j, attempt, trace)
      invariant !converted && attempt > MAX_RETRIES ==>
        lastError.Some? && RetryFrom(convert, j, 0) == RetryRun(Err(lastError.value), trace)
      decreases MAX_RETRIES + 1 - attempt
    {
      PendingStep(convert, j, attempt, trace);
      match convert(j, attempt) {
        case Ok(data) =>
          trace := trace + [Try(attempt)];
          out := data;
          converted := true;
        case Err(m) =>
          lastError := Some(m);
          if attempt < MAX_RETRIES {
            trace := trace + [Try(attempt), Wait];
          } else {
            trace := trace + [Try(attempt)];
          }
      }
      attempt := attempt + 1;
    }
    if converted {
      result := ConversionResult(outputName, name, out, |out|, Converted, None);
    } else {
      var message := if lastError.Some? then lastError.value else "";
      result := ConversionResult(outputName, name, [], 0, Failed, Some(ErrorText(message)));
    }
  }

  /** Before attempt `a`, with `trace` done: the whole loop is this trace
      followed by the loop from attempt `a` on. */
  ghost predicate Pending(convert: (nat, nat) -> Result<Bytes>, j: nat, a: nat, trace: seq<Step>)
    requires a <= MAX_RETRIES
  {
    var rest := RetryFrom(convert, j, a);
    RetryFrom(convert, j, 0) == RetryRun(rest.outcome, trace + rest.trace)
  }

  /** One attempt: a success ends the loop with its data, a failure of the
      last permitted attempt ends it with that error, and any other failure
      leaves the loop pending at the next attempt after a pause. */
  lemma PendingStep(convert: (nat, nat) -> Result<Bytes>, j: nat, a: nat, trace: seq<Step>)
    requires a <= MAX_RETRIES && Pending(convert, j, a, trace)
    ensures convert(j, a).Ok? ==> RetryFrom(convert, j, 0) == RetryRun(convert(j, a), trace + [Try(a)])
    ensures convert(j, a).Err? && a == MAX_RETRIES ==>
      RetryFrom(convert, j, 0) == RetryRun(convert(j, a), trace + [Try(a)])
    ensures convert(j, a).Err? && a < MAX_RETRIES ==> Pending(convert, j, a + 1, trace + [Try(a), Wait])
  {
    if convert(j, a).Err? && a < MAX_RETRIES {
      var rest := RetryFrom(convert, j, a + 1);
      assert trace + ([Try(a), Wait] + rest.trace) == trace + [Try(a), Wait] + rest.trace;
    }
  }

  // ------------------------------------------------------------ responses

  function Show(v: Option<string>): string {
    if v.Some? then v.value else "null"
  }

  function InvalidFormatMessage(outputFormat: Option<string>): string {
    "Invalid output format: " + Show(outputFormat) + ". Valid formats: " + Join(OUTPUT_FORMATS, ", ")
  }

  function NoSupportedMessage(): string {
    "No supported files found. Supported formats: " + Join(SUPPORTED_FORMATS, ", ")
  }

  function CountStatus(results: seq<ConversionResult>, s: Status): nat {
    if results == [] then 0
    else CountStatus(results[..|results| - 1], s) + (if results[|results| - 1].status == s then 1 else 0)
  }

  function Successful(results: seq<ConversionResult>): seq<ConversionResult> {
    if results == [] then []
    else Successful(results[..|results| - 1]) +
         (if results[|results| - 1].status != Failed then [results[|results| - 1]] else [])
  }

  function Failures(results: seq<ConversionResult>): seq<Detail> {
    if results == [] then []
    else
      var r := results[|results| - 1];
      Failures(results[..|results| - 1]) + (if r.status == Failed then [Detail(r.originalName, r.error)] else [])
  }

  function AllDetails(results: seq<ConversionResult>): (d: seq<Detail>)
    ensures |d| == |results|
  {
    seq(|results|, k requires 0 <= k < |results| => Detail(results[k].originalName, results[k].error))
  }

  function ArchiveOf(results: seq<ConversionResult>): (a: seq<ArchiveEntry>)
    ensures |a| == |results|
  {
    seq(|results|, k requires 0 <= k < |results| => ArchiveEntry(results[k].filename, results[k].data))
  }

  /** The response once the results are known. */
  function Answer(total: nat, valid: nat, results: seq<ConversionResult>): Response
    requires valid <= total
  {
    var ok := Successful(results);
    if ok == [] then JsonError(500, "All conversions failed", AllDetails(results))
    else ZipResponse(ArchiveOf(ok),
                     Summary(total, CountStatus(results, Converted), CountStatus(results, Copied),
                             CountStatus(results, Failed), total - valid, Failures(results)))
  }

  /** The results the loop has pushed after the valid files `valid`. */
  function Results(valid: seq<Upload>, outputFormat: string, convert: (nat, nat) -> Result<Bytes>): (r: seq<ConversionResult>)
    ensures |r| == |valid|
  {
    if valid == [] then []
    else
      var j := |valid| - 1;
      Results(valid[..j], outputFormat, convert) + [FileResult(valid[j].name, valid[j].data, j, outputFormat, convert)]
  }

  /** One result per valid file, in order: the j-th is that file's result
      as the j-th conversion. */
  lemma ResultsSpec(valid: seq<Upload>, outputFormat: string, convert: (nat, nat) -> Result<Bytes>)
    ensures var r := Results(valid, outputFormat, convert);
      forall j :: 0 <= j < |valid| ==> r[j] == FileResult(valid[j].name, valid[j].data, j, outputFormat, convert)
  {
    forall j | 0 <= j < |valid| {
      ResultAt(valid, j, outputFormat, convert);
    }
  }

  lemma {:induction false} ResultAt(valid: seq<Upload>, j: nat, outputFormat: string, convert: (nat, nat) -> Result<Bytes>)
    requires j < |valid|
    ensures Results(valid, outputFormat, convert)[j] == FileResult(valid[j].name, valid[j].data, j, outputFormat, convert)
  {
    var n := |valid| - 1;
    if j < n {
      var init := valid[..n];
      ResultAt(init, j, outputFormat, convert);
      ResultsPrefix(valid, j, outputFormat, convert);
      assert init[j] == valid[j];
    } else {
      ResultsLast(valid, outputFormat, convert);
    }
  }

  lemma ResultsLast(valid: seq<Upload>, outputFormat: string, convert: (nat, nat) -> Result<Bytes>)
    requires valid != []
    ensures var n := |valid| - 1;
      Results(valid, outputFormat, convert)[n] == FileResult(valid[n].name, valid[n].data, n, outputFormat, convert)
  {
  }

  lemma ResultsPrefix(valid: seq<Upload>, j: nat, outputFormat: string, convert: (nat, nat) -> Result<Bytes>)
    requires j < |valid| - 1
    ensures Results(valid, outputFormat, convert)[j] == Results(valid[..|valid| - 1], outputFormat, convert)[j]
  {
    var n := |valid| - 1;
    SnocIndex(Results(valid[..n], outputFormat, convert), FileResult(valid[n].name, valid[n].data, n, outputFormat, convert), j);
  }

  /** The whole handler: format check, file-count check, supported-file
      check, converter start-up, the per-file loop and the answer. */
  function Respond(req: Request, initError: Option<string>, convert: (nat, nat) -> Result<Bytes>): Response {
    if req.outputFormat.None? || req.outputFormat.value !in OUTPUT_FORMATS then
      JsonError(400, InvalidFormatMessage(req.outputFormat), [])
    else if req.files == [] then
      JsonError(400, "No files provided", [])
    else
      var valid := ValidFiles(req.files);
      if valid == [] then
        JsonError(400, NoSupportedMessage(), [])
      else if initError.Some? then
        InternalError(initError.value)
      else
        Answer(|req.files|, |valid|, Results(valid, req.outputFormat.value, convert))
  }

  /** `POST /api/convert`, with the per-file loop that pushes one result
      per valid file. */
  method Post(req: Request, initError: Option<string>, convert: (nat, nat) -> Result<Bytes>)
    returns (resp: Response)
    ensures resp == Respond(req, initError, convert)
  {
    if req.outputFormat.None? || req.outputFormat.value !in OUTPUT_FORMATS {
      return JsonError(400, InvalidFormatMessage(req.outputFormat), []);
    }
    var outputFormat := req.outputFormat.value;
    if |req.files| == 0 {
      return JsonError(400, "No files provided", []);
    }
    var validFiles := ValidFiles(req.files);
    if |validFiles| == 0 {
      return JsonError(400, NoSupportedMessage(), []);
    }
    if initError.Some? {
      return InternalError(initError.value);
    }
    var results := ProcessFiles(validFiles, outputFormat, convert);
    resp := Answer(|req.files|, |validFiles|, results);
  }

  /** The `for (const file of validFiles)` loop: one result per valid file,
      pushed in order. */
  method ProcessFiles(validFiles: seq<Upload>, outputFormat: string, convert: (nat, nat) -> Result<Bytes>)
    returns (results: seq<ConversionResult>)
    ensures results == Results(validFiles, outputFormat, convert)
  {
    results := [];
    for j := 0 to |validFiles|
      invariant results == Results(validFiles[..j], outputFormat, convert)
    {
      var result := ProcessFile(validFiles[j], j, outputFormat, convert);
      assert validFiles[..j + 1][..j] == validFiles[..j];
      results := results + [result];
    }
    assert validFiles[..|validFiles|] == validFiles;
  }

  /** One iteration of the loop: copy a file already in the target format,
      convert any other with retries. */
  method ProcessFile(file: Upload, j: nat, outputFormat: string, convert: (nat, nat) -> Result<Bytes>)
    returns (result: ConversionResult)
    ensures result == FileResult(file.name, file.data, j, outputFormat, convert)
  {
    if FileExtension(file.name) == outputFormat {
      result := ConversionResult(ReplaceExtension(file.name, outputFormat), file.name, file.data, |file.data|, Copied, None);
    } else {
      var trace;
      result, trace := ConvertWithRetry(file.name, j, outputFormat, convert);
    }
  }

  // ---------------------------------------------------------- properties

  /** The checks come in order: a missing or unknown format, then an empty
      file list, then no supported file, each a 400. */
  lemma ValidationOrder(req: Request, initError: Option<string>, convert: (nat, nat) -> Result<Bytes>)
    ensures var r := Respond(req, initError, convert);
      && (req.outputFormat.None? || req.outputFormat.value !in OUTPUT_FORMATS ==>
            r == JsonError(400, InvalidFormatMessage(req.outputFormat), []))
      && (req.outputFormat.Some? && req.outputFormat.value in OUTPUT_FORMATS && req.files == [] ==>
            r == JsonError(400, "No files provided", []))
      && (req.outputFormat.Some? && req.outputFormat.value in OUTPUT_FORMATS && req.files != []
          && (forall f :: f in req.files ==> !f.FileEntry? || !IsSupportedFormat(f.name)) ==>
            r == JsonError(400, NoSupportedMessage(), []))
  {
    var valid := ValidFiles(req.files);
    ValidFilesSpec(req.files);
    if valid != [] {
      assert valid[0] in valid;
    }
  }

  function CountFailed(rs: seq<ConversionResult>): nat {
    CountStatus(rs, Failed)
  }

  lemma {:induction false} StatusCountsAdd(rs: seq<ConversionResult>)
    ensures CountStatus(rs, Converted) + CountStatus(rs, Copied) + CountStatus(rs, Failed) == |rs|
    ensures |Successful(rs)| + CountStatus(rs, Failed) == |rs|
    ensures |Failures(rs)| == CountStatus(rs, Failed)
  {
    if rs != [] {
      StatusCountsAdd(rs[..|rs| - 1]);
    }
  }

  /** The successful results are the copied and converted ones, in order. */
  lemma {:induction false} SuccessfulSpec(rs: seq<ConversionResult>)
    ensures forall r :: r in Successful(rs) ==> r in rs && r.status != Failed
    ensures forall r :: r in rs && r.status != Failed ==> r in Successful(rs)
  {
    if rs != [] {
      var init := rs[..|rs| - 1];
      SuccessfulSpec(init);
      assert rs == init + [rs[|rs| - 1]];
    }
  }

  /** When the request gets as far as the converter, the answer is an
      archive of exactly the successful results with a summary whose
      counts cover every valid file once, whose `total` is the number of
      entries and whose `skipped` is the number of dropped entries; or,
      when every file failed, a 500 with one detail per file. */
  lemma AnswerFacts(req: Request, initError: Option<string>, convert: (nat, nat) -> Result<Bytes>)
    requires req.outputFormat.Some? && req.outputFormat.value in OUTPUT_FORMATS
    requires ValidFiles(req.files) != [] && initError.None?
    ensures var valid := ValidFiles(req.files);
      var results := Results(valid, req.outputFormat.value, convert);
      var r := Respond(req, initError, convert);
      && (CountStatus(results, Failed) == |valid| ==>
            r == JsonError(500, "All conversions failed", AllDetails(results)))
      && (CountStatus(results, Failed) < |valid| ==>
            && r.ZipResponse?
            && r.entries == ArchiveOf(Successful(results))
            && r.summary.converted + r.summary.copied + r.summary.failed == |valid|
            && r.summary.total == |req.files|
            && r.summary.skipped == |req.files| - |valid|
            && |r.summary.failures| == r.summary.failed)
  {
    var results := Results(ValidFiles(req.files), req.outputFormat.value, convert);
    StatusCountsAdd(results);
  }

  /** The `zip.file(result.filename, result.data)` calls of the answer. */
  function Calls(entries: seq<ArchiveEntry>): (c: seq<(string, Bytes)>)
    ensures |c| == |entries|
  {
    seq(|entries|, k requires 0 <= k < |entries| => (entries[k].name, entries[k].data))
  }

  /** The archive answered holds one file per file name among the
      successful results and no other. */
  lemma ArchiveNames(results: seq<ConversionResult>)
    ensures forall n :: n in ZipContents(Calls(ArchiveOf(Successful(results)))) <==>
      exists r :: r in results && r.status != Failed && r.filename == n
  {
    var ok := Successful(results);
    var calls := Calls(ArchiveOf(ok));
    CallsOf(ok);
    ZipContentsSpec(calls);
    SuccessfulSpec(results);
    forall n | n in ZipContents(calls) ensures exists r :: r in results && r.status != Failed && r.filename == n {
      var i :| 0 <= i < |calls| && calls[i].0 == n;
      assert ok[i] in ok;
    }
    forall n | exists r :: r in results && r.status != Failed && r.filename == n ensures n in ZipContents(calls) {
      var r :| r in results && r.status != Failed && r.filename == n;
      var i :| 0 <= i < |ok| && ok[i] == r;
      assert calls[i].0 == n;
    }
  }

  /** A result whose file name no later result reuses is in the archive
      with its bytes; when the names are distinct there is one file per
      result. */
  lemma ArchiveKeeps(ok: seq<ConversionResult>)
    ensures forall i :: 0 <= i < |ok| && (forall k :: i < k < |ok| ==> ok[k].filename != ok[i].filename) ==>
      ok[i].filename in ZipContents(Calls(ArchiveOf(ok))) && ZipContents(Calls(ArchiveOf(ok)))[ok[i].filename] == ok[i].data
    ensures (forall i, k :: 0 <= i < k < |ok| ==> ok[i].filename != ok[k].filename) ==>
      |ZipContents(Calls(ArchiveOf(ok)))| == |ok|
  {
    forall i | 0 <= i < |ok| && (forall k :: i < k < |ok| ==> ok[k].filename != ok[i].filename) {
      KeptAt(ok, i);
    }
    if forall i, k :: 0 <= i < k < |ok| ==> ok[i].filename != ok[k].filename {
      var calls := Calls(ArchiveOf(ok));
      CallsOf(ok);
      ZipContentsDistinct(calls);
    }
  }

  lemma KeptAt(ok: seq<ConversionResult>, i: nat)
    requires i < |ok| && forall k :: i < k < |ok| ==> ok[k].filename != ok[i].filename
    ensures ok[i].filename in ZipContents(Calls(ArchiveOf(ok)))
    ensures ZipContents(Calls(ArchiveOf(ok)))[ok[i].filename] == ok[i].data
  {
    var calls := Calls(ArchiveOf(ok));
    CallsOf(ok);
    assert LastWithName(calls, i);
    ZipContentsSpec(calls);
  }

  /** Each call names one result's file and carries its bytes. */
  lemma CallsOf(rs: seq<ConversionResult>)
    ensures |Calls(ArchiveOf(rs))| == |rs|
    ensures forall i :: 0 <= i < |rs| ==> Calls(ArchiveOf(rs))[i] == (rs[i].filename, rs[i].data)
  {
  }

  /** Two inputs that differ only in their extension, such as "a.doc" and
      "a.docx" converted to pdf, are given one output name, and the archive
      keeps only the later of the two. */
  lemma SameStemOneFile(stem: string, e1: string, e2: string, format: string, r1: ConversionResult, r2: ConversionResult)
    requires LowerExtension(e1) && LowerExtension(e2)
    requires r1.filename == ReplaceExtension(stem + "." + e1, format)
    requires r2.filename == ReplaceExtension(stem + "." + e2, format)
    requires r1.status != Failed && r2.status != Failed
    ensures ZipContents(Calls(ArchiveOf(Successful([r1, r2])))) == map[stem + "." + format := r2.data]
  {
    SwapExtension(stem, e1, format);
    SwapExtension(stem, e2, format);
    assert Successful([r1, r2]) == [r1, r2] by {
      assert [r1, r2][..1] == [r1];
      assert [r1][..0] == [];
      assert Successful([r1]) == Successful([]) + [r1];
    }
    CallsOf([r1, r2]);
    var name := stem + "." + format;
    assert Calls(ArchiveOf([r1, r2])) == [(name, r1.data), (name, r2.data)];
    ZipContentsCollision(name, r1.data, r2.data);
  }

  /** A same-format file is copied with its own bytes and size, and the
      converter is not consulted. */
  lemma CopiedFile(name: string, data: Bytes, j: nat, outputFormat: string,
                   convert1: (nat, nat) -> Result<Bytes>, convert2: (nat, nat) -> Result<Bytes>)
    requires FileExtension(name) == outputFormat
    ensures var r := FileResult(name, data, j, outputFormat, convert1);
      r.status == Copied && r.data == data && r.size == |data| && r.error.None?
      && r == FileResult(name, data, j, outputFormat, convert2)
  {
  }

  /** A converted file succeeds exactly when one of its three attempts
      does, carrying the first successful output; otherwise it fails with
      no data and the last attempt's message, or 'Unknown error' when that
      message is empty. */
  lemma ConvertedFile(name: string, data: Bytes, j: nat, outputFormat: string, convert: (nat, nat) -> Result<Bytes>)
    requires FileExtension(name) != outputFormat
    ensures var r := FileResult(name, data, j, outputFormat, convert);
      && r.filename == ReplaceExtension(name, outputFormat) && r.originalName == name
      && (r.status == Converted <==> exists a :: 0 <= a <= MAX_RETRIES && convert(j, a).Ok?)
      && (r.status == Converted ==> exists a :: 0 <= a <= MAX_RETRIES && convert(j, a) == Ok(r.data)
                                              && forall b :: 0 <= b < a ==> convert(j, b).Err?)
      && (r.status != Converted ==>
            r.status == Failed && r.data == [] && r.size == 0 && r.error == Some(ErrorText(convert(j, MAX_RETRIES).error)))
  {
    RetryFromSpec(convert, j, 0);
    var run := RetryFrom(convert, j, 0);
    if run.outcome.Ok? {
      var last := |run.trace| / 2;
      assert convert(j, last) == Ok(run.outcome.value);
    }
  }

  /** At most three attempts are made, a pause separates two attempts and
      never follows the last one; when every attempt fails, exactly three
      attempts and two pauses are made. */
  lemma RetryTrace(convert: (nat, nat) -> Result<Bytes>, j: nat)
    ensures var t := RetryFrom(convert, j, 0).trace;
      && 1 <= |t| <= 2 * MAX_RETRIES + 1
      && t[|t| - 1].Try?
      && (forall k :: 0 <= k < |t| ==> (t[k] == Wait <==> k % 2 == 1))
      && (RetryFrom(convert, j, 0).outcome.Err? <==> forall a :: 0 <= a <= MAX_RETRIES ==> convert(j, a).Err?)
      && (RetryFrom(convert, j, 0).outcome.Err? ==> t == [Try(0), Wait, Try(1), Wait, Try(2)])
  {
    RetryFromSpec(convert, j, 0);
    var t := RetryFrom(convert, j, 0).trace;
    if RetryFrom(convert, j, 0).outcome.Err? {
      assert t[0] == Try(0) && t[2] == Try(1) && t[4] == Try(2);
    }
  }
}
