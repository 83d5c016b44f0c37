/** Batch mode of `app/components/ConverterApp.tsx`: a folder of files is
    classified (`initBatchMode`), the eligible files are converted or copied
    one by one with their results written to browser storage
    (`handleBatchConvert`), the successful results are handed to the archive
    packer, and `handleBatchCancel` resets everything. The component's state
    hooks become the fields of one controller object; the converter and the
    storage write are oracles indexed by the file's position in the list. */
module BatchMode {
  import opened Common
  import opened ZipBuilder

  const SUPPORTED_INPUT_EXTENSIONS: set<string> :=
    {"docx", "doc", "odt", "rtf", "txt", "html", "htm",
     "xlsx", "xls", "ods", "csv",
     "pptx", "ppt", "odp",
     "pdf", "png", "jpg", "jpeg", "svg"}

  predicate IsSupportedFormat(name: string) {
    FileExtension(name) in SUPPORTED_INPUT_EXTENSIONS
  }

  datatype Status = Ready | Converting | Done | Copied | Failed | Unsupported

  /** A picked file: its name and its bytes. */
  datatype InputFile = InputFile(name: string, data: Bytes)

  datatype BatchFile = BatchFile(id: string, file: InputFile, status: Status, error: Option<string>,
                                 storageKey: Option<string>, resultSize: Option<nat>,
                                 outputName: Option<string>)

  datatype BatchProgress = BatchProgress(current: nat, total: nat, converted: nat, copied: nat, failed: nat)

  // ------------------------------------------------------ initBatchMode

  /** `${Date.now()}-${index}` */
  function BatchId(now: nat, index: nat): string {
    Decimal(now) + "-" + Decimal(index)
  }

  /** `batch-${timestamp}-${id}` */
  function StorageKey(timestamp: nat, id: string): string {
    "batch-" + Decimal(timestamp) + "-" + id
  }

  /** Ids differ when their indices differ, whatever timestamps they
      carry: the text after the last `-` is the index. */
  lemma BatchIdsDistinct(now: nat, i: nat, now': nat, j: nat)
    requires i != j
    ensures BatchId(now, i) != BatchId(now', j)
  {
    IndexAfterLastDash(now, i);
    IndexAfterLastDash(now', j);
    DecimalRoundTrip(i);
    DecimalRoundTrip(j);
  }

  /** The index of an id is the text after its last `-`. */
  lemma IndexAfterLastDash(now: nat, i: nat)
    ensures var id := BatchId(now, i);
      var k := |Decimal(now)|;
      LastIndexOf(id, '-') == Some(k) && id[k + 1..] == Decimal(i)
  {
    var p := Decimal(now) + "-";
    DecimalDigits(now);
    DecimalDigits(i);
    assert '-' !in Decimal(i);
    LastIndexOfAppend(p, Decimal(i), '-');
    assert LastIndexOf(p, '-') == Some(|Decimal(now)|);
    assert BatchId(now, i) == p + Decimal(i);
    assert BatchId(now, i)[|p|..] == Decimal(i);
  }

  /** Storage keys of one run differ when the entry ids differ. */
  lemma StorageKeysDistinct(timestamp: nat, a: string, b: string)
    requires a != b
    ensures StorageKey(timestamp, a) != StorageKey(timestamp, b)
  {
    var p := "batch-" + Decimal(timestamp) + "-";
    assert StorageKey(timestamp, a)[|p|..] == a;
    assert StorageKey(timestamp, b)[|p|..] == b;
  }

  function InitialEntry(f: InputFile, now: nat, index: nat, outputFormat: string): BatchFile {
    BatchFile(BatchId(now, index), f, if IsSupportedFormat(f.name) then Ready else Unsupported,
              None, None, None, Some(ReplaceExtension(f.name, outputFormat)))
  }

  /** The `files.map(...)` of `initBatchMode`; `clock(i)` is the value
      `Date.now()` returns for the i-th file. */
  function InitialEntries(files: seq<InputFile>, clock: nat -> nat, outputFormat: string): (r: seq<BatchFile>)
    ensures |r| == |files|
  {
    seq(|files|, i requires 0 <= i < |files| => InitialEntry(files[i], clock(i), i, outputFormat))
  }

  predicate IdsDistinct(files: seq<BatchFile>) {
    forall i, j :: 0 <= i < j < |files| ==> files[i].id != files[j].id
  }

  lemma InitialIdsDistinct(files: seq<InputFile>, clock: nat -> nat, outputFormat: string)
    ensures IdsDistinct(InitialEntries(files, clock, outputFormat))
  {
    var r := InitialEntries(files, clock, outputFormat);
    forall i, j | 0 <= i < j < |r| ensures r[i].id != r[j].id {
      BatchIdsDistinct(clock(i), i, clock(j), j);
    }
  }

  /** Each entry is `unsupported` exactly when its extension is outside the
      browser's supported set, and `ready` otherwise; ids are distinct; no
      entry has a stored result yet. */
  lemma InitialEntriesFacts(files: seq<InputFile>, clock: nat -> nat, outputFormat: string)
    ensures var r := InitialEntries(files, clock, outputFormat);
      && IdsDistinct(r)
      && (forall i :: 0 <= i < |r| ==>
            && r[i].id == BatchId(clock(i), i) && r[i].file == files[i]
            && r[i].outputName == Some(ReplaceExtension(files[i].name, outputFormat))
            && (r[i].status == Unsupported <==> !IsSupportedFormat(files[i].name))
            && (r[i].status != Unsupported ==> r[i].status == Ready)
            && r[i].storageKey.None? && r[i].resultSize.None?)
  {
    InitialIdsDistinct(files, clock, outputFormat);
  }

  /** The format can change between `initBatchMode` and
      `handleBatchConvert`: a file whose extension is the format chosen at
      conversion time is copied with its own bytes, yet it goes to the
      packer under the output name made with the format chosen earlier. */
  lemma FormatChangedAfterInit(f: InputFile, now: nat, i: nat, initFormat: string, format: string, timestamp: nat,
                               convert: nat -> Result<Bytes>, storeError: nat -> Option<string>)
    requires IsSupportedFormat(f.name) && FileExtension(f.name) == format && storeError(i).None?
    requires ReplaceExtension(f.name, initFormat) != ""
    ensures var e := InitialEntry(f, now, i, initFormat);
      var o := EntryOutcome(e, i, format, convert, storeError);
      var p := Processed(e, StorageKey(timestamp, e.id), o);
      && o == Stored(true, f.data)
      && p.status == Copied && Zippable(p)
      && ZipEntry(p).outputName == ReplaceExtension(f.name, initFormat)
      && ZipEntry(p).size == |f.data|
  {
  }

  /** For instance, "a.docx" set up for pdf and converted with docx
      selected is copied, and archived as "a.pdf" holding the docx bytes. */
  lemma ArchivedUnderInitName(stem: string, ext: string, initFormat: string, data: Bytes, now: nat, timestamp: nat,
                              convert: nat -> Result<Bytes>, storeError: nat -> Option<string>)
    requires LowerExtension(ext) && ext in SUPPORTED_INPUT_EXTENSIONS && storeError(0).None?
    ensures var e := InitialEntry(InputFile(stem + "." + ext, data), now, 0, initFormat);
      var o := EntryOutcome(e, 0, ext, convert, storeError);
      var p := Processed(e, StorageKey(timestamp, e.id), o);
      p.status == Copied && ZipEntry(p).outputName == stem + "." + initFormat && o.data == data
  {
    SwapExtension(stem, ext, initFormat);
    assert |stem + "." + initFormat| > 0;
    FormatChangedAfterInit(InputFile(stem + "." + ext, data), now, 0, initFormat, ext, timestamp, convert, storeError);
  }

  /** Number of entries that are not `unsupported`. */
  function CountEligible(files: seq<BatchFile>): nat {
    if files == [] then 0
    else CountEligible(files[..|files| - 1]) + (if files[|files| - 1].status != Unsupported then 1 else 0)
  }

  /** `prev.map((f) => f.id === id ? upd(f) : f)` */
  function UpdateById(files: seq<BatchFile>, id: string, upd: BatchFile -> BatchFile): (r: seq<BatchFile>)
    ensures |r| == |files|
    ensures forall j :: 0 <= j < |r| ==> r[j] == if files[j].id == id then upd(files[j]) else files[j]
  {
    seq(|files|, j requires 0 <= j < |files| => if files[j].id == id then upd(files[j]) else files[j])
  }

  /** With distinct ids, an update by the id of entry i changes entry i
      only, and an update that keeps the id keeps the ids distinct. */
  lemma UpdateAt(files: seq<BatchFile>, i: nat, upd: BatchFile -> BatchFile)
    requires IdsDistinct(files) && i < |files|
    ensures UpdateById(files, files[i].id, upd) == files[i := upd(files[i])]
    ensures upd(files[i]).id == files[i].id ==> IdsDistinct(files[i := upd(files[i])])
  {
    var r := UpdateById(files, files[i].id, upd);
    forall j | 0 <= j < |files| ensures r[j] == files[i := upd(files[i])][j] {
      if j != i {
        assert files[j].id != files[i].id by {
          if j < i { assert files[j].id != files[i].id; } else { assert files[i].id != files[j].id; }
        }
      }
    }
  }

  // ------------------------------------------------- handleBatchConvert

  /** What happens to one entry in a run: not visited, converted or copied
      and stored, failed in the converter, or failed in the storage write
      after the conversion or copy succeeded. */
  datatype Outcome =
    | NotEligible
    | Stored(copy: bool, data: Bytes)
    | ConversionFailed(message: string)
    | StoreFailed(copy: bool, data: Bytes, message: string)

  /** The outcome for the entry at position `j`: a same-extension file is
      copied with its own bytes, any other file goes to the converter; the
      result is then written to storage. */
  function EntryOutcome(e: BatchFile, j: nat, outputFormat: string,
                        convert: nat -> Result<Bytes>, storeError: nat -> Option<string>): Outcome
  {
    if e.status == Unsupported then NotEligible
    else
      var copy := FileExtension(e.file.name) == outputFormat;
      var produced := if copy then Ok(e.file.data) else convert(j);
      match produced
      case Err(m) => ConversionFailed(m)
      case Ok(data) =>
        match storeError(j)
        case Some(m) => StoreFailed(copy, data, m)
        case None => Stored(copy, data)
  }

  /** The entry after its visit: `converting`, then `copied`/`done` with its
      storage key and result size, then `failed` with the error message if
      anything threw (the key and size set before a failed write remain). */
  function Processed(e: BatchFile, key: string, o: Outcome): BatchFile {
    match o
    case NotEligible => e
    case Stored(copy, data) =>
      e.(status := if copy then Copied else Done, storageKey := Some(key), resultSize := Some(|data|))
    case ConversionFailed(m) => e.(status := Failed, error := Some(m))
    case StoreFailed(copy, data, m) =>
      e.(status := Failed, storageKey := Some(key), resultSize := Some(|data|), error := Some(m))
  }

  datatype Counters = Counters(current: nat, converted: nat, copied: nat, failed: nat)

  function Count(c: Counters, o: Outcome): Counters {
    match o
    case NotEligible => c
    case Stored(copy, _) =>
      if copy then c.(current := c.current + 1, copied := c.copied + 1)
      else c.(current := c.current + 1, converted := c.converted + 1)
    case ConversionFailed(_) => c.(current := c.current + 1, failed := c.failed + 1)
    case StoreFailed(copy, _, _) =>
      if copy then c.(current := c.current + 1, copied := c.copied + 1, failed := c.failed + 1)
      else c.(current := c.current + 1, converted := c.converted + 1, failed := c.failed + 1)
  }

  /** The local counters after the first n entries of the list. */
  function Tally(files: seq<BatchFile>, n: nat, outputFormat: string,
                 convert: nat -> Result<Bytes>, storeError: nat -> Option<string>): Counters
    requires n <= |files|
  {
    if n == 0 then Counters(0, 0, 0, 0)
    else Count(Tally(files, n - 1, outputFormat, convert, storeError),
               EntryOutcome(files[n - 1], n - 1, outputFormat, convert, storeError))
  }

  /** Storage after one visit: only a successful write adds the result. */
  function Stash(store: map<string, Bytes>, key: string, o: Outcome): map<string, Bytes> {
    if o.Stored? then store[key := o.data] else store
  }

  /** Browser storage after the first n entries have been visited, starting
      from the cleared store. */
  function StoreAfter(files: seq<BatchFile>, n: nat, timestamp: nat, outputFormat: string,
                      convert: nat -> Result<Bytes>, storeError: nat -> Option<string>): map<string, Bytes>
    requires n <= |files|
  {
    if n == 0 then map[]
    else Stash(StoreAfter(files, n - 1, timestamp, outputFormat, convert, storeError),
               StorageKey(timestamp, files[n - 1].id),
               EntryOutcome(files[n - 1], n - 1, outputFormat, convert, storeError))
  }

  /** Entry j after its visit. */
  function ProcessedAt(files: seq<BatchFile>, j: nat, timestamp: nat, outputFormat: string,
                       convert: nat -> Result<Bytes>, storeError: nat -> Option<string>): BatchFile
    requires j < |files|
  {
    Processed(files[j], StorageKey(timestamp, files[j].id), EntryOutcome(files[j], j, outputFormat, convert, storeError))
  }

  /** The entries after the first n have been visited. */
  function ProcessPrefix(files: seq<BatchFile>, n: nat, timestamp: nat, outputFormat: string,
                         convert: nat -> Result<Bytes>, storeError: nat -> Option<string>): (r: seq<BatchFile>)
    ensures |r| == |files|
  {
    seq(|files|, j requires 0 <= j < |files| =>
      if j < n then ProcessedAt(files, j, timestamp, outputFormat, convert, storeError) else files[j])
  }

  /** The entries after a whole run. */
  function ProcessAll(files: seq<BatchFile>, timestamp: nat, outputFormat: string,
                      convert: nat -> Result<Bytes>, storeError: nat -> Option<string>): (r: seq<BatchFile>)
    ensures |r| == |files|
  {
    ProcessPrefix(files, |files|, timestamp, outputFormat, convert, storeError)
  }

  /** Visiting entry n of a list whose first n entries are done extends the
      processed prefix by one, with the ids still distinct. */
  lemma ProcessPrefixStep(files: seq<BatchFile>, n: nat, timestamp: nat, outputFormat: string,
                          convert: nat -> Result<Bytes>, storeError: nat -> Option<string>)
    requires n < |files|
    ensures var p := ProcessPrefix(files, n, timestamp, outputFormat, convert, storeError);
      && p[n] == files[n]
      && ProcessPrefix(files, n + 1, timestamp, outputFormat, convert, storeError)
         == p[n := ProcessedAt(files, n, timestamp, outputFormat, convert, storeError)]
  {
  }

  /** Visits keep every entry's id. */
  lemma ProcessPrefixIds(files: seq<BatchFile>, n: nat, timestamp: nat, outputFormat: string,
                         convert: nat -> Result<Bytes>, storeError: nat -> Option<string>)
    requires IdsDistinct(files)
    ensures IdsDistinct(ProcessPrefix(files, n, timestamp, outputFormat, convert, storeError))
  {
    var p := ProcessPrefix(files, n, timestamp, outputFormat, convert, storeError);
    forall a, b | 0 <= a < b < |p| ensures p[a].id != p[b].id {
      assert p[a].id == files[a].id && p[b].id == files[b].id;
    }
  }

  /** An entry goes to the packer when it has a storage key and ended
      `done` or `copied`. */
  predicate Zippable(f: BatchFile) {
    f.storageKey.Some? && (f.status == Done || f.status == Copied)
  }

  /** The packer input for an entry: named by its output name (the file
      name when that is missing or empty), sized by its result size. */
  function ZipEntry(f: BatchFile): FileToZip<string>
    requires f.storageKey.Some?
  {
    FileToZip(if f.outputName.Some? && f.outputName.value != "" then f.outputName.value else f.file.name,
              f.storageKey.value, if f.resultSize.Some? then f.resultSize.value else 0)
  }

  /** The `filter(...).map(...)` building the packer input, in list order. */
  function FilesToZip(files: seq<BatchFile>): seq<FileToZip<string>> {
    if files == [] then []
    else
      var f := files[|files| - 1];
      FilesToZip(files[..|files| - 1]) + (if Zippable(f) then [ZipEntry(f)] else [])
  }

  /** Storage writes that failed in the first n entries. */
  function StoreFailures(files: seq<BatchFile>, n: nat, outputFormat: string,
                         convert: nat -> Result<Bytes>, storeError: nat -> Option<string>): nat
    requires n <= |files|
  {
    if n == 0 then 0
    else StoreFailures(files, n - 1, outputFormat, convert, storeError) +
         (if EntryOutcome(files[n - 1], n - 1, outputFormat, convert, storeError).StoreFailed? then 1 else 0)
  }

  function CountStatus(files: seq<BatchFile>, s: Status): nat {
    if files == [] then 0
    else CountStatus(files[..|files| - 1], s) + (if files[|files| - 1].status == s then 1 else 0)
  }

  // ----------------------------------------------------- the controller

  /** The batch-mode state of the converter page. */
  class BatchController {
    var outputFormat: string
    var files: seq<BatchFile>
    var folderName: string
    var progress: BatchProgress
    var zipFiles: seq<ZipFile<string>>
    /** Converted results in browser storage, by storage key. */
    var store: map<string, Bytes>
    var isBatchMode: bool
    var isBatchConverting: bool

    /** Entry ids are distinct and `total` counts the eligible entries. */
    predicate Valid()
      reads this
    {
      IdsDistinct(files) && progress.total == CountEligible(files)
    }

    constructor(outputFormat: string)
      ensures Valid()
      ensures this.outputFormat == outputFormat && files == [] && folderName == ""
      ensures progress == BatchProgress(0, 0, 0, 0, 0) && zipFiles == [] && store == map[]
      ensures !isBatchMode && !isBatchConverting
    {
      this.outputFormat := outputFormat;
      files := [];
      folderName := "";
      progress := BatchProgress(0, 0, 0, 0, 0);
      zipFiles := [];
      store := map[];
      isBatchMode := false;
      isBatchConverting := false;
    }

    /** The format `<select>`'s `setOutputFormat`: only the chosen format
        changes, so entries made earlier keep the output names of the format
        chosen when they were made. */
    method SetOutputFormat(format: string)
      requires Valid()
      modifies this`outputFormat
      ensures Valid() && outputFormat == format
    {
      outputFormat := format;
    }

    /** `initBatchMode(files, folderName)`, with `clock(i)` the value of
        `Date.now()` for the i-th file. */
    method InitBatchMode(inputs: seq<InputFile>, folder: string, clock: nat -> nat)
      modifies this`files, this`folderName, this`progress, this`zipFiles, this`isBatchMode
      ensures Valid()
      ensures files == InitialEntries(inputs, clock, outputFormat)
      ensures progress == BatchProgress(0, CountEligible(files), 0, 0, 0)
      ensures folderName == folder && zipFiles == [] && isBatchMode
    {
      files := InitialEntries(inputs, clock, outputFormat);
      InitialIdsDistinct(inputs, clock, outputFormat);
      folderName := folder;
      progress := BatchProgress(0, CountEligible(files), 0, 0, 0);
      zipFiles := [];
      isBatchMode := true;
    }

    /** `handleBatchConvert` run to completion: storage is cleared, every
        eligible entry is visited once in list order with the counters
        published after each visit, and the successful results are packed
        into archives when there are any. `getConverter()` rejecting
        (`initError`) ends the call after storage is cleared, with nothing
        visited and the converting flag still set; `buildZipFiles`
        rejecting (`packRejected`) leaves the archives alone and the flag
        set, as neither rejection is caught. */
    method BatchConvert(initError: Option<string>, timestamp: nat, convert: nat -> Result<Bytes>,
                        storeError: nat -> Option<string>, packRejected: bool)
      requires Valid()
      modifies this`files, this`store, this`progress, this`zipFiles, this`isBatchConverting
      ensures Valid()
      ensures initError.Some? ==>
        && files == old(files) && store == map[] && progress == old(progress) && zipFiles == old(zipFiles)
        && isBatchConverting
      ensures initError.None? ==>
        && files == ProcessAll(old(files), timestamp, outputFormat, convert, storeError)
        && store == StoreAfter(old(files), |old(files)|, timestamp, outputFormat, convert, storeError)
        && (var c := Tally(old(files), |old(files)|, outputFormat, convert, storeError);
            progress == if c.current > 0 then BatchProgress(c.current, old(progress).total, c.converted, c.copied, c.failed)
                        else old(progress))
        && zipFiles == (if |FilesToZip(files)| > 0 && !packRejected then Pack(FilesToZip(files), store, folderName)
                        else old(zipFiles))
        && isBatchConverting == (|FilesToZip(files)| > 0 && packRejected)
    {
      isBatchConverting := true;
      store := map[];
      if initError.Some? {
        return;
      }
      ghost var batchFiles := files;
      VisitAll(timestamp, convert, storeError);
      ProcessPrefixIds(batchFiles, |batchFiles|, timestamp, outputFormat, convert, storeError);
      CountEligibleProcessed(batchFiles, timestamp, outputFormat, convert, storeError);
      var filesToZip := FilesToZip(files);
      if |filesToZip| > 0 {
        if packRejected {
          return;
        }
        zipFiles := BuildZipFiles(filesToZip, store, folderName);
      }
      isBatchConverting := false;
    }

    /** The loop of `handleBatchConvert` over the entries as they were when
        the run started, from an empty store. */
    method VisitAll(timestamp: nat, convert: nat -> Result<Bytes>, storeError: nat -> Option<string>)
      requires IdsDistinct(files) && store == map[]
      modifies this`files, this`store, this`progress
      ensures files == ProcessAll(old(files), timestamp, outputFormat, convert, storeError)
      ensures store == StoreAfter(old(files), |old(files)|, timestamp, outputFormat, convert, storeError)
      ensures var c := Tally(old(files), |old(files)|, outputFormat, convert, storeError);
        progress == if c.current > 0 then BatchProgress(c.current, old(progress).total, c.converted, c.copied, c.failed)
                    else old(progress)
    {
      var batchFiles := files;
      var c := Counters(0, 0, 0, 0);
      assert files == ProcessPrefix(batchFiles, 0, timestamp, outputFormat, convert, storeError);
      for i := 0 to |batchFiles|
        invariant files == ProcessPrefix(batchFiles, i, timestamp, outputFormat, convert, storeError)
        invariant store == StoreAfter(batchFiles, i, timestamp, outputFormat, convert, storeError)
        invariant c == Tally(batchFiles, i, outputFormat, convert, storeError)
        invariant c.current > 0 ==> progress == BatchProgress(c.current, old(progress).total, c.converted, c.copied, c.failed)
        invariant c.current == 0 ==> progress == old(progress)
      {
        c := VisitNext(batchFiles, i, timestamp, convert, storeError, c);
      }
    }

    /** One iteration of the loop: an unsupported entry is skipped, any
        other is visited and the counters are published. */
    method VisitNext(batchFiles: seq<BatchFile>, i: nat, timestamp: nat,
                     convert: nat -> Result<Bytes>, storeError: nat -> Option<string>, c: Counters)
      returns (c': Counters)
      requires i < |batchFiles| && IdsDistinct(batchFiles)
      requires files == ProcessPrefix(batchFiles, i, timestamp, outputFormat, convert, storeError)
      requires store == StoreAfter(batchFiles, i, timestamp, outputFormat, convert, storeError)
      requires c == Tally(batchFiles, i, outputFormat, convert, storeError)
      modifies this`files, this`store, this`progress
      ensures files == ProcessPrefix(batchFiles, i + 1, timestamp, outputFormat, convert, storeError)
      ensures store == StoreAfter(batchFiles, i + 1, timestamp, outputFormat, convert, storeError)
      ensures c' == Tally(batchFiles, i + 1, outputFormat, convert, storeError)
      ensures || (c' == c && progress == old(progress))
              || (c'.current > 0 && progress == old(progress).(current := c'.current, converted := c'.converted,
                                                                copied := c'.copied, failed := c'.failed))
    {
      ProcessPrefixStep(batchFiles, i, timestamp, outputFormat, convert, storeError);
      ProcessPrefixIds(batchFiles, i, timestamp, outputFormat, convert, storeError);
      var batchFile := batchFiles[i];
      if batchFile.status == Unsupported {
        return c;
      }
      c' := VisitEntry(i, batchFile, timestamp, convert, storeError, c);
      progress := progress.(current := c'.current, converted := c'.converted, copied := c'.copied, failed := c'.failed);
    }

    /** One pass of the loop of `handleBatchConvert` over an eligible entry:
        mark it `converting`, copy or convert it, record the result, write it
        to storage, and bump the counters; a thrown error marks it `failed`. */
    method VisitEntry(i: nat, batchFile: BatchFile, timestamp: nat,
                      convert: nat -> Result<Bytes>, storeError: nat -> Option<string>, c: Counters)
      returns (c': Counters)
      requires i < |files| && files[i] == batchFile && IdsDistinct(files)
      requires batchFile.status != Unsupported
      modifies this`files, this`store
      ensures var o := EntryOutcome(batchFile, i, outputFormat, convert, storeError);
        var key := StorageKey(timestamp, batchFile.id);
        && files == old(files)[i := Processed(batchFile, key, o)]
        && store == Stash(old(store), key, o)
        && c' == Count(c, o)
    {
      ghost var o := EntryOutcome(batchFile, i, outputFormat, convert, storeError);
      ghost var start := files;
      c' := c.(current := c.current + 1);
      var ext := FileExtension(batchFile.file.name);
      var storageKey := StorageKey(timestamp, batchFile.id);
      SetEntry(i, (f: BatchFile) => f.(status := Converting));
      var produced: Result<Bytes>;
      if ext == outputFormat {
        produced := Ok(batchFile.file.data);
      } else {
        produced := convert(i);
      }
      if produced.Ok? {
        var resultData := produced.value;
        if ext == outputFormat {
          c' := c'.(copied := c'.copied + 1);
        } else {
          c' := c'.(converted := c'.converted + 1);
        }
        var status := if ext == outputFormat then Copied else Done;
        SetEntry(i, (f: BatchFile) => f.(status := status, storageKey := Some(storageKey), resultSize := Some(|resultData|)));
        ghost var done := batchFile.(status := status, storageKey := Some(storageKey), resultSize := Some(|resultData|));
        assert files == start[i := done];
        var written := storeError(i);
        if written.None? {
          store := store[storageKey := resultData];
          assert o == Stored(ext == outputFormat, resultData);
          assert Processed(batchFile, storageKey, o) == done;
          assert store == Stash(old(store), storageKey, o);
        } else {
          c' := c'.(failed := c'.failed + 1);
          var message := written.value;
          SetEntry(i, (f: BatchFile) => f.(status := Failed, error := Some(message)));
          assert o == StoreFailed(ext == outputFormat, resultData, message);
          assert files == start[i := done.(status := Failed, error := Some(message))];
          assert Processed(batchFile, storageKey, o) == done.(status := Failed, error := Some(message));
          assert store == Stash(old(store), storageKey, o);
        }
      } else {
        c' := c'.(failed := c'.failed + 1);
        var message := produced.error;
        SetEntry(i, (f: BatchFile) => f.(status := Failed, error := Some(message)));
        assert o == ConversionFailed(message);
        assert files == start[i := batchFile.(status := Failed, error := Some(message))];
        assert Processed(batchFile, storageKey, o) == batchFile.(status := Failed, error := Some(message));
        assert store == Stash(old(store), storageKey, o);
      }
    }

    /** `setBatchFiles(prev => prev.map(f => f.id === id ? upd(f) : f))`
        for the id of entry i: that entry alone is updated. */
    method SetEntry(i: nat, upd: BatchFile -> BatchFile)
      requires i < |files| && IdsDistinct(files) && upd(files[i]).id == files[i].id
      modifies this`files
      ensures files == old(files)[i := upd(old(files)[i])] && IdsDistinct(files)
    {
      UpdateAt(files, i, upd);
      files := UpdateById(files, files[i].id, upd);
    }

    /** `handleBatchCancel`: storage cleared and batch mode left. */
    method BatchCancel()
      modifies this`files, this`store, this`progress, this`zipFiles, this`isBatchMode, this`isBatchConverting
      ensures Valid()
      ensures files == [] && progress == BatchProgress(0, 0, 0, 0, 0) && zipFiles == [] && store == map[]
      ensures !isBatchMode && !isBatchConverting
    {
      store := map[];
      files := [];
      progress := BatchProgress(0, 0, 0, 0, 0);
      zipFiles := [];
      isBatchMode := false;
      isBatchConverting := false;
    }
  }

  // ------------------------------------------------ facts about a run

  /** A run keeps which entries are eligible, so `total` still counts them. */
  lemma CountEligibleProcessed(files: seq<BatchFile>, timestamp: nat, outputFormat: string,
                               convert: nat -> Result<Bytes>, storeError: nat -> Option<string>)
    ensures CountEligible(ProcessAll(files, timestamp, outputFormat, convert, storeError)) == CountEligible(files)
  {
    var r := ProcessAll(files, timestamp, outputFormat, convert, storeError);
    SameEligibility(files, r);
  }

  lemma {:induction false} SameEligibility(a: seq<BatchFile>, b: seq<BatchFile>)
    requires |a| == |b|
    requires forall j :: 0 <= j < |a| ==> (a[j].status == Unsupported <==> b[j].status == Unsupported)
    ensures CountEligible(a) == CountEligible(b)
  {
    if a != [] {
      SameEligibility(a[..|a| - 1], b[..|b| - 1]);
    }
  }

  /** The counters after a whole run: `current` is the number of eligible
      entries. */
  lemma TallyOfIneligible(files: seq<BatchFile>, outputFormat: string,
                          convert: nat -> Result<Bytes>, storeError: nat -> Option<string>)
    ensures Tally(files, |files|, outputFormat, convert, storeError).current == CountEligible(files)
  {
    TallyCurrent(files, |files|, outputFormat, convert, storeError);
    assert files[..|files|] == files;
  }

  lemma {:induction false} TallyCurrent(files: seq<BatchFile>, n: nat, outputFormat: string,
                                        convert: nat -> Result<Bytes>, storeError: nat -> Option<string>)
    requires n <= |files|
    ensures Tally(files, n, outputFormat, convert, storeError).current == CountEligible(files[..n])
  {
    if n > 0 {
      TallyCurrent(files, n - 1, outputFormat, convert, storeError);
      var o := EntryOutcome(files[n - 1], n - 1, outputFormat, convert, storeError);
      CountCurrent(Tally(files, n - 1, outputFormat, convert, storeError), o);
      assert o.NotEligible? <==> files[n - 1].status == Unsupported;
      assert files[..n][..n - 1] == files[..n - 1];
      assert files[..n][n - 1] == files[n - 1];
    } else {
      assert files[..0] == [];
    }
  }

  lemma CountCurrent(c: Counters, o: Outcome)
    ensures Count(c, o).current == c.current + (if o.NotEligible? then 0 else 1)
  {
  }

  /** Every visited entry is counted once in `current`; `converted` plus
      `copied` plus `failed` exceeds it by the failed storage writes, which
      are counted both as a success and as a failure. */
  lemma {:induction false} TallyBalance(files: seq<BatchFile>, n: nat, outputFormat: string,
                                        convert: nat -> Result<Bytes>, storeError: nat -> Option<string>)
    requires n <= |files|
    ensures var c := Tally(files, n, outputFormat, convert, storeError);
      c.converted + c.copied + c.failed == c.current + StoreFailures(files, n, outputFormat, convert, storeError)
  {
    if n > 0 {
      TallyBalance(files, n - 1, outputFormat, convert, storeError);
    }
  }

  /** The published counters never decrease during a run. */
  lemma {:induction false} TallyMonotone(files: seq<BatchFile>, m: nat, n: nat, outputFormat: string,
                                         convert: nat -> Result<Bytes>, storeError: nat -> Option<string>)
    requires m <= n <= |files|
    ensures var a, b := Tally(files, m, outputFormat, convert, storeError), Tally(files, n, outputFormat, convert, storeError);
      a.current <= b.current && a.converted <= b.converted && a.copied <= b.copied && a.failed <= b.failed
  {
    if m < n {
      TallyMonotone(files, m, n - 1, outputFormat, convert, storeError);
      var c := Tally(files, n - 1, outputFormat, convert, storeError);
      var o := EntryOutcome(files[n - 1], n - 1, outputFormat, convert, storeError);
      assert Tally(files, n, outputFormat, convert, storeError) == Count(c, o);
      CountGrows(c, o);
    }
  }

  /** A visit never lowers a counter. */
  lemma CountGrows(c: Counters, o: Outcome)
    ensures var d := Count(c, o);
      c.current <= d.current && c.converted <= d.converted && c.copied <= d.copied && c.failed <= d.failed
  {
  }

  /** `current` never exceeds `total`, the number of eligible entries. */
  lemma ProgressWithinTotal(files: seq<BatchFile>, n: nat, outputFormat: string,
                            convert: nat -> Result<Bytes>, storeError: nat -> Option<string>)
    requires n <= |files|
    ensures Tally(files, n, outputFormat, convert, storeError).current <= CountEligible(files)
  {
    TallyMonotone(files, n, |files|, outputFormat, convert, storeError);
    TallyOfIneligible(files, outputFormat, convert, storeError);
  }

  /** Only unsupported entries are skipped. */
  lemma OutcomeEligibility(e: BatchFile, j: nat, outputFormat: string,
                           convert: nat -> Result<Bytes>, storeError: nat -> Option<string>)
    ensures EntryOutcome(e, j, outputFormat, convert, storeError).NotEligible? <==> e.status == Unsupported
  {
  }

  function Ind(b: bool): nat {
    if b then 1 else 0
  }

  /** One visit moves the status counts in step with the counters. */
  lemma VisitStatus(e: BatchFile, key: string, o: Outcome, c: Counters)
    requires o.NotEligible? <==> e.status == Unsupported
    ensures var s, d := Processed(e, key, o).status, Count(c, o);
      && Ind(s == Failed) + c.failed == d.failed
      && Ind(s == Done) + Ind(s == Copied) + d.failed + c.current == d.current + c.failed
      && Ind(s == Unsupported) + d.current == c.current + 1
  {
  }

  /** After a run the entries' statuses agree with the counters: `failed`
      entries number `failed`, `done` plus `copied` entries number
      `current - failed`, and the rest stay `unsupported`. */
  lemma {:induction false} RunStatusCounts(files: seq<BatchFile>, n: nat, timestamp: nat, outputFormat: string,
                                           convert: nat -> Result<Bytes>, storeError: nat -> Option<string>)
    requires n <= |files|
    ensures var r := ProcessAll(files, timestamp, outputFormat, convert, storeError)[..n];
      var c := Tally(files, n, outputFormat, convert, storeError);
      && CountStatus(r, Failed) == c.failed
      && CountStatus(r, Done) + CountStatus(r, Copied) + c.failed == c.current
      && CountStatus(r, Unsupported) + c.current == n
  {
    var all := ProcessAll(files, timestamp, outputFormat, convert, storeError);
    if n > 0 {
      RunStatusCounts(files, n - 1, timestamp, outputFormat, convert, storeError);
      var e := files[n - 1];
      var o := EntryOutcome(e, n - 1, outputFormat, convert, storeError);
      var pe := Processed(e, StorageKey(timestamp, e.id), o);
      var c0 := Tally(files, n - 1, outputFormat, convert, storeError);
      assert Tally(files, n, outputFormat, convert, storeError) == Count(c0, o);
      assert all[n - 1] == pe;
      var r := all[..n];
      assert r[..n - 1] == all[..n - 1];
      assert r[n - 1] == pe;
      CountStatusLast(r, Failed);
      CountStatusLast(r, Done);
      CountStatusLast(r, Copied);
      CountStatusLast(r, Unsupported);
      OutcomeEligibility(e, n - 1, outputFormat, convert, storeError);
      VisitStatus(e, StorageKey(timestamp, e.id), o, c0);
    } else {
      assert all[..0] == [];
    }
  }

  lemma CountStatusLast(r: seq<BatchFile>, s: Status)
    requires r != []
    ensures CountStatus(r, s) == CountStatus(r[..|r| - 1], s) + Ind(r[|r| - 1].status == s)
  {
  }

  /** After the first n visits, the key of every entry whose write
      succeeded holds that entry's result. */
  lemma {:induction false} StoreAfterLookup(files: seq<BatchFile>, n: nat, j: nat, timestamp: nat, outputFormat: string,
                                            convert: nat -> Result<Bytes>, storeError: nat -> Option<string>)
    requires IdsDistinct(files) && j < n <= |files|
    requires EntryOutcome(files[j], j, outputFormat, convert, storeError).Stored?
    ensures var s := StoreAfter(files, n, timestamp, outputFormat, convert, storeError);
      var k := StorageKey(timestamp, files[j].id);
      k in s && s[k] == EntryOutcome(files[j], j, outputFormat, convert, storeError).data
  {
    var k := StorageKey(timestamp, files[j].id);
    var s := StoreAfter(files, n - 1, timestamp, outputFormat, convert, storeError);
    var o := EntryOutcome(files[n - 1], n - 1, outputFormat, convert, storeError);
    assert StoreAfter(files, n, timestamp, outputFormat, convert, storeError) == Stash(s, StorageKey(timestamp, files[n - 1].id), o);
    if j == n - 1 {
      StashHit(s, k, o);
    } else {
      StoreAfterLookup(files, n - 1, j, timestamp, outputFormat, convert, storeError);
      assert k != StorageKey(timestamp, files[n - 1].id) by {
        assert files[j].id != files[n - 1].id;
        StorageKeysDistinct(timestamp, files[j].id, files[n - 1].id);
      }
      StashOther(s, StorageKey(timestamp, files[n - 1].id), o, k);
    }
  }

  /** A successful write stores the result under its key. */
  lemma StashHit(store: map<string, Bytes>, key: string, o: Outcome)
    requires o.Stored?
    ensures var t := Stash(store, key, o); key in t && t[key] == o.data
  {
  }

  /** A visit leaves the other keys of storage alone. */
  lemma StashOther(store: map<string, Bytes>, key: string, o: Outcome, k: string)
    requires k != key
    ensures var t := Stash(store, key, o); (k in t <==> k in store) && (k in store ==> t[k] == store[k])
  {
  }

  /** Storage holds nothing but the results of successful writes. */
  lemma {:induction false} StoreAfterKeys(files: seq<BatchFile>, n: nat, timestamp: nat, outputFormat: string,
                                          convert: nat -> Result<Bytes>, storeError: nat -> Option<string>)
    requires n <= |files|
    ensures forall k :: k in StoreAfter(files, n, timestamp, outputFormat, convert, storeError) ==>
      exists j :: 0 <= j < n && EntryOutcome(files[j], j, outputFormat, convert, storeError).Stored?
                  && k == StorageKey(timestamp, files[j].id)
  {
    if n > 0 {
      StoreAfterKeys(files, n - 1, timestamp, outputFormat, convert, storeError);
    }
  }

  /** A processed entry goes to the packer only after a successful write,
      under its storage key and with the length of its result. */
  lemma ZippableIsStored(e: BatchFile, key: string, o: Outcome)
    requires o.NotEligible? <==> e.status == Unsupported
    requires Zippable(Processed(e, key, o))
    ensures o.Stored?
    ensures ZipEntry(Processed(e, key, o)).storageKey == key
    ensures ZipEntry(Processed(e, key, o)).size == |o.data|
  {
  }

  /** Every packer input comes from an entry that is zippable. */
  lemma {:induction false} FilesToZipFrom(files: seq<BatchFile>, m: FileToZip<string>)
    requires m in FilesToZip(files)
    ensures exists j :: 0 <= j < |files| && Zippable(files[j]) && m == ZipEntry(files[j])
  {
    var init := files[..|files| - 1];
    var f := files[|files| - 1];
    if m in FilesToZip(init) {
      FilesToZipFrom(init, m);
      var j :| 0 <= j < |init| && Zippable(init[j]) && m == ZipEntry(init[j]);
      assert files[j] == init[j];
    } else {
      assert Zippable(f) && m == ZipEntry(f);
    }
  }

  /** Every zippable entry goes to the packer. */
  lemma {:induction false} FilesToZipHas(files: seq<BatchFile>, j: nat)
    requires j < |files| && Zippable(files[j])
    ensures ZipEntry(files[j]) in FilesToZip(files)
  {
    var init := files[..|files| - 1];
    if j < |init| {
      FilesToZipHas(init, j);
      assert files[j] == init[j];
    }
  }

  /** The packer input of a run names stored results only, each with the
      length of the bytes stored under its key: failed writes never reach
      an archive. */
  lemma RunZipInputsStored(files: seq<BatchFile>, timestamp: nat, outputFormat: string,
                           convert: nat -> Result<Bytes>, storeError: nat -> Option<string>)
    requires IdsDistinct(files)
    ensures var z := FilesToZip(ProcessAll(files, timestamp, outputFormat, convert, storeError));
      var s := StoreAfter(files, |files|, timestamp, outputFormat, convert, storeError);
      forall m :: m in z ==> m.storageKey in s && |s[m.storageKey]| == m.size
  {
    var r := ProcessAll(files, timestamp, outputFormat, convert, storeError);
    var s := StoreAfter(files, |files|, timestamp, outputFormat, convert, storeError);
    forall m | m in FilesToZip(r) ensures m.storageKey in s && |s[m.storageKey]| == m.size {
      FilesToZipFrom(r, m);
      var j :| 0 <= j < |r| && Zippable(r[j]) && m == ZipEntry(r[j]);
      var e := files[j];
      var o := EntryOutcome(e, j, outputFormat, convert, storeError);
      assert r[j] == Processed(e, StorageKey(timestamp, e.id), o);
      OutcomeEligibility(e, j, outputFormat, convert, storeError);
      ZippableIsStored(e, StorageKey(timestamp, e.id), o);
      StoreAfterLookup(files, |files|, j, timestamp, outputFormat, convert, storeError);
    }
  }

  /** The archives built after a run hold only what was stored and, of the
      packer's input, exactly its non-empty members, each once and in list
      order. */
  lemma RunArchivesHoldResults(files: seq<BatchFile>, timestamp: nat, outputFormat: string, base: string,
                               convert: nat -> Result<Bytes>, storeError: nat -> Option<string>)
    requires IdsDistinct(files)
    ensures var z := FilesToZip(ProcessAll(files, timestamp, outputFormat, convert, storeError));
      var s := StoreAfter(files, |files|, timestamp, outputFormat, convert, storeError);
      && Positive(Flatten(Pack(z, s, base))) == Positive(z)
      && multiset(Flatten(Pack(z, s, base))) <= multiset(z)
  {
    var r := ProcessAll(files, timestamp, outputFormat, convert, storeError);
    var z := FilesToZip(r);
    var s := StoreAfter(files, |files|, timestamp, outputFormat, convert, storeError);
    RunZipInputsStored(files, timestamp, outputFormat, convert, storeError);
    WithDataAllStored(z, s);
    PackMembers(z, s, base);
  }

  /** Every entry whose non-empty result was stored is in one of the
      archives built after the run. */
  lemma RunArchivesHoldStored(files: seq<BatchFile>, timestamp: nat, outputFormat: string, base: string,
                              convert: nat -> Result<Bytes>, storeError: nat -> Option<string>)
    requires IdsDistinct(files)
    ensures var r := ProcessAll(files, timestamp, outputFormat, convert, storeError);
      var s := StoreAfter(files, |files|, timestamp, outputFormat, convert, storeError);
      forall j :: 0 <= j < |files| ==>
        var o := EntryOutcome(files[j], j, outputFormat, convert, storeError);
        o.Stored? && |o.data| > 0 ==> ZipEntry(r[j]) in Flatten(Pack(FilesToZip(r), s, base))
  {
    forall j | 0 <= j < |files| && EntryOutcome(files[j], j, outputFormat, convert, storeError).Stored?
                                && |EntryOutcome(files[j], j, outputFormat, convert, storeError).data| > 0
    {
      StoredEntryArchived(files, j, timestamp, outputFormat, base, convert, storeError);
    }
  }

  lemma StoredEntryArchived(files: seq<BatchFile>, j: nat, timestamp: nat, outputFormat: string, base: string,
                            convert: nat -> Result<Bytes>, storeError: nat -> Option<string>)
    requires IdsDistinct(files) && j < |files|
    requires EntryOutcome(files[j], j, outputFormat, convert, storeError).Stored?
    requires |EntryOutcome(files[j], j, outputFormat, convert, storeError).data| > 0
    ensures var r := ProcessAll(files, timestamp, outputFormat, convert, storeError);
      ZipEntry(r[j]) in Flatten(Pack(FilesToZip(r), StoreAfter(files, |files|, timestamp, outputFormat, convert, storeError), base))
  {
    var r := ProcessAll(files, timestamp, outputFormat, convert, storeError);
    var z := FilesToZip(r);
    var s := StoreAfter(files, |files|, timestamp, outputFormat, convert, storeError);
    RunArchivesHoldResults(files, timestamp, outputFormat, base, convert, storeError);
    StoredReachesPacker(files, j, timestamp, outputFormat, convert, storeError);
    PositiveKept(z, Flatten(Pack(z, s, base)), ZipEntry(r[j]));
  }

  /** An entry whose result was stored goes to the packer with the length
      of that result. */
  lemma StoredReachesPacker(files: seq<BatchFile>, j: nat, timestamp: nat, outputFormat: string,
                            convert: nat -> Result<Bytes>, storeError: nat -> Option<string>)
    requires j < |files| && EntryOutcome(files[j], j, outputFormat, convert, storeError).Stored?
    ensures var r := ProcessAll(files, timestamp, outputFormat, convert, storeError);
      && Zippable(r[j]) && ZipEntry(r[j]) in FilesToZip(r)
      && ZipEntry(r[j]).size == |EntryOutcome(files[j], j, outputFormat, convert, storeError).data|
  {
    var r := ProcessAll(files, timestamp, outputFormat, convert, storeError);
    assert r[j] == ProcessedAt(files, j, timestamp, outputFormat, convert, storeError);
    FilesToZipHas(r, j);
  }
}
