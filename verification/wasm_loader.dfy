/** The Node loader of the LibreOffice WebAssembly module,
    `public/wasm/loader.cjs`: gzip detection, the `.gz` path fallback, the
    patched `fs.readFile`, the monotonic progress reporter, `createModule`
    up to the hand-over to the Emscripten runtime, the binary cache, and
    the file-size report.

    The file system is a map from paths to contents (a missing key is a
    missing file), `gunzip` is an oracle that may throw, and the loading of
    the Emscripten module is reduced to whether it throws. Progress
    messages are not modelled, only phases and percentages. */
module WasmLoader {
  import opened Common

  // ---------------------------------------------------------------- gzip

  /** `isGzipped`: at least two bytes, starting with the gzip magic
      `0x1f 0x8b`. */
  predicate IsGzipped(data: Bytes) {
    |data| >= 2 && data[0] == 0x1f && data[1] == 0x8b
  }

  /** `decompressIfGzipped`: gzipped data goes through `gunzipSync` (which
      may throw), anything else is returned as it is. */
  function DecompressIfGzipped(data: Bytes, gunzip: Bytes -> Result<Bytes>): (r: Result<Bytes>)
    ensures !IsGzipped(data) ==> r == Ok(data)
    ensures IsGzipped(data) ==> r == gunzip(data)
  {
    if IsGzipped(data) then gunzip(data) else Ok(data)
  }

  /** Gzip detection is exactly the two-byte magic prefix. */
  lemma IsGzippedMagic(data: Bytes)
    ensures IsGzipped(data) <==> |data| >= 2 && data[..2] == [0x1f, 0x8b]
  {
    if |data| >= 2 && data[..2] == [0x1f, 0x8b] {
      assert data[0] == data[..2][0] && data[1] == data[..2][1];
    }
  }

  // ------------------------------------------------------------ paths

  /** A file system: the contents of every existing file by path. */
  type FileSystem = map<string, Bytes>

  function EndsWith(s: string, suffix: string): bool {
    |suffix| <= |s| && s[|s| - |suffix|..] == suffix
  }

  /** The `.gz` fallback of `fs.readFile` and of the XHR polyfill: a path
      that does not exist and is not itself a `.gz` path is replaced by its
      `.gz` sibling when that one exists. */
  function ResolveGz(fs: FileSystem, path: string): (r: string)
    ensures r == path || r == path + ".gz"
  {
    if path !in fs && !EndsWith(path, ".gz") && path + ".gz" in fs then path + ".gz" else path
  }

  /** The path changes exactly when all three conditions hold, and the
      path used is one that exists whenever either of the two does. */
  lemma ResolveGzSpec(fs: FileSystem, path: string)
    ensures ResolveGz(fs, path) != path <==> path !in fs && !EndsWith(path, ".gz") && path + ".gz" in fs
    ensures (path in fs || path + ".gz" in fs) && !EndsWith(path, ".gz") ==> ResolveGz(fs, path) in fs
  {
    assert |path + ".gz"| != |path|;
  }

  /** A data-file name, for which `fs.readFile` reports progress. */
  predicate IsDataFile(filename: string) {
    filename == "soffice.data" || filename == "soffice.data.gz"
  }

  // ------------------------------------------------------------- sizes

  datatype FileSizes = FileSizes(wasm: nat, data: nat, compressed: bool) {
    /** The `total` getter. */
    function Total(): nat {
      wasm + data
    }
  }

  /** `statSync(file).size` of an existing file, else 0. */
  function SizeOf(fs: FileSystem, path: string): nat {
    if path in fs then |fs[path]| else 0
  }

  /** `getFileSizes`: the sizes of the compressed files where they exist
      and of the plain ones otherwise. */
  function GetFileSizes(fs: FileSystem, wasmDir: string): (r: FileSizes)
    ensures var wasmGz := JoinPath(wasmDir, "soffice.wasm.gz");
      var dataGz := JoinPath(wasmDir, "soffice.data.gz");
      && r.wasm == (if wasmGz in fs then |fs[wasmGz]| else SizeOf(fs, JoinPath(wasmDir, "soffice.wasm")))
      && r.data == (if dataGz in fs then |fs[dataGz]| else SizeOf(fs, JoinPath(wasmDir, "soffice.data")))
      && (r.compressed <==> wasmGz in fs || dataGz in fs)
  {
    var wasmGz := JoinPath(wasmDir, "soffice.wasm.gz");
    var dataGz := JoinPath(wasmDir, "soffice.data.gz");
    var wasmFile := if wasmGz in fs then wasmGz else JoinPath(wasmDir, "soffice.wasm");
    var dataFile := if dataGz in fs then dataGz else JoinPath(wasmDir, "soffice.data");
    FileSizes(SizeOf(fs, wasmFile), SizeOf(fs, dataFile), wasmGz in fs || dataGz in fs)
  }

  /** The total is the sum of the two reported sizes, and it is zero only
      when neither file has content. */
  lemma TotalSizes(fs: FileSystem, wasmDir: string)
    ensures var s := GetFileSizes(fs, wasmDir);
      s.Total() == s.wasm + s.data && (s.Total() == 0 <==> s.wasm == 0 && s.data == 0)
  {
  }

  // ------------------------------------------------------------ the loader

  /** A call of the registered progress callback. */
  datatype ProgressEvent = ProgressEvent(phase: string, percent: int)

  /** Every percentage in the list is at most the next one. */
  predicate Monotone(events: seq<ProgressEvent>) {
    forall i, j :: 0 <= i < j < |events| ==> events[i].percent <= events[j].percent
  }

  /** The module-level state of the loader: whether a progress callback
      is registered, the last reported percentage, the calls made to the
      callback since the last `createModule`, and the two caches. */
  class Loader {
    const wasmDir: string
    var hasCallback: bool
    var lastProgress: int
    var reported: seq<ProgressEvent>
    var cachedBinary: Option<Bytes>
    /** The compiled module, as the binary it was compiled from. */
    var cachedModule: Option<Bytes>

    /** What holds between calls: the reported percentages never go down,
        and none exceeds the stored progress. */
    predicate Valid()
      reads this
    {
      Monotone(reported) && forall e :: e in reported ==> e.percent <= lastProgress
    }

    constructor(dir: string)
      ensures Valid()
      ensures wasmDir == dir && !hasCallback && lastProgress == 0 && reported == []
      ensures cachedBinary == None && cachedModule == None
    {
      wasmDir := dir;
      hasCallback := false;
      lastProgress := 0;
      reported := [];
      cachedBinary := None;
      cachedModule := None;
    }

    /** `emitProgress`: with a callback, report the larger of the request
        and the stored progress and store it; without one, change
        nothing. */
    method EmitProgress(phase: string, percent: int)
      requires Valid()
      modifies this`lastProgress, this`reported
      ensures Valid()
      ensures !hasCallback ==> lastProgress == old(lastProgress) && reported == old(reported)
      ensures hasCallback ==>
        var p := if old(lastProgress) > percent then old(lastProgress) else percent;
        lastProgress == p && reported == old(reported) + [ProgressEvent(phase, p)]
    {
      if hasCallback {
        var adjusted := if lastProgress > percent then lastProgress else percent;
        lastProgress := adjusted;
        reported := reported + [ProgressEvent(phase, adjusted)];
      }
    }

    /** The callback has received, on top of `before`, the run of
        requests `reqs` clamped from stored progress `last`. */
    ghost predicate Tracks(last: int, before: seq<ProgressEvent>, reqs: seq<ProgressEvent>)
      reads this
    {
      hasCallback ==> reported == before + Clamped(last, reqs) && lastProgress == LastAfter(last, reqs)
    }

    /** `isCached` */
    predicate IsCached()
      reads this
    {
      cachedBinary.Some?
    }

    /** `clearCache`: drop the binary and the compiled module. */
    method ClearCache()
      modifies this`cachedBinary, this`cachedModule
      ensures !IsCached() && cachedModule == None
    {
      cachedBinary := None;
      cachedModule := None;
    }

    /** Read and decompress the binary, the `.gz` file when it exists; a
        missing file or a failed decompression is thrown. */
    method ReadWasmBinary(fs: FileSystem, gunzip: Bytes -> Result<Bytes>) returns (r: Result<Bytes>)
      ensures r == LoadedBinary(fs, wasmDir, gunzip)
    {
      var wasmGzPath := JoinPath(wasmDir, "soffice.wasm.gz");
      var wasmPath := JoinPath(wasmDir, "soffice.wasm");
      if wasmGzPath in fs {
        r := DecompressIfGzipped(fs[wasmGzPath], gunzip);
      } else if wasmPath in fs {
        r := DecompressIfGzipped(fs[wasmPath], gunzip);
      } else {
        r := Err(NoSuchFile(wasmPath));
      }
    }

    /** `preloadWasmBinary`: a cached binary is returned without reading
        anything; otherwise the binary is read, cached and returned. */
    method PreloadWasmBinary(fs: FileSystem, gunzip: Bytes -> Result<Bytes>) returns (r: Result<Bytes>)
      modifies this`cachedBinary
      ensures old(cachedBinary).Some? ==> r == Ok(old(cachedBinary).value) && cachedBinary == old(cachedBinary)
      ensures old(cachedBinary).None? ==> r == LoadedBinary(fs, wasmDir, gunzip)
      ensures old(cachedBinary).None? ==> cachedBinary == (if r.Ok? then Some(r.value) else None)
    {
      if cachedBinary.Some? {
        return Ok(cachedBinary.value);
      }
      r := ReadWasmBinary(fs, gunzip);
      if r.Ok? {
        cachedBinary := Some(r.value);
      }
    }

    /** `precompileWasm`: a compiled module is returned as it is; otherwise
        the binary is preloaded and compiled, and the module cached;
        `compileError` is what `WebAssembly.compile` rejects with, if
        anything. */
    method PrecompileWasm(fs: FileSystem, gunzip: Bytes -> Result<Bytes>, compileError: Option<string>)
      returns (r: Result<Bytes>)
      modifies this`cachedBinary, this`cachedModule
      ensures old(cachedModule).Some? ==>
        r == Ok(old(cachedModule).value) && cachedModule == old(cachedModule) && cachedBinary == old(cachedBinary)
      ensures old(cachedModule).None? ==>
        var binary := if old(cachedBinary).Some? then Ok(old(cachedBinary).value) else LoadedBinary(fs, wasmDir, gunzip);
        && (binary.Ok? ==> cachedBinary == Some(binary.value))
        && (binary.Err? ==> r == binary && cachedBinary == old(cachedBinary) && cachedModule == None)
        && (binary.Ok? && compileError.Some? ==> r == Err(compileError.value) && cachedModule == None)
        && (binary.Ok? && compileError.None? ==> r == binary && cachedModule == Some(binary.value))
    {
      if cachedModule.Some? {
        return Ok(cachedModule.value);
      }
      var binary := PreloadWasmBinary(fs, gunzip);
      if binary.Err? {
        return binary;
      }
      if compileError.Some? {
        return Err(compileError.value);
      }
      cachedModule := Some(binary.value);
      r := binary;
    }

    /** The patched `fs.readFile`: progress for the data file, the `.gz`
        fallback, decompression only in binary mode (no options), and the
        result or error handed to the callback. */
    method ReadFile(path: string, hasOptions: bool, fs: FileSystem, gunzip: Bytes -> Result<Bytes>)
      returns (r: Result<Bytes>)
      requires Valid()
      modifies this`lastProgress, this`reported
      ensures Valid()
      ensures r == ReadResult(fs, path, hasOptions, gunzip)
      ensures !hasCallback ==> lastProgress == old(lastProgress) && reported == old(reported)
      ensures hasCallback ==> reported == old(reported) + Clamped(old(lastProgress), ReadFileRequests(fs, path, hasOptions, gunzip))
    {
      var filename := Basename(path);
      ghost var reqs: seq<ProgressEvent> := [];
      if IsDataFile(filename) {
        reqs := Request("loading_data", 20, old(lastProgress), old(reported), reqs);
      }
      var actualPath := ResolveGz(fs, path);
      if actualPath !in fs {
        r := Err(NoSuchFile(actualPath));
      } else {
        var data := fs[actualPath];
        var failed := false;
        if !hasOptions && IsGzipped(data) {
          reqs := Request("loading_data", 25, old(lastProgress), old(reported), reqs);
          var unpacked := DecompressIfGzipped(data, gunzip);
          if unpacked.Err? {
            r := Err(unpacked.error);
            failed := true;
          } else {
            data := unpacked.value;
          }
        }
        if !failed {
          if IsDataFile(filename) {
            reqs := Request("loading_data", 35, old(lastProgress), old(reported), reqs);
          }
          r := Ok(data);
        }
      }
      assert reqs == ReadFileRequests(fs, path, hasOptions, gunzip);
    }

    /** One more request of a run tracked by `Tracks`. */
    method Request(phase: string, percent: int, ghost last: int, ghost before: seq<ProgressEvent>,
                   ghost reqs: seq<ProgressEvent>) returns (ghost reqs': seq<ProgressEvent>)
      requires Valid() && Tracks(last, before, reqs)
      modifies this`lastProgress, this`reported
      ensures Valid() && Tracks(last, before, reqs')
      ensures reqs' == reqs + [ProgressEvent(phase, percent)]
      ensures !hasCallback ==> lastProgress == old(lastProgress) && reported == old(reported)
    {
      EmitProgress(phase, percent);
      ClampedSnoc(last, reqs, ProgressEvent(phase, percent));
      reqs' := reqs + [ProgressEvent(phase, percent)];
    }

    /** `createModule` up to the hand-over to the Emscripten runtime: reset
        the progress and register the callback, pick the binary (given,
        cached, or read and cached), then load the runtime; `runtimeReqs`
        are the progress requests the runtime makes through the loader's
        patched `fs.readFile` and XHR while it loads, and `runtimeError` is
        what loading the runtime throws, if anything. On success the
        runtime reports itself ready and the callback is dropped; when the
        runtime throws, the callback is dropped too; when reading the
        binary throws, the callback stays registered. */
    method CreateModule(onProgress: bool, wasmBinary: Option<Bytes>, fs: FileSystem,
                        gunzip: Bytes -> Result<Bytes>, runtimeReqs: seq<ProgressEvent>, runtimeError: Option<string>)
      returns (r: Result<Bytes>)
      modifies this`hasCallback, this`lastProgress, this`reported, this`cachedBinary
      ensures Valid()
      ensures var loaded := SelectedBinary(wasmBinary, old(cachedBinary), fs, wasmDir, gunzip);
        && (loaded.Err? ==> r == loaded && hasCallback == onProgress)
        && (loaded.Ok? && runtimeError.Some? ==> r == Err(runtimeError.value) && !hasCallback)
        && (loaded.Ok? && runtimeError.None? ==> r == loaded && !hasCallback)
        && cachedBinary == (if old(cachedBinary).None? && wasmBinary.None? && loaded.Ok? then Some(loaded.value) else old(cachedBinary))
        && reported == if onProgress then StartEvents(wasmBinary.Some?, old(cachedBinary).Some?,
                                                      JoinPath(wasmDir, "soffice.wasm.gz") in fs, loaded.Ok?, runtimeError.None?,
                                                      runtimeReqs)
                       else []
    {
      lastProgress := 0;
      hasCallback := onProgress;
      reported := [];
      EmitProgress("starting", 0);
      assert reported == if onProgress then [ProgressEvent("starting", 0)] else [];
      var loaded := SelectBinary(wasmBinary, fs, gunzip);
      r := StartRuntime(loaded, runtimeReqs, runtimeError);
    }

    /** The end of `createModule` once the binary step is over: a failed
        read throws with the callback still set; otherwise compilation is
        reported, then the runtime's own requests while it loads, then a
        runtime error throws, or the runtime is reported ready; either way
        the callback is cleared. */
    method StartRuntime(loaded: Result<Bytes>, runtimeReqs: seq<ProgressEvent>, runtimeError: Option<string>)
      returns (r: Result<Bytes>)
      requires Valid() && lastProgress <= 12
      modifies this`hasCallback, this`lastProgress, this`reported
      ensures Valid()
      ensures loaded.Err? ==> r == loaded && hasCallback == old(hasCallback)
      ensures loaded.Ok? && runtimeError.Some? ==> r == Err(runtimeError.value) && !hasCallback
      ensures loaded.Ok? && runtimeError.None? ==> r == loaded && !hasCallback
      ensures reported == if old(hasCallback) then RuntimeTrace(old(reported), loaded.Ok?, runtimeError.None?, runtimeReqs)
                          else old(reported)
    {
      if loaded.Err? {
        return loaded;
      }
      EmitProgress("compiling", 14);
      ghost var compiled := reported;
      ghost var done: seq<ProgressEvent> := [];
      var k := 0;
      while k < |runtimeReqs|
        invariant k <= |runtimeReqs| && done == runtimeReqs[..k]
        invariant Valid() && Tracks(14, compiled, done)
        invariant hasCallback == old(hasCallback)
        invariant !hasCallback ==> reported == old(reported) && lastProgress <= 12
      {
        done := Request(runtimeReqs[k].phase, runtimeReqs[k].percent, 14, compiled, done);
        assert runtimeReqs[..k + 1] == runtimeReqs[..k] + [runtimeReqs[k]];
        k := k + 1;
      }
      assert done == runtimeReqs;
      if runtimeError.Some? {
        hasCallback := false;
        return Err(runtimeError.value);
      }
      EmitProgress("runtime_ready", 45);
      hasCallback := false;
      r := loaded;
    }

    /** The binary step of `createModule`, from the start report on: the
        configured binary, else the cached one, else the one read from
        disk, which is then cached. */
    method SelectBinary(wasmBinary: Option<Bytes>, fs: FileSystem, gunzip: Bytes -> Result<Bytes>)
      returns (loaded: Result<Bytes>)
      requires Valid() && lastProgress == 0
      modifies this`lastProgress, this`reported, this`cachedBinary
      ensures Valid() && lastProgress <= 12
      ensures reported == if hasCallback then BinaryTrace(old(reported), wasmBinary.Some?, old(cachedBinary).Some?,
                                                          JoinPath(wasmDir, "soffice.wasm.gz") in fs, loaded.Ok?)
                          else old(reported)
      ensures loaded == SelectedBinary(wasmBinary, old(cachedBinary), fs, wasmDir, gunzip)
      ensures cachedBinary == (if wasmBinary.None? && old(cachedBinary).None? && loaded.Ok?
                               then Some(loaded.value) else old(cachedBinary))
    {
      if wasmBinary.Some? {
        loaded := Ok(wasmBinary.value);
      } else if cachedBinary.Some? {
        EmitProgress("loading_wasm", 12);
        loaded := Ok(cachedBinary.value);
      } else {
        EmitProgress("loading_wasm", 2);
        if JoinPath(wasmDir, "soffice.wasm.gz") in fs {
          EmitProgress("loading_wasm", 5);
        }
        loaded := ReadWasmBinary(fs, gunzip);
        if loaded.Ok? {
          cachedBinary := Some(loaded.value);
          EmitProgress("loading_wasm", 12);
        }
      }
    }
  }

  /** The error a read of a missing file throws. */
  function NoSuchFile(path: string): string {
    "ENOENT: no such file or directory, open '" + path + "'"
  }

  /** The binary `createModule` hands to the runtime: the configured one,
      else the cached one, else the one read from disk. */
  function SelectedBinary(wasmBinary: Option<Bytes>, cached: Option<Bytes>, fs: FileSystem, wasmDir: string,
                          gunzip: Bytes -> Result<Bytes>): Result<Bytes> {
    if wasmBinary.Some? then Ok(wasmBinary.value)
    else if cached.Some? then Ok(cached.value)
    else LoadedBinary(fs, wasmDir, gunzip)
  }

  /** The binary `createModule` and `preloadWasmBinary` read: the
      decompressed `.gz` file when it exists, else the plain file. */
  function LoadedBinary(fs: FileSystem, wasmDir: string, gunzip: Bytes -> Result<Bytes>): Result<Bytes> {
    var wasmGzPath := JoinPath(wasmDir, "soffice.wasm.gz");
    var wasmPath := JoinPath(wasmDir, "soffice.wasm");
    if wasmGzPath in fs then DecompressIfGzipped(fs[wasmGzPath], gunzip)
    else if wasmPath in fs then DecompressIfGzipped(fs[wasmPath], gunzip)
    else Err(NoSuchFile(wasmPath))
  }

  /** What the patched `fs.readFile` hands to its callback. */
  function ReadResult(fs: FileSystem, path: string, hasOptions: bool, gunzip: Bytes -> Result<Bytes>): Result<Bytes> {
    var actualPath := ResolveGz(fs, path);
    if actualPath !in fs then Err(NoSuchFile(actualPath))
    else if !hasOptions then DecompressIfGzipped(fs[actualPath], gunzip)
    else Ok(fs[actualPath])
  }

  /** The progress `fs.readFile` requests: 20 before reading the data
      file, 25 before decompressing, 35 once the data file is loaded. */
  function ReadFileRequests(fs: FileSystem, path: string, hasOptions: bool, gunzip: Bytes -> Result<Bytes>): seq<ProgressEvent> {
    var data := IsDataFile(Basename(path));
    var actualPath := ResolveGz(fs, path);
    var first := if data then [ProgressEvent("loading_data", 20)] else [];
    if actualPath !in fs then first
    else if !hasOptions && IsGzipped(fs[actualPath]) then
      first + [ProgressEvent("loading_data", 25)]
        + (if data && gunzip(fs[actualPath]).Ok? then [ProgressEvent("loading_data", 35)] else [])
    else first + (if data then [ProgressEvent("loading_data", 35)] else [])
  }

  /** The stored progress after a run of requests from `last`. */
  function LastAfter(last: int, reqs: seq<ProgressEvent>): int
  {
    if reqs == [] then last else Max(LastAfter(last, reqs[..|reqs| - 1]), reqs[|reqs| - 1].percent)
  }

  /** What the callback receives for a run of requests from stored
      progress `last`: each request raised to the progress so far. */
  function Clamped(last: int, reqs: seq<ProgressEvent>): (r: seq<ProgressEvent>)
    ensures |r| == |reqs|
  {
    if reqs == [] then []
    else
      var prefix := reqs[..|reqs| - 1];
      var req := reqs[|reqs| - 1];
      Clamped(last, prefix) + [ProgressEvent(req.phase, Max(LastAfter(last, prefix), req.percent))]
  }

  lemma ClampedSnoc(last: int, reqs: seq<ProgressEvent>, req: ProgressEvent)
    ensures Clamped(last, reqs + [req]) == Clamped(last, reqs) + [ProgressEvent(req.phase, Max(LastAfter(last, reqs), req.percent))]
    ensures LastAfter(last, reqs + [req]) == Max(LastAfter(last, reqs), req.percent)
  {
    assert (reqs + [req])[..|reqs|] == reqs;
  }

  /** Monotonic progress: every reported percentage is at least its
      request, at least the stored progress the run started from, at least
      every earlier report, at most the stored progress at the end, and
      keeps its phase. */
  lemma {:induction false} ClampedMonotone(last: int, reqs: seq<ProgressEvent>)
    ensures var r := Clamped(last, reqs);
      && Monotone(r)
      && (forall i :: 0 <= i < |r| ==> r[i].phase == reqs[i].phase && r[i].percent >= reqs[i].percent)
      && (forall i :: 0 <= i < |r| ==> last <= r[i].percent <= LastAfter(last, reqs))
    decreases |reqs|
  {
    if reqs != [] {
      var prefix := reqs[..|reqs| - 1];
      ClampedMonotone(last, prefix);
      LastAfterAtLeast(last, prefix);
      var r := Clamped(last, reqs);
      assert r == Clamped(last, prefix) + [r[|r| - 1]];
      forall i | 0 <= i < |r| - 1 ensures r[i] == Clamped(last, prefix)[i] && reqs[i] == prefix[i] { }
    }
  }

  lemma {:induction false} LastAfterAtLeast(last: int, reqs: seq<ProgressEvent>)
    ensures LastAfter(last, reqs) >= last
    decreases |reqs|
  {
    if reqs != [] {
      LastAfterAtLeast(last, reqs[..|reqs| - 1]);
    }
  }

  function Max(a: int, b: int): int {
    if a > b then a else b
  }

  /** The progress `createModule` reports with a callback registered: 0
      on start; 12 for a cached binary, or 2, then 5 for a `.gz` file, then
      12 once read; 14 before loading the runtime, the runtime's own
      requests `runtimeReqs` clamped from 14, and 45 (or the progress
      reached, if higher) once it is ready. A failed read stops after the
      2 (and 5). */
  function StartEvents(given: bool, cached: bool, gz: bool, loadedOk: bool, runtimeOk: bool,
                       runtimeReqs: seq<ProgressEvent>): seq<ProgressEvent> {
    RuntimeTrace(BinaryTrace([ProgressEvent("starting", 0)], given, cached, gz, loadedOk), loadedOk, runtimeOk, runtimeReqs)
  }

  /** `before` followed by the progress after the binary step. */
  function RuntimeTrace(before: seq<ProgressEvent>, loadedOk: bool, runtimeOk: bool,
                        runtimeReqs: seq<ProgressEvent>): seq<ProgressEvent> {
    var loading := before + [ProgressEvent("compiling", 14)] + Clamped(14, runtimeReqs);
    if !loadedOk then before
    else if runtimeOk then loading + [ProgressEvent("runtime_ready", Max(LastAfter(14, runtimeReqs), 45))]
    else loading
  }

  /** `before` followed by the progress of the binary step. */
  function BinaryTrace(before: seq<ProgressEvent>, given: bool, cached: bool, gz: bool, readOk: bool): seq<ProgressEvent> {
    var loading := before + [ProgressEvent("loading_wasm", 2)];
    var unpacking := if gz then loading + [ProgressEvent("loading_wasm", 5)] else loading;
    if given then before
    else if cached then before + [ProgressEvent("loading_wasm", 12)]
    else if readOk then unpacking + [ProgressEvent("loading_wasm", 12)]
    else unpacking
  }

  /** Strictly rising percentages. */
  predicate Rising(events: seq<ProgressEvent>) {
    forall i, j :: 0 <= i < j < |events| ==> events[i].percent < events[j].percent
  }

  lemma {:induction false} RisingSnoc(events: seq<ProgressEvent>, e: ProgressEvent)
    requires Rising(events) && (events == [] || events[|events| - 1].percent < e.percent)
    ensures Rising(events + [e])
  {
    var es := events + [e];
    forall i, j | 0 <= i < j < |es| ensures es[i].percent < es[j].percent {
      if j < |events| {
        assert es[i] == events[i] && es[j] == events[j];
      } else if i < |events| - 1 {
        assert es[i] == events[i] && events[i].percent < events[|events| - 1].percent;
      }
    }
  }

  /** A run of requests that start at or above the stored progress and
      rise is reported unchanged, and leaves the last request stored. */
  lemma {:induction false} ClampedRising(last: int, reqs: seq<ProgressEvent>)
    requires Rising(reqs) && (reqs != [] ==> last <= reqs[0].percent)
    ensures Clamped(last, reqs) == reqs
    ensures LastAfter(last, reqs) == if reqs == [] then last else reqs[|reqs| - 1].percent
    decreases |reqs|
  {
    if reqs != [] {
      var prefix := reqs[..|reqs| - 1];
      assert Rising(prefix) by {
        forall i, j | 0 <= i < j < |prefix| ensures prefix[i].percent < prefix[j].percent {
          assert prefix[i] == reqs[i] && prefix[j] == reqs[j];
        }
      }
      ClampedRising(last, prefix);
      if prefix != [] {
        assert prefix[|prefix| - 1] == reqs[|reqs| - 2];
      }
      assert prefix + [reqs[|reqs| - 1]] == reqs;
    }
  }

  /** When the runtime's own requests rise strictly between 14 and 45
      (the data file's 20, 25, 35, say), the reports of a `createModule`
      run strictly rise, so the clamping of `emitProgress` never raises
      one: they are exactly the requests, with the runtime's requests
      between compiling and runtime ready. */
  lemma StartEventsRising(given: bool, cached: bool, gz: bool, loadedOk: bool, runtimeOk: bool,
                          runtimeReqs: seq<ProgressEvent>)
    requires Rising(runtimeReqs)
    requires runtimeReqs != [] ==> 14 < runtimeReqs[0].percent && runtimeReqs[|runtimeReqs| - 1].percent < 45
    ensures var es := StartEvents(given, cached, gz, loadedOk, runtimeOk, runtimeReqs);
      && Rising(es) && Clamped(0, es) == es
      && (loadedOk && runtimeOk ==>
            es == BinaryTrace([ProgressEvent("starting", 0)], given, cached, gz, true)
                  + [ProgressEvent("compiling", 14)] + runtimeReqs + [ProgressEvent("runtime_ready", 45)])
  {
    var binary := BinaryTrace([ProgressEvent("starting", 0)], given, cached, gz, loadedOk);
    BinaryRising(given, cached, gz, loadedOk);
    var es := StartEvents(given, cached, gz, loadedOk, runtimeOk, runtimeReqs);
    if loadedOk {
      RuntimeRising(binary, runtimeOk, runtimeReqs);
    }
    ClampedRising(0, es);
  }

  /** The reports of the binary step strictly rise from the start report
      and stay at or below 12. */
  lemma BinaryRising(given: bool, cached: bool, gz: bool, loadedOk: bool)
    ensures var binary := BinaryTrace([ProgressEvent("starting", 0)], given, cached, gz, loadedOk);
      && binary != [] && binary[0].percent == 0 && Rising(binary) && binary[|binary| - 1].percent <= 12
  {
    var start := [ProgressEvent("starting", 0)];
    if !given && !cached {
      RisingSnoc(start, ProgressEvent("loading_wasm", 2));
      var loading := start + [ProgressEvent("loading_wasm", 2)];
      var unpacking := if gz then loading + [ProgressEvent("loading_wasm", 5)] else loading;
      if gz { RisingSnoc(loading, ProgressEvent("loading_wasm", 5)); }
      if loadedOk { RisingSnoc(unpacking, ProgressEvent("loading_wasm", 12)); }
    } else if !given {
      RisingSnoc(start, ProgressEvent("loading_wasm", 12));
    }
  }

  /** After a rising binary step, the runtime's rising requests between
      14 and 45 leave the whole trace rising and unclamped. */
  lemma RuntimeRising(binary: seq<ProgressEvent>, runtimeOk: bool, runtimeReqs: seq<ProgressEvent>)
    requires binary != [] && Rising(binary) && binary[|binary| - 1].percent <= 12
    requires Rising(runtimeReqs)
    requires runtimeReqs != [] ==> 14 < runtimeReqs[0].percent && runtimeReqs[|runtimeReqs| - 1].percent < 45
    ensures var es := RuntimeTrace(binary, true, runtimeOk, runtimeReqs);
      && Rising(es)
      && es == binary + [ProgressEvent("compiling", 14)] + runtimeReqs
               + (if runtimeOk then [ProgressEvent("runtime_ready", 45)] else [])
  {
    var compiled := binary + [ProgressEvent("compiling", 14)];
    var loading := compiled + runtimeReqs;
    var ready := if runtimeOk then [ProgressEvent("runtime_ready", 45)] else [];
    assert RuntimeTrace(binary, true, runtimeOk, runtimeReqs) == loading + ready by {
      ClampedRising(14, runtimeReqs);
    }
    assert Rising(loading) by {
      RisingSnoc(binary, ProgressEvent("compiling", 14));
      RisingAppend(compiled, runtimeReqs);
    }
    assert loading[|loading| - 1].percent < 45 by {
      if runtimeReqs != [] {
        assert loading[|loading| - 1] == runtimeReqs[|runtimeReqs| - 1];
      } else {
        assert loading[|loading| - 1] == compiled[|compiled| - 1];
      }
    }
    if runtimeOk {
      RisingSnoc(loading, ProgressEvent("runtime_ready", 45));
    } else {
      assert loading + ready == loading;
    }
  }

  lemma {:induction false} RisingAppend(a: seq<ProgressEvent>, b: seq<ProgressEvent>)
    requires Rising(a) && Rising(b) && (a != [] && b != [] ==> a[|a| - 1].percent < b[0].percent)
    ensures Rising(a + b)
  {
    var ab := a + b;
    forall i, j | 0 <= i < j < |ab| ensures ab[i].percent < ab[j].percent {
      if j < |a| {
        assert ab[i] == a[i] && ab[j] == a[j];
      } else if |a| <= i {
        assert ab[i] == b[i - |a|] && ab[j] == b[j - |a|];
      } else {
        assert ab[i] == a[i] && ab[j] == b[j - |a|];
        assert a[i].percent <= a[|a| - 1].percent;
        assert b[0].percent <= b[j - |a|].percent;
      }
    }
  }
}
