# LibreOffice document converter: batch, packing, preview and loader logic in Dafny

This project models the sequential logic of the LibreOffice document converter example (a Next.js app, an AWS Lambda and a Node CLI). The app converts office documents in the browser with a WebAssembly build of LibreOffice, and on the server with the same build. The model covers these parts:

- **Archive packing planner** (`buildZipFiles`, module `ZipBuilder`).
  - It makes one greedy pass over the files to zip.
  - It splits them by declared size into archives capped at 250 MiB, and gives an oversized file an archive of its own.
  - Archives are named `<base>.zip` or `<base>-NNN.zip`.
  - It is a method with a loop, proved equal to the functional fold `Pack`. Coverage, order, cap and naming are lemmas about `Pack`.
- **Browser batch mode** (`initBatchMode`, `handleBatchConvert`, `handleBatchCancel`; module `BatchMode`).
  - Files are classified by extension. Eligible files are copied or converted, and the results are written to storage.
  - Progress counters are published after each file, and the stored results are handed to the packer.
  - The React state is the class `BatchController`. The converter and the storage writes are oracles indexed by file position.
- **Server route** (`POST /api/convert`, module `ConvertRoute`): validation, the per-file copy/convert loop with up to three attempts, the "all failed" answer, and the archive with its summary.
- **Lambda handler** (`handler`, module `LambdaHandler`) and its multipart parser (`parseMultipartFormData`, module `Multipart`).
  - The handler does routing, format validation, the single-attempt per-file loop and the summary.
  - The parser searches for the boundary over a byte buffer. Header and text-field bytes are decoded as UTF-8 and the boundary is encoded as UTF-8, as Node's `Buffer` does.
- **Lazy page previews** (`handleVisibilityChange`, `processQueue`, `loadPagePreview`, `loadAllPages`; module `PagePreviews`).
  - Visibility events feed a FIFO queue without duplicates, and a single-flight worker renders its head.
  - A page is claimed as loaded before its render and released when the render fails. Previews are kept sorted by page.
- **WebAssembly loader** (`public/wasm/loader.cjs`, module `WasmLoader`): gzip detection, the `.gz` fallback, the patched `fs.readFile`, the monotonic progress reporter, `createModule` up to the runtime hand-over, the binary cache and `getFileSizes`.
- **Batch upload CLI** (`scripts/batch-upload.ts`, module `BatchUpload`): the `parseArgs` index loop and the recursive `collectFiles` scan.

Shared text helpers live in module `Common`:

- the `split('.').pop().toLowerCase()` extension rule;
- the `replace(/\.[^.]+$/, ...)` output-name rewrite;
- path joining, with the normalisation of `path.join` (`.`, `..`, repeated and trailing slashes);
- decimal rendering for the zero-padded archive numbers.

Oracles and inputs stand in for everything the code awaits or reads from outside:

- `Date.now()` is a parameter.
- The converter is a function from file position (and attempt) to bytes or an error message.
- Storage writes are a function from file position to an optional error.
- Renders are a function from page to optional bytes.
- The file system is a map from path to bytes, and `gunzipSync` is a function that may fail.

## Model

| member | source | states |
|---|---|---|
| Common.FileExtensionSpec | app/components/ConverterApp.tsx:46-48 | the extension is the lowercased longest dot-free suffix of the name; it is preceded by a dot unless it is the whole name, so a name without a dot gives the whole name and a trailing dot gives `""` |
| Common.LowerSpec | app/api/convert/route.ts:53 | lowercasing keeps the length and maps every character on its own |
| Common.LastIndexOfSpec | converter-lambda/index.mjs:64 | the last-occurrence search returns a position holding the character with none after it, and none exactly when the character is absent |
| Common.ReplaceExtensionSpec | app/components/ConverterApp.tsx:221 | only a final non-empty extension after a dot is replaced by the format; the stem up to and including the dot is kept; any other name is unchanged |
| Common.OutputNameTakesFormat | app/api/convert/route.ts:143 | when a name has an extension, the output name has the target format as its extension and keeps the original stem |
| Common.OutputNameWithoutExtension | converter-lambda/index.mjs:185 | a name without an extension to replace is used unchanged as the output name |
| Common.DottedExtension | app/components/ConverterApp.tsx:47 | in a name with a dot, the extension starts right after the last dot |
| Common.ExtensionAfterStem | app/components/ConverterApp.tsx:47 | a stem ending in a dot followed by dot-free text has that text, lowercased, as its extension |
| Common.JoinPathSplits | scripts/batch-upload.ts:118 | `path.join(dir, name)` for a directory entry name is the normalised directory, a `/` and the name (the name alone when the directory normalises to `.`); the name is found again as the base name and the normalised directory as the directory name |
| Common.JoinPathNormalDir | scripts/batch-upload.ts:118 | joining to a directory or to its normalised form gives the same path, and normalising a normalised directory changes nothing |
| Common.JoinPathNormalises | scripts/batch-upload.ts:118 | for plain names `d`, `b` and `name`, the directories `./d`, `d/` and `d//b/..` all join `name` as `d/name`, and `.` adds nothing |
| Common.SwapExtension | app/components/ConverterApp.tsx:221 | a lower-case extension after the last dot is the file's extension and is exactly what the format replaces |
| Common.ZipContentsSpec | app/api/convert/route.ts:223-225 | the archive made by a sequence of `zip.file(name, data)` calls has a file for each name used and no other, and a call that no later call with the same name overrides leaves its data |
| Common.ZipContentsDistinct | app/utils/zipBuilder.ts:70-73 | with distinct names there is exactly one file per call, each with its own data |
| Common.ZipContentsCollision | app/utils/zipBuilder.ts:72 | two calls with one name leave a single file, holding the later data |
| Common.DecimalDigits | app/utils/zipBuilder.ts:38 | `String(n)` is a non-empty string of decimal digits |
| Common.DecimalRoundTrip | app/utils/zipBuilder.ts:38 | reading back the rendered number gives the number |
| Common.DecimalLength | app/utils/zipBuilder.ts:38 | numbers below 1000 have at most three digits |
| Common.LeadingZerosValue | app/utils/zipBuilder.ts:38 | `padStart` zeros do not change the value of a digit string |
| ZipBuilder.BuildZipFiles | app/utils/zipBuilder.ts:19-86 | the loop with its mutable accumulator, size and index produces exactly the plan `Pack` |
| ZipBuilder.Pad3RoundTrip | app/utils/zipBuilder.ts:38 | the padded index is all digits, reads back as the index, and is exactly three characters below 1000 |
| ZipBuilder.NumberedNamesDistinct | app/utils/zipBuilder.ts:38 | different indices give different archive names |
| ZipBuilder.PackFacts | app/utils/zipBuilder.ts:28-74 | after the pass the state is well formed and numbered, it holds exactly the files with stored data as a multiset, and its positive-size members are in input order |
| ZipBuilder.StepInv | app/utils/zipBuilder.ts:28-74 | one iteration keeps the packing invariant: every closed archive within the cap or dedicated, accumulator within the cap |
| ZipBuilder.OversizedStepInv | app/utils/zipBuilder.ts:33-56 | an oversized member flushes a positive accumulator and gets an archive of its own, keeping the invariant |
| ZipBuilder.SmallStepInv | app/utils/zipBuilder.ts:58-73 | a member within the cap joins the accumulator, after a flush when it would overflow, keeping the invariant |
| ZipBuilder.StepNames | app/utils/zipBuilder.ts:36-68 | one iteration keeps the archives numbered 1, 2, 3, ... with the index one past the last |
| ZipBuilder.StepPlaced | app/utils/zipBuilder.ts:28-74 | one iteration places the file exactly when its data is stored, and the positive-size members stay in input order |
| ZipBuilder.PackArchivesOk | app/utils/zipBuilder.ts:77-83 | every archive, including the final one, has positive declared size and is either a lone oversized member or within the cap with every member within the cap |
| ZipBuilder.PackWithinCap | app/utils/zipBuilder.ts:33-73 | every archive except a dedicated oversized one has total declared size at most `MAX_ZIP_SIZE`, and a member over the cap is alone in its archive |
| ZipBuilder.PackArchivesNonEmpty | app/utils/zipBuilder.ts:34 | every archive has positive declared size, because every flush is guarded by `currentSize > 0` |
| ZipBuilder.PackMembers | app/utils/zipBuilder.ts:28-84 | the `file()` calls of the archives, read in order, add the stored files, none twice; only zero-size files may be missing; the positive-size files are added exactly once each, in input order |
| ZipBuilder.PackMembersStored | app/utils/zipBuilder.ts:29-30 | every member of every archive is an input file whose data is in storage: a file without stored data is skipped |
| ZipBuilder.PackDistinctNames | app/utils/zipBuilder.ts:44-73 | when the files to zip have distinct output names, each archive holds one file per member, with that member's stored data |
| ZipBuilder.DistinctContents | app/utils/zipBuilder.ts:72 | members with distinct output names leave one file each, holding their own data |
| ZipBuilder.SameNameOneFile | app/utils/zipBuilder.ts:58-73 | two small stored files with one output name go to one archive `<base>.zip` that lists both, but which holds a single file with the later file's data |
| ZipBuilder.PackPartitionsPositive | app/utils/zipBuilder.ts:28-84 | with positive sizes only, the `file()` calls of the archives, concatenated, add exactly the stored files in input order |
| ZipBuilder.PackNames | app/utils/zipBuilder.ts:77-82 | archive i is `<base>-NNN.zip` with NNN = i+1, except that a lone archive made from the final accumulator is `<base>.zip` |
| ZipBuilder.FinishNamesEmitted | app/utils/zipBuilder.ts:77-82 | with a positive final accumulator, the last archive is `<base>.zip` when it is the only one, and numbered otherwise |
| ZipBuilder.FinishNamesDropped | app/utils/zipBuilder.ts:77 | with a zero-size final accumulator, no archive is added and the names already given stand |
| ZipBuilder.PackNamesDistinct | app/utils/zipBuilder.ts:79-81 | archive names are pairwise distinct |
| ZipBuilder.PackIgnoresStoredBytes | app/utils/zipBuilder.ts:33-73 | the plan depends on storage only through which keys are present: splitting uses declared sizes, never data length |
| ZipBuilder.FinishFlatten | app/utils/zipBuilder.ts:77-83 | the archives read in order, followed by the dropped zero-size accumulator, are everything the pass placed |
| ZipBuilder.LoneOversizedIsNumbered | app/utils/zipBuilder.ts:47-54 | a single oversized file yields `[<base>-001.zip holding it]`, not `<base>.zip` |
| ZipBuilder.LoneZeroSizeIsDropped | app/utils/zipBuilder.ts:77 | a single zero-size file yields no archive at all |
| ZipBuilder.ZeroSizeMovesPastOversized | app/utils/zipBuilder.ts:34 | a zero-size file waiting when an oversized file arrives is emitted after the oversized file's archive |
| ZipBuilder.TwoLargeFiles | app/utils/zipBuilder.ts:59-69 | two 200 MiB files under the 250 MiB cap give `<base>-001.zip` and `<base>-002.zip`, one file each |
| BatchMode.InitialEntriesFacts | app/components/ConverterApp.tsx:207-223 | each entry is `unsupported` exactly when its extension is outside the browser's supported set and `ready` otherwise; entry i's id is `<Date.now() at entry i>-i`, and the ids are distinct even when the clock moves during the map; the output name is rewritten for the format of that moment; nothing is stored yet |
| BatchMode.InitialIdsDistinct | app/components/ConverterApp.tsx:218 | the ids made by one call are distinct |
| BatchMode.BatchIdsDistinct | app/components/ConverterApp.tsx:218 | ids with different indices differ, whatever clock values they were made with |
| BatchMode.StorageKeysDistinct | app/components/ConverterApp.tsx:257 | storage keys of one run differ when the entry ids differ |
| BatchMode.UpdateById | app/components/ConverterApp.tsx:260-264 | the `prev.map` update changes exactly the entries with the given id |
| BatchMode.UpdateAt | app/components/ConverterApp.tsx:260-264 | with distinct ids, an update by entry i's id changes entry i alone and keeps the ids distinct |
| BatchMode.ProcessPrefixStep | app/components/ConverterApp.tsx:254-335 | visiting entry n changes only entry n, into its processed form |
| BatchMode.ProcessPrefixIds | app/components/ConverterApp.tsx:254-335 | visits keep ids distinct |
| BatchMode.BatchController.constructor | app/components/ConverterApp.tsx:129-140 | the component starts out of batch mode, with no entries, zero progress, no archives and empty storage |
| BatchMode.BatchController.InitBatchMode | app/components/ConverterApp.tsx:207-236 | the entries are the classified files, `total` counts the eligible ones, the other counters are 0, the archives are cleared, and batch mode is on |
| BatchMode.BatchController.BatchConvert | app/components/ConverterApp.tsx:239-359 | when `getConverter()` rejects, storage is cleared, the entries, counters and archives are unchanged, and converting stays on; otherwise every entry is visited once in list order, storage and the published counters are those of the run, and the archives are `Pack` of the zippable entries when there are any and `buildZipFiles` resolves, and are left alone otherwise, with converting left on when it rejects |
| BatchMode.BatchController.SetOutputFormat | app/components/ConverterApp.tsx:707-712 | the select changes only the output format |
| BatchMode.FormatChangedAfterInit | app/components/ConverterApp.tsx:221-269 | a file whose own extension is the format selected after `initBatchMode` is copied with its own bytes, yet archived under the output name made for the format selected at `initBatchMode` |
| BatchMode.ArchivedUnderInitName | app/components/ConverterApp.tsx:221-269 | `<stem>.<ext>` set up for one format and run with `<ext>` selected is copied, and archived as `<stem>.<first format>` holding the original bytes (`a.docx` archived as `a.pdf`) |
| BatchMode.BatchController.VisitAll | app/components/ConverterApp.tsx:254-335 | the loop over the entries as they were at the start ends with the run's entries, storage and counters |
| BatchMode.BatchController.VisitNext | app/components/ConverterApp.tsx:254-335 | one iteration extends the processed prefix, the storage and the tally by entry i; progress is republished only after an eligible visit |
| BatchMode.BatchController.VisitEntry | app/components/ConverterApp.tsx:255-326 | an eligible entry is marked converting, then copied/done or failed; its result is stored when the write succeeds; the counters move by its outcome |
| BatchMode.BatchController.SetEntry | app/components/ConverterApp.tsx:260-264 | a `setBatchFiles` update by id changes only that entry and keeps ids distinct |
| BatchMode.BatchController.BatchCancel | app/components/ConverterApp.tsx:362-375 | storage, entries, progress and archives are cleared, and batch mode and converting are off |
| BatchMode.OutcomeEligibility | app/components/ConverterApp.tsx:250-252 | only unsupported entries are skipped |
| BatchMode.TallyOfIneligible | app/components/ConverterApp.tsx:255 | after a run, `current` is the number of eligible entries: it rises by one per eligible file |
| BatchMode.TallyCurrent | app/components/ConverterApp.tsx:255 | after n visits, `current` counts the eligible entries among the first n |
| BatchMode.CountEligibleProcessed | app/components/ConverterApp.tsx:229 | a run keeps which entries are eligible, so `total` still counts them |
| BatchMode.ProgressWithinTotal | app/components/ConverterApp.tsx:328-334 | `current` never exceeds `total` |
| BatchMode.TallyMonotone | app/components/ConverterApp.tsx:245-334 | the counters `current`, `converted`, `copied` and `failed` never decrease during a run |
| BatchMode.TallyBalance | app/components/ConverterApp.tsx:273-314 | `converted + copied + failed` equals `current` plus the number of failed storage writes, which are counted both as a success and as a failure |
| BatchMode.VisitStatus | app/components/ConverterApp.tsx:275-325 | one visit moves the status counts in step with the counters |
| BatchMode.RunStatusCounts | app/components/ConverterApp.tsx:254-335 | after a run, `failed` entries number `failed`, `done` plus `copied` entries number `current - failed`, and the rest are `unsupported` |
| BatchMode.StoreAfterLookup | app/components/ConverterApp.tsx:312 | after the visits, every successful write's key holds that entry's result |
| BatchMode.StoreAfterKeys | app/components/ConverterApp.tsx:312 | storage holds nothing but the keys of successful writes |
| BatchMode.ZippableIsStored | app/components/ConverterApp.tsx:341-346 | an entry reaches the packer only after a successful write, with its storage key and result length |
| BatchMode.FilesToZipHas | app/components/ConverterApp.tsx:340-346 | every zippable entry goes to the packer |
| BatchMode.StoredReachesPacker | app/components/ConverterApp.tsx:312-346 | an entry whose result was stored goes to the packer, declared with the length of that result |
| BatchMode.FilesToZipFrom | app/components/ConverterApp.tsx:340-346 | every packer input comes from a zippable entry, with `outputName` and `resultSize` |
| BatchMode.RunZipInputsStored | app/components/ConverterApp.tsx:339-356 | every packer input of a run names a stored result whose length is its declared size |
| BatchMode.RunArchivesHoldResults | app/components/ConverterApp.tsx:339-356 | the archives built after a run hold, of the packer's input, exactly its non-empty members, each once and in list order, and nothing else |
| BatchMode.RunArchivesHoldStored | app/components/ConverterApp.tsx:312-356 | every entry whose non-empty result was stored is in one of the archives built after the run |
| ConvertRoute.ServerFormatsAreBrowserFormatsWithoutHtm | app/api/convert/route.ts:38-42 | the server's supported set is the browser's without `htm` |
| ConvertRoute.ValidFilesSpec | app/api/convert/route.ts:120-123 | the valid files are exactly the file entries with a supported extension |
| ConvertRoute.Post | app/api/convert/route.ts:94-257 | the handler with its loop produces the response `Respond` |
| ConvertRoute.ProcessFiles | app/api/convert/route.ts:141-204 | the loop pushes one result per valid file, in order |
| ConvertRoute.ProcessFile | app/api/convert/route.ts:142-203 | one iteration copies a same-format file and converts any other with retries |
| ConvertRoute.ResultsSpec | app/api/convert/route.ts:141-204 | result j is valid file j's result as the j-th conversion |
| ConvertRoute.ConvertWithRetry | app/api/convert/route.ts:159-200 | the retry loop ends with the file's result, and its attempts and pauses are those of `RetryFrom` |
| ConvertRoute.PendingStep | app/api/convert/route.ts:162-189 | a success ends the loop; a failure of the last attempt ends it with that error; any other failure pauses and moves to the next attempt |
| ConvertRoute.RetryFromSpec | app/api/convert/route.ts:162-189 | the loop succeeds exactly when some attempt does, with the first success's data, and otherwise ends with the last error after every remaining attempt and the pauses between them; attempts and pauses alternate |
| ConvertRoute.RetryOutcome | app/api/convert/route.ts:162-189 | the outcome is the first successful attempt, or the last failure when all fail |
| ConvertRoute.RetryShape | app/api/convert/route.ts:162-189 | the trace alternates attempts and pauses, numbered from the first attempt, and ends with an attempt; when every attempt fails it has all of them |
| ConvertRoute.RetryTrace | app/api/convert/route.ts:139-189 | at most three attempts, with a pause between two attempts and none after the last; the file fails exactly when all three attempts fail, and then the trace is attempt 0, pause, attempt 1, pause, attempt 2 |
| ConvertRoute.CopiedFile | app/api/convert/route.ts:148-156 | a same-format file is copied with its own bytes and size, whatever the converter would do |
| ConvertRoute.ConvertedFile | app/api/convert/route.ts:157-200 | a converted file succeeds exactly when one of its three attempts does; otherwise it fails with empty data, size 0 and the last message, or 'Unknown error' when that message is empty |
| ConvertRoute.ValidationOrder | app/api/convert/route.ts:104-130 | a missing or unknown format, then an empty file list, then no supported file, each give 400 in that order |
| ConvertRoute.AnswerFacts | app/api/convert/route.ts:206-249 | all failed gives 500 with one detail per result; otherwise the archive is made by one `zip.file` call per successful result, in order, and converted+copied+failed is the number of valid files, `total` is the number of entries, `skipped` is the dropped ones |
| ConvertRoute.ArchiveNames | app/api/convert/route.ts:223-225 | the archive answered has a file for each file name among the successful results and no other |
| ConvertRoute.ArchiveKeeps | app/api/convert/route.ts:223-225 | a successful result whose name no later success reuses is in the archive with its data, and with distinct names there is one file per success |
| ConvertRoute.SameStemOneFile | app/api/convert/route.ts:143-225 | two successes that differ only in extension (`a.doc`, `a.docx`) get one output name, and the archive keeps only the later one |
| ConvertRoute.StatusCountsAdd | app/api/convert/route.ts:230-239 | the three status counts add up to the number of results, and the failures list has one item per failure |
| ConvertRoute.SuccessfulSpec | app/api/convert/route.ts:208 | the successful results are exactly the results that did not fail |
| LambdaHandler.Handler | converter-lambda/index.mjs:110-291 | the handler with its loop produces the response `Respond` |
| LambdaHandler.ConvertAll | converter-lambda/index.mjs:182-234 | the loop pushes one result per file part, in order |
| LambdaHandler.ConvertOne | converter-lambda/index.mjs:184-233 | one iteration checks the extension, then copies the file or makes its single conversion attempt |
| LambdaHandler.Routing | converter-lambda/index.mjs:115-153 | OPTIONS gives the preflight answer and GET the health answer; a non-multipart request gives 400; a missing boundary gives 500 with the parser's message |
| LambdaHandler.FormatChecks | converter-lambda/index.mjs:156-167 | a missing, blank or unknown format gives 400 naming it; an `outputFormat` part sent as a file gives 500 |
| LambdaHandler.NoFilesRejected | converter-lambda/index.mjs:169-177 | with a valid format and no file part, the answer is 400 'No files provided', whatever the converter's state |
| LambdaHandler.EncodedFormatField | converter-lambda/index.mjs:156-159 | an `outputFormat` field of bytes 70 64 66 C2 A0 is read as "pdf"; one of bytes 70 64 66 A0 is read as "pdf" and U+FFFD, which names no format |
| LambdaHandler.FormatIsTrimmed | converter-lambda/index.mjs:156-157 | the format used is the first `outputFormat` part, with surrounding white space ignored |
| LambdaHandler.FindPart | converter-lambda/index.mjs:156 | the found part has the name; none is found only when no part has it |
| LambdaHandler.FindFirst | converter-lambda/index.mjs:156 | `find` returns the first part with the name |
| LambdaHandler.FilePartsSpec | converter-lambda/index.mjs:169 | the file parts are exactly the parts named `files` that have a file name |
| LambdaHandler.TrimSpec | converter-lambda/index.mjs:157 | `trim` keeps a contiguous stretch and drops only white space around it, leaving none at either end |
| LambdaHandler.TrimStartSpec | converter-lambda/index.mjs:157 | leading white space is dropped up to the first other character |
| LambdaHandler.TrimEndSpec | converter-lambda/index.mjs:157 | trailing white space is dropped back to the last other character |
| LambdaHandler.TrimPadded | converter-lambda/index.mjs:157 | trimming a padded format name gives the name back |
| LambdaHandler.LambdaResultCases | converter-lambda/index.mjs:184-233 | an unsupported extension fails with `Unsupported format: <ext>`; a same-format file is copied; any other file makes one attempt and succeeds exactly when it does; no retry |
| LambdaHandler.LambdaAnswerFacts | converter-lambda/index.mjs:236-282 | with no success, 500 with one detail per file; otherwise the archive is made by one `zip.file` call per success, in order, and converted+copied+failed equals `total`, the number of file parts |
| Multipart.ParseMultipartFormData | converter-lambda/index.mjs:67-108 | the boundary search and segment loop produce exactly the parts `Parse` describes |
| Multipart.ParseSegment | converter-lambda/index.mjs:81-105 | one turn stops when no boundary follows; otherwise it advances the offset strictly and keeps collected-plus-pending parts |
| Multipart.CollectPart | converter-lambda/index.mjs:85-102 | one segment adds its part, if any, to the list |
| Multipart.ParseFailsOnlyWithoutBoundary | converter-lambda/index.mjs:69-72 | parsing fails only without a boundary, with 'No boundary found in content-type' |
| Multipart.BoundaryNone | converter-lambda/index.mjs:69 | there is no boundary exactly when no `boundary=` is followed by a character other than `;` |
| Multipart.BoundaryValueSpec | converter-lambda/index.mjs:69-73 | a boundary value is non-empty; it is the quoted text without quotes, or the bare text up to `;` |
| Multipart.BoundaryValueForms | converter-lambda/index.mjs:69-73 | both the quoted and the bare spelling are accepted |
| Multipart.IndexOfSpec | converter-lambda/index.mjs:82 | `indexOf` finds the first occurrence at or after the offset, or -1 when there is none |
| Multipart.BlankLineIsIndexOf | converter-lambda/index.mjs:86 | the header split is `indexOf` of CRLFCRLF |
| Multipart.SegmentsFacts | converter-lambda/index.mjs:79-105 | each segment ends at the next boundary; offsets strictly increase, so the loop terminates; each next segment starts past the boundary and its line break |
| Multipart.PartsFromSegments | converter-lambda/index.mjs:79-105 | the parts are those of the segments, in body order |
| Multipart.PartOfSpec | converter-lambda/index.mjs:85-101 | a segment yields a part exactly when it has a blank line and a `name="..."` header; the data is the raw bytes after the blank line exactly when a file name is given |
| Multipart.IndexOfCharSpec | converter-lambda/index.mjs:92 | the first-occurrence search reports a position with no earlier occurrence |
| Multipart.Decode | converter-lambda/index.mjs:89-99 | `toString()` decodes UTF-8: never more characters than bytes |
| Multipart.Encode | converter-lambda/index.mjs:77 | `Buffer.from` encodes UTF-8: one to four bytes per character |
| Multipart.DecodeEncode | converter-lambda/index.mjs:77-99 | text written as UTF-8 reads back as the same text |
| Multipart.EncodeDecode | converter-lambda/index.mjs:89-99 | bytes that decode without U+FFFD are well-formed: writing the text back gives the same bytes |
| Multipart.DecodeFirstEncoded | converter-lambda/index.mjs:89-99 | a character's encoding decodes to that character and takes exactly its bytes, whatever follows |
| Multipart.DecodeFirstComplete | converter-lambda/index.mjs:89-99 | a sequence decoded to anything but U+FFFD is exactly that character's encoding |
| Multipart.EncodeAppend | converter-lambda/index.mjs:77 | the encoding of `--` + boundary is the two dashes followed by the boundary's encoding |
| Multipart.AsciiOneByteEach | converter-lambda/index.mjs:77 | ASCII text is encoded one byte per character, each byte the character's code |
| Multipart.DecodeNoBreakSpace | converter-lambda/index.mjs:99 | bytes 70 64 66 C2 A0 decode to "pdf" and a no-break space |
| Multipart.DecodeStrayContinuation | converter-lambda/index.mjs:99 | bytes 70 64 66 A0 decode to "pdf" and U+FFFD |
| PagePreviews.FindPageNone | app/components/ConverterApp.tsx:423 | `findIndex` finds nothing exactly when the page has no preview |
| PagePreviews.FindPageAt | app/components/ConverterApp.tsx:423 | in a sorted list, a page is found at its entry |
| PagePreviews.PreviewOfSpec | app/components/ConverterApp.tsx:422-430 | in a sorted list, a page's picture is its one entry, and there is one exactly when the page is listed |
| PagePreviews.InsertPreviewFacts | app/components/ConverterApp.tsx:422-430 | storing a preview keeps the list sorted, with one entry per page; it adds the page, shows the new picture, and keeps every other page's picture |
| PagePreviews.ReplacePreviewFacts | app/components/ConverterApp.tsx:424-427 | replacing a listed page's entry keeps the list sorted and its pages, and changes only that page's picture |
| PagePreviews.InsertSortedSorted | app/components/ConverterApp.tsx:429 | appending an unlisted page and sorting gives a sorted list |
| PagePreviews.InsertSortedMultiset | app/components/ConverterApp.tsx:429 | the sorted insert adds exactly the new entry |
| PagePreviews.InsertSortedLookup | app/components/ConverterApp.tsx:429 | the sorted insert keeps every other page's picture |
| PagePreviews.SkipStaleFacts | app/components/ConverterApp.tsx:447-460 | the worker drops a prefix of invisible or loaded heads and stops at the first page that needs a render |
| PagePreviews.SkipStaleNoFile | app/components/ConverterApp.tsx:400 | with no file loaded, every head is shifted without a render |
| PagePreviews.PreviewScheduler.constructor | app/components/ConverterApp.tsx:382-386 | the scheduler starts with nothing visible, loaded or queued, no worker and no previews |
| PagePreviews.PreviewScheduler.VisibilityChange | app/components/ConverterApp.tsx:478-501 | the visible set follows the event in both directions; a visible page neither loaded nor queued is appended and the worker started; nothing else changes the queue |
| PagePreviews.PreviewScheduler.ProcessQueue | app/components/ConverterApp.tsx:442-475 | it does nothing while a worker runs; otherwise it drops stale heads and claims the first page to render, leaving it at the head |
| PagePreviews.PreviewScheduler.Drain | app/components/ConverterApp.tsx:447-471 | the loop shifts stale heads; it claims the first live head as loaded and waits; with the queue empty it clears the flag |
| PagePreviews.PreviewScheduler.RenderComplete | app/components/ConverterApp.tsx:463-470 | when the render ends, the picture is stored or the claim is released; the head is shifted and the worker goes on |
| PagePreviews.PreviewScheduler.FinishRender | app/components/ConverterApp.tsx:420-437 | a successful render inserts or replaces the page's preview, and a failure unmarks the page |
| PagePreviews.PreviewScheduler.LoadPage | app/components/ConverterApp.tsx:399-439 | with no file, or for a loaded page, nothing changes; otherwise the page stays loaded exactly when its render succeeds, with its picture stored |
| PagePreviews.PreviewScheduler.LoadAll | app/components/ConverterApp.tsx:510-524 | every page not loaded at the start is rendered in order, and ends loaded with its picture exactly when its render succeeded; other pages are untouched |
| PagePreviews.LoadStepPreviews | app/components/ConverterApp.tsx:517-521 | one page of the loop adds that page's picture when its render succeeded |
| PagePreviews.LoadStepLoaded | app/components/ConverterApp.tsx:517-521 | one page of the loop marks it loaded when its render succeeded |
| PagePreviews.PagesOfMultiset | app/components/ConverterApp.tsx:429 | lists with the same contents list the same pages |
| WasmLoader.IsGzippedMagic | public/wasm/loader.cjs:26-28 | gzip detection holds exactly when there are at least two bytes and they are 0x1f 0x8b |
| WasmLoader.DecompressIfGzipped | public/wasm/loader.cjs:35-40 | data that is not gzipped is returned unchanged, and gzipped data goes through `gunzipSync` |
| WasmLoader.ResolveGz | public/wasm/loader.cjs:110-117 | the fallback yields the path or the path plus `.gz` |
| WasmLoader.ResolveGzSpec | public/wasm/loader.cjs:173-179 | the path is replaced exactly when it is missing, does not end in `.gz`, and the `.gz` file exists; the path used exists when either one does |
| WasmLoader.GetFileSizes | public/wasm/loader.cjs:428-444 | the sizes are those of the `.gz` files where they exist and of the plain ones otherwise, 0 when missing; `compressed` holds when either `.gz` exists |
| WasmLoader.Loader.constructor | public/wasm/loader.cjs:60-84 | the loader starts with no callback, progress 0 and empty caches |
| WasmLoader.Loader.EmitProgress | public/wasm/loader.cjs:87-94 | with a callback, it reports and stores the larger of the request and the stored progress; without one, nothing changes |
| WasmLoader.ClampedMonotone | public/wasm/loader.cjs:87-94 | each reported percent is at least its request and at least every earlier report since the reset, and keeps its phase |
| WasmLoader.ClampedRising | public/wasm/loader.cjs:87-94 | a rising run of requests starting at or above the stored progress is reported unchanged |
| WasmLoader.Loader.ClearCache | public/wasm/loader.cjs:419-422 | both caches are cleared, so nothing is cached |
| WasmLoader.Loader.ReadWasmBinary | public/wasm/loader.cjs:378-387 | the binary is read from the `.gz` file when it exists, otherwise from the plain file, and decompressed if gzipped |
| WasmLoader.Loader.PreloadWasmBinary | public/wasm/loader.cjs:373-391 | a cached binary is returned without reading; otherwise the binary is read, cached and returned |
| WasmLoader.Loader.PrecompileWasm | public/wasm/loader.cjs:399-407 | a compiled module is returned as it is; otherwise the binary is preloaded and compiled, and the module cached on success |
| WasmLoader.Loader.ReadFile | public/wasm/loader.cjs:98-135 | the result is the fallback-resolved file, decompressed only without options and when gzipped; progress is reported clamped for the data file |
| WasmLoader.Loader.CreateModule | public/wasm/loader.cjs:227-345 | progress is reset to 0 before the first report; the binary is the configured, cached or freshly read one; the reports are exactly the start sequence, with the runtime's own requests through the patched `fs.readFile` and XHR, clamped, between compiling and runtime ready; the callback is cleared unless the binary read throws |
| WasmLoader.Loader.SelectBinary | public/wasm/loader.cjs:236-264 | the configured binary wins, then the cached one, then the one read from disk, which is then cached |
| WasmLoader.Loader.StartRuntime | public/wasm/loader.cjs:266-343 | after a successful read, compiling is reported, then the runtime's own requests clamped from 14, then runtime ready (45, or the progress reached if higher) or the runtime error, and the callback is cleared |
| WasmLoader.StartEventsRising | public/wasm/loader.cjs:234-343 | when the runtime's requests rise strictly between 14 and 45, the reports of a `createModule` run strictly rise, clamping leaves them unchanged, and a successful run reports them between compiling and runtime ready |
| WasmLoader.RuntimeRising | public/wasm/loader.cjs:266-343 | after a rising binary step, compiling, the runtime's rising requests and runtime ready are reported as requested |
| BatchUpload.ParseArgs | scripts/batch-upload.ts:43-109 | the index loop with `args[++i]` yields exactly `Parse` |
| BatchUpload.UsageCases | scripts/batch-upload.ts:46-75 | usage is shown exactly for no arguments or a first argument of `--help`/`-h`; otherwise the first argument is the directory |
| BatchUpload.DirectoryAlone | scripts/batch-upload.ts:74-81 | a directory alone gives the defaults: `pdf`, the timestamped output, the local URL, not recursive, not a dry run |
| BatchUpload.ParseFromKeepsDirectory | scripts/batch-upload.ts:83-106 | the option loop never changes the directory |
| BatchUpload.ParseFromAppend | scripts/batch-upload.ts:83-106 | arguments consumed exactly parse the same with more after them, and the rest continues from their options |
| BatchUpload.LaterValueOverrides | scripts/batch-upload.ts:86-97 | a value flag with a value sets its field, overriding any earlier occurrence, and leaves the other fields alone |
| BatchUpload.DanglingValueFlag | scripts/batch-upload.ts:88-96 | a value flag as the last argument sets its field to `undefined` |
| BatchUpload.SwitchesSet | scripts/batch-upload.ts:98-104 | `--recursive`/`-r` and `--dry-run` turn their flag on and change nothing else |
| BatchUpload.UnknownIgnored | scripts/batch-upload.ts:85-105 | an unknown argument is skipped |
| BatchUpload.ScanEnd | scripts/batch-upload.ts:83 | the loop stops at the end of the arguments, or one past it after a dangling value flag |
| BatchUpload.Extname | scripts/batch-upload.ts:125 | `path.extname` is empty, or a dot followed by dot-free text |
| BatchUpload.ExtnameCases | scripts/batch-upload.ts:125 | no dot gives ""; `stem.e` gives `.e`, and a trailing dot gives "."; `.e` gives ""; `..e` gives `.e`, and `..` gives "" |
| BatchUpload.CollectFiles | scripts/batch-upload.ts:111-135 | the scan of the root returns exactly `Collected` |
| BatchUpload.Scan | scripts/batch-upload.ts:114-131 | `scan` pushes the collected paths of a listing after what was there |
| BatchUpload.ScanEntry | scripts/batch-upload.ts:118-129 | one entry pushes a supported file or, when recursive, the collection of a subdirectory |
| BatchUpload.CollectedSupported | scripts/batch-upload.ts:124-128 | every collected path names a file with a supported extension |
| BatchUpload.FlatCollection | scripts/batch-upload.ts:120-128 | without `recursive`, every supported file of the listing is collected |
| BatchUpload.FlatOrigin | scripts/batch-upload.ts:120-123 | without `recursive`, nothing comes from a subdirectory |
| BatchUpload.RecursiveCollection | scripts/batch-upload.ts:120-123 | with `recursive`, everything collected in a subdirectory is collected |
| BatchUpload.FlatWithinRecursive | scripts/batch-upload.ts:120-123 | the flat collection is contained in the recursive one |

## Left out

- I/O: network requests, `request.formData()`, IndexedDB, `fs.readdirSync`, `fs.statSync`, `process.exit` and the usage text are not modelled. Each is an input, an oracle or a map.
  - Listings are `Entry` trees.
  - The file system is a path-to-bytes map, and a file's size is its length.
- Concurrency: React state batching, the promise sharing of `getConverter` and the `await` interleavings are not modelled. The refs are read as always up to date. A render's suspension is the explicit `RenderComplete` event.
- Foreign libraries: JSZip archive bytes and DEFLATE are not modelled. An archive is a name with its member list, or a list of `(name, data)` entries. `zlib.gunzipSync` is an oracle, and base64 decoding of the lambda body is not modelled (the parser takes the decoded bytes).
- Multipart.Decode, Multipart.Encode: strings are sequences of Unicode scalar values, not UTF-16 code units. A boundary holding a lone surrogate, which `Buffer.from` writes as EF BF BD, cannot be expressed.
- Text encoding: `toLowerCase()` is modelled for ASCII letters only.
- WasmLoader.Loader.CreateModule, WasmLoader.Loader.StartRuntime: the progress requests the Emscripten runtime makes while it loads are a parameter (`runtimeReqs`). Which files it reads through the patched `fs.readFile` and XHR, and in which order, is not modelled.
- HTTP details: JSON bodies, CORS and content headers, and `Content-Disposition` are not modelled. Responses carry their status, message, details, archive entries and summary.
- Progress messages, and the floating-point `toFixed` text in them, are not modelled. Only phase and percent are.
- `readDirectoryEntries`, drag and drop, `handleBatchDownload`/`downloadZipFile`, `uploadFiles` and `main` of the CLI, `createModuleSync` and the XHR `send` body outside its `.gz` fallback are not modelled. The Emscripten `Module` object, `locateFile` and the `Worker` wrapper are not modelled either.
- Pacing: the 500 ms pause between attempts is a `Wait` step in the trace, with no clock.
- BatchMode.BatchController.BatchConvert: building the archives is modelled as completing before the call returns. In the code, `buildZipFiles` resolves asynchronously inside the state updater.
- ZipBuilder.PackMembers, ZipBuilder.PackPartitionsPositive, BatchMode.RunArchivesHoldResults, ConvertRoute.AnswerFacts, LambdaHandler.LambdaAnswerFacts: the member lists these state are the sequence of `zip.file` calls, not the files in the archive. JSZip keeps one file per name, holding the last data given (`Common.ZipContents`). The two agree when the output names are distinct (`ZipBuilder.PackDistinctNames`, `ConvertRoute.ArchiveKeeps`). Same-named outputs lose a file (`ZipBuilder.SameNameOneFile`, `ConvertRoute.SameStemOneFile`).
- WasmLoader.Loader.ReadFile: with options, `readFileSync` returns text in the code. The model returns the bytes undecoded.
- Some behaviours of the code that a reader may not expect; the model keeps each of them:
  - The browser batch loop makes a single attempt per file, with no retries and no stall detection. Only the server route retries, and the lambda makes one attempt.
  - A lone oversized file gets `<base>-001.zip`, not `<base>.zip` (`ZipBuilder.LoneOversizedIsNumbered`).
  - Zero-size files can be dropped (`ZipBuilder.LoneZeroSizeIsDropped`), or emitted after an oversized file that followed them (`ZipBuilder.ZeroSizeMovesPastOversized`).
  - A failed storage write leaves a `failed` entry that still has its `storageKey` and `resultSize`. That file counts both as a success and as a failure (`BatchMode.TallyBalance`).
  - In the browser, when every file fails, the packer is simply not called and no error is raised.
  - The server reports 'Unknown error' when the last error message is empty.
  - In the lambda:
    - an `outputFormat` part sent with a file name makes `trim` fail, which gives a 500 (`LambdaHandler.FormatChecks`);
    - a blank format gives a 400 naming an empty format.
  - When the binary read throws inside `createModule`'s promise, the progress callback stays registered (`WasmLoader.Loader.CreateModule`).
