/** The AWS Lambda `handler` of `converter-lambda/index.mjs`: CORS
    preflight and health check, the content-type check, the multipart
    parse, the `outputFormat` and `files` checks, one conversion attempt
    per file, and the archive with its summary or an error.

    The lambda declares the same input and output format lists as the API
    route, and its result records have the route's shape (their `size` is
    always the length of their data). The body arrives already decoded
    from base64; the converter is an oracle indexed by the file's position
    among the file parts; a failed converter start-up is a parameter. */
module LambdaHandler {
  import opened Common
  import opened Multipart
  import opened ConvertRoute

  // ------------------------------------------------------------- requests

  /** What the handler reads of the event: the HTTP method, the headers
      and the body's bytes. */
  datatype Event = Event(httpMethod: Option<string>, headers: map<string, string>, body: Bytes)

  /** `headers['content-type'] || headers['Content-Type'] || ''`: the first
      non-empty spelling. */
  function ContentType(headers: map<string, string>): string {
    if "content-type" in headers && headers["content-type"] != "" then headers["content-type"]
    else if "Content-Type" in headers && headers["Content-Type"] != "" then headers["Content-Type"]
    else ""
  }

  /** `s.includes(p)` */
  predicate Includes(s: string, p: string) {
    exists i :: 0 <= i <= |s| && StartsWith(s[i..], p)
  }

  /** The characters `String.prototype.trim` removes: white space and line
      terminators. */
  predicate IsTrimmed(c: char) {
    c in {'\U{0020}', '\U{0009}', '\U{000A}', '\U{000B}', '\U{000C}', '\U{000D}', '\U{00A0}', '\U{FEFF}',
          '\U{1680}', '\U{2000}', '\U{2001}', '\U{2002}', '\U{2003}', '\U{2004}', '\U{2005}', '\U{2006}',
          '\U{2007}', '\U{2008}', '\U{2009}', '\U{200A}', '\U{2028}', '\U{2029}', '\U{202F}', '\U{205F}',
          '\U{3000}'}
  }

  function TrimStart(s: string): string {
    if s != [] && IsTrimmed(s[0]) then TrimStart(s[1..]) else s
  }

  function TrimEnd(s: string): string {
    if s != [] && IsTrimmed(s[|s| - 1]) then TrimEnd(s[..|s| - 1]) else s
  }

  function Trim(s: string): string {
    TrimEnd(TrimStart(s))
  }

  /** `TrimStart` drops a prefix of white space, up to a character that
      is not. */
  lemma {:induction false} TrimStartSpec(s: string) returns (i: nat)
    ensures i <= |s| && TrimStart(s) == s[i..]
    ensures forall k :: 0 <= k < i ==> IsTrimmed(s[k])
    ensures TrimStart(s) == [] || !IsTrimmed(TrimStart(s)[0])
  {
    if s != [] && IsTrimmed(s[0]) {
      var i' := TrimStartSpec(s[1..]);
      i := i' + 1;
      assert s[1..][i'..] == s[i..];
      forall k | 0 <= k < i ensures IsTrimmed(s[k]) {
        if k > 0 { assert s[k] == s[1..][k - 1]; }
      }
    } else {
      i := 0;
    }
  }

  /** `TrimEnd` drops a suffix of white space, back to a character that is
      not. */
  lemma {:induction false} TrimEndSpec(s: string) returns (j: nat)
    ensures j <= |s| && TrimEnd(s) == s[..j]
    ensures forall k :: j <= k < |s| ==> IsTrimmed(s[k])
    ensures TrimEnd(s) == [] || !IsTrimmed(TrimEnd(s)[|TrimEnd(s)| - 1])
  {
    if s != [] && IsTrimmed(s[|s| - 1]) {
      var init := s[..|s| - 1];
      j := TrimEndSpec(init);
      assert init[..j] == s[..j];
      forall k | j <= k < |s| ensures IsTrimmed(s[k]) {
        if k < |s| - 1 { assert s[k] == init[k]; }
      }
    } else {
      j := |s|;
    }
  }

  /** `trim()` keeps a contiguous stretch of the text, drops only white
      space around it, and leaves no white space at either end. */
  lemma TrimSpec(s: string) returns (i: nat, j: nat)
    ensures i <= j <= |s| && Trim(s) == s[i..j]
    ensures forall k :: 0 <= k < i ==> IsTrimmed(s[k])
    ensures forall k :: j <= k < |s| ==> IsTrimmed(s[k])
    ensures Trim(s) == [] || (!IsTrimmed(Trim(s)[0]) && !IsTrimmed(Trim(s)[|Trim(s)| - 1]))
  {
    i := TrimStartSpec(s);
    var t := TrimStart(s);
    var n := TrimEndSpec(t);
    j := i + n;
    assert t[..n] == s[i..j];
    forall k | j <= k < |s| ensures IsTrimmed(s[k]) {
      assert s[k] == t[k - i];
    }
    if Trim(s) != [] {
      assert Trim(s)[0] == t[0];
    }
  }

  // ------------------------------------------------------------ responses

  /** A file part: a part named `files` with a non-empty file name. Parts
      with a file name always carry bytes (`PartOfSpec`). */
  datatype FilePart = FilePart(filename: string, data: Bytes)

  datatype LambdaSummary = LambdaSummary(total: nat, converted: nat, copied: nat, failed: nat,
                                         failures: seq<Detail>)

  datatype LambdaResponse =
    | Preflight
    | Health(inputFormats: seq<string>, outputFormats: seq<string>)
    | Json(status: nat, error: string, details: seq<Detail>)
    | ServerError(message: string)
    | Zip(entries: seq<ArchiveEntry>, summary: LambdaSummary)

  const MULTIPART_REQUIRED := "Content-Type must be multipart/form-data"

  /** The engine's message when `trim` is called on a part holding bytes. */
  const TRIM_NOT_A_FUNCTION := "outputFormatPart?.data?.trim is not a function"

  /** `${outputFormat}` for a missing value. */
  function ShowFormat(v: Option<string>): string {
    if v.Some? then v.value else "undefined"
  }

  function InvalidFormatError(outputFormat: Option<string>): string {
    "Invalid output format: " + ShowFormat(outputFormat) + ". Valid: " + Join(OUTPUT_FORMATS, ", ")
  }

  function UnsupportedError(ext: string): string {
    "Unsupported format: " + ext
  }

  /** `parts.find(p => p.name === name)` */
  function FindPart(parts: seq<Part>, name: string): (r: Option<Part>)
    ensures r.Some? ==> r.value in parts && r.value.name == name
    ensures r.None? ==> forall p :: p in parts ==> p.name != name
  {
    if parts == [] then None
    else if parts[0].name == name then Some(parts[0])
    else FindPart(parts[1..], name)
  }

  predicate IsFilePart(p: Part) {
    p.name == "files" && p.filename.Some? && p.filename.value != ""
  }

  function AsFilePart(p: Part): FilePart
    requires p.filename.Some?
  {
    FilePart(p.filename.value, if p.data.Binary? then p.data.bytes else [])
  }

  /** `parts.filter(p => p.name === 'files' && p.filename)` */
  function FileParts(parts: seq<Part>): (r: seq<FilePart>)
    ensures |r| <= |parts|
  {
    if parts == [] then []
    else FileParts(parts[..|parts| - 1]) +
         (if IsFilePart(parts[|parts| - 1]) then [AsFilePart(parts[|parts| - 1])] else [])
  }

  /** The file parts are exactly the parts named `files` with a file name,
      in order. */
  lemma {:induction false} FilePartsSpec(parts: seq<Part>)
    ensures forall f :: f in FileParts(parts) ==> exists p :: p in parts && IsFilePart(p) && f == AsFilePart(p)
    ensures forall p :: p in parts && IsFilePart(p) ==> AsFilePart(p) in FileParts(parts)
  {
    if parts != [] {
      var init := parts[..|parts| - 1];
      FilePartsSpec(init);
      assert parts == init + [parts[|parts| - 1]];
    }
  }

  /** The result for the k-th file part: an unsupported extension fails
      without consulting the converter, a same-format file is copied, any
      other gets exactly one conversion attempt. */
  function LambdaResult(f: FilePart, k: nat, outputFormat: string, convert: nat -> Result<Bytes>): ConversionResult {
    var ext := FileExtension(f.filename);
    var outputName := ReplaceExtension(f.filename, outputFormat);
    if ext !in SUPPORTED_FORMATS then
      ConversionResult(outputName, f.filename, [], 0, Failed, Some(UnsupportedError(ext)))
    else if ext == outputFormat then
      ConversionResult(outputName, f.filename, f.data, |f.data|, Copied, None)
    else
      match convert(k)
      case Ok(out) => ConversionResult(outputName, f.filename, out, |out|, Converted, None)
      case Err(m) => ConversionResult(outputName, f.filename, [], 0, Failed, Some(m))
  }

  /** One result per file part, in order. */
  function LambdaResults(files: seq<FilePart>, outputFormat: string, convert: nat -> Result<Bytes>): (r: seq<ConversionResult>)
    ensures |r| == |files|
  {
    seq(|files|, k requires 0 <= k < |files| => LambdaResult(files[k], k, outputFormat, convert))
  }

  /** The response once the results are known. */
  function LambdaAnswer(results: seq<ConversionResult>): LambdaResponse {
    var ok := Successful(results);
    if ok == [] then Json(500, "All conversions failed", AllDetails(results))
    else Zip(ArchiveOf(ok),
                     LambdaSummary(|results|, CountStatus(results, Converted), CountStatus(results, Copied),
                                   CountStatus(results, Failed), Failures(results)))
  }

  /** The requested output format after `trim()`, or the thrown error when
      the `outputFormat` part holds bytes. */
  function OutputFormatOf(parts: seq<Part>): Result<Option<string>> {
    match FindPart(parts, "outputFormat")
    case None => Ok(None)
    case Some(p) =>
      match p.data
      case Binary(_) => Err(TRIM_NOT_A_FUNCTION)
      case Text(t) => Ok(Some(Trim(t)))
  }

  /** Everything after the method checks, given the parsed parts. */
  function RespondToParts(parts: seq<Part>, initError: Option<string>, convert: nat -> Result<Bytes>): LambdaResponse {
    match OutputFormatOf(parts)
    case Err(m) => ServerError(m)
    case Ok(outputFormat) =>
      if outputFormat.None? || outputFormat.value == "" || outputFormat.value !in OUTPUT_FORMATS then
        Json(400, InvalidFormatError(outputFormat), [])
      else
        var files := FileParts(parts);
        if files == [] then Json(400, "No files provided", [])
        else if initError.Some? then ServerError(initError.value)
        else LambdaAnswer(LambdaResults(files, outputFormat.value, convert))
  }

  /** The whole handler. */
  function Respond(event: Event, initError: Option<string>, convert: nat -> Result<Bytes>): LambdaResponse {
    if event.httpMethod == Some("OPTIONS") then Preflight
    else if event.httpMethod == Some("GET") then Health(SUPPORTED_FORMATS, OUTPUT_FORMATS)
    else
      var contentType := ContentType(event.headers);
      if !Includes(contentType, "multipart/form-data") then Json(400, MULTIPART_REQUIRED, [])
      else
        match Parse(event.body, contentType)
        case Err(m) => ServerError(m)
        case Ok(parts) => RespondToParts(parts, initError, convert)
  }

  // ------------------------------------------------------------ the code

  /** `handler(event)` */
  method Handler(event: Event, initError: Option<string>, convert: nat -> Result<Bytes>)
    returns (resp: LambdaResponse)
    ensures resp == Respond(event, initError, convert)
  {
    if event.httpMethod == Some("OPTIONS") {
      return Preflight;
    }
    if event.httpMethod == Some("GET") {
      return Health(SUPPORTED_FORMATS, OUTPUT_FORMATS);
    }
    var contentType := ContentType(event.headers);
    if !Includes(contentType, "multipart/form-data") {
      return Json(400, MULTIPART_REQUIRED, []);
    }
    var parsed := ParseMultipartFormData(event.body, contentType);
    if parsed.Err? {
      return ServerError(parsed.error);
    }
    var parts := parsed.value;
    var formatPart := FindPart(parts, "outputFormat");
    var outputFormat: Option<string> := None;
    if formatPart.Some? {
      if formatPart.value.data.Binary? {
        return ServerError(TRIM_NOT_A_FUNCTION);
      }
      outputFormat := Some(Trim(formatPart.value.data.text));
    }
    if outputFormat.None? || outputFormat.value == "" || outputFormat.value !in OUTPUT_FORMATS {
      return Json(400, InvalidFormatError(outputFormat), []);
    }
    var files := FileParts(parts);
    if |files| == 0 {
      return Json(400, "No files provided", []);
    }
    if initError.Some? {
      return ServerError(initError.value);
    }
    var results := ConvertAll(files, outputFormat.value, convert);
    resp := LambdaAnswer(results);
  }

  /** The `for (const filePart of fileParts)` loop. */
  method ConvertAll(files: seq<FilePart>, outputFormat: string, convert: nat -> Result<Bytes>)
    returns (results: seq<ConversionResult>)
    ensures results == LambdaResults(files, outputFormat, convert)
  {
    results := [];
    for k := 0 to |files|
      invariant results == LambdaResults(files, outputFormat, convert)[..k]
    {
      var result := ConvertOne(files[k], k, outputFormat, convert);
      results := results + [result];
    }
    assert results == LambdaResults(files, outputFormat, convert)[..|files|];
  }

  /** One turn of the loop: check the extension, copy, or make the single
      conversion attempt. */
  method ConvertOne(filePart: FilePart, k: nat, outputFormat: string, convert: nat -> Result<Bytes>)
    returns (result: ConversionResult)
    ensures result == LambdaResult(filePart, k, outputFormat, convert)
  {
    var ext := FileExtension(filePart.filename);
    var outputName := ReplaceExtension(filePart.filename, outputFormat);
    if ext !in SUPPORTED_FORMATS {
      result := ConversionResult(outputName, filePart.filename, [], 0, Failed, Some(UnsupportedError(ext)));
    } else if ext == outputFormat {
      result := ConversionResult(outputName, filePart.filename, filePart.data, |filePart.data|, Copied, None);
    } else {
      match convert(k) {
        case Ok(out) =>
          result := ConversionResult(outputName, filePart.filename, out, |out|, Converted, None);
        case Err(m) =>
          result := ConversionResult(outputName, filePart.filename, [], 0, Failed, Some(m));
      }
    }
  }

  // ---------------------------------------------------------- properties

  /** Routing: a preflight and a health check answer before anything is
      read, a non-multipart request is a 400, and a multipart request
      without a boundary is a 500 carrying the parser's message. */
  lemma Routing(event: Event, initError: Option<string>, convert: nat -> Result<Bytes>)
    ensures event.httpMethod == Some("OPTIONS") ==> Respond(event, initError, convert) == Preflight
    ensures event.httpMethod == Some("GET") ==>
      Respond(event, initError, convert) == Health(SUPPORTED_FORMATS, OUTPUT_FORMATS)
    ensures event.httpMethod != Some("OPTIONS") && event.httpMethod != Some("GET") &&
            !Includes(ContentType(event.headers), "multipart/form-data") ==>
      Respond(event, initError, convert) == Json(400, MULTIPART_REQUIRED, [])
    ensures event.httpMethod != Some("OPTIONS") && event.httpMethod != Some("GET") &&
            Includes(ContentType(event.headers), "multipart/form-data") &&
            Boundary(ContentType(event.headers)).None? ==>
      Respond(event, initError, convert) == ServerError("No boundary found in content-type")
  {
  }

  /** The output format is checked before the files: a missing, blank or
      unknown format is a 400 naming it, and an `outputFormat` sent as a
      file is a 500. */
  lemma FormatChecks(parts: seq<Part>, initError: Option<string>, convert: nat -> Result<Bytes>)
    ensures FindPart(parts, "outputFormat").None? ==>
      RespondToParts(parts, initError, convert) == Json(400, InvalidFormatError(None), [])
    ensures FindPart(parts, "outputFormat").Some? && FindPart(parts, "outputFormat").value.data.Binary? ==>
      RespondToParts(parts, initError, convert) == ServerError(TRIM_NOT_A_FUNCTION)
    ensures FindPart(parts, "outputFormat").Some? && FindPart(parts, "outputFormat").value.data.Text? &&
            Trim(FindPart(parts, "outputFormat").value.data.text) !in OUTPUT_FORMATS ==>
      var f := Trim(FindPart(parts, "outputFormat").value.data.text);
      RespondToParts(parts, initError, convert) == Json(400, InvalidFormatError(Some(f)), [])
  {
  }

  /** With a valid format but no file part, the answer is a 400 whatever
      the converter's state. */
  lemma NoFilesRejected(parts: seq<Part>, initError: Option<string>, convert: nat -> Result<Bytes>)
    requires OutputFormatOf(parts).Ok? && OutputFormatOf(parts).value.Some?
    requires OutputFormatOf(parts).value.value in OUTPUT_FORMATS && FileParts(parts) == []
    ensures RespondToParts(parts, initError, convert) == Json(400, "No files provided", [])
  {
    var f := OutputFormatOf(parts).value.value;
    assert "" !in OUTPUT_FORMATS;
    assert f != "";
  }

  /** The format used is the first `outputFormat` part, trimmed: surrounding
      white space in the field is ignored. */
  lemma FormatIsTrimmed(prefix: seq<Part>, format: string, pad: string, rest: seq<Part>)
    requires forall p :: p in prefix ==> p.name != "outputFormat"
    requires format in OUTPUT_FORMATS && forall c :: c in pad ==> IsTrimmed(c)
    ensures OutputFormatOf(prefix + [Part("outputFormat", None, Text(pad + format + pad))] + rest) == Ok(Some(format))
  {
    var parts := prefix + [Part("outputFormat", None, Text(pad + format + pad))] + rest;
    FindFirst(prefix, Part("outputFormat", None, Text(pad + format + pad)), rest);
    TrimPadded(pad, format);
  }

  /** The field is decoded as UTF-8 before it is trimmed: "pdf" followed
      by a no-break space (bytes C2 A0) is read as "pdf", while "pdf"
      followed by a stray byte A0 is read with U+FFFD and names no
      format. */
  lemma EncodedFormatField(prefix: seq<Part>, rest: seq<Part>)
    requires forall p :: p in prefix ==> p.name != "outputFormat"
    ensures OutputFormatOf(prefix + [Part("outputFormat", None, Text(Decode([0x70, 0x64, 0x66, 0xC2, 0xA0])))] + rest)
            == Ok(Some("pdf"))
    ensures var f := OutputFormatOf(prefix + [Part("outputFormat", None, Text(Decode([0x70, 0x64, 0x66, 0xA0])))] + rest);
      f == Ok(Some("pdf" + [REPLACEMENT])) && f.value.value !in OUTPUT_FORMATS
  {
    DecodeNoBreakSpace();
    TrailingSpaceField(prefix, rest, Decode([0x70, 0x64, 0x66, 0xC2, 0xA0]));
    DecodeStrayContinuation();
    ReplacedField(prefix, rest, Decode([0x70, 0x64, 0x66, 0xA0]));
  }

  lemma TrailingSpaceField(prefix: seq<Part>, rest: seq<Part>, text: string)
    requires forall p :: p in prefix ==> p.name != "outputFormat"
    requires text == "pdf" + [0xA0 as char]
    ensures OutputFormatOf(prefix + [Part("outputFormat", None, Text(text))] + rest) == Ok(Some("pdf"))
  {
    FindFirst(prefix, Part("outputFormat", None, Text(text)), rest);
    FormatEnds("pdf");
    TrimStartPad("", text);
    TrimEndPad("pdf", [0xA0 as char]);
  }

  lemma ReplacedField(prefix: seq<Part>, rest: seq<Part>, text: string)
    requires forall p :: p in prefix ==> p.name != "outputFormat"
    requires text == "pdf" + [REPLACEMENT]
    ensures OutputFormatOf(prefix + [Part("outputFormat", None, Text(text))] + rest) == Ok(Some(text))
    ensures text !in OUTPUT_FORMATS
  {
    FindFirst(prefix, Part("outputFormat", None, Text(text)), rest);
    TrimStartPad("", text);
    assert TrimEnd(text) == text by {
      assert !IsTrimmed(text[|text| - 1]);
    }
    assert text[|text| - 1] == REPLACEMENT;
  }

  lemma {:induction false} FindFirst(prefix: seq<Part>, p: Part, rest: seq<Part>)
    requires forall q :: q in prefix ==> q.name != p.name
    ensures FindPart(prefix + [p] + rest, p.name) == Some(p)
  {
    if prefix != [] {
      assert (prefix + [p] + rest)[1..] == prefix[1..] + [p] + rest;
      FindFirst(prefix[1..], p, rest);
    }
  }

  /** Trimming a format name with white space around it gives the name
      back (format names hold no white space). */
  lemma TrimPadded(pad: string, format: string)
    requires format in OUTPUT_FORMATS && forall c :: c in pad ==> IsTrimmed(c)
    ensures Trim(pad + format + pad) == format
  {
    FormatEnds(format);
    TrimStartPad(pad, format + pad);
    assert pad + format + pad == pad + (format + pad);
    TrimEndPad(format, pad);
  }

  /** Format names begin and end with a lowercase letter. */
  lemma FormatEnds(format: string)
    requires format in OUTPUT_FORMATS
    ensures format != [] && !IsTrimmed(format[0]) && !IsTrimmed(format[|format| - 1])
  {
    assert format != [] && 'a' <= format[0] <= 'z' && 'a' <= format[|format| - 1] <= 'z';
  }

  lemma {:induction false} TrimStartPad(pad: string, s: string)
    requires forall c :: c in pad ==> IsTrimmed(c)
    requires s != [] && !IsTrimmed(s[0])
    ensures TrimStart(pad + s) == s
  {
    if pad != [] {
      assert (pad + s)[1..] == pad[1..] + s;
      assert pad[0] in pad;
      TrimStartPad(pad[1..], s);
    } else {
      assert pad + s == s;
    }
  }

  lemma {:induction false} TrimEndPad(s: string, pad: string)
    requires forall c :: c in pad ==> IsTrimmed(c)
    requires s != [] && !IsTrimmed(s[|s| - 1])
    ensures TrimEnd(s + pad) == s
  {
    if pad != [] {
      assert (s + pad)[..|s + pad| - 1] == s + pad[..|pad| - 1];
      assert pad[|pad| - 1] in pad;
      TrimEndPad(s, pad[..|pad| - 1]);
    } else {
      assert s + pad == s;
    }
  }

  /** A file with an unsupported extension fails with a message naming
      the extension, whatever the converter would do; a same-format file
      is copied with its own bytes; only the others reach the converter,
      once. */
  lemma LambdaResultCases(f: FilePart, k: nat, outputFormat: string, convert: nat -> Result<Bytes>,
                          other: nat -> Result<Bytes>)
    ensures var ext := FileExtension(f.filename);
      var r := LambdaResult(f, k, outputFormat, convert);
      && r.filename == ReplaceExtension(f.filename, outputFormat)
      && r.originalName == f.filename
      && (ext !in SUPPORTED_FORMATS ==> r.status == Failed && r.error == Some(UnsupportedError(ext)))
      && (ext in SUPPORTED_FORMATS && ext == outputFormat ==> r.status == Copied && r.data == f.data)
      && (ext in SUPPORTED_FORMATS && ext != outputFormat ==>
            (r.status == Converted <==> convert(k).Ok?)
            && (convert(k).Ok? ==> r.data == convert(k).value)
            && (convert(k).Err? ==> r.status == Failed && r.error == Some(convert(k).error)))
      && (ext !in SUPPORTED_FORMATS || ext == outputFormat ==> r == LambdaResult(f, k, outputFormat, other))
  {
  }

  /** When the files reach the converter: a 500 listing every file when
      none succeeded, otherwise an archive of exactly the successful
      results and a summary whose counts add up to the number of file
      parts. */
  lemma LambdaAnswerFacts(files: seq<FilePart>, outputFormat: string, convert: nat -> Result<Bytes>)
    ensures var results := LambdaResults(files, outputFormat, convert);
      var r := LambdaAnswer(results);
      && (CountStatus(results, Failed) == |files| ==>
            r == Json(500, "All conversions failed", AllDetails(results)))
      && (CountStatus(results, Failed) < |files| ==>
            && r.Zip?
            && r.entries == ArchiveOf(Successful(results))
            && r.summary.total == |files|
            && r.summary.converted + r.summary.copied + r.summary.failed == r.summary.total
            && |r.summary.failures| == r.summary.failed)
  {
    StatusCountsAdd(LambdaResults(files, outputFormat, convert));
  }
}
