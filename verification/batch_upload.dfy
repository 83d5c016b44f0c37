/** The command-line side of `scripts/batch-upload.ts`: the option parser
    and the scan of a directory tree for files with a supported extension.
    The process arguments are a list of strings, `Date.now()` a parameter,
    and the directory tree a value read once (what `readdirSync` lists, in
    its order). */
module BatchUpload {
  import opened Common

  // ------------------------------------------------------------ options

  /** The parsed options; `None` is the `undefined` a value flag at the end
      of the arguments leaves in its field. */
  datatype Options = Options(
    directory: string,
    format: Option<string>,
    output: Option<string>,
    url: Option<string>,
    recursive: bool,
    dryRun: bool)

  /** Printing the usage text and exiting with 0, or running with options. */
  datatype ParseOutcome = Usage | Run(options: Options)

  const DEFAULT_URL := "http://localhost:3000/api/convert"

  predicate IsHelp(arg: string) {
    arg == "--help" || arg == "-h"
  }

  predicate IsFormatFlag(arg: string) { arg == "--format" || arg == "-f" }
  predicate IsOutputFlag(arg: string) { arg == "--output" || arg == "-o" }
  predicate IsUrlFlag(arg: string) { arg == "--url" || arg == "-u" }
  predicate IsRecursiveFlag(arg: string) { arg == "--recursive" || arg == "-r" }
  predicate IsDryRunFlag(arg: string) { arg == "--dry-run" }

  /** A flag that takes the next argument as its value. */
  predicate TakesValue(arg: string) {
    IsFormatFlag(arg) || IsOutputFlag(arg) || IsUrlFlag(arg)
  }

  /** An argument the parser recognises. */
  predicate IsKnown(arg: string) {
    TakesValue(arg) || IsRecursiveFlag(arg) || IsDryRunFlag(arg)
  }

  /** The options before the loop: the directory, PDF, a time-stamped
      archive name, the local API and both switches off. */
  function Defaults(directory: string, now: nat): Options {
    Options(directory, Some("pdf"), Some("converted-" + Decimal(now) + ".zip"), Some(DEFAULT_URL), false, false)
  }

  /** `args[j]`, which is `undefined` past the end. */
  function ValueAt(args: seq<string>, j: nat): Option<string> {
    if j < |args| then Some(args[j]) else None
  }

  /** The option loop from position `i` on, starting from options `o`. */
  function ParseFrom(args: seq<string>, i: nat, o: Options): Options
    decreases |args| - i
  {
    if i >= |args| then o
    else
      var arg := args[i];
      if IsFormatFlag(arg) then ParseFrom(args, i + 2, o.(format := ValueAt(args, i + 1)))
      else if IsOutputFlag(arg) then ParseFrom(args, i + 2, o.(output := ValueAt(args, i + 1)))
      else if IsUrlFlag(arg) then ParseFrom(args, i + 2, o.(url := ValueAt(args, i + 1)))
      else if IsRecursiveFlag(arg) then ParseFrom(args, i + 1, o.(recursive := true))
      else if IsDryRunFlag(arg) then ParseFrom(args, i + 1, o.(dryRun := true))
      else ParseFrom(args, i + 1, o)
  }

  /** `parseArgs` */
  function Parse(args: seq<string>, now: nat): ParseOutcome {
    if |args| == 0 || IsHelp(args[0]) then Usage
    else Run(ParseFrom(args, 1, Defaults(args[0], now)))
  }

  /** Where the option loop stops when it starts at `i`: at the end of the
      arguments, or one past it when the last flag was missing its value. */
  function ScanEnd(args: seq<string>, i: nat): (e: nat)
    ensures i <= e && (i <= |args| ==> e <= |args| + 1)
    decreases |args| - i
  {
    if i >= |args| then i
    else if TakesValue(args[i]) then ScanEnd(args, i + 2)
    else ScanEnd(args, i + 1)
  }

  /** `parseArgs` as written: an index loop that advances past a flag's
      value with `args[++i]`. */
  method ParseArgs(args: seq<string>, now: nat) returns (r: ParseOutcome)
    ensures r == Parse(args, now)
  {
    if |args| == 0 || IsHelp(args[0]) {
      return Usage;
    }
    var options := Defaults(args[0], now);
    var i: nat := 1;
    while i < |args|
      invariant 1 <= i <= |args| + 1
      invariant ParseFrom(args, i, options) == ParseFrom(args, 1, Defaults(args[0], now))
      decreases |args| + 1 - i
    {
      var arg := args[i];
      if IsFormatFlag(arg) {
        i := i + 1;
        options := options.(format := ValueAt(args, i));
      } else if IsOutputFlag(arg) {
        i := i + 1;
        options := options.(output := ValueAt(args, i));
      } else if IsUrlFlag(arg) {
        i := i + 1;
        options := options.(url := ValueAt(args, i));
      } else if IsRecursiveFlag(arg) {
        options := options.(recursive := true);
      } else if IsDryRunFlag(arg) {
        options := options.(dryRun := true);
      }
      i := i + 1;
    }
    r := Run(options);
  }

  /** No arguments, or a first argument asking for help, print the usage;
      anything else runs, with the first argument as the directory. */
  lemma UsageCases(args: seq<string>, now: nat)
    ensures Parse(args, now) == Usage <==> |args| == 0 || IsHelp(args[0])
    ensures Parse(args, now).Run? ==> Parse(args, now).options.directory == args[0]
  {
    if |args| > 0 && !IsHelp(args[0]) {
      ParseFromKeepsDirectory(args, 1, Defaults(args[0], now));
    }
  }

  lemma {:induction false} ParseFromKeepsDirectory(args: seq<string>, i: nat, o: Options)
    ensures ParseFrom(args, i, o).directory == o.directory
    decreases |args| - i
  {
    if i < |args| {
      var arg := args[i];
      if TakesValue(arg) {
        ParseFromKeepsDirectory(args, i + 2, o.(format := ValueAt(args, i + 1)));
        ParseFromKeepsDirectory(args, i + 2, o.(output := ValueAt(args, i + 1)));
        ParseFromKeepsDirectory(args, i + 2, o.(url := ValueAt(args, i + 1)));
      } else if IsRecursiveFlag(arg) {
        ParseFromKeepsDirectory(args, i + 1, o.(recursive := true));
      } else if IsDryRunFlag(arg) {
        ParseFromKeepsDirectory(args, i + 1, o.(dryRun := true));
      } else {
        ParseFromKeepsDirectory(args, i + 1, o);
      }
    }
  }

  /** A directory alone gives the defaults. */
  lemma DirectoryAlone(directory: string, now: nat)
    requires !IsHelp(directory)
    ensures Parse([directory], now) == Run(Defaults(directory, now))
  {
  }

  /** Arguments the loop consumed exactly are parsed the same with more
      after them, and the rest continues from the options they gave. */
  lemma {:induction false} ParseFromAppend(args: seq<string>, extra: seq<string>, i: nat, o: Options)
    requires ScanEnd(args, i) == |args|
    ensures ParseFrom(args + extra, i, o) == ParseFrom(args + extra, |args|, ParseFrom(args, i, o))
    ensures ScanEnd(args + extra, i) == ScanEnd(args + extra, |args|)
    decreases |args| - i
  {
    var all := args + extra;
    if i < |args| {
      var arg := args[i];
      assert all[i] == arg;
      if TakesValue(arg) {
        assert i + 1 < |args|;
        assert all[i + 1] == args[i + 1];
        ParseFromAppend(args, extra, i + 2, o.(format := ValueAt(args, i + 1)));
        ParseFromAppend(args, extra, i + 2, o.(output := ValueAt(args, i + 1)));
        ParseFromAppend(args, extra, i + 2, o.(url := ValueAt(args, i + 1)));
      } else if IsRecursiveFlag(arg) {
        ParseFromAppend(args, extra, i + 1, o.(recursive := true));
      } else if IsDryRunFlag(arg) {
        ParseFromAppend(args, extra, i + 1, o.(dryRun := true));
      } else {
        ParseFromAppend(args, extra, i + 1, o);
      }
    }
  }

  /** A value flag followed by a value, after arguments the loop consumed
      exactly, sets its field to that value whatever an earlier
      occurrence set, and leaves every other field as it was. */
  lemma LaterValueOverrides(args: seq<string>, flag: string, v: string, now: nat)
    requires |args| > 0 && !IsHelp(args[0]) && ScanEnd(args, 1) == |args|
    requires TakesValue(flag)
    ensures Parse(args + [flag, v], now).Run?
    ensures var o := Parse(args, now).options;
      Parse(args + [flag, v], now).options ==
        if IsFormatFlag(flag) then o.(format := Some(v))
        else if IsOutputFlag(flag) then o.(output := Some(v))
        else o.(url := Some(v))
    ensures ScanEnd(args + [flag, v], 1) == |args| + 2
  {
    var all := args + [flag, v];
    ParseFromAppend(args, [flag, v], 1, Defaults(args[0], now));
    assert all[0] == args[0] && all[|args|] == flag && all[|args| + 1] == v;
  }

  /** A value flag as the last argument leaves its field `undefined`. */
  lemma DanglingValueFlag(args: seq<string>, flag: string, now: nat)
    requires |args| > 0 && !IsHelp(args[0]) && ScanEnd(args, 1) == |args|
    requires TakesValue(flag)
    ensures Parse(args + [flag], now).Run?
    ensures var o := Parse(args, now).options;
      Parse(args + [flag], now).options ==
        if IsFormatFlag(flag) then o.(format := None)
        else if IsOutputFlag(flag) then o.(output := None)
        else o.(url := None)
  {
    var all := args + [flag];
    ParseFromAppend(args, [flag], 1, Defaults(args[0], now));
    assert all[0] == args[0] && all[|args|] == flag;
  }

  /** `--recursive`/`-r` and `--dry-run` switch their flag on and change
      nothing else. */
  lemma SwitchesSet(args: seq<string>, flag: string, now: nat)
    requires |args| > 0 && !IsHelp(args[0]) && ScanEnd(args, 1) == |args|
    requires IsRecursiveFlag(flag) || IsDryRunFlag(flag)
    ensures Parse(args + [flag], now).Run?
    ensures var o := Parse(args, now).options;
      Parse(args + [flag], now).options ==
        if IsRecursiveFlag(flag) then o.(recursive := true) else o.(dryRun := true)
    ensures ScanEnd(args + [flag], 1) == |args| + 1
  {
    var all := args + [flag];
    ParseFromAppend(args, [flag], 1, Defaults(args[0], now));
    assert all[0] == args[0] && all[|args|] == flag;
    LastSwitch(all, ParseFrom(args, 1, Defaults(args[0], now)));
  }

  /** The loop's last step on a final switch. */
  lemma LastSwitch(all: seq<string>, o: Options)
    requires |all| > 0 && (IsRecursiveFlag(all[|all| - 1]) || IsDryRunFlag(all[|all| - 1]))
    ensures ParseFrom(all, |all| - 1, o) ==
      if IsRecursiveFlag(all[|all| - 1]) then o.(recursive := true) else o.(dryRun := true)
    ensures ScanEnd(all, |all| - 1) == |all|
  {
    var flag := all[|all| - 1];
    assert !IsFormatFlag(flag) && !IsOutputFlag(flag) && !IsUrlFlag(flag);
  }

  /** An argument the parser does not know is skipped. */
  lemma UnknownIgnored(args: seq<string>, arg: string, now: nat)
    requires |args| > 0 && !IsHelp(args[0]) && ScanEnd(args, 1) == |args|
    requires !IsKnown(arg)
    ensures Parse(args + [arg], now) == Parse(args, now)
    ensures ScanEnd(args + [arg], 1) == |args| + 1
  {
    var all := args + [arg];
    ParseFromAppend(args, [arg], 1, Defaults(args[0], now));
    assert all[0] == args[0] && all[|args|] == arg;
  }

  // ------------------------------------------------------ file collection

  const SUPPORTED_EXTENSIONS: set<string> := {
    ".docx", ".doc", ".xlsx", ".xls", ".pptx", ".ppt",
    ".odt", ".ods", ".odp", ".rtf", ".txt", ".csv", ".html",
    ".pdf", ".png", ".jpg", ".jpeg", ".svg"
  }

  /** A directory entry as `readdirSync(..., { withFileTypes: true })`
      lists it: a regular file, a directory with its own listing, or
      anything else (a link, a socket, ...). */
  datatype Entry = File(name: string) | Directory(name: string, entries: seq<Entry>) | Other(name: string)

  /** `path.extname` of a name without `/`: from the last `.` on, unless
      there is none, it is the first character, or the name is `..`. */
  function Extname(name: string): (ext: string)
    ensures ext == [] || (ext[0] == '.' && '.' !in ext[1..])
  {
    match LastIndexOf(name, '.')
    case None => ""
    case Some(k) =>
      LastIndexOfSpec(name, '.');
      if k == 0 || name == ".." then "" else name[k..]
  }

  /** `path.extname` on the shapes of name it tells apart: no dot gives
      "", a dot after a non-empty stem gives the dot and what follows (just
      "." for a trailing dot), a single leading dot gives "", and a second
      leading dot starts the extension unless the name is "..". */
  lemma ExtnameCases(stem: string, e: string)
    requires '.' !in stem && '.' !in e
    ensures Extname(stem) == ""
    ensures stem != [] ==> Extname(stem + "." + e) == "." + e
    ensures Extname("." + e) == ""
    ensures Extname(".." + e) == if e == [] then "" else "." + e
  {
    LastIndexOfSpec(stem, '.');
    var dotted := stem + ".";
    assert LastIndexOf(dotted, '.') == Some(|stem|);
    LastIndexOfAppend(dotted, e, '.');
    assert (dotted + e)[|stem|..] == "." + e;
    assert stem + "." + e == dotted + e;
    LastIndexOfAppend(".", e, '.');
    LastIndexOfAppend("..", e, '.');
    assert LastIndexOf("..", '.') == Some(1);
    if e == [] {
      assert ".." + e == "..";
    } else {
      assert |".." + e| > 2;
      assert (".." + e)[1..] == "." + e;
    }
  }

  /** A file name `collectFiles` keeps. */
  predicate IsSupportedName(name: string) {
    Lower(Extname(name)) in SUPPORTED_EXTENSIONS
  }

  /** Entry names, as `readdirSync` lists them: not empty, without `/`,
      and never `.` or `..`. */
  predicate WellNamed(entries: seq<Entry>)
    decreases entries
  {
    forall k :: 0 <= k < |entries| ==>
      PlainName(entries[k].name) && (entries[k].Directory? ==> WellNamed(entries[k].entries))
  }

  /** The paths `collectFiles` returns for the listing `entries` of
      directory `dir`, in listing order, depth first. */
  function Collected(dir: string, entries: seq<Entry>, recursive: bool): seq<string>
    decreases entries
  {
    if entries == [] then []
    else Collected(dir, entries[..|entries| - 1], recursive) + EntryFiles(dir, entries[|entries| - 1], recursive)
  }

  /** What one listing entry of `dir` contributes: the entry itself when it
      is a supported file, its own collection when it is a directory and the
      scan is recursive, and nothing otherwise. */
  function EntryFiles(dir: string, entry: Entry, recursive: bool): seq<string>
    decreases entry
  {
    match entry
    case File(name) => if IsSupportedName(name) then [JoinPath(dir, name)] else []
    case Directory(name, children) => if recursive then Collected(JoinPath(dir, name), children, recursive) else []
    case Other(_) => []
  }

  /** `collectFiles`: the inner `scan` over the root listing. */
  method CollectFiles(dir: string, root: seq<Entry>, recursive: bool) returns (files: seq<string>)
    ensures files == Collected(dir, root, recursive)
  {
    files := Scan(dir, root, recursive, []);
  }

  /** `scan`: push the supported files of a listing, and of its
      subdirectories when `recursive` is set, onto `files`. */
  method Scan(currentDir: string, entries: seq<Entry>, recursive: bool, files: seq<string>)
    returns (files': seq<string>)
    ensures files' == files + Collected(currentDir, entries, recursive)
    decreases entries
  {
    files' := files;
    for k := 0 to |entries|
      invariant files' == files + Collected(currentDir, entries[..k], recursive)
    {
      CollectedStep(files, files', currentDir, entries, k, recursive);
      files' := ScanEntry(currentDir, entries[k], recursive, files');
    }
    assert entries[..|entries|] == entries;
  }

  /** Pushing the next entry's files keeps the invariant of `scan`. */
  lemma CollectedStep(files: seq<string>, acc: seq<string>, dir: string, entries: seq<Entry>, k: nat, recursive: bool)
    requires k < |entries| && acc == files + Collected(dir, entries[..k], recursive)
    ensures acc + EntryFiles(dir, entries[k], recursive) == files + Collected(dir, entries[..k + 1], recursive)
  {
    var c := Collected(dir, entries[..k], recursive);
    var e := EntryFiles(dir, entries[k], recursive);
    var next := entries[..k + 1];
    assert next[..|next| - 1] == entries[..k] && next[|next| - 1] == entries[k];
    assert Collected(dir, next, recursive) == c + e;
    AppendAssoc(files, c, e);
  }

  /** One iteration of `scan`: a subdirectory is scanned when `recursive`
      is set, and a file is pushed when its extension is supported. */
  method ScanEntry(currentDir: string, entry: Entry, recursive: bool, files: seq<string>)
    returns (files': seq<string>)
    ensures files' == files + EntryFiles(currentDir, entry, recursive)
    decreases entry
  {
    var fullPath := JoinPath(currentDir, entry.name);
    files' := files;
    match entry {
      case Directory(_, children) => {
        if recursive {
          files' := Scan(fullPath, children, recursive, files);
        }
      }
      case File(name) => {
        var ext := Lower(Extname(name));
        if ext in SUPPORTED_EXTENSIONS {
          files' := files + [fullPath];
        }
      }
      case Other(_) => {}
    }
  }

  /** Every path collected names a file with a supported extension. */
  lemma {:induction false} CollectedSupported(dir: string, entries: seq<Entry>, recursive: bool)
    requires WellNamed(entries)
    ensures forall p :: p in Collected(dir, entries, recursive) ==> IsSupportedName(Basename(p))
    decreases entries
  {
    if entries != [] {
      var init := entries[..|entries| - 1];
      var entry := entries[|entries| - 1];
      assert WellNamed(init) by {
        forall k | 0 <= k < |init| ensures init[k] == entries[k] { }
      }
      CollectedSupported(dir, init, recursive);
      EntrySupported(dir, entry, recursive);
      assert Collected(dir, entries, recursive) == Collected(dir, init, recursive) + EntryFiles(dir, entry, recursive);
    }
  }

  lemma {:induction false} EntrySupported(dir: string, entry: Entry, recursive: bool)
    requires PlainName(entry.name) && (entry.Directory? ==> WellNamed(entry.entries))
    ensures forall p :: p in EntryFiles(dir, entry, recursive) ==> IsSupportedName(Basename(p))
    decreases entry, 0
  {
    match entry
    case File(name) => JoinPathSplits(dir, name);
    case Directory(name, children) =>
      if recursive {
        CollectedSupported(JoinPath(dir, name), children, recursive);
      }
    case Other(_) =>
  }

  /** Without `recursive`, the paths collected are exactly the supported
      files of the listing itself, joined to the directory. */
  lemma {:induction false} FlatCollection(dir: string, entries: seq<Entry>, name: string)
    ensures JoinPath(dir, name) in Collected(dir, entries, false) <== File(name) in entries && IsSupportedName(name)
    decreases entries
  {
    if entries != [] && File(name) in entries {
      var init := entries[..|entries| - 1];
      if File(name) in init {
        FlatCollection(dir, init, name);
      } else {
        assert entries == init + [entries[|entries| - 1]];
      }
    }
  }

  /** Without `recursive`, every path collected is a supported file of the
      listing itself: nothing comes from a subdirectory. */
  lemma {:induction false} FlatOrigin(dir: string, entries: seq<Entry>, p: string) returns (name: string)
    requires p in Collected(dir, entries, false)
    ensures File(name) in entries && IsSupportedName(name) && p == JoinPath(dir, name)
    decreases entries
  {
    var init := entries[..|entries| - 1];
    var entry := entries[|entries| - 1];
    assert entries == init + [entry];
    if p in Collected(dir, init, false) {
      name := FlatOrigin(dir, init, p);
    } else {
      name := entry.name;
    }
  }

  /** With `recursive`, everything collected in a subdirectory is
      collected, along with the supported files of the listing itself. */
  lemma {:induction false} RecursiveCollection(dir: string, entries: seq<Entry>, k: nat)
    requires k < |entries|
    ensures entries[k].File? && IsSupportedName(entries[k].name) ==>
      JoinPath(dir, entries[k].name) in Collected(dir, entries, true)
    ensures entries[k].Directory? ==>
      forall p :: p in Collected(JoinPath(dir, entries[k].name), entries[k].entries, true) ==> p in Collected(dir, entries, true)
    decreases entries
  {
    var init := entries[..|entries| - 1];
    assert entries == init + [entries[|entries| - 1]];
    if k < |init| {
      assert init[k] == entries[k];
      RecursiveCollection(dir, init, k);
    }
  }

  /** The flat collection is the part of the recursive one that lies in the
      directory itself. */
  lemma {:induction false} FlatWithinRecursive(dir: string, entries: seq<Entry>)
    ensures forall p :: p in Collected(dir, entries, false) ==> p in Collected(dir, entries, true)
    decreases entries
  {
    if entries != [] {
      var init := entries[..|entries| - 1];
      FlatWithinRecursive(dir, init);
    }
  }
}
