/** Values and text helpers shared by the browser app, the API route, the
    lambda and the upload script: an Option/Result pair for the source's
    `undefined` values and thrown errors, byte strings, ASCII lowercasing,
    the `split('.').pop()` extension rule, the `.ext` rewrite used for
    output names, and decimal rendering of numbers. */
module Common {

  datatype Option<T> = None | Some(value: T)

  /** A computation that either yields a value or throws an error message. */
  datatype Result<T> = Ok(value: T) | Err(error: string)

  /** An octet of a Node `Buffer` / `Uint8Array`. */
  newtype byte = x: int | 0 <= x < 256

  type Bytes = seq<byte>

  /** Concatenation regroups freely. */
  lemma AppendAssoc<T>(a: seq<T>, b: seq<T>, c: seq<T>)
    ensures (a + b) + c == a + (b + c)
  {
  }

  /** A non-empty sequence is its front and its last element. */
  lemma LastSplit<T>(s: seq<T>)
    requires s != []
    ensures s == s[..|s| - 1] + [s[|s| - 1]]
  {
  }

  /** Appending leaves the earlier elements where they were. */
  lemma SnocIndex<T>(a: seq<T>, x: T, j: nat)
    requires j < |a|
    ensures (a + [x])[j] == a[j]
  {
  }

  // ---------------------------------------------------------------- case

  function LowerChar(c: char): char {
    if 'A' <= c <= 'Z' then (c as int + 32) as char else c
  }

  /** `toLowerCase()` restricted to ASCII letters. */
  function Lower(s: string): (r: string)
    ensures |r| == |s|
  {
    if s == [] then [] else [LowerChar(s[0])] + Lower(s[1..])
  }

  /** Lowercasing maps each character on its own and keeps the length. */
  lemma {:induction false} LowerSpec(s: string)
    ensures |Lower(s)| == |s|
    ensures forall i :: 0 <= i < |s| ==> Lower(s)[i] == LowerChar(s[i])
  {
    if s != [] {
      LowerSpec(s[1..]);
    }
  }

  lemma LowerKeepsDots(s: string)
    ensures '.' in Lower(s) <==> '.' in s
  {
    LowerSpec(s);
    if '.' in s {
      var i :| 0 <= i < |s| && s[i] == '.';
      assert Lower(s)[i] == '.';
    }
    if '.' in Lower(s) {
      var i :| 0 <= i < |Lower(s)| && Lower(s)[i] == '.';
      assert s[i] == '.';
    }
  }

  // ----------------------------------------------------------- extension

  /** Position of the last occurrence of `c` in `s`, if any. */
  function LastIndexOf(s: string, c: char): (r: Option<nat>)
    ensures r.Some? ==> r.value < |s|
  {
    if |s| == 0 then None
    else if s[|s| - 1] == c then Some(|s| - 1)
    else LastIndexOf(s[..|s| - 1], c)
  }

  lemma {:induction false} LastIndexOfSpec(s: string, c: char)
    ensures var r := LastIndexOf(s, c);
      && (r.None? <==> c !in s)
      && (r.Some? ==> r.value < |s| && s[r.value] == c && c !in s[r.value + 1..])
  {
    if |s| > 0 && s[|s| - 1] != c {
      var init := s[..|s| - 1];
      LastIndexOfSpec(init, c);
      assert s == init + [s[|s| - 1]];
      var r := LastIndexOf(init, c);
      if r.Some? {
        assert s[r.value + 1..] == init[r.value + 1..] + [s[|s| - 1]];
      }
    }
  }

  /** `filename.split('.').pop()?.toLowerCase() || ''`: the lowercased text
      after the last dot, or the whole name lowercased when it has no dot. */
  function FileExtension(name: string): (ext: string)
    ensures |ext| <= |name|
  {
    match LastIndexOf(name, '.')
    case None => Lower(name)
    case Some(k) => Lower(name[k + 1..])
  }

  /** The extension is the lowercased longest dot-free suffix of the name:
      that suffix is preceded by a dot unless it is the whole name. */
  lemma FileExtensionSpec(name: string)
    ensures var ext := FileExtension(name);
      && |ext| <= |name|
      && ext == Lower(name[|name| - |ext|..])
      && '.' !in name[|name| - |ext|..]
      && (|ext| < |name| ==> name[|name| - |ext| - 1] == '.')
  {
    var ext := FileExtension(name);
    match LastIndexOf(name, '.')
    case None =>
      assert '.' !in name by { LastIndexOfSpec(name, '.'); }
      assert |ext| == |name|;
      assert name[|name| - |ext|..] == name;
    case Some(k) =>
      var tail := name[k + 1..];
      assert '.' !in tail && name[k] == '.' by { LastIndexOfSpec(name, '.'); }
      assert ext == Lower(tail);
      assert |ext| == |tail|;
      assert name[|name| - |ext|..] == tail;
  }

  /** `name.replace(/\.[^.]+$/, '.' + format)`: a final dot followed by at
      least one non-dot character is replaced by `.format`; a name without
      such a suffix is returned unchanged. */
  function ReplaceExtension(name: string, format: string): string {
    match LastIndexOf(name, '.')
    case None => name
    case Some(k) => if k + 1 < |name| then name[..k + 1] + format else name
  }

  /** Only a non-empty extension after a dot is replaced, and the stem up
      to and including the dot is kept. */
  lemma ReplaceExtensionSpec(name: string, format: string)
    ensures var e := |FileExtension(name)|;
      if '.' in name && e > 0 then ReplaceExtension(name, format) == name[..|name| - e] + format
      else ReplaceExtension(name, format) == name
  {
    LastIndexOfSpec(name, '.');
    match LastIndexOf(name, '.')
    case None =>
    case Some(k) =>
      LowerSpec(name[k + 1..]);
  }

  /** Appending text without `c` does not move the last `c`. */
  lemma {:induction false} LastIndexOfAppend(a: string, b: string, c: char)
    requires c !in b
    ensures LastIndexOf(a + b, c) == LastIndexOf(a, c)
  {
    if b == [] {
      assert a + b == a;
    } else {
      var init := b[..|b| - 1];
      assert (a + b)[..|a + b| - 1] == a + init;
      assert (a + b)[|a + b| - 1] == b[|b| - 1];
      assert b == init + [b[|b| - 1]];
      LastIndexOfAppend(a, init, c);
    }
  }

  // ---------------------------------------------------------------- paths

  /** `p.split('/')`: the text between slashes, from left to right. */
  function Segments(p: string): (r: seq<string>)
    ensures |r| >= 1
  {
    if p == [] then [""]
    else
      var s := Segments(p[..|p| - 1]);
      if p[|p| - 1] == '/' then s + [""] else s[..|s| - 1] + [s[|s| - 1] + [p[|p| - 1]]]
  }

  /** The segments left after resolving, left to right, the segments of a
      path as POSIX `path.normalize` does: empty and `.` segments vanish, a
      `..` removes the segment before it, and a `..` with nothing to remove
      is kept in a relative path and dropped in an absolute one. */
  function Resolve(segs: seq<string>, absolute: bool): seq<string> {
    if segs == [] then []
    else
      var out := Resolve(segs[..|segs| - 1], absolute);
      var s := segs[|segs| - 1];
      if s == "" || s == "." then out
      else if s == ".." then
        if |out| > 0 && out[|out| - 1] != ".." then out[..|out| - 1]
        else if absolute then out
        else out + [".."]
      else out + [s]
  }

  /** `segs.join('/')`. */
  function JoinSegments(segs: seq<string>): string {
    if segs == [] then ""
    else if |segs| == 1 then segs[0]
    else JoinSegments(segs[..|segs| - 1]) + "/" + segs[|segs| - 1]
  }

  /** POSIX `path.normalize(p)`: a leading `/` and a trailing `/` are kept,
      the segments are resolved, and a path that resolves to nothing is
      `/`, `./` or `.`. */
  function NormalizePath(p: string): string {
    if p == [] then "."
    else
      var absolute := p[0] == '/';
      var trailing := p[|p| - 1] == '/';
      var body := JoinSegments(Resolve(Segments(p), absolute));
      if body == [] then (if absolute then "/" else if trailing then "./" else ".")
      else (if absolute then "/" else "") + body + (if trailing then "/" else "")
  }

  /** POSIX `path.join(dir, name)`: the non-empty arguments joined with `/`,
      then normalised. */
  function JoinPath(dir: string, name: string): string {
    var joined := if dir == [] then name else if name == [] then dir else dir + "/" + name;
    NormalizePath(joined)
  }

  /** `path.basename`: the text after the last `/`. */
  function Basename(path: string): string {
    match LastIndexOf(path, '/')
    case None => path
    case Some(k) => path[k + 1..]
  }

  /** The text before the last `/`, if there is one. */
  function Dirname(path: string): Option<string> {
    match LastIndexOf(path, '/')
    case None => None
    case Some(k) => Some(path[..k])
  }

  /** A directory entry name as `readdir` returns it: not empty, without
      `/`, and neither `.` nor `..`. */
  predicate PlainName(name: string) {
    name != [] && '/' !in name && name != "." && name != ".."
  }

  /** Resolved segments: none is empty, `.` or holds a `/`, and `..` occurs
      only at the start of a relative path. */
  predicate Clean(segs: seq<string>, absolute: bool) {
    forall i :: 0 <= i < |segs| ==>
      && segs[i] != "" && segs[i] != "." && '/' !in segs[i]
      && (segs[i] == ".." ==> !absolute && forall j :: 0 <= j < i ==> segs[j] == "..")
  }

  /** The directory `dir` as `path.join` normalises it: `.` when it
      resolves to nothing in a relative path, `/` in an absolute one. */
  function NormalDir(dir: string): string {
    if dir == [] then "."
    else
      var absolute := dir[0] == '/';
      var out := Resolve(Segments(dir), absolute);
      if out == [] then (if absolute then "/" else ".")
      else (if absolute then "/" else "") + JoinSegments(out)
  }

  lemma {:induction false} SegmentsNoSlash(p: string)
    ensures forall s :: s in Segments(p) ==> '/' !in s
  {
    if p != [] {
      SegmentsNoSlash(p[..|p| - 1]);
      var s := Segments(p[..|p| - 1]);
      assert s == s[..|s| - 1] + [s[|s| - 1]];
    }
  }

  /** A name without `/` after a slash is one more segment. */
  lemma {:induction false} SegmentsAppend(p: string, name: string)
    requires '/' !in name
    ensures Segments(p + "/" + name) == Segments(p) + [name]
  {
    if name == [] {
      assert p + "/" + name == p + "/";
      assert (p + "/")[..|p + "/"| - 1] == p;
    } else {
      var init := name[..|name| - 1];
      SegmentsAppend(p, init);
      var q := p + "/" + name;
      assert q[..|q| - 1] == p + "/" + init;
      assert init + [name[|name| - 1]] == name;
    }
  }

  /** Resolving never yields an empty or `.` segment, and keeps `..` only
      at the start of a relative path. */
  lemma {:induction false} ResolveClean(segs: seq<string>, absolute: bool)
    requires forall s :: s in segs ==> '/' !in s
    ensures Clean(Resolve(segs, absolute), absolute)
  {
    if segs != [] {
      var init := segs[..|segs| - 1];
      assert forall s :: s in init ==> s in segs;
      ResolveClean(init, absolute);
      var out := Resolve(init, absolute);
      assert segs[|segs| - 1] in segs;
      if |out| > 0 && out[|out| - 1] == ".." {
        assert forall j :: 0 <= j < |out| ==> out[j] == "..";
      }
    }
  }

  lemma JoinSegmentsNonEmpty(segs: seq<string>)
    requires segs != [] && segs[|segs| - 1] != "" && '/' !in segs[|segs| - 1]
    ensures JoinSegments(segs) != [] && JoinSegments(segs)[|JoinSegments(segs)| - 1] != '/'
  {
    var last := segs[|segs| - 1];
    assert last[|last| - 1] in last;
    if |segs| > 1 {
      var j := JoinSegments(segs);
      assert j == JoinSegments(segs[..|segs| - 1]) + "/" + last;
      assert j[|j| - 1] == last[|last| - 1];
    }
  }

  /** Joining to the empty directory normalises the name alone, which a
      plain name survives unchanged. */
  lemma JoinPathEmptyDir(name: string)
    requires PlainName(name)
    ensures JoinPath("", name) == name
  {
    SegmentsSingle(name);
    assert name[0] != '/' && name[|name| - 1] != '/' by { assert name[0] in name && name[|name| - 1] in name; }
    assert Resolve([name], false) == [name] by { assert [name][..0] == []; }
  }

  /** Joining a plain name to a non-empty directory appends it to the
      directory's resolved segments. */
  lemma JoinPathResolved(dir: string, name: string)
    requires PlainName(name) && dir != []
    ensures var absolute := dir[0] == '/';
      var out := Resolve(Segments(dir), absolute);
      JoinPath(dir, name) == (if absolute then "/" else "") + JoinSegments(out + [name])
  {
    var absolute := dir[0] == '/';
    var segs := Segments(dir);
    var p := dir + "/" + name;
    SegmentsAppend(dir, name);
    assert (segs + [name])[..|segs + [name]| - 1] == segs;
    assert p[0] == dir[0] && p[|p| - 1] == name[|name| - 1];
    assert name[|name| - 1] != '/' by { assert name[|name| - 1] in name; }
    JoinSegmentsNonEmpty(Resolve(segs, absolute) + [name]);
  }

  /** The joined path is the normalised directory, a `/` and the name, or
      just the name when the directory resolves to `.`. */
  lemma JoinPathShape(dir: string, name: string)
    requires PlainName(name)
    ensures var d := NormalDir(dir);
      JoinPath(dir, name) == if d == "." then name else if d == "/" then "/" + name else d + "/" + name
  {
    if dir == [] {
      JoinPathEmptyDir(name);
    } else {
      var absolute := dir[0] == '/';
      var out := Resolve(Segments(dir), absolute);
      JoinPathResolved(dir, name);
      SegmentsNoSlash(dir);
      ResolveClean(Segments(dir), absolute);
      JoinAfterClean(out, absolute, name);
    }
  }

  /** Clean resolved segments with a name after them join as the joined
      segments, a `/` and the name, or the name alone. */
  lemma JoinAfterClean(out: seq<string>, absolute: bool, name: string)
    requires Clean(out, absolute)
    ensures var d := if out == [] then (if absolute then "/" else ".") else (if absolute then "/" else "") + JoinSegments(out);
      (if absolute then "/" else "") + JoinSegments(out + [name]) ==
        if d == "." then name else if d == "/" then "/" + name else d + "/" + name
  {
    if out == [] {
      assert JoinSegments([] + [name]) == name;
    } else {
      assert JoinSegments(out + [name]) == JoinSegments(out) + "/" + name by {
        assert (out + [name])[..|out + [name]| - 1] == out;
      }
      CleanJoinNotDot(out, absolute);
    }
  }

  /** Clean segments, at least one, join to a text other than `.` and `/`
      and not ending in `/`. */
  lemma CleanJoinNotDot(out: seq<string>, absolute: bool)
    requires out != [] && Clean(out, absolute)
    ensures var j := JoinSegments(out); j != [] && j != "." && j[|j| - 1] != '/'
  {
    assert out[|out| - 1] != "" && '/' !in out[|out| - 1];
    JoinSegmentsNonEmpty(out);
    if |out| == 1 {
      assert JoinSegments(out) == out[0];
      assert out[0] != ".";
    } else {
      var j := JoinSegments(out);
      assert j == JoinSegments(out[..|out| - 1]) + "/" + out[|out| - 1];
      assert |j| > 1;
    }
  }

  /** A name without `/` after a slash is the base name, and the text
      before that slash the directory name. */
  lemma SplitAtLastSlash(d: string, name: string)
    requires '/' !in name
    ensures Basename(d + "/" + name) == name && Dirname(d + "/" + name) == Some(d)
  {
    var r := d + "/" + name;
    LastIndexOfAppend(d + "/", name, '/');
    assert LastIndexOf(d + "/", '/') == Some(|d|);
    assert r[..|d|] == d;
    assert r[|d| + 1..] == name;
  }

  /** A file name joined to a directory is the normalised directory, a `/`
      and the name (just the name when the directory resolves to `.`): the
      name is found again as the base name, and the normalised directory
      as the directory name. */
  lemma JoinPathSplits(dir: string, name: string)
    requires PlainName(name)
    ensures Basename(JoinPath(dir, name)) == name
    ensures var d := NormalDir(dir);
      JoinPath(dir, name) == if d == "." then name else if d == "/" then "/" + name else d + "/" + name
    ensures var d := NormalDir(dir);
      Dirname(JoinPath(dir, name)) == if d == "." then None else if d == "/" then Some("") else Some(d)
  {
    JoinPathShape(dir, name);
    SplitJoined(NormalDir(dir), name);
  }

  lemma SplitJoined(d: string, name: string)
    requires '/' !in name
    ensures var p := if d == "." then name else if d == "/" then "/" + name else d + "/" + name;
      Basename(p) == name && Dirname(p) == if d == "." then None else if d == "/" then Some("") else Some(d)
  {
    if d == "." {
      LastIndexOfSpec(name, '/');
    } else if d == "/" {
      SplitAtLastSlash("", name);
      assert "" + "/" + name == "/" + name;
    } else {
      SplitAtLastSlash(d, name);
    }
  }

  /** Text without `/` is a single segment. */
  lemma {:induction false} SegmentsSingle(s: string)
    requires '/' !in s
    ensures Segments(s) == [s]
  {
    if s != [] {
      var init := s[..|s| - 1];
      assert forall c :: c in init ==> c in s;
      SegmentsSingle(init);
      assert s[|s| - 1] in s;
      assert init + [s[|s| - 1]] == s;
    }
  }

  /** Joining a name to a directory or to its normal form names the same
      path, and normalising a normal directory changes nothing. */
  lemma JoinPathNormalDir(dir: string, name: string)
    requires PlainName(name)
    ensures NormalDir(NormalDir(dir)) == NormalDir(dir)
    ensures JoinPath(NormalDir(dir), name) == JoinPath(dir, name)
  {
    NormalDirIdempotent(dir);
    JoinPathShape(dir, name);
    JoinPathShape(NormalDir(dir), name);
  }

  lemma NormalDirIdempotent(dir: string)
    ensures NormalDir(NormalDir(dir)) == NormalDir(dir)
  {
    if dir == [] {
      NormalDot();
    } else {
      var absolute := dir[0] == '/';
      var out := Resolve(Segments(dir), absolute);
      if out == [] {
        if absolute { NormalSlash(); } else { NormalDot(); }
      } else {
        SegmentsNoSlash(dir);
        ResolveClean(Segments(dir), absolute);
        NormalDirOfClean(out, absolute);
      }
    }
  }

  lemma NormalDot()
    ensures NormalDir(".") == "."
  {
    SegmentsSingle(".");
    assert Resolve(["."], false) == [] by { assert ["."][..0] == []; }
  }

  lemma NormalSlash()
    ensures NormalDir("/") == "/"
  {
    SegmentsAppend("", "");
    assert "" + "/" + "" == "/";
    assert Resolve(["", ""], true) == [] by {
      assert ["", ""][..1] == [""] && [""][..0] == [];
    }
  }

  /** A directory written from clean segments is its own normal form. */
  lemma NormalDirOfClean(out: seq<string>, absolute: bool)
    requires out != [] && Clean(out, absolute)
    ensures var d := (if absolute then "/" else "") + JoinSegments(out); NormalDir(d) == d
  {
    var d := (if absolute then "/" else "") + JoinSegments(out);
    CleanJoinNotDot(out, absolute);
    JoinSegmentsHead(out);
    assert out[0] != "" && '/' !in out[0];
    assert out[0][0] in out[0];
    assert d[0] == '/' <==> absolute;
    SegmentsOfJoin(out, absolute);
    ResolveFixed(out, absolute);
  }

  lemma {:induction false} JoinSegmentsHead(out: seq<string>)
    requires out != [] && out[0] != ""
    ensures JoinSegments(out) != [] && JoinSegments(out)[0] == out[0][0]
  {
    if |out| > 1 {
      var init := out[..|out| - 1];
      JoinSegmentsHead(init);
    }
  }

  /** Splitting text written from segments without `/` gives the segments
      back, after an empty one when the text starts with `/`. */
  lemma {:induction false} SegmentsOfJoin(out: seq<string>, absolute: bool)
    requires out != [] && forall i :: 0 <= i < |out| ==> '/' !in out[i]
    ensures Segments((if absolute then "/" else "") + JoinSegments(out)) == (if absolute then [""] else []) + out
  {
    var pre := if absolute then "/" else "";
    var lead: seq<string> := if absolute then [""] else [];
    if |out| == 1 {
      SegmentsOfOne(out[0], absolute);
      assert JoinSegments(out) == out[0];
      assert lead + out == lead + [out[0]];
    } else {
      var init := out[..|out| - 1];
      var last := out[|out| - 1];
      var j := pre + JoinSegments(init);
      assert Segments(j) == lead + init by {
        assert forall i :: 0 <= i < |init| ==> init[i] == out[i];
        SegmentsOfJoin(init, absolute);
      }
      assert pre + JoinSegments(out) == j + "/" + last by { PrefixJoin(pre, out); }
      assert Segments(j + "/" + last) == Segments(j) + [last] by { SegmentsAppend(j, last); }
      LastSplit(out);
      AppendAssoc(lead, init, [last]);
    }
  }

  lemma PrefixJoin(pre: string, out: seq<string>)
    requires |out| > 1
    ensures pre + JoinSegments(out) == (pre + JoinSegments(out[..|out| - 1])) + "/" + out[|out| - 1]
  {
  }

  lemma SegmentsOfOne(s: string, absolute: bool)
    requires '/' !in s
    ensures Segments((if absolute then "/" else "") + s) == (if absolute then [""] else []) + [s]
  {
    if absolute {
      SegmentsAppend("", s);
      assert "" + "/" + s == "/" + s;
    } else {
      SegmentsSingle(s);
      assert "" + s == s;
    }
  }

  /** Resolving clean segments, after the empty one of a leading `/`,
      changes nothing. */
  lemma {:induction false} ResolveFixed(out: seq<string>, absolute: bool)
    requires Clean(out, absolute)
    ensures Resolve((if absolute then [""] else []) + out, absolute) == out
  {
    var lead: seq<string> := if absolute then [""] else [];
    if out == [] {
      assert lead + out == lead;
      if absolute { assert [""][..0] == []; }
    } else {
      var init := out[..|out| - 1];
      var last := out[|out| - 1];
      assert Resolve(lead + init, absolute) == init by {
        assert Clean(init, absolute);
        ResolveFixed(init, absolute);
      }
      assert out == init + [last];
      var s := lead + out;
      assert s[..|s| - 1] == lead + init && s[|s| - 1] == last;
      assert last != "" && last != ".";
      assert last == ".." ==> !absolute && (init == [] || init[|init| - 1] == "..");
    }
  }

  /** Redundant separators and `.` and `..` segments in the directory do
      not reach the joined path: `./d`, `d/` and `d//b/..` all join a name
      as `d/name`, and `.` adds nothing. */
  lemma JoinPathNormalises(d: string, b: string, name: string)
    requires PlainName(d) && PlainName(b) && PlainName(name)
    ensures JoinPath("./" + d, name) == d + "/" + name
    ensures JoinPath(d + "/", name) == d + "/" + name
    ensures JoinPath(d + "//" + b + "/..", name) == d + "/" + name
    ensures JoinPath(".", name) == name
  {
    NormalDotDir(d);
    JoinPathShape("./" + d, name);
    NormalDirSlash(d);
    JoinPathShape(d + "/", name);
    NormalDirUp(d, b);
    JoinPathShape(d + "//" + b + "/..", name);
    NormalDot();
    JoinPathShape(".", name);
  }

  lemma ResolveOne(d: string)
    requires PlainName(d)
    ensures Resolve([d], false) == [d] && JoinSegments([d]) == d
  {
    assert [d][..0] == [];
  }

  lemma NormalDotDir(d: string)
    requires PlainName(d)
    ensures NormalDir("./" + d) == d
  {
    SegmentsDotDir(d);
    assert Resolve([".", d], false) == [d] by {
      assert [".", d][..1] == ["."] && ["."][..0] == [];
    }
    ResolveOne(d);
  }

  lemma SegmentsDotDir(d: string)
    requires PlainName(d)
    ensures Segments("./" + d) == [".", d]
  {
    SegmentsSingle(".");
    SegmentsAppend(".", d);
    assert "." + "/" + d == "./" + d;
  }

  lemma NormalDirSlash(d: string)
    requires PlainName(d)
    ensures NormalDir(d + "/") == d
  {
    SegmentsSingle(d);
    SegmentsAppend(d, "");
    assert d + "/" + "" == d + "/";
    var s := [d, ""];
    assert s[..1] == [d];
    ResolveOne(d);
    assert Resolve(s, false) == [d];
    assert (d + "/")[0] == d[0];
    assert d[0] != '/' by { assert d[0] in d; }
  }

  lemma NormalDirUp(d: string, b: string)
    requires PlainName(d) && PlainName(b)
    ensures NormalDir(d + "//" + b + "/..") == d
  {
    var p := d + "//" + b + "/..";
    SegmentsUp(d, b);
    ResolveUp(d, b);
    ResolveOne(d);
    assert p[0] == d[0];
    assert d[0] != '/' by { assert d[0] in d; }
  }

  lemma SegmentsUp(d: string, b: string)
    requires PlainName(d) && PlainName(b)
    ensures Segments(d + "//" + b + "/..") == [d, "", b, ".."]
  {
    SegmentsUpJoined(d, b);
    assert d + "/" + "" + "/" + b + "/" + ".." == d + "//" + b + "/..";
  }

  lemma SegmentsUpJoined(d: string, b: string)
    requires PlainName(d) && PlainName(b)
    ensures Segments(d + "/" + "" + "/" + b + "/" + "..") == [d, "", b, ".."]
  {
    SegmentsSingle(d);
    SegmentsAppend(d, "");
    SegmentsAppend(d + "/" + "", b);
    SegmentsAppend(d + "/" + "" + "/" + b, "..");
  }

  lemma ResolveUp(d: string, b: string)
    requires PlainName(d) && PlainName(b)
    ensures Resolve([d, "", b, ".."], false) == [d]
  {
    var s := [d, "", b, ".."];
    assert s[..3] == [d, "", b];
    assert s[..3][..2] == [d, ""];
    assert s[..3][..2][..1] == [d];
    ResolveOne(d);
    assert Resolve([d, ""], false) == [d];
    assert Resolve([d, "", b], false) == [d, b];
  }

  /** The output name carries the target format as its extension whenever
      the input name had an extension to replace, and keeps the stem. */
  lemma {:induction false} OutputNameTakesFormat(name: string, format: string)
    requires '.' in name && FileExtension(name) != ""
    requires format != [] && '.' !in format && Lower(format) == format
    ensures FileExtension(ReplaceExtension(name, format)) == format
    ensures var r := ReplaceExtension(name, format);
      |r| >= |format| && r[..|r| - |format|] == name[..|name| - |FileExtension(name)|]
  {
    var e := |FileExtension(name)|;
    var stem := name[..|name| - e];
    var r := ReplaceExtension(name, format);
    assert r == stem + format by { ReplaceExtensionSpec(name, format); }
    DottedExtension(name);
    ExtensionAfterStem(stem, format);
    assert r[..|r| - |format|] == stem;
  }

  /** In a name with a dot, the extension is preceded by the last dot. */
  lemma DottedExtension(name: string)
    requires '.' in name
    ensures |FileExtension(name)| < |name|
    ensures name[|name| - |FileExtension(name)| - 1] == '.'
  {
    LastIndexOfSpec(name, '.');
    var k := LastIndexOf(name, '.').value;
    assert |FileExtension(name)| == |name[k + 1..]|;
  }

  /** A stem ending in a dot followed by a dot-free text has that text,
      lowercased, as its extension. */
  lemma ExtensionAfterStem(stem: string, format: string)
    requires stem != [] && stem[|stem| - 1] == '.' && '.' !in format
    ensures FileExtension(stem + format) == Lower(format)
  {
    var r := stem + format;
    assert LastIndexOf(stem, '.') == Some(|stem| - 1);
    assert LastIndexOf(r, '.') == Some(|stem| - 1) by { LastIndexOfAppend(stem, format, '.'); }
    assert r[|stem|..] == format;
  }

  /** An extension as it appears in a name: not empty, without a dot and
      already in lower case. */
  predicate LowerExtension(ext: string) {
    ext != [] && '.' !in ext && forall i :: 0 <= i < |ext| ==> !('A' <= ext[i] <= 'Z')
  }

  /** A lower-case extension after the last dot is the file's extension
      and is what the format replaces. */
  lemma SwapExtension(stem: string, ext: string, format: string)
    requires LowerExtension(ext)
    ensures FileExtension(stem + "." + ext) == ext
    ensures ReplaceExtension(stem + "." + ext, format) == stem + "." + format
  {
    var name := stem + "." + ext;
    ExtensionAfterStem(stem + ".", ext);
    LowerSpec(ext);
    assert Lower(ext) == ext;
    ReplaceExtensionSpec(name, format);
    assert name[|stem|] == '.';
    assert name[..|name| - |ext|] == stem + ".";
  }

  /** A name with no extension to replace is kept as the output name. */
  lemma OutputNameWithoutExtension(name: string, format: string)
    requires '.' !in name || FileExtension(name) == ""
    ensures ReplaceExtension(name, format) == name
  {
    ReplaceExtensionSpec(name, format);
  }

  // ------------------------------------------------------------ archives

  /** The files of a JSZip archive after `zip.file(name, data)` was called
      for each pair in turn: one file per name, holding the data of the
      last call with that name. */
  function ZipContents<T>(calls: seq<(string, T)>): map<string, T> {
    if calls == [] then map[]
    else ZipContents(calls[..|calls| - 1])[calls[|calls| - 1].0 := calls[|calls| - 1].1]
  }

  /** No call after call i uses its name. */
  predicate LastWithName<T>(calls: seq<(string, T)>, i: nat)
    requires i < |calls|
  {
    forall k :: i < k < |calls| ==> calls[k].0 != calls[i].0
  }

  /** The archive has a file for every name used and for no other, and a
      call that no later call overrides leaves its data there. */
  lemma {:induction false} ZipContentsSpec<T>(calls: seq<(string, T)>)
    ensures forall n :: n in ZipContents(calls) <==> exists i :: 0 <= i < |calls| && calls[i].0 == n
    ensures forall i :: 0 <= i < |calls| && LastWithName(calls, i) ==> ZipContents(calls)[calls[i].0] == calls[i].1
  {
    if calls != [] {
      var init := calls[..|calls| - 1];
      ZipContentsSpec(init);
      forall i | 0 <= i < |calls| && LastWithName(calls, i)
        ensures ZipContents(calls)[calls[i].0] == calls[i].1
      {
        if i < |init| {
          assert calls[i] == init[i];
          assert LastWithName(init, i);
        }
      }
      forall n | n in ZipContents(calls) ensures exists i :: 0 <= i < |calls| && calls[i].0 == n {
        if n in ZipContents(init) {
          var i :| 0 <= i < |init| && init[i].0 == n;
          assert calls[i] == init[i];
        }
      }
      forall n | exists i :: 0 <= i < |calls| && calls[i].0 == n ensures n in ZipContents(calls) {
        var i :| 0 <= i < |calls| && calls[i].0 == n;
        if i < |init| {
          assert init[i] == calls[i];
        }
      }
    }
  }

  /** With distinct names every call leaves its own file: the archive has
      exactly one file per call. */
  lemma {:induction false} ZipContentsDistinct<T>(calls: seq<(string, T)>)
    requires forall i, j :: 0 <= i < j < |calls| ==> calls[i].0 != calls[j].0
    ensures |ZipContents(calls)| == |calls|
    ensures forall i :: 0 <= i < |calls| ==>
      calls[i].0 in ZipContents(calls) && ZipContents(calls)[calls[i].0] == calls[i].1
  {
    ZipContentsSpec(calls);
    if calls != [] {
      var init := calls[..|calls| - 1];
      ZipContentsDistinct(init);
      ZipContentsSpec(init);
      assert calls[|calls| - 1].0 !in ZipContents(init);
    }
  }

  /** Two calls with one name leave a single file, holding the later data. */
  lemma ZipContentsCollision<T>(name: string, a: T, b: T)
    ensures ZipContents([(name, a), (name, b)]) == map[name := b]
    ensures |ZipContents([(name, a), (name, b)])| == 1
  {
    assert [(name, a), (name, b)][..1] == [(name, a)];
    assert [(name, a)][..0] == [];
    assert ZipContents([(name, a)]) == map[name := a];
    assert map[name := a][name := b] == map[name := b];
  }

  // ------------------------------------------------------------- numbers

  function DigitChar(d: nat): char
    requires d < 10
  {
    "0123456789"[d]
  }

  function DigitValue(c: char): nat {
    if '0' <= c <= '9' then c as int - '0' as int else 0
  }

  predicate IsDigits(s: string) {
    forall i :: 0 <= i < |s| ==> '0' <= s[i] <= '9'
  }

  /** `String(n)` for a non-negative integer. */
  function Decimal(n: nat): string {
    if n < 10 then [DigitChar(n)] else Decimal(n / 10) + [DigitChar(n % 10)]
  }

  /** The number a string of decimal digits denotes (leading zeros allowed). */
  function DigitsValue(s: string): nat {
    if s == [] then 0 else DigitsValue(s[..|s| - 1]) * 10 + DigitValue(s[|s| - 1])
  }

  /** A rendered number is a non-empty string of decimal digits. */
  lemma {:induction false} DecimalDigits(n: nat)
    ensures |Decimal(n)| >= 1 && IsDigits(Decimal(n))
  {
    if n >= 10 {
      DecimalDigits(n / 10);
    }
  }

  /** Reading back a rendered number gives the number. */
  lemma {:induction false} DecimalRoundTrip(n: nat)
    ensures DigitsValue(Decimal(n)) == n
  {
    if n >= 10 {
      DecimalRoundTrip(n / 10);
      var s := Decimal(n);
      assert s[..|s| - 1] == Decimal(n / 10);
    }
  }

  /** Numbers below 1000 have at most three digits. */
  lemma {:induction false} DecimalLength(n: nat)
    ensures n < 10 ==> |Decimal(n)| == 1
    ensures n < 100 ==> |Decimal(n)| <= 2
    ensures n < 1000 ==> |Decimal(n)| <= 3
  {
    if n >= 10 {
      DecimalLength(n / 10);
    }
  }

  function Repeat(c: char, k: nat): (s: string)
    ensures |s| == k && forall i :: 0 <= i < k ==> s[i] == c
  {
    if k == 0 then [] else [c] + Repeat(c, k - 1)
  }

  /** Leading zeros do not change the value of a digit string. */
  lemma {:induction false} LeadingZerosValue(k: nat, s: string)
    ensures DigitsValue(Repeat('0', k) + s) == DigitsValue(s)
  {
    var z := Repeat('0', k);
    if s == [] {
      assert z + s == z;
      ZerosValue(k);
    } else {
      assert (z + s)[..|z + s| - 1] == z + s[..|s| - 1];
      LeadingZerosValue(k, s[..|s| - 1]);
    }
  }

  lemma {:induction false} ZerosValue(k: nat)
    ensures DigitsValue(Repeat('0', k)) == 0
  {
    if k > 0 {
      var z := Repeat('0', k);
      assert z[..|z| - 1] == Repeat('0', k - 1);
      ZerosValue(k - 1);
    }
  }
}
