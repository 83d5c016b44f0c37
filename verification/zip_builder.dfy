/** The archive packing planner of `app/utils/zipBuilder.ts`: one greedy pass
    over the converted files splits them into ZIP archives whose declared
    sizes stay under MAX_ZIP_SIZE. Blob storage is a map from storage key to
    bytes; an archive is its name and the list of members put into it (the
    bytes of a member are the stored bytes under its key; JSZip itself is
    not modelled). */
module ZipBuilder {
  import opened Common

  /** 250 MiB. */
  const MAX_ZIP_SIZE: nat := 250 * 1024 * 1024

  datatype FileToZip<K> = FileToZip(outputName: string, storageKey: K, size: nat)

  datatype ZipFile<K> = ZipFile(name: string, members: seq<FileToZip<K>>)

  // ------------------------------------------------------------- naming

  /** `String(index).padStart(3, '0')`. */
  function Pad3(n: nat): string {
    var d := Decimal(n);
    if |d| < 3 then Repeat('0', 3 - |d|) + d else d
  }

  /** `${baseName}-${NNN}.zip` */
  function NumberedName(base: string, index: nat): string {
    base + "-" + Pad3(index) + ".zip"
  }

  /** Indices below 1000 are rendered with exactly three digits, and the
      digits read back as the index. */
  lemma {:induction false} Pad3RoundTrip(n: nat)
    ensures IsDigits(Pad3(n)) && DigitsValue(Pad3(n)) == n
    ensures n < 1000 ==> |Pad3(n)| == 3
  {
    var d := Decimal(n);
    assert |d| >= 1 && IsDigits(d) by { DecimalDigits(n); }
    assert DigitsValue(d) == n by { DecimalRoundTrip(n); }
    assert n < 1000 ==> |d| <= 3 by { DecimalLength(n); }
    if |d| < 3 {
      var z := Repeat('0', 3 - |d|);
      var p := z + d;
      assert Pad3(n) == p;
      assert DigitsValue(p) == n by { LeadingZerosValue(3 - |d|, d); }
      forall i | 0 <= i < |p| ensures '0' <= p[i] <= '9' {
        if i >= |z| { assert p[i] == d[i - |z|]; }
      }
    } else {
      assert Pad3(n) == d;
    }
  }

  /** Different indices give different archive names. */
  lemma {:induction false} NumberedNamesDistinct(base: string, i: nat, j: nat)
    requires i != j
    ensures NumberedName(base, i) != NumberedName(base, j)
  {
    if NumberedName(base, i) == NumberedName(base, j) {
      var a, b := Pad3(i), Pad3(j);
      var p := base + "-";
      assert |a| == |b|;
      assert NumberedName(base, i)[|p|..|p| + |a|] == a;
      assert NumberedName(base, j)[|p|..|p| + |b|] == b;
      Pad3RoundTrip(i);
      Pad3RoundTrip(j);
      assert false;
    }
  }

  // ----------------------------------------------------- the greedy pass

  /** The loop variables of `buildZipFiles`: archives emitted so far, the
      current accumulator, its declared size and the next archive index. */
  datatype Packing<K> = Packing(zips: seq<ZipFile<K>>, current: seq<FileToZip<K>>,
                                currentSize: nat, index: nat)

  function InitialPacking<K>(): Packing<K> {
    Packing([], [], 0, 1)
  }

  /** Emit the accumulator as a numbered archive and start a new one. */
  function Flush<K>(st: Packing<K>, base: string): Packing<K> {
    Packing(st.zips + [ZipFile(NumberedName(base, st.index), st.current)], [], 0, st.index + 1)
  }

  /** One iteration of the `for (const file of files)` loop. */
  function Step<K>(st: Packing<K>, f: FileToZip<K>, storage: map<K, Bytes>, base: string): Packing<K> {
    if f.storageKey !in storage then st
    else if f.size > MAX_ZIP_SIZE then
      var st1 := if st.currentSize > 0 then Flush(st, base) else st;
      Packing(st1.zips + [ZipFile(NumberedName(base, st1.index), [f])],
              st1.current, st1.currentSize, st1.index + 1)
    else
      var st1 := if st.currentSize + f.size > MAX_ZIP_SIZE && st.currentSize > 0
                 then Flush(st, base) else st;
      Packing(st1.zips, st1.current + [f], st1.currentSize + f.size, st1.index)
  }

  function PackFrom<K>(files: seq<FileToZip<K>>, storage: map<K, Bytes>, base: string,
                       st: Packing<K>): Packing<K>
    decreases |files|
  {
    if files == [] then st else PackFrom(files[1..], storage, base, Step(st, files[0], storage, base))
  }

  /** After the loop: the accumulator is emitted only when its declared size
      is positive, named `<base>.zip` when nothing was emitted before it. */
  function Finish<K>(st: Packing<K>, base: string): seq<ZipFile<K>> {
    if st.currentSize > 0 then
      var name := if |st.zips| == 0 then base + ".zip" else NumberedName(base, st.index);
      st.zips + [ZipFile(name, st.current)]
    else st.zips
  }

  /** The archives `buildZipFiles(files, baseName)` produces. */
  function Pack<K>(files: seq<FileToZip<K>>, storage: map<K, Bytes>, base: string): seq<ZipFile<K>> {
    Finish(PackFrom(files, storage, base, InitialPacking()), base)
  }

  /** `buildZipFiles`, with the loop and its mutable variables. */
  method BuildZipFiles<K>(files: seq<FileToZip<K>>, storage: map<K, Bytes>, baseName: string)
    returns (zipFiles: seq<ZipFile<K>>)
    ensures zipFiles == Pack(files, storage, baseName)
  {
    zipFiles := [];
    var currentZip: seq<FileToZip<K>> := [];
    var currentSize: nat := 0;
    var zipIndex: nat := 1;
    for i := 0 to |files|
      invariant PackFrom(files[i..], storage, baseName, Packing(zipFiles, currentZip, currentSize, zipIndex))
             == PackFrom(files, storage, baseName, InitialPacking())
    {
      ghost var before := Packing(zipFiles, currentZip, currentSize, zipIndex);
      PackFromUnfold(files, i, storage, baseName, before);
      var file := files[i];
      if file.storageKey !in storage {
        continue;
      }
      if file.size > MAX_ZIP_SIZE {
        if currentSize > 0 {
          zipFiles := zipFiles + [ZipFile(NumberedName(baseName, zipIndex), currentZip)];
          zipIndex := zipIndex + 1;
          currentZip := [];
          currentSize := 0;
        }
        zipFiles := zipFiles + [ZipFile(NumberedName(baseName, zipIndex), [file])];
        zipIndex := zipIndex + 1;
        assert Step(before, file, storage, baseName) == Packing(zipFiles, currentZip, currentSize, zipIndex);
        continue;
      }
      if currentSize + file.size > MAX_ZIP_SIZE && currentSize > 0 {
        zipFiles := zipFiles + [ZipFile(NumberedName(baseName, zipIndex), currentZip)];
        zipIndex := zipIndex + 1;
        currentZip := [];
        currentSize := 0;
      }
      currentZip := currentZip + [file];
      currentSize := currentSize + file.size;
      assert Step(before, file, storage, baseName) == Packing(zipFiles, currentZip, currentSize, zipIndex);
    }
    if currentSize > 0 {
      var name := if |zipFiles| == 0 then baseName + ".zip" else NumberedName(baseName, zipIndex);
      zipFiles := zipFiles + [ZipFile(name, currentZip)];
    }
  }

  lemma PackFromUnfold<K>(files: seq<FileToZip<K>>, i: nat, storage: map<K, Bytes>, base: string, st: Packing<K>)
    requires i < |files|
    ensures PackFrom(files[i..], storage, base, st)
         == PackFrom(files[i + 1..], storage, base, Step(st, files[i], storage, base))
  {
    assert files[i..][0] == files[i] && files[i..][1..] == files[i + 1..];
  }

  // --------------------------------------------------- views on archives

  function Total<K>(ms: seq<FileToZip<K>>): nat {
    if ms == [] then 0 else Total(ms[..|ms| - 1]) + ms[|ms| - 1].size
  }

  /** All members of all archives, archive after archive. */
  function Flatten<K>(zs: seq<ZipFile<K>>): seq<FileToZip<K>> {
    if zs == [] then [] else Flatten(zs[..|zs| - 1]) + zs[|zs| - 1].members
  }

  /** The files whose storage key has stored data. */
  function WithData<K>(files: seq<FileToZip<K>>, storage: map<K, Bytes>): seq<FileToZip<K>> {
    if files == [] then []
    else (if files[0].storageKey in storage then [files[0]] else []) + WithData(files[1..], storage)
  }

  function Positive<K>(ms: seq<FileToZip<K>>): seq<FileToZip<K>> {
    if ms == [] then [] else (if ms[0].size > 0 then [ms[0]] else []) + Positive(ms[1..])
  }

  /** An archive made for a single member larger than the cap. */
  predicate Dedicated<K>(z: ZipFile<K>) {
    |z.members| == 1 && z.members[0].size > MAX_ZIP_SIZE
  }

  // ------------------------------------------------ algebra of the views

  lemma {:induction false} TotalAppend<K>(a: seq<FileToZip<K>>, f: FileToZip<K>)
    ensures Total(a + [f]) == Total(a) + f.size
  {
    assert (a + [f])[..|a + [f]| - 1] == a;
  }

  lemma {:induction false} FlattenAppend<K>(zs: seq<ZipFile<K>>, z: ZipFile<K>)
    ensures Flatten(zs + [z]) == Flatten(zs) + z.members
  {
    assert (zs + [z])[..|zs + [z]| - 1] == zs;
  }

  lemma {:induction false} PositiveAppend<K>(a: seq<FileToZip<K>>, b: seq<FileToZip<K>>)
    ensures Positive(a + b) == Positive(a) + Positive(b)
  {
    if a == [] {
      assert a + b == b;
    } else {
      var h := if a[0].size > 0 then [a[0]] else [];
      assert (a + b)[0] == a[0] && (a + b)[1..] == a[1..] + b;
      PositiveAppend(a[1..], b);
      calc {
        Positive(a + b);
        h + Positive(a[1..] + b);
        h + (Positive(a[1..]) + Positive(b));
        (h + Positive(a[1..])) + Positive(b);
        Positive(a) + Positive(b);
      }
    }
  }

  /** A member is in the positive part exactly when it is a member of
      positive size. */
  lemma {:induction false} PositiveHas<K>(ms: seq<FileToZip<K>>, m: FileToZip<K>)
    ensures m in Positive(ms) <==> m in ms && m.size > 0
  {
    if ms != [] {
      PositiveHas(ms[1..], m);
      assert ms == [ms[0]] + ms[1..];
    }
  }

  /** A non-empty member of one list is in any list with the same
      positive part. */
  lemma PositiveKept<K>(z: seq<FileToZip<K>>, packed: seq<FileToZip<K>>, m: FileToZip<K>)
    requires Positive(packed) == Positive(z) && m in z && m.size > 0
    ensures m in packed
  {
    PositiveHas(z, m);
    PositiveHas(packed, m);
  }

  lemma {:induction false} WithDataAppend<K>(a: seq<FileToZip<K>>, b: seq<FileToZip<K>>, storage: map<K, Bytes>)
    ensures WithData(a + b, storage) == WithData(a, storage) + WithData(b, storage)
  {
    if a != [] {
      assert (a + b)[0] == a[0] && (a + b)[1..] == a[1..] + b;
      WithDataAppend(a[1..], b, storage);
    } else {
      assert a + b == b;
    }
  }

  /** A sequence of declared sizes with total 0 has no positive member. */
  lemma {:induction false} ZeroTotalNoPositive<K>(ms: seq<FileToZip<K>>)
    requires Total(ms) == 0
    ensures Positive(ms) == []
  {
    if ms != [] {
      var init := ms[..|ms| - 1];
      ZeroTotalNoPositive(init);
      assert ms == init + [ms[|ms| - 1]];
      PositiveAppend(init, [ms[|ms| - 1]]);
    }
  }

  /** A sequence with no positive member is unchanged by Positive only if empty;
      a sequence whose members are all positive is its own positive part. */
  lemma {:induction false} AllPositive<K>(ms: seq<FileToZip<K>>)
    requires forall m :: m in ms ==> m.size > 0
    ensures Positive(ms) == ms
  {
    if ms != [] {
      AllPositive(ms[1..]);
    }
  }

  lemma {:induction false} WithDataMembers<K>(files: seq<FileToZip<K>>, storage: map<K, Bytes>)
    ensures forall m :: m in WithData(files, storage) ==> m in files && m.storageKey in storage
  {
    if files != [] {
      WithDataMembers(files[1..], storage);
    }
  }

  /** When every file's data is in storage, none is filtered out. */
  lemma {:induction false} WithDataAllStored<K>(files: seq<FileToZip<K>>, storage: map<K, Bytes>)
    requires forall f :: f in files ==> f.storageKey in storage
    ensures WithData(files, storage) == files
  {
    if files != [] {
      assert files == [files[0]] + files[1..];
      WithDataAllStored(files[1..], storage);
    }
  }

  // ------------------------------------------------------- the invariant

  predicate AllSmall<K>(ms: seq<FileToZip<K>>) {
    forall i :: 0 <= i < |ms| ==> ms[i].size <= MAX_ZIP_SIZE
  }

  /** An emitted archive has a positive declared size and is either a
      dedicated oversized archive or within the cap with no oversized member. */
  predicate ArchiveOk<K>(z: ZipFile<K>) {
    Total(z.members) > 0 && (Dedicated(z) || (Total(z.members) <= MAX_ZIP_SIZE && AllSmall(z.members)))
  }

  /** Facts about the accumulator and the emitted archives that hold
      after every flush. */
  predicate Core<K>(st: Packing<K>) {
    && st.currentSize == Total(st.current) <= MAX_ZIP_SIZE
    && AllSmall(st.current)
    && (forall i :: 0 <= i < |st.zips| ==> ArchiveOk(st.zips[i]))
  }

  /** Between iterations: an accumulator-made archive is only ever the last
      one emitted when the accumulator has already received a new member. */
  predicate Inv<K>(st: Packing<K>) {
    Core(st) && (|st.zips| > 0 && !Dedicated(st.zips[|st.zips| - 1]) ==> st.currentSize > 0)
  }

  /** The emitted archives are numbered 1, 2, ... and `index` is the next number. */
  predicate NamesOk<K>(st: Packing<K>, base: string) {
    st.index == |st.zips| + 1 && forall i :: 0 <= i < |st.zips| ==> st.zips[i].name == NumberedName(base, i + 1)
  }

  /** Everything the pass has placed so far, in placement order. */
  function Placed<K>(st: Packing<K>): seq<FileToZip<K>> {
    Flatten(st.zips) + st.current
  }

  lemma AppendArchiveOk<K>(zs: seq<ZipFile<K>>, z: ZipFile<K>)
    requires forall i :: 0 <= i < |zs| ==> ArchiveOk(zs[i])
    requires ArchiveOk(z)
    ensures forall i :: 0 <= i < |zs + [z]| ==> ArchiveOk((zs + [z])[i])
  {
    forall i | 0 <= i < |zs + [z]| ensures ArchiveOk((zs + [z])[i]) {
      if i < |zs| { assert (zs + [z])[i] == zs[i]; } else { assert (zs + [z])[i] == z; }
    }
  }

  lemma FlushCore<K>(st: Packing<K>, base: string)
    requires Core(st) && st.currentSize > 0
    ensures Core(Flush(st, base)) && Flush(st, base).currentSize == 0
  {
    var z := ZipFile(NumberedName(base, st.index), st.current);
    assert ArchiveOk(z);
    AppendArchiveOk(st.zips, z);
  }

  /** An oversized member with stored data gets an archive of its own. */
  lemma OversizedStepInv<K>(st: Packing<K>, f: FileToZip<K>, storage: map<K, Bytes>, base: string)
    requires Inv(st) && f.storageKey in storage && f.size > MAX_ZIP_SIZE
    ensures Inv(Step(st, f, storage, base))
  {
    var st1 := if st.currentSize > 0 then Flush(st, base) else st;
    if st.currentSize > 0 { FlushCore(st, base); }
    assert Core(st1);
    var z := ZipFile(NumberedName(base, st1.index), [f]);
    assert [f][..0] == [];
    assert Total([f]) == f.size;
    assert ArchiveOk(z) && Dedicated(z);
    AppendArchiveOk(st1.zips, z);
    var st2 := Packing(st1.zips + [z], st1.current, st1.currentSize, st1.index + 1);
    assert Step(st, f, storage, base) == st2;
    assert st2.zips[|st2.zips| - 1] == z;
  }

  /** A member within the cap joins an accumulator it fits into. */
  lemma AppendSmall<K>(st: Packing<K>, f: FileToZip<K>)
    requires Core(st) && st.currentSize + f.size <= MAX_ZIP_SIZE
    ensures Core(Packing(st.zips, st.current + [f], st.currentSize + f.size, st.index))
  {
    TotalAppend(st.current, f);
    var c := st.current + [f];
    forall i | 0 <= i < |c| ensures c[i].size <= MAX_ZIP_SIZE {
      if i < |st.current| { assert c[i] == st.current[i]; }
    }
  }

  /** A member within the cap joins the accumulator, after a flush when it
      would push the accumulator over the cap. */
  lemma SmallStepInv<K>(st: Packing<K>, f: FileToZip<K>, storage: map<K, Bytes>, base: string)
    requires Inv(st) && f.storageKey in storage && f.size <= MAX_ZIP_SIZE
    ensures Inv(Step(st, f, storage, base))
  {
    if st.currentSize + f.size > MAX_ZIP_SIZE && st.currentSize > 0 {
      var st1 := Flush(st, base);
      FlushCore(st, base);
      assert Step(st, f, storage, base) == Packing(st1.zips, st1.current + [f], st1.currentSize + f.size, st1.index);
      AppendSmall(st1, f);
    } else {
      assert Step(st, f, storage, base) == Packing(st.zips, st.current + [f], st.currentSize + f.size, st.index);
      AppendSmall(st, f);
    }
  }

  lemma StepInv<K>(st: Packing<K>, f: FileToZip<K>, storage: map<K, Bytes>, base: string)
    requires Inv(st)
    ensures Inv(Step(st, f, storage, base))
  {
    if f.storageKey in storage {
      if f.size > MAX_ZIP_SIZE {
        OversizedStepInv(st, f, storage, base);
      } else {
        SmallStepInv(st, f, storage, base);
      }
    }
  }

  lemma StepNames<K>(st: Packing<K>, f: FileToZip<K>, storage: map<K, Bytes>, base: string)
    requires NamesOk(st, base)
    ensures NamesOk(Step(st, f, storage, base), base)
  {
    if f.storageKey in storage {
      var flush := if f.size > MAX_ZIP_SIZE then st.currentSize > 0
                   else st.currentSize + f.size > MAX_ZIP_SIZE && st.currentSize > 0;
      var st1 := if flush then Flush(st, base) else st;
      if flush {
        NextArchiveNamed(st, ZipFile(NumberedName(base, st.index), st.current), [], 0, base);
      }
      assert NamesOk(st1, base);
      if f.size > MAX_ZIP_SIZE {
        NextArchiveNamed(st1, ZipFile(NumberedName(base, st1.index), [f]), st1.current, st1.currentSize, base);
      }
    }
  }

  /** Appending the archive named after the current index keeps the
      archives numbered from 1 in order. */
  lemma NextArchiveNamed<K>(st: Packing<K>, z: ZipFile<K>, current: seq<FileToZip<K>>, size: nat, base: string)
    requires NamesOk(st, base) && z.name == NumberedName(base, st.index)
    ensures NamesOk(Packing(st.zips + [z], current, size, st.index + 1), base)
  {
    var zs := st.zips + [z];
    forall i | 0 <= i < |zs| ensures zs[i].name == NumberedName(base, i + 1) {
      if i < |st.zips| { assert zs[i] == st.zips[i]; }
    }
  }

  lemma FlushPlaced<K>(st: Packing<K>, base: string)
    ensures Placed(Flush(st, base)) == Placed(st)
  {
    FlattenAppend(st.zips, ZipFile(NumberedName(base, st.index), st.current));
  }

  /** One step places the file, when its data is stored, after everything
      placed so far as far as the positive-size members are concerned; a
      zero-size accumulator may be overtaken by an oversized file. */
  lemma StepPlaced<K>(st: Packing<K>, f: FileToZip<K>, storage: map<K, Bytes>, base: string)
    requires Core(st)
    ensures var st2 := Step(st, f, storage, base);
      && multiset(Placed(st2)) == multiset(Placed(st)) + multiset(WithData([f], storage))
      && Positive(Placed(st2)) == Positive(Placed(st)) + Positive(WithData([f], storage))
  {
    assert WithData([f], storage) == (if f.storageKey in storage then [f] else []) by {
      assert [f][1..] == [];
    }
    if f.storageKey in storage {
      if f.size > MAX_ZIP_SIZE {
        OversizedStepPlaced(st, f, storage, base);
      } else {
        SmallStepPlaced(st, f, storage, base);
      }
    }
  }

  lemma SmallStepPlaced<K>(st: Packing<K>, f: FileToZip<K>, storage: map<K, Bytes>, base: string)
    requires f.storageKey in storage && f.size <= MAX_ZIP_SIZE
    ensures var st2 := Step(st, f, storage, base);
      && Placed(st2) == Placed(st) + [f]
      && Positive(Placed(st2)) == Positive(Placed(st)) + Positive([f])
  {
    var flush := st.currentSize + f.size > MAX_ZIP_SIZE && st.currentSize > 0;
    var st1 := if flush then Flush(st, base) else st;
    assert Placed(st1) == Placed(st) by {
      if flush { FlushPlaced(st, base); }
    }
    var st2 := Packing(st1.zips, st1.current + [f], st1.currentSize + f.size, st1.index);
    assert Step(st, f, storage, base) == st2;
    assert Placed(st2) == Placed(st1) + [f];
    PositiveAppend(Placed(st1), [f]);
  }

  lemma OversizedStepPlaced<K>(st: Packing<K>, f: FileToZip<K>, storage: map<K, Bytes>, base: string)
    requires Core(st) && f.storageKey in storage && f.size > MAX_ZIP_SIZE
    ensures var st2 := Step(st, f, storage, base);
      && multiset(Placed(st2)) == multiset(Placed(st)) + multiset([f])
      && Positive(Placed(st2)) == Positive(Placed(st)) + [f]
  {
    var st1 := if st.currentSize > 0 then Flush(st, base) else st;
    assert Placed(st1) == Placed(st) by {
      if st.currentSize > 0 { FlushPlaced(st, base); }
    }
    var z := ZipFile(NumberedName(base, st1.index), [f]);
    var st2 := Packing(st1.zips + [z], st1.current, st1.currentSize, st1.index + 1);
    assert Step(st, f, storage, base) == st2;
    var F := Flatten(st1.zips);
    assert Placed(st2) == F + [f] + st1.current by { FlattenAppend(st1.zips, z); }
    assert Placed(st1) == F + st1.current;
    // the accumulator kept here holds no positive member
    assert Positive(st1.current) == [] by {
      if st.currentSize > 0 { assert st1.current == []; } else { ZeroTotalNoPositive(st.current); }
    }
    PositiveInsert(F, f, st1.current);
  }

  /** A positive member inserted before members that are all zero-size
      comes last among the positive ones. */
  lemma PositiveInsert<K>(F: seq<FileToZip<K>>, f: FileToZip<K>, rest: seq<FileToZip<K>>)
    requires f.size > 0 && Positive(rest) == []
    ensures Positive(F + [f] + rest) == Positive(F + rest) + [f]
  {
    assert Positive([f]) == [f] by { assert [f][1..] == []; }
    PositiveAppend(F + [f], rest);
    PositiveAppend(F, [f]);
    PositiveAppend(F, rest);
    assert Positive(F + rest) == Positive(F);
  }

  lemma {:induction false} PackFromInv<K>(files: seq<FileToZip<K>>, storage: map<K, Bytes>, base: string, st: Packing<K>)
    requires Inv(st) && NamesOk(st, base)
    ensures Inv(PackFrom(files, storage, base, st)) && NamesOk(PackFrom(files, storage, base, st), base)
  {
    if files != [] {
      StepInv(st, files[0], storage, base);
      StepNames(st, files[0], storage, base);
      PackFromInv(files[1..], storage, base, Step(st, files[0], storage, base));
    }
  }

  /** The files split into the first one and the rest, as WithData sees them. */
  lemma WithDataCons<K>(files: seq<FileToZip<K>>, storage: map<K, Bytes>)
    requires files != []
    ensures WithData(files, storage) == WithData([files[0]], storage) + WithData(files[1..], storage)
  {
    assert files == [files[0]] + files[1..];
    WithDataAppend([files[0]], files[1..], storage);
  }

  lemma {:induction false} PackFromMultiset<K>(files: seq<FileToZip<K>>, storage: map<K, Bytes>, base: string, st: Packing<K>)
    requires Inv(st)
    ensures multiset(Placed(PackFrom(files, storage, base, st))) == multiset(Placed(st)) + multiset(WithData(files, storage))
  {
    if files != [] {
      var st1 := Step(st, files[0], storage, base);
      StepInv(st, files[0], storage, base);
      StepPlaced(st, files[0], storage, base);
      PackFromMultiset(files[1..], storage, base, st1);
      WithDataCons(files, storage);
    }
  }

  lemma {:induction false} PackFromPositive<K>(files: seq<FileToZip<K>>, storage: map<K, Bytes>, base: string, st: Packing<K>)
    requires Inv(st)
    ensures Positive(Placed(PackFrom(files, storage, base, st))) == Positive(Placed(st)) + Positive(WithData(files, storage))
  {
    if files == [] {
      assert Placed(st) + [] == Placed(st);
    } else {
      var st1 := Step(st, files[0], storage, base);
      var r := PackFrom(files, storage, base, st);
      var p0, p1, pr := Positive(Placed(st)), Positive(Placed(st1)), Positive(Placed(r));
      var w1, w2 := Positive(WithData([files[0]], storage)), Positive(WithData(files[1..], storage));
      assert p1 == p0 + w1 by {
        StepPlaced(st, files[0], storage, base);
      }
      assert pr == p1 + w2 by {
        StepInv(st, files[0], storage, base);
        PackFromPositive(files[1..], storage, base, st1);
      }
      assert Positive(WithData(files, storage)) == w1 + w2 by {
        WithDataCons(files, storage);
        PositiveAppend(WithData([files[0]], storage), WithData(files[1..], storage));
      }
      AppendAssoc(p0, w1, w2);
    }
  }

  lemma PackFacts<K>(files: seq<FileToZip<K>>, storage: map<K, Bytes>, base: string)
    ensures var st := PackFrom(files, storage, base, InitialPacking());
      && Inv(st) && NamesOk(st, base)
      && multiset(Placed(st)) == multiset(WithData(files, storage))
      && Positive(Placed(st)) == Positive(WithData(files, storage))
  {
    var st0: Packing<K> := InitialPacking();
    assert Placed(st0) == [];
    PackFromInv(files, storage, base, st0);
    PackFromMultiset(files, storage, base, st0);
    PackFromPositive(files, storage, base, st0);
  }

  // ---------------------------------------------- properties of the plan

  /** The final accumulator, when emitted, is an archive within the cap. */
  lemma PackArchivesOk<K>(files: seq<FileToZip<K>>, storage: map<K, Bytes>, base: string)
    ensures forall z :: z in Pack(files, storage, base) ==> ArchiveOk(z)
  {
    var st := PackFrom(files, storage, base, InitialPacking());
    PackFacts(files, storage, base);
    assert Core(st);
    var zs := Pack(files, storage, base);
    if st.currentSize > 0 {
      var name := if |st.zips| == 0 then base + ".zip" else NumberedName(base, st.index);
      var last := ZipFile(name, st.current);
      assert ArchiveOk(last);
      AppendArchiveOk(st.zips, last);
      assert zs == st.zips + [last];
    }
    forall z | z in zs ensures ArchiveOk(z) {
      var i :| 0 <= i < |zs| && zs[i] == z;
    }
  }

  /** Every archive other than a dedicated oversized one stays within the
      cap, and a member over the cap is alone in its archive. */
  lemma PackWithinCap<K>(files: seq<FileToZip<K>>, storage: map<K, Bytes>, base: string)
    ensures forall z :: z in Pack(files, storage, base) ==>
      Dedicated(z) || Total(z.members) <= MAX_ZIP_SIZE
    ensures forall z, m :: z in Pack(files, storage, base) && m in z.members && m.size > MAX_ZIP_SIZE ==>
      z.members == [m]
  {
    PackArchivesOk(files, storage, base);
    forall z, m | z in Pack(files, storage, base) && m in z.members && m.size > MAX_ZIP_SIZE
      ensures z.members == [m]
    {
      assert ArchiveOk(z);
      var i :| 0 <= i < |z.members| && z.members[i] == m;
    }
  }

  /** Every archive has a positive declared size: every flush is guarded by
      `currentSize > 0`. */
  lemma PackArchivesNonEmpty<K>(files: seq<FileToZip<K>>, storage: map<K, Bytes>, base: string)
    ensures forall z :: z in Pack(files, storage, base) ==> Total(z.members) > 0
  {
    PackArchivesOk(files, storage, base);
  }

  /** The members the final step drops: the accumulator, when its declared
      size is 0. */
  function Dropped<K>(st: Packing<K>): seq<FileToZip<K>> {
    if st.currentSize > 0 then [] else st.current
  }

  /** The archives, read in order, followed by the dropped members, are
      everything the pass placed. */
  lemma FinishFlatten<K>(st: Packing<K>, base: string)
    requires Core(st)
    ensures Flatten(Finish(st, base)) + Dropped(st) == Placed(st)
    ensures AllZero(Dropped(st)) && Positive(Dropped(st)) == []
  {
    if st.currentSize > 0 {
      var name := if |st.zips| == 0 then base + ".zip" else NumberedName(base, st.index);
      FlattenAppend(st.zips, ZipFile(name, st.current));
      assert Flatten(Finish(st, base)) + [] == Flatten(Finish(st, base));
    } else {
      ZeroTotalNoPositive(st.current);
      ZeroTotalAllZero(st.current);
    }
  }

  /** Taking a zero-size tail off a sequence with the multiset `w`. */
  lemma DropZeroTail<K>(w: seq<FileToZip<K>>, f: seq<FileToZip<K>>, c: seq<FileToZip<K>>)
    requires multiset(f + c) == multiset(w) && AllZero(c)
    ensures multiset(f) <= multiset(w)
    ensures forall m :: m in multiset(w) - multiset(f) ==> m in c && m.size == 0
  {
    assert multiset(f + c) == multiset(f) + multiset(c);
    forall m | m in multiset(w) - multiset(f) ensures m in c && m.size == 0 {
      assert m in multiset(c);
      var i :| 0 <= i < |c| && c[i] == m;
    }
  }

  /** What the archives hold, read in order: the files with stored data,
      none repeated, except that a final accumulator of declared size 0 is
      dropped; the positive-size members appear exactly once each, in input
      order. */
  lemma PackMembers<K>(files: seq<FileToZip<K>>, storage: map<K, Bytes>, base: string)
    ensures multiset(Flatten(Pack(files, storage, base))) <= multiset(WithData(files, storage))
    ensures forall m :: m in multiset(WithData(files, storage)) - multiset(Flatten(Pack(files, storage, base))) ==>
      m.size == 0
    ensures Positive(Flatten(Pack(files, storage, base))) == Positive(WithData(files, storage))
  {
    var st := PackFrom(files, storage, base, InitialPacking());
    var w := WithData(files, storage);
    var out := Flatten(Pack(files, storage, base));
    PackFacts(files, storage, base);
    FinishFlatten(st, base);
    var d := Dropped(st);
    assert out + d == Placed(st);
    DropZeroTail(w, out, d);
    PositiveAppend(out, d);
    assert Positive(out) + [] == Positive(out);
  }

  predicate AllZero<K>(ms: seq<FileToZip<K>>) {
    forall i :: 0 <= i < |ms| ==> ms[i].size == 0
  }

  lemma {:induction false} ZeroTotalAllZero<K>(ms: seq<FileToZip<K>>)
    requires Total(ms) == 0
    ensures AllZero(ms)
  {
    if ms != [] {
      ZeroTotalAllZero(ms[..|ms| - 1]);
      assert forall i :: 0 <= i < |ms| - 1 ==> ms[i] == ms[..|ms| - 1][i];
    }
  }

  /** Every member of every archive is one of the input files, and its
      data is in storage. */
  lemma PackMembersStored<K>(files: seq<FileToZip<K>>, storage: map<K, Bytes>, base: string)
    ensures forall z, m :: z in Pack(files, storage, base) && m in z.members ==>
      m in files && m.storageKey in storage
  {
    var out := Pack(files, storage, base);
    forall z, m | z in out && m in z.members
      ensures m in files && m.storageKey in storage
    {
      MemberInFlatten(out, z, m);
      PlacedMemberStored(files, storage, base, m);
    }
  }

  lemma PlacedMemberStored<K>(files: seq<FileToZip<K>>, storage: map<K, Bytes>, base: string, m: FileToZip<K>)
    requires m in Flatten(Pack(files, storage, base))
    ensures m in files && m.storageKey in storage
  {
    var w := WithData(files, storage);
    assert m in w by {
      PackMembers(files, storage, base);
      InMultisetLe(m, Flatten(Pack(files, storage, base)), w);
    }
    WithDataMembers(files, storage);
  }

  lemma InMultisetLe<T>(x: T, a: seq<T>, b: seq<T>)
    requires x in a && multiset(a) <= multiset(b)
    ensures x in b
  {
    assert x in multiset(a);
  }

  lemma {:induction false} MemberInFlatten<K>(zs: seq<ZipFile<K>>, z: ZipFile<K>, m: FileToZip<K>)
    requires z in zs && m in z.members
    ensures m in Flatten(zs)
  {
    var last := zs[|zs| - 1];
    assert zs == zs[..|zs| - 1] + [last];
    FlattenAppend(zs[..|zs| - 1], last);
    if z != last {
      MemberInFlatten(zs[..|zs| - 1], z, m);
    }
  }

  /** When every declared size is positive the archives, read in order,
      hold exactly the files with stored data, in input order. */
  lemma PackPartitionsPositive<K>(files: seq<FileToZip<K>>, storage: map<K, Bytes>, base: string)
    requires forall f :: f in files ==> f.size > 0
    ensures Flatten(Pack(files, storage, base)) == WithData(files, storage)
  {
    PackMembers(files, storage, base);
    var flat := Flatten(Pack(files, storage, base));
    var w := WithData(files, storage);
    WithDataMembers(files, storage);
    forall m | m in flat ensures m.size > 0 {
      InMultisetLe(m, flat, w);
    }
    AllPositive(flat);
    AllPositive(w);
  }

  /** Archives are numbered 1, 2, 3, ... in emission order, except that a
      single archive holding the final accumulator is named `<base>.zip`;
      a single dedicated oversized archive keeps the number 001. */
  lemma PackNames<K>(files: seq<FileToZip<K>>, storage: map<K, Bytes>, base: string)
    ensures var zs := Pack(files, storage, base);
      forall i :: 0 <= i < |zs| ==>
        zs[i].name == if |zs| == 1 && !Dedicated(zs[0]) then base + ".zip" else NumberedName(base, i + 1)
  {
    var st := PackFrom(files, storage, base, InitialPacking());
    PackFacts(files, storage, base);
    if st.currentSize > 0 {
      FinishNamesEmitted(st, base);
    } else {
      FinishNamesDropped(st, base);
    }
  }

  /** A single archive made from the accumulator is `<base>.zip`. */
  lemma FinishNamesEmitted<K>(st: Packing<K>, base: string)
    requires Inv(st) && NamesOk(st, base) && st.currentSize > 0
    ensures var zs := Finish(st, base);
      forall i :: 0 <= i < |zs| ==>
        zs[i].name == if |zs| == 1 && !Dedicated(zs[0]) then base + ".zip" else NumberedName(base, i + 1)
  {
    var zs := Finish(st, base);
    var name := if |st.zips| == 0 then base + ".zip" else NumberedName(base, st.index);
    var last := ZipFile(name, st.current);
    assert zs == st.zips + [last];
    if |st.zips| == 0 {
      assert st.current[0].size <= MAX_ZIP_SIZE;
      assert !Dedicated(last);
    } else {
      forall i | 0 <= i < |zs| ensures zs[i].name == NumberedName(base, i + 1) {
        if i < |st.zips| { assert zs[i] == st.zips[i]; }
      }
    }
  }

  /** With a zero-size final accumulator the last archive emitted is a
      dedicated one, so a lone archive keeps its number. */
  lemma FinishNamesDropped<K>(st: Packing<K>, base: string)
    requires Inv(st) && NamesOk(st, base) && st.currentSize == 0
    ensures var zs := Finish(st, base);
      forall i :: 0 <= i < |zs| ==>
        zs[i].name == if |zs| == 1 && !Dedicated(zs[0]) then base + ".zip" else NumberedName(base, i + 1)
  {
    assert Finish(st, base) == st.zips;
  }

  /** Archive names are pairwise distinct. */
  lemma PackNamesDistinct<K>(files: seq<FileToZip<K>>, storage: map<K, Bytes>, base: string)
    ensures var zs := Pack(files, storage, base);
      forall i, j :: 0 <= i < j < |zs| ==> zs[i].name != zs[j].name
  {
    var zs := Pack(files, storage, base);
    PackNames(files, storage, base);
    forall i, j | 0 <= i < j < |zs| ensures zs[i].name != zs[j].name {
      NumberedNamesDistinct(base, i + 1, j + 1);
    }
  }

  /** The plan depends on the stored data only through which keys are
      present: splitting uses the declared sizes, never the data length. */
  lemma {:induction false} PackIgnoresStoredBytes<K>(files: seq<FileToZip<K>>, s1: map<K, Bytes>, s2: map<K, Bytes>,
                                                     base: string, st: Packing<K>)
    requires s1.Keys == s2.Keys
    ensures PackFrom(files, s1, base, st) == PackFrom(files, s2, base, st)
  {
    if files != [] {
      assert Step(st, files[0], s1, base) == Step(st, files[0], s2, base);
      PackIgnoresStoredBytes(files[1..], s1, s2, base, Step(st, files[0], s1, base));
    }
  }

  // ------------------------------------------- what the archives hold

  /** The `file(outputName, data)` calls made for an archive's members, the
      data named by its storage key. */
  function MemberCalls<K>(ms: seq<FileToZip<K>>): (r: seq<(string, K)>)
    ensures |r| == |ms|
  {
    seq(|ms|, i requires 0 <= i < |ms| => (ms[i].outputName, ms[i].storageKey))
  }

  predicate DistinctNames<K>(ms: seq<FileToZip<K>>) {
    forall i, j :: 0 <= i < j < |ms| ==> ms[i].outputName != ms[j].outputName
  }

  /** When the files to zip have distinct output names, every archive holds
      one file per member, each with that member's data. */
  lemma PackDistinctNames<K>(files: seq<FileToZip<K>>, storage: map<K, Bytes>, base: string, z: ZipFile<K>)
    requires DistinctNames(files) && z in Pack(files, storage, base)
    ensures var c := ZipContents(MemberCalls(z.members));
      && |c| == |z.members|
      && forall m :: m in z.members ==> m.outputName in c && c[m.outputName] == m.storageKey
  {
    var zs := Pack(files, storage, base);
    assert multiset(z.members) <= multiset(files) by {
      MembersInFlatten(zs, z);
      PackMembers(files, storage, base);
      WithDataSub(files, storage);
    }
    SubDistinctNames(files, z.members);
    DistinctContents(z.members);
  }

  /** Members with distinct output names leave one file each, holding
      their own data. */
  lemma DistinctContents<K>(ms: seq<FileToZip<K>>)
    requires DistinctNames(ms)
    ensures var c := ZipContents(MemberCalls(ms));
      && |c| == |ms|
      && forall m :: m in ms ==> m.outputName in c && c[m.outputName] == m.storageKey
  {
    var calls := MemberCalls(ms);
    ZipContentsDistinct(calls);
    forall m | m in ms ensures m.outputName in ZipContents(calls) && ZipContents(calls)[m.outputName] == m.storageKey {
      var i :| 0 <= i < |ms| && ms[i] == m;
      assert calls[i] == (m.outputName, m.storageKey);
    }
  }

  lemma {:induction false} MembersInFlatten<K>(zs: seq<ZipFile<K>>, z: ZipFile<K>)
    requires z in zs
    ensures multiset(z.members) <= multiset(Flatten(zs))
  {
    var init := zs[..|zs| - 1];
    var last := zs[|zs| - 1];
    assert zs == init + [last];
    FlattenAppend(init, last);
    if z != last {
      MembersInFlatten(init, z);
    }
  }

  lemma {:induction false} WithDataSub<K>(files: seq<FileToZip<K>>, storage: map<K, Bytes>)
    ensures multiset(WithData(files, storage)) <= multiset(files)
  {
    if files != [] {
      WithDataSub(files[1..], storage);
      assert files == [files[0]] + files[1..];
    }
  }

  /** A sub-multiset of files with distinct output names has distinct
      output names. */
  lemma SubDistinctNames<K>(files: seq<FileToZip<K>>, ms: seq<FileToZip<K>>)
    requires DistinctNames(files) && multiset(ms) <= multiset(files)
    ensures DistinctNames(ms)
  {
    forall i, j | 0 <= i < j < |ms| ensures ms[i].outputName != ms[j].outputName {
      if ms[i].outputName == ms[j].outputName {
        assert ms[i] in multiset(files) && ms[j] in multiset(files);
        var p :| 0 <= p < |files| && files[p] == ms[i];
        var q :| 0 <= q < |files| && files[q] == ms[j];
        assert p == q;
        TwiceCounted(ms, i, j);
        OnceCounted(files, p);
        assert false;
      }
    }
  }

  lemma TwiceCounted<T>(s: seq<T>, i: nat, j: nat)
    requires i < j < |s| && s[i] == s[j]
    ensures multiset(s)[s[i]] >= 2
  {
    assert s == s[..j] + [s[j]] + s[j + 1..];
    assert s[i] in s[..j];
  }

  lemma OnceCounted<K>(files: seq<FileToZip<K>>, p: nat)
    requires DistinctNames(files) && p < |files|
    ensures multiset(files)[files[p]] == 1
  {
    var x := files[p];
    assert files == files[..p] + [x] + files[p + 1..];
    assert x !in files[..p];
    assert x !in files[p + 1..];
  }

  /** Two small stored files with one output name go to the same archive,
      which then holds a single file under that name with the later
      file's data: the earlier file is lost. */
  lemma SameNameOneFile<K>(f: FileToZip<K>, g: FileToZip<K>, storage: map<K, Bytes>, base: string)
    requires f.storageKey in storage && g.storageKey in storage && f.outputName == g.outputName
    requires 0 < f.size && 0 < g.size && f.size + g.size <= MAX_ZIP_SIZE
    ensures Pack([f, g], storage, base) == [ZipFile(base + ".zip", [f, g])]
    ensures ZipContents(MemberCalls([f, g])) == map[f.outputName := g.storageKey]
  {
    var st0: Packing<K> := InitialPacking();
    var st1 := Step(st0, f, storage, base);
    assert st1 == Packing([], [f], f.size, 1);
    var st2 := Step(st1, g, storage, base);
    assert st2 == Packing([], [f, g], f.size + g.size, 1);
    assert PackFrom([f, g], storage, base, st0) == PackFrom([g], storage, base, st1) by {
      assert [f, g][1..] == [g];
    }
    assert PackFrom([g], storage, base, st1) == PackFrom([], storage, base, st2) by {
      assert [g][1..] == [];
    }
    assert Pack([f, g], storage, base) == Finish(st2, base);
    assert MemberCalls([f, g]) == [(f.outputName, f.storageKey), (f.outputName, g.storageKey)];
    ZipContentsCollision(f.outputName, f.storageKey, g.storageKey);
  }

  // ------------------------------------------------ worked examples

  lemma PadSmall(base: string)
    ensures NumberedName(base, 1) == base + "-001.zip" && NumberedName(base, 2) == base + "-002.zip"
  {
    assert "-" + "001" + ".zip" == "-001.zip";
    assert "-" + "002" + ".zip" == "-002.zip";
    assert Decimal(1) == "1" && Decimal(2) == "2";
    assert Repeat('0', 2) == "00" by {
      assert Repeat('0', 0) == [];
      assert Repeat('0', 1) == "0";
    }
  }

  /** A lone oversized file gets `<base>-001.zip`, not `<base>.zip`. */
  lemma LoneOversizedIsNumbered<K>(f: FileToZip<K>, storage: map<K, Bytes>, base: string)
    requires f.storageKey in storage && f.size > MAX_ZIP_SIZE
    ensures Pack([f], storage, base) == [ZipFile(base + "-001.zip", [f])]
  {
    PadSmall(base);
    var st0: Packing<K> := InitialPacking();
    var st1 := Step(st0, f, storage, base);
    assert st1 == Packing([ZipFile(NumberedName(base, 1), [f])], [], 0, 2);
    assert PackFrom([f], storage, base, st0) == PackFrom([], storage, base, st1) by { assert [f][1..] == []; }
    assert Pack([f], storage, base) == Finish(st1, base);
  }

  /** A lone zero-size file produces no archive at all. */
  lemma LoneZeroSizeIsDropped<K>(f: FileToZip<K>, storage: map<K, Bytes>, base: string)
    requires f.storageKey in storage && f.size == 0
    ensures Pack([f], storage, base) == []
  {
    var st0: Packing<K> := InitialPacking();
    var st1 := Step(st0, f, storage, base);
    assert st1 == Packing([], [f], 0, 1);
    assert PackFrom([f], storage, base, st0) == PackFrom([], storage, base, st1) by { assert [f][1..] == []; }
    assert Pack([f], storage, base) == Finish(st1, base);
  }

  /** A zero-size file waiting in the accumulator when an oversized file
      arrives is emitted after the oversized file's archive. */
  lemma ZeroSizeMovesPastOversized<K>(z: FileToZip<K>, big: FileToZip<K>, a: FileToZip<K>,
                                      storage: map<K, Bytes>, base: string)
    requires z.storageKey in storage && big.storageKey in storage && a.storageKey in storage
    requires z.size == 0 && big.size > MAX_ZIP_SIZE && 0 < a.size <= MAX_ZIP_SIZE
    ensures Pack([z, big, a], storage, base)
         == [ZipFile(base + "-001.zip", [big]), ZipFile(base + "-002.zip", [z, a])]
  {
    PadSmall(base);
    var st0: Packing<K> := InitialPacking();
    var st1 := Step(st0, z, storage, base);
    assert st1 == Packing([], [z], 0, 1);
    var st2 := Step(st1, big, storage, base);
    assert st2 == Packing([ZipFile(NumberedName(base, 1), [big])], [z], 0, 2);
    var st3 := Step(st2, a, storage, base);
    assert st3 == Packing([ZipFile(NumberedName(base, 1), [big])], [z, a], a.size, 2);
    assert PackFrom([z, big, a], storage, base, st0) == PackFrom([big, a], storage, base, st1) by {
      assert [z, big, a][1..] == [big, a];
    }
    assert PackFrom([big, a], storage, base, st1) == PackFrom([a], storage, base, st2) by {
      assert [big, a][1..] == [a];
    }
    assert PackFrom([a], storage, base, st2) == PackFrom([], storage, base, st3) by {
      assert [a][1..] == [];
    }
    assert Pack([z, big, a], storage, base) == Finish(st3, base);
  }

  /** Two 200 MiB files under the 250 MiB cap: two archives of one file each. */
  lemma TwoLargeFiles<K>(f: FileToZip<K>, g: FileToZip<K>, storage: map<K, Bytes>, base: string)
    requires f.storageKey in storage && g.storageKey in storage
    requires f.size == 200 * 1024 * 1024 && g.size == 200 * 1024 * 1024
    ensures Pack([f, g], storage, base)
         == [ZipFile(base + "-001.zip", [f]), ZipFile(base + "-002.zip", [g])]
  {
    PadSmall(base);
    var st0: Packing<K> := InitialPacking();
    var st1 := Step(st0, f, storage, base);
    assert st1 == Packing([], [f], f.size, 1);
    var st2 := Step(st1, g, storage, base);
    assert st2 == Packing([ZipFile(NumberedName(base, 1), [f])], [g], g.size, 2);
    assert PackFrom([f, g], storage, base, st0) == PackFrom([g], storage, base, st1) by {
      assert [f, g][1..] == [g];
    }
    assert PackFrom([g], storage, base, st1) == PackFrom([], storage, base, st2) by {
      assert [g][1..] == [];
    }
    assert Pack([f, g], storage, base) == Finish(st2, base);
  }
}
