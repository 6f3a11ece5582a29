/** The catalog maintenance of `bowkin-db.py`: `rebuild`, `_find_matching_file`, `add` and
    `_already_in_db`, with the sqlite table as a sequence of rows and `glob` as a function. */
module CatalogDb {
  import opened Wrappers
  import opened Paths
  import LibcPath
  import Text

  /** A row of the rebuilt `libcs` table; a `None` column is SQL NULL. */
  datatype DbRow = DbRow(relpath: string, architecture: string, distro: Option<string>, release: Option<string>,
                         version: string, patch: Option<string>, buildID: Option<string>)

  // ---------------------------------------------------------------------------
  // rebuild

  /** The row `rebuild` inserts for the globbed path `dir + "/" + rel`, if the pattern accepts it.
      `buildIdOf` stands for `utils.extract_buildID`. */
  function RowFor(dir: string, rel: string, buildIdOf: string -> Option<string>): (r: Option<DbRow>)
    ensures r.Some? <==> LibcPath.Recognise(dir + "/" + rel).Some?
    ensures r.Some? ==> var m := LibcPath.Recognise(dir + "/" + rel).value;
              r.value.relpath == rel && r.value.architecture == m.architecture &&
              r.value.distro == m.distro && r.value.release == m.release &&
              r.value.version == m.version && r.value.patch == m.patch &&
              r.value.buildID == buildIdOf(dir + "/" + rel)
  {
    var path := dir + "/" + rel;
    match LibcPath.Recognise(path)
    case None => None
    case Some(m) => Some(DbRow(rel, m.architecture, m.distro, m.release, m.version, m.patch, buildIdOf(path)))
  }

  /** The rows of the accepted paths among `rels`, in glob order. */
  function RebuildRows(dir: string, rels: seq<string>, buildIdOf: string -> Option<string>): seq<DbRow>
  {
    if rels == [] then []
    else
      RebuildRows(dir, rels[..|rels| - 1], buildIdOf) +
        (match RowFor(dir, rels[|rels| - 1], buildIdOf) case Some(row) => [row] case None => [])
  }

  /** The number of globbed paths the pattern accepts. */
  function AcceptedCount(dir: string, rels: seq<string>): nat
  {
    if rels == [] then 0
    else AcceptedCount(dir, rels[..|rels| - 1]) + (if LibcPath.Recognise(dir + "/" + rels[|rels| - 1]).Some? then 1 else 0)
  }

  /** The rows of two runs of paths are the rows of each, one after the other. */
  lemma {:induction false} RebuildRowsAppend(dir: string, a: seq<string>, b: seq<string>, buildIdOf: string -> Option<string>)
    ensures RebuildRows(dir, a + b, buildIdOf) == RebuildRows(dir, a, buildIdOf) + RebuildRows(dir, b, buildIdOf)
    decreases |b|
  {
    if b == [] {
      assert a + b == a;
    } else {
      var b' := b[..|b| - 1];
      assert (a + b)[..|a + b| - 1] == a + b';
      assert (a + b)[|a + b| - 1] == b[|b| - 1];
      RebuildRowsAppend(dir, a, b', buildIdOf);
    }
  }

  /** One path gives one row exactly when the pattern accepts it. */
  lemma RebuildRowsSingle(dir: string, rel: string, buildIdOf: string -> Option<string>)
    ensures RebuildRows(dir, [rel], buildIdOf) ==
              (match RowFor(dir, rel, buildIdOf) case Some(row) => [row] case None => [])
  {
    assert [rel][..0] == [];
  }

  /** Exactly one row per accepted path. */
  lemma {:induction false} RebuildRowCount(dir: string, rels: seq<string>, buildIdOf: string -> Option<string>)
    ensures |RebuildRows(dir, rels, buildIdOf)| == AcceptedCount(dir, rels)
    ensures AcceptedCount(dir, rels) <= |rels|
  {
    if rels != [] {
      RebuildRowCount(dir, rels[..|rels| - 1], buildIdOf);
    }
  }

  /** The sqlite database file; `table` is None until `libcs` has been created. */
  class LibcsDb {
    var table: Option<seq<DbRow>>

    constructor ()
      ensures table.None?
    {
      table := None;
    }

    /** `rebuild`: drop and recreate the table, then insert one row per accepted globbed path.
        The new table depends on the paths only, never on the rows it replaces. */
    method Rebuild(dir: string, rels: seq<string>, buildIdOf: string -> Option<string>)
      modifies this
      ensures table == Some(RebuildRows(dir, rels, buildIdOf))
    {
      table := Some([]);
      for i := 0 to |rels|
        invariant table == Some(RebuildRows(dir, rels[..i], buildIdOf))
      {
        assert rels[..i + 1][..i] == rels[..i];
        assert rels[..i + 1][i] == rels[i];
        var row := RowFor(dir, rels[i], buildIdOf);
        assert RebuildRows(dir, rels[..i + 1], buildIdOf) ==
                 RebuildRows(dir, rels[..i], buildIdOf) + (match row case Some(x) => [x] case None => []);
        if row.Some? {
          table := Some(table.value + [row.value]);
        } else {
          assert table.value + [] == table.value;
        }
      }
      assert rels[..|rels|] == rels;
    }
  }

  // ---------------------------------------------------------------------------
  // _already_in_db

  /** The groups `utils.match` captures from a package name. */
  datatype PackageGroups = PackageGroups(architecture: string, version: string, patch: Option<string>)

  /** SQL `column = ?`: NULL on either side is never equal. */
  predicate SqlEq(column: Option<string>, value: Option<string>)
  {
    column.Some? && value.Some? && column.value == value.value
  }

  predicate RowMatches(row: DbRow, g: PackageGroups)
  {
    row.architecture == g.architecture && row.version == g.version && SqlEq(row.patch, g.patch)
  }

  /** The first row of `SELECT * ... where architecture=? and version=? and patch=?`. */
  function FirstRow(rows: seq<DbRow>, g: PackageGroups): (r: Option<DbRow>)
    ensures r.Some? ==> r.value in rows && RowMatches(r.value, g)
    ensures r.None? <==> forall i :: 0 <= i < |rows| ==> !RowMatches(rows[i], g)
  {
    if rows == [] then None
    else if RowMatches(rows[0], g) then Some(rows[0])
    else FirstRow(rows[1..], g)
  }

  /** `_already_in_db`: the first matching row, which is truthy, or None for False. A name
      the package patterns reject, and a table not created yet, give False. */
  function AlreadyInDb(groups: Option<PackageGroups>, table: Option<seq<DbRow>>): (r: Option<DbRow>)
    ensures r.Some? <==> groups.Some? && table.Some? &&
                         exists i :: 0 <= i < |table.value| && RowMatches(table.value[i], groups.value)
    ensures r.Some? ==> r.value in table.value && RowMatches(r.value, groups.value)
  {
    match groups
    case None => None
    case Some(g) => if table.None? then None else FirstRow(table.value, g)
  }

  /** A package without a patch group is never found, as `patch = NULL` never holds. */
  lemma NoPatchNeverInDb(g: PackageGroups, table: Option<seq<DbRow>>)
    requires g.patch.None?
    ensures AlreadyInDb(Some(g), table).None?
  {
  }

  // ---------------------------------------------------------------------------
  // _find_matching_file

  /** The `assert len(filepaths) == 1` failing. */
  datatype AddError = SeveralMatches(pattern: string)

  /** The position of the first pattern `glob` finds anything for. */
  function FirstNonEmpty(patterns: seq<string>, glob: string -> seq<string>): (r: Option<nat>)
    ensures r.Some? ==> r.value < |patterns| && glob(patterns[r.value]) != [] &&
                        forall k :: 0 <= k < r.value ==> glob(patterns[k]) == []
    ensures r.None? <==> forall k :: 0 <= k < |patterns| ==> glob(patterns[k]) == []
  {
    if patterns == [] then None
    else if glob(patterns[0]) != [] then Some(0)
    else match FirstNonEmpty(patterns[1..], glob)
      case None => None
      case Some(i) => Some(i + 1)
  }

  /** What `_find_matching_file` returns: the single result of the first pattern with results,
      None when no pattern has any, and an error when that first pattern has several. */
  function FirstMatch(patterns: seq<string>, glob: string -> seq<string>): Result<Option<string>, AddError>
  {
    match FirstNonEmpty(patterns, glob)
    case None => Ok(None)
    case Some(i) =>
      var found := glob(patterns[i]);
      if |found| == 1 then Ok(Some(found[0])) else Err(SeveralMatches(patterns[i]))
  }

  lemma FirstMatchSpec(patterns: seq<string>, glob: string -> seq<string>)
    ensures var r := FirstMatch(patterns, glob);
            (r == Ok(None) <==> forall k :: 0 <= k < |patterns| ==> glob(patterns[k]) == []) &&
            (r.Ok? && r.value.Some? ==> exists i :: 0 <= i < |patterns| && glob(patterns[i]) == [r.value.value] &&
                                           forall k :: 0 <= k < i ==> glob(patterns[k]) == []) &&
            (r.Err? ==> exists i :: 0 <= i < |patterns| && |glob(patterns[i])| > 1 &&
                          forall k :: 0 <= k < i ==> glob(patterns[k]) == [])
  {
  }

  /** `_find_matching_file`: the loop with its early return. */
  method FindMatchingFile(patterns: seq<string>, glob: string -> seq<string>) returns (r: Result<Option<string>, AddError>)
    ensures r == FirstMatch(patterns, glob)
  {
    for i := 0 to |patterns|
      invariant forall k :: 0 <= k < i ==> glob(patterns[k]) == []
    {
      var found := glob(patterns[i]);
      if found != [] {
        if |found| != 1 {
          return Err(SeveralMatches(patterns[i]));
        }
        return Ok(Some(found[0]));
      }
    }
    return Ok(None);
  }

  // ---------------------------------------------------------------------------
  // add

  /** Python's `f"{x}"` of an optional string. */
  function PyStr(s: Option<string>): string
  {
    match s case Some(v) => v case None => "None"
  }

  function NewLdName(g: PackageGroups): string
  {
    "ld-" + g.architecture + "-" + g.version + "-" + PyStr(g.patch) + ".so"
  }

  function NewLibcName(g: PackageGroups): string
  {
    "libc-" + g.architecture + "-" + g.version + "-" + PyStr(g.patch) + ".so"
  }

  function NewSymbolsName(g: PackageGroups): string
  {
    NewLibcName(g) + ".debug"
  }

  /** Search patterns for the loader, the libc and its debug symbols in the extracted package. */
  function LdSearchPaths(tmp: string): seq<string>
  {
    [Join(tmp, "lib/aarch64-linux-gnu/ld-*.so"), Join(tmp, "lib/arm-linux-gnueabihf/ld-*.so"),
     Join(tmp, "lib/arm-linux-gnueabi/ld-*.so"), Join(tmp, "lib/i386-linux-gnu/ld-*.so"),
     Join(tmp, "lib/x86_64-linux-gnu/ld-*.so"), Join(tmp, "usr/lib/ld-*.so")]
  }

  function LibcSearchPaths(tmp: string): seq<string>
  {
    [Join(tmp, "lib/aarch64-linux-gnu/libc-*.so"), Join(tmp, "lib/arm-linux-gnueabihf/libc-*.so"),
     Join(tmp, "lib/arm-linux-gnueabi/libc-*.so"), Join(tmp, "lib/i386-linux-gnu/libc-*.so"),
     Join(tmp, "lib/x86_64-linux-gnu/libc-*.so"), Join(tmp, "usr/lib/libc-*.so")]
  }

  function SymbolsSearchPaths(tmp: string): seq<string>
  {
    [Join(tmp, "usr/lib/debug/lib/i386-linux-gnu/libc-*.so"), Join(tmp, "usr/lib/debug/lib/x86_64-linux-gnu/libc-*.so")]
  }

  /** How `add` ends when it does not raise. */
  datatype AddOutcome = NoPattern | ExtractionFailed | NothingFound | Kept

  /** A `shutil.copy2(source, target)`. */
  datatype Copy = Copy(source: string, target: string)

  /** `_find_matching_file_and_add_to_db`: the new path and the copy made when a file is found. */
  function FindAndCopy(patterns: seq<string>, glob: string -> seq<string>, target: string)
    : (Result<Option<string>, AddError>, seq<Copy>)
  {
    match FirstMatch(patterns, glob)
    case Err(e) => (Err(e), [])
    case Ok(None) => (Ok(None), [])
    case Ok(Some(f)) => (Ok(Some(target)), [Copy(f, target)])
  }

  /** The outcome of `add` and the copies it makes, in order. `groups` is what `utils.match`
      captures from the package name and `extracted` the directory `extract` returns (None when
      the extraction command fails). */
  function AddPlan(package: string, dest: string, groups: Option<PackageGroups>, extracted: Option<string>,
                   glob: string -> seq<string>): (Result<AddOutcome, AddError>, seq<Copy>)
  {
    if groups.None? then (Ok(NoPattern), [])
    else if extracted.None? then (Ok(ExtractionFailed), [])
    else
      var g := groups.value;
      var tmp := extracted.value;
      Combine(package, dest,
              FindAndCopy(LdSearchPaths(tmp), glob, Join(dest, NewLdName(g))),
              FindAndCopy(LibcSearchPaths(tmp), glob, Join(dest, NewLibcName(g))),
              FindAndCopy(SymbolsSearchPaths(tmp), glob, Join(dest, NewSymbolsName(g))))
  }

  /** The three searches in order: an error stops `add` where it happens, and the package is
      copied last when anything was found. */
  function Combine(package: string, dest: string, ld: (Result<Option<string>, AddError>, seq<Copy>),
                   libc: (Result<Option<string>, AddError>, seq<Copy>),
                   symbols: (Result<Option<string>, AddError>, seq<Copy>)): (Result<AddOutcome, AddError>, seq<Copy>)
  {
    if ld.0.Err? then (Err(ld.0.error), [])
    else if libc.0.Err? then (Err(libc.0.error), ld.1)
    else if symbols.0.Err? then (Err(symbols.0.error), ld.1 + libc.1)
    else if ld.0.value.None? && libc.0.value.None? && symbols.0.value.None? then
      (Ok(NothingFound), ld.1 + libc.1 + symbols.1)
    else (Ok(Kept), ld.1 + libc.1 + symbols.1 + [Copy(package, dest)])
  }

  /** The files copied, as a log of copies in the order they happen. */
  class Disk {
    var copies: seq<Copy>

    constructor ()
      ensures copies == []
    {
      copies := [];
    }

    method CopyFile(source: string, target: string)
      modifies this
      ensures copies == old(copies) + [Copy(source, target)]
    {
      copies := copies + [Copy(source, target)];
    }
  }

  /** `_find_matching_file_and_add_to_db`. */
  method FindAndCopyFile(disk: Disk, patterns: seq<string>, glob: string -> seq<string>, target: string)
    returns (r: Result<Option<string>, AddError>)
    modifies disk
    ensures r == FindAndCopy(patterns, glob, target).0
    ensures disk.copies == old(disk.copies) + FindAndCopy(patterns, glob, target).1
  {
    var found := FindMatchingFile(patterns, glob);
    if found.Err? {
      return Err(found.error);
    }
    if found.value.None? {
      return Ok(None);
    }
    disk.CopyFile(found.value.value, target);
    return Ok(Some(target));
  }

  /** `add`: give up on an unrecognised name or a failed extraction; copy the loader, the libc
      and the debug symbols that are found under their new names; keep the package only when
      at least one of them was found. A pattern with several results raises. */
  method Add(disk: Disk, package: string, dest: string, groups: Option<PackageGroups>, extracted: Option<string>,
             glob: string -> seq<string>) returns (r: Result<AddOutcome, AddError>)
    modifies disk
    ensures r == AddPlan(package, dest, groups, extracted, glob).0
    ensures disk.copies == old(disk.copies) + AddPlan(package, dest, groups, extracted, glob).1
  {
    if groups.None? {
      assert old(disk.copies) + [] == old(disk.copies);
      return Ok(NoPattern);
    }
    if extracted.None? {
      assert old(disk.copies) + [] == old(disk.copies);
      return Ok(ExtractionFailed);
    }
    var g := groups.value;
    var tmp := extracted.value;
    r := SearchAndKeep(disk, package, dest, LdSearchPaths(tmp), LibcSearchPaths(tmp), SymbolsSearchPaths(tmp), glob,
                       Join(dest, NewLdName(g)), Join(dest, NewLibcName(g)), Join(dest, NewSymbolsName(g)));
  }

  /** The three searches of `add` and the final copy of the package, over any search lists. */
  method SearchAndKeep(disk: Disk, package: string, dest: string, ldPaths: seq<string>, libcPaths: seq<string>,
                       symbolsPaths: seq<string>, glob: string -> seq<string>,
                       ldTarget: string, libcTarget: string, symbolsTarget: string)
    returns (r: Result<AddOutcome, AddError>)
    modifies disk
    ensures var plan := Combine(package, dest, FindAndCopy(ldPaths, glob, ldTarget),
                                FindAndCopy(libcPaths, glob, libcTarget),
                                FindAndCopy(symbolsPaths, glob, symbolsTarget));
            r == plan.0 && disk.copies == old(disk.copies) + plan.1
  {
    ghost var start := disk.copies;
    ghost var pld := FindAndCopy(ldPaths, glob, ldTarget);
    ghost var plibc := FindAndCopy(libcPaths, glob, libcTarget);
    ghost var psymbols := FindAndCopy(symbolsPaths, glob, symbolsTarget);
    var ld := FindAndCopyFile(disk, ldPaths, glob, ldTarget);
    if ld.Err? {
      assert start + [] == start;
      return Err(ld.error);
    }
    var libc := FindAndCopyFile(disk, libcPaths, glob, libcTarget);
    AppendAssoc(start, pld.1, plibc.1);
    if libc.Err? {
      return Err(libc.error);
    }
    var symbols := FindAndCopyFile(disk, symbolsPaths, glob, symbolsTarget);
    AppendAssoc(start, pld.1 + plibc.1, psymbols.1);
    if symbols.Err? {
      return Err(symbols.error);
    }
    if ld.value.None? && libc.value.None? && symbols.value.None? {
      return Ok(NothingFound);
    }
    disk.CopyFile(package, dest);
    AppendAssoc(start, pld.1 + plibc.1 + psymbols.1, [Copy(package, dest)]);
    return Ok(Kept);
  }

  lemma AppendAssoc<T>(a: seq<T>, b: seq<T>, c: seq<T>)
    ensures a + b + c == a + (b + c)
  {
  }

  // ---------------------------------------------------------------------------
  // What add promises

  /** The three searches over any pattern lists: where `add` stops, what it copies and when it
      keeps the package. */
  lemma CombineSpec(package: string, dest: string, ldPaths: seq<string>, libcPaths: seq<string>,
                    symbolsPaths: seq<string>, glob: string -> seq<string>,
                    ldTarget: string, libcTarget: string, symbolsTarget: string)
    requires ldTarget != dest && libcTarget != dest && symbolsTarget != dest
    ensures var plan := Combine(package, dest, FindAndCopy(ldPaths, glob, ldTarget),
                                FindAndCopy(libcPaths, glob, libcTarget),
                                FindAndCopy(symbolsPaths, glob, symbolsTarget));
            var ld := FirstMatch(ldPaths, glob);
            var libc := FirstMatch(libcPaths, glob);
            var symbols := FirstMatch(symbolsPaths, glob);
            (plan.0.Ok? <==> ld.Ok? && libc.Ok? && symbols.Ok?) &&
            (ld.Err? ==> plan.0 == Err(ld.error) && plan.1 == []) &&
            (ld.Ok? && libc.Err? ==> plan.0 == Err(libc.error)) &&
            (ld.Ok? && libc.Ok? && symbols.Err? ==> plan.0 == Err(symbols.error)) &&
            (plan.0 == Ok(NothingFound) <==> ld == Ok(None) && libc == Ok(None) && symbols == Ok(None)) &&
            (plan.0 == Ok(Kept) <==>
               ld.Ok? && libc.Ok? && symbols.Ok? && (ld.value.Some? || libc.value.Some? || symbols.value.Some?)) &&
            (plan.0 == Ok(Kept) <==> Copy(package, dest) in plan.1) &&
            (ld.Ok? && ld.value.Some? ==> Copy(ld.value.value, ldTarget) in plan.1) &&
            (ld.Ok? && libc.Ok? && libc.value.Some? ==> Copy(libc.value.value, libcTarget) in plan.1) &&
            (plan.0.Ok? && symbols.value.Some? ==> Copy(symbols.value.value, symbolsTarget) in plan.1) &&
            (forall c :: c in plan.1 ==> c.target in {ldTarget, libcTarget, symbolsTarget, dest})
  {
    var ld := FindAndCopy(ldPaths, glob, ldTarget);
    var libc := FindAndCopy(libcPaths, glob, libcTarget);
    var symbols := FindAndCopy(symbolsPaths, glob, symbolsTarget);
    assert forall c :: c in ld.1 ==> c.target == ldTarget;
    assert forall c :: c in libc.1 ==> c.target == libcTarget;
    assert forall c :: c in symbols.1 ==> c.target == symbolsTarget;
  }

  /** A relative name joined under a directory is a longer path than the directory. */
  lemma JoinGrows(a: string, b: string)
    requires b != [] && b[0] != '/'
    ensures |Join(a, b)| > |a|
  {
  }

  /** `add` on an unrecognised name or a failed extraction copies nothing; otherwise it copies
      only to the three new names and to the destination directory, and the package is kept
      exactly when one of the three searches found a file and none of them failed. */
  lemma AddSpec(package: string, dest: string, groups: Option<PackageGroups>, extracted: Option<string>,
                glob: string -> seq<string>)
    ensures var plan := AddPlan(package, dest, groups, extracted, glob);
            (groups.None? ==> plan == (Ok(NoPattern), [])) &&
            (groups.Some? && extracted.None? ==> plan == (Ok(ExtractionFailed), [])) &&
            (groups.Some? && extracted.Some? ==>
               var g := groups.value;
               var tmp := extracted.value;
               var ld := FirstMatch(LdSearchPaths(tmp), glob);
               var libc := FirstMatch(LibcSearchPaths(tmp), glob);
               var symbols := FirstMatch(SymbolsSearchPaths(tmp), glob);
               (plan.0.Ok? <==> ld.Ok? && libc.Ok? && symbols.Ok?) &&
               (plan.0 == Ok(Kept) <==>
                  ld.Ok? && libc.Ok? && symbols.Ok? && (ld.value.Some? || libc.value.Some? || symbols.value.Some?)) &&
               (plan.0 == Ok(Kept) <==> Copy(package, dest) in plan.1) &&
               (forall c :: c in plan.1 ==>
                  c.target in {Join(dest, NewLdName(g)), Join(dest, NewLibcName(g)), Join(dest, NewSymbolsName(g)), dest}))
  {
    if groups.Some? && extracted.Some? {
      var g := groups.value;
      var tmp := extracted.value;
      JoinGrows(dest, NewLdName(g));
      JoinGrows(dest, NewLibcName(g));
      JoinGrows(dest, NewSymbolsName(g));
      CombineSpec(package, dest, LdSearchPaths(tmp), LibcSearchPaths(tmp), SymbolsSearchPaths(tmp), glob,
                  Join(dest, NewLdName(g)), Join(dest, NewLibcName(g)), Join(dest, NewSymbolsName(g)));
    }
  }

  /** The libc file `add` writes is named the way `rebuild`'s pattern reads it: the groups come
      back unchanged, except that a missing patch comes back as the text "None". */
  lemma NewLibcNameRead(g: PackageGroups)
    requires g.architecture in LibcPath.ARCHES && LibcPath.VersionShape(g.version)
    requires PyStr(g.patch) != [] && LibcPath.NoNewline(PyStr(g.patch))
    ensures NewLibcName(g) == LibcPath.FileName(g.architecture, g.version, Some(PyStr(g.patch)))
    ensures LibcPath.TailOf(NewLibcName(g)) == Some(LibcPath.Tail(g.architecture, g.version, Some(PyStr(g.patch))))
  {
    var a, v, p := g.architecture, g.version, PyStr(g.patch);
    assert "libc-" + a + "-" + v + "-" + p + ".so" == "libc-" + ((a + "-") + (v + ("-" + p + ".so")));
    LibcPath.TailOfFileName(a, v, Some(p));
  }

  /** A libc added under `<distro>/<release>` of the catalog directory is rebuilt into a row
      with the package's architecture, version and patch and the directory's distro and release. */
  lemma AddedLibcRebuilt(root: string, distro: string, release: string, g: PackageGroups,
                         buildIdOf: string -> Option<string>)
    requires LibcPath.NoNewline(root)
    requires forall k :: 0 <= k < |root| ==>
               !Text.At(root + "libcs/" + (distro + "/" + (release + "/" + NewLibcName(g))), k, "libcs/")
    requires distro != [] && LibcPath.NoSlash(distro) && LibcPath.NoNewline(distro)
    requires release != [] && LibcPath.NoSlash(release) && LibcPath.NoNewline(release)
    requires g.architecture in LibcPath.ARCHES && LibcPath.VersionShape(g.version)
    requires PyStr(g.patch) != [] && LibcPath.NoNewline(PyStr(g.patch))
    ensures var rel := distro + "/" + (release + "/" + NewLibcName(g));
            var row := RowFor(root + "libcs", rel, buildIdOf);
            row.Some? && row.value.relpath == rel && row.value.architecture == g.architecture &&
            row.value.distro == Some(distro) && row.value.release == Some(release) &&
            row.value.version == g.version && row.value.patch == Some(PyStr(g.patch))
  {
    var rel := distro + "/" + (release + "/" + NewLibcName(g));
    NewLibcNameRead(g);
    LibcPath.TwoLevels(root, distro, release, NewLibcName(g));
    assert root + "libcs" + "/" + rel == root + "libcs/" + rel;
  }

  /** The debug-symbol file `add` writes never becomes a row. */
  lemma SymbolsNotRebuilt(dir: string, rel: string, g: PackageGroups, buildIdOf: string -> Option<string>)
    requires LibcPath.EndsWith(rel, NewSymbolsName(g))
    ensures RowFor(dir, rel, buildIdOf).None?
  {
    var s := dir + "/" + rel;
    assert LibcPath.EndsWith(NewSymbolsName(g), ".debug");
    LibcPath.EndsWithTrans(s, rel, NewSymbolsName(g));
    LibcPath.EndsWithTrans(s, NewSymbolsName(g), ".debug");
    assert s[|s| - 1] == 'g';
    LibcPath.OnlySoFiles(s);
  }
}
