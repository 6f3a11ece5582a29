/** `bowkin-patchelf.py`: identify the libc, choose its catalog entry, confirm, copy the loader
    and the libc beside the binary, confirm again, copy the binary and patch the copy. The
    filesystem and the `patchelf` runs are an action log; standard input is the sequence of
    lines the user types, read in turn by `get_entry` and the two questions. */
module PatchElf {
  import opened Wrappers
  import opened Text
  import opened Paths
  import Utils
  import Catalog
  import Packages
  import LibcPath

  const NOT_IN_DATABASE := "The supplied libc is not in the database."

  /** `abort(message)`: `not message` holds for None and for the empty string, and both print
      the default. */
  function AbortMessage(message: Option<string>): (r: string)
    ensures r != []
    ensures message.Some? && message.value != [] ==> r == message.value
  {
    if message.None? || message.value == [] then "Aborted." else message.value
  }

  /** The loader beside a catalog libc: the directory, `/ld-`, and the base name with every
      `libc-` removed. */
  function LdPathFor(libcPath: string): string
  {
    Dirname(libcPath) + "/ld-" + RemoveAll(Basename(libcPath), "libc-")
  }

  /** The copy of the binary that is patched. */
  function PatchedName(binaryPath: string, version: string): (r: string)
    ensures r != binaryPath && |r| > |binaryPath| && r[..|binaryPath|] == binaryPath
  {
    binaryPath + "-" + version
  }

  /** The effects on the filesystem, in order. A `Copy` to a directory keeps the base name. */
  datatype Action =
    | Copy(source: string, target: string)
    | SetInterpreter(interpreter: string, file: string)
    | AddNeeded(library: string, file: string)

  /** How the script ends: `abort` with its message, `exit(0)` from `get_entry`, an exception
      (no build id, or no line left to read), or `Done.`. */
  datatype Outcome = Aborted(message: string) | Quit | Crashed | Done

  // ---------------------------------------------------------------------------
  // What the script does

  /** The lines left for the two questions once `get_entry` has read its own. */
  function Answers(matches: seq<Catalog.Entry>, stdin: seq<string>): seq<string>
  {
    stdin[Catalog.LinesRead(matches, stdin)..]
  }

  /** The steps after the entry is chosen, with the lines left to answer the questions. */
  function PatchPlan(e: Catalog.Entry, binaryPath: string, lines: seq<string>): (Outcome, seq<Action>)
  {
    var libc := e.filepath;
    var ld := LdPathFor(libc);
    var dir := Dirname(binaryPath);
    var patched := PatchedName(binaryPath, e.version);
    var copies := [Copy(ld, dir), Copy(libc, dir)];
    if lines == [] then (Crashed, [])
    else if !Utils.QueryYesNo(lines[0]) then (Aborted(AbortMessage(None)), [])
    else if |lines| == 1 then (Crashed, copies)
    else if !Utils.QueryYesNo(lines[1]) then (Aborted(AbortMessage(None)), copies)
    else (Done, copies + [Copy(binaryPath, patched),
                          SetInterpreter("./" + Basename(ld), patched),
                          AddNeeded("./" + Basename(libc), patched)])
  }

  /** The whole script, given what `identify` returned. */
  function Plan(identified: Result<seq<Catalog.Entry>, Catalog.CatalogError>, binaryPath: string,
                stdin: seq<string>): (Outcome, seq<Action>)
  {
    match identified
    case Err(_) => (Crashed, [])
    case Ok(matches) =>
      if matches == [] then (Aborted(AbortMessage(Some(NOT_IN_DATABASE))), [])
      else match Catalog.ChooseEntry(matches, stdin)
        case Quit => (Quit, [])
        case NoMoreInput => (Crashed, [])
        case Chosen(e) => PatchPlan(e, binaryPath, Answers(matches, stdin))
  }

  /** What `identify` returns for the catalog's groups. */
  function Identified(groups: seq<Catalog.Group>, libcPath: string, fileOutput: string -> string):
    Result<seq<Catalog.Entry>, Catalog.CatalogError>
  {
    var id := Catalog.CommaBuildId(fileOutput(libcPath));
    if id.None? then Err(Catalog.NoBuildId(libcPath)) else Ok(Catalog.Members(groups, id.value))
  }

  /** The files the script touches. */
  class Workspace {
    var actions: seq<Action>

    constructor ()
      ensures actions == []
    {
      actions := [];
    }

    method Perform(a: Action)
      modifies this
      ensures actions == old(actions) + [a]
    {
      actions := actions + [a];
    }
  }

  /** The script, from catalog lookup to the patch. */
  method Run(ws: Workspace, store: Catalog.Store, binaryPath: string, libcPath: string,
             fileOutput: string -> string, stdin: seq<string>) returns (o: Outcome)
    requires store.Valid()
    modifies ws, store
    ensures store.Valid()
    ensures Catalog.CommaBuildId(fileOutput(libcPath)).None? ==> store.groups == old(store.groups)
    ensures Catalog.CommaBuildId(fileOutput(libcPath)).Some? ==>
              store.groups == Catalog.Touch(old(store.groups), Catalog.CommaBuildId(fileOutput(libcPath)).value)
    ensures var plan := Plan(Identified(old(store.groups), libcPath, fileOutput), binaryPath, stdin);
            o == plan.0 && ws.actions == old(ws.actions) + plan.1
  {
    ghost var identified := Identified(store.groups, libcPath, fileOutput);
    var r := Catalog.Identify(store, libcPath, fileOutput);
    assert r == identified;
    if r.Err? {
      assert old(ws.actions) + [] == old(ws.actions);
      return Crashed;
    }
    var matches := r.value;
    if matches == [] {
      assert old(ws.actions) + [] == old(ws.actions);
      return Aborted(AbortMessage(Some(NOT_IN_DATABASE)));
    }
    var choice, used := Catalog.GetEntry(matches, stdin);
    if !choice.Chosen? {
      assert old(ws.actions) + [] == old(ws.actions);
      return if choice.Quit? then Quit else Crashed;
    }
    var e := choice.entry;
    o := Patch(ws, e, binaryPath, stdin[used..]);
  }

  /** The two confirmations, the copies and the patch. */
  method Patch(ws: Workspace, e: Catalog.Entry, binaryPath: string, lines: seq<string>) returns (o: Outcome)
    modifies ws
    ensures var plan := PatchPlan(e, binaryPath, lines);
            o == plan.0 && ws.actions == old(ws.actions) + plan.1
  {
    ghost var start := ws.actions;
    var libc := e.filepath;
    var ld := LdPathFor(libc);
    var dir := Dirname(binaryPath);
    if lines == [] || !Utils.QueryYesNo(lines[0]) {
      assert start + [] == start;
      return if lines == [] then Crashed else Aborted(AbortMessage(None));
    }
    ws.Perform(Copy(ld, dir));
    ws.Perform(Copy(libc, dir));
    assert ws.actions == start + [Copy(ld, dir), Copy(libc, dir)];
    if |lines| == 1 || !Utils.QueryYesNo(lines[1]) {
      return if |lines| == 1 then Crashed else Aborted(AbortMessage(None));
    }
    var patched := PatchedName(binaryPath, e.version);
    ws.Perform(Copy(binaryPath, patched));
    ws.Perform(SetInterpreter("./" + Basename(ld), patched));
    ws.Perform(AddNeeded("./" + Basename(libc), patched));
    return Done;
  }

  // ---------------------------------------------------------------------------
  // What the order of the steps guarantees

  /** The lines that answer the two questions, when an entry was chosen. */
  predicate Confirmed(matches: seq<Catalog.Entry>, stdin: seq<string>, question: nat)
  {
    var lines := Answers(matches, stdin);
    question < |lines| && Utils.QueryYesNo(lines[question])
  }

  /** The "not in the database" abort happens exactly when the libc's build id has no
      entries, and then nothing is touched. */
  lemma UnidentifiedAborts(identified: Result<seq<Catalog.Entry>, Catalog.CatalogError>,
                           binaryPath: string, stdin: seq<string>)
    ensures Plan(identified, binaryPath, stdin).0 == Aborted(NOT_IN_DATABASE) <==> identified == Ok([])
    ensures identified == Ok([]) ==> Plan(identified, binaryPath, stdin).1 == []
  {
    if identified.Ok? && identified.value != [] {
      var matches := identified.value;
      match Catalog.ChooseEntry(matches, stdin)
      case Chosen(e) =>
        assert AbortMessage(None) == "Aborted." != NOT_IN_DATABASE;
      case Quit =>
      case NoMoreInput =>
    }
  }

  /** Nothing is copied unless an entry was chosen and the first question answered yes. */
  lemma RefusalCopiesNothing(identified: Result<seq<Catalog.Entry>, Catalog.CatalogError>,
                             binaryPath: string, stdin: seq<string>)
    ensures Plan(identified, binaryPath, stdin).1 != [] ==>
              identified.Ok? && Catalog.ChooseEntry(identified.value, stdin).Chosen? &&
              Confirmed(identified.value, stdin, 0)
  {
  }

  /** The script ends with `Done.` exactly when both questions are answered yes, and then has
      done the five steps in order; short of that it has at most copied into the binary's
      directory: the binary is neither copied nor patched. */
  lemma DoneSpec(identified: Result<seq<Catalog.Entry>, Catalog.CatalogError>,
                 binaryPath: string, stdin: seq<string>)
    ensures var plan := Plan(identified, binaryPath, stdin);
            plan.0 == Done <==>
              identified.Ok? && identified.value != [] && Catalog.ChooseEntry(identified.value, stdin).Chosen? &&
              Confirmed(identified.value, stdin, 0) && Confirmed(identified.value, stdin, 1)
    ensures var plan := Plan(identified, binaryPath, stdin);
            plan.0 == Done ==>
              var e := Catalog.ChooseEntry(identified.value, stdin).entry;
              var ld := LdPathFor(e.filepath);
              var patched := PatchedName(binaryPath, e.version);
              plan.1 == [Copy(ld, Dirname(binaryPath)), Copy(e.filepath, Dirname(binaryPath)),
                         Copy(binaryPath, patched), SetInterpreter("./" + Basename(ld), patched),
                         AddNeeded("./" + Basename(e.filepath), patched)]
    ensures var plan := Plan(identified, binaryPath, stdin);
            plan.0 != Done ==> forall a :: a in plan.1 ==> a.Copy? && a.target == Dirname(binaryPath)
  {
    if identified.Ok? && identified.value != [] {
      var c := Catalog.ChooseEntry(identified.value, stdin);
      if c.Chosen? {
        PatchPlanDone(c.entry, binaryPath, Answers(identified.value, stdin));
      }
    }
  }

  /** Once an entry is chosen: `Done.` exactly after two yes answers, with the five steps;
      short of that, at most the two copies into the binary's directory. */
  lemma PatchPlanDone(e: Catalog.Entry, binaryPath: string, lines: seq<string>)
    ensures var plan := PatchPlan(e, binaryPath, lines);
            plan.0 == Done <==> 2 <= |lines| && Utils.QueryYesNo(lines[0]) && Utils.QueryYesNo(lines[1])
    ensures var plan := PatchPlan(e, binaryPath, lines);
            var ld := LdPathFor(e.filepath);
            var patched := PatchedName(binaryPath, e.version);
            plan.0 == Done ==>
              plan.1 == [Copy(ld, Dirname(binaryPath)), Copy(e.filepath, Dirname(binaryPath)),
                         Copy(binaryPath, patched), SetInterpreter("./" + Basename(ld), patched),
                         AddNeeded("./" + Basename(e.filepath), patched)]
    ensures var plan := PatchPlan(e, binaryPath, lines);
            plan.0 != Done ==> forall a :: a in plan.1 ==> a.Copy? && a.target == Dirname(binaryPath)
  {
  }

  /** `patchelf` only ever rewrites the copy: every patch action names the patched file,
      which differs from the binary and is the target of the binary's copy made before it. */
  predicate PatchesCopy(acts: seq<Action>, binaryPath: string)
  {
    forall i :: 0 <= i < |acts| && (acts[i].SetInterpreter? || acts[i].AddNeeded?) ==>
      acts[i].file != binaryPath && Copy(binaryPath, acts[i].file) in acts[..i]
  }

  lemma PatchPlanPatchesCopy(e: Catalog.Entry, binaryPath: string, lines: seq<string>)
    ensures PatchesCopy(PatchPlan(e, binaryPath, lines).1, binaryPath)
  {
    var plan := PatchPlan(e, binaryPath, lines);
    var dir := Dirname(binaryPath);
    var ld := LdPathFor(e.filepath);
    var patched := PatchedName(binaryPath, e.version);
    if plan.0 == Done {
      DonePatchesCopy([Copy(ld, dir), Copy(e.filepath, dir)], binaryPath, patched,
                      "./" + Basename(ld), "./" + Basename(e.filepath));
    } else {
      CopiesPatchNothing(plan.1, binaryPath);
    }
  }

  /** The copies, the binary's copy, then the two patches of that copy. */
  lemma DonePatchesCopy(copies: seq<Action>, binaryPath: string, patched: string, interp: string, lib: string)
    requires |copies| == 2 && copies[0].Copy? && copies[1].Copy? && patched != binaryPath
    ensures PatchesCopy(copies + [Copy(binaryPath, patched), SetInterpreter(interp, patched),
                                  AddNeeded(lib, patched)], binaryPath)
  {
    var acts := copies + [Copy(binaryPath, patched), SetInterpreter(interp, patched), AddNeeded(lib, patched)];
    forall i | 0 <= i < |acts| && (acts[i].SetInterpreter? || acts[i].AddNeeded?)
      ensures acts[i].file != binaryPath && Copy(binaryPath, acts[i].file) in acts[..i]
    {
      assert acts[..i][2] == Copy(binaryPath, patched);
    }
  }

  lemma CopiesPatchNothing(acts: seq<Action>, binaryPath: string)
    requires forall a :: a in acts ==> a.Copy?
    ensures PatchesCopy(acts, binaryPath)
  {
    assert forall i :: 0 <= i < |acts| ==> acts[i] in acts;
  }

  lemma PatchesOnlyTheCopy(identified: Result<seq<Catalog.Entry>, Catalog.CatalogError>,
                           binaryPath: string, stdin: seq<string>)
    ensures PatchesCopy(Plan(identified, binaryPath, stdin).1, binaryPath)
  {
    if identified.Ok? && identified.value != [] {
      var matches := identified.value;
      var c := Catalog.ChooseEntry(matches, stdin);
      if c.Chosen? {
        PatchPlanPatchesCopy(c.entry, binaryPath, Answers(matches, stdin));
      }
    }
  }

  // ---------------------------------------------------------------------------
  // The loader beside the libc

  /** For a libc named `libc-<rest>` in a directory, the loader is `ld-<rest>` in the same
      directory, when `libc-` does not occur again in `rest`. */
  lemma LdPathOfLibc(dir: string, rest: string)
    requires dir != [] && dir[|dir| - 1] != '/'
    requires NoSlash(rest) && forall i: nat | i <= |rest| :: !At(rest, i, "libc-")
    ensures LdPathFor(dir + "/" + ("libc-" + rest)) == dir + "/ld-" + rest
  {
    var name := "libc-" + rest;
    assert NoSlash(name) by {
      assert '/' !in "libc-";
    }
    DirnameBasenameOfJoin(dir, name);
    assert name[..5] == "libc-" && name[5..] == rest;
    RemoveAllAbsent(rest, "libc-");
  }

  /** The loader path the script derives from the file `add_libc.py` writes under the name
      `libc-…` is the file `add_libc.py` writes under the name `ld-…` (both copies of the package
      archive). */
  lemma AddedLdFound(libcsDir: string, package: string, d: Packages.Distro, m: Packages.PackageMatch)
    requires libcsDir != [] && libcsDir[|libcsDir| - 1] != '/'
    requires Packages.Classify(Basename(package)) == Some((d, m))
    ensures var o := Packages.AddLibc(package, libcsDir, true);
            o.Copied? && LdPathFor(o.libcTarget) == o.ldTarget
  {
    var s := Basename(package);
    var rest := m.architecture + "-" + m.version + ".so";
    Packages.LibcAndLdNames(s, d, m);
    Packages.ClassifiedNoSlash(s, d, m);
    var _ := Packages.ClassifiedSplits(s, d, m);
    Packages.ArchNoSlash(m.architecture);
    RestNoSlash(m.architecture, m.version);
    LdPathOfLibc(libcsDir, rest);
    assert NoSlash("libc-" + rest) && NoSlash("ld-" + rest);
    DirnameBasenameOfJoin(libcsDir, "libc-" + rest);
    DirnameBasenameOfJoin(libcsDir, "ld-" + rest);
    LdConcat(libcsDir, rest);
  }

  lemma LdConcat(dir: string, rest: string)
    ensures dir + "/ld-" + rest == dir + "/" + ("ld-" + rest)
  {
    assert "/" + "ld-" == "/ld-";
  }

  lemma RestNoSlash(a: string, v: string)
    requires LibcPath.NoSlash(a) && LibcPath.NoSlash(v)
    ensures NoSlash(a + "-" + v + ".so")
  {
    var rest := a + "-" + v + ".so";
    var e := |a| + 1;
    forall k | 0 <= k < |rest| ensures rest[k] != '/' {
      if k < |a| {
        assert rest[k] == a[k];
      } else if k == |a| {
      } else if k < e + |v| {
        assert rest[k] == v[k - e];
      } else {
        assert rest[k] == ".so"[k - e - |v|];
      }
    }
  }
}
