/** `bowkin-dickerize.py`: the image and container names built from the base Dockerfile and the
    chosen catalog entry, the Dockerfile text of the libc-specific image, and what `main` goes on
    to do for `run` and for `clean`. The Docker commands themselves are recorded, not run. */
module Dickerize {
  import opened Wrappers
  import opened Text
  import opened Paths
  import Catalog
  import PatchElf

  // ---------------------------------------------------------------------------
  // Names

  /** `bowkin-<stem of the base Dockerfile>`. */
  function BaseImageName(basePath: string): string
  {
    "bowkin-" + Stem(basePath)
  }

  /** `<base image>-<distro>-<stem of the libc file>`; the container takes the same name. */
  function SpecificImageName(basePath: string, e: Catalog.Entry): string
  {
    BaseImageName(basePath) + "-" + e.distro + "-" + Stem(e.filepath)
  }

  /** `libc_basename` of `create_specific_image`: the base name with every `libc-` removed. */
  function LibcBasename(libcPath: string): string
  {
    RemoveAll(Basename(libcPath), "libc-")
  }

  // ---------------------------------------------------------------------------
  // The Dockerfile

  const LIBC_TARGET := "/env/lib/x86_64-linux-gnu/libc.so.6"
  const LD_TARGET := "/env/lib64/ld-linux-x86-64.so.2"
  const MOUNT_HOME := "RUN mkdir -p /env/home && echo \"mount -r --rbind /home /env/home\" >> ~/.bashrc"
  const WRAP_GDBSERVER :=
    "RUN sed -i \"s|gdbserver_args += \\['localhost:0'\\]|gdbserver_args += \\['--wrapper', 'chroot /env', '--', 'localhost:0'\\]|\" \"$(find / -path \"/usr/*/pwnlib/gdb.py\")\""

  /** The first lines of the Dockerfile: the base image, then the libc and the loader copied
      to the paths a program of the image loads them from. */
  function DockerfileHead(baseImage: string, libcBasename: string): seq<string>
  {
    ["FROM " + baseImage + ":latest",
     "ADD libc-" + libcBasename + " " + LIBC_TARGET,
     "ADD ld-" + libcBasename + " " + LD_TARGET]
  }

  /** The lines that follow, the same for every image. */
  const DOCKERFILE_TAIL: seq<string> := [MOUNT_HOME, WRAP_GDBSERVER, "WORKDIR /home"]

  /** The lines of the Dockerfile, in order. */
  function DockerfileLines(baseImage: string, libcBasename: string): seq<string>
  {
    DockerfileHead(baseImage, libcBasename) + DOCKERFILE_TAIL
  }

  /** Lines joined by newlines, the last one without. */
  function JoinLines(lines: seq<string>): string
    requires lines != []
  {
    if |lines| == 1 then lines[0] else lines[0] + "\n" + JoinLines(lines[1..])
  }

  /** The text written to the `Dockerfile` of the temporary build directory. */
  function Dockerfile(baseImage: string, libcBasename: string): string
  {
    JoinLines(DockerfileLines(baseImage, libcBasename))
  }

  /** The index of the first newline. */
  function FirstNewline(s: string): (i: nat)
    requires '\n' in s
    ensures i < |s| && s[i] == '\n' && '\n' !in s[..i]
  {
    if s[0] == '\n' then 0
    else
      assert '\n' in s[1..] by { var k :| 0 <= k < |s| && s[k] == '\n'; assert s[1..][k - 1] == '\n'; }
      var i := 1 + FirstNewline(s[1..]);
      assert s[..i] == [s[0]] + s[1..][..i - 1];
      i
  }

  /** `s.split('\n')`. */
  function SplitLines(s: string): (r: seq<string>)
    ensures r != []
    decreases |s|
  {
    if '\n' !in s then [s]
    else
      var i := FirstNewline(s);
      [s[..i]] + SplitLines(s[i + 1..])
  }

  /** The first newline of `a\nb`, when `a` has none, is the one after `a`. */
  lemma FirstNewlineAfter(a: string, b: string)
    requires '\n' !in a
    ensures '\n' in a + "\n" + b && FirstNewline(a + "\n" + b) == |a|
  {
    var s := a + "\n" + b;
    assert s[|a|] == '\n';
    var i := FirstNewline(s);
    forall k | 0 <= k < i ensures s[k] != '\n' {
      assert s[..i][k] == s[k];
    }
    forall k | 0 <= k < |a| ensures s[k] != '\n' {
      assert s[k] == a[k];
    }
  }

  /** Splitting `a\nt`, when `a` has no newline, gives `a` and then the lines of `t`. */
  lemma SplitLinesCons(a: string, t: string)
    requires '\n' !in a
    ensures SplitLines(a + "\n" + t) == [a] + SplitLines(t)
  {
    var s := a + "\n" + t;
    FirstNewlineAfter(a, t);
    assert s[..|a|] == a && s[|a| + 1..] == t;
  }

  /** Splitting joined lines gives back each leading line that holds no newline. */
  lemma {:induction false} SplitJoinLines(lines: seq<string>, n: nat)
    requires n < |lines| && forall k :: 0 <= k < n ==> '\n' !in lines[k]
    ensures SplitLines(JoinLines(lines)) == lines[..n] + SplitLines(JoinLines(lines[n..]))
  {
    if n == 0 {
      assert lines[..0] == [] && lines[0..] == lines;
    } else {
      var rest := lines[1..];
      assert JoinLines(lines) == lines[0] + "\n" + JoinLines(rest);
      SplitLinesCons(lines[0], JoinLines(rest));
      SplitJoinLines(rest, n - 1);
      TakeDropCons(lines, n, SplitLines(JoinLines(lines[n..])));
    }
  }

  lemma TakeDropCons<T>(xs: seq<T>, n: nat, tail: seq<T>)
    requires 0 < n <= |xs|
    ensures xs[1..][n - 1..] == xs[n..]
    ensures [xs[0]] + (xs[1..][..n - 1] + tail) == xs[..n] + tail
  {
    assert xs[..n] == [xs[0]] + xs[1..][..n - 1];
  }

  /** Splitting joined lines gives back the leading lines that hold no newline. */
  lemma SplitJoinHead(head: seq<string>, tail: seq<string>)
    requires tail != [] && forall k :: 0 <= k < |head| ==> '\n' !in head[k]
    ensures SplitLines(JoinLines(head + tail)) == head + SplitLines(JoinLines(tail))
  {
    var lines := head + tail;
    assert lines[..|head|] == head && lines[|head|..] == tail;
    SplitJoinLines(lines, |head|);
  }

  /** The Dockerfile starts from the base image, then copies the libc and the loader to the
      paths a program of the image loads them from, one instruction per line. */
  lemma DockerfileSpec(baseImage: string, libcBasename: string)
    requires '\n' !in baseImage && '\n' !in libcBasename
    ensures SplitLines(Dockerfile(baseImage, libcBasename)) ==
              ["FROM " + baseImage + ":latest",
               "ADD libc-" + libcBasename + " " + LIBC_TARGET,
               "ADD ld-" + libcBasename + " " + LD_TARGET] +
              SplitLines(JoinLines(DOCKERFILE_TAIL))
  {
    NoNewlineConcat(0, baseImage, libcBasename);
    NoNewlineConcat(1, baseImage, libcBasename);
    NoNewlineConcat(2, baseImage, libcBasename);
    SplitJoinHead(DockerfileHead(baseImage, libcBasename), DOCKERFILE_TAIL);
  }

  /** The first line of the Dockerfile, ended by its newline, names the base image. */
  lemma DockerfileStartsFromBase(baseImage: string, libcBasename: string)
    ensures StartsWith(Dockerfile(baseImage, libcBasename), "FROM " + baseImage + ":latest\n")
  {
    var lines := DockerfileLines(baseImage, libcBasename);
    var d := Dockerfile(baseImage, libcBasename);
    var head := "FROM " + baseImage + ":latest\n";
    assert d == head + JoinLines(lines[1..]);
    assert d[..|head|] == head;
  }

  lemma NoNewlineConcat(k: nat, baseImage: string, libcBasename: string)
    requires k < 3 && '\n' !in baseImage && '\n' !in libcBasename
    ensures '\n' !in DockerfileHead(baseImage, libcBasename)[k]
  {
    var l := DockerfileHead(baseImage, libcBasename)[k];
    if k == 0 {
      forall i | 0 <= i < |l| ensures l[i] != '\n' {
        if 5 <= i < 5 + |baseImage| { assert l[i] == baseImage[i - 5]; }
      }
    } else if k == 1 {
      forall i | 0 <= i < |l| ensures l[i] != '\n' {
        if 9 <= i < 9 + |libcBasename| { assert l[i] == libcBasename[i - 9]; }
      }
    } else {
      forall i | 0 <= i < |l| ensures l[i] != '\n' {
        if 7 <= i < 7 + |libcBasename| { assert l[i] == libcBasename[i - 7]; }
      }
    }
  }

  // ---------------------------------------------------------------------------
  // The files `ADD` reads

  /** The loader is copied into the build directory under the name its `ADD` line reads. */
  lemma LdAdded(libcPath: string)
    ensures Basename(PatchElf.LdPathFor(libcPath)) == "ld-" + LibcBasename(libcPath)
  {
    var b := LibcBasename(libcPath);
    var n := "ld-" + b;
    assert NoSlash(n) by {
      RemoveAllKeepsChars(Basename(libcPath), "libc-", '/');
      assert forall k :: 0 <= k < |n| ==> n[k] == (if k < 3 then "ld-"[k] else b[k - 3]);
    }
    SplitPointOfAppend(Dirname(libcPath), n);
    var p := Dirname(libcPath) + "/" + n;
    assert PatchElf.LdPathFor(libcPath) == p;
    assert p[|Dirname(libcPath)| + 1..] == n;
  }

  /** The libc is copied under the name its `ADD` line reads when its base name is `libc-`
      followed by a text where `libc-` does not occur again, as for every catalog file. */
  lemma LibcAdded(libcPath: string, rest: string)
    requires Basename(libcPath) == "libc-" + rest
    requires forall i: nat | i <= |rest| :: !At(rest, i, "libc-")
    ensures Basename(libcPath) == "libc-" + LibcBasename(libcPath)
  {
    var n := "libc-" + rest;
    assert n[..5] == "libc-" && n[5..] == rest;
    RemoveAllAbsent(rest, "libc-");
  }

  // ---------------------------------------------------------------------------
  // main

  datatype Mode = RunMode | CleanMode

  /** What `main` goes on to do. `Run` records the arguments of the three Docker helpers:
      the base image built from the base Dockerfile, the specific image with the libc base
      name its Dockerfile is written from (the text is `Dockerfile(baseImage, libcBasename)`)
      and the two files copied beside it, and the container started from that image. */
  datatype Launch =
    | NoMatch
    | Quit
    | Crashed
    | Run(baseFile: string, baseImage: string, specificImage: string, libcBasename: string,
          buildFiles: seq<string>, container: string, share: Option<string>)
    | Clean(baseImage: string, distro: string, libcStem: string, container: string, image: string)

  /** `main`, given what `identify` returned and the lines typed in for `get_entry`. */
  function Main(identified: Result<seq<Catalog.Entry>, Catalog.CatalogError>, mode: Mode,
                basePath: string, share: Option<string>, stdin: seq<string>): Launch
  {
    match identified
    case Err(_) => Crashed
    case Ok(matches) =>
      if matches == [] then NoMatch
      else match Catalog.ChooseEntry(matches, stdin)
        case Quit => Quit
        case NoMoreInput => Crashed
        case Chosen(e) =>
          var baseImage := BaseImageName(basePath);
          var specific := SpecificImageName(basePath, e);
          match mode
          case RunMode =>
            Run(basePath, baseImage, specific, LibcBasename(e.filepath),
                [e.filepath, PatchElf.LdPathFor(e.filepath)], specific, share)
          case CleanMode =>
            Clean(baseImage, e.distro, Stem(e.filepath), specific, specific)
  }

  /** `No match found` and exit status 1 exactly when the build id has no entries, before
      any Docker command. */
  lemma NoMatchSpec(identified: Result<seq<Catalog.Entry>, Catalog.CatalogError>, mode: Mode,
                    basePath: string, share: Option<string>, stdin: seq<string>)
    ensures Main(identified, mode, basePath, share, stdin) == NoMatch <==> identified == Ok([])
  {
  }

  /** `clean` removes the container and the image that `run` creates for the same base and
      libc, and both carry the same name, which starts with the base image's name. */
  lemma CleanUndoesRun(identified: Result<seq<Catalog.Entry>, Catalog.CatalogError>,
                       basePath: string, share: Option<string>, stdin: seq<string>)
    ensures var r := Main(identified, RunMode, basePath, share, stdin);
            var c := Main(identified, CleanMode, basePath, share, stdin);
            (r.Run? <==> c.Clean?) &&
            (r.Run? ==> c.container == r.container && c.image == r.specificImage &&
                        r.container == r.specificImage && c.baseImage == r.baseImage &&
                        StartsWith(r.specificImage, r.baseImage + "-"))
  {
    var r := Main(identified, RunMode, basePath, share, stdin);
    if r.Run? {
      SpecificExtendsBase(basePath, Catalog.ChooseEntry(identified.value, stdin).entry);
    }
  }

  /** The specific image's name is the base image's, a dash, and more. */
  lemma SpecificExtendsBase(basePath: string, e: Catalog.Entry)
    ensures StartsWith(SpecificImageName(basePath, e), BaseImageName(basePath) + "-")
  {
    var p := BaseImageName(basePath) + "-";
    var q := e.distro + "-" + Stem(e.filepath);
    StartsWithAppend(p, q);
    assert SpecificImageName(basePath, e) == p + q;
  }

  /** The names derived from a catalog libc `<dir>/libc-<rest>.so`: its stem, the name the
      libc and the loader are added under, and the loader next to it. */
  lemma CatalogLibcNames(dir: string, rest: string)
    requires dir != [] && dir[|dir| - 1] != '/' && NoSlash(rest)
    requires forall i: nat | i <= |rest + ".so"| :: !At(rest + ".so", i, "libc-")
    ensures var p := dir + "/" + ("libc-" + rest + ".so");
            Stem(p) == "libc-" + rest &&
            Basename(p) == "libc-" + (rest + ".so") &&
            LibcBasename(p) == rest + ".so" &&
            PatchElf.LdPathFor(p) == dir + "/" + ("ld-" + rest + ".so") &&
            Basename(PatchElf.LdPathFor(p)) == "ld-" + (rest + ".so")
  {
    CatalogLibcStem(dir, rest);
    CatalogLibcBasename(dir, rest);
    CatalogLdPath(dir, rest);
  }

  lemma CatalogLibcStem(dir: string, rest: string)
    requires dir != [] && dir[|dir| - 1] != '/' && NoSlash(rest)
    ensures Stem(dir + "/" + ("libc-" + rest + ".so")) == "libc-" + rest
  {
    PrefixedNoSlash("libc-", rest);
    StemOfSo(dir, "libc-" + rest);
  }

  lemma CatalogLibcBasename(dir: string, rest: string)
    requires dir != [] && dir[|dir| - 1] != '/' && NoSlash(rest)
    requires forall i: nat | i <= |rest + ".so"| :: !At(rest + ".so", i, "libc-")
    ensures var p := dir + "/" + ("libc-" + rest + ".so");
            Basename(p) == "libc-" + (rest + ".so") && LibcBasename(p) == rest + ".so"
  {
    var p := dir + "/" + ("libc-" + rest + ".so");
    SoNoSlash(rest);
    PrefixedNoSlash("libc-", rest + ".so");
    LibcSoPath(dir, rest);
    DirnameBasenameOfJoin(dir, "libc-" + (rest + ".so"));
    LibcAdded(p, rest + ".so");
  }

  lemma CatalogLdPath(dir: string, rest: string)
    requires dir != [] && dir[|dir| - 1] != '/' && NoSlash(rest)
    requires forall i: nat | i <= |rest + ".so"| :: !At(rest + ".so", i, "libc-")
    ensures var p := dir + "/" + ("libc-" + rest + ".so");
            PatchElf.LdPathFor(p) == dir + "/" + ("ld-" + rest + ".so") &&
            Basename(PatchElf.LdPathFor(p)) == "ld-" + (rest + ".so")
  {
    var p := dir + "/" + ("libc-" + rest + ".so");
    SoNoSlash(rest);
    LibcSoPath(dir, rest);
    PatchElf.LdPathOfLibc(dir, rest + ".so");
    LdSoPath(dir, rest);
    CatalogLibcBasename(dir, rest);
    LdAdded(p);
  }

  lemma LibcSoPath(dir: string, rest: string)
    ensures dir + "/" + ("libc-" + rest + ".so") == dir + "/" + ("libc-" + (rest + ".so"))
  {
  }

  lemma LdSoPath(dir: string, rest: string)
    ensures dir + "/ld-" + (rest + ".so") == dir + "/" + ("ld-" + rest + ".so")
  {
  }

  lemma PrefixedNoSlash(pre: string, s: string)
    requires NoSlash(pre) && NoSlash(s)
    ensures NoSlash(pre + s)
  {
    var n := pre + s;
    assert forall k :: 0 <= k < |n| ==> n[k] == (if k < |pre| then pre[k] else s[k - |pre|]);
  }

  lemma SoNoSlash(s: string)
    requires NoSlash(s)
    ensures NoSlash(s + ".so")
  {
    var n := s + ".so";
    assert forall k :: 0 <= k < |n| ==> n[k] == (if k < |s| then s[k] else ".so"[k - |s|]);
  }

  /** The fields of a `Run` launch, in terms of the chosen entry. */
  lemma MainRun(identified: Result<seq<Catalog.Entry>, Catalog.CatalogError>, basePath: string,
                share: Option<string>, stdin: seq<string>)
    requires Main(identified, RunMode, basePath, share, stdin).Run?
    ensures var r := Main(identified, RunMode, basePath, share, stdin);
            var e := Catalog.ChooseEntry(identified.value, stdin).entry;
            r.specificImage == SpecificImageName(basePath, e) &&
            r.buildFiles == [e.filepath, PatchElf.LdPathFor(e.filepath)] &&
            r.baseImage == BaseImageName(basePath) && r.libcBasename == LibcBasename(e.filepath)
  {
  }

  /** For a catalog libc `<dir>/libc-<rest>.so` the image is named after the file's stem,
      `libc-<rest>`, and its Dockerfile adds the two files copied beside it. */
  lemma RunSpec(identified: Result<seq<Catalog.Entry>, Catalog.CatalogError>, basePath: string,
                share: Option<string>, stdin: seq<string>, dir: string, rest: string)
    requires var r := Main(identified, RunMode, basePath, share, stdin);
             r.Run? && Catalog.ChooseEntry(identified.value, stdin).entry.filepath == dir + "/" + ("libc-" + rest + ".so")
    requires dir != [] && dir[|dir| - 1] != '/' && NoSlash(rest)
    requires forall i: nat | i <= |rest + ".so"| :: !At(rest + ".so", i, "libc-")
    ensures var r := Main(identified, RunMode, basePath, share, stdin);
            var e := Catalog.ChooseEntry(identified.value, stdin).entry;
            r.specificImage == BaseImageName(basePath) + "-" + e.distro + "-" + ("libc-" + rest) &&
            r.buildFiles == [e.filepath, dir + "/" + ("ld-" + rest + ".so")] &&
            Basename(r.buildFiles[0]) == "libc-" + (rest + ".so") &&
            Basename(r.buildFiles[1]) == "ld-" + (rest + ".so") &&
            r.baseImage == BaseImageName(basePath) && r.libcBasename == rest + ".so"
  {
    MainRun(identified, basePath, share, stdin);
    CatalogLibcNames(dir, rest);
  }
}
