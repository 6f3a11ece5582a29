/** The path pattern of `rebuild` (bowkin-db.py), written out as the backtracking search
    `re.match` performs: the lazy prefix up to `libcs/`, two optional lazy directory groups,
    `libc-`, the architecture alternation, the greedy version and the optional lazy patch,
    then `\.so$`. */
module LibcPath {
  import opened Wrappers
  import opened Text

  /** The architecture alternation, in the order the pattern tries it. */
  const ARCHES: seq<string> := ["i386", "i686", "amd64", "x86_64", "armel", "armhf", "arm64"]

  /** The groups captured from the file-name part of the path. */
  datatype Tail = Tail(architecture: string, version: string, patch: Option<string>)

  /** All five named groups of a successful match. */
  datatype LibcMatch = LibcMatch(distro: Option<string>, release: Option<string>,
                                 architecture: string, version: string, patch: Option<string>)

  /** A match of the directory part: the groups seen so far, and where in the string the
      file-name part starts. */
  datatype Found = Found(distro: Option<string>, release: Option<string>, at: nat, tail: Tail)

  predicate NoNewline(s: string) { forall k :: 0 <= k < |s| ==> s[k] != '\n' }

  /** `\.so$`: `$` matches at the end of the string and just before a final newline. */
  predicate SoEnd(t: string) { t == ".so" || t == ".so\n" }

  /** `\d.\d+`: a digit, any character but a newline, and one or more digits. */
  predicate VersionShape(v: string)
  {
    |v| >= 3 && IsDigit(v[0]) && IsAny(v[1]) && forall k :: 2 <= k < |v| ==> IsDigit(v[k])
  }

  /** What `(?:-(?P<patch>.+?))?` can capture. */
  predicate PatchShape(patch: Option<string>)
  {
    patch.Some? ==> patch.value != [] && NoNewline(patch.value)
  }

  /** The text after the version: the optional `-patch` and `.so`. */
  function Suffix(patch: Option<string>): string
  {
    (if patch.Some? then "-" + patch.value else "") + ".so"
  }

  /** The file name the pattern describes for the given groups. */
  function FileName(architecture: string, version: string, patch: Option<string>): string
  {
    "libc-" + ArchPart(architecture, version, patch)
  }

  /** The part of the file name after `libc-`. */
  function ArchPart(architecture: string, version: string, patch: Option<string>): string
  {
    (architecture + "-") + (version + Suffix(patch))
  }

  // ---------------------------------------------------------------------------
  // The file-name part: libc-<arch>-<version>[-<patch>].so

  /** `(?P<patch>.+?)\.so$` with the patch `t[..j]` tried first and extended one character
      at a time while it has no newline. */
  function PatchSearch(t: string, j: nat): (r: Option<string>)
    requires 1 <= j <= |t| && NoNewline(t[..j - 1])
    ensures r.Some? ==> j <= |r.value| <= |t| && r.value == t[..|r.value|] &&
                        NoNewline(r.value) && SoEnd(t[|r.value|..])
    ensures r.Some? ==> forall k :: j <= k < |r.value| ==> !SoEnd(t[k..])
    ensures r.None? ==> forall k :: j <= k <= |t| && NoNewline(t[..k]) ==> !SoEnd(t[k..])
    decreases |t| - j
  {
    if t[j - 1] == '\n' then
      assert forall k :: j <= k <= |t| ==> t[..k][j - 1] == '\n';
      None
    else if SoEnd(t[j..]) then Some(t[..j])
    else if j < |t| then
      assert t[..j] == t[..j - 1] + [t[j - 1]];
      PatchSearch(t, j + 1)
    else None
  }

  /** The rest of the pattern after the version: first with a patch, then without. */
  function AfterVersion(t: string): (r: Option<Option<string>>)
    ensures r.Some? ==> PatchShape(r.value) && (t == Suffix(r.value) || t == Suffix(r.value) + "\n")
  {
    if 2 <= |t| && t[0] == '-' && PatchSearch(t[1..], 1).Some? then
      var p := PatchSearch(t[1..], 1).value;
      assert t == "-" + t[1..];
      Some(Some(p))
    else if SoEnd(t) then Some(None)
    else None
  }

  /** `\d.\d+` followed by the rest: the digit run of length `n` is tried first, and then
      shorter ones, as a greedy `+` backtracks. */
  function VersionTry(t: string, n: nat): (r: Option<(string, Option<string>)>)
    requires 1 <= n && 2 + n <= |t|
    requires IsDigit(t[0]) && IsAny(t[1]) && forall k :: 2 <= k < 2 + n ==> IsDigit(t[k])
    ensures r.Some? ==> var (v, p) := r.value;
              3 <= |v| <= 2 + n && v == t[..|v|] && VersionShape(v) && PatchShape(p) &&
              (t[|v|..] == Suffix(p) || t[|v|..] == Suffix(p) + "\n")
  {
    match AfterVersion(t[2 + n..])
    case Some(p) => Some((t[..2 + n], p))
    case None => if n > 1 then VersionTry(t, n - 1) else None
  }

  function Version(t: string): (r: Option<(string, Option<string>)>)
    ensures r.Some? ==> var (v, p) := r.value;
              |v| <= |t| && v == t[..|v|] && VersionShape(v) && PatchShape(p) &&
              (t[|v|..] == Suffix(p) || t[|v|..] == Suffix(p) + "\n")
  {
    if 3 <= |t| && IsDigit(t[0]) && IsAny(t[1]) && IsDigit(t[2]) then VersionTry(t, DigitRun(t, 2))
    else None
  }

  /** `m` is what the pattern can capture from `t`, the text after `libc-`, when the
      architecture is one of `alts`. */
  predicate ArchShaped(t: string, m: Tail, alts: seq<string>)
  {
    m.architecture in alts && VersionShape(m.version) && PatchShape(m.patch) &&
    var rest := ArchPart(m.architecture, m.version, m.patch);
    (t == rest || t == rest + "\n")
  }

  lemma ArchShapedIntro(t: string, alts: seq<string>, v: string, p: Option<string>)
    requires alts != [] && At(t, 0, alts[0] + "-")
    requires Version(t[|alts[0]| + 1..]) == Some((v, p))
    ensures ArchShaped(t, Tail(alts[0], v, p), alts)
  {
    var a := alts[0];
    var u := t[|a| + 1..];
    assert t == (a + "-") + u;
    var w := u[|v|..];
    assert u == v + w;
    if w == Suffix(p) {
      assert t == ArchPart(a, v, p);
    } else {
      assert v + w == (v + Suffix(p)) + "\n";
      assert t == ArchPart(a, v, p) + "\n";
    }
  }

  /** The architecture alternation over the alternatives `alts`, tried in order, each
      followed by `-` and the rest of the pattern. */
  function ArchTry(t: string, alts: seq<string>): (r: Option<Tail>)
    ensures r.Some? ==> ArchShaped(t, r.value, alts)
  {
    if alts == [] then None
    else if At(t, 0, alts[0] + "-") && Version(t[|alts[0]| + 1..]).Some? then
      var (v, p) := Version(t[|alts[0]| + 1..]).value;
      ArchShapedIntro(t, alts, v, p);
      Some(Tail(alts[0], v, p))
    else ArchTry(t, alts[1..])
  }

  /** `m` is what the pattern can capture from a file name `t`. */
  predicate TailShaped(t: string, m: Tail)
  {
    m.architecture in ARCHES && VersionShape(m.version) && PatchShape(m.patch) &&
    var name := FileName(m.architecture, m.version, m.patch);
    (t == name || t == name + "\n")
  }

  lemma TailShapedIntro(t: string, m: Tail)
    requires StartsWith(t, "libc-") && ArchShaped(t[5..], m, ARCHES)
    ensures TailShaped(t, m)
  {
    var rest := ArchPart(m.architecture, m.version, m.patch);
    assert t == "libc-" + t[5..];
    if t[5..] != rest {
      assert t == ("libc-" + rest) + "\n";
    }
  }

  /** `libc-` and the rest of the file-name part. */
  function TailOf(t: string): (r: Option<Tail>)
    ensures r.Some? ==> TailShaped(t, r.value)
  {
    if StartsWith(t, "libc-") then
        var r := ArchTry(t[5..], ARCHES);
      if r.Some? then TailShapedIntro(t, r.value); r else None
    else None
  }

  // ---------------------------------------------------------------------------
  // The directory part: libcs/(?:(?P<distro>.+?)/)?(?:(?P<release>.+?)/)?

  /** `f` describes a file-name part of `t` that the pattern accepts. */
  predicate FoundIn(t: string, f: Found)
  {
    f.at <= |t| && TailOf(t[f.at..]) == Some(f.tail)
  }

  /** A match found in a suffix of `t` is a match in `t` further along. */
  lemma FoundShift(t: string, j: nat, f: Found, g: Found)
    requires j <= |t| && FoundIn(t[j..], f)
    requires g.at == j + f.at && g.tail == f.tail
    ensures FoundIn(t, g)
  {
    assert t[j..][f.at..] == t[g.at..];
  }

  /** A lazy `(.+?)/` group followed by `rest`, the group being `t[..j]` at first and growing
      one character at a time while it has no newline; returns where the group ends. */
  function GroupSearch(t: string, j: nat, rest: string -> Option<Found>): (r: Option<(nat, Found)>)
    requires 1 <= j <= |t| && NoNewline(t[..j - 1])
    ensures r.Some? ==> j <= r.value.0 < |t| && t[r.value.0] == '/'
    decreases |t| - j
  {
    if t[j - 1] == '\n' then None
    else if j < |t| && t[j] == '/' && rest(t[j + 1..]).Some? then Some((j, rest(t[j + 1..]).value))
    else if j < |t| then GroupSearch(t, j + 1, rest)
    else None
  }

  /** A group found is followed by `/` and by text that `rest` accepts, no earlier slash of a
      newline-free group lets `rest` match, and when none is found no slash does. */
  lemma {:induction false} GroupSearchSpec(t: string, j: nat, rest: string -> Option<Found>)
    requires 1 <= j <= |t| && NoNewline(t[..j - 1])
    ensures var r := GroupSearch(t, j, rest);
            r.Some? ==> t[r.value.0] == '/' && rest(t[r.value.0 + 1..]) == Some(r.value.1) &&
                        NoNewline(t[..r.value.0])
    ensures var r := GroupSearch(t, j, rest);
            r.Some? ==> forall k :: j <= k < r.value.0 && t[k] == '/' ==> rest(t[k + 1..]).None?
    ensures GroupSearch(t, j, rest).None? ==>
              forall k :: j <= k < |t| && t[k] == '/' && NoNewline(t[..k]) ==> rest(t[k + 1..]).None?
    decreases |t| - j
  {
    if t[j - 1] == '\n' {
      assert forall k :: j <= k < |t| ==> t[..k][j - 1] == '\n';
    } else if j < |t| && t[j] == '/' && rest(t[j + 1..]).Some? {
      assert t[..j] == t[..j - 1] + [t[j - 1]];
    } else if j < |t| {
      assert t[..j] == t[..j - 1] + [t[j - 1]];
      GroupSearchSpec(t, j + 1, rest);
    }
  }

  /** No directory group: the file-name part starts right here. */
  function NoGroup(t: string): Option<Found>
  {
    match TailOf(t)
    case None => None
    case Some(m) => Some(Found(None, None, 0, m))
  }

  /** The optional release group: present first, then absent. */
  function Release(t: string): Option<Found>
  {
    var g := if 1 <= |t| then GroupSearch(t, 1, NoGroup) else None;
    if g.Some? then
      var (j, f) := g.value;
      Some(Found(None, Some(t[..j]), j + 1 + f.at, f.tail))
    else NoGroup(t)
  }

  /** The optional distro group, then the release group. */
  function Dirs(t: string): Option<Found>
  {
    var g := if 1 <= |t| then GroupSearch(t, 1, Release) else None;
    if g.Some? then
      var (j, f) := g.value;
      Some(Found(Some(t[..j]), f.release, j + 1 + f.at, f.tail))
    else Release(t)
  }

  /** A `libcs/` at `q` after which the directory and file-name part matches. */
  predicate LibcsAt(s: string, q: nat)
  {
    At(s, q, "libcs/") && Dirs(s[q + 6..]).Some?
  }

  /** `(?:.*?)libcs/`: the prefix `s[..p]` is tried first and extended while it has no newline. */
  function PrefixSearch(s: string, p: nat): Option<Found>
    requires p <= |s|
    decreases |s| - p
  {
    if LibcsAt(s, p) then
      var f := Dirs(s[p + 6..]).value;
      Some(Found(f.distro, f.release, p + 6 + f.at, f.tail))
    else if p < |s| && s[p] != '\n' then PrefixSearch(s, p + 1)
    else None
  }

  lemma NoGroupFound(t: string)
    ensures NoGroup(t).Some? ==> FoundIn(t, NoGroup(t).value)
  {
  }

  lemma ReleaseFound(t: string)
    ensures Release(t).Some? ==> FoundIn(t, Release(t).value)
  {
    if 1 <= |t| && GroupSearch(t, 1, NoGroup).Some? {
      var (j, f) := GroupSearch(t, 1, NoGroup).value;
      GroupSearchSpec(t, 1, NoGroup);
      assert NoGroup(t[j + 1..]) == Some(f);
      NoGroupFound(t[j + 1..]);
      FoundShift(t, j + 1, f, Release(t).value);
    } else {
      NoGroupFound(t);
    }
  }

  lemma DirsFound(t: string)
    ensures Dirs(t).Some? ==> FoundIn(t, Dirs(t).value)
  {
    if 1 <= |t| && GroupSearch(t, 1, Release).Some? {
      var (j, f) := GroupSearch(t, 1, Release).value;
      GroupSearchSpec(t, 1, Release);
      assert Release(t[j + 1..]) == Some(f);
      ReleaseFound(t[j + 1..]);
      FoundShift(t, j + 1, f, Dirs(t).value);
    } else {
      ReleaseFound(t);
    }
  }

  lemma {:induction false} PrefixFound(s: string, p: nat)
    requires p <= |s|
    ensures PrefixSearch(s, p).Some? ==> FoundIn(s, PrefixSearch(s, p).value)
    decreases |s| - p
  {
    if At(s, p, "libcs/") && Dirs(s[p + 6..]).Some? {
      DirsFound(s[p + 6..]);
      FoundShift(s, p + 6, Dirs(s[p + 6..]).value, PrefixSearch(s, p).value);
    } else if p < |s| && s[p] != '\n' {
      PrefixFound(s, p + 1);
    }
  }

  /** The lazy prefix stops at the leftmost `libcs/` reached without crossing a newline after
      which the rest matches, and the match is the one read just after it. */
  lemma {:induction false} PrefixSearchSpec(s: string, p: nat)
    requires p <= |s|
    ensures PrefixSearch(s, p).Some? ==>
              exists q :: p <= q && LibcsAt(s, q) && NoNewline(s[p..q]) &&
                (forall k :: p <= k < q ==> !LibcsAt(s, k)) &&
                PrefixSearch(s, p) == PrefixSearch(s, q)
    decreases |s| - p
  {
    if LibcsAt(s, p) {
      assert NoNewline(s[p..p]);
    } else if p < |s| && s[p] != '\n' {
      PrefixSearchSpec(s, p + 1);
      if PrefixSearch(s, p).Some? {
        var q :| p + 1 <= q && LibcsAt(s, q) && NoNewline(s[p + 1..q]) &&
                (forall k :: p + 1 <= k < q ==> !LibcsAt(s, k)) &&
                PrefixSearch(s, p + 1) == PrefixSearch(s, q);
        assert s[p..q] == [s[p]] + s[p + 1..q];
      }
    }
  }

  /** When the lazy prefix finds nothing, no `libcs/` reached without crossing a newline is
      followed by a match. */
  lemma {:induction false} PrefixSearchNone(s: string, p: nat)
    requires p <= |s|
    ensures PrefixSearch(s, p).None? ==>
              forall k :: p <= k <= |s| && NoNewline(s[p..k]) ==> !LibcsAt(s, k)
    decreases |s| - p
  {
    if LibcsAt(s, p) {
    } else if p < |s| && s[p] != '\n' {
      PrefixSearchNone(s, p + 1);
      assert forall k :: p + 1 <= k <= |s| ==> s[p..k] == [s[p]] + s[p + 1..k];
    } else if p < |s| {
      assert forall k :: p < k <= |s| ==> s[p..k][0] == '\n';
    }
  }

  /** At a `libcs/` where the rest matches, the match is the one read just after it. */
  lemma PrefixSearchAt(s: string, q: nat)
    requires q <= |s| && LibcsAt(s, q)
    ensures var f := Dirs(s[q + 6..]).value;
            PrefixSearch(s, q) == Some(Found(f.distro, f.release, q + 6 + f.at, f.tail))
  {
  }

  predicate EndsWith(s: string, t: string)
  {
    |t| <= |s| && s[|s| - |t|..] == t
  }

  /** `re.match` of the whole pattern against a path: an accepted path ends with the file
      name the captured groups describe (or with it and a newline, which `$` lets through). */
  function Recognise(s: string): (r: Option<LibcMatch>)
    ensures r.Some? ==> (r.value.architecture in ARCHES && VersionShape(r.value.version) &&
              PatchShape(r.value.patch) &&
              var name := FileName(r.value.architecture, r.value.version, r.value.patch);
              (EndsWith(s, name) || EndsWith(s, name + "\n")))
  {
    match PrefixSearch(s, 0)
    case None => None
    case Some(f) =>
      PrefixFound(s, 0);
      FoundEnds(s, f);
      Some(LibcMatch(f.distro, f.release, f.tail.architecture, f.tail.version, f.tail.patch))
  }

  /** A file-name match inside a path is a suffix of it. */
  lemma FoundEnds(s: string, f: Found)
    requires FoundIn(s, f)
    ensures var name := FileName(f.tail.architecture, f.tail.version, f.tail.patch);
            EndsWith(s, name) || EndsWith(s, name + "\n")
  {
  }

  // ---------------------------------------------------------------------------
  // What the pattern rejects

  lemma EndsWithTrans(s: string, t: string, u: string)
    requires EndsWith(s, t) && EndsWith(t, u)
    ensures EndsWith(s, u)
  {
    assert s[|s| - |u|..] == s[|s| - |t|..][|t| - |u|..];
  }

  lemma FileNameEnds(architecture: string, version: string, patch: Option<string>)
    ensures EndsWith(FileName(architecture, version, patch), ".so")
    ensures EndsWith(FileName(architecture, version, patch) + "\n", ".so\n")
    ensures StartsWith(FileName(architecture, version, patch), "libc-")
  {
    var name := FileName(architecture, version, patch);
    assert name == ("libc-" + ((architecture + "-") + version + (if patch.Some? then "-" + patch.value else ""))) + ".so";
    assert name + "\n" == ("libc-" + ((architecture + "-") + version + (if patch.Some? then "-" + patch.value else ""))) + ".so\n";
  }

  /** Only names ending in `.so` (possibly followed by one newline) are indexed: debug files
      (`.so.debug`) and versioned sonames (`.so.6`) never are. */
  lemma OnlySoFiles(s: string)
    requires !EndsWith(s, ".so") && !EndsWith(s, ".so\n")
    ensures Recognise(s).None?
  {
    if Recognise(s).Some? {
      var m := Recognise(s).value;
      var name := FileName(m.architecture, m.version, m.patch);
      FileNameEnds(m.architecture, m.version, m.patch);
      if EndsWith(s, name) {
        EndsWithTrans(s, name, ".so");
      } else {
        EndsWithTrans(s, name + "\n", ".so\n");
      }
    }
  }

  /** A path in which `libc-` does not occur, such as a loader `ld-*.so` outside any
      `libc-` directory, is never indexed. */
  lemma OnlyLibcFiles(s: string)
    requires !Occurs(s, "libc-")
    ensures Recognise(s).None?
  {
    if Recognise(s).Some? {
      var m := Recognise(s).value;
      var name := FileName(m.architecture, m.version, m.patch);
      FileNameEnds(m.architecture, m.version, m.patch);
      var i := if EndsWith(s, name) then |s| - |name| else |s| - |name| - 1;
      assert s[i..][..5] == name[..5];
      assert At(s, i, "libc-");
    }
  }

  // ---------------------------------------------------------------------------
  // Reading groups back from the names `add` writes

  lemma PatchSearchSo(q: string, j: nat)
    requires 1 <= j <= |q| && NoNewline(q)
    ensures PatchSearch(q + ".so", j) == Some(q)
    decreases |q| - j
  {
    var t := q + ".so";
    assert t[..j - 1] == q[..j - 1];
    assert t[j - 1] == q[j - 1];
    if j < |q| {
      assert t[|t| - 1] == 'o';
      assert t[j..][|t[j..]| - 1] == 'o';
      PatchSearchSo(q, j + 1);
    } else {
      assert t[j..] == ".so";
      assert t[..j] == q;
    }
  }

  lemma AfterVersionSuffix(patch: Option<string>)
    requires PatchShape(patch)
    ensures AfterVersion(Suffix(patch)) == Some(patch)
  {
    if patch.Some? {
      var q := patch.value;
      var t := Suffix(patch);
      assert t == "-" + (q + ".so");
      assert t[1..] == q + ".so";
      PatchSearchSo(q, 1);
    }
  }

  lemma DigitRunExact(s: string, i: nat, e: nat)
    requires i <= e <= |s|
    requires forall k :: i <= k < e ==> IsDigit(s[k])
    requires e == |s| || !IsDigit(s[e])
    ensures DigitRun(s, i) == e - i
    decreases e - i
  {
    if i < e {
      DigitRunExact(s, i + 1, e);
    }
  }

  lemma VersionOfSuffix(version: string, patch: Option<string>)
    requires VersionShape(version) && PatchShape(patch)
    ensures Version(version + Suffix(patch)) == Some((version, patch))
  {
    var t := version + Suffix(patch);
    var n := |version| - 2;
    assert t[|version|] == Suffix(patch)[0];
    DigitRunExact(t, 2, |version|);
    assert t[2 + n..] == Suffix(patch);
    AfterVersionSuffix(patch);
    assert t[..2 + n] == version;
  }

  /** No architecture is a prefix of another, and none contains `-`. */
  lemma ArchUnique(a: string, b: string, w: string)
    requires a in ARCHES && b in ARCHES
    requires At((a + "-") + w, 0, b + "-")
    ensures a == b
  {
    var u := (a + "-") + w;
    assert u[..|b| + 1] == b + "-";
    assert u[..4] == a[..4];
    assert u[..4] == b[..4];
    if a == ARCHES[0] {
    } else if a == ARCHES[1] {
    } else if a == ARCHES[2] {
    } else if a == ARCHES[3] {
    } else if a == ARCHES[4] {
    } else if a == ARCHES[5] {
    }
  }

  lemma {:induction false} ArchTryFinds(alts: seq<string>, a: string, version: string, patch: Option<string>)
    requires a in alts && forall b :: b in alts ==> b in ARCHES
    requires Version(version + Suffix(patch)) == Some((version, patch))
    ensures ArchTry(ArchPart(a, version, patch), alts) == Some(Tail(a, version, patch))
  {
    var u := ArchPart(a, version, patch);
    if alts[0] == a {
      assert u[|a| + 1..] == version + Suffix(patch);
    } else {
      if At(u, 0, alts[0] + "-") {
        ArchUnique(a, alts[0], version + Suffix(patch));
      }
      ArchTryFinds(alts[1..], a, version, patch);
    }
  }

  /** The groups `add` writes into a libc file name are read back unchanged. */
  lemma TailOfFileName(architecture: string, version: string, patch: Option<string>)
    requires architecture in ARCHES && VersionShape(version) && PatchShape(patch)
    ensures TailOf(FileName(architecture, version, patch)) == Some(Tail(architecture, version, patch))
  {
    var t := FileName(architecture, version, patch);
    assert t[..5] == "libc-";
    assert t[5..] == ArchPart(architecture, version, patch);
    VersionOfSuffix(version, patch);
    ArchTryFinds(ARCHES, architecture, version, patch);
  }

  // ---------------------------------------------------------------------------
  // Classifying the directories below `libcs/`

  lemma {:induction false} GroupSkip(t: string, j: nat, m: nat, rest: string -> Option<Found>)
    requires 1 <= j <= m <= |t| && NoNewline(t[..m])
    requires forall k :: j <= k < m ==> t[k] != '/'
    ensures GroupSearch(t, j, rest) == GroupSearch(t, m, rest)
    decreases m - j
  {
    if j < m {
      assert t[j - 1] == t[..m][j - 1];
      assert t[..j] == t[..m][..j];
      GroupSkip(t, j + 1, m, rest);
    }
  }

  lemma {:induction false} GroupNone(t: string, j: nat, rest: string -> Option<Found>)
    requires 1 <= j <= |t| && NoNewline(t[..j - 1])
    requires forall k :: j <= k < |t| ==> t[k] != '/'
    ensures GroupSearch(t, j, rest).None?
    decreases |t| - j
  {
    if t[j - 1] != '\n' && j < |t| {
      assert t[..j] == t[..j - 1] + [t[j - 1]];
      GroupNone(t, j + 1, rest);
    }
  }

  /** A group `g` of `t = g + "/" + u` with neither slash nor newline is matched whole. */
  lemma GroupWhole(g: string, u: string, rest: string -> Option<Found>)
    requires g != [] && NoSlash(g) && NoNewline(g) && rest(u).Some?
    ensures GroupSearch(g + "/" + u, 1, rest) == Some((|g|, rest(u).value))
  {
    var t := g + "/" + u;
    assert t[..|g|] == g;
    assert forall k :: 1 <= k < |g| ==> t[k] == g[k];
    GroupSkip(t, 1, |g|, rest);
    assert t[|g| - 1] == g[|g| - 1];
    assert t[|g|] == '/';
    assert t[|g| + 1..] == u;
  }

  predicate NoSlash(s: string) { forall k :: 0 <= k < |s| ==> s[k] != '/' }

  lemma NoGroupWhole(name: string, rest: string -> Option<Found>)
    requires name != [] && NoSlash(name)
    ensures GroupSearch(name, 1, rest).None?
  {
    GroupNone(name, 1, rest);
  }

  /** `r` is a match with the given directory groups and file-name groups. */
  predicate Yields(r: Option<Found>, distro: Option<string>, release: Option<string>, tail: Tail)
  {
    r.Some? && r.value.distro == distro && r.value.release == release && r.value.tail == tail
  }

  lemma ReleaseOneLevel(r: string, name: string)
    requires r != [] && NoSlash(r) && NoNewline(r) && TailOf(name).Some?
    ensures Yields(Release(r + "/" + name), None, Some(r), TailOf(name).value)
  {
    GroupWhole(r, name, NoGroup);
    var u := r + "/" + name;
    assert u[..|r|] == r;
  }

  lemma ReleaseNoLevel(name: string)
    requires NoSlash(name) && TailOf(name).Some?
    ensures Yields(Release(name), None, None, TailOf(name).value)
  {
    NoGroupWhole(name, NoGroup);
  }

  lemma DirsOfSearch(t: string, j: nat, f: Found)
    requires 1 <= |t| && GroupSearch(t, 1, Release) == Some((j, f))
    ensures Yields(Dirs(t), Some(t[..j]), f.release, f.tail)
  {
  }

  /** A distro group followed by whatever the release part accepts. */
  lemma DirsOfDistro(d: string, u: string)
    requires d != [] && NoSlash(d) && NoNewline(d) && Release(u).Some?
    ensures Yields(Dirs(d + "/" + u), Some(d), Release(u).value.release, Release(u).value.tail)
  {
    var t := d + "/" + u;
    GroupWhole(d, u, Release);
    DirsOfSearch(t, |d|, Release(u).value);
    assert t[..|d|] == d;
  }

  /** Two directory levels: the first is the distro and the second the release. */
  lemma DirsTwoLevels(d: string, r: string, name: string)
    requires d != [] && NoSlash(d) && NoNewline(d)
    requires r != [] && NoSlash(r) && NoNewline(r)
    requires TailOf(name).Some?
    ensures Yields(Dirs(d + "/" + (r + "/" + name)), Some(d), Some(r), TailOf(name).value)
  {
    ReleaseOneLevel(r, name);
    DirsOfDistro(d, r + "/" + name);
  }

  /** One directory level: it is the distro, and there is no release. */
  lemma DirsOneLevel(d: string, name: string)
    requires d != [] && NoSlash(d) && NoNewline(d)
    requires NoSlash(name) && TailOf(name).Some?
    ensures Yields(Dirs(d + "/" + name), Some(d), None, TailOf(name).value)
  {
    ReleaseNoLevel(name);
    DirsOfDistro(d, name);
  }

  /** No directory level: neither distro nor release. */
  lemma DirsNoLevel(name: string)
    requires NoSlash(name) && TailOf(name).Some?
    ensures Yields(Dirs(name), None, None, TailOf(name).value)
  {
    ReleaseNoLevel(name);
    NoGroupWhole(name, Release);
  }

  lemma {:induction false} PrefixSkip(s: string, p: nat, e: nat)
    requires p <= e <= |s| && NoNewline(s[..e])
    requires forall k :: p <= k < e ==> !At(s, k, "libcs/")
    ensures PrefixSearch(s, p) == PrefixSearch(s, e)
    decreases e - p
  {
    if p < e {
      assert s[p] == s[..e][p];
      PrefixSkip(s, p + 1, e);
    }
  }

  /** The directory part is matched after the first `libcs/` when the text before it has
      no newline. */
  lemma RecogniseUnder(root: string, rest: string, distro: Option<string>, release: Option<string>, m: Tail)
    requires NoNewline(root) && Yields(Dirs(rest), distro, release, m)
    requires forall k :: 0 <= k < |root| ==> !At(root + "libcs/" + rest, k, "libcs/")
    ensures Recognise(root + "libcs/" + rest) == Some(LibcMatch(distro, release, m.architecture, m.version, m.patch))
  {
    var s := root + "libcs/" + rest;
    assert s[..|root|] == root;
    PrefixSkip(s, 0, |root|);
    assert s[|root|..|root| + 6] == "libcs/";
    assert s[|root| + 6..] == rest;
  }

  /** Below the first `libcs/` of a path: two directory levels are distro and release. */
  lemma TwoLevels(root: string, d: string, r: string, name: string)
    requires NoNewline(root)
    requires forall k :: 0 <= k < |root| ==> !At(root + "libcs/" + (d + "/" + (r + "/" + name)), k, "libcs/")
    requires d != [] && NoSlash(d) && NoNewline(d) && r != [] && NoSlash(r) && NoNewline(r)
    requires TailOf(name).Some?
    ensures var m := TailOf(name).value;
            Recognise(root + "libcs/" + (d + "/" + (r + "/" + name))) ==
            Some(LibcMatch(Some(d), Some(r), m.architecture, m.version, m.patch))
  {
    DirsTwoLevels(d, r, name);
    RecogniseUnder(root, d + "/" + (r + "/" + name), Some(d), Some(r), TailOf(name).value);
  }

  /** One directory level is the distro, and the release is `None`. */
  lemma OneLevel(root: string, d: string, name: string)
    requires NoNewline(root)
    requires forall k :: 0 <= k < |root| ==> !At(root + "libcs/" + (d + "/" + name), k, "libcs/")
    requires d != [] && NoSlash(d) && NoNewline(d)
    requires NoSlash(name) && TailOf(name).Some?
    ensures var m := TailOf(name).value;
            Recognise(root + "libcs/" + (d + "/" + name)) ==
            Some(LibcMatch(Some(d), None, m.architecture, m.version, m.patch))
  {
    DirsOneLevel(d, name);
    RecogniseUnder(root, d + "/" + name, Some(d), None, TailOf(name).value);
  }

  /** A file directly in the libcs directory has neither distro nor release. */
  lemma NoLevel(root: string, name: string)
    requires NoNewline(root)
    requires forall k :: 0 <= k < |root| ==> !At(root + "libcs/" + name, k, "libcs/")
    requires NoSlash(name) && TailOf(name).Some?
    ensures var m := TailOf(name).value;
            Recognise(root + "libcs/" + name) == Some(LibcMatch(None, None, m.architecture, m.version, m.patch))
  {
    DirsNoLevel(name);
    RecogniseUnder(root, name, None, None, TailOf(name).value);
  }
}
