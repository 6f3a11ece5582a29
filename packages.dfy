/** The package-file-name classifier of `add_libc.py`: three patterns, each anchored only at the
    start of the name (`re.match`), tried in the order Ubuntu, Debian, Arch Linux, and the
    `libc-`/`ld-` file names built from the groups of the first one that matches. */
module Packages {
  import opened Wrappers
  import opened Text
  import Paths
  import LibcPath
  import CatalogDb

  datatype Distro = Ubuntu | Debian | ArchLinux

  /** The `version` and `arch` groups of a matching pattern. */
  datatype PackageMatch = PackageMatch(version: string, architecture: string)

  /** `(?P<arch>i386|amd64)` of both `.deb` patterns and `(?P<arch>i686|x86_64)` of the Arch one. */
  const DEB_ARCHES: seq<string> := ["i386", "amd64"]
  const ARCH_LINUX_ARCHES: seq<string> := ["i686", "x86_64"]

  // ---------------------------------------------------------------------------
  // One step of a pattern: the position after it, or None when it fails there

  /** A literal. */
  function Lit(s: string, p: Option<nat>, t: string): (r: Option<nat>)
    ensures r.Some? <==> p.Some? && At(s, p.value, t)
    ensures r.Some? ==> r.value == p.value + |t| <= |s|
  {
    if p.Some? && At(s, p.value, t) then Some(p.value + |t|) else None
  }

  /** `\d`. */
  function OneDigit(s: string, p: Option<nat>): (r: Option<nat>)
    ensures r.Some? <==> p.Some? && p.value < |s| && IsDigit(s[p.value])
    ensures r.Some? ==> r.value == p.value + 1
  {
    if p.Some? && p.value < |s| && IsDigit(s[p.value]) then Some(p.value + 1) else None
  }

  /** `.`: any character but a newline. */
  function AnyChar(s: string, p: Option<nat>): (r: Option<nat>)
    ensures r.Some? <==> p.Some? && p.value < |s| && IsAny(s[p.value])
    ensures r.Some? ==> r.value == p.value + 1
  {
    if p.Some? && p.value < |s| && IsAny(s[p.value]) then Some(p.value + 1) else None
  }

  /** `\d+`. In every pattern here it is followed by a character that is not a digit, so the
      greedy run can only succeed at its full length (see `OnlyFullRun`). */
  function Digits(s: string, p: Option<nat>): (r: Option<nat>)
    ensures r.Some? ==> p.Some? && p.value <= |s| && r.value == p.value + DigitRun(s, p.value) && p.value < r.value
  {
    if p.Some? && p.value <= |s| && DigitRun(s, p.value) > 0 then Some(p.value + DigitRun(s, p.value)) else None
  }

  /** An alternation of literals, tried left to right. */
  function Choice(s: string, p: Option<nat>, alts: seq<string>): (r: Option<string>)
    ensures r.Some? ==> p.Some? && r.value in alts && At(s, p.value, r.value)
    ensures r.None? && p.Some? ==> forall k :: 0 <= k < |alts| ==> !At(s, p.value, alts[k])
    decreases |alts|
  {
    if p.None? || alts == [] then None
    else if At(s, p.value, alts[0]) then Some(alts[0])
    else Choice(s, p, alts[1..])
  }

  /** The alternation of two literals picks the first one present. */
  lemma ChoiceOfTwo(s: string, p: nat, x: string, y: string, a: string)
    requires (a == x || a == y) && At(s, p, a) && (a == y ==> !At(s, p, x))
    ensures Choice(s, Some(p), [x, y]) == Some(a)
  {
    if a == y && !At(s, p, x) {
      assert [x, y][1..] == [y];
    }
  }

  lemma CharAt(s: string, p: nat, c: char)
    requires At(s, p, [c])
    ensures p < |s| && s[p] == c
  {
    assert s[p] == s[p..p + 1][0];
  }

  /** A one-character literal at a position holding that character. */
  lemma LitChar(s: string, p: nat, c: char)
    requires p < |s| && s[p] == c
    ensures Lit(s, Some(p), [c]) == Some(p + 1)
  {
    assert s[p..p + 1] == [c];
  }

  /** A shorter run of digits leaves a digit where a non-digit is expected: the greedy `\d+`
      followed by a non-digit has no other way to match. */
  lemma OnlyFullRun(s: string, i: nat, n: nat, c: char)
    requires 0 < n && i + n < |s| && !IsDigit(c)
    requires forall k :: i <= k < i + n ==> IsDigit(s[k])
    requires s[i + n] == c
    ensures DigitRun(s, i) == n
  {
  }

  // ---------------------------------------------------------------------------
  // The three patterns

  /** `libc6_\d.\d+-`, the start both `.deb` patterns share. */
  function DebHead(s: string): Option<nat>
  {
    Lit(s, Digits(s, AnyChar(s, OneDigit(s, Lit(s, Some(0), "libc6_")))), "-")
  }

  /** `_(?P<arch>i386|amd64).deb` after the version group, which ends at `v`. */
  function DebTail(s: string, v: Option<nat>): Option<PackageMatch>
  {
    var u := Lit(s, v, "_");
    match Choice(s, u, DEB_ARCHES)
    case None => None
    case Some(a) =>
      if 6 <= v.value && Lit(s, AnyChar(s, Some(u.value + |a|)), "deb").Some? then Some(PackageMatch(s[6..v.value], a))
      else None
  }

  /** `libc6_\d.\d+-\dubuntu\d+`: the end of the Ubuntu version group. */
  function UbuntuHead(s: string): Option<nat>
  {
    Digits(s, Lit(s, OneDigit(s, DebHead(s)), "ubuntu"))
  }

  /** `libc6_(?P<version>\d.\d+-\dubuntu\d+)_(?P<arch>i386|amd64).deb` */
  function UbuntuMatch(s: string): Option<PackageMatch>
  {
    DebTail(s, UbuntuHead(s))
  }

  /** `libc6_\d.\d+-\d+\+deb\du\d`: the end of the Debian version group. */
  function DebianHead(s: string): Option<nat>
  {
    OneDigit(s, Lit(s, OneDigit(s, Lit(s, Digits(s, DebHead(s)), "+deb")), "u"))
  }

  /** `libc6_(?P<version>\d.\d+-\d+\+deb\du\d)_(?P<arch>i386|amd64).deb` */
  function DebianMatch(s: string): Option<PackageMatch>
  {
    DebTail(s, DebianHead(s))
  }

  /** `.pkg.tar.xz` with each `.` any character. */
  function ArchLinuxEnd(s: string, p: Option<nat>): Option<nat>
  {
    Lit(s, AnyChar(s, Lit(s, AnyChar(s, Lit(s, AnyChar(s, p), "pkg")), "tar")), "xz")
  }

  /** `glibc-\d.\d+-\d`: the end of the version group. */
  function ArchLinuxHead(s: string): Option<nat>
  {
    OneDigit(s, Lit(s, Digits(s, AnyChar(s, OneDigit(s, Lit(s, Some(0), "glibc-")))), "-"))
  }

  /** `-(?P<arch>i686|x86_64).pkg.tar.xz` after the version group, which ends at `v`. */
  function ArchLinuxTail(s: string, v: Option<nat>): Option<PackageMatch>
  {
    var u := Lit(s, v, "-");
    match Choice(s, u, ARCH_LINUX_ARCHES)
    case None => None
    case Some(a) =>
      if 6 <= v.value && ArchLinuxEnd(s, Some(u.value + |a|)).Some? then Some(PackageMatch(s[6..v.value], a))
      else None
  }

  /** `glibc-(?P<version>\d.\d+-\d)-(?P<arch>i686|x86_64).pkg.tar.xz` */
  function ArchLinuxMatch(s: string): Option<PackageMatch>
  {
    ArchLinuxTail(s, ArchLinuxHead(s))
  }

  /** The `if match: ... raise SystemExit` chain: the first pattern that matches decides. */
  function Classify(name: string): Option<(Distro, PackageMatch)>
  {
    match UbuntuMatch(name)
    case Some(m) => Some((Ubuntu, m))
    case None =>
      match DebianMatch(name)
      case Some(m) => Some((Debian, m))
      case None =>
        match ArchLinuxMatch(name)
        case Some(m) => Some((ArchLinux, m))
        case None => None
  }

  /** `proper_libc_filename` and `proper_ld_filename`. */
  function LibcFileName(m: PackageMatch): string
  {
    "libc-" + m.architecture + "-" + m.version + ".so"
  }

  function LdFileName(m: PackageMatch): string
  {
    "ld-" + m.architecture + "-" + m.version + ".so"
  }

  /** How the script ends: no pattern matches the base name and nothing happens; a step of
      `extract_ld_and_libc` run with `check=True` exits non-zero and the `CalledProcessError`
      ends the script before any copy; or the package is copied to the two catalog paths. */
  datatype AddOutcome = NoMatch | ExtractionFailed | Copied(libcTarget: string, ldTarget: string)

  /** The script for a package path. `extracted` says whether `tar xf`, the `data.tar.xz` step
      and both `realpath $(find …)` runs succeed in the temporary directory (`realpath` with no
      operand fails, so a package without `libc.so.6` or `ld-*.so` does not get that far).
      `libcsDir` stands for `bowkin.libcs_dirpath`. */
  function AddLibc(packagePath: string, libcsDir: string, extracted: bool): (r: AddOutcome)
    ensures r.NoMatch? <==> Classify(Paths.Basename(packagePath)).None?
    ensures r.ExtractionFailed? <==> Classify(Paths.Basename(packagePath)).Some? && !extracted
    ensures r.Copied? ==> var m := Classify(Paths.Basename(packagePath)).value.1;
              r.libcTarget == Paths.Join(libcsDir, LibcFileName(m)) &&
              r.ldTarget == Paths.Join(libcsDir, LdFileName(m))
  {
    match Classify(Paths.Basename(packagePath))
    case None => NoMatch
    case Some((_, m)) =>
      if !extracted then ExtractionFailed
      else Copied(Paths.Join(libcsDir, LibcFileName(m)), Paths.Join(libcsDir, LdFileName(m)))
  }

  // ---------------------------------------------------------------------------
  // What the patterns accept, stated without positions

  predicate Digits1(r: string) { r != [] && forall k :: 0 <= k < |r| ==> IsDigit(r[k]) }

  /** `\d.\d+-\dubuntu\d+` with its `-` at `j`. */
  predicate UbuntuVersionAt(v: string, j: nat)
  {
    2 < j && j + 8 < |v| && IsDigit(v[0]) && IsAny(v[1]) && Digits1(v[2..j]) && v[j] == '-' &&
    IsDigit(v[j + 1]) && v[j + 2..j + 8] == "ubuntu" && Digits1(v[j + 8..])
  }

  predicate UbuntuVersion(v: string) { exists j: nat | j < |v| :: UbuntuVersionAt(v, j) }

  /** `\d.\d+-\d+\+deb\du\d` with its `-` at `j` and its `+` at `k`. */
  predicate DebianVersionAt(v: string, j: nat, k: nat)
  {
    2 < j && j + 1 < k && k + 7 == |v| && IsDigit(v[0]) && IsAny(v[1]) && Digits1(v[2..j]) && v[j] == '-' &&
    Digits1(v[j + 1..k]) && v[k..k + 4] == "+deb" && IsDigit(v[k + 4]) && v[k + 5] == 'u' && IsDigit(v[k + 6])
  }

  predicate DebianVersion(v: string) { exists j: nat, k: nat | j < k < |v| :: DebianVersionAt(v, j, k) }

  /** `\d.\d+-\d` with its `-` at `j`. */
  predicate ArchLinuxVersionAt(v: string, j: nat)
  {
    2 < j && j + 2 == |v| && IsDigit(v[0]) && IsAny(v[1]) && Digits1(v[2..j]) && v[j] == '-' && IsDigit(v[j + 1])
  }

  predicate ArchLinuxVersion(v: string) { exists j: nat | j < |v| :: ArchLinuxVersionAt(v, j) }

  /** The name starts with `<lead><version><sep><arch>`. */
  predicate Framed(s: string, lead: string, m: PackageMatch, sep: char)
  {
    var p := lead + m.version + [sep] + m.architecture;
    |p| <= |s| && s[..|p|] == p
  }

  /** The name starts with `libc6_<version>_<arch>`, then any character and `deb`. */
  predicate DebName(s: string, m: PackageMatch)
  {
    var q := 7 + |m.version| + |m.architecture|;
    Framed(s, "libc6_", m, '_') && q + 4 <= |s| && IsAny(s[q]) && s[q + 1..q + 4] == "deb"
  }

  /** The name starts with `glibc-<version>-<arch>`, then `.pkg.tar.xz` with any character for
      each dot. */
  predicate ArchLinuxName(s: string, m: PackageMatch)
  {
    var q := 7 + |m.version| + |m.architecture|;
    Framed(s, "glibc-", m, '-') && q + 11 <= |s| && IsAny(s[q]) && s[q + 1..q + 4] == "pkg" &&
    IsAny(s[q + 4]) && s[q + 5..q + 8] == "tar" && IsAny(s[q + 8]) && s[q + 9..q + 11] == "xz"
  }

  /** The characters a `Framed` fixes. */
  lemma FramedChars(s: string, lead: string, m: PackageMatch, sep: char)
    requires |lead| == 6 && Framed(s, lead, m, sep)
    ensures |m.version| + |m.architecture| + 7 <= |s|
    ensures s[..6] == lead && s[6..6 + |m.version|] == m.version && s[6 + |m.version|] == sep
    ensures s[7 + |m.version|..7 + |m.version| + |m.architecture|] == m.architecture
    ensures forall k :: 0 <= k < |m.version| ==> s[6 + k] == m.version[k]
  {
    var p := lead + m.version + [sep] + m.architecture;
    var q := s[..|p|];
    assert forall k :: 0 <= k < |p| ==> s[k] == p[k] by {
      forall k | 0 <= k < |p| ensures s[k] == p[k] { assert q[k] == s[k]; }
    }
    assert s[..6] == p[..6];
    assert s[6..6 + |m.version|] == p[6..6 + |m.version|];
    assert s[7 + |m.version|..|p|] == p[7 + |m.version|..];
  }

  /** A name that reads `<lead><version><sep><arch>` at the right places is `Framed`. */
  lemma FramedIntro(s: string, lead: string, m: PackageMatch, sep: char)
    requires |lead| == 6 && |m.version| + |m.architecture| + 7 <= |s|
    requires s[..6] == lead && s[6..6 + |m.version|] == m.version && s[6 + |m.version|] == sep
    requires s[7 + |m.version|..7 + |m.version| + |m.architecture|] == m.architecture
    ensures Framed(s, lead, m, sep)
  {
    var e := 6 + |m.version|;
    var p := lead + m.version + [sep] + m.architecture;
    assert s[..|p|] == s[..6] + s[6..e] + s[e..e + 1] + s[e + 1..e + 1 + |m.architecture|];
  }

  // ---------------------------------------------------------------------------
  // The two .deb patterns and the Ubuntu one

  /** What `DebHead` has read when it succeeds. */
  lemma DebHeadSound(s: string)
    requires DebHead(s).Some?
    ensures var h := DebHead(s).value;
            10 <= h <= |s| && s[..6] == "libc6_" && IsDigit(s[6]) && IsAny(s[7]) &&
            (forall k :: 8 <= k < h - 1 ==> IsDigit(s[k])) && s[h - 1] == '-'
  {
  }

  /** What `DebTail` has read when it succeeds. */
  lemma DebTailSound(s: string, v: Option<nat>)
    requires DebTail(s, v).Some?
    ensures v.Some? && 6 <= v.value <= |s|
    ensures var m := DebTail(s, v).value;
            m.version == s[6..v.value] && m.architecture in DEB_ARCHES &&
            (s[..6] == "libc6_" ==> DebName(s, m))
  {
    var m := DebTail(s, v).value;
    var e := v.value;
    var a := m.architecture;
    assert s[e] == '_';
    assert s[e + 1..e + 1 + |a|] == a;
    if s[..6] == "libc6_" {
      FramedIntro(s, "libc6_", m, '_');
    }
  }

  /** The version group of the Ubuntu pattern, from the characters it has read. */
  lemma UbuntuVersionFrom(s: string, h: nat, e: nat)
    requires 10 <= h && h + 7 < e <= |s| && IsDigit(s[6]) && IsAny(s[7])
    requires (forall k :: 8 <= k < h - 1 ==> IsDigit(s[k])) && s[h - 1] == '-'
    requires IsDigit(s[h]) && s[h + 1..h + 7] == "ubuntu" && forall k :: h + 7 <= k < e ==> IsDigit(s[k])
    ensures UbuntuVersionAt(s[6..e], h - 7)
  {
    var v := s[6..e];
    var j := h - 7;
    assert forall k :: 0 <= k < |v| ==> v[k] == s[k + 6];
    assert v[2..j] == s[8..h - 1];
    assert v[j + 2..j + 8] == s[h + 1..h + 7];
    assert v[j + 8..] == s[h + 7..e];
  }

  lemma UbuntuSound(s: string)
    requires UbuntuMatch(s).Some?
    ensures var m := UbuntuMatch(s).value;
            DebName(s, m) && UbuntuVersion(m.version) && m.architecture in DEB_ARCHES
  {
    var h := DebHead(s).value;
    DebHeadSound(s);
    var ev := UbuntuHead(s);
    DebTailSound(s, ev);
    var e := ev.value;
    assert At(s, h + 1, "ubuntu");
    UbuntuVersionFrom(s, h, e);
  }

  /** `libc6_\d.\d+-` over a version whose first `-` is at `j`. */
  lemma DebHeadOf(s: string, v: string, j: nat)
    requires 6 + |v| <= |s| && s[..6] == "libc6_" && forall k :: 0 <= k < |v| ==> s[6 + k] == v[k]
    requires 2 < j < |v| && IsDigit(v[0]) && IsAny(v[1]) && Digits1(v[2..j]) && v[j] == '-'
    ensures DebHead(s) == Some(7 + j)
  {
    assert At(s, 0, "libc6_");
    assert forall k :: 8 <= k < 6 + j ==> IsDigit(s[k]) by {
      forall k | 8 <= k < 6 + j ensures IsDigit(s[k]) { assert s[k] == v[k - 6] == v[2..j][k - 8]; }
    }
    assert s[6 + j] == '-';
    OnlyFullRun(s, 8, j - 2, '-');
  }

  /** `_<arch>.deb` after a version that ends at `6 + |v|`. */
  lemma DebTailOf(s: string, m: PackageMatch)
    requires DebName(s, m) && m.architecture in DEB_ARCHES
    ensures DebTail(s, Some(6 + |m.version|)) == Some(m)
  {
    FramedChars(s, "libc6_", m, '_');
    var v, a := m.version, m.architecture;
    LitChar(s, 6 + |v|, '_');
    if a == "amd64" {
      assert !At(s, 7 + |v|, "i386") by { assert s[7 + |v|] == a[0]; }
    }
    ChoiceOfTwo(s, 7 + |v|, "i386", "amd64", a);
    var q := 7 + |v| + |a|;
    assert s[q + 1..q + 4] == "deb";
  }

  lemma UbuntuComplete(s: string, m: PackageMatch, j: nat)
    requires DebName(s, m) && UbuntuVersionAt(m.version, j) && m.architecture in DEB_ARCHES
    ensures UbuntuMatch(s) == Some(m)
  {
    var v := m.version;
    FramedChars(s, "libc6_", m, '_');
    DebHeadOf(s, v, j);
    assert OneDigit(s, DebHead(s)) == Some(8 + j);
    assert s[8 + j..14 + j] == v[j + 2..j + 8];
    assert Lit(s, Some(8 + j), "ubuntu") == Some(14 + j);
    OnlyFullRun(s, 14 + j, |v| - j - 8, '_');
    assert Digits(s, Some(14 + j)) == Some(6 + |v|);
    assert UbuntuHead(s) == Some(6 + |v|);
    DebTailOf(s, m);
  }

  /** The Ubuntu pattern matches exactly the names that start with `libc6_<version>_<arch>`,
      any character and `deb`, for a version of its shape and one of its two architectures;
      the groups are that version and architecture. */
  lemma UbuntuMatchSpec(s: string, m: PackageMatch)
    ensures UbuntuMatch(s) == Some(m) <==> DebName(s, m) && UbuntuVersion(m.version) && m.architecture in DEB_ARCHES
  {
    if UbuntuMatch(s) == Some(m) {
      UbuntuSound(s);
    }
    if DebName(s, m) && UbuntuVersion(m.version) && m.architecture in DEB_ARCHES {
      var j: nat :| j < |m.version| && UbuntuVersionAt(m.version, j);
      UbuntuComplete(s, m, j);
    }
  }

  // ---------------------------------------------------------------------------
  // The Debian pattern

  /** The version group of the Debian pattern, from the characters it has read. */
  lemma DebianVersionFrom(s: string, h: nat, k: nat, e: nat)
    requires 10 <= h < k && e == k + 7 <= |s| && IsDigit(s[6]) && IsAny(s[7])
    requires (forall i :: 8 <= i < h - 1 ==> IsDigit(s[i])) && s[h - 1] == '-'
    requires (forall i :: h <= i < k ==> IsDigit(s[i])) && s[k..k + 4] == "+deb"
    requires IsDigit(s[k + 4]) && s[k + 5] == 'u' && IsDigit(s[k + 6])
    ensures DebianVersionAt(s[6..e], h - 7, k - 6)
  {
    var v := s[6..e];
    var j := h - 7;
    assert forall i :: 0 <= i < |v| ==> v[i] == s[i + 6];
    assert v[2..j] == s[8..h - 1];
    assert v[j + 1..k - 6] == s[h..k];
    assert v[k - 6..k - 2] == s[k..k + 4];
  }

  lemma DebianSound(s: string)
    requires DebianMatch(s).Some?
    ensures var m := DebianMatch(s).value;
            DebName(s, m) && DebianVersion(m.version) && m.architecture in DEB_ARCHES
  {
    var ev := DebianHead(s);
    DebTailSound(s, ev);
    var a := Digits(s, DebHead(s));
    var b := Lit(s, a, "+deb");
    var d := Lit(s, OneDigit(s, b), "u");
    assert d.Some? && OneDigit(s, b).Some? && b.Some?;
    DebHeadSound(s);
    var k := a.value;
    CharAt(s, k + 5, 'u');
    DebianVersionFrom(s, DebHead(s).value, k, ev.value);
  }

  /** The Debian version group read over a version of its shape. */
  lemma DebianHeadOf(s: string, v: string, j: nat, k: nat)
    requires 6 + |v| <= |s| && s[..6] == "libc6_" && forall i :: 0 <= i < |v| ==> s[6 + i] == v[i]
    requires DebianVersionAt(v, j, k)
    ensures DebianHead(s) == Some(6 + |v|)
  {
    DebHeadOf(s, v, j);
    assert forall i :: 7 + j <= i < 6 + k ==> IsDigit(s[i]) by {
      forall i | 7 + j <= i < 6 + k ensures IsDigit(s[i]) { assert s[i] == v[i - 6] == v[j + 1..k][i - 7 - j]; }
    }
    assert s[6 + k] == v[k] == v[k..k + 4][0] == '+';
    OnlyFullRun(s, 7 + j, k - j - 1, '+');
    assert Digits(s, DebHead(s)) == Some(6 + k);
    assert s[6 + k..10 + k] == v[k..k + 4];
    assert Lit(s, Some(6 + k), "+deb") == Some(10 + k);
  }

  lemma DebianComplete(s: string, m: PackageMatch, j: nat, k: nat)
    requires DebName(s, m) && DebianVersionAt(m.version, j, k) && m.architecture in DEB_ARCHES
    ensures DebianMatch(s) == Some(m)
  {
    FramedChars(s, "libc6_", m, '_');
    DebianHeadOf(s, m.version, j, k);
    DebTailOf(s, m);
    assert DebianMatch(s) == DebTail(s, Some(6 + |m.version|));
  }

  /** The Debian pattern matches exactly the names that start with `libc6_<version>_<arch>`,
      any character and `deb`, for a version of its shape and one of its two architectures. */
  lemma DebianMatchSpec(s: string, m: PackageMatch)
    ensures DebianMatch(s) == Some(m) <==> DebName(s, m) && DebianVersion(m.version) && m.architecture in DEB_ARCHES
  {
    if DebianMatch(s) == Some(m) {
      DebianSound(s);
    }
    if DebName(s, m) && DebianVersion(m.version) && m.architecture in DEB_ARCHES {
      var j: nat, k: nat :| j < k < |m.version| && DebianVersionAt(m.version, j, k);
      DebianComplete(s, m, j, k);
    }
  }

  // ---------------------------------------------------------------------------
  // The Arch Linux pattern

  /** What `ArchLinuxHead` has read when it succeeds. */
  lemma ArchLinuxHeadSound(s: string)
    requires ArchLinuxHead(s).Some?
    ensures var e := ArchLinuxHead(s).value;
            11 <= e <= |s| && s[..6] == "glibc-" && IsDigit(s[6]) && IsAny(s[7]) &&
            (forall k :: 8 <= k < e - 2 ==> IsDigit(s[k])) && s[e - 2] == '-' && IsDigit(s[e - 1])
  {
  }

  lemma ArchLinuxEndSpec(s: string, q: nat)
    ensures ArchLinuxEnd(s, Some(q)).Some? <==>
              q + 11 <= |s| && IsAny(s[q]) && s[q + 1..q + 4] == "pkg" && IsAny(s[q + 4]) &&
              s[q + 5..q + 8] == "tar" && IsAny(s[q + 8]) && s[q + 9..q + 11] == "xz"
  {
  }

  /** What `ArchLinuxTail` has read when it succeeds. */
  lemma ArchLinuxTailSound(s: string, v: Option<nat>)
    requires ArchLinuxTail(s, v).Some?
    ensures v.Some? && 6 <= v.value <= |s|
    ensures var m := ArchLinuxTail(s, v).value;
            m.version == s[6..v.value] && m.architecture in ARCH_LINUX_ARCHES &&
            (s[..6] == "glibc-" ==> ArchLinuxName(s, m))
  {
    var m := ArchLinuxTail(s, v).value;
    var e := v.value;
    var a := m.architecture;
    assert s[e] == '-';
    assert s[e + 1..e + 1 + |a|] == a;
    ArchLinuxEndSpec(s, e + 1 + |a|);
    if s[..6] == "glibc-" {
      FramedIntro(s, "glibc-", m, '-');
    }
  }

  lemma ArchLinuxSound(s: string)
    requires ArchLinuxMatch(s).Some?
    ensures var m := ArchLinuxMatch(s).value;
            ArchLinuxName(s, m) && ArchLinuxVersion(m.version) && m.architecture in ARCH_LINUX_ARCHES
  {
    var e := ArchLinuxHead(s).value;
    ArchLinuxHeadSound(s);
    ArchLinuxTailSound(s, ArchLinuxHead(s));
    var v := s[6..e];
    assert forall i :: 0 <= i < |v| ==> v[i] == s[i + 6];
    assert v[2..e - 8] == s[8..e - 2];
    assert ArchLinuxVersionAt(v, e - 8);
  }

  /** The Arch Linux version group read over a version of its shape. */
  lemma ArchLinuxHeadOf(s: string, v: string, j: nat)
    requires 6 + |v| <= |s| && s[..6] == "glibc-" && forall i :: 0 <= i < |v| ==> s[6 + i] == v[i]
    requires ArchLinuxVersionAt(v, j)
    ensures ArchLinuxHead(s) == Some(6 + |v|)
  {
    assert At(s, 0, "glibc-");
    assert forall k :: 8 <= k < 6 + j ==> IsDigit(s[k]) by {
      forall k | 8 <= k < 6 + j ensures IsDigit(s[k]) { assert s[k] == v[k - 6] == v[2..j][k - 8]; }
    }
    assert s[6 + j] == '-';
    OnlyFullRun(s, 8, j - 2, '-');
  }

  /** `-<arch>.pkg.tar.xz` after a version that ends at `6 + |v|`. */
  lemma ArchLinuxTailOf(s: string, m: PackageMatch)
    requires ArchLinuxName(s, m) && m.architecture in ARCH_LINUX_ARCHES
    ensures ArchLinuxTail(s, Some(6 + |m.version|)) == Some(m)
  {
    FramedChars(s, "glibc-", m, '-');
    var v, a := m.version, m.architecture;
    LitChar(s, 6 + |v|, '-');
    if a == "x86_64" {
      assert !At(s, 7 + |v|, "i686") by { assert s[7 + |v|] == a[0]; }
    }
    ChoiceOfTwo(s, 7 + |v|, "i686", "x86_64", a);
    ArchLinuxEndSpec(s, 7 + |v| + |a|);
  }

  lemma ArchLinuxComplete(s: string, m: PackageMatch, j: nat)
    requires ArchLinuxName(s, m) && ArchLinuxVersionAt(m.version, j) && m.architecture in ARCH_LINUX_ARCHES
    ensures ArchLinuxMatch(s) == Some(m)
  {
    FramedChars(s, "glibc-", m, '-');
    ArchLinuxHeadOf(s, m.version, j);
    ArchLinuxTailOf(s, m);
  }

  /** The Arch Linux pattern matches exactly the names that start with `glibc-<version>-<arch>`
      and `.pkg.tar.xz` (any character for each dot), for a version of its shape and one of its
      two architectures. */
  lemma ArchLinuxMatchSpec(s: string, m: PackageMatch)
    ensures ArchLinuxMatch(s) == Some(m) <==>
              ArchLinuxName(s, m) && ArchLinuxVersion(m.version) && m.architecture in ARCH_LINUX_ARCHES
  {
    if ArchLinuxMatch(s) == Some(m) {
      ArchLinuxSound(s);
    }
    if ArchLinuxName(s, m) && ArchLinuxVersion(m.version) && m.architecture in ARCH_LINUX_ARCHES {
      var j: nat :| j < |m.version| && ArchLinuxVersionAt(m.version, j);
      ArchLinuxComplete(s, m, j);
    }
  }

  // ---------------------------------------------------------------------------
  // First match wins

  /** The pattern of the given distribution. */
  function MatchOf(d: Distro, s: string): Option<PackageMatch>
  {
    match d
    case Ubuntu => UbuntuMatch(s)
    case Debian => DebianMatch(s)
    case ArchLinux => ArchLinuxMatch(s)
  }

  lemma UbuntuReads(s: string)
    requires UbuntuHead(s).Some?
    ensures DebHead(s).Some? && DebHead(s).value + 1 < |s|
    ensures IsDigit(s[DebHead(s).value]) && s[DebHead(s).value + 1] == 'u'
  {
    var h := DebHead(s).value;
    assert At(s, h + 1, "ubuntu");
    assert s[h + 1] == s[h + 1..h + 7][0];
  }

  lemma DebianReads(s: string)
    requires DebianHead(s).Some?
    ensures DebHead(s).Some? && Digits(s, DebHead(s)).Some?
    ensures var k := Digits(s, DebHead(s)).value; k < |s| && s[k] == '+'
  {
    var a := Digits(s, DebHead(s));
    var b := Lit(s, a, "+deb");
    var c := Lit(s, OneDigit(s, b), "u");
    assert OneDigit(s, c).Some?;
    assert c.Some? && OneDigit(s, b).Some? && b.Some?;
    PlusAt(s, a.value);
  }

  lemma PlusAt(s: string, k: nat)
    requires At(s, k, "+deb")
    ensures k < |s| && s[k] == '+'
  {
    assert s[k] == s[k..k + 4][0];
  }

  /** The two `.deb` patterns part after the first digit of the release. */
  lemma UbuntuOrDebian(s: string)
    ensures UbuntuHead(s).None? || DebianHead(s).None?
  {
    if UbuntuHead(s).Some? && DebianHead(s).Some? {
      UbuntuReads(s);
      DebianReads(s);
      OnlyFullRun(s, DebHead(s).value, 1, 'u');
    }
  }

  /** The `.deb` patterns and the Arch Linux one differ in their first character. */
  lemma DebOrArchLinux(s: string)
    ensures DebHead(s).None? || ArchLinuxHead(s).None?
  {
    if DebHead(s).Some? {
      assert s[0] == s[..6][0] == 'l';
    }
    if ArchLinuxHead(s).Some? {
      assert s[0] == s[..6][0] == 'g';
    }
  }

  /** No name matches two of the patterns, so the order of the tries only matters for names
      none of the others accepts. */
  lemma PatternsExclusive(s: string)
    ensures UbuntuMatch(s).None? || DebianMatch(s).None?
    ensures UbuntuMatch(s).None? || ArchLinuxMatch(s).None?
    ensures DebianMatch(s).None? || ArchLinuxMatch(s).None?
  {
    UbuntuOrDebian(s);
    DebOrArchLinux(s);
    if UbuntuMatch(s).Some? {
      DebTailSound(s, UbuntuHead(s));
    }
    if DebianMatch(s).Some? {
      DebTailSound(s, DebianHead(s));
    }
    if ArchLinuxMatch(s).Some? {
      ArchLinuxTailSound(s, ArchLinuxHead(s));
    }
  }

  /** The script processes a name as the distribution whose pattern accepts it. */
  lemma ClassifySpec(s: string, d: Distro, m: PackageMatch)
    ensures Classify(s) == Some((d, m)) <==> MatchOf(d, s) == Some(m)
  {
    PatternsExclusive(s);
  }

  /** A name no pattern accepts leaves nothing to do. */
  lemma ClassifyNone(s: string)
    ensures Classify(s).None? <==> UbuntuMatch(s).None? && DebianMatch(s).None? && ArchLinuxMatch(s).None?
  {
  }

  // ---------------------------------------------------------------------------
  // Anchored at the start only

  lemma FramedExtends(s: string, t: string, lead: string, m: PackageMatch, sep: char)
    requires Framed(s, lead, m, sep)
    ensures Framed(s + t, lead, m, sep)
  {
    var p := lead + m.version + [sep] + m.architecture;
    assert (s + t)[..|p|] == s[..|p|];
  }

  lemma UbuntuExtends(s: string, t: string)
    requires UbuntuMatch(s).Some?
    ensures UbuntuMatch(s + t) == UbuntuMatch(s)
  {
    var m := UbuntuMatch(s).value;
    var q := 7 + |m.version| + |m.architecture|;
    UbuntuMatchSpec(s, m);
    FramedExtends(s, t, "libc6_", m, '_');
    assert (s + t)[q + 1..q + 4] == s[q + 1..q + 4];
    UbuntuMatchSpec(s + t, m);
  }

  lemma DebianExtends(s: string, t: string)
    requires DebianMatch(s).Some?
    ensures DebianMatch(s + t) == DebianMatch(s)
  {
    var m := DebianMatch(s).value;
    var q := 7 + |m.version| + |m.architecture|;
    DebianMatchSpec(s, m);
    FramedExtends(s, t, "libc6_", m, '_');
    assert (s + t)[q + 1..q + 4] == s[q + 1..q + 4];
    DebianMatchSpec(s + t, m);
  }

  lemma ArchLinuxExtends(s: string, t: string)
    requires ArchLinuxMatch(s).Some?
    ensures ArchLinuxMatch(s + t) == ArchLinuxMatch(s)
  {
    var m := ArchLinuxMatch(s).value;
    var q := 7 + |m.version| + |m.architecture|;
    ArchLinuxMatchSpec(s, m);
    FramedExtends(s, t, "glibc-", m, '-');
    assert (s + t)[q + 1..q + 4] == s[q + 1..q + 4];
    assert (s + t)[q + 5..q + 8] == s[q + 5..q + 8];
    assert (s + t)[q + 9..q + 11] == s[q + 9..q + 11];
    ArchLinuxMatchSpec(s + t, m);
  }

  /** `re.match` anchors at the start only: text after an accepted name changes nothing, the
      same pattern accepts it with the same groups. */
  lemma ClassifyExtends(s: string, t: string)
    requires Classify(s).Some?
    ensures Classify(s + t) == Classify(s)
  {
    var (d, m) := Classify(s).value;
    ClassifySpec(s, d, m);
    match d {
      case Ubuntu => UbuntuExtends(s, t);
      case Debian => DebianExtends(s, t);
      case ArchLinux => ArchLinuxExtends(s, t);
    }
    ClassifySpec(s + t, d, m);
  }

  // ---------------------------------------------------------------------------
  // What `rebuild` reads back from the file names

  /** The accepted version splits at its `-` at `j` into what the catalog's path pattern reads
      as `version` (`\d.\d+`) and as `patch`. */
  predicate SplitsAt(v: string, j: nat)
  {
    j < |v| && LibcPath.VersionShape(v[..j]) && v[j] == '-' && v[j + 1..] != [] && LibcPath.NoNewline(v[j + 1..])
  }

  lemma VersionHeadShape(v: string, j: nat)
    requires 2 < j < |v| && IsDigit(v[0]) && IsAny(v[1]) && Digits1(v[2..j])
    ensures LibcPath.VersionShape(v[..j])
  {
    forall k | 2 <= k < j
      ensures IsDigit(v[..j][k])
    {
      assert v[..j][k] == v[2..j][k - 2];
    }
  }

  lemma TailNoNewline(v: string, j: nat)
    requires j < |v| && forall i :: j + 1 <= i < |v| ==> v[i] != '\n'
    ensures LibcPath.NoNewline(v[j + 1..])
  {
    var t := v[j + 1..];
    forall n | 0 <= n < |t|
      ensures t[n] != '\n'
    {
      assert t[n] == v[j + 1 + n];
    }
  }

  lemma UbuntuSplits(v: string, j: nat)
    requires UbuntuVersionAt(v, j)
    ensures SplitsAt(v, j) && forall i :: j < i < |v| ==> v[i] != 'l'
  {
    VersionHeadShape(v, j);
    forall i | j + 1 <= i < |v|
      ensures v[i] != '\n' && v[i] != 'l'
    {
      if i == j + 1 {
      } else if i < j + 8 {
        assert v[i] == v[j + 2..j + 8][i - j - 2];
      } else {
        assert v[i] == v[j + 8..][i - j - 8];
      }
    }
    TailNoNewline(v, j);
  }

  lemma DebianSplits(v: string, j: nat, k: nat)
    requires DebianVersionAt(v, j, k)
    ensures SplitsAt(v, j) && forall i :: j < i < |v| ==> v[i] != 'l'
  {
    VersionHeadShape(v, j);
    forall i | j + 1 <= i < |v|
      ensures v[i] != '\n' && v[i] != 'l'
    {
      if i < k {
        assert v[i] == v[j + 1..k][i - j - 1];
      } else if i < k + 4 {
        assert v[i] == v[k..k + 4][i - k];
      }
    }
    TailNoNewline(v, j);
  }

  lemma ArchLinuxSplits(v: string, j: nat)
    requires ArchLinuxVersionAt(v, j)
    ensures SplitsAt(v, j) && forall i :: j < i < |v| ==> v[i] != 'l'
  {
    VersionHeadShape(v, j);
    TailNoNewline(v, j);
  }

  lemma SplitJoin(v: string, j: nat)
    requires j < |v| && v[j] == '-'
    ensures v[..j] + "-" + v[j + 1..] == v
  {
    assert v == v[..j] + v[j..j + 1] + v[j + 1..];
  }

  /** The catalog's path pattern reads `libc-<arch>-<version>.so` back as the architecture, the
      version up to the split and the rest as the patch. */
  lemma LibcFileNameRead(m: PackageMatch, j: nat)
    requires m.architecture in LibcPath.ARCHES && SplitsAt(m.version, j)
    ensures LibcPath.TailOf(LibcFileName(m)) ==
            Some(LibcPath.Tail(m.architecture, m.version[..j], Some(m.version[j + 1..])))
  {
    var v := m.version;
    SplitJoin(v, j);
    assert LibcFileName(m) == LibcPath.FileName(m.architecture, v[..j], Some(v[j + 1..]));
    LibcPath.TailOfFileName(m.architecture, v[..j], Some(v[j + 1..]));
  }

  /** The groups of an accepted name, and where its version splits. */
  lemma ClassifiedSplits(s: string, d: Distro, m: PackageMatch) returns (j: nat)
    requires Classify(s) == Some((d, m))
    ensures m.architecture in LibcPath.ARCHES && SplitsAt(m.version, j)
    ensures m.architecture in DEB_ARCHES + ARCH_LINUX_ARCHES
    ensures forall i :: j < i < |m.version| ==> m.version[i] != 'l'
    ensures d == ArchLinux ==> Framed(s, "glibc-", m, '-')
    ensures d != ArchLinux ==> Framed(s, "libc6_", m, '_')
  {
    ClassifySpec(s, d, m);
    match d {
      case Ubuntu =>
        UbuntuMatchSpec(s, m);
        j :| j < |m.version| && UbuntuVersionAt(m.version, j);
        UbuntuSplits(m.version, j);
      case Debian =>
        DebianMatchSpec(s, m);
        var k: nat;
        j, k :| j < k < |m.version| && DebianVersionAt(m.version, j, k);
        DebianSplits(m.version, j, k);
      case ArchLinux =>
        ArchLinuxMatchSpec(s, m);
        j :| j < |m.version| && ArchLinuxVersionAt(m.version, j);
        ArchLinuxSplits(m.version, j);
    }
  }

  /** The libc file name given to any accepted package is one the catalog's path pattern
      accepts, with the package's architecture, and the package's version read as a version
      and a patch joined by `-`. */
  lemma ClassifiedLibcRead(s: string, d: Distro, m: PackageMatch)
    requires Classify(s) == Some((d, m))
    ensures var t := LibcPath.TailOf(LibcFileName(m));
            t.Some? && t.value.architecture == m.architecture && t.value.patch.Some? &&
            t.value.version + "-" + t.value.patch.value == m.version
  {
    var j := ClassifiedSplits(s, d, m);
    LibcFileNameRead(m, j);
    SplitJoin(m.version, j);
  }

  /** The groups are read from the name: a base name gives a version without `/`. */
  lemma ClassifiedNoSlash(s: string, d: Distro, m: PackageMatch)
    requires Classify(s) == Some((d, m)) && Paths.NoSlash(s)
    ensures LibcPath.NoSlash(m.version)
  {
    var _ := ClassifiedSplits(s, d, m);
    FramedChars(s, if d == ArchLinux then "glibc-" else "libc6_", m, if d == ArchLinux then '-' else '_');
    forall k | 0 <= k < |m.version| ensures m.version[k] != '/' {
      assert s[6 + k] in s;
    }
  }

  /** The part after `libc-` of the libc name and after `ld-` of the loader name is the same,
      and `libc-` does not occur in it. */
  lemma LibcAndLdNames(s: string, d: Distro, m: PackageMatch)
    requires Classify(s) == Some((d, m))
    ensures var rest := m.architecture + "-" + m.version + ".so";
            LibcFileName(m) == "libc-" + rest && LdFileName(m) == "ld-" + rest &&
            forall i: nat | i <= |rest| :: !At(rest, i, "libc-")
  {
    var j := ClassifiedSplits(s, d, m);
    VersionNoEll(m.version, j);
    ArchNoEll(m.architecture);
    RestNoLibc(m.architecture, m.version);
    NamesOfRest(m);
  }

  lemma NamesOfRest(m: PackageMatch)
    ensures var rest := m.architecture + "-" + m.version + ".so";
            LibcFileName(m) == "libc-" + rest && LdFileName(m) == "ld-" + rest
  {
  }

  lemma VersionNoEll(v: string, j: nat)
    requires SplitsAt(v, j) && forall i :: j < i < |v| ==> v[i] != 'l'
    ensures |v| > 2 && IsDigit(v[2]) && forall k :: 0 <= k < |v| && k != 1 ==> v[k] != 'l'
  {
    assert v[2] == v[..j][2];
    forall k | 0 <= k < |v| && k != 1 ensures v[k] != 'l' {
      if k < j {
        assert v[k] == v[..j][k];
      }
    }
  }

  lemma ArchNoEll(a: string)
    requires a in DEB_ARCHES + ARCH_LINUX_ARCHES
    ensures forall k :: 0 <= k < |a| ==> a[k] != 'l'
  {
  }

  /** `libc-` starts with `li`, and the only `l` of `<arch>-<version>.so` is followed by a digit. */
  lemma RestNoLibc(a: string, v: string)
    requires forall k :: 0 <= k < |a| ==> a[k] != 'l'
    requires |v| > 2 && IsDigit(v[2]) && forall k :: 0 <= k < |v| && k != 1 ==> v[k] != 'l'
    ensures var rest := a + "-" + v + ".so";
            forall i: nat | i <= |rest| :: !At(rest, i, "libc-")
  {
    var rest := a + "-" + v + ".so";
    var e := |a| + 1;
    forall i: nat | i + 1 < |rest| ensures rest[i] == 'l' ==> rest[i + 1] != 'i' {
      if i < |a| {
        assert rest[i] == a[i];
      } else if i == |a| {
      } else if i < e + |v| {
        assert rest[i] == v[i - e];
        if i - e + 1 < |v| {
          assert rest[i + 1] == v[i - e + 1];
        }
      } else {
        assert rest[i] == ".so"[i - e - |v|];
      }
    }
    forall i: nat | i <= |rest| ensures !At(rest, i, "libc-") {
      if i + 5 <= |rest| {
        assert rest[i..i + 5][0] == rest[i] && rest[i..i + 5][1] == rest[i + 1];
      }
    }
  }

  lemma UnderLibcs(root: string, name: string)
    ensures root + "libcs" + "/" + name == root + "libcs/" + name
  {
    assert "libcs" + "/" == "libcs/";
  }

  lemma ArchNoSlash(a: string)
    requires a in LibcPath.ARCHES
    ensures LibcPath.NoSlash(a)
  {
  }

  lemma LibcFileNameNoSlash(m: PackageMatch)
    requires m.architecture in LibcPath.ARCHES && LibcPath.NoSlash(m.version)
    ensures LibcPath.NoSlash(LibcFileName(m))
  {
    var name := LibcFileName(m);
    var e := 5 + |m.architecture|;
    ArchNoSlash(m.architecture);
    forall k | 0 <= k < |name| ensures name[k] != '/' {
      if k < 5 {
        assert name[k] == "libc-"[k];
      } else if k < e {
        assert name[k] == m.architecture[k - 5];
      } else if k == e {
      } else if k < e + 1 + |m.version| {
        assert name[k] == m.version[k - e - 1];
      } else {
        assert name[k] == ".so"[k - e - 1 - |m.version|];
      }
    }
  }

  /** Adding a package and rebuilding the catalog: the file `add_libc.py` writes under the name
      `libc-…` (a copy of the package archive itself) becomes a row with no distro and no release, the package's architecture, and its version
      split into version and patch. */
  lemma AddedLibcCatalogued(root: string, packagePath: string, d: Distro, m: PackageMatch,
                            buildIdOf: string -> Option<string>)
    requires Classify(Paths.Basename(packagePath)) == Some((d, m))
    requires LibcPath.NoNewline(root)
    requires forall k :: 0 <= k < |root| ==> !At(root + "libcs/" + LibcFileName(m), k, "libcs/")
    ensures AddLibc(packagePath, root + "libcs", true) == Copied(root + "libcs" + "/" + LibcFileName(m),
                                                                  root + "libcs" + "/" + LdFileName(m))
    ensures var row := CatalogDb.RowFor(root + "libcs", LibcFileName(m), buildIdOf);
            row.Some? && row.value.relpath == LibcFileName(m) && row.value.architecture == m.architecture &&
            row.value.distro.None? && row.value.release.None? && row.value.patch.Some? &&
            row.value.version + "-" + row.value.patch.value == m.version
  {
    var s := Paths.Basename(packagePath);
    var name := LibcFileName(m);
    var j := ClassifiedSplits(s, d, m);
    LibcFileNameRead(m, j);
    SplitJoin(m.version, j);
    ClassifiedNoSlash(s, d, m);
    LibcFileNameNoSlash(m);
    LibcPath.NoLevel(root, name);
    UnderLibcs(root, name);
  }

  // ---------------------------------------------------------------------------
  // The names in the comments of the script

  /** The names the patterns describe, written out. */
  function DebPackageName(v: string, a: string, c: char, rest: string): string
  {
    "libc6_" + v + "_" + a + [c] + "deb" + rest
  }

  function ArchLinuxPackageName(v: string, a: string, c1: char, c2: char, c3: char, rest: string): string
  {
    "glibc-" + v + "-" + a + [c1] + "pkg" + [c2] + "tar" + [c3] + "xz" + rest
  }

  lemma DebNameOf(v: string, a: string, c: char, rest: string)
    requires IsAny(c)
    ensures DebName(DebPackageName(v, a, c, rest), PackageMatch(v, a))
  {
    var s := DebPackageName(v, a, c, rest);
    var p := "libc6_" + v + "_" + a;
    assert s == p + ([c] + "deb" + rest);
    assert s[..|p|] == p;
    assert s[|p| + 1..|p| + 4] == "deb";
  }

  lemma ArchLinuxNameOf(v: string, a: string, c1: char, c2: char, c3: char, rest: string)
    requires IsAny(c1) && IsAny(c2) && IsAny(c3)
    ensures ArchLinuxName(ArchLinuxPackageName(v, a, c1, c2, c3, rest), PackageMatch(v, a))
  {
    var s := ArchLinuxPackageName(v, a, c1, c2, c3, rest);
    var p := "glibc-" + v + "-" + a;
    var q := |p|;
    assert s == p + ([c1] + "pkg" + [c2] + "tar" + [c3] + "xz" + rest);
    assert s[..q] == p;
    assert s[q + 1..q + 4] == "pkg";
    assert s[q + 5..q + 8] == "tar";
    assert s[q + 9..q + 11] == "xz";
  }

  /** Every Ubuntu name of the pattern's shape is processed as Ubuntu with its own groups. */
  lemma UbuntuNamed(v: string, a: string, c: char, rest: string, j: nat)
    requires UbuntuVersionAt(v, j) && a in DEB_ARCHES && IsAny(c)
    ensures Classify(DebPackageName(v, a, c, rest)) == Some((Ubuntu, PackageMatch(v, a)))
  {
    DebNameOf(v, a, c, rest);
    UbuntuComplete(DebPackageName(v, a, c, rest), PackageMatch(v, a), j);
  }

  /** Every Debian name of the pattern's shape is processed as Debian with its own groups. */
  lemma DebianNamed(v: string, a: string, c: char, rest: string, j: nat, k: nat)
    requires DebianVersionAt(v, j, k) && a in DEB_ARCHES && IsAny(c)
    ensures Classify(DebPackageName(v, a, c, rest)) == Some((Debian, PackageMatch(v, a)))
  {
    DebNameOf(v, a, c, rest);
    DebianComplete(DebPackageName(v, a, c, rest), PackageMatch(v, a), j, k);
    ClassifySpec(DebPackageName(v, a, c, rest), Debian, PackageMatch(v, a));
  }

  /** Every Arch Linux name of the pattern's shape is processed as Arch Linux with its own groups. */
  lemma ArchLinuxNamed(v: string, a: string, c1: char, c2: char, c3: char, rest: string, j: nat)
    requires ArchLinuxVersionAt(v, j) && a in ARCH_LINUX_ARCHES && IsAny(c1) && IsAny(c2) && IsAny(c3)
    ensures Classify(ArchLinuxPackageName(v, a, c1, c2, c3, rest)) == Some((ArchLinux, PackageMatch(v, a)))
  {
    ArchLinuxNameOf(v, a, c1, c2, c3, rest);
    ArchLinuxComplete(ArchLinuxPackageName(v, a, c1, c2, c3, rest), PackageMatch(v, a), j);
    ClassifySpec(ArchLinuxPackageName(v, a, c1, c2, c3, rest), ArchLinux, PackageMatch(v, a));
  }

  /** The names in the comments of the script. */
  lemma UbuntuExample()
    ensures Classify("libc6_2.23-0ubuntu10_amd64.deb") == Some((Ubuntu, PackageMatch("2.23-0ubuntu10", "amd64")))
  {
    var u := "2.23-0ubuntu10";
    assert UbuntuVersionAt(u, 4) by {
      assert u[2..4] == "23" && u[6..12] == "ubuntu" && u[12..] == "10";
    }
    var p := "libc6_" + u;
    assert p == "libc6_2.23-0ubuntu10";
    var q := p + "_" + "amd64";
    assert q == "libc6_2.23-0ubuntu10_amd64";
    assert DebPackageName(u, "amd64", '.', "") == q + ['.'] + "deb" + "" == "libc6_2.23-0ubuntu10_amd64.deb";
    UbuntuNamed(u, "amd64", '.', "", 4);
  }

  lemma DebianExample()
    ensures Classify("libc6_2.24-11+deb9u3_amd64.deb") == Some((Debian, PackageMatch("2.24-11+deb9u3", "amd64")))
  {
    var d := "2.24-11+deb9u3";
    assert DebianVersionAt(d, 4, 7) by {
      assert d[2..4] == "24" && d[5..7] == "11" && d[7..11] == "+deb";
    }
    var p := "libc6_" + d;
    assert p == "libc6_2.24-11+deb9u3";
    var q := p + "_" + "amd64";
    assert q == "libc6_2.24-11+deb9u3_amd64";
    assert DebPackageName(d, "amd64", '.', "") == q + ['.'] + "deb" + "" == "libc6_2.24-11+deb9u3_amd64.deb";
    DebianNamed(d, "amd64", '.', "", 4, 7);
  }

  lemma ArchLinuxExample()
    ensures Classify("glibc-2.27-2-x86_64.pkg.tar.xz") == Some((ArchLinux, PackageMatch("2.27-2", "x86_64")))
  {
    var g := "2.27-2";
    assert ArchLinuxVersionAt(g, 4) by {
      assert g[2..4] == "27";
    }
    var p := "glibc-" + g + "-" + "x86_64";
    assert p == "glibc-2.27-2-x86_64";
    var q := p + ['.'] + "pkg" + ['.'] + "tar" + ['.'] + "xz" + "";
    assert ArchLinuxPackageName(g, "x86_64", '.', '.', '.', "") == q == "glibc-2.27-2-x86_64.pkg.tar.xz";
    ArchLinuxNamed(g, "x86_64", '.', '.', '.', "", 4);
  }
}
