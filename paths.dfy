/** POSIX path helpers: `os.path.dirname`, `os.path.basename`, `os.path.join` and `pathlib`'s `stem`. */
module Paths {
  import opened Wrappers

  predicate NoSlash(s: string) { '/' !in s }

  /** Index just past the last `/` (0 when there is none): `p.rfind('/') + 1`. */
  function SplitPoint(p: string): (i: nat)
    ensures i <= |p|
    ensures i > 0 ==> p[i - 1] == '/'
    ensures forall k :: i <= k < |p| ==> p[k] != '/'
  {
    if p == [] then 0
    else if p[|p| - 1] == '/' then |p|
    else SplitPoint(p[..|p| - 1])
  }

  /** `s.rstrip('/')`. */
  function StripTrailingSlashes(s: string): (r: string)
    ensures |r| <= |s| && r == s[..|r|]
    ensures r == [] || r[|r| - 1] != '/'
    ensures forall k :: |r| <= k < |s| ==> s[k] == '/'
  {
    if s != [] && s[|s| - 1] == '/' then StripTrailingSlashes(s[..|s| - 1]) else s
  }

  predicate AllSlashes(s: string) { forall k :: 0 <= k < |s| ==> s[k] == '/' }

  /** `os.path.basename`: everything after the last `/`. */
  function Basename(p: string): (b: string)
    ensures NoSlash(b)
    ensures b == p[SplitPoint(p)..]
  {
    p[SplitPoint(p)..]
  }

  /** `os.path.dirname`: everything before the last `/`, with trailing slashes removed unless it is all slashes. */
  function Dirname(p: string): (d: string)
    ensures |d| <= |p| && d == p[..|d|]
    ensures AllSlashes(d) || d[|d| - 1] != '/'
  {
    var head := p[..SplitPoint(p)];
    if head != [] && !AllSlashes(head) then StripTrailingSlashes(head) else head
  }

  /** `os.path.join(a, b)` for two components. */
  function Join(a: string, b: string): (r: string)
    ensures StartsWithSlash(b) ==> r == b
    ensures !StartsWithSlash(b) && a != [] && a[|a| - 1] != '/' ==> r == a + "/" + b
    ensures !StartsWithSlash(b) && (a == [] || a[|a| - 1] == '/') ==> r == a + b
  {
    if StartsWithSlash(b) then b
    else if a == [] || a[|a| - 1] == '/' then a + b
    else a + "/" + b
  }

  predicate StartsWithSlash(s: string) { s != [] && s[0] == '/' }

  /** `pathlib.PurePosixPath(p).name`: the last component once trailing slashes are dropped. */
  function Name(p: string): string
  {
    Basename(StripTrailingSlashes(p))
  }

  /** `pathlib.PurePosixPath(p).stem`: the name without its last suffix; a leading dot or a trailing dot is no suffix. */
  function Stem(p: string): (r: string)
    ensures NoSlash(r)
    ensures r == Name(p) || (0 < |r| && |r| + 1 < |Name(p)| && Name(p)[|r|] == '.' && r == Name(p)[..|r|])
    ensures r != Name(p) ==> '.' !in Name(p)[|r| + 1..]
    ensures r == Name(p) <==> forall k :: 0 < k < |Name(p)| - 1 && Name(p)[k] == '.' ==> '.' in Name(p)[k + 1..]
  {
    var n := Name(p);
    match LastDot(n)
    case Some(i) => if 0 < i < |n| - 1 then n[..i] else n
    case None => n
  }

  /** `name.rfind('.')` as an option. */
  function LastDot(n: string): (r: Option<nat>)
    ensures r.Some? ==> r.value < |n| && n[r.value] == '.' && forall k :: r.value < k < |n| ==> n[k] != '.'
    ensures r.None? ==> '.' !in n
  {
    if n == [] then None
    else if n[|n| - 1] == '.' then Some(|n| - 1)
    else match LastDot(n[..|n| - 1])
      case Some(i) => Some(i)
      case None => (assert n == n[..|n| - 1] + [n[|n| - 1]]; None)
  }

  lemma {:induction false} SplitPointOfAppend(d: string, b: string)
    requires NoSlash(b)
    ensures SplitPoint(d + "/" + b) == |d| + 1
    decreases |b|
  {
    var p := d + "/" + b;
    if b == [] {
    } else {
      assert p[..|p| - 1] == d + "/" + b[..|b| - 1];
      SplitPointOfAppend(d, b[..|b| - 1]);
    }
  }

  /** After a prefix that is empty or ends in `/`, a slash-free name starts the base name. */
  lemma {:induction false} SplitPointAfterSlash(d: string, b: string)
    requires NoSlash(b)
    requires d == [] || d[|d| - 1] == '/'
    ensures SplitPoint(d + b) == |d|
    decreases |b|
  {
    if b == [] {
      assert d + b == d;
    } else {
      assert (d + b)[..|d + b| - 1] == d + b[..|b| - 1];
      SplitPointAfterSlash(d, b[..|b| - 1]);
    }
  }

  /** Under the root (or in the current directory) `join` adds no slash, and splitting the
      result gives back the directory and the file name. */
  lemma JoinUnderSlashes(d: string, b: string)
    requires NoSlash(b) && AllSlashes(d)
    ensures Join(d, b) == d + b
    ensures Basename(d + b) == b
    ensures Dirname(d + b) == d
  {
    SplitPointAfterSlash(d, b);
    assert (d + b)[..|d|] == d;
    assert (d + b)[|d|..] == b;
  }

  /** Splitting `d/b` again gives back the directory and the file name. */
  lemma DirnameBasenameOfJoin(d: string, b: string)
    requires NoSlash(b)
    requires d != [] && d[|d| - 1] != '/'
    ensures Join(d, b) == d + "/" + b
    ensures Basename(d + "/" + b) == b
    ensures Dirname(d + "/" + b) == d
  {
    var p := d + "/" + b;
    SplitPointOfAppend(d, b);
    assert p[..|d| + 1] == d + "/";
    assert p[|d| + 1..] == b;
    assert !AllSlashes(d + "/") by { assert (d + "/")[|d| - 1] != '/'; }
    assert (d + "/")[..|d|] == d;
  }

  /** The stem of a file `<x>.so` in a directory is `x`. */
  lemma StemOfSo(d: string, x: string)
    requires d != [] && d[|d| - 1] != '/'
    requires x != [] && NoSlash(x)
    ensures Stem(d + "/" + (x + ".so")) == x
  {
    var n := x + ".so";
    assert NoSlash(n) by {
      assert forall k :: 0 <= k < |n| ==> n[k] == (if k < |x| then x[k] else ".so"[k - |x|]);
      assert '/' !in ".so";
    }
    var p := d + "/" + n;
    DirnameBasenameOfJoin(d, n);
    assert StripTrailingSlashes(p) == p;
    assert n[|x|] == '.' && n[|x| + 1] == 's' && n[|x| + 2] == 'o';
    var i := LastDot(n);
    assert i.Some?;
  }
}
