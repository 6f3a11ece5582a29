/** The text helpers of `utils.py`. */
module Utils {
  import opened Wrappers
  import opened Text
  import opened Paths

  // ---------------------------------------------------------------------------
  // extract_buildID_from_file: `BuildID\[sha1\]\=(?P<buildID>[a-z0-9]+)` searched in `file`'s output

  const BUILD_ID_MARKER := "BuildID[sha1]="

  /** Length of the run of `[a-z0-9]` characters starting at `i`. */
  function IdRun(s: string, i: nat): (n: nat)
    requires i <= |s|
    ensures i + n <= |s|
    ensures forall k :: i <= k < i + n ==> IsLowerAlnum(s[k])
    ensures i + n == |s| || !IsLowerAlnum(s[i + n])
    decreases |s| - i
  {
    if i < |s| && IsLowerAlnum(s[i]) then 1 + IdRun(s, i + 1) else 0
  }

  /** The pattern matches at `i`: the marker immediately followed by an id character. */
  predicate IdMatchAt(s: string, i: nat)
  {
    At(s, i, BUILD_ID_MARKER) && i + |BUILD_ID_MARKER| < |s| && IsLowerAlnum(s[i + |BUILD_ID_MARKER|])
  }

  /** The leftmost position at or after `i` where `re.search` finds the pattern. */
  function FirstIdMatch(s: string, i: nat): (r: Option<nat>)
    requires i <= |s|
    ensures r.Some? ==> i <= r.value < |s| && IdMatchAt(s, r.value)
    ensures r.Some? ==> forall k :: i <= k < r.value ==> !IdMatchAt(s, k)
    ensures r.None? ==> forall k :: i <= k <= |s| ==> !IdMatchAt(s, k)
    decreases |s| - i
  {
    if IdMatchAt(s, i) then Some(i)
    else if i < |s| then FirstIdMatch(s, i + 1)
    else None
  }

  /** The build id `file` reports: the whole `[a-z0-9]` run after the leftmost marker that is
      followed by one; None where `.group` on no match raises `AttributeError`. */
  function BuildId(out: string): (r: Option<string>)
    ensures r.Some? ==> r.value != [] && forall k :: 0 <= k < |r.value| ==> IsLowerAlnum(r.value[k])
    ensures r.None? ==> FirstIdMatch(out, 0).None?
    ensures r.Some? ==> (FirstIdMatch(out, 0).Some? &&
              var p := FirstIdMatch(out, 0).value + |BUILD_ID_MARKER|;
              p + |r.value| <= |out| && out[p..p + |r.value|] == r.value &&
              (p + |r.value| == |out| || !IsLowerAlnum(out[p + |r.value|])))
  {
    match FirstIdMatch(out, 0)
    case None => None
    case Some(j) =>
      var p := j + |BUILD_ID_MARKER|;
      var n := IdRun(out, p);
      Some(out[p..p + n])
  }

  /** There is no id exactly when no marker is immediately followed by an id character. */
  lemma BuildIdAbsent(out: string)
    ensures BuildId(out).None? <==> forall k :: 0 <= k <= |out| ==> !IdMatchAt(out, k)
  {
    if BuildId(out).Some? {
      assert IdMatchAt(out, FirstIdMatch(out, 0).value);
    }
  }

  // ---------------------------------------------------------------------------
  // get_libc_dbg_proper_filename: the `.gnu_debuglink` data up to its first zero byte

  newtype byte = x: int | 0 <= x < 256

  datatype DebugLinkError = NoTerminator | NotAscii

  /** Index of the first zero byte: `data.index(b"\0")`. */
  function ZeroIndex(data: seq<byte>): (r: Option<nat>)
    ensures r.Some? ==> r.value < |data| && data[r.value] == 0 && forall k :: 0 <= k < r.value ==> data[k] != 0
    ensures r.None? ==> forall k :: 0 <= k < |data| ==> data[k] != 0
  {
    if data == [] then None
    else if data[0] == 0 then Some(0)
    else match ZeroIndex(data[1..])
      case None => None
      case Some(i) => Some(i + 1)
  }

  function Decode(bs: seq<byte>): (s: string)
    requires forall k :: 0 <= k < |bs| ==> bs[k] < 128
    ensures |s| == |bs| && forall k :: 0 <= k < |bs| ==> s[k] as int == bs[k] as int
  {
    if bs == [] then [] else [(bs[0] as int) as char] + Decode(bs[1..])
  }

  /** The debug file name: the bytes before the first NUL decoded as ASCII. Data without a zero
      byte raises `ValueError`, a byte above 127 before it `UnicodeDecodeError`. */
  function DebugLinkName(data: seq<byte>): (r: Result<string, DebugLinkError>)
    ensures r.Ok? ==> |r.value| < |data| && data[|r.value|] == 0
    ensures r.Ok? ==> forall k :: 0 <= k < |r.value| ==> r.value[k] != '\0' && r.value[k] as int == data[k] as int
    ensures (forall k :: 0 <= k < |data| ==> data[k] != 0) <==> r == Err(NoTerminator)
    ensures r == Err(NotAscii) <==> ZeroIndex(data).Some? && exists k :: 0 <= k < ZeroIndex(data).value && data[k] >= 128
  {
    match ZeroIndex(data)
    case None => Err(NoTerminator)
    case Some(i) =>
      if forall k :: 0 <= k < i ==> data[k] < 128 then Ok(Decode(data[..i])) else Err(NotAscii)
  }

  // ---------------------------------------------------------------------------
  // query_yes_no, make_bright, abort

  /** The prompt printed before reading the answer. */
  function Prompt(question: string): string { question + " (y/[N]) " }

  /** `input(...).lower() in ("y", "yes")`, the answer being given. */
  predicate QueryYesNo(answer: string)
  {
    Lower(answer) in ["y", "yes"]
  }

  /** Exactly `y` and `yes` in any mix of cases are accepted; in particular the empty answer,
      the default, declines. */
  lemma QueryYesNoSpec(answer: string)
    ensures QueryYesNo(answer) <==>
              (|answer| == 1 && answer[0] in "yY") ||
              (|answer| == 3 && answer[0] in "yY" && answer[1] in "eE" && answer[2] in "sS")
    ensures !QueryYesNo("")
  {
    var l := Lower(answer);
    if |answer| == 1 && answer[0] in "yY" {
      assert l == "y";
    }
    if |answer| == 3 && answer[0] in "yY" && answer[1] in "eE" && answer[2] in "sS" {
      assert l == "yes";
    }
    if l == "y" {
      assert LowerChar(answer[0]) == 'y';
    }
    if l == "yes" {
      assert LowerChar(answer[0]) == 'y' && LowerChar(answer[1]) == 'e' && LowerChar(answer[2]) == 's';
    }
  }

  /** colorama's `Style.BRIGHT`, `Style.RESET_ALL` and `Fore.RED`. */
  const BRIGHT := "\U{1B}[1m"
  const RESET_ALL := "\U{1B}[0m"
  const RED := "\U{1B}[31m"

  /** `make_bright`: the text between the bright and reset sequences. */
  function MakeBright(text: string): (r: string)
    ensures |r| == |BRIGHT| + |text| + |RESET_ALL|
    ensures StartsWith(r, BRIGHT) && r[|r| - |RESET_ALL|..] == RESET_ALL
    ensures r[|BRIGHT|..|r| - |RESET_ALL|] == text
  {
    BRIGHT + text + RESET_ALL
  }

  /** What `abort` prints, in bright red, before raising `SystemExit`. */
  function AbortText(message: string): string
  {
    BRIGHT + RED + message + RESET_ALL
  }

  // ---------------------------------------------------------------------------
  // get_libcs_dirpath and get_libcs_db_filepath, given `os.path.realpath(__file__)`

  function LibcsDirPath(scriptPath: string): string
  {
    Join(Dirname(scriptPath), "libcs")
  }

  function LibcsDbPath(scriptPath: string): string
  {
    Join(Dirname(LibcsDirPath(scriptPath)), "libcs.db")
  }

  /** The libcs directory sits beside the script, and `libcs.db` beside that directory; no
      slash is added after a script directory that is the root. */
  lemma LibcsPaths(scriptPath: string)
    ensures var d := Dirname(scriptPath);
            var sep := if AllSlashes(d) then "" else "/";
            LibcsDirPath(scriptPath) == d + sep + "libcs" && LibcsDbPath(scriptPath) == d + sep + "libcs.db"
    ensures Basename(LibcsDirPath(scriptPath)) == "libcs"
    ensures Dirname(LibcsDbPath(scriptPath)) == Dirname(LibcsDirPath(scriptPath)) == Dirname(scriptPath)
  {
    var d := Dirname(scriptPath);
    if AllSlashes(d) {
      JoinUnderSlashes(d, "libcs");
      JoinUnderSlashes(d, "libcs.db");
    } else {
      DirnameBasenameOfJoin(d, "libcs");
      DirnameBasenameOfJoin(d, "libcs.db");
    }
  }
}
