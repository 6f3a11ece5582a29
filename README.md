# bowkin, modelled in Dafny

bowkin keeps a catalog of C library builds (`libc-<arch>-<version>[-<patch>].so`, with the
dynamic loader `ld-….so` beside each) and helps with exploitation work in three ways:

- it identifies a libc by the build id that `file` prints for it;
- it finds the catalog libcs whose dynamic symbols sit at given page offsets;
- it patches a binary, or builds a Docker image, so that a program runs against a chosen libc.

This project models the core of those scripts as Dafny functions, methods and classes:

| module | models |
|---|---|
| `Wrappers` | `Option` and `Result` |
| `Text` | digit runs, ASCII `lower`, `str.replace(…, '')` with an empty replacement |
| `Paths` | `os.path.basename`, `dirname`, `join` and `pathlib.Path.stem` |
| `Utils` | `utils.py`: the build-id search, the `.gnu_debuglink` name, `query_yes_no`, `make_bright`, and the catalog and database paths |
| `Hex` | the hexadecimal `int(s, 16)` of `symbol_entry`, and a printer that is its inverse |
| `Query` | `symbol_entry`, and the `ChainMap` merge of the arguments of `find` |
| `Catalog` | `bowkin.py`'s catalog: the build-id `defaultdict` (class `Store`), `parse_libcs`, `init_db` and `create_db` (class `Table`), `identify`, and `get_entry` |
| `Matcher` | `find`: the scan over every catalog entry, as a method proved against a reference definition |
| `LibcPath` | the path pattern of `bowkin-db.py`'s `rebuild`, written as the backtracking search Python's `re` performs |
| `CatalogDb` | `bowkin-db.py`: `rebuild` (class `LibcsDb`), `_already_in_db`, `_find_matching_file` and `add` (class `Disk`) |
| `Packages` | `add_libc.py`: its three package-name patterns, how the script ends, and the two names it copies to |
| `PatchElf` | `bowkin-patchelf.py`: the script as a method that records its file actions (class `Workspace`) |
| `Dickerize` | `bowkin-dickerize.py`: the image names, the Dockerfile text, and what `run` and `clean` act on |

## How the outside world enters

- **Shell output.** Whatever a shell command prints is a function parameter:
  - `fileOutput` is what `file` prints for a path;
  - `buildIdOf` stands for `utils.extract_buildID`;
  - `glob` maps a pattern to the paths it matches;
  - `dynsym` gives a path's `.dynsym` table, as a map from name to value, or `None` when the section is missing.
- **Typed input.** The lines typed in are a `seq<string>`. `get_entry` and both questions of `bowkin-patchelf.py` read from that one sequence, in that order.
- **Side effects.** Copies, `patchelf` calls and database rows are recorded in the fields of `Disk`, `Workspace`, `LibcsDb` and `Table`. The Docker scripts are modelled by the arguments they pass to their helpers (`Dickerize.Launch`).
- **How a script ends.** An exception, `exit` or `abort` is an outcome value: `Crashed`, `Quit`, `Aborted(message)` or a `Result` error.

## Where the code does other than it seems to intend (the model follows the code)

- **`find` aborts where its handler suggests it skips.**
  - The `try`/`except` in `find` (bowkin.py:133-140) is evidently there to skip a libc that has no `.dynsym` section or lacks a queried symbol.
  - In the code, `get_symbol_by_name` returns `None`, and subscripting it raises `TypeError`; a missing section raises on `None.get_symbol_by_name`.
  - `except TypeError | IndexError` cannot catch either of them, because in an `except` clause a `|` union is not an exception class.
  - So any missing symbol or section ends the whole scan with an exception. That is `Matcher.Miss` / `FindError`.
  - A query is therefore an ordered sequence: an earlier mismatching symbol `break`s before the missing one is looked up.
  - `find` appends the whole build-id group once for every entry of the group that matches.
- **`rebuild` ignores debug-symbol files.** `add` copies a `.so.debug` file of debug symbols next to each libc (bowkin-db.py:76-89), and one might expect the catalog to index it. `rebuild` (bowkin-db.py:325) requires `.so` at the end, so a debug-symbol file never becomes a row (`CatalogDb.SymbolsNotRebuilt`).
- **`rebuild` skips no accepted file.** One might expect a file whose build id cannot be read to be skipped. `rebuild` inserts a row for every path its pattern accepts, with whatever the build-id helper returns for it (a `None` from `utils.extract_buildID_from_file`, say).
- **A missing patch becomes the text "None".** `add` formats the missing patch group into file names as `None` (`CatalogDb.PyStr`). `rebuild` then reads it back as the patch `"None"` (`CatalogDb.NewLibcNameRead`).
- **A missing patch never matches in `_already_in_db`.** The query is `patch=?` with `None`, which compares with SQL `NULL` and never matches (`CatalogDb.NoPatchNeverInDb`).
- **`add_libc.py` copies the package, not the libc.** The names `libc-<arch>-<version>.so` and `ld-<arch>-<version>.so` suggest a libc and a loader. The script does look for `libc.so.6` and `ld-*.so` in the unpacked package (add_libc.py:33-55), and those `check=True` runs decide whether anything is copied: when one fails (`realpath` gets no operand because `find` found nothing, or `tar` cannot read the archive) the `CalledProcessError` ends the script first. But the paths they print are never used: both `shutil.copy2` calls (add_libc.py:62 and :66) copy `package_filepath`, the `.deb` or `.pkg.tar.xz` archive itself, under those two names. `Packages.AddLibc` models the outcome and the two names; what the files hold is not modelled.
- **`identify` catches nothing.**
  - Its `try` (bowkin.py:32-37) cannot fail: a `defaultdict` lookup never raises, and instead inserts an empty group (`Catalog.Store.Lookup`).
  - A `file` output without `BuildID[sha1]=…,` raises earlier, outside the `try`, in `extract_buildID_from_file` (`Catalog.NoBuildId`).

## Model

| member | source | states |
|---|---|---|
| Text.Lower | utils.py:29 | lower-casing keeps the length and maps each character by the ASCII case rule |
| Text.RemoveAll | bowkin-patchelf.py:45 | removing every occurrence of a non-empty pattern never lengthens the text |
| Text.RemoveAllKeepsChars | bowkin-dickerize.py:25 | removing `libc-` introduces no character that was not there |
| Text.RemoveAllAbsent | bowkin-dickerize.py:25 | a name with no occurrence of the pattern is returned unchanged by `replace` |
| Text.IsDigit | bowkin-db.py:325 | `\d`, read as an ASCII digit |
| Text.IsAny | bowkin-db.py:325 | `.` outside DOTALL mode: any character but a newline |
| Text.IsLowerAlnum | utils.py:38 | the class `[a-z0-9]` |
| Text.DigitRun | bowkin-db.py:325 | the longest digit run at a position: every character in it is a digit and the next one is not (its ensures) |
| Text.LowerChar | utils.py:29 | the ASCII case rule `lower()` applies to one character; `Text.Lower` maps it over a string |
| Paths.SplitPoint | bowkin-patchelf.py:69-70 | the base name starts after the last slash: nothing after that point is a slash |
| Paths.Basename | bowkin-patchelf.py:69-70 | `os.path.basename` is slash-free and is the text after the last slash |
| Paths.Join | bowkin-db.py:112 | `os.path.join` yields an absolute second part unchanged; otherwise it inserts one slash after a first part that is non-empty and does not end in `/`, and inserts none after an empty or `/`-ended first part |
| Paths.Stem | bowkin-dickerize.py:112 | `Path.stem` has no slash and is the name cut before its last dot, no dot following the cut; the name is kept whole exactly when its last dot, if any, is its first or last character |
| Paths.LastDot | bowkin-dickerize.py:112 | finds the last dot of a name, or reports that there is none |
| Paths.SplitPointOfAppend | bowkin-patchelf.py:45 | in `dir/name` whose name has no slash, the base name starts right after `dir/` |
| Paths.DirnameBasenameOfJoin | bowkin-db.py:112 | for a slash-free name, `dirname` and `basename` take `join(dir, name)` apart again |
| Paths.StemOfSo | bowkin-dickerize.py:112 | the stem of `dir/x.so` is `x` |
| Paths.Dirname | bowkin-patchelf.py:34 | `os.path.dirname`: a prefix of the path that ends in no slash unless it is all slashes; `Paths.DirnameBasenameOfJoin` shows it undoes a join |
| Paths.StripTrailingSlashes | bowkin-dickerize.py:112 | drops the trailing slashes `PurePosixPath` ignores |
| Paths.Name | bowkin-dickerize.py:112 | `PurePosixPath(p).name`, the last component once trailing slashes are dropped; `Paths.Stem` states its last-dot rule on it |
| Utils.IdRun | utils.py:38 | `[a-z0-9]+` is greedy: the run is maximal |
| Utils.FirstIdMatch | utils.py:38 | `re.search` finds the leftmost position where `BuildID[sha1]=` is followed by a lower-case alphanumeric character |
| Utils.BuildId | utils.py:32-44 | the build id is a non-empty lower-case alphanumeric run taken at the leftmost marker, and is None exactly when there is no such marker |
| Utils.BuildIdAbsent | utils.py:43-44 | `AttributeError` (None) happens exactly when the pattern occurs nowhere |
| Utils.ZeroIndex | utils.py:51 | `data.index(b"\0")` is the first NUL byte, or fails when there is none |
| Utils.Decode | utils.py:51 | ASCII decoding keeps every byte's value as a character |
| Utils.DebugLinkName | utils.py:47-52 | the debug file name is the bytes before the first NUL; the section data has no NUL exactly when the result is the `NoTerminator` error, and the result is `NotAscii` exactly when a byte above 127 precedes the first NUL |
| Utils.QueryYesNoSpec | utils.py:28-29 | the answers accepted are exactly `y` and `yes` in any case; the empty default answer declines |
| Utils.MakeBright | utils.py:20-21 | the text sits unchanged between the bright and the reset sequences |
| Utils.LibcsPaths | utils.py:76-85 | the catalog directory is `libcs` beside the script, and `libcs.db` lies beside that directory |
| Utils.IdMatchAt | utils.py:38 | the marker `BuildID[sha1]=` at a position, followed by a `[a-z0-9]` character; `Utils.FirstIdMatch` finds the leftmost one |
| Utils.QueryYesNo | utils.py:28-29 | `input(...).lower() in ("y", "yes")` for a given answer; specified by `Utils.QueryYesNoSpec` |
| Utils.Prompt | utils.py:29 | the question followed by ` (y/[N]) ` |
| Utils.AbortText | utils.py:13-16 | the message between the bright-red and the reset sequences |
| Utils.LibcsDirPath | utils.py:76-80 | `libcs` joined to the script's directory; specified by `Utils.LibcsPaths` |
| Utils.LibcsDbPath | utils.py:83-85 | `libcs.db` joined to the parent of the libcs directory; specified by `Utils.LibcsPaths` |
| Hex.DigitChar | bowkin.py:149 | every value below 16 has a hex digit that reads back as it |
| Hex.Parse | bowkin.py:149 | `int(s, 16)` succeeds exactly on a non-empty string of hex digits |
| Hex.Format | bowkin.py:149 | printing a number gives a non-empty string of hex digits |
| Hex.ParseFormat | bowkin.py:149 | parsing a printed number gives the number back |
| Hex.ValueFormat | bowkin.py:149 | the value of the printed digits is the number |
| Hex.IsHexDigit | bowkin.py:149 | the digits `int(s, 16)` accepts: `0-9`, `a-f`, `A-F` |
| Hex.DigitValue | bowkin.py:149 | each hex digit's value, below 16 |
| Hex.Value | bowkin.py:149 | the value of a digit string, most significant digit first; `Hex.ParseFormat` and `Hex.ValueFormat` tie it to `Hex.Format` |
| Query.Offset | bowkin.py:149 | masking with twelve one bits leaves an offset below 4096, the page offset |
| Query.IndexOf | bowkin.py:148 | `split('=')` splits at the first, here the only, `=` |
| Query.CountZero | bowkin.py:148 | an entry without `=` counts zero separators, and conversely |
| Query.SymbolEntry | bowkin.py:147-150 | an entry not splitting into exactly two parts is an error; on success the name has no `=`, and name `=` address is the entry, with the offset below 4096 |
| Query.SymbolEntryValue | bowkin.py:147-150 | an entry with one `=` is accepted exactly when the text after it is hexadecimal (`BadAddress` otherwise), and then yields the text before it and the address modulo 4096 |
| Query.SymbolEntryOfFormatted | bowkin.py:147-150 | `NAME=HEX` yields the name and the address modulo 4096 |
| Query.LastIndex | bowkin.py:181 | the last argument with a given name |
| Query.Merge | bowkin.py:181 | the merged query has one symbol per merged name, in the merged order |
| Query.NamedRest | bowkin.py:181 | a name is given by the arguments exactly when it is given by the first one or by the rest |
| Query.InMergedNames | bowkin.py:181 | a name is in the merge exactly when some argument gives it |
| Query.MergedNamesDistinct | bowkin.py:181 | the merge has no name twice |
| Query.MergedNamesOrder | bowkin.py:181 | `dict(ChainMap(*maps))` orders names by their last occurrence, from the latest argument to the earliest |
| Query.MergeSpec | bowkin.py:181 | every argument's name is in the merge, each merged offset is the one given first, names are distinct and ordered by last occurrence |
| Query.EarliestIsFirst | bowkin.py:181 | the first argument giving a name decides its offset |
| Query.CountChar | bowkin.py:148 | the number of `=` that decides whether `split('=')` unpacks into two parts |
| Query.AddNew | bowkin.py:181 | a ChainMap key is added where it is first seen and not again |
| Query.MergedNames | bowkin.py:181 | the key order of `dict(ChainMap(*maps))`; specified by `Query.InMergedNames`, `Query.MergedNamesDistinct` and `Query.MergedNamesOrder` |
| Query.Named | bowkin.py:181 | some argument gives the name |
| Query.Earliest | bowkin.py:181 | the value a ChainMap lookup finds, that of the earliest map with the key; `Query.EarliestIsFirst` states it |
| Catalog.TouchKeeps | bowkin.py:69 | a `defaultdict` lookup keeps the keys distinct, keeps the old groups and makes the key present |
| Catalog.KeyIndexFinds | bowkin.py:69 | with distinct keys, a group is found at its own position |
| Catalog.InsertDistinct | bowkin.py:76 | `libcs[buildID].append(...)` keeps the keys distinct |
| Catalog.InsertKeys | bowkin.py:76 | after the append, the keys are the old keys and the appended one |
| Catalog.InsertMembers | bowkin.py:76 | the append adds the entry at the end of its own group and changes no other group |
| Catalog.GroupAllDistinct | bowkin.py:69-82 | the catalog built from the files has distinct build ids |
| Catalog.GroupAllKeys | bowkin.py:69-82 | a build id is a key of the catalog exactly when some file has it |
| Catalog.KeyOfSnoc | bowkin.py:70-76 | some file has a build id exactly when the last file or a file before it has it |
| Catalog.GroupAllMembers | bowkin.py:69-82 | a build id's group holds exactly the files with that id, in glob order |
| Catalog.TouchSpec | bowkin.py:35 | looking up a missing key inserts an empty group; looking up a present one changes nothing; the lookup is idempotent |
| Catalog.RowCountIsFileCount | bowkin.py:57-65 | `create_db` inserts one row per parsed file |
| Catalog.RowsCount | bowkin.py:61-65 | the rows are as many as the entries of all the groups |
| Catalog.EntryCountOfGroupAll | bowkin.py:69-82 | the catalog holds as many entries as there are files |
| Catalog.CommaAfter | bowkin.py:46 | `(.*?),` ends at the first comma after the marker, unless a newline comes first |
| Catalog.FirstCommaMatch | bowkin.py:46 | `re.search` takes the leftmost marker whose lazy group can reach a comma |
| Catalog.CommaBuildId | bowkin.py:43-47 | an id is found exactly when the pattern matches; it is the text between the leftmost matching marker and the comma that ends it, with no comma and no newline |
| Catalog.CommaBuildIdAbsent | bowkin.py:46 | there is no build id exactly when the pattern matches nowhere |
| Catalog.Store.Append | bowkin.py:76-82 | appending an entry under a build id keeps the store valid and updates it as `Insert` does |
| Catalog.Store.Lookup | bowkin.py:35 | the lookup returns the id's group and inserts an empty group for an unknown id |
| Catalog.ParseLibcs | bowkin.py:68-84 | parsing succeeds exactly when every file has a build id, and the catalog then groups the files by build id in glob order |
| Catalog.Unidentified | bowkin.py:75 | one file without a build id makes parsing fail |
| Catalog.IdentifiedStep | bowkin.py:70-82 | after one more file, all files have build ids exactly when the earlier ones did and the new one does |
| Catalog.ParseStep | bowkin.py:75-82 | one loop step appends the file under its build id |
| Catalog.PrefixIdentified | bowkin.py:70 | if every file has a build id, so does every prefix of the file list |
| Catalog.Table.Init | bowkin.py:50-54 | `init_db` leaves the table empty |
| Catalog.Table.InsertRow | bowkin.py:63-65 | an insert appends one row |
| Catalog.CreateDb | bowkin.py:57-65 | the table holds one row per entry, group by group, with the group's build id |
| Catalog.Identify | bowkin.py:30-37 | without a build id the result is an error and the store is unchanged; otherwise the result is that id's group, and the id becomes a key |
| Catalog.ParseInt | bowkin.py:107 | `int(s)` succeeds exactly on an optional sign followed by digits |
| Catalog.Decimal | bowkin.py:93 | the printed index is a non-empty string of digits |
| Catalog.DecimalValueOf | bowkin.py:93 | a printed number reads back as itself |
| Catalog.ParseIntText | bowkin.py:107 | typing the printed index of an entry, or `-1`, reads back as that number |
| Catalog.LinesRead | bowkin.py:102-114 | `get_entry` reads no more lines than were typed |
| Catalog.AskSpec | bowkin.py:102-114 | the loop runs out of input exactly when no line is `-1` or a valid index; otherwise the first such line decides; a chosen entry is one of the matches |
| Catalog.AskRunsOut | bowkin.py:102-114 | input runs out exactly when no line typed decides |
| Catalog.AskFirstDecisive | bowkin.py:102-114 | the first deciding line decides the choice |
| Catalog.AskChoosesMatch | bowkin.py:110-111 | a chosen entry is one of the matches |
| Catalog.GetEntry | bowkin.py:98-114 | the method returns the choice of `get_entry`, taking a single match without asking, and the number of lines it reads |
| Catalog.KeyIndex | bowkin.py:35 | the position of a build id among the dict's keys: a group with that id, or the report that no group has it |
| Catalog.Touch | bowkin.py:35 | `libcs[id]` on the `defaultdict`: an unknown id gains an empty group at the end; specified by `Catalog.TouchSpec` and `Catalog.TouchKeeps` |
| Catalog.Insert | bowkin.py:76-82 | `libcs[id].append(entry)`; specified by `Catalog.InsertDistinct`, `Catalog.InsertKeys` and `Catalog.InsertMembers` |
| Catalog.GroupAll | bowkin.py:68-84 | the `defaultdict` `parse_libcs` fills from the files in glob order; specified by `Catalog.GroupAllKeys`, `Catalog.GroupAllMembers` and `Catalog.GroupAllDistinct` |
| Catalog.FilesWith | bowkin.py:70-82 | reference: the entries of the files with a given id, in glob order, which `Catalog.GroupAllMembers` equates with the group |
| Catalog.Rows | bowkin.py:60-65 | the rows `create_db` inserts, group by group; specified by `Catalog.CreateDb` and `Catalog.RowsCount` |
| Catalog.GroupRows | bowkin.py:62-65 | the rows of one group's entries, each carrying the group's id |
| Catalog.EntryCount | bowkin.py:61-62 | the number of entries across all groups, which `Catalog.RowsCount` equates with the row count |
| Catalog.Members | bowkin.py:35 | the list `libcs[id]` evaluates to: the id's group, or empty for an unknown id |
| Catalog.CommaMatchAt | bowkin.py:46 | the marker at a position, with a comma after it before any newline |
| Catalog.BuildIdOf | bowkin.py:75 | the build id of an entry's file, read from what `file` prints |
| Catalog.AllIdentified | bowkin.py:75 | every file has a build id, so `extract_buildID_from_file` never raises |
| Catalog.Keyed | bowkin.py:70-76 | the files paired with their build ids, in glob order |
| Catalog.DecimalValue | bowkin.py:107 | the value of a string of decimal digits |
| Catalog.IntText | bowkin.py:93 | `str(n)`, the index `show_matches` prints; `Catalog.ParseIntText` reads it back |
| Catalog.Decisive | bowkin.py:106-111 | a typed line that ends the loop: `-1` or an index within the matches |
| Catalog.Decide | bowkin.py:108-111 | a deciding line quits on `-1` and otherwise chooses the match at that index |
| Catalog.Ask | bowkin.py:102-114 | the `while True` loop over the typed lines; specified by `Catalog.AskSpec` |
| Catalog.ChooseEntry | bowkin.py:98-114 | `get_entry`: a single match without asking, otherwise the loop; `Catalog.GetEntry` computes it |
| Catalog.FirstDecisive | bowkin.py:102-111 | line `i` decides and no line before it does |
| Matcher.CheckSpec | bowkin.py:133-142 | the `for`/`else` reaches `append` exactly when every queried offset agrees; it raises exactly when it reaches a missing symbol, or a missing section, before any mismatch |
| Matcher.CheckPasses | bowkin.py:133-142 | the loop completes exactly when every symbol is present and agrees |
| Matcher.CheckRaises | bowkin.py:133-142 | the loop raises exactly when a lookup fails before the first mismatch |
| Matcher.CheckEntry | bowkin.py:133-142 | the method for one libc computes the `for`/`else` outcome of the specification |
| Matcher.Find | bowkin.py:121-143 | the method's nested loops compute the reference scan over every group and entry, stopping at the first exception |
| Matcher.ScanGroupErr | bowkin.py:125-142 | an exception at an entry is the result of the whole group |
| Matcher.ScanErr | bowkin.py:125-142 | an exception in a group is the result of the whole scan |
| Matcher.ScanErrLater | bowkin.py:125-142 | once the scan has raised, the later groups do not change the result |
| Matcher.PassCount | bowkin.py:141-142 | a group is appended at most once per entry |
| Matcher.Repeat | bowkin.py:142 | the group is appended once for each matching entry |
| Matcher.ScanGroupSpec | bowkin.py:126-142 | a group scans without error exactly when no entry raises, and yields the group once per matching entry |
| Matcher.ScanSpec | bowkin.py:125-142 | the scan succeeds exactly when no entry raises, and its result is the reference result |
| Matcher.FindIsComplete | bowkin.py:125-142 | the group of every entry matching the query is in the result |
| Matcher.FindIsSound | bowkin.py:125-142 | every group in the result is the group of an entry that matches the query |
| Matcher.AbsentNeverPasses | bowkin.py:135 | a libc lacking a queried symbol never matches, and raises unless an earlier symbol mismatches |
| Matcher.EmptyQueryMatchesAll | bowkin.py:133-142 | with no symbols queried, every entry matches |
| Matcher.ParseArgs | bowkin.py:172 | `nargs='+'` wants one argument or more, each of which converts; the query holds their conversions in order |
| Matcher.ConvertAllSpec | bowkin.py:172 | converting the arguments succeeds exactly when each converts, and keeps their order |
| Matcher.FindCommand | bowkin.py:176-182 | `find` reports the argument error, or scans with the merged query and reports the scan's result or exception |
| Matcher.TwoBuildScenario | bowkin.py:120-143 | of two builds with the same `malloc` offset and different `free` offsets, a query on both symbols finds only the matching one |
| Matcher.LibcPath | bowkin.py:127 | `./` followed by the entry's path |
| Matcher.Check | bowkin.py:133-142 | the inner `for`/`else` over the queried symbols; specified by `Matcher.CheckSpec`, `Matcher.CheckPasses` and `Matcher.CheckRaises` |
| Matcher.Agrees | bowkin.py:135-137 | the symbol is in the table and its `st_value & 0xFFF` is the queried offset |
| Matcher.Consistent | bowkin.py:133-142 | every queried symbol agrees: what passing an entry means |
| Matcher.RaisesAt | bowkin.py:135-140 | the check reaches the `i`-th symbol with all before it agreeing, and cannot resolve it |
| Matcher.ScanGroup | bowkin.py:126-142 | the inner loop over one group's entries; specified by `Matcher.ScanGroupSpec` |
| Matcher.Scan | bowkin.py:125-142 | both loops; `Matcher.Find` computes it and `Matcher.ScanSpec` equates it with `Matcher.Expected` |
| Matcher.Expected | bowkin.py:125-142 | reference definition: in catalog order, each group once per passing member; `Matcher.FindIsComplete` and `Matcher.FindIsSound` relate it to passing entries |
| Matcher.GroupResolvable | bowkin.py:126-140 | no entry of a group makes the check raise |
| Matcher.Resolvable | bowkin.py:125-140 | no entry of the catalog makes the check raise |
| Matcher.ConvertAll | bowkin.py:172 | each argument through `symbol_entry`, in order, the first failure reported; specified by `Matcher.ConvertAllSpec` |
| LibcPath.PatchSearch | bowkin-db.py:325 | the lazy patch group `(.+?)` takes the shortest newline-free text followed by `.so` at the end: no shorter candidate is followed by it, and when none is found no newline-free candidate is |
| LibcPath.AfterVersion | bowkin-db.py:325 | after the version comes an optional `-patch`, then `.so` and possibly a final newline |
| LibcPath.VersionTry | bowkin-db.py:325 | a version split is a digit, any character, and a digit run, with the rest after it matching |
| LibcPath.Version | bowkin-db.py:325 | `\d.\d+` with the rest of the pattern after it |
| LibcPath.ArchShapedIntro | bowkin-db.py:325 | an alternative of the architecture group followed by a matching version forms an architecture match |
| LibcPath.ArchTry | bowkin-db.py:325 | the architecture alternatives are tried in their order |
| LibcPath.TailShapedIntro | bowkin-db.py:325 | `libc-` and an architecture match make a file-name match |
| LibcPath.TailOf | bowkin-db.py:325 | a file-name match starts with `libc-` and is made of an architecture, a version and a patch |
| LibcPath.FoundShift | bowkin-db.py:325 | a match found in a suffix is a match in the whole text |
| LibcPath.GroupSearch | bowkin-db.py:325 | a lazy directory group ends at a slash inside the text |
| LibcPath.GroupSearchSpec | bowkin-db.py:325 | the lazy group `(.+?)/` ends at a slash after which the rest matches, no earlier slash of a newline-free group lets the rest match, and when it fails no such slash exists |
| LibcPath.NoGroupFound | bowkin-db.py:325 | skipping both directory groups yields a match when the rest matches |
| LibcPath.ReleaseFound | bowkin-db.py:325 | the release group, tried before being skipped, yields a match |
| LibcPath.DirsFound | bowkin-db.py:325 | the distro group, tried before being skipped, yields a match |
| LibcPath.PrefixFound | bowkin-db.py:325 | a match the lazy prefix `(?:.*?)libcs/` yields is a file-name match inside the path |
| LibcPath.PrefixSearchSpec | bowkin-db.py:325 | the lazy prefix stops at the leftmost `libcs/` reached without crossing a newline after which the rest matches |
| LibcPath.PrefixSearchNone | bowkin-db.py:325 | when the lazy prefix finds nothing, no `libcs/` reached without crossing a newline is followed by a match |
| LibcPath.PrefixSearchAt | bowkin-db.py:325 | at a `libcs/` followed by a match, the directory groups and the file-name part are read from just after it |
| LibcPath.Recognise | bowkin-db.py:324-327 | a match has one of the seven architectures, a version `\d.\d+` and optional distro, release and patch |
| LibcPath.OnlySoFiles | bowkin-db.py:325 | a path not ending in `.so`, or `.so` and a newline, is never matched |
| LibcPath.OnlyLibcFiles | bowkin-db.py:325 | a path without `libc-` is never matched |
| LibcPath.FileNameEnds | bowkin-db.py:325 | a catalog file name starts with `libc-` and ends with `.so` |
| LibcPath.AfterVersionSuffix | bowkin-db.py:325 | the patch suffix of a file name reads back as its patch |
| LibcPath.VersionOfSuffix | bowkin-db.py:325 | a version of the right shape, followed by a patch suffix, reads back as both |
| LibcPath.ArchUnique | bowkin-db.py:325 | no architecture followed by a dash is a prefix of another one followed by a dash |
| LibcPath.ArchTryFinds | bowkin-db.py:325 | trying the alternatives finds the architecture a name was built with |
| LibcPath.TailOfFileName | bowkin-db.py:325 | `libc-<arch>-<version>[-<patch>].so` reads back as its architecture, version and patch |
| LibcPath.GroupSkip | bowkin-db.py:325 | the lazy group does not stop inside a stretch with no slash |
| LibcPath.GroupNone | bowkin-db.py:325 | with no slash left, the group does not match |
| LibcPath.GroupWhole | bowkin-db.py:325 | for `g/u` with a slash-free `g`, the group captures `g` when the rest matches `u` |
| LibcPath.NoGroupWhole | bowkin-db.py:325 | a slash-free name offers no directory group |
| LibcPath.ReleaseOneLevel | bowkin-db.py:325 | for `r/name`, the release-only step captures `r` |
| LibcPath.ReleaseNoLevel | bowkin-db.py:325 | a bare name matches with no release |
| LibcPath.DirsOfSearch | bowkin-db.py:325 | the distro is the text before the slash where the group stops |
| LibcPath.DirsOfDistro | bowkin-db.py:325 | for `d/u`, the distro is `d` and the release what `u` yields |
| LibcPath.DirsTwoLevels | bowkin-db.py:325 | under two directories, the first is the distro and the second the release |
| LibcPath.DirsOneLevel | bowkin-db.py:325 | under one directory, that directory is the distro, and there is no release |
| LibcPath.DirsNoLevel | bowkin-db.py:325 | a bare file name has no distro and no release |
| LibcPath.PrefixSkip | bowkin-db.py:325 | the lazy prefix moves past text with no `libcs/` in it |
| LibcPath.RecogniseUnder | bowkin-db.py:324-327 | a path with its first `libcs/` before the catalog part is read from that part |
| LibcPath.TwoLevels | bowkin-db.py:324-327 | `…libcs/<distro>/<release>/<file>` is recognised with that distro, release and the file's groups |
| LibcPath.OneLevel | bowkin-db.py:324-327 | `…libcs/<d>/<file>` has the distro `d` and no release |
| LibcPath.NoLevel | bowkin-db.py:324-327 | `…libcs/<file>` has no distro and no release |
| LibcPath.NoNewline | bowkin-db.py:325 | no newline, the condition under which `.` matches every character |
| LibcPath.SoEnd | bowkin-db.py:325 | `\.so$`: `.so` at the end, or before a final newline |
| LibcPath.VersionShape | bowkin-db.py:325 | what `\d.\d+` captures |
| LibcPath.PatchShape | bowkin-db.py:325 | what `(?:-(?P<patch>.+?))?` captures: nothing, or a non-empty newline-free text |
| LibcPath.Suffix | bowkin-db.py:325 | the optional `-patch` and `.so` |
| LibcPath.FileName | bowkin-db.py:325 | the file name the pattern describes for given groups; `LibcPath.TailOfFileName` reads it back |
| LibcPath.ArchPart | bowkin-db.py:325 | the file name after `libc-` |
| LibcPath.ArchShaped | bowkin-db.py:325 | the groups the pattern can capture from the text after `libc-` |
| LibcPath.TailShaped | bowkin-db.py:325 | the groups the pattern can capture from a file name |
| LibcPath.FoundIn | bowkin-db.py:325 | a match of the directory part leaves a file-name part the pattern accepts |
| LibcPath.NoGroup | bowkin-db.py:325 | both directory groups skipped; `LibcPath.NoGroupFound` states what it yields |
| LibcPath.Release | bowkin-db.py:325 | the optional release group, tried before it is skipped; `LibcPath.ReleaseFound` states what it yields |
| LibcPath.Dirs | bowkin-db.py:325 | the optional distro group, tried before it is skipped; `LibcPath.DirsFound` states what it yields |
| LibcPath.LibcsAt | bowkin-db.py:325 | a `libcs/` at a position after which the directory and file-name part match |
| LibcPath.PrefixSearch | bowkin-db.py:325 | the lazy `(?:.*?)libcs/`; specified by `LibcPath.PrefixSearchSpec`, `LibcPath.PrefixSearchNone` and `LibcPath.PrefixSearchAt` |
| LibcPath.Yields | bowkin-db.py:336-339 | a match with the given distro, release and file-name groups |
| CatalogDb.RowFor | bowkin-db.py:323-342 | a globbed path gives a row exactly when the pattern accepts it, and the row holds the relative path, the pattern's groups and the file's build id |
| CatalogDb.RebuildRowsAppend | bowkin-db.py:323 | the rows of two path lists in turn are the rows of each |
| CatalogDb.RebuildRowsSingle | bowkin-db.py:328-342 | one path gives its row if accepted, and nothing otherwise |
| CatalogDb.RebuildRowCount | bowkin-db.py:323-342 | there is one row per accepted path, so no more rows than paths |
| CatalogDb.LibcsDb.Rebuild | bowkin-db.py:313-344 | after a rebuild, the table holds exactly the rows of the accepted paths, in glob order, and none of the old rows |
| CatalogDb.FirstRow | bowkin-db.py:156-167 | `next(...)` gives a row of the table matching all three groups, and fails only when no row matches |
| CatalogDb.AlreadyInDb | bowkin-db.py:151-172 | a package is known exactly when its name matches, the table exists and a row has the same architecture, version and patch |
| CatalogDb.NoPatchNeverInDb | bowkin-db.py:160-166 | a package without a patch is never found, since `patch = NULL` is never true |
| CatalogDb.FirstNonEmpty | bowkin-db.py:121-128 | finds the first pattern whose glob is non-empty, or reports that every glob is empty |
| CatalogDb.FirstMatchSpec | bowkin-db.py:121-128 | the result is the single file of the first non-empty glob, a failed `assert` when that glob has several files, and None when every glob is empty |
| CatalogDb.FindMatchingFile | bowkin-db.py:121-128 | the method's loop computes the first-match specification |
| CatalogDb.Disk.CopyFile | bowkin-db.py:113 | a copy is appended to the record of copies |
| CatalogDb.FindAndCopyFile | bowkin-db.py:107-118 | a found file is copied to the new name and that name returned; otherwise nothing is copied |
| CatalogDb.Add | bowkin-db.py:18-104 | the method's outcome and copies are those of the `add` plan |
| CatalogDb.SearchAndKeep | bowkin-db.py:44-104 | the three searches and the final copy of the package happen in order, as the plan says |
| CatalogDb.CombineSpec | bowkin-db.py:57-102 | an error stops `add` where it occurs; the package is kept exactly when a search found a file and none failed; each found file is copied to its new name, and nothing else is written |
| CatalogDb.JoinGrows | bowkin-db.py:112 | a relative name joined under the directory is never the directory itself |
| CatalogDb.AddSpec | bowkin-db.py:18-104 | an unmatched name or a failed extraction copies nothing; otherwise copies go only to the three new names and the destination, and the package is kept exactly when something was found |
| CatalogDb.NewLibcNameRead | bowkin-db.py:73 | the libc name `add` writes reads back through `rebuild`'s pattern with the same architecture and version, and the patch as text |
| CatalogDb.AddedLibcRebuilt | bowkin-db.py:73 | a libc added under `<distro>/<release>` of the catalog becomes a row with that distro and release and the package's groups |
| CatalogDb.SymbolsNotRebuilt | bowkin-db.py:86-88 | the debug-symbol file `add` writes never becomes a row |
| CatalogDb.RebuildRows | bowkin-db.py:323-342 | the rows `rebuild` inserts for the paths in glob order; specified by `CatalogDb.RebuildRowsAppend`, `CatalogDb.RebuildRowsSingle` and `CatalogDb.RebuildRowCount` |
| CatalogDb.AcceptedCount | bowkin-db.py:328 | the number of paths the pattern accepts, which `CatalogDb.RebuildRowCount` equates with the row count |
| CatalogDb.SqlEq | bowkin-db.py:160 | SQL `column = ?`: `NULL` on either side is never equal; `CatalogDb.NoPatchNeverInDb` uses it |
| CatalogDb.RowMatches | bowkin-db.py:160 | the row agrees on architecture, version and patch |
| CatalogDb.FirstMatch | bowkin-db.py:121-128 | what `_find_matching_file` returns; specified by `CatalogDb.FirstMatchSpec` and computed by `CatalogDb.FindMatchingFile` |
| CatalogDb.PyStr | bowkin-db.py:56 | `f"{x}"` of an optional string: the text, or `None` |
| CatalogDb.NewLdName | bowkin-db.py:56 | `ld-<arch>-<version>-<patch>.so` |
| CatalogDb.NewLibcName | bowkin-db.py:71 | `libc-<arch>-<version>-<patch>.so`; `CatalogDb.NewLibcNameRead` reads it back through `rebuild`'s pattern |
| CatalogDb.NewSymbolsName | bowkin-db.py:85-87 | the libc name with `.debug` appended; `CatalogDb.SymbolsNotRebuilt` shows it is never indexed |
| CatalogDb.LdSearchPaths | bowkin-db.py:45-55 | the six loader patterns under the extracted directory, in order |
| CatalogDb.LibcSearchPaths | bowkin-db.py:61-70 | the six libc patterns under the extracted directory, in order |
| CatalogDb.SymbolsSearchPaths | bowkin-db.py:77-84 | the two debug-symbol patterns under the extracted directory, in order |
| CatalogDb.FindAndCopy | bowkin-db.py:107-118 | the new path and the copy when a file is found; computed by `CatalogDb.FindAndCopyFile` |
| CatalogDb.AddPlan | bowkin-db.py:18-102 | the outcome of `add` and its copies; specified by `CatalogDb.AddSpec` and computed by `CatalogDb.Add` |
| CatalogDb.Combine | bowkin-db.py:56-102 | the three searches then the package copy; specified by `CatalogDb.CombineSpec` |
| Packages.Lit | add_libc.py:84-105 | a literal matches exactly when the text continues with it |
| Packages.OneDigit | add_libc.py:85 | `\d` matches one ASCII digit |
| Packages.AnyChar | add_libc.py:85 | `.` matches one character other than a newline |
| Packages.Digits | add_libc.py:85 | `\d+` takes the whole digit run, which is non-empty |
| Packages.Choice | add_libc.py:85 | an alternation takes the first alternative that matches, or fails when none does |
| Packages.AddLibc | add_libc.py:15-66 | nothing happens exactly when no pattern matches the base name; a matching package whose extraction steps fail raises before any copy; otherwise it is copied to `libc-<arch>-<version>.so` and `ld-<arch>-<version>.so` under the catalog directory |
| Packages.UbuntuMatchSpec | add_libc.py:84-87 | the Ubuntu pattern matches exactly the names starting `libc6_<version>_<arch>`, any character and `deb`, for a version `\d.\d+-\dubuntu\d+` and `i386` or `amd64`, and captures that version and architecture |
| Packages.UbuntuSound | add_libc.py:84-87 | what the Ubuntu pattern captures has the Ubuntu shape |
| Packages.UbuntuComplete | add_libc.py:84-87 | every name of the Ubuntu shape is matched with its version and architecture |
| Packages.DebianMatchSpec | add_libc.py:93-96 | the Debian pattern matches exactly the names starting `libc6_<version>_<arch>`, any character and `deb`, for a version `\d.\d+-\d+\+deb\du\d` and `i386` or `amd64` |
| Packages.DebianSound | add_libc.py:93-96 | what the Debian pattern captures has the Debian shape |
| Packages.DebianComplete | add_libc.py:93-96 | every name of the Debian shape is matched with its version and architecture |
| Packages.ArchLinuxMatchSpec | add_libc.py:102-105 | the Arch Linux pattern matches exactly the names starting `glibc-<version>-<arch>` and `.pkg.tar.xz`, each dot being any character, for a version `\d.\d+-\d` and `i686` or `x86_64` |
| Packages.ArchLinuxSound | add_libc.py:102-105 | what the Arch Linux pattern captures has the Arch Linux shape |
| Packages.ArchLinuxComplete | add_libc.py:102-105 | every name of the Arch Linux shape is matched with its version and architecture |
| Packages.ArchLinuxEndSpec | add_libc.py:103 | `.pkg.tar.xz` matches with each dot as any character |
| Packages.UbuntuOrDebian | add_libc.py:85 | no name has both the Ubuntu and the Debian version head |
| Packages.DebOrArchLinux | add_libc.py:85 | no name starts as both a `.deb` name and an Arch Linux name |
| Packages.PatternsExclusive | add_libc.py:83-108 | no name matches two of the three patterns |
| Packages.ClassifySpec | add_libc.py:83-108 | the script picks a distribution exactly when that distribution's pattern matches |
| Packages.ClassifyNone | add_libc.py:83-108 | the script does nothing exactly when no pattern matches |
| Packages.UbuntuExtends | add_libc.py:84-87 | `re.match` anchors at the start only: text appended after a match changes nothing |
| Packages.DebianExtends | add_libc.py:93-96 | the same for the Debian pattern |
| Packages.ArchLinuxExtends | add_libc.py:102-105 | the same for the Arch Linux pattern |
| Packages.ClassifyExtends | add_libc.py:83-108 | text appended after a matching name does not change the classification |
| Packages.LibcFileNameRead | add_libc.py:60 | a catalog file name whose version splits at a dash reads back through `rebuild`'s pattern |
| Packages.ClassifiedSplits | add_libc.py:83-108 | a matched version splits at its dash into a `\d.\d+` version and a patch, and the architecture is one `rebuild` accepts |
| Packages.ClassifiedLibcRead | add_libc.py:60 | the libc name the script writes reads back with the package's architecture and its version split at the dash |
| Packages.ClassifiedNoSlash | add_libc.py:81-85 | a version matched in a base name has no slash |
| Packages.LibcAndLdNames | add_libc.py:60-64 | the libc and loader names share `<arch>-<version>.so`, with no `libc-` inside it |
| Packages.RestNoLibc | add_libc.py:60 | `<arch>-<version>.so` holds no `libc-`, so `replace('libc-', '')` only strips the prefix |
| Packages.LibcFileNameNoSlash | add_libc.py:60 | the libc file name has no slash |
| Packages.AddedLibcCatalogued | add_libc.py:60-62 | the file `add_libc.py` writes under the name `libc-…` (a copy of the package archive) becomes a `rebuild` row with no distro and no release, the package's architecture and its version split into version and patch |
| Packages.DebNameOf | add_libc.py:83 | a name built as `libc6_<version>_<arch><c>…` has the `.deb` frame |
| Packages.ArchLinuxNameOf | add_libc.py:101 | a name built as `glibc-<version>-<arch>…` has the Arch Linux frame |
| Packages.UbuntuNamed | add_libc.py:83-90 | every Ubuntu-shaped package name is classified as Ubuntu with its version |
| Packages.DebianNamed | add_libc.py:92-99 | every Debian-shaped package name is classified as Debian with its version |
| Packages.ArchLinuxNamed | add_libc.py:101-108 | every Arch-shaped package name is classified as Arch Linux with its version |
| Packages.UbuntuExample | add_libc.py:83-87 | `libc6_2.23-0ubuntu10_amd64.deb` is Ubuntu, version `2.23-0ubuntu10`, architecture `amd64` |
| Packages.DebianExample | add_libc.py:92-96 | `libc6_2.24-11+deb9u3_amd64.deb` is Debian, version `2.24-11+deb9u3`, architecture `amd64` |
| Packages.ArchLinuxExample | add_libc.py:101-105 | `glibc-2.27-2-x86_64.pkg.tar.xz` is Arch Linux, version `2.27-2`, architecture `x86_64` |
| Packages.DebHead | add_libc.py:85 | the position after `libc6_\d.\d+-`, shared by both `.deb` patterns |
| Packages.DebTail | add_libc.py:85 | `_`, the architecture `i386` or `amd64`, any character and `deb` after the version group, with the groups captured |
| Packages.UbuntuHead | add_libc.py:85 | the end of the Ubuntu version group |
| Packages.UbuntuMatch | add_libc.py:84-87 | the Ubuntu pattern under `re.match`; specified by `Packages.UbuntuMatchSpec` |
| Packages.DebianHead | add_libc.py:94 | the end of the Debian version group |
| Packages.DebianMatch | add_libc.py:93-96 | the Debian pattern under `re.match`; specified by `Packages.DebianMatchSpec` |
| Packages.ArchLinuxEnd | add_libc.py:103 | `.pkg.tar.xz` with each unescaped dot any character |
| Packages.ArchLinuxHead | add_libc.py:103 | the end of the Arch Linux version group |
| Packages.ArchLinuxTail | add_libc.py:103 | `-`, the architecture `i686` or `x86_64` and `.pkg.tar.xz` after the version group |
| Packages.ArchLinuxMatch | add_libc.py:102-105 | the Arch Linux pattern under `re.match`; specified by `Packages.ArchLinuxMatchSpec` |
| Packages.Classify | add_libc.py:84-108 | the chain of `if match: ... raise SystemExit`; specified by `Packages.ClassifySpec` and `Packages.ClassifyNone` |
| Packages.LibcFileName | add_libc.py:60 | `libc-<arch>-<version>.so`; `Packages.ClassifiedLibcRead` reads it back through `rebuild`'s pattern |
| Packages.LdFileName | add_libc.py:64 | `ld-<arch>-<version>.so`; `Packages.LibcAndLdNames` relates it to the libc name |
| Packages.UbuntuVersion | add_libc.py:85 | what `\d.\d+-\dubuntu\d+` accepts, stated without positions |
| Packages.DebianVersion | add_libc.py:94 | what `\d.\d+-\d+\+deb\du\d` accepts |
| Packages.ArchLinuxVersion | add_libc.py:103 | what `\d.\d+-\d` accepts |
| Packages.DebName | add_libc.py:85 | a name that starts `libc6_<version>_<arch>`, then any character and `deb` |
| Packages.ArchLinuxName | add_libc.py:103 | a name that starts `glibc-<version>-<arch>`, then `.pkg.tar.xz` with any character for each dot |
| Packages.MatchOf | add_libc.py:84-105 | the pattern of a given distribution |
| Packages.DebPackageName | add_libc.py:83 | the `.deb` names the comments show, written out |
| Packages.ArchLinuxPackageName | add_libc.py:101 | the Arch Linux names the comment shows, written out |
| PatchElf.AbortMessage | bowkin-patchelf.py:17-23 | the message is the one given, or `Aborted.` when none was given; it is never empty |
| PatchElf.PatchedName | bowkin-patchelf.py:60 | the patched copy's name is the binary's name extended, so it is never the binary itself |
| PatchElf.Workspace.Perform | bowkin-patchelf.py:55-78 | an action is appended to the record |
| PatchElf.Run | bowkin-patchelf.py:37-80 | the script's outcome and its file actions are those of the plan for the catalog's answer and the typed lines; the catalog is unchanged when `file` shows no build id, and otherwise gains an empty group for a new id |
| PatchElf.Patch | bowkin-patchelf.py:43-80 | once the entry is chosen, the copies, the binary's copy and the two `patchelf` calls are performed as the plan says |
| PatchElf.UnidentifiedAborts | bowkin-patchelf.py:38-40 | the "not in the database" abort happens exactly when the build id has no entries, and then nothing is touched |
| PatchElf.RefusalCopiesNothing | bowkin-patchelf.py:49-56 | something is copied only once an entry was chosen and the first question answered yes |
| PatchElf.DoneSpec | bowkin-patchelf.py:49-80 | `Done.` is printed exactly when both questions are answered yes, after the five steps in order; otherwise at most the two copies into the binary's directory were made |
| PatchElf.PatchPlanPatchesCopy | bowkin-patchelf.py:59-78 | every patch runs on the binary's copy, never on the binary |
| PatchElf.DonePatchesCopy | bowkin-patchelf.py:67-78 | the copy of the binary comes before both `patchelf` calls on that copy |
| PatchElf.CopiesPatchNothing | bowkin-patchelf.py:55-56 | copies alone patch nothing |
| PatchElf.PatchesOnlyTheCopy | bowkin-patchelf.py:59-78 | whatever the input, `patchelf` only ever rewrites the copy |
| PatchElf.LdPathOfLibc | bowkin-patchelf.py:45 | for `dir/libc-<rest>` the loader is `dir/ld-<rest>` |
| PatchElf.AddedLdFound | bowkin-patchelf.py:45 | the loader path the script derives from the file `add_libc.py` writes under the name `libc-…` is the file it writes under the name `ld-…` |
| PatchElf.LdPathFor | bowkin-patchelf.py:45 | the directory, `/ld-`, and the base name with every `libc-` removed; `PatchElf.LdPathOfLibc` and `PatchElf.AddedLdFound` state what it finds |
| PatchElf.Answers | bowkin-patchelf.py:49-66 | the typed lines left for the two questions after `get_entry` |
| PatchElf.PatchPlan | bowkin-patchelf.py:43-80 | the steps after the entry is chosen; specified by `PatchElf.PatchPlanDone` and computed by `PatchElf.Patch` |
| PatchElf.PatchPlanDone | bowkin-patchelf.py:49-80 | once an entry is chosen, `Done.` exactly after two yes answers, with the five steps in order; otherwise at most the two copies into the binary's directory |
| PatchElf.Plan | bowkin-patchelf.py:38-80 | the whole script given what `identify` returned; specified by `PatchElf.DoneSpec`, `PatchElf.UnidentifiedAborts` and `PatchElf.RefusalCopiesNothing` |
| PatchElf.Identified | bowkin-patchelf.py:38 | what `bowkin.identify` returns: the error for a missing build id, or the id's group |
| PatchElf.Confirmed | bowkin-patchelf.py:49-66 | the line answering a question is there and says yes |
| PatchElf.PatchesCopy | bowkin-patchelf.py:67-78 | every patch action names a file other than the binary, copied from it earlier |
| Dickerize.FirstNewline | bowkin-dickerize.py:30-40 | the first newline of a text |
| Dickerize.SplitLines | bowkin-dickerize.py:30-40 | splitting a text at its newlines gives at least one line |
| Dickerize.SplitLinesCons | bowkin-dickerize.py:30-40 | a newline-free line and a newline start the split |
| Dickerize.SplitJoinLines | bowkin-dickerize.py:30-40 | joining lines with newlines and splitting the result gives back the leading newline-free lines |
| Dickerize.DockerfileSpec | bowkin-dickerize.py:30-40 | the Dockerfile starts `FROM <base>:latest`, then adds `libc-<name>` as `libc.so.6` and `ld-<name>` as `ld-linux-x86-64.so.2`, and goes on with the fixed lines |
| Dickerize.DockerfileStartsFromBase | bowkin-dickerize.py:31 | the Dockerfile's first line builds on the base image |
| Dickerize.NoNewlineConcat | bowkin-dickerize.py:31-33 | for names without a newline, each of the first three Dockerfile lines is free of newlines |
| Dickerize.LdAdded | bowkin-dickerize.py:25-26 | the loader copied beside the Dockerfile is the file its second `ADD` names |
| Dickerize.LibcAdded | bowkin-dickerize.py:24-25 | for a `libc-…` file, the libc copied is the file the first `ADD` names |
| Dickerize.NoMatchSpec | bowkin-dickerize.py:105-108 | `No match found` is printed exactly when the build id has no entries |
| Dickerize.CleanUndoesRun | bowkin-dickerize.py:111-125 | for the same base and libc, `clean` acts exactly when `run` would, on the same container name and image, which is named after the base image |
| Dickerize.SpecificExtendsBase | bowkin-dickerize.py:114-116 | the specific image's name is the base image's, a dash and more |
| Dickerize.CatalogLibcNames | bowkin-dickerize.py:111-112 | for `dir/libc-<rest>.so`, the stem is `libc-<rest>`, the added name is `<rest>.so` and the loader is `dir/ld-<rest>.so` |
| Dickerize.CatalogLibcStem | bowkin-dickerize.py:112 | the stem of a catalog libc is `libc-<rest>` |
| Dickerize.CatalogLibcBasename | bowkin-dickerize.py:25 | removing `libc-` from its base name leaves `<rest>.so` |
| Dickerize.CatalogLdPath | bowkin-dickerize.py:26 | the loader path is `dir/ld-<rest>.so` |
| Dickerize.MainRun | bowkin-dickerize.py:105-123 | `run` builds from the chosen entry's names and starts a container named like its image |
| Dickerize.RunSpec | bowkin-dickerize.py:111-123 | for a catalog libc `dir/libc-<rest>.so`, the image is `<base>-<distro>-libc-<rest>`, and the two files copied are the libc and `dir/ld-<rest>.so`, named as the Dockerfile adds them |
| Dickerize.BaseImageName | bowkin-dickerize.py:114 | `bowkin-` and the stem of the base Dockerfile |
| Dickerize.SpecificImageName | bowkin-dickerize.py:115-117 | the base image name, the distro and the libc's stem joined by dashes; `Dickerize.SpecificExtendsBase` and `Dickerize.CleanUndoesRun` state its use |
| Dickerize.LibcBasename | bowkin-dickerize.py:25 | the base name with every `libc-` removed; `Dickerize.CatalogLibcBasename` states it for catalog names |
| Dickerize.DockerfileHead | bowkin-dickerize.py:31-33 | the `FROM` line and the two `ADD` lines |
| Dickerize.DockerfileLines | bowkin-dickerize.py:30-40 | the head lines followed by the three constant lines |
| Dickerize.JoinLines | bowkin-dickerize.py:30-40 | lines joined by newlines, the last one without |
| Dickerize.Dockerfile | bowkin-dickerize.py:30-40 | the Dockerfile text; specified by `Dickerize.DockerfileSpec` and `Dickerize.DockerfileStartsFromBase` |
| Dickerize.Main | bowkin-dickerize.py:97-125 | what the script does given what `identify` returned; specified by `Dickerize.NoMatchSpec`, `Dickerize.CleanUndoesRun` and `Dickerize.MainRun` |

## Left out

- **I/O and external tools.** Terminal output, colours and JSON or `pprint` printing are left out. So are sqlite connections, the `file` and `patchelf` commands, `docker`, network downloads and the fetch shell scripts. Each enters as a parameter or as a recorded action.
- **Failure of a copy or a tool.** The model records copies and `patchelf` calls but not whether they succeed. A `shutil.copy2` of a missing loader, or a failing `patchelf`, is not modelled.
- **ELF parsing.** The dynamic symbol table and the `.gnu_debuglink` section data are parameters.
- **Helpers missing from `utils.py`.** `utils.match` and `utils.extract_buildID`, which `bowkin-db.py` calls, and `make_warning` are not part of this model. Their results are the parameters `groups` and `buildIdOf`.
- **Catalog source in `bowkin-patchelf.py`.** `bowkin.read_db` (bowkin-patchelf.py:26) is absent from bowkin.py and is not part of this model; as written, that call raises `AttributeError` before the flow the model covers. `PatchElf.Run` takes the catalog store that `bowkin.identify` reads, the `libcs` global that `parse_libcs` fills (bowkin.py:155).
- **Catalog directory of `add_libc.py`.** `bowkin.libcs_dirpath` (add_libc.py:61,65) is absent from bowkin.py and is not part of this model. `Packages.AddLibc` takes it as the parameter `libcsDir`.
- **Package download and extraction.** `bootstrap` and the launchpad, Debian and Arch Linux scrapers of `bowkin-db.py` are left out, and so are `extract` in `bowkin-db.py` and the `tar`/`find`/`realpath` runs of `extract_ld_and_libc` in `add_libc.py`. Whether they succeed enters as `extracted` (`CatalogDb.AddPlan`, `Packages.AddLibc`), and the files found as `glob`.
- **The glob pattern of `parse_libcs`.** `Catalog.ParseLibcs` takes the globbed files already parsed into entries. It does not model the `glob` pattern or `parse_libcs`'s own path regex (bowkin.py:70-73).
- **Module-level state.** Running `parse_libcs` and `create_db` at import time (bowkin.py:155-156) is modelled as explicit calls, not as global state. The `os.chdir(sys.path[0])` that `bowkin-dickerize.py` runs at import (bowkin-dickerize.py:95) is not modelled: the model's paths are taken as given.
- **Atomic rebuild.** `CatalogDb.LibcsDb.Rebuild` does not model the intermediate states a reader could observe during a rebuild.
- **Path normalisation.** `Paths.Name` does not drop `.` components as `PurePosixPath(p).name` does (`d/.` has name `d` there, `.` here); the script's paths are opened files and `glob` results, which have no such component. `os.path.relpath` is taken as removing the catalog directory prefix. `os.path.realpath` of the script is a parameter. `copy2` into a directory is recorded with the directory as target.
- Catalog.CommaBuildId: works on the decoded text and does not model the `decode('ascii')` error raised on non-ASCII `file` output. `Utils.DebugLinkName` does model that error.
- Text.Lower: lower-cases ASCII letters only, not Unicode's `str.lower`.
- Packages.OneDigit: `\d` is the ASCII digits, not every Unicode decimal digit as in Python's `str` patterns. The same holds for `LibcPath` and `Text.DigitRun`.
- Catalog.ParseInt: does not accept the surrounding whitespace, underscores and non-ASCII digits that Python's `int()` also accepts.
- Hex.Parse: does not accept the `0x` prefix, a sign, underscores and surrounding whitespace that `int(s, 16)` also accepts, so a negative address is not modelled.
- Dickerize.DockerfileSpec: states the three lines that depend on the libc literally, and the three constant tail lines only as the split of `DOCKERFILE_TAIL`. This is because the verifier does not unfold the newline test over the long constant lines. The Dockerfile's `encode('ascii')` error is not modelled.
- Dickerize.RunSpec: like `PatchElf.LdPathOfLibc` and `Dickerize.CatalogLibcNames`, it requires that `<rest>.so` contain no second `libc-`. With a second one, `replace` would also remove it.
- **Image names.** `Dickerize.SpecificImageName` uses the distro and the file stem, and never the release, as the code does. Two releases of one distro with the same file name share an image.
- **The catalog database.** `Catalog.CreateDb` models the inserted rows, not SQL or the on-disk database.
- Matcher.Find: covers the libc files in catalog order. The order of a Python `dict` of lists is modelled as the sequence of groups.
