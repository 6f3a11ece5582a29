/** The build-id catalog of `bowkin.py`: the `defaultdict(list)` built by `parse_libcs`,
    the sqlite table written by `create_db`, and `identify`. */
module Catalog {
  import opened Wrappers
  import opened Text

  /** One libc file as `parse_libcs` records it. */
  datatype Entry = Entry(distro: string, architecture: string, release: Option<string>, filepath: string, version: string)

  /** One key of the catalog with the entries appended under it, in glob order. */
  datatype Group = Group(buildID: string, entries: seq<Entry>)

  /** A row of the `libcs` table: (architecture, distro, release, version, buildID, filepath). */
  datatype Row = Row(architecture: string, distro: string, release: Option<string>, version: string, buildID: string, filepath: string)

  /** No build id is a key twice; a Python dict guarantees it. */
  ghost predicate DistinctKeys(groups: seq<Group>)
  {
    forall i, j :: 0 <= i < j < |groups| ==> groups[i].buildID != groups[j].buildID
  }

  /** Position of the group keyed `id`, if any. */
  function KeyIndex(groups: seq<Group>, id: string): (r: Option<nat>)
    ensures r.Some? ==> r.value < |groups| && groups[r.value].buildID == id
    ensures r.None? ==> forall i :: 0 <= i < |groups| ==> groups[i].buildID != id
  {
    if groups == [] then None
    else if groups[|groups| - 1].buildID == id then Some(|groups| - 1)
    else KeyIndex(groups[..|groups| - 1], id)
  }

  /** `libcs[id]` on the defaultdict: the group, or a new empty group appended at the end. */
  function Touch(groups: seq<Group>, id: string): seq<Group>
  {
    if KeyIndex(groups, id).Some? then groups else groups + [Group(id, [])]
  }

  /** `libcs[id].append(e)`. */
  function Insert(groups: seq<Group>, id: string, e: Entry): seq<Group>
  {
    var t := Touch(groups, id);
    var i := KeyIndex(t, id).value;
    t[i := Group(id, t[i].entries + [e])]
  }

  /** What `parse_libcs` builds from the files in glob order, each paired with its build id. */
  function GroupAll(files: seq<(string, Entry)>): seq<Group>
  {
    if files == [] then []
    else Insert(GroupAll(files[..|files| - 1]), files[|files| - 1].0, files[|files| - 1].1)
  }

  /** The entries of the files carrying build id `id`, in glob order. */
  function FilesWith(files: seq<(string, Entry)>, id: string): seq<Entry>
  {
    if files == [] then []
    else FilesWith(files[..|files| - 1], id) + (if files[|files| - 1].0 == id then [files[|files| - 1].1] else [])
  }

  /** The rows `create_db` inserts: one per entry, groups in key order, entries in list order. */
  function Rows(groups: seq<Group>): seq<Row>
  {
    if groups == [] then []
    else Rows(groups[..|groups| - 1]) + GroupRows(groups[|groups| - 1], |groups[|groups| - 1].entries|)
  }

  /** The rows of the first `k` entries of one group. */
  function GroupRows(g: Group, k: nat): seq<Row>
    requires k <= |g.entries|
  {
    if k == 0 then []
    else
      var e := g.entries[k - 1];
      GroupRows(g, k - 1) + [Row(e.architecture, e.distro, e.release, e.version, g.buildID, e.filepath)]
  }

  function EntryCount(groups: seq<Group>): nat
  {
    if groups == [] then 0 else EntryCount(groups[..|groups| - 1]) + |groups[|groups| - 1].entries|
  }

  // ---------------------------------------------------------------------------
  // Properties of the grouping

  lemma {:induction false} TouchKeeps(groups: seq<Group>, id: string)
    requires DistinctKeys(groups)
    ensures DistinctKeys(Touch(groups, id))
    ensures KeyIndex(Touch(groups, id), id).Some?
    ensures forall i :: 0 <= i < |groups| ==> Touch(groups, id)[i] == groups[i]
  {
    var t := Touch(groups, id);
    if KeyIndex(groups, id).None? {
      assert t[|groups|].buildID == id;
      KeyIndexFinds(t, |groups|);
    }
  }

  /** With distinct keys, the lookup finds the one group holding the key. */
  lemma {:induction false} KeyIndexFinds(groups: seq<Group>, i: nat)
    requires DistinctKeys(groups)
    requires i < |groups|
    ensures KeyIndex(groups, groups[i].buildID) == Some(i)
    decreases |groups|
  {
    if i < |groups| - 1 {
      KeyIndexFinds(groups[..|groups| - 1], i);
    }
  }

  /** Appending keeps the keys distinct. */
  lemma InsertDistinct(groups: seq<Group>, id: string, e: Entry)
    requires DistinctKeys(groups)
    ensures DistinctKeys(Insert(groups, id, e))
    ensures |Insert(groups, id, e)| == |Touch(groups, id)|
    ensures forall i :: 0 <= i < |Insert(groups, id, e)| ==> Insert(groups, id, e)[i].buildID == Touch(groups, id)[i].buildID
  {
    TouchKeeps(groups, id);
  }

  /** After appending, the keys are the old keys and `id`. */
  lemma InsertKeys(groups: seq<Group>, id: string, e: Entry, k: string)
    requires DistinctKeys(groups)
    ensures KeyIndex(Insert(groups, id, e), k).Some? <==> k == id || KeyIndex(groups, k).Some?
  {
    InsertDistinct(groups, id, e);
    var r := Insert(groups, id, e);
    var t := Touch(groups, id);
    KeyIndexFinds(r, KeyIndex(t, id).value);
    if KeyIndex(groups, k).Some? {
      var j := KeyIndex(groups, k).value;
      assert r[j].buildID == k;
    }
  }

  /** Appending extends exactly the group keyed `id` and leaves every other key's list alone. */
  lemma InsertMembers(groups: seq<Group>, id: string, e: Entry, k: string)
    requires DistinctKeys(groups)
    ensures Members(Insert(groups, id, e), k) == Members(groups, k) + (if k == id then [e] else [])
  {
    InsertDistinct(groups, id, e);
    TouchKeeps(groups, id);
    var r := Insert(groups, id, e);
    var t := Touch(groups, id);
    var i := KeyIndex(t, id).value;
    KeyIndexFinds(r, i);
    if k == id {
      if KeyIndex(groups, id).Some? {
        KeyIndexFinds(groups, KeyIndex(groups, id).value);
      }
    } else if KeyIndex(groups, k).Some? {
      var j := KeyIndex(groups, k).value;
      assert r[j] == groups[j];
      KeyIndexFinds(r, j);
    } else {
      InsertKeys(groups, id, e, k);
    }
  }

  lemma {:induction false} GroupAllDistinct(files: seq<(string, Entry)>)
    ensures DistinctKeys(GroupAll(files))
  {
    if files != [] {
      GroupAllDistinct(files[..|files| - 1]);
      InsertDistinct(GroupAll(files[..|files| - 1]), files[|files| - 1].0, files[|files| - 1].1);
    }
  }

  /** `parse_libcs` makes a group exactly for the build ids of the files. */
  lemma {:induction false} GroupAllKeys(files: seq<(string, Entry)>, k: string)
    ensures KeyIndex(GroupAll(files), k).Some? <==> exists i :: 0 <= i < |files| && files[i].0 == k
  {
    if files != [] {
      var init := files[..|files| - 1];
      GroupAllDistinct(init);
      GroupAllKeys(init, k);
      InsertKeys(GroupAll(init), files[|files| - 1].0, files[|files| - 1].1, k);
      KeyOfSnoc(files, init, k);
    }
  }

  /** A key occurs in a list exactly when it occurs before the last element or is the last one's. */
  lemma KeyOfSnoc(files: seq<(string, Entry)>, init: seq<(string, Entry)>, k: string)
    requires files != [] && init == files[..|files| - 1]
    ensures (exists i :: 0 <= i < |files| && files[i].0 == k) <==>
              (exists i :: 0 <= i < |init| && init[i].0 == k) || files[|files| - 1].0 == k
  {
    if exists i :: 0 <= i < |files| && files[i].0 == k {
      var i :| 0 <= i < |files| && files[i].0 == k;
      if i < |init| { assert init[i].0 == k; }
    }
    if exists i :: 0 <= i < |init| && init[i].0 == k {
      var i :| 0 <= i < |init| && init[i].0 == k;
      assert files[i].0 == k;
    }
  }

  /** `parse_libcs` puts every file into exactly the group keyed by its build id, in glob order. */
  lemma {:induction false} GroupAllMembers(files: seq<(string, Entry)>, k: string)
    ensures Members(GroupAll(files), k) == FilesWith(files, k)
  {
    if files != [] {
      var init := files[..|files| - 1];
      GroupAllDistinct(init);
      GroupAllMembers(init, k);
      InsertMembers(GroupAll(init), files[|files| - 1].0, files[|files| - 1].1, k);
    }
  }

  /** `create_db` writes one row per catalogued file: the row count equals the number of files. */
  lemma {:induction false} RowCountIsFileCount(files: seq<(string, Entry)>)
    ensures |Rows(GroupAll(files))| == |files|
  {
    EntryCountOfGroupAll(files);
    RowsCount(GroupAll(files));
  }

  lemma {:induction false} RowsCount(groups: seq<Group>)
    ensures |Rows(groups)| == EntryCount(groups)
  {
    if groups != [] {
      RowsCount(groups[..|groups| - 1]);
      GroupRowsCount(groups[|groups| - 1], |groups[|groups| - 1].entries|);
    }
  }

  lemma {:induction false} GroupRowsCount(g: Group, k: nat)
    requires k <= |g.entries|
    ensures |GroupRows(g, k)| == k
  {
    if k > 0 { GroupRowsCount(g, k - 1); }
  }

  lemma {:induction false} EntryCountUpdate(groups: seq<Group>, i: nat, g: Group)
    requires i < |groups|
    ensures EntryCount(groups[i := g]) == EntryCount(groups) - |groups[i].entries| + |g.entries|
    decreases |groups|
  {
    var n := |groups|;
    if i < n - 1 {
      assert groups[i := g][..n - 1] == groups[..n - 1][i := g];
      EntryCountUpdate(groups[..n - 1], i, g);
    } else {
      assert groups[i := g][..n - 1] == groups[..n - 1];
    }
  }

  lemma {:induction false} EntryCountOfGroupAll(files: seq<(string, Entry)>)
    ensures EntryCount(GroupAll(files)) == |files|
  {
    if files != [] {
      var init := files[..|files| - 1];
      var (id, e) := files[|files| - 1];
      EntryCountOfGroupAll(init);
      var g := GroupAll(init);
      var t := Touch(g, id);
      if KeyIndex(g, id).None? {
        assert t[..|t| - 1] == g;
      }
      var i := KeyIndex(t, id).value;
      EntryCountUpdate(t, i, Group(id, t[i].entries + [e]));
    }
  }

  // ---------------------------------------------------------------------------
  // Lookup by build id

  /** The list `libcs[id]` evaluates to. */
  function Members(groups: seq<Group>, id: string): seq<Entry>
  {
    match KeyIndex(groups, id)
    case Some(i) => groups[i].entries
    case None => []
  }

  /** Looking up a key that is present changes nothing; an unknown key is left behind with an
      empty group, and looking it up again finds that empty group. */
  lemma TouchSpec(groups: seq<Group>, id: string)
    requires DistinctKeys(groups)
    ensures KeyIndex(groups, id).Some? ==> Touch(groups, id) == groups
    ensures KeyIndex(groups, id).None? ==> Touch(groups, id) == groups + [Group(id, [])]
    ensures Members(Touch(groups, id), id) == Members(groups, id)
    ensures Touch(Touch(groups, id), id) == Touch(groups, id)
    ensures DistinctKeys(Touch(groups, id))
  {
    TouchKeeps(groups, id);
    var t := Touch(groups, id);
    if KeyIndex(groups, id).None? {
      KeyIndexFinds(t, |groups|);
    }
  }

  // ---------------------------------------------------------------------------
  // The `BuildID[sha1]=(.*?),` search of `extract_buildID_from_file` in this file

  const BUILD_ID_MARKER := "BuildID[sha1]="

  /** Index of the first `,` at or after `p` with no newline before it. */
  function CommaAfter(s: string, p: nat): (r: Option<nat>)
    requires p <= |s|
    ensures r.Some? ==> p <= r.value < |s| && s[r.value] == ',' && forall k :: p <= k < r.value ==> s[k] != ',' && s[k] != '\n'
    ensures r.None? ==> forall c :: p <= c < |s| && s[c] == ',' ==> exists k :: p <= k < c && s[k] == '\n'
    decreases |s| - p
  {
    if p == |s| || s[p] == '\n' then None
    else if s[p] == ',' then Some(p)
    else CommaAfter(s, p + 1)
  }

  /** A position where the pattern matches: the marker, then a comma before any newline. */
  predicate CommaMatchAt(s: string, i: nat)
  {
    At(s, i, BUILD_ID_MARKER) && CommaAfter(s, i + |BUILD_ID_MARKER|).Some?
  }

  /** The leftmost position at or after `i` where `re.search` matches. */
  function FirstCommaMatch(s: string, i: nat): (r: Option<nat>)
    requires i <= |s|
    ensures r.Some? ==> i <= r.value <= |s| && CommaMatchAt(s, r.value)
    ensures r.Some? ==> forall k :: i <= k < r.value ==> !CommaMatchAt(s, k)
    ensures r.None? ==> forall k :: i <= k <= |s| ==> !CommaMatchAt(s, k)
    decreases |s| - i
  {
    if CommaMatchAt(s, i) then Some(i)
    else if i < |s| then FirstCommaMatch(s, i + 1)
    else None
  }

  /** The build id in the output of `file`: the text between the leftmost marker still followed
      by a comma on its line and that comma; None where `.group(1)` is called on no match. */
  function CommaBuildId(out: string): (r: Option<string>)
    ensures r.Some? ==> ',' !in r.value && '\n' !in r.value
    ensures r.Some? <==> FirstCommaMatch(out, 0).Some?
    ensures r.Some? ==> var j := FirstCommaMatch(out, 0).value + |BUILD_ID_MARKER|;
                        j + |r.value| < |out| && out[j..j + |r.value|] == r.value && out[j + |r.value|] == ','
  {
    match FirstCommaMatch(out, 0)
    case None => None
    case Some(j) =>
      var c := CommaAfter(out, j + |BUILD_ID_MARKER|).value;
      var id := out[j + |BUILD_ID_MARKER|..c];
      assert forall k :: 0 <= k < |id| ==> id[k] == out[j + |BUILD_ID_MARKER| + k];
      Some(id)
  }

  /** There is no build id exactly when no marker is followed by a comma on its line. */
  lemma CommaBuildIdAbsent(out: string)
    ensures CommaBuildId(out).None? <==> forall k :: 0 <= k <= |out| ==> !CommaMatchAt(out, k)
  {
  }

  // ---------------------------------------------------------------------------
  // The catalog object

  /** The module-level `libcs` defaultdict, passed explicitly. */
  class Store {
    var groups: seq<Group>

    ghost predicate Valid()
      reads this
    {
      DistinctKeys(groups)
    }

    constructor ()
      ensures Valid() && groups == []
    {
      groups := [];
    }

    /** `libcs[id].append(e)`. */
    method Append(id: string, e: Entry)
      requires Valid()
      modifies this
      ensures Valid()
      ensures groups == Insert(old(groups), id, e)
    {
      InsertDistinct(groups, id, e);
      groups := Insert(groups, id, e);
    }

    /** `libcs[id]`: returns the group and leaves an empty one behind for an unknown key. */
    method Lookup(id: string) returns (entries: seq<Entry>)
      requires Valid()
      modifies this
      ensures Valid()
      ensures entries == Members(old(groups), id)
      ensures groups == Touch(old(groups), id)
    {
      TouchSpec(groups, id);
      entries := Members(groups, id);
      groups := Touch(groups, id);
    }
  }

  datatype CatalogError = NoBuildId(filepath: string)

  /** The build id `file` reports for an entry, None when its output carries none. */
  function BuildIdOf(fileOutput: string -> string): Entry -> Option<string>
  {
    (e: Entry) => CommaBuildId(fileOutput(e.filepath))
  }

  /** `parse_libcs`: one append per file, in glob order, keyed by the build id `file` reports.
      A file whose output has no build id raises, and no catalog is built. */
  method ParseLibcs(files: seq<Entry>, fileOutput: string -> string) returns (r: Result<Store, CatalogError>)
    ensures r.Ok? ==> fresh(r.value) && r.value.Valid()
    ensures r.Ok? <==> AllIdentified(files, BuildIdOf(fileOutput))
    ensures r.Ok? ==> r.value.groups == GroupAll(Keyed(files, BuildIdOf(fileOutput)))
  {
    var idOf := BuildIdOf(fileOutput);
    var store := new Store();
    var i := 0;
    while i < |files|
      invariant 0 <= i <= |files|
      invariant store.Valid() && fresh(store)
      invariant AllIdentified(files[..i], idOf)
      invariant store.groups == GroupAll(Keyed(files[..i], idOf))
    {
      var id := CommaBuildId(fileOutput(files[i].filepath));
      assert id == idOf(files[i]);
      if id.None? {
        Unidentified(files, idOf, i);
        return Err(NoBuildId(files[i].filepath));
      }
      ParseStep(files, idOf, i, id.value);
      store.Append(id.value, files[i]);
      i := i + 1;
    }
    assert files[..i] == files;
    return Ok(store);
  }

  /** A file without a build id leaves the whole list unidentified. */
  lemma Unidentified(files: seq<Entry>, idOf: Entry -> Option<string>, i: nat)
    requires i < |files| && idOf(files[i]).None?
    ensures !AllIdentified(files, idOf)
  {
    IdentifiedStep(files, idOf, i);
    PrefixIdentified(files, idOf, i + 1);
  }

  /** One more file is identified when it has a build id. */
  lemma IdentifiedStep(files: seq<Entry>, idOf: Entry -> Option<string>, i: nat)
    requires i < |files|
    ensures AllIdentified(files[..i + 1], idOf) <==> AllIdentified(files[..i], idOf) && idOf(files[i]).Some?
  {
    var p := files[..i + 1];
    assert p[..|p| - 1] == files[..i] && p[|p| - 1] == files[i];
  }

  /** What one more identified file adds to the catalog. */
  lemma ParseStep(files: seq<Entry>, idOf: Entry -> Option<string>, i: nat, id: string)
    requires i < |files| && idOf(files[i]) == Some(id)
    ensures AllIdentified(files[..i + 1], idOf) <==> AllIdentified(files[..i], idOf)
    ensures GroupAll(Keyed(files[..i + 1], idOf)) == Insert(GroupAll(Keyed(files[..i], idOf)), id, files[i])
  {
    IdentifiedStep(files, idOf, i);
    var p := files[..i + 1];
    assert p[..|p| - 1] == files[..i] && p[|p| - 1] == files[i];
    var k := Keyed(files[..i], idOf) + [(id, files[i])];
    assert Keyed(p, idOf) == k;
    assert k[..|k| - 1] == Keyed(files[..i], idOf);
  }

  /** Every file has a build id. */
  predicate AllIdentified(files: seq<Entry>, idOf: Entry -> Option<string>)
  {
    files == [] || (AllIdentified(files[..|files| - 1], idOf) && idOf(files[|files| - 1]).Some?)
  }

  lemma {:induction false} PrefixIdentified(files: seq<Entry>, idOf: Entry -> Option<string>, n: nat)
    requires n <= |files|
    ensures AllIdentified(files, idOf) ==> AllIdentified(files[..n], idOf)
    decreases |files|
  {
    if n < |files| {
      assert files[..|files| - 1][..n] == files[..n];
      PrefixIdentified(files[..|files| - 1], idOf, n);
    } else {
      assert files[..n] == files;
    }
  }

  /** The files paired with their build ids, for files whose id was found. */
  function Keyed(files: seq<Entry>, idOf: Entry -> Option<string>): seq<(string, Entry)>
  {
    if files == [] then []
    else
      var last := files[|files| - 1];
      Keyed(files[..|files| - 1], idOf) + (match idOf(last) case Some(id) => [(id, last)] case None => [])
  }

  /** The `libcs` table in `libcs.db`. */
  class Table {
    var rows: seq<Row>

    constructor ()
      ensures rows == []
    {
      rows := [];
    }

    /** `init_db`: create the table if needed, then `DELETE FROM libcs`. */
    method Init()
      modifies this
      ensures rows == []
    {
      rows := [];
    }

    method InsertRow(row: Row)
      modifies this
      ensures rows == old(rows) + [row]
    {
      rows := rows + [row];
    }
  }

  /** `create_db`: empty the table, then insert one row per entry of every group. */
  method CreateDb(table: Table, store: Store)
    modifies table
    ensures table.rows == Rows(store.groups)
  {
    table.Init();
    var i := 0;
    while i < |store.groups|
      invariant 0 <= i <= |store.groups|
      invariant table.rows == Rows(store.groups[..i])
    {
      var g := store.groups[i];
      var j := 0;
      while j < |g.entries|
        invariant 0 <= j <= |g.entries|
        invariant table.rows == Rows(store.groups[..i]) + GroupRows(g, j)
      {
        var e := g.entries[j];
        table.InsertRow(Row(e.architecture, e.distro, e.release, e.version, g.buildID, e.filepath));
        j := j + 1;
      }
      assert store.groups[..i + 1][..i] == store.groups[..i];
      i := i + 1;
    }
    assert store.groups[..i] == store.groups;
  }

  /** `identify`: the entries under the build id of the file, leaving an empty group behind for an
      unknown id; a file whose `file` output has no build id raises. */
  method Identify(store: Store, libcPath: string, fileOutput: string -> string) returns (r: Result<seq<Entry>, CatalogError>)
    requires store.Valid()
    modifies store
    ensures store.Valid()
    ensures CommaBuildId(fileOutput(libcPath)).None? ==> r == Err(NoBuildId(libcPath)) && store.groups == old(store.groups)
    ensures CommaBuildId(fileOutput(libcPath)).Some? ==>
              var id := CommaBuildId(fileOutput(libcPath)).value;
              r == Ok(Members(old(store.groups), id)) && store.groups == Touch(old(store.groups), id)
  {
    var id := CommaBuildId(fileOutput(libcPath));
    if id.None? {
      return Err(NoBuildId(libcPath));
    }
    var entries := store.Lookup(id.value);
    return Ok(entries);
  }

  // ---------------------------------------------------------------------------
  // get_entry: choosing one of several entries from the lines typed in

  /** `int(s)` for an optional sign and ASCII digits; anything else is a `ValueError` (None). */
  function ParseInt(s: string): (r: Option<int>)
    ensures r.Some? <==> var d := if s != [] && s[0] in "+-" then s[1..] else s;
                         d != [] && forall k :: 0 <= k < |d| ==> IsDigit(d[k])
  {
    var neg := s != [] && s[0] == '-';
    var d := if s != [] && s[0] in "+-" then s[1..] else s;
    if d != [] && forall k :: 0 <= k < |d| ==> IsDigit(d[k]) then
      Some(if neg then 0 - DecimalValue(d) else DecimalValue(d))
    else None
  }

  function DecimalValue(s: string): nat
    requires forall k :: 0 <= k < |s| ==> IsDigit(s[k])
  {
    if s == [] then 0
    else
      assert IsDigit(s[|s| - 1]);
      DecimalValue(s[..|s| - 1]) * 10 + (s[|s| - 1] as int - '0' as int)
  }

  /** `str(n)` for a natural number. */
  function Decimal(n: nat): (s: string)
    ensures s != [] && forall k :: 0 <= k < |s| ==> IsDigit(s[k])
  {
    if n < 10 then [(n + '0' as int) as char] else Decimal(n / 10) + [(n % 10 + '0' as int) as char]
  }

  /** `str(n)`. */
  function IntText(n: int): string
  {
    if n < 0 then "-" + Decimal(-n) else Decimal(n)
  }

  lemma {:induction false} DecimalValueOf(n: nat)
    ensures DecimalValue(Decimal(n)) == n
  {
    var s := Decimal(n);
    if n >= 10 {
      assert s[..|s| - 1] == Decimal(n / 10);
      DecimalValueOf(n / 10);
    }
  }

  /** What the user types as the printed index of an entry reads back as that index. */
  lemma ParseIntText(n: int)
    ensures ParseInt(IntText(n)) == Some(n)
  {
    var m := if n < 0 then -n else n;
    DecimalValueOf(m);
    if n < 0 {
      assert IntText(n)[1..] == Decimal(m);
    }
  }

  /** How `get_entry` ends: with the chosen entry, by `exit(0)` on `-1`, or with an
      `EOFError` once no line is left. */
  datatype Choice = Chosen(entry: Entry) | Quit | NoMoreInput

  /** A line that ends the loop: `-1` or an index of one of the matches. Any other line,
      a number out of range or not a number at all, asks again. */
  predicate Decisive(matches: seq<Entry>, line: string)
  {
    var c := ParseInt(line);
    c == Some(-1) || (c.Some? && 0 <= c.value < |matches|)
  }

  /** What a decisive line does. */
  function Decide(matches: seq<Entry>, line: string): Choice
    requires Decisive(matches, line)
  {
    var c := ParseInt(line).value;
    if c == -1 then Quit else Chosen(matches[c])
  }

  /** The loop of `get_entry`, reading the lines in turn. */
  function Ask(matches: seq<Entry>, lines: seq<string>): Choice
  {
    if lines == [] then NoMoreInput
    else if Decisive(matches, lines[0]) then Decide(matches, lines[0])
    else Ask(matches, lines[1..])
  }

  /** `get_entry`: a single match is taken without asking. */
  function ChooseEntry(matches: seq<Entry>, lines: seq<string>): Choice
  {
    if |matches| == 1 then Chosen(matches[0]) else Ask(matches, lines)
  }

  /** The number of lines `get_entry` reads. */
  function LinesRead(matches: seq<Entry>, lines: seq<string>): (n: nat)
    ensures n <= |lines|
  {
    if |matches| == 1 || lines == [] then 0
    else if Decisive(matches, lines[0]) then 1
    else 1 + LinesRead(matches, lines[1..])
  }

  /** The first decisive line decides; without one the input runs out. An entry chosen is
      always one of the matches. */
  lemma AskSpec(matches: seq<Entry>, lines: seq<string>)
    ensures Ask(matches, lines) == NoMoreInput <==> forall i :: 0 <= i < |lines| ==> !Decisive(matches, lines[i])
    ensures Ask(matches, lines) != NoMoreInput ==>
              exists i :: FirstDecisive(matches, lines, i) && Ask(matches, lines) == Decide(matches, lines[i])
    ensures Ask(matches, lines).Chosen? ==> Ask(matches, lines).entry in matches
  {
    AskRunsOut(matches, lines);
    AskFirstDecisive(matches, lines);
    AskChoosesMatch(matches, lines);
  }

  /** Line `i` is decisive and no line before it is. */
  predicate FirstDecisive(matches: seq<Entry>, lines: seq<string>, i: int)
  {
    0 <= i < |lines| && Decisive(matches, lines[i]) && forall k :: 0 <= k < i ==> !Decisive(matches, lines[k])
  }

  lemma {:induction false} AskRunsOut(matches: seq<Entry>, lines: seq<string>)
    ensures Ask(matches, lines) == NoMoreInput <==> forall i :: 0 <= i < |lines| ==> !Decisive(matches, lines[i])
  {
    if lines != [] && !Decisive(matches, lines[0]) {
      AskRunsOut(matches, lines[1..]);
      forall i | 0 <= i < |lines[1..]| ensures lines[1..][i] == lines[i + 1] { }
      assert forall i :: 1 <= i < |lines| ==> lines[i] == lines[1..][i - 1];
    }
  }

  lemma {:induction false} AskFirstDecisive(matches: seq<Entry>, lines: seq<string>)
    ensures Ask(matches, lines) != NoMoreInput ==>
              exists i :: FirstDecisive(matches, lines, i) && Ask(matches, lines) == Decide(matches, lines[i])
  {
    if lines != [] && Decisive(matches, lines[0]) {
      assert FirstDecisive(matches, lines, 0);
    } else if lines != [] {
      AskFirstDecisive(matches, lines[1..]);
      if Ask(matches, lines) != NoMoreInput {
        var i :| FirstDecisive(matches, lines[1..], i) && Ask(matches, lines[1..]) == Decide(matches, lines[1..][i]);
        assert forall k :: 1 <= k < i + 1 ==> lines[k] == lines[1..][k - 1];
        assert lines[i + 1] == lines[1..][i];
        assert FirstDecisive(matches, lines, i + 1);
      }
    }
  }

  lemma {:induction false} AskChoosesMatch(matches: seq<Entry>, lines: seq<string>)
    ensures Ask(matches, lines).Chosen? ==> Ask(matches, lines).entry in matches
  {
    if lines != [] && !Decisive(matches, lines[0]) {
      AskChoosesMatch(matches, lines[1..]);
    }
  }

  /** `get_entry` with the lines typed in: the choice, and how many lines it used. */
  method GetEntry(matches: seq<Entry>, lines: seq<string>) returns (r: Choice, used: nat)
    ensures r == ChooseEntry(matches, lines) && used == LinesRead(matches, lines)
  {
    if |matches| == 1 {
      return Chosen(matches[0]), 0;
    }
    used := 0;
    while used < |lines|
      invariant used <= |lines|
      invariant Ask(matches, lines[used..]) == Ask(matches, lines)
      invariant LinesRead(matches, lines[used..]) + used == LinesRead(matches, lines)
    {
      var line := lines[used];
      assert lines[used..][1..] == lines[used + 1..];
      used := used + 1;
      if Decisive(matches, line) {
        var c := ParseInt(line).value;
        if c == -1 {
          return Quit, used;
        }
        return Chosen(matches[c]), used;
      }
    }
    return NoMoreInput, used;
  }
}
