/** `find` of `bowkin.py`: the offset-fingerprint scan over the catalog. */
module Matcher {
  import opened Wrappers
  import opened Query
  import opened Catalog

  /** The `.dynsym` of a shared object: symbol name to `st_value`, the symbol table entry value of
      the System V gABI chapter 4 "Symbol Table". */
  type SymbolTable = map<string, nat>

  /** The `.dynsym` section read from a path; None when the ELF file has no such section. The
      ELF parsing itself is not modelled. */
  type DynsymOf = string -> Option<SymbolTable>

  /** Why checking one entry raises. Inside the `try`, `None[0]` (absent symbol) and
      `None.get_symbol_by_name` (no section) raise; evaluating `TypeError | IndexError` to match the
      exception then raises again, so nothing is caught. */
  datatype Miss = NoDynsym | Absent(name: string)

  datatype FindError = FindError(filepath: string, miss: Miss)

  /** The path `find` opens for an entry. */
  function LibcPath(e: Entry): string { "./" + e.filepath }

  /** The inner `for ... else` over the queried symbols: `Ok(true)` when no `break` is reached,
      `Ok(false)` at the first offset mismatch, an error at an unresolvable symbol. */
  function Check(t: Option<SymbolTable>, q: seq<Symbol>): Result<bool, Miss>
  {
    if q == [] then Ok(true)
    else if t.None? then Err(NoDynsym)
    else if q[0].name !in t.value then Err(Absent(q[0].name))
    else if Offset(t.value[q[0].name]) != q[0].offset then Ok(false)
    else Check(t, q[1..])
  }

  /** The symbol `s` is in the table and its offset agrees with the queried one. */
  predicate Agrees(t: Option<SymbolTable>, s: Symbol)
  {
    t.Some? && s.name in t.value && Offset(t.value[s.name]) == s.offset
  }

  /** Every queried symbol agrees: what "the entry passes" means. */
  predicate Consistent(t: Option<SymbolTable>, q: seq<Symbol>)
  {
    forall i :: 0 <= i < |q| ==> Agrees(t, q[i])
  }

  /** The check reaches the `i`-th queried symbol, every one before it agreeing, and cannot
      resolve it. */
  predicate RaisesAt(t: Option<SymbolTable>, q: seq<Symbol>, i: nat)
  {
    i < |q| && (forall j :: 0 <= j < i ==> Agrees(t, q[j])) && (t.None? || q[i].name !in t.value)
  }

  /** An entry passes exactly when all queried symbols agree; the check fails exactly when, before
      any mismatch, it reaches a symbol it cannot resolve. */
  lemma CheckSpec(t: Option<SymbolTable>, q: seq<Symbol>)
    ensures Check(t, q) == Ok(true) <==> Consistent(t, q)
    ensures Check(t, q).Err? <==> exists i: nat :: RaisesAt(t, q, i)
  {
    CheckPasses(t, q);
    CheckRaises(t, q);
  }

  lemma {:induction false} CheckPasses(t: Option<SymbolTable>, q: seq<Symbol>)
    ensures Check(t, q) == Ok(true) <==> Consistent(t, q)
  {
    if q != [] {
      if Agrees(t, q[0]) {
        CheckPasses(t, q[1..]);
        assert forall i :: 1 <= i < |q| ==> q[i] == q[1..][i - 1];
      } else {
        assert !Consistent(t, q) by { assert !Agrees(t, q[0]); }
      }
    }
  }

  lemma {:induction false} CheckRaises(t: Option<SymbolTable>, q: seq<Symbol>)
    ensures Check(t, q).Err? <==> exists i: nat :: RaisesAt(t, q, i)
  {
    if q == [] {
    } else if t.None? || q[0].name !in t.value {
      assert RaisesAt(t, q, 0);
    } else if !Agrees(t, q[0]) {
      forall i: nat ensures !RaisesAt(t, q, i) {
        if 0 < i < |q| {
          assert !Agrees(t, q[0]);
        }
      }
    } else {
      CheckRaises(t, q[1..]);
      forall i: nat | i < |q[1..]| ensures RaisesAt(t, q[1..], i) <==> RaisesAt(t, q, i + 1) {
        assert forall j :: 0 <= j < i ==> q[1..][j] == q[j + 1];
        assert q[1..][i] == q[i + 1];
      }
      if exists i: nat :: RaisesAt(t, q, i) {
        var i: nat :| RaisesAt(t, q, i);
        assert i > 0;
        assert RaisesAt(t, q[1..], i - 1);
      }
    }
  }

  /** The loop over the queried symbols with its `break`s and `else`. */
  method CheckEntry(t: Option<SymbolTable>, q: seq<Symbol>) returns (r: Result<bool, Miss>)
    ensures r == Check(t, q)
  {
    var i := 0;
    while i < |q|
      invariant 0 <= i <= |q|
      invariant Check(t, q) == Check(t, q[i..])
    {
      assert q[i..][1..] == q[i + 1..];
      if t.None? {
        return Err(NoDynsym);
      }
      var table := t.value;
      if q[i].name !in table {
        return Err(Absent(q[i].name));
      }
      if Offset(table[q[i].name]) != q[i].offset {
        return Ok(false);
      }
      i := i + 1;
    }
    return Ok(true);
  }

  /** Results appended while scanning the first `k` entries of one group: the whole group once
      per entry that passes. */
  function ScanGroup(g: Group, k: nat, q: seq<Symbol>, dynsym: DynsymOf): Result<seq<seq<Entry>>, FindError>
    requires k <= |g.entries|
  {
    if k == 0 then Ok([])
    else match ScanGroup(g, k - 1, q, dynsym)
      case Err(e) => Err(e)
      case Ok(acc) =>
        var e := g.entries[k - 1];
        match Check(dynsym(LibcPath(e)), q)
        case Err(m) => Err(FindError(e.filepath, m))
        case Ok(pass) => Ok(if pass then acc + [g.entries] else acc)
  }

  /** Results after scanning the first `n` groups; the first error ends the scan. */
  function Scan(groups: seq<Group>, n: nat, q: seq<Symbol>, dynsym: DynsymOf): Result<seq<seq<Entry>>, FindError>
    requires n <= |groups|
  {
    if n == 0 then Ok([])
    else match Scan(groups, n - 1, q, dynsym)
      case Err(e) => Err(e)
      case Ok(acc) =>
        match ScanGroup(groups[n - 1], |groups[n - 1].entries|, q, dynsym)
        case Err(e) => Err(e)
        case Ok(more) => Ok(acc + more)
  }

  /** `find`: for each group, for each entry, append the whole group when every queried symbol's
      `st_value & 0xFFF` equals the queried offset. */
  method Find(groups: seq<Group>, q: seq<Symbol>, dynsym: DynsymOf) returns (r: Result<seq<seq<Entry>>, FindError>)
    ensures r == Scan(groups, |groups|, q, dynsym)
  {
    var results: seq<seq<Entry>> := [];
    var i := 0;
    while i < |groups|
      invariant 0 <= i <= |groups|
      invariant Scan(groups, i, q, dynsym) == Ok(results)
    {
      var g := groups[i];
      ghost var before := results;
      var j := 0;
      while j < |g.entries|
        invariant 0 <= j <= |g.entries|
        invariant ScanGroup(g, j, q, dynsym).Ok?
        invariant results == before + ScanGroup(g, j, q, dynsym).value
      {
        var e := g.entries[j];
        var pass := CheckEntry(dynsym(LibcPath(e)), q);
        if pass.Err? {
          ScanGroupErr(g, j + 1, q, dynsym);
          ScanErr(groups, i + 1, q, dynsym);
          return Err(FindError(e.filepath, pass.error));
        }
        if pass.value {
          results := results + [g.entries];
        }
        j := j + 1;
      }
      i := i + 1;
    }
    return Ok(results);
  }

  /** Once a prefix of a group fails, the whole group fails with the same error. */
  lemma {:induction false} ScanGroupErr(g: Group, k: nat, q: seq<Symbol>, dynsym: DynsymOf)
    requires 0 < k <= |g.entries|
    requires ScanGroup(g, k - 1, q, dynsym).Ok? && Check(dynsym(LibcPath(g.entries[k - 1])), q).Err?
    ensures ScanGroup(g, |g.entries|, q, dynsym) == Err(FindError(g.entries[k - 1].filepath, Check(dynsym(LibcPath(g.entries[k - 1])), q).error))
    decreases |g.entries| - k
  {
    if k < |g.entries| {
      ScanGroupErrLater(g, k, |g.entries|, q, dynsym);
    }
  }

  lemma {:induction false} ScanGroupErrLater(g: Group, k: nat, m: nat, q: seq<Symbol>, dynsym: DynsymOf)
    requires 0 < k <= m <= |g.entries|
    requires ScanGroup(g, k, q, dynsym).Err?
    ensures ScanGroup(g, m, q, dynsym) == ScanGroup(g, k, q, dynsym)
    decreases m - k
  {
    if m > k {
      ScanGroupErrLater(g, k, m - 1, q, dynsym);
    }
  }

  /** Once one group fails, the whole scan fails with that group's error. */
  lemma {:induction false} ScanErr(groups: seq<Group>, n: nat, q: seq<Symbol>, dynsym: DynsymOf)
    requires 0 < n <= |groups|
    requires Scan(groups, n - 1, q, dynsym).Ok?
    requires ScanGroup(groups[n - 1], |groups[n - 1].entries|, q, dynsym).Err?
    ensures Scan(groups, |groups|, q, dynsym) == ScanGroup(groups[n - 1], |groups[n - 1].entries|, q, dynsym)
    decreases |groups| - n
  {
    if n < |groups| {
      ScanErrLater(groups, n, |groups|, q, dynsym);
    }
  }

  lemma {:induction false} ScanErrLater(groups: seq<Group>, n: nat, m: nat, q: seq<Symbol>, dynsym: DynsymOf)
    requires 0 < n <= m <= |groups|
    requires Scan(groups, n, q, dynsym).Err?
    ensures Scan(groups, m, q, dynsym) == Scan(groups, n, q, dynsym)
    decreases m - n
  {
    if m > n {
      ScanErrLater(groups, n, m - 1, q, dynsym);
    }
  }

  // ---------------------------------------------------------------------------
  // Reference definition of the result, and what the scan computes

  /** Number of entries among the first `k` of a group that pass. */
  function PassCount(g: Group, k: nat, q: seq<Symbol>, dynsym: DynsymOf): (n: nat)
    requires k <= |g.entries|
    ensures n <= k
  {
    if k == 0 then 0
    else PassCount(g, k - 1, q, dynsym) + (if Consistent(dynsym(LibcPath(g.entries[k - 1])), q) then 1 else 0)
  }

  function Repeat(x: seq<Entry>, n: nat): (r: seq<seq<Entry>>)
    ensures |r| == n && forall i :: 0 <= i < n ==> r[i] == x
  {
    if n == 0 then [] else Repeat(x, n - 1) + [x]
  }

  /** The intended answer: in catalog order, each group repeated once per passing member. */
  function Expected(groups: seq<Group>, n: nat, q: seq<Symbol>, dynsym: DynsymOf): seq<seq<Entry>>
    requires n <= |groups|
  {
    if n == 0 then []
    else Expected(groups, n - 1, q, dynsym) + Repeat(groups[n - 1].entries, PassCount(groups[n - 1], |groups[n - 1].entries|, q, dynsym))
  }

  /** No entry of the first `k` of a group makes the check raise. */
  predicate GroupResolvable(g: Group, k: nat, q: seq<Symbol>, dynsym: DynsymOf)
    requires k <= |g.entries|
  {
    forall i :: 0 <= i < k ==> Check(dynsym(LibcPath(g.entries[i])), q).Ok?
  }

  predicate Resolvable(groups: seq<Group>, n: nat, q: seq<Symbol>, dynsym: DynsymOf)
    requires n <= |groups|
  {
    forall i :: 0 <= i < n ==> GroupResolvable(groups[i], |groups[i].entries|, q, dynsym)
  }

  lemma {:induction false} ScanGroupSpec(g: Group, k: nat, q: seq<Symbol>, dynsym: DynsymOf)
    requires k <= |g.entries|
    ensures ScanGroup(g, k, q, dynsym).Ok? <==> GroupResolvable(g, k, q, dynsym)
    ensures ScanGroup(g, k, q, dynsym).Ok? ==> ScanGroup(g, k, q, dynsym).value == Repeat(g.entries, PassCount(g, k, q, dynsym))
  {
    if k > 0 {
      ScanGroupSpec(g, k - 1, q, dynsym);
      CheckPasses(dynsym(LibcPath(g.entries[k - 1])), q);
    }
  }

  /** The scan succeeds exactly when no catalogued entry makes the check raise, and then returns
      every group once per member consistent with all queried offsets, in catalog order; a group
      without such a member never appears. */
  lemma {:induction false} ScanSpec(groups: seq<Group>, n: nat, q: seq<Symbol>, dynsym: DynsymOf)
    requires n <= |groups|
    ensures Scan(groups, n, q, dynsym).Ok? <==> Resolvable(groups, n, q, dynsym)
    ensures Scan(groups, n, q, dynsym).Ok? ==> Scan(groups, n, q, dynsym).value == Expected(groups, n, q, dynsym)
  {
    if n > 0 {
      ScanSpec(groups, n - 1, q, dynsym);
      ScanGroupSpec(groups[n - 1], |groups[n - 1].entries|, q, dynsym);
    }
  }

  /** A matching libc that is catalogued is found: if the scan succeeds and some member of a group
      is consistent with the query, that group is in the result. */
  lemma FindIsComplete(groups: seq<Group>, q: seq<Symbol>, dynsym: DynsymOf, i: nat, k: nat)
    requires i < |groups| && k < |groups[i].entries|
    requires Consistent(dynsym(LibcPath(groups[i].entries[k])), q)
    requires Scan(groups, |groups|, q, dynsym).Ok?
    ensures groups[i].entries in Scan(groups, |groups|, q, dynsym).value
  {
    ScanSpec(groups, |groups|, q, dynsym);
    PassCountPositive(groups[i], |groups[i].entries|, k, q, dynsym);
    ExpectedContains(groups, |groups|, i, q, dynsym);
  }

  lemma {:induction false} PassCountPositive(g: Group, m: nat, k: nat, q: seq<Symbol>, dynsym: DynsymOf)
    requires k < m <= |g.entries|
    requires Consistent(dynsym(LibcPath(g.entries[k])), q)
    ensures PassCount(g, m, q, dynsym) > 0
  {
    if k < m - 1 { PassCountPositive(g, m - 1, k, q, dynsym); }
  }

  lemma {:induction false} ExpectedContains(groups: seq<Group>, n: nat, i: nat, q: seq<Symbol>, dynsym: DynsymOf)
    requires i < n <= |groups|
    requires PassCount(groups[i], |groups[i].entries|, q, dynsym) > 0
    ensures groups[i].entries in Expected(groups, n, q, dynsym)
  {
    var rep := Repeat(groups[n - 1].entries, PassCount(groups[n - 1], |groups[n - 1].entries|, q, dynsym));
    var prev := Expected(groups, n - 1, q, dynsym);
    assert Expected(groups, n, q, dynsym) == prev + rep;
    if i < n - 1 {
      ExpectedContains(groups, n - 1, i, q, dynsym);
      InLeft(groups[i].entries, prev, rep);
    } else {
      assert rep[0] == groups[i].entries;
      InRight(groups[i].entries, prev, rep);
    }
  }

  lemma InLeft<T>(x: T, a: seq<T>, b: seq<T>)
    requires x in a
    ensures x in a + b
  {
    var k :| 0 <= k < |a| && a[k] == x;
    assert (a + b)[k] == x;
  }

  lemma InRight<T>(x: T, a: seq<T>, b: seq<T>)
    requires b != [] && b[0] == x
    ensures x in a + b
  {
    assert (a + b)[|a|] == x;
  }

  /** Every returned list is a catalog group one of whose members agrees with every queried symbol. */
  lemma FindIsSound(groups: seq<Group>, q: seq<Symbol>, dynsym: DynsymOf, x: seq<Entry>)
    requires Scan(groups, |groups|, q, dynsym).Ok?
    requires x in Scan(groups, |groups|, q, dynsym).value
    ensures exists i, k :: 0 <= i < |groups| && 0 <= k < |groups[i].entries| && groups[i].entries == x &&
              Consistent(dynsym(LibcPath(groups[i].entries[k])), q)
  {
    ScanSpec(groups, |groups|, q, dynsym);
    ExpectedSound(groups, |groups|, q, dynsym, x);
  }

  lemma {:induction false} ExpectedSound(groups: seq<Group>, n: nat, q: seq<Symbol>, dynsym: DynsymOf, x: seq<Entry>)
    requires n <= |groups|
    requires x in Expected(groups, n, q, dynsym)
    ensures exists i, k :: 0 <= i < n && 0 <= k < |groups[i].entries| && groups[i].entries == x &&
              Consistent(dynsym(LibcPath(groups[i].entries[k])), q)
  {
    var g := groups[n - 1];
    var c := PassCount(g, |g.entries|, q, dynsym);
    if x in Expected(groups, n - 1, q, dynsym) {
      ExpectedSound(groups, n - 1, q, dynsym, x);
    } else {
      assert x in Repeat(g.entries, c);
      var k := PassingMember(g, |g.entries|, q, dynsym);
      assert groups[n - 1].entries == x;
    }
  }

  /** A group with a positive pass count has a passing member. */
  lemma {:induction false} PassingMember(g: Group, m: nat, q: seq<Symbol>, dynsym: DynsymOf) returns (k: nat)
    requires m <= |g.entries| && PassCount(g, m, q, dynsym) > 0
    ensures k < m && Consistent(dynsym(LibcPath(g.entries[k])), q)
  {
    if Consistent(dynsym(LibcPath(g.entries[m - 1])), q) {
      k := m - 1;
    } else {
      k := PassingMember(g, m - 1, q, dynsym);
    }
  }

  /** A member lacking a queried symbol never passes; when it is reached, the scan raises. */
  lemma AbsentNeverPasses(t: Option<SymbolTable>, q: seq<Symbol>, i: nat)
    requires i < |q| && (t.None? || q[i].name !in t.value)
    ensures !Consistent(t, q)
    ensures (forall j :: 0 <= j < i ==> Agrees(t, q[j])) ==> Check(t, q).Err?
  {
    CheckSpec(t, q);
    assert !Agrees(t, q[i]);
    if forall j :: 0 <= j < i ==> Agrees(t, q[j]) {
      assert RaisesAt(t, q, i);
    }
  }

  /** With an empty query (which the command line's `nargs='+'` rules out) every group comes back
      once per member. */
  lemma {:induction false} EmptyQueryMatchesAll(groups: seq<Group>, n: nat, dynsym: DynsymOf)
    requires n <= |groups|
    ensures Scan(groups, n, [], dynsym) == Ok(Expected(groups, n, [], dynsym))
    ensures forall i :: 0 <= i < n ==> PassCount(groups[i], |groups[i].entries|, [], dynsym) == |groups[i].entries|
  {
    ScanSpec(groups, n, [], dynsym);
    forall i | 0 <= i < n ensures PassCount(groups[i], |groups[i].entries|, [], dynsym) == |groups[i].entries| {
      AllPass(groups[i], |groups[i].entries|, dynsym);
    }
  }

  lemma {:induction false} AllPass(g: Group, k: nat, dynsym: DynsymOf)
    requires k <= |g.entries|
    ensures PassCount(g, k, [], dynsym) == k
  {
    if k > 0 { AllPass(g, k - 1, dynsym); }
  }

  // ---------------------------------------------------------------------------
  // The `find` command line

  datatype CommandError = NoSymbols | BadSymbol(arg: string, why: ArgError) | ScanFailed(error: FindError)

  /** argparse with `type=symbol_entry, nargs='+'`: at least one argument, each converted in
      order, the first failing conversion reported. */
  function ParseArgs(args: seq<string>): (r: Result<seq<Symbol>, CommandError>)
    ensures r.Ok? ==> |r.value| == |args| > 0 && forall i :: 0 <= i < |args| ==> SymbolEntry(args[i]) == Ok(r.value[i])
    ensures r.Ok? <==> args != [] && forall i :: 0 <= i < |args| ==> SymbolEntry(args[i]).Ok?
  {
    ConvertAllSpec(args);
    if args == [] then Err(NoSymbols) else ConvertAll(args)
  }

  /** Each argument converted in order; the first failing conversion is reported. */
  function ConvertAll(args: seq<string>): Result<seq<Symbol>, CommandError>
  {
    if args == [] then Ok([])
    else match SymbolEntry(args[0])
      case Err(why) => Err(BadSymbol(args[0], why))
      case Ok(sym) =>
        match ConvertAll(args[1..])
        case Err(e) => Err(e)
        case Ok(rest) => Ok([sym] + rest)
  }

  /** The conversion succeeds exactly when every argument converts, and then holds each
      argument's symbol at its place. */
  lemma {:induction false} ConvertAllSpec(args: seq<string>)
    ensures var r := ConvertAll(args);
            r.Ok? ==> |r.value| == |args| && forall i :: 0 <= i < |args| ==> SymbolEntry(args[i]) == Ok(r.value[i])
    ensures ConvertAll(args).Ok? <==> forall i :: 0 <= i < |args| ==> SymbolEntry(args[i]).Ok?
  {
    if args != [] {
      ConvertAllSpec(args[1..]);
      assert forall i :: 1 <= i < |args| ==> args[i] == args[1..][i - 1];
    }
  }

  /** `find` as run from the command line: convert the arguments, merge them with `ChainMap`,
      and scan the catalog. */
  method FindCommand(groups: seq<Group>, args: seq<string>, dynsym: DynsymOf) returns (r: Result<seq<seq<Entry>>, CommandError>)
    ensures ParseArgs(args).Err? ==> r == Err(ParseArgs(args).error)
    ensures ParseArgs(args).Ok? ==>
              var q := Merge(ParseArgs(args).value);
              match Scan(groups, |groups|, q, dynsym)
              case Ok(rs) => r == Ok(rs)
              case Err(e) => r == Err(ScanFailed(e))
  {
    var parsed := ParseArgs(args);
    if parsed.Err? {
      return Err(parsed.error);
    }
    var found := Find(groups, Merge(parsed.value), dynsym);
    if found.Err? {
      return Err(ScanFailed(found.error));
    }
    return Ok(found.value);
  }

  // ---------------------------------------------------------------------------
  // Worked scenario: two builds that share `malloc`'s offset but not `free`'s

  function ScenarioEntry(name: string): Entry
  {
    Entry("ubuntu", "amd64", None, name, "2.27")
  }

  function ScenarioDynsym(path: string): Option<SymbolTable>
  {
    if path == "./a.so" then Some(map["malloc" := 0x7f12_3456_7120, "free" := 0x7f12_3456_8340])
    else if path == "./b.so" then Some(map["malloc" := 0x7f00_0000_0120, "free" := 0x7f00_0000_0360])
    else None
  }

  /** Querying `malloc=...120 free=...340` finds only A; `malloc=...120` alone finds both. */
  lemma TwoBuildScenario()
    ensures var groups := [Group("aaaa", [ScenarioEntry("a.so")]), Group("bbbb", [ScenarioEntry("b.so")])];
            && Scan(groups, 2, [Symbol("malloc", 0x120), Symbol("free", 0x340)], ScenarioDynsym) == Ok([[ScenarioEntry("a.so")]])
            && Scan(groups, 2, [Symbol("malloc", 0x120)], ScenarioDynsym) == Ok([[ScenarioEntry("a.so")], [ScenarioEntry("b.so")]])
  {
    var a := ScenarioEntry("a.so");
    var b := ScenarioEntry("b.so");
    var groups := [Group("aaaa", [a]), Group("bbbb", [b])];
    var q2 := [Symbol("malloc", 0x120), Symbol("free", 0x340)];
    var q1 := [Symbol("malloc", 0x120)];
    assert LibcPath(a) == "./a.so" && LibcPath(b) == "./b.so";
    var ta := ScenarioDynsym("./a.so");
    var tb := ScenarioDynsym("./b.so");
    assert Offset(0x7f12_3456_7120) == 0x120 && Offset(0x7f12_3456_8340) == 0x340;
    assert Offset(0x7f00_0000_0120) == 0x120 && Offset(0x7f00_0000_0360) == 0x360;
    assert Check(ta, q2[1..]) == Ok(true);
    assert Check(ta, q2) == Ok(true);
    assert Check(tb, q2) == Ok(false);
    assert Check(ta, q1) == Ok(true);
    assert Check(tb, q1) == Ok(true);
    var d: DynsymOf := ScenarioDynsym;
    assert d(LibcPath(groups[0].entries[0])) == ta;
    assert d(LibcPath(groups[1].entries[0])) == tb;
    assert [] + [[a]] == [[a]] && [] + [[b]] == [[b]];
    assert ScanGroup(groups[0], 1, q2, ScenarioDynsym) == Ok([[a]]);
    assert ScanGroup(groups[1], 1, q2, ScenarioDynsym) == Ok([]);
    assert ScanGroup(groups[0], 1, q1, ScenarioDynsym) == Ok([[a]]);
    assert ScanGroup(groups[1], 1, q1, ScenarioDynsym) == Ok([[b]]);
    assert Scan(groups, 1, q2, ScenarioDynsym) == Ok([[a]]);
    assert Scan(groups, 1, q1, ScenarioDynsym) == Ok([[a]]);
    assert [[a]] + [] == [[a]] && [[a]] + [[b]] == [[a], [b]];
    assert Scan(groups, 2, q2, ScenarioDynsym) == Ok([[a]]);
    assert Scan(groups, 2, q1, ScenarioDynsym) == Ok([[a], [b]]);
  }
}
