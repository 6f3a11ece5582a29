/** The `find` command line: `NAME=HEX` arguments and their `ChainMap` merge. */
module Query {
  import opened Wrappers
  import Hex

  /** Only the low 12 bits of an address survive ASLR at 4 KiB page granularity. */
  const OFFSET_BITS: nat := 12
  const PAGE_SIZE: nat := 4096

  /** `addr & int('1' * 12, 2)`: for a non-negative address, masking with twelve one bits
      keeps the remainder modulo 2^12. */
  function Offset(addr: nat): (o: nat)
    ensures o < PAGE_SIZE
  {
    addr % PAGE_SIZE
  }

  /** One queried symbol with its masked address. */
  datatype Symbol = Symbol(name: string, offset: nat)

  datatype ArgError =
    | NotOneSeparator   // `entry.split('=')` did not give exactly two parts
    | BadAddress        // `int(addr_str, 16)` raised

  function CountChar(s: string, c: char): nat
  {
    if s == [] then 0 else (if s[0] == c then 1 else 0) + CountChar(s[1..], c)
  }

  /** Position of the first `c` in `s`. */
  function IndexOf(s: string, c: char): (i: nat)
    requires c in s
    ensures i < |s| && s[i] == c && c !in s[..i]
  {
    if s[0] == c then 0 else 1 + IndexOf(s[1..], c)
  }

  lemma {:induction false} CountSplit(s: string, c: char, i: nat)
    requires i <= |s|
    ensures CountChar(s, c) == CountChar(s[..i], c) + CountChar(s[i..], c)
  {
    if i > 0 {
      assert s[..i][1..] == s[1..][..i - 1];
      CountSplit(s[1..], c, i - 1);
    }
  }

  lemma {:induction false} CountZero(s: string, c: char)
    ensures CountChar(s, c) == 0 <==> c !in s
  {
    if s != [] { CountZero(s[1..], c); }
  }

  /** `symbol_entry`: split at the single `=`, parse the address as hex and keep its page offset. */
  function SymbolEntry(entry: string): (r: Result<Symbol, ArgError>)
    ensures r.Ok? ==> r.value.offset < PAGE_SIZE
    ensures r.Ok? ==> '=' !in r.value.name && exists a :: entry == r.value.name + "=" + a
    ensures CountChar(entry, '=') != 1 ==> r == Err(NotOneSeparator)
  {
    if CountChar(entry, '=') != 1 then Err(NotOneSeparator)
    else
      CountZero(entry, '=');
      var i := IndexOf(entry, '=');
      assert entry == entry[..i] + "=" + entry[i + 1..];
      match Hex.Parse(entry[i + 1..])
      case None => Err(BadAddress)
      case Some(v) => Ok(Symbol(entry[..i], Offset(v)))
  }

  /** An argument with one `=` is accepted exactly when the text after it is hexadecimal, and
      then yields the text before it as the name and the address modulo the page size. */
  lemma SymbolEntryValue(entry: string)
    requires CountChar(entry, '=') == 1
    ensures '=' in entry
    ensures var i := IndexOf(entry, '=');
            var a := Hex.Parse(entry[i + 1..]);
            (SymbolEntry(entry).Ok? <==> a.Some?) &&
            (a.None? ==> SymbolEntry(entry) == Err(BadAddress)) &&
            (a.Some? ==> SymbolEntry(entry) == Ok(Symbol(entry[..i], a.value % PAGE_SIZE)))
  {
    CountZero(entry, '=');
  }

  /** A well-formed argument yields its name and the address modulo the page size. */
  lemma SymbolEntryOfFormatted(name: string, addr: nat)
    requires '=' !in name
    ensures SymbolEntry(name + "=" + Hex.Format(addr)) == Ok(Symbol(name, addr % PAGE_SIZE))
  {
    var e := name + "=" + Hex.Format(addr);
    var h := Hex.Format(addr);
    assert '=' !in h by {
      forall k | 0 <= k < |h| ensures h[k] != '=' { assert Hex.IsHexDigit(h[k]); }
    }
    CountZero(name, '=');
    CountZero(h, '=');
    CountSplit(e, '=', |name|);
    assert e[..|name|] == name;
    assert e[|name|..] == "=" + h;
    assert ("=" + h)[1..] == h;
    CountSplit(e, '=', |name|);
    var i := IndexOf(e, '=');
    assert e[|name|] == '=';
    assert i == |name|;
    assert e[i + 1..] == h;
    Hex.ParseFormat(addr);
  }

  // ---------------------------------------------------------------------------
  // dict(collections.ChainMap(*maps)) over the one-entry maps of the arguments

  /** `ks` with `k` appended unless it is already there. */
  function AddNew(ks: seq<string>, k: string): seq<string>
  {
    if k in ks then ks else ks + [k]
  }

  /** Key order of the merge: ChainMap iterates its maps from the last to the first
      and keeps each key where it is first seen. */
  function MergedNames(args: seq<Symbol>): seq<string>
  {
    if args == [] then [] else AddNew(MergedNames(args[1..]), args[0].name)
  }

  predicate Named(args: seq<Symbol>, k: string)
  {
    exists i :: 0 <= i < |args| && args[i].name == k
  }

  /** The value a ChainMap lookup finds: that of the earliest map holding the key. */
  function Earliest(args: seq<Symbol>, k: string): (v: nat)
    requires Named(args, k)
  {
    if args[0].name == k then args[0].offset
    else (assert Named(args[1..], k) by {
            var i :| 0 <= i < |args| && args[i].name == k;
            assert args[1..][i - 1].name == k;
          }
          Earliest(args[1..], k))
  }

  /** Index of the last argument naming `k`. */
  function LastIndex(args: seq<Symbol>, k: string): (i: nat)
    requires Named(args, k)
    ensures i < |args| && args[i].name == k
    ensures forall j :: i < j < |args| ==> args[j].name != k
  {
    if args[|args| - 1].name == k then |args| - 1
    else (assert Named(args[..|args| - 1], k) by {
            var i :| 0 <= i < |args| && args[i].name == k;
            assert args[..|args| - 1][i].name == k;
          }
          LastIndex(args[..|args| - 1], k))
  }

  /** The merged query, in the merged dict's iteration order. */
  function Merge(args: seq<Symbol>): (q: seq<Symbol>)
    ensures |q| == |MergedNames(args)|
    ensures forall i :: 0 <= i < |q| ==> q[i].name == MergedNames(args)[i]
  {
    var ks := MergedNames(args);
    seq(|ks|, i requires 0 <= i < |ks| => Symbol(ks[i], if Named(args, ks[i]) then Earliest(args, ks[i]) else 0))
  }

  lemma {:induction false} NamedRest(args: seq<Symbol>, k: string)
    requires args != []
    ensures Named(args, k) <==> args[0].name == k || Named(args[1..], k)
  {
    if Named(args, k) && args[0].name != k {
      var i :| 0 <= i < |args| && args[i].name == k;
      assert args[1..][i - 1].name == k;
    }
    if Named(args[1..], k) {
      var i :| 0 <= i < |args[1..]| && args[1..][i].name == k;
      assert args[i + 1].name == k;
    }
  }

  /** A name is merged exactly when some argument carries it. */
  lemma {:induction false} InMergedNames(args: seq<Symbol>, k: string)
    ensures k in MergedNames(args) <==> Named(args, k)
  {
    if args != [] {
      InMergedNames(args[1..], k);
      NamedRest(args, k);
    }
  }

  /** No name is merged twice. */
  lemma {:induction false} MergedNamesDistinct(args: seq<Symbol>)
    ensures forall i, j :: 0 <= i < j < |MergedNames(args)| ==> MergedNames(args)[i] != MergedNames(args)[j]
  {
    if args != [] {
      MergedNamesDistinct(args[1..]);
    }
  }

  lemma RestLastIndex(args: seq<Symbol>, k: string)
    requires args != [] && Named(args[1..], k)
    ensures Named(args, k) && LastIndex(args, k) == LastIndex(args[1..], k) + 1
  {
    NamedRest(args, k);
    var j := LastIndex(args[1..], k);
    assert args[j + 1].name == k;
  }

  /** Merged names come in decreasing order of their last argument. */
  lemma {:induction false} MergedNamesOrder(args: seq<Symbol>, i: nat, j: nat)
    requires i < j < |MergedNames(args)|
    ensures Named(args, MergedNames(args)[i]) && Named(args, MergedNames(args)[j])
    ensures LastIndex(args, MergedNames(args)[i]) > LastIndex(args, MergedNames(args)[j])
  {
    var ks := MergedNames(args);
    InMergedNames(args, ks[i]);
    InMergedNames(args, ks[j]);
    var rest := args[1..];
    var rs := MergedNames(rest);
    InMergedNames(rest, ks[i]);
    RestLastIndex(args, ks[i]);
    if j < |rs| {
      MergedNamesOrder(rest, i, j);
      RestLastIndex(args, ks[j]);
    } else {
      // ks[j] is the first argument's name, seen in no later argument
      assert ks[j] == args[0].name && ks[j] !in rs;
      InMergedNames(rest, ks[j]);
      assert LastIndex(args, ks[j]) == 0;
    }
  }

  /** `dict(ChainMap(*args))`: exactly the argument names, each once, with the value of the
      earliest argument that names it, ordered by the position of each name's last argument
      from the back. */
  lemma MergeSpec(args: seq<Symbol>)
    ensures forall i :: 0 <= i < |args| ==> exists j :: 0 <= j < |Merge(args)| && Merge(args)[j].name == args[i].name
    ensures forall j :: 0 <= j < |Merge(args)| ==>
              Named(args, Merge(args)[j].name) && Merge(args)[j].offset == Earliest(args, Merge(args)[j].name)
    ensures forall i, j :: 0 <= i < j < |Merge(args)| ==> Merge(args)[i].name != Merge(args)[j].name
    ensures forall i, j :: 0 <= i < j < |Merge(args)| ==>
              LastIndex(args, Merge(args)[i].name) > LastIndex(args, Merge(args)[j].name)
  {
    var q := Merge(args);
    var ks := MergedNames(args);
    MergedNamesDistinct(args);
    forall i | 0 <= i < |args| ensures exists j :: 0 <= j < |q| && q[j].name == args[i].name {
      InMergedNames(args, args[i].name);
      var j :| 0 <= j < |ks| && ks[j] == args[i].name;
      assert q[j].name == args[i].name;
    }
    forall j | 0 <= j < |q| ensures Named(args, q[j].name) && q[j].offset == Earliest(args, q[j].name) {
      InMergedNames(args, ks[j]);
    }
    forall i, j | 0 <= i < j < |q| ensures LastIndex(args, q[i].name) > LastIndex(args, q[j].name) {
      MergedNamesOrder(args, i, j);
    }
  }

  /** The earliest argument wins a duplicated name. */
  lemma EarliestIsFirst(args: seq<Symbol>, i: nat)
    requires i < |args|
    requires forall j :: 0 <= j < i ==> args[j].name != args[i].name
    ensures Named(args, args[i].name) && Earliest(args, args[i].name) == args[i].offset
  {
    if i > 0 {
      EarliestIsFirst(args[1..], i - 1);
    }
  }
}
