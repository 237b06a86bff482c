/** The MapReduce dataflow: partition by hash, group and reduce each partition,
    merge. It is a plain group-by. */
module MapReduce {
  import opened Sequences
  import Sorting

  datatype KeyValue = KeyValue(key: string, value: string)

  // ----- strings in Go's order

  predicate StringLe(a: string, b: string) {
    a == [] || (b != [] && (a[0] < b[0] || (a[0] == b[0] && StringLe(a[1..], b[1..]))))
  }

  predicate StringLt(a: string, b: string) {
    StringLe(a, b) && a != b
  }

  lemma {:induction false} LeTotal(a: string, b: string)
    ensures StringLe(a, b) || StringLe(b, a)
    ensures StringLe(a, b) && StringLe(b, a) ==> a == b
  {
    if a != [] && b != [] {
      LeTotal(a[1..], b[1..]);
      assert a == [a[0]] + a[1..] && b == [b[0]] + b[1..];
    }
  }

  lemma {:induction false} LeTransitive(a: string, b: string, c: string)
    requires StringLe(a, b) && StringLe(b, c)
    ensures StringLe(a, c)
  {
    if a != [] && a[0] == b[0] && b[0] == c[0] {
      LeTransitive(a[1..], b[1..], c[1..]);
    }
  }

  /** `a` is a proper beginning of `b`, or has the smaller character where they
      first differ. */
  lemma {:induction false} LtMeans(a: string, b: string)
    ensures StringLt(a, b) <==> a < b || exists i :: FirstDifference(a, b, i) && a[i] < b[i]
  {
    if a != [] && b != [] && a[0] == b[0] {
      hide FirstDifference;
      LtMeans(a[1..], b[1..]);
      SameFirst(a, b);
    } else if a != [] && b != [] {
      assert FirstDifference(a, b, 0);
    }
  }

  ghost predicate FirstDifference(a: string, b: string, i: int) {
    0 <= i < |a| && i < |b| && a[i] != b[i] && forall j | 0 <= j < i :: a[j] == b[j]
  }

  lemma SameFirst(a: string, b: string)
    requires a != [] && b != [] && a[0] == b[0]
    ensures StringLt(a, b) <==> StringLt(a[1..], b[1..])
    ensures a < b <==> a[1..] < b[1..]
    ensures (exists i :: FirstDifference(a, b, i) && a[i] < b[i]) <==>
            exists i :: FirstDifference(a[1..], b[1..], i) && a[1..][i] < b[1..][i]
  {
    var a', b' := a[1..], b[1..];
    assert a == [a[0]] + a' && b == [b[0]] + b';
    if i :| FirstDifference(a', b', i) && a'[i] < b'[i] {
      assert FirstDifference(a, b, i + 1) && a[i + 1] < b[i + 1];
    }
    if i :| FirstDifference(a, b, i) && a[i] < b[i] {
      assert FirstDifference(a', b', i - 1);
    }
  }

  lemma StringOrder()
    ensures Sorting.TotalOrder(StringLe)
  {
    forall a, b
      ensures StringLe(a, b) || StringLe(b, a)
    {
      LeTotal(a, b);
    }
    forall a, b, c | StringLe(a, b) && StringLe(b, c)
      ensures StringLe(a, c)
    {
      LeTransitive(a, b, c);
    }
  }

  function SortKeys(keys: seq<string>): seq<string> {
    Sorting.Sort(StringLe, keys)
  }

  // ----- group-by

  ghost function Concat(files: seq<seq<KeyValue>>): seq<KeyValue> {
    if files == [] then [] else Concat(files[..|files| - 1]) + files[|files| - 1]
  }

  ghost function Keys(kvs: seq<KeyValue>): set<string> {
    set kv | kv in kvs :: kv.key
  }

  /** The values of one key, in the order in which they were emitted. */
  ghost function ValuesOf(kvs: seq<KeyValue>, key: string): seq<string> {
    if kvs == [] then [] else
    ValuesOf(kvs[..|kvs| - 1], key) + if kvs[|kvs| - 1].key == key then [kvs[|kvs| - 1].value] else []
  }

  /** The positions at which a key was emitted, in order: its values are what
      stands there. */
  lemma {:induction false} WhereEmitted(kvs: seq<KeyValue>, key: string) returns (at: seq<nat>)
    ensures |at| == |ValuesOf(kvs, key)| && forall k, l | 0 <= k < l < |at| :: at[k] < at[l]
    ensures forall k | 0 <= k < |at| :: at[k] < |kvs| && kvs[at[k]] == KeyValue(key, ValuesOf(kvs, key)[k])
    ensures forall i: nat | i < |kvs| && kvs[i].key == key :: i in at
  {
    at := [];
    if kvs != [] {
      var n := |kvs| - 1;
      var before := WhereEmitted(kvs[..n], key);
      at := before + if kvs[n].key == key then [n] else [];
      forall i: nat | i < |kvs| && kvs[i].key == key
        ensures i in at
      {
        if i < n {
          assert kvs[..n][i].key == key && i in before;
        } else {
          assert at[|before|] == n;
        }
      }
    }
  }

  /** Files follow each other whole, in their order. */
  lemma {:induction false} WhereInFiles(files: seq<seq<KeyValue>>, f: nat)
    requires f < |files|
    ensures var start := |Concat(files[..f])|;
            start + |files[f]| <= |Concat(files)| && Concat(files)[start..start + |files[f]|] == files[f]
    ensures |Concat(files)| == |Concat(files[..|files| - 1])| + |files[|files| - 1]|
  {
    var n := |files| - 1;
    if f < n {
      WhereInFiles(files[..n], f);
      assert files[..n][..f] == files[..f];
      var start, end := |Concat(files[..f])|, |Concat(files[..f])| + |files[f]|;
      assert Concat(files)[start..end] == Concat(files[..n])[start..end];
    }
  }

  ghost predicate Increasing(out: seq<KeyValue>) {
    forall i, j | 0 <= i < j < |out| :: StringLt(out[i].key, out[j].key)
  }

  /** One line for each emitted key, in increasing order, reduced from its values. */
  ghost predicate IsGroupBy(out: seq<KeyValue>, kvs: seq<KeyValue>, reduceF: (string, seq<string>) -> string) {
    && Increasing(out)
    && Keys(out) == Keys(kvs)
    && forall i | 0 <= i < |out| :: out[i].value == reduceF(out[i].key, ValuesOf(kvs, out[i].key))
  }

  lemma {:induction false} IncreasingUnique(a: seq<KeyValue>, b: seq<KeyValue>)
    requires Increasing(a) && Increasing(b) && forall kv :: kv in a <==> kv in b
    ensures a == b
    decreases |a|
  {
    assert a != [] ==> a[0] in b;
    assert b != [] ==> b[0] in a;
    if a != [] {
      SameHead(a, b);
      Rest(a);
      Rest(b);
      IncreasingUnique(a[1..], b[1..]);
      assert a == [a[0]] + a[1..] && b == [b[0]] + b[1..];
    }
  }

  lemma Rest(a: seq<KeyValue>)
    requires Increasing(a) && a != []
    ensures forall kv :: kv in a[1..] <==> kv in a && kv != a[0]
  {
    forall kv | kv in a && kv != a[0]
      ensures kv in a[1..]
    {
      var i :| 0 <= i < |a| && a[i] == kv;
      assert a[1..][i - 1] == kv;
    }
  }

  lemma SameHead(a: seq<KeyValue>, b: seq<KeyValue>)
    requires Increasing(a) && Increasing(b) && a != [] && b != [] && a[0] in b && b[0] in a
    ensures a[0] == b[0]
  {
    var i :| 0 <= i < |b| && b[i] == a[0];
    var j :| 0 <= j < |a| && a[j] == b[0];
    if i > 0 && j > 0 {
      assert StringLt(b[0].key, b[i].key) && StringLt(a[0].key, a[j].key);
      LeTotal(a[0].key, b[0].key);
    }
  }

  /** There is only one such output. */
  lemma GroupByUnique(a: seq<KeyValue>, b: seq<KeyValue>, kvs: seq<KeyValue>, reduceF: (string, seq<string>) -> string)
    requires IsGroupBy(a, kvs, reduceF) && IsGroupBy(b, kvs, reduceF)
    ensures a == b
  {
    hide Increasing;
    forall kv
      ensures kv in a <==> kv in b
    {
      LineOf(a, kvs, reduceF, kv);
      LineOf(b, kvs, reduceF, kv);
    }
    IncreasingUnique(a, b);
  }

  lemma LineOf(out: seq<KeyValue>, kvs: seq<KeyValue>, reduceF: (string, seq<string>) -> string, kv: KeyValue)
    requires IsGroupBy(out, kvs, reduceF)
    ensures kv in out <==> kv.key in Keys(kvs) && kv.value == reduceF(kv.key, ValuesOf(kvs, kv.key))
  {
    if kv in out {
      assert kv.key in Keys(out);
    }
    if kv.key in Keys(kvs) {
      assert kv.key in Keys(out);
      var line :| line in out && line.key == kv.key;
    }
  }

  // ----- map

  ghost function Part(kvs: seq<KeyValue>, ihash: string -> nat, nReduce: nat, r: nat): seq<KeyValue>
    requires nReduce > 0
  {
    if kvs == [] then [] else
    Part(kvs[..|kvs| - 1], ihash, nReduce, r) +
    if ihash(kvs[|kvs| - 1].key) % nReduce == r then [kvs[|kvs| - 1]] else []
  }

  /** The pairs of one input, by the reduce task their key hashes to. */
  method DoMap(keyValueRet: seq<KeyValue>, nReduce: nat, ihash: string -> nat) returns (kvList: seq<seq<KeyValue>>)
    requires nReduce > 0
    ensures |kvList| == nReduce
    ensures forall r: nat | r < nReduce :: kvList[r] == Part(keyValueRet, ihash, nReduce, r)
  {
    kvList := seq(nReduce, _ => []);
    for i := 0 to |keyValueRet|
      invariant |kvList| == nReduce
      invariant forall r: nat | r < nReduce :: kvList[r] == Part(keyValueRet[..i], ihash, nReduce, r)
    {
      var val := keyValueRet[i];
      var fileind := ihash(val.key) % nReduce;
      kvList := kvList[fileind := kvList[fileind] + [val]];
      assert keyValueRet[..i + 1][..i] == keyValueRet[..i];
    }
    assert keyValueRet[..|keyValueRet|] == keyValueRet;
  }

  // ----- reduce

  ghost predicate Grouped(keys: seq<string>, all: map<string, seq<string>>, kvs: seq<KeyValue>) {
    && Distinct(keys)
    && (forall key :: key in keys <==> key in all)
    && all.Keys == Keys(kvs)
    && forall key | key in all :: all[key] == ValuesOf(kvs, key)
  }

  lemma KeysMore(kvs: seq<KeyValue>, kv: KeyValue)
    ensures Keys(kvs + [kv]) == Keys(kvs) + {kv.key}
  {
    assert kv in kvs + [kv];
    assert forall x :: x in kvs + [kv] <==> x in kvs || x == kv;
  }

  lemma ValuesMore(kvs: seq<KeyValue>, kv: KeyValue, key: string)
    ensures ValuesOf(kvs + [kv], key) == ValuesOf(kvs, key) + if kv.key == key then [kv.value] else []
  {
    assert (kvs + [kv])[..|kvs|] == kvs;
  }

  lemma {:induction false} NoValues(kvs: seq<KeyValue>, key: string)
    requires key !in Keys(kvs)
    ensures ValuesOf(kvs, key) == []
  {
    if kvs != [] {
      var n := |kvs| - 1;
      assert kvs == kvs[..n] + [kvs[n]];
      KeysMore(kvs[..n], kvs[n]);
      NoValues(kvs[..n], key);
    }
  }

  /** One pair read. */
  method Collect(keys: seq<string>, all: map<string, seq<string>>, kv: KeyValue, ghost kvs: seq<KeyValue>)
    returns (keys': seq<string>, all': map<string, seq<string>>)
    requires Grouped(keys, all, kvs)
    ensures Grouped(keys', all', kvs + [kv])
  {
    hide Grouped;
    GroupedMore(keys, all, kv, kvs);
    keys', all' := keys, all;
    if kv.key !in all {
      keys' := keys + [kv.key];
      all' := all[kv.key := [kv.value]];
    } else {
      all' := all[kv.key := all[kv.key] + [kv.value]];
    }
  }

  lemma GroupedMore(keys: seq<string>, all: map<string, seq<string>>, kv: KeyValue, kvs: seq<KeyValue>)
    requires Grouped(keys, all, kvs)
    ensures if kv.key !in all
            then Grouped(keys + [kv.key], all[kv.key := [kv.value]], kvs + [kv])
            else Grouped(keys, all[kv.key := all[kv.key] + [kv.value]], kvs + [kv])
  {
    hide Keys, ValuesOf;
    KeysMore(kvs, kv);
    if kv.key !in all {
      NoValues(kvs, kv.key);
    }
    forall key
      ensures ValuesOf(kvs + [kv], key) == ValuesOf(kvs, key) + if kv.key == key then [kv.value] else []
    {
      ValuesMore(kvs, kv, key);
    }
  }

  /** The files of one reduce task, grouped by key and reduced in key order. */
  method DoReduce(files: seq<seq<KeyValue>>, reduceF: (string, seq<string>) -> string) returns (out: seq<KeyValue>)
    ensures IsGroupBy(out, Concat(files), reduceF)
  {
    hide Grouped, Keys, ValuesOf, Increasing;
    var keys: seq<string> := [];
    var all: map<string, seq<string>> := map[];
    NothingGrouped();
    for nmap := 0 to |files|
      invariant Grouped(keys, all, Concat(files[..nmap]))
    {
      var kvList := files[nmap];
      assert Concat(files[..nmap]) + kvList[..0] == Concat(files[..nmap]);
      for i := 0 to |kvList|
        invariant Grouped(keys, all, Concat(files[..nmap]) + kvList[..i])
      {
        ghost var kvs := Concat(files[..nmap]) + kvList[..i];
        keys, all := Collect(keys, all, kvList[i], kvs);
        assert kvs + [kvList[i]] == Concat(files[..nmap]) + kvList[..i + 1];
      }
      assert files[..nmap + 1][..nmap] == files[..nmap] && kvList[..|kvList|] == kvList;
    }
    assert files[..|files|] == files;
    out := Emit(keys, all, Concat(files), reduceF);
  }

  lemma NothingGrouped()
    ensures Grouped([], map[], [])
  {
  }

  /** The reduced lines, keys sorted. */
  method Emit(keys: seq<string>, all: map<string, seq<string>>, ghost kvs: seq<KeyValue>,
              reduceF: (string, seq<string>) -> string) returns (out: seq<KeyValue>)
    requires Grouped(keys, all, kvs)
    ensures IsGroupBy(out, kvs, reduceF)
  {
    hide *;
    var sorted := SortKeys(keys);
    SortedGroups(keys, all, kvs);
    out := [];
    for i := 0 to |sorted|
      invariant |out| == i
      invariant forall k | 0 <= k < i :: out[k] == KeyValue(sorted[k], reduceF(sorted[k], ValuesOf(kvs, sorted[k])))
    {
      out := out + [KeyValue(sorted[i], reduceF(sorted[i], all[sorted[i]]))];
    }
    LinesAreGroupBy(out, sorted, kvs, reduceF);
  }

  lemma SortedGroups(keys: seq<string>, all: map<string, seq<string>>, kvs: seq<KeyValue>)
    requires Grouped(keys, all, kvs)
    ensures var sorted := SortKeys(keys);
            && (forall i | 0 <= i < |sorted| :: sorted[i] in all && all[sorted[i]] == ValuesOf(kvs, sorted[i]))
            && (forall i, j | 0 <= i < j < |sorted| :: StringLt(sorted[i], sorted[j]))
            && forall key :: key in sorted <==> key in Keys(kvs)
  {
    hide SortKeys, StringLt, ValuesOf;
    SortedKeys(keys);
    var sorted := SortKeys(keys);
    forall i | 0 <= i < |sorted|
      ensures sorted[i] in all
    {
      assert sorted[i] in sorted;
    }
  }

  lemma LinesAreGroupBy(out: seq<KeyValue>, sorted: seq<string>, kvs: seq<KeyValue>,
                        reduceF: (string, seq<string>) -> string)
    requires |out| == |sorted|
    requires forall k | 0 <= k < |out| :: out[k] == KeyValue(sorted[k], reduceF(sorted[k], ValuesOf(kvs, sorted[k])))
    requires forall i, j | 0 <= i < j < |sorted| :: StringLt(sorted[i], sorted[j])
    requires forall key :: key in sorted <==> key in Keys(kvs)
    ensures IsGroupBy(out, kvs, reduceF)
  {
    hide ValuesOf, StringLt;
    forall key
      ensures key in Keys(out) <==> key in sorted
    {
      if key in sorted {
        var k :| 0 <= k < |sorted| && sorted[k] == key;
        assert out[k] in out;
      }
    }
  }

  /** Sorting distinct keys gives them in strictly increasing order. */
  lemma SortedKeys(keys: seq<string>)
    requires Distinct(keys)
    ensures var sorted := SortKeys(keys);
            && (forall key :: key in sorted <==> key in keys)
            && forall i, j | 0 <= i < j < |sorted| :: StringLt(sorted[i], sorted[j])
  {
    var sorted := SortKeys(keys);
    StringOrder();
    Sorting.SortIsSorted(StringLe, keys);
    forall key
      ensures key in sorted <==> key in keys
    {
      assert key in sorted <==> key in multiset(sorted);
      assert key in keys <==> key in multiset(keys);
    }
    DistinctCount(keys);
    DistinctCount(sorted);
  }

  // ----- merge

  /** When a key occurs more than once, the last value is kept. */
  function LastOf(key: string, values: seq<string>): string {
    if values == [] then "" else values[|values| - 1]
  }

  ghost predicate HasLast(m: map<string, string>, kvs: seq<KeyValue>) {
    m.Keys == Keys(kvs) && forall key | key in m :: m[key] == LastOf(key, ValuesOf(kvs, key))
  }

  lemma SetLast(m: map<string, string>, kvs: seq<KeyValue>, kv: KeyValue)
    requires HasLast(m, kvs)
    ensures HasLast(m[kv.key := kv.value], kvs + [kv])
  {
    hide Keys, ValuesOf;
    KeysMore(kvs, kv);
    forall key | key in m[kv.key := kv.value]
      ensures m[kv.key := kv.value][key] == LastOf(key, ValuesOf(kvs + [kv], key))
    {
      ValuesMore(kvs, kv, key);
    }
  }

  method ReadOutputs(outs: seq<seq<KeyValue>>) returns (kvs: map<string, string>)
    ensures HasLast(kvs, Concat(outs))
  {
    hide HasLast, Keys;
    kvs := map[];
    NothingRead();
    for i := 0 to |outs|
      invariant HasLast(kvs, Concat(outs[..i]))
    {
      var file := outs[i];
      assert Concat(outs[..i]) + file[..0] == Concat(outs[..i]);
      for j := 0 to |file|
        invariant HasLast(kvs, Concat(outs[..i]) + file[..j])
      {
        SetLast(kvs, Concat(outs[..i]) + file[..j], file[j]);
        kvs := kvs[file[j].key := file[j].value];
        assert Concat(outs[..i]) + file[..j] + [file[j]] == Concat(outs[..i]) + file[..j + 1];
      }
      assert outs[..i + 1][..i] == outs[..i] && file[..|file|] == file;
    }
    assert outs[..|outs|] == outs;
  }

  lemma NothingRead()
    ensures HasLast(map[], [])
  {
  }

  /** The keys of a map, in no particular order. */
  method ListKeys(kvs: map<string, string>) returns (keys: seq<string>)
    ensures Distinct(keys) && forall key :: key in keys <==> key in kvs
  {
    keys := [];
    var rest := kvs.Keys;
    while rest != {}
      invariant Distinct(keys) && rest <= kvs.Keys
      invariant forall key :: key in keys <==> key in kvs && key !in rest
    {
      var k :| k in rest;
      keys := keys + [k];
      rest := rest - {k};
    }
  }

  method Merge(outs: seq<seq<KeyValue>>) returns (lines: seq<KeyValue>)
    ensures IsGroupBy(lines, Concat(outs), LastOf)
    ensures forall i | 0 <= i < |lines| :: IsLast(Concat(outs), lines[i])
  {
    hide IsLast, Keys, ValuesOf, Concat, IsGroupBy, LastOf, StringLt, SortKeys;
    var kvs := ReadOutputs(outs);
    var keys := ListKeys(kvs);
    var sorted := SortKeys(keys);
    SortedKeys(keys);
    lines := [];
    for i := 0 to |sorted|
      invariant |lines| == i
      invariant forall k | 0 <= k < i :: lines[k] == KeyValue(sorted[k], LastOf(sorted[k], ValuesOf(Concat(outs), sorted[k])))
    {
      assert sorted[i] in sorted;
      lines := lines + [KeyValue(sorted[i], kvs[sorted[i]])];
    }
    LinesAreGroupBy(lines, sorted, Concat(outs), LastOf);
    forall k | 0 <= k < |lines|
      ensures IsLast(Concat(outs), lines[k])
    {
      assert sorted[k] in sorted;
      LastIs(Concat(outs), sorted[k]);
    }
  }

  /** The line occurs, and no later line has its key. */
  ghost predicate IsLast(kvs: seq<KeyValue>, kv: KeyValue) {
    exists i :: 0 <= i < |kvs| && kvs[i] == kv && forall j | i < j < |kvs| :: kvs[j].key != kv.key
  }

  lemma LastIs(kvs: seq<KeyValue>, key: string)
    requires key in Keys(kvs)
    ensures IsLast(kvs, KeyValue(key, LastOf(key, ValuesOf(kvs, key))))
  {
    hide ValuesOf, Keys;
    var at := WhereEmitted(kvs, key);
    EmittedSomewhere(kvs, key, at);
    var i := at[|at| - 1];
    assert kvs[i] == KeyValue(key, LastOf(key, ValuesOf(kvs, key)));
    forall j: nat | i < j < |kvs|
      ensures kvs[j].key != key
    {
      assert j !in at;
    }
  }

  lemma EmittedSomewhere(kvs: seq<KeyValue>, key: string, at: seq<nat>)
    requires key in Keys(kvs) && forall i: nat | i < |kvs| && kvs[i].key == key :: i in at
    ensures at != []
  {
    var kv :| kv in kvs && kv.key == key;
    var e: nat :| e < |kvs| && kvs[e] == kv;
    assert e in at;
  }

  // ----- the pipeline

  lemma {:induction false} ValuesConcat(a: seq<KeyValue>, b: seq<KeyValue>, key: string)
    ensures ValuesOf(a + b, key) == ValuesOf(a, key) + ValuesOf(b, key)
  {
    if b == [] {
      assert a + b == a;
    } else {
      hide ValuesOf;
      var n := |b| - 1;
      ValuesConcat(a, b[..n], key);
      ValuesMore(b[..n], b[n], key);
      ValuesMore(a + b[..n], b[n], key);
      SplitLast(a, b);
      Associates(ValuesOf(a, key), ValuesOf(b[..n], key), if b[n].key == key then [b[n].value] else []);
    }
  }

  lemma SplitLast<T>(a: seq<T>, b: seq<T>)
    requires b != []
    ensures var n := |b| - 1; b[..n] + [b[n]] == b && (a + b[..n]) + [b[n]] == a + b
  {
  }

  lemma Associates<T>(x: seq<T>, y: seq<T>, z: seq<T>)
    ensures (x + y) + z == x + (y + z)
  {
  }

  lemma {:induction false} ValuesOfPart(kvs: seq<KeyValue>, ihash: string -> nat, nReduce: nat, r: nat, key: string)
    requires nReduce > 0
    ensures ValuesOf(Part(kvs, ihash, nReduce, r), key) == if ihash(key) % nReduce == r then ValuesOf(kvs, key) else []
  {
    if kvs != [] {
      var n := |kvs| - 1;
      ValuesOfPart(kvs[..n], ihash, nReduce, r, key);
      ValuesMore(Part(kvs[..n], ihash, nReduce, r), kvs[n], key);
      assert Part(kvs[..n], ihash, nReduce, r) + [] == Part(kvs[..n], ihash, nReduce, r);
    }
  }

  /** The files that reduce task `r` reads. */
  ghost predicate FilesOf(files: seq<seq<KeyValue>>, emitted: seq<seq<KeyValue>>, ihash: string -> nat, nReduce: nat, r: nat)
    requires nReduce > 0
  {
    |files| == |emitted| && forall m | 0 <= m < |files| :: files[m] == Part(emitted[m], ihash, nReduce, r)
  }

  lemma {:induction false} ValuesOfFiles(
    files: seq<seq<KeyValue>>, emitted: seq<seq<KeyValue>>, ihash: string -> nat, nReduce: nat, r: nat, key: string)
    requires nReduce > 0 && FilesOf(files, emitted, ihash, nReduce, r)
    ensures ValuesOf(Concat(files), key) == if ihash(key) % nReduce == r then ValuesOf(Concat(emitted), key) else []
  {
    if files != [] {
      var n := |files| - 1;
      ValuesOfFiles(files[..n], emitted[..n], ihash, nReduce, r, key);
      ValuesOfPart(emitted[n], ihash, nReduce, r, key);
      ValuesConcat(Concat(files[..n]), files[n], key);
      ValuesConcat(Concat(emitted[..n]), emitted[n], key);
    }
  }

  lemma {:induction false} KeyHasValues(kvs: seq<KeyValue>, key: string)
    ensures key in Keys(kvs) <==> ValuesOf(kvs, key) != []
  {
    if kvs != [] {
      var n := |kvs| - 1;
      assert kvs == kvs[..n] + [kvs[n]];
      KeysMore(kvs[..n], kvs[n]);
      KeyHasValues(kvs[..n], key);
    }
  }

  lemma {:induction false} OneLine(out: seq<KeyValue>, key: string)
    requires Increasing(out)
    ensures |ValuesOf(out, key)| <= 1
    ensures forall kv | kv in out && kv.key == key :: ValuesOf(out, key) == [kv.value]
  {
    if out != [] {
      var n := |out| - 1;
      OneLine(out[..n], key);
      if out[n].key == key {
        assert key !in Keys(out[..n]);
        NoValues(out[..n], key);
      }
    }
  }

  /** What reduce task `r` writes for one key. */
  lemma LineOfTask(out: seq<KeyValue>, kvs: seq<KeyValue>, reduceF: (string, seq<string>) -> string, key: string)
    requires IsGroupBy(out, kvs, reduceF)
    ensures ValuesOf(out, key) == if ValuesOf(kvs, key) == [] then [] else [reduceF(key, ValuesOf(kvs, key))]
  {
    KeyHasValues(kvs, key);
    KeyHasValues(out, key);
    OneLine(out, key);
    if key in Keys(kvs) {
      assert key in Keys(out);
      var kv :| kv in out && kv.key == key;
      LineOf(out, kvs, reduceF, kv);
    }
  }

  lemma {:induction false} ValuesOfOutputs(
    outs: seq<seq<KeyValue>>, n: nat, emitted: seq<seq<KeyValue>>, ihash: string -> nat, nReduce: nat,
    reduceF: (string, seq<string>) -> string, key: string)
    requires nReduce > 0 && n <= |outs|
    requires forall r: nat | r < |outs| :: OutputOf(outs[r], emitted, ihash, nReduce, r, reduceF)
    ensures var values := ValuesOf(Concat(emitted), key);
            ValuesOf(Concat(outs[..n]), key) ==
              if values != [] && ihash(key) % nReduce < n then [reduceF(key, values)] else []
  {
    hide IsGroupBy, Part, ValuesOf, Concat, FilesOf;
    if n == 0 {
      NoOutputs(key);
    } else {
      ValuesOfOutputs(outs, n - 1, emitted, ihash, nReduce, reduceF, key);
      ConcatLast(outs, n);
      ValuesConcat(Concat(outs[..n - 1]), outs[n - 1], key);
      assert OutputOf(outs[n - 1], emitted, ihash, nReduce, n - 1, reduceF);
      var files :| FilesOf(files, emitted, ihash, nReduce, n - 1) && IsGroupBy(outs[n - 1], Concat(files), reduceF);
      ValuesOfFiles(files, emitted, ihash, nReduce, n - 1, key);
      LineOfTask(outs[n - 1], Concat(files), reduceF, key);
    }
  }

  lemma NoOutputs(key: string)
    ensures ValuesOf(Concat([]), key) == []
  {
  }

  lemma ConcatLast(outs: seq<seq<KeyValue>>, n: nat)
    requires 0 < n <= |outs|
    ensures Concat(outs[..n]) == Concat(outs[..n - 1]) + outs[n - 1]
  {
    assert outs[..n][..n - 1] == outs[..n - 1];
  }

  /** `out` is what reduce task `r` makes of its files. */
  ghost predicate OutputOf(
    out: seq<KeyValue>, emitted: seq<seq<KeyValue>>, ihash: string -> nat, nReduce: nat, r: nat,
    reduceF: (string, seq<string>) -> string)
    requires nReduce > 0
  {
    exists files :: FilesOf(files, emitted, ihash, nReduce, r) && IsGroupBy(out, Concat(files), reduceF)
  }

  /** The merged outputs are the group-by of everything emitted, whatever the
      hash and the number of reduce tasks. */
  lemma PipelineIsGroupBy(
    lines: seq<KeyValue>, outs: seq<seq<KeyValue>>, emitted: seq<seq<KeyValue>>, ihash: string -> nat, nReduce: nat,
    reduceF: (string, seq<string>) -> string)
    requires nReduce > 0 && |outs| == nReduce
    requires forall r: nat | r < nReduce :: OutputOf(outs[r], emitted, ihash, nReduce, r, reduceF)
    requires IsGroupBy(lines, Concat(outs), LastOf)
    ensures IsGroupBy(lines, Concat(emitted), reduceF)
  {
    hide Keys, ValuesOf, Concat, OutputOf, Increasing;
    forall key
      ensures var values := ValuesOf(Concat(emitted), key);
              ValuesOf(Concat(outs), key) == if values != [] then [reduceF(key, values)] else []
      ensures key in Keys(Concat(outs)) <==> key in Keys(Concat(emitted))
      ensures key in Keys(Concat(outs)) <==> ValuesOf(Concat(emitted), key) != []
    {
      ValuesOfOutputs(outs, nReduce, emitted, ihash, nReduce, reduceF, key);
      assert outs[..nReduce] == outs;
      KeyHasValues(Concat(outs), key);
      KeyHasValues(Concat(emitted), key);
    }
    assert Keys(Concat(outs)) == Keys(Concat(emitted));
    forall i | 0 <= i < |lines|
      ensures lines[i].value == reduceF(lines[i].key, ValuesOf(Concat(emitted), lines[i].key))
    {
      KeyOfLine(lines, i);
    }
  }

  lemma KeyOfLine(lines: seq<KeyValue>, i: nat)
    requires i < |lines|
    ensures lines[i].key in Keys(lines)
  {
  }

  /** The intermediate files: one row for each map task, one column for each reduce task. */
  method MapPhase(emitted: seq<seq<KeyValue>>, nReduce: nat, ihash: string -> nat)
    returns (rows: seq<seq<seq<KeyValue>>>)
    requires nReduce > 0
    ensures |rows| == |emitted|
    ensures forall m | 0 <= m < |rows| :: |rows[m]| == nReduce
    ensures forall m, r: nat | 0 <= m < |rows| && r < nReduce :: rows[m][r] == Part(emitted[m], ihash, nReduce, r)
  {
    hide Part;
    rows := [];
    for m := 0 to |emitted|
      invariant |rows| == m
      invariant forall k | 0 <= k < m :: |rows[k]| == nReduce
      invariant forall k, r: nat | 0 <= k < m && r < nReduce :: rows[k][r] == Part(emitted[k], ihash, nReduce, r)
    {
      var row := DoMap(emitted[m], nReduce, ihash);
      rows := rows + [row];
    }
  }

  /** A whole job, from what the map function emitted for each input file to the
      merged output: the group-by of everything emitted. */
  method Sequential(emitted: seq<seq<KeyValue>>, nReduce: nat, ihash: string -> nat,
                    reduceF: (string, seq<string>) -> string) returns (lines: seq<KeyValue>)
    requires nReduce > 0
    ensures IsGroupBy(lines, Concat(emitted), reduceF)
  {
    hide Part, IsGroupBy, Concat;
    var rows := MapPhase(emitted, nReduce, ihash);
    var outs: seq<seq<KeyValue>> := [];
    for r := 0 to nReduce
      invariant |outs| == r
      invariant forall k: nat | k < r :: OutputOf(outs[k], emitted, ihash, nReduce, k, reduceF)
    {
      var files := seq(|rows|, m requires 0 <= m < |rows| => rows[m][r]);
      var out := DoReduce(files, reduceF);
      assert FilesOf(files, emitted, ihash, nReduce, r);
      assert OutputOf(out, emitted, ihash, nReduce, r, reduceF);
      outs := outs + [out];
    }
    lines := Merge(outs);
    PipelineIsGroupBy(lines, outs, emitted, ihash, nReduce, reduceF);
  }
}
