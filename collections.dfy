/** The containers the pipeline builds: Python dicts (which keep their keys in
    insertion order), filled either by plain assignment `d[k] = v` (the last
    write wins, the key keeps its first position) or by "insert unless already
    present" (the first write wins); a `defaultdict(set)` multimap; and the
    sorted, duplicate-free lists that `sorted(list(s))` makes of a set of
    strings. */
module Collections {
  import opened Text

  datatype Option<T> = None | Some(value: T)

  /** A dict with string keys: its keys in insertion order, and its mapping. */
  datatype OrderedMap<V> = OrderedMap(keys: seq<string>, entries: map<string, V>) {
    /** Each key is listed once, and the listed keys are those of the mapping. */
    ghost predicate Valid() {
      && (forall i, j :: 0 <= i < j < |keys| ==> keys[i] != keys[j])
      && (forall k :: k in entries <==> k in keys)
    }
  }

  function EmptyMap<V>(): (m: OrderedMap<V>)
    ensures m.Valid() && m.keys == []
  {
    OrderedMap([], map[])
  }

  // ---------------------------------------------------------------------
  // Filling a dict from a sequence of (key, value) writes.

  /** The dict left by writing each pair in turn, skipping a key that is
      already present (`if k in d: continue; d[k] = v`). */
  function InsertFirst<V>(kvs: seq<(string, V)>): (m: OrderedMap<V>)
    ensures m.Valid()
  {
    if kvs == [] then EmptyMap()
    else
      var m := InsertFirst(kvs[..|kvs| - 1]);
      var (k, v) := kvs[|kvs| - 1];
      if k in m.entries then m else OrderedMap(m.keys + [k], m.entries[k := v])
  }

  /** The dict left by `d[k] = v` for each pair in turn. */
  function AssignAll<V>(kvs: seq<(string, V)>): (m: OrderedMap<V>)
    ensures m.Valid()
  {
    if kvs == [] then EmptyMap()
    else
      var m := AssignAll(kvs[..|kvs| - 1]);
      var (k, v) := kvs[|kvs| - 1];
      OrderedMap(if k in m.entries then m.keys else m.keys + [k], m.entries[k := v])
  }

  /** One optional write on a dict filled by "insert unless present". */
  function InsertStep<V>(m: OrderedMap<V>, w: Option<(string, V)>): OrderedMap<V> {
    match w
    case None => m
    case Some(kv) => if kv.0 in m.entries then m else OrderedMap(m.keys + [kv.0], m.entries[kv.0 := kv.1])
  }

  /** One optional write on a dict filled by plain assignment. */
  function AssignStep<V>(m: OrderedMap<V>, w: Option<(string, V)>): OrderedMap<V> {
    match w
    case None => m
    case Some(kv) => OrderedMap(if kv.0 in m.entries then m.keys else m.keys + [kv.0], m.entries[kv.0 := kv.1])
  }

  /** One optional write on a `defaultdict(set)`. */
  function CollectStep(m: map<string, set<string>>, w: Option<(string, string)>): map<string, set<string>> {
    match w
    case None => m
    case Some(kv) => AddTo(m, kv.0, kv.1)
  }

  /** What one optional assignment does to the keys and values. */
  lemma {:induction false} AssignStepKey<V>(m: OrderedMap<V>, w: Option<(string, V)>, k: string)
    ensures k in AssignStep(m, w).entries <==> k in m.entries || (w.Some? && w.value.0 == k)
    ensures w.Some? && w.value.0 == k ==> AssignStep(m, w).entries[k] == w.value.1
    ensures !(w.Some? && w.value.0 == k) && k in m.entries ==> AssignStep(m, w).entries[k] == m.entries[k]
  {
  }

  /** One more write on top of "insert unless present". */
  lemma {:induction false} InsertFirstSnoc<V>(kvs: seq<(string, V)>, k: string, v: V)
    ensures var m := InsertFirst(kvs);
      InsertFirst(kvs + [(k, v)]) == if k in m.entries then m else OrderedMap(m.keys + [k], m.entries[k := v])
  {
    assert (kvs + [(k, v)])[..|kvs|] == kvs;
  }

  /** One more write on top of plain assignment. */
  lemma {:induction false} AssignAllSnoc<V>(kvs: seq<(string, V)>, k: string, v: V)
    ensures var m := AssignAll(kvs);
      AssignAll(kvs + [(k, v)]) == OrderedMap(if k in m.entries then m.keys else m.keys + [k], m.entries[k := v])
  {
    assert (kvs + [(k, v)])[..|kvs|] == kvs;
  }

  /** Some pair of `kvs` writes key `k`. */
  predicate Written<V>(kvs: seq<(string, V)>, k: string) {
    exists i :: 0 <= i < |kvs| && kvs[i].0 == k
  }

  /** A key is in the dict exactly when some pair writes it. */
  lemma {:induction false} InsertFirstKeys<V>(kvs: seq<(string, V)>, k: string)
    ensures k in InsertFirst(kvs).entries <==> Written(kvs, k)
  {
    if kvs != [] {
      var init := kvs[..|kvs| - 1];
      InsertFirstKeys(init, k);
      if Written(init, k) {
        var i :| 0 <= i < |init| && init[i].0 == k;
        assert kvs[i].0 == k;
      }
      if Written(kvs, k) && kvs[|kvs| - 1].0 != k {
        var i :| 0 <= i < |kvs| && kvs[i].0 == k;
        assert init[i].0 == k;
      }
    }
  }

  /** The pair that writes a key first is the one whose value the dict keeps. */
  lemma {:induction false} InsertFirstKeepsEarliest<V>(kvs: seq<(string, V)>, i: nat)
    requires i < |kvs|
    requires forall j :: 0 <= j < i ==> kvs[j].0 != kvs[i].0
    ensures kvs[i].0 in InsertFirst(kvs).entries
    ensures InsertFirst(kvs).entries[kvs[i].0] == kvs[i].1
    decreases |kvs|
  {
    var init := kvs[..|kvs| - 1];
    if i == |kvs| - 1 {
      InsertFirstKeys(init, kvs[i].0);
    } else {
      assert init[i] == kvs[i];
      InsertFirstKeepsEarliest(init, i);
    }
  }

  /** Every value in the dict is the value of the first pair that writes its
      key. */
  lemma {:induction false} InsertFirstValueSource<V>(kvs: seq<(string, V)>, k: string)
    requires k in InsertFirst(kvs).entries
    ensures exists i :: (0 <= i < |kvs| && kvs[i] == (k, InsertFirst(kvs).entries[k])
      && forall j :: 0 <= j < i ==> kvs[j].0 != k)
  {
    InsertFirstKeys(kvs, k);
    var i := FirstWrite(kvs, k);
    InsertFirstKeepsEarliest(kvs, i);
  }

  /** The index of the first pair that writes `k`. */
  function FirstWrite<V>(kvs: seq<(string, V)>, k: string): (i: nat)
    requires Written(kvs, k)
    ensures i < |kvs| && kvs[i].0 == k
    ensures forall j :: 0 <= j < i ==> kvs[j].0 != k
  {
    if kvs[0].0 == k then 0
    else
      assert Written(kvs[1..], k) by {
        var i :| 0 <= i < |kvs| && kvs[i].0 == k;
        assert kvs[1..][i - 1].0 == k;
      }
      1 + FirstWrite(kvs[1..], k)
  }

  /** Keys are listed in the order in which they are first written. */
  lemma {:induction false} InsertFirstKeyOrder<V>(kvs: seq<(string, V)>, a: nat, b: nat)
    requires a < b < |InsertFirst(kvs).keys|
    ensures var keys := InsertFirst(kvs).keys;
      Written(kvs, keys[a]) && Written(kvs, keys[b])
      && FirstWrite(kvs, keys[a]) < FirstWrite(kvs, keys[b])
  {
    var keys := InsertFirst(kvs).keys;
    var init := kvs[..|kvs| - 1];
    var prev := InsertFirst(init);
    assert keys[a] in InsertFirst(kvs).entries && keys[b] in InsertFirst(kvs).entries;
    InsertFirstKeys(kvs, keys[a]);
    InsertFirstKeys(kvs, keys[b]);
    FirstWriteOfPrefix(kvs, keys[a]);
    FirstWriteOfPrefix(kvs, keys[b]);
    if b < |prev.keys| {
      InsertFirstKeyOrder(init, a, b);
    } else {
      // keys[b] is the key written by the last pair, new to `prev`
      assert keys[a] == prev.keys[a] && keys[a] in prev.entries;
      InsertFirstKeys(init, keys[a]);
      InsertFirstKeys(init, keys[b]);
    }
  }

  /** First writes that already happen in all but the last pair stay put. */
  lemma {:induction false} FirstWriteOfPrefix<V>(kvs: seq<(string, V)>, k: string)
    requires Written(kvs, k) && kvs != []
    ensures var init := kvs[..|kvs| - 1];
      (Written(init, k) ==> FirstWrite(init, k) == FirstWrite(kvs, k))
      && (!Written(init, k) ==> FirstWrite(kvs, k) == |kvs| - 1)
  {
    var init := kvs[..|kvs| - 1];
    var i := FirstWrite(kvs, k);
    if Written(init, k) {
      var j := FirstWrite(init, k);
      assert kvs[j].0 == k;
    }
  }

  /** Plain assignment lists keys in the same order as "insert unless present". */
  lemma {:induction false} AssignAllKeys<V>(kvs: seq<(string, V)>)
    ensures AssignAll(kvs).keys == InsertFirst(kvs).keys
    ensures AssignAll(kvs).entries.Keys == InsertFirst(kvs).entries.Keys
  {
    if kvs != [] {
      AssignAllKeys(kvs[..|kvs| - 1]);
    }
  }

  /** The pair that writes a key last is the one whose value the dict keeps. */
  lemma {:induction false} AssignAllKeepsLatest<V>(kvs: seq<(string, V)>, i: nat)
    requires i < |kvs|
    requires forall j :: i < j < |kvs| ==> kvs[j].0 != kvs[i].0
    ensures kvs[i].0 in AssignAll(kvs).entries
    ensures AssignAll(kvs).entries[kvs[i].0] == kvs[i].1
    decreases |kvs|
  {
    if i < |kvs| - 1 {
      var init := kvs[..|kvs| - 1];
      assert init[i] == kvs[i];
      AssignAllKeepsLatest(init, i);
    }
  }

  /** Every value in the dict is the value of the last pair that writes its
      key. */
  lemma {:induction false} AssignAllValueSource<V>(kvs: seq<(string, V)>, k: string) returns (i: nat)
    requires k in AssignAll(kvs).entries
    ensures i < |kvs| && kvs[i] == (k, AssignAll(kvs).entries[k])
    ensures forall j :: i < j < |kvs| ==> kvs[j].0 != k
  {
    AssignAllLast(kvs, k);
    var n := |kvs| - 1;
    var init := kvs[..n];
    if kvs[n].0 != k {
      i := AssignAllValueSource(init, k);
      LaterPairsMissKey(kvs, init, k, AssignAll(kvs).entries[k], i);
    } else {
      i := n;
    }
  }

  /** The last pair is the last assignment: it alone can change the value
      of `k` from the one the earlier pairs leave. */
  lemma {:induction false} AssignAllLast<V>(kvs: seq<(string, V)>, k: string)
    requires k in AssignAll(kvs).entries
    ensures kvs != []
    ensures kvs[|kvs| - 1].0 == k ==> AssignAll(kvs).entries[k] == kvs[|kvs| - 1].1
    ensures kvs[|kvs| - 1].0 != k ==>
      k in AssignAll(kvs[..|kvs| - 1]).entries && AssignAll(kvs).entries[k] == AssignAll(kvs[..|kvs| - 1]).entries[k]
  {
  }

  /** A pair of the first `|kvs| - 1` that no later one of them overwrites
      stays the latest when the last pair writes another key. */
  lemma {:induction false} LaterPairsMissKey<V>(kvs: seq<(string, V)>, init: seq<(string, V)>, k: string, v: V, i: nat)
    requires kvs != [] && init == kvs[..|kvs| - 1] && kvs[|kvs| - 1].0 != k
    requires i < |init| && init[i] == (k, v)
    requires forall j :: i < j < |init| ==> init[j].0 != k
    ensures i < |kvs| && kvs[i] == (k, v)
    ensures forall j :: i < j < |kvs| ==> kvs[j].0 != k
  {
    assert kvs[i] == init[i];
    forall j | i < j < |kvs| ensures kvs[j].0 != k {
      if j < |init| { assert kvs[j] == init[j]; }
    }
  }

  /** A key is in the dict exactly when some pair writes it. */
  lemma {:induction false} AssignAllKeysWritten<V>(kvs: seq<(string, V)>, k: string)
    ensures k in AssignAll(kvs).entries <==> Written(kvs, k)
  {
    AssignAllKeys(kvs);
    InsertFirstKeys(kvs, k);
  }

  // ---------------------------------------------------------------------
  // `defaultdict(set)`: every key collects the set of values written to it.

  /** `d[k].add(v)` on a `defaultdict(set)`. */
  function AddTo(m: map<string, set<string>>, k: string, v: string): map<string, set<string>> {
    m[k := (if k in m then m[k] else {}) + {v}]
  }

  function Collect(kvs: seq<(string, string)>): map<string, set<string>> {
    if kvs == [] then map[]
    else
      var m := Collect(kvs[..|kvs| - 1]);
      var (k, v) := kvs[|kvs| - 1];
      AddTo(m, k, v)
  }

  lemma {:induction false} CollectSnoc(kvs: seq<(string, string)>, k: string, v: string)
    ensures Collect(kvs + [(k, v)]) == AddTo(Collect(kvs), k, v)
  {
    assert (kvs + [(k, v)])[..|kvs|] == kvs;
  }

  /** `v` is collected under `k` exactly when the pair `(k, v)` is written. */
  lemma {:induction false} CollectIff(kvs: seq<(string, string)>, k: string, v: string)
    ensures (k in Collect(kvs) && v in Collect(kvs)[k]) <==> (k, v) in kvs
  {
    if kvs != [] {
      var init := kvs[..|kvs| - 1];
      var last := kvs[|kvs| - 1];
      CollectIff(init, k, v);
      assert kvs == init + [last];
      assert (k, v) in kvs <==> (k, v) in init || (k, v) == last;
      if last.0 != k {
        assert (k in Collect(kvs)) == (k in Collect(init));
        assert k in Collect(kvs) ==> Collect(kvs)[k] == Collect(init)[k];
      }
    }
  }

  /** A key is present exactly when some pair writes it. */
  lemma {:induction false} CollectKeys(kvs: seq<(string, string)>, k: string)
    ensures k in Collect(kvs) <==> Written(kvs, k)
  {
    if kvs != [] {
      var init := kvs[..|kvs| - 1];
      CollectKeys(init, k);
      if Written(kvs, k) && kvs[|kvs| - 1].0 != k {
        var i :| 0 <= i < |kvs| && kvs[i].0 == k;
        assert init[i].0 == k;
      }
      if Written(init, k) {
        var i :| 0 <= i < |init| && init[i].0 == k;
        assert kvs[i].0 == k;
      }
    }
  }

  /** Every collected key has at least one value. */
  lemma {:induction false} CollectNonEmpty(kvs: seq<(string, string)>, k: string)
    requires k in Collect(kvs)
    ensures Collect(kvs)[k] != {}
  {
    CollectKeys(kvs, k);
    var i :| 0 <= i < |kvs| && kvs[i].0 == k;
    CollectIff(kvs, k, kvs[i].1);
  }

  // ---------------------------------------------------------------------
  // Sorted lists of strings, as `sorted(list(s))` makes them.

  predicate StrictlyAscending(xs: seq<string>) {
    forall i, j :: 0 <= i < j < |xs| ==> Less(xs[i], xs[j])
  }

  function Elems(xs: seq<string>): set<string> {
    set x | x in xs
  }

  /** A strictly ascending list has no duplicates. */
  lemma {:induction false} AscendingDistinct(xs: seq<string>)
    requires StrictlyAscending(xs)
    ensures forall i, j :: 0 <= i < j < |xs| ==> xs[i] != xs[j]
    ensures |Elems(xs)| == |xs|
  {
    forall i, j | 0 <= i < j < |xs| ensures xs[i] != xs[j] {
      LessIrreflexive(xs[i]);
    }
    DistinctCard(xs);
  }

  lemma {:induction false} DistinctCard(xs: seq<string>)
    requires forall i, j :: 0 <= i < j < |xs| ==> xs[i] != xs[j]
    ensures |Elems(xs)| == |xs|
  {
    if xs != [] {
      var t := xs[1..];
      DistinctCard(t);
      assert Elems(xs) == Elems(t) + {xs[0]};
      assert xs[0] !in Elems(t);
    }
  }

  /** Everything after the head of an ascending list is above anything below
      the head. */
  lemma {:induction false} BelowHead(x: string, xs: seq<string>)
    requires StrictlyAscending(xs) && xs != [] && Less(x, xs[0])
    ensures forall j :: 0 <= j < |xs| ==> Less(x, xs[j])
  {
    forall j | 0 < j < |xs| ensures Less(x, xs[j]) {
      LessTransitive(x, xs[0], xs[j]);
    }
  }

  /** Adds `x` to an ascending, duplicate-free list, keeping it so. */
  function InsertSorted(xs: seq<string>, x: string): (r: seq<string>)
    requires StrictlyAscending(xs)
    ensures StrictlyAscending(r) && Elems(r) == Elems(xs) + {x}
  {
    if xs == [] then [x]
    else if x == xs[0] then xs
    else if Less(x, xs[0]) then
      BelowHead(x, xs);
      [x] + xs
    else
      LessTotal(x, xs[0]);
      var rest := InsertSorted(xs[1..], x);
      HeadBelowTail(xs);
      ConsAscending(xs[0], rest);
      assert Elems(xs) == {xs[0]} + Elems(xs[1..]);
      [xs[0]] + rest
  }

  /** The head of an ascending list is below everything in its tail. */
  lemma {:induction false} HeadBelowTail(xs: seq<string>)
    requires StrictlyAscending(xs) && xs != []
    ensures forall y :: y in Elems(xs[1..]) ==> Less(xs[0], y)
    ensures xs[0] !in Elems(xs[1..])
    ensures Elems(xs) == {xs[0]} + Elems(xs[1..])
  {
    forall y | y in Elems(xs[1..]) ensures Less(xs[0], y) {
      var j :| 0 <= j < |xs[1..]| && xs[1..][j] == y;
      assert xs[j + 1] == y;
    }
    LessIrreflexive(xs[0]);
    assert xs == [xs[0]] + xs[1..];
  }

  /** Putting something below every element in front keeps a list ascending. */
  lemma {:induction false} ConsAscending(h: string, rest: seq<string>)
    requires StrictlyAscending(rest)
    requires forall y :: y in Elems(rest) ==> Less(h, y)
    ensures StrictlyAscending([h] + rest)
    ensures Elems([h] + rest) == {h} + Elems(rest)
  {
    var r := [h] + rest;
    forall i, j | 0 <= i < j < |r| ensures Less(r[i], r[j]) {
      assert r[j] == rest[j - 1];
      if i > 0 { assert r[i] == rest[i - 1]; } else { assert rest[j - 1] in Elems(rest); }
    }
  }

  /** A set has at most one strictly ascending listing. */
  lemma {:induction false} AscendingUnique(a: seq<string>, b: seq<string>)
    requires StrictlyAscending(a) && StrictlyAscending(b)
    requires Elems(a) == Elems(b)
    ensures a == b
  {
    ElemsEmpty(a);
    ElemsEmpty(b);
    if a != [] && b != [] {
      HeadBelowTail(a);
      HeadBelowTail(b);
      if a[0] != b[0] {
        assert b[0] in Elems(a[1..]) && a[0] in Elems(b[1..]);
        LessAsymmetric(a[0], b[0]);
        assert false;
      }
      assert Elems(a[1..]) == Elems(b[1..]);
      AscendingTail(a);
      AscendingTail(b);
      AscendingUnique(a[1..], b[1..]);
      assert a == [a[0]] + a[1..] && b == [b[0]] + b[1..];
    }
  }

  lemma {:induction false} ElemsEmpty(xs: seq<string>)
    ensures Elems(xs) == {} <==> xs == []
  {
    if xs != [] { assert xs[0] in Elems(xs); }
  }

  lemma {:induction false} AscendingTail(xs: seq<string>)
    requires StrictlyAscending(xs) && xs != []
    ensures StrictlyAscending(xs[1..])
  {
    forall i, j | 0 <= i < j < |xs| - 1 ensures Less(xs[1..][i], xs[1..][j]) {
      assert xs[1..][i] == xs[i + 1] && xs[1..][j] == xs[j + 1];
    }
  }

  lemma {:induction false} SortedListExists(s: set<string>)
    ensures exists r :: StrictlyAscending(r) && Elems(r) == s
    decreases |s|
  {
    if s == {} {
      assert StrictlyAscending([]) && Elems([]) == s;
    } else {
      var x :| x in s;
      SortedListExists(s - {x});
      var r :| StrictlyAscending(r) && Elems(r) == s - {x};
      var r' := InsertSorted(r, x);
      assert StrictlyAscending(r') && Elems(r') == s;
    }
  }

  /** `sorted(list(s))`: the one ascending, duplicate-free listing of `s`. */
  ghost function SortedList(s: set<string>): (r: seq<string>)
    ensures StrictlyAscending(r) && Elems(r) == s && |r| == |s|
  {
    SortedListExists(s);
    var r :| StrictlyAscending(r) && Elems(r) == s;
    AscendingDistinct(r);
    r
  }
}
