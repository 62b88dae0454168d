/** The GTFS tables the pipeline reads, as already-parsed CSV rows, and the
    per-agency datasets built from the archives. Every later stage walks the
    datasets in order and, inside each, one table's rows in order; `TableWrites`
    is that walk, turning each row into at most one (key, value) write. */
module Gtfs {
  import opened Text
  import opened Collections

  /** One parsed CSV row: column name to cell text. */
  type Row = map<string, string>

  /** `row.get(name) or ''`: an absent or empty cell reads as the empty string. */
  function Field(row: Row, name: string): string {
    if name in row then row[name] else ""
  }

  /** `row.get(name)`: an absent cell reads as `None`. */
  function Lookup(row: Row, name: string): Option<string> {
    if name in row then Some(row[name]) else None
  }

  /** `row.get(primary) or row.get(alias) or ''`: the alias column is consulted
      only when the primary one is absent or empty. */
  function FieldOr(row: Row, primary: string, alias: string): (v: string)
    ensures Field(row, primary) != "" ==> v == Field(row, primary)
    ensures Field(row, primary) == "" ==> v == Field(row, alias)
  {
    if Field(row, primary) != "" then Field(row, primary) else Field(row, alias)
  }

  /** The four tables read from one archive (an absent member reads as no
      rows), and the archive's file name. */
  datatype Tables = Tables(
    stops: seq<Row>,
    routes: seq<Row>,
    trips: seq<Row>,
    stopTimes: seq<Row>,
    sourceFilename: string)

  datatype TableName = Stops | Routes | Trips | StopTimes

  function Rows(t: Tables, name: TableName): seq<Row> {
    match name
    case Stops => t.stops
    case Routes => t.routes
    case Trips => t.trips
    case StopTimes => t.stopTimes
  }

  /** One entry of the datasets dict: an agency code and its tables. */
  datatype Dataset = Dataset(agency: string, tables: Tables)

  /** The string put in front of an agency's ids: `ag + '_'`, or nothing when
      prefixing is off. */
  function AgencyPrefix(agency: string, prefix: bool): string {
    if prefix then agency + "_" else ""
  }

  /** `ag_prefix + s if prefix else s` is the id with the agency prefix. */
  lemma {:induction false} PrefixedId(agency: string, prefix: bool, s: string)
    ensures (if prefix then AgencyPrefix(agency, prefix) + s else s) == AgencyPrefix(agency, prefix) + s
  {
    if !prefix {
      assert AgencyPrefix(agency, prefix) + s == [] + s == s;
    }
  }

  // ---------------------------------------------------------------------
  // Walking the rows of one table across all datasets.

  /** One dataset's agency code with the rows of the table being walked. */
  datatype Source = Source(agency: string, rows: seq<Row>)

  /** `for ag, ds in datasets.items(): for row in ds.get(name, [])`: the
      datasets in order, each with the rows of the named table. */
  function Sources(ds: seq<Dataset>, name: TableName): (srcs: seq<Source>)
    ensures |srcs| == |ds|
    ensures forall a :: 0 <= a < |ds| ==> srcs[a] == Source(ds[a].agency, Rows(ds[a].tables, name))
  {
    seq(|ds|, a requires 0 <= a < |ds| => Source(ds[a].agency, Rows(ds[a].tables, name)))
  }

  /** How a stage turns one row of an agency's table into a write, or into
      nothing when it skips the row. Its arguments are the agency code and the
      row. */
  type RowWrite<V> = (string, Row) -> Option<(string, V)>

  function WriteOf<V>(w: Option<(string, V)>): seq<(string, V)> {
    match w
    case Some(kv) => [kv]
    case None => []
  }

  /** The writes one agency's rows make, in row order. */
  function RowWrites<V>(agency: string, rows: seq<Row>, f: RowWrite<V>): seq<(string, V)> {
    if rows == [] then []
    else RowWrites(agency, rows[..|rows| - 1], f) + WriteOf(f(agency, rows[|rows| - 1]))
  }

  /** The writes the sources make, in order. */
  function Writes<V>(srcs: seq<Source>, f: RowWrite<V>): seq<(string, V)> {
    if srcs == [] then []
    else Writes(srcs[..|srcs| - 1], f) + RowWrites(srcs[|srcs| - 1].agency, srcs[|srcs| - 1].rows, f)
  }

  /** A write comes from one agency's rows exactly when one of its rows makes it. */
  lemma {:induction false} RowWritesMember<V>(agency: string, rows: seq<Row>, f: RowWrite<V>, kv: (string, V))
    ensures kv in RowWrites(agency, rows, f) <==> exists j :: 0 <= j < |rows| && f(agency, rows[j]) == Some(kv)
  {
    if rows != [] {
      var init := rows[..|rows| - 1];
      RowWritesMember(agency, init, f, kv);
      if exists j :: 0 <= j < |init| && f(agency, init[j]) == Some(kv) {
        var j :| 0 <= j < |init| && f(agency, init[j]) == Some(kv);
        assert rows[j] == init[j];
      }
      if exists j :: 0 <= j < |rows| && f(agency, rows[j]) == Some(kv) {
        var j :| 0 <= j < |rows| && f(agency, rows[j]) == Some(kv);
        if j < |init| { assert init[j] == rows[j]; }
      }
    }
  }

  /** A write is made exactly when some row of some source makes it. */
  lemma {:induction false} WritesMember<V>(srcs: seq<Source>, f: RowWrite<V>, kv: (string, V))
    ensures kv in Writes(srcs, f)
      <==> exists a, j :: 0 <= a < |srcs| && 0 <= j < |srcs[a].rows| && f(srcs[a].agency, srcs[a].rows[j]) == Some(kv)
  {
    if srcs != [] {
      var init := srcs[..|srcs| - 1];
      var d := srcs[|srcs| - 1];
      assert Writes(srcs, f) == Writes(init, f) + RowWrites(d.agency, d.rows, f);
      WritesMember(init, f, kv);
      RowWritesMember(d.agency, d.rows, f, kv);
      if exists a, j :: 0 <= a < |init| && 0 <= j < |init[a].rows| && f(init[a].agency, init[a].rows[j]) == Some(kv) {
        var a, j :| 0 <= a < |init| && 0 <= j < |init[a].rows| && f(init[a].agency, init[a].rows[j]) == Some(kv);
        assert srcs[a] == init[a];
      }
      if exists a, j :: 0 <= a < |srcs| && 0 <= j < |srcs[a].rows| && f(srcs[a].agency, srcs[a].rows[j]) == Some(kv) {
        var a, j :| 0 <= a < |srcs| && 0 <= j < |srcs[a].rows| && f(srcs[a].agency, srcs[a].rows[j]) == Some(kv);
        if a < |init| { assert init[a] == srcs[a]; }
      }
    }
  }

  lemma {:induction false} RowWritesConcat<V>(agency: string, x: seq<Row>, y: seq<Row>, f: RowWrite<V>)
    ensures RowWrites(agency, x + y, f) == RowWrites(agency, x, f) + RowWrites(agency, y, f)
    decreases |y|
  {
    if y == [] {
      assert x + y == x;
    } else {
      var y' := y[..|y| - 1];
      assert (x + y)[..|x + y| - 1] == x + y';
      RowWritesConcat(agency, x, y', f);
    }
  }

  lemma {:induction false} WritesConcat<V>(x: seq<Source>, y: seq<Source>, f: RowWrite<V>)
    ensures Writes(x + y, f) == Writes(x, f) + Writes(y, f)
    decreases |y|
  {
    if y == [] {
      assert x + y == x;
    } else {
      var y', d := y[..|y| - 1], y[|y| - 1];
      var xy := x + y;
      assert xy[..|xy| - 1] == x + y' && xy[|xy| - 1] == d;
      WritesConcat(x, y', f);
      var rw := RowWrites(d.agency, d.rows, f);
      assert Writes(xy, f) == Writes(x + y', f) + rw;
      assert Writes(y, f) == Writes(y', f) + rw;
      Associative(Writes(x, f), Writes(y', f), rw);
    }
  }

  /** The writes made before row `j` of source `a`. */
  function WritesBefore<V>(srcs: seq<Source>, f: RowWrite<V>, a: nat, j: nat): seq<(string, V)>
    requires a < |srcs| && j <= |srcs[a].rows|
  {
    Writes(srcs[..a], f) + RowWrites(srcs[a].agency, srcs[a].rows[..j], f)
  }

  /** The writes made after row `j` of source `a`. */
  function WritesAfter<V>(srcs: seq<Source>, f: RowWrite<V>, a: nat, j: nat): seq<(string, V)>
    requires a < |srcs| && j < |srcs[a].rows|
  {
    RowWrites(srcs[a].agency, srcs[a].rows[j + 1..], f) + Writes(srcs[a + 1..], f)
  }

  lemma {:induction false} WritesSnoc<V>(x: seq<Source>, d: Source, f: RowWrite<V>)
    ensures Writes(x + [d], f) == Writes(x, f) + RowWrites(d.agency, d.rows, f)
  {
    var xd := x + [d];
    assert xd[..|xd| - 1] == x;
    assert xd[|xd| - 1] == d;
  }

  lemma {:induction false} WritesSplit<V>(srcs: seq<Source>, f: RowWrite<V>, a: nat)
    requires a < |srcs|
    ensures Writes(srcs, f) == Writes(srcs[..a], f) + RowWrites(srcs[a].agency, srcs[a].rows, f) + Writes(srcs[a + 1..], f)
  {
    var pre := srcs[..a] + [srcs[a]];
    assert srcs == pre + srcs[a + 1..];
    WritesConcat(pre, srcs[a + 1..], f);
    WritesSnoc(srcs[..a], srcs[a], f);
  }

  lemma {:induction false} RowWritesSplit<V>(agency: string, rows: seq<Row>, f: RowWrite<V>, j: nat)
    requires j < |rows|
    ensures RowWrites(agency, rows, f)
      == RowWrites(agency, rows[..j], f) + WriteOf(f(agency, rows[j])) + RowWrites(agency, rows[j + 1..], f)
  {
    assert rows == (rows[..j] + [rows[j]]) + rows[j + 1..];
    RowWritesConcat(agency, rows[..j] + [rows[j]], rows[j + 1..], f);
    assert (rows[..j] + [rows[j]])[..j] == rows[..j];
  }

  /** The walk, split at row `j` of source `a`: what comes before, that row's
      write, and what comes after. */
  lemma {:induction false} WritesAt<V>(srcs: seq<Source>, f: RowWrite<V>, a: nat, j: nat)
    requires a < |srcs| && j < |srcs[a].rows|
    ensures Writes(srcs, f)
      == WritesBefore(srcs, f, a, j) + WriteOf(f(srcs[a].agency, srcs[a].rows[j])) + WritesAfter(srcs, f, a, j)
  {
    var d := srcs[a];
    WritesSplit(srcs, f, a);
    RowWritesSplit(d.agency, d.rows, f, j);
    var w0, r0, w, r1, w1 := Writes(srcs[..a], f), RowWrites(d.agency, d.rows[..j], f),
      WriteOf(f(d.agency, d.rows[j])), RowWrites(d.agency, d.rows[j + 1..], f), Writes(srcs[a + 1..], f);
    assert WritesBefore(srcs, f, a, j) == w0 + r0;
    assert WritesAfter(srcs, f, a, j) == r1 + w1;
    Regroup(w0, r0, w, r1, w1);
  }

  lemma {:induction false} Regroup<T>(p: seq<T>, q: seq<T>, r: seq<T>, s: seq<T>, t: seq<T>)
    ensures p + (q + r + s) + t == (p + q) + r + (s + t)
  {
    assert p + (q + r + s) == p + q + r + s;
    assert (p + q + r + s) + t == (p + q + r) + (s + t);
  }

  /** The walk of a loop over `rows`, one row further. */
  lemma {:induction false} RowWritesStep<V>(agency: string, rows: seq<Row>, f: RowWrite<V>, j: nat)
    requires j < |rows|
    ensures RowWrites(agency, rows[..j + 1], f) == RowWrites(agency, rows[..j], f) + WriteOf(f(agency, rows[j]))
  {
    assert rows[..j + 1][..j] == rows[..j];
  }

  /** The walk of a loop over the sources, one source further. */
  lemma {:induction false} WritesStep<V>(srcs: seq<Source>, f: RowWrite<V>, a: nat)
    requires a < |srcs|
    ensures Writes(srcs[..a + 1], f) == Writes(srcs[..a], f) + RowWrites(srcs[a].agency, srcs[a].rows, f)
  {
    assert srcs[..a + 1][..a] == srcs[..a];
    assert srcs[a].rows[..|srcs[a].rows|] == srcs[a].rows;
  }

  lemma {:induction false} RowWritesStepOn<V>(w: seq<(string, V)>, agency: string, rows: seq<Row>, f: RowWrite<V>, j: nat)
    requires j < |rows|
    ensures w + RowWrites(agency, rows[..j + 1], f) == (w + RowWrites(agency, rows[..j], f)) + WriteOf(f(agency, rows[j]))
  {
    RowWritesStep(agency, rows, f, j);
  }

  /** A loop filling a dict by "insert unless present", one row further. */
  lemma {:induction false} InsertFirstRowStep<V>(w: seq<(string, V)>, agency: string, rows: seq<Row>, f: RowWrite<V>, j: nat)
    requires j < |rows|
    ensures InsertFirst(w + RowWrites(agency, rows[..j + 1], f))
      == InsertStep(InsertFirst(w + RowWrites(agency, rows[..j], f)), f(agency, rows[j]))
  {
    var done := w + RowWrites(agency, rows[..j], f);
    RowWritesStepOn(w, agency, rows, f, j);
    match f(agency, rows[j])
    case None => assert done + [] == done;
    case Some(kv) => InsertFirstSnoc(done, kv.0, kv.1);
  }

  /** A loop filling a dict by plain assignment, one row further. */
  lemma {:induction false} AssignAllRowStep<V>(w: seq<(string, V)>, agency: string, rows: seq<Row>, f: RowWrite<V>, j: nat)
    requires j < |rows|
    ensures AssignAll(w + RowWrites(agency, rows[..j + 1], f))
      == AssignStep(AssignAll(w + RowWrites(agency, rows[..j], f)), f(agency, rows[j]))
  {
    var done := w + RowWrites(agency, rows[..j], f);
    RowWritesStepOn(w, agency, rows, f, j);
    match f(agency, rows[j])
    case None => assert done + [] == done;
    case Some(kv) => AssignAllSnoc(done, kv.0, kv.1);
  }

  /** The mapping of a loop filling a dict by plain assignment, one row further. */
  lemma {:induction false} AssignAllEntriesRowStep<V>(w: seq<(string, V)>, agency: string, rows: seq<Row>, f: RowWrite<V>, j: nat)
    requires j < |rows|
    ensures var before := AssignAll(w + RowWrites(agency, rows[..j], f)).entries;
      AssignAll(w + RowWrites(agency, rows[..j + 1], f)).entries
        == match f(agency, rows[j]) case None => before case Some(kv) => before[kv.0 := kv.1]
  {
    AssignAllRowStep(w, agency, rows, f, j);
  }

  /** A loop filling a `defaultdict(set)`, one row further. */
  lemma {:induction false} CollectRowStep(w: seq<(string, string)>, agency: string, rows: seq<Row>, f: RowWrite<string>, j: nat)
    requires j < |rows|
    ensures Collect(w + RowWrites(agency, rows[..j + 1], f))
      == CollectStep(Collect(w + RowWrites(agency, rows[..j], f)), f(agency, rows[j]))
  {
    var done := w + RowWrites(agency, rows[..j], f);
    RowWritesStepOn(w, agency, rows, f, j);
    match f(agency, rows[j])
    case None => assert done + [] == done;
    case Some(kv) => CollectSnoc(done, kv.0, kv.1);
  }

  /** A loop over the datasets, one dataset further: the rows walked so far
      are those of the datasets before it and all of its rows. */
  lemma {:induction false} WritesNext<V>(ds: seq<Dataset>, name: TableName, f: RowWrite<V>, a: nat)
    requires a < |ds|
    ensures var rows := Rows(ds[a].tables, name);
      Writes(Sources(ds, name)[..a + 1], f) == Writes(Sources(ds, name)[..a], f) + RowWrites(ds[a].agency, rows[..|rows|], f)
  {
    var srcs := Sources(ds, name);
    WritesStep(srcs, f, a);
    assert srcs[a] == Source(ds[a].agency, Rows(ds[a].tables, name));
    var rows := Rows(ds[a].tables, name);
    assert rows[..|rows|] == rows;
  }

  lemma {:induction false} WritesAll<V>(ds: seq<Dataset>, name: TableName, f: RowWrite<V>)
    ensures Writes(Sources(ds, name)[..|ds|], f) == Writes(Sources(ds, name), f)
  {
    assert Sources(ds, name)[..|ds|] == Sources(ds, name);
  }

  // ---------------------------------------------------------------------
  // Which row's write a dict keeps.

  /** Row `j` of source `a` exists and writes key `k`. */
  predicate Produces<V>(srcs: seq<Source>, f: RowWrite<V>, a: int, j: int, k: string) {
    && 0 <= a < |srcs| && 0 <= j < |srcs[a].rows|
    && f(srcs[a].agency, srcs[a].rows[j]).Some?
    && f(srcs[a].agency, srcs[a].rows[j]).value.0 == k
  }

  /** Row `(a, j)` is visited before row `(b, i)`. */
  predicate RowBefore(a: int, j: int, b: int, i: int) {
    a < b || (a == b && j < i)
  }

  /** The writes made before row `(a, j)` are those of the rows visited before it. */
  lemma {:induction false} WritesBeforeMember<V>(srcs: seq<Source>, f: RowWrite<V>, a: nat, j: nat, kv: (string, V))
    requires a < |srcs| && j <= |srcs[a].rows|
    requires kv in WritesBefore(srcs, f, a, j)
    ensures exists a', j' :: RowBefore(a', j', a, j) && Produces(srcs, f, a', j', kv.0)
  {
    var d := srcs[a];
    if kv in Writes(srcs[..a], f) {
      WritesMember(srcs[..a], f, kv);
      var a', j' :| 0 <= a' < a && 0 <= j' < |srcs[..a][a'].rows| && f(srcs[..a][a'].agency, srcs[..a][a'].rows[j']) == Some(kv);
      assert srcs[..a][a'] == srcs[a'];
      assert RowBefore(a', j', a, j) && Produces(srcs, f, a', j', kv.0);
    } else {
      RowWritesMember(d.agency, d.rows[..j], f, kv);
      var j' :| 0 <= j' < j && f(d.agency, d.rows[..j][j']) == Some(kv);
      assert d.rows[..j][j'] == d.rows[j'];
      assert RowBefore(a, j', a, j) && Produces(srcs, f, a, j', kv.0);
    }
  }

  /** The writes made after row `(a, j)` are those of the rows visited after it. */
  lemma {:induction false} WritesAfterMember<V>(srcs: seq<Source>, f: RowWrite<V>, a: nat, j: nat, kv: (string, V))
    requires a < |srcs| && j < |srcs[a].rows|
    requires kv in WritesAfter(srcs, f, a, j)
    ensures exists a', j' :: RowBefore(a, j, a', j') && Produces(srcs, f, a', j', kv.0)
  {
    var d := srcs[a];
    var rest := srcs[a + 1..];
    if kv in Writes(rest, f) {
      WritesMember(rest, f, kv);
      var b, j' :| 0 <= b < |rest| && 0 <= j' < |rest[b].rows| && f(rest[b].agency, rest[b].rows[j']) == Some(kv);
      assert rest[b] == srcs[a + 1 + b];
      assert RowBefore(a, j, a + 1 + b, j') && Produces(srcs, f, a + 1 + b, j', kv.0);
    } else {
      var tail := d.rows[j + 1..];
      RowWritesMember(d.agency, tail, f, kv);
      var i :| 0 <= i < |tail| && f(d.agency, tail[i]) == Some(kv);
      assert tail[i] == d.rows[j + 1 + i];
      assert RowBefore(a, j, a, j + 1 + i) && Produces(srcs, f, a, j + 1 + i, kv.0);
    }
  }

  /** A key is in the dict exactly when some row writes it (either fold). */
  lemma {:induction false} WrittenIff<V>(srcs: seq<Source>, f: RowWrite<V>, k: string)
    ensures Written(Writes(srcs, f), k) <==> exists a, j :: Produces(srcs, f, a, j, k)
  {
    var w := Writes(srcs, f);
    if Written(w, k) {
      var i :| 0 <= i < |w| && w[i].0 == k;
      WritesMember(srcs, f, w[i]);
      var a, j :| 0 <= a < |srcs| && 0 <= j < |srcs[a].rows| && f(srcs[a].agency, srcs[a].rows[j]) == Some(w[i]);
      assert Produces(srcs, f, a, j, k);
    }
    if exists a, j :: Produces(srcs, f, a, j, k) {
      var a, j :| Produces(srcs, f, a, j, k);
      var kv := f(srcs[a].agency, srcs[a].rows[j]).value;
      WritesMember(srcs, f, kv);
      var i :| 0 <= i < |w| && w[i] == kv;
      assert w[i].0 == k;
    }
  }

  /** Every value kept under `k` was written by some row under `k`. */
  lemma {:induction false} ValueFromRow<V>(srcs: seq<Source>, f: RowWrite<V>, k: string, v: V)
    requires (k, v) in Writes(srcs, f)
    ensures exists a, j :: (0 <= a < |srcs| && 0 <= j < |srcs[a].rows|
      && f(srcs[a].agency, srcs[a].rows[j]) == Some((k, v)))
  {
    WritesMember(srcs, f, (k, v));
  }

  /** The row that made a write. */
  lemma {:induction false} WrittenRow<V>(srcs: seq<Source>, f: RowWrite<V>, kv: (string, V)) returns (a: nat, j: nat)
    requires kv in Writes(srcs, f)
    ensures a < |srcs| && j < |srcs[a].rows| && f(srcs[a].agency, srcs[a].rows[j]) == Some(kv)
  {
    WritesMember(srcs, f, kv);
    a, j :| 0 <= a < |srcs| && 0 <= j < |srcs[a].rows| && f(srcs[a].agency, srcs[a].rows[j]) == Some(kv);
  }

  /** With "insert unless present", the first row to write a key decides its value. */
  lemma {:induction false} FirstRowWins<V>(srcs: seq<Source>, f: RowWrite<V>, a: nat, j: nat)
    requires a < |srcs| && j < |srcs[a].rows|
    requires f(srcs[a].agency, srcs[a].rows[j]).Some?
    requires var k := f(srcs[a].agency, srcs[a].rows[j]).value.0;
      forall a', j' :: RowBefore(a', j', a, j) ==> !Produces(srcs, f, a', j', k)
    ensures var kv := f(srcs[a].agency, srcs[a].rows[j]).value;
      var m := InsertFirst(Writes(srcs, f));
      kv.0 in m.entries && m.entries[kv.0] == kv.1
  {
    var kv := f(srcs[a].agency, srcs[a].rows[j]).value;
    var w := Writes(srcs, f);
    var before := WritesBefore(srcs, f, a, j);
    WritesAt(srcs, f, a, j);
    var i := |before|;
    assert w[i] == kv;
    forall i' | 0 <= i' < i ensures w[i'].0 != kv.0 {
      assert w[i'] == before[i'];
      WritesBeforeMember(srcs, f, a, j, before[i']);
    }
    InsertFirstKeepsEarliest(w, i);
  }

  /** With plain assignment, the last row to write a key decides its value. */
  lemma {:induction false} LastRowWins<V>(srcs: seq<Source>, f: RowWrite<V>, a: nat, j: nat)
    requires a < |srcs| && j < |srcs[a].rows|
    requires f(srcs[a].agency, srcs[a].rows[j]).Some?
    requires var k := f(srcs[a].agency, srcs[a].rows[j]).value.0;
      forall a', j' :: RowBefore(a, j, a', j') ==> !Produces(srcs, f, a', j', k)
    ensures var kv := f(srcs[a].agency, srcs[a].rows[j]).value;
      var m := AssignAll(Writes(srcs, f));
      kv.0 in m.entries && m.entries[kv.0] == kv.1
  {
    var kv := f(srcs[a].agency, srcs[a].rows[j]).value;
    var w := Writes(srcs, f);
    var before := WritesBefore(srcs, f, a, j);
    var after := WritesAfter(srcs, f, a, j);
    WritesAt(srcs, f, a, j);
    var i := |before|;
    assert w[i] == kv;
    forall i' | i < i' < |w| ensures w[i'].0 != kv.0 {
      assert w[i'] == after[i' - i - 1];
      WritesAfterMember(srcs, f, a, j, after[i' - i - 1]);
    }
    AssignAllKeepsLatest(w, i);
  }

  /** The row whose write a plain-assignment dict keeps under `k`. */
  lemma {:induction false} AssignedRow<V>(srcs: seq<Source>, f: RowWrite<V>, k: string) returns (a: nat, j: nat)
    requires k in AssignAll(Writes(srcs, f)).entries
    ensures a < |srcs| && j < |srcs[a].rows|
    ensures f(srcs[a].agency, srcs[a].rows[j]) == Some((k, AssignAll(Writes(srcs, f)).entries[k]))
  {
    var w := Writes(srcs, f);
    var v := AssignAll(w).entries[k];
    var i := AssignAllValueSource(w, k);
    ValueFromRow(srcs, f, k, v);
    a, j :| 0 <= a < |srcs| && 0 <= j < |srcs[a].rows| && f(srcs[a].agency, srcs[a].rows[j]) == Some((k, v));
  }

  /** Row `j` of source `a` of a walk over table `name` is row `j` of that
      table in dataset `a`. */
  lemma {:induction false} SourceRow(ds: seq<Dataset>, name: TableName, a: nat, j: nat)
    requires a < |ds|
    ensures Sources(ds, name)[a] == Source(ds[a].agency, Rows(ds[a].tables, name))
  {
  }

  // ---------------------------------------------------------------------
  // The datasets dict (`datasets[agency_code] = {...}`).

  /** Builds the datasets dict from the archives, each given with the agency
      code derived from its name and the tables read from it. A code seen again
      replaces the earlier tables and keeps the earlier position. */
  method ExtractRelevantTables(archives: seq<(string, Tables)>) returns (datasets: OrderedMap<Tables>)
    ensures datasets == AssignAll(archives)
  {
    datasets := EmptyMap();
    for i := 0 to |archives|
      invariant datasets == AssignAll(archives[..i])
    {
      var (code, tables) := archives[i];
      var keys := if code in datasets.entries then datasets.keys else datasets.keys + [code];
      datasets := OrderedMap(keys, datasets.entries[code := tables]);
      assert archives[..i + 1][..i] == archives[..i];
    }
    assert archives[..|archives|] == archives;
  }

  /** `datasets.items()`, in insertion order. */
  function Items(datasets: OrderedMap<Tables>): (ds: seq<Dataset>)
    requires datasets.Valid()
    ensures |ds| == |datasets.keys|
  {
    seq(|datasets.keys|, i requires 0 <= i < |datasets.keys| =>
      Dataset(datasets.keys[i], datasets.entries[datasets.keys[i]]))
  }

  predicate DistinctAgencies(ds: seq<Dataset>) {
    forall a, b :: 0 <= a < b < |ds| ==> ds[a].agency != ds[b].agency
  }

  /** The datasets the pipeline walks: each agency code once, in the order the
      codes first appear among the archives, with the tables of the last
      archive that carries the code. */
  lemma {:induction false} DatasetsFromArchives(archives: seq<(string, Tables)>, a: nat)
    requires a < |AssignAll(archives).keys|
    ensures DistinctAgencies(Items(AssignAll(archives)))
    ensures var d := Items(AssignAll(archives))[a];
      exists i :: (0 <= i < |archives| && archives[i] == (d.agency, d.tables)
        && forall j :: i < j < |archives| ==> archives[j].0 != d.agency)
  {
    var m := AssignAll(archives);
    var k := m.keys[a];
    assert k in m.entries;
    var i := AssignAllValueSource(archives, k);
  }

  /** Agency codes appear in the order in which archives first carry them. */
  lemma {:induction false} DatasetOrder(archives: seq<(string, Tables)>, a: nat, b: nat)
    requires a < b < |AssignAll(archives).keys|
    ensures var ds := Items(AssignAll(archives));
      Written(archives, ds[a].agency) && Written(archives, ds[b].agency)
      && FirstWrite(archives, ds[a].agency) < FirstWrite(archives, ds[b].agency)
  {
    AssignAllKeys(archives);
    InsertFirstKeyOrder(archives, a, b);
  }
}
