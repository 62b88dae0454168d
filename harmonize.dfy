/** Stop harmonisation and consolidation: every stop row of every dataset with
    a non-blank `stop_id` becomes one entry of a single dict, keyed by the stop
    id (prefixed with the agency code unless prefixing is off). The first row
    to claim an id keeps it; later rows with the same id are dropped. Each kept
    row is annotated with its original stop id and its agency. */
module Harmonize {
  import opened Text
  import opened Collections
  import opened Gtfs

  /** `(row.get('stop_id') or '').strip()` */
  function StopIdOf(row: Row): string {
    Strip(Field(row, "stop_id"))
  }

  /** The consolidated id: `f'{ag}_{stop_id}'` when prefixing, else the id itself. */
  function HarmonizedId(agency: string, stopId: string, prefix: bool): (id: string)
    ensures prefix ==> id == agency + "_" + stopId
    ensures !prefix ==> id == stopId
  {
    AgencyPrefix(agency, prefix) + stopId
  }

  /** The copied row with `_orig_stop_id` and `_agency` set. */
  function Annotate(row: Row, stopId: string, agency: string): (r: Row)
    ensures r.Keys == row.Keys + {"_orig_stop_id", "_agency"}
    ensures r["_orig_stop_id"] == stopId && r["_agency"] == agency
    ensures forall c :: c in row && c != "_orig_stop_id" && c != "_agency" ==> r[c] == row[c]
  {
    row["_orig_stop_id" := stopId]["_agency" := agency]
  }

  /** What one stop row of `agency` contributes: nothing when its stop id is
      blank, else its consolidated id and annotated copy. */
  function StopWrite(prefix: bool, agency: string, row: Row): Option<(string, Row)> {
    var stopId := StopIdOf(row);
    if stopId == "" then None else Some((HarmonizedId(agency, stopId, prefix), Annotate(row, stopId, agency)))
  }

  function StopWrites(prefix: bool): RowWrite<Row> {
    (agency, row) => StopWrite(prefix, agency, row)
  }

  /** The consolidated stops dict the harmonisation builds. */
  function Consolidated(ds: seq<Dataset>, prefix: bool): (m: OrderedMap<Row>)
    ensures m.Valid()
  {
    InsertFirst(Writes(Sources(ds, Stops), StopWrites(prefix)))
  }

  /** The `stop_to_agency` dict: each consolidated id to the agency recorded
      on its row. */
  function AgencyOf(m: OrderedMap<Row>): (r: map<string, string>)
    ensures r.Keys == m.entries.Keys
  {
    map k | k in m.entries :: Field(m.entries[k], "_agency")
  }

  /** Harmonises and consolidates the stops of all datasets, in dataset order
      and, within a dataset, in row order. */
  method HarmonizeAndConsolidate(ds: seq<Dataset>, prefix: bool)
    returns (consolidated: OrderedMap<Row>, stopToAgency: map<string, string>)
    ensures consolidated == Consolidated(ds, prefix)
    ensures stopToAgency == AgencyOf(consolidated)
  {
    ghost var f := StopWrites(prefix);
    consolidated := EmptyMap();
    stopToAgency := map[];
    for a := 0 to |ds|
      invariant consolidated == InsertFirst(Writes(Sources(ds, Stops)[..a], f))
      invariant stopToAgency == AgencyOf(consolidated)
    {
      var agency := ds[a].agency;
      var rows := ds[a].tables.stops;
      ghost var w := Writes(Sources(ds, Stops)[..a], f);
      assert rows[..0] == [];
      assert RowWrites(agency, rows[..0], f) == [];
      assert w + [] == w;
      assert consolidated == InsertFirst(w + RowWrites(agency, rows[..0], f));
      for j := 0 to |rows|
        invariant consolidated == InsertFirst(w + RowWrites(agency, rows[..j], f))
        invariant stopToAgency == AgencyOf(consolidated)
      {
        var row := rows[j];
        ghost var before := consolidated;
        assert f(agency, row) == StopWrite(prefix, agency, row);
        var stopId := StopIdOf(row);
        if stopId != "" {
          var newId := HarmonizedId(agency, stopId, prefix);
          var annotated := Annotate(row, stopId, agency);
          assert StopWrite(prefix, agency, row) == Some((newId, annotated));
          if newId !in consolidated.entries {
            AgencyOfInsert(consolidated, newId, annotated);
            consolidated := OrderedMap(consolidated.keys + [newId], consolidated.entries[newId := annotated]);
            stopToAgency := stopToAgency[newId := agency];
          }
          assert consolidated == InsertStep(before, Some((newId, annotated)));
        } else {
          assert consolidated == InsertStep(before, None);
        }
        InsertFirstRowStep(w, agency, rows, f, j);
      }
      WritesNext(ds, Stops, f, a);
    }
    WritesAll(ds, Stops, f);
  }

  lemma {:induction false} AgencyOfInsert(m: OrderedMap<Row>, k: string, row: Row)
    requires k !in m.entries
    ensures AgencyOf(OrderedMap(m.keys + [k], m.entries[k := row])) == AgencyOf(m)[k := Field(row, "_agency")]
  {
  }

  // ---------------------------------------------------------------------
  // What the consolidated dict holds.

  /** Row `j` of agency `a`'s stops has a non-blank stop id whose consolidated
      id is `k`. */
  predicate Names(ds: seq<Dataset>, prefix: bool, a: int, j: int, k: string) {
    && 0 <= a < |ds| && 0 <= j < |ds[a].tables.stops|
    && StopIdOf(ds[a].tables.stops[j]) != ""
    && HarmonizedId(ds[a].agency, StopIdOf(ds[a].tables.stops[j]), prefix) == k
  }

  lemma {:induction false} ProducesNames(ds: seq<Dataset>, prefix: bool, a: int, j: int, k: string)
    ensures Produces(Sources(ds, Stops), StopWrites(prefix), a, j, k) <==> Names(ds, prefix, a, j, k)
  {
    var srcs := Sources(ds, Stops);
    if 0 <= a < |ds| {
      var rows := ds[a].tables.stops;
      assert srcs[a].agency == ds[a].agency && srcs[a].rows == rows;
      if 0 <= j < |rows| {
        assert StopWrites(prefix)(ds[a].agency, rows[j]) == StopWrite(prefix, ds[a].agency, rows[j]);
      }
    }
  }

  /** An id is consolidated exactly when some stop row names it. */
  lemma {:induction false} ConsolidatedKeys(ds: seq<Dataset>, prefix: bool, k: string)
    ensures k in Consolidated(ds, prefix).entries <==> exists a, j :: Names(ds, prefix, a, j, k)
  {
    var srcs, f := Sources(ds, Stops), StopWrites(prefix);
    InsertFirstKeys(Writes(srcs, f), k);
    WrittenIff(srcs, f, k);
    if exists a, j :: Names(ds, prefix, a, j, k) {
      var a, j :| Names(ds, prefix, a, j, k);
      ProducesNames(ds, prefix, a, j, k);
    }
    if exists a, j :: Produces(srcs, f, a, j, k) {
      var a, j :| Produces(srcs, f, a, j, k);
      ProducesNames(ds, prefix, a, j, k);
    }
  }

  /** The first row to name an id is the one kept, with its original stop id
      and agency recorded on it. */
  lemma {:induction false} FirstStopWins(ds: seq<Dataset>, prefix: bool, a: nat, j: nat, k: string)
    requires Names(ds, prefix, a, j, k)
    requires forall a', j' :: RowBefore(a', j', a, j) ==> !Names(ds, prefix, a', j', k)
    ensures k in Consolidated(ds, prefix).entries
    ensures var row := ds[a].tables.stops[j];
      Consolidated(ds, prefix).entries[k] == Annotate(row, StopIdOf(row), ds[a].agency)
  {
    var srcs, f := Sources(ds, Stops), StopWrites(prefix);
    forall a', j' | RowBefore(a', j', a, j) ensures !Produces(srcs, f, a', j', k) {
      ProducesNames(ds, prefix, a', j', k);
    }
    var row := ds[a].tables.stops[j];
    SourceStopRow(ds, prefix, a, j);
    assert f(srcs[a].agency, srcs[a].rows[j]) == Some((k, Annotate(row, StopIdOf(row), ds[a].agency)));
    FirstRowWins(srcs, f, a, j);
  }

  /** Row `j` of source `a` of the stops walk is row `j` of agency `a`'s stops. */
  lemma {:induction false} SourceStopRow(ds: seq<Dataset>, prefix: bool, a: nat, j: nat)
    requires a < |ds| && j < |ds[a].tables.stops|
    ensures var src := Sources(ds, Stops)[a];
      j < |src.rows| && StopWrites(prefix)(src.agency, src.rows[j]) == StopWrite(prefix, ds[a].agency, ds[a].tables.stops[j])
  {
    var src := Sources(ds, Stops)[a];
    assert src == Source(ds[a].agency, ds[a].tables.stops);
  }

  /** The stop row kept under a consolidated id. */
  lemma {:induction false} KeptRow(ds: seq<Dataset>, prefix: bool, k: string) returns (a: nat, j: nat)
    requires k in Consolidated(ds, prefix).entries
    ensures Names(ds, prefix, a, j, k)
    ensures Consolidated(ds, prefix).entries[k] == Annotate(ds[a].tables.stops[j], StopIdOf(ds[a].tables.stops[j]), ds[a].agency)
  {
    var srcs, f := Sources(ds, Stops), StopWrites(prefix);
    var w := Writes(srcs, f);
    var e := Consolidated(ds, prefix).entries[k];
    InsertFirstValueSource(w, k);
    var i :| 0 <= i < |w| && w[i] == (k, e);
    ValueFromRow(srcs, f, k, e);
    a, j :| 0 <= a < |srcs| && 0 <= j < |srcs[a].rows| && f(srcs[a].agency, srcs[a].rows[j]) == Some((k, e));
    assert |srcs[a].rows| == |ds[a].tables.stops| by {
      assert srcs[a] == Source(ds[a].agency, ds[a].tables.stops);
    }
    SourceStopRow(ds, prefix, a, j);
    assert StopWrite(prefix, ds[a].agency, ds[a].tables.stops[j]) == Some((k, e));
  }

  /** Every consolidated row is the annotated copy of a stop row that names
      its id; the annotation records the original stop id and the agency from
      which the id is rebuilt. */
  lemma {:induction false} ConsolidatedOrigin(ds: seq<Dataset>, prefix: bool, k: string)
    requires k in Consolidated(ds, prefix).entries
    ensures exists a, j :: (Names(ds, prefix, a, j, k)
      && Consolidated(ds, prefix).entries[k] == Annotate(ds[a].tables.stops[j], StopIdOf(ds[a].tables.stops[j]), ds[a].agency))
    ensures var e := Consolidated(ds, prefix).entries[k];
      && "_orig_stop_id" in e && "_agency" in e
      && e["_orig_stop_id"] != ""
      && k == HarmonizedId(e["_agency"], e["_orig_stop_id"], prefix)
  {
    var a, j := KeptRow(ds, prefix, k);
  }

  /** `stop_to_agency` maps each consolidated id to the agency of the row
      kept for it, which together with the original stop id rebuilds the id. */
  lemma {:induction false} StopToAgencyOfKeptRow(ds: seq<Dataset>, prefix: bool, k: string)
    requires k in Consolidated(ds, prefix).entries
    ensures var m := Consolidated(ds, prefix);
      && "_agency" in m.entries[k] && "_orig_stop_id" in m.entries[k]
      && k in AgencyOf(m) && AgencyOf(m)[k] == m.entries[k]["_agency"]
      && k == HarmonizedId(AgencyOf(m)[k], m.entries[k]["_orig_stop_id"], prefix)
  {
    var m := Consolidated(ds, prefix);
    var a, j := KeptRow(ds, prefix, k);
    AgencyOfAt(m, k);
  }

  lemma {:induction false} AgencyOfAt(m: OrderedMap<Row>, k: string)
    requires k in m.entries
    ensures k in AgencyOf(m) && AgencyOf(m)[k] == Field(m.entries[k], "_agency")
  {
  }

  // ---------------------------------------------------------------------
  // Prefixing.

  /** With prefixing, the same stop id of two different agencies gives two
      different consolidated ids. */
  lemma {:induction false} PrefixSeparatesAgencies(agency1: string, agency2: string, stopId: string)
    requires agency1 != agency2
    ensures HarmonizedId(agency1, stopId, true) != HarmonizedId(agency2, stopId, true)
  {
    var id1, id2 := HarmonizedId(agency1, stopId, true), HarmonizedId(agency2, stopId, true);
    if |agency1| == |agency2| {
      assert id1[..|agency1|] == agency1;
      assert id2[..|agency2|] == agency2;
    } else {
      assert |id1| != |id2|;
    }
  }

  /** Prefixing alone does not keep agencies apart: an agency code may end in
      what another agency's stop id starts with. */
  lemma {:induction false} PrefixCollision()
    ensures HarmonizedId("X", "Y_1", true) == HarmonizedId("X_Y", "1", true)
    ensures "X" != "X_Y"
  {
  }

  /** Exactly when prefixed ids of two agencies coincide, the shorter code
      `agency1` first: the longer code is `agency1 + "_" + u`, and the
      shorter code's stop id is `u + "_"` followed by the other stop id. */
  lemma {:induction false} PrefixedIdsCollide(agency1: string, agency2: string, s: string, t: string)
    requires |agency1| < |agency2|
    ensures HarmonizedId(agency1, s, true) == HarmonizedId(agency2, t, true)
      <==> agency2[..|agency1| + 1] == agency1 + "_" && s == agency2[|agency1| + 1..] + "_" + t
  {
    var n := |agency1|;
    var id1, id2 := HarmonizedId(agency1, s, true), HarmonizedId(agency2, t, true);
    assert id1[..n + 1] == agency1 + "_" && id1[n + 1..] == s;
    assert id2[..n + 1] == agency2[..n + 1] && id2[n + 1..] == agency2[n + 1..] + "_" + t;
    if agency2[..n + 1] == agency1 + "_" && s == agency2[n + 1..] + "_" + t {
      assert id1 == id1[..n + 1] + id1[n + 1..];
      assert id2 == id2[..n + 1] + id2[n + 1..];
    }
  }

  /** With prefixing, stops of two different agencies that share a stop id are
      both kept, under two ids. */
  lemma {:induction false} PrefixKeepsBoth(ds: seq<Dataset>, a: nat, j: nat, b: nat, i: nat)
    requires DistinctAgencies(ds)
    requires a < b < |ds| && j < |ds[a].tables.stops| && i < |ds[b].tables.stops|
    requires StopIdOf(ds[a].tables.stops[j]) == StopIdOf(ds[b].tables.stops[i]) != ""
    ensures var s := StopIdOf(ds[a].tables.stops[j]);
      var ka, kb := HarmonizedId(ds[a].agency, s, true), HarmonizedId(ds[b].agency, s, true);
      ka != kb && ka in Consolidated(ds, true).entries && kb in Consolidated(ds, true).entries
  {
    var s := StopIdOf(ds[a].tables.stops[j]);
    var ka, kb := HarmonizedId(ds[a].agency, s, true), HarmonizedId(ds[b].agency, s, true);
    PrefixSeparatesAgencies(ds[a].agency, ds[b].agency, s);
    assert Names(ds, true, a, j, ka);
    assert Names(ds, true, b, i, kb);
    ConsolidatedKeys(ds, true, ka);
    ConsolidatedKeys(ds, true, kb);
  }

  /** Without prefixing, a stop id shared by several agencies is kept once,
      for the agency whose row comes first. */
  lemma {:induction false} UnprefixedFirstAgencyWins(ds: seq<Dataset>, a: nat, j: nat)
    requires a < |ds| && j < |ds[a].tables.stops| && StopIdOf(ds[a].tables.stops[j]) != ""
    requires var s := StopIdOf(ds[a].tables.stops[j]);
      forall a', j' :: RowBefore(a', j', a, j) ==> !Names(ds, false, a', j', s)
    ensures var s := StopIdOf(ds[a].tables.stops[j]);
      s in Consolidated(ds, false).entries && AgencyOf(Consolidated(ds, false))[s] == ds[a].agency
  {
    var s := StopIdOf(ds[a].tables.stops[j]);
    FirstStopWins(ds, false, a, j, s);
  }
}
