/** The stop-to-routes join: for every stop mentioned in `stop_times`, the set
    of routes whose trips call there, looked up through `trip_to_route`, and
    finally each set as a sorted list. Stop and trip ids of a `stop_times` row
    are prefixed with the row's own agency. */
module StopRoutes {
  import opened Text
  import opened Collections
  import opened Gtfs

  /** What a `stop_times` row contributes: the (prefixed) stop id and the
      route of its (prefixed) trip; nothing when the stop id or the trip id is
      blank or the trip has no (non-empty) route. */
  function StopTimeWrite(prefix: bool, tripToRoute: map<string, string>, agency: string, row: Row): Option<(string, string)> {
    var sid := Strip(Field(row, "stop_id"));
    var tid := Strip(Field(row, "trip_id"));
    if sid == "" || tid == "" then None
    else
      var tidP := AgencyPrefix(agency, prefix) + tid;
      if tidP in tripToRoute && tripToRoute[tidP] != "" then Some((AgencyPrefix(agency, prefix) + sid, tripToRoute[tidP]))
      else None
  }

  function StopTimeWrites(prefix: bool, tripToRoute: map<string, string>): RowWrite<string> {
    (agency, row) => StopTimeWrite(prefix, tripToRoute, agency, row)
  }

  /** The `stop_routes` defaultdict of sets. */
  function RouteSets(ds: seq<Dataset>, tripToRoute: map<string, string>, prefix: bool): map<string, set<string>> {
    Collect(Writes(Sources(ds, StopTimes), StopTimeWrites(prefix, tripToRoute)))
  }

  /** The returned dict: each set of routes as a sorted list. */
  ghost function StopRoutesOf(ds: seq<Dataset>, tripToRoute: map<string, string>, prefix: bool): map<string, seq<string>> {
    SortedListsOf(RouteSets(ds, tripToRoute, prefix))
  }

  /** Builds the stop-to-routes dict. */
  method BuildStopToRoutes(ds: seq<Dataset>, tripToRoute: map<string, string>, prefix: bool)
    returns (stopRoutes: map<string, seq<string>>)
    ensures stopRoutes == StopRoutesOf(ds, tripToRoute, prefix)
  {
    ghost var f := StopTimeWrites(prefix, tripToRoute);
    var sets: map<string, set<string>> := map[];
    assert Sources(ds, StopTimes)[..0] == [];
    for a := 0 to |ds|
      invariant sets == Collect(Writes(Sources(ds, StopTimes)[..a], f))
    {
      var agency := ds[a].agency;
      var agencyPrefix := if prefix then agency + "_" else "";
      ghost var w := Writes(Sources(ds, StopTimes)[..a], f);
      sets := CollectStopTimes(w, prefix, tripToRoute, agency, agencyPrefix, ds[a].tables.stopTimes, sets);
      WritesNext(ds, StopTimes, f, a);
      StopTimesSource(ds, a);
    }
    WritesAll(ds, StopTimes, f);
    stopRoutes := SortedLists(sets);
  }

  /** The sorted list of every set of routes. */
  ghost function SortedListsOf(sets: map<string, set<string>>): map<string, seq<string>> {
    map k | k in sets :: SortedList(sets[k])
  }

  /** `{k: sorted(list(v)) for k, v in stop_routes.items()}` */
  method SortedLists(sets: map<string, set<string>>) returns (lists: map<string, seq<string>>)
    ensures lists == SortedListsOf(sets)
  {
    lists := map[];
    var pending := sets.Keys;
    while pending != {}
      invariant pending <= sets.Keys
      invariant lists.Keys == sets.Keys - pending
      invariant forall k :: k in lists ==> lists[k] == SortedList(sets[k])
      decreases |pending|
    {
      var k :| k in pending;
      var routes := SortRoutes(sets[k]);
      lists := lists[k := routes];
      pending := pending - {k};
    }
  }

  /** The `stop_times` loop of one dataset. */
  method CollectStopTimes(ghost w: seq<(string, string)>, prefix: bool, tripToRoute: map<string, string>,
                          agency: string, agencyPrefix: string, stopTimes: seq<Row>, sets0: map<string, set<string>>)
    returns (sets: map<string, set<string>>)
    requires agencyPrefix == AgencyPrefix(agency, prefix)
    requires sets0 == Collect(w)
    ensures sets == Collect(w + RowWrites(agency, stopTimes[..|stopTimes|], StopTimeWrites(prefix, tripToRoute)))
  {
    ghost var f := StopTimeWrites(prefix, tripToRoute);
    sets := sets0;
    assert stopTimes[..0] == [] && w + [] == w;
    for j := 0 to |stopTimes|
      invariant sets == Collect(w + RowWrites(agency, stopTimes[..j], f))
    {
      var st := stopTimes[j];
      CollectRowStep(w, agency, stopTimes, f, j);
      assert f(agency, st) == StopTimeWrite(prefix, tripToRoute, agency, st);
      ghost var before := sets;
      ghost var written: Option<(string, string)> := None;
      var sid := Strip(Field(st, "stop_id"));
      if sid != "" {
        var sidP := if prefix then agencyPrefix + sid else sid;
        PrefixedId(agency, prefix, sid);
        var tid := Strip(Field(st, "trip_id"));
        if tid != "" {
          var tidP := if prefix then agencyPrefix + tid else tid;
          PrefixedId(agency, prefix, tid);
          if tidP in tripToRoute && tripToRoute[tidP] != "" {
            var ridP := tripToRoute[tidP];
            sets := AddTo(sets, sidP, ridP);
            written := Some((sidP, ridP));
          }
        }
      }
      assert StopTimeWrite(prefix, tripToRoute, agency, st) == written;
      assert sets == CollectStep(before, written);
    }
  }

  /** `sorted(list(routes))` */
  method SortRoutes(routes: set<string>) returns (sorted: seq<string>)
    ensures sorted == SortedList(routes)
  {
    sorted := [];
    var rest := routes;
    while rest != {}
      invariant rest <= routes
      invariant StrictlyAscending(sorted) && Elems(sorted) == routes - rest
      decreases |rest|
    {
      var r :| r in rest;
      sorted := InsertSorted(sorted, r);
      rest := rest - {r};
    }
    AscendingUnique(sorted, SortedList(routes));
  }

  // ---------------------------------------------------------------------
  // What the join holds.

  /** Row `j` of agency `a`'s `stop_times` puts route `r` on stop `k`. */
  predicate Serves(ds: seq<Dataset>, tripToRoute: map<string, string>, prefix: bool, a: int, j: int, k: string, r: string) {
    && 0 <= a < |ds| && 0 <= j < |ds[a].tables.stopTimes|
    && StopTimeWrite(prefix, tripToRoute, ds[a].agency, ds[a].tables.stopTimes[j]) == Some((k, r))
  }

  /** A `stop_times` row puts route `r` on stop `k` exactly when its stop id
      and trip id are not blank, `k` is its stop id and `r` the route of its
      trip id (both prefixed with the row's agency), and `r` is not empty. */
  lemma {:induction false} ServesMeans(prefix: bool, tripToRoute: map<string, string>, agency: string, row: Row, k: string, r: string)
    ensures StopTimeWrite(prefix, tripToRoute, agency, row) == Some((k, r)) <==>
      var sid, tid := Strip(Field(row, "stop_id")), Strip(Field(row, "trip_id"));
      && sid != "" && tid != ""
      && k == AgencyPrefix(agency, prefix) + sid
      && AgencyPrefix(agency, prefix) + tid in tripToRoute
      && tripToRoute[AgencyPrefix(agency, prefix) + tid] == r
      && r != ""
  {
  }

  /** Source `a` of the `stop_times` walk is agency `a`'s `stop_times`. */
  lemma {:induction false} StopTimesSource(ds: seq<Dataset>, a: nat)
    requires a < |ds|
    ensures Sources(ds, StopTimes)[a].agency == ds[a].agency
    ensures Sources(ds, StopTimes)[a].rows == ds[a].tables.stopTimes
  {
  }

  lemma {:induction false} WriteServes(ds: seq<Dataset>, tripToRoute: map<string, string>, prefix: bool, a: nat, j: nat, k: string, r: string)
    requires a < |ds| && j < |ds[a].tables.stopTimes|
    ensures StopTimeWrites(prefix, tripToRoute)(ds[a].agency, ds[a].tables.stopTimes[j]) == Some((k, r))
      <==> Serves(ds, tripToRoute, prefix, a, j, k, r)
  {
  }

  /** The `stop_times` row that put route `r` on stop `k`. */
  lemma {:induction false} ServingRow(ds: seq<Dataset>, tripToRoute: map<string, string>, prefix: bool, k: string, r: string) returns (a: nat, j: nat)
    requires (k, r) in Writes(Sources(ds, StopTimes), StopTimeWrites(prefix, tripToRoute))
    ensures Serves(ds, tripToRoute, prefix, a, j, k, r)
  {
    var srcs, f := Sources(ds, StopTimes), StopTimeWrites(prefix, tripToRoute);
    a, j := WrittenRow(srcs, f, (k, r));
    StopTimesSource(ds, a);
    WriteServes(ds, tripToRoute, prefix, a, j, k, r);
  }

  /** A `stop_times` row that puts route `r` on stop `k` makes that write. */
  lemma {:induction false} ServingWrite(ds: seq<Dataset>, tripToRoute: map<string, string>, prefix: bool, a: nat, j: nat, k: string, r: string)
    requires Serves(ds, tripToRoute, prefix, a, j, k, r)
    ensures (k, r) in Writes(Sources(ds, StopTimes), StopTimeWrites(prefix, tripToRoute))
  {
    var srcs, f := Sources(ds, StopTimes), StopTimeWrites(prefix, tripToRoute);
    StopTimesSource(ds, a);
    WriteServes(ds, tripToRoute, prefix, a, j, k, r);
    WritesMember(srcs, f, (k, r));
  }

  /** Route `r` is listed for stop `k` exactly when some `stop_times` row
      puts it there. */
  lemma {:induction false} ServedIff(ds: seq<Dataset>, tripToRoute: map<string, string>, prefix: bool, k: string, r: string)
    ensures (k in StopRoutesOf(ds, tripToRoute, prefix) && r in Elems(StopRoutesOf(ds, tripToRoute, prefix)[k]))
      <==> exists a, j :: Serves(ds, tripToRoute, prefix, a, j, k, r)
  {
    var w := Writes(Sources(ds, StopTimes), StopTimeWrites(prefix, tripToRoute));
    CollectIff(w, k, r);
    if exists a, j :: Serves(ds, tripToRoute, prefix, a, j, k, r) {
      var a, j :| Serves(ds, tripToRoute, prefix, a, j, k, r);
      ServingWrite(ds, tripToRoute, prefix, a, j, k, r);
    }
    if (k, r) in w {
      var a, j := ServingRow(ds, tripToRoute, prefix, k, r);
    }
  }

  /** Every listed stop has at least one route, and its routes are sorted
      with no repeats. */
  lemma {:induction false} StopRoutesSorted(ds: seq<Dataset>, tripToRoute: map<string, string>, prefix: bool, k: string)
    requires k in StopRoutesOf(ds, tripToRoute, prefix)
    ensures StopRoutesOf(ds, tripToRoute, prefix)[k] != []
    ensures StrictlyAscending(StopRoutesOf(ds, tripToRoute, prefix)[k])
    ensures forall i, j :: 0 <= i < j < |StopRoutesOf(ds, tripToRoute, prefix)[k]| ==>
      StopRoutesOf(ds, tripToRoute, prefix)[k][i] != StopRoutesOf(ds, tripToRoute, prefix)[k][j]
  {
    var xs := StopRoutesOf(ds, tripToRoute, prefix)[k];
    CollectNonEmpty(Writes(Sources(ds, StopTimes), StopTimeWrites(prefix, tripToRoute)), k);
    ElemsEmpty(xs);
    AscendingDistinct(xs);
  }
}
