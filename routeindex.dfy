/** The route index: route metadata keyed by (prefixed) route id, and each
    (prefixed) trip id to the (prefixed) id of its route. Both dicts are
    filled by plain assignment, so a later row with the same id replaces an
    earlier one. A trip's route id is prefixed with the trip's own agency. */
module RouteIndex {
  import opened Text
  import opened Collections
  import opened Gtfs

  /** One entry of `route_info`. */
  datatype RouteInfo = RouteInfo(routeId: string, shortName: string, longName: string, agency: string)

  /** `(row.get('route_id') or '').strip()` */
  function RouteIdOf(row: Row): string {
    Strip(Field(row, "route_id"))
  }

  /** `(row.get('trip_id') or '').strip()` */
  function TripIdOf(row: Row): string {
    Strip(Field(row, "trip_id"))
  }

  /** The `route_info` entry of a routes row of `agency`, under id `id`. */
  function InfoOf(row: Row, id: string, agency: string): RouteInfo {
    RouteInfo(id, FieldOr(row, "route_short_name", "route_id"), Field(row, "route_long_name"), agency)
  }

  /** What a routes row contributes: nothing when its route id is blank. */
  function RouteWrite(prefix: bool, agency: string, row: Row): Option<(string, RouteInfo)> {
    var rid := RouteIdOf(row);
    if rid == "" then None
    else
      var id := AgencyPrefix(agency, prefix) + rid;
      Some((id, InfoOf(row, id, agency)))
  }

  function RouteWrites(prefix: bool): RowWrite<RouteInfo> {
    (agency, row) => RouteWrite(prefix, agency, row)
  }

  /** What a trips row contributes: nothing when its trip id or its route id
      is blank. */
  function TripWrite(prefix: bool, agency: string, row: Row): Option<(string, string)> {
    var tid := TripIdOf(row);
    var rid := RouteIdOf(row);
    if tid == "" || rid == "" then None
    else Some((AgencyPrefix(agency, prefix) + tid, AgencyPrefix(agency, prefix) + rid))
  }

  function TripWrites(prefix: bool): RowWrite<string> {
    (agency, row) => TripWrite(prefix, agency, row)
  }

  /** The `route_info` dict. */
  function RouteInfoOf(ds: seq<Dataset>, prefix: bool): map<string, RouteInfo> {
    AssignAll(Writes(Sources(ds, Routes), RouteWrites(prefix))).entries
  }

  /** The `trip_to_route` dict. */
  function TripToRoute(ds: seq<Dataset>, prefix: bool): map<string, string> {
    AssignAll(Writes(Sources(ds, Trips), TripWrites(prefix))).entries
  }

  /** Builds both dicts, dataset by dataset: its routes, then its trips. */
  method BuildRouteMappings(ds: seq<Dataset>, prefix: bool)
    returns (routeInfo: map<string, RouteInfo>, tripToRoute: map<string, string>)
    ensures routeInfo == RouteInfoOf(ds, prefix)
    ensures tripToRoute == TripToRoute(ds, prefix)
  {
    routeInfo := map[];
    tripToRoute := map[];
    for a := 0 to |ds|
      invariant routeInfo == AssignAll(Writes(Sources(ds, Routes)[..a], RouteWrites(prefix))).entries
      invariant tripToRoute == AssignAll(Writes(Sources(ds, Trips)[..a], TripWrites(prefix))).entries
    {
      var agencyPrefix := if prefix then ds[a].agency + "_" else "";
      routeInfo := IndexRoutes(ds, a, prefix, agencyPrefix, routeInfo);
      tripToRoute := IndexTrips(ds, a, prefix, agencyPrefix, tripToRoute);
    }
    WritesAll(ds, Routes, RouteWrites(prefix));
    WritesAll(ds, Trips, TripWrites(prefix));
  }

  /** The routes loop of dataset `a`: `route_info[rid_p] = {...}` for each
      routes row with a non-blank route id. */
  method IndexRoutes(ds: seq<Dataset>, a: nat, prefix: bool, agencyPrefix: string, routeInfo0: map<string, RouteInfo>)
    returns (routeInfo: map<string, RouteInfo>)
    requires a < |ds| && agencyPrefix == AgencyPrefix(ds[a].agency, prefix)
    requires routeInfo0 == AssignAll(Writes(Sources(ds, Routes)[..a], RouteWrites(prefix))).entries
    ensures routeInfo == AssignAll(Writes(Sources(ds, Routes)[..a + 1], RouteWrites(prefix))).entries
  {
    ghost var f := RouteWrites(prefix);
    ghost var w := Writes(Sources(ds, Routes)[..a], f);
    var agency, routes := ds[a].agency, ds[a].tables.routes;
    routeInfo := routeInfo0;
    assert routes[..0] == [] && w + [] == w;
    for j := 0 to |routes|
      invariant routeInfo == AssignAll(w + RowWrites(agency, routes[..j], f)).entries
    {
      var r := routes[j];
      AssignAllEntriesRowStep(w, agency, routes, f, j);
      assert f(agency, r) == RouteWrite(prefix, agency, r);
      var rid := RouteIdOf(r);
      if rid != "" {
        var ridP := agencyPrefix + rid;
        var info := RouteInfo(ridP, FieldOr(r, "route_short_name", "route_id"), Field(r, "route_long_name"), agency);
        assert RouteWrite(prefix, agency, r) == Some((ridP, info));
        routeInfo := routeInfo[ridP := info];
      }
    }
    assert Rows(ds[a].tables, Routes) == routes;
    WritesNext(ds, Routes, f, a);
  }

  /** The trips loop of dataset `a`: `trip_to_route[tid_p] = ag_prefix + rid`
      for each trips row with a non-blank trip id and route id. */
  method IndexTrips(ds: seq<Dataset>, a: nat, prefix: bool, agencyPrefix: string, tripToRoute0: map<string, string>)
    returns (tripToRoute: map<string, string>)
    requires a < |ds| && agencyPrefix == AgencyPrefix(ds[a].agency, prefix)
    requires tripToRoute0 == AssignAll(Writes(Sources(ds, Trips)[..a], TripWrites(prefix))).entries
    ensures tripToRoute == AssignAll(Writes(Sources(ds, Trips)[..a + 1], TripWrites(prefix))).entries
  {
    ghost var f := TripWrites(prefix);
    ghost var w := Writes(Sources(ds, Trips)[..a], f);
    var agency, trips := ds[a].agency, ds[a].tables.trips;
    tripToRoute := tripToRoute0;
    assert trips[..0] == [] && w + [] == w;
    for j := 0 to |trips|
      invariant tripToRoute == AssignAll(w + RowWrites(agency, trips[..j], f)).entries
    {
      var t := trips[j];
      AssignAllEntriesRowStep(w, agency, trips, f, j);
      assert f(agency, t) == TripWrite(prefix, agency, t);
      var tid := TripIdOf(t);
      if tid != "" {
        var tidP := agencyPrefix + tid;
        var rid := RouteIdOf(t);
        if rid != "" {
          var tidToR := agencyPrefix + rid;
          assert TripWrite(prefix, agency, t) == Some((tidP, tidToR));
          tripToRoute := tripToRoute[tidP := tidToR];
        }
      }
    }
    assert Rows(ds[a].tables, Trips) == trips;
    WritesNext(ds, Trips, f, a);
  }

  // ---------------------------------------------------------------------
  // What the route index holds.

  /** Row `j` of agency `a`'s routes has a non-blank route id whose
      (prefixed) id is `k`. */
  predicate RouteNames(ds: seq<Dataset>, prefix: bool, a: int, j: int, k: string) {
    && 0 <= a < |ds| && 0 <= j < |ds[a].tables.routes|
    && RouteIdOf(ds[a].tables.routes[j]) != ""
    && AgencyPrefix(ds[a].agency, prefix) + RouteIdOf(ds[a].tables.routes[j]) == k
  }

  /** Row `j` of agency `a`'s trips has a non-blank trip id whose (prefixed)
      id is `k`, and a non-blank route id. */
  predicate TripNames(ds: seq<Dataset>, prefix: bool, a: int, j: int, k: string) {
    && 0 <= a < |ds| && 0 <= j < |ds[a].tables.trips|
    && TripIdOf(ds[a].tables.trips[j]) != "" && RouteIdOf(ds[a].tables.trips[j]) != ""
    && AgencyPrefix(ds[a].agency, prefix) + TripIdOf(ds[a].tables.trips[j]) == k
  }

  lemma {:induction false} ProducesRouteNames(ds: seq<Dataset>, prefix: bool, a: int, j: int, k: string)
    ensures Produces(Sources(ds, Routes), RouteWrites(prefix), a, j, k) <==> RouteNames(ds, prefix, a, j, k)
  {
    if 0 <= a < |ds| {
      SourceRow(ds, Routes, a, 0);
      if 0 <= j < |ds[a].tables.routes| {
        assert RouteWrites(prefix)(ds[a].agency, ds[a].tables.routes[j]) == RouteWrite(prefix, ds[a].agency, ds[a].tables.routes[j]);
      }
    }
  }

  lemma {:induction false} ProducesTripNames(ds: seq<Dataset>, prefix: bool, a: int, j: int, k: string)
    ensures Produces(Sources(ds, Trips), TripWrites(prefix), a, j, k) <==> TripNames(ds, prefix, a, j, k)
  {
    if 0 <= a < |ds| {
      SourceRow(ds, Trips, a, 0);
      if 0 <= j < |ds[a].tables.trips| {
        assert TripWrites(prefix)(ds[a].agency, ds[a].tables.trips[j]) == TripWrite(prefix, ds[a].agency, ds[a].tables.trips[j]);
      }
    }
  }

  /** A route id is indexed exactly when some routes row names it. */
  lemma {:induction false} RouteInfoKeys(ds: seq<Dataset>, prefix: bool, k: string)
    ensures k in RouteInfoOf(ds, prefix) <==> exists a, j :: RouteNames(ds, prefix, a, j, k)
  {
    var srcs, f := Sources(ds, Routes), RouteWrites(prefix);
    AssignAllKeysWritten(Writes(srcs, f), k);
    WrittenIff(srcs, f, k);
    if exists a, j :: RouteNames(ds, prefix, a, j, k) {
      var a, j :| RouteNames(ds, prefix, a, j, k);
      ProducesRouteNames(ds, prefix, a, j, k);
    }
    if exists a, j :: Produces(srcs, f, a, j, k) {
      var a, j :| Produces(srcs, f, a, j, k);
      ProducesRouteNames(ds, prefix, a, j, k);
    }
  }

  /** The routes row whose entry is kept under `k`. */
  lemma {:induction false} RouteRow(ds: seq<Dataset>, prefix: bool, k: string) returns (a: nat, j: nat)
    requires k in RouteInfoOf(ds, prefix)
    ensures RouteNames(ds, prefix, a, j, k)
    ensures RouteInfoOf(ds, prefix)[k] == InfoOf(ds[a].tables.routes[j], k, ds[a].agency)
  {
    a, j := AssignedRow(Sources(ds, Routes), RouteWrites(prefix), k);
    SourceRow(ds, Routes, a, j);
    assert RouteWrite(prefix, ds[a].agency, ds[a].tables.routes[j]) == Some((k, RouteInfoOf(ds, prefix)[k]));
  }

  /** Every entry of `route_info` is the entry of a routes row that names its
      key: it carries that key as its id, the row's agency, and a non-empty
      short name (the route's own id when the short name is blank). */
  lemma {:induction false} RouteInfoEntry(ds: seq<Dataset>, prefix: bool, k: string)
    requires k in RouteInfoOf(ds, prefix)
    ensures exists a, j :: (RouteNames(ds, prefix, a, j, k)
      && RouteInfoOf(ds, prefix)[k] == InfoOf(ds[a].tables.routes[j], k, ds[a].agency))
    ensures RouteInfoOf(ds, prefix)[k].routeId == k
    ensures RouteInfoOf(ds, prefix)[k].shortName != ""
  {
    var a, j := RouteRow(ds, prefix, k);
    var row := ds[a].tables.routes[j];
    StripEmptyIff(Field(row, "route_id"));
  }

  /** The last routes row to name a route id decides its entry. */
  lemma {:induction false} LastRouteWins(ds: seq<Dataset>, prefix: bool, a: nat, j: nat, k: string)
    requires RouteNames(ds, prefix, a, j, k)
    requires forall a', j' :: RowBefore(a, j, a', j') ==> !RouteNames(ds, prefix, a', j', k)
    ensures k in RouteInfoOf(ds, prefix)
    ensures RouteInfoOf(ds, prefix)[k] == InfoOf(ds[a].tables.routes[j], k, ds[a].agency)
  {
    var srcs, f := Sources(ds, Routes), RouteWrites(prefix);
    forall a', j' | RowBefore(a, j, a', j') ensures !Produces(srcs, f, a', j', k) {
      ProducesRouteNames(ds, prefix, a', j', k);
    }
    SourceRow(ds, Routes, a, j);
    assert f(srcs[a].agency, srcs[a].rows[j]) == RouteWrite(prefix, ds[a].agency, ds[a].tables.routes[j]);
    LastRowWins(srcs, f, a, j);
  }

  /** A trip id is indexed exactly when some trips row names it. */
  lemma {:induction false} TripToRouteKeys(ds: seq<Dataset>, prefix: bool, k: string)
    ensures k in TripToRoute(ds, prefix) <==> exists a, j :: TripNames(ds, prefix, a, j, k)
  {
    var srcs, f := Sources(ds, Trips), TripWrites(prefix);
    AssignAllKeysWritten(Writes(srcs, f), k);
    WrittenIff(srcs, f, k);
    if exists a, j :: TripNames(ds, prefix, a, j, k) {
      var a, j :| TripNames(ds, prefix, a, j, k);
      ProducesTripNames(ds, prefix, a, j, k);
    }
    if exists a, j :: Produces(srcs, f, a, j, k) {
      var a, j :| Produces(srcs, f, a, j, k);
      ProducesTripNames(ds, prefix, a, j, k);
    }
  }

  /** The trips row whose route is kept under `k`. */
  lemma {:induction false} TripRow(ds: seq<Dataset>, prefix: bool, k: string) returns (a: nat, j: nat)
    requires k in TripToRoute(ds, prefix)
    ensures TripNames(ds, prefix, a, j, k)
    ensures TripToRoute(ds, prefix)[k] == AgencyPrefix(ds[a].agency, prefix) + RouteIdOf(ds[a].tables.trips[j])
  {
    var srcs, f := Sources(ds, Trips), TripWrites(prefix);
    a, j := AssignedRow(srcs, f, k);
    TripSourceRow(ds, prefix, a, j);
    TripWriteMeans(prefix, ds[a].agency, ds[a].tables.trips[j], k, TripToRoute(ds, prefix)[k]);
  }

  /** Row `j` of source `a` of the trips walk makes the write of row `j` of
      agency `a`'s trips. */
  lemma {:induction false} TripSourceRow(ds: seq<Dataset>, prefix: bool, a: nat, j: nat)
    requires a < |Sources(ds, Trips)| && j < |Sources(ds, Trips)[a].rows|
    ensures j < |ds[a].tables.trips|
    ensures var src := Sources(ds, Trips)[a];
      TripWrites(prefix)(src.agency, src.rows[j]) == TripWrite(prefix, ds[a].agency, ds[a].tables.trips[j])
  {
    SourceRow(ds, Trips, a, j);
    assert Rows(ds[a].tables, Trips) == ds[a].tables.trips;
  }

  /** A trips row maps `k` to `r` exactly when its trip id and route id are
      not blank, `k` is its prefixed trip id and `r` its prefixed route id. */
  lemma {:induction false} TripWriteMeans(prefix: bool, agency: string, row: Row, k: string, r: string)
    ensures TripWrite(prefix, agency, row) == Some((k, r)) <==>
      && TripIdOf(row) != "" && RouteIdOf(row) != ""
      && k == AgencyPrefix(agency, prefix) + TripIdOf(row)
      && r == AgencyPrefix(agency, prefix) + RouteIdOf(row)
  {
  }

  /** Every trip maps to its own row's route id, prefixed with the trip's
      agency; the route id is never blank. */
  lemma {:induction false} TripTarget(ds: seq<Dataset>, prefix: bool, k: string)
    requires k in TripToRoute(ds, prefix)
    ensures exists a, j :: (TripNames(ds, prefix, a, j, k)
      && TripToRoute(ds, prefix)[k] == AgencyPrefix(ds[a].agency, prefix) + RouteIdOf(ds[a].tables.trips[j]))
    ensures TripToRoute(ds, prefix)[k] != ""
  {
    var a, j := TripRow(ds, prefix, k);
  }

  /** The last trips row to name a trip id decides its route. */
  lemma {:induction false} LastTripWins(ds: seq<Dataset>, prefix: bool, a: nat, j: nat, k: string)
    requires TripNames(ds, prefix, a, j, k)
    requires forall a', j' :: RowBefore(a, j, a', j') ==> !TripNames(ds, prefix, a', j', k)
    ensures k in TripToRoute(ds, prefix)
    ensures TripToRoute(ds, prefix)[k] == AgencyPrefix(ds[a].agency, prefix) + RouteIdOf(ds[a].tables.trips[j])
  {
    var srcs, f := Sources(ds, Trips), TripWrites(prefix);
    forall a', j' | RowBefore(a, j, a', j') ensures !Produces(srcs, f, a', j', k) {
      ProducesTripNames(ds, prefix, a', j', k);
    }
    var row := ds[a].tables.trips[j];
    var r := AgencyPrefix(ds[a].agency, prefix) + RouteIdOf(row);
    SourceRow(ds, Trips, a, j);
    assert Rows(ds[a].tables, Trips) == ds[a].tables.trips;
    TripSourceRow(ds, prefix, a, j);
    TripWriteMeans(prefix, ds[a].agency, row, k, r);
    assert f(srcs[a].agency, srcs[a].rows[j]) == Some((k, r));
    LastRowWins(srcs, f, a, j);
  }
}
