/** The run of the generator after the archives are loaded: the relevant
    tables of each archive become the per-agency datasets; their stops are
    harmonised, then filtered; the route index is built and, unless
    enrichment is skipped, the stop-to-routes join; and the feature
    collection is assembled. No archive at all is an error. */
module Pipeline {
  import opened Text
  import opened Collections
  import opened Gtfs
  import opened Harmonize
  import opened StopFilter
  import opened RouteIndex
  import opened StopRoutes
  import opened GeoJson

  /** The datasets of the archives, in the order their agency codes first
      appear. */
  function DatasetsOf(archives: seq<(string, Tables)>): seq<Dataset> {
    Items(AssignAll(archives))
  }

  /** The clean stops of the archives. */
  function CleanStopsOf(archives: seq<(string, Tables)>, prefix: bool, parseFloat: FloatParser, parseInt: IntParser): OrderedMap<CleanStop> {
    Cleaned(Consolidated(DatasetsOf(archives), prefix), parseFloat, parseInt)
  }

  /** The route lists the features are given: none when enrichment is
      skipped. */
  ghost function RouteListsOf(archives: seq<(string, Tables)>, prefix: bool, skipEnrich: bool): map<string, seq<string>> {
    var ds := DatasetsOf(archives);
    if skipEnrich then map[] else StopRoutesOf(ds, TripToRoute(ds, prefix), prefix)
  }

  /** What the generator writes for the archives, or `None` when there are
      none. */
  ghost function Generated(archives: seq<(string, Tables)>, prefix: bool, skipEnrich: bool,
                           parseFloat: FloatParser, parseInt: IntParser, date: string): Option<FeatureCollection>
  {
    if archives == [] then None
    else
      var ds := DatasetsOf(archives);
      Some(GeoJsonOf(CleanStopsOf(archives, prefix, parseFloat, parseInt),
        RouteListsOf(archives, prefix, skipEnrich), RouteInfoOf(ds, prefix), date))
  }

  /** Runs the stages in order on the loaded archives. */
  method GenerateStops(archives: seq<(string, Tables)>, prefix: bool, skipEnrich: bool,
                       parseFloat: FloatParser, parseInt: IntParser, date: string)
    returns (geo: Option<FeatureCollection>)
    ensures geo == Generated(archives, prefix, skipEnrich, parseFloat, parseInt, date)
  {
    if archives == [] {
      return None;
    }
    var datasets := ExtractRelevantTables(archives);
    var ds := Items(datasets);
    var consolidated, stopToAgency := HarmonizeAndConsolidate(ds, prefix);
    var cleanStops := FilterAndCleanStops(consolidated, parseFloat, parseInt);
    var routeInfo, tripToRoute := BuildRouteMappings(ds, prefix);
    var stopRoutes: map<string, seq<string>> := map[];
    if !skipEnrich {
      stopRoutes := BuildStopToRoutes(ds, tripToRoute, prefix);
    }
    var collection := CreateGeoJson(cleanStops, stopRoutes, routeInfo, date);
    geo := Some(collection);
  }

  // ---------------------------------------------------------------------
  // What the generated collection says about the archives.

  /** The features of the generated collection. */
  ghost function FeaturesOf(archives: seq<(string, Tables)>, prefix: bool, skipEnrich: bool,
                            parseFloat: FloatParser, parseInt: IntParser, date: string): seq<Feature>
    requires archives != []
  {
    Generated(archives, prefix, skipEnrich, parseFloat, parseInt, date).value.features
  }

  /** Feature `i` comes from stop row `j` of dataset `a`, a row naming its
      id whose annotated copy the harmonisation kept: the id is that row's stop id, stripped and prefixed with
      the agency; `orig_stop_id` and `agency` record them; its point is the
      row's longitude then latitude, both parsed; its location type is 0 or
      1. */
  lemma {:induction false} FeatureSource(archives: seq<(string, Tables)>, prefix: bool, skipEnrich: bool,
                      parseFloat: FloatParser, parseInt: IntParser, date: string, i: nat)
    returns (a: nat, j: nat)
    requires archives != []
    requires i < |FeaturesOf(archives, prefix, skipEnrich, parseFloat, parseInt, date)|
    ensures var ds := DatasetsOf(archives);
      var f := FeaturesOf(archives, prefix, skipEnrich, parseFloat, parseInt, date)[i];
      && Names(ds, prefix, a, j, f.id)
      && var row := ds[a].tables.stops[j];
      && f.id == HarmonizedId(ds[a].agency, StopIdOf(row), prefix)
      && f.properties.stopId == f.id
      && f.properties.origStopId == Some(StopIdOf(row))
      && f.properties.agency == Some(ds[a].agency)
      && parseFloat(LongitudeText(row)).Some? && parseFloat(LatitudeText(row)).Some?
      && f.geometry.coordinates == [parseFloat(LongitudeText(row)).value, parseFloat(LatitudeText(row)).value]
      && f.properties.locationType == LocationType(row, parseInt)
      && f.properties.locationType in {0, 1}
  {
    var ds := DatasetsOf(archives);
    var consolidated := Consolidated(ds, prefix);
    var clean := CleanStopsOf(archives, prefix, parseFloat, parseInt);
    var routeLists := RouteListsOf(archives, prefix, skipEnrich);
    FeatureOfStop(clean, routeLists, RouteInfoOf(ds, prefix), date, i);
    var k := clean.keys[i];
    CleanedKeeps(consolidated, parseFloat, parseInt, k);
    a, j := KeptRow(ds, prefix, k);
    var row := ds[a].tables.stops[j];
    AnnotatedFields(row, StopIdOf(row), ds[a].agency, parseInt);
  }

  /** Stop id `k` has a feature exactly when the harmonisation kept a row
      for it and that row is mappable; it then has exactly one. */
  lemma {:induction false} FeatureForStop(archives: seq<(string, Tables)>, prefix: bool, skipEnrich: bool,
                       parseFloat: FloatParser, parseInt: IntParser, date: string, k: string)
    requires archives != []
    ensures var fs := FeaturesOf(archives, prefix, skipEnrich, parseFloat, parseInt, date);
      var consolidated := Consolidated(DatasetsOf(archives), prefix);
      && ((exists i :: 0 <= i < |fs| && fs[i].id == k)
          <==> k in consolidated.entries && Mappable(consolidated.entries[k], parseFloat, parseInt))
      && (forall i, j :: 0 <= i < j < |fs| ==> fs[i].id != fs[j].id)
  {
    var ds := DatasetsOf(archives);
    var consolidated := Consolidated(ds, prefix);
    var clean := CleanStopsOf(archives, prefix, parseFloat, parseInt);
    var routeLists := RouteListsOf(archives, prefix, skipEnrich);
    var fs := FeaturesOf(archives, prefix, skipEnrich, parseFloat, parseInt, date);
    OneFeaturePerStop(clean, routeLists, RouteInfoOf(ds, prefix), date);
    CleanedKeeps(consolidated, parseFloat, parseInt, k);
    if k in clean.entries {
      var i :| 0 <= i < |clean.keys| && clean.keys[i] == k;
      assert fs[i].id == k;
    }
  }

  /** With enrichment on, the `routes_serving` of feature `i` lists, once
      each and in ascending order of route id, exactly the routes that some
      `stop_times` row puts on the feature's stop; a route is shown by the
      short name of its `route_info` entry when it has one, by its id
      otherwise. */
  lemma {:induction false} RoutesServed(archives: seq<(string, Tables)>, prefix: bool,
                     parseFloat: FloatParser, parseInt: IntParser, date: string, i: nat)
    returns (rids: seq<string>)
    requires archives != []
    requires i < |FeaturesOf(archives, prefix, false, parseFloat, parseInt, date)|
    ensures var ds := DatasetsOf(archives);
      var f := FeaturesOf(archives, prefix, false, parseFloat, parseInt, date)[i];
      var routeInfo := RouteInfoOf(ds, prefix);
      && StrictlyAscending(rids)
      && (forall r :: r in rids <==> exists a, j :: Serves(ds, TripToRoute(ds, prefix), prefix, a, j, f.id, r))
      && |f.properties.routesServing| == |rids|
      && (forall m :: 0 <= m < |rids| ==>
            f.properties.routesServing[m] == if rids[m] in routeInfo then routeInfo[rids[m]].shortName else rids[m])
  {
    var ds := DatasetsOf(archives);
    var tripToRoute := TripToRoute(ds, prefix);
    var routeInfo := RouteInfoOf(ds, prefix);
    var clean := CleanStopsOf(archives, prefix, parseFloat, parseInt);
    var routeLists := StopRoutesOf(ds, tripToRoute, prefix);
    assert FeaturesOf(archives, prefix, false, parseFloat, parseInt, date)
      == GeoJsonOf(clean, routeLists, routeInfo, date).features;
    FeatureOfStop(clean, routeLists, routeInfo, date, i);
    var k := clean.keys[i];
    rids := RouteList(k, routeLists);
    ListedRoutes(ds, tripToRoute, prefix, k);
    ShortNamesShown(ds, prefix, rids);
  }

  /** The route list of stop `k` is ascending and holds exactly the routes
      some `stop_times` row puts on `k`. */
  lemma {:induction false} ListedRoutes(ds: seq<Dataset>, tripToRoute: map<string, string>, prefix: bool, k: string)
    ensures var rids := RouteList(k, StopRoutesOf(ds, tripToRoute, prefix));
      && StrictlyAscending(rids)
      && (forall r :: r in rids <==> exists a, j :: Serves(ds, tripToRoute, prefix, a, j, k, r))
  {
    var routeLists := StopRoutesOf(ds, tripToRoute, prefix);
    var rids := RouteList(k, routeLists);
    if k in routeLists {
      StopRoutesSorted(ds, tripToRoute, prefix, k);
    }
    forall r
      ensures r in rids <==> exists a, j :: Serves(ds, tripToRoute, prefix, a, j, k, r)
    {
      ServedIff(ds, tripToRoute, prefix, k, r);
    }
  }

  /** A known route is shown by its short name. */
  lemma {:induction false} ShortNamesShown(ds: seq<Dataset>, prefix: bool, rids: seq<string>)
    ensures var routeInfo := RouteInfoOf(ds, prefix);
      forall m :: 0 <= m < |rids| ==>
        DisplayName(rids[m], routeInfo) == if rids[m] in routeInfo then routeInfo[rids[m]].shortName else rids[m]
  {
    var routeInfo := RouteInfoOf(ds, prefix);
    forall m | 0 <= m < |rids| && rids[m] in routeInfo
      ensures routeInfo[rids[m]].shortName != ""
    {
      RouteInfoEntry(ds, prefix, rids[m]);
    }
  }

  /** With enrichment skipped, no feature lists any route. */
  lemma {:induction false} SkippedEnrichmentListsNoRoutes(archives: seq<(string, Tables)>, prefix: bool,
                                       parseFloat: FloatParser, parseInt: IntParser, date: string, i: nat)
    requires archives != []
    requires i < |FeaturesOf(archives, prefix, true, parseFloat, parseInt, date)|
    ensures FeaturesOf(archives, prefix, true, parseFloat, parseInt, date)[i].properties.routesServing == []
  {
    var ds := DatasetsOf(archives);
    NoRoutesWithoutLists(CleanStopsOf(archives, prefix, parseFloat, parseInt), map[], RouteInfoOf(ds, prefix), date, i);
  }

  /** The filter reads the annotated row's columns exactly as the raw
      row's. */
  lemma {:induction false} AnnotatedFields(row: Row, stopId: string, agency: string, parseInt: IntParser)
    ensures var r := Annotate(row, stopId, agency);
      && LatitudeText(r) == LatitudeText(row) && LongitudeText(r) == LongitudeText(row)
      && LocationType(r, parseInt) == LocationType(row, parseInt)
  {
    var r := Annotate(row, stopId, agency);
    AnnotatedField(row, stopId, agency, "stop_lat");
    AnnotatedField(row, stopId, agency, "lat");
    AnnotatedField(row, stopId, agency, "stop_lon");
    AnnotatedField(row, stopId, agency, "lon");
    AnnotatedField(row, stopId, agency, "location_type");
    assert LatitudeText(r) == LatitudeText(row);
    assert LongitudeText(r) == LongitudeText(row);
  }

  /** A column whose name does not start with `_`, as no GTFS column's
      does, reads the same after annotating. */
  lemma {:induction false} AnnotatedField(row: Row, stopId: string, agency: string, c: string)
    requires |c| > 0 && c[0] != '_'
    ensures Field(Annotate(row, stopId, agency), c) == Field(row, c)
  {
    assert "_orig_stop_id"[0] == '_' && "_agency"[0] == '_';
  }
}
