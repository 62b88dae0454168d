/** Assembling the GeoJSON feature collection: one point feature per clean
    stop, in the order of the clean dict, with the stop's fields as
    properties and the routes serving it shown by their short names. The
    generation date is the clock reading, passed in as text. */
module GeoJson {
  import opened Collections
  import opened StopFilter
  import opened RouteIndex

  /** The `properties` object of a feature. */
  datatype Properties = Properties(
    stopId: string,
    origStopId: Option<string>,
    agency: Option<string>,
    name: string,
    code: string,
    locationType: int,
    parentStation: string,
    routesServing: seq<string>)

  /** A GeoJSON `Point`: its coordinates are `[longitude, latitude]`. */
  datatype Geometry = Point(coordinates: seq<real>)

  datatype Feature = Feature(id: string, geometry: Geometry, properties: Properties)

  datatype Metadata = Metadata(dateGenerated: string, gtfsSource: string, license: string)

  datatype FeatureCollection = FeatureCollection(name: string, metadata: Metadata, features: seq<Feature>)

  const CollectionName: string := "Cyprus_Public_Transport_Stops"
  const GtfsSource: string := "Cyprus National Access Point / MotionBusCard"
  const License: string := "CC-BY-4.0"

  /** How route `rid` is shown: its short name when the route is known and
      the short name is not empty, otherwise the route id itself. */
  function DisplayName(rid: string, routeInfo: map<string, RouteInfo>): string {
    if rid in routeInfo && routeInfo[rid].shortName != "" then routeInfo[rid].shortName else rid
  }

  /** `stop_routes.get(sid, [])` */
  function RouteList(sid: string, stopRoutes: map<string, seq<string>>): seq<string> {
    if sid in stopRoutes then stopRoutes[sid] else []
  }

  /** The `routes_serving` list of route ids `rids`, one name per id, in
      their order. */
  function DisplayNames(rids: seq<string>, routeInfo: map<string, RouteInfo>): seq<string> {
    if rids == [] then []
    else DisplayNames(rids[..|rids| - 1], routeInfo) + [DisplayName(rids[|rids| - 1], routeInfo)]
  }

  /** The feature of clean stop `s`, listed under `sid`, served by `rids`. */
  function FeatureOf(sid: string, s: CleanStop, rids: seq<string>, routeInfo: map<string, RouteInfo>): Feature {
    Feature(sid, Point([s.stopLon, s.stopLat]),
      Properties(s.stopId, s.origStopId, s.agency, s.stopName, s.stopCode, s.locationType, s.parentStation,
        DisplayNames(rids, routeInfo)))
  }

  /** The features of the first `n` clean stops. */
  function FeaturesUpTo(clean: OrderedMap<CleanStop>, stopRoutes: map<string, seq<string>>,
                        routeInfo: map<string, RouteInfo>, n: nat): (fs: seq<Feature>)
    requires clean.Valid() && n <= |clean.keys|
    ensures |fs| == n
  {
    if n == 0 then []
    else
      var sid := clean.keys[n - 1];
      FeaturesUpTo(clean, stopRoutes, routeInfo, n - 1)
        + [FeatureOf(sid, clean.entries[sid], RouteList(sid, stopRoutes), routeInfo)]
  }

  /** The collection `create_geojson` returns, generated at `date`. */
  function GeoJsonOf(clean: OrderedMap<CleanStop>, stopRoutes: map<string, seq<string>>,
                     routeInfo: map<string, RouteInfo>, date: string): FeatureCollection
    requires clean.Valid()
  {
    FeatureCollection(CollectionName, Metadata(date, GtfsSource, License),
      FeaturesUpTo(clean, stopRoutes, routeInfo, |clean.keys|))
  }

  /** Builds the collection: for each clean stop, its properties and the
      names of the routes listed for it, appended one by one. */
  method CreateGeoJson(clean: OrderedMap<CleanStop>, stopRoutes: map<string, seq<string>>,
                       routeInfo: map<string, RouteInfo>, date: string)
    returns (geo: FeatureCollection)
    requires clean.Valid()
    ensures geo == GeoJsonOf(clean, stopRoutes, routeInfo, date)
  {
    var features: seq<Feature> := [];
    for i := 0 to |clean.keys|
      invariant features == FeaturesUpTo(clean, stopRoutes, routeInfo, i)
    {
      var sid := clean.keys[i];
      var s := clean.entries[sid];
      var coords := [s.stopLon, s.stopLat];
      var rlist := if sid in stopRoutes then stopRoutes[sid] else [];
      var served := RoutesServing(rlist, routeInfo);
      var props := Properties(s.stopId, s.origStopId, s.agency, s.stopName, s.stopCode, s.locationType,
        s.parentStation, served);
      features := features + [Feature(sid, Point(coords), props)];
    }
    geo := FeatureCollection(CollectionName, Metadata(date, GtfsSource, License), features);
  }

  /** The `routes_serving` loop of one stop: the display name of each route
      id, appended in order. */
  method RoutesServing(rlist: seq<string>, routeInfo: map<string, RouteInfo>) returns (served: seq<string>)
    ensures served == DisplayNames(rlist, routeInfo)
  {
    served := [];
    for j := 0 to |rlist|
      invariant served == DisplayNames(rlist[..j], routeInfo)
    {
      var rid := rlist[j];
      if rid in routeInfo && routeInfo[rid].shortName != "" {
        served := served + [routeInfo[rid].shortName];
      } else {
        served := served + [rid];
      }
      assert rlist[..j + 1][..j] == rlist[..j];
    }
    assert rlist[..|rlist|] == rlist;
  }

  // ---------------------------------------------------------------------
  // What the collection holds.

  /** `routes_serving` keeps the length and the order of the route list:
      position `i` shows route `rids[i]`. */
  lemma {:induction false} DisplayNamesAt(rids: seq<string>, routeInfo: map<string, RouteInfo>)
    ensures |DisplayNames(rids, routeInfo)| == |rids|
    ensures forall i :: 0 <= i < |rids| ==> DisplayNames(rids, routeInfo)[i] == DisplayName(rids[i], routeInfo)
  {
    if rids != [] {
      DisplayNamesAt(rids[..|rids| - 1], routeInfo);
    }
  }

  /** The first `n` features are those of the first `n` clean stops, in
      order: feature `i` is listed under the `i`-th clean id. */
  lemma {:induction false} FeaturesUpToAt(clean: OrderedMap<CleanStop>, stopRoutes: map<string, seq<string>>,
                                         routeInfo: map<string, RouteInfo>, n: nat)
    requires clean.Valid() && n <= |clean.keys|
    ensures forall i :: 0 <= i < n ==>
      FeaturesUpTo(clean, stopRoutes, routeInfo, n)[i]
        == FeatureOf(clean.keys[i], clean.entries[clean.keys[i]], RouteList(clean.keys[i], stopRoutes), routeInfo)
  {
    if n > 0 {
      FeaturesUpToAt(clean, stopRoutes, routeInfo, n - 1);
    }
  }

  /** One feature per clean stop, in the order of the clean dict, each with
      the stop's id as its id; so no id is repeated. */
  lemma {:induction false} OneFeaturePerStop(clean: OrderedMap<CleanStop>, stopRoutes: map<string, seq<string>>,
                          routeInfo: map<string, RouteInfo>, date: string)
    requires clean.Valid()
    ensures var fs := GeoJsonOf(clean, stopRoutes, routeInfo, date).features;
      && |fs| == |clean.keys|
      && (forall i :: 0 <= i < |fs| ==> fs[i].id == clean.keys[i])
      && (forall i, j :: 0 <= i < j < |fs| ==> fs[i].id != fs[j].id)
  {
    FeaturesUpToAt(clean, stopRoutes, routeInfo, |clean.keys|);
  }

  /** The feature of clean stop `sid`: its point is `[longitude, latitude]`,
      its properties are the stop's fields, and `routes_serving` shows the
      routes listed for `sid`, one name each, in their order (none when
      `sid` has no list). */
  lemma {:induction false} FeatureOfStop(clean: OrderedMap<CleanStop>, stopRoutes: map<string, seq<string>>,
                      routeInfo: map<string, RouteInfo>, date: string, i: nat)
    requires clean.Valid() && i < |clean.keys|
    ensures var f := GeoJsonOf(clean, stopRoutes, routeInfo, date).features[i];
      var sid := clean.keys[i];
      var s := clean.entries[sid];
      var rids := if sid in stopRoutes then stopRoutes[sid] else [];
      && f.id == sid
      && f.geometry.coordinates == [s.stopLon, s.stopLat]
      && f.properties.stopId == s.stopId
      && f.properties.origStopId == s.origStopId
      && f.properties.agency == s.agency
      && f.properties.name == s.stopName
      && f.properties.code == s.stopCode
      && f.properties.locationType == s.locationType
      && f.properties.parentStation == s.parentStation
      && |f.properties.routesServing| == |rids|
      && (forall r :: 0 <= r < |rids| ==> f.properties.routesServing[r] == DisplayName(rids[r], routeInfo))
  {
    var sid := clean.keys[i];
    FeaturesUpToAt(clean, stopRoutes, routeInfo, |clean.keys|);
    DisplayNamesAt(RouteList(sid, stopRoutes), routeInfo);
  }

  /** A clean stop with no route list still gets its feature, with an
      empty `routes_serving`. */
  lemma {:induction false} NoRoutesWithoutLists(clean: OrderedMap<CleanStop>, stopRoutes: map<string, seq<string>>,
                                                routeInfo: map<string, RouteInfo>, date: string, i: nat)
    requires clean.Valid() && i < |clean.keys| && clean.keys[i] !in stopRoutes
    ensures |GeoJsonOf(clean, stopRoutes, routeInfo, date).features| == |clean.keys|
    ensures GeoJsonOf(clean, stopRoutes, routeInfo, date).features[i].id == clean.keys[i]
    ensures GeoJsonOf(clean, stopRoutes, routeInfo, date).features[i].properties.routesServing == []
  {
    FeaturesUpToAt(clean, stopRoutes, routeInfo, |clean.keys|);
  }
}
