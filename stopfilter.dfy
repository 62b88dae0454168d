/** Filtering and cleaning the consolidated stops: a stop is kept when both of
    its coordinates parse as floats and its location type is 0 (stop) or 1
    (station); a kept stop is reduced to the fields the map needs. Parsing
    text as a float or an integer is Python's `float()` and `int()`, passed in
    as functions that answer `None` where Python raises. */
module StopFilter {
  import opened Text
  import opened Collections
  import opened Gtfs

  /** `float(text)`, or `None` when it raises. */
  type FloatParser = string -> Option<real>

  /** `int(text)`, or `None` when it raises. */
  type IntParser = string -> Option<int>

  /** One stop of the clean dict. */
  datatype CleanStop = CleanStop(
    stopId: string,
    origStopId: Option<string>,
    agency: Option<string>,
    stopName: string,
    stopCode: string,
    locationType: int,
    parentStation: string,
    stopLat: real,
    stopLon: real)

  /** The location type: a blank or absent cell reads as 0 (`int('0')`), a
      cell `int()` rejects reads as 0, any other cell as what `int()` gives. */
  function LocationType(row: Row, parseInt: IntParser): (lt: int)
    ensures Strip(Field(row, "location_type")) == "" ==> lt == 0
    ensures parseInt(Strip(Field(row, "location_type"))).None? ==> lt == 0
  {
    var text := Strip(Field(row, "location_type"));
    if text == "" then 0
    else match parseInt(text)
      case Some(n) => n
      case None => 0
  }

  /** `row.get('stop_lat') or row.get('lat') or ''` */
  function LatitudeText(row: Row): string {
    FieldOr(row, "stop_lat", "lat")
  }

  /** `row.get('stop_lon') or row.get('lon') or ''` */
  function LongitudeText(row: Row): string {
    FieldOr(row, "stop_lon", "lon")
  }

  /** A stop the map can show: both coordinates parse and it is a stop or a
      station. */
  predicate Mappable(row: Row, parseFloat: FloatParser, parseInt: IntParser) {
    && parseFloat(LatitudeText(row)).Some?
    && parseFloat(LongitudeText(row)).Some?
    && LocationType(row, parseInt) in {0, 1}
  }

  /** The clean entry written for consolidated stop `sid`, or nothing when
      the stop is dropped. */
  function CleanWrite(sid: string, row: Row, parseFloat: FloatParser, parseInt: IntParser): (w: Option<(string, CleanStop)>)
    ensures w.Some? <==> Mappable(row, parseFloat, parseInt)
    ensures w.Some? ==> w.value.0 == sid && w.value.1.stopId == sid
  {
    var lat := parseFloat(LatitudeText(row));
    var lon := parseFloat(LongitudeText(row));
    var lt := LocationType(row, parseInt);
    if lat.None? || lon.None? then None
    else if lt != 0 && lt != 1 then None
    else Some((sid, CleanStop(
      sid,
      Lookup(row, "_orig_stop_id"),
      Lookup(row, "_agency"),
      FieldOr(row, "stop_name", "stop_desc"),
      Field(row, "stop_code"),
      lt,
      Field(row, "parent_station"),
      lat.value,
      lon.value)))
  }

  /** The clean dict built from the consolidated stops listed in `keys`. */
  function CleanedFrom(keys: seq<string>, entries: map<string, Row>, parseFloat: FloatParser, parseInt: IntParser): (m: OrderedMap<CleanStop>)
    requires forall k :: k in keys ==> k in entries
  {
    if keys == [] then EmptyMap()
    else
      var k := keys[|keys| - 1];
      AssignStep(CleanedFrom(keys[..|keys| - 1], entries, parseFloat, parseInt), CleanWrite(k, entries[k], parseFloat, parseInt))
  }

  /** The clean dict built from the consolidated stops. */
  function Cleaned(consolidated: OrderedMap<Row>, parseFloat: FloatParser, parseInt: IntParser): (clean: OrderedMap<CleanStop>)
    requires consolidated.Valid()
    ensures clean.Valid()
  {
    CleanedFromValid(consolidated.keys, consolidated.entries, parseFloat, parseInt);
    CleanedFrom(consolidated.keys, consolidated.entries, parseFloat, parseInt)
  }

  /** Filters and cleans the consolidated stops, in their order. */
  method FilterAndCleanStops(consolidated: OrderedMap<Row>, parseFloat: FloatParser, parseInt: IntParser)
    returns (clean: OrderedMap<CleanStop>)
    requires consolidated.Valid()
    ensures clean == Cleaned(consolidated, parseFloat, parseInt)
  {
    var keys := consolidated.keys;
    clean := EmptyMap();
    for i := 0 to |keys|
      invariant forall k :: k in keys[..i] ==> k in consolidated.entries
      invariant clean == CleanedFrom(keys[..i], consolidated.entries, parseFloat, parseInt)
    {
      var sid := keys[i];
      var row := consolidated.entries[sid];
      ghost var before := clean;
      var ltText := Strip(Field(row, "location_type"));
      var lt := 0;
      if ltText != "" {
        match parseInt(ltText)
        case Some(n) => lt := n;
        case None => lt := 0;
      }
      var lat := parseFloat(LatitudeText(row));
      var lon := parseFloat(LongitudeText(row));
      assert lt == LocationType(row, parseInt);
      if lat.Some? && lon.Some? && (lt == 0 || lt == 1) {
        var stop := CleanStop(
          sid,
          Lookup(row, "_orig_stop_id"),
          Lookup(row, "_agency"),
          FieldOr(row, "stop_name", "stop_desc"),
          Field(row, "stop_code"),
          lt,
          Field(row, "parent_station"),
          lat.value,
          lon.value);
        assert CleanWrite(sid, row, parseFloat, parseInt) == Some((sid, stop));
        clean := OrderedMap(if sid in clean.entries then clean.keys else clean.keys + [sid], clean.entries[sid := stop]);
        assert clean == AssignStep(before, Some((sid, stop)));
      } else {
        assert CleanWrite(sid, row, parseFloat, parseInt) == None;
      }
      CleanedFromStep(keys, consolidated.entries, parseFloat, parseInt, i);
    }
    assert keys[..|keys|] == keys;
  }

  /** The clean dict one consolidated stop further. */
  lemma {:induction false} CleanedFromStep(keys: seq<string>, entries: map<string, Row>, parseFloat: FloatParser, parseInt: IntParser, i: nat)
    requires forall k :: k in keys ==> k in entries
    requires i < |keys|
    ensures forall k :: k in keys[..i] ==> k in entries
    ensures forall k :: k in keys[..i + 1] ==> k in entries
    ensures CleanedFrom(keys[..i + 1], entries, parseFloat, parseInt)
      == AssignStep(CleanedFrom(keys[..i], entries, parseFloat, parseInt), CleanWrite(keys[i], entries[keys[i]], parseFloat, parseInt))
  {
    assert keys[..i + 1][..i] == keys[..i];
  }

  // ---------------------------------------------------------------------
  // What the clean dict holds.

  /** The clean dict is a dict: each id once, listed ids are its keys. */
  lemma {:induction false} CleanedFromValid(keys: seq<string>, entries: map<string, Row>, parseFloat: FloatParser, parseInt: IntParser)
    requires forall k :: k in keys ==> k in entries
    ensures CleanedFrom(keys, entries, parseFloat, parseInt).Valid()
  {
    if keys != [] {
      CleanedFromValid(keys[..|keys| - 1], entries, parseFloat, parseInt);
    }
  }

  /** Id `k` is in the clean dict exactly when it is listed and its row is
      mappable, and then its entry is the row's clean entry. */
  lemma {:induction false} CleanedFromKey(keys: seq<string>, entries: map<string, Row>, parseFloat: FloatParser, parseInt: IntParser, k: string)
    requires forall k :: k in keys ==> k in entries
    ensures k in CleanedFrom(keys, entries, parseFloat, parseInt).entries <==> k in keys && Mappable(entries[k], parseFloat, parseInt)
    ensures k in CleanedFrom(keys, entries, parseFloat, parseInt).entries ==>
      CleanWrite(k, entries[k], parseFloat, parseInt) == Some((k, CleanedFrom(keys, entries, parseFloat, parseInt).entries[k]))
  {
    if keys != [] {
      var init := keys[..|keys| - 1];
      var last := keys[|keys| - 1];
      CleanedFromKey(init, entries, parseFloat, parseInt, k);
      AssignStepKey(CleanedFrom(init, entries, parseFloat, parseInt), CleanWrite(last, entries[last], parseFloat, parseInt), k);
      assert k in keys <==> k in init || k == last;
    }
  }

  /** A consolidated stop is kept exactly when it is mappable, and then under
      its consolidated id with the row's fields. */
  lemma {:induction false} CleanedKeeps(consolidated: OrderedMap<Row>, parseFloat: FloatParser, parseInt: IntParser, sid: string)
    requires consolidated.Valid()
    ensures Cleaned(consolidated, parseFloat, parseInt).Valid()
    ensures sid in Cleaned(consolidated, parseFloat, parseInt).entries
      <==> sid in consolidated.entries && Mappable(consolidated.entries[sid], parseFloat, parseInt)
    ensures sid in Cleaned(consolidated, parseFloat, parseInt).entries ==>
      var s := Cleaned(consolidated, parseFloat, parseInt).entries[sid];
      var row := consolidated.entries[sid];
      && s.stopId == sid
      && s.locationType == LocationType(row, parseInt) && s.locationType in {0, 1}
      && parseFloat(LatitudeText(row)) == Some(s.stopLat)
      && parseFloat(LongitudeText(row)) == Some(s.stopLon)
      && s.origStopId == Lookup(row, "_orig_stop_id")
      && s.agency == Lookup(row, "_agency")
      && s.stopName == FieldOr(row, "stop_name", "stop_desc")
      && s.stopCode == Field(row, "stop_code")
      && s.parentStation == Field(row, "parent_station")
  {
    CleanedFromValid(consolidated.keys, consolidated.entries, parseFloat, parseInt);
    CleanedFromKey(consolidated.keys, consolidated.entries, parseFloat, parseInt, sid);
  }

  /** Kept stops stay in the order of the consolidated dict: the `i`-th and
      `j`-th kept ids sit at positions `p < q` of the consolidated keys. */
  lemma {:induction false} CleanedOrder(keys: seq<string>, entries: map<string, Row>, parseFloat: FloatParser, parseInt: IntParser, i: nat, j: nat)
    returns (p: nat, q: nat)
    requires forall k :: k in keys ==> k in entries
    requires i < j < |CleanedFrom(keys, entries, parseFloat, parseInt).keys|
    ensures var kept := CleanedFrom(keys, entries, parseFloat, parseInt).keys;
      p < q < |keys| && keys[p] == kept[i] && keys[q] == kept[j]
    decreases |keys|, 1
  {
    CleanedFromGrows(keys, entries, parseFloat, parseInt);
    if j < |CleanedFrom(keys[..|keys| - 1], entries, parseFloat, parseInt).keys| {
      p, q := CleanedOrderEarlier(keys, entries, parseFloat, parseInt, i, j);
    } else {
      p, q := CleanedOrderLast(keys, entries, parseFloat, parseInt, i, j);
    }
  }

  /** `CleanedOrder` when both ids were kept among all but the last id. */
  lemma {:induction false} CleanedOrderEarlier(keys: seq<string>, entries: map<string, Row>, parseFloat: FloatParser, parseInt: IntParser, i: nat, j: nat)
    returns (p: nat, q: nat)
    requires forall k :: k in keys ==> k in entries
    requires i < j < |CleanedFrom(keys, entries, parseFloat, parseInt).keys|
    requires keys != [] && j < |CleanedFrom(keys[..|keys| - 1], entries, parseFloat, parseInt).keys|
    ensures var kept := CleanedFrom(keys, entries, parseFloat, parseInt).keys;
      p < q < |keys| && keys[p] == kept[i] && keys[q] == kept[j]
    decreases |keys|, 0
  {
    CleanedFromGrows(keys, entries, parseFloat, parseInt);
    var init := keys[..|keys| - 1];
    p, q := CleanedOrder(init, entries, parseFloat, parseInt, i, j);
    OrderKeptEarlier(keys, CleanedFrom(init, entries, parseFloat, parseInt).keys,
      CleanedFrom(keys, entries, parseFloat, parseInt).keys, i, j, p, q);
  }

  /** `CleanedOrder` when the later id is the last one kept. */
  lemma {:induction false} CleanedOrderLast(keys: seq<string>, entries: map<string, Row>, parseFloat: FloatParser, parseInt: IntParser, i: nat, j: nat)
    returns (p: nat, q: nat)
    requires forall k :: k in keys ==> k in entries
    requires i < j < |CleanedFrom(keys, entries, parseFloat, parseInt).keys|
    requires keys != [] && |CleanedFrom(keys[..|keys| - 1], entries, parseFloat, parseInt).keys| <= j
    ensures var kept := CleanedFrom(keys, entries, parseFloat, parseInt).keys;
      p < q < |keys| && keys[p] == kept[i] && keys[q] == kept[j]
  {
    CleanedFromGrows(keys, entries, parseFloat, parseInt);
    var init := keys[..|keys| - 1];
    p := CleanedFromKeysListed(init, entries, parseFloat, parseInt, i);
    assert keys[p] == init[p];
    q := |keys| - 1;
    OrderKeptLast(keys, CleanedFrom(init, entries, parseFloat, parseInt).keys,
      CleanedFrom(keys, entries, parseFloat, parseInt).keys, i, j, p);
  }

  /** Both ids were kept among the earlier ids: their positions carry over. */
  lemma {:induction false} OrderKeptEarlier(keys: seq<string>, before: seq<string>, kept: seq<string>, i: nat, j: nat, p: nat, q: nat)
    requires keys != [] && (kept == before || kept == before + [keys[|keys| - 1]])
    requires i < j < |before|
    requires p < q < |keys| - 1 && keys[..|keys| - 1][p] == before[i] && keys[..|keys| - 1][q] == before[j]
    ensures p < q < |keys| && keys[p] == kept[i] && keys[q] == kept[j]
  {
  }

  /** The later id is the last one: it sits at the last position. */
  lemma {:induction false} OrderKeptLast(keys: seq<string>, before: seq<string>, kept: seq<string>, i: nat, j: nat, p: nat)
    requires keys != [] && (kept == before || kept == before + [keys[|keys| - 1]])
    requires i < j < |kept| && |before| <= j
    requires p < |keys| - 1 && keys[p] == before[i]
    ensures p < |keys| - 1 && keys[p] == kept[i] && keys[|keys| - 1] == kept[j]
  {
  }

  /** The `i`-th kept id is the consolidated id at position `p`. */
  lemma {:induction false} CleanedFromKeysListed(keys: seq<string>, entries: map<string, Row>, parseFloat: FloatParser, parseInt: IntParser, i: nat)
    returns (p: nat)
    requires forall k :: k in keys ==> k in entries
    requires i < |CleanedFrom(keys, entries, parseFloat, parseInt).keys|
    ensures p < |keys| && keys[p] == CleanedFrom(keys, entries, parseFloat, parseInt).keys[i]
  {
    CleanedFromGrows(keys, entries, parseFloat, parseInt);
    var init := keys[..|keys| - 1];
    var m := CleanedFrom(init, entries, parseFloat, parseInt);
    if i < |m.keys| {
      p := CleanedFromKeysListed(init, entries, parseFloat, parseInt, i);
      assert keys[p] == init[p];
    } else {
      p := |keys| - 1;
    }
  }

  /** Each consolidated id either leaves the kept ids as they were or is
      appended to them. */
  lemma {:induction false} CleanedFromGrows(keys: seq<string>, entries: map<string, Row>, parseFloat: FloatParser, parseInt: IntParser)
    requires forall k :: k in keys ==> k in entries
    requires CleanedFrom(keys, entries, parseFloat, parseInt).keys != []
    ensures keys != []
    ensures var kept := CleanedFrom(keys, entries, parseFloat, parseInt).keys;
      var before := CleanedFrom(keys[..|keys| - 1], entries, parseFloat, parseInt).keys;
      kept == before || kept == before + [keys[|keys| - 1]]
  {
  }

  /** A stop whose location type is missing, blank or not an integer counts
      as a stop (type 0) and is kept when its coordinates parse. */
  lemma {:induction false} MissingLocationTypeKept(consolidated: OrderedMap<Row>, parseFloat: FloatParser, parseInt: IntParser, sid: string)
    requires consolidated.Valid() && sid in consolidated.entries
    requires var t := Strip(Field(consolidated.entries[sid], "location_type")); t == "" || parseInt(t).None?
    requires parseFloat(LatitudeText(consolidated.entries[sid])).Some?
    requires parseFloat(LongitudeText(consolidated.entries[sid])).Some?
    ensures sid in Cleaned(consolidated, parseFloat, parseInt).entries
    ensures Cleaned(consolidated, parseFloat, parseInt).entries[sid].locationType == 0
  {
    CleanedKeeps(consolidated, parseFloat, parseInt, sid);
  }

  /** A stop whose coordinates do not parse is dropped, whatever its type. */
  lemma {:induction false} UnparsableCoordinatesDropped(consolidated: OrderedMap<Row>, parseFloat: FloatParser, parseInt: IntParser, sid: string)
    requires consolidated.Valid() && sid in consolidated.entries
    requires parseFloat(LatitudeText(consolidated.entries[sid])).None?
      || parseFloat(LongitudeText(consolidated.entries[sid])).None?
    ensures sid !in Cleaned(consolidated, parseFloat, parseInt).entries
  {
    CleanedKeeps(consolidated, parseFloat, parseInt, sid);
  }

  /** Entrances, generic nodes and boarding areas (types 2, 3, 4) are dropped. */
  lemma {:induction false} OtherLocationTypesDropped(consolidated: OrderedMap<Row>, parseFloat: FloatParser, parseInt: IntParser, sid: string)
    requires consolidated.Valid() && sid in consolidated.entries
    requires var text := Strip(Field(consolidated.entries[sid], "location_type"));
      text != "" && parseInt(text).Some? && parseInt(text).value in {2, 3, 4}
    ensures sid !in Cleaned(consolidated, parseFloat, parseInt).entries
  {
    CleanedKeeps(consolidated, parseFloat, parseInt, sid);
  }
}
