# Stops GeoJSON generator, modelled in Dafny

This project models the core of `tools/generate_stops_geojson.py`. The
script merges the stops of several GTFS feeds into one GeoJSON feature
collection of Cyprus public-transport stops. Each feed is an agency's zip
archive, and the model starts once those archives are loaded. It covers:

- **Agency codes and download file names.** The agency code of a local
  archive is its file name without the `.zip` suffix (`Path.stem`), with
  every run of characters outside `[A-Za-z0-9_]` replaced by one `_`, then
  upper-cased. The model takes that stem as its input. The download file name is the URL's last segment
  with runs outside `[A-Za-z0-9_.-]` replaced the same way, or `gtfs.zip`
  when nothing is left.
- **The datasets dict.** Each archive's stops, routes, trips and
  stop_times tables are filed under its agency code. A repeated code
  replaces the earlier tables but keeps its first position.
- **Stop harmonisation.** Each stop row gets the id `AGENCY_stopid`, or the
  bare stop id when prefixing is off. The first row seen for an id is kept,
  annotated with its original stop id and its agency. Rows with a blank
  stop id are skipped. Prefixing does not always keep agencies apart. Two
  agencies' ids coincide exactly when one code is the other code followed
  by `_` and some text `u`, and the shorter code's stop id is `u_` followed
  by the other stop id (`Harmonize.PrefixedIdsCollide`). For example, agency `X` with stop `Y_1`
  and agency `X_Y` with stop `1` both get `X_Y_1` (`Harmonize.PrefixCollision`).
  On such a collision the model follows the code and keeps the first row.
- **Stop filtering.** A stop is kept only when both of its coordinates
  parse and its location type is 0 (stop) or 1 (station). A blank or
  unparsable location type counts as 0. Order is kept.
- **The route index.** It maps route ids to route metadata and trip ids to
  route ids. Every id is prefixed with the agency of its own dataset. Both
  dicts are filled by plain assignment, so the last row wins.
- **The stop-to-routes join.** For each stop, the set of routes whose
  trips call at it, turned into a sorted list.
- **Feature assembly.** One point feature per kept stop, with coordinates
  `[longitude, latitude]`. Each route is shown by its short name, falling
  back to its id.
- **The run of the stages** in the order the main program calls them. That
  includes the switch that skips the join, and the error stop when there
  are no archives at all.

Python's dicts keep insertion order. They are modelled as an `OrderedMap`:
the keys in insertion order plus a `map`. A stage fills a dict in one of
two ways:

- "first write wins" (`InsertFirst`)
- plain assignment (`AssignAll`)

Both are folds over the (key, value) writes that a walk over the datasets
produces, row by row. Each imperative stage is a method with loops, proved
equal to such a fold. The properties the program promises are proved as
lemmas about the folds.

`float()` and `int()` are passed in as parameters (`FloatParser`,
`IntParser`) that return `None` where Python raises. The generation date is
an input string.

Modules, one file each:

| file | module | what it holds |
|---|---|---|
| `text.dfy` | `Text` | `str.strip`, the order `sorted` uses, the run replacement `re.sub` performs, agency codes, download file names |
| `collections.dfy` | `Collections` | ordered dicts, the two folds, `defaultdict(set)`, sorted lists |
| `gtfs.dfy` | `Gtfs` | rows, tables, datasets, the row-by-row walk, the datasets dict |
| `harmonize.dfy` | `Harmonize` | `harmonize_and_consolidate` |
| `stopfilter.dfy` | `StopFilter` | `filter_and_clean_stops` |
| `routeindex.dfy` | `RouteIndex` | `build_route_mappings` |
| `stoproutes.dfy` | `StopRoutes` | `build_stop_to_routes` |
| `geojson.dfy` | `GeoJson` | `create_geojson` |
| `pipeline.dfy` | `Pipeline` | the stages as the main program runs them, and end-to-end properties |

## Model

| member | source | states |
|---|---|---|
| Text.StripIsTrimmedSlice | tools/generate_stops_geojson.py:131 | `strip()` returns a slice of the cell, and everything removed before and after that slice is whitespace. |
| Text.StripEnds | tools/generate_stops_geojson.py:131 | The stripped text neither starts nor ends with whitespace. With the row above, this pins down `strip()` completely. |
| Text.StripEmptyIff | tools/generate_stops_geojson.py:131-133 | A stripped id is empty exactly when the cell is all whitespace. Such rows are the ones skipped. |
| Text.StripIdempotent | tools/generate_stops_geojson.py:131 | Stripping twice gives the same as stripping once. |
| Text.LessTransitive | tools/generate_stops_geojson.py:231 | The string order `sorted` uses is transitive. |
| Text.LessTotal | tools/generate_stops_geojson.py:231 | Any two different strings are ordered one way or the other. |
| Text.LessIrreflexive | tools/generate_stops_geojson.py:231 | No string is below itself. |
| Text.ReplaceRunsIdempotent | tools/generate_stops_geojson.py:86 | Replacing runs again changes nothing. |
| Text.RunBecomesOneUnderscore | tools/generate_stops_geojson.py:86 | A whole run of disallowed characters becomes exactly one `_`, and the text on both sides is sanitised on its own. |
| Text.ReplaceRunsSplit | tools/generate_stops_geojson.py:86 | Sanitising distributes over a split made after an allowed character. |
| Text.AgencyCode | tools/generate_stops_geojson.py:86 | An agency code uses only `[A-Z0-9_]`, is no longer than the name, and is empty only for an empty name. |
| Text.AgencyCodeIdempotent | tools/generate_stops_geojson.py:86 | Deriving the code of a code changes nothing. |
| Text.AgencyCodeOfCode | tools/generate_stops_geojson.py:86 | A name already made of `[A-Z0-9_]` is its own code. |
| Text.LastSegment | tools/generate_stops_geojson.py:99 | `url.split('/')[-1]` is the suffix after the last `/`, and it contains no `/`. |
| Text.DownloadFileName | tools/generate_stops_geojson.py:99 | The file name is never empty and uses only `[A-Za-z0-9_.-]`. |
| Text.DownloadFileNameFallback | tools/generate_stops_geojson.py:99 | The `gtfs.zip` fallback is taken exactly when the URL is empty or ends in `/`, so its last segment is empty. |
| Collections.InsertFirstKeepsEarliest | tools/generate_stops_geojson.py:136-138 | Under "first write wins", the earliest write of a key is the one kept. |
| Collections.InsertFirstKeys | tools/generate_stops_geojson.py:136-138 | A key is present exactly when some write names it. |
| Collections.InsertFirstKeyOrder | tools/generate_stops_geojson.py:136-138 | Keys are listed in the order of their first writes. |
| Collections.AssignAllKeepsLatest | tools/generate_stops_geojson.py:115 | Under plain assignment, the latest write of a key is the one kept. |
| Collections.AssignAllKeys | tools/generate_stops_geojson.py:115 | Under plain assignment, keys are listed once each, in the order of their first writes. |
| Collections.CollectIff | tools/generate_stops_geojson.py:217-229 | The `defaultdict(set)` holds value `v` under key `k` exactly when the pair was added. |
| Collections.CollectNonEmpty | tools/generate_stops_geojson.py:217-229 | Every key of the multimap has at least one value. |
| Collections.SortedList | tools/generate_stops_geojson.py:231 | `sorted(list(s))` is strictly ascending and holds exactly the elements of `s`, once each. |
| Collections.AscendingDistinct | tools/generate_stops_geojson.py:231 | A strictly ascending list has no repeats. |
| Gtfs.ExtractRelevantTables | tools/generate_stops_geojson.py:107-123 | The datasets dict is the plain-assignment fold of the archives' (agency, tables) pairs. |
| Gtfs.DatasetsFromArchives | tools/generate_stops_geojson.py:109-121 | Agency codes are distinct. Each dataset holds the tables of the last archive with its code. |
| Gtfs.DatasetOrder | tools/generate_stops_geojson.py:115 | Datasets come in the order in which their codes first appear among the archives. |
| Harmonize.Annotate | tools/generate_stops_geojson.py:138-140 | The copy has the row's columns plus `_orig_stop_id` and `_agency`, set to the stop id and the agency. |
| Harmonize.HarmonizeAndConsolidate | tools/generate_stops_geojson.py:125-143 | The loops build the first-write-wins dict of the stop walk, and `stop_to_agency` as each kept row's agency. |
| Harmonize.ConsolidatedKeys | tools/generate_stops_geojson.py:129-137 | An id is consolidated exactly when some stop row with a non-blank stop id produces it. |
| Harmonize.FirstStopWins | tools/generate_stops_geojson.py:135-140 | The first row to produce an id is kept, annotated with its stop id and agency. |
| Harmonize.KeptRow | tools/generate_stops_geojson.py:129-140 | Every kept entry is the annotated copy of a stop row that produces its id. |
| Harmonize.ConsolidatedOrigin | tools/generate_stops_geojson.py:138-140 | Every kept row records a non-empty original stop id and an agency, from which its id is rebuilt. |
| Harmonize.StopToAgencyOfKeptRow | tools/generate_stops_geojson.py:141 | `stop_to_agency[id]` is the agency recorded on the kept row, and together with the original stop id it rebuilds the id. |
| Harmonize.PrefixSeparatesAgencies | tools/generate_stops_geojson.py:134 | With prefixing, two different agencies give different ids for the same stop id. |
| Harmonize.PrefixKeepsBoth | tools/generate_stops_geojson.py:134-137 | With prefixing, when two agencies' stops share a stop id, both prefixed ids are present, and they are different. |
| Harmonize.UnprefixedFirstAgencyWins | tools/generate_stops_geojson.py:134-141 | Without prefixing, a shared stop id is kept once, for the agency whose row comes first. |
| Harmonize.PrefixCollision | tools/generate_stops_geojson.py:134 | Agency `X` with stop `Y_1` and agency `X_Y` with stop `1` get the same id. |
| Harmonize.PrefixedIdsCollide | tools/generate_stops_geojson.py:134 | Prefixed ids of agencies `A` and `B`, `A` the shorter code, coincide exactly when `B` is `A_u` and `A`'s stop id is `u_` followed by `B`'s stop id. |
| StopFilter.LocationType | tools/generate_stops_geojson.py:149-154 | A blank or unparsable location type reads as 0. |
| StopFilter.CleanWrite | tools/generate_stops_geojson.py:155-179 | A row yields a clean entry exactly when both coordinates parse and its type is 0 or 1. The entry is filed under the row's own id. |
| StopFilter.Cleaned | tools/generate_stops_geojson.py:145-181 | The clean dict is a well-formed ordered dict. |
| StopFilter.FilterAndCleanStops | tools/generate_stops_geojson.py:145-181 | The loop builds the clean dict of the consolidated stops, in their order. |
| StopFilter.CleanedKeeps | tools/generate_stops_geojson.py:147-179 | A stop is kept exactly when it is mappable. It then keeps its id and its name, code and parent station, and records the parsed coordinates (falling back from `stop_lat`/`stop_lon` to `lat`/`lon`) and a type in {0,1}. |
| StopFilter.CleanedOrder | tools/generate_stops_geojson.py:146-169 | The clean keys are a subsequence of the consolidated keys, in the same order. Kept ids `i < j` sit at consolidated positions `p < q`. |
| StopFilter.MissingLocationTypeKept | tools/generate_stops_geojson.py:149-154 | A stop whose `location_type` is missing, blank or not an integer is kept, as type 0, when its coordinates parse. |
| StopFilter.UnparsableCoordinatesDropped | tools/generate_stops_geojson.py:157-164 | A stop whose latitude or longitude does not parse is dropped. |
| StopFilter.OtherLocationTypesDropped | tools/generate_stops_geojson.py:166-167 | Location types 2, 3 and 4 are dropped, even with valid coordinates. |
| RouteIndex.BuildRouteMappings | tools/generate_stops_geojson.py:183-213 | The loops build the last-write-wins route and trip dicts. |
| RouteIndex.IndexRoutes | tools/generate_stops_geojson.py:190-200 | One dataset's routes loop extends the route dict by that dataset's writes. |
| RouteIndex.IndexTrips | tools/generate_stops_geojson.py:202-211 | One dataset's trips loop extends the trip dict by that dataset's writes. |
| RouteIndex.RouteInfoKeys | tools/generate_stops_geojson.py:190-195 | A route id is indexed exactly when some routes row with a non-blank route id produces it. |
| RouteIndex.RouteInfoEntry | tools/generate_stops_geojson.py:195-200 | Each entry comes from a routes row naming its key, carries the key as its id, and has a non-empty short name (falling back to the route id). |
| RouteIndex.LastRouteWins | tools/generate_stops_geojson.py:195 | The last routes row to name a route id decides its entry. |
| RouteIndex.TripToRouteKeys | tools/generate_stops_geojson.py:202-211 | A trip id is indexed exactly when some trips row has both a non-blank trip id and a non-blank route id. |
| RouteIndex.TripTarget | tools/generate_stops_geojson.py:206-211 | A trip maps to its own row's route id, with the trip's own agency prefix, and never to an empty id. |
| RouteIndex.LastTripWins | tools/generate_stops_geojson.py:211 | The last trips row to name a trip id decides its route. |
| StopRoutes.BuildStopToRoutes | tools/generate_stops_geojson.py:215-233 | The loops build the route sets and then their sorted lists. |
| StopRoutes.CollectStopTimes | tools/generate_stops_geojson.py:220-229 | One dataset's `stop_times` loop adds that dataset's (stop, route) pairs to the `defaultdict(set)`. |
| StopRoutes.SortRoutes | tools/generate_stops_geojson.py:231 | `sorted(list(v))` of one set is its strictly ascending list. |
| StopRoutes.SortedLists | tools/generate_stops_geojson.py:231 | The dict comprehension sorts every set. |
| StopRoutes.ServedIff | tools/generate_stops_geojson.py:217-231 | Route `r` is listed for stop `k` exactly when some `stop_times` row puts it there. |
| StopRoutes.StopRoutesSorted | tools/generate_stops_geojson.py:231 | Each listed stop has at least one route, and its list is strictly ascending with no repeats. |
| GeoJson.CreateGeoJson | tools/generate_stops_geojson.py:235-274 | The loops build the feature collection of the clean stops, with the fixed name and metadata. |
| GeoJson.RoutesServing | tools/generate_stops_geojson.py:249-256 | The inner loop builds the display names of the stop's route ids, in order. |
| GeoJson.DisplayNamesAt | tools/generate_stops_geojson.py:249-256 | `routes_serving` has the length and order of the route list. Entry `i` is the short name of route `i` when it is known and non-empty, else the route id. |
| GeoJson.OneFeaturePerStop | tools/generate_stops_geojson.py:237-263 | There is exactly one feature per clean stop, in clean order, with id `sid`, and no id repeats. |
| GeoJson.FeatureOfStop | tools/generate_stops_geojson.py:237-256 | A feature's point is `[stop_lon, stop_lat]`, its properties are the stop's fields, and its `routes_serving` follows the stop's route list. |
| GeoJson.NoRoutesWithoutLists | tools/generate_stops_geojson.py:237-256 | A clean stop absent from `stop_routes` still has its feature, under its own id, with an empty `routes_serving`. |
| Pipeline.GenerateStops | tools/generate_stops_geojson.py:302-314 | No archives gives no output. Otherwise the stages run in order and return the specified collection. |
| Pipeline.FeatureSource | tools/generate_stops_geojson.py:305-314 | Each feature comes from a stop row that produces its id. It records that row's stop id and agency, its point is the row's parsed longitude then latitude, and its type is 0 or 1. |
| Pipeline.FeatureForStop | tools/generate_stops_geojson.py:305-307 | An id has a feature exactly when a row was kept for it and is mappable. Feature ids are distinct. |
| Pipeline.RoutesServed | tools/generate_stops_geojson.py:309-314 | With enrichment on, `routes_serving` lists exactly the routes some `stop_times` row puts on the stop, once each, in ascending id order. Each is shown by its short name when it is indexed. |
| Pipeline.SkippedEnrichmentListsNoRoutes | tools/generate_stops_geojson.py:310-312 | With enrichment skipped, every `routes_serving` is empty. |

## Left out

- Reading CSV files is not part of this model: UTF-8 decoding with replacement, delimiter sniffing, zip member access and absent members. Tables are given as parsed rows. A column missing from the header is an absent key. A cell missing from a short row is `""`, because the reader turns it into `""`, and so is an empty cell. `Field` reads an absent key and `""` alike.
- Downloading archives, the temporary directory, listing local zip files, argument parsing, reading the URL list, writing the JSON file and progress printing are I/O, so they are not modelled.
- `Path.stem` is not modelled. A local archive's agency code (l.86) is modelled from its stem, given as input. A downloaded archive's agency code is `Path(fname).stem.upper()` (l.103); only the file name it starts from is modelled.
- `float()` and `int()` are parameters. The model assumes only what the code branches on: whether parsing succeeds, and the value.
- NaN and infinite coordinates are not modelled. Python's `float()` accepts `nan`, `inf` and `1e999`. The filter has no finiteness test (l.157-162), so the program keeps such a stop and writes `NaN` or `Infinity` into the JSON (l.318). Dafny's `real` has no such values. A `FloatParser` must either reject that text, and the model drops the stop, or map it to a finite number that the program never writes.
- The generation timestamp is an input string, because it reads the clock.
- The order of keys in `route_info`, `trip_to_route` and `stop_routes` is not modelled. They are Dafny maps, because the program only looks them up. `datasets`, `consolidated_stops` and `clean_stops` keep their order.
- Python exceptions from malformed input outside the modelled branches are not modelled. For example, a `stop_lat` cell holding `None` cannot arise, because the reader maps `None` to `""`.
