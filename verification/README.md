# Spatial join of LCWIP routes with PCT segments: a Dafny model

This project models the control logic of a batch corridor join written in Rust. The program loads
two GeoJSON datasets: LCWIP routes, each with a numeric id, and PCT segments, each with a
`baseline` value. It reprojects both from WGS84 to OSGB36 (the British National Grid). It then
buffers every route into a 5-meter corridor polygon and looks up the PCT segments whose bounding
box meets the corridor in an R-tree. It keeps the segments that truly intersect the corridor and
hands each route, its corridor and its matches to a callback. One callback collects a
`JoinResult` per route. The other writes up to five debug snapshots.

The geometry and projection maths come from other crates, in floating point. The model does not
look inside them:

- `Geo.Kernel` holds `offset_curve`, the two `envelope()`s, `intersects` and the R-tree query as
  function-valued parameters.
- `Geo.Projection` holds the two `lonlat_bng` conversions as partial functions.
- Coordinates are exact reals in place of `f64`.

What is proved is the control logic:

- skipping, dropping, aborting and ordering;
- the shape of the corridor ring;
- the all-or-nothing and first-error behaviour of the loaders;
- what the two callbacks accumulate.

Modules, one per source file or library surface:

- `Wrappers`: `Option`, `Result` and `Outcome`, standing for Rust's `Option`, `Result<T>` and
  `Result<()>`.
- `SeqOps`: `Vec::reverse`, collecting fallible results (`TryMap`, which stops at the first
  error), and filtering (`FilterMap` and `Kept`, the positions kept).
- `Geo`: coordinates, line strings, polygons, the `Kernel` and the `Projection`.
- `Records`: the `LCWIP`, `PCT` and `JoinResult` records, the index key of a PCT segment, and the
  run's errors.
- `GeoUtils` (`rust/src/geo_utils.rs`): reprojection wrappers, `buffer_linestring`, the index
  query and `spatial_join`.
- `Pipeline` (`rust/src/main.rs`): `load_lcwip`, `load_pct`, the results callback and the debug
  callback.

`spatial_join` takes a Rust `FnMut` closure that mutates what it captures. The model makes the
callback a function from (captured state, invocation) to (new state, `Result<()>`).
`GeoUtils.SpatialJoin` threads that state through its loop. `GeoUtils.Fold` is the specification
of a run: it feeds the invocations to the callback in order and stops at the first failure.

Three behaviours of the code are worth stating outright, because they make single bad
inputs fatal:

- `load_lcwip` ends the whole load with an error on the first feature without a numeric id.
- `load_pct` fails as a whole on the first reprojection failure. `load_lcwip` instead drops a
  route whose line does not reproject.
- In the debug callback, a failing reprojection of the route, the corridor or a match ends the
  join with that error.

## Model

| member | source | states |
|---|---|---|
| `GeoUtils.Wgs84ToOsgb36` | rust/src/geo_utils.rs:8-13 | Ok exactly when the converter accepts the point, carrying the converted pair; otherwise the error names the point |
| `GeoUtils.Osgb36ToWgs84` | rust/src/geo_utils.rs:15-20 | the same for the reverse conversion, with its own error |
| `GeoUtils.ReprojectLine` | rust/src/main.rs:95 | reprojecting a line succeeds exactly when every vertex converts, converting each in place; otherwise it fails with the error for the first bad vertex, and every vertex before it converts |
| `SeqOps.TryMapSpec` | rust/src/main.rs:127 | whole-geometry mapping: succeeds exactly when every element maps, keeping length and order; otherwise it carries the error of the first element that fails |
| `Geo.TryMapPolygonSpec` | rust/src/main.rs:46-48 | mapping a polygon succeeds exactly when every vertex of every ring maps, and keeps ring and vertex counts; on failure the error is that of the first failing vertex, exterior first, then the interior rings in order |
| `SeqOps.Reverse` | rust/src/geo_utils.rs:64-65 | the reversed points: same length, element i is element n-1-i of the input |
| `GeoUtils.BufferLinestring` | rust/src/geo_utils.rs:54-68 | widths must be non-negative; None exactly when either offset curve (left at -left_meters, right at right_meters) is undefined; otherwise no holes, and the ring is the left curve reversed followed by the right curve, length \|left\|+\|right\| |
| `GeoUtils.LocateInEnvelopeIntersecting` | rust/src/geo_utils.rs:42 | every segment the envelope query yields is one of the bulk-loaded segments |
| `GeoUtils.MatchingObjectsSpec` | rust/src/geo_utils.rs:40-46 | the matches are exactly the query results that intersect the corridor, in query order, repeats kept |
| `GeoUtils.CollectMatches` | rust/src/geo_utils.rs:41-46 | the push loop builds exactly the filtered query results |
| `GeoUtils.InvocationsSpec` | rust/src/geo_utils.rs:33-47 | one invocation per route that buffers, in route order, with its 5 m/5 m corridor and that corridor's matches; a route is skipped exactly when it cannot be buffered |
| `GeoUtils.FoldSpec` | rust/src/geo_utils.rs:47 | the callback receives a prefix of the invocations in order; a passing run received all; a failing run stops at the failing call, and its state and error are exactly what that call returned |
| `GeoUtils.FoldStopsAtFailure` | rust/src/geo_utils.rs:47 | after the first callback error, later routes change nothing |
| `GeoUtils.JoinNeverFailing` | rust/src/geo_utils.rs:33-50 | with a callback that never fails, the join passes and the callback receives exactly the invocations of `InvocationsSpec` |
| `GeoUtils.SpatialJoin` | rust/src/geo_utils.rs:22-51 | the loop's final callback state and result are those of the specified run |
| `Pipeline.LoadLcwip` | rust/src/main.rs:81-107 | the loop returns exactly `LoadLcwipSpec`: first id error, or the kept routes in order |
| `Pipeline.LoadLcwipFails` | rust/src/main.rs:82-86 | the load fails exactly when some feature lacks a u64 id |
| `Pipeline.LoadLcwipKeeps` | rust/src/main.rs:87-107 | on success the output is a subsequence of the input in order, each route carrying its feature's id and reprojected line, and a feature is kept exactly when it is a line string that reprojects |
| `Pipeline.LoadLcwipBailsAtFirstBadId` | rust/src/main.rs:83-86 | the first feature without a usable id ends the load with its error, whatever its geometry and whatever follows |
| `Pipeline.LoadPct` | rust/src/main.rs:126-130 | passes exactly when every segment reprojects, leaving every segment reprojected; otherwise returns the first error, with the segments before the failing one reprojected and the rest untouched |
| `Pipeline.LoadPctAllOrNothing` | rust/src/main.rs:126-128 | either every segment is reprojected, with count and baselines kept, or the load fails with a conversion error for a vertex of the first failing segment; no segment is dropped |
| `Pipeline.CollectResult` | rust/src/main.rs:25-31 | appends exactly one `JoinResult` with the route's id and its matches' baselines in match order, and never fails |
| `Pipeline.CollectRun` | rust/src/main.rs:25-31 | over a run, one result per invocation, in invocation order |
| `Pipeline.JoinResults` | rust/src/main.rs:24-31 | the join with the results callback passes, and yields one result per bufferable route, in route order, with that route's id and its matches' baselines |
| `Pipeline.DebugCallback` | rust/src/main.rs:35-64 | count 0: nothing changes; otherwise count drops by one and at most one snapshot is added, exactly when the call passes, named by the new count, with 2 + (match count) features |
| `Pipeline.DebugCallbackOutcome` | rust/src/main.rs:39-53 | while the countdown runs, the call passes exactly when the route line, the corridor and every match reproject to WGS84; otherwise it fails with the error of the first failing reprojection (line, then corridor, then matches in order) |
| `Pipeline.DebugSnapshotContents` | rust/src/main.rs:39-55 | a snapshot holds the route's line, then the corridor, then each match's line with its baseline, all reprojected to WGS84 |
| `Pipeline.DebugRun` | rust/src/main.rs:35-38 | from count 5: at most five snapshots, named debug4 down to debug0, the i-th for the i-th call; count + snapshots never exceed 5; a passing run writes min(5, calls) snapshots |

## Left out

- Floating point: coordinates are reals. Offset distances, areas, the polygon/line intersection
  test and bounding boxes are parameters in `Geo.Kernel` and are not specified. So the round-trip,
  monotonicity and symmetry properties of buffering and reprojection are not stated.
- `GeoUtils.LocateInEnvelopeIntersecting`: weaker than the R-tree. It only states that query
  results are indexed segments. It does not state that every segment whose envelope meets the box
  is returned, because that needs the `rstar` implementation.
- `GeoUtils.BufferLinestring`: the ring is the point sequence handed to `Polygon::new`. The
  closing vertex that `geo` appends when the ring is not closed is not modelled.
- `Pipeline.LoadPct`: on failure, the segment being converted keeps its original geometry. The
  source has already overwritten that segment's vertices before the bad one. The vector is then
  dropped, so the difference cannot be observed.
- `Pipeline.NumericId`: a numeric id that is not a `u64` makes the source panic in
  `as_u64().unwrap()`. The model ends the load with the error `IdNotU64` instead.
- File reading, GeoJSON parsing and JSON serialisation: the loaders start from parsed features.
  The errors of `fs_err::read_to_string`, `parse` and `deserialize_feature_collection_str_to_vec`
  are not modelled.
- The debug callback's `serde_json::to_string_pretty` and `fs_err::write`: writing a snapshot
  always succeeds and is modelled by appending to `DebugState.written`. Writing `joined.json` is
  not modelled.
- Progress bar and `println!` output, including the messages for skipped routes and dropped
  features.
- `main`: argument handling, its `panic!`, and the hard-coded `if false` switch between the two
  callbacks. Each callback is modelled on its own (`Pipeline.JoinResults`, `Pipeline.DebugRun`).
- `create_buffer.py` is not part of this model. It is a script made only of geopandas library
  calls and file output.
