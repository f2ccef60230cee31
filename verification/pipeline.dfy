/**
 * `main.rs`: loading the two datasets into OSGB36 and the two callbacks the join
 * is run with (collecting `JoinResult`s, or writing a few debug snapshots).
 * Reading and parsing the files is not modelled: the loaders start from the
 * parsed features.
 */
module Pipeline {
  import opened Wrappers
  import opened SeqOps
  import opened Geo
  import opened Records
  import opened GeoUtils

  // --------------------------------------------------------------- LCWIP input

  /**
   * `serde_json::Number`: a non-negative integer that fits a `u64`, a negative
   * integer, or a float.
   */
  datatype Number = PosInt(u: u64) | NegInt(i: NegativeInt) | Float(f: real)

  /** The integers `serde_json` stores as a negative `i64`. */
  type NegativeInt = i: int | -0x8000_0000_0000_0000 <= i < 0 witness -1

  /** `geojson::feature::Id`. */
  datatype FeatureId = NumberId(n: Number) | StringId(s: string)

  /** The geometry of a parsed GeoJSON feature: a line string, or any other kind. */
  datatype GeoJsonGeometry = LineStringValue(coords: LineString) | OtherValue

  /** A parsed GeoJSON feature, with its optional id and optional geometry. */
  datatype InputFeature = InputFeature(id: Option<FeatureId>, geometry: Option<GeoJsonGeometry>)

  /**
   * The id check of `load_lcwip`: a missing or non-numeric id is an error, and a
   * numeric id that is not a `u64` is where `as_u64().unwrap()` panics.
   */
  function NumericId(f: InputFeature): Result<u64, Error>
  {
    match f.id
    case Some(NumberId(PosInt(u))) => Success(u)
    case Some(NumberId(_)) => Failure(IdNotU64)
    case _ => Failure(NoNumericId)
  }

  /** `LineString::try_from(feature)`: only a feature whose geometry is a line string converts. */
  function AsLineString(f: InputFeature): Option<LineString>
  {
    match f.geometry
    case Some(LineStringValue(coords)) => Some(coords)
    case _ => None
  }

  /** The route `load_lcwip` keeps for a feature, if it keeps one. */
  function Admit(p: Projection, f: InputFeature): Option<LCWIP>
  {
    match NumericId(f)
    case Failure(_) => None
    case Success(id) =>
      match AsLineString(f)
      case None => None
      case Some(ls) =>
        match TryMap(ToOsgb36(p), ls)
        case Failure(_) => None
        case Success(g) => Some(LCWIP(g, id))
  }

  /** `Admit` as a function value. */
  function AdmitFn(p: Projection): InputFeature -> Option<LCWIP>
  {
    f => Admit(p, f)
  }

  /**
   * What `load_lcwip` returns for the parsed features `fc`: the error of the first
   * feature without a usable numeric id if there is one, and otherwise the routes
   * kept by `Admit`, in order.
   */
  function LoadLcwipSpec(p: Projection, fc: seq<InputFeature>): Result<seq<LCWIP>, Error>
  {
    var n := FirstFailure(NumericId, fc);
    if n < |fc| then Failure(NumericId(fc[n]).error) else Success(FilterMap(AdmitFn(p), fc))
  }

  /**
   * `load_lcwip`, after parsing: checks each feature's id (ending the load on the
   * first bad one), skips features that are not line strings, drops those whose
   * reprojection fails, and keeps the rest with their ids.
   */
  method LoadLcwip(p: Projection, fc: seq<InputFeature>) returns (r: Result<seq<LCWIP>, Error>)
    ensures r == LoadLcwipSpec(p, fc)
  {
    var list := [];
    var i := 0;
    while i < |fc|
      invariant 0 <= i <= |fc|
      invariant forall j :: 0 <= j < i ==> NumericId(fc[j]).Success?
      invariant list == FilterMap(AdmitFn(p), fc[..i])
    {
      var f := fc[i];
      assert fc[..i + 1][..i] == fc[..i];
      assert fc[..i + 1][i] == f;
      var id := NumericId(f);
      if id.Failure? {
        return Failure(id.error);
      }
      var linestring := AsLineString(f);
      if linestring.None? {
        i := i + 1;
        continue;
      }
      var projected := TryMap(ToOsgb36(p), linestring.value);
      if projected.Success? {
        list := list + [LCWIP(projected.value, id.value)];
      }
      i := i + 1;
    }
    assert fc[..i] == fc;
    return Success(list);
  }

  /** `load_lcwip` fails exactly when some feature lacks a usable numeric id. */
  lemma LoadLcwipFails(p: Projection, fc: seq<InputFeature>)
    ensures LoadLcwipSpec(p, fc).Failure? <==> exists i :: 0 <= i < |fc| && NumericId(fc[i]).Failure?
  {
    var n := FirstFailure(NumericId, fc);
    if n < |fc| {
      assert NumericId(fc[n]).Failure?;
    }
  }

  /**
   * When `load_lcwip` succeeds, its routes are a subsequence of the features in
   * input order: the j-th route comes from the j-th kept feature, carries that
   * feature's id and its geometry reprojected to OSGB36, and a feature is kept
   * exactly when it is a line string whose every vertex reprojects.
   */
  lemma {:induction false} LoadLcwipKeeps(p: Projection, fc: seq<InputFeature>)
    requires LoadLcwipSpec(p, fc).Success?
    ensures var routes, kept := LoadLcwipSpec(p, fc).value, Kept(AdmitFn(p), fc);
            && |routes| == |kept| <= |fc|
            && (forall j :: 0 <= j < |kept| ==>
                  && kept[j] < |fc|
                  && fc[kept[j]].id == Some(NumberId(PosInt(routes[j].id)))
                  && AsLineString(fc[kept[j]]).Some?
                  && TryMap(ToOsgb36(p), AsLineString(fc[kept[j]]).value) == Success(routes[j].geometry))
            && (forall j, j' :: 0 <= j < j' < |kept| ==> kept[j] < kept[j'])
            && (forall i :: 0 <= i < |fc| ==>
                  (i in kept <==> AsLineString(fc[i]).Some? && TryMap(ToOsgb36(p), AsLineString(fc[i]).value).Success?))
  {
    FilterMapKept(AdmitFn(p), fc);
  }

  /**
   * `load_lcwip` ends at the first feature without a usable numeric id, whatever
   * that feature's geometry and whatever follows it: a missing or non-numeric id
   * gives `NoNumericId`, a numeric id that is not a `u64` gives `IdNotU64`.
   */
  lemma LoadLcwipBailsAtFirstBadId(p: Projection, fc: seq<InputFeature>, i: nat)
    requires i < |fc| && NumericId(fc[i]).Failure?
    requires forall j :: 0 <= j < i ==> NumericId(fc[j]).Success?
    ensures LoadLcwipSpec(p, fc) ==
              Failure(if fc[i].id.Some? && fc[i].id.value.NumberId? then IdNotU64 else NoNumericId)
  {
  }

  // ----------------------------------------------------------------- PCT input

  /** Reprojecting one PCT segment to OSGB36, keeping its baseline. */
  function ReprojectPct(p: Projection, x: PCT): Result<PCT, Error>
  {
    match TryMap(ToOsgb36(p), x.geometry)
    case Failure(e) => Failure(e)
    case Success(g) => Success(x.(geometry := g))
  }

  /** `ReprojectPct` as a function value. */
  function ReprojectPctFn(p: Projection): PCT -> Result<PCT, Error>
  {
    x => ReprojectPct(p, x)
  }

  /**
   * `load_pct`, after parsing: reprojects every segment in place, and ends with
   * the first error. On success every segment is reprojected; on failure those
   * before the failing one are, and the others are as they were.
   */
  method LoadPct(p: Projection, features: array<PCT>) returns (r: Outcome<Error>)
    modifies features
    ensures var loaded := TryMap(ReprojectPctFn(p), old(features[..]));
            && (r.Pass? <==> loaded.Success?)
            && (r.Pass? ==> features[..] == loaded.value)
            && (r.Fail? ==> r.error == loaded.error)
    ensures var n := FirstFailure(ReprojectPctFn(p), old(features[..]));
            forall i :: 0 <= i < features.Length ==>
              features[i] == if i < n then ReprojectPct(p, old(features[..])[i]).value else old(features[..])[i]
  {
    ghost var input := features[..];
    TryMapSpec(ReprojectPctFn(p), input);
    var i := 0;
    while i < features.Length
      invariant 0 <= i <= features.Length
      invariant forall j :: 0 <= j < i ==> ReprojectPct(p, input[j]).Success?
      invariant forall j :: 0 <= j < i ==> features[j] == ReprojectPct(p, input[j]).value
      invariant forall j :: i <= j < features.Length ==> features[j] == input[j]
    {
      var g := TryMap(ToOsgb36(p), features[i].geometry);
      if g.Failure? {
        assert FirstFailure(ReprojectPctFn(p), input) == i;
        return Fail(g.error);
      }
      features[i] := features[i].(geometry := g.value);
      i := i + 1;
    }
    assert features[..] == TryMap(ReprojectPctFn(p), input).value;
    r := Pass;
  }

  /**
   * `load_pct` is all or nothing: it either reprojects every segment, keeping the
   * count and each baseline, or fails with the error for the first vertex of the
   * first segment that does not reproject; it never drops a segment.
   */
  lemma LoadPctAllOrNothing(p: Projection, fs: seq<PCT>)
    ensures var loaded := TryMap(ReprojectPctFn(p), fs);
            && (loaded.Success? <==> forall i :: 0 <= i < |fs| ==> TryMap(ToOsgb36(p), fs[i].geometry).Success?)
            && (loaded.Success? ==>
                  && |loaded.value| == |fs|
                  && forall i :: 0 <= i < |fs| ==>
                       loaded.value[i].baseline == fs[i].baseline &&
                       TryMap(ToOsgb36(p), fs[i].geometry) == Success(loaded.value[i].geometry))
            && (loaded.Failure? ==>
                  var n := FirstFailure(ReprojectPctFn(p), fs);
                  && n < |fs|
                  && TryMap(ToOsgb36(p), fs[n].geometry) == Failure(loaded.error)
                  && loaded.error.ConvertOsgb36Broke?
                  && loaded.error.c in fs[n].geometry)
  {
    TryMapSpec(ReprojectPctFn(p), fs);
    var n := FirstFailure(ReprojectPctFn(p), fs);
    if n < |fs| {
      ReprojectLine(p, fs[n].geometry);
    }
  }

  // -------------------------------------------------------- results callback

  /** `matching_pct.iter().map(|x| x.baseline).collect()`. */
  function Baselines(matches: seq<PCT>): (r: seq<usize>)
    ensures |r| == |matches|
    ensures forall j :: 0 <= j < |matches| ==> r[j] == matches[j].baseline
  {
    seq(|matches|, j requires 0 <= j < |matches| => matches[j].baseline)
  }

  /**
   * The results callback: appends one `JoinResult` for the route, holding the
   * baselines of its matches in match order, and never fails.
   */
  function CollectResult(results: seq<JoinResult>, call: Invocation): (r: (seq<JoinResult>, Outcome<Error>))
    ensures r.1 == Pass
    ensures |r.0| == |results| + 1 && r.0[..|results|] == results
    ensures r.0[|results|].featureId == call.input.id
    ensures |r.0[|results|].matchingBaselineValues| == |call.matches|
    ensures forall j :: 0 <= j < |call.matches| ==> r.0[|results|].matchingBaselineValues[j] == call.matches[j].baseline
  {
    (results + [JoinResult(call.input.id, Baselines(call.matches))], Pass)
  }

  /** Over a whole run the results callback produces one result per call, in call order. */
  lemma {:induction false} CollectRun(calls: seq<Invocation>)
    ensures var r := Fold(CollectResult, [], calls);
            && r.outcome == Pass
            && r.trace == calls
            && |r.state| == |calls|
            && forall i :: 0 <= i < |calls| ==>
                 r.state[i] == JoinResult(calls[i].input.id, Baselines(calls[i].matches))
    decreases |calls|
  {
    if calls != [] {
      var front := calls[..|calls| - 1];
      CollectRun(front);
      assert forall i :: 0 <= i < |front| ==> front[i] == calls[i];
    }
  }

  /**
   * The join with the results callback passes and yields exactly one result per
   * route that can be buffered, in route order: the j-th result carries the id of
   * the j-th bufferable route and the baselines of that route's matches.
   */
  lemma JoinResults(k: Kernel, lcwip: seq<LCWIP>, pct: seq<PCT>)
    requires k.Valid()
    ensures var r, tree := JoinSpec(k, lcwip, pct, CollectResult, []), BulkLoad(pct);
            var kept := Kept(InvokeFn(k, tree), lcwip);
            && r.outcome == Pass
            && |r.state| == |kept|
            && (forall j :: 0 <= j < |kept| ==>
                  && kept[j] < |lcwip|
                  && BufferLinestring(k, lcwip[kept[j]].geometry, BufferMeters, BufferMeters).Some?
                  && r.state[j] == JoinResult(lcwip[kept[j]].id, Baselines(MatchingObjects(k, tree,
                       BufferLinestring(k, lcwip[kept[j]].geometry, BufferMeters, BufferMeters).value))))
  {
    var tree := BulkLoad(pct);
    CollectRun(Invocations(k, tree, lcwip));
    InvocationsSpec(k, tree, lcwip);
  }

  // ---------------------------------------------------------- debug callback

  /** How many debug snapshots a run writes at most. */
  const DebugSnapshots: nat := 5

  /** The geometry of one feature of a debug snapshot, back in WGS84. */
  datatype SnapshotGeometry = LineGeometry(line: LineString) | PolygonGeometry(polygon: Polygon)

  /** One feature of a debug snapshot; matched segments carry their `baseline` property. */
  datatype SnapshotFeature = SnapshotFeature(geometry: SnapshotGeometry, baseline: Option<usize>)

  /** The feature collection written to `debug{index}.geojson`. */
  datatype Snapshot = Snapshot(index: nat, features: seq<SnapshotFeature>)

  /** What the debug callback captures: the countdown `count` and the files written so far. */
  datatype DebugState = DebugState(count: nat, written: seq<Snapshot>)

  /** The snapshot feature for a matched segment: its line in WGS84 and its baseline. */
  function MatchFeature(p: Projection, x: PCT): Result<SnapshotFeature, Error>
  {
    match TryMap(ToWgs84(p), x.geometry)
    case Failure(e) => Failure(e)
    case Success(g) => Success(SnapshotFeature(LineGeometry(g), Some(x.baseline)))
  }

  /** `MatchFeature` as a function value. */
  function MatchFeatureFn(p: Projection): PCT -> Result<SnapshotFeature, Error>
  {
    x => MatchFeature(p, x)
  }

  /**
   * The debug callback: while `count` is positive it decrements it and writes one
   * snapshot, named by the new count, holding the route, its corridor and each
   * match, all reprojected to WGS84; a reprojection error ends the run after the
   * decrement (see `DebugCallbackOutcome`). Once `count` is 0 it does nothing.
   */
  function DebugCallback(p: Projection, st: DebugState, call: Invocation): (r: (DebugState, Outcome<Error>))
    ensures st.count == 0 ==> r == (st, Pass)
    ensures st.count > 0 ==> r.0.count == st.count - 1
    ensures |st.written| <= |r.0.written| <= |st.written| + 1 && r.0.written[..|st.written|] == st.written
    ensures |r.0.written| == |st.written| + 1 <==> st.count > 0 && r.1.Pass?
    ensures |r.0.written| == |st.written| + 1 ==>
              r.0.written[|st.written|].index == r.0.count &&
              |r.0.written[|st.written|].features| == 2 + |call.matches|
  {
    if st.count == 0 then (st, Pass)
    else
      var count := st.count - 1;
      var failed := DebugState(count, st.written);
      match TryMap(ToWgs84(p), call.input.geometry)
      case Failure(e) => (failed, Fail(e))
      case Success(line) =>
        match TryMapPolygon(call.buffered, ToWgs84(p))
        case Failure(e) => (failed, Fail(e))
        case Success(corridor) =>
          TryMapSpec(MatchFeatureFn(p), call.matches);
          match TryMap(MatchFeatureFn(p), call.matches)
          case Failure(e) => (failed, Fail(e))
          case Success(segments) =>
            var features := [SnapshotFeature(LineGeometry(line), None), SnapshotFeature(PolygonGeometry(corridor), None)] + segments;
            (DebugState(count, st.written + [Snapshot(count, features)]), Pass)
  }

  /**
   * While the countdown runs, the debug callback passes exactly when the route's
   * line, its corridor and every match reproject to WGS84. Otherwise it fails
   * with the error of the first reprojection that fails: the line, then the
   * corridor, then the matches in order.
   */
  lemma DebugCallbackOutcome(p: Projection, st: DebugState, call: Invocation)
    ensures st.count > 0 ==>
              (DebugCallback(p, st, call).1.Pass? <==>
                 && TryMap(ToWgs84(p), call.input.geometry).Success?
                 && TryMapPolygon(call.buffered, ToWgs84(p)).Success?
                 && forall j :: 0 <= j < |call.matches| ==> TryMap(ToWgs84(p), call.matches[j].geometry).Success?)
    ensures st.count > 0 && DebugCallback(p, st, call).1.Fail? ==>
              if TryMap(ToWgs84(p), call.input.geometry).Failure? then
                DebugCallback(p, st, call).1.error == TryMap(ToWgs84(p), call.input.geometry).error
              else if TryMapPolygon(call.buffered, ToWgs84(p)).Failure? then
                DebugCallback(p, st, call).1.error == TryMapPolygon(call.buffered, ToWgs84(p)).error
              else
                var j := FirstFailure(MatchFeatureFn(p), call.matches);
                && j < |call.matches|
                && (forall j' :: 0 <= j' < j ==> TryMap(ToWgs84(p), call.matches[j'].geometry).Success?)
                && DebugCallback(p, st, call).1.error == TryMap(ToWgs84(p), call.matches[j].geometry).error
  {
    TryMapSpec(MatchFeatureFn(p), call.matches);
  }

  /**
   * A written snapshot holds, in order: the route's line, the corridor polygon,
   * then each match's line with its baseline, all reprojected to WGS84.
   */
  lemma DebugSnapshotContents(p: Projection, st: DebugState, call: Invocation)
    requires st.count > 0 && DebugCallback(p, st, call).1.Pass?
    ensures var features := DebugCallback(p, st, call).0.written[|st.written|].features;
            && features[0].baseline.None?
            && features[0].geometry.LineGeometry?
            && TryMap(ToWgs84(p), call.input.geometry) == Success(features[0].geometry.line)
            && features[1].baseline.None?
            && features[1].geometry.PolygonGeometry?
            && TryMapPolygon(call.buffered, ToWgs84(p)) == Success(features[1].geometry.polygon)
            && forall j :: 0 <= j < |call.matches| ==>
                 && features[2 + j].baseline == Some(call.matches[j].baseline)
                 && features[2 + j].geometry.LineGeometry?
                 && TryMap(ToWgs84(p), call.matches[j].geometry) == Success(features[2 + j].geometry.line)
  {
    TryMapSpec(MatchFeatureFn(p), call.matches);
  }

  /** `DebugCallback` as the callback value handed to the join. */
  function DebugCallbackFn(p: Projection): (DebugState, Invocation) -> (DebugState, Outcome<Error>)
  {
    (st, call) => DebugCallback(p, st, call)
  }

  /** The smaller of two counts. */
  function Min(a: nat, b: nat): nat
  {
    if a <= b then a else b
  }

  /**
   * Over a whole run starting from `count = 5`, the debug callback writes at most
   * five snapshots, named `debug4` down to `debug0` in that order, the i-th for
   * the i-th call with 2 + (its match count) features, and the countdown plus the
   * snapshots written never exceed five. A run that passes writes a snapshot for
   * each of the first five calls.
   */
  lemma {:induction false} DebugRun(p: Projection, calls: seq<Invocation>)
    ensures var r := Fold(DebugCallbackFn(p), DebugState(DebugSnapshots, []), calls);
            && r.state.count + |r.state.written| <= DebugSnapshots
            && |r.state.written| <= |r.trace|
            && (forall i :: 0 <= i < |r.state.written| ==>
                  && r.state.written[i].index == DebugSnapshots - 1 - i
                  && |r.state.written[i].features| == 2 + |r.trace[i].matches|)
            && (r.outcome.Pass? ==>
                  r.state.count + |r.state.written| == DebugSnapshots &&
                  |r.state.written| == Min(DebugSnapshots, |calls|))
    decreases |calls|
  {
    FoldSpec(DebugCallbackFn(p), DebugState(DebugSnapshots, []), calls);
    if calls != [] {
      var front := calls[..|calls| - 1];
      DebugRun(p, front);
      FoldSpec(DebugCallbackFn(p), DebugState(DebugSnapshots, []), front);
    }
  }
}
