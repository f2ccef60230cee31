/**
 * `geo_utils.rs`: coordinate reprojection, corridor buffering and the spatial
 * join of LCWIP routes against PCT segments.
 *
 * The join's callback is a Rust `FnMut` closure that mutates what it captures.
 * Here it is a function from the captured state and the call's arguments to the
 * new state and the call's `Result<()>`; `SpatialJoin` threads that state.
 */
module GeoUtils {
  import opened Wrappers
  import opened SeqOps
  import opened Geo
  import opened Records

  // ---------------------------------------------------------------- reprojection

  /** `wgs84_to_osgb36`: the library's conversion, with its failure turned into an error naming the point. */
  function Wgs84ToOsgb36(p: Projection, c: Coord): (r: Result<Coord, Error>)
    ensures r.Success? <==> p.convertOsgb36(c.x, c.y).Some?
    ensures r.Success? ==> p.convertOsgb36(c.x, c.y) == Some((r.value.x, r.value.y))
    ensures r.Failure? ==> r.error == ConvertOsgb36Broke(c)
  {
    match p.convertOsgb36(c.x, c.y)
    case Some((x, y)) => Success(Coord(x, y))
    case None => Failure(ConvertOsgb36Broke(c))
  }

  /** `osgb36_to_wgs84`: the reverse conversion, with the same error mapping. */
  function Osgb36ToWgs84(p: Projection, c: Coord): (r: Result<Coord, Error>)
    ensures r.Success? <==> p.convertOsgb36ToLl(c.x, c.y).Some?
    ensures r.Success? ==> p.convertOsgb36ToLl(c.x, c.y) == Some((r.value.x, r.value.y))
    ensures r.Failure? ==> r.error == ConvertOsgb36ToLlBroke(c)
  {
    match p.convertOsgb36ToLl(c.x, c.y)
    case Some((x, y)) => Success(Coord(x, y))
    case None => Failure(ConvertOsgb36ToLlBroke(c))
  }

  /** `wgs84_to_osgb36` as the value passed to `try_map_coords`. */
  function ToOsgb36(p: Projection): Coord -> Result<Coord, Error>
  {
    c => Wgs84ToOsgb36(p, c)
  }

  /** `osgb36_to_wgs84` as the value passed to `try_map_coords`. */
  function ToWgs84(p: Projection): Coord -> Result<Coord, Error>
  {
    c => Osgb36ToWgs84(p, c)
  }

  /**
   * Reprojecting a whole line to OSGB36 succeeds exactly when every vertex
   * converts, and then converts each vertex in place; otherwise it fails with the
   * error for the first vertex that does not convert, and all vertices before it
   * convert.
   */
  lemma {:induction false} ReprojectLine(p: Projection, ls: LineString)
    ensures TryMap(ToOsgb36(p), ls).Success? <==>
              forall i :: 0 <= i < |ls| ==> p.convertOsgb36(ls[i].x, ls[i].y).Some?
    ensures TryMap(ToOsgb36(p), ls).Success? ==>
              var g := TryMap(ToOsgb36(p), ls).value;
              |g| == |ls| &&
              forall i :: 0 <= i < |ls| ==> p.convertOsgb36(ls[i].x, ls[i].y) == Some((g[i].x, g[i].y))
    ensures TryMap(ToOsgb36(p), ls).Failure? ==>
              var n := FirstFailure(ToOsgb36(p), ls);
              && n < |ls|
              && TryMap(ToOsgb36(p), ls).error == ConvertOsgb36Broke(ls[n])
              && p.convertOsgb36(ls[n].x, ls[n].y).None?
              && forall i :: 0 <= i < n ==> p.convertOsgb36(ls[i].x, ls[i].y).Some?
  {
    TryMapSpec(ToOsgb36(p), ls);
  }

  // ------------------------------------------------------------------ buffering

  /** The width of the corridor on each side of a route, in meters. */
  const BufferMeters: real := 5.0

  /**
   * `buffer_linestring`: the corridor around `ls` made of its left offset curve
   * (at `-leftMeters`), reversed, followed by its right offset curve (at
   * `rightMeters`), as a polygon without holes. Negative widths are an assertion
   * failure in the source, so they are excluded here.
   */
  function BufferLinestring(k: Kernel, ls: LineString, leftMeters: real, rightMeters: real): (r: Option<Polygon>)
    requires leftMeters >= 0.0 && rightMeters >= 0.0
    ensures r.None? <==> k.offsetCurve(ls, -leftMeters).None? || k.offsetCurve(ls, rightMeters).None?
    ensures r.Some? ==> r.value.interiors == []
    ensures r.Some? ==>
              var left, right := k.offsetCurve(ls, -leftMeters).value, k.offsetCurve(ls, rightMeters).value;
              && |r.value.exterior| == |left| + |right|
              && (forall i :: 0 <= i < |left| ==> r.value.exterior[i] == left[|left| - 1 - i])
              && (forall i :: 0 <= i < |right| ==> r.value.exterior[|left| + i] == right[i])
  {
    match k.offsetCurve(ls, -leftMeters)
    case None => None
    case Some(left) =>
      match k.offsetCurve(ls, rightMeters)
      case None => None
      case Some(right) => Some(Polygon(Reverse(left) + right, []))
  }

  // ---------------------------------------------------------------------- index

  /** `RTree<PCT>`: built once from all segments, read-only afterwards. */
  datatype RTree = RTree(objects: seq<PCT>)

  /** `RTree::bulk_load`. */
  function BulkLoad(pct: seq<PCT>): RTree
  {
    RTree(pct)
  }

  /** The index keys: the envelope of every indexed segment, in load order. */
  function Keys(k: Kernel, objects: seq<PCT>): (keys: seq<Rect>)
    ensures |keys| == |objects|
    ensures forall i :: 0 <= i < |objects| ==> keys[i] == PctEnvelope(k, objects[i])
  {
    seq(|objects|, i requires 0 <= i < |objects| => PctEnvelope(k, objects[i]))
  }

  /** `locate_in_envelope_intersecting`: the indexed segments the index yields for `box`, in its order. */
  function LocateInEnvelopeIntersecting(k: Kernel, tree: RTree, box: Rect): (r: seq<PCT>)
    requires k.Valid()
    ensures forall j :: 0 <= j < |r| ==> r[j] in tree.objects
  {
    var found := k.locate(Keys(k, tree.objects), box);
    seq(|found|, j requires 0 <= j < |found| => tree.objects[found[j]])
  }

  /** The exact test applied to each segment the index yields. */
  function IntersectsFn(k: Kernel, buffered: Polygon): PCT -> Option<PCT>
  {
    (obj: PCT) => if k.intersects(buffered, obj.geometry) then Some(obj) else None
  }

  /** The segments matched by a corridor: those the index yields that truly intersect it. */
  function MatchingObjects(k: Kernel, tree: RTree, buffered: Polygon): seq<PCT>
    requires k.Valid()
  {
    FilterMap(IntersectsFn(k, buffered), LocateInEnvelopeIntersecting(k, tree, k.polygonEnvelope(buffered)))
  }

  /**
   * The matches of a corridor are exactly the query results that intersect it,
   * in query order and with repeats kept: the j-th match is the query result at
   * the j-th kept position, kept positions increase, a position is kept exactly
   * when its segment intersects the corridor, and every match is an indexed
   * segment.
   */
  lemma MatchingObjectsSpec(k: Kernel, tree: RTree, buffered: Polygon)
    requires k.Valid()
    ensures var found := LocateInEnvelopeIntersecting(k, tree, k.polygonEnvelope(buffered));
            var kept := Kept(IntersectsFn(k, buffered), found);
            var m := MatchingObjects(k, tree, buffered);
            && |m| == |kept| <= |found|
            && (forall j :: 0 <= j < |kept| ==>
                  kept[j] < |found| && m[j] == found[kept[j]] && k.intersects(buffered, m[j].geometry) &&
                  m[j] in tree.objects)
            && (forall j, j' :: 0 <= j < j' < |kept| ==> kept[j] < kept[j'])
            && (forall i :: 0 <= i < |found| ==> (k.intersects(buffered, found[i].geometry) <==> i in kept))
  {
    var found := LocateInEnvelopeIntersecting(k, tree, k.polygonEnvelope(buffered));
    FilterMapKept(IntersectsFn(k, buffered), found);
  }

  // ----------------------------------------------------------------------- join

  /** The arguments of one callback invocation: the route, its corridor and its matches. */
  datatype Invocation = Invocation(input: LCWIP, buffered: Polygon, matches: seq<PCT>)

  /** The invocation a route gives rise to, or `None` when it cannot be buffered. */
  function Invoke(k: Kernel, tree: RTree, input: LCWIP): Option<Invocation>
    requires k.Valid()
  {
    match BufferLinestring(k, input.geometry, BufferMeters, BufferMeters)
    case None => None
    case Some(buffered) => Some(Invocation(input, buffered, MatchingObjects(k, tree, buffered)))
  }

  /** `Invoke` as a function value. */
  function InvokeFn(k: Kernel, tree: RTree): LCWIP -> Option<Invocation>
    requires k.Valid()
  {
    input => Invoke(k, tree, input)
  }

  /** The invocations a callback that never fails receives, in order. */
  function Invocations(k: Kernel, tree: RTree, routes: seq<LCWIP>): seq<Invocation>
    requires k.Valid()
  {
    FilterMap(InvokeFn(k, tree), routes)
  }

  /**
   * One invocation per route that can be buffered, in route order, skipping the
   * others: the j-th invocation is for the j-th bufferable route, carries its
   * 5-meter corridor and that corridor's matches, and a route gets an invocation
   * exactly when it can be buffered.
   */
  lemma {:induction false} InvocationsSpec(k: Kernel, tree: RTree, routes: seq<LCWIP>)
    requires k.Valid()
    ensures var calls, kept := Invocations(k, tree, routes), Kept(InvokeFn(k, tree), routes);
            && |calls| == |kept| <= |routes|
            && (forall j :: 0 <= j < |kept| ==>
                  && kept[j] < |routes|
                  && calls[j].input == routes[kept[j]]
                  && BufferLinestring(k, routes[kept[j]].geometry, BufferMeters, BufferMeters) == Some(calls[j].buffered)
                  && calls[j].matches == MatchingObjects(k, tree, calls[j].buffered))
            && (forall j, j' :: 0 <= j < j' < |kept| ==> kept[j] < kept[j'])
            && (forall i :: 0 <= i < |routes| ==>
                  (BufferLinestring(k, routes[i].geometry, BufferMeters, BufferMeters).Some? <==> i in kept))
  {
    FilterMapKept(InvokeFn(k, tree), routes);
  }

  /**
   * The effect of a run: the callback's final state, the run's `Result<()>`, and
   * the invocations the callback received, in order.
   */
  datatype Run<S> = Run(state: S, outcome: Outcome<Error>, trace: seq<Invocation>)

  /**
   * Feeds `calls` to the callback `cb` in order, starting from state `s0`, and
   * stops at the first call that fails.
   */
  function Fold<S>(cb: (S, Invocation) -> (S, Outcome<Error>), s0: S, calls: seq<Invocation>): Run<S>
    decreases |calls|
  {
    if calls == [] then Run(s0, Pass, [])
    else
      var before := Fold(cb, s0, calls[..|calls| - 1]);
      if before.outcome.Fail? then before
      else
        var step := cb(before.state, calls[|calls| - 1]);
        Run(step.0, step.1, before.trace + [calls[|calls| - 1]])
  }

  /**
   * The callback receives a prefix of the calls, in order. A run that passes has
   * delivered every call. A run that fails ended at the call its last
   * invocation names: every call before it passed, and the run's final state and
   * error are exactly what the callback returned for it; no later call was made.
   */
  lemma {:induction false} FoldSpec<S>(cb: (S, Invocation) -> (S, Outcome<Error>), s0: S, calls: seq<Invocation>)
    ensures var r := Fold(cb, s0, calls);
            && |r.trace| <= |calls|
            && r.trace == calls[..|r.trace|]
            && (r.outcome.Pass? ==> r.trace == calls)
            && (r.outcome.Fail? ==>
                  var n := |r.trace| - 1;
                  && n >= 0
                  && Fold(cb, s0, calls[..n]).outcome.Pass?
                  && cb(Fold(cb, s0, calls[..n]).state, calls[n]) == (r.state, r.outcome))
    decreases |calls|
  {
    if calls != [] {
      var front := calls[..|calls| - 1];
      FoldSpec(cb, s0, front);
      var before := Fold(cb, s0, front);
      if before.outcome.Fail? {
        var n := |before.trace| - 1;
        assert front[..n] == calls[..n];
        assert front[..|before.trace|] == calls[..|before.trace|];
      } else {
        assert calls[..|calls| - 1] == front;
        assert calls[..|calls|] == calls;
      }
    }
  }

  /** Once a run has failed, further calls change nothing. */
  lemma {:induction false} FoldStopsAtFailure<S>(cb: (S, Invocation) -> (S, Outcome<Error>), s0: S, a: seq<Invocation>, b: seq<Invocation>)
    requires Fold(cb, s0, a).outcome.Fail?
    ensures Fold(cb, s0, a + b) == Fold(cb, s0, a)
    decreases |b|
  {
    if b == [] {
      assert a + b == a;
    } else {
      FoldStopsAtFailure(cb, s0, a, b[..|b| - 1]);
      assert (a + b)[..|a + b| - 1] == a + b[..|b| - 1];
    }
  }

  /** What `spatial_join(lcwip, pct, cb)` does, starting with the callback's state at `s0`. */
  function JoinSpec<S>(k: Kernel, lcwip: seq<LCWIP>, pct: seq<PCT>, cb: (S, Invocation) -> (S, Outcome<Error>), s0: S): Run<S>
    requires k.Valid()
  {
    Fold(cb, s0, Invocations(k, BulkLoad(pct), lcwip))
  }

  /**
   * With a callback that never fails, the join passes and the callback receives
   * every invocation of `Invocations`, in order: one per bufferable route (see
   * `InvocationsSpec`).
   */
  lemma JoinNeverFailing<S>(k: Kernel, lcwip: seq<LCWIP>, pct: seq<PCT>, cb: (S, Invocation) -> (S, Outcome<Error>), s0: S)
    requires k.Valid()
    requires forall s, call :: cb(s, call).1 == Pass
    ensures JoinSpec(k, lcwip, pct, cb, s0).outcome == Pass
    ensures JoinSpec(k, lcwip, pct, cb, s0).trace == Invocations(k, BulkLoad(pct), lcwip)
  {
    FoldSpec(cb, s0, Invocations(k, BulkLoad(pct), lcwip));
  }

  /** One more route extends the invocations by that route's invocation, if it has one. */
  lemma InvocationsStep(k: Kernel, tree: RTree, routes: seq<LCWIP>, i: nat)
    requires k.Valid()
    requires i < |routes|
    ensures Invocations(k, tree, routes[..i + 1]) ==
              Invocations(k, tree, routes[..i]) +
              match Invoke(k, tree, routes[i]) case Some(call) => [call] case None => []
  {
    assert routes[..i + 1][..i] == routes[..i];
    assert routes[..i + 1][i] == routes[i];
  }

  /** Feeding one more call to a run that has passed so far. */
  lemma FoldStep<S>(cb: (S, Invocation) -> (S, Outcome<Error>), s0: S, calls: seq<Invocation>, call: Invocation)
    requires Fold(cb, s0, calls).outcome.Pass?
    ensures Fold(cb, s0, calls + [call]).state == cb(Fold(cb, s0, calls).state, call).0
    ensures Fold(cb, s0, calls + [call]).outcome == cb(Fold(cb, s0, calls).state, call).1
  {
    assert (calls + [call])[..|calls + [call]| - 1] == calls;
  }

  /** The inner loop of `spatial_join`: the segments the index yields that truly intersect the corridor, in order. */
  method CollectMatches(k: Kernel, buffered: Polygon, found: seq<PCT>) returns (matching: seq<PCT>)
    ensures matching == FilterMap(IntersectsFn(k, buffered), found)
  {
    matching := [];
    var j := 0;
    while j < |found|
      invariant 0 <= j <= |found|
      invariant matching == FilterMap(IntersectsFn(k, buffered), found[..j])
    {
      assert found[..j + 1][..j] == found[..j];
      if k.intersects(buffered, found[j].geometry) {
        matching := matching + [found[j]];
      }
      j := j + 1;
    }
    assert found[..j] == found;
  }

  /**
   * `spatial_join`: bulk-loads the segments, then for each route in order buffers
   * it (skipping it when that fails), collects the index's matches that truly
   * intersect the corridor and hands them to the callback, returning the first
   * error the callback reports.
   */
  method SpatialJoin<S>(k: Kernel, lcwip: seq<LCWIP>, pct: seq<PCT>, cb: (S, Invocation) -> (S, Outcome<Error>), s0: S)
    returns (s: S, r: Outcome<Error>)
    requires k.Valid()
    ensures s == JoinSpec(k, lcwip, pct, cb, s0).state
    ensures r == JoinSpec(k, lcwip, pct, cb, s0).outcome
  {
    var rtree := BulkLoad(pct);
    s := s0;
    var i := 0;
    while i < |lcwip|
      invariant 0 <= i <= |lcwip|
      invariant Fold(cb, s0, Invocations(k, rtree, lcwip[..i])).outcome == Pass
      invariant Fold(cb, s0, Invocations(k, rtree, lcwip[..i])).state == s
    {
      var input := lcwip[i];
      InvocationsStep(k, rtree, lcwip, i);
      var buffered := BufferLinestring(k, input.geometry, BufferMeters, BufferMeters);
      if buffered.None? {
        assert Invoke(k, rtree, input).None?;
        assert Invocations(k, rtree, lcwip[..i + 1]) == Invocations(k, rtree, lcwip[..i]);
        i := i + 1;
        continue;
      }
      var found := LocateInEnvelopeIntersecting(k, rtree, k.polygonEnvelope(buffered.value));
      var matching := CollectMatches(k, buffered.value, found);
      var call := Invocation(input, buffered.value, matching);
      assert Invoke(k, rtree, input) == Some(call);
      assert Invocations(k, rtree, lcwip[..i + 1]) == Invocations(k, rtree, lcwip[..i]) + [call];
      FoldStep(cb, s0, Invocations(k, rtree, lcwip[..i]), call);
      var step := cb(s, call);
      s := step.0;
      if step.1.Fail? {
        FilterMapAppend(InvokeFn(k, rtree), lcwip[..i + 1], lcwip[i + 1..]);
        assert lcwip[..i + 1] + lcwip[i + 1..] == lcwip;
        FoldStopsAtFailure(cb, s0, Invocations(k, rtree, lcwip[..i + 1]), Invocations(k, rtree, lcwip[i + 1..]));
        return s, step.1;
      }
      i := i + 1;
    }
    assert lcwip[..i] == lcwip;
    r := Pass;
  }
}
