/**
 * The geometry the join is built on, from the `geo`, `rstar` and `lonlat_bng`
 * crates. Only the shapes of the values are modelled; the floating-point
 * operations are parameters (`Kernel`, `Projection`) that the model never looks
 * inside.
 */
module Geo {
  import opened Wrappers
  import opened SeqOps

  /** `geo::Coord<f64>`; the model uses exact reals in place of `f64`. */
  datatype Coord = Coord(x: real, y: real)

  /** `geo::LineString`: an ordered sequence of vertices. */
  type LineString = seq<Coord>

  /** `geo::Polygon`: an exterior ring and interior rings (holes). */
  datatype Polygon = Polygon(exterior: LineString, interiors: seq<LineString>)

  /** An axis-aligned bounding box (`geo::Rect`, `rstar::AABB`). */
  datatype Rect = Rect(lower: Coord, upper: Coord)

  /**
   * The geometric operations of `geo` and `rstar` the join calls:
   *  - `offsetCurve(ls, d)`: `LineString::offset_curve(d)`, undefined (`None`) for
   *    degenerate input; a negative distance offsets to the left;
   *  - `polygonEnvelope`, `lineEnvelope`: the `envelope()` bounding boxes;
   *  - `intersects(p, ls)`: `Polygon::intersects(&LineString)`;
   *  - `locate(keys, box)`: `RTree::locate_in_envelope_intersecting` over an
   *    index bulk-loaded with the bounding boxes `keys`; it yields positions in
   *    `keys`, in the index's own order.
   */
  datatype Kernel = Kernel(
    offsetCurve: (LineString, real) -> Option<LineString>,
    polygonEnvelope: Polygon -> Rect,
    lineEnvelope: LineString -> Rect,
    intersects: (Polygon, LineString) -> bool,
    locate: (seq<Rect>, Rect) -> seq<nat>)
  {
    /** An index query only yields entries of the index. */
    ghost predicate Valid()
    {
      forall keys: seq<Rect>, box: Rect, j :: 0 <= j < |locate(keys, box)| ==> locate(keys, box)[j] < |keys|
    }
  }

  /**
   * The two conversions of `lonlat_bng`, each a partial function on coordinate
   * pairs (`Err(())` is `None`):
   *  - `convertOsgb36`: WGS84 longitude/latitude to OSGB36 (British National Grid);
   *  - `convertOsgb36ToLl`: OSGB36 back to WGS84.
   */
  datatype Projection = Projection(
    convertOsgb36: (real, real) -> Option<(real, real)>,
    convertOsgb36ToLl: (real, real) -> Option<(real, real)>)

  /** Mapping every vertex of one ring, as a function value over rings. */
  function TryMapRing<E>(f: Coord -> Result<Coord, E>): LineString -> Result<LineString, E>
  {
    ring => TryMap(f, ring)
  }

  /**
   * `Polygon::try_map_coords`: maps the exterior ring, then each interior ring in
   * order, stopping at the first vertex `f` fails on.
   */
  function TryMapPolygon<E>(p: Polygon, f: Coord -> Result<Coord, E>): Result<Polygon, E>
  {
    match TryMap(f, p.exterior)
    case Failure(e) => Failure(e)
    case Success(exterior) =>
      match TryMap(TryMapRing(f), p.interiors)
      case Failure(e) => Failure(e)
      case Success(interiors) => Success(Polygon(exterior, interiors))
  }

  /**
   * Mapping a polygon succeeds exactly when `f` succeeds on every vertex of every
   * ring, and keeps the shape: same rings, same vertex counts, each vertex mapped.
   * On failure the error is that of the first vertex `f` fails on, looking at the
   * exterior first and then at the interior rings in order.
   */
  lemma TryMapPolygonSpec<E>(p: Polygon, f: Coord -> Result<Coord, E>)
    ensures TryMapPolygon(p, f).Success? <==>
              (forall i :: 0 <= i < |p.exterior| ==> f(p.exterior[i]).Success?) &&
              (forall k, i :: 0 <= k < |p.interiors| && 0 <= i < |p.interiors[k]| ==> f(p.interiors[k][i]).Success?)
    ensures TryMapPolygon(p, f).Success? ==>
              var q := TryMapPolygon(p, f).value;
              && |q.exterior| == |p.exterior|
              && (forall i :: 0 <= i < |p.exterior| ==> q.exterior[i] == f(p.exterior[i]).value)
              && |q.interiors| == |p.interiors|
              && (forall k :: 0 <= k < |p.interiors| ==> |q.interiors[k]| == |p.interiors[k]|)
              && (forall k, i :: 0 <= k < |p.interiors| && 0 <= i < |p.interiors[k]| ==>
                    q.interiors[k][i] == f(p.interiors[k][i]).value)
    ensures TryMapPolygon(p, f).Failure? && FirstFailure(f, p.exterior) < |p.exterior| ==>
              TryMapPolygon(p, f).error == f(p.exterior[FirstFailure(f, p.exterior)]).error
    ensures TryMapPolygon(p, f).Failure? && FirstFailure(f, p.exterior) == |p.exterior| ==>
              var k := FirstFailure(TryMapRing(f), p.interiors);
              && k < |p.interiors|
              && (forall k', i :: 0 <= k' < k && 0 <= i < |p.interiors[k']| ==> f(p.interiors[k'][i]).Success?)
              && FirstFailure(f, p.interiors[k]) < |p.interiors[k]|
              && TryMapPolygon(p, f).error == f(p.interiors[k][FirstFailure(f, p.interiors[k])]).error
  {
    var ringFn := TryMapRing(f);
    TryMapSpec(f, p.exterior);
    TryMapSpec(ringFn, p.interiors);
    forall k | 0 <= k < |p.interiors| {
      TryMapSpec(f, p.interiors[k]);
    }
    if TryMap(f, p.exterior).Success? && TryMap(ringFn, p.interiors).Failure? {
      var k := FirstFailure(ringFn, p.interiors);
      var i := FirstFailure(f, p.interiors[k]);
      assert !f(p.interiors[k][i]).Success?;
    }
  }
}
