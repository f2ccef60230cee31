/**
 * The records of `main.rs` that the join works on, the index key of a PCT
 * segment, and the errors a run can end with.
 */
module Records {
  import opened Geo

  /** Rust's `u64`. */
  newtype u64 = x: int | 0 <= x < 0x1_0000_0000_0000_0000

  /** Rust's `usize`, on a 64-bit target. */
  newtype usize = x: int | 0 <= x < 0x1_0000_0000_0000_0000

  /** A route of the first dataset (LCWIP), its geometry already in OSGB36. */
  datatype LCWIP = LCWIP(geometry: LineString, id: u64)

  /** A segment of the second dataset (PCT) with its `baseline` attribute. */
  datatype PCT = PCT(geometry: LineString, baseline: usize)

  /** One row of `joined.json`: a route and the baselines of the segments it matched. */
  datatype JoinResult = JoinResult(featureId: u64, matchingBaselineValues: seq<usize>)

  /**
   * The errors that end a run (`anyhow::Error`):
   *  - `ConvertOsgb36Broke`, `ConvertOsgb36ToLlBroke`: a coordinate the projection
   *    library rejected, in either direction;
   *  - `NoNumericId`: an LCWIP feature whose id is missing or not a number;
   *  - `IdNotU64`: an LCWIP feature whose numeric id is negative or fractional,
   *    where the source's `as_u64().unwrap()` panics.
   */
  datatype Error =
    | ConvertOsgb36Broke(c: Coord)
    | ConvertOsgb36ToLlBroke(c: Coord)
    | NoNumericId
    | IdNotU64

  /** `RTreeObject::envelope` for PCT: the index key is the bounding box of its line. */
  function PctEnvelope(k: Kernel, p: PCT): Rect
  {
    k.lineEnvelope(p.geometry)
  }
}
