/** Sets of code points represented by a list of boundary points: the intervals
    [p0, p1), [p2, p3), ... */
module CharSets {
  import opened Bytes

  const UINT32_MAX: u32 := 0xffff_ffff

  /** `c` lies in one of the intervals. */
  predicate Contains(points: seq<u32>, c: int) {
    exists i :: 0 <= i < |points| / 2 && points[2 * i] <= c < points[2 * i + 1]
  }

  ghost predicate StrictlyIncreasing(points: seq<u32>) {
    forall i, j :: 0 <= i < j < |points| ==> points[i] < points[j]
  }

  /** The normal form of a set: no empty interval, no two intervals that touch. */
  ghost predicate Normal(points: seq<u32>) {
    |points| % 2 == 0 && StrictlyIncreasing(points)
  }
}
