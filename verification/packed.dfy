/** The length of the packed upper triangle used by the covariance control
    variate in `cv_moments` (epstan/util.py). */
module Packed {

  /** Entries in the upper triangle, diagonal included, of a d-by-d matrix,
      counted row by row from the last row: row d-1 holds one entry and row
      0 holds d of them. */
  function TriangleCount(d: nat): nat
  {
    if d == 0 then 0 else TriangleCount(d - 1) + d
  }

  /** `d2`: halve whichever of d and d+1 is even (`>> 1` on a non-negative
      integer is division by two) and multiply by the other. */
  function PackedLength(d: nat): (d2: nat)
    ensures 2 * d2 == d * (d + 1)
  {
    if d % 2 == 0 then
      var h := d / 2;
      assert d == 2 * h;
      HalfTimes(h, d + 1);
      h * (d + 1)
    else
      var h := (d + 1) / 2;
      assert d + 1 == 2 * h;
      HalfTimes(h, d);
      h * d
  }

  lemma HalfTimes(h: nat, e: nat)
    ensures 2 * (h * e) == (2 * h) * e
  {
  }

  /** The parity split computes exactly the number of upper-triangle entries. */
  lemma {:induction false} PackedLengthCountsTriangle(d: nat)
    ensures PackedLength(d) == TriangleCount(d)
  {
    if d > 0 {
      PackedLengthCountsTriangle(d - 1);
      assert 2 * PackedLength(d - 1) == (d - 1) * d;
      assert d * (d + 1) == (d - 1) * d + 2 * d;
    }
  }

}
