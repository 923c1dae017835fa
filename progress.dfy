/**
 * Progress as whole basis points (hundredths of a percent): the integer
 * `(part * 10000n) / whole` that the schedule card and the global stats
 * compute before converting to a floating-point percentage.
 */
module Progress {
  import opened Arithmetic

  const FULL_BASIS_POINTS: nat := 10000

  /** `part * 10000 / whole`, rounded down: the largest `bp` with `bp * whole <= part * 10000`. */
  function BasisPoints(part: nat, whole: nat): (bp: nat)
    requires whole > 0
    ensures bp * whole <= part * FULL_BASIS_POINTS < (bp + 1) * whole
  {
    var bp := (part * FULL_BASIS_POINTS) / whole;
    assert part * FULL_BASIS_POINTS == bp * whole + (part * FULL_BASIS_POINTS) % whole;
    bp
  }

  /** Progress never exceeds 100% while the part does not exceed the whole. */
  lemma {:induction false} BasisPointsAtMostFull(part: nat, whole: nat)
    requires 0 < whole && part <= whole
    ensures BasisPoints(part, whole) <= FULL_BASIS_POINTS
  {
    var bp := BasisPoints(part, whole);
    MulMonotonic(part, whole, FULL_BASIS_POINTS);
    MulStrictCancel(bp, FULL_BASIS_POINTS + 1, whole);
  }

  /** Progress is exactly 100% when the part equals the whole, and below it when the part is smaller. */
  lemma {:induction false} BasisPointsFullIff(part: nat, whole: nat)
    requires 0 < whole && part <= whole
    ensures BasisPoints(part, whole) == FULL_BASIS_POINTS <==> part == whole
  {
    var bp := BasisPoints(part, whole);
    BasisPointsAtMostFull(part, whole);
    if part < whole {
      MulMonotonic(part + 1, whole, FULL_BASIS_POINTS);
      assert bp * whole <= part * FULL_BASIS_POINTS < whole * FULL_BASIS_POINTS;
      MulStrictCancel(bp, FULL_BASIS_POINTS, whole);
    } else {
      MulStrictCancel(FULL_BASIS_POINTS, bp + 1, whole);
    }
  }

  /** A larger part never shows less progress against the same whole. */
  lemma {:induction false} BasisPointsMonotonic(part1: nat, part2: nat, whole: nat)
    requires 0 < whole && part1 <= part2
    ensures BasisPoints(part1, whole) <= BasisPoints(part2, whole)
  {
    var bp1, bp2 := BasisPoints(part1, whole), BasisPoints(part2, whole);
    MulMonotonic(part1, part2, FULL_BASIS_POINTS);
    MulStrictCancel(bp1, bp2 + 1, whole);
  }
}
