/**
 * The contract-wide statistics panel: total and released amounts read from
 * the contract, defaulted to 0 when a read has no result, the locked amount,
 * and release progress in basis points.
 */
module GlobalStats {
  import opened Options
  import opened Types
  import opened Progress

  /** One entry of a batched contract read: its `result` is absent when that call failed. */
  datatype ReadResult = ReadResult(result: Option<Uint256>)

  datatype Stats = Stats(total: nat, released: nat, locked: int, progressBasisPoints: nat)

  /** `entry?.result ?? 0n`. */
  function ResultOrZero(entry: Option<ReadResult>): (r: nat)
    ensures entry.Some? && entry.value.result.Some? ==> r == entry.value.result.value
    ensures r > 0 ==> entry.Some? && entry.value.result == Some(r)
  {
    if entry.Some? && entry.value.result.Some? then entry.value.result.value else 0
  }

  /**
   * The panel's figures from the batched read of the total and released
   * amounts (`data` is absent while loading or when the batch failed).
   */
  function ComputeStats(data: Option<(ReadResult, ReadResult)>): (s: Stats)
    ensures data.None? ==> s.total == 0 && s.released == 0 && s.progressBasisPoints == 0
    ensures data.Some? && data.value.0.result.None? ==> s.total == 0
    ensures data.Some? && data.value.1.result.None? ==> s.released == 0
    ensures data.Some? && data.value.0.result.Some? ==> s.total == data.value.0.result.value
    ensures data.Some? && data.value.1.result.Some? ==> s.released == data.value.1.result.value
    ensures s.locked == s.total - s.released
    ensures s.locked < 0 <==> s.released > s.total
    ensures s.total == 0 ==> s.progressBasisPoints == 0
    ensures s.total > 0 ==>
      s.progressBasisPoints * s.total <= s.released * FULL_BASIS_POINTS < (s.progressBasisPoints + 1) * s.total
  {
    var (totalEntry, releasedEntry) :=
      if data.Some? then (Some(data.value.0), Some(data.value.1)) else (None, None);
    var total := ResultOrZero(totalEntry);
    var released := ResultOrZero(releasedEntry);
    var locked := total - released;
    var progress := if total > 0 then BasisPoints(released, total) else 0;
    Stats(total, released, locked, progress)
  }

  /** While released does not exceed total, nothing is shown as negatively locked and progress stays within 100%. */
  lemma ConsistentTotalsStayInRange(data: Option<(ReadResult, ReadResult)>)
    requires ComputeStats(data).released <= ComputeStats(data).total
    ensures ComputeStats(data).locked >= 0
    ensures ComputeStats(data).progressBasisPoints <= FULL_BASIS_POINTS
  {
    var s := ComputeStats(data);
    if s.total > 0 {
      BasisPointsAtMostFull(s.released, s.total);
    }
  }
}
