/**
 * The binning policy of the heart-rate chart: which 5-second bin a reading
 * falls into, and how the list of bins grows when a reading lands past its end.
 */
module Binning {

  /** Width of one chart bin in milliseconds (the divisor `5000L` of onHeartRate). */
  const BinWidthMs: int := 5000

  function MaxNat(a: nat, b: nat): nat
  {
    if a >= b then a else b
  }

  /**
   * The bin a reading belongs to, given the milliseconds elapsed since the
   * session started: a negative elapsed time (clock skew) is clamped to bin 0,
   * otherwise the bin is the floor of the elapsed time over the bin width.
   */
  function BinIndex(elapsedMs: int): (k: nat)
    ensures elapsedMs < 0 ==> k == 0
    ensures elapsedMs >= 0 ==> k * BinWidthMs <= elapsedMs < (k + 1) * BinWidthMs
  {
    if elapsedMs < 0 then 0 else elapsedMs / BinWidthMs
  }

  /** A later reading never lands in an earlier bin. */
  lemma BinIndexMonotone(a: int, b: int)
    requires a <= b
    ensures BinIndex(a) <= BinIndex(b)
  {
  }

  /**
   * The bin list after a reading `hr` lands in bin `k`: the list is first
   * extended up to index `k` with copies of `fill`, then bin `k` is overwritten
   * with `hr`.
   */
  function PlaceInBin(bins: seq<int>, k: nat, fill: int, hr: int): (r: seq<int>)
    ensures |r| == MaxNat(|bins|, k + 1)
    ensures r[k] == hr
    ensures forall i :: 0 <= i < |bins| && i != k ==> r[i] == bins[i]
    ensures forall i :: |bins| <= i < k ==> r[i] == fill
  {
    if k < |bins| then bins[k := hr] else bins + seq(k - |bins|, _ => fill) + [hr]
  }
}
