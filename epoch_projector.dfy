/** `calculateEpochProbabilities` of index.js: the probability, epoch by epoch up to a
    target epoch, that no run of successes is longer than a threshold, where the
    threshold is the whole epoch (32 slots) before the target epoch and the target slot
    in it. */
module EpochProjector {
  import opened Options
  import opened RunDistribution
  import RunTally

  /** `cdf[x]` for the CDF of one epoch: undefined (None) when x is not an index of it. */
  function CdfEntry(p: real, x: int): Option<real>
  {
    if 0 <= x <= RunTally.N then Some(Cdf(RunTally.N, p, x)) else None
  }

  /** `calculateEpochProbabilities(targetEpoch, targetSlot, p)`: one entry per epoch
      1..targetEpoch; every epoch before the target one reads the CDF at the full epoch,
      which is certain, and the target epoch reads it at the target slot. */
  method CalculateEpochProbabilities(targetEpoch: int, targetSlot: int, p: real)
    returns (epochProbabilities: seq<Option<real>>)
    ensures |epochProbabilities| == if targetEpoch < 1 then 0 else targetEpoch
    ensures forall e :: 0 <= e < targetEpoch - 1 ==> epochProbabilities[e] == Some(1.0)
    ensures targetEpoch >= 1 ==> epochProbabilities[targetEpoch - 1] == CdfEntry(p, targetSlot)
    ensures 0.0 <= p <= 1.0 ==>
      forall e :: 0 <= e < |epochProbabilities| && epochProbabilities[e].Some?
        ==> 0.0 <= epochProbabilities[e].value <= 1.0
  {
    epochProbabilities := [];
    var n := RunTally.N;
    var x := n;
    var epoch := 1;
    CdfAtFullEpoch(n, p);
    while epoch <= targetEpoch
      invariant 1 <= epoch && (epoch == 1 || epoch <= targetEpoch + 1)
      invariant |epochProbabilities| == epoch - 1
      invariant epoch <= targetEpoch ==> x == n
      invariant forall e :: 0 <= e < epoch - 1 ==>
        epochProbabilities[e] == if e == targetEpoch - 1 then CdfEntry(p, targetSlot) else Some(1.0)
    {
      if epoch == targetEpoch {
        x := targetSlot;
      }
      var cdf := CalculateCdf(n, p);
      var epochProbability := if 0 <= x < |cdf| then Some(cdf[x]) else None;
      epochProbabilities := epochProbabilities + [epochProbability];
      epoch := epoch + 1;
    }
    if 0.0 <= p <= 1.0 && targetEpoch >= 1 && 0 <= targetSlot <= n {
      CdfIsProbability(n, p, targetSlot);
    }
  }
}
