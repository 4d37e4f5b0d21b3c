/** The run-tally scan of `simulateExpectedNK` in index.js (`countConsecutiveKBlocktuples`),
    with the epoch's slots given instead of drawn: walking the 32 slots of an epoch, every
    run of k consecutive successes (slots equal to 1) that is ended by a failure adds one
    to row k of the simulation's column of `nKBlocktuples`; in the target epoch the scan
    also counts successes per slot and stops at the target slot if that slot succeeded. */
module RunTally {
  import opened Options

  /** Slots per epoch. */
  const N := 32

  // ---------------------------------------------------------------------------
  // What a scan of a sequence of slots counts

  /** The number of 1s at the end of s: `consecutiveCount` once s has been scanned. */
  function TrailingOnes(s: seq<int>): (c: nat)
    ensures c <= |s|
  {
    if s == [] || s[|s| - 1] != 1 then 0 else TrailingOnes(s[..|s| - 1]) + 1
  }

  /** The number of runs of exactly c ones in s that a slot other than 1 ends: what a
      scan of s adds to row c. A run still open at the end of s is not counted. */
  function ClosedRuns(s: seq<int>, c: int): nat
  {
    if s == [] then 0
    else
      var p := s[..|s| - 1];
      ClosedRuns(p, c) + if s[|s| - 1] != 1 && c >= 1 && TrailingOnes(p) == c then 1 else 0
  }

  /** The number of slots equal to 1 in s. */
  function Ones(s: seq<int>): (c: nat)
    ensures c <= |s|
  {
    if s == [] then 0 else Ones(s[..|s| - 1]) + if s[|s| - 1] == 1 then 1 else 0
  }

  /** Slot i closes a run of exactly c ones: it is not 1, the c slots before it are 1,
      and the slot before those (if any) is not 1. */
  predicate ClosesRunAt(s: seq<int>, i: int, c: int)
  {
    0 <= i < |s| && s[i] != 1 && 1 <= c <= i
    && (forall j :: i - c <= j < i ==> s[j] == 1)
    && (i == c || s[i - c - 1] != 1)
  }

  /** The slots at which a run of exactly c ones is closed. */
  ghost function RunEnds(s: seq<int>, c: int): set<int>
  {
    set i | 0 <= i < |s| && ClosesRunAt(s, i, c)
  }

  /** TrailingOnes(p) is c (c >= 1) exactly when the last c slots of p are 1 and the slot
      before them, if there is one, is not. */
  lemma {:induction false} TrailingOnesIs(p: seq<int>, c: int)
    requires c >= 1
    ensures TrailingOnes(p) == c <==>
      c <= |p| && (forall j :: |p| - c <= j < |p| ==> p[j] == 1) && (|p| == c || p[|p| - c - 1] != 1)
    decreases |p|
  {
    if p != [] && p[|p| - 1] == 1 && c > 1 {
      var q := p[..|p| - 1];
      TrailingOnesIs(q, c - 1);
      assert forall j :: 0 <= j < |q| ==> q[j] == p[j];
    }
  }

  lemma RunEndsSplit(s: seq<int>, c: int)
    requires s != []
    ensures RunEnds(s, c)
         == RunEnds(s[..|s| - 1], c) + if ClosesRunAt(s, |s| - 1, c) then {|s| - 1} else {}
  {
    var p := s[..|s| - 1];
    forall i | 0 <= i < |p|
      ensures ClosesRunAt(s, i, c) <==> ClosesRunAt(p, i, c)
    {
    }
  }

  /** ClosedRuns counts exactly the slots that close a run of exactly c ones. */
  lemma {:induction false} ClosedRunsCountsRunEnds(s: seq<int>, c: int)
    ensures ClosedRuns(s, c) == |RunEnds(s, c)|
    decreases |s|
  {
    if s == [] {
      assert RunEnds(s, c) == {};
    } else {
      var p := s[..|s| - 1];
      ClosedRunsCountsRunEnds(p, c);
      assert |RunEnds(s, c)| == |RunEnds(p, c)| + if ClosesRunAt(s, |s| - 1, c) then 1 else 0 by {
        RunEndsSplit(s, c);
        assert |s| - 1 !in RunEnds(p, c);
      }
      LastSlotClosesRun(s, c);
    }
  }

  /** The last slot of s closes a run of c ones exactly when the scan of s tallies one at c. */
  lemma LastSlotClosesRun(s: seq<int>, c: int)
    requires s != []
    ensures ClosesRunAt(s, |s| - 1, c)
        <==> s[|s| - 1] != 1 && c >= 1 && TrailingOnes(s[..|s| - 1]) == c
  {
    var p := s[..|s| - 1];
    if c >= 1 {
      TrailingOnesIs(p, c);
      assert forall j :: 0 <= j < |p| ==> p[j] == s[j];
    }
  }

  /** No run of 0 ones is tallied, and no run is as long as the scanned slots: row 0 and
      the last row of the table never change. */
  lemma {:induction false} ClosedRunsRange(s: seq<int>, c: int)
    requires c <= 0 || c >= |s|
    ensures ClosedRuns(s, c) == 0
    decreases |s|
  {
    if s != [] {
      ClosedRunsRange(s[..|s| - 1], c);
    }
  }

  /** c times the closed runs of length c, summed over c = 1..m. */
  function TalliedOnes(s: seq<int>, m: int): int
    decreases m
  {
    if m <= 0 then 0 else TalliedOnes(s, m - 1) + m * ClosedRuns(s, m)
  }

  lemma {:induction false} TalliedOnesStep(s: seq<int>, x: int, m: int)
    ensures TalliedOnes(s + [x], m)
         == TalliedOnes(s, m) + if x != 1 && 1 <= TrailingOnes(s) <= m then TrailingOnes(s) else 0
    decreases m
  {
    assert (s + [x])[..|s + [x]| - 1] == s;
    if m > 0 {
      TalliedOnesStep(s, x, m - 1);
    }
  }

  lemma {:induction false} TalliedOnesSaturated(s: seq<int>, m: int)
    requires m >= |s|
    ensures TalliedOnes(s, m) == TalliedOnes(s, |s|)
    decreases m
  {
    if m > |s| {
      TalliedOnesSaturated(s, m - 1);
      ClosedRunsRange(s, m);
    }
  }

  /** Every 1 in the scanned slots is either in a tallied run or in the run still open at
      the end: the lengths of the tallied runs plus the open run add up to the 1s. */
  lemma {:induction false} TallyConservesOnes(s: seq<int>)
    ensures TalliedOnes(s, |s|) + TrailingOnes(s) == Ones(s)
    decreases |s|
  {
    if s != [] {
      var p, x := s[..|s| - 1], s[|s| - 1];
      assert s == p + [x];
      TallyConservesOnes(p);
      TalliedOnesStep(p, x, |s|);
      TalliedOnesSaturated(p, |s|);
    }
  }

  // ---------------------------------------------------------------------------
  // Which part of the epoch the scan walks

  /** `targetEpoch !== null && epochNumber !== targetEpoch - 1`: the scan stops at once. */
  predicate Skipped(targetEpoch: Option<int>, epochNumber: int)
  {
    targetEpoch.Some? && epochNumber != targetEpoch.value - 1
  }

  /** `targetEpoch !== null && epochNumber === targetEpoch - 1`. */
  predicate InTargetEpoch(targetEpoch: Option<int>, epochNumber: int)
  {
    targetEpoch.Some? && epochNumber == targetEpoch.value - 1
  }

  /** The truthiness of `targetSlot`, which is `false` (None) or a slot number; slot 0 is
      as falsy as `false`. */
  predicate TargetSlotSet(targetSlot: Option<int>)
  {
    targetSlot.Some? && targetSlot.value != 0
  }

  /** The scan stops early at the target slot: in the target epoch, with a target slot
      set, when the slot before it (index targetSlot - 1) is 1. */
  predicate StopsAtTargetSlot(epoch: seq<int>, targetEpoch: Option<int>, epochNumber: int, targetSlot: Option<int>)
  {
    InTargetEpoch(targetEpoch, epochNumber) && TargetSlotSet(targetSlot)
    && 1 <= targetSlot.value <= |epoch| && epoch[targetSlot.value - 1] == 1
  }

  /** How many slots the scan processes. */
  function ScannedLength(epoch: seq<int>, targetEpoch: Option<int>, epochNumber: int, targetSlot: Option<int>): (l: nat)
    ensures l <= |epoch|
  {
    if Skipped(targetEpoch, epochNumber) then 0
    else if StopsAtTargetSlot(epoch, targetEpoch, epochNumber, targetSlot) then targetSlot.value
    else |epoch|
  }

  /** Stopping at the target slot ends on a 1, so the run it is in is not tallied. */
  lemma StopLeavesRunOpen(epoch: seq<int>, targetEpoch: Option<int>, epochNumber: int, targetSlot: Option<int>)
    requires StopsAtTargetSlot(epoch, targetEpoch, epochNumber, targetSlot)
    ensures var l := ScannedLength(epoch, targetEpoch, epochNumber, targetSlot);
      l >= 1 && TrailingOnes(epoch[..l]) >= 1
      && forall c :: ClosedRuns(epoch[..l], c) == ClosedRuns(epoch[..l - 1], c)
  {
    var l := targetSlot.value;
    assert epoch[..l][..l - 1] == epoch[..l - 1];
  }

  // ---------------------------------------------------------------------------
  // The tally tables

  /** The tables `simulateExpectedNK` keeps for one validator pool: `nKBlocktuples` (one
      row per run length 0..N, one column per simulation), `targetSlotBlocktuple` (one
      entry per simulation) and `targetEpochSlots` (one entry per slot). */
  class Tallies {
    const numSimulations: nat
    const targetEpoch: Option<int>
    const nKBlocktuples: array2<int>
    const targetSlotBlocktuple: array<int>
    const targetEpochSlots: array<int>

    predicate Valid()
    {
      nKBlocktuples.Length0 == N + 1 && nKBlocktuples.Length1 == numSimulations
      && targetSlotBlocktuple.Length == numSimulations && targetEpochSlots.Length == N
      && targetSlotBlocktuple != targetEpochSlots
    }

    /** All tables start at zero. */
    constructor (numSimulations: nat, targetEpoch: Option<int>)
      ensures Valid()
      ensures this.numSimulations == numSimulations && this.targetEpoch == targetEpoch
      ensures fresh(nKBlocktuples) && fresh(targetSlotBlocktuple) && fresh(targetEpochSlots)
      ensures forall k, j :: 0 <= k <= N && 0 <= j < numSimulations ==> nKBlocktuples[k, j] == 0
      ensures forall j :: 0 <= j < numSimulations ==> targetSlotBlocktuple[j] == 0
      ensures forall i :: 0 <= i < N ==> targetEpochSlots[i] == 0
    {
      this.numSimulations := numSimulations;
      this.targetEpoch := targetEpoch;
      nKBlocktuples := new int[N + 1, numSimulations]((k, j) => 0);
      targetSlotBlocktuple := new int[numSimulations](j => 0);
      targetEpochSlots := new int[N](i => 0);
    }

    /** `countConsecutiveKBlocktuples(epoch, sim, epochNumber)`, with the current
        `targetSlot` passed in. Only column sim of nKBlocktuples and entry sim of
        targetSlotBlocktuple can change. */
    method CountConsecutiveKBlocktuples(epoch: seq<int>, sim: int, epochNumber: int, targetSlot: Option<int>)
      requires Valid()
      requires |epoch| <= N
      requires 0 <= sim < numSimulations
      modifies nKBlocktuples, targetSlotBlocktuple, targetEpochSlots
      ensures var scanned := epoch[..ScannedLength(epoch, targetEpoch, epochNumber, targetSlot)];
        forall k, j :: 0 <= k <= N && 0 <= j < numSimulations ==>
          nKBlocktuples[k, j] == old(nKBlocktuples[k, j]) + if j == sim then ClosedRuns(scanned, k) else 0
      ensures forall i :: 0 <= i < N ==>
        targetEpochSlots[i] == old(targetEpochSlots[i])
          + if InTargetEpoch(targetEpoch, epochNumber)
               && i < ScannedLength(epoch, targetEpoch, epochNumber, targetSlot) && epoch[i] == 1
            then 1 else 0
      ensures forall j :: 0 <= j < numSimulations ==>
        targetSlotBlocktuple[j] == old(targetSlotBlocktuple[j])
          + if j == sim && StopsAtTargetSlot(epoch, targetEpoch, epochNumber, targetSlot) then 1 else 0
    {
      var consecutiveCount := 0;
      var index := 0;
      assert epoch[..0] == [];
      assert forall k :: ClosedRuns(epoch[..0], k) == 0;
      while index < |epoch|
        invariant 0 <= index <= |epoch|
        invariant Skipped(targetEpoch, epochNumber) ==> index == 0
        invariant consecutiveCount == TrailingOnes(epoch[..index])
        invariant forall k, j :: 0 <= k <= N && 0 <= j < numSimulations ==>
          nKBlocktuples[k, j] == old(nKBlocktuples[k, j]) + if j == sim then ClosedRuns(epoch[..index], k) else 0
        invariant forall i :: 0 <= i < N ==>
          targetEpochSlots[i] == old(targetEpochSlots[i])
            + if InTargetEpoch(targetEpoch, epochNumber) && i < index && epoch[i] == 1 then 1 else 0
        invariant targetSlotBlocktuple[..] == old(targetSlotBlocktuple[..])
        invariant InTargetEpoch(targetEpoch, epochNumber) && TargetSlotSet(targetSlot)
          ==> !(1 <= targetSlot.value <= index && epoch[targetSlot.value - 1] == 1)
      {
        var slot := epoch[index];
        if targetEpoch.Some? && epochNumber != targetEpoch.value - 1 {
          break;
        }
        if slot == 1 {
          ScanExtends(epoch, index);
          consecutiveCount := consecutiveCount + 1;
        } else if consecutiveCount != 0 {
          ScanCloses(epoch, index);
          Tally(consecutiveCount, sim);
          consecutiveCount := 0;
        } else {
          ScanExtends(epoch, index);
        }
        if targetEpoch.Some? && epochNumber == targetEpoch.value - 1 {
          if slot == 1 {
            CountSuccess(index);
            if targetSlot.Some? && targetSlot.value != 0 && index == targetSlot.value - 1 {
              targetSlotBlocktuple[sim] := targetSlotBlocktuple[sim] + 1;
              index := index + 1;
              break;
            }
          }
        }
        index := index + 1;
      }
      assert index == ScannedLength(epoch, targetEpoch, epochNumber, targetSlot);
    }

    /** `nKBlocktuples[k][sim]++`: one more run of k ones in simulation sim. */
    method Tally(k: int, sim: int)
      requires Valid()
      requires 0 <= k <= N && 0 <= sim < numSimulations
      modifies nKBlocktuples
      ensures forall k', j :: 0 <= k' <= N && 0 <= j < numSimulations ==>
        nKBlocktuples[k', j] == old(nKBlocktuples[k', j]) + if k' == k && j == sim then 1 else 0
    {
      nKBlocktuples[k, sim] := nKBlocktuples[k, sim] + 1;
    }

    /** `targetEpochSlots[i]++`: slot i of the target epoch succeeded once more. */
    method CountSuccess(i: int)
      requires Valid()
      requires 0 <= i < N
      modifies targetEpochSlots
      ensures forall i' :: 0 <= i' < N ==>
        targetEpochSlots[i'] == old(targetEpochSlots[i']) + if i' == i then 1 else 0
    {
      targetEpochSlots[i] := targetEpochSlots[i] + 1;
    }
  }

  /** Scanning one more slot: the open run grows on a 1 and is closed (tallied) on
      anything else. */
  lemma ScanStep(epoch: seq<int>, index: int)
    requires 0 <= index < |epoch|
    ensures TrailingOnes(epoch[..index + 1])
         == if epoch[index] == 1 then TrailingOnes(epoch[..index]) + 1 else 0
    ensures forall c ::
      ClosedRuns(epoch[..index + 1], c)
      == ClosedRuns(epoch[..index], c) + (if epoch[index] != 1 && c >= 1 && TrailingOnes(epoch[..index]) == c then 1 else 0)
  {
    assert epoch[..index + 1][..index] == epoch[..index];
  }

  /** A 1, or a slot other than 1 with no open run, tallies nothing. */
  lemma ScanExtends(epoch: seq<int>, index: int)
    requires 0 <= index < |epoch|
    requires epoch[index] == 1 || TrailingOnes(epoch[..index]) == 0
    ensures TrailingOnes(epoch[..index + 1]) == if epoch[index] == 1 then TrailingOnes(epoch[..index]) + 1 else 0
    ensures forall c :: ClosedRuns(epoch[..index + 1], c) == ClosedRuns(epoch[..index], c)
  {
    ScanStep(epoch, index);
  }

  /** A slot other than 1 after an open run of c ones tallies one run at c. */
  lemma ScanCloses(epoch: seq<int>, index: int)
    requires 0 <= index < |epoch|
    requires epoch[index] != 1 && TrailingOnes(epoch[..index]) != 0
    ensures TrailingOnes(epoch[..index + 1]) == 0
    ensures forall c ::
      ClosedRuns(epoch[..index + 1], c)
      == ClosedRuns(epoch[..index], c) + if c == TrailingOnes(epoch[..index]) then 1 else 0
  {
    ScanStep(epoch, index);
  }
}
