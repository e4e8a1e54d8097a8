/** What the timestamp-plausibility and sequence-continuity checks count,
    stated over one frame's "ts" column or seqID column in capture order. */
module AnomalyCounts {

  /** Number of zero timestamps. */
  function CountZero(ts: seq<real>): (n: nat)
    ensures n <= |ts|
  {
    if |ts| == 0 then 0
    else CountZero(ts[..|ts| - 1]) + (if ts[|ts| - 1] == 0.0 then 1 else 0)
  }

  /** Number of negative timestamps. */
  function CountNegative(ts: seq<real>): (n: nat)
    ensures n <= |ts|
  {
    if |ts| == 0 then 0
    else CountNegative(ts[..|ts| - 1]) + (if ts[|ts| - 1] < 0.0 then 1 else 0)
  }

  /** Number of adjacent pairs whose timestamp goes backwards. */
  function CountBackwards(ts: seq<real>): (n: nat)
    ensures |ts| > 0 ==> n < |ts|
  {
    if |ts| < 2 then 0
    else CountBackwards(ts[..|ts| - 1]) + (if ts[|ts| - 2] > ts[|ts| - 1] then 1 else 0)
  }

  /** Number of adjacent pairs whose sequence ids are not consecutive. */
  function CountSeqGaps(ids: seq<int>): (n: nat)
    ensures |ids| > 0 ==> n < |ids|
  {
    if |ids| < 2 then 0
    else CountSeqGaps(ids[..|ids| - 1]) + (if ids[|ids| - 2] + 1 != ids[|ids| - 1] then 1 else 0)
  }

  /** Indices where a timestamp is negative. */
  function NegativeIndices(ts: seq<real>): set<int>
  {
    set i | 0 <= i < |ts| && ts[i] < 0.0
  }

  /** The pair starting at index i goes backwards. */
  predicate GoesBackwards(ts: seq<real>, i: int)
    requires 0 <= i < |ts| - 1
  {
    ts[i] > ts[i + 1]
  }

  /** The pair starting at index i is not consecutive. */
  predicate IsGap(ids: seq<int>, i: int)
    requires 0 <= i < |ids| - 1
  {
    ids[i] + 1 != ids[i + 1]
  }

  /** Left indices of the adjacent pairs that go backwards. */
  function BackwardsIndices(ts: seq<real>): set<int>
  {
    set i | 0 <= i < |ts| - 1 && GoesBackwards(ts, i)
  }

  /** Left indices of the adjacent pairs with a sequence-id gap. */
  function GapIndices(ids: seq<int>): set<int>
  {
    set i | 0 <= i < |ids| - 1 && IsGap(ids, i)
  }

  predicate NonDecreasing(ts: seq<real>)
  {
    forall i, j :: 0 <= i <= j < |ts| ==> ts[i] <= ts[j]
  }

  /** Sequence ids that rise by exactly one from each message to the next. */
  predicate Consecutive(ids: seq<int>)
  {
    forall i :: 0 <= i < |ids| ==> ids[i] == ids[0] + i
  }

  /** The zero count is the multiplicity of 0.0 among the timestamps. */
  lemma {:induction false} CountZeroIsMultiplicity(ts: seq<real>)
    ensures CountZero(ts) == multiset(ts)[0.0]
  {
    if |ts| > 0 {
      var p := ts[..|ts| - 1];
      assert ts == p + [ts[|ts| - 1]];
      CountZeroIsMultiplicity(p);
    }
  }

  /** The negative count is the number of indices holding a negative timestamp. */
  lemma {:induction false} CountNegativeIsIndexCount(ts: seq<real>)
    ensures CountNegative(ts) == |NegativeIndices(ts)|
  {
    if |ts| > 0 {
      var n := |ts| - 1;
      var p := ts[..n];
      CountNegativeIsIndexCount(p);
      if ts[n] < 0.0 {
        assert NegativeIndices(ts) == NegativeIndices(p) + {n};
      } else {
        assert NegativeIndices(ts) == NegativeIndices(p);
      }
    }
  }

  /** The backwards count is the number of indices i with ts[i] > ts[i+1]. */
  lemma {:induction false} CountBackwardsIsIndexCount(ts: seq<real>)
    ensures CountBackwards(ts) == |BackwardsIndices(ts)|
  {
    if |ts| >= 2 {
      var n := |ts| - 1;
      var p := ts[..n];
      CountBackwardsIsIndexCount(p);
      forall i | 0 <= i < n - 1 ensures GoesBackwards(ts, i) == GoesBackwards(p, i) {
        assert ts[i] == p[i] && ts[i + 1] == p[i + 1];
      }
      if ts[n - 1] > ts[n] {
        assert BackwardsIndices(ts) == BackwardsIndices(p) + {n - 1};
      } else {
        assert BackwardsIndices(ts) == BackwardsIndices(p);
      }
    } else {
      assert BackwardsIndices(ts) == {};
    }
  }

  /** The gap count is the number of indices i with seqID[i] + 1 != seqID[i+1]. */
  lemma {:induction false} CountSeqGapsIsIndexCount(ids: seq<int>)
    ensures CountSeqGaps(ids) == |GapIndices(ids)|
  {
    if |ids| >= 2 {
      var n := |ids| - 1;
      var p := ids[..n];
      CountSeqGapsIsIndexCount(p);
      forall i | 0 <= i < n - 1 ensures IsGap(ids, i) == IsGap(p, i) {
        assert ids[i] == p[i] && ids[i + 1] == p[i + 1];
      }
      if ids[n - 1] + 1 != ids[n] {
        assert GapIndices(ids) == GapIndices(p) + {n - 1};
      } else {
        assert GapIndices(ids) == GapIndices(p);
      }
    } else {
      assert GapIndices(ids) == {};
    }
  }

  /** No pair goes backwards exactly when the frame is non-decreasing. */
  lemma {:induction false} NoBackwardsIffNonDecreasing(ts: seq<real>)
    ensures CountBackwards(ts) == 0 <==> NonDecreasing(ts)
  {
    if |ts| >= 2 {
      var n := |ts| - 1;
      var p := ts[..n];
      NoBackwardsIffNonDecreasing(p);
      if CountBackwards(ts) == 0 {
        assert NonDecreasing(p);
        forall i, j | 0 <= i <= j < |ts| ensures ts[i] <= ts[j] {
          if j == n && i < n {
            assert p[i] <= p[n - 1];
          } else if j < n {
            assert p[i] <= p[j];
          }
        }
      }
      if NonDecreasing(ts) {
        assert NonDecreasing(p);
      }
    }
  }

  /** No gap is reported exactly when the ids run consecutively. */
  lemma {:induction false} NoGapsIffConsecutive(ids: seq<int>)
    ensures CountSeqGaps(ids) == 0 <==> Consecutive(ids)
  {
    if |ids| >= 2 {
      var n := |ids| - 1;
      var p := ids[..n];
      NoGapsIffConsecutive(p);
      if CountSeqGaps(ids) == 0 {
        assert Consecutive(p);
        assert ids[n] == p[n - 1] + 1;
      }
      if Consecutive(ids) {
        forall i | 0 <= i < |p| ensures p[i] == p[0] + i {
          assert p[i] == ids[i];
        }
        assert ids[n - 1] + 1 == ids[n];
      }
    }
  }

  /** A bucket [0.0, 1.0, 2.0] has one zero timestamp. */
  lemma ZeroExample()
    ensures CountZero([0.0, 1.0, 2.0]) == 1
  {
    CountZeroIsMultiplicity([0.0, 1.0, 2.0]);
  }

  /** A bucket [1.0, 2.0, 1.5, 3.0] goes backwards once, at 2.0 -> 1.5. */
  lemma BackwardsExample()
    ensures BackwardsIndices([1.0, 2.0, 1.5, 3.0]) == {1}
    ensures CountBackwards([1.0, 2.0, 1.5, 3.0]) == 1
  {
    var ts := [1.0, 2.0, 1.5, 3.0];
    assert BackwardsIndices(ts) == {1};
    CountBackwardsIsIndexCount(ts);
  }

  /** Delay_Req ids [10, 11, 13, 14] have one gap, between 11 and 13; a
      consecutive run [10, 11, 12] has none. */
  lemma SeqGapExamples()
    ensures GapIndices([10, 11, 13, 14]) == {1}
    ensures CountSeqGaps([10, 11, 13, 14]) == 1
    ensures CountSeqGaps([10, 11, 12]) == 0
  {
    var ids := [10, 11, 13, 14];
    assert GapIndices(ids) == {1};
    CountSeqGapsIsIndexCount(ids);
    NoGapsIffConsecutive([10, 11, 12]);
  }
}
