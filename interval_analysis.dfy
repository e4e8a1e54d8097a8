/** The interval analysis: the empirical average interval of a frame and the
    interval (and, for Sync, the message count) implied by its advertised
    logMessagePeriod, using each type's valid logMessagePeriod range. */
module IntervalAnalysis {
  import opened PtpTypes

  function IntPow2(n: nat): (r: nat)
    ensures r >= 1
  {
    if n == 0 then 1 else 2 * IntPow2(n - 1)
  }

  /** 2^e seconds as an exact real, for negative exponents too. */
  function Pow2(e: int): (r: real)
    ensures r > 0.0
  {
    if e >= 0 then IntPow2(e) as real else 1.0 / IntPow2(-e) as real
  }

  /** Raising the exponent by one doubles the interval. */
  lemma Pow2Step(e: int)
    ensures Pow2(e + 1) == 2.0 * Pow2(e)
  {
    if e < -1 {
      var d := IntPow2(-e - 1) as real;
      assert IntPow2(-e) as real == 2.0 * d;
      calc {
        2.0 * Pow2(e);
        2.0 * (1.0 / (2.0 * d));
        1.0 / d;
      }
    }
  }

  /** The closed range of valid logMessagePeriod values of a timed type. */
  function LogMPRange(t: MsgType): (r: (int, int))
    requires IsTimed(t)
    ensures r.0 <= 0 <= r.1
  {
    if t == Sync || t == FollowUp then (-8, 8)
    else if t == DelayReq || t == DelayResp then (0, 5)
    else (-7, 4)
  }

  predicate LogMPInRange(t: MsgType, logMP: int)
    requires IsTimed(t)
  {
    LogMPRange(t).0 <= logMP <= LogMPRange(t).1
  }

  /** What the overview states for one frame about its advertised period. */
  datatype Expectation =
    | Unexpected(logMP: int)
    | Expected(interval: real, count: Option<real>)

  /** The expected interval 2^logMP (and for Sync the expected number of
      messages over the span) when logMP is in its type's range; otherwise
      the frame is marked unexpected. */
  function Expect(t: MsgType, logMP: int, span: real): (e: Expectation)
    requires IsTimed(t)
    ensures e.Unexpected? <==> !LogMPInRange(t, logMP)
    ensures e.Unexpected? ==> e.logMP == logMP
    ensures e.Expected? ==> e.interval == Pow2(logMP) && (e.count.Some? <==> t == Sync)
  {
    if !LogMPInRange(t, logMP) then Unexpected(logMP)
    else Expected(Pow2(logMP), if t == Sync then Some(span / Pow2(logMP)) else None)
  }

  /** The set of distinct sequence ids. */
  function Distinct(ids: seq<int>): set<int>
  {
    set x | x in ids
  }

  /** Number of distinct sequence ids in a frame. */
  function UniqueCount(ids: seq<int>): nat
  {
    |Distinct(ids)|
  }

  predicate AllDistinct(ids: seq<int>)
  {
    forall i, j :: 0 <= i < j < |ids| ==> ids[i] != ids[j]
  }

  /** A non-empty frame has between one and |ids| distinct ids, and exactly
      |ids| when no id repeats. */
  lemma {:induction false} UniqueCountBounds(ids: seq<int>)
    ensures |ids| > 0 ==> 1 <= UniqueCount(ids)
    ensures UniqueCount(ids) <= |ids|
    ensures UniqueCount(ids) == |ids| <==> AllDistinct(ids)
  {
    if |ids| > 0 {
      var n := |ids| - 1;
      var p := ids[..n];
      var x := ids[n];
      UniqueCountBounds(p);
      assert Distinct(ids) == Distinct(p) + {x};
      if x in p {
        var k :| 0 <= k < n && p[k] == x;
        assert ids[k] == ids[n];
        assert Distinct(ids) == Distinct(p);
      } else {
        assert x !in Distinct(p);
        if AllDistinct(p) {
          forall i, j | 0 <= i < j < |ids| ensures ids[i] != ids[j] {
            if j < n {
              assert ids[i] == p[i] && ids[j] == p[j];
            } else {
              assert ids[i] == p[i];
            }
          }
        }
        if AllDistinct(ids) {
          forall i, j | 0 <= i < j < |p| ensures p[i] != p[j] {
            assert ids[i] == p[i] && ids[j] == p[j];
          }
        }
      }
    } else {
      assert Distinct(ids) == {};
    }
  }

  /** The expected count of a Sync frame is the number of expected
      intervals that fit in its span. */
  lemma ExpectedCountSpan(t: MsgType, logMP: int, span: real)
    requires IsTimed(t)
    ensures Expect(t, logMP, span).Expected? && Expect(t, logMP, span).count.Some? ==>
              Expect(t, logMP, span).count.value * Pow2(logMP) == span
  {
    var e := Expect(t, logMP, span);
    if e.Expected? && e.count.Some? {
      var p := Pow2(logMP);
      assert e.count.value == span / p;
      DivTimes(span, p);
    }
  }

  lemma DivTimes(x: real, p: real)
    requires p > 0.0
    ensures (x / p) * p == x
  {
  }

  /** Average interval of a frame: the span from the first to the last
      timestamp divided by the number of distinct sequence ids. */
  function AvgInterval(ts: seq<real>, ids: seq<int>): real
    requires |ts| > 0 && |ids| > 0
  {
    UniqueCountBounds(ids);
    (ts[|ts| - 1] - ts[0]) / UniqueCount(ids) as real
  }

  /** The average times the number of distinct ids is the frame's span. */
  lemma AvgIntervalSpan(ts: seq<real>, ids: seq<int>)
    requires |ts| > 0 && |ids| > 0
    ensures AvgInterval(ts, ids) * UniqueCount(ids) as real == ts[|ts| - 1] - ts[0]
  {
    UniqueCountBounds(ids);
  }

  /** For n evenly spaced messages with period P and distinct ids, the
      average is P * (n - 1) / n rather than P: the span covers n - 1 gaps
      but is divided by n. */
  lemma PeriodicAverage(ts: seq<real>, ids: seq<int>, t0: real, period: real)
    requires |ts| == |ids| > 0 && AllDistinct(ids)
    requires forall i :: 0 <= i < |ts| ==> ts[i] == t0 + i as real * period
    ensures AvgInterval(ts, ids) * |ts| as real == (|ts| - 1) as real * period
  {
    UniqueCountBounds(ids);
    AvgIntervalSpan(ts, ids);
    assert ts[|ts| - 1] - ts[0] == (|ts| - 1) as real * period;
  }

  /** A Sync frame from 0.0 s to 8.0 s with five distinct ids and logMP 1:
      average 1.6 s, expected interval 2.0 s, expected count 4.0. A Delay_Req
      logMP of 9 is outside [0, 5] and is marked unexpected. */
  lemma OverviewExamples()
    ensures AvgInterval([0.0, 2.0, 4.0, 6.0, 8.0], [0, 1, 2, 3, 4]) == 1.6
    ensures Expect(Sync, 1, 8.0) == Expected(2.0, Some(4.0))
    ensures Expect(DelayReq, 9, 8.0) == Unexpected(9)
  {
    var ids := [0, 1, 2, 3, 4];
    assert Distinct(ids) == {0, 1, 2, 3, 4};
    assert IntPow2(1) == 2;
  }
}
