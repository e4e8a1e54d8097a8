/** The per-run state of one capture analysis and the stages that fill it:
    message-type identification, dispatch of the extracted groups into
    per-type frame lists, the per-type calculations, the warning checks and
    the final overview. */
module PtpAnalysis {
  import opened PtpTypes
  import opened AnomalyCounts
  import opened IntervalAnalysis

  /** The messages of one source that carry one messageType code, as the
      extraction delivers them. */
  datatype Group = Group(code: int, rows: seq<Row>)

  /** A group is non-empty (it exists because its code was seen) and, for a
      known code, has the columns its type is read with. */
  predicate GroupFits(g: Group)
  {
    && |g.rows| > 0
    && (Classify(g.code).Some? ==>
          forall i :: 0 <= i < |g.rows| ==> RowFits(Classify(g.code).value, g.rows[i]))
  }

  /** What the extraction guarantees of its output, per source. */
  predicate Extracted(input: seq<seq<Group>>)
  {
    forall k, j :: 0 <= k < |input| && 0 <= j < |input[k]| ==> GroupFits(input[k][j])
  }

  /** The messageType codes found for each source. */
  function CodesOf(input: seq<seq<Group>>): (codes: seq<seq<int>>)
  {
    seq(|input|, k requires 0 <= k < |input| =>
      seq(|input[k]|, j requires 0 <= j < |input[k]| => input[k][j].code))
  }

  /** All groups, source after source. */
  function Flatten(input: seq<seq<Group>>): seq<Group>
  {
    if input == [] then [] else Flatten(input[..|input| - 1]) + input[|input| - 1]
  }

  /** The frames that the dispatch files under type t, in order. */
  function Select(gs: seq<Group>, t: MsgType): seq<Frame>
  {
    if gs == [] then []
    else Select(gs[..|gs| - 1], t) +
         (if gs[|gs| - 1].code == Code(t) then [Frame(gs[|gs| - 1].rows, None)] else [])
  }

  /** Number of rows in the groups whose code is recognised. */
  function RecognizedRows(gs: seq<Group>): nat
  {
    if gs == [] then 0
    else RecognizedRows(gs[..|gs| - 1]) +
         (if Classify(gs[|gs| - 1].code).Some? then |gs[|gs| - 1].rows| else 0)
  }

  /** The known types among a list of codes. */
  function TypesOfCodes(cs: seq<int>): set<MsgType>
  {
    set t | t in AllTypes && Code(t) in cs
  }

  /** The known types among the codes of any source. */
  function FoundTypes(ids: seq<seq<int>>): set<MsgType>
  {
    set t | t in AllTypes && exists k :: 0 <= k < |ids| && Code(t) in ids[k]
  }

  /** The sum of m over the first n frames of fs. */
  function SumTo(fs: seq<Frame>, n: nat, m: Frame -> nat): nat
    requires n <= |fs|
  {
    if n == 0 then 0 else SumTo(fs, n - 1, m) + m(fs[n - 1])
  }

  /** The sum of m over all frames of fs. */
  function Sum(fs: seq<Frame>, m: Frame -> nat): nat
  {
    SumTo(fs, |fs|, m)
  }

  function RowCount(f: Frame): nat
  {
    |f.rows|
  }

  predicate HasTs(f: Frame)
  {
    f.tsColumn.Some?
  }

  /** Per-frame warning counts; a frame without its "ts" column (or, for
      the sequence check, without a seqID column) contributes nothing. */
  function ZeroOf(f: Frame): nat
  {
    if HasTs(f) then CountZero(f.tsColumn.value) else 0
  }

  function NegativeOf(f: Frame): nat
  {
    if HasTs(f) then CountNegative(f.tsColumn.value) else 0
  }

  function BackwardsOf(f: Frame): nat
  {
    if HasTs(f) then CountBackwards(f.tsColumn.value) else 0
  }

  function GapsOf(f: Frame): nat
  {
    if AllTimed(f.rows) then CountSeqGaps(SeqIds(f.rows)) else 0
  }

  /** Every frame has its "ts" column and only timed rows. */
  predicate Checkable(fs: seq<Frame>)
  {
    forall i :: 0 <= i < |fs| ==> HasTs(fs[i]) && AllTimed(fs[i].rows)
  }

  predicate FrameFits(t: MsgType, f: Frame)
  {
    |f.rows| > 0 && forall j :: 0 <= j < |f.rows| ==> RowFits(t, f.rows[j])
  }

  predicate FramesFit(t: MsgType, fs: seq<Frame>)
  {
    forall i :: 0 <= i < |fs| ==> FrameFits(t, fs[i])
  }

  /** A frame of a timed type with its "ts" column derived from its rows. */
  predicate IsDerived(f: Frame)
  {
    AllTimed(f.rows) && f.tsColumn == Some(Timestamps(f.rows))
  }

  /** A timed frame with its "ts" column inserted and filled. */
  function Derive(f: Frame): Frame
    requires AllTimed(f.rows)
  {
    f.(tsColumn := Some(Timestamps(f.rows)))
  }

  predicate TimedFrames(fs: seq<Frame>)
  {
    forall i :: 0 <= i < |fs| ==> |fs[i].rows| > 0 && AllTimed(fs[i].rows)
  }

  function DeriveAll(fs: seq<Frame>): seq<Frame>
    requires TimedFrames(fs)
  {
    seq(|fs|, i requires 0 <= i < |fs| => Derive(fs[i]))
  }

  /** The logMessagePeriod of a frame: that of its first row. */
  function FirstLogMP(f: Frame): int
    requires |f.rows| > 0 && AllTimed(f.rows)
  {
    f.rows[0].logMP
  }

  /** The average interval of a timed frame. */
  function FrameAvg(f: Frame): real
    requires |f.rows| > 0 && AllTimed(f.rows)
  {
    AvgInterval(Timestamps(f.rows), SeqIds(f.rows))
  }

  function FirstLogMPs(fs: seq<Frame>): seq<int>
    requires TimedFrames(fs)
  {
    seq(|fs|, i requires 0 <= i < |fs| => FirstLogMP(fs[i]))
  }

  function Avgs(fs: seq<Frame>): seq<real>
    requires TimedFrames(fs)
  {
    seq(|fs|, i requires 0 <= i < |fs| => FrameAvg(fs[i]))
  }

  /** Whether the Delay_Req / Delay_Resp count comparison fires in the pass
      over one frame of type t. */
  predicate MismatchFires(t: MsgType, dlyReq: nat, dlyResp: nat)
  {
    || (t == DelayReq && dlyReq < dlyResp)
    || (t == DelayResp && dlyReq > dlyResp)
  }

  /** "Missing Delay_Req" and "missing Delay_Resp" never fire together, one of
      them fires exactly when the totals differ, and it is the one whose side
      has fewer messages; no other type fires. */
  lemma MismatchDirections(dlyReq: nat, dlyResp: nat)
    ensures !(MismatchFires(DelayReq, dlyReq, dlyResp) && MismatchFires(DelayResp, dlyReq, dlyResp))
    ensures MismatchFires(DelayReq, dlyReq, dlyResp) || MismatchFires(DelayResp, dlyReq, dlyResp)
            <==> dlyReq != dlyResp
    ensures MismatchFires(DelayReq, dlyReq, dlyResp) <==> dlyReq < dlyResp
    ensures MismatchFires(DelayResp, dlyReq, dlyResp) <==> dlyReq > dlyResp
    ensures forall t :: !HasSeqCheck(t) ==> !MismatchFires(t, dlyReq, dlyResp)
  {
  }

  /** The frame list of type t after the per-type calculations: timed
      frames get their "ts" column. */
  function CalcedFrames(t: MsgType, fs: seq<Frame>): seq<Frame>
  {
    if IsTimed(t) && TimedFrames(fs) then DeriveAll(fs) else fs
  }

  /** The logMessagePeriods the per-type calculations record for type t. */
  function CalcedLogMPs(t: MsgType, fs: seq<Frame>): seq<int>
  {
    if IsTimed(t) && TimedFrames(fs) then FirstLogMPs(fs) else []
  }

  /** The average intervals the per-type calculations record for type t. */
  function CalcedAvgs(t: MsgType, fs: seq<Frame>): seq<real>
  {
    if IsTimed(t) && TimedFrames(fs) then Avgs(fs) else []
  }

  /** The per-type state of a run: the frame lists, the message counters
      and the recorded logMessagePeriods and average intervals. */
  datatype PerType = PerType(frames: map<MsgType, seq<Frame>>, msgCount: map<MsgType, nat>,
                             logMPs: map<MsgType, seq<int>>, avgIntervals: map<MsgType, seq<real>>)

  predicate Complete(s: PerType)
  {
    && (forall t :: t in s.frames) && (forall t :: t in s.msgCount)
    && (forall t :: t in s.logMPs) && (forall t :: t in s.avgIntervals)
  }

  /** The per-type state after the calculations of type u, when u was found. */
  function CalcStep(s: PerType, present: set<MsgType>, u: MsgType): (r: PerType)
    requires Complete(s)
    ensures Complete(r)
  {
    if u !in present then s
    else
      var fs := s.frames[u];
      var counted := s.(msgCount := s.msgCount[u := s.msgCount[u] + Sum(fs, RowCount)]);
      if IsTimed(u) && TimedFrames(fs) then
        counted.(frames := s.frames[u := DeriveAll(fs)],
                 logMPs := s.logMPs[u := s.logMPs[u] + FirstLogMPs(fs)],
                 avgIntervals := s.avgIntervals[u := s.avgIntervals[u] + Avgs(fs)])
      else counted
  }

  /** The per-type state after the calculations of the first k types of the
      order. */
  function CalcsUpTo(s: PerType, present: set<MsgType>, k: nat): (r: PerType)
    requires Complete(s) && k <= 7
    ensures Complete(r)
  {
    if k == 0 then s else CalcStep(CalcsUpTo(s, present, k - 1), present, TypeOfRank(k - 1))
  }

  /** The position of type t in the order of the per-type calculations. */
  function CalcRank(t: MsgType): (k: nat)
    ensures k < 7
  {
    match t
    case Sync => 0
    case DelayReq => 1
    case FollowUp => 2
    case DelayResp => 3
    case Announce => 4
    case Signalling => 5
    case Management => 6
  }

  /** The type at position k of the order of the per-type calculations. */
  function TypeOfRank(k: nat): (t: MsgType)
    requires k < 7
    ensures CalcRank(t) == k
    ensures forall u :: CalcRank(u) == k ==> u == t
  {
    [Sync, DelayReq, FollowUp, DelayResp, Announce, Signalling, Management][k]
  }

  /** The warning-check sum of m over the frames of type t when t was found. */
  function Gated(present: set<MsgType>, frames: map<MsgType, seq<Frame>>, t: MsgType, m: Frame -> nat): nat
  {
    if t in present && t in frames then Sum(frames[t], m) else 0
  }

  /** Gated summed over the five timed types. */
  function TimedSum(present: set<MsgType>, frames: map<MsgType, seq<Frame>>, m: Frame -> nat): nat
  {
    Gated(present, frames, Sync, m) + Gated(present, frames, DelayReq, m) + Gated(present, frames, FollowUp, m)
    + Gated(present, frames, DelayResp, m) + Gated(present, frames, Announce, m)
  }

  /** The number of count-mismatch warnings the pass over type t gives. */
  function Mismatches(present: set<MsgType>, frames: map<MsgType, seq<Frame>>, counts: map<MsgType, nat>,
                      t: MsgType): nat
    requires DelayReq in counts && DelayResp in counts
  {
    if t in present && t in frames && MismatchFires(t, counts[DelayReq], counts[DelayResp]) then |frames[t]| else 0
  }

  /** Message-type totals: the sum of the seven type counters. */
  function CountTotal(c: map<MsgType, nat>): nat
    requires AllTypes <= c.Keys
  {
    c[Announce] + c[DelayReq] + c[DelayResp] + c[FollowUp] + c[Management] + c[Signalling] + c[Sync]
  }

  /** The per-frame facts the final overview states. */
  datatype BucketReport = BucketReport(firstTs: real, lastTs: real, avgInterval: real, expectation: Expectation)

  function Report(t: MsgType, f: Frame, logMP: int, avg: real): BucketReport
    requires IsTimed(t) && HasTs(f) && |f.tsColumn.value| > 0
  {
    var ts := f.tsColumn.value;
    BucketReport(ts[0], ts[|ts| - 1], avg, Expect(t, logMP, ts[|ts| - 1] - ts[0]))
  }

  /** Inserts the "ts" column of one frame: a column of 0.0, then each row's
      seconds plus nanoseconds times 10^-9. */
  method DeriveTimestamps(rows: seq<Row>) returns (ts: seq<real>)
    requires AllTimed(rows)
    ensures ts == Timestamps(rows)
  {
    ts := seq(|rows|, _ => 0.0);
    var idx := 0;
    while idx < |rows|
      invariant 0 <= idx <= |rows| && |ts| == |rows|
      invariant forall i :: 0 <= i < idx ==> ts[i] == Timestamp(rows[i])
    {
      ts := ts[idx := rows[idx].tsSec as real + rows[idx].tsNs as real * 0.000000001];
      idx := idx + 1;
    }
  }

  /** The calculations on one frame of a timed type: insert its "ts"
      column, and compute its first logMessagePeriod and its average
      interval, the span from the first to the last timestamp divided by the
      number of distinct seqIDs. */
  method CalcFrame(f: Frame) returns (d: Frame, firstLogMP: int, avg: real)
    requires |f.rows| > 0 && AllTimed(f.rows)
    ensures d == Derive(f) && firstLogMP == FirstLogMP(f) && avg == FrameAvg(f)
  {
    var rows := f.rows;
    var ts := DeriveTimestamps(rows);
    d := Frame(rows, Some(ts));
    var ids := SeqIds(rows);
    UniqueCountBounds(ids);
    var uniqueSeqIds := UniqueCount(ids);
    var firstTS := ts[0];
    var lastTS := ts[|ts| - 1];
    var diffTS := lastTS - firstTS;
    firstLogMP := rows[0].logMP;
    avg := diffTS / uniqueSeqIds as real;
  }

  /** The calculations on the frames of one timed type, frame by frame. */
  method CalcFrames(fs: seq<Frame>) returns (derived: seq<Frame>, count: nat, firstLogMPs: seq<int>, avgs: seq<real>)
    requires TimedFrames(fs)
    ensures derived == DeriveAll(fs) && count == Sum(fs, RowCount)
    ensures firstLogMPs == FirstLogMPs(fs) && avgs == Avgs(fs)
  {
    derived, count, firstLogMPs, avgs := [], 0, [], [];
    var arrayIdx := 0;
    while arrayIdx < |fs|
      invariant 0 <= arrayIdx <= |fs|
      invariant derived == DeriveAll(fs)[..arrayIdx]
      invariant count == SumTo(fs, arrayIdx, RowCount)
      invariant firstLogMPs == FirstLogMPs(fs)[..arrayIdx]
      invariant avgs == Avgs(fs)[..arrayIdx]
    {
      var d, firstLogMP, avg := CalcFrame(fs[arrayIdx]);
      derived := derived + [d];
      count := count + |fs[arrayIdx].rows|;
      firstLogMPs := firstLogMPs + [firstLogMP];
      avgs := avgs + [avg];
      arrayIdx := arrayIdx + 1;
    }
    assert DeriveAll(fs)[..arrayIdx] == DeriveAll(fs);
    assert FirstLogMPs(fs)[..arrayIdx] == FirstLogMPs(fs);
    assert Avgs(fs)[..arrayIdx] == Avgs(fs);
  }

  /** The state of one capture analysis: the type flags, the per-type frame
      lists, message counters, recorded logMessagePeriods and average
      intervals, and the warning counters. */
  class Run {
    var present: set<MsgType>
    var frames: map<MsgType, seq<Frame>>
    var msgCount: map<MsgType, nat>
    var total: nat
    var logMPs: map<MsgType, seq<int>>
    var avgIntervals: map<MsgType, seq<real>>
    var zeroTs: nat
    var negativeTs: nat
    var backwardsTs: nat
    var seqIdGaps: nat
    var cntMismatch: nat
    var other: nat

    /** Every type has its frame list, counter and recorded lists, and every
        frame is non-empty with the columns of its type. */
    ghost predicate Valid()
      reads this`frames, this`msgCount, this`logMPs, this`avgIntervals
    {
      && (forall t :: t in frames) && (forall t :: t in msgCount)
      && (forall t :: t in logMPs) && (forall t :: t in avgIntervals)
      && forall t :: FramesFit(t, frames[t])
    }

    /** The per-type part of the run's state. */
    ghost function State(): PerType
      reads this`frames, this`msgCount, this`logMPs, this`avgIntervals
    {
      PerType(frames, msgCount, logMPs, avgIntervals)
    }

    /** The per-type calculations have run for every timed type found. */
    ghost predicate Calculated()
      reads this`present, this`frames, this`msgCount, this`logMPs, this`avgIntervals
      requires Valid()
    {
      forall t :: t in present && IsTimed(t) ==>
        && (forall i :: 0 <= i < |frames[t]| ==> IsDerived(frames[t][i]))
        && |logMPs[t]| == |frames[t]|
        && |avgIntervals[t]| == |frames[t]|
    }

    /** Every frame of a timed type that was found has its "ts" column and
        only timed rows: what the checks of the warning overview read. */
    ghost predicate AllCheckable()
      reads this`present, this`frames
      reads this`msgCount, this`logMPs, this`avgIntervals
      requires Valid()
    {
      forall t :: t in present && IsTimed(t) ==>
        Checkable(frames[t])
    }

    lemma CalculatedIsCheckable()
      requires Valid() && Calculated()
      ensures AllCheckable()
    {
    }

    /** The overview of every frame of a timed type that was found. */
    ghost function Reports(t: MsgType): seq<BucketReport>
      reads this`present, this`frames, this`msgCount, this`logMPs, this`avgIntervals
      requires Valid() && Calculated() && t in present && IsTimed(t)
    {
      var fs, lm, av := frames[t], logMPs[t], avgIntervals[t];
      seq(|fs|, i requires 0 <= i < |fs| => Report(t, fs[i], lm[i], av[i]))
    }

    /** A fresh run: nothing found, every list empty, every counter zero. */
    constructor ()
      ensures Valid() && present == {}
      ensures forall t :: frames[t] == [] && msgCount[t] == 0 && logMPs[t] == [] && avgIntervals[t] == []
      ensures total == 0
      ensures zeroTs == 0 && negativeTs == 0 && backwardsTs == 0
      ensures seqIdGaps == 0 && cntMismatch == 0 && other == 0
    {
      AllTypesComplete();
      present := {};
      frames := map t | t in AllTypes :: [];
      msgCount := map t | t in AllTypes :: 0;
      total := 0;
      logMPs := map t | t in AllTypes :: [];
      avgIntervals := map t | t in AllTypes :: [];
      zeroTs, negativeTs, backwardsTs := 0, 0, 0;
      seqIdGaps, cntMismatch, other := 0, 0, 0;
    }

    /** Sets the flag of every known type among each source's codes; unknown
        codes set nothing. */
    method IdentifyMsgTypes(uniqueIds: seq<seq<int>>)
      requires Valid()
      modifies this`present
      ensures Valid()
      ensures present == old(present) + FoundTypes(uniqueIds)
    {
      var arrayIdx := 0;
      while arrayIdx < |uniqueIds|
        invariant 0 <= arrayIdx <= |uniqueIds|
        invariant present == old(present) + FoundTypes(uniqueIds[..arrayIdx])
      {
        var codes := uniqueIds[arrayIdx];
        var itemIdx := 0;
        while itemIdx < |codes|
          invariant 0 <= itemIdx <= |codes|
          invariant present == old(present) + FoundTypes(uniqueIds[..arrayIdx]) + TypesOfCodes(codes[..itemIdx])
        {
          var c := Classify(codes[itemIdx]);
          if c.Some? {
            present := present + {c.value};
          }
          TypesOfCodesStep(codes, itemIdx);
          itemIdx := itemIdx + 1;
        }
        assert codes[..itemIdx] == codes;
        FoundTypesStep(uniqueIds, arrayIdx);
        arrayIdx := arrayIdx + 1;
      }
      assert uniqueIds[..arrayIdx] == uniqueIds;
    }

    /** Files one group under the frame list of its code's type; a group
        with an unknown code is skipped. */
    method FileGroup(g: Group)
      requires Valid() && GroupFits(g)
      modifies this`frames
      ensures Valid()
      ensures forall t :: frames[t] == old(frames)[t] + if Classify(g.code) == Some(t) then [Frame(g.rows, None)] else []
    {
      var c := Classify(g.code);
      if c.Some? {
        FitsAppend(c.value, frames[c.value], g);
        frames := frames[c.value := frames[c.value] + [Frame(g.rows, None)]];
      }
    }

    /** Files the groups of one source, in order. */
    method FileGroups(groups: seq<Group>)
      requires Valid() && forall j :: 0 <= j < |groups| ==> GroupFits(groups[j])
      modifies this`frames
      ensures Valid()
      ensures forall t :: frames[t] == old(frames)[t] + Select(groups, t)
    {
      ghost var start := frames;
      var itemIdx := 0;
      while itemIdx < |groups|
        invariant 0 <= itemIdx <= |groups|
        invariant Valid()
        invariant forall t :: frames[t] == start[t] + Select(groups[..itemIdx], t)
      {
        var g := groups[itemIdx];
        assert groups[..itemIdx + 1] == groups[..itemIdx] + [g];
        DispatchStep(groups[..itemIdx], g);
        FileGroup(g);
        itemIdx := itemIdx + 1;
      }
      assert groups[..itemIdx] == groups;
    }

    /** Files each group of each source under the frame list of its code's
        type, in order; groups with an unknown code are skipped. */
    method CreateMessageFrames(input: seq<seq<Group>>)
      requires Valid() && Extracted(input)
      modifies this`frames
      ensures Valid()
      ensures forall t :: frames[t] == old(frames)[t] + Select(Flatten(input), t)
    {
      var arrayIdx := 0;
      while arrayIdx < |input|
        invariant 0 <= arrayIdx <= |input|
        invariant Valid()
        invariant forall t :: frames[t] == old(frames)[t] + Select(Flatten(input[..arrayIdx]), t)
      {
        assert forall j :: 0 <= j < |input[arrayIdx]| ==> GroupFits(input[arrayIdx][j]);
        FileGroups(input[arrayIdx]);
        FlattenStep(input, arrayIdx);
        forall t ensures Select(Flatten(input[..arrayIdx + 1]), t) ==
                         Select(Flatten(input[..arrayIdx]), t) + Select(input[arrayIdx], t) {
          SelectAppend(Flatten(input[..arrayIdx]), input[arrayIdx], t);
        }
        arrayIdx := arrayIdx + 1;
      }
      assert input[..arrayIdx] == input;
    }

    /** The calculations over the frames of Signalling or Management: only
        the type's message count grows, by the rows of each frame. */
    method CountMessages(t: MsgType)
      requires Valid()
      modifies this`msgCount
      ensures Valid()
      ensures msgCount == old(msgCount)[t := old(msgCount)[t] + Sum(frames[t], RowCount)]
    {
      var fs := frames[t];
      var arrayIdx := 0;
      while arrayIdx < |fs|
        invariant 0 <= arrayIdx <= |fs|
        invariant Valid()
        invariant msgCount == old(msgCount)[t := old(msgCount)[t] + SumTo(fs, arrayIdx, RowCount)]
      {
        msgCount := msgCount[t := msgCount[t] + |fs[arrayIdx].rows|];
        arrayIdx := arrayIdx + 1;
      }
    }

    /** The calculations over the frames of a timed type: each frame gets
        its "ts" column, its row count is added to the type's counter, and
        its first logMessagePeriod and average interval are recorded. */
    method CalcTimedFrames(t: MsgType)
      requires Valid() && IsTimed(t)
      modifies this`frames, this`msgCount, this`logMPs, this`avgIntervals
      ensures Valid()
      ensures TimedFrames(old(frames)[t])
      ensures msgCount == old(msgCount)[t := old(msgCount)[t] + Sum(old(frames)[t], RowCount)]
      ensures frames == old(frames)[t := DeriveAll(old(frames)[t])]
      ensures logMPs == old(logMPs)[t := old(logMPs)[t] + FirstLogMPs(old(frames)[t])]
      ensures avgIntervals == old(avgIntervals)[t := old(avgIntervals)[t] + Avgs(old(frames)[t])]
    {
      var fs := frames[t];
      assert FramesFit(t, fs);
      var derived, count, firstLogMPs, avgs := CalcFrames(fs);
      FitsDeriveAll(t, fs);
      frames := frames[t := derived];
      msgCount := msgCount[t := msgCount[t] + count];
      logMPs := logMPs[t := logMPs[t] + firstLogMPs];
      avgIntervals := avgIntervals[t := avgIntervals[t] + avgs];
    }

    /** The per-type calculations over the frames of type t. */
    method TypeSpecificCalcs(t: MsgType)
      requires Valid()
      modifies this`frames, this`msgCount, this`logMPs, this`avgIntervals
      ensures Valid()
      ensures msgCount == old(msgCount)[t := old(msgCount)[t] + Sum(old(frames)[t], RowCount)]
      ensures IsTimed(t) ==>
                && TimedFrames(old(frames)[t])
                && frames == old(frames)[t := DeriveAll(old(frames)[t])]
                && logMPs == old(logMPs)[t := old(logMPs)[t] + FirstLogMPs(old(frames)[t])]
                && avgIntervals == old(avgIntervals)[t := old(avgIntervals)[t] + Avgs(old(frames)[t])]
      ensures !IsTimed(t) ==>
                frames == old(frames) && logMPs == old(logMPs) && avgIntervals == old(avgIntervals)
    {
      if IsTimed(t) {
        CalcTimedFrames(t);
      } else {
        CountMessages(t);
      }
    }

    /** The per-type calculations of type t when t was found; nothing
        changes otherwise. */
    method CalcsIfPresent(t: MsgType)
      requires Valid()
      modifies this`frames, this`msgCount, this`logMPs, this`avgIntervals
      ensures Valid()
      ensures State() == CalcStep(old(State()), present, t)
    {
      if t in present {
        TypeSpecificCalcs(t);
      }
    }

    /** The per-type calculations of every type found, in the order Sync,
        Delay_Req, Follow_Up, Delay_Resp, Announce, Signalling, Management,
        starting from zero counters and empty recorded lists. */
    method AllCalcs()
      requires Valid()
      requires forall t :: msgCount[t] == 0 && logMPs[t] == [] && avgIntervals[t] == []
      modifies this`frames, this`msgCount, this`logMPs, this`avgIntervals
      ensures Valid() && Calculated()
      ensures forall t :: msgCount[t] == if t in present then Sum(old(frames)[t], RowCount) else 0
      ensures forall t :: frames[t] == if t in present then CalcedFrames(t, old(frames)[t]) else old(frames)[t]
      ensures forall t :: logMPs[t] == if t in present then CalcedLogMPs(t, old(frames)[t]) else []
      ensures forall t :: avgIntervals[t] == if t in present then CalcedAvgs(t, old(frames)[t]) else []
    {
      ghost var s0 := State();
      var k := 0;
      while k < 7
        invariant 0 <= k <= 7
        invariant Valid()
        invariant State() == CalcsUpTo(s0, present, k)
      {
        var t := TypeOfRank(k);
        CalcsIfPresent(t);
        k := k + 1;
      }
      forall t
        ensures msgCount[t] == if t in present then Sum(s0.frames[t], RowCount) else 0
        ensures frames[t] == if t in present then CalcedFrames(t, s0.frames[t]) else s0.frames[t]
        ensures logMPs[t] == if t in present then CalcedLogMPs(t, s0.frames[t]) else []
        ensures avgIntervals[t] == if t in present then CalcedAvgs(t, s0.frames[t]) else []
        ensures t in present && IsTimed(t) ==>
                  && (forall i :: 0 <= i < |frames[t]| ==> IsDerived(frames[t][i]))
                  && |logMPs[t]| == |frames[t]| && |avgIntervals[t]| == |frames[t]|
      {
        FramesUpTo(s0, present, 7, t);
        CountUpTo(s0, present, 7, t);
        LogMPsUpTo(s0, present, 7, t);
        AvgsUpTo(s0, present, 7, t);
        assert [] + CalcedLogMPs(t, s0.frames[t]) == CalcedLogMPs(t, s0.frames[t]);
        assert [] + CalcedAvgs(t, s0.frames[t]) == CalcedAvgs(t, s0.frames[t]);
        if t in present && IsTimed(t) {
          CalcedShape(t, s0.frames[t]);
        }
      }
    }

    /** The timestamp plausibility check of one frame's "ts" column. */
    method CheckTs(ts: seq<real>)
      modifies this`zeroTs, this`negativeTs, this`backwardsTs
      ensures zeroTs == old(zeroTs) + CountZero(ts)
      ensures negativeTs == old(negativeTs) + CountNegative(ts)
      ensures backwardsTs == old(backwardsTs) + CountBackwards(ts)
    {
      var idx := 0;
      while idx < |ts|
        invariant 0 <= idx <= |ts|
        invariant zeroTs == old(zeroTs) + CountZero(ts[..idx])
        invariant negativeTs == old(negativeTs) && backwardsTs == old(backwardsTs)
      {
        if ts[idx] == 0.0 {
          zeroTs := zeroTs + 1;
        }
        assert ts[..idx + 1][..idx] == ts[..idx];
        idx := idx + 1;
      }
      assert ts[..idx] == ts;

      idx := 0;
      while idx < |ts|
        invariant 0 <= idx <= |ts|
        invariant negativeTs == old(negativeTs) + CountNegative(ts[..idx])
        invariant zeroTs == old(zeroTs) + CountZero(ts) && backwardsTs == old(backwardsTs)
      {
        if ts[idx] < 0.0 {
          negativeTs := negativeTs + 1;
        }
        assert ts[..idx + 1][..idx] == ts[..idx];
        idx := idx + 1;
      }
      assert ts[..idx] == ts;

      idx := 0;
      while idx < |ts| - 1
        invariant 0 <= idx && (|ts| == 0 || idx <= |ts| - 1)
        invariant backwardsTs == old(backwardsTs) + CountBackwards(ts[..if |ts| == 0 then 0 else idx + 1])
        invariant zeroTs == old(zeroTs) + CountZero(ts)
        invariant negativeTs == old(negativeTs) + CountNegative(ts)
      {
        if ts[idx] > ts[idx + 1] {
          backwardsTs := backwardsTs + 1;
        }
        assert ts[..idx + 2][..idx + 1] == ts[..idx + 1];
        idx := idx + 1;
      }
      assert |ts| > 0 ==> ts[..idx + 1] == ts;
    }

    /** The sequence continuity check of one frame's seqID column. */
    method CheckSeqIds(ids: seq<int>)
      modifies this`seqIdGaps
      ensures seqIdGaps == old(seqIdGaps) + CountSeqGaps(ids)
    {
      var itemIdx := 0;
      while itemIdx < |ids| - 1
        invariant 0 <= itemIdx && (|ids| == 0 || itemIdx <= |ids| - 1)
        invariant seqIdGaps == old(seqIdGaps) + CountSeqGaps(ids[..if |ids| == 0 then 0 else itemIdx + 1])
      {
        if ids[itemIdx] + 1 != ids[itemIdx + 1] {
          seqIdGaps := seqIdGaps + 1;
        }
        assert ids[..itemIdx + 2][..itemIdx + 1] == ids[..itemIdx + 1];
        itemIdx := itemIdx + 1;
      }
      assert |ids| > 0 ==> ids[..itemIdx + 1] == ids;
    }

    /** The checks of the warning pass on one frame of type t: the
        timestamp check, and for Delay_Req and Delay_Resp the sequence check
        and the comparison of the two message counts. */
    method CheckFrame(t: MsgType, f: Frame)
      requires HasTs(f) && AllTimed(f.rows)
      requires DelayReq in msgCount && DelayResp in msgCount
      modifies this`zeroTs, this`negativeTs, this`backwardsTs, this`seqIdGaps, this`cntMismatch
      ensures zeroTs == old(zeroTs) + ZeroOf(f)
      ensures negativeTs == old(negativeTs) + NegativeOf(f)
      ensures backwardsTs == old(backwardsTs) + BackwardsOf(f)
      ensures seqIdGaps == old(seqIdGaps) + if HasSeqCheck(t) then GapsOf(f) else 0
      ensures cntMismatch == old(cntMismatch) + if MismatchFires(t, msgCount[DelayReq], msgCount[DelayResp]) then 1 else 0
    {
      CheckTs(f.tsColumn.value);
      if HasSeqCheck(t) {
        CheckSeqIds(SeqIds(f.rows));
      }
      if t == DelayReq && msgCount[DelayReq] < msgCount[DelayResp] {
        cntMismatch := cntMismatch + 1;
      } else if t == DelayResp && msgCount[DelayReq] > msgCount[DelayResp] {
        cntMismatch := cntMismatch + 1;
      }
    }

    /** The checks of one frame after another, in order. */
    method CheckFrameList(t: MsgType, fs: seq<Frame>)
      requires forall i :: 0 <= i < |fs| ==> HasTs(fs[i]) && AllTimed(fs[i].rows)
      requires DelayReq in msgCount && DelayResp in msgCount
      modifies this`zeroTs, this`negativeTs, this`backwardsTs, this`seqIdGaps, this`cntMismatch
      ensures zeroTs == old(zeroTs) + Sum(fs, ZeroOf)
      ensures negativeTs == old(negativeTs) + Sum(fs, NegativeOf)
      ensures backwardsTs == old(backwardsTs) + Sum(fs, BackwardsOf)
      ensures seqIdGaps == old(seqIdGaps) + if HasSeqCheck(t) then Sum(fs, GapsOf) else 0
      ensures cntMismatch == old(cntMismatch) + if MismatchFires(t, msgCount[DelayReq], msgCount[DelayResp]) then |fs| else 0
    {
      var fires := MismatchFires(t, msgCount[DelayReq], msgCount[DelayResp]);
      var arrayIdx := 0;
      while arrayIdx < |fs|
        invariant 0 <= arrayIdx <= |fs|
        invariant zeroTs == old(zeroTs) + SumTo(fs, arrayIdx, ZeroOf)
        invariant negativeTs == old(negativeTs) + SumTo(fs, arrayIdx, NegativeOf)
        invariant backwardsTs == old(backwardsTs) + SumTo(fs, arrayIdx, BackwardsOf)
        invariant seqIdGaps == old(seqIdGaps) + if HasSeqCheck(t) then SumTo(fs, arrayIdx, GapsOf) else 0
        invariant cntMismatch == old(cntMismatch) + if fires then arrayIdx else 0
      {
        CheckFrameAt(t, fs, arrayIdx);
        arrayIdx := arrayIdx + 1;
      }
    }

    /** The body of the warning pass over one type's frames: checks frame k,
        so each counter grows by that frame's count. */
    method CheckFrameAt(t: MsgType, fs: seq<Frame>, k: nat)
      requires k < |fs| && HasTs(fs[k]) && AllTimed(fs[k].rows)
      requires DelayReq in msgCount && DelayResp in msgCount
      modifies this`zeroTs, this`negativeTs, this`backwardsTs, this`seqIdGaps, this`cntMismatch
      ensures zeroTs - SumTo(fs, k + 1, ZeroOf) == old(zeroTs) - SumTo(fs, k, ZeroOf)
      ensures negativeTs - SumTo(fs, k + 1, NegativeOf) == old(negativeTs) - SumTo(fs, k, NegativeOf)
      ensures backwardsTs - SumTo(fs, k + 1, BackwardsOf) == old(backwardsTs) - SumTo(fs, k, BackwardsOf)
      ensures seqIdGaps - (if HasSeqCheck(t) then SumTo(fs, k + 1, GapsOf) else 0)
           == old(seqIdGaps) - (if HasSeqCheck(t) then SumTo(fs, k, GapsOf) else 0)
      ensures cntMismatch == old(cntMismatch) + if MismatchFires(t, msgCount[DelayReq], msgCount[DelayResp]) then 1 else 0
    {
      CheckFrame(t, fs[k]);
    }

    /** The warning pass over the frames of one timed type, when that type
        was found. */
    method CheckFrames(t: MsgType)
      requires t in frames && DelayReq in msgCount && DelayResp in msgCount
      requires t in present ==> Checkable(frames[t])
      modifies this`zeroTs, this`negativeTs, this`backwardsTs, this`seqIdGaps, this`cntMismatch
      ensures zeroTs == old(zeroTs) + Gated(present, frames, t, ZeroOf)
      ensures negativeTs == old(negativeTs) + Gated(present, frames, t, NegativeOf)
      ensures backwardsTs == old(backwardsTs) + Gated(present, frames, t, BackwardsOf)
      ensures seqIdGaps == old(seqIdGaps) + if HasSeqCheck(t) then Gated(present, frames, t, GapsOf) else 0
      ensures cntMismatch == old(cntMismatch) + Mismatches(present, frames, msgCount, t)
    {
      if t in present {
        CheckFrameList(t, frames[t]);
      }
    }

    /** The warning overview: the checks of every timed type that was found,
        in the order Sync, Delay_Req, Follow_Up, Delay_Resp, Announce. */
    method WarningOverview()
      requires Valid() && AllCheckable()
      modifies this`zeroTs, this`negativeTs, this`backwardsTs, this`seqIdGaps, this`cntMismatch
      ensures zeroTs == old(zeroTs) + TimedSum(present, frames, ZeroOf)
      ensures negativeTs == old(negativeTs) + TimedSum(present, frames, NegativeOf)
      ensures backwardsTs == old(backwardsTs) + TimedSum(present, frames, BackwardsOf)
      ensures seqIdGaps == old(seqIdGaps) + Gated(present, frames, DelayReq, GapsOf)
                                          + Gated(present, frames, DelayResp, GapsOf)
      ensures cntMismatch == old(cntMismatch) + Mismatches(present, frames, msgCount, DelayReq)
                                              + Mismatches(present, frames, msgCount, DelayResp)
    {
      CheckFrames(Sync);
      CheckFrames(DelayReq);
      CheckFrames(FollowUp);
      CheckFrames(DelayResp);
      CheckFrames(Announce);
    }

    /** The two overviews that close a run: the warning overview, then the
        final overview. */
    method Overviews() returns (reports: map<MsgType, seq<BucketReport>>)
      requires Valid() && Calculated()
      modifies this`zeroTs, this`negativeTs, this`backwardsTs, this`seqIdGaps, this`cntMismatch, this`total
      ensures Valid() && Calculated()
      ensures zeroTs == old(zeroTs) + TimedSum(present, frames, ZeroOf)
      ensures negativeTs == old(negativeTs) + TimedSum(present, frames, NegativeOf)
      ensures backwardsTs == old(backwardsTs) + TimedSum(present, frames, BackwardsOf)
      ensures seqIdGaps == old(seqIdGaps) + Gated(present, frames, DelayReq, GapsOf)
                                          + Gated(present, frames, DelayResp, GapsOf)
      ensures cntMismatch == old(cntMismatch) + Mismatches(present, frames, msgCount, DelayReq)
                                              + Mismatches(present, frames, msgCount, DelayResp)
      ensures total == CountTotal(msgCount)
      ensures forall t :: t in reports <==> t in present && IsTimed(t)
      ensures forall t :: t in reports ==> reports[t] == Reports(t)
    {
      CalculatedIsCheckable();
      WarningOverview();
      reports := FinalOverview();
    }

    /** The interval overview of one timed type that was found: per frame the
        first and last timestamp, the average interval, and the expected
        interval (with the expected count for Sync) or the unexpected-logMP
        marker. */
    method IntervalOverview(t: MsgType) returns (reports: seq<BucketReport>)
      requires Valid() && Calculated() && t in present && IsTimed(t)
      ensures reports == Reports(t)
    {
      reports := [];
      var arrayIdx := 0;
      while arrayIdx < |frames[t]|
        invariant 0 <= arrayIdx <= |frames[t]|
        invariant reports == Reports(t)[..arrayIdx]
      {
        var f := frames[t][arrayIdx];
        assert IsDerived(f) && FrameFits(t, f);
        var ts := f.tsColumn.value;
        var firstTS := ts[0];
        var lastTS := ts[|ts| - 1];
        var logMP := logMPs[t][arrayIdx];
        var expectation;
        if LogMPInRange(t, logMP) {
          var expectedInterval := Pow2(logMP);
          expectation := Expected(expectedInterval,
                                  if t == Sync then Some((lastTS - firstTS) / expectedInterval) else None);
        } else {
          expectation := Unexpected(logMP);
        }
        var report := BucketReport(firstTS, lastTS, avgIntervals[t][arrayIdx], expectation);
        assert Reports(t)[arrayIdx] == report;
        assert Reports(t)[..arrayIdx + 1] == Reports(t)[..arrayIdx] + [report];
        reports := reports + [report];
        arrayIdx := arrayIdx + 1;
      }
      assert Reports(t)[..arrayIdx] == Reports(t);
    }

    /** The final overview: the interval overview of each timed type found,
        and the total message count. */
    method FinalOverview() returns (reports: map<MsgType, seq<BucketReport>>)
      requires Valid() && Calculated()
      modifies this`total
      ensures total == CountTotal(msgCount)
      ensures forall t :: t in reports <==> t in present && IsTimed(t)
      ensures forall t :: t in reports ==> reports[t] == Reports(t)
    {
      reports := map[];
      var k := 0;
      while k < 5
        invariant 0 <= k <= 5
        invariant forall t :: t in reports <==> t in present && CalcRank(t) < k
        invariant forall t :: t in reports ==> IsTimed(t) && t in present && reports[t] == Reports(t)
      {
        var t := TypeOfRank(k);
        if t in present {
          var r := IntervalOverview(t);
          reports := reports[t := r];
        }
        k := k + 1;
      }
      total := msgCount[Announce] + msgCount[DelayReq] + msgCount[DelayResp] + msgCount[FollowUp]
             + msgCount[Management] + msgCount[Signalling] + msgCount[Sync];
    }
  }

  lemma TypesOfCodesStep(codes: seq<int>, j: nat)
    requires j < |codes|
    ensures TypesOfCodes(codes[..j + 1]) ==
            TypesOfCodes(codes[..j]) + (if Classify(codes[j]).Some? then {Classify(codes[j]).value} else {})
  {
    assert codes[..j + 1] == codes[..j] + [codes[j]];
    forall t | t in AllTypes
      ensures Code(t) in codes[..j + 1] <==> Code(t) in codes[..j] || Classify(codes[j]) == Some(t)
    {
      ClassifyIsInverseOfCode(codes[j], t);
    }
  }

  lemma FoundTypesStep(ids: seq<seq<int>>, k: nat)
    requires k < |ids|
    ensures FoundTypes(ids[..k + 1]) == FoundTypes(ids[..k]) + TypesOfCodes(ids[k])
  {
    var p, q := ids[..k + 1], ids[..k];
    forall t | t in AllTypes
      ensures (exists i :: 0 <= i < |p| && Code(t) in p[i]) <==>
              (exists i :: 0 <= i < |q| && Code(t) in q[i]) || Code(t) in ids[k]
    {
      if exists i :: 0 <= i < |p| && Code(t) in p[i] {
        var i :| 0 <= i < |p| && Code(t) in p[i];
        if i < k {
          assert q[i] == p[i];
        }
      }
      if exists i :: 0 <= i < |q| && Code(t) in q[i] {
        var i :| 0 <= i < |q| && Code(t) in q[i];
        assert p[i] == q[i];
      }
      if Code(t) in ids[k] {
        assert p[k] == ids[k];
      }
    }
  }

  /** One analysis run over the extracted groups of a capture, in the
      order of the analysis: identify the types found, build the per-type
      frame lists, run the per-type calculations of every type found, then
      the warning overview and the final overview. */
  method Analyze(input: seq<seq<Group>>) returns (run: Run, reports: map<MsgType, seq<BucketReport>>)
    requires Extracted(input)
    ensures fresh(run) && run.Valid() && run.Calculated()
    ensures run.present == FoundTypes(CodesOf(input))
    ensures forall t :: run.msgCount[t] == Sum(Select(Flatten(input), t), RowCount)
    ensures forall t :: run.frames[t] == CalcedFrames(t, Select(Flatten(input), t))
    ensures forall t :: run.logMPs[t] == CalcedLogMPs(t, Select(Flatten(input), t))
    ensures forall t :: run.avgIntervals[t] == CalcedAvgs(t, Select(Flatten(input), t))
    ensures run.total == RecognizedRows(Flatten(input))
    ensures run.other == 0
    ensures run.zeroTs == TimedSum(run.present, run.frames, ZeroOf)
    ensures run.negativeTs == TimedSum(run.present, run.frames, NegativeOf)
    ensures run.backwardsTs == TimedSum(run.present, run.frames, BackwardsOf)
    ensures run.seqIdGaps == Gated(run.present, run.frames, DelayReq, GapsOf)
                             + Gated(run.present, run.frames, DelayResp, GapsOf)
    ensures run.cntMismatch == Mismatches(run.present, run.frames, run.msgCount, DelayReq)
                               + Mismatches(run.present, run.frames, run.msgCount, DelayResp)
    ensures forall t :: t in reports <==> t in run.present && IsTimed(t)
    ensures forall t :: t in reports ==> reports[t] == run.Reports(t)
  {
    run := Calculate(input);
    reports := run.Overviews();
    TotalOfCounts(run.msgCount, Flatten(input));
  }

  /** A fresh run with the types identified, the frame lists built and the
      per-type calculations of every type found done: each type's counter
      holds the rows filed under it. */
  method Calculate(input: seq<seq<Group>>) returns (run: Run)
    requires Extracted(input)
    ensures fresh(run) && run.Valid() && run.Calculated()
    ensures run.present == FoundTypes(CodesOf(input))
    ensures forall t :: run.msgCount[t] == Sum(Select(Flatten(input), t), RowCount)
    ensures forall t :: run.frames[t] == CalcedFrames(t, Select(Flatten(input), t))
    ensures forall t :: run.logMPs[t] == CalcedLogMPs(t, Select(Flatten(input), t))
    ensures forall t :: run.avgIntervals[t] == CalcedAvgs(t, Select(Flatten(input), t))
    ensures run.zeroTs == 0 && run.negativeTs == 0 && run.backwardsTs == 0
    ensures run.seqIdGaps == 0 && run.cntMismatch == 0 && run.other == 0
  {
    run := Prepare(input);
    run.AllCalcs();
    forall t
      ensures run.msgCount[t] == Sum(Select(Flatten(input), t), RowCount)
      ensures run.frames[t] == CalcedFrames(t, Select(Flatten(input), t))
      ensures run.logMPs[t] == CalcedLogMPs(t, Select(Flatten(input), t))
      ensures run.avgIntervals[t] == CalcedAvgs(t, Select(Flatten(input), t))
    {
      SelectNonEmptyIffFound(input, t);
    }
  }

  /** A fresh run with the types identified and the frame lists built. */
  method Prepare(input: seq<seq<Group>>) returns (run: Run)
    requires Extracted(input)
    ensures fresh(run) && run.Valid()
    ensures run.present == FoundTypes(CodesOf(input))
    ensures forall t :: run.frames[t] == Select(Flatten(input), t)
    ensures forall t :: run.msgCount[t] == 0 && run.logMPs[t] == [] && run.avgIntervals[t] == []
    ensures run.zeroTs == 0 && run.negativeTs == 0 && run.backwardsTs == 0
    ensures run.seqIdGaps == 0 && run.cntMismatch == 0 && run.other == 0
  {
    run := new Run();
    ghost var counts, recorded := run.msgCount, (run.logMPs, run.avgIntervals);
    run.IdentifyMsgTypes(CodesOf(input));
    run.CreateMessageFrames(input);
    assert run.msgCount == counts && (run.logMPs, run.avgIntervals) == recorded;
  }

  lemma DispatchStep(gs: seq<Group>, g: Group)
    ensures forall t :: Select(gs + [g], t) ==
              Select(gs, t) + if Classify(g.code) == Some(t) then [Frame(g.rows, None)] else []
  {
    assert (gs + [g])[..|gs|] == gs;
    forall t ensures g.code == Code(t) <==> Classify(g.code) == Some(t) {
      ClassifyIsInverseOfCode(g.code, t);
    }
  }

  /** Dispatching two runs of groups one after the other files the frames
      of the first and then those of the second. */
  lemma {:induction false} SelectAppend(a: seq<Group>, b: seq<Group>, t: MsgType)
    ensures Select(a + b, t) == Select(a, t) + Select(b, t)
    decreases |b|
  {
    if b == [] {
      assert a + b == a;
    } else {
      var b' := b[..|b| - 1];
      assert (a + b)[..|a + b| - 1] == a + b';
      SelectAppend(a, b', t);
    }
  }

  lemma FlattenStep(input: seq<seq<Group>>, k: nat)
    requires k < |input|
    ensures Flatten(input[..k + 1]) == Flatten(input[..k]) + input[k]
  {
    assert input[..k + 1][..k] == input[..k];
  }

  lemma FitsAppend(t: MsgType, fs: seq<Frame>, g: Group)
    requires FramesFit(t, fs) && GroupFits(g) && Classify(g.code) == Some(t)
    ensures FramesFit(t, fs + [Frame(g.rows, None)])
  {
  }

  lemma FitsDeriveAll(t: MsgType, fs: seq<Frame>)
    requires FramesFit(t, fs) && TimedFrames(fs)
    ensures FramesFit(t, DeriveAll(fs))
  {
  }

  /** One step of the calculations changes the entries of its own type
      only, and only when that type was found. */
  lemma StepFrames(s: PerType, present: set<MsgType>, u: MsgType, t: MsgType)
    requires Complete(s)
    ensures CalcStep(s, present, u).frames[t] ==
              if u == t && t in present then CalcedFrames(t, s.frames[t]) else s.frames[t]
  {
  }

  lemma StepCount(s: PerType, present: set<MsgType>, u: MsgType, t: MsgType)
    requires Complete(s)
    ensures CalcStep(s, present, u).msgCount[t] ==
              s.msgCount[t] + if u == t && t in present then Sum(s.frames[t], RowCount) else 0
  {
  }

  lemma StepLogMPs(s: PerType, present: set<MsgType>, u: MsgType, t: MsgType)
    requires Complete(s)
    ensures CalcStep(s, present, u).logMPs[t] ==
              s.logMPs[t] + if u == t && t in present then CalcedLogMPs(t, s.frames[t]) else []
  {
    assert s.logMPs[t] + [] == s.logMPs[t];
  }

  lemma StepAvgs(s: PerType, present: set<MsgType>, u: MsgType, t: MsgType)
    requires Complete(s)
    ensures CalcStep(s, present, u).avgIntervals[t] ==
              s.avgIntervals[t] + if u == t && t in present then CalcedAvgs(t, s.frames[t]) else []
  {
    assert s.avgIntervals[t] + [] == s.avgIntervals[t];
  }

  /** After the calculations of the first k types, a type's frame list is
      derived exactly when the type was found and comes among the first k. */
  lemma {:induction false} FramesUpTo(s: PerType, present: set<MsgType>, k: nat, t: MsgType)
    requires Complete(s) && k <= 7
    ensures CalcsUpTo(s, present, k).frames[t] ==
              if t in present && CalcRank(t) < k then CalcedFrames(t, s.frames[t]) else s.frames[t]
  {
    if k > 0 {
      var q, u := CalcsUpTo(s, present, k - 1), TypeOfRank(k - 1);
      FramesUpTo(s, present, k - 1, t);
      StepFrames(q, present, u, t);
    }
  }

  /** After the calculations of the first k types, a type's counter has
      grown by its rows exactly when it was found and comes among the first
      k. */
  lemma {:induction false} CountUpTo(s: PerType, present: set<MsgType>, k: nat, t: MsgType)
    requires Complete(s) && k <= 7
    ensures CalcsUpTo(s, present, k).msgCount[t] ==
              s.msgCount[t] + if t in present && CalcRank(t) < k then Sum(s.frames[t], RowCount) else 0
  {
    if k > 0 {
      var q, u := CalcsUpTo(s, present, k - 1), TypeOfRank(k - 1);
      CountUpTo(s, present, k - 1, t);
      FramesUpTo(s, present, k - 1, t);
      StepCount(q, present, u, t);
    }
  }

  /** After the calculations of the first k types, a type's recorded
      logMessagePeriods have grown by its own exactly when it was
      found and comes among the first k. */
  lemma {:induction false} LogMPsUpTo(s: PerType, present: set<MsgType>, k: nat, t: MsgType)
    requires Complete(s) && k <= 7
    ensures CalcsUpTo(s, present, k).logMPs[t] ==
              s.logMPs[t] + if t in present && CalcRank(t) < k then CalcedLogMPs(t, s.frames[t]) else []
  {
    if k == 0 {
      assert s.logMPs[t] + [] == s.logMPs[t];
    } else {
      var q, u := CalcsUpTo(s, present, k - 1), TypeOfRank(k - 1);
      LogMPsUpTo(s, present, k - 1, t);
      FramesUpTo(s, present, k - 1, t);
      StepLogMPs(q, present, u, t);
      if u == t && t in present {
        assert q.logMPs[t] == s.logMPs[t] + [] == s.logMPs[t];
      } else {
        assert CalcsUpTo(s, present, k).logMPs[t] == q.logMPs[t] + [] == q.logMPs[t];
        if t in present {
          assert CalcRank(t) != k - 1;
        }
      }
    }
  }

  /** After the calculations of the first k types, a type's recorded
      average intervals have grown by its own exactly when it was found
      and comes among the first k. */
  lemma {:induction false} AvgsUpTo(s: PerType, present: set<MsgType>, k: nat, t: MsgType)
    requires Complete(s) && k <= 7
    ensures CalcsUpTo(s, present, k).avgIntervals[t] ==
              s.avgIntervals[t] + if t in present && CalcRank(t) < k then CalcedAvgs(t, s.frames[t]) else []
  {
    if k == 0 {
      assert s.avgIntervals[t] + [] == s.avgIntervals[t];
    } else {
      var q, u := CalcsUpTo(s, present, k - 1), TypeOfRank(k - 1);
      AvgsUpTo(s, present, k - 1, t);
      FramesUpTo(s, present, k - 1, t);
      StepAvgs(q, present, u, t);
      if u == t && t in present {
        assert q.avgIntervals[t] == s.avgIntervals[t] + [] == s.avgIntervals[t];
      } else {
        assert CalcsUpTo(s, present, k).avgIntervals[t] == q.avgIntervals[t] + [] == q.avgIntervals[t];
        if t in present {
          assert CalcRank(t) != k - 1;
        }
      }
    }
  }

  /** The calculations of a timed type derive every frame and record one
      logMessagePeriod and one average per frame. */
  lemma CalcedShape(t: MsgType, fs: seq<Frame>)
    requires IsTimed(t) && FramesFit(t, fs)
    ensures forall i :: 0 <= i < |CalcedFrames(t, fs)| ==> IsDerived(CalcedFrames(t, fs)[i])
    ensures |CalcedLogMPs(t, fs)| == |CalcedFrames(t, fs)| == |CalcedAvgs(t, fs)|
  {
    assert TimedFrames(fs);
  }

  /** Sum over a list with one more frame. */
  lemma {:induction false} SumToAppend(fs: seq<Frame>, f: Frame, n: nat, m: Frame -> nat)
    requires n <= |fs|
    ensures SumTo(fs + [f], n, m) == SumTo(fs, n, m)
  {
    if n > 0 {
      SumToAppend(fs, f, n - 1, m);
    }
  }

  lemma SumAppend(fs: seq<Frame>, f: Frame, m: Frame -> nat)
    ensures Sum(fs + [f], m) == Sum(fs, m) + m(f)
  {
    SumToAppend(fs, f, |fs|, m);
  }

  /** Every row of a recognised group is counted under exactly one type, and
      no row of an unknown code is counted: the seven type counts add up to
      the rows with a recognised code. */
  lemma {:induction false} SelectPartition(gs: seq<Group>)
    ensures Sum(Select(gs, Announce), RowCount) + Sum(Select(gs, DelayReq), RowCount)
            + Sum(Select(gs, DelayResp), RowCount) + Sum(Select(gs, FollowUp), RowCount)
            + Sum(Select(gs, Management), RowCount) + Sum(Select(gs, Signalling), RowCount)
            + Sum(Select(gs, Sync), RowCount)
            == RecognizedRows(gs)
  {
    if gs != [] {
      var p, g := gs[..|gs| - 1], gs[|gs| - 1];
      assert gs == p + [g];
      SelectPartition(p);
      var c := Classify(g.code);
      SumSelectStep(p, g, Announce);
      SumSelectStep(p, g, DelayReq);
      SumSelectStep(p, g, DelayResp);
      SumSelectStep(p, g, FollowUp);
      SumSelectStep(p, g, Management);
      SumSelectStep(p, g, Signalling);
      SumSelectStep(p, g, Sync);
      OneType(c, |g.rows|);
    }
  }

  /** Counters holding the rows filed under each type add up, in the order
      of the final overview, to the rows with a recognised code. */
  lemma TotalOfCounts(counts: map<MsgType, nat>, gs: seq<Group>)
    requires forall t :: t in counts && counts[t] == Sum(Select(gs, t), RowCount)
    ensures CountTotal(counts) == RecognizedRows(gs)
  {
    SelectPartition(gs);
  }

  /** One more group adds its rows to the count of its own type only. */
  lemma SumSelectStep(p: seq<Group>, g: Group, t: MsgType)
    ensures Sum(Select(p + [g], t), RowCount) ==
            Sum(Select(p, t), RowCount) + if Classify(g.code) == Some(t) then |g.rows| else 0
  {
    assert (p + [g])[..|p|] == p;
    ClassifyIsInverseOfCode(g.code, t);
    if Classify(g.code) == Some(t) {
      SumAppend(Select(p, t), Frame(g.rows, None), RowCount);
    } else {
      assert Select(p, t) + [] == Select(p, t);
    }
  }

  /** A classified code is counted under exactly one of the seven types. */
  lemma OneType(c: Option<MsgType>, n: nat)
    ensures (if c == Some(Announce) then n else 0) + (if c == Some(DelayReq) then n else 0)
            + (if c == Some(DelayResp) then n else 0) + (if c == Some(FollowUp) then n else 0)
            + (if c == Some(Management) then n else 0) + (if c == Some(Signalling) then n else 0)
            + (if c == Some(Sync) then n else 0)
            == if c.Some? then n else 0
  {
    match c
    case None =>
    case Some(u) =>
      match u
      case Sync =>
      case DelayReq =>
      case FollowUp =>
      case DelayResp =>
      case Announce =>
      case Signalling =>
      case Management =>
  }

  /** The dispatch files some frame under t exactly when some group carries
      t's code. */
  lemma {:induction false} SelectNonEmptyIff(gs: seq<Group>, t: MsgType)
    ensures Select(gs, t) != [] <==> exists j :: 0 <= j < |gs| && gs[j].code == Code(t)
  {
    if gs != [] {
      var p := gs[..|gs| - 1];
      SelectNonEmptyIff(p, t);
      if exists j :: 0 <= j < |p| && p[j].code == Code(t) {
        var j :| 0 <= j < |p| && p[j].code == Code(t);
        assert gs[j] == p[j];
      }
      if exists j :: 0 <= j < |gs| && gs[j].code == Code(t) {
        var j :| 0 <= j < |gs| && gs[j].code == Code(t);
        if j < |p| {
          assert p[j] == gs[j];
        }
      }
    }
  }

  /** A code carried by some group of the flattened input is among the
      codes of some source. */
  lemma {:induction false} FlattenCodesSound(input: seq<seq<Group>>, c: int, j: nat)
    requires j < |Flatten(input)| && Flatten(input)[j].code == c
    ensures exists k :: 0 <= k < |input| && c in CodesOf(input)[k]
  {
    var n := |input| - 1;
    var p := input[..n];
    FlattenStep(input, n);
    assert input[..n + 1] == input;
    var fp := Flatten(p);
    if j < |fp| {
      assert Flatten(input)[j] == fp[j];
      FlattenCodesSound(p, c, j);
      var k :| 0 <= k < |p| && c in CodesOf(p)[k];
      assert CodesOf(p)[k] == CodesOf(input)[k];
    } else {
      assert CodesOf(input)[n][j - |fp|] == c;
    }
  }

  /** A code among the codes of some source is carried by some group of the
      flattened input. */
  lemma {:induction false} FlattenCodesComplete(input: seq<seq<Group>>, c: int, k: nat)
    requires k < |input| && c in CodesOf(input)[k]
    ensures exists j :: 0 <= j < |Flatten(input)| && Flatten(input)[j].code == c
  {
    var n := |input| - 1;
    var p := input[..n];
    FlattenStep(input, n);
    assert input[..n + 1] == input;
    var fp := Flatten(p);
    if k < n {
      assert CodesOf(p)[k] == CodesOf(input)[k];
      FlattenCodesComplete(p, c, k);
      var j :| 0 <= j < |fp| && fp[j].code == c;
      assert Flatten(input)[j] == fp[j];
    } else {
      var i :| 0 <= i < |input[n]| && CodesOf(input)[n][i] == c;
      assert Flatten(input)[|fp| + i] == input[n][i];
    }
  }

  /** A type's flag is set by the identification exactly when the dispatch
      files at least one frame under that type. */
  lemma SelectNonEmptyIffFound(input: seq<seq<Group>>, t: MsgType)
    ensures Select(Flatten(input), t) != [] <==> t in FoundTypes(CodesOf(input))
  {
    SelectNonEmptyIff(Flatten(input), t);
    var c := Code(t);
    if exists j :: 0 <= j < |Flatten(input)| && Flatten(input)[j].code == c {
      var j :| 0 <= j < |Flatten(input)| && Flatten(input)[j].code == c;
      FlattenCodesSound(input, c, j);
    }
    if exists k :: 0 <= k < |input| && c in CodesOf(input)[k] {
      var k :| 0 <= k < |input| && c in CodesOf(input)[k];
      FlattenCodesComplete(input, c, k);
    }
    AllTypesComplete();
  }
}
