/** The message types, the extracted rows and the derived timestamp that the
    PTP capture analytics work on. */
module PtpTypes {

  datatype Option<T> = None | Some(value: T)

  /** The seven PTP (IEEE 1588-2008) message types the analytics know about. */
  datatype MsgType = Sync | DelayReq | FollowUp | DelayResp | Announce | Signalling | Management

  const AllTypes: set<MsgType> := {Sync, DelayReq, FollowUp, DelayResp, Announce, Signalling, Management}

  lemma AllTypesComplete()
    ensures forall t :: t in AllTypes
  {
    forall t: MsgType ensures t in AllTypes {
      match t
      case Sync =>
      case DelayReq =>
      case FollowUp =>
      case DelayResp =>
      case Announce =>
      case Signalling =>
      case Management =>
    }
  }

  /** The messageType code carried on the wire by each known type. */
  function Code(t: MsgType): int
  {
    match t
    case Sync => 0
    case DelayReq => 1
    case FollowUp => 8
    case DelayResp => 9
    case Announce => 11
    case Signalling => 12
    case Management => 13
  }

  /** Maps a messageType code to its type; every other code (the peer-delay
      codes 2, 3 and 10 among them) is not recognised. */
  function Classify(code: int): (r: Option<MsgType>)
    ensures r.Some? ==> Code(r.value) == code
    ensures r.None? ==> forall t :: Code(t) != code
  {
    if code == 0 then Some(Sync)
    else if code == 1 then Some(DelayReq)
    else if code == 8 then Some(FollowUp)
    else if code == 9 then Some(DelayResp)
    else if code == 11 then Some(Announce)
    else if code == 12 then Some(Signalling)
    else if code == 13 then Some(Management)
    else None
  }

  /** Classification and the code table are inverse to each other. */
  lemma ClassifyIsInverseOfCode(code: int, t: MsgType)
    ensures Classify(code) == Some(t) <==> Code(t) == code
  {
    if Code(t) == code {
      match t
      case Sync =>
      case DelayReq =>
      case FollowUp =>
      case DelayResp =>
      case Announce =>
      case Signalling =>
      case Management =>
    }
  }

  /** Types whose rows carry an origin/receive timestamp and a logMessagePeriod. */
  predicate IsTimed(t: MsgType)
  {
    t != Signalling && t != Management
  }

  /** Types whose sequenceId progression is checked for gaps. */
  predicate HasSeqCheck(t: MsgType)
  {
    t == DelayReq || t == DelayResp
  }

  /** One extracted message, with the columns read for its type:
      timed types carry seqID, logMP and the two timestamp sub-fields,
      Signalling carries seqID, logMP and tlvType, Management only the frame
      number and flags. */
  datatype Row =
    | TimedRow(frameNum: int, flags: int, seqId: int, logMP: int, tsSec: int, tsNs: int)
    | SigRow(frameNum: int, flags: int, seqId: int, logMP: int, tlvType: int)
    | ManRow(frameNum: int, flags: int)

  /** The messages of one type from one source, in capture order, and the
      derived "ts" column once it has been inserted. */
  datatype Frame = Frame(rows: seq<Row>, tsColumn: Option<seq<real>>)

  /** Whether a row has the columns that a frame of type t is read with. */
  predicate RowFits(t: MsgType, r: Row)
  {
    if IsTimed(t) then r.TimedRow? else if t == Signalling then r.SigRow? else r.ManRow?
  }

  predicate AllTimed(rows: seq<Row>)
  {
    forall i :: 0 <= i < |rows| ==> rows[i].TimedRow?
  }

  const NsPerSecond: int := 1000000000

  /** The derived timestamp in seconds: seconds plus nanoseconds times 10^-9,
      as exact arithmetic. It is the integer nanosecond count scaled by 10^-9. */
  function Timestamp(r: Row): real
    requires r.TimedRow?
  {
    r.tsSec as real + r.tsNs as real * 0.000000001
  }

  /** The timestamp is exactly the integer nanosecond count scaled by 10^-9. */
  lemma TimestampScaled(r: Row)
    requires r.TimedRow?
    ensures Timestamp(r) * 1000000000.0 == (r.tsSec * NsPerSecond + r.tsNs) as real
  {
  }

  /** The "ts" column derived for a whole frame. */
  function Timestamps(rows: seq<Row>): (ts: seq<real>)
    requires AllTimed(rows)
  {
    seq(|rows|, i requires 0 <= i < |rows| => Timestamp(rows[i]))
  }

  /** The seqID column of a frame of a timed type. */
  function SeqIds(rows: seq<Row>): (ids: seq<int>)
    requires AllTimed(rows)
  {
    seq(|rows|, i requires 0 <= i < |rows| => rows[i].seqId)
  }

  /** With the nanosecond field in [0, 10^9), timestamps order exactly as the
      (seconds, nanoseconds) pairs order lexicographically. */
  lemma TimestampOrder(a: Row, b: Row)
    requires a.TimedRow? && b.TimedRow?
    requires 0 <= a.tsNs < NsPerSecond && 0 <= b.tsNs < NsPerSecond
    ensures Timestamp(a) < Timestamp(b) <==>
            a.tsSec < b.tsSec || (a.tsSec == b.tsSec && a.tsNs < b.tsNs)
  {
    TimestampScaled(a);
    TimestampScaled(b);
    var na := a.tsSec * NsPerSecond + a.tsNs;
    var nb := b.tsSec * NsPerSecond + b.tsNs;
    assert Timestamp(a) < Timestamp(b) <==> na < nb;
    if a.tsSec < b.tsSec {
      assert a.tsSec * NsPerSecond + NsPerSecond <= b.tsSec * NsPerSecond;
    } else if a.tsSec > b.tsSec {
      assert b.tsSec * NsPerSecond + NsPerSecond <= a.tsSec * NsPerSecond;
    }
  }

  /** With the nanosecond field in [0, 10^9), a timestamp is zero exactly when
      both sub-fields are zero, and negative exactly when the seconds are. */
  lemma TimestampSign(r: Row)
    requires r.TimedRow? && 0 <= r.tsNs < NsPerSecond
    ensures Timestamp(r) == 0.0 <==> r.tsSec == 0 && r.tsNs == 0
    ensures Timestamp(r) < 0.0 <==> r.tsSec < 0
  {
    TimestampScaled(r);
    var n := r.tsSec * NsPerSecond + r.tsNs;
    assert Timestamp(r) == 0.0 <==> n == 0;
    assert Timestamp(r) < 0.0 <==> n < 0;
    if r.tsSec < 0 {
      assert r.tsSec * NsPerSecond <= -NsPerSecond;
    } else if r.tsSec > 0 {
      assert r.tsSec * NsPerSecond >= NsPerSecond;
    }
  }

  /** seconds = 5, nanoseconds = 500000000 gives 5.5 s. */
  lemma TimestampExample()
    ensures Timestamp(TimedRow(1, 0, 0, 0, 5, 500000000)) == 5.5
  {
  }
}
