# PTP capture analytics — a verified model

This project models the analysis core of `ptp_sim_aut_ver_tool.py`, a tool that
checks a capture of Precision Time Protocol (IEEE 1588-2008, PTPv2) traffic.
The tool extracts the PTP messages of each source with tshark. For each source
and each messageType code it builds a frame of records (frame number, flags,
sequenceId, logMessagePeriod, and the seconds and nanoseconds of the timestamp).
From these frames it then:

- identifies the message types present (codes 0, 1, 8, 9, 11, 12 and 13) and
  files every frame under its type's frame list, skipping every other code;
- runs the per-type calculations in the order Sync, Delay_Req, Follow_Up,
  Delay_Resp, Announce, Signalling, Management. Each found type's counter grows
  by its rows. Each frame of a timed type gets a "ts" column, computed as
  `ts_s + ts_ns * 10^-9`. The frame's first logMessagePeriod is recorded, and so
  is its average interval: the span from the first to the last timestamp divided
  by the number of distinct sequenceIds;
- runs the warning overview, which covers every frame of every timed type found:
  - counts zero and negative timestamps and adjacent pairs that go backwards;
  - for Delay_Req and Delay_Resp, counts sequenceId gaps;
  - compares the capture-wide Delay_Req and Delay_Resp totals once per frame;
- produces the final overview:
  - per frame: the first and last timestamps, the average interval, and either
    the expected interval `2^logMP` (plus, for Sync, the expected count
    span / `2^logMP`) or an "unexpected logMP" marker, depending on the type's
    valid logMP range;
  - the total, which is the sum of the seven type counters.

The model has five modules:

- `PtpTypes` holds the message types and their codes, the rows, the frames and
  the derived timestamp.
- `AnomalyCounts` gives the warning counts as functions over one "ts" or
  sequenceId column. Lemmas relate them to the indices they count.
- `IntervalAnalysis` holds the logMP range table, `2^logMP` as an exact real, the
  expectation and the average interval.
- `PtpAnalysis` holds the per-run state as the class `Run` (the type flags, the
  per-type frame lists, message counters, recorded logMPs and average intervals,
  and the warning counters). Each stage of the tool is a method with loops,
  proved against specification functions. `Analyze` runs the stages in the
  tool's order.
- `TsharkSetup` holds the pure decisions made while preparing the extraction:
  the argument prefix filter, the version check that picks the messageType
  field, and the EtherType-to-source-address mapping.

Timestamps are exact reals. The input of `Analyze` is what the extraction
delivers: for each source, a list of (code, rows) groups in the order the
sources and their unique codes were found.

## Model

| member | source | states |
|---|---|---|
| PtpTypes.Classify | ptp_sim_aut_ver_tool.py:460-473 | a recognised code maps to the type whose code it is; any other code maps to no type at all |
| PtpTypes.ClassifyIsInverseOfCode | ptp_sim_aut_ver_tool.py:63-81 | classification and the messageType code table (0, 1, 8, 9, 11, 12, 13) are inverse to each other, in both directions |
| PtpTypes.TimestampScaled | ptp_sim_aut_ver_tool.py:644 | the derived timestamp times 10^9 is exactly the integer nanosecond count `ts_s * 10^9 + ts_ns` |
| PtpTypes.TimestampOrder | ptp_sim_aut_ver_tool.py:644 | with nanoseconds in [0, 10^9), derived timestamps order exactly as the (seconds, nanoseconds) pairs order lexicographically |
| PtpTypes.TimestampSign | ptp_sim_aut_ver_tool.py:644 | with nanoseconds in [0, 10^9), a derived timestamp is zero exactly when both fields are zero, and negative exactly when the seconds are |
| PtpTypes.TimestampExample | ptp_sim_aut_ver_tool.py:644 | 5 s and 500000000 ns give 5.5 s |
| AnomalyCounts.CountZero | ptp_sim_aut_ver_tool.py:227-230 | the zero count never exceeds the number of timestamps |
| AnomalyCounts.CountNegative | ptp_sim_aut_ver_tool.py:234-237 | the negative count never exceeds the number of timestamps |
| AnomalyCounts.CountBackwards | ptp_sim_aut_ver_tool.py:240-243 | a non-empty column of n timestamps has fewer than n backwards steps |
| AnomalyCounts.CountSeqGaps | ptp_sim_aut_ver_tool.py:725-726 | a non-empty column of n sequenceIds has fewer than n gaps |
| AnomalyCounts.CountZeroIsMultiplicity | ptp_sim_aut_ver_tool.py:227-230 | the zero count equals the number of occurrences of 0.0 in the column |
| AnomalyCounts.CountNegativeIsIndexCount | ptp_sim_aut_ver_tool.py:234-237 | the negative count equals the number of indices whose timestamp is below zero |
| AnomalyCounts.CountBackwardsIsIndexCount | ptp_sim_aut_ver_tool.py:240-243 | the backwards count equals the number of indices i with ts[i] > ts[i+1] |
| AnomalyCounts.CountSeqGapsIsIndexCount | ptp_sim_aut_ver_tool.py:725-726 | the gap count equals the number of indices i with seqID[i] + 1 != seqID[i+1] |
| AnomalyCounts.NoBackwardsIffNonDecreasing | ptp_sim_aut_ver_tool.py:240-243 | no backwards step is counted exactly when the column is non-decreasing |
| AnomalyCounts.NoGapsIffConsecutive | ptp_sim_aut_ver_tool.py:752-753 | no gap is counted exactly when every id is the first id plus its index |
| AnomalyCounts.ZeroExample | ptp_sim_aut_ver_tool.py:227-230 | [0.0, 1.0, 2.0] has one zero timestamp |
| AnomalyCounts.BackwardsExample | ptp_sim_aut_ver_tool.py:240-243 | in [1.0, 2.0, 1.5, 3.0] only the pair starting at index 1 goes backwards |
| AnomalyCounts.SeqGapExamples | ptp_sim_aut_ver_tool.py:725-726 | 10, 11, 13, 14 has exactly one gap (at index 1), and 10, 11, 12 has none |
| IntervalAnalysis.Pow2 | ptp_sim_aut_ver_tool.py:799 | 2^logMP is positive for every logMP, negative ones included |
| IntervalAnalysis.Pow2Step | ptp_sim_aut_ver_tool.py:799 | raising logMP by one doubles the expected interval |
| IntervalAnalysis.LogMPRange | ptp_sim_aut_ver_tool.py:798-888 | the range of each timed type contains logMP 0 (Sync and Follow_Up [-8, 8], Delay_Req and Delay_Resp [0, 5], Announce [-7, 4]) |
| IntervalAnalysis.Expect | ptp_sim_aut_ver_tool.py:798-893 | a frame is marked unexpected, carrying its logMP, exactly when logMP is outside its type's range; otherwise the expected interval is 2^logMP, and an expected count is given exactly for Sync |
| IntervalAnalysis.ExpectedCountSpan | ptp_sim_aut_ver_tool.py:800 | the expected Sync count times 2^logMP is the frame's span |
| IntervalAnalysis.UniqueCountBounds | ptp_sim_aut_ver_tool.py:649 | a non-empty frame has between 1 and n distinct sequenceIds, and exactly n when no id repeats, so the average's divisor is never zero |
| IntervalAnalysis.AvgIntervalSpan | ptp_sim_aut_ver_tool.py:649-665 | the average interval times the number of distinct ids is the span from the first to the last timestamp |
| IntervalAnalysis.PeriodicAverage | ptp_sim_aut_ver_tool.py:649-665 | for n evenly spaced messages with period P and distinct ids, the average is P * (n - 1) / n |
| IntervalAnalysis.OverviewExamples | ptp_sim_aut_ver_tool.py:798-827 | a Sync frame over 8 s with five ids and logMP 1 averages 1.6 s, and expects 2 s and 4 messages; a Delay_Req logMP of 9 is unexpected |
| PtpAnalysis.MismatchDirections | ptp_sim_aut_ver_tool.py:733-762 | the Delay_Req pass fires exactly when Delay_Req < Delay_Resp, and the Delay_Resp pass exactly when Delay_Req > Delay_Resp. They never fire together; one fires exactly when the totals differ; no other type fires |
| PtpAnalysis.DeriveTimestamps | ptp_sim_aut_ver_tool.py:640-645 | the inserted "ts" column has one entry per row, equal to that row's seconds + nanoseconds * 10^-9 |
| PtpAnalysis.CalcFrame | ptp_sim_aut_ver_tool.py:640-665 | one frame gets its derived "ts" column (rows unchanged), its first row's logMP, and span / distinct ids as its average interval |
| PtpAnalysis.CalcFrames | ptp_sim_aut_ver_tool.py:631-701 | over a type's frames, in order: every frame derived, the rows of all frames counted, one logMP and one average recorded per frame |
| PtpAnalysis.Run.constructor | ptp_sim_aut_ver_tool.py:94-169 | a fresh run has no type flag set, empty frame lists and recorded lists, and every counter at zero |
| PtpAnalysis.Run.IdentifyMsgTypes | ptp_sim_aut_ver_tool.py:444-473 | the flags set are exactly the known types among the codes of all sources; unknown codes set nothing |
| PtpAnalysis.Run.FileGroup | ptp_sim_aut_ver_tool.py:536-615 | a group is appended to its own type's frame list and to no other; a group with an unknown code changes nothing |
| PtpAnalysis.Run.FileGroups | ptp_sim_aut_ver_tool.py:529-615 | the groups of one source are filed in order under their types |
| PtpAnalysis.Run.CreateMessageFrames | ptp_sim_aut_ver_tool.py:517-615 | each type's frame list grows by the frames of its code, source after source, in order |
| PtpAnalysis.Run.CountMessages | ptp_sim_aut_ver_tool.py:633-636 | for Signalling and Management only that type's counter changes, growing by the rows of its frames |
| PtpAnalysis.Run.CalcTimedFrames | ptp_sim_aut_ver_tool.py:637-701 | for a timed type, its frames are derived, its counter grows by their rows, its logMPs and averages are appended, and no other type's entries change |
| PtpAnalysis.Run.TypeSpecificCalcs | ptp_sim_aut_ver_tool.py:626-701 | the calculations of one type change only that type's entries: the counter always; the frames and recorded lists only for a timed type |
| PtpAnalysis.Run.CalcsIfPresent | ptp_sim_aut_ver_tool.py:1021-1022 | a type's calculations run only when its flag is set; otherwise the state is unchanged |
| PtpAnalysis.Run.AllCalcs | ptp_sim_aut_ver_tool.py:1019-1059 | after the calculations of all seven types, each found type's counter holds exactly its rows, each unfound type's stays 0, and every frame of a found timed type carries its derived "ts" column, its recorded logMPs are each frame's first row's logMP and its recorded averages are each frame's span over its distinct seqIDs, in frame order; unfound types record nothing |
| PtpAnalysis.FramesUpTo | ptp_sim_aut_ver_tool.py:1019-1059 | after the first k types of the order, a type's frames are derived exactly when it was found and comes among those k |
| PtpAnalysis.CountUpTo | ptp_sim_aut_ver_tool.py:1019-1059 | after the first k types of the order, a type's counter has grown by its rows exactly when it was found and comes among those k |
| PtpAnalysis.LogMPsUpTo | ptp_sim_aut_ver_tool.py:1019-1059 | after the first k types of the order, a type's logMPs have grown by its own frames' first logMPs exactly when it was found and comes among those k |
| PtpAnalysis.AvgsUpTo | ptp_sim_aut_ver_tool.py:1019-1059 | after the first k types of the order, a type's averages have grown by its own frames' averages exactly when it was found and comes among those k |
| PtpAnalysis.Run.CheckTs | ptp_sim_aut_ver_tool.py:224-243 | the Zero, Negative and Backwards counters grow by exactly the zero, negative and backwards counts of the column; nothing else changes |
| PtpAnalysis.Run.CheckSeqIds | ptp_sim_aut_ver_tool.py:725-731 | the SeqID counter grows by exactly the number of non-consecutive adjacent pairs |
| PtpAnalysis.Run.CheckFrame | ptp_sim_aut_ver_tool.py:721-739 | one frame of the pass: the timestamp counts; for Delay_Req and Delay_Resp, the gap count; and one mismatch when the type's comparison of the two totals fires |
| PtpAnalysis.Run.CheckFrameList | ptp_sim_aut_ver_tool.py:722-739 | over a type's frames, each counter grows by the sum of the per-frame counts, and the mismatch counter grows by the number of frames when the comparison fires |
| PtpAnalysis.Run.CheckFrames | ptp_sim_aut_ver_tool.py:721-739 | a type's pass adds nothing unless its flag is set |
| PtpAnalysis.Run.WarningOverview | ptp_sim_aut_ver_tool.py:711-775 | the warning counters grow by the timestamp counts of every frame of the five timed types found. Gaps are counted only over Delay_Req and Delay_Resp frames, and mismatches once per frame of the firing side |
| PtpAnalysis.Run.IntervalOverview | ptp_sim_aut_ver_tool.py:788-893 | for each of the five timed types, per frame: first and last timestamp, the recorded average, and the expectation for the recorded logMP over the frame's span |
| PtpAnalysis.Run.FinalOverview | ptp_sim_aut_ver_tool.py:778-919 | an interval overview for exactly the timed types found, and a total equal to the sum of the seven type counters |
| PtpAnalysis.Run.Overviews | ptp_sim_aut_ver_tool.py:1061-1066 | the warning overview followed by the final overview, with their combined effects |
| PtpAnalysis.Calculate | ptp_sim_aut_ver_tool.py:1002-1059 | after identification, filing and the calculations, each type's counter is the row count of the frames of its code in the input, each type's frame list is those frames with the derived "ts" column for timed types, its recorded logMPs and averages are those of each such frame, the flags are the known codes present, and every warning counter and the Other counter are still 0 |
| PtpAnalysis.Prepare | ptp_sim_aut_ver_tool.py:1002-1016 | after identification and filing, each type's frame list is the input's frames of its code in order, and counters and recorded lists are untouched |
| PtpAnalysis.Analyze | ptp_sim_aut_ver_tool.py:953-1066 | a whole run: the flags are the known codes present; each counter is its type's rows in the input; the frame lists, recorded logMPs and recorded averages are those computed from the input's frames of each code; the total is every row with a recognised code; every warning counter is its sum over the found frames; the Other counter stays 0; the reports are exactly the timed types found |
| PtpAnalysis.SelectPartition | ptp_sim_aut_ver_tool.py:919 | every row with a recognised code is counted under exactly one type, and no other row is counted: the seven type counts add up to the recognised rows |
| PtpAnalysis.TotalOfCounts | ptp_sim_aut_ver_tool.py:919 | when each counter holds its type's filed rows, the total is the number of rows with a recognised code |
| PtpAnalysis.SelectNonEmptyIffFound | ptp_sim_aut_ver_tool.py:444-473 | a type's flag is set exactly when at least one frame is filed under it, so the flags never gate away filed frames |
| PtpAnalysis.SelectAppend | ptp_sim_aut_ver_tool.py:528-615 | filing two runs of groups one after the other equals filing the first and then the second |
| TsharkSetup.BuildInvokeCommand | ptp_sim_aut_ver_tool.py:250-279 | an empty list is an error; otherwise the command is built, and it succeeds exactly when some argument starts with an admitted prefix |
| TsharkSetup.MatchesOnce | ptp_sim_aut_ver_tool.py:262-265 | an argument with an admitted prefix is appended exactly once (no two admitted prefixes overlap); any other argument is dropped |
| TsharkSetup.JoinedEmptyIffNoneAdmitted | ptp_sim_aut_ver_tool.py:262-279 | the assembled argument string is empty exactly when no argument has an admitted prefix |
| TsharkSetup.MessageIdField | ptp_sim_aut_ver_tool.py:309-327 | as written: anything other than three version parts is an error; `ptp.v2.messageid` is chosen exactly when major is in [1, 3], minor in [0, 4] and sub in [0, 13], each part checked on its own; `ptp.v2.messagetype` exactly for 3.6.0 to 3.6.3 |
| TsharkSetup.MessageIdFieldIntended | ptp_sim_aut_ver_tool.py:320-327 | for non-negative parts, the old field is chosen exactly for the versions between 1.0.0 and 3.4.13, and the new field exactly for 3.6.0 to 3.6.3 |
| TsharkSetup.IntendedAcceptsInterval | ptp_sim_aut_ver_tool.py:320-322 | a version between two versions that get the old field gets it too |
| TsharkSetup.VersionCheckGap | ptp_sim_aut_ver_tool.py:320-322 | 1.0.0 and 3.4.13 get the old field, but 2.6.10, between them, is rejected as written and accepted by the intended check |
| TsharkSetup.FindFrom | ptp_sim_aut_ver_tool.py:359-363 | the result is -1 when no occurrence starts at or after i; otherwise it is the first occurrence there |
| TsharkSetup.SourceField | ptp_sim_aut_ver_tool.py:359-366 | ip.src exactly when the EtherType text contains 0800; ipv6.src exactly when it lacks 0800 and contains 86dd; eth.src exactly when it contains 8100 but neither of those; otherwise an error |
| TsharkSetup.SourceFieldVlanExample | ptp_sim_aut_ver_tool.py:359-360 | a VLAN-tagged IPv4 capture ("0x8100,0x0800") is read by IPv4 source address |

## Left out

- The tshark subprocess, the version-file and CSV reading, the output files, argparse and `main` are I/O. Their results are the inputs of the model: the extracted groups, the version parts and the EtherType text.
- Printing is left out, including `print_specific_warning` and every rendered line of both overviews. The final overview is modelled as the per-frame values it prints. One printing quirk is therefore not modelled: the Sync block prints the whole list of averages, and each block labels frames by the source at the frame's index.
- IEEE double rounding of `10 ** (-9)`, `2.0 ** float(...)` and the divisions is left out. All of them are exact real arithmetic.
- The hexadecimal parsing of the codes (`int(..., 16)`) is left out. Codes arrive as integers.
- pandas missing values are not modelled: `first_valid_index` and `last_valid_index` are the first and last rows. An empty timed frame would crash the tool, and such a frame never reaches the calculations here because every extracted group is non-empty.
- `pd.unique` is modelled as the number of distinct sequenceIds, which is the cardinality of the set of ids.
- The flags, frame-number and tlvType columns are carried in the rows, but the model reads none of them: in the tool only the warning printing reads frame numbers and flags, and that printing is left out.
- The "Other" warning counter is kept in the state and never incremented, as in the tool.
- The zero-timestamp suppression flag (`flagSuppressWarningZeroTS`) only affects printing.
- `get_further_information`, `identify_ptp_sources` and `create_ptp_source_data_frames` build tshark command lines and read files. The model starts from their output.
- The argument list of `invoke_tshark` can never have a negative length, so the final `else` raise is unreachable and is not modelled.

## Findings

| source | as written | input that shows it | evidently intended | confidence | as-written member | corrected member |
|---|---|---|---|---|---|---|
| ptp_sim_aut_ver_tool.py:320-322 | the versions for the old field name are checked part by part: major in [1, 3], minor in [0, 4], sub in [0, 13] | tshark 2.6.10 (or 3.0.14) is rejected with "no valid tshark version found" | the comment says "version between 1.0.0 and 3.4.13", a lexicographic interval | not executed | TsharkSetup.MessageIdField, TsharkSetup.VersionCheckGap | TsharkSetup.MessageIdFieldIntended, TsharkSetup.IntendedAcceptsInterval |
