# CafeAnalytics occupancy engine in Dafny

This project models `CafeAnalyzer` from CafeAnalytics. The analyzer takes, frame by frame,
the people found by an upstream tracker (a tracker id and a foot point each). It turns them
into customer records and table sessions, and at the end it writes a per-customer report.
The model has three parts:

- **Zone lookup** (`Zones.CheckRoi`). The table zones are an ordered list of named polygons,
  in the order of the configuration's JSON object. A point belongs to the first zone whose
  point-in-polygon test is `>= 0`, so a point on an edge counts as inside.
  The polygon test is an exact integer crossing-number test (`Geometry.PolygonTest`).
- **Session state machine** (`Sessions.Step`, `Sessions.Frame` and the class `Analyzer.CafeAnalyzer`).
  Each detection does three things:
  - It registers the customer on first sight, and otherwise refreshes `last_seen`.
  - At a table, it opens a new session when the table differs from the current one.
    When the table is the same, it moves the last session's end forward.
  - Off every table, it forgets the customer's current table.

  The class changes its maps in place. `CafeAnalyzer.Update` is proved equal to the pure
  `Frame` function, and the invariants are proved about `Step` and `Frame`.
- **Report** (`Report.Summarize`, `CafeAnalyzer.GenerateReport`, `TimeFormat`).
  - Sessions shorter than 3 seconds are dropped. The rest are summed per table.
  - The total appearance time is last sighting minus first sighting.
  - The status is "Still inside" when the last sighting is within 2 seconds of the video's end.
  - The table statistics grow by each customer's usage.
  - Times are printed as `HH:MM:SS` or as `<m>m <s>s`.

Time is counted in integer ticks (frame indices). The video's frame rate `fps` turns the
3-second and 2-second thresholds into `3 * fps` and `2 * fps` ticks. `Report.CountsInSeconds`
and `Report.StatusInSeconds` prove that the tick comparisons agree with the source's
comparisons in seconds.

Python's truth test `if current_table:` is modelled as written (the helper `Sessions.Seated`, whose
effect `Sessions.StepOpensSession` and `Sessions.StepLeavesTable` state). A zone
named with the empty string therefore counts as "no table".

The analyzer has no identity reconciliation, no memory of recently lost tracks and no
patience counter. Every tracker id is its own customer, and an id missing from a frame is
left exactly as it was. The minimum session length is 3.0 seconds (src/analyzer.py:13).

## Model

| member | source | states |
|---|---|---|
| Geometry.PointAboveOutside | src/analyzer.py:48-53 | A point beyond every vertex of a zone in y fails the `>= 0` test, so it is outside that zone. |
| Geometry.PolygonTest | src/analyzer.py:48-53 | The test is 0, 1 or -1; every corner of a zone is on its boundary (0, so `Contains`, the `>= 0` rule of line 52, accepts it); a zone of at most two corners has no inside (never 1). RectangleContains ties `Contains` to the closed box. |
| Geometry.DegenerateNoInside | src/analyzer.py:52 | A zone of one or two corners is crossed an even number of times by any ray. |
| Geometry.NoCrossingsAbove | src/analyzer.py:52 | Helper for `PointAboveOutside`: the ray from a point above every vertex crosses no edge. |
| Geometry.RectangleBoundary | src/analyzer.py:52 | For a proper rectangle, a point is on an edge exactly when it lies on a side of the box. |
| Geometry.RectangleCrossings | src/analyzer.py:52 | For a proper rectangle, the ray crosses exactly the vertical sides level with the point and to its right. |
| Geometry.RectangleContains | src/analyzer.py:48-53 | For an axis-aligned rectangle, the containment test holds exactly when the point is in the closed box. |
| Zones.CheckRoi | src/analyzer.py:42-54 | Returns None exactly when no zone contains the point. Otherwise returns the name of the first zone, in configuration order, that contains it, and no earlier zone contains it. |
| Zones.CheckRoiNamesTable | src/analyzer.py:46-53 | A found table is always one of the configured table names. |
| Zones.CornerOfFirstZone | src/analyzer.py:46-53 | A corner of the first zone is always reported as the first zone. |
| Sessions.Register | src/analyzer.py:67-74 | After registration the id has a customer record. |
| Sessions.Locate | src/analyzer.py:79-105 | Keeps the set of customers and the customer order. At a table the id's current table becomes that table; off-table the id has none. first_seen and last_seen are untouched. Session details: see StepOpensSession, StepExtendsSession, StepLeavesTable. |
| Sessions.Step | src/analyzer.py:60-105 | One detection: the customers become the old ones plus the id, whose last_seen is the frame time and whose first_seen is kept. The id's current table is the truth-tested lookup result, or none. Session details: see StepRegisters, StepOpensSession, StepExtendsSession, StepLeavesTable. |
| Sessions.Frame | src/analyzer.py:56-105 | A frame's detections in order: the customers become the old ones plus every detected id, every detected id has last_seen equal to the frame time, and no first_seen changes. |
| Sessions.StepRegisters | src/analyzer.py:67-74 | A new id gets first_seen = last_seen = frame time and is appended to the customer order. A known id keeps first_seen, and only its last_seen becomes the frame time. |
| Sessions.StepOpensSession | src/analyzer.py:82-92 | At a zone with a non-empty name other than the current table (or with no current table), the current table becomes that table and exactly one session (table, t, t) is appended after the unchanged earlier sessions. |
| Sessions.StepExtendsSession | src/analyzer.py:93-98 | For a customer with at least one session, at the current table the session count is unchanged, every session but the last is unchanged, and only the last session's end becomes t. |
| Sessions.StepLeavesTable | src/analyzer.py:100-105 | Off every table (or at a zone with an empty name), the id is removed from the current tables and its sessions are untouched. |
| Sessions.StepFramesOthers | src/analyzer.py:60-105 | For every other id, a detection changes neither its presence, its record, nor its current table. |
| Sessions.ReturnOpensNewSession | src/analyzer.py:82-105 | Leaving the table and then coming back opens a fresh session instead of extending the old one. |
| Sessions.RegisterPreservesConsistent | src/analyzer.py:67-74 | Registration keeps the structural invariant. |
| Sessions.LocatePreservesConsistent | src/analyzer.py:77-105 | Opening, extending or leaving a session keeps the structural invariant, provided the table is a configured, non-empty name. |
| Sessions.StepPreservesConsistent | src/analyzer.py:60-105 | One detection keeps the structural invariant. Every current table equals the table of that id's last session. Every session's table is a configured table. The customer order lists each customer exactly once. |
| Sessions.StepPreservesChronological | src/analyzer.py:65-98 | For any state, with a frame time no earlier than any recorded time, each session keeps start <= end, sessions lie within [first_seen, last_seen], and each session ends before the next one starts. |
| Sessions.StepSessionsGrow | src/analyzer.py:82-98 | One detection only appends sessions or moves the last session's end; first_seen is unchanged. |
| Sessions.SessionsGrowTransitive | src/analyzer.py:82-98 | Append-only growth composes over successive updates. |
| Sessions.FramePreservesConsistent | src/analyzer.py:56-105 | A whole frame keeps the structural invariant. |
| Sessions.FramePreservesChronological | src/analyzer.py:56-105 | A whole frame at non-decreasing time keeps the time invariant. |
| Sessions.FrameSessionsGrow | src/analyzer.py:56-105 | Across a frame, session lists are append-only (earlier sessions unchanged, the last keeps its table and start), and first_seen never changes. |
| Sessions.FrameLeavesAbsentIds | src/analyzer.py:56-105 | An id with no detection in the frame keeps its record and its current table exactly. |
| Sessions.SessionsOrdered | src/analyzer.py:82-98 | Under the time invariant, any earlier session ends no later than any later one starts, so session starts are non-decreasing. |
| Report.UsageSummary | src/analyzer.py:136-142 | Every key of the usage dictionary is a table with a session of at least the minimum length; UsageSummaryMeaning gives the converse and the values. |
| Report.UsageSummaryMeaning | src/analyzer.py:136-142 | The usage dictionary has a key exactly for the tables with a session of at least the minimum length. Its value (0 when absent) is the sum of those sessions' durations. |
| Report.ShortSessionsNoUsage | src/analyzer.py:138-142 | A customer with no session of at least the minimum length has an empty usage dictionary. |
| Report.SummarizeUsage | src/analyzer.py:136-142 | The usage loop computes the usage dictionary: keys are the tables used long enough, and values are the per-table sums of the kept sessions. |
| Report.CountsInSeconds | src/analyzer.py:139-140 | With fps ticks per second, a session is kept exactly when it lasts at least 3.0 seconds. |
| Report.CustomerStatus | src/analyzer.py:157 | "Still inside" exactly when the last sighting lies strictly within 2 * fps ticks either side of the video's end; StatusInSeconds gives the same in seconds. |
| Report.StatusInSeconds | src/analyzer.py:157 | The status is "Still inside" exactly when the last sighting is less than 2.0 seconds from the video's end. |
| Report.UsageWithinAppearance | src/analyzer.py:126-142 | Under the time invariant, every reported table usage is between 0 and the customer's total appearance time (last_seen - first_seen). |
| Report.UsageWithinSpan | src/analyzer.py:138-142 | A table's usage over the first k sessions is at most the span from the first start to the k-th end. |
| Report.Summarize | src/analyzer.py:120-157 | One customer's entry: its id, first and last sighting, appearance time last_seen - first_seen, usage keys only at tables used long enough, and the status of line 157. |
| Report.Reports | src/analyzer.py:120-126 | One entry per customer, in customer order, each with that customer's id and sightings. |
| Report.TotalTableUsageAppend | src/analyzer.py:120-150 | Helper for `GenerateReport`'s loop: one more customer adds that customer's usage of the table to the total. |
| Report.AddUsage | src/analyzer.py:147-150 | Adding a usage dictionary keeps the set of tables with a statistic. |
| Report.AddSessions | src/analyzer.py:167-180 | Adding sessions one by one keeps the set of tables with a statistic. |
| Report.AddSessionsAdds | src/analyzer.py:167-180 | Adding sessions one by one grows each table's statistic by that table's usage. |
| Report.StatsAfterCustomers | src/analyzer.py:120-150 | The statistics after the customer loop have the same tables as before. |
| Report.StatsAsWritten | src/analyzer.py:161-180 | The statistics section as written: it fails for a run with no customers, and otherwise keeps the set of tables with a statistic. |
| Report.StatsAsWrittenDoubleCounts | src/analyzer.py:161-180 | As written, the statistics section fails when there are no customers. Otherwise it leaves every table's statistic higher than the intended total by exactly the last customer's usage of that table. |
| Report.StatsAsWrittenExample | src/analyzer.py:161-180 | One customer with one 30-tick visit: the intended statistic is 30, but the source leaves 60. |
| TimeFormat.DecimalRoundTrip | src/analyzer.py:190 | Printing a non-negative integer gives only digits, which read back to the same number. The text is one digit exactly below 10 and at most two digits below 100. |
| TimeFormat.Pad2RoundTrip | src/analyzer.py:191 | Zero-padded printing gives at least two digits (exactly two below 100), which read back to the number. |
| TimeFormat.ClockPartsExact | src/analyzer.py:187-188 | The two divmod steps give h, m, s with h*3600 + m*60 + s = seconds and m, s < 60. |
| TimeFormat.WholeSecondsFloor | src/analyzer.py:190-191 | The whole seconds shown for a tick count are the integer part of the time in seconds. |
| TimeFormat.Clock | src/analyzer.py:191 | The clock text is at least 8 characters, with colons at the sixth and third places from the end and digits between; exactly 8 below 100 hours. |
| TimeFormat.DurationText | src/analyzer.py:189-190 | The duration text is the minutes within the hour, "m ", the seconds within the minute, then "s". |
| TimeFormat.FormatTime | src/analyzer.py:185-191 | In the clock form the text reads back to the whole seconds of the tick count; in the duration form it is the duration text of those seconds modulo one hour. |
| TimeFormat.ClockRoundTrip | src/analyzer.py:185-191 | The `HH:MM:SS` form reads back to exactly the same number of seconds. |
| TimeFormat.ClockInjective | src/analyzer.py:191 | Different times give different clock texts. |
| TimeFormat.MinutesWithinHour | src/analyzer.py:187-190 | The minutes shown are those of the time modulo one hour. |
| TimeFormat.DurationDropsHours | src/analyzer.py:189-190 | The duration form shows only the time modulo one hour, so a time and the same time plus one hour print the same. |
| Analyzer.CafeAnalyzer.constructor | src/analyzer.py:10-40 | Starts with no customers and no current tables. Every configured table has a statistic of 0. |
| Analyzer.CafeAnalyzer.Update | src/analyzer.py:56-105 | Processes a frame's detections in order. The new state is `Frame` of the old state, the statistics are untouched, the invariant is kept, and the time invariant is kept at non-decreasing time. |
| Analyzer.CafeAnalyzer.Track | src/analyzer.py:60-105 | The loop body for one detection: the new state is `Step` of the old state. |
| Analyzer.CafeAnalyzer.RegisterCustomer | src/analyzer.py:67-74 | In-place registration, equal to `Register`. |
| Analyzer.CafeAnalyzer.LocateCustomer | src/analyzer.py:77-105 | In-place session opening, extension or table leaving, equal to `Locate` on the truth-tested lookup result. |
| Analyzer.CafeAnalyzer.AccumulateStats | src/analyzer.py:147-150 | Each table in the usage dictionary has its statistic grown by its usage; the other statistics are unchanged. |
| Analyzer.CafeAnalyzer.ReportCustomer | src/analyzer.py:120-157 | One customer's report entry is `Summarize` of its record, and every table's statistic grows by that customer's usage of the table. |
| Analyzer.CafeAnalyzer.GenerateReport | src/analyzer.py:116-157 | One entry per customer, in registration order. Every table's statistic grows by that table's usage summed over all customers, and customer state is unchanged. |
| Scenarios.FloorLookup | src/analyzer.py:46-54 | On a two-table floor plan, points in each square map to that table and points in the aisle to no table. |
| Scenarios.StayAtOneTable | src/analyzer.py:56-98 | On any floor plan where both points look up to Table-1, a customer seen at t = 10 and t = 40 has one session (Table-1, 10, 40), reported as 30 ticks of use. |
| Scenarios.AtFirstTableState | src/analyzer.py:67-92 | A first sighting at Table-1 at t = 90 opens the session (Table-1, 90, 90) and makes Table-1 the only current table. |
| Scenarios.MoveToSecondTable | src/analyzer.py:82-92 | From that state, a sighting at Table-2 keeps (Table-1, 90, 90), appends (Table-2, 100, 100), and makes Table-2 the current table. |
| Scenarios.CrossToAnotherTable | src/analyzer.py:82-92 | Moving from Table-1 to Table-2 leaves the first session as it was and opens a second session at the crossing time. |
| Scenarios.SeatedTwiceState | src/analyzer.py:67-98 | Sightings at Table-1 at t = 0 and t = 2 give one session (Table-1, 0, 2) with Table-1 current. |
| Scenarios.AfterAisleState | src/analyzer.py:67-105 | After two frames at Table-1 and one in the aisle (a point in no zone), the customer has one session and no current table. |
| Scenarios.ShortVisitsNotReported | src/analyzer.py:120-142 | The record `BackAtTableState` derives (two 2-second visits separated by a walk) gets no reported usage, though the customer was present for 7 seconds. |
| Scenarios.BackAtTableState | src/analyzer.py:67-105 | Returning to Table-1 after the aisle opens a second session (Table-1, 5, 7) behind the closed first one (Table-1, 0, 2). |
| Scenarios.ReturnToTable | src/analyzer.py:82-92 | For a customer who left Table-1, a new sighting there at t = 5 appends (Table-1, 5, 5) behind the closed session and makes Table-1 current again. |
| Scenarios.StayAtReturnedTable | src/analyzer.py:93-98 | A further sighting at the same table at t = 7 moves only the second session's end, to 7, and last_seen to 7. |

## Findings

| source | as written | input that shows it | evidently intended | confidence | as-written member | corrected member |
|---|---|---|---|---|---|---|
| src/analyzer.py:161-180 | After the customer loop, the "TABLE USAGE STATISTICS" loop walks `data`, the loop variable left bound to the last customer. It adds that customer's long-enough sessions to `table_stats` a second time. With no customers, `data` is unbound and the report fails. | One customer with one session (Table-1, 10, 40) at 1 tick per second: `table_stats["Table-1"]` ends at 60, not 30. With no customers, the name `data` is not defined. | Each table's statistic grows once, by that table's usage summed over all customers. | not executed | Report.StatsAsWritten, Report.StatsAsWrittenDoubleCounts | Analyzer.CafeAnalyzer.GenerateReport |

## Left out

- Loading the zones from the JSON file and writing the log file. The constructor takes the zones as an ordered list. The report returns the entries and updates the statistics instead of writing text.
- The statistics section's second loop (src/analyzer.py:161-180) is modelled only as the finding above. `GenerateReport` performs the customer loop alone.
- OpenCV's point-polygon test is replaced by an exact integer crossing-number test. It follows the same sign convention but does not reproduce OpenCV's internal arithmetic. The truncation of float zone coordinates to 32-bit integers is not modelled: coordinates are unbounded integers.
- Float seconds: time is integer ticks with an integer `fps`. A non-integer frame rate, as a video can report, is not modelled. The statistics are integers rather than floats.
- Report.Summarize: the usage dictionary is a `map`, so the order in which the report prints its tables (first-use order) is not modelled.
- TimeFormat.FormatTime: defined on non-negative tick counts only. Negative times arise only when frames arrive out of time order.
- Report entries hold numbers and a status value, not the formatted log lines.
- The tracker and detector (the foot point is an input of each detection), the video loop, the visualizer and the zone-drawing tool.
- The `active_ids` list built by `update` and never read, and the unused `fps` field of the source; the model uses `fps` only to convert the thresholds.
- Identity reconciliation, ghost memory and patience counters are not modelled, because the analyzer has none of them.
