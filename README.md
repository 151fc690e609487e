# Patient-vitals playback server, modelled in Dafny

The server behind the patient monitoring dashboard does two things that have
real logic:

- **Critical bar.** It summarises a patient's recorded series as 24 severity
  scores. Each score covers one window of 60 consecutive rows. A window starts
  at 0.05. Every `critical` row adds 0.1 and every `needs medics` row adds 0.05.
  After each row the value is clamped to 1.0. Windows past the end of the data
  keep 0.05. The daily report is this summary for every loaded patient, in
  loading order.
- **Playback.** It replays the eight loaded patient series under one shared
  counter. Each iteration of a connection's sender loop sends row `n` of every
  series that still has a row `n`, skips the shorter ones, and then advances
  the counter by one. A connection first receives the patient roster, then a
  welcome line, then these snapshots.

The project has three modules:

- `Vitals` (`vitals.dfy`) holds rows, which keep their `state` cell as the
  string written in the file, and how that string is classified. Only the
  exact strings `critical` and `needs medics` are recognised.
- `CriticalBar` (`critical_bar.dfy`) holds the aggregator. Pure functions
  specify it (`Step`, `Accumulate`, `Window`, `ScoreWindow`, `Report`), and the
  two nested loops of the source are methods proved equal to them. Lemmas give
  its bounds, its closed form, window locality and saturation.
- `Playback` (`playback.dfy`) holds the snapshot function, the precise
  selection it makes, and the server's module-level state (loaded series and
  shared counter) as the class `Server`. Loading, one sender iteration, the
  per-connection sender and the daily report are methods on that class.

Scores are exact numbers of units of 0.05: base 1, critical +2,
needs medics +1, ceiling 20. `CriticalBar.UnitsToReal` turns a score back into
its decimal value, and the lemmas state the decimal forms (0.05, 0.15, 1.0,
`min(1.0, 0.05 + 0.1c + 0.05m)`) as well.

Deliberate choices where the code's behaviour may surprise a reader:

- The code compares against `'needs medics'` with a space. A row spelled
  `needs-medics` therefore adds nothing (`CriticalBar.OnlyExactLabelsCount`).
- The code never stops advancing. Once every series is exhausted the counter
  keeps rising and each iteration sends an empty list. The model does not have
  a separate "exhausted" state that stops the cursor.
- A connection receives the roster, the welcome line and the snapshots. No
  daily report, no prediction and no type-tagged envelope are sent, so none is
  modelled.
- The chunk size (60) and the chunk count (24) are fixed constants, not
  parameters.

## Model

| member | source | states |
|---|---|---|
| `Vitals.ParseState` | Python/server.py:64-66 | a state string is `Critical` exactly when it is `"critical"`, `NeedsMedics` exactly when it is `"needs medics"`, and otherwise it is kept unchanged as `Other` |
| `CriticalBar.Step` | Python/server.py:64-71 | from an accumulator within the ceiling, one row adds exactly its increment when the sum stays at or below 1.0, and gives exactly 1.0 when the sum would pass it; it never lowers the accumulator |
| `CriticalBar.ScoreChunk` | Python/server.py:58-71 | the inner loop computes the clamped fold of its window from 0.05 and ends within [0.05, 1.0] |
| `CriticalBar.CalculateCriticalBar` | Python/server.py:51-75 | the nested loops return exactly the 24 window scores, in window order, each within [0.05, 1.0] |
| `CriticalBar.AccumulateClosedForm` | Python/server.py:63-71 | clamping after every row equals clamping the unclamped sum once at the end |
| `CriticalBar.WeightCounts` | Python/server.py:64-67 | the unclamped sum is 2 units per critical row plus 1 unit per needs-medics row |
| `CriticalBar.AccumulateAppend` | Python/server.py:63-71 | visiting two runs of rows in turn is the same as visiting their concatenation |
| `CriticalBar.AccumulateWithinBounds` | Python/server.py:58-71 | starting within the ceiling, the accumulator ends no lower than it started and no higher than 1.0 |
| `CriticalBar.AccumulateMonotone` | Python/server.py:63-71 | within a window the accumulator only increases from row to row |
| `CriticalBar.SaturationIsPermanent` | Python/server.py:69-71 | once a window reaches 1.0, every later row leaves it at 1.0 |
| `CriticalBar.WindowRows` | Python/server.py:60 | window `i` holds exactly the rows `60*i ..` that exist, at most 60 of them, and none when it starts past the end |
| `CriticalBar.ReportShape` | Python/server.py:52-75 | a report has exactly 24 scores, score `i` belongs to window `i`, and each score is within [0.05, 1.0] |
| `CriticalBar.EmptyWindowScoresBase` | Python/server.py:58-60 | a window starting at or past the end of the series scores exactly 0.05, without error |
| `CriticalBar.WindowLocality` | Python/server.py:60 | two series whose windows `i` are equally long and agree row by row give window `i` the same score, whatever their other rows and their lengths |
| `CriticalBar.ScoreClosedForm` | Python/server.py:63-71 | with `c` critical and `m` needs-medics rows, a window's score is `min(20, 1 + 2c + m)` units |
| `CriticalBar.ScoreClosedFormReal` | Python/server.py:58-71 | the same closed form in decimals: `min(1.0, 0.05 + 0.1c + 0.05m)` |
| `CriticalBar.OnlyExactLabelsCount` | Python/server.py:64-67 | a state string moves the score exactly when it is `"critical"` or `"needs medics"`; the spelling `"needs-medics"` adds nothing |
| `CriticalBar.UneventfulWindowScoresBase` | Python/server.py:58-71 | a window with neither critical nor needs-medics rows scores 0.05 |
| `CriticalBar.ManyCriticalRowsSaturate` | Python/server.py:64-71 | ten or more critical rows in a window give exactly 1.0, never more |
| `CriticalBar.OneCriticalRowScore` | Python/server.py:58-71 | a window whose only event is one critical row, at any position, scores 0.15 |
| `Playback.ActiveIndicesExact` | Python/server.py:37-39 | the patients selected at counter `n` are in increasing list order, and a patient is selected exactly when its series has more than `n` rows |
| `Playback.SnapshotSelectsActive` | Python/server.py:36-41 | entry `j` of the snapshot is row `n` of the `j`-th selected patient; nothing else is in it |
| `Playback.SnapshotEmptyIffExhausted` | Python/server.py:36-41 | the snapshot is the empty list exactly when no series has more than `n` rows |
| `Playback.ExhaustionIsPermanent` | Python/server.py:38-39 | once the snapshot is empty, every later counter value also gives an empty snapshot |
| `Playback.SnapshotNoLongerThanRoster` | Python/server.py:36-41 | a snapshot holds at most one row per loaded patient |
| `Playback.CollectRows` | Python/server.py:36-41 | the loop building `new_data` returns exactly the snapshot at counter `n` |
| `Playback.Server.constructor` | Python/server.py:9-10 | the server starts with no loaded series and the counter at 0 |
| `Playback.Server.LoadDataframes` | Python/server.py:20-29 | appends patients 1..8 in id order to the existing list (entry `p` of what it appends is patient `p+1`'s series); at the first missing file it stops, having appended the patients before it, and reports that id |
| `Playback.Server.Tick` | Python/server.py:35-49 | one iteration sends the snapshot at the current counter, then raises the counter by exactly 1 |
| `Playback.Server.SendPatientData` | Python/server.py:32-49 | a connection's sender sends the welcome line, then the snapshots at counters `c, c+1, ...` starting from the counter's value on entry; after `k` iterations the counter has risen by exactly `k` |
| `Playback.Server.HandleConnection` | Python/server.py:83-85 | a connection receives the roster first, then the welcome line, then the snapshots from the current counter on; a late connection does not get earlier rows |
| `Playback.Server.GetDailyReport` | Python/server.py:77-81 | the daily report has one 24-score entry per loaded patient: the critical bar of that patient, in list order |
| `Playback.DailyReportAfterStartup` | Python/server.py:77-81 | after loading all eight files into a fresh server, report entry `p` is the critical bar of patient `p+1` |
| `Playback.ServeFirstConnection` | Python/server.py:87-94 | series are loaded before anything is served: a missing file means nothing is sent, and otherwise the first connection gets the roster, the welcome line and rows 0, 1, 2, ... of patients 1..8 |

## Left out

- Floating point: the source adds Python floats (0.05, 0.1). Those sums are not exact, so the real scores differ from the decimal values stated here in their last bits (0.15000000000000002, 0.9999999999999999). When the exact sum is 1.0, the float sum can land just above it and the clamp then fires, but the score is 1.0 either way. The model uses exact units of 0.05.
- Concurrency: one global counter is shared by all connections, and every connection's loop increments it. With several clients connected, the counter therefore rises once per iteration of each client's loop. The model states one loop's effect and does not model asyncio interleaving.
- Non-termination: `while True` is cut off after a given number of iterations (`ticks`).
- Transport and timing: `websocket.send`, `json.dumps`, `to_json`, `asyncio.sleep(2)` and `serve`. Sending is appending to the transcript, and the pause is not modelled.
- File reading: `pd.read_csv` of the patient files becomes a map from patient id to series. Only a missing file is modelled as a failure (`MissingFile`); other read errors, such as malformed CSV content, are not. Reading the roster file is replaced by a given roster.
- Row contents: the numeric vitals of a row, and the `to_dict` conversion, are an uninterpreted field map. Only `state` is interpreted.
- Status output: the `print` lines of the server.
- Out of scope: the stroke classifier, the vital-sign simulator, the LSTM predictor, the echo server and the dashboard UI. None of them feeds the logic above.
