/** The playback side of the monitoring server: every loaded patient series
    is replayed row by row under one shared cursor, and every connection
    receives the roster, a welcome line and then one snapshot per tick.

    Reading the data files, the JSON encoding, the socket and the two-second
    pause are outside the model: the files are given as a map from patient id
    to series, the roster as a sequence of rows, and sending a message is
    appending it to the connection's transcript.
 */
module Playback {
  import opened Vitals
  import CriticalBar

  /** Number of patient data files loaded at startup. */
  const PatientNumber: nat := 8

  const Welcome: string := "Welcome to the Patient Data WebSocket server!"

  /** The messages a connection receives, in the order they are sent. */
  datatype Message =
    | Roster(patients: seq<PatientInfo>)
    | Text(line: string)
    | Records(rows: seq<VitalRecord>)

  /** How loading the patient files ended. A missing file makes the loader
      raise; `MissingFile` names the first id whose file was absent. */
  datatype LoadOutcome = AllLoaded | MissingFile(patientId: nat)

  /** The snapshot at cursor `n`: row `n` of every series longer than `n`,
      in series order; shorter series are skipped. */
  function Snapshot(series: seq<PatientSeries>, n: nat): seq<VitalRecord>
    decreases |series|
  {
    if series == [] then []
    else Snapshot(series[..|series| - 1], n)
         + (if n < |series[|series| - 1]| then [series[|series| - 1][n]] else [])
  }

  /** The positions of the series that still have a row at cursor `n`. */
  function ActiveIndices(series: seq<PatientSeries>, n: nat): seq<nat>
    decreases |series|
  {
    if series == [] then []
    else ActiveIndices(series[..|series| - 1], n)
         + (if n < |series[|series| - 1]| then [|series| - 1] else [])
  }

  /** The series of patients 1..n, in id order. */
  function Loaded(files: map<nat, PatientSeries>, n: nat): seq<PatientSeries>
    requires forall id :: 1 <= id <= n ==> id in files
  {
    seq(n, p requires 0 <= p < n => files[p + 1])
  }

  // ---------------------------------------------------------------------
  // Properties of the snapshot.

  /** `ActiveIndices` lists, in increasing order, exactly the series that
      are longer than `n`. */
  lemma {:induction false} ActiveIndicesExact(series: seq<PatientSeries>, n: nat)
    ensures forall j :: 0 <= j < |ActiveIndices(series, n)| ==>
              ActiveIndices(series, n)[j] < |series|
              && n < |series[ActiveIndices(series, n)[j]]|
    ensures forall j1, j2 :: 0 <= j1 < j2 < |ActiveIndices(series, n)| ==>
              ActiveIndices(series, n)[j1] < ActiveIndices(series, n)[j2]
    ensures forall p :: 0 <= p < |series| ==> (n < |series[p]| <==> p in ActiveIndices(series, n))
    decreases |series|
  {
    if series != [] {
      var init := series[..|series| - 1];
      ActiveIndicesExact(init, n);
      assert forall p :: 0 <= p < |init| ==> init[p] == series[p];
    }
  }

  /** Entry `j` of the snapshot is row `n` of the `j`-th series that
      still has data: nothing else is in it, and the order is series order. */
  lemma {:induction false} SnapshotSelectsActive(series: seq<PatientSeries>, n: nat)
    ensures |Snapshot(series, n)| == |ActiveIndices(series, n)|
    ensures forall j :: 0 <= j < |Snapshot(series, n)| ==>
              ActiveIndices(series, n)[j] < |series|
              && n < |series[ActiveIndices(series, n)[j]]|
              && Snapshot(series, n)[j] == series[ActiveIndices(series, n)[j]][n]
    decreases |series|
  {
    ActiveIndicesExact(series, n);
    if series != [] {
      var init := series[..|series| - 1];
      SnapshotSelectsActive(init, n);
      assert forall p :: 0 <= p < |init| ==> init[p] == series[p];
    }
  }

  /** The snapshot is empty exactly when every series is exhausted. */
  lemma {:induction false} SnapshotEmptyIffExhausted(series: seq<PatientSeries>, n: nat)
    ensures Snapshot(series, n) == [] <==> forall p :: 0 <= p < |series| ==> |series[p]| <= n
  {
    ActiveIndicesExact(series, n);
    SnapshotSelectsActive(series, n);
    if Snapshot(series, n) != [] {
      assert n < |series[ActiveIndices(series, n)[0]]|;
    }
  }

  /** Once playback has run past every series it stays empty. */
  lemma {:induction false} ExhaustionIsPermanent(series: seq<PatientSeries>, n: nat, m: nat)
    requires n <= m
    requires Snapshot(series, n) == []
    ensures Snapshot(series, m) == []
  {
    SnapshotEmptyIffExhausted(series, n);
    SnapshotEmptyIffExhausted(series, m);
  }

  /** A snapshot never holds more records than there are patients. */
  lemma {:induction false} SnapshotNoLongerThanRoster(series: seq<PatientSeries>, n: nat)
    ensures |Snapshot(series, n)| <= |series|
  {
    SnapshotSelectsActive(series, n);
    ActiveIndicesBounded(series, n);
  }

  lemma {:induction false} ActiveIndicesBounded(series: seq<PatientSeries>, n: nat)
    ensures |ActiveIndices(series, n)| <= |series|
    decreases |series|
  {
    if series != [] {
      ActiveIndicesBounded(series[..|series| - 1], n);
    }
  }

  // ---------------------------------------------------------------------
  // The loop body of the sender, as a method on a given list of series.

  /** Collects row `n` of every series that is longer than `n`. */
  method CollectRows(series: seq<PatientSeries>, n: nat) returns (newData: seq<VitalRecord>)
    ensures newData == Snapshot(series, n)
    ensures |newData| <= |series|
  {
    newData := [];
    var p := 0;
    while p < |series|
      invariant 0 <= p <= |series|
      invariant newData == Snapshot(series[..p], n)
    {
      assert series[..p + 1][..p] == series[..p];
      var df := series[p];
      if n >= |df| {
        p := p + 1;
        continue;
      }
      newData := newData + [df[n]];
      p := p + 1;
    }
    assert series[..p] == series;
    SnapshotNoLongerThanRoster(series, n);
  }

  /** The server's module-level state: the loaded series and the shared
      playback counter. */
  class Server {
    var patientDataframes: seq<PatientSeries>
    var sentDataCounter: nat

    constructor ()
      ensures patientDataframes == [] && sentDataCounter == 0
    {
      patientDataframes := [];
      sentDataCounter := 0;
    }

    /** Appends the series of patients 1..8, in id order. The list is not
        cleared first. If a file is missing the loader stops with the
        series before it already appended. */
    method LoadDataframes(files: map<nat, PatientSeries>) returns (outcome: LoadOutcome)
      modifies this`patientDataframes
      ensures outcome == AllLoaded <==> forall id :: 1 <= id <= PatientNumber ==> id in files
      ensures outcome == AllLoaded ==>
                patientDataframes == old(patientDataframes) + Loaded(files, PatientNumber)
      ensures outcome.MissingFile? ==>
                && 1 <= outcome.patientId <= PatientNumber
                && outcome.patientId !in files
                && (forall id :: 1 <= id < outcome.patientId ==> id in files)
                && patientDataframes == old(patientDataframes) + Loaded(files, outcome.patientId - 1)
    {
      var i := 0;
      while i < PatientNumber
        invariant 0 <= i <= PatientNumber
        invariant forall id :: 1 <= id <= i ==> id in files
        invariant patientDataframes == old(patientDataframes) + Loaded(files, i)
      {
        var patientId := i + 1;
        if patientId !in files {
          return MissingFile(patientId);
        }
        assert Loaded(files, i + 1) == Loaded(files, i) + [files[patientId]];
        patientDataframes := patientDataframes + [files[patientId]];
        i := i + 1;
      }
      outcome := AllLoaded;
    }

    /** One iteration of the sender loop: the snapshot at the current
        counter is produced (and sent) before the counter advances by one. */
    method Tick() returns (newData: seq<VitalRecord>)
      modifies this`sentDataCounter
      ensures newData == Snapshot(patientDataframes, old(sentDataCounter))
      ensures sentDataCounter == old(sentDataCounter) + 1
    {
      newData := CollectRows(patientDataframes, sentDataCounter);
      sentDataCounter := sentDataCounter + 1;
    }

    /** The sender for one connection, cut off after `ticks` iterations:
        the welcome line, then one snapshot per iteration, starting at the
        counter's value when the sender started. */
    method SendPatientData(ticks: nat) returns (sent: seq<Message>)
      modifies this`sentDataCounter
      ensures |sent| == ticks + 1
      ensures sent[0] == Text(Welcome)
      ensures forall k :: 1 <= k <= ticks ==>
                sent[k] == Records(Snapshot(patientDataframes, old(sentDataCounter) + k - 1))
      ensures sentDataCounter == old(sentDataCounter) + ticks
    {
      sent := [Text(Welcome)];
      var k := 0;
      while k < ticks
        invariant 0 <= k <= ticks
        invariant |sent| == k + 1
        invariant sent[0] == Text(Welcome)
        invariant forall j :: 1 <= j <= k ==>
                    sent[j] == Records(Snapshot(patientDataframes, old(sentDataCounter) + j - 1))
        invariant sentDataCounter == old(sentDataCounter) + k
      {
        var newData := Tick();
        sent := sent + [Records(newData)];
        k := k + 1;
      }
    }

    /** Everything one connection receives during its first `ticks` sender
        iterations: the roster, the welcome line, then the snapshots. A
        connection that arrives late starts at the current counter. */
    method HandleConnection(roster: seq<PatientInfo>, ticks: nat) returns (sent: seq<Message>)
      modifies this`sentDataCounter
      ensures |sent| == ticks + 2
      ensures sent[0] == Roster(roster)
      ensures sent[1] == Text(Welcome)
      ensures forall k :: 2 <= k < ticks + 2 ==>
                sent[k] == Records(Snapshot(patientDataframes, old(sentDataCounter) + k - 2))
      ensures sentDataCounter == old(sentDataCounter) + ticks
    {
      var rest := SendPatientData(ticks);
      sent := [Roster(roster)] + rest;
      assert forall k :: 1 <= k < |sent| ==> sent[k] == rest[k - 1];
    }

    /** The critical bar of every loaded patient, in list order. */
    method GetDailyReport() returns (report: seq<seq<nat>>)
      ensures |report| == |patientDataframes|
      ensures forall p :: 0 <= p < |report| ==>
                report[p] == CriticalBar.Report(patientDataframes[p])
                && |report[p]| == CriticalBar.TotalChunks
    {
      report := [];
      var p := 0;
      while p < |patientDataframes|
        invariant 0 <= p <= |patientDataframes|
        invariant |report| == p
        invariant forall q :: 0 <= q < p ==>
                    report[q] == CriticalBar.Report(patientDataframes[q])
                    && |report[q]| == CriticalBar.TotalChunks
      {
        var bars := CriticalBar.CalculateCriticalBar(patientDataframes[p]);
        report := report + [bars];
        p := p + 1;
      }
    }
  }

  /** Startup followed by the daily report: after loading all eight files
      into a fresh server, report entry `p` is the critical bar of patient
      `p + 1`. */
  method DailyReportAfterStartup(files: map<nat, PatientSeries>) returns (report: seq<seq<nat>>)
    requires forall id :: 1 <= id <= PatientNumber ==> id in files
    ensures |report| == PatientNumber
    ensures forall p :: 0 <= p < PatientNumber ==> report[p] == CriticalBar.Report(files[p + 1])
  {
    var server := new Server();
    var outcome := server.LoadDataframes(files);
    report := server.GetDailyReport();
  }

  /** Startup followed by the first connection: the series are loaded
      before anything is served, so a missing file means nothing is sent;
      otherwise the first client gets the roster, the welcome line and the
      snapshots at rows 0, 1, 2, ... of patients 1..8. */
  method ServeFirstConnection(files: map<nat, PatientSeries>, roster: seq<PatientInfo>, ticks: nat)
    returns (outcome: LoadOutcome, sent: seq<Message>)
    ensures outcome == AllLoaded <==> forall id :: 1 <= id <= PatientNumber ==> id in files
    ensures outcome.MissingFile? ==> sent == []
    ensures outcome == AllLoaded ==>
              && |sent| == ticks + 2
              && sent[0] == Roster(roster)
              && sent[1] == Text(Welcome)
              && forall k :: 2 <= k < ticks + 2 ==>
                   sent[k] == Records(Snapshot(Loaded(files, PatientNumber), k - 2))
  {
    var server := new Server();
    outcome := server.LoadDataframes(files);
    if outcome.MissingFile? {
      return outcome, [];
    }
    assert [] + Loaded(files, PatientNumber) == Loaded(files, PatientNumber);
    sent := server.HandleConnection(roster, ticks);
  }
}
