/** The critical-bar aggregator: one patient's series is cut into 24
    consecutive windows of 60 rows, and each window gets a severity score
    that starts at 0.05, grows by 0.1 per `critical` row and by 0.05 per
    `needs medics` row, and is clamped to 1.0 after every row.

    Scores are kept in exact units of 0.05: the base score is 1 unit, a
    critical row adds 2, a needs-medics row adds 1, and the ceiling is 20.
    `UnitsToReal` gives the decimal value of a score.
 */
module CriticalBar {
  import opened Vitals

  const ChunkSize: nat := 60
  const TotalChunks: nat := 24

  /** 0.05, 0.1 and 0.05 in units of 0.05. */
  const Base: nat := 1
  const CriticalIncrement: nat := 2
  const NeedsMedicsIncrement: nat := 1
  /** 1.0 in units of 0.05. */
  const Cap: nat := 20

  function Min(a: int, b: int): int {
    if a <= b then a else b
  }

  function RealMin(a: real, b: real): real {
    if a <= b then a else b
  }

  /** The decimal value of a score given in units of 0.05. */
  function UnitsToReal(u: nat): real {
    u as real / 20.0
  }

  /** What one row adds to its window's accumulator. */
  function Increment(st: State): nat {
    match st
    case Critical => CriticalIncrement
    case NeedsMedics => NeedsMedicsIncrement
    case Other(_) => 0
  }

  /** One row of the inner loop: add the row's increment, then clamp. */
  function Step(acc: nat, st: State): (r: nat)
    ensures acc <= Cap ==> acc <= r <= Cap
    ensures acc + Increment(st) <= Cap ==> r == acc + Increment(st)
    ensures acc + Increment(st) > Cap ==> r == Cap
  {
    var a := acc + Increment(st);
    if a > Cap then Cap else a
  }

  /** The accumulator after visiting `rows` in order, starting from `acc`. */
  function Accumulate(acc: nat, rows: seq<VitalRecord>): nat
    decreases |rows|
  {
    if rows == [] then acc
    else Step(Accumulate(acc, rows[..|rows| - 1]), RowState(rows[|rows| - 1]))
  }

  /** The sum of the increments of `rows`, with no clamping. */
  function Weight(rows: seq<VitalRecord>): nat
    decreases |rows|
  {
    if rows == [] then 0
    else Weight(rows[..|rows| - 1]) + Increment(RowState(rows[|rows| - 1]))
  }

  /** The number of rows of `rows` whose state classifies as `st`. */
  function CountState(rows: seq<VitalRecord>, st: State): nat
    decreases |rows|
  {
    if rows == [] then 0
    else CountState(rows[..|rows| - 1], st) + (if RowState(rows[|rows| - 1]) == st then 1 else 0)
  }

  /** Window `i`: rows `[60*i, 60*(i+1))`, cut short by the end of the
      series the way slicing a table is (a window past the end is empty). */
  function Window(rows: seq<VitalRecord>, i: nat): seq<VitalRecord> {
    rows[Min(i * ChunkSize, |rows|)..Min((i + 1) * ChunkSize, |rows|)]
  }

  /** The score of window `i`. */
  function ScoreWindow(rows: seq<VitalRecord>, i: nat): nat {
    Accumulate(Base, Window(rows, i))
  }

  /** The critical bar of a series: the 24 window scores in window order. */
  function Report(rows: seq<VitalRecord>): seq<nat> {
    seq(TotalChunks, i requires 0 <= i => ScoreWindow(rows, i))
  }

  // ---------------------------------------------------------------------
  // The aggregator as the source runs it: two nested loops.

  /** Scores one window by visiting its rows in order. */
  method ScoreChunk(chunk: seq<VitalRecord>) returns (criticalBar: nat)
    ensures criticalBar == Accumulate(Base, chunk)
    ensures Base <= criticalBar <= Cap
  {
    criticalBar := Base;
    var j := 0;
    while j < |chunk|
      invariant 0 <= j <= |chunk|
      invariant criticalBar == Accumulate(Base, chunk[..j])
      invariant Base <= criticalBar <= Cap
    {
      assert chunk[..j + 1][..j] == chunk[..j];
      var st := chunk[j].state;
      if st == CriticalLabel {
        criticalBar := criticalBar + CriticalIncrement;
      } else if st == NeedsMedicsLabel {
        criticalBar := criticalBar + NeedsMedicsIncrement;
      }
      if criticalBar > Cap {
        criticalBar := Cap;
      }
      j := j + 1;
    }
    assert chunk[..j] == chunk;
  }

  /** Computes the 24 window scores of one patient's series. */
  method CalculateCriticalBar(rows: seq<VitalRecord>) returns (values: seq<nat>)
    ensures values == Report(rows)
    ensures |values| == TotalChunks
    ensures forall i :: 0 <= i < |values| ==> Base <= values[i] <= Cap
  {
    values := [];
    var i := 0;
    while i < TotalChunks
      invariant 0 <= i <= TotalChunks
      invariant |values| == i
      invariant forall k :: 0 <= k < i ==> values[k] == ScoreWindow(rows, k)
      invariant forall k :: 0 <= k < i ==> Base <= values[k] <= Cap
    {
      var chunk := rows[Min(i * ChunkSize, |rows|)..Min((i + 1) * ChunkSize, |rows|)];
      var criticalBar := ScoreChunk(chunk);
      values := values + [criticalBar];
      i := i + 1;
    }
  }

  // ---------------------------------------------------------------------
  // Properties of the specification.

  /** Clamping after every row is the same as clamping once at the end,
      because no increment is negative. */
  lemma {:induction false} AccumulateClosedForm(acc: nat, rows: seq<VitalRecord>)
    requires acc <= Cap
    ensures Accumulate(acc, rows) == Min(Cap, acc + Weight(rows))
    decreases |rows|
  {
    if rows != [] {
      AccumulateClosedForm(acc, rows[..|rows| - 1]);
    }
  }

  /** The unclamped sum counts critical rows twice and needs-medics rows once. */
  lemma {:induction false} WeightCounts(rows: seq<VitalRecord>)
    ensures Weight(rows) == CriticalIncrement * CountState(rows, Critical)
                            + NeedsMedicsIncrement * CountState(rows, NeedsMedics)
    decreases |rows|
  {
    if rows != [] {
      WeightCounts(rows[..|rows| - 1]);
    }
  }

  /** Folding over a concatenation is folding over each part in turn. */
  lemma {:induction false} AccumulateAppend(acc: nat, a: seq<VitalRecord>, b: seq<VitalRecord>)
    ensures Accumulate(acc, a + b) == Accumulate(Accumulate(acc, a), b)
    decreases |b|
  {
    if b == [] {
      assert a + b == a;
    } else {
      assert (a + b)[..|a + b| - 1] == a + b[..|b| - 1];
      AccumulateAppend(acc, a, b[..|b| - 1]);
    }
  }

  /** A window's accumulator never drops and never leaves [base, cap]. */
  lemma {:induction false} AccumulateWithinBounds(acc: nat, rows: seq<VitalRecord>)
    requires acc <= Cap
    ensures acc <= Accumulate(acc, rows) <= Cap
    decreases |rows|
  {
    if rows != [] {
      AccumulateWithinBounds(acc, rows[..|rows| - 1]);
    }
  }

  /** The accumulator only increases while a window is being visited. */
  lemma AccumulateMonotone(rows: seq<VitalRecord>, j: nat, k: nat)
    requires j <= k <= |rows|
    ensures Accumulate(Base, rows[..j]) <= Accumulate(Base, rows[..k])
  {
    assert rows[..k] == rows[..j] + rows[j..k];
    AccumulateAppend(Base, rows[..j], rows[j..k]);
    AccumulateWithinBounds(Base, rows[..j]);
    AccumulateWithinBounds(Accumulate(Base, rows[..j]), rows[j..k]);
  }

  /** Once a window's accumulator has reached 1.0, later rows keep it there. */
  lemma SaturationIsPermanent(rows: seq<VitalRecord>, j: nat, k: nat)
    requires j <= k <= |rows|
    requires Accumulate(Base, rows[..j]) == Cap
    ensures Accumulate(Base, rows[..k]) == Cap
  {
    assert rows[..k] == rows[..j] + rows[j..k];
    AccumulateAppend(Base, rows[..j], rows[j..k]);
    AccumulateWithinBounds(Cap, rows[j..k]);
  }

  /** The window slice holds exactly the series rows `60*i ..` that exist. */
  lemma WindowRows(rows: seq<VitalRecord>, i: nat)
    ensures |Window(rows, i)| == if i * ChunkSize >= |rows| then 0
                                 else Min(ChunkSize, |rows| - i * ChunkSize)
    ensures forall k :: 0 <= k < |Window(rows, i)| ==> Window(rows, i)[k] == rows[i * ChunkSize + k]
  {
  }

  /** Every report has 24 scores, each within [0.05, 1.0]. */
  lemma ReportShape(rows: seq<VitalRecord>)
    ensures |Report(rows)| == TotalChunks
    ensures forall i :: 0 <= i < TotalChunks ==>
              Report(rows)[i] == ScoreWindow(rows, i) && Base <= Report(rows)[i] <= Cap
    ensures forall i :: 0 <= i < TotalChunks ==>
              0.05 <= UnitsToReal(Report(rows)[i]) <= 1.0
  {
    forall i | 0 <= i < TotalChunks
      ensures Base <= Report(rows)[i] <= Cap
    {
      AccumulateWithinBounds(Base, Window(rows, i));
    }
  }

  /** A window that starts at or past the end of the series scores 0.05;
      a series shorter than 24 windows is not an error. */
  lemma EmptyWindowScoresBase(rows: seq<VitalRecord>, i: nat)
    requires i < TotalChunks
    requires i * ChunkSize >= |rows|
    ensures Report(rows)[i] == Base
    ensures UnitsToReal(Report(rows)[i]) == 0.05
  {
  }

  /** Score `i` depends only on rows `[60*i, 60*(i+1))`: two series whose
      windows `i` are equally long and agree row by row score window `i` the
      same, whatever they hold elsewhere and however long they are. */
  lemma WindowLocality(r1: seq<VitalRecord>, r2: seq<VitalRecord>, i: nat)
    requires Min(|r1|, (i + 1) * ChunkSize) - Min(|r1|, i * ChunkSize)
             == Min(|r2|, (i + 1) * ChunkSize) - Min(|r2|, i * ChunkSize)
    requires forall k :: i * ChunkSize <= k < Min(|r1|, (i + 1) * ChunkSize) ==> r1[k] == r2[k]
    ensures ScoreWindow(r1, i) == ScoreWindow(r2, i)
  {
    WindowRows(r1, i);
    WindowRows(r2, i);
    assert Window(r1, i) == Window(r2, i);
  }

  /** Closed form in units: with `c` critical and `m` needs-medics rows in
      window `i`, the score is `min(20, 1 + 2c + m)`. */
  lemma ScoreClosedForm(rows: seq<VitalRecord>, i: nat)
    ensures ScoreWindow(rows, i)
            == Min(Cap, Base + CriticalIncrement * CountState(Window(rows, i), Critical)
                             + NeedsMedicsIncrement * CountState(Window(rows, i), NeedsMedics))
  {
    AccumulateClosedForm(Base, Window(rows, i));
    WeightCounts(Window(rows, i));
  }

  /** The same closed form in decimal terms:
      `min(1.0, 0.05 + 0.1*c + 0.05*m)`. */
  lemma ScoreClosedFormReal(rows: seq<VitalRecord>, i: nat)
    ensures UnitsToReal(ScoreWindow(rows, i))
            == RealMin(1.0, 0.05 + 0.1 * CountState(Window(rows, i), Critical) as real
                                 + 0.05 * CountState(Window(rows, i), NeedsMedics) as real)
  {
    ScoreClosedForm(rows, i);
  }

  /** Only the two exact state strings move the score. */
  lemma OnlyExactLabelsCount(s: string)
    ensures Increment(ParseState(s)) > 0 <==> (s == "critical" || s == "needs medics")
    ensures Increment(ParseState("needs-medics")) == 0
  {
    assert "needs-medics" != NeedsMedicsLabel;
  }

  /** A window with no critical and no needs-medics row scores 0.05. */
  lemma UneventfulWindowScoresBase(rows: seq<VitalRecord>, i: nat)
    requires forall k :: 0 <= k < |Window(rows, i)| ==>
               Window(rows, i)[k].state != CriticalLabel && Window(rows, i)[k].state != NeedsMedicsLabel
    ensures ScoreWindow(rows, i) == Base
  {
    NoEventsNoWeight(Window(rows, i));
    AccumulateClosedForm(Base, Window(rows, i));
  }

  lemma {:induction false} NoEventsNoWeight(w: seq<VitalRecord>)
    requires forall k :: 0 <= k < |w| ==> w[k].state != CriticalLabel && w[k].state != NeedsMedicsLabel
    ensures Weight(w) == 0
    decreases |w|
  {
    if w != [] {
      NoEventsNoWeight(w[..|w| - 1]);
    }
  }

  /** Ten critical rows already push a window past 1.0, so it reads exactly
      1.0 however many more there are. */
  lemma ManyCriticalRowsSaturate(rows: seq<VitalRecord>, i: nat)
    requires CountState(Window(rows, i), Critical) >= 10
    ensures ScoreWindow(rows, i) == Cap
    ensures UnitsToReal(ScoreWindow(rows, i)) == 1.0
  {
    ScoreClosedForm(rows, i);
  }

  /** A window whose only event is one critical row, wherever it stands,
      scores 0.05 + 0.1 = 0.15. */
  lemma OneCriticalRowScore(w: seq<VitalRecord>, p: nat)
    requires p < |w|
    requires w[p].state == CriticalLabel
    requires forall k :: 0 <= k < |w| && k != p ==>
               w[k].state != CriticalLabel && w[k].state != NeedsMedicsLabel
    ensures Accumulate(Base, w) == 3
    ensures UnitsToReal(Accumulate(Base, w)) == 0.15
  {
    SingleEventWeight(w, p);
    AccumulateClosedForm(Base, w);
  }

  lemma {:induction false} SingleEventWeight(w: seq<VitalRecord>, p: nat)
    requires p < |w|
    requires forall k :: 0 <= k < |w| && k != p ==>
               w[k].state != CriticalLabel && w[k].state != NeedsMedicsLabel
    ensures Weight(w) == Increment(RowState(w[p]))
    decreases |w|
  {
    if p == |w| - 1 {
      NoEventsNoWeight(w[..|w| - 1]);
    } else {
      SingleEventWeight(w[..|w| - 1], p);
    }
  }
}
