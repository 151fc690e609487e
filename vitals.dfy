/** Vital-sign records as the monitoring server sees them after loading.

    A patient's series is the ordered list of rows of that patient's data
    file; every row carries numeric vitals and a categorical `state` column.
    Only the `state` column matters to the server's logic, so the numeric
    vitals (decimal readings) are kept as an opaque field map that the model
    never reads.
 */
module Vitals {

  /** The `state` column of a row. The server compares it against two exact
      strings; every other value is kept as written. */
  datatype State = Critical | NeedsMedics | Other(text: string)

  /** The exact state strings the aggregator tests for. */
  const CriticalLabel: string := "critical"
  const NeedsMedicsLabel: string := "needs medics"

  /** A well-formed `Other` never carries one of the two recognised labels,
      so every state string has exactly one representation. */
  predicate WellFormedState(st: State) {
    st.Other? ==> st.text != CriticalLabel && st.text != NeedsMedicsLabel
  }

  /** Classifies a `state` cell exactly as the string comparisons of the
      aggregator do: case-sensitive, no trimming, no normalisation. */
  function ParseState(s: string): (st: State)
    ensures st == Critical <==> s == CriticalLabel
    ensures st == NeedsMedics <==> s == NeedsMedicsLabel
    ensures st.Other? ==> st.text == s
    ensures WellFormedState(st)
  {
    if s == CriticalLabel then Critical
    else if s == NeedsMedicsLabel then NeedsMedics
    else Other(s)
  }

  /** One row of a patient's data file; `state` is the cell as written. */
  datatype VitalRecord = VitalRecord(vitals: map<string, real>, state: string)

  /** The classification of a row's `state` cell. */
  function RowState(r: VitalRecord): State {
    ParseState(r.state)
  }

  /** A patient's rows in file (chronological) order. */
  type PatientSeries = seq<VitalRecord>

  /** One row of the patient roster file, forwarded to clients unread. */
  type PatientInfo = map<string, string>
}
