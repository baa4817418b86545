/**
 * The colour of the attendance ring
 * (`mobile/PCASConnect/src/components/AttendanceProgress.js`): green from
 * 75%, yellow from 60%, red below, with 0% when no percentage is passed.
 */
module AttendanceProgress {
  import opened Wrappers
  import AdminViews

  const Green := "#22C55E"
  const Yellow := "#EAB308"
  const Red := "#EF4444"

  /** `getColor`: the first threshold the percentage reaches decides the colour. */
  function GetColor(p: real): (c: string)
    ensures c == Green <==> p >= 75.0
    ensures c == Yellow <==> 60.0 <= p < 75.0
    ensures c == Red <==> p < 60.0
  {
    if p >= 75.0 then Green
    else if p >= 60.0 then Yellow
    else Red
  }

  /** The `percentage` prop with its default: an absent prop is 0. */
  function Percentage(prop: Option<real>): real {
    prop.GetOr(0.0)
  }

  /** How good a colour is: red, then yellow, then green. */
  function Band(c: string): nat {
    if c == Green then 2 else if c == Yellow then 1 else 0
  }

  /** The ring is red when no percentage is given. */
  lemma DefaultIsRed()
    ensures GetColor(Percentage(None)) == Red
  {
  }

  /** A higher percentage never shows a worse colour. */
  lemma ColorMonotonic(p: real, q: real)
    requires p <= q
    ensures Band(GetColor(p)) <= Band(GetColor(q))
  {
  }

  /**
   * A report row is on the backend's low-attendance list exactly when the
   * client would not show it in green.
   */
  lemma LowAttendanceIsNotGreen(row: AdminViews.SummaryRow)
    ensures AdminViews.IsLow(row) <==> GetColor(row.percentage) != Green
  {
  }
}
