/** How each row of the selected feature is drawn on the main chart: only anomalous
    rows get a visible point, coloured by severity; the others are hidden. */
module Points {
  import opened Records

  const Transparent: string := "transparent"
  const Emerald: string := "#10b981"
  const Amber: string := "#f59e0b"
  const Red: string := "#ef4444"
  const DefaultBlue: string := "#1976d2"

  /** The style Chart.js receives for one point. */
  datatype PointStyle = PointStyle(fill: string, border: string, radius: int, hoverRadius: int)

  /** The `switch` on severity: three named severities, anything else the default. */
  function SeverityColour(severity: string): (c: string)
    ensures c != Transparent
    ensures c == Emerald <==> severity == "Normal"
    ensures c == Amber <==> severity == "Low"
    ensures c == Red <==> severity == "Medium"
    ensures c == DefaultBlue <==> severity !in {"Normal", "Low", "Medium"}
  {
    match severity
    case "Normal" => Emerald
    case "Low" => Amber
    case "Medium" => Red
    case _ => DefaultBlue
  }

  /** The background colour, border colour, radius and hover radius of row `r`'s point. */
  function StyleOf(r: Record): (s: PointStyle)
    ensures s.radius > 0 <==> IsAnomalous(r)
    ensures s.fill == s.border
    ensures s.fill == Transparent <==> s.radius == 0
    ensures s.radius > 0 ==> s.radius == 6 && s.hoverRadius == 8 && s.fill == SeverityColour(r.severity)
    ensures s.radius == 0 ==> s.hoverRadius == 0
  {
    var fill := if IsAnomalous(r) then SeverityColour(r.severity) else Transparent;
    var border := if IsAnomalous(r) then SeverityColour(r.severity) else Transparent;
    PointStyle(fill, border, if IsAnomalous(r) then 6 else 0, if IsAnomalous(r) then 8 else 0)
  }

  /** The per-point arrays built for the series, one style per row. */
  function ChartPoints(series: seq<Record>): (styles: seq<PointStyle>)
    ensures |styles| == |series|
    ensures forall i :: 0 <= i < |series| ==> (styles[i].radius > 0 <==> IsAnomalous(series[i]))
  {
    seq(|series|, i requires 0 <= i < |series| => StyleOf(series[i]))
  }

  /** The number of points with a non-zero radius. */
  function VisibleCount(styles: seq<PointStyle>): nat {
    if |styles| == 0 then 0
    else (if styles[0].radius > 0 then 1 else 0) + VisibleCount(styles[1..])
  }

  /** The chart shows exactly as many points as the series has anomalies. */
  lemma {:induction false} VisiblePointsAreAnomalies(series: seq<Record>)
    ensures VisibleCount(ChartPoints(series)) == CountAnomalies(series)
  {
    if |series| > 0 {
      VisiblePointsAreAnomalies(series[1..]);
      assert ChartPoints(series)[1..] == ChartPoints(series[1..]);
    }
  }
}
