/** The "analyzed period" panel shown beside a clicked anomaly: the first and last
    dates of the feature, the span between them in words, and the point counts. */
module Period {
  import opened Records
  import opened Text
  import opened Series

  /** The span in the unit the label uses, with the count shown. */
  datatype Granule = SameDay | Days(n: nat) | Months(n: nat) | Years(n: nat)

  /** Thirty-day months and 365-day years, as the label counts them. */
  function GranuleOf(days: nat): Granule {
    if days == 0 then SameDay
    else if days < 30 then Days(days)
    else if days < 365 then Months(days / 30)
    else Years(days / 365)
  }

  /** The humanized span: `Same day`, `1 day`, `N days`, then whole 30-day months and
      whole 365-day years, with the plural `s` only for counts above one. */
  function DurationLabel(diffDays: nat): (s: string)
    ensures |s| > 0 && (IsDigit(s[0]) <==> diffDays > 0)
    ensures s == "Same day" <==> diffDays == 0
  {
    if diffDays == 0 then "Same day"
    else if diffDays == 1 then "1 day"
    else if diffDays < 30 then NatToString(diffDays) + " days"
    else if diffDays < 365 then
      var months := diffDays / 30;
      NatToString(months) + " month" + (if months > 1 then "s" else "")
    else
      var years := diffDays / 365;
      NatToString(years) + " year" + (if years > 1 then "s" else "")
  }

  /** The unit words after the count, including the separating space. */
  function UnitSuffix(g: Granule): string
    requires !g.SameDay?
  {
    match g
    case Days(n) => if n > 1 then " days" else " day"
    case Months(n) => if n > 1 then " months" else " month"
    case Years(n) => if n > 1 then " years" else " year"
  }

  lemma LabelShape(d: nat)
    requires d > 0
    ensures DurationLabel(d) == NatToString(GranuleOf(d).n) + UnitSuffix(GranuleOf(d))
  {
    if d == 1 {
      assert NatToString(1) == "1";
    }
  }

  /** Two spans get the same label exactly when they come to the same count of the
      same unit; so the label loses nothing the thresholds keep. */
  lemma DurationLabelExact(d1: nat, d2: nat)
    ensures DurationLabel(d1) == DurationLabel(d2) <==> GranuleOf(d1) == GranuleOf(d2)
  {
    LabelLeadingDigit(d1);
    LabelLeadingDigit(d2);
    if d1 > 0 && d2 > 0 {
      var g1, g2 := GranuleOf(d1), GranuleOf(d2);
      LabelShape(d1);
      LabelShape(d2);
      if DurationLabel(d1) == DurationLabel(d2) {
        NumberPrefixUnique(g1.n, UnitSuffix(g1), g2.n, UnitSuffix(g2));
      }
    }
  }

  /** Every label but `Same day` starts with the count's digits. */
  lemma LabelLeadingDigit(d: nat)
    ensures |DurationLabel(d)| > 0 && (IsDigit(DurationLabel(d)[0]) <==> d > 0)
  {
    if d > 0 {
      LabelShape(d);
      assert DurationLabel(d)[0] == NatToString(GranuleOf(d).n)[0];
    }
  }

  /** The label ends in the plural `s` exactly when the count shown is above one. */
  lemma DurationLabelPlural(d: nat)
    requires d > 0
    ensures var l := DurationLabel(d);
      |l| > 0 && (l[|l| - 1] == 's' <==> GranuleOf(d).n > 1)
  {
    LabelShape(d);
  }

  /** Labels below a month: equal dates, a one-day gap and the last day count. */
  lemma DurationLabelDays()
    ensures DurationLabel(0) == "Same day"
    ensures DurationLabel(1) == "1 day"
    ensures DurationLabel(29) == "29 days"
  {
    assert NatToString(29) == "29";
  }

  /** Labels in months: a 45-day gap is one month and 60 days two months. */
  lemma DurationLabelMonths()
    ensures DurationLabel(45) == "1 month"
    ensures DurationLabel(60) == "2 months"
  {
    assert NatToString(1) == "1";
    assert NatToString(2) == "2";
  }

  /** Labels in years: a 400-day gap is one year and 730 days two years. */
  lemma DurationLabelYears()
    ensures DurationLabel(400) == "1 year"
    ensures DurationLabel(730) == "2 years"
  {
    assert NatToString(1) == "1";
    assert NatToString(2) == "2";
  }

  /** The panel's contents; dates are the rows' own date texts. */
  datatype AnalyzedPeriod = AnalyzedPeriod(
    startDate: string,
    endDate: string,
    duration: string,
    totalPoints: nat,
    anomalyPoints: nat)

  function Abs(x: int): nat {
    if x < 0 then -x else x
  }

  /** What `calculateAnalyzedPeriod` stores for a feature whose rows are `featureData`:
      nothing for no rows; otherwise the ends of the date-sorted rows, the label of
      the whole-day gap between them, and the counts over the sorted rows. */
  function PeriodOf(featureData: seq<Record>): (r: Option<AnalyzedPeriod>)
    ensures r.None? <==> |featureData| == 0
  {
    if |featureData| == 0 then None
    else
      var sorted := SortedByDate(featureData);
      var first, last := sorted[0], sorted[|sorted| - 1];
      Some(AnalyzedPeriod(
        first.dateOfUse,
        last.dateOfUse,
        DurationLabel(Abs(last.day - first.day)),
        |sorted|,
        CountAnomalies(sorted)))
  }

  /** For rows `featureData`, the period is read off the ends of their sorted order. */
  lemma PeriodOfEnds(featureData: seq<Record>, lo: Record, hi: Record)
    requires |featureData| > 0
    requires SortedByDate(featureData)[0] == lo
    requires SortedByDate(featureData)[|SortedByDate(featureData)| - 1] == hi
    ensures PeriodOf(featureData) == Some(AnalyzedPeriod(lo.dateOfUse, hi.dateOfUse,
      DurationLabel(Abs(hi.day - lo.day)), |featureData|, CountAnomalies(SortedByDate(featureData))))
  {
  }

  /** The period counts every row of the feature and the anomalous ones among them. */
  lemma PeriodCounts(featureData: seq<Record>)
    requires |featureData| > 0
    ensures var p := PeriodOf(featureData).value;
      p.totalPoints == |featureData|
      && p.anomalyPoints == CountAnomalies(featureData)
      && p.anomalyPoints <= p.totalPoints
  {
    SortedByDateCount(featureData);
  }

  /** There is a period exactly when the feature has rows. It starts at the earliest row
      (the first met of that day), ends at the latest (the last met of that day), is
      labelled with the gap between their days, and counts every row and the anomalous
      ones among them. */
  lemma PeriodSummarizes(featureData: seq<Record>)
    ensures PeriodOf(featureData).None? <==> |featureData| == 0
    ensures |featureData| > 0 ==> Earliest(featureData).day <= Latest(featureData).day
    ensures |featureData| > 0 ==>
      PeriodOf(featureData) == Some(AnalyzedPeriod(
        Earliest(featureData).dateOfUse, Latest(featureData).dateOfUse,
        DurationLabel(Latest(featureData).day - Earliest(featureData).day),
        |featureData|, CountAnomalies(featureData)))
  {
    if |featureData| > 0 {
      PeriodAtExtremes(featureData);
    }
  }

  /** The earliest row, the first met of its day. */
  function Earliest(s: seq<Record>): Record
    requires |s| > 0
  {
    s[FirstMinIndex(s)]
  }

  /** The latest row, the last met of its day. */
  function Latest(s: seq<Record>): Record
    requires |s| > 0
  {
    s[LastMaxIndex(s)]
  }

  lemma PeriodAtExtremes(featureData: seq<Record>)
    requires |featureData| > 0
    ensures Earliest(featureData).day <= Latest(featureData).day
    ensures PeriodOf(featureData) == Some(AnalyzedPeriod(
        Earliest(featureData).dateOfUse, Latest(featureData).dateOfUse,
        DurationLabel(Latest(featureData).day - Earliest(featureData).day),
        |featureData|, CountAnomalies(featureData)))
  {
    var lo, hi := Earliest(featureData), Latest(featureData);
    var sorted := SortedByDate(featureData);
    assert sorted[0] == lo by { SortedHead(featureData); }
    assert sorted[|sorted| - 1] == hi by {
      var n := |featureData|;
      assert |sorted| == n;
      assert hi == featureData[LastMaxIndex(featureData)];
      SortedLast(featureData);
    }
    assert CountAnomalies(sorted) == CountAnomalies(featureData) by {
      SortedByDateCount(featureData);
    }
    assert Abs(hi.day - lo.day) == hi.day - lo.day;
    PeriodOfEnds(featureData, lo, hi);
  }
}
