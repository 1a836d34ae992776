/** The dataset rows the component reads, and the row-level queries every other
    part of the model shares. */
module Records {

  /** JavaScript's `T | null`. */
  datatype Option<T> = None | Some(value: T)

  /** One measurement of the dataset. `dateOfUse` is the row's `YYYY-MM-DD` text;
      `day` is the whole day number that parsing that text yields (the source's
      `new Date(dateOfUse).getTime()` divided by the length of a day). */
  datatype Record = Record(
    feature: string,
    dateOfUse: string,
    day: int,
    distinctCount: int,
    zScore: real,
    anomalyScore: real,
    isAnomaly: string,
    severity: string)

  /** The anomaly flag arrives as text and is tested by exact comparison with "True". */
  predicate IsAnomalous(r: Record)
    ensures IsAnomalous(r) ==> |r.isAnomaly| == 4
    ensures r.isAnomaly in {"true", "TRUE", "False", "1", ""} ==> !IsAnomalous(r)
  {
    r.isAnomaly == "True"
  }

  /** `data.filter(item => item.Feature === name)`. */
  function FeatureRecords(data: seq<Record>, name: string): (r: seq<Record>)
    ensures |r| <= |data|
    ensures forall x :: x in r <==> x in data && x.feature == name
  {
    if |data| == 0 then []
    else (if data[0].feature == name then [data[0]] else []) + FeatureRecords(data[1..], name)
  }

  /** Filtering a concatenation filters each part and keeps them in order. */
  lemma {:induction false} FeatureRecordsAppend(a: seq<Record>, b: seq<Record>, name: string)
    ensures FeatureRecords(a + b, name) == FeatureRecords(a, name) + FeatureRecords(b, name)
  {
    if |a| == 0 {
      assert a + b == b;
    } else {
      assert (a + b)[1..] == a[1..] + b;
      FeatureRecordsAppend(a[1..], b, name);
    }
  }

  /** A row appended to the dataset is appended to the filtered rows exactly when it has
      the feature; with `FeatureRecords([], name) == []` this fixes every row kept, its
      multiplicity and its order. */
  lemma FeatureRecordsSnoc(data: seq<Record>, x: Record, name: string)
    ensures FeatureRecords([], name) == []
    ensures FeatureRecords(data + [x], name) ==
      FeatureRecords(data, name) + (if x.feature == name then [x] else [])
  {
    FeatureRecordsAppend(data, [x], name);
    assert [x][1..] == [];
  }

  /** `s.filter(item => item.is_anomaly === "True").length`. */
  function CountAnomalies(s: seq<Record>): (n: nat)
    ensures n <= |s|
  {
    if |s| == 0 then 0
    else (if IsAnomalous(s[0]) then 1 else 0) + CountAnomalies(s[1..])
  }

  /** No anomaly is counted exactly when no row is anomalous, and every row is counted
      exactly when every row is. */
  lemma {:induction false} CountAnomaliesExtremes(s: seq<Record>)
    ensures CountAnomalies(s) == 0 <==> forall x :: x in s ==> !IsAnomalous(x)
    ensures CountAnomalies(s) == |s| <==> forall x :: x in s ==> IsAnomalous(x)
  {
    if |s| > 0 {
      CountAnomaliesExtremes(s[1..]);
      assert forall x :: x in s <==> x == s[0] || x in s[1..];
    }
  }

  lemma {:induction false} CountAnomaliesAppend(a: seq<Record>, b: seq<Record>)
    ensures CountAnomalies(a + b) == CountAnomalies(a) + CountAnomalies(b)
  {
    if |a| == 0 {
      assert a + b == b;
    } else {
      assert (a + b)[1..] == a[1..] + b;
      CountAnomaliesAppend(a[1..], b);
    }
  }

  /** The distinct feature names that occur in `data`. */
  ghost function FeatureSet(data: seq<Record>): set<string> {
    set i | 0 <= i < |data| :: data[i].feature
  }
}
