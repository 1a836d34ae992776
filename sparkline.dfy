/** The small trend line drawn for each listed feature: every third row of the
    date-sorted series, at most ten of them, as their distinct-CID counts. */
module Sparkline {
  import opened Records

  const Stride: nat := 3
  const MaxPoints: nat := 10

  /** `sorted.filter((_, index) => index % 3 === 0)`. */
  function EveryThird(sorted: seq<Record>): (r: seq<Record>)
    ensures |r| == (|sorted| + Stride - 1) / Stride
  {
    if |sorted| == 0 then []
    else
      var n := |sorted| - 1;
      EveryThird(sorted[..n]) + (if n % Stride == 0 then [sorted[n]] else [])
  }

  /** The kept rows are those at indices 0, 3, 6, ... in order: ceil(n / 3) of them. */
  lemma {:induction false} EveryThirdPicks(sorted: seq<Record>)
    ensures |EveryThird(sorted)| == (|sorted| + Stride - 1) / Stride
    ensures forall i :: 0 <= i < |EveryThird(sorted)| ==> EveryThird(sorted)[i] == sorted[Stride * i]
  {
    if |sorted| > 0 {
      var n := |sorted| - 1;
      EveryThirdPicks(sorted[..n]);
    }
  }

  /** `.slice(0, 10).map(d => d.distinct_CID_count)` after the stride filter. */
  function SparklineValues(sorted: seq<Record>): (v: seq<int>)
    ensures |v| <= MaxPoints && |v| <= |sorted|
  {
    var kept := EveryThird(sorted);
    var finalData := if |kept| <= MaxPoints then kept else kept[..MaxPoints];
    seq(|finalData|, i requires 0 <= i < |finalData| => finalData[i].distinctCount)
  }

  /** The line has min(10, ceil(n / 3)) values, and value `i` is the count of row `3 * i`. */
  lemma SparklineShape(sorted: seq<Record>)
    ensures var v := SparklineValues(sorted);
      |v| == if (|sorted| + 2) / 3 < 10 then (|sorted| + 2) / 3 else 10
    ensures var v := SparklineValues(sorted);
      forall i :: 0 <= i < |v| ==> 3 * i < |sorted| && v[i] == sorted[3 * i].distinctCount
  {
    EveryThirdPicks(sorted);
  }

  /** Thirty-three rows give eleven strided candidates, cut to the ten from rows 0 to 27. */
  lemma SparklineOfThirtyThree(sorted: seq<Record>)
    requires |sorted| == 33
    ensures |SparklineValues(sorted)| == 10
    ensures SparklineValues(sorted)[0] == sorted[0].distinctCount
    ensures SparklineValues(sorted)[9] == sorted[27].distinctCount
  {
    SparklineShape(sorted);
  }
}
