/** A feature's rows in chronological order. The source sorts with
    `Array.prototype.sort` and a comparator on the parsed dates; that sort is
    stable, so rows of the same day keep their dataset order. `SortedByDate` is
    that order, built by stable insertion, and `SortByDate` performs it in place
    on an array. */
module Series {
  import opened Records

  /** Puts `x` directly behind the last row of `s` whose day is not after x's. */
  function Insert(s: seq<Record>, x: Record): (r: seq<Record>)
    ensures |r| == |s| + 1
    decreases |s|
  {
    if |s| == 0 || s[|s| - 1].day <= x.day then s + [x]
    else Insert(s[..|s| - 1], x) + [s[|s| - 1]]
  }

  /** Inserting adds `x` to the rows and changes nothing else. */
  lemma {:induction false} InsertPermutes(s: seq<Record>, x: Record)
    ensures multiset(Insert(s, x)) == multiset(s) + multiset{x}
    decreases |s|
  {
    if |s| > 0 && s[|s| - 1].day > x.day {
      var p := s[..|s| - 1];
      InsertPermutes(p, x);
      assert s == p + [s[|s| - 1]];
    }
  }

  /** The stable ascending order by day. */
  function SortedByDate(s: seq<Record>): (r: seq<Record>)
    ensures |r| == |s|
  {
    if |s| == 0 then [] else Insert(SortedByDate(s[..|s| - 1]), s[|s| - 1])
  }

  ghost predicate IsSortedByDay(s: seq<Record>) {
    forall i, j :: 0 <= i < j < |s| ==> s[i].day <= s[j].day
  }

  lemma {:induction false} InsertSorted(s: seq<Record>, x: Record)
    requires IsSortedByDay(s)
    ensures IsSortedByDay(Insert(s, x))
    decreases |s|
  {
    if |s| > 0 && s[|s| - 1].day > x.day {
      var p, last := s[..|s| - 1], s[|s| - 1];
      InsertSorted(p, x);
      InsertPermutes(p, x);
      var q := Insert(p, x);
      assert Insert(s, x) == q + [last];
      forall i | 0 <= i < |q| ensures q[i].day <= last.day {
        assert q[i] in multiset(q);
        assert q[i] in multiset(p) || q[i] == x;
      }
    }
  }

  /** The sorted rows are in ascending day order and are the same rows. */
  lemma {:induction false} SortedByDateSorted(s: seq<Record>)
    ensures IsSortedByDay(SortedByDate(s))
    ensures multiset(SortedByDate(s)) == multiset(s)
  {
    if |s| > 0 {
      var p := s[..|s| - 1];
      SortedByDateSorted(p);
      InsertSorted(SortedByDate(p), s[|s| - 1]);
      InsertPermutes(SortedByDate(p), s[|s| - 1]);
      assert s == p + [s[|s| - 1]];
    }
  }

  /** The rows of `s` dated `day`, in their order in `s`. */
  function DayRows(s: seq<Record>, day: int): (r: seq<Record>)
    ensures |r| <= |s|
  {
    if |s| == 0 then []
    else DayRows(s[..|s| - 1], day) + (if s[|s| - 1].day == day then [s[|s| - 1]] else [])
  }

  /** `DayRows` keeps exactly the rows of `s` dated `day`. */
  lemma {:induction false} DayRowsMembers(s: seq<Record>, day: int)
    ensures forall x :: x in DayRows(s, day) <==> x in s && x.day == day
  {
    if |s| > 0 {
      DayRowsMembers(s[..|s| - 1], day);
      assert s == s[..|s| - 1] + [s[|s| - 1]];
    }
  }

  lemma {:induction false} DayRowsAppend(a: seq<Record>, b: seq<Record>, day: int)
    ensures DayRows(a + b, day) == DayRows(a, day) + DayRows(b, day)
    decreases |b|
  {
    if |b| == 0 {
      assert a + b == a;
    } else {
      var p := b[..|b| - 1];
      assert (a + b)[..|a + b| - 1] == a + p;
      DayRowsAppend(a, p, day);
    }
  }

  /** Appending a row adds it to the rows of its own day only. */
  lemma DayRowsSnoc(s: seq<Record>, y: Record, day: int)
    ensures DayRows(s + [y], day) == DayRows(s, day) + (if y.day == day then [y] else [])
  {
    assert (s + [y])[..|s|] == s;
  }

  /** Inserting `x` appends it behind the rows of its own day and leaves the rows of
      every other day as they were. */
  lemma {:induction false} InsertDayRows(s: seq<Record>, x: Record, day: int)
    ensures DayRows(Insert(s, x), day) == DayRows(s, day) + (if x.day == day then [x] else [])
    decreases |s|
  {
    if |s| == 0 || s[|s| - 1].day <= x.day {
      assert Insert(s, x) == s + [x];
      DayRowsSnoc(s, x, day);
    } else {
      var p, last := s[..|s| - 1], s[|s| - 1];
      assert Insert(s, x) == Insert(p, x) + [last];
      assert s == p + [last];
      InsertDayRows(p, x, day);
      DayRowsSnoc(Insert(p, x), last, day);
      DayRowsSnoc(p, last, day);
    }
  }

  /** The sort is stable: the rows of any one day come out in the order they went in. */
  lemma {:induction false} SortedByDateStable(s: seq<Record>, day: int)
    ensures DayRows(SortedByDate(s), day) == DayRows(s, day)
  {
    if |s| > 0 {
      SortedByDateStable(s[..|s| - 1], day);
      InsertDayRows(SortedByDate(s[..|s| - 1]), s[|s| - 1], day);
    }
  }

  /** The index of the earliest row of `s`, the first one in `s` among rows of that day. */
  function FirstMinIndex(s: seq<Record>): (i: nat)
    requires |s| > 0
    ensures i < |s|
    ensures forall j :: 0 <= j < |s| ==> s[i].day <= s[j].day
    ensures forall j :: 0 <= j < i ==> s[i].day < s[j].day
  {
    if |s| == 1 then 0
    else
      var i := FirstMinIndex(s[..|s| - 1]);
      if s[|s| - 1].day < s[i].day then |s| - 1 else i
  }

  /** The index of the latest row of `s`, the last one in `s` among rows of that day. */
  function LastMaxIndex(s: seq<Record>): (i: nat)
    requires |s| > 0
    ensures i < |s|
    ensures forall j :: 0 <= j < |s| ==> s[j].day <= s[i].day
    ensures forall j :: i < j < |s| ==> s[j].day < s[i].day
  {
    if |s| == 1 then 0
    else
      var i := LastMaxIndex(s[..|s| - 1]);
      if s[|s| - 1].day >= s[i].day then |s| - 1 else i
  }

  lemma {:induction false} InsertHead(s: seq<Record>, x: Record)
    requires |s| > 0 && IsSortedByDay(s)
    ensures Insert(s, x)[0] == if x.day < s[0].day then x else s[0]
    decreases |s|
  {
    if s[|s| - 1].day > x.day && |s| > 1 {
      InsertHead(s[..|s| - 1], x);
    }
  }

  /** Sorting puts first the earliest row, and of several rows of that day the one
      met first: the order is stable at the head. */
  lemma {:induction false} SortedHead(s: seq<Record>)
    requires |s| > 0
    ensures SortedByDate(s)[0] == s[FirstMinIndex(s)]
  {
    if |s| > 1 {
      var p := s[..|s| - 1];
      SortedHead(p);
      SortedByDateSorted(p);
      InsertHead(SortedByDate(p), s[|s| - 1]);
    }
  }

  /** Sorting puts last the latest row, and of several rows of that day the one met
      last: the order is stable at the tail. */
  lemma {:induction false} SortedLast(s: seq<Record>)
    requires |s| > 0
    ensures SortedByDate(s)[|s| - 1] == s[LastMaxIndex(s)]
  {
    if |s| > 1 {
      SortedLast(s[..|s| - 1]);
    }
  }

  /** Sorting keeps the number of anomalous rows. */
  lemma {:induction false} SortedByDateCount(s: seq<Record>)
    ensures CountAnomalies(SortedByDate(s)) == CountAnomalies(s)
  {
    if |s| > 0 {
      var p := s[..|s| - 1];
      SortedByDateCount(p);
      InsertCount(SortedByDate(p), s[|s| - 1]);
      assert s == p + [s[|s| - 1]];
      CountAnomaliesAppend(p, [s[|s| - 1]]);
    }
  }

  lemma {:induction false} InsertCount(s: seq<Record>, x: Record)
    ensures CountAnomalies(Insert(s, x)) == CountAnomalies(s) + CountAnomalies([x])
    decreases |s|
  {
    if |s| == 0 || s[|s| - 1].day <= x.day {
      CountAnomaliesAppend(s, [x]);
    } else {
      var p, last := s[..|s| - 1], s[|s| - 1];
      var q := Insert(p, x);
      assert Insert(s, x) == q + [last];
      InsertCount(p, x);
      CountAnomaliesAppend(q, [last]);
      assert s == p + [last];
      CountAnomaliesAppend(p, [last]);
    }
  }

  /** Where the inner loop of `SortByDate` stops, inserting `x` splits `s`. */
  lemma {:induction false} InsertAt(s: seq<Record>, x: Record, j: nat)
    requires j <= |s|
    requires forall k :: j <= k < |s| ==> s[k].day > x.day
    requires j == 0 || s[j - 1].day <= x.day
    ensures Insert(s, x) == s[..j] + [x] + s[j..]
    decreases |s|
  {
    if j < |s| {
      var p := s[..|s| - 1];
      assert Insert(s, x) == Insert(p, x) + [s[|s| - 1]];
      InsertAt(p, x, j);
      assert p[..j] == s[..j];
      assert p[j..] + [s[|s| - 1]] == s[j..];
    }
  }

  /** Moves `a[i]` left past the rows of later days, shifting them right by one. */
  method InsertInPlace(a: array<Record>, i: nat)
    requires i < a.Length
    modifies a
    ensures a[..i + 1] == Insert(old(a[..i]), old(a[i]))
    ensures forall k :: i < k < a.Length ==> a[k] == old(a[k])
  {
    var x := a[i];
    ghost var sorted := a[..i];
    var j := i;
    while j > 0 && a[j - 1].day > x.day
      invariant 0 <= j <= i
      invariant forall k :: 0 <= k < j ==> a[k] == sorted[k]
      invariant forall k :: j < k <= i ==> a[k] == sorted[k - 1]
      invariant forall k :: j <= k < i ==> sorted[k].day > x.day
      invariant forall k :: i < k < a.Length ==> a[k] == old(a[k])
    {
      a[j] := a[j - 1];
      j := j - 1;
    }
    a[j] := x;
    InsertAt(sorted, x, j);
    assert a[..i + 1] == sorted[..j] + [x] + sorted[j..];
  }

  /** Stable insertion sort of `a` by day, in place. */
  method SortByDate(a: array<Record>)
    modifies a
    ensures a[..] == SortedByDate(old(a[..]))
  {
    ghost var input := a[..];
    for i := 0 to a.Length
      invariant a[..i] == SortedByDate(input[..i])
      invariant forall k :: i <= k < a.Length ==> a[k] == input[k]
    {
      InsertInPlace(a, i);
      assert input[..i + 1] == input[..i] + [input[i]];
    }
    assert input[..a.Length] == input;
  }

  /** `data.filter(d => d.Feature === name)` followed by the in-place sort. */
  method SortedFeatureRecords(data: seq<Record>, name: string) returns (sorted: seq<Record>)
    ensures sorted == SortedByDate(FeatureRecords(data, name))
  {
    var featureData := FeatureRecords(data, name);
    var a := new Record[|featureData|](k requires 0 <= k < |featureData| => featureData[k]);
    assert a[..] == featureData;
    SortByDate(a);
    sorted := a[..];
  }
}
