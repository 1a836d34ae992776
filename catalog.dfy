/** The feature catalog: one summary per distinct feature, in the order the
    features are first met in the dataset, numbered from 1. */
module Catalog {
  import opened Records

  /** The sidebar entry for one feature: its 1-based id, its name and a snapshot
      of the fields of the first row recorded for it. */
  datatype FeatureSummary = FeatureSummary(
    id: int,
    name: string,
    firstNumber: int,
    secondNumber: real,
    anomalyScore: real,
    isAnomaly: bool,
    anomalySeverity: string)

  /** The entry built from row `r` when its feature is first met. */
  function Snapshot(id: int, r: Record): (s: FeatureSummary)
    ensures s.id == id && s.name == r.feature
    ensures s.isAnomaly <==> r.isAnomaly == "True"
  {
    FeatureSummary(id, r.feature, r.distinctCount, r.zScore, r.anomalyScore, IsAnomalous(r), r.severity)
  }

  /** Row `i` is the first row of its feature. */
  predicate IsFirst(data: seq<Record>, i: int)
    requires 0 <= i < |data|
  {
    forall j :: 0 <= j < i ==> data[j].feature != data[i].feature
  }

  lemma IsFirstOfPrefix(data: seq<Record>, n: nat, i: nat)
    requires i < n <= |data|
    ensures IsFirst(data[..n], i) <==> IsFirst(data, i)
  {
  }

  /** The indices of the rows that are the first of their feature, ascending. */
  function Firsts(data: seq<Record>): (f: seq<nat>)
    ensures |f| <= |data|
    ensures forall k :: 0 <= k < |f| ==> f[k] < |data| && IsFirst(data, f[k])
    ensures forall k, l :: 0 <= k < l < |f| ==> f[k] < f[l]
    ensures forall i :: 0 <= i < |data| && IsFirst(data, i) ==> i in f
  {
    if |data| == 0 then []
    else
      var n := |data| - 1;
      var p := Firsts(data[..n]);
      assert forall i :: 0 <= i < n ==> (IsFirst(data[..n], i) <==> IsFirst(data, i)) by {
        forall i | 0 <= i < n {
          IsFirstOfPrefix(data, n, i);
        }
      }
      p + (if IsFirst(data, n) then [n] else [])
  }

  /** The catalog `getUniqueFeatures` returns for `data`. */
  function BuildCatalog(data: seq<Record>): (c: seq<FeatureSummary>)
    ensures |c| <= |data|
    ensures forall k :: 0 <= k < |c| ==> c[k].id == k + 1
  {
    var f := Firsts(data);
    seq(|f|, k requires 0 <= k < |f| => Snapshot(k + 1, data[f[k]]))
  }

  /** The index of the first row whose feature is `name`. */
  function FirstIndex(data: seq<Record>, name: string): (i: nat)
    requires name in FeatureSet(data)
    ensures i < |data| && data[i].feature == name
    ensures forall j :: 0 <= j < i ==> data[j].feature != name
  {
    if data[0].feature == name then 0
    else
      assert name in FeatureSet(data[1..]) by {
        var i :| 0 <= i < |data| && data[i].feature == name;
        assert data[1..][i - 1] == data[i];
      }
      1 + FirstIndex(data[1..], name)
  }

  /** Each entry is numbered by its position, names a feature, and is the snapshot of
      that feature's first row; its anomaly flag is set exactly when that row's flag
      is the text "True". */
  lemma CatalogEntries(data: seq<Record>)
    ensures var c := BuildCatalog(data);
      forall k :: 0 <= k < |c| ==>
        c[k].id == k + 1
        && c[k].name in FeatureSet(data)
        && c[k] == Snapshot(k + 1, data[FirstIndex(data, c[k].name)])
        && (c[k].isAnomaly <==> data[FirstIndex(data, c[k].name)].isAnomaly == "True")
  {
    var c, f := BuildCatalog(data), Firsts(data);
    forall k | 0 <= k < |c|
      ensures c[k].name in FeatureSet(data) && FirstIndex(data, c[k].name) == f[k]
    {
      assert c[k].name == data[f[k]].feature;
    }
  }

  /** Entries follow the order in which their features are first met. */
  lemma CatalogOrder(data: seq<Record>)
    ensures var c := BuildCatalog(data);
      forall k, l :: 0 <= k < l < |c| ==>
        c[k].name in FeatureSet(data) && c[l].name in FeatureSet(data)
        && FirstIndex(data, c[k].name) < FirstIndex(data, c[l].name)
  {
    var c, f := BuildCatalog(data), Firsts(data);
    CatalogEntries(data);
    forall k | 0 <= k < |c| ensures FirstIndex(data, c[k].name) == f[k] {
      assert c[k].name == data[f[k]].feature;
    }
  }

  /** No feature has two entries. */
  lemma CatalogNamesDistinct(data: seq<Record>)
    ensures var c := BuildCatalog(data);
      forall k, l :: 0 <= k < l < |c| ==> c[k].name != c[l].name
  {
    var c, f := BuildCatalog(data), Firsts(data);
    forall k, l | 0 <= k < l < |c| ensures c[k].name != c[l].name {
      assert IsFirst(data, f[l]);
      assert c[k].name == data[f[k]].feature && c[l].name == data[f[l]].feature;
    }
  }

  /** Every feature of the dataset names some entry. */
  lemma FeatureHasEntry(data: seq<Record>, x: string)
    requires x in FeatureSet(data)
    ensures exists k :: 0 <= k < |BuildCatalog(data)| && BuildCatalog(data)[k].name == x
  {
    var c, f := BuildCatalog(data), Firsts(data);
    var i := FirstIndex(data, x);
    assert IsFirst(data, i);
    var k :| 0 <= k < |f| && f[k] == i;
    assert c[k].name == x;
  }

  /** The catalog names exactly the features of the dataset. */
  lemma CatalogNames(data: seq<Record>)
    ensures var c := BuildCatalog(data);
      (set k | 0 <= k < |c| :: c[k].name) == FeatureSet(data)
  {
    var c, f := BuildCatalog(data), Firsts(data);
    var names := set k | 0 <= k < |c| :: c[k].name;
    forall x | x in FeatureSet(data) ensures x in names {
      FeatureHasEntry(data, x);
    }
    forall x | x in names ensures x in FeatureSet(data) {
      var k :| 0 <= k < |c| && c[k].name == x;
      assert data[f[k]].feature == x;
    }
  }

  /** Every feature of the dataset has an entry and no feature has two, so the catalog
      has exactly one entry per distinct feature. */
  lemma CatalogCoversFeatures(data: seq<Record>)
    ensures var c := BuildCatalog(data);
      (set k | 0 <= k < |c| :: c[k].name) == FeatureSet(data)
      && |c| == |FeatureSet(data)|
  {
    var c := BuildCatalog(data);
    var names := set k | 0 <= k < |c| :: c[k].name;
    CatalogNames(data);
    CatalogNamesDistinct(data);
    var ns := seq(|c|, k requires 0 <= k < |c| => c[k].name);
    DistinctCard(ns);
    assert (set k | 0 <= k < |ns| :: ns[k]) == names by {
      forall x | x in names ensures x in (set k | 0 <= k < |ns| :: ns[k]) {
        var k :| 0 <= k < |c| && c[k].name == x;
        assert ns[k] == x;
      }
    }
  }

  lemma {:induction false} DistinctCard(s: seq<string>)
    requires forall k, l :: 0 <= k < l < |s| ==> s[k] != s[l]
    ensures |set k | 0 <= k < |s| :: s[k]| == |s|
  {
    if |s| > 0 {
      var p := s[..|s| - 1];
      DistinctCard(p);
      assert (set k | 0 <= k < |s| :: s[k]) == (set k | 0 <= k < |p| :: p[k]) + {s[|s| - 1]};
    }
  }

  /** The row appended last is the first of its feature exactly when its feature is new. */
  lemma IsFirstSnoc(data: seq<Record>, r: Record)
    ensures IsFirst(data + [r], |data|) <==> r.feature !in FeatureSet(data)
  {
    var d := data + [r];
    if r.feature in FeatureSet(data) {
      var i :| 0 <= i < |data| && data[i].feature == r.feature;
      assert d[i].feature == r.feature;
    }
  }

  lemma FirstsSnoc(data: seq<Record>, r: Record)
    ensures Firsts(data + [r]) ==
      Firsts(data) + (if r.feature in FeatureSet(data) then [] else [|data|])
  {
    var d := data + [r];
    assert d[..|data|] == data;
    IsFirstSnoc(data, r);
  }

  /** Appending a row keeps every existing entry and adds at most one. */
  lemma CatalogSnocPrefix(data: seq<Record>, r: Record)
    ensures var c, c2 := BuildCatalog(data), BuildCatalog(data + [r]);
      |c2| == |c| + (if r.feature in FeatureSet(data) then 0 else 1)
      && forall k :: 0 <= k < |c| ==> c2[k] == c[k]
  {
    var d := data + [r];
    FirstsSnoc(data, r);
    var f := Firsts(data);
    assert forall k :: 0 <= k < |f| ==> d[f[k]] == data[f[k]];
  }

  /** Appending a row whose feature is already catalogued leaves the catalog as it was;
      a row of a new feature appends one entry numbered after the others. */
  lemma CatalogExtend(data: seq<Record>, r: Record)
    ensures BuildCatalog(data + [r]) ==
      if r.feature in FeatureSet(data) then BuildCatalog(data)
      else BuildCatalog(data) + [Snapshot(|BuildCatalog(data)| + 1, r)]
  {
    var c, c2 := BuildCatalog(data), BuildCatalog(data + [r]);
    CatalogSnocPrefix(data, r);
    if r.feature in FeatureSet(data) {
      assert c2 == c;
    } else {
      FirstsSnoc(data, r);
      assert (data + [r])[|data|] == r;
      assert c2[|c|] == Snapshot(|c| + 1, r);
      assert c2 == c + [Snapshot(|c| + 1, r)];
    }
  }

  lemma FeatureSetSnoc(data: seq<Record>, r: Record)
    ensures FeatureSet(data + [r]) == FeatureSet(data) + {r.feature}
  {
    var d := data + [r];
    assert d[|data|] == r;
    forall x | x in FeatureSet(data) ensures x in FeatureSet(d) {
      var i :| 0 <= i < |data| && data[i].feature == x;
      assert d[i] == data[i];
    }
  }

  /** `entries` are the values of `m` in insertion order. */
  ghost predicate ListsValues(m: map<string, FeatureSummary>, entries: seq<FeatureSummary>) {
    forall k :: 0 <= k < |entries| ==> entries[k].name in m && m[entries[k].name] == entries[k]
  }

  lemma ListsValuesAppend(m: map<string, FeatureSummary>, entries: seq<FeatureSummary>, e: FeatureSummary)
    requires ListsValues(m, entries) && e.name !in m
    ensures ListsValues(m[e.name := e], entries + [e])
  {
  }

  /** What the scan below knows after reading the first `i` rows: the entries built so far
      are the catalog of those rows, listed in the map's insertion order, and the map's keys
      are exactly the features met. */
  ghost predicate ScanState(data: seq<Record>, i: nat, featureMap: map<string, FeatureSummary>,
                            entries: seq<FeatureSummary>)
    requires i <= |data|
  {
    entries == BuildCatalog(data[..i])
    && featureMap.Keys == FeatureSet(data[..i])
    && |featureMap| == |entries|
    && ListsValues(featureMap, entries)
  }

  lemma KeysAdd(prefix: seq<Record>, item: Record, m: map<string, FeatureSummary>, e: FeatureSummary)
    requires m.Keys == FeatureSet(prefix)
    ensures m[item.feature := e].Keys == FeatureSet(prefix + [item])
  {
    FeatureSetSnoc(prefix, item);
  }

  /** A row whose feature is already in the map changes nothing. */
  lemma ScanKeep(data: seq<Record>, i: nat, featureMap: map<string, FeatureSummary>,
                 entries: seq<FeatureSummary>)
    requires i < |data| && ScanState(data, i, featureMap, entries)
    requires data[i].feature in featureMap
    ensures ScanState(data, i + 1, featureMap, entries)
  {
    assert data[..i + 1] == data[..i] + [data[i]];
    CatalogExtend(data[..i], data[i]);
    FeatureSetSnoc(data[..i], data[i]);
  }

  /** A row of a feature not yet in the map adds its snapshot under the next id. */
  lemma ScanAdd(data: seq<Record>, i: nat, featureMap: map<string, FeatureSummary>,
                entries: seq<FeatureSummary>)
    requires i < |data| && ScanState(data, i, featureMap, entries)
    requires data[i].feature !in featureMap
    ensures var e := Snapshot(|featureMap| + 1, data[i]);
      ScanState(data, i + 1, featureMap[data[i].feature := e], entries + [e])
  {
    var item := data[i];
    var e := Snapshot(|featureMap| + 1, item);
    var m, c := featureMap[item.feature := e], entries + [e];
    assert data[..i + 1] == data[..i] + [item];
    assert item.feature !in FeatureSet(data[..i]);
    CatalogExtend(data[..i], item);
    KeysAdd(data[..i], item, featureMap, e);
    assert |m| == |c|;
    assert ListsValues(m, c) by {
      ListsValuesAppend(featureMap, entries, e);
    }
  }

  /** `getUniqueFeatures`: scans the rows once, keeping a map from feature name to its
      entry; a name not yet in the map gets the next id, `size + 1`, and its entry is
      appended to the map's values in insertion order. */
  method UniqueFeatures(data: seq<Record>) returns (catalog: seq<FeatureSummary>)
    ensures catalog == BuildCatalog(data)
  {
    var featureMap: map<string, FeatureSummary> := map[];
    catalog := [];
    for i := 0 to |data|
      invariant ScanState(data, i, featureMap, catalog)
    {
      var item := data[i];
      if item.feature !in featureMap {
        ScanAdd(data, i, featureMap, catalog);
        var entry := Snapshot(|featureMap| + 1, item);
        featureMap := featureMap[item.feature := entry];
        catalog := catalog + [entry];
      } else {
        ScanKeep(data, i, featureMap, catalog);
      }
    }
    assert data[..|data|] == data;
  }

  /** `catalog.find(item => item.id === id)`. */
  function FindById(catalog: seq<FeatureSummary>, id: int): (r: Option<FeatureSummary>)
    ensures r.Some? ==> r.value in catalog && r.value.id == id
    ensures r.None? <==> forall x :: x in catalog ==> x.id != id
    ensures r.Some? ==>
      exists k :: 0 <= k < |catalog| && catalog[k] == r.value && forall j :: 0 <= j < k ==> catalog[j].id != id
  {
    if |catalog| == 0 then None
    else if catalog[0].id == id then Some(catalog[0])
    else FindById(catalog[1..], id)
  }

  /** Since ids are the positions 1..n, looking an id up finds the entry at that position. */
  lemma FindByIdInCatalog(data: seq<Record>, id: int)
    ensures var c := BuildCatalog(data);
      FindById(c, id) == if 1 <= id <= |c| then Some(c[id - 1]) else None
  {
    var c := BuildCatalog(data);
    FindByIdPositional(c, 0, id);
    assert c[0..] == c;
  }

  lemma {:induction false} FindByIdPositional(c: seq<FeatureSummary>, from: nat, id: int)
    requires from <= |c|
    requires forall k :: 0 <= k < |c| ==> c[k].id == k + 1
    ensures FindById(c[from..], id) == if from + 1 <= id <= |c| then Some(c[id - 1]) else None
    decreases |c| - from
  {
    if from < |c| {
      assert c[from..][1..] == c[from + 1..];
      FindByIdPositional(c, from + 1, id);
    }
  }
}
