/** The page component: the catalog it lists, the search box, the selected feature
    and its chart data, and the anomaly details panel. Chart drawing, timers and the
    news request itself stay outside; the methods keep the fields they update. */
module MainView {
  import opened Records
  import opened Text
  import opened Catalog
  import opened Search
  import opened Series
  import opened Period
  import opened Points
  import opened Sparkline
  import opened News

  /** One sidebar sparkline: the entry's id (its canvas) and the values drawn. */
  datatype MiniChart = MiniChart(id: int, values: seq<int>)

  /** The sparkline of one listed entry: its feature's rows in date order. */
  function ChartOf(records: seq<Record>, item: FeatureSummary): (c: MiniChart)
    ensures c.id == item.id && |c.values| <= MaxPoints
  {
    MiniChart(item.id, SparklineValues(SortedByDate(FeatureRecords(records, item.name))))
  }

  /** The sparklines `createMiniCharts` draws for `items`, in order, skipping entries
      whose feature has no rows. */
  function MiniChartsOf(records: seq<Record>, items: seq<FeatureSummary>): (charts: seq<MiniChart>)
    ensures |charts| <= |items|
    ensures forall c :: c in charts ==> exists k :: 0 <= k < |items| && c == ChartOf(records, items[k])
  {
    if |items| == 0 then []
    else
      var last := items[|items| - 1];
      MiniChartsOf(records, items[..|items| - 1])
      + (if |FeatureRecords(records, last.name)| > 0 then [ChartOf(records, last)] else [])
  }

  /** One sparkline per entry, in order. */
  function AllCharts(records: seq<Record>, items: seq<FeatureSummary>): (charts: seq<MiniChart>)
    ensures |charts| == |items|
  {
    if |items| == 0 then []
    else AllCharts(records, items[..|items| - 1]) + [ChartOf(records, items[|items| - 1])]
  }

  lemma {:induction false} AllChartsAt(records: seq<Record>, items: seq<FeatureSummary>, k: int)
    requires 0 <= k < |items|
    ensures AllCharts(records, items)[k] == ChartOf(records, items[k])
  {
    if k < |items| - 1 {
      AllChartsAt(records, items[..|items| - 1], k);
    }
  }

  lemma FeatureRecordsNonEmpty(records: seq<Record>, name: string)
    requires name in FeatureSet(records)
    ensures |FeatureRecords(records, name)| > 0
  {
    var i :| 0 <= i < |records| && records[i].feature == name;
    assert records[i] in FeatureRecords(records, name);
  }

  /** When every entry's feature has rows, no entry is skipped. */
  lemma {:induction false} MiniChartsCoverList(records: seq<Record>, items: seq<FeatureSummary>)
    requires forall k :: 0 <= k < |items| ==> |FeatureRecords(records, items[k].name)| > 0
    ensures MiniChartsOf(records, items) == AllCharts(records, items)
  {
    if |items| > 0 {
      var init := items[..|items| - 1];
      assert forall k :: 0 <= k < |init| ==> init[k] == items[k];
      MiniChartsCoverList(records, init);
    }
  }

  /** The loop of `createMiniCharts` after entry `i`: its sparkline is added when the
      entry's feature has rows. */
  lemma MiniChartsStep(records: seq<Record>, items: seq<FeatureSummary>, i: int)
    requires 0 <= i < |items|
    ensures MiniChartsOf(records, items[..i + 1]) ==
      MiniChartsOf(records, items[..i])
      + (if |FeatureRecords(records, items[i].name)| > 0 then [ChartOf(records, items[i])] else [])
  {
    assert items[..i + 1][..i] == items[..i];
  }

  /** Every catalog entry's feature has rows. */
  lemma CatalogEntryHasRows(records: seq<Record>, k: int)
    requires 0 <= k < |BuildCatalog(records)|
    ensures |FeatureRecords(records, BuildCatalog(records)[k].name)| > 0
  {
    CatalogEntries(records);
    FeatureRecordsNonEmpty(records, BuildCatalog(records)[k].name);
  }

  /** A filtered list is drawn in full: entry `k` gets the sparkline of its feature. */
  lemma FilteredListDrawn(records: seq<Record>, filtered: seq<FeatureSummary>)
    requires IsSubsequence(filtered, BuildCatalog(records))
    ensures MiniChartsOf(records, filtered) == AllCharts(records, filtered)
    ensures |MiniChartsOf(records, filtered)| == |filtered|
  {
    var c := BuildCatalog(records);
    SubsequenceMembers(filtered, c);
    forall j | 0 <= j < |filtered| ensures |FeatureRecords(records, filtered[j].name)| > 0 {
      assert filtered[j] in c;
      var k :| 0 <= k < |c| && c[k] == filtered[j];
      CatalogEntryHasRows(records, k);
    }
    MiniChartsCoverList(records, filtered);
  }

  /** The chart of a feature shows as many points as its details panel counts anomalies. */
  lemma ChartMatchesPeriod(records: seq<Record>, name: string)
    requires name in FeatureSet(records)
    ensures var featureData := FeatureRecords(records, name);
      PeriodOf(featureData).Some?
      && VisibleCount(ChartPoints(SortedByDate(featureData))) == PeriodOf(featureData).value.anomalyPoints
  {
    var featureData := FeatureRecords(records, name);
    FeatureRecordsNonEmpty(records, name);
    PeriodCounts(featureData);
    VisiblePointsAreAnomalies(SortedByDate(featureData));
    SortedByDateCount(featureData);
  }

  class Main {
    /** The imported dataset. */
    const records: seq<Record>
    /** The catalog, built once when the component is created. */
    const data: seq<FeatureSummary>
    /** The search box text. */
    var value: string
    var filteredData: seq<FeatureSummary>
    var selectedItemId: Option<int>
    /** The selected feature's rows in date order, as the chart draws them. */
    var selectedFeatureData: seq<Record>
    var showAnomalyDetails: bool
    var selectedAnomalyData: Option<Record>
    var analyzedPeriodData: Option<AnalyzedPeriod>
    var isLoadingNews: bool

    /** The catalog is that of the dataset, and the listed entries are catalog entries
        in catalog order. */
    ghost predicate Valid()
      reads this
    {
      data == BuildCatalog(records) && IsSubsequence(filteredData, data)
    }

    constructor (records: seq<Record>)
      ensures Valid()
      ensures this.records == records && data == BuildCatalog(records)
      ensures value == "" && filteredData == data && selectedItemId == None
      ensures selectedFeatureData == [] && !showAnomalyDetails && selectedAnomalyData == None
      ensures analyzedPeriodData == None && !isLoadingNews
    {
      var catalog := UniqueFeatures(records);
      this.records := records;
      data := catalog;
      value := "";
      filteredData := catalog;
      selectedItemId := None;
      selectedFeatureData := [];
      showAnomalyDetails := false;
      selectedAnomalyData := None;
      analyzedPeriodData := None;
      isLoadingNews := false;
      new;
      SubsequenceRefl(catalog);
    }

    /** `ngOnInit`: selects the first entry and loads its chart data. */
    method NgOnInit()
      requires Valid()
      modifies this`selectedItemId, this`selectedFeatureData
      ensures Valid()
      ensures |data| > 0 ==>
        selectedItemId == Some(data[0].id)
        && selectedFeatureData == SortedByDate(FeatureRecords(records, data[0].name))
      ensures |data| == 0 ==>
        selectedItemId == old(selectedItemId) && selectedFeatureData == old(selectedFeatureData)
    {
      if |data| > 0 {
        selectedItemId := Some(data[0].id);
        LoadChartData(data[0].name);
      }
    }

    /** `isItemSelected`: the sidebar highlights an entry exactly when its id is the
        selection; so at most one id is highlighted. */
    predicate IsItemSelected(itemId: int)
      reads this
      ensures IsItemSelected(itemId) ==> selectedItemId.Some? && selectedItemId.value == itemId
    {
      selectedItemId == Some(itemId)
    }

    /** `loadChartData`: the feature's rows, sorted by date in place. */
    method LoadChartData(featureName: string)
      requires Valid()
      modifies this`selectedFeatureData
      ensures Valid()
      ensures selectedFeatureData == SortedByDate(FeatureRecords(records, featureName))
    {
      selectedFeatureData := SortedFeatureRecords(records, featureName);
    }

    /** `clearChart`: the chart loses its data. */
    method ClearChart()
      requires Valid()
      modifies this`selectedFeatureData
      ensures Valid()
      ensures selectedFeatureData == []
    {
      selectedFeatureData := [];
    }

    /** `selectItem`: toggles the selection; a (truthy) new selection loads the chart of
        the catalog entry with that id, if there is one, and no selection clears it. */
    method SelectItem(itemId: int)
      requires Valid()
      modifies this`selectedItemId, this`selectedFeatureData
      ensures Valid()
      ensures selectedItemId == Toggle(old(selectedItemId), itemId)
      ensures IsItemSelected(itemId) <==> old(selectedItemId) != Some(itemId)
      ensures selectedFeatureData ==
        if !Truthy(selectedItemId) then []
        else if 1 <= itemId <= |data| then SortedByDate(FeatureRecords(records, data[itemId - 1].name))
        else old(selectedFeatureData)
    {
      selectedItemId := Toggle(selectedItemId, itemId);
      if Truthy(selectedItemId) {
        var selectedItem := FindById(data, itemId);
        FindByIdInCatalog(records, itemId);
        if selectedItem.Some? {
          LoadChartData(selectedItem.value.name);
        }
      } else {
        ClearChart();
      }
    }

    /** `onSearchChange`: lists the search result, then repairs the selection. */
    method OnSearchChange()
      requires Valid()
      modifies this`filteredData, this`selectedItemId, this`selectedFeatureData
      ensures Valid()
      ensures filteredData == SearchResult(data, value)
      ensures selectedItemId == RepairSelection(old(selectedItemId), filteredData)
      ensures selectedFeatureData ==
        if |filteredData| > 0
           && !(Truthy(old(selectedItemId)) && HasId(filteredData, old(selectedItemId).value))
        then SortedByDate(FeatureRecords(records, filteredData[0].name))
        else if |filteredData| == 0 && Truthy(old(selectedItemId)) then []
        else old(selectedFeatureData)
    {
      if value == "" || Trim(value) == "" {
        filteredData := data;
      } else {
        var searchTerm := Trim(ToLower(value));
        filteredData := Matching(data, searchTerm);
      }
      SearchKeepsOrder(data, value);
      RepairSelectionAfterSearch();
    }

    /** The second half of `onSearchChange`: a selection that is no longer listed moves to
        the first listed entry, or to none when nothing is listed, and an empty selection
        takes the first listed entry; the chart follows the new selection. */
    method RepairSelectionAfterSearch()
      requires Valid()
      modifies this`selectedItemId, this`selectedFeatureData
      ensures Valid()
      ensures selectedItemId == RepairSelection(old(selectedItemId), filteredData)
      ensures selectedFeatureData ==
        if |filteredData| > 0
           && !(Truthy(old(selectedItemId)) && HasId(filteredData, old(selectedItemId).value))
        then SortedByDate(FeatureRecords(records, filteredData[0].name))
        else if |filteredData| == 0 && Truthy(old(selectedItemId)) then []
        else old(selectedFeatureData)
    {
      if Truthy(selectedItemId) {
        FindByIdHasId(filteredData, selectedItemId.value);
      }
      if Truthy(selectedItemId) && FindById(filteredData, selectedItemId.value).None? {
        if |filteredData| > 0 {
          selectedItemId := Some(filteredData[0].id);
          LoadChartData(filteredData[0].name);
        } else {
          selectedItemId := None;
          ClearChart();
        }
      } else if !Truthy(selectedItemId) && |filteredData| > 0 {
        selectedItemId := Some(filteredData[0].id);
        LoadChartData(filteredData[0].name);
      }
    }

    /** `clearSearch`: empties the box, lists the whole catalog and selects its first entry. */
    method ClearSearch()
      requires Valid()
      modifies this`value, this`filteredData, this`selectedItemId, this`selectedFeatureData
      ensures Valid()
      ensures value == "" && filteredData == data
      ensures |data| > 0 ==>
        selectedItemId == Some(data[0].id)
        && selectedFeatureData == SortedByDate(FeatureRecords(records, data[0].name))
      ensures |data| == 0 ==>
        selectedItemId == old(selectedItemId) && selectedFeatureData == old(selectedFeatureData)
    {
      value := "";
      filteredData := data;
      SubsequenceRefl(data);
      if |filteredData| > 0 {
        selectedItemId := Some(filteredData[0].id);
        LoadChartData(filteredData[0].name);
      }
    }

    /** The chart's click handler: only a click on an anomalous point, which is exactly a
        visible one, opens the details; the result is the news key requested, if any. */
    method OnChartClick(elements: seq<int>) returns (newsKey: Option<string>)
      requires Valid()
      requires forall k :: 0 <= k < |elements| ==> 0 <= elements[k] < |selectedFeatureData|
      modifies this`analyzedPeriodData, this`isLoadingNews, this`selectedAnomalyData,
        this`showAnomalyDetails
      ensures Valid()
      ensures newsKey.Some? <==> |elements| > 0 && IsAnomalous(selectedFeatureData[elements[0]])
      ensures newsKey.Some? <==>
        |elements| > 0 && ChartPoints(selectedFeatureData)[elements[0]].radius > 0
      ensures newsKey.Some? ==>
        var clicked := selectedFeatureData[elements[0]];
        newsKey.value == DateKey(clicked.dateOfUse)
        && analyzedPeriodData == PeriodOf(FeatureRecords(records, clicked.feature))
        && selectedAnomalyData == Some(clicked) && showAnomalyDetails && isLoadingNews
      ensures newsKey.None? ==>
        analyzedPeriodData == old(analyzedPeriodData) && isLoadingNews == old(isLoadingNews)
        && selectedAnomalyData == old(selectedAnomalyData)
        && showAnomalyDetails == old(showAnomalyDetails)
    {
      newsKey := None;
      if |elements| > 0 {
        var dataIndex := elements[0];
        var clickedData := selectedFeatureData[dataIndex];
        if IsAnomalous(clickedData) {
          var key := OnPointClick(clickedData);
          newsKey := Some(key);
        }
      }
    }

    /** `onPointClick`: fills the details panel for the clicked row and starts the news
        request for its date. */
    method OnPointClick(clickedData: Record) returns (newsKey: string)
      requires Valid()
      modifies this`analyzedPeriodData, this`isLoadingNews, this`selectedAnomalyData,
        this`showAnomalyDetails
      ensures Valid()
      ensures analyzedPeriodData == PeriodOf(FeatureRecords(records, clickedData.feature))
      ensures newsKey == DateKey(clickedData.dateOfUse) && isLoadingNews
      ensures selectedAnomalyData == Some(clickedData) && showAnomalyDetails
    {
      CalculateAnalyzedPeriod(clickedData.feature);
      newsKey := FetchNewsData(clickedData.dateOfUse);
      selectedAnomalyData := Some(clickedData);
      showAnomalyDetails := true;
    }

    /** `onCloseAnomalyDetails`: hides and empties the panel. */
    method OnCloseAnomalyDetails()
      requires Valid()
      modifies this`showAnomalyDetails, this`selectedAnomalyData, this`analyzedPeriodData
      ensures Valid()
      ensures !showAnomalyDetails && selectedAnomalyData == None && analyzedPeriodData == None
    {
      showAnomalyDetails := false;
      selectedAnomalyData := None;
      analyzedPeriodData := None;
    }

    /** The synchronous part of `fetchNewsData`: marks the request as loading and gives
        the key the lookup is called with. */
    method FetchNewsData(dateString: string) returns (formattedDate: string)
      requires Valid()
      modifies this`isLoadingNews
      ensures Valid()
      ensures isLoadingNews && formattedDate == DateKey(dateString)
    {
      isLoadingNews := true;
      formattedDate := DateKey(dateString);
    }

    /** `calculateAnalyzedPeriod`: sorts the feature's rows by date in place and reads the
        period off the sorted array; a feature without rows gets no period. */
    method CalculateAnalyzedPeriod(featureName: string)
      requires Valid()
      modifies this`analyzedPeriodData
      ensures Valid()
      ensures analyzedPeriodData == PeriodOf(FeatureRecords(records, featureName))
    {
      var featureData := FeatureRecords(records, featureName);
      if |featureData| == 0 {
        analyzedPeriodData := None;
        return;
      }
      var sortedData := new Record[|featureData|](k requires 0 <= k < |featureData| => featureData[k]);
      assert sortedData[..] == featureData;
      SortByDate(sortedData);
      var startDate := sortedData[0];
      var endDate := sortedData[sortedData.Length - 1];
      PeriodOfEnds(featureData, startDate, endDate);
      var diffDays := Abs(endDate.day - startDate.day);
      var anomalyPoints := CountAnomalies(sortedData[..]);
      analyzedPeriodData := Some(AnalyzedPeriod(
        startDate.dateOfUse, endDate.dateOfUse, DurationLabel(diffDays), sortedData.Length, anomalyPoints));
    }

    /** The `forEach` callback of `createMiniCharts` for one entry: the entry's rows in
        date order and, when there are any, its sparkline. */
    method MiniChartFor(item: FeatureSummary) returns (drawn: seq<MiniChart>)
      ensures drawn == if |FeatureRecords(records, item.name)| > 0 then [ChartOf(records, item)] else []
    {
      var sortedData := SortedFeatureRecords(records, item.name);
      assert |sortedData| == |FeatureRecords(records, item.name)|;
      drawn := [];
      if |sortedData| > 0 {
        drawn := [MiniChart(item.id, SparklineValues(sortedData))];
      }
    }

    /** `createMiniCharts`: one sparkline per listed entry that has rows. */
    method CreateMiniCharts() returns (charts: seq<MiniChart>)
      ensures charts == MiniChartsOf(records, filteredData)
    {
      var items := filteredData;
      charts := [];
      for i := 0 to |items|
        invariant charts == MiniChartsOf(records, items[..i])
      {
        var drawn := MiniChartFor(items[i]);
        MiniChartsStep(records, items, i);
        charts := charts + drawn;
      }
      assert items[..|items|] == items;
    }
  }
}
