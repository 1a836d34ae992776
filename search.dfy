/** The sidebar search and what it does to the selected feature. */
module Search {
  import opened Records
  import opened Text
  import opened Catalog

  /** An entry matches when its lower-cased name contains the search term. */
  predicate Matches(item: FeatureSummary, term: string)
    ensures term == "" ==> Matches(item, term)
    ensures Matches(item, term) ==> |term| <= |item.name|
  {
    assert term == "" ==> OccursAt(ToLower(item.name), term, 0);
    Contains(ToLower(item.name), term)
  }

  /** `items.filter(item => item.name.toLowerCase().includes(term))`. */
  function Matching(items: seq<FeatureSummary>, term: string): (r: seq<FeatureSummary>)
    ensures |r| <= |items|
    ensures forall x :: x in r ==> x in items && Matches(x, term)
  {
    if |items| == 0 then []
    else (if Matches(items[0], term) then [items[0]] else []) + Matching(items[1..], term)
  }

  /** `a` is `b` with some entries dropped and the rest in their order. */
  ghost predicate IsSubsequence(a: seq<FeatureSummary>, b: seq<FeatureSummary>)
    decreases |b|
  {
    if |a| == 0 then true
    else if |b| == 0 then false
    else (a[0] == b[0] && IsSubsequence(a[1..], b[1..])) || IsSubsequence(a, b[1..])
  }

  lemma {:induction false} SubsequenceRefl(a: seq<FeatureSummary>)
    ensures IsSubsequence(a, a)
  {
    if |a| > 0 {
      SubsequenceRefl(a[1..]);
    }
  }

  lemma {:induction false} SubsequenceMembers(a: seq<FeatureSummary>, b: seq<FeatureSummary>)
    requires IsSubsequence(a, b)
    ensures forall x :: x in a ==> x in b
    decreases |b|
  {
    if |a| > 0 {
      if a[0] == b[0] && IsSubsequence(a[1..], b[1..]) {
        SubsequenceMembers(a[1..], b[1..]);
        assert forall x :: x in a ==> x == a[0] || x in a[1..];
      } else {
        SubsequenceMembers(a, b[1..]);
      }
    }
  }

  /** Filtering keeps the catalog order and drops entries only. */
  lemma {:induction false} MatchingIsSubsequence(items: seq<FeatureSummary>, term: string)
    ensures IsSubsequence(Matching(items, term), items)
  {
    if |items| > 0 {
      MatchingIsSubsequence(items[1..], term);
      var rest := Matching(items[1..], term);
      if Matches(items[0], term) {
        assert Matching(items, term) == [items[0]] + rest;
        assert ([items[0]] + rest)[1..] == rest;
      } else {
        assert Matching(items, term) == rest;
        if |rest| > 0 {
          assert IsSubsequence(rest, items[1..]);
        }
      }
    }
  }

  /** The filter keeps exactly the entries that match. */
  lemma {:induction false} MatchingMembers(items: seq<FeatureSummary>, term: string)
    ensures forall x :: x in Matching(items, term) <==> x in items && Matches(x, term)
  {
    if |items| > 0 {
      MatchingMembers(items[1..], term);
      assert forall x :: x in items <==> x == items[0] || x in items[1..];
    }
  }

  /** `onSearchChange`'s new list: the whole catalog for an empty or blank query,
      otherwise the entries matching the lower-cased, trimmed query. */
  function SearchResult(catalog: seq<FeatureSummary>, value: string): (r: seq<FeatureSummary>)
    ensures |r| <= |catalog|
    ensures forall x :: x in r ==> x in catalog
  {
    if value == "" || Trim(value) == "" then catalog
    else Matching(catalog, Trim(ToLower(value)))
  }

  /** A query made only of whitespace, or nothing, leaves the list as the full catalog. */
  lemma SearchBlank(catalog: seq<FeatureSummary>, value: string)
    requires forall i :: 0 <= i < |value| ==> IsWhitespace(value[i])
    ensures SearchResult(catalog, value) == catalog
  {
    TrimEmptyIffBlank(value);
  }

  /** Searching keeps the catalog order and only drops entries. */
  lemma SearchKeepsOrder(catalog: seq<FeatureSummary>, value: string)
    ensures IsSubsequence(SearchResult(catalog, value), catalog)
  {
    if value == "" || Trim(value) == "" {
      SubsequenceRefl(catalog);
    } else {
      MatchingIsSubsequence(catalog, Trim(ToLower(value)));
    }
  }

  /** Any other query keeps exactly the entries whose lower-cased name contains the
      lower-cased, trimmed query. */
  lemma SearchMembers(catalog: seq<FeatureSummary>, value: string)
    requires 0 < |Trim(value)|
    ensures forall x :: x in SearchResult(catalog, value) <==>
      x in catalog && Contains(ToLower(x.name), ToLower(Trim(value)))
  {
    TrimToLower(value);
    MatchingMembers(catalog, Trim(ToLower(value)));
  }

  /** JavaScript truthiness of `selectedItemId: number | null`: null and 0 are false. */
  predicate Truthy(sel: Option<int>)
    ensures Truthy(sel) <==> sel != None && sel != Some(0)
  {
    sel.Some? && sel.value != 0
  }

  /** Some entry of `items` has id `id`. */
  predicate HasId(items: seq<FeatureSummary>, id: int) {
    exists k :: 0 <= k < |items| && items[k].id == id
  }

  /** The lookup `find(item => item.id === id)` fails exactly when no entry has that id. */
  lemma FindByIdHasId(items: seq<FeatureSummary>, id: int)
    ensures FindById(items, id).None? <==> !HasId(items, id)
  {
    if !HasId(items, id) {
      forall x | x in items ensures x.id != id {
        var k :| 0 <= k < |items| && items[k] == x;
      }
    }
  }

  /** The selection after the list changed to `filtered`: a selection no longer listed
      moves to the first listed entry, or to null when the list is empty; with no
      selection, the first listed entry is selected. */
  function RepairSelection(sel: Option<int>, filtered: seq<FeatureSummary>): (r: Option<int>)
    ensures Truthy(r) ==> HasId(filtered, r.value)
    ensures |filtered| > 0 ==> r.Some? && HasId(filtered, r.value)
    ensures Truthy(sel) && HasId(filtered, sel.value) ==> r == sel
    ensures |filtered| == 0 ==> r == if Truthy(sel) then None else sel
    ensures r != sel ==> r == None || r == Some(filtered[0].id)
    ensures (sel.None? || sel.value != 0) && r.Some? ==> HasId(filtered, r.value)
  {
    if Truthy(sel) && !HasId(filtered, sel.value) then
      if |filtered| > 0 then Some(filtered[0].id) else None
    else if !Truthy(sel) && |filtered| > 0 then Some(filtered[0].id)
    else sel
  }

  /** `selectItem`'s toggle: choosing the selected entry clears the selection, choosing
      any other selects it. */
  function Toggle(sel: Option<int>, itemId: int): (r: Option<int>)
    ensures r == None <==> sel == Some(itemId)
    ensures r.Some? ==> r.value == itemId
  {
    if sel == Some(itemId) then None else Some(itemId)
  }

  /** Choosing the same entry twice restores the selection exactly when it was empty or
      already that entry. */
  lemma ToggleTwice(sel: Option<int>, itemId: int)
    ensures Toggle(Toggle(sel, itemId), itemId) == sel <==> sel == None || sel == Some(itemId)
  {
  }

  /** Catalog ids start at 1, so for them truthiness is just being non-null. */
  lemma CatalogIdsTruthy(data: seq<Record>, k: int)
    requires 0 <= k < |BuildCatalog(data)|
    ensures Truthy(Some(BuildCatalog(data)[k].id))
  {
    CatalogEntries(data);
  }
}
