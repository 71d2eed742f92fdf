/**
  * The paging scenarios of the proxy examples, over a scope of three records with ids 1, 2, 3,
  * where the filter rejects the middle record and the transform maps every record to one value.
  */
module ProxyScenarios {
  import opened Wrappers
  import opened OrderedSource
  import opened PageToken
  import opened Pages
  import opened Proxies

  const Ids: seq<int> := [1, 2, 3]

  /** The filter of the examples: everything but the middle record. */
  function NotMiddle(x: int): bool {
    x != 2
  }

  /** The transform of the examples: every record becomes the same value. */
  function Transformed(x: int): int {
    0
  }

  /** `per_page: 1` holds the first record and more follow; `per_page` of the whole scope holds it all. */
  lemma BasePages()
    ensures BasePage(Ids, None, 1) == Page([1], true, Some(1), 1)
    ensures BasePage(Ids, None, 3) == Page(Ids, false, None, 1)
  {
  }

  /** Filtering with `per_page: 6`: the first and last record, and no next page. */
  lemma FilterExcludesMiddle()
    ensures AsyncPage(Ids, NotMiddle, 6, None) == Page([1, 3], false, None, 1)
  {
    assert After(Ids, None) == [1, 2, 3];
    assert Keep(NotMiddle, [1, 2, 3]) == [1, 3];
  }

  /** Filtering with `per_page: 1`: the first record, then from its bookmark the last one. */
  lemma FilterRepeatsSubpager()
    ensures AsyncPage(Ids, NotMiddle, 1, None) == Page([1], true, Some(1), 1)
    ensures AsyncPage(Ids, NotMiddle, 1, PageToBookmark(Text(BookmarkToPage(1)))) == Page([3], false, None, 2)
  {
    assert Keep(NotMiddle, [1]) == [1];
    PageRoundTrip(1);
    assert After(Ids, Some(1)) == [2, 3];
    assert Keep(NotMiddle, [2]) == [];
    assert After(Ids, Some(2)) == [3];
    assert Keep(NotMiddle, [3]) == [3];
  }

  /** Filtering with `per_page: 2`: the page ends exactly at the end of the scope, so no next page. */
  lemma FilterBoundary()
    ensures AsyncPage(Ids, NotMiddle, 2, None) == Page([1, 3], false, None, 2)
  {
    assert Ids[..2] == [1, 2];
    assert Keep(NotMiddle, [1, 2]) == [1];
    assert After(Ids, Some(2)) == [3];
    assert Keep(NotMiddle, [3]) == [3];
  }

  /** After a forced `has_more!` on the full page, the page from its last record is empty and final. */
  lemma FilterEmptyLastPage()
    ensures LastOf(AsyncPage(Ids, NotMiddle, 6, None).items) == Some(3)
    ensures AsyncPage(Ids, NotMiddle, 6, Some(3)) == Page([], false, None, 1)
    ensures LastOf(SyncPage(Ids, NotMiddle, 6, None).items) == Some(3)
    ensures SyncPage(Ids, NotMiddle, 6, Some(3)) == Page([], false, None, 1)
  {
    FilterExcludesMiddle();
    SyncExcludesMiddle();
    assert After(Ids, Some(3)) == [];
  }

  /** A filter that rejects everything ends with an empty page after exactly two executions. */
  lemma FilterRejectsAll()
    ensures AsyncPage(Ids, x => false, 1, None) == Page([], false, None, 2)
  {
    var none: int -> bool := x => false;
    assert Keep(none, [1]) == [];
    assert After(Ids, Some(1)) == [2, 3];
    assert Keep(none, [2, 3]) == [];
  }

  /** Sync filtering with `per_page: 6`: the survivors of the one inner page. */
  lemma SyncExcludesMiddle()
    ensures SyncPage(Ids, NotMiddle, 6, None) == Page([1, 3], false, None, 1)
  {
    assert Keep(NotMiddle, [1, 2, 3]) == [1, 3];
  }

  /** Sync filtering with `per_page: 1`: an inner page without survivors is skipped. */
  lemma SyncRepeatsSubpager()
    ensures SyncPage(Ids, NotMiddle, 1, None) == Page([1], true, Some(1), 1)
    ensures SyncPage(Ids, NotMiddle, 1, Some(1)) == Page([3], false, None, 2)
  {
    assert Keep(NotMiddle, [1]) == [1];
    assert After(Ids, Some(1)) == [2, 3];
    assert Keep(NotMiddle, [2]) == [];
    assert After(Ids, Some(2)) == [3];
    assert Keep(NotMiddle, [3]) == [3];
  }

  /** Sync filtering with `per_page: 2`: one survivor of the first inner page, then the last record. */
  lemma SyncFilteredSubset()
    ensures SyncPage(Ids, NotMiddle, 2, None) == Page([1], true, Some(2), 1)
    ensures SyncPage(Ids, NotMiddle, 2, Some(2)) == Page([3], false, None, 1)
  {
    assert Ids[..2] == [1, 2];
    assert Keep(NotMiddle, [1, 2]) == [1];
    assert After(Ids, Some(2)) == [3];
    assert Keep(NotMiddle, [3]) == [3];
  }

  /** Transforming: three mapped records in one page, or one per page over three pages. */
  lemma TransformPages()
    ensures TransformPage(Ids, Transformed, 3, None) == Page([0, 0, 0], false, None, 1)
    ensures TransformPage(Ids, Transformed, 1, None) == Page([0], true, Some(1), 1)
    ensures TransformPage(Ids, Transformed, 1, Some(1)) == Page([0], true, Some(2), 1)
    ensures TransformPage(Ids, Transformed, 1, Some(2)) == Page([0], false, None, 1)
  {
    assert After(Ids, Some(1)) == [2, 3];
    assert After(Ids, Some(2)) == [3];
  }

  /** Paging through the filtered scope one record at a time sees the first and last record. */
  lemma FilterWalk()
    ensures Walk(Filtered(NotMiddle, false), Ids, Absent, 1) == [1, 3]
  {
    assert Ascending(Ids);
    WalkVisitsAll(Filtered(NotMiddle, false), Ids, 1);
    KeepNotMiddle();
  }

  /** The same walk with `sync: true`. */
  lemma SyncFilterWalk()
    ensures Walk(Filtered(NotMiddle, true), Ids, Absent, 1) == [1, 3]
  {
    assert Ascending(Ids);
    WalkVisitsAll(Filtered(NotMiddle, true), Ids, 1);
    KeepNotMiddle();
  }

  lemma KeepNotMiddle()
    ensures Keep(NotMiddle, Ids) == [1, 3]
  {
    assert Keep(NotMiddle, [3]) == [3];
    assert Keep(NotMiddle, [2, 3]) == [3];
  }

  /** `paginate` without `per_page` fails instead of returning a page. */
  method PaginateWithoutPerPage() returns (failed: bool)
    ensures failed
  {
    var scope := new BaseCollection(Ids);
    var r := scope.Paginate(PaginateOptions(Absent, None, None));
    failed := r.Failure?;
  }

  /** A caller's `total_entries` does not reach the page. */
  method PaginateIgnoresTotalEntries() returns (total: Option<int>)
    ensures total == None
  {
    var scope := new BaseCollection(Ids);
    var r := scope.Paginate(PaginateOptions(Absent, Some(5), Some(10)));
    total := if r.Success? then r.value.totalEntries else Some(0);
  }

  /** Only a `bookmark:` token that decodes sets the current bookmark. */
  method PaginateCurrentBookmarks() returns (plain: Option<int>, malformed: Option<int>, encoded: Option<int>)
    ensures plain == None && malformed == None && encoded == Some(1)
  {
    var scope := new BaseCollection(Ids);
    var r1 := scope.Paginate(PaginateOptions(Number(1), Some(5), None));
    var r2 := scope.Paginate(PaginateOptions(Text("bookmark:W1td"), Some(5), None));
    var r3 := scope.Paginate(PaginateOptions(Text(BookmarkToPage(1)), Some(5), None));
    NumberIsNoBookmark(1);
    MalformedPayloadIsNoBookmark();
    PageRoundTrip(1);
    plain := if r1.Success? then r1.value.currentBookmark else Some(0);
    malformed := if r2.Success? then r2.value.currentBookmark else Some(0);
    encoded := if r3.Success? then r3.value.currentBookmark else None;
  }

  /** Filtering everything out executes the wrapped scope exactly twice and yields an empty page. */
  method PaginateRejectingAll() returns (items: seq<int>, executions: nat)
    ensures items == [] && executions == 2
  {
    var scope := new BaseCollection(Ids);
    var filtered := new FilterCollection(scope, x => false, false);
    var r;
    r, executions := filtered.Paginate(PaginateOptions(Absent, Some(1), None));
    FilterRejectsAll();
    items := if r.Success? then r.value.items else [0];
  }

  /** The filter with `per_page: 1`, resumed from the first page's `next_page`. */
  method PaginateFilteredTwice() returns (first: seq<int>, second: seq<int>, last: Option<int>)
    ensures first == [1] && second == [3] && last == None
  {
    var scope := new BaseCollection(Ids);
    var filtered := new FilterCollection(scope, NotMiddle, false);
    var r, _ := filtered.Paginate(PaginateOptions(Absent, Some(1), None));
    FilterRepeatsSubpager();
    if r.Failure? {
      return [], [], Some(0);
    }
    first := r.value.items;
    var token := r.value.NextPage();
    var r2, _ := filtered.Paginate(PaginateOptions(token, Some(1), None));
    if r2.Failure? {
      return [], [], Some(0);
    }
    second := r2.value.items;
    last := r2.value.nextBookmark;
  }
}
