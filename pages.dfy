/**
  * What one `paginate` call returns, as a function of the source, the current bookmark and
  * `per_page`, for the base proxy and for each wrapper; and what a client gets by following
  * `next_page` until there is none.
  */
module Pages {
  import opened Wrappers
  import opened OrderedSource
  import opened PageToken

  /** One execution of the wrapped scope: up to `n` items after `b`, and whether more follow. */
  datatype Fetched = Fetched(items: seq<int>, more: bool)

  /** The fetch callback of a wrapped scope ordered by id. */
  function Fetch(s: seq<int>, b: Option<int>, n: nat): (r: Fetched)
    requires n > 0
  {
    var rest := After(s, b);
    if |rest| > n then Fetched(rest[..n], true) else Fetched(rest, false)
  }

  /** The final state of a pager: its items, `has_more`, `next_bookmark`, and how many fetches it took. */
  datatype Page = Page(items: seq<int>, more: bool, next: Option<int>, executions: nat)

  /** What `has_more!` records as `next_bookmark`: the bookmark of the last item. */
  function LastOf(xs: seq<int>): (r: Option<int>)
    ensures r.Some? <==> xs != []
    ensures r.Some? ==> r.value == xs[|xs| - 1]
  {
    if xs == [] then None else Some(xs[|xs| - 1])
  }

  /** The base proxy: one execution of the fetch, then `has_more!` if the source has more. */
  function BasePage(s: seq<int>, b: Option<int>, n: nat): (p: Page)
    requires n > 0
    ensures p.executions == 1
    ensures |p.items| <= n && |p.items| <= |After(s, b)| && p.items == After(s, b)[..|p.items|]
    ensures p.more <==> |After(s, b)| > n
    ensures p.next.Some? <==> p.more
    ensures p.next.Some? ==> p.next.value in After(s, b)
    ensures p.more ==> |p.items| == n && p.next == LastOf(p.items)
    ensures !p.more ==> p.items == After(s, b)
  {
    var f := Fetch(s, b, n);
    Page(f.items, f.more, if f.more then LastOf(f.items) else None, 1)
  }

  /**
    * The filter wrapper in its default mode: rounds of inner fetches starting at `b`, each
    * asking for twice as many items as the one before, adding the survivors to `acc` until the
    * page is full or the inner collection is exhausted. Survivors beyond `n` are cut off, which
    * leaves more to come.
    */
  function AsyncLoop(s: seq<int>, keep: int -> bool, n: nat, b: Option<int>, request: nat, acc: seq<int>, runs: nat): (p: Page)
    requires 0 < n <= request && |acc| < n
    ensures p.executions > runs
    ensures p.next.Some? <==> p.more
    decreases |After(s, b)|
  {
    var f := Fetch(s, b, request);
    var got := acc + Keep(keep, f.items);
    if |got| < n && f.more then
      var last := f.items[|f.items| - 1];
      assert last in After(s, b);
      AfterShrinks(s, b, last);
      AsyncLoop(s, keep, n, Some(last), 2 * request, got, runs + 1)
    else
      var items := if |got| > n then got[..n] else got;
      var more := |got| > n || f.more;
      Page(items, more, if more then LastOf(items) else None, runs + 1)
  }

  /** A round that leaves the page short is followed by the next round, from the last item fetched. */
  lemma {:induction false} AsyncContinues(s: seq<int>, keep: int -> bool, n: nat, b: Option<int>, request: nat, acc: seq<int>, runs: nat)
    requires 0 < n <= request && |acc| < n
    requires var f := Fetch(s, b, request); |acc + Keep(keep, f.items)| < n && f.more
    ensures var f := Fetch(s, b, request);
      AsyncLoop(s, keep, n, b, request, acc, runs) ==
      AsyncLoop(s, keep, n, Some(f.items[|f.items| - 1]), 2 * request, acc + Keep(keep, f.items), runs + 1)
  {
  }

  function AsyncPage(s: seq<int>, keep: int -> bool, n: nat, b: Option<int>): Page
    requires n > 0
  {
    AsyncLoop(s, keep, n, b, n, [], 0)
  }

  /**
    * The filter wrapper with `sync: true`: the survivors of one inner page of `n` items, with the
    * inner page's `next_bookmark`; an inner page with no survivors is skipped over.
    */
  function SyncLoop(s: seq<int>, keep: int -> bool, n: nat, b: Option<int>, runs: nat): (p: Page)
    requires n > 0
    ensures p.executions > runs
    ensures p.next.Some? <==> p.more
    decreases |After(s, b)|
  {
    var f := Fetch(s, b, n);
    var kept := Keep(keep, f.items);
    if kept == [] && f.more then
      var last := f.items[|f.items| - 1];
      assert last in After(s, b);
      AfterShrinks(s, b, last);
      SyncLoop(s, keep, n, Some(last), runs + 1)
    else
      Page(kept, f.more, if f.more then LastOf(f.items) else None, runs + 1)
  }

  function SyncPage(s: seq<int>, keep: int -> bool, n: nat, b: Option<int>): Page
    requires n > 0
  {
    SyncLoop(s, keep, n, b, 0)
  }

  /** The transform wrapper: the base page with every item mapped; bookmarks untouched. */
  function TransformPage(s: seq<int>, f: int -> int, n: nat, b: Option<int>): (p: Page)
    requires n > 0
    ensures var base := BasePage(s, b, n);
      p.more == base.more && p.next == base.next && p.executions == base.executions &&
      |p.items| == |base.items| && forall i :: 0 <= i < |p.items| ==> p.items[i] == f(base.items[i])
  {
    var base := BasePage(s, b, n);
    base.(items := MapAll(f, base.items))
  }

  /** A collection: the wrapped scope itself, or one wrapper around it. */
  datatype Mode = Plain | Filtered(keep: int -> bool, sync: bool) | Transformed(f: int -> int)

  function PageFor(mode: Mode, s: seq<int>, b: Option<int>, n: nat): Page
    requires n > 0
  {
    match mode
    case Plain => BasePage(s, b, n)
    case Filtered(keep, sync) => if sync then SyncPage(s, keep, n, b) else AsyncPage(s, keep, n, b)
    case Transformed(f) => TransformPage(s, f, n, b)
  }

  /** Everything a collection holds over the items `rest`. */
  function View(mode: Mode, rest: seq<int>): seq<int> {
    match mode
    case Plain => rest
    case Filtered(keep, _) => Keep(keep, rest)
    case Transformed(f) => MapAll(f, rest)
  }

  /** `x` is an item of the source past the bookmark `b`. */
  predicate Beyond(s: seq<int>, b: Option<int>, x: int) {
    x in s && (b.None? || x > b.value)
  }

  lemma {:induction false} BeyondAfter(s: seq<int>, b: Option<int>, x: int)
    ensures Beyond(s, b, x) <==> x in After(s, b)
  {
    AfterMembers(s, b);
  }

  /** The filter's `next_bookmark` is an item of the range it paged through. */
  lemma {:induction false} AsyncNextInRange(s: seq<int>, keep: int -> bool, n: nat, b: Option<int>, request: nat, acc: seq<int>, runs: nat)
    requires 0 < n <= request && |acc| < n
    ensures var p := AsyncLoop(s, keep, n, b, request, acc, runs);
      p.next.Some? ==> Beyond(s, b, p.next.value)
    decreases |After(s, b)|, 1
  {
    var f := Fetch(s, b, request);
    if |acc + Keep(keep, f.items)| < n && f.more {
      AsyncNextAfterRound(s, keep, n, b, request, acc, runs);
    } else {
      AsyncLastInRange(s, keep, n, b, request, acc, runs);
    }
  }

  lemma {:induction false} AsyncNextAfterRound(s: seq<int>, keep: int -> bool, n: nat, b: Option<int>, request: nat, acc: seq<int>, runs: nat)
    requires 0 < n <= request && |acc| < n
    requires var f := Fetch(s, b, request); |acc + Keep(keep, f.items)| < n && f.more
    ensures var p := AsyncLoop(s, keep, n, b, request, acc, runs);
      p.next.Some? ==> Beyond(s, b, p.next.value)
    decreases |After(s, b)|, 0
  {
    var f := Fetch(s, b, request);
    var got := acc + Keep(keep, f.items);
    var last := f.items[|f.items| - 1];
    assert last == After(s, b)[request - 1];
    BeyondAfter(s, b, last);
    AfterShrinks(s, b, last);
    AsyncContinues(s, keep, n, b, request, acc, runs);
    AsyncNextInRange(s, keep, n, Some(last), 2 * request, got, runs + 1);
    var p := AsyncLoop(s, keep, n, Some(last), 2 * request, got, runs + 1);
    assert p == AsyncLoop(s, keep, n, b, request, acc, runs);
    assert p.next.Some? ==> Beyond(s, Some(last), p.next.value);
  }

  lemma {:induction false} AsyncLastInRange(s: seq<int>, keep: int -> bool, n: nat, b: Option<int>, request: nat, acc: seq<int>, runs: nat)
    requires 0 < n <= request && |acc| < n
    requires var f := Fetch(s, b, request); |acc + Keep(keep, f.items)| >= n || !f.more
    ensures var p := AsyncLoop(s, keep, n, b, request, acc, runs);
      p.next.Some? ==> Beyond(s, b, p.next.value)
  {
    var f := Fetch(s, b, request);
    var got := acc + Keep(keep, f.items);
    if |got| >= n {
      KeepMembers(keep, f.items);
      assert got[n - 1] == Keep(keep, f.items)[n - 1 - |acc|];
      assert got[n - 1] in f.items;
      BeyondAfter(s, b, got[n - 1]);
    }
  }

  lemma {:induction false} SyncNextInRange(s: seq<int>, keep: int -> bool, n: nat, b: Option<int>, runs: nat)
    requires n > 0
    ensures var p := SyncLoop(s, keep, n, b, runs);
      p.next.Some? ==> Beyond(s, b, p.next.value)
    decreases |After(s, b)|
  {
    var f := Fetch(s, b, n);
    if f.more {
      var last := f.items[|f.items| - 1];
      assert last == After(s, b)[n - 1];
      BeyondAfter(s, b, last);
      if Keep(keep, f.items) == [] {
        AfterShrinks(s, b, last);
        SyncNextInRange(s, keep, n, Some(last), runs + 1);
      }
    }
  }

  /** Every collection's `next_bookmark` lies in the range the page was taken from. */
  lemma {:induction false} NextInRange(mode: Mode, s: seq<int>, b: Option<int>, n: nat)
    requires n > 0
    ensures var p := PageFor(mode, s, b, n);
      p.next.Some? ==> p.next.value in After(s, b)
  {
    var p := PageFor(mode, s, b, n);
    match mode
    case Plain =>
    case Filtered(keep, sync) =>
      if sync { SyncNextInRange(s, keep, n, b, 0); } else { AsyncNextInRange(s, keep, n, b, n, [], 0); }
      if p.next.Some? {
        BeyondAfter(s, b, p.next.value);
      }
    case Transformed(_) =>
  }

  /**
    * A client paging through a collection: request `page`, then the returned `next_page`,
    * until a page comes back without a `next_bookmark`; the items of all pages in order.
    */
  function Walk(mode: Mode, s: seq<int>, page: PageParam, n: nat): seq<int>
    requires n > 0
    decreases |After(s, PageToBookmark(page))|
  {
    var b := PageToBookmark(page);
    var p := PageFor(mode, s, b, n);
    if p.next.None? then p.items
    else
      NextInRange(mode, s, b, n);
      PageRoundTrip(p.next.value);
      AfterShrinks(s, b, p.next.value);
      p.items + Walk(mode, s, Text(BookmarkToPage(p.next.value)), n)
  }

  /** One base page: either everything left, or a prefix whose continuation is the rest. */
  lemma {:induction false} BaseStep(s: seq<int>, b: Option<int>, n: nat)
    requires Ascending(s) && n > 0
    ensures var p := BasePage(s, b, n);
      (p.next.None? ==> p.items == After(s, b)) &&
      (p.next.Some? ==> p.items + After(s, p.next) == After(s, b))
  {
    var rest := After(s, b);
    if |rest| > n {
      var p := BasePage(s, b, n);
      assert p.items == rest[..n] && p.next == Some(rest[n - 1]);
      AfterAt(s, b, n);
      assert rest[..n] + rest[n..] == rest;
    }
  }

  /** When an inner page has more behind it, its survivors and those after its last item are all survivors. */
  lemma {:induction false} FetchSplit(s: seq<int>, keep: int -> bool, b: Option<int>, request: nat)
    requires Ascending(s) && request > 0 && Fetch(s, b, request).more
    ensures var f := Fetch(s, b, request);
      Keep(keep, After(s, b)) == Keep(keep, f.items) + Keep(keep, After(s, Some(f.items[|f.items| - 1])))
  {
    var rest := After(s, b);
    var f := Fetch(s, b, request);
    var r := |f.items|;
    AfterAt(s, b, r);
    assert rest == f.items + rest[r..];
    KeepConcat(keep, f.items, rest[r..]);
  }

  /** A full page cut from a prefix of the survivors resumes exactly after its n-th survivor. */
  lemma {:induction false} FullPageResumes(s: seq<int>, keep: int -> bool, n: nat, b: Option<int>, acc: seq<int>)
    requires Ascending(s) && |acc| < n <= |acc| + |Keep(keep, After(s, b))|
    ensures var all := acc + Keep(keep, After(s, b));
      all[..n] + Keep(keep, After(s, Some(all[n - 1]))) == all
  {
    var xs := Keep(keep, After(s, b));
    var all := acc + xs;
    var k := n - |acc|;
    assert all[n - 1] == xs[k - 1];
    KeepAfterAt(keep, s, b, k);
    assert all[..n] + xs[k..] == all;
  }

  /**
    * A page of at most `n` items cut from the front of `all`: the whole of it when there is no
    * next bookmark, otherwise `n` items followed by exactly the survivors after that bookmark.
    */
  ghost predicate Resumes(s: seq<int>, keep: int -> bool, n: nat, p: Page, all: seq<int>) {
    |p.items| <= n &&
    (p.next.None? ==> p.items == all) &&
    (p.next.Some? ==> |p.items| == n && p.items + Keep(keep, After(s, p.next)) == all)
  }

  /** Invariant of the filter rounds: the page plus what follows its bookmark is all survivors. */
  lemma {:induction false} AsyncStep(s: seq<int>, keep: int -> bool, n: nat, b: Option<int>, request: nat, acc: seq<int>, runs: nat)
    requires Ascending(s) && 0 < n <= request && |acc| < n
    ensures var p := AsyncLoop(s, keep, n, b, request, acc, runs);
      Resumes(s, keep, n, p, acc + Keep(keep, After(s, b)))
    decreases |After(s, b)|, 1
  {
    var f := Fetch(s, b, request);
    if |acc + Keep(keep, f.items)| < n && f.more {
      AsyncStepRound(s, keep, n, b, request, acc, runs);
    } else if f.more {
      AsyncStopFull(s, keep, n, b, request, acc, runs);
    } else {
      AsyncStopExhausted(s, keep, n, b, request, acc, runs);
    }
  }

  /** A round that leaves the page short hands on to the next round without losing a survivor. */
  lemma {:induction false} AsyncStepRound(s: seq<int>, keep: int -> bool, n: nat, b: Option<int>, request: nat, acc: seq<int>, runs: nat)
    requires Ascending(s) && 0 < n <= request && |acc| < n
    requires var f := Fetch(s, b, request); |acc + Keep(keep, f.items)| < n && f.more
    ensures var p := AsyncLoop(s, keep, n, b, request, acc, runs);
      Resumes(s, keep, n, p, acc + Keep(keep, After(s, b)))
    decreases |After(s, b)|, 0
  {
    var f := Fetch(s, b, request);
    var got := acc + Keep(keep, f.items);
    var last := f.items[|f.items| - 1];
    RoundSplit(s, keep, n, b, request, acc);
    AfterShrinks(s, b, last);
    AsyncStep(s, keep, n, Some(last), 2 * request, got, runs + 1);
  }

  /** The survivors still to come after a short round are those after its last item. */
  lemma {:induction false} RoundSplit(s: seq<int>, keep: int -> bool, n: nat, b: Option<int>, request: nat, acc: seq<int>)
    requires Ascending(s) && 0 < request && Fetch(s, b, request).more
    ensures var f := Fetch(s, b, request);
      acc + Keep(keep, After(s, b)) ==
      (acc + Keep(keep, f.items)) + Keep(keep, After(s, Some(f.items[|f.items| - 1])))
  {
    FetchSplit(s, keep, b, request);
  }

  /** The last round filled the page while the inner collection still had more. */
  lemma {:induction false} AsyncStopFull(s: seq<int>, keep: int -> bool, n: nat, b: Option<int>, request: nat, acc: seq<int>, runs: nat)
    requires Ascending(s) && 0 < n <= request && |acc| < n
    requires var f := Fetch(s, b, request); |acc + Keep(keep, f.items)| >= n && f.more
    ensures var p := AsyncLoop(s, keep, n, b, request, acc, runs);
      var all := acc + Keep(keep, After(s, b));
      |p.items| == n && p.next.Some? && p.items + Keep(keep, After(s, p.next)) == all
  {
    var f := Fetch(s, b, request);
    var got := acc + Keep(keep, f.items);
    var all := acc + Keep(keep, After(s, b));
    RoundSplit(s, keep, n, b, request, acc);
    assert got[..n] == all[..n];
    FullPageResumes(s, keep, n, b, acc);
  }

  /** The last round reached the end of the inner collection. */
  lemma {:induction false} AsyncStopExhausted(s: seq<int>, keep: int -> bool, n: nat, b: Option<int>, request: nat, acc: seq<int>, runs: nat)
    requires Ascending(s) && 0 < n <= request && |acc| < n
    requires !Fetch(s, b, request).more
    ensures var p := AsyncLoop(s, keep, n, b, request, acc, runs);
      Resumes(s, keep, n, p, acc + Keep(keep, After(s, b)))
  {
    var f := Fetch(s, b, request);
    var all := acc + Keep(keep, After(s, b));
    assert acc + Keep(keep, f.items) == all;
    if |all| > n {
      FullPageResumes(s, keep, n, b, acc);
    }
  }

  lemma {:induction false} SyncStep(s: seq<int>, keep: int -> bool, n: nat, b: Option<int>, runs: nat)
    requires Ascending(s) && n > 0
    ensures var p := SyncLoop(s, keep, n, b, runs);
      (p.next.None? ==> p.items == Keep(keep, After(s, b))) &&
      (p.next.Some? ==> p.items + Keep(keep, After(s, p.next)) == Keep(keep, After(s, b)))
    decreases |After(s, b)|
  {
    var f := Fetch(s, b, n);
    if f.more {
      var last := f.items[|f.items| - 1];
      FetchSplit(s, keep, b, n);
      if Keep(keep, f.items) == [] {
        AfterShrinks(s, b, last);
        SyncStep(s, keep, n, Some(last), runs + 1);
      }
    }
  }

  /** A transformed page, followed by the mapped rest, is the mapped range. */
  lemma {:induction false} TransformStep(s: seq<int>, f: int -> int, b: Option<int>, n: nat)
    requires Ascending(s) && n > 0
    ensures var p := TransformPage(s, f, n, b);
      (p.next.None? ==> p.items == MapAll(f, After(s, b))) &&
      (p.next.Some? ==> p.items + MapAll(f, After(s, p.next)) == MapAll(f, After(s, b)))
  {
    BaseStep(s, b, n);
    var p := BasePage(s, b, n);
    if p.next.Some? {
      MapConcat(f, p.items, After(s, p.next));
    }
  }

  /** Each page of any collection is followed, through its `next_bookmark`, by exactly the rest. */
  lemma {:induction false} PageStep(mode: Mode, s: seq<int>, b: Option<int>, n: nat)
    requires Ascending(s) && n > 0
    ensures var p := PageFor(mode, s, b, n);
      (p.next.None? ==> p.items == View(mode, After(s, b))) &&
      (p.next.Some? ==> p.items + View(mode, After(s, p.next)) == View(mode, After(s, b)))
  {
    match mode
    case Plain => BaseStep(s, b, n);
    case Filtered(keep, sync) =>
      if sync { SyncStep(s, keep, n, b, 0); } else { AsyncStep(s, keep, n, b, n, [], 0); }
    case Transformed(f) => TransformStep(s, f, b, n);
  }

  /**
    * Exhaustiveness: following `next_page` from any page visits everything after its bookmark
    * exactly once, in source order (filtered or mapped as the collection says).
    */
  lemma {:induction false} WalkVisitsRest(mode: Mode, s: seq<int>, page: PageParam, n: nat)
    requires Ascending(s) && n > 0
    ensures Walk(mode, s, page, n) == View(mode, After(s, PageToBookmark(page)))
    decreases |After(s, PageToBookmark(page))|
  {
    var b := PageToBookmark(page);
    var p := PageFor(mode, s, b, n);
    PageStep(mode, s, b, n);
    if p.next.Some? {
      var t := p.next.value;
      NextInRange(mode, s, b, n);
      PageRoundTrip(t);
      AfterShrinks(s, b, t);
      WalkVisitsRest(mode, s, Text(BookmarkToPage(t)), n);
    }
  }

  /** Starting without a page token, a client sees the whole collection, each item once, in order. */
  lemma {:induction false} WalkVisitsAll(mode: Mode, s: seq<int>, n: nat)
    requires Ascending(s) && n > 0
    ensures Walk(mode, s, Absent, n) == View(mode, s)
    ensures !mode.Transformed? ==> Ascending(Walk(mode, s, Absent, n))
  {
    WalkVisitsRest(mode, s, Absent, n);
    if mode.Filtered? {
      KeepAscending(mode.keep, s);
    }
  }

  /** With the default filter, every page but the last is full. */
  lemma {:induction false} AsyncPagesFull(s: seq<int>, keep: int -> bool, n: nat, b: Option<int>)
    requires Ascending(s) && n > 0
    ensures |AsyncPage(s, keep, n, b).items| <= n
    ensures AsyncPage(s, keep, n, b).next.Some? ==> |AsyncPage(s, keep, n, b).items| == n
  {
    AsyncStep(s, keep, n, b, n, [], 0);
  }
}
