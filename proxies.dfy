/**
  * The stateful side of bookmark pagination: the pager a fetch fills in place, and the
  * collections (the wrapped scope, the filter wrapper and the transform wrapper) whose
  * `execute_pager` fills it and whose `paginate` builds it from the caller's options.
  * Each method is proved against the page functions of module Pages.
  */
module Proxies {
  import opened Wrappers
  import opened OrderedSource
  import opened PageToken
  import opened Pages

  /** The options `paginate` accepts; `perPage` is required, `totalEntries` is ignored. */
  datatype PaginateOptions = PaginateOptions(page: PageParam, perPage: Option<int>, totalEntries: Option<int>)

  /** A page under construction: the fetch replaces its items and flags that more follow. */
  class Pager {
    const perPage: nat
    const currentBookmark: Option<int>
    var items: seq<int>
    var hasMore: bool
    var nextBookmark: Option<int>
    var totalEntries: Option<int>

    /** A fresh pager has no items, no more to come, and no total. */
    predicate Fresh()
      reads this
    {
      items == [] && !hasMore && nextBookmark == None && totalEntries == None
    }

    constructor (perPage: nat, currentBookmark: Option<int>)
      requires perPage > 0
      ensures this.perPage == perPage && this.currentBookmark == currentBookmark
      ensures Fresh()
    {
      this.perPage := perPage;
      this.currentBookmark := currentBookmark;
      items := [];
      hasMore := false;
      nextBookmark := None;
      totalEntries := None;
    }

    /** `replace`: the page now holds exactly `xs`; the flags are left alone. */
    method Replace(xs: seq<int>)
      modifies this
      ensures items == xs
      ensures hasMore == old(hasMore) && nextBookmark == old(nextBookmark) && totalEntries == old(totalEntries)
    {
      items := xs;
    }

    /** `has_more!`: more follow, from the bookmark of the last item on the page. */
    method HasMore()
      modifies this
      ensures hasMore && nextBookmark == LastOf(items)
      ensures items == old(items) && totalEntries == old(totalEntries)
    {
      hasMore := true;
      nextBookmark := LastOf(items);
    }

    /** Every item mapped in place, bookmarks and flags untouched. */
    method MapItems(f: int -> int)
      modifies this
      ensures items == MapAll(f, old(items))
      ensures hasMore == old(hasMore) && nextBookmark == old(nextBookmark) && totalEntries == old(totalEntries)
    {
      var xs := items;
      var mapped := [];
      var i := 0;
      while i < |xs|
        invariant 0 <= i <= |xs|
        invariant mapped == MapAll(f, xs[..i])
        modifies {}
      {
        MapConcat(f, xs[..i], [xs[i]]);
        assert xs[..i + 1] == xs[..i] + [xs[i]];
        mapped := mapped + [f(xs[i])];
        i := i + 1;
      }
      assert xs[..i] == xs;
      items := mapped;
    }

    /** `next_page`: the token of the next bookmark, or no page when there is none. */
    function NextPage(): (r: PageParam)
      reads this
      ensures nextBookmark.None? <==> r == Absent
      ensures PageToBookmark(r) == nextBookmark
    {
      match nextBookmark
      case None => Absent
      case Some(b) => PageRoundTrip(b); Text(BookmarkToPage(b))
    }
  }

  /**
    * The part of `paginate` common to every collection: `per_page` must be given and positive,
    * `total_entries` is dropped, and the page token is turned into the current bookmark.
    */
  method NewPager(opts: PaginateOptions) returns (r: Result<Pager, string>)
    ensures r.Failure? <==> opts.perPage.None? || opts.perPage.value <= 0
    ensures r.Success? ==> fresh(r.value) && r.value.Fresh()
    ensures r.Success? ==> r.value.perPage == opts.perPage.value && r.value.currentBookmark == PageToBookmark(opts.page)
  {
    if opts.perPage.None? || opts.perPage.value <= 0 {
      return Failure("ArgumentError: per_page is required");
    }
    var pager := new Pager(opts.perPage.value, PageToBookmark(opts.page));
    return Success(pager);
  }

  /** The wrapped scope: a source ordered by id, fetched once per page. */
  class BaseCollection {
    const source: seq<int>

    constructor (source: seq<int>)
      ensures this.source == source
    {
      this.source := source;
    }

    /** The fetch callback: replace the items with the next page, and flag more if there is. */
    method ExecutePager(pager: Pager)
      requires pager.perPage > 0 && pager.Fresh()
      modifies pager
      ensures var p := BasePage(source, pager.currentBookmark, pager.perPage);
        pager.items == p.items && pager.hasMore == p.more && pager.nextBookmark == p.next
      ensures pager.totalEntries == None
    {
      var f := Fetch(source, pager.currentBookmark, pager.perPage);
      pager.Replace(f.items);
      if f.more {
        pager.HasMore();
      }
    }

    method Paginate(opts: PaginateOptions) returns (r: Result<Pager, string>)
      ensures r.Failure? <==> opts.perPage.None? || opts.perPage.value <= 0
      ensures r.Success? ==> fresh(r.value) && r.value.totalEntries == None
      ensures r.Success? ==> r.value.currentBookmark == PageToBookmark(opts.page)
      ensures r.Success? ==> (
        var p := BasePage(source, PageToBookmark(opts.page), opts.perPage.value);
        r.value.items == p.items && r.value.hasMore == p.more && r.value.nextBookmark == p.next)
    {
      r := NewPager(opts);
      if r.Success? {
        ExecutePager(r.value);
      }
    }
  }

  /** `BookmarkedCollection.filter`: the wrapped scope with only the items `keep` accepts. */
  class FilterCollection {
    const inner: BaseCollection
    const keep: int -> bool
    const sync: bool

    constructor (inner: BaseCollection, keep: int -> bool, sync: bool)
      ensures this.inner == inner && this.keep == keep && this.sync == sync
    {
      this.inner := inner;
      this.keep := keep;
      this.sync := sync;
    }

    /**
      * Fills `pager` from sub-pagers of the wrapped scope and returns how many times the scope
      * was executed.
      */
    method ExecutePager(pager: Pager) returns (executions: nat)
      requires pager.perPage > 0 && pager.Fresh()
      modifies pager
      ensures var p := PageFor(Filtered(keep, sync), inner.source, pager.currentBookmark, pager.perPage);
        pager.items == p.items && pager.hasMore == p.more && pager.nextBookmark == p.next &&
        executions == p.executions
      ensures pager.totalEntries == None
    {
      if sync {
        executions := ExecuteSync(pager);
      } else {
        executions := ExecuteAsync(pager);
      }
    }

    /** A fresh sub-pager over the wrapped scope, executed once. */
    method SubPager(b: Option<int>, size: nat) returns (sub: Pager)
      requires size > 0
      ensures fresh(sub) && sub.perPage == size && sub.currentBookmark == b
      ensures var p := BasePage(inner.source, b, size);
        sub.items == p.items && sub.hasMore == p.more && sub.nextBookmark == p.next
    {
      sub := new Pager(size, b);
      inner.ExecutePager(sub);
    }

    /**
      * Default mode: rounds of sub-pagers from the current bookmark, each twice the size of the
      * one before, until the survivors fill the page or the scope runs out.
      */
    method ExecuteAsync(pager: Pager) returns (executions: nat)
      requires pager.perPage > 0 && pager.Fresh()
      modifies pager
      ensures var p := AsyncPage(inner.source, keep, pager.perPage, pager.currentBookmark);
        pager.items == p.items && pager.hasMore == p.more && pager.nextBookmark == p.next &&
        executions == p.executions
      ensures pager.totalEntries == None
    {
      var s := inner.source;
      var n := pager.perPage;
      var goal := AsyncPage(s, keep, n, pager.currentBookmark);
      var b := pager.currentBookmark;
      var request := n;
      var acc := [];
      var got: seq<int>;
      var more: bool;
      executions := 0;
      while true
        invariant 0 < n <= request && |acc| < n
        invariant AsyncLoop(s, keep, n, b, request, acc, executions) == goal
        decreases |After(s, b)|
        modifies {}
      {
        var sub := SubPager(b, request);
        executions := executions + 1;
        got := acc + Keep(keep, sub.items);
        if |got| < n && sub.hasMore {
          var last := sub.items[|sub.items| - 1];
          AsyncContinues(s, keep, n, b, request, acc, executions - 1);
          AfterShrinks(s, b, last);
          b, request, acc := Some(last), 2 * request, got;
        } else {
          more := |got| > n || sub.hasMore;
          break;
        }
      }
      pager.Replace(if |got| > n then got[..n] else got);
      if more {
        pager.HasMore();
      }
    }

    /**
      * `sync: true`: the survivors of one sub-pager of `per_page` items, carrying its
      * `next_bookmark`; a sub-pager with no survivors is followed by the next one.
      */
    method ExecuteSync(pager: Pager) returns (executions: nat)
      requires pager.perPage > 0 && pager.Fresh()
      modifies pager
      ensures var p := SyncPage(inner.source, keep, pager.perPage, pager.currentBookmark);
        pager.items == p.items && pager.hasMore == p.more && pager.nextBookmark == p.next &&
        executions == p.executions
      ensures pager.totalEntries == None
    {
      var s := inner.source;
      var n := pager.perPage;
      var goal := SyncPage(s, keep, n, pager.currentBookmark);
      var b := pager.currentBookmark;
      var sub: Pager;
      var kept: seq<int>;
      executions := 0;
      while true
        invariant SyncLoop(s, keep, n, b, executions) == goal
        decreases |After(s, b)|
        modifies {}
      {
        sub := SubPager(b, n);
        executions := executions + 1;
        kept := Keep(keep, sub.items);
        if kept == [] && sub.hasMore {
          var last := sub.items[|sub.items| - 1];
          AfterShrinks(s, b, last);
          b := Some(last);
        } else {
          assert goal == Page(kept, sub.hasMore, sub.nextBookmark, executions);
          break;
        }
      }
      pager.Replace(kept);
      if sub.hasMore {
        pager.hasMore := true;
        pager.nextBookmark := sub.nextBookmark;
      }
    }

    method Paginate(opts: PaginateOptions) returns (r: Result<Pager, string>, executions: nat)
      ensures r.Failure? <==> opts.perPage.None? || opts.perPage.value <= 0
      ensures r.Failure? ==> executions == 0
      ensures r.Success? ==> fresh(r.value) && r.value.totalEntries == None
      ensures r.Success? ==> r.value.currentBookmark == PageToBookmark(opts.page)
      ensures r.Success? ==> (
        var p := PageFor(Filtered(keep, sync), inner.source, PageToBookmark(opts.page), opts.perPage.value);
        r.value.items == p.items && r.value.hasMore == p.more && r.value.nextBookmark == p.next &&
        executions == p.executions)
    {
      r := NewPager(opts);
      executions := 0;
      if r.Success? {
        executions := ExecutePager(r.value);
      }
    }
  }

  /** `BookmarkedCollection.transform`: the wrapped scope with every item mapped by `f`. */
  class TransformCollection {
    const inner: BaseCollection
    const f: int -> int

    constructor (inner: BaseCollection, f: int -> int)
      ensures this.inner == inner && this.f == f
    {
      this.inner := inner;
      this.f := f;
    }

    method ExecutePager(pager: Pager)
      requires pager.perPage > 0 && pager.Fresh()
      modifies pager
      ensures var p := TransformPage(inner.source, f, pager.perPage, pager.currentBookmark);
        pager.items == p.items && pager.hasMore == p.more && pager.nextBookmark == p.next
      ensures pager.totalEntries == None
    {
      inner.ExecutePager(pager);
      pager.MapItems(f);
    }

    method Paginate(opts: PaginateOptions) returns (r: Result<Pager, string>)
      ensures r.Failure? <==> opts.perPage.None? || opts.perPage.value <= 0
      ensures r.Success? ==> fresh(r.value) && r.value.totalEntries == None
      ensures r.Success? ==> r.value.currentBookmark == PageToBookmark(opts.page)
      ensures r.Success? ==> (
        var p := TransformPage(inner.source, f, opts.perPage.value, PageToBookmark(opts.page));
        r.value.items == p.items && r.value.hasMore == p.more && r.value.nextBookmark == p.next)
    {
      r := NewPager(opts);
      if r.Success? {
        ExecutePager(r.value);
      }
    }
  }
}
