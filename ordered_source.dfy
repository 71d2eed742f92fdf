/**
  * The ordered source behind a bookmarked collection: the ids of a scope ordered by id.
  * The id of an item is also its bookmark (a simple bookmarker on the `id` column), so
  * "the items after bookmark b" are the ids strictly greater than b.
  */
module OrderedSource {
  import opened Wrappers

  /** Ordered by id with no id twice, as a scope ordered by a primary key is. */
  predicate Ascending(s: seq<int>) {
    forall i, j :: 0 <= i < j < |s| ==> s[i] < s[j]
  }

  /** The items whose bookmark is strictly greater than `v`, in source order. */
  function Above(s: seq<int>, v: int): (r: seq<int>)
    ensures |r| <= |s|
  {
    if s == [] then [] else if s[0] > v then [s[0]] + Above(s[1..], v) else Above(s[1..], v)
  }

  /** The items a fetch may return for current bookmark `b`: all of them when there is none. */
  function After(s: seq<int>, b: Option<int>): seq<int> {
    match b
    case None => s
    case Some(v) => Above(s, v)
  }

  /** The items a filter block accepts, in order (Ruby's `select`). */
  function Keep(keep: int -> bool, s: seq<int>): (r: seq<int>)
    ensures |r| <= |s|
  {
    if s == [] then [] else if keep(s[0]) then [s[0]] + Keep(keep, s[1..]) else Keep(keep, s[1..])
  }

  /** The items above `v` are the items of the source greater than `v`. */
  lemma {:induction false} AboveMembers(s: seq<int>, v: int)
    ensures forall x :: x in Above(s, v) <==> x in s && x > v
  {
    if s != [] {
      AboveMembers(s[1..], v);
      assert s == [s[0]] + s[1..];
    }
  }

  lemma {:induction false} AfterMembers(s: seq<int>, b: Option<int>)
    ensures forall x :: x in After(s, b) <==> x in s && (b.Some? ==> x > b.value)
  {
    if b.Some? {
      AboveMembers(s, b.value);
    }
  }

  /** The survivors of a filter are the items of the source the block accepts. */
  lemma {:induction false} KeepMembers(keep: int -> bool, s: seq<int>)
    ensures forall x :: x in Keep(keep, s) <==> x in s && keep(x)
  {
    if s != [] {
      KeepMembers(keep, s[1..]);
      assert s == [s[0]] + s[1..];
    }
  }

  /** Each item replaced by its image, one to one and in order (Ruby's `map`). */
  function MapAll(f: int -> int, s: seq<int>): (r: seq<int>)
    ensures |r| == |s|
    ensures forall i :: 0 <= i < |s| ==> r[i] == f(s[i])
  {
    if s == [] then [] else [f(s[0])] + MapAll(f, s[1..])
  }

  lemma {:induction false} KeepConcat(keep: int -> bool, a: seq<int>, b: seq<int>)
    ensures Keep(keep, a + b) == Keep(keep, a) + Keep(keep, b)
  {
    if a != [] {
      assert (a + b)[0] == a[0];
      assert (a + b)[1..] == a[1..] + b;
      KeepConcat(keep, a[1..], b);
    } else {
      assert a + b == b;
    }
  }

  lemma {:induction false} MapConcat(f: int -> int, a: seq<int>, b: seq<int>)
    ensures MapAll(f, a + b) == MapAll(f, a) + MapAll(f, b)
  {
    if a == [] {
      assert a + b == b;
    } else {
      assert (a + b)[1..] == a[1..] + b;
      MapConcat(f, a[1..], b);
    }
  }

  /** Filtering by a block and by a bookmark commute. */
  lemma {:induction false} KeepAbove(keep: int -> bool, s: seq<int>, v: int)
    ensures Keep(keep, Above(s, v)) == Above(Keep(keep, s), v)
  {
    if s != [] {
      KeepAbove(keep, s[1..], v);
    }
  }

  /** Restricting to a later bookmark subsumes restricting to an earlier one. */
  lemma {:induction false} AboveAbove(s: seq<int>, v: int, t: int)
    requires v <= t
    ensures Above(Above(s, v), t) == Above(s, t)
  {
    if s != [] {
      AboveAbove(s[1..], v, t);
    }
  }

  lemma {:induction false} AboveAll(s: seq<int>, v: int)
    requires forall x :: x in s ==> x > v
    ensures Above(s, v) == s
  {
    if s != [] {
      assert s[0] in s && forall x :: x in s[1..] ==> x in s;
      AboveAll(s[1..], v);
      assert s == [s[0]] + s[1..];
    }
  }

  /** Putting an item in front of larger ascending items keeps them ascending. */
  lemma {:induction false} ConsAscending(x: int, r: seq<int>)
    requires Ascending(r) && forall y :: y in r ==> x < y
    ensures Ascending([x] + r)
  {
    forall i, j | 0 <= i < j < |[x] + r| ensures ([x] + r)[i] < ([x] + r)[j] {
      assert ([x] + r)[j] == r[j - 1];
      if i > 0 {
        assert ([x] + r)[i] == r[i - 1];
      } else {
        assert r[j - 1] in r;
      }
    }
  }

  lemma {:induction false} KeepAscending(keep: int -> bool, s: seq<int>)
    requires Ascending(s)
    ensures Ascending(Keep(keep, s))
  {
    if s != [] {
      KeepAscending(keep, s[1..]);
      KeepMembers(keep, s[1..]);
      var rest := Keep(keep, s[1..]);
      forall x | x in rest ensures s[0] < x {
        var j :| 0 <= j < |s[1..]| && s[1..][j] == x;
        assert s[0] < s[j + 1];
      }
      if keep(s[0]) {
        ConsAscending(s[0], rest);
      }
    }
  }

  lemma {:induction false} AboveAscending(s: seq<int>, v: int)
    requires Ascending(s)
    ensures Ascending(Above(s, v))
  {
    if s != [] {
      AboveAscending(s[1..], v);
      AboveMembers(s[1..], v);
      var rest := Above(s[1..], v);
      forall x | x in rest ensures s[0] < x {
        var j :| 0 <= j < |s[1..]| && s[1..][j] == x;
        assert s[0] < s[j + 1];
      }
      if s[0] > v {
        ConsAscending(s[0], rest);
      }
    }
  }

  /** In an ascending source, the items after the k-th item are exactly the suffix behind it. */
  lemma {:induction false} AscendingSuffix(s: seq<int>, k: nat)
    requires Ascending(s) && 0 < k <= |s|
    ensures Above(s, s[k - 1]) == s[k..]
  {
    if k == 1 {
      AboveAll(s[1..], s[0]);
    } else {
      assert s[0] < s[k - 1];
      assert s[1..][k - 2] == s[k - 1];
      AscendingSuffix(s[1..], k - 1);
      assert s[1..][k - 1..] == s[k..];
    }
  }

  /** Resuming from the k-th item after bookmark `b` yields the rest after that item. */
  lemma {:induction false} AfterAt(s: seq<int>, b: Option<int>, k: nat)
    requires Ascending(s) && 0 < k <= |After(s, b)|
    ensures After(s, Some(After(s, b)[k - 1])) == After(s, b)[k..]
  {
    var rest := After(s, b);
    var t := rest[k - 1];
    if b.Some? {
      assert t in rest;
      AboveMembers(s, b.value);
      AboveAbove(s, b.value, t);
      AboveAscending(s, b.value);
    }
    AscendingSuffix(rest, k);
  }

  /** Resuming from the k-th surviving item yields the survivors after it. */
  lemma {:induction false} KeepAfterAt(keep: int -> bool, s: seq<int>, b: Option<int>, k: nat)
    requires Ascending(s) && 0 < k <= |Keep(keep, After(s, b))|
    ensures Keep(keep, After(s, Some(Keep(keep, After(s, b))[k - 1]))) == Keep(keep, After(s, b))[k..]
  {
    var xs := Keep(keep, After(s, b));
    var t := xs[k - 1];
    assert t in xs;
    KeepAbove(keep, s, t);
    if b.Some? {
      KeepAbove(keep, s, b.value);
      KeepMembers(keep, Above(s, b.value));
      AboveMembers(s, b.value);
      AboveAbove(Keep(keep, s), b.value, t);
      AboveAscending(s, b.value);
    }
    KeepAscending(keep, After(s, b));
    AscendingSuffix(xs, k);
  }

  lemma {:induction false} AboveShrinks(s: seq<int>, t: int)
    requires t in s
    ensures |Above(s, t)| < |s|
  {
    if s[0] != t {
      AboveShrinks(s[1..], t);
    }
  }

  /** Resuming from an item of the current range strictly shrinks the range. */
  lemma {:induction false} AfterShrinks(s: seq<int>, b: Option<int>, t: int)
    requires t in After(s, b)
    ensures |After(s, Some(t))| < |After(s, b)|
  {
    if b.Some? {
      AboveMembers(s, b.value);
      AboveAbove(s, b.value, t);
    }
    AboveShrinks(After(s, b), t);
  }

  /** Every item after a bookmark taken from the current range is in the current range. */
  lemma {:induction false} AfterNested(s: seq<int>, b: Option<int>, t: int, x: int)
    requires t in After(s, b) && x in After(s, Some(t))
    ensures x in After(s, b)
  {
    AfterMembers(s, b);
    AboveMembers(s, t);
  }
}
