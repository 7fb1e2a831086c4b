/** Page number parsing and the page window of the bookmark list. */
module Paging {
  import opened Model

  /** Number of bookmarks on one page (`limit`). */
  const PageSize: nat := 20

  function Min(a: int, b: int): int { if a < b then a else b }
  function Max(a: int, b: int): int { if a < b then b else a }

  /** `parseInt(req.query.page) || 1`: a missing or non-numeric page (`None`, the
      NaN of parseInt) and page 0 are falsy and become 1; every other number is kept,
      negative ones included. */
  function PageNumber(query: Option<int>): (page: int)
    ensures page != 0
    ensures page == 1 || query == Some(page)
    ensures query.Some? && query.value != 0 ==> page == query.value
  {
    match query
    case None => 1
    case Some(p) => if p == 0 then 1 else p
  }

  /** Number of bookmarks skipped before the page: `(page - 1) * limit`. */
  function Skip(page: int): int { (page - 1) * 20 }

  /** How JavaScript's `Array.prototype.slice` reads one bound on a list of
      length n: a negative bound counts from the end, and the result is clamped to [0, n]. */
  function RelativeIndex(n: nat, k: int): (i: nat)
    ensures i <= n
  {
    if k < 0 then (if n + k < 0 then 0 else n + k)
    else if k < n then k else n
  }

  /** The bounds [lo, hi) that `slice(skip, skip + limit)` takes out of a list of n items. */
  function WindowBounds(n: nat, page: int): (b: (nat, nat))
    ensures b.0 <= b.1 <= n
    ensures b.1 - b.0 <= PageSize
  {
    var lo := RelativeIndex(n, Skip(page));
    var hi := RelativeIndex(n, Skip(page) + PageSize);
    (lo, if hi < lo then lo else hi)
  }

  /** The bookmarks shown on `page`. */
  function Window<T>(s: seq<T>, page: int): (w: seq<T>)
    ensures |w| <= PageSize
  {
    var b := WindowBounds(|s|, page);
    s[b.0..b.1]
  }

  /** `Math.ceil(total / limit)`, as integer ceiling division. */
  function TotalPages(n: nat): (pages: nat)
    ensures n <= pages * PageSize < n + PageSize
  {
    (n + PageSize - 1) / PageSize
  }

  /** A positive page is the contiguous run of at most 20 bookmarks that starts
      `Skip(page)` places into the list. */
  lemma WindowOfPage<T>(s: seq<T>, page: int)
    requires page >= 1
    ensures |Window(s, page)| == if Skip(page) >= |s| then 0 else Min(PageSize, |s| - Skip(page))
    ensures forall k :: 0 <= k < |Window(s, page)| ==> Window(s, page)[k] == s[Skip(page) + k]
  {
  }

  /** A page past the last one is empty; the totals do not depend on the page. */
  lemma PastLastPage<T>(s: seq<T>, page: int)
    requires page > TotalPages(|s|)
    ensures Window(s, page) == []
  {
    var t := TotalPages(|s|);
    assert Skip(page) >= t * PageSize by {
      assert Skip(page) == Skip(t + 1) + (page - t - 1) * 20;
    }
  }

  /** For positive pages: a page has bookmarks exactly when it is at most the page count. */
  lemma PageNonEmptyIff<T>(s: seq<T>, page: int)
    requires page >= 1
    ensures Window(s, page) != [] <==> page <= TotalPages(|s|)
  {
    if page > TotalPages(|s|) {
      PastLastPage(s, page);
    } else {
      var t := TotalPages(|s|);
      assert Skip(page) < |s| by {
        assert Skip(page) + (t - page) * 20 == Skip(t);
        assert Skip(t) < |s|;
      }
      WindowOfPage(s, page);
    }
  }

  /** Bookmark i of the list is shown at position i % 20 of page i / 20 + 1,
      and that page is one of the TotalPages pages. */
  lemma PageOfIndex<T>(s: seq<T>, i: int)
    requires 0 <= i < |s|
    ensures var p := i / PageSize + 1;
      && 1 <= p <= TotalPages(|s|)
      && i % PageSize < |Window(s, p)|
      && Window(s, p)[i % PageSize] == s[i]
  {
    var p := i / PageSize + 1;
    assert Skip(p) + i % PageSize == i;
    WindowOfPage(s, p);
    if p > TotalPages(|s|) {
      PastLastPage(s, p);
    }
  }

  /** A page with a negative number counts from the end of the list, as `slice` does;
      a start before the beginning of the list is clamped to 0, which shortens the page. */
  lemma NegativePageCountsFromEnd<T>(s: seq<T>, page: int)
    requires page < 0
    ensures Window(s, page) == s[Max(0, |s| + Skip(page))..Max(0, |s| + Skip(page) + PageSize)]
    ensures |s| + Skip(page) >= 0 ==>
      Window(s, page) == s[|s| + Skip(page)..|s| + Skip(page) + PageSize]
  {
  }

  /** The first `count` pages, one after the other. */
  function Pages<T>(s: seq<T>, count: nat): seq<T>
  {
    if count == 0 then [] else Pages(s, count - 1) + Window(s, count)
  }

  lemma {:induction false} PagesPrefix<T>(s: seq<T>, count: nat)
    ensures Pages(s, count) == s[..Min(Skip(count + 1), |s|)]
  {
    if count > 0 {
      PagesPrefix(s, count - 1);
      WindowOfPage(s, count);
      assert Skip(count + 1) == Skip(count) + PageSize;
      var a := Min(Skip(count), |s|);
      assert Pages(s, count) == s[..a] + Window(s, count);
      if Skip(count) >= |s| {
        assert Window(s, count) == [];
      } else {
        var b := Min(Skip(count + 1), |s|);
        assert Window(s, count) == s[a..b];
        assert s[..a] + s[a..b] == s[..b];
      }
    }
  }

  /** Walking pages 1 .. TotalPages shows every bookmark once, in list order. */
  lemma PagesCoverList<T>(s: seq<T>)
    ensures Pages(s, TotalPages(|s|)) == s
  {
    var t := TotalPages(|s|);
    PagesPrefix(s, t);
    assert Skip(t + 1) == t * PageSize;
    assert s[..|s|] == s;
  }
}
