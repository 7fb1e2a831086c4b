/** The in-place newest-first sort of a user's bookmark list. */
module Sorting {
  import opened Model
  import opened Paging

  /** Non-increasing `createdAt`: newer bookmarks come first. */
  predicate NewestFirst(s: seq<Bookmark>)
  {
    forall i, j :: 0 <= i < j < |s| ==> s[i].createdAt >= s[j].createdAt
  }

  /** Exchanges two neighbouring bookmarks. */
  method SwapWithPrevious(a: array<Bookmark>, j: int)
    requires 0 < j < a.Length
    modifies a
    ensures a[j - 1] == old(a[j]) && a[j] == old(a[j - 1])
    ensures forall k :: 0 <= k < a.Length && k != j - 1 && k != j ==> a[k] == old(a[k])
    ensures multiset(a[..]) == multiset(old(a[..]))
  {
    a[j - 1], a[j] := a[j], a[j - 1];
  }

  /** Moves bookmark i left past the older bookmarks of the sorted prefix before it. */
  method InsertIntoPrefix(a: array<Bookmark>, i: int)
    requires 0 <= i < a.Length
    requires NewestFirst(a[..i])
    modifies a
    ensures NewestFirst(a[..i + 1])
    ensures forall k :: i < k < a.Length ==> a[k] == old(a[k])
    ensures multiset(a[..]) == multiset(old(a[..]))
  {
    var j := i;
    while j > 0 && a[j - 1].createdAt < a[j].createdAt
      invariant 0 <= j <= i
      invariant forall p, q :: 0 <= p < q <= i && p != j && q != j ==> a[p].createdAt >= a[q].createdAt
      invariant forall q :: j < q <= i ==> a[j].createdAt > a[q].createdAt
      invariant forall k :: i < k < a.Length ==> a[k] == old(a[k])
      invariant multiset(a[..]) == multiset(old(a[..]))
    {
      SwapWithPrevious(a, j);
      j := j - 1;
    }
  }

  /** Sorts the bookmarks in place, newest first, by insertion. The contract
      does not state that bookmarks with equal timestamps keep their order. */
  method SortNewestFirst(a: array<Bookmark>)
    modifies a
    ensures NewestFirst(a[..])
    ensures multiset(a[..]) == multiset(old(a[..]))
  {
    var i := 0;
    while i < a.Length
      invariant 0 <= i <= a.Length
      invariant NewestFirst(a[..i])
      invariant multiset(a[..]) == multiset(old(a[..]))
    {
      InsertIntoPrefix(a, i);
      i := i + 1;
    }
    assert a[..a.Length] == a[..];
  }

  /** In a newest-first list, a strictly newer bookmark is never on a later page. */
  lemma NewerNotOnLaterPage(s: seq<Bookmark>, i: int, j: int)
    requires NewestFirst(s)
    requires 0 <= i < |s| && 0 <= j < |s|
    requires s[i].createdAt > s[j].createdAt
    ensures i < j
    ensures i / PageSize + 1 <= j / PageSize + 1
    ensures Window(s, i / PageSize + 1)[i % PageSize] == s[i]
    ensures Window(s, j / PageSize + 1)[j % PageSize] == s[j]
  {
    PageOfIndex(s, i);
    PageOfIndex(s, j);
  }
}
