/** The request handler `getUserBookmarks` over the two stores. */
module Handler {
  import opened Model
  import opened Paging
  import opened Sorting
  import opened Resolution

  /** The answer and the new store contents the handler owes a known user, given
      the order in which the sort left that user's bookmarks. */
  ghost predicate PageServed(
    users0: map<UserId, User>, tracks0: map<TrackId, Track>, userId: UserId, page: int,
    sorted: seq<Bookmark>, r: Response, users1: map<UserId, User>, tracks1: map<TrackId, Track>)
    requires userId in users0
  {
    var u := users0[userId];
    var bounds := WindowBounds(|sorted|, page);
    var acc := ResolvePage(tracks0, u.phone, sorted[bounds.0..bounds.1]);
    && r == Ok(acc.updated, acc.notFound, TotalPages(|sorted|), |sorted|)
    && tracks1 == acc.tracks
    && users1 == if acc.userSaved
                 then users0[userId := u.(bookmarks := sorted[..bounds.0] + acc.window + sorted[bounds.1..])]
                 else users0
  }

  /** A served page accounts for each bookmark of its window exactly once, holds at
      most 20 bookmarks, and reports the totals of the whole list. */
  lemma ServedPartition(
    users0: map<UserId, User>, tracks0: map<TrackId, Track>, userId: UserId, page: int,
    sorted: seq<Bookmark>, r: Response, users1: map<UserId, User>, tracks1: map<TrackId, Track>)
    requires userId in users0
    requires PageServed(users0, tracks0, userId, page, sorted, r, users1, tracks1)
    ensures r.Ok?
    ensures |r.updatedBookmarks| + |r.notFoundBookmarks| == |Window(sorted, page)| <= PageSize
    ensures r.totalBookmarks == |sorted| && r.totalPages == TotalPages(|sorted|)
  {
  }

  /** A page past the last one has two empty lists and writes nothing, while the
      totals stay those of the whole list. */
  lemma ServedPastEnd(
    users0: map<UserId, User>, tracks0: map<TrackId, Track>, userId: UserId, page: int,
    sorted: seq<Bookmark>, r: Response, users1: map<UserId, User>, tracks1: map<TrackId, Track>)
    requires userId in users0
    requires PageServed(users0, tracks0, userId, page, sorted, r, users1, tracks1)
    requires page > TotalPages(|sorted|)
    ensures r == Ok([], [], TotalPages(|sorted|), |sorted|)
    ensures users1 == users0 && tracks1 == tracks0
  {
    PastLastPage(sorted, page);
    var b := WindowBounds(|sorted|, page);
    assert sorted[b.0..b.1] == [];
  }

  /** `cur` is `sorted` with positions lo .. i-1 replaced by `done`, the bookmarks
      processed so far. */
  ghost predicate Processed(cur: seq<Bookmark>, sorted: seq<Bookmark>, lo: nat, i: nat, done: seq<Bookmark>)
  {
    && |cur| == |sorted|
    && lo + |done| == i <= |sorted|
    && forall k :: 0 <= k < |cur| ==> cur[k] == if lo <= k < i then done[k - lo] else sorted[k]
  }

  lemma ProcessedStep(cur: seq<Bookmark>, sorted: seq<Bookmark>, lo: nat, i: nat, done: seq<Bookmark>, x: Bookmark)
    requires Processed(cur, sorted, lo, i, done) && i < |sorted|
    ensures Processed(cur[i := x], sorted, lo, i + 1, done + [x])
  {
  }

  lemma ProcessedAll(cur: seq<Bookmark>, sorted: seq<Bookmark>, lo: nat, hi: nat, done: seq<Bookmark>)
    requires Processed(cur, sorted, lo, hi, done)
    ensures cur == sorted[..lo] + done + sorted[hi..]
  {
  }

  /** Saving the user record after a backfill, and not otherwise, keeps the stored
      record equal to the in-memory one whenever it has been saved at all. */
  lemma SavedStep(users0: map<UserId, User>, prev: map<UserId, User>, next: map<UserId, User>,
                  userId: UserId, user: User, before: seq<Bookmark>, after: seq<Bookmark>,
                  saved: bool, backfill: bool)
    requires prev == if saved then users0[userId := user.(bookmarks := before)] else users0
    requires next == if backfill then prev[userId := user.(bookmarks := after)] else prev
    requires !backfill ==> after == before
    ensures next == if saved || backfill then users0[userId := user.(bookmarks := after)] else users0
  {
  }

  /** The user and track collections. */
  class Database {
    var users: map<UserId, User>
    var tracks: map<TrackId, Track>

    constructor (users: map<UserId, User>, tracks: map<TrackId, Track>)
      ensures this.users == users && this.tracks == tracks
    {
      this.users := users;
      this.tracks := tracks;
    }

    /** Serves one page of a user's bookmarks: sorts them newest first, takes the
        page, resolves each bookmark of it to its track (by reference, or by
        tracking number with a write-back of the reference), stamps every resolved
        track with the user's phone, and reports the totals of the whole list. */
    method GetUserBookmarks(userId: UserId, query: Option<int>) returns (r: Response)
      modifies this
      ensures userId !in old(users) ==> r == NotFound && users == old(users) && tracks == old(tracks)
      ensures userId in old(users) ==>
        && r.Ok?
        && r.totalBookmarks == |old(users)[userId].bookmarks|
        && r.totalPages == TotalPages(r.totalBookmarks)
      ensures userId in old(users) ==>
        exists sorted ::
          && multiset(sorted) == multiset(old(users)[userId].bookmarks)
          && NewestFirst(sorted)
          && PageServed(old(users), old(tracks), userId, PageNumber(query), sorted, r, users, tracks)
    {
      var page := PageNumber(query);
      if userId !in users {
        return NotFound;
      }
      var user := users[userId];
      var n := |user.bookmarks|;
      var a := new Bookmark[n](k requires 0 <= k < n => user.bookmarks[k]);
      assert a[..] == user.bookmarks;
      SortNewestFirst(a);
      ghost var sorted := a[..];
      ghost var users0, tracks0 := users, tracks;

      var bounds := WindowBounds(n, page);
      var updated, notFound := ResolveWindow(userId, user, a, bounds.0, bounds.1);
      r := Ok(updated, notFound, TotalPages(n), n);
      assert PageServed(users0, tracks0, userId, page, sorted, r, users, tracks);
    }

    /** The page loop: resolves bookmarks a[lo..hi] one after the other, in place.
        Each resolved track is stamped with the user's phone; each backfilled
        reference is written into the array and the user record is saved. */
    method ResolveWindow(userId: UserId, user: User, a: array<Bookmark>, lo: nat, hi: nat)
      returns (updated: seq<Resolved>, notFound: seq<Unresolved>)
      requires lo <= hi <= a.Length
      modifies this, a
      ensures var acc := ResolvePage(old(tracks), user.phone, old(a[..])[lo..hi]);
        && updated == acc.updated
        && notFound == acc.notFound
        && tracks == acc.tracks
        && a[..] == old(a[..])[..lo] + acc.window + old(a[..])[hi..]
        && users == if acc.userSaved then old(users)[userId := user.(bookmarks := a[..])] else old(users)
    {
      ghost var sorted := a[..];
      ghost var users0, tracks0 := users, tracks;
      var n := a.Length;
      updated := [];
      notFound := [];
      var i := lo;
      ghost var acc := ResolvePage(tracks0, user.phone, []);
      assert sorted[lo..lo] == [];
      while i < hi
        invariant lo <= i <= hi <= n == a.Length == |sorted|
        invariant acc == ResolvePage(tracks0, user.phone, sorted[lo..i])
        invariant updated == acc.updated && notFound == acc.notFound && tracks == acc.tracks
        invariant Processed(a[..], sorted, lo, i, acc.window)
        invariant users == if acc.userSaved then users0[userId := user.(bookmarks := a[..])] else users0
      {
        ghost var before, prevUsers := a[..], users;
        var b := a[i];
        assert b == sorted[i];
        ghost var w := sorted[lo..i];
        assert sorted[lo..i + 1] == w + [b];
        ResolvePageSnoc(tracks0, user.phone, w, b);
        ghost var acc0 := acc;
        acc := Step(acc, user.phone, b);
        updated, notFound := ResolveBookmark(userId, user, a, i, updated, notFound, acc0);
        ProcessedStep(before, sorted, lo, i, acc0.window, a[i]);
        SavedStep(users0, prevUsers, users, userId, user, before, a[..], acc0.userSaved, Backfills(acc0.tracks, b));
        i := i + 1;
      }
      ProcessedAll(a[..], sorted, lo, hi, acc.window);
    }

    /** The work on one bookmark a[i]. Without a reference, the track is looked up
        by tracking number and, when found, its id is written into the bookmark and
        the user record is saved. With a reference, the track is loaded by id. A
        found track gets the user's phone and the bookmark goes to `updated`;
        otherwise its number, timestamp and description go to `notFound`. */
    method ResolveBookmark(userId: UserId, user: User, a: array<Bookmark>, i: nat,
                           updated: seq<Resolved>, notFound: seq<Unresolved>, ghost acc: Progress)
      returns (updated': seq<Resolved>, notFound': seq<Unresolved>)
      requires i < a.Length
      requires tracks == acc.tracks && updated == acc.updated && notFound == acc.notFound
      modifies this, a
      ensures var next := Step(acc, user.phone, old(a[i]));
        && updated' == next.updated
        && notFound' == next.notFound
        && tracks == next.tracks
        && a[..] == old(a[..])[i := Backfilled(old(tracks), old(a[i]))]
        && (!Backfills(old(tracks), old(a[i])) ==> a[..] == old(a[..]))
        && next.window == acc.window + [a[i]]
        && users == if Backfills(old(tracks), old(a[i]))
                    then old(users)[userId := user.(bookmarks := a[..])]
                    else old(users)
    {
      var b := a[i];
      updated', notFound' := updated, notFound;
      if b.trackId.None? {
        var found := FindByNumber(tracks, b.trackNumber);
        match found {
          case Some(id) =>
            a[i] := b.(trackId := Some(id));
            users := users[userId := user.(bookmarks := a[..])];
            tracks := tracks[id := tracks[id].(user := user.phone)];
            updated' := updated' + [Resolved(a[i], tracks[id], tracks[id].history)];
          case None =>
            notFound' := notFound' + [Unresolved(b.trackNumber, b.createdAt, b.description)];
        }
      } else if b.trackId.value in tracks {
        var id := b.trackId.value;
        assert b.(trackId := Some(id)) == b;
        tracks := tracks[id := tracks[id].(user := user.phone)];
        updated' := updated' + [Resolved(b, tracks[id], tracks[id].history)];
        assert a[..] == old(a[..])[i := b];
      } else {
        notFound' := notFound' + [Unresolved(b.trackNumber, b.createdAt, b.description)];
        assert a[..] == old(a[..])[i := b];
      }
    }
  }
}
