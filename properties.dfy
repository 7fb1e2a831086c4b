/** What the handler promises about each bookmark of the page, stated on the
    sequential loop `ResolvePage` over the track store as it was before the request. */
module ResolutionProperties {
  import opened Model
  import opened Resolution

  /** Entry r is the resolved entry of page bookmark k. */
  predicate ResolvedAt(tracks: map<TrackId, Track>, phone: string, w: seq<Bookmark>, k: int, r: Resolved)
  {
    0 <= k < |w| && Target(tracks, w[k]).Some? && r == ResolvedOf(tracks, phone, w[k], Target(tracks, w[k]).value)
  }

  /** Entry u is the not-found entry of page bookmark k. */
  predicate UnresolvedAt(tracks: map<TrackId, Track>, w: seq<Bookmark>, k: int, u: Unresolved)
  {
    0 <= k < |w| && Target(tracks, w[k]).None? && u == UnresolvedOf(w[k])
  }

  lemma {:induction false} InUpdatedOf(tracks: map<TrackId, Track>, phone: string, w: seq<Bookmark>, k: int)
    requires 0 <= k < |w| && Target(tracks, w[k]).Some?
    ensures ResolvedOf(tracks, phone, w[k], Target(tracks, w[k]).value) in UpdatedOf(tracks, phone, w)
    decreases |w|
  {
    if k < |w| - 1 {
      var w0 := w[..|w| - 1];
      assert w0[k] == w[k];
      InUpdatedOf(tracks, phone, w0, k);
    }
  }

  lemma {:induction false} FromUpdatedOf(tracks: map<TrackId, Track>, phone: string, w: seq<Bookmark>, r: Resolved)
    requires r in UpdatedOf(tracks, phone, w)
    ensures exists k :: ResolvedAt(tracks, phone, w, k, r)
    decreases |w|
  {
    var w0 := w[..|w| - 1];
    var k := |w| - 1;
    if ResolvedAt(tracks, phone, w, k, r) {
    } else {
      FromUpdatedOf(tracks, phone, w0, r);
      var j :| ResolvedAt(tracks, phone, w0, j, r);
      assert w0[j] == w[j];
      assert ResolvedAt(tracks, phone, w, j, r);
    }
  }

  lemma {:induction false} InNotFoundOf(tracks: map<TrackId, Track>, w: seq<Bookmark>, k: int)
    requires 0 <= k < |w| && Target(tracks, w[k]).None?
    ensures UnresolvedOf(w[k]) in NotFoundOf(tracks, w)
    decreases |w|
  {
    if k < |w| - 1 {
      var w0 := w[..|w| - 1];
      assert w0[k] == w[k];
      InNotFoundOf(tracks, w0, k);
    }
  }

  lemma {:induction false} FromNotFoundOf(tracks: map<TrackId, Track>, w: seq<Bookmark>, u: Unresolved)
    requires u in NotFoundOf(tracks, w)
    ensures exists k :: UnresolvedAt(tracks, w, k, u)
    decreases |w|
  {
    var w0 := w[..|w| - 1];
    var k := |w| - 1;
    if UnresolvedAt(tracks, w, k, u) {
    } else {
      FromNotFoundOf(tracks, w0, u);
      var j :| UnresolvedAt(tracks, w0, j, u);
      assert w0[j] == w[j];
      assert UnresolvedAt(tracks, w, j, u);
    }
  }

  /** An entry is in `updatedBookmarks` exactly when it is the resolved entry of a
      page bookmark whose track was found; together with the count in `ResolvePage`,
      every page bookmark lands in exactly one of the two lists. */
  lemma UpdatedMembership(tracks: map<TrackId, Track>, phone: string, w: seq<Bookmark>, r: Resolved)
    ensures r in ResolvePage(tracks, phone, w).updated <==>
      exists k :: ResolvedAt(tracks, phone, w, k, r)
  {
    ResolvePageLists(tracks, phone, w);
    if r in UpdatedOf(tracks, phone, w) {
      FromUpdatedOf(tracks, phone, w, r);
    }
    if exists k :: ResolvedAt(tracks, phone, w, k, r) {
      var k :| ResolvedAt(tracks, phone, w, k, r);
      InUpdatedOf(tracks, phone, w, k);
    }
  }

  /** An entry is in `notFoundBookmarks` exactly when it is the number, timestamp
      and description of a page bookmark whose track was not found. */
  lemma NotFoundMembership(tracks: map<TrackId, Track>, phone: string, w: seq<Bookmark>, u: Unresolved)
    ensures u in ResolvePage(tracks, phone, w).notFound <==>
      exists k :: UnresolvedAt(tracks, w, k, u)
  {
    ResolvePageLists(tracks, phone, w);
    if u in NotFoundOf(tracks, w) {
      FromNotFoundOf(tracks, w, u);
    }
    if exists k :: UnresolvedAt(tracks, w, k, u) {
      var k :| UnresolvedAt(tracks, w, k, u);
      InNotFoundOf(tracks, w, k);
    }
  }

  /** A bookmark whose reference names an existing track is resolved, with that
      track (stamped with the requester's phone) and its history. */
  lemma LinkedBookmarkResolved(tracks: map<TrackId, Track>, phone: string, w: seq<Bookmark>, k: int, id: TrackId)
    requires 0 <= k < |w| && w[k].trackId == Some(id) && id in tracks
    ensures Resolved(w[k], tracks[id].(user := phone), tracks[id].history) in ResolvePage(tracks, phone, w).updated
    ensures ResolvePage(tracks, phone, w).window[k] == w[k]
  {
    ResolvePageLists(tracks, phone, w);
    ResolvePageWindow(tracks, phone, w);
    InUpdatedOf(tracks, phone, w, k);
  }

  /** A bookmark whose reference names no track is reported as not found and left as it is. */
  lemma DanglingBookmarkNotFound(tracks: map<TrackId, Track>, phone: string, w: seq<Bookmark>, k: int)
    requires 0 <= k < |w| && w[k].trackId.Some? && w[k].trackId.value !in tracks
    ensures Unresolved(w[k].trackNumber, w[k].createdAt, w[k].description) in ResolvePage(tracks, phone, w).notFound
    ensures ResolvePage(tracks, phone, w).window[k] == w[k]
  {
    ResolvePageLists(tracks, phone, w);
    ResolvePageWindow(tracks, phone, w);
    InNotFoundOf(tracks, w, k);
  }

  /** A bookmark without a reference whose number matches no track is reported as
      not found with exactly its number, timestamp and description; it keeps no
      reference, and it causes no track write. */
  lemma UnmatchedBookmarkNotFound(tracks: map<TrackId, Track>, phone: string, w: seq<Bookmark>, k: int)
    requires 0 <= k < |w| && w[k].trackId.None?
    requires forall id :: id in tracks ==> tracks[id].track != w[k].trackNumber
    ensures Unresolved(w[k].trackNumber, w[k].createdAt, w[k].description) in ResolvePage(tracks, phone, w).notFound
    ensures ResolvePage(tracks, phone, w).window[k] == w[k]
    ensures Target(tracks, w[k]).None?
  {
    ResolvePageLists(tracks, phone, w);
    ResolvePageWindow(tracks, phone, w);
    InNotFoundOf(tracks, w, k);
  }

  /** A bookmark without a reference whose number matches a track gets that track's
      id written into it, the user record is saved, and the bookmark is resolved
      with the track's details and history. */
  lemma BackfilledBookmarkResolved(tracks: map<TrackId, Track>, phone: string, w: seq<Bookmark>, k: int, id: TrackId)
    requires 0 <= k < |w| && w[k].trackId.None?
    requires FindByNumber(tracks, w[k].trackNumber) == Some(id)
    ensures id in tracks && tracks[id].track == w[k].trackNumber
    ensures ResolvePage(tracks, phone, w).window[k] == w[k].(trackId := Some(id))
    ensures ResolvePage(tracks, phone, w).userSaved
    ensures Resolved(w[k].(trackId := Some(id)), tracks[id].(user := phone), tracks[id].history)
      in ResolvePage(tracks, phone, w).updated
  {
    ResolvePageLists(tracks, phone, w);
    ResolvePageWindow(tracks, phone, w);
    ResolvePageSaved(tracks, phone, w);
    InUpdatedOf(tracks, phone, w, k);
  }

  /** Every resolved entry carries the id of a track that, after the page, holds the
      requester's phone and is what the entry reports; tracks that no page
      bookmark resolved to are unchanged. */
  lemma PhoneStamping(tracks: map<TrackId, Track>, phone: string, w: seq<Bookmark>)
    ensures var acc := ResolvePage(tracks, phone, w);
      && acc.tracks.Keys == tracks.Keys
      && (forall r :: r in acc.updated ==>
            && r.bookmark.trackId.Some?
            && r.bookmark.trackId.value in acc.tracks
            && acc.tracks[r.bookmark.trackId.value] == r.trackDetails
            && r.trackDetails.user == phone
            && r.history == r.trackDetails.history)
      && (forall id :: id in tracks && !ResolvedIn(tracks, w, id) ==> acc.tracks[id] == tracks[id])
  {
    var acc := ResolvePage(tracks, phone, w);
    ResolvePageTracks(tracks, phone, w);
    forall r | r in acc.updated
      ensures r.bookmark.trackId.Some? && r.bookmark.trackId.value in acc.tracks
      ensures acc.tracks[r.bookmark.trackId.value] == r.trackDetails
      ensures r.trackDetails.user == phone && r.history == r.trackDetails.history
    {
      UpdatedMembership(tracks, phone, w, r);
      var k :| ResolvedAt(tracks, phone, w, k, r);
      assert ResolvedIn(tracks, w, Target(tracks, w[k]).value);
    }
  }
}
