/** What the handler does with each bookmark of the page, stated on values: which
    track it resolves to, what it appends to the two output lists, and what it
    writes back to the bookmark and to the track store. */
module Resolution {
  import opened Model

  /** Track `id` exists and carries tracking number `number`. */
  predicate HasNumber(tracks: map<TrackId, Track>, id: TrackId, number: string)
  {
    id in tracks && tracks[id].track == number
  }

  /** `m` is the least element of `s`. */
  predicate IsLeast(m: TrackId, s: set<TrackId>)
  {
    m in s && forall y :: y in s ==> m <= y
  }

  lemma {:induction false} LeastExists(s: set<TrackId>)
    requires s != {}
    ensures exists m :: IsLeast(m, s)
  {
    var x :| x in s;
    if s == {x} {
      assert IsLeast(x, s);
    } else {
      LeastExists(s - {x});
      var m :| IsLeast(m, s - {x});
      var least := if x < m then x else m;
      forall y | y in s ensures least <= y {
        if y != x { assert y in s - {x}; }
      }
      assert IsLeast(least, s);
    }
  }

  /** `id` is the lowest id of a track carrying `number`. */
  predicate FirstMatch(tracks: map<TrackId, Track>, number: string, id: TrackId)
  {
    HasNumber(tracks, id, number) && forall j :: HasNumber(tracks, j, number) ==> id <= j
  }

  lemma LeastMatchExists(tracks: map<TrackId, Track>, number: string, x: TrackId)
    requires HasNumber(tracks, x, number)
    ensures exists id :: id in tracks && FirstMatch(tracks, number, id)
  {
    var s := set id | id in tracks && HasNumber(tracks, id, number);
    assert x in s;
    LeastExists(s);
    var m :| IsLeast(m, s);
    forall j | HasNumber(tracks, j, number) ensures m <= j {
      assert j in s;
    }
    assert FirstMatch(tracks, number, m);
  }

  /** `Track.findOne({ track: number })`: the first track carrying that number,
      taken here as the one with the lowest id, or None when there is none. */
  function FindByNumber(tracks: map<TrackId, Track>, number: string): (r: Option<TrackId>)
    ensures r.Some? ==> FirstMatch(tracks, number, r.value)
    ensures r.None? <==> forall id :: id in tracks ==> tracks[id].track != number
  {
    if exists x :: x in tracks && HasNumber(tracks, x, number) then
      var x :| x in tracks && HasNumber(tracks, x, number);
      LeastMatchExists(tracks, number, x);
      var id :| id in tracks && FirstMatch(tracks, number, id);
      Some(id)
    else
      None
  }

  /** The track a bookmark resolves to: by its reference when it has one
      (`Track.findById`), otherwise by its tracking number. */
  function Target(tracks: map<TrackId, Track>, b: Bookmark): (r: Option<TrackId>)
    ensures r.Some? ==> r.value in tracks
  {
    match b.trackId
    case None => FindByNumber(tracks, b.trackNumber)
    case Some(id) => if id in tracks then Some(id) else None
  }

  /** `track.user = user.phone`. */
  function Stamp(t: Track, phone: string): Track
  {
    t.(user := phone)
  }

  /** The not-found entry of a bookmark: its number, timestamp and description. */
  function UnresolvedOf(b: Bookmark): Unresolved
  {
    Unresolved(b.trackNumber, b.createdAt, b.description)
  }

  /** The bookmark after the handler is done with it: a resolved bookmark carries
      the id of its track (backfilled when it had none); an unresolved one is untouched. */
  function Backfilled(tracks: map<TrackId, Track>, b: Bookmark): Bookmark
  {
    match Target(tracks, b)
    case None => b
    case Some(id) => b.(trackId := Some(id))
  }

  /** The resolved entry of a bookmark whose track is `id`, stated on the store as
      it was before the request. */
  function ResolvedOf(tracks: map<TrackId, Track>, phone: string, b: Bookmark, id: TrackId): Resolved
    requires id in tracks
  {
    Resolved(b.(trackId := Some(id)), Stamp(tracks[id], phone), tracks[id].history)
  }

  /** State of the handler after some of the page's bookmarks: the two output lists,
      the processed bookmarks as they now are, the track store, and whether the
      user record has been saved. */
  datatype Progress = Progress(
    updated: seq<Resolved>,
    notFound: seq<Unresolved>,
    window: seq<Bookmark>,
    tracks: map<TrackId, Track>,
    userSaved: bool)

  /** The bookmark has no reference and its tracking number finds a track: the
      handler writes the reference back and saves the user record. */
  predicate Backfills(tracks: map<TrackId, Track>, b: Bookmark)
  {
    b.trackId.None? && Target(tracks, b).Some?
  }

  /** The handler's work on one bookmark, against the current track store. */
  function Step(acc: Progress, phone: string, b: Bookmark): (next: Progress)
    ensures |next.updated| + |next.notFound| == |acc.updated| + |acc.notFound| + 1
    ensures |next.window| == |acc.window| + 1
    ensures next.tracks.Keys == acc.tracks.Keys
  {
    match Target(acc.tracks, b)
    case None =>
      acc.(notFound := acc.notFound + [UnresolvedOf(b)], window := acc.window + [b])
    case Some(id) =>
      var b' := b.(trackId := Some(id));
      var t := Stamp(acc.tracks[id], phone);
      acc.(updated := acc.updated + [Resolved(b', t, t.history)],
           window := acc.window + [b'],
           tracks := acc.tracks[id := t],
           userSaved := acc.userSaved || Backfills(acc.tracks, b))
  }

  /** One step keeps every earlier entry and adds exactly one new entry, to
      exactly one of the two lists, and says what that entry is. */
  lemma StepAppendsOneEntry(acc: Progress, phone: string, b: Bookmark)
    ensures var next := Step(acc, phone, b);
      |next.window| == |acc.window| + 1 && next.window[..|acc.window|] == acc.window
    // the processed bookmark is the original, with its reference backfilled if it
    // resolves; the user is saved exactly when a reference was backfilled
    ensures var next := Step(acc, phone, b);
      && next.window == acc.window + [Backfilled(acc.tracks, b)]
      && next.userSaved == (acc.userSaved || Backfills(acc.tracks, b))
    // a bookmark whose track is not found adds its not-found entry and nothing else
    ensures var next := Step(acc, phone, b);
      Target(acc.tracks, b).None? ==>
        && next.updated == acc.updated
        && next.notFound == acc.notFound + [UnresolvedOf(b)]
        && next.window[|acc.window|] == b
        && next.tracks == acc.tracks
    // a bookmark whose track is found adds one resolved entry, naming that track
    // stamped with the phone, and keeps the not-found list
    ensures var next := Step(acc, phone, b);
      Target(acc.tracks, b).Some? ==>
        var id := Target(acc.tracks, b).value;
        && next.notFound == acc.notFound
        && |next.updated| == |acc.updated| + 1
        && next.updated[..|acc.updated|] == acc.updated
        && next.updated[|acc.updated|].bookmark == next.window[|acc.window|]
        && next.window[|acc.window|].trackId == Some(id)
        && id in next.tracks
        && next.updated[|acc.updated|].trackDetails == next.tracks[id]
        && next.tracks[id].user == phone
        && next.tracks == acc.tracks[id := Stamp(acc.tracks[id], phone)]
        && next.updated[|acc.updated|].history == acc.tracks[id].history
  {
  }

  /** The handler's work on the bookmarks of one page, one after the other. */
  function ResolvePage(tracks: map<TrackId, Track>, phone: string, w: seq<Bookmark>): (acc: Progress)
    ensures |acc.updated| + |acc.notFound| == |w|
    ensures |acc.window| == |w|
    ensures acc.tracks.Keys == tracks.Keys
    decreases |w|
  {
    if w == [] then Progress([], [], [], tracks, false)
    else Step(ResolvePage(tracks, phone, w[..|w| - 1]), phone, w[|w| - 1])
  }

  /** One more bookmark at the end of the page is one more step. */
  lemma ResolvePageSnoc(tracks: map<TrackId, Track>, phone: string, w: seq<Bookmark>, b: Bookmark)
    ensures ResolvePage(tracks, phone, w + [b]) == Step(ResolvePage(tracks, phone, w), phone, b)
  {
    assert (w + [b])[..|w + [b]| - 1] == w;
  }

  // ---------------------------------------------------------------------------
  // Reference definitions: each bookmark's fate decided on the initial store alone.

  /** The resolved entries of a page, bookmark by bookmark. */
  function UpdatedOf(tracks: map<TrackId, Track>, phone: string, w: seq<Bookmark>): seq<Resolved>
    decreases |w|
  {
    if w == [] then []
    else
      var rest := UpdatedOf(tracks, phone, w[..|w| - 1]);
      var b := w[|w| - 1];
      match Target(tracks, b)
      case None => rest
      case Some(id) => rest + [ResolvedOf(tracks, phone, b, id)]
  }

  /** The not-found entries of a page, bookmark by bookmark. */
  function NotFoundOf(tracks: map<TrackId, Track>, w: seq<Bookmark>): seq<Unresolved>
    decreases |w|
  {
    if w == [] then []
    else
      var rest := NotFoundOf(tracks, w[..|w| - 1]);
      var b := w[|w| - 1];
      if Target(tracks, b).None? then rest + [UnresolvedOf(b)] else rest
  }

  /** Track `id` is the track of some bookmark of the page. */
  predicate ResolvedIn(tracks: map<TrackId, Track>, w: seq<Bookmark>, id: TrackId)
  {
    exists k :: 0 <= k < |w| && Target(tracks, w[k]) == Some(id)
  }

  /** Some bookmark of the page had no reference and was matched by number. */
  predicate SomeBackfill(tracks: map<TrackId, Track>, w: seq<Bookmark>)
  {
    exists k :: 0 <= k < |w| && w[k].trackId.None? && Target(tracks, w[k]).Some?
  }

  /** Two track stores that agree on ids and tracking numbers. */
  predicate SameIndex(t1: map<TrackId, Track>, t2: map<TrackId, Track>)
  {
    t1.Keys == t2.Keys && forall id :: id in t1 ==> t1[id].track == t2[id].track
  }

  /** Lookups only look at ids and tracking numbers, which phone stamping leaves alone. */
  lemma TargetDependsOnIndexOnly(t1: map<TrackId, Track>, t2: map<TrackId, Track>, b: Bookmark)
    requires SameIndex(t1, t2)
    ensures Target(t1, b) == Target(t2, b)
  {
    if b.trackId.None? {
      var r1, r2 := FindByNumber(t1, b.trackNumber), FindByNumber(t2, b.trackNumber);
      assert forall id :: HasNumber(t1, id, b.trackNumber) <==> HasNumber(t2, id, b.trackNumber);
      if r1.Some? && r2.Some? {
        assert r1.value <= r2.value && r2.value <= r1.value;
      }
    }
  }

  lemma ResolvedInSnoc(tracks: map<TrackId, Track>, w: seq<Bookmark>, id: TrackId)
    requires w != []
    ensures ResolvedIn(tracks, w, id) <==>
      ResolvedIn(tracks, w[..|w| - 1], id) || Target(tracks, w[|w| - 1]) == Some(id)
  {
    var w0 := w[..|w| - 1];
    if ResolvedIn(tracks, w, id) {
      var k :| 0 <= k < |w| && Target(tracks, w[k]) == Some(id);
      if k < |w0| { assert Target(tracks, w0[k]) == Some(id); }
    }
    if ResolvedIn(tracks, w0, id) {
      var k :| 0 <= k < |w0| && Target(tracks, w0[k]) == Some(id);
      assert Target(tracks, w[k]) == Some(id);
    }
  }

  /** The track store after a page: same ids and numbers, and exactly the tracks
      of the page's resolved bookmarks carry the requester's phone; every other
      track is as it was. */
  lemma {:induction false} ResolvePageTracks(tracks: map<TrackId, Track>, phone: string, w: seq<Bookmark>)
    ensures var acc := ResolvePage(tracks, phone, w);
      && SameIndex(acc.tracks, tracks)
      && forall id :: id in tracks ==>
           acc.tracks[id] == if ResolvedIn(tracks, w, id) then Stamp(tracks[id], phone) else tracks[id]
    decreases |w|
  {
    if w != [] {
      var w0, b := w[..|w| - 1], w[|w| - 1];
      ResolvePageTracks(tracks, phone, w0);
      var acc0 := ResolvePage(tracks, phone, w0);
      TargetDependsOnIndexOnly(acc0.tracks, tracks, b);
      forall id | id in tracks
        ensures ResolvedIn(tracks, w, id) <==> ResolvedIn(tracks, w0, id) || Target(tracks, b) == Some(id)
      {
        ResolvedInSnoc(tracks, w, id);
      }
    }
  }

  /** The two output lists of the loop are the reference lists. */
  lemma {:induction false} ResolvePageLists(tracks: map<TrackId, Track>, phone: string, w: seq<Bookmark>)
    ensures ResolvePage(tracks, phone, w).updated == UpdatedOf(tracks, phone, w)
    ensures ResolvePage(tracks, phone, w).notFound == NotFoundOf(tracks, w)
    decreases |w|
  {
    if w != [] {
      var w0, b := w[..|w| - 1], w[|w| - 1];
      ResolvePageLists(tracks, phone, w0);
      ResolvePageTracks(tracks, phone, w0);
      var acc0 := ResolvePage(tracks, phone, w0);
      TargetDependsOnIndexOnly(acc0.tracks, tracks, b);
    }
  }

  /** Each processed bookmark is the backfilled original. */
  lemma {:induction false} ResolvePageWindow(tracks: map<TrackId, Track>, phone: string, w: seq<Bookmark>)
    ensures forall k :: 0 <= k < |w| ==> ResolvePage(tracks, phone, w).window[k] == Backfilled(tracks, w[k])
    decreases |w|
  {
    if w != [] {
      var w0, b := w[..|w| - 1], w[|w| - 1];
      ResolvePageWindow(tracks, phone, w0);
      ResolvePageTracks(tracks, phone, w0);
      var acc0 := ResolvePage(tracks, phone, w0);
      var acc := ResolvePage(tracks, phone, w);
      TargetDependsOnIndexOnly(acc0.tracks, tracks, b);
      assert acc.window == acc0.window + [Backfilled(tracks, b)];
      forall k | 0 <= k < |w| ensures acc.window[k] == Backfilled(tracks, w[k]) {
        if k < |w0| {
          assert acc.window[k] == acc0.window[k];
          assert w0[k] == w[k];
        }
      }
    }
  }

  lemma SomeBackfillSnoc(tracks: map<TrackId, Track>, w: seq<Bookmark>)
    requires w != []
    ensures SomeBackfill(tracks, w) <==>
      SomeBackfill(tracks, w[..|w| - 1]) || (w[|w| - 1].trackId.None? && Target(tracks, w[|w| - 1]).Some?)
  {
    var w0 := w[..|w| - 1];
    if SomeBackfill(tracks, w) {
      var k :| 0 <= k < |w| && w[k].trackId.None? && Target(tracks, w[k]).Some?;
      if k < |w0| { assert w0[k] == w[k]; }
    }
    if SomeBackfill(tracks, w0) {
      var k :| 0 <= k < |w0| && w0[k].trackId.None? && Target(tracks, w0[k]).Some?;
      assert w[k] == w0[k];
    }
  }

  /** The user record is saved exactly when some bookmark of the page was backfilled. */
  lemma {:induction false} ResolvePageSaved(tracks: map<TrackId, Track>, phone: string, w: seq<Bookmark>)
    ensures ResolvePage(tracks, phone, w).userSaved <==> SomeBackfill(tracks, w)
    decreases |w|
  {
    if w != [] {
      var w0, b := w[..|w| - 1], w[|w| - 1];
      ResolvePageSaved(tracks, phone, w0);
      ResolvePageTracks(tracks, phone, w0);
      var acc0 := ResolvePage(tracks, phone, w0);
      TargetDependsOnIndexOnly(acc0.tracks, tracks, b);
      SomeBackfillSnoc(tracks, w);
    }
  }
}
