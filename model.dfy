/** The records the bookmark handler reads and writes: users with their embedded
    bookmark lists, tracked items with their status history, and the response. */
module Model {

  datatype Option<+T> = None | Some(value: T)

  /** Store identifiers. Track ids are naturals so that "the first matching
      track" of a lookup by tracking number has a definite meaning (the lowest id). */
  type UserId = nat
  type TrackId = nat

  /** A bookmark embedded in a user record. `trackId` is the optional reference
      to a tracked item; `createdAt` is a timestamp. */
  datatype Bookmark = Bookmark(
    trackId: Option<TrackId>,
    trackNumber: string,
    description: string,
    createdAt: int)

  /** One entry of a tracked item's history, with the display text of its status. */
  datatype StatusEvent = StatusEvent(statusText: string, date: int)

  /** A tracked item: its external tracking number (`track`), the phone of the
      last user who viewed it (`user`) and its status history. */
  datatype Track = Track(track: string, user: string, history: seq<StatusEvent>)

  datatype User = User(phone: string, bookmarks: seq<Bookmark>)

  /** An entry of `updatedBookmarks`: the bookmark's fields, the track and its history. */
  datatype Resolved = Resolved(bookmark: Bookmark, trackDetails: Track, history: seq<StatusEvent>)

  /** An entry of `notFoundBookmarks`. */
  datatype Unresolved = Unresolved(trackNumber: string, createdAt: int, description: string)

  /** What the handler answers: 404 for an unknown user, or the page with its totals. */
  datatype Response =
    | NotFound
    | Ok(updatedBookmarks: seq<Resolved>, notFoundBookmarks: seq<Unresolved>,
         totalPages: nat, totalBookmarks: nat)
}
