# Bookmark page handler

A Dafny model of `getUserBookmarks`, the request handler of a package-tracking
service that returns one page of a user's bookmarked tracking numbers. The
handler does five things:

- it loads the user;
- it sorts the user's bookmarks newest first, in place;
- it takes a page of 20 bookmarks;
- it resolves each bookmark of the page to its tracked item, either through the
  bookmark's stored reference or by the bookmark's tracking number;
- it reports the page in two lists, `updatedBookmarks` (resolved) and
  `notFoundBookmarks`, together with `totalPages` and `totalBookmarks`.

Along the way it writes to the stores. When a bookmark had no reference and its
number finds a track, the handler writes the reference back into the bookmark
and saves the user. Every track it resolves gets the requester's phone in its
`user` field.

Files and modules:

- `model.dfy` (`Model`): the records (users, bookmarks, tracks, status events)
  and the response. An unknown user gets `NotFound` (the 404); otherwise the
  answer is `Ok` with the two lists and the two totals.
- `paging.dfy` (`Paging`): how the `page` query is read, and the page window.
  The window follows JavaScript `slice` exactly, negative bounds included. Also
  the page count, with lemmas about windows and pages.
- `sorting.dfy` (`Sorting`): the newest-first insertion sort on an `array`,
  proved sorted and a permutation of its input.
- `resolution.dfy` (`Resolution`): what happens to each bookmark, written on
  values. `Step` handles one bookmark and `ResolvePage` is the loop over a page.
  `UpdatedOf` and `NotFoundOf` are reference definitions that decide each
  bookmark's fate from the track store as it was before the request. The lemmas
  prove that the loop agrees with them.
- `properties.dfy` (`ResolutionProperties`): the promises about single
  bookmarks, stated on `ResolvePage`.
- `handler.dfy` (`Handler`): class `Database`. It holds the two stores as map
  fields `users` and `tracks`. It has three methods:
  - `GetUserBookmarks`, the handler;
  - `ResolveWindow`, the loop over the page;
  - `ResolveBookmark`, the per-bookmark callback.

  Each method's `ensures` ties its result and the new stores to the functions above.

Modelling decisions:

- **Concurrency.** The source resolves the page's bookmarks concurrently
  (`Promise.all`). The model resolves them one after the other, in page order.
  `TargetDependsOnIndexOnly` shows that a lookup reads only track ids and
  tracking numbers, and the handler never writes either. So every bookmark's
  outcome, and the final state of both stores, is the same in any order. What
  the order does change is the order of the two output lists: in the source it
  is the order in which lookups complete. The properties about the lists
  (`UpdatedMembership`, `NotFoundMembership` and the per-case lemmas) are
  therefore stated as membership and counts, not positions.
- **Page query.** `parseInt(req.query.page) || 1` is modelled by `PageNumber`.
  The query is an `Option<int>`, where `None` stands for a non-numeric page (the
  NaN of `parseInt`). NaN and 0 become 1. Negative numbers are kept, and `slice`
  then counts from the end of the list (`NegativePageCountsFromEnd`). The code
  accepts any integer page, and so does the model.
- **Lookup by tracking number.** `Track.findOne({ track })` returns the first
  matching track. With several matches the store does not say which one is
  first. The model picks the one with the lowest id (`FindByNumber`). Ids are
  naturals.
- **Saving the user.** `user.save()` runs after each backfill. It stores the
  in-memory user record, and in that record the bookmark list is already sorted
  and holds every backfill made so far. The model writes that record to
  `users` when at least one bookmark of the page is backfilled, and leaves
  `users` unchanged otherwise.
- **Timestamps.** `createdAt` is an integer timestamp. `Math.ceil(total / 20)`
  becomes integer ceiling division.

## Model

| member | source | states |
|---|---|---|
| `Paging.PageNumber` | middleware/bookmarks.middleware.js:8 | the page is never 0. A missing or non-numeric page, or page 0, becomes 1; any other number is kept |
| `Paging.WindowBounds` | middleware/bookmarks.middleware.js:26 | the slice bounds satisfy lo <= hi <= list length and hi - lo <= 20, for every page, negative ones included |
| `Paging.Window` | middleware/bookmarks.middleware.js:26 | a page holds at most 20 bookmarks |
| `Paging.TotalPages` | middleware/bookmarks.middleware.js:88 | the result is the ceiling of n / 20: n <= pages * 20 < n + 20 |
| `Paging.WindowOfPage` | middleware/bookmarks.middleware.js:9-10 | a positive page is the contiguous run of min(20, n - skip) bookmarks that starts at skip = (page - 1) * 20, and is empty when skip >= n |
| `Paging.PastLastPage` | middleware/bookmarks.middleware.js:26 | a page beyond `TotalPages` is empty |
| `Paging.PageNonEmptyIff` | middleware/bookmarks.middleware.js:26 | for a positive page, the page has bookmarks if and only if page <= TotalPages(n) |
| `Paging.PageOfIndex` | middleware/bookmarks.middleware.js:9-10 | bookmark i of the list is shown at position i % 20 of page i / 20 + 1, and that page is between 1 and TotalPages |
| `Paging.NegativePageCountsFromEnd` | middleware/bookmarks.middleware.js:8-10 | for a negative page, with skip = (page - 1) * 20 also negative, the page is the run from n + skip to n + skip + 20, each bound clamped at 0, as `slice` with negative bounds does; when n + skip >= 0 that is the 20 bookmarks starting -skip places before the end, otherwise a shorter run at the start of the list (page -1 on 30 bookmarks gives the first 10) |
| `Paging.PagesPrefix` | middleware/bookmarks.middleware.js:26 | pages 1 to c, one after the other, are the first min(c * 20, n) bookmarks |
| `Paging.PagesCoverList` | middleware/bookmarks.middleware.js:87-88 | pages 1 to TotalPages, one after the other, are exactly the whole list: each bookmark is on exactly one page |
| `Sorting.SortNewestFirst` | middleware/bookmarks.middleware.js:21 | after the in-place sort, the array is in non-increasing `createdAt` order and is a permutation of what it held before |
| `Sorting.NewerNotOnLaterPage` | middleware/bookmarks.middleware.js:21-26 | in a newest-first list, a strictly newer bookmark comes earlier and is on the same page or an earlier one |
| `Resolution.FindByNumber` | middleware/bookmarks.middleware.js:32 | the lookup by tracking number returns a track with that number and no lower id, and returns None exactly when no track has that number |
| `Resolution.Step` | middleware/bookmarks.middleware.js:29-84 | the two lists together grow by one entry, the processed bookmarks by one, and the set of track ids is unchanged |
| `Resolution.StepAppendsOneEntry` | middleware/bookmarks.middleware.js:29-84 | one bookmark keeps all earlier entries and adds exactly one new entry to exactly one list. A bookmark whose track is not found adds its number, timestamp and description to `notFound`, stays as it was, and leaves the store unchanged. A bookmark whose track is found adds to `updated` an entry whose bookmark is the original bookmark with that track's id written in, whose details are the track as stored afterwards, and whose history is the track's history; the store changes only in that track, which gets the requester's phone and keeps its other fields. The processed bookmark is the original with its reference backfilled when it resolves, and the user is marked saved exactly when a missing reference was backfilled |
| `Resolution.ResolvePage` | middleware/bookmarks.middleware.js:28-85 | the loop over the page gives as many entries in the two lists together as the page has bookmarks, keeps one processed bookmark per page bookmark, and keeps the set of track ids |
| `Resolution.TargetDependsOnIndexOnly` | middleware/bookmarks.middleware.js:28-85 | two stores with the same ids and tracking numbers resolve every bookmark alike, so phone stamping never changes the outcome of another bookmark |
| `Resolution.ResolvePageTracks` | middleware/bookmarks.middleware.js:39-41 | after the page, each track that some page bookmark resolved to is the original track with its `user` set to the requester's phone, and every other track is unchanged; the set of ids and every tracking number are kept |
| `Resolution.ResolvePageLists` | middleware/bookmarks.middleware.js:47-81 | the two output lists equal the reference lists, in which each bookmark's fate is decided on the store as it was before the request |
| `Resolution.ResolvePageWindow` | middleware/bookmarks.middleware.js:36 | each processed bookmark has the id of its track when one was found (backfilled if it had none) and is untouched otherwise |
| `Resolution.ResolvePageSaved` | middleware/bookmarks.middleware.js:36-37 | the user record is saved if and only if some bookmark of the page had no reference and its number found a track |
| `ResolutionProperties.UpdatedMembership` | middleware/bookmarks.middleware.js:47-51 | an entry is in `updatedBookmarks` if and only if it is the resolved entry of a page bookmark whose track was found |
| `ResolutionProperties.NotFoundMembership` | middleware/bookmarks.middleware.js:54-58 | an entry is in `notFoundBookmarks` if and only if it is the number, timestamp and description of a page bookmark whose track was not found |
| `ResolutionProperties.LinkedBookmarkResolved` | middleware/bookmarks.middleware.js:62-74 | a bookmark whose reference names an existing track lands in `updatedBookmarks` with that track (phone-stamped) and its history, and is itself unchanged |
| `ResolutionProperties.DanglingBookmarkNotFound` | middleware/bookmarks.middleware.js:75-81 | a bookmark whose reference names no track lands in `notFoundBookmarks` and is unchanged |
| `ResolutionProperties.UnmatchedBookmarkNotFound` | middleware/bookmarks.middleware.js:52-58 | a bookmark with no reference and no track of its number yields a not-found entry holding exactly its number, timestamp and description; it keeps no reference and resolves to no track, so no track is written for it |
| `ResolutionProperties.BackfilledBookmarkResolved` | middleware/bookmarks.middleware.js:30-51 | a bookmark with no reference whose number finds track id gets `trackId = id` written back, the user is saved, and it lands in `updatedBookmarks` with that track (phone-stamped) and its history |
| `ResolutionProperties.PhoneStamping` | middleware/bookmarks.middleware.js:39-41 | every entry of `updatedBookmarks` names a track that afterwards holds the requester's phone and equals the reported details, with matching history; a track that no page bookmark resolved to is unchanged |
| `Handler.ServedPartition` | middleware/bookmarks.middleware.js:87-90 | a served page has as many entries in its two lists together as its window has bookmarks (at most 20), and its totals are the length of the whole list and its ceiling page count |
| `Handler.ServedPastEnd` | middleware/bookmarks.middleware.js:26 | a page past the last one answers two empty lists with the correct totals, and writes neither store |
| `Handler.Database.GetUserBookmarks` | middleware/bookmarks.middleware.js:5-90 | an unknown user gets NotFound, whatever the page, and nothing is written. A known user gets totals from the full list and the page of some newest-first permutation of the bookmarks, resolved by `ResolvePage`; the stores are left as `ResolvePage` says |
| `Handler.Database.ResolveWindow` | middleware/bookmarks.middleware.js:28-85 | the loop over a[lo..hi] returns the two lists of `ResolvePage` and leaves the track store it gives. It replaces a[lo..hi] by the processed bookmarks and saves the user exactly when `ResolvePage` says so |
| `Handler.Database.ResolveBookmark` | middleware/bookmarks.middleware.js:29-84 | one callback appends to the lists and writes the track store as `Step` does. It replaces a[i] by its backfilled form and, on a backfill only, saves the user with the current list |

## Left out

- Database and framework I/O are not modelled as calls. Mongoose's
  `findById`, `findOne`, `populate`, `save` and `toObject` become reads and
  writes of the two maps. Express's request and response objects become the
  method's parameters and its `Response` value.
- `populate('history.status', 'statusText')` is modelled as attaching the
  track's stored history (`StatusEvent` already carries its status text).
- `populate('bookmarks.trackId')` is modelled as keeping the bookmark's
  reference as it is. In Mongoose, populating a reference that names no
  document replaces it with null, and that would send such a bookmark to the
  lookup by number. The model follows the handler's own branches instead: a
  dangling reference goes to `notFoundBookmarks`.
- The populated track object inside a resolved bookmark (`...bookmark.toObject()`)
  is represented by the track's id.
- Concurrency is left out. There are no interleavings inside `Promise.all`, no
  lost updates between concurrent requests, and no Mongoose error for saving the
  same document twice in parallel. Each of these needs a scheduler that a
  sequential model does not have.
- The 500 path (`catch`, `console.error`) is left out. It exists only for
  exceptions raised by the database layer, and map reads and writes cannot
  raise them.
- `parseInt` string parsing is left out. The page arrives as an optional
  integer, and `None` stands for a value that does not parse.
- `Sorting.SortNewestFirst`: it does not state that bookmarks with equal
  `createdAt` keep their order, which JavaScript's stable sort guarantees.
- `Resolution.FindByNumber`: it picks the lowest id among several tracks with
  the same number. The source's `findOne` only promises "some first match".
- The `Track` and `User` schemas are not part of this model. Only the fields the
  handler touches are represented.
