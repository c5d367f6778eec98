# Serenity music backend: a Dafny model

This project models the backend bookkeeping of a calming-music web application.
Signed-in users ask for AI-generated tracks in four genres (jazz, ambient, lofi,
classical). They watch each track go from pending through generating to ready
or failed, mark favorites, and play tracks back. Three tables are scoped to the
signed-in user: `tracks`, `favorites` and `playHistory`. The model covers the
operations over them and the orchestrator that moves a track through its
statuses.

- `schema.dfy` (module `Schema`): the three record shapes. The optional columns
  (`audioUrl`, `imageUrl`, `sunoTaskId`, `duration`) are `Option`s. `genre` and
  `status` are plain strings, because the schema does not constrain them. The
  intended status values are named constants and nothing more. Uniqueness of
  a (user, track) pair in `favorites` is not part of the schema. It appears
  only as the invariant `Favorites.Unique`, which the store keeps.
- `seqs.dfy` (module `Seqs`): filtering, the first-occurrence de-duplication
  that spreading a JavaScript `Set` performs, first-occurrence index and prefix.
- `tracks.dfy` (module `Tracks`): the reads `list`, `getById`, `getReady` and
  `getRecentlyPlayed` as functions over the tables. Also the row filters that
  the cascade of `remove` leaves behind.
- `favorites.dfy` (module `Favorites`): `isFavorite`, `list`, and `toggle` as a
  function from the rows before to the rows after plus the returned flag.
- `store.dfy` (module `Db`): class `Store` holds the tracks map, the favorites
  and play-history sequences, the id counter and a clock. Its methods are the
  mutations `create`, `updateStatus`, `remove`, `recordPlay` and `toggle`.
  Each one runs as one atomic step and is proved against the functions above.
  A ghost status log records every successful `updateStatus` write, so the
  order of the writes of `generateMusic` is part of the store's state.
- `suno.dfy` (module `Suno`): `generateMusic`. It covers the genre descriptor
  table, the enriched prompt, the demo audio table, and the status sequence
  generating → ready | failed, including the catch-and-rethrow.

The caller's identity is an explicit `Option<UserId>` parameter (`None` when
nobody is signed in). `Date.now()` is the store's `clock`, which advances by one
each time a handler reads it. Track ids come from a counter, so "newest first"
on the tracks table means descending id. Rows of `favorites` and `playHistory`
are kept in insertion order, which is the order the descending index reads
reverse. The music provider is the parameter `provider: SunoRequest ->
ProviderOutcome`. Its outcome is a response body (`Responded`), a non-ok
status (`NotOk`) or a thrown error (`Threw`). Whether an API key is configured
is the boolean `keyConfigured`.

Where the application's stated intent and the code disagree, the model
follows the code:
- `create` validates neither title, prompt nor genre.
- `updateStatus` accepts any status string from the track's owner, with no
  transition check. So a track's asset fields are not tied to status "ready".
- `toggle`, `recordPlay`, favorites `list` and `getRecentlyPlayed` never check
  that a track belongs to the caller. A user who marks or plays another user's
  ready track gets it back from these reads
  (`Tracks.RecentlyPlayedIsNotOwnerScoped`).

## Model

| member | source | states |
|---|---|---|
| `Seqs.Dedup` | convex/tracks.ts:167 | the result holds exactly the elements of the input, each once |
| `Seqs.DedupKeepsFirstOccurrenceOrder` | convex/tracks.ts:167 | de-duplication lists elements in the order of their first occurrence, so the most recent play of each track decides its place |
| `Tracks.ByCreationDesc` | convex/tracks.ts:13-17 | the tracks table read newest first: exactly the stored documents, in strictly descending id |
| `Tracks.List` | convex/tracks.ts:9-23 | empty for an anonymous caller; otherwise exactly the caller's stored tracks, restricted to the genre when a non-empty genre is given, newest first |
| `Tracks.GetById` | convex/tracks.ts:30-36 | a track comes back iff the caller is signed in, the track exists and the caller owns it, and then it is the stored track |
| `Tracks.GetReady` | convex/tracks.ts:43-54 | empty for an anonymous caller; otherwise exactly the caller's tracks with status "ready", newest first |
| `Tracks.GetReadyIsReadyPartOfList` | convex/tracks.ts:43-54 | `getReady` equals `list` without a genre, filtered to status "ready", order included |
| `Tracks.Resolve` | convex/tracks.ts:168-172 | looking ids up keeps exactly the existing ready tracks among them, never more than there are ids |
| `Tracks.ResolveKeepsOrder` | convex/tracks.ts:168-172 | looking ids up keeps their relative order |
| `Tracks.PlaysDesc` | convex/tracks.ts:161-164 | the caller's play events newest first: a track id occurs iff the caller has a play event for it |
| `Tracks.PlaysDescFollowsTable` | convex/tracks.ts:161-164 | newest first against the table: the k-th id is the track of the caller's k-th latest event, the positions of the caller's events strictly descending and covering all of them |
| `Tracks.RecentWindow` | convex/tracks.ts:161-165 | the window is the tracks of the caller's latest events, latest first, ten of them or all when there are fewer |
| `Tracks.RecentWindowHasTheLatestPlays` | convex/tracks.ts:161-165 | the window has no gaps: every event of the caller at or after its k-th event is one of its first k + 1 events, so the 10 oldest can never stand in for the 10 latest |
| `Tracks.LatestPlayInWindow` | convex/tracks.ts:161-167 | the place of a track in the window is its latest play: the event there plays it, and no later event of the caller does |
| `Tracks.RecentlyPlayed` | convex/tracks.ts:158-172 | empty for an anonymous caller; at most 5 tracks; each is a current track with status "ready" played within the caller's 10 latest events |
| `Tracks.RecentlyPlayedMostRecentFirst` | convex/tracks.ts:161-172 | the result is ordered by most recent play: a track listed earlier has its latest play later in the table; no track appears twice |
| `Tracks.PlayedTrackComesFirst` | convex/tracks.ts:141-172 | after `recordPlay` the played track heads the caller's window, and when it exists and is ready it is the first track `getRecentlyPlayed` returns |
| `Tracks.RecentlyPlayedSelects` | convex/tracks.ts:167-172 | a track is returned iff it is among the first 5 distinct tracks of the window and is current and ready |
| `Tracks.RecentlyPlayedExample` | convex/tracks.ts:161-172 | plays of A, B, A, C, B, A (latest last) give A, B, C |
| `Tracks.RecentlyPlayedTruncatesBeforeFiltering` | convex/tracks.ts:167-172 | truncating to 5 ids comes before dropping missing tracks: a ready track played sixth-most-recently is not returned even though the five after it are gone |
| `Tracks.RecentlyPlayedIsNotOwnerScoped` | convex/tracks.ts:161-172 | a play of another user's ready track returns that track to the player |
| `Tracks.FavoritesWithout` | convex/tracks.ts:121-127 | after the favorites cascade, a row remains iff it was there and points at another track, whoever owns it |
| `Tracks.PlaysWithout` | convex/tracks.ts:129-135 | after the playHistory cascade, an event remains iff it was there and points at another track |
| `Favorites.FirstRow` | convex/favorites.ts:51-56 | the lookup by (user, track) finds nothing iff no such row exists, and otherwise the first such row |
| `Favorites.IsFavorite` | convex/favorites.ts:31-41 | true iff the caller is signed in and a favorites row (caller, track) exists |
| `Favorites.Toggled` | convex/favorites.ts:51-68 | toggle inserts iff no (caller, track) row exists, and the pair then has a row; otherwise the table has one row fewer |
| `Favorites.ToggleChangesOnlyTheCallersRow` | convex/favorites.ts:45-69 | toggle either adds exactly the row (caller, track, now) or removes exactly one (caller, track) row; every other row stays, and the track is not consulted |
| `Favorites.ToggleKeepsUnique` | convex/favorites.ts:51-68 | with at most one row per (user, track) before a toggle, there is at most one after it |
| `Favorites.ToggleReportsNewState` | convex/favorites.ts:58-68 | with unique rows, toggle returns the new `isFavorite` answer, which is the negation of the old one |
| `Favorites.ToggleTwiceRestores` | convex/favorites.ts:51-68 | toggling twice restores the `isFavorite` answer, and from "not a favorite" it restores the exact rows |
| `Favorites.DuplicateRowsBreakToggle` | convex/schema.ts:31 | the pair is only an index: with two rows for one pair, toggle returns false while the track stays a favorite |
| `Favorites.FavoritedDesc` | convex/favorites.ts:11-15 | the caller's favorites newest first: a track id occurs iff the caller has a row for it |
| `Favorites.FavoritedDescFollowsTable` | convex/favorites.ts:11-15 | newest first against the table: the k-th id is the track of the caller's k-th latest row |
| `Favorites.UniqueRowIsFirst` | convex/favorites.ts:51-56 | with unique rows, the lookup by (user, track) finds the pair's only row |
| `Favorites.FavoritedDescByRow` | convex/favorites.ts:11-15 | with unique rows, the caller's favorites come in strictly descending order of their row in the table |
| `Favorites.List` | convex/favorites.ts:8-24 | empty for an anonymous caller; otherwise exactly the current ready tracks the caller has a row for, deleted and not-ready ones dropped |
| `Favorites.ListMostRecentFirst` | convex/favorites.ts:11-24 | with unique rows, the listed tracks keep the order of the caller's favorites |
| `Favorites.ListFollowsRowOrder` | convex/favorites.ts:11-24 | with unique rows, the caller's row of a track listed earlier comes later in the table: most recently marked first |
| `Favorites.ToggleOnComesFirst` | convex/favorites.ts:11-68 | after a toggle that returns true, the track heads the caller's favorites |
| `Favorites.ToggleThenList` | convex/favorites.ts:17-24 | for a ready track, it is listed after a toggle iff that toggle returned true |
| `Favorites.CascadeKeepsUnique` | convex/tracks.ts:121-127 | deleting a track's favorites rows keeps the rows unique |
| `Db.DeleteFavoritesOf` | convex/tracks.ts:121-127 | the favorites cascade loop leaves exactly the rows that point at other tracks |
| `Db.DeletePlaysOf` | convex/tracks.ts:129-135 | the playHistory cascade loop leaves exactly the events that point at other tracks |
| `Db.Store.Create` | convex/tracks.ts:65-77 | throws "Not authenticated" and changes nothing without a caller; otherwise inserts exactly one track under a fresh id, owned by the caller, status "pending", createdAt now, no asset fields, inputs unchecked, and returns that id |
| `Db.Store.UpdateStatus` | convex/tracks.ts:91-105 | throws "Not authenticated" or "Track not found" (missing or someone else's) and changes nothing, its status log included; otherwise sets any status, appends (track, status) to the log, and overwrites each asset field only when its argument is truthy; no other field or track changes |
| `Db.Store.Remove` | convex/tracks.ts:112-137 | a failed check deletes nothing; a successful one removes the track, every favorites and playHistory row of any user that points at it, and nothing else; no caller can get the track afterwards |
| `Db.Store.RecordPlay` | convex/tracks.ts:144-151 | throws without a caller; otherwise appends exactly one event (caller, track, now) without checking the track |
| `Db.Store.Toggle` | convex/favorites.ts:48-68 | throws and changes nothing without a caller; otherwise applies `Favorites.Toggled`, returns the new `isFavorite` answer (the negation of the old one) and keeps the rows unique |
| `Suno.Descriptor` | convex/suno.ts:25-32 | the genre's descriptor from the four-entry table, the ambient one for any other genre, never empty |
| `Suno.SampleAudioUrl` | convex/suno.ts:72-82 | the genre's demo audio URL, the ambient one for any other genre, never empty |
| `Suno.EnhancedPrompt` | convex/suno.ts:32 | the enriched prompt keeps the user's prompt unchanged as its start, then ", ", then the genre's descriptor |
| `Suno.RequestFor` | convex/suno.ts:46-50 | the request carries the user's prompt followed by the genre's descriptor, 60 seconds, instrumental |
| `Suno.RequestsTellGenresApart` | convex/suno.ts:25-50 | for one prompt, two different genres of the table give two different provider requests and two different demo tracks |
| `Suno.UnknownGenreFallsBackToAmbient` | convex/suno.ts:25-32 | a genre outside the table is handled exactly as ambient, both in the provider request and in demo mode |
| `Suno.GenerateMusic` | convex/suno.ts:16-94 | if the first "generating" write throws, its error propagates and the status log and tracks are unchanged; otherwise the store's status log gains exactly (track, generating) then (track, ready or failed); ready iff no key is configured or the provider responded ok; demo mode sets the genre's demo URL and 120 seconds; a provider response goes through the truthy filter; non-ok or thrown outcomes write failed (asset fields untouched) and are rethrown; other columns and tables are untouched |
| `Suno.StudySessionScenario` | convex/suno.ts:67-84 | a lofi track created and generated without a key ends ready with the lofi demo audio and 120 seconds |

## Left out

- The HTTP request to the provider, the `process.env` key lookup and JSON parsing (convex/suno.ts:36-57). They become the `provider` function, its three outcomes and the `keyConfigured` flag. The request the model sends is `Suno.RequestFor`: the enriched prompt, 60 seconds, instrumental.
- The 2-second `setTimeout` of demo mode and the `console.error` logging in the catch block. Neither has an effect on the store.
- Suno.GenerateMusic: the three writes run back to back. In the source they are three separate mutations, and other handlers may run between them. So the model cannot show a track that is deleted while it is generating. A "ready" write that throws for that reason is caught like any other failure in both the code and the model, but the model never reaches that case.
- Suno.Descriptor: does not model JavaScript lookups of inherited object keys. In the source, a genre such as "toString" or "constructor" finds a function on the object prototype instead of falling back to ambient.
- Suno.SampleAudioUrl: the same inherited-key lookups are not modelled.
- Durations are integers. The source's `v.number()` is a float, and NaN (also falsy) is not modelled.
- Authentication and sign-in: the identity is an explicit parameter. `Date.now()` is the store's clock. System fields of documents (`_creationTime`) are represented by the id order and the row order.
- The platform's index machinery, `order("desc")`, `Promise.all`, reactive subscriptions, and argument validators other than the types themselves.
- Concurrency and transaction isolation, such as a double-clicked toggle. Each handler is one atomic step.
- The React client under src/ (rendering, player, modal validation). The server does not repeat the client's trimming checks, and neither does the model.
