/**
 * The record shapes of the three user-scoped tables (tracks, favorites,
 * playHistory). Optional columns are `Option`s; `genre` and `status` are free
 * strings, since the schema constrains neither: the intended values appear
 * only as the constants below.
 */
module Schema {
  import opened Wrappers

  /** A user id as the identity provider issues it. */
  type UserId = nat

  /** A track id as the tracks table issues it: ids grow with creation order. */
  type TrackId = nat

  /** A reading of the store's clock, standing in for `Date.now()`. */
  type Time = nat

  datatype Track = Track(
    userId: UserId,
    title: string,
    prompt: string,
    genre: string,
    audioUrl: Option<string>,
    imageUrl: Option<string>,
    status: string,
    sunoTaskId: Option<string>,
    duration: Option<int>,
    createdAt: Time)

  /** A row of the favorites table. */
  datatype Favorite = Favorite(userId: UserId, trackId: TrackId, createdAt: Time)

  /** A row of the playHistory table. */
  datatype PlayEvent = PlayEvent(userId: UserId, trackId: TrackId, playedAt: Time)

  /** A track document as a query returns it: the row together with its id. */
  datatype TrackDoc = TrackDoc(id: TrackId, track: Track)

  /** The errors the handlers throw. */
  datatype Error =
    | NotAuthenticated
    | TrackNotFound
    | ProviderError(statusText: string)   // the provider answered with a non-ok status
    | ProviderException(message: string)  // the provider call itself threw

  // The status values the application uses. The schema does not enforce them.
  const Pending: string := "pending"
  const Generating: string := "generating"
  const Ready: string := "ready"
  const Failed: string := "failed"
}
