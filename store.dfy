/**
 * The store as one sequential object: the three tables, the id counter of the
 * tracks table and a clock standing in for `Date.now()`. Each method is one
 * mutation handler of tracks.ts or favorites.ts, run as one atomic step; the
 * caller's identity is passed in, `None` when nobody is signed in.
 */
module Db {
  import opened Wrappers
  import opened Schema
  import Tracks
  import Favorites

  /** The fields a `db.patch` call sets; an absent field keeps its stored value. */
  datatype Patch = Patch(
    status: string,
    audioUrl: Option<string>,
    imageUrl: Option<string>,
    sunoTaskId: Option<string>,
    duration: Option<int>)

  function ApplyPatch(t: Track, p: Patch): Track {
    t.(status := p.status,
       audioUrl := if p.audioUrl.Some? then p.audioUrl else t.audioUrl,
       imageUrl := if p.imageUrl.Some? then p.imageUrl else t.imageUrl,
       sunoTaskId := if p.sunoTaskId.Some? then p.sunoTaskId else t.sunoTaskId,
       duration := if p.duration.Some? then p.duration else t.duration)
  }

  /**
   * The favorites cascade of `remove`: one pass over the table in which every
   * row that points at track `id` is deleted and every other row stays.
   */
  method DeleteFavoritesOf(table: seq<Favorite>, id: TrackId) returns (rows: seq<Favorite>)
    ensures rows == Tracks.FavoritesWithout(table, id)
  {
    rows := [];
    var i := 0;
    while i < |table|
      invariant 0 <= i <= |table|
      invariant rows == Tracks.FavoritesWithout(table[..i], id)
    {
      Tracks.FavoritesWithoutStep(table, i, id);
      if table[i].trackId != id {
        rows := rows + [table[i]];
      }
      i := i + 1;
    }
    assert table[..i] == table;
  }

  /** The playHistory cascade of `remove`, in the same way. */
  method DeletePlaysOf(table: seq<PlayEvent>, id: TrackId) returns (events: seq<PlayEvent>)
    ensures events == Tracks.PlaysWithout(table, id)
  {
    events := [];
    var i := 0;
    while i < |table|
      invariant 0 <= i <= |table|
      invariant events == Tracks.PlaysWithout(table[..i], id)
    {
      Tracks.PlaysWithoutStep(table, i, id);
      if table[i].trackId != id {
        events := events + [table[i]];
      }
      i := i + 1;
    }
    assert table[..i] == table;
  }

  class Store {
    var tracks: map<TrackId, Track>
    var favorites: seq<Favorite>
    var history: seq<PlayEvent>
    /** The id the next inserted track gets; ids are never reused. */
    var nextId: TrackId
    /** What `Date.now()` reads next. */
    var clock: Time
    /** Every successful `updateStatus` so far, in order: the track and the status written. */
    ghost var statusLog: seq<(TrackId, string)>

    /** Every issued id is below the counter, and no (user, track) pair has two favorites rows. */
    ghost predicate Valid()
      reads this
    {
      && (forall id :: id in tracks ==> id < nextId)
      && Favorites.Unique(favorites)
    }

    constructor ()
      ensures Valid()
      ensures tracks == map[] && favorites == [] && history == [] && nextId == 0 && clock == 0
      ensures statusLog == []
    {
      tracks, favorites, history := map[], [], [];
      nextId, clock := 0, 0;
      statusLog := [];
    }

    /**
     * `create`: inserts a pending track owned by the caller and returns its
     * fresh id. Title, prompt and genre are stored as given, unchecked.
     */
    method Create(caller: Option<UserId>, title: string, prompt: string, genre: string)
      returns (r: Result<TrackId, Error>)
      requires Valid()
      modifies this`tracks, this`nextId, this`clock
      ensures Valid()
      ensures caller.None? ==>
        r == Err(NotAuthenticated) && tracks == old(tracks) && nextId == old(nextId) && clock == old(clock)
      ensures caller.Some? ==>
        && r == Ok(old(nextId))
        && old(nextId) !in old(tracks)
        && tracks == old(tracks)[old(nextId) :=
             Track(caller.value, title, prompt, genre, None, None, Pending, None, None, old(clock))]
        && nextId == old(nextId) + 1
        && clock == old(clock) + 1
      ensures r.Ok? ==> Tracks.GetById(caller, tracks, r.value) == Some(tracks[r.value])
    {
      if caller.None? {
        return Err(NotAuthenticated);
      }
      var now := clock;
      clock := clock + 1;
      var id := nextId;
      nextId := nextId + 1;
      tracks := tracks[id := Track(caller.value, title, prompt, genre, None, None, Pending, None, None, now)];
      r := Ok(id);
    }

    /**
     * `updateStatus`: sets any status string on a track the caller owns, and
     * each of the four asset fields only when its argument is truthy (present,
     * and not "" or 0). There is no check of the status transition.
     */
    method UpdateStatus(caller: Option<UserId>, id: TrackId, status: string,
                        audioUrl: Option<string>, imageUrl: Option<string>,
                        sunoTaskId: Option<string>, duration: Option<int>)
      returns (r: Result<(), Error>)
      requires Valid()
      modifies this`tracks, this`statusLog
      ensures Valid()
      ensures caller.None? ==> r == Err(NotAuthenticated) && tracks == old(tracks) && statusLog == old(statusLog)
      ensures caller.Some? && !Tracks.Owns(old(tracks), caller.value, id) ==>
        r == Err(TrackNotFound) && tracks == old(tracks) && statusLog == old(statusLog)
      ensures caller.Some? && Tracks.Owns(old(tracks), caller.value, id) ==>
        && r == Ok(())
        && statusLog == old(statusLog) + [(id, status)]
        && id in tracks
        && tracks == old(tracks)[id := tracks[id]]
        && var t, t0 := tracks[id], old(tracks)[id];
        && t.status == status
        && t.audioUrl == (if Tracks.Truthy(audioUrl) then audioUrl else t0.audioUrl)
        && t.imageUrl == (if Tracks.Truthy(imageUrl) then imageUrl else t0.imageUrl)
        && t.sunoTaskId == (if Tracks.Truthy(sunoTaskId) then sunoTaskId else t0.sunoTaskId)
        && t.duration == (if Tracks.TruthyNumber(duration) then duration else t0.duration)
        && t.userId == t0.userId && t.title == t0.title && t.prompt == t0.prompt
        && t.genre == t0.genre && t.createdAt == t0.createdAt
    {
      if caller.None? {
        return Err(NotAuthenticated);
      }
      if id !in tracks || tracks[id].userId != caller.value {
        return Err(TrackNotFound);
      }
      var updates := Patch(status, None, None, None, None);
      if Tracks.Truthy(audioUrl) { updates := updates.(audioUrl := audioUrl); }
      if Tracks.Truthy(imageUrl) { updates := updates.(imageUrl := imageUrl); }
      if Tracks.Truthy(sunoTaskId) { updates := updates.(sunoTaskId := sunoTaskId); }
      if Tracks.TruthyNumber(duration) { updates := updates.(duration := duration); }
      tracks := tracks[id := ApplyPatch(tracks[id], updates)];
      statusLog := statusLog + [(id, status)];
      r := Ok(());
    }

    /**
     * `remove`: after the owner check, deletes every favorites row and every
     * playHistory row that points at the track, whoever owns the row, and
     * then the track itself.
     */
    method Remove(caller: Option<UserId>, id: TrackId) returns (r: Result<(), Error>)
      requires Valid()
      modifies this`tracks, this`favorites, this`history
      ensures Valid()
      ensures caller.None? ==>
        r == Err(NotAuthenticated)
        && tracks == old(tracks) && favorites == old(favorites) && history == old(history)
      ensures caller.Some? && !Tracks.Owns(old(tracks), caller.value, id) ==>
        r == Err(TrackNotFound)
        && tracks == old(tracks) && favorites == old(favorites) && history == old(history)
      ensures caller.Some? && Tracks.Owns(old(tracks), caller.value, id) ==>
        && r == Ok(())
        && tracks == old(tracks) - {id}
        && favorites == Tracks.FavoritesWithout(old(favorites), id)
        && history == Tracks.PlaysWithout(old(history), id)
      ensures r.Ok? ==> forall c :: Tracks.GetById(c, tracks, id).None?
    {
      if caller.None? {
        return Err(NotAuthenticated);
      }
      if id !in tracks || tracks[id].userId != caller.value {
        return Err(TrackNotFound);
      }

      Favorites.CascadeKeepsUnique(favorites, id);
      favorites := DeleteFavoritesOf(favorites, id);
      history := DeletePlaysOf(history, id);
      tracks := tracks - {id};
      r := Ok(());
    }

    /**
     * `recordPlay`: appends one play event for the caller. The track is not
     * checked to exist or to belong to the caller.
     */
    method RecordPlay(caller: Option<UserId>, trackId: TrackId) returns (r: Result<(), Error>)
      requires Valid()
      modifies this`history, this`clock
      ensures Valid()
      ensures caller.None? ==> r == Err(NotAuthenticated) && history == old(history) && clock == old(clock)
      ensures caller.Some? ==>
        && r == Ok(())
        && history == old(history) + [PlayEvent(caller.value, trackId, old(clock))]
        && clock == old(clock) + 1
    {
      if caller.None? {
        return Err(NotAuthenticated);
      }
      var now := clock;
      clock := clock + 1;
      history := history + [PlayEvent(caller.value, trackId, now)];
      r := Ok(());
    }

    /**
     * `toggle`: deletes the caller's row for the track and returns false, or
     * inserts one and returns true; the answer is the new `isFavorite` state.
     * Neither the track's existence nor its owner is checked.
     */
    method Toggle(caller: Option<UserId>, trackId: TrackId) returns (r: Result<bool, Error>)
      requires Valid()
      modifies this`favorites, this`clock
      ensures Valid()
      ensures caller.None? ==> r == Err(NotAuthenticated) && favorites == old(favorites) && clock == old(clock)
      ensures caller.Some? ==>
        && r.Ok?
        && (favorites, r.value) == Favorites.Toggled(old(favorites), caller.value, trackId, old(clock))
        && r.value == Favorites.IsFavorite(caller, favorites, trackId)
        && r.value == !Favorites.IsFavorite(caller, old(favorites), trackId)
        && clock == if r.value then old(clock) + 1 else old(clock)
    {
      if caller.None? {
        return Err(NotAuthenticated);
      }
      var u := caller.value;
      Favorites.ToggleKeepsUnique(favorites, u, trackId, clock);
      Favorites.ToggleReportsNewState(favorites, u, trackId, clock);
      match Favorites.FirstRow(favorites, u, trackId)
      case Some(i) =>
        favorites := favorites[..i] + favorites[i + 1..];
        r := Ok(false);
      case None =>
        var now := clock;
        clock := clock + 1;
        favorites := favorites + [Favorite(u, trackId, now)];
        r := Ok(true);
    }
  }
}
