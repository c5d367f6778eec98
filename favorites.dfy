/**
 * The favorites table: the `isFavorite` and `list` reads, and `toggle` as a
 * function from the rows before to the rows after and the returned flag (the
 * method `Db.Store.Toggle` applies it to the store). The schema declares the
 * (user, track) pair only as an index, so at most one row per pair is an
 * invariant `toggle` has to keep, not something the table enforces.
 */
module Favorites {
  import opened Wrappers
  import opened Schema
  import Seqs
  import Tracks

  /** Row `f` is user `u`'s favorite mark on track `t`. */
  predicate Marks(f: Favorite, u: UserId, t: TrackId) {
    f.userId == u && f.trackId == t
  }

  /** Some row marks track `t` as a favorite of user `u`. */
  predicate HasRow(favorites: seq<Favorite>, u: UserId, t: TrackId) {
    exists i :: 0 <= i < |favorites| && Marks(favorites[i], u, t)
  }

  /** At most one row per (user, track) pair. */
  predicate Unique(favorites: seq<Favorite>) {
    forall i, j :: 0 <= i < j < |favorites| ==>
      favorites[i].userId != favorites[j].userId || favorites[i].trackId != favorites[j].trackId
  }

  /** The position of the first row of (u, t) in index order, as `.first()` finds it. */
  function FirstRow(favorites: seq<Favorite>, u: UserId, t: TrackId): (r: Option<nat>)
    ensures r.None? <==> !HasRow(favorites, u, t)
    ensures r.Some? ==> r.value < |favorites| && Marks(favorites[r.value], u, t)
    ensures r.Some? ==> forall k :: 0 <= k < r.value ==> !Marks(favorites[k], u, t)
  {
    if favorites == [] then None
    else if Marks(favorites[0], u, t) then Some(0)
    else
      match FirstRow(favorites[1..], u, t)
      case None =>
        assert forall i :: 1 <= i < |favorites| ==> favorites[i] == favorites[1..][i - 1];
        None
      case Some(k) => Some(k + 1)
  }

  /** `isFavorite`: false for an anonymous caller, else whether the caller's row exists. */
  function IsFavorite(caller: Option<UserId>, favorites: seq<Favorite>, t: TrackId): (r: bool)
    ensures r <==> caller.Some? && HasRow(favorites, caller.value, t)
  {
    caller.Some? && FirstRow(favorites, caller.value, t).Some?
  }

  /**
   * `toggle` for a signed-in caller `u` at time `now`: deletes the first (u, t)
   * row and reports false, or inserts (u, t, now) and reports true.
   */
  function Toggled(favorites: seq<Favorite>, u: UserId, t: TrackId, now: Time): (r: (seq<Favorite>, bool))
    ensures r.1 <==> !HasRow(favorites, u, t)
    ensures r.1 ==> HasRow(r.0, u, t)
    ensures |r.0| == if r.1 then |favorites| + 1 else |favorites| - 1
  {
    match FirstRow(favorites, u, t)
    case Some(i) => (favorites[..i] + favorites[i + 1..], false)
    case None =>
      assert Marks((favorites + [Favorite(u, t, now)])[|favorites|], u, t);
      (favorites + [Favorite(u, t, now)], true)
  }

  /**
   * What `toggle` touches: it removes one (u, t) row or appends the row
   * (u, t, now); every other row stays.
   */
  lemma ToggleChangesOnlyTheCallersRow(favorites: seq<Favorite>, u: UserId, t: TrackId, now: Time)
    ensures var (after, on) := Toggled(favorites, u, t, now);
      if on then multiset(after) == multiset(favorites) + multiset{Favorite(u, t, now)}
      else exists f :: Marks(f, u, t) && f in favorites && multiset(after) == multiset(favorites) - multiset{f}
  {
    match FirstRow(favorites, u, t)
    case Some(i) =>
      assert favorites == favorites[..i] + [favorites[i]] + favorites[i + 1..];
      assert multiset(favorites) == multiset(favorites[..i]) + multiset{favorites[i]} + multiset(favorites[i + 1..]);
    case None =>
  }

  /** With unique rows beforehand, toggling leaves them unique. */
  lemma {:induction false} ToggleKeepsUnique(favorites: seq<Favorite>, u: UserId, t: TrackId, now: Time)
    requires Unique(favorites)
    ensures Unique(Toggled(favorites, u, t, now).0)
  {
  }

  /**
   * With unique rows, what `toggle` returns is what `isFavorite` answers
   * right after it.
   */
  lemma ToggleReportsNewState(favorites: seq<Favorite>, u: UserId, t: TrackId, now: Time)
    requires Unique(favorites)
    ensures var (after, on) := Toggled(favorites, u, t, now);
      on == IsFavorite(Some(u), after, t) && on == !IsFavorite(Some(u), favorites, t)
  {
    match FirstRow(favorites, u, t)
    case Some(i) =>
      var after := favorites[..i] + favorites[i + 1..];
      forall k | 0 <= k < |after| ensures !Marks(after[k], u, t) {
        var k' := if k < i then k else k + 1;
        assert after[k] == favorites[k'] && k' != i;
      }
    case None =>
      var after := favorites + [Favorite(u, t, now)];
      assert Marks(after[|favorites|], u, t);
  }

  /**
   * Toggling twice gives back the original `isFavorite` answer; from "not a
   * favorite" it gives back the very same rows.
   */
  lemma ToggleTwiceRestores(favorites: seq<Favorite>, u: UserId, t: TrackId, now: Time, later: Time)
    requires Unique(favorites)
    ensures var once := Toggled(favorites, u, t, now).0;
      && IsFavorite(Some(u), Toggled(once, u, t, later).0, t) == IsFavorite(Some(u), favorites, t)
      && (!IsFavorite(Some(u), favorites, t) ==> Toggled(once, u, t, later).0 == favorites)
  {
    var once := Toggled(favorites, u, t, now).0;
    ToggleReportsNewState(favorites, u, t, now);
    ToggleKeepsUnique(favorites, u, t, now);
    ToggleReportsNewState(once, u, t, later);
    if !HasRow(favorites, u, t) {
      assert once == favorites + [Favorite(u, t, now)];
      assert FirstRow(once, u, t) == Some(|favorites|);
      assert once[..|favorites|] == favorites;
    }
  }

  /**
   * Why uniqueness has to be kept: with two rows for one pair, `toggle`
   * deletes only the first and reports false, yet the track is still a
   * favorite afterwards.
   */
  lemma DuplicateRowsBreakToggle()
    ensures var favorites := [Favorite(1, 7, 0), Favorite(1, 7, 1)];
      var (after, on) := Toggled(favorites, 1, 7, 2);
      !Unique(favorites) && !on && IsFavorite(Some(1), after, 7)
  {
    var favorites := [Favorite(1, 7, 0), Favorite(1, 7, 1)];
    assert FirstRow(favorites, 1, 7) == Some(0);
    assert Marks(Toggled(favorites, 1, 7, 2).0[0], 1, 7);
  }

  /** The track ids user `u` has marked, most recently marked first. */
  function FavoritedDesc(favorites: seq<Favorite>, u: UserId): (r: seq<TrackId>)
    ensures forall t :: t in r <==> HasRow(favorites, u, t)
  {
    if favorites == [] then []
    else
      var f := favorites[|favorites| - 1];
      var init := favorites[..|favorites| - 1];
      var rest := FavoritedDesc(init, u);
      assert forall t :: HasRow(favorites, u, t) <==> HasRow(init, u, t) || Marks(f, u, t) by {
        forall t | HasRow(favorites, u, t) ensures HasRow(init, u, t) || Marks(f, u, t) {
          var i :| 0 <= i < |favorites| && Marks(favorites[i], u, t);
          if i < |init| { assert init[i] == favorites[i]; }
        }
        forall t | HasRow(init, u, t) ensures HasRow(favorites, u, t) {
          var i :| 0 <= i < |init| && Marks(init[i], u, t);
          assert favorites[i] == init[i];
        }
      }
      (if f.userId == u then [f.trackId] else []) + rest
  }

  /** Whether a favorites row is user `u`'s. */
  function MarkedBy(u: UserId): Favorite -> bool {
    (f: Favorite) => f.userId == u
  }

  /** The positions in the favorites table of user `u`'s rows, latest first. */
  function UserRows(favorites: seq<Favorite>, u: UserId): seq<nat> {
    Seqs.PositionsDesc(favorites, MarkedBy(u))
  }

  /**
   * Most recently marked first, against the table: the k-th id is the track
   * of the caller's k-th latest row.
   */
  lemma {:induction false} FavoritedDescFollowsTable(favorites: seq<Favorite>, u: UserId)
    ensures |FavoritedDesc(favorites, u)| == |UserRows(favorites, u)|
    ensures forall k :: 0 <= k < |FavoritedDesc(favorites, u)| ==>
      FavoritedDesc(favorites, u)[k] == favorites[UserRows(favorites, u)[k]].trackId
  {
    if favorites != [] {
      var n := |favorites| - 1;
      var init := favorites[..n];
      FavoritedDescFollowsTable(init, u);
      var rest, ps := FavoritedDesc(init, u), UserRows(init, u);
      forall k | 0 <= k < |rest| ensures rest[k] == favorites[ps[k]].trackId {
        assert init[ps[k]] == favorites[ps[k]];
      }
    }
  }

  /** With unique rows, the only row of a pair is the one `.first()` finds. */
  lemma UniqueRowIsFirst(favorites: seq<Favorite>, u: UserId, t: TrackId, i: nat)
    requires Unique(favorites)
    requires i < |favorites| && Marks(favorites[i], u, t)
    ensures FirstRow(favorites, u, t) == Some(i)
  {
  }

  /** With unique rows, each track id occurs once among a user's favorites. */
  lemma {:induction false} FavoritedDescDistinct(favorites: seq<Favorite>, u: UserId)
    requires Unique(favorites)
    ensures Seqs.Distinct(FavoritedDesc(favorites, u))
  {
    if favorites != [] {
      var f := favorites[|favorites| - 1];
      var init := favorites[..|favorites| - 1];
      assert Unique(init) by {
        forall i, j | 0 <= i < j < |init|
          ensures init[i].userId != init[j].userId || init[i].trackId != init[j].trackId
        {
          assert init[i] == favorites[i] && init[j] == favorites[j];
        }
      }
      FavoritedDescDistinct(init, u);
      forall i | 0 <= i < |init| ensures !Marks(init[i], f.userId, f.trackId) {
        assert favorites[i] == init[i];
      }
      var r, rest := FavoritedDesc(favorites, u), FavoritedDesc(init, u);
      if f.userId == u {
        assert r == [f.trackId] + rest;
        forall i, j | 0 <= i < j < |r| ensures r[i] != r[j] {
          if i == 0 { assert r[j] == rest[j - 1] && rest[j - 1] in rest; }
          else { assert r[i] == rest[i - 1] && r[j] == rest[j - 1]; }
        }
      }
    }
  }

  /**
   * `list`: the ready tracks behind the caller's favorites, most recently
   * marked first. Deleted or not-ready tracks are dropped silently, and the
   * tracks are not checked to belong to the caller.
   */
  function List(caller: Option<UserId>, favorites: seq<Favorite>, tracks: map<TrackId, Track>)
    : (r: seq<TrackDoc>)
    ensures caller.None? ==> r == []
    ensures caller.Some? ==> forall d :: d in r <==>
      HasRow(favorites, caller.value, d.id) && Tracks.Current(tracks, d) && d.track.status == Ready
  {
    if caller.None? then [] else Tracks.Resolve(FavoritedDesc(favorites, caller.value), tracks)
  }

  /** A favorites row's position in the table, negated, for ordering by it. */
  function RowKey(favorites: seq<Favorite>, u: UserId, t: TrackId): int {
    match FirstRow(favorites, u, t)
    case Some(i) => -(i as int)
    case None => 1
  }

  /** With unique rows, `list` follows the order in which the caller marked the tracks, newest first. */
  lemma ListMostRecentFirst(u: UserId, favorites: seq<Favorite>, tracks: map<TrackId, Track>)
    requires Unique(favorites)
    ensures var marked, r := FavoritedDesc(favorites, u), List(Some(u), favorites, tracks);
      forall i, j :: 0 <= i < j < |r| ==> Seqs.IndexOf(marked, r[i].id) < Seqs.IndexOf(marked, r[j].id)
  {
    var marked := FavoritedDesc(favorites, u);
    FavoritedDescDistinct(favorites, u);
    forall i, j | 0 <= i < j < |marked| ensures Seqs.IndexOf(marked, marked[i]) < Seqs.IndexOf(marked, marked[j]) {
      assert Seqs.IndexOf(marked, marked[i]) == i;
      assert Seqs.IndexOf(marked, marked[j]) == j;
    }
    Tracks.ResolveKeepsOrder(marked, tracks, (id: TrackId) => Seqs.IndexOf(marked, id));
  }

  /**
   * The same order against the table: with unique rows, the caller's row of
   * a track listed earlier comes later in the favorites table.
   */
  lemma ListFollowsRowOrder(u: UserId, favorites: seq<Favorite>, tracks: map<TrackId, Track>)
    requires Unique(favorites)
    ensures var r := List(Some(u), favorites, tracks);
      forall i, j :: 0 <= i < j < |r| ==>
        FirstRow(favorites, u, r[i].id).Some? && FirstRow(favorites, u, r[j].id).Some?
        && FirstRow(favorites, u, r[i].id).value > FirstRow(favorites, u, r[j].id).value
  {
    var marked := FavoritedDesc(favorites, u);
    var key := (id: TrackId) => RowKey(favorites, u, id);
    FavoritedDescByRow(favorites, u);
    forall i, j | 0 <= i < j < |marked| ensures key(marked[i]) < key(marked[j]) {
      assert key(marked[i]) == RowKey(favorites, u, marked[i]);
      assert key(marked[j]) == RowKey(favorites, u, marked[j]);
    }
    Tracks.ResolveKeepsOrder(marked, tracks, key);
    var r := List(Some(u), favorites, tracks);
    forall i, j | 0 <= i < j < |r|
      ensures FirstRow(favorites, u, r[i].id).Some? && FirstRow(favorites, u, r[j].id).Some?
      ensures FirstRow(favorites, u, r[i].id).value > FirstRow(favorites, u, r[j].id).value
    {
      assert r[i] in r && r[j] in r;
      assert key(r[i].id) < key(r[j].id);
      assert key(r[i].id) == RowKey(favorites, u, r[i].id) && key(r[j].id) == RowKey(favorites, u, r[j].id);
    }
  }

  /** With unique rows, the caller's favorites are in descending order of their rows. */
  lemma FavoritedDescByRow(favorites: seq<Favorite>, u: UserId)
    requires Unique(favorites)
    ensures forall i, j :: 0 <= i < j < |FavoritedDesc(favorites, u)| ==>
      RowKey(favorites, u, FavoritedDesc(favorites, u)[i]) < RowKey(favorites, u, FavoritedDesc(favorites, u)[j])
  {
    var marked, ps := FavoritedDesc(favorites, u), UserRows(favorites, u);
    FavoritedDescFollowsTable(favorites, u);
    forall k | 0 <= k < |marked| ensures RowKey(favorites, u, marked[k]) == -(ps[k] as int) {
      assert MarkedBy(u)(favorites[ps[k]]);
      UniqueRowIsFirst(favorites, u, marked[k], ps[k]);
    }
  }

  /** A toggle that returns true puts the track at the head of the caller's favorites. */
  lemma ToggleOnComesFirst(favorites: seq<Favorite>, u: UserId, t: TrackId, now: Time)
    ensures var (after, on) := Toggled(favorites, u, t, now);
      on ==> FavoritedDesc(after, u) != [] && FavoritedDesc(after, u)[0] == t
  {
    var after := favorites + [Favorite(u, t, now)];
    assert after[..|favorites|] == favorites;
  }

  /**
   * The round trip through `list`: after a toggle that returns true a ready
   * track is listed; after one that returns false it is not.
   */
  lemma ToggleThenList(favorites: seq<Favorite>, u: UserId, t: TrackId, now: Time, tracks: map<TrackId, Track>)
    requires Unique(favorites)
    requires t in tracks && tracks[t].status == Ready
    ensures var (after, on) := Toggled(favorites, u, t, now);
      TrackDoc(t, tracks[t]) in List(Some(u), after, tracks) <==> on
  {
  }

  /** Deleting a track's rows in `remove` keeps the rows unique. */
  lemma {:induction false} CascadeKeepsUnique(favorites: seq<Favorite>, id: TrackId)
    requires Unique(favorites)
    ensures Unique(Tracks.FavoritesWithout(favorites, id))
  {
    Seqs.FilterKeepsPairwise(favorites, (f: Favorite) => f.trackId != id,
      (a: Favorite, b: Favorite) => a.userId != b.userId || a.trackId != b.trackId);
    FavoritesWithoutIsFilter(favorites, id);
  }

  /** The cascade's row filter is the generic filter on "points elsewhere". */
  lemma {:induction false} FavoritesWithoutIsFilter(favorites: seq<Favorite>, id: TrackId)
    ensures Tracks.FavoritesWithout(favorites, id) == Seqs.Filter(favorites, (f: Favorite) => f.trackId != id)
  {
    if favorites != [] {
      FavoritesWithoutIsFilter(favorites[..|favorites| - 1], id);
    }
  }
}
