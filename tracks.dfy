/**
 * The owner-scoped reads of the tracks table (list, getById, getReady,
 * getRecentlyPlayed) as functions over the store's tables, and the row
 * filters that `remove` leaves behind in the favorites and playHistory tables.
 * The mutations themselves are the methods of `Db.Store`.
 */
module Tracks {
  import opened Wrappers
  import opened Schema
  import Seqs

  /** The number of play events `getRecentlyPlayed` reads. */
  const RecentEvents: nat := 10

  /** The number of distinct tracks `getRecentlyPlayed` keeps before resolving them. */
  const RecentTracks: nat := 5

  /** JavaScript truthiness of an optional string argument: present and non-empty. */
  predicate Truthy(s: Option<string>) {
    s.Some? && s.value != ""
  }

  /** JavaScript truthiness of an optional number argument: present and non-zero. */
  predicate TruthyNumber(n: Option<int>) {
    n.Some? && n.value != 0
  }

  /** Track `id` exists and belongs to user `u`. */
  predicate Owns(tracks: map<TrackId, Track>, u: UserId, id: TrackId) {
    id in tracks && tracks[id].userId == u
  }

  /** `d` is the current document of its track. */
  predicate Current(tracks: map<TrackId, Track>, d: TrackDoc) {
    d.id in tracks && tracks[d.id] == d.track
  }

  /** Every stored track with an id below `below`, newest (highest id) first. */
  function ByCreationDesc(tracks: map<TrackId, Track>, below: nat): (r: seq<TrackDoc>)
    ensures forall d :: d in r <==> d.id < below && Current(tracks, d)
    ensures forall i, j :: 0 <= i < j < |r| ==> r[i].id > r[j].id
    decreases below
  {
    if below == 0 then []
    else
      var rest := ByCreationDesc(tracks, below - 1);
      if below - 1 in tracks then [TrackDoc(below - 1, tracks[below - 1])] + rest else rest
  }

  /**
   * `list`: the caller's tracks, newest first; when a non-empty genre is
   * given, only that genre. Nothing for an anonymous caller.
   */
  function List(caller: Option<UserId>, tracks: map<TrackId, Track>, nextId: TrackId, genre: Option<string>)
    : (r: seq<TrackDoc>)
    ensures caller.None? ==> r == []
    ensures caller.Some? ==> forall d :: d in r <==>
      && d.id < nextId && Current(tracks, d)
      && d.track.userId == caller.value
      && (Truthy(genre) ==> d.track.genre == genre.value)
    ensures forall i, j :: 0 <= i < j < |r| ==> r[i].id > r[j].id
  {
    if caller.None? then []
    else
      var u := caller.value;
      var all := ByCreationDesc(tracks, nextId);
      var mine := Seqs.Filter(all, (d: TrackDoc) => d.track.userId == u);
      Seqs.FilterKeepsPairwise(all, (d: TrackDoc) => d.track.userId == u, (a: TrackDoc, b: TrackDoc) => a.id > b.id);
      if Truthy(genre) then
        var g := genre.value;
        Seqs.FilterKeepsPairwise(mine, (d: TrackDoc) => d.track.genre == g, (a: TrackDoc, b: TrackDoc) => a.id > b.id);
        Seqs.Filter(mine, (d: TrackDoc) => d.track.genre == g)
      else
        mine
  }

  /** `getById`: the track, when the caller is signed in and owns it. */
  function GetById(caller: Option<UserId>, tracks: map<TrackId, Track>, id: TrackId): (r: Option<Track>)
    ensures r.Some? <==> caller.Some? && Owns(tracks, caller.value, id)
    ensures r.Some? ==> r.value == tracks[id]
  {
    if caller.None? then None
    else if id !in tracks || tracks[id].userId != caller.value then None
    else Some(tracks[id])
  }

  /** `getReady`: the caller's ready tracks, newest first. Nothing for an anonymous caller. */
  function GetReady(caller: Option<UserId>, tracks: map<TrackId, Track>, nextId: TrackId): (r: seq<TrackDoc>)
    ensures caller.None? ==> r == []
    ensures caller.Some? ==> forall d :: d in r <==>
      d.id < nextId && Current(tracks, d) && d.track.userId == caller.value && d.track.status == Ready
    ensures forall i, j :: 0 <= i < j < |r| ==> r[i].id > r[j].id
  {
    if caller.None? then []
    else
      var u := caller.value;
      var all := ByCreationDesc(tracks, nextId);
      Seqs.FilterKeepsPairwise(all, (d: TrackDoc) => d.track.userId == u && d.track.status == Ready,
        (a: TrackDoc, b: TrackDoc) => a.id > b.id);
      Seqs.Filter(all, (d: TrackDoc) => d.track.userId == u && d.track.status == Ready)
  }

  /** `getReady` is `list` without a genre, restricted to ready tracks. */
  lemma {:induction false} GetReadyIsReadyPartOfList(caller: Option<UserId>, tracks: map<TrackId, Track>, nextId: TrackId)
    ensures GetReady(caller, tracks, nextId) == Seqs.Filter(List(caller, tracks, nextId, None), (d: TrackDoc) => d.track.status == Ready)
  {
    var r, l := GetReady(caller, tracks, nextId), List(caller, tracks, nextId, None);
    var f := Seqs.Filter(l, (d: TrackDoc) => d.track.status == Ready);
    Seqs.FilterKeepsPairwise(l, (d: TrackDoc) => d.track.status == Ready, (a: TrackDoc, b: TrackDoc) => a.id > b.id);
    DescendingIdsDetermined(r, f);
  }

  /** Two id-descending lists with the same documents are equal. */
  lemma {:induction false} DescendingIdsDetermined(a: seq<TrackDoc>, b: seq<TrackDoc>)
    requires forall i, j :: 0 <= i < j < |a| ==> a[i].id > a[j].id
    requires forall i, j :: 0 <= i < j < |b| ==> b[i].id > b[j].id
    requires forall d :: d in a <==> d in b
    ensures a == b
  {
    assert a != [] ==> a[0] in b;
    assert b != [] ==> b[0] in a;
    if a != [] && b != [] {
      // the heads are the elements with the largest id on each side
      var k :| 0 <= k < |b| && b[k] == a[0];
      var m :| 0 <= m < |a| && a[m] == b[0];
      assert b[0].id >= a[0].id by { if k > 0 { assert b[0].id > b[k].id; } }
      assert b[0] == a[0];
      forall d ensures d in a[1..] <==> d in b[1..] {
        if d in a[1..] {
          var i :| 1 <= i < |a| && a[i] == d;
          assert a[0].id > d.id && d in a && d in b;
          var j :| 0 <= j < |b| && b[j] == d;
          assert j != 0 && b[1..][j - 1] == d;
        }
        if d in b[1..] {
          var i :| 1 <= i < |b| && b[i] == d;
          assert b[0].id > d.id && d in b && d in a;
          var j :| 0 <= j < |a| && a[j] == d;
          assert j != 0 && a[1..][j - 1] == d;
        }
      }
      DescendingIdsDetermined(a[1..], b[1..]);
      assert a == [a[0]] + a[1..] && b == [b[0]] + b[1..];
    }
  }

  /**
   * Looks every id up and keeps the ready tracks, in the order of `ids`:
   * a missing track (`db.get` returning null) or one in another status is dropped.
   */
  function Resolve(ids: seq<TrackId>, tracks: map<TrackId, Track>): (r: seq<TrackDoc>)
    ensures |r| <= |ids|
    ensures forall d :: d in r <==> d.id in ids && Current(tracks, d) && d.track.status == Ready
  {
    if ids == [] then []
    else
      var id := ids[|ids| - 1];
      assert ids == ids[..|ids| - 1] + [id];
      Resolve(ids[..|ids| - 1], tracks)
        + if id in tracks && tracks[id].status == Ready then [TrackDoc(id, tracks[id])] else []
  }

  /** Resolving keeps the order of the ids it resolves. */
  lemma {:induction false} ResolveKeepsOrder(ids: seq<TrackId>, tracks: map<TrackId, Track>, key: TrackId -> int)
    requires forall i, j :: 0 <= i < j < |ids| ==> key(ids[i]) < key(ids[j])
    ensures forall i, j :: 0 <= i < j < |Resolve(ids, tracks)| ==>
      key(Resolve(ids, tracks)[i].id) < key(Resolve(ids, tracks)[j].id)
  {
    if ids != [] {
      var init, last := ids[..|ids| - 1], ids[|ids| - 1];
      ResolveKeepsOrder(init, tracks, key);
      var r, f := Resolve(ids, tracks), Resolve(init, tracks);
      assert r == f || r == f + [TrackDoc(last, tracks[last])];
      forall i, j | 0 <= i < j < |r| ensures key(r[i].id) < key(r[j].id) {
        if j < |f| {
          assert r[i] == f[i] && r[j] == f[j];
        } else {
          assert r[i] == f[i] && f[i] in f && r[j].id == last;
          var k :| 0 <= k < |init| && init[k] == r[i].id;
          assert ids[k] == r[i].id && key(ids[k]) < key(ids[|ids| - 1]);
        }
      }
    }
  }

  /** Whether a play event is user `u`'s. */
  function PlayedBy(u: UserId): PlayEvent -> bool {
    (e: PlayEvent) => e.userId == u
  }

  /** The positions in the play table of user `u`'s events, latest first. */
  function UserPlays(history: seq<PlayEvent>, u: UserId): seq<nat> {
    Seqs.PositionsDesc(history, PlayedBy(u))
  }

  /** The track ids of user `u`'s play events, most recent first. */
  function PlaysDesc(history: seq<PlayEvent>, u: UserId): (r: seq<TrackId>)
    ensures |r| <= |history|
    ensures forall id :: id in r <==> exists e :: e in history && e.userId == u && e.trackId == id
  {
    if history == [] then []
    else
      var e := history[|history| - 1];
      assert history == history[..|history| - 1] + [e];
      (if e.userId == u then [e.trackId] else []) + PlaysDesc(history[..|history| - 1], u)
  }

  /**
   * Most recent first, against the table: the k-th id is the track of the
   * caller's k-th latest event.
   */
  lemma {:induction false} PlaysDescFollowsTable(history: seq<PlayEvent>, u: UserId)
    ensures |PlaysDesc(history, u)| == |UserPlays(history, u)|
    ensures forall k :: 0 <= k < |PlaysDesc(history, u)| ==>
      PlaysDesc(history, u)[k] == history[UserPlays(history, u)[k]].trackId
  {
    if history != [] {
      var n := |history| - 1;
      var init := history[..n];
      PlaysDescFollowsTable(init, u);
      var rest, ps := PlaysDesc(init, u), UserPlays(init, u);
      forall k | 0 <= k < |rest| ensures rest[k] == history[ps[k]].trackId {
        assert init[ps[k]] == history[ps[k]];
      }
    }
  }

  /**
   * The track ids of user `u`'s ten most recent play events, most recent
   * first: the first ten (or all) of the caller's events, latest first.
   */
  function RecentWindow(history: seq<PlayEvent>, u: UserId): (w: seq<TrackId>)
    ensures |w| == if |UserPlays(history, u)| <= RecentEvents then |UserPlays(history, u)| else RecentEvents
    ensures forall k :: 0 <= k < |w| ==> w[k] == history[UserPlays(history, u)[k]].trackId
  {
    PlaysDescFollowsTable(history, u);
    Seqs.Take(PlaysDesc(history, u), RecentEvents)
  }

  /**
   * The window has no gaps: every event of the caller at or after the
   * window's k-th event is one of the window's first k + 1 events.
   */
  lemma RecentWindowHasTheLatestPlays(history: seq<PlayEvent>, u: UserId, k: nat, i: nat)
    requires k < |RecentWindow(history, u)|
    requires i < |history| && history[i].userId == u && i >= UserPlays(history, u)[k]
    ensures i in UserPlays(history, u)[..k + 1]
  {
    var ps := UserPlays(history, u);
    assert PlayedBy(u)(history[i]);
    var m :| 0 <= m < |ps| && ps[m] == i;
    assert m <= k;
    assert ps[..k + 1][m] == i;
  }

  /**
   * The place of a track in the window is that of its latest play: the event
   * there is the caller's play of the track, and no later event of the caller
   * plays it.
   */
  lemma LatestPlayInWindow(history: seq<PlayEvent>, u: UserId, id: TrackId)
    requires id in RecentWindow(history, u)
    ensures var k, ps := Seqs.IndexOf(RecentWindow(history, u), id), UserPlays(history, u);
      && k < |ps| && history[ps[k]].userId == u && history[ps[k]].trackId == id
      && forall i :: ps[k] < i < |history| && history[i].userId == u ==> history[i].trackId != id
  {
    var w, ps := RecentWindow(history, u), UserPlays(history, u);
    var k := Seqs.IndexOf(w, id);
    assert PlayedBy(u)(history[ps[k]]);
    forall i | ps[k] < i < |history| && history[i].userId == u ensures history[i].trackId != id {
      assert PlayedBy(u)(history[i]);
      var m :| 0 <= m < |ps| && ps[m] == i;
      assert m < k;
      assert w[m] == history[i].trackId;
    }
  }

  /**
   * `getRecentlyPlayed`: from the caller's ten latest play events, the first
   * five distinct tracks (most recent play first) that still exist and are ready.
   */
  function RecentlyPlayed(caller: Option<UserId>, tracks: map<TrackId, Track>, history: seq<PlayEvent>)
    : (r: seq<TrackDoc>)
    ensures caller.None? ==> r == []
    ensures |r| <= RecentTracks
    ensures forall d :: d in r ==> Current(tracks, d) && d.track.status == Ready
    ensures caller.Some? ==> forall d :: d in r ==> d.id in RecentWindow(history, caller.value)
  {
    if caller.None? then []
    else
      var window := RecentWindow(history, caller.value);
      var recent := Seqs.Take(Seqs.Dedup(window), RecentTracks);
      assert forall id :: id in recent ==> id in window;
      Resolve(recent, tracks)
  }

  /**
   * The recently played tracks are listed by their latest play within the
   * window, most recent first: the latest play of a track listed earlier is
   * later in the table (with `LatestPlayInWindow`, that position is the
   * track's latest play). In particular no track appears twice.
   */
  lemma RecentlyPlayedMostRecentFirst(u: UserId, tracks: map<TrackId, Track>, history: seq<PlayEvent>)
    ensures var window, r := RecentWindow(history, u), RecentlyPlayed(Some(u), tracks, history);
      && (forall i, j :: 0 <= i < j < |r| ==> Seqs.IndexOf(window, r[i].id) < Seqs.IndexOf(window, r[j].id))
      && (forall i, j :: 0 <= i < j < |r| ==>
            UserPlays(history, u)[Seqs.IndexOf(window, r[i].id)] > UserPlays(history, u)[Seqs.IndexOf(window, r[j].id)])
      && (forall i, j :: 0 <= i < j < |r| ==> r[i].id != r[j].id)
  {
    var window := RecentWindow(history, u);
    var distinct := Seqs.Dedup(window);
    var recent := Seqs.Take(distinct, RecentTracks);
    Seqs.DedupKeepsFirstOccurrenceOrder(window);
    assert forall i, j :: 0 <= i < j < |recent| ==> recent[i] == distinct[i] && recent[j] == distinct[j];
    ResolveKeepsOrder(recent, tracks, (id: TrackId) => Seqs.IndexOf(window, id));
    var r := RecentlyPlayed(Some(u), tracks, history);
    forall i, j | 0 <= i < j < |r|
      ensures UserPlays(history, u)[Seqs.IndexOf(window, r[i].id)] > UserPlays(history, u)[Seqs.IndexOf(window, r[j].id)]
    {
      assert r[i] in r && r[j] in r;
    }
  }

  /** Resolving ids whose first one is a current ready track starts with that track. */
  lemma {:induction false} ResolveHead(ids: seq<TrackId>, tracks: map<TrackId, Track>)
    requires ids != [] && ids[0] in tracks && tracks[ids[0]].status == Ready
    ensures Resolve(ids, tracks) != [] && Resolve(ids, tracks)[0] == TrackDoc(ids[0], tracks[ids[0]])
  {
    var init := ids[..|ids| - 1];
    if init != [] {
      assert init[0] == ids[0];
      ResolveHead(init, tracks);
    }
  }

  /**
   * What `recordPlay` does to `getRecentlyPlayed`: the track just played
   * heads the caller's window, and when it exists and is ready it is the
   * first track listed.
   */
  lemma PlayedTrackComesFirst(history: seq<PlayEvent>, u: UserId, t: TrackId, now: Time, tracks: map<TrackId, Track>)
    ensures var w := RecentWindow(history + [PlayEvent(u, t, now)], u); w != [] && w[0] == t
    ensures t in tracks && tracks[t].status == Ready ==>
      var r := RecentlyPlayed(Some(u), tracks, history + [PlayEvent(u, t, now)]);
      r != [] && r[0] == TrackDoc(t, tracks[t])
  {
    var h := history + [PlayEvent(u, t, now)];
    assert h[..|history|] == history;
    assert PlaysDesc(h, u) == [t] + PlaysDesc(history, u);
    var w := RecentWindow(h, u);
    assert w[0] == t;
    Seqs.DedupHead(w);
    var recent := Seqs.Take(Seqs.Dedup(w), RecentTracks);
    assert recent[0] == t;
    if t in tracks && tracks[t].status == Ready {
      ResolveHead(recent, tracks);
    }
  }

  /**
   * Which tracks come back: exactly the ready, existing ones among the first
   * five distinct tracks of the window. Truncation comes first, so a ready
   * track played sixth-most-recently is left out even when some of the five
   * before it are gone or not ready.
   */
  lemma RecentlyPlayedSelects(u: UserId, tracks: map<TrackId, Track>, history: seq<PlayEvent>, d: TrackDoc)
    ensures d in RecentlyPlayed(Some(u), tracks, history) <==>
      && d.id in Seqs.Take(Seqs.Dedup(RecentWindow(history, u)), RecentTracks)
      && Current(tracks, d) && d.track.status == Ready
  {
  }

  /**
   * The row filter of the favorites cascade in `remove`: every favorites row of
   * any user that points at track `id` goes, the others stay in order.
   */
  function FavoritesWithout(favorites: seq<Favorite>, id: TrackId): (r: seq<Favorite>)
    ensures |r| <= |favorites|
    ensures forall f :: f in r <==> f in favorites && f.trackId != id
  {
    if favorites == [] then []
    else
      var f := favorites[|favorites| - 1];
      assert favorites == favorites[..|favorites| - 1] + [f];
      FavoritesWithout(favorites[..|favorites| - 1], id) + if f.trackId != id then [f] else []
  }

  /** The row filter of the playHistory cascade in `remove`. */
  function PlaysWithout(history: seq<PlayEvent>, id: TrackId): (r: seq<PlayEvent>)
    ensures |r| <= |history|
    ensures forall e :: e in r <==> e in history && e.trackId != id
  {
    if history == [] then []
    else
      var e := history[|history| - 1];
      assert history == history[..|history| - 1] + [e];
      PlaysWithout(history[..|history| - 1], id) + if e.trackId != id then [e] else []
  }

  /** One more row of the table through the favorites filter. */
  lemma FavoritesWithoutStep(favorites: seq<Favorite>, k: nat, id: TrackId)
    requires k < |favorites|
    ensures FavoritesWithout(favorites[..k + 1], id)
      == FavoritesWithout(favorites[..k], id) + if favorites[k].trackId != id then [favorites[k]] else []
  {
    assert favorites[..k + 1][..k] == favorites[..k];
  }

  /** One more row of the table through the playHistory filter. */
  lemma PlaysWithoutStep(history: seq<PlayEvent>, k: nat, id: TrackId)
    requires k < |history|
    ensures PlaysWithout(history[..k + 1], id)
      == PlaysWithout(history[..k], id) + if history[k].trackId != id then [history[k]] else []
  {
    assert history[..k + 1][..k] == history[..k];
  }

  /** A ready track of user `u` with the given title, for the examples below. */
  function ReadyTrack(u: UserId, title: string): Track {
    Track(u, title, "prompt", "lofi", Some("audio"), None, Ready, None, None, 0)
  }

  /** The play history of the examples below: user 7 plays the tracks `ids`, oldest first. */
  function Plays(ids: seq<TrackId>): (h: seq<PlayEvent>)
    ensures |h| == |ids|
    ensures forall i :: 0 <= i < |ids| ==> h[i] == PlayEvent(7, ids[i], i)
  {
    if ids == [] then [] else Plays(ids[..|ids| - 1]) + [PlayEvent(7, ids[|ids| - 1], |ids| - 1)]
  }

  lemma ExampleWindow()
    ensures RecentWindow(Plays([1, 2, 1, 3, 2, 1]), 7) == [1, 2, 3, 1, 2, 1]
  {
    var h := Plays([1, 2, 1, 3, 2, 1]);
    assert h[..1][..0] == [];
    assert h[..2][..1] == h[..1];
    assert h[..3][..2] == h[..2];
    assert h[..4][..3] == h[..3];
    assert h[..5][..4] == h[..4];
    assert h[..6][..5] == h[..5];
    assert PlaysDesc(h[..1], 7) == [1];
    assert PlaysDesc(h[..2], 7) == [2, 1];
    assert PlaysDesc(h[..3], 7) == [1, 2, 1];
    assert PlaysDesc(h[..4], 7) == [3, 1, 2, 1];
    assert PlaysDesc(h[..5], 7) == [2, 3, 1, 2, 1];
    assert h[..6] == h;
    assert PlaysDesc(h, 7) == [1, 2, 3, 1, 2, 1];
  }

  lemma ExampleDedup()
    ensures var w: seq<TrackId> := [1, 2, 3, 1, 2, 1]; Seqs.Dedup(w) == [1, 2, 3]
  {
    var w: seq<TrackId> := [1, 2, 3, 1, 2, 1];
    assert w[..1][..0] == [];
    assert w[..2][..1] == w[..1];
    assert w[..3][..2] == w[..2];
    assert w[..4][..3] == w[..3];
    assert w[..5][..4] == w[..4];
    assert w[..6][..5] == w[..5];
    assert Seqs.Dedup(w[..1]) == [1];
    assert Seqs.Dedup(w[..2]) == [1, 2];
    assert Seqs.Dedup(w[..3]) == [1, 2, 3];
    assert Seqs.Dedup(w[..4]) == [1, 2, 3];
    assert Seqs.Dedup(w[..5]) == [1, 2, 3];
    assert w[..6] == w;
  }

  /** The three ready tracks A, B and C of user 7. */
  function ExampleTracks(): map<TrackId, Track> {
    map[1 := ReadyTrack(7, "A"), 2 := ReadyTrack(7, "B"), 3 := ReadyTrack(7, "C")]
  }

  lemma ExampleResolve()
    ensures var ids: seq<TrackId> := [1, 2, 3]; var tracks := ExampleTracks();
      Resolve(ids, tracks) == [TrackDoc(1, tracks[1]), TrackDoc(2, tracks[2]), TrackDoc(3, tracks[3])]
  {
  }

  /**
   * Plays of A, B, A, C, B, A, in that order (the last is the most recent),
   * come back as A, B, C.
   */
  lemma RecentlyPlayedExample()
    ensures var tracks := ExampleTracks();
      RecentlyPlayed(Some(7), tracks, Plays([1, 2, 1, 3, 2, 1]))
        == [TrackDoc(1, tracks[1]), TrackDoc(2, tracks[2]), TrackDoc(3, tracks[3])]
  {
    ExampleWindow();
    ExampleDedup();
    ExampleResolve();
    var ids: seq<TrackId> := [1, 2, 3];
    assert Seqs.Take(ids, RecentTracks) == ids;
  }

  lemma ExampleSixTracksWindow()
    ensures RecentWindow(Plays([1, 2, 3, 4, 5, 6]), 7) == [6, 5, 4, 3, 2, 1]
  {
    var h := Plays([1, 2, 3, 4, 5, 6]);
    assert h[..1][..0] == [];
    assert h[..2][..1] == h[..1];
    assert h[..3][..2] == h[..2];
    assert h[..4][..3] == h[..3];
    assert h[..5][..4] == h[..4];
    assert h[..6][..5] == h[..5];
    assert PlaysDesc(h[..1], 7) == [1];
    assert PlaysDesc(h[..2], 7) == [2, 1];
    assert PlaysDesc(h[..3], 7) == [3, 2, 1];
    assert PlaysDesc(h[..4], 7) == [4, 3, 2, 1];
    assert PlaysDesc(h[..5], 7) == [5, 4, 3, 2, 1];
    assert h[..6] == h;
    assert PlaysDesc(h, 7) == [6, 5, 4, 3, 2, 1];
  }

  lemma ExampleSixTracksDedup()
    ensures var w: seq<TrackId> := [6, 5, 4, 3, 2, 1]; Seqs.Dedup(w) == w
  {
    var w: seq<TrackId> := [6, 5, 4, 3, 2, 1];
    assert w[..1][..0] == [];
    assert w[..2][..1] == w[..1];
    assert w[..3][..2] == w[..2];
    assert w[..4][..3] == w[..3];
    assert w[..5][..4] == w[..4];
    assert w[..6][..5] == w[..5];
    assert Seqs.Dedup(w[..1]) == [6];
    assert Seqs.Dedup(w[..2]) == [6, 5];
    assert Seqs.Dedup(w[..3]) == [6, 5, 4];
    assert Seqs.Dedup(w[..4]) == [6, 5, 4, 3];
    assert Seqs.Dedup(w[..5]) == [6, 5, 4, 3, 2];
    assert w[..6] == w;
  }

  lemma ExampleNothingResolves()
    ensures var ids: seq<TrackId> := [6, 5, 4, 3, 2]; Resolve(ids, map[1 := ReadyTrack(7, "A")]) == []
  {
    var ids: seq<TrackId> := [6, 5, 4, 3, 2];
    var tracks := map[1 := ReadyTrack(7, "A")];
    assert ids[..1][..0] == [];
    assert ids[..2][..1] == ids[..1];
    assert ids[..3][..2] == ids[..2];
    assert ids[..4][..3] == ids[..3];
    assert ids[..5][..4] == ids[..4];
    assert Resolve(ids[..1], tracks) == [];
    assert Resolve(ids[..2], tracks) == [];
    assert Resolve(ids[..3], tracks) == [];
    assert Resolve(ids[..4], tracks) == [];
    assert ids[..5] == ids;
  }

  /**
   * Truncation to five distinct tracks happens before the ready filter: when
   * the five most recent tracks are gone and a ready one was played before
   * them, nothing comes back.
   */
  lemma RecentlyPlayedTruncatesBeforeFiltering()
    ensures var history := Plays([1, 2, 3, 4, 5, 6]);
      && 1 in RecentWindow(history, 7)
      && RecentlyPlayed(Some(7), map[1 := ReadyTrack(7, "A")], history) == []
  {
    ExampleSixTracksWindow();
    ExampleSixTracksDedup();
    ExampleNothingResolves();
    var w: seq<TrackId> := [6, 5, 4, 3, 2, 1];
    assert Seqs.Take(w, RecentTracks) == [6, 5, 4, 3, 2];
  }

  /**
   * Neither `recordPlay` nor `getRecentlyPlayed` checks the owner: a play of
   * another user's ready track brings that track back to the player.
   */
  lemma RecentlyPlayedIsNotOwnerScoped()
    ensures var tracks := map[1 := ReadyTrack(8, "theirs")];
      var r := RecentlyPlayed(Some(7), tracks, [PlayEvent(7, 1, 0)]);
      |r| == 1 && r[0].track.userId != 7
  {
  }
}
