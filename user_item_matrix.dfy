/**
 * Building the user-item matrix: user id -> (track id -> play count).
 * The two database reads become inputs: `users` is what `User.find()`
 * returns and `records` is the whole UserTrack collection, from which
 * `UserTrack.find({ userId })` selects.
 */
module UserItemMatrix {
  import opened JsObject

  type UserId = string
  type TrackId = string

  /** One stored UserTrack document (only the fields the matrix reads). */
  datatype UserTrack = UserTrack(userId: UserId, trackId: TrackId, playCount: int)

  /** One user's row: track id -> play count. */
  type Row = Dict<TrackId, int>

  /** The whole matrix: user id -> row. */
  type Matrix = Dict<UserId, Row>

  /** The matrix and each of its rows are well-formed objects. */
  ghost predicate WellFormed(m: Matrix) {
    m.Valid() && forall u :: m.Has(u) ==> m.Get(u).Valid()
  }

  /** `UserTrack.find({ userId: u })`: the records of user `u`, in store order. */
  function TracksOf(records: seq<UserTrack>, u: UserId): (r: seq<UserTrack>)
    ensures forall x :: x in r <==> x in records && x.userId == u
    ensures |r| <= |records|
  {
    if records == [] then []
    else
      var rest := TracksOf(records[..|records| - 1], u);
      var last := records[|records| - 1];
      assert records == records[..|records| - 1] + [last];
      if last.userId == u then rest + [last] else rest
  }

  /** The row that assigning `row[trackId] = playCount` for each record in turn leaves behind. */
  function RowAfter(tracks: seq<UserTrack>): map<TrackId, int> {
    if tracks == [] then map[]
    else
      var last := tracks[|tracks| - 1];
      RowAfter(tracks[..|tracks| - 1])[last.trackId := last.playCount]
  }

  /** Some record in `tracks` is for track `t`. */
  ghost predicate Mentions(tracks: seq<UserTrack>, t: TrackId) {
    exists i :: 0 <= i < |tracks| && tracks[i].trackId == t
  }

  /** `v` is the play count of the last record in `tracks` for track `t`. */
  ghost predicate LastPlayCountIs(tracks: seq<UserTrack>, t: TrackId, v: int) {
    exists i :: 0 <= i < |tracks| && tracks[i].trackId == t && tracks[i].playCount == v &&
      forall j :: i < j < |tracks| ==> tracks[j].trackId != t
  }

  /**
   * Among all stored `records`, the last one of user `u` for track `t` has
   * play count `v`.
   */
  ghost predicate LastRecordIs(records: seq<UserTrack>, u: UserId, t: TrackId, v: int) {
    exists i :: 0 <= i < |records| && records[i].userId == u && records[i].trackId == t && records[i].playCount == v &&
      forall j :: i < j < |records| ==> !(records[j].userId == u && records[j].trackId == t)
  }

  /** The last of u's selected records for `t` is the last of all stored records of u for `t`: the filter keeps store order. */
  lemma {:induction false} LastOfTracksOf(records: seq<UserTrack>, u: UserId, t: TrackId, v: int)
    requires LastPlayCountIs(TracksOf(records, u), t, v)
    ensures LastRecordIs(records, u, t, v)
  {
    var n := |records|;
    var tracks := TracksOf(records, u);
    var i :| 0 <= i < |tracks| && tracks[i].trackId == t && tracks[i].playCount == v &&
      forall j :: i < j < |tracks| ==> tracks[j].trackId != t;
    assert n > 0 by {
      assert tracks[i] in records;
    }
    var init, last := records[..n - 1], records[n - 1];
    var rest := TracksOf(init, u);
    assert records == init + [last];
    if last.userId == u && i == |rest| {
      assert tracks == rest + [last];
      assert records[n - 1] == last && last == tracks[i];
    } else {
      LastInEarlierRecords(records, u, t, v, i);
      LastOfTracksOf(init, u, t, v);
      LastRecordExtends(records, u, t, v);
    }
  }

  /** When the chosen record of `TracksOf(records, u)` is not the final stored record, it is already the last one in all earlier records. */
  lemma LastInEarlierRecords(records: seq<UserTrack>, u: UserId, t: TrackId, v: int, i: nat)
    requires records != []
    requires var tracks := TracksOf(records, u);
      i < |tracks| && tracks[i].trackId == t && tracks[i].playCount == v &&
      forall j :: i < j < |tracks| ==> tracks[j].trackId != t
    requires var last := records[|records| - 1]; !(last.userId == u && i == |TracksOf(records[..|records| - 1], u)|)
    ensures LastPlayCountIs(TracksOf(records[..|records| - 1], u), t, v)
    ensures var last := records[|records| - 1]; !(last.userId == u && last.trackId == t)
  {
    var n := |records|;
    var init, last := records[..n - 1], records[n - 1];
    var tracks, rest := TracksOf(records, u), TracksOf(init, u);
    assert tracks == if last.userId == u then rest + [last] else rest;
    assert i < |rest| && rest[i] == tracks[i];
    assert forall j :: i < j < |rest| ==> rest[j] == tracks[j];
    if last.userId == u {
      assert tracks[|rest|] == last;
    }
  }

  /** A final stored record that is not u's record for `t` does not change which one is last. */
  lemma LastRecordExtends(records: seq<UserTrack>, u: UserId, t: TrackId, v: int)
    requires records != []
    requires LastRecordIs(records[..|records| - 1], u, t, v)
    requires var last := records[|records| - 1]; !(last.userId == u && last.trackId == t)
    ensures LastRecordIs(records, u, t, v)
  {
    var n := |records|;
    var init := records[..n - 1];
    var k :| 0 <= k < |init| && init[k].userId == u && init[k].trackId == t && init[k].playCount == v &&
      forall j :: k < j < |init| ==> !(init[j].userId == u && init[j].trackId == t);
    assert records[k] == init[k];
    assert forall j :: k < j < n - 1 ==> records[j] == init[j];
  }

  /** The row has a key for exactly the tracks that some record mentions. */
  lemma {:induction false} RowAfterKeys(tracks: seq<UserTrack>, t: TrackId)
    ensures t in RowAfter(tracks) <==> Mentions(tracks, t)
  {
    if tracks != [] {
      var init := tracks[..|tracks| - 1];
      RowAfterKeys(init, t);
      if Mentions(init, t) {
        var i :| 0 <= i < |init| && init[i].trackId == t;
        assert tracks[i].trackId == t;
      }
      if Mentions(tracks, t) && tracks[|tracks| - 1].trackId != t {
        var i :| 0 <= i < |tracks| && tracks[i].trackId == t;
        assert init[i].trackId == t;
      }
    }
  }

  /** Later records for the same track overwrite earlier ones: the stored value is the last play count. */
  lemma {:induction false} RowAfterLastWins(tracks: seq<UserTrack>, t: TrackId)
    requires t in RowAfter(tracks)
    ensures LastPlayCountIs(tracks, t, RowAfter(tracks)[t])
  {
    var n := |tracks|;
    var init := tracks[..n - 1];
    if tracks[n - 1].trackId == t {
      assert tracks[n - 1].trackId == t && tracks[n - 1].playCount == RowAfter(tracks)[t];
    } else {
      RowAfterLastWins(init, t);
      var i :| 0 <= i < |init| && init[i].trackId == t && init[i].playCount == RowAfter(init)[t] &&
        forall j :: i < j < |init| ==> init[j].trackId != t;
      assert tracks[i] == init[i];
      assert forall j :: i < j < n ==> tracks[j].trackId != t by {
        forall j | i < j < n ensures tracks[j].trackId != t {
          if j < n - 1 { assert tracks[j] == init[j]; }
        }
      }
    }
  }

  /**
   * What a row built from `TracksOf(records, u)` holds: a key for each track
   * of u's records, the last play count for it, and nothing for a user
   * without records.
   */
  lemma RowMeaning(records: seq<UserTrack>, u: UserId, row: Row)
    requires row.Valid() && row.entries == RowAfter(TracksOf(records, u))
    ensures forall t :: row.Has(t) <==> exists x :: x in records && x.userId == u && x.trackId == t
    ensures forall t :: row.Has(t) ==> LastPlayCountIs(TracksOf(records, u), t, row.Get(t))
    ensures TracksOf(records, u) == [] ==> row.keys == []
  {
    var tracks := TracksOf(records, u);
    forall t ensures row.Has(t) <==> exists x :: x in records && x.userId == u && x.trackId == t {
      RowAfterKeys(tracks, t);
      if Mentions(tracks, t) {
        var k :| 0 <= k < |tracks| && tracks[k].trackId == t;
        assert tracks[k] in tracks;
      }
      if x :| x in records && x.userId == u && x.trackId == t {
        assert x in tracks;
        var k :| 0 <= k < |tracks| && tracks[k] == x;
      }
    }
    forall t | row.Has(t) ensures LastPlayCountIs(tracks, t, row.Get(t)) {
      RowAfterLastWins(tracks, t);
    }
    assert |row.keys| == 0 || row.keys[0] in row.entries;
  }

  /**
   * Lines 10-14 for one user: reset the user's row to `{}` and assign each
   * record's play count in turn. Every other user's row stays as it was.
   */
  method FillRow(matrix: Matrix, user: UserId, userTracks: seq<UserTrack>) returns (filled: Matrix)
    requires WellFormed(matrix)
    ensures WellFormed(filled)
    ensures forall u :: filled.Has(u) <==> matrix.Has(u) || u == user
    ensures forall u :: u != user && matrix.Has(u) ==> filled.Get(u) == matrix.Get(u)
    ensures filled.Get(user).entries == RowAfter(userTracks)
  {
    filled := matrix.Set(user, Empty());
    var j := 0;
    while j < |userTracks|
      invariant 0 <= j <= |userTracks|
      invariant WellFormed(filled)
      invariant forall u :: filled.Has(u) <==> matrix.Has(u) || u == user
      invariant forall u :: u != user && matrix.Has(u) ==> filled.Get(u) == matrix.Get(u)
      invariant filled.Get(user).entries == RowAfter(userTracks[..j])
    {
      var userTrack := userTracks[j];
      filled := SetPlayCount(filled, user, userTrack.trackId, userTrack.playCount);
      assert userTracks[..j + 1][..j] == userTracks[..j];
      j := j + 1;
    }
    assert userTracks[..j] == userTracks;
  }

  /** Line 13: `matrix[user][trackId] = playCount`, on a user who already has a row. */
  method SetPlayCount(matrix: Matrix, user: UserId, trackId: TrackId, playCount: int) returns (updated: Matrix)
    requires WellFormed(matrix) && matrix.Has(user)
    ensures WellFormed(updated)
    ensures forall u :: updated.Has(u) <==> matrix.Has(u)
    ensures forall u :: u != user && matrix.Has(u) ==> updated.Get(u) == matrix.Get(u)
    ensures updated.Get(user).entries == matrix.Get(user).entries[trackId := playCount]
  {
    updated := matrix.Set(user, matrix.Get(user).Set(trackId, playCount));
  }

  /**
   * `buildUserItemMatrix`: one row per user of `users`, filled from that
   * user's own records; a user without records gets an empty row.
   */
  method BuildUserItemMatrix(users: seq<UserId>, records: seq<UserTrack>) returns (matrix: Matrix)
    ensures WellFormed(matrix)
    ensures forall u :: matrix.Has(u) <==> u in users
    ensures forall u, t :: u in users ==>
      (matrix.Get(u).Has(t) <==> exists x :: x in records && x.userId == u && x.trackId == t)
    ensures forall u, t :: u in users && matrix.Get(u).Has(t) ==>
      LastPlayCountIs(TracksOf(records, u), t, matrix.Get(u).Get(t))
    ensures forall u, t :: u in users && matrix.Get(u).Has(t) ==> LastRecordIs(records, u, t, matrix.Get(u).Get(t))
    ensures forall u :: u in users && TracksOf(records, u) == [] ==> matrix.Get(u).keys == []
  {
    matrix := Empty();
    var i := 0;
    while i < |users|
      invariant 0 <= i <= |users|
      invariant WellFormed(matrix)
      invariant forall u :: matrix.Has(u) <==> u in users[..i]
      invariant forall u :: u in users[..i] ==> matrix.Get(u).entries == RowAfter(TracksOf(records, u))
    {
      var user := users[i];
      var userTracks := TracksOf(records, user);
      matrix := FillRow(matrix, user, userTracks);
      i := i + 1;
    }
    assert i == |users| && users[..i] == users[..|users|];
    forall u | u in users {
      RowMeaning(records, u, matrix.Get(u));
    }
    forall u, t | u in users && matrix.Get(u).Has(t) ensures LastRecordIs(records, u, t, matrix.Get(u).Get(t)) {
      LastOfTracksOf(records, u, t, matrix.Get(u).Get(t));
    }
  }
}
