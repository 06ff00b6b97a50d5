/** Track records as the song catalog returns them, the reply of one catalog
    request, and the "first track not already in the list" search that the
    Next step uses to extend the list. */
module Catalog {
  import opened Optional

  /** One result record. The catalog's `trackId` identifies a track; the
      other fields are carried along unchanged. */
  datatype Track = Track(
    trackId: int,
    trackName: string,
    artistName: string,
    artworkUrl100: string,
    previewUrl: string)

  /** The outcome of one catalog request once it has settled: the `results`
      array of the reply, or the rejection the `catch` block receives. */
  datatype FetchReply = Received(results: seq<Track>) | Failed

  /** The set of ids of a track list (`new Set(songs.map(s => s.trackId))`). */
  function TrackIds(songs: seq<Track>): (ids: set<int>)
    ensures forall i :: 0 <= i < |songs| ==> songs[i].trackId in ids
    ensures forall id :: id in ids ==> exists i :: 0 <= i < |songs| && songs[i].trackId == id
  {
    set i | 0 <= i < |songs| :: songs[i].trackId
  }

  /** No two entries of the list share an id. */
  predicate DistinctIds(songs: seq<Track>) {
    forall i, j :: 0 <= i < j < |songs| ==> songs[i].trackId != songs[j].trackId
  }

  /** k is the position of the first result whose id is not in ids. */
  predicate IsFirstNovel(results: seq<Track>, ids: set<int>, k: nat) {
    && k < |results|
    && results[k].trackId !in ids
    && forall j :: 0 <= j < k ==> results[j].trackId in ids
  }

  /** Some result has an id outside ids. */
  predicate HasNovel(results: seq<Track>, ids: set<int>) {
    exists t :: t in results && t.trackId !in ids
  }

  /** The position `results.find(r => !ids.has(r.trackId))` stops at, or
      None when every result's id is already known. */
  function FindNovel(results: seq<Track>, ids: set<int>): (k: Option<nat>)
    ensures k.Some? ==> IsFirstNovel(results, ids, k.value)
    ensures k.None? <==> !HasNovel(results, ids)
    decreases |results|
  {
    if |results| == 0 then None
    else if results[0].trackId !in ids then Some(0)
    else
      match FindNovel(results[1..], ids)
      case None =>
        assert forall t :: t in results ==> t == results[0] || t in results[1..];
        None
      case Some(k) => Some(k + 1)
  }

  /** Appending a track whose id is new keeps the ids distinct and adds
      exactly that id. */
  lemma AppendNovel(songs: seq<Track>, t: Track)
    requires t.trackId !in TrackIds(songs)
    ensures DistinctIds(songs) ==> DistinctIds(songs + [t])
    ensures TrackIds(songs + [t]) == TrackIds(songs) + {t.trackId}
  {
    var s := songs + [t];
    assert s[|songs|] == t;
    forall id | id in TrackIds(s)
      ensures id in TrackIds(songs) + {t.trackId}
    {
      var i :| 0 <= i < |s| && s[i].trackId == id;
      if i < |songs| {
        assert s[i] == songs[i];
      }
    }
    forall id | id in TrackIds(songs) + {t.trackId}
      ensures id in TrackIds(s)
    {
      if id in TrackIds(songs) {
        var i :| 0 <= i < |songs| && songs[i].trackId == id;
        assert s[i] == songs[i];
      }
    }
  }
}
