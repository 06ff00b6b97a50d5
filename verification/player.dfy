/** The player state held by the `App` component of App.jsx: the track list,
    the selected index, the playing flag and the volume, and the handlers
    that change them. Every asynchronous handler is one atomic step taken
    once its catalog reply has settled; the reply is a parameter. */
module Player {
  import opened Optional
  import opened Catalog
  import opened ModArith

  datatype PlayerState = PlayerState(
    songs: seq<Track>,
    currentIndex: nat,
    isPlaying: bool,
    volume: real)

  /** The state App starts with, before its first search settles. */
  const Initial := PlayerState([], 0, false, 0.75)

  /** The selected index points into the list, or the list is empty. */
  predicate Valid(s: PlayerState) {
    |s.songs| == 0 || s.currentIndex < |s.songs|
  }

  /** `songs[currentIndex]`: the track under the cursor, None when the
      index is past the end (always so for an empty list). */
  function CurrentSong(s: PlayerState): (c: Option<Track>)
    ensures c.Some? <==> s.currentIndex < |s.songs|
    ensures c.Some? ==> c.value == s.songs[s.currentIndex]
    ensures Valid(s) ==> (c.Some? <==> |s.songs| > 0)
  {
    if s.currentIndex < |s.songs| then Some(s.songs[s.currentIndex]) else None
  }

  /** `fetchSongs` after its request settles: a reply replaces the list and
      selects its first track, paused; a failure empties the list and leaves
      index and playing flag as they were. */
  function Search(s: PlayerState, reply: FetchReply): (r: PlayerState)
    ensures reply.Received? ==> r.songs == reply.results && r.currentIndex == 0 && !r.isPlaying
    ensures reply.Failed? ==> r.songs == [] && r.currentIndex == s.currentIndex && r.isPlaying == s.isPlaying
    ensures r.volume == s.volume
    ensures Valid(r)
  {
    match reply
    case Received(results) => s.(songs := results, currentIndex := 0, isPlaying := false)
    case Failed => s.(songs := [])
  }

  /** The start-up effect: App searches for 'lofi' once. */
  function Startup(reply: FetchReply): (r: PlayerState)
    ensures Valid(r) && r.volume == 0.75
    ensures r.currentIndex == 0 && !r.isPlaying
    ensures reply.Received? ==> r.songs == reply.results
    ensures reply.Failed? ==> r.songs == []
  {
    Search(Initial, reply)
  }

  /** The index sits on the last track, where Next asks the catalog. */
  predicate AtLast(s: PlayerState) {
    |s.songs| > 0 && s.currentIndex == |s.songs| - 1
  }

  /** The catalog search Next issues, if any: the artist of the current
      track, asked only when the index sits on the last track. */
  function NextQuery(s: PlayerState): (q: Option<string>)
    ensures q.Some? <==> AtLast(s)
    ensures q.Some? ==> q.value == s.songs[|s.songs| - 1].artistName
  {
    if AtLast(s) then Some(s.songs[s.currentIndex].artistName) else None
  }

  /** The reply offers a track whose id the list does not hold yet. */
  predicate OffersNovel(reply: FetchReply, songs: seq<Track>) {
    reply.Received? && HasNovel(reply.results, TrackIds(songs))
  }

  /** `handleNextSong` (also run when a track ends). `reply` is the settled
      answer to NextQuery(s); it is not looked at when no query is made. */
  function Next(s: PlayerState, reply: FetchReply): (r: PlayerState)
    ensures |s.songs| == 0 ==> r == s
    ensures r.volume == s.volume
    ensures |s.songs| > 0 ==> r.isPlaying
    // Not yet at the end: step forward within the same list.
    ensures |s.songs| > 0 && s.currentIndex < |s.songs| - 1 ==>
              r.songs == s.songs && r.currentIndex == s.currentIndex + 1
    // At the end with something new in the reply: append it and select it.
    ensures AtLast(s) && OffersNovel(reply, s.songs) ==>
              && |r.songs| == |s.songs| + 1
              && r.songs[..|s.songs|] == s.songs
              && r.currentIndex == |s.songs|
              && exists k: nat :: IsFirstNovel(reply.results, TrackIds(s.songs), k)
                             && r.songs[|s.songs|] == reply.results[k]
    // At the end with nothing new, or the request failed: wrap to the first track.
    ensures AtLast(s) && !OffersNovel(reply, s.songs) ==>
              r.songs == s.songs && r.currentIndex == 0
    // Index past the end: reading the artist throws, and the catch wraps to 0.
    ensures |s.songs| > 0 && s.currentIndex >= |s.songs| ==>
              r.songs == s.songs && r.currentIndex == 0
    ensures Valid(r)
    ensures DistinctIds(s.songs) ==> DistinctIds(r.songs)
  {
    if |s.songs| == 0 then s
    else if s.currentIndex < |s.songs| - 1 then
      s.(currentIndex := s.currentIndex + 1, isPlaying := true)
    else if s.currentIndex > |s.songs| - 1 then
      s.(currentIndex := 0, isPlaying := true)
    else
      match reply
      case Failed => s.(currentIndex := 0, isPlaying := true)
      case Received(results) =>
        match FindNovel(results, TrackIds(s.songs))
        case None => s.(currentIndex := 0, isPlaying := true)
        case Some(k) =>
          AppendNovel(s.songs, results[k]);
          assert (s.songs + [results[k]])[..|s.songs|] == s.songs;
          s.(songs := s.songs + [results[k]], currentIndex := |s.songs|, isPlaying := true)
  }

  /** `handlePrevSong`: one step back, wrapping from the first track to the
      last, and play. JavaScript's `%` truncates toward zero, but its left
      operand `currentIndex - 1 + songs.length` is never negative here, so it
      agrees with Dafny's `%`. */
  function Prev(s: PlayerState): (r: PlayerState)
    ensures |s.songs| == 0 ==> r == s
    ensures |s.songs| > 0 ==>
              && r.songs == s.songs && r.isPlaying && r.volume == s.volume
              && r.currentIndex < |s.songs|
    ensures 0 < s.currentIndex < |s.songs| ==> r.currentIndex == s.currentIndex - 1
    ensures |s.songs| > 0 && s.currentIndex == 0 ==> r.currentIndex == |s.songs| - 1
    // Index past the end (reachable only when handlers overlap): (i - 1) mod n.
    ensures |s.songs| > 0 && s.currentIndex >= |s.songs| ==>
              r.currentIndex == (s.currentIndex - 1) % |s.songs|
    ensures Valid(r)
  {
    if |s.songs| == 0 then s
    else
      var n := |s.songs|;
      StepBack(s.currentIndex, n);
      s.(currentIndex := (s.currentIndex - 1 + n) % n, isPlaying := true)
  }

  /** `handlePlayPause`: flip the playing flag when there is a current song,
      otherwise do nothing. */
  function PlayPause(s: PlayerState): (r: PlayerState)
    ensures r.songs == s.songs && r.currentIndex == s.currentIndex && r.volume == s.volume
    ensures r.isPlaying != s.isPlaying <==> CurrentSong(s).Some?
    ensures Valid(s) ==> Valid(r)
  {
    if CurrentSong(s).Some? then s.(isPlaying := !s.isPlaying) else s
  }

  /** `handleVolumeChange`: the slider's value becomes the volume as it is;
      no clamping happens here. */
  function SetVolume(s: PlayerState, v: real): (r: PlayerState)
    ensures r.volume == v
    ensures r.songs == s.songs && r.currentIndex == s.currentIndex && r.isPlaying == s.isPlaying
    ensures Valid(s) ==> Valid(r)
  {
    s.(volume := v)
  }
}
