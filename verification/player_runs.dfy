/** Sequences of user and playback events applied to the player state, and
    the properties that hold along every such run. */
module PlayerRuns {
  import opened Catalog
  import opened Player
  import opened ModArith

  /** One handler invocation, with the reply it awaited (if any). */
  datatype Event =
    | SearchSettled(reply: FetchReply)
    | NextPressed(reply: FetchReply)
    | TrackEnded(reply: FetchReply)
    | PrevPressed
    | PlayPausePressed
    | VolumeChanged(volume: real)

  function Step(s: PlayerState, e: Event): PlayerState {
    match e
    case SearchSettled(reply) => Search(s, reply)
    case NextPressed(reply) => Next(s, reply)
    case TrackEnded(reply) => Next(s, reply)
    case PrevPressed => Prev(s)
    case PlayPausePressed => PlayPause(s)
    case VolumeChanged(v) => SetVolume(s, v)
  }

  function Run(s: PlayerState, es: seq<Event>): PlayerState
    decreases |es|
  {
    if |es| == 0 then s else Run(Step(s, es[0]), es[1..])
  }

  /** Every search reply in the run lists distinct ids. */
  predicate SearchesDistinct(es: seq<Event>) {
    forall i :: 0 <= i < |es| && es[i].SearchSettled? && es[i].reply.Received? ==>
      DistinctIds(es[i].reply.results)
  }

  /** Every volume the slider reports lies in its [0, 1] range. */
  predicate SliderInRange(es: seq<Event>) {
    forall i :: 0 <= i < |es| && es[i].VolumeChanged? ==> 0.0 <= es[i].volume <= 1.0
  }

  /** No event of the run replaces the list. */
  predicate NoSearch(es: seq<Event>) {
    forall i :: 0 <= i < |es| ==> !es[i].SearchSettled?
  }

  /** The index stays in range of the list (or the list is empty) along
      every run from a valid state, in particular from App's initial state. */
  lemma {:induction false} RunKeepsValid(s: PlayerState, es: seq<Event>)
    requires Valid(s)
    ensures Valid(Run(s, es))
    decreases |es|
  {
    if |es| > 0 {
      RunKeepsValid(Step(s, es[0]), es[1..]);
    }
  }

  /** Track ids stay pairwise distinct as long as each search reply has
      distinct ids: Next only ever appends an id the list does not hold. */
  lemma {:induction false} RunKeepsDistinct(s: PlayerState, es: seq<Event>)
    requires DistinctIds(s.songs) && SearchesDistinct(es)
    ensures DistinctIds(Run(s, es).songs)
    decreases |es|
  {
    if |es| > 0 {
      assert SearchesDistinct(es[1..]) by {
        forall i | 0 <= i < |es[1..]| && es[1..][i].SearchSettled? && es[1..][i].reply.Received?
          ensures DistinctIds(es[1..][i].reply.results)
        {
          assert es[1..][i] == es[i + 1];
        }
      }
      if es[0].SearchSettled? && es[0].reply.Received? {
        assert DistinctIds(es[0].reply.results);
      }
      RunKeepsDistinct(Step(s, es[0]), es[1..]);
    }
  }

  /** The handler does not clamp: the volume stays in [0, 1] only because
      the slider never reports a value outside it. */
  lemma {:induction false} RunKeepsVolume(s: PlayerState, es: seq<Event>)
    requires 0.0 <= s.volume <= 1.0 && SliderInRange(es)
    ensures 0.0 <= Run(s, es).volume <= 1.0
    decreases |es|
  {
    if |es| > 0 {
      assert SliderInRange(es[1..]) by {
        forall i | 0 <= i < |es[1..]| && es[1..][i].VolumeChanged?
          ensures 0.0 <= es[1..][i].volume <= 1.0
        {
          assert es[1..][i] == es[i + 1];
        }
      }
      if es[0].VolumeChanged? {
        assert 0.0 <= es[0].volume <= 1.0;
      }
      RunKeepsVolume(Step(s, es[0]), es[1..]);
    }
  }

  /** Between two searches the list only grows at its end: what was there
      stays, in order. */
  lemma {:induction false} RunWithoutSearchExtends(s: PlayerState, es: seq<Event>)
    requires NoSearch(es)
    ensures |s.songs| <= |Run(s, es).songs|
    ensures Run(s, es).songs[..|s.songs|] == s.songs
    decreases |es|
  {
    if |es| > 0 {
      assert !es[0].SearchSettled?;
      assert NoSearch(es[1..]) by {
        forall i | 0 <= i < |es[1..]|
          ensures !es[1..][i].SearchSettled?
        {
          assert es[1..][i] == es[i + 1];
        }
      }
      var t := Step(s, es[0]);
      assert |s.songs| <= |t.songs| && t.songs[..|s.songs|] == s.songs;
      RunWithoutSearchExtends(t, es[1..]);
      var u := Run(t, es[1..]);
      assert u.songs[..|s.songs|] == u.songs[..|t.songs|][..|s.songs|];
    }
  }

  /** Previous undoes Next: whatever the catalog answers, stepping forward
      and then back returns to the track that was selected. */
  lemma NextThenPrev(s: PlayerState, reply: FetchReply)
    requires Valid(s) && |s.songs| > 0
    ensures Prev(Next(s, reply)).currentIndex == s.currentIndex
    ensures Prev(Next(s, reply)).songs[..|s.songs|] == s.songs
    ensures Prev(Next(s, reply)).isPlaying
  {
    var t := Next(s, reply);
    if AtLast(s) && OffersNovel(reply, s.songs) {
      assert t.currentIndex == |s.songs| && |t.songs| == |s.songs| + 1;
    } else if AtLast(s) {
      assert t.songs == s.songs;
    } else {
      assert t.songs == s.songs;
    }
  }

  /** Next undoes Previous unless Previous wrapped from the first track onto
      the last and the catalog then offers something new. */
  lemma PrevThenNext(s: PlayerState, reply: FetchReply)
    requires Valid(s) && |s.songs| > 0
    requires s.currentIndex == 0 ==> !OffersNovel(reply, s.songs)
    ensures Next(Prev(s), reply) == s.(isPlaying := true)
  {
  }

  /** k Next steps in a row, each with its own settled reply. */
  function NextAll(s: PlayerState, replies: seq<FetchReply>): PlayerState
    decreases |replies|
  {
    if |replies| == 0 then s else NextAll(Next(s, replies[0]), replies[1..])
  }

  /** With nothing new on offer, one Next moves the index one place forward
      around the list. */
  lemma NextWraps(s: PlayerState, reply: FetchReply)
    requires Valid(s) && |s.songs| > 0 && !OffersNovel(reply, s.songs)
    ensures Next(s, reply) == s.(currentIndex := (s.currentIndex + 1) % |s.songs|, isPlaying := true)
  {
    var n := |s.songs|;
    if s.currentIndex + 1 < n {
      assert (s.currentIndex + 1) % n == s.currentIndex + 1;
    } else {
      assert (s.currentIndex + 1) % n == 0;
    }
  }

  /** While the catalog offers nothing new, Next cycles through the list:
      after k steps the index has moved k places, modulo the length. */
  lemma {:induction false} NextCycles(s: PlayerState, replies: seq<FetchReply>)
    requires Valid(s) && |s.songs| > 0
    requires forall i :: 0 <= i < |replies| ==> !OffersNovel(replies[i], s.songs)
    ensures NextAll(s, replies).songs == s.songs
    ensures NextAll(s, replies).currentIndex == (s.currentIndex + |replies|) % |s.songs|
    ensures |replies| > 0 ==> NextAll(s, replies).isPlaying
    decreases |replies|
  {
    var n := |s.songs|;
    var i := s.currentIndex;
    var k := |replies|;
    if k > 0 {
      NextWraps(s, replies[0]);
      var t := s.(currentIndex := (i + 1) % n, isPlaying := true);
      assert NextAll(s, replies) == NextAll(t, replies[1..]);
      assert t.songs == s.songs && Valid(t);
      var rest := replies[1..];
      assert forall j :: 0 <= j < |rest| ==> !OffersNovel(rest[j], t.songs) by {
        forall j | 0 <= j < |rest|
          ensures !OffersNovel(rest[j], t.songs)
        {
          assert rest[j] == replies[j + 1];
        }
      }
      NextCycles(t, rest);
      assert NextAll(t, rest).currentIndex == ((i + 1) % n + (k - 1)) % n;
      ModAdd(i + 1, k - 1, n);
      assert (i + 1) + (k - 1) == i + k;
      assert ((i + 1) % n + (k - 1)) % n == (i + k) % n;
    } else {
      ModOfSmall(i, n);
    }
  }

  /** A start-up walk-through: a search settles with n tracks,
      the first is selected and paused; n presses of Next with nothing new
      come back to the first track, playing; each Play/Pause flips the flag. */
  lemma SearchThenCycle(s: PlayerState, results: seq<Track>, replies: seq<FetchReply>)
    requires |results| > 0 && |replies| == |results|
    requires forall i :: 0 <= i < |replies| ==> !OffersNovel(replies[i], results)
    ensures var a := Search(s, Received(results));
            a.currentIndex == 0 && !a.isPlaying && a.songs == results
    ensures var b := NextAll(Search(s, Received(results)), replies);
            b.currentIndex == 0 && b.isPlaying && b.songs == results
    ensures var b := NextAll(Search(s, Received(results)), replies);
            !PlayPause(b).isPlaying && PlayPause(PlayPause(b)) == b
  {
    var a := Search(s, Received(results));
    NextCycles(a, replies);
    assert (0 + |replies|) % |results| == 0;
  }

  /** Play/Pause twice in a row changes nothing. */
  lemma PlayPauseTwice(s: PlayerState)
    ensures PlayPause(PlayPause(s)) == s
  {
  }

  /** After a failed search there is no current song, so Play/Pause, Next
      and Previous all leave the state alone. */
  lemma FailedSearchIsInert(s: PlayerState, reply: FetchReply)
    ensures var a := Search(s, Failed);
            CurrentSong(a).None? && PlayPause(a) == a && Next(a, reply) == a && Prev(a) == a
  {
  }
}
