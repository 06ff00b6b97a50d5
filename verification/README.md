# Music Land player — a Dafny model

Music Land is a browser widget that searches a public song catalog and plays
30-second previews. Its `App` component keeps a small player state: the track
list `songs`, the selected `currentIndex`, the `isPlaying` flag and the
`volume`. Search, Next (also run when a track ends), Previous, Play/Pause and
the volume slider change that state. `formatTime` renders the elapsed time and
the duration as `m:ss`.

This project models that state machine and the formatter as pure functions,
and proves their contracts.

- `optional.dfy` — `Option`, standing for JavaScript's `undefined`.
- `decimal.dfy` — how a template literal prints a non-negative integer (below 1e21), and
  the inverse reading of digit strings.
- `format_time.dfy` — `formatTime` and a parser for its labels. For whole
  seconds, formatting and parsing are proved to be inverse bijections.
- `catalog.dfy` — track records, the settled reply of a catalog request, the
  id set, and the first-novel-track search used by Next.
- `player.dfy` — the player state and one function per handler.
- `player_runs.dfy` — runs of events, and the properties that hold along
  them: the index stays in range, ids stay distinct, Previous undoes Next,
  and Next cycles through the list.
- `mod_arith.dfy` — facts about `%` that the wrap-around proofs need.

Every network reply is a parameter: `Received(results)` or `Failed`. This
makes each asynchronous handler one deterministic step, taken once its reply
has settled.

Two behaviours one might expect of such a player are not what the code does; the model follows the code:

- **Volume is not clamped.** `handleVolumeChange` stores `parseFloat` of the
  slider value as it is. The [0, 1] bound comes only from the slider's
  `min`/`max` attributes. `PlayerRuns.RunKeepsVolume` proves that the bound
  holds along any run in which every slider value lies in [0, 1].
- **A failed search does not fully reset the player.** It empties the list
  but leaves `currentIndex` and `isPlaying` as they were. So the player can
  hold `isPlaying == true` with no tracks. `PlayerRuns.FailedSearchIsInert`
  proves that such a state has no current song and that Play/Pause, Next and
  Previous do nothing to it.

## Model

| member | source | states |
|---|---|---|
| Decimal.Show | music-land-app/src/App.jsx:23 | A whole number prints as digits with no leading zero (a single digit exactly when it is below 10) |
| Decimal.ValueOfShow | music-land-app/src/App.jsx:23 | Reading the printed digits back gives the original number |
| Decimal.ShowOfValue | music-land-app/src/App.jsx:23 | Every digit string without a leading zero is the printout of its value, so printing is a bijection |
| Clock.Pad2 | music-land-app/src/App.jsx:23 | Seconds below 60 become exactly two digits that denote them, with a '0' prefix below ten |
| Clock.FormatTime | music-land-app/src/App.jsx:19-24 | NaN/undefined gives "0:00"; otherwise the label is canonical minutes (s div 60), ':', and two digits (s mod 60), and it parses back to s |
| Clock.ParseThenFormat | music-land-app/src/App.jsx:19-24 | Every well-formed m:ss label is the formatTime output of the seconds it denotes, so no other text is ever produced |
| Clock.PadOfValue | music-land-app/src/App.jsx:23 | Two digits below 60 are the padding of their own value |
| Clock.Examples | music-land-app/src/App.jsx:20-23 | NaN and 0 give "0:00"; 125 gives "2:05" |
| Catalog.TrackIds | music-land-app/src/App.jsx:160 | The id set holds exactly the trackIds of the list |
| Catalog.FindNovel | music-land-app/src/App.jsx:161 | `find` returns the first result whose id is not in the set, and returns nothing exactly when no result has a new id |
| Catalog.AppendNovel | music-land-app/src/App.jsx:160-165 | Appending a track with a new id keeps ids pairwise distinct and adds exactly that id |
| Player.CurrentSong | music-land-app/src/App.jsx:128 | A current song exists exactly when the index is inside the list; under the invariant, exactly when the list is non-empty |
| Player.Search | music-land-app/src/App.jsx:130-143 | A reply replaces the list and selects index 0, paused; a failure empties the list and keeps index and flag; the invariant holds afterwards |
| Player.Startup | music-land-app/src/App.jsx:145-147 | The first 'lofi' search yields a valid state at index 0, paused, with volume 0.75, whose list is the reply's results (empty on failure) |
| Player.NextQuery | music-land-app/src/App.jsx:156-158 | Next asks the catalog only at the last index, and asks for the current track's artist |
| Player.Next | music-land-app/src/App.jsx:149-175 | Empty list: unchanged. Before the end: index+1, same list. At the end with a new track: the old list is a prefix, length grows by one, the first novel result is appended and selected. At the end otherwise: wrap to 0. Always playing. Keeps the invariant and distinct ids |
| Player.Prev | music-land-app/src/App.jsx:202-207 | Empty list: unchanged. Otherwise: same list, playing, index i-1 for 0 < i < n, the last index for i = 0, and (i-1) mod n for an index past the end; always in range |
| Player.PlayPause | music-land-app/src/App.jsx:200 | The flag flips exactly when a current song exists; nothing else changes |
| Player.SetVolume | music-land-app/src/App.jsx:213 | The volume becomes the given value and nothing else changes |
| PlayerRuns.RunKeepsValid | music-land-app/src/App.jsx:117-118 | From a valid state, every run of events keeps the index inside the list or the list empty |
| PlayerRuns.RunKeepsDistinct | music-land-app/src/App.jsx:160-165 | If every search reply has distinct ids, so does the list after any run |
| PlayerRuns.RunKeepsVolume | music-land-app/src/App.jsx:213 | The volume stays in [0, 1] along a run whose slider values lie in [0, 1] |
| PlayerRuns.RunWithoutSearchExtends | music-land-app/src/App.jsx:149-175 | With no search in between, the old list stays a prefix of the new one |
| PlayerRuns.NextThenPrev | music-land-app/src/App.jsx:149-207 | Next then Previous returns to the original index, whatever the catalog replies, and keeps the old list as a prefix |
| PlayerRuns.PrevThenNext | music-land-app/src/App.jsx:149-207 | Previous then Next returns to the original state, now playing, unless Previous wrapped from index 0 to the last track and the reply offers a new track |
| PlayerRuns.NextWraps | music-land-app/src/App.jsx:150-173 | With nothing new on offer, Next moves the index to (i+1) mod n and plays |
| PlayerRuns.NextCycles | music-land-app/src/App.jsx:149-175 | With nothing new on offer, k Nexts move the index to (i+k) mod n over an unchanged list |
| PlayerRuns.SearchThenCycle | music-land-app/src/App.jsx:130-175 | After a search returns n tracks: index 0, paused; n Nexts with nothing new: back at 0, playing; Play/Pause then flips the flag and a second press restores the state |
| PlayerRuns.PlayPauseTwice | music-land-app/src/App.jsx:200 | Play/Pause twice changes nothing |
| PlayerRuns.FailedSearchIsInert | music-land-app/src/App.jsx:138-141 | After a failed search there is no current song, and Play/Pause, Next and Previous leave the state alone |

## Left out

- Rendering: the JSX markup, the `Icon` SVG table, `LyricsModal` and the `ProgressBar` markup. None of them holds state logic.
- Network I/O: the axios calls, the catalog and lyrics URLs, and `encodeURIComponent`. Only the settled reply is modelled, as a parameter.
- The audio-element effect (lines 177-198): listeners, `play()`/`pause()`, and the suppression of `AbortError`. These are browser side effects. Only its result is kept: a finished track runs the same step as Next (`TrackEnded`).
- `handleSeek` (209-211): it writes only to the audio element, never to the player state.
- Lyrics fetching (215-229) and the artwork `100x100` to `600x600` replacement (238): I/O and display only.
- The `isLoading` flag: it is true only while a search is in flight, and every step is modelled after its reply has settled.
- `SearchBar` (28-62): the 300 ms debounce and the suggestion fetching. This is timing and concurrency, including the unguarded race in which the last response wins.
- Player.Next: the step is atomic. In the source, line 163 appends to `prevSongs` while line 164 uses the `songs` captured when the handler started. A search that settles during the `await` could therefore leave the index pointing into a different list. The model does not interleave handlers.
- PlayerRuns.RunKeepsValid: holds only when handlers do not overlap. In the source, a Next waiting at the last index of an n-track list while a search settles with m < n results appends to the new list (line 163) and then sets the index to the captured n (line 164), which lies past the end of the (m+1)-track list.
- PlayerRuns.RunKeepsDistinct: holds only when handlers do not overlap. In the schedule above, the novelty check (lines 160-161) ran against the old list, so the appended id may already be among the new results. Likewise two Next runs (a press and an `ended` event, or two presses) waiting at the last index both build the id set from the same captured `songs` and both append the same novel track at line 163.
- Clock.FormatTime: seconds are whole and non-negative. Fractional values reach the same label after flooring. Negative values and `Infinity` (which would print `Infinity:NaN`) are not modelled. Seconds at or above 2^53 are not modelled either: there the float division `seconds / 60` can round the minutes up by one, and from 1e21 minutes on they print in exponent notation.
- Decimal.Show: JavaScript prints a number as positional digits only below 1e21 (from there on it writes `1e+21` and the like); Show prints positional digits for every natural.
- Player.SetVolume: the volume is an exact real. `parseFloat` of the slider text and floating-point rounding are not modelled.
- The progress percentage and the seek position arithmetic (82, 84-91): floating point.
