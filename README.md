# Lyriquiz game engine in Dafny

A verified model of the game engine of lyriquiz-vue (`src/composables/useLyricsGame.ts`).
The engine turns a pool of songs and the lyrics fetched for them into multiple-choice
"which song is this lyric from" questions and runs the rounds. The model has three parts.

- **Question building** (`prepareQuestion`):
  - `Snippet` picks the lyric excerpt:
    - collects the line-break offsets, or `[0]` when there are none;
    - makes up to five random tries, each ending just past one line break and starting
      at the line break three entries earlier, or at 0;
    - keeps the first try that is longer than 20 characters and does not contain the
      title (compared in lower case), or else the last try;
    - collapses runs of line breaks and drops one leading and one trailing line break.
  - `Choices` builds the answer buttons: the correct label `name - artist` first, then
    labels of other pool positions in shuffled order until there are four, then a
    shuffle of the whole list.
  - `Questions` puts the two together.
- **Session** (`Game.LyricsGame`): a class whose fields are the closure variables of
  `useLyricsGame`. These are:
  - the song pool and the lyrics map;
  - `lyricsAvailable` (`numberOfLyricsAvailable`), `questionIndex`, `round`;
  - `score` (undefined is `None`), `answersLocked`, `replayPossible`;
  - the current question.

  Its methods are `SetNextQuestion`, `CheckAnswer`, `Replay` and `StartGame`.
- **Lyrics intake**: `OnLyricsResolved` is the completion handler of one lyrics fetch.
  Fetches settle in any order, and each settles once: a ghost set `pending` tracks the
  fetches still open. A missing result drops the song from the pool; lyrics are stored
  and counted. While no question is shown, the handler starts the questions once the
  first `numberOfQuestions` songs of the pool all have non-empty lyrics.

Randomness is explicit input. `Math.floor(Math.random() * n)` is a draw `pick % n`
taken from a stream of naturals. A draw past the end of the stream reads as 0, so
every stream is allowed. `randomizeArray`, a sort with a random comparator, is
`Shuffling.Shuffle`: a selection shuffle driven by a stream of picks. It is proved to
return a permutation of its input (`Shuffle`) and to be able to return every
permutation (`ShuffleReachesEveryPermutation`). So each property below holds for every
random outcome.

Songs are values with an `id` that stands for object identity. The source compares
songs by reference, so two tracks with equal fields are still different songs; in the
model they differ in `id`.

Behaviour kept exactly as the code has it:
- `questionIndex` starts at 0 and the next question reads `pool[questionIndex + 1]`,
  so `pool[0]` is never asked (`SetNextQuestion` ensures the asked index is at least 1).
- The index is never reset between rounds. A round ends when `index + 1` exceeds
  `numberOfQuestions * round`, written `Quota(numberOfQuestions, round)` and proved
  equal to that product.
- An excerpt starts at the line break itself, and `slice` clamps its end to the
  length. So lyrics without line breaks give at most their first character.
- The readiness check runs whenever the question text is undefined. This includes the
  time after a round has ended.
- The readiness check looks at the first `numberOfQuestions` songs of the pool, but
  round 1 asks positions 1 to `numberOfQuestions`. So the last question of round 1 can
  be built from lyrics that have not arrived, which gives `""`. The model keeps this.

Behaviour worth knowing:
- A settled fetch can call `setNextQuestion` again after a round has ended, so the
  start trigger is not one-shot.
- The excerpt can be empty for non-empty lyrics, for example lyrics `"\n"`. `TidyEmpty`
  states exactly when this happens.
- A fetch that throws is only logged by `.catch`. It leaves the song in the pool
  without lyrics.
- `checkAnswer` does not itself refuse answers while they are locked.
- The correct label is guaranteed to appear once among the buttons when no other pool
  song has the same label (`ChoiceListFacts`). Otherwise it repeats if such a song is
  picked.

## Model

| member | source | states |
|---|---|---|
| `Text.Slice` | src/composables/useLyricsGame.ts:77 | `slice` with clamping: a range inside the string is that substring; an end past the length gives the rest of the string from the start; a start at or past the length, or an end at or before the start, gives "" |
| `Text.ContainsAt` | src/composables/useLyricsGame.ts:79 | `includes` holds exactly when the searched text occurs at some position |
| `Text.ContainsDoubleBreak` | src/composables/useLyricsGame.ts:84 | `includes("\n\n")` holds exactly when two line breaks are adjacent |
| `Shuffling.RemoveAt` | src/composables/useLyricsGame.ts:194 | `splice(k, 1)`: one element shorter, the others keep their relative order (element i comes from i or i+1), and the multiset loses exactly that element |
| `Shuffling.Shuffle` | src/composables/useLyricsGame.ts:39-41 | `randomizeArray` returns a permutation of its input (same multiset, same length) for every random outcome |
| `Shuffling.ShuffleReachesEveryPermutation` | src/composables/useLyricsGame.ts:39-41 | every permutation of the input is the result for some random outcome |
| `Shuffling.ShufflePreservesDistinct` | src/composables/useLyricsGame.ts:39-41 | shuffling a list without repeats gives a list without repeats |
| `Shuffling.ShuffleKeepsElems` | src/composables/useLyricsGame.ts:184 | the shuffled pool holds exactly the songs it was given |
| `Shuffling.ShuffledRangeIsIndexPermutation` | src/composables/useLyricsGame.ts:102-106 | the shuffled position array lists every pool position exactly once |
| `Songs.Label` | src/composables/useLyricsGame.ts:97 | an answer label is the title, then `" - "`, then the first artist |
| `Snippet.BreaksBeforeSpec` | src/composables/useLyricsGame.ts:60-65 | the collected offsets are strictly increasing positions of line breaks, and every line break appears among them |
| `Snippet.Offsets` | src/composables/useLyricsGame.ts:60-68 | the offset list is never empty, so the random index into it is always defined |
| `Snippet.OffsetsSpec` | src/composables/useLyricsGame.ts:60-68 | the offset list is increasing; with line breaks it is exactly their positions, and without any it is `[0]` |
| `Snippet.LineBreakOffsets` | src/composables/useLyricsGame.ts:60-68 | the scanning loop with its `[0]` fallback computes `Offsets` |
| `Snippet.CandidateIsSlice` | src/composables/useLyricsGame.ts:73-77 | each try (`Candidate`) is a contiguous slice `lyrics[a..b]` that starts at 0 or at a line break; it ends just past a line break, or at most after the first character when there is none; when at least four line breaks lie before its end, it starts at the line break three entries before its last one, so it holds exactly four line breaks; with fewer it starts at 0; it is non-empty for non-empty lyrics |
| `Snippet.WindowStartUnique` | src/composables/useLyricsGame.ts:73-77 | the end of a try fixes its start: two tries ending at the same position are the same slice |
| `Snippet.AcceptableMeaning` | src/composables/useLyricsGame.ts:78-79 | a try is accepted exactly when it is longer than 20 characters and the lower-cased title occurs at no position of the lower-cased try |
| `Snippet.KeptRule` | src/composables/useLyricsGame.ts:72-82 | the kept excerpt is the first of at most five tries that is longer than 20 characters and does not contain the lower-cased title, or the last try when none qualifies |
| `Snippet.PickSnippet` | src/composables/useLyricsGame.ts:70-82 | the retry loop with its early `break` returns the kept excerpt |
| `Snippet.Collapse` | src/composables/useLyricsGame.ts:85 | after the `\n\n+` replacement no two line breaks are adjacent; only line breaks are removed; the first character is kept; text without doubled breaks is unchanged |
| `Snippet.CollapseShape` | src/composables/useLyricsGame.ts:85 | the replacement gives a line break if the text starts with one, then the text's non-empty lines joined by single line breaks, then a line break if the text ends with one after some non-empty line; so each run of line breaks leaves exactly one |
| `Snippet.Tidy` | src/composables/useLyricsGame.ts:84-92 | the post-processed excerpt has no doubled line break and does not start or end with one, and its other characters are those of the kept excerpt in order |
| `Snippet.TidyLines` | src/composables/useLyricsGame.ts:84-92 | the shown excerpt is exactly the kept try's non-empty lines joined by single line breaks |
| `Snippet.TidyIdempotent` | src/composables/useLyricsGame.ts:84-92 | post-processing an already processed excerpt changes nothing |
| `Snippet.TidyEmpty` | src/composables/useLyricsGame.ts:84-92 | the shown excerpt is empty exactly when the kept excerpt consists only of line breaks |
| `Choices.RankChoices` | src/composables/useLyricsGame.ts:108-117 | the list before the final shuffle is the correct label, then labels of distinct pool positions holding other songs, with length `min(4, 1 + #other positions)` |
| `Choices.BuildChoices` | src/composables/useLyricsGame.ts:102-118 | the final list is a permutation of such a ranked list |
| `Choices.ChoiceListFacts` | src/composables/useLyricsGame.ts:102-118 | the buttons hold the correct label, number `min(4, 1 + #other positions)` and at most 4, and each names the asked song or another pool song; the correct label appears once when no other pool song shares it |
| `Choices.OthersCount` | src/composables/useLyricsGame.ts:109-113 | in a pool without repeats, the asked song leaves one position fewer than the pool size as other positions, so a pool of four or more songs gives four buttons |
| `Questions.PrepareQuestion` | src/composables/useLyricsGame.ts:59-123 | the question keeps the full lyrics and the song; its correct answer is `name + " - " + artist`; its excerpt is the tidied kept try; its buttons form an answer list over the pool |
| `Questions.PreparedQuestionFacts` | src/composables/useLyricsGame.ts:84-118 | a prepared question's excerpt has no doubled, leading or trailing line break, and its buttons contain the correct answer and number `min(4, 1 + #other positions)` |
| `Questions.PreparedChoiceCount` | src/composables/useLyricsGame.ts:102-118 | in a pool without repeats, a question for a pool song has `min(4, pool size)` buttons |
| `Sessions.IndexOf` | src/composables/useLyricsGame.ts:194 | `indexOf` finds the first position holding the song |
| `Sessions.StoredLyrics` | src/composables/useLyricsGame.ts:144 | the fallback to "" after `get(song)`: the stored lyrics when there are any, and "" exactly when none or empty ones are stored |
| `Sessions.ReadinessCoversPositions` | src/composables/useLyricsGame.ts:203-208 | the readiness check holds exactly when every pool position below `n` has non-empty stored lyrics, read with the same fallback to "" that `setNextQuestion` uses |
| `Sessions.ReadinessKeptByStoring` | src/composables/useLyricsGame.ts:195-208 | storing lyrics for a further song keeps a ready pool ready |
| `Sessions.QuotaIsProduct` | src/composables/useLyricsGame.ts:135-138 | the round quota built one round at a time equals `numberOfQuestions * round` |
| `Sessions.ExhaustedAdvance` | src/composables/useLyricsGame.ts:128-139 | past the pool or the round quota, unlocking, clearing the question text and recomputing replay eligibility is the `setNextQuestion` step, and it keeps the session invariant |
| `Sessions.PreparedAdvance` | src/composables/useLyricsGame.ts:128-145 | moving to the next pool position and showing the question built for its song is the `setNextQuestion` step; it keeps the session invariant, and the question has `min(4, pool size)` buttons |
| `Sessions.ResolvedConsistent` | src/composables/useLyricsGame.ts:191-199 | settling a fetch that was awaited keeps the session invariant (no repeats in the pool, every pool song awaited or stored but not both, the count equal to the number of stored songs), with that fetch no longer awaited |
| `Sessions.StartedConsistent` | src/composables/useLyricsGame.ts:183-191 | a session that has not started, given a shuffled copy of repeat-free songs as its pool with every song awaited, keeps the session invariant, and the pool holds exactly the given songs |
| `Game.LyricsGame.constructor` | src/composables/useLyricsGame.ts:18-34 | the initial state: empty pool and store, index 0, round 1, undefined score, unlocked, no replay, an empty question |
| `Game.LyricsGame.StartGame` | src/composables/useLyricsGame.ts:183-191 | the pool becomes a shuffled copy of the songs, all awaiting lyrics; nothing else changes |
| `Game.LyricsGame.SetNextQuestion` | src/composables/useLyricsGame.ts:128-145 | answers are unlocked. Past the pool or the round quota: the question text is cleared, the index stays, and replay becomes `(round+1)*n <= lyricsAvailable`. Otherwise: the index rises by exactly 1, to at least 1, below the pool size and at most `n*round`, the question is built from the stored lyrics or "", and it has `min(4, pool size)` buttons. The index never decreases |
| `Game.LyricsGame.CheckAnswer` | src/composables/useLyricsGame.ts:150-159 | answers lock; an undefined score becomes 0, and it rises by 1 exactly when the chosen label equals the correct answer; nothing else changes |
| `Game.LyricsGame.Replay` | src/composables/useLyricsGame.ts:224-232 | without replay eligibility: a restart signal, and nothing changes. Otherwise: the score becomes undefined, the round rises by 1, and the next question is set |
| `Game.LyricsGame.OnLyricsResolved` | src/composables/useLyricsGame.ts:191-214 | no lyrics: the song leaves the pool, the rest keep their order, and the count stays. Lyrics: they are stored and the count rises by 1. The next question is set exactly when no question text is shown and the first `n` pool songs all have non-empty lyrics; otherwise nothing else changes |

## Left out

- Fetching lyrics (`fetchLyrics`, the `fetch`/`.then`/`.catch` plumbing) is network I/O. The model takes each settled result as an `Option<string>` argument, and a fetch that throws has no effect on the state.
- The concurrency of the fetches: each settlement is one sequential call, in any order, once per song.
- The 800 ms `setTimeout` between an answer and the next question: the advance is a separate `SetNextQuestion` call.
- DOM and jQuery feedback colouring, button look-ups and `console.log` are presentation side effects. `location.reload()` is the `true` result of `Replay`.
- Vue `ref` wrappers: they are plain fields.
- `toLowerCase` is modelled for ASCII letters only. Unicode case mapping is not modelled.
- String lengths count characters (Unicode scalar values), while JavaScript's `length` counts UTF-16 code units. So the 20-character threshold of `Acceptable` differs from the source for excerpts with characters outside the Basic Multilingual Plane, such as emoji. Emptiness tests agree. For lyrics without line breaks the try is `slice(0, 1)`, one UTF-16 code unit, which for lyrics starting with such a character is half a surrogate pair; the model gives the whole character.
- `Math.random` and the comparator sort: they are the pick streams described above. The particular permutation V8's sort would produce for a given comparator is not modelled; any permutation is possible.
- `randomizeArray` sorts its argument in place and returns the same array, so the caller's `songs` array is reordered too. The model returns a new sequence and does not model that aliasing.
- `StartGame`: requires a session that has not started (empty pool, no pending fetches), as after a page load; starting twice in one session is not modelled.
- `src/composables/useSpotifyAuth.ts` (PKCE login, tokens, `window.location`) is not part of this model.
