/** `prepareQuestion`: excerpt plus answer buttons for one song. */
module Questions {
  import opened Optional
  import opened Text
  import opened Songs
  import opened Snippet
  import opened Shuffling
  import opened Choices

  /** The question record. `snippet` is the source's `question` field and
      `choices` its `wrongAnswers` field (which also holds the correct label). */
  datatype Question = Question(
    lyrics: string,
    snippet: Option<string>,
    correctAnswer: Option<string>,
    choices: Option<seq<string>>,
    song: Song)

  /** The random outcomes one question consumes: one draw per excerpt try, the
      shuffle of the pool positions and the shuffle of the finished answer list. */
  datatype Draws = Draws(offsetPicks: seq<nat>, orderPicks: seq<nat>, choicePicks: seq<nat>)

  /** `q` is a question built from `lyrics` for `song` over `pool` with `draws`:
      it keeps the full lyrics, the excerpt is the tidied kept try, the correct
      answer is the song's label and the buttons form an answer list. */
  ghost predicate IsPreparedFrom(q: Question, lyrics: string, song: Song, pool: seq<Song>, draws: Draws) {
    && q.lyrics == lyrics
    && q.song == song
    && q.correctAnswer == Some(Label(song))
    && q.snippet == Some(Tidy(Kept(lyrics, song.name, Offsets(lyrics), draws.offsetPicks)))
    && q.choices.Some?
    && IsChoiceList(q.choices.value, pool, song)
  }

  method PrepareQuestion(lyrics: string, song: Song, pool: seq<Song>, draws: Draws) returns (q: Question)
    ensures IsPreparedFrom(q, lyrics, song, pool, draws)
  {
    var offsets := LineBreakOffsets(lyrics);
    var snippet := PickSnippet(lyrics, song.name, offsets, draws.offsetPicks);
    snippet := Tidy(snippet);
    var choices := BuildChoices(pool, song, draws.orderPicks, draws.choicePicks);
    q := Question(lyrics, Some(snippet), Some(Label(song)), Some(choices), song);
  }

  /** What a prepared question shows: an excerpt with no doubled, leading or
      trailing line break, and buttons that include the correct answer. */
  lemma PreparedQuestionFacts(q: Question, lyrics: string, song: Song, pool: seq<Song>, draws: Draws)
    requires IsPreparedFrom(q, lyrics, song, pool, draws)
    ensures q.snippet.Some? && NoDoubleBreak(q.snippet.value)
    ensures q.snippet.value == [] || (q.snippet.value[0] != LineBreak && q.snippet.value[|q.snippet.value| - 1] != LineBreak)
    ensures q.correctAnswer.Some? && q.choices.Some? && q.correctAnswer.value in q.choices.value
    ensures |q.choices.value| == Min(MaxChoices, 1 + |Others(pool, song)|)
  {
    ChoiceListFacts(q.choices.value, pool, song);
  }

  /** In a pool without repeats, a prepared question for a pool song has
      `min(4, |pool|)` buttons. */
  lemma PreparedChoiceCount(q: Question, lyrics: string, song: Song, pool: seq<Song>, draws: Draws)
    requires IsPreparedFrom(q, lyrics, song, pool, draws)
    requires Distinct(pool) && song in pool
    ensures q.choices.Some? && |q.choices.value| == Min(MaxChoices, |pool|)
  {
    ChoiceListFacts(q.choices.value, pool, song);
    OthersCount(pool, song);
  }
}
