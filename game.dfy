/** The game session: the closure state of `useLyricsGame` and the operations
    that change it. */
module Game {
  import opened Optional
  import opened Songs
  import opened Shuffling
  import opened Choices
  import opened Questions
  import opened Sessions

  /** The default number of questions per round. */
  const DefaultNumberOfQuestions: nat := 5

  class LyricsGame {
    const numberOfQuestions: nat
    var pool: seq<Song>
    var lyricsStore: map<Song, string>
    var lyricsAvailable: nat
    var questionIndex: nat
    var round: nat
    var score: Option<nat>
    var answersLocked: bool
    var replayPossible: bool
    var current: Question
    /** The songs whose lyrics fetch has not settled yet. */
    ghost var pending: set<Song>

    ghost predicate Valid()
      reads this
    {
      Consistent(numberOfQuestions, Snapshot(), pending)
    }

    ghost function Snapshot(): Session
      reads this
    {
      Session(pool, lyricsStore, lyricsAvailable, questionIndex, round, score, answersLocked, replayPossible, current)
    }

    /** `useLyricsGame(numberOfQuestions = 5)`. */
    constructor (numberOfQuestions: nat := DefaultNumberOfQuestions)
      ensures Valid() && this.numberOfQuestions == numberOfQuestions
      ensures pool == [] && lyricsStore == map[] && pending == {}
      ensures lyricsAvailable == 0 && questionIndex == 0 && round == 1 && score == None
      ensures !answersLocked && !replayPossible
      ensures current.lyrics == "" && current.snippet == None && current.correctAnswer == None && current.choices == None
    {
      this.numberOfQuestions := numberOfQuestions;
      pool := [];
      lyricsStore := map[];
      lyricsAvailable := 0;
      questionIndex := 0;
      round := 1;
      score := None;
      answersLocked := false;
      replayPossible := false;
      current := Question("", None, None, None, Song(0, None, "", ""));
      pending := {};
    }

    /** `startGame(songs)` up to issuing the fetches: the pool becomes a shuffled
        copy of the songs, each of them awaiting its lyrics. */
    method StartGame(songs: seq<Song>, picks: seq<nat>)
      requires Valid() && pool == [] && pending == {}
      requires Distinct(songs)
      modifies this
      ensures Valid()
      ensures pool == Shuffle(songs, picks) && multiset(pool) == multiset(songs)
      ensures pending == Elems(songs)
      ensures lyricsStore == old(lyricsStore) && lyricsAvailable == old(lyricsAvailable)
      ensures questionIndex == old(questionIndex) && round == old(round) && score == old(score)
      ensures answersLocked == old(answersLocked) && replayPossible == old(replayPossible)
      ensures current == old(current)
    {
      ghost var before := Snapshot();
      var shuffled := Shuffle(songs, picks);
      StartedConsistent(numberOfQuestions, before, songs, picks);
      pool := shuffled;
      pending := Elems(shuffled);
      assert Snapshot() == before.(pool := shuffled);
    }

    /** `setNextQuestion`. */
    method SetNextQuestion(draws: Draws)
      requires Valid()
      modifies this
      ensures Valid() && pending == old(pending)
      ensures Advanced(numberOfQuestions, old(Snapshot()), Snapshot(), draws)
      ensures questionIndex >= old(questionIndex)
      ensures questionIndex != old(questionIndex) ==>
        && 1 <= questionIndex < |pool| && questionIndex <= Quota(numberOfQuestions, round)
        && current.choices.Some? && |current.choices.value| == Min(MaxChoices, |pool|)
    {
      var next := questionIndex + 1;
      if next >= |pool| || next > Quota(numberOfQuestions, round) {
        answersLocked := false;
        current := current.(snippet := None);
        replayPossible := Quota(numberOfQuestions, round + 1) <= lyricsAvailable;
        ExhaustedAdvance(numberOfQuestions, old(Snapshot()), Snapshot(), draws, pending);
        return;
      }
      ghost var before := Snapshot();
      var songs := pool;
      var song := songs[next];
      var lyrics := StoredLyrics(lyricsStore, song);
      var q := PrepareQuestion(lyrics, song, songs, draws);
      answersLocked, questionIndex, current := false, next, q;
      PreparedAdvance(numberOfQuestions, before, Snapshot(), q, lyrics, song, draws, pending);
    }

    /** `checkAnswer`, given the text of the clicked button. */
    method CheckAnswer(chosen: string)
      requires Valid()
      modifies this
      ensures Valid() && pending == old(pending)
      ensures answersLocked
      ensures score == Some(old(score).GetOr(0) + if old(current).correctAnswer == Some(chosen) then 1 else 0)
      ensures pool == old(pool) && lyricsStore == old(lyricsStore) && lyricsAvailable == old(lyricsAvailable)
      ensures questionIndex == old(questionIndex) && round == old(round)
      ensures replayPossible == old(replayPossible) && current == old(current)
    {
      answersLocked := true;
      if score.None? {
        score := Some(0);
      }
      if current.correctAnswer == Some(chosen) {
        score := Some(score.value + 1);
      }
    }

    /** `replay`. Returns true when the page must be reloaded (a full restart),
        in which case nothing changes. */
    method Replay(draws: Draws) returns (restart: bool)
      requires Valid()
      modifies this
      ensures Valid() && pending == old(pending)
      ensures restart == !old(replayPossible)
      ensures restart ==> Snapshot() == old(Snapshot())
      ensures !restart ==>
        Advanced(numberOfQuestions, old(Snapshot()).(score := None, round := old(round) + 1), Snapshot(), draws)
    {
      if !replayPossible {
        return true;
      }
      score := None;
      round := round + 1;
      SetNextQuestion(draws);
      restart := false;
    }

    /** The completion handler of one lyrics fetch in `startGame`, for a song whose
        fetch had not settled yet: store or drop the song, then, while no question
        is shown, start the questions once the first songs of the pool are ready. */
    method OnLyricsResolved(song: Song, lyrics: Option<string>, draws: Draws)
      requires Valid() && song in pending
      modifies this
      ensures Valid() && pending == old(pending) - {song}
      ensures song in old(pool)
      ensures var mid := Resolved(old(Snapshot()), song, lyrics);
        if old(current).snippet.None? && HasEnoughSongs(mid.pool, mid.lyricsStore, numberOfQuestions)
        then Advanced(numberOfQuestions, mid, Snapshot(), draws)
        else Snapshot() == mid
    {
      ResolvedConsistent(numberOfQuestions, Snapshot(), pending, song, lyrics);
      if lyrics.None? {
        var k := IndexOf(pool, song);
        pool := pool[..k] + pool[k + 1..];
      } else {
        lyricsStore := lyricsStore[song := lyrics.value];
        lyricsAvailable := lyricsAvailable + 1;
      }
      pending := pending - {song};
      assert Snapshot() == Resolved(old(Snapshot()), song, lyrics);
      if current.snippet.None? {
        if HasEnoughSongs(pool, lyricsStore, numberOfQuestions) {
          SetNextQuestion(draws);
        }
      }
    }
  }
}
