/** The session's state as a value, and the rules every operation on it keeps:
    the bookkeeping behind `useLyricsGame`, without the mutable closure. */
module Sessions {
  import opened Optional
  import opened Songs
  import opened Shuffling
  import opened Choices
  import opened Questions

  /** `indexOf`: the first position holding `song`. */
  function IndexOf(pool: seq<Song>, song: Song): (k: nat)
    requires song in pool
    ensures k < |pool| && pool[k] == song
    ensures forall j :: 0 <= j < k ==> pool[j] != song
  {
    if pool[0] == song then 0 else 1 + IndexOf(pool[1..], song)
  }

  /** How many questions the first `round` rounds ask with `n` per round,
      `n * round`, built up one round at a time. */
  function Quota(n: nat, round: nat): nat {
    if round == 0 then 0 else Quota(n, round - 1) + n
  }

  /** The quota is the product the game computes. */
  lemma {:induction false} QuotaIsProduct(n: nat, round: nat)
    ensures Quota(n, round) == n * round
  {
    if round > 0 {
      QuotaIsProduct(n, round - 1);
      assert n * round == n * (round - 1) + n;
    }
  }

  /** The lyrics stored for `song`, or "" when none are stored (`get(song) || ''`). */
  function StoredLyrics(store: map<Song, string>, song: Song): (r: string)
    ensures song in store ==> r == store[song]
    ensures r == "" <==> song !in store || store[song] == ""
  {
    if song in store then store[song] else ""
  }

  /** The readiness check: each of the first `n` songs of the pool has
      non-empty stored lyrics (true of an empty pool). */
  predicate HasEnoughSongs(pool: seq<Song>, store: map<Song, string>, n: nat) {
    forall i :: 0 <= i < |pool| && i < n ==> pool[i] in store && |store[pool[i]]| > 0
  }

  /** The readiness check in terms of what `setNextQuestion` reads: every pool
      position below `n` would get non-empty lyrics. Round 1 asks positions 1 to
      `n`, so position `n` is not covered. */
  lemma ReadinessCoversPositions(pool: seq<Song>, store: map<Song, string>, n: nat)
    ensures HasEnoughSongs(pool, store, n) <==>
      forall i :: 0 <= i < |pool| && i < n ==> StoredLyrics(store, pool[i]) != ""
  {
  }

  /** Storing lyrics for a further song keeps a ready pool ready. */
  lemma ReadinessKeptByStoring(pool: seq<Song>, store: map<Song, string>, n: nat, song: Song, lyrics: string)
    requires HasEnoughSongs(pool, store, n) && song !in store
    ensures HasEnoughSongs(pool, store[song := lyrics], n)
  {
  }

  /** A value copy of the session's fields, for stating what an operation did. */
  datatype Session = Session(
    pool: seq<Song>,
    lyricsStore: map<Song, string>,
    lyricsAvailable: nat,
    questionIndex: nat,
    round: nat,
    score: Option<nat>,
    answersLocked: bool,
    replayPossible: bool,
    current: Question)

  /** `t` is what `setNextQuestion` makes of `s` with `n` questions per round:
      answers unlocked; past the pool or the round's quota the question text is
      cleared, the index stays and replay eligibility is recomputed; otherwise the
      index moves on by one and the question is built for the song there. */
  ghost predicate Advanced(n: nat, s: Session, t: Session, draws: Draws) {
    var next := s.questionIndex + 1;
    && !t.answersLocked
    && t.pool == s.pool
    && t.lyricsStore == s.lyricsStore
    && t.lyricsAvailable == s.lyricsAvailable
    && t.round == s.round
    && t.score == s.score
    && if next >= |s.pool| || next > Quota(n, s.round) then
         && t.questionIndex == s.questionIndex
         && t.current == s.current.(snippet := None)
         && t.replayPossible == (Quota(n, s.round + 1) <= s.lyricsAvailable)
       else
         && t.questionIndex == next
         && t.replayPossible == s.replayPossible
         && IsPreparedFrom(t.current, StoredLyrics(s.lyricsStore, s.pool[next]), s.pool[next], s.pool, draws)
  }

  /** The session right after one lyrics fetch settles, before the readiness check:
      no lyrics drops the song from the pool, lyrics are stored and counted. */
  ghost function Resolved(s: Session, song: Song, lyrics: Option<string>): Session
    requires song in s.pool
  {
    match lyrics
    case None => s.(pool := RemoveAt(s.pool, IndexOf(s.pool, song)))
    case Some(text) => s.(lyricsStore := s.lyricsStore[song := text], lyricsAvailable := s.lyricsAvailable + 1)
  }

  /** The session invariant: at least one round, the index within the quota
      asked so far, a pool without repeats, and every pool song either awaiting
      its fetch or stored, never both; `lyricsAvailable` counts the stored songs. */
  ghost predicate Consistent(n: nat, s: Session, pending: set<Song>) {
    && s.round >= 1
    && s.questionIndex <= Quota(n, s.round)
    && Distinct(s.pool)
    && pending !! s.lyricsStore.Keys
    && (forall x :: x in s.pool ==> x in pending || x in s.lyricsStore)
    && (forall x :: x in pending ==> x in s.pool)
    && (forall x :: x in s.lyricsStore ==> x in s.pool)
    && s.lyricsAvailable == |s.lyricsStore.Keys|
  }

  /** Starting the game on a fresh session keeps the invariant, with every
      shuffled song awaiting its lyrics. */
  lemma StartedConsistent(n: nat, s: Session, songs: seq<Song>, picks: seq<nat>)
    requires Consistent(n, s, {}) && s.pool == [] && Distinct(songs)
    ensures var pool := Shuffle(songs, picks);
      && Consistent(n, s.(pool := pool), Elems(pool))
      && Elems(pool) == Elems(songs)
  {
    var pool := Shuffle(songs, picks);
    assert s.lyricsStore.Keys == {};
    ShufflePreservesDistinct(songs, picks);
    ShuffleKeepsElems(songs, picks);
  }

  /** `setNextQuestion` past the pool or the round's quota keeps the invariant. */
  lemma ExhaustedAdvance(n: nat, s: Session, t: Session, draws: Draws, pending: set<Song>)
    requires Consistent(n, s, pending)
    requires s.questionIndex + 1 >= |s.pool| || s.questionIndex + 1 > Quota(n, s.round)
    requires t == s.(answersLocked := false, current := s.current.(snippet := None),
                     replayPossible := Quota(n, s.round + 1) <= s.lyricsAvailable)
    ensures Advanced(n, s, t, draws) && Consistent(n, t, pending)
  {
  }

  /** `setNextQuestion` moving on to the next song keeps the invariant, and the
      question it shows has `min(4, |pool|)` buttons. */
  lemma PreparedAdvance(n: nat, s: Session, t: Session, q: Question, lyrics: string, song: Song, draws: Draws, pending: set<Song>)
    requires Consistent(n, s, pending)
    requires s.questionIndex + 1 < |s.pool| && s.questionIndex + 1 <= Quota(n, s.round)
    requires song == s.pool[s.questionIndex + 1] && lyrics == StoredLyrics(s.lyricsStore, song)
    requires IsPreparedFrom(q, lyrics, song, s.pool, draws)
    requires t == s.(answersLocked := false, questionIndex := s.questionIndex + 1, current := q)
    ensures Advanced(n, s, t, draws) && Consistent(n, t, pending)
    ensures q.choices.Some? && |q.choices.value| == Min(MaxChoices, |s.pool|)
  {
    PreparedChoiceCount(q, lyrics, song, s.pool, draws);
  }

  /** Settling one awaited fetch keeps the invariant, with that fetch no longer
      awaited. */
  lemma ResolvedConsistent(n: nat, s: Session, pending: set<Song>, song: Song, lyrics: Option<string>)
    requires Consistent(n, s, pending) && song in pending
    ensures song in s.pool && Consistent(n, Resolved(s, song, lyrics), pending - {song})
  {
    if lyrics.None? {
      DroppedConsistent(n, s, pending, song);
    } else {
      StoredConsistent(n, s, pending, song, lyrics.value);
    }
  }

  lemma DroppedConsistent(n: nat, s: Session, pending: set<Song>, song: Song)
    requires Consistent(n, s, pending) && song in pending
    ensures song in s.pool && Consistent(n, Resolved(s, song, None), pending - {song})
  {
    var k := IndexOf(s.pool, song);
    DistinctRemoveAt(s.pool, k);
    var t := Resolved(s, song, None);
    assert t.pool == RemoveAt(s.pool, k);
    assert Elems(t.pool) == Elems(s.pool) - {song};
    forall x ensures x in t.pool <==> x in s.pool && x != song {
      assert x in t.pool <==> x in Elems(t.pool);
      assert x in s.pool <==> x in Elems(s.pool);
    }
  }

  lemma StoredConsistent(n: nat, s: Session, pending: set<Song>, song: Song, text: string)
    requires Consistent(n, s, pending) && song in pending
    ensures song in s.pool && Consistent(n, Resolved(s, song, Some(text)), pending - {song})
  {
    var t := Resolved(s, song, Some(text));
    assert t.lyricsStore.Keys == s.lyricsStore.Keys + {song};
    assert song !in s.lyricsStore.Keys;
  }
}
