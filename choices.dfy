/** The answer buttons of a question (the second half of `prepareQuestion`). */
module Choices {
  import opened Songs
  import opened Shuffling

  /** A question never offers more buttons than this. */
  const MaxChoices: nat := 4

  function Min(a: nat, b: nat): nat {
    if a <= b then a else b
  }

  /** The pool positions that hold a song other than the asked one. */
  function Others(pool: seq<Song>, song: Song): set<nat> {
    set i: nat | i < |pool| && pool[i] != song
  }

  /** In a pool of distinct songs every position but the asked song's own holds
      another song, so a pool of four or more songs always gives four buttons. */
  lemma OthersCount(pool: seq<Song>, song: Song)
    requires Distinct(pool)
    ensures song in pool ==> |Others(pool, song)| == |pool| - 1
    ensures song !in pool ==> |Others(pool, song)| == |pool|
    ensures song in pool && |pool| >= MaxChoices ==> Min(MaxChoices, 1 + |Others(pool, song)|) == MaxChoices
  {
    var all := Elems<nat>(Range(|pool|));
    DistinctCard<nat>(Range(|pool|));
    forall v: nat | v < |pool| ensures v in all {
      assert Range(|pool|)[v] == v;
    }
    if song in pool {
      var k :| 0 <= k < |pool| && pool[k] == song;
      assert k in all;
      assert Others(pool, song) == all - {k};
      assert |all - {k}| == |all| - 1;
    } else {
      assert Others(pool, song) == all;
    }
    assert |all| == |pool|;
  }

  /** The values popped so far: the suffix of `order` from position `from` on. */
  ghost function Popped(order: seq<nat>, from: nat): set<nat>
    requires from <= |order|
  {
    set m | from <= m < |order| :: order[m]
  }

  /** The answer list before its final shuffle: the correct label, then the
      labels of the distinct pool positions `picked`, all holding other songs,
      as many as fit in four buttons. */
  ghost predicate IsRanking(ranked: seq<string>, picked: seq<nat>, pool: seq<Song>, song: Song) {
    && |ranked| == Min(MaxChoices, 1 + |Others(pool, song)|)
    && |picked| == |ranked| - 1
    && ranked[0] == Label(song)
    && Distinct(picked)
    && (forall k :: 0 <= k < |picked| ==> picked[k] in Others(pool, song) && ranked[k + 1] == Label(pool[picked[k]]))
  }

  /** A shown answer list: some ranking in some order. */
  ghost predicate IsChoiceList(choices: seq<string>, pool: seq<Song>, song: Song) {
    exists ranked, picked :: IsRanking(ranked, picked, pool, song) && multiset(choices) == multiset(ranked)
  }

  lemma DistinctCard<T>(s: seq<T>)
    requires Distinct(s)
    ensures |Elems(s)| == |s|
  {
    if s != [] {
      var t := s[..|s| - 1];
      assert Distinct(t);
      DistinctCard(t);
      assert Elems(s) == Elems(t) + {s[|s| - 1]};
      assert s[|s| - 1] !in t;
    }
  }

  lemma SubsetCard<T>(a: set<T>, b: set<T>)
    requires a <= b
    ensures |a| <= |b|
  {
    assert b == a + (b - a);
  }

  lemma PopStep(order: seq<nat>, from: nat)
    requires Distinct(order) && 0 < from <= |order|
    ensures order[from - 1] !in Popped(order, from)
    ensures Popped(order, from - 1) == Popped(order, from) + {order[from - 1]}
  {
  }

  lemma PoppedAll(order: seq<nat>, n: nat, others: set<nat>)
    requires IsIndexPermutation(order, n)
    requires forall v :: v in others ==> v < n
    ensures others * Popped(order, 0) == others
  {
    forall v | v in others ensures v in Popped(order, 0) {
      assert v in order;
      var m :| 0 <= m < n && order[m] == v;
    }
  }

  lemma PickedCount(picked: seq<nat>, others: set<nat>)
    requires Distinct(picked) && Elems(picked) <= others
    ensures |picked| <= |others|
    ensures Elems(picked) == others ==> |picked| == |others|
  {
    DistinctCard(picked);
    SubsetCard(Elems(picked), others);
  }

  /** A partial answer list: the correct label, then the labels of the distinct
      pool positions `picked`, all holding other songs. */
  ghost predicate PartialRanking(ranked: seq<string>, picked: seq<nat>, pool: seq<Song>, song: Song) {
    && |picked| == |ranked| - 1
    && ranked[0] == Label(song)
    && Distinct(picked)
    && (forall k :: 0 <= k < |picked| ==> picked[k] in Others(pool, song) && ranked[k + 1] == Label(pool[picked[k]]))
  }

  /** One pop of the loop: the position at `from - 1` is added when it holds
      another song, and the picked positions stay the other-song positions
      among those popped. */
  lemma PopKeepsRanking(order: seq<nat>, pool: seq<Song>, song: Song, from: nat,
                        ranked: seq<string>, picked: seq<nat>, ranked': seq<string>, picked': seq<nat>)
    requires Distinct(order) && 0 < from <= |order|
    requires PartialRanking(ranked, picked, pool, song)
    requires Elems(picked) == Popped(order, from) * Others(pool, song)
    requires var idx := order[from - 1];
      if idx < |pool| && pool[idx] != song
      then ranked' == ranked + [Label(pool[idx])] && picked' == picked + [idx]
      else ranked' == ranked && picked' == picked
    ensures PartialRanking(ranked', picked', pool, song)
    ensures Elems(picked') == Popped(order, from - 1) * Others(pool, song)
  {
    var idx, others := order[from - 1], Others(pool, song);
    PopStep(order, from);
    var done := Popped(order, from);
    if idx < |pool| && pool[idx] != song {
      assert idx !in Elems(picked);
      assert idx in others;
      assert Elems(picked') == Elems(picked) + {idx};
      assert (done + {idx}) * others == done * others + {idx};
    } else {
      assert idx !in others;
      assert (done + {idx}) * others == done * others;
    }
  }

  /** The pop loop over the shuffled positions. `order` is the shuffled list of
      pool positions; values are popped from its end. `picked` lists the
      positions whose labels were added, in order. */
  method RankChoices(pool: seq<Song>, song: Song, order: seq<nat>)
    returns (ranked: seq<string>, picked: seq<nat>)
    requires IsIndexPermutation(order, |pool|)
    ensures IsRanking(ranked, picked, pool, song)
  {
    var n := |pool|;
    ghost var others := Others(pool, song);
    ranked := [Label(song)];
    picked := [];
    var indices := order;
    var i := 0;
    while i < n
      invariant 0 <= i <= n
      invariant indices == order[..n - i]
      invariant |ranked| < MaxChoices
      invariant PartialRanking(ranked, picked, pool, song)
      invariant Elems(picked) == Popped(order, n - i) * others
    {
      var idx := indices[|indices| - 1];
      indices := indices[..|indices| - 1];
      assert idx == order[n - i - 1];
      ghost var ranked0, picked0 := ranked, picked;
      if idx < n && pool[idx] != song {
        ranked := ranked + [Label(pool[idx])];
        picked := picked + [idx];
      }
      PopKeepsRanking(order, pool, song, n - i, ranked0, picked0, ranked, picked);
      if |ranked| >= MaxChoices {
        FullRanking(ranked, picked, pool, song);
        return;
      }
      i := i + 1;
    }
    ExhaustedRanking(ranked, picked, pool, song, order);
  }

  /** The loop stops at four labels: there were at least three other positions. */
  lemma FullRanking(ranked: seq<string>, picked: seq<nat>, pool: seq<Song>, song: Song)
    requires PartialRanking(ranked, picked, pool, song) && |ranked| == MaxChoices
    ensures IsRanking(ranked, picked, pool, song)
  {
    assert Elems(picked) <= Others(pool, song);
    PickedCount(picked, Others(pool, song));
  }

  /** The loop popped every position: all other positions were picked. */
  lemma ExhaustedRanking(ranked: seq<string>, picked: seq<nat>, pool: seq<Song>, song: Song, order: seq<nat>)
    requires IsIndexPermutation(order, |pool|)
    requires PartialRanking(ranked, picked, pool, song) && |ranked| < MaxChoices
    requires Elems(picked) == Popped(order, 0) * Others(pool, song)
    ensures IsRanking(ranked, picked, pool, song)
  {
    PoppedAll(order, |pool|, Others(pool, song));
    PickedCount(picked, Others(pool, song));
  }

  /** Building the button texts: shuffle the pool positions, rank, shuffle the
      ranked labels. */
  method BuildChoices(pool: seq<Song>, song: Song, orderPicks: seq<nat>, choicePicks: seq<nat>)
    returns (choices: seq<string>)
    ensures IsChoiceList(choices, pool, song)
  {
    var order := Shuffle(Range(|pool|), orderPicks);
    ShuffledRangeIsIndexPermutation(|pool|, orderPicks);
    var ranked, picked := RankChoices(pool, song, order);
    choices := Shuffle(ranked, choicePicks);
    assert IsRanking(ranked, picked, pool, song) && multiset(choices) == multiset(ranked);
  }

  /** No other pool song shares the asked song's label. */
  predicate UniqueLabel(pool: seq<Song>, song: Song) {
    forall i :: 0 <= i < |pool| && pool[i] != song ==> Label(pool[i]) != Label(song)
  }

  /** What every shown answer list guarantees: the correct label is there, at
      most four buttons (exactly min(4, 1 + number of other pool songs)), every
      button names the asked song or another pool song, and the correct label is
      there once when no other pool song shares it. */
  lemma ChoiceListFacts(choices: seq<string>, pool: seq<Song>, song: Song)
    requires IsChoiceList(choices, pool, song)
    ensures Label(song) in choices
    ensures |choices| == Min(MaxChoices, 1 + |Others(pool, song)|) <= MaxChoices
    ensures forall c :: c in choices ==> c == Label(song) || exists i :: i in Others(pool, song) && c == Label(pool[i])
    ensures UniqueLabel(pool, song) ==> multiset(choices)[Label(song)] == 1
  {
    var ranked, picked :| IsRanking(ranked, picked, pool, song) && multiset(choices) == multiset(ranked);
    assert |choices| == |multiset(choices)| == |multiset(ranked)| == |ranked|;
    assert ranked == [ranked[0]] + ranked[1..];
    assert Label(song) in multiset(ranked);
    forall c | c in choices
      ensures c == Label(song) || exists i :: i in Others(pool, song) && c == Label(pool[i])
    {
      assert c in multiset(ranked);
      var j :| 0 <= j < |ranked| && ranked[j] == c;
      if j > 0 {
        assert picked[j - 1] in Others(pool, song) && c == Label(pool[picked[j - 1]]);
      }
    }
    if UniqueLabel(pool, song) {
      forall j | 1 <= j < |ranked| ensures ranked[j] != Label(song) {
        assert ranked[j] == Label(pool[picked[j - 1]]);
      }
      assert Label(song) !in ranked[1..];
      assert multiset(ranked) == multiset{ranked[0]} + multiset(ranked[1..]);
    }
  }
}
