/** `randomizeArray`: the source reorders an array by sorting it with a random
    comparator. Here the random outcomes are an explicit stream of picks and the
    reordering is a selection shuffle: each pick chooses which of the remaining
    elements comes next. Every pick stream gives a permutation, and every
    permutation comes from some pick stream. */
module Shuffling {

  /** The i-th random draw, or 0 once the stream is exhausted. */
  function Draw(picks: seq<nat>, i: nat): nat {
    if i < |picks| then picks[i] else 0
  }

  function Rest(picks: seq<nat>): seq<nat> {
    if picks == [] then [] else picks[1..]
  }

  lemma SmallModulo(j: nat, n: nat)
    requires j < n
    ensures j % n == j
  {
  }

  /** `s` with its element at position `j` removed, the others keeping their order. */
  function RemoveAt<T>(s: seq<T>, j: nat): (r: seq<T>)
    requires j < |s|
    ensures |r| == |s| - 1
    ensures forall i :: 0 <= i < |r| ==> r[i] == s[if i < j then i else i + 1]
    ensures multiset(r) + multiset{s[j]} == multiset(s)
  {
    assert s == s[..j] + [s[j]] + s[j + 1..];
    s[..j] + s[j + 1..]
  }

  function Shuffle<T>(s: seq<T>, picks: seq<nat>): (r: seq<T>)
    ensures multiset(r) == multiset(s)
    ensures |r| == |s|
    decreases |s|
  {
    if s == [] then []
    else
      var j := Draw(picks, 0) % |s|;
      [s[j]] + Shuffle(RemoveAt(s, j), Rest(picks))
  }

  lemma MultisetCancel<T>(a: multiset<T>, b: multiset<T>, x: T)
    requires a + multiset{x} == b + multiset{x}
    ensures a == b
  {
    assert forall y :: a[y] == (a + multiset{x})[y] - multiset{x}[y];
    assert forall y :: b[y] == (b + multiset{x})[y] - multiset{x}[y];
  }

  /** Every reordering of `s` is produced by some stream of picks. */
  lemma {:induction false} ShuffleReachesEveryPermutation<T>(s: seq<T>, p: seq<T>)
    requires multiset(p) == multiset(s)
    ensures exists picks :: Shuffle(s, picks) == p
    decreases |s|
  {
    if s == [] {
      assert |p| == |multiset(p)| == 0;
      assert Shuffle(s, []) == p;
    } else {
      var j := FirstStep(s, p);
      var s' := RemoveAt(s, j);
      ShuffleReachesEveryPermutation(s', p[1..]);
      var picks' :| Shuffle(s', picks') == p[1..];
      var picks := [j] + picks';
      assert Draw(picks, 0) == j;
      SmallModulo(j, |s|);
      assert Rest(picks) == picks';
      assert Shuffle(s, picks) == [s[j]] + Shuffle(s', picks');
      assert Shuffle(s, picks) == p;
    }
  }

  /** A position of `s` holding the first element of the permutation `p`; the rest
      of `p` is then a permutation of what remains of `s`. */
  lemma FirstStep<T>(s: seq<T>, p: seq<T>) returns (j: nat)
    requires multiset(p) == multiset(s) && s != []
    ensures j < |s| && |p| == |s| && s[j] == p[0] && [s[j]] + p[1..] == p
    ensures multiset(p[1..]) == multiset(RemoveAt(s, j))
  {
    assert |p| == |multiset(p)| == |multiset(s)| == |s|;
    assert p[0] in multiset(s);
    j :| 0 <= j < |s| && s[j] == p[0];
    assert p == [p[0]] + p[1..];
    assert multiset(p[1..]) + multiset{p[0]} == multiset(RemoveAt(s, j)) + multiset{p[0]};
    MultisetCancel(multiset(p[1..]), multiset(RemoveAt(s, j)), p[0]);
  }

  predicate Distinct<T(==)>(s: seq<T>) {
    forall i, j :: 0 <= i < j < |s| ==> s[i] != s[j]
  }

  /** The values that occur in `s`. */
  function Elems<T>(s: seq<T>): set<T> {
    set x | x in s
  }

  lemma ShuffleKeepsElems<T>(s: seq<T>, picks: seq<nat>)
    ensures Elems(Shuffle(s, picks)) == Elems(s)
  {
    var r := Shuffle(s, picks);
    forall x | x in r ensures x in s {
      assert x in multiset(r);
    }
    forall x | x in s ensures x in r {
      assert x in multiset(s);
    }
  }

  lemma DistinctRemoveAt<T>(s: seq<T>, j: nat)
    requires j < |s| && Distinct(s)
    ensures Distinct(RemoveAt(s, j)) && s[j] !in RemoveAt(s, j)
    ensures Elems(RemoveAt(s, j)) == Elems(s) - {s[j]}
  {
    var s' := RemoveAt(s, j);
    forall x | x in s && x != s[j] ensures x in s' {
      var i :| 0 <= i < |s| && s[i] == x;
      assert s'[if i < j then i else i - 1] == x;
    }
    forall a, b | 0 <= a < b < |s'| ensures s'[a] != s'[b] {
      assert s'[a] == s[if a < j then a else a + 1];
      assert s'[b] == s[if b < j then b else b + 1];
    }
    forall a | 0 <= a < |s'| ensures s'[a] != s[j] {
      assert s'[a] == s[if a < j then a else a + 1];
    }
  }

  lemma DistinctCons<T>(x: T, s: seq<T>)
    requires Distinct(s) && x !in s
    ensures Distinct([x] + s)
  {
    var r := [x] + s;
    forall a, b | 0 <= a < b < |r| ensures r[a] != r[b] {
      assert r[b] == s[b - 1];
      if a > 0 {
        assert r[a] == s[a - 1];
      }
    }
  }

  lemma {:induction false} ShufflePreservesDistinct<T>(s: seq<T>, picks: seq<nat>)
    requires Distinct(s)
    ensures Distinct(Shuffle(s, picks))
    decreases |s|
  {
    if s != [] {
      var j := Draw(picks, 0) % |s|;
      var s' := RemoveAt(s, j);
      DistinctRemoveAt(s, j);
      ShufflePreservesDistinct(s', Rest(picks));
      var r' := Shuffle(s', Rest(picks));
      assert s[j] !in multiset(s');
      assert s[j] !in r';
      DistinctCons(s[j], r');
    }
  }

  /** The indices 0 .. n-1 in ascending order (the array the source fills before shuffling). */
  function Range(n: nat): (r: seq<nat>)
    ensures |r| == n
    ensures forall i :: 0 <= i < n ==> r[i] == i
  {
    seq(n, i requires 0 <= i < n => i)
  }

  /** `order` lists every index below n exactly once. */
  predicate IsIndexPermutation(order: seq<nat>, n: nat) {
    && |order| == n
    && (forall i :: 0 <= i < n ==> order[i] < n)
    && (forall v :: 0 <= v < n ==> v in order)
    && Distinct(order)
  }

  lemma ShuffledRangeIsIndexPermutation(n: nat, picks: seq<nat>)
    ensures IsIndexPermutation(Shuffle(Range(n), picks), n)
  {
    var r := Shuffle(Range(n), picks);
    ShufflePreservesDistinct(Range(n), picks);
    RearrangedRange(r, n);
  }

  /** A repeat-free rearrangement of `0..n-1` lists every position once. */
  lemma RearrangedRange(r: seq<nat>, n: nat)
    requires multiset(r) == multiset(Range(n)) && Distinct(r)
    ensures IsIndexPermutation(r, n)
  {
    var range := Range(n);
    assert |r| == n by {
      assert |multiset(r)| == |multiset(range)|;
    }
    forall i | 0 <= i < n ensures r[i] < n {
      assert r[i] in multiset(range);
    }
    forall v | 0 <= v < n ensures v in r {
      assert range[v] == v;
      assert v in multiset(range);
    }
  }
}
