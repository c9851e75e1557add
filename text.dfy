/** The string operations of the JavaScript runtime that the game relies on. */
module Text {
  const LineBreak: char := '\n'
  const DoubleBreak: string := "\n\n"

  /** ASCII stand-in for `toLowerCase` on one character. */
  function LowerChar(c: char): char {
    if 'A' <= c <= 'Z' then (c as int + 32) as char else c
  }

  /** ASCII stand-in for `String.prototype.toLowerCase`. */
  function Lower(s: string): string {
    seq(|s|, i requires 0 <= i < |s| => LowerChar(s[i]))
  }

  predicate IsPrefix(p: string, s: string) {
    |p| <= |s| && s[..|p|] == p
  }

  /** `String.prototype.includes`: `sub` occurs somewhere in `s`. */
  predicate Contains(s: string, sub: string)
    decreases |s|
  {
    IsPrefix(sub, s) || (|s| > 0 && Contains(s[1..], sub))
  }

  /** `sub` occurs in `s` starting at position `i`. */
  predicate OccursAt(s: string, sub: string, i: nat) {
    i + |sub| <= |s| && s[i..i + |sub|] == sub
  }

  /** `includes` holds exactly when `sub` occurs at some position of `s`. */
  lemma {:induction false} ContainsAt(s: string, sub: string)
    ensures Contains(s, sub) <==> exists i: nat :: OccursAt(s, sub, i)
    decreases |s|
  {
    if IsPrefix(sub, s) {
      assert OccursAt(s, sub, 0);
    } else if |s| > 0 {
      ContainsAt(s[1..], sub);
      if i: nat :| OccursAt(s[1..], sub, i) {
        assert s[1..][i..i + |sub|] == s[i + 1..i + 1 + |sub|];
        assert OccursAt(s, sub, i + 1);
      }
      if i: nat :| OccursAt(s, sub, i) {
        assert i != 0;
        assert s[1..][i - 1..i - 1 + |sub|] == s[i..i + |sub|];
        assert OccursAt(s[1..], sub, i - 1);
      }
    } else {
      assert forall i: nat :: !OccursAt(s, sub, i);
    }
  }

  /** `String.prototype.slice(start, end)` for non-negative arguments: both ends
      are clamped to the length, and a start past the end gives "". */
  function Slice(s: string, start: nat, end: nat): (r: string)
    ensures |r| <= |s|
    ensures start < end <= |s| ==> r == s[start..end]
    ensures start <= |s| <= end ==> r == s[start..]
    ensures end <= start || |s| <= start ==> r == ""
  {
    var from := if start < |s| then start else |s|;
    var to := if end < |s| then end else |s|;
    if from < to then s[from..to] else ""
  }

  /** Positions `i` and `i + 1` of `s` both hold a line break. */
  predicate BreakPairAt(s: string, i: nat)
    requires i + 1 < |s|
  {
    s[i] == LineBreak && s[i + 1] == LineBreak
  }

  /** No two line breaks are adjacent. */
  predicate NoDoubleBreak(s: string) {
    forall i: nat :: i + 1 < |s| ==> !BreakPairAt(s, i)
  }

  /** The characters of `s` other than line breaks, in order. */
  function WithoutBreaks(s: string): string {
    if s == [] then [] else (if s[0] == LineBreak then [] else [s[0]]) + WithoutBreaks(s[1..])
  }

  lemma {:induction false} WithoutBreaksAppend(a: string, b: string)
    ensures WithoutBreaks(a + b) == WithoutBreaks(a) + WithoutBreaks(b)
  {
    if a != [] {
      assert (a + b)[1..] == a[1..] + b;
      WithoutBreaksAppend(a[1..], b);
    } else {
      assert a + b == b;
    }
  }

  /** Text has no doubled break exactly when its tail has none and it does not
      start with one. */
  lemma NoDoubleBreakStep(s: string)
    requires |s| > 0
    ensures NoDoubleBreak(s) <==>
      NoDoubleBreak(s[1..]) && !(|s| >= 2 && s[0] == LineBreak && s[1] == LineBreak)
  {
    if !NoDoubleBreak(s[1..]) {
      var i: nat :| i + 1 < |s[1..]| && BreakPairAt(s[1..], i);
      assert BreakPairAt(s, i + 1);
    }
    if !NoDoubleBreak(s) && !(|s| >= 2 && s[0] == LineBreak && s[1] == LineBreak) {
      var i: nat :| i + 1 < |s| && BreakPairAt(s, i);
      assert i > 0;
      assert BreakPairAt(s[1..], i - 1);
    }
    if |s| >= 2 && s[0] == LineBreak && s[1] == LineBreak {
      assert BreakPairAt(s, 0);
    }
  }

  /** A prefix of text without doubled breaks has none either. */
  lemma NoDoubleBreakPrefix(s: string, n: nat)
    requires n <= |s| && NoDoubleBreak(s)
    ensures NoDoubleBreak(s[..n])
  {
    forall i: nat | i + 1 < n
      ensures !BreakPairAt(s[..n], i)
    {
      assert !BreakPairAt(s, i);
    }
  }

  /** `includes("\n\n")` holds exactly when two line breaks are adjacent. */
  lemma {:induction false} ContainsDoubleBreak(s: string)
    ensures Contains(s, DoubleBreak) <==> !NoDoubleBreak(s)
  {
    if |s| >= 2 {
      ContainsDoubleBreak(s[1..]);
      NoDoubleBreakStep(s);
      assert IsPrefix(DoubleBreak, s) <==> s[0] == LineBreak && s[1] == LineBreak;
    } else if |s| == 1 {
      assert !IsPrefix(DoubleBreak, s[1..]);
    }
  }

  /** `split("\n")`: the pieces of `s` between line breaks, empty ones included. */
  function Lines(s: string): (r: seq<string>)
    ensures |r| > 0
    decreases |s|
  {
    if s == [] then [""]
    else
      var rest := Lines(s[1..]);
      if s[0] == LineBreak then [""] + rest else [[s[0]] + rest[0]] + rest[1..]
  }

  /** The non-empty strings of `ls`, in order. */
  function NonEmpty(ls: seq<string>): (r: seq<string>)
    ensures forall k :: 0 <= k < |r| ==> r[k] != ""
  {
    if ls == [] then [] else (if ls[0] == "" then [] else [ls[0]]) + NonEmpty(ls[1..])
  }

  /** The maximal non-empty stretches of `s` that hold no line break. */
  function NonEmptyLines(s: string): seq<string> {
    NonEmpty(Lines(s))
  }

  /** `join("\n")`. */
  function Join(ls: seq<string>): string {
    if |ls| == 0 then "" else if |ls| == 1 then ls[0] else ls[0] + [LineBreak] + Join(ls[1..])
  }

  lemma JoinCons(c: char, x: string, rest: seq<string>)
    ensures Join([[c] + x] + rest) == [c] + Join([x] + rest)
  {
    assert ([[c] + x] + rest)[1..] == rest == ([x] + rest)[1..];
  }

  /** `Lines` is a split: joining the pieces with line breaks gives `s` back,
      and no piece holds a line break. */
  lemma {:induction false} LinesSplit(s: string)
    ensures Join(Lines(s)) == s
    ensures forall k :: 0 <= k < |Lines(s)| ==> LineBreak !in Lines(s)[k]
    decreases |s|
  {
    if s != [] {
      var rest := Lines(s[1..]);
      LinesSplit(s[1..]);
      if s[0] == LineBreak {
        assert ([""] + rest)[1..] == rest;
        assert s == [LineBreak] + s[1..];
      } else {
        JoinCons(s[0], rest[0], rest[1..]);
        assert [rest[0]] + rest[1..] == rest;
        assert s == [s[0]] + s[1..];
      }
    }
  }

  /** A leading line break contributes no non-empty line. */
  lemma LinesStepAtBreak(s: string)
    requires s != [] && s[0] == LineBreak
    ensures NonEmptyLines(s) == NonEmptyLines(s[1..])
    ensures Join(NonEmptyLines(s)) == Join(NonEmptyLines(s[1..]))
  {
    assert ([""] + Lines(s[1..]))[1..] == Lines(s[1..]);
  }

  /** A one-character first line becomes a non-empty line of its own. */
  lemma LinesStepLineEnd(s: string)
    requires s != [] && s[0] != LineBreak && (|s| == 1 || s[1] == LineBreak)
    ensures NonEmptyLines(s) == [[s[0]]] + NonEmptyLines(s[1..])
    ensures Join(NonEmptyLines(s)) ==
      [s[0]] + (if NonEmptyLines(s[1..]) == [] then "" else [LineBreak] + Join(NonEmptyLines(s[1..])))
  {
    var rest := Lines(s[1..]);
    assert rest[0] == "" by {
      if s[1..] != [] {
        assert s[1..][1..] == s[2..];
      }
    }
    assert NonEmptyLines(s) == [[s[0]]] + NonEmpty(rest[1..]) by {
      assert [s[0]] + rest[0] == [s[0]];
      NonEmptyCons([s[0]], rest[1..]);
    }
    assert NonEmpty(rest) == NonEmpty(rest[1..]) by {
      assert [rest[0]] + rest[1..] == rest;
      NonEmptyCons(rest[0], rest[1..]);
    }
    JoinFront([s[0]], NonEmptyLines(s[1..]));
  }

  /** `NonEmpty` one string at a time. */
  lemma NonEmptyCons(x: string, ls: seq<string>)
    ensures NonEmpty([x] + ls) == (if x == "" then [] else [x]) + NonEmpty(ls)
  {
    assert ([x] + ls)[1..] == ls;
  }

  /** `Join` one string at a time. */
  lemma JoinFront(x: string, ls: seq<string>)
    ensures Join([x] + ls) == x + (if ls == [] then "" else [LineBreak] + Join(ls))
  {
    assert ([x] + ls)[1..] == ls;
  }

  /** A first character followed by more of its line extends the first
      non-empty line of the rest. */
  lemma LinesStepInside(s: string)
    requires |s| > 1 && s[0] != LineBreak && s[1] != LineBreak
    ensures NonEmptyLines(s[1..]) != []
    ensures NonEmptyLines(s) == [[s[0]] + NonEmptyLines(s[1..])[0]] + NonEmptyLines(s[1..])[1..]
    ensures Join(NonEmptyLines(s)) == [s[0]] + Join(NonEmptyLines(s[1..]))
  {
    var rest := Lines(s[1..]);
    assert s[1..][1..] == s[2..];
    assert rest[0] != "";
    var lines := [[s[0]] + rest[0]] + rest[1..];
    assert lines[1..] == rest[1..];
    var tail := NonEmptyLines(s[1..]);
    JoinCons(s[0], tail[0], tail[1..]);
    assert [tail[0]] + tail[1..] == tail;
  }

  /** The joined non-empty lines neither start nor end with a line break. */
  lemma {:induction false} JoinedLinesEnds(s: string)
    ensures var j := Join(NonEmptyLines(s)); j == [] || (j[0] != LineBreak && j[|j| - 1] != LineBreak)
    decreases |s|
  {
    if s != [] {
      JoinedLinesEnds(s[1..]);
      JoinedLinesNonEmpty(s[1..]);
      if s[0] == LineBreak {
        LinesStepAtBreak(s);
      } else if |s| == 1 || s[1] == LineBreak {
        LinesStepLineEnd(s);
      } else {
        LinesStepInside(s);
      }
    }
  }

  /** Some non-empty line makes the joined lines non-empty. */
  lemma JoinedLinesNonEmpty(s: string)
    ensures NonEmptyLines(s) != [] ==> Join(NonEmptyLines(s)) != []
  {
    var lines := NonEmptyLines(s);
    if lines != [] {
      assert lines[0] != "";
    }
  }

  /** Text whose last character is not a line break has a non-empty line. */
  lemma {:induction false} LastLineNonEmpty(s: string)
    requires s != [] && s[|s| - 1] != LineBreak
    ensures NonEmptyLines(s) != []
    decreases |s|
  {
    if s[0] == LineBreak {
      assert s[1..][|s| - 2] == s[|s| - 1];
      LastLineNonEmpty(s[1..]);
      LinesStepAtBreak(s);
    } else if |s| == 1 || s[1] == LineBreak {
      assert NonEmptyLines(s)[0] == [s[0]] by {
        LinesStepLineEnd(s);
      }
    } else {
      assert NonEmptyLines(s) != [] by {
        LinesStepInside(s);
      }
    }
  }
}
