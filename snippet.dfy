/** Choosing the lyric excerpt a question shows (the first half of
    `prepareQuestion`). */
module Snippet {
  import opened Text
  import opened Shuffling

  /** How many random excerpts are tried before the last one is kept. */
  const Tries: nat := 5
  /** An excerpt must be longer than this to be accepted. */
  const MinLength: nat := 20
  /** An excerpt starts this many line breaks before the one it ends at. */
  const Lookback: nat := 3

  /** Positions of the line breaks among the first `n` characters, in order. */
  function BreaksBefore(text: string, n: nat): seq<nat>
    requires n <= |text|
  {
    if n == 0 then []
    else BreaksBefore(text, n - 1) + (if text[n - 1] == LineBreak then [n - 1] else [])
  }

  /** The collected offsets are increasing line-break positions, and no line
      break is missed. */
  lemma {:induction false} BreaksBeforeSpec(text: string, n: nat)
    requires n <= |text|
    ensures var r := BreaksBefore(text, n);
      && (forall k :: 0 <= k < |r| ==> r[k] < n && text[r[k]] == LineBreak)
      && Increasing(r)
      && (forall p :: 0 <= p < n && text[p] == LineBreak ==> p in r)
  {
    if n > 0 {
      BreaksBeforeSpec(text, n - 1);
    }
  }

  predicate Increasing(s: seq<nat>) {
    forall j, k :: 0 <= j < k < |s| ==> s[j] < s[k]
  }

  /** The offsets an excerpt may end at: every line break, or just 0 when the
      text has none. */
  function Offsets(text: string): (r: seq<nat>)
    ensures |r| > 0
  {
    var breaks := BreaksBefore(text, |text|);
    if breaks == [] then [0] else breaks
  }

  /** The offset list is increasing; with line breaks it is exactly their
      positions, without any it is [0]. */
  lemma OffsetsSpec(text: string)
    ensures var r := Offsets(text);
      && Increasing(r)
      && (LineBreak in text ==>
           (forall k :: 0 <= k < |r| ==> r[k] < |text| && text[r[k]] == LineBreak) &&
           (forall p :: 0 <= p < |text| && text[p] == LineBreak ==> p in r))
      && (LineBreak !in text ==> r == [0])
  {
    var breaks := BreaksBefore(text, |text|);
    BreaksBeforeSpec(text, |text|);
    if breaks == [] {
      forall p | 0 <= p < |text| ensures text[p] != LineBreak {
        assert p !in breaks;
      }
    } else {
      assert text[breaks[0]] in text;
    }
  }

  /** The regular-expression scan for "\n" with its fallback to [0]. */
  method LineBreakOffsets(text: string) returns (offsets: seq<nat>)
    ensures offsets == Offsets(text)
  {
    offsets := [];
    var i := 0;
    while i < |text|
      invariant 0 <= i <= |text|
      invariant offsets == BreaksBefore(text, i)
    {
      if text[i] == LineBreak {
        offsets := offsets + [i];
      }
      i := i + 1;
    }
    if |offsets| < 1 {
      offsets := offsets + [0];
    }
  }

  /** One try: the random draw chooses an offset; the excerpt runs from the
      offset three entries earlier (or from 0) to just past the chosen one. */
  function Candidate(text: string, offsets: seq<nat>, pick: nat): string
    requires |offsets| > 0
  {
    var at := pick % |offsets|;
    var start := if at >= Lookback then offsets[at - Lookback] else 0;
    Slice(text, start, offsets[at] + 1)
  }

  /** The `k`-th collected line break has exactly `k` line breaks before it. */
  lemma {:induction false} BreaksCountAt(text: string, m: nat, k: nat)
    requires m <= |text| && k < |BreaksBefore(text, m)|
    ensures var p := BreaksBefore(text, m)[k];
      && p < |text| && text[p] == LineBreak
      && |BreaksBefore(text, p)| == k && |BreaksBefore(text, p + 1)| == k + 1
  {
    var before := BreaksBefore(text, m - 1);
    if k < |before| {
      assert BreaksBefore(text, m)[k] == before[k];
      BreaksCountAt(text, m - 1, k);
    } else {
      assert BreaksBefore(text, m)[k] == m - 1;
    }
  }

  /** `c` is `text[a..b]`, starting at the text's start or at a line break. With
      line breaks in the text it ends just past one, without any it is at most
      the first character. It holds the line break it ends at and the three
      before it, starting at the line break three entries before its last one,
      or starts at 0 when fewer precede. */
  predicate TryWindow(text: string, c: string, a: nat, b: nat) {
    && a <= b <= |text| && c == text[a..b]
    && (a == 0 || (a < |text| && text[a] == LineBreak))
    && (LineBreak in text ==> 0 < b && text[b - 1] == LineBreak)
    && (LineBreak !in text ==> b <= 1)
    && (|BreaksBefore(text, b)| <= Lookback ==> a == 0)
    && (|BreaksBefore(text, b)| > Lookback ==>
          && a < |text| && text[a] == LineBreak
          && |BreaksBefore(text, b)| - |BreaksBefore(text, a)| == Lookback + 1)
  }

  /** A window is fixed by where it ends: two windows with the same end start at
      the same position. */
  lemma WindowStartUnique(text: string, c: string, c': string, a: nat, a': nat, b: nat)
    requires TryWindow(text, c, a, b) && TryWindow(text, c', a', b)
    ensures a == a' && c == c'
  {
    if |BreaksBefore(text, b)| > Lookback && a != a' {
      if a < a' {
        BreaksMonotone(text, a + 1, a');
      } else {
        BreaksMonotone(text, a' + 1, a);
      }
    }
  }

  /** Every try is such a window of the lyrics, and it is never empty for
      non-empty lyrics. */
  lemma CandidateIsSlice(text: string, pick: nat)
    ensures var c := Candidate(text, Offsets(text), pick);
      && (text != "" ==> c != "")
      && exists a: nat, b: nat :: TryWindow(text, c, a, b)
  {
    var a, b;
    if LineBreak in text {
      a, b := WindowWithBreaks(text, pick);
    } else {
      a, b := WindowWithoutBreaks(text, pick);
    }
  }

  lemma WindowWithBreaks(text: string, pick: nat) returns (a: nat, b: nat)
    requires LineBreak in text
    ensures TryWindow(text, Candidate(text, Offsets(text), pick), a, b) && a < b
  {
    var breaks := BreaksBefore(text, |text|);
    assert Offsets(text) == breaks by {
      var p :| 0 <= p < |text| && text[p] == LineBreak;
      BreakFound(text, |text|, p);
    }
    var at := pick % |breaks|;
    a := if at >= Lookback then breaks[at - Lookback] else 0;
    b := breaks[at] + 1;
    WindowAt(text, at, a, b);
    assert Candidate(text, breaks, pick) == text[a..b];
  }

  /** The try ending just past the `at`-th line break is a window. */
  lemma WindowAt(text: string, at: nat, a: nat, b: nat)
    requires at < |BreaksBefore(text, |text|)|
    requires a == if at >= Lookback then BreaksBefore(text, |text|)[at - Lookback] else 0
    requires b == BreaksBefore(text, |text|)[at] + 1
    ensures a < b <= |text| && TryWindow(text, text[a..b], a, b)
  {
    BreaksCountAt(text, |text|, at);
    if at >= Lookback {
      BreaksCountAt(text, |text|, at - Lookback);
    }
    BreaksMonotone(text, b, a);
  }


  /** A line break before `n` is among the first `n` characters' breaks. */
  lemma {:induction false} BreakFound(text: string, n: nat, p: nat)
    requires p < n <= |text| && text[p] == LineBreak
    ensures |BreaksBefore(text, n)| > 0
  {
    if p < n - 1 {
      BreakFound(text, n - 1, p);
    }
  }

  /** A longer prefix has at least as many line breaks. */
  lemma {:induction false} BreaksMonotone(text: string, x: nat, y: nat)
    requires x <= |text| && y <= |text|
    ensures x <= y ==> |BreaksBefore(text, x)| <= |BreaksBefore(text, y)|
    decreases y
  {
    if x < y {
      BreaksMonotone(text, x, y - 1);
    }
  }

  lemma WindowWithoutBreaks(text: string, pick: nat) returns (a: nat, b: nat)
    requires LineBreak !in text
    ensures TryWindow(text, Candidate(text, Offsets(text), pick), a, b)
    ensures text != "" ==> a < b
  {
    OffsetsSpec(text);
    a := 0;
    b := if |text| < 1 then |text| else 1;
    BreaksBeforeSpec(text, b);
    assert |BreaksBefore(text, b)| == 0;
  }

  /** An excerpt is accepted when it is long enough and, compared in lower case,
      does not give away the title. */
  predicate Acceptable(excerpt: string, title: string) {
    |excerpt| > MinLength && !Contains(Lower(excerpt), Lower(title))
  }

  /** Acceptance in terms of positions: longer than 20 characters, and the
      lower-cased title occurs at no position of the lower-cased excerpt. */
  lemma AcceptableMeaning(excerpt: string, title: string)
    ensures Acceptable(excerpt, title) <==>
      |excerpt| > MinLength && forall i: nat :: !OccursAt(Lower(excerpt), Lower(title), i)
  {
    ContainsAt(Lower(excerpt), Lower(title));
  }

  /** The excerpt tried at attempt `i`. */
  function Attempt(text: string, offsets: seq<nat>, picks: seq<nat>, i: nat): string
    requires |offsets| > 0
  {
    Candidate(text, offsets, Draw(picks, i))
  }

  /** The five tries, in order. */
  function TryList(text: string, offsets: seq<nat>, picks: seq<nat>): (r: seq<string>)
    requires |offsets| > 0
    ensures |r| == Tries
    ensures forall i :: 0 <= i < Tries ==> r[i] == Attempt(text, offsets, picks, i)
  {
    seq(Tries, i requires 0 <= i < Tries => Attempt(text, offsets, picks, i))
  }

  /** The excerpt kept when tries start at position `i` of `tries`. */
  function KeptFrom(tries: seq<string>, title: string, i: nat): string
    requires i < |tries|
    decreases |tries| - i
  {
    if Acceptable(tries[i], title) || i == |tries| - 1 then tries[i]
    else KeptFrom(tries, title, i + 1)
  }

  function Kept(text: string, title: string, offsets: seq<nat>, picks: seq<nat>): string
    requires |offsets| > 0
  {
    KeptFrom(TryList(text, offsets, picks), title, 0)
  }

  /** The kept excerpt is the first acceptable try, or the last try when none of
      the five is acceptable. */
  lemma KeptRule(text: string, title: string, offsets: seq<nat>, picks: seq<nat>)
    requires |offsets| > 0
    ensures exists k ::
      && 0 <= k < Tries
      && Kept(text, title, offsets, picks) == Attempt(text, offsets, picks, k)
      && (forall j :: 0 <= j < k ==> !Acceptable(Attempt(text, offsets, picks, j), title))
      && (Acceptable(Attempt(text, offsets, picks, k), title) || k == Tries - 1)
  {
    var tries := TryList(text, offsets, picks);
    var k := KeptFromRule(tries, title, 0);
    assert Kept(text, title, offsets, picks) == tries[k];
  }

  lemma {:induction false} KeptFromRule(tries: seq<string>, title: string, i: nat)
    returns (k: nat)
    requires i < |tries|
    ensures i <= k < |tries|
    ensures KeptFrom(tries, title, i) == tries[k]
    ensures forall j :: i <= j < k ==> !Acceptable(tries[j], title)
    ensures Acceptable(tries[k], title) || k == |tries| - 1
    decreases |tries| - i
  {
    if Acceptable(tries[i], title) || i == |tries| - 1 {
      k := i;
    } else {
      k := KeptFromRule(tries, title, i + 1);
    }
  }

  /** The bounded retry loop with its early exit. */
  method PickSnippet(text: string, title: string, offsets: seq<nat>, picks: seq<nat>)
    returns (snippet: string)
    requires |offsets| > 0
    ensures snippet == Kept(text, title, offsets, picks)
  {
    ghost var tries := TryList(text, offsets, picks);
    snippet := "";
    for i := 0 to Tries
      invariant i < Tries ==> Kept(text, title, offsets, picks) == KeptFrom(tries, title, i)
      invariant i == Tries ==> Kept(text, title, offsets, picks) == snippet
    {
      snippet := Candidate(text, offsets, Draw(picks, i));
      if Acceptable(snippet, title) {
        break;
      }
    }
  }

  /** `replace(/\n\n+/g, "\n")`: every run of two or more line breaks becomes one. */
  function Collapse(s: string): (r: string)
    ensures NoDoubleBreak(r)
    ensures WithoutBreaks(r) == WithoutBreaks(s)
    ensures |s| > 0 ==> |r| > 0 && r[0] == s[0]
    ensures NoDoubleBreak(s) ==> r == s
    decreases |s|
  {
    if |s| < 2 then
      assert NoDoubleBreak(s) by { if |s| == 1 { NoDoubleBreakStep(s); } }
      s
    else if s[0] == LineBreak && s[1] == LineBreak then
      NoDoubleBreakStep(s);
      Collapse(s[1..])
    else
      var r := [s[0]] + Collapse(s[1..]);
      assert r[1..] == Collapse(s[1..]);
      NoDoubleBreakStep(s);
      NoDoubleBreakStep(r);
      r
  }

  /** What the replacement leaves: a line break if the text starts with one,
      the text's non-empty lines joined by single line breaks, and a line break
      if the text ends with one after some non-empty line. */
  lemma {:induction false} CollapseShape(s: string)
    ensures Collapse(s) == Shape(s)
    decreases |s|
  {
    if |s| < 2 {
      ShapeShort(s);
    } else {
      CollapseShape(s[1..]);
      ShapeStep(s);
    }
  }

  /** A line break if `s` starts with one, then the non-empty lines of `s`
      joined by single line breaks, then a line break if `s` ends with one after
      some non-empty line. */
  function Shape(s: string): string {
    LeadingBreak(s) + Join(NonEmptyLines(s)) + TrailingBreak(s)
  }

  /** A line break when `s` starts with one. */
  function LeadingBreak(s: string): string {
    if s != [] && s[0] == LineBreak then [LineBreak] else []
  }

  /** A line break when `s` ends with one after some non-empty line. */
  function TrailingBreak(s: string): string {
    if s != [] && s[|s| - 1] == LineBreak && NonEmptyLines(s) != [] then [LineBreak] else []
  }

  lemma ShapeShort(s: string)
    requires |s| < 2
    ensures Shape(s) == s
  {
    if s != [] {
      if s[0] == LineBreak {
        LinesStepAtBreak(s);
      } else {
        LinesStepLineEnd(s);
      }
    } else {
      assert NonEmptyLines(s) == [];
    }
  }

  /** How `Shape` follows the steps of `Collapse`. */
  lemma ShapeStep(s: string)
    requires |s| >= 2
    ensures s[0] == LineBreak && s[1] == LineBreak ==> Shape(s) == Shape(s[1..])
    ensures !(s[0] == LineBreak && s[1] == LineBreak) ==> Shape(s) == [s[0]] + Shape(s[1..])
  {
    if s[0] == LineBreak {
      ShapeAtBreak(s);
    } else if s[1] != LineBreak {
      ShapeInsideLine(s);
    } else {
      ShapeAfterFirstLine(s);
    }
  }

  /** The step for text that starts with a line break. */
  lemma ShapeAtBreak(s: string)
    requires |s| >= 2 && s[0] == LineBreak
    ensures s[1] == LineBreak ==> Shape(s) == Shape(s[1..])
    ensures s[1] != LineBreak ==> Shape(s) == [s[0]] + Shape(s[1..])
  {
    var tail := s[1..];
    var j, t := Join(NonEmptyLines(tail)), TrailingBreak(tail);
    LinesStepAtBreak(s);
    TrailingAtBreak(s);
    assert Shape(s) == [LineBreak] + j + t;
    if s[1] != LineBreak {
      assert Shape(tail) == j + t;
      AppendAssoc([LineBreak], j, t);
    }
  }

  lemma TrailingAtBreak(s: string)
    requires |s| >= 2 && s[0] == LineBreak
    ensures TrailingBreak(s) == TrailingBreak(s[1..])
  {
    LinesStepAtBreak(s);
    assert s[1..][|s| - 2] == s[|s| - 1];
  }




  /** The step for text whose first two characters are not line breaks. */
  lemma ShapeInsideLine(s: string)
    requires |s| >= 2 && s[0] != LineBreak && s[1] != LineBreak
    ensures Shape(s) == [s[0]] + Shape(s[1..])
  {
    var tail := s[1..];
    var j, t := Join(NonEmptyLines(tail)), TrailingBreak(tail);
    assert NonEmptyLines(s) != [] && Join(NonEmptyLines(s)) == [s[0]] + j by {
      LinesStepInside(s);
    }
    assert NonEmptyLines(tail) != [] by {
      LinesStepInside(s);
    }
    assert tail[|tail| - 1] == s[|s| - 1];
    assert TrailingBreak(s) == t;
    assert Shape(s) == [s[0]] + j + t;
    assert Shape(tail) == j + t;
    AppendAssoc([s[0]], j, t);
  }


  /** The step for text whose first line has one character. */
  lemma ShapeAfterFirstLine(s: string)
    requires |s| >= 2 && s[0] != LineBreak && s[1] == LineBreak
    ensures Shape(s) == [s[0]] + Shape(s[1..])
  {
    var tail := s[1..];
    var j, t := Join(NonEmptyLines(tail)), TrailingBreak(tail);
    assert tail[|tail| - 1] == s[|s| - 1];
    assert Shape(tail) == [LineBreak] + j + t;
    if NonEmptyLines(tail) == [] {
      if s[|s| - 1] != LineBreak {
        LastLineNonEmpty(tail);
      }
      assert NonEmptyLines(s) != [] && Join(NonEmptyLines(s)) == [s[0]] by {
        LinesStepLineEnd(s);
      }
      assert j == [] && t == [];
      assert TrailingBreak(s) == [LineBreak];
      assert Shape(s) == [s[0]] + [LineBreak];
    } else {
      assert NonEmptyLines(s) != [] && Join(NonEmptyLines(s)) == [s[0]] + ([LineBreak] + j) by {
        LinesStepLineEnd(s);
      }
      assert TrailingBreak(s) == t;
      assert Shape(s) == [s[0]] + ([LineBreak] + j) + t;
      AppendAssoc([s[0]], [LineBreak] + j, t);
      AppendAssoc([LineBreak], j, t);
    }
  }


  lemma AppendAssoc(a: string, b: string, c: string)
    ensures a + (b + c) == a + b + c
  {
  }

  /** Dropping one leading line break from text without doubled breaks. */
  function DropLeadingBreak(c: string): (r: string)
    requires NoDoubleBreak(c)
    ensures NoDoubleBreak(r) && (r == [] || r[0] != LineBreak)
    ensures WithoutBreaks(r) == WithoutBreaks(c)
  {
    if |c| > 0 && c[0] == LineBreak then
      NoDoubleBreakStep(c);
      c[1..]
    else
      c
  }

  /** Dropping one trailing line break from text without doubled or leading breaks. */
  function DropTrailingBreak(h: string): (r: string)
    requires NoDoubleBreak(h) && (h == [] || h[0] != LineBreak)
    ensures NoDoubleBreak(r) && (r == [] || (r[0] != LineBreak && r[|r| - 1] != LineBreak))
    ensures WithoutBreaks(r) == WithoutBreaks(h)
  {
    if |h| > 0 && h[|h| - 1] == LineBreak then
      var r := h[..|h| - 1];
      assert r + [h[|h| - 1]] == h;
      NoDoubleBreakPrefix(h, |h| - 1);
      assert |r| > 0 ==> !BreakPairAt(h, |r| - 1);
      WithoutBreaksAppend(r, [h[|h| - 1]]);
      r
    else
      h
  }

  /** The post-processing of the kept excerpt: collapse runs of line breaks, then
      drop one leading and one trailing line break. Only line breaks are removed. */
  function Tidy(s: string): (r: string)
    ensures NoDoubleBreak(r)
    ensures r == [] || (r[0] != LineBreak && r[|r| - 1] != LineBreak)
    ensures WithoutBreaks(r) == WithoutBreaks(s)
  {
    ContainsDoubleBreak(s);
    var collapsed := if Contains(s, DoubleBreak) then Collapse(s) else s;
    DropTrailingBreak(DropLeadingBreak(collapsed))
  }

  /** The shown excerpt is the kept excerpt's non-empty lines joined by single
      line breaks. */
  lemma TidyLines(s: string)
    ensures Tidy(s) == Join(NonEmptyLines(s))
  {
    var lead, lines, trail := LeadingBreak(s), Join(NonEmptyLines(s)), TrailingBreak(s);
    var c := Collapse(s);
    assert c == lead + lines + trail by {
      CollapseShape(s);
    }
    ShapePieces(s);
    DropBothBreaks(c, lead, lines, trail);
    TidyIsCollapsed(s);
  }

  /** The three pieces of `Shape`: at most one break before and after, and
      joined lines that neither start nor end with one. */
  lemma ShapePieces(s: string)
    ensures LeadingBreak(s) == [] || LeadingBreak(s) == [LineBreak]
    ensures var j := Join(NonEmptyLines(s));
      && (j == [] || (j[0] != LineBreak && j[|j| - 1] != LineBreak))
      && (TrailingBreak(s) == [] || (TrailingBreak(s) == [LineBreak] && j != []))
  {
    JoinedLinesEnds(s);
    JoinedLinesNonEmpty(s);
  }

  /** The `includes` guard only skips the replacement when it would change nothing. */
  lemma TidyIsCollapsed(s: string)
    ensures Tidy(s) == DropTrailingBreak(DropLeadingBreak(Collapse(s)))
  {
    ContainsDoubleBreak(s);
  }

  /** Dropping the outer line breaks around text that neither starts nor ends
      with one. */
  lemma DropBothBreaks(c: string, lead: string, lines: string, trail: string)
    requires c == lead + lines + trail && NoDoubleBreak(c)
    requires lead == [] || lead == [LineBreak]
    requires trail == [] || (trail == [LineBreak] && lines != [])
    requires lines == [] || (lines[0] != LineBreak && lines[|lines| - 1] != LineBreak)
    ensures DropTrailingBreak(DropLeadingBreak(c)) == lines
  {
    if lead != [] {
      assert c[1..] == lines + trail;
    } else {
      assert c == lines + trail;
    }
    var h := lines + trail;
    assert DropLeadingBreak(c) == h;
    if trail != [] {
      assert h[..|h| - 1] == lines;
    } else {
      assert h == lines;
    }
  }

  /** Tidying an already tidied excerpt changes nothing. */
  lemma TidyIdempotent(s: string)
    ensures Tidy(Tidy(s)) == Tidy(s)
  {
    var r := Tidy(s);
    ContainsDoubleBreak(r);
  }

  /** The shown excerpt is empty exactly when the kept one holds only line breaks. */
  lemma TidyEmpty(s: string)
    ensures Tidy(s) == [] <==> WithoutBreaks(s) == []
  {
    NoLeadingBreakEmpty(Tidy(s));
  }

  /** Text that does not start with a line break is empty exactly when it has
      no characters other than line breaks. */
  lemma NoLeadingBreakEmpty(r: string)
    requires r == [] || r[0] != LineBreak
    ensures r == [] <==> WithoutBreaks(r) == []
  {
    if r != [] {
      assert r == [r[0]] + r[1..];
      WithoutBreaksAppend([r[0]], r[1..]);
    }
  }
}
