/** Scoring a sentence by its position in the document and in its paragraph. */
module Scoring {
  import opened Keys
  import opened Tokeniser
  import opened Ratios
  import opened Wrappers

  const NEWLINE: Byte := 10
  const SCALE := 10000

  /** `strstr`: the first position of `t` in `s`. */
  ghost predicate FirstAt(s: Text, t: Text, pos: nat) {
    OccursAt(s, t, pos) && forall i :: 0 <= i < pos ==> !OccursAt(s, t, i)
  }

  method Find(s: Text, t: Text) returns (pos: Option<nat>)
    ensures pos == None <==> !Occurs(s, t)
    ensures pos.Some? ==> FirstAt(s, t, pos.value)
  {
    for i := 0 to |s| + 1
      invariant forall j :: 0 <= j < i ==> !OccursAt(s, t, j)
    {
      if OccursAt(s, t, i) {
        return Some(i);
      }
    }
    return None;
  }

  // ---------- the paragraph ----------

  /** The last newline at or before `pos`, or the start of the document. */
  ghost predicate IsPartStart(s: Text, pos: nat, start: nat) {
    && start <= pos < |s| && (start == 0 || s[start] == NEWLINE)
    && forall i :: start < i <= pos ==> s[i] != NEWLINE
  }

  /** The first newline after `pos`, or the end of the document. */
  ghost predicate IsPartEnd(s: Text, pos: nat, end: nat) {
    && pos < end <= |s| && (end == |s| || s[end] == NEWLINE)
    && forall i :: pos < i < end ==> s[i] != NEWLINE
  }

  /** The text from the start through the end; a newline at either end belongs to it. */
  function PartText(s: Text, start: nat, end: nat): Text
    requires start < end <= |s|
  {
    if end == |s| then s[start..] else s[start..end + 1]
  }

  /** What the scans find is determined by the text. */
  lemma PartUnique(s: Text, pos: nat, start: nat, end: nat, start': nat, end': nat)
    requires IsPartStart(s, pos, start) && IsPartStart(s, pos, start')
    requires IsPartEnd(s, pos, end) && IsPartEnd(s, pos, end')
    ensures start == start' && end == end'
  {
  }

  /** The paragraph around the first occurrence of a sentence. */
  ghost predicate IsPart(document: Text, sentence: Text, part: Text) {
    exists pos: nat, start: nat, end: nat ::
      && FirstAt(document, sentence, pos) && IsPartStart(document, pos, start) && IsPartEnd(document, pos, end)
      && part == PartText(document, start, end)
  }

  /** It is found by two scans. */
  method DefinePart(document: Text, sentence: Text)
    returns (part: Text, ghost pos: nat, ghost start: nat, ghost end: nat)
    requires sentence != [] && Occurs(document, sentence)
    ensures FirstAt(document, sentence, pos) && IsPartStart(document, pos, start) && IsPartEnd(document, pos, end)
    ensures part == PartText(document, start, end) && IsPart(document, sentence, part)
  {
    var found := Find(document, sentence);
    var isent := found.value;
    var from := isent;
    while from != 0 && document[from] != NEWLINE
      invariant 0 <= from <= isent && forall i :: from < i <= isent ==> document[i] != NEWLINE
    {
      from := from - 1;
    }
    var to := isent + 1;
    while to != |document| && document[to] != NEWLINE
      invariant isent < to <= |document| && forall i :: isent < i < to ==> document[i] != NEWLINE
    {
      to := to + 1;
    }
    pos, start, end := isent, from, to;
    part := if to == |document| then document[from..] else document[from..to + 1];
  }

  /** No newline strictly between the first and the last byte. */
  ghost predicate NoInnerNewline(t: Text) {
    forall k :: 1 <= k < |t| - 1 ==> t[k] != NEWLINE
  }

  lemma OccursInPart(s: Text, t: Text, start: nat, end: nat, i: nat)
    requires start < end <= |s|
    ensures OccursAt(PartText(s, start, end), t, i) <==>
      OccursAt(s, t, start + i) && start + i + |t| <= start + |PartText(s, start, end)|
  {
    var part := PartText(s, start, end);
    assert part == s[start..start + |part|];
    if i + |t| <= |part| {
      SliceOfSlice(s, start, start + |part|, i, i + |t|);
    }
  }

  lemma SliceOfSlice(s: Text, a: nat, b: nat, i: nat, j: nat)
    requires a <= b <= |s| && i <= j <= b - a
    ensures s[a..b][i..j] == s[a + i..a + j]
  {
    var part := s[a..b];
    forall k | 0 <= k < j - i
      ensures part[i..j][k] == s[a + i..a + j][k]
    {
      assert part[i + k] == s[a + (i + k)];
    }
  }

  /** The paragraph contains its sentence exactly when the sentence has no inner newline; then the
      first occurrence in the paragraph is the first occurrence in the document. */
  lemma PartContainsIff(s: Text, t: Text, pos: nat, start: nat, end: nat)
    requires t != [] && FirstAt(s, t, pos) && IsPartStart(s, pos, start) && IsPartEnd(s, pos, end)
    ensures Occurs(PartText(s, start, end), t) <==> NoInnerNewline(t)
    ensures NoInnerNewline(t) ==> FirstAt(PartText(s, start, end), t, pos - start)
  {
    var part := PartText(s, start, end);
    forall i | OccursAt(part, t, i)
      ensures start + i >= pos && OccursAt(s, t, start + i)
    {
      OccursInPart(s, t, start, end, i);
    }
    OccursInPart(s, t, start, end, pos - start);
    FitsIff(s, t, pos, end);
    if Occurs(part, t) {
      var i :| 0 <= i <= |part| && OccursAt(part, t, i);
      OccursInPart(s, t, start, end, i);
    }
  }

  /** The sentence ends within the paragraph exactly when it has no inner newline. */
  lemma FitsIff(s: Text, t: Text, pos: nat, end: nat)
    requires t != [] && OccursAt(s, t, pos) && IsPartEnd(s, pos, end)
    ensures pos + |t| <= (if end == |s| then |s| else end + 1) <==> NoInnerNewline(t)
  {
  }

  // ---------- the score ----------

  /** One minus the one-based position of the sentence over the size of the text. */
  function Position(size: nat, pos: nat): real
    requires size > 0
  {
    1.0 - (pos + 1) as real / size as real
  }

  lemma PositionBounds(s: Text, t: Text, pos: nat)
    requires t != [] && OccursAt(s, t, pos)
    ensures s != [] && 0.0 <= Position(|s|, pos) < 1.0
  {
  }

  /** The score of a sentence at `pos`, whose paragraph of `partSize` bytes starts at `start`. */
  ghost function ScoreOf(size: nat, pos: nat, partSize: nat, start: nat): int
    requires size > 0 && partSize > 0 && start <= pos
  {
    (Position(size, pos) * Position(partSize, pos - start) * SCALE as real).Floor
  }

  lemma ScoreBounds(s: Text, t: Text, pos: nat, part: Text, start: nat)
    requires t != [] && OccursAt(s, t, pos) && start <= pos && OccursAt(part, t, pos - start)
    ensures s != [] && part != [] && 0 <= ScoreOf(|s|, pos, |part|, start) < SCALE
  {
    PositionBounds(s, t, pos);
    PositionBounds(part, t, pos - start);
    var posd, posp := Position(|s|, pos), Position(|part|, pos - start);
    ProductBelowOne(posd, posp);
    ScaledBounds(posd * posp);
  }

  lemma ScaledBounds(x: real)
    requires 0.0 <= x < 1.0
    ensures 0 <= (x * SCALE as real).Floor < SCALE
  {
  }

  /** In integers: `score` is the floor of 10000 times the product of what lies behind the one-based positions in a
      document of `n` and a paragraph of `m` bytes, each over its size. */
  ghost predicate Brackets(score: int, n: nat, m: nat, pos: nat, inPart: int) {
    score * n * m <= 10000 * (n - pos - 1) * (m - inPart - 1) < (score + 1) * n * m
  }

  lemma BracketsIff(score: int, n: nat, m: nat, pos: nat, start: nat)
    requires n > 0 && m > 0 && start <= pos
    ensures Brackets(score, n, m, pos, pos - start) <==> score == ScoreOf(n, pos, m, start)
  {
    var x := Position(n, pos) * Position(m, pos - start) * SCALE as real;
    PositionTimes(n, pos);
    PositionTimes(m, pos - start);
    TimesBoth(Position(n, pos), n, n - pos - 1, Position(m, pos - start), m, m - (pos - start) - 1);
    FloorIff(x, n * m, 10000 * (n - pos - 1) * (m - (pos - start) - 1), score);
    assert score * n * m == score * (n * m) && (score + 1) * n * m == (score + 1) * (n * m);
  }

  lemma PositionTimes(n: nat, pos: nat)
    requires n > 0
    ensures Position(n, pos) * n as real == (n - pos - 1) as real
  {
    var q := (pos + 1) as real / n as real;
    QuotientOrder((pos + 1) as real, n as real, q);
    assert (1.0 - q) * n as real == n as real - q * n as real;
  }

  lemma TimesBoth(x: real, n: int, a: int, y: real, m: int, b: int)
    requires x * n as real == a as real && y * m as real == b as real
    ensures x * y * SCALE as real * (n * m) as real == (10000 * a * b) as real
  {
  }

  /** The floor of a quotient lies between the integer multiples around its numerator. */
  lemma FloorIff(x: real, n: int, a: int, k: int)
    requires n > 0 && x * n as real == a as real
    ensures k * n <= a < (k + 1) * n <==> k == x.Floor
  {
    MulOrder(k as real, x, n as real);
    MulOrder(x, (k + 1) as real, n as real);
    assert (k * n) as real == k as real * n as real && ((k + 1) * n) as real == (k + 1) as real * n as real;
  }

  /** The score that a sentence has in a document: by its first position, and by that in the paragraph from the last
      newline at or before it through the first newline behind its first byte. */
  ghost predicate IsScore(document: Text, sentence: Text, score: nat) {
    exists pos: nat, start: nat, end: nat :: ScoresAt(document, sentence, score, pos, start, end)
  }

  ghost predicate ScoresAt(document: Text, sentence: Text, score: nat, pos: nat, start: nat, end: nat) {
    && FirstAt(document, sentence, pos) && IsPartStart(document, pos, start) && IsPartEnd(document, pos, end)
    && Brackets(score, |document|, (if end == |document| then end else end + 1) - start, pos, pos - start)
  }

  lemma FirstUnique(s: Text, t: Text, a: nat, b: nat)
    requires FirstAt(s, t, a) && FirstAt(s, t, b)
    ensures a == b
  {
  }

  lemma PartSize(document: Text, start: nat, end: nat)
    requires start < end <= |document|
    ensures |PartText(document, start, end)| == (if end == |document| then end else end + 1) - start
  {
  }

  lemma IsScoreAt(document: Text, sentence: Text, score: nat, pos: nat, start: nat, end: nat)
    requires FirstAt(document, sentence, pos) && IsPartStart(document, pos, start) && IsPartEnd(document, pos, end)
    ensures IsScore(document, sentence, score) <==>
      score == ScoreOf(|document|, pos, |PartText(document, start, end)|, start)
  {
    hide ScoreOf, FirstAt, Brackets, PartText;
    PartSize(document, start, end);
    BracketsIff(score, |document|, |PartText(document, start, end)|, pos, start);
    assert ScoresAt(document, sentence, score, pos, start, end) <==>
      score == ScoreOf(|document|, pos, |PartText(document, start, end)|, start);
    if IsScore(document, sentence, score) {
      var pos': nat, start': nat, end': nat :| ScoresAt(document, sentence, score, pos', start', end');
      FirstUnique(document, sentence, pos, pos');
      PartUnique(document, pos, start, end, start', end');
    }
  }

  /** Scores a sentence of a document; there is no score if the sentence is not found in its paragraph,
      which is when it has an inner newline. */
  method DefineScore(document: Text, sentence: Text) returns (score: Option<nat>)
    requires sentence != [] && Occurs(document, sentence)
    ensures score == None <==> !NoInnerNewline(sentence)
    ensures score.Some? ==> IsScore(document, sentence, score.value) && score.value < SCALE
  {
    hide Position, PartText, NoInnerNewline, IsScore, OccursAt, IsPartEnd;
    var inDocument := Find(document, sentence);
    var part, pos, start, end := DefinePart(document, sentence);
    PartContainsIff(document, sentence, pos, start, end);
    var inPart := Find(part, sentence);
    if inPart == None {
      return None;
    }
    FirstUnique(document, sentence, inDocument.value, pos);
    FirstUnique(part, sentence, inPart.value, pos - start);
    ScoreBounds(document, sentence, pos, part, start);
    var posd, posp := Position(|document|, inDocument.value), Position(|part|, inPart.value);
    assert (posd * posp * SCALE as real).Floor == ScoreOf(|document|, pos, |part|, start);
    score := Some((posd * posp * SCALE as real).Floor);
    IsScoreAt(document, sentence, score.value, pos, start, end);
  }

  /** Where a sentence is scored. */
  lemma WhereScored(document: Text, sentence: Text, score: nat) returns (pos: nat, start: nat, end: nat)
    requires IsScore(document, sentence, score)
    ensures FirstAt(document, sentence, pos) && IsPartStart(document, pos, start) && IsPartEnd(document, pos, end)
    ensures score == ScoreOf(|document|, pos, |PartText(document, start, end)|, start)
  {
    hide ScoreOf, FirstAt, Brackets, PartText;
    pos, start, end :| ScoresAt(document, sentence, score, pos, start, end);
    IsScoreAt(document, sentence, score, pos, start, end);
  }

  /** No other number is the score. */
  lemma ScoreUnique(document: Text, sentence: Text, a: nat, b: nat)
    requires IsScore(document, sentence, a) && IsScore(document, sentence, b)
    ensures a == b
  {
    hide IsScore, ScoreOf, FirstAt, PartText, IsPartStart, IsPartEnd;
    var pos, start, end := WhereScored(document, sentence, a);
    var pos', start', end' := WhereScored(document, sentence, b);
    FirstUnique(document, sentence, pos, pos');
    PartUnique(document, pos, start, end, start', end');
  }

  /** In a document of one paragraph, a sentence that occurs earlier scores at least as high. */
  lemma EarlierScoresHigher(document: Text, t: Text, u: Text, pos: nat, a: nat, b: nat)
    requires t != [] && u != [] && forall i :: 0 <= i < |document| ==> document[i] != NEWLINE
    requires FirstAt(document, t, pos) && forall i :: 0 <= i < pos ==> !OccursAt(document, u, i)
    requires IsScore(document, t, a) && IsScore(document, u, b)
    ensures b <= a
  {
    var p := WholeScore(document, t, a);
    var q := WholeScore(document, u, b);
    assert p == pos <= q;
    PositionOrder(document, u, p, q);
  }

  /** A document of one paragraph is its own part. */
  lemma WholeScore(document: Text, t: Text, score: nat) returns (pos: nat)
    requires t != [] && IsScore(document, t, score)
    requires forall i :: 0 <= i < |document| ==> document[i] != NEWLINE
    ensures FirstAt(document, t, pos) && document != []
    ensures score == ScoreOf(|document|, pos, |document|, 0)
  {
    hide IsScore, ScoreOf, OccursAt;
    var start, end;
    pos, start, end := WhereScored(document, t, score);
  }

  lemma PositionOrder(document: Text, u: Text, p: nat, q: nat)
    requires u != [] && OccursAt(document, u, q) && p <= q < |document|
    ensures 0 <= ScoreOf(|document|, q, |document|, 0) <= ScoreOf(|document|, p, |document|, 0)
  {
    var n := |document| as real;
    var x, y := Position(|document|, q), Position(|document|, p);
    QuotientBounds((q + 1) as real, n);
    QuotientBounds((p + 1) as real, n);
    QuotientOrder((p + 1) as real, n, (q + 1) as real / n);
    SquareOrder(x, y);
    FloorOrder(x * x, y * y);
  }

  lemma SquareOrder(x: real, y: real)
    requires 0.0 <= x <= y
    ensures 0.0 <= x * x <= y * y
  {
  }

  lemma FloorOrder(x: real, y: real)
    requires 0.0 <= x <= y
    ensures 0 <= (x * SCALE as real).Floor <= (y * SCALE as real).Floor
  {
  }
}
