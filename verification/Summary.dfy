/** The summary of a document: the sentences that the last ranks point at. */
module Summary {
  import opened Wrappers
  import opened Tokeniser
  import opened Lists
  import opened Ranking
  import opened Scoring

  const MAX_SENTENCES := 10

  // ---------- what is selected ----------

  /** The slots that the last `count` ranks write: rank entry `k` selects sentence `k - 1`, if there is one. */
  ghost function Slots(ranking: Scores, n: nat, count: nat): (slots: set<nat>)
    requires count <= |ranking|
    ensures |slots| <= count && forall x :: x in slots ==> x < n
  {
    if count == 0 then {}
    else
      var k := ranking[|ranking| - count].index;
      Slots(ranking, n, count - 1) + if 1 <= k <= n then {k - 1} else {}
  }

  ghost function Chosen(ranking: Scores, n: nat): set<nat> {
    Slots(ranking, n, if |ranking| < MAX_SENTENCES then |ranking| else MAX_SENTENCES)
  }

  /** Every slot written is one of the as many slots as there are ranks. */
  ghost predicate InRange(ranking: Scores, n: nat) {
    forall x :: x in Chosen(ranking, n) ==> x < |ranking|
  }

  /** The slots below `n`, ascending. */
  ghost function Positions(n: nat, slots: set<nat>): (r: seq<nat>)
    ensures forall i :: 0 <= i < |r| ==> r[i] < n && r[i] in slots
  {
    if n == 0 then [] else Positions(n - 1, slots) + if n - 1 in slots then [n - 1] else []
  }

  lemma {:induction false} PositionsFacts(n: nat, slots: set<nat>)
    ensures Increasing(Positions(n, slots)) && forall x: nat :: x in Positions(n, slots) <==> x < n && x in slots
  {
    if n > 0 {
      PositionsFacts(n - 1, slots);
    }
  }

  lemma {:induction false} CountPositions(n: nat, slots: set<nat>)
    ensures |Positions(n, slots)| <= |slots|
  {
    if n > 0 {
      if n - 1 in slots {
        CountPositions(n - 1, slots - {n - 1});
        SamePositions(n - 1, slots, slots - {n - 1});
      } else {
        CountPositions(n - 1, slots);
      }
    }
  }

  lemma {:induction false} SamePositions(n: nat, a: set<nat>, b: set<nat>)
    requires forall x :: x < n ==> (x in a <==> x in b)
    ensures Positions(n, a) == Positions(n, b)
  {
    if n > 0 {
      SamePositions(n - 1, a, b);
    }
  }

  ghost function Pick<T>(s: seq<T>, positions: seq<nat>): seq<T>
    requires forall i :: 0 <= i < |positions| ==> positions[i] < |s|
  {
    seq(|positions|, i requires 0 <= i < |positions| => s[positions[i]])
  }

  ghost function SummaryOf(sentences: seq<Text>, ranking: Scores): seq<Text> {
    Pick(sentences, Positions(|sentences|, Chosen(ranking, |sentences|)))
  }

  lemma {:induction false} SlotsExact(ranking: Scores, n: nat, count: nat, x: nat)
    requires count <= |ranking|
    ensures x in Slots(ranking, n, count) <==>
      x < n && exists r :: |ranking| - count <= r < |ranking| && ranking[r].index == x + 1
  {
    if count > 0 {
      SlotsExact(ranking, n, count - 1, x);
      var k := ranking[|ranking| - count].index;
    }
  }

  /** More ranks write more slots. */
  lemma {:induction false} SlotsGrow(ranking: Scores, n: nat, count: nat)
    requires count <= |ranking| && count <= MAX_SENTENCES
    ensures Slots(ranking, n, count) <= Chosen(ranking, n)
  {
    var most := if |ranking| < MAX_SENTENCES then |ranking| else MAX_SENTENCES;
    forall x | x in Slots(ranking, n, count)
      ensures x in Slots(ranking, n, most)
    {
      SlotsExact(ranking, n, count, x);
      SlotsExact(ranking, n, most, x);
    }
  }

  /** Beyond the largest slot there are no more positions. */
  lemma {:induction false} PositionsEnd(n: nat, m: nat, slots: set<nat>)
    requires n <= m && forall x :: x in slots ==> x < n
    ensures Positions(m, slots) == Positions(n, slots)
  {
    if n < m {
      PositionsEnd(n, m - 1, slots);
    }
  }

  // ---------- the selection ----------

  /** The inner loop: copies the sentence that `index` counts from one into its slot; not `ok` if that slot
      does not exist. */
  method CopySentence(sentences: List<Text>, index: nat, summar: array<Option<Text>>) returns (ok: bool)
    requires sentences.Valid() && sentences.Iterable() && summar !in sentences.Repr
    modifies summar
    ensures ok <==> (1 <= index <= |sentences.contents| ==> index - 1 < summar.Length)
    ensures summar[..] == if ok && 1 <= index <= |sentences.contents|
        then old(summar[..])[index - 1 := Some(sentences.contents[index - 1])] else old(summar[..])
  {
    var j := 0;
    var it := sentences.Iterate();
    var more := it.Next();
    while more
      invariant it.Valid() && it.list == sentences && it.first == 0 && fresh(it) && j <= |sentences.contents|
      invariant summar[..] == old(summar[..]) && (index > 0 ==> j <= index - 1)
      invariant if more then it.at == At(j) && j < |sentences.contents| else j == |sentences.contents|
      decreases more, |sentences.contents| - j
    {
      if j == index - 1 {
        if j >= summar.Length {
          return false;
        }
        var sentence := it.Get();
        summar[j] := sentence;
        return true;
      }
      j := j + 1;
      more := it.Next();
    }
    return true;
  }

  ghost predicate Filled(slots: seq<Option<Text>>, sentences: seq<Text>, chosen: set<nat>) {
    forall j :: 0 <= j < |slots| ==>
      slots[j] == if j in chosen && j < |sentences| then Some(sentences[j]) else None
  }

  lemma {:induction false} NothingFilled(slots: seq<Option<Text>>, sentences: seq<Text>, ranking: Scores)
    requires forall j :: 0 <= j < |slots| ==> slots[j] == None
    ensures Filled(slots, sentences, Slots(ranking, |sentences|, 0)) && SlotsExist(ranking, |sentences|, 0)
  {
  }

  /** One more rank fills its slot. */
  lemma {:induction false} FillOne(slots: seq<Option<Text>>, sentences: seq<Text>, ranking: Scores, i: nat)
    requires i < |ranking| == |slots| && i < MAX_SENTENCES
    requires Filled(slots, sentences, Slots(ranking, |sentences|, i))
    ensures var k := ranking[|ranking| - 1 - i].index;
      if 1 <= k <= |sentences| then
        if k - 1 < |slots| then
          Filled(slots[k - 1 := Some(sentences[k - 1])], sentences, Slots(ranking, |sentences|, i + 1))
        else !InRange(ranking, |sentences|)
      else Filled(slots, sentences, Slots(ranking, |sentences|, i + 1))
    ensures forall x :: x in Slots(ranking, |sentences|, i + 1) ==>
      x in Slots(ranking, |sentences|, i) || x == ranking[|ranking| - 1 - i].index - 1
  {
    hide Slots, Chosen;
    SlotsGrow(ranking, |sentences|, i + 1);
    SlotsNext(ranking, |sentences|, i);
  }

  lemma {:induction false} SlotsNext(ranking: Scores, n: nat, i: nat)
    requires i < |ranking|
    ensures var k := ranking[|ranking| - 1 - i].index;
      Slots(ranking, n, i + 1) == Slots(ranking, n, i) + if 1 <= k <= n then {k - 1} else {}
  {
  }

  /** The slots written so far all exist. */
  ghost predicate SlotsExist(ranking: Scores, n: nat, count: nat)
    requires count <= |ranking|
  {
    forall x :: x in Slots(ranking, n, count) ==> x < |ranking|
  }

  lemma {:induction false} MoreSlotsExist(ranking: Scores, n: nat, i: nat)
    requires i < |ranking| && SlotsExist(ranking, n, i)
    requires var k := ranking[|ranking| - 1 - i].index; 1 <= k <= n ==> k - 1 < |ranking|
    ensures SlotsExist(ranking, n, i + 1)
  {
    SlotsNext(ranking, n, i);
  }

  /** The ranking from its end, at most ten entries; not `ok` at the first slot that does not exist. */
  method FillSlots(sentences: List<Text>, ranking: List<Scored>, summar: array<Option<Text>>) returns (ok: bool)
    requires sentences.Valid() && sentences.Iterable() && summar !in sentences.Repr
    requires ranking.Valid() && ranking.Iterable() && summar !in ranking.Repr
    requires summar.Length == |ranking.contents| && forall j :: 0 <= j < summar.Length ==> summar[j] == None
    modifies summar
    ensures ok <==> InRange(ranking.contents, |sentences.contents|)
    ensures ok ==> Filled(summar[..], sentences.contents, Chosen(ranking.contents, |sentences.contents|))
  {
    hide List.Valid, Iterator.Valid, List.LinkAt, List.Iterable, Filled, Slots, InRange, SlotsExist;
    ghost var n, ranks := |sentences.contents|, ranking.contents;
    ghost var frames := (sentences.Repr, ranking.Repr);
    NothingFilled(summar[..], sentences.contents, ranks);
    var i := 0;
    var it := ranking.IterateBack();
    var more := it.Prev();
    while more && i < MAX_SENTENCES
      invariant it.Valid() && it.list == ranking && fresh(it) && i <= |ranks| && i <= MAX_SENTENCES
      invariant sentences.Valid() && summar !in sentences.Repr && summar !in ranking.Repr
      invariant if more then i < |ranks| && it.at == At(|ranks| - 1 - i) else i == |ranks|
      invariant Filled(summar[..], sentences.contents, Slots(ranks, n, i)) && SlotsExist(ranks, n, i)
      decreases more, |ranks| - i
    {
      var rank := it.Get();
      FillOne(summar[..], sentences.contents, ranks, i);
      ok := CopySentence(sentences, rank.value.index, summar);
      if !ok {
        return false;
      }
      MoreSlotsExist(ranks, n, i);
      i := i + 1;
      more := it.Prev();
    }
    AllSlotsExist(ranks, n, i);
    return true;
  }

  lemma {:induction false} AllSlotsExist(ranking: Scores, n: nat, count: nat)
    requires count <= |ranking| && SlotsExist(ranking, n, count)
    requires count == if |ranking| < MAX_SENTENCES then |ranking| else MAX_SENTENCES
    ensures InRange(ranking, n)
  {
  }

  /** The slots that are filled, in order. */
  method Collect(sentences: List<Text>, summar: array<Option<Text>>, size: nat, ghost chosen: set<nat>)
    returns (summary: List<Text>)
    requires summar.Length == size && Filled(summar[..], sentences.contents, chosen)
    requires forall x :: x in chosen ==> x < size && x < |sentences.contents|
    ensures summary.Valid() && fresh(summary.Repr)
    ensures summary.contents == Pick(sentences.contents, Positions(|sentences.contents|, chosen))
  {
    hide List.Valid;
    ghost var all := sentences.contents;
    summary := new List();
    for i := 0 to size
      invariant summary.Valid() && fresh(summary.Repr) && sentences.contents == all
      invariant Filled(summar[..], all, chosen) && summary.contents == Pick(all, Positions(i, chosen))
    {
      if summar[i] != None {
        var _ := summary.PushBack(summar[i].value);
      }
    }
    var least := if size < |all| then size else |all|;
    PositionsEnd(least, size, chosen);
    PositionsEnd(least, |all|, chosen);
  }

  /** The summary: slots are filled from the end of the ranking and read from the front. There is none if a
      slot to be written does not exist; the code writes outside its array then. */
  method Summarise(sentences: List<Text>, ranking: List<Scored>) returns (summary: Option<List<Text>>)
    requires sentences.Valid() && sentences.Iterable() && ranking.Valid() && ranking.Iterable()
    ensures summary.Some? <==> InRange(ranking.contents, |sentences.contents|)
    ensures summary.Some? ==>
      && summary.value.Valid() && fresh(summary.value.Repr)
      && IsSummary(summary.value.contents, sentences.contents, ranking.contents)
  {
    hide Slots, IsSummary;
    var summar := new Option<Text>[ranking.size](_ => None);
    var ok := FillSlots(sentences, ranking, summar);
    if !ok {
      return None;
    }
    var list := Collect(sentences, summar, ranking.size, Chosen(ranking.contents, |sentences.contents|));
    SummaryIsSubsequence(sentences.contents, ranking.contents);
    return Some(list);
  }

  // ---------- the summary of a document ----------

  /** The sentences of a document. */
  method Sentences(document: Text) returns (sentences: List<Text>)
    ensures sentences.Valid() && sentences.Iterable() && fresh(sentences.Repr)
    ensures sentences.contents == Tokens(document, SENTENCE_DELIMITERS)
  {
    hide Runs, List.Valid;
    sentences := new List();
    ghost var done: seq<Run> := [];
    var run, pos := Strtok(document, SENTENCE_DELIMITERS, 0);
    while run != None
      invariant pos <= |document| && (run.Some? ==> run.value.start <= run.value.end <= |document|)
      invariant Runs(document, SENTENCE_DELIMITERS, 0) == done + Pending(document, SENTENCE_DELIMITERS, run, pos)
      invariant sentences.Valid() && sentences.Iterable() && fresh(sentences.Repr)
      invariant sentences.contents == TokensOf(document, done)
      decreases run.Some?, |document| - pos
    {
      var _ := sentences.PushBack(document[run.value.start..run.value.end]);
      done := done + [run.value];
      run, pos := Strtok(document, SENTENCE_DELIMITERS, pos);
    }
    assert done + [] == done;
  }

  ghost predicate AreScores(document: Text, sentences: seq<Text>, scores: Scores) {
    && |scores| == |sentences| && Numbered(scores)
    && forall i :: 0 <= i < |scores| ==> IsScore(document, sentences[i], scores[i].score)
  }

  /** What `strtok` splits off: non-empty pieces of the document. */
  ghost predicate SplitOff(document: Text, sentences: seq<Text>) {
    forall i :: 0 <= i < |sentences| ==> sentences[i] != [] && Occurs(document, sentences[i])
  }

  ghost predicate Scorable(sentences: seq<Text>) {
    forall i :: 0 <= i < |sentences| ==> NoInnerNewline(sentences[i])
  }

  /** Scores every sentence, with its position; there are no scores if a sentence has an inner newline. */
  method SentenceScores(document: Text, sentences: List<Text>) returns (scores: Option<List<Scored>>)
    requires sentences.Valid() && sentences.Iterable() && SplitOff(document, sentences.contents)
    ensures scores.Some? <==> Scorable(sentences.contents)
    ensures scores.Some? ==>
      && scores.value.Valid() && scores.value.Iterable() && fresh(scores.value.Repr)
      && AreScores(document, sentences.contents, scores.value.contents)
  {
    hide List.Valid, Iterator.Valid, IsScore, Occurs, NoInnerNewline;
    ghost var all := sentences.contents;
    var list := new List();
    var i := 0;
    var it := sentences.Iterate();
    var more := it.Next();
    while more
      invariant it.Valid() && it.list == sentences && it.first == 0 && fresh(it) && sentences.contents == all
      invariant list.Valid() && list.Iterable() && fresh(list.Repr) && it !in list.Repr && i <= |all|
      invariant if more then it.at == At(i) && i < |all| else i == |all|
      invariant AreScores(document, all[..i], list.contents) && Scorable(all[..i])
      decreases more, |all| - i
    {
      var sentence := it.Get();
      var score := DefineScore(document, sentence.value);
      if score == None {
        return None;
      }
      var _ := list.PushBack(Scored(score.value, i));
      i := i + 1;
      more := it.Next();
    }
    assert all[..i] == all;
    return Some(list);
  }

  datatype Outcome = Summary(list: List<Text>) | NoScore | NoSlot

  /** A document is summarised, unless a sentence has no score or a slot is missing. */
  method SummariseDocument(document: Text) returns (outcome: Outcome, ghost scores: Scores)
    ensures outcome.NoScore? <==> !Scorable(Tokens(document, SENTENCE_DELIMITERS))
    ensures !outcome.NoScore? ==>
      && AreScores(document, Tokens(document, SENTENCE_DELIMITERS), scores)
      && (outcome.Summary? <==> SlotsSuffice(scores))
    ensures outcome.Summary? ==>
      && outcome.list.Valid() && fresh(outcome.list.Repr)
      && IsSummary(outcome.list.contents, Tokens(document, SENTENCE_DELIMITERS), Ranked(scores))
  {
    hide List.Valid, Tokens, Ranked, InRange, IsScore, Scorable, SlotsSuffice, IsSummary;
    scores := [];
    TokensSplitOff(document);
    var sentences := Sentences(document);
    var sentenceScores := SentenceScores(document, sentences);
    if sentenceScores == None {
      return NoScore, scores;
    }
    scores := sentenceScores.value.contents;
    SlotsSufficeIff(scores);
    var sorted := Sort(sentenceScores.value);
    var summary := Summarise(sentences, sorted);
    if summary == None {
      return NoSlot, scores;
    }
    return Summary(summary.value), scores;
  }

  lemma {:induction false} TokensSplitOff(document: Text)
    ensures SplitOff(document, Tokens(document, SENTENCE_DELIMITERS))
  {
    hide Occurs, Tokens;
    forall i | 0 <= i < |Tokens(document, SENTENCE_DELIMITERS)|
      ensures var t := Tokens(document, SENTENCE_DELIMITERS)[i]; t != [] && Occurs(document, t)
    {
      TokensAreRuns(document, SENTENCE_DELIMITERS, i);
    }
  }

  // ---------- what the summary is ----------

  /** Some rank among the last ten points at position `k`. */
  ghost predicate InLastRanks(ranking: Scores, k: nat) {
    exists r :: 0 <= r < |ranking| && |ranking| - 10 <= r && ranking[r].index == k
  }

  /** The positions are those of the sentences in front of the positions that the last ten ranks point at. */
  ghost predicate OfLastRanks(positions: seq<nat>, n: nat, ranking: Scores) {
    forall x: nat :: x in positions <==> x < n && InLastRanks(ranking, x + 1)
  }

  /** At most ten sentences, each once, in document order: the one at `x` exactly when one of the last ten ranks points
      at the sentence after it. */
  ghost predicate IsSummary(summary: seq<Text>, sentences: seq<Text>, ranking: Scores) {
    && |summary| <= 10
    && exists positions :: Selects(summary, sentences, positions) && OfLastRanks(positions, |sentences|, ranking)
  }

  lemma {:induction false} SummaryIsSubsequence(sentences: seq<Text>, ranking: Scores)
    ensures IsSummary(SummaryOf(sentences, ranking), sentences, ranking)
  {
    hide Positions, Increasing, InLastRanks, Chosen;
    var positions := Positions(|sentences|, Chosen(ranking, |sentences|));
    ChosenFew(ranking, |sentences|);
    CountPositions(|sentences|, Chosen(ranking, |sentences|));
    PositionsFacts(|sentences|, Chosen(ranking, |sentences|));
    forall x: nat
      ensures x in Chosen(ranking, |sentences|) <==> x < |sentences| && InLastRanks(ranking, x + 1)
    {
      ChosenExact(ranking, |sentences|, x);
    }
    assert Selects(SummaryOf(sentences, ranking), sentences, positions);
    assert OfLastRanks(positions, |sentences|, ranking);
  }

  lemma {:induction false} ChosenFew(ranking: Scores, n: nat)
    ensures |Chosen(ranking, n)| <= 10
  {
  }

  lemma {:induction false} ChosenExact(ranking: Scores, n: nat, x: nat)
    ensures x in Chosen(ranking, n) <==> x < n && InLastRanks(ranking, x + 1)
  {
    SlotsExact(ranking, n, if |ranking| < MAX_SENTENCES then |ranking| else MAX_SENTENCES, x);
  }

  // ---------- when the slots suffice ----------

  /** The kept scores that rank behind `y`. */
  ghost function Outranking(y: Scored, kept: Scores): set<Scored> {
    set z | z in kept && Precedes(y, z)
  }

  /** What the scores must satisfy. With ten or more kept scores and the last score in front of them, the last
      ten ranks are kept scores, and only those count; otherwise the last score itself is among the last ten
      ranks, and at most one other score may be dropped. */
  ghost predicate SlotsSuffice(s: Scores) {
    |s| >= 2 ==>
      var kept, last := Kept(s[..|s|-1], s[0].score), s[|s|-1];
      if |kept| >= MAX_SENTENCES && forall x :: x in kept ==> last.score <= x.score then
        forall x :: x in kept && |Outranking(x, kept)| < MAX_SENTENCES ==> x.index <= |kept| + 1
      else
        |kept| >= |s| - 2
  }

  /** In an ascending list of distinct scores, those that outrank one are those behind it. */
  lemma {:induction false} OutrankingBehind(body: Scores, kept: Scores, p: nat)
    requires Ascending(body) && p < |body| && forall x :: x in kept <==> x in body
    ensures |Outranking(body[p], kept)| == |body| - 1 - p
  {
    var behind := body[p + 1..];
    forall q | 0 <= q < p
      ensures !Precedes(body[p], body[q])
    {
      assert Precedes(body[q], body[p]);
    }
    forall x
      ensures x in Outranking(body[p], kept) <==> x in behind
    {
      if x in Outranking(body[p], kept) {
        var q :| 0 <= q < |body| && body[q] == x;
        assert x == behind[q - p - 1];
      }
      if x in behind {
        var q :| 0 <= q < |behind| && behind[q] == x;
        assert Precedes(body[p], body[p + 1 + q]);
      }
    }
    DistinctSize(behind);
    assert Outranking(body[p], kept) == set x | x in behind;
  }

  lemma {:induction false} DistinctSize(s: Scores)
    requires Ascending(s)
    ensures |set x | x in s| == |s|
  {
    if s != [] {
      var rest, last := s[..|s|-1], s[|s|-1];
      DistinctSize(rest);
      forall i | 0 <= i < |rest|
        ensures rest[i] != last
      {
        assert Precedes(s[i], s[|rest|]);
      }
      assert (set x | x in s) == (set x | x in rest) + {last};
    }
  }

  /** The facts about a ranking that decide which slots are written. */
  lemma {:induction false} RankingFacts(s: Scores)
    requires Numbered(s) && |s| >= 2
    ensures var body, kept, last := Inserted(s[..|s|-1]), Kept(s[..|s|-1], s[0].score), s[|s|-1];
      && body != [] && Ascending(body) && |body| == |kept| <= |s| - 1 && (forall x :: x in kept <==> x in body)
      && (forall i :: 0 <= i < |body| ==> body[i].index < |s| - 1)
      && ((forall x :: x in kept ==> last.score <= x.score) <==> last.score <= body[0].score)
      && Ranked(s) == if last.score <= body[0].score then [last] + body else body + [last]
  {
    hide Inserted, Kept, Ascending, Insert;
    var rest := s[..|s|-1];
    InsertedFacts(rest);
    ClosedForm(s);
    KeptAll(rest, s[0].score);
    BodyBounds(Inserted(rest));
    SameElements(Inserted(rest), Kept(rest, s[0].score));
    assert Inserted(rest)[0] in Inserted(rest);
  }

  lemma {:induction false} SameElements(a: Scores, b: Scores)
    requires multiset(a) == multiset(b)
    ensures |a| == |b| && forall x :: x in a <==> x in b
  {
    assert |multiset(a)| == |multiset(b)|;
    assert forall x :: x in a <==> x in multiset(a);
  }

  /** The last score in front of ten or more: only kept scores are among the last ten ranks. */
  lemma {:induction false} FrontSuffices(s: Scores, r: Scores, body: Scores, kept: Scores)
    requires |s| >= 2 && r == [s[|s|-1]] + body && |body| == |kept| >= MAX_SENTENCES
    requires Ascending(body) && (forall x :: x in kept <==> x in body)
    requires forall i :: 0 <= i < |body| ==> body[i].index < |s| - 1
    ensures InRange(r, |s|) <==>
      forall x :: x in kept && |Outranking(x, kept)| < MAX_SENTENCES ==> x.index <= |kept| + 1
  {
    hide Ascending, Outranking, Chosen;
    var m := |body|;
    if InRange(r, |s|) {
      forall x | x in kept && |Outranking(x, kept)| < MAX_SENTENCES
        ensures x.index <= |kept| + 1
      {
        var p :| 0 <= p < m && body[p] == x;
        OutrankingBehind(body, kept, p);
        assert r[p + 1] == x;
        if x.index > 0 {
          ChosenExact(r, |s|, x.index - 1);
        }
      }
    }
    if forall x :: x in kept && |Outranking(x, kept)| < MAX_SENTENCES ==> x.index <= |kept| + 1 {
      forall y | y in Chosen(r, |s|)
        ensures y < |r|
      {
        ChosenExact(r, |s|, y);
        var q :| 0 <= q < |r| && |r| - MAX_SENTENCES <= q && r[q].index == y + 1;
        OutrankingBehind(body, kept, q - 1);
        assert body[q - 1] in body;
      }
    }
  }

  /** The last score among the last ten ranks: its slot is the last but one, and no slot is beyond it. */
  lemma {:induction false} LastSuffices(s: Scores, r: Scores, q: nat)
    requires Numbered(s) && |s| >= 2 && q < |r| && |r| - MAX_SENTENCES <= q && r[q] == s[|s|-1]
    requires forall i :: 0 <= i < |r| ==> r[i].index <= |s| - 1
    ensures InRange(r, |s|) <==> |r| >= |s| - 1
  {
    hide Chosen;
    ChosenExact(r, |s|, |s| - 2);
    assert r[q].index == |s| - 2 + 1;
    if |r| >= |s| - 1 {
      forall y | y in Chosen(r, |s|)
        ensures y < |r|
      {
        ChosenExact(r, |s|, y);
      }
    }
  }

  lemma {:induction false} RankingSuffices(s: Scores, r: Scores, body: Scores, kept: Scores)
    requires Numbered(s) && |s| >= 2 && body != [] && Ascending(body) && |body| == |kept|
    requires (forall x :: x in kept <==> x in body) && forall i :: 0 <= i < |body| ==> body[i].index < |s| - 1
    requires r == if s[|s|-1].score <= body[0].score then [s[|s|-1]] + body else body + [s[|s|-1]]
    ensures InRange(r, |s|) <==>
      if |kept| >= MAX_SENTENCES && s[|s|-1].score <= body[0].score then
        forall x :: x in kept && |Outranking(x, kept)| < MAX_SENTENCES ==> x.index <= |kept| + 1
      else
        |kept| >= |s| - 2
  {
    hide Ascending, InRange, Numbered, Outranking;
    LastIndex(s);
    if s[|s|-1].score > body[0].score {
      LastSuffices(s, r, |body|);
    } else if |kept| >= MAX_SENTENCES {
      FrontSuffices(s, r, body, kept);
    } else {
      LastSuffices(s, r, 0);
    }
  }

  /** Every slot that the summary writes exists if and only if the scores satisfy this. */
  lemma {:induction false} SlotsSufficeIff(s: Scores)
    requires Numbered(s)
    ensures InRange(Ranked(s), |s|) <==> SlotsSuffice(s)
  {
    hide Inserted, Kept, Ascending, Ranked, InRange, Numbered, Outranking, SlotsSuffice;
    if |s| < 2 {
      ShortFits(s);
    } else {
      RankingFacts(s);
      SlotsSufficeCases(s);
      RankingSuffices(s, Ranked(s), Inserted(s[..|s|-1]), Kept(s[..|s|-1], s[0].score));
    }
  }

  lemma {:induction false} SlotsSufficeCases(s: Scores)
    requires |s| >= 2
    ensures var kept, last := Kept(s[..|s|-1], s[0].score), s[|s|-1];
      if |kept| >= MAX_SENTENCES && forall x :: x in kept ==> last.score <= x.score then
        SlotsSuffice(s) <==> forall x :: x in kept && |Outranking(x, kept)| < MAX_SENTENCES ==> x.index <= |kept| + 1
      else
        SlotsSuffice(s) <==> |kept| >= |s| - 2
  {
    hide Kept, Outranking;
  }

  lemma {:induction false} LastIndex(s: Scores)
    requires Numbered(s) && s != []
    ensures s[|s|-1].index == |s| - 1
  {
  }

  lemma {:induction false} ShortFits(s: Scores)
    requires Numbered(s) && |s| < 2
    ensures InRange(Ranked(s), |s|) && SlotsSuffice(s)
  {
    forall y | y in Chosen(s, |s|)
      ensures false
    {
      ChosenExact(s, |s|, y);
    }
  }

  /** In particular they exist when the sort drops nothing; the last sentence is never selected then. */
  lemma {:induction false} KeptScoresFit(s: Scores)
    requires Numbered(s) && forall j :: 0 <= j < |s| - 1 ==> s[j].score <= s[0].score
    ensures |Ranked(s)| == |s| && InRange(Ranked(s), |s|) && |s| - 1 !in Chosen(Ranked(s), |s|)
  {
    var r := Ranked(s);
    if |s| >= 2 {
      PermutationIff(s);
    }
    SameElements(r, s);
    forall x | x in Chosen(r, |s|)
      ensures x < |s| - 1
    {
      ChosenExact(r, |s|, x);
      var k :| 0 <= k < |r| && r[k].index == x + 1;
      assert r[k] in s;
    }
  }

  /** A document of one paragraph can always be summarised: its first sentence scores highest. */
  lemma {:induction false} OneParagraph(document: Text, scores: Scores)
    requires forall i :: 0 <= i < |document| ==> document[i] != NEWLINE
    requires AreScores(document, Tokens(document, SENTENCE_DELIMITERS), scores)
    ensures Scorable(Tokens(document, SENTENCE_DELIMITERS)) && SlotsSuffice(scores)
  {
    hide SlotsSuffice, InRange, Ranked, IsScore, Runs, Occurs, FirstAt;
    var sentences := Tokens(document, SENTENCE_DELIMITERS);
    PiecesScorable(document);
    TokensSplitOff(document);
    forall j | 0 <= j < |scores|
      ensures scores[j].score <= scores[0].score
    {
      FirstSentence(document, j);
      EarlierScoresHigher(document, sentences[0], sentences[j],
        Runs(document, SENTENCE_DELIMITERS, 0)[0].start, scores[0].score, scores[j].score);
    }
    KeptScoresFit(scores);
    SlotsSufficeIff(scores);
  }

  lemma {:induction false} PiecesScorable(document: Text)
    requires forall i :: 0 <= i < |document| ==> document[i] != NEWLINE
    ensures Scorable(Tokens(document, SENTENCE_DELIMITERS))
  {
    hide Tokens;
    var ts := Tokens(document, SENTENCE_DELIMITERS);
    forall i, k | 0 <= i < |ts| && 0 <= k < |ts[i]|
      ensures ts[i][k] != NEWLINE
    {
      var t := ts[i];
      TokensAreRuns(document, SENTENCE_DELIMITERS, i);
      var at :| 0 <= at <= |document| && OccursAt(document, t, at);
      assert t[k] == document[at..at + |t|][k] == document[at + k];
    }
  }

  /** The first sentence occurs where it was split off, and no other sentence occurs before it. */
  lemma FirstSentence(document: Text, j: nat)
    requires j < |Tokens(document, SENTENCE_DELIMITERS)|
    ensures var sentences := Tokens(document, SENTENCE_DELIMITERS);
      var start := Runs(document, SENTENCE_DELIMITERS, 0)[0].start;
      FirstAt(document, sentences[0], start) && forall i :: 0 <= i < start ==> !OccursAt(document, sentences[j], i)
  {
    var sentences := Tokens(document, SENTENCE_DELIMITERS);
    var run := Runs(document, SENTENCE_DELIMITERS, 0)[0];
    TokensAreRuns(document, SENTENCE_DELIMITERS, 0);
    TokensAreRuns(document, SENTENCE_DELIMITERS, j);
    forall i: nat, k | k in {0, j} && OccursAt(document, sentences[k], i)
      ensures i >= run.start
    {
      OccursHead(document, sentences[k], i);
    }
  }

  lemma OccursHead(s: Text, t: Text, i: nat)
    requires t != [] && OccursAt(s, t, i)
    ensures i < |s| && s[i] == t[0]
  {
  }

  // ---------- a document without enough slots ----------

  /** "a", newline, dot, newline, dot, newline, dot, "a" */
  const OVERRUN: Text := [97, 10, 46, 10, 46, 10, 46, 97]

  const LINE_A: Text := [97, 10]
  const LINE: Text := [10]
  const LETTER: Text := [97]

  lemma OverrunSentences()
    ensures Tokens(OVERRUN, SENTENCE_DELIMITERS) == [LINE_A, LINE, LINE, LETTER]
  {
    hide Runs, Scan;
    OneSentence(0, 2);
    OneSentence(3, 4);
    OneSentence(5, 6);
    OneSentence(7, 8);
    ScanIs(OVERRUN, SENTENCE_DELIMITERS, 8, false, 8);
    RunsHead(OVERRUN, SENTENCE_DELIMITERS, 8);
    assert Runs(OVERRUN, SENTENCE_DELIMITERS, 0) == [Run(0, 2), Run(3, 4), Run(5, 6), Run(7, 8)];
    assert OVERRUN[0..2] == LINE_A && OVERRUN[3..4] == LINE && OVERRUN[5..6] == LINE && OVERRUN[7..8] == LETTER;
  }

  lemma OneSentence(a: nat, b: nat)
    requires (a, b) in {(0, 2), (3, 4), (5, 6), (7, 8)}
    ensures Runs(OVERRUN, SENTENCE_DELIMITERS, a)
         == [Run(a, b)] + Runs(OVERRUN, SENTENCE_DELIMITERS, if b == 8 then 8 else b + 1)
  {
    hide Runs, Scan;
    ScanIs(OVERRUN, SENTENCE_DELIMITERS, a, false, a);
    ScanIs(OVERRUN, SENTENCE_DELIMITERS, a, true, b);
    RunsHead(OVERRUN, SENTENCE_DELIMITERS, a);
  }

  lemma OverrunScores()
    ensures IsScore(OVERRUN, LINE_A, 4375) && IsScore(OVERRUN, LINE, 5000) && IsScore(OVERRUN, LETTER, 4375)
  {
    assert OVERRUN[0..2] == LINE_A && OVERRUN[0..1] == LETTER && OVERRUN[1..2] == LINE;
    assert ScoresAt(OVERRUN, LINE_A, 4375, 0, 0, 1) && ScoresAt(OVERRUN, LETTER, 4375, 0, 0, 1);
    assert ScoresAt(OVERRUN, LINE, 5000, 1, 1, 3);
  }

  /** Its four sentences score 4375, 5000, 5000 and 4375. The sort keeps the first and the last, and the first
      rank points at the third slot of two. */
  lemma {:induction false} DocumentOverrun(scores: Scores)
    requires AreScores(OVERRUN, Tokens(OVERRUN, SENTENCE_DELIMITERS), scores)
    ensures scores == [Scored(4375, 0), Scored(5000, 1), Scored(5000, 2), Scored(4375, 3)]
    ensures Ranked(scores) == [Scored(4375, 3), Scored(4375, 0)]
    ensures Scorable(Tokens(OVERRUN, SENTENCE_DELIMITERS)) && !InRange(Ranked(scores), |scores|)
  {
    hide IsScore, InRange, Ranked, Tokens;
    OverrunSentences();
    OverrunScores();
    ScoreUnique(OVERRUN, LINE_A, scores[0].score, 4375);
    ScoreUnique(OVERRUN, LINE, scores[1].score, 5000);
    ScoreUnique(OVERRUN, LINE, scores[2].score, 5000);
    ScoreUnique(OVERRUN, LETTER, scores[3].score, 4375);
    OverrunRanking(scores);
  }

  lemma {:induction false} OverrunRanking(s: Scores)
    requires s == [Scored(4375, 0), Scored(5000, 1), Scored(5000, 2), Scored(4375, 3)]
    ensures Ranked(s) == [Scored(4375, 3), Scored(4375, 0)] && !InRange(Ranked(s), |s|)
  {
    var a, b, c := s[..1], s[..2], s[..3];
    assert a == [s[0]] && b[..1] == a && c[..2] == b;
    InsertDrops(s[1], a);
    InsertDrops(s[2], a);
    assert Inserted(a) == a && Inserted(b) == a && Inserted(c) == a;
    ChosenExact(Ranked(s), 4, 2);
    assert Ranked(s)[0].index == 2 + 1;
  }
}
