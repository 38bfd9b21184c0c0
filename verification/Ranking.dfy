/** Ranking of sentences: the insertion sort over two interleaved iterators. */
module Ranking {
  import opened Lists

  /** A sentence score with the position of the sentence. */
  datatype Scored = Scored(score: nat, index: nat)

  type Scores = seq<Scored>

  // ---------- the closed form ----------

  /** `x` put before the first score that is not below it; dropped if there is none. */
  ghost function Insert(x: Scored, sorted: Scores): Scores {
    if sorted == [] then []
    else if x.score <= sorted[0].score then [x] + sorted
    else [sorted[0]] + Insert(x, sorted[1..])
  }

  /** The first score, with the others inserted one after the other. */
  ghost function Inserted(s: Scores): Scores
    requires s != []
  {
    if |s| == 1 then s else Insert(s[|s|-1], Inserted(s[..|s|-1]))
  }

  /** The last score goes to the front if it is at most the least score so far, and to the back otherwise. */
  ghost function Place(x: Scored, sorted: Scores): Scores
    requires sorted != []
  {
    if x.score <= sorted[0].score then [x] + sorted else sorted + [x]
  }

  ghost function Ranked(s: Scores): Scores {
    if |s| < 2 then s
    else
      InsertedNonEmpty(s[..|s|-1]);
      Place(s[|s|-1], Inserted(s[..|s|-1]))
  }

  lemma {:induction false} InsertedNonEmpty(s: Scores)
    requires s != []
    ensures Inserted(s) != []
  {
    if |s| > 1 {
      InsertedNonEmpty(s[..|s|-1]);
    }
  }

  // ---------- the sort ----------

  /** Whether a score follows the one at the iterator; if none does, the iterator moves to the sentinel. */
  method StepOver(it: Iterator<Scored>) returns (more: bool)
    requires it.Valid() && it.at.At? && it.at.pos < |it.list.contents|
    modifies it
    ensures it.Valid() && (more <==> old(it.at.pos) < |it.list.contents| - 1)
    ensures it.at == if more then old(it.at) else At(|it.list.contents|)
  {
    hide Iterator.Valid;
    more := it.Next();
    if more {
      var _ := it.Prev();
    }
  }

  /** Compares with the sorted scores from the front: stops at the first that is not below `x`, or after
      the first comparison if no score follows the one at `it`. */
  method FindPlace(it: Iterator<Scored>, sorted: List<Scored>, x: Scored)
    returns (node: Link?<Scored>, atEnd: bool, ghost i: nat)
    requires it.Valid() && it.at.At? && it.at.pos < |it.list.contents| && it !in sorted.Repr
    requires sorted.Valid() && sorted.contents != []
    modifies it
    ensures it.Valid()
    ensures var last, scores := old(it.at.pos) == |it.list.contents| - 1, sorted.contents;
      if node != null then
        && i < |sorted.links| == |scores| && node == sorted.LinkAt(i) && node in sorted.links && it.at == old(it.at)
        && x.score <= scores[i].score && (last ==> i == 0) && Insert(x, scores) == scores[..i] + [x] + scores[i..]
      else if atEnd then
        last && it.at == At(|it.list.contents|) && x.score > scores[0].score
      else
        !last && it.at == old(it.at) && Insert(x, scores) == scores
  {
    hide List.Valid, Iterator.Valid, List.LinkAt, Insert, Rest;
    ghost var scores, at, frame := sorted.contents, it.at, it.list.Repr;
    var other := sorted.Iterate();
    RestStart(x, scores);
    i := 0;
    while true
      invariant it.Valid() && other.Valid() && other.list == sorted && other.first == 0 && fresh(other) && it.at == at
      invariant other.at == if i == 0 then Unset else At(i - 1)
      invariant i > 0 ==> at.pos < |it.list.contents| - 1 && x.score > scores[0].score
      invariant Rest(x, scores, i) && i <= |scores|
      decreases |scores| - i
    {
      var more := other.Next();
      RestStep(x, scores, i);
      if !more {
        return null, false, i;
      }
      var score := other.Get();
      if x.score <= score.value.score {
        other.Here();
        return other.current, false, i;
      }
      more := StepOver(it);
      if !more {
        return null, true, i;
      }
      i := i + 1;
    }
  }

  /** One pass of the inner loop for the score at `it`. */
  method InsertOne(it: Iterator<Scored>, sorted: List<Scored>)
    requires it.Valid() && it.first == 0 && it.at.At? && 0 < it.at.pos < |it.list.contents|
    requires sorted.Valid() && sorted.contents != [] && {it, it.list} + it.list.Repr !! sorted.Repr
    modifies it, sorted.Repr
    ensures it.Valid() && sorted.Valid() && sorted.Iterable() && fresh(sorted.Repr - old(sorted.Repr))
    ensures var s, p := it.list.contents, old(it.at.pos);
      if p < |s| - 1 then it.at == At(p) && sorted.contents == Insert(s[p], old(sorted.contents))
      else it.at.At? && it.at.pos in {p, p + 1} && sorted.contents == Place(s[p], old(sorted.contents))
  {
    hide List.Valid, Iterator.Valid, List.LinkAt, Insert;
    var score := it.Get();
    var node, atEnd, i := FindPlace(it, sorted, score.value);
    if node != null {
      var _ := sorted.PushFront(node, score.value);
    } else if atEnd {
      var _ := sorted.PushBack(score.value);
    }
  }

  /** Inserting into all the scores is inserting into those not yet seen. */
  ghost predicate Rest(x: Scored, sorted: Scores, seen: nat) {
    seen <= |sorted| && sorted[..seen] + Insert(x, sorted[seen..]) == Insert(x, sorted)
  }

  lemma {:induction false} RestStart(x: Scored, sorted: Scores)
    ensures Rest(x, sorted, 0)
  {
  }

  lemma {:induction false} RestStep(x: Scored, sorted: Scores, seen: nat)
    requires Rest(x, sorted, seen)
    ensures seen == |sorted| ==> Insert(x, sorted) == sorted
    ensures seen < |sorted| && x.score <= sorted[seen].score ==>
      Insert(x, sorted) == sorted[..seen] + [x] + sorted[seen..]
    ensures seen < |sorted| && x.score > sorted[seen].score ==> Rest(x, sorted, seen + 1)
  {
  }

  /** The first score alone, with the iterator at it. */
  method TakeFirst(scores: List<Scored>) returns (sorted: List<Scored>, it: Iterator<Scored>)
    requires scores.Valid() && scores.Iterable()
    ensures it.Valid() && it.list == scores && it.first == 0 && fresh(it) && sorted.Valid() && fresh(sorted.Repr)
    ensures {it, scores} + scores.Repr !! sorted.Repr && sorted.Iterable()
    ensures Progress(scores.contents, it.at, sorted.contents)
  {
    sorted := new List();
    it := scores.Iterate();
    var more := it.Next();
    if more {
      var first := it.Get();
      var _ := sorted.PushBack(first.value);
    }
    assert scores.contents != [] ==> scores.contents[..1] == [scores.contents[0]];
  }

  /** One more score. */
  lemma {:induction false} Unroll(s: Scores, p: nat)
    requires 0 < p < |s|
    ensures Inserted(s[..p]) != []
    ensures Inserted(s[..p + 1]) == Insert(s[p], Inserted(s[..p]))
    ensures p == |s| - 1 ==> Ranked(s) == Place(s[p], Inserted(s[..p]))
  {
    InsertedNonEmpty(s[..p]);
    assert s[..p + 1][..p] == s[..p];
  }

  /** The sort: every score after the first takes one pass of the inner loop; the outer loop ends when
      the iterator reaches the end sentinel, or null behind it after the inner loop stepped on it. */
  method Sort(scores: List<Scored>) returns (sorted: List<Scored>)
    requires scores.Valid() && scores.Iterable()
    ensures sorted.Valid() && sorted.Iterable() && fresh(sorted.Repr)
    ensures sorted.contents == Ranked(scores.contents)
  {
    hide List.Valid, Iterator.Valid, List.LinkAt, Insert, Place, Inserted, Ranked;
    ghost var s := scores.contents;
    var it;
    sorted, it := TakeFirst(scores);
    while true
      invariant it.Valid() && it.list == scores && it.first == 0 && fresh(it) && sorted.Valid() && fresh(sorted.Repr)
      invariant {it, scores} + scores.Repr !! sorted.Repr && scores.contents == s && sorted.Iterable()
      invariant Progress(s, it.at, sorted.contents)
      decreases if s == [] || it.at == Unset then 0 else |s| - it.at.pos
    {
      var more := it.Next();
      it.Here();
      if !more || it.current == null {
        return;
      }
      Unroll(s, it.at.pos);
      InsertOne(it, sorted);
    }
  }

  /** The scores up to the iterator are inserted; those behind the last but one are placed. */
  ghost predicate Progress(s: Scores, c: Cursor, sorted: Scores) {
    if s == [] then c == Unset && sorted == Ranked(s)
    else c.At? && c.pos <= |s| && sorted == if c.pos < |s| - 1 then Inserted(s[..c.pos + 1]) else Ranked(s)
  }

  // ---------- what the ranking is ----------

  /** Scores carry their positions. */
  ghost predicate Numbered(s: Scores) {
    forall i :: 0 <= i < |s| ==> s[i].index == i
  }

  /** Lower scores first; among equal scores the later sentence first. */
  ghost predicate Precedes(a: Scored, b: Scored) {
    a.score < b.score || (a.score == b.score && a.index > b.index)
  }

  ghost predicate Ascending(s: Scores) {
    forall i, j :: 0 <= i < j < |s| ==> Precedes(s[i], s[j])
  }

  /** The scores that are not dropped: those not above the first. */
  ghost function Kept(s: Scores, limit: nat): Scores {
    if s == [] then []
    else Kept(s[..|s|-1], limit) + (if s[|s|-1].score <= limit then [s[|s|-1]] else [])
  }

  lemma {:induction false} AscendingTail(s: Scores)
    requires Ascending(s) && s != []
    ensures Ascending(s[1..]) && forall i :: 0 <= i < |s| ==> s[0].score <= s[i].score
  {
  }

  /** A score above all others is dropped. */
  lemma {:induction false} InsertDrops(x: Scored, sorted: Scores)
    requires sorted != [] && forall i :: 0 <= i < |sorted| ==> sorted[i].score < x.score
    ensures Insert(x, sorted) == sorted
  {
    if |sorted| > 1 {
      InsertDrops(x, sorted[1..]);
    }
  }

  lemma {:induction false} MultisetHead(x: Scored, s: Scores)
    ensures multiset([x] + s) == multiset{x} + multiset(s)
  {
  }

  /** Any other score is added, */
  lemma {:induction false} InsertAdds(x: Scored, sorted: Scores)
    requires sorted != [] && x.score <= sorted[|sorted|-1].score
    ensures multiset(Insert(x, sorted)) == multiset(sorted) + multiset{x}
  {
    if x.score > sorted[0].score {
      var rest := sorted[1..];
      InsertAdds(x, rest);
      MultisetHead(sorted[0], rest);
      MultisetHead(sorted[0], Insert(x, rest));
      assert sorted == [sorted[0]] + rest;
    } else {
      MultisetHead(x, sorted);
    }
  }

  /** and the last one stays last. */
  lemma {:induction false} InsertLast(x: Scored, sorted: Scores)
    requires sorted != [] && x.score <= sorted[|sorted|-1].score
    ensures Insert(x, sorted) != [] && Insert(x, sorted)[|Insert(x, sorted)|-1] == sorted[|sorted|-1]
  {
    if x.score > sorted[0].score {
      InsertLast(x, sorted[1..]);
    }
  }

  ghost predicate PrecedesAll(a: Scored, s: Scores) {
    forall i :: 0 <= i < |s| ==> Precedes(a, s[i])
  }

  lemma {:induction false} InsertBound(a: Scored, x: Scored, sorted: Scores)
    requires PrecedesAll(a, sorted) && Precedes(a, x)
    ensures PrecedesAll(a, Insert(x, sorted))
  {
    if sorted != [] && x.score > sorted[0].score {
      InsertBound(a, x, sorted[1..]);
    }
  }

  lemma {:induction false} InsertSorted(x: Scored, sorted: Scores)
    requires Ascending(sorted) && forall i :: 0 <= i < |sorted| ==> sorted[i].index < x.index
    ensures Ascending(Insert(x, sorted))
  {
    if sorted != [] {
      AscendingTail(sorted);
      if x.score > sorted[0].score {
        var rest := sorted[1..];
        InsertSorted(x, rest);
        InsertBound(sorted[0], x, rest);
      }
    }
  }

  /** Inserting keeps what is not above the first score, in ascending order, ties reversed. */
  lemma {:induction false} InsertedFacts(s: Scores)
    requires s != [] && Numbered(s)
    ensures Inserted(s) != [] && Inserted(s)[|Inserted(s)|-1] == s[0]
    ensures Ascending(Inserted(s)) && multiset(Inserted(s)) == multiset(Kept(s, s[0].score))
    ensures forall i :: 0 <= i < |Inserted(s)| ==> Inserted(s)[i].index < |s|
  {
    if |s| == 1 {
      OneScore(s);
    } else {
      Unfold(s, s[0].score);
      hide Insert, Inserted, Kept, Ascending;
      var rest := s[..|s|-1];
      InsertedFacts(rest);
      InsertedStep(s[|s|-1], Inserted(rest), Kept(rest, s[0].score), Kept(s, s[0].score));
    }
  }

  lemma {:induction false} OneScore(s: Scores)
    requires |s| == 1
    ensures Inserted(s) == s && Kept(s, s[0].score) == s && Ascending(s)
  {
  }

  lemma {:induction false} Unfold(s: Scores, limit: nat)
    requires |s| > 1
    ensures Inserted(s) == Insert(s[|s|-1], Inserted(s[..|s|-1]))
    ensures Kept(s, limit) == Kept(s[..|s|-1], limit) + if s[|s|-1].score <= limit then [s[|s|-1]] else []
  {
  }

  lemma {:induction false} InsertedStep(x: Scored, sorted: Scores, kept: Scores, kept': Scores)
    requires sorted != [] && Ascending(sorted) && multiset(sorted) == multiset(kept)
    requires forall i :: 0 <= i < |sorted| ==> sorted[i].index < x.index
    requires kept' == kept + if x.score <= sorted[|sorted|-1].score then [x] else []
    ensures var r := Insert(x, sorted);
      && r != [] && r[|r|-1] == sorted[|sorted|-1] && Ascending(r) && multiset(r) == multiset(kept')
      && forall i :: 0 <= i < |r| ==> r[i].index <= x.index
  {
    hide Insert;
    if x.score <= sorted[|sorted|-1].score {
      InsertSorted(x, sorted);
      InsertAdds(x, sorted);
      InsertLast(x, sorted);
      var r := Insert(x, sorted);
      forall i | 0 <= i < |r|
        ensures r[i].index <= x.index
      {
        assert r[i] in multiset(r);
      }
    } else {
      BodyBounds(sorted);
      InsertDrops(x, sorted);
      assert kept' == kept;
    }
  }

  /** The ranking of at least two scores: what the sort keeps of all but the last, ascending with ties
      reversed, and the last score in front if it is at most the least of them, else at the back. */
  lemma {:induction false} ClosedForm(s: Scores)
    requires |s| >= 2 && Numbered(s)
    ensures var body, last := Inserted(s[..|s|-1]), s[|s|-1];
      && body != [] && Ascending(body) && multiset(body) == multiset(Kept(s[..|s|-1], s[0].score))
      && Ranked(s) == if last.score <= body[0].score then [last] + body else body + [last]
  {
    InsertedFacts(s[..|s|-1]);
  }

  lemma {:induction false} KeptAll(s: Scores, limit: nat)
    ensures |Kept(s, limit)| <= |s|
    ensures (forall i :: 0 <= i < |s| ==> s[i].score <= limit) ==> Kept(s, limit) == s
    ensures (exists i :: 0 <= i < |s| && s[i].score > limit) ==> |Kept(s, limit)| < |s|
    ensures forall x :: x in Kept(s, limit) <==> x in s && x.score <= limit
  {
    if s != [] {
      KeptAll(s[..|s|-1], limit);
      assert s == s[..|s|-1] + [s[|s|-1]];
    }
  }

  lemma {:induction false} RankedContents(s: Scores)
    requires |s| >= 2 && Numbered(s)
    ensures multiset(Ranked(s)) == multiset(Kept(s[..|s|-1], s[0].score)) + multiset{s[|s|-1]}
  {
    hide Inserted, Kept;
    ClosedForm(s);
  }

  /** Nothing is dropped exactly when no score but the last exceeds the first. */
  lemma {:induction false} PermutationIff(s: Scores)
    requires |s| >= 2 && Numbered(s)
    ensures multiset(Ranked(s)) == multiset(s) <==> forall j :: 0 <= j < |s| - 1 ==> s[j].score <= s[0].score
  {
    hide Ranked, Kept;
    var rest, last := s[..|s|-1], s[|s|-1];
    RankedContents(s);
    KeptAll(rest, s[0].score);
    SameLength(Kept(rest, s[0].score), rest, last);
    assert s == rest + [last];
  }

  /** Adding one element keeps apart what differs in length. */
  lemma {:induction false} SameLength(a: Scores, b: Scores, last: Scored)
    ensures multiset(a) + multiset{last} == multiset(b + [last]) ==> |a| == |b|
    ensures a == b ==> multiset(a) + multiset{last} == multiset(b + [last])
  {
    assert |multiset(a) + multiset{last}| == |a| + 1 && |multiset(b + [last])| == |b| + 1;
  }

  ghost predicate NonDecreasing(s: Scores) {
    forall i, j :: 0 <= i < j < |s| ==> s[i].score <= s[j].score
  }

  /** The ranking is sorted exactly when the last score is at most every kept one or at least the first. */
  lemma {:induction false} SortedIff(s: Scores)
    requires |s| >= 2 && Numbered(s)
    ensures NonDecreasing(Ranked(s)) <==>
      || (forall x :: x in Kept(s[..|s|-1], s[0].score) ==> s[|s|-1].score <= x.score)
      || s[|s|-1].score >= s[0].score
  {
    var last, body := s[|s|-1], Inserted(s[..|s|-1]);
    InsertedFacts(s[..|s|-1]);
    hide Inserted, Kept, Ascending;
    ClosedForm(s);
    BodyBounds(body);
    forall x
      ensures x in Kept(s[..|s|-1], s[0].score) <==> x in body
    {
      assert x in multiset(body) <==> x in multiset(Kept(s[..|s|-1], s[0].score));
    }
    assert body[0] in body && body[|body|-1] in body;
    PlacedLast(last, body, Ranked(s));
  }

  lemma {:induction false} PlacedLast(last: Scored, body: Scores, r: Scores)
    requires body != [] && NonDecreasing(body)
    requires r == if last.score <= body[0].score then [last] + body else body + [last]
    ensures NonDecreasing(r) <==> last.score <= body[0].score || last.score >= body[|body|-1].score
  {
    if last.score > body[0].score {
      assert r[|body|] == last && r[|body|-1] == body[|body|-1];
    }
  }

  lemma {:induction false} BodyBounds(body: Scores)
    requires body != [] && Ascending(body)
    ensures NonDecreasing(body)
    ensures forall i :: 0 <= i < |body| ==> body[0].score <= body[i].score <= body[|body|-1].score
    ensures forall x :: x in body ==> body[0].score <= x.score
  {
  }
}
