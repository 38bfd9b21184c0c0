/** When the finished index is the naive one: which clashes leave lasting damage. */
module IndexOutcome {
  import opened Keys
  import opened Wrappers
  import opened TrieSpec
  import opened Tokeniser
  import opened Weights
  import opened Ratios
  import opened Index
  import opened IndexTries
  import opened IndexRuns

  // ---------- lasting damage ----------

  /** The term is not found, and lands at another key. */
  ghost predicate ForeignLanding(s: State, t: Key) {
    FindKey(s.index.Keys, t) == None && CaseClash(s.index.Keys, t)
  }

  /** The term posts under another one that is no term of the document, or has another frequency there. */
  ghost predicate ForeignPosting(s: State, batch: Batch, log: real -> real, i: nat, j: nat)
    requires i < |batch| && j < |Terms(batch[i].text)| && Whole(batch, log, s)
  {
    var ts := Terms(batch[i].text);
    match FindKey(s.index.Keys, ts[j])
    case None => false
    case Some(p) =>
      p != ts[j] && Posts(s, batch, log, i, j) && !(p in ts && Frequency(p, ts) == Frequency(ts[j], ts))
  }

  /** At its last occurrence in the document a term that should be posted there is taken for another term, or the
      document for another document. */
  ghost predicate Lost(s: State, batch: Batch, log: real -> real, i: nat, j: nat)
    requires i < |batch| && j < |Terms(batch[i].text)|
  {
    var ts := Terms(batch[i].text);
    && ts[j] !in ts[j + 1..] && HeaderCount(ts[j], batch) > 0 && ReverseFrequency(ts[j], batch, log) > 0.0
    && (LaxClash(s.index.Keys, ts[j]) || LaxClash(Inner(s.index, ts[j]).Keys, DocKey(batch, i)))
  }

  /** Some occurrence of the term before a position is not taken for another term. */
  ghost predicate Entered(batch: Batch, log: real -> real, t: Key, i: nat, j: nat) {
    exists a, b :: 0 <= a < |batch| && 0 <= b < |Terms(batch[a].text)| && Before(a, b, i, j)
      && EntersAt(batch, log, t, a, b)
  }

  ghost predicate EntersAt(batch: Batch, log: real -> real, t: Key, a: nat, b: nat)
    requires a < |batch| && b < |Terms(batch[a].text)|
  {
    t == Terms(batch[a].text)[b] && !LaxClash(StateAt(batch, log, a, b).index.Keys, t)
  }

  ghost predicate NoForeignLanding(batch: Batch, log: real -> real) {
    forall i, j :: 0 <= i < |batch| && 0 <= j < |Terms(batch[i].text)| ==>
      !ForeignLanding(StateAt(batch, log, i, j), Terms(batch[i].text)[j])
  }

  ghost predicate NoForeignPosting(batch: Batch, log: real -> real) {
    forall i, j :: 0 <= i < |batch| && 0 <= j < |Terms(batch[i].text)| ==>
      !ForeignPosting(StateAt(batch, log, i, j), batch, log, i, j)
  }

  ghost predicate NothingLost(batch: Batch, log: real -> real) {
    forall i, j :: 0 <= i < |batch| && 0 <= j < |Terms(batch[i].text)| ==>
      !Lost(StateAt(batch, log, i, j), batch, log, i, j)
  }

  ghost predicate AllEntered(batch: Batch, log: real -> real) {
    forall t :: t in AllTerms(batch) ==> Entered(batch, log, t, |batch|, 0)
  }

  /** No step does lasting damage, and no term is taken for another at all its occurrences. */
  ghost predicate Harmless(batch: Batch, log: real -> real) {
    && NoForeignLanding(batch, log) && NoForeignPosting(batch, log)
    && NothingLost(batch, log) && AllEntered(batch, log)
  }

  // ---------- landings ----------

  lemma {:induction false} HomeExact(index: TermTrie, t: Key)
    ensures var home := HomeOf(index, t);
      && (FindKey(index.Keys, t).Some? ==> home == (FindKey(index.Keys, t).value, 0) && home.0 in index)
      && (FindKey(index.Keys, t) == None ==>
            t !in index && (home.0 == t <==> !CaseClash(index.Keys, t)) && home.1 == |ListAt(index, home.0)|)
  {
    hide Landing, FindKey, CaseClash;
    FindKeyIff(index.Keys, t);
    LandingExact(index.Keys, t);
  }

  /** An own entry has its three cells and names its key. */
  lemma {:induction false} OwnEntry(batch: Batch, index: TermTrie, k: Key)
    requires WholeIndex(batch, index) && k in index
    ensures |index[k]| >= 3 && (EntryCells(k, index[k]) <==> |index[k]| == 3 && index[k][1] == EntryName(k))
  {
    hide AllTerms, HeaderCount;
    assert EntryHead(batch, k, index[k]);
    forall d | d in index[k][0].postings
      ensures PostedCells(index[k][0].postings[d])
    {
      assert DocumentHead(batch, d, index[k][0].postings[d]);
    }
  }

  /** The entry under `k` is its own after a step if it was before, unless something foreign lands there. */
  lemma {:induction false} OwnStepAt(s: State, batch: Batch, log: real -> real, i: nat, j: nat, k: Key)
    requires i < |batch| && j < |Terms(batch[i].text)| && Whole(batch, log, s)
    ensures var t, index' := Terms(batch[i].text)[j], Step(s, batch, log, i, j).index;
      && (k in index' <==> k in s.index || k == HomeOf(s.index, t).0)
      && (k in index' ==>
            (EntryCells(k, index'[k]) <==>
              (k in s.index ==> EntryCells(k, s.index[k])) && !(k == HomeOf(s.index, t).0 && ForeignLanding(s, t))))
  {
    hide Step, Terms, AllTerms, HeaderCount, DocKey, Posts, FindKey, CaseClash, EntryCells, WholeIndex, HomeOf, Inner;
    var t, index' := Terms(batch[i].text)[j], Step(s, batch, log, i, j).index;
    HomeExact(s.index, t);
    StepAt(s, batch, log, i, j, k);
    StepKeepsWhole(s, batch, log, i, j);
    if k in index' {
      OwnEntry(batch, index', k);
    }
    if k in s.index {
      OwnEntry(batch, s.index, k);
    }
  }

  /** Every entry is its own after a step if and only if it was before and the term lands at no other key. */
  lemma {:induction false} OwnStep(s: State, batch: Batch, log: real -> real, i: nat, j: nat)
    requires i < |batch| && j < |Terms(batch[i].text)| && Whole(batch, log, s)
    ensures AllEntryCells(Step(s, batch, log, i, j).index)
       <==> AllEntryCells(s.index) && !ForeignLanding(s, Terms(batch[i].text)[j])
  {
    hide Step, Terms, EntryCells, Whole, HomeOf, ForeignLanding;
    forall k
      ensures var t, index' := Terms(batch[i].text)[j], Step(s, batch, log, i, j).index;
        && (k in index' <==> k in s.index || k == HomeOf(s.index, t).0)
        && (k in index' ==>
              (EntryCells(k, index'[k]) <==>
                (k in s.index ==> EntryCells(k, s.index[k])) && !(k == HomeOf(s.index, t).0 && ForeignLanding(s, t))))
    {
      OwnStepAt(s, batch, log, i, j, k);
    }
    assert HomeOf(s.index, Terms(batch[i].text)[j]).0 in Step(s, batch, log, i, j).index;
  }

  lemma {:induction false} OwnIff(batch: Batch, log: real -> real, i: nat, j: nat)
    requires IsPosition(batch, i, j)
    ensures AllEntryCells(StateAt(batch, log, i, j).index) <==>
      forall a, b :: 0 <= a < |batch| && 0 <= b < |Terms(batch[a].text)| && Before(a, b, i, j) ==>
        !ForeignLanding(StateAt(batch, log, a, b), Terms(batch[a].text)[b])
    decreases i, j
  {
    hide Step, ForeignLanding, AllEntryCells, Whole, Terms;
    if j > 0 {
      OwnIff(batch, log, i, j - 1);
      OwnStep(StateAt(batch, log, i, j - 1), batch, log, i, j - 1);
    } else if i > 0 {
      OwnIff(batch, log, i - 1, |Terms(batch[i - 1].text)|);
    } else {
      NoEntries();
    }
  }

  lemma NoEntries()
    ensures AllEntryCells(map[])
  {
  }

  // ---------- postings ----------

  /** What is posted under `k` for document `d` is what the naive definition says. */
  ghost predicate RightAt(index: TermTrie, batch: Batch, log: real -> real, k: Key, d: nat)
    requires d < |batch|
  {
    DocKey(batch, d) in Inner(index, k) ==>
      && k in Terms(batch[d].text) && Weight(k, batch, d, log) > 0.0
      && Inner(index, k)[DocKey(batch, d)] == PostedDocument(batch, d, Weight(k, batch, d, log))
  }

  ghost predicate Right(index: TermTrie, batch: Batch, log: real -> real) {
    forall k, d {:trigger RightAt(index, batch, log, k, d)} :: 0 <= d < |batch| ==> RightAt(index, batch, log, k, d)
  }

  /** Among own entries a term takes the reverse frequency of its home, and posts there if that is positive and the
      document is not found. */
  lemma {:induction false} OwnPosts(s: State, batch: Batch, log: real -> real, i: nat, j: nat)
    requires i < |batch| && j < |Terms(batch[i].text)| && Whole(batch, log, s) && IsLog(log)
    requires AllEntryCells(s.index) && !ForeignLanding(s, Terms(batch[i].text)[j])
    ensures var t, ts := Terms(batch[i].text)[j], Terms(batch[i].text);
      var p := HomeOf(s.index, t).0;
      && (FindKey(s.index.Keys, t) == None ==> p == t) && HeaderCount(p, batch) > 0 && HomeOf(s.index, t).1 == 0
      && StepWeight(s, batch, log, i, j) == TermSignificancy(Frequency(t, ts), ReverseFrequency(p, batch, log))
      && (Posts(s, batch, log, i, j) <==>
            FindKey(Inner(s.index, p).Keys, DocKey(batch, i)) == None && ReverseFrequency(p, batch, log) > 0.0)
  {
    hide Terms, AllTerms, HeaderCount, DocKey, FindKey, CaseClash, IsLog, ReverseFrequency, Frequency, EntryCells,
      WholePostings, SameUpToCase;
    var t, ts := Terms(batch[i].text)[j], Terms(batch[i].text);
    TermCounted(t, batch, i);
    HomeExact(s.index, t);
    FrequencyBounds(t, ts);
    var p := HomeOf(s.index, t).0;
    if FindKey(s.index.Keys, t).Some? {
      assert FrequencyHead(batch, log, p, s) && EntryCells(p, s.index[p]);
      OwnEntry(batch, s.index, p);
    }
    FrequencySign(batch, log, p);
    ProductSign(Frequency(t, ts), ReverseFrequency(p, batch, log));
  }

  /** One weight is another exactly if the frequencies agree. */
  lemma {:induction false} WeightsEqual(f: real, g: real, r: real)
    requires r > 0.0 && g > 0.0
    ensures TermSignificancy(f, r) == TermSignificancy(g, r) <==> f == g
    ensures TermSignificancy(g, r) > 0.0
  {
    MulOrder(f, g, r);
    ProductSign(g, r);
  }

  /** What a term posts is right exactly if its home is the term itself or has the same frequency in the document. */
  lemma {:induction false} RightHere(s: State, batch: Batch, log: real -> real, i: nat, j: nat)
    requires i < |batch| && j < |Terms(batch[i].text)| && Whole(batch, log, s) && IsLog(log)
    requires AllEntryCells(s.index) && !ForeignLanding(s, Terms(batch[i].text)[j]) && Posts(s, batch, log, i, j)
    ensures var p := HomeOf(s.index, Terms(batch[i].text)[j]).0;
      p in Terms(batch[i].text) && Weight(p, batch, i, log) > 0.0
        && StepWeight(s, batch, log, i, j) == Weight(p, batch, i, log)
      <==> !ForeignPosting(s, batch, log, i, j)
  {
    hide Terms, HeaderCount, DocKey, FindKey, IsLog, ReverseFrequency, Frequency, Whole, Posts, StepWeight, Weight,
      AllEntryCells, ForeignLanding, TermSignificancy, Inner;
    var t, ts := Terms(batch[i].text)[j], Terms(batch[i].text);
    var p := HomeOf(s.index, t).0;
    OwnPosts(s, batch, log, i, j);
    HomeExact(s.index, t);
    if p in ts {
      WeightOfTerm(p, batch, i, log);
      FrequencyBounds(p, ts);
      WeightsEqual(Frequency(t, ts), Frequency(p, ts), ReverseFrequency(p, batch, log));
    }
  }

  lemma {:induction false} RightStepAt(s: State, batch: Batch, log: real -> real, i: nat, j: nat, k: Key, d: nat)
    requires i < |batch| && j < |Terms(batch[i].text)| && Whole(batch, log, s) && IsLog(log) && DistinctOffsets(batch)
    requires AllEntryCells(s.index) && !ForeignLanding(s, Terms(batch[i].text)[j]) && d < |batch|
    ensures RightAt(Step(s, batch, log, i, j).index, batch, log, k, d) <==>
      RightAt(s.index, batch, log, k, d)
      && !(k == HomeOf(s.index, Terms(batch[i].text)[j]).0 && d == i && ForeignPosting(s, batch, log, i, j))
  {
    hide Step, Terms, HeaderCount, DocKey, FindKey, IsLog, Whole, Posts, StepWeight, Weight, HomeOf, Frequency,
      AllEntryCells, ForeignLanding, Inner, DistinctOffsets;
    var t := Terms(batch[i].text)[j];
    StepAt(s, batch, log, i, j, k);
    KeysDiffer(batch, d, i);
    OwnPosts(s, batch, log, i, j);
    if Posts(s, batch, log, i, j) {
      RightHere(s, batch, log, i, j);
      NotListedThere(s, batch, log, i, j);
      SameDocument(batch, i, StepWeight(s, batch, log, i, j), Weight(k, batch, i, log));
    } else {
      OnlyPostersHarm(s, batch, log, i, j);
    }
  }

  lemma {:induction false} SameDocument(batch: Batch, i: nat, w: real, w': real)
    requires i < |batch|
    ensures PostedDocument(batch, i, w) == PostedDocument(batch, i, w') <==> w == w'
  {
    assert PostedDocument(batch, i, w)[1] == DocumentWeight(w);
    assert PostedDocument(batch, i, w')[1] == DocumentWeight(w');
  }

  lemma {:induction false} OnlyPostersHarm(s: State, batch: Batch, log: real -> real, i: nat, j: nat)
    requires i < |batch| && j < |Terms(batch[i].text)| && Whole(batch, log, s)
    ensures ForeignPosting(s, batch, log, i, j) ==> Posts(s, batch, log, i, j)
  {
  }

  lemma {:induction false} NotListedThere(s: State, batch: Batch, log: real -> real, i: nat, j: nat)
    requires i < |batch| && j < |Terms(batch[i].text)| && Whole(batch, log, s) && Posts(s, batch, log, i, j)
    ensures DocKey(batch, i) !in Inner(s.index, HomeOf(s.index, Terms(batch[i].text)[j]).0)
  {
    hide Terms, HomeOf, Inner, DocKey;
    NotListed(s, batch, i, Terms(batch[i].text)[j]);
  }

  /** A step keeps all postings right if and only if it posts nothing foreign; a wrong posting stays. */
  lemma {:induction false} RightStep(s: State, batch: Batch, log: real -> real, i: nat, j: nat)
    requires i < |batch| && j < |Terms(batch[i].text)| && Whole(batch, log, s) && IsLog(log) && DistinctOffsets(batch)
    requires AllEntryCells(s.index) && !ForeignLanding(s, Terms(batch[i].text)[j])
    ensures Right(Step(s, batch, log, i, j).index, batch, log)
       <==> Right(s.index, batch, log) && !ForeignPosting(s, batch, log, i, j)
  {
    hide Step, Terms, IsLog, Whole, HomeOf, AllEntryCells, ForeignLanding, DistinctOffsets, RightAt, ForeignPosting;
    forall k, d | 0 <= d < |batch|
      ensures RightAt(Step(s, batch, log, i, j).index, batch, log, k, d) <==>
        RightAt(s.index, batch, log, k, d)
        && !(k == HomeOf(s.index, Terms(batch[i].text)[j]).0 && d == i && ForeignPosting(s, batch, log, i, j))
    {
      RightStepAt(s, batch, log, i, j, k, d);
    }
    var index', home := Step(s, batch, log, i, j).index, HomeOf(s.index, Terms(batch[i].text)[j]).0;
    assert RightAt(index', batch, log, home, i) ==> !ForeignPosting(s, batch, log, i, j);
  }

  lemma {:induction false} RightIff(batch: Batch, log: real -> real, i: nat, j: nat)
    requires IsPosition(batch, i, j) && IsLog(log) && DistinctOffsets(batch)
    requires AllEntryCells(StateAt(batch, log, i, j).index)
    ensures Right(StateAt(batch, log, i, j).index, batch, log) <==>
      forall a, b :: 0 <= a < |batch| && 0 <= b < |Terms(batch[a].text)| && Before(a, b, i, j) ==>
        !ForeignPosting(StateAt(batch, log, a, b), batch, log, a, b)
    decreases i, j
  {
    hide Step, Terms, IsLog, Whole, AllEntryCells, ForeignLanding, DistinctOffsets, Right, ForeignPosting;
    if j > 0 {
      OwnStep(StateAt(batch, log, i, j - 1), batch, log, i, j - 1);
      RightIff(batch, log, i, j - 1);
      RightStep(StateAt(batch, log, i, j - 1), batch, log, i, j - 1);
    } else if i > 0 {
      RightIff(batch, log, i - 1, |Terms(batch[i - 1].text)|);
    } else {
      NothingRight(batch, log);
    }
  }

  lemma {:induction false} NothingRight(batch: Batch, log: real -> real)
    ensures Right(map[], batch, log)
  {
  }

  // ---------- entries ----------

  /** A term gets an entry where it is not taken for another one. */
  lemma {:induction false} EnterStep(s: State, batch: Batch, log: real -> real, i: nat, j: nat, t: Key)
    requires i < |batch| && j < |Terms(batch[i].text)| && Whole(batch, log, s)
    requires !ForeignLanding(s, Terms(batch[i].text)[j])
    ensures t in Step(s, batch, log, i, j).index
       <==> t in s.index || (t == Terms(batch[i].text)[j] && !LaxClash(s.index.Keys, t))
  {
    hide Step, Terms, Whole, HomeOf, FindKey, CaseClash, LaxClash, Posts, Inner, DocKey;
    var u := Terms(batch[i].text)[j];
    StepAt(s, batch, log, i, j, t);
    HomeExact(s.index, u);
    FindKeyIff(s.index.Keys, u);
  }

  lemma {:induction false} EnteredIff(batch: Batch, log: real -> real, t: Key, i: nat, j: nat)
    requires IsPosition(batch, i, j) && AllEntryCells(StateAt(batch, log, i, j).index)
    ensures t in StateAt(batch, log, i, j).index <==> Entered(batch, log, t, i, j)
    decreases i, j
  {
    hide Step, Terms, Whole, AllEntryCells, ForeignLanding, LaxClash;
    if j > 0 {
      OwnStep(StateAt(batch, log, i, j - 1), batch, log, i, j - 1);
      EnteredIff(batch, log, t, i, j - 1);
      EnterStep(StateAt(batch, log, i, j - 1), batch, log, i, j - 1, t);
      var n := j - 1;
      assert EntersAt(batch, log, t, i, n) ==> Entered(batch, log, t, i, j);
    } else if i > 0 {
      EnteredIff(batch, log, t, i - 1, |Terms(batch[i - 1].text)|);
    }
  }

  // ---------- documents ----------

  /** Nothing will be posted under the term for this document any more, unless the term gets an entry. */
  ghost predicate Closed(index: TermTrie, t: Key, key: Key) {
    t !in index || FindKey(Inner(index, t).Keys, key).Some?
  }

  /** At its last occurrence a term that should be posted is posted at the latest, or never. */
  lemma {:induction false} LastStep(s: State, batch: Batch, log: real -> real, i: nat, j: nat)
    requires i < |batch| && j < |Terms(batch[i].text)| && Whole(batch, log, s) && IsLog(log)
    requires AllEntryCells(s.index) && !ForeignLanding(s, Terms(batch[i].text)[j])
    requires var t := Terms(batch[i].text)[j]; HeaderCount(t, batch) > 0 && ReverseFrequency(t, batch, log) > 0.0
    ensures var t, key, index' := Terms(batch[i].text)[j], DocKey(batch, i), Step(s, batch, log, i, j).index;
      && (key in Inner(index', t) <==> !LaxClash(s.index.Keys, t) && !LaxClash(Inner(s.index, t).Keys, key))
      && Closed(index', t, key)
  {
    hide Step, Terms, HeaderCount, DocKey, FindKey, IsLog, Whole, Posts, StepWeight, HomeOf, LaxClash, AllEntryCells,
      ForeignLanding, ReverseFrequency;
    var t, key := Terms(batch[i].text)[j], DocKey(batch, i);
    EnterStep(s, batch, log, i, j, t);
    StepAt(s, batch, log, i, j, t);
    OwnPosts(s, batch, log, i, j);
    HomeExact(s.index, t);
    FindKeyIff(s.index.Keys, t);
    FindKeyIff(Inner(s.index, t).Keys, key);
    FindKeyIff(Inner(Step(s, batch, log, i, j).index, t).Keys, key);
    if FindKey(Inner(s.index, t).Keys, key).Some? && key !in Inner(s.index, t) {
      assert LaxClash(Inner(s.index, t).Keys, key);
    }
  }

  /** Other terms of the document change nothing then. */
  lemma {:induction false} LaterStep(s: State, batch: Batch, log: real -> real, i: nat, j: nat, t: Key)
    requires i < |batch| && j < |Terms(batch[i].text)| && Whole(batch, log, s) && IsLog(log)
    requires AllEntryCells(s.index) && !ForeignLanding(s, Terms(batch[i].text)[j])
    requires t != Terms(batch[i].text)[j] && Closed(s.index, t, DocKey(batch, i))
    ensures var index' := Step(s, batch, log, i, j).index;
      Inner(index', t) == Inner(s.index, t) && Closed(index', t, DocKey(batch, i))
  {
    hide Step, Terms, HeaderCount, DocKey, FindKey, IsLog, Whole, Posts, StepWeight, HomeOf, LaxClash, AllEntryCells,
      ForeignLanding, ReverseFrequency, Inner;
    EnterStep(s, batch, log, i, j, t);
    StepAt(s, batch, log, i, j, t);
    OwnPosts(s, batch, log, i, j);
    HomeExact(s.index, Terms(batch[i].text)[j]);
  }

  /** Terms of other documents do not post this one. */
  lemma {:induction false} OtherDocument(s: State, batch: Batch, log: real -> real, i: nat, j: nat, t: Key, d: nat)
    requires i < |batch| && j < |Terms(batch[i].text)| && Whole(batch, log, s) && DistinctOffsets(batch)
    requires d < |batch| && d != i
    ensures DocKey(batch, d) in Inner(Step(s, batch, log, i, j).index, t) <==> DocKey(batch, d) in Inner(s.index, t)
  {
    hide Step, Terms, DocKey, Whole, Posts, StepWeight, HomeOf, Inner, DistinctOffsets;
    StepAt(s, batch, log, i, j, t);
    KeysDiffer(batch, d, i);
  }

  /** Behind the last occurrence of a term in a document it is settled whether the document is posted. */
  lemma {:induction false} Settled(batch: Batch, log: real -> real, d: nat, j: nat, i: nat, b: nat)
    requires d < |batch| && j < |Terms(batch[d].text)| && IsPosition(batch, i, b) && Before(d, j, i, b)
    requires IsLog(log) && DistinctOffsets(batch) && AllEntryCells(StateAt(batch, log, i, b).index)
    requires var t := Terms(batch[d].text)[j];
      && t !in Terms(batch[d].text)[j + 1..] && HeaderCount(t, batch) > 0 && ReverseFrequency(t, batch, log) > 0.0
    ensures var t, index := Terms(batch[d].text)[j], StateAt(batch, log, i, b).index;
      && (DocKey(batch, d) in Inner(index, t) <==> !Lost(StateAt(batch, log, d, j), batch, log, d, j))
      && (i == d ==> Closed(index, t, DocKey(batch, d)))
    decreases i, b
  {
    hide Step, Terms, HeaderCount, DocKey, IsLog, Whole, LaxClash, AllEntryCells, ForeignLanding, ReverseFrequency,
      Inner, DistinctOffsets, Closed;
    var t := Terms(batch[d].text)[j];
    if b > 0 {
      var n := b - 1;
      var s := StateAt(batch, log, i, n);
      OwnStep(s, batch, log, i, n);
      if i == d && n == j {
        LastStep(s, batch, log, i, n);
      } else {
        Settled(batch, log, d, j, i, n);
        if i == d {
          assert Terms(batch[d].text)[n] == Terms(batch[d].text)[j + 1..][n - j - 1];
          LaterStep(s, batch, log, i, n, t);
        } else {
          OtherDocument(s, batch, log, i, n, t, d);
        }
      }
    } else {
      Settled(batch, log, d, j, i - 1, |Terms(batch[i - 1].text)|);
    }
  }

  // ---------- the finished index ----------

  /** Every document is posted under every term that weighs something in it. */
  ghost predicate Complete(index: TermTrie, batch: Batch, log: real -> real) {
    forall d, t {:trigger Weight(t, batch, d, log)} :: 0 <= d < |batch| && Weight(t, batch, d, log) > 0.0 ==>
      DocKey(batch, d) in Inner(index, t)
  }

  /** That is so if and only if no document is lost. */
  lemma {:induction false} CompleteIff(batch: Batch, log: real -> real)
    requires IsLog(log) && DistinctOffsets(batch) && AllEntryCells(BuiltIndex(batch, log))
    ensures Complete(BuiltIndex(batch, log), batch, log) <==> NothingLost(batch, log)
  {
    hide Terms, IsLog, DistinctOffsets, DocKey, Weight, Lost, AllEntryCells, StateAt, Inner, BuiltIndex;
    if Complete(BuiltIndex(batch, log), batch, log) {
      forall i, j | 0 <= i < |batch| && 0 <= j < |Terms(batch[i].text)|
        ensures !Lost(StateAt(batch, log, i, j), batch, log, i, j)
      {
        NotLost(batch, log, i, j);
      }
      assert NothingLost(batch, log);
    }
    if NothingLost(batch, log) {
      forall d, t | 0 <= d < |batch| && Weight(t, batch, d, log) > 0.0
        ensures DocKey(batch, d) in Inner(BuiltIndex(batch, log), t)
      {
        var j := PostedLast(batch, log, d, t);
        assert !Lost(StateAt(batch, log, d, j), batch, log, d, j);
      }
      assert Complete(BuiltIndex(batch, log), batch, log);
    }
  }

  lemma {:induction false} NotLost(batch: Batch, log: real -> real, i: nat, j: nat)
    requires IsLog(log) && DistinctOffsets(batch) && AllEntryCells(BuiltIndex(batch, log))
    requires i < |batch| && j < |Terms(batch[i].text)| && Complete(BuiltIndex(batch, log), batch, log)
    ensures !Lost(StateAt(batch, log, i, j), batch, log, i, j)
  {
    hide Terms, IsLog, Whole, AllEntryCells, DistinctOffsets, DocKey, Weight, HeaderCount, ReverseFrequency, LaxClash,
      Inner, StateAt;
    if Lost(StateAt(batch, log, i, j), batch, log, i, j) {
      Settled(batch, log, i, j, |batch|, 0);
      PositiveWeight(batch, log, i, Terms(batch[i].text)[j]);
    }
  }

  /** A document that weighs something is posted unless it is lost at the last occurrence of the term. */
  lemma {:induction false} PostedLast(batch: Batch, log: real -> real, d: nat, t: Key) returns (j: nat)
    requires IsLog(log) && DistinctOffsets(batch) && AllEntryCells(BuiltIndex(batch, log))
    requires d < |batch| && Weight(t, batch, d, log) > 0.0
    ensures j < |Terms(batch[d].text)|
    ensures !Lost(StateAt(batch, log, d, j), batch, log, d, j) ==> DocKey(batch, d) in Inner(BuiltIndex(batch, log), t)
  {
    hide Terms, IsLog, Whole, AllEntryCells, DistinctOffsets, DocKey, Weight, HeaderCount, ReverseFrequency, LaxClash,
      Inner, StateAt, Lost;
    WeightNeedsTerm(t, batch, d, log);
    PositiveWeight(batch, log, d, t);
    j := LastOccurrence(Terms(batch[d].text), t);
    Settled(batch, log, d, j, |batch|, 0);
  }

  lemma {:induction false} PositiveWeight(batch: Batch, log: real -> real, d: nat, t: Key)
    requires d < |batch| && t in Terms(batch[d].text) && IsLog(log)
    ensures HeaderCount(t, batch) > 0 && (Weight(t, batch, d, log) > 0.0 <==> ReverseFrequency(t, batch, log) > 0.0)
  {
    hide IsLog, HeaderCount, ReverseFrequency, Frequency, Terms, Weight;
    WeightOfTerm(t, batch, d, log);
    TermCounted(t, batch, d);
    FrequencySign(batch, log, t);
    FrequencyBounds(t, Terms(batch[d].text));
    ProductSign(Frequency(t, Terms(batch[d].text)), ReverseFrequency(t, batch, log));
  }

  lemma {:induction false} LastOccurrence(ts: seq<Text>, t: Text) returns (j: nat)
    requires t in ts
    ensures j < |ts| && ts[j] == t && t !in ts[j + 1..]
  {
    j :| j < |ts| && ts[j] == t;
    while t in ts[j + 1..]
      invariant j < |ts| && ts[j] == t
      decreases |ts| - j
    {
      var n: nat :| n < |ts[j + 1..]| && ts[j + 1..][n] == t;
      j := j + 1 + n;
    }
  }

  /** The entry is right, and complete where the term weighs something. */
  ghost predicate FullAt(index: TermTrie, batch: Batch, log: real -> real, t: Key, d: nat)
    requires d < |batch|
  {
    && RightAt(index, batch, log, t, d)
    && (Weight(t, batch, d, log) > 0.0 ==> DocKey(batch, d) in Inner(index, t))
  }

  lemma {:induction false} PostedIff(index: TermTrie, batch: Batch, log: real -> real, t: Key, d: nat)
    requires AllEntryCells(index) && t in index && d < |batch|
    ensures PostedOk(IndexView(index)[t], batch, log, t, d, |batch|, 0) <==> FullAt(index, batch, log, t, d)
  {
    hide Weight, Terms, HeaderCount, DocKey;
    var e, k, w := IndexView(index)[t], DocKey(batch, d), Weight(t, batch, d, log);
    assert EntryCells(t, index[t]);
    assert Has(batch, t, d, |batch|, 0) <==> t in Terms(batch[d].text);
    if w > 0.0 {
      WeightNeedsTerm(t, batch, d, log);
    }
    if k in e.docs {
      var cells := Inner(index, t)[k];
      assert PostedCells(cells) && e.docs[k] == Posted(cells[0].offset, cells[1].significancy);
      CellsOf(batch, d, cells, w);
    }
  }

  lemma {:induction false} CellsOf(batch: Batch, d: nat, cells: seq<DocumentCell>, w: real)
    requires d < |batch| && PostedCells(cells)
    ensures cells == PostedDocument(batch, d, w) <==> cells[0].offset == batch[d].offset && cells[1].significancy == w
  {
    var posted := PostedDocument(batch, d, w);
    assert posted[0] == DocumentOffset(batch[d].offset) && posted[1] == DocumentWeight(w);
  }

  /** An own entry is what the naive definition says if and only if it is right and complete. */
  lemma {:induction false} EntryIff(index: TermTrie, batch: Batch, log: real -> real, t: Key)
    requires WholeIndex(batch, index) && AllEntryCells(index) && t in index
    ensures t in AllTerms(batch)
    ensures EntryOk(IndexView(index)[t], batch, log, t, |batch|, 0) <==>
      forall d {:trigger FullAt(index, batch, log, t, d)} :: 0 <= d < |batch| ==> FullAt(index, batch, log, t, d)
  {
    hide Weight, Terms, HeaderCount, DocKey, FullAt, PostedOk;
    var e := IndexView(index)[t];
    assert EntryCells(t, index[t]) && EntryHead(batch, t, index[t]);
    forall d | 0 <= d < |batch|
      ensures PostedOk(e, batch, log, t, d, |batch|, 0) <==> FullAt(index, batch, log, t, d)
    {
      PostedIff(index, batch, log, t, d);
    }
    forall k | k in e.docs
      ensures exists d :: 0 <= d < |batch| && DocKey(batch, d) == k
    {
      assert DocumentHead(batch, k, index[t][0].postings[k]);
    }
  }

  lemma {:induction false} NaiveEntries(index: TermTrie, batch: Batch, log: real -> real)
    requires WholeIndex(batch, index) && AllEntryCells(index)
    ensures Naive(index, batch, log) <==>
      && (forall t :: t in AllTerms(batch) ==> t in index)
      && (forall t :: t in index ==> EntryOk(IndexView(index)[t], batch, log, t, |batch|, 0))
    ensures index.Keys <= AllTerms(batch) && IndexView(index).Keys == index.Keys
  {
    hide Terms, EntryOk, EntryView, WholeIndex, AllEntryCells;
    var view := IndexView(index);
    assert view.Keys == index.Keys;
    forall t
      ensures t in AllTerms(batch) <==> exists d :: 0 <= d < |batch| && t in Terms(batch[d].text)
      ensures t in index ==> t in AllTerms(batch)
    {
      if t in index {
        EntryIff(index, batch, log, t);
      }
    }
    if Naive(index, batch, log) {
      assert forall t :: t in AllTerms(batch) ==> t in view;
      assert forall t :: t in view ==> EntryOk(view[t], batch, log, t, |batch|, 0);
    }
  }

  /** With own entries, the index is naive if and only if it has all terms, and all entries are right and complete. */
  lemma {:induction false} NaiveIff(index: TermTrie, batch: Batch, log: real -> real)
    requires WholeIndex(batch, index) && AllEntryCells(index)
    ensures Naive(index, batch, log) <==>
      (forall t :: t in AllTerms(batch) ==> t in index) && Right(index, batch, log) && Complete(index, batch, log)
  {
    hide Weight, EntryOk, EntryView, WholeIndex, DocKey, AllEntryCells, Naive, IndexView, RightAt, FullAt, AllTerms,
      Right, Complete;
    NaiveEntries(index, batch, log);
    forall t | t in index
      ensures EntryOk(IndexView(index)[t], batch, log, t, |batch|, 0) <==>
        forall d {:trigger FullAt(index, batch, log, t, d)} :: 0 <= d < |batch| ==> FullAt(index, batch, log, t, d)
    {
      EntryIff(index, batch, log, t);
    }
    forall t, d | t !in index && 0 <= d < |batch|
      ensures RightAt(index, batch, log, t, d)
    {
      NothingThere(index, batch, log, t, d);
    }
    if forall t :: t in AllTerms(batch) ==> t in index {
      AllFull(index, batch, log);
    }
  }

  lemma {:induction false} NothingThere(index: TermTrie, batch: Batch, log: real -> real, t: Key, d: nat)
    requires t !in index && d < |batch|
    ensures RightAt(index, batch, log, t, d)
  {
  }

  lemma {:induction false} AllFull(index: TermTrie, batch: Batch, log: real -> real)
    requires forall t :: t in AllTerms(batch) ==> t in index
    requires forall t, d :: t !in index && 0 <= d < |batch| ==> RightAt(index, batch, log, t, d)
    ensures Right(index, batch, log) && Complete(index, batch, log) <==>
      forall t, d {:trigger FullAt(index, batch, log, t, d)} ::
        t in index && 0 <= d < |batch| ==> FullAt(index, batch, log, t, d)
  {
    hide DocKey, RightAt, Weight, AllTerms;
    forall d, t | 0 <= d < |batch| && Weight(t, batch, d, log) > 0.0
      ensures t in index
    {
      WeightNeedsTerm(t, batch, d, log);
      TermCounted(t, batch, d);
    }
    if forall t, d {:trigger FullAt(index, batch, log, t, d)} ::
        t in index && 0 <= d < |batch| ==> FullAt(index, batch, log, t, d) {
      forall t, d | 0 <= d < |batch|
        ensures RightAt(index, batch, log, t, d)
        ensures Weight(t, batch, d, log) > 0.0 ==> DocKey(batch, d) in Inner(index, t)
      {
        assert t in index ==> FullAt(index, batch, log, t, d);
      }
    }
  }

  /** The finished index is the naive one if and only if no step does lasting damage and every term is once not taken
      for another. */
  lemma {:induction false} OutcomeIff(batch: Batch, log: real -> real)
    requires DistinctOffsets(batch) && IsLog(log)
    ensures Naive(BuiltIndex(batch, log), batch, log) <==> Harmless(batch, log)
  {
    hide Terms, IsLog, DistinctOffsets, ForeignLanding, ForeignPosting, Naive, Right, Complete, Entered, NothingLost,
      AllEntryCells, AllTerms, WholeIndex, BuiltIndex, StateAt;
    var index := BuiltIndex(batch, log);
    AtTheEnd(batch, log);
    OwnIfNaive(index, batch, log);
    if AllEntryCells(index) {
      NaiveIff(index, batch, log);
      CompleteIff(batch, log);
    }
  }

  /** What holds of the finished index, in terms of the steps. */
  lemma {:induction false} AtTheEnd(batch: Batch, log: real -> real)
    requires DistinctOffsets(batch) && IsLog(log)
    ensures var index := BuiltIndex(batch, log);
      && WholeIndex(batch, index) && (AllEntryCells(index) <==> NoForeignLanding(batch, log))
      && (AllEntryCells(index) ==>
            && (Right(index, batch, log) <==> NoForeignPosting(batch, log))
            && ((forall t :: t in AllTerms(batch) ==> t in index) <==> AllEntered(batch, log)))
  {
    hide Terms, IsLog, DistinctOffsets, ForeignLanding, ForeignPosting, Right, Entered, AllEntryCells, AllTerms,
      WholeIndex;
    OwnIff(batch, log, |batch|, 0);
    if AllEntryCells(BuiltIndex(batch, log)) {
      RightIff(batch, log, |batch|, 0);
      forall t
        ensures t in BuiltIndex(batch, log) <==> Entered(batch, log, t, |batch|, 0)
      {
        EnteredIff(batch, log, t, |batch|, 0);
      }
    }
  }

  lemma {:induction false} OwnIfNaive(index: TermTrie, batch: Batch, log: real -> real)
    ensures Naive(index, batch, log) ==> AllEntryCells(index)
  {
  }

  // ---------- the weights in numbers ----------

  lemma {:induction false} WeightInNumbers(t: Text, batch: Batch, d: nat, log: real -> real, q: real)
    requires d < |batch|
    requires var c := |set e: nat | e < |batch| && Occurs(batch[e].text, t)|; c > 0 && q * c as real == |batch| as real
    ensures HeaderCount(t, batch) == |set e: nat | e < |batch| && Occurs(batch[e].text, t)|
    ensures var ts, w := Terms(batch[d].text), Weight(t, batch, d, log);
      w * |ts| as real == multiset(ts)[t] as real * log(q) && (w > 0.0 <==> multiset(ts)[t] as real * log(q) > 0.0)
  {
    hide Terms, Occurs, Significancy, HeaderCount;
    var ts := Terms(batch[d].text);
    assert HeaderCount(t, batch) == |set e: nat | e < |batch| && Occurs(batch[e].text, t)| by {
      HeaderCountIs(t, batch);
    }
    if t in ts {
      SignificancyInNumbers(t, batch, d, log, q);
      MulOrder(0.0, Weight(t, batch, d, log), |ts| as real);
    }
  }

  lemma {:induction false} HeaderCountIs(t: Text, batch: Batch)
    ensures HeaderCount(t, batch) == |set e: nat | e < |batch| && Occurs(batch[e].text, t)|
  {
    assert Containing(t, batch, |batch|) == set e: nat | e < |batch| && Occurs(batch[e].text, t);
  }

  /** The naive index in numbers. Of a batch of documents let `c` contain the term as a substring, and let `q` times
      `c` be their number. Then the entry counts `c`, and it lists a document exactly if the number of occurrences of
      the term among its tokens times the logarithm of `q` is positive: with that number over the number of tokens. */
  lemma {:induction false} NaiveInNumbers(index: TermTrie, batch: Batch, log: real -> real, t: Key, d: nat, q: real)
    requires WholeIndex(batch, index) && Naive(index, batch, log) && t in index && d < |batch|
    requires q * |set e: nat | e < |batch| && Occurs(batch[e].text, t)| as real == |batch| as real
    ensures |index[t]| == 3 && index[t][2] == EntryCount(|set e: nat | e < |batch| && Occurs(batch[e].text, t)|)
    ensures var ts, cells := Terms(batch[d].text), Inner(index, t);
      && (DocKey(batch, d) in cells <==> multiset(ts)[t] as real * log(q) > 0.0)
      && (DocKey(batch, d) in cells ==>
            var list := cells[DocKey(batch, d)];
            && |list| == 2 && list[0] == DocumentOffset(batch[d].offset) && list[1].DocumentWeight?
            && list[1].significancy * |ts| as real == multiset(ts)[t] as real * log(q))
  {
    hide Terms, Occurs, HeaderCount, Weight, DocKey, EntryOk, IndexView, WholePostings, AllTerms, SameUpToCase;
    HeaderCountIs(t, batch);
    assert EntryHead(batch, t, index[t]) && EntryCells(t, index[t]);
    WeightInNumbers(t, batch, d, log, q);
    NaiveEntries(index, batch, log);
    EntryIff(index, batch, log, t);
    assert FullAt(index, batch, log, t, d);
  }

  // ---------- the whole index ----------

  /** The index of a batch, built document by document and term by term. */
  method AssignTerms(batch: Batch, log: real -> real) returns (index: TermTrie)
    ensures index == BuiltIndex(batch, log) && WholeIndex(batch, index)
    ensures DistinctOffsets(batch) && IsLog(log) ==>
      && (Naive(index, batch, log) <==> Harmless(batch, log))
      && (NoClash(batch, log) ==> Naive(index, batch, log))
  {
    hide NoClash, IsLog, DistinctOffsets, Naive, Harmless, Step, WholeIndex, BuiltIndex;
    var cache: FrequencyTrie := map[];
    index := map[];
    var i := 0;
    while i < |batch|
      invariant 0 <= i <= |batch| && State(index, cache) == StateAt(batch, log, i, 0)
    {
      var key := Decimal(batch[i].offset);
      var ts := Tokenise(batch[i].text, TERM_DELIMITERS);
      var j := 0;
      while j < |ts|
        invariant 0 <= j <= |ts| && State(index, cache) == StateAt(batch, log, i, j)
      {
        index, cache := AssignTerm(index, cache, batch, log, i, j, key, ts);
        j := j + 1;
      }
      i := i + 1;
    }
    BuiltAtEnd(batch, log);
    if DistinctOffsets(batch) && IsLog(log) {
      OutcomeIff(batch, log);
      if NoClash(batch, log) {
        NoClashIndex(batch, log);
      }
    }
  }

  lemma {:induction false} BuiltAtEnd(batch: Batch, log: real -> real)
    ensures BuiltIndex(batch, log) == StateAt(batch, log, |batch|, 0).index && WholeIndex(batch, BuiltIndex(batch, log))
  {
  }
}
