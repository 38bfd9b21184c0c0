/** Postings against the count in the header of their record: when the built index keeps to it. */
module IndexBounds {
  import opened Keys
  import opened Wrappers
  import opened TrieSpec
  import opened Agreement
  import opened Tokeniser
  import opened Weights
  import opened Ratios
  import opened Index
  import opened IndexTries
  import opened IndexRuns

  // ---------- the built index ----------

  /** The inner dictionary under `k` holds no more documents than the count beside it. */
  ghost predicate BoundAt(index: TermTrie, k: Key) {
    k in index && |index[k]| >= 3 && index[k][2].EntryCount? ==> |Inner(index, k)| <= index[k][2].count
  }

  ghost predicate Bounded(index: TermTrie) {
    forall k {:trigger BoundAt(index, k)} :: BoundAt(index, k)
  }

  /** The term posts in an inner dictionary that it finds and that holds as many documents as are counted. */
  ghost predicate Overfills(s: State, batch: Batch, log: real -> real, i: nat, j: nat)
    requires i < |batch| && j < |Terms(batch[i].text)| && Whole(batch, log, s)
  {
    var at := FindKey(s.index.Keys, Terms(batch[i].text)[j]);
    && at.Some? && Posts(s, batch, log, i, j)
    && (assert EntryHead(batch, at.value, s.index[at.value]);
        |Inner(s.index, at.value)| == s.index[at.value][2].count)
  }

  /** A step keeps the bound if and only if it does not overfill an inner dictionary; once broken it stays so. */
  lemma {:induction false} StepBound(s: State, batch: Batch, log: real -> real, i: nat, j: nat)
    requires i < |batch| && j < |Terms(batch[i].text)| && Whole(batch, log, s)
    ensures Bounded(Step(s, batch, log, i, j).index) <==> Bounded(s.index) && !Overfills(s, batch, log, i, j)
  {
    hide Step, Posts, Inner, HomeOf, EntryHead, WholeIndex, DocKey, Terms, PostedAlready, Overfills, BoundAt;
    var t, index' := Terms(batch[i].text)[j], Step(s, batch, log, i, j).index;
    var home := HomeOf(s.index, t).0;
    if Bounded(s.index) {
      BoundAtHome(s, batch, log, i, j);
    }
    forall k
      ensures BoundAt(index', k) ==> BoundAt(s.index, k)
      ensures k != home && BoundAt(s.index, k) ==> BoundAt(index', k)
    {
      BoundElsewhere(s, batch, log, i, j, k);
    }
  }

  lemma {:induction false} BoundElsewhere(s: State, batch: Batch, log: real -> real, i: nat, j: nat, k: Key)
    requires i < |batch| && j < |Terms(batch[i].text)| && Whole(batch, log, s)
    ensures var index' := Step(s, batch, log, i, j).index;
      && (BoundAt(index', k) ==> BoundAt(s.index, k))
      && (k != HomeOf(s.index, Terms(batch[i].text)[j]).0 && BoundAt(s.index, k) ==> BoundAt(index', k))
  {
    hide Step, Posts, Inner, HomeOf, EntryHead, WholeIndex, DocKey, Terms, PostedAlready;
    StepAt(s, batch, log, i, j, k);
    EntryGrows(Inner(s.index, k), DocKey(batch, i), PostedDocument(batch, i, StepWeight(s, batch, log, i, j)));
  }

  lemma {:induction false} EntryGrows(postings: Postings, key: Key, cells: seq<DocumentCell>)
    ensures |postings[key := cells]| >= |postings|
  {
    assert postings[key := cells].Keys == postings.Keys + {key};
    SubsetSize(postings.Keys, postings.Keys + {key});
  }

  lemma {:induction false} BoundAtHome(s: State, batch: Batch, log: real -> real, i: nat, j: nat)
    requires i < |batch| && j < |Terms(batch[i].text)| && Whole(batch, log, s) && Bounded(s.index)
    ensures BoundAt(Step(s, batch, log, i, j).index, HomeOf(s.index, Terms(batch[i].text)[j]).0)
       <==> !Overfills(s, batch, log, i, j)
  {
    hide Step, DocKey, Terms, WholePostings, AllTerms, HeaderCount, Landing, FindKey, StepWeight, WholeIndex,
      PostedAlready;
    var t := Terms(batch[i].text)[j];
    var home := HomeOf(s.index, t).0;
    TermCounted(t, batch, i);
    StepAt(s, batch, log, i, j, home);
    assert BoundAt(s.index, home);
    HeadOf(batch, s.index, home);
    if Posts(s, batch, log, i, j) {
      NotListed(s, batch, i, t);
    }
  }

  lemma {:induction false} BoundedAtIff(batch: Batch, log: real -> real, i: nat, j: nat)
    requires IsPosition(batch, i, j)
    ensures Bounded(StateAt(batch, log, i, j).index) <==>
      forall a, b :: 0 <= a < |batch| && 0 <= b < |Terms(batch[a].text)| && Before(a, b, i, j) ==>
        !Overfills(StateAt(batch, log, a, b), batch, log, a, b)
    decreases i, j
  {
    hide Step, Overfills, Bounded, Whole, Terms;
    if j > 0 {
      BoundedAtIff(batch, log, i, j - 1);
      StepBound(StateAt(batch, log, i, j - 1), batch, log, i, j - 1);
    } else if i > 0 {
      BoundedAtIff(batch, log, i - 1, |Terms(batch[i - 1].text)|);
    } else {
      NothingBounded();
    }
  }

  lemma NothingBounded()
    ensures Bounded(map[])
  {
  }

  /** The built index keeps to its header counts if and only if no step overfills an inner dictionary. */
  lemma {:induction false} BoundedIff(batch: Batch, log: real -> real)
    ensures Bounded(BuiltIndex(batch, log)) <==>
      forall i, j :: 0 <= i < |batch| && 0 <= j < |Terms(batch[i].text)| ==>
        !Overfills(StateAt(batch, log, i, j), batch, log, i, j)
  {
    hide Overfills, Bounded, Terms;
    BoundedAtIff(batch, log, |batch|, 0);
  }

  lemma {:induction false} HeadOf(batch: Batch, index: TermTrie, k: Key)
    requires WholeIndex(batch, index)
    ensures k in index ==> EntryHead(batch, k, index[k])
  {
  }

  // ---------- the naive index ----------

  /** The documents in which `t` is posted. */
  ghost function Significant(t: Key, batch: Batch, log: real -> real): set<nat> {
    set d: nat | d < |batch| && Weight(t, batch, d, log) > 0.0
  }

  ghost function KeysOf(batch: Batch, ds: set<nat>): set<Key>
    requires forall d :: d in ds ==> d < |batch|
  {
    set d | d in ds :: DocKey(batch, d)
  }

  lemma {:induction false} KeysSize(batch: Batch, ds: set<nat>)
    requires DistinctOffsets(batch) && forall d :: d in ds ==> d < |batch|
    ensures |KeysOf(batch, ds)| == |ds|
    decreases |ds|
  {
    if ds != {} {
      var d :| d in ds;
      KeysSize(batch, ds - {d});
      assert DocKey(batch, d) !in KeysOf(batch, ds - {d}) by {
        forall e | e in ds - {d}
          ensures DocKey(batch, e) != DocKey(batch, d)
        {
          KeysDiffer(batch, e, d);
        }
      }
      assert KeysOf(batch, ds) == KeysOf(batch, ds - {d}) + {DocKey(batch, d)};
    }
  }

  lemma {:induction false} PostedKeys(index: Index, batch: Batch, log: real -> real, t: Key)
    requires IsIndex(index, batch, log) && t in index
    ensures index[t].docs.Keys == KeysOf(batch, Significant(t, batch, log))
  {
    hide Weight;
    forall d | 0 <= d < |batch|
      ensures DocKey(batch, d) in index[t].docs <==> Weight(t, batch, d, log) > 0.0
    {
      assert PostedOk(index[t], batch, log, t, d, |batch|, 0);
      WeightNeedsTerm(t, batch, d, log);
    }
  }

  /** In the naive index the header never counts fewer documents than are posted, and counts exactly those posted
      iff some document lacks the term and every document containing it as a substring has it as a term. */
  lemma {:induction false} HeaderCountIff(index: Index, batch: Batch, log: real -> real, t: Key)
    requires IsIndex(index, batch, log) && t in index && DistinctOffsets(batch) && IsLog(log)
    ensures |index[t].docs| <= index[t].count
    ensures |index[t].docs| == index[t].count <==>
      && (exists e :: 0 <= e < |batch| && !Occurs(batch[e].text, t))
      && (forall d :: 0 <= d < |batch| && Occurs(batch[d].text, t) ==> t in Terms(batch[d].text))
  {
    hide Weight, IsLog, EntryOk;
    PostedKeys(index, batch, log, t);
    KeysSize(batch, Significant(t, batch, log));
    assert |index[t].docs| == |index[t].docs.Keys|;
    CountIsHeader(index, batch, log, t);
    SignificantContaining(batch, log, t);
  }

  lemma {:induction false} WeightIff(t: Key, batch: Batch, d: nat, log: real -> real)
    requires d < |batch| && IsLog(log) && HeaderCount(t, batch) > 0
    ensures Weight(t, batch, d, log) > 0.0 <==>
      t in Terms(batch[d].text) && exists e :: 0 <= e < |batch| && !Occurs(batch[e].text, t)
    ensures t in Terms(batch[d].text) ==> Occurs(batch[d].text, t)
  {
    if t in Terms(batch[d].text) {
      SignificantIff(t, batch, d, log);
      ReverseFrequencyBounds(t, batch, d, log);
    }
  }

  lemma {:induction false} SignificantContaining(batch: Batch, log: real -> real, t: Key)
    requires IsLog(log) && HeaderCount(t, batch) > 0
    ensures |Significant(t, batch, log)| <= HeaderCount(t, batch)
    ensures |Significant(t, batch, log)| == HeaderCount(t, batch) <==>
      && (exists e :: 0 <= e < |batch| && !Occurs(batch[e].text, t))
      && (forall d :: 0 <= d < |batch| && Occurs(batch[d].text, t) ==> t in Terms(batch[d].text))
  {
    hide Weight, IsLog, Occurs;
    var s, c := Significant(t, batch, log), Containing(t, batch, |batch|);
    forall d | 0 <= d < |batch|
      ensures d in s <==> t in Terms(batch[d].text) && exists e :: 0 <= e < |batch| && !Occurs(batch[e].text, t)
      ensures d in s ==> d in c
    {
      WeightIff(t, batch, d, log);
    }
    SubsetSize(s, c);
    assert c != {};
  }

  lemma {:induction false} CountIsHeader(index: Index, batch: Batch, log: real -> real, t: Key)
    requires IsIndex(index, batch, log) && t in index
    ensures index[t].count == HeaderCount(t, batch) > 0
  {
  }

  // ---------- where the bound breaks ----------

  /** Term `j` of document `i` is taken for another term `p`, whose documents the document is not taken for, whose
      weight is positive, and of which as many documents have been posted as are counted. */
  ghost predicate Overfull(batch: Batch, log: real -> real, i: nat, j: nat)
    requires i < |batch| && j < |Terms(batch[i].text)|
  {
    match FindKey(SeenTerms(batch, i, j), Terms(batch[i].text)[j])
    case None => false
    case Some(p) =>
      && p != Terms(batch[i].text)[j] && FindKey(KeysPosted(batch, log, p, i, j), DocKey(batch, i)) == None
      && HeaderCount(p, batch) > 0 && ReverseFrequency(p, batch, log) > 0.0
      && |KeysPosted(batch, log, p, i, j)| == HeaderCount(p, batch)
  }

  /** The documents posted so far fit the count, with room for one that has the term and is not among them. */
  lemma {:induction false} KeysFit(batch: Batch, log: real -> real, t: Key, i: nat, j: nat)
    requires DistinctOffsets(batch) && IsLog(log) && HeaderCount(t, batch) > 0
    ensures |KeysPosted(batch, log, t, i, j)| <= HeaderCount(t, batch)
    ensures var posted := KeysPosted(batch, log, t, i, j);
      forall d :: 0 <= d < |batch| && Weight(t, batch, d, log) > 0.0 && DocKey(batch, d) !in posted ==>
        |posted| < HeaderCount(t, batch)
  {
    hide Weight, IsLog, DocKey, Has;
    var posted, all := KeysPosted(batch, log, t, i, j), KeysOf(batch, Significant(t, batch, log));
    KeysSize(batch, Significant(t, batch, log));
    SignificantContaining(batch, log, t);
    SubsetSize(posted, all);
    assert forall d :: 0 <= d < |batch| && Weight(t, batch, d, log) > 0.0 ==> DocKey(batch, d) in all;
  }

  /** The naive index keeps to its header counts. */
  lemma {:induction false} ConsistentBounded(s: State, batch: Batch, log: real -> real, i: nat, j: nat)
    requires DistinctOffsets(batch) && IsLog(log) && Whole(batch, log, s) && Consistent(s, batch, log, i, j)
    ensures Bounded(s.index)
  {
    hide KeysPosted, HeaderCount, IsLog, DistinctOffsets, Built, AllEntryCells, Singletons, IndexView, EntryView,
      ReverseFrequency, WholePostings, AllTerms, AllPosted;
    forall k | k in s.index
      ensures BoundAt(s.index, k)
    {
      ConsistentEntry(s, batch, log, i, j, k);
      HeadOf(batch, s.index, k);
      KeysFit(batch, log, k, i, j);
      assert |Inner(s.index, k)| == |Inner(s.index, k).Keys|;
    }
  }

  /** A term weighs something exactly if the reverse frequency it takes is positive. */
  lemma {:induction false} StepWeightSign(s: State, batch: Batch, log: real -> real, i: nat, j: nat)
    requires i < |batch| && j < |Terms(batch[i].text)| && Whole(batch, log, s)
    requires var t := Terms(batch[i].text)[j]; HeaderCount(t, batch) > 0 && TakenFrequency(s, batch, log, t) >= 0.0
    ensures StepWeight(s, batch, log, i, j) > 0.0 <==> TakenFrequency(s, batch, log, Terms(batch[i].text)[j]) > 0.0
  {
    hide Frequency, TakenFrequency, Whole, HeaderCount;
    var t, ts := Terms(batch[i].text)[j], Terms(batch[i].text);
    FrequencyBounds(t, ts);
    ProductSign(Frequency(t, ts), TakenFrequency(s, batch, log, t));
  }

  /** What a term taken for `p` takes over from it. */
  lemma {:induction false} TakenFor(s: State, batch: Batch, log: real -> real, i: nat, j: nat, t: Key, p: Key)
    requires Whole(batch, log, s) && Consistent(s, batch, log, i, j)
    requires FindKey(s.index.Keys, t) == Some(p) && HeaderCount(t, batch) > 0
    ensures p in s.index && HeaderCount(p, batch) > 0 && Inner(s.index, p).Keys == KeysPosted(batch, log, p, i, j)
    ensures TakenFrequency(s, batch, log, t) == ReverseFrequency(p, batch, log)
    ensures EntryHead(batch, p, s.index[p]) && s.index[p][2].count == HeaderCount(p, batch)
  {
    hide KeysPosted, HeaderCount, Built, AllEntryCells, Singletons, IndexView, EntryView, FindKey, ReverseFrequency,
      WholePostings, AllTerms, AllPosted;
    ConsistentEntry(s, batch, log, i, j, p);
    HeadOf(batch, s.index, p);
  }

  lemma {:induction false} OverfillsIff(s: State, batch: Batch, log: real -> real, i: nat, j: nat)
    requires DistinctOffsets(batch) && IsLog(log) && i < |batch| && j < |Terms(batch[i].text)|
    requires Whole(batch, log, s) && Consistent(s, batch, log, i, j)
    ensures Overfills(s, batch, log, i, j) <==> Overfull(batch, log, i, j)
  {
    hide KeysPosted, HeaderCount, IsLog, DistinctOffsets, Consistent, FindKey, ReverseFrequency, Terms, Weight,
      TakenFrequency, StepWeight, WholePostings, AllTerms, SeenTerms, WholeIndex, DocKey;
    var t := Terms(batch[i].text)[j];
    TermCounted(t, batch, i);
    ConsistentKeys(s, batch, log, i, j);
    if FindKey(s.index.Keys, t).Some? {
      var p := FindKey(s.index.Keys, t).value;
      TakenFor(s, batch, log, i, j, t, p);
      SeenIsTerm(batch, i, j, p);
      FrequencySign(batch, log, p);
      StepWeightSign(s, batch, log, i, j);
      OwnDocumentFits(batch, log, i, j);
      assert |Inner(s.index, p)| == |Inner(s.index, p).Keys|;
    }
  }

  lemma {:induction false} SeenIsTerm(batch: Batch, i: nat, j: nat, p: Key)
    requires p in SeenTerms(batch, i, j)
    ensures p in AllTerms(batch)
  {
  }

  /** A document in which a term is met for the first time with positive weight is among those counted. */
  lemma {:induction false} OwnDocumentFits(batch: Batch, log: real -> real, i: nat, j: nat)
    requires DistinctOffsets(batch) && IsLog(log) && i < |batch| && j < |Terms(batch[i].text)|
    ensures var t := Terms(batch[i].text)[j];
      HeaderCount(t, batch) > 0
      && (FindKey(KeysPosted(batch, log, t, i, j), DocKey(batch, i)) == None
          && ReverseFrequency(t, batch, log) > 0.0 ==>
            |KeysPosted(batch, log, t, i, j)| < HeaderCount(t, batch))
  {
    hide KeysPosted, HeaderCount, IsLog, DistinctOffsets, FindKey, ReverseFrequency, Terms, Weight, DocKey, Frequency;
    var t, ts := Terms(batch[i].text)[j], Terms(batch[i].text);
    var posted := KeysPosted(batch, log, t, i, j);
    WeightOfTerm(t, batch, i, log);
    KeysFit(batch, log, t, i, j);
    FindKeyIff(posted, DocKey(batch, i));
    FrequencyBounds(t, ts);
    if ReverseFrequency(t, batch, log) > 0.0 {
      ProductSign(Frequency(t, ts), ReverseFrequency(t, batch, log));
    }
  }

  /** From the naive index a step breaks the bound if and only if the term is taken for another whose documents are
      complete, but do not seem to include this one. */
  lemma {:induction false} BoundBreaksIff(s: State, batch: Batch, log: real -> real, i: nat, j: nat)
    requires DistinctOffsets(batch) && IsLog(log) && i < |batch| && j < |Terms(batch[i].text)|
    requires Whole(batch, log, s) && Consistent(s, batch, log, i, j)
    ensures Bounded(s.index) && (Bounded(Step(s, batch, log, i, j).index) <==> !Overfull(batch, log, i, j))
  {
    hide Step, Consistent, Overfull, Overfills, IsLog, DistinctOffsets, Bounded, Whole;
    ConsistentBounded(s, batch, log, i, j);
    StepBound(s, batch, log, i, j);
    OverfillsIff(s, batch, log, i, j);
  }

  // ---------- a batch on which it breaks ----------

  /** "his hit" */
  const HIS_HIT: Text := [104, 105, 115, 32, 104, 105, 116]

  /** The second document starts behind the eight bytes of the size and the seven of the text of the first. */
  const HIS_HIT_THEN_HAS: Batch := [Document(HIS_HIT, 0), Document(HAS, 15)]

  lemma TwoDocuments()
    ensures Terms(HIS_HIT) == [HIS, HIT] && Terms(HAS) == [HAS]
  {
    hide Runs, Scan;
    var d := TERM_DELIMITERS;
    LastWord(HIS_HIT, 4);
    LastWord(HAS, 0);
    ScanIs(HIS_HIT, d, 0, false, 0);
    ScanIs(HIS_HIT, d, 0, true, 3);
    RunsHead(HIS_HIT, d, 0);
    assert Runs(HIS_HIT, d, 0) == [Run(0, 3), Run(4, 7)];
    assert HIS_HIT[0..3] == HIS && HIS_HIT[4..7] == HIT && HAS[0..3] == HAS;
  }

  lemma LastWord(s: Text, a: nat)
    requires a < |s| && forall i :: a <= i < |s| ==> s[i] !in TERM_DELIMITERS
    ensures Runs(s, TERM_DELIMITERS, a) == [Run(a, |s|)]
  {
    hide Runs, Scan;
    var d := TERM_DELIMITERS;
    ScanIs(s, d, a, false, a);
    ScanIs(s, d, a, true, |s|);
    ScanIs(s, d, |s|, false, |s|);
    RunsHead(s, d, a);
    RunsHead(s, d, |s|);
  }

  /** "his" occurs in the first document only, so it is counted once and weighs something there. */
  lemma HisCountedOnce(log: real -> real)
    requires IsLog(log)
    ensures HeaderCount(HIS, HIS_HIT_THEN_HAS) == 1 && ReverseFrequency(HIS, HIS_HIT_THEN_HAS, log) > 0.0
  {
    var batch := HIS_HIT_THEN_HAS;
    assert HIS_HIT[0..3] == HIS && OccursAt(HIS_HIT, HIS, 0);
    assert HAS[0..3] == HAS && !Occurs(HAS, HIS);
    assert Containing(HIS, batch, |batch|) == {0};
  }

  lemma HasTakenForHis()
    ensures FindKey({HIS, HIT}, HAS) == Some(HIS)
  {
    hide Resolves;
    assert HIS[2..] == [115] && HAS[2..] == [115] && HIS[..2] == HIT[..2];
    assert Shadows(HIS, HAS, HIT, 2);
    ShadowClashes(HIS, HAS, HIT, 2);
    AllResolvedEqual({HIS, HIT}, HAS);
  }

  lemma FifteenNotZero()
    ensures Decimal(0) == [48] && Decimal(15) == [49, 53] && FindKey({Decimal(0)}, Decimal(15)) == None
  {
    assert Decimal(1) == [49];
  }

  /** The terms read, and the documents of "his" posted, before the second document. */
  lemma {:induction false} BeforeHas(log: real -> real)
    requires IsLog(log)
    ensures SeenTerms(HIS_HIT_THEN_HAS, 1, 0) == {HIS, HIT}
    ensures KeysPosted(HIS_HIT_THEN_HAS, log, HIS, 1, 0) == {Decimal(0)}
  {
    hide Terms, HeaderCount, ReverseFrequency, Decimal, Occurs, IsLog;
    var batch := HIS_HIT_THEN_HAS;
    TwoDocuments();
    forall t
      ensures t in SeenTerms(batch, 1, 0) <==> t in [HIS, HIT]
    {
      assert batch[0].text == HIS_HIT;
      assert Has(batch, t, 0, 1, 0) <==> t in [HIS, HIT];
      assert !Has(batch, t, 1, 1, 0);
      if t in [HIS, HIT] {
        TermCounted(t, batch, 0);
      }
    }
    HisCountedOnce(log);
    assert HIS in Terms(batch[0].text);
    WeightOfTerm(HIS, batch, 0, log);
    SignificantIff(HIS, batch, 0, log);
    HisMissing();
  }

  lemma HisMissing()
    ensures !Occurs(HIS_HIT_THEN_HAS[1].text, HIS)
  {
    assert HAS[0..3] == HAS;
  }

  /** Up to the second document the dictionaries are those of the naive definition. */
  lemma {:induction false} ConsistentUpToHas(log: real -> real)
    requires IsLog(log)
    ensures ConsistentAt(HIS_HIT_THEN_HAS, log, 1, 0)
  {
    hide Step, Terms, LaxClash, CaseClash, Consistent, IsLog, SeenTerms, KeysPosted, DocKey;
    var batch := HIS_HIT_THEN_HAS;
    TwoDocuments();
    NothingBuilt(batch, log);
    FirstDocumentFree(log);
    StepIff(StateAt(batch, log, 0, 0), batch, log, 0, 0);
    StepIff(StateAt(batch, log, 0, 1), batch, log, 0, 1);
    DocumentDone(StateAt(batch, log, 0, 2), batch, log, 0);
  }

  /** In the first document nothing clashes. */
  lemma {:induction false} FirstDocumentFree(log: real -> real)
    ensures Terms(HIS_HIT_THEN_HAS[0].text) == [HIS, HIT]
    ensures !Clash(HIS_HIT_THEN_HAS, log, 0, 0) && !Clash(HIS_HIT_THEN_HAS, log, 0, 1)
  {
    hide Terms, LaxClash, CaseClash, Weight, DocKey;
    var batch := HIS_HIT_THEN_HAS;
    TwoDocuments();
    forall t
      ensures t !in SeenTerms(batch, 0, 0) && (t in SeenTerms(batch, 0, 1) <==> t == HIS)
    {
      assert batch[0].text == HIS_HIT;
      if t == HIS {
        TermCounted(t, batch, 0);
        assert Has(batch, t, 0, 0, 1);
      }
    }
    assert SeenTerms(batch, 0, 0) == {} && SeenTerms(batch, 0, 1) == {HIS};
    assert KeysPosted(batch, log, HIS, 0, 0) == {} == KeysPosted(batch, log, HIT, 0, 1);
    NothingConfused(HIS);
    NothingConfused(DocKey(batch, 0));
    ThreeTermsConfused();
  }

  lemma {:induction false} EndOfHas(log: real -> real)
    ensures |Terms(HIS_HIT_THEN_HAS[1].text)| == 1
    ensures BuiltIndex(HIS_HIT_THEN_HAS, log)
         == Step(StateAt(HIS_HIT_THEN_HAS, log, 1, 0), HIS_HIT_THEN_HAS, log, 1, 0).index
  {
    hide Step, Terms;
    TwoDocuments();
    var batch := HIS_HIT_THEN_HAS;
    assert StateAt(batch, log, 2, 0) == StateAt(batch, log, 1, 1);
  }

  /** Built from "his hit" and "has", the record of "his" counts one document and holds both. */
  lemma {:induction false} OverfullBatch(log: real -> real)
    requires IsLog(log)
    ensures var index := BuiltIndex(HIS_HIT_THEN_HAS, log);
      && HIS in index && |index[HIS]| == 3 && index[HIS][2] == EntryCount(1)
      && Inner(index, HIS).Keys == {Decimal(0), Decimal(15)} && !Bounded(index)
  {
    hide Step, Terms, Consistent, IsLog, SeenTerms, KeysPosted, Decimal, FindKey, Whole, BuiltIndex, HeaderCount,
      ReverseFrequency, Overfills, Inner, Bounded;
    var batch := HIS_HIT_THEN_HAS;
    TwoDocuments();
    ConsistentUpToHas(log);
    var s := StateAt(batch, log, 1, 0);
    BeforeHas(log);
    HasTakenForHis();
    FifteenNotZero();
    HisCountedOnce(log);
    OffsetsDiffer();
    assert Overfull(batch, log, 1, 0);
    BoundBreaksIff(s, batch, log, 1, 0);
    OverfillsIff(s, batch, log, 1, 0);
    EndOfHas(log);
    assert s.index.Keys == {HIS, HIT} by { ConsistentKeys(s, batch, log, 1, 0); }
    HisOverfilled(s, log);
  }

  lemma OffsetsDiffer()
    ensures DistinctOffsets(HIS_HIT_THEN_HAS)
  {
  }

  lemma {:induction false} HisOverfilled(s: State, log: real -> real)
    requires var batch := HIS_HIT_THEN_HAS; Whole(batch, log, s) && Consistent(s, batch, log, 1, 0)
    requires Terms(HAS) == [HAS] && Overfills(s, HIS_HIT_THEN_HAS, log, 1, 0) && HeaderCount(HIS, HIS_HIT_THEN_HAS) == 1
    requires FindKey(s.index.Keys, HAS) == Some(HIS)
    requires KeysPosted(HIS_HIT_THEN_HAS, log, HIS, 1, 0) == {Decimal(0)}
    ensures var index := Step(s, HIS_HIT_THEN_HAS, log, 1, 0).index;
      && HIS in index && |index[HIS]| == 3 && index[HIS][2] == EntryCount(1)
      && Inner(index, HIS).Keys == {Decimal(0), Decimal(15)}
  {
    hide Step, Terms, SeenTerms, KeysPosted, Decimal, FindKey, HeaderCount, ReverseFrequency, Built, AllEntryCells,
      IndexView, EntryView, WholePostings, AllTerms, Posts, StepWeight, AllPosted, Singletons;
    var batch := HIS_HIT_THEN_HAS;
    ConsistentEntry(s, batch, log, 1, 0, HIS);
    HeadOf(batch, s.index, HIS);
    StepAt(s, batch, log, 1, 0, HIS);
    assert Inner(s.index, HIS).Keys == {Decimal(0)} && DocKey(batch, 1) == Decimal(15);
  }
}
