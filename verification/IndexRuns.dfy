/** When the index built in tries is the naive one: at every step, exactly if no lookup or append clashes. */
module IndexRuns {
  import opened Keys
  import opened Wrappers
  import opened TrieSpec
  import opened Agreement
  import opened Tokeniser
  import opened Weights
  import opened Index
  import opened IndexTries

  // ---------- what exact dictionaries hold ----------

  ghost predicate AllPosted(postings: Postings) {
    forall k {:trigger PostedCells(postings[k])} :: k in postings ==> PostedCells(postings[k])
  }

  ghost predicate EntryCells(t: Key, cells: seq<EntryCell>) {
    && |cells| == 3 && cells[0].EntryPostings? && cells[1] == EntryName(t) && cells[2].EntryCount?
    && AllPosted(cells[0].postings)
  }

  ghost predicate AllEntryCells(index: TermTrie) {
    forall t {:trigger EntryCells(t, index[t])} :: t in index ==> EntryCells(t, index[t])
  }

  ghost function PostingsView(postings: Postings): map<Key, Posted>
    requires AllPosted(postings)
  {
    map k | k in postings ::
      assert PostedCells(postings[k]);
      Posted(postings[k][0].offset, postings[k][1].significancy)
  }

  ghost function EntryView(t: Key, cells: seq<EntryCell>): TermEntry
    requires EntryCells(t, cells)
  {
    TermEntry(PostingsView(cells[0].postings), cells[2].count)
  }

  ghost function IndexView(index: TermTrie): Index
    requires AllEntryCells(index)
  {
    map t | t in index ::
      assert EntryCells(t, index[t]);
      EntryView(t, index[t])
  }

  ghost predicate Singletons(cache: FrequencyTrie) {
    forall t :: t in cache ==> |cache[t]| == 1
  }

  ghost function CacheView(cache: FrequencyTrie): map<Text, real>
    requires Singletons(cache)
  {
    map t | t in cache :: cache[t][0]
  }

  /** The dictionaries hold what the naive definition says, for the terms read so far. */
  ghost predicate Consistent(s: State, batch: Batch, log: real -> real, i: nat, j: nat) {
    && AllEntryCells(s.index) && Singletons(s.cache)
    && Built(IndexView(s.index), CacheView(s.cache), batch, log, i, j)
  }

  /** The index holds what the naive definition says. */
  ghost predicate Naive(index: TermTrie, batch: Batch, log: real -> real) {
    AllEntryCells(index) && IsIndex(IndexView(index), batch, log)
  }

  // ---------- clashes, on the naive sets ----------

  /** The terms read so far. */
  ghost function SeenTerms(batch: Batch, i: nat, j: nat): set<Key> {
    set t | t in AllTerms(batch) && Seen(batch, t, i, j)
  }

  /** The documents in which `t` has been met with positive weight so far. */
  ghost function KeysPosted(batch: Batch, log: real -> real, t: Key, i: nat, j: nat): set<Key> {
    set d | 0 <= d < |batch| && Has(batch, t, d, i, j) && Weight(t, batch, d, log) > 0.0 :: DocKey(batch, d)
  }

  /** Term `j` of document `i` is taken for another term, would land at another term, or its document is
      taken for another document of the term. */
  ghost predicate Clash(batch: Batch, log: real -> real, i: nat, j: nat)
    requires i < |batch| && j < |Terms(batch[i].text)|
  {
    var t := Terms(batch[i].text)[j];
    || LaxClash(SeenTerms(batch, i, j), t)
    || CaseClash(SeenTerms(batch, i, j), t)
    || LaxClash(KeysPosted(batch, log, t, i, j), DocKey(batch, i))
  }

  ghost predicate NoClash(batch: Batch, log: real -> real) {
    forall i, j :: 0 <= i < |batch| && 0 <= j < |Terms(batch[i].text)| ==> !Clash(batch, log, i, j)
  }

  // ---------- keys of consistent dictionaries ----------

  lemma {:induction false} ConsistentKeys(s: State, batch: Batch, log: real -> real, i: nat, j: nat)
    requires Consistent(s, batch, log, i, j)
    ensures s.index.Keys == s.cache.Keys == SeenTerms(batch, i, j)
    ensures IndexView(s.index).Keys == s.index.Keys && CacheView(s.cache).Keys == s.cache.Keys
  {
    hide Weight, EntryOk;
    forall u
      ensures u in s.index <==> Seen(batch, u, i, j)
      ensures u in s.cache <==> u in s.index
      ensures Seen(batch, u, i, j) ==> u in AllTerms(batch)
    {
      assert TermOk(IndexView(s.index), CacheView(s.cache), batch, log, u, i, j);
    }
  }

  lemma {:induction false} ConsistentEntry(s: State, batch: Batch, log: real -> real, i: nat, j: nat, t: Key)
    requires Consistent(s, batch, log, i, j)
    ensures t in s.index ==>
      && EntryCells(t, s.index[t]) && t in s.cache && HeaderCount(t, batch) > 0
      && EntryView(t, s.index[t]) == IndexView(s.index)[t]
      && s.index[t][0].postings.Keys == IndexView(s.index)[t].docs.Keys == KeysPosted(batch, log, t, i, j)
      && |s.cache[t]| == 1 && s.cache[t][0] == ReverseFrequency(t, batch, log)
    ensures t !in s.index ==> KeysPosted(batch, log, t, i, j) == {}
  {
    hide Weight;
    assert TermOk(IndexView(s.index), CacheView(s.cache), batch, log, t, i, j);
    if t in s.index {
      assert EntryCells(t, s.index[t]);
      var e := IndexView(s.index)[t];
      assert e.docs.Keys == s.index[t][0].postings.Keys;
      EntryKeys(e, batch, log, t, i, j);
    } else {
      assert forall d :: 0 <= d < |batch| ==> !Has(batch, t, d, i, j);
    }
  }

  lemma {:induction false} EntryKeys(e: TermEntry, batch: Batch, log: real -> real, t: Key, i: nat, j: nat)
    requires EntryOk(e, batch, log, t, i, j)
    ensures e.docs.Keys == KeysPosted(batch, log, t, i, j)
  {
    hide Weight, Has;
    forall d | 0 <= d < |batch|
      ensures DocKey(batch, d) in e.docs <==> Has(batch, t, d, i, j) && Weight(t, batch, d, log) > 0.0
    {
      assert PostedOk(e, batch, log, t, d, i, j);
    }
  }

  // ---------- a step without a clash ----------

  lemma {:induction false} NewEntryView(index: TermTrie, t: Key, count: nat)
    requires AllEntryCells(index) && t !in index
    ensures var index' := index[t := [EntryPostings(map[]), EntryName(t), EntryCount(count)]];
      AllEntryCells(index') && IndexView(index') == IndexView(index)[t := TermEntry(map[], count)]
  {
  }

  lemma {:induction false} PostView(index: TermTrie, t: Key, key: Key, o: nat, w: real)
    requires AllEntryCells(index) && t in index && EntryCells(t, index[t])
    ensures var postings := index[t][0].postings[key := [DocumentOffset(o), DocumentWeight(w)]];
      var index', e := index[t := index[t][0 := EntryPostings(postings)]], EntryView(t, index[t]);
      AllEntryCells(index') && IndexView(index') == IndexView(index)[t := e.(docs := e.docs[key := Posted(o, w)])]
  {
    var before := index[t][0].postings;
    var postings := before[key := [DocumentOffset(o), DocumentWeight(w)]];
    var index' := index[t := index[t][0 := EntryPostings(postings)]];
    forall k | k in postings
      ensures PostedCells(postings[k])
    {
      assert k != key ==> PostedCells(before[k]);
    }
    assert PostingsView(postings) == PostingsView(before)[key := Posted(o, w)];
    forall u | u in index'
      ensures EntryCells(u, index'[u])
    {
      assert u != t ==> EntryCells(u, index[u]);
    }
  }

  /** Without a clash every lookup finds its own key and every append lands at its own key. */
  lemma {:induction false} ExactFinds(s: State, batch: Batch, log: real -> real, i: nat, j: nat)
    requires i < |batch| && j < |Terms(batch[i].text)|
    requires Consistent(s, batch, log, i, j) && !Clash(batch, log, i, j)
    ensures var t, key := Terms(batch[i].text)[j], DocKey(batch, i);
      && s.index.Keys == s.cache.Keys && FindKey(s.index.Keys, t) == (if t in s.index then Some(t) else None)
      && Landing(s.index.Keys, t, []) == t
      && (t in s.index ==>
            && EntryCells(t, s.index[t]) && Landing(s.index[t][0].postings.Keys, key, []) == key
            && (FindKey(s.index[t][0].postings.Keys, key).Some? <==> key in s.index[t][0].postings))
      && Landing({}, key, []) == key
  {
    hide FindKey, Landing, CaseClash, LaxClash, Weight, EntryCells, AllEntryCells;
    var t, key := Terms(batch[i].text)[j], DocKey(batch, i);
    ConsistentKeys(s, batch, log, i, j);
    ConsistentEntry(s, batch, log, i, j, t);
    FindKeyIff(s.index.Keys, t);
    LandingExact(s.index.Keys, t);
    var posted := KeysPosted(batch, log, t, i, j);
    FindKeyIff(posted, key);
    KeysLandExactly(batch, posted, key);
    KeysLandExactly(batch, {}, key);
  }

  /** The term has an entry, of which lookup finds the inner dictionary. */
  ghost predicate Entered(index: TermTrie, t: Key, e: TermEntry) {
    AllEntryCells(index) && t in index && EntryCells(t, index[t]) && EntryView(t, index[t]) == e
  }

  lemma {:induction false} EntryTaken(index: TermTrie, batch: Batch, t: Key)
    requires AllEntryCells(index) && Landing(index.Keys, t, []) == t
    requires FindKey(index.Keys, t) == if t in index then Some(t) else None
    ensures var view, index' := IndexView(index), WithEntry(index, batch, t);
      var e := if t in view then view[t] else TermEntry(map[], HeaderCount(t, batch));
      Entered(index', t, e) && IndexView(index') == view[t := e] && HomeOf(index, t) == (t, 0)
  {
    hide FindKey, Landing, HeaderCount;
    if t !in index {
      assert [] + NewCells(t, batch) == NewCells(t, batch);
      NewEntryView(index, t, HeaderCount(t, batch));
    }
    assert EntryCells(t, WithEntry(index, batch, t)[t]) && PostingsView(map[]) == map[];
  }

  /** What posting does to the view. */
  lemma {:induction false} PostedView(index: TermTrie, t: Key, e: TermEntry, key: Key, o: nat, w: real)
    requires Entered(index, t, e) && key !in e.docs && Landing(e.docs.Keys, key, []) == key
    ensures var index' := PostAt(index, t, 0, key, o, w);
      && AllEntryCells(index')
      && IndexView(index') == IndexView(index)[t := e.(docs := e.docs[key := Posted(o, w)])]
  {
    hide Landing;
    assert index[t][0].postings.Keys == e.docs.Keys;
    assert [] + [DocumentOffset(o), DocumentWeight(w)] == [DocumentOffset(o), DocumentWeight(w)];
    PostView(index, t, key, o, w);
  }

  /** What the cache is after the term has taken its reverse frequency. */
  lemma {:induction false} CacheTaken(s: State, batch: Batch, log: real -> real, t: Key)
    requires Singletons(s.cache) && HeaderCount(t, batch) > 0 && Landing(s.cache.Keys, t, []) == t
    requires FindKey(s.cache.Keys, t) == if t in s.cache then Some(t) else None
    ensures var r := ReverseFrequency(t, batch, log);
      var cache' := if FindKey(s.cache.Keys, t).Some? then s.cache else AppendAll(s.cache, t, [r]);
      Singletons(cache') && CacheView(cache') == Cached(CacheView(s.cache), batch, log, t)
  {
    hide Landing, FindKey;
    assert [] + [ReverseFrequency(t, batch, log)] == [ReverseFrequency(t, batch, log)];
  }

  /** Without a clash a document is skipped exactly if it is posted. */
  lemma {:induction false} PostedExact(s: State, batch: Batch, log: real -> real, i: nat, j: nat)
    requires i < |batch| && j < |Terms(batch[i].text)| && Whole(batch, log, s)
    requires Consistent(s, batch, log, i, j) && !Clash(batch, log, i, j)
    ensures var t, key, view := Terms(batch[i].text)[j], DocKey(batch, i), IndexView(s.index);
      var e := if t in view then view[t] else TermEntry(map[], HeaderCount(t, batch));
      && (PostedAlready(batch, s.index, t, key) <==> t in view && key in e.docs)
      && (t !in view ==> key !in e.docs) && Landing(e.docs.Keys, key, []) == key
  {
    hide FindKey, Landing, Built, WholeIndex, Clash, Weight, KeysPosted, SeenTerms, EntryHead, AllEntryCells, IndexView,
      EntryCells, EntryView, CacheView, HeaderCount, AllTerms;
    var t := Terms(batch[i].text)[j];
    ExactFinds(s, batch, log, i, j);
    ConsistentEntry(s, batch, log, i, j, t);
    ConsistentKeys(s, batch, log, i, j);
    var none: map<Key, Posted> := map[];
    assert none.Keys == {};
  }

  /** The dictionaries after an exact step, as values. */
  lemma {:induction false} ExactIndex(s: State, batch: Batch, log: real -> real, i: nat, t: Key, key: Key)
    requires i < |batch| && WholeIndex(batch, s.index) && AllEntryCells(s.index) && Landing(s.index.Keys, t, []) == t
    requires FindKey(s.index.Keys, t) == if t in s.index then Some(t) else None
    requires key == DocKey(batch, i)
    requires var view := IndexView(s.index);
      var e := if t in view then view[t] else TermEntry(map[], HeaderCount(t, batch));
      key !in e.docs && Landing(e.docs.Keys, key, []) == key
    ensures var view, index, home := IndexView(s.index), WithEntry(s.index, batch, t), HomeOf(s.index, t);
      var e, w := if t in view then view[t] else TermEntry(map[], HeaderCount(t, batch)), Weight(t, batch, i, log);
      && home == (t, 0) && t in index && |index[t]| > 0 && index[t][0].EntryPostings?
      && var index' := if w > 0.0 then PostAt(index, t, 0, key, batch[i].offset, w) else index;
      AllEntryCells(index') && IndexView(index') == view[t := WithPosting(e, batch, log, t, i)]
  {
    hide Landing, FindKey, HeaderCount, Weight, WithEntry, PostAt, AllEntryCells, IndexView, EntryCells, EntryView,
      HomeOf, EntryHead, WholeIndex, DocKey;
    HomeHolds(s.index, batch, t);
    EntryTaken(s.index, batch, t);
    var view := IndexView(s.index);
    var e := if t in view then view[t] else TermEntry(map[], HeaderCount(t, batch));
    if Weight(t, batch, i, log) > 0.0 {
      PostedView(WithEntry(s.index, batch, t), t, e, key, batch[i].offset, Weight(t, batch, i, log));
    }
  }

  /** Without a clash a step takes consistent dictionaries to consistent ones. */
  lemma {:induction false} ExactStep(s: State, batch: Batch, log: real -> real, i: nat, j: nat)
    requires DistinctOffsets(batch) && IsLog(log) && i < |batch| && j < |Terms(batch[i].text)|
    requires Whole(batch, log, s) && Consistent(s, batch, log, i, j) && !Clash(batch, log, i, j)
    ensures Consistent(Step(s, batch, log, i, j), batch, log, i, j + 1)
  {
    hide Built, IsLog, Landing, FindKey, Frequency, HeaderCount, ReverseFrequency, AllEntryCells, EntryCells, EntryView,
      IndexView, CacheView, Singletons, WithEntry, HomeOf, PostAt, AppendAll, Weight, DocKey, WholeIndex, Clash,
      WithPosting, PostedAlready, KeysPosted, SeenTerms, TermSignificancy;
    var t, key := Terms(batch[i].text)[j], DocKey(batch, i);
    var view := IndexView(s.index);
    ExactFinds(s, batch, log, i, j);
    ConsistentEntry(s, batch, log, i, j, t);
    ConsistentKeys(s, batch, log, i, j);
    WeightOfTerm(t, batch, i, log);
    AssignStep(view, CacheView(s.cache), batch, log, i, j, t);
    CacheTaken(s, batch, log, t);
    PostedExact(s, batch, log, i, j);
    assert TakenFrequency(s, batch, log, t) == ReverseFrequency(t, batch, log);
    var s' := Step(s, batch, log, i, j);
    if !PostedAlready(batch, s.index, t, key) {
      ExactIndex(s, batch, log, i, t, key);
      var index, w := WithEntry(s.index, batch, t), Weight(t, batch, i, log);
      assert s'.index == if w > 0.0 then PostAt(index, t, 0, key, batch[i].offset, w) else index;
    }
    assert AllEntryCells(s'.index) && IndexView(s'.index) == Assigned(view, batch, log, t, i);
    assert Singletons(s'.cache) && CacheView(s'.cache) == Cached(CacheView(s.cache), batch, log, t);
  }

  // ---------- a step with a clash ----------

  /** A term that clashes gets no entry. */
  lemma {:induction false} ClashingTermMissing(s: State, batch: Batch, log: real -> real, i: nat, j: nat)
    requires i < |batch| && j < |Terms(batch[i].text)| && Whole(batch, log, s)
    requires var t := Terms(batch[i].text)[j]; LaxClash(s.index.Keys, t) || CaseClash(s.index.Keys, t)
    ensures Terms(batch[i].text)[j] !in Step(s, batch, log, i, j).index
  {
    hide Step, Landing, FindKey, CaseClash, LaxClash;
    var t := Terms(batch[i].text)[j];
    StepKeys(s, batch, log, i, j);
    FindKeyIff(s.index.Keys, t);
    LandingExact(s.index.Keys, t);
    if t in s.index {
      StoredNeverClashes(s.index.Keys, t);
    } else if LaxClash(s.index.Keys, t) {
      LaxClashFinds(s.index.Keys, t);
    }
  }

  lemma LaxClashFinds(K: set<Key>, t: Key)
    requires LaxClash(K, t)
    ensures FindKey(K, t).Some?
  {
    AllResolvedEqual(K, t);
  }

  /** A document taken for another is not posted, though its weight is positive. */
  lemma {:induction false} ClashingDocumentMissing(s: State, batch: Batch, log: real -> real, i: nat, j: nat)
    requires i < |batch| && j < |Terms(batch[i].text)| && IsLog(log)
    requires Whole(batch, log, s) && Consistent(s, batch, log, i, j)
    requires LaxClash(KeysPosted(batch, log, Terms(batch[i].text)[j], i, j), DocKey(batch, i))
    ensures var t := Terms(batch[i].text)[j];
      && Step(s, batch, log, i, j) == s && t in s.index && DocKey(batch, i) !in IndexView(s.index)[t].docs
      && Weight(t, batch, i, log) > 0.0
  {
    hide Landing, FindKey, Resolves, IsLog, Weight, Built, WholeIndex, AllEntryCells, IndexView, DocKey;
    var t, key := Terms(batch[i].text)[j], DocKey(batch, i);
    var posted := KeysPosted(batch, log, t, i, j);
    ConsistentEntry(s, batch, log, i, j, t);
    ConsistentKeys(s, batch, log, i, j);
    FindKeyIff(posted, key);
    LaxClashFinds(posted, key);
    FindKeyIff(s.index.Keys, t);
    var p :| p in posted && p != key && Resolves(posted, key, p);
    var d :| 0 <= d < |batch| && Weight(t, batch, d, log) > 0.0;
    WeightsAgree(t, batch, d, i, log);
  }

  /** A term that weighs something in one document does so in every document that has it. */
  lemma {:induction false} WeightsAgree(t: Text, batch: Batch, d: nat, i: nat, log: real -> real)
    requires d < |batch| && i < |batch| && IsLog(log) && t in Terms(batch[i].text) && Weight(t, batch, d, log) > 0.0
    ensures Weight(t, batch, i, log) > 0.0
  {
    hide IsLog, Terms, HeaderCount, Significancy;
    SignificantIff(t, batch, d, log);
    SignificantIff(t, batch, i, log);
  }

  /** With a clash it does not. */
  lemma {:induction false} ClashingStep(s: State, batch: Batch, log: real -> real, i: nat, j: nat)
    requires i < |batch| && j < |Terms(batch[i].text)| && IsLog(log)
    requires Whole(batch, log, s) && Consistent(s, batch, log, i, j) && Clash(batch, log, i, j)
    ensures !Consistent(Step(s, batch, log, i, j), batch, log, i, j + 1)
  {
    hide Step, CaseClash, LaxClash, IsLog, Weight, EntryOk, WholeIndex, EntryCells, EntryView;
    var t, n, s' := Terms(batch[i].text)[j], j + 1, Step(s, batch, log, i, j);
    ConsistentKeys(s, batch, log, i, j);
    SeenNow(batch, t, i, j);
    if LaxClash(s.index.Keys, t) || CaseClash(s.index.Keys, t) {
      ClashingTermMissing(s, batch, log, i, j);
      if Consistent(s', batch, log, i, n) {
        ConsistentKeys(s', batch, log, i, n);
        TermCounted(t, batch, i);
      }
    } else {
      ClashingDocumentMissing(s, batch, log, i, j);
      if Consistent(s', batch, log, i, n) {
        ConsistentEntry(s', batch, log, i, n, t);
        PostedByNow(batch, log, t, i, n);
      }
    }
  }

  lemma {:induction false} PostedByNow(batch: Batch, log: real -> real, t: Key, i: nat, n: nat)
    requires i < |batch| && 0 < n <= |Terms(batch[i].text)| && t == Terms(batch[i].text)[n - 1]
    requires Weight(t, batch, i, log) > 0.0
    ensures DocKey(batch, i) in KeysPosted(batch, log, t, i, n)
  {
    hide Weight;
    HasMore(batch, t, i, i, n - 1);
  }

  /** A step keeps consistent dictionaries consistent if and only if it does not clash. */
  lemma {:induction false} StepIff(s: State, batch: Batch, log: real -> real, i: nat, j: nat)
    requires DistinctOffsets(batch) && IsLog(log) && i < |batch| && j < |Terms(batch[i].text)|
    requires Whole(batch, log, s) && Consistent(s, batch, log, i, j)
    ensures Consistent(Step(s, batch, log, i, j), batch, log, i, j + 1) <==> !Clash(batch, log, i, j)
  {
    hide Step, Consistent, Clash, IsLog;
    if Clash(batch, log, i, j) {
      ClashingStep(s, batch, log, i, j);
    } else {
      ExactStep(s, batch, log, i, j);
    }
  }

  // ---------- whole runs ----------

  /** Documents before `i` and the first `j` terms of document `i` have been read. */
  ghost predicate IsPosition(batch: Batch, i: nat, j: nat) {
    i <= |batch| && if i < |batch| then j <= |Terms(batch[i].text)| else j == 0
  }

  /** Step `(a, b)` comes before position `(i, j)`. */
  ghost predicate Before(a: nat, b: nat, i: nat, j: nat) {
    a < i || (a == i && b < j)
  }

  /** The dictionaries at a position, as the loops build them. */
  ghost function StateAt(batch: Batch, log: real -> real, i: nat, j: nat): (s: State)
    requires IsPosition(batch, i, j)
    ensures Whole(batch, log, s)
    decreases i, j
  {
    hide Step, AllTerms;
    if j > 0 then
      StepKeepsWhole(StateAt(batch, log, i, j - 1), batch, log, i, j - 1);
      Step(StateAt(batch, log, i, j - 1), batch, log, i, j - 1)
    else if i > 0 then
      StateAt(batch, log, i - 1, |Terms(batch[i - 1].text)|)
    else
      State(map[], map[])
  }

  /** The index after the whole batch. */
  ghost function BuiltIndex(batch: Batch, log: real -> real): TermTrie {
    StateAt(batch, log, |batch|, 0).index
  }

  ghost predicate ConsistentAt(batch: Batch, log: real -> real, i: nat, j: nat)
    requires IsPosition(batch, i, j)
  {
    Consistent(StateAt(batch, log, i, j), batch, log, i, j)
  }

  lemma {:induction false} NothingBuilt(batch: Batch, log: real -> real)
    ensures Consistent(State(map[], map[]), batch, log, 0, 0)
  {
    assert IndexView(map[]) == map[] && CacheView(map[]) == map[];
    forall t
      ensures TermOk(map[], map[], batch, log, t, 0, 0)
    {
      assert forall d :: 0 <= d < |batch| ==> !Has(batch, t, d, 0, 0);
    }
  }

  /** While no step clashes the dictionaries are those of the naive definition. */
  lemma {:induction false} NoClashConsistent(batch: Batch, log: real -> real, i: nat, j: nat)
    requires DistinctOffsets(batch) && IsLog(log) && NoClash(batch, log) && IsPosition(batch, i, j)
    ensures ConsistentAt(batch, log, i, j)
    decreases i, j
  {
    hide Consistent, Clash, IsLog, DistinctOffsets, Step;
    if j > 0 {
      NoClashConsistent(batch, log, i, j - 1);
      StepIff(StateAt(batch, log, i, j - 1), batch, log, i, j - 1);
    } else if i > 0 {
      NoClashConsistent(batch, log, i - 1, |Terms(batch[i - 1].text)|);
      DocumentDone(StateAt(batch, log, i, 0), batch, log, i - 1);
    } else {
      NothingBuilt(batch, log);
    }
  }

  lemma {:induction false} DocumentDone(s: State, batch: Batch, log: real -> real, i: nat)
    requires i < |batch| && Consistent(s, batch, log, i, |Terms(batch[i].text)|)
    ensures Consistent(s, batch, log, i + 1, 0)
  {
    NextDocument(IndexView(s.index), CacheView(s.cache), batch, log, i);
  }

  /** The dictionaries agree with the naive definition at every step if and only if no step clashes. */
  lemma {:induction false} RunIff(batch: Batch, log: real -> real)
    requires DistinctOffsets(batch) && IsLog(log)
    ensures NoClash(batch, log) <==> forall i: nat, j: nat :: IsPosition(batch, i, j) ==> ConsistentAt(batch, log, i, j)
  {
    hide Consistent, Clash, IsLog, DistinctOffsets, Step;
    if NoClash(batch, log) {
      forall i: nat, j: nat | IsPosition(batch, i, j)
        ensures ConsistentAt(batch, log, i, j)
      {
        NoClashConsistent(batch, log, i, j);
      }
    }
    if forall i: nat, j: nat :: IsPosition(batch, i, j) ==> ConsistentAt(batch, log, i, j) {
      forall i, j | 0 <= i < |batch| && 0 <= j < |Terms(batch[i].text)|
        ensures !Clash(batch, log, i, j)
      {
        var n := j + 1;
        assert ConsistentAt(batch, log, i, j) && ConsistentAt(batch, log, i, n);
        StepIff(StateAt(batch, log, i, j), batch, log, i, j);
      }
    }
  }

  /** Then the finished index is the naive one. */
  lemma {:induction false} NoClashIndex(batch: Batch, log: real -> real)
    requires DistinctOffsets(batch) && IsLog(log) && NoClash(batch, log)
    ensures Naive(BuiltIndex(batch, log), batch, log)
  {
    hide NoClash, IsLog, IsIndex;
    NoClashConsistent(batch, log, |batch|, 0);
    var s := StateAt(batch, log, |batch|, 0);
    AllBuilt(IndexView(s.index), CacheView(s.cache), batch, log);
  }

  /** No dictionary of the batch can take one key for another, in whatever order it is filled. */
  ghost predicate TriesExact(batch: Batch) {
    Separable(AllTerms(batch)) && Separable(AllKeys(batch))
  }

  lemma {:induction false} ExactNeverClashes(batch: Batch, log: real -> real)
    requires TriesExact(batch)
    ensures NoClash(batch, log)
  {
    hide Separable, LaxClash, CaseClash, Weight;
    AgreementIff(AllTerms(batch));
    AgreementIff(AllKeys(batch));
    forall i, j | 0 <= i < |batch| && 0 <= j < |Terms(batch[i].text)|
      ensures !Clash(batch, log, i, j)
    {
      TermCounted(Terms(batch[i].text)[j], batch, i);
    }
  }

  // ---------- a batch that clashes ----------

  const HIS: Text := [104, 105, 115]
  const HIT: Text := [104, 105, 116]
  const HAS: Text := [104, 97, 115]

  /** "his hit has" */
  const HIS_HIT_HAS: Text := [104, 105, 115, 32, 104, 105, 116, 32, 104, 97, 115]

  lemma ThreeTerms()
    ensures Terms(HIS_HIT_HAS) == [HIS, HIT, HAS]
  {
    hide Runs, Scan;
    var s, d := HIS_HIT_HAS, TERM_DELIMITERS;
    OneWord(0, 3);
    OneWord(4, 7);
    OneWord(8, 11);
    ScanIs(s, d, 11, false, 11);
    RunsHead(s, d, 11);
    assert Runs(s, d, 0) == [Run(0, 3), Run(4, 7), Run(8, 11)];
    assert s[0..3] == HIS && s[4..7] == HIT && s[8..11] == HAS;
  }

  lemma OneWord(a: nat, b: nat)
    requires a in {0, 4, 8} && b == a + 3
    ensures Runs(HIS_HIT_HAS, TERM_DELIMITERS, a)
         == [Run(a, b)] + Runs(HIS_HIT_HAS, TERM_DELIMITERS, if b == 11 then 11 else b + 1)
  {
    hide Runs, Scan;
    var s, d := HIS_HIT_HAS, TERM_DELIMITERS;
    ScanIs(s, d, a, false, a);
    ScanIs(s, d, a, true, b);
    RunsHead(s, d, a);
  }

  /** In a batch of one document the terms before the `j`-th have been seen. */
  lemma {:induction false} SeenSoFar(document: Document, j: nat)
    requires j <= |Terms(document.text)|
    ensures SeenTerms([document], 0, j) == Elements(Terms(document.text)[..j])
  {
    hide Terms;
    var batch, ts := [document], Terms(document.text);
    forall t
      ensures t in SeenTerms(batch, 0, j) <==> t in ts[..j]
    {
      assert batch[0] == document && (Has(batch, t, 0, 0, j) <==> t in ts[..j]);
      if t in ts[..j] {
        assert t in ts;
        TermCounted(t, batch, 0);
      }
    }
  }

  /** and its key is never taken for another. */
  lemma {:induction false} OneDocument(document: Document, log: real -> real, t: Key, j: nat)
    ensures !LaxClash(KeysPosted([document], log, t, 0, j), DocKey([document], 0))
  {
    hide Weight, LaxClash, DocKey;
    var K, key := KeysPosted([document], log, t, 0, j), DocKey([document], 0);
    FindKeyIff(K, key);
    if key !in K {
      assert K == {};
      NothingConfused(key);
    }
  }

  lemma NothingConfused(s: Key)
    ensures !LaxClash({}, s) && !CaseClash({}, s)
  {
    if CaseClash({}, s) {
      var x := ClashMakesTwins({}, s);
    }
  }

  lemma ThreePrefixes()
    ensures var ts := [HIS, HIT, HAS];
      Elements(ts[..0]) == {} && Elements(ts[..1]) == {HIS} && Elements(ts[..2]) == {HIS, HIT}
  {
    var ts := [HIS, HIT, HAS];
    assert ts[..1] == [HIS] && ts[..2] == [HIS, HIT];
  }

  lemma ThreeTermsConfused()
    ensures !LaxClash({HIS}, HIT) && !CaseClash({HIS}, HIT) && LaxClash({HIS, HIT}, HAS)
  {
    if LaxClash({HIS}, HIT) {
      var p, q, n := LaxClashMakesShadow({HIS}, HIT);
    }
    if CaseClash({HIS}, HIT) {
      var x := ClashMakesTwins({HIS}, HIT);
    }
    assert HIS[2..] == [115] && HAS[2..] == [115] && HIS[..2] == HIT[..2];
    assert Shadows(HIS, HAS, HIT, 2);
    ShadowClashes(HIS, HAS, HIT, 2);
  }

  /** The one-document batch "his hit has": at its third term the lookup finds "his", and "has" gets no entry. */
  lemma {:induction false} FailingBatch(log: real -> real)
    requires IsLog(log)
    ensures var batch := [Document(HIS_HIT_HAS, 0)];
      && HAS in Terms(batch[0].text) && HAS !in BuiltIndex(batch, log)
      && !NoClash(batch, log) && !TriesExact(batch)
  {
    hide Step, Terms, LaxClash, CaseClash, Consistent, IsLog, Landing, FindKey, Separable, SeenTerms, KeysPosted,
      DocKey;
    ThreeTerms();
    var document := Document(HIS_HIT_HAS, 0);
    var batch := [document];
    FirstTwoTerms(log);
    var s := StateAt(batch, log, 0, 2);
    ConsistentKeys(s, batch, log, 0, 2);
    SeenSoFar(document, 2);
    ThreePrefixes();
    ThreeTermsConfused();
    assert Clash(batch, log, 0, 2);
    ClashingTermMissing(s, batch, log, 0, 2);
    assert StateAt(batch, log, 1, 0) == StateAt(batch, log, 0, 3);
    if TriesExact(batch) {
      ExactNeverClashes(batch, log);
    }
  }

  lemma {:induction false} FirstTwoTerms(log: real -> real)
    requires IsLog(log)
    ensures var batch := [Document(HIS_HIT_HAS, 0)];
      2 <= |Terms(HIS_HIT_HAS)| && ConsistentAt(batch, log, 0, 2)
  {
    hide Step, Terms, LaxClash, CaseClash, Consistent, IsLog, SeenTerms, KeysPosted, DocKey;
    ThreeTerms();
    var document := Document(HIS_HIT_HAS, 0);
    var batch := [document];
    NothingBuilt(batch, log);
    SeenSoFar(document, 0);
    SeenSoFar(document, 1);
    ThreePrefixes();
    NothingConfused(HIS);
    ThreeTermsConfused();
    OneDocument(document, log, HIS, 0);
    OneDocument(document, log, HIT, 1);
    StepIff(StateAt(batch, log, 0, 0), batch, log, 0, 0);
    StepIff(StateAt(batch, log, 0, 1), batch, log, 0, 1);
  }
}
