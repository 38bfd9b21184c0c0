/** The inverted index as the storage builds it: in two tries, with their lookups and appends. */
module IndexTries {
  import opened Keys
  import opened Wrappers
  import opened TrieSpec
  import opened Tokeniser
  import opened Weights
  import opened Index

  // ---------- the dictionaries ----------

  /** What the inner dictionary lists under a document: its offset, then a significancy. */
  datatype DocumentCell = DocumentOffset(offset: nat) | DocumentWeight(significancy: real)

  type Postings = map<Key, seq<DocumentCell>>

  /** What the outer dictionary lists under a term: its inner dictionary, the term, the posting count. */
  datatype EntryCell = EntryPostings(postings: Postings) | EntryName(term: Text) | EntryCount(count: nat)

  /** The two dictionaries as tries: term -> cells, and term -> reverse frequencies. */
  type TermTrie = map<Key, seq<EntryCell>>
  type FrequencyTrie = map<Key, seq<real>>

  datatype State = State(index: TermTrie, cache: FrequencyTrie)

  ghost function AllTerms(batch: Batch): set<Key> {
    set d, t | 0 <= d < |batch| && t in Terms(batch[d].text) :: t
  }

  ghost function AllKeys(batch: Batch): set<Key> {
    set d | 0 <= d < |batch| :: DocKey(batch, d)
  }

  // ---------- what holds whatever the lookups find ----------

  ghost predicate PostedCells(cells: seq<DocumentCell>) {
    |cells| == 2 && cells[0].DocumentOffset? && cells[1].DocumentWeight?
  }

  /** Under `k` stand the offset of a document with that decimal numeral, and a positive significancy. */
  ghost predicate DocumentHead(batch: Batch, k: Key, cells: seq<DocumentCell>) {
    && PostedCells(cells) && cells[1].significancy > 0.0
    && exists d :: 0 <= d < |batch| && batch[d].offset == cells[0].offset && DocKey(batch, d) == k
  }

  ghost predicate WholePostings(batch: Batch, postings: Postings) {
    forall k {:trigger DocumentHead(batch, k, postings[k])} :: k in postings ==> DocumentHead(batch, k, postings[k])
  }

  /** Under `k` stand an inner dictionary, a term of the batch that is `k` up to letter case, and the header
      count of that term. */
  ghost predicate EntryHead(batch: Batch, k: Key, cells: seq<EntryCell>) {
    && |cells| >= 3 && cells[0].EntryPostings? && cells[1].EntryName?
    && cells[2] == EntryCount(HeaderCount(cells[1].term, batch)) && HeaderCount(cells[1].term, batch) > 0
    && cells[1].term in AllTerms(batch) && SameUpToCase(k, cells[1].term) && WholePostings(batch, cells[0].postings)
  }

  ghost predicate WholeIndex(batch: Batch, index: TermTrie) {
    forall k {:trigger EntryHead(batch, k, index[k])} :: k in index ==> EntryHead(batch, k, index[k])
  }

  /** The first frequency cached under a key is that of the term named there. */
  ghost predicate FrequencyHead(batch: Batch, log: real -> real, k: Key, s: State) {
    && k in s.cache && k in s.index && EntryHead(batch, k, s.index[k])
    && s.cache[k] != [] && s.cache[k][0] == ReverseFrequency(s.index[k][1].term, batch, log)
  }

  /** Index and cache hold the same keys, and every list starts as it was first filled. */
  ghost predicate Whole(batch: Batch, log: real -> real, s: State) {
    && s.index.Keys == s.cache.Keys && WholeIndex(batch, s.index)
    && forall k {:trigger FrequencyHead(batch, log, k, s)} :: k in s.index ==> FrequencyHead(batch, log, k, s)
  }

  /** Appends to whole inner dictionaries land where they say: numerals have no letter case. */
  lemma {:induction false} KeysLandExactly(batch: Batch, K: set<Key>, key: Key)
    requires K <= AllKeys(batch) && key in AllKeys(batch)
    ensures Landing(K, key, []) == key
  {
    forall k | k in AllKeys(batch)
      ensures FoldFree(k)
    {
      var d :| 0 <= d < |batch| && DocKey(batch, d) == k;
      DecimalFoldFree(batch[d].offset);
    }
    FoldFreeNeverClashes(K, key);
    LandingExact(K, key);
  }

  lemma {:induction false} WholeKeys(batch: Batch, postings: Postings)
    requires WholePostings(batch, postings)
    ensures postings.Keys <= AllKeys(batch)
  {
    forall k | k in postings
      ensures k in AllKeys(batch)
    {
      assert DocumentHead(batch, k, postings[k]);
    }
  }

  // ---------- one term of a document ----------

  lemma {:induction false} TermCounted(t: Text, batch: Batch, d: nat)
    requires d < |batch| && t in Terms(batch[d].text)
    ensures HeaderCount(t, batch) > 0 && t in AllTerms(batch)
  {
    var ts := Terms(batch[d].text);
    var i :| 0 <= i < |ts| && ts[i] == t;
    TokensAreRuns(batch[d].text, TERM_DELIMITERS, i);
    assert d in Containing(t, batch, |batch|);
  }

  /** Reverse frequencies of terms of the batch are not negative. */
  lemma {:induction false} FrequencySign(batch: Batch, log: real -> real, p: Key)
    requires IsLog(log) && p in AllTerms(batch) && HeaderCount(p, batch) > 0
    ensures ReverseFrequency(p, batch, log) >= 0.0
  {
    hide Terms, ReverseFrequency, IsLog, HeaderCount;
    var d :| 0 <= d < |batch| && p in Terms(batch[d].text);
    ReverseFrequencyBounds(p, batch, d, log);
  }

  /** Lookup finds the document under the term. */
  ghost predicate PostedAlready(batch: Batch, index: TermTrie, t: Key, key: Key)
    requires WholeIndex(batch, index)
  {
    var at := FindKey(index.Keys, t);
    && at.Some?
    && (assert EntryHead(batch, at.value, index[at.value]);
        FindKey(index[at.value][0].postings.Keys, key).Some?)
  }

  /** The reverse frequency that a term takes: the cached one if lookup finds any. */
  ghost function TakenFrequency(s: State, batch: Batch, log: real -> real, t: Key): real
    requires Whole(batch, log, s) && HeaderCount(t, batch) > 0
  {
    match FindKey(s.cache.Keys, t)
    case None => ReverseFrequency(t, batch, log)
    case Some(p) =>
      assert FrequencyHead(batch, log, p, s);
      s.cache[p][0]
  }

  /** The cells of a new entry. */
  ghost function NewCells(t: Key, batch: Batch): seq<EntryCell> {
    [EntryPostings(map[]), EntryName(t), EntryCount(HeaderCount(t, batch))]
  }

  /** The index with an entry for the term, if lookup found none. */
  ghost function WithEntry(index: TermTrie, batch: Batch, t: Key): TermTrie {
    if FindKey(index.Keys, t).Some? then index else AppendAll(index, t, NewCells(t, batch))
  }

  /** Where the inner dictionary of the term stands in it. */
  ghost function HomeOf(index: TermTrie, t: Key): (Key, nat) {
    match FindKey(index.Keys, t)
    case Some(p) => (p, 0)
    case None => (Landing(index.Keys, t, []), |ListAt(index, Landing(index.Keys, t, []))|)
  }

  lemma {:induction false} HomeHolds(index: TermTrie, batch: Batch, t: Key)
    requires WholeIndex(batch, index)
    ensures var home, index' := HomeOf(index, t), WithEntry(index, batch, t);
      home.0 in index' && home.1 < |index'[home.0]| && index'[home.0][home.1].EntryPostings?
  {
    hide Landing, FindKey, AllTerms, HeaderCount;
    var home := HomeOf(index, t);
    if FindKey(index.Keys, t).Some? {
      assert EntryHead(batch, home.0, index[home.0]);
    }
  }

  /** A document listed in the inner dictionary at `pos`. */
  ghost function PostAt(index: TermTrie, home: Key, pos: nat, key: Key, offset: nat, w: real): TermTrie
    requires home in index && pos < |index[home]| && index[home][pos].EntryPostings?
  {
    var postings := AppendAll(index[home][pos].postings, key, [DocumentOffset(offset), DocumentWeight(w)]);
    index[home := index[home][pos := EntryPostings(postings)]]
  }

  /** The state after term `j` of document `i`. */
  ghost function Step(s: State, batch: Batch, log: real -> real, i: nat, j: nat): State
    requires i < |batch| && j < |Terms(batch[i].text)| && Whole(batch, log, s)
  {
    var ts := Terms(batch[i].text);
    var t, key := ts[j], DocKey(batch, i);
    if PostedAlready(batch, s.index, t, key) then s
    else
      TermCounted(t, batch, i);
      HomeHolds(s.index, batch, t);
      var r := TakenFrequency(s, batch, log, t);
      var cache := if FindKey(s.cache.Keys, t).Some? then s.cache else AppendAll(s.cache, t, [r]);
      var index, home := WithEntry(s.index, batch, t), HomeOf(s.index, t);
      var w := TermSignificancy(Frequency(t, ts), r);
      State(if w > 0.0 then PostAt(index, home.0, home.1, key, batch[i].offset, w) else index, cache)
  }

  // ---------- what a step does to one key ----------

  /** The inner dictionary that lookups use: the first under its key. */
  ghost function Inner(index: TermTrie, k: Key): Postings {
    if k in index && index[k] != [] && index[k][0].EntryPostings? then index[k][0].postings else map[]
  }

  lemma {:induction false} InnerWhole(batch: Batch, index: TermTrie, k: Key)
    requires WholeIndex(batch, index)
    ensures WholePostings(batch, Inner(index, k)) && Inner(index, k).Keys <= AllKeys(batch)
  {
    assert k in index ==> EntryHead(batch, k, index[k]);
    WholeKeys(batch, Inner(index, k));
  }

  /** The first three cells stay, except for what the inner dictionary holds. */
  ghost predicate SameHead(cells: seq<EntryCell>, cells': seq<EntryCell>) {
    && |cells'| >= |cells| >= 3 && cells[0].EntryPostings? && cells'[0].EntryPostings?
    && cells'[1] == cells[1] && cells'[2] == cells[2]
  }

  ghost function PostedDocument(batch: Batch, i: nat, w: real): seq<DocumentCell>
    requires i < |batch|
  {
    [DocumentOffset(batch[i].offset), DocumentWeight(w)]
  }

  /** The weight that term `j` of document `i` gets. */
  ghost function StepWeight(s: State, batch: Batch, log: real -> real, i: nat, j: nat): real
    requires i < |batch| && j < |Terms(batch[i].text)| && Whole(batch, log, s)
  {
    var ts := Terms(batch[i].text);
    TermCounted(ts[j], batch, i);
    TermSignificancy(Frequency(ts[j], ts), TakenFrequency(s, batch, log, ts[j]))
  }

  /** It is posted in the inner dictionary of its home: the one found, or a new one under a new key. */
  ghost predicate Posts(s: State, batch: Batch, log: real -> real, i: nat, j: nat)
    requires i < |batch| && j < |Terms(batch[i].text)| && Whole(batch, log, s)
  {
    var t, key := Terms(batch[i].text)[j], DocKey(batch, i);
    && !PostedAlready(batch, s.index, t, key) && StepWeight(s, batch, log, i, j) > 0.0
    && HomeOf(s.index, t).1 == 0
  }

  lemma {:induction false} EntryAdded(index: TermTrie, batch: Batch, t: Key, k: Key)
    requires WholeIndex(batch, index)
    ensures var index', home := WithEntry(index, batch, t), HomeOf(index, t);
      && Inner(index', k) == Inner(index, k) && (k in index' <==> k in index || k == home.0)
      && (k in index ==> SameHead(index[k], index'[k]) && (k != home.0 || home.1 == 0 ==> index'[k] == index[k]))
      && (k !in index && k == home.0 ==> index'[k] == NewCells(t, batch) && home.1 == 0)
      && (k == home.0 && home.1 > 0 ==> k in index && home.1 == |index[k]| >= 3 && |index'[k]| == |index[k]| + 3)
  {
    hide Landing, FindKey, HeaderCount, AllTerms;
    if k in index {
      assert EntryHead(batch, k, index[k]);
    }
    var home := HomeOf(index, t);
    if k == home.0 && k !in index {
      assert [] + NewCells(t, batch) == NewCells(t, batch);
    }
  }

  lemma {:induction false} DocumentPosted(index: TermTrie, home: Key, pos: nat, batch: Batch, i: nat, w: real, k: Key)
    requires home in index && pos < |index[home]| && index[home][pos].EntryPostings? && i < |batch|
    requires pos == 0 ==> Inner(index, home).Keys <= AllKeys(batch) && DocKey(batch, i) !in Inner(index, home)
    ensures var key := DocKey(batch, i); var index' := PostAt(index, home, pos, key, batch[i].offset, w);
      && index'.Keys == index.Keys && (k in index ==> |index'[k]| == |index[k]|)
      && Inner(index', k) == (if k == home && pos == 0
                              then Inner(index, k)[key := PostedDocument(batch, i, w)] else Inner(index, k))
      && (k in index && SameHead(index[k], index[k]) && (pos == 0 || pos >= 3) ==> SameHead(index[k], index'[k]))
  {
    hide Landing, AllKeys, DocKey;
    if pos == 0 {
      KeyOfBatch(batch, i);
      KeysLandExactly(batch, Inner(index, home).Keys, DocKey(batch, i));
      assert [] + PostedDocument(batch, i, w) == PostedDocument(batch, i, w);
    }
  }

  lemma {:induction false} KeyOfBatch(batch: Batch, i: nat)
    requires i < |batch|
    ensures DocKey(batch, i) in AllKeys(batch)
  {
  }

  /** A document that is posted is not listed yet. */
  lemma {:induction false} NotListed(s: State, batch: Batch, i: nat, t: Key)
    requires WholeIndex(batch, s.index) && i < |batch| && !PostedAlready(batch, s.index, t, DocKey(batch, i))
    requires HomeOf(s.index, t).1 == 0
    ensures DocKey(batch, i) !in Inner(s.index, HomeOf(s.index, t).0)
  {
    hide Landing, FindKey, DocKey, AllTerms, HeaderCount;
    var p, key := HomeOf(s.index, t).0, DocKey(batch, i);
    if p in s.index {
      assert EntryHead(batch, p, s.index[p]);
      FindKeyIff(Inner(s.index, p).Keys, key);
    }
  }

  /** The step as seen from key `k`: its home gains an entry if there is none and a document if the term posts;
      other lists, and the first cells of its list, stay. */
  lemma {:induction false} StepAt(s: State, batch: Batch, log: real -> real, i: nat, j: nat, k: Key)
    requires i < |batch| && j < |Terms(batch[i].text)| && Whole(batch, log, s)
    ensures var t, index' := Terms(batch[i].text)[j], Step(s, batch, log, i, j).index;
      var home := HomeOf(s.index, t);
      && (k in index' <==> k in s.index || k == home.0)
      && Inner(index', k) == (if k == home.0 && Posts(s, batch, log, i, j)
           then Inner(s.index, k)[DocKey(batch, i) := PostedDocument(batch, i, StepWeight(s, batch, log, i, j))]
           else Inner(s.index, k))
      && (k in s.index ==> SameHead(s.index[k], index'[k]))
      && (k in s.index ==> |index'[k]| == |s.index[k]| + if k == home.0 && home.1 > 0 then 3 else 0)
      && (k !in s.index && k == home.0 ==> SameHead(NewCells(t, batch), index'[k]) && |index'[k]| == 3 && home.1 == 0)
  {
    hide Landing, FindKey, HeaderCount, AllTerms, DocKey, Frequency, ReverseFrequency, TakenFrequency, WithEntry,
      PostAt, WholeIndex, WholePostings, PostedAlready, Terms, HomeOf;
    var t, key := Terms(batch[i].text)[j], DocKey(batch, i);
    TermCounted(t, batch, i);
    HomeHolds(s.index, batch, t);
    EntryAdded(s.index, batch, t, k);
    PostedIsThere(batch, s.index, t, key);
    HeadThere(batch, s.index, k);
    if !PostedAlready(batch, s.index, t, key) {
      var index, home := WithEntry(s.index, batch, t), HomeOf(s.index, t);
      var w := StepWeight(s, batch, log, i, j);
      if w > 0.0 {
        EntryAdded(s.index, batch, t, home.0);
        InnerWhole(batch, s.index, home.0);
        if home.1 == 0 {
          NotListed(s, batch, i, t);
        }
        DocumentPosted(index, home.0, home.1, batch, i, w, k);
      }
    }
  }

  lemma {:induction false} HeadThere(batch: Batch, index: TermTrie, k: Key)
    requires WholeIndex(batch, index)
    ensures k in index ==> SameHead(index[k], index[k])
  {
    assert k in index ==> EntryHead(batch, k, index[k]);
  }

  lemma {:induction false} PostedIsThere(batch: Batch, index: TermTrie, t: Key, key: Key)
    requires WholeIndex(batch, index)
    ensures PostedAlready(batch, index, t, key) ==> HomeOf(index, t).0 in index && HomeOf(index, t).1 == 0
  {
  }

  // ---------- what a step keeps ----------

  /** Index and cache gain the same key: none, or the one where a term not found lands. */
  lemma {:induction false} StepKeys(s: State, batch: Batch, log: real -> real, i: nat, j: nat)
    requires i < |batch| && j < |Terms(batch[i].text)| && Whole(batch, log, s)
    ensures var t, s' := Terms(batch[i].text)[j], Step(s, batch, log, i, j);
      && s'.index.Keys == s'.cache.Keys
      && s'.index.Keys == s.index.Keys + if FindKey(s.index.Keys, t).Some? then {} else {Landing(s.index.Keys, t, [])}
  {
    hide Landing, FindKey, WholeIndex, AllTerms;
    TermCounted(Terms(batch[i].text)[j], batch, i);
  }

  lemma {:induction false} PostingKept(batch: Batch, postings: Postings, i: nat, w: real)
    requires WholePostings(batch, postings) && i < |batch| && w > 0.0
    ensures WholePostings(batch, postings[DocKey(batch, i) := PostedDocument(batch, i, w)])
  {
    hide DocKey;
    var key := DocKey(batch, i);
    var postings' := postings[key := PostedDocument(batch, i, w)];
    forall k | k in postings'
      ensures DocumentHead(batch, k, postings'[k])
    {
      assert k != key ==> DocumentHead(batch, k, postings[k]);
      assert batch[i].offset == PostedDocument(batch, i, w)[0].offset;
    }
  }

  /** A new key is the term up to letter case. */
  lemma {:induction false} NewKeyNames(index: TermTrie, batch: Batch, t: Key)
    requires WholeIndex(batch, index) && HomeOf(index, t).0 !in index
    ensures FindKey(index.Keys, t) == None && SameUpToCase(HomeOf(index, t).0, t)
  {
    hide Landing, FindKey;
    LandingUpToCase(index.Keys, t);
  }

  lemma {:induction false} StepKeepsEntry(s: State, batch: Batch, log: real -> real, i: nat, j: nat, k: Key)
    requires i < |batch| && j < |Terms(batch[i].text)| && Whole(batch, log, s)
    requires k in Step(s, batch, log, i, j).index
    ensures EntryHead(batch, k, Step(s, batch, log, i, j).index[k])
  {
    hide Step, Terms, HomeOf, HeaderCount, AllTerms, DocKey, StepWeight, SameUpToCase, WholePostings, PostedAlready;
    var t, cells := Terms(batch[i].text)[j], Step(s, batch, log, i, j).index[k];
    TermCounted(t, batch, i);
    StepAt(s, batch, log, i, j, k);
    InnerWhole(batch, s.index, k);
    if Posts(s, batch, log, i, j) {
      PostingKept(batch, Inner(s.index, k), i, StepWeight(s, batch, log, i, j));
    }
    assert Inner(Step(s, batch, log, i, j).index, k) == cells[0].postings;
    if k in s.index {
      assert EntryHead(batch, k, s.index[k]);
    } else {
      NewKeyNames(s.index, batch, t);
    }
  }

  lemma {:induction false} StepKeepsFrequency(s: State, batch: Batch, log: real -> real, i: nat, j: nat, k: Key)
    requires i < |batch| && j < |Terms(batch[i].text)| && Whole(batch, log, s)
    requires k in Step(s, batch, log, i, j).index
    ensures FrequencyHead(batch, log, k, Step(s, batch, log, i, j))
  {
    hide Terms, HeaderCount, AllTerms, DocKey, StepWeight, FindKey, Landing, WithEntry, PostAt, PostedAlready,
      Frequency, ReverseFrequency, EntryHead, WholeIndex, Posts;
    var t, s' := Terms(batch[i].text)[j], Step(s, batch, log, i, j);
    TermCounted(t, batch, i);
    StepKeys(s, batch, log, i, j);
    StepKeepsEntry(s, batch, log, i, j, k);
    NameKept(s, batch, log, i, j, k);
    assert k in s.index ==> FrequencyHead(batch, log, k, s);
  }

  /** The name under a key stays; that of a new key is the term. */
  lemma {:induction false} NameKept(s: State, batch: Batch, log: real -> real, i: nat, j: nat, k: Key)
    requires i < |batch| && j < |Terms(batch[i].text)| && Whole(batch, log, s)
    requires k in Step(s, batch, log, i, j).index
    ensures var cells := Step(s, batch, log, i, j).index[k];
      && |cells| >= 3 && (k in s.index ==> |s.index[k]| >= 3)
      && cells[1] == if k in s.index then s.index[k][1] else EntryName(Terms(batch[i].text)[j])
  {
    hide Step, Terms, HomeOf, HeaderCount, AllTerms, Posts, WholeIndex, StepWeight, DocKey;
    StepAt(s, batch, log, i, j, k);
  }

  /** Whatever the lookups find, the dictionaries stay whole. */
  lemma {:induction false} StepKeepsWhole(s: State, batch: Batch, log: real -> real, i: nat, j: nat)
    requires i < |batch| && j < |Terms(batch[i].text)| && Whole(batch, log, s)
    ensures Whole(batch, log, Step(s, batch, log, i, j))
  {
    hide Landing, FindKey, WholePostings, AllTerms, Frequency, HeaderCount, ReverseFrequency, Step, EntryHead;
    var s' := Step(s, batch, log, i, j);
    StepKeys(s, batch, log, i, j);
    forall k | k in s'.index
      ensures EntryHead(batch, k, s'.index[k])
    {
      StepKeepsEntry(s, batch, log, i, j, k);
    }
    forall k | k in s'.index
      ensures FrequencyHead(batch, log, k, s')
    {
      StepKeepsFrequency(s, batch, log, i, j, k);
    }
  }

  // ---------- the builder ----------

  method CalculateReverseFrequency(ghost t: Text, batch: Batch, count: nat, log: real -> real) returns (r: real)
    requires count == HeaderCount(t, batch) > 0
    ensures r == ReverseFrequency(t, batch, log)
  {
    r := log(|batch| as real / count as real);
  }

  /** Whether lookup finds the document under the term. */
  method IsPosted(ghost batch: Batch, index: TermTrie, term: Key, key: Key) returns (posted: bool)
    requires WholeIndex(batch, index)
    ensures posted <==> PostedAlready(batch, index, term, key)
  {
    posted := false;
    var at := FindKey(index.Keys, term);
    if at != None {
      assert EntryHead(batch, at.value, index[at.value]);
      posted := FindKey(index[at.value][0].postings.Keys, key) != None;
    }
  }

  /** The reverse frequency of a term: from the cache, or computed and cached; `count` is set only when it
      is computed. */
  method TakeReverseFrequency(ghost s: State, cache: FrequencyTrie, term: Key, batch: Batch, log: real -> real)
    returns (cache': FrequencyTrie, reverseFrequency: real, count: Option<nat>)
    requires Whole(batch, log, s) && cache == s.cache && HeaderCount(term, batch) > 0
    ensures reverseFrequency == TakenFrequency(s, batch, log, term)
    ensures cache' == if FindKey(cache.Keys, term).Some? then cache else AppendAll(cache, term, [reverseFrequency])
    ensures count == if FindKey(cache.Keys, term).Some? then None else Some(HeaderCount(term, batch))
  {
    var cached := FindKey(cache.Keys, term);
    if cached == None {
      var offsets := GetDocumentsWithTerm(term, batch);
      reverseFrequency := CalculateReverseFrequency(term, batch, |offsets|, log);
      AppendMore(cache, term, [], reverseFrequency);
      return AppendSpec(cache, term, reverseFrequency), reverseFrequency, Some(|offsets|);
    }
    assert FrequencyHead(batch, log, cached.value, s);
    return cache, cache[cached.value][0], None;
  }

  /** The inner dictionary of a term, which is made with the counted documents if lookup finds none. */
  method TakePostings(ghost batch: Batch, index: TermTrie, term: Key, count: Option<nat>)
    returns (index': TermTrie, home: Key, pos: nat)
    requires FindKey(index.Keys, term) == None ==> count == Some(HeaderCount(term, batch))
    ensures index' == WithEntry(index, batch, term) && (home, pos) == HomeOf(index, term)
  {
    hide Landing, FindKey, AppendAll;
    var at := FindKey(index.Keys, term);
    if at == None {
      home := Landing(index.Keys, term, []);
      pos := |ListAt(index, home)|;
      index' := AppendSpec(index, term, EntryPostings(map[]));
      index' := AppendSpec(index', term, EntryName(term));
      index' := AppendSpec(index', term, EntryCount(count.value));
      AppendMore(index, term, [], EntryPostings(map[]));
      AppendMore(index, term, [EntryPostings(map[])], EntryName(term));
      AppendMore(index, term, [EntryPostings(map[]), EntryName(term)], EntryCount(count.value));
      assert [EntryPostings(map[])] + [EntryName(term)] == [EntryPostings(map[]), EntryName(term)];
      assert [EntryPostings(map[]), EntryName(term)] + [EntryCount(count.value)] == NewCells(term, batch);
    } else {
      index', home, pos := index, at.value, 0;
    }
  }

  /** Lists offset and significancy under the document, in the inner dictionary at `pos`. */
  method Post(index: TermTrie, home: Key, pos: nat, key: Key, offset: nat, significancy: real)
    returns (index': TermTrie)
    requires home in index && pos < |index[home]| && index[home][pos].EntryPostings?
    ensures index' == PostAt(index, home, pos, key, offset, significancy)
  {
    hide Landing, AppendAll;
    ghost var before := index[home][pos].postings;
    var postings := AppendSpec(index[home][pos].postings, key, DocumentOffset(offset));
    postings := AppendSpec(postings, key, DocumentWeight(significancy));
    index' := index[home := index[home][pos := EntryPostings(postings)]];
    AppendMore(before, key, [], DocumentOffset(offset));
    AppendMore(before, key, [DocumentOffset(offset)], DocumentWeight(significancy));
    assert [DocumentOffset(offset)] + [DocumentWeight(significancy)]
        == [DocumentOffset(offset), DocumentWeight(significancy)];
  }

  /** One term of a document: skip it if lookup finds the document posted already; otherwise take its
      reverse frequency from the cache or compute it, make its entry if there is none, post its weight. */
  method AssignTerm(index: TermTrie, cache: FrequencyTrie, batch: Batch, log: real -> real,
                    i: nat, j: nat, key: Key, ts: seq<Text>)
    returns (index': TermTrie, cache': FrequencyTrie)
    requires i < |batch| && ts == Terms(batch[i].text) && j < |ts| && key == DocKey(batch, i)
    requires Whole(batch, log, State(index, cache))
    ensures State(index', cache') == Step(State(index, cache), batch, log, i, j)
    ensures Whole(batch, log, State(index', cache'))
  {
    hide FindKey, WithEntry, HomeOf, AppendAll, Frequency, HeaderCount, ReverseFrequency, TakenFrequency, WholeIndex,
      PostedAlready, AllTerms, PostAt, DocKey;
    var term := ts[j];
    ghost var s := State(index, cache);
    TermCounted(term, batch, i);
    StepKeepsWhole(s, batch, log, i, j);
    index', cache' := index, cache;
    var posted := IsPosted(batch, index, term, key);
    if !posted {
      var reverseFrequency, count, home, pos;
      cache', reverseFrequency, count := TakeReverseFrequency(s, cache, term, batch, log);
      HomeHolds(index, batch, term);
      index', home, pos := TakePostings(batch, index, term, count);
      var frequency := CalculateTermFrequency(term, ts);
      var significancy := TermSignificancy(frequency, reverseFrequency);
      if significancy > 0.0 {
        index' := Post(index', home, pos, key, batch[i].offset, significancy);
      }
    }
  }
}
