/** A batch of which a term cannot be retrieved, because its header counts documents that are not posted. */
module Overread {
  import opened Keys
  import opened TrieSpec
  import opened Wrappers
  import opened Codec
  import F = Formats
  import O = OffsetsFormat
  import S = Storage
  import D = Dictionary
  import opened Tokeniser
  import opened Weights
  import opened Index
  import opened IndexTries
  import opened Agreement
  import opened IndexRuns
  import opened IndexBounds
  import opened IndexOutcome
  import opened Batches

  const ART: Text := [97, 114, 116]
  const CART: Text := [99, 97, 114, 116]
  const DART: Text := [100, 97, 114, 116]
  const DOG: Text := [100, 111, 103]

  const FOUR: seq<Text> := [ART, CART, DART, DOG]

  // ---------- the batch ----------

  lemma OneTermEach(d: nat)
    requires d < 4
    ensures Terms(FOUR[d]) == [FOUR[d]]
  {
    LastWord(FOUR[d], 0);
    assert FOUR[d][0..|FOUR[d]|] == FOUR[d];
  }

  lemma Offsets()
    ensures F.DocumentStart(FOUR, 0) == 0 && F.DocumentStart(FOUR, 1) == 11
    ensures F.DocumentStart(FOUR, 2) == 23 && F.DocumentStart(FOUR, 3) == 35 && |F.DocumentsFile(FOUR)| == 46
  {
    hide F.DocumentStart, F.DocumentsFile, F.ReadDocument, StandsAt;
    F.DocumentsLayout(FOUR, 0);
    F.DocumentsLayout(FOUR, 1);
    F.DocumentsLayout(FOUR, 2);
    F.DocumentsLayout(FOUR, 3);
  }

  lemma TermsOfFour()
    ensures AllTerms(BatchOf(FOUR)) == {ART, CART, DART, DOG}
  {
    hide Terms, F.DocumentStart;
    var batch := BatchOf(FOUR);
    OneTermEach(0);
    OneTermEach(1);
    OneTermEach(2);
    OneTermEach(3);
    forall t
      ensures t in AllTerms(batch) <==> t in {ART, CART, DART, DOG}
    {
      assert t in AllTerms(batch) <==> exists d :: 0 <= d < 4 && t in Terms(batch[d].text);
      assert batch[0].text == ART && batch[1].text == CART && batch[2].text == DART && batch[3].text == DOG;
    }
  }

  lemma KeysOfFour()
    ensures AllKeys(BatchOf(FOUR)) == {[48], [49, 49], [50, 51], [51, 53]}
  {
    hide F.DocumentStart;
    var batch := BatchOf(FOUR);
    Offsets();
    assert Decimal(1) == [49] && Decimal(2) == [50] && Decimal(3) == [51];
    assert DocKey(batch, 0) == [48] && DocKey(batch, 1) == [49, 49];
    assert DocKey(batch, 2) == [50, 51] && DocKey(batch, 3) == [51, 53];
    forall k
      ensures k in AllKeys(batch) <==> k in {[48], [49, 49], [50, 51], [51, 53]}
    {
      assert k in AllKeys(batch) <==> exists d :: 0 <= d < 4 && DocKey(batch, d) == k;
    }
  }

  /** Keys of which no two have the same length and first byte are never confused. */
  lemma ApartIsSeparable(T: set<Key>)
    requires forall p, s :: p in T && s in T && |p| == |s| && p != [] && s != [] && p[0] == s[0] ==> p == s
    requires forall x, i :: x in T && 0 <= i < |x| ==> Fold(x[i]) == x[i]
    ensures Separable(T)
  {
  }

  lemma FourAreExact()
    ensures TriesExact(BatchOf(FOUR))
  {
    hide Separable, AllTerms, AllKeys, BatchOf;
    TermsOfFour();
    KeysOfFour();
    ApartIsSeparable({ART, CART, DART, DOG});
    ApartIsSeparable({[48], [49, 49], [50, 51], [51, 53]});
  }

  // ---------- its index ----------

  /** Nothing clashes, so the index is the naive one. */
  lemma {:induction false} IndexOfFour(log: real -> real)
    requires IsLog(log)
    ensures var batch, index := BatchOf(FOUR), BuiltIndex(BatchOf(FOUR), log);
      && WholeIndex(batch, index) && Naive(index, batch, log) && AllEntryCells(index)
      && index.Keys == {ART, CART, DART, DOG} && O.LoadSafe(KeyOrder(index))
  {
    hide TriesExact, NoClash, IsLog, DistinctOffsets, AllTerms, BuiltIndex, WholeIndex, Naive, O.LoadSafe, BatchOf;
    var batch, index := BatchOf(FOUR), BuiltIndex(BatchOf(FOUR), log);
    BatchOffsets(FOUR);
    FourAreExact();
    TermsOfFour();
    BuiltAtEnd(batch, log);
    ExactNeverClashes(batch, log);
    NoClashIndex(batch, log);
    OwnIfNaive(index, batch, log);
    NaiveEntries(index, batch, log);
    NaiveIff(index, batch, log);
    assert index.Keys == {ART, CART, DART, DOG};
    ExactIsSafe(index, batch, log);
  }

  lemma {:induction false} FourInOrder(index: TermTrie)
    requires index.Keys == {ART, CART, DART, DOG}
    ensures KeyOrder(index) == [ART, CART, DART, DOG]
  {
    var ks := [ART, CART, DART, DOG];
    assert LessAt(ART, CART, 0) && LessAt(ART, DART, 0) && LessAt(ART, DOG, 0);
    assert LessAt(CART, DART, 0) && LessAt(CART, DOG, 0);
    assert DART[..1] == DOG[..1] && LessAt(DART, DOG, 1);
    assert Sorted(ks);
    assert index.Keys - {[]} == index.Keys;
    SortedUnique(KeyOrder(index), ks);
  }

  /** "art" occurs in three of the documents and is a term of one; "cart" in one. */
  lemma CountsOfFour()
    ensures HeaderCount(ART, BatchOf(FOUR)) == 3 && HeaderCount(CART, BatchOf(FOUR)) == 1
  {
    hide F.DocumentStart;
    var batch := BatchOf(FOUR);
    assert ART[0..3] == ART && CART[1..4] == ART && DART[1..4] == ART && CART[0..4] == CART;
    assert OccursAt(ART, ART, 0) && OccursAt(CART, ART, 1) && OccursAt(DART, ART, 1) && OccursAt(CART, CART, 0);
    assert DOG[0..3] == DOG && DART[0..4] == DART;
    assert !Occurs(DOG, ART) && !Occurs(ART, CART) && !Occurs(DART, CART) && !Occurs(DOG, CART);
    assert Containing(ART, batch, 4) == {0, 1, 2} && Containing(CART, batch, 4) == {1};
  }

  lemma {:induction false} OnlyArtIsPosted(index: TermTrie, log: real -> real)
    requires IsLog(log) && WholeIndex(BatchOf(FOUR), index) && Naive(index, BatchOf(FOUR), log) && ART in index
    ensures |Inner(index, ART)| == 1
  {
    hide Terms, Occurs, IsLog, WholeIndex, Naive, Weight, Inner, HeaderCount, F.DocumentStart;
    var batch := BatchOf(FOUR);
    CountsOfFour();
    OneTermEach(0);
    OneTermEach(1);
    OneTermEach(2);
    OneTermEach(3);
    DogHasNoArt();
    forall d: nat | d < 4
      ensures Weight(ART, batch, d, log) > 0.0 <==> d == 0
    {
      assert batch[d].text == FOUR[d];
      WeightIff(ART, batch, d, log);
    }
    assert Significant(ART, batch, log) == {0};
    NaiveKeys(FOUR, index, log, ART);
  }

  lemma DogHasNoArt()
    ensures !Occurs(BatchOf(FOUR)[3].text, ART)
  {
    assert DOG[0..3] == DOG;
  }

  // ---------- reading it ----------

  /** The bytes from the last four of the first size word of the documents file on are no size of a document. */
  lemma SizeAtFour()
    ensures F.ReadDocument(F.DocumentsFile(FOUR), 4) == Ok(None)
  {
    hide F.DocumentStart, F.DocumentsFile, Value, Word, StandsAt;
    Offsets();
    var docs := F.DocumentsFile(FOUR);
    F.DocumentsLayout(FOUR, 0);
    F.DocumentsLayout(FOUR, 1);
    SmallWord(3);
    SmallWord(4);
    MiddleOf(docs, [3, 0, 0, 0, 0, 0, 0, 0], [4, 0, 0, 0, 0, 0, 0, 0]);
    assert docs[4..12] == [0, 0, 0, 0, 97, 114, 116, 4];
    EightBytes(0, 0, 0, 0, 97, 114, 116, 4);
    assert ReadWord(docs, 4) == Some(Value(docs[4..12]));
  }

  lemma MiddleOf(docs: seq<Byte>, a: seq<Byte>, b: seq<Byte>)
    requires |a| == |b| == 8 && StandsAt(docs, 0, a) && StandsAt(docs, 8, ART) && StandsAt(docs, 11, b)
    ensures docs[4..12] == a[4..] + ART + b[..1]
  {
    assert docs[4..8] == docs[0..8][4..] && docs[11..12] == docs[11..19][..1];
    assert docs[4..12] == docs[4..8] + docs[8..11] + docs[11..12];
  }

  /** Eight bytes as a number. */
  lemma EightBytes(a: Byte, b: Byte, c: Byte, d: Byte, e: Byte, f: Byte, g: Byte, h: Byte)
    ensures Value([a, b, c, d, e, f, g, h])
         == a + 0x100 * b + 0x1_0000 * c + 0x100_0000 * d
            + 0x1_0000_0000 * (e + 0x100 * f + 0x1_0000 * g + 0x100_0000 * h)
  {
    FourBytes(e, f, g, h, []);
    FourBytes(a, b, c, d, [e, f, g, h]);
    assert [e, f, g, h] + [] == [e, f, g, h] && [a, b, c, d] + [e, f, g, h] == [a, b, c, d, e, f, g, h];
  }

  lemma FourBytes(a: Byte, b: Byte, c: Byte, d: Byte, rest: seq<Byte>)
    ensures Value([a, b, c, d] + rest) == a + 0x100 * b + 0x1_0000 * c + 0x100_0000 * d + 0x1_0000_0000 * Value(rest)
  {
    hide Value;
    OneByte(d, rest);
    OneByte(c, [d] + rest);
    OneByte(b, [c] + ([d] + rest));
    OneByte(a, [b] + ([c] + ([d] + rest)));
    assert [a, b, c, d] + rest == [a] + ([b] + ([c] + ([d] + rest)));
  }

  lemma OneByte(a: Byte, rest: seq<Byte>)
    ensures Value([a] + rest) == a + 0x100 * Value(rest)
  {
    assert ([a] + rest)[1..] == rest;
  }

  lemma SmallWord(n: nat)
    requires n < 256
    ensures Word(n) == [n, 0, 0, 0, 0, 0, 0, 0]
  {
    hide Word;
    assert n / 256 == 0;
    LowFirst(n);
  }

  /** Behind the record of "art" stands that of "cart": its size word is taken for an offset, and then the term itself
      with half of its count for another one, which is behind the end of the documents file. */
  lemma {:induction false} CartAsPostings(terms: seq<Byte>, at: nat)
    requires StandsAt(terms, at, Word(4)) && StandsAt(terms, at + 8, CART) && StandsAt(terms, at + 12, Word(1))
    ensures F.ReadPostings(terms, F.DocumentsFile(FOUR), at, 2) == ReadError
  {
    hide F.ReadDocument, F.DocumentsFile, Value, Word;
    var docs := F.DocumentsFile(FOUR);
    Offsets();
    SizeAtFour();
    ReadWordBack(terms, at, 4);
    assert F.ReadPosting(terms, docs, at) == Ok(([], at + 8));
    SmallWord(1);
    assert terms[at + 12..at + 16] == terms[at + 12..at + 20][..4];
    assert terms[at + 8..at + 16] == terms[at + 8..at + 12] + terms[at + 12..at + 16];
    assert terms[at + 8..at + 16] == [99, 97, 114, 116, 1, 0, 0, 0];
    EightBytes(99, 97, 114, 116, 1, 0, 0, 0);
    F.FailsIff(terms, docs, at + 8);
  }

  // ---------- retrieving "art" ----------

  /** The first two records of the batch. */
  lemma {:induction false} ArtAndCart(log: real -> real, fmt: real -> Text)
    requires IsLog(log)
    ensures var batch, index := BatchOf(FOUR), BuiltIndex(BatchOf(FOUR), log);
      && WholeIndex(batch, index) && AllEntryCells(index) && O.LoadSafe(KeyOrder(index)) && ART in index
      && KeyOrder(index) == [ART, CART, DART, DOG]
      && var records := TrieRecords(batch, index, fmt);
      && |records| == 4 && records[0].term == ART && records[0].count == 3 && |records[0].postings| == 1
      && records[1].term == CART && records[1].count == 1
  {
    hide IsLog, BuiltIndex, WholeIndex, Naive, AllEntryCells, O.LoadSafe, BatchOf, KeyOrder, TrieRecords, TriePostings,
      AllTerms, SameUpToCase, Inner;
    var batch, index := BatchOf(FOUR), BuiltIndex(BatchOf(FOUR), log);
    IndexOfFour(log);
    FourInOrder(index);
    CountsOfFour();
    OwnName(batch, index, fmt, 0);
    OwnName(batch, index, fmt, 1);
    RecordIs(batch, index, fmt, 0);
    RecordIs(batch, index, fmt, 1);
    OnlyArtIsPosted(index, log);
    AllVisited(batch, Inner(index, ART));
  }

  /** The record of "art" counts three documents and holds one, so two more postings are read behind it, and the second
      of them is a read error. */
  lemma {:induction false} ArtYields(index: TermTrie, fmt: real -> Text)
    requires WholeIndex(BatchOf(FOUR), index)
    requires var records := TrieRecords(BatchOf(FOUR), index, fmt);
      && |records| == 4 && records[0].count == 3 && |records[0].postings| == 1
      && records[1].term == CART && records[1].count == 1
    ensures Yielded(FOUR, index, fmt, 0) == ReadError
  {
    hide WholeIndex, BatchOf, KeyOrder, TrieRecords, F.TermsFile, F.RecordStart, F.DocumentsFile, F.ReadPostings, Inner,
      Word, StandsAt, AllTerms, HeaderCount, SameUpToCase, TriePostings, TrieTexts, F.Triples;
    var records := TrieRecords(BatchOf(FOUR), index, fmt);
    RecordIs(BatchOf(FOUR), index, fmt, 0);
    F.RecordLayout(records, 1);
    CartAsPostings(F.TermsFile(records), F.RecordStart(records, 1));
  }

  /** So retrieving it after the batch is a read error. */
  lemma {:induction false} ArtFails(log: real -> real, fmt: real -> Text)
    requires IsLog(log) && Sizes(FOUR, fmt)
    ensures WholeIndex(BatchOf(FOUR), BuiltIndex(BatchOf(FOUR), log))
    ensures var records := TrieRecords(BatchOf(FOUR), BuiltIndex(BatchOf(FOUR), log), fmt);
      && O.Celled(OffsetsAfter(records))
      && S.FindDocuments(OffsetsAfter(records), F.TermsFile(records), F.DocumentsFile(FOUR), ART) == ReadError
  {
    hide IsLog, BuiltIndex, WholeIndex, AllEntryCells, O.LoadSafe, BatchOf, KeyOrder, TrieRecords, F.TermsFile,
      F.DocumentsFile, S.FindDocuments, O.Celled, OffsetsAfter, Inner, Yielded, WholePostings, TrieTriples, Sizes;
    var index := BuiltIndex(BatchOf(FOUR), log);
    ArtAndCart(log, fmt);
    FirstPlace(index);
    ArtYields(index, fmt);
    BatchReadsBack(FOUR, index, fmt, ART);
  }

  lemma {:induction false} FirstPlace(index: TermTrie)
    requires ART in index && KeyOrder(index) == [ART, CART, DART, DOG]
    ensures PlaceOf(index, ART) == 0
  {
    hide KeyOrder;
    var i := PlaceOf(index, ART);
    assert KeyOrder(index)[i] == ART;
  }

  /** "art", "cart", "dart" and "dog" added to a fresh storage, and "art" retrieved from it: a read error. */
  method RetrieveArt(log: real -> real, fmt: real -> Text) returns (r: Result<seq<Option<seq<F.Triple>>>>)
    requires IsLog(log) && forall w :: |fmt(w)| < WORD_LIMIT
    ensures r == ReadError
  {
    hide D.Dictionary.Valid, IsLog, BuiltIndex, WholeIndex, AllEntryCells, O.LoadSafe, BatchOf, KeyOrder, TrieRecords,
      F.TermsFile, F.DocumentsFile, S.FindDocuments, O.Celled, O.ValidNames, OffsetsAfter, Naive, Harmless, NoClash,
      RetrievedAt, ReadBackAt, F.DocumentStart;
    Offsets();
    ArtFails(log, fmt);
    var storage := new S.Storage();
    var index := AddDocuments(storage, FOUR, log, fmt);
    r := storage.GetDocuments([ART]);
    assert FindIn(storage, [ART][0]) == ReadError;
  }
}
