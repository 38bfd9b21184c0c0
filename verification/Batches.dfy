/** A batch from its documents to its files and back. */
module Batches {
  import opened Keys
  import opened TrieSpec
  import opened Wrappers
  import opened Codec
  import F = Formats
  import O = OffsetsFormat
  import S = Storage
  import D = Dictionary
  import opened Tokeniser
  import opened Weights
  import opened Index
  import opened IndexTries
  import opened Agreement
  import opened IndexRuns
  import opened IndexBounds
  import opened IndexOutcome

  /** The documents with the offsets that writing them to a fresh storage gives them. */
  ghost function BatchOf(documents: seq<Text>): (batch: Batch)
    ensures |batch| == |documents|
  {
    seq(|documents|, i requires 0 <= i < |documents| => Document(documents[i], F.DocumentStart(documents, i)))
  }

  lemma {:induction false} BatchOffsets(documents: seq<Text>)
    ensures DistinctOffsets(BatchOf(documents))
  {
    forall d, e | 0 <= d < e < |documents|
      ensures BatchOf(documents)[d].offset != BatchOf(documents)[e].offset
    {
      F.DocumentStartsIncrease(documents, d, e);
    }
  }

  // ---------- the records of an index ----------

  /** The keys that a visitor calls back, in its order. */
  ghost function KeyOrder<V>(m: map<Key, V>): (ks: seq<Key>)
    ensures Sorted(ks) && |ks| == |m.Keys - {[]}| && forall k :: k in ks <==> k in m && k != []
  {
    var ks := Enumerate(m.Keys - {[]});
    assert forall k :: k in ks <==> k in Elements(ks);
    ks
  }

  ghost function TriePosting(batch: Batch, postings: Postings, k: Key, fmt: real -> Text): F.Posting
    requires WholePostings(batch, postings) && k in postings
  {
    assert DocumentHead(batch, k, postings[k]);
    F.Posting(postings[k][0].offset, fmt(postings[k][1].significancy))
  }

  /** What the visitor of an inner dictionary writes: the two cells of every document; `fmt` writes a significancy
      as text. */
  ghost function TriePostings(batch: Batch, postings: Postings, fmt: real -> Text): (ps: seq<F.Posting>)
    requires WholePostings(batch, postings)
    ensures |ps| == |KeyOrder(postings)|
  {
    var ks := KeyOrder(postings);
    assert forall i :: 0 <= i < |ks| ==> ks[i] in ks;
    seq(|ks|, i requires 0 <= i < |ks| => TriePosting(batch, postings, ks[i], fmt))
  }

  ghost function TrieRecord(batch: Batch, index: TermTrie, k: Key, fmt: real -> Text): F.Record
    requires WholeIndex(batch, index) && k in index
  {
    assert EntryHead(batch, k, index[k]);
    F.Record(index[k][1].term, index[k][2].count, TriePostings(batch, index[k][0].postings, fmt))
  }

  /** What the visitor of the outer dictionary writes: the first three cells of every term. */
  ghost function TrieRecords(batch: Batch, index: TermTrie, fmt: real -> Text): (rs: seq<F.Record>)
    requires WholeIndex(batch, index)
    ensures |rs| == |KeyOrder(index)|
  {
    var ks := KeyOrder(index);
    assert forall i :: 0 <= i < |ks| ==> ks[i] in ks;
    seq(|ks|, i requires 0 <= i < |ks| => TrieRecord(batch, index, ks[i], fmt))
  }

  method VisitPostings(ghost batch: Batch, postings: Postings, fmt: real -> Text) returns (ps: seq<F.Posting>)
    requires WholePostings(batch, postings)
    ensures ps == TriePostings(batch, postings, fmt)
  {
    hide Enumerate, Sorted, Elements, TriePostings, TriePosting;
    ghost var target := TriePostings(batch, postings, fmt);
    var ks := Visit(postings.Keys);
    PostingsAt(batch, postings, fmt, ks);
    ps := [];
    for i := 0 to |ks|
      invariant ps == target[..i]
    {
      PostingAt(batch, postings, ks[i], fmt);
      ps := ps + [F.Posting(postings[ks[i]][0].offset, fmt(postings[ks[i]][1].significancy))];
    }
  }

  lemma {:induction false} PostingsAt(batch: Batch, postings: Postings, fmt: real -> Text, ks: seq<Key>)
    requires WholePostings(batch, postings) && ks == Enumerate(postings.Keys - {[]})
    ensures ks == KeyOrder(postings) && |TriePostings(batch, postings, fmt)| == |ks|
    ensures forall i {:trigger ks[i]} :: 0 <= i < |ks| ==>
      ks[i] in postings && TriePostings(batch, postings, fmt)[i] == TriePosting(batch, postings, ks[i], fmt)
  {
    assert forall i :: 0 <= i < |ks| ==> ks[i] in Elements(ks);
  }

  lemma {:induction false} PostingAt(batch: Batch, postings: Postings, k: Key, fmt: real -> Text)
    requires WholePostings(batch, postings) && k in postings
    ensures PostedCells(postings[k])
    ensures TriePosting(batch, postings, k, fmt) == F.Posting(postings[k][0].offset, fmt(postings[k][1].significancy))
  {
    assert DocumentHead(batch, k, postings[k]);
  }

  /** The records of an index, in visiting order. */
  method VisitTerms(ghost batch: Batch, index: TermTrie, fmt: real -> Text) returns (records: seq<F.Record>)
    requires WholeIndex(batch, index)
    ensures records == TrieRecords(batch, index, fmt)
  {
    hide Enumerate, Sorted, Elements, TrieRecords, TrieRecord, TriePostings, WholeIndex, WholePostings;
    ghost var target := TrieRecords(batch, index, fmt);
    var ks := Visit(index.Keys);
    RecordsAt(batch, index, fmt, ks);
    records := [];
    for i := 0 to |ks|
      invariant records == target[..i]
    {
      RecordCells(batch, index, ks[i], fmt);
      var cells := index[ks[i]];
      var ps := VisitPostings(batch, cells[0].postings, fmt);
      records := records + [F.Record(cells[1].term, cells[2].count, ps)];
    }
  }

  lemma {:induction false} RecordCells(batch: Batch, index: TermTrie, k: Key, fmt: real -> Text)
    requires WholeIndex(batch, index) && k in index
    ensures var cells := index[k];
      && |cells| >= 3 && cells[0].EntryPostings? && cells[1].EntryName? && cells[2].EntryCount?
      && WholePostings(batch, cells[0].postings)
      && TrieRecord(batch, index, k, fmt)
         == F.Record(cells[1].term, cells[2].count, TriePostings(batch, cells[0].postings, fmt))
  {
    assert EntryHead(batch, k, index[k]);
  }

  lemma {:induction false} RecordsAt(batch: Batch, index: TermTrie, fmt: real -> Text, ks: seq<Key>)
    requires WholeIndex(batch, index) && ks == Enumerate(index.Keys - {[]})
    ensures ks == KeyOrder(index) && |TrieRecords(batch, index, fmt)| == |ks|
    ensures forall i {:trigger ks[i]} :: 0 <= i < |ks| ==>
      ks[i] in index && TrieRecords(batch, index, fmt)[i] == TrieRecord(batch, index, ks[i], fmt)
  {
    assert forall i :: 0 <= i < |ks| ==> ks[i] in Elements(ks);
  }

  /** Record `i` has a term of the batch, its header count, and the documents of the inner dictionary. */
  lemma {:induction false} RecordIs(batch: Batch, index: TermTrie, fmt: real -> Text, i: nat)
    requires WholeIndex(batch, index) && i < |TrieRecords(batch, index, fmt)|
    ensures var r, k := TrieRecords(batch, index, fmt)[i], KeyOrder(index)[i];
      && k in index && WholePostings(batch, Inner(index, k)) && r.postings == TriePostings(batch, Inner(index, k), fmt)
      && r.term in AllTerms(batch) && r.count == HeaderCount(r.term, batch) && SameUpToCase(k, r.term)
      && |index[k]| >= 3 && index[k][1] == EntryName(r.term) && index[k][2] == EntryCount(r.count)
  {
    hide AllTerms, HeaderCount, SameUpToCase, TriePostings;
    var k := KeyOrder(index)[i];
    assert k in KeyOrder(index);
    assert EntryHead(batch, k, index[k]);
  }

  // ---------- reading records back, on every batch ----------

  /** The document with the key `k`. */
  ghost function DocumentAt(batch: Batch, k: Key): (d: nat)
    requires k in AllKeys(batch)
    ensures d < |batch| && DocKey(batch, d) == k
  {
    var d :| 0 <= d < |batch| && DocKey(batch, d) == k;
    d
  }

  lemma {:induction false} VisitedKeys(batch: Batch, postings: Postings)
    requires WholePostings(batch, postings)
    ensures forall i {:trigger KeyOrder(postings)[i]} :: 0 <= i < |KeyOrder(postings)| ==>
      KeyOrder(postings)[i] in postings && KeyOrder(postings)[i] in AllKeys(batch)
  {
    hide KeyOrder, AllKeys, WholePostings;
    WholeKeys(batch, postings);
    assert forall i {:trigger KeyOrder(postings)[i]} :: 0 <= i < |KeyOrder(postings)| ==>
      KeyOrder(postings)[i] in KeyOrder(postings);
  }

  /** The documents that an inner dictionary lists, in visiting order. */
  ghost function TrieTexts(batch: Batch, postings: Postings): (texts: seq<Text>)
    requires WholePostings(batch, postings)
    ensures |texts| == |KeyOrder(postings)|
  {
    hide KeyOrder, AllKeys, WholePostings, DocKey;
    VisitedKeys(batch, postings);
    var ks := KeyOrder(postings);
    seq(|ks|, i requires 0 <= i < |ks| => batch[DocumentAt(batch, ks[i])].text)
  }

  /** The triple that document `d` should yield for the inner dictionary of some term. */
  ghost function TripleOf(documents: seq<Text>, postings: Postings, d: nat, fmt: real -> Text): F.Triple
    requires WholePostings(BatchOf(documents), postings) && d < |documents|
    requires DocKey(BatchOf(documents), d) in postings
  {
    var k := DocKey(BatchOf(documents), d);
    assert DocumentHead(BatchOf(documents), k, postings[k]);
    F.Triple(F.DocumentStart(documents, d), documents[d], fmt(postings[k][1].significancy))
  }

  /** Posting `n` points at its document. */
  lemma {:induction false} PostingFacts(documents: seq<Text>, postings: Postings, fmt: real -> Text, n: nat)
    requires WholePostings(BatchOf(documents), postings) && n < |KeyOrder(postings)|
    ensures var batch, k := BatchOf(documents), KeyOrder(postings)[n];
      && k in AllKeys(batch) && k in postings
      && var d, triple := DocumentAt(batch, k), TripleOf(documents, postings, DocumentAt(batch, k), fmt);
      && TriePostings(batch, postings, fmt)[n] == F.Posting(triple.offset, triple.significancy)
      && TrieTexts(batch, postings)[n] == documents[d] == triple.document
  {
    hide KeyOrder, AllKeys, Decimal;
    var batch, k := BatchOf(documents), KeyOrder(postings)[n];
    assert k in KeyOrder(postings);
    WholeKeys(batch, postings);
    assert DocumentHead(batch, k, postings[k]);
    var e :| 0 <= e < |batch| && batch[e].offset == postings[k][0].offset && DocKey(batch, e) == k;
    DecimalInjective(batch[e].offset, batch[DocumentAt(batch, k)].offset);
  }

  ghost predicate Sizes(documents: seq<Text>, fmt: real -> Text) {
    && |documents| < WORD_LIMIT && |F.DocumentsFile(documents)| < WORD_LIMIT
    && (forall d :: 0 <= d < |documents| ==> |documents[d]| <= F.INT_MAX)
    && (forall w :: |fmt(w)| < WORD_LIMIT)
  }

  lemma {:induction false} StartBelowEnd(documents: seq<Text>, d: nat)
    requires d < |documents| && |documents[d]| < WORD_LIMIT
    ensures F.DocumentStart(documents, d) < |F.DocumentsFile(documents)|
  {
    F.DocumentsLayout(documents, d);
    F.DocumentStartsIncrease(documents, d, |documents|);
  }

  /** Whatever clashed, every posting points at a document that can be read. */
  lemma {:induction false} PostingsReadable(documents: seq<Text>, postings: Postings, fmt: real -> Text)
    requires WholePostings(BatchOf(documents), postings) && Sizes(documents, fmt)
    ensures var batch := BatchOf(documents);
      F.AllReadable(F.DocumentsFile(documents), TriePostings(batch, postings, fmt), TrieTexts(batch, postings))
  {
    hide TriePostings, TrieTexts, WholePostings, KeyOrder, AllKeys, BatchOf, F.ReadDocument, F.DocumentsFile,
      F.DocumentStart;
    var batch, file := BatchOf(documents), F.DocumentsFile(documents);
    var ps, texts := TriePostings(batch, postings, fmt), TrieTexts(batch, postings);
    forall n | 0 <= n < |ps|
      ensures F.Readable(file, ps[n], texts[n])
    {
      PostingFacts(documents, postings, fmt, n);
      var d := DocumentAt(batch, KeyOrder(postings)[n]);
      F.DocumentsLayout(documents, d);
      StartBelowEnd(documents, d);
    }
  }

  /** Terms and header counts of the batch fit. */
  lemma {:induction false} TermFits(documents: seq<Text>, fmt: real -> Text, t: Key)
    requires Sizes(documents, fmt) && t in AllTerms(BatchOf(documents))
    ensures |t| < WORD_LIMIT && HeaderCount(t, BatchOf(documents)) < WORD_LIMIT
  {
    var batch := BatchOf(documents);
    HeaderCountBound(t, batch);
    var d :| 0 <= d < |batch| && t in Terms(batch[d].text);
    var i :| 0 <= i < |Terms(batch[d].text)| && Terms(batch[d].text)[i] == t;
    TokensAreRuns(batch[d].text, TERM_DELIMITERS, i);
  }

  /** What record `i` yields: its documents, as far as the header counts. */
  ghost function Yielded(documents: seq<Text>, index: TermTrie, fmt: real -> Text, i: nat): Result<seq<F.Triple>>
    requires WholeIndex(BatchOf(documents), index) && i < |TrieRecords(BatchOf(documents), index, fmt)|
  {
    var batch := BatchOf(documents);
    RecordIs(batch, index, fmt, i);
    F.Yield(TrieRecords(batch, index, fmt), F.DocumentsFile(documents), i,
            TrieTexts(batch, Inner(index, KeyOrder(index)[i])))
  }

  /** On every batch, whatever clashed, every record reads back as its documents in written order, as far as the
      header counts, and where it counts more, followed by whatever the bytes behind the record read as. */
  lemma {:induction false} RecordReadsBack(documents: seq<Text>, index: TermTrie, fmt: real -> Text, i: nat)
    requires WholeIndex(BatchOf(documents), index) && Sizes(documents, fmt)
    requires i < |TrieRecords(BatchOf(documents), index, fmt)|
    ensures var records := TrieRecords(BatchOf(documents), index, fmt);
      F.ReadRecord(F.TermsFile(records), F.DocumentsFile(documents), F.RecordStart(records, i))
        == Yielded(documents, index, fmt, i)
  {
    hide TrieRecords, TriePostings, TrieTexts, WholeIndex, WholePostings, KeyOrder, BatchOf, F.ReadRecord, F.Yield,
      F.DocumentsFile, F.TermsFile, F.RecordStart, Sizes, AllTerms, HeaderCount, F.AllReadable;
    var batch := BatchOf(documents);
    var records := TrieRecords(batch, index, fmt);
    RecordIs(batch, index, fmt, i);
    TermFits(documents, fmt, records[i].term);
    var postings := Inner(index, KeyOrder(index)[i]);
    PostingsReadable(documents, postings, fmt);
    F.TermsReadBack(records, F.DocumentsFile(documents), i, TrieTexts(batch, postings));
  }

  // ---------- the triples of a record ----------

  ghost function TrieTriples(documents: seq<Text>, postings: Postings, fmt: real -> Text): (triples: seq<F.Triple>)
    requires WholePostings(BatchOf(documents), postings)
    ensures |triples| == |KeyOrder(postings)|
  {
    F.Triples(TriePostings(BatchOf(documents), postings, fmt), TrieTexts(BatchOf(documents), postings))
  }

  lemma {:induction false} TripleAt(documents: seq<Text>, postings: Postings, fmt: real -> Text, n: nat)
    requires WholePostings(BatchOf(documents), postings) && n < |KeyOrder(postings)|
    ensures var batch, k := BatchOf(documents), KeyOrder(postings)[n];
      && k in AllKeys(batch) && k in postings
      && TrieTriples(documents, postings, fmt)[n] == TripleOf(documents, postings, DocumentAt(batch, k), fmt)
  {
    hide KeyOrder, AllKeys, TripleOf, TriePostings, TrieTexts, BatchOf, WholePostings;
    PostingFacts(documents, postings, fmt, n);
  }

  /** Numerals are not empty, so all documents are visited. */
  lemma {:induction false} AllVisited(batch: Batch, postings: Postings)
    requires WholePostings(batch, postings)
    ensures |KeyOrder(postings)| == |postings| && forall k :: k in postings <==> k in KeyOrder(postings)
  {
    forall k | k in postings
      ensures k != []
    {
      assert DocumentHead(batch, k, postings[k]);
      var d :| 0 <= d < |batch| && DocKey(batch, d) == k;
      DecimalLast(batch[d].offset);
    }
    assert postings.Keys - {[]} == postings.Keys && |postings| == |postings.Keys|;
  }

  /** The triple is what document `d`, which is listed, should yield. */
  ghost predicate IsTripleOf(documents: seq<Text>, postings: Postings, fmt: real -> Text, triple: F.Triple, d: int)
    requires WholePostings(BatchOf(documents), postings)
  {
    && 0 <= d < |documents| && DocKey(BatchOf(documents), d) in postings
    && triple == TripleOf(documents, postings, d, fmt)
  }

  ghost predicate IsListed(documents: seq<Text>, postings: Postings, fmt: real -> Text, triple: F.Triple)
    requires WholePostings(BatchOf(documents), postings)
  {
    exists d :: IsTripleOf(documents, postings, fmt, triple, d)
  }

  /** On every batch: the triples of a record are exactly the documents of its inner dictionary, each once. */
  lemma {:induction false} TriplesExact(documents: seq<Text>, postings: Postings, fmt: real -> Text)
    requires WholePostings(BatchOf(documents), postings)
    ensures var batch, triples := BatchOf(documents), TrieTriples(documents, postings, fmt);
      && |triples| == |postings|
      && (forall n :: 0 <= n < |triples| ==> IsListed(documents, postings, fmt, triples[n]))
      && (forall d :: 0 <= d < |documents| && DocKey(batch, d) in postings ==>
            TripleOf(documents, postings, d, fmt) in triples)
  {
    hide TripleOf, TrieTriples, DocKey, KeyOrder, BatchOf, WholePostings, AllKeys;
    var batch, triples := BatchOf(documents), TrieTriples(documents, postings, fmt);
    AllVisited(batch, postings);
    forall n | 0 <= n < |triples|
      ensures IsListed(documents, postings, fmt, triples[n])
    {
      TripleAt(documents, postings, fmt, n);
      assert IsTripleOf(documents, postings, fmt, triples[n], DocumentAt(batch, KeyOrder(postings)[n]));
    }
    forall d | 0 <= d < |documents| && DocKey(batch, d) in postings
      ensures TripleOf(documents, postings, d, fmt) in triples
    {
      var n :| 0 <= n < |KeyOrder(postings)| && KeyOrder(postings)[n] == DocKey(batch, d);
      TripleAt(documents, postings, fmt, n);
      BatchOffsets(documents);
      KeysDiffer(batch, d, DocumentAt(batch, DocKey(batch, d)));
    }
  }

  // ---------- finding records, on every batch ----------

  /** The term offset dictionary of a fresh storage after the records have been written. */
  ghost function OffsetsAfter(records: seq<F.Record>): O.Offsets {
    O.Load(S.StartEntries(records, 0))
  }

  lemma {:induction false} StartsDiffer(records: seq<F.Record>)
    ensures O.Different(S.StartEntries(records, 0))
  {
    hide F.RecordStart;
    forall i, j | 0 <= i < j < |records|
      ensures S.StartEntries(records, 0)[i] != S.StartEntries(records, 0)[j]
    {
      F.RecordStartsIncrease(records, i, j);
    }
  }

  /** After a batch every term has the offset of its own record and nothing else if and only if the terms of the
      records are distinct and, in visiting order, meet no case clash in the term offset dictionary. */
  lemma {:induction false} TermOffsets(records: seq<F.Record>)
    ensures var es := S.StartEntries(records, 0);
      O.Restored(OffsetsAfter(records), es) <==> O.Distinct(O.Terms(es)) && O.LoadSafe(O.Terms(es))
  {
    hide O.Load, O.Restored, O.LoadSafe, F.RecordStart;
    StartsDiffer(records);
    O.LoadRestoresIff(S.StartEntries(records, 0));
  }

  /** The list under `k` starts with the offset of record `i`, whose term is `k` up to letter case. */
  ghost predicate StartsWith(m: O.Offsets, k: Key, records: seq<F.Record>, i: int) {
    && O.Celled(m) && k in m && 0 <= i < |records|
    && O.EntryOf(m[k]) == O.Entry(records[i].term, F.RecordStart(records, i)) && SameUpToCase(k, records[i].term)
  }

  /** The record whose offset is the first under a key of the term offset dictionary. */
  ghost function RecordAt(records: seq<F.Record>, k: Key): (i: nat)
    requires k in OffsetsAfter(records)
    ensures StartsWith(OffsetsAfter(records), k, records, i)
  {
    hide O.Load, F.RecordStart, SameUpToCase;
    var es, m := S.StartEntries(records, 0), OffsetsAfter(records);
    StartsDiffer(records);
    O.LoadStarts(es);
    assert O.EntryOf(m[k]) in es;
    var i: nat :| i < |es| && es[i] == O.EntryOf(m[k]);
    assert StartsWith(m, k, records, i);
    i
  }

  ghost function Found(r: Result<seq<F.Triple>>): Result<Option<seq<F.Triple>>> {
    match r
    case ReadError => ReadError
    case Ok(triples) => Ok(Some(triples))
  }

  /** Looking a term up reads nothing, or the record under the key that lookup takes it for. */
  lemma {:induction false} FoundAt(records: seq<F.Record>, docs: seq<Byte>, t: Key)
    ensures O.Celled(OffsetsAfter(records))
    ensures var m, terms := OffsetsAfter(records), F.TermsFile(records);
      S.FindDocuments(m, terms, docs, t) == match FindKey(m.Keys, t)
        case None => Ok(None)
        case Some(p) => Found(F.ReadRecord(terms, docs, F.RecordStart(records, RecordAt(records, p))))
  {
    hide F.ReadRecord, O.Load, F.RecordStart, F.TermsFile;
    O.LoadCelled(S.StartEntries(records, 0));
    var m := OffsetsAfter(records);
    if FindKey(m.Keys, t).Some? {
      var p := FindKey(m.Keys, t).value;
      assert StartsWith(m, p, records, RecordAt(records, p));
    }
  }

  /** What retrieving a term yields after a batch, on every batch whose sizes fit. */
  lemma {:induction false} Retrieved(documents: seq<Text>, index: TermTrie, fmt: real -> Text, t: Key)
    requires WholeIndex(BatchOf(documents), index) && Sizes(documents, fmt)
    ensures var records := TrieRecords(BatchOf(documents), index, fmt); var m := OffsetsAfter(records);
      && O.Celled(m)
      && S.FindDocuments(m, F.TermsFile(records), F.DocumentsFile(documents), t) == match FindKey(m.Keys, t)
        case None => Ok(None)
        case Some(p) => Found(Yielded(documents, index, fmt, RecordAt(records, p)))
  {
    hide F.ReadRecord, O.Load, F.RecordStart, F.TermsFile, F.DocumentsFile, Yielded, TrieRecords, WholeIndex, Sizes,
      BatchOf, S.FindDocuments, O.Celled, OffsetsAfter, StartsWith, FindKey;
    var records := TrieRecords(BatchOf(documents), index, fmt);
    FoundAt(records, F.DocumentsFile(documents), t);
    var m := OffsetsAfter(records);
    if FindKey(m.Keys, t).Some? {
      var p := FindKey(m.Keys, t).value;
      InRange(records, p);
      RecordReadsBack(documents, index, fmt, RecordAt(records, p));
    }
  }

  lemma {:induction false} InRange(records: seq<F.Record>, p: Key)
    requires p in OffsetsAfter(records)
    ensures RecordAt(records, p) < |records|
  {
    assert StartsWith(OffsetsAfter(records), p, records, RecordAt(records, p));
  }

  // ---------- batches in which every entry is under its own term ----------

  lemma {:induction false} NoEmptyKey(batch: Batch, index: TermTrie)
    requires WholeIndex(batch, index)
    ensures [] !in index
  {
    hide Terms, HeaderCount;
    if [] in index {
      assert EntryHead(batch, [], index[[]]);
      var d :| 0 <= d < |batch| && [] in Terms(batch[d].text);
      EmptyIsNoTerm(batch[d].text);
    }
  }

  lemma {:induction false} EmptyIsNoTerm(text: Text)
    ensures [] !in Terms(text)
  {
    forall i | 0 <= i < |Terms(text)|
      ensures Terms(text)[i] != []
    {
      TokensAreRuns(text, TERM_DELIMITERS, i);
    }
  }

  /** The records name the keys of the index in order. */
  lemma {:induction false} OwnTerms(batch: Batch, index: TermTrie, fmt: real -> Text)
    requires WholeIndex(batch, index) && AllEntryCells(index)
    ensures O.Terms(S.StartEntries(TrieRecords(batch, index, fmt), 0)) == KeyOrder(index)
    ensures O.Distinct(KeyOrder(index)) && Elements(KeyOrder(index)) == index.Keys
  {
    hide TrieRecords, WholeIndex, KeyOrder, F.RecordStart, AllEntryCells, Sorted;
    var records, ks := TrieRecords(batch, index, fmt), KeyOrder(index);
    NoEmptyKey(batch, index);
    O.SortedDistinct(ks);
    forall i | 0 <= i < |ks|
      ensures records[i].term == ks[i]
    {
      OwnName(batch, index, fmt, i);
    }
    assert forall k :: k in Elements(ks) <==> k in ks;
  }

  lemma {:induction false} OwnName(batch: Batch, index: TermTrie, fmt: real -> Text, i: nat)
    requires WholeIndex(batch, index) && AllEntryCells(index) && i < |KeyOrder(index)|
    ensures TrieRecords(batch, index, fmt)[i].term == KeyOrder(index)[i]
  {
    hide TrieRecords, WholeIndex, KeyOrder, AllTerms, HeaderCount, AllPosted, SameUpToCase, TriePostings, WholePostings;
    RecordIs(batch, index, fmt, i);
    assert EntryCells(KeyOrder(index)[i], index[KeyOrder(index)[i]]);
  }

  /** The place of a term in the order of the records. */
  ghost function PlaceOf(index: TermTrie, t: Key): (i: nat)
    requires t in index && t != []
    ensures i < |KeyOrder(index)| && KeyOrder(index)[i] == t
  {
    assert t in KeyOrder(index);
    var i: nat :| i < |KeyOrder(index)| && KeyOrder(index)[i] == t;
    i
  }

  /** If the terms load without a clash, every term finds its own record. */
  lemma {:induction false} OwnRecordFound(batch: Batch, index: TermTrie, fmt: real -> Text, t: Key)
    requires WholeIndex(batch, index) && AllEntryCells(index) && O.LoadSafe(KeyOrder(index)) && t in index && t != []
    ensures var m := OffsetsAfter(TrieRecords(batch, index, fmt));
      FindKey(m.Keys, t) == Some(t) && t in m && RecordAt(TrieRecords(batch, index, fmt), t) == PlaceOf(index, t)
  {
    hide TrieRecords, WholeIndex, KeyOrder, O.Load, O.LoadSafe, F.RecordStart, FindKey, AllEntryCells, SameUpToCase;
    var records := TrieRecords(batch, index, fmt);
    var es, m, i := S.StartEntries(records, 0), OffsetsAfter(records), PlaceOf(index, t);
    OwnTerms(batch, index, fmt);
    TermOffsets(records);
    assert O.Terms(es)[i] == t && m[O.Terms(es)[i]] == O.Cells(es[i]);
    FindKeyIff(m.Keys, t);
    var n := RecordAt(records, t);
    assert StartsWith(m, t, records, n);
    StartsDiffer(records);
    assert es[n] == O.EntryOf(m[t]) == es[i];
  }

  /** What a batch writes is retrieved: if every entry is under its own term and the terms load without a clash, a term
      yields its own record, and with an exact header count exactly its documents. */
  lemma {:induction false} BatchReadsBack(documents: seq<Text>, index: TermTrie, fmt: real -> Text, t: Key)
    requires WholeIndex(BatchOf(documents), index) && Sizes(documents, fmt)
    requires AllEntryCells(index) && O.LoadSafe(KeyOrder(index)) && t in index && t != []
    ensures |index[t]| >= 3 && index[t][2].EntryCount? && WholePostings(BatchOf(documents), Inner(index, t))
    ensures O.Celled(OffsetsAfter(TrieRecords(BatchOf(documents), index, fmt)))
    ensures var records := TrieRecords(BatchOf(documents), index, fmt);
      var found := S.FindDocuments(OffsetsAfter(records), F.TermsFile(records), F.DocumentsFile(documents), t);
      && found == Found(Yielded(documents, index, fmt, PlaceOf(index, t)))
      && (|Inner(index, t)| == index[t][2].count ==> found == Ok(Some(TrieTriples(documents, Inner(index, t), fmt))))
  {
    hide TrieRecords, WholeIndex, KeyOrder, AllEntryCells, O.LoadSafe, Sizes, S.FindDocuments, F.TermsFile,
      OffsetsAfter, F.DocumentsFile, Yielded, TrieTriples, Inner, FindKey, WholePostings, BatchOf;
    Retrieved(documents, index, fmt, t);
    OwnRecordFound(BatchOf(documents), index, fmt, t);
    YieldedExactly(documents, index, fmt, PlaceOf(index, t));
  }

  /** With an exact header count a record yields exactly its documents. */
  lemma {:induction false} YieldedExactly(documents: seq<Text>, index: TermTrie, fmt: real -> Text, i: nat)
    requires WholeIndex(BatchOf(documents), index) && i < |KeyOrder(index)|
    ensures var k := KeyOrder(index)[i];
      && k in index && |index[k]| >= 3 && index[k][2].EntryCount? && WholePostings(BatchOf(documents), Inner(index, k))
      && (|Inner(index, k)| == index[k][2].count ==>
            Yielded(documents, index, fmt, i) == Ok(TrieTriples(documents, Inner(index, k), fmt)))
  {
    hide TrieRecords, TriePostings, TrieTexts, WholeIndex, WholePostings, KeyOrder, BatchOf, F.DocumentsFile,
      F.TermsFile, F.RecordStart, AllTerms, HeaderCount, SameUpToCase, F.Triples;
    var batch := BatchOf(documents);
    RecordIs(batch, index, fmt, i);
    var r, postings := TrieRecords(batch, index, fmt)[i], Inner(index, KeyOrder(index)[i]);
    AllVisited(batch, postings);
    var ps, texts := TriePostings(batch, postings, fmt), TrieTexts(batch, postings);
    assert ps[..|ps|] == ps && texts[..|texts|] == texts;
  }

  // ---------- the naive index ----------

  /** What the naive index posts. */
  lemma {:induction false} NaivePosted(documents: seq<Text>, index: TermTrie, log: real -> real, t: Key, d: nat)
    requires var batch := BatchOf(documents);
      WholeIndex(batch, index) && Naive(index, batch, log) && t in index && d < |documents|
    ensures var batch := BatchOf(documents);
      && (DocKey(batch, d) in Inner(index, t) <==> d in Significant(t, batch, log))
      && (DocKey(batch, d) in Inner(index, t) ==>
            Inner(index, t)[DocKey(batch, d)] == PostedDocument(batch, d, Weight(t, batch, d, log)))
  {
    hide Weight, Terms, EntryOk, DocKey, BatchOf, EntryView, WholeIndex;
    var batch := BatchOf(documents);
    assert EntryOk(IndexView(index)[t], batch, log, t, |batch|, 0);
    EntryIff(index, batch, log, t);
    assert FullAt(index, batch, log, t, d);
  }

  ghost function SignificantTriple(documents: seq<Text>, t: Key, d: nat, log: real -> real, fmt: real -> Text): F.Triple
    requires d < |documents|
  {
    F.Triple(F.DocumentStart(documents, d), documents[d], fmt(Weight(t, BatchOf(documents), d, log)))
  }

  lemma {:induction false} NaiveTriple(documents: seq<Text>, index: TermTrie, log: real -> real, fmt: real -> Text,
                                       t: Key, d: nat)
    requires var batch := BatchOf(documents);
      WholeIndex(batch, index) && Naive(index, batch, log) && t in index && d < |documents|
    requires WholePostings(BatchOf(documents), Inner(index, t)) && DocKey(BatchOf(documents), d) in Inner(index, t)
    ensures d in Significant(t, BatchOf(documents), log)
    ensures TripleOf(documents, Inner(index, t), d, fmt) == SignificantTriple(documents, t, d, log, fmt)
  {
    hide Weight, Inner, BatchOf, WholeIndex, Naive, DocKey, WholePostings, Significant;
    NaivePosted(documents, index, log, t, d);
    var w := Weight(t, BatchOf(documents), d, log);
    assert PostedDocument(BatchOf(documents), d, w)[1] == DocumentWeight(w);
  }

  lemma {:induction false} NaiveKeys(documents: seq<Text>, index: TermTrie, log: real -> real, t: Key)
    requires var batch := BatchOf(documents); WholeIndex(batch, index) && Naive(index, batch, log) && t in index
    ensures WholePostings(BatchOf(documents), Inner(index, t))
    ensures |Inner(index, t)| == |Significant(t, BatchOf(documents), log)|
  {
    hide Weight, Inner, BatchOf, WholeIndex, Naive, DocKey, WholePostings;
    var batch, postings := BatchOf(documents), Inner(index, t);
    InnerWhole(batch, index, t);
    forall d | 0 <= d < |documents|
      ensures DocKey(batch, d) in postings <==> d in Significant(t, batch, log)
    {
      NaivePosted(documents, index, log, t, d);
    }
    assert postings.Keys == KeysOf(batch, Significant(t, batch, log)) && |postings| == |postings.Keys|;
    BatchOffsets(documents);
    KeysSize(batch, Significant(t, batch, log));
  }

  ghost predicate IsSignificant(documents: seq<Text>, t: Key, log: real -> real, fmt: real -> Text, triple: F.Triple) {
    exists d :: d in Significant(t, BatchOf(documents), log) && triple == SignificantTriple(documents, t, d, log, fmt)
  }

  /** In the naive index the triples of a term are the documents in which it is significant, each once, with its
      weight there. */
  lemma {:induction false} TriplesOfTerm(documents: seq<Text>, index: TermTrie, log: real -> real, fmt: real -> Text,
                                         t: Key)
    requires var batch := BatchOf(documents); WholeIndex(batch, index) && Naive(index, batch, log) && t in index
    ensures WholePostings(BatchOf(documents), Inner(index, t))
    ensures var triples := TrieTriples(documents, Inner(index, t), fmt);
      && |triples| == |Significant(t, BatchOf(documents), log)|
      && (forall n :: 0 <= n < |triples| ==> IsSignificant(documents, t, log, fmt, triples[n]))
      && (forall d :: d in Significant(t, BatchOf(documents), log) ==>
            SignificantTriple(documents, t, d, log, fmt) in triples)
  {
    hide Weight, Inner, WholeIndex, Naive, DocKey, WholePostings, TrieTriples, SignificantTriple, TripleOf;
    NaiveKeys(documents, index, log, t);
    var triples := TrieTriples(documents, Inner(index, t), fmt);
    TriplesExact(documents, Inner(index, t), fmt);
    forall n | 0 <= n < |triples|
      ensures IsSignificant(documents, t, log, fmt, triples[n])
    {
      ListedIsSignificant(documents, index, log, fmt, t, triples[n]);
    }
    forall d | d in Significant(t, BatchOf(documents), log)
      ensures SignificantTriple(documents, t, d, log, fmt) in triples
    {
      SignificantIsListed(documents, index, log, fmt, t, d);
    }
  }

  lemma {:induction false} ListedIsSignificant(documents: seq<Text>, index: TermTrie, log: real -> real,
                                               fmt: real -> Text, t: Key, triple: F.Triple)
    requires var batch := BatchOf(documents); WholeIndex(batch, index) && Naive(index, batch, log) && t in index
    requires WholePostings(BatchOf(documents), Inner(index, t)) && IsListed(documents, Inner(index, t), fmt, triple)
    ensures IsSignificant(documents, t, log, fmt, triple)
  {
    hide Weight, Inner, BatchOf, WholeIndex, Naive, DocKey, WholePostings, SignificantTriple, TripleOf, Significant;
    var d :| IsTripleOf(documents, Inner(index, t), fmt, triple, d);
    NaiveTriple(documents, index, log, fmt, t, d);
  }

  lemma {:induction false} SignificantIsListed(documents: seq<Text>, index: TermTrie, log: real -> real,
                                               fmt: real -> Text, t: Key, d: nat)
    requires var batch := BatchOf(documents); WholeIndex(batch, index) && Naive(index, batch, log) && t in index
    requires WholePostings(BatchOf(documents), Inner(index, t)) && d in Significant(t, BatchOf(documents), log)
    ensures SignificantTriple(documents, t, d, log, fmt) in TrieTriples(documents, Inner(index, t), fmt)
  {
    hide Weight, Inner, BatchOf, WholeIndex, Naive, DocKey, WholePostings, SignificantTriple, TripleOf, Significant,
      TrieTriples;
    SignificantIsDocument(documents, log, t, d);
    NaivePosted(documents, index, log, t, d);
    NaiveTriple(documents, index, log, fmt, t, d);
    TriplesExact(documents, Inner(index, t), fmt);
  }

  lemma {:induction false} SignificantIsDocument(documents: seq<Text>, log: real -> real, t: Key, d: nat)
    requires d in Significant(t, BatchOf(documents), log)
    ensures d < |documents|
  {
  }

  // ---------- adding documents ----------

  /** The terms of all records are keys if the documents are. */
  lemma {:induction false} RecordTermsAreKeys(documents: seq<Text>, index: TermTrie, fmt: real -> Text)
    requires WholeIndex(BatchOf(documents), index) && forall d :: 0 <= d < |documents| ==> ValidKey(documents[d])
    ensures var rs := TrieRecords(BatchOf(documents), index, fmt); forall i :: 0 <= i < |rs| ==> ValidKey(rs[i].term)
  {
    hide Terms, TriePostings, TrieRecords, WholeIndex, HeaderCount, SameUpToCase;
    var rs := TrieRecords(BatchOf(documents), index, fmt);
    forall i | 0 <= i < |rs|
      ensures ValidKey(rs[i].term)
    {
      RecordIs(BatchOf(documents), index, fmt, i);
      var d :| 0 <= d < |documents| && rs[i].term in Terms(BatchOf(documents)[d].text);
      TermsAreKeys(documents[d], rs[i].term);
    }
  }

  /** Terms of texts whose bytes all have slots are keys. */
  lemma {:induction false} TermsAreKeys(text: Text, t: Text)
    requires ValidKey(text) && t in Terms(text)
    ensures ValidKey(t)
  {
  }

  method Pairs(ghost documents: seq<Text>, offsetMap: seq<(Text, nat)>) returns (batch: Batch)
    requires |offsetMap| == |documents|
    requires forall i :: 0 <= i < |documents| ==> offsetMap[i] == (documents[i], F.DocumentStart(documents, i))
    ensures batch == BatchOf(documents)
  {
    batch := seq(|offsetMap|, i requires 0 <= i < |offsetMap| => Document(offsetMap[i].0, offsetMap[i].1));
  }

  /** The files and the term offsets of a storage are those of a batch. */
  ghost predicate HoldsBatch(storage: S.Storage, documents: seq<Text>, index: TermTrie, fmt: real -> Text)
    requires WholeIndex(BatchOf(documents), index)
    reads storage, storage.termOffsets
  {
    var records := TrieRecords(BatchOf(documents), index, fmt);
    && storage.documentsFile == F.DocumentsFile(documents) && storage.documentsSize == |storage.documentsFile|
    && storage.termsFile == F.TermsFile(records) && storage.termsSize == |storage.termsFile|
    && storage.termOffsets.contents == OffsetsAfter(records)
  }

  /** What the storage finds for a term. */
  ghost function FindIn(storage: S.Storage, t: Key): Result<Option<seq<F.Triple>>>
    requires O.Celled(storage.termOffsets.contents)
    reads storage, storage.termOffsets
  {
    S.FindDocuments(storage.termOffsets.contents, storage.termsFile, storage.documentsFile, t)
  }

  /** The term yields nothing, or what the record yields that it is taken for. */
  ghost predicate RetrievedAt(storage: S.Storage, documents: seq<Text>, index: TermTrie, fmt: real -> Text, t: Key)
    requires WholeIndex(BatchOf(documents), index) && HoldsBatch(storage, documents, index, fmt)
    reads storage, storage.termOffsets
  {
    var records := TrieRecords(BatchOf(documents), index, fmt);
    && O.Celled(storage.termOffsets.contents)
    && FindIn(storage, t) == match FindKey(OffsetsAfter(records).Keys, t)
      case None => Ok(None)
      case Some(p) => Found(Yielded(documents, index, fmt, RecordAt(records, p)))
  }

  /** If the header count of the term is exact, it yields its documents. */
  ghost predicate ReadBackAt(storage: S.Storage, documents: seq<Text>, index: TermTrie, fmt: real -> Text, t: Key)
    reads storage, storage.termOffsets
  {
    && O.Celled(storage.termOffsets.contents) && WholePostings(BatchOf(documents), Inner(index, t))
    && t in index && |index[t]| >= 3 && index[t][2].EntryCount?
    && (|Inner(index, t)| == index[t][2].count ==>
          FindIn(storage, t) == Ok(Some(TrieTriples(documents, Inner(index, t), fmt))))
  }

  lemma {:induction false} BatchRetrieved(storage: S.Storage, documents: seq<Text>, index: TermTrie, fmt: real -> Text,
                                          t: Key)
    requires WholeIndex(BatchOf(documents), index) && HoldsBatch(storage, documents, index, fmt)
    requires Sizes(documents, fmt)
    ensures RetrievedAt(storage, documents, index, fmt, t)
  {
    hide S.FindDocuments, TrieRecords, WholeIndex, Sizes, Yielded, OffsetsAfter, O.Celled, F.TermsFile, F.DocumentsFile,
      FindKey, BatchOf;
    Retrieved(documents, index, fmt, t);
  }

  lemma {:induction false} AddedReadsBack(storage: S.Storage, documents: seq<Text>, index: TermTrie, fmt: real -> Text,
                                          t: Key)
    requires WholeIndex(BatchOf(documents), index) && HoldsBatch(storage, documents, index, fmt)
    requires Sizes(documents, fmt) && AllEntryCells(index) && O.LoadSafe(KeyOrder(index)) && t in index
    ensures ReadBackAt(storage, documents, index, fmt, t)
  {
    hide S.FindDocuments, TrieRecords, WholeIndex, Sizes, Yielded, OffsetsAfter, O.Celled, F.TermsFile, F.DocumentsFile,
      O.LoadSafe, AllEntryCells, TrieTriples, KeyOrder, Inner, BatchOf, WholePostings;
    NoEmptyKey(BatchOf(documents), index);
    BatchReadsBack(documents, index, fmt, t);
  }

  /** Documents added to a fresh storage. On every batch the files hold the documents and the index as it was built,
      and retrieving any term yields nothing or what the record yields that it is taken for. If every entry is under
      its own term and the terms load without a clash, every term with an exact header count yields its documents. The
      index is the naive one if and only if no clash did lasting damage. */
  method AddDocuments(storage: S.Storage, documents: seq<Text>, log: real -> real, fmt: real -> Text)
    returns (ghost index: TermTrie)
    requires storage.Valid() && storage.termsSize == storage.documentsSize == 0 && storage.termOffsets.contents == map[]
    requires forall d :: 0 <= d < |documents| ==> ValidKey(documents[d])
    modifies storage, storage.termOffsets.Repr
    ensures storage.Valid() && WholeIndex(BatchOf(documents), index)
    ensures index == BuiltIndex(BatchOf(documents), log) && HoldsBatch(storage, documents, index, fmt)
    ensures Sizes(documents, fmt) ==>
      && (forall t :: RetrievedAt(storage, documents, index, fmt, t))
      && (AllEntryCells(index) && O.LoadSafe(KeyOrder(index)) ==>
            forall t :: t in index ==> ReadBackAt(storage, documents, index, fmt, t))
    ensures IsLog(log) ==> var batch := BatchOf(documents);
      && (Naive(index, batch, log) <==> Harmless(batch, log)) && (NoClash(batch, log) ==> Naive(index, batch, log))
  {
    hide D.Dictionary.Valid, Naive, IsLog, Sizes, NoClash, WholeIndex, AllEntryCells, BuiltIndex, TrieRecords, Harmless,
      F.TermsFile, F.DocumentsFile, O.LoadOnto, O.LoadSafe, O.Celled, O.ValidNames, ReadBackAt, RetrievedAt,
      DistinctOffsets, KeyOrder;
    var offsetMap := storage.WriteDocuments(documents);
    var batch := Pairs(documents, offsetMap);
    BatchOffsets(documents);
    var trie := AssignTerms(batch, log);
    index := trie;
    var records := VisitTerms(batch, trie, fmt);
    RecordTermsAreKeys(documents, index, fmt);
    storage.WriteTerms(records);
    if Sizes(documents, fmt) {
      forall t
        ensures RetrievedAt(storage, documents, index, fmt, t)
      {
        BatchRetrieved(storage, documents, index, fmt, t);
      }
      forall t | AllEntryCells(index) && O.LoadSafe(KeyOrder(index)) && t in index
        ensures ReadBackAt(storage, documents, index, fmt, t)
      {
        AddedReadsBack(storage, documents, index, fmt, t);
      }
    }
  }

  // ---------- the batch that breaks the bound ----------

  lemma HasStartsAtFifteen()
    ensures BatchOf([HIS_HIT, HAS]) == HIS_HIT_THEN_HAS
  {
    var documents := [HIS_HIT, HAS];
    F.DocumentsLayout(documents, 0);
  }

  /** After adding "his hit" and "has" the record of "his" holds both documents, and reading it yields one. */
  lemma {:induction false} OverfullRead(log: real -> real, fmt: real -> Text)
    requires IsLog(log)
    ensures var batch, documents := HIS_HIT_THEN_HAS, [HIS_HIT, HAS]; var index := BuiltIndex(batch, log);
      && BatchOf(documents) == batch && WholeIndex(batch, index) && HIS in index && |Inner(index, HIS)| == 2
      && var yielded := Yielded(documents, index, fmt, PlaceOf(index, HIS)); yielded.Ok? && |yielded.value| == 1
  {
    hide BuiltIndex, TrieRecords, TriePostings, TrieTexts, WholeIndex, WholePostings, KeyOrder, BatchOf, Decimal,
      Bounded;
    var batch, documents := HIS_HIT_THEN_HAS, [HIS_HIT, HAS];
    var index := BuiltIndex(batch, log);
    HasStartsAtFifteen();
    BuiltAtEnd(batch, log);
    OverfullBatch(log);
    FifteenNotZero();
    assert |Inner(index, HIS)| == |Inner(index, HIS).Keys|;
    RecordIs(batch, index, fmt, PlaceOf(index, HIS));
    AllVisited(batch, Inner(index, HIS));
  }

  // ---------- saving what was added ----------

  /** On every batch: what it leaves in the term offset dictionary keeps its first cells through saving and loading if
      and only if every saved entry lands where it was saved from. */
  lemma {:induction false} AddedReloads(batch: Batch, index: TermTrie, fmt: real -> Text)
    requires WholeIndex(batch, index)
    ensures var m := OffsetsAfter(TrieRecords(batch, index, fmt));
      && O.Celled(m) && O.DistinctEntries(m) && [] !in m
      && (O.Load(O.SavedEntries(m)) == O.FirstCells(m) <==> O.LandsBack(m))
  {
    hide TrieRecords, WholeIndex, O.Load, O.SavedEntries, O.FirstCells, O.LandsBack, O.DistinctEntries, F.RecordStart,
      AllTerms, HeaderCount;
    var records := TrieRecords(batch, index, fmt);
    var es := S.StartEntries(records, 0);
    StartsDiffer(records);
    O.LoadStarts(es);
    if [] in O.Load(es) {
      var i :| 0 <= i < |es| && es[i] == O.EntryOf(O.Load(es)[[]]);
      RecordIs(batch, index, fmt, i);
      NotEmptyTerm(batch, records[i].term);
    }
    O.SaveLoadIff(O.Load(es));
  }

  lemma {:induction false} NotEmptyTerm(batch: Batch, t: Key)
    requires t in AllTerms(batch)
    ensures t != []
  {
    hide Terms;
    var d :| 0 <= d < |batch| && t in Terms(batch[d].text);
    EmptyIsNoTerm(batch[d].text);
  }

  /** If every entry is under its own term and the terms load without a clash, it comes back unchanged. */
  lemma {:induction false} OwnReloads(batch: Batch, index: TermTrie, fmt: real -> Text)
    requires WholeIndex(batch, index) && AllEntryCells(index) && O.LoadSafe(KeyOrder(index))
    ensures var m := OffsetsAfter(TrieRecords(batch, index, fmt));
      m.Keys == index.Keys && O.Celled(m) && O.NamesItself(m) && O.Load(O.SavedEntries(m)) == m
  {
    hide TrieRecords, WholeIndex, O.Load, O.SavedEntries, F.RecordStart, AllEntryCells, O.LoadSafe;
    var records := TrieRecords(batch, index, fmt);
    var es, m := S.StartEntries(records, 0), OffsetsAfter(records);
    OwnTerms(batch, index, fmt);
    TermOffsets(records);
    AddedReloads(batch, index, fmt);
    assert O.SavedKeys(m) == KeyOrder(index) by {
      assert m.Keys == index.Keys;
    }
    O.RestoredReloads(m, es);
  }

  /** Batches whose terms and documents are never confused meet both conditions. */
  lemma {:induction false} ExactIsSafe(index: TermTrie, batch: Batch, log: real -> real)
    requires TriesExact(batch) && index.Keys <= AllTerms(batch)
    ensures NoClash(batch, log) && O.LoadSafe(KeyOrder(index))
  {
    hide Separable, AllTerms;
    ExactNeverClashes(batch, log);
    var ks := KeyOrder(index);
    forall i | 0 <= i < |ks|
      ensures O.SafeAt(ks, i)
    {
      assert ks[i] in ks && forall t :: t in Elements(ks[..i]) ==> t in ks;
      SeparableIsExact(AllTerms(batch), Elements(ks[..i]), ks[i]);
    }
  }
}
