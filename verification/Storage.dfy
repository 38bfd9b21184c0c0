/** The storage: one dictionary of term offsets, two size counters and three files. */
module Storage {
  import opened Keys
  import opened TrieSpec
  import opened Wrappers
  import opened Codec
  import opened Formats
  import opened OffsetsFormat
  import D = Dictionary

  datatype Status = StorageOk | StorageReadError

  class Storage {
    const termOffsets: D.Dictionary<Cell>
    var termsSize: nat
    var documentsSize: nat
    var documentsFile: seq<Byte>
    var termsFile: seq<Byte>
    var offsetsFile: Option<seq<Byte>>

    ghost predicate Valid()
      reads this, termOffsets, termOffsets.Repr
    {
      && termOffsets.Valid() && this !in termOffsets.Repr
      && Celled(termOffsets.contents) && ValidNames(termOffsets.contents)
    }

    constructor ()
      ensures Valid() && fresh(termOffsets.Repr) && termOffsets.contents == map[]
      ensures termsSize == 0 && documentsSize == 0 && offsetsFile == None
    {
      termOffsets := new D.Dictionary<Cell>();
      termsSize, documentsSize := 0, 0;
      documentsFile, termsFile, offsetsFile := [], [], None;
    }

    // ---------- documents ----------

    /** Write a batch of documents to a truncated file, and pair each with the counter before it. */
    method WriteDocuments(documents: seq<seq<Byte>>) returns (offsetMap: seq<(seq<Byte>, nat)>)
      modifies this`documentsFile, this`documentsSize
      ensures documentsFile == DocumentsFile(documents)
      ensures documentsSize == old(documentsSize) + |documentsFile|
      ensures |offsetMap| == |documents|
      ensures forall i :: 0 <= i < |documents| ==>
          offsetMap[i] == (documents[i], old(documentsSize) + DocumentStart(documents, i))
    {
      var channel: seq<Byte> := [];
      offsetMap := [];
      ghost var records := DocumentRecords(documents);
      var i := 0;
      while i < |documents|
        invariant 0 <= i <= |documents| && |offsetMap| == i
        invariant channel == Concat(records[..i]) && documentsSize == old(documentsSize) + |channel|
        invariant forall j :: 0 <= j < i ==>
            offsetMap[j] == (documents[j], old(documentsSize) + DocumentStart(documents, j))
      {
        var document := documents[i];
        offsetMap := offsetMap + [(document, documentsSize)];
        channel := channel + Word(|document|);
        documentsSize := documentsSize + WORD;
        channel := channel + document;
        documentsSize := documentsSize + |document|;
        assert records[..i+1][..i] == records[..i];
        assert Concat(records[..i]) + Word(|document|) + document == Concat(records[..i]) + records[i];
        i := i + 1;
      }
      assert records[..|documents|] == records;
      documentsFile := channel;
    }

    // ---------- terms ----------

    /** The callback for one posting. */
    method WritePosting(channel: seq<Byte>, p: Posting) returns (channel': seq<Byte>)
      modifies this`termsSize
      ensures channel' == channel + PostingBytes(p) && termsSize == old(termsSize) + |PostingBytes(p)|
    {
      hide Word;
      channel' := channel + Word(p.offset);
      termsSize := termsSize + WORD;
      channel' := channel' + Word(|p.significancy|);
      termsSize := termsSize + WORD;
      channel' := channel' + p.significancy;
      termsSize := termsSize + |p.significancy|;
    }

    method WritePostings(channel: seq<Byte>, ps: seq<Posting>) returns (channel': seq<Byte>)
      modifies this`termsSize
      ensures channel' == channel + PostingsBytes(ps) && termsSize == old(termsSize) + |PostingsBytes(ps)|
    {
      hide Word, PostingBytes;
      channel' := channel;
      var i := 0;
      while i < |ps|
        invariant 0 <= i <= |ps|
        invariant channel' + PostingsBytes(ps[i..]) == channel + PostingsBytes(ps)
        invariant termsSize + |PostingsBytes(ps[i..])| == old(termsSize) + |PostingsBytes(ps)|
      {
        assert ps[i..][0] == ps[i] && ps[i..][1..] == ps[i+1..];
        channel' := WritePosting(channel', ps[i]);
        i := i + 1;
      }
    }

    /** Note `offset` and the term itself under the term. */
    method NoteOffset(term: Key, offset: nat)
      requires Valid() && ValidKey(term)
      modifies termOffsets.Repr
      ensures Valid() && fresh(termOffsets.Repr - old(termOffsets.Repr))
      ensures termOffsets.contents == LoadEntry(old(termOffsets.contents), Entry(term, offset))
    {
      hide D.Dictionary.Valid, ValidKey;
      LoadEntryCelled(termOffsets.contents, Entry(term, offset));
      var node := termOffsets.Append(term, OffsetCell(offset));
      node := termOffsets.Append(term, TermCell(term));
    }

    method WriteRecord(channel: seq<Byte>, r: Record) returns (channel': seq<Byte>)
      modifies this`termsSize
      ensures channel' == channel + RecordBytes(r) && termsSize == old(termsSize) + |RecordBytes(r)|
    {
      hide Word, PostingsBytes;
      channel' := channel + Word(|r.term|);
      termsSize := termsSize + WORD;
      channel' := channel' + r.term;
      termsSize := termsSize + |r.term|;
      channel' := channel' + Word(r.count);
      termsSize := termsSize + WORD;
      assert channel' == channel + HeaderBytes(r);
      channel' := WritePostings(channel', r.postings);
      assert channel' == channel + RecordBytes(r);
    }

    /** Write the records in visiting order to a truncated file; the callback for a term notes its
        offset before it writes the record. */
    method WriteTerms(records: seq<Record>)
      requires Valid() && forall i :: 0 <= i < |records| ==> ValidKey(records[i].term)
      modifies this`termsSize, this`termsFile, termOffsets.Repr
      ensures Valid() && fresh(termOffsets.Repr - old(termOffsets.Repr))
      ensures termsFile == TermsFile(records) && termsSize == old(termsSize) + |termsFile|
      ensures termOffsets.contents == LoadOnto(old(termOffsets.contents), StartEntries(records, old(termsSize)))
    {
      hide D.Dictionary.Valid, LoadEntry, LoadOnto, Celled, ValidNames, ValidKey, RecordBytes;
      ghost var pieces, es := RecordPieces(records), StartEntries(records, termsSize);
      ghost var before := termOffsets.contents;
      LoadNothing(before);
      var channel: seq<Byte> := [];
      var i := 0;
      while i < |records|
        invariant 0 <= i <= |records| && Valid() && fresh(termOffsets.Repr - old(termOffsets.Repr))
        invariant channel == Concat(pieces[..i]) && termsSize == old(termsSize) + |channel|
        invariant termOffsets.contents == LoadOnto(before, es[..i])
      {
        LoadOneMore(before, es[..i], es[i]);
        NoteOffset(records[i].term, termsSize);
        channel := WriteRecord(channel, records[i]);
        assert pieces[..i+1][..i] == pieces[..i] && es[..i+1] == es[..i] + [es[i]];
        i := i + 1;
      }
      assert pieces[..i] == pieces && es[..i] == es;
      termsFile := channel;
    }

    // ---------- reading ----------

    /** The triples of the record at `offset`. */
    method ReadDocumentsByTerm(offset: nat) returns (r: Result<seq<Triple>>)
      ensures r == ReadRecord(termsFile, documentsFile, offset)
    {
      var size := ReadWord(termsFile, offset);
      if size == None {
        return ReadError;
      }
      var term := Read(termsFile, offset + WORD, size.value);
      if term == None {
        return ReadError;
      }
      var count := ReadWord(termsFile, offset + WORD + size.value);
      if count == None {
        return ReadError;
      }
      r := ReadLoop(offset + 2 * WORD + size.value, count.value);
    }

    /** One round of the reading loop: a document offset, the document there, and the significancy. */
    method ReadOne(pos: nat) returns (r: Result<(seq<Triple>, nat)>)
      ensures r == ReadPosting(termsFile, documentsFile, pos)
    {
      var offset := ReadWord(termsFile, pos);
      if offset == None {
        return ReadError;
      }
      var documentSize := ReadWord(documentsFile, offset.value);
      if documentSize == None {
        return ReadError;
      }
      if documentSize.value > INT_MAX {
        return Ok(([], pos + WORD));
      }
      var document := Read(documentsFile, offset.value + WORD, documentSize.value);
      if document == None {
        return ReadError;
      }
      var size := ReadWord(termsFile, pos + WORD);
      if size == None {
        return ReadError;
      }
      var significancy := Read(termsFile, pos + 2 * WORD, size.value);
      if significancy == None {
        return ReadError;
      }
      return Ok(([Triple(offset.value, document.value, significancy.value)], pos + 2 * WORD + size.value));
    }

    method ReadLoop(start: nat, n: nat) returns (r: Result<seq<Triple>>)
      ensures r == ReadPostings(termsFile, documentsFile, start, n)
    {
      var triples: seq<Triple> := [];
      var pos := start;
      var i := 0;
      assert Prepend(triples, ReadPostings(termsFile, documentsFile, pos, n))
        == ReadPostings(termsFile, documentsFile, start, n) by {
        PrependNothing(ReadPostings(termsFile, documentsFile, pos, n));
      }
      while i < n
        invariant 0 <= i <= n
        invariant Prepend(triples, ReadPostings(termsFile, documentsFile, pos, n - i))
               == ReadPostings(termsFile, documentsFile, start, n)
      {
        var step := ReadOne(pos);
        if step == ReadError {
          return ReadError;
        }
        PrependTwice(triples, step.value.0, ReadPostings(termsFile, documentsFile, step.value.1, n - i - 1));
        triples, pos := triples + step.value.0, step.value.1;
        i := i + 1;
      }
      assert triples + [] == triples;
      return Ok(triples);
    }

    /** The documents of one term; a term that is not found yields `None`. */
    method Find(term: Key) returns (r: Result<Option<seq<Triple>>>)
      requires Valid() && ValidKey(term)
      ensures r == FindDocuments(termOffsets.contents, termsFile, documentsFile, term)
    {
      hide D.Dictionary.Valid, ReadRecord;
      var list := termOffsets.Get(term);
      if list == None {
        return Ok(None);
      }
      var documents := ReadDocumentsByTerm(list.value[0].offset);
      if documents == ReadError {
        return ReadError;
      }
      return Ok(Some(documents.value));
    }

    /** The documents of every term, in order; the first read error ends it. */
    method GetDocuments(terms: seq<Key>) returns (r: Result<seq<Option<seq<Triple>>>>)
      requires Valid()
      requires forall i :: 0 <= i < |terms| ==> ValidKey(terms[i])
      ensures r.Ok? ==> |r.value| == |terms| && forall i :: 0 <= i < |terms| ==>
          Ok(r.value[i]) == FindDocuments(termOffsets.contents, termsFile, documentsFile, terms[i])
      ensures r == ReadError <==> exists i ::
          0 <= i < |terms| && FindDocuments(termOffsets.contents, termsFile, documentsFile, terms[i]) == ReadError
    {
      hide D.Dictionary.Valid, FindDocuments, ValidNames, ValidKey;
      var found: seq<Option<seq<Triple>>> := [];
      var i := 0;
      while i < |terms|
        invariant 0 <= i <= |terms| && |found| == i
        invariant forall j :: 0 <= j < i ==>
            Ok(found[j]) == FindDocuments(termOffsets.contents, termsFile, documentsFile, terms[j])
      {
        var documents := Find(terms[i]);
        if documents == ReadError {
          return ReadError;
        }
        found := found + [documents.value];
        i := i + 1;
      }
      return Ok(found);
    }

    // ---------- saving and loading ----------

    /** Visiting the nodes and skipping those without data goes through the saved keys. */
    lemma SavedInOrder()
      requires Valid()
      ensures Select(termOffsets.VisitOrder(), termOffsets.contents.Keys) == SavedKeys(termOffsets.contents)
    {
      var N, K := termOffsets.ix.at.Keys - {[]}, termOffsets.contents.Keys;
      SelectEnumerates(N, K - {[]});
      SelectSorted(Enumerate(N), K);
      SelectSorted(Enumerate(N), K - {[]});
      assert forall x :: x in Enumerate(N) <==> x in Elements(Enumerate(N));
      SortedUnique(Select(Enumerate(N), K), Select(Enumerate(N), K - {[]}));
    }

    /** The callback for one saved term. */
    method WriteEntry(channel: seq<Byte>, list: seq<Cell>) returns (channel': seq<Byte>)
      requires |list| >= 2 && list[0].OffsetCell? && list[1].TermCell?
      ensures channel' == channel + EntryBytes(EntryOf(list))
    {
      var offset, term := list[0].offset, list[1].term;
      channel' := channel + Word(|term|);
      channel' := channel' + term;
      channel' := channel' + Word(offset);
      assert Word(|term|) + (term + Word(offset)) == EntryBytes(EntryOf(list));
    }

    /** Visit the dictionary and write an entry for every node with data. */
    method WriteEntries(channel: seq<Byte>) returns (channel': seq<Byte>)
      requires Valid()
      ensures channel' == channel + EntriesBytes(SavedEntries(termOffsets.contents))
    {
      hide D.Dictionary.Valid, Select, EntryBytes, EntryOf, EntriesFor, D.Dictionary.VisitOrder;
      ghost var order, m := termOffsets.VisitOrder(), termOffsets.contents;
      var visited := termOffsets.VisitDown();
      channel' := channel;
      NothingSaved(m);
      assert order[..0] == [];
      var i := 0;
      while i < |visited|
        invariant 0 <= i <= |visited|
        invariant channel' == channel + EntriesBytes(EntriesFor(m, Select(order[..i], m.Keys)))
      {
        SaveStep(m, order, i);
        if visited[i].dataList != None {
          channel' := WriteEntry(channel', visited[i].dataList.value);
        }
        i := i + 1;
      }
      SavedInOrder();
      assert order[..i] == order;
    }

    method Save()
      requires Valid()
      modifies this`offsetsFile
      ensures offsetsFile == Some(OffsetsFile(termsSize, documentsSize, SavedEntries(termOffsets.contents)))
    {
      hide D.Dictionary.Valid, ValidNames, ValidKey, Word, EntriesBytes, SavedEntries;
      var channel := Word(termsSize);
      channel := channel + Word(documentsSize);
      ghost var header := channel;
      channel := WriteEntries(channel);
      offsetsFile := Some(channel);
      ghost var es := SavedEntries(termOffsets.contents);
      assert header + EntriesBytes(es) == OffsetsFile(termsSize, documentsSize, es);
    }

    /** Append what the entries of an offsets file from `start` on say. */
    method ReadTermOffsets(file: seq<Byte>, start: nat)
      requires Valid() && forall i :: 0 <= i < |ReadEntries(file, start)| ==> ValidKey(ReadEntries(file, start)[i].term)
      modifies termOffsets.Repr
      ensures Valid() && fresh(termOffsets.Repr - old(termOffsets.Repr))
      ensures termOffsets.contents == LoadOnto(old(termOffsets.contents), ReadEntries(file, start))
    {
      hide Valid, LoadEntry, LoadOnto, ReadEntry, ReadEntries, ValidKey;
      ghost var all, done: seq<Entry> := ReadEntries(file, start), [];
      ghost var before := termOffsets.contents;
      LoadNothing(before);
      var pos := start;
      while true
        invariant Valid() && fresh(termOffsets.Repr - old(termOffsets.Repr))
        invariant all == done + ReadEntries(file, pos)
        invariant termOffsets.contents == LoadOnto(before, done)
        decreases if pos <= |file| then |file| - pos else 0
      {
        var next := ReadEntry(file, pos);
        EntriesStep(file, pos);
        if next == None {
          break;
        }
        var entry := next.value.0;
        assert all[|done|] == entry;
        NoteOffset(entry.term, entry.offset);
        LoadOneMore(before, done, entry);
        done, pos := done + [entry], next.value.1;
      }
      assert all == done;
    }

    /** Load the saved offsets, if there is a file. */
    method Load() returns (status: Status)
      requires Valid()
      requires offsetsFile.Some? ==> forall i :: 0 <= i < |ReadEntries(offsetsFile.value, 2 * WORD)| ==>
          ValidKey(ReadEntries(offsetsFile.value, 2 * WORD)[i].term)
      modifies this`termsSize, this`documentsSize, termOffsets.Repr
      ensures Valid() && fresh(termOffsets.Repr - old(termOffsets.Repr))
      ensures status == StorageReadError <==> offsetsFile.Some? && |offsetsFile.value| < 2 * WORD
      ensures offsetsFile.Some? && |offsetsFile.value| >= WORD ==> ReadWord(offsetsFile.value, 0) == Some(termsSize)
      ensures offsetsFile.Some? && |offsetsFile.value| >= 2 * WORD ==>
          && ReadWord(offsetsFile.value, WORD) == Some(documentsSize)
          && termOffsets.contents == LoadOnto(old(termOffsets.contents), ReadEntries(offsetsFile.value, 2 * WORD))
      ensures offsetsFile == None ==> termsSize == old(termsSize)
      ensures offsetsFile == None || |offsetsFile.value| < WORD ==> documentsSize == old(documentsSize)
      ensures offsetsFile == None || status == StorageReadError ==> termOffsets.contents == old(termOffsets.contents)
    {
      hide D.Dictionary.Valid, Celled, ValidNames;
      if offsetsFile == None {
        return StorageOk;
      }
      var file := offsetsFile.value;
      var word := ReadWord(file, 0);
      if word == None {
        return StorageReadError;
      }
      termsSize := word.value;
      word := ReadWord(file, WORD);
      if word == None {
        return StorageReadError;
      }
      documentsSize := word.value;
      ReadTermOffsets(file, 2 * WORD);
      return StorageOk;
    }
  }

  // ---------- save, load, save ----------

  /** Everything that is saved fits 64-bit fields. */
  ghost predicate Savable(s: Storage)
    requires s.Valid()
    reads s, s.termOffsets, s.termOffsets.Repr
  {
    && s.termsSize < WORD_LIMIT && s.documentsSize < WORD_LIMIT
    && forall i {:trigger Fits(SavedEntries(s.termOffsets.contents)[i])} ::
        0 <= i < |SavedEntries(s.termOffsets.contents)| ==> Fits(SavedEntries(s.termOffsets.contents)[i])
  }

  /** A storage saved, and its file loaded by a fresh storage and saved again from there. Counters come back; if no two
      lists start with the same entry, the first cells come back exactly if every saved entry lands where it was saved
      from, and then the second file is the first. */
  method Reload(s: Storage) returns (t: Storage)
    requires s.Valid() && Savable(s)
    modifies s`offsetsFile
    ensures s.Valid() && t.Valid() && fresh(t) && fresh(t.termOffsets.Repr)
    ensures t.termsSize == s.termsSize && t.documentsSize == s.documentsSize
    ensures var m := s.termOffsets.contents;
      && t.termOffsets.contents == OffsetsFormat.Load(SavedEntries(m))
      && (DistinctEntries(m) ==>
            && (t.termOffsets.contents == FirstCells(m) <==> [] !in m && LandsBack(m))
            && ([] !in m && LandsBack(m) ==> t.offsetsFile == s.offsetsFile))
  {
    hide D.Dictionary.Valid, OffsetsFile, ReadEntries, LoadOnto, LandsBack, SavedEntries, SavedKeys, FirstCells, Fits,
      DistinctEntries, Celled, ValidNames, ValidKey;
    ghost var m := s.termOffsets.contents;
    s.Save();
    OffsetsFileReadsBack(s.termsSize, s.documentsSize, SavedEntries(m));
    SavedNames(m);
    FileIsLong(s.termsSize, s.documentsSize, SavedEntries(m));
    t := new Storage();
    t.offsetsFile := s.offsetsFile;
    var status := t.Load();
    t.Save();
    SaveAgain(m);
    if DistinctEntries(m) {
      SaveLoadIff(m);
    }
  }

  lemma {:induction false} FileIsLong(termsSize: nat, documentsSize: nat, es: seq<Entry>)
    ensures |OffsetsFile(termsSize, documentsSize, es)| >= 2 * WORD
  {
  }

  lemma {:induction false} SavedNames(m: Offsets)
    requires Celled(m) && ValidNames(m)
    ensures forall i :: 0 <= i < |SavedEntries(m)| ==> ValidKey(SavedEntries(m)[i].term)
  {
  }

  /** What looking up and reading one term yields. */
  ghost function FindDocuments(m: Offsets, terms: seq<Byte>, docs: seq<Byte>, term: Key): Result<Option<seq<Triple>>>
    requires Celled(m)
  {
    match GetSpec(m, term)
    case None => Ok(None)
    case Some(list) =>
      match ReadRecord(terms, docs, list[0].offset)
      case ReadError => ReadError
      case Ok(triples) => Ok(Some(triples))
  }

  /** The entry each term gets: the counter at the start of its record. */
  ghost function StartEntries(records: seq<Record>, base: nat): (es: seq<Entry>)
    ensures |es| == |records|
  {
    seq(|records|, i requires 0 <= i < |records| => Entry(records[i].term, base + RecordStart(records, i)))
  }
}
