/** The three file formats and what reading them yields. */
module Formats {
  import opened Keys
  import opened Wrappers
  import opened Codec

  const INT_MAX := 0x7fff_ffff

  // ---------- documents ----------

  function DocumentRecord(text: seq<Byte>): seq<Byte> {
    Word(|text|) + text
  }

  function DocumentRecords(documents: seq<seq<Byte>>): (r: seq<seq<Byte>>)
    ensures |r| == |documents|
  {
    seq(|documents|, i requires 0 <= i < |documents| => DocumentRecord(documents[i]))
  }

  ghost function DocumentsFile(documents: seq<seq<Byte>>): seq<Byte> {
    Concat(DocumentRecords(documents))
  }

  /** Offset of document `i` in the file of a batch. */
  ghost function DocumentStart(documents: seq<seq<Byte>>, i: nat): nat
    requires i <= |documents|
  {
    Start(DocumentRecords(documents), i)
  }

  /** The document whose record starts at `offset`, as the reader finds it. */
  function ReadDocument(docs: seq<Byte>, offset: nat): Result<Option<seq<Byte>>> {
    match ReadWord(docs, offset)
    case None => ReadError
    case Some(size) =>
      if size > INT_MAX then Ok(None)
      else
        match Read(docs, offset + WORD, size)
        case None => ReadError
        case Some(text) => Ok(Some(text))
  }

  /** Records lie back to back from 0: a size word and then the bytes of the document. Each reads back unless its size
      exceeds INT_MAX. */
  lemma {:induction false} DocumentsLayout(documents: seq<seq<Byte>>, i: nat)
    requires i < |documents| && |documents[i]| < WORD_LIMIT
    ensures DocumentStart(documents, 0) == 0
    ensures DocumentStart(documents, i + 1) == DocumentStart(documents, i) + WORD + |documents[i]|
    ensures DocumentStart(documents, |documents|) == |DocumentsFile(documents)|
    ensures StandsAt(DocumentsFile(documents), DocumentStart(documents, i), Word(|documents[i]|))
    ensures StandsAt(DocumentsFile(documents), DocumentStart(documents, i) + 8, documents[i])
    ensures ReadDocument(DocumentsFile(documents), DocumentStart(documents, i))
         == Ok(if |documents[i]| <= 2147483647 then Some(documents[i]) else None)
  {
    var records, file, at := DocumentRecords(documents), DocumentsFile(documents), DocumentStart(documents, i);
    PiecesTile(records, i);
    StandsSplit(file, at, Word(|documents[i]|), documents[i]);
    ReadWordBack(file, at, |documents[i]|);
    ReadBack(file, at + WORD, documents[i]);
  }

  /** Different documents have different offsets. */
  lemma {:induction false} DocumentStartsIncrease(documents: seq<seq<Byte>>, i: nat, j: nat)
    requires i < j <= |documents|
    ensures DocumentStart(documents, i) < DocumentStart(documents, j)
    decreases j
  {
    PiecesTile(DocumentRecords(documents), j - 1);
    if i < j - 1 {
      DocumentStartsIncrease(documents, i, j - 1);
    }
  }

  // ---------- terms ----------

  /** A document in which a term is significant. */
  datatype Posting = Posting(offset: nat, significancy: seq<Byte>)

  /** A term with the posting count of its header and its postings. */
  datatype Record = Record(term: Key, count: nat, postings: seq<Posting>)

  datatype Triple = Triple(offset: nat, document: seq<Byte>, significancy: seq<Byte>)

  function PostingBytes(p: Posting): seq<Byte> {
    Word(p.offset) + (Word(|p.significancy|) + p.significancy)
  }

  ghost function PostingsBytes(ps: seq<Posting>): seq<Byte> {
    if ps == [] then [] else PostingBytes(ps[0]) + PostingsBytes(ps[1..])
  }

  function HeaderBytes(r: Record): seq<Byte> {
    Word(|r.term|) + (r.term + Word(r.count))
  }

  ghost function RecordBytes(r: Record): seq<Byte> {
    HeaderBytes(r) + PostingsBytes(r.postings)
  }

  ghost function RecordPieces(records: seq<Record>): (r: seq<seq<Byte>>)
    ensures |r| == |records|
  {
    seq(|records|, i requires 0 <= i < |records| => RecordBytes(records[i]))
  }

  ghost function TermsFile(records: seq<Record>): seq<Byte> {
    Concat(RecordPieces(records))
  }

  ghost function RecordStart(records: seq<Record>, i: nat): nat
    requires i <= |records|
  {
    Start(RecordPieces(records), i)
  }

  /** One posting read from `pos`: what it yields and where the next one is read. A document larger
      than INT_MAX yields nothing, and its significancy is left for the next posting to read. */
  function ReadPosting(terms: seq<Byte>, docs: seq<Byte>, pos: nat): Result<(seq<Triple>, nat)> {
    match ReadWord(terms, pos)
    case None => ReadError
    case Some(offset) =>
      match ReadDocument(docs, offset)
      case ReadError => ReadError
      case Ok(None) => Ok(([], pos + WORD))
      case Ok(Some(document)) =>
        match ReadWord(terms, pos + WORD)
        case None => ReadError
        case Some(size) =>
          match Read(terms, pos + 2 * WORD, size)
          case None => ReadError
          case Some(significancy) => Ok(([Triple(offset, document, significancy)], pos + 2 * WORD + size))
  }

  function ReadPostings(terms: seq<Byte>, docs: seq<Byte>, pos: nat, n: nat): Result<seq<Triple>>
    decreases n
  {
    if n == 0 then Ok([])
    else
      match ReadPosting(terms, docs, pos)
      case ReadError => ReadError
      case Ok((triple, next)) => Prepend(triple, ReadPostings(terms, docs, next, n - 1))
  }

  function Prepend(ts: seq<Triple>, r: Result<seq<Triple>>): Result<seq<Triple>> {
    match r
    case Ok(more) => Ok(ts + more)
    case ReadError => ReadError
  }

  function ReadRecord(terms: seq<Byte>, docs: seq<Byte>, offset: nat): Result<seq<Triple>> {
    match ReadWord(terms, offset)
    case None => ReadError
    case Some(size) =>
      match Read(terms, offset + WORD, size)
      case None => ReadError
      case Some(_) =>
        match ReadWord(terms, offset + WORD + size)
        case None => ReadError
        case Some(count) => ReadPostings(terms, docs, offset + 2 * WORD + size, count)
  }

  /** The posting points at a document that can be read, and fits 64-bit fields. */
  ghost predicate Readable(docs: seq<Byte>, p: Posting, text: seq<Byte>) {
    p.offset < WORD_LIMIT && |p.significancy| < WORD_LIMIT && ReadDocument(docs, p.offset) == Ok(Some(text))
  }

  ghost predicate AllReadable(docs: seq<Byte>, ps: seq<Posting>, texts: seq<seq<Byte>>) {
    && |ps| == |texts|
    && forall i {:trigger Readable(docs, ps[i], texts[i])} :: 0 <= i < |ps| ==> Readable(docs, ps[i], texts[i])
  }

  ghost function Triples(ps: seq<Posting>, texts: seq<seq<Byte>>): seq<Triple>
    requires |ps| == |texts|
  {
    seq(|ps|, i requires 0 <= i < |ps| => Triple(ps[i].offset, texts[i], ps[i].significancy))
  }

  /** Written postings read back in order; a header count beyond them makes the reader go on with
      whatever follows the record. */
  lemma {:induction false} PostingsReadBack(terms: seq<Byte>, docs: seq<Byte>, pos: nat,
                                            ps: seq<Posting>, texts: seq<seq<Byte>>, extra: nat)
    requires StandsAt(terms, pos, PostingsBytes(ps)) && AllReadable(docs, ps, texts)
    ensures ReadPostings(terms, docs, pos, |ps| + extra)
         == Prepend(Triples(ps, texts), ReadPostings(terms, docs, pos + |PostingsBytes(ps)|, extra))
    decreases |ps|
  {
    hide ReadPosting, Readable;
    var end := pos + |PostingsBytes(ps)|;
    var rest := ReadPostings(terms, docs, end, extra);
    if ps == [] {
      assert Triples(ps, texts) == [];
      PrependNothing(rest);
    } else {
      var p := ps[0];
      StandsSplit(terms, pos, PostingBytes(p), PostingsBytes(ps[1..]));
      TriplesHead(docs, ps, texts);
      PostingReadsBack(terms, docs, pos, p, texts[0]);
      var next := pos + |PostingBytes(p)|;
      assert next + |PostingsBytes(ps[1..])| == end && |ps| + extra - 1 == |ps[1..]| + extra;
      PostingsReadBack(terms, docs, next, ps[1..], texts[1..], extra);
      PrependTwice([Triple(p.offset, texts[0], p.significancy)], Triples(ps[1..], texts[1..]), rest);
    }
  }

  /** A smaller number of postings read yields the first ones. */
  lemma {:induction false} FirstPostingsRead(terms: seq<Byte>, docs: seq<Byte>, pos: nat,
                                             ps: seq<Posting>, texts: seq<seq<Byte>>, n: nat)
    requires StandsAt(terms, pos, PostingsBytes(ps)) && AllReadable(docs, ps, texts) && n <= |ps|
    ensures ReadPostings(terms, docs, pos, n) == Ok(Triples(ps[..n], texts[..n]))
  {
    hide Readable, PostingsBytes, ReadPosting, Triples;
    PostingsBytesSplit(ps, n);
    StandsSplit(terms, pos, PostingsBytes(ps[..n]), PostingsBytes(ps[n..]));
    forall i | 0 <= i < n
      ensures Readable(docs, ps[..n][i], texts[..n][i])
    {
      assert Readable(docs, ps[i], texts[i]);
    }
    PostingsReadBack(terms, docs, pos, ps[..n], texts[..n], 0);
    assert Triples(ps[..n], texts[..n]) + [] == Triples(ps[..n], texts[..n]);
  }

  lemma {:induction false} PostingsBytesSplit(ps: seq<Posting>, k: nat)
    requires k <= |ps|
    ensures PostingsBytes(ps) == PostingsBytes(ps[..k]) + PostingsBytes(ps[k..])
  {
    hide PostingBytes;
    if k == 0 {
      assert ps[..0] == [] && ps[0..] == ps;
    } else {
      PostingsBytesSplit(ps[1..], k - 1);
      assert ps[1..][..k - 1] == ps[..k][1..] && ps[1..][k - 1..] == ps[k..];
    }
  }

  /** At the first posting whose document is larger than INT_MAX the reader skips the offset only, and goes on
      reading in the middle of that posting. */
  lemma {:induction false} OversizeDerails(terms: seq<Byte>, docs: seq<Byte>, pos: nat, ps: seq<Posting>,
                                           texts: seq<seq<Byte>>, k: nat, extra: nat)
    requires StandsAt(terms, pos, PostingsBytes(ps)) && k < |ps| && AllReadable(docs, ps[..k], texts)
    requires ps[k].offset < WORD_LIMIT && ReadDocument(docs, ps[k].offset) == Ok(None)
    ensures ReadPostings(terms, docs, pos, |ps| + extra)
         == Prepend(Triples(ps[..k], texts),
                    ReadPostings(terms, docs, pos + |PostingsBytes(ps[..k])| + WORD, |ps| - k - 1 + extra))
  {
    hide Readable, ReadDocument, PostingsBytes, PostingBytes, Word, ReadWord, Triples, ReadPosting, Prepend,
      AllReadable;
    var at, p, left := pos + |PostingsBytes(ps[..k])|, ps[k], |ps| - k - 1 + extra;
    PostingsBytesSplit(ps, k);
    StandsSplit(terms, pos, PostingsBytes(ps[..k]), PostingsBytes(ps[k..]));
    PostingsReadBack(terms, docs, pos, ps[..k], texts, left + 1);
    OversizeStep(terms, docs, at, ps[k..], left);
  }

  /** The posting at `at` has no whole offset word, an offset with no whole size word in the documents file, or a
      document of at most INT_MAX bytes that runs past the end, or whose significancy is cut short. */
  ghost predicate FailsAt(terms: seq<Byte>, docs: seq<Byte>, at: nat) {
    || at + 8 > |terms|
    || var offset := Value(terms[at..at + 8]);
       || offset + 8 > |docs|
       || var size := Value(docs[offset..offset + 8]);
          && size <= 2147483647
          && (|| offset + 8 + size > |docs| || at + 16 > |terms|
              || at + 16 + Value(terms[at + 8..at + 16]) > |terms|)
  }

  /** Exactly these postings cannot be read. */
  lemma {:induction false} FailsIff(terms: seq<Byte>, docs: seq<Byte>, at: nat)
    ensures ReadPosting(terms, docs, at) == ReadError <==> FailsAt(terms, docs, at)
  {
    hide Value;
  }

  /** Behind readable postings one that fails makes every longer read an error. */
  lemma {:induction false} ShortReadFails(terms: seq<Byte>, docs: seq<Byte>, pos: nat, ps: seq<Posting>,
                                          texts: seq<seq<Byte>>, n: nat)
    requires StandsAt(terms, pos, PostingsBytes(ps)) && AllReadable(docs, ps, texts) && n > |ps|
    requires FailsAt(terms, docs, pos + |PostingsBytes(ps)|)
    ensures ReadPostings(terms, docs, pos, n) == ReadError
  {
    hide Readable, PostingsBytes, ReadPosting, Triples, FailsAt, Value;
    var at := pos + |PostingsBytes(ps)|;
    FailsIff(terms, docs, at);
    assert ReadPostings(terms, docs, at, n - |ps|) == ReadError;
    PostingsReadBack(terms, docs, pos, ps, texts, n - |ps|);
  }

  /** A record whose header is cut short cannot be read; otherwise reading goes on behind the header, as often as that
      counts. */
  lemma {:induction false} HeaderDecides(terms: seq<Byte>, docs: seq<Byte>, at: nat)
    ensures if at + 8 > |terms| || at + 16 + Value(terms[at..at + 8]) > |terms| then
        ReadRecord(terms, docs, at) == ReadError
      else
        var size := Value(terms[at..at + 8]);
        ReadRecord(terms, docs, at)
          == ReadPostings(terms, docs, at + 16 + size, Value(terms[at + 8 + size..at + 16 + size]))
  {
    hide Value, ReadPostings;
  }

  lemma {:induction false} OversizeStep(terms: seq<Byte>, docs: seq<Byte>, at: nat, ps: seq<Posting>, left: nat)
    requires ps != [] && StandsAt(terms, at, PostingsBytes(ps))
    requires ps[0].offset < WORD_LIMIT && ReadDocument(docs, ps[0].offset) == Ok(None)
    ensures ReadPostings(terms, docs, at, left + 1) == ReadPostings(terms, docs, at + WORD, left)
  {
    hide ReadDocument, Word, ReadWord;
    var p := ps[0];
    StandsSplit(terms, at, PostingBytes(p), PostingsBytes(ps[1..]));
    StandsSplit(terms, at, Word(p.offset), Word(|p.significancy|) + p.significancy);
    ReadWordBack(terms, at, p.offset);
    assert ReadPosting(terms, docs, at) == Ok(([], at + WORD));
    PrependNothing(ReadPostings(terms, docs, at + WORD, left));
  }

  lemma {:induction false} PrependNothing(r: Result<seq<Triple>>)
    ensures Prepend([], r) == r
  {
    assert r.Ok? ==> [] + r.value == r.value;
  }

  lemma {:induction false} PrependTwice(a: seq<Triple>, b: seq<Triple>, r: Result<seq<Triple>>)
    ensures Prepend(a, Prepend(b, r)) == Prepend(a + b, r)
  {
    assert r.Ok? ==> a + (b + r.value) == (a + b) + r.value;
  }

  lemma {:induction false} TriplesHead(docs: seq<Byte>, ps: seq<Posting>, texts: seq<seq<Byte>>)
    requires ps != [] && AllReadable(docs, ps, texts)
    ensures Readable(docs, ps[0], texts[0]) && AllReadable(docs, ps[1..], texts[1..])
    ensures Triples(ps, texts) == [Triple(ps[0].offset, texts[0], ps[0].significancy)] + Triples(ps[1..], texts[1..])
  {
  }

  lemma {:induction false} PostingReadsBack(terms: seq<Byte>, docs: seq<Byte>, pos: nat, p: Posting, text: seq<Byte>)
    requires StandsAt(terms, pos, PostingBytes(p)) && Readable(docs, p, text)
    ensures ReadPosting(terms, docs, pos)
         == Ok(([Triple(p.offset, text, p.significancy)], pos + |PostingBytes(p)|))
  {
    var size := |p.significancy|;
    StandsSplit(terms, pos, Word(p.offset), Word(size) + p.significancy);
    StandsSplit(terms, pos + WORD, Word(size), p.significancy);
    ReadWordBack(terms, pos, p.offset);
    ReadWordBack(terms, pos + WORD, size);
    ReadBack(terms, pos + 2 * WORD, p.significancy);
  }

  /** Later records stand further back. */
  lemma {:induction false} RecordStartsIncrease(records: seq<Record>, i: nat, j: nat)
    requires i < j <= |records|
    ensures RecordStart(records, i) < RecordStart(records, j)
    decreases j
  {
    hide PostingsBytes, RecordStart;
    RecordStands(records, j - 1);
    if i < j - 1 {
      RecordStartsIncrease(records, i, j - 1);
    }
  }

  /** What reading record `i` yields, if the documents of its postings are `texts`: as many postings as the header
      counts, and where it counts more, whatever the bytes behind the record read as. */
  ghost function Yield(records: seq<Record>, docs: seq<Byte>, i: nat, texts: seq<seq<Byte>>): Result<seq<Triple>>
    requires i < |records| && |texts| == |records[i].postings|
  {
    var r := records[i];
    if r.count <= |texts| then Ok(Triples(r.postings[..r.count], texts[..r.count]))
    else
      Prepend(Triples(r.postings, texts),
              ReadPostings(TermsFile(records), docs, RecordStart(records, i + 1), r.count - |texts|))
  }

  /** The records tile the file, and reading at the start of a record yields its postings in order, as far as the
      header counts, followed by what an excessive count finds behind the record. */
  lemma {:induction false} TermsReadBack(records: seq<Record>, docs: seq<Byte>, i: nat, texts: seq<seq<Byte>>)
    requires i < |records| && AllReadable(docs, records[i].postings, texts)
    requires records[i].count < WORD_LIMIT && |records[i].term| < WORD_LIMIT
    ensures RecordStart(records, 0) == 0 && RecordStart(records, |records|) == |TermsFile(records)|
    ensures RecordStart(records, i + 1) == RecordStart(records, i) + |RecordBytes(records[i])|
    ensures ReadRecord(TermsFile(records), docs, RecordStart(records, i)) == Yield(records, docs, i, texts)
  {
    hide ReadPosting, ReadRecord, PostingsBytes, HeaderBytes, TermsFile, RecordStart, RecordBytes, Triples, Readable;
    var r, file, at := records[i], TermsFile(records), RecordStart(records, i);
    RecordStands(records, i);
    HeaderReadsBack(file, docs, at, r);
    if r.count <= |texts| {
      FirstPostingsRead(file, docs, at + |HeaderBytes(r)|, r.postings, texts, r.count);
    } else {
      assert |r.postings| + (r.count - |texts|) == r.count;
      PostingsReadBack(file, docs, at + |HeaderBytes(r)|, r.postings, texts, r.count - |texts|);
    }
  }

  /** The bytes that postings take. */
  ghost function PostingsSize(ps: seq<Posting>): nat {
    if ps == [] then 0 else 16 + |ps[0].significancy| + PostingsSize(ps[1..])
  }

  lemma {:induction false} PostingsSizeIs(ps: seq<Posting>)
    ensures |PostingsBytes(ps)| == PostingsSize(ps)
  {
    if ps != [] {
      PostingsSizeIs(ps[1..]);
    }
  }

  /** What the terms file holds at a record: the size of the term, the term, the count, and for every posting its
      offset, the size of its significancy, and the significancy. */
  lemma {:induction false} RecordLayout(records: seq<Record>, i: nat)
    requires i < |records|
    ensures var r, file, at := records[i], TermsFile(records), RecordStart(records, i);
      && StandsAt(file, at, Word(|r.term|)) && StandsAt(file, at + 8, r.term)
      && StandsAt(file, at + 8 + |r.term|, Word(r.count))
      && RecordStart(records, i + 1) == at + 16 + |r.term| + PostingsSize(r.postings)
      && forall k :: 0 <= k < |r.postings| ==>
        PostingStands(file, at + 16 + |r.term| + PostingsSize(r.postings[..k]), r.postings[k])
  {
    hide Word, PostingsBytes, TermsFile, RecordStart;
    var r, file, at := records[i], TermsFile(records), RecordStart(records, i);
    RecordStands(records, i);
    StandsSplit(file, at, Word(|r.term|), r.term + Word(r.count));
    StandsSplit(file, at + 8, r.term, Word(r.count));
    PostingsSizeIs(r.postings);
    forall k | 0 <= k < |r.postings|
      ensures PostingStands(file, at + 16 + |r.term| + PostingsSize(r.postings[..k]), r.postings[k])
    {
      PostingLayout(file, at + 16 + |r.term|, r.postings, k);
    }
  }

  ghost predicate PostingStands(file: seq<Byte>, at: nat, p: Posting) {
    && StandsAt(file, at, Word(p.offset)) && StandsAt(file, at + 8, Word(|p.significancy|))
    && StandsAt(file, at + 16, p.significancy)
  }

  lemma {:induction false} PostingLayout(file: seq<Byte>, pos: nat, ps: seq<Posting>, k: nat)
    requires StandsAt(file, pos, PostingsBytes(ps)) && k < |ps|
    ensures PostingStands(file, pos + PostingsSize(ps[..k]), ps[k])
  {
    hide Word, StandsAt;
    var p, at := ps[k], pos + PostingsSize(ps[..k]);
    PostingsBytesSplit(ps, k);
    PostingsSizeIs(ps[..k]);
    StandsSplit(file, pos, PostingsBytes(ps[..k]), PostingsBytes(ps[k..]));
    assert ps[k..][0] == p;
    StandsSplit(file, at, PostingBytes(p), PostingsBytes(ps[k..][1..]));
    StandsSplit(file, at, Word(p.offset), Word(|p.significancy|) + p.significancy);
    StandsSplit(file, at + 8, Word(|p.significancy|), p.significancy);
  }

  /** A record of which the header counts more than the first `k` postings, and posting `k` fails, cannot be read. */
  lemma {:induction false} RecordFails(records: seq<Record>, docs: seq<Byte>, i: nat, k: nat, texts: seq<seq<Byte>>)
    requires i < |records| && k <= |records[i].postings| && k < records[i].count < WORD_LIMIT
    requires |records[i].term| < WORD_LIMIT && AllReadable(docs, records[i].postings[..k], texts)
    requires var r := records[i];
      FailsAt(TermsFile(records), docs, RecordStart(records, i) + 16 + |r.term| + PostingsSize(r.postings[..k]))
    ensures ReadRecord(TermsFile(records), docs, RecordStart(records, i)) == ReadError
  {
    hide Readable, PostingsBytes, ReadPostings, ReadRecord, FailsAt, Value, TermsFile, RecordStart, StandsAt, Word;
    var r, file, at := records[i], TermsFile(records), RecordStart(records, i);
    RecordStands(records, i);
    HeaderReadsBack(file, docs, at, r);
    var first := r.postings[..k];
    PostingsBytesSplit(r.postings, k);
    PostingsSizeIs(first);
    StandsSplit(file, at + |HeaderBytes(r)|, PostingsBytes(first), PostingsBytes(r.postings[k..]));
    ShortReadFails(file, docs, at + |HeaderBytes(r)|, first, texts, r.count);
  }

  /** Header and postings stand at the start of the record, and the next record stands behind them. */
  lemma {:induction false} RecordStands(records: seq<Record>, i: nat)
    requires i < |records|
    ensures RecordStart(records, 0) == 0 && RecordStart(records, |records|) == |TermsFile(records)|
    ensures var r, file, at := records[i], TermsFile(records), RecordStart(records, i);
      && StandsAt(file, at, HeaderBytes(r)) && StandsAt(file, at + |HeaderBytes(r)|, PostingsBytes(r.postings))
      && RecordStart(records, i + 1) == at + |RecordBytes(r)|
      && |RecordBytes(r)| == |HeaderBytes(r)| + |PostingsBytes(r.postings)|
  {
    hide HeaderBytes, PostingsBytes;
    var r := records[i];
    PiecesTile(RecordPieces(records), i);
    StandsSplit(TermsFile(records), RecordStart(records, i), HeaderBytes(r), PostingsBytes(r.postings));
  }

  lemma {:induction false} HeaderReadsBack(terms: seq<Byte>, docs: seq<Byte>, at: nat, r: Record)
    requires StandsAt(terms, at, HeaderBytes(r)) && r.count < WORD_LIMIT && |r.term| < WORD_LIMIT
    ensures ReadRecord(terms, docs, at) == ReadPostings(terms, docs, at + |HeaderBytes(r)|, r.count)
  {
    StandsSplit(terms, at, Word(|r.term|), r.term + Word(r.count));
    StandsSplit(terms, at + WORD, r.term, Word(r.count));
    ReadWordBack(terms, at, |r.term|);
    ReadBack(terms, at + WORD, r.term);
    ReadWordBack(terms, at + WORD + |r.term|, r.count);
  }

  /** With an exact header count the reader returns exactly the written triples. */
  lemma {:induction false} ExactHeaderReadsBack(records: seq<Record>, docs: seq<Byte>, i: nat, texts: seq<seq<Byte>>)
    requires i < |records| && AllReadable(docs, records[i].postings, texts)
    requires records[i].count == |records[i].postings| < WORD_LIMIT && |records[i].term| < WORD_LIMIT
    ensures ReadRecord(TermsFile(records), docs, RecordStart(records, i)) == Ok(Triples(records[i].postings, texts))
  {
    TermsReadBack(records, docs, i, texts);
    var ps := records[i].postings;
    assert ps[..|ps|] == ps && texts[..|ps|] == texts;
  }

  /** The last record can be read if and only if its header does not count more postings than it has. */
  lemma {:induction false} LastRecordOverread(records: seq<Record>, docs: seq<Byte>, texts: seq<seq<Byte>>)
    requires records != [] && AllReadable(docs, records[|records|-1].postings, texts)
    requires records[|records|-1].count < WORD_LIMIT && |records[|records|-1].term| < WORD_LIMIT
    ensures ReadRecord(TermsFile(records), docs, RecordStart(records, |records| - 1)).Ok?
        <==> records[|records|-1].count <= |records[|records|-1].postings|
  {
    TermsReadBack(records, docs, |records| - 1, texts);
  }
}
