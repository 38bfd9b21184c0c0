/** Saving the term offsets to a file and loading them into a fresh dictionary. */
module OffsetsFormat {
  import opened Keys
  import opened TrieSpec
  import opened Wrappers
  import opened Codec

  /** What the term offset dictionary stores under a term: offsets and the term itself. */
  datatype Cell = OffsetCell(offset: nat) | TermCell(term: Key)

  type Offsets = map<Key, seq<Cell>>

  datatype Entry = Entry(term: Key, offset: nat)

  // ---------- the file ----------

  function EntryBytes(e: Entry): seq<Byte> {
    Word(|e.term|) + (e.term + Word(e.offset))
  }

  ghost function EntriesBytes(es: seq<Entry>): seq<Byte> {
    if es == [] then [] else EntryBytes(es[0]) + EntriesBytes(es[1..])
  }

  ghost function OffsetsFile(termsSize: nat, documentsSize: nat, es: seq<Entry>): seq<Byte> {
    Word(termsSize) + (Word(documentsSize) + EntriesBytes(es))
  }

  /** One entry and the position after it; `None` where a read falls short. */
  function ReadEntry(file: seq<Byte>, pos: nat): (r: Option<(Entry, nat)>)
    ensures r.Some? ==> pos < r.value.1 <= |file|
  {
    match ReadWord(file, pos)
    case None => None
    case Some(size) =>
      match Read(file, pos + WORD, size)
      case None => None
      case Some(term) =>
        match ReadWord(file, pos + WORD + size)
        case None => None
        case Some(offset) => Some((Entry(term, offset), pos + 2 * WORD + size))
  }

  /** Entries up to the first read that falls short. */
  function ReadEntries(file: seq<Byte>, pos: nat): seq<Entry>
    decreases if pos <= |file| then |file| - pos else 0
  {
    match ReadEntry(file, pos)
    case None => []
    case Some((e, next)) => [e] + ReadEntries(file, next)
  }

  lemma {:induction false} EntriesStep(file: seq<Byte>, pos: nat)
    ensures ReadEntry(file, pos) == None ==> ReadEntries(file, pos) == []
    ensures ReadEntry(file, pos).Some? ==>
        ReadEntries(file, pos) == [ReadEntry(file, pos).value.0] + ReadEntries(file, ReadEntry(file, pos).value.1)
  {
  }

  ghost predicate Fits(e: Entry) {
    |e.term| < WORD_LIMIT && e.offset < WORD_LIMIT
  }

  lemma {:induction false} EntryReadsBack(file: seq<Byte>, pos: nat, e: Entry)
    requires StandsAt(file, pos, EntryBytes(e)) && Fits(e)
    ensures ReadEntry(file, pos) == Some((e, pos + |EntryBytes(e)|))
  {
    StandsSplit(file, pos, Word(|e.term|), e.term + Word(e.offset));
    StandsSplit(file, pos + WORD, e.term, Word(e.offset));
    ReadWordBack(file, pos, |e.term|);
    ReadBack(file, pos + WORD, e.term);
    ReadWordBack(file, pos + WORD + |e.term|, e.offset);
  }

  /** Entries are read up to the first that is cut short. */
  lemma {:induction false} ReadUpTo(file: seq<Byte>, pos: nat, es: seq<Entry>)
    requires StandsAt(file, pos, EntriesBytes(es)) && ReadEntry(file, pos + |EntriesBytes(es)|) == None
    requires forall i {:trigger Fits(es[i])} :: 0 <= i < |es| ==> Fits(es[i])
    ensures ReadEntries(file, pos) == es
    decreases |es|
  {
    hide ReadEntry, EntryBytes;
    if es == [] {
      EntriesStep(file, pos);
    } else {
      assert Fits(es[0]);
      StandsSplit(file, pos, EntryBytes(es[0]), EntriesBytes(es[1..]));
      EntryReadsBack(file, pos, es[0]);
      assert forall i :: 0 <= i < |es| - 1 ==> es[1..][i] == es[i + 1];
      forall i | 0 <= i < |es| - 1
        ensures Fits(es[1..][i])
      {
        assert Fits(es[i + 1]);
      }
      ReadUpTo(file, pos + |EntryBytes(es[0])|, es[1..]);
    }
  }

  lemma {:induction false} NothingLeft(file: seq<Byte>, pos: nat)
    requires pos == |file|
    ensures ReadEntry(file, pos) == None
  {
  }

  /** A saved file reads back as the two sizes and the entries. */
  lemma {:induction false} OffsetsFileReadsBack(termsSize: nat, documentsSize: nat, es: seq<Entry>)
    requires termsSize < WORD_LIMIT && documentsSize < WORD_LIMIT
    requires forall i {:trigger Fits(es[i])} :: 0 <= i < |es| ==> Fits(es[i])
    ensures var file := OffsetsFile(termsSize, documentsSize, es);
      && ReadWord(file, 0) == Some(termsSize) && ReadWord(file, WORD) == Some(documentsSize)
      && ReadEntries(file, 2 * WORD) == es
  {
    hide Word, ReadWord, ReadEntries;
    var file := OffsetsFile(termsSize, documentsSize, es);
    assert StandsAt(file, 0, file);
    StandsSplit(file, 0, Word(termsSize), Word(documentsSize) + EntriesBytes(es));
    StandsSplit(file, WORD, Word(documentsSize), EntriesBytes(es));
    ReadWordBack(file, 0, termsSize);
    ReadWordBack(file, WORD, documentsSize);
    NothingLeft(file, |file|);
    ReadUpTo(file, 2 * WORD, es);
  }

  /** The bytes that entries take. */
  ghost function EntriesSize(es: seq<Entry>): nat {
    if es == [] then 0 else 16 + |es[0].term| + EntriesSize(es[1..])
  }

  lemma {:induction false} EntriesSizeIs(es: seq<Entry>)
    ensures |EntriesBytes(es)| == EntriesSize(es)
  {
    if es != [] {
      EntriesSizeIs(es[1..]);
    }
  }

  lemma {:induction false} EntriesBytesSplit(es: seq<Entry>, k: nat)
    requires k <= |es|
    ensures EntriesBytes(es) == EntriesBytes(es[..k]) + EntriesBytes(es[k..])
  {
    hide EntryBytes;
    if k == 0 {
      assert es[..0] == [] && es[0..] == es;
    } else {
      EntriesBytesSplit(es[1..], k - 1);
      assert es[1..][..k - 1] == es[..k][1..] && es[1..][k - 1..] == es[k..];
    }
  }

  ghost predicate EntryStands(file: seq<Byte>, at: nat, e: Entry) {
    && StandsAt(file, at, Word(|e.term|)) && StandsAt(file, at + 8, e.term)
    && StandsAt(file, at + 8 + |e.term|, Word(e.offset))
  }

  /** What an offsets file holds: the two sizes, and for every entry the size of the term, the term, and the offset. */
  lemma {:induction false} OffsetsLayout(termsSize: nat, documentsSize: nat, es: seq<Entry>)
    ensures var file := OffsetsFile(termsSize, documentsSize, es);
      && StandsAt(file, 0, Word(termsSize)) && StandsAt(file, 8, Word(documentsSize))
      && |file| == 16 + EntriesSize(es)
      && forall k :: 0 <= k < |es| ==> EntryStands(file, 16 + EntriesSize(es[..k]), es[k])
  {
    hide Word, EntriesBytes, EntryStands;
    var file := OffsetsFile(termsSize, documentsSize, es);
    assert StandsAt(file, 0, file);
    StandsSplit(file, 0, Word(termsSize), Word(documentsSize) + EntriesBytes(es));
    StandsSplit(file, 8, Word(documentsSize), EntriesBytes(es));
    EntriesSizeIs(es);
    forall k | 0 <= k < |es|
      ensures EntryStands(file, 16 + EntriesSize(es[..k]), es[k])
    {
      EntryLayout(file, 16, es, k);
    }
  }

  lemma {:induction false} EntryLayout(file: seq<Byte>, pos: nat, es: seq<Entry>, k: nat)
    requires StandsAt(file, pos, EntriesBytes(es)) && k < |es|
    ensures EntryStands(file, pos + EntriesSize(es[..k]), es[k])
  {
    hide Word, StandsAt;
    var e, at := es[k], pos + EntriesSize(es[..k]);
    EntriesBytesSplit(es, k);
    EntriesSizeIs(es[..k]);
    StandsSplit(file, pos, EntriesBytes(es[..k]), EntriesBytes(es[k..]));
    assert es[k..][0] == e;
    StandsSplit(file, at, EntryBytes(e), EntriesBytes(es[k..][1..]));
    StandsSplit(file, at, Word(|e.term|), e.term + Word(e.offset));
    StandsSplit(file, at + 8, e.term, Word(e.offset));
  }

  /** A file cut inside entry `k`, or just before it, yields the entries before. */
  lemma {:induction false} CutFile(termsSize: nat, documentsSize: nat, es: seq<Entry>, k: nat, size: nat)
    requires k < |es| && forall i {:trigger Fits(es[i])} :: 0 <= i <= k ==> Fits(es[i])
    requires 16 + EntriesSize(es[..k]) <= size < 16 + EntriesSize(es[..k]) + 16 + |es[k].term|
    ensures size <= |OffsetsFile(termsSize, documentsSize, es)|
    ensures ReadEntries(OffsetsFile(termsSize, documentsSize, es)[..size], 2 * WORD) == es[..k]
  {
    hide Word, EntriesBytes, ReadEntries, ReadEntry, OffsetsFile, EntriesSize;
    var file := OffsetsFile(termsSize, documentsSize, es);
    OffsetsLayout(termsSize, documentsSize, es);
    assert EntryStands(file, 16 + EntriesSize(es[..k]), es[k]);
    assert Fits(es[k]);
    NoWholeEntry(file, 16 + EntriesSize(es[..k]), es[k], size);
    FirstEntries(termsSize, documentsSize, es, k, size);
  }

  /** Of an entry that is cut short nothing is read. */
  lemma {:induction false} NoWholeEntry(file: seq<Byte>, at: nat, e: Entry, size: nat)
    requires EntryStands(file, at, e) && Fits(e) && at <= size < at + 16 + |e.term| && size <= |file|
    ensures ReadEntry(file[..size], at) == None
  {
    hide Word;
    if at + 8 <= size {
      assert file[..size][at..at + 8] == file[at..at + 8] == Word(|e.term|);
      ReadWordBack(file[..size], at, |e.term|);
    }
  }

  lemma {:induction false} FirstEntries(termsSize: nat, documentsSize: nat, es: seq<Entry>, k: nat, size: nat)
    requires k <= |es| && forall i {:trigger Fits(es[i])} :: 0 <= i < k ==> Fits(es[i])
    requires 16 + EntriesSize(es[..k]) <= size <= |OffsetsFile(termsSize, documentsSize, es)|
    requires ReadEntry(OffsetsFile(termsSize, documentsSize, es)[..size], 16 + EntriesSize(es[..k])) == None
    ensures ReadEntries(OffsetsFile(termsSize, documentsSize, es)[..size], 2 * WORD) == es[..k]
  {
    hide Word, ReadEntries, ReadEntry;
    var file := OffsetsFile(termsSize, documentsSize, es);
    assert StandsAt(file, 0, file);
    StandsSplit(file, 0, Word(termsSize), Word(documentsSize) + EntriesBytes(es));
    StandsSplit(file, 8, Word(documentsSize), EntriesBytes(es));
    EntriesBytesSplit(es, k);
    EntriesSizeIs(es[..k]);
    StandsSplit(file, 16, EntriesBytes(es[..k]), EntriesBytes(es[k..]));
    StandsInCut(file, 16, EntriesBytes(es[..k]), size);
    forall i | 0 <= i < k
      ensures Fits(es[..k][i])
    {
      assert Fits(es[i]);
    }
    ReadUpTo(file[..size], 16, es[..k]);
  }

  lemma {:induction false} StandsInCut(file: seq<Byte>, pos: nat, part: seq<Byte>, size: nat)
    requires StandsAt(file, pos, part) && pos + |part| <= size <= |file|
    ensures StandsAt(file[..size], pos, part)
  {
    assert file[..size][pos..pos + |part|] == file[pos..pos + |part|];
  }

  // ---------- loading ----------

  /** The cells that an entry puts into a list. */
  ghost function Cells(e: Entry): seq<Cell> {
    [OffsetCell(e.offset), TermCell(e.term)]
  }

  /** Loading an entry appends its offset and its term under the term. */
  ghost function LoadEntry(m: Offsets, e: Entry): Offsets {
    AppendSpec(AppendSpec(m, e.term, OffsetCell(e.offset)), e.term, TermCell(e.term))
  }

  ghost function LoadOnto(m: Offsets, es: seq<Entry>): Offsets {
    if es == [] then m else LoadEntry(LoadOnto(m, es[..|es|-1]), es[|es|-1])
  }

  lemma {:induction false} LoadOneMore(m: Offsets, es: seq<Entry>, e: Entry)
    ensures LoadOnto(m, es + [e]) == LoadEntry(LoadOnto(m, es), e)
  {
    assert (es + [e])[..|es|] == es;
  }

  lemma {:induction false} LoadNothing(m: Offsets)
    ensures LoadOnto(m, []) == m
  {
  }

  /** What a fresh dictionary holds after loading `es`. */
  ghost function Load(es: seq<Entry>): Offsets {
    LoadOnto(map[], es)
  }

  /** Offset and term land together, whatever they clash with. */
  lemma {:induction false} LoadEntryAt(m: Offsets, e: Entry)
    ensures var t := Landing(m.Keys, e.term, []); LoadEntry(m, e) == m[t := ListAt(m, t) + Cells(e)]
  {
    hide Landing;
    AppendMore(m, e.term, [], OffsetCell(e.offset));
    AppendMore(m, e.term, [OffsetCell(e.offset)], TermCell(e.term));
    assert [OffsetCell(e.offset)] + [TermCell(e.term)] == Cells(e);
  }

  ghost function Terms(es: seq<Entry>): seq<Key> {
    seq(|es|, i requires 0 <= i < |es| => es[i].term)
  }

  ghost predicate Distinct(ks: seq<Key>) {
    forall i, j :: 0 <= i < j < |ks| ==> ks[i] != ks[j]
  }

  ghost predicate Different(es: seq<Entry>) {
    forall i, j :: 0 <= i < j < |es| ==> es[i] != es[j]
  }

  /** `m` holds the entries and nothing else, each under its key. */
  ghost predicate Holds(m: Offsets, ks: seq<Key>, es: seq<Entry>) {
    && |ks| == |es| && m.Keys == Elements(ks)
    && forall i {:trigger ks[i]} :: 0 <= i < |ks| ==> ks[i] in m && m[ks[i]] == Cells(es[i])
  }

  /** Entry `i` lands at key `i` once the keys before it are stored. */
  ghost predicate LandsAt(ks: seq<Key>, es: seq<Entry>, i: nat)
    requires i < |ks| == |es|
  {
    Landing(Elements(ks[..i]), es[i].term, []) == ks[i]
  }

  ghost predicate AllLand(ks: seq<Key>, es: seq<Entry>, n: nat)
    requires n <= |ks| == |es|
  {
    forall i {:trigger LandsAt(ks, es, i)} :: 0 <= i < n ==> LandsAt(ks, es, i)
  }

  /** Entries that land at their keys are held under them. */
  lemma {:induction false} LandingLoads(ks: seq<Key>, es: seq<Entry>, n: nat)
    requires n <= |ks| == |es| && Distinct(ks) && AllLand(ks, es, n)
    ensures Holds(Load(es[..n]), ks[..n], es[..n])
  {
    hide LoadEntry, Distinct, Landing, Holds;
    if n == 0 {
      NothingHeld();
      assert es[..n] == [] && ks[..n] == [];
    } else {
      LandingLoads(ks, es, n - 1);
      var m, e := Load(es[..n-1]), es[n-1];
      assert es[..n] == es[..n-1] + [e] && LandsAt(ks, es, n - 1);
      LoadOneMore(map[], es[..n-1], e);
      LoadEntryAt(m, e);
      HoldsMore(m, ks, es, n - 1);
    }
  }

  lemma {:induction false} NothingHeld()
    ensures Holds(Load([]), [], [])
  {
  }

  lemma {:induction false} HoldsMore(m: Offsets, ks: seq<Key>, es: seq<Entry>, n: nat)
    requires n < |ks| == |es| && Distinct(ks) && Holds(m, ks[..n], es[..n])
    ensures m.Keys == Elements(ks[..n]) && ks[n] !in m
    ensures Holds(m[ks[n] := ListAt(m, ks[n]) + Cells(es[n])], ks[..n+1], es[..n+1])
  {
    assert ks[..n+1] == ks[..n] + [ks[n]];
    assert [] + Cells(es[n]) == Cells(es[n]);
  }

  /** Lists only grow while entries are loaded. */
  ghost predicate Grows(m: Offsets, m': Offsets) {
    forall k :: k in m ==> k in m' && m[k] <= m'[k]
  }

  lemma {:induction false} LoadGrows(es: seq<Entry>, n: nat)
    requires n <= |es|
    ensures Grows(Load(es[..n]), Load(es))
    decreases |es|
  {
    hide LoadEntry, Landing;
    if n < |es| {
      var rest, last := es[..|es|-1], es[|es|-1];
      LoadGrows(rest, n);
      assert rest[..n] == es[..n];
      LoadEntryAt(Load(rest), last);
    } else {
      assert es[..n] == es;
    }
  }

  /** Every list holds one entry, and that tells the key. */
  ghost predicate Tells(m: Offsets, ks: seq<Key>, es: seq<Entry>)
    requires |ks| == |es|
  {
    forall k :: k in m ==> |m[k]| == 2 && forall i :: 0 <= i < |es| && m[k] == Cells(es[i]) ==> k == ks[i]
  }

  /** If the loaded lists tell the keys, the entries have landed there. */
  lemma {:induction false} LoadedLands(ks: seq<Key>, es: seq<Entry>, n: nat)
    requires n <= |ks| == |es| && Distinct(ks) && Tells(Load(es), ks, es)
    ensures AllLand(ks, es, n)
  {
    hide Load, Distinct, LandsAt, Tells, Holds;
    if n > 0 {
      LoadedLands(ks, es, n - 1);
      LandingLoads(ks, es, n - 1);
      LastLands(ks, es, n - 1);
    }
  }

  lemma {:induction false} LastLands(ks: seq<Key>, es: seq<Entry>, n: nat)
    requires n < |ks| == |es| && Distinct(ks) && Holds(Load(es[..n]), ks[..n], es[..n]) && Tells(Load(es), ks, es)
    ensures LandsAt(ks, es, n)
  {
    hide LoadEntry, LoadOnto, Landing, Distinct;
    var m, e := Load(es[..n]), es[n];
    var t := Landing(m.Keys, e.term, []);
    assert es[..n+1] == es[..n] + [e];
    LoadOneMore(map[], es[..n], e);
    LoadEntryAt(m, e);
    LoadGrows(es, n + 1);
    assert ListAt(m, t) + Cells(e) <= Load(es)[t] && |Load(es)[t]| == 2;
    assert ListAt(m, t) == [] && Load(es)[t] == Cells(e);
  }

  /** Different entries are held under the given keys after loading if and only if each lands at its key. */
  lemma {:induction false} LoadHoldsIff(ks: seq<Key>, es: seq<Entry>)
    requires |ks| == |es| && Distinct(ks) && Different(es)
    ensures Holds(Load(es), ks, es) <==> AllLand(ks, es, |es|)
  {
    hide Load, LandsAt;
    assert es[..|es|] == es && ks[..|es|] == ks;
    if Holds(Load(es), ks, es) {
      LoadedLands(ks, es, |es|);
    }
    if AllLand(ks, es, |es|) {
      LandingLoads(ks, es, |es|);
    }
  }

  /** Every entry is held under its own term. */
  ghost predicate Restored(m: Offsets, es: seq<Entry>) {
    Holds(m, Terms(es), es)
  }

  /** Term `i` is loaded without meeting an edge that differs from it in case. */
  ghost predicate SafeAt(terms: seq<Key>, i: nat)
    requires i < |terms|
  {
    !CaseClash(Elements(terms[..i]), terms[i])
  }

  ghost predicate LoadSafe(terms: seq<Key>) {
    forall i {:trigger SafeAt(terms, i)} :: 0 <= i < |terms| ==> SafeAt(terms, i)
  }

  /** Entries land at their own terms exactly if no term clashes. */
  lemma {:induction false} SafeLands(es: seq<Entry>)
    ensures AllLand(Terms(es), es, |es|) <==> LoadSafe(Terms(es))
  {
    hide CaseClash, Landing;
    forall i | 0 <= i < |es|
      ensures LandsAt(Terms(es), es, i) <==> SafeAt(Terms(es), i)
    {
      LandingExact(Elements(Terms(es)[..i]), es[i].term);
    }
  }

  /** Loading different entries restores each under its own term if and only if their terms are distinct and none
      meets a clash on the way in. */
  lemma {:induction false} LoadRestoresIff(es: seq<Entry>)
    requires Different(es)
    ensures Restored(Load(es), es) <==> Distinct(Terms(es)) && LoadSafe(Terms(es))
  {
    hide Load, LandsAt, LoadSafe;
    if Restored(Load(es), es) {
      forall i, j | 0 <= i < j < |es|
        ensures Terms(es)[i] != Terms(es)[j]
      {
        assert Load(es)[Terms(es)[i]] == Cells(es[i]) && Load(es)[Terms(es)[j]] == Cells(es[j]);
      }
    }
    if Distinct(Terms(es)) {
      LoadHoldsIff(Terms(es), es);
      SafeLands(es);
    }
  }

  // ---------- saving ----------

  /** Every list starts with an offset and a term. */
  ghost predicate Celled(m: Offsets) {
    forall k :: k in m ==> |m[k]| >= 2 && m[k][0].OffsetCell? && m[k][1].TermCell?
  }

  /** Loading or noting an entry keeps that. */
  lemma {:induction false} LoadEntryCelled(m: Offsets, e: Entry)
    requires Celled(m)
    ensures Celled(LoadEntry(m, e))
    ensures ValidNames(m) && ValidKey(e.term) ==> ValidNames(LoadEntry(m, e))
  {
    hide Landing, ValidKey, LoadEntry;
    LoadEntryAt(m, e);
  }

  /** The terms that the lists name are keys. */
  ghost predicate ValidNames(m: Offsets)
    requires Celled(m)
  {
    forall k :: k in m ==> ValidKey(m[k][1].term)
  }

  lemma {:induction false} LoadOntoCelled(m: Offsets, es: seq<Entry>)
    requires Celled(m)
    ensures Celled(LoadOnto(m, es))
  {
    hide LoadEntry;
    if es != [] {
      LoadOntoCelled(m, es[..|es|-1]);
      LoadEntryCelled(LoadOnto(m, es[..|es|-1]), es[|es|-1]);
    }
  }

  ghost function EntryOf(list: seq<Cell>): Entry
    requires |list| >= 2 && list[0].OffsetCell? && list[1].TermCell?
  {
    Entry(list[1].term, list[0].offset)
  }

  ghost function EntriesFor(m: Offsets, ks: seq<Key>): (es: seq<Entry>)
    requires Celled(m) && forall i :: 0 <= i < |ks| ==> ks[i] in m
    ensures |es| == |ks|
  {
    seq(|ks|, i requires 0 <= i < |ks| => EntryOf(m[ks[i]]))
  }

  /** What saving writes: the entries of all non-empty keys in sorted order. */
  ghost function SavedEntries(m: Offsets): seq<Entry>
    requires Celled(m)
  {
    EntriesFor(m, SavedKeys(m))
  }

  ghost function SavedKeys(m: Offsets): (ks: seq<Key>)
    ensures forall i :: 0 <= i < |ks| ==> ks[i] in m
  {
    var ks := Enumerate(m.Keys - {[]});
    assert forall i :: 0 <= i < |ks| ==> ks[i] in Elements(ks);
    ks
  }

  /** Each list names the key it is stored under. */
  ghost predicate NamesItself(m: Offsets)
    requires Celled(m)
  {
    forall k :: k in m ==> m[k][1] == TermCell(k)
  }

  /** Everything but the first offset and the term dropped from the lists. */
  ghost function FirstCells(m: Offsets): Offsets
    requires Celled(m)
  {
    map k | k in m :: m[k][..2]
  }

  lemma {:induction false} EntriesBytesSnoc(es: seq<Entry>, e: Entry)
    ensures EntriesBytes(es + [e]) == EntriesBytes(es) + EntryBytes(e)
  {
    hide EntryBytes;
    if es == [] {
      assert EntriesBytes([e][1..]) == [];
    } else {
      assert (es + [e])[1..] == es[1..] + [e];
      EntriesBytesSnoc(es[1..], e);
    }
  }

  lemma {:induction false} NothingSaved(m: Offsets)
    requires Celled(m)
    ensures EntriesBytes(EntriesFor(m, Select([], m.Keys))) == []
  {
  }

  /** Saving visits one more node. */
  lemma {:induction false} SaveStep(m: Offsets, ks: seq<Key>, i: nat)
    requires Celled(m) && i < |ks|
    ensures EntriesBytes(EntriesFor(m, Select(ks[..i+1], m.Keys)))
         == EntriesBytes(EntriesFor(m, Select(ks[..i], m.Keys)))
            + if ks[i] in m then EntryBytes(EntryOf(m[ks[i]])) else []
  {
    var before, after := Select(ks[..i], m.Keys), Select(ks[..i+1], m.Keys);
    assert ks[..i+1][..i] == ks[..i];
    if ks[i] in m {
      assert after == before + [ks[i]];
      assert EntriesFor(m, after) == EntriesFor(m, before) + [EntryOf(m[ks[i]])];
      EntriesBytesSnoc(EntriesFor(m, before), EntryOf(m[ks[i]]));
    } else {
      assert after == before;
      assert EntriesBytes(EntriesFor(m, before)) + [] == EntriesBytes(EntriesFor(m, before));
    }
  }

  lemma {:induction false} SortedDistinct(ks: seq<Key>)
    requires Sorted(ks)
    ensures Distinct(ks)
  {
  }

  /** Different lists start with different entries. */
  ghost predicate DistinctEntries(m: Offsets)
    requires Celled(m)
  {
    forall k, l :: k in m && l in m && k != l ==> EntryOf(m[k]) != EntryOf(m[l])
  }

  /** Every list starts with one of the entries, whose term is its key up to letter case, no two with the same. */
  ghost predicate Starts(m: Offsets, es: seq<Entry>) {
    && Celled(m) && DistinctEntries(m)
    && forall k :: k in m ==> EntryOf(m[k]) in es && SameUpToCase(k, EntryOf(m[k]).term)
  }

  /** That holds after loading different entries, whatever clashes. */
  lemma {:induction false} LoadStarts(es: seq<Entry>)
    requires Different(es)
    ensures Starts(Load(es), es)
  {
    hide LoadEntry, Landing, Starts;
    if es == [] {
      NothingStarts();
    } else {
      var rest, e := es[..|es|-1], es[|es|-1];
      LoadStarts(rest);
      LoadEntryAt(Load(rest), e);
      LandingUpToCase(Load(rest).Keys, e.term);
      assert rest + [e] == es;
      StartsMore(Load(rest), rest, e, Landing(Load(rest).Keys, e.term, []));
    }
  }

  lemma {:induction false} NothingStarts()
    ensures Starts(map[], [])
  {
  }

  lemma {:induction false} StartsMore(m: Offsets, es: seq<Entry>, e: Entry, t: Key)
    requires Starts(m, es) && e !in es && SameUpToCase(t, e.term)
    ensures Starts(m[t := ListAt(m, t) + Cells(e)], es + [e])
  {
    hide SameUpToCase;
    var m': Offsets := m[t := ListAt(m, t) + Cells(e)];
    forall k | k in m'
      ensures |m'[k]| >= 2 && m'[k][0].OffsetCell? && m'[k][1].TermCell?
      ensures EntryOf(m'[k]) == if k in m then EntryOf(m[k]) else e
    {
    }
  }

  /** Saved keys and entries belong together. */
  lemma {:induction false} SavedTogether(m: Offsets)
    requires Celled(m)
    ensures var ks, es := SavedKeys(m), SavedEntries(m);
      && |ks| == |es| && Distinct(ks) && Elements(ks) == m.Keys - {[]}
      && forall i :: 0 <= i < |es| ==> ks[i] in m && es[i] == EntryOf(m[ks[i]])
  {
  }

  lemma {:induction false} FirstTwo(m: Offsets, k: Key)
    requires Celled(m) && k in m
    ensures k in FirstCells(m) && FirstCells(m)[k] == Cells(EntryOf(m[k]))
  {
  }

  /** Every saved entry lands at the key it was saved from, once the keys before it are stored. */
  ghost predicate LandsBack(m: Offsets)
    requires Celled(m)
  {
    SavedTogether(m);
    AllLand(SavedKeys(m), SavedEntries(m), |SavedKeys(m)|)
  }

  /** Saving and loading into a fresh dictionary gives every list its first cells back exactly when each saved entry
      lands where it was saved from; the list under the empty key, which is not saved, must not exist. */
  lemma {:induction false} SaveLoadIff(m: Offsets)
    requires Celled(m) && DistinctEntries(m)
    ensures Load(SavedEntries(m)) == FirstCells(m) <==> [] !in m && LandsBack(m)
  {
    hide Load, SavedEntries, SavedKeys, LandsAt, EntryOf, FirstCells;
    var ks, es := SavedKeys(m), SavedEntries(m);
    SavedTogether(m);
    if Load(es) == FirstCells(m) {
      FirstCellsTell(m);
      LoadedLands(ks, es, |es|);
    }
    if LandsBack(m) {
      LandingLoads(ks, es, |es|);
      assert es[..|es|] == es && ks[..|es|] == ks;
      HeldIsFirstCells(m, Load(es));
    }
  }

  lemma {:induction false} FirstCellsTell(m: Offsets)
    requires Celled(m) && DistinctEntries(m)
    ensures |SavedKeys(m)| == |SavedEntries(m)| && Tells(FirstCells(m), SavedKeys(m), SavedEntries(m))
  {
    hide SavedEntries, SavedKeys, EntryOf;
    var ks, es := SavedKeys(m), SavedEntries(m);
    SavedTogether(m);
    forall k | k in FirstCells(m)
      ensures |FirstCells(m)[k]| == 2
      ensures forall i :: 0 <= i < |es| && FirstCells(m)[k] == Cells(es[i]) ==> k == ks[i]
    {
      FirstTwo(m, k);
      assert forall i :: 0 <= i < |es| && Cells(EntryOf(m[k])) == Cells(es[i]) ==> EntryOf(m[k]) == EntryOf(m[ks[i]]);
    }
  }

  lemma {:induction false} HeldIsFirstCells(m: Offsets, r: Offsets)
    requires Celled(m) && Holds(r, SavedKeys(m), SavedEntries(m))
    ensures r == FirstCells(m) <==> [] !in m
  {
    hide SavedEntries, SavedKeys, EntryOf;
    var ks, es := SavedKeys(m), SavedEntries(m);
    SavedTogether(m);
    forall k | k in m && k != []
      ensures k in r && r[k] == FirstCells(m)[k]
    {
      assert k in Elements(ks);
      var i :| 0 <= i < |ks| && ks[i] == k;
      FirstTwo(m, k);
    }
    assert FirstCells(m).Keys == m.Keys;
  }

  /** Where every list names its own key, entries land back exactly if no key clashes. */
  lemma {:induction false} NamedLands(m: Offsets)
    requires Celled(m) && NamesItself(m)
    ensures DistinctEntries(m) && (LandsBack(m) <==> LoadSafe(SavedKeys(m)))
  {
    hide SavedEntries, SavedKeys, LandsAt, LoadSafe;
    SavedTogether(m);
    assert Terms(SavedEntries(m)) == SavedKeys(m);
    SafeLands(SavedEntries(m));
  }

  /** After a successful round trip, saving again writes the same entries. */
  lemma {:induction false} SaveAgain(m: Offsets)
    requires Celled(m)
    ensures Celled(FirstCells(m)) && SavedEntries(FirstCells(m)) == SavedEntries(m)
  {
    FirstCellsCelled(m);
    SameSavedKeys(m, FirstCells(m));
    hide SavedKeys, FirstCells;
    SavedTogether(m);
    SavedTogether(FirstCells(m));
  }

  lemma {:induction false} FirstCellsCelled(m: Offsets)
    requires Celled(m)
    ensures Celled(FirstCells(m)) && FirstCells(m).Keys == m.Keys
    ensures forall k :: k in m ==> EntryOf(FirstCells(m)[k]) == EntryOf(m[k])
  {
  }

  lemma {:induction false} SameSavedKeys(m: Offsets, r: Offsets)
    requires m.Keys == r.Keys
    ensures SavedKeys(m) == SavedKeys(r)
  {
  }

  /** Save, load into a fresh storage, save again: the sizes are back; the first cells are back if and only if every
      entry lands where it was saved from, and then the second file is the first, byte for byte. */
  lemma {:induction false} SaveLoadSave(m: Offsets, termsSize: nat, documentsSize: nat)
    requires Celled(m) && DistinctEntries(m) && termsSize < WORD_LIMIT && documentsSize < WORD_LIMIT
    requires forall i {:trigger Fits(SavedEntries(m)[i])} :: 0 <= i < |SavedEntries(m)| ==> Fits(SavedEntries(m)[i])
    ensures var file := OffsetsFile(termsSize, documentsSize, SavedEntries(m));
      var loaded := Load(ReadEntries(file, 2 * WORD));
      && ReadWord(file, 0) == Some(termsSize) && ReadWord(file, WORD) == Some(documentsSize) && Celled(loaded)
      && (loaded == FirstCells(m) <==> [] !in m && LandsBack(m))
      && ([] !in m && LandsBack(m) ==> OffsetsFile(termsSize, documentsSize, SavedEntries(loaded)) == file)
  {
    hide Load, SavedEntries, SavedKeys, FirstCells, OffsetsFile, ReadEntries, Celled, LandsBack, DistinctEntries, Fits;
    OffsetsFileReadsBack(termsSize, documentsSize, SavedEntries(m));
    SaveLoadIff(m);
    SaveAgain(m);
    LoadCelled(SavedEntries(m));
  }

  lemma {:induction false} LoadCelled(es: seq<Entry>)
    ensures Celled(Load(es))
  {
    LoadOntoCelled(map[], es);
  }

  /** A dictionary with nothing but its entries under their own terms is restored as it was. */
  lemma {:induction false} RestoredReloads(m: Offsets, es: seq<Entry>)
    requires Restored(m, es) && [] !in m && Celled(m) && LoadSafe(SavedKeys(m))
    ensures NamesItself(m) && Load(SavedEntries(m)) == m
  {
    hide Load, LoadSafe, SavedEntries, SavedKeys;
    forall k | k in m
      ensures |m[k]| == 2 && m[k][1] == TermCell(k)
    {
      assert k in Terms(es);
      var i :| 0 <= i < |es| && Terms(es)[i] == k;
      assert m[Terms(es)[i]] == Cells(es[i]);
    }
    NamedLands(m);
    SaveLoadIff(m);
    assert FirstCells(m) == m by {
      assert forall k :: k in m ==> m[k][..2] == m[k];
    }
  }
}
