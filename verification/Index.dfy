/** The naive definition of the inverted index of a batch: what it holds after every step. */
module Index {
  import opened Keys
  import opened TrieSpec
  import opened Agreement
  import opened Tokeniser
  import opened Weights

  /** A document offset with the significancy of a term there. */
  datatype Posted = Posted(offset: nat, significancy: real)

  /** Postings under the decimal document offset, and the posting count for the record header. */
  datatype TermEntry = TermEntry(docs: map<Key, Posted>, count: nat)

  type Index = map<Text, TermEntry>

  // ---------- decimal keys ----------

  function Decimal(n: nat): Key {
    if n < 10 then [48 + n] else Decimal(n / 10) + [48 + n % 10]
  }

  lemma {:induction false} DecimalInjective(n: nat, m: nat)
    requires Decimal(n) == Decimal(m)
    ensures n == m
  {
    DecimalLast(n);
    DecimalLast(m);
    if n >= 10 && m >= 10 {
      assert Decimal(n / 10) == Decimal(n)[..|Decimal(n)|-1] == Decimal(m / 10);
      DecimalInjective(n / 10, m / 10);
    }
  }

  lemma {:induction false} DecimalLast(n: nat)
    ensures Decimal(n) != [] && (|Decimal(n)| == 1 <==> n < 10)
    ensures Decimal(n)[|Decimal(n)|-1] == 48 + n % 10
  {
  }

  /** Decimal keys have no letter case, so appending them never clashes; */
  lemma {:induction false} DecimalFoldFree(n: nat)
    ensures FoldFree(Decimal(n))
  {
    if n >= 10 {
      DecimalFoldFree(n / 10);
    }
  }

  /** but looking one up may: with documents at 110 and 119, the lookup takes 129 for 119. */
  lemma DocumentKeysClash()
    ensures LaxClash({Decimal(110), Decimal(119)}, Decimal(129))
    ensures !Separable({Decimal(110), Decimal(119), Decimal(129)})
  {
    var p, s, q: Key := [49, 49, 57], [49, 50, 57], [49, 49, 48];
    assert Decimal(119) == p && Decimal(129) == s && Decimal(110) == q by {
      assert Decimal(11) == [49, 49] && Decimal(12) == [49, 50];
    }
    hide Decimal;
    assert p[2..] == [57] && s[2..] == [57] && p[..2] == [49, 49];
    assert Shadows(p, s, q, 2);
    ShadowClashes(p, s, q, 2);
    assert {p, q} == {Decimal(110), Decimal(119)};
    assert p in {Decimal(110), Decimal(119), Decimal(129)};
  }

  // ---------- the naive definition ----------

  function DocKey(batch: Batch, d: nat): Key
    requires d < |batch|
  {
    Decimal(batch[d].offset)
  }

  ghost predicate DistinctOffsets(batch: Batch) {
    forall d, e :: 0 <= d < e < |batch| ==> batch[d].offset != batch[e].offset
  }

  lemma {:induction false} KeysDiffer(batch: Batch, d: nat, e: nat)
    requires d < |batch| && e < |batch| && DistinctOffsets(batch)
    ensures DocKey(batch, d) == DocKey(batch, e) <==> d == e
  {
    if DocKey(batch, d) == DocKey(batch, e) {
      DecimalInjective(batch[d].offset, batch[e].offset);
    }
  }

  /** TF times IDF of a term of document `d`; zero for other terms. */
  ghost function Weight(t: Text, batch: Batch, d: nat, log: real -> real): real
    requires d < |batch|
  {
    if t in Terms(batch[d].text) && HeaderCount(t, batch) > 0 then Significancy(t, batch, d, log) else 0.0
  }

  lemma {:induction false} WeightNeedsTerm(t: Text, batch: Batch, d: nat, log: real -> real)
    requires d < |batch|
    ensures Weight(t, batch, d, log) > 0.0 ==> t in Terms(batch[d].text)
  {
  }

  /** `t` is a term of document `d`, counting documents before `i` and the first `j` terms of document `i`. */
  ghost predicate Has(batch: Batch, t: Text, d: nat, i: nat, j: nat)
    requires d < |batch|
  {
    var ts := Terms(batch[d].text);
    (d < i && t in ts) || (d == i && j <= |ts| && t in ts[..j])
  }

  ghost predicate Seen(batch: Batch, t: Text, i: nat, j: nat) {
    exists d :: 0 <= d < |batch| && Has(batch, t, d, i, j)
  }

  /** The entry posts `t` in document `d` exactly if it has the term with positive weight. */
  ghost predicate PostedOk(e: TermEntry, batch: Batch, log: real -> real, t: Text, d: nat, i: nat, j: nat)
    requires d < |batch|
  {
    var k := DocKey(batch, d);
    && (k in e.docs <==> Has(batch, t, d, i, j) && Weight(t, batch, d, log) > 0.0)
    && (k in e.docs ==> e.docs[k] == Posted(batch[d].offset, Weight(t, batch, d, log)))
  }

  ghost predicate EntryOk(e: TermEntry, batch: Batch, log: real -> real, t: Text, i: nat, j: nat) {
    && e.count == HeaderCount(t, batch) > 0
    && (forall d {:trigger PostedOk(e, batch, log, t, d, i, j)} ::
          0 <= d < |batch| ==> PostedOk(e, batch, log, t, d, i, j))
    && (forall k :: k in e.docs ==> exists d :: 0 <= d < |batch| && DocKey(batch, d) == k)
  }

  /** What index and cache hold about `t`. */
  ghost predicate TermOk(index: Index, cache: map<Text, real>, batch: Batch, log: real -> real,
                         t: Text, i: nat, j: nat) {
    && (t in index <==> Seen(batch, t, i, j))
    && (t in cache <==> t in index)
    && (t in index ==> EntryOk(index[t], batch, log, t, i, j) && cache[t] == ReverseFrequency(t, batch, log))
  }

  /** Index and cache after documents before `i` and the first `j` terms of document `i`. */
  ghost predicate Built(index: Index, cache: map<Text, real>, batch: Batch, log: real -> real, i: nat, j: nat) {
    forall t {:trigger TermOk(index, cache, batch, log, t, i, j)} :: TermOk(index, cache, batch, log, t, i, j)
  }

  /** The naive definition of the index of a batch. */
  ghost predicate IsIndex(index: Index, batch: Batch, log: real -> real) {
    forall t ::
      && (t in index <==> exists d :: 0 <= d < |batch| && t in Terms(batch[d].text))
      && (t in index ==> EntryOk(index[t], batch, log, t, |batch|, 0))
  }

  // ---------- steps ----------

  /** Terms other than the one just read are not affected. */
  lemma {:induction false} OtherTerm(index: Index, cache: map<Text, real>, index': Index, cache': map<Text, real>,
                                     batch: Batch, log: real -> real, t: Text, i: nat, j: nat)
    requires i < |batch| && j < |Terms(batch[i].text)| && t != Terms(batch[i].text)[j]
    requires TermOk(index, cache, batch, log, t, i, j)
    requires (t in index' <==> t in index) && (t in cache' <==> t in cache)
    requires (t in index ==> index'[t] == index[t]) && (t in cache ==> cache'[t] == cache[t])
    ensures TermOk(index', cache', batch, log, t, i, j + 1)
  {
    var n := j + 1;
    hide Weight;
    forall d | 0 <= d < |batch|
      ensures Has(batch, t, d, i, n) == Has(batch, t, d, i, j)
    {
      HasMore(batch, t, d, i, j);
    }
    if t in index {
      forall d | 0 <= d < |batch|
        ensures PostedOk(index[t], batch, log, t, d, i, n)
      {
        assert PostedOk(index[t], batch, log, t, d, i, j);
      }
    }
  }

  lemma {:induction false} HasMore(batch: Batch, t: Text, d: nat, i: nat, j: nat)
    requires d < |batch| && i < |batch| && j < |Terms(batch[i].text)|
    ensures Has(batch, t, d, i, j + 1) <==> Has(batch, t, d, i, j) || (d == i && t == Terms(batch[i].text)[j])
  {
  }

  /** A term met for the first time has an entry without postings so far. */
  lemma {:induction false} FreshEntry(batch: Batch, log: real -> real, t: Text, i: nat, j: nat)
    requires !Seen(batch, t, i, j) && HeaderCount(t, batch) > 0
    ensures EntryOk(TermEntry(map[], HeaderCount(t, batch)), batch, log, t, i, j)
  {
  }

  /** The entry after the current document has been posted, if its weight is positive. */
  ghost function WithPosting(e: TermEntry, batch: Batch, log: real -> real, t: Text, i: nat): TermEntry
    requires i < |batch|
  {
    var w := Weight(t, batch, i, log);
    if w <= 0.0 then e else e.(docs := e.docs[DocKey(batch, i) := Posted(batch[i].offset, w)])
  }

  lemma {:induction false} PostingStep(e: TermEntry, batch: Batch, log: real -> real, t: Text, i: nat, j: nat)
    requires DistinctOffsets(batch) && i < |batch| && j < |Terms(batch[i].text)| && t == Terms(batch[i].text)[j]
    requires EntryOk(e, batch, log, t, i, j)
    ensures EntryOk(WithPosting(e, batch, log, t, i), batch, log, t, i, j + 1)
  {
    var n := j + 1;
    hide Weight;
    var e' := WithPosting(e, batch, log, t, i);
    assert PostedOk(e, batch, log, t, i, i, j);
    forall d | 0 <= d < |batch|
      ensures PostedOk(e', batch, log, t, d, i, n)
    {
      HasMore(batch, t, d, i, j);
      assert PostedOk(e, batch, log, t, d, i, j);
      KeysDiffer(batch, d, i);
    }
    assert forall k :: k in e'.docs ==> k in e.docs || k == DocKey(batch, i);
  }

  /** A document already posted changes nothing when its term is met again. */
  lemma {:induction false} AlreadyPosted(e: TermEntry, batch: Batch, log: real -> real, t: Text, i: nat, j: nat)
    requires i < |batch| && j < |Terms(batch[i].text)| && t == Terms(batch[i].text)[j]
    requires EntryOk(e, batch, log, t, i, j) && DocKey(batch, i) in e.docs
    ensures EntryOk(e, batch, log, t, i, j + 1)
  {
    var n := j + 1;
    hide Weight;
    forall d | 0 <= d < |batch|
      ensures PostedOk(e, batch, log, t, d, i, n)
    {
      HasMore(batch, t, d, i, j);
      assert PostedOk(e, batch, log, t, d, i, j);
    }
  }

  lemma {:induction false} SeenNow(batch: Batch, t: Text, i: nat, j: nat)
    requires i < |batch| && j < |Terms(batch[i].text)| && t == Terms(batch[i].text)[j]
    ensures Seen(batch, t, i, j + 1)
  {
    HasMore(batch, t, i, i, j);
  }

  /** After the last term of a document comes the next document. */
  lemma {:induction false} NextDocument(index: Index, cache: map<Text, real>, batch: Batch, log: real -> real, i: nat)
    requires i < |batch| && Built(index, cache, batch, log, i, |Terms(batch[i].text)|)
    ensures Built(index, cache, batch, log, i + 1, 0)
  {
    var m := i + 1;
    hide Weight;
    var n := |Terms(batch[i].text)|;
    forall t
      ensures TermOk(index, cache, batch, log, t, m, 0)
    {
      forall d | 0 <= d < |batch|
        ensures Has(batch, t, d, m, 0) == Has(batch, t, d, i, n)
      {
        assert Terms(batch[i].text)[..n] == Terms(batch[i].text);
      }
      assert TermOk(index, cache, batch, log, t, i, n);
      if t in index {
        forall d | 0 <= d < |batch|
          ensures PostedOk(index[t], batch, log, t, d, m, 0)
        {
          assert PostedOk(index[t], batch, log, t, d, i, n);
        }
      }
    }
  }

  // ---------- one term of a document ----------

  /** The index after term `t` of document `i`: nothing changes if the document is posted already. */
  ghost function Assigned(index: Index, batch: Batch, log: real -> real, t: Text, i: nat): Index
    requires i < |batch|
  {
    if t in index && DocKey(batch, i) in index[t].docs then index
    else
      var e := if t in index then index[t] else TermEntry(map[], HeaderCount(t, batch));
      index[t := WithPosting(e, batch, log, t, i)]
  }

  ghost function Cached(cache: map<Text, real>, batch: Batch, log: real -> real, t: Text): map<Text, real>
    requires HeaderCount(t, batch) > 0
  {
    if t in cache then cache else cache[t := ReverseFrequency(t, batch, log)]
  }

  /** The step keeps index and cache as the naive definition has them. */
  lemma {:induction false} AssignStep(index: Index, cache: map<Text, real>, batch: Batch, log: real -> real,
                                      i: nat, j: nat, term: Text)
    requires DistinctOffsets(batch) && i < |batch| && IsLog(log) && Built(index, cache, batch, log, i, j)
    requires j < |Terms(batch[i].text)| && term == Terms(batch[i].text)[j] && HeaderCount(term, batch) > 0
    ensures Built(Assigned(index, batch, log, term, i), Cached(cache, batch, log, term), batch, log, i, j + 1)
  {
    hide EntryOk, Weight, Seen, ReverseFrequency, Occurs, IsLog, Frequency, WithPosting, DistinctOffsets;
    var index', cache' := Assigned(index, batch, log, term, i), Cached(cache, batch, log, term);
    var n := j + 1;
    assert TermOk(index, cache, batch, log, term, i, j);
    SeenNow(batch, term, i, j);
    if term in index && DocKey(batch, i) in index[term].docs {
      AlreadyPosted(index[term], batch, log, term, i, j);
    } else {
      if term !in index {
        FreshEntry(batch, log, term, i, j);
      }
      var e := if term in index then index[term] else TermEntry(map[], HeaderCount(term, batch));
      PostingStep(e, batch, log, term, i, j);
    }
    assert TermOk(index', cache', batch, log, term, i, n);
    forall t
      ensures TermOk(index', cache', batch, log, t, i, n)
    {
      if t != term {
        assert TermOk(index, cache, batch, log, t, i, j);
        OtherTerm(index, cache, index', cache', batch, log, t, i, j);
      }
    }
  }

  lemma {:induction false} WeightOfTerm(t: Text, batch: Batch, d: nat, log: real -> real)
    requires d < |batch| && t in Terms(batch[d].text) && IsLog(log)
    ensures HeaderCount(t, batch) > 0
    ensures Weight(t, batch, d, log)
         == TermSignificancy(Frequency(t, Terms(batch[d].text)), ReverseFrequency(t, batch, log))
  {
    ReverseFrequencyBounds(t, batch, d, log);
  }

  lemma {:induction false} AllBuilt(index: Index, cache: map<Text, real>, batch: Batch, log: real -> real)
    requires Built(index, cache, batch, log, |batch|, 0)
    ensures IsIndex(index, batch, log)
  {
    hide EntryOk;
    forall t
      ensures t in index <==> exists d :: 0 <= d < |batch| && t in Terms(batch[d].text)
      ensures t in index ==> EntryOk(index[t], batch, log, t, |batch|, 0)
    {
      assert TermOk(index, cache, batch, log, t, |batch|, 0);
      forall d | 0 <= d < |batch|
        ensures Has(batch, t, d, |batch|, 0) == (t in Terms(batch[d].text))
      {
      }
    }
  }
}
