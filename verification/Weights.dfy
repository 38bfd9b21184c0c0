/** Term frequency, reverse document frequency and their product, over the reals. */
module Weights {
  import opened Tokeniser
  import opened Ratios

  /** A document of the batch with its offset in the documents file. */
  datatype Document = Document(text: Text, offset: nat)

  type Batch = seq<Document>

  /** All that is used of the logarithm. */
  ghost predicate IsLog(log: real -> real) {
    log(1.0) == 0.0 && forall x :: x > 1.0 ==> log(x) > 0.0
  }

  function Terms(text: Text): seq<Text> {
    Tokens(text, TERM_DELIMITERS)
  }

  // ---------- term frequency ----------

  function Count(t: Text, ts: seq<Text>): nat {
    if ts == [] then 0 else Count(t, ts[..|ts|-1]) + (if ts[|ts|-1] == t then 1 else 0)
  }

  function Frequency(t: Text, ts: seq<Text>): real
    requires ts != []
  {
    Count(t, ts) as real / |ts| as real
  }

  method CalculateTermFrequency(t: Text, ts: seq<Text>) returns (frequency: real)
    requires ts != []
    ensures frequency == Frequency(t, ts)
  {
    var count := 0;
    var i := 0;
    while i < |ts|
      invariant 0 <= i <= |ts| && count == Count(t, ts[..i])
    {
      assert ts[..i+1][..i] == ts[..i];
      if t == ts[i] {
        count := count + 1;
      }
      i := i + 1;
    }
    assert ts[..i] == ts;
    frequency := count as real / |ts| as real;
  }

  lemma {:induction false} CountBounds(t: Text, ts: seq<Text>)
    ensures Count(t, ts) <= |ts| && (Count(t, ts) > 0 <==> t in ts)
  {
    if ts != [] {
      CountBounds(t, ts[..|ts|-1]);
      assert ts == ts[..|ts|-1] + [ts[|ts|-1]];
    }
  }

  lemma {:induction false} CountIsMultiplicity(t: Text, ts: seq<Text>)
    ensures Count(t, ts) == multiset(ts)[t]
  {
    if ts != [] {
      CountIsMultiplicity(t, ts[..|ts|-1]);
      assert ts == ts[..|ts|-1] + [ts[|ts|-1]];
    }
  }

  lemma FrequencyBounds(t: Text, ts: seq<Text>)
    requires ts != []
    ensures 0.0 <= Frequency(t, ts) <= 1.0 && (Frequency(t, ts) > 0.0 <==> t in ts)
  {
    CountBounds(t, ts);
    QuotientBounds(Count(t, ts) as real, |ts| as real);
  }

  /** Frequencies of a duplicate-free list of terms, summed. */
  ghost function TotalFrequency(us: seq<Text>, ts: seq<Text>): real
    requires ts != []
  {
    if us == [] then 0.0 else TotalFrequency(us[..|us|-1], ts) + Frequency(us[|us|-1], ts)
  }

  ghost function TotalCount(us: seq<Text>, ts: seq<Text>): nat {
    if us == [] then 0 else TotalCount(us[..|us|-1], ts) + Count(us[|us|-1], ts)
  }

  ghost predicate NoDuplicates(us: seq<Text>) {
    forall i, j :: 0 <= i < j < |us| ==> us[i] != us[j]
  }

  lemma {:induction false} TotalCountLast(us: seq<Text>, ts: seq<Text>)
    requires ts != [] && NoDuplicates(us)
    ensures TotalCount(us, ts) == TotalCount(us, ts[..|ts|-1]) + (if ts[|ts|-1] in us then 1 else 0)
    decreases |us|
  {
    if us != [] {
      TotalCountLast(us[..|us|-1], ts);
      assert us == us[..|us|-1] + [us[|us|-1]];
    }
  }

  lemma {:induction false} CountsAddUp(us: seq<Text>, ts: seq<Text>)
    requires NoDuplicates(us) && forall t :: t in ts ==> t in us
    ensures TotalCount(us, ts) == |ts|
    decreases |ts|
  {
    if ts == [] {
      NothingCounted(us);
    } else {
      CountsAddUp(us, ts[..|ts|-1]);
      TotalCountLast(us, ts);
    }
  }

  lemma {:induction false} NothingCounted(us: seq<Text>)
    ensures TotalCount(us, []) == 0
  {
    if us != [] {
      NothingCounted(us[..|us|-1]);
    }
  }

  lemma {:induction false} FrequenciesFromCounts(us: seq<Text>, ts: seq<Text>)
    requires ts != []
    ensures TotalFrequency(us, ts) == TotalCount(us, ts) as real / |ts| as real
  {
    QuotientBounds(0.0, |ts| as real);
    if us != [] {
      var rest := us[..|us|-1];
      FrequenciesFromCounts(rest, ts);
      QuotientSum(TotalCount(rest, ts) as real, Count(us[|us|-1], ts) as real, |ts| as real);
    }
  }

  /** The frequencies of the distinct terms of a text sum to exactly 1. */
  lemma FrequenciesSumToOne(us: seq<Text>, ts: seq<Text>)
    requires ts != [] && NoDuplicates(us) && forall t :: t in ts <==> t in us
    ensures TotalFrequency(us, ts) == 1.0
  {
    CountsAddUp(us, ts);
    FrequenciesFromCounts(us, ts);
    QuotientBounds(|ts| as real, |ts| as real);
  }

  // ---------- reverse document frequency ----------

  /** The documents before `n` that contain `t` as a substring. */
  ghost function Containing(t: Text, batch: Batch, n: nat): set<nat>
    requires n <= |batch|
  {
    set d: nat | d < n && Occurs(batch[d].text, t)
  }

  lemma {:induction false} ContainingNext(t: Text, batch: Batch, d: nat)
    requires d < |batch|
    ensures |Containing(t, batch, d + 1)| == |Containing(t, batch, d)| + if Occurs(batch[d].text, t) then 1 else 0
  {
    var before := Containing(t, batch, d);
    assert Containing(t, batch, d + 1) == before + if Occurs(batch[d].text, t) then {d} else {};
  }

  lemma {:induction false} NothingContains(t: Text, batch: Batch)
    ensures Containing(t, batch, 0) == {}
  {
  }

  ghost function HeaderCount(t: Text, batch: Batch): nat {
    |Containing(t, batch, |batch|)|
  }

  /** The offsets of the documents that contain `t` as a substring. */
  method GetDocumentsWithTerm(t: Text, batch: Batch) returns (offsets: seq<nat>)
    ensures |offsets| == HeaderCount(t, batch)
    ensures forall o :: o in offsets <==>
      exists d :: 0 <= d < |batch| && batch[d].offset == o && Occurs(batch[d].text, t)
  {
    hide Containing, Occurs;
    offsets := [];
    var d := 0;
    NothingContains(t, batch);
    while d < |batch|
      invariant 0 <= d <= |batch| && |offsets| == |Containing(t, batch, d)|
      invariant forall o :: o in offsets <==> exists e :: 0 <= e < d && batch[e].offset == o && Occurs(batch[e].text, t)
    {
      ContainingNext(t, batch, d);
      if Occurs(batch[d].text, t) {
        offsets := offsets + [batch[d].offset];
      }
      d := d + 1;
    }
  }

  ghost function ReverseFrequency(t: Text, batch: Batch, log: real -> real): real
    requires HeaderCount(t, batch) > 0
  {
    log(|batch| as real / HeaderCount(t, batch) as real)
  }

  ghost function Below(n: nat): (r: set<nat>)
    ensures |r| == n && forall d: nat :: d in r <==> d < n
  {
    if n == 0 then {} else Below(n - 1) + {n - 1}
  }

  lemma {:induction false} SubsetSize<T>(a: set<T>, b: set<T>)
    requires a <= b
    ensures |a| <= |b| && (|a| == |b| <==> a == b)
  {
    assert |b| == |a| + |b - a| by {
      assert b == a + (b - a);
    }
    assert b - a == {} <==> a == b;
  }

  lemma {:induction false} HeaderCountBound(t: Text, batch: Batch)
    ensures HeaderCount(t, batch) <= |batch|
  {
    SubsetSize(Containing(t, batch, |batch|), Below(|batch|));
  }

  /** A term of some document is a substring of it, so the divisor of the reverse frequency lies
      between 1 and the size of the batch, and the reverse frequency vanishes exactly when every
      document contains the term. */
  lemma {:induction false} ReverseFrequencyBounds(t: Text, batch: Batch, d: nat, log: real -> real)
    requires d < |batch| && t in Terms(batch[d].text) && IsLog(log)
    ensures Occurs(batch[d].text, t) && 1 <= HeaderCount(t, batch) <= |batch|
    ensures ReverseFrequency(t, batch, log) >= 0.0
    ensures ReverseFrequency(t, batch, log) > 0.0 <==> exists e :: 0 <= e < |batch| && !Occurs(batch[e].text, t)
  {
    var ts := Terms(batch[d].text);
    var i :| 0 <= i < |ts| && ts[i] == t;
    TokensAreRuns(batch[d].text, TERM_DELIMITERS, i);
    var c := Containing(t, batch, |batch|);
    assert d in c;
    SubsetSize({d}, c);
    SubsetSize(c, Below(|batch|));
    assert forall e :: 0 <= e < |batch| ==> (e in c <==> Occurs(batch[e].text, t));
    assert c == Below(|batch|) <==> forall e :: 0 <= e < |batch| ==> Occurs(batch[e].text, t);
    RatioAboveOne(|batch|, |c|);
  }

  lemma RatioAboveOne(n: nat, c: nat)
    requires 1 <= c <= n
    ensures n as real / c as real >= 1.0 && (n as real / c as real > 1.0 <==> c < n)
    ensures c == n ==> n as real / c as real == 1.0
  {
  }

  function TermSignificancy(frequency: real, reverseFrequency: real): real {
    frequency * reverseFrequency
  }

  /** Significancy of a term in a document of the batch. */
  ghost function Significancy(t: Text, batch: Batch, d: nat, log: real -> real): real
    requires d < |batch| && Terms(batch[d].text) != [] && HeaderCount(t, batch) > 0
  {
    TermSignificancy(Frequency(t, Terms(batch[d].text)), ReverseFrequency(t, batch, log))
  }

  /** In numbers: with `c` of the documents containing the term and `q` the quotient of the size of the batch by `c`,
      the significancy times the length of the document is the number of occurrences times the logarithm of `q`. */
  lemma {:induction false} SignificancyInNumbers(t: Text, batch: Batch, d: nat, log: real -> real, q: real)
    requires d < |batch| && Terms(batch[d].text) != []
    requires var c := |set e: nat | e < |batch| && Occurs(batch[e].text, t)|; c > 0 && q * c as real == |batch| as real
    ensures HeaderCount(t, batch) == |set e: nat | e < |batch| && Occurs(batch[e].text, t)|
    ensures var ts := Terms(batch[d].text);
      Significancy(t, batch, d, log) * |ts| as real == multiset(ts)[t] as real * log(q)
  {
    hide Terms, Occurs;
    var ts, c := Terms(batch[d].text), HeaderCount(t, batch);
    assert Containing(t, batch, |batch|) == set e: nat | e < |batch| && Occurs(batch[e].text, t);
    CountIsMultiplicity(t, ts);
    QuotientOrder(|batch| as real, c as real, q);
    QuotientTimes(Count(t, ts) as real, |ts| as real, log(q));
  }

  /** A term is significant in a document exactly when it is a term of it and some document of the
      batch does not contain it. */
  lemma {:induction false} SignificantIff(t: Text, batch: Batch, d: nat, log: real -> real)
    requires d < |batch| && t in Terms(batch[d].text) && IsLog(log)
    ensures HeaderCount(t, batch) > 0
    ensures Significancy(t, batch, d, log) > 0.0 <==> exists e :: 0 <= e < |batch| && !Occurs(batch[e].text, t)
  {
    ReverseFrequencyBounds(t, batch, d, log);
    FrequencyBounds(t, Terms(batch[d].text));
    ProductSign(Frequency(t, Terms(batch[d].text)), ReverseFrequency(t, batch, log));
  }
}
