/** Laws of the radix trie: its radix invariant, its canonical form, and whole runs of appends. */
module DictionaryLaws {
  import opened Keys
  import opened TrieSpec
  import opened Wrappers
  import opened TrieShape
  import opened Dictionary

  // ---------- the radix invariant ----------

  /** Every node but the root has a non-empty label, hangs in the slot of its label's first byte,
      and stores a list or has two children. */
  lemma RadixInvariant<V>(d: Dictionary<V>, p: Key)
    requires d.Valid() && p in d.ix.at && p != []
    ensures var n := d.ix.at[p];
      && n.offset != null && 0 < n.offsetSize <= |n.offset.bytes| && n.next.Length == CHILDREN
      && (exists up :: up in d.ix.at && Slot(n.offset.bytes[0]) < d.ix.at[up].next.Length
                    && d.ix.at[up].next[Slot(n.offset.bytes[0])] == n)
      && (n.dataList != None || exists b, c :: 0 <= b < c < CHILDREN && n.next[b] != null && n.next[c] != null)
  {
    var up := Parent(d.ix.at.Keys, d.ix.kids, p);
    d.LabelFacts(p, up);
    d.TableFacts(p, 0);
    LinkStored(d, up, p);
    assert d.DataOk(p);
    if p !in d.contents {
      var x, y :| x in d.contents && y in d.contents && BranchBy(p, x, y);
      ChildTowards(d, p, x);
      ChildTowards(d, p, y);
      SlotInjective(x[|p|], y[|p|]);
    }
  }

  lemma LinkStored<V>(d: Dictionary<V>, up: Key, p: Key)
    requires d.Structure() && up in d.ix.at && p in d.ix.at && Edge(d.ix.kids, up, p)
    ensures d.ix.at[up].next.Length == CHILDREN && Slot(p[|up|]) < CHILDREN
    ensures d.ix.at[up].next[Slot(p[|up|])] == d.ix.at[p]
  {
    assert d.NodeOk(p) && d.TableOk(up);
  }

  lemma ChildTowards<V>(d: Dictionary<V>, p: Key, x: Key)
    requires d.Structure() && p in d.ix.at && x in d.ix.at && p < x
    ensures d.ix.at[p].next.Length == CHILDREN && Slot(x[|p|]) < CHILDREN
    ensures d.ix.at[p].next[Slot(x[|p|])] != null
  {
    var q := EdgeToward(d.ix.at.Keys, d.ix.kids, p, x);
    LinkStored(d, p, q);
  }

  // ---------- canonical form ----------

  /** Two tries with the same keys have the same nodes, links and labels, however they were built. */
  lemma SameKeysSameTrie<V, W>(d: Dictionary<V>, e: Dictionary<W>)
    requires d.Valid() && e.Valid() && d.contents.Keys == e.contents.Keys
    ensures d.ix.at.Keys == e.ix.at.Keys && d.ix.kids == e.ix.kids
    ensures forall p :: p in d.ix.at && p != [] ==> SameLabel(d.ix.at[p], e.ix.at[p])
  {
    d.NodesAreCanonical();
    e.NodesAreCanonical();
    assert d.ix.at.Keys == e.ix.at.Keys;
    LinksDetermined(d.ix.at.Keys, d.ix.kids, e.ix.kids);
    forall p | p in d.ix.at && p != []
      ensures SameLabel(d.ix.at[p], e.ix.at[p])
    {
      var up := Parent(d.ix.at.Keys, d.ix.kids, p);
      d.LabelFacts(p, up);
      e.LabelFacts(p, up);
    }
  }

  ghost predicate SameLabel<V, W>(n: Node<V>, m: Node<W>)
    reads n, m
  {
    && n.offset != null && m.offset != null
    && n.offsetSize <= |n.offset.bytes| && m.offsetSize <= |m.offset.bytes|
    && n.offset.bytes[..n.offsetSize] == m.offset.bytes[..m.offsetSize]
  }

  /** Downward visits of two tries with the same keys go through the same paths in the same order:
      those the keys call for, sorted by slots, a prefix before its extensions. */
  lemma SameKeysSameVisit<V, W>(d: Dictionary<V>, e: Dictionary<W>)
    requires d.Valid() && e.Valid() && d.contents.Keys == e.contents.Keys
    ensures d.VisitOrder() == e.VisitOrder()
    ensures Sorted(d.VisitOrder())
    ensures forall p :: p in d.VisitOrder() <==> p != [] && IsNode(d.contents.Keys, p)
  {
    d.NodesAreCanonical();
    e.NodesAreCanonical();
    assert d.ix.at.Keys - {[]} == e.ix.at.Keys - {[]};
    SortedUnique(d.VisitOrder(), e.VisitOrder());
    assert forall p :: p in Elements(d.VisitOrder()) <==> p in d.ix.at && p != [];
  }

  // ---------- runs ----------

  /** Contents after a run of appends from an empty dictionary. */
  ghost function Run<V>(kvs: seq<(Key, V)>): map<Key, seq<V>> {
    if kvs == [] then map[]
    else AppendSpec(Run(kvs[..|kvs|-1]), kvs[|kvs|-1].0, kvs[|kvs|-1].1)
  }

  ghost function KeysOf<V>(kvs: seq<(Key, V)>): set<Key> {
    set i | 0 <= i < |kvs| :: kvs[i].0
  }

  /** The values appended under `k`, oldest first. */
  ghost function ValuesOf<V>(kvs: seq<(Key, V)>, k: Key): seq<V> {
    if kvs == [] then []
    else
      ValuesOf(kvs[..|kvs|-1], k) + (if kvs[|kvs|-1].0 == k then [kvs[|kvs|-1].1] else [])
  }

  /** No append of the run meets an edge that differs from its key in case only. */
  ghost predicate ClashFree<V>(kvs: seq<(Key, V)>) {
    forall i :: 0 <= i < |kvs| ==> !CaseClash(KeysOf(kvs[..i]), kvs[i].0)
  }

  lemma {:induction false} KeysOfLast<V>(kvs: seq<(Key, V)>)
    requires kvs != []
    ensures KeysOf(kvs) == KeysOf(kvs[..|kvs|-1]) + {kvs[|kvs|-1].0}
  {
  }

  /** A clash-free run is a multimap: each key holds what was appended under it, in order. */
  lemma {:induction false} RunIsMultimap<V>(kvs: seq<(Key, V)>)
    requires ClashFree(kvs)
    ensures Run(kvs).Keys == KeysOf(kvs)
    ensures forall k :: k in KeysOf(kvs) ==> Run(kvs)[k] == ValuesOf(kvs, k)
    ensures forall k :: k !in KeysOf(kvs) ==> ValuesOf(kvs, k) == []
  {
    if kvs != [] {
      var rest := kvs[..|kvs|-1];
      forall i | 0 <= i < |rest|
        ensures rest[..i] == kvs[..i]
      {
      }
      RunIsMultimap(rest);
      KeysOfLast(kvs);
      AppendExactIff(Run(rest), kvs[|kvs|-1].0, kvs[|kvs|-1].1);
    }
  }

  /** Each key appended, and nothing else, holds what was appended under it, in order. */
  ghost predicate IsMultimap<V>(m: map<Key, seq<V>>, kvs: seq<(Key, V)>) {
    m.Keys == KeysOf(kvs) && forall k :: k in m ==> m[k] == ValuesOf(kvs, k)
  }

  /** `k` is stored with more values than were appended under it. */
  ghost predicate Surplus<V>(kvs: seq<(Key, V)>, k: Key) {
    k in Run(kvs) && |Run(kvs)[k]| > |ValuesOf(kvs, k)|
  }

  /** A surplus stays: later appends under the key itself land there too. */
  lemma {:induction false} SurplusStays<V>(kvs: seq<(Key, V)>, n: nat, k: Key)
    requires n <= |kvs| && Surplus(kvs[..n], k)
    ensures Surplus(kvs, k)
    decreases |kvs|
  {
    hide Landing;
    if n == |kvs| {
      assert kvs[..n] == kvs;
    } else {
      var rest := kvs[..|kvs|-1];
      assert rest[..n] == kvs[..n];
      SurplusStays(rest, n, k);
      StoredNeverClashes(Run(rest).Keys, k);
    }
  }

  /** The first clash stores a surplus under a foreign key. */
  lemma {:induction false} ClashMakesSurplus<V>(kvs: seq<(Key, V)>, n: nat) returns (k: Key)
    requires n < |kvs| && ClashFree(kvs[..n]) && CaseClash(KeysOf(kvs[..n]), kvs[n].0)
    ensures Surplus(kvs[..n + 1], k)
  {
    hide Landing, CaseClash;
    var rest, next := kvs[..n], kvs[..n + 1];
    assert next[..n] == rest && next[n] == kvs[n];
    RunIsMultimap(rest);
    LandingExact(KeysOf(rest), kvs[n].0);
    k := Landing(KeysOf(rest), kvs[n].0, []);
  }

  /** The finished run is a multimap if and only if no append of it clashed. */
  lemma {:induction false} MultimapIff<V>(kvs: seq<(Key, V)>)
    ensures IsMultimap(Run(kvs), kvs) <==> ClashFree(kvs)
  {
    hide CaseClash, Run, ValuesOf;
    if ClashFree(kvs) {
      RunIsMultimap(kvs);
    } else {
      var n := FirstClash(kvs);
      var k := ClashMakesSurplus(kvs, n);
      SurplusStays(kvs, n + 1, k);
    }
  }

  lemma {:induction false} FirstClash<V>(kvs: seq<(Key, V)>) returns (n: nat)
    requires !ClashFree(kvs)
    ensures n < |kvs| && ClashFree(kvs[..n]) && CaseClash(KeysOf(kvs[..n]), kvs[n].0)
  {
    hide CaseClash;
    n := 0;
    while !CaseClash(KeysOf(kvs[..n]), kvs[n].0)
      invariant n < |kvs| && forall i :: 0 <= i < n ==> !CaseClash(KeysOf(kvs[..i]), kvs[i].0)
      decreases |kvs| - n
    {
      n := n + 1;
    }
    assert forall i :: 0 <= i < n ==> kvs[..n][..i] == kvs[..i];
  }

  /** Keys without upper-case letters can be appended in any order. */
  lemma {:induction false} FoldFreeRun<V>(kvs: seq<(Key, V)>)
    requires forall k :: k in KeysOf(kvs) ==> FoldFree(k)
    ensures ClashFree(kvs)
  {
    forall i | 0 <= i < |kvs|
      ensures !CaseClash(KeysOf(kvs[..i]), kvs[i].0)
    {
      assert kvs[i].0 in KeysOf(kvs);
      forall x | x in KeysOf(kvs[..i])
        ensures FoldFree(x)
      {
        var j :| 0 <= j < |kvs[..i]| && kvs[..i][j].0 == x;
        assert kvs[j].0 == x && x in KeysOf(kvs);
      }
      FoldFreeNeverClashes(KeysOf(kvs[..i]), kvs[i].0);
    }
  }

  // ---------- two keys ----------

  /** `s` follows the edge of `k` for exactly `m` bytes: the first has to be the same, the others up to case. */
  ghost predicate Follows(k: Key, s: Key, m: nat) {
    && m <= |k| && m <= |s| && (m > 0 ==> k[0] == s[0]) && (forall i :: 0 < i < m ==> Fold(k[i]) == Fold(s[i]))
    && (m == |k| || m == |s| || if m == 0 then k[0] != s[0] else Fold(k[m]) != Fold(s[m]))
  }

  lemma OneKeyNodes(k: Key, n: nat)
    requires n <= |k|
    ensures IsNode({k}, k[..n]) <==> n == 0 || n == |k|
    ensures n < |k| ==> Reaches({k}, k[..n] + [k[n]])
    ensures forall e: Byte :: Reaches({k}, k[..n] + [e]) ==> n < |k| && k[n] == e
  {
    assert k[..|k|] == k && (k[..n] == k ==> |k[..n]| == |k|);
    if n < |k| {
      assert k[..n] + [k[n]] == k[..n + 1] <= k;
    }
    forall e: Byte | Reaches({k}, k[..n] + [e])
      ensures n < |k| && k[n] == e
    {
      assert (k[..n] + [e])[n] == e;
    }
  }

  /** With one key stored, another takes over the letters of that key as far as it follows it. */
  lemma {:induction false} LandsBeside(k: Key, s: Key, m: nat, n: nat)
    requires Follows(k, s, m) && n <= m
    ensures Landing({k}, s, k[..n]) == k[..m] + s[m..]
    decreases m - n
  {
    hide IsNode, Reaches;
    OneKeyNodes(k, n);
    var K, p := {k}, k[..n];
    if n < m {
      LandsBeside(k, s, m, n + 1);
      assert p + [k[n]] == k[..n + 1];
      if k[n] == s[n] {
        LandingReaches(K, s, p);
      } else {
        LandingOnEdge(K, s, p, k[n]);
      }
    } else if m < |s| {
      if 0 < m < |k| {
        LandingOnEdge(K, s, p, k[m]);
      }
    }
  }

  lemma {:induction false} FirstAppend<V>(k: Key, v: V)
    ensures Run([(k, v)]) == map[k := [v]]
  {
    var none: map<Key, seq<V>> := map[];
    assert [(k, v)][..0] == [];
    AppendExactIff(none, k, v);
    assert forall p, e :: !OnEdge(none.Keys, p, e);
    assert [] + [v] == [v];
  }

  /** Two appends: the second key takes over the letters of the first as far as it follows it; if that makes it the
      first key its value joins that list, otherwise it is stored beside it. */
  lemma {:induction false} TwoAppends<V>(k: Key, v: V, s: Key, w: V, m: nat)
    requires Follows(k, s, m)
    ensures var t := k[..m] + s[m..];
      Run([(k, v), (s, w)]) == if t == k then map[k := [v, w]] else map[k := [v], t := [w]]
  {
    hide Landing;
    var both := [(k, v), (s, w)];
    assert both[..1] == [(k, v)] && both[1] == (s, w);
    FirstAppend(k, v);
    LandsBeside(k, s, m, 0);
    assert k[..0] == [] && Run([(k, v)]).Keys == {k};
    assert [v] + [w] == [v, w] && [] + [w] == [w];
  }

  /** A key that differs from the first only by capitals against their small letters behind the first byte joins it. */
  lemma {:induction false} TwinsJoin<V>(k: Key, v: V, s: Key, w: V)
    requires |k| == |s| && (k != [] ==> k[0] == s[0])
    requires forall i :: 0 < i < |k| ==>
      k[i] == s[i] || (65 <= k[i] <= 90 && s[i] == k[i] + 32) || (65 <= s[i] <= 90 && k[i] == s[i] + 32)
    ensures Run([(k, v), (s, w)]) == map[k := [v, w]]
  {
    forall i | 0 < i < |k|
      ensures Fold(k[i]) == Fold(s[i])
    {
      FoldExact(k[i], s[i]);
    }
    TwoAppends(k, v, s, w, |k|);
    assert k[..|k|] + s[|k|..] == k;
  }

  /** Otherwise the two keys differ for good at a first position `m`. Then the second list is under the second key if
      and only if the two agree in every byte before; under another one it has the letters of the first key there. */
  lemma {:induction false} OthersPart<V>(k: Key, v: V, s: Key, w: V, m: nat)
    requires m < |k| == |s| && (if m == 0 then k[0] != s[0] else k[0] == s[0])
    requires forall i :: 0 < i < m ==>
      k[i] == s[i] || (65 <= k[i] <= 90 && s[i] == k[i] + 32) || (65 <= s[i] <= 90 && k[i] == s[i] + 32)
    requires m > 0 ==>
      k[m] != s[m] && !(65 <= k[m] <= 90 && s[m] == k[m] + 32) && !(65 <= s[m] <= 90 && k[m] == s[m] + 32)
    ensures Run([(k, v), (s, w)]) == map[k := [v], k[..m] + s[m..] := [w]] && k[..m] + s[m..] != k
    ensures Run([(k, v), (s, w)]) == map[k := [v], s := [w]] <==> k[..m] == s[..m]
  {
    forall i | 0 < i <= m
      ensures i < m ==> Fold(k[i]) == Fold(s[i])
      ensures i == m ==> Fold(k[i]) != Fold(s[i])
    {
      FoldExact(k[i], s[i]);
    }
    TwoAppends(k, v, s, w, m);
    var t := k[..m] + s[m..];
    assert t[m] == s[m] && t[..m] == k[..m];
    if t == s {
      assert k[..m] == s[..m];
    }
    if k[..m] == s[..m] {
      assert t == s;
    } else {
      assert s != t && k != t && t in Run([(k, v), (s, w)]);
    }
  }

  // ---------- what goes wrong ----------

  const LOWER: Key := [97, 98]  // "ab"
  const UPPER: Key := [97, 66]  // "aB"

  /** With keys that differ only in case the order of appends matters: the second joins the first. */
  lemma CaseOrderMatters(v: int, w: int)
    ensures Run([(LOWER, v), (UPPER, w)]) == map[LOWER := [v, w]]
    ensures Run([(UPPER, w), (LOWER, v)]) == map[UPPER := [w, v]]
  {
    TwinsJoin(LOWER, v, UPPER, w);
    TwinsJoin(UPPER, w, LOWER, v);
  }

  /** A key can lose its letters and still part: "aBd" behind "abc" is stored as "abd". */
  lemma LettersTakenOver(v: int, w: int)
    ensures Run([([97, 98, 99], v), ([97, 66, 100], w)]) == map[[97, 98, 99] := [v], [97, 98, 100] := [w]]
  {
    var k: Key, s: Key := [97, 98, 99], [97, 66, 100];
    OthersPart(k, v, s, w, 2);
    assert k[..2] + s[2..] == [97, 98, 100];
  }

  /** "abc" and "abd" stored: the lax lookup takes "axc" for "abc". */
  lemma LaxLookupMisses(v: int, w: int)
    ensures var m := map[[97, 98, 99] := [v], [97, 98, 100] := [w]];
      GetSpec(m, [97, 120, 99]) == Some([v]) && GetExact(m, [97, 120, 99]) == None
  {
    var k: Key, l: Key, s: Key := [97, 98, 99], [97, 98, 100], [97, 120, 99];
    var m := map[k := [v], l := [w]];
    var up: Key := [97, 98];
    assert BranchBy(up, k, l) && IsNode(m.Keys, up);
    forall y | IsNode(m.Keys, y) && y < k
      ensures y == [] || y == up
    {
      if y != [] {
        var a, b :| a in m.Keys && b in m.Keys && BranchBy(y, a, b);
        assert |y| == 1 || |y| == 2;
        assert y == k[..|y|];
      }
    }
    assert k[..2] == up && k[..0] == [] && |k[..1]| == 1;
    assert forall n: nat :: n < |k| && Compared(m.Keys, k, n) ==> s[n] == k[n];
    assert Resolves(m.Keys, s, k);
    forall r | Resolves(m.Keys, s, r)
      ensures r == k
    {
      ResolvesUnique(m.Keys, s, r, k);
    }
  }
}
