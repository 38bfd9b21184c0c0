/** What the radix trie means, as functions of its set of keys alone. */
module TrieSpec {
  import opened Keys
  import opened Wrappers

  // ---------- the canonical node set ----------

  predicate Reaches(K: set<Key>, p: Key) {
    exists x :: x in K && p <= x
  }

  predicate BranchBy(p: Key, x: Key, y: Key) {
    p < x && p < y && x[|p|] != y[|p|]
  }

  /** Two keys part at `p`. */
  predicate Branch(K: set<Key>, p: Key) {
    exists x, y :: x in K && y in K && BranchBy(p, x, y)
  }

  /** The trie of `K` has a node with path label `p`. */
  predicate IsNode(K: set<Key>, p: Key) {
    p == [] || p in K || Branch(K, p)
  }

  lemma NodeReaches(K: set<Key>, p: Key)
    requires IsNode(K, p) && p != []
    ensures Reaches(K, p)
  {
  }

  lemma ReachesByte(K: set<Key>, p: Key, e: Byte) returns (x: Key)
    requires Reaches(K, p + [e])
    ensures x in K && p < x && x[|p|] == e
  {
    x :| x in K && p + [e] <= x;
    assert x[|p|] == (p + [e])[|p|] && x[..|p|] == (p + [e])[..|p|] == p;
  }

  /** `p` lies strictly inside an edge, and `e` is the next byte of that edge. */
  predicate OnEdge(K: set<Key>, p: Key, e: Byte) {
    !IsNode(K, p) && Reaches(K, p + [e])
  }

  lemma EdgeByteUnique(K: set<Key>, p: Key, e: Byte, f: Byte)
    requires OnEdge(K, p, e) && Reaches(K, p + [f])
    ensures e == f
  {
  }

  lemma EdgeBytesUnique(K: set<Key>, p: Key)
    ensures forall e, f :: OnEdge(K, p, e) && OnEdge(K, p, f) ==> e == f
  {
  }

  // ---------- where append lands ----------

  /** The path reached from `p` by the rest of `k`: existing bytes are followed exactly where the
      trie has them, up to letter case inside an edge, and the rest of `k` is taken over as it is. */
  function Landing(K: set<Key>, k: Key, p: Key): (t: Key)
    requires |p| <= |k|
    ensures |t| == |k| && p <= t
    decreases |k| - |p|
  {
    if |p| == |k| then p
    else if Reaches(K, p + [k[|p|]]) then Landing(K, k, p + [k[|p|]])
    else if exists e :: OnEdge(K, p, e) && Fold(e) == Fold(k[|p|]) then
      EdgeBytesUnique(K, p);
      var e :| OnEdge(K, p, e) && Fold(e) == Fold(k[|p|]);
      Landing(K, k, p + [e])
    else p + k[|p|..]
  }

  /** A byte that the trie has is followed. */
  lemma LandingReaches(K: set<Key>, k: Key, p: Key)
    requires |p| < |k| && Reaches(K, p + [k[|p|]])
    ensures Landing(K, k, p) == Landing(K, k, p + [k[|p|]])
  {
  }

  /** Inside an edge the next byte is followed if it agrees up to case; otherwise the edge is left. */
  lemma LandingOnEdge(K: set<Key>, k: Key, p: Key, e: Byte)
    requires |p| < |k| && OnEdge(K, p, e)
    ensures Fold(e) == Fold(k[|p|]) ==> Landing(K, k, p) == Landing(K, k, p + [e])
    ensures Fold(e) != Fold(k[|p|]) ==> Landing(K, k, p) == p + k[|p|..]
  {
    forall f | Reaches(K, p + [f])
      ensures f == e
    {
      EdgeByteUnique(K, p, e, f);
    }
    if Fold(e) == Fold(k[|p|]) && e != k[|p|] {
      assert exists e :: OnEdge(K, p, e) && Fold(e) == Fold(k[|p|]);
    }
  }

  /** Strictly inside an edge after `k[..L]`, the edge goes on with the other letter case of `k[L]`. */
  ghost predicate ClashAt(K: set<Key>, k: Key, L: nat) {
    && L < |k|
    && exists e :: e != k[L] && Fold(e) == Fold(k[L]) && OnEdge(K, k[..L], e)
  }

  ghost predicate CaseClash(K: set<Key>, k: Key) {
    exists L: nat :: ClashAt(K, k, L)
  }

  /** Append lands at the appended key exactly when no edge on its way differs from it in case. */
  lemma LandingExact(K: set<Key>, k: Key)
    ensures Landing(K, k, []) == k <==> !CaseClash(K, k)
  {
    LandingExactFrom(K, k, []);
    assert k[..0] == [];
  }

  lemma {:induction false} LandingExactFrom(K: set<Key>, k: Key, p: Key)
    requires p <= k
    ensures Landing(K, k, p) == k <==> forall L: nat :: |p| <= L ==> !ClashAt(K, k, L)
    decreases |k| - |p|
  {
    if |p| < |k| {
      var i := |p|;
      var c := k[i];
      assert k[..i] == p && k[..i+1] == p + [c];
      forall L: nat | i < L && ClashAt(K, k, L)
        ensures Reaches(K, p + [c])
      {
        var e :| e != k[L] && Fold(e) == Fold(k[L]) && OnEdge(K, k[..L], e);
        var x := ReachesByte(K, k[..L], e);
        assert p + [c] == k[..L][..i+1] == x[..i+1];
      }
      if Reaches(K, p + [c]) {
        LandingExactFrom(K, k, p + [c]);
        if ClashAt(K, k, i) {
          var e :| e != c && Fold(e) == Fold(c) && OnEdge(K, p, e);
          EdgeByteUnique(K, p, e, c);
        }
      } else if exists e :: OnEdge(K, p, e) && Fold(e) == Fold(c) {
        var e :| OnEdge(K, p, e) && Fold(e) == Fold(c);
        LandingOnEdge(K, k, p, e);
        assert ClashAt(K, k, i);
        assert Landing(K, k, p)[i] == (p + [e])[i];
      }
    }
  }

  /** As long as the trie has the bytes of `k`, the walk follows them exactly. */
  lemma {:induction false} LandingFollows(K: set<Key>, k: Key, n: nat)
    requires n <= |k| && (n == 0 || Reaches(K, k[..n]))
    ensures Landing(K, k, []) == Landing(K, k, k[..n])
  {
    if n == 0 {
      assert k[..0] == [];
    } else {
      var x :| x in K && k[..n] <= x;
      assert k[..n-1] <= x by {
        assert k[..n-1] == k[..n][..n-1] == x[..n-1];
      }
      LandingFollows(K, k, n - 1);
      assert k[..n-1] + [k[n-1]] == k[..n];
    }
  }

  /** A stored key lands at itself. */
  lemma StoredNeverClashes(K: set<Key>, k: Key)
    requires k in K
    ensures Landing(K, k, []) == k
  {
    assert k[..|k|] == k && Reaches(K, k);
    LandingFollows(K, k, |k|);
  }

  /** Along a stored key the walk goes straight to it. */
  lemma {:induction false} LandingStraight(K: set<Key>, k: Key, p: Key)
    requires |p| <= |k| && p + k[|p|..] in K
    ensures Landing(K, k, p) == p + k[|p|..]
    decreases |k| - |p|
  {
    if |p| < |k| {
      var q := p + [k[|p|]];
      assert q + k[|q|..] == p + k[|p|..] && q <= p + k[|p|..];
      LandingStraight(K, k, q);
    }
  }

  /** Once a key has landed it lands there again. */
  lemma {:induction false} LandingAgain(K: set<Key>, k: Key, p: Key)
    requires |p| <= |k|
    ensures Landing(K + {Landing(K, k, p)}, k, p) == Landing(K, k, p)
    decreases |k| - |p|
  {
    var t := Landing(K, k, p);
    var K' := K + {t};
    if |p| < |k| {
      if Reaches(K, p + [k[|p|]]) {
        assert Reaches(K', p + [k[|p|]]);
        LandingAgain(K, k, p + [k[|p|]]);
      } else if exists e :: OnEdge(K, p, e) && Fold(e) == Fold(k[|p|]) {
        var e :| OnEdge(K, p, e) && Fold(e) == Fold(k[|p|]);
        LandingOnEdge(K, k, p, e);
        EdgeKept(K, p, e, t);
        LandingOnEdge(K', k, p, e);
        LandingAgain(K, k, p + [e]);
      } else {
        LandingStraight(K', k, p);
      }
    }
  }

  /** A new key through an edge leaves the edge as it is up to there. */
  lemma EdgeKept(K: set<Key>, p: Key, e: Byte, t: Key)
    requires OnEdge(K, p, e) && p + [e] <= t
    ensures OnEdge(K + {t}, p, e)
  {
    var K' := K + {t};
    assert t[|p|] == (p + [e])[|p|] && p < t;
    var x := ReachesByte(K, p, e);
    forall y | y in K' && p < y
      ensures y[|p|] == e
    {
      assert y in K ==> x[|p|] == y[|p|] || BranchBy(p, x, y);
    }
    var z :| z in K && p + [e] <= z;
    assert z in K';
  }

  /** Appending the same key again meets the same clash. */
  lemma ClashPersists(K: set<Key>, k: Key)
    requires Landing(K, k, []) != k
    ensures Landing(K + {Landing(K, k, [])}, k, []) != k
  {
    LandingAgain(K, k, []);
  }

  /** Whatever the case clash, the landing agrees with the key up to letter case. */
  lemma {:induction false} LandingFolds(K: set<Key>, k: Key, p: Key)
    requires |p| <= |k|
    requires forall i :: 0 <= i < |p| ==> Fold(p[i]) == Fold(k[i])
    ensures forall i :: 0 <= i < |k| ==> Fold(Landing(K, k, p)[i]) == Fold(k[i])
    decreases |k| - |p|
  {
    hide IsNode, Reaches;
    if |p| < |k| {
      if Reaches(K, p + [k[|p|]]) {
        LandingFolds(K, k, p + [k[|p|]]);
      } else if exists e :: OnEdge(K, p, e) && Fold(e) == Fold(k[|p|]) {
        var e :| OnEdge(K, p, e) && Fold(e) == Fold(k[|p|]);
        LandingOnEdge(K, k, p, e);
        LandingFolds(K, k, p + [e]);
      }
    }
  }

  ghost predicate SameUpToCase(s: Key, t: Key) {
    |s| == |t| && forall i :: 0 <= i < |s| ==> Fold(s[i]) == Fold(t[i])
  }

  lemma LandingUpToCase(K: set<Key>, k: Key)
    ensures SameUpToCase(Landing(K, k, []), k)
  {
    LandingFolds(K, k, []);
  }

  /** Keys without upper-case letters never clash. */
  ghost predicate FoldFree(k: Key) {
    forall i :: 0 <= i < |k| ==> Fold(k[i]) == k[i]
  }

  lemma FoldFreeNeverClashes(K: set<Key>, k: Key)
    requires FoldFree(k) && forall x :: x in K ==> FoldFree(x)
    ensures !CaseClash(K, k)
  {
    if CaseClash(K, k) {
      var L: nat :| ClashAt(K, k, L);
      var e :| e != k[L] && Fold(e) == Fold(k[L]) && OnEdge(K, k[..L], e);
      var x := ReachesByte(K, k[..L], e);
    }
  }

  lemma PrefixesComparable(a: Key, b: Key, t: Key)
    requires a <= t && b <= t
    ensures |a| <= |b| ==> a <= b
    ensures |a| < |b| ==> a < b
    ensures |a| == |b| ==> a == b
  {
  }

  // ---------- what lookup resolves ----------

  /** Position `j` of `p` lies on the last edge of the path to `p`. */
  predicate OnLastEdge(K: set<Key>, p: Key, j: nat) {
    j < |p| && forall n: nat :: j < n < |p| ==> !IsNode(K, p[..n])
  }

  /** Lookup compares byte `n` of the path: it starts an edge, or lies on the last one. */
  predicate Compared(K: set<Key>, p: Key, n: nat)
    requires n < |p|
  {
    IsNode(K, p[..n]) || OnLastEdge(K, p, n)
  }

  /** `s` agrees with `p` in length, at the start of every edge, and on all of the last edge. */
  predicate Resolves(K: set<Key>, s: Key, p: Key) {
    IsNode(K, p) && |p| == |s| && forall n: nat :: n < |p| && Compared(K, p, n) ==> s[n] == p[n]
  }

  lemma LastEdgeNodes(K: set<Key>, p: Key, j: nat)
    ensures OnLastEdge(K, p, j) <==> j < |p| && forall y :: IsNode(K, y) && y < p ==> |y| <= j
  {
    hide IsNode;
    if OnLastEdge(K, p, j) {
      forall y | IsNode(K, y) && y < p
        ensures |y| <= j
      {
        assert y == p[..|y|];
      }
    }
    if j < |p| && forall y :: IsNode(K, y) && y < p ==> |y| <= j {
      forall n: nat | j < n < |p|
        ensures !IsNode(K, p[..n])
      {
        assert p[..n] < p;
      }
    }
  }

  /** The same in terms of the nodes above `p`. */
  lemma ResolvesAtNodes(K: set<Key>, s: Key, p: Key)
    ensures Resolves(K, s, p) <==>
      && IsNode(K, p) && |p| == |s|
      && (forall y :: IsNode(K, y) && y < p ==> s[|y|] == p[|y|])
      && (forall j: nat :: OnLastEdge(K, p, j) ==> s[j] == p[j])
  {
    hide IsNode;
    if Resolves(K, s, p) {
      forall y | IsNode(K, y) && y < p
        ensures s[|y|] == p[|y|]
      {
        assert y == p[..|y|] && Compared(K, p, |y|);
      }
      forall j: nat | OnLastEdge(K, p, j)
        ensures s[j] == p[j]
      {
        assert Compared(K, p, j);
      }
    }
    assert forall n: nat :: n < |p| ==> p[..n] < p;
  }

  lemma StoredResolvesToItself(K: set<Key>, s: Key)
    requires s in K
    ensures Resolves(K, s, s)
  {
  }

  /** Where two nodes part there is a node. */
  lemma PartingNode(K: set<Key>, p: Key, q: Key) returns (y: Key)
    requires IsNode(K, p) && IsNode(K, q) && p != q && |p| == |q|
    ensures IsNode(K, y) && y < p && y < q && p[|y|] != q[|y|]
  {
    var i := CommonPrefix(p, q);
    y := p[..i];
    assert p[..|p|] == p && q[..|q|] == q;
    NodeReaches(K, p);
    NodeReaches(K, q);
    var u :| u in K && p <= u;
    var v :| v in K && q <= v;
    assert BranchBy(y, u, v);
  }

  lemma ResolvesUnique(K: set<Key>, s: Key, p: Key, q: Key)
    requires Resolves(K, s, p) && Resolves(K, s, q)
    ensures p == q
  {
    hide IsNode, Resolves;
    ResolvesAtNodes(K, s, p);
    ResolvesAtNodes(K, s, q);
    if p != q {
      var y := PartingNode(K, p, q);
    }
  }

  // ---------- the dictionary as a function of its contents ----------

  function AppendSpec<V>(m: map<Key, seq<V>>, k: Key, v: V): map<Key, seq<V>> {
    var t := Landing(m.Keys, k, []);
    m[t := ListAt(m, t) + [v]]
  }

  /** The list under `k`, empty if there is none. */
  function ListAt<V>(m: map<Key, seq<V>>, k: Key): seq<V> {
    if k in m then m[k] else []
  }

  /** Several values appended under one key. */
  ghost function AppendAll<V>(m: map<Key, seq<V>>, k: Key, vs: seq<V>): map<Key, seq<V>> {
    var t := Landing(m.Keys, k, []);
    m[t := ListAt(m, t) + vs]
  }

  /** They all land together. */
  lemma {:induction false} AppendMore<V>(m: map<Key, seq<V>>, k: Key, vs: seq<V>, v: V)
    ensures AppendSpec(AppendAll(m, k, vs), k, v) == AppendAll(m, k, vs + [v])
    ensures AppendSpec(m, k, v) == AppendAll(m, k, [v])
  {
    var t := Landing(m.Keys, k, []);
    LandingAgain(m.Keys, k, []);
    hide Landing;
    assert AppendAll(m, k, vs).Keys == m.Keys + {t};
    assert ListAt(m, t) + vs + [v] == ListAt(m, t) + (vs + [v]);
  }

  /** The stored key that lookup takes `s` for. */
  function FindKey(K: set<Key>, s: Key): (r: Option<Key>)
    ensures r.Some? ==> r.value in K && Resolves(K, s, r.value)
    ensures r == None ==> forall p :: p in K ==> !Resolves(K, s, p)
  {
    AllResolvedEqual(K, s);
    if exists p :: p in K && Resolves(K, s, p) then
      var p :| p in K && Resolves(K, s, p);
      Some(p)
    else None
  }

  lemma AllResolvedEqual(K: set<Key>, s: Key)
    ensures forall p, q :: Resolves(K, s, p) && Resolves(K, s, q) ==> p == q
  {
    forall p, q | Resolves(K, s, p) && Resolves(K, s, q)
      ensures p == q
    {
      ResolvesUnique(K, s, p, q);
    }
  }

  function GetSpec<V>(m: map<Key, seq<V>>, s: Key): Option<seq<V>> {
    match FindKey(m.Keys, s)
    case None => None
    case Some(p) => Some(m[p])
  }

  /** The edge-comparing lookup. */
  ghost function GetExact<V>(m: map<Key, seq<V>>, s: Key): Option<seq<V>> {
    if s in m then Some(m[s]) else None
  }

  ghost predicate LaxClash(K: set<Key>, s: Key) {
    exists p :: p in K && p != s && Resolves(K, s, p)
  }

  /** A string is found under its own key exactly if that is stored, unless it resolves to another key. */
  lemma FindKeyIff(K: set<Key>, s: Key)
    ensures FindKey(K, s) == (if s in K then Some(s) else None) <==> !LaxClash(K, s)
    ensures s in K ==> FindKey(K, s) == Some(s) && !LaxClash(K, s)
  {
    AllResolvedEqual(K, s);
    if s in K {
      StoredResolvesToItself(K, s);
    }
  }

  /** The lax lookup is right exactly when the string does not resolve to another key. */
  lemma {:induction false} GetExactIff<V>(m: map<Key, seq<V>>, s: Key)
    ensures GetSpec(m, s) == GetExact(m, s) <==> !LaxClash(m.Keys, s)
    ensures s in m ==> GetSpec(m, s) == Some(m[s])
  {
    FindKeyIff(m.Keys, s);
  }

  /** Append is map insertion exactly when there is no case clash. */
  lemma {:induction false} AppendExactIff<V>(m: map<Key, seq<V>>, k: Key, v: V)
    ensures AppendSpec(m, k, v) == m[k := (if k in m then m[k] else []) + [v]] <==> !CaseClash(m.Keys, k)
  {
    LandingExact(m.Keys, k);
    var t := Landing(m.Keys, k, []);
    var was := if k in m then m[k] else [];
    var m' := m[k := was + [v]];
    if t != k {
      assert AppendSpec(m, k, v)[t] != (if t in m then m[t] else []);
      assert t in m' ==> m'[t] == m[t];
      assert AppendSpec(m, k, v) != m';
    }
  }
}
