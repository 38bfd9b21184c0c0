/** When a trie behaves as a map, whatever of a set of keys it already holds. */
module Agreement {
  import opened Keys
  import opened TrieSpec
  import opened Wrappers

  // ---------- separable sets ----------

  /** After a common non-empty prefix the two keys go on with the two cases of one letter. */
  ghost predicate CaseTwins(x: Key, s: Key) {
    exists n: nat :: TwinsAt(x, s, n)
  }

  ghost predicate TwinsAt(x: Key, s: Key, n: nat) {
    0 < n < |x| && n < |s| && x[..n] == s[..n] && x[n] != s[n] && Fold(x[n]) == Fold(s[n])
  }

  /** Equal in length, in the first byte, and from `n` on; before `n` they differ. */
  ghost predicate SameEnds(p: Key, s: Key, n: nat) {
    |p| == |s| && p != s && 0 < n < |p| && p[0] == s[0] && p[n..] == s[n..]
  }

  /** `q` makes a node after the first `n` bytes of `p`, so that lookup takes `s` for `p`. */
  ghost predicate Shadows(p: Key, s: Key, q: Key, n: nat) {
    SameEnds(p, s, n) && (q == p[..n] || BranchBy(p[..n], p, q))
  }

  /** No two keys are case twins, and none shadows another. */
  ghost predicate Separable(T: set<Key>) {
    && (forall x, s :: x in T && s in T ==> !CaseTwins(x, s))
    && (forall p, s, q, n: nat :: p in T && s in T && q in T ==> !Shadows(p, s, q, n))
  }

  // ---------- case clashes ----------

  lemma ClashMakesTwins(K: set<Key>, s: Key) returns (x: Key)
    requires CaseClash(K, s)
    ensures x in K && CaseTwins(x, s)
  {
    var L: nat :| ClashAt(K, s, L);
    var e :| e != s[L] && Fold(e) == Fold(s[L]) && OnEdge(K, s[..L], e);
    x := ReachesByte(K, s[..L], e);
    assert x[..L] == s[..L] && s[..0] == [];
    assert TwinsAt(x, s, L);
  }

  lemma TwinsClash(x: Key, s: Key)
    requires CaseTwins(x, s)
    ensures CaseClash({x}, s)
  {
    var n: nat :| TwinsAt(x, s, n);
    var e := x[n];
    assert s[..n] + [e] == x[..n + 1] <= x;
    assert Reaches({x}, s[..n] + [e]);
    assert !IsNode({x}, s[..n]);
    assert OnEdge({x}, s[..n], e);
    assert ClashAt({x}, s, n);
  }

  // ---------- lax lookups ----------

  /** A string taken for a key agrees with it from the last edge on. */
  lemma SameTail(K: set<Key>, s: Key, p: Key, y: Key)
    requires Resolves(K, s, p) && IsNode(K, y) && y < p && forall z :: IsNode(K, z) && z < p ==> |z| <= |y|
    ensures |p| == |s| && p[|y|..] == s[|y|..]
  {
    hide IsNode, Resolves;
    ResolvesAtNodes(K, s, p);
    forall j: nat | |y| <= j < |p|
      ensures s[j] == p[j]
    {
      LastEdgeNodes(K, p, j);
    }
  }

  /** and in its first byte. */
  lemma SameHead(K: set<Key>, s: Key, p: Key)
    requires Resolves(K, s, p) && p != []
    ensures s != [] && p[0] == s[0]
  {
    hide Resolves;
    ResolvesAtNodes(K, s, p);
    assert IsNode(K, []) && [] < p;
  }

  /** A key taken for another is shadowed. */
  lemma LaxClashMakesShadow(K: set<Key>, s: Key) returns (p: Key, q: Key, n: nat)
    requires LaxClash(K, s)
    ensures p in K && q in K && Shadows(p, s, q, n)
  {
    p :| p in K && p != s && Resolves(K, s, p);
    hide Resolves, IsNode;
    SameLength(K, s, p);
    var y := LastEdgeStart(K, p);
    n := |y|;
    SameTail(K, s, p, y);
    SameHead(K, s, p);
    assert y == p[..n] && p[0..] == p && s[0..] == s;
    q := Witness(K, p, y);
  }

  lemma SameLength(K: set<Key>, s: Key, p: Key)
    requires Resolves(K, s, p)
    ensures |p| == |s|
  {
  }

  /** Where the last edge to `p` starts. */
  lemma LastEdgeStart(K: set<Key>, p: Key) returns (y: Key)
    requires p != []
    ensures IsNode(K, y) && y < p && forall z :: IsNode(K, z) && z < p ==> |z| <= |y|
  {
    var n := |p| - 1;
    assert p[..0] == [];
    while !IsNode(K, p[..n])
      invariant n < |p| && forall z :: IsNode(K, z) && z < p ==> |z| <= n
      decreases n
    {
      forall z | IsNode(K, z) && z < p
        ensures |z| <= n - 1
      {
        PrefixesComparable(z, p[..n], p);
      }
      n := n - 1;
    }
    y := p[..n];
  }

  /** The key that makes a node above `p`. */
  lemma Witness(K: set<Key>, p: Key, y: Key) returns (q: Key)
    requires IsNode(K, y) && y < p && y != []
    ensures q in K && (q == y || BranchBy(y, p, q))
  {
    if y in K {
      q := y;
    } else {
      var u, v :| u in K && v in K && BranchBy(y, u, v);
      q := if u[|y|] != p[|y|] then u else v;
    }
  }

  /** A shadowed key is taken for another once the two other keys are stored. */
  lemma ShadowClashes(p: Key, s: Key, q: Key, n: nat)
    requires Shadows(p, s, q, n)
    ensures Resolves({p, q}, s, p) && LaxClash({p, q}, s)
  {
  }

  // ---------- agreement ----------

  /** Every trie over keys of `T` treats the keys of `T` as a map would exactly when `T` is separable. */
  lemma AgreementIff(T: set<Key>)
    ensures Separable(T) <==> forall K, s :: K <= T && s in T ==> !CaseClash(K, s) && !LaxClash(K, s)
  {
    hide CaseTwins, Shadows, CaseClash, LaxClash;
    forall K: set<Key>, s | Separable(T) && K <= T && s in T
      ensures !CaseClash(K, s) && !LaxClash(K, s)
    {
      if CaseClash(K, s) {
        var x := ClashMakesTwins(K, s);
      }
      if LaxClash(K, s) {
        var p, q, n := LaxClashMakesShadow(K, s);
      }
    }
    if forall K, s :: K <= T && s in T ==> !CaseClash(K, s) && !LaxClash(K, s) {
      forall x, s | x in T && s in T
        ensures !CaseTwins(x, s)
      {
        if CaseTwins(x, s) {
          TwinsClash(x, s);
        }
      }
      forall p, s, q, n: nat | p in T && s in T && q in T
        ensures !Shadows(p, s, q, n)
      {
        if Shadows(p, s, q, n) {
          ShadowClashes(p, s, q, n);
        }
      }
    }
  }

  /** Then a lookup finds exactly what is stored, and an append lands where it says. */
  lemma SeparableIsExact(T: set<Key>, K: set<Key>, s: Key)
    requires Separable(T) && K <= T && s in T
    ensures FindKey(K, s) == (if s in K then Some(s) else None) && !CaseClash(K, s) && Landing(K, s, []) == s
  {
    hide Separable, Landing, CaseClash, FindKey, LaxClash;
    AgreementIff(T);
    LandingExact(K, s);
    FindKeyIff(K, s);
  }

  /** Lookups and appends are those of a map. */
  lemma {:induction false} SeparableIsMap<V>(T: set<Key>, m: map<Key, seq<V>>, s: Key, v: V)
    requires Separable(T) && m.Keys <= T && s in T
    ensures GetSpec(m, s) == GetExact(m, s)
    ensures AppendSpec(m, s, v) == m[s := (if s in m then m[s] else []) + [v]]
  {
    hide Separable;
    AgreementIff(T);
    GetExactIff(m, s);
    AppendExactIff(m, s, v);
  }
}
