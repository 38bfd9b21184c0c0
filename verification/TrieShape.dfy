/** The shape of a radix trie on values: a set of path labels linked by (path, slot) pairs. */
module TrieShape {
  import opened Keys
  import opened TrieSpec

  type Links = map<(Key, nat), Key>

  /** A link leads one edge down, into the slot of the edge's first byte. */
  ghost predicate Down(N: set<Key>, kids: Links, l: (Key, nat))
    requires l in kids
  {
    && l.0 in N && kids[l] in N
    && l.0 < kids[l] && Slot(kids[l][|l.0|]) == l.1
  }

  ghost predicate LinksDown(N: set<Key>, kids: Links) {
    forall l {:trigger Down(N, kids, l)} :: l in kids ==> Down(N, kids, l)
  }

  /** From `p` the link on the way to `x` exists and does not overshoot `x`. */
  ghost predicate Toward(kids: Links, p: Key, x: Key)
    requires p < x
  {
    var l := (p, Slot(x[|p|]));
    l in kids && kids[l] <= x
  }

  ghost predicate Connected(N: set<Key>, kids: Links) {
    forall p, x {:trigger Toward(kids, p, x)} :: p in N && x in N && p < x ==> Toward(kids, p, x)
  }

  ghost predicate WellLinked(N: set<Key>, kids: Links) {
    [] in N && LinksDown(N, kids) && Connected(N, kids)
  }

  /** There is an edge from `p` to `q`. */
  ghost predicate Edge(kids: Links, p: Key, q: Key) {
    p < q && (p, Slot(q[|p|])) in kids && kids[(p, Slot(q[|p|]))] == q
  }

  lemma LinkIsEdge(N: set<Key>, kids: Links, l: (Key, nat))
    requires LinksDown(N, kids) && l in kids
    ensures Edge(kids, l.0, kids[l]) && l.1 == Slot(kids[l][|l.0|])
    ensures l.0 in N && kids[l] in N
  {
    assert Down(N, kids, l);
  }

  lemma EdgeNodes(N: set<Key>, kids: Links, p: Key, q: Key)
    requires LinksDown(N, kids) && Edge(kids, p, q)
    ensures p in N && q in N
  {
    assert Down(N, kids, (p, Slot(q[|p|])));
  }

  lemma LinksInside(N: set<Key>, kids: Links)
    requires LinksDown(N, kids)
    ensures forall l :: l in kids ==> l.0 in N && kids[l] in N
  {
    forall l | l in kids
      ensures l.0 in N && kids[l] in N
    {
      assert Down(N, kids, l);
    }
  }

  /** From a node, the edge towards any node below it. */
  lemma EdgeToward(N: set<Key>, kids: Links, p: Key, x: Key) returns (q: Key)
    requires WellLinked(N, kids) && p in N && x in N && p < x
    ensures Edge(kids, p, q) && q in N && q <= x && q[|p|] == x[|p|]
  {
    assert Toward(kids, p, x);
    LinkIsEdge(N, kids, (p, Slot(x[|p|])));
    q := kids[(p, Slot(x[|p|]))];
  }

  /** An unused slot means that no path goes that way. */
  lemma NothingThere(N: set<Key>, kids: Links, p: Key, t: Key)
    requires WellLinked(N, kids) && p in N && p < t && (p, Slot(t[|p|])) !in kids
    ensures forall x :: x in N && p < x ==> x[|p|] != t[|p|]
    ensures t !in N
  {
    forall x | x in N && p < x
      ensures x[|p|] != t[|p|]
    {
      assert Toward(kids, p, x);
    }
  }

  lemma AddLeaf(N: set<Key>, kids: Links, p: Key, t: Key)
    requires WellLinked(N, kids) && p in N && p < t && (p, Slot(t[|p|])) !in kids
    ensures WellLinked(N + {t}, kids[(p, Slot(t[|p|])) := t])
  {
    NothingThere(N, kids, p, t);
    var N', kids' := N + {t}, kids[(p, Slot(t[|p|])) := t];
    forall l | l in kids'
      ensures Down(N', kids', l)
    {
      assert l in kids ==> Down(N, kids, l);
    }
    forall y, x | y in N' && x in N' && y < x
      ensures Toward(kids', y, x)
    {
      if x == t {
        PrefixesComparable(y, p, t);
        PrefixesComparable(p, y, t);
        assert y != p ==> Toward(kids, y, p);
      } else if y != t {
        assert Toward(kids, y, x);
      }
    }
  }

  /** Every node beyond the first byte of an edge lies at or below the end of the edge. */
  lemma BeyondEdge(N: set<Key>, kids: Links, p: Key, q: Key, x: Key)
    requires WellLinked(N, kids) && Edge(kids, p, q)
    requires x in N && p < x && x[|p|] == q[|p|]
    ensures q <= x
  {
    EdgeNodes(N, kids, p, q);
    assert Toward(kids, p, x);
  }

  /** Only one edge ends at a node. */
  lemma OneParent(N: set<Key>, kids: Links, p: Key, p': Key, q: Key)
    requires WellLinked(N, kids) && Edge(kids, p, q) && Edge(kids, p', q)
    ensures p == p'
  {
    EdgeNodes(N, kids, p, q);
    EdgeNodes(N, kids, p', q);
    PrefixesComparable(p, p', q);
    PrefixesComparable(p', p, q);
    assert p < p' ==> Toward(kids, p, p');
    assert p' < p ==> Toward(kids, p', p);
  }

  /** Splitting the edge from `p` to `q` at `m` re-hangs `q` below `m`. */
  lemma AddMiddle(N: set<Key>, kids: Links, p: Key, q: Key, m: Key)
    requires WellLinked(N, kids) && Edge(kids, p, q) && p < m < q
    ensures m !in N
    ensures WellLinked(N + {m}, kids[(p, Slot(q[|p|])) := m][(m, Slot(q[|m|])) := q])
  {
    var N', kids' := N + {m}, kids[(p, Slot(q[|p|])) := m][(m, Slot(q[|m|])) := q];
    EdgeNodes(N, kids, p, q);
    assert m[|p|] == q[|p|];
    assert m in N ==> Toward(kids, p, m);
    forall l | l in kids'
      ensures Down(N', kids', l)
    {
      assert l in kids ==> Down(N, kids, l);
    }
    forall y, x | y in N' && x in N' && y < x
      ensures Toward(kids', y, x)
    {
      if x == m {
        PrefixesComparable(y, p, m);
        PrefixesComparable(p, y, m);
        assert y == p || y < p || p < y;
        assert y < p ==> Toward(kids, y, p);
        assert p < y ==> Toward(kids, p, y);
      } else if y == m {
        assert x[|p|] == m[|p|];
        BeyondEdge(N, kids, p, q, x);
      } else {
        assert Toward(kids, y, x);
        assert y == p && x[|p|] == q[|p|] ==> q <= x;
      }
    }
  }

  /** The deepest node on the way to `x`. */
  lemma {:induction false} Deepest(N: set<Key>, x: Key) returns (p: Key)
    requires [] in N
    ensures p in N && p <= x
    ensures forall y :: y in N && y <= x ==> y <= p
    decreases |x|
  {
    if x in N {
      p := x;
    } else {
      p := Deepest(N, x[..|x|-1]);
      forall y | y in N && y <= x
        ensures y <= x[..|x|-1]
      {
        PrefixesComparable(y, x, x);
        PrefixesComparable(y, x[..|x|-1], x);
      }
    }
  }

  /** Paths that part at `x` force a node at `x`. */
  lemma MeetClosed(N: set<Key>, kids: Links, x: Key, u: Key, v: Key)
    requires WellLinked(N, kids) && u in N && v in N && BranchBy(x, u, v)
    ensures x in N
  {
    var p := Deepest(N, x);
    if p != x {
      assert p < u && p < v && u[|p|] == x[|p|] == v[|p|];
      var q := EdgeToward(N, kids, p, u);
      BeyondEdge(N, kids, p, q, v);
      PrefixesComparable(q, x, u);
      PrefixesComparable(x, q, u);
    }
  }

  /** A well-linked trie whose nodes all have a reason to exist is the canonical trie of its keys. */
  lemma Canonical(N: set<Key>, kids: Links, K: set<Key>)
    requires WellLinked(N, kids) && K <= N
    requires forall p :: p in N ==> IsNode(K, p)
    ensures forall p :: p in N <==> IsNode(K, p)
  {
    forall p | IsNode(K, p)
      ensures p in N
    {
      if Branch(K, p) {
        var u, v :| u in K && v in K && BranchBy(p, u, v);
        MeetClosed(N, kids, p, u, v);
      }
    }
  }

  /** The edge that ends at a node comes from the deepest node above it. */
  lemma Parent(N: set<Key>, kids: Links, x: Key) returns (p: Key)
    requires WellLinked(N, kids) && x in N && x != []
    ensures p in N && Edge(kids, p, x)
    ensures forall y :: y in N && y < x ==> y <= p
  {
    p := Deepest(N, x[..|x|-1]);
    var q := EdgeToward(N, kids, p, x);
    assert q == x[..|q|] && x == x[..|x|];
    forall y | y in N && y < x
      ensures y <= p
    {
      assert y == x[..|x|-1][..|y|];
    }
  }

  /** Links are determined by the node set. */
  lemma LinksDetermined(N: set<Key>, kids: Links, kids': Links)
    requires WellLinked(N, kids) && WellLinked(N, kids')
    ensures kids == kids'
  {
    LinksIncluded(N, kids, kids');
    LinksIncluded(N, kids', kids);
  }

  lemma LinksIncluded(N: set<Key>, kids: Links, kids': Links)
    requires WellLinked(N, kids) && WellLinked(N, kids')
    ensures forall l :: l in kids ==> l in kids' && kids'[l] == kids[l]
  {
    forall l | l in kids
      ensures l in kids' && kids'[l] == kids[l]
    {
      var q := kids[l];
      LinkIsEdge(N, kids, l);
      var q' := EdgeToward(N, kids', l.0, q);
      BeyondEdge(N, kids, l.0, q, q');
    }
  }

  // ---------- walking an edge ----------

  lemma PrefixReaches(K: set<Key>, q: Key, n: nat)
    requires IsNode(K, q) && n < |q|
    ensures Reaches(K, q[..n] + [q[n]])
  {
  }

  /** Strictly inside the edge from `p` to `q`. */
  lemma InsideEdge(N: set<Key>, kids: Links, K: set<Key>, p: Key, q: Key, n: nat)
    requires WellLinked(N, kids) && K <= N && (forall y :: y in N ==> IsNode(K, y))
    requires Edge(kids, p, q) && |p| < n < |q|
    ensures OnEdge(K, q[..n], q[n])
  {
    EdgeNodes(N, kids, p, q);
    PrefixReaches(K, q, n);
    assert q[..n] in N ==> Toward(kids, p, q[..n]);
    Canonical(N, kids, K);
  }

  /** Following bytes of an edge that agree up to case does not change the landing. */
  lemma {:induction false} LandingAlongEdge(N: set<Key>, kids: Links, K: set<Key>, p: Key, q: Key, k: Key, n: nat)
    requires WellLinked(N, kids) && K <= N && (forall y :: y in N ==> IsNode(K, y))
    requires Edge(kids, p, q) && |p| < n <= |q| && n <= |k|
    requires q[|p|] == k[|p|] && forall i :: |p| < i < n ==> Fold(q[i]) == Fold(k[i])
    ensures Landing(K, k, p) == Landing(K, k, q[..n])
    decreases n
  {
    hide Landing, IsNode, OnEdge, Reaches, Fold;
    if n == |p| + 1 {
      EdgeNodes(N, kids, p, q);
      PrefixReaches(K, q, |p|);
      assert q[..n] == p + [k[|p|]];
      LandingReaches(K, k, p);
    } else {
      LandingAlongEdge(N, kids, K, p, q, k, n - 1);
      InsideEdge(N, kids, K, p, q, n - 1);
      LandingOnEdge(K, k, q[..n-1], q[n-1]);
      assert q[..n] == q[..n-1] + [q[n-1]];
    }
  }

  lemma ReachedSlot(N: set<Key>, kids: Links, K: set<Key>, p: Key, c: Byte)
    requires WellLinked(N, kids) && K <= N && p in N && Reaches(K, p + [c])
    ensures (p, Slot(c)) in kids
  {
    var x := ReachesByte(K, p, c);
    assert Toward(kids, p, x);
  }

  /** At a node without a child for the next byte, the rest of the key is taken over as it is. */
  lemma LandingLeaves(N: set<Key>, kids: Links, K: set<Key>, p: Key, k: Key)
    requires WellLinked(N, kids) && K <= N && IsNode(K, p) && p in N
    requires |p| < |k| && (p, Slot(k[|p|])) !in kids
    ensures Landing(K, k, p) == p + k[|p|..]
  {
    if Reaches(K, p + [k[|p|]]) {
      ReachedSlot(N, kids, K, p, k[|p|]);
    }
  }

  /** What matching `j` bytes of an edge, and no more, says about the landing. */
  lemma LandingAfterMatch(N: set<Key>, kids: Links, K: set<Key>, p: Key, q: Key, k: Key, j: nat)
    requires WellLinked(N, kids) && K <= N && (forall y :: y in N ==> IsNode(K, y))
    requires Edge(kids, p, q) && 0 < j <= |q| - |p| && |p| + j <= |k|
    requires q[|p|] == k[|p|] && forall i :: |p| < i < |p| + j ==> Fold(q[i]) == Fold(k[i])
    requires j < |q| - |p| && |p| + j < |k| ==> Fold(q[|p| + j]) != Fold(k[|p| + j])
    ensures j == |q| - |p| ==> Landing(K, k, p) == Landing(K, k, q)
    ensures j < |q| - |p| ==> Landing(K, k, p) == q[..|p| + j] + k[|p| + j..]
  {
    hide Landing, IsNode, OnEdge, Reaches, WellLinked, Edge, Fold;
    var n := |p| + j;
    LandingAlongEdge(N, kids, K, p, q, k, n);
    if n == |q| {
      assert q[..n] == q;
    } else if n < |k| {
      InsideEdge(N, kids, K, p, q, n);
      LandingOnEdge(K, k, q[..n], q[n]);
    } else {
      assert q[..n] + k[n..] == q[..n];
    }
  }

  /** The middle of a split edge is a node once the new key is stored. */
  lemma MiddleIsNode(K: set<Key>, q: Key, n: nat, t: Key)
    requires IsNode(K, q) && n < |q|
    requires t == q[..n] || (q[..n] < t && t[n] != q[n])
    ensures IsNode(K + {t}, q[..n])
  {
  }

  // ---------- the lax lookup walk ----------

  /** `s` has agreed with the path to `p` at the start of every edge. */
  ghost predicate Following(K: set<Key>, s: Key, p: Key) {
    && IsNode(K, p)
    && (forall y :: IsNode(K, y) && y < p ==> |y| < |s| && s[|y|] == p[|y|])
    && (forall r :: Resolves(K, s, r) ==> p <= r)
  }

  lemma FollowStart(K: set<Key>, s: Key)
    ensures Following(K, s, [])
  {
  }

  /** Beyond the end of `s` nothing is found. */
  lemma FollowPast(K: set<Key>, s: Key, p: Key)
    requires Following(K, s, p) && |p| > |s|
    ensures forall r :: !Resolves(K, s, r)
  {
  }

  lemma FollowStep(N: set<Key>, kids: Links, K: set<Key>, s: Key, p: Key, q: Key)
    requires WellLinked(N, kids) && (forall y :: y in N <==> IsNode(K, y))
    requires Following(K, s, p) && Edge(kids, p, q) && |p| < |s| && s[|p|] == q[|p|]
    ensures Following(K, s, q)
  {
    EdgeNodes(N, kids, p, q);
    forall y | IsNode(K, y) && y < q
      ensures |y| < |s| && s[|y|] == q[|y|]
    {
      PrefixesComparable(y, p, q);
      PrefixesComparable(p, y, q);
      assert p < y ==> Toward(kids, p, y);
    }
    forall r | Resolves(K, s, r)
      ensures q <= r
    {
      ResolvesAtNodes(K, s, r);
      BeyondEdge(N, kids, p, q, r);
    }
  }

  lemma FollowStuck(N: set<Key>, kids: Links, K: set<Key>, s: Key, p: Key)
    requires WellLinked(N, kids) && (forall y :: y in N <==> IsNode(K, y))
    requires Following(K, s, p) && |p| < |s| && (p, Slot(s[|p|])) !in kids
    ensures forall r :: !Resolves(K, s, r)
  {
    if r :| Resolves(K, s, r) {
      FollowToward(N, kids, K, s, p, r);
    }
  }

  lemma FollowToward(N: set<Key>, kids: Links, K: set<Key>, s: Key, p: Key, r: Key)
    requires WellLinked(N, kids) && (forall y :: y in N <==> IsNode(K, y))
    requires Following(K, s, p) && |p| < |s| && Resolves(K, s, r)
    ensures (p, Slot(s[|p|])) in kids
  {
    ResolvesAtNodes(K, s, r);
    assert IsNode(K, p) && p < r && s[|p|] == r[|p|];
    assert Toward(kids, p, r);
  }

  /** The last edge decides; `from` is where it starts. */
  lemma FollowEnd(N: set<Key>, kids: Links, K: set<Key>, s: Key, p: Key, from: Key)
    requires WellLinked(N, kids) && (forall y :: y in N <==> IsNode(K, y))
    requires Following(K, s, p) && |p| == |s|
    requires if p == [] then from == [] else Edge(kids, from, p)
    ensures Resolves(K, s, p) <==> s[|from|..] == p[|from|..]
    ensures forall r :: Resolves(K, s, r) ==> r == p
  {
    ResolvesAtNodes(K, s, p);
    if p != [] {
      var pr := Parent(N, kids, p);
      OneParent(N, kids, pr, from, p);
      forall j: nat
        ensures OnLastEdge(K, p, j) <==> |from| <= j < |p|
      {
        LastEdgeNodes(K, p, j);
        assert IsNode(K, from) && from < p;
      }
      assert forall j :: |from| <= j < |p| ==> s[j] == s[|from|..][j - |from|] && p[j] == p[|from|..][j - |from|];
    }
  }
}
