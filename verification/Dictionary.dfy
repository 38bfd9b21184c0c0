/** The mutable radix trie: nodes linked by child tables, edges labelled by owned buffers. */
module Dictionary {
  import opened Keys
  import opened TrieSpec
  import opened Wrappers
  import opened TrieShape
  import opened TrieOrder

  /** A heap buffer holding an edge label; it is written once, when it is allocated. */
  class Buffer {
    const bytes: Key

    constructor (bytes: Key)
      ensures this.bytes == bytes
    {
      this.bytes := bytes;
    }
  }

  class Node<V> {
    const next: array<Node?<V>>
    var offset: Buffer?
    var offsetSize: nat
    var dataList: Option<seq<V>>

    constructor (offset: Buffer?, offsetSize: nat)
      ensures fresh(next) && next.Length == CHILDREN
      ensures forall c :: 0 <= c < CHILDREN ==> next[c] == null
      ensures this.offset == offset && this.offsetSize == offsetSize && dataList == None
    {
      next := new Node?<V>[CHILDREN](_ => null);
      this.offset, this.offsetSize, dataList := offset, offsetSize, None;
    }

    /** The edge label: the first `offsetSize` bytes of the buffer. */
    ghost predicate HasLabel(edge: Key)
      reads this
    {
      offset != null && offsetSize <= |offset.bytes| && offset.bytes[..offsetSize] == edge
    }
  }

  /** The trie as a value: where the node of each path is, how paths are linked, which path owns
      each child table and label buffer, and a bound on path lengths. */
  datatype Index<V> = Index(at: map<Key, Node<V>>, kids: Links, owner: map<object, Key>, maxLen: nat) {
    ghost predicate WellFormed() {
      WellLinked(at.Keys, kids)
    }

    ghost function PlusLeaf(p: Key, c: nat, edge: Key, leaf: Node<V>): Index<V>
      reads leaf
    {
      var t := p + edge;
      Index(at[t := leaf], kids[(p, c) := t],
            if leaf.offset == null then owner[leaf.next := t] else owner[leaf.next := t][leaf.offset := t],
            if maxLen < |t| then |t| else maxLen)
    }

    /** `n` bytes of the edge from `p` to `q` are split off to the new node `mid`. */
    ghost function PlusMiddle(p: Key, c: nat, q: Key, n: nat, d: nat, mid: Node<V>, moving: Node<V>): Index<V>
      requires n <= |q|
      reads mid, moving
    {
      var m := q[..n];
      var o := owner[mid.next := m];
      var o := if mid.offset == null then o else o[mid.offset := m];
      Index(at[m := mid], kids[(p, c) := m][(m, d) := q],
            if moving.offset == null then o else o[moving.offset := q], maxLen)
    }

    ghost function Child(p: Key, c: nat): Node?<V> {
      if (p, c) in kids && kids[(p, c)] in at then at[kids[(p, c)]] else null
    }
  }

  class Dictionary<V> {
    const root: Node<V>
    ghost var ix: Index<V>
    ghost var contents: map<Key, seq<V>>   // what the dictionary stores
    ghost var Repr: set<object>

    // ---------- invariant ----------

    /** The node at `p` and the memory it owns alone. */
    ghost predicate NodeOk(p: Key)
      requires p in ix.at
      reads this, Repr
    {
      var n := ix.at[p];
      && n in Repr && ValidKey(p) && |p| <= ix.maxLen
      && n.next in Repr && n.next.Length == CHILDREN
      && n.next in ix.owner && ix.owner[n.next] == p
      && (if p == [] then n.offset == null && n.offsetSize == 0
          else n.offset != null && n.offset in ix.owner && ix.owner[n.offset] == p)
    }

    /** The child table of `p` holds the links from `p`. */
    ghost predicate TableOk(p: Key)
      requires p in ix.at
      reads this, Repr
    {
      && ix.at[p].next in Repr && ix.at[p].next.Length == CHILDREN
      && (forall c :: 0 <= c < CHILDREN ==> ix.at[p].next[c] == ix.Child(p, c))
    }

    /** The label of the node below a link is the rest of its path. */
    ghost predicate LabelOk(l: (Key, nat))
      requires l in ix.kids
      reads this, Repr
    {
      var q := ix.kids[l];
      && q in ix.at && ix.at[q] in Repr && |l.0| <= |q|
      && ix.at[q].HasLabel(q[|l.0|..])
    }

    ghost predicate Structure()
      reads this, Repr
    {
      && this in Repr
      && ix.WellFormed()
      && [] in ix.at && ix.at[[]] == root
      && (forall p {:trigger NodeOk(p)} :: p in ix.at ==> NodeOk(p))
      && (forall p {:trigger TableOk(p)} :: p in ix.at ==> TableOk(p))
      && (forall l {:trigger LabelOk(l)} :: l in ix.kids ==> LabelOk(l))
    }

    ghost predicate DataOk(p: Key)
      requires p in ix.at
      reads this, Repr
    {
      ix.at[p] in Repr && ix.at[p].dataList == if p in contents then Some(contents[p]) else None
    }

    ghost predicate Data()
      reads this, Repr
    {
      && contents.Keys <= ix.at.Keys
      && (forall p {:trigger DataOk(p)} :: p in ix.at ==> DataOk(p))
    }

    /** Every node is the root, stores a value, or separates two keys. */
    ghost predicate Compact(K: set<Key>)
      reads this
    {
      forall p :: p in ix.at ==> IsNode(K, p)
    }

    ghost predicate Valid()
      reads this, Repr
      ensures Valid() ==> this in Repr
    {
      Structure() && Data() && Compact(contents.Keys)
    }

    // ---------- construction ----------

    constructor ()
      ensures Valid() && fresh(Repr) && contents == map[]
    {
      root := new Node<V>(null, 0);
      new;
      ix := Index(map[[] := root], map[], map[root.next := []], 0);
      contents := map[];
      Repr := {this, root, root.next};
    }

    // ---------- append ----------

    /** The mutation of `CreateLeaf`: a new node in slot `c` of `node`. */
    method HangLeaf(node: Node<V>, c: nat, edge: Key, ghost p: Key) returns (leaf: Node<V>)
      requires node.next.Length == CHILDREN && c < CHILDREN
      modifies this, node.next
      ensures fresh(leaf) && fresh(leaf.next) && leaf.next.Length == CHILDREN && leaf.dataList == None
      ensures forall d :: 0 <= d < CHILDREN ==> leaf.next[d] == null
      ensures leaf.HasLabel(edge) && fresh(leaf.offset)
      ensures forall d :: 0 <= d < CHILDREN ==> node.next[d] == if d == c then leaf else old(node.next[d])
      ensures ix == old(ix).PlusLeaf(p, c, edge, leaf) && contents == old(contents)
      ensures Repr == old(Repr) + {leaf, leaf.next}
    {
      var offset := new Buffer(edge);
      leaf := new Node<V>(offset, |edge|);
      node.next[c] := leaf;
      ix, Repr := ix.PlusLeaf(p, c, edge, leaf), Repr + {leaf, leaf.next};
    }

    /** What hanging a leaf changed. */
    twostate predicate LeafStep(node: Node<V>, new c: nat, new edge: Key, new p: Key, new leaf: Node<V>)
      reads this, Repr, node, node.next, leaf, leaf.next
    {
      && old(Structure()) && p in old(ix).at && old(ix).at[p] == node
      && edge != [] && ValidKey(p + edge) && c == Slot(edge[0]) && (p, c) !in old(ix).kids
      && fresh(leaf) && fresh(leaf.next) && leaf.next.Length == CHILDREN && leaf.dataList == None
      && (forall d :: 0 <= d < CHILDREN ==> leaf.next[d] == null)
      && leaf.HasLabel(edge) && fresh(leaf.offset) && node.next.Length == CHILDREN
      && (forall d :: 0 <= d < CHILDREN ==> node.next[d] == if d == c then leaf else old(node.next[d]))
      && ix == old(ix).PlusLeaf(p, c, edge, leaf)
      && Repr == old(Repr) + {leaf, leaf.next}
      && (forall o :: o in old(Repr) && o != this && o != node.next ==> unchanged(o))
    }

    twostate lemma LeafTables(node: Node<V>, new c: nat, new edge: Key, new p: Key, new leaf: Node<V>)
      requires LeafStep(node, c, edge, p, leaf) && p + edge !in old(ix).at
      ensures forall y {:trigger NodeOk(y)} :: y in ix.at ==> NodeOk(y)
      ensures forall y {:trigger TableOk(y)} :: y in ix.at ==> TableOk(y)
    {
      assert old(NodeOk(p)) && old(TableOk(p));
      LinksInside(old(ix).at.Keys, old(ix).kids);
      forall y | y in ix.at
        ensures NodeOk(y) && TableOk(y)
      {
        if y in old(ix).at {
          assert old(NodeOk(y)) && old(TableOk(y));
          assert y != p ==> unchanged(ix.at[y].next);
        }
      }
    }

    twostate lemma LeafLabels(node: Node<V>, new c: nat, new edge: Key, new p: Key, new leaf: Node<V>)
      requires LeafStep(node, c, edge, p, leaf) && p + edge !in old(ix).at
      ensures forall l {:trigger LabelOk(l)} :: l in ix.kids ==> LabelOk(l)
    {
      assert (p + edge)[|p|..] == edge;
      assert old(NodeOk(p));
      LinksInside(old(ix).at.Keys, old(ix).kids);
      forall l | l in ix.kids
        ensures LabelOk(l)
      {
        assert l in old(ix).kids ==> old(LabelOk(l));
      }
    }

    twostate lemma LeafStructure(node: Node<V>, new c: nat, new edge: Key, new p: Key, new leaf: Node<V>)
      requires LeafStep(node, c, edge, p, leaf)
      ensures Structure() && p + edge !in old(ix.at)
    {
      var t := p + edge;
      assert p < t && t[|p|] == edge[0] && t[|p|..] == edge;
      NothingThere(old(ix).at.Keys, old(ix).kids, p, t);
      AddLeaf(old(ix).at.Keys, old(ix).kids, p, t);
      assert ix.at.Keys == old(ix).at.Keys + {t};
      LeafTables(node, c, edge, p, leaf);
      LeafLabels(node, c, edge, p, leaf);
    }

    /** The mutation of an edge split: a new middle node takes over the label buffer of `moving`,
        cut to its first `j` bytes; `moving` is hung below it with a fresh copy of the rest. */
    method InsertMiddle(node: Node<V>, c: nat, moving: Node<V>, j: nat, ghost p: Key, ghost q: Key)
      returns (mid: Node<V>)
      requires node.next.Length == CHILDREN && c < CHILDREN && node != moving
      requires moving.offset != null && j < moving.offsetSize <= |moving.offset.bytes|
      requires Slot(moving.offset.bytes[j]) < CHILDREN && |p| + j <= |q|
      modifies this, node.next, moving`offset, moving`offsetSize
      ensures fresh(mid) && fresh(mid.next) && mid.next.Length == CHILDREN && mid.dataList == None
      ensures mid.offset == old(moving.offset) && mid.offsetSize == j
      ensures fresh(moving.offset) && moving.HasLabel(old(moving.offset.bytes[j..moving.offsetSize]))
      ensures forall d :: 0 <= d < CHILDREN ==> node.next[d] == if d == c then mid else old(node.next[d])
      ensures forall d :: 0 <= d < CHILDREN ==>
          mid.next[d] == if d == Slot(old(moving.offset).bytes[j]) then moving else null
      ensures ix == old(ix).PlusMiddle(p, c, q, |p| + j, Slot(old(moving.offset).bytes[j]), mid, moving)
      ensures contents == old(contents) && Repr == old(Repr) + {mid, mid.next}
    {
      var savedOffsetSize := moving.offsetSize;
      mid := new Node<V>(moving.offset, j);
      node.next[c] := mid;
      var rest := moving.offset.bytes[j..savedOffsetSize];
      var num := Slot(rest[0]);
      mid.next[num] := moving;
      moving.offsetSize := savedOffsetSize - j;
      moving.offset := new Buffer(rest);
      ix, Repr := ix.PlusMiddle(p, c, q, |p| + j, num, mid, moving), Repr + {mid, mid.next};
    }

    /** What an edge split changed. */
    twostate predicate SplitStep(node: Node<V>, new c: nat, new moving: Node<V>, new j: nat, new p: Key,
                                 new q: Key, new mid: Node<V>)
      reads this, Repr, node, node.next, moving, mid, mid.next
    {
      && old(Structure())
      && Edge(old(ix).kids, p, q) && c == Slot(q[|p|]) && 0 < j < |q| - |p|
      && p in old(ix).at && q in old(ix).at && old(ix).at[p] == node && old(ix).at[q] == moving
      && node.next.Length == CHILDREN
      && fresh(mid) && fresh(mid.next) && mid.next.Length == CHILDREN
      && old(moving.offset) != null && mid.offset == old(moving.offset) && mid.offsetSize == j
      && fresh(moving.offset) && moving.HasLabel(q[|p| + j..])
      && (forall d :: 0 <= d < CHILDREN ==> node.next[d] == if d == c then mid else old(node.next[d]))
      && (forall d :: 0 <= d < CHILDREN ==> mid.next[d] == if d == Slot(q[|p| + j]) then moving else null)
      && ix == old(ix).PlusMiddle(p, c, q, |p| + j, Slot(q[|p| + j]), mid, moving)
      && Repr == old(Repr) + {mid, mid.next}
      && (forall o :: o in old(Repr) && o != this && o != node.next && o != moving ==> unchanged(o))
    }

    twostate lemma SplitNodes(node: Node<V>, new c: nat, new moving: Node<V>, new j: nat, new p: Key,
                              new q: Key, new mid: Node<V>)
      requires SplitStep(node, c, moving, j, p, q, mid)
      ensures forall y {:trigger NodeOk(y)} :: y in ix.at ==> NodeOk(y)
    {
      assert old(NodeOk(p)) && old(NodeOk(q));
      forall y | y in ix.at
        ensures NodeOk(y)
      {
        assert y in old(ix).at ==> old(NodeOk(y));
      }
    }

    twostate lemma SplitTables(node: Node<V>, new c: nat, new moving: Node<V>, new j: nat, new p: Key,
                               new q: Key, new mid: Node<V>)
      requires SplitStep(node, c, moving, j, p, q, mid)
      requires q[..|p| + j] !in old(ix).at
      ensures forall y {:trigger TableOk(y)} :: y in ix.at ==> TableOk(y)
    {
      LinksInside(old(ix).at.Keys, old(ix).kids);
      assert old(NodeOk(p)) && old(TableOk(p));
      forall y | y in ix.at
        ensures TableOk(y)
      {
        if y in old(ix).at {
          assert old(NodeOk(y)) && old(TableOk(y));
          assert y != p ==> unchanged(ix.at[y].next);
        }
      }
    }

    twostate lemma SplitLabels(node: Node<V>, new c: nat, new moving: Node<V>, new j: nat, new p: Key,
                               new q: Key, new mid: Node<V>)
      requires SplitStep(node, c, moving, j, p, q, mid)
      requires q[..|p| + j] !in old(ix).at
      ensures forall l {:trigger LabelOk(l)} :: l in ix.kids ==> LabelOk(l)
    {
      var m := q[..|p| + j];
      assert old(NodeOk(p)) && old(NodeOk(q)) && old(LabelOk((p, c)));
      assert m[|p|..] == q[|p|..][..j] == old(moving.offset).bytes[..j];
      forall l | l in ix.kids
        ensures LabelOk(l)
      {
        if l in old(ix).kids && l != (p, c) {
          LinkIsEdge(old(ix).at.Keys, old(ix).kids, l);
          assert old(LabelOk(l)) && old(NodeOk(ix.kids[l]));
          if old(ix).kids[l] == q {
            OneParent(old(ix).at.Keys, old(ix).kids, p, l.0, q);
          }
        }
      }
    }

    twostate lemma SplitStructure(node: Node<V>, new c: nat, new moving: Node<V>, new j: nat, new p: Key,
                                  new q: Key, new mid: Node<V>)
      requires SplitStep(node, c, moving, j, p, q, mid)
      ensures Structure() && q[..|p| + j] !in old(ix.at)
    {
      var m := q[..|p| + j];
      assert p < m < q && m[|p|] == q[|p|];
      AddMiddle(old(ix).at.Keys, old(ix).kids, p, q, m);
      assert ix.at.Keys == old(ix).at.Keys + {m};
      SplitNodes(node, c, moving, j, p, q, mid);
      SplitTables(node, c, moving, j, p, q, mid);
      SplitLabels(node, c, moving, j, p, q, mid);
    }

    /** New nodes without data leave the stored values as they were. */
    twostate lemma DataKept(new t: Key)
      requires old(Structure()) && Structure() && old(Data()) && contents == old(contents)
      requires ix.at.Keys == old(ix).at.Keys + {t} && t !in old(ix).at && ix.at[t].dataList == None
      requires forall y :: y in old(ix).at ==> ix.at[y] == old(ix).at[y] && ix.at[y].dataList == old(ix.at[y].dataList)
      ensures Data()
    {
      forall y | y in ix.at
        ensures DataOk(y)
      {
        assert NodeOk(y);
        assert y in old(ix).at ==> old(DataOk(y));
      }
    }

    /** Hang a leaf holding the rest of `k` below the node at `p`. */
    method CreateLeaf(node: Node<V>, k: Key, i: nat, ghost p: Key) returns (leaf: Node<V>)
      requires Structure() && Data() && p in ix.at && ix.at[p] == node && node.next.Length == CHILDREN
      requires node.next in Repr
      requires i < |k| && ValidKey(p + k[i..]) && Slot(k[i]) < CHILDREN && node.next[Slot(k[i])] == null
      modifies this, node.next
      ensures Structure() && Data() && contents == old(contents)
      ensures p + k[i..] !in old(ix).at && ix.at == old(ix).at[p + k[i..] := leaf]
      ensures Repr == old(Repr) + {leaf, leaf.next} && fresh(leaf) && fresh(leaf.next)
    {
      assert TableOk(p);
      LinksInside(ix.at.Keys, ix.kids);
      assert k[i..][0] == k[i];
      leaf := HangLeaf(node, Slot(k[i]), k[i..], p);
      LeafStructure(node, Slot(k[i]), k[i..], p, leaf);
      DataKept(p + k[i..]);
    }

    /** Split the edge from `p` to `q` after its first `j` bytes. */
    method SplitEdge(node: Node<V>, c: nat, moving: Node<V>, j: nat, ghost p: Key, ghost q: Key, ghost k: Key)
      returns (mid: Node<V>)
      requires Structure() && Data() && Edge(ix.kids, p, q) && c == Slot(q[|p|]) && 0 < j < |q| - |p|
      requires p in ix.at && q in ix.at && ix.at[p] == node && ix.at[q] == moving && node.next in Repr
      requires |p| + j < |k| ==> Slot(k[|p| + j]) != Slot(q[|p| + j])
      modifies this, node.next, moving`offset, moving`offsetSize
      ensures Structure() && Data() && contents == old(contents)
      ensures q[..|p| + j] !in old(ix).at && ix.at == old(ix).at[q[..|p| + j] := mid]
      ensures Repr == old(Repr) + {mid, mid.next} && fresh(mid) && fresh(mid.next)
      ensures node.next.Length == CHILDREN && c < CHILDREN && node.next[c] == mid
      ensures |p| + j < |k| ==> (q[..|p| + j], Slot(k[|p| + j])) !in ix.kids
    {
      assert NodeOk(p) && NodeOk(q) && LabelOk((p, c));
      LinksInside(ix.at.Keys, ix.kids);
      assert q[|p|..][j] == q[|p| + j] && q[|p|..][j..] == q[|p| + j..];
      mid := InsertMiddle(node, c, moving, j, p, q);
      SplitStructure(node, c, moving, j, p, q, mid);
      DataKept(q[..|p| + j]);
    }

    lemma CompactGrows(K: set<Key>, t: Key)
      requires Compact(K)
      ensures Compact(K + {t})
    {
    }

    /** Length of the part of the label of `moving` that agrees with `k` from `i` on, up to case. */
    method MatchEdge(moving: Node<V>, k: Key, i: nat) returns (j: nat)
      requires moving.offset != null && moving.offsetSize <= |moving.offset.bytes| && i <= |k|
      ensures j <= moving.offsetSize && i + j <= |k|
      ensures forall h :: 0 <= h < j ==> Fold(moving.offset.bytes[h]) == Fold(k[i + h])
      ensures j < moving.offsetSize && i + j < |k| ==> Fold(moving.offset.bytes[j]) != Fold(k[i + j])
    {
      j := 0;
      while i + j < |k| && j < moving.offsetSize && Fold(moving.offset.bytes[j]) == Fold(k[i + j])
        invariant j <= moving.offsetSize && i + j <= |k|
        invariant forall h :: 0 <= h < j ==> Fold(moving.offset.bytes[h]) == Fold(k[i + h])
      {
        j := j + 1;
      }
    }

    /** The child in an occupied slot ends an edge labelled with the rest of its path. */
    lemma EdgeFacts(p: Key, c: nat) returns (q: Key)
      requires Structure() && p in ix.at && c < CHILDREN
      requires ix.at[p].next.Length == CHILDREN && ix.at[p].next[c] != null
      ensures q in ix.at && ix.at[q] == ix.at[p].next[c] && ix.at[q] in Repr
      ensures Edge(ix.kids, p, q) && c == Slot(q[|p|]) && ix.at[q].HasLabel(q[|p|..])
    {
      assert TableOk(p);
      LinkIsEdge(ix.at.Keys, ix.kids, (p, c));
      assert LabelOk((p, c));
      q := ix.kids[(p, c)];
    }

    lemma TableFacts(p: Key, c: nat)
      requires Structure() && p in ix.at && c < CHILDREN
      ensures ix.at[p].next in Repr && ix.at[p] in Repr && ix.at[p].next.Length == CHILDREN
      ensures ix.at[p].next[c] == null <==> (p, c) !in ix.kids
      ensures ix.at[p].next[c] != null ==> ix.at[p].next[c].offset != null
    {
      assert NodeOk(p) && TableOk(p);
      LinksInside(ix.at.Keys, ix.kids);
      if ix.at[p].next[c] != null {
        var q := EdgeFacts(p, c);
      }
    }

    /** How far the edge from `p` into slot `Slot(k[|p|])` agrees with `k`, and what that says about the landing. */
    method MatchAlong(node: Node<V>, k: Key, i: nat, ghost p: Key) returns (j: nat, ghost q: Key)
      requires Structure() && contents.Keys <= ix.at.Keys && Compact(contents.Keys)
      requires i == |p| < |k| && p in ix.at && ix.at[p] == node
      requires Slot(k[i]) < CHILDREN && node.next.Length == CHILDREN && node.next[Slot(k[i])] != null
      ensures q in ix.at && ix.at[q] == node.next[Slot(k[i])] && ix.at[q] in Repr
      ensures Edge(ix.kids, p, q) && q[i] == k[i]
      ensures 0 < j && i + j <= |k| && i + j <= |q| && ix.at[q].offsetSize == |q| - i
      ensures i + j == |q| ==> Landing(contents.Keys, k, p) == Landing(contents.Keys, k, q)
      ensures i + j < |q| ==> Landing(contents.Keys, k, p) == q[..i + j] + k[i + j..]
      ensures i + j < |q| && i + j < |k| ==> q[i + j] != k[i + j]
    {
      var moving := node.next[Slot(k[i])];
      q := EdgeFacts(p, Slot(k[i]));
      SlotInjective(k[i], q[i]);
      assert forall h :: 0 <= h < |q| - i ==> moving.offset.bytes[h] == q[i + h];
      j := MatchEdge(moving, k, i);
      assert forall h :: i < h < i + j ==> q[h] == moving.offset.bytes[h - i];
      LandingAfterMatch(ix.at.Keys, ix.kids, contents.Keys, p, q, k, j);
    }

    lemma SplitKeepsCompact(k: Key, p: Key, q: Key, n: nat)
      requires Compact(contents.Keys) && q in ix.at && |p| < n < |q| && n <= |k|
      requires Landing(contents.Keys, k, p) == q[..n] + k[n..]
      requires n < |k| ==> q[n] != k[n]
      ensures Compact(contents.Keys + {Landing(contents.Keys, k, p)})
      ensures IsNode(contents.Keys + {Landing(contents.Keys, k, p)}, q[..n])
      ensures n < |k| ==> Slot(q[n]) != Slot(k[n])
    {
      CompactGrows(contents.Keys, Landing(contents.Keys, k, p));
      assert n == |k| ==> k[n..] == [];
      MiddleIsNode(contents.Keys, q, n, Landing(contents.Keys, k, p));
      if n < |k| {
        SlotInjective(k[n], q[n]);
      }
    }

    /** Follow the edge towards `k` as far as it agrees; split it if the agreement ends inside. */
    method FollowEdge(node: Node<V>, k: Key, i: nat, ghost p: Key)
      returns (next: Node<V>, j: nat, ghost p': Key, ghost split: bool)
      requires Structure() && Data() && Compact(contents.Keys)
      requires i == |p| < |k| && p in ix.at && ix.at[p] == node && node.next in Repr
      requires Slot(k[i]) < CHILDREN && node.next.Length == CHILDREN && node.next[Slot(k[i])] != null
      modifies Repr
      ensures Structure() && Data() && contents == old(contents) && fresh(Repr - old(Repr))
      ensures 0 < j && i + j == |p'| <= |k| && p' in ix.at && ix.at[p'] == next
      ensures !split ==> Compact(contents.Keys) && Landing(contents.Keys, k, p') == Landing(contents.Keys, k, p)
      ensures split ==> Compact(contents.Keys + {Landing(contents.Keys, k, p)})
      ensures split ==> Landing(contents.Keys, k, p) == p' + k[|p'|..]
      ensures split && i + j < |k| ==> (p', Slot(k[i + j])) !in ix.kids
    {
      hide Landing, IsNode, NodeOk, TableOk, LabelOk, DataOk;
      var num := Slot(k[i]);
      var moving := node.next[num];
      ghost var q;
      j, q := MatchAlong(node, k, i, p);
      split := j != moving.offsetSize;
      p' := q[..i + j];
      assert q[..|q|] == q;
      if j != moving.offsetSize {
        SplitKeepsCompact(k, p, q, i + j);
        var mid := SplitEdge(node, num, moving, j, p, q, k);
      }
      next := node.next[num];
    }

    /** An empty slot on the way to `k`: the rest of `k` becomes a leaf. */
    lemma SlotFacts(k: Key, p: Key)
      requires Structure() && contents.Keys <= ix.at.Keys && Compact(contents.Keys)
      requires p in ix.at && |p| < |k| && (p, Slot(k[|p|])) !in ix.kids
      ensures Landing(contents.Keys, k, p) == p + k[|p|..]
      ensures Compact(contents.Keys + {Landing(contents.Keys, k, p)})
    {
      LandingLeaves(ix.at.Keys, ix.kids, contents.Keys, p, k);
      CompactGrows(contents.Keys, Landing(contents.Keys, k, p));
    }

    method LeaveTrie(node: Node<V>, k: Key, i: nat, ghost p: Key) returns (leaf: Node<V>)
      requires Structure() && Data() && ValidKey(k) && i == |p| < |k|
      requires Compact(contents.Keys + {p + k[i..]}) && p in ix.at && ix.at[p] == node && (p, Slot(k[i])) !in ix.kids
      modifies Repr
      ensures Structure() && Data() && contents == old(contents) && fresh(Repr - old(Repr))
      ensures p + k[i..] in ix.at && ix.at[p + k[i..]] == leaf
      ensures Compact(contents.Keys + {p + k[i..]})
    {
      assert NodeOk(p) && TableOk(p);
      leaf := CreateLeaf(node, k, i, p);
    }

    /** Find or make the node where `k` lands. */
    method AppendToNode(k: Key) returns (node: Node<V>, ghost p: Key)
      requires Valid() && ValidKey(k)
      modifies Repr
      ensures Structure() && Data() && contents == old(contents)
      ensures p == Landing(contents.Keys, k, []) && p in ix.at && ix.at[p] == node
      ensures Compact(contents.Keys + {p})
      ensures fresh(Repr - old(Repr))
    {
      ghost var target := Landing(contents.Keys, k, []);
      ghost var split := false;
      node, p := root, [];
      var i := 0;
      while i < |k|
        invariant Structure() && Data() && contents == old(contents) && fresh(Repr - old(Repr))
        invariant i == |p| <= |k| && p in ix.at && ix.at[p] == node
        invariant !split ==> Compact(contents.Keys) && Landing(contents.Keys, k, p) == target
        invariant split ==> Compact(contents.Keys + {target}) && target == p + k[i..]
        invariant split && i < |k| ==> (p, Slot(k[i])) !in ix.kids
      {
        var num := Slot(k[i]);
        TableFacts(p, num);
        if node.next[num] == null {
          if !split {
            SlotFacts(k, p);
          }
          node := LeaveTrie(node, k, i, p);
          p, split := p + k[i..], true;
          break;
        } else if node.next[num].offset != null {
          var j;
          node, j, p, split := FollowEdge(node, k, i, p);
          i := i + j;
        } else {
          assert false;
        }
      }
      if !split {
        CompactGrows(contents.Keys, target);
      }
    }

    /** Only the data list of one node changed. */
    twostate predicate DataStep(node: Node<V>, new p: Key)
      reads this, Repr, node
    {
      && old(Structure()) && p in old(ix).at && old(ix).at[p] == node
      && ix == old(ix) && Repr == old(Repr)
      && node.offset == old(node.offset) && node.offsetSize == old(node.offsetSize)
      && (forall o :: o in old(Repr) && o != this && o != node ==> unchanged(o))
    }

    twostate lemma DataNodes(node: Node<V>, new p: Key)
      requires DataStep(node, p)
      ensures forall y {:trigger NodeOk(y)} :: y in ix.at ==> NodeOk(y)
    {
      forall y | y in ix.at
        ensures NodeOk(y)
      {
        assert old(NodeOk(y));
      }
    }

    twostate lemma DataTables(node: Node<V>, new p: Key)
      requires DataStep(node, p)
      ensures forall y {:trigger TableOk(y)} :: y in ix.at ==> TableOk(y)
      ensures forall l {:trigger LabelOk(l)} :: l in ix.kids ==> LabelOk(l)
    {
      forall y | y in ix.at
        ensures TableOk(y)
      {
        assert old(TableOk(y));
      }
      forall l | l in ix.kids
        ensures LabelOk(l)
      {
        assert old(LabelOk(l));
      }
    }

    /** Every other node keeps its list. */
    twostate lemma OtherData(node: Node<V>, new p: Key)
      requires DataStep(node, p) && old(Data()) && contents.Keys == old(contents).Keys + {p}
      requires forall k :: k in contents && k != p ==> contents[k] == old(contents)[k]
      requires node.dataList == Some(contents[p])
      ensures Data()
    {
      forall y | y in ix.at
        ensures DataOk(y)
      {
        assert old(NodeOk(y)) && old(DataOk(y));
        assert y != p ==> old(ix).at[y] != node by {
          assert old(NodeOk(p));
        }
      }
    }

    /** Push a value to the data list of the node at `p`. */
    method PushData(node: Node<V>, v: V, ghost p: Key)
      requires Structure() && Data() && p in ix.at && ix.at[p] == node
      modifies this, node
      ensures Structure() && Data() && ix == old(ix) && Repr == old(Repr)
      ensures contents == old(contents)[p := (if p in old(contents) then old(contents)[p] else []) + [v]]
    {
      hide TableOk, LabelOk, Index.WellFormed;
      assert NodeOk(p) && DataOk(p);
      if node.dataList == None {
        node.dataList := Some([]);
      }
      node.dataList := Some(node.dataList.value + [v]);
      contents := contents[p := node.dataList.value];
      DataNodes(node, p);
      DataTables(node, p);
      OtherData(node, p);
    }

    /** Append `v` to the list of the key where `k` lands. */
    method Append(k: Key, v: V) returns (node: Node<V>)
      requires Valid() && ValidKey(k)
      modifies Repr
      ensures Valid() && fresh(Repr - old(Repr))
      ensures contents == AppendSpec(old(contents), k, v)
    {
      ghost var p;
      node, p := AppendToNode(k);
      assert NodeOk(p);
      ghost var K := contents.Keys;
      PushData(node, v, p);
      assert contents.Keys == K + {p};
    }

    // ---------- lookup ----------

    /** The nodes are exactly those that the stored keys call for. */
    lemma NodesAreCanonical()
      requires Valid()
      ensures forall p :: p in ix.at <==> IsNode(contents.Keys, p)
    {
      Canonical(ix.at.Keys, ix.kids, contents.Keys);
      assert forall p :: p in ix.at <==> p in ix.at.Keys;
    }

    /** The node for `s`, comparing only first bytes on the way and the whole of the last edge. */
    method GetLastNode(s: Key) returns (found: Node?<V>, ghost p: Key)
      requires Valid() && ValidKey(s)
      ensures found == null ==> forall r :: !Resolves(contents.Keys, s, r)
      ensures found != null ==> p in ix.at && ix.at[p] == found && Resolves(contents.Keys, s, p)
    {
      hide IsNode, Compact, Resolves, Following;
      NodesAreCanonical();
      FollowStart(contents.Keys, s);
      ghost var N, kids, K := ix.at.Keys, ix.kids, contents.Keys;
      var node := root;
      ghost var from: Key := [];
      p := [];
      var i := 0;
      while i < |s|
        invariant i == |p| && p in ix.at && ix.at[p] == node && Following(K, s, p)
        invariant if p == [] then from == [] else Edge(kids, from, p)
        decreases |s| - i
      {
        TableFacts(p, Slot(s[i]));
        var next := node.next[Slot(s[i])];
        if next != null {
          ghost var q := EdgeFacts(p, Slot(s[i]));
          SlotInjective(s[i], q[i]);
          FollowStep(N, kids, K, s, p, q);
          from, p := p, q;
          node := next;
          i := i + node.offsetSize;
        } else {
          FollowStuck(N, kids, K, s, p);
          break;
        }
      }
      if i > |s| {
        FollowPast(K, s, p);
      }
      if i == |s| {
        LabelFacts(p, from);
        FollowEnd(N, kids, K, s, p, from);
        var str := if node.offset == null then [] else node.offset.bytes[..node.offsetSize];
        if str == s[|s| - node.offsetSize..] {
          return node, p;
        }
      }
      return null, p;
    }

    /** The label of the node at `p` is the part of its path after its parent. */
    lemma LabelFacts(p: Key, from: Key)
      requires Structure() && p in ix.at
      requires if p == [] then from == [] else Edge(ix.kids, from, p)
      ensures ix.at[p] in Repr && |from| <= |p| && ix.at[p].offsetSize == |p| - |from|
      ensures p == [] ==> ix.at[p].offset == null
      ensures p != [] ==> ix.at[p].HasLabel(p[|from|..])
    {
      assert NodeOk(p);
      if p != [] {
        assert LabelOk((from, Slot(p[|from|])));
      }
    }

    /** The data list found for `s`; a null list and a missing node are both `None`. */
    method Get(s: Key) returns (list: Option<seq<V>>)
      requires Valid() && ValidKey(s)
      ensures list == GetSpec(contents, s)
    {
      var last, p := GetLastNode(s);
      if last == null {
        list := None;
      } else {
        assert DataOk(p);
        forall r | Resolves(contents.Keys, s, r)
          ensures r == p
        {
          ResolvesUnique(contents.Keys, s, p, r);
        }
        list := last.dataList;
      }
    }

    method IsIn(s: Key) returns (found: bool)
      requires Valid() && ValidKey(s)
      ensures found <==> exists p :: p in contents && Resolves(contents.Keys, s, p)
    {
      var list := Get(s);
      found := list != None;
    }

    // ---------- visitors ----------

    ghost predicate Visits(visited: seq<Node<V>>, paths: seq<Key>)
      reads this
    {
      |visited| == |paths| && forall i :: 0 <= i < |paths| ==> paths[i] in ix.at && ix.at[paths[i]] == visited[i]
    }

    lemma {:induction false} VisitsConcat(v: seq<Node<V>>, paths: seq<Key>, w: seq<Node<V>>, paths': seq<Key>)
      requires Visits(v, paths) && Visits(w, paths')
      ensures Visits(v + w, paths + paths')
    {
    }

    /** Nodes below `node` in the order in which the visitor calls back: a node before its children. */
    method VisitDownFrom(node: Node<V>, ghost p: Key) returns (visited: seq<Node<V>>, ghost paths: seq<Key>)
      requires Structure() && p in ix.at && ix.at[p] == node && |p| <= ix.maxLen
      ensures Visits(visited, paths) && Sorted(paths)
      ensures forall x :: x in paths <==> x in ix.at && p < x
      decreases ix.maxLen - |p|
    {
      visited, paths := [], [];
      TableFacts(p, 0);
      var i := 0;
      while i < CHILDREN
        invariant 0 <= i <= CHILDREN
        invariant Visits(visited, paths) && Sorted(paths) && Lists(ix.at.Keys, p, i, paths)
      {
        TableFacts(p, i);
        var next := node.next[i];
        if next != null {
          ghost var q := EdgeFacts(p, i);
          assert NodeOk(q);
          var below, belowPaths := VisitDownFrom(next, q);
          DownSlot(ix.at.Keys, ix.kids, p, q, paths, belowPaths);
          VisitsConcat([next], [q], below, belowPaths);
          VisitsConcat(visited, paths, [next] + below, [q] + belowPaths);
          assert paths + ([q] + belowPaths) == paths + [q] + belowPaths;
          visited, paths := visited + ([next] + below), paths + ([q] + belowPaths);
        } else {
          SkipSlot(ix.at.Keys, ix.kids, p, i, paths);
        }
        i := i + 1;
      }
      AllSlots(p, paths);
    }

    lemma AllSlots(p: Key, paths: seq<Key>)
      requires Structure() && Lists(ix.at.Keys, p, CHILDREN, paths)
      ensures forall x :: x in paths <==> x in ix.at && p < x
    {
      forall x | x in ix.at && p < x
        ensures Before(ix.at.Keys, p, CHILDREN, x)
      {
        assert NodeOk(x);
      }
    }

    /** The paths of all nodes but the root, in the order of the downward visitor. */
    ghost function VisitOrder(): seq<Key>
      reads this
    {
      Enumerate(ix.at.Keys - {[]})
    }

    /** The visitor calls back every node but the root once, in the sorted order of their paths. */
    method VisitDown() returns (visited: seq<Node<V>>)
      requires Valid()
      ensures |visited| == |VisitOrder()|
      ensures forall i :: 0 <= i < |visited| ==> var p := VisitOrder()[i];
          && p in ix.at && ix.at[p] == visited[i]
          && visited[i].dataList == if p in contents then Some(contents[p]) else None
    {
      hide Less, Sorted, Enumerate;
      assert NodeOk([]);
      ghost var paths;
      visited, paths := VisitDownFrom(root, []);
      assert forall x :: x in Elements(paths) <==> x in ix.at && x != [];
      SortedUnique(paths, VisitOrder());
      forall i | 0 <= i < |visited|
        ensures visited[i].dataList == if paths[i] in contents then Some(contents[paths[i]]) else None
      {
        assert DataOk(paths[i]);
      }
    }

    /** Nodes below `node` in the order of the upward visitor: a node after its children. */
    method VisitUpFrom(node: Node<V>, ghost p: Key) returns (visited: seq<Node<V>>, ghost paths: seq<Key>)
      requires Structure() && p in ix.at && ix.at[p] == node && |p| <= ix.maxLen
      ensures Visits(visited, paths) && ChildrenFirst(paths)
      ensures forall x :: x in paths <==> x in ix.at && p < x
      decreases ix.maxLen - |p|
    {
      visited, paths := [], [];
      TableFacts(p, 0);
      var i := 0;
      while i < CHILDREN
        invariant 0 <= i <= CHILDREN
        invariant Visits(visited, paths) && ChildrenFirst(paths) && Lists(ix.at.Keys, p, i, paths)
      {
        TableFacts(p, i);
        var next := node.next[i];
        if next != null {
          ghost var q := EdgeFacts(p, i);
          assert NodeOk(q);
          var below, belowPaths := VisitUpFrom(next, q);
          UpSlot(ix.at.Keys, ix.kids, p, q, paths, belowPaths);
          VisitsConcat(below, belowPaths, [next], [q]);
          VisitsConcat(visited, paths, below + [next], belowPaths + [q]);
          visited, paths := visited + (below + [next]), paths + (belowPaths + [q]);
        } else {
          SkipSlot(ix.at.Keys, ix.kids, p, i, paths);
        }
        i := i + 1;
      }
      AllSlots(p, paths);
    }

    // ---------- destruction ----------

    /** The nodes in the order in which destruction frees them, each with its child table and its
        label buffer: every node once, children first, and no memory twice. */
    method Destroy() returns (freed: seq<Node<V>>)
      requires Valid()
      ensures forall p :: p in ix.at ==> ix.at[p] in freed
      ensures forall i, j :: 0 <= i < j < |freed| ==>
          && freed[i] != freed[j] && freed[i].next != freed[j].next
          && (freed[i].offset == null || freed[i].offset != freed[j].offset)
      ensures forall i, j, c :: 0 <= i < j < |freed| && 0 <= c < freed[i].next.Length ==> freed[i].next[c] != freed[j]
    {
      assert NodeOk([]);
      var below, paths := VisitUpFrom(root, []);
      freed := below + [root];
      RootLast(below, paths);
      FreedOnce(freed, paths + [[]]);
    }

    lemma {:induction false} RootLast(below: seq<Node<V>>, paths: seq<Key>)
      requires Structure() && Visits(below, paths) && ChildrenFirst(paths)
      requires forall x :: x in paths <==> x in ix.at && [] < x
      ensures Visits(below + [root], paths + [[]]) && ChildrenFirst(paths + [[]])
      ensures forall p :: p in ix.at ==> ix.at[p] in below + [root]
    {
    }

    lemma {:induction false} FreedOnce(freed: seq<Node<V>>, all: seq<Key>)
      requires Structure() && Visits(freed, all) && ChildrenFirst(all)
      ensures forall i, j :: 0 <= i < j < |freed| ==>
          && freed[i] != freed[j] && freed[i].next != freed[j].next
          && (freed[i].offset == null || freed[i].offset != freed[j].offset)
      ensures forall i, j, c :: 0 <= i < j < |freed| && 0 <= c < freed[i].next.Length ==> freed[i].next[c] != freed[j]
    {
      forall i, j | 0 <= i < j < |freed|
        ensures freed[i] != freed[j] && freed[i].next != freed[j].next
        ensures freed[i].offset == null || freed[i].offset != freed[j].offset
      {
        assert all[i] != all[j] && NodeOk(all[i]) && NodeOk(all[j]);
      }
      forall i, j, c | 0 <= i < j < |freed| && 0 <= c < freed[i].next.Length
        ensures freed[i].next[c] != freed[j]
      {
        assert NodeOk(all[i]) && NodeOk(all[j]);
        if freed[i].next[c] != null {
          var q := EdgeFacts(all[i], c);
          assert NodeOk(q);
        }
      }
    }
  }
}
