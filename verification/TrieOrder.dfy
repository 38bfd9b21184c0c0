/** The two orders in which the visitors enumerate the paths of a trie. */
module TrieOrder {
  import opened Keys
  import opened TrieShape

  /** `x` is a path below `p` in a slot before `c`. */
  ghost predicate Before(N: set<Key>, p: Key, c: nat, x: Key) {
    x in N && p < x && Slot(x[|p|]) < c
  }

  /** `paths` lists exactly the paths below `p` in the slots before `c`. */
  ghost predicate Lists(N: set<Key>, p: Key, c: nat, paths: seq<Key>) {
    forall x :: x in paths <==> Before(N, p, c, x)
  }

  lemma SlotsDiverge(p: Key, x: Key, y: Key)
    requires p < x && p < y && Slot(x[|p|]) < Slot(y[|p|])
    ensures Less(x, y) && !(x <= y) && !(y <= x)
  {
    assert x[..|p|] == p == y[..|p|];
    assert LessAt(x, y, |p|);
  }

  lemma PrefixLess(x: Key, y: Key)
    requires x < y
    ensures Less(x, y)
  {
    assert x[..|x|] == x == y[..|x|];
    assert LessAt(x, y, |x|);
  }

  /** An empty slot adds nothing. */
  lemma SkipSlot(N: set<Key>, kids: Links, p: Key, c: nat, paths: seq<Key>)
    requires WellLinked(N, kids) && p in N && Lists(N, p, c, paths) && (p, c) !in kids
    ensures Lists(N, p, c + 1, paths)
  {
    forall x | Before(N, p, c + 1, x)
      ensures Before(N, p, c, x)
    {
      assert Toward(kids, p, x);
    }
  }

  /** The paths in slot `c` are the child and the paths below the child. */
  lemma SlotMembers(N: set<Key>, kids: Links, p: Key, q: Key, x: Key)
    requires WellLinked(N, kids) && Edge(kids, p, q)
    ensures Before(N, p, Slot(q[|p|]) + 1, x) <==> Before(N, p, Slot(q[|p|]), x) || x == q || (x in N && q < x)
    ensures x in N && q < x ==> p < x && x[|p|] == q[|p|]
  {
    EdgeNodes(N, kids, p, q);
    if Before(N, p, Slot(q[|p|]) + 1, x) && Slot(x[|p|]) == Slot(q[|p|]) {
      SlotInjective(x[|p|], q[|p|]);
      BeyondEdge(N, kids, p, q, x);
    }
  }

  /** Pre-order: the child, then what is below it. */
  lemma DownSlot(N: set<Key>, kids: Links, p: Key, q: Key, paths: seq<Key>, below: seq<Key>)
    requires WellLinked(N, kids) && Edge(kids, p, q)
    requires Sorted(paths) && Lists(N, p, Slot(q[|p|]), paths)
    requires Sorted(below) && (forall x :: x in below <==> x in N && q < x)
    ensures Sorted(paths + [q] + below)
    ensures Lists(N, p, Slot(q[|p|]) + 1, paths + [q] + below)
  {
    var all := paths + [q] + below;
    forall x
      ensures x in all <==> Before(N, p, Slot(q[|p|]) + 1, x)
      ensures x in below ==> p < x && x[|p|] == q[|p|]
    {
      SlotMembers(N, kids, p, q, x);
    }
    forall i, j | 0 <= i < j < |all|
      ensures Less(all[i], all[j])
    {
      if j < |paths| {
        assert Less(paths[i], paths[j]);
      } else if i < |paths| {
        assert all[i] in paths && (all[j] == q || all[j] in below);
        SlotsDiverge(p, all[i], all[j]);
      } else if i == |paths| {
        assert all[j] in below;
        PrefixLess(q, all[j]);
      } else {
        assert Less(below[i - |paths| - 1], below[j - |paths| - 1]);
      }
    }
  }

  /** No path occurs twice, and none before a path it extends. */
  ghost predicate ChildrenFirst(paths: seq<Key>) {
    forall i, j :: 0 <= i < j < |paths| ==> !(paths[i] <= paths[j])
  }

  /** Post-order: what is below the child, then the child. */
  lemma UpSlot(N: set<Key>, kids: Links, p: Key, q: Key, paths: seq<Key>, below: seq<Key>)
    requires WellLinked(N, kids) && Edge(kids, p, q)
    requires ChildrenFirst(paths) && Lists(N, p, Slot(q[|p|]), paths)
    requires ChildrenFirst(below) && (forall x :: x in below <==> x in N && q < x)
    ensures ChildrenFirst(paths + (below + [q]))
    ensures Lists(N, p, Slot(q[|p|]) + 1, paths + (below + [q]))
  {
    var all := paths + (below + [q]);
    forall x
      ensures x in all <==> Before(N, p, Slot(q[|p|]) + 1, x)
      ensures x in below ==> p < x && x[|p|] == q[|p|]
    {
      SlotMembers(N, kids, p, q, x);
    }
    forall i, j | 0 <= i < j < |all|
      ensures !(all[i] <= all[j])
    {
      if j < |paths| {
        assert !(paths[i] <= paths[j]);
      } else if i < |paths| {
        assert all[i] in paths && (all[j] == q || all[j] in below);
        SlotsDiverge(p, all[i], all[j]);
      } else if j == |all| - 1 {
        assert all[i] in below;
      } else {
        assert !(below[i - |paths|] <= below[j - |paths|]);
      }
    }
  }
}
