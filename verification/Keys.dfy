/** Bytes, keys, the child slot of a byte, and the order in which slots enumerate keys. */
module Keys {

  type Byte = b: int | 0 <= b < 256
  type Key = seq<Byte>

  /** Number of child slots of a trie node. */
  const CHILDREN := 255

  /** The child slot of a byte: an addition in 8-bit unsigned arithmetic. */
  function Slot(b: Byte): Byte {
    (128 + b) % 256
  }

  /** `tolower` in the "C" locale (section 7.4.2.1 of ISO/IEC 9899:2011). */
  function Fold(b: Byte): Byte {
    if 65 <= b <= 90 then b + 32 else b
  }

  /** Bytes fold together exactly if they are equal or one is a capital, 65 to 90, and the other is 32 more. */
  lemma FoldExact(a: Byte, b: Byte)
    ensures Fold(a) == Fold(b) <==> a == b || (65 <= a <= 90 && b == a + 32) || (65 <= b <= 90 && a == b + 32)
  {
  }

  /** A C string whose every byte has a slot inside the child table: no NUL and no byte 127. */
  predicate ValidKey(k: Key) {
    forall i :: 0 <= i < |k| ==> k[i] != 0 && Slot(k[i]) < CHILDREN
  }

  /** The slot is injective, and only byte 127 falls outside the child table. */
  lemma SlotInjective(a: Byte, b: Byte)
    ensures Slot(a) == Slot(b) <==> a == b
    ensures Slot(a) < CHILDREN <==> a != 127
    ensures Slot(a) < Slot(b) <==> (if a >= 128 then a - 256 else a) < (if b >= 128 then b - 256 else b)
  {
  }

  // ---------- order ----------

  /** `a` precedes `b` with `i` as the first position where they part. */
  ghost predicate LessAt(a: Key, b: Key, i: nat) {
    && i <= |a| && i < |b|
    && a[..i] == b[..i]
    && (i == |a| || Slot(a[i]) < Slot(b[i]))
  }

  /** Lexicographic order of slots: a key precedes its proper extensions. */
  ghost predicate Less(a: Key, b: Key) {
    exists i: nat :: LessAt(a, b, i)
  }

  lemma LessTransitive(a: Key, b: Key, c: Key)
    requires Less(a, b) && Less(b, c)
    ensures Less(a, c)
  {
    var i: nat :| LessAt(a, b, i);
    var j: nat :| LessAt(b, c, j);
    var m := if i < j then i else j;
    assert a[..m] == a[..i][..m] && b[..m] == b[..i][..m] == b[..j][..m] && c[..m] == c[..j][..m];
    if i < j {
      assert b[i] == b[..j][i] == c[..j][i] == c[i];
    } else if j < i {
      assert a[j] == a[..i][j] == b[..i][j] == b[j];
    }
    assert LessAt(a, c, m);
  }

  lemma LessAsymmetric(a: Key, b: Key)
    requires Less(a, b)
    ensures !Less(b, a)
  {
  }

  lemma LessTotal(a: Key, b: Key)
    ensures a == b || Less(a, b) || Less(b, a)
  {
    var i := CommonPrefix(a, b);
    if i < |a| && i < |b| {
      SlotInjective(a[i], b[i]);
    }
    assert a == a[..|a|] && b == b[..|b|];
    assert a == b || LessAt(a, b, i) || LessAt(b, a, i);
  }

  /** Length of the longest common prefix. */
  function CommonPrefix(a: Key, b: Key): (i: nat)
    ensures i <= |a| && i <= |b| && a[..i] == b[..i]
    ensures i == |a| || i == |b| || a[i] != b[i]
  {
    if a == [] || b == [] || a[0] != b[0] then 0
    else
      var i := 1 + CommonPrefix(a[1..], b[1..]);
      assert a[..i] == [a[0]] + a[1..][..i-1] && b[..i] == [b[0]] + b[1..][..i-1];
      i
  }

  // ---------- sorted enumerations ----------

  ghost predicate Sorted(ks: seq<Key>) {
    forall i, j :: 0 <= i < j < |ks| ==> Less(ks[i], ks[j])
  }

  ghost function Elements<T>(s: seq<T>): set<T> {
    set x | x in s
  }

  /** A set of keys has at most one sorted enumeration. */
  lemma {:induction false} SortedUnique(xs: seq<Key>, ys: seq<Key>)
    requires Sorted(xs) && Sorted(ys)
    requires Elements(xs) == Elements(ys)
    ensures xs == ys
  {
    assert xs != [] ==> xs[0] in Elements(xs);
    assert ys != [] ==> ys[0] in Elements(ys);
    if xs == [] || ys == [] {
    } else {
      HeadIsLeast(xs, ys);
      HeadIsLeast(ys, xs);
      if xs[0] != ys[0] {
        LessAsymmetric(xs[0], ys[0]);
      }
      TailElements(xs);
      TailElements(ys);
      SortedUnique(xs[1..], ys[1..]);
    }
  }

  lemma HeadIsLeast(xs: seq<Key>, ys: seq<Key>)
    requires Sorted(xs) && xs != [] && ys != []
    requires Elements(xs) == Elements(ys)
    ensures xs[0] == ys[0] || Less(xs[0], ys[0])
  {
    assert ys[0] in Elements(ys);
    var i :| 0 <= i < |xs| && xs[i] == ys[0];
  }

  lemma TailElements(xs: seq<Key>)
    requires Sorted(xs) && xs != []
    ensures Elements(xs[1..]) == Elements(xs) - {xs[0]}
    ensures Sorted(xs[1..])
  {
  }

  /** The sorted enumeration of a set of keys. */
  ghost function Enumerate(K: set<Key>): (ks: seq<Key>)
    ensures Sorted(ks) && Elements(ks) == K && |ks| == |K|
  {
    if K == {} then []
    else
      var k :| k in K;
      var rest := Enumerate(K - {k});
      InsertSorted(k, rest);
      Insert(k, rest)
  }

  ghost function Insert(k: Key, ks: seq<Key>): (r: seq<Key>)
    ensures |r| == |ks| + 1
  {
    if ks == [] || Less(k, ks[0]) then [k] + ks else [ks[0]] + Insert(k, ks[1..])
  }

  lemma {:induction false} InsertSorted(k: Key, ks: seq<Key>)
    requires Sorted(ks) && k !in ks
    ensures Sorted(Insert(k, ks)) && Elements(Insert(k, ks)) == Elements(ks) + {k}
  {
    if ks == [] {
    } else if Less(k, ks[0]) {
      forall j | 0 <= j < |ks|
        ensures Less(k, ks[j])
      {
        if j > 0 {
          LessTransitive(k, ks[0], ks[j]);
        }
      }
    } else {
      LessTotal(k, ks[0]);
      InsertSorted(k, ks[1..]);
      var r := Insert(k, ks[1..]);
      forall j | 0 <= j < |r|
        ensures Less(ks[0], r[j])
      {
        assert r[j] in Elements(r);
      }
      assert ks == [ks[0]] + ks[1..];
      forall x
        ensures x in Insert(k, ks) <==> x in ks || x == k
      {
        assert x in Elements(r) <==> x in Elements(ks[1..]) || x == k;
      }
    }
  }

  /** The keys of `ks` that lie in `K`, in order. */
  ghost function Select(ks: seq<Key>, K: set<Key>): (r: seq<Key>)
    ensures forall i :: 0 <= i < |r| ==> r[i] in K
  {
    if ks == [] then []
    else Select(ks[..|ks|-1], K) + (if ks[|ks|-1] in K then [ks[|ks|-1]] else [])
  }

  lemma {:induction false} SelectSorted(ks: seq<Key>, K: set<Key>)
    requires Sorted(ks)
    ensures Sorted(Select(ks, K)) && forall x :: x in Select(ks, K) <==> x in ks && x in K
  {
    if ks != [] {
      var rest, last := ks[..|ks|-1], ks[|ks|-1];
      SelectSorted(rest, K);
      assert ks == rest + [last];
      forall x | x in rest
        ensures Less(x, last)
      {
        var i :| 0 <= i < |rest| && rest[i] == x;
        assert Less(ks[i], ks[|rest|]);
      }
      var s := Select(rest, K);
      forall i | 0 <= i < |s|
        ensures Less(s[i], last)
      {
        assert s[i] in s;
      }
    }
  }

  /** Selecting from a sorted enumeration enumerates the selected set. */
  lemma SelectEnumerates(N: set<Key>, K: set<Key>)
    requires K <= N
    ensures Select(Enumerate(N), K) == Enumerate(K)
  {
    var ks := Enumerate(N);
    SelectSorted(ks, K);
    assert forall x :: x in Elements(Select(ks, K)) <==> x in Elements(ks) && x in K;
    SortedUnique(Select(ks, K), Enumerate(K));
  }

  // ---------- the keys of a dictionary in visiting order ----------

  function SlotLess(a: Key, b: Key): bool {
    var i := CommonPrefix(a, b);
    i < |b| && (i == |a| || Slot(a[i]) < Slot(b[i]))
  }

  lemma SameBytes(a: Key, b: Key, n: nat)
    requires n <= |a| && n <= |b| && a[..n] == b[..n]
    ensures forall m :: 0 <= m < n ==> a[m] == b[m]
  {
  }

  lemma SlotLessIff(a: Key, b: Key)
    ensures SlotLess(a, b) <==> Less(a, b)
  {
    var i := CommonPrefix(a, b);
    if SlotLess(a, b) {
      assert LessAt(a, b, i);
    }
    if Less(a, b) {
      var j: nat :| LessAt(a, b, j);
      SameBytes(a, b, i);
      SameBytes(a, b, j);
    }
  }

  /** Puts a key where it belongs. */
  method InsertKey(k: Key, ks: seq<Key>) returns (r: seq<Key>)
    requires Sorted(ks) && k !in ks
    ensures Sorted(r) && Elements(r) == Elements(ks) + {k}
  {
    hide Insert, SlotLess;
    InsertSorted(k, ks);
    var i := 0;
    InsertStep(k, ks, 0);
    while i < |ks| && !SlotLess(k, ks[i])
      invariant 0 <= i <= |ks| && Insert(k, ks) == ks[..i] + Insert(k, ks[i..])
    {
      InsertStep(k, ks, i);
      i := i + 1;
    }
    InsertStep(k, ks, i);
    r := ks[..i] + [k] + ks[i..];
  }

  lemma {:induction false} InsertStep(k: Key, ks: seq<Key>, i: nat)
    requires i <= |ks|
    ensures i == 0 ==> Insert(k, ks) == ks[..i] + Insert(k, ks[i..])
    ensures if i < |ks| && !SlotLess(k, ks[i])
            then ks[..i] + Insert(k, ks[i..]) == ks[..i + 1] + Insert(k, ks[i + 1..])
            else ks[..i] + Insert(k, ks[i..]) == ks[..i] + [k] + ks[i..]
  {
    assert ks[0..] == ks && ks[..0] == [];
    if i < |ks| {
      SlotLessIff(k, ks[i]);
      assert ks[i..][0] == ks[i] && ks[i..][1..] == ks[i + 1..];
      assert ks[..i] + [ks[i]] == ks[..i + 1];
    }
  }

  /** The keys of a dictionary with data, in the order of the downward visitor, which skips the root. */
  method Visit(K: set<Key>) returns (ks: seq<Key>)
    ensures ks == Enumerate(K - {[]})
  {
    ks := [];
    var rest := K - {[]};
    while rest != {}
      invariant rest <= K - {[]} && Sorted(ks) && Elements(ks) == K - {[]} - rest
      decreases |rest|
    {
      var k :| k in rest;
      assert k !in Elements(ks);
      ks := InsertKey(k, ks);
      rest := rest - {k};
    }
    SortedUnique(ks, Enumerate(K - {[]}));
  }
}
