/** The doubly linked list with an end sentinel, and its iterators. */
module Lists {
  import opened Wrappers

  /** A link of a list; the end sentinel is the only one without data. */
  class Link<T> {
    var next: Link?<T>
    var prev: Link?<T>
    var data: Option<T>

    constructor (data: Option<T>)
      ensures this.data == data && next == null && prev == null
    {
      this.data := data;
      next, prev := null, null;
    }
  }

  // ---------- cursors ----------

  /** Where an iterator stands: nowhere yet, at an element, or at the end sentinel behind the elements. */
  datatype Cursor = Unset | At(pos: nat)

  /** A step forward over `n` elements; from nowhere it leads to `first`. Behind the sentinel there is only
      null, which leads nowhere but differs from the sentinel and so reads as success. */
  function Ahead(n: nat, first: nat, c: Cursor): (Cursor, bool) {
    if n == 0 then (c, false)
    else
      match c
      case Unset => (At(first), first != n)
      case At(i) => if i == n then (Unset, true) else (At(i + 1), i + 1 != n)
  }

  /** A step back; from nowhere it leads to the last element. */
  function Back(n: nat, c: Cursor): (Cursor, bool) {
    if n == 0 then (c, false)
    else
      match c
      case Unset => (At(n - 1), true)
      case At(i) => if i == 0 then (Unset, false) else (At(i - 1), true)
  }

  /** A step forward is undone by a step back, except from the sentinel; a step back by a step forward,
      except from nowhere. */
  lemma StepsUndo(n: nat, c: Cursor)
    requires n > 0 && (c.At? ==> c.pos <= n)
    ensures Back(n, Ahead(n, 0, c).0).0 == c <==> c != At(n)
    ensures Ahead(n, 0, Back(n, c).0).0 == c <==> c != Unset
  {
  }

  // ---------- lists ----------

  /** `s` with `x` inserted at position `k`. */
  ghost function WithAt<A>(s: seq<A>, k: nat, x: A): seq<A>
    requires k <= |s|
  {
    s[..k] + [x] + s[k..]
  }

  class List<T> {
    var begin: Link?<T>
    var end: Link?<T>
    var size: nat
    ghost var links: seq<Link<T>>
    ghost var contents: seq<T>
    ghost var Repr: set<object>

    /** The sentinel is made by the first push. A list emptied by popping keeps a stale `begin`. */
    ghost predicate Valid()
      reads this, Repr
    {
      && size == |links| == |contents| && this in Repr && (end != null ==> end in Repr)
      && (forall i :: 0 <= i < |links| ==> links[i] in Repr)
      && (end == null ==> begin == null && links == [])
      && (end != null ==> end !in links && end.next == null && end.data == None && end.prev == Before(|links|))
      && (links != [] ==> begin == links[0])
      && (forall i :: 0 <= i < |links| ==> Placed(i))
      && (forall i, j :: 0 <= i < j < |links| ==> links[i] != links[j])
    }

    ghost function Before(i: nat): Link?<T>
      requires i <= |links|
      reads this
    {
      if i == 0 then null else links[i - 1]
    }

    /** The link at a position; the sentinel stands behind the last. */
    ghost function LinkAt(i: nat): Link?<T>
      requires i <= |links|
      reads this
    {
      if i == |links| then end else links[i]
    }

    ghost predicate Placed(i: nat)
      requires i < |links| == |contents|
      reads this, links
    {
      links[i].prev == Before(i) && links[i].next == LinkAt(i + 1) && links[i].data == Some(contents[i])
    }

    /** Never pushed to, or not emptied. */
    ghost predicate Iterable()
      reads this
    {
      end == null || contents != []
    }

    constructor ()
      ensures Valid() && contents == [] && end == null && fresh(Repr)
    {
      begin, end, size := null, null, 0;
      links, contents, Repr := [], [], {this};
    }

    /** The links around a new link at position `k` are set; nothing else changed. */
    twostate predicate Spliced(new link: Link<T>, new k: nat, new x: T)
      requires old(Valid()) && k <= |old(links)| && Repr == old(Repr) + {link}
      reads this, Repr
    {
      var node, before := old(LinkAt(k)), old(Before(k));
      && node != null && end == old(end) && link !in old(Repr)
      && links == WithAt(old(links), k, link) && contents == WithAt(old(contents), k, x)
      && size == old(size) + 1 && begin == (if before == null then link else old(begin))
      && link.data == Some(x) && link.prev == before && link.next == node
      && node.prev == link && node.next == old(node.next) && node.data == old(node.data)
      && (before != null ==> before.next == link && before.prev == old(before.prev) && before.data == old(before.data))
      && forall o :: o in old(Repr) && o != this && o != node && o != before ==> unchanged(o)
    }

    /** A link keeps its data, and its neighbours except for the new one. */
    twostate predicate Relinked(other: Link<T>, new link: Link<T>, new behind: bool, new front: bool)
      reads other
    {
      && other.data == old(other.data)
      && other.next == (if behind then link else old(other.next))
      && other.prev == (if front then link else old(other.prev))
    }

    /** The neighbours of a new link point at it; nothing else of the list has changed. */
    twostate lemma OthersKept(new link: Link<T>, new k: nat, new x: T)
      requires old(Valid()) && k <= |old(links)| && Repr == old(Repr) + {link} && Spliced(link, k, x)
      ensures end != null && end.next == null && end.data == None
      ensures end.prev == (if k == |old(links)| then link else old(end.prev))
      ensures forall i {:trigger old(links[i])} :: 0 <= i < |old(links)| ==>
        Relinked(old(links[i]), link, i + 1 == k, i == k)
    {
    }

    twostate lemma SplicedIsValid(new link: Link<T>, new k: nat, new x: T)
      requires old(Valid()) && k <= |old(links)| && Repr == old(Repr) + {link} && Spliced(link, k, x)
      ensures Valid() && Iterable()
      ensures contents == WithAt(old(contents), k, x) && |links| > k && links[k] == link
    {
      OthersKept(link, k, x);
      forall i | 0 <= i < |links|
        ensures Placed(i)
      {
        if i < k {
          assert old(Placed(i)) && links[i] == old(links[i]);
        } else if i > k {
          assert old(Placed(i - 1)) && links[i] == old(links[i - 1]);
        }
      }
    }

    /** A link stands at one position; its neighbours are linked to it. */
    lemma Neighbours(i: nat)
      requires Valid() && i <= |links| && end != null
      ensures var before, here := Before(i), LinkAt(i);
        here != null && here.prev == before && (before != null ==> before.next == here) && here in Repr
      ensures |links| == |contents| && end in Repr && forall other :: other in links ==> other in Repr
    {
      assert i < |links| ==> Placed(i);
      assert i > 0 ==> Placed(i - 1);
    }

    /** The only position at which a link, or the sentinel, stands. */
    ghost function PositionOf(node: Link<T>): (i: nat)
      requires Valid() && (node in links || node == end)
      reads Repr
      ensures i <= |links| && LinkAt(i) == node && forall j: nat :: j <= |links| && LinkAt(j) == node ==> j == i
    {
      if node == end then |links| else
        var i: nat :| i < |links| && links[i] == node;
        i
    }

    /** In front of a link there is room for a new one. */
    lemma FrontPlace(node: Link<T>)
      requires Valid() && (node in links || node == end)
      ensures var i := PositionOf(node);
        && i <= |links| == |contents| && node.prev == Before(i) && node == LinkAt(i)
        && this in Repr && node in Repr && end != null
        && (node.prev != null ==> node.prev in Repr && node.prev.next == node && node.prev != node)
    {
      Neighbours(PositionOf(node));
    }

    /** Inserts behind a link; without one, the list is started over with a single element. */
    method Push(node: Link?<T>, x: T) returns (link: Link<T>)
      requires Valid() && (node == null || node in links)
      modifies Repr
      ensures Valid() && fresh(Repr - old(Repr)) && Iterable()
      ensures node == null ==> contents == [x] && links == [link]
      ensures node != null ==> var i := old(PositionOf(node)) + 1;
        && i <= |old(contents)| && contents == WithAt(old(contents), i, x)
        && |links| > i && links[i] == link
    {
      if node == null {
        link := StartOver(x);
      } else {
        link := PushBehind(node, x);
      }
    }

    method PushBehind(node: Link<T>, x: T) returns (link: Link<T>)
      requires Valid() && node in links
      modifies Repr
      ensures Valid() && fresh(Repr - old(Repr)) && Iterable()
      ensures var i := old(PositionOf(node)) + 1;
        && i <= |old(contents)| && contents == WithAt(old(contents), i, x)
        && |links| > i && links[i] == link
    {
      link := new Link(Some(x));
      ghost var i := PositionOf(node);
      Neighbours(i + 1);
      hide Valid, WithAt, PositionOf, LinkAt, Before;
      var temp := node.next;
      node.next, link.prev, link.next, temp.prev := link, node, temp, link;
      size := size + 1;
      links, contents := WithAt(links, i + 1, link), WithAt(contents, i + 1, x);
      Repr := Repr + {link};
      SplicedIsValid(link, i + 1, x);
      hide *;
    }

    /** A list of one link in front of the sentinel. */
    ghost predicate Single(link: Link<T>, x: T)
      reads this, Repr
    {
      && begin == link && size == 1 && links == [link] && contents == [x] && {this, link} <= Repr
      && end != null && end != link && end in Repr
      && link.next == end && link.prev == null && link.data == Some(x)
      && end.prev == link && end.next == null && end.data == None
    }

    lemma SingleIsValid(link: Link<T>, x: T)
      requires Single(link, x)
      ensures Valid() && Iterable()
    {
    }

    /** The end sentinel, if there is one, is no other link. */
    lemma SentinelKnown()
      requires Valid()
      ensures this in Repr && (end != null ==> end in Repr)
    {
    }

    /** The list with a single element; the sentinel is kept. */
    method StartOver(x: T) returns (link: Link<T>)
      requires Valid()
      modifies Repr
      ensures Valid() && fresh(Repr - old(Repr)) && Iterable()
      ensures contents == [x] && links == [link]
    {
      hide Valid;
      SentinelKnown();
      link := new Link(Some(x));
      begin, size := link, 1;
      links, contents := [link], [x];
      if end == null {
        end := new Link<T>(None);
      }
      begin.next, end.prev, end.next, end.data := end, begin, null, None;
      Repr := Repr + {link, end};
      SingleIsValid(link, x);
    }

    /** Inserts in front of a link, or of the sentinel. */
    method PushFront(node: Link<T>, x: T) returns (link: Link<T>)
      requires Valid() && (node in links || node == end)
      modifies Repr
      ensures Valid() && fresh(Repr - old(Repr)) && Iterable()
      ensures var i := old(PositionOf(node));
        && i <= |old(contents)| && contents == WithAt(old(contents), i, x)
        && |links| > i && links[i] == link
    {
      hide Valid, WithAt, PositionOf, LinkAt, Before;
      link := new Link(Some(x));
      ghost var i := PositionOf(node);
      FrontPlace(node);
      var temp := node.prev;
      node.prev, link.next, link.prev := link, node, temp;
      if temp != null {
        temp.next := link;
      } else {
        begin := link;
      }
      size := size + 1;
      links, contents := WithAt(links, i, link), WithAt(contents, i, x);
      Repr := Repr + {link};
      SplicedIsValid(link, i, x);
      hide *;
    }

    method PushBack(x: T) returns (link: Link<T>)
      requires Valid()
      modifies Repr
      ensures Valid() && fresh(Repr - old(Repr)) && Iterable()
      ensures contents == old(contents) + [x] && links != [] && links[|links| - 1] == link
    {
      assert end != null ==> end.prev == Before(|links|);
      assert contents[..|links|] == contents;
      assert links != [] ==> LinkAt(|links| - 1) == end.prev;
      link := Push(if end != null then end.prev else null, x);
    }

    /** Unlinks the last element; `begin` still points at it when it was the only one. */
    method PopBack() returns (link: Link?<T>)
      requires Valid()
      modifies Repr
      ensures Valid() && Repr == old(Repr)
      ensures old(contents) == [] ==> link == null && contents == []
      ensures old(contents) != [] ==>
        |old(links)| > 0 && link == old(links)[|old(links)| - 1]
        && contents == old(contents)[..|old(contents)| - 1]
    {
      if size == 0 {
        return null;
      }
      Neighbours(size);
      Neighbours(size - 1);
      link := end.prev;
      if end.prev.prev != null {
        end.prev.prev.next := end;
      }
      end.prev := end.prev.prev;
      size := size - 1;
      links, contents := links[..size], contents[..size];
      forall i | 0 <= i < size
        ensures Placed(i)
      {
        assert old(Placed(i)) && links[i] == old(links[i]);
      }
    }

    /** A forward iterator; on a list emptied by popping it starts at the popped link. */
    method Iterate() returns (it: Iterator<T>)
      requires Valid()
      ensures fresh(it) && it.list == this && it.first == 0 && it.at == Unset
      ensures it.begin == begin && it.end == end && it.current == null && (Iterable() ==> it.Valid())
    {
      it := new Iterator(begin, end, this, 0);
    }

    method IterateBack() returns (it: Iterator<T>)
      requires Valid()
      ensures fresh(it) && it.list == this && it.first == |links| && it.at == Unset
      ensures it.begin == end && it.end == end && it.current == null && (Iterable() ==> it.Valid())
    {
      it := new Iterator(end, end, this, |links|);
    }
  }

  // ---------- iterators ----------

  class Iterator<T> {
    var begin: Link?<T>
    var end: Link?<T>
    var current: Link?<T>
    ghost const list: List<T>
    ghost const first: nat
    ghost var at: Cursor

    ghost predicate Valid()
      reads this, list, list.Repr
    {
      && list.Valid() && list.Iterable() && first <= |list.links| && (at.At? ==> at.pos <= |list.links|)
      && begin == list.LinkAt(first) && end == list.end
      && (list.links == [] ==> at == Unset)
      && current == match at case Unset => null case At(i) => list.LinkAt(i)
    }

    constructor (begin: Link?<T>, end: Link?<T>, ghost list: List<T>, ghost first: nat)
      requires list.Valid() && first <= |list.links| && end == list.end
      ensures this.list == list && this.first == first && at == Unset
      ensures this.begin == begin && this.end == end && current == null
      ensures list.Iterable() && begin == list.LinkAt(first) ==> Valid()
    {
      this.begin, this.end, current := begin, end, null;
      this.list, this.first, at := list, first, Unset;
    }

    method Next() returns (ok: bool)
      requires Valid()
      modifies this
      ensures Valid()
      ensures at == Ahead(|list.contents|, first, old(at)).0 && ok == Ahead(|list.contents|, first, old(at)).1
      ensures begin == old(begin) && end == old(end)
      ensures begin == null ==> !ok && current == old(current)
      ensures begin != null ==>
        (ok <==> current != end) && current == if old(current) == null then begin else old(current.next)
    {
      if begin == null {
        return false;
      }
      at := Ahead(|list.contents|, first, at).0;
      if current == null {
        current := begin;
        return current != end;
      }
      assert old(at.pos) < |list.links| ==> list.Placed(old(at.pos));
      current := current.next;
      return current != end;
    }

    method Prev() returns (ok: bool)
      requires Valid()
      modifies this
      ensures Valid()
      ensures at == Back(|list.contents|, old(at)).0 && ok == Back(|list.contents|, old(at)).1
      ensures begin == old(begin) && end == old(end)
      ensures end == null ==> !ok && current == old(current)
      ensures end != null ==>
        (ok <==> current != null) && current == old(if current == null then end.prev else current.prev)
    {
      if end == null {
        return false;
      }
      at := Back(|list.contents|, at).0;
      if current == null {
        current := end.prev;
        return current != null;
      }
      assert old(at.pos) < |list.links| ==> list.Placed(old(at.pos));
      current := current.prev;
      return current != null;
    }

    /** An iterator at an element holds its link. */
    lemma Here()
      requires Valid()
      ensures (current == null <==> at == Unset) && |list.links| == |list.contents|
      ensures at.At? && at.pos < |list.contents| ==> current == list.LinkAt(at.pos) && current in list.links
    {
    }

    /** The element at the iterator; null before the first and at the sentinel. */
    method Get() returns (x: Option<T>)
      requires Valid()
      ensures x == if at.At? && at.pos < |list.contents| then Some(list.contents[at.pos]) else None
    {
      if current == null {
        return None;
      }
      assert at.pos < |list.links| ==> list.Placed(at.pos);
      return current.data;
    }
  }

  /** Stepping forward until the end yields the elements in order. */
  method Forward<T>(list: List<T>) returns (items: seq<T>)
    requires list.Valid() && list.Iterable()
    ensures items == list.contents
  {
    items := [];
    var it := list.Iterate();
    var ok := it.Next();
    while ok
      invariant it.Valid() && it.list == list && it.first == 0 && fresh(it) && |items| <= |list.contents|
      invariant items == list.contents[..|items|]
      invariant if ok then it.at == At(|items|) && |items| < |list.contents| else |items| == |list.contents|
      decreases ok, |list.contents| - |items|
    {
      var x := it.Get();
      items := items + [x.value];
      ok := it.Next();
    }
  }

  /** Stepping back until the front yields them in reverse order. */
  method Backward<T>(list: List<T>) returns (items: seq<T>)
    requires list.Valid() && list.Iterable()
    ensures |items| == |list.contents|
    ensures forall i :: 0 <= i < |items| ==> items[i] == list.contents[|items| - 1 - i]
  {
    items := [];
    ghost var n := |list.contents|;
    var it := list.IterateBack();
    var ok := it.Prev();
    while ok
      invariant it.Valid() && it.list == list && fresh(it) && |items| <= n == |list.contents|
      invariant forall i :: 0 <= i < |items| ==> items[i] == list.contents[n - 1 - i]
      invariant if ok then |items| < n && it.at == At(n - 1 - |items|) else |items| == n
      decreases ok, n - |items|
    {
      var x := it.Get();
      items := items + [x.value];
      ok := it.Prev();
    }
  }
}
