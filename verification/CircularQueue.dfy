/**
  The circular doubly linked queue of src/common/queue.h, at pointer level.

  The macros use the address of the queue head, cast to an element pointer, as
  the end marker in both directions; here the end marker is `null`.  A node
  carries its links and an immutable payload, as an element with an embedded
  CIRCLEQ_ENTRY does.
*/
module CircularQueue {

  class Node<T> {
    var next: Node?<T>
    var prev: Node?<T>
    const data: T

    constructor (data: T)
      ensures this.data == data
    {
      this.data := data;
      next, prev := null, null;
    }
  }

  // ----- sorted insertion, on sequences

  /** A comparer that orders its arguments: total, and transitive. */
  ghost predicate IsTotalPreorder<T(!new)>(cmp: (T, T) -> int) {
    && (forall a, b :: cmp(a, b) < 0 || cmp(b, a) <= 0)
    && (forall a, b :: cmp(a, b) < 0 ==> cmp(b, a) > 0)
    && (forall a, b, c :: cmp(a, b) <= 0 && cmp(b, c) <= 0 ==> cmp(a, c) <= 0)
  }

  ghost predicate SortedBy<T>(cmp: (T, T) -> int, s: seq<T>) {
    forall i, j :: 0 <= i < j < |s| ==> cmp(s[i], s[j]) <= 0
  }

  /** `k` is where SORTEDQ_INSERT stops: the first element not below `x`, or the end. */
  predicate StopsAt<T>(cmp: (T, T) -> int, s: seq<T>, x: T, k: nat) {
    && k <= |s|
    && (forall i :: 0 <= i < k ==> cmp(s[i], x) < 0)
    && (k < |s| ==> cmp(s[k], x) >= 0)
  }

  /** Nothing from the stop position on is below `x`. */
  lemma StopBounds<T(!new)>(cmp: (T, T) -> int, s: seq<T>, x: T, k: nat)
    requires IsTotalPreorder(cmp) && SortedBy(cmp, s) && StopsAt(cmp, s, x, k)
    ensures forall j :: k <= j < |s| ==> cmp(x, s[j]) <= 0
  {
    forall j | k <= j < |s| ensures cmp(x, s[j]) <= 0 {
      assert cmp(x, s[k]) <= 0;
      if k < j {
        assert cmp(s[k], s[j]) <= 0;
      }
    }
  }

  /** Inserting at the stop position keeps a sorted sequence sorted and adds exactly `x`. */
  lemma SortedInsertKeepsOrder<T(!new)>(cmp: (T, T) -> int, s: seq<T>, x: T, k: nat)
    requires IsTotalPreorder(cmp) && SortedBy(cmp, s) && StopsAt(cmp, s, x, k)
    ensures SortedBy(cmp, s[..k] + [x] + s[k..])
    ensures multiset(s[..k] + [x] + s[k..]) == multiset(s) + multiset{x}
  {
    StopBounds(cmp, s, x, k);
    OrderAfterInsert(cmp, s, x, k);
    InsertAddsOne(s, x, k);
  }

  lemma InsertAddsOne<T>(s: seq<T>, x: T, k: nat)
    requires k <= |s|
    ensures multiset(s[..k] + [x] + s[k..]) == multiset(s) + multiset{x}
  {
    assert s == s[..k] + s[k..];
  }

  lemma OrderAfterInsert<T>(cmp: (T, T) -> int, s: seq<T>, x: T, k: nat)
    requires SortedBy(cmp, s) && k <= |s|
    requires forall i :: 0 <= i < k ==> cmp(s[i], x) < 0
    requires forall j :: k <= j < |s| ==> cmp(x, s[j]) <= 0
    ensures SortedBy(cmp, s[..k] + [x] + s[k..])
  {
    var r := s[..k] + [x] + s[k..];
    forall i, j | 0 <= i < j < |r|
      ensures cmp(r[i], r[j]) <= 0
    {
      var si := if i < k then i else i - 1;
      var sj := if j < k then j else j - 1;
      assert i != k ==> r[i] == s[si];
      assert j != k ==> r[j] == s[sj];
    }
  }

  // ----- the heap structure

  class Queue<T(!new)> {
    var first: Node?<T>
    var last: Node?<T>
    ghost var nodes: seq<Node<T>>
    ghost var contents: seq<T>

    /** `contents` lists the payloads; neighbours point at each other, and the ends at the head. */
    ghost predicate Valid()
      reads this, nodes
    {
      && |contents| == |nodes|
      && (forall i {:trigger contents[i]} :: 0 <= i < |nodes| ==> contents[i] == nodes[i].data)
      && first == (if nodes == [] then null else nodes[0])
      && last == (if nodes == [] then null else nodes[|nodes| - 1])
      && (forall i {:trigger nodes[i].next} :: 0 <= i < |nodes| ==>
            nodes[i].next == (if i + 1 < |nodes| then nodes[i + 1] else null))
      && (forall i {:trigger nodes[i].prev} :: 0 <= i < |nodes| ==>
            nodes[i].prev == (if i > 0 then nodes[i - 1] else null))
    }

    /** The nodes in the queue. */
    ghost function Repr(): set<Node<T>>
      reads this
    {
      set n | n in nodes
    }

    /** No node occurs twice: walking back from two places reaches the head after different distances. */
    lemma {:induction false} NodesDistinct(i: nat, j: nat)
      requires Valid() && i < j < |nodes|
      ensures nodes[i] != nodes[j]
    {
      if i > 0 {
        assert nodes[i].prev == nodes[i - 1] && nodes[j].prev == nodes[j - 1];
        NodesDistinct(i - 1, j - 1);
      } else {
        assert nodes[i].prev == null && nodes[j].prev == nodes[j - 1];
      }
    }

    lemma OccursOnce(k: nat)
      requires Valid() && k < |nodes|
      ensures forall i :: 0 <= i < |nodes| && i != k ==> nodes[i] != nodes[k]
    {
      forall i | 0 <= i < |nodes| && i != k ensures nodes[i] != nodes[k] {
        if i < k {
          NodesDistinct(i, k);
        } else {
          NodesDistinct(k, i);
        }
      }
    }

    /** Forward and backward links are mutually inverse, and the head closes the circle. */
    lemma LinksAreInverse(n: Node<T>)
      requires Valid() && n in nodes
      ensures n.next != null ==> n.next in nodes && n.next.prev == n
      ensures n.prev != null ==> n.prev in nodes && n.prev.next == n
      ensures n.next == null <==> n == last
      ensures n.prev == null <==> n == first
    {
      var i :| 0 <= i < |nodes| && nodes[i] == n;
      if i + 1 < |nodes| {
        assert nodes[i + 1].prev == nodes[i];
      }
      if i > 0 {
        assert nodes[i - 1].next == nodes[i];
      }
    }

    /** The links of `was`, except that `elm` has been linked in before position `k`. */
    ghost predicate LinkedIn(was: seq<Node<T>>, k: nat, elm: Node<T>)
      reads this, was, elm
    {
      && k <= |was|
      && first == (if k == 0 then elm else was[0])
      && last == (if k == |was| then elm else was[|was| - 1])
      && elm.next == (if k < |was| then was[k] else null)
      && elm.prev == (if k > 0 then was[k - 1] else null)
      && (forall i {:trigger was[i].next} :: 0 <= i < |was| ==>
            was[i].next == if i == k - 1 then elm else if i + 1 < |was| then was[i + 1] else null)
      && (forall i {:trigger was[i].prev} :: 0 <= i < |was| ==>
            was[i].prev == if i == k then elm else if i > 0 then was[i - 1] else null)
    }

    lemma AfterInsert(was: seq<Node<T>>, had: seq<T>, k: nat, elm: Node<T>)
      requires LinkedIn(was, k, elm) && nodes == was[..k] + [elm] + was[k..]
      requires |had| == |was| && contents == had[..k] + [elm.data] + had[k..]
      requires forall i {:trigger had[i]} :: 0 <= i < |was| ==> had[i] == was[i].data
      ensures Valid()
      ensures forall n :: n in nodes ==> n in was || n == elm
    {
      forall i | 0 <= i < |nodes|
        ensures nodes[i].next == (if i + 1 < |nodes| then nodes[i + 1] else null)
        ensures nodes[i].prev == (if i > 0 then nodes[i - 1] else null)
      {
        if i < k {
          assert nodes[i] == was[i];
        } else if i > k {
          assert nodes[i] == was[i - 1];
        }
      }
    }

    /** The links of `was`, except that the node at position `k` has been bypassed. */
    ghost predicate LinkedOut(was: seq<Node<T>>, k: nat)
      reads this, was
    {
      && k < |was|
      && first == (if k > 0 then was[0] else if |was| > 1 then was[1] else null)
      && last == (if k < |was| - 1 then was[|was| - 1] else if |was| > 1 then was[|was| - 2] else null)
      && (forall i {:trigger was[i].next} :: 0 <= i < |was| && i != k ==>
            var j := if i == k - 1 then i + 2 else i + 1;
            was[i].next == if j < |was| then was[j] else null)
      && (forall i {:trigger was[i].prev} :: 0 <= i < |was| && i != k ==>
            var j := if i == k + 1 then i - 2 else i - 1;
            was[i].prev == if j >= 0 then was[j] else null)
    }

    lemma AfterRemove(was: seq<Node<T>>, had: seq<T>, k: nat)
      requires LinkedOut(was, k) && nodes == was[..k] + was[k + 1..]
      requires |had| == |was| && contents == had[..k] + had[k + 1..]
      requires forall i {:trigger had[i]} :: 0 <= i < |was| ==> had[i] == was[i].data
      requires forall i :: 0 <= i < |was| && i != k ==> was[i] != was[k]
      ensures Valid()
      ensures was[k] !in nodes && forall n :: n in nodes ==> n in was
    {
      forall i | 0 <= i < |nodes|
        ensures nodes[i].next == (if i + 1 < |nodes| then nodes[i + 1] else null)
        ensures nodes[i].prev == (if i > 0 then nodes[i - 1] else null)
      {
        if i < k {
          assert nodes[i] == was[i];
        } else {
          assert nodes[i] == was[i + 1];
        }
      }
    }

    constructor Init()
      ensures Valid() && nodes == [] && contents == []
    {
      first, last, nodes, contents := null, null, [], [];
    }

    /** The element gets position `m`, behind `listelm`. */
    method InsertAfter(listelm: Node<T>, elm: Node<T>, ghost m: nat)
      requires Valid() && elm !in Repr() && 0 < m <= |nodes| && nodes[m - 1] == listelm
      modifies this, elm, Repr()
      ensures Valid() && nodes == old(nodes)[..m] + [elm] + old(nodes)[m..]
      ensures contents == old(contents)[..m] + [elm.data] + old(contents)[m..]
    {
      OccursOnce(m - 1);
      if m < |nodes| {
        OccursOnce(m);
      }
      assert forall i :: 0 <= i < |nodes| ==> nodes[i] != elm;
      var next := listelm.next;
      elm.next := next;
      elm.prev := listelm;
      if next == null {
        last := elm;
      } else {
        next.prev := elm;
      }
      listelm.next := elm;
      ghost var was, had := nodes, contents;
      nodes, contents := was[..m] + [elm] + was[m..], had[..m] + [elm.data] + had[m..];
      AfterInsert(was, had, m, elm);
    }

    method InsertBefore(listelm: Node<T>, elm: Node<T>, ghost k: nat)
      requires Valid() && elm !in Repr() && k < |nodes| && nodes[k] == listelm
      modifies this, elm, Repr()
      ensures Valid() && nodes == old(nodes)[..k] + [elm] + old(nodes)[k..]
      ensures contents == old(contents)[..k] + [elm.data] + old(contents)[k..]
      ensures Repr() <= old(Repr()) + {elm}
    {
      OccursOnce(k);
      if k > 0 {
        OccursOnce(k - 1);
      }
      assert forall i :: 0 <= i < |nodes| ==> nodes[i] != elm;
      var prev := listelm.prev;
      elm.next := listelm;
      elm.prev := prev;
      if prev == null {
        first := elm;
      } else {
        prev.next := elm;
      }
      listelm.prev := elm;
      ghost var was, had := nodes, contents;
      nodes, contents := was[..k] + [elm] + was[k..], had[..k] + [elm.data] + had[k..];
      AfterInsert(was, had, k, elm);
    }

    method InsertHead(elm: Node<T>)
      requires Valid() && elm !in Repr()
      modifies this, elm, Repr()
      ensures Valid() && nodes == [elm] + old(nodes) && contents == [elm.data] + old(contents)
    {
      if nodes != [] {
        OccursOnce(0);
      }
      assert forall i :: 0 <= i < |nodes| ==> nodes[i] != elm;
      elm.next := first;
      elm.prev := null;
      if last == null {
        last := elm;
      } else {
        first.prev := elm;
      }
      first := elm;
      nodes, contents := [elm] + nodes, [elm.data] + contents;
    }

    method InsertTail(elm: Node<T>)
      requires Valid() && elm !in Repr()
      modifies this, elm, Repr()
      ensures Valid() && nodes == old(nodes) + [elm] && contents == old(contents) + [elm.data]
      ensures Repr() <= old(Repr()) + {elm}
    {
      if nodes != [] {
        OccursOnce(|nodes| - 1);
      }
      assert forall i :: 0 <= i < |nodes| ==> nodes[i] != elm;
      elm.next := null;
      elm.prev := last;
      if first == null {
        first := elm;
      } else {
        last.next := elm;
      }
      last := elm;
      nodes, contents := nodes + [elm], contents + [elm.data];
    }

    /** CIRCLEQ_REMOVE leaves the removed element's own links as they were. */
    method Remove(elm: Node<T>, ghost k: nat)
      requires Valid() && k < |nodes| && nodes[k] == elm
      modifies this, Repr()
      ensures Valid() && nodes == old(nodes)[..k] + old(nodes)[k + 1..]
      ensures contents == old(contents)[..k] + old(contents)[k + 1..]
      ensures elm !in Repr() && elm.next == old(elm.next) && elm.prev == old(elm.prev)
      ensures Repr() <= old(Repr())
    {
      OccursOnce(k);
      if k > 0 {
        OccursOnce(k - 1);
      }
      if k + 1 < |nodes| {
        OccursOnce(k + 1);
      }
      var next, prev := elm.next, elm.prev;
      if next == null {
        last := prev;
      } else {
        next.prev := prev;
      }
      if prev == null {
        first := next;
      } else {
        prev.next := next;
      }
      ghost var was, had := nodes, contents;
      nodes, contents := was[..k] + was[k + 1..], had[..k] + had[k + 1..];
      AfterRemove(was, had, k);
    }

    /** SORTEDQ_INSERT: scan for the first element not below `elm`, insert before it or at the tail. */
    method SortedInsert(elm: Node<T>, cmp: (T, T) -> int) returns (ghost k: nat)
      requires Valid() && elm !in Repr()
      modifies this, elm, Repr()
      ensures Valid()
      ensures StopsAt(cmp, old(contents), elm.data, k)
      ensures k <= |old(contents)| && forall i :: 0 <= i < k ==> cmp(old(contents)[i], elm.data) < 0
      ensures k < |old(contents)| ==> cmp(old(contents)[k], elm.data) >= 0
      ensures nodes == old(nodes)[..k] + [elm] + old(nodes)[k..]
      ensures contents == old(contents)[..k] + [elm.data] + old(contents)[k..]
      ensures Repr() <= old(Repr()) + {elm}
    {
      k := 0;
      var it := first;
      while it != null && cmp(it.data, elm.data) < 0
        invariant 0 <= k <= |nodes|
        invariant it == (if k < |nodes| then nodes[k] else null)
        invariant forall i :: 0 <= i < k ==> cmp(contents[i], elm.data) < 0
        decreases |nodes| - k
      {
        assert contents[k] == it.data;
        it := it.next;
        k := k + 1;
      }
      if it == null {
        InsertTail(elm);
      } else {
        assert contents[k] == it.data;
        InsertBefore(it, elm, k);
      }
    }
  }
}
