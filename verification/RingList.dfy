/** The kernel-style ring list of libqb: a circular doubly linked list of nodes that are
    embedded in the caller's structures. Every operation is pointer surgery on heap nodes;
    each one is proved to refine an operation on the ghost sequence of the ring's nodes. */
module RingList {

  import opened Options

  /** A `qb_list_head`. `entry` stands for the structure the node is embedded in, which the
      source recovers by pointer arithmetic; a list head that is embedded nowhere has None. */
  class Link<E> {
    var next: Link<E>
    var prev: Link<E>
    const entry: Option<E>

    constructor (entry: Option<E>)
      ensures this.entry == entry
      ensures Ring(this, [])
    {
      this.entry := entry;
      next := this;
      prev := this;
    }
  }

  ghost predicate NoDuplicates<T>(s: seq<T>) {
    forall i, j :: 0 <= i < j < |s| ==> s[i] != s[j]
  }

  /** `head` followed by the nodes of `s`, in order, is one whole ring. */
  ghost predicate Ring<E>(head: Link<E>, s: seq<Link<E>>)
    reads head, s
  {
    && head !in s
    && NoDuplicates(s)
    && head.next == (if |s| > 0 then s[0] else head)
    && head.prev == (if |s| > 0 then s[|s| - 1] else head)
    && (forall i {:trigger s[i].next} :: 0 <= i < |s| ==> s[i].next == if i + 1 < |s| then s[i + 1] else head)
    && (forall i {:trigger s[i].prev} :: 0 <= i < |s| ==> s[i].prev == if i > 0 then s[i - 1] else head)
  }

  lemma RingNodes<E>(head: Link<E>, s: seq<Link<E>>)
    requires Ring(head, s)
    ensures head !in s && NoDuplicates(s)
    ensures forall x :: x in s || x == head ==> (x.next == head || x.next in s) && (x.prev == head || x.prev in s)
  {
  }

  /** `t` inserted so that it starts at index `k`. */
  ghost function Insert<T>(s: seq<T>, k: nat, t: seq<T>): (r: seq<T>)
    requires k <= |s|
  {
    s[..k] + t + s[k..]
  }

  lemma InsertNoDuplicates<T>(s: seq<T>, k: nat, t: seq<T>)
    requires k <= |s|
    requires NoDuplicates(s) && NoDuplicates(t) && forall x :: x in t ==> x !in s
    ensures NoDuplicates(Insert(s, k, t))
    ensures forall i, j :: 0 <= i < |s| && 0 <= j < |t| ==> s[i] != t[j]
  {
    assert forall i :: 0 <= i < |t| ==> t[i] in t;
  }

  ghost function Remove<T>(s: seq<T>, k: nat): (r: seq<T>)
    requires k < |s|
  {
    s[..k] + s[k + 1..]
  }

  lemma RemoveContents<T>(s: seq<T>, k: nat)
    requires k < |s| && NoDuplicates(s)
    ensures forall x :: x in Remove(s, k) ==> x in s && x != s[k]
    ensures forall x :: x in s && x != s[k] ==> x in Remove(s, k)
  {
  }

  /** Taking out what was put in restores the sequence, and an end is the front or the back. */
  lemma InsertThenRemove<T>(s: seq<T>, k: nat, x: T)
    requires k <= |s|
    ensures Remove(Insert(s, k, [x]), k) == s
    ensures Insert(s, 0, [x]) == [x] + s && Insert(s, |s|, [x]) == s + [x]
    ensures forall y :: y in Insert(s, k, [x]) <==> y in s || y == x
  {
  }

  method Init<E>(head: Link<E>)
    modifies head`next, head`prev
    ensures Ring(head, [])
  {
    head.next := head;
    head.prev := head;
  }

  /** The nodes of `s` with those of `t` at index `k` form a ring when each stretch is linked
      inside and the two seams are joined. */
  lemma RingFromParts<E>(t: seq<Link<E>>, head: Link<E>, s: seq<Link<E>>, k: nat)
    requires k <= |s| && t != []
    requires head !in s && head !in t && NoDuplicates(Insert(s, k, t))
    requires forall i {:trigger s[i].next} :: 0 <= i < |s| && i != k - 1 ==>
               s[i].next == if i + 1 < |s| then s[i + 1] else head
    requires forall i {:trigger s[i].prev} :: 0 <= i < |s| && i != k ==> s[i].prev == if i > 0 then s[i - 1] else head
    requires forall i {:trigger t[i].next} :: 0 <= i < |t| - 1 ==> t[i].next == t[i + 1]
    requires forall i {:trigger t[i].prev} :: 0 < i < |t| ==> t[i].prev == t[i - 1]
    requires k > 0 ==> head.next == s[0]
    requires k < |s| ==> head.prev == s[|s| - 1]
    requires var at := if k > 0 then s[k - 1] else head; at.next == t[0] && t[0].prev == at
    requires var after := if k < |s| then s[k] else head; after.prev == t[|t| - 1] && t[|t| - 1].next == after
    ensures Ring(head, Insert(s, k, t))
  {
  }

  /** Links `element` in after `at`, which is the head or any node of the ring. */
  method Add<E>(element: Link<E>, at: Link<E>, ghost head: Link<E>, ghost s: seq<Link<E>>, ghost k: nat)
    requires Ring(head, s)
    requires element != head && element !in s
    requires k <= |s| && at == ([head] + s)[k]
    modifies element`next, element`prev, at`next, at.next`prev
    ensures Ring(head, Insert(s, k, [element]))
  {
    InsertNoDuplicates(s, k, [element]);
    assert at.next == (s + [head])[k];
    at.next.prev := element;
    element.next := at.next;
    element.prev := at;
    at.next := element;
    RingFromParts([element], head, s, k);
  }

  /** Links `element` in before `at`: at the end of the list when `at` is its head. */
  method AddTail<E>(element: Link<E>, at: Link<E>, ghost head: Link<E>, ghost s: seq<Link<E>>, ghost k: nat)
    requires Ring(head, s)
    requires element != head && element !in s
    requires k <= |s| && at == (s + [head])[k]
    modifies element`next, element`prev, at`prev, at.prev`next
    ensures Ring(head, Insert(s, k, [element]))
  {
    InsertNoDuplicates(s, k, [element]);
    assert at.prev == ([head] + s)[k];
    at.prev.next := element;
    element.next := at;
    element.prev := at.prev;
    at.prev := element;
    RingFromParts([element], head, s, k);
  }

  /** Without its node at `k` the ring is one when its neighbours are joined. */
  lemma RingWithout<E>(head: Link<E>, s: seq<Link<E>>, k: nat)
    requires k < |s| && head !in s && NoDuplicates(s)
    requires forall i {:trigger s[i].next} :: 0 <= i < |s| && i != k - 1 && i != k ==>
               s[i].next == if i + 1 < |s| then s[i + 1] else head
    requires forall i {:trigger s[i].prev} :: 0 <= i < |s| && i != k + 1 && i != k ==>
               s[i].prev == if i > 0 then s[i - 1] else head
    requires k > 0 ==> head.next == s[0]
    requires k + 1 < |s| ==> head.prev == s[|s| - 1]
    requires var before, after := if k > 0 then s[k - 1] else head, if k + 1 < |s| then s[k + 1] else head;
             before.next == after && after.prev == before
    ensures Ring(head, Remove(s, k))
  {
    var r := Remove(s, k);
    assert forall i :: 0 <= i < |r| ==> r[i] == s[if i < k then i else i + 1];
  }

  /** Unlinks one node, whose own pointers keep their values. */
  method Del<E>(node: Link<E>, ghost head: Link<E>, ghost s: seq<Link<E>>, ghost k: nat)
    requires Ring(head, s)
    requires k < |s| && node == s[k]
    modifies node.next`prev, node.prev`next
    ensures Ring(head, Remove(s, k))
    ensures node.next == old(node.next) && node.prev == old(node.prev)
  {
    hide Remove;
    assert node.next == (s + [head])[k + 1] && node.prev == ([head] + s)[k];
    node.next.prev := node.prev;
    node.prev.next := node.next;
    RingWithout(head, s, k);
  }

  /** Puts `other` in the place of `node`, an element of the ring or its head. */
  method Replace<E>(node: Link<E>, other: Link<E>, ghost head: Link<E>, ghost s: seq<Link<E>>, ghost k: nat)
    requires Ring(head, s)
    requires other != head && other !in s
    requires k <= |s| && node == ([head] + s)[k]
    modifies other`next, other`prev, node.next`prev, node.prev`next
    ensures k == 0 ==> Ring(other, s)
    ensures k > 0 ==> Ring(head, s[k - 1 := other])
  {
    other.next := node.next;
    other.next.prev := other;
    other.prev := node.prev;
    other.prev.next := other;
  }

  method IsLast<E>(node: Link<E>, head: Link<E>, ghost s: seq<Link<E>>) returns (last: bool)
    requires Ring(head, s) && node in s
    ensures last <==> node == s[|s| - 1]
  {
    last := node.next == head;
  }

  method Empty<E>(head: Link<E>, ghost s: seq<Link<E>>) returns (empty: bool)
    requires Ring(head, s)
    ensures empty <==> s == []
  {
    empty := head.next == head;
  }

  /** Moves the nodes of the ring `list` in after `at`. The head `list` keeps its pointers, so
      unless the list was empty they now lead into the other ring: it is not reinitialised. */
  method Splice<E>(list: Link<E>, at: Link<E>,
                   ghost t: seq<Link<E>>, ghost head: Link<E>, ghost s: seq<Link<E>>, ghost k: nat)
    requires Ring(list, t) && Ring(head, s)
    requires list != head && list !in s && head !in t && forall x :: x in t ==> x !in s
    requires k <= |s| && at == ([head] + s)[k]
    modifies list.next`prev, list.prev`next, at`next, at.next`prev
    ensures Ring(head, Insert(s, k, t))
    ensures list.next == old(list.next) && list.prev == old(list.prev)
    ensures t != [] ==> list.next.prev != list && list.prev.next != list
    ensures Ring(list, []) <==> t == []
  {
    InsertNoDuplicates(s, k, t);
    assert at.next == (s + [head])[k];
    var first, last, after := list.next, list.prev, at.next;
    var empty := Empty(list, t);
    if !empty {
      first.prev := at;
      at.next := first;
      last.next := after;
      after.prev := last;
      RingFromParts(t, head, s, k);
    }
  }

  /** Moves the nodes of the ring `list` in before `at`. */
  method SpliceTail<E>(list: Link<E>, at: Link<E>,
                       ghost t: seq<Link<E>>, ghost head: Link<E>, ghost s: seq<Link<E>>, ghost k: nat)
    requires Ring(list, t) && Ring(head, s)
    requires list != head && list !in s && head !in t && forall x :: x in t ==> x !in s
    requires k <= |s| && at == (s + [head])[k]
    modifies list.next`prev, list.prev`next, at`prev, at.prev`next
    ensures Ring(head, Insert(s, k, t))
    ensures list.next == old(list.next) && list.prev == old(list.prev)
    ensures t != [] ==> list.next.prev != list && list.prev.next != list
    ensures Ring(list, []) <==> t == []
  {
    InsertNoDuplicates(s, k, t);
    assert at.prev == ([head] + s)[k];
    var first, last := list.next, list.prev;
    var empty := Empty(list, t);
    if !empty {
      first.prev := at.prev;
      at.prev.next := first;
      last.next := at;
      at.prev := last;
      RingFromParts(t, head, s, k);
    }
  }

  method Length<E>(head: Link<E>, ghost s: seq<Link<E>>) returns (length: nat)
    requires Ring(head, s)
    requires |s| < 0x8000_0000
    ensures length == |s|
  {
    length := 0;
    var item := head.next;
    while item != head
      invariant length <= |s| && item == (s + [head])[length]
      decreases |s| - length
    {
      item := item.next;
      length := length + 1;
    }
  }
}
