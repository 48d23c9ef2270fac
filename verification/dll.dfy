/**
 * An intrusive, circular, doubly-linked list whose head doubles as a sentinel.
 *
 * A `Node` is the link structure a client record embeds; the same structure
 * serves as the head of a list. The head is never a member: the last member
 * links forward to the head and the first member links back to it, and an
 * empty list is a head whose two links point to itself.
 *
 * The members of a list are described by a ghost sequence `s` in list order;
 * `IsList(head, s)` ties that sequence to the links in the heap.
 */
module Dll {

  /** The embedded link structure, used both for members and for list heads. */
  class Node {
    var next: Node?
    var prev: Node?

    /** Storage for a link that has not been initialised yet: neither link is set. */
    constructor ()
      ensures next == null && prev == null
    {
      next := null;
      prev := null;
    }
  }

  /** No node appears twice in `s`. */
  ghost predicate Distinct(s: seq<Node>)
  {
    forall i, j :: 0 <= i < j < |s| ==> s[i] != s[j]
  }

  /** `s` with `x` inserted so that it becomes element number `j`. */
  ghost function InsertAt(s: seq<Node>, j: nat, x: Node): (t: seq<Node>)
    requires j <= |s|
    ensures |t| == |s| + 1
    ensures forall i :: 0 <= i < |t| ==> t[i] == (if i < j then s[i] else if i == j then x else s[i - 1])
  {
    s[..j] + [x] + s[j..]
  }

  /** `s` without its element number `k`. */
  ghost function DeleteAt(s: seq<Node>, k: nat): (t: seq<Node>)
    requires k < |s|
    ensures |t| == |s| - 1
    ensures forall i :: 0 <= i < |t| ==> t[i] == (if i < k then s[i] else s[i + 1])
  {
    s[..k] + s[k + 1..]
  }

  /** Inserting a node that is neither the head nor a member keeps the ring free of repetitions. */
  lemma InsertAtDistinct(head: Node, s: seq<Node>, j: nat, x: Node)
    requires j <= |s| && Distinct(s) && head !in s
    requires x != head && x !in s
    ensures Distinct(InsertAt(s, j, x)) && head !in InsertAt(s, j, x)
  {
  }

  /** A node whose two links point to itself: initialised and on no list. */
  ghost predicate Isolated(n: Node)
    reads n
  {
    n.next == n && n.prev == n
  }

  /**
   * `head` is the head of a well-formed list whose members are `s`, in order:
   * the ring head, s[0], ..., s[|s|-1] is closed in both directions, every
   * `next` link is mirrored by a `prev` link, and no node occurs twice.
   */
  ghost predicate IsList(head: Node, s: seq<Node>)
    reads head, s
    ensures IsList(head, s) ==> (head.next == head <==> s == []) && (head.prev == head <==> s == [])
  {
    && head !in s
    && Distinct(s)
    && head.next == (if s == [] then head else s[0])
    && head.prev == (if s == [] then head else s[|s| - 1])
    && (forall i {:trigger s[i].next} :: 0 <= i < |s| ==> s[i].next == (if i == |s| - 1 then head else s[i + 1]))
    && (forall i {:trigger s[i].prev} :: 0 <= i < |s| ==> s[i].prev == (if i == 0 then head else s[i - 1]))
  }

  /** Initialise a link: both links point to the node itself. */
  method MemberInit(m: Node)
    modifies m
    ensures Isolated(m)
    ensures IsList(m, [])
  {
    m.next := m;
    m.prev := m;
  }

  /** Initialise a list head: the result is the empty list. */
  method ListInit(list: Node)
    modifies list
    ensures Isolated(list)
    ensures IsList(list, [])
  {
    MemberInit(list);
  }

  /**
   * Splice `n` into the list right after `pos`. `pos` is the head when
   * `j == 0` and member s[j-1] otherwise, so that `n` becomes member number
   * `j`. `n` must not already be on the list; its old links are overwritten.
   */
  method AddAfter(n: Node, pos: Node, ghost list: Node, ghost s: seq<Node>, ghost j: nat)
    requires IsList(list, s)
    requires j <= |s| && pos == (if j == 0 then list else s[j - 1])
    requires n != list && n !in s
    modifies n, pos, pos.next
    ensures n.prev == pos && n.next == old(pos.next)
    ensures pos.next == n && old(pos.next).prev == n
    ensures old(pos.next) != pos ==> pos.prev == old(pos.prev) && old(pos.next).next == old(pos.next.next)
    ensures IsList(list, InsertAt(s, j, n))
  {
    ghost var succ := pos.next;
    n.prev := pos;
    n.next := pos.next;
    pos.next.prev := n;
    pos.next := n;
    ghost var t := InsertAt(s, j, n);
    forall i | 0 <= i < |t|
      ensures t[i].next == (if i == |t| - 1 then list else t[i + 1])
      ensures t[i].prev == (if i == 0 then list else t[i - 1])
    {
      if i < j {
        assert t[i] == s[i] && s[i] != n && s[i] != succ;
      } else if i > j {
        assert t[i] == s[i - 1] && s[i - 1] != n && s[i - 1] != pos;
      }
    }
    InsertAtDistinct(list, s, j, n);
  }

  /**
   * Splice `n` into the list right before `pos`. `pos` is the head when
   * `j == |s|` and member s[j] otherwise, so that `n` becomes member number
   * `j`. `n` must not already be on the list; its old links are overwritten.
   */
  method AddBefore(n: Node, pos: Node, ghost list: Node, ghost s: seq<Node>, ghost j: nat)
    requires IsList(list, s)
    requires j <= |s| && pos == (if j == |s| then list else s[j])
    requires n != list && n !in s
    modifies n, pos, pos.prev
    ensures n.next == pos && n.prev == old(pos.prev)
    ensures pos.prev == n && old(pos.prev).next == n
    ensures old(pos.prev) != pos ==> pos.next == old(pos.next) && old(pos.prev).prev == old(pos.prev.prev)
    ensures IsList(list, InsertAt(s, j, n))
  {
    ghost var pred := pos.prev;
    n.next := pos;
    n.prev := pos.prev;
    pos.prev.next := n;
    pos.prev := n;
    ghost var t := InsertAt(s, j, n);
    forall i | 0 <= i < |t|
      ensures t[i].next == (if i == |t| - 1 then list else t[i + 1])
      ensures t[i].prev == (if i == 0 then list else t[i - 1])
    {
      if i < j {
        assert t[i] == s[i] && s[i] != n && s[i] != pos;
      } else if i > j {
        assert t[i] == s[i - 1] && s[i - 1] != n && s[i - 1] != pred;
      }
    }
    InsertAtDistinct(list, s, j, n);
  }

  /**
   * Unlink member s[k]: its neighbours are made to point at each other.
   * The removed node's own links are left as they were, still pointing at
   * its former neighbours.
   */
  method Remove(m: Node, ghost list: Node, ghost s: seq<Node>, ghost k: nat)
    requires IsList(list, s)
    requires k < |s| && s[k] == m
    modifies m.prev, m.next
    ensures old(m.prev).next == old(m.next) && old(m.next).prev == old(m.prev)
    ensures m.next == old(m.next) && m.prev == old(m.prev)
    ensures IsList(list, DeleteAt(s, k))
  {
    m.prev.next := m.next;
    m.next.prev := m.prev;
    ghost var t := DeleteAt(s, k);
    forall i | 0 <= i < |t|
      ensures t[i].next == (if i == |t| - 1 then list else t[i + 1])
      ensures t[i].prev == (if i == 0 then list else t[i - 1])
    {
      if i < k {
        assert t[i] == s[i];
      } else {
        assert t[i] == s[i + 1];
      }
    }
  }

  /** Append `n` to the list: it is added before the head. */
  method Append(list: Node, n: Node, ghost s: seq<Node>)
    requires IsList(list, s)
    requires n != list && n !in s
    modifies list, n, list.prev
    ensures IsList(list, s + [n])
  {
    AddBefore(n, list, list, s, |s|);
    assert InsertAt(s, |s|, n) == s + [n];
  }

  /** Prepend `n` to the list: it is added after the head. */
  method Prepend(list: Node, n: Node, ghost s: seq<Node>)
    requires IsList(list, s)
    requires n != list && n !in s
    modifies list, n, list.next
    ensures IsList(list, [n] + s)
  {
    AddAfter(n, list, list, s, 0);
    assert InsertAt(s, 0, n) == [n] + s;
  }

  /**
   * The member after `m`, or null when `m` is the last member. Given the
   * head, this is the first member, or null when the list is empty.
   */
  function Next(list: Node, m: Node, ghost s: seq<Node>): (r: Node?)
    requires IsList(list, s) && (m == list || m in s)
    reads list, s
    ensures r != list
    ensures m == list ==> r == (if s == [] then null else s[0])
    ensures forall i :: 0 <= i < |s| && s[i] == m ==> r == (if i == |s| - 1 then null else s[i + 1])
  {
    if m.next == list then null else m.next
  }

  /**
   * The member before `m`, or null when `m` is the first member. Given the
   * head, this is the last member, or null when the list is empty.
   */
  function Prev(list: Node, m: Node, ghost s: seq<Node>): (r: Node?)
    requires IsList(list, s) && (m == list || m in s)
    reads list, s
    ensures r != list
    ensures m == list ==> r == (if s == [] then null else s[|s| - 1])
    ensures forall i :: 0 <= i < |s| && s[i] == m ==> r == (if i == 0 then null else s[i - 1])
  {
    if m.prev == list then null else m.prev
  }

  /** The first member, or null exactly when the list is empty. */
  function First(list: Node, ghost s: seq<Node>): (r: Node?)
    requires IsList(list, s)
    reads list, s
    ensures r == null <==> s == []
    ensures r != null ==> r == s[0]
  {
    Next(list, list, s)
  }

  /** The last member, or null exactly when the list is empty. */
  function Last(list: Node, ghost s: seq<Node>): (r: Node?)
    requires IsList(list, s)
    reads list, s
    ensures r == null <==> s == []
    ensures r != null ==> r == s[|s| - 1]
  {
    Prev(list, list, s)
  }
}
