/**
 * Properties of the intrusive list that relate several operations or
 * several links: the symmetry and circularity the sentinel design relies
 * on, what a traversal with Next/Prev visits, and why the member sequence
 * of a list is determined by its links.
 */
module DllProperties {
  import opened Dll

  /** One step along the `next` links (forward) or the `prev` links. */
  ghost function Step(x: Node, forward: bool): (r: Node?)
    reads x
  {
    if forward then x.next else x.prev
  }

  /** The node reached from `x` after `k` raw link steps in one direction. */
  ghost function Follow(x: Node, forward: bool, k: nat): (r: Node?)
    reads *
    decreases k
  {
    if k == 0 then x
    else if Step(x, forward) == null then null
    else Follow(Step(x, forward), forward, k - 1)
  }

  /** An initialised head is exactly an empty list. */
  lemma EmptyIffSelfLoop(head: Node)
    ensures IsList(head, []) <==> Isolated(head)
  {
  }

  /** Position `p` of the ring a list forms: the head at 0, then member p - 1. */
  ghost function At(head: Node, s: seq<Node>, p: nat): (r: Node)
    requires p <= |s|
  {
    if p == 0 then head else s[p - 1]
  }

  /** The head and the members, taken together, are pairwise distinct. */
  lemma RingDistinct(head: Node, s: seq<Node>, p: nat, q: nat)
    requires IsList(head, s) && p < q <= |s|
    ensures At(head, s, p) != At(head, s, q)
  {
    assert At(head, s, q) == s[q - 1];
  }

  /** Each node of the ring links forward to the next one and back to the previous one, wrapping around. */
  lemma RingLinks(head: Node, s: seq<Node>, p: nat)
    requires IsList(head, s) && p <= |s|
    ensures At(head, s, p).next == At(head, s, if p == |s| then 0 else p + 1)
    ensures At(head, s, p).prev == At(head, s, if p == 0 then |s| else p - 1)
  {
    if p > 0 {
      assert s[p - 1].next == (if p - 1 == |s| - 1 then head else s[p]);
      assert s[p - 1].prev == (if p - 1 == 0 then head else s[p - 2]);
    }
  }

  /** Every node of the ring sits at some position. */
  lemma PositionOf(head: Node, s: seq<Node>, x: Node) returns (p: nat)
    requires x == head || x in s
    ensures p <= |s| && At(head, s, p) == x
  {
    if x == head {
      p := 0;
    } else {
      var i :| 0 <= i < |s| && s[i] == x;
      p := i + 1;
    }
  }

  /** Symmetry: for two nodes of the ring, a.next == b exactly when b.prev == a. */
  lemma Symmetry(head: Node, s: seq<Node>, a: Node, b: Node)
    requires IsList(head, s)
    requires a == head || a in s
    requires b == head || b in s
    ensures a.next == b <==> b.prev == a
  {
    var n := |s|;
    var p := PositionOf(head, s, a);
    var q := PositionOf(head, s, b);
    RingLinks(head, s, p);
    RingLinks(head, s, q);
    var pn := if p == n then 0 else p + 1;
    var qp := if q == 0 then n else q - 1;
    if pn != q {
      if pn < q { RingDistinct(head, s, pn, q); } else { RingDistinct(head, s, q, pn); }
    }
    if qp != p {
      if qp < p { RingDistinct(head, s, qp, p); } else { RingDistinct(head, s, p, qp); }
    }
  }

  /** One link step from a node of the ring leads to a node of the ring. */
  lemma StepOnRing(head: Node, s: seq<Node>, x: Node, forward: bool)
    requires IsList(head, s) && (x == head || x in s)
    ensures Step(x, forward) != null && (Step(x, forward) == head || Step(x, forward) in s)
  {
    if x != head {
      var i :| 0 <= i < |s| && s[i] == x;
      assert s[i].next == (if i == |s| - 1 then head else s[i + 1]);
      assert s[i].prev == (if i == 0 then head else s[i - 1]);
    }
  }

  /** Following links never leaves the ring. */
  lemma {:induction false} FollowStaysOnRing(head: Node, s: seq<Node>, x: Node, forward: bool, k: nat)
    requires IsList(head, s) && (x == head || x in s)
    ensures Follow(x, forward, k) != null
    ensures Follow(x, forward, k) == head || Follow(x, forward, k) in s
    decreases k
  {
    if k > 0 {
      StepOnRing(head, s, x, forward);
      FollowStaysOnRing(head, s, Step(x, forward), forward, k - 1);
    }
  }

  /** Within the ring, k steps forward from position p reach position p + k, and k steps back reach p - k. */
  lemma {:induction false} FollowWithin(head: Node, s: seq<Node>, p: nat, forward: bool, k: nat)
    requires IsList(head, s)
    requires if forward then p + k <= |s| else k <= p <= |s|
    ensures Follow(At(head, s, p), forward, k) == At(head, s, if forward then p + k else p - k)
    decreases k
  {
    if k > 0 {
      RingLinks(head, s, p);
      FollowWithin(head, s, if forward then p + 1 else p - 1, forward, k - 1);
    }
  }

  /** Following a + b links is following a links, then b more. */
  lemma {:induction false} FollowCompose(x: Node, forward: bool, a: nat, b: nat)
    requires Follow(x, forward, a) != null
    ensures Follow(x, forward, a + b) == Follow(Follow(x, forward, a), forward, b)
    decreases a
  {
    if a > 0 {
      FollowCompose(Step(x, forward), forward, a - 1, b);
    }
  }

  /** Following more links than remain before the ring wraps around continues from the other end. */
  lemma FollowWrap(head: Node, s: seq<Node>, p: nat, forward: bool, k: nat)
    requires IsList(head, s) && p <= |s|
    requires (if forward then |s| - p else p) < k <= |s| + 1
    ensures Follow(At(head, s, p), forward, k)
         == At(head, s, if forward then p + k - |s| - 1 else p + |s| + 1 - k)
  {
    var n := |s|;
    // `a` steps lead from position p to the position where the ring wraps around, `w`.
    var a := if forward then n - p else p;
    var w := if forward then n else 0;
    var z := if forward then 0 else n;
    FollowWithin(head, s, p, forward, a);
    RingLinks(head, s, w);
    FollowCompose(At(head, s, p), forward, a, k - a);
    FollowWithin(head, s, z, forward, k - a - 1);
  }

  /**
   * Circularity: from any node of the ring, following `next` (or `prev`)
   * links comes back to the node after exactly as many steps as the ring
   * has nodes, and not before.
   */
  lemma Circular(head: Node, s: seq<Node>, p: nat, forward: bool)
    requires IsList(head, s) && p <= |s|
    ensures Follow(At(head, s, p), forward, |s| + 1) == At(head, s, p)
    ensures forall k :: 0 < k <= |s| ==> Follow(At(head, s, p), forward, k) != At(head, s, p)
  {
    var n := |s|;
    var a := if forward then n - p else p;
    FollowWrap(head, s, p, forward, n + 1);
    forall k | 0 < k <= n
      ensures Follow(At(head, s, p), forward, k) != At(head, s, p)
    {
      if k <= a {
        FollowWithin(head, s, p, forward, k);
        var q := if forward then p + k else p - k;
        if q < p { RingDistinct(head, s, q, p); } else { RingDistinct(head, s, p, q); }
      } else {
        FollowWrap(head, s, p, forward, k);
        var q := if forward then p + k - n - 1 else p + n + 1 - k;
        if q < p { RingDistinct(head, s, q, p); } else { RingDistinct(head, s, p, q); }
      }
    }
  }

  /**
   * A node belongs to at most one list: when the head of one list is not on
   * the ring of another, the two lists have no member in common.
   */
  lemma MemberOfOneList(h1: Node, s1: seq<Node>, h2: Node, s2: seq<Node>)
    requires IsList(h1, s1) && IsList(h2, s2)
    requires h1 != h2 && h1 !in s2
    ensures forall x :: x in s1 ==> x !in s2
  {
    forall x | x in s1
      ensures x !in s2
    {
      if x in s2 {
        var p := PositionOf(h1, s1, x);
        // Going forward from x, the ring of the first list wraps around to h1.
        FollowWrap(h1, s1, p, true, |s1| + 1 - p);
        FollowStaysOnRing(h2, s2, x, true, |s1| + 1 - p);
      }
    }
  }

  /** The members visited by calling Next (forward) or Prev from `m`, at most `fuel` times, until it reports null. */
  ghost function Walk(list: Node, s: seq<Node>, m: Node?, forward: bool, fuel: nat): (r: seq<Node>)
    requires IsList(list, s) && (m == null || m in s)
    reads list, s
    decreases fuel
  {
    if m == null || fuel == 0 then []
    else
      var m' := if forward then Next(list, m, s) else Prev(list, m, s);
      [m] + Walk(list, s, m', forward, fuel - 1)
  }

  /** `s` in reverse order. */
  ghost function Reversed(s: seq<Node>): (r: seq<Node>)
    ensures |r| == |s|
    ensures forall i :: 0 <= i < |s| ==> r[i] == s[|s| - 1 - i]
  {
    if s == [] then [] else Reversed(s[1..]) + [s[0]]
  }

  /** Walking forward from member i with Next visits the members from i on, in order. */
  lemma {:induction false} WalkForwardFrom(list: Node, s: seq<Node>, i: nat, fuel: nat)
    requires IsList(list, s) && i < |s| && fuel >= |s| - i
    ensures Walk(list, s, s[i], true, fuel) == s[i..]
    decreases fuel
  {
    var rest := Walk(list, s, Next(list, s[i], s), true, fuel - 1);
    assert Walk(list, s, s[i], true, fuel) == [s[i]] + rest;
    if i + 1 < |s| {
      WalkForwardFrom(list, s, i + 1, fuel - 1);
      assert s[i..] == [s[i]] + s[i + 1..];
    }
  }

  /** Walking back from member i with Prev visits the members up to i, in reverse order. */
  lemma {:induction false} WalkBackFrom(list: Node, s: seq<Node>, i: nat, fuel: nat)
    requires IsList(list, s) && i < |s| && fuel >= i + 1
    ensures Walk(list, s, s[i], false, fuel) == Reversed(s[..i + 1])
    decreases fuel
  {
    var rest := Walk(list, s, Prev(list, s[i], s), false, fuel - 1);
    assert Walk(list, s, s[i], false, fuel) == [s[i]] + rest;
    if i > 0 {
      WalkBackFrom(list, s, i - 1, fuel - 1);
    }
    assert rest == Reversed(s[..i]);
  }

  /**
   * Traversal: starting from First and calling Next until it reports null
   * visits exactly the members in list order, and starting from Last and
   * calling Prev visits them in reverse order; the call after the last
   * member reports null, however much further one would go.
   */
  lemma Traversal(list: Node, s: seq<Node>, fuel: nat)
    requires IsList(list, s) && fuel >= |s|
    ensures Walk(list, s, First(list, s), true, fuel) == s
    ensures Walk(list, s, Last(list, s), false, fuel) == Reversed(s)
  {
    if s != [] {
      WalkForwardFrom(list, s, 0, fuel);
      WalkBackFrom(list, s, |s| - 1, fuel);
      assert s[..|s|] == s;
    }
  }

  /** Two member sequences of the same head agree up to the shorter one's length. */
  lemma {:induction false} MembersAgree(head: Node, s: seq<Node>, t: seq<Node>, i: nat)
    requires IsList(head, s) && IsList(head, t)
    requires i < |s| && i < |t|
    ensures s[i] == t[i]
    decreases i
  {
    if i > 0 {
      MembersAgree(head, s, t, i - 1);
      assert s[i - 1].next == s[i] && t[i - 1].next == t[i];
    }
  }

  /** The links of a list determine its member sequence: the ghost view is well defined. */
  lemma MembersDetermined(head: Node, s: seq<Node>, t: seq<Node>)
    requires IsList(head, s) && IsList(head, t)
    ensures s == t
  {
    forall i | 0 <= i < |s| && i < |t|
      ensures s[i] == t[i]
    {
      MembersAgree(head, s, t, i);
    }
  }

  /** Next undoes Prev and Prev undoes Next, except at the two ends of the list. */
  lemma NextPrevRoundTrip(list: Node, s: seq<Node>, m: Node)
    requires IsList(list, s) && m in s
    ensures Prev(list, m, s) == null <==> m == s[0]
    ensures Next(list, m, s) == null <==> m == s[|s| - 1]
    ensures Prev(list, m, s) != null ==> Next(list, Prev(list, m, s), s) == m
    ensures Next(list, m, s) != null ==> Prev(list, Next(list, m, s), s) == m
  {
    var k :| 0 <= k < |s| && s[k] == m;
    if k > 0 {
      assert Prev(list, m, s) == s[k - 1];
    }
    if k < |s| - 1 {
      assert Next(list, m, s) == s[k + 1];
    }
  }

  /**
   * What Remove does to the member sequence: exactly the removed node
   * leaves it, the others stay in their order, and it shrinks by one.
   */
  lemma RemoveDropsExactlyOne(s: seq<Node>, k: nat)
    requires Distinct(s) && k < |s|
    ensures |DeleteAt(s, k)| == |s| - 1
    ensures s[k] !in DeleteAt(s, k)
    ensures forall x :: x in DeleteAt(s, k) <==> x in s && x != s[k]
    ensures Distinct(DeleteAt(s, k))
  {
    var t := DeleteAt(s, k);
    forall x | x in s && x != s[k]
      ensures x in t
    {
      var i :| 0 <= i < |s| && s[i] == x;
      assert t[if i < k then i else i - 1] == x;
    }
  }
}
