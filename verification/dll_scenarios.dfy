/**
 * Client code that uses the list the way an embedding program does, and
 * checks what the contracts of the operations let a caller conclude.
 */
module DllScenarios {
  import opened Dll
  import opened DllProperties

  /** An empty list; prepend A, then append B: the list reads A, B. */
  method PrependThenAppend()
  {
    var h := new Node();
    var a := new Node();
    var b := new Node();
    ListInit(h);
    assert First(h, []) == null && Last(h, []) == null;
    MemberInit(a);
    Prepend(h, a, []);
    assert [a] + [] == [a];
    MemberInit(b);
    Append(h, b, [a]);
    assert [a] + [b] == [a, b];
    ObserveTwo(h, a, b);
  }

  /** What a caller sees of the list A, B. */
  method ObserveTwo(h: Node, a: Node, b: Node)
    requires IsList(h, [a, b])
  {
    ghost var s := [a, b];
    assert First(h, s) == a && Last(h, s) == b;
    assert Next(h, a, s) == b && Next(h, b, s) == null;
    assert Walk(h, s, First(h, s), true, 2) == [a, b] by {
      Traversal(h, s, 2);
    }
  }

  /** Append A, B and C, in this order, to a fresh empty list. */
  method AppendThree() returns (h: Node, a: Node, b: Node, c: Node)
    ensures fresh(h) && fresh(a) && fresh(b) && fresh(c)
    ensures IsList(h, [a, b, c])
  {
    h := new Node();
    a := new Node();
    b := new Node();
    c := new Node();
    ListInit(h);
    Append(h, a, []);
    assert [] + [a] == [a];
    assert IsList(h, [a]);
    Append(h, b, [a]);
    assert [a] + [b] == [a, b];
    assert IsList(h, [a, b]);
    Append(h, c, [a, b]);
    assert [a, b] + [c] == [a, b, c];
  }

  /** The list A, B, C; removing B leaves A, C, and B's own links still name its old neighbours. */
  method RemoveMiddle()
  {
    var h, a, b, c := AppendThree();
    ghost var abc := [a, b, c];
    assert abc[1].prev == abc[0] && abc[1].next == abc[2];
    Remove(b, h, abc, 1);
    assert abc[..1] == [a] && abc[2..] == [c];
    assert DeleteAt(abc, 1) == [a, c];
    assert b.next == c && b.prev == a;
    assert b !in [a, c] by {
      RemoveDropsExactlyOne(abc, 1);
    }
    ObserveAfterRemove(h, a, c);
  }

  /** What a caller sees of the list A, C. */
  method ObserveAfterRemove(h: Node, a: Node, c: Node)
    requires IsList(h, [a, c])
  {
    ghost var s := [a, c];
    assert Next(h, a, s) == c;
    assert Prev(h, c, s) == a;
  }

  /** Prepending A, B, C one after another gives the reverse of appending them. */
  method PrependReversesAppend()
  {
    var h := new Node();
    var a := new Node();
    var b := new Node();
    var c := new Node();
    ListInit(h);
    Prepend(h, a, []);
    assert [a] + [] == [a];
    Prepend(h, b, [a]);
    Prepend(h, c, [b] + [a]);
    assert [c] + ([b] + [a]) == [c, b, a];
    ObserveReversed(h, a, b, c);
  }

  /** Walking the list C, B, A backwards from its last member meets A, B, C. */
  method ObserveReversed(h: Node, a: Node, b: Node, c: Node)
    requires IsList(h, [c, b, a])
  {
    ghost var s := [c, b, a];
    assert Reversed(s) == [a, b, c];
    assert Walk(h, s, Last(h, s), false, 3) == [a, b, c] by {
      Traversal(h, s, 3);
    }
  }
}
