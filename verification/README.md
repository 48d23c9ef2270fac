# pxlibDll: an intrusive, sentinel-headed, circular doubly-linked list

This project models the doubly-linked list primitive of phoenix4c, `pxlibDll`.
A client record embeds a `pxlibDllMember`, which is a pair of links
(`pNext`, `pPrevious`). The same structure serves as the list head
(`pxlibDllList`). The head is also the list's sentinel:

- the last member's `pNext` points back to the head;
- the first member's `pPrevious` points back to the head;
- an empty list is a head whose two links point to itself.

All operations are C macros. The mutating ones (`MemberInit`, `ListInit`,
`AddAfter`, `AddBefore`, `Remove`, `Append`, `Prepend`) assign a handful of
link fields in a fixed order; the navigating ones (`Next`, `Prev`, `First`,
`Last`) only read links. Nothing is allocated, and there are no error paths.

The Dafny model has three modules:

- `Dll` (`dll.dfy`) holds the data model and the operations.
  - `class Node` has the two link fields `next` and `prev`. They are
    nullable, like the C pointers.
  - The ghost predicate `IsList(head, s)` ties a ghost sequence of members
    `s`, in list order, to the links in the heap. It states:
    - the head links forward to `s[0]` and back to the last member;
    - each member links forward to its successor and back to its
      predecessor, where the head is the successor of the last member and
      the predecessor of the first;
    - the head is not a member, and no member occurs twice.
  - The mutating macros become methods with `modifies` clauses. Their
    postconditions give both the new link fields and the new member sequence.
  - The conditional reads (`Next`, `Prev`, `First`, `Last`) become functions
    that read the heap. They return `Node?`, with `null` for C's `NULL`.
- `DllProperties` (`dll_properties.dfy`) holds properties that span several
  links or several operations:
  - symmetry of `next` and `prev`;
  - circularity in both directions;
  - a traversal with `Next`/`Prev` visits exactly the members, in order;
  - the member sequence is determined by the links;
  - a node is a member of at most one list;
  - round trips between `Next` and `Prev`;
  - what `Remove` does to the member sequence.
- `DllScenarios` (`dll_scenarios.dfy`) holds client methods. They build small
  lists with `ListInit`, `Append`, `Prepend` and `Remove`, and assert what the
  contracts let a caller conclude.

The header states three preconditions, in comments only, and the model turns
them into `requires` clauses:

- links must be initialised before use (`include/pxlibDll.h:37-41`); the
  model requires this of the head, through `IsList`, and not of a node being
  added, because the add macros overwrite both of its links
  (`include/pxlibDll.h:86-87`, `include/pxlibDll.h:102-103`);
- the head must never be removed (`include/pxlibDll.h:111`);
- `pxlibDllNext` and `pxlibDllPrev` are given a pointer to a member
  (`include/pxlibDll.h:132`, `include/pxlibDll.h:142`), or the head in the
  case of `First`/`Last`; the model reads "member" as a member of the list
  passed alongside.

The model adds two requirements of its own, which the header does not state:

- a node being added must not already be on the list. The add macros
  overwrite both links of the new node without unlinking it first, which
  would corrupt any list it is still on;
- a node being removed must be a member of the list; removing it again
  after its former neighbours have been relinked overwrites their links with
  stale pointers.

The ghost parameters (the head, the member sequence and an index) exist only
for the specification. The compiled code takes the same arguments as the
macros.

The model follows the code as written:

- `Remove` leaves the removed node's own links pointing at its former
  neighbours. It does not reset them to a self-loop.
- No operation checks for misuse.

The doc comment of `pxlibDllAddBefore` calls `pPos` "the position after
which" the link is added. The macro's code adds the link before `pPos`, and
the model follows the code.

## Model

| member | source | states |
|---|---|---|
| `Dll.Node.constructor` | include/pxlibDll.h:52-56 | A link's storage before initialisation has neither link set. |
| `Dll.IsList` | include/pxlibDll.h:43-47 | The sentinel ring: the head is not a member, no member repeats, the head links forward to the first member and back to the last, and each member links to its neighbours, wrapping through the head. Its contract states the emptiness test the macros rely on: the head's `next` (and likewise its `prev`) points to the head itself exactly when the list has no members. |
| `Dll.MemberInit` | include/pxlibDll.h:70-75 | After initialisation, both links of the node point to the node itself. Such a node is the head of an empty list. |
| `Dll.ListInit` | include/pxlibDll.h:121-126 | Initialising a list is initialising its head as a member. The result is an isolated head, i.e. an empty list. |
| `Dll.AddAfter` | include/pxlibDll.h:77-90 | The new node links back to `pos` and forward to `pos`'s old successor. `pos` links forward to the new node, and the old successor links back to it. The other links of `pos` and of the successor keep their values, and no other node changes. The list stays well formed, with the new node inserted right after `pos` in the member sequence. |
| `Dll.AddBefore` | include/pxlibDll.h:93-106 | The mirror image of `AddAfter`. The new node links forward to `pos` and back to `pos`'s old predecessor, and both of those now point at it. The list stays well formed, with the new node inserted right before `pos`. |
| `Dll.Remove` | include/pxlibDll.h:108-118 | The removed member's predecessor and successor now point at each other. The removed node's own links are unchanged. The list stays well formed, and the member sequence loses exactly that member, with the rest kept in order. |
| `Dll.Append` | include/pxlibDll.h:164-170 | Adding before the head turns the member sequence `s` into `s + [n]`. |
| `Dll.Prepend` | include/pxlibDll.h:172-178 | Adding after the head turns the member sequence `s` into `[n] + s`. |
| `Dll.Next` | include/pxlibDll.h:128-136 | For member `s[i]`, the result is `s[i+1]`, or NULL when `s[i]` is the last member. For the head, the result is the first member, or NULL for an empty list. The head itself is never returned. |
| `Dll.Prev` | include/pxlibDll.h:138-146 | For member `s[i]`, the result is `s[i-1]`, or NULL when `s[i]` is the first member. For the head, the result is the last member, or NULL for an empty list. The head itself is never returned. |
| `Dll.First` | include/pxlibDll.h:148-154 | Returns NULL if and only if the list is empty, and otherwise the first member. |
| `Dll.Last` | include/pxlibDll.h:156-162 | Returns NULL if and only if the list is empty, and otherwise the last member. |
| `DllProperties.EmptyIffSelfLoop` | include/pxlibDll.h:121-126 | A head is an empty list exactly when both of its links point to itself. |
| `DllProperties.RingDistinct` | include/pxlibDll.h:43-47 | Two different positions of the ring (the head at 0, then the members) hold different nodes. |
| `DllProperties.RingLinks` | include/pxlibDll.h:43-47 | In the ring (head, members...), node `p` links forward to node `p+1` and back to node `p-1`, wrapping around at both ends through the head. |
| `DllProperties.Symmetry` | include/pxlibDll.h:85-118 | For any two nodes of the ring, `a.next == b` holds exactly when `b.prev == a`. |
| `DllProperties.FollowStaysOnRing` | include/pxlibDll.h:43-47 | Following `next` or `prev` links from a node of the ring, any number of times, never leaves the ring and never meets NULL. |
| `DllProperties.FollowWithin` | include/pxlibDll.h:43-47 | Inside the ring, `k` forward steps from position `p` reach position `p+k`, and `k` backward steps reach position `p-k`. |
| `DllProperties.FollowCompose` | include/pxlibDll.h:43-47 | Following `a + b` links is the same as following `a` links and then `b` more. |
| `DllProperties.FollowWrap` | include/pxlibDll.h:43-47 | Steps that run past the end of the ring wrap around through the head: `k` forward steps from position `p` reach position `p + k` minus the number of nodes in the ring, and backward steps wrap the same way. |
| `DllProperties.Circular` | include/pxlibDll.h:43-47 | From any node of the ring, following `next` (or `prev`) comes back to that node after exactly as many steps as the ring has nodes, and not earlier. |
| `DllProperties.MemberOfOneList` | include/pxlibDll.h:33-41 | If one list's head is neither another list's head nor one of its members, the two lists share no member. |
| `DllProperties.WalkForwardFrom` | include/pxlibDll.h:128-136 | Calling `Next` repeatedly from member `i` visits `s[i..]` in order, and then reports NULL. |
| `DllProperties.WalkBackFrom` | include/pxlibDll.h:138-146 | Calling `Prev` repeatedly from member `i` visits `s[..i+1]` in reverse order, and then reports NULL. |
| `DllProperties.Traversal` | include/pxlibDll.h:148-162 | `First` followed by `Next` until NULL visits exactly the members in list order. `Last` followed by `Prev` visits them in reverse order. In both directions the walk ends with NULL right after the last member visited, however much fuel is given beyond the number of members. |
| `DllProperties.MembersAgree` | include/pxlibDll.h:43-47 | Two member sequences that are valid for the same head agree position by position, up to the shorter length. |
| `DllProperties.MembersDetermined` | include/pxlibDll.h:43-47 | The links of a list determine its member sequence: two valid member sequences for one head are equal. |
| `DllProperties.NextPrevRoundTrip` | include/pxlibDll.h:128-146 | `Prev` reports NULL exactly at the first member, and `Next` exactly at the last. Otherwise `Next(Prev(m)) == m` and `Prev(Next(m)) == m`. |
| `DllProperties.RemoveDropsExactlyOne` | include/pxlibDll.h:108-118 | Removal shortens the member sequence by one. The removed node is no longer in it. Every other member stays, and no node is repeated. |

## Left out

- `pxlibDllGetMember` (recovering the enclosing record from a pointer to its embedded link by `offsetof` arithmetic) is not modelled. Dafny cannot express raw memory layout, and a `Node` here stands for the link alone.
- The preprocessor guards and the `stddef.h` include are build plumbing with no behaviour.
- C macro mechanics are not modelled. Each macro is modelled as its sequence of field assignments, in the source's order, with each argument's value taken once, before the first assignment. In C the macros re-evaluate their argument expressions at every use, so an argument that reads a link the macro changes corrupts the list even when it has no side effects: on the list a, b, c, `pxlibDllRemove(pList->pNext)` first sets the head's `pNext` to b and then evaluates its argument as b, setting c's `pPrevious` to a, so the forward and backward links no longer agree (`include/pxlibDll.h:115-117`). On a one-member list, `pxlibDllRemove(pxlibDllFirst(pList))` dereferences NULL, because after the first assignment its argument evaluates to NULL. Argument expressions with side effects are likewise not modelled.
- `Dll.Node.constructor`: a C link that has not been initialised holds indeterminate pointers. The model starts it with both links `null`, which is only one of the possible garbage states.
- Contract violations are excluded by `requires` clauses and are not modelled. These are:
  - adding a node that is already on the same list;
  - removing the head;
  - removing a node twice;
  - using `Next`/`Prev` on a node that is not a member.
  The header does not check these cases, and what they do to the links is left undescribed.
- `Dll.AddAfter`, `Dll.AddBefore`: the model relates each insertion to a single list given by its head and member sequence. The effect on a second list that the new node may still belong to is covered only by the `modifies` clause, which names the three nodes that change.
- Concurrency is not modelled: the header has no synchronisation and makes no thread-safety claims.
