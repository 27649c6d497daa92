# SingleLinkedList, modelled in Dafny

`SingleLinkedList<Type>` is a singly linked list with a sentinel node. The sentinel
`head_` is the position before the first element: `before_begin()` points at it.
`size_` counts the elements, so `GetSize` and `IsEmpty` run in O(1). A forward
iterator wraps a node pointer, and the null pointer is `end()`.

The list grows and shrinks only at a known position:
- `PushFront` and `PopFront` work at the front;
- `InsertAfter` and `EraseAfter` work after an iterator.

Copy construction and initializer-list construction build a temporary list and swap it in.
Assignment copies the right-hand side and swaps the copy in. `swap` exchanges the
first-element links and the sizes in O(1). The free comparison operators compare element
sequences. `==` checks the sizes and then `std::equal`, and `!=` negates it. `<` is
`std::lexicographical_compare`, and `>` is `<` with the operands swapped. `<=` is `==` or
`<`, and `>=` is `==` or `>`.

The model has three modules.

- `SingleLinkedLists` (`single_linked_list.dfy`): the nodes and the list as classes that
  are updated in place.
  - A list's abstract state is the ghost sequence `Contents` of its elements, together with
    the ghost sequence `Nodes` of the element nodes, in list order, and the footprint `Repr`.
  - `Valid()` is the structural invariant:
    - the sentinel links to the first node;
    - each node links to the next, and the last node links to null;
    - node `k` holds `Contents[k]`;
    - `size == |Contents|`.
  - Iterators are `Node?` references. A ghost index names the position they stand at:
    `Position(-1)` is the sentinel, `Position(|Contents|)` is `end()`.
  - The nodes of a valid list are pairwise distinct, and distinct from the sentinel.
    `Valid()` does not state this; `EarlierPositionDiffers` proves it by induction along the links.
  - `InsertAfter` and `EraseAfter` are proved against the sequence functions `InsertedAfter`
    and `ErasedAfter`. Lemmas prove that these undo each other, and what they become at
    `before_begin()` (a push or pop at the front) and after the last element (an append).
  - `PushFront`, `PopFront` and `Clear` state their new elements directly: `[value] + old(Contents)`,
    `old(Contents)[1..]` and `[]`. The proofs of the first two go through the `before_begin()` lemmas.
  - The constructors and `Assign` state the elements they end with: those of the source list,
    or the given values. `Swap` and the free `swap` state each list's new state as the other
    list's old state.
- `Comparisons` (`comparisons.dfy`): the free comparison operators over the two lists'
  element sequences.
  - The element type's `operator<` is a parameter `lt`. The ordering results assume it is a
    strict total order.
  - `operator<` is the transcription of `std::lexicographical_compare`. It is proved equal to
    the lexicographic order as the standard defines it: the first mismatch decides, and a
    strict prefix is less. It is also proved irreflexive, asymmetric, transitive and trichotomous.
  - `<=`, `>` and `>=` are proved to be the complements and mirror images of `<`.
- `Scenarios` (`scenarios.dfy`): client code on concrete lists.
  - A run of mutations on `{1, 2, 3}`.
  - The no-op edge cases of `InsertAfter` and `EraseAfter`.
  - A copy that keeps its elements when the original changes.
  - Self-assignment, assignment and swap.
  - Swapping twice, self-swap, and assignment between two swapped lists.

## Model

| member | source | states |
|---|---|---|
| SingleLinkedLists.Node.constructor | single-linked-list/single-linked-list.h:16-24 | A node made from a value and a successor holds exactly that value and successor. |
| SingleLinkedLists.Node.Sentinel | single-linked-list/single-linked-list.h:16-24 | The default-constructed node (the sentinel) has no successor. |
| SingleLinkedLists.InsertedAfter | single-linked-list/single-linked-list.h:205-213 | The abstract effect of inserting after position `i`: one element longer, `v` at `i + 1`, the elements up to `i` unchanged and the rest shifted by one. |
| SingleLinkedLists.ErasedAfter | single-linked-list/single-linked-list.h:188-197 | The abstract effect of erasing after position `i`: one element shorter, the elements up to `i` unchanged and the rest shifted back by one. |
| SingleLinkedLists.EraseAfterUndoesInsertAfter | single-linked-list/single-linked-list.h:188-213 | Erasing after the position just inserted after gives the original sequence back. |
| SingleLinkedLists.InsertAfterUndoesEraseAfter | single-linked-list/single-linked-list.h:188-213 | Re-inserting the erased element at the same place gives the original sequence back. |
| SingleLinkedLists.AfterLastIsAppend | single-linked-list/single-linked-list.h:148-157 | Inserting after the last position appends; the copy constructor relies on this to rebuild the elements in order. |
| SingleLinkedLists.InsertAfterBeforeBeginIsPushFront | single-linked-list/single-linked-list.h:229-233 | Inserting after `before_begin()` is a push at the front. |
| SingleLinkedLists.EraseAfterBeforeBeginIsPopFront | single-linked-list/single-linked-list.h:219-227 | Erasing after `before_begin()` of a non-empty list drops the front element. |
| SingleLinkedLists.SingleLinkedList.LinkLeadsToNextPosition | single-linked-list/single-linked-list.h:86-90 | In a valid list, following the link from any position before `end()` reaches the next position. |
| SingleLinkedLists.SingleLinkedList.EarlierPositionDiffers | single-linked-list/single-linked-list.h:63-82 | Two different positions of a valid list never hold the same node, so iterator equality tells positions apart. |
| SingleLinkedLists.SingleLinkedList.PositionsAreDistinct | single-linked-list/single-linked-list.h:63-82 | Two iterators into a valid list compare equal exactly when they stand at the same position, in both directions. |
| SingleLinkedLists.SingleLinkedList.OnlyAtItsPosition | single-linked-list/single-linked-list.h:274-276 | The node at a position before `end()` appears nowhere else in the chain, and no element node is the sentinel. |
| SingleLinkedLists.SingleLinkedList.FollowWalksPositions | single-linked-list/single-linked-list.h:100-107 | Following `steps` links from position `i` reaches position `i + steps`. |
| SingleLinkedLists.SingleLinkedList.TraversalReachesEnd | single-linked-list/single-linked-list.h:242-249 | A walk from `begin()` meets a node at each of the first `size_` steps and `end()` after exactly `size_` steps: the chain is acyclic, and its length is the recorded size. |
| SingleLinkedLists.SingleLinkedList.constructor | single-linked-list/single-linked-list.h:144-146 | The default list is valid and empty. |
| SingleLinkedLists.SingleLinkedList.CopyOf | single-linked-list/single-linked-list.h:148-157 | The loop of the copy constructor walks the source once and inserts after the tail of a fresh list; the result is valid, holds the source's elements in order and owns only fresh nodes. |
| SingleLinkedLists.SingleLinkedList.Copy | single-linked-list/single-linked-list.h:148-157 | A copy is valid, holds the same elements as the source and shares no node with it. |
| SingleLinkedLists.SingleLinkedList.FromSeq | single-linked-list/single-linked-list.h:159-166 | Pushing the initializer list's values to the front in reverse order gives a valid list holding the values in their given order. |
| SingleLinkedLists.SingleLinkedList.Assign | single-linked-list/single-linked-list.h:168-178 | After assignment the list holds the right-hand side's elements, and the right-hand side is unchanged. When the `begin()` guard fires (self-assignment, or two empty lists) the chain and the size are untouched; otherwise the list ends disjoint from the right-hand side. |
| SingleLinkedLists.SingleLinkedList.Clear | single-linked-list/single-linked-list.h:180-184 | Repeated `PopFront` until the sentinel has no successor leaves a valid, empty list of size 0, and none of the old element nodes is left in its footprint. |
| SingleLinkedLists.SingleLinkedList.EraseAfter | single-linked-list/single-linked-list.h:188-197 | At `end()` or the last element: returns `end()` and changes nothing. Otherwise it removes exactly the element after `pos` (`ErasedAfter`), decrements the size, drops the erased node from the footprint, keeps the list valid and returns the iterator to the element that followed the erased one. |
| SingleLinkedLists.SingleLinkedList.UnlinkedIsValid | single-linked-list/single-linked-list.h:188-197 | Relinking the predecessor past the erased node, when no other link changed, leaves a valid list. |
| SingleLinkedLists.SingleLinkedList.GetSize | single-linked-list/single-linked-list.h:199-201 | The stored size is the number of elements. |
| SingleLinkedLists.SingleLinkedList.InsertAfter | single-linked-list/single-linked-list.h:205-213 | At `end()`: returns `end()` and changes nothing. Otherwise it puts `value` right after `pos` in a fresh node (`InsertedAfter`), increments the size, keeps the list valid and returns the iterator to the new element at position `i + 1`. |
| SingleLinkedLists.SingleLinkedList.LinkedInIsValid | single-linked-list/single-linked-list.h:205-213 | Splicing a fresh node between a position and its successor, when no other link changed, leaves a valid list. |
| SingleLinkedLists.SingleLinkedList.IsEmpty | single-linked-list/single-linked-list.h:215-217 | True exactly when the list has no elements. |
| SingleLinkedLists.SingleLinkedList.PopFront | single-linked-list/single-linked-list.h:219-227 | An empty list is left unchanged. Otherwise the first element is dropped and its node leaves the chain and the footprint, the size goes down by one, and the list stays valid. |
| SingleLinkedLists.SingleLinkedList.PushFront | single-linked-list/single-linked-list.h:229-233 | The value becomes the first element in a fresh node, the old chain follows it unchanged, the size goes up by one and the list stays valid. |
| SingleLinkedLists.SingleLinkedList.Swap | single-linked-list/single-linked-list.h:236-239 | The two lists exchange elements, node chains and sizes, each keeping its own sentinel, and both stay valid. Two distinct lists still own disjoint nodes afterwards. Swapping a list with itself changes nothing. |
| SingleLinkedLists.SingleLinkedList.TookChainOf | single-linked-list/single-linked-list.h:236-239 | A list that takes over another valid list's chain and size, behind its own sentinel, is valid. |
| SingleLinkedLists.SingleLinkedList.Begin | single-linked-list/single-linked-list.h:242-244 | `begin()` is position 0, and it is `end()` exactly when the list is empty. |
| SingleLinkedLists.SingleLinkedList.End | single-linked-list/single-linked-list.h:247-249 | `end()` is the position after the last element. |
| SingleLinkedLists.SingleLinkedList.BeforeBegin | single-linked-list/single-linked-list.h:274-276 | `before_begin()` is the sentinel at position -1. It is not an element node, and its successor is `begin()`. |
| SingleLinkedLists.Increment | single-linked-list/single-linked-list.h:86-90 | Prefix `++` moves an iterator from position `i` to position `i + 1`; from the last element it reaches `end()`. |
| SingleLinkedLists.AdvanceBy | single-linked-list/single-linked-list.h:100-107 | `+= count` moves an iterator from position `i` to position `i + count`. |
| SingleLinkedLists.Deref | single-linked-list/single-linked-list.h:116-120 | `*it` at position `i` is the `i`-th element. |
| SingleLinkedLists.SwapLists | single-linked-list/single-linked-list.h:298-301 | The free `swap` has the member `swap`'s effect: the lists exchange elements, node chains, sizes and footprints, stay valid, and distinct lists stay disjoint. |
| Comparisons.Equal | single-linked-list/single-linked-list.h:303-308 | `==` is equal sizes and then `std::equal`, transcribed as `RangeEqual`. It holds exactly when the sizes agree and the elements agree pairwise, that is, exactly when the element sequences are equal. |
| Comparisons.RangeEqualIsPairwise | single-linked-list/single-linked-list.h:303-308 | `std::equal` over a range holds exactly when every element equals its partner at the same offset. |
| Comparisons.NotEqual | single-linked-list/single-linked-list.h:310-314 | `!=` holds exactly when the element sequences differ. |
| Comparisons.CompareIsFirstMismatch | single-linked-list/single-linked-list.h:316-319 | For a strict total order on the elements, `std::lexicographical_compare` coincides with the lexicographic order: the first mismatch decides, and a strict prefix is less. |
| Comparisons.Less | single-linked-list/single-linked-list.h:316-319 | `<` is `std::lexicographical_compare`, transcribed as `LexicographicalCompare`. For a strict total order on the elements, `<` is the lexicographic order on the element sequences. |
| Comparisons.StrictPrefixIsLess | single-linked-list/single-linked-list.h:316-319 | A list whose elements are a strict prefix of another's compares less, and not the other way round. |
| Comparisons.LessIrreflexive | single-linked-list/single-linked-list.h:316-319 | No list is less than itself. |
| Comparisons.LessAsymmetric | single-linked-list/single-linked-list.h:316-319 | `<` never holds in both directions. |
| Comparisons.LessTransitive | single-linked-list/single-linked-list.h:316-319 | `<` is transitive. |
| Comparisons.LessTrichotomous | single-linked-list/single-linked-list.h:316-319 | Any two lists are equal or ordered one way by `<`. |
| Comparisons.LessOrEqual | single-linked-list/single-linked-list.h:321-324 | For a strict total order on the elements, `<=` holds exactly when `>` does not. |
| Comparisons.LessOrEqualAntisymmetric | single-linked-list/single-linked-list.h:321-324 | `<=` in both directions implies `==`. |
| Comparisons.Greater | single-linked-list/single-linked-list.h:326-329 | For a strict total order on the elements, `a > b` holds exactly when `b` is lexicographically less than `a`. |
| Comparisons.GreaterOrEqual | single-linked-list/single-linked-list.h:331-334 | For a strict total order on the elements, `>=` holds exactly when `<` does not. |
| Scenarios.MutationRun | single-linked-list/single-linked-list.h:188-233 | On `{1, 2, 3}`: `PushFront(0)` then `PopFront` restores the list. `InsertAfter(begin(), 99)` returns an iterator to 99. `EraseAfter(begin())` then returns an iterator to 2, and the list is `{1, 2, 3}` of size 3 again. |
| Scenarios.EdgeRun | single-linked-list/single-linked-list.h:188-213 | Erasing after the last element and inserting at `end()` both return `end()` and leave the list unchanged. `Clear` leaves it empty. |
| Scenarios.CopyRun | single-linked-list/single-linked-list.h:148-157 | A copy does not share nodes with its source. Pushing onto the source leaves the copy as it was, and the two then compare unequal, with the source less. |
| Scenarios.AssignAndSwapRun | single-linked-list/single-linked-list.h:168-178 | Self-assignment leaves `[1, 2]` unchanged. Assigning a copy of `[4]` to a list holding `[3]` replaces its elements with `[4]`. The free `swap` then exchanges the lists' elements and sizes. |
| Scenarios.SwapTwiceRun | single-linked-list/single-linked-list.h:236-239 | Swapping two lists twice restores both. Swapping a list with itself, by the member or the free `swap`, leaves it unchanged. The swapped lists stay disjoint, so one can then be assigned from the other. |

## Left out

- Allocation failure and exception safety: `new` cannot fail in the model, so the
  strong guarantee promised for a throwing `InsertAfter` is not modelled.
- `delete` and the destructor: a node that is unlinked leaves the list's footprint and is
  simply no longer reachable. Deallocation itself is not modelled.
- `BasicIterator::operator+`: it returns a reference to a local copy, so its result is not
  usable. `AdvanceBy` models `+=`, which `+` is built on.
- Postfix `++`: it is prefix `++` returning the old iterator, so it adds nothing to `Increment`.
- `operator->` and writing through the reference that `operator*` returns: the model reads
  elements only through `Deref`. The mutators change elements by inserting and erasing.
- The constant iterator type, `cbegin`/`cend`/`cbefore_begin`, the const overloads of
  `begin`/`end`/`before_begin`, the iterator-to-const converting constructor and the iterator
  traits: they repeat the non-const members.
- `size_` is a `nat`: `size_t` overflow, which needs more nodes than memory holds, is not modelled.
- Behaviour that C++ leaves undefined is a precondition. This covers:
  - incrementing or dereferencing `end()`;
  - dereferencing `before_begin()`;
  - passing an iterator that does not belong to the list.
- Iterators carry a ghost position index. It ties each `Node?` reference to a position of
  the list it belongs to.
- Element equality is Dafny's `==`. The element type's `operator<` is a parameter, and
  the ordering results hold when it is a strict total order.
- The `<iostream>` and other includes of the header play no part in the list.
