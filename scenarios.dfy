/** Client code of SingleLinkedList<int>: a run of mutations on {1, 2, 3},
    copies that do not share nodes with their original, and the comparison operators
    on concrete lists. */
module Scenarios {
  import opened SingleLinkedLists
  import Comparisons

  /** The element order `operator<` of int. */
  function IntLess(x: int, y: int): bool {
    x < y
  }

  /** {1, 2, 3}; PushFront(0) gives {0, 1, 2, 3}; PopFront gives {1, 2, 3} back;
      InsertAfter(begin(), 99) gives {1, 99, 2, 3} and returns an iterator to 99;
      EraseAfter(begin()) gives {1, 2, 3} and returns an iterator to 2. */
  method MutationRun() returns (list: SingleLinkedList<int>, insertedValue: int, followingValue: int)
    ensures list.Valid() && list.Contents == [1, 2, 3] && list.GetSize() == 3
    ensures insertedValue == 99 && followingValue == 2
  {
    list := new SingleLinkedList.FromSeq([1, 2, 3]);
    list.PushFront(0);
    assert list.Contents == [0, 1, 2, 3];
    list.PopFront();
    assert list.Contents == [1, 2, 3];

    var first := list.Begin();
    var inserted := list.InsertAfter(first, 0, 99);
    assert list.Contents == [1, 99, 2, 3];
    insertedValue := Deref(list, inserted, 1);

    first := list.Begin();
    var following := list.EraseAfter(first, 0);
    assert list.Contents == [1, 2, 3];
    followingValue := Deref(list, following, 1);
  }

  /** Erasing after the last element, or inserting at end(), changes nothing and gives
      end(); a list emptied by Clear starts over at begin() == end(). */
  method EdgeRun() returns (list: SingleLinkedList<int>, erased: Node?<int>, inserted: Node?<int>)
    ensures list.Valid() && list.Contents == [] && list.IsEmpty()
    ensures erased == null && inserted == null
  {
    list := new SingleLinkedList.FromSeq([5, 6]);
    var last := AdvanceBy(list, list.Begin(), 0, 1);
    erased := list.EraseAfter(last, 1);
    assert list.Contents == [5, 6];
    inserted := list.InsertAfter(list.End(), 2, 7);
    assert list.Contents == [5, 6];
    list.Clear();
  }

  /** The copy holds the same elements but its own nodes: pushing onto the original
      leaves the copy as it was, and afterwards the original compares less than the copy. */
  method CopyRun() returns (original: SingleLinkedList<int>, copy: SingleLinkedList<int>)
    ensures original.Valid() && copy.Valid() && original.Repr !! copy.Repr
    ensures original.Contents == [0, 1, 2, 3] && copy.Contents == [1, 2, 3]
    ensures Comparisons.NotEqual(original.Contents, copy.Contents)
    ensures Comparisons.Less(IntLess, original.Contents, copy.Contents)
    ensures Comparisons.GreaterOrEqual(IntLess, copy.Contents, original.Contents)
  {
    original := new SingleLinkedList.FromSeq([1, 2, 3]);
    copy := new SingleLinkedList.Copy(original);
    assert Comparisons.Equal(original.Contents, copy.Contents);
    original.PushFront(0);
  }

  /** Assignment: self-assignment is a no-op, and assigning a different list replaces
      the elements; swap then exchanges the two lists' elements and sizes. */
  method AssignAndSwapRun() returns (a: SingleLinkedList<int>, b: SingleLinkedList<int>)
    ensures a.Valid() && b.Valid()
    ensures a.Contents == [4] && b.Contents == [1, 2] && a.GetSize() == 1 && b.GetSize() == 2
  {
    a := new SingleLinkedList.FromSeq([1, 2]);
    b := new SingleLinkedList.FromSeq([3]);
    a.Assign(a);
    assert a.Contents == [1, 2];
    var c := new SingleLinkedList.FromSeq([4]);
    b.Assign(c);
    assert b.Contents == [4];
    SwapLists(a, b);
  }

  /** Swapping twice restores both lists, swapping a list with itself changes nothing,
      and after the swaps the two lists still own disjoint nodes, so one can be
      assigned from the other. */
  method SwapTwiceRun() returns (a: SingleLinkedList<int>, b: SingleLinkedList<int>)
    ensures a.Valid() && b.Valid() && a.Repr !! b.Repr
    ensures a.Contents == [1, 2] && b.Contents == [1, 2] && b.GetSize() == 2
  {
    a := new SingleLinkedList.FromSeq([1, 2]);
    b := new SingleLinkedList.FromSeq([3]);
    SwapLists(a, b);
    SwapLists(a, b);
    assert a.Contents == [1, 2] && b.Contents == [3];
    a.Swap(a);
    SwapLists(b, b);
    assert a.Contents == [1, 2] && b.Contents == [3];
    b.Assign(a);
  }
}
