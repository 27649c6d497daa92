/** SingleLinkedList<Type>: a singly linked list with a before-first sentinel node and a
    cached element count. Iterators are node references; `null` is `end()` and the
    sentinel is `before_begin()`. */
module SingleLinkedLists {

  /** One cell of the chain: a value and the link to the next cell (null after the last). */
  class Node<T(0)> {
    var value: T
    var next: Node?<T>

    /** The default-constructed node that serves as a list's sentinel. */
    constructor Sentinel()
      ensures next == null
    {
      next := null;
    }

    constructor (value: T, next: Node?<T>)
      ensures this.value == value && this.next == next
    {
      this.value := value;
      this.next := next;
    }
  }

  // ------------------------------------------------ what the mutators do to the elements

  /** The elements after inserting `v` right after position `i`
      (position -1 is before_begin()). */
  function InsertedAfter<T>(s: seq<T>, i: int, v: T): (r: seq<T>)
    requires -1 <= i < |s|
    ensures |r| == |s| + 1 && r[i + 1] == v
    ensures forall k :: 0 <= k <= i ==> r[k] == s[k]
    ensures forall k :: i + 1 <= k < |s| ==> r[k + 1] == s[k]
  {
    s[..i + 1] + [v] + s[i + 1..]
  }

  /** The elements after removing the one right after position `i`. */
  function ErasedAfter<T>(s: seq<T>, i: int): (r: seq<T>)
    requires -1 <= i < |s| - 1
    ensures |r| == |s| - 1
    ensures forall k :: 0 <= k <= i ==> r[k] == s[k]
    ensures forall k :: i + 1 <= k < |r| ==> r[k] == s[k + 1]
  {
    s[..i + 1] + s[i + 2..]
  }

  /** Erasing after a position undoes inserting after it. */
  lemma EraseAfterUndoesInsertAfter<T>(s: seq<T>, i: int, v: T)
    requires -1 <= i < |s|
    ensures ErasedAfter(InsertedAfter(s, i, v), i) == s
  {
  }

  /** Inserting the erased element back after the same position restores the sequence. */
  lemma InsertAfterUndoesEraseAfter<T>(s: seq<T>, i: int)
    requires -1 <= i < |s| - 1
    ensures InsertedAfter(ErasedAfter(s, i), i, s[i + 1]) == s
  {
  }

  /** After the last position, InsertAfter appends. */
  lemma AfterLastIsAppend<T>(s: seq<T>, v: T)
    ensures InsertedAfter(s, |s| - 1, v) == s + [v]
  {
  }

  /** At before_begin(), InsertAfter is PushFront. */
  lemma InsertAfterBeforeBeginIsPushFront<T>(s: seq<T>, v: T)
    ensures InsertedAfter(s, -1, v) == [v] + s
  {
  }

  /** At before_begin(), EraseAfter is PopFront. */
  lemma EraseAfterBeforeBeginIsPopFront<T>(s: seq<T>)
    requires s != []
    ensures ErasedAfter(s, -1) == s[1..]
  {
  }

  // ------------------------------------------------------------------------ the list

  class SingleLinkedList<T(0)> {
    /** The before-first node; it never holds a user value. */
    const head: Node<T>
    /** The cached element count. */
    var size: nat

    /** The elements, front to back. */
    ghost var Contents: seq<T>
    /** The element nodes, front to back: the iterators that can be dereferenced. */
    ghost var Nodes: seq<Node<T>>
    /** The list object, its sentinel and its element nodes. */
    ghost var Repr: set<object>

    /** The chain invariant: the sentinel links to the first element node, each node
        links to the next one and holds the matching element, the last links to null,
        and the cached count is the number of nodes. */
    ghost predicate Valid()
      reads this, Repr
      ensures Valid() ==> this in Repr
    {
      && this in Repr && head in Repr
      && (forall i :: 0 <= i < |Nodes| ==> Nodes[i] in Repr)
      && size == |Nodes| == |Contents|
      && head.next == (if Nodes == [] then null else Nodes[0])
      && (forall i {:trigger Nodes[i].value} :: 0 <= i < |Nodes| ==> Nodes[i].value == Contents[i])
      && (forall i {:trigger Nodes[i].next} :: 0 <= i < |Nodes| - 1 ==> Nodes[i].next == Nodes[i + 1])
      && (Nodes != [] ==> Nodes[|Nodes| - 1].next == null)
    }

    /** The iterator at position `i`: -1 is before_begin(), 0 .. |Nodes| - 1 are the
        elements, |Nodes| is end(). */
    ghost function Position(i: int): Node?<T>
      reads this
      requires -1 <= i <= |Nodes|
    {
      if i == -1 then head else if i == |Nodes| then null else Nodes[i]
    }

    /** The link of every position before end() leads to the next position. */
    lemma LinkLeadsToNextPosition(i: int)
      requires Valid() && -1 <= i < |Contents|
      ensures Position(i) != null && Position(i).next == Position(i + 1)
    {
    }

    /** No node occurs twice along the chain: if an earlier position shared its node
        with a later one, both would link to the same successor, and so on until the
        later one reached end() while the earlier one had not. */
    lemma {:induction false} EarlierPositionDiffers(i: int, j: int)
      requires Valid() && -1 <= i < j <= |Contents|
      ensures Position(i) != Position(j)
      decreases |Contents| - i
    {
      if j < |Contents| {
        LinkLeadsToNextPosition(i);
        LinkLeadsToNextPosition(j);
        EarlierPositionDiffers(i + 1, j + 1);
      }
    }

    /** Iterator equality is node identity: two positions give equal iterators exactly
        when they are the same position. */
    lemma PositionsAreDistinct(i: int, j: int)
      requires Valid()
      requires -1 <= i <= |Contents| && -1 <= j <= |Contents|
      ensures Position(i) == Position(j) <==> i == j
    {
      if i < j {
        EarlierPositionDiffers(i, j);
      } else if j < i {
        EarlierPositionDiffers(j, i);
      }
    }

    /** The node at position `i` is at no other position; in particular the sentinel is
        not an element node. */
    lemma OnlyAtItsPosition(i: int)
      requires Valid() && -1 <= i < |Contents|
      ensures forall k :: 0 <= k < |Nodes| && k != i ==> Nodes[k] != Position(i)
      ensures i != -1 ==> head != Nodes[i]
    {
      forall k | 0 <= k < |Nodes| && k != i
        ensures Nodes[k] != Position(i)
      {
        PositionsAreDistinct(k, i);
      }
      if i != -1 {
        PositionsAreDistinct(-1, i);
      }
    }

    /** The node reached from `n` by following `steps` links, stopping at null. */
    ghost function Follow(n: Node?<T>, steps: nat): Node?<T>
      reads Repr
      requires Valid() && (n == null || n == head || n in Nodes)
      decreases steps
    {
      if steps == 0 || n == null then n
      else
        assert n.next == null || n.next in Nodes by {
          if n == head {
            LinkLeadsToNextPosition(-1);
          } else {
            var j :| 0 <= j < |Nodes| && Nodes[j] == n;
            LinkLeadsToNextPosition(j);
          }
        }
        Follow(n.next, steps - 1)
    }

    /** Following links from position `i` walks the positions in order. */
    lemma {:induction false} FollowWalksPositions(i: int, steps: nat)
      requires Valid() && -1 <= i && i + steps <= |Contents|
      ensures Follow(Position(i), steps) == Position(i + steps)
      decreases steps
    {
      if steps > 0 {
        LinkLeadsToNextPosition(i);
        FollowWalksPositions(i + 1, steps - 1);
      }
    }

    /** Structural invariant: from begin(), end() is reached after exactly GetSize()
        increments and not before. */
    lemma TraversalReachesEnd()
      requires Valid()
      ensures Follow(head.next, size) == null
      ensures forall k :: 0 <= k < size ==> Follow(head.next, k) != null
    {
      FollowWalksPositions(0, size);
      forall k | 0 <= k < size
        ensures Follow(head.next, k) != null
      {
        FollowWalksPositions(0, k);
      }
    }

    constructor ()
      ensures Valid() && fresh(Repr)
      ensures Contents == [] && Nodes == []
    {
      head := new Node.Sentinel();
      size := 0;
      Contents, Nodes := [], [];
      new;
      Repr := {this, head};
    }

    /** The copy constructor: the elements are copied into a temporary list, which is
        then swapped in. */
    constructor Copy(other: SingleLinkedList<T>)
      requires other.Valid()
      ensures Valid() && fresh(Repr)
      ensures Contents == other.Contents
    {
      var tmp := CopyOf(other);
      head := new Node.Sentinel();
      size := 0;
      Contents, Nodes := [], [];
      new;
      Repr := {this, head};
      Swap(tmp);
    }

    /** The copy constructor's temporary: InsertAfter at a position that advances along
        the new list while an iterator walks `other` from begin() to end(). */
    static method CopyOf(other: SingleLinkedList<T>) returns (tmp: SingleLinkedList<T>)
      requires other.Valid()
      ensures tmp.Valid() && fresh(tmp.Repr)
      ensures tmp.Contents == other.Contents
    {
      tmp := new SingleLinkedList();
      var pos := tmp.BeforeBegin();
      var valueIt := other.Begin();
      ghost var source := other.Contents;
      ghost var k := 0;
      while valueIt != other.End()
        invariant tmp.Valid() && fresh(tmp.Repr)
        invariant 0 <= k <= |source|
        invariant valueIt == other.Position(k)
        invariant tmp.Contents == source[..k]
        invariant pos == tmp.Position(k - 1) && pos in tmp.Repr
        decreases |source| - k
      {
        var value := Deref(other, valueIt, k);
        AfterLastIsAppend(tmp.Contents, value);
        assert source[..k + 1] == source[..k] + [value];
        var _ := tmp.InsertAfter(pos, k - 1, value);
        pos := Increment(tmp, pos, k - 1);
        valueIt := Increment(other, valueIt, k);
        k := k + 1;
      }
      assert source[..k] == source;
    }

    /** The initializer-list constructor: pushes the values to the front in reverse. */
    constructor FromSeq(values: seq<T>)
      ensures Valid() && fresh(Repr)
      ensures Contents == values
    {
      var tmp := new SingleLinkedList();
      var i := |values|;
      while i > 0
        invariant tmp.Valid() && fresh(tmp.Repr)
        invariant 0 <= i <= |values|
        invariant tmp.Contents == values[i..]
      {
        i := i - 1;
        tmp.PushFront(values[i]);
      }
      head := new Node.Sentinel();
      size := 0;
      Contents, Nodes := [], [];
      new;
      Repr := {this, head};
      Swap(tmp);
    }

    /** operator=: a no-op when both lists share begin() (the same list, or two empty
        ones); otherwise a copy of `rhs` replaces the elements. */
    method Assign(rhs: SingleLinkedList<T>)
      requires Valid() && rhs.Valid()
      requires this == rhs || Repr !! rhs.Repr
      modifies this, head
      ensures Valid() && rhs.Valid() && fresh(Repr - old(Repr))
      ensures Contents == old(rhs.Contents) && rhs.Contents == old(rhs.Contents)
      ensures old(Begin()) == old(rhs.Begin()) ==> Nodes == old(Nodes) && size == old(size)
      ensures this != rhs ==> Repr !! rhs.Repr
    {
      if Begin() == rhs.Begin() {
        return;
      }
      var tmp := new SingleLinkedList.Copy(rhs);
      if size != 0 {
        Clear();
      }
      Swap(tmp);
    }

    /** Pops the front until the list is empty. */
    method Clear()
      requires Valid()
      modifies this, head
      ensures Valid() && Repr <= old(Repr)
      ensures Contents == [] && size == 0
      ensures forall k :: 0 <= k < |old(Nodes)| ==> old(Nodes)[k] !in Repr
    {
      while head.next != null
        invariant Valid() && Repr <= old(Repr)
        invariant |Contents| <= |old(Contents)|
        invariant Contents == old(Contents)[|old(Contents)| - |Contents|..]
        invariant Nodes == old(Nodes)[|old(Nodes)| - |Nodes|..]
        invariant forall k :: 0 <= k < |old(Nodes)| - |Nodes| ==> old(Nodes)[k] !in Repr
        decreases |Contents|
      {
        PopFront();
      }
    }

    /** Unlinks the element after `pos` and returns the iterator to the element that
        followed it; a null iterator and no change when `pos` is end() or the last element. */
    method EraseAfter(pos: Node?<T>, ghost i: int) returns (following: Node?<T>)
      requires Valid() && -1 <= i <= |Contents| && pos == Position(i)
      modifies this, pos
      ensures Valid() && Repr <= old(Repr)
      ensures i >= |old(Contents)| - 1 ==>
        && following == null && Contents == old(Contents) && Nodes == old(Nodes)
        && size == old(size) && Repr == old(Repr)
      ensures i < |old(Contents)| - 1 ==>
        && Contents == ErasedAfter(old(Contents), i)
        && Nodes == ErasedAfter(old(Nodes), i)
        && size == old(size) - 1
        && Repr == old(Repr) - {old(Nodes)[i + 1]}
        && following == Position(i + 1)
    {
      if pos == null || pos.next == null {
        if i < |Contents| - 1 {
          LinkLeadsToNextPosition(i);
        }
        return null;
      }
      LinkLeadsToNextPosition(i);
      LinkLeadsToNextPosition(i + 1);
      OnlyAtItsPosition(i);
      OnlyAtItsPosition(i + 1);
      var erased := pos.next;
      pos.next := erased.next;
      size := size - 1;
      Contents := ErasedAfter(Contents, i);
      Nodes := ErasedAfter(Nodes, i);
      Repr := Repr - {erased};
      following := pos.next;
      UnlinkedIsValid(pos, i);
    }

    /** After the node at position `i + 1` is unlinked (position `i` now links past it,
        and nothing else in the old heap changed), the list is valid again.
        (`new` on the integer `i` only works around a Dafny 4.11 prover crash on twostate
        lemmas with value parameters; it has no meaning for an `int`.) */
    twostate lemma UnlinkedIsValid(pos: Node<T>, new i: int)
      requires old(Valid()) && -1 <= i < old(|Contents|) - 1 && pos == old(Position(i))
      requires forall k :: 0 <= k < old(|Nodes|) && k != i + 1 ==> old(Nodes[k]) != old(Nodes[i + 1])
      requires head != old(Nodes[i + 1])
      requires Contents == ErasedAfter(old(Contents), i) && Nodes == ErasedAfter(old(Nodes), i)
      requires size == old(size) - 1 && Repr == old(Repr) - {old(Nodes[i + 1])}
      requires pos.next == old(Position(i + 2))
      requires i != -1 ==> head.next == old(head.next)
      requires forall k :: 0 <= k < old(|Nodes|) && k != i ==> old(Nodes[k]).next == old(Nodes[k].next)
      requires forall k :: 0 <= k < old(|Nodes|) ==> old(Nodes[k]).value == old(Nodes[k].value)
      ensures Valid()
    {
      ghost var before := old(Nodes);
      forall k | 0 <= k < |Nodes|
        ensures Nodes[k] in Repr && Nodes[k].value == Contents[k]
      {
        if k > i {
          assert Nodes[k] == before[k + 1];
        }
      }
      forall k | 0 <= k < |Nodes| - 1
        ensures Nodes[k].next == Nodes[k + 1]
      {
        if k > i {
          assert Nodes[k] == before[k + 1];
        }
      }
      if i < |Nodes| - 1 {
        assert Nodes[|Nodes| - 1] == before[|before| - 1];
      }
    }

    /** The element count, kept in O(1). */
    function GetSize(): (n: nat)
      reads Repr
      requires Valid()
      ensures n == |Contents|
    {
      size
    }

    /** Links a new node holding `value` right after `pos` and returns the iterator to it;
        a null iterator and no change when `pos` is end(). */
    method InsertAfter(pos: Node?<T>, ghost i: int, value: T) returns (inserted: Node?<T>)
      requires Valid() && -1 <= i <= |Contents| && pos == Position(i)
      modifies this, pos
      ensures Valid() && fresh(Repr - old(Repr))
      ensures i == |old(Contents)| ==>
        && inserted == null && Contents == old(Contents) && Nodes == old(Nodes)
        && size == old(size)
      ensures i < |old(Contents)| ==>
        && Contents == InsertedAfter(old(Contents), i, value)
        && inserted != null && fresh(inserted) && inserted.value == value
        && Nodes == InsertedAfter(old(Nodes), i, inserted)
        && size == old(size) + 1
        && inserted == Position(i + 1)
    {
      if pos == null {
        return null;
      }
      LinkLeadsToNextPosition(i);
      OnlyAtItsPosition(i);
      var node := new Node(value, pos.next);
      pos.next := node;
      size := size + 1;
      Contents := InsertedAfter(Contents, i, value);
      Nodes := InsertedAfter(Nodes, i, node);
      Repr := Repr + {node};
      inserted := node;
      LinkedInIsValid(pos, i, node);
    }

    /** After a fresh `node` is linked in right after position `i` (and nothing else in
        the old heap changed but that position's link), the list is valid again.
        (`new` on `i` works around the same prover crash as in `UnlinkedIsValid`.) */
    twostate lemma LinkedInIsValid(pos: Node<T>, new i: int, new node: Node<T>)
      requires old(Valid()) && -1 <= i < old(|Contents|) && pos == old(Position(i))
      requires forall k :: 0 <= k < old(|Nodes|) && k != i ==> old(Nodes[k]) != pos
      requires Contents == InsertedAfter(old(Contents), i, node.value)
      requires Nodes == InsertedAfter(old(Nodes), i, node)
      requires size == old(size) + 1 && Repr == old(Repr) + {node}
      requires pos.next == node && node.next == old(Position(i + 1))
      requires i != -1 ==> head.next == old(head.next)
      requires forall k :: 0 <= k < old(|Nodes|) && k != i ==> old(Nodes[k]).next == old(Nodes[k].next)
      requires forall k :: 0 <= k < old(|Nodes|) ==> old(Nodes[k]).value == old(Nodes[k].value)
      ensures Valid()
    {
      ghost var before := old(Nodes);
      forall k | 0 <= k < |Nodes|
        ensures Nodes[k] in Repr && Nodes[k].value == Contents[k]
      {
        if k > i + 1 {
          assert Nodes[k] == before[k - 1];
        }
      }
      forall k | 0 <= k < |Nodes| - 1
        ensures Nodes[k].next == Nodes[k + 1]
      {
        if k < i {
          assert before[k] != pos;
        } else if k > i + 1 {
          assert Nodes[k] == before[k - 1] && before[k - 1] != pos;
        }
      }
      if i + 1 < |before| {
        assert Nodes[|Nodes| - 1] == before[|before| - 1];
      }
    }

    /** Whether the list has no elements, in O(1). */
    function IsEmpty(): (b: bool)
      reads Repr
      requires Valid()
      ensures b <==> Contents == []
    {
      size == 0
    }

    /** Unlinks the first element; no change on an empty list. */
    method PopFront()
      requires Valid()
      modifies this, head
      ensures Valid() && Repr <= old(Repr)
      ensures old(Contents) == [] ==>
        Contents == old(Contents) && Nodes == old(Nodes) && size == old(size) && Repr == old(Repr)
      ensures old(Contents) != [] ==>
        && Contents == old(Contents)[1..] && Nodes == old(Nodes)[1..] && size == old(size) - 1
        && Repr == old(Repr) - {old(Nodes)[0]}
    {
      if head.next == null {
        return;
      }
      LinkLeadsToNextPosition(-1);
      LinkLeadsToNextPosition(0);
      OnlyAtItsPosition(-1);
      OnlyAtItsPosition(0);
      var front := head.next;
      head.next := front.next;
      size := size - 1;
      EraseAfterBeforeBeginIsPopFront(Contents);
      EraseAfterBeforeBeginIsPopFront(Nodes);
      Contents := Contents[1..];
      Nodes := Nodes[1..];
      Repr := Repr - {front};
      UnlinkedIsValid(head, -1);
    }

    /** Links a new node holding `value` in front of the first element. */
    method PushFront(value: T)
      requires Valid()
      modifies this, head
      ensures Valid() && fresh(Repr - old(Repr))
      ensures Contents == [value] + old(Contents) && size == old(size) + 1
      ensures |Nodes| > 0 && fresh(Nodes[0]) && Nodes[1..] == old(Nodes)
    {
      LinkLeadsToNextPosition(-1);
      OnlyAtItsPosition(-1);
      var front := new Node(value, head.next);
      head.next := front;
      size := size + 1;
      InsertAfterBeforeBeginIsPushFront(Contents, value);
      InsertAfterBeforeBeginIsPushFront(Nodes, front);
      Contents := [value] + Contents;
      Nodes := [front] + Nodes;
      Repr := Repr + {front};
      LinkedInIsValid(head, -1, front);
    }

    /** Exchanges the element chains and the counts of two lists; the sentinels stay.
        Swapping a list with itself changes nothing. */
    method Swap(other: SingleLinkedList<T>)
      requires Valid() && other.Valid()
      requires this == other || Repr !! other.Repr
      modifies this, head, other, other.head
      ensures Valid() && other.Valid()
      ensures Contents == old(other.Contents) && other.Contents == old(Contents)
      ensures size == old(other.size) && other.size == old(size)
      ensures Nodes == old(other.Nodes) && other.Nodes == old(Nodes)
      ensures Repr == {this, head} + (old(other.Repr) - {other, other.head})
      ensures other.Repr == {other, other.head} + (old(Repr) - {this, head})
      ensures this != other ==> Repr !! other.Repr
    {
      OnlyAtItsPosition(-1);
      other.OnlyAtItsPosition(-1);
      var count := size;
      size := other.size;
      other.size := count;
      var first := head.next;
      head.next := other.head.next;
      other.head.next := first;
      if this != other {
        ghost var contents, nodes, repr := Contents, Nodes, Repr - {this, head};
        Contents, Nodes, Repr := other.Contents, other.Nodes, {this, head} + (other.Repr - {other, other.head});
        other.Contents, other.Nodes, other.Repr := contents, nodes, {other, other.head} + repr;
        TookChainOf(other);
        other.TookChainOf(this);
      }
    }

    /** A list whose sentinel now links to the chain `donor` had (with `donor`'s
        elements, count and nodes, none of which changed) is valid. */
    twostate lemma TookChainOf(donor: SingleLinkedList<T>)
      requires old(donor.Valid())
      requires Contents == old(donor.Contents) && Nodes == old(donor.Nodes) && size == old(donor.size)
      requires Repr == {this, head} + (old(donor.Repr) - {donor, donor.head})
      requires head.next == old(donor.head.next)
      requires forall k :: 0 <= k < |Nodes| ==> Nodes[k] != donor.head
      requires forall k :: 0 <= k < |Nodes| ==> Nodes[k].next == old(donor.Nodes[k].next)
      requires forall k :: 0 <= k < |Nodes| ==> Nodes[k].value == old(donor.Nodes[k].value)
      ensures Valid()
    {
    }

    /** begin(): the first element, or end() when the list is empty. */
    function Begin(): (it: Node?<T>)
      reads Repr
      requires Valid()
      ensures it == Position(0)
      ensures it == null <==> Contents == []
    {
      head.next
    }

    /** end(): the null iterator, one past the last element. */
    function End(): (it: Node?<T>)
      reads this
      ensures it == Position(|Nodes|)
    {
      null
    }

    /** before_begin(): the sentinel, an anchor for InsertAfter and EraseAfter that is
        not an element. */
    function BeforeBegin(): (it: Node<T>)
      reads Repr
      requires Valid()
      ensures it == Position(-1) && it !in Nodes
      ensures it.next == Position(0)
    {
      OnlyAtItsPosition(-1);
      head
    }
  }

  // --------------------------------------------------------------------- iterators

  /** BasicIterator::operator++ at position `i` of `list`: moves to the next position;
      from the last element it reaches end(). */
  method Increment<T(0)>(ghost list: SingleLinkedList<T>, it: Node?<T>, ghost i: int)
    returns (next: Node?<T>)
    requires list.Valid() && -1 <= i < |list.Contents| && it == list.Position(i)
    ensures next == list.Position(i + 1)
  {
    next := it.next;
  }

  /** BasicIterator::operator+=: `count` increments in a row. */
  method AdvanceBy<T(0)>(ghost list: SingleLinkedList<T>, it: Node?<T>, ghost i: int, count: nat)
    returns (moved: Node?<T>)
    requires list.Valid() && -1 <= i && i + count <= |list.Contents| && it == list.Position(i)
    ensures moved == list.Position(i + count)
  {
    moved := it;
    var j := 0;
    while j < count
      invariant 0 <= j <= count
      invariant moved == list.Position(i + j)
    {
      moved := Increment(list, moved, i + j);
      j := j + 1;
    }
  }

  /** BasicIterator::operator*: the element at position `i`. */
  method Deref<T(0)>(ghost list: SingleLinkedList<T>, it: Node?<T>, ghost i: int)
    returns (value: T)
    requires list.Valid() && 0 <= i < |list.Contents| && it == list.Position(i)
    ensures value == list.Contents[i]
  {
    value := it.value;
  }

  /** The free swap(lhs, rhs): the member swap, with the same effect. */
  method SwapLists<T(0)>(lhs: SingleLinkedList<T>, rhs: SingleLinkedList<T>)
    requires lhs.Valid() && rhs.Valid()
    requires lhs == rhs || lhs.Repr !! rhs.Repr
    modifies lhs, lhs.head, rhs, rhs.head
    ensures lhs.Valid() && rhs.Valid()
    ensures lhs.Contents == old(rhs.Contents) && rhs.Contents == old(lhs.Contents)
    ensures lhs.size == old(rhs.size) && rhs.size == old(lhs.size)
    ensures lhs.Nodes == old(rhs.Nodes) && rhs.Nodes == old(lhs.Nodes)
    ensures lhs.Repr == {lhs, lhs.head} + (old(rhs.Repr) - {rhs, rhs.head})
    ensures rhs.Repr == {rhs, rhs.head} + (old(lhs.Repr) - {lhs, lhs.head})
    ensures lhs != rhs ==> lhs.Repr !! rhs.Repr
  {
    lhs.Swap(rhs);
  }
}
