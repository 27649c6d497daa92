/** The free comparison operators of SingleLinkedList<Type>.
    Each operator reads only the element sequences of its two operands, so it is
    modelled over those sequences (a list's `Contents`). Element equality is Dafny's
    `==`; the element type's `operator<` is passed as a relation `lt`. */
module Comparisons {

  /** What the element type's `operator<` is assumed to be: a strict total order. */
  ghost predicate StrictTotalOrder<T(!new)>(lt: (T, T) -> bool) {
    && (forall x :: !lt(x, x))
    && (forall x, y, z :: lt(x, y) && lt(y, z) ==> lt(x, z))
    && (forall x, y :: x != y ==> lt(x, y) || lt(y, x))
  }

  // ---------------------------------------------------------------- equality

  /** std::equal(first1, last1, first2): walks the first range and compares each
      element with the one at the same offset in the second range. */
  function RangeEqual<T(==)>(a: seq<T>, b: seq<T>): bool
    requires |a| <= |b|
  {
    a == [] || (a[0] == b[0] && RangeEqual(a[1..], b[1..]))
  }

  lemma {:induction false} RangeEqualIsPairwise<T>(a: seq<T>, b: seq<T>)
    requires |a| <= |b|
    ensures RangeEqual(a, b) <==> forall k :: 0 <= k < |a| ==> a[k] == b[k]
  {
    if a != [] {
      RangeEqualIsPairwise(a[1..], b[1..]);
      if a[0] == b[0] && !RangeEqual(a[1..], b[1..]) {
        var k :| 0 <= k < |a| - 1 && a[1..][k] != b[1..][k];
        assert a[k + 1] != b[k + 1];
      }
    }
  }

  /** operator==: equal sizes, then std::equal over the elements. */
  function Equal<T(==)>(lhs: seq<T>, rhs: seq<T>): (r: bool)
    ensures r <==> |lhs| == |rhs| && forall k :: 0 <= k < |lhs| ==> lhs[k] == rhs[k]
    ensures r <==> lhs == rhs
  {
    if |lhs| == |rhs| then
      RangeEqualIsPairwise(lhs, rhs);
      RangeEqual(lhs, rhs)
    else
      false
  }

  /** operator!=: the negation of operator==. */
  function NotEqual<T(==)>(lhs: seq<T>, rhs: seq<T>): (r: bool)
    ensures r <==> lhs != rhs
  {
    !Equal(lhs, rhs)
  }

  // ---------------------------------------------------------------- ordering

  /** std::lexicographical_compare: compare element by element; the first element that
      is less than its partner decides `true`, the first that is greater decides `false`;
      when one range runs out first, the result is whether only the first one did. */
  function LexicographicalCompare<T>(lt: (T, T) -> bool, a: seq<T>, b: seq<T>): bool
  {
    if a == [] || b == [] then a == [] && b != []
    else if lt(a[0], b[0]) then true
    else if lt(b[0], a[0]) then false
    else LexicographicalCompare(lt, a[1..], b[1..])
  }

  /** The length of the longest common prefix of `a` and `b`: the index of the first
      mismatch, if there is one. */
  function CommonPrefixLength<T(==)>(a: seq<T>, b: seq<T>): (k: nat)
    ensures k <= |a| && k <= |b|
    ensures a[..k] == b[..k]
    ensures k < |a| && k < |b| ==> a[k] != b[k]
  {
    if a == [] || b == [] || a[0] != b[0] then 0
    else
      var k := CommonPrefixLength(a[1..], b[1..]);
      assert a[..k + 1] == [a[0]] + a[1..][..k];
      assert b[..k + 1] == [b[0]] + b[1..][..k];
      k + 1
  }

  /** The lexicographic order as the standard states it: the first mismatching pair
      of elements decides, and when there is none, a strict prefix is less. */
  ghost predicate LexicographicallyLess<T>(lt: (T, T) -> bool, a: seq<T>, b: seq<T>) {
    var k := CommonPrefixLength(a, b);
    if k < |a| && k < |b| then lt(a[k], b[k]) else |a| < |b|
  }

  /** operator<: std::lexicographical_compare over the two element ranges. For a strict
      total order on the elements it is the lexicographic order. */
  function Less<T(!new)>(lt: (T, T) -> bool, lhs: seq<T>, rhs: seq<T>): (r: bool)
    ensures StrictTotalOrder(lt) ==> (r <==> LexicographicallyLess(lt, lhs, rhs))
  {
    assert StrictTotalOrder(lt) ==> (LexicographicalCompare(lt, lhs, rhs) <==> LexicographicallyLess(lt, lhs, rhs)) by {
      if StrictTotalOrder(lt) {
        CompareIsFirstMismatch(lt, lhs, rhs);
      }
    }
    LexicographicalCompare(lt, lhs, rhs)
  }

  /** operator<=: operator== or operator<. It is the complement of operator>. */
  function LessOrEqual<T(==,!new)>(lt: (T, T) -> bool, lhs: seq<T>, rhs: seq<T>): (r: bool)
    ensures StrictTotalOrder(lt) ==> (r <==> !Greater(lt, lhs, rhs))
  {
    assert StrictTotalOrder(lt) ==> (Equal(lhs, rhs) || Less(lt, lhs, rhs) <==> !Less(lt, rhs, lhs)) by {
      if StrictTotalOrder(lt) {
        LessTrichotomous(lt, lhs, rhs);
        LessAsymmetric(lt, lhs, rhs);
        LessIrreflexive(lt, lhs);
      }
    }
    Equal(lhs, rhs) || Less(lt, lhs, rhs)
  }

  /** operator>: operator< with its operands swapped, so for a strict total order on the
      elements it is the lexicographic order read from the right-hand side. */
  function Greater<T(!new)>(lt: (T, T) -> bool, lhs: seq<T>, rhs: seq<T>): (r: bool)
    ensures StrictTotalOrder(lt) ==> (r <==> LexicographicallyLess(lt, rhs, lhs))
  {
    Less(lt, rhs, lhs)
  }

  /** operator>=: operator== or operator>. It is the complement of operator<. */
  function GreaterOrEqual<T(==,!new)>(lt: (T, T) -> bool, lhs: seq<T>, rhs: seq<T>): (r: bool)
    ensures StrictTotalOrder(lt) ==> (r <==> !Less(lt, lhs, rhs))
  {
    assert StrictTotalOrder(lt) ==> (Equal(lhs, rhs) || Less(lt, rhs, lhs) <==> !Less(lt, lhs, rhs)) by {
      if StrictTotalOrder(lt) {
        LessTrichotomous(lt, lhs, rhs);
        LessAsymmetric(lt, lhs, rhs);
        LessIrreflexive(lt, lhs);
      }
    }
    Equal(lhs, rhs) || Greater(lt, lhs, rhs)
  }

  /** std::lexicographical_compare is the lexicographic order: the first mismatch
      decides, and a strict prefix is less. */
  lemma {:induction false} CompareIsFirstMismatch<T(!new)>(lt: (T, T) -> bool, a: seq<T>, b: seq<T>)
    requires StrictTotalOrder(lt)
    ensures LexicographicalCompare(lt, a, b) <==> LexicographicallyLess(lt, a, b)
  {
    if a != [] && b != [] && a[0] == b[0] {
      CompareIsFirstMismatch(lt, a[1..], b[1..]);
      assert CommonPrefixLength(a, b) == CommonPrefixLength(a[1..], b[1..]) + 1;
    }
  }

  /** A strict prefix compares less than the longer sequence. */
  lemma StrictPrefixIsLess<T(!new)>(lt: (T, T) -> bool, a: seq<T>, b: seq<T>)
    requires StrictTotalOrder(lt)
    requires |a| < |b| && a == b[..|a|]
    ensures Less(lt, a, b) && !Less(lt, b, a)
  {
  }

  /** No sequence is less than itself. */
  lemma LessIrreflexive<T(!new)>(lt: (T, T) -> bool, a: seq<T>)
    requires StrictTotalOrder(lt)
    ensures !Less(lt, a, a)
  {
  }

  /** operator< never holds in both directions. */
  lemma LessAsymmetric<T(!new)>(lt: (T, T) -> bool, a: seq<T>, b: seq<T>)
    requires StrictTotalOrder(lt)
    ensures !(Less(lt, a, b) && Less(lt, b, a))
  {
  }

  /** operator< is transitive. */
  lemma LessTransitive<T(!new)>(lt: (T, T) -> bool, a: seq<T>, b: seq<T>, c: seq<T>)
    requires StrictTotalOrder(lt)
    requires Less(lt, a, b) && Less(lt, b, c)
    ensures Less(lt, a, c)
  {
  }

  /** Any two sequences are equal or ordered one way by operator<. */
  lemma LessTrichotomous<T(!new)>(lt: (T, T) -> bool, a: seq<T>, b: seq<T>)
    requires StrictTotalOrder(lt)
    ensures Less(lt, a, b) || a == b || Less(lt, b, a)
  {
  }

  /** operator<= in both directions means operator==. */
  lemma LessOrEqualAntisymmetric<T(!new)>(lt: (T, T) -> bool, a: seq<T>, b: seq<T>)
    requires StrictTotalOrder(lt)
    requires LessOrEqual(lt, a, b) && LessOrEqual(lt, b, a)
    ensures Equal(a, b)
  {
  }
}
