/**
 * Boolean-mask selection and the element-wise operators that CocoaKit adds
 * to every Swift `Sequence`, modelled on Swift arrays (`seq`).
 *
 * A mask (`SequenceSelector`, a `[Bool]`) picks the positions of a sequence
 * whose flag is `true`. Reading through a mask selects those elements;
 * assigning `nil` through it deletes them; assigning a sequence through it
 * overwrites them in order with the replacement's first elements.
 */
module Sequences {
  import opened Wrappers
  import opened SwiftInt

  // ---------------------------------------------------------------------
  // Masks
  // ---------------------------------------------------------------------

  /** The number of `true` flags in a mask. */
  function TrueCount(m: seq<bool>): (n: nat)
    ensures n <= |m|
  {
    if |m| == 0 then 0 else (if m[0] then 1 else 0) + TrueCount(m[1..])
  }

  lemma {:induction false} TrueCountAppend(a: seq<bool>, b: seq<bool>)
    ensures TrueCount(a + b) == TrueCount(a) + TrueCount(b)
  {
    if |a| == 0 {
      assert a + b == b;
    } else {
      assert (a + b)[1..] == a[1..] + b;
      TrueCountAppend(a[1..], b);
    }
  }

  lemma TrueCountStep(m: seq<bool>, j: nat)
    requires j < |m|
    ensures TrueCount(m[..j + 1]) == TrueCount(m[..j]) + (if m[j] then 1 else 0)
  {
    assert m[..j + 1] == m[..j] + [m[j]];
    TrueCountAppend(m[..j], [m[j]]);
  }

  /** The mask with every flag flipped. */
  function Negated(m: seq<bool>): (n: seq<bool>)
    ensures |n| == |m|
  {
    seq(|m|, i requires 0 <= i < |m| => !m[i])
  }

  lemma {:induction false} NegatedCount(m: seq<bool>)
    ensures TrueCount(Negated(m)) == |m| - TrueCount(m)
  {
    if |m| > 0 {
      assert Negated(m)[1..] == Negated(m[1..]);
      NegatedCount(m[1..]);
    }
  }

  // ---------------------------------------------------------------------
  // Mask getter
  // ---------------------------------------------------------------------

  /** The elements of `s` at the `true` positions of `m`, in their order. */
  function Selected<T>(s: seq<T>, m: seq<bool>): (r: seq<T>)
    requires |m| == |s|
    ensures |r| == TrueCount(m)
  {
    if |s| == 0 then []
    else (if m[0] then [s[0]] else []) + Selected(s[1..], m[1..])
  }

  /** `sequence[mask]`: nil when the mask does not have one flag per element. */
  function Select<T>(s: seq<T>, m: seq<bool>): (r: Option<seq<T>>)
    ensures r.None? <==> |m| != |s|
    ensures r.Some? ==> r.value == Selected(s, m) && |r.value| == TrueCount(m)
    ensures r.Some? ==> forall x :: x in r.value ==> x in s
    ensures r.Some? ==> forall j :: 0 <= j < |s| && m[j] ==>
              TrueCount(m[..j]) < |r.value| && r.value[TrueCount(m[..j])] == s[j]
  {
    if |m| != |s| then None
    else
      SelectedFrom(s, m);
      SelectedInOrder(s, m);
      Some(Selected(s, m))
  }

  lemma {:induction false} SelectedFrom<T>(s: seq<T>, m: seq<bool>)
    requires |m| == |s|
    ensures forall x :: x in Selected(s, m) ==> x in s
  {
    if |s| > 0 {
      SelectedFrom(s[1..], m[1..]);
    }
  }

  lemma SelectedInOrder<T>(s: seq<T>, m: seq<bool>)
    requires |m| == |s|
    ensures forall j :: 0 <= j < |s| && m[j] ==>
              TrueCount(m[..j]) < |Selected(s, m)| && Selected(s, m)[TrueCount(m[..j])] == s[j]
  {
    forall j | 0 <= j < |s| && m[j]
      ensures TrueCount(m[..j]) < |Selected(s, m)| && Selected(s, m)[TrueCount(m[..j])] == s[j]
    {
      SelectedAt(s, m, j);
    }
  }

  /** The element at the j-th position of `s`, when that position is
    * selected, is the k-th element of the selection, where k counts the
    * selected positions before j: selection keeps the original order. */
  lemma {:induction false} SelectedAt<T>(s: seq<T>, m: seq<bool>, j: nat)
    requires |m| == |s| && j < |s| && m[j]
    ensures TrueCount(m[..j]) < |Selected(s, m)|
    ensures Selected(s, m)[TrueCount(m[..j])] == s[j]
  {
    TrueCountStep(m, j);
    TrueCountAppend(m[..j + 1], m[j + 1..]);
    assert m[..j + 1] + m[j + 1..] == m;
    if j > 0 {
      assert m[..j][1..] == m[1..][..j - 1];
      SelectedAt(s[1..], m[1..], j - 1);
    }
  }

  // ---------------------------------------------------------------------
  // Mask setter
  // ---------------------------------------------------------------------

  /** `s` without the elements at the `true` positions of `m`. */
  function Deleted<T>(s: seq<T>, m: seq<bool>): (r: seq<T>)
    requires |m| == |s|
  {
    if |s| == 0 then []
    else (if m[0] then [] else [s[0]]) + Deleted(s[1..], m[1..])
  }

  /** Deleting through a mask keeps exactly what the flipped mask selects,
    * so the length drops by the number of `true` flags. */
  lemma {:induction false} DeletedKeepsUnselected<T>(s: seq<T>, m: seq<bool>)
    requires |m| == |s|
    ensures Deleted(s, m) == Selected(s, Negated(m))
    ensures |Deleted(s, m)| == |s| - TrueCount(m)
  {
    NegatedCount(m);
    if |s| > 0 {
      assert Negated(m)[1..] == Negated(m[1..]);
      DeletedKeepsUnselected(s[1..], m[1..]);
    }
  }

  /** What a mask selects and what deleting through it keeps together hold
    * every element of the sequence exactly as often as the sequence does. */
  lemma {:induction false} SelectedAndDeletedPartition<T>(s: seq<T>, m: seq<bool>)
    requires |m| == |s|
    ensures multiset(Selected(s, m)) + multiset(Deleted(s, m)) == multiset(s)
  {
    if |s| > 0 {
      var kept, dropped := Selected(s[1..], m[1..]), Deleted(s[1..], m[1..]);
      SelectedAndDeletedPartition(s[1..], m[1..]);
      PartitionStep(s[0], kept, dropped, s[1..]);
      assert s == [s[0]] + s[1..];
      if m[0] {
        assert Selected(s, m) == [s[0]] + kept;
        assert Deleted(s, m) == dropped;
      } else {
        assert Selected(s, m) == kept;
        assert Deleted(s, m) == [s[0]] + dropped;
      }
    }
  }

  /** Putting one more element on either side keeps a partition. */
  lemma PartitionStep<T>(x: T, a: seq<T>, b: seq<T>, rest: seq<T>)
    requires multiset(a) + multiset(b) == multiset(rest)
    ensures multiset([x] + a) + multiset(b) == multiset([x] + rest)
    ensures multiset(a) + multiset([x] + b) == multiset([x] + rest)
  {
    assert multiset([x] + a) == multiset{x} + multiset(a);
    assert multiset([x] + b) == multiset{x} + multiset(b);
    assert multiset([x] + rest) == multiset{x} + multiset(rest);
  }

  /** `s` with its `true` positions overwritten, in order, by the first
    * elements of `repl`. */
  function Replaced<T>(s: seq<T>, m: seq<bool>, repl: seq<T>): (r: seq<T>)
    requires |m| == |s| && TrueCount(m) <= |repl|
    ensures |r| == |s|
  {
    if |s| == 0 then []
    else if m[0] then [repl[0]] + Replaced(s[1..], m[1..], repl[1..])
    else [s[0]] + Replaced(s[1..], m[1..], repl)
  }

  /** Position j of the result holds the replacement element whose index is
    * the number of selected positions before j, or the old element. */
  lemma {:induction false} ReplacedAt<T>(s: seq<T>, m: seq<bool>, repl: seq<T>, j: nat)
    requires |m| == |s| && TrueCount(m) <= |repl| && j < |s|
    ensures m[j] ==> TrueCount(m[..j]) < |repl|
    ensures Replaced(s, m, repl)[j] == if m[j] then repl[TrueCount(m[..j])] else s[j]
  {
    TrueCountStep(m, j);
    TrueCountAppend(m[..j + 1], m[j + 1..]);
    assert m[..j + 1] + m[j + 1..] == m;
    if j > 0 {
      assert m[..j][1..] == m[1..][..j - 1];
      if m[0] {
        ReplacedAt(s[1..], m[1..], repl[1..], j - 1);
      } else {
        ReplacedAt(s[1..], m[1..], repl, j - 1);
      }
    }
  }

  /** Reading back through the mask gives the first `TrueCount(m)`
    * replacement elements; the unselected positions are untouched. */
  lemma {:induction false} ReplacedSelection<T>(s: seq<T>, m: seq<bool>, repl: seq<T>)
    requires |m| == |s| && TrueCount(m) <= |repl|
    ensures Selected(Replaced(s, m, repl), m) == repl[..TrueCount(m)]
    ensures Deleted(Replaced(s, m, repl), m) == Deleted(s, m)
  {
    if |s| > 0 {
      var r := Replaced(s, m, repl);
      if m[0] {
        ReplacedSelection(s[1..], m[1..], repl[1..]);
        assert r[1..] == Replaced(s[1..], m[1..], repl[1..]);
        assert repl[..TrueCount(m)] == [repl[0]] + repl[1..][..TrueCount(m[1..])];
      } else {
        ReplacedSelection(s[1..], m[1..], repl);
        assert r[1..] == Replaced(s[1..], m[1..], repl);
      }
    }
  }

  /** The setter of `sequence[mask]`, as the source runs it: with `nil` it
    * removes the selected elements walking the mask backwards; with a
    * replacement as long as the whole sequence it overwrites the selected
    * positions in order; any length mismatch leaves `s` as it was. */
  method AssignThroughMask<T>(s: seq<T>, m: seq<bool>, newValue: Option<seq<T>>) returns (r: seq<T>)
    ensures |m| != |s| ==> r == s
    ensures |m| == |s| && newValue.None? ==> r == Deleted(s, m)
    ensures |m| == |s| && newValue.Some? && |newValue.value| != |s| ==> r == s
    ensures |m| == |s| && newValue.Some? && |newValue.value| == |s| ==>
              r == Replaced(s, m, newValue.value)
  {
    if |m| != |s| {
      return s;
    }
    if newValue.None? {
      r := RemoveSelected(s, m);
      return;
    }
    var newArray := newValue.value;
    if |newArray| != |s| {
      return s;
    }
    r := OverwriteSelected(s, m, newArray);
  }

  /** The `nil` branch of the setter: walking the mask from the back, each
    * selected element is removed. */
  method RemoveSelected<T>(s: seq<T>, m: seq<bool>) returns (work: seq<T>)
    requires |m| == |s|
    ensures work == Deleted(s, m)
  {
    work := s;
    var length := |work|;
    var index := 0;
    while index < length
      invariant 0 <= index <= length
      invariant work == s[..length - index] + Deleted(s[length - index..], m[length - index..])
    {
      var p := length - index - 1;
      assert s[p..][1..] == s[p + 1..] && m[p..][1..] == m[p + 1..];
      assert s[..p + 1] == s[..p] + [s[p]];
      if m[p] {
        work := work[..p] + work[p + 1..];
      }
      index := index + 1;
    }
    assert s[..0] == [] && s[0..] == s && m[0..] == m;
  }

  /** The overwriting branch of the setter: the selected positions take the
    * replacement's elements in order, counted by `counterIndex`. */
  method OverwriteSelected<T>(s: seq<T>, m: seq<bool>, newArray: seq<T>) returns (work: seq<T>)
    requires |m| == |s| && |newArray| == |s|
    ensures work == Replaced(s, m, newArray)
  {
    work := s;
    var counterIndex := 0;
    var index := 0;
    while index < |m|
      invariant 0 <= index <= |m|
      invariant counterIndex == TrueCount(m[..index])
      invariant |work| == |s|
      invariant forall j :: 0 <= j < index ==>
                  work[j] == if m[j] then newArray[TrueCount(m[..j])] else s[j]
      invariant forall j :: index <= j < |s| ==> work[j] == s[j]
    {
      TrueCountStep(m, index);
      if m[index] {
        work := work[index := newArray[counterIndex]];
        counterIndex := counterIndex + 1;
      }
      index := index + 1;
    }
    forall j | 0 <= j < |s|
      ensures work[j] == Replaced(s, m, newArray)[j]
    {
      ReplacedAt(s, m, newArray, j);
    }
  }

  // ---------------------------------------------------------------------
  // Repetition
  // ---------------------------------------------------------------------

  /** `n` copies of `s`, one after another. */
  function Copies<T>(s: seq<T>, n: nat): seq<T>
  {
    if n == 0 then [] else Copies(s, n - 1) + s
  }

  /** `n` copies are `n * |s|` long, and the j-th element of copy i is `s[j]`. */
  lemma {:induction false} CopiesAt<T>(s: seq<T>, n: nat, i: nat, j: nat)
    requires i < n && j < |s|
    ensures |Copies(s, n)| == n * |s|
    ensures i * |s| + j < n * |s|
    ensures Copies(s, n)[i * |s| + j] == s[j]
  {
    CopiesLength(s, n - 1);
    assert n * |s| == (n - 1) * |s| + |s|;
    if i < n - 1 {
      CopiesAt(s, n - 1, i, j);
    } else {
      assert i * |s| == (n - 1) * |s|;
    }
  }

  lemma {:induction false} CopiesLength<T>(s: seq<T>, n: nat)
    ensures |Copies(s, n)| == n * |s|
  {
    if n > 0 {
      CopiesLength(s, n - 1);
      assert n * |s| == (n - 1) * |s| + |s|;
    }
  }

  /** `s * n`: `n` copies for positive `n`, empty for zero, and an unchanged
    * copy of `s` for negative `n`. */
  method Repeat<T>(s: seq<T>, n: int) returns (r: seq<T>)
    ensures n > 0 ==> r == Copies(s, n)
    ensures n == 0 ==> r == []
    ensures n < 0 ==> r == s
  {
    if n <= 0 {
      if n == 0 {
        return [];
      }
      return s;
    }
    var newArray: seq<T> := [];
    for k := 0 to n
      invariant newArray == Copies(s, k)
    {
      newArray := newArray + s;
    }
    r := newArray;
  }

  // ---------------------------------------------------------------------
  // Element-wise operators
  // ---------------------------------------------------------------------

  /** `s == x`: a mask that is `true` exactly where `s` holds `x`. */
  function EqualMask<T(==)>(s: seq<T>, x: T): (m: seq<bool>)
    ensures |m| == |s|
    ensures forall i :: 0 <= i < |s| ==> (m[i] <==> s[i] == x)
  {
    seq(|s|, i requires 0 <= i < |s| => s[i] == x)
  }

  /** Selecting through `s == x` yields `x` once per occurrence, and deleting
    * through it leaves no `x` behind. */
  lemma {:induction false} EqualMaskSelects<T>(s: seq<T>, x: T)
    ensures Selected(s, EqualMask(s, x)) == Copies([x], multiset(s)[x])
    ensures x !in Deleted(s, EqualMask(s, x))
  {
    if |s| > 0 {
      assert EqualMask(s, x)[1..] == EqualMask(s[1..], x);
      EqualMaskSelects(s[1..], x);
      assert s == [s[0]] + s[1..];
      assert multiset(s)[x] == (if s[0] == x then 1 else 0) + multiset(s[1..])[x];
      if s[0] == x {
        CopiesFront([x], multiset(s[1..])[x]);
      }
    }
  }

  lemma {:induction false} CopiesFront<T>(s: seq<T>, n: nat)
    ensures Copies(s, n + 1) == s + Copies(s, n)
  {
    if n > 0 {
      CopiesFront(s, n - 1);
    }
  }

  /** `s + c`: `c` added to every element. */
  function AddEach(s: seq<int>, c: int): (r: seq<int>)
    ensures |r| == |s|
    ensures forall i :: 0 <= i < |s| ==> r[i] == s[i] + c
  {
    seq(|s|, i requires 0 <= i < |s| => s[i] + c)
  }

  lemma AddEachFront(s: seq<int>, c: int)
    requires |s| > 0
    ensures AddEach(s, c) == [s[0] + c] + AddEach(s[1..], c)
  {
    assert AddEach(s, c)[1..] == AddEach(s[1..], c);
  }

  /** `s - c`: `c` subtracted from every element. */
  function SubtractEach(s: seq<int>, c: int): (r: seq<int>)
    ensures |r| == |s|
    ensures forall i :: 0 <= i < |s| ==> r[i] == s[i] - c
  {
    seq(|s|, i requires 0 <= i < |s| => s[i] - c)
  }

  /** `s * c`: every element multiplied by `c`. */
  function MultiplyEach(s: seq<int>, c: int): (r: seq<int>)
    ensures |r| == |s|
    ensures forall i :: 0 <= i < |s| ==> r[i] == s[i] * c
  {
    seq(|s|, i requires 0 <= i < |s| => s[i] * c)
  }

  /** Subtracting what was added restores the sequence, in both orders. */
  lemma AddSubtractInverse(s: seq<int>, c: int)
    ensures SubtractEach(AddEach(s, c), c) == s
    ensures AddEach(SubtractEach(s, c), c) == s
  {
    assert forall i | 0 <= i < |s| :: SubtractEach(AddEach(s, c), c)[i] == s[i];
    assert forall i | 0 <= i < |s| :: AddEach(SubtractEach(s, c), c)[i] == s[i];
  }

  /** Multiplying every element is distributive over adding to every element. */
  lemma MultiplyDistributes(s: seq<int>, c: int, k: int)
    ensures MultiplyEach(AddEach(s, c), k) == AddEach(MultiplyEach(s, k), c * k)
  {
    forall i | 0 <= i < |s|
      ensures MultiplyEach(AddEach(s, c), k)[i] == AddEach(MultiplyEach(s, k), c * k)[i]
    {
      assert (s[i] + c) * k == s[i] * k + c * k;
    }
  }

  /** `s / c`: every element divided by `c`, truncating toward zero. */
  function DivideEach(s: seq<int>, c: int): (r: seq<int>)
    requires c != 0
    ensures |r| == |s|
    ensures forall i :: 0 <= i < |s| ==> r[i] == Quot(s[i], c)
  {
    seq(|s|, i requires 0 <= i < |s| => Quot(s[i], c))
  }

  /** `s % c`: the remainder of every element by `c`, with the element's sign. */
  function RemainderEach(s: seq<int>, c: int): (r: seq<int>)
    requires c != 0
    ensures |r| == |s|
    ensures forall i :: 0 <= i < |s| ==> r[i] == Rem(s[i], c)
  {
    seq(|s|, i requires 0 <= i < |s| => Rem(s[i], c))
  }

  /** Element by element, quotient times divisor plus remainder restores the
    * sequence, and each remainder is smaller than the divisor. */
  lemma DivideRemainderRestore(s: seq<int>, c: int, i: nat)
    requires c != 0 && i < |s|
    ensures DivideEach(s, c)[i] * c + RemainderEach(s, c)[i] == s[i]
    ensures Abs(RemainderEach(s, c)[i]) < Abs(c)
  {
    QuotRem(s[i], c);
  }

  /** `s & c`, `s | c` and `s ^ c`: Swift's bitwise operators applied to
    * every element. */
  function AndEach(s: seq<int>, c: int): (r: seq<int>)
    ensures |r| == |s|
    ensures forall i :: 0 <= i < |s| ==> r[i] == BitAnd(s[i], c)
  {
    seq(|s|, i requires 0 <= i < |s| => BitAnd(s[i], c))
  }

  function OrEach(s: seq<int>, c: int): (r: seq<int>)
    ensures |r| == |s|
    ensures forall i :: 0 <= i < |s| ==> r[i] == BitOr(s[i], c)
  {
    seq(|s|, i requires 0 <= i < |s| => BitOr(s[i], c))
  }

  function XorEach(s: seq<int>, c: int): (r: seq<int>)
    ensures |r| == |s|
    ensures forall i :: 0 <= i < |s| ==> r[i] == BitXor(s[i], c)
  {
    seq(|s|, i requires 0 <= i < |s| => BitXor(s[i], c))
  }

  /** On `Int` elements, `s & -1`, `s | 0` and `s ^ 0` leave `s` as it is,
    * and `(s ^ c) ^ c` gives `s` back. */
  lemma BitwiseEachIdentities(s: seq<int>, c: int)
    requires forall i :: 0 <= i < |s| ==> IsInt(s[i])
    ensures AndEach(s, -1) == s && OrEach(s, 0) == s && XorEach(s, 0) == s
    ensures XorEach(XorEach(s, c), c) == s
  {
    forall i | 0 <= i < |s|
      ensures AndEach(s, -1)[i] == s[i] && OrEach(s, 0)[i] == s[i] && XorEach(s, 0)[i] == s[i]
      ensures XorEach(XorEach(s, c), c)[i] == s[i]
    {
      NeutralOperands(s[i]);
      XorCancels(s[i], c);
    }
  }

  /** `s << c` and `s >> c`: Swift's smart shifts applied to every element. */
  function ShiftLeftEach(s: seq<int>, c: int): (r: seq<int>)
    ensures |r| == |s|
    ensures forall i :: 0 <= i < |s| ==> r[i] == ShiftLeft(s[i], c)
  {
    seq(|s|, i requires 0 <= i < |s| => ShiftLeft(s[i], c))
  }

  function ShiftRightEach(s: seq<int>, c: int): (r: seq<int>)
    ensures |r| == |s|
    ensures forall i :: 0 <= i < |s| ==> r[i] == ShiftRight(s[i], c)
  {
    seq(|s|, i requires 0 <= i < |s| => ShiftRight(s[i], c))
  }

  /** Shifting every element left by `n` and back right by `n` restores the
    * sequence when no element loses a bit, and a negative left shift is a
    * right shift. */
  lemma ShiftEachRoundTrip(s: seq<int>, n: nat)
    requires n < BitWidth
    requires forall i :: 0 <= i < |s| ==> IsInt(s[i] * Pow2(n))
    ensures ShiftRightEach(ShiftLeftEach(s, n), n) == s
    ensures ShiftLeftEach(s, -(n as int)) == ShiftRightEach(s, n)
  {
    forall i | 0 <= i < |s|
      ensures ShiftRightEach(ShiftLeftEach(s, n), n)[i] == s[i]
      ensures ShiftLeftEach(s, -(n as int))[i] == ShiftRightEach(s, n)[i]
    {
      ShiftRightUndoesShiftLeft(s[i], n);
    }
  }

  /** `s <= c` and `s >= c`: comparison masks. */
  function AtMostMask(s: seq<int>, c: int): (m: seq<bool>)
    ensures |m| == |s|
    ensures forall i :: 0 <= i < |s| ==> (m[i] <==> s[i] <= c)
  {
    seq(|s|, i requires 0 <= i < |s| => s[i] <= c)
  }

  function AtLeastMask(s: seq<int>, c: int): (m: seq<bool>)
    ensures |m| == |s|
    ensures forall i :: 0 <= i < |s| ==> (m[i] <==> s[i] >= c)
  {
    seq(|s|, i requires 0 <= i < |s| => s[i] >= c)
  }

  /** Selecting through `s <= c` keeps only elements at most `c`, and
    * deleting through it keeps only elements above `c`; the same for
    * `s >= c` with the inequalities turned round. */
  lemma {:induction false} ComparisonSelects(s: seq<int>, c: int)
    ensures forall x :: x in Selected(s, AtMostMask(s, c)) ==> x <= c
    ensures forall x :: x in Deleted(s, AtMostMask(s, c)) ==> x > c
    ensures forall x :: x in Selected(s, AtLeastMask(s, c)) ==> x >= c
    ensures forall x :: x in Deleted(s, AtLeastMask(s, c)) ==> x < c
  {
    if |s| > 0 {
      assert AtMostMask(s, c)[1..] == AtMostMask(s[1..], c);
      assert AtLeastMask(s, c)[1..] == AtLeastMask(s[1..], c);
      ComparisonSelects(s[1..], c);
    }
  }

  // ---------------------------------------------------------------------
  // all, any, allEqual
  // ---------------------------------------------------------------------

  /** `all`: there is no `false` flag. */
  function All(m: seq<bool>): (r: bool)
    ensures r <==> forall i :: 0 <= i < |m| ==> m[i]
  {
    false !in m
  }

  /** `any`: there is some `true` flag. */
  function Any(m: seq<bool>): (r: bool)
    ensures r <==> exists i :: 0 <= i < |m| && m[i]
  {
    true in m
  }

  /** `all` holds iff every flag is counted, `any` iff at least one is; so
    * `all` of the empty mask is true and `any` of it is false. */
  lemma {:induction false} AllAnyByCount(m: seq<bool>)
    ensures All(m) <==> TrueCount(m) == |m|
    ensures Any(m) <==> TrueCount(m) > 0
  {
    if |m| > 0 {
      AllAnyByCount(m[1..]);
      assert m == [m[0]] + m[1..];
    }
  }

  /** `allEqual()`: true on an empty array, otherwise true iff every element
    * equals the first; the loop stops at the first difference. */
  method AllEqual<T(==)>(s: seq<T>) returns (r: bool)
    ensures r <==> forall i :: 0 <= i < |s| ==> s[i] == s[0]
    ensures r <==> forall i, j :: 0 <= i < |s| && 0 <= j < |s| ==> s[i] == s[j]
  {
    if |s| == 0 {
      return true;
    }
    var first := s[0];
    var k := 1;
    while k < |s|
      invariant 1 <= k <= |s|
      invariant forall i :: 0 <= i < k ==> s[i] == first
    {
      if s[k] != first {
        return false;
      }
      k := k + 1;
    }
    return true;
  }
}
