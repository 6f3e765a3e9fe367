/**
 * Integer range helpers: membership tests, the conversions between
 * half-open (`lower ..< upper`) and closed (`lower ... upper`) ranges, range
 * containment, enumerating a range, and the `sum` and `mode` of a sequence.
 *
 * Swift refuses to form a range whose lower bound exceeds its upper bound
 * (the program traps), so both range types carry `lower <= upper`, and
 * every operation that forms a new range requires the bounds it forms.
 */
module Numeric {
  import opened Wrappers
  import Sequences

  datatype RangeBounds = RangeBounds(lower: int, upper: int)
  datatype ClosedBounds = ClosedBounds(lower: int, upper: int)

  /** `lower ..< upper`: the integers from `lower` up to, not including, `upper`. */
  type Range = r: RangeBounds | r.lower <= r.upper witness RangeBounds(0, 0)

  /** `lower ... upper`: the integers from `lower` up to and including `upper`. */
  type ClosedRange = r: ClosedBounds | r.lower <= r.upper witness ClosedBounds(0, 0)

  predicate Contains(r: Range, x: int) {
    r.lower <= x < r.upper
  }

  predicate ClosedContains(r: ClosedRange, x: int) {
    r.lower <= x <= r.upper
  }

  // ---------------------------------------------------------------------
  // Membership of an integer
  // ---------------------------------------------------------------------

  /** `x.isIn(collection:)`: `x` is a valid index of a collection of `count` elements. */
  function IsInCollection(x: int, count: nat): (r: bool)
    ensures r <==> 0 <= x < count
  {
    Contains(RangeBounds(0, count), x)
  }

  /** `x.isBetween(lo, hi, inclusive:)`: `x` is in `lo ..< hi`, or in
    * `lo ... hi` when inclusive; forming that range needs its bounds ordered. */
  function IsBetween(x: int, lo: int, hi: int, inclusive: bool): (r: bool)
    requires lo <= hi + (if inclusive then 1 else 0)
    ensures r <==> lo <= x && (if inclusive then x <= hi else x < hi)
  {
    Contains(RangeBounds(lo, hi + (if inclusive then 1 else 0)), x)
  }

  // ---------------------------------------------------------------------
  // Conversions
  // ---------------------------------------------------------------------

  /** `range.closed`: `lower ... upper - 1`; an empty range has no closed form. */
  function Closed(r: Range): (c: ClosedRange)
    requires r.lower < r.upper
    ensures forall x :: Contains(r, x) <==> ClosedContains(c, x)
  {
    ClosedBounds(r.lower, r.upper - 1)
  }

  /** `closedRange.open`: `lower ..< upper + 1`. */
  function Open(c: ClosedRange): (r: Range)
    ensures forall x :: ClosedContains(c, x) <==> Contains(r, x)
    ensures r.lower < r.upper
  {
    RangeBounds(c.lower, c.upper + 1)
  }

  /** The two conversions undo each other. */
  lemma OpenClosedInverse(r: Range, c: ClosedRange)
    requires r.lower < r.upper
    ensures Open(Closed(r)) == r
    ensures Closed(Open(c)) == c
  {
  }

  // ---------------------------------------------------------------------
  // Containment of a range in a range
  // ---------------------------------------------------------------------

  /** `range.isIn(other)`: `other` contains the lower bound and the upper
    * bound does not pass `other`'s. */
  function RangeIsIn(r: Range, other: Range): (b: bool)
    ensures b ==> forall x :: Contains(r, x) ==> Contains(other, x)
  {
    Contains(other, r.lower) && r.upper <= other.upper
  }

  /** For a non-empty range, `isIn` is exactly "every element is in the other
    * range"; an empty range starting at the other's upper bound has no
    * element outside it and is still not "in" it. */
  lemma RangeIsInMeansSubset(r: Range, other: Range)
    ensures r.lower < r.upper ==>
              (RangeIsIn(r, other) <==> forall x :: Contains(r, x) ==> Contains(other, x))
    ensures !RangeIsIn(RangeBounds(other.upper, other.upper), other)
  {
    if r.lower < r.upper && forall x :: Contains(r, x) ==> Contains(other, x) {
      assert Contains(r, r.lower) && Contains(r, r.upper - 1);
    }
  }

  /** `range.isIn(closedRange:)`: both bounds, the excluded upper one
    * included, lie in the closed range. */
  function RangeIsInClosed(r: Range, c: ClosedRange): (b: bool)
    ensures b ==> forall x :: Contains(r, x) ==> ClosedContains(c, x)
  {
    ClosedContains(c, r.lower) && ClosedContains(c, r.upper)
  }

  /** Because the excluded upper bound must be in the closed range too,
    * `0 ..< 5` is not in `0 ... 4` although both hold the same integers. */
  lemma RangeIsInClosedNeedsUpperBound()
    ensures forall x :: Contains(RangeBounds(0, 5), x) <==> ClosedContains(ClosedBounds(0, 4), x)
    ensures !RangeIsInClosed(RangeBounds(0, 5), ClosedBounds(0, 4))
  {
  }

  /** `range.isIn(collection:)`: `range.isIn(0 ..< count)`. */
  function RangeIsInCollection(r: Range, count: nat): (b: bool)
    ensures b <==> 0 <= r.lower < count && r.upper <= count
  {
    RangeIsIn(r, RangeBounds(0, count))
  }

  /** `closedRange.isIn(other)`: both bounds lie in the other closed range. */
  function ClosedIsIn(c: ClosedRange, other: ClosedRange): (b: bool)
    ensures b <==> other.lower <= c.lower && c.upper <= other.upper
  {
    ClosedContains(other, c.lower) && ClosedContains(other, c.upper)
  }

  /** `closedRange.isIn(range:)`: both bounds lie in the half-open range. */
  function ClosedIsInRange(c: ClosedRange, r: Range): (b: bool)
    ensures b <==> r.lower <= c.lower && c.upper < r.upper
  {
    Contains(r, c.lower) && Contains(r, c.upper)
  }

  /** A closed range is never empty, so both containment tests on it mean
    * exactly "every element is in the other range". */
  lemma ClosedIsInMeansSubset(c: ClosedRange, other: ClosedRange, r: Range)
    ensures ClosedIsIn(c, other) <==> forall x :: ClosedContains(c, x) ==> ClosedContains(other, x)
    ensures ClosedIsInRange(c, r) <==> forall x :: ClosedContains(c, x) ==> Contains(r, x)
  {
    assert ClosedContains(c, c.lower) && ClosedContains(c, c.upper);
  }

  /** `closedRange.isIn(collection:)`: in `(0 ..< count).closed`, which
    * cannot be formed for an empty collection. */
  function ClosedIsInCollection(c: ClosedRange, count: nat): (b: bool)
    requires count > 0
    ensures b <==> 0 <= c.lower && c.upper < count
  {
    ClosedIsIn(c, Closed(RangeBounds(0, count)))
  }

  // ---------------------------------------------------------------------
  // Enumeration
  // ---------------------------------------------------------------------

  /** `range.flattened`: the integers of the range in increasing order. */
  function Flattened(r: Range): (s: seq<int>)
    ensures |s| == r.upper - r.lower
    ensures forall i :: 0 <= i < |s| ==> s[i] == r.lower + i
    decreases r.upper - r.lower
  {
    if r.lower == r.upper then [] else [r.lower] + Flattened(RangeBounds(r.lower + 1, r.upper))
  }

  /** `closedRange.flattened`: the integers of the closed range in increasing order. */
  function ClosedFlattened(c: ClosedRange): (s: seq<int>)
    ensures |s| == c.upper - c.lower + 1
    ensures forall i :: 0 <= i < |s| ==> s[i] == c.lower + i
    decreases c.upper - c.lower
  {
    if c.lower == c.upper then [c.lower] else [c.lower] + ClosedFlattened(ClosedBounds(c.lower + 1, c.upper))
  }

  /** Enumerating a closed range is enumerating its half-open form, and an
    * integer occurs in the enumeration exactly when the range contains it. */
  lemma FlattenedMembers(r: Range, c: ClosedRange, x: int)
    ensures ClosedFlattened(c) == Flattened(Open(c))
    ensures x in Flattened(r) <==> Contains(r, x)
  {
    if Contains(r, x) {
      assert Flattened(r)[x - r.lower] == x;
    }
  }

  // ---------------------------------------------------------------------
  // sum and mode
  // ---------------------------------------------------------------------

  /** `reduce(acc) { $0 + $1 }`: a left fold of `+`. */
  function FoldSum(acc: int, s: seq<int>): int
    decreases |s|
  {
    if |s| == 0 then acc else FoldSum(acc + s[0], s[1..])
  }

  /** `sum()`: the left fold of `+` starting at 0. */
  function Sum(s: seq<int>): int
  {
    FoldSum(0, s)
  }

  lemma {:induction false} FoldSumShift(acc: int, s: seq<int>)
    ensures FoldSum(acc, s) == acc + FoldSum(0, s)
    decreases |s|
  {
    if |s| > 0 {
      FoldSumShift(acc + s[0], s[1..]);
      FoldSumShift(s[0], s[1..]);
    }
  }

  /** The empty sum is 0, a singleton sums to its element, and the sum of a
    * concatenation is the sum of the sums. */
  lemma {:induction false} SumAppend(a: seq<int>, b: seq<int>)
    ensures Sum([]) == 0
    ensures |a| == 1 ==> Sum(a) == a[0]
    ensures Sum(a + b) == Sum(a) + Sum(b)
  {
    if |a| == 0 {
      assert a + b == b;
    } else {
      FoldSumShift(a[0], (a + b)[1..]);
      FoldSumShift(a[0], a[1..]);
      assert (a + b)[1..] == a[1..] + b;
      SumAppend(a[1..], b);
    }
  }

  /** Adding `c` to every element adds `|s| * c` to the sum. */
  lemma {:induction false} SumAfterAddEach(s: seq<int>, c: int)
    ensures Sum(Sequences.AddEach(s, c)) == Sum(s) + |s| * c
  {
    if |s| > 0 {
      Sequences.AddEachFront(s, c);
      assert s == [s[0]] + s[1..];
      SumAppend([s[0] + c], Sequences.AddEach(s[1..], c));
      SumAppend([s[0]], s[1..]);
      SumAfterAddEach(s[1..], c);
      assert |s| * c == c + (|s| - 1) * c;
    }
  }

  /** The largest element of a non-empty sequence. */
  function Maximum(s: seq<int>): (m: int)
    requires |s| > 0
    ensures m in s
    ensures forall x :: x in s ==> x <= m
  {
    if |s| == 1 then s[0]
    else
      var rest := Maximum(s[1..]);
      assert s == [s[0]] + s[1..];
      if s[0] >= rest then s[0] else rest
  }

  /** `mode()`: `max()` of the sequence, nil when it is empty. */
  function Mode(s: seq<int>): (r: Option<int>)
    ensures r.None? <==> |s| == 0
    ensures r.Some? ==> r.value in s && forall x :: x in s ==> x <= r.value
  {
    if |s| == 0 then None else Some(Maximum(s))
  }
}
