/**
 * The range subscript of the `CKArray` container, which the String slice
 * subscript delegates to. A range bound that is negative counts from the
 * end (it is added to the count once); the subscript reads or writes only a
 * non-empty window lying inside the container and otherwise gives nil or
 * changes nothing. Closed, one-sided and up-to ranges are first rewritten
 * to a half-open range.
 */
module Slices {
  import opened Wrappers
  import Numeric

  /** The five range expressions the subscript accepts. */
  datatype Bounds =
    | HalfOpen(lower: int, upper: int)   // lower ..< upper
    | Closed(lower: int, upper: int)     // lower ... upper
    | From(lower: int)                   // lower...
    | Through(upper: int)                // ...upper
    | UpTo(upper: int)                   // ..<upper

  /** A negative bound counts from the end. */
  function Normalised(i: int, count: nat): (j: int)
    ensures i >= 0 ==> j == i
    ensures i < 0 ==> j == count + i
  {
    i + (if i < 0 then count else 0)
  }

  /** The excluded upper bound that `...upper` is rewritten to. */
  function ThroughEnd(upper: int, count: nat): int
  {
    upper + (if upper < 0 then count else 1)
  }

  /** Swift traps when the range expression, or the half-open range the
    * subscript rewrites it to, would have its lower bound above its upper one. */
  predicate Formable(b: Bounds, count: nat)
  {
    match b
    case HalfOpen(l, u) => l <= u
    case Closed(l, u) => l <= u
    case From(l) => Normalised(l, count) <= count
    case Through(u) => ThroughEnd(u, count) >= 0
    case UpTo(u) => ThroughEnd(u - 1, count) >= 0
  }

  /** The bounds of the half-open range a range expression is rewritten to. */
  function AsHalfOpen(b: Bounds, count: nat): (r: (int, int))
    requires Formable(b, count)
    ensures r.0 <= r.1
    decreases if b.UpTo? then 1 else 0
  {
    match b
    case HalfOpen(l, u) => (l, u)
    case Closed(l, u) => (l, u + 1)
    case From(l) => (Normalised(l, count), count)
    case Through(u) => (0, ThroughEnd(u, count))
    case UpTo(u) => AsHalfOpen(Through(u - 1), count)
  }

  /** The window `lower ..< upper` is read or written: after normalising
    * both bounds it must be non-empty and lie inside the container. */
  function Window(lower: int, upper: int, count: nat): (w: Option<(nat, nat)>)
    ensures w.Some? <==> 0 <= Normalised(lower, count) < Normalised(upper, count) <= count
    ensures w.Some? ==> w.value == (Normalised(lower, count), Normalised(upper, count))
  {
    var l := Normalised(lower, count);
    var h := Normalised(upper, count);
    if l >= h then None
    else if !Numeric.RangeIsInCollection(Numeric.RangeBounds(l, h), count) then None
    else Some((l, h))
  }

  /** The window a range expression selects, nil when it selects none. */
  function Selection(b: Bounds, count: nat): (w: Option<(nat, nat)>)
    requires Formable(b, count)
    ensures w.Some? ==> w.value.0 < w.value.1 <= count
  {
    var (l, h) := AsHalfOpen(b, count);
    Window(l, h, count)
  }

  /** Reading `s[b]`: the elements of the window, nil when there is none. */
  function Get<T>(s: seq<T>, b: Bounds): (r: Option<seq<T>>)
    requires Formable(b, |s|)
    ensures r.None? <==> Selection(b, |s|).None?
    ensures r.Some? ==> 0 < |r.value| <= |s|
    ensures r.Some? ==>
              exists l, h :: Selection(b, |s|) == Some((l, h)) && l < h <= |s| && r.value == s[l..h]
  {
    match Selection(b, |s|)
    case None => None
    case Some((l, h)) => Some(s[l..h])
  }

  /** Writing `s[b] = p`: the window is replaced by `p`, which may be
    * longer or shorter; without a window nothing changes. A closed range
    * writes where it reads, `lower ..< upper + 1`. */
  function Set<T>(s: seq<T>, b: Bounds, p: seq<T>): (r: seq<T>)
    requires Formable(b, |s|)
    ensures Get(s, b).None? ==> r == s
    ensures Get(s, b).Some? ==> |r| == |s| - |Get(s, b).value| + |p|
    ensures Get(s, b).Some? ==>
              exists l, h :: Selection(b, |s|) == Some((l, h)) && l < h <= |s| &&
                Get(s, b).value == s[l..h] && r == s[..l] + p + s[h..]
  {
    match Selection(b, |s|)
    case None => s
    case Some((l, h)) => s[..l] + p + s[h..]
  }

  /** Writing a closed range as the container does: through the sequence
    * `range` of the closed range, which is `0 ..< upper - lower + 1`. */
  function SetAsWritten<T>(s: seq<T>, b: Bounds, p: seq<T>): (r: seq<T>)
    requires Formable(b, |s|)
    ensures !b.Closed? ==> r == Set(s, b, p)
    ensures b.Closed? && b.upper - b.lower < |s| ==> r == p + s[b.upper - b.lower + 1..]
  {
    match b
    case Closed(l, u) =>
      assert u - l < |s| ==> Selection(HalfOpen(0, u - l + 1), |s|) == Some((0, u - l + 1));
      assert s[..0] + p == p;
      Set(s, HalfOpen(0, u - l + 1), p)
    case _ => Set(s, b, p)
  }

  /** Writing back what was read leaves the container as it was, for every
    * range expression. */
  lemma SetGetRoundTrip<T>(s: seq<T>, b: Bounds)
    requires Formable(b, |s|)
    requires Get(s, b).Some?
    ensures Set(s, b, Get(s, b).value) == s
  {
    var (l, h) := Selection(b, |s|).value;
    assert s[..l] + s[l..h] + s[h..] == s;
  }

  /** A write of the same length as the window is read back unchanged, and
    * writing the empty sequence deletes the window. */
  lemma GetAfterSet<T>(s: seq<T>, b: Bounds, p: seq<T>)
    requires Formable(b, |s|)
    requires Get(s, b).Some?
    ensures |p| == |Get(s, b).value| ==> Formable(b, |Set(s, b, p)|) && Get(Set(s, b, p), b) == Some(p)
    ensures Set(s, b, []) == s[..Selection(b, |s|).value.0] + s[Selection(b, |s|).value.1..]
  {
    if |p| == |Get(s, b).value| {
      ReadBack(s, b, p);
    }
    DeleteWindow(s, b);
  }

  lemma DeleteWindow<T>(s: seq<T>, b: Bounds)
    requires Formable(b, |s|)
    requires Get(s, b).Some?
    ensures Set(s, b, []) == s[..Selection(b, |s|).value.0] + s[Selection(b, |s|).value.1..]
  {
    var (l, h) := Selection(b, |s|).value;
    assert s[..l] + [] + s[h..] == s[..l] + s[h..];
  }

  /** A write as long as the window leaves the count, and so the window, as
    * it was, and the window then holds what was written. */
  lemma ReadBack<T>(s: seq<T>, b: Bounds, p: seq<T>)
    requires Formable(b, |s|)
    requires Get(s, b).Some? && |p| == |Get(s, b).value|
    ensures Formable(b, |Set(s, b, p)|) && Get(Set(s, b, p), b) == Some(p)
  {
    var (l, h) := Selection(b, |s|).value;
    var t := Set(s, b, p);
    assert t == s[..l] + p + s[h..];
    assert |t| == |s|;
    assert t[l..h] == p;
  }

  /** What each range expression reads on a container, for bounds inside
    * it: the plain slices, and negative bounds counting from the end. */
  lemma SliceForms<T>(s: seq<T>, l: int, h: int)
    requires 0 <= l < h <= |s|
    ensures Get(s, HalfOpen(l, h)) == Some(s[l..h])
    ensures Get(s, Closed(l, h - 1)) == Some(s[l..h])
    ensures Get(s, From(l)) == Some(s[l..])
    ensures Get(s, UpTo(h)) == Some(s[..h])
    ensures Get(s, Through(h - 1)) == Some(s[..h])
    ensures h < |s| ==> Get(s, HalfOpen(l - |s|, h - |s|)) == Some(s[l..h])
    ensures Get(s, HalfOpen(l, l)) == None
  {
    assert s[l..|s|] == s[l..];
    assert s[0..h] == s[..h];
    assert AsHalfOpen(UpTo(h), |s|) == AsHalfOpen(Through(h - 1), |s|) == (0, h);
  }

  /** What writing through each range expression does, for bounds inside
    * the container: the window the getter reads is replaced by `p`. */
  lemma SetForms<T>(s: seq<T>, l: int, h: int, p: seq<T>)
    requires 0 <= l < h <= |s|
    ensures Set(s, HalfOpen(l, h), p) == s[..l] + p + s[h..]
    ensures Set(s, Closed(l, h - 1), p) == s[..l] + p + s[h..]
    ensures Set(s, From(l), p) == s[..l] + p
    ensures Set(s, UpTo(h), p) == p + s[h..]
    ensures Set(s, Through(h - 1), p) == p + s[h..]
    ensures h < |s| ==> Set(s, HalfOpen(l - |s|, h - |s|), p) == s[..l] + p + s[h..]
  {
    assert Selection(HalfOpen(l, h), |s|) == Some((l, h));
    assert Selection(Closed(l, h - 1), |s|) == Some((l, h));
    assert Selection(From(l), |s|) == Some((l, |s|));
    assert s[|s|..] == [] && s[..0] == [];
    UpToSplice(s, h, p);
    ThroughSplice(s, h, p);
    if h < |s| {
      assert Selection(HalfOpen(l - |s|, h - |s|), |s|) == Some((l, h));
    }
  }

  /** Writing to `...(h - 1)` replaces the first `h` elements. */
  lemma ThroughSplice<T>(s: seq<T>, h: nat, p: seq<T>)
    requires 0 < h <= |s|
    ensures Formable(Through(h - 1), |s|)
    ensures Set(s, Through(h - 1), p) == p + s[h..]
  {
    assert AsHalfOpen(Through(h - 1), |s|) == (0, h);
    assert s[..0] + p + s[h..] == p + s[h..];
  }

  /** A negative bound of `...upper` becomes the excluded upper bound
    * `upper + count`, so `...(-1)` stops before the last element and
    * `..<(-1)`, read as `...(-2)`, before the last two. */
  lemma NegativeThroughBounds<T>(s: seq<T>)
    requires |s| >= 3
    ensures Get(s, Through(-1)) == Some(s[..|s| - 1])
    ensures Get(s, UpTo(-1)) == Some(s[..|s| - 2])
    ensures Get(s, Through(|s| - 1)) == Some(s)
  {
    assert AsHalfOpen(UpTo(-1), |s|) == AsHalfOpen(Through(-2), |s|) == (0, |s| - 2);
    assert s[0..|s| - 1] == s[..|s| - 1];
    assert s[0..|s| - 2] == s[..|s| - 2];
    assert s[0..|s|] == s;
  }

  /** Writing to `..<n`, with `n` inside the container, replaces its first
    * `n` elements. */
  lemma UpToSplice<T>(s: seq<T>, n: nat, p: seq<T>)
    requires 0 < n <= |s|
    ensures Formable(UpTo(n), |s|)
    ensures Set(s, UpTo(n), p) == p + s[n..]
  {
    assert AsHalfOpen(UpTo(n), |s|) == (0, n);
    assert s[..0] + p + s[n..] == p + s[n..];
  }

  /** Because the window must be non-empty, writing to an empty range never
    * inserts anything. */
  lemma EmptyRangeWriteIgnored<T>(s: seq<T>, i: int, p: seq<T>)
    ensures Set(s, HalfOpen(i, i), p) == s
  {
  }

  /** The closed-range write of the container lands at the front instead of
    * at the range: on "hello", writing "XY" to `1...2` gives "XYllo" where
    * "hXYlo" is meant, and writing back what `1...2` reads changes the text. */
  lemma ClosedSetMisplaced()
    ensures Get("hello", Closed(1, 2)) == Some("el")
    ensures SetAsWritten("hello", Closed(1, 2), "XY") == "XYllo"
    ensures Set("hello", Closed(1, 2), "XY") == "hXYlo"
    ensures SetAsWritten("hello", Closed(1, 2), "el") != "hello"
  {
    assert Selection(Closed(1, 2), 5) == Some((1, 3));
    assert Selection(HalfOpen(0, 2), 5) == Some((0, 2));
    assert "hello"[1..3] == "el";
    assert "hello"[..0] + "XY" + "hello"[2..] == "XYllo";
    assert "hello"[..1] + "XY" + "hello"[3..] == "hXYlo";
    assert ("hello"[..0] + "el" + "hello"[2..])[0] == 'e';
  }
}
