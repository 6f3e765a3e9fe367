/**
 * String helpers: the character-class constants, counting occurrences of a
 * separator, splitting at an index, breaking a string into one-character
 * strings, and the slice subscript, which works on the string's characters
 * through the container range subscript.
 */
module Strings {
  import opened Wrappers
  import Numeric
  import Slices

  // ---------------------------------------------------------------------
  // Constants
  // ---------------------------------------------------------------------

  const Empty: string := ""
  const Whitespace: string := " "
  const NewLine: string := "\n"
  const CarriageReturn: string := "\r"

  const Lowercased: string := "abcdefghijklmnopqrstuvwxyz"

  /** ASCII upper-casing of one character. */
  function UpperChar(c: char): (u: char)
    ensures 'a' <= c <= 'z' ==> u as int == c as int - 32
    ensures !('a' <= c <= 'z') ==> u == c
  {
    if 'a' <= c <= 'z' then (c as int - 32) as char else c
  }

  /** `uppercased()`, on ASCII letters. */
  function UppercasedOf(s: string): (u: string)
    ensures |u| == |s|
    ensures forall i :: 0 <= i < |s| ==> u[i] == UpperChar(s[i])
  {
    seq(|s|, i requires 0 <= i < |s| => UpperChar(s[i]))
  }

  /** `lowercased.uppercased()`. */
  function Uppercased(): string
  {
    UppercasedOf(Lowercased)
  }

  /** `lowercased + uppercased`. */
  function Letters(): string
  {
    Lowercased + Uppercased()
  }

  /** `String(d)` for a single decimal digit. */
  function DigitString(d: int): (s: string)
    requires 0 <= d <= 9
    ensures |s| == 1 && '0' <= s[0] <= '9'
  {
    [('0' as int + d) as char]
  }

  /** `String($0)` mapped over a sequence of decimal digits. */
  function DigitStrings(ds: seq<int>): (pieces: seq<string>)
    requires forall i :: 0 <= i < |ds| ==> 0 <= ds[i] <= 9
    ensures |pieces| == |ds|
    ensures forall i :: 0 <= i < |ds| ==> pieces[i] == DigitString(ds[i])
  {
    seq(|ds|, i requires 0 <= i < |ds| => DigitString(ds[i]))
  }

  /** `(0...9).flattened.map { String($0) }.joined()`. */
  function Digits(): string
  {
    Join(DigitStrings(Numeric.ClosedFlattened(Numeric.ClosedBounds(0, 9))), "")
  }

  const Punctuations: string := "!\"#$%&'()*+,-./:;<=>?@[\\]^_`{|}~"

  /** The letters are the 26 lower-case ASCII letters followed by the 26
    * upper-case ones. */
  lemma LetterClass()
    ensures Uppercased() == "ABCDEFGHIJKLMNOPQRSTUVWXYZ"
    ensures Letters() == "abcdefghijklmnopqrstuvwxyzABCDEFGHIJKLMNOPQRSTUVWXYZ"
  {
    UpperConstant();
    Alphabets(Lowercased, Uppercased());
  }

  /** The two alphabets, one after the other. */
  lemma Alphabets(lower: string, upper: string)
    requires lower == "abcdefghijklmnopqrstuvwxyz"
    requires upper == "ABCDEFGHIJKLMNOPQRSTUVWXYZ"
    ensures lower + upper == "abcdefghijklmnopqrstuvwxyzABCDEFGHIJKLMNOPQRSTUVWXYZ"
  {
  }

  /** `uppercased` is the upper-case alphabet. */
  lemma UpperConstant()
    ensures Uppercased() == "ABCDEFGHIJKLMNOPQRSTUVWXYZ"
  {
    LowerAlphabet();
    UpperAlphabet(Lowercased);
  }

  /** `lowercased` is the alphabet in order. */
  lemma LowerAlphabet()
    ensures |Lowercased| == 26
    ensures forall i :: 0 <= i < 26 ==> Lowercased[i] as int == 'a' as int + i
  {
  }

  /** Upper-casing the alphabet in order gives the upper-case alphabet. */
  lemma UpperAlphabet(s: string)
    requires |s| == 26
    requires forall i :: 0 <= i < 26 ==> s[i] as int == 'a' as int + i
    ensures UppercasedOf(s) == "ABCDEFGHIJKLMNOPQRSTUVWXYZ"
  {
    var w := "ABCDEFGHIJKLMNOPQRSTUVWXYZ";
    assert forall i :: 0 <= i < 26 ==> w[i] as int == 'A' as int + i;
    forall i | 0 <= i < 26
      ensures UppercasedOf(s)[i] == w[i]
    {
      assert UppercasedOf(s)[i] as int == 'A' as int + i;
    }
  }

  /** The digits are "0" to "9" in order. */
  lemma DigitClass()
    ensures Digits() == "0123456789"
  {
    DigitsSpelled(Numeric.ClosedFlattened(Numeric.ClosedBounds(0, 9)));
  }

  /** The digit strings of 0 to 9, joined, spell the decimal digits. */
  lemma DigitsSpelled(ds: seq<int>)
    requires |ds| == 10
    requires forall i :: 0 <= i < 10 ==> ds[i] == i
    ensures Join(DigitStrings(ds), "") == "0123456789"
  {
    var pieces := DigitStrings(ds);
    JoinSingles(pieces);
    var d := Join(pieces, "");
    forall i | 0 <= i < 10
      ensures d[i] as int == '0' as int + i
    {
      assert d[i] == pieces[i][0];
    }
  }

  /** The punctuation characters are the 32 printable ASCII characters that
    * are neither letters, digits nor the space, each listed once. */
  lemma PunctuationClass()
    ensures |Punctuations| == 32
    ensures forall i :: 0 <= i < |Punctuations| ==>
              '!' <= Punctuations[i] <= '~' &&
              !('a' <= Punctuations[i] <= 'z') && !('A' <= Punctuations[i] <= 'Z') &&
              !('0' <= Punctuations[i] <= '9')
    ensures forall i, j :: 0 <= i < j < |Punctuations| ==> Punctuations[i] < Punctuations[j]
  {
    AscendingPairs(Punctuations);
  }

  /** A string whose neighbours ascend is strictly ascending throughout. */
  lemma AscendingPairs(s: string)
    requires forall i :: 0 <= i < |s| - 1 ==> s[i] < s[i + 1]
    ensures forall i, j :: 0 <= i < j < |s| ==> s[i] < s[j]
  {
    forall i, j | 0 <= i < j < |s|
      ensures s[i] < s[j]
    {
      AscendingFrom(s, i, j);
    }
  }

  lemma {:induction false} AscendingFrom(s: string, i: nat, j: nat)
    requires forall k :: 0 <= k < |s| - 1 ==> s[k] < s[k + 1]
    requires i < j < |s|
    ensures s[i] < s[j]
    decreases j - i
  {
    if i + 1 < j {
      AscendingFrom(s, i + 1, j);
    }
  }

  // ---------------------------------------------------------------------
  // Joining
  // ---------------------------------------------------------------------

  /** `joined(separator:)`: the pieces with the separator between neighbours. */
  function Join(pieces: seq<string>, sep: string): (s: string)
    ensures |pieces| == 1 ==> s == pieces[0]
  {
    if |pieces| == 0 then ""
    else if |pieces| == 1 then pieces[0]
    else pieces[0] + sep + Join(pieces[1..], sep)
  }

  /** Joining one-character pieces without a separator spells them out. */
  lemma {:induction false} JoinSingles(pieces: seq<string>)
    requires forall i :: 0 <= i < |pieces| ==> |pieces[i]| == 1
    ensures |Join(pieces, "")| == |pieces|
    ensures forall i :: 0 <= i < |pieces| ==> Join(pieces, "")[i] == pieces[i][0]
  {
    if |pieces| > 1 {
      JoinSingles(pieces[1..]);
    }
  }

  // ---------------------------------------------------------------------
  // Counting occurrences
  // ---------------------------------------------------------------------

  /** `components(separatedBy: sep)`: the pieces between the occurrences of
    * `sep`, found left to right without overlapping. An empty separator
    * occurs nowhere. */
  function Components(s: string, sep: string): (parts: seq<string>)
    ensures |parts| >= 1
    decreases |s|
  {
    if |sep| == 0 || |s| < |sep| then [s]
    else if s[..|sep|] == sep then [""] + Components(s[|sep|..], sep)
    else
      var rest := Components(s[1..], sep);
      [[s[0]] + rest[0]] + rest[1..]
  }

  /** The number of non-overlapping occurrences of `sep`, scanning left to
    * right and resuming after each match. */
  function Occurrences(s: string, sep: string): nat
    decreases |s|
  {
    if |sep| == 0 || |s| < |sep| then 0
    else if s[..|sep|] == sep then 1 + Occurrences(s[|sep|..], sep)
    else Occurrences(s[1..], sep)
  }

  /** `count(item:)`: one less than the number of components. */
  function Count(s: string, item: string): (n: nat)
    ensures n == Occurrences(s, item)
  {
    CountIsOccurrences(s, item);
    |Components(s, item)| - 1
  }

  lemma {:induction false} CountIsOccurrences(s: string, sep: string)
    ensures |Components(s, sep)| == Occurrences(s, sep) + 1
    decreases |s|
  {
    if |sep| == 0 || |s| < |sep| {
    } else if s[..|sep|] == sep {
      CountIsOccurrences(s[|sep|..], sep);
    } else {
      CountIsOccurrences(s[1..], sep);
    }
  }

  /** Joining the components with the separator gives back the string. */
  lemma {:induction false} ComponentsJoin(s: string, sep: string)
    ensures Join(Components(s, sep), sep) == s
    decreases |s|
  {
    if |sep| == 0 || |s| < |sep| {
    } else if s[..|sep|] == sep {
      var rest := Components(s[|sep|..], sep);
      ComponentsJoin(s[|sep|..], sep);
      assert Components(s, sep) == [""] + rest;
      JoinEmptyFront(rest, sep);
      assert s == s[..|sep|] + s[|sep|..];
    } else {
      var rest := Components(s[1..], sep);
      ComponentsJoin(s[1..], sep);
      assert Components(s, sep) == [[s[0]] + rest[0]] + rest[1..];
      JoinFront(s[0], rest, sep);
      assert s == [s[0]] + s[1..];
    }
  }

  /** An empty first piece leaves only the separator in front. */
  lemma JoinEmptyFront(rest: seq<string>, sep: string)
    requires |rest| >= 1
    ensures Join([""] + rest, sep) == sep + Join(rest, sep)
  {
    assert ([""] + rest)[1..] == rest;
  }

  /** Prefixing a character to the first piece prefixes it to the join. */
  lemma JoinFront(c: char, rest: seq<string>, sep: string)
    requires |rest| >= 1
    ensures Join([[c] + rest[0]] + rest[1..], sep) == [c] + Join(rest, sep)
  {
    var parts := [[c] + rest[0]] + rest[1..];
    assert parts[1..] == rest[1..];
    if |rest| > 1 {
      assert Join(parts, sep) == [c] + rest[0] + sep + Join(rest[1..], sep);
    }
  }

  lemma CountExamples()
    ensures Count("banana", "an") == 2
    ensures Count("aaaa", "aa") == 2
    ensures Count("abc", "") == 0
    ensures Count("", "a") == 0
  {
    assert "banana"[..2][0] == 'b';
    assert "banana"[1..][..2] == "an";
    assert "banana"[1..][2..] == "ana";
    assert "ana"[..2][1] == 'n';
    assert "ana"[1..] == "na";
    assert "na"[..2] != "an";
    assert "na"[1..] == "a";
    assert "aaaa"[..2] == "aa";
    assert "aaaa"[2..] == "aa";
    assert "aa"[..2] == "aa";
    assert "aa"[2..] == "";
  }

  // ---------------------------------------------------------------------
  // Disintegration
  // ---------------------------------------------------------------------

  /** `disintegrate()`: one single-character string per character. */
  function Disintegrate(s: string): (pieces: seq<string>)
    ensures |pieces| == |s|
    ensures forall i :: 0 <= i < |s| ==> pieces[i] == [s[i]]
  {
    seq(|s|, i requires 0 <= i < |s| => [s[i]])
  }

  /** Joining the pieces of a disintegrated string gives it back. */
  lemma DisintegrateJoin(s: string)
    ensures Join(Disintegrate(s), "") == s
  {
    JoinSingles(Disintegrate(s));
  }

  // ---------------------------------------------------------------------
  // Slices
  // ---------------------------------------------------------------------

  /** Reading a window of the one-character pieces of `s` gives the pieces
    * of the same window of `s`, and writing pieces writes characters. */
  lemma WindowOfPieces(s: string, b: Slices.Bounds, p: string)
    requires Slices.Formable(b, |s|)
    ensures Slices.Get(Disintegrate(s), b).None? <==> Slices.Get(s, b).None?
    ensures Slices.Get(s, b).Some? ==>
              Slices.Get(Disintegrate(s), b).value == Disintegrate(Slices.Get(s, b).value)
    ensures Slices.Set(Disintegrate(s), b, Disintegrate(p)) == Disintegrate(Slices.Set(s, b, p))
  {
    match Slices.Selection(b, |s|)
    case None =>
    case Some((l, h)) =>
      DisintegrateSlices(s, l, h);
      DisintegrateSplice(s[..l], p, s[h..]);
  }

  /** Disintegrating commutes with taking a slice. */
  lemma DisintegrateSlices(s: string, l: nat, h: nat)
    requires l <= h <= |s|
    ensures Disintegrate(s)[l..h] == Disintegrate(s[l..h])
    ensures Disintegrate(s)[..l] == Disintegrate(s[..l])
    ensures Disintegrate(s)[h..] == Disintegrate(s[h..])
  {
  }

  /** Disintegrating commutes with concatenation. */
  lemma DisintegrateSplice(a: string, p: string, c: string)
    ensures Disintegrate(a) + Disintegrate(p) + Disintegrate(c) == Disintegrate(a + p + c)
  {
  }

  /** Reading `s[range]`: the characters of the window, joined. */
  function Slice(s: string, b: Slices.Bounds): (r: Option<string>)
    requires Slices.Formable(b, |s|)
    ensures r == Slices.Get(s, b)
  {
    var characters := Disintegrate(s);
    WindowOfPieces(s, b, "");
    match Slices.Get(characters, b)
    case None => None
    case Some(piece) =>
      DisintegrateJoin(Slices.Get(s, b).value);
      Some(Join(piece, ""))
  }

  /** Writing `s[range] = newValue` as the program runs it: the new
    * characters, or none when `newValue` is nil, go through the container
    * setter, so a closed range writes at the front of the string. */
  function AssignSlice(s: string, b: Slices.Bounds, newValue: Option<string>): (r: string)
    requires Slices.Formable(b, |s|)
    ensures r == Slices.SetAsWritten(s, b, newValue.GetOr(""))
  {
    var characters := Disintegrate(s);
    var newPieces := match newValue case Some(v) => Disintegrate(v) case None => [];
    PiecesAsWritten(s, b, newValue.GetOr(""));
    DisintegrateJoin(Slices.SetAsWritten(s, b, newValue.GetOr("")));
    Join(Slices.SetAsWritten(characters, b, newPieces), "")
  }

  /** Writing `s[range] = newValue` as intended: the window the getter reads
    * is replaced, for every range expression. */
  function AssignSliceCorrected(s: string, b: Slices.Bounds, newValue: Option<string>): (r: string)
    requires Slices.Formable(b, |s|)
    ensures r == Slices.Set(s, b, newValue.GetOr(""))
    ensures !b.Closed? ==> r == AssignSlice(s, b, newValue)
    ensures newValue == Slice(s, b) && newValue.Some? ==> r == s
  {
    WriteBackRead(s, b);
    var characters := Disintegrate(s);
    var newPieces := match newValue case Some(v) => Disintegrate(v) case None => [];
    WindowOfPieces(s, b, newValue.GetOr(""));
    DisintegrateJoin(Slices.Set(s, b, newValue.GetOr("")));
    Join(Slices.Set(characters, b, newPieces), "")
  }

  lemma WriteBackRead(s: string, b: Slices.Bounds)
    requires Slices.Formable(b, |s|)
    ensures Slices.Get(s, b).Some? ==> Slices.Set(s, b, Slices.Get(s, b).value) == s
  {
    if Slices.Get(s, b).Some? {
      Slices.SetGetRoundTrip(s, b);
    }
  }

  /** Writing pieces through the container setter as written writes
    * characters. */
  lemma PiecesAsWritten(s: string, b: Slices.Bounds, p: string)
    requires Slices.Formable(b, |s|)
    ensures Slices.SetAsWritten(Disintegrate(s), b, Disintegrate(p)) ==
            Disintegrate(Slices.SetAsWritten(s, b, p))
  {
    match b
    case Closed(l, u) => WindowOfPieces(s, Slices.HalfOpen(0, u - l + 1), p);
    case _ => WindowOfPieces(s, b, p);
  }

  /** On "hello", writing "XY" to `1...2` gives "XYllo" where "hXYlo" is
    * meant. */
  lemma ClosedAssignMisplaced(hello: string)
    requires hello == "hello"
    ensures AssignSlice(hello, Slices.Closed(1, 2), Some("XY")) == "XYllo"
    ensures AssignSliceCorrected(hello, Slices.Closed(1, 2), Some("XY")) == "hXYlo"
  {
    Slices.ClosedSetMisplaced();
  }

  /** A negative lower bound that lands at or after the upper bound reads
    * nil, and an up-to write splices in a shorter string. */
  lemma GreetingExamples(greeting: string)
    requires greeting == "hello, world!"
    ensures Slice(greeting, Slices.HalfOpen(-3, 4)) == None
    ensures AssignSlice(greeting, Slices.UpTo(5), Some("hi")) == "hi, world!"
    ensures AssignSlice(greeting, Slices.UpTo(5), None) == ", world!"
  {
    InvertedReadsNil(greeting);
    Slices.UpToSplice(greeting, 5, "hi");
    Slices.UpToSplice(greeting, 5, "");
    assert greeting[5..] == ", world!";
  }

  /** On 13 characters, `[-3..<4]` starts at 10, after its end. */
  lemma InvertedReadsNil(s: string)
    requires |s| == 13
    ensures Slice(s, Slices.HalfOpen(-3, 4)) == None
  {
  }

  // ---------------------------------------------------------------------
  // Splitting at an index
  // ---------------------------------------------------------------------

  /** `split(at:)` as written: `[self]` for an index outside the string,
    * else `self[..<index]` and `self[index...]`, both force-unwrapped.
    * At index 0 the up-to range `..<0` becomes `...(-1)`, whose negative
    * bound counts from the end; on a one-character string it reads nil and
    * the unwrap traps. */
  function SplitAtAsWritten(s: string, index: int): (parts: seq<string>)
    requires index == 0 ==> |s| != 1
    ensures |parts| == 1 || |parts| == 2
  {
    if !Numeric.IsInCollection(index, |s|) then [s]
    else
      Slices.SliceForms(s, index, |s|);
      if index == 0 then
        assert Slices.AsHalfOpen(Slices.UpTo(0), |s|) == (0, |s| - 1);
        [Slices.Get(s, Slices.UpTo(0)).value, Slices.Get(s, Slices.From(0)).value]
      else
        Slices.SliceForms(s, 0, index);
        [Slices.Get(s, Slices.UpTo(index)).value, Slices.Get(s, Slices.From(index)).value]
  }

  /** At index 0 the first piece loses the last character instead of being
    * empty. */
  lemma SplitAtZeroAsWritten(s: string)
    requires |s| >= 2
    ensures SplitAtAsWritten(s, 0) == [s[..|s| - 1], s]
  {
    assert Slices.AsHalfOpen(Slices.UpTo(0), |s|) == (0, |s| - 1);
    assert Slices.Get(s, Slices.UpTo(0)) == Some(s[0..|s| - 1]);
    assert s[0..|s| - 1] == s[..|s| - 1];
    Slices.SliceForms(s, 0, |s|);
    assert s[0..] == s;
  }

  /** "abc" splits at 0 into "ab" and "abc" rather than "" and "abc". */
  lemma SplitAtZeroExample()
    ensures SplitAtAsWritten("abc", 0) == ["ab", "abc"]
    ensures SplitAt("abc", 0) == ["", "abc"]
  {
    SplitAtZeroAsWritten("abc");
    assert "abc"[..2] == "ab";
  }

  /** `split(at:)` as it is meant: the string alone for an index outside it,
    * else the characters before the index and the characters from it on.
    * At index 0 the first piece is the empty string, which the subscripts
    * cannot give, since an empty window reads nil. */
  function SplitAt(s: string, index: int): (parts: seq<string>)
    ensures !(0 <= index < |s|) ==> parts == [s]
    ensures 0 <= index < |s| ==> |parts| == 2 && |parts[0]| == index && parts[0] + parts[1] == s
  {
    if !Numeric.IsInCollection(index, |s|) then [s]
    else
      assert s[..index] + s[index..] == s;
      [s[..index], s[index..]]
  }

  /** The corrected split agrees with the one as written at every index
    * except 0. */
  lemma SplitAtAgrees(s: string, index: int)
    requires index != 0
    ensures SplitAtAsWritten(s, index) == SplitAt(s, index)
  {
    if 0 < index < |s| {
      Slices.SliceForms(s, index, |s|);
      Slices.SliceForms(s, 0, index);
    }
  }
}
