# CocoaKit value utilities, modelled in Dafny

CocoaKit is a macOS support library. Besides its AppKit glue it has a set of
small value-level utilities, and those are modelled here:

- **Sequences** (`Sequences.dfy`): the Boolean-mask subscript of every
  sequence (read, overwrite, delete), repetition `s * n`, the element-wise
  operators (`+ - * / % & | ^ << >> == <= >=`) and `all`, `any`, `allEqual`.
  The mask setter, `*` and `allEqual` are loops in the library and are
  methods here, proved against the functions beside them.
- **Swift integers** (`SwiftInt.dfy`): what Swift's 64-bit `Int` does that
  mathematical integers do not: truncating `/` and `%`, the "smart" shifts,
  and `& | ^` on two's-complement bit patterns.
- **Ranges and numbers** (`Numeric.dfy`): `isIn`, `isBetween`, the `closed`
  and `open` conversions, range containment, `flattened`, `sum` and `mode`.
- **Booleans as numbers** (`Bools.dfy`): every operator between a `Bool` and
  an integer or another `Bool`, all reduced to the 0/1 `magnitude`, and the
  compound assignments, which store `result != 0` back.
- **The global registry** (`Registry.dfy`): class `Global` holding a store of
  variables and dynamic functions, with insert-if-absent, an overwriting
  subscript, removal by name and deregistration by target.
- **Range subscripts** (`Slices.dfy`): the range subscript of the `CKArray`
  container (`CocoaKit/Sources/CocoaKit/Data Structures/CKArray.swift`), which
  the `String` slice subscript goes through; the table cites the `String`
  subscript and names the container's lines: negative bounds count from the end,
  every range expression is rewritten to a half-open one, and only a
  non-empty window inside the container is read or written.
- **Strings** (`Strings.dfy`): the character-class constants,
  `count(item:)`, `split(at:)`, `disintegrate` and the slice subscript.
- **Colours** (`Colors.dfy`): decoding a `UInt64` to RGBA bytes, encoding
  back with or without alpha, `hexString` and `init(hex: String)`.
- **Loop protection** (`LoopProtection.dfy`): the one shared `loopProtected`
  flag, `protected` and `safelySet`. Closures are modelled as blocks of
  effects and nested guard calls.

Swift traps (division by zero, forming `a..<b` with `a > b`) are
preconditions. On the range subscripts the model follows the code, including
where it departs from what the subscripts evidently aim at:

- a range subscript whose range expression cannot be formed traps instead of
  returning nil;
- the closed-range setter of `CKArray` writes through `range`, which is
  `0 ..< count` of the closed range, and `Strings.AssignSlice` goes through
  it; the intended setter is `Strings.AssignSliceCorrected` (see Findings);
- a negative bound of `...upper` becomes the excluded bound `upper + count`,
  so `...(-1)` and `..<(-1)` stop one element earlier than their
  non-negative counterparts (`Slices.NegativeThroughBounds`).

## Model

| member | source | states |
|---|---|---|
| Sequences.Selected | CocoaKit/Sources/CocoaKit/Extensions/Sequence.swift:25-30 | the selection has exactly one element per `true` flag |
| Sequences.Select | CocoaKit/Sources/CocoaKit/Extensions/Sequence.swift:19-32 | nil exactly when the mask does not have one flag per element; otherwise the selection, as many elements as `true` flags, each from the sequence, and the element at every selected position j is element k of the result, k counting the `true` flags before j, so the original order is kept |
| Sequences.SelectedFrom | CocoaKit/Sources/CocoaKit/Extensions/Sequence.swift:25-30 | every selected element occurs in the sequence |
| Sequences.SelectedAt | CocoaKit/Sources/CocoaKit/Extensions/Sequence.swift:25-30 | the element at a selected position j is element k of the selection, k being the number of `true` flags before j: selection keeps the original order |
| Sequences.DeletedKeepsUnselected | CocoaKit/Sources/CocoaKit/Extensions/Sequence.swift:38-46 | assigning nil through a mask keeps exactly what the flipped mask selects, in order; the length drops by the number of `true` flags |
| Sequences.SelectedAndDeletedPartition | CocoaKit/Sources/CocoaKit/Extensions/Sequence.swift:19-46 | what a mask selects and what deleting through it keeps are together a permutation of the sequence |
| Sequences.Replaced | CocoaKit/Sources/CocoaKit/Extensions/Sequence.swift:52-58 | overwriting through a mask keeps the length |
| Sequences.ReplacedAt | CocoaKit/Sources/CocoaKit/Extensions/Sequence.swift:52-58 | position j holds replacement element k (k = `true` flags before j) when selected and the old element otherwise |
| Sequences.ReplacedSelection | CocoaKit/Sources/CocoaKit/Extensions/Sequence.swift:52-58 | reading back through the mask gives the first k replacement elements, and the unselected elements are unchanged |
| Sequences.AssignThroughMask | CocoaKit/Sources/CocoaKit/Extensions/Sequence.swift:33-60 | the setter as a loop: a mask of the wrong length or a replacement shorter or longer than the whole sequence changes nothing; nil deletes the selected elements; otherwise the selected positions are overwritten in order |
| Sequences.RemoveSelected | CocoaKit/Sources/CocoaKit/Extensions/Sequence.swift:38-46 | the backward removal loop ends with exactly what deleting through the mask keeps |
| Sequences.OverwriteSelected | CocoaKit/Sources/CocoaKit/Extensions/Sequence.swift:52-59 | the counting loop ends with the selected positions overwritten in order by the replacement's first elements |
| Sequences.CopiesAt | CocoaKit/Sources/CocoaKit/Extensions/Sequence.swift:63-75 | n copies are n·|s| long and element i·|s|+j is s[j] |
| Sequences.CopiesLength | CocoaKit/Sources/CocoaKit/Extensions/Sequence.swift:70-74 | n copies are n·|s| long |
| Sequences.CopiesFront | CocoaKit/Sources/CocoaKit/Extensions/Sequence.swift:71-73 | n+1 copies are s followed by n copies |
| Sequences.Repeat | CocoaKit/Sources/CocoaKit/Extensions/Sequence.swift:63-75 | `s * n` as a loop: n copies for positive n, empty for 0, an unchanged copy for negative n |
| Sequences.EqualMaskSelects | CocoaKit/Sources/CocoaKit/Extensions/Sequence.swift:87-89 | selecting through `s == x` yields x once per occurrence of x, and deleting through it leaves no x |
| Sequences.EqualMask | CocoaKit/Sources/CocoaKit/Extensions/Sequence.swift:87-89 | `s == x` is a mask as long as s that is set exactly at the positions holding x |
| Sequences.AddEach | CocoaKit/Sources/CocoaKit/Extensions/Sequence.swift:103-105 | `s + c` keeps the length, and position i holds s[i] + c |
| Sequences.SubtractEach | CocoaKit/Sources/CocoaKit/Extensions/Sequence.swift:111-113 | `s - c` keeps the length, and position i holds s[i] - c |
| Sequences.MultiplyEach | CocoaKit/Sources/CocoaKit/Extensions/Sequence.swift:95-97 | `s * c` keeps the length, and position i holds s[i] · c |
| Sequences.DivideEach | CocoaKit/Sources/CocoaKit/Extensions/Sequence.swift:125-127 | `s / c` keeps the length, and position i holds Swift's truncating quotient of s[i] by c |
| Sequences.RemainderEach | CocoaKit/Sources/CocoaKit/Extensions/Sequence.swift:135-137 | `s % c` keeps the length, and position i holds Swift's remainder of s[i] by c |
| Sequences.AndEach | CocoaKit/Sources/CocoaKit/Extensions/Sequence.swift:145-147 | `s & c` keeps the length, and position i holds the 64-bit `s[i] & c` |
| Sequences.OrEach | CocoaKit/Sources/CocoaKit/Extensions/Sequence.swift:155-157 | `s \| c` keeps the length, and position i holds the 64-bit `s[i] \| c` |
| Sequences.XorEach | CocoaKit/Sources/CocoaKit/Extensions/Sequence.swift:165-167 | `s ^ c` keeps the length, and position i holds the 64-bit `s[i] ^ c` |
| Sequences.ShiftLeftEach | CocoaKit/Sources/CocoaKit/Extensions/Sequence.swift:175-177 | `s << c` keeps the length, and position i holds the smart shift `s[i] << c` |
| Sequences.ShiftRightEach | CocoaKit/Sources/CocoaKit/Extensions/Sequence.swift:185-187 | `s >> c` keeps the length, and position i holds the smart shift `s[i] >> c` |
| Sequences.AtMostMask | CocoaKit/Sources/CocoaKit/Extensions/Sequence.swift:197-199 | `s <= c` is a mask as long as s, set exactly where s[i] ≤ c |
| Sequences.AtLeastMask | CocoaKit/Sources/CocoaKit/Extensions/Sequence.swift:201-203 | `s >= c` is a mask as long as s, set exactly where s[i] ≥ c |
| Sequences.AddSubtractInverse | CocoaKit/Sources/CocoaKit/Extensions/Sequence.swift:103-117 | element-wise `- c` undoes `+ c` and the other way round |
| Sequences.MultiplyDistributes | CocoaKit/Sources/CocoaKit/Extensions/Sequence.swift:95-105 | element-wise `* k` distributes over element-wise `+ c` |
| Sequences.DivideRemainderRestore | CocoaKit/Sources/CocoaKit/Extensions/Sequence.swift:125-137 | element by element, the truncating quotient times c plus the remainder gives the element back, and the remainder is smaller than c in magnitude |
| Sequences.BitwiseEachIdentities | CocoaKit/Sources/CocoaKit/Extensions/Sequence.swift:145-173 | on `Int` elements `s & -1`, `s \| 0` and `s ^ 0` are s, and `(s ^ c) ^ c` is s |
| Sequences.ShiftEachRoundTrip | CocoaKit/Sources/CocoaKit/Extensions/Sequence.swift:175-187 | element-wise `>> n` undoes `<< n` when no element loses a bit, and `<< -n` is `>> n` |
| Sequences.ComparisonSelects | CocoaKit/Sources/CocoaKit/Extensions/Sequence.swift:197-203 | selecting through `s <= c` keeps only elements at most c and deleting through it keeps only elements above c; the mirror for `s >= c` |
| Sequences.All | CocoaKit/Sources/CocoaKit/Extensions/Sequence.swift:231-233 | true iff no flag is `false` |
| Sequences.Any | CocoaKit/Sources/CocoaKit/Extensions/Sequence.swift:235-237 | true iff some flag is `true` |
| Sequences.AllAnyByCount | CocoaKit/Sources/CocoaKit/Extensions/Sequence.swift:231-237 | `all` iff every flag is `true`, `any` iff at least one is; so `all` of the empty mask holds and `any` of it does not |
| Sequences.AllEqual | CocoaKit/Sources/CocoaKit/Extensions/Sequence.swift:243-254 | the early-exit loop answers true iff every element equals the first (true on an empty array), equivalently iff all elements are pairwise equal |
| SwiftInt.Quot | CocoaKit/Sources/CocoaKit/Extensions/Sequence.swift:125-127 | Swift `/` on integers: the magnitude is the quotient of the magnitudes, with the sign of a truncating division |
| SwiftInt.QuotRem | CocoaKit/Sources/CocoaKit/Extensions/Sequence.swift:135-137 | Swift `%`: quotient times divisor plus remainder is the dividend, the remainder is smaller than the divisor and takes the dividend's sign |
| SwiftInt.ShiftRightUndoesShiftLeft | CocoaKit/Sources/CocoaKit/Extensions/Sequence.swift:175-187 | Swift smart shifts on `Int`: `>> n` undoes `<< n` when no bit is lost, and a negative amount shifts the other way |
| SwiftInt.NeutralOperands | CocoaKit/Sources/CocoaKit/Extensions/Sequence.swift:145-167 | Swift `&`, `\|`, `^` on 64-bit patterns: `x & -1`, `x \| 0` and `x ^ 0` are x |
| SwiftInt.XorCancels | CocoaKit/Sources/CocoaKit/Extensions/Sequence.swift:165-167 | `(x ^ c) ^ c` is x |
| SwiftInt.AndOrAbsorb | CocoaKit/Sources/CocoaKit/Extensions/Sequence.swift:145-157 | `x & (x \| c)` and `x \| (x & c)` are x |
| Numeric.IsInCollection | CocoaKit/Sources/CocoaKit/Extensions/Numeric.swift:9-11 | `x.isIn(collection:)` iff 0 ≤ x < count |
| Numeric.IsBetween | CocoaKit/Sources/CocoaKit/Extensions/Numeric.swift:17-19 | requires the range to be formable (lo ≤ hi, or lo ≤ hi+1 when inclusive); true iff lo ≤ x < hi, or lo ≤ x ≤ hi when inclusive |
| Numeric.Closed | CocoaKit/Sources/CocoaKit/Extensions/Numeric.swift:45-47 | `lo..<hi` and `lo...(hi-1)` have the same members; requires a non-empty range, as Swift does to form the closed one |
| Numeric.Open | CocoaKit/Sources/CocoaKit/Extensions/Numeric.swift:83-85 | `lo...hi` and `lo..<(hi+1)` have the same members |
| Numeric.OpenClosedInverse | CocoaKit/Sources/CocoaKit/Extensions/Numeric.swift:45-85 | `.closed` and `.open` are mutual inverses |
| Numeric.RangeIsIn | CocoaKit/Sources/CocoaKit/Extensions/Numeric.swift:49-51 | a range that is in another is a subset of it |
| Numeric.RangeIsInMeansSubset | CocoaKit/Sources/CocoaKit/Extensions/Numeric.swift:49-51 | a non-empty range is in another iff it is a subset; an empty range starting at the other's upper bound is not in it |
| Numeric.RangeIsInClosed | CocoaKit/Sources/CocoaKit/Extensions/Numeric.swift:53-55 | a range in a closed range is a subset of it |
| Numeric.RangeIsInClosedNeedsUpperBound | CocoaKit/Sources/CocoaKit/Extensions/Numeric.swift:53-55 | `0..<5` has the same members as `0...4` but is not in it: the excluded upper bound must be a member too |
| Numeric.RangeIsInCollection | CocoaKit/Sources/CocoaKit/Extensions/Numeric.swift:57-62 | iff 0 ≤ lower < count and upper ≤ count |
| Numeric.ClosedIsInMeansSubset | CocoaKit/Sources/CocoaKit/Extensions/Numeric.swift:87-93 | a closed range is in a closed or half-open range iff it is a subset of it |
| Numeric.ClosedIsIn | CocoaKit/Sources/CocoaKit/Extensions/Numeric.swift:87-89 | `closed.isIn(other)` iff other's bounds enclose both bounds of closed |
| Numeric.ClosedIsInRange | CocoaKit/Sources/CocoaKit/Extensions/Numeric.swift:91-93 | `closed.isIn(range:)` iff range.lower ≤ lower and upper < range.upper |
| Numeric.ClosedIsInCollection | CocoaKit/Sources/CocoaKit/Extensions/Numeric.swift:95-100 | requires a non-empty collection (forming `0...count-1` traps otherwise); iff 0 ≤ lower and upper < count |
| Numeric.Flattened | CocoaKit/Sources/CocoaKit/Extensions/Numeric.swift:75-77 | `lo..<hi` flattened is lo, lo+1, …, hi-1 |
| Numeric.ClosedFlattened | CocoaKit/Sources/CocoaKit/Extensions/Numeric.swift:113-115 | `lo...hi` flattened is lo, lo+1, …, hi |
| Numeric.FlattenedMembers | CocoaKit/Sources/CocoaKit/Extensions/Numeric.swift:75-115 | the closed form flattens like its open form, and x is flattened iff the range contains it |
| Numeric.FoldSumShift | CocoaKit/Sources/CocoaKit/Extensions/Numeric.swift:191-194 | the left fold from acc is acc plus the fold from 0 |
| Numeric.SumAppend | CocoaKit/Sources/CocoaKit/Extensions/Numeric.swift:191-194 | the empty sum is 0, a singleton sums to its element, and the sum of a concatenation is the sum of the sums |
| Numeric.SumAfterAddEach | CocoaKit/Sources/CocoaKit/Extensions/Numeric.swift:191-194 | adding c to every element adds |s|·c to the sum |
| Numeric.Maximum | CocoaKit/Sources/CocoaKit/Extensions/Numeric.swift:200-202 | an element of the sequence that no element exceeds |
| Numeric.Mode | CocoaKit/Sources/CocoaKit/Extensions/Numeric.swift:200-202 | nil iff the sequence is empty, otherwise its maximum |
| Bools.Magnitude | CocoaKit/Sources/CocoaKit/Extensions/Bool.swift:11-13 | 0 or 1, and converting it back gives the Boolean |
| Bools.Readable | CocoaKit/Sources/CocoaKit/Extensions/Bool.swift:15-17 | "Yes" iff true, "No" iff false |
| Bools.FromInteger | CocoaKit/Sources/CocoaKit/Extensions/Bool.swift:19-25 | `Bool(exactly:)` and integer literals: true iff the integer is non-zero, so a magnitude converts back to its Boolean |
| Bools.ConversionTable | CocoaKit/Tests/CocoaKitTests/BoolTests.swift:7-9 | 1 and -1 convert to true, 0 to false |
| Bools.BitwiseOfMagnitude | CocoaKit/Sources/CocoaKit/Extensions/Bool.swift:154-187 | `b & n`, `b \| n` and `b ^ n` are the 64-bit operators of the magnitude and n; `b ^ (b ^ n)` is n, and `b \| n` and `b ^ n` stay within `Int` |
| Bools.LowBitsAgree | CocoaKit/Sources/CocoaKit/Extensions/Bool.swift:155-187 | the model of `&`, `\|`, `^` with a Boolean operand equals Swift's 64-bit bitwise operators with the magnitude |
| Bools.AddBools | CocoaKit/Sources/CocoaKit/Extensions/Bool.swift:47-51 | `a + b` on Booleans is a ∨ b |
| Bools.AddInt | CocoaKit/Sources/CocoaKit/Extensions/Bool.swift:52-53 | `b + n` is n+1 when b, else n |
| Bools.IntAdd | CocoaKit/Sources/CocoaKit/Extensions/Bool.swift:226-228 | `n + b` is n+1 when b, else n |
| Bools.SubtractBools | CocoaKit/Sources/CocoaKit/Extensions/Bool.swift:234-237 | `a - b` on Booleans is a ≠ b |
| Bools.SubtractInt | CocoaKit/Sources/CocoaKit/Extensions/Bool.swift:68-71 | `b - n` is 1-n when b, else -n |
| Bools.IntSubtract | CocoaKit/Sources/CocoaKit/Extensions/Bool.swift:234-239 | `n - b` is n-1 when b, else n |
| Bools.AddSubtractInverse | CocoaKit/Sources/CocoaKit/Extensions/Bool.swift:226-239 | `- b` undoes `+ b` on integers, and `b - n` is the negation of `n - b` |
| Bools.MultiplyBools | CocoaKit/Sources/CocoaKit/Extensions/Bool.swift:81-85 | `a * b` on Booleans is a ∧ b |
| Bools.MultiplyInt | CocoaKit/Sources/CocoaKit/Extensions/Bool.swift:86-88 | `b * n` is n when b, else 0 |
| Bools.IntMultiply | CocoaKit/Sources/CocoaKit/Extensions/Bool.swift:245-247 | `n * b` is n when b, else 0 |
| Bools.DivideBools | CocoaKit/Sources/CocoaKit/Extensions/Bool.swift:98-104 | `a / b` on Booleans is a ∧ b; dividing by false gives false without trapping |
| Bools.DivideInt | CocoaKit/Sources/CocoaKit/Extensions/Bool.swift:114-120 | `b / n` truncates: ±1 only for true over ±1, else 0 |
| Bools.IntDivide | CocoaKit/Sources/CocoaKit/Extensions/Bool.swift:259-261 | `n / true` is n; `n / false` divides by zero, so it is excluded |
| Bools.RemainderInt | CocoaKit/Sources/CocoaKit/Extensions/Bool.swift:140-143 | `b % n` is 1 when b and \|n\| > 1, else 0 |
| Bools.IntRemainder | CocoaKit/Sources/CocoaKit/Extensions/Bool.swift:267-269 | `n % true` is 0; `n % false` divides by zero, so it is excluded |
| Bools.BitNot | CocoaKit/Sources/CocoaKit/Extensions/Bool.swift:151-153 | `~b` is ¬b and its magnitude is 1 minus b's |
| Bools.AndInt | CocoaKit/Sources/CocoaKit/Extensions/Bool.swift:155-162 | `b & n` is 1 when b and n is odd, else 0 |
| Bools.IntAnd | CocoaKit/Sources/CocoaKit/Extensions/Bool.swift:275-277 | `n & b` is 1 when b and n is odd, else 0 |
| Bools.OrInt | CocoaKit/Sources/CocoaKit/Extensions/Bool.swift:168-175 | `b \| n` sets the lowest bit of n when b |
| Bools.IntOr | CocoaKit/Sources/CocoaKit/Extensions/Bool.swift:283-285 | `n \| b` sets the lowest bit of n when b |
| Bools.XorInt | CocoaKit/Sources/CocoaKit/Extensions/Bool.swift:181-188 | `b ^ n` flips the lowest bit of n when b, else is n |
| Bools.IntXor | CocoaKit/Sources/CocoaKit/Extensions/Bool.swift:291-293 | `n ^ b` flips the lowest bit of n when b, else is n |
| Bools.ShiftLeftOfOne | CocoaKit/Sources/CocoaKit/Extensions/Bool.swift:194-201 | `1 << n` in a 64-bit word is 2^n below 63, the sign bit at 63, 0 beyond or for negative n |
| Bools.ShiftLeftInt | CocoaKit/Sources/CocoaKit/Extensions/Bool.swift:194-201 | `b << n` is 2^n (or the sign bit at 63) when b and 0 ≤ n < 64, else 0 |
| Bools.ShiftRightInt | CocoaKit/Sources/CocoaKit/Extensions/Bool.swift:207-214 | `b >> n` is `b << -n` |
| Bools.IntShiftLeft | CocoaKit/Sources/CocoaKit/Extensions/Bool.swift:299-301 | `n << b` doubles n, wrapping to 64 bits, when b, else is n |
| Bools.IntShiftRight | CocoaKit/Sources/CocoaKit/Extensions/Bool.swift:307-309 | `n >> b` halves n rounding down when b, else is n |
| Bools.AddAssign | CocoaKit/Sources/CocoaKit/Extensions/Bool.swift:56-62 | `b += n` stores n ≠ -1 when b, n ≠ 0 otherwise |
| Bools.SubtractAssign | CocoaKit/Sources/CocoaKit/Extensions/Bool.swift:73-79 | `b -= n` stores n ≠ 1 when b, n ≠ 0 otherwise |
| Bools.MultiplyAssign | CocoaKit/Sources/CocoaKit/Extensions/Bool.swift:90-96 | `b *= n` stores b ∧ n ≠ 0 |
| Bools.DivideAssign | CocoaKit/Sources/CocoaKit/Extensions/Bool.swift:132-138 | `b /= n` stores b ∧ \|n\| = 1 |
| Bools.RemainderAssign | CocoaKit/Sources/CocoaKit/Extensions/Bool.swift:145-147 | `b %= n` stores b ∧ \|n\| > 1 |
| Bools.AndAssign | CocoaKit/Sources/CocoaKit/Extensions/Bool.swift:164-166 | `b &= n` stores b ∧ n odd |
| Bools.OrAssign | CocoaKit/Sources/CocoaKit/Extensions/Bool.swift:177-179 | `b \|= n` stores b ∨ n ≠ 0 |
| Bools.XorAssign | CocoaKit/Sources/CocoaKit/Extensions/Bool.swift:190-192 | `b ^= n` stores n ≠ 1 when b, n ≠ 0 otherwise |
| Bools.ShiftLeftAssign | CocoaKit/Sources/CocoaKit/Extensions/Bool.swift:203-205 | `b <<= n` stores b ∧ 0 ≤ n < 64 |
| Bools.ShiftRightAssign | CocoaKit/Sources/CocoaKit/Extensions/Bool.swift:216-218 | `b >>= n` stores b ∧ -64 < n ≤ 0 |
| Bools.AdditionTable | CocoaKit/Tests/CocoaKitTests/BoolTests.swift:20-33 | the integer rows of the addition truth table |
| Bools.SubtractionTable | CocoaKit/Tests/CocoaKitTests/BoolTests.swift:35-48 | the integer rows of the subtraction truth table |
| Bools.MultiplicationTable | CocoaKit/Tests/CocoaKitTests/BoolTests.swift:50-61 | the integer rows of the multiplication truth table |
| Bools.DivisionTable | CocoaKit/Tests/CocoaKitTests/BoolTests.swift:63-75 | the integer rows of the division truth table |
| Registry.Call | CocoaKit/Sources/CocoaKit/Protocols/Returnable.swift:18-54 | calling a variable yields its value whatever the arguments; calling a function yields what its body returns |
| Registry.InsertIfAbsentEffect | CocoaKit/Sources/CocoaKit/Protocols/Global.swift:45-49 | insert-if-absent adds a missing key and otherwise leaves the store as it was; no other key changes |
| Registry.AssignedEffect | CocoaKit/Sources/CocoaKit/Protocols/Global.swift:36-40 | the subscript setter overwrites with a given entry and is a no-op on nil; no other key changes |
| Registry.WithoutTargetEffect | CocoaKit/Sources/CocoaKit/Protocols/Global.swift:90-99 | a key survives iff its entry is not a function registered by the identical target; survivors keep their entries; repeating removes nothing more |
| Registry.NamesMatchPreserved | CocoaKit/Sources/CocoaKit/Protocols/Global.swift:36-99 | `set`, `registerFunction`, removal and both deregistrations keep every entry under its own name; the subscript setter does so iff the entry's name is the key |
| Registry.Global.constructor | CocoaKit/Sources/CocoaKit/Protocols/Global.swift:26-43 | the store starts empty |
| Registry.Global.Lookup | CocoaKit/Sources/CocoaKit/Protocols/Global.swift:28-35 | the entry under the name, nil iff there is none; reads only |
| Registry.Global.Value | CocoaKit/Sources/CocoaKit/Protocols/Global.swift:51-53 | nil for an absent key; a variable's value; a function's result |
| Registry.Global.Assign | CocoaKit/Sources/CocoaKit/Protocols/Global.swift:36-40 | the new store is the old one with the entry written, or unchanged on nil |
| Registry.Global.Set | CocoaKit/Sources/CocoaKit/Protocols/Global.swift:45-49 | the new store is the old one with a variable inserted only if the key was absent |
| Registry.Global.RemoveValue | CocoaKit/Sources/CocoaKit/Protocols/Global.swift:55-60 | returns the old entry iff the key was present; the key is gone and nothing else changes |
| Registry.Global.RegisterFunction | CocoaKit/Sources/CocoaKit/Protocols/Global.swift:70-74 | the new store is the old one with a function inserted only if the name was absent |
| Registry.Global.DeregisterFunction | CocoaKit/Sources/CocoaKit/Protocols/Global.swift:81-83 | the key is removed whatever it holds; absent key, nothing changes |
| Registry.Global.DeregisterAll | CocoaKit/Sources/CocoaKit/Protocols/Global.swift:90-99 | the loop over a snapshot leaves exactly the store without the target's functions |
| Slices.Normalised | CocoaKit/Sources/CocoaKit/Extensions/String.swift:66-70 | a negative bound is counted from the end, others are kept (CKArray.swift lines 45-46) |
| Slices.Window | CocoaKit/Sources/CocoaKit/Extensions/String.swift:66-70 | a window exists iff the normalised bounds satisfy 0 ≤ lower < upper ≤ count, and then it is those bounds (CKArray.swift lines 45-56) |
| Slices.Get | CocoaKit/Sources/CocoaKit/Extensions/String.swift:66-70 | nil exactly when the range selects no window; otherwise the elements s[l..h] of the window (l, h) that the normalised bounds select, which is non-empty (CKArray.swift lines 40-79) |
| Slices.Set | CocoaKit/Sources/CocoaKit/Extensions/String.swift:71-75 | the intended write: without a window the container is unchanged; otherwise the window (l, h) the normalised bounds select, which is what the getter reads, is replaced by the written elements, giving s[..l] + p + s[h..] (CKArray.swift lines 80-122, closed range as the getter reads it) |
| Slices.SetAsWritten | CocoaKit/Sources/CocoaKit/Extensions/String.swift:71-75 | the setter as written: every range but the closed one writes like the intended one, and a closed range `l...u` inside the container writes p in place of its first u - l + 1 elements (CKArray.swift lines 101-103) |
| Slices.SetGetRoundTrip | CocoaKit/Sources/CocoaKit/Extensions/String.swift:66-75 | writing back what was read leaves the container as it was (CKArray.swift lines 80-99) |
| Slices.GetAfterSet | CocoaKit/Sources/CocoaKit/Extensions/String.swift:66-75 | a write of the window's length reads back unchanged, and writing nothing deletes the window (CKArray.swift lines 80-99) |
| Slices.DeleteWindow | CocoaKit/Sources/CocoaKit/Extensions/String.swift:71-75 | writing nothing to a readable range removes exactly its window (CKArray.swift lines 80-99) |
| Slices.SliceForms | CocoaKit/Sources/CocoaKit/Extensions/String.swift:66-70 | what the half-open, closed, from, up-to, through and negative forms read, and that an empty range reads nil (CKArray.swift lines 58-75) |
| Slices.SetForms | CocoaKit/Sources/CocoaKit/Extensions/String.swift:71-75 | what writing through the half-open, closed, from, up-to, through and negative forms gives: the window they read is replaced by p (CKArray.swift lines 80-122) |
| Slices.NegativeThroughBounds | CocoaKit/Sources/CocoaKit/Extensions/String.swift:66-70 | `...(-1)` stops before the last element and `..<(-1)` before the last two, while `...(count-1)` reads everything (CKArray.swift lines 67-75) |
| Slices.UpToSplice | CocoaKit/Sources/CocoaKit/Extensions/String.swift:71-75 | writing to `..<n` with 0 < n ≤ count replaces the first n elements and keeps the rest (CKArray.swift lines 110-117) |
| Slices.EmptyRangeWriteIgnored | CocoaKit/Sources/CocoaKit/Extensions/String.swift:71-75 | writing to an empty range inserts nothing (CKArray.swift lines 87-89) |
| Slices.ClosedSetMisplaced | CocoaKit/Sources/CocoaKit/Extensions/String.swift:71-75 | on "hello" the closed write of `1...2` lands at the front ("XYllo" instead of "hXYlo") (CKArray.swift lines 101-103) |
| Strings.UpperChar | CocoaKit/Sources/CocoaKit/Extensions/String.swift:11 | ASCII lower-case letters map to their upper-case letter, everything else is kept |
| Strings.LetterClass | CocoaKit/Sources/CocoaKit/Extensions/String.swift:10-13 | the upper-case alphabet, and `letters` as the 26 lower-case then the 26 upper-case letters |
| Strings.DigitClass | CocoaKit/Sources/CocoaKit/Extensions/String.swift:15 | `digits` is "0123456789" |
| Strings.PunctuationClass | CocoaKit/Sources/CocoaKit/Extensions/String.swift:17 | the 32 ASCII punctuation characters, strictly ascending |
| Strings.Count | CocoaKit/Sources/CocoaKit/Extensions/String.swift:19-21 | `count(item:)` is the number of non-overlapping left-to-right occurrences |
| Strings.Components | CocoaKit/Sources/CocoaKit/Extensions/String.swift:20 | `components(separatedBy:)` always has at least one piece; ComponentsJoin states that joining them restores the string |
| Strings.CountIsOccurrences | CocoaKit/Sources/CocoaKit/Extensions/String.swift:19-21 | the components are one more than the occurrences |
| Strings.ComponentsJoin | CocoaKit/Sources/CocoaKit/Extensions/String.swift:19-21 | joining the components with the separator gives the string back |
| Strings.CountExamples | CocoaKit/Sources/CocoaKit/Extensions/String.swift:19-21 | "banana" has two "an", "aaaa" has two "aa", the empty separator or string counts 0 |
| Strings.Disintegrate | CocoaKit/Sources/CocoaKit/Extensions/String.swift:38-40 | one single-character string per character, in order |
| Strings.DisintegrateJoin | CocoaKit/Sources/CocoaKit/Extensions/String.swift:38-40 | joining the pieces gives the string back |
| Strings.WindowOfPieces | CocoaKit/Sources/CocoaKit/Extensions/String.swift:66-76 | reading and writing the character pieces is reading and writing the string |
| Strings.Slice | CocoaKit/Sources/CocoaKit/Extensions/String.swift:66-70 | the slice getter reads the container window |
| Strings.AssignSlice | CocoaKit/Sources/CocoaKit/Extensions/String.swift:71-75 | the slice setter as the program runs it: the new characters, none for nil, go through the container setter as written, so a closed range writes at the front |
| Strings.AssignSliceCorrected | CocoaKit/Sources/CocoaKit/Extensions/String.swift:71-75 | the slice setter as intended: the window the getter reads is replaced by the new characters; it agrees with AssignSlice on every range but a closed one, and writing back what the getter read leaves the string as it was |
| Strings.ClosedAssignMisplaced | CocoaKit/Sources/CocoaKit/Extensions/String.swift:71-75 | on "hello", `[1...2] = "XY"` gives "XYllo" as written and "hXYlo" as intended |
| Strings.GreetingExamples | CocoaKit/Tests/CocoaKitTests/StringTests.swift:7-10 | `[-3..<4]` reads nil, assigning "hi" to `[..<5]` gives "hi, world!", assigning nil gives ", world!" |
| Strings.SplitAtAsWritten | CocoaKit/Sources/CocoaKit/Extensions/String.swift:30-36 | `split(at:)` as written: one or two pieces; index 0 of a one-character string traps |
| Strings.SplitAtZeroAsWritten | CocoaKit/Sources/CocoaKit/Extensions/String.swift:30-36 | at index 0 it returns all but the last character, then the whole string |
| Strings.SplitAtZeroExample | CocoaKit/Sources/CocoaKit/Extensions/String.swift:30-36 | "abc" splits at 0 into ["ab", "abc"] as written, ["", "abc"] as intended |
| Strings.SplitAt | CocoaKit/Sources/CocoaKit/Extensions/String.swift:30-36 | out of range gives [s]; otherwise two pieces, the first index long, that concatenate to s |
| Strings.SplitAtAgrees | CocoaKit/Sources/CocoaKit/Extensions/String.swift:30-36 | at every index but 0 the written function is the corrected one |
| Colors.Pack24 | CocoaKit/Sources/CocoaKit/Extensions/Color.swift:30 | `(r<<16)+(g<<8)+b` is below 2^24 |
| Colors.Pack32 | CocoaKit/Sources/CocoaKit/Extensions/Color.swift:33 | `(r<<24)+(g<<16)+(b<<8)+a` is below 2^32 |
| Colors.Unpack24 | CocoaKit/Sources/CocoaKit/Extensions/Color.swift:51-56 | `(h>>16)&0xff`, `(h>>8)&0xff`, `h&0xff` recover the packed channels |
| Colors.Unpack32 | CocoaKit/Sources/CocoaKit/Extensions/Color.swift:57-63 | the four shifted channels recover the packed RGBA bytes |
| Colors.Repack24 | CocoaKit/Sources/CocoaKit/Extensions/Color.swift:51-56 | repacking the three channels of any value gives its low 24 bits |
| Colors.Repack32 | CocoaKit/Sources/CocoaKit/Extensions/Color.swift:57-63 | repacking the four channels of a 32-bit value gives it back |
| Colors.FromHex | CocoaKit/Sources/CocoaKit/Extensions/Color.swift:50-66 | outside 0xffffff00…0xffffffff the low 24 bits are the colour, with full alpha; inside it the value is RRGGBBAA and the colour is white |
| Colors.WhiteChannels | CocoaKit/Sources/CocoaKit/Extensions/Color.swift:57-63 | every value in 0xffffff00…0xffffffff has white colour channels |
| Colors.Hex | CocoaKit/Sources/CocoaKit/Extensions/Color.swift:18-37 | nil iff fewer than 3 components; below 2^24 without alpha, below 2^32 always |
| Colors.HexChannels | CocoaKit/Sources/CocoaKit/Extensions/Color.swift:24-34 | the encoded channels are the components, alpha only when asked for and present |
| Colors.HexRoundTrip | CocoaKit/Tests/CocoaKitTests/ColorTests.swift:7-8 | every 24-bit value decodes and re-encodes to itself |
| Colors.HexAlphaRoundTrip | CocoaKit/Sources/CocoaKit/Extensions/Color.swift:57-63 | a value in 0xffffff00…0xffffffff re-encodes to itself with alpha |
| Colors.ColourRoundTrip | CocoaKit/Sources/CocoaKit/Extensions/Color.swift:18-66 | an opaque colour, or white with any alpha, survives encoding and decoding |
| Colors.HexChar | CocoaKit/Sources/CocoaKit/Extensions/Color.swift:43 | each digit value has an upper-case digit that reads back as it |
| Colors.FormatHex | CocoaKit/Sources/CocoaKit/Extensions/Color.swift:43 | `%0wX`: at least w digits, all upper-case hexadecimal |
| Colors.FormatHexWidth | CocoaKit/Sources/CocoaKit/Extensions/Color.swift:43 | exactly w digits when the value fits in w digits |
| Colors.FormatZeros | CocoaKit/Sources/CocoaKit/Extensions/Color.swift:43 | 0 is written with w zeros (one for w = 0) |
| Colors.FormatHexValue | CocoaKit/Sources/CocoaKit/Extensions/Color.swift:43 | the digits written have the value written |
| Colors.HexString | CocoaKit/Sources/CocoaKit/Extensions/Color.swift:39-48 | nil iff fewer than 3 components; otherwise an optional "#" and 6 or 8 digits |
| Colors.UpperCased | CocoaKit/Sources/CocoaKit/Extensions/Color.swift:44-46 | text without lower-case letters is unchanged |
| Colors.HexStringShape | CocoaKit/Sources/CocoaKit/Extensions/Color.swift:39-48 | the string is the prefix and the formatted encoding; the upper-case flag changes nothing |
| Colors.WithoutHash | CocoaKit/Sources/CocoaKit/Extensions/Color.swift:69 | no "#" is left, and text without "#" is unchanged; with WithoutHashLength and WithoutHashAppend this fixes the result as the input with its "#" characters dropped |
| Colors.WithoutHashLength | CocoaKit/Sources/CocoaKit/Extensions/Color.swift:69 | removing "#" shortens the text by exactly the number of "#" characters in it, so no character is replaced by another |
| Colors.WithoutHashAppend | CocoaKit/Sources/CocoaKit/Extensions/Color.swift:69 | removing "#" from a concatenation removes it from each part, so the other characters keep their order |
| Colors.TrimStart | CocoaKit/Sources/CocoaKit/Extensions/Color.swift:69 | the result is a suffix that does not start with whitespace, and everything removed before it is whitespace |
| Colors.TrimEnd | CocoaKit/Sources/CocoaKit/Extensions/Color.swift:69 | the result is a prefix that does not end with whitespace, and everything removed after it is whitespace |
| Colors.ParseFormatted | CocoaKit/Sources/CocoaKit/Extensions/Color.swift:70 | parsing formatted digits gives the number back |
| Colors.Strip | CocoaKit/Sources/CocoaKit/Extensions/Color.swift:69 | removing "#" and trimming leaves a formatted number's digits |
| Colors.HexStringRoundTrip | CocoaKit/Sources/CocoaKit/Extensions/Color.swift:39-72 | an opaque colour written as a string reads back as itself |
| Colors.ExampleColour | CocoaKit/Tests/CocoaKitTests/ColorTests.swift:7-9 | 0xCC00FF round-trips and is written "CC00FF" |
| Colors.ExampleTransparent | CocoaKit/Tests/CocoaKitTests/ColorTests.swift:10-12 | transparent black encodes to 0 and is written "#00000000" |
| Colors.ParseUInt64Hex | CocoaKit/Sources/CocoaKit/Extensions/Color.swift:70 | `UInt64(_:radix: 16)`: nil on empty text; digits alone read as their value when it fits 64 bits and nil otherwise; any other character except a leading sign gives nil |
| Colors.FromHexString | CocoaKit/Sources/CocoaKit/Extensions/Color.swift:68-72 | `init(hex: String)`: text that does not parse reads as opaque white, and every result is opaque or white |
| Colors.UnparsableIsWhite | CocoaKit/Sources/CocoaKit/Extensions/Color.swift:68-72 | whatever the text, when what is left after removing "#" and trimming does not parse, the colour is opaque white |
| Colors.PaddingIgnored | CocoaKit/Sources/CocoaKit/Extensions/Color.swift:68-72 | "#" characters and whitespace around a text do not change the colour it reads as |
| Colors.PaddingStripped | CocoaKit/Sources/CocoaKit/Extensions/Color.swift:69 | removing "#" and trimming gives the same text with or without such padding |
| Colors.WhitespaceTrimmed | CocoaKit/Sources/CocoaKit/Extensions/Color.swift:69 | whitespace on both sides of a text is trimmed with the text's own |
| Colors.TrimStartAppend | CocoaKit/Sources/CocoaKit/Extensions/Color.swift:69 | trimming the front of a concatenation stops inside the first part unless it is all whitespace |
| Colors.HexStringPaddedRoundTrip | CocoaKit/Sources/CocoaKit/Extensions/Color.swift:39-72 | an opaque colour's string, with any "#" and whitespace around it, reads back as that colour |
| Colors.ReadsAs | CocoaKit/Sources/CocoaKit/Extensions/Color.swift:68-72 | "#" and eight formatted digits read as the colour of their value |
| Colors.TransparentStringReadsOpaque | CocoaKit/Sources/CocoaKit/Extensions/Color.swift:68-72 | "#00000000" reads as opaque black: alpha survives only for white |
| Colors.WhiteStringKeepsAlpha | CocoaKit/Sources/CocoaKit/Extensions/Color.swift:57-72 | "#FFFFFF80" reads as white with alpha 0x80 |
| Colors.FallbackIsWhite | CocoaKit/Sources/CocoaKit/Extensions/Color.swift:70 | text that is not a number reads as opaque white |
| LoopProtection.RunAppend | CocoaKit/Sources/CocoaKit/Protocols/LoopProtection.swift:20-29 | running one block after another is running their concatenation |
| LoopProtection.NeverRaised | CocoaKit/Sources/CocoaKit/Protocols/LoopProtection.swift:25-29 | running blocks never leaves the flag up if it started down |
| LoopProtection.StepNeverRaises | CocoaKit/Sources/CocoaKit/Protocols/LoopProtection.swift:20-29 | no single step leaves the flag up if it started down |
| LoopProtection.FlagKept | CocoaKit/Sources/CocoaKit/Protocols/LoopProtection.swift:20-23 | without a nested `safelySet` the flag ends as it began |
| LoopProtection.ProtectedRunsIffDown | CocoaKit/Sources/CocoaKit/Protocols/LoopProtection.swift:20-23 | `protected` does nothing while the flag is up and runs its block while it is down; it never changes the flag itself |
| LoopProtection.SafelySetAlwaysRuns | CocoaKit/Sources/CocoaKit/Protocols/LoopProtection.swift:25-29 | `safelySet` runs its block whatever the flag, ends with the flag down, and a plain block performs its effects in order |
| LoopProtection.PlainRuns | CocoaKit/Sources/CocoaKit/Protocols/LoopProtection.swift:20-29 | a block calling neither guard performs its effects in order and keeps the flag |
| LoopProtection.ProtectedSkippedInside | CocoaKit/Sources/CocoaKit/Protocols/LoopProtection.swift:11-29 | inside any object's `safelySet`, any object's `protected` reached first is skipped: the flag is shared |
| LoopProtection.NestedSafelySetDropsProtection | CocoaKit/Sources/CocoaKit/Protocols/LoopProtection.swift:26-28 | after a nested `safelySet` the flag is down, so a following `protected` runs |
| LoopProtection.Session.constructor | CocoaKit/Sources/CocoaKit/Protocols/LoopProtection.swift:3 | the flag starts down and nothing has run |
| LoopProtection.Session.Perform | CocoaKit/Sources/CocoaKit/Protocols/LoopProtection.swift:20-29 | calling a block leaves the flag and the effects as the block's run says |
| LoopProtection.Session.Execute | CocoaKit/Sources/CocoaKit/Protocols/LoopProtection.swift:20-29 | one step leaves the flag and the effects as the step says |
| LoopProtection.Session.Protected | CocoaKit/Sources/CocoaKit/Protocols/LoopProtection.swift:20-23 | the guard leaves the flag and effects as `protected` says |
| LoopProtection.Session.SafelySet | CocoaKit/Sources/CocoaKit/Protocols/LoopProtection.swift:25-29 | the flag ends down and the effects are those of the block run with the flag up |

## Left out

- Overflow traps of `+`, `-`, `*` and of conversions such as `RHS(exactly:)!`: integers are unbounded, and 64-bit width is modelled only where it changes a result that does not trap (shifts, bitwise operators, the low bit of negative numbers).
- Floating point: `Bool(float:)`, the float operands of the Bool operators, `**`, `rounded(to:)`, `mean`, `median`, `variance`, `standardDeviation`, the `NSNumber` accessors, the element-wise operators on floating-point sequences, and the `CGFloat` `/ 255` and `lroundf` scaling of colours. Colour channels are exact bytes.
- `Bool(numeric:)` returning nil for a value that is neither integer nor floating point, and the `fatalError` branches that follow it: only integer operands are modelled.
- Generic casts (`as? Self`, `as! Self`): the model works on integer and Boolean sequences, so every cast succeeds.
- `Registry.Global.Value`: `value(forKey:ofType:)` casts the result to `T`; the cast is not modelled, and a function's result is a parameter because closure bodies are opaque.
- Closure bodies and the arguments of dynamic calls: a body is known only by its identity.
- AppKit: `NSColor` itself, `NSColor.random` (randomness), `cgColor.components` (given to `Hex` as a sequence of bytes).
- The single-index subscripts of `CKArray` and `String`, and the rest of the `CKArray` class.
- Unicode case mapping (`capitalize`, `lowercase`, `uppercase`): `Strings.UpperChar` and `Colors.UpperCased` map only the ASCII letters, which is all that the hexadecimal digits and the alphabet constant need.
- `count(pattern:)`: regular expressions.
- Grapheme clusters: a Swift `Character` can hold several Unicode scalars ("\r\n" is one `Character`), while a Dafny `char` is one scalar. The string operations treat each `char` as one `Character`, so they agree with the library only on text where every `Character` is a single scalar.
- The compound assignments of the sequence operators (`*=` with an `Int` count, and `+=`, `-=`, `*=`, `/=`, `%=`, `&=`, `|=`, `^=`, `<<=`, `>>=` with an element): each stores the result of its operator, which the operator's member gives (`Sequences.Repeat` for `*=` with a count); their casts to `Self` always succeed on arrays, and they have no member of their own.
- `Colors.TrimStart`: whitespace is the Unicode White_Space list; Foundation's `whitespacesAndNewlines` is taken to be that list.
- `Colors.ParseUInt64Hex`: `UInt64(_:radix:)` is modelled as an optional sign and hexadecimal digits in either case; "-0" reads as 0 and any other negative number as nil.
- `%`, `&`, `|`, `^`, `<<` and `>>` on a `Bool` take a `BinaryInteger` right operand, which `Bool` is not, so they have no Bool-Bool forms and their `rhs as? Self` branches (CocoaKit/Sources/CocoaKit/Extensions/Bool.swift lines 155-214) never run; the model has no member for those branches.
- `LoopProtection.Session`: the flag is global in the library and a field here; the effects of closures other than guard calls are abstract event identities.

## Findings

| source | as written | input that shows it | evidently intended | confidence | as-written member | corrected member |
|---|---|---|---|---|---|---|
| CocoaKit/Sources/CocoaKit/Extensions/String.swift:71-75 | the slice setter goes through the container's closed-range setter (CKArray.swift lines 101-103), which writes to `closedRange.range`, which is `0 ..< (upper - lower + 1)`, so the write lands at the front | "hello" with `[1...2] = "XY"` gives "XYllo" | write to `lower ..< upper + 1`, giving "hXYlo", as the getter reads | high, not executed | Strings.ClosedAssignMisplaced | Strings.AssignSliceCorrected |
| CocoaKit/Sources/CocoaKit/Extensions/String.swift:30-36 | `split(at: 0)` reads `self[..<0]`, which becomes `...(-1)` and then `0 ..< count - 1` | "abc".split(at: 0) gives ["ab", "abc"]; "a".split(at: 0) traps on the force unwrap | ["", "abc"]: the characters before the index and those from it. Rewriting `..<0` alone would not give this: the container reads nil for an empty window (CKArray.swift lines 48-50), so `self[..<0]!` would still trap; the first piece must be built as the empty string | high, not executed | Strings.SplitAtZeroAsWritten | Strings.SplitAt |
