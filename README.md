# Hancock pattern — verified model

The Hancock pattern program classifies the start values 1..N by where the map
`x ↦ (digit sum of x in base b)²` ends up. It iterates the map up to 100 times
from each start value and stops at the first value that repeats. It names the
cycle found there by its lexicographically least rotation. Each distinct cycle
gets a label in order of first appearance: `a`..`z`, then `aa`..`zz`. A start
value whose trajectory does not repeat within the bound is labelled `other`.
The labels are then sorted for display. The program exists in two versions,
`hpcd.rs` (Rust) and `hpcd.py` (Python). Both have the same core, and this
one model is stated against both.

Modules:

- `Seqs` holds the sequence helpers `Distinct` and `Elems`. `Wrappers` holds `Option`.
- `Digits` covers `sum_digits` and `to_base_digits`. It has the reference
  functions `DigitSum`, `Digits`, `Eval` and `Sum`, and the two loop methods
  `SumDigits` and `ToBaseDigits`, each proved against those functions.
- `Rotation` covers `minimal_rotation`. `MinRotation` is the value-level
  definition that the Python list comprehension computes. The method
  `MinimalRotation` is the Rust loop that fills a vector of rotations, proved
  equal to it. The lexicographic order `LexLe` is the order of Rust's `Vec`
  and Python's tuples, with a prefix sorting first.
- `Cycles` covers `detect_cycle`. `History(n, b, t)` is the list of the first t
  iterates. `Detect` and `DetectFrom` are the recursive specification of the
  loop. The method `DetectCycle` is the loop itself.
- `Labels` covers `get_label`. Its decoder `LabelIndex` is the partner in the
  round-trip lemmas.
- `Classifier` covers the classification loop of `main`, lifted out as
  `Classify(N, base, maxIter)`. Its result is `patterns` together with the two
  label maps. The specification is `Order`: the distinct detected cycles in
  order of first appearance. The counter `label_idx` is not kept as a field: at
  every point it equals the number of cycles recorded so far, which is the size
  of both maps. Both programs call it with `maxIter = 100`.
- `Display` covers the display sort of the set of labels. `otherLast = true`
  is the Rust comparator, which puts `other` last. `otherLast = false` is the
  Python key `(x != 'other', x)`, which puts it first.

Integers are unbounded `nat`s. The Python program works on unbounded integers.
For the Rust program's `u32`, see the `Step` line under "Left out".

## Model

| member | source | states |
|---|---|---|
| Digits.DigitSum | hpcd.py:7-12 | the digit sum of n is at most n, and it is zero exactly when n is zero |
| Digits.SumDigits | hpcd.rs:8-15 | the loop returns the digit sum of n, which is the sum of the digits of n's base-b expansion |
| Digits.ToBaseDigits | hpcd.rs:57-68 | 0 gives [0]; for n > 0 the result is non-empty with no leading zero; every digit is below the base; the digits read back as n; they add up to the digit sum |
| Digits.DigitsCorrect | hpcd.py:46-53 | the reference expansion is canonical, evaluates back to n, has the digit sum as its sum, and is empty only for 0 |
| Digits.Step | hpcd.rs:35-36 | one step of the map `x ↦ s·s` with s the digit sum of x: the step is 0 exactly when x is 0, and it never exceeds x² |
| Digits.StepLeavesU32 | hpcd.rs:36 | start values below 2^32 whose step is at least 2^32: 2^32 − 1 in base 32768 and 32769² − 1 in base 32769 |
| Digits.Reverse | hpcd.rs:66 | the reversal has the same length and holds the i-th element from the end at position i, as `digits.reverse()` and `digits[::-1]` (hpcd.py:53) |
| Digits.DigitsUnique | hpcd.py:46-53 | every canonical digit sequence is the expansion of its own value, so the expansion is the only canonical representation of n |
| Rotation.LexLeFirstDifference | hpcd.rs:28 | `LexLe`, the order of `Vec<u32>` under `min()` and of Python's int tuples under `min` (hpcd.py:20), is decided at the first position where the two differ, and a sequence that runs out first (a prefix of the other) comes first |
| Rotation.LexLeTotal | hpcd.py:20 | the comparison used to take the minimum is total, so a least rotation always exists |
| Rotation.LexLeAntisymmetric | hpcd.rs:28 | two sequences that are each lexicographically at most the other are equal, so the least rotation is a single value |
| Rotation.Rotations | hpcd.rs:22-27 | the list of rotations has one entry per offset, each a rotation of the input of the same length, as the Python comprehension at hpcd.py:19 builds |
| Rotation.Min | hpcd.rs:28 | the minimum of a non-empty list is one of its elements and is at most every element |
| Rotation.MinRotation | hpcd.py:14-20 | the empty cycle maps to itself; otherwise the result is a rotation of the input, has the same length, and is lexicographically at most every rotation |
| Rotation.MinimalRotation | hpcd.rs:17-29 | the vector-of-rotations loop returns exactly the least rotation |
| Rotation.MinRotationUnique | hpcd.py:19-20 | any rotation that is at most all rotations is the one `MinRotation` returns |
| Rotation.MinRotationRotationInvariant | hpcd.rs:22-28 | rotating a cycle first does not change its normal form, so all rotations of one cycle get the same key |
| Rotation.MinRotationIdempotent | hpcd.py:14-20 | normalising a normal form leaves it unchanged |
| Rotation.MinRotationExample | hpcd.py:19-20 | [3,1,2] and [2,3,1] both normalise to [1,2,3] |
| Cycles.History | hpcd.rs:32-41 | after t rounds the history holds exactly t values |
| Cycles.Position | hpcd.rs:37 | finds nothing exactly when the value is absent; otherwise it returns the index of the first occurrence |
| Cycles.DetectFrom | hpcd.rs:34-43 | the rest of `detect_cycle` from round t: a cycle it returns is non-empty and shorter than maxIter; `DetectFromSound` gives the full characterisation |
| Cycles.Detect | hpcd.py:22-33 | `detect_cycle(n, base, maxIter)`: no rounds give None, and a cycle it returns is non-empty and shorter than maxIter; `DetectSound` gives the full characterisation |
| Cycles.DetectCycle | hpcd.rs:31-44 | the loop returns exactly the recursive specification `Detect`; as a loop invariant, the history never holds a value twice |
| Cycles.RawCycle | hpcd.py:28-30 | when the next value is already at index idx, the history slice from idx is a cycle of the map, with distinct elements and wrapping round to its start |
| Cycles.RotationKeepsCycle | hpcd.rs:38-39 | every rotation of a cycle of the map is again a cycle |
| Cycles.CanonicalCycle | hpcd.py:31 | the normalised cycle is still a cycle of the same length, is its own normal form, and only holds values of the raw cycle |
| Cycles.FoundCycle | hpcd.rs:37-39 | a repeat found in round t < maxIter means the first maxIter values are not all distinct, and the cycle returned is canonical and drawn from the history |
| Cycles.DetectFromSound | hpcd.rs:34-43 | from any round t with a repeat-free history, the rest of the loop returns None exactly when the first maxIter iterates are pairwise distinct; any cycle it returns is a canonical cycle of at most maxIter values, all in the history |
| Cycles.DetectSound | hpcd.py:22-33 | the same for the whole loop; also, maxIter = 0 gives None |
| Cycles.FixedPointBase10 | hpcd.rs:33-41 | in base 10, 1 is a fixed point: one round is not enough to see the repeat, and two or more rounds give the cycle [1] |
| Cycles.BinaryConvergence | hpcd.py:24-31 | in base 2, the start values 1, 2 and 3 all reach the cycle [1] within three rounds |
| Labels.GetLabel | hpcd.rs:46-55 | a label exists exactly for indices below 702 (Rust panics and Python raises IndexError above that); labels are one or two lowercase letters, one letter exactly for indices below 26 |
| Labels.LabelRoundTrip | hpcd.py:35-44 | decoding the label of any index below 702 gives the index back |
| Labels.LabelIndexRoundTrip | hpcd.py:39-44 | every decodable label is the label of its decoded index |
| Labels.TwoLetterRoundTrip | hpcd.rs:50-53 | the two-letter label for 26·(first + 1) + second is those two letters |
| Labels.GetLabelInjective | hpcd.rs:48-54 | different indices get different labels |
| Labels.LabelExamples | hpcd.py:36-44 | 0→a, 25→z, 26→aa, 27→ab, 51→az, 52→ba, 701→zz, and 702 has no label |
| Classifier.Count | hpcd.py:68 | the number of start values in `range(1, N + 1)` (Rust: `1..=n_max`, hpcd.rs:85): none exactly when N ≤ 0, and N otherwise |
| Classifier.DetectionsAt | hpcd.rs:85-86 | the i-th detection result is `detect_cycle` of start value i + 1, with the same base and bound |
| Classifier.Appearances | hpcd.py:73-77 | the cycles recorded in first-appearance order are pairwise distinct |
| Classifier.AppearancesMembers | hpcd.rs:87-93 | a cycle is recorded exactly when some start value's detection returned it |
| Classifier.AppearancesFirst | hpcd.py:73-77 | a cycle that was not among the results before position k is recorded right after the cycles met before k |
| Classifier.FirstAppearance | hpcd.rs:88-92 | a cycle first met at start value n takes the place in the order given by the number of distinct cycles met before n |
| Classifier.TableExtend | hpcd.rs:88-92 | recording a new cycle under the next label keeps the two maps consistent with the order of first appearance |
| Classifier.Classify | hpcd.rs:80-99 | fails exactly when more than 702 distinct cycles appear; otherwise there is one pattern per start value 1..N, `other` for a start value whose detection gives None and the cycle's label otherwise, and the j-th new cycle is mapped to and from the j-th label |
| Classifier.TableInverse | hpcd.rs:90-91 | a label table over distinct cycles is a pair of mutually inverse maps, each with one entry per cycle, and `other` is never a cycle label |
| Classifier.TablesInverse | hpcd.py:73-77 | `cycle_to_label` and `label_to_cycle` are mutual inverses, and both have one entry per distinct cycle; `other` is never a cycle label |
| Classifier.LabelsDistinct | hpcd.rs:89 | the first k labels are pairwise different and none of them is `other` |
| Classifier.OtherIffNoCycle | hpcd.py:70-78 | a start value is labelled `other` exactly when its detection gives None |
| Classifier.SameLabelIffSameCycle | hpcd.py:73-78 | two start values with a cycle get the same label exactly when they reached the same canonical cycle |
| Classifier.NewCycleGetsNextLabel | hpcd.rs:88-93 | a start value whose cycle has not been seen before gets the next unused label |
| Classifier.TablesDetermined | hpcd.rs:81-82 | the label maps are fully determined by the order of first appearance |
| Classifier.ClassificationDeterministic | hpcd.py:63-79 | the classification is a function of N, the base and maxIter |
| Classifier.NoRoundsNoCycles | hpcd.rs:86 | with no rounds allowed, no start value yields a cycle |
| Classifier.NoRoundsScenario | hpcd.rs:85-97 | with maxIter = 0, every pattern is `other` and both maps are empty |
| Classifier.BinaryClusterOrder | hpcd.rs:85-86 | in base 2 with N = 3 and any bound of at least 3 (the programs use 100), [1] is the only cycle met |
| Classifier.BinaryClusterScenario | hpcd.py:68-79 | in base 2 with N = 3 and any bound of at least 3, the patterns are a, a, a and [1] ↔ "a" are the only map entries |
| Display.StrLtFirstDifference | hpcd.rs:103 | `StrLt`, Rust's `a.cmp(b)` and the string part of the Python key at hpcd.py:82, is decided by the character codes at the first position where the strings differ, and a proper prefix is less; for these ASCII labels code-point order and UTF-8 byte order agree |
| Display.Before | hpcd.rs:103 | a real label comes before `other` exactly in the Rust order, `other` before a real label exactly in the Python order (the key at hpcd.py:82), and two real labels are compared as strings in both |
| Display.BeforeTransitive | hpcd.rs:103 | the display comparison is transitive, for both the Rust and the Python ordering |
| Display.BeforeTotal | hpcd.py:82 | any two different labels are ordered one way or the other |
| Display.UniqueLabels | hpcd.py:82 | the de-duplicated labels hold no repeats, are exactly the labels that occur in `patterns`, and are listed in display order |
| Display.DisplayOrder | hpcd.rs:102-103 | the sorted labels are exactly the given set, without repeats, in display order |
| Display.SortedUnique | hpcd.rs:103 | only one sequence of a set's labels is sorted, so the display order does not depend on how the set is iterated |
| Display.OtherPlacement | hpcd.py:82 | the real labels appear in ascending string order; `other`, when present, comes last in Rust and first in Python |

## Left out

- Argument parsing, the usage message and the defaults for N (255) and the vertical spacing (20) are left out; the model takes N and the base as parameters.
- Plotting, the colour map, the y-positions, the interactive cursor and the pattern-key printout are I/O and are left out.
- Step: the Rust program squares the digit sum in `u32` (hpcd.rs:36). That overflows as soon as the digit sum reaches 65536, which a start value that fits in `u32` can reach for any base of 32768 or more: for example 2^32 − 1 in base 32768 (digit sum 65537) or 32769² − 1 in base 32769 (digit sum 65536); `Digits.StepLeavesU32` states both. A debug build then panics and a release build wraps. The model squares unbounded integers, as Python does. The accumulator in `sum_digits` (hpcd.rs:11) cannot overflow, since the digit sum is at most n.
- Every operation requires base ≥ 2. For base 0 both programs divide by zero, and for base 1 `sum_digits` never terminates. Python also accepts a negative base and then runs to completion with floor division (`sum_digits(5, -2)` makes one pass and returns −1); that behaviour is not modelled. Rust's `u32` base cannot be negative. Neither program rejects these bases.
- Python's `minimal_rotation` returns a tuple, and the empty input comes back as the same list object. Rust returns a new `Vec`. Both are the same sequence of values in the model.
- The hash maps and the hash set are modelled as Dafny maps and a set, with no iteration order. `Display.DisplayOrder` is a specification of the library sorts; the sorting algorithms themselves are not modelled.
- Classify: a panic in Rust, or an IndexError in Python, when a 703rd distinct cycle appears is modelled as a `None` result, not as a crash of the program.
