# Insertion sort and Euclidean gcd test fixtures, in Dafny

The repository holds small C programs that run as simulator test fixtures.
Each one reads its inputs from memory symbols placed by the linker, and writes
its result at `_test_start`. This project models two of them and proves what
they compute.

- **Copy-then-insertion-sort** (`sim/prog1/main.c`, module `InsertionSort` in
  `insertion_sort.dfy`). The program copies `n` integers from the source
  array into the destination buffer. It then sorts the buffer ascending in
  place: it holds `key = dst[i]`, moves every larger element of `dst[0..i)`
  one place right, and drops `key` into the gap. The buffer and the source
  are `array<int>`s, and `n` is a parameter.
  - The specification is `SortSeq`, insertion sort written as a function on
    sequences. Its `Insert` scans from the back with the C loop's test
    (`dst[j] > key`), so the proof follows the array code one step at a time.
  - The lemmas prove that `SortSeq` gives a sorted permutation, and that a
    sorted permutation is unique.
  - One outer iteration is its own method, `InsertKey`, and the inner
    `while` inside it is another, `ShiftGreater`. They hold the same
    statements in the same order; the split keeps each proof small.
- **Euclidean gcd** (`sim/prog3/main.c`, module `Euclid` in `euclid.dfy`). The
  program makes both operands non-negative. It then replaces `(a, b)` by
  `(b, a % b)` until `b` is zero, and the result is `a`.
  - `EuclidGcd` is the loop, on unbounded integers.
  - `Gcd` is the recursive function the loop is proved against.
  - `IsGcd` is the divisibility definition of the greatest common divisor.
    The lemmas prove that `Gcd` meets it.
- **The gcd on 32-bit `int`** (module `EuclidInt32` in `euclid_int32.dfy`). It
  models the same program with negation taken as a wrapping two's-complement
  target computes it, and with C's truncating `%`. `GcdAsWritten` is the
  whole program: the sign normalisation, then the C-remainder loop
  `RemainderLoop`.
  It shows, under "Findings", where the 32-bit program departs from the
  mathematical one.

The linker symbols (`_test_start`, `array_size`, `array_addr`, `div1`,
`div2`) become method parameters and results. The source's `*(&x)` pointer
idioms become plain reads.

## Model

| member | source | states |
|---|---|---|
| InsertionSort.CopyPrefix | sim/prog1/main.c:13-15 | after the copy loop `dst[0..n)` equals `src[0..n)` element by element; no element of `dst` at or beyond `n` changes |
| InsertionSort.InsertKey | sim/prog1/main.c:18-24 | one outer iteration turns `dst[0..i]` into `Insert(key, old dst[0..i))` with `key` the old `dst[i]`; nothing after `i` is written |
| InsertionSort.ShiftGreater | sim/prog1/main.c:19-23 | the inner loop stops at the first index `j` (scanning down from `i - 1`) whose element is not greater than `key`, or at `-1`; every element it passed is greater than `key` and now sits one place to the right, `dst[0..j]` and `dst[i+1..]` are unchanged |
| InsertionSort.ShiftOnce | sim/prog1/main.c:20-22 | one shift keeps the inner-loop invariant with `j` one smaller: `dst[0..j]` unchanged, the moved elements in `dst[j+2..i]` all greater than `key`, `dst[j+1]` the hole |
| InsertionSort.InsertAfterShift | sim/prog1/main.c:20-24 | when the scan stops (`j < 0` or `dst[j] <= key`), storing `key` at `j + 1` makes `dst[0..i]` exactly `Insert(key, old dst[0..i))` and leaves the rest as it was |
| InsertionSort.InsertBetween | sim/prog1/main.c:20-24 | the key lands right after the last element not greater than it, and before the run of greater elements that the loop shifted |
| InsertionSort.InsertionSortPrefix | sim/prog1/main.c:17-25 | on return `dst[0..n)` is `SortSeq` of its old contents and `dst[n..]` is unchanged; at the start of each outer iteration the prefix `dst[0..i)` is `SortSeq` of the old prefix, is sorted, and `dst[0..n)` is a permutation of the old `dst[0..n)` |
| InsertionSort.OuterStep | sim/prog1/main.c:17-25 | one outer iteration extends the sorted prefix by one element and keeps `dst[0..n)` a permutation of the input |
| InsertionSort.InsertPermutation | sim/prog1/main.c:18-24 | inserting the key adds exactly the key to the multiset of the prefix |
| InsertionSort.InsertSorted | sim/prog1/main.c:18-24 | inserting the key into a sorted prefix gives a sorted prefix |
| InsertionSort.SortSeqPermutation | sim/prog1/main.c:17-25 | the sort yields a permutation of its input |
| InsertionSort.SortSeqSorted | sim/prog1/main.c:17-25 | the sort yields a non-decreasing sequence |
| InsertionSort.SortedPermutationUnique | sim/prog1/main.c:17-25 | two sorted sequences with the same multiset are equal, so the output is determined by the input's multiset |
| InsertionSort.SortSeqIsSortedPermutation | sim/prog1/main.c:17-25 | `SortSeq(s)` is sorted and a permutation of `s`, and a sequence is sorted and a permutation of `s` exactly when it equals `SortSeq(s)` |
| InsertionSort.SortSeqIdempotent | sim/prog1/main.c:17-25 | sorting an already sorted sequence returns it unchanged |
| InsertionSort.CopyThenSort | sim/prog1/main.c:9-25 | on return `dst[0..n)` is in non-decreasing order, has the multiset of the original `src[0..n)`, and equals `SortSeq(src[0..n))`; when `n <= 1` it is just the copy; `src` and `dst[n..]` are untouched |
| Euclid.Abs | sim/prog3/main.c:11-12 | the normalised operand is non-negative and is the input or its negation |
| Euclid.CommonDivisorsStep | sim/prog3/main.c:15-17 | for `b > 0`, `d` divides `a` and `b` exactly when it divides `b` and `a % b`, so one step keeps the common divisors |
| Euclid.GcdDividesBoth | sim/prog3/main.c:14-20 | the Euclidean result divides both operands |
| Euclid.CommonDivisorDividesGcd | sim/prog3/main.c:14-20 | every common divisor of the operands divides the Euclidean result |
| Euclid.GcdIsGcd | sim/prog3/main.c:14-20 | the Euclidean result meets the divisibility definition of the greatest common divisor |
| Euclid.GcdIsGreatest | sim/prog3/main.c:14-20 | unless both operands are zero the result is positive and no common divisor is larger |
| Euclid.IsGcdUnique | sim/prog3/main.c:14-20 | the divisibility definition allows only one greatest common divisor |
| Euclid.EuclidGcd | sim/prog3/main.c:8-20 | the stored value is non-negative, is the gcd of the absolute values of `div1` and `div2` (so the signs of the inputs do not matter), meets the divisibility definition, and is the absolute value of `div1` when `div2 == 0` (0 for 0 and 0); the loop keeps `gcd(a, b)` and `b` strictly decreases |
| EuclidInt32.WrapNeg | sim/prog3/main.c:11-12 | 32-bit negation gives a 32-bit value congruent to `-x` modulo 2^32: `-x` for every value except the most negative, which maps to itself and stays negative |
| EuclidInt32.WrapNegUnique | sim/prog3/main.c:11-12 | no other 32-bit value is congruent to `-x` modulo 2^32, so wrapping negation is determined; it keeps the absolute value |
| EuclidInt32.CRem | sim/prog3/main.c:15 | C's remainder is smaller than the divisor in absolute value, its absolute value is the Euclidean remainder of the absolute values, it has the sign of the dividend, and it agrees with the Euclidean remainder for a non-negative dividend |
| EuclidInt32.CRemIsRemainder | sim/prog3/main.c:15 | the dividend and C's remainder differ by a multiple of the divisor |
| EuclidInt32.RemainderLoop | sim/prog3/main.c:14-18 | whatever the signs of the operands, the loop's result is `Gcd` of their absolute values up to sign; on 32-bit operands it is a 32-bit value |
| EuclidInt32.GcdAsWritten | sim/prog3/main.c:8-20 | on every pair of 32-bit inputs the stored value is a 32-bit value whose absolute value is the gcd of `abs(div1)` and `abs(div2)`: the program as written can be wrong only in sign |
| EuclidInt32.RemainderLoopOnNaturals | sim/prog3/main.c:14-18 | on non-negative operands the C loop computes `Gcd` |
| EuclidInt32.AsWrittenAgreesAwayFromIntMin | sim/prog3/main.c:8-20 | on 32-bit inputs other than the most negative value, the fixture as written stores the gcd of the absolute values |
| EuclidInt32.AsWrittenNegativeAtIntMin | sim/prog3/main.c:11-20 | with either input `-2^31` the fixture as written can store a negative value: `-2^31` for `(-2^31, 0)`, and `-2` for `(-2^31, 6)` and for `(6, -2^31)`, where the gcd is 2 |

## Left out

- The bubble-sort fixture: its source file is not part of this model.
- Linker symbols and memory layout: the inputs and the output slot are parameters and results. The default return value 0 of `main` is not modelled.
- Aliasing between `src` and `dst`: the copy-and-sort methods require `src != dst` rather than modelling overlapping buffers.
- A negative `array_size`: both loops then run zero times and nothing changes. The model takes `n` as a `nat` and leaves that case out.
- Array bounds: the arrays must hold at least `n` elements, because the C code does not check this and an access past the end is undefined.
- InsertionSort.CopyThenSort: array elements are unbounded integers. The sort only compares and moves values, so a 32-bit width changes nothing there.
- Euclid.EuclidGcd: works on unbounded integers, so it does not model the 32-bit overflow of negating the most negative `int`. `EuclidInt32` models that case separately.

## Findings

| source | as written | input that shows it | evidently intended | confidence | as-written member | corrected member |
|---|---|---|---|---|---|---|
| sim/prog3/main.c:11-12 | a negative operand is negated in 32-bit `int`; negating `-2^31` overflows (undefined in C; a wrapping two's-complement target computes `-2^31`), so the operand stays negative and the stored value can be negative, though its absolute value is still the gcd | `div1 = -2^31, div2 = 0` stores `-2^31`; `div1 = -2^31, div2 = 6` stores `-2`; `div1 = 6, div2 = -2^31` stores `-2` | a non-negative gcd of the absolute values (`2^31` and `2`), which needs a wider or unsigned result | medium: relies on the wrap-around of an undefined negation; not executed | EuclidInt32.AsWrittenNegativeAtIntMin | Euclid.EuclidGcd |
