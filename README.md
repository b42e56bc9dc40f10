# moving_median in Dafny

A verified model of `MovingMedian<T, N>` from the `moving_median` crate. The filter is a
fixed-capacity ring buffer of the last N samples. On request it reports the median of the live
samples. It has four operations:

- `new` builds an all-default buffer.
- `add_value` writes a sample at the cursor, advances the cursor modulo N and saturates the
  fill count at N.
- `median` copies the buffer, bubble-sorts the first `count` slots of the copy, and returns the
  middle element or the mean of the two middle elements. It returns 0 when the buffer is empty.
- `clear` restores the fresh state.

The sample type T is `real`, so the mean `(a + b) / 2` of the even case is exact. Its default
value is `0.0`.

Files:

- `median_spec.dfy`, module `MedianSpec`: the specification the filter is proved against. It
  defines ascending order (`Sorted`) and a reference insertion sort (`Sort`), and proves that
  the ascending arrangement of a collection is unique (`SortedUnique`). `Middle` is the middle
  of an ascending sequence. `MedianOf` is the median of samples in any order. `Window(h, n)`
  is the last `min(|h|, n)` values of a history `h`.
- `moving_median.dfy`, module `MovingMedianFilter`: the class `MovingMedian`. It has the fields
  `buffer` (an `array<real>` of length N), `index` and `count`, plus a ghost `History` of every
  sample added since construction or the last clear. The module also holds the bubble sort of
  `median` (`BubbleSort`, `BubblePass`, `SwapAdjacent`) and the ring arithmetic lemmas.
- `scenarios.dfy`, module `Scenarios`: the crate's unit tests written as clients of the class.
  Each one promises the median its test expects.

The object invariant `MovingMedian.Valid()` holds after `new`, `add_value` and `clear`. It states
the following:

- `index < N` and `count <= N`.
- `count < N ==> index == count`, so the cursor has not wrapped while the buffer fills.
- `count == min(k, N)` and `index == k % N` after `k` additions.
- The ring read from the cursor (`RingContents`) is exactly `Window(History, N)`.
- Slots not yet written still hold `0.0`.

From this invariant, `LiveSamples` proves that `buffer[0..count]`, the only region the sort reads,
holds exactly the last `min(k, N)` samples.

## Model

| member | source | states |
|---|---|---|
| `MovingMedianFilter.MovingMedian.constructor` | src/lib.rs:64-70 | a new filter has every slot 0, `index == 0`, `count == 0`, an empty history, and satisfies the ring invariant |
| `MovingMedianFilter.MovingMedian.AddValue` | src/lib.rs:76-85 | only `buffer[old index]` becomes the sample; `index` becomes `(old index + 1) % N`; `count` becomes `old count + 1` below N and stays N at N; the history gains the sample; the ring invariant is preserved |
| `MovingMedianFilter.MovingMedian.Median` | src/lib.rs:91-115 | with no `modifies`, the result is the median of `buffer[0..count]` and also of the last `min(k, N)` samples added, so 0 when empty; repeated calls return the same value |
| `MovingMedianFilter.MovingMedian.Clear` | src/lib.rs:120-124 | restores exactly the state `new` creates: every slot 0, cursor and count 0, empty history; the ring invariant holds |
| `MovingMedianFilter.MovingMedian.LiveSamples` | src/lib.rs:72-74 | the multiset of `buffer[0..count]` is the multiset of the last `min(k, N)` samples; before the cursor wraps, `buffer[0..count]` is the whole history in arrival order |
| `MovingMedianFilter.MedianOfPrefix` | src/lib.rs:97-114 | the copy, the sort of its prefix and the pick of the middle element or the mean of the two middle elements yield the median of `a[0..n]` |
| `MovingMedianFilter.BubbleSort` | src/lib.rs:98-105 | the nested loops leave `a[0..n]` ascending and a permutation of what it was, and leave `a[n..]` unchanged |
| `MovingMedianFilter.BubblePass` | src/lib.rs:100-104 | one inner pass over `a[0..last]` moves their maximum to slot `last`, keeps the already sorted suffix above it, permutes only `a[0..n]` and leaves the slots after `last` untouched |
| `MovingMedianFilter.SwapAdjacent` | src/lib.rs:101-103 | `swap(j, j + 1)` exchanges the two slots, leaves every other slot alone and preserves the multiset of the prefix |
| `MovingMedianFilter.CursorAdvance` | src/lib.rs:80 | `(index + 1) % N` is `index + 1` below the last slot and wraps to 0 after it |
| `MovingMedianFilter.ModSucc` | src/lib.rs:80 | advancing the cursor modulo N keeps it equal to the number of additions modulo N |
| `MovingMedianFilter.RingWriteFilling` | src/lib.rs:78-84 | while the buffer fills, writing the next slot appends the sample to the ring's contents |
| `MovingMedianFilter.RingWriteFull` | src/lib.rs:78-84 | when the buffer is full, writing at the cursor drops the oldest sample from the ring's contents and appends the new one |
| `MedianSpec.Middle` | src/lib.rs:107-114 | the median of an ascending sequence is 0 when it is empty; otherwise at least half of the elements lie at or below it and at least half lie at or above it |
| `MedianSpec.Sort` | src/lib.rs:98-105 | the reference sort yields an ascending permutation of its input |
| `MedianSpec.SortedUnique` | src/lib.rs:98-105 | two ascending sequences with the same multiset are equal, so any correct sort gives the same sorted prefix |
| `MedianSpec.MedianOfSorted` | src/lib.rs:107-114 | on ascending samples the median is their middle (odd count) or the mean of their two middle elements (even count) |
| `MedianSpec.MedianOfArrangement` | src/lib.rs:98-114 | the middle of any ascending permutation of the samples is their median |
| `MedianSpec.MedianOrderInvariant` | src/lib.rs:87-90 | the median depends only on the multiset of samples, not on their arrival order |
| `MedianSpec.MedianOfOne` | src/lib.rs:138-142 | one sample is its own median |
| `MedianSpec.MedianOfTwo` | src/lib.rs:145-150 | two samples have their mean as median, whichever arrived first |
| `MedianSpec.Window` | src/lib.rs:72-74 | the retained window has `min(k, n)` values and is a suffix of the history |
| `MedianSpec.WindowSlides` | src/lib.rs:72-85 | one addition appends the sample to the window and, once the window is full, evicts its oldest value |
| `MedianSpec.WindowForgets` | src/lib.rs:72-74 | values followed by at least N later additions have no influence on the window |
| `Scenarios.MedianIsZeroWhenEmpty` | src/lib.rs:132-135 | a fresh filter of capacity 3 reports 0 |
| `Scenarios.MedianOfOneValue` | src/lib.rs:138-142 | after adding 42 the median is 42 |
| `Scenarios.MedianOfTwoValues` | src/lib.rs:145-150 | capacity 2, samples 42 and 43: the median is 42.5 |
| `Scenarios.MedianOfThreeValues` | src/lib.rs:153-159 | capacity 3, samples 42, 43, 41: the median is 42 |
| `Scenarios.MedianOfFourValues` | src/lib.rs:162-169 | capacity 4, samples 42, 43, 41, 44: the median is 42.5 |
| `Scenarios.MedianAfterEviction` | src/lib.rs:172-179 | capacity 3, samples 42, 44, 43, 41: 42 is evicted and the median is 43 |
| `Scenarios.MedianIsZeroWhenCleared` | src/lib.rs:182-189 | after three samples and `clear` the median is 0 |
| `Scenarios.MedianOfThreeSamples` | src/lib.rs:153-159 | the samples 42, 43, 41 have median 42 |
| `Scenarios.MedianOfEvictedWindow` | src/lib.rs:172-179 | the samples 44, 43, 41 have median 43 |
| `Scenarios.MedianOfFourSamples` | src/lib.rs:162-169 | the samples 42, 43, 41, 44 have median 42.5 |
| `Scenarios.RepeatedMedian` | src/lib.rs:91 | two median queries with nothing in between agree, and a following `add_value` still writes at the cursor the queries left alone |

## Left out

- Floating point: T is `real` with its total order. NaN, infinities, rounding and the partial
  comparisons of `PartialOrd` on `f32`/`f64` are not modelled.
- Generic numeric plumbing: the bounds `Copy`, `PartialOrd`, `Add`, `Div`, `From<u8>` and
  `Default` at src/lib.rs:61 are replaced by the one concrete type `real`. `T::from(0)`,
  `T::from(2)` and `T::default()` become `0.0`, `2.0` and `0.0`.
- Capacity 0: the constructor requires `N > 0`. With N = 0, `add_value` would index
  `buffer[0]` out of bounds and compute `% 0`, a panic the model does not represent.
- Integer width: `index` and `count` are unbounded naturals. Both stay below or at N, so
  `usize` overflow cannot arise in the source either.
- Code layout of `median`: in the source the copy, the nested loops and the pick of the middle
  are inline in one function. Here the copy, sort and pick are `MedianOfPrefix`. The outer loop
  is `BubbleSort`, the inner loop is `BubblePass` and `swap` is `SwapAdjacent`. Loop ranges and
  comparisons are the source's. `MovingMedian.Median` keeps the `count == 0` check.
- `clear` assigns a fresh default array in the source. The model zeroes the same array in
  place; the observable state is the same.
- The crate attribute `#![no_std]`, the module documentation and its doc tests (src/lib.rs:1-43)
  are not behaviour. The doc tests repeat the three-sample and clear unit tests.
- `History` is a ghost field that exists only to state which samples are live; the source keeps
  no history.
