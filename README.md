# ReadDepthCalculator in Dafny

This project models the read-depth accumulation of `ReadDepthCalculator`. The
calculator holds aligned reads as `(start, length)` pairs, a list of loci of
interest, and the depth profile last computed. `calculateDepth` works in four steps:

1. It sorts the reads in place by `(start, length)`.
2. It finds the largest read end `maxEnd`, or 0 when there are no reads.
3. It writes `+1` at each read's start and `-1` at its end into a zero
   array of `maxEnd + 1` entries.
4. It turns that array, in place, into its running prefix sum.

The model proves that the result is the brute-force coverage. Entry `p` is
the number of reads with `start <= p < start + length`.

Files and modules:

- `reads.dfy` (`ReadIntervals`): the `Read` datatype, the lexicographic sort
  key, `Sorted`, the in-place insertion sort on an array, and the lemma that a
  sorted arrangement of a multiset of reads is unique.
- `coverage.dfy` (`CoverageSpec`): the specification functions. `MaxEnd` is
  the running maximum `__getMaxPosition` computes. `Coverage` is the
  brute-force oracle. `DepthProfile` is the whole expected profile. The
  lemmas connect them. `Covers` (does a read cover a position) and `Delta`
  (the tally entry after the +1/-1 writes) are definitions used in the
  contracts, not modelled operations. The same holds for `KeyLe` (the
  `itemgetter(0, 1)` key order), `Sorted`, `End` and `WellFormed` in
  `reads.dfy`.
- `calculator.dfy` (`ReadDepth`): the class `ReadDepthCalculator`. Its fields
  `readList`, `loci` and `depths` are the source's `self.reads`, `self.loci`
  and `self.depths`. The first is renamed because `reads` is a Dafny keyword.
  The methods append, read back, sort, find the maximum, and calculate.
  `CalculateDepth` runs the source's two loops, as the module-level methods
  `RecordEndpoints` and `RunningSum`, over a single array: `sums` and `tally`
  are the same array, as in the source.
- `scenarios.dfy` (`Scenarios`): the unit tests' expectations, as methods
  that drive a fresh calculator.

The code validates nothing, and the model follows it:

- `getDepths` before any calculation returns the empty list, and
  `GetDepths` does the same.
- The lookup `self.depths[locus]` uses Python list indexing. A negative
  locus counts from the end, and any other out-of-range locus raises
  `IndexError`. `DepthAt` models these as the wrapped index and as `None`.
- Reads are never checked. `CalculateDepth` requires non-negative starts
  and lengths.
- The `-1` is written unconditionally. For non-negative reads that write is
  in bounds, because `start + length <= maxEnd`, and the model proves it.

## Model

| member | source | states |
|---|---|---|
| `ReadIntervals.SortReads` | ReadDepthCalculator.py:102 | the array ends sorted by (start, length) and is a permutation of its old contents |
| `ReadIntervals.SortedUnique` | ReadDepthCalculator.py:102 | two sorted sequences with the same multiset of reads are equal, so the sort's result depends only on the reads, not on their initial order |
| `ReadIntervals.WellFormedPermutation` | ReadDepthCalculator.py:102 | reordering the reads keeps every start and length non-negative |
| `CoverageSpec.MaxEnd` | ReadDepthCalculator.py:106-113 | the running maximum of start + length, started at 0, is never negative |
| `CoverageSpec.MaxEndIsMaximum` | ReadDepthCalculator.py:109-113 | MaxEnd is at least every read's end, and is 0 or the end of some read |
| `CoverageSpec.MaxEndUnique` | ReadDepthCalculator.py:109-113 | at most one value has that characterisation |
| `CoverageSpec.MaxEndPermutation` | ReadDepthCalculator.py:120-123 | the maximum end, and so the profile length, does not depend on the order of the reads |
| `CoverageSpec.Coverage` | ReadDepthCalculator.py:126-138 | the number of reads covering a position is at most the number of reads |
| `CoverageSpec.DeltaExtend` | ReadDepthCalculator.py:127-129 | processing one more read adds +1 at its start and -1 at its end to the difference array, at the same index for a zero-length read |
| `CoverageSpec.DepthProfile` | ReadDepthCalculator.py:123-138 | the profile has MaxEnd + 1 entries, each between 0 and the number of reads, and its last entry is 0 |
| `CoverageSpec.CoverageBeyondMaxEnd` | ReadDepthCalculator.py:109-113 | no read covers a position at or past the maximum end |
| `CoverageSpec.CoverageStep` | ReadDepthCalculator.py:132-135 | for non-negative reads, the coverage at p is the coverage at p - 1 (0 before position 0) plus the difference-array entry at p: the prefix sum of the deltas is the coverage |
| `CoverageSpec.CoverageAppend` | ReadDepthCalculator.py:127-129 | reads contribute additively: the coverage of a concatenation is the sum of the coverages |
| `CoverageSpec.CoveragePermutation` | ReadDepthCalculator.py:120-129 | coverage at a position does not depend on the order of the reads |
| `CoverageSpec.DepthProfilePermutation` | ReadDepthCalculator.py:120-138 | permuting the reads leaves the whole depth profile unchanged |
| `CoverageSpec.ZeroLengthCoversNothing` | ReadDepthCalculator.py:128-129 | inserting a zero-length read anywhere leaves the coverage at every position unchanged |
| `CoverageSpec.ZeroLengthDeltaCancels` | ReadDepthCalculator.py:128-129 | a zero-length read's +1 and -1 land on the same index and cancel |
| `ReadDepth.ReadDepthCalculator.constructor` | ReadDepthCalculator.py:20-25 | the calculator starts with the given reads and loci and an empty profile |
| `ReadDepth.ReadDepthCalculator.AddReads` | ReadDepthCalculator.py:28-31 | the reads become the old reads followed by the new ones; loci and depths are unchanged |
| `ReadDepth.ReadDepthCalculator.AddLoci` | ReadDepthCalculator.py:34-37 | the loci become the old loci followed by the new ones; reads and depths are unchanged |
| `ReadDepth.ReadDepthCalculator.GetReads` | ReadDepthCalculator.py:40-41 | returns the current reads |
| `ReadDepth.ReadDepthCalculator.GetLoci` | ReadDepthCalculator.py:44-45 | returns the current loci |
| `ReadDepth.ReadDepthCalculator.GetDepths` | ReadDepthCalculator.py:48-49 | returns the current profile, empty before any calculation |
| `ReadDepth.ReadDepthCalculator.DepthAt` | ReadDepthCalculator.py:95 | the lookup succeeds exactly for -len <= locus < len (Python indexing); on a computed profile it is the coverage at the locus, or at len + locus for a negative locus; otherwise None |
| `ReadDepth.ReadDepthCalculator.PreprocessReadData` | ReadDepthCalculator.py:99-102 | the reads end sorted by (start, length) and are a permutation of the old reads; loci and depths are unchanged |
| `ReadDepth.ReadDepthCalculator.GetMaxPosition` | ReadDepthCalculator.py:106-113 | returns MaxEnd: a non-negative value at least every read's end, and 0 or equal to some read's end |
| `ReadDepth.ReadDepthCalculator.CalculateDepth` | ReadDepthCalculator.py:116-138 | for non-negative reads, every array write is in bounds; the reads end sorted and permuted; depths is the coverage at every position 0..MaxEnd of the original reads, so it does not depend on their order; loci are unchanged |
| `ReadDepth.RecordEndpoints` | ReadDepthCalculator.py:126-129 | on a zero array long enough for every read end, each entry ends as the difference-array value Delta: starts minus ends at that index |
| `ReadDepth.RunningSum` | ReadDepthCalculator.py:131-135 | the running sum with accumulator `prior`, written over the deltas in place, leaves the coverage at every position |
| `Scenarios.AddReadsScenario` | test.py:17-28 | reads added to an empty calculator come back as given |
| `Scenarios.AddLociScenario` | test.py:31-42 | loci added to an empty calculator come back as given |
| `Scenarios.PreprocessScenario` | test.py:107-119 | [(20,40),(10,30),(20,10)] sorts to [(10,30),(20,10),(20,40)] |
| `Scenarios.DepthScenario` | test.py:122-132 | reads [(10,30),(20,40)] give depths 0, 1, 2 at loci 5, 15, 30 |
| `Scenarios.EmptyScenario` | ReadDepthCalculator.py:109-123 | with no reads the profile is [0] |
| `Scenarios.RecalculateScenario` | ReadDepthCalculator.py:116-138 | calculating twice without changing the reads gives the same profile both times |

## Left out

- The CSV methods `addReadsFromCSV`, `addLociFromCSV`, `outputAllDepthsToCSV` and `populateLociCSVDepthField` are file I/O. They are not modelled. The lookup `self.depths[row[0]]` inside `populateLociCSVDepthField` is modelled as `DepthAt`.
- `main` is not modelled. It prints, and it computes the mean depth in floating point.
- Python's shared mutable default arguments are not modelled. Neither is aliasing of the caller's list, which the source stores and then sorts in place. The constructor takes fresh values, and `readList` is a value that the methods reassign.
- `PreprocessReadData` copies the reads into a fresh array, sorts that array in place, and stores the result back. The source sorts its own list object in place.
- `SortReads` is an insertion sort, not Python's Timsort. The key is the whole pair, so stability has no effect on the result, and `SortedUnique` shows that every correct sort gives the same result.
- `CalculateDepth` stores a copy of the prefix-sum array in `depths`. In the source, `depths` is the same list object as the array.
- CalculateDepth: requires non-negative starts and lengths. The source does not check this. With a negative value, a `tally` write either lands silently at a wrapped-around index or raises `IndexError`. For example, `[(10,-3)]` gives an 8-entry `tally`, so `tally[10]` fails. The model does not capture either outcome.
- Reads and loci are typed as integers. Python would accept any values that support `+`, `>` and indexing.
- test.py's CSV round-trip tests (test.py:45-104) exercise only file I/O and are not modelled.
