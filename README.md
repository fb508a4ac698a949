# rust-wfc overlapping model, in Dafny

This project models the discrete bookkeeping of the overlapping-model Wave
Function Collapse generator in hawkw/rust-wfc, and proves properties about it:

- **Cells** (`cells.dfy`). An `UncertainCell` holds two possibility masks, one
  over colours and one over states. Its entropy has three discrete cases:
  a contradiction, a decided cell, or a cell that is still spread out.
  `collapse` clears every state bit except one, drawn by weight.
- **Masked weighted choice** (`utils.dfy`). This covers the `Masked` iterator
  adaptor, the cumulative-weight scan of `masked_weighted_choice` and the
  clockwise quarter turn `rotate_90_clockwise`.
- **Seed statistics** (`seedstats.dfy`). The colour palette is built by sort
  then dedup. The state table counts every stride-1 sliding window of the
  seed image.
- **The model** (`model.dfy`). `from_seed_image` allocates a `y`-by-`x` grid of
  fully uncertain cells. `find_lowest_nonzero_entropy_coordinates` scans the
  cells in row-major order.
- **Pixels** (`sourceimage.dfy`). This covers the ordered `RGB` triple, the
  byte packing that feeds the PNG encoder, the `chunks(3)` unpacking of a
  decoded frame, and the colour-type/bit-depth check.

`grid.dfy` models the `ndarray::Array2` values as sequences of rows, with
`iter()` in row-major order. `wrappers.dfy` holds `Option` and `Result`.

The random draw is a parameter `r` with `0 <= r < total`, where `total` is
the masked weight sum. With `r` fixed the choice is deterministic.
Weight-proportional sampling then becomes a counting statement:
`Utils.ChoiceCount` proves that a masked position is selected by exactly
`weight` of the `total` possible draws.

The choice returns the position of the chosen item, not the item itself.
That matches how `collapse` uses the result (as a state index) and matches
the commented-out reference version in `src/utils.rs`.

Entropy values are abstract reals. Where a cell has two or more possible
states, the value of the floating-point formula is a parameter (`spread`).
The scan is proved for any such values.

## Model

| member | source | states |
|---|---|---|
| `Cells.UncertainCell.constructor` | src/overlappingmodel.rs:21-28 | a new cell has an all-true colour mask of length `num_colors` and an all-true state mask of length `num_states` |
| `Cells.StateEntropy` | src/overlappingmodel.rs:34-39 | the result is `None` exactly when no state bit is set; it is `Some(0.0)` when exactly one bit is set; otherwise it is the formula's value |
| `Cells.UncertainCell.Entropy` | src/overlappingmodel.rs:30-39 | a cell's entropy is `None` exactly when its state mask has no set bit, `Some(0.0)` with one bit set, and the formula's value with two or more |
| `Cells.DecidedExactlyWhenOneState` | src/overlappingmodel.rs:34-39 | when the formula's value is nonzero, a cell reads `Some(0.0)` exactly when one state bit is set |
| `Cells.PossibleStateCount` | src/overlappingmodel.rs:42-47 | the count of still-permitted states is 0 exactly when every permitted state has count 0 |
| `Cells.PossibleStateCountIsTotal` | src/overlappingmodel.rs:42-47 | the masked count sum that entropy normalises by equals the `total` the collapse draws from |
| `Cells.FreshCellEntropy` | src/overlappingmodel.rs:21-39 | a fresh cell is a contradiction with 0 states, decided with 1 state, and spread with more |
| `Cells.UncertainCell.Collapse` | src/overlappingmodel.rs:65-77 | after a collapse with draw `r`, the state mask is the one-hot mask of the position the weighted choice selects from the old mask; the colour mask is unchanged |
| `Cells.CollapsedMask` | src/overlappingmodel.rs:73-76 | the collapsed mask keeps its length, has exactly one set bit, that bit was set before (no excluded state comes back), and the cell then reads as decided |
| `Utils.Rotate90Clockwise` | src/utils.rs:9-13 | transposing then reversing the columns turns an `h x w` array into a `w x h` array with `out[i][j] == in[h-1-j][i]` |
| `Utils.RotateTwice` | src/utils.rs:9-13 | two quarter turns are the half turn `out[i][j] == in[h-1-i][w-1-j]` |
| `Utils.RotateFourTimes` | src/utils.rs:9-13 | four quarter turns give back the original array |
| `Utils.Masked` | src/utils.rs:64-77 | what the adaptor yields is no longer than either iterator and holds only items of the item iterator |
| `Utils.MaskedIter.constructor` | src/utils.rs:45-49 | `masked` wraps the two iterators unchanged |
| `Utils.MaskedIter.Next` | src/utils.rs:64-77 | `next` returns the first element of what the adaptor yields and leaves the rest behind; on `None` nothing was left and nothing is left afterwards |
| `Utils.MaskedIsSelection` | src/utils.rs:64-77 | the adaptor yields exactly the items at the mask-true positions below `min(len(items), len(mask))`, in ascending order |
| `Utils.SelectedMembers` | src/utils.rs:64-77 | the selected positions are strictly ascending, in range, and include exactly the positions whose mask bit is set |
| `Utils.MaskedAllTrue` | src/utils.rs:64-77 | an all-true mask of equal length yields every item |
| `Utils.MaskedAllFalse` | src/utils.rs:64-77 | an all-false mask yields nothing |
| `Utils.MaskedTotal` | src/utils.rs:99-102 | the `sum()` of the masked weights is the cumulative weight of the mask-true positions below `min(len(weights), len(mask))` |
| `Utils.TotalIsPrefix` | src/utils.rs:99-102 | `total` is the cumulative weight of the mask-true positions |
| `Utils.MaskedWeightedChoice` | src/utils.rs:93-114 | for every draw `0 <= r < total` the scan stops before `unreachable!()`; it returns a mask-true position of positive weight that is the first masked position whose cumulative weight exceeds `r` |
| `Utils.ChoiceUnique` | src/utils.rs:107-110 | a draw selects at most one position |
| `Utils.ChoiceMonotone` | src/utils.rs:107-110 | a larger draw never selects an earlier position |
| `Utils.ChoiceCount` | src/utils.rs:107-110 | each masked position is selected by exactly `weight` of the draws in `[0, total)` |
| `Utils.ThreeInFive` | src/utils.rs:16-17 | for weights `[3, 1, 1]`, position 0 is selected by 3 of the 5 draws |
| `SeedStatistics.Sort` | src/overlappingmodel.rs:143 | the sorted pixels are ordered and are a permutation of the input |
| `SeedStatistics.Dedup` | src/overlappingmodel.rs:144 | removing adjacent duplicates keeps the same set of elements and turns a sorted sequence into a strictly increasing one |
| `SeedStatistics.PaletteContents` | src/overlappingmodel.rs:141-146 | the palette is strictly increasing and holds exactly the colours present in the image |
| `SeedStatistics.PaletteOrderIndependent` | src/overlappingmodel.rs:141-146 | two pixel sequences with the same multiset of colours give the same palette |
| `SeedStatistics.PaletteIdempotent` | src/overlappingmodel.rs:141-146 | building a palette from a palette changes nothing |
| `SeedStatistics.StrictlyIncreasingUnique` | src/overlappingmodel.rs:143-144 | two strictly increasing colour sequences with the same elements are equal |
| `SeedStatistics.PaletteOf` | src/overlappingmodel.rs:142-145 | sort then dedup of a pixel sequence is strictly increasing and holds exactly the colours of the sequence |
| `SeedStatistics.BuildColorPalette` | src/overlappingmodel.rs:141-146 | the palette of an image is strictly increasing and holds exactly the colours of its row-major pixels |
| `SeedStatistics.Window` | src/overlappingmodel.rs:155 | a window with origin `(i, j)` is a `bh x bw` block |
| `SeedStatistics.Windows` | src/overlappingmodel.rs:155 | there are `(h-bh+1)*(w-bw+1)` windows when the block fits and none otherwise; each one is a window of the image (which window sits where is `SeedStatistics.WindowsAt`) |
| `SeedStatistics.RowWindowsAt` | src/overlappingmodel.rs:155 | the windows of row `i`, from column `j` on, are those at origins `(i, j)`, `(i, j+1)`, ... in order |
| `SeedStatistics.WindowsFromAt` | src/overlappingmodel.rs:155 | from row `i` on, entry `d * (w-bw+1) + b` is the window at origin `(i + d, b)` |
| `SeedStatistics.WindowsAt` | src/overlappingmodel.rs:155 | the windows come in row-major order of their origin: the window at origin `(i, j)` is entry `i * (w-bw+1) + j`, so every origin contributes its own window |
| `SeedStatistics.CountBlocks` | src/overlappingmodel.rs:155-159 | after the loop, the map's keys are exactly the blocks seen, each mapped to its number of occurrences |
| `SeedStatistics.CollectCounts` | src/overlappingmodel.rs:161 | the collected entries are the map's entries, each exactly once, in no fixed order |
| `SeedStatistics.BuildBlockFrequencyMap` | src/overlappingmodel.rs:148-162 | the table lists distinct blocks; each block is a window of the image with count >= 1 equal to its occurrences; every window appears |
| `SeedStatistics.FrequencyTableTotal` | src/overlappingmodel.rs:148-162 | the counts of a frequency table sum to the number of windows |
| `SeedStatistics.StateTableTotal` | src/overlappingmodel.rs:148-162 | the counts sum to `(h-bh+1)*(w-bw+1)` when the block fits; the table is empty otherwise |
| `SeedStatistics.WholeSeedBlock` | src/overlappingmodel.rs:148-162 | a block the size of the seed gives one table entry with count 1 |
| `SeedStatistics.EveryOriginCounted` | src/overlappingmodel.rs:155-161 | the window at every origin `(i, j)` has an entry in the state table with count >= 1 |
| `Model.NewCells` | src/overlappingmodel.rs:100-104 | the loop allocates `x * y` distinct, fresh, fully uncertain cells with mask lengths `palette.len()` and `states.len()` |
| `Model.OverlappingModel.FromSeedImage` | src/overlappingmodel.rs:89-113 | the model has shape `(y, x)` with `x * y` fresh, distinct, fully uncertain cells; it holds the palette and the frequency table of the seed and the given `block_dims` |
| `Model.OverlappingModel.FindLowestNonzeroEntropyCoordinates` | src/overlappingmodel.rs:115-139 | on a well-formed model, the scan loop returns `FindLowest` of the cells' row-major entropies |
| `Model.ScanPrefix` | src/overlappingmodel.rs:116-134 | after `n` cells the scan has either stopped at a cell `< n` with no valid state, or holds a candidate `< n` whose entropy is the recorded nonzero value |
| `Model.LowestIndex` | src/overlappingmodel.rs:135-138 | the scan's result on flat indices: an `Ok` index names a cell with nonzero entropy, and `NoValidStates(i)` names a cell with no valid state |
| `Model.ScanPrefixInvariant` | src/overlappingmodel.rs:115-134 | after `n` cells the scan is in one of three states: it stopped at the first contradiction; or it holds no candidate and every value so far is 0; or it holds a nonzero candidate that is `<=` every nonzero value so far and `<` every later one |
| `Model.ScanContradiction` | src/overlappingmodel.rs:119-121 | the result is `NoValidStates(i)` exactly when cell `i` is the first cell in row-major order with no possible state |
| `Model.ScanIgnoresLaterCells` | src/overlappingmodel.rs:119-121 | cells after the first contradiction do not influence the result |
| `Model.ScanAllDecided` | src/overlappingmodel.rs:122-136 | the result is `AllStatesDecided` exactly when every cell has entropy 0 |
| `Model.ScanLowest` | src/overlappingmodel.rs:122-130 | the reported cell has nonzero entropy that is `<=` every other nonzero entropy; every later nonzero entropy is strictly larger, so ties go to the last cell scanned |
| `Model.ScanCoordinate` | src/overlappingmodel.rs:118-129 | the written coordinate: its first part is the number of whole groups of `rows` cells before `index` (not of `cols` cells); its second part is the column `index mod cols`, below `cols` |
| `Model.FindLowest` | src/overlappingmodel.rs:115-139 | the scan reports exactly the errors `LowestIndex` reports; otherwise it reports the written coordinate of the lowest cell |
| `Model.OneStateEverywhere` | src/overlappingmodel.rs:115-139 | a grid whose cells each have a one-state mask reports `AllStatesDecided` |
| `Model.AllDecidedExactlyWhenOneState` | src/overlappingmodel.rs:115-139 | when the formula never gives 0 for two or more states, the scan reports `AllStatesDecided` exactly when every cell has one state left |
| `Model.RowMajorCoordinate` | src/overlappingmodel.rs:129 | the row-major `(index / cols, index % cols)` lies inside the grid and maps back to `index` |
| `Model.SquareCoordinate` | src/overlappingmodel.rs:118-129 | on a square grid, `[index / rows, index % cols]` is the row-major coordinate |
| `Model.NonSquareCoordinate` | src/overlappingmodel.rs:118-129 | on 2 rows by 3 columns, flat index 4 is cell (1, 1), but the scan reports (2, 1) |
| `Model.FindLowestSquare` | src/overlappingmodel.rs:115-139 | on a square grid, a reported `[row, col]` is in range and names the lowest cell `row * n + col` |
| `Model.FindLowestRowMajor` | src/overlappingmodel.rs:115-139 | the scan with a row-major coordinate reports an in-range `(row, col)` of the lowest cell on every grid shape |
| `Model.FindLowestAgreesWhenSquare` | src/overlappingmodel.rs:129 | on a square grid, the scan as written and the row-major scan agree |
| `SourceImage.LessIsStrictTotalOrder` | src/sourceimage.rs:10-11 | the derived order on `RGB` is lexicographic on `(r, g, b)` and is a strict total order |
| `SourceImage.Packed` | src/sourceimage.rs:43-49 | the packed buffer has length `3 * pixel_count` and holds `r`, `g`, `b` of pixel `k` at bytes `3k`, `3k+1`, `3k+2` |
| `SourceImage.Pack` | src/sourceimage.rs:43-49 | the push loop over `image_data.iter()` builds exactly `Packed` of the row-major pixels |
| `SourceImage.PackedUnique` | src/sourceimage.rs:43-49 | any buffer of length `3n` with every pixel's bytes in place is the packed buffer |
| `SourceImage.PackedRowMajor` | src/sourceimage.rs:43-49 | pixel `(i, j)` of an `h x w` image sits at bytes `3(iw+j)` to `3(iw+j)+2` |
| `SourceImage.Unpack` | src/sourceimage.rs:72 | unpacking a buffer whose length is a multiple of 3 yields `len/3` pixels |
| `SourceImage.UnpackAt` | src/sourceimage.rs:72 | the k-th unpacked pixel is built from bytes `3k`, `3k+1`, `3k+2` |
| `SourceImage.UnpackPacked` | src/sourceimage.rs:43-72 | unpacking the packed buffer returns the original pixels |
| `SourceImage.PackedUnpack` | src/sourceimage.rs:43-72 | packing an unpacked frame returns the frame's bytes |
| `SourceImage.CheckFormat` | src/sourceimage.rs:60-68 | only (RGB, 8-bit) is accepted; every other pair is an error that carries the pair found |
| `SourceImage.LoadPixels` | src/sourceimage.rs:60-72 | a wrong header is an error; otherwise the frame becomes `len/3` pixels that pack back to the frame |

## Left out

- The floating-point entropy formula (src/overlappingmodel.rs:49-61) is left out. This includes the `ln` terms and the doubled `x * x.ln()`. For cells with two or more possible states, the formula's value is the parameter `spread`. The NaN panic (lines 124-126) is left out with it. As written, the formula gives NaN for every cell with two or more states: each `x` lies strictly between 0 and 1, so `x * x.ln()` is negative, and its logarithm is NaN. The scan as written would therefore panic at the first undecided cell that comes before any contradiction. This was found by reading only; the model keeps `spread` abstract instead.
- `f64` comparison semantics are left out: entropies are Dafny `real`s. The initial `f64::MAX` is modelled as "no candidate yet", so the first nonzero entropy is always taken.
- `Cells.StateEntropy`: with `spread == 0.0` a cell with two or more states would also read `Some(0.0)`. The converse ("`Some(0.0)` only with one state") is therefore proved only under `spread != 0.0`, in `Cells.DecidedExactlyWhenOneState` and `Model.AllDecidedExactlyWhenOneState`. The code never produces exactly 0 there, because its value is NaN.
- Random number generation (`Range::new`, `thread_rng`, src/utils.rs:103-104) is left out. The draw `r` is a parameter, and `r < total` stands for the range the sampler draws from; it also implies the `total > 0` that `Range::new` needs.
- `Utils.MaskedWeightedChoice` returns the position of the chosen item, not the item, because `collapse` uses the result as a state index. It takes the weights only, because the items play no part in choosing a position.
- `Utils.MaskedWeightedChoice` is written as a search loop whose guard is the return condition. It does not use an early `return` inside the `for`. The loop visits the same positions and updates `choice` the same way; the invariant `index < n` is why `unreachable!()` is never reached.
- PNG decoding and encoding, file creation, `BufWriter` and the panics of `from_file` (src/sourceimage.rs:19-41, 50-51, 57-59, 70-71) are left out. `load_file` is modelled from the header check on, with the decoded frame as input; the final `from_shape_vec` reshape is not modelled.
- `SourceImage.Unpack` requires the frame length to be a multiple of 3. A shorter final chunk would make `s[1]` or `s[2]` panic, and an RGB 8-bit frame always has three bytes per pixel. `SourceImage.LoadPixels` requires this only when the header is accepted.
- `usize` arithmetic is unbounded in the model: the product `x * y` (src/overlappingmodel.rs:100-102) and the `sum()` calls (src/overlappingmodel.rs:42-47, src/utils.rs:99-102) are mathematical integers, so overflow is not modelled.
- `RefCell` interior mutability is left out. The masks are plain `seq<bool>` fields of the `UncertainCell` class, reassigned in place.
- The `BitVec` operations and the `ndarray` calls `windows`, `from_shape_vec`, `t` and `invert_axis` are not modelled as library code. They appear as sequences with the meaning the call sites use.
- `HashMap` iteration order is left out. `SeedStatistics.CollectCounts` picks the next key arbitrarily, so any order of the distinct entries is covered.
- `SeedStatistics.Sort` is an insertion sort standing in for `Vec::sort`. On a total order every correct sort gives the same sequence, so only the result matters.
- `SeedStatistics.BuildBlockFrequencyMap` does not model a zero-sized block. The model gives such a block the value `Window` defines; whether `ndarray` panics on it is not modelled.
- The `block_dims` tuple is read in `ndarray`'s axis order, as `(rows, columns)`. That is how `windows` receives it.
- The `debug_assert!` on mask length (src/overlappingmodel.rs:32) is represented by the model's `Valid()` predicate. It is not a precondition of `Cells.StateEntropy`.
- Rotation and reflection augmentation of blocks (the TODO at line 153) does not exist in the code, and neither does neighbour constraint propagation. Nothing in the model updates `possible_colors`.
- `Model.OverlappingModel.FindLowestNonzeroEntropyCoordinates` keeps the coordinate arithmetic of the code (see Findings). It takes `spread[i]` for every cell but uses it only where the cell has two or more states.
- The commented-out code (src/utils.rs:15-36, 80-91) is used only as the reference for returning an index.

## Findings

| source | as written | input that shows it | evidently intended | confidence | as-written member | corrected member |
|---|---|---|---|---|---|---|
| src/overlappingmodel.rs:118-129 | `[index / self_y, index % self_x]` divides the flat index by the row count | on 2 rows by 3 columns, flat index 4 is cell (1, 1), but the scan reports `[2, 1]`, a row that does not exist | `[index / self_x, index % self_x]`, the row-major (row, column) | not executed | `Model.ScanCoordinate`, shown by `Model.NonSquareCoordinate` | `Model.RowMajorCoordinate`, used by `Model.FindLowestRowMajor` |

The scan method keeps the arithmetic as written, because its output is the
coordinate. `Model.FindLowestAgreesWhenSquare` proves that on a square grid
the written scan is the same as the row-major scan.
