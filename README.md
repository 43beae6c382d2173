# b=0 volume reordering, modelled in Dafny

This project models the preprocessing step of a diffusion-MRI workflow that
moves the baseline (b=0) volumes of a DWI series ahead of the
diffusion-weighted volumes. A volume is a baseline when its b-value is below
50. The step keeps three things aligned: the 4-D image (one 3-D volume per
index), the b-value list and the b-vector table (one column per index).

It runs in three stages:

1. **Orientation of the b-vector table.** A one-dimensional table is reshaped
   row-major into 3 rows. A two-dimensional table of shape (N, 3) with N != 3
   is transposed. Any other table, a 3-by-3 one included, is kept as it is.
2. **The new order.** `b0_idx` holds the indices whose b-value is `< 50`,
   ascending. `dwi_idx` holds those whose b-value is `>= 50`, ascending.
   `new_order` is the first followed by the second.
3. **Fancy indexing.** The image's last axis, the b-values and the b-vector
   columns are all indexed by `new_order`. The affine and the header pass
   through unchanged.

Files:

- `volume_order.dfy` (module `VolumeOrder`): the masks, `np.where`,
  `new_order` and fancy indexing of a sequence. It also holds the
  specification `IsStablePartition`: a permutation of the indices in which
  baselines come first and each group keeps its acquisition order.
  `new_order` satisfies it, and it is the only order that does.
- `bvec_orientation.dfy` (module `BvecOrientation`): the b-vector table as
  `np.loadtxt` returns it (flat, or two-dimensional with an explicit shape),
  plus the reshape, the transpose and the orientation step.
- `b0_reorder.dfy` (module `B0Reorder`): the whole transform on loaded values.
  It proves alignment, that no acquisition is lost, and idempotence.

B-values and b-vector components are `real`. The image is a sequence of
opaque volumes of a type parameter `V`. The affine and header are opaque type
parameters.

The oriented table is not forced to have 3 rows. A (4, N) table, for
example, is kept and indexed column-wise: numpy raises no error for such a
table, and the model keeps it and indexes its columns as numpy does. A 3-by-3 table
is taken to be in 3-row form even when the file stored one vector per line;
`SquareTableNotTransposed` states what comes out in that case.

## Model

| member | source | states |
|---|---|---|
| `VolumeOrder.IndicesWhere` | workflow/b0_reorder.py:33-34 | `np.where(mask)[0]`: every selected index is in range and its mask entry holds; every index whose mask holds is selected; the indices are strictly ascending |
| `VolumeOrder.MasksComplementary` | workflow/b0_reorder.py:33-34 | for every volume, `bvals < 50` holds exactly when `bvals >= 50` does not; the first is the baseline test |
| `VolumeOrder.ComplementaryCounts` | workflow/b0_reorder.py:33-34 | two complementary masks select, between them, exactly as many indices as there are volumes |
| `VolumeOrder.BaselineMask` | workflow/b0_reorder.py:33 | `bvals < 50` has one entry per volume, true exactly at the baselines |
| `VolumeOrder.WeightedMask` | workflow/b0_reorder.py:34 | `bvals >= 50` has one entry per volume, true exactly at the volumes that are not baselines |
| `VolumeOrder.BaselineIndices` | workflow/b0_reorder.py:33 | `b0_idx` holds every baseline index and nothing else, strictly ascending |
| `VolumeOrder.WeightedIndices` | workflow/b0_reorder.py:34 | `dwi_idx` holds every weighted index and nothing else, strictly ascending |
| `VolumeOrder.SplitIndices` | workflow/b0_reorder.py:33-34 | the lengths of `b0_idx` and `dwi_idx` add up to N |
| `VolumeOrder.TwoAscendingBlocks` | workflow/b0_reorder.py:37 | an ascending block of baselines followed by an ascending block of weighted indices is duplicate-free, puts baselines first and keeps each group in order |
| `VolumeOrder.NewOrderIsPermutation` | workflow/b0_reorder.py:33-37 | `new_order` has length N, every entry is below N, no entry repeats, and every index 0..N-1 appears |
| `VolumeOrder.NewOrder` | workflow/b0_reorder.py:37 | `new_order` has one in-range entry per volume, and position k refers to a baseline exactly when k < len(`b0_idx`); its full meaning is `NewOrderIsStablePartition` and `StablePartitionIsUnique` |
| `VolumeOrder.NewOrderIsStablePartition` | workflow/b0_reorder.py:33-37 | `new_order` is a permutation in which no baseline follows a weighted volume and two volumes of the same group keep their original relative order |
| `VolumeOrder.ThresholdIsExclusive` | workflow/b0_reorder.py:33-34 | a volume with b-value exactly 50 is in `dwi_idx`, not in `b0_idx`, and sits after the baseline block in `new_order` |
| `VolumeOrder.SortedByPrecedesUnique` | workflow/b0_reorder.py:33-37 | two sequences sorted by (group, then index) that hold the same indices are equal |
| `VolumeOrder.StablePartitionIsUnique` | workflow/b0_reorder.py:33-37 | every order that is a stable baselines-first partition equals `new_order` |
| `VolumeOrder.PartitionedKeepsOrder` | workflow/b0_reorder.py:33-37 | if every baseline already precedes every weighted volume, `new_order` is the identity 0..N-1 |
| `VolumeOrder.SingleGroupKeepsOrder` | workflow/b0_reorder.py:33-37 | with all volumes baselines, or none, `new_order` is the identity |
| `VolumeOrder.ReorderedIsPartitioned` | workflow/b0_reorder.py:33-39 | the reordered b-values have every baseline first, so `new_order` computed from them is the identity |
| `VolumeOrder.GatherComplementaryMultiset` | workflow/b0_reorder.py:33-34 | the values picked by a mask and by its complement together form the multiset of all values |
| `VolumeOrder.Gather` | workflow/b0_reorder.py:38-39 | fancy indexing `xs[order]` (`data[..., new_order]`, `bvals[new_order]`): one output per entry of the order, output k being `xs[order[k]]`; under `new_order` it permutes the values (`GatherNewOrderMultiset`) |
| `VolumeOrder.GatherNewOrderMultiset` | workflow/b0_reorder.py:38-39 | indexing any per-volume sequence by `new_order` keeps its multiset of values |
| `VolumeOrder.WorkedExample` | workflow/b0_reorder.py:33-37 | b-values [0, 1000, 0, 1000, 1000] give `new_order` [0, 2, 1, 3, 4] |
| `BvecOrientation.ReshapeToThreeRows` | workflow/b0_reorder.py:27-28 | `reshape((3, -1))` of a flat table of length 3M gives a rectangular table of 3 rows and M columns |
| `BvecOrientation.ReshapeIsRowMajor` | workflow/b0_reorder.py:28 | element (r, c) of the reshaped table is `flat[r*M + c]` |
| `BvecOrientation.FlattenReshape` | workflow/b0_reorder.py:28 | laying the three reshaped rows end to end gives the flat table back |
| `BvecOrientation.ReshapeFlatten` | workflow/b0_reorder.py:28 | reshaping the flattened rows of a 3-row table gives that table back |
| `BvecOrientation.Transpose` | workflow/b0_reorder.py:30 | `.T` of an (R, C) table is a rectangular (C, R) table |
| `BvecOrientation.TransposeInvolutive` | workflow/b0_reorder.py:30 | transposing twice gives back the original table, shape included |
| `BvecOrientation.Canonicalize` | workflow/b0_reorder.py:27-30 | a flat input comes out as 3 rows; an (N, 3) input with N != 3 comes out as its transpose, element (i, j) equal to input (j, i); any other 2-D input comes out unchanged |
| `BvecOrientation.OrientationsAgree` | workflow/b0_reorder.py:27-30 | a 3-by-N table with N != 3 orients to itself whether it was stored as 3 rows, as N rows of 3, or as one flat line |
| `BvecOrientation.SquareTableNotTransposed` | workflow/b0_reorder.py:29-30 | a 3-by-3 table is kept as it is, even when it is the transpose of the intended 3-row table |
| `BvecOrientation.CanonicalIsFixedPoint` | workflow/b0_reorder.py:27-30 | the oriented table never has the (N, 3) shape with N != 3, so orienting it again changes nothing |
| `B0Reorder.GatherColumns` | workflow/b0_reorder.py:40 | `bvecs[:, order]` keeps the number of rows and has one column per entry of the order |
| `B0Reorder.Column` | workflow/b0_reorder.py:40 | `bvecs[:, c]` has one entry per row, entry r being element (r, c) |
| `B0Reorder.ColumnOfGather` | workflow/b0_reorder.py:40 | column k of `bvecs[:, order]` is column `order[k]` of `bvecs` |
| `B0Reorder.Reorder` | workflow/b0_reorder.py:27-43 | the output has as many volumes, b-values and b-vector columns as there are input volumes; the oriented table's number of rows is kept; the affine and header are the input's |
| `B0Reorder.Alignment` | workflow/b0_reorder.py:38-40 | at every output position k, the image volume, the b-value and the b-vector column are those of original acquisition `new_order[k]` |
| `B0Reorder.AcquisitionsPreserved` | workflow/b0_reorder.py:38-40 | the multiset of (volume, b-value, b-vector) acquisitions is unchanged, and so are the multisets of b-values and of volumes |
| `B0Reorder.PartitionedInputUnchanged` | workflow/b0_reorder.py:33-43 | input whose baselines already come first is returned unchanged, apart from orienting the b-vectors |
| `B0Reorder.ReorderIdempotent` | workflow/b0_reorder.py:27-43 | feeding the output back in, with the b-vectors as a 2-D table, is accepted and returns that output unchanged |
| `B0Reorder.WorkedExampleBvals` | workflow/b0_reorder.py:39 | b-values [0, 1000, 0, 1000, 1000] are written out as [0, 0, 1000, 1000, 1000] |

## Left out

- File input and output are not modelled. This covers `nib.load`, `get_fdata`, `Nifti1Image`, `nib.save`, `np.loadtxt` and `np.savetxt` (workflow/b0_reorder.py:20-24, 42-46). The model starts from the loaded arrays and ends with the arrays handed to the writers.
- The paths injected by Snakemake (workflow/b0_reorder.py:12-18) and the completion message (workflow/b0_reorder.py:48) are not modelled.
- The `%.2f` and `%.6f` text formatting is not modelled. Because of it, the no-op second run holds for the in-memory values only: a b-value of 49.996 counts as a baseline, is written as `50.00`, and would count as weighted when read back.
- Floating point is not modelled; b-values are exact reals. With IEEE doubles, a NaN b-value fails both `< 50` and `>= 50`, so the source would leave that volume out of `new_order` altogether. For reals, `MasksComplementary` shows the two masks always cover every volume.
- Inputs on which numpy raises are excluded by preconditions instead of being modelled as errors. These are a flat b-vector table whose length is not a multiple of 3, a ragged table, a single-number b-vector file, and a single-number b-value file (see the next line).
- B0Reorder.Reorder: does not accept a series of exactly one volume. `np.loadtxt` loads a single b-value as a 0-dimensional array, and `bvals[new_order]` (workflow/b0_reorder.py:39) raises on it, so `Consistent` requires the number of b-values to differ from 1 instead of modelling that error.
- B0Reorder.Reorder: requires the image's volume count and the oriented table's column count to equal the number of b-values (`Consistent`). Where they are larger, numpy would silently index only the first entries, and the model does not cover that. Where they are smaller, numpy raises.
- A b-value file that loads as a 2-D array is not modelled; the b-values are always a flat list.
