# distribute_groups, verified

This project is a Dafny model of the integer bookkeeping in the distributed EP
code (ep-stan), with proofs about it:

- **`distribute_groups(J, K, Nj)`**. It assigns J contiguous data groups of
  sizes `Nj` to K computation sites, in one of three ways:
  - Fewer sites than groups: repeatedly merge the neighbouring pair of
    smallest combined size. It also numbers every sample by its group's
    position within its site.
  - As many sites as groups: the identity.
  - More sites than groups: repeatedly give one more part to the group with
    the largest samples-per-part ratio. Then divide every group as evenly as
    floor and remainder allow.
- **The packed-triangle length `d2`** of the covariance control variate in
  `cv_moments`.
- **The grouping bookkeeping of the simulated model m1a**:
  - the group limits `j_lim` and group index `j_ind` built from `Nj`;
  - `get_liks`, which cuts the samples into one contiguous slice per site,
    together with the slice's local group limits.

Modules:

- `Wrappers`: `Result`, used for the `ValueError` paths.
- `Prefix`:
  - sums;
  - `Limits`, a cumulative sum with a leading 0 (`np.concatenate(([0], np.cumsum(Nj)))`);
  - `GroupIndex`, the group of every sample;
  - the facts that tie these together.
- `Distribute`: the argument checks and the three branches of `distribute_groups`.
  - The merge loop is a step function, `MergeStep`. It performs the list
    updates of the loop body in the loop's order, including the in-place
    bumps of `Njd`. `MergeRounds` runs it J - K times.
  - The split loop is `PartStep`, run K - J times by `PartRounds`.
- `Packed`: `d2`.
- `Model1a`:
  - `SimulatedGrouping`, the `j_lim`/`j_ind` construction;
  - `GetLiks`, with one loop method per branch.
- `Scenarios`: worked instances of the greedy loops, one of them with ties.

Points where the model's behaviour needs a word:

- An integer `Nj` with a negative J makes `np.ones(J)` raise `ValueError`;
  the model returns `NegativeGroupCount`.
- The split loop compares floats `Nj/ppg`. The model compares the same ratios
  exactly, by cross-multiplication, and keeps `argmax`'s choice of the first
  maximum.
- `K > N` is only checked in the split branch of the code. With every group
  non-empty, K <= J <= N holds in the other two branches anyway. So the
  model's `DistributeGroups` contract states `Ok` exactly when every group is
  non-empty and `2 <= K <= N`.

## Model

| member | source | states |
|---|---|---|
| Distribute.ExpandSizes | epstan/util.py:571-574 | An integer size becomes J equal sizes, with an error for negative J. An array is kept exactly when its length is J; otherwise the error is `InvalidShape`. |
| Distribute.DistributeGroups | epstan/util.py:570-639 | Shape errors are passed through. `EmptyGroup`, `TooFewSites` and `TooManySites` are raised in the order of the checks. The result is `Ok` exactly when every group is non-empty and 2 <= K <= N. The branch taken follows the comparison of K with J: the merge shape, `Nj` itself, or the split shape. In all branches there are K sites holding all N samples. |
| Distribute.AdjacentSums | epstan/util.py:587 | `Nj[:-1] + Nj[1:]` has one entry fewer than `Nj`; `InitialMergeInv` and `MergeStepMergesSmallestPair` state it is the neighbour sums. |
| Distribute.InitialMerge | epstan/util.py:586-588 | The starting lists: `Nk` and `Nj_k` have J entries, `Njd` one fewer; `InitialMergeInv` states they satisfy the merge invariant. |
| Distribute.BumpPairSums | epstan/util.py:591-594 | The two conditional in-place additions keep the length of `Njd` and leave the merged pair's own sum untouched; `BumpPairSumsAt` states entry by entry what they add. |
| Distribute.MergeStep | epstan/util.py:590-599 | One loop body removes one entry from each of `Nk`, `Njd` and `Nj_k`; `MergeStepMergesSmallestPair` and `MergeStepKeepsInv` state which pair it merges and what it preserves. |
| Distribute.FirstArgMin | epstan/util.py:590 | `Njd.index(min(Njd))`: an entry no larger than any other and strictly smaller than every earlier one. |
| Distribute.MergeStepMergesSmallestPair | epstan/util.py:589-599 | One round picks the first neighbouring pair of smallest combined size. It merges that pair in `Nk` and in `Nj_k`. After the two in-place additions and the pop, `Njd` is again the neighbour sums of the new `Nk`. |
| Distribute.MergeStepKeepsInv | epstan/util.py:589-599 | A round keeps four facts: the `Njd` pairing, every site holding at least one group, the groups per site summing to J, and every site's size being the total of its contiguous block of groups. |
| Distribute.InitialMergeInv | epstan/util.py:585-588 | The starting lists (`Nk = Nj`, `Njd` the neighbour sums, `Nj_k` all ones) satisfy that invariant. |
| Distribute.MergeRounds | epstan/util.py:589-599 | After n rounds the invariant still holds and n sites fewer remain. |
| Distribute.MergePairLimits | epstan/util.py:598-599 | Merging two neighbouring counts drops one interior boundary from their cumulative limits. |
| Distribute.BlockSumsTotal | epstan/util.py:600 | Block totals add up to the total of the groups covered, so `sum(Nk) == N`. |
| Distribute.MergeGroups | epstan/util.py:585-608 | K sites with at least one group each. The groups per site sum to J. `Nk[k]` is the total of site k's contiguous block. The sizes sum to N. There is one within-site index per sample. |
| Distribute.WithinSiteIndex | epstan/util.py:602-607 | One index per sample; `WithinSiteIndexFill` states it is what the filling loop writes and `WithinSiteIndexBounds` bounds it. |
| Distribute.WithinSiteIndexFill | epstan/util.py:602-607 | Every sample of the ji-th group of site k, that is the range `j_lim[k_lim[k]+ji]` to `j_lim[k_lim[k]+ji+1]`, gets index ji. So the index is constant over each group's samples. |
| Distribute.WithinSiteIndexBounds | epstan/util.py:602-607 | Every sample's within-site index lies in `[0, Nj_k[k])` for the site k holding its group. |
| Distribute.ArgMaxRatioBefore | epstan/util.py:621 | Among the first n groups: the first one whose ratio `Nj/ppg` is largest, compared exactly. |
| Distribute.FirstArgMaxRatio | epstan/util.py:619-621 | `Nj2.argmax()`: no ratio exceeds the chosen one, and every earlier ratio is strictly smaller. |
| Distribute.PartStep | epstan/util.py:620-623 | One round keeps J positive part counts; `PartStepBounded` states it adds one part without over-splitting, and `FirstArgMaxRatio` which group gets it. |
| Distribute.PartStepBounded | epstan/util.py:620-623 | While there are fewer parts than samples, a round adds exactly one part, and no group gets more parts than it has samples. |
| Distribute.PartRounds | epstan/util.py:618-623 | After n rounds every group still has at least one part, and the parts total `sum(ppg) + n`. Starting within bounds and with at most N parts, no group ends with more parts than samples. |
| Distribute.GroupParts | epstan/util.py:624-635 | A group of n samples split p ways gives p parts that sum to n. |
| Distribute.GroupPartsSizes | epstan/util.py:624-634 | Every part holds `n // p` or `n // p + 1` samples, and none is empty when p <= n. |
| Distribute.BalancedSum | epstan/util.py:629-635 | `count` parts of size `base`, `extra` of them one larger, total `count*base + extra`. |
| Distribute.GroupPartsBalanced | epstan/util.py:624-635 | The parts of one group differ in size by at most one. |
| Distribute.SplitSizes | epstan/util.py:627-635 | `Nk` has `sum(ppg)` entries and sums to N. No site is empty when no group has more parts than samples. |
| Distribute.SplitSizesBlocks | epstan/util.py:627-635 | The `ppg[j]` sites of group j are consecutive, in group order. They hold `Nj[j] // ppg[j]` each, plus one for the first `Nj[j] % ppg[j]`. |
| Distribute.SplitBlocksBalanced | epstan/util.py:624-636 | Two sites that split the same group differ in size by at most one. |
| Distribute.SplitGroups | epstan/util.py:615-636 | Every group gets at least one and at most `Nj[j]` parts, K parts in all. There are K non-empty sites holding N samples, each group's sites consecutive and evenly divided. |
| Packed.PackedLength | epstan/util.py:378-381 | Both parity branches compute d(d+1)/2. |
| Packed.PackedLengthCountsTriangle | epstan/util.py:378-381 | `d2` is the number of entries in the upper triangle, diagonal included, of a d-by-d matrix. |
| Prefix.Limits | experiment/models/m1a.py:133 | `j_lim` has J+1 entries. It starts at 0, its steps are the group sizes, and it ends at N. |
| Prefix.LimitsUnique | experiment/models/m1a.py:133 | Any sequence that starts at 0 and steps by the group sizes is `j_lim`. |
| Prefix.LimitsSlice | experiment/models/m1a.py:133 | The difference of two limits is the total of the groups between them. |
| Prefix.GroupIndex | experiment/models/m1a.py:135-137 | `j_ind` has N entries, each a valid group number. |
| Prefix.GroupIndexRanges | experiment/models/m1a.py:133-137 | `j_ind[n] == j` exactly when `j_lim[j] <= n < j_lim[j+1]`. |
| Model1a.SimulatedGrouping | experiment/models/m1a.py:131-137 | The simulated data's limits start at 0, step by `Nj` and end at N. `j_ind[n] == j` exactly when sample n lies in group j's range. |
| Model1a.LocalLimits | experiment/models/m1a.py:249 | `j_lim[lo:hi+1] - j_lim[lo]` has hi-lo+1 entries, each the shifted global limit; `LocalLimitsAreGroupLimits` states they are the limits of groups lo..hi. |
| Model1a.LocalLimitsAreGroupLimits | experiment/models/m1a.py:249 | `j_lim[k_lim[k]:k_lim[k+1]+1] - start` are the limits of exactly the site's own groups. |
| Model1a.BlockLik | experiment/models/m1a.py:242-249 | Site k's `_lik` arguments carry `Nj_k[k]` groups and `Nj_k[k]+1` local limits; `BlockLikSlice` states the slice length and the limits themselves. |
| Model1a.BlockLiks | experiment/models/m1a.py:239-251 | The merge branch's loop gives one slice per site, from `j_lim[k_lim[k]]` to `j_lim[k_lim[k+1]]`. The slices abut. |
| Model1a.BlockLikSlice | experiment/models/m1a.py:242-249 | Site k's slice has length `Nk[k]`, `Nj_k[k]` groups, and the local limits of its block. |
| Model1a.MergedLiks | experiment/models/m1a.py:238-251 | The merge branch's slices abut and cover `[0, N)`. Each has length `Nk[k]` and starts at its block's first limit. |
| Model1a.OneToOneLiks | experiment/models/m1a.py:253-266 | Site k's slice is exactly group k's range, with one group and local limits `[0, end-start]`. The slices cover `[0, N)`. |
| Model1a.OneToOneSlice | experiment/models/m1a.py:257-264 | `[0, end-start]` are the limits of group k alone, and the slice holds `Nj[k]` samples. |
| Model1a.GetLiks | experiment/models/m1a.py:231-273 | `K < 2`, unimplemented splitting (`J < K <= N`) and `K > N` are refused. A merge succeeds exactly when `distribute_groups` does. On success the K slices tile `[0, N)`, and each matches its site in the assignment. |
| Scenarios.MergeExample | epstan/util.py:585-599 | For sizes 1, 2, 3 on two sites, the first pair is merged, giving `Nk = [3, 3]` and `Nj_k = [2, 1]`. |
| Scenarios.MergeTieExample | epstan/util.py:589-599 | Five groups of 10 on three sites: ties go to the first pair, giving `Nk = [20, 20, 10]` and `Nj_k = [2, 2, 1]`. |
| Scenarios.SplitExample | epstan/util.py:618-623 | For sizes 12 and 3 on five sites, the larger group takes all three extra parts: `ppg = [4, 1]`. |
| Scenarios.SplitSizesExample | epstan/util.py:624-635 | Sizes 12 and 3 split 4 and 1 ways give five sites of 3 samples each. |

## Left out

- Floating point:
  - the matrix routines (`invert_normal_params`, `olse`, `cv_moments` apart from `d2`, `_cv_estim`) are dense linear algebra whose results hold only up to rounding;
  - the rounding of `Nj/ppg` in the split loop. The model compares ratios exactly. Two ratios that are distinct but round to the same float could make the code pick a different group.
- The compiled helpers (`copy_triu_to_tril`, `auto_outer`, `ravel_triu`, `unravel_triu`, `fro_norm_squared`). They are not part of this model.
- The Stan plumbing, the pickling and file I/O, the captured-output parsing, and the multiprocessing helpers. They are I/O and process control.
- Randomness in the m1a simulation:
  - `Nj` drawn with `randint`. The model takes `Nj` as given: any sequence of non-negative sizes.
  - the covariates, responses and parameters. They are random and real-valued.
- `_lik`. The model records only the arguments `get_liks` passes to it. `X` and `y` are represented by the sample range `[start, end)` they are sliced with.
- `GetLiks`: requires its data to be what `simulate_data` builds from `Nj` (`j_lim` and `j_ind` as constructed there). The data class itself is not part of this model, and `data.N` is taken to be `sum(Nj)`.
- Integer widths: sizes and counts are unbounded integers. The `int64` sizes and the `int32` within-site index never wrap around in the model.
- The multi-dimensional `Nj` arrays, other than through `InvalidShape`. The model's array argument is a sequence, so a non-vector shape has no counterpart.
- A numpy integer scalar as `Nj`. The `isinstance(Nj, int)` test is modelled only as the choice between the `Constant` and `PerGroup` argument forms.
