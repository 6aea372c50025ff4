/** `distribute_groups` (epstan/util.py): assigns J contiguous data groups of
    sizes `Nj` to K computation sites. Fewer sites than groups merges adjacent
    groups greedily, as many sites as groups is the identity, and more sites
    than groups splits groups into nearly equal parts. */
module Distribute {
  import opened Wrappers
  import opened Prefix

  /** The `Nj` argument: one size for every group, or a vector of sizes. */
  datatype GroupSizes = Constant(size: int) | PerGroup(sizes: seq<int>)

  /** The `ValueError`s raised by the argument checks. */
  datatype ConfigError =
    | NegativeGroupCount  // an integer `Nj` with J < 0: `np.ones(J)` rejects it
    | InvalidShape        // `Nj` is a vector whose length is not J
    | EmptyGroup          // some group has no items
    | TooFewSites         // K < 2
    | TooManySites        // more sites than samples

  /** What the three branches return. */
  datatype Assignment =
      /** K < J: samples per site, groups per site, within-site group index
          of every sample. */
    | Merged(samplesPerSite: seq<int>, groupsPerSite: seq<int>, withinSiteIndex: seq<int>)
      /** K == J: the group sizes themselves; the other two results are None. */
    | OneToOne(samplesPerSite: seq<int>)
      /** K > J: samples per site and sites per group. */
    | Split(samplesPerSite: seq<int>, sitesPerGroup: seq<int>)

  // ---------------------------------------------------------------------
  //  Argument checks
  // ---------------------------------------------------------------------

  /** The group-size vector the checks and branches work on. */
  function ExpandSizes(J: int, sizes: GroupSizes): (r: Result<seq<int>, ConfigError>)
    ensures r.Ok? ==> |r.value| == J
    ensures sizes.Constant? ==> (r.Ok? <==> J >= 0)
    ensures sizes.Constant? && r.Ok? ==> forall j :: 0 <= j < J ==> r.value[j] == sizes.size
    ensures sizes.PerGroup? ==> (r.Ok? <==> |sizes.sizes| == J)
    ensures sizes.PerGroup? && r.Ok? ==> r.value == sizes.sizes
    ensures r.Err? ==> r.error == (if sizes.Constant? then NegativeGroupCount else InvalidShape)
  {
    match sizes
    case Constant(c) => if J < 0 then Err(NegativeGroupCount) else Ok(seq(J, _ => c))
    case PerGroup(s) => if |s| != J then Err(InvalidShape) else Ok(s)
  }

  // ---------------------------------------------------------------------
  //  K < J: merge adjacent groups
  // ---------------------------------------------------------------------

  /** `s.index(min(s))`: the first position of the smallest entry. */
  function FirstArgMin(s: seq<int>): (i: nat)
    requires |s| > 0
    ensures i < |s|
    ensures forall j :: 0 <= j < |s| ==> s[i] <= s[j]
    ensures forall j :: 0 <= j < i ==> s[i] < s[j]
  {
    if |s| == 1 then 0
    else
      var t := FirstArgMin(s[..|s| - 1]);
      if s[|s| - 1] < s[t] then |s| - 1 else t
  }

  /** The combined sizes of neighbouring entries, `Nj[:-1] + Nj[1:]`. */
  function AdjacentSums(s: seq<int>): (r: seq<int>)
    requires |s| >= 1
    ensures |r| == |s| - 1
  {
    seq(|s| - 1, i requires 0 <= i < |s| - 1 => s[i] + s[i + 1])
  }

  /** Entries i and i+1 replaced by their sum. */
  function MergePair(s: seq<int>, i: int): (r: seq<int>)
    requires 0 <= i < |s| - 1
    ensures |r| == |s| - 1
    ensures forall j {:trigger r[j]} :: 0 <= j < |r| ==>
      r[j] == (if j < i then s[j] else if j == i then s[i] + s[i + 1] else s[j + 1])
  {
    s[..i] + [s[i] + s[i + 1]] + s[i + 2..]
  }

  /** `s` with entry i dropped (`list.pop(i)`). */
  function RemoveAt(s: seq<int>, i: int): (r: seq<int>)
    requires 0 <= i < |s|
    ensures |r| == |s| - 1
    ensures forall j {:trigger r[j]} :: 0 <= j < |r| ==> r[j] == (if j < i then s[j] else s[j + 1])
  {
    s[..i] + s[i + 1..]
  }

  /** The loop state of the merge: sizes of the current sites `Nk`, the
      combined sizes of neighbouring sites `Njd`, groups per site `Nj_k`. */
  datatype MergeState = MergeState(nk: seq<int>, njd: seq<int>, njk: seq<int>)

  /** Merging keeps `Njd` as the adjacent sums of `Nk`. */
  predicate Paired(st: MergeState)
  {
    |st.nk| >= 1 && |st.njk| == |st.nk| && st.njd == AdjacentSums(st.nk)
  }

  /** `size` is the total of the groups `lo` up to (excluding) `hi`. */
  predicate BlockSum(nj: seq<int>, lo: int, hi: int, size: int)
  {
    0 <= lo <= hi <= |nj| && size == Sum(nj[lo..hi])
  }

  /** Site k holds the k-th contiguous block of `groups[k]` original groups,
      and `sizes[k]` is the total of that block. */
  predicate BlockSums(nj: seq<int>, groups: seq<int>, sizes: seq<int>)
  {
    && |sizes| == |groups|
    && forall k {:trigger sizes[k]} :: 0 <= k < |groups| ==>
         BlockSum(nj, Limits(groups)[k], Limits(groups)[k + 1], sizes[k])
  }

  /** What every round of the merge keeps. */
  predicate MergeInv(nj: seq<int>, st: MergeState)
  {
    && Paired(st)
    && AllPositive(st.njk)
    && Sum(st.njk) == |nj|
    && BlockSums(nj, st.njk, st.nk)
  }

  /** The two in-place additions to `Njd` before the merged pair's own sum
      is dropped: the pair after gains `Nk[ind]`, the pair before gains
      `Nk[ind+1]`. */
  function BumpPairSums(njd: seq<int>, nk: seq<int>, ind: int): (r: seq<int>)
    requires 0 <= ind < |njd| && |nk| == |njd| + 1
    ensures |r| == |njd| && r[ind] == njd[ind]
  {
    var njd1 := if ind + 1 < |njd| then njd[ind + 1 := njd[ind + 1] + nk[ind]] else njd;
    if ind > 0 then njd1[ind - 1 := njd1[ind - 1] + nk[ind + 1]] else njd1
  }

  /** One round of the merge loop, with the list updates in the order the
      loop body performs them. */
  function MergeStep(st: MergeState): (r: MergeState)
    requires |st.njd| >= 1 && |st.nk| == |st.njd| + 1 && |st.njk| == |st.nk|
    ensures |r.nk| == |st.nk| - 1 && |r.njd| == |st.njd| - 1 && |r.njk| == |st.njk| - 1
  {
    var ind := FirstArgMin(st.njd);
    var njd2 := BumpPairSums(st.njd, st.nk, ind);
    var nk1 := st.nk[ind := njd2[ind]];
    var njk1 := st.njk[ind := st.njk[ind] + st.njk[ind + 1]];
    MergeState(RemoveAt(nk1, ind + 1), RemoveAt(njd2, ind), RemoveAt(njk1, ind + 1))
  }

  /** Overwriting entry i with the pair's sum and dropping entry i+1 merges
      the pair. */
  lemma UpdateThenRemove(s: seq<int>, i: int, v: int)
    requires 0 <= i < |s| - 1 && v == s[i] + s[i + 1]
    ensures RemoveAt(s[i := v], i + 1) == MergePair(s, i)
  {
    var a := RemoveAt(s[i := v], i + 1);
    var b := MergePair(s, i);
    forall j | 0 <= j < |a|
      ensures a[j] == b[j]
    {
    }
  }

  /** Entry by entry, what `BumpPairSums` adds. */
  lemma BumpPairSumsAt(njd: seq<int>, nk: seq<int>, ind: int)
    requires 0 <= ind < |njd| && |nk| == |njd| + 1
    ensures var b := BumpPairSums(njd, nk, ind);
      && |b| == |njd|
      && forall i {:trigger b[i]} :: 0 <= i < |b| ==>
           b[i] == njd[i] + (if i == ind + 1 then nk[ind] else 0) + (if i == ind - 1 then nk[ind + 1] else 0)
  {
  }

  /** Adding the merged sites' sizes to the two neighbouring pair sums and
      dropping the merged pair's own sum yields the pair sums after the merge. */
  lemma NeighbourSumsAfterMerge(nk: seq<int>, njd2: seq<int>, ind: int)
    requires |nk| >= 2 && 0 <= ind < |nk| - 1 && |njd2| == |nk| - 1
    requires forall i {:trigger njd2[i]} :: 0 <= i < |njd2| ==>
      njd2[i] == nk[i] + nk[i + 1] + (if i == ind + 1 then nk[ind] else 0) + (if i == ind - 1 then nk[ind + 1] else 0)
    ensures RemoveAt(njd2, ind) == AdjacentSums(MergePair(nk, ind))
  {
    var a := RemoveAt(njd2, ind);
    var m := MergePair(nk, ind);
    var b := AdjacentSums(m);
    forall i | 0 <= i < |a|
      ensures a[i] == b[i]
    {
      if i < ind {
        assert a[i] == njd2[i];
        assert m[i] == nk[i];
        if i + 1 < ind {
          assert m[i + 1] == nk[i + 1];
        } else {
          assert m[i + 1] == nk[ind] + nk[ind + 1];
        }
      } else {
        assert a[i] == njd2[i + 1];
        assert m[i + 1] == nk[i + 2];
        if i == ind {
          assert m[i] == nk[ind] + nk[ind + 1];
        } else {
          assert m[i] == nk[i + 1];
        }
      }
    }
  }

  /** The pair a round merges: the first neighbouring pair of smallest
      combined size. */
  lemma MergeStepChoice(st: MergeState)
    requires Paired(st) && |st.nk| >= 2
    ensures var ind := FirstArgMin(st.njd);
      && (forall i :: 0 <= i < |st.njd| ==> st.nk[ind] + st.nk[ind + 1] <= st.nk[i] + st.nk[i + 1])
      && (forall i :: 0 <= i < ind ==> st.nk[ind] + st.nk[ind + 1] < st.nk[i] + st.nk[i + 1])
  {
    var ind := FirstArgMin(st.njd);
    forall i | 0 <= i < |st.njd|
      ensures st.njd[i] == st.nk[i] + st.nk[i + 1]
    {
    }
  }

  /** In `Nk` and `Nj_k` a round merges the chosen pair. */
  lemma MergeStepSites(st: MergeState)
    requires Paired(st) && |st.nk| >= 2
    ensures MergeStep(st).nk == MergePair(st.nk, FirstArgMin(st.njd))
    ensures MergeStep(st).njk == MergePair(st.njk, FirstArgMin(st.njd))
  {
    var ind := FirstArgMin(st.njd);
    var njd2 := BumpPairSums(st.njd, st.nk, ind);
    BumpPairSumsAt(st.njd, st.nk, ind);
    assert njd2[ind] == st.njd[ind] == st.nk[ind] + st.nk[ind + 1];
    UpdateThenRemove(st.nk, ind, njd2[ind]);
    UpdateThenRemove(st.njk, ind, st.njk[ind] + st.njk[ind + 1]);
  }

  /** The in-place updates of `Njd` leave the adjacent sums of the merged `Nk`. */
  lemma MergeStepNeighbourSums(st: MergeState)
    requires Paired(st) && |st.nk| >= 2
    ensures MergeStep(st).njd == AdjacentSums(MergePair(st.nk, FirstArgMin(st.njd)))
  {
    var ind := FirstArgMin(st.njd);
    var njd2 := BumpPairSums(st.njd, st.nk, ind);
    BumpPairSumsAt(st.njd, st.nk, ind);
    forall i | 0 <= i < |njd2|
      ensures njd2[i] == st.nk[i] + st.nk[i + 1] + (if i == ind + 1 then st.nk[ind] else 0) + (if i + 1 == ind then st.nk[ind + 1] else 0)
    {
      assert st.njd[i] == st.nk[i] + st.nk[i + 1];
    }
    NeighbourSumsAfterMerge(st.nk, njd2, ind);
  }

  /** A round merges the first neighbouring pair of smallest combined size,
      in `Nk` and in `Nj_k` alike, and its in-place updates of `Njd` leave it
      equal to the adjacent sums of the new `Nk`. */
  lemma MergeStepMergesSmallestPair(st: MergeState)
    requires Paired(st) && |st.nk| >= 2
    ensures var ind := FirstArgMin(st.njd);
      && (forall i :: 0 <= i < |st.njd| ==> st.nk[ind] + st.nk[ind + 1] <= st.nk[i] + st.nk[i + 1])
      && (forall i :: 0 <= i < ind ==> st.nk[ind] + st.nk[ind + 1] < st.nk[i] + st.nk[i + 1])
      && MergeStep(st).nk == MergePair(st.nk, ind)
      && MergeStep(st).njk == MergePair(st.njk, ind)
      && MergeStep(st).njd == AdjacentSums(MergeStep(st).nk)
  {
    MergeStepChoice(st);
    MergeStepSites(st);
    MergeStepNeighbourSums(st);
  }

  /** Summing two neighbouring entries keeps the total. */
  lemma MergePairSum(s: seq<int>, i: int)
    requires 0 <= i < |s| - 1
    ensures Sum(MergePair(s, i)) == Sum(s)
  {
    SumConcat(s[..i] + [s[i] + s[i + 1]], s[i + 2..]);
    SumSnoc(s[..i], s[i] + s[i + 1]);
    SumSplitAt(s, i + 2);
    SumPrefixStep(s, i + 1);
    SumPrefixStep(s, i);
  }

  /** Merging two neighbouring counts removes the limit between them. */
  lemma MergePairLimits(s: seq<int>, i: int)
    requires 0 <= i < |s| - 1
    ensures Limits(MergePair(s, i)) == RemoveAt(Limits(s), i + 1)
  {
    MergePairSteps(s, Limits(s), i);
  }

  /** Dropping limit i+1 from limits whose steps are `s` leaves the limits
      of the merged sizes. */
  lemma MergePairSteps(s: seq<int>, l: seq<int>, i: int)
    requires 0 <= i < |s| - 1
    requires |l| == |s| + 1 && l[0] == 0
    requires forall j {:trigger s[j]} :: 0 <= j < |s| ==> l[j + 1] - l[j] == s[j]
    ensures RemoveAt(l, i + 1) == Limits(MergePair(s, i))
  {
    var m := MergePair(s, i);
    var b := RemoveAt(l, i + 1);
    forall j | 0 <= j < |m|
      ensures b[j + 1] - b[j] == m[j]
    {
      if j < i {
        assert b[j] == l[j] && b[j + 1] == l[j + 1] && m[j] == s[j];
      } else if j == i {
        assert b[j] == l[j] && b[j + 1] == l[j + 2] && m[j] == s[j] + s[j + 1];
        assert s[j + 1] == l[j + 2] - l[j + 1];
      } else {
        assert b[j] == l[j + 1] && b[j + 1] == l[j + 2] && m[j] == s[j + 1];
      }
    }
    assert b[0] == 0;
    LimitsUnique(m, b);
  }

  /** Merging two positive neighbours keeps every entry positive. */
  lemma MergePairPositive(s: seq<int>, i: int)
    requires 0 <= i < |s| - 1 && AllPositive(s)
    ensures AllPositive(MergePair(s, i))
  {
    var m := MergePair(s, i);
    forall k | 0 <= k < |m|
      ensures m[k] > 0
    {
      if k == i {
        assert s[k] > 0 && s[k + 1] > 0;
      } else if k > i {
        assert m[k] == s[k + 1];
      } else {
        assert m[k] == s[k];
      }
    }
  }

  /** Merging two neighbouring blocks in both the groups and the sizes keeps
      every size the total of its block. */
  lemma MergePairBlocks(nj: seq<int>, groups: seq<int>, sizes: seq<int>, i: int)
    requires BlockSums(nj, groups, sizes) && 0 <= i < |groups| - 1
    ensures BlockSums(nj, MergePair(groups, i), MergePair(sizes, i))
  {
    var g := MergePair(groups, i);
    var z := MergePair(sizes, i);
    var kl := Limits(groups);
    var kl' := Limits(g);
    MergePairLimits(groups, i);
    forall k | 0 <= k < |g|
      ensures BlockSum(nj, kl'[k], kl'[k + 1], z[k])
    {
      assert BlockSum(nj, kl[k], kl[k + 1], sizes[k]);
      if k < i {
        assert kl'[k] == kl[k] && kl'[k + 1] == kl[k + 1] && z[k] == sizes[k];
      } else if k == i {
        assert kl'[k] == kl[k] && kl'[k + 1] == kl[k + 2];
        assert BlockSum(nj, kl[k + 1], kl[k + 2], sizes[k + 1]);
        SumSliceSplit(nj, kl[k], kl[k + 1], kl[k + 2]);
      } else {
        assert kl'[k] == kl[k + 1] && kl'[k + 1] == kl[k + 2] && z[k] == sizes[k + 1];
        assert BlockSum(nj, kl[k + 1], kl[k + 2], sizes[k + 1]);
      }
    }
  }

  /** A round keeps the merge invariant. */
  lemma MergeStepKeepsInv(nj: seq<int>, st: MergeState)
    requires MergeInv(nj, st) && |st.nk| >= 2
    ensures MergeInv(nj, MergeStep(st))
  {
    var ind := FirstArgMin(st.njd);
    MergeStepMergesSmallestPair(st);
    MergePairSum(st.njk, ind);
    MergePairPositive(st.njk, ind);
    MergePairBlocks(nj, st.njk, st.nk, ind);
  }

  /** The state before the first round: every group is its own site. */
  function InitialMerge(nj: seq<int>): (st: MergeState)
    requires |nj| >= 1
    ensures |st.nk| == |st.njk| == |nj| && |st.njd| == |nj| - 1
  {
    MergeState(nj, AdjacentSums(nj), seq(|nj|, _ => 1))
  }

  lemma {:induction false} OnesSum(n: nat)
    ensures Sum(seq(n, _ => 1)) == n
    ensures Limits(seq(n, _ => 1)) == seq(n + 1, i => i)
  {
    if n > 0 {
      assert seq(n, _ => 1)[..n - 1] == seq(n - 1, _ => 1);
      OnesSum(n - 1);
    }
  }

  lemma InitialMergeInv(nj: seq<int>)
    requires |nj| >= 1
    ensures MergeInv(nj, InitialMerge(nj))
  {
    OnesSum(|nj|);
    forall k | 0 <= k < |nj|
      ensures BlockSum(nj, k, k + 1, nj[k])
    {
      assert nj[k..k + 1][..0] == [];
    }
  }

  /** `n` rounds of the merge loop; each round removes one site. */
  function MergeRounds(nj: seq<int>, st: MergeState, n: nat): (r: MergeState)
    requires MergeInv(nj, st) && n < |st.nk|
    ensures MergeInv(nj, r)
    ensures |r.nk| == |st.nk| - n
    decreases n
  {
    if n == 0 then st
    else
      MergeStepKeepsInv(nj, st);
      MergeRounds(nj, MergeStep(st), n - 1)
  }

  /** The within-site group index of every sample: its group's position
      among the groups of its site, `ki - k_lim[k]`. The site of group g is
      `GroupIndex(groupsPerSite)[g]`, as sites hold contiguous blocks. */
  function WithinSiteIndex(nj: seq<int>, groupsPerSite: seq<int>): (r: seq<int>)
    requires AllNonNegative(nj) && AllNonNegative(groupsPerSite)
    requires Sum(groupsPerSite) == |nj|
    ensures |r| == Sum(nj)
  {
    var group := GroupIndex(nj);
    var site := GroupIndex(groupsPerSite);
    var kLim := Limits(groupsPerSite);
    seq(|group|, n requires 0 <= n < |group| => group[n] - kLim[site[group[n]]])
  }

  /** Sample n belongs to the ji-th group of site k. */
  predicate SiteGroupSample(nj: seq<int>, groupsPerSite: seq<int>, k: int, ji: int, n: int)
  {
    && 0 <= k < |groupsPerSite|
    && 0 <= ji < groupsPerSite[k]
    && 0 <= Limits(groupsPerSite)[k] + ji < |nj|
    && Between(Limits(nj), n, Limits(groupsPerSite)[k] + ji)
  }

  /** The within-site index is what the filling loop writes: every sample of
      the ji-th group of site k gets ji. */
  lemma WithinSiteIndexFill(nj: seq<int>, groupsPerSite: seq<int>)
    requires AllNonNegative(nj) && AllPositive(groupsPerSite)
    requires Sum(groupsPerSite) == |nj|
    ensures var r := WithinSiteIndex(nj, groupsPerSite);
      forall k, ji, n :: SiteGroupSample(nj, groupsPerSite, k, ji, n) ==> 0 <= n < |r| && r[n] == ji
  {
    var r := WithinSiteIndex(nj, groupsPerSite);
    var kLim := Limits(groupsPerSite);
    forall k, ji, n | SiteGroupSample(nj, groupsPerSite, k, ji, n)
      ensures 0 <= n < |r| && r[n] == ji
    {
      var g := kLim[k] + ji;
      GroupIndexOf(nj, n, g);
      assert kLim[k + 1] - kLim[k] == groupsPerSite[k];
      GroupIndexOf(groupsPerSite, g, k);
    }
  }

  /** Every sample's within-site index lies in `[0, groupsPerSite[k])` for
      the site k holding its group. */
  lemma WithinSiteIndexBounds(nj: seq<int>, groupsPerSite: seq<int>)
    requires AllNonNegative(nj) && AllNonNegative(groupsPerSite)
    requires Sum(groupsPerSite) == |nj|
    ensures var r := WithinSiteIndex(nj, groupsPerSite);
      forall n :: 0 <= n < |r| ==>
        0 <= r[n] < groupsPerSite[GroupIndex(groupsPerSite)[GroupIndex(nj)[n]]]
  {
    var r := WithinSiteIndex(nj, groupsPerSite);
    GroupIndexRanges(groupsPerSite);
    var kLim := Limits(groupsPerSite);
    forall n | 0 <= n < |r|
      ensures 0 <= r[n] < groupsPerSite[GroupIndex(groupsPerSite)[GroupIndex(nj)[n]]]
    {
      var g := GroupIndex(nj)[n];
      var k := GroupIndex(groupsPerSite)[g];
      assert Between(Limits(groupsPerSite), g, k);
      assert kLim[k + 1] - kLim[k] == groupsPerSite[k];
    }
  }

  /** Summing the block totals gives the total of the groups the blocks
      cover. */
  lemma {:induction false} BlockSumsTotal(nj: seq<int>, groups: seq<int>, sizes: seq<int>)
    requires BlockSums(nj, groups, sizes)
    ensures 0 <= Limits(groups)[|groups|] <= |nj| && Sum(sizes) == Sum(nj[..Limits(groups)[|groups|]])
  {
    var kl := Limits(groups);
    if |groups| == 0 {
      assert nj[..0] == [];
    } else {
      var m := |groups| - 1;
      assert kl == Limits(groups[..m]) + [kl[m + 1]];
      assert BlockSum(nj, kl[m], kl[m + 1], sizes[m]);
      assert BlockSums(nj, groups[..m], sizes[..m]) by {
        forall k | 0 <= k < m
          ensures BlockSum(nj, Limits(groups[..m])[k], Limits(groups[..m])[k + 1], sizes[..m][k])
        {
          assert BlockSum(nj, kl[k], kl[k + 1], sizes[k]);
        }
      }
      BlockSumsTotal(nj, groups[..m], sizes[..m]);
      assert sizes[..m + 1] == sizes;
      SumPrefixStep(sizes, m);
      SumSliceSplit(nj, 0, kl[m], kl[m + 1]);
      assert nj[0..kl[m]] == nj[..kl[m]];
      assert nj[0..kl[m + 1]] == nj[..kl[m + 1]];
    }
  }

  /** What the merge branch returns: K sites, each holding a contiguous
      non-empty block of groups, all J groups placed, every site's size the
      total of its block, and the within-site index of every sample. */
  predicate MergeShape(nj: seq<int>, K: int, a: Assignment)
  {
    && a.Merged?
    && AllNonNegative(nj)
    && |a.samplesPerSite| == K && |a.groupsPerSite| == K
    && AllPositive(a.groupsPerSite) && Sum(a.groupsPerSite) == |nj|
    && BlockSums(nj, a.groupsPerSite, a.samplesPerSite)
    && Sum(a.samplesPerSite) == Sum(nj)
    && a.withinSiteIndex == WithinSiteIndex(nj, a.groupsPerSite)
  }

  /** The merge branch (K < J): J - K rounds starting from one group per
      site, then the within-site index. */
  function MergeGroups(nj: seq<int>, K: int): (a: Assignment)
    requires AllPositive(nj) && 2 <= K < |nj|
    ensures MergeShape(nj, K, a)
    ensures |a.withinSiteIndex| == Sum(nj)
  {
    InitialMergeInv(nj);
    var st := MergeRounds(nj, InitialMerge(nj), |nj| - K);
    BlockSumsTotal(nj, st.njk, st.nk);
    assert nj[..|nj|] == nj;
    Merged(st.nk, st.njk, WithinSiteIndex(nj, st.njk))
  }

  // ---------------------------------------------------------------------
  //  K > J: split groups into parts
  // ---------------------------------------------------------------------

  lemma MulStrict(a: int, b: int, c: int)
    requires a < b && c > 0
    ensures a * c < b * c
  {
  }

  lemma MulMono(a: int, b: int, c: int)
    requires a <= b && c > 0
    ensures a * c <= b * c
  {
  }

  lemma MulCancelStrict(a: int, b: int, c: int)
    requires a * c < b * c && c > 0
    ensures a < b
  {
    if b <= a {
      MulMono(b, a, c);
    }
  }

  /** Comparing samples-per-part ratios `n/p` by cross-multiplication is
      transitive: n1/p1 <= n2/p2 < n3/p3 gives n1/p1 < n3/p3. */
  lemma RatioTrans(n1: int, p1: int, n2: int, p2: int, n3: int, p3: int)
    requires p1 > 0 && p2 > 0 && p3 > 0
    requires n1 * p2 <= n2 * p1 && n2 * p3 < n3 * p2
    ensures n1 * p3 < n3 * p1
  {
    MulMono(n1 * p2, n2 * p1, p3);
    MulStrict(n2 * p3, n3 * p2, p1);
    assert n1 * p2 * p3 == (n1 * p3) * p2;
    assert n2 * p1 * p3 == n2 * p3 * p1;
    assert n3 * p2 * p1 == (n3 * p1) * p2;
    MulCancelStrict(n1 * p3, n3 * p1, p2);
  }

  /** An entry with a strictly larger ratio than the maximum of the entries
      before it beats every one of them. */
  lemma NewRatioMaximum(nj: seq<int>, ppg: seq<int>, t: int, n: int)
    requires |nj| == |ppg| && AllPositive(ppg)
    requires 0 <= t < n < |nj|
    requires forall j :: 0 <= j < n ==> nj[j] * ppg[t] <= nj[t] * ppg[j]
    requires nj[n] * ppg[t] > nj[t] * ppg[n]
    ensures forall j :: 0 <= j < n ==> nj[j] * ppg[n] < nj[n] * ppg[j]
  {
    forall j | 0 <= j < n
      ensures nj[j] * ppg[n] < nj[n] * ppg[j]
    {
      RatioTrans(nj[j], ppg[j], nj[t], ppg[t], nj[n], ppg[n]);
    }
  }

  /** The first of the entries before `n` whose samples-per-part ratio is
      largest, the ratios compared exactly. */
  function ArgMaxRatioBefore(nj: seq<int>, ppg: seq<int>, n: int): (m: nat)
    requires |nj| == |ppg| && AllPositive(ppg) && 0 < n <= |nj|
    ensures m < n
    ensures forall j :: 0 <= j < n ==> nj[j] * ppg[m] <= nj[m] * ppg[j]
    ensures forall j :: 0 <= j < m ==> nj[j] * ppg[m] < nj[m] * ppg[j]
  {
    if n == 1 then 0
    else
      var t := ArgMaxRatioBefore(nj, ppg, n - 1);
      if nj[n - 1] * ppg[t] > nj[t] * ppg[n - 1] then
        NewRatioMaximum(nj, ppg, t, n - 1);
        n - 1
      else t
  }

  /** `(Nj / ppg).argmax()` with the ratios compared exactly: the first group
      whose samples-per-part ratio is largest. */
  function FirstArgMaxRatio(nj: seq<int>, ppg: seq<int>): (m: nat)
    requires |nj| == |ppg| > 0 && AllPositive(ppg)
    ensures m < |nj|
    ensures forall j :: 0 <= j < |nj| ==> nj[j] * ppg[m] <= nj[m] * ppg[j]
    ensures forall j :: 0 <= j < m ==> nj[j] * ppg[m] < nj[m] * ppg[j]
  {
    ArgMaxRatioBefore(nj, ppg, |nj|)
  }

  /** One round of the split loop: one more part for the group with the
      largest samples-per-part ratio. */
  function PartStep(nj: seq<int>, ppg: seq<int>): (r: seq<int>)
    requires |nj| == |ppg| > 0 && AllPositive(ppg)
    ensures |r| == |ppg| && AllPositive(r)
  {
    var m := FirstArgMaxRatio(nj, ppg);
    ppg[m := ppg[m] + 1]
  }

  /** A round adds one part in total and, while there are fewer parts than
      samples, never gives a group more parts than it has samples. */
  lemma PartStepBounded(nj: seq<int>, ppg: seq<int>)
    requires |nj| == |ppg| > 0 && AllPositive(ppg)
    requires forall j :: 0 <= j < |nj| ==> ppg[j] <= nj[j]
    requires Sum(ppg) < Sum(nj)
    ensures Sum(PartStep(nj, ppg)) == Sum(ppg) + 1
    ensures forall j :: 0 <= j < |nj| ==> PartStep(nj, ppg)[j] <= nj[j]
  {
    var m := FirstArgMaxRatio(nj, ppg);
    SumUpdate(ppg, m, ppg[m] + 1);
    if forall j :: 0 <= j < |nj| ==> nj[j] <= ppg[j] {
      SumMonotone(nj, ppg);
    }
    var j :| 0 <= j < |nj| && ppg[j] < nj[j];
    MulStrict(ppg[j], nj[j], ppg[m]);
    assert ppg[m] * ppg[j] < nj[m] * ppg[j];
    MulCancelStrict(ppg[m], nj[m], ppg[j]);
  }

  /** `n` rounds of the split loop. */
  function PartRounds(nj: seq<int>, ppg: seq<int>, n: nat): (r: seq<int>)
    requires |nj| == |ppg| > 0 && AllPositive(ppg)
    ensures |r| == |ppg| && AllPositive(r)
    ensures Sum(r) == Sum(ppg) + n
    ensures (forall j :: 0 <= j < |nj| ==> ppg[j] <= nj[j]) && Sum(ppg) + n <= Sum(nj) ==>
      forall j :: 0 <= j < |nj| ==> r[j] <= nj[j]
    decreases n
  {
    if n == 0 then ppg
    else
      var m := FirstArgMaxRatio(nj, ppg);
      SumUpdate(ppg, m, ppg[m] + 1);
      var next := PartStep(nj, ppg);
      assert (forall j :: 0 <= j < |nj| ==> ppg[j] <= nj[j]) && Sum(ppg) + n <= Sum(nj) ==>
        forall j :: 0 <= j < |nj| ==> next[j] <= nj[j]
      by {
        if (forall j :: 0 <= j < |nj| ==> ppg[j] <= nj[j]) && Sum(ppg) + n <= Sum(nj) {
          PartStepBounded(nj, ppg);
        }
      }
      PartRounds(nj, next, n - 1)
  }

  /** `count` parts, the first `extra` of them of size `base + 1` and the
      rest of size `base`. */
  function Balanced(count: nat, base: int, extra: int): (r: seq<int>)
    ensures |r| == count
  {
    seq(count, i requires 0 <= i < count => if i < extra then base + 1 else base)
  }

  lemma {:induction false} BalancedSum(count: nat, base: int, extra: int)
    requires 0 <= extra <= count
    ensures Sum(Balanced(count, base, extra)) == count * base + extra
  {
    if count > 0 {
      var b := Balanced(count, base, extra);
      var e := if extra == count then extra - 1 else extra;
      assert b[..count - 1] == Balanced(count - 1, base, e);
      BalancedSum(count - 1, base, e);
      assert (count - 1) * base + base == count * base;
    }
  }

  /** The sizes of the `p` parts of a group of `n` samples: `n // p` each,
      plus one for the first `n % p` parts. */
  function GroupParts(n: int, p: int): (r: seq<int>)
    requires p > 0
    ensures |r| == p
    ensures Sum(r) == n
  {
    BalancedSum(p, n / p, n % p);
    Balanced(p, n / p, n % p)
  }

  /** Every part holds `n // p` or `n // p + 1` samples, so no part is empty
      when there are at least as many samples as parts. */
  lemma GroupPartsSizes(n: int, p: int)
    requires p > 0
    ensures var r := GroupParts(n, p);
      && (forall a :: 0 <= a < p ==> r[a] == n / p || r[a] == n / p + 1)
      && (p <= n ==> AllPositive(r))
  {
    assert n / p >= 1 || n < p;
  }

  /** The parts of every group, group after group (`Nk`). */
  function SplitSizes(nj: seq<int>, ppg: seq<int>): (r: seq<int>)
    requires |nj| == |ppg| && AllPositive(ppg)
    ensures |r| == Sum(ppg)
    ensures Sum(r) == Sum(nj)
    ensures (forall j :: 0 <= j < |nj| ==> ppg[j] <= nj[j]) ==> AllPositive(r)
    decreases |nj|
  {
    if |nj| == 0 then []
    else
      var m := |nj| - 1;
      var rest := SplitSizes(nj[..m], ppg[..m]);
      var last := GroupParts(nj[m], ppg[m]);
      SumConcat(rest, last);
      GroupPartsSizes(nj[m], ppg[m]);
      rest + last
  }

  /** Sites `lo` up to `hi` are the parts of a group of `n` samples split
      `p` ways. */
  predicate PartsOf(nk: seq<int>, lo: int, hi: int, n: int, p: int)
  {
    p > 0 && 0 <= lo <= hi <= |nk| && nk[lo..hi] == GroupParts(n, p)
  }

  /** The `ppg[j]` sites of group j are consecutive, in group order, and
      hold the parts of group j. */
  predicate SplitBlocks(nj: seq<int>, ppg: seq<int>, nk: seq<int>)
  {
    && |nj| == |ppg|
    && forall j {:trigger ppg[j]} :: 0 <= j < |nj| ==>
         PartsOf(nk, Limits(ppg)[j], Limits(ppg)[j + 1], nj[j], ppg[j])
  }

  lemma PartsOfFront(a: seq<int>, b: seq<int>, lo: int, hi: int, n: int, p: int)
    requires PartsOf(a, lo, hi, n, p)
    ensures PartsOf(a + b, lo, hi, n, p)
  {
    assert (a + b)[lo..hi] == a[lo..hi];
  }

  lemma PartsOfBack(a: seq<int>, n: int, p: int)
    requires p > 0
    ensures PartsOf(a + GroupParts(n, p), |a|, |a| + p, n, p)
  {
    var b := GroupParts(n, p);
    assert (a + b)[|a|..|a| + |b|] == b;
  }

  /** The parts of one group differ in size by at most one. */
  lemma GroupPartsBalanced(n: int, p: int)
    requires p > 0
    ensures var r := GroupParts(n, p);
      forall a, b :: 0 <= a < p && 0 <= b < p ==> r[a] <= r[b] + 1
  {
  }

  lemma {:induction false} SplitSizesBlocks(nj: seq<int>, ppg: seq<int>)
    requires |nj| == |ppg| && AllPositive(ppg)
    ensures SplitBlocks(nj, ppg, SplitSizes(nj, ppg))
  {
    if |nj| > 0 {
      var m := |nj| - 1;
      var rest := SplitSizes(nj[..m], ppg[..m]);
      SplitSizesBlocks(nj[..m], ppg[..m]);
      var last := GroupParts(nj[m], ppg[m]);
      assert SplitSizes(nj, ppg) == rest + last;
      forall j | 0 <= j < |nj|
        ensures PartsOf(rest + last, Limits(ppg)[j], Limits(ppg)[j + 1], nj[j], ppg[j])
      {
        if j < m {
          SplitBlocksFront(nj, ppg, rest, last, j);
        } else {
          assert Limits(ppg)[m] == Limits(ppg[..m])[m] == |rest|;
          PartsOfBack(rest, nj[m], ppg[m]);
        }
      }
    }
  }

  lemma SplitBlocksFront(nj: seq<int>, ppg: seq<int>, rest: seq<int>, last: seq<int>, j: int)
    requires |nj| == |ppg| && 0 <= j < |nj| - 1
    requires SplitBlocks(nj[..|nj| - 1], ppg[..|nj| - 1], rest)
    ensures PartsOf(rest + last, Limits(ppg)[j], Limits(ppg)[j + 1], nj[j], ppg[j])
  {
    var m := |nj| - 1;
    assert ppg[..m][j] == ppg[j] && nj[..m][j] == nj[j];
    assert Limits(ppg)[j] == Limits(ppg[..m])[j] && Limits(ppg)[j + 1] == Limits(ppg[..m])[j + 1];
    PartsOfFront(rest, last, Limits(ppg)[j], Limits(ppg)[j + 1], nj[j], ppg[j]);
  }

  /** Sites that split the same group differ in size by at most one. */
  lemma SplitBlocksBalanced(nj: seq<int>, ppg: seq<int>, nk: seq<int>, j: int, a: int, b: int)
    requires SplitBlocks(nj, ppg, nk) && 0 <= j < |nj|
    requires Limits(ppg)[j] <= a < Limits(ppg)[j + 1] && Limits(ppg)[j] <= b < Limits(ppg)[j + 1]
    ensures 0 <= a < |nk| && 0 <= b < |nk| && nk[a] <= nk[b] + 1
  {
    var lo := Limits(ppg)[j];
    assert PartsOf(nk, lo, Limits(ppg)[j + 1], nj[j], ppg[j]);
    var parts := GroupParts(nj[j], ppg[j]);
    assert nk[a] == parts[a - lo] && nk[b] == parts[b - lo];
    GroupPartsBalanced(nj[j], ppg[j]);
  }

  /** What the split branch returns: every group split into at least one
      and at most as many parts as it has samples, K parts in all, every
      site non-empty, and the sites of each group consecutive and holding
      its even division. */
  predicate SplitShape(nj: seq<int>, K: int, a: Assignment)
  {
    && a.Split?
    && |a.sitesPerGroup| == |nj| && AllPositive(a.sitesPerGroup) && Sum(a.sitesPerGroup) == K
    && (forall j :: 0 <= j < |nj| ==> a.sitesPerGroup[j] <= nj[j])
    && |a.samplesPerSite| == K && Sum(a.samplesPerSite) == Sum(nj)
    && AllPositive(a.samplesPerSite)
    && SplitBlocks(nj, a.sitesPerGroup, a.samplesPerSite)
  }

  /** The split branch (K > J): K - J rounds starting from one part per
      group, then the even division of every group. */
  function SplitGroups(nj: seq<int>, K: int): (a: Assignment)
    requires AllPositive(nj) && |nj| < K <= Sum(nj)
    ensures SplitShape(nj, K, a)
  {
    OnesSum(|nj|);
    var ones := seq(|nj|, _ => 1);
    var ppg := PartRounds(nj, ones, K - |nj|);
    SplitSizesBlocks(nj, ppg);
    Split(SplitSizes(nj, ppg), ppg)
  }

  // ---------------------------------------------------------------------
  //  distribute_groups
  // ---------------------------------------------------------------------

  /** `distribute_groups(J, K, Nj)`. */
  function DistributeGroups(J: int, K: int, sizes: GroupSizes): (r: Result<Assignment, ConfigError>)
    ensures ExpandSizes(J, sizes).Err? ==> r == Err(ExpandSizes(J, sizes).error)
    ensures ExpandSizes(J, sizes).Ok? ==>
      var nj := ExpandSizes(J, sizes).value;
      && (!AllPositive(nj) ==> r == Err(EmptyGroup))
      && (AllPositive(nj) && K < 2 ==> r == Err(TooFewSites))
      && (AllPositive(nj) && K >= 2 && K > Sum(nj) ==> r == Err(TooManySites))
      && (r.Ok? <==> AllPositive(nj) && 2 <= K <= Sum(nj))
    ensures r.Ok? ==>
      var nj := ExpandSizes(J, sizes).value;
      && |r.value.samplesPerSite| == K
      && Sum(r.value.samplesPerSite) == Sum(nj)
      && (K < J ==> MergeShape(nj, K, r.value))
      && (K == J ==> r.value == OneToOne(nj))
      && (K > J ==> SplitShape(nj, K, r.value))
  {
    var nj :- ExpandSizes(J, sizes);
    if !AllPositive(nj) then Err(EmptyGroup)
    else if K < 2 then Err(TooFewSites)
    else if K < J then
      SumOfPositives(nj);
      Ok(MergeGroups(nj, K))
    else if K == J then
      SumOfPositives(nj);
      Ok(OneToOne(nj))
    else if K <= Sum(nj) then Ok(SplitGroups(nj, K))
    else Err(TooManySites)
  }

}
