/** The grouping bookkeeping of the simulated experiment model m1a
    (experiment/models/m1a.py): the group limits and group index that
    `simulate_data` derives from the group sizes, and the per-site data
    slices that `get_liks` cuts for the site likelihoods. */
module Model1a {
  import opened Wrappers
  import opened Prefix
  import opened Distribute

  /** The grouping fields of the simulated data: group sizes `Nj`, group
      limits `j_lim` and the group of every sample `j_ind`. */
  datatype GroupedData = GroupedData(nj: seq<int>, jLim: seq<int>, jInd: seq<int>)

  /** `j_lim` and `j_ind` as `simulate_data` builds them from `Nj`. */
  function SimulatedGrouping(nj: seq<int>): (d: GroupedData)
    requires AllNonNegative(nj)
    ensures d.nj == nj
    ensures |d.jLim| == |nj| + 1 && d.jLim[0] == 0
    ensures forall j {:trigger nj[j]} :: 0 <= j < |nj| ==> d.jLim[j + 1] - d.jLim[j] == nj[j]
    ensures d.jLim[|nj|] == Sum(nj)
    ensures |d.jInd| == Sum(nj)
    ensures forall n, j :: 0 <= n < |d.jInd| && 0 <= j < |nj| ==>
      (d.jInd[n] == j <==> Between(d.jLim, n, j))
  {
    GroupIndexRanges(nj);
    GroupedData(nj, Limits(nj), GroupIndex(nj))
  }

  /** The `ValueError`s of `get_liks`: those of `distribute_groups`, and the
      refusal to split groups. */
  datatype LikError = Config(e: ConfigError) | SplittingNotImplemented

  /** The arguments of one site likelihood `_lik`: the sample slice
      `[start, end)` of `X` and `y`, the number of groups and the group
      limits local to the slice. */
  datatype Lik = Lik(start: int, end: int, groups: int, localLimits: seq<int>)

  /** `j_lim[lo:hi+1] - j_lim[lo]`. */
  function LocalLimits(jLim: seq<int>, lo: int, hi: int): (r: seq<int>)
    requires 0 <= lo <= hi < |jLim|
    ensures |r| == hi - lo + 1
    ensures forall i {:trigger r[i]} :: 0 <= i < |r| ==> r[i] == jLim[lo + i] - jLim[lo]
  {
    seq(hi - lo + 1, i requires 0 <= i <= hi - lo => jLim[lo + i] - jLim[lo])
  }

  /** Shifting a stretch of the global limits to start at zero gives the
      limits of the groups in that stretch. */
  lemma LocalLimitsAreGroupLimits(nj: seq<int>, lo: int, hi: int)
    requires 0 <= lo <= hi <= |nj|
    ensures LocalLimits(Limits(nj), lo, hi) == Limits(nj[lo..hi])
  {
    ShiftedLimits(nj, Limits(nj), lo, hi);
  }

  lemma ShiftedLimits(nj: seq<int>, jLim: seq<int>, lo: int, hi: int)
    requires |jLim| == |nj| + 1
    requires forall j {:trigger nj[j]} :: 0 <= j < |nj| ==> jLim[j + 1] - jLim[j] == nj[j]
    requires 0 <= lo <= hi <= |nj|
    ensures LocalLimits(jLim, lo, hi) == Limits(nj[lo..hi])
  {
    var r := LocalLimits(jLim, lo, hi);
    var g := nj[lo..hi];
    forall i | 0 <= i < |g|
      ensures r[i + 1] - r[i] == g[i]
    {
      assert g[i] == nj[lo + i];
      assert jLim[lo + i + 1] - jLim[lo + i] == nj[lo + i];
    }
    LimitsUnique(g, r);
  }

  /** A site's likelihood covers the groups `lo` up to (excluding)
      `lo + count`: `size` samples, and local limits that are the limits of
      exactly those groups. */
  predicate SiteSlice(lik: Lik, nj: seq<int>, lo: int, count: int, size: int)
  {
    && 0 <= lo <= lo + count <= |nj|
    && lik.groups == count
    && lik.end - lik.start == size
    && lik.localLimits == Limits(nj[lo..lo + count])
  }

  /** The slices are consecutive and together cover `[0, total)`. */
  predicate Tiles(liks: seq<Lik>, total: int)
  {
    && |liks| > 0
    && liks[0].start == 0
    && liks[|liks| - 1].end == total
    && forall k {:trigger liks[k]} :: 0 <= k < |liks| - 1 ==> liks[k].end == liks[k + 1].start
  }

  /** Block k of the site limits `kLim` is a well-formed stretch of groups. */
  predicate ValidBlock(jLim: seq<int>, kLim: seq<int>, k: int)
  {
    0 <= k && k + 1 < |kLim| && 0 <= kLim[k] <= kLim[k + 1] < |jLim|
  }

  /** The likelihood arguments of site k of the merge branch: the samples
      `[j_lim[k_lim[k]], j_lim[k_lim[k+1]])` and their local group limits. */
  function BlockLik(jLim: seq<int>, kLim: seq<int>, groups: seq<int>, k: int): (lik: Lik)
    requires ValidBlock(jLim, kLim, k) && k < |groups|
    ensures lik.groups == groups[k] && |lik.localLimits| == kLim[k + 1] - kLim[k] + 1
  {
    Lik(jLim[kLim[k]], jLim[kLim[k + 1]], groups[k], LocalLimits(jLim, kLim[k], kLim[k + 1]))
  }

  /** The loop of the merge branch: one likelihood per site, in site order. */
  method BlockLiks(jLim: seq<int>, kLim: seq<int>, groups: seq<int>) returns (liks: seq<Lik>)
    requires |kLim| == |groups| + 1 >= 2
    requires forall k {:trigger ValidBlock(jLim, kLim, k)} :: 0 <= k < |groups| ==> ValidBlock(jLim, kLim, k)
    requires ValidBlock(jLim, kLim, 0) && ValidBlock(jLim, kLim, |groups| - 1)
    requires jLim[kLim[0]] == 0
    ensures |liks| == |groups|
    ensures forall k {:trigger liks[k]} :: 0 <= k < |groups| ==> liks[k] == BlockLik(jLim, kLim, groups, k)
    ensures Tiles(liks, jLim[kLim[|groups|]])
  {
    liks := [];
    var k := 0;
    while k < |groups|
      invariant 0 <= k <= |groups|
      invariant |liks| == k
      invariant forall i {:trigger liks[i]} :: 0 <= i < k ==> liks[i] == BlockLik(jLim, kLim, groups, i)
    {
      assert ValidBlock(jLim, kLim, k);
      var start := jLim[kLim[k]];
      var end := jLim[kLim[k + 1]];
      liks := liks + [Lik(start, end, groups[k], LocalLimits(jLim, kLim[k], kLim[k + 1]))];
      k := k + 1;
    }
    assert ValidBlock(jLim, kLim, |groups| - 1);
    assert liks[|groups| - 1] == BlockLik(jLim, kLim, groups, |groups| - 1);
    assert ValidBlock(jLim, kLim, 0);
    assert liks[0] == BlockLik(jLim, kLim, groups, 0);
    forall k | 0 <= k < |liks| - 1
      ensures liks[k].end == liks[k + 1].start
    {
      assert ValidBlock(jLim, kLim, k) && ValidBlock(jLim, kLim, k + 1);
      assert liks[k] == BlockLik(jLim, kLim, groups, k);
      assert liks[k + 1] == BlockLik(jLim, kLim, groups, k + 1);
    }
  }

  /** Every block of a merge assignment is a well-formed stretch of groups. */
  lemma MergedBlocksValid(nj: seq<int>, groups: seq<int>)
    requires AllPositive(groups) && Sum(groups) == |nj|
    ensures forall k {:trigger ValidBlock(Limits(nj), Limits(groups), k)} :: 0 <= k < |groups| ==>
      ValidBlock(Limits(nj), Limits(groups), k)
  {
    var kLim := Limits(groups);
    forall k | 0 <= k < |groups|
      ensures ValidBlock(Limits(nj), kLim, k)
    {
      assert kLim[k + 1] - kLim[k] == groups[k];
      LimitsMonotone(groups, 0, k);
      LimitsMonotone(groups, k + 1, |groups|);
    }
  }

  /** Site k of the merge branch covers its block of groups and holds the
      block's samples. */
  lemma BlockLikSlice(nj: seq<int>, groups: seq<int>, sizes: seq<int>, k: int)
    requires AllNonNegative(nj) && AllPositive(groups) && Sum(groups) == |nj|
    requires BlockSums(nj, groups, sizes) && 0 <= k < |groups|
    ensures ValidBlock(Limits(nj), Limits(groups), k)
    ensures SiteSlice(BlockLik(Limits(nj), Limits(groups), groups, k), nj, Limits(groups)[k], groups[k], sizes[k])
  {
    var kLim := Limits(groups);
    MergedBlocksValid(nj, groups);
    assert ValidBlock(Limits(nj), kLim, k);
    assert BlockSum(nj, kLim[k], kLim[k + 1], sizes[k]);
    LimitsSlice(nj, kLim[k], kLim[k + 1]);
    LocalLimitsAreGroupLimits(nj, kLim[k], kLim[k + 1]);
  }

  /** The likelihoods of the merge branch: site k gets the samples of its
      block of groups and their local group limits. */
  method MergedLiks(nj: seq<int>, jLim: seq<int>, groups: seq<int>, sizes: seq<int>) returns (liks: seq<Lik>)
    requires AllNonNegative(nj) && jLim == Limits(nj)
    requires |groups| >= 1 && AllPositive(groups) && Sum(groups) == |nj|
    requires BlockSums(nj, groups, sizes)
    ensures |liks| == |groups| && Tiles(liks, Sum(nj))
    ensures forall k :: 0 <= k < |groups| ==>
      && 0 <= Limits(groups)[k] <= |nj|
      && liks[k].start == jLim[Limits(groups)[k]]
      && SiteSlice(liks[k], nj, Limits(groups)[k], groups[k], sizes[k])
  {
    MergedBlocksValid(nj, groups);
    liks := BlockLiks(jLim, Limits(groups), groups);
    forall k | 0 <= k < |groups|
      ensures 0 <= Limits(groups)[k] <= |nj|
      ensures liks[k].start == jLim[Limits(groups)[k]]
      ensures SiteSlice(liks[k], nj, Limits(groups)[k], groups[k], sizes[k])
    {
      BlockLikSlice(nj, groups, sizes, k);
    }
  }

  /** The likelihoods of the one-to-one branch: site k gets exactly group k. */
  method OneToOneLiks(nj: seq<int>, jLim: seq<int>) returns (liks: seq<Lik>)
    requires |nj| >= 1 && |jLim| == |nj| + 1 && jLim[0] == 0
    requires forall j {:trigger nj[j]} :: 0 <= j < |nj| ==> jLim[j + 1] - jLim[j] == nj[j]
    ensures |liks| == |nj| && Tiles(liks, jLim[|nj|])
    ensures forall k :: 0 <= k < |nj| ==>
      && liks[k].start == jLim[k]
      && SiteSlice(liks[k], nj, k, 1, nj[k])
  {
    liks := [];
    var k := 0;
    while k < |nj|
      invariant 0 <= k <= |nj|
      invariant |liks| == k
      invariant forall i {:trigger liks[i]} :: 0 <= i < k ==>
        liks[i] == Lik(jLim[i], jLim[i + 1], 1, [0, jLim[i + 1] - jLim[i]])
    {
      var start := jLim[k];
      var end := jLim[k + 1];
      liks := liks + [Lik(start, end, 1, [0, end - start])];
      k := k + 1;
    }
    forall k | 0 <= k < |nj|
      ensures SiteSlice(liks[k], nj, k, 1, nj[k])
    {
      OneToOneSlice(nj, jLim, k);
    }
  }

  /** Site k of the one-to-one branch covers group k alone. */
  lemma OneToOneSlice(nj: seq<int>, jLim: seq<int>, k: int)
    requires |jLim| == |nj| + 1
    requires forall j {:trigger nj[j]} :: 0 <= j < |nj| ==> jLim[j + 1] - jLim[j] == nj[j]
    requires 0 <= k < |nj|
    ensures SiteSlice(Lik(jLim[k], jLim[k + 1], 1, [0, jLim[k + 1] - jLim[k]]), nj, k, 1, nj[k])
  {
    assert nj[k] == jLim[k + 1] - jLim[k];
    var g := nj[k..k + 1];
    assert g[0] == nj[k];
    LimitsUnique(g, [0, nj[k]]);
  }

  /** `model.get_liks(K, data)`. */
  method GetLiks(J: int, K: int, data: GroupedData) returns (r: Result<seq<Lik>, LikError>)
    requires AllNonNegative(data.nj) && |data.nj| == J
    requires data == SimulatedGrouping(data.nj)
    ensures K < 2 ==> r == Err(Config(TooFewSites))
    ensures 2 <= K < J ==> (r.Ok? <==> AllPositive(data.nj))
    ensures 2 <= K < J ==> (r.Ok? <==> DistributeGroups(J, K, PerGroup(data.nj)).Ok?)
    ensures 2 <= K < J && !AllPositive(data.nj) ==> r == Err(Config(EmptyGroup))
    ensures 2 <= K == J ==> r.Ok?
    ensures 2 <= K && J < K <= Sum(data.nj) ==> r == Err(SplittingNotImplemented)
    ensures 2 <= K && J < K && Sum(data.nj) < K ==> r == Err(Config(TooManySites))
    ensures r.Ok? ==> |r.value| == K && Tiles(r.value, Sum(data.nj))
    ensures r.Ok? && K < J ==>
      var a := DistributeGroups(J, K, PerGroup(data.nj)).value;
      forall k :: 0 <= k < K ==>
        && 0 <= Limits(a.groupsPerSite)[k] <= J
        && r.value[k].start == data.jLim[Limits(a.groupsPerSite)[k]]
        && SiteSlice(r.value[k], data.nj, Limits(a.groupsPerSite)[k], a.groupsPerSite[k], a.samplesPerSite[k])
    ensures r.Ok? && K == J ==>
      forall k :: 0 <= k < K ==>
        && r.value[k].start == data.jLim[k]
        && SiteSlice(r.value[k], data.nj, k, 1, data.nj[k])
  {
    if K < 2 {
      return Err(Config(TooFewSites));
    } else if K < J {
      var d := DistributeGroups(J, K, PerGroup(data.nj));
      if d.Err? {
        return Err(Config(d.error));
      }
      LimitsUnique(data.nj, data.jLim);
      var liks := MergedLiks(data.nj, data.jLim, d.value.groupsPerSite, d.value.samplesPerSite);
      return Ok(liks);
    } else if K == J {
      var liks := OneToOneLiks(data.nj, data.jLim);
      return Ok(liks);
    } else if K <= Sum(data.nj) {
      return Err(SplittingNotImplemented);
    } else {
      return Err(Config(TooManySites));
    }
  }

}
