/** Worked instances of the greedy loops of `distribute_groups`. */
module Scenarios {
  import opened Prefix
  import opened Distribute

  /** Groups of sizes 1, 2, 3 on two sites: the first pair, of combined
      size 3, is merged, so both sites hold 3 samples. */
  lemma MergeExample()
    ensures MergeInv([1, 2, 3], InitialMerge([1, 2, 3]))
    ensures MergeRounds([1, 2, 3], InitialMerge([1, 2, 3]), 1) == MergeState([3, 3], [6], [2, 1])
  {
    var st := InitialMerge([1, 2, 3]);
    InitialMergeInv([1, 2, 3]);
    assert st == MergeState([1, 2, 3], [3, 5], [1, 1, 1]);
    assert FirstArgMin([3, 5]) == 0;
    assert MergeStep(st) == MergeState([3, 3], [6], [2, 1]);
  }

  lemma TieFirstRound()
    ensures InitialMerge([10, 10, 10, 10, 10]) == MergeState([10, 10, 10, 10, 10], [20, 20, 20, 20], [1, 1, 1, 1, 1])
    ensures MergeStep(InitialMerge([10, 10, 10, 10, 10])) == MergeState([20, 10, 10, 10], [30, 20, 20], [2, 1, 1, 1])
  {
    assert FirstArgMin([20, 20, 20, 20]) == 0;
  }

  lemma TieSecondRound()
    ensures MergeStep(MergeState([20, 10, 10, 10], [30, 20, 20], [2, 1, 1, 1]))
         == MergeState([20, 20, 10], [40, 30], [2, 2, 1])
  {
    assert FirstArgMin([30, 20, 20]) == 1;
  }

  /** Five groups of 10 on three sites: every pair ties at 20, so the first
      pair is merged; then the pairs after it tie at 20 and the first of
      those is merged, leaving sites of 20, 20 and 10 samples. */
  lemma MergeTieExample()
    ensures MergeInv([10, 10, 10, 10, 10], InitialMerge([10, 10, 10, 10, 10]))
    ensures MergeRounds([10, 10, 10, 10, 10], InitialMerge([10, 10, 10, 10, 10]), 2)
         == MergeState([20, 20, 10], [40, 30], [2, 2, 1])
  {
    var nj := [10, 10, 10, 10, 10];
    var st := InitialMerge(nj);
    InitialMergeInv(nj);
    TieFirstRound();
    TieSecondRound();
    MergeStepKeepsInv(nj, st);
    var st1 := MergeStep(st);
    assert MergeRounds(nj, st1, 1) == MergeStep(st1);
  }

  /** Groups of sizes 12 and 3 on five sites: the larger group keeps the
      larger ratio (12, 6, 4 against 3) and takes all three extra parts. */
  lemma SplitExample()
    ensures PartRounds([12, 3], [1, 1], 3) == [4, 1]
  {
    assert FirstArgMaxRatio([12, 3], [1, 1]) == 0;
    assert PartStep([12, 3], [1, 1]) == [2, 1];
    assert FirstArgMaxRatio([12, 3], [2, 1]) == 0;
    assert PartStep([12, 3], [2, 1]) == [3, 1];
    assert FirstArgMaxRatio([12, 3], [3, 1]) == 0;
    assert PartStep([12, 3], [3, 1]) == [4, 1];
  }

  /** Split 4 and 1 ways, groups of sizes 12 and 3 give five sites of 3
      samples each. */
  lemma SplitSizesExample()
    ensures SplitSizes([12, 3], [4, 1]) == [3, 3, 3, 3, 3]
  {
    assert GroupParts(12, 4) == [3, 3, 3, 3];
    assert GroupParts(3, 1) == [3];
    assert SplitSizes([12], [4]) == [3, 3, 3, 3];
  }
}
