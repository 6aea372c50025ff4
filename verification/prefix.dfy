/** Sums, prefix sums and the per-sample group index of a vector of group
    sizes. A group-size vector `Nj` lays its groups out contiguously: group j
    owns the sample range `[Limits(Nj)[j], Limits(Nj)[j+1])`. */
module Prefix {

  /** `np.sum` of an integer vector. */
  function Sum(s: seq<int>): int
  {
    if |s| == 0 then 0 else Sum(s[..|s| - 1]) + s[|s| - 1]
  }

  predicate AllNonNegative(s: seq<int>)
  {
    forall i :: 0 <= i < |s| ==> s[i] >= 0
  }

  predicate AllPositive(s: seq<int>)
  {
    forall i :: 0 <= i < |s| ==> s[i] > 0
  }

  lemma {:induction false} SumConcat(a: seq<int>, b: seq<int>)
    ensures Sum(a + b) == Sum(a) + Sum(b)
  {
    if |b| == 0 {
      assert a + b == a;
    } else {
      assert (a + b)[..|a + b| - 1] == a + b[..|b| - 1];
      SumConcat(a, b[..|b| - 1]);
    }
  }

  lemma SumSnoc(a: seq<int>, v: int)
    ensures Sum(a + [v]) == Sum(a) + v
  {
    assert (a + [v])[..|a|] == a;
  }

  lemma SumPrefixStep(s: seq<int>, k: int)
    requires 0 <= k < |s|
    ensures Sum(s[..k + 1]) == Sum(s[..k]) + s[k]
  {
    assert s[..k + 1][..k] == s[..k];
  }

  lemma SumSplitAt(s: seq<int>, k: int)
    requires 0 <= k <= |s|
    ensures Sum(s) == Sum(s[..k]) + Sum(s[k..])
  {
    assert s == s[..k] + s[k..];
    SumConcat(s[..k], s[k..]);
  }

  lemma {:induction false} SumMonotone(a: seq<int>, b: seq<int>)
    requires |a| == |b|
    requires forall i :: 0 <= i < |a| ==> a[i] <= b[i]
    ensures Sum(a) <= Sum(b)
  {
    if |a| > 0 {
      SumMonotone(a[..|a| - 1], b[..|b| - 1]);
    }
  }

  /** Every positive entry contributes at least one to the total. */
  lemma {:induction false} SumOfPositives(s: seq<int>)
    requires AllPositive(s)
    ensures Sum(s) >= |s|
  {
    if |s| > 0 {
      SumOfPositives(s[..|s| - 1]);
    }
  }

  /** Changing one entry changes the sum by the same amount. */
  lemma {:induction false} SumUpdate(s: seq<int>, i: int, v: int)
    requires 0 <= i < |s|
    ensures Sum(s[i := v]) == Sum(s) - s[i] + v
  {
    if i < |s| - 1 {
      assert s[i := v][..|s| - 1] == s[..|s| - 1][i := v];
      SumUpdate(s[..|s| - 1], i, v);
    } else {
      assert s[i := v][..|s| - 1] == s[..|s| - 1];
    }
  }

  /** `concatenate(([0], cumsum(s)))`: entry i is the total of the first i
      entries of `s`, so group j occupies `[r[j], r[j+1])`. */
  function Limits(s: seq<int>): (r: seq<int>)
    ensures |r| == |s| + 1
    ensures r[0] == 0
    ensures forall i {:trigger s[i]} :: 0 <= i < |s| ==> r[i + 1] - r[i] == s[i]
    ensures r[|s|] == Sum(s)
  {
    if |s| == 0 then [0]
    else
      var p := Limits(s[..|s| - 1]);
      p + [p[|s| - 1] + s[|s| - 1]]
  }

  /** The distance between two limits is the total of the groups between them. */
  lemma {:induction false} LimitsSlice(s: seq<int>, i: int, j: int)
    requires 0 <= i <= j <= |s|
    ensures Limits(s)[j] - Limits(s)[i] == Sum(s[i..j])
  {
    if j == i {
      assert s[i..j] == [];
    } else {
      LimitsSlice(s, i, j - 1);
      assert s[i..j][..j - i - 1] == s[i..j - 1];
    }
  }

  /** The limits are the only sequence starting at 0 whose steps are the
      group sizes. */
  lemma {:induction false} LimitsUnique(s: seq<int>, r: seq<int>)
    requires |r| == |s| + 1 && r[0] == 0
    requires forall i {:trigger s[i]} :: 0 <= i < |s| ==> r[i + 1] - r[i] == s[i]
    ensures r == Limits(s)
  {
    if |s| > 0 {
      var m := |s| - 1;
      LimitsUnique(s[..m], r[..m + 1]);
      assert r == r[..m + 1] + [r[m + 1]];
    }
  }

  /** Splitting a slice splits its total. */
  lemma SumSliceSplit(s: seq<int>, a: int, b: int, c: int)
    requires 0 <= a <= b <= c <= |s|
    ensures Sum(s[a..c]) == Sum(s[a..b]) + Sum(s[b..c])
  {
    LimitsSlice(s, a, c);
    LimitsSlice(s, a, b);
    LimitsSlice(s, b, c);
  }

  /** With non-negative group sizes the limits never decrease. */
  lemma LimitsMonotone(s: seq<int>, i: int, j: int)
    requires AllNonNegative(s)
    requires 0 <= i <= j <= |s|
    ensures Limits(s)[i] <= Limits(s)[j]
  {
    LimitsSlice(s, i, j);
    SumMonotone(seq(j - i, _ => 0), s[i..j]);
    ZeroSum(j - i);
  }

  lemma {:induction false} ZeroSum(n: nat)
    ensures Sum(seq(n, _ => 0)) == 0
  {
    if n > 0 {
      assert seq(n, _ => 0)[..n - 1] == seq(n - 1, _ => 0);
      ZeroSum(n - 1);
    }
  }

  /** The group of every sample: group j's sample range is filled with j. */
  function GroupIndex(s: seq<int>): (r: seq<int>)
    requires AllNonNegative(s)
    ensures |r| == Sum(s)
    ensures forall n :: 0 <= n < |r| ==> 0 <= r[n] < |s|
  {
    if |s| == 0 then []
    else GroupIndex(s[..|s| - 1]) + seq(s[|s| - 1], _ => |s| - 1)
  }

  /** Sample n lies between limits j and j+1, that is, in group j. */
  predicate Between(lim: seq<int>, n: int, j: int)
    requires 0 <= j < |lim| - 1
  {
    lim[j] <= n < lim[j + 1]
  }

  /** A sample carries group j exactly when it lies in group j's range. */
  lemma {:induction false} GroupIndexRanges(s: seq<int>)
    requires AllNonNegative(s)
    ensures forall n, j :: 0 <= n < Sum(s) && 0 <= j < |s| ==>
      (GroupIndex(s)[n] == j <==> Between(Limits(s), n, j))
  {
    if |s| > 0 {
      var m := |s| - 1;
      var p := s[..m];
      GroupIndexRanges(p);
      var r := GroupIndex(s);
      var lim := Limits(s);
      assert lim == Limits(p) + [Limits(p)[m] + s[m]];
      forall n, j | 0 <= n < Sum(s) && 0 <= j < |s|
        ensures r[n] == j <==> Between(Limits(s), n, j)
      {
        assert Between(Limits(s), n, j) <==> lim[j] <= n < lim[j + 1];
        if j < m {
          assert Between(Limits(s), n, j) <==> Between(Limits(p), n, j);
        }
        if n < Sum(p) {
          assert r[n] == GroupIndex(p)[n];
          if j == m {
            assert lim[m] == Sum(p);
          }
        } else {
          assert r[n] == m;
          if j < m {
            LimitsMonotone(p, j + 1, m);
          }
        }
      }
    }
  }

  /** Every sample in group j's range carries j. */
  lemma GroupIndexOf(s: seq<int>, n: int, j: int)
    requires AllNonNegative(s)
    requires 0 <= j < |s| && Between(Limits(s), n, j)
    ensures 0 <= n < Sum(s) && GroupIndex(s)[n] == j
  {
    LimitsMonotone(s, 0, j);
    LimitsMonotone(s, j + 1, |s|);
    GroupIndexRanges(s);
  }

}
