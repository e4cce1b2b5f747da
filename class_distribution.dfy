/**
 * `normalize_class_distribution_dict`: folds the counts of raw BGC class
 * labels into canonical class names, drops canonical classes with no count,
 * totals the counts and turns them into percentages.
 */
module ClassDistribution {

  /** The (raw label, canonical name) pairs, folded in this order. */
  const FoldPairs: seq<(string, string)> := [
    ("NRPS", "NRP"),
    ("PKS", "Polyketide"),
    ("other", "Other"),
    ("ribosomal", "RiPP"),
    ("saccharide", "Saccharide"),
    ("terpene", "Terpene"),
    ("alkaloid", "Alkaloid")
  ]

  /** `counts.get(key, 0)`. */
  function Get(counts: map<string, int>, key: string): int {
    if key in counts then counts[key] else 0
  }

  /**
   * One iteration of the fold loop: a source with a nonzero count is removed
   * and its count added to the target's (0 when absent); then a target whose
   * count is 0 is removed.
   */
  function FoldStep(counts: map<string, int>, source: string, target: string): map<string, int> {
    var moved :=
      if Get(counts, source) != 0 then (counts - {source})[target := Get(counts, target) + counts[source]]
      else counts;
    if Get(moved, target) == 0 then moved - {target} else moved
  }

  /** The counts after the first `n` iterations of the fold loop. */
  function FoldUpTo(counts: map<string, int>, n: nat): map<string, int>
    requires n <= |FoldPairs|
  {
    if n == 0 then counts
    else FoldStep(FoldUpTo(counts, n - 1), FoldPairs[n - 1].0, FoldPairs[n - 1].1)
  }

  function FoldAll(counts: map<string, int>): map<string, int> {
    FoldUpTo(counts, |FoldPairs|)
  }

  /** The fold loop, run on a copy: the caller's mapping is a value and is not changed. */
  method FoldCounts(classDist: map<string, int>) returns (counts: map<string, int>)
    ensures counts == FoldAll(classDist)
  {
    counts := classDist;
    for i := 0 to |FoldPairs|
      invariant counts == FoldUpTo(classDist, i)
    {
      var (source, target) := FoldPairs[i];
      if Get(counts, source) != 0 {
        var targetCount := Get(counts, target);
        var moved := counts[source];
        counts := (counts - {source})[target := targetCount + moved];
      }
      if Get(counts, target) == 0 {
        counts := counts - {target};
      }
    }
  }

  // ---------------------------------------------------------------------
  // What folding does to each label
  // ---------------------------------------------------------------------

  /** `key` is absent from both maps or present in both with the same count. */
  predicate Agrees(a: map<string, int>, b: map<string, int>, key: string) {
    (key in a <==> key in b) && (key in a ==> a[key] == b[key])
  }

  /** Every label that occurs in the fold list. */
  function Labels(): set<string> {
    (set i | 0 <= i < |FoldPairs| :: FoldPairs[i].0) + (set i | 0 <= i < |FoldPairs| :: FoldPairs[i].1)
  }

  /**
   * The effect of folding the pair (source, target) of `before` into `after`:
   * a nonzero source is removed and a zero source kept as it was; the target
   * holds the sum of both counts, and is absent when that sum is 0.
   */
  predicate PairFolded(before: map<string, int>, after: map<string, int>, source: string, target: string) {
    (if Get(before, source) != 0 then source !in after else Agrees(after, before, source)) &&
    (var sum := Get(before, target) + Get(before, source);
     if sum == 0 then target !in after else target in after && after[target] == sum)
  }

  /** No label is used by two pairs and no label is both a source and a target. */
  lemma LabelsDistinct()
    ensures forall i, j :: 0 <= i < |FoldPairs| && 0 <= j < |FoldPairs| ==> FoldPairs[i].0 != FoldPairs[j].1
    ensures forall i, j :: 0 <= i < j < |FoldPairs| ==>
      FoldPairs[i].0 != FoldPairs[j].0 && FoldPairs[i].1 != FoldPairs[j].1
  {
  }

  lemma FoldStepOther(counts: map<string, int>, source: string, target: string, key: string)
    requires key != source && key != target
    ensures Agrees(FoldStep(counts, source, target), counts, key)
  {
  }

  lemma FoldStepPair(counts: map<string, int>, source: string, target: string)
    requires source != target
    ensures PairFolded(counts, FoldStep(counts, source, target), source, target)
  {
  }

  /** Iterations `m` to `n` of the loop leave alone every label they do not name. */
  lemma {:induction false} FoldBetween(counts: map<string, int>, m: nat, n: nat, key: string)
    requires m <= n <= |FoldPairs|
    requires forall i :: m <= i < n ==> key != FoldPairs[i].0 && key != FoldPairs[i].1
    ensures Agrees(FoldUpTo(counts, n), FoldUpTo(counts, m), key)
    decreases n
  {
    if m < n {
      FoldBetween(counts, m, n - 1, key);
      FoldStepOther(FoldUpTo(counts, n - 1), FoldPairs[n - 1].0, FoldPairs[n - 1].1, key);
    }
  }

  /**
   * The whole fold: labels outside the fold list keep their counts, and each
   * pair is folded as if it were the only one.
   */
  lemma FoldAllSpec(counts: map<string, int>)
    ensures forall key :: key !in Labels() ==> Agrees(FoldAll(counts), counts, key)
    ensures forall i :: 0 <= i < |FoldPairs| ==> PairFolded(counts, FoldAll(counts), FoldPairs[i].0, FoldPairs[i].1)
  {
    var n := |FoldPairs|;
    forall key | key !in Labels()
      ensures Agrees(FoldAll(counts), counts, key)
    {
      forall i | 0 <= i < n
        ensures key != FoldPairs[i].0 && key != FoldPairs[i].1
      {
        assert FoldPairs[i].0 in Labels() && FoldPairs[i].1 in Labels();
      }
      FoldBetween(counts, 0, n, key);
    }
    LabelsDistinct();
    forall i | 0 <= i < n
      ensures PairFolded(counts, FoldAll(counts), FoldPairs[i].0, FoldPairs[i].1)
    {
      var (source, target) := FoldPairs[i];
      FoldBetween(counts, 0, i, source);
      FoldBetween(counts, 0, i, target);
      FoldStepPair(FoldUpTo(counts, i), source, target);
      FoldBetween(counts, i + 1, n, source);
      FoldBetween(counts, i + 1, n, target);
    }
  }

  /** After folding, no canonical name is present with count 0. */
  lemma NoZeroTargets(counts: map<string, int>)
    ensures forall i :: 0 <= i < |FoldPairs| ==>
      FoldPairs[i].1 !in FoldAll(counts) || FoldAll(counts)[FoldPairs[i].1] != 0
  {
    FoldAllSpec(counts);
  }

  // ---------------------------------------------------------------------
  // Totals and percentages
  // ---------------------------------------------------------------------

  /** `sum(counts.values())`. */
  ghost function Sum(counts: map<string, int>): int
    decreases |counts|
  {
    if counts == map[] then 0
    else
      assert exists key :: key in counts by {
        assert counts.Keys != {};
      }
      var key :| key in counts;
      counts[key] + Sum(counts - {key})
  }

  /** The sum does not depend on which key is taken first. */
  lemma {:induction false} SumRemove(counts: map<string, int>, key: string)
    requires key in counts
    ensures Sum(counts) == counts[key] + Sum(counts - {key})
    decreases |counts|
  {
    var first :| first in counts && Sum(counts) == counts[first] + Sum(counts - {first});
    if first != key {
      SumRemove(counts - {first}, key);
      SumRemove(counts - {key}, first);
      assert (counts - {first}) - {key} == (counts - {key}) - {first};
    }
  }

  /** Setting one count changes the sum by the difference. */
  lemma SumUpdate(counts: map<string, int>, key: string, value: int)
    ensures Sum(counts[key := value]) == Sum(counts) - Get(counts, key) + value
  {
    var updated := counts[key := value];
    SumRemove(updated, key);
    assert updated - {key} == counts - {key};
    if key in counts {
      SumRemove(counts, key);
    } else {
      assert counts - {key} == counts;
    }
  }

  /** Removing a key changes the sum by its count (0 when absent). */
  lemma SumWithout(counts: map<string, int>, key: string)
    ensures Sum(counts - {key}) == Sum(counts) - Get(counts, key)
  {
    if key in counts {
      SumRemove(counts, key);
    } else {
      assert counts - {key} == counts;
    }
  }

  lemma FoldStepSum(counts: map<string, int>, source: string, target: string)
    requires source != target
    ensures Sum(FoldStep(counts, source, target)) == Sum(counts)
  {
    var moved := counts;
    if Get(counts, source) != 0 {
      var removed := counts - {source};
      SumWithout(counts, source);
      SumUpdate(removed, target, Get(counts, target) + counts[source]);
      assert Get(removed, target) == Get(counts, target);
      moved := removed[target := Get(counts, target) + counts[source]];
    }
    SumWithout(moved, target);
  }

  /** Folding moves counts between labels and only drops zero counts, so the total is unchanged. */
  lemma {:induction false} FoldUpToSum(counts: map<string, int>, n: nat)
    requires n <= |FoldPairs|
    ensures Sum(FoldUpTo(counts, n)) == Sum(counts)
  {
    if n > 0 {
      FoldUpToSum(counts, n - 1);
      LabelsDistinct();
      FoldStepSum(FoldUpTo(counts, n - 1), FoldPairs[n - 1].0, FoldPairs[n - 1].1);
    }
  }

  /** The total of the counts, summed key by key. */
  method TotalCount(counts: map<string, int>) returns (total: int)
    ensures total == Sum(counts)
  {
    total := 0;
    var rest := counts;
    while rest != map[]
      invariant total + Sum(rest) == Sum(counts)
      decreases |rest|
    {
      assert rest.Keys != {};
      var key :| key in rest;
      SumRemove(rest, key);
      total := total + rest[key];
      rest := rest - {key};
    }
  }

  /**
   * The percentage of the total each label holds; every label gets 0 when
   * the total is not positive.
   */
  function Percentages(counts: map<string, int>, total: int): map<string, real> {
    map key | key in counts :: if total > 0 then (counts[key] as real) * 100.0 / (total as real) else 0.0
  }

  /** A non-negative count is at most the sum of non-negative counts. */
  lemma {:induction false} EntryAtMostSum(counts: map<string, int>, key: string)
    requires key in counts
    requires forall k :: k in counts ==> counts[k] >= 0
    ensures counts[key] <= Sum(counts)
  {
    SumRemove(counts, key);
    SumNonNegative(counts - {key});
  }

  lemma {:induction false} SumNonNegative(counts: map<string, int>)
    requires forall k :: k in counts ==> counts[k] >= 0
    ensures Sum(counts) >= 0
    decreases |counts|
  {
    if counts != map[] {
      assert counts.Keys != {};
      var key :| key in counts;
      SumRemove(counts, key);
      SumNonNegative(counts - {key});
    }
  }

  /** With non-negative counts and a positive total, every percentage lies between 0 and 100. */
  lemma PercentagesBounded(counts: map<string, int>)
    requires forall k :: k in counts ==> counts[k] >= 0
    ensures forall k :: k in counts ==> 0.0 <= Percentages(counts, Sum(counts))[k] <= 100.0
  {
    forall k | k in counts
      ensures 0.0 <= Percentages(counts, Sum(counts))[k] <= 100.0
    {
      EntryAtMostSum(counts, k);
      var total := Sum(counts);
      if total > 0 {
        var c := counts[k] as real;
        assert c * 100.0 <= (total as real) * 100.0;
        assert c * 100.0 / (total as real) <= 100.0;
      }
    }
  }

  /**
   * The class distribution as percentages of the folded counts. The result's
   * labels are exactly the folded labels; with no positive total every
   * percentage is 0.
   */
  method NormalizeClassDistribution(classDist: map<string, int>) returns (percents: map<string, real>)
    ensures percents.Keys == FoldAll(classDist).Keys
    ensures Sum(classDist) <= 0 ==> forall k :: k in percents ==> percents[k] == 0.0
    ensures Sum(classDist) > 0 ==>
      forall k :: k in percents ==> percents[k] == (FoldAll(classDist)[k] as real) * 100.0 / (Sum(classDist) as real)
  {
    var counts := FoldCounts(classDist);
    var total := TotalCount(counts);
    FoldUpToSum(classDist, |FoldPairs|);
    percents := Percentages(counts, total);
  }
}
