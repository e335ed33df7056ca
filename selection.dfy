/**
 * Entropy, information gain, the split selector and the leaf test.
 *
 * Entropy is computed exactly over the reals. The one thing left abstract is
 * the logarithm (`math.log(ratio, 2)` on floats), which every function here
 * takes as the parameter `log2`.
 */
module Selection {
  import opened Wrappers
  import opened Dataset

  /**
   * The position Python's `max` picks over `s`: the first element not
   * exceeded by any other. It keeps the running maximum and switches only
   * to a strictly greater element.
   */
  function FirstMax(s: seq<real>): (k: nat)
    requires |s| > 0
    ensures k < |s|
    ensures forall j :: 0 <= j < |s| ==> s[j] <= s[k]
    ensures forall j :: 0 <= j < k ==> s[j] < s[k]
  {
    if |s| == 1 then 0
    else
      var k := FirstMax(s[..|s| - 1]);
      if s[|s| - 1] > s[k] then |s| - 1 else k
  }

  /** First-wins argmax is unique: any position with both properties is the one `FirstMax` picks. */
  lemma FirstMaxUnique(s: seq<real>, k: nat)
    requires k < |s|
    requires forall j :: 0 <= j < |s| ==> s[j] <= s[k]
    requires forall j :: 0 <= j < k ==> s[j] < s[k]
    ensures FirstMax(s) == k
  {
  }

  /** `-ratio * log2(ratio)` for one category that occurs `count` times among `n` rows. */
  function ItemEntropy(count: nat, n: nat, log2: real -> real): real
    requires n > 0
  {
    var ratio := count as real / n as real;
    -1.0 * ratio * log2(ratio)
  }

  /** The sum of the item entropies of `cats`, taken in order. */
  function EntropyOver<V(==,!new)>(cats: seq<V>, data: seq<Row<V>>, log2: real -> real): real
    requires |data| > 0
    requires forall r :: r in data ==> |r| > 0
  {
    if cats == [] then 0.0
    else EntropyOver(cats[..|cats| - 1], data, log2) + ItemEntropy(Count(data, cats[|cats| - 1]), |data|, log2)
  }

  /** Shannon entropy of the category distribution; an empty sum (0) for no rows. */
  function Entropy<V(==,!new)>(data: seq<Row<V>>, log2: real -> real): real
    requires forall r :: r in data ==> |r| > 0
  {
    if |data| == 0 then 0.0 else EntropyOver(Categories(data), data, log2)
  }

  /** The size-weighted entropy of the partitions for the values `vs` of column `f`. */
  function WeightedEntropy<V(==,!new)>(data: seq<Row<V>>, f: nat, vs: seq<V>, log2: real -> real): real
    requires |data| > 0
    requires forall r :: r in data ==> f < |r|
  {
    if vs == [] then 0.0
    else
      var part := Partition(data, f, vs[|vs| - 1]);
      PartitionSubset(data, f, vs[|vs| - 1]);
      WeightedEntropy(data, f, vs[..|vs| - 1], log2) + (|part| as real / |data| as real) * Entropy(part, log2)
  }

  /** Information gain of splitting on column `f`: baseline entropy minus the weighted entropy. */
  function Gain<V(==,!new)>(data: seq<Row<V>>, f: nat, log2: real -> real): real
    requires |data| > 0 && WellFormed(data) && f < |data[0]| - 1
  {
    Entropy(data, log2) - WeightedEntropy(data, f, Distinct(Column(data, f)), log2)
  }

  /**
   * The gain `best_feature_for_split` computes, as a scorer of a column of a
   * dataset: zero outside the shapes it is defined on.
   */
  function EntropyGain<V(==,!new)>(log2: real -> real): (seq<Row<V>>, nat) -> real
  {
    (data: seq<Row<V>>, f: nat) =>
      if |data| > 0 && WellFormed(data) && f < |data[0]| - 1 then Gain(data, f, log2) else 0.0
  }

  /** The score of every feature column in order: `information_gain`. */
  function Gains<V(==,!new)>(data: seq<Row<V>>, gain: (seq<Row<V>>, nat) -> real): (g: seq<real>)
    requires |data| > 0 && WellFormed(data)
    ensures |g| == |data[0]| - 1
    ensures forall f :: 0 <= f < |g| ==> g[f] == gain(data, f)
  {
    seq(|data[0]| - 1, f requires 0 <= f < |data[0]| - 1 => gain(data, f))
  }

  /**
   * `best_feature_for_split`: the first feature column of maximal gain. It
   * fails on no rows (`data[0]`) and on rows without a feature column
   * (`max` of an empty list). The source scores columns with
   * `EntropyGain(log2)`.
   */
  function BestFeature<V(==,!new)>(data: seq<Row<V>>, gain: (seq<Row<V>>, nat) -> real): (r: Result<nat, Fault>)
    requires WellFormed(data)
    ensures r == Err(EmptyData) <==> |data| == 0
    ensures r == Err(NoFeatureColumn) <==> |data| > 0 && |data[0]| < 2
    ensures r.Ok? ==> r.value < |data[0]| - 1
  {
    if |data| == 0 then Err(EmptyData)
    else if |data[0]| - 1 == 0 then Err(NoFeatureColumn)
    else Ok(FirstMax(Gains(data, gain)))
  }

  /**
   * The chosen column is exactly the one whose gain is at least that of
   * every column and strictly greater than that of every earlier column.
   */
  lemma BestFeatureIsFirstArgmax<V(!new)>(data: seq<Row<V>>, gain: (seq<Row<V>>, nat) -> real, f: nat)
    requires WellFormed(data) && |data| > 0 && f < |data[0]| - 1
    ensures BestFeature(data, gain) == Ok(f) <==>
      && (forall j :: 0 <= j < |data[0]| - 1 ==> gain(data, j) <= gain(data, f))
      && (forall j :: 0 <= j < f ==> gain(data, j) < gain(data, f))
  {
    var g := Gains(data, gain);
    if (forall j :: 0 <= j < |data[0]| - 1 ==> gain(data, j) <= gain(data, f))
       && (forall j :: 0 <= j < f ==> gain(data, j) < gain(data, f)) {
      FirstMaxUnique(g, f);
    }
  }

  /**
   * `potential_leaf_node`: the most common category with its count; among
   * equally common categories the one that occurs first (`most_common(1)`).
   */
  function PotentialLeaf<V(==,!new)>(data: seq<Row<V>>): (r: Result<(V, nat), Fault>)
    requires forall row :: row in data ==> |row| > 0
    ensures r.Err? <==> |data| == 0
    ensures r == Err(EmptyData) || r.Ok?
    ensures r.Ok? ==> r.value.1 == Count(data, r.value.0) && r.value.0 in Categories(data)
  {
    if |data| == 0 then Err(EmptyData)
    else
      var cats := Categories(data);
      assert Category(data[0]) in cats;
      var counts := seq(|cats|, i requires 0 <= i < |cats| => Count(data, cats[i]) as real);
      var k := FirstMax(counts);
      Ok((cats[k], Count(data, cats[k])))
  }

  /** No category occurs in more rows than the one chosen. */
  lemma PotentialLeafIsMostCommon<V(!new)>(data: seq<Row<V>>, row: Row<V>)
    requires forall row :: row in data ==> |row| > 0
    requires row in data
    ensures PotentialLeaf(data).Ok?
    ensures Count(data, Category(row)) <= PotentialLeaf(data).value.1
  {
    var cats := Categories(data);
    var counts := seq(|cats|, i requires 0 <= i < |cats| => Count(data, cats[i]) as real);
    var k := FirstMax(counts);
    var i :| 0 <= i < |cats| && cats[i] == Category(row);
    assert counts[i] <= counts[k];
  }

  /**
   * Ties go to the category that occurs first: every category whose first
   * occurrence comes earlier is strictly less common.
   */
  lemma PotentialLeafFirstWins<V(!new)>(data: seq<Row<V>>)
    requires |data| > 0 && forall row :: row in data ==> |row| > 0
    ensures PotentialLeaf(data).Ok?
    ensures var (c, n) := PotentialLeaf(data).value;
      forall j :: 0 <= j < IndexOf(Categories(data), c) ==> Count(data, Categories(data)[j]) < n
  {
    var cats := Categories(data);
    var counts := seq(|cats|, i requires 0 <= i < |cats| => Count(data, cats[i]) as real);
    var k := FirstMax(counts);
    assert IndexOf(cats, cats[k]) == k;
    forall j | 0 <= j < k ensures Count(data, cats[j]) < Count(data, cats[k]) {
      assert counts[j] < counts[k];
    }
  }

  /**
   * The same tie-break over the rows: the category of every row that comes
   * before the first row carrying the chosen category is strictly less
   * common. `Counter` keeps keys in order of first insertion, and that is
   * the order `most_common` breaks ties by.
   */
  lemma PotentialLeafFirstRow<V(!new)>(data: seq<Row<V>>, j: nat)
    requires |data| > 0 && forall row :: row in data ==> |row| > 0
    requires j < |data|
    ensures PotentialLeaf(data).Ok?
    ensures var (c, n) := PotentialLeaf(data).value;
      (forall k :: 0 <= k <= j ==> Category(data[k]) != c) ==> Count(data, Category(data[j])) < n
  {
    var (c, n) := PotentialLeaf(data).value;
    if forall k :: 0 <= k <= j ==> Category(data[k]) != c {
      var col := CategoryColumn(data);
      var x := Category(data[j]);
      assert col[j] == x;
      assert c in col by {
        var i :| 0 <= i < |data| && Category(data[i]) == c;
        assert col[i] == c;
      }
      assert IndexOf(col, x) <= j;
      assert IndexOf(col, c) > j by {
        assert col[IndexOf(col, c)] == Category(data[IndexOf(col, c)]);
      }
      DistinctKeepsOrder(col, x, c);
      PotentialLeafFirstWins(data);
    }
  }

  /** The leaf test: the most common count equals the number of rows exactly when the rows are pure. */
  lemma LeafTestIsPurity<V(!new)>(data: seq<Row<V>>)
    requires |data| > 0 && forall row :: row in data ==> |row| > 0
    ensures PotentialLeaf(data).Ok?
    ensures PotentialLeaf(data).value.1 == |data| <==> Pure(data)
    ensures Pure(data) ==> PotentialLeaf(data).value.0 == Category(data[0])
  {
    var (c, n) := PotentialLeaf(data).value;
    CountAll(data, c);
    if Pure(data) {
      CountAll(data, Category(data[0]));
      assert data[0] in data;
      PotentialLeafIsMostCommon(data, data[0]);
    }
  }

  /** A pure dataset has exactly one category. */
  lemma PureCategories<V(!new)>(data: seq<Row<V>>)
    requires |data| > 0 && forall row :: row in data ==> |row| > 0
    requires Pure(data)
    ensures Categories(data) == [Category(data[0])]
  {
    var cats := Categories(data);
    var c := Category(data[0]);
    assert data[0] in data;
    forall i | 0 <= i < |cats| ensures cats[i] == c {
      assert cats[i] in cats;
      var j :| 0 <= j < |data| && Category(data[j]) == cats[i];
      assert data[j] in data;
    }
    NoDupsLength(cats, [c]);
  }

  /** A category carried by every row contributes `-1 * log2(1)`. */
  lemma WholeItemEntropy(n: nat, log2: real -> real)
    requires n > 0 && log2(1.0) == 0.0
    ensures ItemEntropy(n, n, log2) == 0.0
  {
    assert n as real / n as real == 1.0;
  }

  /** With `log2(1) == 0`, a pure dataset has entropy 0. */
  lemma PureEntropyIsZero<V(!new)>(data: seq<Row<V>>, log2: real -> real)
    requires |data| > 0 && forall row :: row in data ==> |row| > 0
    requires Pure(data)
    requires log2(1.0) == 0.0
    ensures Entropy(data, log2) == 0.0
  {
    var c := Category(data[0]);
    var cats := Categories(data);
    PureCategories(data);
    CountAll(data, c);
    WholeItemEntropy(|data|, log2);
    assert cats[..0] == [];
    assert EntropyOver(cats, data, log2) == EntropyOver(cats[..0], data, log2) + ItemEntropy(Count(data, c), |data|, log2);
  }

  /** One item entropy is non-negative when `log2` is non-positive on (0, 1]. */
  lemma ItemEntropyNonNegative(count: nat, n: nat, log2: real -> real)
    requires 0 < n && count <= n
    requires forall p :: 0.0 < p <= 1.0 ==> log2(p) <= 0.0
    ensures ItemEntropy(count, n, log2) >= 0.0
  {
    var ratio := count as real / n as real;
    assert 0.0 <= ratio <= 1.0;
    if ratio > 0.0 {
      var l := log2(ratio);
      assert l <= 0.0;
      ProductSign(ratio, l);
    }
  }

  lemma ProductSign(a: real, b: real)
    requires a >= 0.0 && b <= 0.0
    ensures -1.0 * a * b >= 0.0
  {
  }

  /** With `log2(p) <= 0` on (0, 1], every partial entropy sum is non-negative. */
  lemma {:induction false} EntropyOverNonNegative<V(!new)>(cats: seq<V>, data: seq<Row<V>>, log2: real -> real)
    requires |data| > 0 && forall row :: row in data ==> |row| > 0
    requires forall p :: 0.0 < p <= 1.0 ==> log2(p) <= 0.0
    ensures EntropyOver(cats, data, log2) >= 0.0
  {
    if cats != [] {
      EntropyOverNonNegative(cats[..|cats| - 1], data, log2);
      ItemEntropyNonNegative(Count(data, cats[|cats| - 1]), |data|, log2);
    }
  }

  /** With `log2(p) <= 0` on (0, 1], entropy is never negative. */
  lemma EntropyNonNegative<V(!new)>(data: seq<Row<V>>, log2: real -> real)
    requires forall row :: row in data ==> |row| > 0
    requires forall p :: 0.0 < p <= 1.0 ==> log2(p) <= 0.0
    ensures Entropy(data, log2) >= 0.0
  {
    if |data| > 0 {
      EntropyOverNonNegative(Categories(data), data, log2);
    }
  }
}
