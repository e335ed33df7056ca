/**
 * Rows, columns and partitions of a categorical dataset.
 *
 * A row is a Python list `[feature_0, ..., feature_{n-1}, category]`: the
 * category is the last element. Values are opaque and compared only for
 * equality.
 */
module Dataset {
  import opened Wrappers

  type Row<V> = seq<V>

  /** The exceptions the modelled functions can raise, one per cause. */
  datatype Fault =
    | EmptyData        // IndexError: `most_common(1)[0]` or `data[0]` on no rows
    | NoFeatureColumn  // ValueError: `max` over an empty list of gains (rows hold only a category)
    | Diverges         // the chosen column is constant, so `create_tree` recurses on the same rows forever
    | NotANode         // AttributeError: a bare category has no `.keys()`
    | UnknownLabel     // ValueError: `label.index(root)` finds no such label
    | RowTooShort      // IndexError: `data[index]` past the end of the row
    | NoFalse          // ValueError: `L.index(False)` finds no False

  /** Every row has `width` entries. */
  predicate Rows<V(==,!new)>(data: seq<Row<V>>, width: nat) {
    forall r :: r in data ==> |r| == width
  }

  /** All rows are as long as the first, and that length leaves room for a category. */
  predicate WellFormed<V(==,!new)>(data: seq<Row<V>>) {
    |data| == 0 || (|data[0]| >= 1 && Rows(data, |data[0]|))
  }

  /** `row[-1]` */
  function Category<V(==,!new)>(row: Row<V>): V
    requires |row| > 0
  {
    row[|row| - 1]
  }

  predicate NoDups<T(==,!new)>(s: seq<T>) {
    forall i, j :: 0 <= i < j < |s| ==> s[i] != s[j]
  }

  /** Python `list.index`: the position of the first occurrence of `x`. */
  function IndexOf<T(==,!new)>(s: seq<T>, x: T): (i: nat)
    requires x in s
    ensures i < |s| && s[i] == x
    ensures forall j :: 0 <= j < i ==> s[j] != x
  {
    if s[0] == x then 0 else 1 + IndexOf(s[1..], x)
  }

  /** In a sequence without duplicates, `list.index` of the element at `i` is `i`. */
  lemma IndexOfUnique<T(!new)>(s: seq<T>, i: nat)
    requires NoDups(s) && i < |s|
    ensures s[i] in s && IndexOf(s, s[i]) == i
  {
  }

  /** The position of the first element equal to `x`, if any. */
  function FirstIndex<T(==,!new)>(s: seq<T>, x: T): (r: Option<nat>)
    ensures r.None? <==> x !in s
    ensures r.Some? ==> r.value < |s| && s[r.value] == x
    ensures r.Some? ==> forall j :: 0 <= j < r.value ==> s[j] != x
  {
    if x in s then Some(IndexOf(s, x)) else None
  }

  /** `list.index` over a prefix agrees with `list.index` over the whole sequence. */
  lemma IndexOfPrefix<T(!new)>(s: seq<T>, t: seq<T>, x: T)
    requires x in s
    ensures x in s + t && IndexOf(s + t, x) == IndexOf(s, x)
  {
    var i := IndexOf(s, x);
    assert (s + t)[i] == x;
    var k := IndexOf(s + t, x);
    assert k <= i;
    assert (s + t)[k] == s[k];
  }

  /**
   * The distinct elements of `s` in order of first occurrence. It stands for
   * a Python `set` built from `s`, whose iteration order is unspecified.
   */
  function Distinct<T(==,!new)>(s: seq<T>): (r: seq<T>)
    ensures NoDups(r)
    ensures forall x :: x in r <==> x in s
    ensures |r| <= |s|
  {
    if s == [] then []
    else
      var r := Distinct(s[..|s| - 1]);
      assert s == s[..|s| - 1] + [s[|s| - 1]];
      if s[|s| - 1] in r then r else r + [s[|s| - 1]]
  }

  /**
   * `Distinct` keeps the order of first occurrence: a value that occurs
   * first in `s` before another also comes before it in `Distinct(s)`.
   */
  lemma {:induction false} DistinctKeepsOrder<T(!new)>(s: seq<T>, x: T, y: T)
    requires x in s && y in s && IndexOf(s, x) < IndexOf(s, y)
    ensures x in Distinct(s) && y in Distinct(s)
    ensures IndexOf(Distinct(s), x) < IndexOf(Distinct(s), y)
  {
    var init := s[..|s| - 1];
    var z := s[|s| - 1];
    assert s == init + [z];
    var d := Distinct(init);
    assert IndexOf(s, x) < |init|;
    assert x in init by { assert s[IndexOf(s, x)] == init[IndexOf(s, x)]; }
    IndexOfPrefix(init, [z], x);
    assert Distinct(s) == d || Distinct(s) == d + [z];
    IndexOfPrefix(d, [z], x);
    if y in init {
      IndexOfPrefix(init, [z], y);
      DistinctKeepsOrder(init, x, y);
      IndexOfPrefix(d, [z], y);
    } else {
      assert y == z && y !in d;
      assert Distinct(s) == d + [y];
      assert (d + [y])[|d|] == y;
    }
  }

  /** Column `f` of every row: `[d[f] for d in data]`. */
  function Column<V(==,!new)>(data: seq<Row<V>>, f: nat): (c: seq<V>)
    requires forall r :: r in data ==> f < |r|
    ensures |c| == |data|
    ensures forall i :: 0 <= i < |data| ==> c[i] == data[i][f]
  {
    seq(|data|, i requires 0 <= i < |data| => data[i][f])
  }

  /** A row's own value shows up in its column. */
  lemma ColumnHas<V(!new)>(data: seq<Row<V>>, f: nat, row: Row<V>)
    requires forall r :: r in data ==> f < |r|
    requires row in data
    ensures row[f] in Column(data, f)
  {
    var i :| 0 <= i < |data| && data[i] == row;
    assert Column(data, f)[i] == row[f];
  }

  /** A value no row holds in column `f` is not in that column. */
  lemma ColumnLacks<V(!new)>(data: seq<Row<V>>, f: nat, v: V)
    requires forall r :: r in data ==> f < |r|
    requires forall r :: r in data ==> r[f] != v
    ensures v !in Column(data, f)
  {
    forall i | 0 <= i < |data| ensures Column(data, f)[i] != v {
      assert data[i] in data;
    }
  }

  /** The trailing category of every row: `[item[-1] for item in data]`. */
  function CategoryColumn<V(==,!new)>(data: seq<Row<V>>): (c: seq<V>)
    requires forall r :: r in data ==> |r| > 0
    ensures |c| == |data|
    ensures forall i :: 0 <= i < |data| ==> c[i] == Category(data[i])
  {
    seq(|data|, i requires 0 <= i < |data| => Category(data[i]))
  }

  /** The distinct categories in order of first occurrence (the keys of a `Counter`). */
  function Categories<V(==,!new)>(data: seq<Row<V>>): (cats: seq<V>)
    requires forall r :: r in data ==> |r| > 0
    ensures NoDups(cats)
    ensures forall r :: r in data ==> Category(r) in cats
    ensures forall c :: c in cats ==> exists i :: 0 <= i < |data| && Category(data[i]) == c
  {
    var col := CategoryColumn(data);
    var cats := Distinct(col);
    assert forall r :: r in data ==> Category(r) in col by {
      forall r | r in data ensures Category(r) in col {
        var i :| 0 <= i < |data| && data[i] == r;
        assert col[i] == Category(r);
      }
    }
    cats
  }

  /** The rows whose column `f` equals `v`, in order: `[d for d in data if d[f] == v]`. */
  function Partition<V(==,!new)>(data: seq<Row<V>>, f: nat, v: V): (p: seq<Row<V>>)
    requires forall r :: r in data ==> f < |r|
    ensures |p| <= |data|
  {
    if data == [] then []
    else
      var last := data[|data| - 1];
      assert data == data[..|data| - 1] + [last];
      Partition(data[..|data| - 1], f, v) + (if last[f] == v then [last] else [])
  }

  /** A row is in the partition for `v` exactly when it is a row of `data` holding `v` in column `f`. */
  lemma {:induction false} PartitionMembers<V(!new)>(data: seq<Row<V>>, f: nat, v: V, r: Row<V>)
    requires forall r :: r in data ==> f < |r|
    ensures r in Partition(data, f, v) <==> r in data && r[f] == v
  {
    if data != [] {
      var init := data[..|data| - 1];
      assert data == init + [data[|data| - 1]];
      PartitionMembers(init, f, v, r);
    }
  }

  /** Every row of a partition is a row of `data` holding `v` in column `f`. */
  lemma PartitionSubset<V(!new)>(data: seq<Row<V>>, f: nat, v: V)
    requires forall r :: r in data ==> f < |r|
    ensures forall r :: r in Partition(data, f, v) ==> r in data && r[f] == v
  {
    forall r | r in Partition(data, f, v) ensures r in data && r[f] == v {
      PartitionMembers(data, f, v, r);
    }
  }

  /** The partition keeps every matching row as often as it occurs in `data`, and no other row. */
  lemma {:induction false} PartitionMultiplicity<V(!new)>(data: seq<Row<V>>, f: nat, v: V, r: Row<V>)
    requires forall r :: r in data ==> f < |r|
    ensures multiset(Partition(data, f, v))[r] == if f < |r| && r[f] == v then multiset(data)[r] else 0
  {
    if data != [] {
      var init := data[..|data| - 1];
      var last := data[|data| - 1];
      assert data == init + [last];
      PartitionMultiplicity(init, f, v, r);
    }
  }

  /** How many rows carry category `c` (one entry of a `Counter`). */
  function Count<V(==,!new)>(data: seq<Row<V>>, c: V): (n: nat)
    requires forall r :: r in data ==> |r| > 0
    ensures n <= |data|
  {
    if data == [] then 0
    else
      assert data == data[..|data| - 1] + [data[|data| - 1]];
      Count(data[..|data| - 1], c) + (if Category(data[|data| - 1]) == c then 1 else 0)
  }

  /** The count of `c` is the number of rows whose category is `c`. */
  lemma {:induction false} CountIsMultiplicity<V(!new)>(data: seq<Row<V>>, c: V)
    requires forall r :: r in data ==> |r| > 0
    ensures Count(data, c) == multiset(CategoryColumn(data))[c]
  {
    if data != [] {
      var init := data[..|data| - 1];
      assert data == init + [data[|data| - 1]];
      CountIsMultiplicity(init, c);
      assert CategoryColumn(data) == CategoryColumn(init) + [Category(data[|data| - 1])];
    }
  }

  /** Every row has the same category as the first. */
  predicate Pure<V(==,!new)>(data: seq<Row<V>>)
    requires |data| > 0 && forall r :: r in data ==> |r| > 0
  {
    forall r :: r in data ==> Category(r) == Category(data[0])
  }

  /** A category occurs in as many rows as there are rows exactly when every row carries it. */
  lemma {:induction false} CountAll<V(!new)>(data: seq<Row<V>>, c: V)
    requires forall r :: r in data ==> |r| > 0
    ensures Count(data, c) == |data| <==> forall r :: r in data ==> Category(r) == c
  {
    if data != [] {
      var init := data[..|data| - 1];
      assert data == init + [data[|data| - 1]];
      CountAll(init, c);
    }
  }

  /** A category that some row carries is counted at least once. */
  lemma {:induction false} CountPositive<V(!new)>(data: seq<Row<V>>, c: V)
    requires forall r :: r in data ==> |r| > 0
    requires exists i :: 0 <= i < |data| && Category(data[i]) == c
    ensures Count(data, c) >= 1
  {
    var init := data[..|data| - 1];
    assert data == init + [data[|data| - 1]];
    if Category(data[|data| - 1]) != c {
      var i :| 0 <= i < |data| && Category(data[i]) == c;
      assert init[i] == data[i];
      CountPositive(init, c);
    }
  }

  /** Leaving out a row with another value in column `f` makes the partition smaller. */
  lemma {:induction false} PartitionShrinks<V(!new)>(data: seq<Row<V>>, f: nat, v: V, w: Row<V>)
    requires forall r :: r in data ==> f < |r|
    requires w in data && w[f] != v
    ensures |Partition(data, f, v)| < |data|
  {
    var init := data[..|data| - 1];
    var last := data[|data| - 1];
    assert data == init + [last];
    if last != w {
      assert w in init;
      PartitionShrinks(init, f, v, w);
    }
  }

  /** Splitting on a column that holds a second value `w` leaves rows out of the `v` partition. */
  lemma PartitionShrinksOnOtherValue<V(!new)>(data: seq<Row<V>>, f: nat, v: V, w: V)
    requires forall r :: r in data ==> f < |r|
    requires v != w && w in Column(data, f)
    ensures |Partition(data, f, v)| < |data|
  {
    var col := Column(data, f);
    var i :| 0 <= i < |col| && col[i] == w;
    PartitionShrinks(data, f, v, data[i]);
  }

  /** The sub-partition built for one value of a column is itself well formed and non-empty. */
  lemma PartitionWellFormed<V(!new)>(data: seq<Row<V>>, f: nat, v: V)
    requires WellFormed(data) && |data| > 0 && f < |data[0]|
    requires v in Column(data, f)
    ensures WellFormed(Partition(data, f, v))
    ensures |Partition(data, f, v)| > 0 && |Partition(data, f, v)[0]| == |data[0]|
  {
    var col := Column(data, f);
    var i :| 0 <= i < |col| && col[i] == v;
    PartitionMembers(data, f, v, data[i]);
    PartitionSubset(data, f, v);
  }

  /** A sequence without duplicates is no longer than any sequence holding all its elements. */
  lemma {:induction false} NoDupsLength<T(!new)>(d: seq<T>, s: seq<T>)
    requires NoDups(d)
    requires forall x :: x in d ==> x in s
    ensures |d| <= |s|
  {
    DistinctCard(d);
    SetCard(s);
    assert (set x | x in d) <= (set x | x in s);
    SubsetCard((set x | x in d), (set x | x in s));
  }

  lemma {:induction false} DistinctCard<T(!new)>(d: seq<T>)
    requires NoDups(d)
    ensures |set x | x in d| == |d|
  {
    if d != [] {
      var init := d[..|d| - 1];
      assert d == init + [d[|d| - 1]];
      DistinctCard(init);
      assert (set x | x in d) == (set x | x in init) + {d[|d| - 1]};
    }
  }

  lemma {:induction false} SetCard<T(!new)>(s: seq<T>)
    ensures |set x | x in s| <= |s|
  {
    if s != [] {
      var init := s[..|s| - 1];
      assert s == init + [s[|s| - 1]];
      SetCard(init);
      assert (set x | x in s) == (set x | x in init) + {s[|s| - 1]};
    }
  }

  lemma {:induction false} SubsetCard<T(!new)>(a: set<T>, b: set<T>)
    requires a <= b
    ensures |a| <= |b|
    decreases |a|
  {
    if a != {} {
      var x :| x in a;
      SubsetCard(a - {x}, b - {x});
    }
  }
}
