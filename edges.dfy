/**
 * The edge finder (`find_edges`): sort the two coordinate lists in place,
 * classify every point `(d, d)` of their common values, and read the range
 * of the points classified `False` back from the sorted lists.
 *
 * Coordinates are integers. Categories are integers too: Python's `bool`
 * is an integer type, `False == 0`, so a category equals `False` exactly
 * when it is `0`, and `None` (no matching branch) never does.
 */
module Edges {
  import opened Wrappers
  import opened Dataset
  import opened DecisionTree

  predicate Sorted(s: seq<int>) {
    forall p, q :: 0 <= p < q < |s| ==> s[p] <= s[q]
  }

  predicate StrictlyAscending(s: seq<int>) {
    forall p, q :: 0 <= p < q < |s| ==> s[p] < s[q]
  }

  /** `list.sort()`: ascending order, by insertion with adjacent swaps. */
  method SortInPlace(a: array<int>)
    modifies a
    ensures Sorted(a[..])
    ensures multiset(a[..]) == multiset(old(a[..]))
  {
    var i := 0;
    while i < a.Length
      invariant 0 <= i <= a.Length
      invariant Sorted(a[..i])
      invariant multiset(a[..]) == multiset(old(a[..]))
    {
      Insert(a, i);
      i := i + 1;
    }
    assert a[..a.Length] == a[..];
  }

  /** Moves `a[i]` left past every larger entry, so that the first `i + 1` entries are sorted. */
  method Insert(a: array<int>, i: nat)
    requires i < a.Length && Sorted(a[..i])
    modifies a
    ensures Sorted(a[..i + 1])
    ensures multiset(a[..]) == multiset(old(a[..]))
    ensures a[i + 1..] == old(a[i + 1..])
  {
    var j := i;
    while j > 0 && a[j - 1] > a[j]
      invariant 0 <= j <= i
      invariant a[i + 1..] == old(a[i + 1..])
      invariant forall p, q :: 0 <= p < q <= i && p != j && q != j ==> a[p] <= a[q]
      invariant forall q :: j < q <= i ==> a[j] < a[q]
      invariant multiset(a[..]) == multiset(old(a[..]))
    {
      Swap(a, j - 1, j);
      j := j - 1;
    }
  }

  /** Exchanges two entries; the multiset of entries stays the same. */
  method Swap(a: array<int>, p: nat, q: nat)
    requires p < q < a.Length
    modifies a
    ensures a[..] == old(a[..])[p := old(a[q])][q := old(a[p])]
    ensures multiset(a[..]) == multiset(old(a[..]))
  {
    a[p], a[q] := a[q], a[p];
  }

  /**
   * `sorted(set(xs) & set(ys))` for an ascending `xs`: each value of `xs`
   * that `ys` holds too, kept once, in the order of `xs`.
   */
  function Diagonals(xs: seq<int>, ys: seq<int>): (d: seq<int>)
    requires Sorted(xs)
    ensures |d| <= |xs|
  {
    if xs == [] then []
    else
      var d := Diagonals(xs[..|xs| - 1], ys);
      var v := xs[|xs| - 1];
      if v in ys && v !in d then d + [v] else d
  }

  /** The diagonal holds exactly the values common to both lists. */
  lemma {:induction false} DiagonalsMembers(xs: seq<int>, ys: seq<int>)
    requires Sorted(xs)
    ensures forall v :: v in Diagonals(xs, ys) <==> v in xs && v in ys
  {
    if xs != [] {
      var init := xs[..|xs| - 1];
      assert xs == init + [xs[|xs| - 1]];
      DiagonalsMembers(init, ys);
    }
  }

  /** The diagonal is strictly ascending, so it holds each common value once. */
  lemma {:induction false} DiagonalsAscending(xs: seq<int>, ys: seq<int>)
    requires Sorted(xs)
    ensures StrictlyAscending(Diagonals(xs, ys))
  {
    if xs != [] {
      var init := xs[..|xs| - 1];
      var v := xs[|xs| - 1];
      var d := Diagonals(init, ys);
      DiagonalsAscending(init, ys);
      DiagonalsMembers(init, ys);
      if v in ys && v !in d {
        forall p | 0 <= p < |d| ensures d[p] < v {
          assert d[p] in d;
          var q :| 0 <= q < |init| && init[q] == d[p];
        }
      }
    }
  }

  /** There are no more common values than values of `ys`. */
  lemma DiagonalsShorter(xs: seq<int>, ys: seq<int>)
    requires Sorted(xs)
    ensures |Diagonals(xs, ys)| <= |ys|
  {
    DiagonalsAscending(xs, ys);
    DiagonalsMembers(xs, ys);
    NoDupsLength(Diagonals(xs, ys), ys);
  }

  /** A strictly ascending list is determined by its members: the sorting of a set is unique. */
  lemma {:induction false} AscendingUnique(a: seq<int>, b: seq<int>)
    requires StrictlyAscending(a) && StrictlyAscending(b)
    requires forall v :: v in a <==> v in b
    ensures a == b
  {
    SameMembersSameLength(a, b);
    if a != [] {
      AscendingLastAgrees(a, b);
      var ia, ib := a[..|a| - 1], b[..|b| - 1];
      AscendingInitsAgree(a, b, ia, ib);
      AscendingUnique(ia, ib);
      assert a == ia + [a[|a| - 1]] && b == ib + [b[|b| - 1]];
    }
  }

  /** Lists without duplicates that hold the same members are equally long. */
  lemma SameMembersSameLength(a: seq<int>, b: seq<int>)
    requires StrictlyAscending(a) && StrictlyAscending(b)
    requires forall v :: v in a <==> v in b
    ensures |a| == |b|
  {
    DistinctCard(a);
    DistinctCard(b);
    assert (set x | x in a) == (set x | x in b);
  }

  /** Two strictly ascending lists with the same members end in the same (largest) value. */
  lemma AscendingLastAgrees(a: seq<int>, b: seq<int>)
    requires StrictlyAscending(a) && StrictlyAscending(b)
    requires forall v :: v in a <==> v in b
    requires |a| > 0 && |b| > 0
    ensures a[|a| - 1] == b[|b| - 1]
  {
    var la, lb := a[|a| - 1], b[|b| - 1];
    assert la in a && lb in b;
    var p :| 0 <= p < |b| && b[p] == la;
    var q :| 0 <= q < |a| && a[q] == lb;
  }

  /** With the common last value dropped, the two lists still hold the same members. */
  lemma AscendingInitsAgree(a: seq<int>, b: seq<int>, ia: seq<int>, ib: seq<int>)
    requires StrictlyAscending(a) && StrictlyAscending(b)
    requires forall v :: v in a <==> v in b
    requires |a| > 0 && |b| > 0 && a[|a| - 1] == b[|b| - 1]
    requires ia == a[..|a| - 1] && ib == b[..|b| - 1]
    ensures StrictlyAscending(ia) && StrictlyAscending(ib)
    ensures forall v :: v in ia <==> v in ib
  {
    forall v ensures v in ia <==> v in ib {
      if v in ia {
        var p :| 0 <= p < |ia| && ia[p] == v;
        assert a[p] == v && v in b;
        var q :| 0 <= q < |b| && b[q] == v;
      }
      if v in ib {
        var p :| 0 <= p < |ib| && ib[p] == v;
        assert b[p] == v && v in a;
        var q :| 0 <= q < |a| && a[q] == v;
      }
    }
  }

  /** The classification of the diagonal point `(d, d)`: `classify(tree, label, [d, d])`. */
  function PointClass(t: Tree<int>, labels: seq<string>): int -> Result<Option<int>, Fault> {
    d => Classify(t, labels, [d, d])
  }

  /** `L = [classify(d) for d in ds]`; the first exception propagates. */
  function ClassifyAll(classify: int -> Result<Option<int>, Fault>, ds: seq<int>): (r: Result<seq<Option<int>>, Fault>)
    ensures r.Ok? ==> |r.value| == |ds|
  {
    if ds == [] then Ok([])
    else
      var earlier :- ClassifyAll(classify, ds[..|ds| - 1]);
      var c :- classify(ds[|ds| - 1]);
      Ok(earlier + [c])
  }

  /** Entry `i` of a successful `L` is the classification of `ds[i]`. */
  lemma {:induction false} ClassifyAllAt(classify: int -> Result<Option<int>, Fault>, ds: seq<int>, i: nat)
    requires ClassifyAll(classify, ds).Ok? && i < |ds|
    ensures classify(ds[i]) == Ok(ClassifyAll(classify, ds).value[i])
  {
    var init := ds[..|ds| - 1];
    if i < |init| {
      assert init[i] == ds[i];
      ClassifyAllAt(classify, init, i);
    }
  }

  /**
   * Building `L` fails exactly when classifying some value fails, and then
   * with the exception of the first value that fails.
   */
  lemma {:induction false} ClassifyAllErr(classify: int -> Result<Option<int>, Fault>, ds: seq<int>)
    ensures ClassifyAll(classify, ds).Err? <==> exists i :: 0 <= i < |ds| && classify(ds[i]).Err?
    ensures ClassifyAll(classify, ds).Err? ==>
      exists i :: 0 <= i < |ds| && classify(ds[i]) == Err(ClassifyAll(classify, ds).error)
        && forall k :: 0 <= k < i ==> classify(ds[k]).Ok?
  {
    if ds != [] {
      var init := ds[..|ds| - 1];
      ClassifyAllErr(classify, init);
      assert forall k :: 0 <= k < |init| ==> init[k] == ds[k];
      if ClassifyAll(classify, init).Ok? {
        forall k | 0 <= k < |init| ensures classify(ds[k]).Ok? {
          ClassifyAllAt(classify, init, k);
        }
      }
    }
  }

  /** `L[::-1]` */
  function Reverse<T>(s: seq<T>): (r: seq<T>)
    ensures |r| == |s|
    ensures forall i :: 0 <= i < |s| ==> r[i] == s[|s| - 1 - i]
  {
    seq(|s|, i requires 0 <= i < |s| => s[|s| - 1 - i])
  }

  /** The position of the last element equal to `x`. */
  function LastIndex<T(==)>(s: seq<T>, x: T): (j: nat)
    requires x in s
    ensures j < |s| && s[j] == x
    ensures forall k :: j < k < |s| ==> s[k] != x
  {
    if s[|s| - 1] == x then |s| - 1
    else
      assert s == s[..|s| - 1] + [s[|s| - 1]];
      LastIndex(s[..|s| - 1], x)
  }

  /** Searching the reversed list finds the last occurrence, counted from the end. */
  lemma ReversedFirstIsLast<T(!new)>(s: seq<T>, x: T)
    requires x in s
    ensures FirstIndex(Reverse(s), x) == Some(|s| - 1 - LastIndex(s, x))
  {
    var j := LastIndex(s, x);
    assert Reverse(s)[|s| - 1 - j] == x;
    var h := FirstIndex(Reverse(s), x).value;
    assert s[|s| - 1 - h] == x;
    forall k | 0 <= k < |s| - 1 - j ensures Reverse(s)[k] != x {
      assert Reverse(s)[k] == s[|s| - 1 - k];
    }
  }

  /** `x == False` for a classification result: only the category `0` compares equal. */
  const FalseClass: Option<int> := Some(0)

  /** The two coordinate ranges `find_edges` returns for the sorted lists `xs` and `ys`. */
  function FoundEdges(t: Tree<int>, labels: seq<string>, xs: seq<int>, ys: seq<int>): Result<((int, int), (int, int)), Fault>
    requires Sorted(xs) && Sorted(ys)
  {
    var diagonals := Diagonals(xs, ys);
    DiagonalsShorter(xs, ys);
    var L :- ClassifyAll(PointClass(t, labels), diagonals);
    ReadEdges(L, xs, ys)
  }

  /**
   * `low = L.index(False)`, `high = L[::-1].index(False)` and the list
   * entries at `low` and at `len - 1 - high`.
   */
  function ReadEdges(L: seq<Option<int>>, xs: seq<int>, ys: seq<int>): Result<((int, int), (int, int)), Fault>
    requires |L| <= |xs| && |L| <= |ys|
  {
    match FirstIndex(L, FalseClass)
    case None => Err(NoFalse)
    case Some(low) =>
      assert Reverse(L)[|L| - 1 - low] == FalseClass;
      var high := FirstIndex(Reverse(L), FalseClass).value;
      Ok(((xs[low], xs[|xs| - 1 - high]), (ys[low], ys[|ys| - 1 - high])))
  }

  /**
   * `find_edges`: sorts the caller's `X` and `Y` (the same list twice, if
   * they are one), then computes the edges of the sorted lists.
   */
  method FindEdges(t: Tree<int>, labels: seq<string>, X: array<int>, Y: array<int>) returns (r: Result<((int, int), (int, int)), Fault>)
    modifies X, Y
    ensures Sorted(X[..]) && multiset(X[..]) == multiset(old(X[..]))
    ensures Sorted(Y[..]) && multiset(Y[..]) == multiset(old(Y[..]))
    ensures r == FoundEdges(t, labels, X[..], Y[..])
  {
    SortInPlace(X);
    SortInPlace(Y);
    var xs, ys := X[..], Y[..];
    var diagonals := Diagonals(xs, ys);
    DiagonalsShorter(xs, ys);
    var L := ClassifyAll(PointClass(t, labels), diagonals);
    if L.Err? {
      return Err(L.error);
    }
    r := FindEdgesIn(L.value, X, Y);
  }

  /** The index arithmetic of `find_edges` over the sorted arrays. */
  method FindEdgesIn(L: seq<Option<int>>, X: array<int>, Y: array<int>) returns (r: Result<((int, int), (int, int)), Fault>)
    requires |L| <= X.Length && |L| <= Y.Length
    ensures r == ReadEdges(L, X[..], Y[..])
  {
    var low := FirstIndex(L, FalseClass);
    if low.None? {
      return Err(NoFalse);
    }
    var minX := X[low.value];
    var minY := Y[low.value];
    ReversedFirstIsLast(L, FalseClass);
    var high := FirstIndex(Reverse(L), FalseClass).value;
    var maxX := X[X.Length - 1 - high];
    var maxY := Y[Y.Length - 1 - high];
    return Ok(((minX, maxX), (minY, maxY)));
  }

  /**
   * The edge finder raises `ValueError` exactly when every point is
   * classified and none of them is `False`.
   */
  lemma EdgesNoFalse(t: Tree<int>, labels: seq<string>, xs: seq<int>, ys: seq<int>)
    requires Sorted(xs) && Sorted(ys)
    ensures FoundEdges(t, labels, xs, ys) == Err(NoFalse) <==>
      ClassifyAll(PointClass(t, labels), Diagonals(xs, ys)).Ok? && FalseClass !in ClassifyAll(PointClass(t, labels), Diagonals(xs, ys)).value
  {
    var d := Diagonals(xs, ys);
    ClassifyAllErr(PointClass(t, labels), d);
    if ClassifyAll(PointClass(t, labels), d).Err? {
      var i :| 0 <= i < |d| && PointClass(t, labels)(d[i]) == Err(ClassifyAll(PointClass(t, labels), d).error)
        && forall k :: 0 <= k < i ==> PointClass(t, labels)(d[k]).Ok?;
      ClassifyNeverNoFalse(t, labels, [d[i], d[i]]);
    }
  }

  /** Classification raises only the exceptions of `classify` itself. */
  lemma {:induction false} ClassifyNeverNoFalse(t: Tree<int>, labels: seq<string>, row: seq<int>)
    ensures Classify(t, labels, row) != Err(NoFalse)
  {
    match t
    case Leaf(_) =>
    case Node(root, children) =>
      if root in labels && |children| > 0 && IndexOf(labels, root) < |row| {
        var k := Lookup(children, row[IndexOf(labels, root)]);
        if k.Some? {
          assert children[k.value] in children;
          ClassifyNeverNoFalse(children[k.value].1, labels, row);
        }
      }
  }

  /**
   * Once every diagonal point is classified, the edges are read from `L`
   * and the two sorted lists alone, and `L` is no longer than either list,
   * so the index arithmetic of `ReadEdgesRange` applies.
   */
  lemma EdgesRead(t: Tree<int>, labels: seq<string>, xs: seq<int>, ys: seq<int>)
    requires Sorted(xs) && Sorted(ys)
    ensures ClassifyAll(PointClass(t, labels), Diagonals(xs, ys)).Err? ==>
      FoundEdges(t, labels, xs, ys) == Err(ClassifyAll(PointClass(t, labels), Diagonals(xs, ys)).error)
    ensures ClassifyAll(PointClass(t, labels), Diagonals(xs, ys)).Ok? ==>
      var L := ClassifyAll(PointClass(t, labels), Diagonals(xs, ys)).value;
      && |L| <= |xs| && |L| <= |ys|
      && FoundEdges(t, labels, xs, ys) == ReadEdges(L, xs, ys)
  {
    DiagonalsShorter(xs, ys);
  }

  /** The index arithmetic of `ReadEdges` on any list `L` no longer than the two sorted lists. */
  lemma ReadEdgesRange(L: seq<Option<int>>, xs: seq<int>, ys: seq<int>)
    requires Sorted(xs) && Sorted(ys) && |L| <= |xs| && |L| <= |ys|
    ensures ReadEdges(L, xs, ys).Err? <==> FalseClass !in L
    ensures ReadEdges(L, xs, ys).Err? ==> ReadEdges(L, xs, ys) == Err(NoFalse)
    ensures ReadEdges(L, xs, ys).Ok? ==>
      var i, j := IndexOf(L, FalseClass), LastIndex(L, FalseClass);
      var e := ReadEdges(L, xs, ys).value;
      && i <= j
      && e.0.0 == xs[i] && e.0.1 == xs[|xs| - |L| + j]
      && e.1.0 == ys[i] && e.1.1 == ys[|ys| - |L| + j]
      && e.0.0 <= e.0.1 && e.1.0 <= e.1.1
  {
    if FalseClass in L {
      ReversedFirstIsLast(L, FalseClass);
      var i, j := IndexOf(L, FalseClass), LastIndex(L, FalseClass);
      assert i <= j;
      SortedLe(xs, i, |xs| - |L| + j);
      SortedLe(ys, i, |ys| - |L| + j);
    }
  }

  lemma SortedLe(s: seq<int>, p: nat, q: nat)
    requires Sorted(s) && p <= q < |s|
    ensures s[p] <= s[q]
  {
  }

  /**
   * For one strictly ascending grid passed as both lists, the diagonal is
   * the grid itself, so the edges are the smallest and the largest grid
   * value whose point is classified `False`.
   */
  lemma EdgesOnSharedGrid(t: Tree<int>, labels: seq<string>, grid: seq<int>)
    requires StrictlyAscending(grid)
    ensures Sorted(grid)
    ensures Diagonals(grid, grid) == grid
    ensures FoundEdges(t, labels, grid, grid).Ok? ==>
      FoundEdges(t, labels, grid, grid) == IntendedEdges(t, labels, grid, grid)
  {
    assert Diagonals(grid, grid) == grid by {
      DiagonalsAscending(grid, grid);
      DiagonalsMembers(grid, grid);
      AscendingUnique(Diagonals(grid, grid), grid);
    }
    var L := ClassifyAll(PointClass(t, labels), grid);
    if L.Ok? {
      assert FoundEdges(t, labels, grid, grid) == ReadEdges(L.value, grid, grid) by {
        EdgesRead(t, labels, grid, grid);
      }
      assert IntendedEdges(t, labels, grid, grid) == ReadIntended(L.value, grid);
      ReadAligned(L.value, grid);
    }
  }

  /** A tree over `x` that sends `1` to `False` (category `0`) and `2` to `True` (category `1`). */
  const SplitOnX: Tree<int> := Node("x", [(1, Leaf(0)), (2, Leaf(1))])

  /** `X = [0, 1, 2]` and `Y = [1, 2]` share the diagonal `[1, 2]`. */
  lemma MismatchedListsDiagonal()
    ensures Diagonals([0, 1, 2], [1, 2]) == [1, 2]
  {
    assert [0, 1, 2][..2] == [0, 1] && [0, 1][..1] == [0] && [0][..0] == [];
    assert Diagonals([], [1, 2]) == [];
    assert Diagonals([0], [1, 2]) == [];
    assert Diagonals([0, 1], [1, 2]) == [1];
  }

  /** `SplitOnX` classifies the diagonal `[1, 2]` as `[False, True]`. */
  lemma SplitOnXClassifiesDiagonal()
    ensures ClassifyAll(PointClass(SplitOnX, ["x", "y"]), [1, 2]) == Ok([FalseClass, Some(1)])
  {
    var c := PointClass(SplitOnX, ["x", "y"]);
    assert IndexOf(["x", "y"], "x") == 0;
    assert c(1) == Classify(SplitOnX, ["x", "y"], [1, 1]) == Ok(FalseClass);
    assert c(2) == Classify(SplitOnX, ["x", "y"], [2, 2]) == Ok(Some(1));
    assert [1][..0] == [] && ClassifyAll(c, [1][..0]) == Ok([]);
    var once := ClassifyAll(c, [1]);
    assert once.Ok? && once.value == [] + [FalseClass];
    assert [1, 2][..1] == [1];
    var twice := ClassifyAll(c, [1, 2]);
    assert twice.Ok? && twice.value == [FalseClass] + [Some(1)] == [FalseClass, Some(1)];
  }

  /**
   * With the tree `SplitOnX`, `X = [0, 1, 2]` and `Y = [1, 2]`, the only
   * diagonal point classified `False` is `(1, 1)`, yet the edge finder
   * reports the `x` range `(0, 1)`: it indexes `X` with positions of `L`.
   */
  lemma EdgesMisreadX()
    ensures FoundEdges(SplitOnX, ["x", "y"], [0, 1, 2], [1, 2]) == Ok(((0, 1), (1, 1)))
  {
    var xs, ys := [0, 1, 2], [1, 2];
    var L := ClassifyAll(PointClass(SplitOnX, ["x", "y"]), Diagonals(xs, ys));
    assert L == Ok([FalseClass, Some(1)]) by {
      MismatchedListsDiagonal();
      SplitOnXClassifiesDiagonal();
    }
    assert FoundEdges(SplitOnX, ["x", "y"], xs, ys) == ReadEdges(L.value, xs, ys) by {
      EdgesRead(SplitOnX, ["x", "y"], xs, ys);
    }
    MismatchedListsRead();
  }

  /** The index arithmetic on `L = [False, True]`: `low = 0` and `high = 1`. */
  lemma MismatchedListsRead()
    ensures ReadEdges([FalseClass, Some(1)], [0, 1, 2], [1, 2]) == Ok(((0, 1), (1, 1)))
  {
    var L := [FalseClass, Some(1)];
    assert Reverse(L) == [Some(1), FalseClass];
    assert FirstIndex(L, FalseClass) == Some(0);
    assert FirstIndex(Reverse(L), FalseClass) == Some(1);
  }

  /** For the same input the intended ranges are `(1, 1)` for both coordinates. */
  lemma MismatchedListsIntended()
    ensures IntendedEdges(SplitOnX, ["x", "y"], [0, 1, 2], [1, 2]) == Ok(((1, 1), (1, 1)))
  {
    MismatchedListsDiagonal();
    SplitOnXClassifiesDiagonal();
    var L := [FalseClass, Some(1)];
    assert IndexOf(L, FalseClass) == 0;
    assert LastIndex(L, FalseClass) == 0;
  }

  /** A tree over `x` that sends `0` to `True` (category `1`) and `1` to `False` (category `0`). */
  const FlipOnX: Tree<int> := Node("x", [(0, Leaf(1)), (1, Leaf(0))])

  /** The list `[0, 0, 1]`, given as both `X` and `Y`, has the diagonal `[0, 1]`. */
  lemma RepeatedGridDiagonal()
    ensures Diagonals([0, 0, 1], [0, 0, 1]) == [0, 1]
  {
    assert [0, 0, 1][..2] == [0, 0] && [0, 0][..1] == [0] && [0][..0] == [];
    assert Diagonals([], [0, 0, 1]) == [];
    assert Diagonals([0], [0, 0, 1]) == [0];
    assert Diagonals([0, 0], [0, 0, 1]) == [0];
  }

  /** `FlipOnX` classifies the diagonal `[0, 1]` as `[True, False]`. */
  lemma FlipOnXClassifiesDiagonal()
    ensures ClassifyAll(PointClass(FlipOnX, ["x", "y"]), [0, 1]) == Ok([Some(1), FalseClass])
  {
    var c := PointClass(FlipOnX, ["x", "y"]);
    assert IndexOf(["x", "y"], "x") == 0;
    assert c(0) == Classify(FlipOnX, ["x", "y"], [0, 0]) == Ok(Some(1));
    assert c(1) == Classify(FlipOnX, ["x", "y"], [1, 1]) == Ok(FalseClass);
    assert [0][..0] == [] && ClassifyAll(c, [0][..0]) == Ok([]);
    var once := ClassifyAll(c, [0]);
    assert once.Ok? && once.value == [] + [Some(1)];
    assert [0, 1][..1] == [0];
    var twice := ClassifyAll(c, [0, 1]);
    assert twice.Ok? && twice.value == [Some(1)] + [FalseClass] == [Some(1), FalseClass];
  }

  /** The index arithmetic on `L = [True, False]`: `low = 1` and `high = 0`. */
  lemma RepeatedGridRead()
    ensures ReadEdges([Some(1), FalseClass], [0, 0, 1], [0, 0, 1]) == Ok(((0, 1), (0, 1)))
  {
    var L := [Some(1), FalseClass];
    assert Reverse(L) == [FalseClass, Some(1)];
    assert FirstIndex(L, FalseClass) == Some(1);
    assert FirstIndex(Reverse(L), FalseClass) == Some(0);
  }

  /**
   * One list with a repeated value, given as both `X` and `Y`, is misread
   * too: with `FlipOnX` and `X = Y = [0, 0, 1]` only `(1, 1)` is classified
   * `False`, yet the edge finder reports the ranges `(0, 1)`.
   */
  lemma EdgesMisreadRepeatedGrid()
    ensures FoundEdges(FlipOnX, ["x", "y"], [0, 0, 1], [0, 0, 1]) == Ok(((0, 1), (0, 1)))
  {
    var grid := [0, 0, 1];
    var L := ClassifyAll(PointClass(FlipOnX, ["x", "y"]), Diagonals(grid, grid));
    assert L == Ok([Some(1), FalseClass]) by {
      RepeatedGridDiagonal();
      FlipOnXClassifiesDiagonal();
    }
    assert FoundEdges(FlipOnX, ["x", "y"], grid, grid) == ReadEdges(L.value, grid, grid) by {
      EdgesRead(FlipOnX, ["x", "y"], grid, grid);
    }
    RepeatedGridRead();
  }

  /** For the same input the intended ranges are `(1, 1)` for both coordinates. */
  lemma RepeatedGridIntended()
    ensures IntendedEdges(FlipOnX, ["x", "y"], [0, 0, 1], [0, 0, 1]) == Ok(((1, 1), (1, 1)))
  {
    RepeatedGridDiagonal();
    FlipOnXClassifiesDiagonal();
    var L := [Some(1), FalseClass];
    assert IndexOf(L, FalseClass) == 1;
    assert LastIndex(L, FalseClass) == 1;
  }

  /**
   * The ranges `find_edges` evidently means: the smallest and the largest
   * common value whose diagonal point is classified `False`, for `x` and
   * `y` alike, read from the diagonal itself.
   */
  function IntendedEdges(t: Tree<int>, labels: seq<string>, xs: seq<int>, ys: seq<int>): Result<((int, int), (int, int)), Fault>
    requires Sorted(xs)
  {
    var diagonals := Diagonals(xs, ys);
    var L :- ClassifyAll(PointClass(t, labels), diagonals);
    ReadIntended(L, diagonals)
  }

  /** The diagonal values at the first and at the last `False` of `L`. */
  function ReadIntended(L: seq<Option<int>>, diagonals: seq<int>): Result<((int, int), (int, int)), Fault>
    requires |L| == |diagonals|
  {
    if FalseClass !in L then Err(NoFalse)
    else
      var low, high := IndexOf(L, FalseClass), LastIndex(L, FalseClass);
      Ok(((diagonals[low], diagonals[high]), (diagonals[low], diagonals[high])))
  }

  /** With `L` as long as both lists, reading the lists and reading the diagonal agree. */
  lemma ReadAligned(L: seq<Option<int>>, grid: seq<int>)
    requires |L| == |grid|
    ensures ReadEdges(L, grid, grid) == ReadIntended(L, grid)
  {
    if FalseClass in L {
      ReversedFirstIsLast(L, FalseClass);
    }
  }

  /**
   * On success both intended ranges run from a common value classified
   * `False` to another one, and enclose every common value classified
   * `False`; otherwise they fail exactly as the edge finder does.
   */
  lemma IntendedEdgesBound(t: Tree<int>, labels: seq<string>, xs: seq<int>, ys: seq<int>)
    requires Sorted(xs) && Sorted(ys)
    ensures IntendedEdges(t, labels, xs, ys).Err? <==> FoundEdges(t, labels, xs, ys).Err?
    ensures IntendedEdges(t, labels, xs, ys).Err? ==>
      IntendedEdges(t, labels, xs, ys) == FoundEdges(t, labels, xs, ys)
    ensures IntendedEdges(t, labels, xs, ys).Ok? ==>
      var e := IntendedEdges(t, labels, xs, ys).value;
      var (lo, hi) := e.0;
      && e.1 == e.0
      && lo in xs && lo in ys && hi in xs && hi in ys
      && Classify(t, labels, [lo, lo]) == Ok(FalseClass)
      && Classify(t, labels, [hi, hi]) == Ok(FalseClass)
      && forall v :: v in xs && v in ys && Classify(t, labels, [v, v]) == Ok(FalseClass) ==> lo <= v <= hi
  {
    var d := Diagonals(xs, ys);
    DiagonalsAscending(xs, ys);
    DiagonalsMembers(xs, ys);
    var r := ClassifyAll(PointClass(t, labels), d);
    if r.Ok? && FalseClass in r.value {
      var L := r.value;
      var low, high := IndexOf(L, FalseClass), LastIndex(L, FalseClass);
      ClassifyAllAt(PointClass(t, labels), d, low);
      ClassifyAllAt(PointClass(t, labels), d, high);
      forall v | v in xs && v in ys && Classify(t, labels, [v, v]) == Ok(FalseClass)
        ensures d[low] <= v <= d[high]
      {
        var k :| 0 <= k < |d| && d[k] == v;
        ClassifyAllAt(PointClass(t, labels), d, k);
        assert L[k] == FalseClass;
      }
    }
  }
}
