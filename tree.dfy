/**
 * The tree builder (`create_tree`) and the classifier (`classify`).
 *
 * Python represents an internal node as a one-entry dict
 * `{feature_label: {value: subtree, ...}}` and a leaf as a bare category;
 * here these are the two constructors of `Tree`. The branches keep the
 * iteration order of the dict.
 */
module DecisionTree {
  import opened Wrappers
  import opened Dataset
  import opened Selection

  datatype Tree<V> =
    | Leaf(category: V)
    | Node(name: string, children: seq<(V, Tree<V>)>)

  /** The branch keys of a node, in order. */
  function Keys<V>(children: seq<(V, Tree<V>)>): (ks: seq<V>)
    ensures |ks| == |children|
    ensures forall i :: 0 <= i < |children| ==> ks[i] == children[i].0
  {
    seq(|children|, i requires 0 <= i < |children| => children[i].0)
  }

  lemma KeysSnoc<V>(children: seq<(V, Tree<V>)>)
    requires |children| > 0
    ensures Keys(children) == Keys(children[..|children| - 1]) + [children[|children| - 1].0]
  {
  }

  /** Every category held by a leaf of `t`. */
  ghost function Leaves<V>(t: Tree<V>): set<V>
  {
    match t
    case Leaf(c) => {c}
    case Node(_, children) =>
      set i, c | 0 <= i < |children| && c in Leaves(children[i].1) :: c
  }

  /** Every node of `t` is labelled with a name in `labels`. */
  predicate WellLabelled<V>(t: Tree<V>, labels: seq<string>)
  {
    match t
    case Leaf(_) => true
    case Node(root, children) =>
      root in labels && forall i :: 0 <= i < |children| ==> WellLabelled(children[i].1, labels)
  }

  /** The shape `create_tree` expects: rectangular rows, and a label for every feature column. */
  predicate Trainable<V(==,!new)>(data: seq<Row<V>>, labels: seq<string>)
  {
    WellFormed(data) && (|data| > 0 ==> |data[0]| <= |labels| + 1)
  }

  /**
   * `create_tree`. A pure partition becomes a leaf. Otherwise the node splits
   * on the best feature and gets one child per distinct value of that column,
   * each built from the rows holding that value, with the same labels.
   *
   * When the chosen column holds a single value, the only sub-partition is
   * `data` itself and Python recurses on it without end; that case is the
   * error `Diverges`, so every call here is on strictly fewer rows.
   */
  function CreateTree<V(==,!new)>(data: seq<Row<V>>, labels: seq<string>, gain: (seq<Row<V>>, nat) -> real): Result<Tree<V>, Fault>
    requires Trainable(data, labels)
    decreases |data|, 1
  {
    var leaf :- PotentialLeaf(data);
    if leaf.1 == |data| then Ok(Leaf(leaf.0))
    else
      var feature :- BestFeature(data, gain);
      var classes := Distinct(Column(data, feature));
      if |classes| < 2 then Err(Diverges)
      else
        var children :- MapBranches(classes, Grower(data, labels, gain, feature, classes));
        Ok(Node(labels[feature], children))
  }

  /** The body of the loop of `create_tree`: the subtree for one value `c` of the split column. */
  function Grower<V(==,!new)>(data: seq<Row<V>>, labels: seq<string>, gain: (seq<Row<V>>, nat) -> real,
                              feature: nat, classes: seq<V>): (grow: V --> Result<Tree<V>, Fault>)
    requires Trainable(data, labels) && |data| > 0 && feature < |data[0]| - 1
    requires classes == Distinct(Column(data, feature)) && |classes| >= 2
    ensures forall c :: c in classes ==> grow.requires(c)
    decreases |data|, 0
  {
    c requires c in classes =>
      var other := if c == classes[0] then classes[1] else classes[0];
      PartitionShrinksOnOtherValue(data, feature, c, other);
      PartitionWellFormed(data, feature, c);
      CreateTree(Partition(data, feature, c), labels, gain)
  }

  /**
   * The loop of `create_tree`: one branch per key, in order, each holding the
   * subtree `grow` builds for it; the first failing key's error propagates.
   */
  function MapBranches<V>(keys: seq<V>, grow: V --> Result<Tree<V>, Fault>): (r: Result<seq<(V, Tree<V>)>, Fault>)
    requires forall c :: c in keys ==> grow.requires(c)
    ensures r.Ok? ==> Keys(r.value) == keys
  {
    if keys == [] then Ok([])
    else
      var init := keys[..|keys| - 1];
      assert forall c :: c in init ==> c in keys;
      var earlier :- MapBranches(init, grow);
      var t :- grow(keys[|keys| - 1]);
      KeysSnoc(earlier + [(keys[|keys| - 1], t)]);
      assert keys == init + [keys[|keys| - 1]];
      Ok(earlier + [(keys[|keys| - 1], t)])
  }

  /** Each branch of a successful loop holds exactly the subtree built for its key. */
  lemma {:induction false} MapBranchesAt<V>(keys: seq<V>, grow: V --> Result<Tree<V>, Fault>, i: nat)
    requires forall c :: c in keys ==> grow.requires(c)
    requires MapBranches(keys, grow).Ok? && i < |keys|
    ensures |MapBranches(keys, grow).value| == |keys|
    ensures grow(keys[i]) == Ok(MapBranches(keys, grow).value[i].1)
  {
    var init := keys[..|keys| - 1];
    assert forall c :: c in init ==> c in keys;
    if i < |keys| - 1 {
      MapBranchesAt(init, grow, i);
      assert init[i] == keys[i];
    }
  }

  /** Two keys whose subtrees both build give two branches, in key order. */
  lemma MapBranchesPair<V>(a: V, b: V, grow: V --> Result<Tree<V>, Fault>, ta: Tree<V>, tb: Tree<V>)
    requires grow.requires(a) && grow.requires(b)
    requires grow(a) == Ok(ta) && grow(b) == Ok(tb)
    ensures MapBranches([a, b], grow) == Ok([(a, ta), (b, tb)])
  {
    assert [a, b][..1] == [a] && [a][..0] == [];
    assert MapBranches([], grow) == Ok([]);
    var once := MapBranches([a], grow);
    assert once.Ok? && once.value == [] + [(a, ta)];
    var twice := MapBranches([a, b], grow);
    assert twice.Ok? && twice.value == [(a, ta)] + [(b, tb)];
    assert twice.value == [(a, ta), (b, tb)];
  }

  /** The loop fails exactly when some key's subtree fails, and then with the first such error. */
  lemma {:induction false} MapBranchesErr<V>(keys: seq<V>, grow: V --> Result<Tree<V>, Fault>)
    requires forall c :: c in keys ==> grow.requires(c)
    ensures MapBranches(keys, grow).Err? <==> exists i :: 0 <= i < |keys| && grow(keys[i]).Err?
    ensures MapBranches(keys, grow).Err? ==>
      exists i :: 0 <= i < |keys| && grow(keys[i]) == Err(MapBranches(keys, grow).error)
        && forall j :: 0 <= j < i ==> grow(keys[j]).Ok?
  {
    if keys != [] {
      var init := keys[..|keys| - 1];
      assert forall c :: c in init ==> c in keys;
      MapBranchesErr(init, grow);
      assert forall j :: 0 <= j < |init| ==> init[j] == keys[j];
    }
  }

  /** The first branch whose key equals `v`. */
  function Lookup<V(==)>(children: seq<(V, Tree<V>)>, v: V): (r: Option<nat>)
    ensures r.Some? ==> r.value < |children| && children[r.value].0 == v
    ensures r.Some? ==> forall j :: 0 <= j < r.value ==> children[j].0 != v
    ensures r.None? ==> forall j :: 0 <= j < |children| ==> children[j].0 != v
  {
    if children == [] then None
    else if children[0].0 == v then Some(0)
    else match Lookup(children[1..], v)
      case None => None
      case Some(i) => Some(i + 1)
  }

  /** A key among the branches is found; a key absent from them is not. */
  lemma LookupKeys<V>(children: seq<(V, Tree<V>)>, v: V)
    ensures Lookup(children, v).Some? <==> v in Keys(children)
  {
    if v in Keys(children) {
      var j :| 0 <= j < |children| && Keys(children)[j] == v;
    }
  }

  /**
   * `classify`: find the node's column with `labels.index`, follow the branch
   * whose key equals the row's value there, and return the leaf reached.
   * `Ok(None)` is Python returning `None` when no key matches.
   */
  function Classify<V(==)>(t: Tree<V>, labels: seq<string>, row: seq<V>): Result<Option<V>, Fault>
  {
    match t
    case Leaf(_) => Err(NotANode)
    case Node(root, children) =>
      if root !in labels then Err(UnknownLabel)
      else if |children| == 0 then Ok(None)
      else
        var index := IndexOf(labels, root);
        if index >= |row| then Err(RowTooShort)
        else match Lookup(children, row[index])
          case None => Ok(None)
          case Some(i) =>
            assert children[i] in children;
            match children[i].1
            case Leaf(c) => Ok(Some(c))
            case Node(_, _) => Classify(children[i].1, labels, row)
  }

  /** A category that classification returns is one of the tree's leaves. */
  lemma {:induction false} ClassifyReachesLeaf<V>(t: Tree<V>, labels: seq<string>, row: seq<V>)
    ensures Classify(t, labels, row).Ok? && Classify(t, labels, row).value.Some? ==>
      Classify(t, labels, row).value.value in Leaves(t)
  {
    if t.Node? && t.name in labels && |t.children| > 0 && IndexOf(labels, t.name) < |row| {
      var k := Lookup(t.children, row[IndexOf(labels, t.name)]);
      if k.Some? {
        var child := t.children[k.value].1;
        assert t.children[k.value] in t.children;
        if child.Leaf? {
          assert child.category in Leaves(child);
        } else {
          ClassifyReachesLeaf(child, labels, row);
        }
      }
    }
  }

  /** A build yields a leaf exactly for a pure partition, and the leaf is its category. */
  lemma CreateTreeLeaf<V(!new)>(data: seq<Row<V>>, labels: seq<string>, gain: (seq<Row<V>>, nat) -> real)
    requires Trainable(data, labels) && |data| > 0
    ensures (CreateTree(data, labels, gain).Ok? && CreateTree(data, labels, gain).value.Leaf?) <==> Pure(data)
    ensures Pure(data) ==> CreateTree(data, labels, gain) == Ok(Leaf(Category(data[0])))
  {
    LeafTestIsPurity(data);
  }

  /**
   * An internal node splits on the best feature under that feature's label,
   * and its keys are exactly the distinct values of that column in the
   * partition (at least two of them).
   */
  lemma CreateTreeNode<V(!new)>(data: seq<Row<V>>, labels: seq<string>, gain: (seq<Row<V>>, nat) -> real)
    requires Trainable(data, labels)
    ensures var r := CreateTree(data, labels, gain);
      r.Ok? && r.value.Node? ==>
        && |data| > 0 && !Pure(data)
        && BestFeature(data, gain).Ok?
        && var f := BestFeature(data, gain).value;
           && f < |data[0]| - 1
           && r.value.name == labels[f]
           && Keys(r.value.children) == Distinct(Column(data, f))
           && |r.value.children| >= 2
  {
    if |data| > 0 {
      LeafTestIsPurity(data);
    }
  }

  /**
   * Each child of an internal node is the tree built, with the same labels,
   * from exactly the rows whose split column holds the child's key; that
   * partition is strictly smaller than the node's.
   */
  lemma CreateTreeChild<V(!new)>(data: seq<Row<V>>, labels: seq<string>, gain: (seq<Row<V>>, nat) -> real, i: nat)
    requires Trainable(data, labels)
    ensures var r := CreateTree(data, labels, gain);
      r.Ok? && r.value.Node? && i < |r.value.children| ==>
        && |data| > 0 && BestFeature(data, gain).Ok? && BestFeature(data, gain).value < |data[0]| - 1
        && var part := Partition(data, BestFeature(data, gain).value, r.value.children[i].0);
           && Trainable(part, labels)
           && |part| < |data|
           && CreateTree(part, labels, gain) == Ok(r.value.children[i].1)
  {
    var r := CreateTree(data, labels, gain);
    if r.Ok? && r.value.Node? && i < |r.value.children| {
      CreateTreeNode(data, labels, gain);
      LeafTestIsPurity(data);
      var t := r.value;
      var f := BestFeature(data, gain).value;
      var classes := Distinct(Column(data, f));
      var grow := Grower(data, labels, gain, f, classes);
      MapBranchesAt(classes, grow, i);
      assert t.children == MapBranches(classes, grow).value;
      assert classes[i] == t.children[i].0;
      PartitionWellFormed(data, f, classes[i]);
      var other := if i == 0 then classes[1] else classes[0];
      PartitionShrinksOnOtherValue(data, f, classes[i], other);
    }
  }

  /**
   * The only ways a build fails: `EmptyData` on no rows, `NoFeatureColumn`
   * on impure rows without a feature column, and otherwise `Diverges`,
   * raised at some depth by a split column that cannot separate the rows.
   */
  lemma {:induction false} CreateTreeErrors<V(!new)>(data: seq<Row<V>>, labels: seq<string>, gain: (seq<Row<V>>, nat) -> real)
    requires Trainable(data, labels)
    ensures var r := CreateTree(data, labels, gain);
      && (|data| == 0 ==> r == Err(EmptyData))
      && (|data| > 0 && |data[0]| < 2 ==> (r.Err? <==> !Pure(data)) && (r.Err? ==> r.error == NoFeatureColumn))
      && (|data| > 0 && |data[0]| >= 2 && r.Err? ==> r.error == Diverges)
    decreases |data|
  {
    if |data| > 0 {
      LeafTestIsPurity(data);
      if !Pure(data) && |data[0]| >= 2 {
        var f := BestFeature(data, gain).value;
        var classes := Distinct(Column(data, f));
        if |classes| >= 2 {
          var grow := Grower(data, labels, gain, f, classes);
          MapBranchesErr(classes, grow);
          if MapBranches(classes, grow).Err? {
            var i :| 0 <= i < |classes| && grow(classes[i]) == Err(MapBranches(classes, grow).error);
            var part := Partition(data, f, classes[i]);
            PartitionWellFormed(data, f, classes[i]);
            var other := if i == 0 then classes[1] else classes[0];
            PartitionShrinksOnOtherValue(data, f, classes[i], other);
            CreateTreeErrors(part, labels, gain);
          }
        }
      }
    }
  }

  /**
   * Two rows with the same features and different categories make the build
   * fail: both land in one partition at every depth, which is never pure.
   * With a feature column this is `Diverges`, where Python recurses forever.
   */
  lemma {:induction false} ConflictingRowsFail<V(!new)>(data: seq<Row<V>>, labels: seq<string>, gain: (seq<Row<V>>, nat) -> real,
                                                        r1: Row<V>, r2: Row<V>)
    requires Trainable(data, labels)
    requires r1 in data && r2 in data
    requires r1[..|r1| - 1] == r2[..|r2| - 1] && Category(r1) != Category(r2)
    ensures CreateTree(data, labels, gain) == Err(if |data[0]| >= 2 then Diverges else NoFeatureColumn)
    decreases |data|
  {
    assert !Pure(data);
    CreateTreeErrors(data, labels, gain);
    LeafTestIsPurity(data);
    if |data[0]| >= 2 {
      var f := BestFeature(data, gain).value;
      var classes := Distinct(Column(data, f));
      if |classes| >= 2 {
        var v := r1[f];
        assert r2[f] == v by {
          assert r1[..|r1| - 1][f] == r2[..|r2| - 1][f];
        }
        ColumnHas(data, f, r1);
        var i :| 0 <= i < |classes| && classes[i] == v;
        var part := Partition(data, f, v);
        PartitionMembers(data, f, v, r1);
        PartitionMembers(data, f, v, r2);
        PartitionWellFormed(data, f, v);
        var other := if i == 0 then classes[1] else classes[0];
        PartitionShrinksOnOtherValue(data, f, v, other);
        ConflictingRowsFail(part, labels, gain, r1, r2);
        var grow := Grower(data, labels, gain, f, classes);
        assert grow(classes[i]).Err?;
        MapBranchesErr(classes, grow);
      }
    }
  }

  /** Every node of a built tree carries one of the given labels. */
  lemma {:induction false} CreateTreeWellLabelled<V(!new)>(data: seq<Row<V>>, labels: seq<string>, gain: (seq<Row<V>>, nat) -> real)
    requires Trainable(data, labels)
    ensures CreateTree(data, labels, gain).Ok? ==> WellLabelled(CreateTree(data, labels, gain).value, labels)
    decreases |data|
  {
    var r := CreateTree(data, labels, gain);
    if r.Ok? && r.value.Node? {
      var t := r.value;
      CreateTreeNode(data, labels, gain);
      var f := BestFeature(data, gain).value;
      assert labels[f] in labels;
      forall i | 0 <= i < |t.children| ensures WellLabelled(t.children[i].1, labels) {
        CreateTreeChild(data, labels, gain, i);
        CreateTreeWellLabelled(Partition(data, f, t.children[i].0), labels, gain);
      }
    }
  }

  /** The row's value at the split column selects the branch built from the rows sharing it. */
  lemma TrainingRowBranch<V(!new)>(data: seq<Row<V>>, labels: seq<string>, gain: (seq<Row<V>>, nat) -> real, row: Row<V>)
    requires Trainable(data, labels) && NoDups(labels)
    requires row in data
    ensures var r := CreateTree(data, labels, gain);
      r.Ok? && r.value.Node? ==>
        && BestFeature(data, gain).Ok?
        && var t := r.value;
           var f := BestFeature(data, gain).value;
           var part := Partition(data, f, row[f]);
           && f < |row| - 1
           && t.name in labels && IndexOf(labels, t.name) == f
           && Lookup(t.children, row[f]).Some?
           && row in part && |part| < |data| && Trainable(part, labels)
           && CreateTree(part, labels, gain) == Ok(t.children[Lookup(t.children, row[f]).value].1)
  {
    var r := CreateTree(data, labels, gain);
    if r.Ok? && r.value.Node? {
      CreateTreeNode(data, labels, gain);
      var t := r.value;
      var f := BestFeature(data, gain).value;
      IndexOfUnique(labels, f);
      ColumnHas(data, f, row);
      LookupKeys(t.children, row[f]);
      CreateTreeChild(data, labels, gain, Lookup(t.children, row[f]).value);
      PartitionMembers(data, f, row[f], row);
    }
  }

  /** At a node whose label names a column of the row, a value with no branch classifies as `None`. */
  lemma ClassifyMisses<V>(t: Tree<V>, labels: seq<string>, row: seq<V>)
    requires t.Node? && t.name in labels && IndexOf(labels, t.name) < |row|
    requires Lookup(t.children, row[IndexOf(labels, t.name)]).None?
    ensures Classify(t, labels, row) == Ok(None)
  {
  }

  /**
   * At a node whose label names a column of the row, classification follows
   * the first branch keyed by the row's value there: a leaf answers, a node
   * classifies further.
   */
  lemma ClassifyFollows<V>(t: Tree<V>, labels: seq<string>, row: seq<V>, k: nat)
    requires t.Node? && t.name in labels && IndexOf(labels, t.name) < |row|
    requires Lookup(t.children, row[IndexOf(labels, t.name)]) == Some(k)
    ensures k < |t.children|
    ensures Classify(t, labels, row) ==
      if t.children[k].1.Leaf? then Ok(Some(t.children[k].1.category)) else Classify(t.children[k].1, labels, row)
  {
  }

  /**
   * A built tree that splits at least once classifies every one of its
   * training rows as that row's own category, provided the labels are
   * distinct (`labels.index` must find the split column itself).
   */
  lemma {:induction false} TrainingRowsClassified<V(!new)>(data: seq<Row<V>>, labels: seq<string>, gain: (seq<Row<V>>, nat) -> real, row: Row<V>)
    requires Trainable(data, labels) && NoDups(labels)
    requires row in data
    ensures |row| > 0
    ensures var r := CreateTree(data, labels, gain);
      r.Ok? && r.value.Node? ==> Classify(r.value, labels, row) == Ok(Some(Category(row)))
    decreases |data|
  {
    var r := CreateTree(data, labels, gain);
    if r.Ok? && r.value.Node? {
      TrainingRowBranch(data, labels, gain, row);
      var t := r.value;
      var f := BestFeature(data, gain).value;
      var part := Partition(data, f, row[f]);
      var child := CreateTree(part, labels, gain).value;
      ClassifyFollows(t, labels, row, Lookup(t.children, row[f]).value);
      if child.Leaf? {
        CreateTreeLeaf(part, labels, gain);
      } else {
        TrainingRowsClassified(part, labels, gain, row);
      }
    }
  }

  /** A value never seen in the root's split column has no branch: classification yields `None`. */
  lemma UnseenValueUnclassified<V(!new)>(data: seq<Row<V>>, labels: seq<string>, gain: (seq<Row<V>>, nat) -> real, row: Row<V>)
    requires Trainable(data, labels) && NoDups(labels)
    ensures var r := CreateTree(data, labels, gain);
      var b := BestFeature(data, gain);
      r.Ok? && r.value.Node? && b.Ok? && b.value < |row| && (forall d :: d in data ==> d[b.value] != row[b.value]) ==>
        Classify(r.value, labels, row) == Ok(None)
  {
    var r := CreateTree(data, labels, gain);
    var b := BestFeature(data, gain);
    if r.Ok? && r.value.Node? && b.Ok? && b.value < |row| && (forall d :: d in data ==> d[b.value] != row[b.value]) {
      CreateTreeNode(data, labels, gain);
      var t := r.value;
      var f := b.value;
      IndexOfUnique(labels, f);
      ColumnLacks(data, f, row[f]);
      LookupKeys(t.children, row[f]);
      ClassifyMisses(t, labels, row);
    }
  }
  /** Two training rows that differ only in column 1, under one label repeated for both columns. */
  const TwoRows: seq<Row<int>> := [[0, 0, 7], [0, 1, 8]]
  const RepeatedLabels: seq<string> := ["a", "a"]

  /** A scorer under which column 1 has the higher gain. */
  const SecondColumnWins: (seq<Row<int>>, nat) -> real := (d: seq<Row<int>>, f: nat) => if f == 1 then 1.0 else 0.0

  /**
   * With a repeated label, `label.index(root)` finds the first column of that
   * name, not the column the node splits on: the tree built from `TwoRows`
   * splits on column 1, but classification reads column 0 and sends the
   * training row `[0, 1, 8]` to category 7.
   */
  lemma RepeatedLabelMisclassifies()
    ensures CreateTree(TwoRows, RepeatedLabels, SecondColumnWins) == Ok(Node("a", [(0, Leaf(7)), (1, Leaf(8))]))
    ensures [0, 1, 8] in TwoRows && Category([0, 1, 8]) == 8
    ensures Classify(Node("a", [(0, Leaf(7)), (1, Leaf(8))]), RepeatedLabels, [0, 1, 8]) == Ok(Some(7))
  {
    TwoRowsTree(TwoRows, RepeatedLabels, SecondColumnWins);
    var t: Tree<int> := Node("a", [(0, Leaf(7)), (1, Leaf(8))]);
    assert IndexOf(RepeatedLabels, "a") == 0;
    assert Lookup(t.children, 0) == Some(0);
    assert t.children[0].1 == Leaf(7);
  }

  /** The tree built from `TwoRows` splits on column 1 under the name `a`. */
  lemma TwoRowsTree(data: seq<Row<int>>, labels: seq<string>, gain: (seq<Row<int>>, nat) -> real)
    requires data == TwoRows && labels == RepeatedLabels && gain == SecondColumnWins
    ensures CreateTree(data, labels, gain) == Ok(Node("a", [(0, Leaf(7)), (1, Leaf(8))]))
  {
    TwoRowsSplitOnSecondColumn();
    var classes := Distinct(Column(data, 1));
    var grow := Grower(data, labels, gain, 1, classes);
    var children := MapBranches(classes, grow);
    assert children == Ok([(0, Leaf(7)), (1, Leaf(8))]) by {
      assert grow(0) == Ok(Leaf(7)) && grow(1) == Ok(Leaf(8)) by {
        TwoRowsBranches();
      }
      MapBranchesPair(0, 1, grow, Leaf(7), Leaf(8));
    }
    assert CreateTree(data, labels, gain) == Ok(Node(labels[1], children.value));
    assert labels[1] == "a";
  }

  /** `TwoRows` is impure, and column 1 is chosen, with the values `0` and `1`. */
  lemma TwoRowsSplitOnSecondColumn()
    ensures PotentialLeaf(TwoRows).Ok? && PotentialLeaf(TwoRows).value.1 != |TwoRows|
    ensures BestFeature(TwoRows, SecondColumnWins) == Ok(1)
    ensures Distinct(Column(TwoRows, 1)) == [0, 1]
  {
    var data := TwoRows;
    assert data[0] in data && data[1] in data;
    assert !Pure(data);
    LeafTestIsPurity(data);
    BestFeatureIsFirstArgmax(data, SecondColumnWins, 1);
    assert Column(data, 1) == [0, 1];
    assert [0, 1][..1] == [0] && [0][..0] == [];
    assert Distinct([0]) == [0];
  }

  /** Each value of column 1 holds one row of `TwoRows`, which becomes a leaf. */
  lemma TwoRowsBranches()
    ensures Partition(TwoRows, 1, 0) == [[0, 0, 7]] && Partition(TwoRows, 1, 1) == [[0, 1, 8]]
    ensures CreateTree([[0, 0, 7]], RepeatedLabels, SecondColumnWins) == Ok(Leaf(7))
    ensures CreateTree([[0, 1, 8]], RepeatedLabels, SecondColumnWins) == Ok(Leaf(8))
  {
    var data := TwoRows;
    assert data[..1] == [[0, 0, 7]] && data[..0] == [];
    assert [[0, 0, 7]][..0] == [];
    CreateTreeLeaf([[0, 0, 7]], RepeatedLabels, SecondColumnWins);
    CreateTreeLeaf([[0, 1, 8]], RepeatedLabels, SecondColumnWins);
  }
}
