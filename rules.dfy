/**
 * The rule renderer (`as_rule_str`): a tree as nested
 * `if <label> = <value> then <category>` text.
 *
 * A node's text is its indentation followed by one clause per branch, in
 * order. A clause on a leaf reads `if x = k then c` and ends with `".\n"` at
 * depth 0 and with `", "` deeper; a clause on a subtree reads `if x = k`,
 * a line break, the indentation again and the subtree's own text. The
 * whole text then loses a trailing two characters when a guard holds, and
 * gets a final line break.
 *
 * `show` stands for Python's `str` (and f-string formatting) of a key or a
 * category; only its result is used.
 */
module Rules {
  import opened Wrappers
  import opened Dataset
  import opened DecisionTree

  /**
   * The guard before the final line break. The source compares `s[:-2]`,
   * the text without its last two characters, with `", "`; the evident
   * intent is to compare the last two characters `s[-2:]`.
   */
  datatype StripTest = AsWritten | Intended

  /** `'  ' * ident` */
  function Indent(ident: nat): (r: string)
    ensures |r| == 2 * ident
    ensures forall i :: 0 <= i < |r| ==> r[i] == ' '
  {
    if ident == 0 then "" else "  " + Indent(ident - 1)
  }

  /** Whether the guard drops the last two characters of `s`. */
  predicate Strips(s: string, test: StripTest) {
    match test
    case AsWritten => |s| >= 2 && s[..|s| - 2] == ", "
    case Intended => |s| >= 2 && s[|s| - 2..] == ", "
  }

  /** The end of a leaf clause: a full stop and line break at depth 0, a separator deeper. */
  function LeafEnd(ident: nat): string {
    if ident == 0 then ".\n" else ", "
  }

  /** The text of the subtree (`as_rule_str(tree, label, ident)`), or the exception it raises. */
  function Render<V>(t: Tree<V>, labels: seq<string>, ident: nat, show: V -> string, test: StripTest): (r: Result<string, Fault>)
    decreases t, 1, 0
  {
    match t
    case Leaf(_) => Err(NotANode)
    case Node(root, children) =>
      if root !in labels then Err(UnknownLabel)
      else
        var s :- Body(t, labels, ident, show, test, |children|);
        Ok((if Strips(s, test) then s[..|s| - 2] else s) + "\n")
  }

  /** The indentation and the clauses of the first `n` branches of node `t` (the loop). */
  function Body<V>(t: Tree<V>, labels: seq<string>, ident: nat, show: V -> string, test: StripTest, n: nat): Result<string, Fault>
    requires t.Node? && t.name in labels && n <= |t.children|
    decreases t, 0, n
  {
    if n == 0 then Ok(Indent(ident))
    else
      var s :- Body(t, labels, ident, show, test, n - 1);
      var (k, child) := t.children[n - 1];
      assert t.children[n - 1] in t.children;
      // `label[label.index(root)]` is `root` itself
      var head := s + "if " + t.name + " = " + show(k);
      match child
      case Node(_, _) =>
        var sub :- Render(child, labels, ident + 1, show, test);
        Ok(head + "\n" + Indent(ident) + sub)
      case Leaf(c) =>
        Ok(head + " then " + show(c) + LeafEnd(ident))
  }

  /**
   * `as_rule_str`, with its loop appending to `s`. A leaf at the root and a
   * node label missing from `labels` are the exceptions Python raises.
   */
  method AsRuleStr<V>(t: Tree<V>, labels: seq<string>, ident: nat, show: V -> string) returns (r: Result<string, Fault>)
    ensures r == Render(t, labels, ident, show, AsWritten)
    ensures r.Ok? ==> |r.value| > 0 && r.value[|r.value| - 1] == '\n'
    decreases t
  {
    if t.Leaf? {
      return Err(NotANode);
    }
    var root := t.name;
    var node := t.children;
    if root !in labels {
      return Err(UnknownLabel);
    }
    var index := IndexOf(labels, root);
    var spaceIdent := Indent(ident);
    var s := spaceIdent;
    var i := 0;
    while i < |node|
      invariant 0 <= i <= |node|
      invariant Body(t, labels, ident, show, AsWritten, i) == Ok(s)
    {
      var (k, child) := node[i];
      assert node[i] in node;
      s := s + "if " + labels[index] + " = " + show(k);
      if child.Node? {
        var sub := AsRuleStr(child, labels, ident + 1, show);
        if sub.Err? {
          BodyErrPersists(t, labels, ident, show, AsWritten, i + 1, |node|);
          return Err(sub.error);
        }
        s := s + "\n" + spaceIdent + sub.value;
      } else {
        s := s + " then " + show(child.category) + (if ident == 0 then ".\n" else ", ");
      }
      i := i + 1;
    }
    if |s| >= 2 && s[..|s| - 2] == ", " {
      s := s[..|s| - 2];
    }
    return Ok(s + "\n");
  }

  /** Once a clause fails, every longer loop fails with the same error. */
  lemma {:induction false} BodyErrPersists<V>(t: Tree<V>, labels: seq<string>, ident: nat, show: V -> string, test: StripTest, n: nat, m: nat)
    requires t.Node? && t.name in labels && n <= m <= |t.children|
    requires Body(t, labels, ident, show, test, n).Err?
    ensures Body(t, labels, ident, show, test, m) == Body(t, labels, ident, show, test, n)
    decreases m
  {
    if m > n {
      BodyErrPersists(t, labels, ident, show, test, n, m - 1);
    }
  }

  /**
   * Rendering succeeds exactly on a node all of whose nodes carry a known
   * label: a bare category at the root, or anywhere a node is visited, has
   * no keys, and an unknown label has no index.
   */
  lemma {:induction false} RenderOk<V>(t: Tree<V>, labels: seq<string>, ident: nat, show: V -> string, test: StripTest)
    ensures Render(t, labels, ident, show, test).Ok? <==> t.Node? && WellLabelled(t, labels)
    decreases t, 1, 0
  {
    if t.Node? && t.name in labels {
      BodyOk(t, labels, ident, show, test, |t.children|);
    }
  }

  /** The loop over the first `n` branches succeeds exactly when their subtrees are well labelled. */
  lemma {:induction false} BodyOk<V>(t: Tree<V>, labels: seq<string>, ident: nat, show: V -> string, test: StripTest, n: nat)
    requires t.Node? && t.name in labels && n <= |t.children|
    ensures Body(t, labels, ident, show, test, n).Ok? <==>
      forall i :: 0 <= i < n ==> WellLabelled(t.children[i].1, labels)
    decreases t, 0, n
  {
    if n > 0 {
      var child := t.children[n - 1].1;
      assert t.children[n - 1] in t.children;
      BodyStep(t, labels, ident, show, test, n);
      BodyOk(t, labels, ident, show, test, n - 1);
      assert (child.Node? ==> Render(child, labels, ident + 1, show, test).Ok?) <==> WellLabelled(child, labels) by {
        if child.Node? {
          RenderOk(child, labels, ident + 1, show, test);
        }
      }
      assert (forall i :: 0 <= i < n ==> WellLabelled(t.children[i].1, labels)) <==>
        (forall i :: 0 <= i < n - 1 ==> WellLabelled(t.children[i].1, labels)) && WellLabelled(child, labels);
    }
  }

  /** One more pass of the loop succeeds when the earlier passes do and the branch's subtree, if any, renders. */
  lemma BodyStep<V>(t: Tree<V>, labels: seq<string>, ident: nat, show: V -> string, test: StripTest, n: nat)
    requires t.Node? && t.name in labels && 0 < n <= |t.children|
    ensures Body(t, labels, ident, show, test, n).Ok? <==>
      && Body(t, labels, ident, show, test, n - 1).Ok?
      && (t.children[n - 1].1.Node? ==> Render(t.children[n - 1].1, labels, ident + 1, show, test).Ok?)
  {
  }

  /** Whatever the guard does, the text ends with a line break. */
  lemma RenderEndsInLineBreak<V>(t: Tree<V>, labels: seq<string>, ident: nat, show: V -> string, test: StripTest)
    requires Render(t, labels, ident, show, test).Ok?
    ensures var out := Render(t, labels, ident, show, test).value;
      |out| > 0 && out[|out| - 1] == '\n'
  {
  }

  /** The loop's text begins with the indentation, and after it with `"if "` once there is a branch. */
  lemma {:induction false} BodyStart<V>(t: Tree<V>, labels: seq<string>, ident: nat, show: V -> string, test: StripTest, n: nat)
    requires t.Node? && t.name in labels && n <= |t.children|
    requires Body(t, labels, ident, show, test, n).Ok?
    ensures var s := Body(t, labels, ident, show, test, n).value;
      && |s| >= 2 * ident
      && s[..2 * ident] == Indent(ident)
      && (n == 0 ==> s == Indent(ident))
      && (n > 0 ==> |s| >= 2 * ident + 3 && s[2 * ident..2 * ident + 3] == "if ")
  {
    if n > 0 {
      BodyExtends(t, labels, ident, show, test, n);
      BodyStart(t, labels, ident, show, test, n - 1);
      var s0 := Body(t, labels, ident, show, test, n - 1).value;
      var s := Body(t, labels, ident, show, test, n).value;
      assert s[..2 * ident] == s0[..2 * ident];
      if n == 1 {
        assert s[2 * ident..2 * ident + 3] == s[|s0|..|s0| + 3];
      } else {
        assert s[2 * ident..2 * ident + 3] == s0[2 * ident..2 * ident + 3];
      }
    }
  }

  /** Each pass of the loop keeps the text so far and appends `"if "` and more. */
  lemma BodyExtends<V>(t: Tree<V>, labels: seq<string>, ident: nat, show: V -> string, test: StripTest, n: nat)
    requires t.Node? && t.name in labels && 0 < n <= |t.children|
    requires Body(t, labels, ident, show, test, n).Ok?
    ensures Body(t, labels, ident, show, test, n - 1).Ok?
    ensures var s0 := Body(t, labels, ident, show, test, n - 1).value;
      var s := Body(t, labels, ident, show, test, n).value;
      |s| >= |s0| + 3 && s[..|s0|] == s0 && s[|s0|..|s0| + 3] == "if "
  {
  }

  /**
   * The guard as written never holds on the text it tests: that text starts
   * with a space when indented, with `"if "` at depth 0, and is empty only
   * at depth 0 without branches; none of these is `", "` plus two characters.
   */
  lemma StripNeverFires<V>(t: Tree<V>, labels: seq<string>, ident: nat, show: V -> string, test: StripTest)
    requires t.Node? && t.name in labels
    requires Body(t, labels, ident, show, test, |t.children|).Ok?
    ensures !Strips(Body(t, labels, ident, show, test, |t.children|).value, AsWritten)
  {
    var s := Body(t, labels, ident, show, test, |t.children|).value;
    BodyStart(t, labels, ident, show, test, |t.children|);
    if |s| > 2 {
      if ident > 0 {
        assert s[0] == Indent(ident)[0];
      } else {
        assert s[0] == 'i';
      }
      assert (s[..|s| - 2])[0] == s[0];
    }
  }

  /** As written, the text is the unstripped loop text plus a line break. */
  lemma RenderAsWritten<V>(t: Tree<V>, labels: seq<string>, ident: nat, show: V -> string)
    requires t.Node? && WellLabelled(t, labels)
    ensures Body(t, labels, ident, show, AsWritten, |t.children|).Ok?
    ensures Render(t, labels, ident, show, AsWritten)
         == Ok(Body(t, labels, ident, show, AsWritten, |t.children|).value + "\n")
  {
    RenderOk(t, labels, ident, show, AsWritten);
    StripNeverFires(t, labels, ident, show, AsWritten);
  }

  /**
   * Each branch contributes one clause `if <label> = <key>`, where the label
   * printed is the node's own name; a leaf clause continues with
   * `then <category>` and its ending, a subtree clause with a line break,
   * the indentation and the subtree's text.
   */
  lemma BodyClause<V>(t: Tree<V>, labels: seq<string>, ident: nat, show: V -> string, test: StripTest, n: nat)
    requires t.Node? && t.name in labels && 0 < n <= |t.children|
    requires Body(t, labels, ident, show, test, n).Ok?
    ensures Body(t, labels, ident, show, test, n - 1).Ok?
    ensures var (k, child) := t.children[n - 1];
      var head := Body(t, labels, ident, show, test, n - 1).value + "if " + t.name + " = " + show(k);
      if child.Leaf? then
        Body(t, labels, ident, show, test, n).value == head + " then " + show(child.category) + LeafEnd(ident)
      else
        && Render(child, labels, ident + 1, show, test).Ok?
        && Body(t, labels, ident, show, test, n).value
           == head + "\n" + Indent(ident) + Render(child, labels, ident + 1, show, test).value
  {
  }

  /** As written, a nested group whose last branch is a leaf ends in a dangling `", "` before the line break. */
  lemma AsWrittenTrailingSeparator<V>(t: Tree<V>, labels: seq<string>, ident: nat, show: V -> string)
    requires t.Node? && WellLabelled(t, labels) && ident > 0
    requires |t.children| > 0 && t.children[|t.children| - 1].1.Leaf?
    ensures Render(t, labels, ident, show, AsWritten).Ok?
    ensures var out := Render(t, labels, ident, show, AsWritten).value;
      |out| >= 3 && out[|out| - 3..] == ", \n"
  {
    RenderAsWritten(t, labels, ident, show);
    BodyClause(t, labels, ident, show, AsWritten, |t.children|);
  }

  /** With the intended guard, that group ends with its last category and the line break. */
  lemma IntendedEndsWithCategory<V>(t: Tree<V>, labels: seq<string>, ident: nat, show: V -> string)
    requires t.Node? && WellLabelled(t, labels) && ident > 0
    requires |t.children| > 0 && t.children[|t.children| - 1].1.Leaf?
    ensures Render(t, labels, ident, show, Intended).Ok?
    ensures var out := Render(t, labels, ident, show, Intended).value;
      var c := show(t.children[|t.children| - 1].1.category);
      |out| >= |c| + 1 && out[|out| - |c| - 1..] == c + "\n"
  {
    RenderOk(t, labels, ident, show, Intended);
    BodyClause(t, labels, ident, show, Intended, |t.children|);
    var s := Body(t, labels, ident, show, Intended, |t.children|).value;
    var c := show(t.children[|t.children| - 1].1.category);
    assert s[|s| - 2..] == ", ";
    assert s[..|s| - 2][|s| - 2 - |c|..] == c;
  }

  /** At depth 0 a node whose branches all end in leaves gives the same loop text under either guard, ending in `".\n"`. */
  lemma {:induction false} FlatBodyAgrees<V>(t: Tree<V>, labels: seq<string>, show: V -> string, n: nat)
    requires t.Node? && t.name in labels && n <= |t.children|
    requires forall i :: 0 <= i < |t.children| ==> t.children[i].1.Leaf?
    ensures Body(t, labels, 0, show, Intended, n).Ok?
    ensures Body(t, labels, 0, show, Intended, n) == Body(t, labels, 0, show, AsWritten, n)
    ensures n > 0 ==> var s := Body(t, labels, 0, show, Intended, n).value;
      |s| >= 2 && s[|s| - 2..] == ".\n"
    decreases n
  {
    if n > 0 {
      FlatBodyAgrees(t, labels, show, n - 1);
      assert t.children[n - 1].1.Leaf?;
    }
  }

  /**
   * The two guards agree on a top-level node whose branches all end in
   * leaves: the text ends in `".\n"`, so neither drops anything.
   */
  lemma IntendedAgreesOnFlatTree<V>(t: Tree<V>, labels: seq<string>, show: V -> string)
    requires t.Node? && t.name in labels
    requires forall i :: 0 <= i < |t.children| ==> t.children[i].1.Leaf?
    ensures Render(t, labels, 0, show, Intended).Ok?
    ensures Render(t, labels, 0, show, Intended) == Render(t, labels, 0, show, AsWritten)
  {
    FlatBodyAgrees(t, labels, show, |t.children|);
    StripNeverFires(t, labels, 0, show, AsWritten);
    var s := Body(t, labels, 0, show, Intended, |t.children|).value;
    if |t.children| == 0 {
      assert s == "";
    }
    assert !Strips(s, Intended);
  }

  /** Every node a successful build produces renders. */
  lemma BuiltTreeRenders<V(!new)>(data: seq<Row<V>>, labels: seq<string>, gain: (seq<Row<V>>, nat) -> real,
                                  ident: nat, show: V -> string)
    requires Trainable(data, labels)
    ensures var r := CreateTree(data, labels, gain);
      r.Ok? && r.value.Node? ==> Render(r.value, labels, ident, show, AsWritten).Ok?
  {
    var r := CreateTree(data, labels, gain);
    if r.Ok? && r.value.Node? {
      CreateTreeWellLabelled(data, labels, gain);
      RenderOk(r.value, labels, ident, show, AsWritten);
    }
  }
}
