/**
 * The schema-tree navigator: a forest of display nodes, each with a kind,
 * metadata, children and an `expanded` flag, and a navigator state that
 * holds the forest and a cursor into the list of visible rows.
 *
 * The visible list is the depth-first, pre-order walk of the forest that
 * descends into a node's children only when the node is expanded.  Every row
 * carries the node's path (the child indices from the root list down to the
 * node), which stands for the identity of the borrowed node in the source.
 */
module Tree {
  import opened Wrappers

  datatype NodeKind =
    | Schema
    | Object
    | Array
    | Str
    | Integer
    | Number
    | Boolean
    | Ref(target: string)
    | AllOf
    | OneOf
    | AnyOf
    | Unknown

  datatype NodeInfo = NodeInfo(
    kind: NodeKind,
    format: Option<string>,
    description: Option<string>,
    required: bool,
    constraints: seq<string>,
    enumValues: seq<string>,
    example: Option<string>,
    defaultVal: Option<string>)

  datatype TreeNode = TreeNode(name: string, info: NodeInfo, children: seq<TreeNode>, expanded: bool)
  {
    predicate IsExpandable() {
      children != []
    }

    /** The short type text shown next to the node's name. */
    function TypeLabel(): (r: string)
      ensures |r| > 0
      ensures info.kind.Ref? <==> r[0] == '→'
      ensures info.kind.Ref? ==> r[1..] == info.kind.target
    {
      match info.kind
      case Schema => "schema"
      case Object => "object"
      case Array => "array"
      case Str => "string"
      case Integer => "integer"
      case Number => "number"
      case Boolean => "boolean"
      case Ref(t) => "→" + t
      case AllOf => "allOf"
      case OneOf => "oneOf"
      case AnyOf => "anyOf"
      case Unknown => "?"
    }
  }

  /** The label of every kind that is not a reference is a fixed word,
      one per kind. */
  lemma TypeLabelFixed(n: TreeNode)
    requires !n.info.kind.Ref?
    ensures n.TypeLabel() in {"schema", "object", "array", "string", "integer", "number",
                              "boolean", "allOf", "oneOf", "anyOf", "?"}
    ensures n.info.kind == Schema ==> n.TypeLabel() == "schema"
    ensures n.info.kind == Object ==> n.TypeLabel() == "object"
    ensures n.info.kind == Array ==> n.TypeLabel() == "array"
    ensures n.info.kind == Str ==> n.TypeLabel() == "string"
    ensures n.info.kind == Integer ==> n.TypeLabel() == "integer"
    ensures n.info.kind == Number ==> n.TypeLabel() == "number"
    ensures n.info.kind == Boolean ==> n.TypeLabel() == "boolean"
    ensures n.info.kind == AllOf ==> n.TypeLabel() == "allOf"
    ensures n.info.kind == OneOf ==> n.TypeLabel() == "oneOf"
    ensures n.info.kind == AnyOf ==> n.TypeLabel() == "anyOf"
    ensures n.info.kind == Unknown ==> n.TypeLabel() == "?"
  {
  }

  /** Two nodes with the same type label have the same kind. */
  lemma TypeLabelInjective(a: TreeNode, b: TreeNode)
    requires a.TypeLabel() == b.TypeLabel()
    ensures a.info.kind == b.info.kind
  {
    if a.info.kind.Ref? {
      assert b.info.kind.Ref?;
      assert a.info.kind.target == a.TypeLabel()[1..] == b.TypeLabel()[1..] == b.info.kind.target;
    }
  }

  // ---------------------------------------------------------------------------
  // Paths into a forest
  // ---------------------------------------------------------------------------

  /** `p` names a node: a root index followed by child indices. */
  predicate ValidPath(ns: seq<TreeNode>, p: seq<nat>)
    decreases p
  {
    |p| > 0 && p[0] < |ns| && (|p| == 1 || ValidPath(ns[p[0]].children, p[1..]))
  }

  function NodeAt(ns: seq<TreeNode>, p: seq<nat>): TreeNode
    requires ValidPath(ns, p)
    decreases p
  {
    if |p| == 1 then ns[p[0]] else NodeAt(ns[p[0]].children, p[1..])
  }

  /** Every proper ancestor of the node at `p` is expanded. */
  predicate AncestorsExpanded(ns: seq<TreeNode>, p: seq<nat>)
    requires ValidPath(ns, p)
    decreases p
  {
    |p| == 1 || (ns[p[0]].expanded && AncestorsExpanded(ns[p[0]].children, p[1..]))
  }

  /** Pre-order on paths: an ancestor comes before its descendants, and
      otherwise the first differing index decides. */
  predicate PathBefore(a: seq<nat>, b: seq<nat>)
    decreases |a|
  {
    if a == [] then b != []
    else b != [] && (a[0] < b[0] || (a[0] == b[0] && PathBefore(a[1..], b[1..])))
  }

  /** A node and the whole subtree under it, counted. */
  function Size(ns: seq<TreeNode>): nat
    decreases ns
  {
    if ns == [] then 0 else Size(ns[..|ns| - 1]) + 1 + Size(ns[|ns| - 1].children)
  }

  /** Two forests with the same names, metadata and child lists, whatever
      their `expanded` flags. */
  predicate SameShape(a: seq<TreeNode>, b: seq<TreeNode>)
    decreases a
  {
    |a| == |b| &&
    forall i :: 0 <= i < |a| ==>
      a[i].name == b[i].name && a[i].info == b[i].info && SameShape(a[i].children, b[i].children)
  }

  // ---------------------------------------------------------------------------
  // The visible list
  // ---------------------------------------------------------------------------

  /** One visible row: the node, its depth, and its path. */
  datatype FlatNode = FlatNode(node: TreeNode, depth: nat, path: seq<nat>)

  /** The rows of a sub-forest seen from `prefix`, `d` levels further down. */
  function Lift(es: seq<FlatNode>, d: nat, prefix: seq<nat>): (r: seq<FlatNode>)
    ensures |r| == |es|
    ensures forall k {:trigger r[k]} :: 0 <= k < |es| ==> r[k] == FlatNode(es[k].node, es[k].depth + d, prefix + es[k].path)
  {
    seq(|es|, k requires 0 <= k < |es| => FlatNode(es[k].node, es[k].depth + d, prefix + es[k].path))
  }

  /** The visible rows of a forest, with depths and paths relative to it. */
  function Visible(ns: seq<TreeNode>): seq<FlatNode>
    decreases ns
  {
    if ns == [] then [] else Visible(ns[..|ns| - 1]) + NodeView(ns[|ns| - 1], |ns| - 1)
  }

  /** The visible rows contributed by the `i`-th node of a list. */
  function NodeView(n: TreeNode, i: nat): seq<FlatNode>
    decreases n
  {
    [FlatNode(n, 0, [i])] + (if n.expanded then Lift(Visible(n.children), 1, [i]) else [])
  }

  lemma VisibleStep(ns: seq<TreeNode>, i: nat)
    requires i < |ns|
    ensures Visible(ns[..i + 1]) == Visible(ns[..i]) + NodeView(ns[i], i)
  {
    assert ns[..i + 1][..i] == ns[..i];
  }

  /** The rows of the first `j` roots start the rows of the whole forest. */
  lemma {:induction false} VisiblePrefix(ns: seq<TreeNode>, j: nat)
    requires j <= |ns|
    ensures |Visible(ns[..j])| <= |Visible(ns)|
    ensures forall k :: 0 <= k < |Visible(ns[..j])| ==> Visible(ns)[k] == Visible(ns[..j])[k]
    decreases |ns|
  {
    if j == |ns| {
      assert ns[..j] == ns;
    } else {
      var m := ns[..|ns| - 1];
      VisiblePrefix(m, j);
      assert m[..j] == ns[..j];
    }
  }

  /** Where the rows of the `i`-th root sit in the rows of the forest. */
  lemma VisibleAt(ns: seq<TreeNode>, i: nat)
    requires i < |ns|
    ensures |Visible(ns[..i])| + |NodeView(ns[i], i)| <= |Visible(ns)|
    ensures forall k :: 0 <= k < |NodeView(ns[i], i)| ==>
      Visible(ns)[|Visible(ns[..i])| + k] == NodeView(ns[i], i)[k]
  {
    VisibleStep(ns, i);
    VisiblePrefix(ns, i + 1);
    var base := |Visible(ns[..i])|;
    forall k | 0 <= k < |NodeView(ns[i], i)|
      ensures Visible(ns)[base + k] == NodeView(ns[i], i)[k]
    {
      assert Visible(ns[..i + 1])[base + k] == NodeView(ns[i], i)[k];
    }
  }

  /** Every row of a node's view lies under that node. */
  lemma NodeViewPaths(n: TreeNode, i: nat, k: nat)
    requires k < |NodeView(n, i)|
    ensures |NodeView(n, i)[k].path| > 0 && NodeView(n, i)[k].path[0] == i
  {
  }

  /** Soundness of the visible list: every row names a node of the forest
      at that path, at depth one less than the path length, and every
      proper ancestor of that node is expanded. */
  lemma {:induction false} VisibleSound(ns: seq<TreeNode>, k: nat)
    requires k < |Visible(ns)|
    ensures ValidPath(ns, Visible(ns)[k].path)
    ensures NodeAt(ns, Visible(ns)[k].path) == Visible(ns)[k].node
    ensures Visible(ns)[k].depth == |Visible(ns)[k].path| - 1
    ensures AncestorsExpanded(ns, Visible(ns)[k].path)
    decreases ns
  {
    var n := |ns|;
    var m := ns[..n - 1];
    var e := Visible(ns)[k];
    if k < |Visible(m)| {
      VisibleSound(m, k);
      assert e == Visible(m)[k];
      assert m[e.path[0]] == ns[e.path[0]];
    } else {
      var k' := k - |Visible(m)|;
      var c := ns[n - 1].children;
      assert e == NodeView(ns[n - 1], n - 1)[k'];
      if k' > 0 {
        VisibleSound(c, k' - 1);
        var q := Visible(c)[k' - 1].path;
        assert e.path == [n - 1] + q;
        assert e.path[1..] == q;
      }
    }
  }

  /** Completeness of the visible list: every node whose ancestors are all
      expanded has a row. */
  lemma {:induction false} VisibleComplete(ns: seq<TreeNode>, p: seq<nat>)
    requires ValidPath(ns, p) && AncestorsExpanded(ns, p)
    ensures exists k :: 0 <= k < |Visible(ns)| && Visible(ns)[k].path == p
    decreases p
  {
    var i := p[0];
    if |p| == 1 {
      RowOfRoot(ns, i);
      assert p == [i];
      assert Visible(ns)[|Visible(ns[..i])|].path == p;
    } else {
      var c := ns[i].children;
      VisibleComplete(c, p[1..]);
      var k' :| 0 <= k' < |Visible(c)| && Visible(c)[k'].path == p[1..];
      RowInRoot(ns, i, k');
      assert [i] + p[1..] == p;
      assert Visible(ns)[|Visible(ns[..i])| + 1 + k'].path == p;
    }
  }

  predicate RowsInPreOrder(es: seq<FlatNode>) {
    forall j, k :: 0 <= j < k < |es| ==> PathBefore(es[j].path, es[k].path)
  }

  lemma {:induction false} LiftInPreOrder(es: seq<FlatNode>, i: nat)
    requires RowsInPreOrder(es)
    requires forall k :: 0 <= k < |es| ==> es[k].path != []
    ensures forall n: TreeNode :: RowsInPreOrder([FlatNode(n, 0, [i])] + Lift(es, 1, [i]))
  {
    forall n: TreeNode
      ensures RowsInPreOrder([FlatNode(n, 0, [i])] + Lift(es, 1, [i]))
    {
      var rs := [FlatNode(n, 0, [i])] + Lift(es, 1, [i]);
      forall j, k | 0 <= j < k < |rs|
        ensures PathBefore(rs[j].path, rs[k].path)
      {
        var b := rs[k].path;
        assert b == [i] + es[k - 1].path;
        assert b[1..] == es[k - 1].path;
        if j > 0 {
          var a := rs[j].path;
          assert a == [i] + es[j - 1].path;
          assert a[1..] == es[j - 1].path;
          assert PathBefore(es[j - 1].path, es[k - 1].path);
        }
      }
    }
  }

  /** The rows appear in pre-order: each row's path comes strictly before
      the next one's, so in particular no node is listed twice. */
  lemma {:induction false} VisibleInPreOrder(ns: seq<TreeNode>)
    ensures RowsInPreOrder(Visible(ns))
    decreases ns
  {
    if ns != [] {
      var n := |ns|;
      var m := ns[..n - 1];
      var last := ns[n - 1];
      var c := last.children;
      VisibleInPreOrder(m);
      VisibleInPreOrder(c);
      forall k | 0 <= k < |Visible(c)| ensures Visible(c)[k].path != [] {
        VisibleSound(c, k);
      }
      LiftInPreOrder(Visible(c), n - 1);
      var left := Visible(m);
      var right := NodeView(last, n - 1);
      assert RowsInPreOrder(right);
      var all := left + right;
      assert all == Visible(ns);
      forall j, k | 0 <= j < k < |all|
        ensures PathBefore(all[j].path, all[k].path)
      {
        if k >= |left| && j < |left| {
          VisibleSound(m, j);
          NodeViewPaths(last, n - 1, k - |left|);
          assert all[j].path[0] < n - 1 == all[k].path[0];
        } else if j >= |left| {
          assert all[j] == right[j - |left|] && all[k] == right[k - |left|];
        } else {
          assert all[j] == left[j] && all[k] == left[k];
        }
      }
    }
  }

  /** A path's proper prefix names its parent, which holds the node among
      its children and, when the node's ancestors are expanded, is itself
      expanded with expanded ancestors. */
  lemma {:induction false} ParentOfPath(ns: seq<TreeNode>, p: seq<nat>)
    requires ValidPath(ns, p) && |p| > 1
    ensures ValidPath(ns, p[..|p| - 1])
    ensures p[|p| - 1] < |NodeAt(ns, p[..|p| - 1]).children|
    ensures NodeAt(ns, p) == NodeAt(ns, p[..|p| - 1]).children[p[|p| - 1]]
    ensures AncestorsExpanded(ns, p) ==>
      AncestorsExpanded(ns, p[..|p| - 1]) && NodeAt(ns, p[..|p| - 1]).expanded
    decreases p
  {
    var pp := p[..|p| - 1];
    var c := ns[p[0]].children;
    if |p| == 2 {
      assert pp == [p[0]];
      assert p[1..] == [p[1]];
    } else {
      ParentOfPath(c, p[1..]);
      assert p[1..][..|p| - 2] == pp[1..];
    }
  }

  /** A descendant never comes before its ancestor. */
  lemma {:induction false} DescendantNotBefore(a: seq<nat>, b: seq<nat>)
    requires |b| < |a| && b == a[..|b|]
    ensures !PathBefore(a, b)
    decreases |b|
  {
    if b != [] {
      DescendantNotBefore(a[1..], b[1..]);
    }
  }

  /** Depth grows by one from parent to child: every row below the top level
      has its parent's row earlier in the list, at one depth less, and that
      parent is expanded and holds the row's node among its children. */
  lemma VisibleParentFirst(ns: seq<TreeNode>, k: nat)
    requires k < |Visible(ns)| && Visible(ns)[k].depth > 0
    ensures exists j ::
      && 0 <= j < k
      && Visible(ns)[j].path < Visible(ns)[k].path
      && |Visible(ns)[j].path| + 1 == |Visible(ns)[k].path|
      && Visible(ns)[j].depth + 1 == Visible(ns)[k].depth
      && Visible(ns)[j].node.expanded
      && Visible(ns)[k].node in Visible(ns)[j].node.children
  {
    var vs := Visible(ns);
    var p := vs[k].path;
    VisibleSound(ns, k);
    ParentOfPath(ns, p);
    var pp := p[..|p| - 1];
    VisibleComplete(ns, pp);
    var j :| 0 <= j < |vs| && vs[j].path == pp;
    VisibleSound(ns, j);
    VisibleInPreOrder(ns);
    if j >= k {
      assert j != k;
      DescendantNotBefore(p, pp);
      assert false;
    }
    assert vs[k].node == vs[j].node.children[p[|p| - 1]];
  }

  /** Rows go down at most one level at a time, starting from the top. */
  ghost predicate DepthSteps(es: seq<FlatNode>) {
    && (es != [] ==> es[0].depth == 0)
    && forall j, k :: 0 <= j < k < |es| && k == j + 1 ==> es[k].depth <= es[j].depth + 1
  }

  lemma {:induction false} VisibleDepthSteps(ns: seq<TreeNode>)
    ensures DepthSteps(Visible(ns))
    decreases ns
  {
    if ns != [] {
      var n := |ns|;
      var m := ns[..n - 1];
      var last := ns[n - 1];
      VisibleDepthSteps(m);
      VisibleDepthSteps(last.children);
      var left := Visible(m);
      var right := NodeView(last, n - 1);
      var all := left + right;
      forall j, k | 0 <= j < k < |all| && k == j + 1
        ensures all[k].depth <= all[j].depth + 1
      {
        if j >= |left| {
          assert all[j] == right[j - |left|] && all[k] == right[k - |left|];
        } else if k < |left| {
          assert all[j] == left[j] && all[k] == left[k];
        }
      }
    }
  }

  /** The visible list is at least as long as the root list and at most
      as long as the whole forest. */
  lemma {:induction false} VisibleBounds(ns: seq<TreeNode>)
    ensures |ns| <= |Visible(ns)| <= Size(ns)
    decreases ns
  {
    if ns != [] {
      VisibleBounds(ns[..|ns| - 1]);
      VisibleBounds(ns[|ns| - 1].children);
    }
  }

  // ---------------------------------------------------------------------------
  // Changing one flag
  // ---------------------------------------------------------------------------

  /** What the walk does to the node it finds. */
  datatype FlagAction = Toggle | SetTo(value: bool)

  /** The node after the action: only an expandable node's flag changes. */
  function Apply(a: FlagAction, n: TreeNode): (r: TreeNode)
  {
    if !n.IsExpandable() then n
    else match a
      case Toggle => n.(expanded := !n.expanded)
      case SetTo(v) => n.(expanded := v)
  }

  /** The forest with the action applied to the node at `p` (unchanged if
      `p` names no node). */
  function UpdateAt(ns: seq<TreeNode>, p: seq<nat>, a: FlagAction): (r: seq<TreeNode>)
    ensures |r| == |ns|
    decreases p
  {
    if |p| == 0 || p[0] >= |ns| then ns
    else if |p| == 1 then ns[p[0] := Apply(a, ns[p[0]])]
    else ns[p[0] := ns[p[0]].(children := UpdateAt(ns[p[0]].children, p[1..], a))]
  }

  /** The forest with the action applied to the node shown on row `k`, and
      unchanged when there is no such row. */
  function UpdateRow(ns: seq<TreeNode>, k: nat, a: FlagAction): seq<TreeNode>
  {
    if k < |Visible(ns)| then UpdateAt(ns, Visible(ns)[k].path, a) else ns
  }

  lemma {:induction false} SameShapeRefl(ns: seq<TreeNode>)
    ensures SameShape(ns, ns)
    decreases ns
  {
    forall i | 0 <= i < |ns| {
      SameShapeRefl(ns[i].children);
    }
  }

  /** Forests of the same shape have the same paths, and the same name,
      metadata and number of children at each of them. */
  lemma {:induction false} SameShapePaths(a: seq<TreeNode>, b: seq<TreeNode>, p: seq<nat>)
    requires SameShape(a, b)
    ensures ValidPath(a, p) <==> ValidPath(b, p)
    ensures ValidPath(a, p) ==>
      && NodeAt(a, p).name == NodeAt(b, p).name
      && NodeAt(a, p).info == NodeAt(b, p).info
      && |NodeAt(a, p).children| == |NodeAt(b, p).children|
    decreases p
  {
    if |p| > 1 && p[0] < |a| {
      SameShapePaths(a[p[0]].children, b[p[0]].children, p[1..]);
    }
  }

  /** Changing a flag keeps the shape of the forest. */
  lemma {:induction false} UpdateAtSameShape(ns: seq<TreeNode>, p: seq<nat>, a: FlagAction)
    ensures SameShape(UpdateAt(ns, p, a), ns)
    decreases p
  {
    SameShapeRefl(ns);
    if |p| > 0 && p[0] < |ns| {
      var r := UpdateAt(ns, p, a);
      if |p| > 1 {
        UpdateAtSameShape(ns[p[0]].children, p[1..], a);
      }
      forall i | 0 <= i < |ns|
        ensures r[i].name == ns[i].name && r[i].info == ns[i].info
        ensures SameShape(r[i].children, ns[i].children)
      {
        if i != p[0] {
          assert r[i] == ns[i];
        }
      }
    }
  }

  /** Changing the flag at `p` changes no other node's flag, and sets the
      one at `p` as the action says. */
  lemma {:induction false} UpdateAtFlags(ns: seq<TreeNode>, p: seq<nat>, a: FlagAction, q: seq<nat>)
    requires ValidPath(ns, p) && ValidPath(ns, q)
    ensures ValidPath(UpdateAt(ns, p, a), q)
    ensures NodeAt(UpdateAt(ns, p, a), q).expanded ==
      if q == p then Apply(a, NodeAt(ns, p)).expanded else NodeAt(ns, q).expanded
    decreases p
  {
    var r := UpdateAt(ns, p, a);
    var i, j := p[0], q[0];
    if i != j {
      assert r[j] == ns[j];
      assert q != p;
    } else if |p| == 1 {
      assert p == [i];
      if |q| > 1 {
        assert r[j].children == ns[j].children;
      }
    } else if |q| == 1 {
      assert q == [j];
    } else {
      UpdateAtFlags(ns[i].children, p[1..], a, q[1..]);
      assert q == [j] + q[1..] && p == [i] + p[1..];
    }
  }

  /** The action leaves a node without children alone. */
  lemma {:induction false} UpdateAtLeaf(ns: seq<TreeNode>, p: seq<nat>, a: FlagAction)
    requires ValidPath(ns, p) && !NodeAt(ns, p).IsExpandable()
    ensures UpdateAt(ns, p, a) == ns
    decreases p
  {
    if |p| > 1 {
      UpdateAtLeaf(ns[p[0]].children, p[1..], a);
    }
  }

  /** Toggling the same node twice restores the forest. */
  lemma {:induction false} UpdateAtToggleTwice(ns: seq<TreeNode>, p: seq<nat>)
    ensures UpdateAt(UpdateAt(ns, p, Toggle), p, Toggle) == ns
    decreases p
  {
    if |p| > 1 && p[0] < |ns| {
      UpdateAtToggleTwice(ns[p[0]].children, p[1..]);
    }
  }

  /** Setting the same node's flag twice is the same as setting it once. */
  lemma {:induction false} UpdateAtSetTwice(ns: seq<TreeNode>, p: seq<nat>, v: bool)
    ensures UpdateAt(UpdateAt(ns, p, SetTo(v)), p, SetTo(v)) == UpdateAt(ns, p, SetTo(v))
    decreases p
  {
    if |p| > 1 && p[0] < |ns| {
      UpdateAtSetTwice(ns[p[0]].children, p[1..], v);
    }
  }

  /** Changing a node under one of the first roots leaves the last root alone. */
  lemma UpdateAtBeforeLast(ns: seq<TreeNode>, p: seq<nat>, a: FlagAction)
    requires ns != [] && |p| > 0 && p[0] < |ns| - 1
    ensures UpdateAt(ns, p, a) == UpdateAt(ns[..|ns| - 1], p, a) + [ns[|ns| - 1]]
  {
  }

  /** Changing a node under the last root leaves the first roots alone. */
  lemma UpdateAtLast(ns: seq<TreeNode>, p: seq<nat>, a: FlagAction)
    requires ns != [] && |p| > 0 && p[0] == |ns| - 1
    ensures UpdateAt(ns, p, a)[..|ns| - 1] == ns[..|ns| - 1]
    ensures Visible(UpdateAt(ns, p, a)) ==
      Visible(ns[..|ns| - 1]) + NodeView(UpdateAt(ns, p, a)[|ns| - 1], |ns| - 1)
  {
    var r := UpdateAt(ns, p, a);
    assert r[..|ns| - 1] == ns[..|ns| - 1];
  }

  /** The node changed through row `k` is still shown on row `k`: only its
      own flag changed, and everything listed before it is its ancestors or
      comes before them. */
  lemma {:induction false} UpdateRowKeepsRow(ns: seq<TreeNode>, k: nat, a: FlagAction)
    requires k < |Visible(ns)|
    ensures k < |Visible(UpdateRow(ns, k, a))|
    ensures Visible(UpdateRow(ns, k, a))[k].path == Visible(ns)[k].path
    decreases ns
  {
    var n := |ns|;
    var m := ns[..n - 1];
    if k < |Visible(m)| {
      KeepsRowBeforeLast(ns, k, a);
    } else if k == |Visible(m)| {
      KeepsRootRow(ns, a);
    } else {
      KeepsChildRow(ns, k, a);
    }
  }

  lemma {:induction false} KeepsRowBeforeLast(ns: seq<TreeNode>, k: nat, a: FlagAction)
    requires ns != [] && k < |Visible(ns[..|ns| - 1])|
    ensures k < |Visible(UpdateRow(ns, k, a))|
    ensures Visible(UpdateRow(ns, k, a))[k].path == Visible(ns)[k].path
    decreases ns, 0
  {
    var n := |ns|;
    var m := ns[..n - 1];
    var p := Visible(ns)[k].path;
    assert Visible(m)[k] == Visible(ns)[k];
    VisibleSound(m, k);
    UpdateAtBeforeLast(ns, p, a);
    var rm := UpdateAt(m, p, a);
    var r := rm + [ns[n - 1]];
    assert r[..n - 1] == rm;
    UpdateRowKeepsRow(m, k, a);
    assert Visible(r) == Visible(rm) + NodeView(ns[n - 1], n - 1);
  }

  /** The row of the last root survives a change to that root. */
  lemma KeepsRootRow(ns: seq<TreeNode>, a: FlagAction)
    requires ns != []
    ensures |Visible(ns[..|ns| - 1])| < |Visible(UpdateRow(ns, |Visible(ns[..|ns| - 1])|, a))|
    ensures Visible(UpdateRow(ns, |Visible(ns[..|ns| - 1])|, a))[|Visible(ns[..|ns| - 1])|].path
      == Visible(ns)[|Visible(ns[..|ns| - 1])|].path
  {
    var n := |ns|;
    var m := ns[..n - 1];
    var k := |Visible(m)|;
    RowOfRoot(ns, n - 1);
    var p := [n - 1];
    assert Visible(ns)[k].path == p;
    var r := UpdateAt(ns, p, a);
    assert UpdateRow(ns, k, a) == r;
    UpdateAtLast(ns, p, a);
    assert r[..n - 1] == m;
    RowOfRoot(r, n - 1);
  }

  /** Replacing an expanded root's children keeps the roots before it, so
      the new children's rows sit where the old ones did. */
  lemma RowInReplacedRoot(ns: seq<TreeNode>, i: nat, j: nat, cs: seq<TreeNode>)
    requires i < |ns| && ns[i].expanded && j < |Visible(cs)|
    ensures |Visible(ns[..i])| + 1 + j < |Visible(ns[i := ns[i].(children := cs)])|
    ensures Visible(ns[i := ns[i].(children := cs)])[|Visible(ns[..i])| + 1 + j].path == [i] + Visible(cs)[j].path
  {
    var r := ns[i := ns[i].(children := cs)];
    assert r[..i] == ns[..i];
    RowInRoot(r, i, j);
  }

  /** A node is expandable exactly when expanding it shows rows below its
      own. */
  lemma ExpandableShowsChildren(n: TreeNode, i: nat)
    ensures n.IsExpandable() <==> |NodeView(n.(expanded := true), i)| > 1
  {
    NodeViewLength(n.(expanded := true), i);
    VisibleBounds(n.children);
  }

  /** A row inside the last root survives a change made through it. */
  lemma {:induction false} KeepsChildRow(ns: seq<TreeNode>, k: nat, a: FlagAction)
    requires ns != [] && |Visible(ns[..|ns| - 1])| < k < |Visible(ns)|
    ensures k < |Visible(UpdateRow(ns, k, a))|
    ensures Visible(UpdateRow(ns, k, a))[k].path == Visible(ns)[k].path
    decreases ns, 0
  {
    var n := |ns|;
    var j := k - |Visible(ns[..n - 1])| - 1;
    VisibleStep(ns, n - 1);
    assert ns[..n] == ns;
    NodeViewLength(ns[n - 1], n - 1);
    var c := ns[n - 1].children;
    RowInRoot(ns, n - 1, j);
    var q := Visible(c)[j].path;
    UpdateAtChild(ns, n - 1, q, a);
    UpdateRowKeepsRow(c, j, a);
    RowInReplacedRoot(ns, n - 1, j, UpdateAt(c, q, a));
  }

  /** Toggling twice at the same cursor restores every flag. */
  lemma ToggleRowTwice(ns: seq<TreeNode>, k: nat)
    ensures UpdateRow(UpdateRow(ns, k, Toggle), k, Toggle) == ns
  {
    if k < |Visible(ns)| {
      UpdateRowKeepsRow(ns, k, Toggle);
      UpdateAtToggleTwice(ns, Visible(ns)[k].path);
    }
  }

  /** Expanding (or collapsing) twice at the same cursor is the same as
      doing it once. */
  lemma SetRowTwice(ns: seq<TreeNode>, k: nat, v: bool)
    ensures UpdateRow(UpdateRow(ns, k, SetTo(v)), k, SetTo(v)) == UpdateRow(ns, k, SetTo(v))
  {
    if k < |Visible(ns)| {
      UpdateRowKeepsRow(ns, k, SetTo(v));
      UpdateAtSetTwice(ns, Visible(ns)[k].path, v);
    }
  }

  /** A change at row `k` touches only the node shown there, only its flag,
      and only if it has children; without a row `k` nothing changes. */
  lemma UpdateRowEffect(ns: seq<TreeNode>, k: nat, a: FlagAction)
    ensures SameShape(UpdateRow(ns, k, a), ns)
    ensures k >= |Visible(ns)| ==> UpdateRow(ns, k, a) == ns
    ensures k < |Visible(ns)| && !Visible(ns)[k].node.IsExpandable() ==> UpdateRow(ns, k, a) == ns
    ensures forall q :: ValidPath(ns, q) ==>
      && ValidPath(UpdateRow(ns, k, a), q)
      && NodeAt(UpdateRow(ns, k, a), q).expanded ==
           if k < |Visible(ns)| && q == Visible(ns)[k].path
           then Apply(a, Visible(ns)[k].node).expanded
           else NodeAt(ns, q).expanded
  {
    if k < |Visible(ns)| {
      var p := Visible(ns)[k].path;
      VisibleSound(ns, k);
      UpdateAtSameShape(ns, p, a);
      if !Visible(ns)[k].node.IsExpandable() {
        UpdateAtLeaf(ns, p, a);
      }
      forall q | ValidPath(ns, q)
        ensures ValidPath(UpdateRow(ns, k, a), q)
        ensures NodeAt(UpdateRow(ns, k, a), q).expanded ==
          if q == p then Apply(a, Visible(ns)[k].node).expanded else NodeAt(ns, q).expanded
      {
        UpdateAtFlags(ns, p, a, q);
      }
    } else {
      SameShapeRefl(ns);
    }
  }

  // ---------------------------------------------------------------------------
  // Setting every flag
  // ---------------------------------------------------------------------------

  /** `after` is `before` with every expandable node's flag set to `flag`,
      and nothing else changed. */
  predicate FlagsSet(before: seq<TreeNode>, after: seq<TreeNode>, flag: bool)
    decreases before
  {
    |after| == |before| &&
    forall i :: 0 <= i < |before| ==> NodeFlagsSet(before[i], after[i], flag)
  }

  predicate NodeFlagsSet(before: TreeNode, after: TreeNode, flag: bool)
    decreases before
  {
    && after.name == before.name
    && after.info == before.info
    && after.expanded == (if before.IsExpandable() then flag else before.expanded)
    && FlagsSet(before.children, after.children, flag)
  }

  lemma {:induction false} FlagsSetPrefix(a: seq<TreeNode>, b: seq<TreeNode>, flag: bool)
    requires FlagsSet(a, b, flag) && a != []
    ensures FlagsSet(a[..|a| - 1], b[..|b| - 1], flag)
    ensures NodeFlagsSet(a[|a| - 1], b[|b| - 1], flag)
  {
    var a', b' := a[..|a| - 1], b[..|b| - 1];
    forall i | 0 <= i < |a'|
      ensures NodeFlagsSet(a'[i], b'[i], flag)
    {
      assert a'[i] == a[i] && b'[i] == b[i];
    }
  }

  /** Setting all flags keeps the shape of the forest. */
  lemma {:induction false} FlagsSetSameShape(a: seq<TreeNode>, b: seq<TreeNode>, flag: bool)
    requires FlagsSet(a, b, flag)
    ensures SameShape(a, b)
    decreases a
  {
    forall i | 0 <= i < |a| {
      FlagsSetSameShape(a[i].children, b[i].children, flag);
    }
  }

  /** Every node of the whole forest, visible or not, gets the flag if it
      has children and keeps its flag otherwise. */
  lemma {:induction false} FlagsSetEverywhere(a: seq<TreeNode>, b: seq<TreeNode>, flag: bool, p: seq<nat>)
    requires FlagsSet(a, b, flag) && ValidPath(a, p)
    ensures ValidPath(b, p)
    ensures NodeAt(b, p).expanded ==
      if NodeAt(a, p).IsExpandable() then flag else NodeAt(a, p).expanded
    decreases p
  {
    if |p| > 1 {
      FlagsSetEverywhere(a[p[0]].children, b[p[0]].children, flag, p[1..]);
    }
  }

  /** With every flag set, the whole forest is visible. */
  lemma {:induction false} ExpandedAllVisible(a: seq<TreeNode>, b: seq<TreeNode>)
    requires FlagsSet(a, b, true)
    ensures |Visible(b)| == Size(a)
    decreases a
  {
    if a != [] {
      var n := |a|;
      FlagsSetPrefix(a, b, true);
      ExpandedAllVisible(a[..n - 1], b[..n - 1]);
      ExpandedAllVisible(a[n - 1].children, b[n - 1].children);
    }
  }

  /** With every flag cleared, exactly the roots are visible. */
  lemma {:induction false} CollapsedAllVisible(a: seq<TreeNode>, b: seq<TreeNode>)
    requires FlagsSet(a, b, false)
    ensures |Visible(b)| == |a|
    decreases a
  {
    if a != [] {
      var n := |a|;
      FlagsSetPrefix(a, b, false);
      CollapsedAllVisible(a[..n - 1], b[..n - 1]);
      var last := b[n - 1];
      if !a[n - 1].IsExpandable() {
        assert last.children == [];
      }
      assert |NodeView(last, n - 1)| == 1;
    }
  }

  // ---------------------------------------------------------------------------
  // The walks over the forest
  // ---------------------------------------------------------------------------

  lemma LiftNothing(es: seq<FlatNode>)
    ensures Lift(es, 0, []) == es
  {
    forall k | 0 <= k < |es|
      ensures Lift(es, 0, [])[k] == es[k]
    {
      assert [] + es[k].path == es[k].path;
    }
  }

  lemma LiftAppend(xs: seq<FlatNode>, ys: seq<FlatNode>, d: nat, prefix: seq<nat>)
    ensures Lift(xs + ys, d, prefix) == Lift(xs, d, prefix) + Lift(ys, d, prefix)
  {
  }

  lemma LiftLift(es: seq<FlatNode>, i: nat, d: nat, prefix: seq<nat>)
    ensures Lift(Lift(es, 1, [i]), d, prefix) == Lift(es, d + 1, prefix + [i])
  {
    forall k | 0 <= k < |es|
      ensures prefix + ([i] + es[k].path) == (prefix + [i]) + es[k].path
    {
    }
  }

  /** A node's rows, lifted: the node itself, then its children's rows one
      level further down when it is expanded. */
  lemma LiftNodeView(node: TreeNode, i: nat, d: nat, prefix: seq<nat>)
    ensures Lift(NodeView(node, i), d, prefix) ==
      [FlatNode(node, d, prefix + [i])]
      + (if node.expanded then Lift(Visible(node.children), d + 1, prefix + [i]) else [])
  {
    var rest := if node.expanded then Lift(Visible(node.children), 1, [i]) else [];
    LiftAppend([FlatNode(node, 0, [i])], rest, d, prefix);
    if node.expanded {
      LiftLift(Visible(node.children), i, d, prefix);
    }
  }

  /** Appending one more child's rows keeps the walk's accumulator equal to
      the lifted rows of the children seen so far. */
  lemma LiftVisibleStep(head: seq<FlatNode>, acc: seq<FlatNode>, ns: seq<TreeNode>, j: nat, d: nat, prefix: seq<nat>)
    requires j < |ns|
    requires acc == head + Lift(Visible(ns[..j]), d, prefix)
    ensures acc + Lift(NodeView(ns[j], j), d, prefix) == head + Lift(Visible(ns[..j + 1]), d, prefix)
  {
    VisibleStep(ns, j);
    LiftAppend(Visible(ns[..j]), NodeView(ns[j], j), d, prefix);
  }

  /** Appends the rows of `node` (the `i`-th child of the node at `prefix`,
      `depth` levels down) to `out`, descending only into expanded nodes. */
  method FlattenNode(node: TreeNode, depth: nat, prefix: seq<nat>, i: nat, out: seq<FlatNode>)
    returns (out': seq<FlatNode>)
    ensures out' == out + Lift(NodeView(node, i), depth, prefix)
    decreases node
  {
    var head := out + [FlatNode(node, depth, prefix + [i])];
    out' := head;
    if node.expanded {
      var j := 0;
      while j < |node.children|
        invariant 0 <= j <= |node.children|
        invariant out' == head + Lift(Visible(node.children[..j]), depth + 1, prefix + [i])
      {
        LiftVisibleStep(head, out', node.children, j, depth + 1, prefix + [i]);
        out' := FlattenNode(node.children[j], depth + 1, prefix + [i], j, out');
        j := j + 1;
      }
      assert node.children[..j] == node.children;
    }
    LiftNodeView(node, i, depth, prefix);
  }

  /** A node's view is its own row plus, when expanded, its children's rows. */
  lemma NodeViewLength(n: TreeNode, i: nat)
    ensures |NodeView(n, i)| == 1 + (if n.expanded then |Visible(n.children)| else 0)
  {
  }

  /** The `i`-th root is the first of its rows, right after the rows of
      the roots before it. */
  lemma RowOfRoot(ns: seq<TreeNode>, i: nat)
    requires i < |ns|
    ensures |Visible(ns[..i])| < |Visible(ns[..i + 1])| <= |Visible(ns)|
    ensures Visible(ns)[|Visible(ns[..i])|].path == [i]
  {
    VisibleAt(ns, i);
    VisibleStep(ns, i);
    VisiblePrefix(ns, i + 1);
  }

  /** Row `k` of an expanded root's children appears in the forest under
      that root, after the root's own row. */
  lemma RowInRoot(ns: seq<TreeNode>, i: nat, k: nat)
    requires i < |ns| && ns[i].expanded && k < |Visible(ns[i].children)|
    ensures |Visible(ns[..i])| + 1 + k < |Visible(ns)|
    ensures Visible(ns)[|Visible(ns[..i])| + 1 + k].path == [i] + Visible(ns[i].children)[k].path
    ensures |Visible(ns[i].children)[k].path| > 0
  {
    VisibleAt(ns, i);
    assert NodeView(ns[i], i)[1 + k] == Lift(Visible(ns[i].children), 1, [i])[k];
    VisibleSound(ns[i].children, k);
  }

  lemma UpdateAtChild(ns: seq<TreeNode>, i: nat, q: seq<nat>, a: FlagAction)
    requires i < |ns| && |q| > 0
    ensures UpdateAt(ns, [i] + q, a) == ns[i := ns[i].(children := UpdateAt(ns[i].children, q, a))]
  {
    assert ([i] + q)[1..] == q;
  }

  /** Walks the visible rows of `nodes` in order, numbering them from
      `counter`, and applies the action to the node numbered `target`.
      Reports whether it was reached, and the count after the walk. */
  method ApplyAt(nodes: seq<TreeNode>, target: nat, counter: nat, action: FlagAction)
    returns (updated: seq<TreeNode>, counter': nat, found: bool)
    ensures found <==> counter <= target < counter + |Visible(nodes)|
    ensures found ==> counter' == target
    ensures found ==> updated == UpdateAt(nodes, Visible(nodes)[target - counter].path, action)
    ensures !found ==> counter' == counter + |Visible(nodes)| && updated == nodes
    decreases nodes
  {
    updated, counter', found := nodes, counter, false;
    var i := 0;
    while i < |nodes|
      invariant 0 <= i <= |nodes|
      invariant counter' == counter + |Visible(nodes[..i])|
      invariant !(counter <= target < counter')
      invariant updated == nodes && !found
    {
      var node := nodes[i];
      RowOfRoot(nodes, i);
      if counter' == target {
        updated := nodes[i := Apply(action, node)];
        found := true;
        return;
      }
      counter' := counter' + 1;
      VisibleStep(nodes, i);
      NodeViewLength(node, i);
      if node.expanded {
        var children, c, f := ApplyAt(node.children, target, counter', action);
        if f {
          RowInRoot(nodes, i, target - counter');
          UpdateAtChild(nodes, i, Visible(node.children)[target - counter'].path, action);
          updated := nodes[i := node.(children := children)];
          counter' := c;
          found := true;
          return;
        }
        counter' := c;
      }
      i := i + 1;
    }
    assert nodes[..i] == nodes;
  }

  /** Sets the flag of every expandable node in the forest. */
  method SetExpandedAll(nodes: seq<TreeNode>, flag: bool) returns (updated: seq<TreeNode>)
    ensures FlagsSet(nodes, updated, flag)
    decreases nodes
  {
    updated := nodes;
    var i := 0;
    while i < |nodes|
      invariant 0 <= i <= |nodes| && |updated| == |nodes|
      invariant forall j :: 0 <= j < i ==> NodeFlagsSet(nodes[j], updated[j], flag)
    {
      var node := nodes[i];
      if node.IsExpandable() {
        node := node.(expanded := flag);
      }
      var children := SetExpandedAll(nodes[i].children, flag);
      updated := updated[i := node.(children := children)];
      i := i + 1;
    }
  }

  // ---------------------------------------------------------------------------
  // The navigator
  // ---------------------------------------------------------------------------

  /** All schema roots and a cursor into their visible rows. */
  class TreeState {
    var roots: seq<TreeNode>
    var cursor: nat

    /** The cursor is on a visible row, or at 0 when nothing is visible. */
    ghost predicate Valid()
      reads this
    {
      cursor == 0 || cursor < |Visible(roots)|
    }

    constructor (roots: seq<TreeNode>)
      ensures this.roots == roots && cursor == 0
      ensures Valid()
    {
      this.roots := roots;
      cursor := 0;
    }

    /** The visible rows, depth-first, skipping collapsed subtrees. */
    method Flatten() returns (rows: seq<FlatNode>)
      ensures rows == Visible(roots)
    {
      rows := [];
      for i := 0 to |roots|
        invariant rows == Visible(roots[..i])
      {
        rows := FlattenNode(roots[i], 0, [], i, rows);
        LiftNothing(NodeView(roots[i], i));
        VisibleStep(roots, i);
      }
      assert roots[..|roots|] == roots;
    }

    function VisibleCount(): (r: nat)
      reads this
      ensures r == |Visible(roots)|
      ensures |roots| <= r <= Size(roots)
    {
      VisibleBounds(roots);
      |Visible(roots)|
    }

    /** The node on the cursor's row, if there is one. */
    function SelectedNode(): (r: Option<TreeNode>)
      reads this
      ensures r.Some? <==> cursor < |Visible(roots)|
      ensures roots == [] ==> r == None
      ensures r.Some? ==>
        && ValidPath(roots, Visible(roots)[cursor].path)
        && r.value == NodeAt(roots, Visible(roots)[cursor].path)
        && AncestorsExpanded(roots, Visible(roots)[cursor].path)
      ensures Valid() && roots != [] ==> r.Some?
    {
      if cursor < |Visible(roots)| then
        VisibleSound(roots, cursor);
        Some(Visible(roots)[cursor].node)
      else
        VisibleBounds(roots);
        None
    }

    method MoveUp()
      modifies this`cursor
      ensures cursor == if old(cursor) > 0 then old(cursor) - 1 else old(cursor)
      ensures old(Valid()) ==> Valid()
    {
      if cursor > 0 {
        cursor := cursor - 1;
      }
    }

    method MoveDown()
      modifies this`cursor
      ensures cursor == if old(cursor) + 1 < |Visible(roots)| then old(cursor) + 1 else old(cursor)
      ensures old(Valid()) ==> Valid()
    {
      var count := VisibleCount();
      var max := if count > 0 then count - 1 else 0;  // saturating subtraction
      if cursor < max {
        cursor := cursor + 1;
      }
    }

    method GotoTop()
      modifies this`cursor
      ensures cursor == 0 && Valid()
    {
      cursor := 0;
    }

    method GotoBottom()
      modifies this`cursor
      ensures cursor == if |Visible(roots)| > 0 then |Visible(roots)| - 1 else 0
      ensures Valid()
    {
      var count := VisibleCount();
      cursor := if count > 0 then count - 1 else 0;  // saturating subtraction
    }

    /** Flips the flag of the node on the cursor's row, if it has children. */
    method ToggleAtCursor()
      modifies this`roots
      ensures roots == UpdateRow(old(roots), cursor, Toggle)
      ensures old(Valid()) ==> Valid()
    {
      var target := cursor;
      var updated, _, found := ApplyAt(roots, target, 0, Toggle);
      if found {
        UpdateRowKeepsRow(roots, target, Toggle);
      }
      roots := updated;
    }

    /** Expands the node on the cursor's row, if it has children. */
    method ExpandAtCursor()
      modifies this`roots
      ensures roots == UpdateRow(old(roots), cursor, SetTo(true))
      ensures old(Valid()) ==> Valid()
    {
      var target := cursor;
      var updated, _, found := ApplyAt(roots, target, 0, SetTo(true));
      if found {
        UpdateRowKeepsRow(roots, target, SetTo(true));
      }
      roots := updated;
    }

    /** Collapses the node on the cursor's row, if it has children. */
    method CollapseAtCursor()
      modifies this`roots
      ensures roots == UpdateRow(old(roots), cursor, SetTo(false))
      ensures old(Valid()) ==> Valid()
    {
      var target := cursor;
      var updated, _, found := ApplyAt(roots, target, 0, SetTo(false));
      if found {
        UpdateRowKeepsRow(roots, target, SetTo(false));
      }
      roots := updated;
    }

    /** Expands every node of the whole forest, visible or not. */
    method ExpandAll()
      modifies this`roots
      ensures FlagsSet(old(roots), roots, true)
      ensures |Visible(roots)| == Size(old(roots))
      ensures old(Valid()) ==> Valid()
    {
      var before := roots;
      roots := SetExpandedAll(roots, true);
      ExpandedAllVisible(before, roots);
      VisibleBounds(before);
    }

    /** Collapses every node and puts the cursor back on the first row. */
    method CollapseAll()
      modifies this
      ensures FlagsSet(old(roots), roots, false)
      ensures cursor == 0 && |Visible(roots)| == |roots|
      ensures Valid()
    {
      var before := roots;
      roots := SetExpandedAll(roots, false);
      cursor := 0;
      CollapsedAllVisible(before, roots);
    }
  }
}
