/**
 * The n-ary category tree (`BasicTree<T>` and `BasicTreeNode<T>` in
 * DataStructures.cs). Nodes are values: the only mutation the source performs,
 * `AddChild`, happens while a tree is being built, so a built tree is a value
 * whose root the walks below start from.
 */
module CategoryTrees {
  import opened Wrappers

  datatype TreeNode<T> = TreeNode(Data: T, Children: seq<TreeNode<T>>)

  /** `BasicTreeNode.AddChild`: the child goes after the existing ones. */
  function AddChild<T>(node: TreeNode<T>, child: TreeNode<T>): TreeNode<T>
  {
    node.(Children := node.Children + [child])
  }

  /** Number of nodes. */
  function Size<T>(t: TreeNode<T>): nat
    decreases t, 1
  {
    1 + SizeForest(t.Children)
  }

  function SizeForest<T>(cs: seq<TreeNode<T>>): nat
    decreases cs, 0
  {
    if cs == [] then 0 else Size(cs[0]) + SizeForest(cs[1..])
  }

  /** The data of the tree in pre-order: a node, then its children left to right. */
  function PreOrder<T>(t: TreeNode<T>): seq<T>
    decreases t, 1
  {
    [t.Data] + PreOrderForest(t.Children)
  }

  function PreOrderForest<T>(cs: seq<TreeNode<T>>): seq<T>
    decreases cs, 0
  {
    if cs == [] then [] else PreOrder(cs[0]) + PreOrderForest(cs[1..])
  }

  lemma {:induction false} PreOrderForestAppend<T>(a: seq<TreeNode<T>>, b: seq<TreeNode<T>>)
    ensures PreOrderForest(a + b) == PreOrderForest(a) + PreOrderForest(b)
  {
    if a == [] {
      assert a + b == b;
    } else {
      assert (a + b)[1..] == a[1..] + b;
      PreOrderForestAppend(a[1..], b);
    }
  }

  /** `TraverseRecursive`: appends the pre-order walk of `node` to `result`. */
  method TraverseRecursive<T>(node: TreeNode<T>, result: seq<T>) returns (res: seq<T>)
    ensures res == result + PreOrder(node)
    decreases node
  {
    res := result + [node.Data];
    for i := 0 to |node.Children|
      invariant res == result + [node.Data] + PreOrderForest(node.Children[..i])
    {
      res := TraverseRecursive(node.Children[i], res);
      PreOrderForestAppend(node.Children[..i], [node.Children[i]]);
      assert node.Children[..i + 1] == node.Children[..i] + [node.Children[i]];
    }
    assert node.Children[..|node.Children|] == node.Children;
  }

  /** `BasicTree.Traverse`: the pre-order walk from the root, one entry per node. */
  method Traverse<T>(root: TreeNode<T>) returns (r: seq<T>)
    ensures r == PreOrder(root)
    ensures |r| == Size(root) && r[0] == root.Data
  {
    r := TraverseRecursive(root, []);
    PreOrderLength(root);
  }

  lemma {:induction false} PreOrderLength<T>(t: TreeNode<T>)
    ensures |PreOrder(t)| == Size(t)
    decreases t, 1
  {
    PreOrderForestLength(t.Children);
  }

  lemma {:induction false} PreOrderForestLength<T>(cs: seq<TreeNode<T>>)
    ensures |PreOrderForest(cs)| == SizeForest(cs)
    decreases cs, 0
  {
    if cs != [] {
      PreOrderLength(cs[0]);
      PreOrderForestLength(cs[1..]);
    }
  }

  /** `FindRecursive`: the node holding `data`, searched root first, then each child in turn. */
  function FindRecursive<T(==)>(node: TreeNode<T>, data: T): (r: Option<TreeNode<T>>)
    ensures r.Some? ==> r.value.Data == data
    ensures r.Some? <==> data in PreOrder(node)
    decreases node, 1
  {
    if node.Data == data then Some(node) else FindInChildren(node.Children, data)
  }

  function FindInChildren<T(==)>(cs: seq<TreeNode<T>>, data: T): (r: Option<TreeNode<T>>)
    ensures r.Some? ==> r.value.Data == data
    ensures r.Some? <==> data in PreOrderForest(cs)
    decreases cs, 0
  {
    if cs == [] then None
    else
      var r := FindRecursive(cs[0], data);
      if r.Some? then r else FindInChildren(cs[1..], data)
  }

  /** The subtrees of `t` in pre-order: the node behind each entry of `PreOrder(t)`. */
  function Subtrees<T>(t: TreeNode<T>): seq<TreeNode<T>>
    decreases t, 1
  {
    [t] + SubtreesForest(t.Children)
  }

  function SubtreesForest<T>(cs: seq<TreeNode<T>>): seq<TreeNode<T>>
    decreases cs, 0
  {
    if cs == [] then [] else Subtrees(cs[0]) + SubtreesForest(cs[1..])
  }

  /** The first node in `s` whose data is `data`. */
  function FirstMatch<T(==)>(s: seq<TreeNode<T>>, data: T): Option<TreeNode<T>>
  {
    if s == [] then None
    else if s[0].Data == data then Some(s[0])
    else FirstMatch(s[1..], data)
  }

  lemma {:induction false} FirstMatchAppend<T>(a: seq<TreeNode<T>>, b: seq<TreeNode<T>>, data: T)
    ensures FirstMatch(a + b, data) == if FirstMatch(a, data).Some? then FirstMatch(a, data) else FirstMatch(b, data)
  {
    if a == [] {
      assert a + b == b;
    } else {
      assert (a + b)[1..] == a[1..] + b;
      FirstMatchAppend(a[1..], b, data);
    }
  }

  /** Entry i of the pre-order walk is the data of the i-th pre-order subtree. */
  lemma {:induction false} SubtreesMatchPreOrder<T>(t: TreeNode<T>)
    ensures |Subtrees(t)| == |PreOrder(t)|
    ensures forall i :: 0 <= i < |Subtrees(t)| ==> Subtrees(t)[i].Data == PreOrder(t)[i]
    decreases t, 1
  {
    SubtreesForestMatchPreOrder(t.Children);
  }

  lemma {:induction false} SubtreesForestMatchPreOrder<T>(cs: seq<TreeNode<T>>)
    ensures |SubtreesForest(cs)| == |PreOrderForest(cs)|
    ensures forall i :: 0 <= i < |SubtreesForest(cs)| ==> SubtreesForest(cs)[i].Data == PreOrderForest(cs)[i]
    decreases cs, 0
  {
    if cs != [] {
      SubtreesMatchPreOrder(cs[0]);
      SubtreesForestMatchPreOrder(cs[1..]);
    }
  }

  /** `Find` returns the first node of the pre-order walk that holds `data`. */
  lemma {:induction false} FindIsFirstInPreOrder<T>(t: TreeNode<T>, data: T)
    ensures FindRecursive(t, data) == FirstMatch(Subtrees(t), data)
    decreases t, 1
  {
    FindInChildrenIsFirst(t.Children, data);
    assert Subtrees(t)[1..] == SubtreesForest(t.Children);
  }

  lemma {:induction false} FindInChildrenIsFirst<T>(cs: seq<TreeNode<T>>, data: T)
    ensures FindInChildren(cs, data) == FirstMatch(SubtreesForest(cs), data)
    decreases cs, 0
  {
    if cs != [] {
      FindIsFirstInPreOrder(cs[0], data);
      FindInChildrenIsFirst(cs[1..], data);
      FirstMatchAppend(Subtrees(cs[0]), SubtreesForest(cs[1..]), data);
    }
  }

  /** `GetHeightRecursive`: 1 for a leaf, otherwise 1 more than the tallest child. */
  function GetHeightRecursive<T>(node: TreeNode<T>): (h: nat)
    ensures h >= 1
    decreases node, 1
  {
    if node.Children == [] then 1 else 1 + MaxHeight(node.Children)
  }

  /** `Children.Max(c => GetHeightRecursive(c))`, with 0 for no children. */
  function MaxHeight<T>(cs: seq<TreeNode<T>>): (m: nat)
    ensures forall i :: 0 <= i < |cs| ==> GetHeightRecursive(cs[i]) <= m
    ensures cs != [] ==> exists i :: 0 <= i < |cs| && GetHeightRecursive(cs[i]) == m
    ensures cs == [] <==> m == 0
    decreases cs, 0
  {
    if cs == [] then 0
    else
      var h := GetHeightRecursive(cs[0]);
      var rest := MaxHeight(cs[1..]);
      assert forall i :: 1 <= i < |cs| ==> cs[i] == cs[1..][i - 1];
      if h >= rest then h else rest
  }

  /** A leaf has height 1; any other node is one taller than its tallest child. */
  lemma HeightOfNode<T>(node: TreeNode<T>)
    ensures node.Children == [] ==> GetHeightRecursive(node) == 1
    ensures forall c :: c in node.Children ==> GetHeightRecursive(c) < GetHeightRecursive(node)
    ensures node.Children != [] ==>
      exists c :: c in node.Children && GetHeightRecursive(node) == 1 + GetHeightRecursive(c)
  {
    if node.Children != [] {
      var i :| 0 <= i < |node.Children| && GetHeightRecursive(node.Children[i]) == MaxHeight(node.Children);
      assert node.Children[i] in node.Children;
    }
  }

  /** A tree is never taller than it has nodes. */
  lemma {:induction false} HeightAtMostSize<T>(t: TreeNode<T>)
    ensures GetHeightRecursive(t) <= Size(t)
    decreases t, 1
  {
    MaxHeightAtMostSize(t.Children);
  }

  lemma {:induction false} MaxHeightAtMostSize<T>(cs: seq<TreeNode<T>>)
    ensures MaxHeight(cs) <= SizeForest(cs)
    decreases cs, 0
  {
    if cs != [] {
      HeightAtMostSize(cs[0]);
      MaxHeightAtMostSize(cs[1..]);
    }
  }
}
