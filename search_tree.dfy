/**
 * The unbalanced binary search tree over service requests, keyed by the
 * numeric value of `IssueID` (`ServiceRequestBST` and `BSTNode` in
 * DataStructures.cs). The nodes are values (`Tree`); the tree object that
 * owns the root is a class. Everything about the tree is stated through its
 * in-order list of (key, record) pairs, `Items`.
 */
module SearchTrees {
  import opened Text
  import opened ServiceRequests

  type Item = (int, ServiceRequest)

  function Keys(items: seq<Item>): set<int>
  {
    set p | p in items :: p.0
  }

  /** `a` has the smaller key. */
  predicate Below(a: Item, b: Item)
  {
    a.0 < b.0
  }

  /** The keys increase along the list, so no key appears twice. */
  ghost predicate StrictlyIncreasing(items: seq<Item>)
  {
    forall i, j {:trigger Below(items[i], items[j])} :: 0 <= i < j < |items| ==> Below(items[i], items[j])
  }

  /** The records of an in-order list, in order. */
  function DataOf(items: seq<Item>): (d: seq<ServiceRequest>)
    ensures |d| == |items|
  {
    if items == [] then [] else [items[0].1] + DataOf(items[1..])
  }

  lemma {:induction false} DataOfAt(items: seq<Item>, i: nat)
    requires i < |items|
    ensures DataOf(items)[i] == items[i].1
  {
    if i > 0 {
      DataOfAt(items[1..], i - 1);
    }
  }

  /**
   * The in-order list after inserting `key`: a new pair in its sorted place,
   * or, when `key` is already present, the list as it was.
   */
  function InsertSorted(items: seq<Item>, key: int, data: ServiceRequest): seq<Item>
  {
    if items == [] then [(key, data)]
    else if key < items[0].0 then [(key, data)] + items
    else if key == items[0].0 then items
    else [items[0]] + InsertSorted(items[1..], key, data)
  }

  /** In a strictly increasing list, everything after the head has a larger key. */
  lemma TailAboveHead(items: seq<Item>)
    requires items != [] && StrictlyIncreasing(items)
    ensures forall p :: p in items[1..] ==> items[0].0 < p.0
    ensures StrictlyIncreasing(items[1..])
  {
    forall p | p in items[1..] ensures items[0].0 < p.0 {
      var i :| 0 <= i < |items[1..]| && items[1..][i] == p;
      assert items[i + 1] == p && Below(items[0], items[i + 1]);
    }
  }

  /**
   * Inserting a key that is already present changes nothing: the first record
   * stored under a key is the one that stays.
   */
  lemma {:induction false} InsertSortedPresent(items: seq<Item>, key: int, data: ServiceRequest)
    requires StrictlyIncreasing(items) && key in Keys(items)
    ensures InsertSorted(items, key, data) == items
  {
    var p :| p in items && p.0 == key;
    if key != items[0].0 {
      TailAboveHead(items);
      assert p != items[0] && p in items[1..];
      if key < items[0].0 {
        assert false;
      }
      InsertSortedPresent(items[1..], key, data);
      assert [items[0]] + items[1..] == items;
    }
  }

  /** Insertion adds exactly the new pair, and only when the key is new. */
  lemma {:induction false} InsertSortedMembers(items: seq<Item>, key: int, data: ServiceRequest)
    requires StrictlyIncreasing(items)
    ensures forall p :: p in InsertSorted(items, key, data) <==> p in items || (p == (key, data) && key !in Keys(items))
    ensures Keys(InsertSorted(items, key, data)) == Keys(items) + {key}
  {
    if key in Keys(items) {
      InsertSortedPresent(items, key, data);
    } else if items != [] && key > items[0].0 {
      TailAboveHead(items);
      InsertSortedMembers(items[1..], key, data);
      assert [items[0]] + items[1..] == items;
      assert Keys(items) == {items[0].0} + Keys(items[1..]);
    }
  }

  /** A pair below everything in an increasing list can go in front of it. */
  lemma ConsIncreasing(x: Item, s: seq<Item>)
    requires StrictlyIncreasing(s)
    requires forall p :: p in s ==> x.0 < p.0
    ensures StrictlyIncreasing([x] + s)
  {
    var r := [x] + s;
    forall i, j | 0 <= i < j < |r| ensures Below(r[i], r[j]) {
      assert r[j] == s[j - 1];
      if i == 0 {
        assert s[j - 1] in s;
      } else {
        assert r[i] == s[i - 1] && Below(s[i - 1], s[j - 1]);
      }
    }
  }

  /** A lower bound on every key, the new one included, survives insertion. */
  lemma InsertSortedAbove(items: seq<Item>, key: int, data: ServiceRequest, lo: int)
    requires StrictlyIncreasing(items)
    requires forall p :: p in items ==> lo < p.0
    requires lo < key
    ensures forall p :: p in InsertSorted(items, key, data) ==> lo < p.0
  {
    InsertSortedMembers(items, key, data);
  }

  /** Insertion keeps the in-order list strictly increasing and grows it by one for a new key. */
  lemma {:induction false} InsertSortedIncreasing(items: seq<Item>, key: int, data: ServiceRequest)
    requires StrictlyIncreasing(items)
    ensures StrictlyIncreasing(InsertSorted(items, key, data))
    ensures |InsertSorted(items, key, data)| == if key in Keys(items) then |items| else |items| + 1
  {
    if key in Keys(items) {
      InsertSortedPresent(items, key, data);
    } else if items == [] {
    } else if key < items[0].0 {
      TailAboveHead(items);
      assert forall p :: p in items ==> p == items[0] || p in items[1..] by {
        assert items == [items[0]] + items[1..];
      }
      ConsIncreasing((key, data), items);
    } else {
      TailAboveHead(items);
      InsertSortedIncreasing(items[1..], key, data);
      InsertSortedMembers(items[1..], key, data);
      assert Keys(items) == {items[0].0} + Keys(items[1..]) by {
        assert [items[0]] + items[1..] == items;
      }
      assert items[0] in items;
      InsertSortedAbove(items[1..], key, data, items[0].0);
      ConsIncreasing(items[0], InsertSorted(items[1..], key, data));
    }
  }

  lemma KeysAppend(a: seq<Item>, b: seq<Item>)
    ensures Keys(a + b) == Keys(a) + Keys(b)
  {
    forall k | k in Keys(a + b) ensures k in Keys(a) + Keys(b) {
      var p :| p in a + b && p.0 == k;
    }
  }

  /**
   * In a strictly increasing list split around one pair, everything to its
   * left has a smaller key, everything to its right a larger one, and both
   * sides are increasing themselves.
   */
  lemma SplitBounds(left: seq<Item>, x: Item, right: seq<Item>)
    requires StrictlyIncreasing(left + [x] + right)
    ensures forall p :: p in left ==> p.0 < x.0
    ensures forall p :: p in right ==> x.0 < p.0
    ensures StrictlyIncreasing(left) && StrictlyIncreasing(right)
  {
    var s := left + [x] + right;
    assert s[|left|] == x;
    forall p | p in left ensures p.0 < x.0 {
      var i :| 0 <= i < |left| && left[i] == p;
      assert s[i] == p && Below(s[i], s[|left|]);
    }
    forall p | p in right ensures x.0 < p.0 {
      var i :| 0 <= i < |right| && right[i] == p;
      assert s[|left| + 1 + i] == p && Below(s[|left|], s[|left| + 1 + i]);
    }
    forall i, j | 0 <= i < j < |right| ensures Below(right[i], right[j]) {
      assert s[|left| + 1 + i] == right[i] && s[|left| + 1 + j] == right[j] && Below(s[|left| + 1 + i], s[|left| + 1 + j]);
    }
    forall i, j | 0 <= i < j < |left| ensures Below(left[i], left[j]) {
      assert s[i] == left[i] && s[j] == left[j] && Below(s[i], s[j]);
    }
  }

  /** `BSTNode`: a key, the record stored under it, and two subtrees; `Nil` is the null pointer. */
  datatype Tree = Nil | Node(Key: int, Data: ServiceRequest, Left: Tree, Right: Tree)

  /** The in-order list of a tree: left subtree, the node's own pair, right subtree. */
  function Items(t: Tree): seq<Item>
  {
    if t.Nil? then [] else Items(t.Left) + [(t.Key, t.Data)] + Items(t.Right)
  }

  /** The search-tree property: the in-order keys strictly increase. */
  ghost predicate IsSearchTree(t: Tree)
  {
    StrictlyIncreasing(Items(t))
  }

  /**
   * `InsertRecursive`: walks down by key, hangs a new node where the walk
   * falls off the tree, rebuilds the path on the way back, and leaves the tree
   * alone when the key is already there.
   */
  function InsertRecursive(node: Tree, key: int, data: ServiceRequest): (r: Tree)
    requires IsSearchTree(node)
    ensures Items(r) == InsertSorted(Items(node), key, data)
    ensures IsSearchTree(r)
  {
    InsertSortedIncreasing(Items(node), key, data);
    if node.Nil? then
      Node(key, data, Nil, Nil)
    else
      SplitBounds(Items(node.Left), (node.Key, node.Data), Items(node.Right));
      InsertSortedSplit(Items(node.Left), (node.Key, node.Data), Items(node.Right), key, data);
      if key < node.Key then
        node.(Left := InsertRecursive(node.Left, key, data))
      else if key > node.Key then
        node.(Right := InsertRecursive(node.Right, key, data))
      else
        node
  }

  /** Where the new key falls relative to a node's own key decides which side changes. */
  lemma {:induction false} InsertSortedSplit(left: seq<Item>, x: Item, right: seq<Item>, key: int, data: ServiceRequest)
    requires StrictlyIncreasing(left + [x] + right)
    ensures key < x.0 ==> InsertSorted(left + [x] + right, key, data) == InsertSorted(left, key, data) + [x] + right
    ensures key == x.0 ==> InsertSorted(left + [x] + right, key, data) == left + [x] + right
    ensures x.0 < key ==> InsertSorted(left + [x] + right, key, data) == left + [x] + InsertSorted(right, key, data)
  {
    var s := left + [x] + right;
    SplitBounds(left, x, right);
    if left == [] {
      assert s == [x] + right;
      assert s[1..] == right;
    } else {
      assert s[0] == left[0] && s[1..] == left[1..] + [x] + right;
      assert forall i, j :: 0 <= i < j < |s[1..]| ==> s[1..][i] == s[i + 1] && s[1..][j] == s[j + 1];
      assert left[0] in left;
      InsertSortedSplit(left[1..], x, right, key, data);
      if key < x.0 && left[0].0 < key {
        assert InsertSorted(left, key, data) == [left[0]] + InsertSorted(left[1..], key, data);
      }
    }
  }

  /**
   * `SearchRecursive`: the subtree whose root has key `key`, found by walking
   * left or right by comparison, or `Nil` when no node has that key.
   */
  function SearchRecursive(node: Tree, key: int): (r: Tree)
    requires IsSearchTree(node)
    ensures r.Node? ==> r.Key == key && (key, r.Data) in Items(node)
    ensures r.Nil? <==> key !in Keys(Items(node))
  {
    if node.Nil? then
      Nil
    else if node.Key == key then
      assert Items(node)[|Items(node.Left)|] == (key, node.Data);
      node
    else
      KeysAppend(Items(node.Left) + [(node.Key, node.Data)], Items(node.Right));
      KeysAppend(Items(node.Left), [(node.Key, node.Data)]);
      SplitBounds(Items(node.Left), (node.Key, node.Data), Items(node.Right));
      if key < node.Key then
        NotInKeysAbove(Items(node.Right), node.Key, key);
        SearchRecursive(node.Left, key)
      else
        NotInKeysBelow(Items(node.Left), node.Key, key);
        SearchRecursive(node.Right, key)
  }

  lemma NotInKeysBelow(items: seq<Item>, bound: int, key: int)
    requires forall p :: p in items ==> p.0 < bound
    requires bound <= key
    ensures key !in Keys(items)
  {
  }

  lemma NotInKeysAbove(items: seq<Item>, bound: int, key: int)
    requires forall p :: p in items ==> bound < p.0
    requires key <= bound
    ensures key !in Keys(items)
  {
  }

  lemma {:induction false} DataOfAppend(a: seq<Item>, b: seq<Item>)
    ensures DataOf(a + b) == DataOf(a) + DataOf(b)
  {
    if a == [] {
      assert a + b == b;
    } else {
      assert (a + b)[1..] == a[1..] + b;
      DataOfAppend(a[1..], b);
    }
  }

  /** `InOrderRecursive`: appends the records of the subtree, left, node, right. */
  method InOrderRecursive(node: Tree, result: seq<ServiceRequest>) returns (res: seq<ServiceRequest>)
    ensures res == result + DataOf(Items(node))
  {
    res := result;
    if node.Node? {
      res := InOrderRecursive(node.Left, res);
      res := res + [node.Data];
      res := InOrderRecursive(node.Right, res);
      DataOfAppend(Items(node.Left) + [(node.Key, node.Data)], Items(node.Right));
      DataOfAppend(Items(node.Left), [(node.Key, node.Data)]);
    }
  }

  class ServiceRequestBST {
    var root: Tree

    ghost predicate Valid()
      reads this
    {
      IsSearchTree(root)
    }

    constructor ()
      ensures Valid() && root == Nil
    {
      root := Nil;
    }

    /**
     * `Insert`: a request whose IssueID is not an Int32 numeral is refused
     * (`ArgumentException`) before the tree is touched; otherwise its key is
     * inserted, and a key already present keeps its first record.
     */
    method Insert(request: ServiceRequest) returns (ok: bool)
      requires Valid()
      modifies this
      ensures Valid()
      ensures ok <==> TryParseInt(request.IssueID).Some?
      ensures ok ==> Items(root) == InsertSorted(old(Items(root)), TryParseInt(request.IssueID).value, request)
      ensures !ok ==> root == old(root)
    {
      var parsed := TryParseInt(request.IssueID);
      if parsed.None? {
        return false;
      }
      root := InsertRecursive(root, parsed.value, request);
      ok := true;
    }

    /** `Search`: the subtree rooted at key `key`, or `Nil` when the key was never inserted. */
    function Search(key: int): (r: Tree)
      requires Valid()
      reads this
      ensures r.Node? ==> r.Key == key && (key, r.Data) in Items(root)
      ensures r.Nil? <==> key !in Keys(Items(root))
    {
      SearchRecursive(root, key)
    }

    /** `InOrderTraversal`: the stored records by ascending key. */
    method InOrderTraversal() returns (r: seq<ServiceRequest>)
      ensures r == DataOf(Items(root))
    {
      r := InOrderRecursive(root, []);
    }
  }
}
