/**
 * The store that keeps one list of service requests and five indexes over it
 * in step (`RequestManager` in RequestManager.cs): a search tree by numeric
 * id, a max-heap by priority, an n-ary category tree, a relationship graph
 * between ids and a union-find grouping of list positions.
 */
module RequestManagers {
  import opened Wrappers
  import opened Text
  import opened ServiceRequests
  import opened SearchTrees
  import opened PriorityHeaps
  import opened RequestGraphs
  import opened DisjointSets
  import opened CategoryTrees

  /** The union-find is built with this many slots, so the store holds at most this many requests. */
  const Capacity: nat := 1000

  // ----- Relationships between two requests -----

  /** Both street addresses are given and equal ignoring the case of ASCII and Latin-1 letters. */
  predicate SameStreet(a: ServiceRequest, b: ServiceRequest)
    reads a, b
  {
    !IsNullOrEmpty(a.StreetAddress) && !IsNullOrEmpty(b.StreetAddress)
    && EqualsIgnoreCase(a.StreetAddress, b.StreetAddress)
  }

  lemma EqualsIgnoreCaseSymmetric(a: string, b: string)
    ensures EqualsIgnoreCase(a, b) <==> EqualsIgnoreCase(b, a)
  {
    EqualsIgnoreCaseMeaning(a, b);
    EqualsIgnoreCaseMeaning(b, a);
  }

  /**
   * `CalculateRelationshipWeight`: 5 for the same category, 3 for the same
   * priority, 10 for the same street address, 2 for the same email.
   */
  function CalculateRelationshipWeight(req1: ServiceRequest, req2: ServiceRequest): (weight: int)
    reads req1, req2
    ensures 0 <= weight <= 20
  {
    (if req1.Category == req2.Category then 5 else 0)
    + (if req1.Priority == req2.Priority then 3 else 0)
    + (if SameStreet(req1, req2) then 10 else 0)
    + (if req1.Email == req2.Email then 2 else 0)
  }

  /** The weight does not depend on the order of the two requests. */
  lemma RelationshipWeightSymmetric(req1: ServiceRequest, req2: ServiceRequest)
    ensures CalculateRelationshipWeight(req1, req2) == CalculateRelationshipWeight(req2, req1)
  {
    EqualsIgnoreCaseSymmetric(req1.StreetAddress, req2.StreetAddress);
  }

  /**
   * The weight is positive exactly when the requests share a category, a
   * priority, a street address or an email, and reaches 20 exactly when they
   * share all four.
   */
  lemma RelationshipWeightMeaning(req1: ServiceRequest, req2: ServiceRequest)
    ensures CalculateRelationshipWeight(req1, req2) > 0 <==>
      req1.Category == req2.Category || req1.Priority == req2.Priority
      || SameStreet(req1, req2) || req1.Email == req2.Email
    ensures CalculateRelationshipWeight(req1, req2) == 20 <==>
      req1.Category == req2.Category && req1.Priority == req2.Priority
      && SameStreet(req1, req2) && req1.Email == req2.Email
  {
  }

  /** A request is related to itself with weight 10 more than without its address. */
  lemma RelationshipWeightSelf(req: ServiceRequest)
    ensures CalculateRelationshipWeight(req, req) == if IsNullOrEmpty(req.StreetAddress) then 10 else 20
  {
    EqualsIgnoreCaseMeaning(req.StreetAddress, req.StreetAddress);
  }

  // ----- The edges `CreateGraphRelationships` adds -----

  /**
   * The edges added for one existing request `r`: none when it has the same
   * id text as the new request or a non-numeric id or weight 0; otherwise one
   * edge each way, with the same weight.
   */
  function EdgesWith(newRequest: ServiceRequest, newIssueId: int, r: ServiceRequest): seq<GraphEdge>
    reads newRequest, r
  {
    if r.IssueID == newRequest.IssueID then []
    else
      match TryParseInt(r.IssueID)
      case None => []
      case Some(existingId) =>
        var weight := CalculateRelationshipWeight(newRequest, r);
        if weight > 0 then [GraphEdge(newIssueId, existingId, weight), GraphEdge(existingId, newIssueId, weight)]
        else []
  }

  /** The edges added while walking `requests` in order. */
  function RelationshipEdges(newRequest: ServiceRequest, newIssueId: int, requests: seq<ServiceRequest>): seq<GraphEdge>
    reads newRequest, set r | r in requests
    decreases |requests|
  {
    if requests == [] then []
    else
      RelationshipEdges(newRequest, newIssueId, requests[..|requests| - 1])
      + EdgesWith(newRequest, newIssueId, requests[|requests| - 1])
  }

  /** The new request is related to `r` with weight `w`, as `CreateGraphRelationships` decides it. */
  ghost predicate Related(newRequest: ServiceRequest, r: ServiceRequest, x: int, w: int)
    reads newRequest, r
  {
    r.IssueID != newRequest.IssueID && TryParseInt(r.IssueID) == Some(x)
    && w == CalculateRelationshipWeight(newRequest, r) && w > 0
  }

  /**
   * Edges that come in pairs: an edge from `id` with a positive weight, then
   * the same edge reversed.
   */
  ghost predicate PairedEdges(es: seq<GraphEdge>, id: int)
  {
    && |es| % 2 == 0
    && forall m :: 0 <= m < |es| / 2 ==>
         es[2 * m].From == id && es[2 * m].Weight > 0
         && es[2 * m + 1] == GraphEdge(es[2 * m].To, id, es[2 * m].Weight)
  }

  lemma PairedEdgesAppend(a: seq<GraphEdge>, b: seq<GraphEdge>, id: int)
    requires PairedEdges(a, id) && PairedEdges(b, id)
    ensures PairedEdges(a + b, id)
  {
    var k := |a| / 2;
    forall m | 0 <= m < |a + b| / 2
      ensures (a + b)[2 * m].From == id && (a + b)[2 * m].Weight > 0
      ensures (a + b)[2 * m + 1] == GraphEdge((a + b)[2 * m].To, id, (a + b)[2 * m].Weight)
    {
      if m < k {
        assert (a + b)[2 * m] == a[2 * m] && (a + b)[2 * m + 1] == a[2 * m + 1];
      } else {
        assert (a + b)[2 * m] == b[2 * (m - k)] && (a + b)[2 * m + 1] == b[2 * (m - k) + 1];
      }
    }
  }

  /** The added edges come in pairs, each leaving the new id and coming back. */
  lemma {:induction false} RelationshipEdgesPaired(newRequest: ServiceRequest, newIssueId: int, requests: seq<ServiceRequest>)
    ensures PairedEdges(RelationshipEdges(newRequest, newIssueId, requests), newIssueId)
    decreases |requests|
  {
    if requests != [] {
      var n := |requests| - 1;
      RelationshipEdgesPaired(newRequest, newIssueId, requests[..n]);
      var ew := EdgesWith(newRequest, newIssueId, requests[n]);
      assert PairedEdges(ew, newIssueId) by {
        if ew != [] {
          assert |ew| / 2 == 1;
        }
      }
      PairedEdgesAppend(RelationshipEdges(newRequest, newIssueId, requests[..n]), ew, newIssueId);
    }
  }

  /** The edges for one request hold an edge from the new id exactly when the two are related. */
  lemma EdgesWithExact(newRequest: ServiceRequest, newIssueId: int, r: ServiceRequest, x: int, w: int)
    ensures GraphEdge(newIssueId, x, w) in EdgesWith(newRequest, newIssueId, r) <==> Related(newRequest, r, x, w)
  {
  }

  /**
   * An edge from the new id to `x` with weight `w` is added exactly when some
   * request in the walk is related to the new one through id `x` with that
   * weight.
   */
  lemma {:induction false} RelationshipEdgesExact(newRequest: ServiceRequest, newIssueId: int, requests: seq<ServiceRequest>, x: int, w: int)
    ensures GraphEdge(newIssueId, x, w) in RelationshipEdges(newRequest, newIssueId, requests) <==>
      exists r :: r in requests && Related(newRequest, r, x, w)
    decreases |requests|
  {
    if requests != [] {
      var n := |requests| - 1;
      var init, last := requests[..n], requests[n];
      assert requests == init + [last];
      RelationshipEdgesExact(newRequest, newIssueId, init, x, w);
      EdgesWithExact(newRequest, newIssueId, last, x, w);
    }
  }

  /**
   * Every added edge touches the new id, and an added edge from an id to
   * itself needs another request whose id text differs from the new one's
   * but denotes the same number (say "7" and "07").
   */
  lemma {:induction false} RelationshipEdgesEnds(newRequest: ServiceRequest, newIssueId: int, requests: seq<ServiceRequest>)
    ensures forall e :: e in RelationshipEdges(newRequest, newIssueId, requests) ==>
      e.From == newIssueId || e.To == newIssueId
    ensures forall e :: e in RelationshipEdges(newRequest, newIssueId, requests) && e.From == e.To ==>
      exists r :: r in requests && r.IssueID != newRequest.IssueID && TryParseInt(r.IssueID) == Some(newIssueId)
    decreases |requests|
  {
    if requests != [] {
      var init := requests[..|requests| - 1];
      var last := requests[|requests| - 1];
      RelationshipEdgesEnds(newRequest, newIssueId, init);
      forall e | e in RelationshipEdges(newRequest, newIssueId, requests) && e.From == e.To
        ensures exists r :: r in requests && r.IssueID != newRequest.IssueID && TryParseInt(r.IssueID) == Some(newIssueId)
      {
        if e in RelationshipEdges(newRequest, newIssueId, init) {
          var r :| r in init && r.IssueID != newRequest.IssueID && TryParseInt(r.IssueID) == Some(newIssueId);
          assert r in requests;
        } else {
          assert last in requests;
        }
      }
    }
  }

  lemma ParseSeven()
    ensures TryParseInt("7") == Some(7)
  {
    assert SkipWhite("7", 0) == 0 && SkipWhiteBack("7", 1) == 1;
    assert RangeValue("7", 0, 0) == 0;
  }

  lemma ParseZeroSeven()
    ensures TryParseInt("07") == Some(7)
  {
    assert SkipWhite("07", 0) == 0 && SkipWhiteBack("07", 2) == 2;
    assert RangeValue("07", 0, 1) == 0 by { assert RangeValue("07", 0, 0) == 0; }
  }

  /** Two different id texts can denote the same id, so the id-text filter does not rule out self-loops. */
  lemma SameIdDifferentText()
    ensures "07" != "7" && TryParseInt("07") == TryParseInt("7") == Some(7)
  {
    ParseSeven();
    ParseZeroSeven();
  }

  // ----- Grouping -----

  /** `GroupRelatedRequests` joins two requests with the same category and priority, or the same street address. */
  predicate ShouldGroup(existing: ServiceRequest, newRequest: ServiceRequest)
    reads existing, newRequest
  {
    (existing.Category == newRequest.Category && existing.Priority == newRequest.Priority)
    || SameStreet(existing, newRequest)
  }

  /** Which of `requests` the new request should be grouped with, position by position. */
  function GroupFlags(requests: seq<ServiceRequest>, newRequest: ServiceRequest): (flags: seq<bool>)
    reads newRequest, set r | r in requests
    ensures |flags| == |requests|
    ensures forall k :: 0 <= k < |requests| ==> flags[k] == ShouldGroup(requests[k], newRequest)
    decreases |requests|
  {
    if requests == [] then []
    else
      var n := |requests| - 1;
      GroupFlags(requests[..n], newRequest) + [ShouldGroup(requests[n], newRequest)]
  }

  /**
   * The representatives, before grouping, of the sets the new request at
   * `newIndex` is merged with by the first `n` positions: its own, and that
   * of every earlier position it should be grouped with.
   */
  ghost function MergedRoots(roots0: seq<int>, flags: seq<bool>, newIndex: nat, n: nat): set<int>
    requires newIndex < |roots0| && n <= |flags| && n <= |roots0|
  {
    {roots0[newIndex]} + set k | 0 <= k < n && flags[k] :: roots0[k]
  }

  /**
   * The state of the grouping loop: every set whose representative before
   * grouping is in `G` has been merged into the set of `n`, and every other
   * index keeps its representative.
   */
  ghost predicate MergedInto(roots0: seq<int>, roots: seq<int>, G: set<int>, n: nat)
    requires |roots0| == |roots| && n < |roots|
  {
    && roots0[n] in G && roots[n] in G
    && forall z :: 0 <= z < |roots0| ==> roots[z] == if roots0[z] in G then roots[n] else roots0[z]
  }

  /** One `Union(i, n)` step of the grouping loop adds the set of `i` to the merged sets. */
  lemma MergeStep(roots0: seq<int>, before: seq<int>, after: seq<int>, G: set<int>, i: nat, n: nat)
    requires |roots0| == |before| == |after| && i < |roots0| && n < |roots0|
    requires MergedInto(roots0, before, G, n)
    requires UnitedRoots(before, after, i, n)
    ensures MergedInto(roots0, after, G + {roots0[i]}, n)
  {
    forall z | 0 <= z < |roots0|
      ensures after[z] == if roots0[z] in G + {roots0[i]} then after[n] else roots0[z]
    {
      if roots0[z] !in G && roots0[z] != roots0[i] {
        assert before[z] == roots0[z];
        assert before[z] != before[n];
        if roots0[i] in G {
          assert before[z] != before[i];
        } else {
          assert before[i] == roots0[i];
        }
      }
    }
  }

  /** The requests among `requests` whose representative in `roots` is `root`, in list order. */
  function SameRootMembers(requests: seq<ServiceRequest>, roots: seq<int>, root: int): seq<ServiceRequest>
    requires |requests| <= |roots|
    decreases |requests|
  {
    if requests == [] then []
    else
      var n := |requests| - 1;
      SameRootMembers(requests[..n], roots, root) + (if roots[n] == root then [requests[n]] else [])
  }

  /** A request is listed exactly when it sits at a position whose representative is `root`. */
  lemma {:induction false} SameRootMembersMeaning(requests: seq<ServiceRequest>, roots: seq<int>, root: int)
    requires |requests| <= |roots|
    ensures forall x :: x in SameRootMembers(requests, roots, root) ==>
      exists i :: 0 <= i < |requests| && requests[i] == x && roots[i] == root
    ensures forall i :: 0 <= i < |requests| && roots[i] == root ==> requests[i] in SameRootMembers(requests, roots, root)
    decreases |requests|
  {
    if requests != [] {
      var n := |requests| - 1;
      var init := requests[..n];
      SameRootMembersMeaning(init, roots, root);
      assert forall i :: 0 <= i < n ==> init[i] == requests[i];
    }
  }

  // ----- The category tree -----

  function Leaf(name: string): TreeNode<string>
  {
    TreeNode(name, [])
  }

  /**
   * `InitializeCategoryTree`: "Municipal Services" over four main categories
   * with three subcategories each. The source attaches each main category
   * before filling it in; a node is a value here, so each is filled in first.
   */
  function InitializeCategoryTree(): TreeNode<string>
  {
    var infrastructure := AddChild(AddChild(AddChild(Leaf("Infrastructure"), Leaf("Roads")), Leaf("Bridges")), Leaf("Sidewalks"));
    var utilities := AddChild(AddChild(AddChild(Leaf("Utilities"), Leaf("Water")), Leaf("Electricity")), Leaf("Streetlights"));
    var publicSafety := AddChild(AddChild(AddChild(Leaf("Public Safety"), Leaf("Traffic Signals")), Leaf("Street Signs")), Leaf("Hazards"));
    var environment := AddChild(AddChild(AddChild(Leaf("Environment"), Leaf("Parks")), Leaf("Waste Management")), Leaf("Pollution"));
    AddChild(AddChild(AddChild(AddChild(Leaf("Municipal Services"), infrastructure), utilities), publicSafety), environment)
  }

  /** Every category name, in the pre-order the tree is walked in. */
  const CategoryNames: seq<string> :=
    ["Municipal Services"]
    + (["Infrastructure", "Roads", "Bridges", "Sidewalks"]
       + ["Utilities", "Water", "Electricity", "Streetlights"]
       + ["Public Safety", "Traffic Signals", "Street Signs", "Hazards"]
       + ["Environment", "Parks", "Waste Management", "Pollution"])

  /** A main category over its three subcategories, as a value. */
  function MainNode(name: string, a: string, b: string, c: string): TreeNode<string>
  {
    TreeNode(name, [Leaf(a), Leaf(b), Leaf(c)])
  }

  lemma AddThree<T>(t: TreeNode<T>, a: TreeNode<T>, b: TreeNode<T>, c: TreeNode<T>)
    requires t.Children == []
    ensures AddChild(AddChild(AddChild(t, a), b), c) == TreeNode(t.Data, [a, b, c])
  {
  }

  lemma AddFour<T>(t: TreeNode<T>, a: TreeNode<T>, b: TreeNode<T>, c: TreeNode<T>, d: TreeNode<T>)
    requires t.Children == []
    ensures AddChild(AddChild(AddChild(AddChild(t, a), b), c), d) == TreeNode(t.Data, [a, b, c, d])
  {
  }

  lemma LeafWalk(name: string)
    ensures PreOrder(Leaf(name)) == [name] && GetHeightRecursive(Leaf(name)) == 1
  {
    assert PreOrderForest(Leaf(name).Children) == [];
  }

  lemma Forest3<T>(x: TreeNode<T>, y: TreeNode<T>, z: TreeNode<T>)
    ensures PreOrderForest([x, y, z]) == PreOrder(x) + PreOrder(y) + PreOrder(z)
  {
    assert [z][1..] == [];
    assert PreOrderForest([z]) == PreOrder(z);
    assert [y, z][1..] == [z];
    assert PreOrderForest([y, z]) == PreOrder(y) + PreOrder(z);
    assert [x, y, z][1..] == [y, z];
    assert PreOrderForest([x, y, z]) == PreOrder(x) + (PreOrder(y) + PreOrder(z));
  }

  lemma Forest4<T>(w: TreeNode<T>, x: TreeNode<T>, y: TreeNode<T>, z: TreeNode<T>)
    ensures PreOrderForest([w, x, y, z]) == PreOrder(w) + PreOrder(x) + PreOrder(y) + PreOrder(z)
  {
    assert [w, x, y, z][1..] == [x, y, z];
    Forest3(x, y, z);
    assert PreOrderForest([w, x, y, z]) == PreOrder(w) + (PreOrder(x) + PreOrder(y) + PreOrder(z));
  }

  /** A main category with its three subcategories: four names in pre-order, two levels. */
  lemma MainCategory(name: string, a: string, b: string, c: string)
    ensures AddChild(AddChild(AddChild(Leaf(name), Leaf(a)), Leaf(b)), Leaf(c)) == MainNode(name, a, b, c)
    ensures PreOrder(MainNode(name, a, b, c)) == [name, a, b, c]
    ensures GetHeightRecursive(MainNode(name, a, b, c)) == 2
  {
    var cs := [Leaf(a), Leaf(b), Leaf(c)];
    AddThree(Leaf(name), Leaf(a), Leaf(b), Leaf(c));
    LeafWalk(a);
    LeafWalk(b);
    LeafWalk(c);
    Forest3(Leaf(a), Leaf(b), Leaf(c));
    assert GetHeightRecursive(cs[0]) == 1;
    assert MaxHeight(cs) == 1;
  }

  /** The tree `InitializeCategoryTree` builds, written as a value. */
  lemma CategoryTreeBuilt()
    ensures InitializeCategoryTree() == TreeNode("Municipal Services", [
      MainNode("Infrastructure", "Roads", "Bridges", "Sidewalks"),
      MainNode("Utilities", "Water", "Electricity", "Streetlights"),
      MainNode("Public Safety", "Traffic Signals", "Street Signs", "Hazards"),
      MainNode("Environment", "Parks", "Waste Management", "Pollution")])
  {
    var i := MainNode("Infrastructure", "Roads", "Bridges", "Sidewalks");
    var u := MainNode("Utilities", "Water", "Electricity", "Streetlights");
    var p := MainNode("Public Safety", "Traffic Signals", "Street Signs", "Hazards");
    var e := MainNode("Environment", "Parks", "Waste Management", "Pollution");
    MainCategory("Infrastructure", "Roads", "Bridges", "Sidewalks");
    MainCategory("Utilities", "Water", "Electricity", "Streetlights");
    MainCategory("Public Safety", "Traffic Signals", "Street Signs", "Hazards");
    MainCategory("Environment", "Parks", "Waste Management", "Pollution");
    AddFour(Leaf("Municipal Services"), i, u, p, e);
  }

  lemma MainCategoriesWalk()
    ensures PreOrderForest([
      MainNode("Infrastructure", "Roads", "Bridges", "Sidewalks"),
      MainNode("Utilities", "Water", "Electricity", "Streetlights"),
      MainNode("Public Safety", "Traffic Signals", "Street Signs", "Hazards"),
      MainNode("Environment", "Parks", "Waste Management", "Pollution")]) ==
      ["Infrastructure", "Roads", "Bridges", "Sidewalks"]
      + ["Utilities", "Water", "Electricity", "Streetlights"]
      + ["Public Safety", "Traffic Signals", "Street Signs", "Hazards"]
      + ["Environment", "Parks", "Waste Management", "Pollution"]
  {
    MainCategory("Infrastructure", "Roads", "Bridges", "Sidewalks");
    MainCategory("Utilities", "Water", "Electricity", "Streetlights");
    MainCategory("Public Safety", "Traffic Signals", "Street Signs", "Hazards");
    MainCategory("Environment", "Parks", "Waste Management", "Pollution");
    Forest4(
      MainNode("Infrastructure", "Roads", "Bridges", "Sidewalks"),
      MainNode("Utilities", "Water", "Electricity", "Streetlights"),
      MainNode("Public Safety", "Traffic Signals", "Street Signs", "Hazards"),
      MainNode("Environment", "Parks", "Waste Management", "Pollution"));
  }

  /** The built tree lists the seventeen categories in pre-order. */
  lemma CategoryTreeWalk()
    ensures PreOrder(InitializeCategoryTree()) == CategoryNames
  {
    CategoryTreeBuilt();
    MainCategoriesWalk();
    var t := InitializeCategoryTree();
    assert PreOrder(t) == [t.Data] + PreOrderForest(t.Children);
  }

  /** The built tree has seventeen nodes. */
  lemma CategoryTreeSize()
    ensures Size(InitializeCategoryTree()) == 17
  {
    CategoryTreeWalk();
    PreOrderLength(InitializeCategoryTree());
  }

  /** The built tree is three levels high: the root, the main categories, the subcategories. */
  lemma CategoryTreeHeight()
    ensures GetHeightRecursive(InitializeCategoryTree()) == 3
  {
    var i := MainNode("Infrastructure", "Roads", "Bridges", "Sidewalks");
    var u := MainNode("Utilities", "Water", "Electricity", "Streetlights");
    var p := MainNode("Public Safety", "Traffic Signals", "Street Signs", "Hazards");
    var e := MainNode("Environment", "Parks", "Waste Management", "Pollution");
    CategoryTreeBuilt();
    MainCategory("Infrastructure", "Roads", "Bridges", "Sidewalks");
    MainCategory("Utilities", "Water", "Electricity", "Streetlights");
    MainCategory("Public Safety", "Traffic Signals", "Street Signs", "Hazards");
    MainCategory("Environment", "Parks", "Waste Management", "Pollution");
    var cs := [i, u, p, e];
    assert GetHeightRecursive(cs[0]) == 2;
    assert MaxHeight(cs) == 2;
  }

  // ----- Loop steps of `CreateGraphRelationships` and `GroupRelatedRequests` -----

  /** Adding one request's edges extends the walk by that request. */
  lemma RelationshipEdgesStep(newRequest: ServiceRequest, newIssueId: int, requests: seq<ServiceRequest>, i: nat)
    requires i < |requests|
    ensures RelationshipEdges(newRequest, newIssueId, requests[..i + 1])
      == RelationshipEdges(newRequest, newIssueId, requests[..i]) + EdgesWith(newRequest, newIssueId, requests[i])
  {
    assert requests[..i + 1][..i] == requests[..i];
  }

  /** `RelationshipEdgesStep` at every position of the walk. */
  lemma RelationshipEdgesSteps(newRequest: ServiceRequest, newIssueId: int, requests: seq<ServiceRequest>)
    ensures forall i :: 0 <= i < |requests| ==>
      RelationshipEdges(newRequest, newIssueId, requests[..i + 1])
        == RelationshipEdges(newRequest, newIssueId, requests[..i]) + EdgesWith(newRequest, newIssueId, requests[i])
  {
    forall i | 0 <= i < |requests|
      ensures RelationshipEdges(newRequest, newIssueId, requests[..i + 1])
        == RelationshipEdges(newRequest, newIssueId, requests[..i]) + EdgesWith(newRequest, newIssueId, requests[i])
    {
      RelationshipEdgesStep(newRequest, newIssueId, requests, i);
    }
  }

  /** Adding two edges one after the other is adding the pair. */
  lemma WithEdgesPair(adj: AdjacencyList, es: seq<GraphEdge>, a: GraphEdge, b: GraphEdge)
    ensures WithEdges(adj, es + [a, b]) == WithEdge(WithEdge(WithEdges(adj, es), a.From, a.To, a.Weight), b.From, b.To, b.Weight)
  {
    assert (es + [a, b])[..|es| + 1] == es + [a];
    assert (es + [a])[..|es|] == es;
  }

  /** One more position of the walk adds its representative when it should be grouped. */
  lemma MergedRootsStep(roots0: seq<int>, flags: seq<bool>, newIndex: nat, n: nat)
    requires newIndex < |roots0| && n < |flags| && n < |roots0|
    ensures MergedRoots(roots0, flags, newIndex, n + 1)
      == MergedRoots(roots0, flags, newIndex, n) + (if flags[n] then {roots0[n]} else {})
  {
  }

  // ----- What the indexes hold -----

  /**
   * The search tree holds stored records under their own ids, and every
   * stored id has an entry (the first record inserted with it). `ids` maps
   * each stored record to its numeric id.
   */
  ghost predicate TreeIndexes(items: seq<Item>, ids: map<ServiceRequest, int>)
  {
    && (forall p :: p in items ==> p.1 in ids && ids[p.1] == p.0)
    && (forall r :: r in ids ==> ids[r] in Keys(items))
  }

  /** `issueIdToIndex` sends each stored id to a position holding a record with that id. */
  ghost predicate PositionsIndex(index: map<int, int>, requests: seq<ServiceRequest>, ids: map<ServiceRequest, int>)
  {
    && (forall id :: id in index ==> 0 <= index[id] < |requests| && requests[index[id]] in ids && ids[requests[index[id]]] == id)
    && (forall r :: r in ids ==> ids[r] in index)
  }

  /** The graph has a node for each stored id, holding a stored record with that id. */
  ghost predicate NodesIndex(nodes: map<int, ServiceRequest>, ids: map<ServiceRequest, int>)
  {
    && (forall id :: id in nodes ==> nodes[id] in ids && ids[nodes[id]] == id)
    && (forall r :: r in ids ==> ids[r] in nodes)
  }

  /**
   * The groups stay inside the first `n` positions: a stored position's
   * representative is stored, and every later position is alone.
   */
  ghost predicate GroupsWithin(roots: seq<int>, n: nat)
  {
    && (forall z :: 0 <= z < n && z < |roots| ==> 0 <= roots[z] < n)
    && (forall z :: n <= z < |roots| ==> roots[z] == z)
  }

  /** The records of a list, as a set. */
  function Stored(requests: seq<ServiceRequest>): set<ServiceRequest>
  {
    set r | r in requests
  }

  /** A pair of the tree after an insertion that was not there before is the inserted one. */
  lemma InsertedPair(items: seq<Item>, id: int, request: ServiceRequest, p: Item)
    requires StrictlyIncreasing(items) && p in InsertSorted(items, id, request) && p !in items
    ensures p == (id, request)
  {
    InsertSortedMembers(items, id, request);
  }

  /** Storing a new record under `id` in the tree keeps the tree index. */
  lemma TreeIndexesInsert(items: seq<Item>, ids: map<ServiceRequest, int>, request: ServiceRequest, id: int)
    requires StrictlyIncreasing(items) && TreeIndexes(items, ids) && request !in ids
    ensures TreeIndexes(InsertSorted(items, id, request), ids[request := id])
  {
    InsertSortedMembers(items, id, request);
    var ids' := ids[request := id];
    forall p: Item | p in InsertSorted(items, id, request)
      ensures p.1 in ids' && ids'[p.1] == p.0
    {
      if p in items {
        assert p.1 in ids && p.1 != request;
      } else {
        InsertedPair(items, id, request, p);
      }
    }
  }

  /** Appending a new record and pointing its id at the new position keeps the position index. */
  lemma PositionsIndexAppend(index: map<int, int>, requests: seq<ServiceRequest>, ids: map<ServiceRequest, int>,
                             request: ServiceRequest, id: int)
    requires PositionsIndex(index, requests, ids) && request !in ids
    ensures PositionsIndex(index[id := |requests|], requests + [request], ids[request := id])
  {
    var requests' := requests + [request];
    forall k | k in index && k != id
      ensures requests'[index[k]] == requests[index[k]]
    {
    }
  }

  /** `AddNode` of a new record keeps the node index, whether or not its id was already a node. */
  lemma NodesIndexAdd(nodes: map<int, ServiceRequest>, ids: map<ServiceRequest, int>, request: ServiceRequest, id: int)
    requires NodesIndex(nodes, ids) && request !in ids
    ensures NodesIndex(if id in nodes then nodes else nodes[id := request], ids[request := id])
  {
  }

  /**
   * Grouping the new position `n` with earlier positions keeps the groups
   * inside the first `n + 1` positions.
   */
  lemma GroupsWithinMerged(roots0: seq<int>, roots: seq<int>, flags: seq<bool>, n: nat)
    requires |roots0| == |roots| && n < |roots0| && n <= |flags|
    requires GroupsWithin(roots0, n)
    requires MergedInto(roots0, roots, MergedRoots(roots0, flags, n, n), n)
    ensures GroupsWithin(roots, n + 1)
  {
    var G := MergedRoots(roots0, flags, n, n);
    assert forall g :: g in G ==> 0 <= g <= n;
  }

  /**
   * The list and the indexes agree, stated on their values: the id map covers
   * exactly the stored records, the heap holds stored records, and the tree,
   * the position map, the graph nodes and the groups cover exactly the stored ids.
   */
  ghost predicate Indexed(requests: seq<ServiceRequest>, ids: map<ServiceRequest, int>, heap: seq<ServiceRequest>,
                          items: seq<Item>, index: map<int, int>, nodes: map<int, ServiceRequest>, roots: seq<int>)
  {
    && ids.Keys == Stored(requests)
    && (forall r :: r in heap ==> r in ids)
    && |requests| <= Capacity
    && multiset(heap) <= multiset(requests)
    && TreeIndexes(items, ids)
    && PositionsIndex(index, requests, ids)
    && NodesIndex(nodes, ids)
    && GroupsWithin(roots, |requests|)
  }

  /** Appending a new record with id `id` to the list and storing it in every index keeps them in agreement. */
  lemma IndexedAppend(requests: seq<ServiceRequest>, ids: map<ServiceRequest, int>, heap: seq<ServiceRequest>,
                      items: seq<Item>, index: map<int, int>, nodes: map<int, ServiceRequest>, roots: seq<int>,
                      request: ServiceRequest, id: int, heap': seq<ServiceRequest>)
    requires Indexed(requests, ids, heap, items, index, nodes, roots)
    requires StrictlyIncreasing(items) && request !in requests && |requests| < Capacity
    requires multiset(heap') == multiset(heap) + multiset{request}
    requires |requests| < |roots| && roots[|requests|] == |requests|
    ensures Indexed(requests + [request], ids[request := id], heap', InsertSorted(items, id, request),
                    index[id := |requests|], if id in nodes then nodes else nodes[id := request], roots)
  {
    assert request !in ids;
    TreeIndexesInsert(items, ids, request, id);
    PositionsIndexAppend(index, requests, ids, request, id);
    NodesIndexAdd(nodes, ids, request, id);
    forall r | r in heap'
      ensures r in ids[request := id]
    {
      assert r in multiset(heap');
      if r != request {
        assert r in multiset(heap);
      }
    }
    assert Stored(requests + [request]) == Stored(requests) + {request};
  }

  /** Replacing the heap by one that holds exactly the stored records keeps the agreement. */
  lemma IndexedRebuild(requests: seq<ServiceRequest>, ids: map<ServiceRequest, int>, heap: seq<ServiceRequest>,
                       items: seq<Item>, index: map<int, int>, nodes: map<int, ServiceRequest>, roots: seq<int>,
                       heap': seq<ServiceRequest>)
    requires Indexed(requests, ids, heap, items, index, nodes, roots)
    requires multiset(heap') == multiset(requests)
    ensures Indexed(requests, ids, heap', items, index, nodes, roots)
  {
    forall r | r in heap'
      ensures r in ids
    {
      assert r in multiset(requests);
      assert r in Stored(requests);
    }
  }

  /** Taking records out of the heap keeps the agreement. */
  lemma IndexedShrink(requests: seq<ServiceRequest>, ids: map<ServiceRequest, int>, heap: seq<ServiceRequest>,
                      items: seq<Item>, index: map<int, int>, nodes: map<int, ServiceRequest>, roots: seq<int>,
                      heap': seq<ServiceRequest>)
    requires Indexed(requests, ids, heap, items, index, nodes, roots)
    requires multiset(heap') <= multiset(heap)
    ensures Indexed(requests, ids, heap', items, index, nodes, roots)
  {
    forall r | r in heap'
      ensures r in ids
    {
      assert r in multiset(heap');
      assert r in multiset(heap);
    }
  }

  // ----- Queries -----

  /**
   * The records of a search tree whose pairs agree with the id map: stored
   * records, in strictly increasing id order, one for every stored id.
   */
  lemma SortedRecords(requests: seq<ServiceRequest>, ids: map<ServiceRequest, int>, items: seq<Item>)
    requires StrictlyIncreasing(items) && TreeIndexes(items, ids) && ids.Keys == Stored(requests)
    ensures forall k :: 0 <= k < |DataOf(items)| ==> DataOf(items)[k] in requests && DataOf(items)[k] in ids
    ensures forall i, j :: 0 <= i < j < |DataOf(items)| ==> ids[DataOf(items)[i]] < ids[DataOf(items)[j]]
    ensures forall r :: r in ids ==> exists k :: 0 <= k < |DataOf(items)| && ids[DataOf(items)[k]] == ids[r]
  {
    var sorted := DataOf(items);
    forall k | 0 <= k < |sorted|
      ensures sorted[k] == items[k].1 && sorted[k] in ids && ids[sorted[k]] == items[k].0
      ensures sorted[k] in requests
    {
      DataOfAt(items, k);
      assert items[k] in items;
      assert sorted[k] in Stored(requests);
    }
    forall i, j | 0 <= i < j < |sorted|
      ensures ids[sorted[i]] < ids[sorted[j]]
    {
      assert Below(items[i], items[j]);
    }
    forall r | r in ids
      ensures exists k :: 0 <= k < |sorted| && ids[sorted[k]] == ids[r]
    {
      assert ids[r] in Keys(items);
      var p :| p in items && p.0 == ids[r];
      var k :| 0 <= k < |items| && items[k] == p;
      assert ids[sorted[k]] == ids[r];
    }
  }

  /** `SearchByID` on the tree: the record stored under `issueId`, or null. */
  function RecordOf(root: Tree, issueId: int): (r: ServiceRequest?)
    requires IsSearchTree(root)
    ensures r != null <==> issueId in Keys(Items(root))
    ensures r != null ==> (issueId, r) in Items(root)
  {
    var node := SearchRecursive(root, issueId);
    if node.Node? then node.Data else null
  }

  /** The records `FindRelatedRequests` collects from the ids `ids`, in order. */
  function RelatedOf(root: Tree, ids: seq<int>, issueId: int): seq<ServiceRequest>
    requires IsSearchTree(root)
    decreases |ids|
  {
    if ids == [] then []
    else
      var n := |ids| - 1;
      var r := RecordOf(root, ids[n]);
      RelatedOf(root, ids[..n], issueId) + (if ids[n] != issueId && r != null then [r] else [])
  }

  /** A record is collected exactly when it is stored under an id of `ids` other than `issueId`. */
  lemma {:induction false} RelatedOfMeaning(root: Tree, ids: seq<int>, issueId: int)
    requires IsSearchTree(root)
    ensures forall r :: r in RelatedOf(root, ids, issueId) <==>
      exists id :: id in ids && id != issueId && RecordOf(root, id) == r
    decreases |ids|
  {
    if ids != [] {
      var n := |ids| - 1;
      assert ids == ids[..n] + [ids[n]];
      RelatedOfMeaning(root, ids[..n], issueId);
    }
  }

  /** `GetRequestsByCategory`: the requests whose category equals `category` up to ASCII and Latin-1 case, in list order. */
  function InCategory(requests: seq<ServiceRequest>, category: string): (rs: seq<ServiceRequest>)
    reads set r | r in requests
    ensures |rs| <= |requests|
    ensures forall r :: r in rs ==> r in requests && EqualsIgnoreCase(r.Category, category)
    ensures forall i :: 0 <= i < |requests| && EqualsIgnoreCase(requests[i].Category, category) ==> requests[i] in rs
    decreases |requests|
  {
    if requests == [] then []
    else
      var n := |requests| - 1;
      assert requests == requests[..n] + [requests[n]];
      InCategory(requests[..n], category) + (if EqualsIgnoreCase(requests[n].Category, category) then [requests[n]] else [])
  }

  class RequestManager {
    var Requests: seq<ServiceRequest>
    const RequestBST: ServiceRequestBST
    var RequestHeap: ServiceRequestHeap
    /** Built once by `InitializeCategoryTree` and never changed afterwards. */
    const CategoryTree: TreeNode<string> := InitializeCategoryTree()
    const RequestGraph: ServiceRequestGraph
    const requestGroups: UnionFind
    var issueIdToIndex: map<int, int>
    /** The numeric id of each stored record, as `int.Parse` reads its IssueID. */
    ghost var RecordIds: map<ServiceRequest, int>

    /**
     * The indexes agree with the list: every stored record has an Int32 id;
     * the tree, the id map and the graph nodes cover exactly the stored ids;
     * the heap holds stored records; the groups are over stored positions.
     */
    ghost predicate Valid()
      reads this, RequestBST, RequestHeap, RequestGraph, requestGroups, requestGroups.parent, requestGroups.rank
      reads RequestHeap.heap`Priority
    {
      && RequestBST.Valid() && RequestHeap.Valid() && RequestGraph.Valid() && requestGroups.Valid()
      && requestGroups.parent.Length == Capacity
      && |Requests| <= Capacity
    }

    /** The list and the indexes agree (`Indexed`). */
    ghost predicate Consistent()
      requires Valid()
      reads this, RequestBST, RequestHeap, RequestGraph, requestGroups, requestGroups.parent, requestGroups.rank
      reads RequestHeap.heap`Priority
    {
      Indexed(Requests, RecordIds, RequestHeap.heap, Items(RequestBST.root), issueIdToIndex, RequestGraph.nodes, requestGroups.Roots())
    }

    /** The private constructor behind `Instance`: empty list and indexes, 1000 union-find slots. */
    constructor ()
      ensures Valid() && Consistent()
      ensures fresh(RequestBST) && fresh(RequestHeap) && fresh(RequestGraph) && fresh(requestGroups)
      ensures Requests == [] && issueIdToIndex == map[] && RequestBST.root == Nil && RequestHeap.heap == []
      ensures RequestGraph.nodes == map[] && RequestGraph.adjacencyList == map[]
      ensures forall z :: 0 <= z < Capacity ==> requestGroups.Root(z) == z
    {
      Requests := [];
      RecordIds := map[];
      RequestBST := new ServiceRequestBST();
      RequestHeap := new ServiceRequestHeap();
      RequestGraph := new ServiceRequestGraph();
      issueIdToIndex := map[];
      requestGroups := new UnionFind(Capacity);
    }

    /**
     * `CreateGraphRelationships`: for every stored request with another id
     * text and a numeric id, an edge each way with their relationship weight
     * when it is positive.
     */
    method CreateGraphRelationships(newRequest: ServiceRequest, newIssueId: int)
      requires RequestGraph.Valid()
      modifies RequestGraph
      ensures RequestGraph.Valid() && RequestGraph.nodes == old(RequestGraph.nodes)
      ensures RequestGraph.adjacencyList == WithEdges(old(RequestGraph.adjacencyList), RelationshipEdges(newRequest, newIssueId, Requests))
    {
      ghost var adj0 := RequestGraph.adjacencyList;
      for i := 0 to |Requests|
        invariant RequestGraph.Valid() && RequestGraph.nodes == old(RequestGraph.nodes)
        invariant RequestGraph.adjacencyList == WithEdges(adj0, RelationshipEdges(newRequest, newIssueId, Requests[..i]))
      {
        LinkWith(newRequest, newIssueId, i, adj0);
      }
      assert Requests[..|Requests|] == Requests;
    }

    /**
     * One pass of the loop of `CreateGraphRelationships`: the edges between
     * the new request and the request at position `i` are added after the
     * edges of the positions before it.
     */
    method LinkWith(newRequest: ServiceRequest, newIssueId: int, i: nat, ghost adj0: AdjacencyList)
      requires i < |Requests|
      requires RequestGraph.Valid()
      requires RequestGraph.adjacencyList == WithEdges(adj0, RelationshipEdges(newRequest, newIssueId, Requests[..i]))
      modifies RequestGraph
      ensures RequestGraph.Valid() && RequestGraph.nodes == old(RequestGraph.nodes)
      ensures RequestGraph.adjacencyList == WithEdges(adj0, RelationshipEdges(newRequest, newIssueId, Requests[..i + 1]))
    {
      ghost var es := RelationshipEdges(newRequest, newIssueId, Requests[..i]);
      ghost var added := EdgesWith(newRequest, newIssueId, Requests[i]);
      RelationshipEdgesStep(newRequest, newIssueId, Requests, i);
      var existingRequest := Requests[i];
      if existingRequest.IssueID != newRequest.IssueID {
        var parsed := TryParseInt(existingRequest.IssueID);
        if parsed.Some? {
          var existingId := parsed.value;
          var weight := CalculateRelationshipWeight(newRequest, existingRequest);
          if weight > 0 {
            ghost var there, back := GraphEdge(newIssueId, existingId, weight), GraphEdge(existingId, newIssueId, weight);
            assert added == [there, back];
            WithEdgesPair(adj0, es, there, back);
            LinkBothWays(newIssueId, existingId, weight, newRequest, Requests[..i + 1]);
            assert RelationshipEdges(newRequest, newIssueId, Requests[..i + 1]) == es + [there, back];
            return;
          }
        }
      }
      assert added == [] && es + added == es;
      assert RelationshipEdges(newRequest, newIssueId, Requests[..i + 1]) == es;
    }

    /** The two `AddEdge` calls of one pass; they change the graph only, so the edges of `requests` stay what they were. */
    method LinkBothWays(newIssueId: int, existingId: int, weight: int, ghost newRequest: ServiceRequest, ghost requests: seq<ServiceRequest>)
      requires RequestGraph.Valid()
      modifies RequestGraph
      ensures RequestGraph.Valid() && RequestGraph.nodes == old(RequestGraph.nodes)
      ensures RequestGraph.adjacencyList ==
        WithEdge(WithEdge(old(RequestGraph.adjacencyList), newIssueId, existingId, weight), existingId, newIssueId, weight)
      ensures RelationshipEdges(newRequest, newIssueId, requests) == old(RelationshipEdges(newRequest, newIssueId, requests))
    {
      RequestGraph.AddEdge(newIssueId, existingId, weight);
      RequestGraph.AddEdge(existingId, newIssueId, weight);
    }

    /**
     * `GroupRelatedRequests`: joins the set of `newIndex` with the set of
     * every earlier position whose request has the same category and
     * priority, or the same street address. The sets merged are exactly
     * those whose representative is in `MergedRoots`.
     */
    method GroupRelatedRequests(newRequest: ServiceRequest, newIndex: nat, ghost roots0: seq<int>)
      requires requestGroups.Valid() && requestGroups.parent.Length == Capacity
      requires 0 < |Requests| <= Capacity && newIndex < Capacity
      requires roots0 == requestGroups.Roots()
      modifies requestGroups.parent, requestGroups.rank
      ensures requestGroups.Valid()
      ensures MergedInto(roots0, requestGroups.Roots(), MergedRoots(roots0, GroupFlags(Requests, newRequest), newIndex, |Requests| - 1), newIndex)
    {
      ghost var flags := GroupFlags(Requests, newRequest);
      ghost var G: set<int> := {roots0[newIndex]};
      for i := 0 to |Requests| - 1
        invariant requestGroups.Valid()
        invariant G == MergedRoots(roots0, flags, newIndex, i)
        invariant MergedInto(roots0, requestGroups.Roots(), G, newIndex)
      {
        MergedRootsStep(roots0, flags, newIndex, i);
        ghost var G' := G + (if flags[i] then {roots0[i]} else {});
        var existingRequest := Requests[i];
        assert flags[i] == ShouldGroup(existingRequest, newRequest);
        if existingRequest.Category == newRequest.Category && existingRequest.Priority == newRequest.Priority {
          ghost var before := requestGroups.Roots();
          requestGroups.Union(i, newIndex);
          MergeStep(roots0, before, requestGroups.Roots(), G, i, newIndex);
          G := G + {roots0[i]};
        }
        if !IsNullOrEmpty(existingRequest.StreetAddress) && !IsNullOrEmpty(newRequest.StreetAddress)
          && EqualsIgnoreCase(existingRequest.StreetAddress, newRequest.StreetAddress) {
          ghost var before := requestGroups.Roots();
          requestGroups.Union(i, newIndex);
          MergeStep(roots0, before, requestGroups.Roots(), G, i, newIndex);
          G := G + {roots0[i]};
        }
        assert G == G';
      }
    }

    /**
     * Steps 2 to 4 of `AddRequest`: the record goes into the search tree
     * under its id, into the heap, and into the graph as a node.
     */
    method StoreInIndexes(request: ServiceRequest, issueId: int)
      requires RequestBST.Valid() && RequestGraph.Valid()
      requires TryParseInt(request.IssueID) == Some(issueId)
      modifies RequestBST, RequestGraph
      ensures RequestBST.Valid() && RequestGraph.Valid()
      ensures Items(RequestBST.root) == InsertSorted(old(Items(RequestBST.root)), issueId, request)
      ensures RequestGraph.nodes == if issueId in old(RequestGraph.nodes) then old(RequestGraph.nodes) else old(RequestGraph.nodes)[issueId := request]
      ensures RequestGraph.adjacencyList ==
        if issueId in old(RequestGraph.nodes) then old(RequestGraph.adjacencyList) else old(RequestGraph.adjacencyList)[issueId := []]
    {
      var inserted := RequestBST.Insert(request);
      RequestGraph.AddNode(issueId, request);
    }

    /**
     * Steps 1 to 5 of `AddRequest` once the id is parsed: the record goes
     * into the list, the search tree, the heap and the graph, and the id
     * points at its list position. The new position is a group of its own.
     */
    method AppendRecord(request: ServiceRequest, issueId: int)
      requires Valid() && |Requests| < Capacity && request !in Requests
      requires TryParseInt(request.IssueID) == Some(issueId)
      modifies this, RequestBST, RequestGraph
      ensures Valid()
      ensures RequestHeap == old(RequestHeap)
      ensures Requests == old(Requests) + [request]
      ensures RecordIds == old(RecordIds)[request := issueId]
      ensures Items(RequestBST.root) == InsertSorted(old(Items(RequestBST.root)), issueId, request)
      ensures issueIdToIndex == old(issueIdToIndex)[issueId := |old(Requests)|]
      ensures RequestGraph.nodes ==
        if issueId in old(RequestGraph.nodes) then old(RequestGraph.nodes) else old(RequestGraph.nodes)[issueId := request]
      ensures RequestGraph.adjacencyList ==
        if issueId in old(RequestGraph.nodes) then old(RequestGraph.adjacencyList) else old(RequestGraph.adjacencyList)[issueId := []]
    {
      StoreInIndexes(request, issueId);
      Requests, RecordIds, issueIdToIndex := Requests + [request], RecordIds[request := issueId], issueIdToIndex[issueId := |Requests|];
    }

    /** The steps of `AddParsed` before the heap insert: store, link, group. */
    method RecordAndRelate(request: ServiceRequest, issueId: int)
      requires Valid() && |Requests| < Capacity && request !in Requests
      requires TryParseInt(request.IssueID) == Some(issueId)
      modifies this, RequestBST, RequestGraph, requestGroups.parent, requestGroups.rank
      ensures Valid() && RequestHeap == old(RequestHeap)
      ensures Requests == old(Requests) + [request]
      ensures RecordIds == old(RecordIds)[request := issueId]
      ensures Items(RequestBST.root) == InsertSorted(old(Items(RequestBST.root)), issueId, request)
      ensures issueIdToIndex == old(issueIdToIndex)[issueId := |old(Requests)|]
      ensures RequestGraph.nodes ==
        if issueId in old(RequestGraph.nodes) then old(RequestGraph.nodes) else old(RequestGraph.nodes)[issueId := request]
      ensures RequestGraph.adjacencyList ==
        WithEdges(if issueId in old(RequestGraph.nodes) then old(RequestGraph.adjacencyList) else old(RequestGraph.adjacencyList)[issueId := []],
                  RelationshipEdges(request, issueId, Requests))
      ensures MergedInto(old(requestGroups.Roots()), requestGroups.Roots(),
        MergedRoots(old(requestGroups.Roots()), GroupFlags(Requests, request), |old(Requests)|, |old(Requests)|), |old(Requests)|)
    {
      ghost var roots0 := requestGroups.Roots();
      AppendRecord(request, issueId);
      assert requestGroups.Roots() == roots0;
      Relate(request, issueId, |Requests| - 1);
    }

    /** The graph and grouping steps of `AddParsed`, for the record just appended at `newIndex`. */
    method Relate(request: ServiceRequest, issueId: int, newIndex: nat)
      requires Valid() && 0 < |Requests| && newIndex < Capacity
      modifies RequestGraph, requestGroups.parent, requestGroups.rank
      ensures Valid()
      ensures RequestGraph.nodes == old(RequestGraph.nodes)
      ensures RequestGraph.adjacencyList == WithEdges(old(RequestGraph.adjacencyList), RelationshipEdges(request, issueId, Requests))
      ensures MergedInto(old(requestGroups.Roots()), requestGroups.Roots(),
        MergedRoots(old(requestGroups.Roots()), GroupFlags(Requests, request), newIndex, |Requests| - 1), newIndex)
    {
      ghost var roots0 := requestGroups.Roots();
      CreateGraphRelationships(request, issueId);
      GroupKeepingEdges(request, issueId, newIndex, roots0);
    }

    /** `GroupRelatedRequests` changes only the groups, so the edges stay what they were. */
    method GroupKeepingEdges(request: ServiceRequest, issueId: int, newIndex: nat, ghost roots0: seq<int>)
      requires requestGroups.Valid() && requestGroups.parent.Length == Capacity
      requires 0 < |Requests| <= Capacity && newIndex < Capacity
      requires roots0 == requestGroups.Roots()
      modifies requestGroups.parent, requestGroups.rank
      ensures requestGroups.Valid()
      ensures MergedInto(roots0, requestGroups.Roots(), MergedRoots(roots0, GroupFlags(Requests, request), newIndex, |Requests| - 1), newIndex)
      ensures RelationshipEdges(request, issueId, Requests) == old(RelationshipEdges(request, issueId, Requests))
    {
      GroupRelatedRequests(request, newIndex, roots0);
    }

    /**
     * `AddRequest` once the id is parsed: the record is appended and
     * indexed, then linked and grouped with the requests before it.
     */
    method AddParsed(request: ServiceRequest, issueId: int)
      requires Valid() && |Requests| < Capacity && request !in Requests
      requires TryParseInt(request.IssueID) == Some(issueId)
      requires Consistent()
      modifies this, RequestBST, RequestHeap, RequestGraph, requestGroups.parent, requestGroups.rank
      ensures Valid() && Consistent()
      ensures RequestHeap == old(RequestHeap)
      ensures Requests == old(Requests) + [request]
      ensures RecordIds == old(RecordIds)[request := issueId]
      ensures Items(RequestBST.root) == InsertSorted(old(Items(RequestBST.root)), issueId, request)
      ensures multiset(RequestHeap.heap) == multiset(old(RequestHeap.heap)) + multiset{request}
      ensures issueIdToIndex == old(issueIdToIndex)[issueId := |old(Requests)|]
      ensures RequestGraph.nodes ==
        if issueId in old(RequestGraph.nodes) then old(RequestGraph.nodes) else old(RequestGraph.nodes)[issueId := request]
      ensures RequestGraph.adjacencyList ==
        WithEdges(if issueId in old(RequestGraph.nodes) then old(RequestGraph.adjacencyList) else old(RequestGraph.adjacencyList)[issueId := []],
                  RelationshipEdges(request, issueId, Requests))
      ensures MergedInto(old(requestGroups.Roots()), requestGroups.Roots(),
        MergedRoots(old(requestGroups.Roots()), GroupFlags(Requests, request), |old(Requests)|, |old(Requests)|), |old(Requests)|)
    {
      ghost var requests0, ids0, heap0, items0 := Requests, RecordIds, RequestHeap.heap, Items(RequestBST.root);
      ghost var index0, nodes0, roots0 := issueIdToIndex, RequestGraph.nodes, requestGroups.Roots();
      RequestHeap.Insert(request);
      RecordAndRelate(request, issueId);
      IndexedAppend(requests0, ids0, heap0, items0, index0, nodes0, roots0, request, issueId, RequestHeap.heap);
      GroupsWithinMerged(roots0, requestGroups.Roots(), GroupFlags(Requests, request), |requests0|);
    }

    /**
     * `AddRequest`: a request without an IssueID gets the text of the new
     * list length; the id text must be an Int32 numeral (`int.Parse`
     * throws otherwise, before anything changes); then `AddParsed`.
     */
    method AddRequest(request: ServiceRequest) returns (ok: bool)
      requires Valid() && Consistent() && |Requests| < Capacity && request !in Requests
      modifies this, request`IssueID, RequestBST, RequestHeap, RequestGraph, requestGroups.parent, requestGroups.rank
      ensures Valid() && Consistent()
      ensures RequestHeap == old(RequestHeap)
      ensures request.IssueID == if old(request.IssueID) == "" then NatToString(|old(Requests)| + 1) else old(request.IssueID)
      ensures ok <==> TryParseInt(request.IssueID).Some?
      ensures old(request.IssueID) == "" ==> ok
      ensures !ok ==> Requests == old(Requests) && RecordIds == old(RecordIds) && issueIdToIndex == old(issueIdToIndex)
      ensures !ok ==> unchanged(RequestBST, RequestHeap, RequestGraph, requestGroups.parent, requestGroups.rank)
      ensures ok ==> Requests == old(Requests) + [request]
      ensures ok ==> RecordIds == old(RecordIds)[request := TryParseInt(request.IssueID).value]
      ensures ok ==> Items(RequestBST.root) == InsertSorted(old(Items(RequestBST.root)), TryParseInt(request.IssueID).value, request)
      ensures ok ==> multiset(RequestHeap.heap) == multiset(old(RequestHeap.heap)) + multiset{request}
      ensures ok ==> issueIdToIndex == old(issueIdToIndex)[TryParseInt(request.IssueID).value := |old(Requests)|]
      ensures ok ==> RequestGraph.nodes == (var id := TryParseInt(request.IssueID).value;
        if id in old(RequestGraph.nodes) then old(RequestGraph.nodes) else old(RequestGraph.nodes)[id := request])
      ensures ok ==> RequestGraph.adjacencyList == (var id := TryParseInt(request.IssueID).value;
        WithEdges(if id in old(RequestGraph.nodes) then old(RequestGraph.adjacencyList) else old(RequestGraph.adjacencyList)[id := []],
                  RelationshipEdges(request, id, Requests)))
      ensures ok ==> MergedInto(old(requestGroups.Roots()), requestGroups.Roots(),
        MergedRoots(old(requestGroups.Roots()), GroupFlags(Requests, request), |old(Requests)|, |old(Requests)|), |old(Requests)|)
    {
      ghost var defaulted := IsNullOrEmpty(request.IssueID);
      if IsNullOrEmpty(request.IssueID) {
        request.IssueID := NatToString(|Requests| + 1);
      }
      var parsed := TryParseInt(request.IssueID);
      if parsed.None? {
        if defaulted {
          ParseNatToString(|Requests| + 1);
          assert false;
        }
        return false;
      }
      AddParsed(request, parsed.value);
      ok := true;
    }

    /** `SearchByID`: the record the search tree holds under `issueId`, or null. */
    function SearchByID(issueId: int): (r: ServiceRequest?)
      requires RequestBST.Valid()
      reads RequestBST
      ensures r != null <==> issueId in Keys(Items(RequestBST.root))
      ensures r != null ==> (issueId, r) in Items(RequestBST.root)
    {
      RecordOf(RequestBST.root, issueId)
    }

    /**
     * With the list and the indexes in agreement, `SearchByID` finds a stored
     * record filed under `issueId` exactly when the list has one.
     */
    lemma SearchByIDStored(issueId: int)
      requires Valid() && Consistent()
      ensures SearchByID(issueId) != null ==>
                SearchByID(issueId) in Requests && RecordIds[SearchByID(issueId)] == issueId
      ensures SearchByID(issueId) == null <==> forall r :: r in RecordIds ==> RecordIds[r] != issueId
    {
      var items := Items(RequestBST.root);
      var r := SearchByID(issueId);
      if r != null {
        assert r in Stored(Requests);
      } else {
        forall s | s in RecordIds
          ensures RecordIds[s] != issueId
        {
          assert RecordIds[s] in Keys(items);
        }
      }
    }

    /**
     * `GetRequestsSortedByID`: the tree's in-order walk; the records are
     * stored ones, their ids strictly increase, and every stored id is there.
     */
    method GetRequestsSortedByID() returns (sorted: seq<ServiceRequest>)
      requires Valid() && Consistent()
      ensures forall k :: 0 <= k < |sorted| ==> sorted[k] in Requests && sorted[k] in RecordIds
      ensures forall i, j :: 0 <= i < j < |sorted| ==> RecordIds[sorted[i]] < RecordIds[sorted[j]]
      ensures forall r :: r in RecordIds ==> exists k :: 0 <= k < |sorted| && RecordIds[sorted[k]] == RecordIds[r]
    {
      sorted := RequestBST.InOrderTraversal();
      SortedRecords(Requests, RecordIds, Items(RequestBST.root));
    }

    /**
     * `GetHighestPriorityRequest`: takes the root out of the heap; null when
     * the heap is empty, otherwise a stored record of the highest priority.
     */
    method GetHighestPriorityRequest() returns (max: ServiceRequest?)
      requires Valid() && Consistent()
      modifies RequestHeap
      ensures Valid() && Consistent()
      ensures old(RequestHeap.heap) == [] ==> max == null && RequestHeap.heap == []
      ensures old(RequestHeap.heap) != [] ==>
                max != null && max in Requests
                && multiset(RequestHeap.heap) + multiset{max} == multiset(old(RequestHeap.heap))
                && forall r :: r in old(RequestHeap.heap) ==> Prio(r) <= Prio(max)
    {
      ghost var heap0, items0, roots0 := RequestHeap.heap, Items(RequestBST.root), requestGroups.Roots();
      max := RequestHeap.ExtractMax();
      IndexedShrink(Requests, RecordIds, heap0, items0, issueIdToIndex, RequestGraph.nodes, roots0, RequestHeap.heap);
      if max != null {
        assert max in Stored(Requests);
      }
    }

    /** `GetAllCategories`: the category tree's pre-order walk. */
    method GetAllCategories() returns (categories: seq<string>)
      ensures categories == CategoryNames
    {
      categories := Traverse(CategoryTree);
      CategoryTreeWalk();
    }

    /** `CategoryExists`: whether some node of the category tree holds `category`. */
    function CategoryExists(category: string): (b: bool)
      ensures b <==> category in CategoryNames
    {
      CategoryTreeWalk();
      FindRecursive(CategoryTree, category).Some?
    }

    /** `GetCategoryTreeHeight`: the root, the main categories and the subcategories. */
    function GetCategoryTreeHeight(): (h: nat)
      ensures h == 3
    {
      CategoryTreeHeight();
      GetHeightRecursive(CategoryTree)
    }

    /**
     * `FindRelatedRequests`: the records of the ids the breadth-first search
     * from `issueId` reaches, other than `issueId` itself, in visiting order.
     */
    method FindRelatedRequests(issueId: int) returns (related: seq<ServiceRequest>)
      requires Valid() && Consistent()
      ensures forall r :: r in related <==>
                exists id :: Reachable(RequestGraph.adjacencyList, issueId, id) && id != issueId && SearchByID(id) == r
      ensures forall r :: r in related ==> r in Requests && RecordIds[r] != issueId
    {
      var relatedIds := RequestGraph.BreadthFirstSearch(issueId);
      related := [];
      for i := 0 to |relatedIds|
        invariant related == RelatedOf(RequestBST.root, relatedIds[..i], issueId)
      {
        assert relatedIds[..i + 1][..i] == relatedIds[..i];
        if relatedIds[i] != issueId {
          var request := SearchByID(relatedIds[i]);
          if request != null {
            related := related + [request];
          }
        }
      }
      assert relatedIds[..|relatedIds|] == relatedIds;
      RelatedOfMeaning(RequestBST.root, relatedIds, issueId);
      forall r | r in related
        ensures r in Requests && RecordIds[r] != issueId
      {
        var id :| id in relatedIds && id != issueId && RecordOf(RequestBST.root, id) == r;
        assert (id, r) in Items(RequestBST.root);
        assert r in Stored(Requests);
      }
    }

    /**
     * `GetGroupedRequests`: nothing for an unknown id; otherwise, in list
     * order, the requests in the same union-find set as the request filed
     * under `issueId`, that request included. `Find` compresses paths, which
     * changes no representative.
     */
    method GetGroupedRequests(issueId: int) returns (grouped: seq<ServiceRequest>)
      requires Valid() && Consistent()
      modifies requestGroups.parent
      ensures Valid() && Consistent()
      ensures requestGroups.Roots() == old(requestGroups.Roots())
      ensures issueId !in issueIdToIndex ==> grouped == []
      ensures issueId in issueIdToIndex ==>
                issueIdToIndex[issueId] < |Requests|
                && grouped == SameRootMembers(Requests, requestGroups.Roots(), requestGroups.Root(issueIdToIndex[issueId]))
                && Requests[issueIdToIndex[issueId]] in grouped
    {
      grouped := [];
      if issueId in issueIdToIndex {
        var requestIndex := issueIdToIndex[issueId];
        ghost var roots0 := requestGroups.Roots();
        var groupRoot := FindRoot(requestIndex);
        grouped := CollectGroup(groupRoot, roots0);
        SameRootMembersMeaning(Requests, roots0, groupRoot);
      }
    }

    /**
     * `requestGroups.Find(i)` as the manager calls it: the representative of
     * position `i`. Path compression changes no representative, so the list
     * and the indexes still agree.
     */
    method FindRoot(i: nat) returns (root: int)
      requires Valid() && Consistent() && i < Capacity
      modifies requestGroups.parent
      ensures Valid() && Consistent()
      ensures requestGroups.Roots() == old(requestGroups.Roots())
      ensures root == requestGroups.Roots()[i]
    {
      root := requestGroups.Find(i);
    }

    /** The loop of `GetGroupedRequests`: the requests whose `Find` is `groupRoot`, in list order. */
    method CollectGroup(groupRoot: int, ghost roots0: seq<int>) returns (grouped: seq<ServiceRequest>)
      requires Valid() && Consistent() && requestGroups.Roots() == roots0
      modifies requestGroups.parent
      ensures Valid() && Consistent() && requestGroups.Roots() == roots0
      ensures grouped == SameRootMembers(Requests, roots0, groupRoot)
    {
      grouped := [];
      for i := 0 to |Requests|
        invariant Valid() && Consistent() && requestGroups.Roots() == roots0
        invariant grouped == SameRootMembers(Requests[..i], roots0, groupRoot)
      {
        grouped := CollectStep(groupRoot, roots0, i, grouped);
      }
      assert Requests[..|Requests|] == Requests;
    }

    /** One pass of the loop of `CollectGroup`: the request at `i` is kept when its `Find` is `groupRoot`. */
    method CollectStep(groupRoot: int, ghost roots0: seq<int>, i: nat, grouped0: seq<ServiceRequest>) returns (grouped: seq<ServiceRequest>)
      requires Valid() && Consistent() && requestGroups.Roots() == roots0 && i < |Requests|
      requires grouped0 == SameRootMembers(Requests[..i], roots0, groupRoot)
      modifies requestGroups.parent
      ensures Valid() && Consistent() && requestGroups.Roots() == roots0
      ensures grouped == SameRootMembers(Requests[..i + 1], roots0, groupRoot)
    {
      assert Requests[..i + 1][..i] == Requests[..i];
      var root := FindRoot(i);
      grouped := grouped0;
      if root == groupRoot {
        grouped := grouped + [Requests[i]];
      }
    }

    /**
     * `UpdateRequest`: sets the status and the priority of `request`, then
     * builds a new heap by inserting every stored request in list order.
     */
    method UpdateRequest(request: ServiceRequest, newStatus: string, newPriority: string)
      requires Valid() && Consistent()
      modifies this, request`Status, request`Priority
      ensures Valid() && Consistent()
      ensures request.Status == newStatus && request.Priority == newPriority
      ensures Requests == old(Requests) && RecordIds == old(RecordIds) && issueIdToIndex == old(issueIdToIndex)
      ensures fresh(RequestHeap) && multiset(RequestHeap.heap) == multiset(Requests)
      ensures RequestHeap.Count() == |Requests|
    {
      ghost var heap0, items0, roots0 := RequestHeap.heap, Items(RequestBST.root), requestGroups.Roots();
      request.Status := newStatus;
      request.Priority := newPriority;
      var rebuilt := new ServiceRequestHeap();
      for i := 0 to |Requests|
        invariant rebuilt.Valid() && multiset(rebuilt.heap) == multiset(Requests[..i])
        modifies rebuilt
      {
        assert Requests[..i + 1] == Requests[..i] + [Requests[i]];
        rebuilt.Insert(Requests[i]);
      }
      assert Requests[..|Requests|] == Requests;
      IndexedRebuild(Requests, RecordIds, heap0, items0, issueIdToIndex, RequestGraph.nodes, roots0, rebuilt.heap);
      RequestHeap := rebuilt;
      assert |multiset(RequestHeap.heap)| == |multiset(Requests)|;
    }
  }
}
