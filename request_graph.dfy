/**
 * The adjacency-list graph over request ids (`ServiceRequestGraph` and
 * `GraphEdge` in DataStructures.cs), with breadth-first and depth-first
 * search. What the searches find is stated through `Reachable`: the ids at
 * the end of a path of edges from the start.
 */
module RequestGraphs {
  import opened ServiceRequests

  /** `GraphEdge`: built once and never changed, so a value. */
  datatype GraphEdge = GraphEdge(From: int, To: int, Weight: int)

  type AdjacencyList = map<int, seq<GraphEdge>>

  function Elems(s: seq<int>): set<int>
  {
    set x | x in s
  }

  /** No id occurs twice: each entry is absent from the entries before it. */
  predicate Distinct(s: seq<int>)
    decreases |s|
  {
    |s| > 0 ==> s[|s| - 1] !in s[..|s| - 1] && Distinct(s[..|s| - 1])
  }

  lemma {:induction false} DistinctMeans(s: seq<int>)
    ensures Distinct(s) <==> forall i, j :: 0 <= i < j < |s| ==> s[i] != s[j]
    decreases |s|
  {
    if |s| > 0 {
      var init := s[..|s| - 1];
      DistinctMeans(init);
      assert forall i :: 0 <= i < |init| ==> init[i] == s[i];
    }
  }

  /** The ids the edges out of `v` lead to; none when `v` has no list. */
  function Targets(adj: AdjacencyList, v: int): set<int>
  {
    if v in adj then set e | e in adj[v] :: e.To else {}
  }

  /** The lists after `AddEdge(from, to, weight)`: the edge goes last on the list of `from`, if it has one. */
  function WithEdge(adj: AdjacencyList, from: int, to: int, weight: int): AdjacencyList
  {
    if from in adj then adj[from := adj[from] + [GraphEdge(from, to, weight)]] else adj
  }

  /** The lists after adding the edges of `es` in order. */
  function WithEdges(adj: AdjacencyList, es: seq<GraphEdge>): AdjacencyList
    decreases |es|
  {
    if es == [] then adj
    else
      var e := es[|es| - 1];
      WithEdge(WithEdges(adj, es[..|es| - 1]), e.From, e.To, e.Weight)
  }

  /** The edges of `es` that leave `v`, in order. */
  function EdgesFrom(es: seq<GraphEdge>, v: int): (out: seq<GraphEdge>)
    ensures forall e :: e in out <==> e in es && e.From == v
    decreases |es|
  {
    if es == [] then []
    else EdgesFrom(es[..|es| - 1], v) + (if es[|es| - 1].From == v then [es[|es| - 1]] else [])
  }

  /**
   * Adding a run of edges keeps the ids that have lists, and each list gains
   * exactly the edges that leave its id, in order; edges from an id without a
   * list are dropped.
   */
  lemma {:induction false} WithEdgesLists(adj: AdjacencyList, es: seq<GraphEdge>)
    ensures WithEdges(adj, es).Keys == adj.Keys
    ensures forall v :: v in adj ==> WithEdges(adj, es)[v] == adj[v] + EdgesFrom(es, v)
    decreases |es|
  {
    if es != [] {
      WithEdgesLists(adj, es[..|es| - 1]);
    }
  }

  /** Every id some edge leads to. */
  function AllTargets(adj: AdjacencyList): set<int>
  {
    set u, e | u in adj && e in adj[u] :: e.To
  }

  /** Each step of `path` follows an edge. */
  ghost predicate IsPath(adj: AdjacencyList, path: seq<int>)
  {
    forall i :: 0 <= i < |path| - 1 ==> path[i + 1] in Targets(adj, path[i])
  }

  ghost predicate Reachable(adj: AdjacencyList, s: int, t: int)
  {
    exists path :: |path| > 0 && path[0] == s && path[|path| - 1] == t && IsPath(adj, path)
  }

  /** A set is closed when every edge out of a member leads to a member. */
  ghost predicate Closed(adj: AdjacencyList, S: set<int>)
  {
    forall v :: v in S ==> Targets(adj, v) <= S
  }

  lemma ReachableRefl(adj: AdjacencyList, s: int)
    ensures Reachable(adj, s, s)
  {
    assert IsPath(adj, [s]);
  }

  /** A path to `v` followed by an edge out of `v` is a path. */
  lemma ReachableStep(adj: AdjacencyList, s: int, v: int, w: int)
    requires Reachable(adj, s, v) && w in Targets(adj, v)
    ensures Reachable(adj, s, w)
  {
    var path :| |path| > 0 && path[0] == s && path[|path| - 1] == v && IsPath(adj, path);
    var path' := path + [w];
    assert IsPath(adj, path');
  }

  /** An edge into `v` followed by a path from `v` is a path. */
  lemma ReachablePrepend(adj: AdjacencyList, u: int, v: int, t: int)
    requires v in Targets(adj, u) && Reachable(adj, v, t)
    ensures Reachable(adj, u, t)
  {
    var path :| |path| > 0 && path[0] == v && path[|path| - 1] == t && IsPath(adj, path);
    var path' := [u] + path;
    assert IsPath(adj, path') by {
      forall i | 0 <= i < |path'| - 1 ensures path'[i + 1] in Targets(adj, path'[i]) {
        if i > 0 {
          assert path'[i] == path[i - 1] && path'[i + 1] == path[i];
        }
      }
    }
  }

  /** A closed set holding the start of a path holds its end. */
  lemma {:induction false} ClosedHoldsPath(adj: AdjacencyList, S: set<int>, path: seq<int>)
    requires Closed(adj, S) && |path| > 0 && path[0] in S && IsPath(adj, path)
    ensures path[|path| - 1] in S
    decreases |path|
  {
    if |path| > 1 {
      var prefix := path[..|path| - 1];
      assert IsPath(adj, prefix);
      ClosedHoldsPath(adj, S, prefix);
      assert path[|path| - 1] in Targets(adj, prefix[|prefix| - 1]);
    }
  }

  /** A closed set holding `s` holds everything reachable from `s`. */
  lemma ClosedHoldsReachable(adj: AdjacencyList, S: set<int>, s: int)
    requires Closed(adj, S) && s in S
    ensures forall t :: Reachable(adj, s, t) ==> t in S
  {
    forall t | Reachable(adj, s, t) ensures t in S {
      var path :| |path| > 0 && path[0] == s && path[|path| - 1] == t && IsPath(adj, path);
      ClosedHoldsPath(adj, S, path);
    }
  }

  /** From an id with no outgoing edges only that id is reachable. */
  lemma ReachableFromSink(adj: AdjacencyList, s: int)
    requires Targets(adj, s) == {}
    ensures forall t :: Reachable(adj, s, t) ==> t == s
  {
    ClosedHoldsReachable(adj, {s}, s);
  }

  /** Every id but the start that is reachable is the target of some edge. */
  lemma ReachableInTargets(adj: AdjacencyList, s: int, t: int)
    requires Reachable(adj, s, t)
    ensures t in AllTargets(adj) + {s}
  {
    var S := AllTargets(adj) + {s};
    forall v | v in S ensures Targets(adj, v) <= S {
      forall w | w in Targets(adj, v) ensures w in S {
        var e :| e in adj[v] && e.To == w;
      }
    }
    ClosedHoldsReachable(adj, S, s);
  }

  /** Every entry of `vs` is reachable from `s` (stated entry by entry from the end). */
  ghost predicate AllReachable(adj: AdjacencyList, s: int, vs: seq<int>)
    decreases |vs|
  {
    |vs| > 0 ==> Reachable(adj, s, vs[|vs| - 1]) && AllReachable(adj, s, vs[..|vs| - 1])
  }

  /** Every edge out of an entry of `ps` leads into `S`. */
  ghost predicate Expanded(adj: AdjacencyList, ps: seq<int>, S: set<int>)
    decreases |ps|
  {
    |ps| > 0 ==> Targets(adj, ps[|ps| - 1]) <= S && Expanded(adj, ps[..|ps| - 1], S)
  }

  lemma {:induction false} AllReachableMeans(adj: AdjacencyList, s: int, vs: seq<int>)
    ensures AllReachable(adj, s, vs) <==> forall v :: v in vs ==> Reachable(adj, s, v)
    decreases |vs|
  {
    if |vs| > 0 {
      var init := vs[..|vs| - 1];
      AllReachableMeans(adj, s, init);
      assert vs == init + [vs[|vs| - 1]];
    }
  }

  lemma {:induction false} ExpandedMeans(adj: AdjacencyList, ps: seq<int>, S: set<int>)
    ensures Expanded(adj, ps, S) <==> forall v :: v in ps ==> Targets(adj, v) <= S
    decreases |ps|
  {
    if |ps| > 0 {
      var init := ps[..|ps| - 1];
      ExpandedMeans(adj, init, S);
      assert ps == init + [ps[|ps| - 1]];
    }
  }

  lemma AllReachableAppend(adj: AdjacencyList, s: int, vs: seq<int>, x: int)
    requires AllReachable(adj, s, vs) && Reachable(adj, s, x)
    ensures AllReachable(adj, s, vs + [x])
  {
    assert (vs + [x])[..|vs|] == vs;
  }

  lemma {:induction false} AllReachableConcat(adj: AdjacencyList, s: int, a: seq<int>, b: seq<int>)
    requires AllReachable(adj, s, a) && AllReachable(adj, s, b)
    ensures AllReachable(adj, s, a + b)
    decreases |b|
  {
    if |b| > 0 {
      var init := b[..|b| - 1];
      AllReachableConcat(adj, s, a, init);
      assert (a + b)[..|a + b| - 1] == a + init;
    } else {
      assert a + b == a;
    }
  }

  /** What is reachable from an edge target of `u` is reachable from `u`. */
  lemma {:induction false} AllReachableVia(adj: AdjacencyList, u: int, v: int, vs: seq<int>)
    requires v in Targets(adj, u) && AllReachable(adj, v, vs)
    ensures AllReachable(adj, u, vs)
    decreases |vs|
  {
    if |vs| > 0 {
      AllReachableVia(adj, u, v, vs[..|vs| - 1]);
      ReachablePrepend(adj, u, v, vs[|vs| - 1]);
    }
  }

  lemma {:induction false} AllReachableAt(adj: AdjacencyList, s: int, vs: seq<int>, i: int)
    requires AllReachable(adj, s, vs) && 0 <= i < |vs|
    ensures Reachable(adj, s, vs[i])
    decreases |vs|
  {
    if i < |vs| - 1 {
      AllReachableAt(adj, s, vs[..|vs| - 1], i);
    }
  }

  lemma {:induction false} ExpandedGrow(adj: AdjacencyList, ps: seq<int>, S: set<int>, T: set<int>)
    requires Expanded(adj, ps, S) && S <= T
    ensures Expanded(adj, ps, T)
    decreases |ps|
  {
    if |ps| > 0 {
      ExpandedGrow(adj, ps[..|ps| - 1], S, T);
    }
  }

  lemma {:induction false} ExpandedConcat(adj: AdjacencyList, a: seq<int>, b: seq<int>, S: set<int>)
    requires Expanded(adj, a, S) && Expanded(adj, b, S)
    ensures Expanded(adj, a + b, S)
    decreases |b|
  {
    if |b| > 0 {
      var init := b[..|b| - 1];
      ExpandedConcat(adj, a, init, S);
      assert (a + b)[..|a + b| - 1] == a + init;
    } else {
      assert a + b == a;
    }
  }

  lemma ElemsPrefix(before: seq<int>, after: seq<int>)
    requires |before| <= |after| && after[..|before|] == before
    ensures Elems(before) <= Elems(after)
  {
    forall x | x in before ensures x in after {
      var k :| 0 <= k < |before| && before[k] == x;
      assert after[k] == x;
    }
  }

  /** Taking the head off a queue that is a suffix of a list. */
  lemma QueueStep(vs: seq<int>, head: nat)
    requires head < |vs|
    ensures vs[head..][0] == vs[head] && vs[head..][1..] == vs[head + 1..]
  {
  }

  /** A suffix of a list, followed by what the list gained, is the same suffix of the longer list. */
  lemma SuffixGrows(before: seq<int>, after: seq<int>, k: nat)
    requires k <= |before| <= |after| && after[..|before|] == before
    ensures before[k..] + after[|before|..] == after[k..]
  {
    assert after == before + after[|before|..];
  }

  /** A prefix of a prefix is a prefix. */
  lemma PrefixOfPrefix(before: seq<int>, after: seq<int>, k: nat)
    requires k <= |before| <= |after| && after[..|before|] == before
    ensures after[..k] == before[..k]
  {
  }

  /** One more entry of the original list on the expanded prefix. */
  lemma PrefixGrows(before: seq<int>, after: seq<int>, k: nat)
    requires k < |before| <= |after| && after[..|before|] == before
    ensures after[..k + 1] == before[..k] + [before[k]]
  {
    assert after[..k + 1] == before[..k + 1];
  }

  lemma DistinctAppend(s: seq<int>, x: int)
    requires Distinct(s) && x !in s
    ensures Distinct(s + [x])
  {
    assert (s + [x])[..|s|] == s;
  }

  /** A repeat-free list whose every entry is `x` is `[x]`. */
  lemma OnlyEntry(s: seq<int>, x: int)
    requires |s| > 0 && s[0] == x && Distinct(s)
    requires forall v :: v in s ==> v == x
    ensures s == [x]
  {
    DistinctMeans(s);
    assert forall i :: 0 <= i < |s| ==> s[i] in s;
  }

  /** Every edge target of a list's entries is among the targets gathered so far. */
  lemma TargetsCovered(adj: AdjacencyList, v: int, S: set<int>)
    requires v in adj
    requires forall k :: 0 <= k < |adj[v]| ==> adj[v][k].To in S
    ensures Targets(adj, v) <= S
  {
    forall w | w in Targets(adj, v) ensures w in S {
      var e :| e in adj[v] && e.To == w;
      var k :| 0 <= k < |adj[v]| && adj[v][k] == e;
    }
  }

  /**
   * A search that appends to its list only ids reachable from `start` has
   * fewer ids of `AllTargets(adj) + {start}` left to append.
   */
  lemma SearchProgress(adj: AdjacencyList, start: int, before: seq<int>, after: seq<int>)
    requires |before| < |after| && after[..|before|] == before
    requires Distinct(after) && AllReachable(adj, start, after)
    ensures AllTargets(adj) + {start} - Elems(after) < AllTargets(adj) + {start} - Elems(before)
  {
    ElemsPrefix(before, after);
    var x := after[|before|];
    AllReachableAt(adj, start, after, |before|);
    ReachableInTargets(adj, start, x);
    DistinctMeans(after);
    assert x !in before by {
      forall k | 0 <= k < |before| ensures before[k] != x {
        assert before[k] == after[k];
      }
    }
    assert x in Elems(after);
  }

  /** Appending edge targets of a reachable id keeps every entry reachable. */
  lemma {:induction false} ExtendKeeps(adj: AdjacencyList, start: int, before: seq<int>, after: seq<int>, current: int)
    requires |before| <= |after| && after[..|before|] == before
    requires AllReachable(adj, start, before) && Reachable(adj, start, current)
    requires forall i :: |before| <= i < |after| ==> after[i] in Targets(adj, current)
    ensures AllReachable(adj, start, after)
    decreases |after|
  {
    if |before| < |after| {
      var init := after[..|after| - 1];
      assert init[..|before|] == before;
      ExtendKeeps(adj, start, before, init, current);
      ReachableStep(adj, start, current, after[|after| - 1]);
    } else {
      assert after == before;
    }
  }

  /**
   * Descending from `node` into an edge target leaves fewer ids of
   * `AllTargets(adj)` and the start to visit.
   */
  lemma DescentProgress(adj: AdjacencyList, node: int, j: int, to: int, visited: seq<int>, result: seq<int>)
    requires node in adj && 0 <= j < |adj[node]| && to == adj[node][j].To
    requires node !in visited
    requires |visited| < |result| && result[..|visited| + 1] == visited + [node]
    ensures AllTargets(adj) + {to} - Elems(result) < AllTargets(adj) + {node} - Elems(visited)
  {
    assert adj[node][j] in adj[node];
    assert to in AllTargets(adj);
    ElemsPrefix(visited + [node], result);
    assert node in Elems(visited + [node]);
    assert Elems(visited) <= Elems(visited + [node]);
  }

  /**
   * What a depth-first descent into `to`, an edge target of `node`, keeps:
   * the ids appended since `node`'s slot `lo` stay reachable from `node`,
   * and those after that slot keep their edges inside the list.
   */
  lemma DescentKeeps(adj: AdjacencyList, lo: nat, node: int, j: int, to: int, before: seq<int>, after: seq<int>)
    requires node in adj && 0 <= j < |adj[node]| && to == adj[node][j].To
    requires lo < |before| < |after| && after[..|before|] == before && after[|before|] == to
    requires AllReachable(adj, node, before[lo..]) && Expanded(adj, before[lo + 1..], Elems(before))
    requires AllReachable(adj, to, after[|before|..]) && Expanded(adj, after[|before|..], Elems(after))
    ensures after[..lo + 1] == before[..lo + 1]
    ensures Elems(before) <= Elems(after) && to in Elems(after)
    ensures AllReachable(adj, node, after[lo..]) && Expanded(adj, after[lo + 1..], Elems(after))
  {
    assert adj[node][j] in adj[node];
    var tail := after[|before|..];
    assert after[lo..] == before[lo..] + tail;
    assert after[lo + 1..] == before[lo + 1..] + tail;
    AllReachableVia(adj, node, to, tail);
    AllReachableConcat(adj, node, before[lo..], tail);
    ElemsPrefix(before, after);
    ExpandedGrow(adj, before[lo + 1..], Elems(before), Elems(after));
    ExpandedConcat(adj, before[lo + 1..], tail, Elems(after));
  }

  /** Appending `node` to a repeat-free list without it starts its descent. */
  lemma DescentStart(adj: AdjacencyList, node: int, visited: seq<int>)
    requires node !in visited && Distinct(visited)
    ensures Distinct(visited + [node]) && (visited + [node])[..|visited| + 1] == visited + [node]
    ensures AllReachable(adj, node, (visited + [node])[|visited|..])
    ensures Expanded(adj, (visited + [node])[|visited| + 1..], Elems(visited + [node]))
  {
    DistinctAppend(visited, node);
    ReachableRefl(adj, node);
    AllReachableAppend(adj, node, [], node);
    assert (visited + [node])[|visited|..] == [node];
    assert (visited + [node])[|visited| + 1..] == [];
  }

  /** Once the edges out of `node` lead into the list, its whole descent is expanded. */
  lemma DescentDone(adj: AdjacencyList, node: int, visited: seq<int>, result: seq<int>)
    requires |visited| < |result| && result[..|visited| + 1] == visited + [node]
    requires Targets(adj, node) <= Elems(result) && Expanded(adj, result[|visited| + 1..], Elems(result))
    ensures result[..|visited|] == visited && result[|visited|] == node
    ensures Expanded(adj, result[|visited|..], Elems(result))
  {
    PrefixOfPrefix(visited + [node], result, |visited|);
    assert result[|visited|..] == [node] + result[|visited| + 1..];
    ExpandedConcat(adj, [node], result[|visited| + 1..], Elems(result));
  }

  class ServiceRequestGraph {
    var nodes: map<int, ServiceRequest>
    var adjacencyList: AdjacencyList

    /** Every node has an edge list and every edge list belongs to a node and starts there. */
    ghost predicate Valid()
      reads this
    {
      && nodes.Keys == adjacencyList.Keys
      && forall v, e :: v in adjacencyList && e in adjacencyList[v] ==> e.From == v
    }

    constructor ()
      ensures Valid() && nodes == map[] && adjacencyList == map[]
    {
      nodes := map[];
      adjacencyList := map[];
    }

    /** `AddNode`: a new id gets the record and an empty edge list; a known id is left alone. */
    method AddNode(id: int, request: ServiceRequest)
      requires Valid()
      modifies this
      ensures Valid()
      ensures id in old(nodes) ==> nodes == old(nodes) && adjacencyList == old(adjacencyList)
      ensures id !in old(nodes) ==> nodes == old(nodes)[id := request] && adjacencyList == old(adjacencyList)[id := []]
    {
      if id !in nodes {
        nodes := nodes[id := request];
        adjacencyList := adjacencyList[id := []];
      }
    }

    /**
     * `AddEdge`: appends an edge to the list of `from`, even when an equal
     * edge is already there; nothing happens when `from` has no list.
     */
    method AddEdge(from: int, to: int, weight: int)
      requires Valid()
      modifies this
      ensures Valid() && nodes == old(nodes)
      ensures adjacencyList == WithEdge(old(adjacencyList), from, to, weight)
    {
      if from in adjacencyList {
        adjacencyList := adjacencyList[from := adjacencyList[from] + [GraphEdge(from, to, weight)]];
      }
    }

    /**
     * `BreadthFirstSearch`: the ids reachable from `start`, each once,
     * `start` first; an id without an edge list only contributes itself.
     */
    method BreadthFirstSearch(start: int) returns (visited: seq<int>)
      ensures |visited| > 0 && visited[0] == start && Distinct(visited)
      ensures forall v :: v in visited ==> Reachable(adjacencyList, start, v)
      ensures forall v :: Reachable(adjacencyList, start, v) ==> v in visited
      ensures start !in adjacencyList ==> visited == [start]
    {
      ghost var adj := adjacencyList;
      var queue := [start];
      visited := [start];
      ghost var head := 0;
      ReachableRefl(adj, start);
      AllReachableAppend(adj, start, [], start);
      while |queue| > 0
        invariant |visited| > 0 && visited[0] == start && Distinct(visited)
        invariant head <= |visited| && queue == visited[head..]
        invariant AllReachable(adj, start, visited)
        invariant Expanded(adj, visited[..head], Elems(visited))
        decreases AllTargets(adj) + {start} - Elems(visited), |queue|
      {
        ghost var visited0 := visited;
        var current := queue[0];
        queue := queue[1..];
        QueueStep(visited, head);
        AllReachableAt(adj, start, visited, head);
        ghost var done := visited[..head];
        if current in adjacencyList {
          visited, queue := EnqueueTargets(current, visited, queue);
          SuffixGrows(visited0, visited, head + 1);
          ExtendKeeps(adj, start, visited0, visited, current);
          ExpandedGrow(adj, done, Elems(visited0), Elems(visited));
        }
        PrefixGrows(visited0, visited, head);
        head := head + 1;
        if |visited| > |visited0| {
          SearchProgress(adj, start, visited0, visited);
        }
      }
      assert visited[..head] == visited;
      AllReachableMeans(adj, start, visited);
      ExpandedMeans(adj, visited, Elems(visited));
      ClosedHoldsReachable(adj, Elems(visited), start);
      if start !in adjacencyList {
        ReachableFromSink(adj, start);
        OnlyEntry(visited, start);
      }
    }

    /**
     * The inner loop of `BreadthFirstSearch`: each edge target of `current`
     * not yet visited is appended to the visited list and to the queue, in
     * edge order.
     */
    method EnqueueTargets(current: int, visited: seq<int>, queue: seq<int>) returns (visited': seq<int>, queue': seq<int>)
      requires current in adjacencyList && Distinct(visited)
      ensures |visited| <= |visited'| && visited'[..|visited|] == visited
      ensures queue' == queue + visited'[|visited|..]
      ensures Distinct(visited')
      ensures Targets(adjacencyList, current) <= Elems(visited')
      ensures forall i :: |visited| <= i < |visited'| ==> visited'[i] in Targets(adjacencyList, current)
    {
      var edges := adjacencyList[current];
      visited', queue' := visited, queue;
      for j := 0 to |edges|
        invariant |visited| <= |visited'| && visited'[..|visited|] == visited
        invariant queue' == queue + visited'[|visited|..]
        invariant Distinct(visited')
        invariant forall k :: 0 <= k < j ==> edges[k].To in visited'
        invariant forall i :: |visited| <= i < |visited'| ==> visited'[i] in Targets(adjacencyList, current)
      {
        var to := edges[j].To;
        if to !in visited' {
          DistinctAppend(visited', to);
          visited' := visited' + [to];
          queue' := queue' + [to];
        }
      }
      TargetsCovered(adjacencyList, current, Elems(visited'));
    }

    /**
     * `DepthFirstSearch`: the ids reachable from `start`, each once,
     * `start` first, in depth-first order.
     */
    method DepthFirstSearch(start: int) returns (visited: seq<int>)
      ensures |visited| > 0 && visited[0] == start && Distinct(visited)
      ensures forall v :: v in visited ==> Reachable(adjacencyList, start, v)
      ensures forall v :: Reachable(adjacencyList, start, v) ==> v in visited
      ensures start !in adjacencyList ==> visited == [start]
    {
      visited := DFSRecursive(start, []);
      assert visited[0..] == visited;
      AllReachableMeans(adjacencyList, start, visited);
      ExpandedMeans(adjacencyList, visited, Elems(visited));
      ClosedHoldsReachable(adjacencyList, Elems(visited), start);
      if start !in adjacencyList {
        ReachableFromSink(adjacencyList, start);
        OnlyEntry(visited, start);
      }
    }

    /**
     * `DFSRecursive`: appends `node`, then visits in turn each edge target
     * not yet in the list. Everything it appends is reachable from `node`,
     * and every edge out of what it appends leads into the list.
     */
    method DFSRecursive(node: int, visited: seq<int>) returns (result: seq<int>)
      requires node !in visited && Distinct(visited)
      ensures |result| > |visited| && result[..|visited|] == visited && result[|visited|] == node
      ensures Distinct(result)
      ensures AllReachable(adjacencyList, node, result[|visited|..])
      ensures Expanded(adjacencyList, result[|visited|..], Elems(result))
      decreases AllTargets(adjacencyList) + {node} - Elems(visited), 2
    {
      result := visited + [node];
      DescentStart(adjacencyList, node, visited);
      if node in adjacencyList {
        result := VisitTargets(node, visited, result);
        TargetsCovered(adjacencyList, node, Elems(result));
      }
      DescentDone(adjacencyList, node, visited, result);
    }

    /**
     * The loop of `DFSRecursive` over the edges out of `node`, which sits at
     * slot `|visited|` of `result`: each target not yet in the list is
     * visited depth-first in turn.
     */
    method VisitTargets(node: int, ghost visited: seq<int>, result0: seq<int>) returns (result: seq<int>)
      requires node in adjacencyList && node !in visited
      requires |result0| > |visited| && result0[..|visited| + 1] == visited + [node] && Distinct(result0)
      requires AllReachable(adjacencyList, node, result0[|visited|..])
      requires Expanded(adjacencyList, result0[|visited| + 1..], Elems(result0))
      ensures |result| > |visited| && result[..|visited| + 1] == visited + [node] && Distinct(result)
      ensures AllReachable(adjacencyList, node, result[|visited|..])
      ensures Expanded(adjacencyList, result[|visited| + 1..], Elems(result))
      ensures forall k :: 0 <= k < |adjacencyList[node]| ==> adjacencyList[node][k].To in Elems(result)
      decreases AllTargets(adjacencyList) + {node} - Elems(visited), 1
    {
      ghost var lo := |visited|;
      var edges := adjacencyList[node];
      result := result0;
      for j := 0 to |edges|
        invariant |result| > lo && result[..lo + 1] == visited + [node]
        invariant Distinct(result)
        invariant AllReachable(adjacencyList, node, result[lo..]) && Expanded(adjacencyList, result[lo + 1..], Elems(result))
        invariant forall k :: 0 <= k < j ==> edges[k].To in Elems(result)
      {
        result := VisitTarget(node, j, visited, result);
      }
    }

    /**
     * One pass of the loop of `VisitTargets`: the edge at `j` out of `node`
     * is followed depth-first when its target is not yet in the list.
     */
    method VisitTarget(node: int, j: nat, ghost visited: seq<int>, before: seq<int>) returns (result: seq<int>)
      requires node in adjacencyList && node !in visited && j < |adjacencyList[node]|
      requires |before| > |visited| && before[..|visited| + 1] == visited + [node] && Distinct(before)
      requires AllReachable(adjacencyList, node, before[|visited|..])
      requires Expanded(adjacencyList, before[|visited| + 1..], Elems(before))
      requires forall k :: 0 <= k < j ==> adjacencyList[node][k].To in Elems(before)
      ensures |result| > |visited| && result[..|visited| + 1] == visited + [node] && Distinct(result)
      ensures AllReachable(adjacencyList, node, result[|visited|..])
      ensures Expanded(adjacencyList, result[|visited| + 1..], Elems(result))
      ensures forall k :: 0 <= k <= j ==> adjacencyList[node][k].To in Elems(result)
      decreases AllTargets(adjacencyList) + {node} - Elems(visited), 0
    {
      var to := adjacencyList[node][j].To;
      result := before;
      if to !in before {
        DescentProgress(adjacencyList, node, j, to, visited, before);
        result := DFSRecursive(to, before);
        DescentKeeps(adjacencyList, |visited|, node, j, to, before, result);
      } else {
        assert to in Elems(before);
      }
    }
  }
}
