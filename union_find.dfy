/**
 * Disjoint sets over the indices `0 .. size - 1` (`UnionFind` in
 * DataStructures.cs): a parent array with path compression in `Find` and
 * union by rank in `Union`. The partition is stated through `RootOf`, the
 * index reached by following parent links to an index that is its own parent.
 */
module DisjointSets {

  /** The largest entry of a non-empty list. */
  function SeqMax(s: seq<int>): (m: int)
    requires s != []
    ensures forall i :: 0 <= i < |s| ==> s[i] <= m
    ensures exists i :: 0 <= i < |s| && s[i] == m
  {
    if |s| == 1 then s[0]
    else
      var m' := SeqMax(s[1..]);
      assert forall i :: 1 <= i < |s| ==> s[i] == s[1..][i - 1];
      if s[0] >= m' then s[0] else m'
  }

  /**
   * The shape every reachable state has: parents are indices, and a
   * non-root's parent has a strictly larger rank, so following parents
   * always ends at a root.
   */
  ghost predicate Inv(p: seq<int>, r: seq<int>)
  {
    && |p| == |r|
    && (forall i :: 0 <= i < |p| ==> 0 <= p[i] < |p|)
    && (forall i :: 0 <= i < |p| && p[i] != i ==> r[p[i]] > r[i])
  }

  /** The representative of `x`: follow parent links until an index is its own parent. */
  ghost function RootOf(p: seq<int>, r: seq<int>, x: int): (root: int)
    requires Inv(p, r) && 0 <= x < |p|
    ensures 0 <= root < |p| && p[root] == root
    ensures p[x] != x ==> r[root] > r[x]
    decreases SeqMax(r) - r[x]
  {
    if p[x] == x then x else RootOf(p, r, p[x])
  }

  /** The representative of every index, in index order. */
  ghost function RootsOf(p: seq<int>, r: seq<int>): (roots: seq<int>)
    requires Inv(p, r)
    ensures |roots| == |p|
    ensures forall z :: 0 <= z < |p| ==> roots[z] == RootOf(p, r, z)
  {
    seq(|p|, z requires 0 <= z < |p| => RootOf(p, r, z))
  }

  /** Following one parent link does not change the representative. */
  lemma RootOfParent(p: seq<int>, r: seq<int>, x: int)
    requires Inv(p, r) && 0 <= x < |p|
    ensures RootOf(p, r, p[x]) == RootOf(p, r, x)
  {
  }

  /**
   * Path compression: pointing `x` straight at its representative keeps the
   * shape and every index's representative.
   */
  lemma {:induction false} CompressKeepsRoots(p: seq<int>, r: seq<int>, x: int, z: int)
    requires Inv(p, r) && 0 <= x < |p| && 0 <= z < |p|
    ensures Inv(p[x := RootOf(p, r, x)], r)
    ensures RootOf(p[x := RootOf(p, r, x)], r, z) == RootOf(p, r, z)
    decreases SeqMax(r) - r[z]
  {
    var root := RootOf(p, r, x);
    var p' := p[x := root];
    assert Inv(p', r);
    if z == x {
      if p[x] != x {
        assert p'[root] == root;
      }
    } else if p[z] != z {
      CompressKeepsRoots(p, r, x, p[z]);
    }
  }

  /**
   * Linking root `a` under root `b` (when `a`'s rank is the smaller one)
   * keeps the shape and sends exactly the members of `a`'s set to `b`.
   */
  lemma {:induction false} LinkKeepsShape(p: seq<int>, r: seq<int>, a: int, b: int, z: int)
    requires Inv(p, r) && 0 <= a < |p| && 0 <= b < |p| && 0 <= z < |p|
    requires p[a] == a && p[b] == b && r[a] < r[b]
    ensures Inv(p[a := b], r)
    ensures RootOf(p[a := b], r, z) == if RootOf(p, r, z) == a then b else RootOf(p, r, z)
    decreases SeqMax(r) - r[z]
  {
    var p' := p[a := b];
    assert Inv(p', r);
    if z == a {
      assert p'[b] == b;
    } else if p[z] != z {
      LinkKeepsShape(p, r, a, b, p[z]);
    }
  }

  /**
   * Linking root `b` under root `a` when their ranks are equal, and raising
   * `a`'s rank by one, keeps the shape and sends exactly the members of
   * `b`'s set to `a`.
   */
  lemma {:induction false} LinkEqualKeepsShape(p: seq<int>, r: seq<int>, a: int, b: int, z: int)
    requires Inv(p, r) && 0 <= a < |p| && 0 <= b < |p| && 0 <= z < |p|
    requires p[a] == a && p[b] == b && a != b && r[a] == r[b]
    ensures Inv(p[b := a], r[a := r[a] + 1])
    ensures RootOf(p[b := a], r[a := r[a] + 1], z) == if RootOf(p, r, z) == b then a else RootOf(p, r, z)
    decreases SeqMax(r) - r[z]
  {
    var p', r' := p[b := a], r[a := r[a] + 1];
    assert Inv(p', r');
    if z == b {
      assert p'[a] == a;
    } else if p[z] != z {
      LinkEqualKeepsShape(p, r, a, b, p[z]);
    }
  }

  /**
   * The representatives `after` a union of `x` and `y`, given those
   * `before`: both end in one set whose representative is one of the two old
   * ones, and every other index keeps its representative.
   */
  ghost predicate UnitedRoots(before: seq<int>, after: seq<int>, x: int, y: int)
    requires |before| == |after| && 0 <= x < |before| && 0 <= y < |before|
  {
    && after[x] == after[y]
    && (after[x] == before[x] || after[x] == before[y])
    && forall z :: 0 <= z < |before| ==>
         after[z] == if before[z] == before[x] || before[z] == before[y] then after[x] else before[z]
  }

  class UnionFind {
    var parent: array<int>
    var rank: array<int>

    ghost predicate Valid()
      reads this, parent, rank
    {
      parent != rank && Inv(parent[..], rank[..])
    }

    /** The representative of `z` in the current state. */
    ghost function Root(z: int): int
      requires Valid() && 0 <= z < parent.Length
      reads this, parent, rank
    {
      RootOf(parent[..], rank[..], z)
    }

    /** The representative of every index in the current state. */
    ghost function Roots(): (roots: seq<int>)
      requires Valid()
      reads this, parent, rank
      ensures |roots| == parent.Length
      ensures forall z :: 0 <= z < parent.Length ==> roots[z] == Root(z)
    {
      RootsOf(parent[..], rank[..])
    }

    /** `UnionFind(size)`: every index is alone in its own set, with rank 0. */
    constructor (size: nat)
      ensures Valid() && parent.Length == size && fresh(parent) && fresh(rank)
      ensures forall z :: 0 <= z < size ==> Root(z) == z
      ensures forall z :: 0 <= z < size ==> rank[z] == 0
    {
      var p := new int[size];
      for i := 0 to size
        invariant forall j :: 0 <= j < i ==> p[j] == j
      {
        p[i] := i;
      }
      parent := p;
      rank := new int[size](_ => 0);
    }

    /**
     * `Find`: the representative of `x`; on the way back every index on the
     * path is pointed straight at it, which changes no representative.
     */
    method Find(x: int) returns (root: int)
      requires Valid() && 0 <= x < parent.Length
      modifies parent
      ensures Valid()
      ensures root == old(Root(x)) && parent[x] == root
      ensures forall z :: 0 <= z < parent.Length ==> Root(z) == old(Root(z))
      decreases SeqMax(rank[..]) - rank[x]
    {
      if parent[x] == x {
        return x;
      }
      root := Find(parent[x]);
      RootOfParent(old(parent[..]), rank[..], x);
      ghost var p := parent[..];
      forall z | 0 <= z < parent.Length
        ensures Inv(p[x := RootOf(p, rank[..], x)], rank[..])
        ensures RootOf(p[x := RootOf(p, rank[..], x)], rank[..], z) == RootOf(p, rank[..], z)
      {
        CompressKeepsRoots(p, rank[..], x, z);
      }
      parent[x] := root;
      assert parent[..] == p[x := root];
    }

    /**
     * `Union`: merges the sets of `x` and `y`, hanging the root of smaller
     * rank under the other, and on a tie hanging `y`'s root under `x`'s and
     * raising its rank.
     */
    method Union(x: int, y: int)
      requires Valid() && 0 <= x < parent.Length && 0 <= y < parent.Length
      modifies parent, rank
      ensures Valid()
      ensures Root(x) == Root(y)
      ensures Root(x) == if old(Root(x)) != old(Root(y)) && old(rank[Root(x)]) < old(rank[Root(y)])
                         then old(Root(y)) else old(Root(x))
      ensures rank[..] == if old(Root(x)) != old(Root(y)) && old(rank[Root(x)]) == old(rank[Root(y)])
                          then old(rank[..])[old(Root(x)) := old(rank[Root(x)]) + 1]
                          else old(rank[..])
      ensures forall z :: 0 <= z < parent.Length ==>
                Root(z) == if old(Root(z)) == old(Root(x)) || old(Root(z)) == old(Root(y)) then Root(x) else old(Root(z))
      ensures UnitedRoots(old(Roots()), Roots(), x, y)
    {
      var rootX := Find(x);
      var rootY := Find(y);
      if rootX == rootY {
        return;
      }
      ghost var p, r := parent[..], rank[..];
      if rank[rootX] < rank[rootY] {
        forall z | 0 <= z < parent.Length
          ensures Inv(p[rootX := rootY], r)
          ensures RootOf(p[rootX := rootY], r, z) == if RootOf(p, r, z) == rootX then rootY else RootOf(p, r, z)
        {
          LinkKeepsShape(p, r, rootX, rootY, z);
        }
        parent[rootX] := rootY;
        assert parent[..] == p[rootX := rootY];
      } else if rank[rootX] > rank[rootY] {
        forall z | 0 <= z < parent.Length
          ensures Inv(p[rootY := rootX], r)
          ensures RootOf(p[rootY := rootX], r, z) == if RootOf(p, r, z) == rootY then rootX else RootOf(p, r, z)
        {
          LinkKeepsShape(p, r, rootY, rootX, z);
        }
        parent[rootY] := rootX;
        assert parent[..] == p[rootY := rootX];
      } else {
        forall z | 0 <= z < parent.Length
          ensures Inv(p[rootY := rootX], r[rootX := r[rootX] + 1])
          ensures RootOf(p[rootY := rootX], r[rootX := r[rootX] + 1], z) == if RootOf(p, r, z) == rootY then rootX else RootOf(p, r, z)
        {
          LinkEqualKeepsShape(p, r, rootX, rootY, z);
        }
        parent[rootY] := rootX;
        rank[rootX] := rank[rootX] + 1;
        assert parent[..] == p[rootY := rootX];
        assert rank[..] == r[rootX := r[rootX] + 1];
      }
    }
  }
}
