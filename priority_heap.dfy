/**
 * The max-heap of service requests ordered by priority value
 * (`ServiceRequestHeap` in DataStructures.cs). The heap is a list in the
 * usual array layout: the parent of slot `k > 0` is slot `(k - 1) / 2`.
 * The records are shared objects; the heap never changes them, only the
 * order in which it holds them.
 */
module PriorityHeaps {
  import opened ServiceRequests

  /** The priority value a record is ordered by. */
  function Prio(r: ServiceRequest): int
    reads r`Priority
  {
    GetPriorityValue(r.Priority)
  }

  function Parent(k: nat): nat
    requires k > 0
  {
    (k - 1) / 2
  }

  /** The priority values of a list of records, slot by slot. */
  function PrioritiesOf(h: seq<ServiceRequest>): (ps: seq<int>)
    reads h`Priority
    ensures |ps| == |h|
    ensures forall k {:trigger ps[k]} :: 0 <= k < |h| ==> ps[k] == Prio(h[k])
  {
    if h == [] then [] else PrioritiesOf(h[..|h| - 1]) + [Prio(h[|h| - 1])]
  }

  /** Every slot's priority is at most its parent's. */
  ghost predicate HeapOrdered(ps: seq<int>)
  {
    forall k {:trigger ps[Parent(k)]} :: 0 < k < |ps| ==> ps[Parent(k)] >= ps[k]
  }

  /**
   * The state while a new entry rises from slot `i`: every slot but `i` is
   * below its parent, and `i`'s parent is above `i`'s children.
   */
  ghost predicate OrderedExceptUp(ps: seq<int>, i: nat)
  {
    && i < |ps|
    && (forall k {:trigger ps[Parent(k)]} :: 0 < k < |ps| && k != i ==> ps[Parent(k)] >= ps[k])
    && (forall k :: 0 < k < |ps| && i > 0 && Parent(k) == i ==> ps[Parent(i)] >= ps[k])
  }

  /**
   * The state while an entry sinks from slot `i`: every slot whose parent is
   * not `i` is below its parent, and `i`'s parent is above `i`'s children.
   */
  ghost predicate OrderedExceptDown(ps: seq<int>, i: nat)
  {
    && i < |ps|
    && (forall k {:trigger ps[Parent(k)]} :: 0 < k < |ps| && Parent(k) != i ==> ps[Parent(k)] >= ps[k])
    && (forall k :: 0 < k < |ps| && i > 0 && Parent(k) == i ==> ps[Parent(i)] >= ps[k])
  }

  /** No record in the heap has a higher priority than the record in its parent slot. */
  ghost predicate IsMaxHeap(h: seq<ServiceRequest>)
    reads h`Priority
  {
    forall k {:trigger h[Parent(k)]} :: 0 < k < |h| ==> Prio(h[Parent(k)]) >= Prio(h[k])
  }

  /** The heap order on the records is the heap order on their priority values. */
  lemma MaxHeapOrdered(h: seq<ServiceRequest>)
    ensures IsMaxHeap(h) <==> HeapOrdered(PrioritiesOf(h))
  {
    var ps := PrioritiesOf(h);
    if IsMaxHeap(h) {
      forall k | 0 < k < |ps| ensures ps[Parent(k)] >= ps[k] {
        assert Prio(h[Parent(k)]) >= Prio(h[k]);
      }
    }
    if HeapOrdered(ps) {
      forall k | 0 < k < |h| ensures Prio(h[Parent(k)]) >= Prio(h[k]) {
        assert ps[Parent(k)] >= ps[k];
      }
    }
  }

  /** The root of a max-heap has the highest priority of all its entries. */
  lemma {:induction false} RootIsMax(ps: seq<int>, k: nat)
    requires HeapOrdered(ps) && k < |ps|
    ensures ps[0] >= ps[k]
    decreases k
  {
    if k > 0 {
      RootIsMax(ps, Parent(k));
    }
  }

  /** The same, for every record in the heap. */
  lemma HeapRootIsMax(h: seq<ServiceRequest>)
    requires IsMaxHeap(h) && h != []
    ensures forall r :: r in h ==> Prio(r) <= Prio(h[0])
  {
    MaxHeapOrdered(h);
    forall r | r in h ensures Prio(r) <= Prio(h[0]) {
      var k :| 0 <= k < |h| && h[k] == r;
      RootIsMax(PrioritiesOf(h), k);
    }
  }

  /** The slots whose parent is `i` are `2i + 1` and `2i + 2`. */
  lemma ChildrenOf(n: nat, i: nat)
    ensures forall d :: 0 < d < n && Parent(d) == i ==> d == 2 * i + 1 || d == 2 * i + 2
  {
  }

  /** Moving the last entry of a heap to the root and dropping the last slot leaves a hole at the root. */
  lemma MoveLastToRoot(ps: seq<int>)
    requires HeapOrdered(ps) && |ps| > 1
    ensures OrderedExceptDown(ps[0 := ps[|ps| - 1]][..|ps| - 1], 0)
  {
    var ps' := ps[0 := ps[|ps| - 1]][..|ps| - 1];
    forall k | 0 < k < |ps'| && Parent(k) != 0 ensures ps'[Parent(k)] >= ps'[k] {
      assert ps'[k] == ps[k] && ps'[Parent(k)] == ps[Parent(k)];
    }
  }

  /**
   * What `ExtractMax` does to the list before sinking: the root leaves, the
   * last entry takes its slot, and the priorities move the same way.
   */
  lemma MoveLastToRootKeeps(h: seq<ServiceRequest>)
    requires IsMaxHeap(h) && h != []
    ensures multiset(h[0 := h[|h| - 1]][..|h| - 1]) + multiset{h[0]} == multiset(h)
    ensures |h| > 1 ==> OrderedExceptDown(PrioritiesOf(h[0 := h[|h| - 1]][..|h| - 1]), 0)
  {
    var h' := h[0 := h[|h| - 1]][..|h| - 1];
    if |h| > 1 {
      assert h == [h[0]] + h[1..|h| - 1] + [h[|h| - 1]];
      assert h' == [h[|h| - 1]] + h[1..|h| - 1];
      var ps := PrioritiesOf(h);
      var ps' := PrioritiesOf(h');
      MaxHeapOrdered(h);
      assert ps' == ps[0 := ps[|ps| - 1]][..|ps| - 1];
      MoveLastToRoot(ps);
    }
  }

  /** A new last entry of a heap starts rising with every other slot in order. */
  lemma AppendToHeap(ps: seq<int>, x: int)
    requires HeapOrdered(ps)
    ensures OrderedExceptUp(ps + [x], |ps|)
  {
    var ps' := ps + [x];
    forall k | 0 < k < |ps'| && k != |ps|
      ensures ps'[Parent(k)] >= ps'[k]
    {
      assert ps'[Parent(k)] == ps[Parent(k)] && ps'[k] == ps[k];
    }
  }

  /**
   * One step of rising: swapping the entry at `i` with its parent, when it
   * outranks the parent, moves the hole up to the parent.
   */
  lemma RiseStep(ps: seq<int>, i: nat)
    requires OrderedExceptUp(ps, i) && i > 0
    requires ps[i] > ps[Parent(i)]
    ensures OrderedExceptUp(ps[i := ps[Parent(i)]][Parent(i) := ps[i]], Parent(i))
  {
    var p := Parent(i);
    var ps' := ps[i := ps[p]][p := ps[i]];
    forall k | 0 < k < |ps'| && k != p ensures ps'[Parent(k)] >= ps'[k] {
      if k == i {
      } else if Parent(k) == i {
      } else if Parent(k) == p {
      } else {
        assert ps'[k] == ps[k] && ps'[Parent(k)] == ps[Parent(k)];
      }
    }
    forall k | 0 < k < |ps'| && p > 0 && Parent(k) == p ensures ps'[Parent(p)] >= ps'[k] {
      if k == i {
      } else {
        assert ps'[k] == ps[k] && ps'[Parent(p)] == ps[Parent(p)];
      }
    }
  }

  /** Rising stops at `i` once it does not outrank its parent; the list is then a heap. */
  lemma RiseDone(ps: seq<int>, i: nat)
    requires OrderedExceptUp(ps, i)
    requires i > 0 ==> ps[i] <= ps[Parent(i)]
    ensures HeapOrdered(ps)
  {
  }

  /**
   * One step of sinking: swapping the entry at `i` with its larger child `c`,
   * when that child outranks it, moves the hole down to `c`.
   */
  lemma SinkStep(ps: seq<int>, i: nat, c: nat)
    requires OrderedExceptDown(ps, i)
    requires c < |ps| && (c == 2 * i + 1 || c == 2 * i + 2)
    requires ps[c] > ps[i]
    requires 2 * i + 1 < |ps| ==> ps[c] >= ps[2 * i + 1]
    requires 2 * i + 2 < |ps| ==> ps[c] >= ps[2 * i + 2]
    ensures OrderedExceptDown(ps[i := ps[c]][c := ps[i]], c)
  {
    ChildrenOf(|ps|, i);
    var ps' := ps[i := ps[c]][c := ps[i]];
    forall k | 0 < k < |ps'| && Parent(k) != c ensures ps'[Parent(k)] >= ps'[k] {
      if k == c {
      } else if k == i {
        assert Parent(c) == i;
      } else if Parent(k) == i {
      } else {
        assert ps'[k] == ps[k] && ps'[Parent(k)] == ps[Parent(k)];
      }
    }
    forall k | 0 < k < |ps'| && Parent(k) == c ensures ps'[Parent(c)] >= ps'[k] {
      assert Parent(c) == i && ps'[k] == ps[k];
    }
  }

  /** Sinking stops at `i` once no child of `i` outranks it; the list is then a heap. */
  lemma SinkDone(ps: seq<int>, i: nat)
    requires OrderedExceptDown(ps, i)
    requires 2 * i + 1 < |ps| ==> ps[i] >= ps[2 * i + 1]
    requires 2 * i + 2 < |ps| ==> ps[i] >= ps[2 * i + 2]
    ensures HeapOrdered(ps)
  {
    ChildrenOf(|ps|, i);
  }

  class ServiceRequestHeap {
    var heap: seq<ServiceRequest>

    ghost predicate Valid()
      reads this, heap`Priority
    {
      IsMaxHeap(heap)
    }

    constructor ()
      ensures Valid() && heap == []
    {
      heap := [];
    }

    /** `Insert`: appends the record and lets it rise to its place. */
    method Insert(request: ServiceRequest)
      requires Valid()
      modifies this
      ensures Valid()
      ensures multiset(heap) == multiset(old(heap)) + multiset{request}
    {
      ghost var ps := PrioritiesOf(heap);
      MaxHeapOrdered(heap);
      heap := heap + [request];
      assert PrioritiesOf(heap) == ps + [Prio(request)];
      AppendToHeap(ps, Prio(request));
      HeapifyUp(|heap| - 1);
    }

    /** `HeapifyUp`: swaps the entry at `index` with its parent while it has the higher priority. */
    method HeapifyUp(index: nat)
      requires OrderedExceptUp(PrioritiesOf(heap), index)
      modifies this
      ensures IsMaxHeap(heap)
      ensures multiset(heap) == multiset(old(heap))
    {
      var i: nat := index;
      while i > 0
        invariant OrderedExceptUp(PrioritiesOf(heap), i)
        invariant multiset(heap) == multiset(old(heap))
        decreases i
      {
        var parent := (i - 1) / 2;
        ghost var ps := PrioritiesOf(heap);
        if Prio(heap[i]) > Prio(heap[parent]) {
          RiseStep(ps, i);
          Swap(i, parent);
          i := parent;
        } else {
          RiseDone(ps, i);
          break;
        }
      }
      RiseDone(PrioritiesOf(heap), i);
      MaxHeapOrdered(heap);
    }

    /**
     * `ExtractMax`: null on an empty heap; otherwise removes and returns the
     * root, which has the highest priority of all the entries.
     */
    method ExtractMax() returns (max: ServiceRequest?)
      requires Valid()
      modifies this
      ensures Valid()
      ensures old(heap) == [] ==> max == null && heap == []
      ensures old(heap) != [] ==>
                max == old(heap)[0]
                && multiset(heap) + multiset{max} == multiset(old(heap))
                && forall r :: r in old(heap) ==> Prio(r) <= Prio(max)
    {
      if |heap| == 0 {
        return null;
      }
      HeapRootIsMax(heap);
      max := heap[0];
      var moved := heap[0 := heap[|heap| - 1]];
      MoveLastToRootKeeps(heap);
      heap := moved[..|moved| - 1];
      if |heap| > 0 {
        HeapifyDown(0);
      }
    }

    /**
     * `HeapifyDown`: swaps the entry at `index` with its larger child while
     * that child has the higher priority.
     */
    method HeapifyDown(index: nat)
      requires OrderedExceptDown(PrioritiesOf(heap), index)
      modifies this
      ensures IsMaxHeap(heap)
      ensures multiset(heap) == multiset(old(heap))
    {
      var i: nat := index;
      while true
        invariant OrderedExceptDown(PrioritiesOf(heap), i)
        invariant multiset(heap) == multiset(old(heap))
        decreases |heap| - i
      {
        var left := 2 * i + 1;
        var right := 2 * i + 2;
        var largest := i;
        ghost var ps := PrioritiesOf(heap);
        if left < |heap| && Prio(heap[left]) > Prio(heap[largest]) {
          largest := left;
        }
        if right < |heap| && Prio(heap[right]) > Prio(heap[largest]) {
          largest := right;
        }
        if largest != i {
          SinkStep(ps, i, largest);
          Swap(i, largest);
          i := largest;
        } else {
          SinkDone(ps, i);
          break;
        }
      }
      MaxHeapOrdered(heap);
    }

    /** `Swap`: exchanges two entries and touches nothing else. */
    method Swap(i: nat, j: nat)
      requires i < |heap| && j < |heap|
      modifies this
      ensures heap == old(heap)[i := old(heap)[j]][j := old(heap)[i]]
      ensures multiset(heap) == multiset(old(heap))
      ensures PrioritiesOf(heap) == old(PrioritiesOf(heap))[i := old(PrioritiesOf(heap))[j]][j := old(PrioritiesOf(heap))[i]]
    {
      ghost var ps := PrioritiesOf(heap);
      var temp := heap[i];
      heap := heap[i := heap[j]];
      heap := heap[j := temp];
      ghost var ps' := PrioritiesOf(heap);
      forall k | 0 <= k < |heap| ensures ps'[k] == ps[i := ps[j]][j := ps[i]][k] {
        assert ps'[k] == Prio(heap[k]);
      }
    }

    /** `Count`: the number of entries. */
    function Count(): (n: nat)
      reads this
      ensures n == |heap|
    {
      |heap|
    }
  }
}
