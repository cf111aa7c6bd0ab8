/**
 * The singly linked list of reported issues (IssueLinkedList.cs). Nodes are
 * objects linked through `Next`; the list appends at the tail and hands out
 * issue ids from a counter that starts at 1. An issue is a plain value here:
 * the caller's object receiving its id is modelled by returning the issue
 * with the id filled in. Ids and the counter are C# `int`s: the counter
 * wraps round to `Int32Min` after handing out `Int32Max`. Dates are whole
 * day numbers.
 */
module IssueLists {
  import opened Text

  datatype Issue = Issue(
    IssueID: Int32,
    Title: string,
    Description: string,
    Reporter: string,
    Email: string,
    Province: string,
    City: string,
    StreetAddress: string,
    Category: string,
    FilePath: string,
    Feedback: string,
    Status: string,
    DateReported: int,
    SLADeadline: int)

  class IssueNode {
    var Data: Issue
    var Next: IssueNode?

    /** `IssueNode(issue)`: a node holding `issue`, linked to nothing. */
    constructor (issue: Issue)
      ensures Data == issue && Next == null
    {
      Data := issue;
      Next := null;
    }
  }

  /** The issues held by `nodes`, in order. */
  ghost function IssuesOf(nodes: seq<IssueNode>): (issues: seq<Issue>)
    reads nodes`Data
    ensures |issues| == |nodes|
  {
    if nodes == [] then [] else IssuesOf(nodes[..|nodes| - 1]) + [nodes[|nodes| - 1].Data]
  }

  /** Every id in `issues` lies in `[1, nextId)`. */
  ghost predicate IdsBelow(issues: seq<Issue>, nextId: int)
  {
    forall i :: 0 <= i < |issues| ==> 1 <= issues[i].IssueID < nextId
  }

  /** `a` was filed before `b`: its id is smaller. */
  predicate FiledBefore(a: Issue, b: Issue)
  {
    a.IssueID < b.IssueID
  }

  /** The ids of `issues` strictly increase along the list, so no two are equal. */
  ghost predicate IncreasingIds(issues: seq<Issue>)
  {
    forall i, j {:trigger FiledBefore(issues[i], issues[j])} :: 0 <= i < j < |issues| ==> FiledBefore(issues[i], issues[j])
  }

  /**
   * Filing an issue under the counter's value keeps the ids in range (for the
   * advanced counter) and increasing.
   */
  lemma NextIdExtends(issues: seq<Issue>, nextId: Int32, issue: Issue)
    requires 1 <= nextId < Int32Max && IdsBelow(issues, nextId) && IncreasingIds(issues)
    requires issue.IssueID == nextId
    ensures IdsBelow(issues + [issue], nextId + 1) && IncreasingIds(issues + [issue])
  {
    var extended := issues + [issue];
    forall i, j | 0 <= i < j < |extended|
      ensures FiledBefore(extended[i], extended[j])
    {
      if j < |issues| {
        assert FiledBefore(issues[i], issues[j]);
      }
    }
  }

  /** Increasing ids are pairwise distinct: no two issues in the list share an id. */
  lemma IncreasingIdsDistinct(issues: seq<Issue>)
    requires IncreasingIds(issues)
    ensures forall i, j :: 0 <= i < |issues| && 0 <= j < |issues| && i != j ==>
              issues[i].IssueID != issues[j].IssueID
  {
    forall i, j | 0 <= i < |issues| && 0 <= j < |issues| && i != j
      ensures issues[i].IssueID != issues[j].IssueID
    {
      if i < j {
        assert FiledBefore(issues[i], issues[j]);
      } else {
        assert FiledBefore(issues[j], issues[i]);
      }
    }
  }

  /**
   * Until the counter has wrapped, the counter is positive, every id lies in
   * `[1, nextId)` and the ids increase along the list.
   */
  ghost predicate CounterIds(issues: seq<Issue>, nextId: int, wrapped: bool)
  {
    !wrapped ==> 1 <= nextId && IdsBelow(issues, nextId) && IncreasingIds(issues)
  }

  /** No node appears twice in `nodes`. */
  ghost predicate Distinct(nodes: seq<IssueNode>)
  {
    forall i, j :: 0 <= i < j < |nodes| ==> nodes[i] != nodes[j]
  }

  /** `head` starts a chain through `nodes` along `Next` that ends in null. */
  ghost predicate Chain(head: IssueNode?, nodes: seq<IssueNode>)
    reads nodes`Next
  {
    && (nodes == [] ==> head == null)
    && (nodes != [] ==> head == nodes[0] && nodes[|nodes| - 1].Next == null)
    && (forall i {:trigger nodes[i].Next} :: 0 <= i < |nodes| - 1 ==> nodes[i].Next == nodes[i + 1])
  }

  class IssueLinkedList {
    var head: IssueNode?
    var nextId: Int32
    /** The nodes reachable from `head`, in list order. */
    ghost var Nodes: seq<IssueNode>
    /** The counter has handed out `Int32Max` and wrapped round. */
    ghost var Wrapped: bool

    /**
     * `head` starts the chain through `Nodes`, whose last node links to
     * nothing; no node appears twice; until the counter wraps, every issue
     * has an id from 1 up to (not including) the counter, and the ids
     * increase along the list.
     */
    ghost predicate Valid()
      reads this, Nodes`Next, Nodes`Data
    {
      && Chain(head, Nodes)
      && Distinct(Nodes)
      && CounterIds(IssuesOf(Nodes), nextId, Wrapped)
    }

    /** The issues in list order. */
    ghost function Contents(): seq<Issue>
      reads this, Nodes`Data
    {
      IssuesOf(Nodes)
    }

    /** A new list: no nodes, and the first id handed out is 1. */
    constructor ()
      ensures Valid() && Nodes == [] && Contents() == [] && nextId == 1 && !Wrapped
    {
      head := null;
      nextId := 1;
      Nodes := [];
      Wrapped := false;
    }

    /**
     * `GetNextId`: hands out the counter's value and advances it, wrapping
     * round from `Int32Max` to `Int32Min` as unchecked `int` arithmetic does.
     */
    method GetNextId() returns (id: Int32)
      requires Valid()
      modifies this
      ensures Valid()
      ensures id == old(nextId)
      ensures old(nextId) < Int32Max ==> nextId == old(nextId) + 1
      ensures old(nextId) == Int32Max ==> nextId == Int32Min
      ensures Wrapped == (old(Wrapped) || old(nextId) == Int32Max)
      ensures head == old(head) && Nodes == old(Nodes) && Contents() == old(Contents())
    {
      id := nextId;
      if nextId == Int32Max {
        nextId := Int32Min;
        Wrapped := true;
      } else {
        nextId := nextId + 1;
      }
    }

    /**
     * `AddIssue`: gives the issue the next id, then hangs a new node holding
     * it after the last node, walking there from `head`.
     */
    method AddIssue(issue: Issue) returns (numbered: Issue)
      requires Valid()
      modifies this, Nodes
      ensures Valid()
      ensures numbered == issue.(IssueID := old(nextId))
      ensures old(nextId) < Int32Max ==> nextId == old(nextId) + 1
      ensures old(nextId) == Int32Max ==> nextId == Int32Min
      ensures Wrapped == (old(Wrapped) || old(nextId) == Int32Max)
      ensures Contents() == old(Contents()) + [numbered]
      ensures |Nodes| > 0 && Nodes == old(Nodes) + [Nodes[|Nodes| - 1]] && fresh(Nodes[|Nodes| - 1])
    {
      ghost var issues0 := IssuesOf(Nodes);
      var id := GetNextId();
      numbered := issue.(IssueID := id);
      if !Wrapped {
        NextIdExtends(issues0, id, numbered);
      }
      AppendNode(numbered);
    }

    /**
     * Hangs a new node holding `issue` after the last node (or makes it the
     * head of an empty list); `issue` carries the id just handed out.
     */
    method AppendNode(issue: Issue)
      requires Valid()
      requires CounterIds(Contents() + [issue], nextId, Wrapped)
      modifies this, Nodes
      ensures Valid()
      ensures nextId == old(nextId) && Wrapped == old(Wrapped)
      ensures Contents() == old(Contents()) + [issue]
      ensures |Nodes| > 0 && Nodes == old(Nodes) + [Nodes[|Nodes| - 1]] && fresh(Nodes[|Nodes| - 1])
    {
      var newNode := new IssueNode(issue);
      if head == null {
        head := newNode;
      } else {
        var tail := Tail();
        tail.Next := newNode;
      }
      Nodes := Nodes + [newNode];
      assert Nodes[..|Nodes| - 1] == old(Nodes);
      assert IssuesOf(old(Nodes)) == old(IssuesOf(Nodes));
      assert IssuesOf(Nodes) == IssuesOf(old(Nodes)) + [newNode.Data];
    }

    /** The last node, reached by walking from `head` along `Next`. */
    method Tail() returns (tail: IssueNode)
      requires Valid() && head != null
      ensures Nodes != [] && tail == Nodes[|Nodes| - 1]
    {
      tail := head;
      ghost var i := 0;
      while tail.Next != null
        invariant 0 <= i < |Nodes| && tail == Nodes[i]
        decreases |Nodes| - i
      {
        tail := tail.Next;
        i := i + 1;
      }
    }

    /** `GetAllIssues`: the issues from `head` to the last node. */
    method GetAllIssues() returns (issues: seq<Issue>)
      requires Valid()
      ensures issues == Contents()
      ensures !Wrapped ==> IncreasingIds(issues) && IdsBelow(issues, nextId)
    {
      issues := [];
      var current := head;
      ghost var i := 0;
      while current != null
        invariant 0 <= i <= |Nodes|
        invariant current == if i < |Nodes| then Nodes[i] else null
        invariant issues == IssuesOf(Nodes[..i])
        decreases |Nodes| - i
      {
        assert Nodes[..i + 1][..i] == Nodes[..i];
        issues := issues + [current.Data];
        current := current.Next;
        i := i + 1;
      }
      assert Nodes[..i] == Nodes;
    }
  }

  /**
   * A direct `GetNextId` call between two `AddIssue` calls uses up an id:
   * on a new list the two issues get 1 and 3.
   */
  method NextIdGap(a: Issue, b: Issue) returns (first: Issue, second: Issue)
    ensures first.IssueID == 1 && second.IssueID == 3
    ensures first == a.(IssueID := 1) && second == b.(IssueID := 3)
  {
    var list := new IssueLinkedList();
    first := list.AddIssue(a);
    var skipped := list.GetNextId();
    second := list.AddIssue(b);
  }
}
