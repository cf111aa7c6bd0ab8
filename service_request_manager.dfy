/**
 * The application-wide list of service requests (ServiceRequestManager.cs).
 * This store keys requests by an integer id, so its records are values of
 * their own: a record with an `int` id and the request's fields. The list is
 * a field the methods reassign; the thrown exceptions become an outcome
 * value with the list left as it was. Ids are C# `int`s, so the id after
 * the largest possible one wraps round to the smallest. Dates are whole day
 * numbers counted from 1 January 2025.
 */
module ServiceRequestManagers {
  import opened Wrappers
  import opened Text

  datatype Request = Request(
    IssueID: Int32,
    Title: string,
    Category: string,
    Status: string,
    Priority: string,
    DateReported: int,
    Description: string,
    Reporter: string,
    Email: string,
    StreetAddress: string)

  /** A request built from the seven values the sample data gives; the rest keep their defaults. */
  function Sample(id: Int32, title: string, category: string, status: string, priority: string,
                  date: int, description: string): Request
  {
    Request(id, title, category, status, priority, date, description, "Anonymous", "", "")
  }

  /** Day numbers of 1 October and 1 November 2025. */
  const October: int := 273
  const November: int := 304

  /** The ten requests the store starts with, ids 1001 to 1010. */
  const SampleRequests: seq<Request> := [
    Sample(1001, "Pothole Repair", "Road Maintenance", "Pending", "High",
      November, "Large pothole on Main Street causing traffic issues"),
    Sample(1002, "Street Light Out", "Utilities", "In Progress", "Medium",
      November + 2, "Street light not working on Oak Avenue"),
    Sample(1003, "Water Leak", "Water Services", "Resolved", "Critical",
      October + 27, "Major water leak affecting multiple homes"),
    Sample(1004, "Illegal Dumping", "Sanitation", "Pending", "Medium",
      November + 4, "Illegal dumping site near residential area"),
    Sample(1005, "Traffic Signal Malfunction", "Traffic Management", "In Progress", "Critical",
      November + 1, "Traffic light stuck on red at intersection"),
    Sample(1006, "Park Maintenance", "Parks & Recreation", "Pending", "Low",
      November + 5, "Broken playground equipment needs repair"),
    Sample(1007, "Sewer Blockage", "Sanitation", "Resolved", "High",
      October + 24, "Sewer blockage causing overflow"),
    Sample(1008, "Noise Complaint", "Public Safety", "Closed", "Low",
      October + 19, "Excessive noise from construction site"),
    Sample(1009, "Graffiti Removal", "Public Works", "In Progress", "Medium",
      November + 3, "Graffiti on public building walls"),
    Sample(1010, "Emergency Bridge Repair", "Infrastructure", "Pending", "Critical",
      November + 6, "Structural damage to pedestrian bridge")
  ]

  /** No two requests in `s` share an id. */
  ghost predicate UniqueIds(s: seq<Request>)
  {
    forall i, j :: 0 <= i < j < |s| ==> s[i].IssueID != s[j].IssueID
  }

  /** Some request in `s` has id `id` (`Any(r => r.IssueID == id)`). */
  predicate HasId(s: seq<Request>, id: int)
  {
    exists i :: 0 <= i < |s| && s[i].IssueID == id
  }

  /** The position of the first request with id `id`, if there is one. */
  function IndexOfId(s: seq<Request>, id: int): (k: Option<nat>)
    ensures k.None? <==> !HasId(s, id)
    ensures k.Some? ==> k.value < |s| && s[k.value].IssueID == id
    ensures k.Some? ==> forall i :: 0 <= i < k.value ==> s[i].IssueID != id
  {
    if s == [] then None
    else if s[0].IssueID == id then Some(0)
    else
      match IndexOfId(s[1..], id)
      case None =>
        assert forall i :: 1 <= i < |s| ==> s[i] == s[1..][i - 1];
        None
      case Some(k) => Some(k + 1)
  }

  /** The largest id in a non-empty `s`. */
  function MaxId(s: seq<Request>): (m: Int32)
    requires s != []
    ensures HasId(s, m)
    ensures forall i :: 0 <= i < |s| ==> s[i].IssueID <= m
  {
    if |s| == 1 then s[0].IssueID
    else
      var rest := MaxId(s[1..]);
      assert forall i :: 1 <= i < |s| ==> s[i] == s[1..][i - 1];
      if s[0].IssueID >= rest then s[0].IssueID else rest
  }

  /**
   * The id `GetNextId` proposes: 1001 for an empty store, else one past the
   * largest id in C#'s unchecked `int` arithmetic, which wraps round to
   * `Int32Min` when the largest id is `Int32Max`.
   */
  function NextId(s: seq<Request>): (id: Int32)
    ensures s == [] ==> id == 1001
    ensures s != [] && !HasId(s, Int32Max) ==> HasId(s, id - 1)
    ensures !HasId(s, Int32Max) ==> forall i :: 0 <= i < |s| ==> s[i].IssueID < id
    ensures !HasId(s, Int32Max) ==> !HasId(s, id)
    ensures HasId(s, Int32Max) ==> id == Int32Min
  {
    if s == [] then 1001
    else
      var m := MaxId(s);
      if m == Int32Max then Int32Min else m + 1
  }

  /**
   * Once `Int32Max` is stored the proposed id wraps to `Int32Min`, which
   * collides with a stored `Int32Min` id.
   */
  lemma NextIdWrapCollides(a: Request, b: Request)
    requires a.IssueID == Int32Max && b.IssueID == Int32Min
    ensures UniqueIds([a, b])
    ensures NextId([a, b]) == Int32Min && HasId([a, b], NextId([a, b]))
  {
    assert [a, b][0] == a;
    assert [a, b][1] == b;
  }

  /** The requests of `s` that `keep` accepts, in their order in `s` (LINQ `Where`). */
  function Select(s: seq<Request>, keep: Request -> bool): (r: seq<Request>)
    ensures |r| <= |s|
    ensures forall x :: x in r <==> x in s && keep(x)
  {
    if s == [] then []
    else if keep(s[0]) then [s[0]] + Select(s[1..], keep)
    else Select(s[1..], keep)
  }

  /** Selecting from a concatenation selects from each part, keeping the parts in order. */
  lemma {:induction false} SelectAppend(s1: seq<Request>, s2: seq<Request>, keep: Request -> bool)
    ensures Select(s1 + s2, keep) == Select(s1, keep) + Select(s2, keep)
  {
    if s1 == [] {
      assert s1 + s2 == s2;
    } else {
      assert (s1 + s2)[1..] == s1[1..] + s2;
      SelectAppend(s1[1..], s2, keep);
    }
  }

  /** A single request is selected exactly when `keep` accepts it. */
  lemma SelectSingle(x: Request, keep: Request -> bool)
    ensures Select([x], keep) == if keep(x) then [x] else []
  {
    assert [x][1..] == [];
  }

  /** Appending a request whose id is absent keeps the ids unique. */
  lemma {:induction false} AppendKeepsUnique(s: seq<Request>, x: Request)
    requires UniqueIds(s) && !HasId(s, x.IssueID)
    ensures UniqueIds(s + [x])
  {
    var t := s + [x];
    forall i, j | 0 <= i < j < |t|
      ensures t[i].IssueID != t[j].IssueID
    {
      if j == |s| {
        assert t[i] == s[i];
      } else {
        assert t[i] == s[i] && t[j] == s[j];
      }
    }
  }

  /** Replacing a request by one with the same id keeps the ids unique. */
  lemma ReplaceKeepsUnique(s: seq<Request>, k: nat, x: Request)
    requires UniqueIds(s) && k < |s| && s[k].IssueID == x.IssueID
    ensures UniqueIds(s[k := x])
  {
    var t := s[k := x];
    forall i, j | 0 <= i < j < |t|
      ensures t[i].IssueID != t[j].IssueID
    {
      assert t[i].IssueID == s[i].IssueID && t[j].IssueID == s[j].IssueID;
    }
  }

  /** Removing one request keeps the ids unique. */
  lemma RemoveKeepsUnique(s: seq<Request>, k: nat)
    requires UniqueIds(s) && k < |s|
    ensures UniqueIds(s[..k] + s[k + 1..])
  {
    var t := s[..k] + s[k + 1..];
    forall i, j | 0 <= i < j < |t|
      ensures t[i].IssueID != t[j].IssueID
    {
      var i' := if i < k then i else i + 1;
      var j' := if j < k then j else j + 1;
      assert t[i] == s[i'] && t[j] == s[j'];
    }
  }

  /** The sample ids are 1001 to 1010 in order, so no two are equal. */
  lemma SampleIdsUnique()
    ensures forall i :: 0 <= i < |SampleRequests| ==> SampleRequests[i].IssueID == 1001 + i
    ensures UniqueIds(SampleRequests)
  {
  }

  /** What `AddRequest` did: appended, or refused with the exception it throws. */
  datatype AddOutcome = Added | NullRequest | DuplicateId

  class ServiceRequestManager {
    var AllRequests: seq<Request>

    /** The store never holds two requests with one id. */
    ghost predicate Valid()
      reads this
    {
      UniqueIds(AllRequests)
    }

    /** A new store holds the sample requests. */
    constructor ()
      ensures Valid() && AllRequests == SampleRequests
    {
      AllRequests := [];
      new;
      LoadSampleData();
    }

    /** `LoadSampleData`: adds the sample requests one by one to the empty store. */
    method LoadSampleData()
      requires AllRequests == []
      modifies this
      ensures Valid() && AllRequests == SampleRequests
    {
      for k := 0 to |SampleRequests|
        invariant AllRequests == SampleRequests[..k]
      {
        AllRequests := AllRequests + [SampleRequests[k]];
      }
      SampleIdsUnique();
    }

    /**
     * `AddRequest`: refuses a missing request and a request whose id is
     * already stored, leaving the store as it was; otherwise appends it.
     */
    method AddRequest(request: Option<Request>) returns (outcome: AddOutcome)
      requires Valid()
      modifies this
      ensures Valid()
      ensures request.None? ==> outcome == NullRequest && AllRequests == old(AllRequests)
      ensures request.Some? && HasId(old(AllRequests), request.value.IssueID) ==>
                outcome == DuplicateId && AllRequests == old(AllRequests)
      ensures request.Some? && !HasId(old(AllRequests), request.value.IssueID) ==>
                outcome == Added && AllRequests == old(AllRequests) + [request.value]
    {
      if request.None? {
        return NullRequest;
      }
      if IndexOfId(AllRequests, request.value.IssueID).Some? {
        return DuplicateId;
      }
      AppendKeepsUnique(AllRequests, request.value);
      AllRequests := AllRequests + [request.value];
      outcome := Added;
    }

    /** `GetRequestById`: the first request with id `id`, or nothing. */
    function GetRequestById(id: Int32): (r: Option<Request>)
      reads this
      ensures r.None? <==> !HasId(AllRequests, id)
      ensures r.Some? ==> r.value.IssueID == id
      ensures r.Some? ==> exists k :: 0 <= k < |AllRequests| && AllRequests[k] == r.value &&
                            forall i :: 0 <= i < k ==> AllRequests[i].IssueID != id
    {
      match IndexOfId(AllRequests, id)
      case None => None
      case Some(k) => Some(AllRequests[k])
    }

    /**
     * `UpdateRequest`: puts `request` in the place of the stored request with
     * its id; every other request stays where it was. Nothing changes when
     * the id is not stored.
     */
    method UpdateRequest(request: Request)
      requires Valid()
      modifies this
      ensures Valid()
      ensures !HasId(old(AllRequests), request.IssueID) ==> AllRequests == old(AllRequests)
      ensures |AllRequests| == |old(AllRequests)|
      ensures forall i :: 0 <= i < |AllRequests| ==>
                AllRequests[i] == if old(AllRequests)[i].IssueID == request.IssueID then request
                                  else old(AllRequests)[i]
    {
      match IndexOfId(AllRequests, request.IssueID)
      case None =>
      case Some(index) =>
        ReplaceKeepsUnique(AllRequests, index, request);
        AllRequests := AllRequests[index := request];
    }

    /**
     * `DeleteRequest`: removes the stored request with id `id`, keeping the
     * others in order. Nothing changes when the id is not stored.
     */
    method DeleteRequest(id: Int32)
      requires Valid()
      modifies this
      ensures Valid()
      ensures !HasId(old(AllRequests), id) ==> AllRequests == old(AllRequests)
      ensures HasId(old(AllRequests), id) ==>
                exists k :: 0 <= k < |old(AllRequests)| && old(AllRequests)[k].IssueID == id &&
                  AllRequests == old(AllRequests)[..k] + old(AllRequests)[k + 1..]
      ensures !HasId(AllRequests, id)
      ensures forall r :: r in AllRequests <==> r in old(AllRequests) && r.IssueID != id
    {
      match IndexOfId(AllRequests, id)
      case None =>
      case Some(index) =>
        RemoveKeepsUnique(AllRequests, index);
        RemovedIsOnlyMatch(AllRequests, index);
        AllRequests := AllRequests[..index] + AllRequests[index + 1..];
    }

    /**
     * `GetNextId`: 1001 for an empty store; otherwise an id above every
     * stored one, unless `Int32Max` is stored, when it wraps to `Int32Min`.
     */
    function GetNextId(): (id: Int32)
      reads this
      ensures AllRequests == [] ==> id == 1001
      ensures AllRequests != [] && !HasId(AllRequests, Int32Max) ==> HasId(AllRequests, id - 1)
      ensures !HasId(AllRequests, Int32Max) ==>
                forall i :: 0 <= i < |AllRequests| ==> AllRequests[i].IssueID < id
      ensures HasId(AllRequests, Int32Max) ==> id == Int32Min
    {
      NextId(AllRequests)
    }

    /** `ClearAll`: empties the store. */
    method ClearAll()
      modifies this
      ensures Valid() && AllRequests == []
    {
      AllRequests := [];
    }

    /** `GetRequestsByStatus`: the stored requests with this status, in store order. */
    function GetRequestsByStatus(status: string): (r: seq<Request>)
      reads this
      ensures forall x :: x in r <==> x in AllRequests && x.Status == status
    {
      Select(AllRequests, (x: Request) => x.Status == status)
    }

    /** `GetRequestsByPriority`: the stored requests with this priority, in store order. */
    function GetRequestsByPriority(priority: string): (r: seq<Request>)
      reads this
      ensures forall x :: x in r <==> x in AllRequests && x.Priority == priority
    {
      Select(AllRequests, (x: Request) => x.Priority == priority)
    }

    /** `GetRequestsByCategory`: the stored requests in this category, in store order. */
    function GetRequestsByCategory(category: string): (r: seq<Request>)
      reads this
      ensures forall x :: x in r <==> x in AllRequests && x.Category == category
    {
      Select(AllRequests, (x: Request) => x.Category == category)
    }
  }

  /**
   * With unique ids, the request at `k` is the only one with its id, so
   * removing it leaves exactly the requests with other ids.
   */
  lemma RemovedIsOnlyMatch(s: seq<Request>, k: nat)
    requires UniqueIds(s) && k < |s|
    ensures forall r :: r in s[..k] + s[k + 1..] <==> r in s && r.IssueID != s[k].IssueID
  {
    var t := s[..k] + s[k + 1..];
    forall r | r in t
      ensures r in s && r.IssueID != s[k].IssueID
    {
      var i :| 0 <= i < |t| && t[i] == r;
      var i' := if i < k then i else i + 1;
      assert t[i] == s[i'];
    }
    forall r | r in s && r.IssueID != s[k].IssueID
      ensures r in t
    {
      var i :| 0 <= i < |s| && s[i] == r;
      if i < k {
        assert t[i] == r;
      } else {
        assert t[i - 1] == r;
      }
    }
  }

  /**
   * Storing a request with the largest `int` id and one with the smallest
   * makes `GetNextId` propose an id that is in use: a request filed under
   * it is refused as a duplicate.
   */
  method WrappedNextIdRefused(a: Request, b: Request, c: Request) returns (outcome: AddOutcome)
    requires a.IssueID == Int32Max && b.IssueID == Int32Min
    ensures outcome == DuplicateId
  {
    var store := new ServiceRequestManager();
    store.ClearAll();
    var first := store.AddRequest(Some(a));
    var second := store.AddRequest(Some(b));
    NextIdWrapCollides(a, b);
    var id := store.GetNextId();
    outcome := store.AddRequest(Some(c.(IssueID := id)));
  }
}
