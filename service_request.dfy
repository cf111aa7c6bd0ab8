/**
 * The service-request record (ServiceRequest.cs). Records are objects: the
 * store hands the same object to its list, its search tree, its heap and its
 * graph, and an update of status or priority is seen through all of them.
 * Dates are whole day numbers; `DateTime.Now` is passed in by the caller.
 */
module ServiceRequests {

  class ServiceRequest {
    var IssueID: string
    var Title: string
    var Category: string
    var Status: string
    var Priority: string
    var DateReported: int
    var Description: string
    var Reporter: string
    var Email: string
    var StreetAddress: string

    /** The parameterless constructor; `now` is the day `DateTime.Now` falls on. */
    constructor (now: int)
      ensures IssueID == "" && Title == "" && Category == ""
      ensures Status == "Pending" && Priority == "Medium" && Reporter == "Anonymous"
      ensures Description == "" && Email == "" && StreetAddress == ""
      ensures DateReported == now
    {
      IssueID := "";
      Title := "";
      Category := "";
      Status := "Pending";
      Priority := "Medium";
      DateReported := now;
      Description := "";
      Reporter := "Anonymous";
      Email := "";
      StreetAddress := "";
    }

    /** The day by which the request must be resolved. */
    function SLADeadline(): (deadline: int)
      reads this
      ensures DateReported < deadline <= DateReported + 14
      ensures deadline - DateReported == SlaOffsetDays(Priority)
    {
      DateReported + SlaOffsetDays(Priority)
    }
  }

  /** The four priorities the application offers, most urgent first. */
  const Priorities: seq<string> := ["Critical", "High", "Medium", "Low"]

  /** Days granted by the SLA for a priority; an unknown priority gets the Medium allowance. */
  function SlaOffsetDays(priority: string): (days: nat)
    ensures 1 <= days <= 14
    ensures priority !in Priorities ==> days == 7
  {
    match priority
    case "Critical" => 1
    case "High" => 3
    case "Medium" => 7
    case "Low" => 14
    case _ => 7
  }

  /** The table itself. */
  lemma SlaTable()
    ensures SlaOffsetDays("Critical") == 1 && SlaOffsetDays("High") == 3
    ensures SlaOffsetDays("Medium") == 7 && SlaOffsetDays("Low") == 14
  {
  }

  /** A more urgent priority never gets a later deadline than a less urgent one. */
  lemma SlaMonotone(i: nat, j: nat)
    requires i <= j < |Priorities|
    ensures SlaOffsetDays(Priorities[i]) <= SlaOffsetDays(Priorities[j])
  {
  }

  /**
   * `ServiceRequest.GetPriorityValue()`, which the heap orders by. Its
   * definition is not part of this model; this table (Critical 4, High 3,
   * Medium 2, Low 1, anything else 0) stands in for it, and no proof about the
   * heap depends on its values.
   */
  function GetPriorityValue(priority: string): int
  {
    match priority
    case "Critical" => 4
    case "High" => 3
    case "Medium" => 2
    case "Low" => 1
    case _ => 0
  }
}
