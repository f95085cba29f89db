/** getStatusClass: the badge class of an order, billing or result status, compared case-insensitively. */
module Status {
  import opened Text

  function StatusClass(status: string): (cls: string)
    ensures cls == "status-success" <==> ToLower(status) == "completed"
    ensures cls == "status-warning" <==> ToLower(status) == "in progress"
    ensures cls == "status-pending" <==> ToLower(status) == "pending"
    ensures cls == "status-info" <==> ToLower(status) !in {"completed", "in progress", "pending"}
  {
    match ToLower(status)
    case "completed" => "status-success"
    case "in progress" => "status-warning"
    case "pending" => "status-pending"
    case _ => "status-info"
  }

  /** Statuses that differ only in letter case get the same class. */
  lemma StatusClassIgnoresCase(a: string, b: string)
    requires ToLower(a) == ToLower(b)
    ensures StatusClass(a) == StatusClass(b)
  {
  }

  lemma StatusClassOfLowered(s: string)
    ensures StatusClass(ToLower(s)) == StatusClass(s)
  {
    ToLowerFacts(s);
  }

  /** The statuses the pages show; a hyphenated "in-progress" is not recognised and falls to the default. */
  lemma StatusClassExamples()
    ensures StatusClass("Completed") == "status-success"
    ensures StatusClass("In Progress") == "status-warning"
    ensures StatusClass("pending") == "status-pending"
    ensures StatusClass("Finalized") == "status-info"
    ensures StatusClass("in-progress") == "status-info"
  {
    assert ToLower("Completed") == "completed";
    assert ToLower("In Progress") == "in progress";
    assert ToLower("pending") == "pending";
    assert ToLower("Finalized") == "finalized";
    assert ToLower("in-progress") == "in-progress";
  }
}
