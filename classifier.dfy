/** The status rule of app.py lines 45-53. */
module Classifier {

  datatype Status = Completed | NotStarted | InProgress

  /** The label line 57 counts. */
  const CompletedLabel := "\U{2705} Completed"

  /** The text the script stores in the `Status` column (lines 47-51). */
  function Label(s: Status): (name: string)
    ensures name == CompletedLabel <==> s == Completed
  {
    match s
    case Completed => CompletedLabel
    case NotStarted =>
      var name := "\U{1F6D1} Not Started";
      assert name[2] != CompletedLabel[2];
      name
    case InProgress =>
      var name := "\U{23F3} In Progress";
      assert name[2] != CompletedLabel[2];
      name
  }

  /**
   * `determine_status` (lines 45-51): the Completed test runs first, then
   * the zero test; everything else is in progress.
   */
  function DetermineStatus(required: real, completed: real): (s: Status)
    ensures s == Completed <==> 0.0 < required <= completed
    ensures s == NotStarted <==> completed == 0.0
    ensures s == InProgress <==> completed != 0.0 && (required <= 0.0 || completed < required)
  {
    if completed >= required && required > 0.0 then Completed
    else if completed == 0.0 then NotStarted
    else InProgress
  }

  /** A course that requires no days is never Completed: with nothing done it has not started, otherwise it is in progress. */
  lemma ZeroRequiredNeverCompleted(completed: real)
    ensures DetermineStatus(0.0, completed) == (if completed == 0.0 then NotStarted else InProgress)
  {
  }

  /** Distinct statuses have distinct labels, so counting labels (line 57) counts statuses. */
  lemma LabelsDistinct(s: Status, t: Status)
    ensures Label(s) == Label(t) <==> s == t
  {
    assert Label(Completed)[2] != Label(NotStarted)[2];
    assert Label(Completed)[2] != Label(InProgress)[2];
    assert Label(NotStarted)[2] != Label(InProgress)[2];
  }
}
