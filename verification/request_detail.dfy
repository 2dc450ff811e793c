/** The student's request page (client/src/pages/student/RequestDetail.jsx):
    the five-step status timeline and when the pickup QR code is shown. Its
    badge class is StatusBadges.DocumentStatusClass. */
module RequestDetail {
  import opened Prelude
  import opened RequestModel
  import opened Store
  import AdminRoutes

  /** The timeline's step keys, in order. */
  const StatusSteps: seq<string> :=
    ["Submitted", "Under Review", "Pending Dean Approval", "Approved", "Ready for Pickup"]

  function KeyIs(status: string): string -> bool {
    key => key == status
  }

  /** `getCurrentStepIndex`: -1 for a rejection, one past the last step for
      a release, otherwise the status's position among the steps, or -1
      when it is not a step. */
  function StepIndex(status: string): (r: int)
    ensures -1 <= r <= |StatusSteps|
    ensures r == |StatusSteps| <==> status == "Released"
    ensures 0 <= r < |StatusSteps| ==> StatusSteps[r] == status
    ensures r == -1 <==> status == "Rejected" || (status != "Released" && status !in StatusSteps)
  {
    if status == "Rejected" then -1
    else if status == "Released" then |StatusSteps|
    else match FindFirst(StatusSteps, KeyIs(status))
      case None => -1
      case Some(i) => i
  }

  /** How the timeline draws step `i`. */
  datatype StepMark = StepMark(done: bool, current: bool, failed: bool)

  function Mark(status: string, i: nat): (m: StepMark)
    requires i < |StatusSteps|
    ensures m.done ==> !m.current
    ensures m.failed <==> status == "Rejected" && i == 0
  {
    var cur := StepIndex(status);
    StepMark(i < cur, i == cur, status == "Rejected" && i == 0)
  }

  /** For a status on the timeline, the steps before it are done, it is
      the current one, and the steps after it are neither. */
  lemma MarksFollowTheStatus(k: nat, i: nat)
    requires k < |StatusSteps| && i < |StatusSteps|
    ensures Mark(StatusSteps[k], i).done <==> i < k
    ensures Mark(StatusSteps[k], i).current <==> i == k
    ensures !Mark(StatusSteps[k], i).failed
  {
    var cur := StepIndex(StatusSteps[k]);
    assert cur == k by {
      assert StatusSteps[k] != "Rejected" && StatusSteps[k] != "Released";
      assert 0 <= cur < |StatusSteps| && StatusSteps[cur] == StatusSteps[k];
    }
  }

  /** A released request has every step done and none current; a rejected
      one has none done, none current and the first step failed. */
  lemma ReleasedAndRejectedTimelines(i: nat)
    requires i < |StatusSteps|
    ensures Mark("Released", i) == StepMark(true, false, false)
    ensures Mark("Rejected", i) == StepMark(false, false, i == 0)
  {
  }

  /** The two statuses an appointment brings, Appointment Scheduled and
      Completed, are not on the timeline: it then shows no progress at all,
      even for a completed request. */
  lemma VisitStatusesShowNoProgress(status: string, i: nat)
    requires status == "Appointment Scheduled" || status == "Completed"
    requires i < |StatusSteps|
    ensures Mark(status, i) == StepMark(false, false, false)
  {
  }

  /** The pickup QR code shows when the request has a code and is Approved
      or Ready for Pickup; a released request no longer shows it. */
  predicate QrVisible(qrCode: Option<string>, status: string) {
    Present(qrCode) && (status == "Approved" || status == "Ready for Pickup")
  }

  /** Approving a request on the server makes its code appear on the page. */
  lemma ApprovalShowsQr(db: Db, id: string, status: string, uuid: string)
    requires WellKeyed(db)
    requires status == "Approved" || status == "Ready for Pickup"
    requires AdminRoutes.UpdateRequestStatus(db, id, Some(status), None, uuid).Ok?
    ensures var req := AdminRoutes.UpdateRequestStatus(db, id, Some(status), None, uuid).value.1;
            QrVisible(req.qrCode, StatusName(req.status))
  {
  }

  /** Releasing hides the code from the student although the server still
      verifies it. */
  lemma ReleaseHidesQr(db: Db, id: string)
    requires WellKeyed(db) && QrCodesUnique(db.requests)
    requires AdminRoutes.Release(db, id).Ok? && db.requests[id].qrCode.Some?
    ensures var req := AdminRoutes.Release(db, id).value.1;
            !QrVisible(req.qrCode, StatusName(req.status))
    ensures AdminRoutes.Verify(AdminRoutes.Release(db, id).value.0, db.requests[id].qrCode.value).Ok?
  {
    AdminRoutes.ReleasedStillVerifies(db, id);
  }
}
