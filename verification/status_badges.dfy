/** How the client pages present a request or appointment status: the
    `getStatusClass` helpers of the review page, the admin dashboard, the
    student request page and the appointments page, the `getStatusBadge`
    tables of the student dashboard and the student request list, and the
    shared `isPositiveStatus`. Statuses arrive as strings from the server,
    so every helper is total over strings, with a fallback for an unknown
    one. */
module StatusBadges {
  import opened Prelude
  import opened RequestModel

  /** `getStatusClass` of the admin review page. */
  function ReviewStatusClass(status: string): (cls: string)
    ensures cls in {"approved", "rejected", "info", "pending"}
    ensures cls == "approved" <==> status in {"Approved", "Ready for Pickup", "Released", "Completed"}
    ensures cls == "info" <==> status == "Appointment Scheduled"
    ensures cls == "rejected" <==> status == "Rejected"
  {
    if status in ["Approved", "Ready for Pickup", "Released", "Completed"] then "approved"
    else if status == "Rejected" then "rejected"
    else if status == "Appointment Scheduled" then "info"
    else "pending"
  }

  /** `getStatusClass` of the admin dashboard and of the student request
      page, which share the same code. */
  function DocumentStatusClass(status: string): (cls: string)
    ensures cls in {"approved", "rejected", "pending"}
    ensures cls == "approved" <==> status in {"Approved", "Ready for Pickup", "Released"}
    ensures cls == "rejected" <==> status == "Rejected"
  {
    if status in ["Approved", "Ready for Pickup", "Released"] then "approved"
    else if status == "Rejected" then "rejected"
    else "pending"
  }

  /** `getStatusClass` of the appointments page. */
  function AppointmentStatusClass(status: string): (cls: string)
    ensures cls in {"approved", "rejected", "pending"}
    ensures cls == "approved" <==> status == "Completed"
    ensures cls == "rejected" <==> status == "No-Show" || status == "Cancelled"
  {
    if status == "Completed" then "approved"
    else if status == "No-Show" || status == "Cancelled" then "rejected"
    else "pending"
  }

  /** The review page and the dashboard colour a status alike except for
      two: Completed (approved on the review page, pending on the
      dashboard) and Appointment Scheduled (info against pending). */
  lemma ReviewAndDashboardClassesDiffer(status: string)
    ensures ReviewStatusClass(status) != DocumentStatusClass(status) <==>
            status == "Completed" || status == "Appointment Scheduled"
    ensures ReviewStatusClass("Completed") == "approved" && DocumentStatusClass("Completed") == "pending"
  {
  }

  datatype Badge = Badge(text: string, cls: string)

  /** `getStatusBadge` of the student request list: a fixed entry for each
      of the nine statuses; any other status is shown as itself, pending. */
  function StatusPageBadge(status: string): (b: Badge)
    ensures ParseStatus(status).None? ==> b == Badge(status, "pending")
    ensures b.cls == "pending-dean" <==> status == "Pending Dean Approval"
    ensures status == "Appointment Scheduled" ==> b == Badge("Scheduled", "info")
  {
    match status
    case "Submitted" => Badge("Submitted", "pending")
    case "Under Review" => Badge("Under Review", "pending")
    case "Pending Dean Approval" => Badge("Pending Dean Approval", "pending-dean")
    case "Appointment Scheduled" => Badge("Scheduled", "info")
    case "Approved" => Badge("Approved", "approved")
    case "Ready for Pickup" => Badge("Ready for Pickup", "ready")
    case "Rejected" => Badge("Rejected", "rejected")
    case "Released" => Badge("Released", "approved")
    case "Completed" => Badge("Completed", "completed")
    case _ => Badge(status, "pending")
  }

  /** `getStatusBadge` of the student dashboard: upper-case labels, and an
      unknown status is shown upper-cased, pending. */
  function DashboardBadge(status: string): (b: Badge)
    ensures ParseStatus(status).None? ==> b == Badge(Upper(status), "pending")
  {
    match status
    case "Submitted" => Badge("SUBMITTED", "pending")
    case "Under Review" => Badge("UNDER REVIEW", "pending")
    case "Pending Dean Approval" => Badge("PENDING DEAN", "pending-dean")
    case "Appointment Scheduled" => Badge("SCHEDULED", "info")
    case "Approved" => Badge("APPROVED", "approved")
    case "Ready for Pickup" => Badge("READY FOR PICKUP", "ready")
    case "Rejected" => Badge("REJECTED", "rejected")
    case "Released" => Badge("RELEASED", "approved")
    case "Completed" => Badge("COMPLETED", "completed")
    case _ => Badge(Upper(status), "pending")
  }

  /** The two badge tables give every status the same class. */
  lemma BadgeClassesAgree(status: string)
    ensures DashboardBadge(status).cls == StatusPageBadge(status).cls
  {
  }

  /** The dashboard's label is the request list's label upper-cased, for
      every status but one. */
  lemma BadgeLabelsAgree(status: string)
    ensures status != "Pending Dean Approval" ==>
            DashboardBadge(status).text == Upper(StatusPageBadge(status).text)
  {
    match status
    case "Submitted" => UpperIs("Submitted", "SUBMITTED");
    case "Under Review" => UpperIs("Under Review", "UNDER REVIEW");
    case "Pending Dean Approval" =>
    case "Appointment Scheduled" => UpperIs("Scheduled", "SCHEDULED");
    case "Approved" => UpperIs("Approved", "APPROVED");
    case "Ready for Pickup" => UpperIs("Ready for Pickup", "READY FOR PICKUP");
    case "Rejected" => UpperIs("Rejected", "REJECTED");
    case "Released" => UpperIs("Released", "RELEASED");
    case "Completed" => UpperIs("Completed", "COMPLETED");
    case _ =>
  }

  /** The one exception: the dashboard shortens Pending Dean Approval to
      "PENDING DEAN". */
  lemma PendingDeanShortened()
    ensures DashboardBadge("Pending Dean Approval").text != Upper(StatusPageBadge("Pending Dean Approval").text)
  {
    assert StatusPageBadge("Pending Dean Approval").text == "Pending Dean Approval";
    assert DashboardBadge("Pending Dean Approval").text == "PENDING DEAN";
    assert |Upper("Pending Dean Approval")| == 21;
  }

  /** Upper-casing a string character by character. */
  lemma UpperIs(s: string, t: string)
    requires |s| == |t| && forall i :: 0 <= i < |s| ==> UpperChar(s[i]) == t[i]
    ensures Upper(s) == t
  {
  }

  /** `isPositiveStatus`, identical on the student dashboard and the
      student request list. */
  predicate IsPositiveStatus(status: string) {
    status in ["Approved", "Ready for Pickup", "Released", "Completed"]
  }

  /** A status counts as positive exactly when its badge is one of the
      three good-news classes. */
  lemma PositiveIffGoodBadge(status: string)
    ensures IsPositiveStatus(status) <==> StatusPageBadge(status).cls in {"approved", "ready", "completed"}
    ensures IsPositiveStatus(status) <==> DashboardBadge(status).cls in {"approved", "ready", "completed"}
  {
    BadgeClassesAgree(status);
  }

  /** Each of the server's nine statuses has its own entry in the badge
      table: none falls through to the fallback, and no two share a label. */
  lemma EveryServerStatusHasBadge(s: Status, t: Status)
    ensures StatusPageBadge(StatusName(s)).text != StatusName(s) ==> s == AppointmentScheduled
    ensures s != t ==> StatusPageBadge(StatusName(s)).text != StatusPageBadge(StatusName(t)).text
  {
  }
}
