/** The admin request review page (client/src/pages/admin/RequestReview.jsx):
    which requests get the appointment scheduler, the guards of the status
    update and of scheduling, and when the update button is enabled. The
    page's status is a string as received from the server. */
module ReviewPage {
  import opened Prelude
  import opened Ui
  import opened RequestModel
  import opened Store
  import AdminRoutes
  import UserModel

  /** The page's own list of request types that need a visit. */
  const AppointmentTypes: seq<string> :=
    ["Irregular Enrollment", "Cross-Enrollment", "Document Submission", "Petition for Subject"]

  predicate RequiresAppointment(requestType: string) {
    requestType in AppointmentTypes
  }

  /** On every type the server accepts, the page's list agrees with the
      server catalog's `requiresAppointment` flag. */
  lemma RequiresAppointmentAgreesWithCatalog(t: RequestType)
    ensures RequiresAppointment(TypeKey(t)) == Info(t).requiresAppointment
  {
  }

  /** The list's one extra entry, Cross-Enrollment, is not a type the
      server accepts, so no stored request ever has it. */
  lemma CrossEnrollmentIsNotAType()
    ensures RequiresAppointment("Cross-Enrollment")
    ensures ParseType("Cross-Enrollment").None?
  {
  }

  /** The status radio buttons, in page order. */
  const StatusOptions: seq<string> :=
    ["Under Review", "Pending Dean Approval", "Approved", "Ready for Pickup", "Rejected"]

  /** Every option is one of the server's statuses, so the server never
      rejects the name; the workflow's other four statuses cannot be picked
      here. */
  lemma StatusOptionsAreServerStatuses(s: Status)
    ensures forall i :: 0 <= i < |StatusOptions| ==> ParseStatus(StatusOptions[i]).Some?
    ensures StatusName(s) in StatusOptions <==>
            s in {UnderReview, PendingDeanApproval, Approved, ReadyForPickup, Rejected}
  {
  }

  /** The body of the status update. */
  datatype StatusChange = StatusChange(status: string, adminComment: string)

  const RejectionReasonRequired := "Please provide a rejection reason"

  /** `handleUpdateStatus`: nothing without a selected status; a rejection
      whose comment is blank after trimming is refused on the page;
      anything else is sent with the comment as typed. */
  function UpdateStatusAction(selected: string, comment: string): (r: Outcome<StatusChange>)
    ensures r.NoCall? <==> selected == ""
    ensures r.Warn? <==> selected == "Rejected" && IsBlank(comment)
    ensures r.Warn? ==> r.message == RejectionReasonRequired
    ensures r.Call? ==> r.body == StatusChange(selected, comment)
    ensures r.Call? && selected == "Rejected" ==> comment != "" && !IsBlank(comment)
  {
    TrimEmptyIffBlank(comment);
    if selected == "" then NoCall
    else if selected == "Rejected" && Trim(comment) == "" then Warn(RejectionReasonRequired)
    else Call(StatusChange(selected, comment))
  }

  /** A rejection the page lets through always reaches the server with a
      non-blank reason, which the server stores as the request's comment. */
  lemma RejectionStoredWithReason(db: Db, id: string, comment: string, uuid: string)
    requires WellKeyed(db) && id in db.requests
    requires UpdateStatusAction("Rejected", comment).Call?
    ensures var r := AdminRoutes.UpdateRequestStatus(db, id, Some("Rejected"), Some(comment), uuid);
            && r.Ok?
            && r.value.1.status == Rejected
            && r.value.1.adminComment == Some(comment)
            && !IsBlank(comment)
  {
  }

  /** The update button is disabled while a call is in flight and while the
      selected status is the request's current one. */
  predicate UpdateButtonDisabled(actionLoading: bool, selected: string, current: string) {
    actionLoading || selected == current
  }

  /** The page selects the loaded request's status, so the button starts
      disabled; once enabled, a click either refuses a blank rejection or
      sends a status different from the current one. */
  lemma EnabledButtonSendsChange(selected: string, comment: string, current: string)
    requires current != ""
    ensures UpdateButtonDisabled(false, current, current)
    ensures !UpdateButtonDisabled(false, selected, current) && selected != "" ==>
      || UpdateStatusAction(selected, comment).Warn?
      || (UpdateStatusAction(selected, comment).Call?
          && UpdateStatusAction(selected, comment).body.status != current)
  {
  }

  /** The scheduler panel shows for a request of a visit type that has no
      appointment yet. The page tests the populated `request.appointment`,
      which is null both when there is no reference and when the reference
      dangles; the model takes the stored reference, so it differs from the
      page for a request whose appointment was deleted. */
  predicate ShowScheduler(requestType: string, appointment: Option<string>) {
    RequiresAppointment(requestType) && appointment.None?
  }

  /** On a server request, the panel shows exactly for the catalog's visit
      types without an appointment; booking from it is never refused as a
      duplicate, and once booked the panel is gone. */
  lemma SchedulerMatchesBooking(db: Db, requestId: string, day: int, slot: string,
                                notes: Option<string>, newId: string)
    requires requestId in db.requests && newId !in db.appointments
    ensures var req := db.requests[requestId];
            ShowScheduler(TypeKey(req.requestType), req.appointment) <==>
              IsVisitType(req.requestType) && req.appointment.None?
    ensures var req := db.requests[requestId];
            ShowScheduler(TypeKey(req.requestType), req.appointment) ==>
              AdminRoutes.Book(db, requestId, Some(day), slot, notes, newId) != Err(AdminRoutes.AlreadyScheduled)
    ensures var r := AdminRoutes.Book(db, requestId, Some(day), slot, notes, newId);
            r.Ok? ==> var req := r.value.0.requests[requestId];
                      !ShowScheduler(TypeKey(req.requestType), req.appointment)
  {
    RequiresAppointmentAgreesWithCatalog(db.requests[requestId].requestType);
  }

  /** The body of a booking made from the scheduler. */
  datatype Booking = Booking(date: string, timeSlot: string, notes: string)

  const DateAndSlotRequired := "Please select a date and time slot"

  /** `handleScheduleAppointment`: refused on the page unless both a date
      and a slot are picked; the notes may be empty. */
  function ScheduleAction(date: string, slot: string, notes: string): (r: Outcome<Booking>)
    ensures !r.NoCall?
    ensures r.Warn? <==> date == "" || slot == ""
    ensures r.Warn? ==> r.message == DateAndSlotRequired
    ensures r.Call? ==> r.body == Booking(date, slot, notes)
  {
    if date == "" || slot == "" then Warn(DateAndSlotRequired) else Call(Booking(date, slot, notes))
  }

  /** A booking the page sends, for a request whose scheduler is shown and
      whose student exists, is accepted by the server on the day it parses
      from the picked date: the page's guard ensures the non-empty slot the
      server needs, and the appointment stores the slot and notes as sent. */
  lemma ScheduledBookingStored(db: Db, requestId: string, date: string, slot: string, notes: string,
                               day: int, newId: string)
    requires requestId in db.requests && newId !in db.appointments
    requires ShowScheduler(TypeKey(db.requests[requestId].requestType), db.requests[requestId].appointment)
    requires UserModel.FindUser(db.users, db.requests[requestId].student).Some?
    requires ScheduleAction(date, slot, notes).Call?
    ensures var b := ScheduleAction(date, slot, notes).body;
            var r := AdminRoutes.Book(db, requestId, Some(day), b.timeSlot, Some(b.notes), newId);
            && r.Ok?
            && r.value.0.appointments[newId].date == day
            && r.value.0.appointments[newId].timeSlot == slot
            && r.value.0.appointments[newId].notes == Some(notes)
            && r.value.0.requests[requestId].appointment == Some(newId)
  {
  }
}
