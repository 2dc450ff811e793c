/** The admin appointments page (client/src/pages/admin/Appointments.jsx):
    the status filter, the badge class and the per-row actions. The edit
    dialog's slot list and save guard are in EditSlots. */
module AppointmentsPage {
  import opened Prelude
  import opened Store
  import AM = AppointmentModel
  import AdminRoutes
  import StatusBadges

  /** One row of the table, as the page receives it: the request is a bare
      id and the status is a string. */
  datatype AppointmentRow = AppointmentRow(id: string, request: string, timeSlot: string, status: string)

  /** The row the server's listing yields for a stored appointment. */
  function RowOf(a: AM.Appointment): AppointmentRow {
    AppointmentRow(a.id, a.request, a.timeSlot, AM.AppointmentStatusName(a.status))
  }

  function StatusIs(status: string): AppointmentRow -> bool {
    (row: AppointmentRow) => row.status == status
  }

  /** `filteredAppointments`: every row under "all", otherwise exactly the
      rows whose status equals the filter, in their original order. */
  function FilterAppointments(rows: seq<AppointmentRow>, filter: string): (r: seq<AppointmentRow>)
    ensures filter == "all" ==> r == rows
    ensures filter != "all" ==> forall x :: x in r <==> x in rows && x.status == filter
    ensures |r| <= |rows|
  {
    if filter == "all" then rows
    else
      FilterSpec(rows, StatusIs(filter));
      CountBounded(rows, StatusIs(filter));
      Filter(rows, StatusIs(filter))
  }

  /** Choosing the same filter again changes nothing. */
  lemma FilterAgainIsStable(rows: seq<AppointmentRow>, filter: string)
    ensures FilterAppointments(FilterAppointments(rows, filter), filter) == FilterAppointments(rows, filter)
  {
    if filter != "all" {
      FilterIdempotent(rows, StatusIs(filter));
    }
  }

  /** What the actions cell holds: the Complete, No-Show and Edit buttons,
      or a link to the appointment's request. */
  datatype RowActions = StatusButtons | ViewRequest(requestId: string)

  /** The buttons appear only for a Scheduled appointment; every other row
      gets the link instead, never both. */
  function RowActionsOf(row: AppointmentRow): (r: RowActions)
    ensures r.StatusButtons? <==> row.status == "Scheduled"
    ensures r.ViewRequest? ==> r.requestId == row.request
  {
    if row.status == "Scheduled" then StatusButtons else ViewRequest(row.request)
  }

  /** A stored appointment's badge is neutral ("pending") exactly while it
      is Scheduled, which is exactly when its row has buttons. */
  lemma PendingBadgeIffButtons(a: AM.Appointment)
    ensures StatusBadges.AppointmentStatusClass(RowOf(a).status) == "pending" <==> a.status == AM.Scheduled
    ensures RowActionsOf(RowOf(a)).StatusButtons? <==> a.status == AM.Scheduled
  {
  }

  /** Pressing Complete or No-Show settles the appointment on the server:
      its row loses the buttons, and the linked request moves on
      (Completed, or back to Under Review). */
  lemma ButtonsSettleAppointment(db: Db, id: string, pressed: string)
    requires id in db.appointments && db.appointments[id].status == AM.Scheduled
    requires pressed == "Completed" || pressed == "No-Show"
    ensures RowActionsOf(RowOf(db.appointments[id])).StatusButtons?
    ensures var r := AdminRoutes.UpdateAppointment(db, id, None, None, Some(pressed), None);
            && r.Ok?
            && RowActionsOf(RowOf(r.value.0.appointments[id])) == ViewRequest(db.appointments[id].request)
            && r.value.0.requests == AdminRoutes.Cascade(db.requests, db.appointments[id].request, Some(pressed))
  {
  }
}
