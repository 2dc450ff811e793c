/** The appointment document (server/models/Appointment.js): required fields,
    the status enum and default, and the populate policy that resolves the
    student but leaves the request as a bare id. Dates are day numbers. */
module AppointmentModel {
  import opened Prelude
  import UserModel

  datatype AppointmentStatus = Scheduled | Completed | NoShow | Cancelled

  const DefaultAppointmentStatus: AppointmentStatus := Scheduled

  function AppointmentStatusName(s: AppointmentStatus): string {
    match s
    case Scheduled => "Scheduled"
    case Completed => "Completed"
    case NoShow => "No-Show"
    case Cancelled => "Cancelled"
  }

  function ParseAppointmentStatus(name: string): (r: Option<AppointmentStatus>)
    ensures r.Some? ==> AppointmentStatusName(r.value) == name
    ensures r.None? ==> forall s :: AppointmentStatusName(s) != name
  {
    if name == "Scheduled" then Some(Scheduled)
    else if name == "Completed" then Some(Completed)
    else if name == "No-Show" then Some(NoShow)
    else if name == "Cancelled" then Some(Cancelled)
    else None
  }

  datatype Appointment = Appointment(
    id: string,
    student: string,
    request: string,
    date: int,
    timeSlot: string,
    purpose: string,
    status: AppointmentStatus,
    notes: Option<string>)

  const AppointmentValidationFailed := HttpError(500, "Appointment validation failed")

  /** `Appointment.create` validation: student, request, date, timeSlot and
      purpose are required (a required string must be non-empty); the status,
      when given, is one of the four values and otherwise Scheduled; notes
      are optional and stored as given. */
  function NewAppointment(id: string, student: Option<string>, request: Option<string>,
                          date: Option<int>, timeSlot: string, purpose: string,
                          status: Option<string>, notes: Option<string>): (r: Result<Appointment>)
    ensures r.Ok? <==> && student.Some? && request.Some? && date.Some?
                       && timeSlot != "" && purpose != ""
                       && (status.None? || ParseAppointmentStatus(status.value).Some?)
    ensures r.Ok? ==> && r.value.id == id
                      && r.value.student == student.value
                      && r.value.request == request.value
                      && r.value.date == date.value
                      && r.value.timeSlot == timeSlot
                      && r.value.purpose == purpose
                      && r.value.notes == notes
                      && (status.None? ==> r.value.status == Scheduled)
                      && (status.Some? ==> AppointmentStatusName(r.value.status) == status.value)
    ensures r.Err? ==> r.error.code == 500
  {
    if student.None? || request.None? || date.None? || timeSlot == "" || purpose == "" then
      Err(AppointmentValidationFailed)
    else if status.None? then
      Ok(Appointment(id, student.value, request.value, date.value, timeSlot, purpose,
                     DefaultAppointmentStatus, notes))
    else match ParseAppointmentStatus(status.value)
      case None => Err(AppointmentValidationFailed)
      case Some(s) =>
        Ok(Appointment(id, student.value, request.value, date.value, timeSlot, purpose, s, notes))
  }

  /** An appointment as every `find` returns it. */
  datatype AppointmentView = AppointmentView(
    id: string,
    student: Option<UserModel.StudentInfo>,
    request: string,
    date: int,
    timeSlot: string,
    purpose: string,
    status: AppointmentStatus,
    notes: Option<string>)

  /** The `pre(/^find/)` populate policy: the student reference is resolved
      (name, studentId, email, program) and the request reference is left as
      the bare id, so that no lookup cycles back through the request. */
  function Populate(a: Appointment, users: seq<UserModel.User>): (v: AppointmentView)
    ensures v.request == a.request
    ensures v.student.Some? <==> exists u :: u in users && u.id == a.student
    ensures v.student.Some? ==> v.student.value.id == a.student && v.student.value.yearLevel.None?
    ensures (v.id, v.date, v.timeSlot, v.purpose, v.status, v.notes)
         == (a.id, a.date, a.timeSlot, a.purpose, a.status, a.notes)
  {
    AppointmentView(a.id, UserModel.PopulateStudent(users, a.student, false), a.request,
                    a.date, a.timeSlot, a.purpose, a.status, a.notes)
  }
}
