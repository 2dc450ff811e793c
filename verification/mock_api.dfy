/** The client's in-memory demo backend (client/src/services/mockApi.js):
    arrays of requests, appointments and announcements that the handlers
    search, prepend to, append to, merge into and splice. It deliberately
    differs from the server: it checks no duplicate appointment, cascades
    nothing, and merges the body of a PUT into the record.

    The network delay, the random ids and the random slot availability
    are left out; ids and clock readings are inputs. A thrown axios-style
    error is an `Err` with its status and message; a JavaScript TypeError
    (reading a field of null) is the error `Crash`. */
module MockApi {
  import opened Prelude
  import Slots

  const Crash := HttpError(0, "TypeError")
  const MockRequestNotFound := HttpError(404, "Request not found")
  const MockAppointmentNotFound := HttpError(404, "Appointment not found")
  const MockInvalidCredentials := HttpError(401, "Invalid credentials")

  /** The two fixed demo accounts; `getCurrentUser` only ever returns one
      of them. */
  datatype MockUser = SeedStudent | SeedAdmin

  function MockUserId(u: MockUser): string {
    match u
    case SeedStudent => "student001"
    case SeedAdmin => "admin001"
  }

  /** The appointment a request points to: none, the very object held in
      the appointment list (set by the booking handler, so later edits of
      that appointment show through it), or an embedded copy (the seeded
      requests), which nothing updates. */
  datatype AppointmentRef =
    | NoAppointment
    | Linked(id: string)
    | Embedded(id: string, date: string, timeSlot: string, status: string)

  /** A request or appointment holds a copy of its student's record; the
      model keeps the record's `_id` (the seeded data also names students
      other than the two demo accounts), and None for a null student. */
  datatype MockRequest = MockRequest(
    id: string,
    student: Option<string>,
    requestType: string,
    reason: string,
    status: string,
    adminComment: Option<string>,
    qrCode: string,
    appointment: AppointmentRef,
    createdAt: int)

  /** The `{_id, requestType}` summary an appointment keeps of its request. */
  datatype RequestSummary = RequestSummary(id: string, requestType: string)

  datatype MockAppointment = MockAppointment(
    id: string,
    student: Option<string>,
    request: RequestSummary,
    date: string,
    timeSlot: string,
    purpose: string,
    status: string,
    notes: string)

  datatype MockAnnouncement = MockAnnouncement(
    id: string,
    title: string,
    message: string,
    kind: string,
    isActive: bool,
    createdAt: int)

  datatype MockDb = MockDb(
    requests: seq<MockRequest>,
    appointments: seq<MockAppointment>,
    announcements: seq<MockAnnouncement>)

  // ---------------------------------------------------------------------
  // Session
  // ---------------------------------------------------------------------

  /** `getCurrentUser`: the role is the second "_"-separated field of the
      stored token ("mock_<role>_<time>"); only the two seeded roles name
      a user. */
  function GetCurrentUser(token: Option<string>): (r: Option<MockUser>)
    ensures !Present(token) ==> r.None?
    ensures r == Some(SeedStudent) <==> Present(token) && Field(token.value, '_', 1) == Some("student")
    ensures r == Some(SeedAdmin) <==> Present(token) && Field(token.value, '_', 1) == Some("admin")
  {
    if !Present(token) then None
    else match Field(token.value, '_', 1)
      case Some(role) =>
        if role == "student" then Some(SeedStudent)
        else if role == "admin" then Some(SeedAdmin)
        else None
      case None => None
  }

  function RoleOf(u: MockUser): string {
    match u
    case SeedStudent => "student"
    case SeedAdmin => "admin"
  }

  /** The token the mock login and register hand out. */
  function MockToken(u: MockUser, now: nat): string {
    "mock_" + RoleOf(u) + "_" + NatToString(now)
  }

  /** A token handed out at any time leads back to the account it was
      issued for. */
  lemma {:induction false} TokenRoundTrip(u: MockUser, now: nat)
    ensures GetCurrentUser(Some(MockToken(u, now))) == Some(u)
  {
    assert forall j :: 0 <= j < |RoleOf(u)| ==> RoleOf(u)[j] != '_';
    TokenField(RoleOf(u), NatToString(now));
  }

  /** The second '_'-separated field of a token is its role. */
  lemma TokenField(role: string, digits: string)
    requires forall j :: 0 <= j < |role| ==> role[j] != '_'
    ensures Field("mock_" + role + "_" + digits, '_', 1) == Some(role)
  {
    assert "mock_" + role + "_" + digits == "mock" + ['_'] + (role + ['_'] + digits);
    FieldAfterHead("mock", '_', role + ['_'] + digits, 0);
    FieldAfterHead(role, '_', digits, 0);
  }

  /** POST /auth/login: the admin account needs the admin role and an
      e-mail containing "admin" (a missing e-mail then throws); the student
      role always succeeds; anything else is refused. */
  function MockLogin(email: Option<string>, role: Option<string>, now: nat): (r: Result<(string, MockUser)>)
    ensures r.Ok? <==> || (role == Some("admin") && email.Some? && Contains(email.value, "admin"))
                       || role == Some("student")
    ensures r.Ok? ==> GetCurrentUser(Some(r.value.0)) == Some(r.value.1)
    ensures r.Ok? ==> Some(RoleOf(r.value.1)) == role
    ensures r.Err? && role != Some("admin") ==> r.error == MockInvalidCredentials
  {
    if role == Some("admin") && email.None? then Err(Crash)
    else if role == Some("admin") && Contains(email.value, "admin") then
      TokenRoundTrip(SeedAdmin, now);
      Ok((MockToken(SeedAdmin, now), SeedAdmin))
    else if role == Some("student") then
      TokenRoundTrip(SeedStudent, now);
      Ok((MockToken(SeedStudent, now), SeedStudent))
    else Err(MockInvalidCredentials)
  }

  /** The body of POST /auth/register, key by key; None is a key the body
      does not carry. The register page sends every field but `_id`,
      including the password in plain text. */
  datatype RegisterBody = RegisterBody(
    id: Option<string>,
    role: Option<string>,
    studentId: Option<string>,
    name: Option<string>,
    email: Option<string>,
    password: Option<string>,
    program: Option<string>,
    yearLevel: Option<int>)

  /** The account object the mock register returns:
      `{_id: 'student_' + id, role: 'student', ...data}`. */
  datatype RegisteredUser = RegisteredUser(
    id: string,
    role: string,
    studentId: Option<string>,
    name: Option<string>,
    email: Option<string>,
    password: Option<string>,
    program: Option<string>,
    yearLevel: Option<int>)

  /** `{...defaults, ...data}` on one key: the body's value wins when the
      body carries the key. */
  function Spread<T>(default: T, body: Option<T>): T {
    if body.Some? then body.value else default
  }

  /** POST /auth/register: always succeeds. The body is spread over the
      defaults, so it can replace the generated id and the student role,
      and the account handed back echoes every field it sent, the
      plain-text password included. The token names the student role, so
      the session that follows is the seeded student's, not the account
      just returned. */
  function MockRegister(body: RegisterBody, genId: string, now: nat): (r: (string, RegisteredUser))
    ensures body.id.None? ==> r.1.id == "student_" + genId
    ensures body.id.Some? ==> r.1.id == body.id.value
    ensures r.1.role == (if body.role.Some? then body.role.value else "student")
    ensures r.1.password == body.password
    ensures (r.1.studentId, r.1.name, r.1.email) == (body.studentId, body.name, body.email)
    ensures (r.1.program, r.1.yearLevel) == (body.program, body.yearLevel)
    ensures GetCurrentUser(Some(r.0)) == Some(SeedStudent)
  {
    TokenRoundTrip(SeedStudent, now);
    (MockToken(SeedStudent, now),
     RegisteredUser(Spread("student_" + genId, body.id), Spread("student", body.role),
                    body.studentId, body.name, body.email, body.password, body.program, body.yearLevel))
  }

  // ---------------------------------------------------------------------
  // Reads
  // ---------------------------------------------------------------------

  predicate OwnedBy(r: MockRequest, u: MockUser) {
    r.student == Some(MockUserId(u))
  }

  /** The `_id` of the session's user, None without a session. */
  function SessionId(token: Option<string>): Option<string> {
    match GetCurrentUser(token)
    case None => None
    case Some(u) => Some(MockUserId(u))
  }

  /** GET /requests: `filter(r => r.student._id === user._id)`. A request
      created without a session has a null student, and a missing session
      is a null user: either makes the filter throw, the latter only when
      there is a request to test. */
  function MockListRequests(db: MockDb, token: Option<string>): (r: Result<seq<MockRequest>>)
    ensures r.Err? <==> || (exists i :: 0 <= i < |db.requests| && db.requests[i].student.None?)
                        || (db.requests != [] && GetCurrentUser(token).None?)
    ensures r.Err? ==> r.error == Crash
    ensures r.Ok? ==> forall x :: x in r.value <==>
                        x in db.requests && SessionId(token).Some? && x.student == SessionId(token)
  {
    if exists i :: 0 <= i < |db.requests| && db.requests[i].student.None? then Err(Crash)
    else if db.requests == [] then Ok([])
    else match GetCurrentUser(token)
      case None => Err(Crash)
      case Some(u) =>
        var p := (x: MockRequest) => OwnedBy(x, u);
        FilterSpec(db.requests, p);
        Ok(Filter(db.requests, p))
  }

  /** The `find` tests `x => x._id === id` of the three lists. */
  function RequestIdIs(id: string): MockRequest -> bool {
    (x: MockRequest) => x.id == id
  }

  function AppointmentIdIs(id: string): MockAppointment -> bool {
    (x: MockAppointment) => x.id == id
  }

  function AnnouncementIdIs(id: string): MockAnnouncement -> bool {
    (x: MockAnnouncement) => x.id == id
  }

  /** GET /requests/:id: the first request with that id, or 404. */
  function MockGetRequest(db: MockDb, id: string): (r: Result<MockRequest>)
    ensures r.Ok? <==> exists i :: 0 <= i < |db.requests| && db.requests[i].id == id
    ensures r.Ok? ==> r.value in db.requests && r.value.id == id
    ensures r.Ok? ==> exists i :: && 0 <= i < |db.requests| && db.requests[i] == r.value
                                  && forall j :: 0 <= j < i ==> db.requests[j].id != id
    ensures r.Err? ==> r.error == MockRequestNotFound
  {
    match FindFirst(db.requests, RequestIdIs(id))
    case None => Err(MockRequestNotFound)
    case Some(i) => Ok(db.requests[i])
  }

  /** GET /requests/announcements: the active announcements, in order,
      with no expiry test. */
  function MockAnnouncements(db: MockDb): (r: seq<MockAnnouncement>)
    ensures forall a :: a in r <==> a in db.announcements && a.isActive
  {
    FilterSpec(db.announcements, (a: MockAnnouncement) => a.isActive);
    Filter(db.announcements, (a: MockAnnouncement) => a.isActive)
  }

  datatype MockStats = MockStats(totalRequests: nat, pending: nat, approved: nat, todayAppointments: nat)

  predicate MockPending(r: MockRequest) {
    r.status == "Submitted" || r.status == "Under Review"
  }

  predicate MockApproved(r: MockRequest) {
    r.status == "Approved"
  }

  /** GET /admin/stats: the pending and approved counts are disjoint parts
      of the total; today's appointments are a fixed 2. */
  function MockGetStats(db: MockDb): (r: MockStats)
    ensures r.totalRequests == |db.requests|
    ensures r.pending == Count(db.requests, MockPending) && r.approved == Count(db.requests, MockApproved)
    ensures r.pending + r.approved <= r.totalRequests
    ensures r.todayAppointments == 2
  {
    DisjointCountsBounded(db.requests, MockPending, MockApproved, (x: MockRequest) => false);
    MockStats(|db.requests|, Count(db.requests, MockPending), Count(db.requests, MockApproved), 2)
  }

  // ---------------------------------------------------------------------
  // Writes
  // ---------------------------------------------------------------------

  /** POST /requests: a new Submitted request for the session's user (null
      without one) is put at the FRONT of the list; nothing else changes.
      `newId`, `qrCode` and `now` stand for the random ids and the clock. */
  function MockCreateRequest(db: MockDb, token: Option<string>, requestType: string, reason: string,
                             newId: string, qrCode: string, now: int): (r: (MockDb, MockRequest))
    ensures r.0.requests == [r.1] + db.requests
    ensures r.0.appointments == db.appointments && r.0.announcements == db.announcements
    ensures r.1.id == newId && r.1.status == "Submitted" && r.1.student == SessionId(token)
    ensures r.1.appointment == NoAppointment && r.1.adminComment.None?
    ensures r.1.requestType == requestType && r.1.reason == reason
    ensures r.1.qrCode == qrCode && r.1.createdAt == now
  {
    var req := MockRequest(newId, SessionId(token), requestType, reason, "Submitted",
                           None, qrCode, NoAppointment, now);
    (db.(requests := [req] + db.requests), req)
  }

  /** POST /admin/appointments: 404 for an unknown request; otherwise a
      Scheduled appointment for the first request with that id is appended,
      and that request is linked to it and marked "Appointment Scheduled".
      An existing appointment of the request is not checked for. */
  function MockCreateAppointment(db: MockDb, requestId: string, date: string, timeSlot: string,
                                 notes: Option<string>, newId: string): (r: Result<(MockDb, MockAppointment)>)
    ensures r.Err? <==> forall i :: 0 <= i < |db.requests| ==> db.requests[i].id != requestId
    ensures r.Err? ==> r.error == MockRequestNotFound
    ensures r.Ok? ==>
      var i := FindFirst(db.requests, RequestIdIs(requestId)).value;
      var (db', appt) := r.value;
      && db'.appointments == db.appointments + [appt]
      && db'.announcements == db.announcements
      && |db'.requests| == |db.requests|
      && (forall j :: 0 <= j < |db.requests| && j != i ==> db'.requests[j] == db.requests[j])
      && db'.requests[i] == db.requests[i].(appointment := Linked(newId), status := "Appointment Scheduled")
      && appt.id == newId && appt.status == "Scheduled"
      && appt.date == date && appt.timeSlot == timeSlot
      && appt.request == RequestSummary(requestId, db.requests[i].requestType)
      && appt.purpose == db.requests[i].requestType
      && appt.student == db.requests[i].student
      && appt.notes == (if Present(notes) then notes.value else "")
  {
    match FindFirst(db.requests, RequestIdIs(requestId))
    case None => Err(MockRequestNotFound)
    case Some(i) =>
      var req := db.requests[i];
      var appt := MockAppointment(newId, req.student, RequestSummary(req.id, req.requestType),
                                  date, timeSlot, req.requestType, "Scheduled",
                                  if Present(notes) then notes.value else "");
      var linked := req.(appointment := Linked(newId), status := "Appointment Scheduled");
      Ok((db.(requests := db.requests[i := linked], appointments := db.appointments + [appt]), appt))
  }

  /** Booking the same request twice succeeds twice: both appointments
      stay in the list and name the same request. */
  lemma MockBooksTwice(db: MockDb, requestId: string, date: string, slot: string, id1: string, id2: string)
    requires exists i :: 0 <= i < |db.requests| && db.requests[i].id == requestId
    ensures var first := MockCreateAppointment(db, requestId, date, slot, None, id1);
            && first.Ok?
            && var second := MockCreateAppointment(first.value.0, requestId, date, slot, None, id2);
            && second.Ok?
            && var appts := second.value.0.appointments;
            && |appts| == |db.appointments| + 2
            && appts[|appts| - 2].request.id == requestId
            && appts[|appts| - 1].request.id == requestId
            && appts[|appts| - 2].timeSlot == appts[|appts| - 1].timeSlot
  {
    var first := MockCreateAppointment(db, requestId, date, slot, None, id1);
    var i := FindFirst(db.requests, RequestIdIs(requestId)).value;
    assert first.value.0.requests[i].id == requestId;
  }

  /** The fields a PUT body may carry; `None` is a field the body leaves
      out. `Object.assign` overwrites exactly the fields present. */
  datatype RequestPatch = RequestPatch(status: Option<string>, adminComment: Option<string>)

  datatype AppointmentPatch = AppointmentPatch(date: Option<string>, timeSlot: Option<string>,
                                               status: Option<string>, notes: Option<string>)

  function Or(patch: Option<string>, current: string): string {
    if patch.Some? then patch.value else current
  }

  function MergeRequest(r: MockRequest, p: RequestPatch): (m: MockRequest)
    ensures m.(status := r.status, adminComment := r.adminComment) == r
    ensures p.status.Some? ==> m.status == p.status.value
    ensures p.status.None? ==> m.status == r.status
    ensures p.adminComment.Some? ==> m.adminComment == p.adminComment
    ensures p.adminComment.None? ==> m.adminComment == r.adminComment
  {
    r.(status := Or(p.status, r.status),
       adminComment := if p.adminComment.Some? then p.adminComment else r.adminComment)
  }

  function MergeAppointment(a: MockAppointment, p: AppointmentPatch): (m: MockAppointment)
    ensures m.(date := a.date, timeSlot := a.timeSlot, status := a.status, notes := a.notes) == a
    ensures p.date.Some? ==> m.date == p.date.value
    ensures p.timeSlot.Some? ==> m.timeSlot == p.timeSlot.value
    ensures p.status.Some? ==> m.status == p.status.value
    ensures p.notes.Some? ==> m.notes == p.notes.value
    ensures p.date.None? && p.timeSlot.None? && p.status.None? && p.notes.None? ==> m == a
  {
    a.(date := Or(p.date, a.date), timeSlot := Or(p.timeSlot, a.timeSlot),
       status := Or(p.status, a.status), notes := Or(p.notes, a.notes))
  }

  /** PUT /admin/requests/:id: merge the body into the first request with
      that id; 404 when there is none. */
  function MockPutRequest(db: MockDb, id: string, p: RequestPatch): (r: Result<MockDb>)
    ensures r.Err? <==> forall i :: 0 <= i < |db.requests| ==> db.requests[i].id != id
    ensures r.Err? ==> r.error == MockRequestNotFound
    ensures r.Ok? ==>
      var i := FindFirst(db.requests, RequestIdIs(id)).value;
      && r.value.requests == db.requests[i := MergeRequest(db.requests[i], p)]
      && r.value.appointments == db.appointments
      && r.value.announcements == db.announcements
  {
    match FindFirst(db.requests, RequestIdIs(id))
    case None => Err(MockRequestNotFound)
    case Some(i) => Ok(db.(requests := db.requests[i := MergeRequest(db.requests[i], p)]))
  }

  /** PUT /admin/appointments/:id: merge the body into the first
      appointment with that id; 404 when there is none. The request the
      appointment belongs to is not touched, whatever the new status. */
  function MockPutAppointment(db: MockDb, id: string, p: AppointmentPatch): (r: Result<MockDb>)
    ensures r.Err? <==> forall i :: 0 <= i < |db.appointments| ==> db.appointments[i].id != id
    ensures r.Err? ==> r.error == MockAppointmentNotFound
    ensures r.Ok? ==>
      var i := FindFirst(db.appointments, AppointmentIdIs(id)).value;
      && r.value.appointments == db.appointments[i := MergeAppointment(db.appointments[i], p)]
      && r.value.requests == db.requests
      && r.value.announcements == db.announcements
  {
    match FindFirst(db.appointments, AppointmentIdIs(id))
    case None => Err(MockAppointmentNotFound)
    case Some(i) => Ok(db.(appointments := db.appointments[i := MergeAppointment(db.appointments[i], p)]))
  }

  /** Merging the same body twice is merging it once. */
  lemma MockPutIdempotent(db: MockDb, id: string, p: RequestPatch, q: AppointmentPatch)
    ensures MockPutRequest(db, id, p).Ok? ==>
      MockPutRequest(MockPutRequest(db, id, p).value, id, p) == MockPutRequest(db, id, p)
    ensures MockPutAppointment(db, id, q).Ok? ==>
      MockPutAppointment(MockPutAppointment(db, id, q).value, id, q) == MockPutAppointment(db, id, q)
  {
    if MockPutRequest(db, id, p).Ok? {
      var db1 := MockPutRequest(db, id, p).value;
      FindFirstSameVerdicts(db.requests, RequestIdIs(id), db1.requests, RequestIdIs(id));
      var i := FindFirst(db.requests, RequestIdIs(id)).value;
      assert db1.requests[i := MergeRequest(db1.requests[i], p)] == db1.requests;
    }
    if MockPutAppointment(db, id, q).Ok? {
      var db1 := MockPutAppointment(db, id, q).value;
      FindFirstSameVerdicts(db.appointments, AppointmentIdIs(id), db1.appointments, AppointmentIdIs(id));
      var i := FindFirst(db.appointments, AppointmentIdIs(id)).value;
      assert db1.appointments[i := MergeAppointment(db1.appointments[i], q)] == db1.appointments;
    }
  }

  /** DELETE /admin/requests/:id: splice out the first request with that
      id; 404 when there is none. Its appointments stay in the list. */
  function MockDeleteRequest(db: MockDb, id: string): (r: Result<MockDb>)
    ensures r.Err? <==> forall i :: 0 <= i < |db.requests| ==> db.requests[i].id != id
    ensures r.Err? ==> r.error == MockRequestNotFound
    ensures r.Ok? ==>
      var i := FindFirst(db.requests, RequestIdIs(id)).value;
      && r.value.requests == RemoveAt(db.requests, i)
      && r.value.appointments == db.appointments
      && r.value.announcements == db.announcements
  {
    match FindFirst(db.requests, RequestIdIs(id))
    case None => Err(MockRequestNotFound)
    case Some(i) => Ok(db.(requests := RemoveAt(db.requests, i)))
  }

  /** Deleting a freshly created request (under an id no other request
      has) gives the store back exactly. */
  lemma MockCreateThenDelete(db: MockDb, token: Option<string>, requestType: string, reason: string,
                             newId: string, qrCode: string, now: int)
    ensures var created := MockCreateRequest(db, token, requestType, reason, newId, qrCode, now).0;
            MockDeleteRequest(created, newId) == Ok(db)
  {
    var created := MockCreateRequest(db, token, requestType, reason, newId, qrCode, now).0;
    assert created.requests[0].id == newId;
    assert FindFirst(created.requests, RequestIdIs(newId)) == Some(0);
    assert RemoveAt(created.requests, 0) == db.requests;
  }

  /** DELETE /admin/announcements/:id: splice out the first announcement
      with that id if there is one; succeeds either way. */
  function MockDeleteAnnouncement(db: MockDb, id: string): (r: MockDb)
    ensures r.requests == db.requests && r.appointments == db.appointments
    ensures (forall i :: 0 <= i < |db.announcements| ==> db.announcements[i].id != id) ==> r == db
    ensures |r.announcements| == |db.announcements|
            - (if exists i :: 0 <= i < |db.announcements| && db.announcements[i].id == id then 1 else 0)
    ensures FindFirst(db.announcements, AnnouncementIdIs(id)).Some? ==>
              r.announcements == RemoveAt(db.announcements, FindFirst(db.announcements, AnnouncementIdIs(id)).value)
  {
    match FindFirst(db.announcements, AnnouncementIdIs(id))
    case None => db
    case Some(i) => db.(announcements := RemoveAt(db.announcements, i))
  }

  /** Deleting an announcement leaves none of that id behind when ids are
      distinct, so deleting twice is deleting once. */
  lemma MockDeleteAnnouncementIdempotent(db: MockDb, id: string)
    requires forall i, j :: 0 <= i < j < |db.announcements| ==> db.announcements[i].id != db.announcements[j].id
    ensures MockDeleteAnnouncement(MockDeleteAnnouncement(db, id), id) == MockDeleteAnnouncement(db, id)
  {
    var once := MockDeleteAnnouncement(db, id);
    forall k | 0 <= k < |once.announcements|
      ensures once.announcements[k].id != id
    {
      var i := FindFirst(db.announcements, AnnouncementIdIs(id));
      if i.Some? {
        if k < i.value {
          assert once.announcements[k] == db.announcements[k];
        } else {
          assert once.announcements[k] == db.announcements[k + 1];
        }
      }
    }
  }

  /** POST /admin/announcements: `{_id, ...data, isActive: true,
      createdAt}` put at the front; the forced isActive wins over the body. */
  function MockCreateAnnouncement(db: MockDb, title: string, message: string, kind: string,
                                  newId: string, now: int): (r: MockDb)
    ensures |r.announcements| == |db.announcements| + 1 && r.announcements[1..] == db.announcements
    ensures r.announcements[0].isActive && r.announcements[0].id == newId
    ensures (r.announcements[0].title, r.announcements[0].message, r.announcements[0].kind,
             r.announcements[0].createdAt) == (title, message, kind, now)
    ensures r.requests == db.requests && r.appointments == db.appointments
  {
    db.(announcements := [MockAnnouncement(newId, title, message, kind, true, now)] + db.announcements)
  }

  /** Deleting an announcement just created, under an id no other
      announcement has, gives the store back. */
  lemma MockCreateThenDeleteAnnouncement(db: MockDb, title: string, message: string, kind: string,
                                         newId: string, now: int)
    requires forall i :: 0 <= i < |db.announcements| ==> db.announcements[i].id != newId
    ensures MockDeleteAnnouncement(MockCreateAnnouncement(db, title, message, kind, newId, now), newId) == db
  {
    var created := MockCreateAnnouncement(db, title, message, kind, newId, now);
    assert FindFirst(created.announcements, AnnouncementIdIs(newId)) == Some(0);
    assert RemoveAt(created.announcements, 0) == db.announcements;
  }

  /** A created announcement heads the student list at once, whatever the
      body said about isActive. */
  lemma MockCreatedAnnouncementShown(db: MockDb, title: string, message: string, kind: string,
                                     newId: string, now: int)
    ensures var created := MockCreateAnnouncement(db, title, message, kind, newId, now);
            MockAnnouncements(created) == [created.announcements[0]] + MockAnnouncements(db)
  {
    var created := MockCreateAnnouncement(db, title, message, kind, newId, now);
    assert created.announcements[1..] == db.announcements;
  }

  /** A request created in a session counts as pending in the admin
      statistics: the total and the pending count grow by one. */
  lemma MockCreateCountsAsPending(db: MockDb, token: Option<string>, requestType: string, reason: string,
                                  newId: string, qrCode: string, now: int)
    ensures var before := MockGetStats(db);
            var after := MockGetStats(MockCreateRequest(db, token, requestType, reason, newId, qrCode, now).0);
            && after.totalRequests == before.totalRequests + 1
            && after.pending == before.pending + 1
            && after.approved == before.approved
  {
    var created := MockCreateRequest(db, token, requestType, reason, newId, qrCode, now).0;
    assert created.requests[1..] == db.requests;
  }

  /** A student's new request shows up in their own list, provided no
      stored request lacks a student (which would make the listing throw). */
  lemma MockCreatedRequestListed(db: MockDb, token: Option<string>, requestType: string, reason: string,
                                 newId: string, qrCode: string, now: int)
    requires GetCurrentUser(token).Some?
    requires forall i :: 0 <= i < |db.requests| ==> db.requests[i].student.Some?
    ensures var (created, req) := MockCreateRequest(db, token, requestType, reason, newId, qrCode, now);
            && MockListRequests(created, token).Ok?
            && req in MockListRequests(created, token).value
  {
    var (created, req) := MockCreateRequest(db, token, requestType, reason, newId, qrCode, now);
    forall i | 0 <= i < |created.requests| ensures created.requests[i].student.Some? {
      if i > 0 {
        assert created.requests[i] == db.requests[i - 1];
      }
    }
  }

  /** The seeded requests of the other students (student002 to student004)
      never show up in a demo session's list. */
  lemma MockOtherStudentsHidden(db: MockDb, token: Option<string>, x: MockRequest)
    requires x in db.requests && x.student.Some?
    requires x.student.value != "student001" && x.student.value != "admin001"
    requires MockListRequests(db, token).Ok?
    ensures x !in MockListRequests(db, token).value
  {
  }

  // ---------------------------------------------------------------------
  // GET dispatch
  // ---------------------------------------------------------------------

  const NotAuthenticated := HttpError(401, "Not authenticated")
  const RouteNotFound := HttpError(404, "Route not found")

  /** The errors `mockApi.get` answers with. */
  predicate GetError(e: HttpError) {
    e == NotAuthenticated || e == Crash || e == MockRequestNotFound || e == RouteNotFound
  }

  /** The body of a successful `mockApi.get`. The request-type catalog is a
      fixed object and is not spelled out. */
  datatype GetResponse =
    | MeBody(user: MockUser)
    | TypesBody
    | RequestsBody(requests: seq<MockRequest>)
    | RequestBody(request: MockRequest)
    | AnnouncementsBody(announcements: seq<MockAnnouncement>)
    | AppointmentsBody(appointments: seq<MockAppointment>)
    | SlotsBody(availableSlots: seq<string>)
    | StatsBody(stats: MockStats)

  /** `url.match(/^\/requests\/[^/]+$/)`. */
  predicate IsRequestUrl(url: string) {
    && StartsWith(url, "/requests/")
    && |url| > 10
    && forall j :: 10 <= j < |url| ==> url[j] != '/'
  }

  /** `url.split('/').pop()`: what follows the last '/'. */
  function LastSegment(url: string): (seg: string)
    ensures |seg| <= |url| && seg == url[|url| - |seg|..]
    ensures forall j :: 0 <= j < |seg| ==> seg[j] != '/'
  {
    match LastIndexOfChar(url, '/')
    case None => url
    case Some(i) => url[i + 1..]
  }

  function AsRequests(rs: Result<seq<MockRequest>>): (r: Result<GetResponse>)
    ensures r.Err? <==> rs.Err?
    ensures r.Err? ==> r.error == rs.error
  {
    match rs
    case Ok(v) => Ok(RequestsBody(v))
    case Err(e) => Err(e)
  }

  function AsRequest(rq: Result<MockRequest>): (r: Result<GetResponse>)
    ensures r.Err? <==> rq.Err?
    ensures r.Err? ==> r.error == rq.error
  {
    match rq
    case Ok(v) => Ok(RequestBody(v))
    case Err(e) => Err(e)
  }

  /** Which branch of `mockApi.get` a URL reaches: the URL tests in the
      handler's order, the first that matches wins. */
  datatype GetRoute = Me | Types | OwnRequests | RequestById | Announcements
                    | AdminRequests | AdminRequestById | AdminAppointments
                    | AdminSlots | AdminAnnouncements | AdminStats | NoRoute

  function RouteOf(url: string): GetRoute {
    if url == "/auth/me" then Me
    else if url == "/requests/types" then Types
    else if url == "/student/requests" || url == "/requests" then OwnRequests
    else if StartsWith(url, "/student/requests/") || IsRequestUrl(url) then RequestById
    else if url == "/student/announcements" || url == "/requests/announcements" then Announcements
    else if url == "/admin/requests" then AdminRequests
    else if StartsWith(url, "/admin/requests/") then AdminRequestById
    else if url == "/admin/appointments" then AdminAppointments
    else if StartsWith(url, "/admin/slots") then AdminSlots
    else if url == "/admin/announcements" then AdminAnnouncements
    else if url == "/admin/stats" then AdminStats
    else NoRoute
  }

  /** "/auth/me": the session's user, or 401 without one. */
  function MeAnswer(token: Option<string>): (r: Result<GetResponse>)
    ensures r.Err? <==> GetCurrentUser(token).None?
    ensures r.Err? ==> r.error == NotAuthenticated
    ensures r.Ok? ==> r.value == MeBody(GetCurrentUser(token).value)
  {
    match GetCurrentUser(token)
    case None => Err(NotAuthenticated)
    case Some(u) => Ok(MeBody(u))
  }

  /** "/admin/slots": the catalog slots the coin keeps, in catalog order. */
  function AvailableSlots(keepSlot: string -> bool): (r: seq<string>)
    ensures forall s :: s in r <==> s in Slots.SlotCatalog && keepSlot(s)
  {
    FilterSpec(Slots.SlotCatalog, keepSlot);
    Filter(Slots.SlotCatalog, keepSlot)
  }

  /** The answer of the branch `route` of `mockApi.get`. `keepSlot` stands
      for the coin the slot branch tosses for each catalog slot. */
  function Answer(db: MockDb, token: Option<string>, route: GetRoute, url: string, keepSlot: string -> bool): (r: Result<GetResponse>)
    ensures r.Err? ==> GetError(r.error)
    ensures r.Err? && r.error == RouteNotFound ==> route == NoRoute
    ensures r.Ok? && r.value.AnnouncementsBody? && route == Announcements ==>
              forall a :: a in r.value.announcements ==> a.isActive
    ensures r.Ok? && r.value.SlotsBody? ==>
              forall s :: s in r.value.availableSlots ==> s in Slots.SlotCatalog
    ensures route == Me ==> r == MeAnswer(token)
    ensures route == Types ==> r == Ok(TypesBody)
    ensures route == OwnRequests ==> r == AsRequests(MockListRequests(db, token))
    ensures route == RequestById || route == AdminRequestById ==>
              r == AsRequest(MockGetRequest(db, LastSegment(url)))
    ensures route == Announcements ==> r == Ok(AnnouncementsBody(MockAnnouncements(db)))
    ensures route == AdminRequests ==> r == Ok(RequestsBody(db.requests))
    ensures route == AdminAppointments ==> r == Ok(AppointmentsBody(db.appointments))
    ensures route == AdminSlots ==> r == Ok(SlotsBody(AvailableSlots(keepSlot)))
    ensures route == AdminAnnouncements ==> r == Ok(AnnouncementsBody(db.announcements))
    ensures route == AdminStats ==> r == Ok(StatsBody(MockGetStats(db)))
    ensures route == NoRoute ==> r == Err(RouteNotFound)
  {
    match route
    case Me => MeAnswer(token)
    case Types => Ok(TypesBody)
    case OwnRequests => AsRequests(MockListRequests(db, token))
    case RequestById => AsRequest(MockGetRequest(db, LastSegment(url)))
    case Announcements => Ok(AnnouncementsBody(MockAnnouncements(db)))
    case AdminRequests => Ok(RequestsBody(db.requests))
    case AdminRequestById => AsRequest(MockGetRequest(db, LastSegment(url)))
    case AdminAppointments => Ok(AppointmentsBody(db.appointments))
    case AdminSlots => Ok(SlotsBody(AvailableSlots(keepSlot)))
    case AdminAnnouncements => Ok(AnnouncementsBody(db.announcements))
    case AdminStats => Ok(StatsBody(MockGetStats(db)))
    case NoRoute => Err(RouteNotFound)
  }

  /** `mockApi.get(url)`: the first matching URL test answers; a URL no
      test matches is a 404 "Route not found". */
  function MockGet(db: MockDb, token: Option<string>, url: string, keepSlot: string -> bool): (r: Result<GetResponse>)
    ensures r.Err? ==> GetError(r.error)
    ensures r == Err(RouteNotFound) <==> RouteOf(url) == NoRoute
  {
    Answer(db, token, RouteOf(url), url, keepSlot)
  }

  /** The last segment of "/requests/<id>" is the id. */
  lemma LastSegmentOfRequestUrl(id: string)
    requires forall j :: 0 <= j < |id| ==> id[j] != '/'
    ensures LastSegment("/requests/" + id) == id
  {
    var url := "/requests/" + id;
    assert url[9] == '/';
    assert forall j :: 10 <= j < |url| ==> url[j] == id[j - 10];
    var k := LastIndexOfChar(url, '/');
    assert k == Some(9);
    assert url[10..] == id;
  }

  /** "/requests/<id>" is answered by the lookup of that id, for any id
      but "types", which the catalog branch answers first. */
  lemma RequestUrlFindsRequest(db: MockDb, token: Option<string>, id: string, keepSlot: string -> bool)
    requires id != [] && id != "types"
    requires forall j :: 0 <= j < |id| ==> id[j] != '/'
    ensures RouteOf("/requests/" + id) == RequestById
    ensures MockGet(db, token, "/requests/" + id, keepSlot) == AsRequest(MockGetRequest(db, id))
  {
    var url := "/requests/" + id;
    LastSegmentOfRequestUrl(id);
    assert url[..10] == "/requests/";
    assert forall j :: 10 <= j < |url| ==> url[j] == id[j - 10];
    assert IsRequestUrl(url);
    assert url[10..] == id;
    assert "/requests/types"[10..] == "types";
    assert url != "/auth/me" by { assert url[1] != "/auth/me"[1]; }
    assert url != "/student/requests" by { assert url[1] != "/student/requests"[1]; }
    assert url != "/requests" by { assert |url| > |"/requests"|; }
  }

  /** "/student/announcements" passes every earlier URL test and reaches the
      announcement branch. */
  lemma StudentAnnouncementsRoute()
    ensures RouteOf("/student/announcements") == Announcements
  {
    var url := "/student/announcements";
    assert !StartsWith(url, "/student/requests/") by { assert url[9] != "/student/requests/"[9]; }
    assert !IsRequestUrl(url) by { assert url[1] != "/requests/"[1]; }
    assert url != "/auth/me" && url != "/requests/types" by {
      assert url[1] != "/auth/me"[1] && url[1] != "/requests/types"[1];
    }
    assert url != "/student/requests" by { assert url[9] != "/student/requests"[9]; }
    assert url != "/requests" by { assert |url| != |"/requests"|; }
  }

  /** The student dashboard asks for "/requests/announcements", which the
      request-by-id test matches first: the answer is the 404 of a request
      lookup, unless a request happens to have the id "announcements". The
      announcement branch is reached only by "/student/announcements". */
  lemma StudentAnnouncementsUrlShadowed(db: MockDb, token: Option<string>, keepSlot: string -> bool)
    requires forall i :: 0 <= i < |db.requests| ==> db.requests[i].id != "announcements"
    ensures MockGet(db, token, "/requests/announcements", keepSlot) == Err(MockRequestNotFound)
    ensures MockGet(db, token, "/student/announcements", keepSlot) == Ok(AnnouncementsBody(MockAnnouncements(db)))
  {
    assert "/requests/announcements" == "/requests/" + "announcements";
    RequestUrlFindsRequest(db, token, "announcements", keepSlot);
    StudentAnnouncementsRoute();
  }

}
