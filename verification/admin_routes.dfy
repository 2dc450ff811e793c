/** The admin workflow of server/routes/admin.js: status updates that mint a
    pickup code once, the verify and release gates, one-appointment-per-request
    booking, appointment updates cascading back to the request, the available
    slot computation and the delete cascade. Every handler runs after the
    `protect` and `adminOnly` gates (see AuthMiddleware). */
module AdminRoutes {
  import opened Prelude
  import opened UserModel
  import opened RequestModel
  import AM = AppointmentModel
  import opened Store
  import opened Slots

  const RequestNotFound := HttpError(404, "Request not found")
  const AppointmentNotFound := HttpError(404, "Appointment not found")
  const NotApprovedForPickup := HttpError(400, "This request is not approved for pickup.")
  const InvalidQrCode := HttpError(404, "Invalid QR code. No matching request found.")
  const OnlyApprovedReleasable := HttpError(400, "Only approved requests can be marked as released")
  const AlreadyScheduled := HttpError(400, "Appointment already scheduled for this request")
  const DateRequired := HttpError(400, "Date is required")
  const NoShowComment := "Student did not show up for scheduled appointment"

  // ---------------------------------------------------------------------
  // PUT /requests/:id
  // ---------------------------------------------------------------------

  /** The body's status is one of the two that mint a pickup code. */
  predicate MintsCode(status: Option<string>) {
    status == Some("Approved") || status == Some("Ready for Pickup")
  }

  /** Some request other than `id` already holds `code`. */
  predicate CodeTaken(requests: map<string, Request>, id: string, code: string) {
    exists k :: k in requests && k != id && requests[k].qrCode == Some(code)
  }

  /** The request as the update handler leaves it: the status is overwritten
      with whatever the body says (absent reads back as the default), the
      comment only by a non-empty one, and a code is minted when the new
      status is Approved or Ready for Pickup and the request has none. */
  function ApplyStatusUpdate(prev: Request, s: Status, status: Option<string>,
                             adminComment: Option<string>, uuid: string): Request {
    prev.(status := s,
         adminComment := if Present(adminComment) then adminComment else prev.adminComment,
         qrCode := if MintsCode(status) && !Present(prev.qrCode) then Some(MintQrCode(uuid, prev.id))
                   else prev.qrCode)
  }

  /** PUT /requests/:id. `status` is None when the body has no status; a
      status outside the enum, or a minted code that collides with another
      request's, makes the save fail (500) and nothing is written. */
  function UpdateRequestStatus(db: Db, id: string, status: Option<string>,
                               adminComment: Option<string>, uuid: string): (r: Result<(Db, Request)>)
    requires WellKeyed(db)
    ensures (r.Err? && r.error == RequestNotFound) <==> id !in db.requests
    ensures r.Err? ==> r.error.code in {404, 500}
    ensures r.Ok? ==> id in db.requests
    ensures id in db.requests && status.Some? && ParseStatus(status.value).None? ==> r.Err?
    ensures r.Ok? <==> && id in db.requests && (status.None? || ParseStatus(status.value).Some?)
                       && !(MintsCode(status) && !Present(db.requests[id].qrCode)
                            && CodeTaken(db.requests, id, MintQrCode(uuid, id)))
    ensures r.Ok? ==>
      var req := r.value.1;
      var prev := db.requests[id];
      && r.value.0 == db.(requests := db.requests[id := req])
      && (status.Some? ==> StatusName(req.status) == status.value)
      && (status.None? ==> req.status == DefaultStatus)
      && (Present(adminComment) ==> req.adminComment == adminComment)
      && (!Present(adminComment) ==> req.adminComment == prev.adminComment)
      && (Present(prev.qrCode) || !MintsCode(status) ==> req.qrCode == prev.qrCode)
      && (MintsCode(status) ==> Present(req.qrCode))
      && (req.qrCode != prev.qrCode ==> req.qrCode == Some(MintQrCode(uuid, id)))
      && (req.qrCode != prev.qrCode ==>
            && StartsWith(req.qrCode.value, "SELYO-")
            && req.qrCode.value[|req.qrCode.value| - |LastN(id, 6)|..] == Upper(LastN(id, 6)))
      && req == prev.(status := req.status, adminComment := req.adminComment, qrCode := req.qrCode)
  {
    if id !in db.requests then Err(RequestNotFound)
    else
      var prev := db.requests[id];
      var parsed := if status.None? then Some(DefaultStatus) else ParseStatus(status.value);
      if parsed.None? then Err(ServerError("Failed to update request"))
      else
        var req := ApplyStatusUpdate(prev, parsed.value, status, adminComment, uuid);
        if req.qrCode != prev.qrCode && CodeTaken(db.requests, id, req.qrCode.value) then
          Err(ServerError("Failed to update request"))
        else
          Ok((db.(requests := db.requests[id := req]), req))
  }

  /** A pickup code is minted at most once: once a request holds a code,
      later updates to Approved or Ready for Pickup keep it, whatever fresh
      uuid they would have used. */
  lemma MintOnce(db: Db, id: string, status: Option<string>, uuid: string,
                 status2: Option<string>, uuid2: string)
    requires WellKeyed(db)
    requires MintsCode(status)
    requires UpdateRequestStatus(db, id, status, None, uuid).Ok?
    ensures var db1 := UpdateRequestStatus(db, id, status, None, uuid).value.0;
            var r2 := UpdateRequestStatus(db1, id, status2, None, uuid2);
            r2.Ok? ==> r2.value.1.qrCode == db1.requests[id].qrCode
  {
    var db1 := UpdateRequestStatus(db, id, status, None, uuid).value.0;
    assert Present(db1.requests[id].qrCode);
  }

  /** The first approval of a request without a code succeeds whenever the
      minted code is free, and stores exactly that code. */
  lemma FirstApprovalMintsCode(db: Db, id: string, uuid: string)
    requires WellKeyed(db) && id in db.requests && !Present(db.requests[id].qrCode)
    requires !CodeTaken(db.requests, id, MintQrCode(uuid, id))
    ensures var r := UpdateRequestStatus(db, id, Some("Approved"), None, uuid);
            && r.Ok?
            && r.value.1.status == Approved
            && r.value.1.qrCode == Some(MintQrCode(uuid, id))
  {
    var r := UpdateRequestStatus(db, id, Some("Approved"), None, uuid);
    assert r.value.1.qrCode != db.requests[id].qrCode;
  }

  /** The server accepts a rejection without any comment: the
      comment-required rule is enforced only by the review page. */
  lemma ServerAcceptsRejectionWithoutComment(db: Db, id: string, uuid: string)
    requires WellKeyed(db) && id in db.requests
    ensures UpdateRequestStatus(db, id, Some("Rejected"), None, uuid).Ok?
    ensures UpdateRequestStatus(db, id, Some("Rejected"), None, uuid).value.1.status == Rejected
  {
  }

  // ---------------------------------------------------------------------
  // GET /verify/:qrCode and PUT /release/:id
  // ---------------------------------------------------------------------

  /** The statuses for which a pickup code verifies. */
  predicate VerifiesForPickup(s: Status) {
    s == Approved || s == ReadyForPickup || s == Released
  }

  datatype Verified = Verified(request: Request, student: Option<StudentInfo>)

  /** GET /verify/:qrCode: the request holding the code (the unique index
      makes it at most one), with its student populated. */
  function Verify(db: Db, code: string): (r: Result<Verified>)
    requires QrCodesUnique(db.requests)
    ensures (r.Err? && r.error == InvalidQrCode) <==>
            forall k :: k in db.requests ==> db.requests[k].qrCode != Some(code)
    ensures r.Err? ==> r.error in {InvalidQrCode, NotApprovedForPickup}
    ensures r.Ok? <==> exists k :: k in db.requests && db.requests[k].qrCode == Some(code)
                                   && VerifiesForPickup(db.requests[k].status)
    ensures r.Ok? ==> && r.value.request in db.requests.Values
                      && r.value.request.qrCode == Some(code)
                      && r.value.student == PopulateStudent(db.users, r.value.request.student, true)
  {
    if exists k :: k in db.requests && db.requests[k].qrCode == Some(code) then
      var k :| k in db.requests && db.requests[k].qrCode == Some(code);
      var req := db.requests[k];
      if !VerifiesForPickup(req.status) then Err(NotApprovedForPickup)
      else Ok(Verified(req, PopulateStudent(db.users, req.student, true)))
    else
      Err(InvalidQrCode)
  }

  /** PUT /release/:id: only an Approved or Ready for Pickup request can be
      released; it becomes Released and nothing else changes. */
  function Release(db: Db, id: string): (r: Result<(Db, Request)>)
    ensures (r.Err? && r.error == RequestNotFound) <==> id !in db.requests
    ensures (r.Err? && r.error == OnlyApprovedReleasable) <==>
            id in db.requests && db.requests[id].status !in {Approved, ReadyForPickup}
    ensures r.Ok? <==> id in db.requests && db.requests[id].status in {Approved, ReadyForPickup}
    ensures r.Ok? ==> && r.value.1 == db.requests[id].(status := Released)
                      && r.value.0 == db.(requests := db.requests[id := r.value.1])
  {
    if id !in db.requests then Err(RequestNotFound)
    else if db.requests[id].status !in {Approved, ReadyForPickup} then Err(OnlyApprovedReleasable)
    else
      var req := db.requests[id].(status := Released);
      Ok((db.(requests := db.requests[id := req]), req))
  }

  /** Releasing twice is an error, not a no-op. */
  lemma ReleaseTwiceFails(db: Db, id: string)
    requires Release(db, id).Ok?
    ensures Release(Release(db, id).value.0, id) == Err(OnlyApprovedReleasable)
  {
  }

  /** A released code still verifies, so a scanner shows it as released
      rather than as invalid. */
  lemma ReleasedStillVerifies(db: Db, id: string)
    requires WellKeyed(db) && QrCodesUnique(db.requests)
    requires Release(db, id).Ok? && db.requests[id].qrCode.Some?
    ensures QrCodesUnique(Release(db, id).value.0.requests)
    ensures Verify(Release(db, id).value.0, db.requests[id].qrCode.value).Ok?
  {
    var db1 := Release(db, id).value.0;
    assert db1.requests[id].qrCode == db.requests[id].qrCode;
  }

  // ---------------------------------------------------------------------
  // Appointments
  // ---------------------------------------------------------------------

  /** GET /appointments?date&status: the appointments on that day (when a
      date is given) with that status name (when a non-empty one is given),
      each with its student populated. */
  predicate MatchesQuery(a: AM.Appointment, date: Option<int>, status: Option<string>) {
    && (date.None? || a.date == date.value)
    && (!Present(status) || AM.AppointmentStatusName(a.status) == status.value)
  }

  function ListAppointments(db: Db, date: Option<int>, status: Option<string>): (r: set<AM.AppointmentView>)
    ensures forall v :: v in r ==> ((date.None? || v.date == date.value)
                                   && (!Present(status) || AM.AppointmentStatusName(v.status) == status.value))
    ensures forall k :: k in db.appointments && MatchesQuery(db.appointments[k], date, status) ==>
                          AM.Populate(db.appointments[k], db.users) in r
    ensures forall v :: v in r ==> exists k :: k in db.appointments && MatchesQuery(db.appointments[k], date, status)
                                             && v == AM.Populate(db.appointments[k], db.users)
  {
    set k | k in db.appointments && MatchesQuery(db.appointments[k], date, status)
      :: AM.Populate(db.appointments[k], db.users)
  }

  /** POST /appointments: books an appointment for a request that has none.
      `newId` is the fresh id the database assigns. There is no check that
      the slot is free. */
  function Book(db: Db, requestId: string, date: Option<int>, timeSlot: string,
                notes: Option<string>, newId: string): (r: Result<(Db, AM.AppointmentView)>)
    requires newId !in db.appointments
    ensures (r.Err? && r.error == RequestNotFound) <==> requestId !in db.requests
    ensures (r.Err? && r.error == AlreadyScheduled) <==>
            requestId in db.requests && db.requests[requestId].appointment.Some?
            && db.requests[requestId].appointment.value in db.appointments
    ensures r.Ok? ==> newId in r.value.0.appointments
    ensures r.Err? ==> r.error in {RequestNotFound, AlreadyScheduled, ServerError("Failed to schedule appointment")}
    ensures r.Ok? <==> && requestId in db.requests
                       && !(db.requests[requestId].appointment.Some?
                            && db.requests[requestId].appointment.value in db.appointments)
                       && FindUser(db.users, db.requests[requestId].student).Some?
                       && date.Some? && timeSlot != ""
    ensures r.Ok? ==>
      var req := db.requests[requestId];
      var a := r.value.0.appointments[newId];
      && r.value.0.appointments == db.appointments[newId := a]
      && r.value.0.requests == db.requests[requestId := req.(appointment := Some(newId),
                                                            status := AppointmentScheduled)]
      && (r.value.0.users, r.value.0.announcements, r.value.0.files)
         == (db.users, db.announcements, db.files)
      && a.id == newId && a.request == requestId && a.student == req.student
      && a.date == date.value && a.timeSlot == timeSlot
      && a.purpose == TypeKey(req.requestType)
      && a.status == AM.Scheduled
      && a.notes == Some(if notes.Some? then notes.value else "")
      && r.value.1 == AM.Populate(a, db.users)
  {
    if requestId !in db.requests then Err(RequestNotFound)
    else
      var req := db.requests[requestId];
      if req.appointment.Some? && req.appointment.value in db.appointments then Err(AlreadyScheduled)
      else if FindUser(db.users, req.student).None? then
        // `request.student._id` on a student that no longer exists throws
        Err(ServerError("Failed to schedule appointment"))
      else
        var created := AM.NewAppointment(newId, Some(req.student), Some(requestId), date, timeSlot,
                                         TypeKey(req.requestType), None,
                                         Some(if notes.Some? then notes.value else ""));
        if created.Err? then Err(ServerError("Failed to schedule appointment"))
        else
          var a := created.value;
          var linked := req.(appointment := Some(newId), status := AppointmentScheduled);
          Ok((db.(requests := db.requests[requestId := linked], appointments := db.appointments[newId := a]),
              AM.Populate(a, db.users)))
  }
  /** A booked appointment is listed on its day among the Scheduled ones,
      and in the unfiltered list, exactly as the booking returned it. */
  lemma BookedAppointmentListed(db: Db, requestId: string, date: Option<int>, timeSlot: string,
                                notes: Option<string>, newId: string)
    requires newId !in db.appointments
    requires Book(db, requestId, date, timeSlot, notes, newId).Ok?
    ensures var (db1, v) := Book(db, requestId, date, timeSlot, notes, newId).value;
            && v in ListAppointments(db1, date, Some("Scheduled"))
            && v in ListAppointments(db1, None, None)
  {
    var (db1, v) := Book(db, requestId, date, timeSlot, notes, newId).value;
    var a := db1.appointments[newId];
    assert MatchesQuery(a, date, Some("Scheduled"));
    assert MatchesQuery(a, None, None);
    assert v == AM.Populate(a, db1.users);
  }


  /** Booking never looks at other bookings: two requests can be given the
      same slot on the same day. */
  lemma BookIgnoresSlotConflicts(db: Db, r1: string, r2: string, date: int, slot: string,
                                 id1: string, id2: string)
    requires id1 !in db.appointments && id2 !in db.appointments && id1 != id2
    requires r1 != r2
    requires Book(db, r1, Some(date), slot, None, id1).Ok?
    requires r2 in db.requests && db.requests[r2].appointment.None?
    requires FindUser(db.users, db.requests[r2].student).Some?
    ensures var db1 := Book(db, r1, Some(date), slot, None, id1).value.0;
            && Book(db1, r2, Some(date), slot, None, id2).Ok?
            && db1.appointments[id1].timeSlot == slot
            && Book(db1, r2, Some(date), slot, None, id2).value.0.appointments[id2].timeSlot == slot
  {
    var db1 := Book(db, r1, Some(date), slot, None, id1).value.0;
    assert db1.requests[r2] == db.requests[r2];
  }

  /** The request change an appointment status causes: Completed completes
      the request, No-Show sends it back to review with a fixed comment,
      anything else leaves it alone (as does a request that no longer
      exists). */
  function Cascade(requests: map<string, Request>, requestId: string, status: Option<string>): (r: map<string, Request>)
    ensures r.Keys == requests.Keys
    ensures forall k :: k in requests && k != requestId ==> r[k] == requests[k]
    ensures requestId in requests && status == Some("Completed") ==>
              r[requestId] == requests[requestId].(status := Completed)
    ensures requestId in requests && status == Some("No-Show") ==>
              r[requestId] == requests[requestId].(status := UnderReview, adminComment := Some(NoShowComment))
    ensures status != Some("Completed") && status != Some("No-Show") ==> r == requests
    ensures forall k :: k in requests ==>
              (r[k].id, r[k].appointment, r[k].qrCode) == (requests[k].id, requests[k].appointment, requests[k].qrCode)
  {
    if requestId !in requests then requests
    else if status == Some("Completed") then
      requests[requestId := requests[requestId].(status := Completed)]
    else if status == Some("No-Show") then
      requests[requestId := requests[requestId].(status := UnderReview, adminComment := Some(NoShowComment))]
    else requests
  }

  /** PUT /appointments/:id. Date, time slot and status are overwritten only
      by truthy values; notes whenever the body carries the key (`Some(None)`
      is an explicit null). A status outside the enum fails the save. */
  function UpdateAppointment(db: Db, id: string, date: Option<int>, timeSlot: Option<string>,
                             status: Option<string>, notes: Option<Option<string>>): (r: Result<(Db, AM.AppointmentView)>)
    ensures (r.Err? && r.error == AppointmentNotFound) <==> id !in db.appointments
    ensures r.Ok? <==> id in db.appointments && (!Present(status) || AM.ParseAppointmentStatus(status.value).Some?)
    ensures r.Ok? ==> id in r.value.0.appointments
    ensures r.Ok? ==>
      var a := db.appointments[id];
      var b := r.value.0.appointments[id];
      && r.value.0.appointments == db.appointments[id := b]
      && r.value.0.requests == Cascade(db.requests, a.request, status)
      && (r.value.0.users, r.value.0.announcements, r.value.0.files)
         == (db.users, db.announcements, db.files)
      && b.date == (if date.Some? then date.value else a.date)
      && b.timeSlot == (if Present(timeSlot) then timeSlot.value else a.timeSlot)
      && (Present(status) ==> AM.AppointmentStatusName(b.status) == status.value)
      && (!Present(status) ==> b.status == a.status)
      && b.notes == (if notes.Some? then notes.value else a.notes)
      && (b.id, b.student, b.request, b.purpose) == (a.id, a.student, a.request, a.purpose)
      && r.value.1 == AM.Populate(b, db.users)
  {
    if id !in db.appointments then Err(AppointmentNotFound)
    else
      var a := db.appointments[id];
      var parsed := if Present(status) then AM.ParseAppointmentStatus(status.value) else Some(a.status);
      if parsed.None? then Err(ServerError("Failed to update appointment"))
      else
        var b := a.(date := if date.Some? then date.value else a.date,
                    timeSlot := if Present(timeSlot) then timeSlot.value else a.timeSlot,
                    status := parsed.value,
                    notes := if notes.Some? then notes.value else a.notes);
        Ok((db.(appointments := db.appointments[id := b],
                requests := Cascade(db.requests, a.request, status)),
            AM.Populate(b, db.users)))
  }

  // ---------------------------------------------------------------------
  // GET /slots
  // ---------------------------------------------------------------------

  /** The slots held on a day: those of its non-Cancelled appointments. */
  function BookedSlots(db: Db, date: int): set<string> {
    set k | k in db.appointments && db.appointments[k].date == date
                                 && db.appointments[k].status != AM.Cancelled :: db.appointments[k].timeSlot
  }

  /** The filter keeping the slots not in `booked`. */
  function FreeIn(booked: set<string>): string -> bool {
    slot => slot !in booked
  }

  datatype SlotReport = SlotReport(date: int, allSlots: seq<string>, bookedSlots: set<string>,
                                   availableSlots: seq<string>)

  /** GET /slots?date: the catalog minus the slots held that day, in catalog
      order. */
  function AvailableSlots(db: Db, date: Option<int>): (r: Result<SlotReport>)
    ensures r.Err? <==> date.None?
    ensures r.Err? ==> r.error == DateRequired
    ensures r.Ok? ==>
      && r.value.date == date.value
      && r.value.allSlots == SlotCatalog
      && (forall s :: s in r.value.bookedSlots <==>
            exists k :: k in db.appointments && db.appointments[k].date == date.value
                        && db.appointments[k].status != AM.Cancelled && db.appointments[k].timeSlot == s)
      && (forall s :: s in r.value.availableSlots <==> s in SlotCatalog && s !in r.value.bookedSlots)
      && |r.value.availableSlots| <= |SlotCatalog|
  {
    if date.None? then Err(DateRequired)
    else
      var booked := BookedSlots(db, date.value);
      var available := Filter(SlotCatalog, FreeIn(booked));
      FilterSpec(SlotCatalog, FreeIn(booked));
      CountBounded(SlotCatalog, FreeIn(booked));
      Ok(SlotReport(date.value, SlotCatalog, booked, available))
  }

  /** The available slots keep catalog order: they are the catalog entries
      at strictly increasing positions, and hence free of duplicates. */
  lemma AvailableSlotsInCatalogOrder(db: Db, date: int) returns (idx: seq<nat>)
    ensures var avail := AvailableSlots(db, Some(date)).value.availableSlots;
            && |idx| == |avail|
            && (forall k :: 0 <= k < |idx| ==> idx[k] < |SlotCatalog| && SlotCatalog[idx[k]] == avail[k])
            && (forall k, l :: 0 <= k < l < |idx| ==> idx[k] < idx[l])
            && NoDuplicates(avail)
  {
    SlotCatalogDistinct();
    idx := FilterKeepsDistinct(SlotCatalog, FreeIn(BookedSlots(db, date)));
  }

  // ---------------------------------------------------------------------
  // DELETE /requests/:id
  // ---------------------------------------------------------------------

  /** DELETE /requests/:id: removes the request's uploaded files that exist
      (missing ones are skipped), then its appointment if it has one, then
      the request itself. */
  function DeleteRequest(db: Db, id: string): (r: Result<Db>)
    ensures r.Err? <==> id !in db.requests
    ensures r.Err? ==> r.error == RequestNotFound
    ensures r.Ok? ==>
      var req := db.requests[id];
      && r.value.requests.Keys == db.requests.Keys - {id}
      && (forall k :: k in r.value.requests ==> r.value.requests[k] == db.requests[k])
      && (forall f :: f in r.value.files <==> f in db.files && f !in req.documents)
      && (forall a :: a in r.value.appointments <==> a in db.appointments && req.appointment != Some(a))
      && (forall a :: a in r.value.appointments ==> r.value.appointments[a] == db.appointments[a])
      && r.value.users == db.users && r.value.announcements == db.announcements
  {
    if id !in db.requests then Err(RequestNotFound)
    else
      var req := db.requests[id];
      var files := db.files - (set d | d in req.documents);
      var appointments := if req.appointment.Some? then db.appointments - {req.appointment.value}
                          else db.appointments;
      Ok(db.(files := files, appointments := appointments, requests := db.requests - {id}))
  }

  // ---------------------------------------------------------------------
  // The store invariant is kept by every handler
  // ---------------------------------------------------------------------

  lemma UpdateRequestStatusPreservesValid(db: Db, id: string, status: Option<string>,
                                          adminComment: Option<string>, uuid: string)
    requires Valid(db)
    requires UpdateRequestStatus(db, id, status, adminComment, uuid).Ok?
    ensures Valid(UpdateRequestStatus(db, id, status, adminComment, uuid).value.0)
  {
    var db1 := UpdateRequestStatus(db, id, status, adminComment, uuid).value.0;
    var req := db1.requests[id];
    var prev := db.requests[id];
    assert req.appointment == prev.appointment;
    forall a, b | a in db1.requests && b in db1.requests && a != b && db1.requests[a].qrCode.Some?
      ensures db1.requests[a].qrCode != db1.requests[b].qrCode
    {
      if req.qrCode != prev.qrCode && (a == id || b == id) {
        assert !CodeTaken(db.requests, id, req.qrCode.value);
      }
    }
  }

  lemma ReleasePreservesValid(db: Db, id: string)
    requires Valid(db) && Release(db, id).Ok?
    ensures Valid(Release(db, id).value.0)
  {
    var db1 := Release(db, id).value.0;
    assert db1.requests[id].qrCode == db.requests[id].qrCode;
    assert db1.requests[id].appointment == db.requests[id].appointment;
  }

  /** A successful booking keeps the store invariant: the new appointment
      and its request point at each other, and the request had no other. */
  lemma BookPreservesValid(db: Db, requestId: string, date: Option<int>, timeSlot: string,
                           notes: Option<string>, newId: string)
    requires Valid(db) && newId !in db.appointments
    requires Book(db, requestId, date, timeSlot, notes, newId).Ok?
    ensures Valid(Book(db, requestId, date, timeSlot, notes, newId).value.0)
  {
    var db1 := Book(db, requestId, date, timeSlot, notes, newId).value.0;
    assert db.requests[requestId].appointment.None?;
    forall a | a in db.appointments
      ensures db.appointments[a].request != requestId
    {
    }
    assert db1.requests[requestId].qrCode == db.requests[requestId].qrCode;
  }

  lemma UpdateAppointmentPreservesValid(db: Db, id: string, date: Option<int>, timeSlot: Option<string>,
                                        status: Option<string>, notes: Option<Option<string>>)
    requires Valid(db)
    requires UpdateAppointment(db, id, date, timeSlot, status, notes).Ok?
    ensures Valid(UpdateAppointment(db, id, date, timeSlot, status, notes).value.0)
  {
    var db1 := UpdateAppointment(db, id, date, timeSlot, status, notes).value.0;
    var a := db.appointments[id];
    assert db1.requests == Cascade(db.requests, a.request, status);
    assert db1.appointments == db.appointments[id := db1.appointments[id]];
    ValidUnderSameLinks(db, db1);
  }

  /** Deleting a request keeps the invariant: its appointment goes with it,
      so no appointment is left pointing at a missing request. */
  lemma DeleteRequestPreservesValid(db: Db, id: string)
    requires Valid(db) && id in db.requests
    ensures Valid(DeleteRequest(db, id).value)
    ensures forall a :: a in DeleteRequest(db, id).value.appointments ==>
              DeleteRequest(db, id).value.appointments[a].request != id
  {
    var db1 := DeleteRequest(db, id).value;
    forall a | a in db1.appointments
      ensures db1.appointments[a].request != id
    {
      assert db.requests[db.appointments[a].request].appointment == Some(a);
    }
  }
}
