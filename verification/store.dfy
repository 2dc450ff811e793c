/** The server's database as immutable in-memory stores: users in insertion
    order (so that `findOne` is "the first match"), requests, appointments
    and announcements keyed by id, and the names of the files present in the
    upload directory. A handler is a function from a store and its inputs to
    either an error (the store is then unchanged: nothing is written) or a
    new store and a response. */
module Store {
  import opened Prelude
  import opened UserModel
  import opened RequestModel
  import AppointmentModel
  import AnnouncementModel

  datatype Db = Db(
    users: seq<User>,
    requests: map<string, Request>,
    appointments: map<string, AppointmentModel.Appointment>,
    announcements: map<string, AnnouncementModel.Announcement>,
    files: set<string>)

  /** Every stored document sits under its own id. */
  ghost predicate WellKeyed(db: Db) {
    && (forall k :: k in db.requests ==> db.requests[k].id == k)
    && (forall k :: k in db.appointments ==> db.appointments[k].id == k)
  }

  /** Requests and appointments reference each other one-to-one: a request's
      `appointment` names an appointment whose `request` names it back, and
      every appointment belongs to a request that names it. */
  ghost predicate LinksConsistent(db: Db) {
    && (forall k :: k in db.requests && db.requests[k].appointment.Some? ==>
          && db.requests[k].appointment.value in db.appointments
          && db.appointments[db.requests[k].appointment.value].request == k)
    && (forall a :: a in db.appointments ==>
          && db.appointments[a].request in db.requests
          && db.requests[db.appointments[a].request].appointment == Some(a))
  }

  /** The store invariant the admin workflow keeps. */
  ghost predicate Valid(db: Db) {
    WellKeyed(db) && QrCodesUnique(db.requests) && LinksConsistent(db)
  }

  /** Two stores with the same keys, whose records agree on every field the
      invariant reads, are valid together. */
  lemma ValidUnderSameLinks(db: Db, db1: Db)
    requires Valid(db)
    requires db1.requests.Keys == db.requests.Keys && db1.appointments.Keys == db.appointments.Keys
    requires forall k :: k in db.requests ==>
               && db1.requests[k].id == db.requests[k].id
               && db1.requests[k].appointment == db.requests[k].appointment
               && db1.requests[k].qrCode == db.requests[k].qrCode
    requires forall k :: k in db.appointments ==>
               db1.appointments[k].id == db.appointments[k].id && db1.appointments[k].request == db.appointments[k].request
    ensures Valid(db1)
  {
    assert WellKeyed(db1);
    assert QrCodesUnique(db1.requests);
    assert LinksConsistent(db1);
  }

  /** At most one appointment per request: under the invariant, two
      appointments of the same request are the same appointment. */
  lemma OneAppointmentPerRequest(db: Db, a: string, b: string)
    requires LinksConsistent(db)
    requires a in db.appointments && b in db.appointments
    requires db.appointments[a].request == db.appointments[b].request
    ensures a == b
  {
    var k := db.appointments[a].request;
    assert db.requests[k].appointment == Some(a);
  }

  /** The response a handler produces for an unexpected server error: the
      route's own catch-all message with status 500. */
  function ServerError(message: string): HttpError {
    HttpError(500, message)
  }
}
