/** The request document (server/models/Request.js): the static catalog of
    request types, the nine statuses, the schema's validation on create, the
    `typeInfo` virtual, and the pickup-code format minted on approval. */
module RequestModel {
  import opened Prelude

  datatype RequestType =
    | Tor
    | Shifting
    | AddDrop
    | IrregularEnrollment
    | DocumentSubmission
    | PetitionForSubject

  /** The catalog keys, in declaration order. */
  const AllTypes: seq<RequestType> :=
    [Tor, Shifting, AddDrop, IrregularEnrollment, DocumentSubmission, PetitionForSubject]

  /** The string key a request type is stored and sent under. */
  function TypeKey(t: RequestType): string {
    match t
    case Tor => "TOR"
    case Shifting => "Shifting"
    case AddDrop => "Add/Drop"
    case IrregularEnrollment => "Irregular Enrollment"
    case DocumentSubmission => "Document Submission"
    case PetitionForSubject => "Petition for Subject"
  }

  /** The schema's `enum: Object.keys(REQUEST_TYPES)` check: a key is
      accepted exactly when it is one of the six catalog keys. */
  function ParseType(key: string): (r: Option<RequestType>)
    ensures r.Some? ==> TypeKey(r.value) == key
    ensures r.None? ==> forall t :: TypeKey(t) != key
  {
    if key == "TOR" then Some(Tor)
    else if key == "Shifting" then Some(Shifting)
    else if key == "Add/Drop" then Some(AddDrop)
    else if key == "Irregular Enrollment" then Some(IrregularEnrollment)
    else if key == "Document Submission" then Some(DocumentSubmission)
    else if key == "Petition for Subject" then Some(PetitionForSubject)
    else None
  }

  lemma TypeKeyRoundTrip(t: RequestType)
    ensures ParseType(TypeKey(t)) == Some(t)
  {
  }

  datatype TypeInfo = TypeInfo(displayLabel: string, requiresAppointment: bool, requiredDocuments: seq<string>)

  /** Types handled at a physical visit. */
  predicate IsVisitType(t: RequestType) {
    t == IrregularEnrollment || t == DocumentSubmission || t == PetitionForSubject
  }

  /** The `REQUEST_TYPES` catalog entry of a type. */
  function Info(t: RequestType): (info: TypeInfo)
    ensures info.requiresAppointment <==> IsVisitType(t)
    ensures |info.requiredDocuments| == (match t
      case IrregularEnrollment => 4
      case DocumentSubmission => 1
      case PetitionForSubject => 3
      case _ => 0)
  {
    match t
    case Tor => TypeInfo("Transcript of Records", false, [])
    case Shifting => TypeInfo("Program Shifting", false, [])
    case AddDrop => TypeInfo("Add/Drop Form", false, [])
    case IrregularEnrollment => TypeInfo("Irregular / Transfer Enrollment", true, [
        "Grades / Transcript from Previous School",
        "Evaluation Form",
        "Certificate of Good Moral",
        "PSA Birth Certificate"])
    case DocumentSubmission => TypeInfo("Document Submission", true, [
        "Original Copy of Required Documents"])
    case PetitionForSubject => TypeInfo("Petition for Subject", true, [
        "Petition Form",
        "List of Petitioning Students with Signatures",
        "Course Syllabus (if applicable)"])
  }

  /** The `typeInfo` virtual: the catalog entry of the stored key, or
      None (the empty object `{}`) for a key outside the catalog. */
  function TypeInfoOf(key: string): (r: Option<TypeInfo>)
    ensures r.Some? <==> exists t :: TypeKey(t) == key
    ensures forall t :: TypeKey(t) == key ==> r == Some(Info(t))
  {
    match ParseType(key)
    case Some(t) => Some(Info(t))
    case None => None
  }

  datatype Status =
    | Submitted
    | UnderReview
    | PendingDeanApproval
    | AppointmentScheduled
    | Approved
    | ReadyForPickup
    | Rejected
    | Released
    | Completed

  const DefaultStatus: Status := Submitted

  function StatusName(s: Status): string {
    match s
    case Submitted => "Submitted"
    case UnderReview => "Under Review"
    case PendingDeanApproval => "Pending Dean Approval"
    case AppointmentScheduled => "Appointment Scheduled"
    case Approved => "Approved"
    case ReadyForPickup => "Ready for Pickup"
    case Rejected => "Rejected"
    case Released => "Released"
    case Completed => "Completed"
  }

  /** The schema's status `enum` check. */
  function ParseStatus(name: string): (r: Option<Status>)
    ensures r.Some? ==> StatusName(r.value) == name
    ensures r.None? ==> forall s :: StatusName(s) != name
  {
    if name == "Submitted" then Some(Submitted)
    else if name == "Under Review" then Some(UnderReview)
    else if name == "Pending Dean Approval" then Some(PendingDeanApproval)
    else if name == "Appointment Scheduled" then Some(AppointmentScheduled)
    else if name == "Approved" then Some(Approved)
    else if name == "Ready for Pickup" then Some(ReadyForPickup)
    else if name == "Rejected" then Some(Rejected)
    else if name == "Released" then Some(Released)
    else if name == "Completed" then Some(Completed)
    else None
  }

  lemma StatusNameRoundTrip(s: Status)
    ensures ParseStatus(StatusName(s)) == Some(s)
  {
  }

  /** A stored request document. `createdAt` is the creation time stamp;
      `qrCode` is the pickup code, `appointment` the linked appointment id. */
  datatype Request = Request(
    id: string,
    student: string,
    requestType: RequestType,
    documents: seq<string>,
    reason: Option<string>,
    status: Status,
    adminComment: Option<string>,
    qrCode: Option<string>,
    appointment: Option<string>,
    createdAt: int)

  const ValidationFailed := HttpError(500, "Validation failed")

  /** `Request.create`: schema validation of a new document. The student
      reference is required, the type must be a catalog key, the status (if
      given) one of the nine values and otherwise Submitted. */
  function NewRequest(id: string, student: Option<string>, requestType: string,
                      documents: seq<string>, reason: Option<string>,
                      status: Option<string>, createdAt: int): (r: Result<Request>)
    ensures r.Ok? <==> student.Some? && ParseType(requestType).Some?
                       && (status.None? || ParseStatus(status.value).Some?)
    ensures r.Ok? ==> && r.value.id == id
                      && r.value.student == student.value
                      && TypeKey(r.value.requestType) == requestType
                      && r.value.documents == documents
                      && r.value.reason == reason
                      && (status.None? ==> r.value.status == Submitted)
                      && (status.Some? ==> StatusName(r.value.status) == status.value)
                      && r.value.adminComment.None?
                      && r.value.qrCode.None?
                      && r.value.appointment.None?
    ensures r.Err? ==> r.error.code == 500
  {
    if student.None? then Err(ValidationFailed)
    else match ParseType(requestType)
      case None => Err(ValidationFailed)
      case Some(t) =>
        if status.None? then
          Ok(Request(id, student.value, t, documents, reason, DefaultStatus, None, None, None, createdAt))
        else match ParseStatus(status.value)
          case None => Err(ValidationFailed)
          case Some(s) =>
            Ok(Request(id, student.value, t, documents, reason, s, None, None, None, createdAt))
  }

  // ---------------------------------------------------------------------
  // Pickup codes
  // ---------------------------------------------------------------------

  /** The pickup code minted on approval:
      `SELYO-<first 8 of a fresh uuid, upper-cased>-<last 6 of the id, upper-cased>`.
      The uuid is an input: the random generator is not modelled. */
  function MintQrCode(uuid: string, id: string): (code: string)
    ensures StartsWith(code, "SELYO-")
    ensures code[|code| - |LastN(id, 6)|..] == Upper(LastN(id, 6))
  {
    var head := "SELYO-" + Upper(Take(uuid, 8)) + "-";
    var tail := Upper(LastN(id, 6));
    assert (head + tail)[..6] == "SELYO-" by {
      assert head[..6] == "SELYO-";
    }
    assert (head + tail)[|head + tail| - |tail|..] == tail;
    head + tail
  }

  predicate NoDash(s: string) {
    forall j :: 0 <= j < |s| ==> s[j] != '-'
  }

  lemma UpperKeepsNoDash(s: string)
    requires NoDash(s)
    ensures NoDash(Upper(s))
  {
  }

  /** Splitting a minted code on '-' recovers its three parts: the fixed
      prefix, the random part and the id suffix (uuid hex digits and object
      ids contain no '-'). */
  lemma {:induction false} MintQrCodeFields(uuid: string, id: string)
    requires NoDash(uuid) && NoDash(id)
    ensures Field(MintQrCode(uuid, id), '-', 0) == Some("SELYO")
    ensures Field(MintQrCode(uuid, id), '-', 1) == Some(Upper(Take(uuid, 8)))
    ensures Field(MintQrCode(uuid, id), '-', 2) == Some(Upper(LastN(id, 6)))
    ensures Field(MintQrCode(uuid, id), '-', 3) == None
  {
    var a := Upper(Take(uuid, 8));
    var b := Upper(LastN(id, 6));
    UpperKeepsNoDash(Take(uuid, 8));
    UpperKeepsNoDash(LastN(id, 6));
    var rest := a + ['-'] + b;
    assert MintQrCode(uuid, id) == "SELYO" + ['-'] + rest by {
      assert "SELYO-" == "SELYO" + ['-'];
    }
    FieldAfterHead("SELYO", '-', rest, 0);
    FieldAfterHead("SELYO", '-', rest, 1);
    FieldAfterHead("SELYO", '-', rest, 2);
    FieldAfterHead(a, '-', b, 0);
    FieldAfterHead(a, '-', b, 1);
    FieldWhole(b, '-');
  }

  /** The sparse unique index on `qrCode`: no two distinct requests hold the
      same code (requests without a code are not indexed). */
  ghost predicate QrCodesUnique(requests: map<string, Request>) {
    forall a, b :: a in requests && b in requests && a != b && requests[a].qrCode.Some?
      ==> requests[a].qrCode != requests[b].qrCode
  }
}
