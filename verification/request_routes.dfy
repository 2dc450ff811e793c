/** The student request routes of server/routes/requests.js: the upload gate
    (file filter, count and size limits, stored file names), request
    creation, the caller's own list and single request, and the visible
    announcements. Every handler runs after `protect` and `studentOnly`;
    `caller` is the authenticated student's id. */
module RequestRoutes {
  import opened Prelude
  import opened RequestModel
  import opened Store
  import opened Sorting
  import AnnouncementModel

  // ---------------------------------------------------------------------
  // Uploads
  // ---------------------------------------------------------------------

  const MaxFiles := 5
  const MaxFileSize := 5 * 1024 * 1024

  /** One uploaded part: its original name, its declared mimetype and its
      size in bytes. */
  datatype Upload = Upload(originalName: string, mimeType: string, size: nat)

  /** `path.extname`: from the last '.' of the last path component to the
      end, or empty when that component has no '.' or only a leading one. */
  function Extname(p: string): (r: string)
    ensures r == [] || (r[0] == '.' && |r| <= |p| && r == p[|p| - |r|..])
  {
    ExtScan(p, |p|)
  }

  /** Scans `p[..i]` backwards for the extension's '.'; the characters from
      `i` on are neither '.' nor '/'. */
  function ExtScan(p: string, i: nat): (r: string)
    requires i <= |p|
    ensures r == [] || (r[0] == '.' && |r| <= |p| && r == p[|p| - |r|..])
    decreases i
  {
    if i == 0 || p[i - 1] == '/' then []
    else if p[i - 1] == '.' then (if i == 1 || p[i - 2] == '/' then [] else p[i - 1..])
    else ExtScan(p, i - 1)
  }

  /** The extension of `s.t`, when `t` holds no '.' or '/' and `s` does not
      end a component. */
  lemma ExtnameOf(s: string, t: string)
    requires s != [] && s[|s| - 1] != '/'
    requires forall j :: 0 <= j < |t| ==> t[j] != '.' && t[j] != '/'
    ensures Extname(s + ['.'] + t) == ['.'] + t
  {
    var p := s + ['.'] + t;
    assert p[|s|] == '.' && p[|s| - 1] == s[|s| - 1];
    assert ExtScan(p, |s| + 1) == p[|s|..];
    assert p[|s|..] == ['.'] + t;
    ExtScanSkips(p, |s| + 1, |p|);
  }

  lemma {:induction false} ExtScanSkips(p: string, lo: nat, i: nat)
    requires lo <= i <= |p|
    requires forall j :: lo <= j < |p| ==> p[j] != '.' && p[j] != '/'
    ensures ExtScan(p, i) == ExtScan(p, lo)
    decreases i
  {
    if i > lo {
      ExtScanSkips(p, lo, i - 1);
    }
  }

  /** `/jpeg|jpg|png|pdf/.test(s)`: an unanchored match anywhere in `s`. */
  predicate AllowedType(s: string) {
    Contains(s, "jpeg") || Contains(s, "jpg") || Contains(s, "png") || Contains(s, "pdf")
  }

  /** The multer `fileFilter`: both the lower-cased extension and the
      mimetype must match. */
  predicate FileAccepted(u: Upload) {
    AllowedType(Lower(Extname(u.originalName))) && AllowedType(u.mimeType)
  }

  /** The match is not anchored: an extension that merely contains "pdf"
      passes the filter. */
  lemma FileFilterIsUnanchored()
    ensures FileAccepted(Upload("scan.PDFX", "application/pdf", 10))
  {
    assert "scan.PDFX" == "scan" + ['.'] + "PDFX";
    ExtnameOf("scan", "PDFX");
    LowerPdfx();
    assert OccursAt(".pdfx", "pdf", 1);
    ContainsIff(".pdfx", "pdf");
    PdfMime();
  }

  /** Only the last extension counts: a document extension followed by
      another one is rejected. */
  lemma FileFilterUsesLastExtension()
    ensures !FileAccepted(Upload("scan.pdf.exe", "application/pdf", 10))
  {
    assert "scan.pdf.exe" == "scan.pdf" + ['.'] + "exe";
    ExtnameOf("scan.pdf", "exe");
    LowerExe();
    ExeNotDocument();
  }

  lemma LowerExe()
    ensures Lower(".exe") == ".exe"
  {
  }

  lemma ExeNotDocument()
    ensures !AllowedType(".exe")
  {
    ContainsNeedsHead(".exe", "jpeg");
    ContainsNeedsHead(".exe", "jpg");
    ContainsNeedsHead(".exe", "png");
    ContainsNeedsHead(".exe", "pdf");
  }

  lemma LowerPdfx()
    ensures Lower(".PDFX") == ".pdfx"
  {
  }

  lemma PdfMime()
    ensures AllowedType("application/pdf")
  {
    assert OccursAt("application/pdf", "pdf", 12);
    ContainsIff("application/pdf", "pdf");
  }

  datatype UploadError = TooManyFiles | FileTypeRejected | FileTooLarge

  /** Multer's `array(field, maxCount)` with a `fileFilter` and a
      `fileSize` limit: the parts are handled in order; for each, the count
      limit is checked first, then the filter, then the size, and the first
      failure aborts the whole upload. */
  function MulterFirstError(parts: seq<Upload>, from: nat, maxCount: nat,
                            fileFilter: Upload -> bool, fileSize: nat): Option<UploadError>
    decreases |parts| - from
  {
    if from >= |parts| then None
    else if from >= maxCount then Some(TooManyFiles)
    else if !fileFilter(parts[from]) then Some(FileTypeRejected)
    else if parts[from].size > fileSize then Some(FileTooLarge)
    else MulterFirstError(parts, from + 1, maxCount, fileFilter, fileSize)
  }

  /** An upload goes through exactly when it has at most `maxCount` parts,
      each passing the filter and within the size limit. */
  lemma {:induction false} MulterAcceptsIff(parts: seq<Upload>, from: nat, maxCount: nat,
                                            fileFilter: Upload -> bool, fileSize: nat)
    requires from <= maxCount
    ensures MulterFirstError(parts, from, maxCount, fileFilter, fileSize).None? <==>
            && |parts| <= maxCount
            && forall j :: from <= j < |parts| ==> fileFilter(parts[j]) && parts[j].size <= fileSize
    decreases |parts| - from
  {
    if from < |parts| && from < maxCount && fileFilter(parts[from]) && parts[from].size <= fileSize {
      MulterAcceptsIff(parts, from + 1, maxCount, fileFilter, fileSize);
    }
  }

  /** The route's upload: at most 5 `documents`, the filter above, 5 MB each. */
  function FirstUploadError(uploads: seq<Upload>): Option<UploadError> {
    MulterFirstError(uploads, 0, MaxFiles, FileAccepted, MaxFileSize)
  }

  lemma UploadAcceptedIff(uploads: seq<Upload>)
    ensures FirstUploadError(uploads).None? <==>
            && |uploads| <= MaxFiles
            && forall j :: 0 <= j < |uploads| ==> FileAccepted(uploads[j]) && uploads[j].size <= MaxFileSize
  {
    MulterAcceptsIff(uploads, 0, MaxFiles, FileAccepted, MaxFileSize);
  }

  /** The multer `filename`: `<timestamp>-<uuid><original extension>`. */
  function StoredName(timestamp: nat, uuid: string, originalName: string): string {
    NatToString(timestamp) + "-" + uuid + Extname(originalName)
  }

  /** A stored name starts with the timestamp up to its first '-', and ends
      with the original file's extension. */
  lemma StoredNameShape(timestamp: nat, uuid: string, originalName: string)
    ensures Field(StoredName(timestamp, uuid, originalName), '-', 0) == Some(NatToString(timestamp))
    ensures var r := StoredName(timestamp, uuid, originalName);
            var ext := Extname(originalName);
            |ext| <= |r| && r[|r| - |ext|..] == ext
  {
    var digits := NatToString(timestamp);
    var rest := uuid + Extname(originalName);
    assert StoredName(timestamp, uuid, originalName) == digits + ['-'] + rest;
    FieldAfterHead(digits, '-', rest, 0);
  }

  /** The stored names of the uploads, in upload order. */
  function StoredNames(uploads: seq<Upload>, stamps: seq<nat>, uuids: seq<string>): (r: seq<string>)
    requires |stamps| == |uploads| == |uuids|
    ensures |r| == |uploads|
    ensures forall j :: 0 <= j < |r| ==> r[j] == StoredName(stamps[j], uuids[j], uploads[j].originalName)
  {
    if uploads == [] then []
    else [StoredName(stamps[0], uuids[0], uploads[0].originalName)]
         + StoredNames(uploads[1..], stamps[1..], uuids[1..])
  }

  // ---------------------------------------------------------------------
  // POST /
  // ---------------------------------------------------------------------

  const UploadFailed := HttpError(500, "Something went wrong!")
  const CreateFailed := HttpError(500, "Failed to create request")

  /** The store after the handler, and its response. Unlike the other
      handlers, a failing create still leaves the uploaded files behind. */
  datatype CreateOutcome = CreateOutcome(db: Db, response: Result<Request>)

  /** POST /: the files are stored first (all or none); then the request is
      created for the caller with status Submitted and the stored names as
      its documents. `newId` is the fresh id the database assigns; `stamps`
      and `uuids` are the clock readings and random ids the storage engine
      uses for each file. */
  function CreateRequest(db: Db, caller: string, requestType: Option<string>, reason: Option<string>,
                         uploads: seq<Upload>, stamps: seq<nat>, uuids: seq<string>,
                         now: int, newId: string): (out: CreateOutcome)
    requires |stamps| == |uploads| == |uuids|
    requires newId !in db.requests
    ensures FirstUploadError(uploads).Some? ==> out == CreateOutcome(db, Err(UploadFailed))
    ensures FirstUploadError(uploads).None? ==>
      && out.db.files == db.files + set d | d in StoredNames(uploads, stamps, uuids)
      && (out.db.users, out.db.appointments, out.db.announcements) == (db.users, db.appointments, db.announcements)
    ensures out.response.Ok? <==> FirstUploadError(uploads).None? && requestType.Some?
                                  && ParseType(requestType.value).Some?
    ensures out.response.Err? ==> out.db.requests == db.requests
    ensures out.response.Ok? ==>
      var req := out.response.value;
      && out.db.requests == db.requests[newId := req]
      && req.id == newId && req.student == caller
      && TypeKey(req.requestType) == requestType.value
      && req.status == Submitted
      && req.reason == reason
      && req.documents == StoredNames(uploads, stamps, uuids)
      && req.qrCode.None? && req.appointment.None? && req.adminComment.None?
      && req.createdAt == now
  {
    if FirstUploadError(uploads).Some? then CreateOutcome(db, Err(UploadFailed))
    else
      var names := StoredNames(uploads, stamps, uuids);
      var stored := db.(files := db.files + set d | d in names);
      if requestType.None? then CreateOutcome(stored, Err(CreateFailed))
      else match NewRequest(newId, Some(caller), requestType.value, names, reason, Some("Submitted"), now)
        case Err(_) => CreateOutcome(stored, Err(CreateFailed))
        case Ok(req) => CreateOutcome(stored.(requests := db.requests[newId := req]), Ok(req))
  }

  /** Creating a request keeps the store invariant. */
  lemma CreateRequestPreservesValid(db: Db, caller: string, requestType: Option<string>, reason: Option<string>,
                                    uploads: seq<Upload>, stamps: seq<nat>, uuids: seq<string>,
                                    now: int, newId: string)
    requires Valid(db)
    requires |stamps| == |uploads| == |uuids| && newId !in db.requests
    ensures Valid(CreateRequest(db, caller, requestType, reason, uploads, stamps, uuids, now, newId).db)
  {
    var out := CreateRequest(db, caller, requestType, reason, uploads, stamps, uuids, now, newId);
    if out.response.Ok? {
      forall a | a in out.db.appointments
        ensures out.db.appointments[a].request != newId
      {
        assert db.appointments[a].request in db.requests;
      }
    }
  }

  // ---------------------------------------------------------------------
  // GET / and GET /:id
  // ---------------------------------------------------------------------

  function CreatedAt(r: Request): int {
    r.createdAt
  }

  function OwnedBy(caller: string): Request -> bool {
    (r: Request) => r.student == caller
  }

  /** GET /: the caller's requests and no one else's, newest first. */
  method ListOwnRequests(db: Db, caller: string) returns (requests: seq<Request>)
    ensures forall r :: r in requests <==> r in db.requests.Values && r.student == caller
    ensures SortedDesc(requests, CreatedAt)
    ensures |requests| == |set k | k in db.requests && db.requests[k].student == caller|
  {
    requests := SelectSortedDesc(db.requests, OwnedBy(caller), CreatedAt);
    assert Selected(db.requests, OwnedBy(caller), db.requests.Keys)
        == set k | k in db.requests && db.requests[k].student == caller;
  }

  /** GET /:id: the request only when it belongs to the caller; another
      student's request is reported exactly like a missing one. */
  function GetOwnRequest(db: Db, caller: string, id: string): (r: Result<Request>)
    ensures r.Ok? <==> id in db.requests && db.requests[id].student == caller
    ensures r.Ok? ==> r.value == db.requests[id]
    ensures r.Err? ==> r.error == HttpError(404, "Request not found")
  {
    if id in db.requests && db.requests[id].student == caller then Ok(db.requests[id])
    else Err(HttpError(404, "Request not found"))
  }

  /** A request just created is returned to its creator, and any other
      caller gets the same 404 as for a missing request. */
  lemma CreatedRequestOwnedByCreator(db: Db, caller: string, other: string, requestType: Option<string>,
                                     reason: Option<string>, uploads: seq<Upload>, stamps: seq<nat>,
                                     uuids: seq<string>, now: int, newId: string)
    requires |stamps| == |uploads| == |uuids| && newId !in db.requests
    requires CreateRequest(db, caller, requestType, reason, uploads, stamps, uuids, now, newId).response.Ok?
    requires other != caller
    ensures var out := CreateRequest(db, caller, requestType, reason, uploads, stamps, uuids, now, newId);
            && GetOwnRequest(out.db, caller, newId) == Ok(out.response.value)
            && GetOwnRequest(out.db, other, newId) == Err(HttpError(404, "Request not found"))
  {
  }

  // ---------------------------------------------------------------------
  // GET /announcements
  // ---------------------------------------------------------------------

  /** Active, and either without expiry or expiring strictly after `now`. */
  predicate Visible(a: AnnouncementModel.Announcement, now: int) {
    a.isActive && (a.expiresAt.None? || a.expiresAt.value > now)
  }

  function VisibleAt(now: int): AnnouncementModel.Announcement -> bool {
    (a: AnnouncementModel.Announcement) => Visible(a, now)
  }

  function AnnouncedAt(a: AnnouncementModel.Announcement): int {
    a.createdAt
  }

  /** GET /announcements: the visible announcements, newest first. */
  method VisibleAnnouncements(db: Db, now: int) returns (anns: seq<AnnouncementModel.Announcement>)
    ensures forall a :: a in anns <==> a in db.announcements.Values && Visible(a, now)
    ensures SortedDesc(anns, AnnouncedAt)
    ensures |anns| == |set k | k in db.announcements && Visible(db.announcements[k], now)|
  {
    anns := SelectSortedDesc(db.announcements, VisibleAt(now), AnnouncedAt);
    assert Selected(db.announcements, VisibleAt(now), db.announcements.Keys)
        == set k | k in db.announcements && Visible(db.announcements[k], now);
  }

  /** An announcement created with the default flag and no expiry is visible
      at every instant. */
  lemma DefaultAnnouncementAlwaysVisible(id: string, title: string, message: string, kind: Option<string>,
                                         createdBy: Option<string>, createdAt: int, now: int)
    requires AnnouncementModel.NewAnnouncement(id, title, message, kind, None, createdBy, None, createdAt).Ok?
    ensures Visible(AnnouncementModel.NewAnnouncement(id, title, message, kind, None, createdBy, None, createdAt).value, now)
  {
  }

  /** Once stored, such an announcement is listed by GET /announcements,
      whatever the time of the request. */
  method CreatedAnnouncementListed(db: Db, id: string, title: string, message: string, kind: Option<string>,
                                   createdBy: Option<string>, createdAt: int, now: int)
    returns (anns: seq<AnnouncementModel.Announcement>)
    requires AnnouncementModel.NewAnnouncement(id, title, message, kind, None, createdBy, None, createdAt).Ok?
    ensures AnnouncementModel.NewAnnouncement(id, title, message, kind, None, createdBy, None, createdAt).value in anns
  {
    var a := AnnouncementModel.NewAnnouncement(id, title, message, kind, None, createdBy, None, createdAt).value;
    DefaultAnnouncementAlwaysVisible(id, title, message, kind, createdBy, createdAt, now);
    var db1 := db.(announcements := db.announcements[id := a]);
    assert db1.announcements[id] == a;
    anns := VisibleAnnouncements(db1, now);
  }

  /** An announcement stops being visible at the instant it expires. */
  lemma ExpiryIsExclusive(a: AnnouncementModel.Announcement)
    requires a.isActive && a.expiresAt.Some?
    ensures Visible(a, a.expiresAt.value - 1)
    ensures !Visible(a, a.expiresAt.value)
  {
  }
}
