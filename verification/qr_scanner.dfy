/** The admin pickup scanner (client/src/pages/admin/QRScanner.jsx): the
    verify guard, the release action and its local update of the shown
    result, and when the release button or the released notice shows. A
    scan result is what the server's verify route answers on success (an
    error answer only sets a message). */
module QrScanner {
  import opened Prelude
  import opened Ui
  import opened UserModel
  import opened RequestModel
  import opened Store
  import AdminRoutes

  /** The request as the page holds it: the status is a string. */
  datatype ScannedRequest = ScannedRequest(id: string, requestType: string, status: string,
                                           qrCode: Option<string>)

  datatype ScanResult = ScanResult(valid: bool, request: Option<ScannedRequest>,
                                   student: Option<StudentInfo>)

  function ScannedOf(req: Request): ScannedRequest {
    ScannedRequest(req.id, TypeKey(req.requestType), StatusName(req.status), req.qrCode)
  }

  /** The result shown after a successful verify. */
  function ScanOf(v: AdminRoutes.Verified): ScanResult {
    ScanResult(true, Some(ScannedOf(v.request)), v.student)
  }

  const EnterCode := "Please enter a QR code"

  /** `verifyQRCode`: a code that is blank after trimming is refused on the
      page; any other code is sent as typed, untrimmed. */
  function VerifyAction(code: string): (r: Outcome<string>)
    ensures !r.NoCall?
    ensures r.Warn? <==> IsBlank(code)
    ensures r.Warn? ==> r.message == EnterCode
    ensures r.Call? ==> r.body == code
  {
    TrimEmptyIffBlank(code);
    if Trim(code) == "" then Warn(EnterCode) else Call(code)
  }

  /** Because the code is sent untrimmed, a stored code typed with a
      leading space is not found, since minted codes all start with
      "SELYO-". */
  lemma PaddedCodeNotFound(db: Db, code: string)
    requires QrCodesUnique(db.requests) && !IsBlank(code)
    requires forall k :: k in db.requests && db.requests[k].qrCode.Some? ==>
               StartsWith(db.requests[k].qrCode.value, "SELYO-")
    ensures VerifyAction(" " + code) == Call(" " + code)
    ensures AdminRoutes.Verify(db, " " + code) == Err(AdminRoutes.InvalidQrCode)
  {
    var j :| 0 <= j < |code| && !IsJsSpace(code[j]);
    assert (" " + code)[j + 1] == code[j];
    forall k | k in db.requests
      ensures db.requests[k].qrCode != Some(" " + code)
    {
      assert (" " + code)[0] == ' ';
    }
  }

  /** `markAsReleased`: nothing without a shown request carrying an id;
      otherwise a release of that id. */
  function ReleaseAction(scan: Option<ScanResult>): (r: Outcome<string>)
    ensures !r.Warn?
    ensures r.Call? <==> scan.Some? && scan.value.request.Some? && scan.value.request.value.id != ""
    ensures r.Call? ==> r.body == scan.value.request.value.id
  {
    if scan.None? || scan.value.request.None? || scan.value.request.value.id == "" then NoCall
    else Call(scan.value.request.value.id)
  }

  /** After a successful release the page patches the shown request's
      status to Released, keeping everything else. */
  function AfterRelease(scan: ScanResult): ScanResult
    requires scan.request.Some?
  {
    scan.(request := Some(scan.request.value.(status := "Released")))
  }

  /** The release button shows for a valid result whose request is not yet
      released; the released notice shows for one that is. */
  predicate ReleaseButtonShown(scan: ScanResult) {
    scan.valid && scan.request.Some? && scan.request.value.status != "Released"
  }

  predicate ReleasedNoticeShown(scan: ScanResult) {
    scan.valid && scan.request.Some? && scan.request.value.status == "Released"
  }

  /** The verified request is the stored one under its own id. */
  lemma VerifiedIsStored(db: Db, code: string)
    requires WellKeyed(db) && QrCodesUnique(db.requests)
    requires AdminRoutes.Verify(db, code).Ok?
    ensures var req := AdminRoutes.Verify(db, code).value.request;
            && req.id in db.requests && db.requests[req.id] == req
            && AdminRoutes.VerifiesForPickup(req.status)
  {
    var req := AdminRoutes.Verify(db, code).value.request;
    var k :| k in db.requests && db.requests[k] == req;
    var j :| j in db.requests && db.requests[j].qrCode == Some(code)
             && AdminRoutes.VerifiesForPickup(db.requests[j].status);
    assert j == k;
  }

  /** On a verified code, the button shows exactly when the server would
      release the request; the local patch then matches what the server
      stored, and the page switches to the released notice. */
  lemma ButtonMatchesServerRelease(db: Db, code: string)
    requires WellKeyed(db) && QrCodesUnique(db.requests)
    requires AdminRoutes.Verify(db, code).Ok?
    ensures var v := AdminRoutes.Verify(db, code).value;
            ReleaseButtonShown(ScanOf(v)) <==> AdminRoutes.Release(db, v.request.id).Ok?
    ensures var v := AdminRoutes.Verify(db, code).value;
            AdminRoutes.Release(db, v.request.id).Ok? ==>
              && AfterRelease(ScanOf(v)).request == Some(ScannedOf(AdminRoutes.Release(db, v.request.id).value.1))
              && ReleasedNoticeShown(AfterRelease(ScanOf(v)))
              && !ReleaseButtonShown(AfterRelease(ScanOf(v)))
  {
    VerifiedIsStored(db, code);
  }

  /** On a verified code, the release the page sends targets the stored
      request the scan shows, and the server accepts it exactly when the
      page offered the button. */
  lemma ReleaseActionTargetsVerified(db: Db, code: string)
    requires WellKeyed(db) && QrCodesUnique(db.requests)
    requires AdminRoutes.Verify(db, code).Ok?
    ensures var v := AdminRoutes.Verify(db, code).value;
            var a := ReleaseAction(Some(ScanOf(v)));
            && (a.Call? <==> v.request.id != "")
            && (a.Call? ==> && a.body == v.request.id && a.body in db.requests
                            && db.requests[a.body] == v.request
                            && (AdminRoutes.Release(db, a.body).Ok? <==> ReleaseButtonShown(ScanOf(v))))
  {
    VerifiedIsStored(db, code);
    ButtonMatchesServerRelease(db, code);
  }
}
