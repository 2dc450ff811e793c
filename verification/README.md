# Selyo registrar requests — a Dafny model

Selyo is a registrar's office system. Students file document requests (a
transcript, shifting, add/drop, irregular enrollment, document submission,
a subject petition). An administrator reviews each one, approves or rejects
it, books a campus visit when the request type needs one, and releases the
document against a pickup QR code.

This project models three parts of the system:

- the Express server: its four Mongoose models, the auth, student-request and
  admin routes, and the `protect`/`adminOnly`/`studentOnly` middleware;
- the in-browser mock API. `client/src/services/api.js` chooses between it
  and the real server with the `DEMO_MODE` constant, and the shipped value
  selects the mock;
- the decision logic of the React pages: the guards in front of each call,
  the filters and counters, the badge tables, the status timeline, the route
  guard, and the slot lists of the scheduling dialogs.

Everything is immutable data and pure functions:

- The server database is a `Store.Db`. Requests, appointments and
  announcements are maps keyed by id. Users are a sequence, so that the
  `$or` lookups of register and login deterministically find the first
  matching account. Uploaded files are a set of stored names.
- Each handler is a function from a store and its inputs to a `Result`. The
  result carries either the new store and the response body, or the
  `HttpError` (status code and message) the handler sends.
- The things a handler cannot compute are parameters: the id the database
  assigns, a uuid, the clock, the bcrypt hash and comparison, JWT signing
  and verification.
- A client event handler becomes a function to `Ui.Outcome`: no call, a
  warning toast, or a call with a given body. Its partner is a lemma
  connecting that body to the server handler it reaches. These lemmas
  describe the build with `DEMO_MODE` off, where the pages talk to the
  Express server:
  - `ReviewPage.RejectionStoredWithReason`, `ReviewPage.SchedulerMatchesBooking`,
    `ReviewPage.ScheduledBookingStored`;
  - `EditSlots.SavedEditMovesAppointment`;
  - `RequestDetail.ApprovalShowsQr`, `RequestDetail.ReleaseHidesQr`;
  - `QrScanner.VerifiedIsStored`, `QrScanner.ButtonMatchesServerRelease`,
    `QrScanner.ReleaseActionTargetsVerified`;
  - `RegisterPage.PostedFormAccepted`.
  With the shipped value, the same calls reach `MockApi`, whose answers
  its own rows describe.

Module layout:

- `Prelude`: `Option`/`Result` and the JavaScript string and array
  built-ins the code relies on (`split`, `trim`, `slice`, `findIndex`,
  `splice`, `filter`, ASCII case mapping, decimal `parseInt`).
- Server models: `UserModel`, `RequestModel`, `AppointmentModel`,
  `AnnouncementModel`.
- The store and its invariant: `Store`.
- Shared pieces: `Slots` (the slot catalog) and `Sorting` (newest-first
  listing).
- Server routes: `AuthMiddleware`, `AuthRoutes`, `RequestRoutes`,
  `AdminRoutes`.
- The mock API: `MockApi`.
- The client: `Ui`, `StatusBadges`, `Dashboards`, `ReviewPage`,
  `EditSlots`, `AppointmentsPage`, `RequestDetail`, `QrScanner`,
  `CreateRequestPage`, `RegisterPage`, `RouteGuard` (the route table and
  the guard) and `RoutePaths` (facts about concrete paths).

## Model

| member | source | states |
|---|---|---|
| UserModel.ParseRole | server/models/User.js:5-9 | a role name is accepted exactly when it is the name of one of the two roles, and parsing inverts naming |
| UserModel.ToJsonKeepsAllButPassword | server/models/User.js:57-61 | the JSON view drops the password and nothing else: putting the password back gives the stored user |
| UserModel.ToJsonInjectiveUpToPassword | server/models/User.js:57-61 | two users with the same JSON view differ at most in their password |
| UserModel.NewUser | server/models/User.js:5-37 | creation succeeds exactly when the role is in the enum, studentId, name, e-mail and password are present, the password has at least 6 characters and the year level is 1 to 5 or absent; the stored e-mail is lower-cased; otherwise a 500 |
| UserModel.PreSave | server/models/User.js:43-49 | saving changes only the password, which becomes its hash exactly when it was modified |
| UserModel.PreSaveNoDoubleHash | server/models/User.js:43-49 | saving again without touching the password keeps the hash as it is |
| UserModel.FindUser | server/models/Request.js:106-113 | the lookup returns a stored user with the asked id, and none only when no user has it |
| UserModel.PopulateStudent | server/models/Request.js:106-113 | a populated reference is present exactly when the user exists, carries that user's id, name, student id, e-mail and program, and shows the year level only where the populate asks for it |
| RequestModel.ParseType | server/models/Request.js:57-61 | a request type key is accepted exactly when it names a catalog entry |
| RequestModel.TypeKeyRoundTrip | server/models/Request.js:4-49 | every catalog type parses back from its own key |
| RequestModel.Info | server/models/Request.js:4-49 | exactly the three visit types require an appointment, and each entry lists its documented number of required documents |
| RequestModel.TypeInfoOf | server/models/Request.js:101-103 | the `typeInfo` virtual is defined exactly for catalog keys and is that key's catalog entry |
| RequestModel.ParseStatus | server/models/Request.js:68-82 | a status name is accepted exactly when it is one of the nine enum values |
| RequestModel.StatusNameRoundTrip | server/models/Request.js:68-82 | every status parses back from its name |
| RequestModel.NewRequest | server/models/Request.js:52-90 | a request is created exactly when it has a student, a catalog type and a status in the enum (Submitted when absent); it starts with no appointment, no code and no comment; otherwise a 500 |
| RequestModel.MintQrCode | server/routes/admin.js:75-79 | a minted code starts with `SELYO-` and ends with the last six characters of the request id, upper-cased |
| RequestModel.UpperKeepsNoDash | server/routes/admin.js:77 | upper-casing adds no '-' to a dash-free part |
| RequestModel.MintQrCodeFields | server/routes/admin.js:77 | splitting a minted code on '-' gives back exactly three fields: `SELYO`, the upper-cased first 8 uuid characters and the upper-cased last 6 id characters |
| AppointmentModel.ParseAppointmentStatus | server/models/Appointment.js:26-30 | an appointment status name is accepted exactly when it is one of the four enum values |
| AppointmentModel.NewAppointment | server/models/Appointment.js:4-33 | an appointment is created exactly when student, request, date, a non-empty time slot and purpose are present and the status is in the enum; it defaults to Scheduled; otherwise a 500 |
| AppointmentModel.Populate | server/models/Appointment.js:39-43 | a found appointment shows its student when that user exists, without the year level, and keeps every other field |
| AnnouncementModel.ParseAnnouncementType | server/models/Announcement.js:14-18 | an announcement type is accepted exactly when it is info, warning or urgent |
| AnnouncementModel.NewAnnouncement | server/models/Announcement.js:4-30 | creation succeeds exactly when the title has 1 to 100 characters, the message 1 to 500, the type is in the enum and the creator is given; the type defaults to info and the flag to active; otherwise a 500 |
| Store.OneAppointmentPerRequest | server/models/Request.js:92-96 | under the store's link invariant, two appointments of the same request are the same appointment |
| Slots.SlotCatalogDistinct | server/routes/admin.js:330-347 | the slot catalog holds 16 distinct half-hour slots, none of which starts at 12 |
| Sorting.InsertDesc | server/routes/requests.js:99-100 | inserting into a newest-first list keeps it newest-first, and the result holds the old elements and the new one, each as often as before |
| Sorting.SelectSortedDesc | server/routes/requests.js:99-100 | the selected documents are exactly those matching the filter, newest first, one per matching key |
| AuthMiddleware.Protect | server/middleware/auth.js:5-27 | a header without a Bearer prefix gives the no-token 401; access is granted exactly when the token verifies to an existing user, and then the user is exposed without the password; every other failure is a token-failed or user-not-found 401 |
| AuthMiddleware.RoleGate | server/middleware/auth.js:30-45 | a role gate admits exactly a present user of its role, unchanged, and otherwise answers 403 |
| AuthMiddleware.Guarded | server/middleware/auth.js:5-45 | a guarded route admits only users of its role |
| AuthMiddleware.GuardsDisjoint | server/middleware/auth.js:30-45 | no request passes both the admin and the student guard |
| AuthMiddleware.GuardedIff | server/middleware/auth.js:5-45 | a guarded route admits a caller exactly when `protect` does and the account has the role; an authenticated caller of the wrong role gets the 403 |
| AuthMiddleware.BearerTokenOf | server/middleware/auth.js:8-10 | the header `Bearer <token>` yields exactly the token, while a bare `Bearer` passes the prefix check but yields no token |
| AuthRoutes.RoleMismatch | server/routes/auth.js:82-86 | the role-mismatch answer is a 401 |
| AuthRoutes.Register | server/routes/auth.js:18-54 | a clashing e-mail or student id gives the 400; otherwise registration succeeds exactly when the schema accepts the fields, appends one student whose password is hashed and e-mail lower-cased, and answers with a token for the new id; the two unique indexes are preserved |
| AuthRoutes.FindLogin | server/routes/auth.js:64-69 | the lookup finds the first account whose e-mail is the lower-cased login or whose student id is the login, and none only when no account matches |
| AuthRoutes.Login | server/routes/auth.js:59-93 | a missing e-mail field, or a missing password for an account that is found, throws into the 500; login succeeds exactly when an account matches, a password is given and checks, and a given role agrees, and then returns that account's token and public view; every other failure is a 401 |
| AuthRoutes.UnknownAndWrongPasswordAlike | server/routes/auth.js:71-79 | an unknown account and a wrong password get the same answer |
| AuthRoutes.RoleCheckedLast | server/routes/auth.js:81-86 | a correct password with the wrong role gets the role-mismatch 401 |
| AuthRoutes.RegisterThenLogin | server/routes/auth.js:18-93 | a newly registered student can log in with the e-mail in any letter case and the password, as a student or with no role, unless an older account has the typed text as its student id |
| RequestRoutes.Extname | server/routes/requests.js:17 | an extension is empty or a '.'-led suffix of the name |
| RequestRoutes.ExtnameOf | server/routes/requests.js:17 | the extension of `s.t` is `.t` when t holds no '.' or '/' |
| RequestRoutes.FileFilterIsUnanchored | server/routes/requests.js:25-34 | the type test is unanchored: `scan.PDFX` with a PDF mimetype passes |
| RequestRoutes.FileFilterUsesLastExtension | server/routes/requests.js:25-34 | only the last extension counts: `scan.pdf.exe` is refused |
| RequestRoutes.MulterAcceptsIff | server/routes/requests.js:22-35 | an upload goes through exactly when it has at most the allowed number of parts and every part passes the filter and the size limit |
| RequestRoutes.UploadAcceptedIff | server/routes/requests.js:22-35 | the route accepts at most 5 documents, each passing the type filter and at most 5 MB |
| RequestRoutes.StoredNameShape | server/routes/requests.js:16-19 | a stored name begins with the timestamp up to its first '-' and ends with the original extension |
| RequestRoutes.StoredNames | server/routes/requests.js:72 | the stored names follow the uploads one for one, in order |
| RequestRoutes.CreateRequest | server/routes/requests.js:68-92 | a refused upload stores nothing; otherwise the files are stored, and the request is created exactly when a type is given and is a catalog key; the new request is Submitted, belongs to the caller and lists the stored names; a failed creation leaves the requests unchanged |
| RequestRoutes.CreateRequestPreservesValid | server/routes/requests.js:68-92 | creating a request keeps the store invariant |
| RequestRoutes.ListOwnRequests | server/routes/requests.js:97-107 | the list holds exactly the caller's requests, newest first |
| RequestRoutes.GetOwnRequest | server/routes/requests.js:112-128 | a request is returned exactly when it exists and belongs to the caller; otherwise a 404 |
| RequestRoutes.CreatedRequestOwnedByCreator | server/routes/requests.js:68-128 | a request just created is returned to its creator, and is a 404 for every other caller |
| RequestRoutes.VisibleAnnouncements | server/routes/requests.js:40-56 | the list holds exactly the active announcements that have no expiry or expire after now, newest first |
| RequestRoutes.DefaultAnnouncementAlwaysVisible | server/models/Announcement.js:4-30 | an announcement created with the default active flag and no expiry is visible at every instant |
| RequestRoutes.CreatedAnnouncementListed | server/routes/requests.js:40-56 | once stored, such an announcement is in the list at any time of the request |
| RequestRoutes.ExpiryIsExclusive | server/routes/requests.js:45-48 | an announcement is visible just before its expiry instant and not at it |
| AdminRoutes.UpdateRequestStatus | server/routes/admin.js:56-92 | an unknown id gives the 404; the update succeeds exactly when the request exists, a given status is in the enum, and a code it has to mint is not already held by another request (the unique index's E11000 collision is the 500); then the status is overwritten (absent reads back as Submitted), the comment only by a non-empty one, and on Approved or Ready for Pickup a request without a code gets exactly the code minted from the uuid and the id; nothing else changes |
| AdminRoutes.FirstApprovalMintsCode | server/routes/admin.js:67-81 | the first approval of a request without a code succeeds whenever the minted code is free, and stores that code |
| AdminRoutes.MintOnce | server/routes/admin.js:75-79 | once a code is minted, later updates keep it, whatever uuid they would use |
| AdminRoutes.ServerAcceptsRejectionWithoutComment | server/routes/admin.js:56-92 | the server stores a rejection that has no comment |
| AdminRoutes.Verify | server/routes/admin.js:138-165 | an unknown code gives the 404; a known code verifies exactly when its request is Approved, Ready for Pickup or Released, and then returns that request with its student; otherwise the 400 |
| AdminRoutes.Release | server/routes/admin.js:171-195 | an unknown id gives the 404; a release succeeds exactly when the request exists and is Approved or Ready for Pickup, and then only its status changes, to Released; otherwise the 400 |
| AdminRoutes.ReleaseTwiceFails | server/routes/admin.js:179-183 | releasing again is the 400, not a no-op |
| AdminRoutes.ReleasedStillVerifies | server/routes/admin.js:150-161 | after release the code stays unique and still verifies |
| AdminRoutes.ListAppointments | server/routes/admin.js:205-229 | every stored appointment matching the given date and status is listed, populated, and every listed entry is the populated view of a stored match |
| AdminRoutes.BookedAppointmentListed | server/routes/admin.js:205-272 | a fresh booking shows up in the unfiltered list and in the list of that day's Scheduled appointments |
| AdminRoutes.Book | server/routes/admin.js:235-272 | an unknown request gives the 404, an existing appointment the 400; booking succeeds exactly when the student exists, a date and a slot are given; it adds one Scheduled appointment for the request's student and type and links the request as Appointment Scheduled; nothing else changes |
| AdminRoutes.BookIgnoresSlotConflicts | server/routes/admin.js:245-261 | two requests can be booked into the same slot on the same day |
| AdminRoutes.Cascade | server/routes/admin.js:293-304 | Completed completes the request, No-Show returns it to Under Review with the fixed comment, any other status leaves the requests alone; no request's id, appointment link or code changes |
| AdminRoutes.UpdateAppointment | server/routes/admin.js:278-315 | an unknown id gives the 404; the update succeeds exactly when a given status is in the enum; date, slot and status change only when given, notes whenever the key is sent; the request follows the cascade; nothing else changes |
| AdminRoutes.AvailableSlots | server/routes/admin.js:321-373 | without a date the 400; otherwise the booked slots are exactly those of that day's non-cancelled appointments, and the available ones are exactly the catalog slots not booked |
| AdminRoutes.AvailableSlotsInCatalogOrder | server/routes/admin.js:362 | the available slots are catalog entries in catalog order, without duplicates |
| AdminRoutes.DeleteRequest | server/routes/admin.js:99-131 | an unknown id gives the 404; otherwise exactly that request, its files and its appointment are removed, and everything else is unchanged |
| AdminRoutes.UpdateRequestStatusPreservesValid | server/routes/admin.js:56-92 | a status update keeps the store invariant, including unique codes |
| AdminRoutes.ReleasePreservesValid | server/routes/admin.js:171-195 | a release keeps the store invariant |
| AdminRoutes.BookPreservesValid | server/routes/admin.js:235-272 | a booking keeps the store invariant, including one appointment per request |
| AdminRoutes.UpdateAppointmentPreservesValid | server/routes/admin.js:278-315 | an appointment update keeps the store invariant |
| AdminRoutes.DeleteRequestPreservesValid | server/routes/admin.js:99-131 | a delete keeps the store invariant and leaves no appointment pointing at the deleted request |
| MockApi.GetCurrentUser | client/src/services/mockApi.js:232-238 | no token means no user; the seeded student or admin is returned exactly when the token's second '_' field names that role |
| MockApi.TokenRoundTrip | client/src/services/mockApi.js:353-361 | a token the mock issues maps back to the user it was issued for |
| MockApi.MockLogin | client/src/services/mockApi.js:348-367 | login succeeds exactly as an admin with an e-mail containing "admin" or as a student; the token maps back to the returned user of the asked role; otherwise a 401 |
| MockApi.MockRegister | client/src/services/mockApi.js:369-381 | the returned account is the body spread over the defaults: an id or role in the body overrides `student_<generated>` and student, and every other field is the body's; the token always opens the seeded student's session |
| MockApi.MockListRequests | client/src/services/mockApi.js:286-289 | the call throws exactly when some request has no student, or there are requests and no session; otherwise it returns exactly the requests whose stored student id is the session user's |
| MockApi.MockCreatedRequestListed | client/src/services/mockApi.js:286-289 | with a session, a request just created appears in the session user's list |
| MockApi.MockOtherStudentsHidden | client/src/services/mockApi.js:286-289 | a request owned by anyone but the two seeded accounts never appears in the list |
| MockApi.MockGetRequest | client/src/services/mockApi.js:291-296 | a request is returned exactly when one has the id, whoever owns it, and it is the first with that id; otherwise a 404 |
| MockApi.MockAnnouncements | client/src/services/mockApi.js:298-300 | the student list holds exactly the active announcements, whatever their expiry; only `/student/announcements` reaches it (see `StudentAnnouncementsUrlShadowed`) |
| MockApi.MockCreatedAnnouncementShown | client/src/services/mockApi.js:298-300 | a newly posted announcement heads the student list, followed by the list as it was |
| MockApi.MockGetStats | client/src/services/mockApi.js:328-339 | the total counts every request, pending counts exactly the Submitted and Under Review ones, approved exactly the Approved ones, the two never exceed the total, and the day's appointments are the constant 2 |
| MockApi.MockCreateCountsAsPending | client/src/services/mockApi.js:328-401 | creating a request adds one to the total and to pending and leaves approved alone |
| MockApi.MockCreateRequest | client/src/services/mockApi.js:384-401 | the new Submitted request goes to the front, owned by the session user, with the given type, reason, code and creation time, without appointment or comment; nothing else changes |
| MockApi.MockCreateAppointment | client/src/services/mockApi.js:404-425 | booking fails with a 404 exactly when no request has the id; otherwise a Scheduled appointment on the given date and time slot is appended, and the first such request is linked and marked Appointment Scheduled |
| MockApi.MockBooksTwice | client/src/services/mockApi.js:404-425 | the mock books the same request twice, into the same slot |
| MockApi.MergeRequest | client/src/services/mockApi.js:451 | merging a body changes exactly the fields it carries |
| MockApi.MergeAppointment | client/src/services/mockApi.js:461 | merging a body changes exactly the fields it carries, and an empty body changes nothing |
| MockApi.MockPutRequest | client/src/services/mockApi.js:446-453 | an update fails with a 404 exactly when no request has the id; otherwise only that request is merged |
| MockApi.MockPutAppointment | client/src/services/mockApi.js:456-463 | an update fails with a 404 exactly when no appointment has the id; otherwise only that appointment is merged, and its request is left as it was |
| MockApi.MockPutIdempotent | client/src/services/mockApi.js:446-463 | sending the same update twice is sending it once |
| MockApi.MockDeleteRequest | client/src/services/mockApi.js:472-479 | a delete fails with a 404 exactly when no request has the id; otherwise the first such request is removed and its appointments stay |
| MockApi.MockCreateThenDelete | client/src/services/mockApi.js:384-479 | deleting a freshly created request gives the store back |
| MockApi.MockDeleteAnnouncement | client/src/services/mockApi.js:482-487 | an announcement delete always succeeds and removes one announcement exactly when one has the id, namely the first with that id, keeping the rest in order |
| MockApi.MockDeleteAnnouncementIdempotent | client/src/services/mockApi.js:482-487 | with distinct ids, deleting twice is deleting once |
| MockApi.MockCreateAnnouncement | client/src/services/mockApi.js:428-437 | the new announcement goes to the front with the posted title, message, type and creation time, and is active whatever the body says; nothing else changes |
| MockApi.MockCreateThenDeleteAnnouncement | client/src/services/mockApi.js:428-487 | deleting an announcement just posted under a fresh id gives the store back |
| MockApi.LastSegment | client/src/services/mockApi.js:292 | the id taken from a URL is its suffix after the last '/', and holds no '/' |
| MockApi.MeAnswer | client/src/services/mockApi.js:252-255 | `/auth/me` answers the session user, and the 401 exactly when there is none |
| MockApi.AvailableSlots | client/src/services/mockApi.js:318-322 | the mock's free slots are exactly the catalog slots the coin keeps |
| MockApi.Answer | client/src/services/mockApi.js:249-341 | every handler fails only with one of the four errors the mock throws, the route-not-found one only when no handler matches; each route is answered by its handler (`/auth/me` by the session user, the student lists by the owner filter, the by-id routes by the lookup of the last segment, the admin lists by the whole stored arrays, the stats by the counts); the student announcements are active and the slots come from the catalog |
| MockApi.MockGet | client/src/services/mockApi.js:246-342 | the GET dispatch fails only with the mock's four errors, and with the route-not-found 404 exactly when no handler matches the URL |
| MockApi.LastSegmentOfRequestUrl | client/src/services/mockApi.js:291-292 | the id read from `/requests/<id>` is `<id>` when it holds no '/' |
| MockApi.RequestUrlFindsRequest | client/src/services/mockApi.js:291-296 | `/requests/<id>`, for any id other than `types`, reaches the request lookup for that id |
| MockApi.StudentAnnouncementsUrlShadowed | client/src/services/mockApi.js:291-300 | `/requests/announcements` is caught by the request-by-id handler and answers the 404, while `/student/announcements` answers the active announcements |
| StatusBadges.ReviewStatusClass | client/src/pages/admin/RequestReview.jsx:200-205 | the review page colours the four done statuses approved, Appointment Scheduled info, Rejected rejected and everything else pending |
| StatusBadges.DocumentStatusClass | client/src/pages/admin/Dashboard.jsx:106-110 | the dashboard colours Approved, Ready for Pickup and Released approved, Rejected rejected and everything else pending |
| StatusBadges.AppointmentStatusClass | client/src/pages/admin/Appointments.jsx:100-104 | the appointments page colours Completed approved, No-Show and Cancelled rejected and everything else pending |
| StatusBadges.ReviewAndDashboardClassesDiffer | client/src/pages/admin/RequestReview.jsx:200-205 | the review page and the dashboard disagree exactly on Completed and Appointment Scheduled |
| StatusBadges.StatusPageBadge | client/src/pages/student/RequestStatus.jsx:32-45 | an unknown status shows as itself and pending; only Pending Dean Approval gets the dean class; Appointment Scheduled is labelled Scheduled |
| StatusBadges.DashboardBadge | client/src/pages/student/Dashboard.jsx:56-69 | an unknown status shows upper-cased and pending |
| StatusBadges.BadgeClassesAgree | client/src/pages/student/Dashboard.jsx:56-69 | the dashboard and the request list give every status the same class |
| StatusBadges.BadgeLabelsAgree | client/src/pages/student/Dashboard.jsx:56-69 | the dashboard label is the request-list label upper-cased, except for Pending Dean Approval |
| StatusBadges.PendingDeanShortened | client/src/pages/student/Dashboard.jsx:56-69 | the dashboard shortens the Pending Dean Approval label |
| StatusBadges.PositiveIffGoodBadge | client/src/pages/student/RequestStatus.jsx:47-49 | a status is positive exactly when its badge is approved, ready or completed, on both pages |
| StatusBadges.EveryServerStatusHasBadge | client/src/pages/student/RequestStatus.jsx:32-45 | the nine server statuses get nine different labels, and only Appointment Scheduled is relabelled |
| Dashboards.Greeting | client/src/pages/admin/Dashboard.jsx:84-89 | the greeting is one of the three fixed phrases |
| Dashboards.GreetingAdvances | client/src/pages/student/Dashboard.jsx:40-45 | the greeting moves forward through the day, changing at 12 and at 18 |
| Dashboards.StatsOf | client/src/pages/admin/Dashboard.jsx:91-96 | the total counts every request, the three buckets never exceed it, and they add up to it exactly when every status falls in a bucket |
| Dashboards.FilteredRequests | client/src/pages/admin/Dashboard.jsx:98-104 | the all tab shows every request; another tab shows exactly the requests of its bucket, as many as its counter says |
| Dashboards.AdminRows | client/src/pages/admin/Dashboard.jsx:274 | the table shows the first 15 rows of the tab, or all of them when there are fewer |
| Dashboards.RecentRequests | client/src/pages/student/Dashboard.jsx:54 | the recent list is the first four requests, or all of them when there are fewer |
| Dashboards.RecentAreNewest | client/src/pages/student/Dashboard.jsx:54 | on a newest-first list, no request left out of the recent list is newer than one shown |
| Dashboards.TabsMatchBadgeClasses | client/src/pages/admin/Dashboard.jsx:91-110 | the approved and rejected tabs hold exactly the rows with those badge colours, and pending rows are coloured pending |
| ReviewPage.RequiresAppointmentAgreesWithCatalog | client/src/pages/admin/RequestReview.jsx:8 | for every catalog type the page's visit list agrees with the server's requiresAppointment flag |
| ReviewPage.CrossEnrollmentIsNotAType | client/src/pages/admin/RequestReview.jsx:8 | the page lists Cross-Enrollment as a visit type, which the server does not know |
| ReviewPage.StatusOptionsAreServerStatuses | client/src/pages/admin/RequestReview.jsx:37-43 | every status option is a server status, and the options are exactly the five listed |
| ReviewPage.UpdateStatusAction | client/src/pages/admin/RequestReview.jsx:132-143 | nothing is sent without a selection; a rejection with a blank comment is refused; otherwise the selection and comment are sent, so a sent rejection always has a reason |
| ReviewPage.RejectionStoredWithReason | client/src/pages/admin/RequestReview.jsx:132-143 | a rejection the page sends is stored as Rejected with its comment |
| ReviewPage.EnabledButtonSendsChange | client/src/pages/admin/RequestReview.jsx:439 | the update button is disabled on the current status; an enabled button sends a different status |
| ReviewPage.SchedulerMatchesBooking | client/src/pages/admin/RequestReview.jsx:321 | the scheduler shows exactly for a visit type without an appointment; booking from it never hits the already-scheduled error, and a successful booking hides it |
| ReviewPage.ScheduleAction | client/src/pages/admin/RequestReview.jsx:155-159 | scheduling is refused exactly when the date or the slot is empty; otherwise the three fields are sent |
| ReviewPage.ScheduledBookingStored | client/src/pages/admin/RequestReview.jsx:155-170 | a booking the page sends from a shown scheduler, for a request whose student exists, is accepted and stores the sent day, slot and notes, linked to the request |
| EditSlots.EditSlotList | client/src/pages/admin/RequestReview.jsx:498-518 | the dialog offers the fetched slots, plus the appointment's own slot exactly when it is missing and the original date is selected; no slot is offered twice |
| EditSlots.SaveEdit | client/src/pages/admin/Appointments.jsx:71-78 | an edit is saved exactly when both date and slot are set, and then sends them |
| EditSlots.OwnSlotAlwaysOffered | client/src/pages/admin/Appointments.jsx:264-283 | on the original date, the appointment's own slot is offered once, after the free slots |
| EditSlots.SavedEditMovesAppointment | client/src/pages/admin/Appointments.jsx:71-78 | a saved edit moves the appointment and leaves the requests alone |
| AppointmentsPage.FilterAppointments | client/src/pages/admin/Appointments.jsx:96-98 | the all filter shows every row; another shows exactly the rows with that status |
| AppointmentsPage.FilterAgainIsStable | client/src/pages/admin/Appointments.jsx:96-98 | filtering the filtered rows again changes nothing |
| AppointmentsPage.RowActionsOf | client/src/pages/admin/Appointments.jsx:201-227 | a row offers the status buttons exactly when Scheduled, and otherwise links to its request |
| AppointmentsPage.PendingBadgeIffButtons | client/src/pages/admin/Appointments.jsx:100-104 | a row is coloured pending exactly when it offers the buttons, that is, when it is Scheduled |
| AppointmentsPage.ButtonsSettleAppointment | client/src/pages/admin/Appointments.jsx:201-227 | pressing Completed or No-Show succeeds, takes the buttons away and updates the request as the server's cascade says |
| RequestDetail.StepIndex | client/src/pages/student/RequestDetail.jsx:36-48 | Released is past the last step, a timeline status is its own step, and Rejected or any other status is no step |
| RequestDetail.Mark | client/src/pages/student/RequestDetail.jsx:105-107 | a step is never both done and current, and only the first step of a rejected request is failed |
| RequestDetail.MarksFollowTheStatus | client/src/pages/student/RequestDetail.jsx:105-107 | at step k the earlier steps are done, step k is current and none is failed |
| RequestDetail.ReleasedAndRejectedTimelines | client/src/pages/student/RequestDetail.jsx:46-47 | a released request has every step done; a rejected one only its first step failed |
| RequestDetail.VisitStatusesShowNoProgress | client/src/pages/student/RequestDetail.jsx:36-48 | Appointment Scheduled and Completed show no progress at all |
| RequestDetail.ApprovalShowsQr | client/src/pages/student/RequestDetail.jsx:185 | once the server approves a request the student sees its QR code |
| RequestDetail.ReleaseHidesQr | client/src/pages/student/RequestDetail.jsx:185 | after release the QR code is hidden, although it still verifies |
| QrScanner.VerifyAction | client/src/pages/admin/QRScanner.jsx:13-24 | a blank code is refused; any other code is sent untrimmed |
| QrScanner.PaddedCodeNotFound | client/src/pages/admin/QRScanner.jsx:24 | a code with a leading space passes the page's check but the server does not find it |
| QrScanner.ReleaseAction | client/src/pages/admin/QRScanner.jsx:38-49 | a release is sent exactly when a scanned request with an id is on screen, and for that id |
| QrScanner.VerifiedIsStored | client/src/pages/admin/QRScanner.jsx:24 | a verified scan shows the stored request that holds the code |
| QrScanner.ButtonMatchesServerRelease | client/src/pages/admin/QRScanner.jsx:116-135 | the release button shows exactly when the server would release the request; afterwards the page shows the released notice and agrees with the stored request |
| QrScanner.ReleaseActionTargetsVerified | client/src/pages/admin/QRScanner.jsx:13-49 | after a verified scan the release goes to the id of the stored request the scan shows, and the server accepts it exactly when the page offered the button |
| CreateRequestPage.FallbackIsTheNonVisitCatalog | client/src/pages/student/CreateRequest.jsx:25-38 | the fallback type list holds exactly the non-visit catalog types, with the server's entries |
| CreateRequestPage.AddFiles | client/src/pages/student/CreateRequest.jsx:57-64 | added files go after the chosen ones, in order |
| CreateRequestPage.RemoveFile | client/src/pages/student/CreateRequest.jsx:67-69 | removing a file at a valid position deletes exactly that one, and an invalid position changes nothing |
| CreateRequestPage.RemoveLastAdded | client/src/pages/student/CreateRequest.jsx:57-69 | removing the file just added gives the earlier list back |
| CreateRequestPage.PanelsFollowTheCatalog | client/src/pages/student/CreateRequest.jsx:214-257 | the requirements and upload panels never show together, and requirements show exactly for a visit type |
| CreateRequestPage.SubmitAction | client/src/pages/student/CreateRequest.jsx:71-92 | submitting without a type is refused; otherwise the type, reason and every chosen file are sent |
| CreateRequestPage.HiddenFilesStillSent | client/src/pages/student/CreateRequest.jsx:71-92 | files chosen before switching to a visit type are still sent, though the upload panel is hidden |
| RegisterPage.SubmitRegistration | client/src/pages/Register.jsx:52-73 | mismatched passwords are reported first, then a short password; otherwise the form is sent as a student with the year parsed as a number |
| RegisterPage.YearOptionsParse | client/src/pages/Register.jsx:203-208 | each year option parses to its number |
| RegisterPage.PostedFormAccepted | client/src/pages/Register.jsx:65-73 | a form the page sends, with filled fields and a free e-mail and student id, is registered as a student of the chosen year |
| RouteGuard.Guard | client/src/components/ProtectedRoute.jsx:7-36 | the guard shows a spinner while loading, sends a visitor to login, lets a user through exactly when the route's role is theirs or unset, and otherwise redirects an admin to the admin home and anyone else to the student home |
| RouteGuard.StudentPage | client/src/App.jsx:33-38 | a path below `/student/` is a student page exactly when it is one of the four child routes, and a detail page carries a non-empty id |
| RouteGuard.AdminPage | client/src/App.jsx:41-46 | a path below `/admin/` is an admin page exactly when it is one of the four child routes, and a review page carries a non-empty id |
| RouteGuard.PageOf | client/src/App.jsx:26-50 | a detail or review page matched from a path carries a non-empty id |
| RouteGuard.RouteRole | client/src/App.jsx:28-49 | after lower-casing and dropping trailing slashes, a path needs the student role exactly when it is `/student` or one of its children, the admin role exactly when it is `/admin` or one of its children, and no role otherwise; an unknown child falls to the catch-all route |
| RouteGuard.RouteRoleIgnoresCase | client/src/App.jsx:26-50 | route matching ignores letter case |
| RoutePaths.HomesInTheirGroups | client/src/App.jsx:33-46 | each role's home page is in that role's route group |
| RoutePaths.UnknownStudentPathFallsBack | client/src/App.jsx:33-49 | `/student/unknown` matches no student child, so the catch-all route takes it and no role is needed |
| RoutePaths.RequestDetailPathGuarded | client/src/App.jsx:33-37 | `/student/request/<id>` is the detail page for that id, guarded by the student role, whenever the id is not `new` in any letter case |
| RoutePaths.NoRedirectLoop | client/src/components/ProtectedRoute.jsx:30-34 | a redirect for a known role lands on a page that lets that user in |
| RoutePaths.UnknownRoleWouldLoop | client/src/components/ProtectedRoute.jsx:30-34 | a user with an unknown role would be redirected to the student home again and again |

## Left out

- Express dispatch itself: URL parsing, JSON bodies and `res.status(...).json(...)` are not modelled. Each handler is called with already-parsed inputs and returns a `Result`.
- The admin `GET /requests`, `GET /requests/:id` and `GET /request-types` routes are not modelled. They are plain reads with no logic beyond a filter and a populate.
- The announcement create, update and delete routes of `admin.js` are not modelled. Only the schema rules (`AnnouncementModel.NewAnnouncement`) and the student listing are.
- `GET /auth/me` is not modelled: it returns the user `protect` already loaded.
- bcrypt, JWT and uuid are parameters (`hash`, `matches`, `sign`, `verify`, the uuid string). Their cryptographic properties are not modelled. `AuthRoutes.RegisterThenLogin` assumes only that a password matches its own hash.
- File storage is a set of stored names. Disk writes, `fs.unlink` and the errors they can throw are not modelled.
- AdminRoutes.DeleteRequest: an unlink that throws would abort the handler with a 500. The model treats unlinking as never failing.
- Dates are integer day numbers and times are integers. Calendar arithmetic, time zones and the client's `toISOString` date comparisons are not modelled.
- AdminRoutes.ListAppointments: returns a set. The `sort({ date: 1, timeSlot: 1 })` order is not modelled, because it compares slot strings lexically.
- AdminRoutes.AvailableSlots: `bookedSlots` is a set. The order and duplicates of the source's array are not modelled.
- Concurrency between requests is not modelled: every handler runs alone on one store.
- The mock API's random ids, `Date.now()` and `localStorage` are parameters. Its artificial delay is not modelled.
- MockApi.AvailableSlots: the `Math.random() > 0.3` coin of `GET /admin/slots` is a parameter (`keepSlot`), so which slots it drops is not modelled.
- MockApi.MockGet: the body of `/requests/types` is not spelled out. The dispatch answers `TypesBody` for it, whose catalog content is not modelled.
- AdminRoutes.UpdateRequestStatus: answers the stored request, with `student` and `appointment` as ids. The source re-reads it through the `pre(/^find/)` hook, which populates both; the populate is modelled by `UserModel.PopulateStudent` and `AppointmentModel.Populate` and not applied to this response.
- AdminRoutes.Release: answers the stored request unpopulated, for the same reason.
- AdminRoutes.Verify: answers the stored request with `student` and `appointment` as ids. The source finds it with `Request.findOne`, whose `pre(/^find/)` hook populates both. The separate `student` field of the answer is populated, as in the source.
- RequestRoutes.CreateRequest: answers the created request unpopulated. The source re-reads it with `Request.findById`, whose `pre(/^find/)` hook populates `student` and `appointment`.
- StatusBadges: the pages' `map[status] || fallback` lookups would also hit inherited object properties, so a status named `constructor` would not get the fallback. The model maps only the listed statuses. The server's status enum never produces such a name.
- RequestRoutes.ListOwnRequests: returns the requests unpopulated. The schema's `pre(/^find/)` hook that populates `student` and `appointment` on every find is left to `UserModel.PopulateStudent` and `AppointmentModel.Populate`, and is not applied to the listed requests.
- RequestRoutes.GetOwnRequest: returns the request unpopulated, for the same reason.
- RouteGuard.RouteRole: route matching models lower-casing and trailing slashes only. Repeated slashes, URL decoding and react-router's ranking of routes are not modelled.
- MockApi.GetCurrentUser: token fields that name an inherited object property are not modelled.
- Case mapping is ASCII only (`Prelude.Lower`/`Upper`). Unicode case folding is not modelled.
- String lengths count characters, not UTF-16 code units.
- RequestRoutes.Extname: dot-files and names ending in '.' follow the model's reading of `path.extname`. The Node edge cases for those are not modelled.
- JSON `null` and a missing field are both `None`.
- `Prelude.ParseIntJs`: only the decimal form is modelled. The `0x` prefix, which the year select never produces, is not.
- React rendering, effects and state hooks are not modelled, only the decisions the handlers and render conditions make.
- A malformed ObjectId that makes a Mongoose cast fail with a 500 is not modelled. Ids are opaque strings.
- Where the code and its documentation disagree, the model follows the code:
  - booking and rescheduling never check whether a slot is taken;
  - a second release is a 400 rather than a no-op;
  - deleting a request is not best-effort about its files.
