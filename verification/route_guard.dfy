/** The client's route guard (client/src/components/ProtectedRoute.jsx) and
    the route table of client/src/App.jsx: three public pages, a /student
    group and an /admin group, each guarded by its role and holding its
    declared child pages, and a catch-all that navigates home. The router
    matches paths ignoring letter case and trailing slashes. The signed-in
    user is given by their role name. */
module RouteGuard {
  import opened Prelude
  import opened UserModel

  datatype GuardView = Spinner | Redirect(path: string) | Outlet

  const StudentHome := "/student/dashboard"
  const AdminHome := "/admin/dashboard"

  /** `ProtectedRoute`: the spinner while the session loads, the login page
      for a signed-out visitor, the visitor's own dashboard on a role
      mismatch, and the page itself otherwise. */
  function Guard(loading: bool, user: Option<string>, role: Option<string>): (v: GuardView)
    ensures loading ==> v == Spinner
    ensures !loading && user.None? ==> v == Redirect("/login")
    ensures v == Outlet <==> !loading && user.Some? && (!Present(role) || user.value == role.value)
    ensures v.Redirect? && user.Some? ==> v.path == (if user.value == "admin" then AdminHome else StudentHome)
  {
    if loading then Spinner
    else if user.None? then Redirect("/login")
    else if Present(role) && user.value != role.value then
      Redirect(if user.value == "admin" then AdminHome else StudentHome)
    else Outlet
  }

  /** The pages of the route table. `StudentOutlet` and `AdminOutlet` are
      the bare group paths: the guard runs and the outlet stays empty.
      `Fallback` is the catch-all, which navigates to "/". */
  datatype Page =
    | Landing | LoginPage | RegisterPage
    | StudentOutlet | StudentDashboard | CreateRequest | RequestStatus | RequestDetail(id: string)
    | AdminOutlet | AdminDashboard | RequestReview(id: string) | QrScanner | Appointments
    | Fallback

  /** The role the guard of a page's group requires, None outside both groups. */
  function PageRole(pg: Page): Option<string> {
    match pg
    case StudentOutlet | StudentDashboard | CreateRequest | RequestStatus | RequestDetail(_) => Some("student")
    case AdminOutlet | AdminDashboard | RequestReview(_) | QrScanner | Appointments => Some("admin")
    case _ => None
  }

  /** Drops trailing slashes, keeping a lone "/". */
  function StripTrailingSlashes(s: string): (r: string)
    ensures |r| <= |s| && r == s[..|r|]
    ensures r != [] && r[|r| - 1] == '/' ==> r == "/"
    ensures forall j :: |r| <= j < |s| ==> s[j] == '/'
  {
    if |s| > 1 && s[|s| - 1] == '/' then StripTrailingSlashes(s[..|s| - 1]) else s
  }

  /** The form the router compares: lower case, no trailing slashes. */
  function Normal(path: string): string {
    StripTrailingSlashes(Lower(path))
  }

  /** `rest` is `prefix` followed by one non-empty `:id` segment. */
  predicate IsParam(rest: string, prefix: string) {
    && StartsWith(rest, prefix)
    && |rest| > |prefix|
    && forall j :: |prefix| <= j < |rest| ==> rest[j] != '/'
  }

  /** The child paths the /student group declares. */
  predicate StudentChild(rest: string) {
    rest == "dashboard" || rest == "request/new" || rest == "requests" || IsParam(rest, "request/")
  }

  /** The child paths the /admin group declares. */
  predicate AdminChild(rest: string) {
    rest == "dashboard" || rest == "verify" || rest == "appointments" || IsParam(rest, "request/")
  }

  /** The page under /student for the normalized rest `rest`; `raw` is the
      same stretch of the path as typed, which supplies the id. A static
      child outranks `request/:id`. */
  function StudentPage(rest: string, raw: string): (pg: Page)
    requires |raw| == |rest|
    ensures pg != Fallback <==> StudentChild(rest)
    ensures pg != Fallback ==> PageRole(pg) == Some("student")
    ensures pg.RequestDetail? ==> pg.id != []
  {
    if rest == "dashboard" then StudentDashboard
    else if rest == "request/new" then CreateRequest
    else if rest == "requests" then RequestStatus
    else if IsParam(rest, "request/") then RequestDetail(raw[8..])
    else Fallback
  }

  /** The page under /admin, as `StudentPage`. */
  function AdminPage(rest: string, raw: string): (pg: Page)
    requires |raw| == |rest|
    ensures pg != Fallback <==> AdminChild(rest)
    ensures pg != Fallback ==> PageRole(pg) == Some("admin")
    ensures pg.RequestReview? ==> pg.id != []
  {
    if rest == "dashboard" then AdminDashboard
    else if rest == "verify" then QrScanner
    else if rest == "appointments" then Appointments
    else if IsParam(rest, "request/") then RequestReview(raw[8..])
    else Fallback
  }

  /** The page the route table renders for a location path. */
  function PageOf(path: string): (pg: Page)
    ensures pg.RequestDetail? || pg.RequestReview? ==> |pg.id| > 0
  {
    var p := Normal(path);
    if p == "/" then Landing
    else if p == "/login" then LoginPage
    else if p == "/register" then RegisterPage
    else if p == "/student" then StudentOutlet
    else if StartsWith(p, "/student/") then StudentPage(p[9..], path[9..|p|])
    else if p == "/admin" then AdminOutlet
    else if StartsWith(p, "/admin/") then AdminPage(p[7..], path[7..|p|])
    else Fallback
  }

  /** The public paths and the two groups do not overlap. */
  lemma GroupsApart(p: string)
    ensures StartsWith(p, "/student/") || p == "/student" ==> p != "/admin" && !StartsWith(p, "/admin/")
    ensures p == "/" || p == "/login" || p == "/register" ==>
              p != "/admin" && !StartsWith(p, "/admin/") && p != "/student" && !StartsWith(p, "/student/")
  {
    if StartsWith(p, "/student/") || p == "/student" {
      assert p[1] == 's';
    }
    if p == "/login" || p == "/register" {
      assert p[1] != 'a' && p[1] != 's';
    }
  }

  /** The role a path requires: the student role exactly for /student and
      its declared children, the admin role exactly for /admin and its
      declared children, none for anything else (the public pages and the
      catch-all, which sends an unknown /student/... path home unguarded). */
  function RouteRole(path: string): (r: Option<string>)
    ensures var p := Normal(path);
            r == Some("student") <==> p == "/student" || (StartsWith(p, "/student/") && StudentChild(p[9..]))
    ensures var p := Normal(path);
            r == Some("admin") <==> p == "/admin" || (StartsWith(p, "/admin/") && AdminChild(p[7..]))
    ensures r.None? || r == Some("student") || r == Some("admin")
  {
    GroupsApart(Normal(path));
    PageRole(PageOf(path))
  }

  /** Letter case does not matter to the guard. */
  lemma RouteRoleIgnoresCase(path: string)
    ensures RouteRole(Lower(path)) == RouteRole(path)
  {
    LowerIdempotent(path);
  }

  /** A path under "/student/" is decided by the student group alone. */
  lemma PageOfStudentChild(path: string)
    requires StartsWith(Normal(path), "/student/")
    ensures var p := Normal(path);
            PageOf(path) == StudentPage(p[9..], path[9..|p|])
  {
    var p := Normal(path);
    assert p[1] == 's' && |p| >= 9;
    assert p != "/login" by { assert "/login"[1] == 'l'; }
    assert p != "/register" by { assert "/register"[1] == 'r'; }
    assert p != "/student" by { assert |"/student"| == 8; }
  }

  /** A path under "/admin/" is decided by the admin group alone. */
  lemma PageOfAdminChild(path: string)
    requires StartsWith(Normal(path), "/admin/")
    ensures var p := Normal(path);
            PageOf(path) == AdminPage(p[7..], path[7..|p|])
  {
    var p := Normal(path);
    assert p[1] == 'a' && |p| >= 7;
    assert p != "/login" by { assert "/login"[1] == 'l'; }
    assert p != "/register" by { assert "/register"[1] == 'r'; }
    assert p != "/student" && !StartsWith(p, "/student/") by { assert "/student"[1] == 's'; }
    assert p != "/admin" by { assert |"/admin"| == 6; }
  }
}

/** Facts about particular paths of the route table: where the
    dashboards, an unknown student path and a request page land, and that
    the guard never redirects in a loop. */
module RoutePaths {
  import opened Prelude
  import opened UserModel
  import opened RouteGuard

  lemma StripNoTrailingSlash(s: string)
    requires s != [] && s[|s| - 1] != '/'
    ensures StripTrailingSlashes(s) == s
  {
  }

  /** A path in lower case without a trailing slash is already normal. */
  lemma NormalOfPlain(s: string)
    requires forall i :: 0 <= i < |s| ==> !('A' <= s[i] <= 'Z')
    requires s != [] && s[|s| - 1] != '/'
    ensures Normal(s) == s
  {
    LowerOfLowercase(s);
    StripNoTrailingSlash(s);
  }

  /** A normal path naming a declared child of /student needs the student
      role. */
  lemma StudentChildRole(path: string)
    requires Normal(path) == path && StartsWith(path, "/student/") && StudentChild(path[9..])
    ensures RouteRole(path) == Some("student")
  {
  }

  /** A normal path naming a declared child of /admin needs the admin role. */
  lemma AdminChildRole(path: string)
    requires Normal(path) == path && StartsWith(path, "/admin/") && AdminChild(path[7..])
    ensures RouteRole(path) == Some("admin")
  {
  }

  lemma AdminHomeNormal()
    ensures Normal(AdminHome) == AdminHome
  {
    NormalOfPlain(AdminHome);
  }

  lemma AdminHomeChild()
    ensures StartsWith(AdminHome, "/admin/") && AdminChild(AdminHome[7..])
  {
    assert AdminHome[7..] == "dashboard";
  }

  lemma StudentHomeNormal()
    ensures Normal(StudentHome) == StudentHome
  {
    NormalOfPlain(StudentHome);
  }

  lemma StudentHomeChild()
    ensures StartsWith(StudentHome, "/student/") && StudentChild(StudentHome[9..])
  {
    assert StudentHome[9..] == "dashboard";
  }

  /** The dashboards sit in the groups of their own roles. */
  lemma HomesInTheirGroups()
    ensures RouteRole(AdminHome) == Some("admin")
    ensures RouteRole(StudentHome) == Some("student")
  {
    AdminHomeNormal();
    AdminHomeChild();
    AdminChildRole(AdminHome);
    StudentHomeNormal();
    StudentHomeChild();
    StudentChildRole(StudentHome);
  }

  lemma UnknownPathNormal()
    ensures Normal("/student/unknown") == "/student/unknown"
  {
    NormalOfPlain("/student/unknown");
  }

  lemma UnknownIsNoStudentChild()
    ensures StartsWith("/student/unknown", "/student/") && !StudentChild("/student/unknown"[9..])
  {
    var rest := "/student/unknown"[9..];
    assert rest[0] == 'u';
    assert rest != "dashboard" && rest != "request/new" && rest != "requests" by {
      assert "dashboard"[0] == 'd' && "request/new"[0] == 'r' && "requests"[0] == 'r';
    }
    assert !IsParam(rest, "request/") by { assert "request/"[0] == 'r'; }
  }

  /** A path under /student that the group does not declare is not guarded
      at all: the catch-all sends the visitor home. */
  lemma UnknownStudentPathFallsBack()
    ensures PageOf("/student/unknown") == Fallback
    ensures RouteRole("/student/unknown") == None
  {
    UnknownPathNormal();
    UnknownIsNoStudentChild();
    PageOfStudentChild("/student/unknown");
  }


  const StudentRequestPrefix := "/student/request/"

  /** Lower-casing after a prefix with no capital letters leaves the
      prefix alone. */
  lemma LowerAfterPlain(a: string, b: string)
    requires forall i :: 0 <= i < |a| ==> !('A' <= a[i] <= 'Z')
    ensures Lower(a + b) == a + Lower(b)
  {
    LowerConcat(a, b);
    LowerOfLowercase(a);
  }

  lemma RequestPrefixPlain()
    ensures forall i :: 0 <= i < |StudentRequestPrefix| ==> !('A' <= StudentRequestPrefix[i] <= 'Z')
  {
  }

  lemma LastOfRequestPath(id: string)
    requires id != [] && id[|id| - 1] != '/'
    ensures var low := StudentRequestPrefix + Lower(id);
            low != [] && low[|low| - 1] != '/'
  {
    var low := StudentRequestPrefix + Lower(id);
    assert low[|low| - 1] == LowerChar(id[|id| - 1]);
  }

  lemma NormalOfRequestPath(id: string)
    requires id != [] && id[|id| - 1] != '/'
    ensures Normal(StudentRequestPrefix + id) == StudentRequestPrefix + Lower(id)
  {
    RequestPrefixPlain();
    LowerAfterPlain(StudentRequestPrefix, id);
    LastOfRequestPath(id);
    StripNoTrailingSlash(StudentRequestPrefix + Lower(id));
  }

  lemma RequestRestIsDetail(id: string, lowId: string)
    requires id != [] && |lowId| == |id| && forall j :: 0 <= j < |id| ==> lowId[j] != '/'
    requires lowId != "new"
    ensures var p := StudentRequestPrefix + lowId;
            StartsWith(p, "/student/") && StudentPage(p[9..], (StudentRequestPrefix + id)[9..|p|]) == RequestDetail(id)
  {
    var p := StudentRequestPrefix + lowId;
    var rest := p[9..];
    assert rest == "request/" + lowId;
    assert rest[..8] == "request/" && rest[8..] == lowId;
    assert rest != "dashboard" by { assert "dashboard"[0] == 'd'; }
    assert rest != "requests" by { assert rest[7] == '/'; }
    assert rest != "request/new" by { assert "request/new"[8..] == "new"; }
    assert IsParam(rest, "request/");
    assert (StudentRequestPrefix + id)[9..|p|][8..] == id;
  }

  /** Any non-empty id without a slash reaches the student's request page,
      whatever the letter case of the fixed part, unless it reads "new" in
      some letter case (the static `request/new` child outranks `:id`). */
  lemma RequestDetailPathGuarded(id: string)
    requires id != [] && forall j :: 0 <= j < |id| ==> id[j] != '/'
    requires Lower(id) != "new"
    ensures PageOf(StudentRequestPrefix + id) == RequestDetail(id)
    ensures RouteRole(StudentRequestPrefix + id) == Some("student")
  {
    NormalOfRequestPath(id);
    RequestRestIsDetail(id, Lower(id));
    PageOfStudentChild(StudentRequestPrefix + id);
  }

  /** A mismatch never bounces twice: for either role the server issues,
      the dashboard the guard redirects to admits the user. */
  lemma NoRedirectLoop(r: Role, path: string)
    ensures var v := Guard(false, Some(RoleName(r)), RouteRole(path));
            v.Redirect? ==> Guard(false, Some(RoleName(r)), RouteRole(v.path)) == Outlet
  {
    HomesInTheirGroups();
  }

  /** A role name outside the two would bounce forever on a student page;
      the server never issues one. */
  lemma UnknownRoleWouldLoop(userRole: string)
    requires userRole != "admin" && userRole != "student"
    ensures Guard(false, Some(userRole), Some("student")) == Redirect(StudentHome)
    ensures Guard(false, Some(userRole), RouteRole(StudentHome)) == Redirect(StudentHome)
  {
    HomesInTheirGroups();
  }
}
