/** The public account routes of server/routes/auth.js: student
    registration and login. The password hash (bcrypt), the password
    comparison and the token signer (jsonwebtoken) are inputs. Absent body
    fields are modelled as empty strings for the strings the handlers
    require, and as `None` where the handler tests for presence. */
module AuthRoutes {
  import opened Prelude
  import opened UserModel

  /** The body of a successful register or login response. The user is
      the `toJSON` view, so no password is ever in it. */
  datatype AuthResponse = AuthResponse(token: string, user: PublicUser)

  const DuplicateAccount := HttpError(400, "User with this email or student ID already exists")
  const RegistrationFailed := HttpError(500, "Registration failed")
  const InvalidCredentials := HttpError(401, "Invalid credentials")
  const LoginFailed := HttpError(500, "Login failed")

  function RoleMismatch(role: string): (e: HttpError)
    ensures e.code == 401
  {
    HttpError(401, "This account is not registered as " + role)
  }

  // ---------------------------------------------------------------------
  // Register
  // ---------------------------------------------------------------------

  /** The duplicate query `{$or: [{email}, {studentId}]}`; the schema's
      lower-casing setter applies to the e-mail in the filter too. */
  predicate Clashes(u: User, email: string, studentId: string) {
    u.email == Lower(email) || u.studentId == studentId
  }

  predicate AnyClash(users: seq<User>, email: string, studentId: string) {
    exists i :: 0 <= i < |users| && Clashes(users[i], email, studentId)
  }

  /** POST /register: refuse an e-mail or student id already in use, then
      create the user with the role forced to student (whatever the body
      says), hash the password on save, append the user and answer with a
      token for the new id and the password-free view. `newId` is the id
      the database assigns. */
  function Register(users: seq<User>, studentId: string, name: string, email: string,
                    password: string, program: Option<string>, yearLevel: Option<int>,
                    newId: string, hash: string -> string, sign: string -> string)
    : (r: Result<(seq<User>, AuthResponse)>)
    ensures AnyClash(users, email, studentId) ==> r == Err(DuplicateAccount)
    ensures r.Ok? <==> && !AnyClash(users, email, studentId)
                       && studentId != "" && name != "" && email != ""
                       && |password| >= 6
                       && (yearLevel.None? || 1 <= yearLevel.value <= 5)
    ensures r.Err? && !AnyClash(users, email, studentId) ==> r.error == RegistrationFailed
    ensures r.Ok? ==>
      && |r.value.0| == |users| + 1
      && r.value.0[..|users|] == users
      && var u := r.value.0[|users|];
      && u.id == newId && u.role == Student
      && u.studentId == studentId && u.name == name && u.email == Lower(email)
      && u.password == hash(password)
      && u.program == program && u.yearLevel == yearLevel
      && r.value.1 == AuthResponse(sign(newId), ToJson(u))
    ensures r.Ok? && UniqueAccounts(users) ==> UniqueAccounts(r.value.0)
  {
    if AnyClash(users, email, studentId) then Err(DuplicateAccount)
    else match NewUser(newId, Some("student"), studentId, name, email, password, program, yearLevel)
      case Err(_) => Err(RegistrationFailed)
      case Ok(created) =>
        var saved := PreSave(created, true, hash);
        Ok((users + [saved], AuthResponse(sign(saved.id), ToJson(saved))))
  }

  // ---------------------------------------------------------------------
  // Login
  // ---------------------------------------------------------------------

  /** The login query `{$or: [{email: login.toLowerCase()}, {studentId: login}]}`. */
  predicate LoginMatches(u: User, login: string) {
    u.email == Lower(login) || u.studentId == login
  }

  /** `findOne`: the position of the first user the login names. */
  function FindLogin(users: seq<User>, login: string): (r: Option<nat>)
    ensures r.Some? ==> r.value < |users| && LoginMatches(users[r.value], login)
    ensures r.Some? ==> forall j :: 0 <= j < r.value ==> !LoginMatches(users[j], login)
    ensures r.None? ==> forall j :: 0 <= j < |users| ==> !LoginMatches(users[j], login)
  {
    if users == [] then None
    else if LoginMatches(users[0], login) then Some(0)
    else match FindLogin(users[1..], login)
      case None => None
      case Some(k) => Some(k + 1)
  }

  /** POST /login, in the handler's order: a missing e-mail field makes
      `toLowerCase` throw (500); an unknown account and a wrong password
      give the same 401; a missing password for a known account makes the
      bcrypt comparison throw (500); then a supplied role that is not the
      account's gives its own 401; otherwise a token and the password-free
      view. `matches(entered, stored)` is the bcrypt comparison. */
  function Login(users: seq<User>, email: Option<string>, password: Option<string>, role: Option<string>,
                 matches: (string, string) -> bool, sign: string -> string): (r: Result<AuthResponse>)
    ensures email.None? ==> r == Err(LoginFailed)
    ensures email.Some? && FindLogin(users, email.value).Some? && password.None? ==> r == Err(LoginFailed)
    ensures r.Ok? <==> && email.Some? && FindLogin(users, email.value).Some? && password.Some?
                       && var u := users[FindLogin(users, email.value).value];
                       && matches(password.value, u.password)
                       && (!Present(role) || RoleName(u.role) == role.value)
    ensures r.Ok? ==> var u := users[FindLogin(users, email.value).value];
                      r.value == AuthResponse(sign(u.id), ToJson(u))
    ensures r.Err? && email.Some? && (FindLogin(users, email.value).None? || password.Some?) ==>
              r.error.code == 401
  {
    if email.None? then Err(LoginFailed)
    else match FindLogin(users, email.value)
      case None => Err(InvalidCredentials)
      case Some(i) =>
        var u := users[i];
        if password.None? then Err(LoginFailed)
        else if !matches(password.value, u.password) then Err(InvalidCredentials)
        else if Present(role) && RoleName(u.role) != role.value then Err(RoleMismatch(role.value))
        else Ok(AuthResponse(sign(u.id), ToJson(u)))
  }


  /** An unknown account and a wrong password are indistinguishable to the
      caller, and neither reveals whether the role would have matched. */
  lemma UnknownAndWrongPasswordAlike(users: seq<User>, login: string, password: string,
                                     role: Option<string>, matches: (string, string) -> bool,
                                     sign: string -> string)
    requires FindLogin(users, login).None?
             || !matches(password, users[FindLogin(users, login).value].password)
    ensures Login(users, Some(login), Some(password), role, matches, sign) == Err(InvalidCredentials)
  {
  }

  /** The role check comes after the password check: a wrong role with the
      right password is reported as a role mismatch, never as invalid
      credentials. */
  lemma RoleCheckedLast(users: seq<User>, login: string, password: string, role: string,
                        matches: (string, string) -> bool, sign: string -> string)
    requires FindLogin(users, login).Some?
    requires matches(password, users[FindLogin(users, login).value].password)
    requires role != "" && RoleName(users[FindLogin(users, login).value].role) != role
    ensures Login(users, Some(login), Some(password), Some(role), matches, sign) == Err(RoleMismatch(role))
  {
  }

  /** Appending a user the earlier users do not match leaves the lookup to
      the new user. */
  lemma {:induction false} FindLoginLast(users: seq<User>, u: User, login: string)
    requires forall j :: 0 <= j < |users| ==> !LoginMatches(users[j], login)
    requires LoginMatches(u, login)
    ensures FindLogin(users + [u], login) == Some(|users|)
  {
    if users != [] {
      assert (users + [u])[1..] == users[1..] + [u];
      FindLoginLast(users[1..], u, login);
    }
  }

  /** A freshly registered student can log in with the password and the
      e-mail they registered with, typed in any letter case, as a student
      or with no role, provided no earlier account uses the typed text as
      its student id (the login query would find that account first).
      `matches` accepts a password against its own hash, as bcrypt's
      comparison does. */
  lemma RegisterThenLogin(users: seq<User>, studentId: string, name: string, email: string,
                          password: string, program: Option<string>, yearLevel: Option<int>,
                          newId: string, hash: string -> string, sign: string -> string,
                          matches: (string, string) -> bool, typed: string, role: Option<string>)
    requires forall p :: matches(p, hash(p))
    requires Register(users, studentId, name, email, password, program, yearLevel, newId, hash, sign).Ok?
    requires Lower(typed) == Lower(email)
    requires forall j :: 0 <= j < |users| ==> users[j].studentId != typed
    requires !Present(role) || role.value == "student"
    ensures var reg := Register(users, studentId, name, email, password, program, yearLevel, newId, hash, sign).value;
            Login(reg.0, Some(typed), Some(password), role, matches, sign) == Ok(reg.1)
  {
    var reg := Register(users, studentId, name, email, password, program, yearLevel, newId, hash, sign).value;
    assert reg.0 == users + [reg.0[|users|]];
    forall j | 0 <= j < |users|
      ensures !LoginMatches(users[j], typed)
    {
      assert !Clashes(users[j], email, studentId);
    }
    FindLoginLast(users, reg.0[|users|], typed);
  }
}
