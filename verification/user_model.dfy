/** The user document (server/models/User.js): roles, field constraints,
    the e-mail lower-casing setter, the hash-on-modify save hook and the
    password-stripping `toJSON`. The bcrypt hash is an input function. */
module UserModel {
  import opened Prelude

  datatype Role = Student | Admin

  const DefaultRole: Role := Student

  function RoleName(r: Role): string {
    match r
    case Student => "student"
    case Admin => "admin"
  }

  /** The schema's role `enum` check. */
  function ParseRole(name: string): (r: Option<Role>)
    ensures r.Some? ==> RoleName(r.value) == name
    ensures r.None? ==> forall x :: RoleName(x) != name
  {
    if name == "student" then Some(Student)
    else if name == "admin" then Some(Admin)
    else None
  }

  /** A stored user; `password` holds the stored (hashed) password. */
  datatype User = User(
    id: string,
    role: Role,
    studentId: string,
    name: string,
    email: string,
    password: string,
    program: Option<string>,
    yearLevel: Option<int>)

  /** What `toJSON` (and `select('-password')`) exposes: every field but
      the password. */
  datatype PublicUser = PublicUser(
    id: string,
    role: Role,
    studentId: string,
    name: string,
    email: string,
    program: Option<string>,
    yearLevel: Option<int>)

  function ToJson(u: User): PublicUser {
    PublicUser(u.id, u.role, u.studentId, u.name, u.email, u.program, u.yearLevel)
  }

  function WithPassword(p: PublicUser, password: string): User {
    User(p.id, p.role, p.studentId, p.name, p.email, password, p.program, p.yearLevel)
  }

  /** `toJSON` removes the password and keeps every other field: the user is
      recovered exactly from its JSON view plus its password. */
  lemma ToJsonKeepsAllButPassword(u: User)
    ensures WithPassword(ToJson(u), u.password) == u
    ensures ToJson(WithPassword(ToJson(u), "")) == ToJson(u)
  {
  }

  /** Two users with the same JSON view differ at most in their password. */
  lemma ToJsonInjectiveUpToPassword(u: User, v: User)
    requires ToJson(u) == ToJson(v)
    ensures u == v.(password := u.password)
  {
    assert u == WithPassword(ToJson(u), u.password);
    assert v.(password := u.password) == WithPassword(ToJson(v), u.password);
  }

  const UserValidationFailed := HttpError(500, "User validation failed")

  /** `User.create` validation: the lower-casing setter is applied to the
      e-mail first; studentId, name, e-mail and password are required
      (non-empty); the password has at least 6 characters; the year level,
      when given, is within 1..5; the role, when given, is one of the two
      names and otherwise student. */
  function NewUser(id: string, role: Option<string>, studentId: string, name: string,
                   email: string, password: string, program: Option<string>,
                   yearLevel: Option<int>): (r: Result<User>)
    ensures r.Ok? <==> && (role.None? || ParseRole(role.value).Some?)
                       && studentId != "" && name != "" && email != ""
                       && |password| >= 6
                       && (yearLevel.None? || 1 <= yearLevel.value <= 5)
    ensures r.Ok? ==> && r.value.id == id
                      && r.value.email == Lower(email)
                      && (role.None? ==> r.value.role == Student)
                      && (role.Some? ==> RoleName(r.value.role) == role.value)
                      && r.value.studentId == studentId && r.value.name == name
                      && r.value.password == password
                      && r.value.program == program && r.value.yearLevel == yearLevel
    ensures r.Err? ==> r.error.code == 500
  {
    var lowered := Lower(email);
    var parsedRole := if role.None? then Some(DefaultRole) else ParseRole(role.value);
    if parsedRole.None? || studentId == "" || name == "" || lowered == "" || |password| < 6 then
      Err(UserValidationFailed)
    else if yearLevel.Some? && !(1 <= yearLevel.value <= 5) then
      Err(UserValidationFailed)
    else
      Ok(User(id, parsedRole.value, studentId, name, lowered, password, program, yearLevel))
  }

  /** The `pre('save')` hook: the password is replaced by its hash only when
      it was modified since the last save; every other field is kept. */
  function PreSave(u: User, passwordModified: bool, hash: string -> string): (saved: User)
    ensures saved.(password := u.password) == u
    ensures passwordModified ==> saved.password == hash(u.password)
    ensures !passwordModified ==> saved == u
  {
    if passwordModified then u.(password := hash(u.password)) else u
  }

  /** Saving again without touching the password never hashes twice. */
  lemma PreSaveNoDoubleHash(u: User, hash: string -> string)
    ensures PreSave(PreSave(u, true, hash), false, hash) == PreSave(u, true, hash)
  {
  }

  /** The two unique indexes: no two users share a studentId or an e-mail. */
  predicate UniqueAccounts(users: seq<User>) {
    forall i, j :: 0 <= i < j < |users| ==>
      users[i].studentId != users[j].studentId && users[i].email != users[j].email
  }

  /** `User.findById`: the first user with that id, if any. */
  function FindUser(users: seq<User>, id: string): (r: Option<User>)
    ensures r.Some? ==> r.value in users && r.value.id == id
    ensures r.None? ==> forall u :: u in users ==> u.id != id
  {
    if users == [] then None
    else if users[0].id == id then Some(users[0])
    else FindUser(users[1..], id)
  }

  /** The fields of a user that populated references show. `yearLevel` is
      None where the populate selection leaves it out. */
  datatype StudentInfo = StudentInfo(
    id: string,
    name: string,
    studentId: string,
    email: string,
    program: Option<string>,
    yearLevel: Option<int>)

  /** `populate('student', 'name studentId email program')`, optionally with
      `yearLevel`; a dangling reference populates to null (None). */
  function PopulateStudent(users: seq<User>, id: string, withYearLevel: bool): (r: Option<StudentInfo>)
    ensures r.Some? <==> exists u :: u in users && u.id == id
    ensures r.Some? ==> r.value.id == id
    ensures r.Some? && !withYearLevel ==> r.value.yearLevel.None?
    ensures r.Some? ==> exists u :: && u in users && u.id == id
                                    && (r.value.name, r.value.studentId, r.value.email, r.value.program)
                                       == (u.name, u.studentId, u.email, u.program)
                                    && (withYearLevel ==> r.value.yearLevel == u.yearLevel)
  {
    match FindUser(users, id)
    case None => None
    case Some(u) => Some(StudentInfo(u.id, u.name, u.studentId, u.email, u.program,
                                     if withYearLevel then u.yearLevel else None))
  }
}
