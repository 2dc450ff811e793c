/** The student sign-up form (client/src/pages/Register.jsx): the two
    password checks, in order, and the body it posts to the server. */
module RegisterPage {
  import opened Prelude
  import opened Ui
  import opened UserModel
  import AuthRoutes

  datatype RegisterForm = RegisterForm(studentId: string, name: string, email: string, program: string,
                                       yearLevel: string, password: string, confirmPassword: string)

  /** The posted body. `yearLevel` is `parseInt` of the field: None is NaN,
      which the JSON body carries as null. */
  datatype RegisterPayload = RegisterPayload(studentId: string, name: string, email: string, program: string,
                                             yearLevel: Option<int>, password: string, role: string)

  const PasswordsDiffer := "Passwords do not match"
  const PasswordTooShort := "Password must be at least 6 characters"

  /** `handleSubmit`: the confirmation is checked first, then the length;
      a form passing both is posted with the role forced to student. */
  function SubmitRegistration(f: RegisterForm): (r: Outcome<RegisterPayload>)
    ensures !r.NoCall?
    ensures f.password != f.confirmPassword ==> r == Warn(PasswordsDiffer)
    ensures f.password == f.confirmPassword && |f.password| < 6 ==> r == Warn(PasswordTooShort)
    ensures r.Call? <==> f.password == f.confirmPassword && |f.password| >= 6
    ensures r.Call? ==> && r.body.role == "student"
                        && r.body.password == f.password
                        && (r.body.studentId, r.body.name, r.body.email, r.body.program)
                           == (f.studentId, f.name, f.email, f.program)
                        && r.body.yearLevel == ParseIntJs(f.yearLevel)
  {
    if f.password != f.confirmPassword then Warn(PasswordsDiffer)
    else if |f.password| < 6 then Warn(PasswordTooShort)
    else Call(RegisterPayload(f.studentId, f.name, f.email, f.program, ParseIntJs(f.yearLevel),
                              f.password, "student"))
  }

  /** The year-level options' values are "1" to "5", and each parses to
      its own number. */
  lemma YearOptionsParse(k: nat)
    requires 1 <= k <= 5
    ensures ParseIntJs(NatToString(k)) == Some(k)
  {
    ParseIntOfNat(k, "");
    assert NatToString(k) + "" == NatToString(k);
  }

  /** A form the page posts, with a year picked from the options and the
      required fields filled, is accepted by the server unless the e-mail
      or student id is already taken; the account it creates is a student
      whatever the body's role. */
  lemma PostedFormAccepted(f: RegisterForm, k: nat, users: seq<User>, newId: string,
                           hash: string -> string, sign: string -> string)
    requires SubmitRegistration(f).Call?
    requires 1 <= k <= 5 && f.yearLevel == NatToString(k)
    requires f.studentId != "" && f.name != "" && f.email != ""
    requires !AuthRoutes.AnyClash(users, f.email, f.studentId)
    ensures var p := SubmitRegistration(f).body;
            var r := AuthRoutes.Register(users, p.studentId, p.name, p.email, p.password,
                                         Some(p.program), p.yearLevel, newId, hash, sign);
            && r.Ok?
            && r.value.0[|users|].role == Student
            && r.value.0[|users|].yearLevel == Some(k)
  {
    YearOptionsParse(k);
  }
}
