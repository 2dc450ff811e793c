/** The route guards of server/middleware/auth.js: `protect` reads a bearer
    token from the Authorization header and loads the account it names;
    `adminOnly` and `studentOnly` admit one role each. Token verification
    (jsonwebtoken) is an input: it yields the id the token was signed for,
    or None when the token is malformed, forged or expired. */
module AuthMiddleware {
  import opened Prelude
  import opened UserModel

  const NoToken := HttpError(401, "Not authorized, no token")
  const TokenFailed := HttpError(401, "Not authorized, token failed")
  const UserNotFound := HttpError(401, "User not found")
  const AdminsOnly := HttpError(403, "Access denied. Admin only.")
  const StudentsOnly := HttpError(403, "Access denied. Students only.")

  /** The header check: present, non-empty and starting with "Bearer". */
  predicate HasBearer(header: Option<string>) {
    Present(header) && StartsWith(header.value, "Bearer")
  }

  /** The token: the second space-separated field of the header, None
      (`undefined`) when the header has no space. */
  function BearerToken(header: string): Option<string> {
    Field(header, ' ', 1)
  }

  /** The id a header authenticates: its token, verified. The verifier
      rejects an `undefined` token. */
  function TokenId(header: string, verify: string -> Option<string>): Option<string> {
    match BearerToken(header)
    case None => None
    case Some(token) => verify(token)
  }

  /** `protect`. The loaded account is exposed without its password. */
  function Protect(header: Option<string>, verify: string -> Option<string>,
                   users: seq<User>): (r: Result<PublicUser>)
    ensures !HasBearer(header) ==> r == Err(NoToken)
    ensures r.Ok? <==> && HasBearer(header)
                       && TokenId(header.value, verify).Some?
                       && FindUser(users, TokenId(header.value, verify).value).Some?
    ensures r.Ok? ==> exists u :: u in users && r.value == ToJson(u)
                                 && Some(u.id) == TokenId(header.value, verify)
    ensures r.Err? && HasBearer(header) ==> r.error in {TokenFailed, UserNotFound}
  {
    if !HasBearer(header) then Err(NoToken)
    else match TokenId(header.value, verify)
      case None => Err(TokenFailed)
      case Some(id) =>
        match FindUser(users, id)
        case None => Err(UserNotFound)
        case Some(u) => Ok(ToJson(u))
  }

  /** `adminOnly` and `studentOnly`: the user set by `protect` (None when
      there is none) must have the given role. */
  function RoleGate(user: Option<PublicUser>, role: Role): (r: Result<PublicUser>)
    ensures r.Ok? <==> user.Some? && user.value.role == role
    ensures r.Ok? ==> r.value == user.value
    ensures r.Err? ==> r.error.code == 403
  {
    if user.Some? && user.value.role == role then Ok(user.value)
    else Err(if role == Admin then AdminsOnly else StudentsOnly)
  }

  /** A route behind `protect` and then a role gate. */
  function Guarded(header: Option<string>, verify: string -> Option<string>,
                   users: seq<User>, role: Role): (r: Result<PublicUser>)
    ensures r.Ok? ==> r.value.role == role
  {
    match Protect(header, verify, users)
    case Err(e) => Err(e)
    case Ok(u) => RoleGate(Some(u), role)
  }

  /** The guards of admin and student routes admit disjoint sets of
      callers: no header passes both. */
  lemma GuardsDisjoint(header: Option<string>, verify: string -> Option<string>, users: seq<User>)
    ensures !(Guarded(header, verify, users, Admin).Ok? && Guarded(header, verify, users, Student).Ok?)
  {
  }

  /** A guarded route admits a caller exactly when the header carries a
      bearer token that verifies to an existing account of that role; a
      caller failing only the role check gets 403, never 401. */
  lemma GuardedIff(header: Option<string>, verify: string -> Option<string>,
                   users: seq<User>, role: Role)
    ensures Guarded(header, verify, users, role).Ok? <==>
      && HasBearer(header)
      && TokenId(header.value, verify).Some?
      && FindUser(users, TokenId(header.value, verify).value).Some?
      && FindUser(users, TokenId(header.value, verify).value).value.role == role
    ensures Protect(header, verify, users).Ok? && Guarded(header, verify, users, role).Err? ==>
      Guarded(header, verify, users, role).error.code == 403
  {
  }

  /** The header "Bearer <token>" yields exactly `token` when the token
      has no space in it; a bare "Bearer" yields none, so it fails as a bad
      token rather than as a missing one. */
  lemma BearerTokenOf(token: string)
    requires forall j :: 0 <= j < |token| ==> token[j] != ' '
    ensures HasBearer(Some("Bearer " + token))
    ensures BearerToken("Bearer " + token) == Some(token)
    ensures HasBearer(Some("Bearer")) && BearerToken("Bearer") == None
  {
    var h := "Bearer " + token;
    assert h == "Bearer" + [' '] + token;
    FieldAfterHead("Bearer", ' ', token, 0);
    FieldWhole(token, ' ');
    assert h[..6] == "Bearer";
    FieldWhole("Bearer", ' ');
  }
}
