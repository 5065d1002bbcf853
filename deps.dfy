/** The authentication dependencies every protected route runs first. */
module Deps {
  import opened Http
  import opened Models
  import opened Security

  const NotAuthenticated: string := "Not authenticated"
  const InvalidToken: string := "Invalid token"
  const UserNotFoundOrInactive: string := "User not found or inactive"
  const AdminOnly: string := "Admin only"

  /** The subject a bearer token names: `None` when the token does not decode
      or its `sub` claim is missing or empty. */
  function Subject(c: Crypto, token: string): (s: Option<string>)
    ensures s.Some? <==> c.decode(token).Some? && c.decode(token).value.sub.Some? && c.decode(token).value.sub.value != ""
    ensures s.Some? ==> s == c.decode(token).value.sub
  {
    match c.decode(token)
    case None => None
    case Some(claims) =>
      match claims.sub
      case None => None
      case Some(name) => if name == "" then None else Some(name)
  }

  /** `get_current_user`: `creds` is the bearer credential, `None` when the
      request carries none. The subject is looked up by username. */
  function GetCurrentUser(rows: seq<User>, c: Crypto, creds: Option<string>): (r: Result<User>)
    ensures creds.None? ==> r == Err(401, "Not authenticated")
    ensures creds.Some? && Subject(c, creds.value).None? ==> r == Err(401, "Invalid token")
    ensures creds.Some? && Subject(c, creds.value).Some? ==>
      (r.Ok? || r == Err(401, "User not found or inactive"))
    ensures r.Ok? ==>
      && creds.Some? && Subject(c, creds.value) == Some(r.value.username)
      && r.value in rows && r.value.isActive
    ensures UniqueUsernames(rows) ==>
      (r.Ok? <==> creds.Some? && Subject(c, creds.value).Some? &&
                  exists i :: 0 <= i < |rows| && rows[i].username == Subject(c, creds.value).value && rows[i].isActive)
  {
    match creds
    case None => Err(Unauthorized, NotAuthenticated)
    case Some(token) =>
      match Subject(c, token)
      case None => Err(Unauthorized, InvalidToken)
      case Some(name) =>
        match FindByUsername(rows, name)
        case None => Err(Unauthorized, UserNotFoundOrInactive)
        case Some(user) =>
          if !user.isActive then Err(Unauthorized, UserNotFoundOrInactive)
          else
            UniqueMatchIsFound(rows, name);
            Ok(user)
  }

  lemma UniqueMatchIsFound(rows: seq<User>, name: string)
    ensures UniqueUsernames(rows) && FindByUsername(rows, name).Some? ==>
      forall i :: 0 <= i < |rows| && rows[i].username == name ==> FindByUsername(rows, name) == Some(rows[i])
  {
    if UniqueUsernames(rows) {
      forall i | 0 <= i < |rows| && rows[i].username == name
        ensures FindByUsername(rows, name) == Some(rows[i])
      {
        FindByUsernameUnique(rows, i);
      }
    }
  }

  /** `require_admin` applied to an already resolved user. */
  function RequireAdmin(user: User): (r: Result<User>)
    ensures r.Err? <==> user.role != "admin"
    ensures r.Err? ==> r == Err(403, "Admin only")
    ensures r.Ok? ==> r.value == user
  {
    if user.role != AdminRole then Err(ForbiddenStatus, AdminOnly) else Ok(user)
  }

  /** The `require_admin` dependency as a route sees it: resolve the current
      user, then apply the role gate. */
  function CurrentAdmin(rows: seq<User>, c: Crypto, creds: Option<string>): (r: Result<User>)
    ensures r.Ok? <==> GetCurrentUser(rows, c, creds).Ok? && GetCurrentUser(rows, c, creds).value.role == "admin"
    ensures r.Ok? ==> r == GetCurrentUser(rows, c, creds)
    ensures GetCurrentUser(rows, c, creds).Err? ==> r == GetCurrentUser(rows, c, creds)
    ensures GetCurrentUser(rows, c, creds).Ok? && r.Err? ==> r == Err(403, "Admin only")
  {
    match GetCurrentUser(rows, c, creds)
    case Err(status, detail) => Err(status, detail)
    case Ok(user) => RequireAdmin(user)
  }
}
