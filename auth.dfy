/** The `/auth` routes: bootstrap of the single administrator, login and `me`. */
module Auth {
  import opened Http
  import opened Models
  import opened Schemas
  import opened Security
  import opened Deps

  const AdminAlreadyExists: string := "Admin already exists"
  const UsernameAlreadyExists: string := "Username already exists"
  const BadCredentials: string := "Bad credentials"
  const AdminCreated: string := "Admin created successfully"

  /** The `{message}` body bootstrap answers with. */
  datatype Msg = Msg(message: string)

  /** The admin row a successful bootstrap inserts. */
  function AdminRow(t: Table, c: Crypto, req: Credentials): (u: User) {
    NewUser(t.nextId, req.username, c.hash(req.password), Some(AdminRole), Some(true))
  }

  /** `bootstrap_admin`: refuse when any admin exists, then when the username
      is taken by a row of any role; otherwise insert the admin row. */
  function BootstrapAdmin(t: Table, c: Crypto, req: Credentials): (s: Step<Msg>)
    ensures (exists i :: 0 <= i < |t.rows| && t.rows[i].role == "admin") ==>
      s == Step(Err(400, "Admin already exists"), t)
    ensures (forall i :: 0 <= i < |t.rows| ==> t.rows[i].role != "admin") &&
            (exists i :: 0 <= i < |t.rows| && t.rows[i].username == req.username) ==>
      s == Step(Err(400, "Username already exists"), t)
    ensures s.result.Ok? <==>
      (forall i :: 0 <= i < |t.rows| ==> t.rows[i].role != "admin" && t.rows[i].username != req.username)
    ensures s.result.Err? ==> s.after == t && s.result.status == 400
    ensures s.result.Ok? ==>
      && s.result.value == Msg("Admin created successfully")
      && s.after.rows == t.rows + [User(t.nextId, req.username, c.hash(req.password), "admin", true)]
      && s.after.nextId == t.nextId + 1
  {
    if FindByRole(t.rows, AdminRole).Some? then Step(Err(BadRequest, AdminAlreadyExists), t)
    else if FindByUsername(t.rows, req.username).Some? then Step(Err(BadRequest, UsernameAlreadyExists), t)
    else Step(Ok(Msg(AdminCreated)), Table(t.rows + [AdminRow(t, c, req)], t.nextId + 1))
  }

  /** Appending a row with the next id and an unused username keeps the table invariant. */
  lemma InsertKeepsInvariant(t: Table, u: User)
    requires TableInvariant(t)
    requires u.id == t.nextId
    requires forall i :: 0 <= i < |t.rows| ==> t.rows[i].username != u.username
    requires 1 <= t.nextId
    ensures TableInvariant(Table(t.rows + [u], t.nextId + 1))
  {
    var rows := t.rows + [u];
    forall i, j | 0 <= i < j < |rows| ensures rows[i].id < rows[j].id && rows[i].username != rows[j].username {
      if j == |t.rows| {
        assert rows[i] == t.rows[i];
      } else {
        assert rows[i] == t.rows[i] && rows[j] == t.rows[j];
      }
    }
  }

  /** Bootstrap keeps the table invariant, and a table that held no admin
      holds exactly one after a successful bootstrap, while a refused one
      leaves the admin count as it was. */
  lemma BootstrapKeepsInvariant(t: Table, c: Crypto, req: Credentials)
    requires TableInvariant(t) && 1 <= t.nextId
    ensures var s := BootstrapAdmin(t, c, req);
      && TableInvariant(s.after) && 1 <= s.after.nextId
      && CountRole(s.after.rows, "admin") == (if s.result.Ok? then 1 else CountRole(t.rows, "admin"))
  {
    var s := BootstrapAdmin(t, c, req);
    if s.result.Ok? {
      assert FindByRole(t.rows, AdminRole).None? && FindByUsername(t.rows, req.username).None?;
      assert s.after == Table(t.rows + [AdminRow(t, c, req)], t.nextId + 1);
      InsertKeepsInvariant(t, AdminRow(t, c, req));
      CountRoleZero(t.rows, AdminRole);
      WithRoleAppend(t.rows, AdminRow(t, c, req), AdminRole);
    }
  }

  /** Once an admin exists, every further bootstrap is refused, whatever the
      username: bootstrap never produces a second admin. */
  lemma SecondBootstrapRefused(t: Table, c: Crypto, first: Credentials, second: Credentials)
    requires BootstrapAdmin(t, c, first).result.Ok?
    ensures BootstrapAdmin(BootstrapAdmin(t, c, first).after, c, second) ==
      Step(Err(400, "Admin already exists"), BootstrapAdmin(t, c, first).after)
  {
    var after := BootstrapAdmin(t, c, first).after;
    assert after.rows[|t.rows|].role == AdminRole;
  }

  /** `login`: an unknown username, an inactive user and a wrong password all
      give the same 401 answer; otherwise a token for the user's username and role. */
  function Login(rows: seq<User>, c: Crypto, req: Credentials): (r: Result<TokenResponse>)
    ensures r.Err? ==> r == Err(401, "Bad credentials")
    ensures r.Ok? ==> exists i ::
      && 0 <= i < |rows|
      && rows[i].username == req.username && rows[i].isActive
      && c.verify(req.password, rows[i].passwordHash)
      && r.value == TokenResponse(c.encode(rows[i].username, rows[i].role), "bearer")
    ensures UniqueUsernames(rows) ==>
      (r.Ok? <==> exists i :: (0 <= i < |rows| &&
                    rows[i].username == req.username && rows[i].isActive && c.verify(req.password, rows[i].passwordHash)))
  {
    match FindByUsername(rows, req.username)
    case None => Err(Unauthorized, BadCredentials)
    case Some(user) =>
      if !user.isActive then Err(Unauthorized, BadCredentials)
      else if !c.verify(req.password, user.passwordHash) then Err(Unauthorized, BadCredentials)
      else
        UniqueMatchIsFound(rows, req.username);
        Ok(NewTokenResponse(c.encode(user.username, user.role)))
  }

  /** `me`: the resolved user's public fields, or the authentication error. */
  function Me(rows: seq<User>, c: Crypto, creds: Option<string>): (r: Result<UserOut>)
    ensures GetCurrentUser(rows, c, creds).Err? ==>
      r == Err(GetCurrentUser(rows, c, creds).status, GetCurrentUser(rows, c, creds).detail)
    ensures GetCurrentUser(rows, c, creds).Ok? ==>
      r == Ok(UserOut(GetCurrentUser(rows, c, creds).value.id, GetCurrentUser(rows, c, creds).value.username,
                      GetCurrentUser(rows, c, creds).value.role, GetCurrentUser(rows, c, creds).value.isActive))
    ensures r.Ok? ==> exists i :: (0 <= i < |rows| && rows[i].isActive &&
                                   r.value == UserOut(rows[i].id, rows[i].username, rows[i].role, true))
  {
    match GetCurrentUser(rows, c, creds)
    case Err(status, detail) => Err(status, detail)
    case Ok(user) => Ok(ToOut(user))
  }
}
