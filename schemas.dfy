/** The request and response records and the field rules they enforce.
    Lengths are counted in `char`s, which in Dafny are Unicode scalar values,
    the same unit as Python's `len` on a `str` without lone surrogates. */
module Schemas {
  import opened Models

  /** The body of a bootstrap, cashier-creation or login request. */
  datatype Credentials = Credentials(username: string, password: string)

  const UsernameMinLength: nat := 2
  const UsernameMaxLength: nat := 50
  const PasswordMinLength: nat := 4
  const PasswordMaxLength: nat := 100

  /** The field rules shared by the bootstrap-admin and the cashier-creation requests. */
  predicate ValidNewAccount(req: Credentials) {
    && UsernameMinLength <= |req.username| <= UsernameMaxLength
    && PasswordMinLength <= |req.password| <= PasswordMaxLength
  }

  /** The login request declares both fields without any length rule. */
  predicate ValidLogin(req: Credentials) {
    true
  }

  /** A username a new-account request accepts always fits the `username`
      column, and the `role` values the routes write fit the `role` column. */
  lemma NewAccountFitsColumns(req: Credentials, id: int, passwordHash: string, role: string)
    requires ValidNewAccount(req)
    requires |passwordHash| <= PasswordHashWidth
    requires role == AdminRole || role == CashierRole
    ensures FitsColumns(User(id, req.username, passwordHash, role, true))
  {
  }

  datatype TokenResponse = TokenResponse(accessToken: string, tokenType: string)

  /** `TokenResponse(access_token=token)`: the token type takes its default. */
  function NewTokenResponse(token: string): (r: TokenResponse)
    ensures r.accessToken == token && r.tokenType == "bearer"
  {
    TokenResponse(token, "bearer")
  }

  /** The public view of a row: everything but the password hash. */
  datatype UserOut = UserOut(id: int, username: string, role: string, isActive: bool)

  function ToOut(u: User): (o: UserOut)
    ensures o.id == u.id && o.username == u.username && o.role == u.role && o.isActive == u.isActive
  {
    UserOut(u.id, u.username, u.role, u.isActive)
  }
}
