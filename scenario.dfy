/** How the routes compose: a login token authenticates its holder, an
    inactive user is turned away even with a valid token, and the usual
    bootstrap / login / cashier session. */
module Scenario {
  import opened Http
  import opened Models
  import opened Schemas
  import opened Security
  import opened Deps
  import Auth
  import Users
  import Store

  /** A token issued by a successful login authenticates the same user on
      the next request, as long as the token still decodes to what was
      encoded and the username is not empty. */
  lemma LoginThenAuthenticate(rows: seq<User>, c: Crypto, req: Credentials)
    requires UniqueUsernames(rows)
    requires TokenRoundTrips(c)
    requires req.username != ""
    requires Auth.Login(rows, c, req).Ok?
    ensures exists i :: (0 <= i < |rows| && rows[i].username == req.username &&
                         GetCurrentUser(rows, c, Some(Auth.Login(rows, c, req).value.accessToken)) == Ok(rows[i]))
  {
    var i :| 0 <= i < |rows| && rows[i].username == req.username && rows[i].isActive &&
      Auth.Login(rows, c, req).value == TokenResponse(c.encode(rows[i].username, rows[i].role), "bearer");
    var token := c.encode(rows[i].username, rows[i].role);
    assert c.decode(token) == Some(Claims(Some(rows[i].username), Some(rows[i].role)));
    assert Subject(c, token) == Some(req.username);
    FindByUsernameUnique(rows, i);
  }

  /** An inactive user is refused even when presenting a token that decodes
      to their username: the account is re-checked on every request. */
  lemma InactiveUserRefused(rows: seq<User>, c: Crypto, i: int, token: string)
    requires UniqueUsernames(rows)
    requires 0 <= i < |rows| && !rows[i].isActive
    requires Subject(c, token) == Some(rows[i].username)
    ensures GetCurrentUser(rows, c, Some(token)) == Err(401, "User not found or inactive")
  {
    FindByUsernameUnique(rows, i);
  }

  /** The table after "alice" bootstraps, and after she then creates cashier "bob". */
  function AliceTable(c: Crypto): (t: Table) {
    Table([User(1, "alice", c.hash("secret1"), "admin", true)], 2)
  }

  function AliceAndBobTable(c: Crypto): (t: Table) {
    Table([User(1, "alice", c.hash("secret1"), "admin", true), User(2, "bob", c.hash("pass1234"), "cashier", true)], 3)
  }

  /** Bootstrap "alice" on an empty table, log in with a wrong and then the
      right password, and call `me` with the token. */
  lemma SessionBootstrap(c: Crypto)
    requires HashVerifies(c) && TokenRoundTrips(c)
    requires !c.verify("wrong", c.hash("secret1"))
    ensures Auth.BootstrapAdmin(Store.EmptyTable, c, Credentials("alice", "secret1")) ==
      Step(Ok(Auth.Msg("Admin created successfully")), AliceTable(c))
    ensures Auth.Login(AliceTable(c).rows, c, Credentials("alice", "wrong")) == Err(401, "Bad credentials")
    ensures Auth.Login(AliceTable(c).rows, c, Credentials("alice", "secret1")) ==
      Ok(TokenResponse(c.encode("alice", "admin"), "bearer"))
    ensures Auth.Me(AliceTable(c).rows, c, Some(c.encode("alice", "admin"))) == Ok(UserOut(1, "alice", "admin", true))
  {
    var alice := User(1, "alice", c.hash("secret1"), "admin", true);
    assert FindByUsername(AliceTable(c).rows, "alice") == Some(alice);
    assert Subject(c, c.encode("alice", "admin")) == Some("alice");
  }

  /** With alice's token, cashier "bob" is created with the next id. */
  lemma SessionCreateCashier(c: Crypto)
    requires TokenRoundTrips(c)
    ensures Users.CreateCashier(AliceTable(c), c, Some(c.encode("alice", "admin")), Credentials("bob", "pass1234")) ==
      Step(Ok(UserOut(2, "bob", "cashier", true)), AliceAndBobTable(c))
  {
    var alice := AliceTable(c).rows[0];
    assert Subject(c, c.encode("alice", "admin")) == Some("alice");
    assert FindByUsername(AliceTable(c).rows, "alice") == Some(alice);
    assert CurrentAdmin(AliceTable(c).rows, c, Some(c.encode("alice", "admin"))) == Ok(alice);
    assert FindByUsername(AliceTable(c).rows, "bob") == None;
  }

  /** The admin's listing holds bob only; without a token the listing is refused. */
  lemma SessionAdminListing(c: Crypto)
    requires TokenRoundTrips(c)
    ensures Users.ListCashiers(AliceAndBobTable(c).rows, c, Some(c.encode("alice", "admin"))) ==
      Ok([UserOut(2, "bob", "cashier", true)])
    ensures Users.ListCashiers(AliceAndBobTable(c).rows, c, None) == Err(401, "Not authenticated")
  {
    var rows := AliceAndBobTable(c).rows;
    var alice, bob := rows[0], rows[1];
    assert Subject(c, c.encode("alice", "admin")) == Some("alice");
    assert FindByUsername(rows, "alice") == Some(alice);
    assert CurrentAdmin(rows, c, Some(c.encode("alice", "admin"))) == Ok(alice);
    assert WithRole(rows[1..], CashierRole) == [bob];
    assert WithRole(rows, CashierRole) == [bob];
    assert Users.CashierRows(rows) == [bob];
    assert Users.OutList([bob]) == [UserOut(2, "bob", "cashier", true)];
  }

  /** Bob can log in, but his cashier token does not pass the admin gate. */
  lemma SessionCashierListing(c: Crypto)
    requires HashVerifies(c) && TokenRoundTrips(c)
    ensures Auth.Login(AliceAndBobTable(c).rows, c, Credentials("bob", "pass1234")) ==
      Ok(TokenResponse(c.encode("bob", "cashier"), "bearer"))
    ensures Users.ListCashiers(AliceAndBobTable(c).rows, c, Some(c.encode("bob", "cashier"))) == Err(403, "Admin only")
  {
    var rows := AliceAndBobTable(c).rows;
    var bob := rows[1];
    assert Subject(c, c.encode("bob", "cashier")) == Some("bob");
    assert FindByUsername(rows[1..], "bob") == Some(bob);
    assert FindByUsername(rows, "bob") == Some(bob);
    assert GetCurrentUser(rows, c, Some(c.encode("bob", "cashier"))) == Ok(bob);
  }

  /** Once alice exists, a bootstrap under any other name is refused. */
  lemma SessionSecondBootstrap(c: Crypto)
    ensures Auth.BootstrapAdmin(AliceAndBobTable(c), c, Credentials("carol", "secret2")).result == Err(400, "Admin already exists")
  {
    assert AliceAndBobTable(c).rows[0].role == AdminRole;
  }
}
