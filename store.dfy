/** The user table as the routes change it: a store object holding the rows
    and the next id, with one method per inserting route, and the invariants
    every sequence of such requests keeps. */
module Store {
  import opened Http
  import opened Models
  import opened Schemas
  import opened Security
  import opened Deps
  import Auth
  import Users

  /** The table invariant plus "at most one admin row". */
  ghost predicate Consistent(t: Table) {
    TableInvariant(t) && 1 <= t.nextId && CountRole(t.rows, AdminRole) <= 1
  }

  /** In a consistent table there is at most one admin row: two positions
      holding an admin are the same position. */
  lemma AtMostOneAdminRow(t: Table, i: int, j: int)
    requires Consistent(t)
    requires 0 <= i < |t.rows| && 0 <= j < |t.rows|
    requires t.rows[i].role == AdminRole && t.rows[j].role == AdminRole
    ensures i == j
  {
    if i < j {
      TwoRowsWithRole(t.rows, AdminRole, i, j);
    } else if j < i {
      TwoRowsWithRole(t.rows, AdminRole, j, i);
    }
  }

  const EmptyTable: Table := Table([], 1)

  lemma EmptyTableConsistent()
    ensures Consistent(EmptyTable)
  {
  }

  class UserStore {
    var rows: seq<User>
    var nextId: int

    function Snapshot(): (t: Table)
      reads this
    {
      Table(rows, nextId)
    }

    ghost predicate Valid()
      reads this
    {
      Consistent(Snapshot())
    }

    /** A fresh, empty table; the first id handed out is 1. */
    constructor ()
      ensures Valid() && rows == [] && nextId == 1
    {
      rows := [];
      nextId := 1;
    }

    /** `bootstrap_admin` against this table. */
    method BootstrapAdmin(c: Crypto, req: Credentials) returns (r: Result<Auth.Msg>)
      requires Valid()
      modifies this
      ensures Valid()
      ensures Step(r, Snapshot()) == Auth.BootstrapAdmin(old(Snapshot()), c, req)
    {
      Auth.BootstrapKeepsInvariant(Snapshot(), c, req);
      ghost var s := Auth.BootstrapAdmin(Snapshot(), c, req);
      var existingAdmin := FindByRole(rows, AdminRole);
      if existingAdmin.Some? {
        assert s == Step(Err(BadRequest, Auth.AdminAlreadyExists), Snapshot());
        return Err(BadRequest, Auth.AdminAlreadyExists);
      }
      var existing := FindByUsername(rows, req.username);
      if existing.Some? {
        assert s == Step(Err(BadRequest, Auth.UsernameAlreadyExists), Snapshot());
        return Err(BadRequest, Auth.UsernameAlreadyExists);
      }
      assert s.result.Ok?;
      var admin := Auth.AdminRow(Snapshot(), c, req);
      rows := rows + [admin];
      nextId := nextId + 1;
      r := Ok(Auth.Msg(Auth.AdminCreated));
      assert Snapshot() == s.after;
    }

    /** `create_cashier` against this table, for the caller holding `creds`. */
    method CreateCashier(c: Crypto, creds: Option<string>, req: Credentials) returns (r: Result<UserOut>)
      requires Valid()
      modifies this
      ensures Valid()
      ensures Step(r, Snapshot()) == Users.CreateCashier(old(Snapshot()), c, creds, req)
    {
      Users.CreateCashierKeepsInvariant(Snapshot(), c, creds, req);
      ghost var s := Users.CreateCashier(Snapshot(), c, creds, req);
      var admin := CurrentAdmin(rows, c, creds);
      if admin.Err? {
        assert s == Step(Err(admin.status, admin.detail), Snapshot());
        return Err(admin.status, admin.detail);
      }
      var existing := FindByUsername(rows, req.username);
      if existing.Some? {
        assert s == Step(Err(BadRequest, Auth.UsernameAlreadyExists), Snapshot());
        return Err(BadRequest, Auth.UsernameAlreadyExists);
      }
      assert s.result.Ok?;
      var cashier := Users.CashierRow(Snapshot(), c, req);
      rows := rows + [cashier];
      nextId := nextId + 1;
      r := Ok(ToOut(cashier));
      assert Snapshot() == s.after;
    }
  }

  /** The requests that change the table; login, `me` and the listing only read it. */
  datatype Request =
    | BootstrapRequest(req: Credentials)
    | CreateCashierRequest(creds: Option<string>, req: Credentials)

  function Apply(t: Table, c: Crypto, q: Request): (after: Table) {
    match q
    case BootstrapRequest(req) => Auth.BootstrapAdmin(t, c, req).after
    case CreateCashierRequest(creds, req) => Users.CreateCashier(t, c, creds, req).after
  }

  /** The table after serving `qs` one after another. */
  function Run(t: Table, c: Crypto, qs: seq<Request>): (after: Table)
    decreases |qs|
  {
    if |qs| == 0 then t else Run(Apply(t, c, qs[0]), c, qs[1..])
  }

  lemma ApplyKeepsConsistent(t: Table, c: Crypto, q: Request)
    requires Consistent(t)
    ensures Consistent(Apply(t, c, q))
  {
    match q
    case BootstrapRequest(req) => Auth.BootstrapKeepsInvariant(t, c, req);
    case CreateCashierRequest(creds, req) => Users.CreateCashierKeepsInvariant(t, c, creds, req);
  }

  /** Whatever sequence of bootstrap and cashier requests is served, ids stay
      unique and increasing, usernames stay unique and there is never more
      than one admin row. */
  lemma {:induction false} RunKeepsConsistent(t: Table, c: Crypto, qs: seq<Request>)
    requires Consistent(t)
    ensures Consistent(Run(t, c, qs))
    decreases |qs|
  {
    if |qs| > 0 {
      ApplyKeepsConsistent(t, c, qs[0]);
      RunKeepsConsistent(Apply(t, c, qs[0]), c, qs[1..]);
    }
  }

  /** Starting from a table without an admin, any sequence of bootstrap
      requests alone leaves at most one admin row and unique usernames. */
  lemma BootstrapsFromEmpty(c: Crypto, reqs: seq<Credentials>)
    ensures var t := Run(EmptyTable, c, seq(|reqs|, i requires 0 <= i < |reqs| => BootstrapRequest(reqs[i])));
      CountRole(t.rows, "admin") <= 1 && UniqueUsernames(t.rows)
  {
    EmptyTableConsistent();
    RunKeepsConsistent(EmptyTable, c, seq(|reqs|, i requires 0 <= i < |reqs| => BootstrapRequest(reqs[i])));
  }

  /** On any table the requests can reach, an admin's listing holds one entry
      per cashier row and no other entry, in strictly descending id order. */
  lemma ConsistentListing(t: Table, c: Crypto, creds: Option<string>)
    requires Consistent(t)
    requires CurrentAdmin(t.rows, c, creds).Ok?
    ensures Users.ListCashiers(t.rows, c, creds).Ok?
    ensures var out := Users.ListCashiers(t.rows, c, creds).value;
      && |out| == CountRole(t.rows, "cashier")
      && (forall o :: o in out <==> exists u :: u in t.rows && u.role == "cashier" && o == ToOut(u))
      && (forall i, j :: 0 <= i < j < |out| ==> out[i].id > out[j].id)
  {
    IncreasingIdsAreUnique(t);
    Users.ListCashiersExact(t.rows, c, creds);
  }

  /** Every row keeps within the declared column widths. */
  ghost predicate RowsFit(t: Table) {
    forall i :: 0 <= i < |t.rows| ==> FitsColumns(t.rows[i])
  }

  /** The request body passes its field rules, as the framework checks before the handler runs. */
  predicate ValidRequest(q: Request) {
    ValidNewAccount(q.req)
  }

  lemma ApplyKeepsFit(t: Table, c: Crypto, q: Request)
    requires RowsFit(t)
    requires ValidRequest(q)
    requires HashFitsColumn(c)
    ensures RowsFit(Apply(t, c, q))
  {
    var after := Apply(t, c, q);
    if after != t {
      var row := match q
        case BootstrapRequest(req) => Auth.AdminRow(t, c, req)
        case CreateCashierRequest(_, req) => Users.CashierRow(t, c, req);
      assert after.rows == t.rows + [row];
      assert FitsColumns(row);
      forall i | 0 <= i < |after.rows| ensures FitsColumns(after.rows[i]) {
        if i < |t.rows| {
          assert after.rows[i] == t.rows[i];
        }
      }
    }
  }

  /** Requests whose bodies pass the field rules keep every row within the
      `String(50)`, `String(255)` and `String(20)` widths, given hashes that fit. */
  lemma {:induction false} RunKeepsFit(t: Table, c: Crypto, qs: seq<Request>)
    requires RowsFit(t)
    requires forall k :: 0 <= k < |qs| ==> ValidRequest(qs[k])
    requires HashFitsColumn(c)
    ensures RowsFit(Run(t, c, qs))
    decreases |qs|
  {
    if |qs| > 0 {
      ApplyKeepsFit(t, c, qs[0]);
      assert forall k :: 0 <= k < |qs[1..]| ==> ValidRequest(qs[1..][k]) by {
        forall k | 0 <= k < |qs[1..]| ensures ValidRequest(qs[1..][k]) {
          assert qs[1..][k] == qs[k + 1];
        }
      }
      RunKeepsFit(Apply(t, c, qs[0]), c, qs[1..]);
    }
  }
}
