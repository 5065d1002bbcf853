/** The admin-only `/users` routes: creating a cashier and listing cashiers. */
module Users {
  import opened Http
  import opened Models
  import opened Schemas
  import opened Security
  import opened Deps
  import Auth

  /** The cashier row a successful creation inserts. */
  function CashierRow(t: Table, c: Crypto, req: Credentials): (u: User) {
    NewUser(t.nextId, req.username, c.hash(req.password), Some(CashierRole), Some(true))
  }

  /** `create_cashier`: the caller must pass `require_admin`; then the
      username must be unused by a row of any role; then the cashier row is
      inserted and its public fields returned. */
  function CreateCashier(t: Table, c: Crypto, creds: Option<string>, req: Credentials): (s: Step<UserOut>)
    ensures CurrentAdmin(t.rows, c, creds).Err? ==>
      s == Step(Err(CurrentAdmin(t.rows, c, creds).status, CurrentAdmin(t.rows, c, creds).detail), t)
    ensures CurrentAdmin(t.rows, c, creds).Ok? && (exists i :: 0 <= i < |t.rows| && t.rows[i].username == req.username) ==>
      s == Step(Err(400, "Username already exists"), t)
    ensures s.result.Ok? <==>
      CurrentAdmin(t.rows, c, creds).Ok? && forall i :: 0 <= i < |t.rows| ==> t.rows[i].username != req.username
    ensures s.result.Err? ==> s.after == t
    ensures s.result.Ok? ==>
      && s.after.rows == t.rows + [User(t.nextId, req.username, c.hash(req.password), "cashier", true)]
      && s.after.nextId == t.nextId + 1
      && s.result.value == UserOut(t.nextId, req.username, "cashier", true)
  {
    match CurrentAdmin(t.rows, c, creds)
    case Err(status, detail) => Step(Err(status, detail), t)
    case Ok(_) =>
      if FindByUsername(t.rows, req.username).Some? then Step(Err(BadRequest, Auth.UsernameAlreadyExists), t)
      else
        var row := CashierRow(t, c, req);
        Step(Ok(ToOut(row)), Table(t.rows + [row], t.nextId + 1))
  }

  /** A cashier insert keeps the table invariant and leaves the number of
      admin rows where it was. */
  lemma CreateCashierKeepsInvariant(t: Table, c: Crypto, creds: Option<string>, req: Credentials)
    requires TableInvariant(t) && 1 <= t.nextId
    ensures var s := CreateCashier(t, c, creds, req);
      && TableInvariant(s.after) && 1 <= s.after.nextId
      && CountRole(s.after.rows, "admin") == CountRole(t.rows, "admin")
  {
    var s := CreateCashier(t, c, creds, req);
    if s.result.Ok? {
      Auth.InsertKeepsInvariant(t, CashierRow(t, c, req));
      WithRoleAppend(t.rows, CashierRow(t, c, req), AdminRole);
    }
  }

  ghost predicate NonIncreasingIds(s: seq<User>) {
    forall i, j :: 0 <= i < j < |s| ==> s[i].id >= s[j].id
  }

  ghost predicate StrictlyDecreasingIds(s: seq<User>) {
    forall i, j :: 0 <= i < j < |s| ==> s[i].id > s[j].id
  }

  /** Inserts `u` in front of the first row whose id is not larger. */
  function InsertByIdDesc(u: User, s: seq<User>): (r: seq<User>)
    ensures multiset(r) == multiset(s) + multiset{u}
  {
    if |s| == 0 then [u]
    else if u.id >= s[0].id then [u] + s
    else
      assert s == [s[0]] + s[1..];
      [s[0]] + InsertByIdDesc(u, s[1..])
  }

  /** Every row of the insertion result is `u` or a row of `s`. */
  lemma InsertByIdDescMembers(u: User, s: seq<User>)
    ensures forall v :: v in InsertByIdDesc(u, s) ==> v == u || v in s
  {
    forall v | v in InsertByIdDesc(u, s) ensures v == u || v in s {
      assert v in multiset(InsertByIdDesc(u, s));
    }
  }

  lemma PrependKeepsOrder(x: User, s: seq<User>)
    requires NonIncreasingIds(s)
    requires forall v :: v in s ==> x.id >= v.id
    ensures NonIncreasingIds([x] + s)
  {
    var r := [x] + s;
    forall a, b | 0 <= a < b < |r| ensures r[a].id >= r[b].id {
      assert r[b] == s[b - 1];
      if a > 0 {
        assert r[a] == s[a - 1];
      }
    }
  }

  lemma PrependKeepsStrictOrder(x: User, s: seq<User>)
    requires StrictlyDecreasingIds(s)
    requires forall v :: v in s ==> x.id > v.id
    ensures StrictlyDecreasingIds([x] + s)
  {
    var r := [x] + s;
    forall a, b | 0 <= a < b < |r| ensures r[a].id > r[b].id {
      assert r[b] == s[b - 1];
      if a > 0 {
        assert r[a] == s[a - 1];
      }
    }
  }

  /** The rows after the first one keep the order. */
  lemma TailKeepsOrder(s: seq<User>)
    requires |s| > 0
    ensures NonIncreasingIds(s) ==> NonIncreasingIds(s[1..]) && forall v :: v in s[1..] ==> s[0].id >= v.id
    ensures StrictlyDecreasingIds(s) ==> StrictlyDecreasingIds(s[1..]) && forall v :: v in s[1..] ==> s[0].id > v.id
  {
    var tail := s[1..];
    forall a | 0 <= a < |tail| ensures tail[a] == s[a + 1] { }
  }

  lemma {:induction false} InsertKeepsOrder(u: User, s: seq<User>)
    requires NonIncreasingIds(s)
    ensures NonIncreasingIds(InsertByIdDesc(u, s))
  {
    if |s| > 0 {
      TailKeepsOrder(s);
      if u.id >= s[0].id {
        PrependKeepsOrder(u, s);
      } else {
        InsertKeepsOrder(u, s[1..]);
        InsertByIdDescMembers(u, s[1..]);
        PrependKeepsOrder(s[0], InsertByIdDesc(u, s[1..]));
      }
    }
  }

  lemma {:induction false} InsertKeepsStrictOrder(u: User, s: seq<User>)
    requires StrictlyDecreasingIds(s)
    requires forall v :: v in s ==> v.id != u.id
    ensures StrictlyDecreasingIds(InsertByIdDesc(u, s))
  {
    if |s| > 0 {
      TailKeepsOrder(s);
      if u.id >= s[0].id {
        PrependKeepsStrictOrder(u, s);
      } else {
        InsertKeepsStrictOrder(u, s[1..]);
        InsertByIdDescMembers(u, s[1..]);
        PrependKeepsStrictOrder(s[0], InsertByIdDesc(u, s[1..]));
      }
    }
  }

  /** `order_by(User.id.desc())`, as an insertion sort. */
  function SortByIdDesc(s: seq<User>): (r: seq<User>)
    ensures multiset(r) == multiset(s)
  {
    if |s| == 0 then []
    else
      assert s == [s[0]] + s[1..];
      InsertByIdDesc(s[0], SortByIdDesc(s[1..]))
  }

  lemma {:induction false} SortIsOrdered(s: seq<User>)
    ensures NonIncreasingIds(SortByIdDesc(s))
  {
    if |s| > 0 {
      SortIsOrdered(s[1..]);
      InsertKeepsOrder(s[0], SortByIdDesc(s[1..]));
    }
  }

  /** With distinct ids the sorted rows are in strictly descending id order. */
  lemma {:induction false} SortIsStrictlyOrdered(s: seq<User>)
    requires UniqueIds(s)
    ensures StrictlyDecreasingIds(SortByIdDesc(s))
  {
    if |s| > 0 {
      var tail := s[1..];
      var sorted := SortByIdDesc(tail);
      assert UniqueIds(tail) by {
        forall a, b | 0 <= a < b < |tail| ensures tail[a].id != tail[b].id {
          assert tail[a] == s[a + 1] && tail[b] == s[b + 1];
        }
      }
      SortIsStrictlyOrdered(tail);
      forall v | v in sorted ensures v.id != s[0].id {
        assert v in multiset(sorted);
        var k :| 0 <= k < |tail| && tail[k] == v;
        assert s[k + 1] == v;
      }
      InsertKeepsStrictOrder(s[0], sorted);
    }
  }

  /** The rows `list_cashiers` returns, before they are turned into `UserOut`s. */
  function CashierRows(rows: seq<User>): (r: seq<User>) {
    SortByIdDesc(WithRole(rows, CashierRole))
  }

  /** The listing holds exactly the cashier rows, each once, in strictly
      descending id order. */
  lemma CashierRowsExact(rows: seq<User>)
    requires UniqueIds(rows)
    ensures forall u :: u in CashierRows(rows) <==> u in rows && u.role == "cashier"
    ensures multiset(CashierRows(rows)) == multiset(WithRole(rows, "cashier"))
    ensures |CashierRows(rows)| == CountRole(rows, "cashier")
    ensures StrictlyDecreasingIds(CashierRows(rows))
  {
    WithRoleUniqueIds(rows, CashierRole);
    SortIsStrictlyOrdered(WithRole(rows, CashierRole));
    var w := WithRole(rows, CashierRole);
    forall u ensures u in CashierRows(rows) <==> u in w {
      assert u in CashierRows(rows) <==> u in multiset(CashierRows(rows));
    }
    assert |multiset(CashierRows(rows))| == |multiset(w)|;
  }

  /** The list comprehension over the sorted rows. */
  function OutList(rows: seq<User>): (r: seq<UserOut>)
    ensures |r| == |rows| && forall i :: 0 <= i < |rows| ==> r[i] == ToOut(rows[i])
  {
    seq(|rows|, i requires 0 <= i < |rows| => ToOut(rows[i]))
  }

  /** `list_cashiers`: behind `require_admin`, the public fields of the cashier rows, newest first. */
  function ListCashiers(rows: seq<User>, c: Crypto, creds: Option<string>): (r: Result<seq<UserOut>>)
    ensures r.Ok? <==> CurrentAdmin(rows, c, creds).Ok?
    ensures r.Err? ==> r == Err(CurrentAdmin(rows, c, creds).status, CurrentAdmin(rows, c, creds).detail)
    ensures r.Ok? ==> r.value == OutList(CashierRows(rows))
  {
    match CurrentAdmin(rows, c, creds)
    case Err(status, detail) => Err(status, detail)
    case Ok(_) => Ok(OutList(CashierRows(rows)))
  }

  lemma OutListMembers(rows: seq<User>)
    ensures forall o :: o in OutList(rows) <==> exists u :: u in rows && o == ToOut(u)
  {
    var out := OutList(rows);
    forall o ensures o in out <==> exists u :: u in rows && o == ToOut(u) {
      if o in out {
        var k :| 0 <= k < |out| && out[k] == o;
        assert rows[k] in rows;
      }
      if exists u :: u in rows && o == ToOut(u) {
        var u :| u in rows && o == ToOut(u);
        var k :| 0 <= k < |rows| && rows[k] == u;
        assert out[k] == o;
      }
    }
  }

  /** What an admin sees: one entry per cashier row and no other, in strictly
      descending id order. */
  lemma ListCashiersExact(rows: seq<User>, c: Crypto, creds: Option<string>)
    requires UniqueIds(rows)
    requires CurrentAdmin(rows, c, creds).Ok?
    ensures ListCashiers(rows, c, creds).Ok?
    ensures var out := ListCashiers(rows, c, creds).value;
      && |out| == CountRole(rows, "cashier")
      && (forall o :: o in out <==> exists u :: u in rows && u.role == "cashier" && o == ToOut(u))
      && (forall i, j :: 0 <= i < j < |out| ==> out[i].id > out[j].id)
  {
    CashierRowsExact(rows);
    var sorted := CashierRows(rows);
    OutListMembers(sorted);
    var out := OutList(sorted);
    assert ListCashiers(rows, c, creds) == Ok(out);
    forall o ensures o in out <==> exists u :: u in rows && u.role == "cashier" && o == ToOut(u) {
      assert o in out <==> exists u :: u in sorted && o == ToOut(u);
    }
    forall i, j | 0 <= i < j < |out| ensures out[i].id > out[j].id {
      assert out[i].id == sorted[i].id && out[j].id == sorted[j].id;
    }
  }
}
