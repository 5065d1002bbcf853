/** The `users` table: its row type, its column defaults and widths, the
    invariants the table keeps, and the single-row queries the routes run. */
module Models {
  import opened Http

  /** One row of the `users` table (the `created_at` timestamp is not modelled). */
  datatype User = User(id: int, username: string, passwordHash: string, role: string, isActive: bool)

  /** The whole table together with the id the database hands out next. */
  datatype Table = Table(rows: seq<User>, nextId: int)

  /** What a request does: its HTTP outcome and the table afterwards. */
  datatype Step<T> = Step(result: Result<T>, after: Table)

  const AdminRole: string := "admin"
  const CashierRole: string := "cashier"

  const DefaultRole: string := CashierRole
  const DefaultIsActive: bool := true

  const UsernameWidth: nat := 50
  const PasswordHashWidth: nat := 255
  const RoleWidth: nat := 20

  /** A row as the ORM builds it from the columns a caller supplies; a column
      left out takes its declared default. */
  function NewUser(id: int, username: string, passwordHash: string, role: Option<string>, isActive: Option<bool>): (u: User)
    ensures u.id == id && u.username == username && u.passwordHash == passwordHash
    ensures role.None? ==> u.role == "cashier"
    ensures role.Some? ==> u.role == role.value
    ensures isActive.None? ==> u.isActive
    ensures isActive.Some? ==> u.isActive == isActive.value
  {
    User(id, username, passwordHash,
         match role case Some(r) => r case None => DefaultRole,
         match isActive case Some(a) => a case None => DefaultIsActive)
  }

  /** The declared widths of the string columns. */
  predicate FitsColumns(u: User) {
    |u.username| <= UsernameWidth && |u.passwordHash| <= PasswordHashWidth && |u.role| <= RoleWidth
  }

  ghost predicate UniqueIds(rows: seq<User>) {
    forall i, j :: 0 <= i < j < |rows| ==> rows[i].id != rows[j].id
  }

  ghost predicate UniqueUsernames(rows: seq<User>) {
    forall i, j :: 0 <= i < j < |rows| ==> rows[i].username != rows[j].username
  }

  /** Ids are handed out by the database; the model assumes they are positive
      and strictly increasing in insertion order, all below `nextId`. */
  ghost predicate IdsIncreasing(t: Table) {
    && (forall i, j :: 0 <= i < j < |t.rows| ==> t.rows[i].id < t.rows[j].id)
    && (forall i :: 0 <= i < |t.rows| ==> 1 <= t.rows[i].id < t.nextId)
  }

  /** The table invariant: `id` is a primary key and `username` is unique. */
  ghost predicate TableInvariant(t: Table) {
    IdsIncreasing(t) && UniqueUsernames(t.rows)
  }

  lemma IncreasingIdsAreUnique(t: Table)
    requires IdsIncreasing(t)
    ensures UniqueIds(t.rows)
  {
  }

  /** `query(User).filter(User.username == name).first()` */
  function FindByUsername(rows: seq<User>, name: string): (r: Option<User>)
    ensures r.Some? <==> exists i :: 0 <= i < |rows| && rows[i].username == name
    ensures r.Some? ==> r.value in rows && r.value.username == name
  {
    if |rows| == 0 then None
    else if rows[0].username == name then Some(rows[0])
    else FindByUsername(rows[1..], name)
  }

  /** With unique usernames the first match is the only one. */
  lemma {:induction false} FindByUsernameUnique(rows: seq<User>, i: int)
    requires UniqueUsernames(rows)
    requires 0 <= i < |rows|
    ensures FindByUsername(rows, rows[i].username) == Some(rows[i])
  {
    if i > 0 && rows[0].username != rows[i].username {
      assert UniqueUsernames(rows[1..]) by {
        forall a, b | 0 <= a < b < |rows| - 1
          ensures rows[1..][a].username != rows[1..][b].username
        {
          assert rows[1..][a] == rows[a + 1] && rows[1..][b] == rows[b + 1];
        }
      }
      FindByUsernameUnique(rows[1..], i - 1);
      assert rows[1..][i - 1] == rows[i];
    }
  }

  /** The rows having `role`, in table order. */
  function WithRole(rows: seq<User>, role: string): (r: seq<User>)
    ensures forall u :: u in r <==> u in rows && u.role == role
    ensures multiset(r) <= multiset(rows)
  {
    if |rows| == 0 then []
    else
      assert rows == [rows[0]] + rows[1..];
      (if rows[0].role == role then [rows[0]] else []) + WithRole(rows[1..], role)
  }

  /** The number of rows having `role`. */
  function CountRole(rows: seq<User>, role: string): (n: nat) {
    |WithRole(rows, role)|
  }

  /** `query(User).filter(User.role == role).first()` */
  function FindByRole(rows: seq<User>, role: string): (r: Option<User>)
    ensures r.Some? <==> exists i :: 0 <= i < |rows| && rows[i].role == role
    ensures r.Some? ==> r.value in rows && r.value.role == role
  {
    if |rows| == 0 then None
    else if rows[0].role == role then Some(rows[0])
    else FindByRole(rows[1..], role)
  }

  lemma {:induction false} WithRoleAppend(rows: seq<User>, u: User, role: string)
    ensures WithRole(rows + [u], role) == WithRole(rows, role) + (if u.role == role then [u] else [])
  {
    if |rows| == 0 {
      assert rows + [u] == [u];
    } else {
      var head := if rows[0].role == role then [rows[0]] else [];
      var last := if u.role == role then [u] else [];
      assert (rows + [u])[0] == rows[0];
      assert (rows + [u])[1..] == rows[1..] + [u];
      calc {
        WithRole(rows + [u], role);
        head + WithRole(rows[1..] + [u], role);
        { WithRoleAppend(rows[1..], u, role); }
        head + (WithRole(rows[1..], role) + last);
        (head + WithRole(rows[1..], role)) + last;
      }
    }
  }

  /** Two different positions holding `role` make the count of such rows at least two. */
  lemma {:induction false} TwoRowsWithRole(rows: seq<User>, role: string, i: int, j: int)
    requires 0 <= i < j < |rows|
    requires rows[i].role == role && rows[j].role == role
    ensures CountRole(rows, role) >= 2
  {
    var tail := rows[1..];
    assert tail[j - 1] == rows[j];
    if i == 0 {
      assert rows[j] in WithRole(tail, role);
    } else {
      assert tail[i - 1] == rows[i];
      TwoRowsWithRole(tail, role, i - 1, j - 1);
    }
  }

  /** No row has `role` exactly when the count of such rows is zero. */
  lemma CountRoleZero(rows: seq<User>, role: string)
    ensures CountRole(rows, role) == 0 <==> FindByRole(rows, role).None?
  {
    if FindByRole(rows, role).Some? {
      assert FindByRole(rows, role).value in WithRole(rows, role);
    }
  }

  /** Filtering keeps distinct ids distinct. */
  lemma {:induction false} WithRoleUniqueIds(rows: seq<User>, role: string)
    requires UniqueIds(rows)
    ensures UniqueIds(WithRole(rows, role))
  {
    if |rows| > 0 {
      var tail := rows[1..];
      assert UniqueIds(tail) by {
        forall a, b | 0 <= a < b < |tail| ensures tail[a].id != tail[b].id {
          assert tail[a] == rows[a + 1] && tail[b] == rows[b + 1];
        }
      }
      WithRoleUniqueIds(tail, role);
      var w := WithRole(tail, role);
      if rows[0].role == role {
        forall v | v in w ensures v.id != rows[0].id {
          assert v in tail;
          var k :| 0 <= k < |tail| && tail[k] == v;
          assert rows[k + 1] == v;
        }
        assert WithRole(rows, role) == [rows[0]] + w;
      } else {
        assert WithRole(rows, role) == w;
      }
    }
  }
}
