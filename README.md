# pos-server authentication core, modelled in Dafny

This project models the user table of a point-of-sale backend and the auth
routes that read and change it. It covers:

- bootstrapping the single administrator;
- login, which checks a password and issues a bearer token;
- `me`, which echoes the authenticated user;
- the `get_current_user` and `require_admin` gates every protected route runs;
- admin-only creation and listing of cashier accounts;
- the request field rules;
- the rewriting of the database URL so that it names the psycopg2 driver.

Layout, one module per source file:

| file | module | models |
|---|---|---|
| http.dfy | `Http` | `Option`, and `Result` = a value or an HTTP error (status code, detail text) |
| models.dfy | `Models` | the `User` row, the `Table` (rows plus the next id), column defaults and widths, the table invariant, the `filter(...).first()` queries |
| schemas.dfy | `Schemas` | request and response records, field-length predicates |
| security.dfy | `Security` | the hashing and token library, kept abstract (see below) |
| deps.dfy | `Deps` | `get_current_user`, `require_admin` |
| auth.dfy | `Auth` | `bootstrap_admin`, `login`, `me` |
| users.dfy | `Users` | `create_cashier`, `list_cashiers` and the sort by id descending |
| store.dfy | `Store` | the `UserStore` class whose methods change the table in place, and the invariants any sequence of requests keeps |
| db.dfy | `Db` | `_normalize_db_url` |
| scenario.dfy | `Scenario` | how the routes compose: login then authenticate, deactivation, a full session |

The table is a value: `Table(rows, nextId)`. The routes that change it are
pure step functions that return a `Step` (the HTTP outcome plus the table
afterwards). These are `Auth.BootstrapAdmin` and `Users.CreateCashier`.
`Store.UserStore` holds the same two fields as mutable state. Its methods run
the source's guard-then-insert code step by step, and each one is proved equal
to its step function. Login, `me` and the listing only read the table, so they
are functions of the rows.

Assumptions:

- **Ids.** The database assigns ids. The model assumes each new row gets
  `nextId` and the counter then grows by one. So ids are positive and strictly
  increase in insertion order (`Models.IdsIncreasing`).
- **Crypto.** `hash`, `verify`, `encode` and `decode` are fields of a
  `Security.Crypto` value passed in by the caller. They are deterministic,
  total functions; beyond that nothing about them is assumed except where a
  lemma says so in its `requires`:
  - `HashVerifies`: `verify(p, hash(p))`;
  - `TokenRoundTrips`: a fresh token decodes to its subject and role;
  - `HashFitsColumn`: every hash has at most 255 chars.

Three behaviours of the code the model keeps:

- The token subject is the username: the token is issued for `user.username`
  (`app/routes/auth.py:40`) and the subject is looked up by username
  (`app/deps.py:33`).
- Bootstrap answers with the message "Admin created successfully"
  (`app/routes/auth.py:29`).
- A subject naming no row, or an inactive row, gets the detail text
  "User not found or inactive" (`app/deps.py:35`).

## Model

| member | source | states |
|---|---|---|
| `Models.NewUser` | app/models.py:12-13 | an absent `role` becomes "cashier" and an absent `is_active` becomes true; supplied columns are kept |
| `Models.IncreasingIdsAreUnique` | app/models.py:9 | under the id-assignment assumption no two rows share an id (primary key) |
| `Models.UniqueUsernames` | app/models.py:10 | defines the `unique=True` username: no two rows share a username |
| `Models.IdsIncreasing` | app/models.py:9 | defines the id assumption: ids are positive, strictly increase in insertion order and stay below the next id |
| `Models.TableInvariant` | app/models.py:9-10 | defines the table invariant: the primary-key id assumption and unique usernames |
| `Models.FitsColumns` | app/models.py:10-12 | defines the declared widths: username at most 50, password hash at most 255, role at most 20 chars |
| `Models.TwoRowsWithRole` | app/routes/auth.py:13-15 | two different rows holding a role make the count of rows with that role at least two |
| `Models.FindByUsername` | app/deps.py:33 | the username query finds a row iff some row has that username, and what it finds is such a row |
| `Models.FindByUsernameUnique` | app/models.py:10 | with unique usernames the query returns exactly the row holding the name |
| `Models.FindByRole` | app/routes/auth.py:13 | the admin query finds a row iff some row has the role |
| `Models.WithRole` | app/routes/users.py:35 | the role filter keeps exactly the rows with the role, without adding any |
| `Schemas.ValidNewAccount` | app/schemas.py:4-11 | defines the bootstrap and cashier request rules: username of 2..50 chars, password of 4..100 chars |
| `Schemas.ValidLogin` | app/schemas.py:14-16 | defines the login request rules: any username and password are accepted |
| `Schemas.NewAccountFitsColumns` | app/schemas.py:4-11 | a request passing the bootstrap/cashier rules (username 2..50, password 4..100) yields a row whose username fits `String(50)` and whose role fits `String(20)`, given a hash of at most 255 chars |
| `Schemas.NewTokenResponse` | app/schemas.py:19-21 | the token response carries the token and `token_type` "bearer" by default |
| `Schemas.ToOut` | app/schemas.py:24-28 | the public record copies id, username, role and is_active, and nothing else |
| `Deps.Subject` | app/deps.py:24-31 | a token names a subject iff it decodes and its `sub` is present and non-empty |
| `Deps.GetCurrentUser` | app/deps.py:17-36 | no credentials gives 401 "Not authenticated" before any decoding; an undecodable token or empty subject gives 401 "Invalid token"; otherwise success or 401 "User not found or inactive"; a resolved user is a row of the table, active, whose username is the subject; with unique usernames, success iff such an active row exists |
| `Deps.RequireAdmin` | app/deps.py:38-41 | 403 "Admin only" iff the role is not "admin", otherwise the same user |
| `Deps.CurrentAdmin` | app/routes/users.py:14 | the admin gate passes iff the current user resolves and is an admin; a resolution error is passed on unchanged |
| `Auth.BootstrapAdmin` | app/routes/auth.py:10-29 | 400 "Admin already exists" whenever any row is an admin, checked first; then 400 "Username already exists" if any row of any role has the name; a refusal leaves the table unchanged; success iff neither holds, and then the table gains exactly the row (next id, name, hash(password), "admin", active) and the answer is the "Admin created successfully" message |
| `Auth.InsertKeepsInvariant` | app/models.py:9-10 | appending a row with the next id and an unused username keeps ids increasing and usernames unique |
| `Auth.BootstrapKeepsInvariant` | app/routes/auth.py:13-28 | bootstrap keeps the table invariant; after a success there is exactly one admin row, after a refusal the admin count is unchanged |
| `Auth.SecondBootstrapRefused` | app/routes/auth.py:13-15 | after a successful bootstrap, any further bootstrap, under any name, is refused with "Admin already exists" |
| `Auth.Login` | app/routes/auth.py:31-41 | every failure is the same 401 "Bad credentials"; a success comes from a row with that username that is active and whose hash verifies, and the token encodes that row's username and role with type "bearer"; with unique usernames, success iff such a row exists |
| `Auth.Me` | app/routes/auth.py:43-45 | passes on the gate's error unchanged, or returns the resolved user's id, username, role and is_active; the result is the public record of an active row |
| `Users.CreateCashier` | app/routes/users.py:10-28 | a gate failure is returned with the table unchanged; then 400 "Username already exists" if any row has the name, table unchanged; success iff the gate passes and the name is unused, appending exactly (next id, name, hash(password), "cashier", active) and returning that row's id, username, role and is_active |
| `Users.CreateCashierKeepsInvariant` | app/routes/users.py:16-26 | creating a cashier keeps the table invariant and does not change the number of admin rows |
| `Users.InsertByIdDesc` | app/routes/users.py:35 | insertion adds exactly one occurrence of the row (multiset) |
| `Users.InsertKeepsOrder` | app/routes/users.py:35 | inserting into a list ordered by non-increasing id keeps it ordered |
| `Users.InsertKeepsStrictOrder` | app/routes/users.py:35 | inserting a row with a new id into a strictly descending list keeps it strictly descending |
| `Users.SortByIdDesc` | app/routes/users.py:35 | the sort is a permutation of its input |
| `Users.SortIsOrdered` | app/routes/users.py:35 | the sort orders by non-increasing id |
| `Users.SortIsStrictlyOrdered` | app/routes/users.py:35 | with distinct ids the sort orders by strictly descending id |
| `Users.CashierRows` | app/routes/users.py:35 | defines the query: the rows with role "cashier", sorted by id descending |
| `Users.CashierRowsExact` | app/routes/users.py:35 | the sorted cashier rows are exactly the rows with role "cashier", each once (the multiset of the filtered rows), in strictly descending id order |
| `Users.OutList` | app/routes/users.py:36 | the comprehension maps each row, in order, to its public record |
| `Users.ListCashiers` | app/routes/users.py:30-36 | succeeds iff the admin gate passes, passing on its error otherwise; the answer is the public records of the sorted cashier rows |
| `Users.ListCashiersExact` | app/routes/users.py:35-36 | an admin's listing has one entry per cashier row and no other entry, in strictly descending id order |
| `Store.UserStore.BootstrapAdmin` | app/routes/auth.py:10-29 | the in-place bootstrap leaves exactly the outcome and table of `Auth.BootstrapAdmin` and keeps the store consistent (invariant plus at most one admin) |
| `Store.UserStore.CreateCashier` | app/routes/users.py:10-28 | the in-place cashier creation leaves exactly the outcome and table of `Users.CreateCashier` and keeps the store consistent |
| `Store.AtMostOneAdminRow` | app/routes/auth.py:13-15 | in a consistent table any two admin rows are the same row position: there is at most one admin |
| `Store.RunKeepsConsistent` | app/routes/auth.py:13-28 | any sequence of bootstrap and cashier requests from a consistent table keeps ids increasing, usernames unique and at most one admin row |
| `Store.ConsistentListing` | app/routes/users.py:35-36 | on any consistent table, an admin's listing holds one entry per cashier row and no other, in strictly descending id order |
| `Store.ApplyKeepsFit` | app/routes/auth.py:21-28 | one bootstrap or cashier request with a body passing the field rules keeps every row within the column widths, given hashes of at most 255 chars |
| `Store.RunKeepsFit` | app/models.py:10-12 | any sequence of bootstrap and cashier requests whose bodies pass the 2..50 / 4..100 field rules (app/schemas.py:4-11) keeps every row within the username, password-hash and role widths, given hashes of at most 255 chars |
| `Store.BootstrapsFromEmpty` | app/routes/auth.py:13-28 | starting from the empty table, any sequence of bootstrap calls leaves at most one admin row and unique usernames |
| `Db.ReplaceFirst` | app/db.py:9 | `replace(pat, rep, 1)` on a string starting with `pat` swaps that prefix; on a string not containing `pat` it changes nothing |
| `Db.NormalizeDbUrl` | app/db.py:6-13 | "postgres://" becomes "postgresql+psycopg2://" followed by the rest; "postgresql://" without "+psycopg2" anywhere gets the same prefix; any other url is returned unchanged |
| `Db.Psycopg2UrlIsFixed` | app/db.py:8-13 | a url already starting with "postgresql+psycopg2://" is a fixed point |
| `Db.NormalizeIdempotent` | app/db.py:6-13 | normalising twice gives the same url as normalising once |
| `Db.DefaultUrlIsFixed` | app/db.py:16 | the default "sqlite:///./pos.db" is returned unchanged |
| `Scenario.LoginThenAuthenticate` | app/routes/auth.py:40 | under the token round-trip assumption, a login token for a non-empty username authenticates the very row that logged in |
| `Scenario.InactiveUserRefused` | app/deps.py:33-35 | an inactive user is refused with 401 "User not found or inactive" even with a token naming them |
| `Scenario.SessionBootstrap` | app/routes/auth.py:10-45 | bootstrap of "alice" on the empty table succeeds with id 1; a wrong password gives 401; the right one gives her token; `me` returns her public record |
| `Scenario.SessionCreateCashier` | app/routes/users.py:10-28 | with alice's token, "bob" is created as an active cashier with id 2 |
| `Scenario.SessionAdminListing` | app/routes/users.py:30-36 | alice's listing is exactly bob; without a token the listing is 401 "Not authenticated" |
| `Scenario.SessionCashierListing` | app/deps.py:38-41 | bob can log in, but his cashier token gets 403 "Admin only" from the listing |
| `Scenario.SessionSecondBootstrap` | app/routes/auth.py:13-15 | once alice exists, bootstrap under another name gets "Admin already exists" |

## Left out

- `app/security.py`:
  - It is a wrapper over passlib (bcrypt_sha256) and python-jose, and it reads
    the environment and the wall clock. Its four functions are abstract
    parameters.
  - `encode` does not take the time. Token expiry appears only as a `decode`
    failure.
- Password salting: `hash_password` draws a fresh salt on every call, while
  the model's `hash` gives one fixed hash per password.
- Exceptions raised by the hashing and token library inside `hash`, `verify` or
  `encode` (for instance on an over-long secret), which the routes do not catch
  and which end as a server error: the model's library functions are total.
- Sessions and setup are database I/O and resource management: `get_db`,
  engine and session creation, `connect_args`, and the module-level
  `DATABASE_URL`, except that `Db.DefaultUrlIsFixed` covers its default value.
- `app/main.py`: a constant health-check route.
- Framework machinery:
  - FastAPI routing and dependency injection. Each route's dependencies are
    composed explicitly (`Deps.CurrentAdmin` runs before the handler body).
  - `HTTPBearer` header parsing. The credential is an `Option<string>`.
  - Pydantic validation and its 422 answers. The field rules are predicates in
    `Schemas`, and the handlers are modelled for all inputs.
- The `created_at` server timestamp.
- Concurrency:
  - The check-then-insert race in bootstrap and cashier creation, and the
    unique index as a backstop. Requests are modelled one at a time.
  - The uncaught `IntegrityError` such a race would raise.
- Schema names: the routes import schema classes that `app/schemas.py` does
  not define (`BootstrapAdminIn`, `LoginIn`, `TokenOut`, `Msg`,
  `CreateCashierIn`). All request bodies are modelled as one
  username/password record, `Schemas.Credentials`.
- Database enforcement of the column widths: whether the database refuses an
  over-long value depends on the backend. `Models.FitsColumns` is a predicate
  and is not enforced on inserts; `Store.RunKeepsFit` shows the routes never
  produce an over-long row, given the field rules and `HashFitsColumn`.
- NULL values of the nullable `role` and `is_active` columns. No route writes
  them.
- Row order for `first()`: a query without ORDER BY is modelled as returning
  the first matching row in insertion order. Under unique usernames this only
  matters for the admin query, where only existence is used.
- A `sub` claim that is not a string: claims are `Option<string>`.
- Deactivation and role changes: no route performs them.
  `Scenario.InactiveUserRefused` states the effect of an inactive row.
- Python `len` counts code points and Dafny's `char` is a Unicode scalar
  value. These agree except on strings holding lone surrogates, which Dafny
  strings cannot represent.
