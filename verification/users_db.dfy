/**
 The `users` table of lib/users-db.ts and the operations on it.

 The table is its rows in rowid order together with the AUTOINCREMENT counter.
 `UPDATE ... WHERE id = ?` and `DELETE ... WHERE id = ?` act on every row with
 that id, as SQL does; the `Valid` invariant (strictly increasing ids, unique
 emails) is what makes that at most one row. The clock (`datetime('now')`), the
 16 random salt bytes and PBKDF2 are parameters.
 */
module UsersDb {
  import opened Text
  import opened Hex
  import opened Tally
  import opened Sorting
  import opened Password
  import opened SqlLike

  /** `'admin' | 'user'`; the CHECK constraint admits nothing else. */
  datatype Role = Admin | Member

  /** `'active' | 'inactive'`. */
  datatype Status = Active | Inactive

  type Timestamp = nat

  datatype User = User(
    id: nat,
    name: string,
    email: string,
    passwordHash: string,
    role: Role,
    status: Status,
    createdAt: Timestamp,
    updatedAt: Timestamp)

  /** A user as the API returns it: everything except the password hash. */
  datatype UserPublic = UserPublic(
    id: nat,
    name: string,
    email: string,
    role: Role,
    status: Status,
    createdAt: Timestamp,
    updatedAt: Timestamp)

  function ToPublic(u: User): UserPublic {
    UserPublic(u.id, u.name, u.email, u.role, u.status, u.createdAt, u.updatedAt)
  }

  datatype Table = Table(rows: seq<User>, lastRowId: nat)

  /** What must hold between a row and every later row. */
  function Ordered(a: User, b: User): bool {
    a.id < b.id && a.email != b.email
  }

  /** The table's constraints: rowids strictly increase and never exceed the
      counter (PRIMARY KEY AUTOINCREMENT), and emails are UNIQUE. */
  ghost predicate Valid(t: Table) {
    && Pairwise(t.rows, Ordered)
    && forall i :: 0 <= i < |t.rows| ==> t.rows[i].id <= t.lastRowId
  }

  /** The error SQLite raises on a UNIQUE violation of `email`. */
  datatype DbError = EmailTaken | NoSuchColumn

  datatype Result<T> = Ok(value: T) | Err(error: DbError)

  predicate HasId(rows: seq<User>, id: nat) {
    exists i :: 0 <= i < |rows| && rows[i].id == id
  }

  predicate EmailInUse(rows: seq<User>, email: string) {
    exists i :: 0 <= i < |rows| && rows[i].email == email
  }

  /** `SELECT ... WHERE id = ?`: the first row with that id. */
  function FindById(rows: seq<User>, id: nat): (r: Option<User>)
    ensures r.Some? ==> r.value in rows && r.value.id == id
    ensures r.None? <==> !HasId(rows, id)
  {
    if rows == [] then None
    else if rows[0].id == id then Some(rows[0])
    else
      var r := FindById(rows[1..], id);
      assert HasId(rows, id) ==> HasId(rows[1..], id) by {
        if HasId(rows, id) {
          var i :| 0 <= i < |rows| && rows[i].id == id;
          assert rows[1..][i - 1] == rows[i];
        }
      }
      assert HasId(rows[1..], id) ==> HasId(rows, id) by {
        if HasId(rows[1..], id) {
          var i :| 0 <= i < |rows[1..]| && rows[1..][i].id == id;
          assert rows[i + 1] == rows[1..][i];
        }
      }
      r
  }

  /** `SELECT * FROM users WHERE email = ?`: the first row with that email. */
  function FindByEmail(rows: seq<User>, email: string): (r: Option<User>)
    ensures r.Some? ==> r.value in rows && r.value.email == email
    ensures r.None? <==> !EmailInUse(rows, email)
  {
    if rows == [] then None
    else if rows[0].email == email then Some(rows[0])
    else
      var r := FindByEmail(rows[1..], email);
      assert EmailInUse(rows, email) ==> EmailInUse(rows[1..], email) by {
        if EmailInUse(rows, email) {
          var i :| 0 <= i < |rows| && rows[i].email == email;
          assert rows[1..][i - 1] == rows[i];
        }
      }
      assert EmailInUse(rows[1..], email) ==> EmailInUse(rows, email) by {
        if EmailInUse(rows[1..], email) {
          var i :| 0 <= i < |rows[1..]| && rows[1..][i].email == email;
          assert rows[i + 1] == rows[1..][i];
        }
      }
      r
  }

  /** With unique emails, the row found by email is the only one. */
  lemma FindByEmailUnique(t: Table, u: User)
    requires Valid(t) && u in t.rows
    ensures FindByEmail(t.rows, u.email) == Some(u)
  {
    var f := FindByEmail(t.rows, u.email).value;
    var i :| 0 <= i < |t.rows| && t.rows[i] == u;
    var j :| 0 <= j < |t.rows| && t.rows[j] == f;
  }

  /** `getUserById`. */
  function GetUserById(t: Table, id: nat): (r: Option<UserPublic>)
    ensures r.None? <==> !HasId(t.rows, id)
    ensures r.Some? ==> exists u :: u in t.rows && u.id == id && r.value == ToPublic(u)
  {
    match FindById(t.rows, id)
    case None => None
    case Some(u) => Some(ToPublic(u))
  }

  /** The row an INSERT adds: the next rowid, both timestamps `now`. */
  function Append(t: Table, name: string, email: string, hash: string, role: Role, status: Status, now: Timestamp): Table {
    var id := t.lastRowId + 1;
    Table(t.rows + [User(id, name, email, hash, role, status, now, now)], id)
  }

  lemma AppendValid(t: Table, name: string, email: string, hash: string, role: Role, status: Status, now: Timestamp)
    requires Valid(t) && !EmailInUse(t.rows, email)
    ensures Valid(Append(t, name, email, hash, role, status, now))
  {
    var t' := Append(t, name, email, hash, role, status, now);
    forall i, j | 0 <= i < j < |t'.rows| ensures Ordered(t'.rows[i], t'.rows[j]) {
      if j == |t.rows| {
        assert t'.rows[i] == t.rows[i];
      } else {
        assert t'.rows[i] == t.rows[i] && t'.rows[j] == t.rows[j];
      }
    }
  }

  const DefaultAdminName: string := "Administrador"
  const DefaultAdminEmail: string := "admin@misrravb.com"
  const DefaultAdminPassword: string := "admin123"

  /** `initUsersDb`: seeds the default administrator into an empty table. */
  function InitUsersDb(t: Table, saltBytes: seq<byte>, kdf: Kdf, now: Timestamp): (r: Table)
    requires |saltBytes| == SaltLength
    ensures |t.rows| > 0 ==> r == t
    ensures |t.rows| == 0 ==>
      && |r.rows| == 1
      && r.rows[0].name == DefaultAdminName
      && r.rows[0].email == DefaultAdminEmail
      && r.rows[0].role == Admin
      && r.rows[0].status == Active
      && VerifyPassword(DefaultAdminPassword, r.rows[0].passwordHash, kdf)
  {
    if |t.rows| == 0 then
      var hash := HashPassword(DefaultAdminPassword, saltBytes, kdf);
      HashThenVerify(DefaultAdminPassword, saltBytes, kdf);
      Append(t, DefaultAdminName, DefaultAdminEmail, hash, Admin, Active, now)
    else
      t
  }

  lemma InitUsersDbValid(t: Table, saltBytes: seq<byte>, kdf: Kdf, now: Timestamp)
    requires |saltBytes| == SaltLength
    requires Valid(t)
    ensures Valid(InitUsersDb(t, saltBytes, kdf, now))
  {
    if |t.rows| == 0 {
      var hash := HashPassword(DefaultAdminPassword, saltBytes, kdf);
      AppendValid(t, DefaultAdminName, DefaultAdminEmail, hash, Admin, Active, now);
    }
  }

  datatype CreateUserInput = CreateUserInput(
    name: string,
    email: string,
    password: string,
    role: Role,
    status: Option<Status>)

  /** `input.status || 'active'`. */
  function StatusOrActive(s: Option<Status>): Status {
    if s.Some? then s.value else Active
  }

  /** `createUser`: hashes the password and inserts; a taken email makes the
      INSERT fail. */
  function CreateUser(t: Table, input: CreateUserInput, saltBytes: seq<byte>, kdf: Kdf, now: Timestamp): (r: Result<(Table, UserPublic)>)
    requires |saltBytes| == SaltLength
    ensures r.Err? <==> EmailInUse(t.rows, input.email)
    ensures r.Ok? ==>
      var (t', u) := r.value;
      && |t'.rows| == |t.rows| + 1
      && t'.rows[..|t.rows|] == t.rows
      && ToPublic(t'.rows[|t.rows|]) == u
      && u.name == input.name && u.email == input.email && u.role == input.role
      && u.status == StatusOrActive(input.status)
      && u.id > t.lastRowId
      && VerifyPassword(input.password, t'.rows[|t.rows|].passwordHash, kdf)
  {
    if EmailInUse(t.rows, input.email) then Err(EmailTaken)
    else
      var hash := HashPassword(input.password, saltBytes, kdf);
      HashThenVerify(input.password, saltBytes, kdf);
      var t' := Append(t, input.name, input.email, hash, input.role, StatusOrActive(input.status), now);
      assert t'.rows[..|t.rows|] == t.rows;
      Ok((t', ToPublic(t'.rows[|t.rows|])))
  }

  /** A successful insert keeps the table's constraints. */
  lemma CreateUserValid(t: Table, input: CreateUserInput, saltBytes: seq<byte>, kdf: Kdf, now: Timestamp)
    requires |saltBytes| == SaltLength
    requires Valid(t)
    requires CreateUser(t, input, saltBytes, kdf, now).Ok?
    ensures Valid(CreateUser(t, input, saltBytes, kdf, now).value.0)
  {
    var hash := HashPassword(input.password, saltBytes, kdf);
    AppendValid(t, input.name, input.email, hash, input.role, StatusOrActive(input.status), now);
  }

  datatype UserFilters = UserFilters(search: Option<string>, role: Option<Role>, status: Option<Status>)

  /** The WHERE clause `getUsers` assembles: an empty search is no filter. */
  predicate MatchesFilters(u: User, f: UserFilters) {
    && (f.search.None? || f.search.value == [] ||
        Like(ContainsPattern(f.search.value), u.name) || Like(ContainsPattern(f.search.value), u.email))
    && (f.role.None? || u.role == f.role.value)
    && (f.status.None? || u.status == f.status.value)
  }

  datatype UserPage = UserPage(users: seq<UserPublic>, total: nat)

  function CreatedAt(u: User): int {
    u.createdAt
  }

  function PublicCreatedAt(p: UserPublic): int {
    p.createdAt
  }

  /** The rows the WHERE clause of `getUsers` keeps, in table order. */
  function Matching(t: Table, f: UserFilters): (m: seq<User>)
    ensures forall u :: u in m <==> u in t.rows && MatchesFilters(u, f)
    ensures |m| == CountWhere(t.rows, (u: User) => MatchesFilters(u, f))
  {
    Filter(t.rows, (u: User) => MatchesFilters(u, f))
  }

  /** `getUsers(filters, limit, offset)`: the matching users, newest first,
      one page of them, and the number of matches overall. Rows with equal
      timestamps may come in any order, so the page is pinned down by its
      length, by holding only matching rows, each at most as often as it
      matches, and by its timestamps, which are the page at the same limit
      and offset of every match's timestamp sorted newest first. */
  function GetUsers(t: Table, f: UserFilters, limit: int, offset: int): (r: UserPage)
    ensures r.total == CountWhere(t.rows, (u: User) => MatchesFilters(u, f))
    ensures |r.users| == PageLength(r.total, limit, offset)
    ensures multiset(r.users) <= multiset(Map(Matching(t, f), ToPublic))
    ensures forall p :: p in r.users ==> exists u :: u in t.rows && MatchesFilters(u, f) && p == ToPublic(u)
    ensures Map(r.users, PublicCreatedAt) == Page(SortDesc(Map(Matching(t, f), CreatedAt), Itself), limit, offset)
    ensures forall i, j :: 0 <= i < j < |r.users| ==> r.users[i].createdAt >= r.users[j].createdAt
  {
    var matching := Matching(t, f);
    PageOfMatching(matching, limit, offset);
    PageFromRows(t, f, Map(Page(SortDesc(matching, CreatedAt), limit, offset), ToPublic));
    UserPage(Map(Page(SortDesc(matching, CreatedAt), limit, offset), ToPublic), |matching|)
  }

  /** The page `getUsers` returns, built from the matching rows. */
  lemma PageOfMatching(matching: seq<User>, limit: int, offset: int)
    ensures var ps := Map(Page(SortDesc(matching, CreatedAt), limit, offset), ToPublic);
      && multiset(ps) <= multiset(Map(matching, ToPublic))
      && Map(ps, PublicCreatedAt) == Page(SortDesc(Map(matching, CreatedAt), Itself), limit, offset)
      && (forall i, j :: 0 <= i < j < |ps| ==> ps[i].createdAt >= ps[j].createdAt)
  {
    var ordered := SortDesc(matching, CreatedAt);
    PageDrawsFromMatches(matching, ordered, limit, offset);
    PageTimes(matching, ordered, limit, offset);
    PageNewestFirst(ordered, limit, offset);
  }

  lemma PageDrawsFromMatches(matching: seq<User>, ordered: seq<User>, limit: int, offset: int)
    requires multiset(ordered) == multiset(matching)
    ensures multiset(Map(Page(ordered, limit, offset), ToPublic)) <= multiset(Map(matching, ToPublic))
  {
    PageMap(ordered, ToPublic, limit, offset);
    PageSubMultiset(Map(ordered, ToPublic), limit, offset);
    MapPermutation(ordered, matching, ToPublic);
  }

  lemma PageTimes(matching: seq<User>, ordered: seq<User>, limit: int, offset: int)
    requires ordered == SortDesc(matching, CreatedAt)
    ensures Map(Map(Page(ordered, limit, offset), ToPublic), PublicCreatedAt)
      == Page(SortDesc(Map(matching, CreatedAt), Itself), limit, offset)
  {
    var page := Page(ordered, limit, offset);
    assert Map(Map(page, ToPublic), PublicCreatedAt) == Map(page, CreatedAt);
    PageMap(ordered, CreatedAt, limit, offset);
    SortedScores(matching, CreatedAt);
  }

  lemma PageNewestFirst(ordered: seq<User>, limit: int, offset: int)
    requires SortedDesc(ordered, CreatedAt)
    ensures var ps := Map(Page(ordered, limit, offset), ToPublic);
      forall i, j :: 0 <= i < j < |ps| ==> ps[i].createdAt >= ps[j].createdAt
  {
    var page := Page(ordered, limit, offset);
    var ps := Map(page, ToPublic);
    PageSorted(ordered, limit, offset);
    forall i, j | 0 <= i < j < |ps| ensures ps[i].createdAt >= ps[j].createdAt {
      assert CreatedAt(page[i]) >= CreatedAt(page[j]);
    }
  }

  lemma PageFromRows(t: Table, f: UserFilters, ps: seq<UserPublic>)
    requires multiset(ps) <= multiset(Map(Matching(t, f), ToPublic))
    ensures forall p :: p in ps ==> exists u :: u in t.rows && MatchesFilters(u, f) && p == ToPublic(u)
  {
    var all := Map(Matching(t, f), ToPublic);
    forall p | p in ps ensures exists u :: u in t.rows && MatchesFilters(u, f) && p == ToPublic(u) {
      assert p in multiset(all);
      var i :| 0 <= i < |all| && all[i] == p;
      assert Matching(t, f)[i] in Matching(t, f);
    }
  }

  lemma PageSorted(s: seq<User>, limit: int, offset: int)
    requires SortedDesc(s, CreatedAt)
    ensures SortedDesc(Page(s, limit, offset), CreatedAt)
  {
    var r := Page(s, limit, offset);
    forall i, j | 0 <= i < j < |r| ensures CreatedAt(r[i]) >= CreatedAt(r[j]) {
      assert r[i] == s[Skip(offset) + i] && r[j] == s[Skip(offset) + j];
    }
  }

  /** In a valid table ids are unique, so no user appears twice on a page. */
  lemma GetUsersDistinct(t: Table, f: UserFilters, limit: int, offset: int)
    requires Valid(t)
    ensures var users := GetUsers(t, f, limit, offset).users;
      forall i, j :: 0 <= i < j < |users| ==> users[i].id != users[j].id
  {
    MatchingIdsIncrease(t, f);
    IdsStayDistinct(Map(Matching(t, f), ToPublic), GetUsers(t, f, limit, offset).users);
  }

  lemma MatchingIdsIncrease(t: Table, f: UserFilters)
    requires Valid(t)
    ensures var all := Map(Matching(t, f), ToPublic);
      forall i, j :: 0 <= i < j < |all| ==> all[i].id < all[j].id
  {
    FilterPairwise(t.rows, (u: User) => MatchesFilters(u, f), Ordered);
  }

  /** Rows drawn, without repetition, from rows with increasing ids have
      pairwise different ids. */
  lemma IdsStayDistinct(all: seq<UserPublic>, users: seq<UserPublic>)
    requires forall i, j :: 0 <= i < j < |all| ==> all[i].id < all[j].id
    requires multiset(users) <= multiset(all)
    ensures forall i, j :: 0 <= i < j < |users| ==> users[i].id != users[j].id
  {
    NoDupSubMultiset(all, users);
    forall i, j | 0 <= i < j < |users| ensures users[i].id != users[j].id {
      assert users[i] in multiset(all) && users[j] in multiset(all);
      var a :| 0 <= a < |all| && all[a] == users[i];
      var b :| 0 <= b < |all| && all[b] == users[j];
      assert a != b;
    }
  }

  datatype UpdateUserInput = UpdateUserInput(
    name: Option<string>,
    email: Option<string>,
    role: Option<Role>,
    status: Option<Status>)

  predicate NoChanges(input: UpdateUserInput) {
    input.name.None? && input.email.None? && input.role.None? && input.status.None?
  }

  function Apply(u: User, input: UpdateUserInput, now: Timestamp): User {
    u.(
      name := if input.name.Some? then input.name.value else u.name,
      email := if input.email.Some? then input.email.value else u.email,
      role := if input.role.Some? then input.role.value else u.role,
      status := if input.status.Some? then input.status.value else u.status,
      updatedAt := now)
  }

  /** `UPDATE users SET ... WHERE id = ?`. */
  function UpdateWhereId(rows: seq<User>, id: nat, f: User -> User): (r: seq<User>)
    ensures |r| == |rows|
    ensures forall i :: 0 <= i < |rows| ==> r[i] == if rows[i].id == id then f(rows[i]) else rows[i]
  {
    seq(|rows|, i requires 0 <= i < |rows| => if rows[i].id == id then f(rows[i]) else rows[i])
  }

  /** The new email would collide with another user's. */
  predicate EmailClash(rows: seq<User>, id: nat, email: string) {
    exists i :: 0 <= i < |rows| && rows[i].id != id && rows[i].email == email
  }

  /** `updateUser`: writes only the provided fields (and `updated_at`); with
      none provided, writes nothing and returns the current record. */
  function UpdateUser(t: Table, id: nat, input: UpdateUserInput, now: Timestamp): (r: Result<(Table, Option<UserPublic>)>)
    ensures NoChanges(input) ==> r == Ok((t, GetUserById(t, id)))
    ensures r.Err? <==>
      !NoChanges(input) && input.email.Some? && HasId(t.rows, id) && EmailClash(t.rows, id, input.email.value)
    ensures r.Ok? ==> (r.value.1.Some? <==> HasId(t.rows, id))
    ensures r.Ok? && !NoChanges(input) ==>
      var (t', res) := r.value;
      && |t'.rows| == |t.rows| && t'.lastRowId == t.lastRowId
      && res == GetUserById(t', id)
      && (forall i :: 0 <= i < |t.rows| && t.rows[i].id != id ==> t'.rows[i] == t.rows[i])
      && (forall i :: 0 <= i < |t.rows| && t.rows[i].id == id ==>
            var before, after := t.rows[i], t'.rows[i];
            && after.id == before.id
            && after.passwordHash == before.passwordHash
            && after.createdAt == before.createdAt
            && after.name == (if input.name.Some? then input.name.value else before.name)
            && after.email == (if input.email.Some? then input.email.value else before.email)
            && after.role == (if input.role.Some? then input.role.value else before.role)
            && after.status == (if input.status.Some? then input.status.value else before.status)
            && after.updatedAt == now)
  {
    if NoChanges(input) then Ok((t, GetUserById(t, id)))
    else if input.email.Some? && HasId(t.rows, id) && EmailClash(t.rows, id, input.email.value) then Err(EmailTaken)
    else
      var t' := Table(UpdateWhereId(t.rows, id, (u: User) => Apply(u, input, now)), t.lastRowId);
      UpdateKeepsIds(t.rows, id, (u: User) => Apply(u, input, now));
      Ok((t', GetUserById(t', id)))
  }

  /** `updateUser` exactly as written. Its SET list ends with
      `updated_at = datetime("now")`. SQLite reads a double-quoted word as an
      identifier. Only a build that accepts double-quoted string literals
      (`SQLITE_DQS`) falls back to reading it as the string 'now'. Without
      that, preparing the UPDATE fails with "no such column: now". Whether
      the build accepts them is `dqsStrings`. */
  function UpdateUserAsWritten(t: Table, id: nat, input: UpdateUserInput, now: Timestamp, dqsStrings: bool)
    : (r: Result<(Table, Option<UserPublic>)>)
    ensures NoChanges(input) ==> r == Ok((t, GetUserById(t, id)))
    ensures !NoChanges(input) && !dqsStrings ==> r == Err(NoSuchColumn)
    ensures dqsStrings ==> r == UpdateUser(t, id, input, now)
  {
    if NoChanges(input) || dqsStrings then UpdateUser(t, id, input, now) else Err(NoSuchColumn)
  }

  /** Without double-quoted string literals, no edit of an existing user gets
      through, although the intended update succeeds and changes the row. */
  lemma UpdateAsWrittenFails(t: Table, id: nat, input: UpdateUserInput, now: Timestamp)
    requires !NoChanges(input) && HasId(t.rows, id)
    requires input.email.Some? ==> !EmailClash(t.rows, id, input.email.value)
    ensures UpdateUserAsWritten(t, id, input, now, false).Err?
    ensures UpdateUser(t, id, input, now).Ok? && UpdateUser(t, id, input, now).value.1.Some?
  {
  }

  /** Updating rows whose update keeps the id keeps the set of ids. */
  lemma UpdateKeepsIds(rows: seq<User>, id: nat, f: User -> User)
    requires forall u :: f(u).id == u.id
    ensures HasId(UpdateWhereId(rows, id, f), id) <==> HasId(rows, id)
  {
    var r := UpdateWhereId(rows, id, f);
    if HasId(rows, id) {
      var i :| 0 <= i < |rows| && rows[i].id == id;
      assert r[i].id == id;
    }
    if HasId(r, id) {
      var i :| 0 <= i < |r| && r[i].id == id;
      assert rows[i].id == id;
    }
  }

  /** A successful update keeps the table's constraints. */
  lemma UpdateUserValid(t: Table, id: nat, input: UpdateUserInput, now: Timestamp)
    requires Valid(t)
    requires UpdateUser(t, id, input, now).Ok?
    ensures Valid(UpdateUser(t, id, input, now).value.0)
  {
    if !NoChanges(input) {
      var t' := UpdateUser(t, id, input, now).value.0;
      forall i, j | 0 <= i < j < |t'.rows| ensures Ordered(t'.rows[i], t'.rows[j]) {
        assert Ordered(t.rows[i], t.rows[j]);
        if t.rows[i].id == id && input.email.Some? {
          assert t.rows[j].id != id;
          assert !EmailClash(t.rows, id, input.email.value);
        }
        if t.rows[j].id == id && input.email.Some? {
          assert t.rows[i].id != id;
          assert !EmailClash(t.rows, id, input.email.value);
        }
      }
    }
  }

  /** `updateUserPassword`: stores a fresh hash of `newPassword`; reports
      whether a row changed. */
  function UpdateUserPassword(t: Table, id: nat, newPassword: string, saltBytes: seq<byte>, kdf: Kdf, now: Timestamp): (r: (Table, bool))
    requires |saltBytes| == SaltLength
    ensures r.1 <==> HasId(t.rows, id)
    ensures |r.0.rows| == |t.rows| && r.0.lastRowId == t.lastRowId
    ensures forall i :: 0 <= i < |t.rows| && t.rows[i].id != id ==> r.0.rows[i] == t.rows[i]
    ensures forall i :: 0 <= i < |t.rows| && t.rows[i].id == id ==>
      && r.0.rows[i] == t.rows[i].(passwordHash := r.0.rows[i].passwordHash, updatedAt := now)
      && VerifyPassword(newPassword, r.0.rows[i].passwordHash, kdf)
  {
    var hash := HashPassword(newPassword, saltBytes, kdf);
    HashThenVerify(newPassword, saltBytes, kdf);
    (Table(UpdateWhereId(t.rows, id, (u: User) => u.(passwordHash := hash, updatedAt := now)), t.lastRowId),
     HasId(t.rows, id))
  }

  /** `UPDATE users SET status = ?, updated_at = now WHERE id = ?`. */
  function SetStatus(t: Table, id: nat, status: Status, now: Timestamp): (r: (Table, bool))
    ensures r.1 <==> HasId(t.rows, id)
    ensures |r.0.rows| == |t.rows| && r.0.lastRowId == t.lastRowId
    ensures forall i :: 0 <= i < |t.rows| && t.rows[i].id != id ==> r.0.rows[i] == t.rows[i]
    ensures forall i :: 0 <= i < |t.rows| && t.rows[i].id == id ==>
      r.0.rows[i] == t.rows[i].(status := status, updatedAt := now)
  {
    (Table(UpdateWhereId(t.rows, id, (u: User) => u.(status := status, updatedAt := now)), t.lastRowId),
     HasId(t.rows, id))
  }

  /** `deactivateUser`. */
  function DeactivateUser(t: Table, id: nat, now: Timestamp): (r: (Table, bool))
    ensures r.1 <==> HasId(t.rows, id)
    ensures |r.0.rows| == |t.rows|
    ensures forall i :: 0 <= i < |t.rows| ==>
      r.0.rows[i] == if t.rows[i].id == id then t.rows[i].(status := Inactive, updatedAt := now) else t.rows[i]
  {
    SetStatus(t, id, Inactive, now)
  }

  /** `activateUser`. */
  function ActivateUser(t: Table, id: nat, now: Timestamp): (r: (Table, bool))
    ensures r.1 <==> HasId(t.rows, id)
    ensures |r.0.rows| == |t.rows|
    ensures forall i :: 0 <= i < |t.rows| ==>
      r.0.rows[i] == if t.rows[i].id == id then t.rows[i].(status := Active, updatedAt := now) else t.rows[i]
  {
    SetStatus(t, id, Active, now)
  }

  /** Changes to status, password or timestamps keep the constraints. */
  lemma SameKeysValid(t: Table, t': Table)
    requires Valid(t)
    requires |t'.rows| == |t.rows| && t'.lastRowId == t.lastRowId
    requires forall i :: 0 <= i < |t.rows| ==> t'.rows[i].id == t.rows[i].id && t'.rows[i].email == t.rows[i].email
    ensures Valid(t')
  {
    forall i, j | 0 <= i < j < |t'.rows| ensures Ordered(t'.rows[i], t'.rows[j]) {
      assert Ordered(t.rows[i], t.rows[j]);
    }
  }

  /** Deactivating then activating restores the status and nothing else
      except `updated_at`. */
  lemma DeactivateActivate(t: Table, id: nat, now1: Timestamp, now2: Timestamp)
    requires Valid(t)
    ensures var t' := ActivateUser(DeactivateUser(t, id, now1).0, id, now2).0;
      forall i :: 0 <= i < |t.rows| && t.rows[i].status == Active ==>
        t'.rows[i] == t.rows[i].(updatedAt := if t.rows[i].id == id then now2 else t.rows[i].updatedAt)
  {
  }

  /** `deleteUser`: removes the rows with that id; reports whether any went. */
  function DeleteUser(t: Table, id: nat): (r: (Table, bool))
    ensures r.1 <==> HasId(t.rows, id)
    ensures forall u :: u in r.0.rows <==> u in t.rows && u.id != id
    ensures r.0.lastRowId == t.lastRowId
    ensures |r.0.rows| == |t.rows| - CountWhere(t.rows, (u: User) => u.id == id)
  {
    var kept := Filter(t.rows, (u: User) => u.id != id);
    CountWhereSplit(t.rows, (u: User) => u.id == id, (u: User) => u.id != id);
    (Table(kept, t.lastRowId), HasId(t.rows, id))
  }

  /** Deleting keeps the constraints, and with unique ids removes exactly one
      row when the id exists. */
  lemma DeleteUserValid(t: Table, id: nat)
    requires Valid(t)
    ensures Valid(DeleteUser(t, id).0)
    ensures HasId(t.rows, id) ==> |DeleteUser(t, id).0.rows| == |t.rows| - 1
    ensures !HasId(t.rows, id) ==> DeleteUser(t, id).0 == t
  {
    FilterPairwise(t.rows, (u: User) => u.id != id, Ordered);
    var kept := Filter(t.rows, (u: User) => u.id != id);
    forall i | 0 <= i < |kept| ensures kept[i].id <= t.lastRowId {
      assert kept[i] in t.rows;
    }
    if HasId(t.rows, id) {
      IdCountOne(t.rows, id);
    } else {
      FilterAll(t.rows, (u: User) => u.id != id);
    }
  }

  lemma {:induction false} IdCountOne(rows: seq<User>, id: nat)
    requires Pairwise(rows, Ordered) && HasId(rows, id)
    ensures CountWhere(rows, (u: User) => u.id == id) == 1
  {
    if rows[0].id == id {
      forall i | 0 <= i < |rows[1..]| ensures rows[1..][i].id != id {
        assert Ordered(rows[0], rows[i + 1]);
      }
      IdCountZero(rows[1..], id);
    } else {
      var i :| 0 <= i < |rows| && rows[i].id == id;
      assert rows[1..][i - 1].id == id;
      IdCountOne(rows[1..], id);
    }
  }

  lemma {:induction false} IdCountZero(rows: seq<User>, id: nat)
    requires forall i :: 0 <= i < |rows| ==> rows[i].id != id
    ensures CountWhere(rows, (u: User) => u.id == id) == 0
  {
    if rows != [] {
      IdCountZero(rows[1..], id);
    }
  }

  /** `loginUser`: the active user with that email whose password verifies,
      without its password hash. */
  function LoginUser(t: Table, email: string, password: string, kdf: Kdf): (r: Option<UserPublic>)
    ensures r.Some? ==>
      exists u :: u in t.rows && u.email == email && u.status == Active &&
        VerifyPassword(password, u.passwordHash, kdf) && r.value == ToPublic(u)
    ensures !EmailInUse(t.rows, email) ==> r.None?
  {
    match FindByEmail(t.rows, email)
    case None => None
    case Some(u) =>
      if u.status != Active then None
      else if !VerifyPassword(password, u.passwordHash, kdf) then None
      else Some(ToPublic(u))
  }

  /** With unique emails, login fails for an inactive user or a wrong
      password. */
  lemma LoginRejects(t: Table, u: User, password: string, kdf: Kdf)
    requires Valid(t) && u in t.rows
    requires u.status != Active || !VerifyPassword(password, u.passwordHash, kdf)
    ensures LoginUser(t, u.email, password, kdf).None?
  {
    FindByEmailUnique(t, u);
  }

  /** With unique emails, an active user whose password verifies gets their
      public record back, and only then. */
  lemma LoginAccepts(t: Table, u: User, password: string, kdf: Kdf)
    requires Valid(t) && u in t.rows
    ensures LoginUser(t, u.email, password, kdf) ==
      if u.status == Active && VerifyPassword(password, u.passwordHash, kdf) then Some(ToPublic(u)) else None
  {
    FindByEmailUnique(t, u);
  }

  /** A user created active can log in with the password they were created
      with. */
  lemma CreateThenLogin(t: Table, input: CreateUserInput, saltBytes: seq<byte>, kdf: Kdf, now: Timestamp)
    requires |saltBytes| == SaltLength
    requires Valid(t)
    requires StatusOrActive(input.status) == Active
    requires CreateUser(t, input, saltBytes, kdf, now).Ok?
    ensures var (t', u) := CreateUser(t, input, saltBytes, kdf, now).value;
      LoginUser(t', input.email, input.password, kdf) == Some(u)
  {
    var (t', u) := CreateUser(t, input, saltBytes, kdf, now).value;
    var row := t'.rows[|t.rows|];
    assert row in t'.rows;
    FindByEmailUnique(t', row);
  }
}
