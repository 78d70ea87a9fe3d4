/** The request handlers of server.py over an in-memory model of its SQLite database:
    a `users` table and an `expenses` table, each a map from row id to row, and the
    AUTOINCREMENT counter of each (SQLite's `sqlite_sequence` entry: the largest id
    ever handed out for that table). */
module Server {
  import opened Wrappers
  import opened Responses

  /** A row of `users`. Both columns are NOT NULL, so both are plain strings. */
  datatype UserRow = UserRow(username: string, password: string)

  /** A row of `expenses`. `title` and `user_id` may be NULL; the other columns may not. */
  datatype ExpenseRow = ExpenseRow(
    title: Option<string>,
    description: string,
    amount: string,
    date: string,
    category: string,
    userId: Option<int>)

  /** What the SQLite driver raises: an integrity error when a write would break the
      schema, or an overflow when a bound integer does not fit SQLite's 64-bit INTEGER. */
  datatype DbError = NotNull(column: string) | Unique(column: string) | Overflow(value: int)

  /** A handler either answers, or the driver raises and Flask turns the unhandled
      exception into an internal server error; a raised statement writes nothing. */
  datatype Outcome = Reply(response: Response) | Fault(error: DbError)

  /** The range of a signed 64-bit integer, the only integers sqlite3 can bind. */
  const MinInt64: int := -0x8000_0000_0000_0000
  const MaxInt64: int := 0x7FFF_FFFF_FFFF_FFFF

  predicate FitsInt64(x: int)
  {
    MinInt64 <= x <= MaxInt64
  }

  // The literal bodies the handlers answer with.

  const UserRegistered := Response(201, [Field("success", Bool(true)), Field("message", Str("User registered successfully"))])
  const InvalidCredentials := Response(401, [Field("success", Bool(false)), Field("message", Str("Invalid Credentials"))])
  const UserNotFound := Response(404, [Field("success", Bool(false)), Field("message", Str("User not found"))])
  const UserUpdated := Response(200, [Field("success", Bool(true)), Field("message", Str("User updated successfully"))])
  const UserDeleted := Response(200, [Field("success", Bool(true)), Field("message", Str("User Deleted successfully"))])
  const ExpenseCreated := Response(201, [Field("success", Bool(true)), Field("message", Str("Expense created successfully"))])

  /** The literal 404 body the user handlers write out is exactly `not_found_response("User")`. */
  lemma UserNotFoundIsEnvelope()
    ensures UserNotFound == NotFoundResponse("User")
  {
    assert "User" + " not found" == "User not found";
  }

  /** The UNIQUE constraint on `users.username`. */
  ghost predicate UniqueUsernames(users: map<nat, UserRow>)
  {
    forall a, b :: a in users && b in users && users[a].username == users[b].username ==> a == b
  }

  /** Every id in the table was handed out by AUTOINCREMENT, whose counter stands at `counter`. */
  ghost predicate IdsIssued<R>(table: map<nat, R>, counter: nat)
  {
    forall id :: id in table ==> 1 <= id <= counter
  }

  /** Some row already holds `username`. */
  predicate UsernameTaken(users: map<nat, UserRow>, username: string)
  {
    exists id :: id in users && users[id].username == username
  }

  /** A row other than `id` already holds `username`. */
  predicate UsernameTakenByOther(users: map<nat, UserRow>, username: string, id: nat)
  {
    exists other :: other in users && other != id && users[other].username == username
  }

  /** Some row holds exactly the supplied username and password. */
  ghost predicate CredentialsMatch(users: map<nat, UserRow>, username: Option<string>, password: Option<string>)
  {
    && username.Some?
    && password.Some?
    && exists id :: id in users && users[id] == UserRow(username.value, password.value)
  }

  /** The object `get_users` puts in its list for one row (password included). */
  function UserEntry(id: nat, row: UserRow): Value
  {
    Object([Field("id", Int(id)), Field("username", Str(row.username)), Field("password", Str(row.password))])
  }

  /** The ids among 1..n that are present in the table. */
  ghost function IdsUpTo<R>(table: map<nat, R>, n: nat): set<nat>
  {
    set id | id in table && 1 <= id <= n
  }

  /** The list `get_users` returns: one entry per row with id at most `n`, scanning the
      table in ascending id order as a plain SQLite table scan does. */
  function Listing(users: map<nat, UserRow>, n: nat): seq<Value>
  {
    if n == 0 then []
    else Listing(users, n - 1) + (if n in users then [UserEntry(n, users[n])] else [])
  }

  /** Only stored rows are listed. */
  lemma {:induction false} ListingSound(users: map<nat, UserRow>, n: nat, v: Value)
    requires v in Listing(users, n)
    ensures exists id :: 1 <= id <= n && id in users && v == UserEntry(id, users[id])
  {
    if n > 0 {
      if v in Listing(users, n - 1) {
        ListingSound(users, n - 1, v);
      } else {
        assert n in users && v == UserEntry(n, users[n]);
      }
    }
  }

  /** Every stored row with id at most `n` is listed. */
  lemma {:induction false} ListingComplete(users: map<nat, UserRow>, n: nat, id: nat)
    requires id in users && 1 <= id <= n
    ensures UserEntry(id, users[id]) in Listing(users, n)
  {
    if id < n {
      ListingComplete(users, n - 1, id);
    }
  }

  /** Each row is listed once: the list is exactly as long as the number of rows scanned. */
  lemma {:induction false} ListingCount(users: map<nat, UserRow>, n: nat)
    ensures |Listing(users, n)| == |IdsUpTo(users, n)|
  {
    if n == 0 {
      assert IdsUpTo(users, 0) == {};
    } else {
      ListingCount(users, n - 1);
      if n in users {
        assert IdsUpTo(users, n) == IdsUpTo(users, n - 1) + {n};
      } else {
        assert IdsUpTo(users, n) == IdsUpTo(users, n - 1);
      }
    }
  }

  /** When the scan covers every issued id, the list has one entry per row. */
  lemma ListingCoversTable(users: map<nat, UserRow>, n: nat)
    requires IdsIssued(users, n)
    ensures |Listing(users, n)| == |users|
  {
    ListingCount(users, n);
    assert IdsUpTo(users, n) == users.Keys;
  }

  /** An empty table lists as the empty list, whatever the counter. */
  lemma {:induction false} ListingOfEmpty(n: nat)
    ensures Listing(map[], n) == []
  {
    if n > 0 {
      ListingOfEmpty(n - 1);
    }
  }

  /** A nullable `user_id` that sqlite3 can bind: NULL, or an integer within 64 bits. */
  predicate BindsUserId(userId: Option<int>)
  {
    userId.None? || FitsInt64(userId.value)
  }

  /** The budget manager's database: the two tables of `init_db`'s schema. */
  class Database {
    var users: map<nat, UserRow>
    var userSeq: nat
    var expenses: map<nat, ExpenseRow>
    var expenseSeq: nat

    /** The schema's invariant. NOT NULL is carried by the row types; what remains is the
        UNIQUE username and the AUTOINCREMENT ids. */
    ghost predicate Valid()
      reads this
    {
      && UniqueUsernames(users)
      && IdsIssued(users, userSeq)
      && IdsIssued(expenses, expenseSeq)
    }

    /** A freshly created database file: both tables empty, no id handed out yet. */
    constructor ()
      ensures Valid()
      ensures users == map[] && userSeq == 0
      ensures expenses == map[] && expenseSeq == 0
    {
      users, userSeq := map[], 0;
      expenses, expenseSeq := map[], 0;
    }

    /** `POST /api/register`: `INSERT INTO users (username, password)`. */
    method RegisterUser(username: Option<string>, password: Option<string>) returns (r: Outcome)
      requires Valid()
      modifies this
      ensures Valid()
      ensures expenses == old(expenses) && expenseSeq == old(expenseSeq)
      ensures username.None? ==> r == Fault(NotNull("users.username")) && unchanged(this)
      ensures username.Some? && password.None? ==> r == Fault(NotNull("users.password")) && unchanged(this)
      ensures username.Some? && password.Some? && UsernameTaken(old(users), username.value) ==>
                r == Fault(Unique("users.username")) && unchanged(this)
      ensures username.Some? && password.Some? && !UsernameTaken(old(users), username.value) ==>
                && r == Reply(UserRegistered)
                && userSeq == old(userSeq) + 1
                && userSeq !in old(users)
                && users == old(users)[userSeq := UserRow(username.value, password.value)]
    {
      if username.None? {
        return Fault(NotNull("users.username"));
      }
      if password.None? {
        return Fault(NotNull("users.password"));
      }
      if UsernameTaken(users, username.value) {
        return Fault(Unique("users.username"));
      }
      var id := userSeq + 1;
      users := users[id := UserRow(username.value, password.value)];
      userSeq := id;
      r := Reply(UserRegistered);
    }

    /** `POST /api/login`: look the row up by username, then compare the stored password
        with the supplied one by exact equality. */
    method LoginUser(username: Option<string>, password: Option<string>) returns (r: Response)
      requires Valid()
      ensures r.status == 200 <==> CredentialsMatch(users, username, password)
      ensures r.status != 200 ==> r == InvalidCredentials
      ensures r.status == 200 ==>
                exists id :: id in users && users[id] == UserRow(username.value, password.value)
                  && r.body == [Field("user_is", Int(id)), Field("username", Str(username.value))]
    {
      // `WHERE username = NULL` selects no row
      if username.None? || !UsernameTaken(users, username.value) {
        return InvalidCredentials;
      }
      var id :| id in users && users[id].username == username.value;
      if password == Some(users[id].password) {
        r := Response(200, [Field("user_is", Int(id)), Field("username", Str(users[id].username))]);
      } else {
        r := InvalidCredentials;
      }
    }

    /** `GET /api/users/<id>`: the row's id and username, never its password. The route
        accepts any digit string; binding one beyond 64 bits raises before any lookup. */
    method GetUser(id: nat) returns (r: Outcome)
      requires Valid()
      ensures !FitsInt64(id) ==> r == Fault(Overflow(id))
      ensures FitsInt64(id) && id in users ==>
                r == Reply(Response(200, [Field("id", Int(id)), Field("username", Str(users[id].username))]))
      ensures FitsInt64(id) && id in users ==>
                Lookup(r.response.body, "password") == None && Lookup(r.response.body, "success") == None
      ensures FitsInt64(id) && id !in users ==> r == Reply(NotFoundResponse("User"))
    {
      if !FitsInt64(id) {
        return Fault(Overflow(id));
      }
      if id in users {
        r := Reply(Response(200, [Field("id", Int(id)), Field("username", Str(users[id].username))]));
      } else {
        UserNotFoundIsEnvelope();
        r := Reply(UserNotFound);
      }
    }

    /** `PUT /api/users/<id>`: after an existence check, replace both columns of that row. */
    method UpdateUser(id: nat, username: Option<string>, password: Option<string>) returns (r: Outcome)
      requires Valid()
      modifies this
      ensures Valid()
      ensures expenses == old(expenses) && expenseSeq == old(expenseSeq) && userSeq == old(userSeq)
      ensures !FitsInt64(id) ==> r == Fault(Overflow(id)) && unchanged(this)
      ensures FitsInt64(id) && id !in old(users) ==> r == Reply(NotFoundResponse("User")) && unchanged(this)
      ensures FitsInt64(id) && id in old(users) && username.None? ==> r == Fault(NotNull("users.username")) && unchanged(this)
      ensures FitsInt64(id) && id in old(users) && username.Some? && password.None? ==>
                r == Fault(NotNull("users.password")) && unchanged(this)
      ensures FitsInt64(id) && id in old(users) && username.Some? && password.Some? && UsernameTakenByOther(old(users), username.value, id) ==>
                r == Fault(Unique("users.username")) && unchanged(this)
      ensures FitsInt64(id) && id in old(users) && username.Some? && password.Some? && !UsernameTakenByOther(old(users), username.value, id) ==>
                r == Reply(UserUpdated) && users == old(users)[id := UserRow(username.value, password.value)]
    {
      if !FitsInt64(id) {
        return Fault(Overflow(id));
      }
      if id !in users {
        UserNotFoundIsEnvelope();
        return Reply(UserNotFound);
      }
      if username.None? {
        return Fault(NotNull("users.username"));
      }
      if password.None? {
        return Fault(NotNull("users.password"));
      }
      if UsernameTakenByOther(users, username.value, id) {
        return Fault(Unique("users.username"));
      }
      users := users[id := UserRow(username.value, password.value)];
      r := Reply(UserUpdated);
    }

    /** `DELETE /api/users/<id>`: after an existence check, remove that row; the user's
        expenses are left in place. */
    method DeleteUser(id: nat) returns (r: Outcome)
      requires Valid()
      modifies this
      ensures Valid()
      ensures expenses == old(expenses) && expenseSeq == old(expenseSeq) && userSeq == old(userSeq)
      ensures !FitsInt64(id) ==> r == Fault(Overflow(id)) && users == old(users)
      ensures FitsInt64(id) && id !in old(users) ==> r == Reply(NotFoundResponse("User")) && users == old(users)
      ensures FitsInt64(id) && id in old(users) ==> r == Reply(UserDeleted) && users == old(users) - {id}
      ensures FitsInt64(id) ==> id !in users
    {
      if !FitsInt64(id) {
        return Fault(Overflow(id));
      }
      if id !in users {
        UserNotFoundIsEnvelope();
        return Reply(UserNotFound);
      }
      users := users - {id};
      r := Reply(UserDeleted);
    }

    /** `GET /api/users`: every row, password included, in a success envelope. */
    method GetUsers() returns (r: Response)
      requires Valid()
      ensures r == SuccessResponse("Users retrieved successfully", List(Listing(users, userSeq)))
    {
      var data: seq<Value> := [];
      var k: nat := 0;
      while k < userSeq
        invariant k <= userSeq
        invariant data == Listing(users, k)
      {
        k := k + 1;
        if k in users {
          data := data + [UserEntry(k, users[k])];
        }
      }
      r := Response(200, [Field("success", Bool(true)), Field("message", Str("Users retrieved successfully")), Field("data", List(data))]);
    }

    /** `POST /api/expenses`: insert a row dated `today` (the server's clock, passed in);
        whatever date the body holds is ignored and the category is not checked. A `user_id`
        beyond 64 bits makes binding the parameters raise before the row is checked. */
    method CreateExpense(title: Option<string>, description: Option<string>, amount: Option<string>,
                         category: Option<string>, userId: Option<int>, today: string) returns (r: Outcome)
      requires Valid()
      modifies this
      ensures Valid()
      ensures users == old(users) && userSeq == old(userSeq)
      ensures userId.Some? && !FitsInt64(userId.value) ==> r == Fault(Overflow(userId.value)) && unchanged(this)
      ensures BindsUserId(userId) && description.None? ==>
                r == Fault(NotNull("expenses.description")) && unchanged(this)
      ensures BindsUserId(userId) && description.Some? && amount.None? ==>
                r == Fault(NotNull("expenses.amount")) && unchanged(this)
      ensures BindsUserId(userId) && description.Some? && amount.Some? && category.None? ==>
                r == Fault(NotNull("expenses.category")) && unchanged(this)
      ensures BindsUserId(userId) && description.Some? && amount.Some? && category.Some? ==>
                && r == Reply(ExpenseCreated)
                && expenseSeq == old(expenseSeq) + 1
                && expenseSeq !in old(expenses)
                && expenses == old(expenses)[expenseSeq := ExpenseRow(title, description.value, amount.value,
                                                                      today, category.value, userId)]
    {
      if userId.Some? && !FitsInt64(userId.value) {
        return Fault(Overflow(userId.value));
      }
      if description.None? {
        return Fault(NotNull("expenses.description"));
      }
      if amount.None? {
        return Fault(NotNull("expenses.amount"));
      }
      if category.None? {
        return Fault(NotNull("expenses.category"));
      }
      var id := expenseSeq + 1;
      expenses := expenses[id := ExpenseRow(title, description.value, amount.value, today, category.value, userId)];
      expenseSeq := id;
      r := Reply(ExpenseCreated);
    }
  }

  /** Deleting the same user twice answers 200, then 404, and removes just that row. */
  method DeleteTwice(db: Database, id: nat) returns (first: Outcome, second: Outcome)
    requires db.Valid() && id in db.users && FitsInt64(id)
    modifies db
    ensures first == Reply(UserDeleted) && second == Reply(NotFoundResponse("User"))
    ensures db.users == old(db.users) - {id} && db.expenses == old(db.expenses)
  {
    first := db.DeleteUser(id);
    second := db.DeleteUser(id);
  }

  /** A user registered under a fresh username can log in with the same credentials,
      and login reports the id registration assigned. */
  method RegisterThenLogin(db: Database, username: string, password: string) returns (reg: Outcome, login: Response)
    requires db.Valid() && !UsernameTaken(db.users, username)
    modifies db
    ensures reg == Reply(UserRegistered)
    ensures db.userSeq !in old(db.users)
    ensures login == Response(200, [Field("user_is", Int(db.userSeq)), Field("username", Str(username))])
  {
    reg := db.RegisterUser(Some(username), Some(password));
    assert db.users[db.userSeq] == UserRow(username, password);
    login := db.LoginUser(Some(username), Some(password));
  }

  /** A user registered under a fresh username reads back by its new id with that
      username and without its password. */
  method RegisterThenGetUser(db: Database, username: string, password: string) returns (reg: Outcome, got: Outcome)
    requires db.Valid() && !UsernameTaken(db.users, username) && db.userSeq < MaxInt64
    modifies db
    ensures reg == Reply(UserRegistered)
    ensures got == Reply(Response(200, [Field("id", Int(db.userSeq)), Field("username", Str(username))]))
  {
    reg := db.RegisterUser(Some(username), Some(password));
    got := db.GetUser(db.userSeq);
  }

  /** AUTOINCREMENT never reuses an id: registering, deleting that user and registering
      again hands out a new id, even when the second user takes the freed username. */
  method RegisterDeleteRegister(db: Database, first: string, second: string, password: string)
    returns (firstId: nat, secondId: nat)
    requires db.Valid() && !UsernameTaken(db.users, first) && !UsernameTaken(db.users, second)
    requires db.userSeq < MaxInt64
    modifies db
    ensures firstId !in old(db.users) && secondId !in old(db.users)
    ensures firstId != secondId && firstId !in db.users
    ensures secondId in db.users && db.users[secondId] == UserRow(second, password)
  {
    var reg := db.RegisterUser(Some(first), Some(password));
    firstId := db.userSeq;
    var del := db.DeleteUser(firstId);
    assert !UsernameTaken(db.users, second);
    reg := db.RegisterUser(Some(second), Some(password));
    secondId := db.userSeq;
  }
}
