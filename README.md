# Budget manager API: user and expense record store

A Dafny model of the core of a small Flask service that keeps user accounts and
expense entries in SQLite. It covers two parts:

- **The request handlers of `server.py`** over the two tables of the database schema.
  `Server.Database` is one in-memory object. Each of `users` and `expenses` is a map
  from row id to row. Each table also has its AUTOINCREMENT counter (`userSeq`,
  `expenseSeq`): the largest id that table has ever handed out.
  - The schema is the class invariant `Valid()`. NOT NULL columns are plain `string`s
    in the row datatypes, and nullable ones (`title`, `user_id`) are `Option`s.
    `username` is unique. Every id lies between 1 and its table's counter.
  - Each handler is a method. Request fields arrive as `Option<string>`: `None` is what
    Python's `data.get` gives for a key missing from the JSON body or set to JSON `null`.
  - Each handler answers a `Response`: a status code and the body's fields in the order
    the handler's dict literal writes them (Flask's JSON provider sorts keys on the wire).
  - A write that would break the schema is the driver's integrity error. That is
    `Fault(NotNull(column))` or `Fault(Unique(column))`, and nothing changes.
  - An integer that does not fit SQLite's 64-bit INTEGER (a route id such as
    `9223372036854775808`, or a `user_id` in the body) makes sqlite3 raise while binding
    it. That is `Fault(Overflow(value))`, and nothing changes.
  - The source catches none of these; Flask turns them into an internal server error.
- **The envelope builders of `responses.py`.** `SuccessResponse` and
  `NotFoundResponse` are functions. Their contracts say what a client reading the JSON
  finds under each key (`Lookup`).

Response literals are kept exactly as the code writes them:
- the login success key `"user_is"`;
- no `success` flag in the login or `get_user` success bodies;
- the message `"User Deleted successfully"`.

Where the program's own comments and its code part ways, the model follows the code:
- the registration docstring (server.py:103) notes that duplicate usernames are not
  validated; the UNIQUE column then makes the driver raise, so the model gives
  `Fault(Unique("users.username"))`;
- the login docstring (server.py:144) shows a `"user_id"` key; the code at
  server.py:171 writes `"user_is"`, and so does the model;
- `VALID_EXPENSE_CATEGORIES` (constants.py:58) is never consulted, so no category is
  checked on expense creation;
- a user update with a missing field passes NULL to `UPDATE`, which the NOT NULL
  constraint rejects, so the model gives `Fault(NotNull(…))`.

## Model

| member | source | states |
|---|---|---|
| `Responses.SuccessResponse` | responses.py:4-11 | status 200; keys exactly success, message, data; `success` is true; `message` is the given message unchanged; `data` is the given payload unchanged |
| `Responses.SuccessDataDefaultsToNull` | responses.py:4-10 | when `data` is omitted the envelope still carries a `data` key, holding JSON null |
| `Responses.NotFoundResponse` | responses.py:14-20 | status 404; keys exactly success and message, so no `data`; `success` is false; message is the entity name followed by " not found" |
| `Responses.NotFoundNamesEntity` | responses.py:19 | two not-found envelopes are equal exactly when their entity names are equal |
| `Responses.EnvelopesDiffer` | responses.py:4-20 | no success envelope equals a not-found envelope, and their `success` flags always differ |
| `Server.UserNotFoundIsEnvelope` | server.py:225-228 | the 404 body the user handlers write out is exactly `not_found_response("User")`, e.g. message "User not found" |
| `Server.Database.constructor` | server.py:37-57 | a freshly created database satisfies the schema invariant, with both tables empty and no id handed out |
| `Server.Database.RegisterUser` | server.py:88-121 | missing username or password: NOT NULL fault, no change. Username already held: UNIQUE fault, no change. Otherwise 201 "User registered successfully"; exactly one row is added, under a fresh id above every id ever issued, holding the supplied username and password; all other rows unchanged; the invariant is kept |
| `Server.Database.LoginUser` | server.py:127-180 | 200 exactly when some row holds the supplied username and, by exact equality, the supplied password; the body is then `{user_is: id, username}` of that row with no success flag. Otherwise, for an unknown username, a wrong password or a missing field alike, the same 401 `{success: false, message: "Invalid Credentials"}` |
| `Server.Database.GetUser` | server.py:184-228 | id beyond 64 bits: overflow fault. Present id: 200 with that row's id and username, no password and no success flag. Missing id: the "User not found" 404 envelope |
| `Server.Database.UpdateUser` | server.py:232-289 | id beyond 64 bits: overflow fault, no change. Missing id: 404 "User not found" and both tables unchanged. Otherwise a missing field is a NOT NULL fault, and a username held by another row is a UNIQUE fault, both with no change. Otherwise both columns of that row only are replaced and it answers 200 "User updated successfully"; the invariant is kept |
| `Server.Database.DeleteUser` | server.py:294-342 | id beyond 64 bits: overflow fault, no change. Missing id: 404 "User not found" with no change. Present id: exactly that row is removed, the expenses are untouched, and it answers 200 "User Deleted successfully". Afterwards an in-range id is absent either way |
| `Server.Database.GetUsers` | server.py:348-402 | the success envelope "Users retrieved successfully" whose data is the list of every row's id, username and password (see the Listing lemmas) |
| `Server.ListingSound` | server.py:383-395 | every listed entry is the id, username and password of a stored row |
| `Server.ListingComplete` | server.py:383-395 | every stored row is listed |
| `Server.ListingCount` | server.py:383-395 | each row is listed once: the list is as long as the number of rows scanned |
| `Server.ListingCoversTable` | server.py:383-395 | under the schema invariant the list has exactly one entry per row of the table |
| `Server.ListingOfEmpty` | server.py:383-395 | an empty table lists as an empty list, never an error |
| `Server.Database.CreateExpense` | server.py:406-430 | a `user_id` beyond 64 bits is an overflow fault with no change. Otherwise a missing description, amount or category is a NOT NULL fault with no change. Otherwise 201 "Expense created successfully"; exactly one row is added under a fresh id, its date is the supplied day whatever the body holds, and the category is stored without any check; users untouched |
| `Server.DeleteTwice` | server.py:325-342 | deleting the same id twice answers 200 then the 404 envelope, and removes only that row |
| `Server.RegisterDeleteRegister` | server.py:39 | AUTOINCREMENT never reuses an id: register, delete that user, register again (even under the freed username) gives a different id, and the first id stays absent |
| `Server.RegisterThenLogin` | server.py:106-174 | after registering a fresh username, logging in with the same credentials answers 200 with the id registration assigned |
| `Server.RegisterThenGetUser` | server.py:106-222 | after registering a fresh username, fetching the new id returns that username and not the password |

## Left out

- Flask transport: routing, `request.get_json`, `jsonify`, `app.run` and debug mode. So are a missing or non-JSON request body and JSON values of a type other than the column's (e.g. a numeric `amount`, which SQLite's TEXT affinity would convert).
- The health check (server.py:69-82): a constant body with nothing to state.
- Flask's rendering of an unhandled driver exception as a 500 page: the model stops at `Fault(violation)`.
- The sqlite3 plumbing (`connect`, `cursor`, `commit`, `close`, `row_factory`) and connection or disk failures. Each handler is one atomic step on the in-memory tables.
- `init_db` as an action. Only its schema is modelled, as `Valid()` and the row types. The constructor stands for a freshly created database file.
- The foreign key `expenses.user_id → users.id`: SQLite does not enforce it by default, so it is neither checked nor cascaded on delete.
- `date.today()` is a clock read. `CreateExpense` takes the day as the `today` parameter: the ISO text that sqlite3's date adapter stores.
- The SQL statement strings and the category list in constants.py: no modelled code uses them.
- Concurrency between requests.
- Server.Database.GetUsers: lists rows in ascending id order. A plain `SELECT *` without `ORDER BY` promises no order, though a rowid table scans that way.
- Server.Database.RegisterUser: does not model AUTOINCREMENT running out at the largest 64-bit rowid (SQLITE_FULL); ids are unbounded.
- Server.Database.CreateExpense: does not model AUTOINCREMENT running out either, for the same reason.
