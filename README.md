# Account and blog service: a Dafny model of its route handlers

The service has four HTTP routes over a MySQL database with a `users`
table and a `blogs` table:

- `POST /login` reads `username`, `email` and `password`. It looks up the
  account by username (or by email when no username is given) and compares
  the password with the first row found.
- `POST /signup` checks that username, email and password are all given,
  refuses a taken username and then a taken email, and otherwise inserts the
  account and returns its `insertId`.
- `POST /blogs` checks `user_id`, `title` and `content`, refuses an unknown
  `user_id`, and otherwise inserts the blog and returns its `insertId`.
- `GET /blogs/:userId` returns every blog of that owner, or 404 when there
  are none. It does not check that the owner exists.

Each handler is a short sequence of checks, and the first failing check
decides the reply. The model keeps that order. Request fields follow
JavaScript truthiness (`Handlers.Present` and `Handlers.PresentId`). A string
field is an `Option<string>`, where `None` stands for a field that is missing
or JSON `null`; both `None` and `Some("")` count as missing. `user_id` is an
`Option<int>`, and both `None` and `Some(0)` count as missing.

Files:

- `records.dfy` (module `Records`): the rows of the two tables and the
  `SELECT ... WHERE column = ?` queries, which return matching rows in table
  order. It also defines `Consistent`, the state the store keeps between
  requests:
  - usernames are unique, and so are emails;
  - AUTO_INCREMENT ids are positive, increase in table order and stay below
    the next id to be issued;
  - every blog's owner exists.
- `handlers.dfy` (module `Handlers`): login and listing are functions of the
  table rows, so they cannot change the store. Signup and blog creation are
  decided by `SignupResult` and `CreateBlogResult`. A reply function per
  route maps each outcome to the source's HTTP status and message.
- `properties.dfy` (module `Properties`): lemmas that span more than one
  request or depend on `Consistent`.
- `store.dfy` (module `Database`): class `Store` holds the `users` and
  `blogs` sequences and the next-id counters. `Signup` and `CreateBlog` are
  methods that change them, with `modifies` clauses on exactly the fields
  they touch. The file ends with example sessions whose assertions follow
  from the contracts.

## Model

| member | source | states |
|---|---|---|
| `Records.SelectUsers` | server.js:54-64 | the rows a users query returns are exactly the rows whose column equals the value |
| `Records.SelectUsersHead` | server.js:74 | the first row a query returns (`result[0]`) is the earliest matching row of the table |
| `Records.SelectBlogs` | server.js:184-186 | the rows the blogs query returns are exactly the blogs with that `user_id` |
| `Records.SelectBlogsAppend` | server.js:162-164 | inserting a blog appends it to its owner's query result and leaves every other owner's result as it was |
| `Records.SelectUsersAppend` | server.js:122-124 | inserting an account appends it to the result of every users query it matches and leaves every other query's result as it was |
| `Handlers.Authenticate` | server.js:64-82 | 404 exactly when no row matches; otherwise 401 exactly when the first matching row's password differs; otherwise success with that row's `user_id` and `username`; never a validation error |
| `Handlers.Login` | server.js:39-58 | 400 "username or email required" exactly when both are missing; 400 "password required" exactly when an identifier is present but the password is missing; otherwise it looks up by username when one is given, ignoring email, and by email only when the username is missing |
| `Handlers.LoginReply` | server.js:46-81 | status 200 exactly for a successful login, 400 exactly for the two validation failures, 404 exactly for a missing user, 401 exactly for a wrong password |
| `Handlers.LoginFailuresDistinguishable` | server.js:46-76 | two different login failures never give the same reply, so the two 400 failures, which share a status, differ in their message |
| `Handlers.SignupResult` | server.js:86-131 | 400 for missing fields exactly when a field is missing; "Username already exists" exactly when the username is taken, whatever the email; "Email already exists" exactly when only the email is taken; otherwise creation with the next id |
| `Handlers.SignupReply` | server.js:93-131 | status 201 exactly on creation, 400 exactly for a refusal |
| `Handlers.SignupRefusalsDistinguishable` | server.js:93-119 | the three refusals share status 400 and each carries its own message, so a client can tell a missing field, a taken username and a taken email apart |
| `Handlers.CreateBlogResult` | server.js:138-171 | 400 exactly when a field is missing (before any lookup); 404 exactly when the fields are present and no account has that `user_id`; otherwise creation with the next blog id |
| `Handlers.CreateBlogReply` | server.js:145-171 | status 201 exactly on creation, 400 exactly for missing fields, 404 exactly for an unknown `user_id` |
| `Handlers.ListBlogs` | server.js:177-196 | 404 exactly when no blog has that `user_id`; otherwise a non-empty listing holding exactly the blogs with that `user_id` |
| `Handlers.ListBlogsReply` | server.js:186-196 | status 200 exactly when blogs were found, 404 exactly when none were |
| `Properties.SoleMatchIsFirst` | server.js:74 | when only one row matches, that row is the first match, and no other row is |
| `Properties.LoginByUsernameFindsAccount` | server.js:54-81 | with unique usernames, an account's username and password log in as exactly that account (its id and username), whatever email is sent with them |
| `Properties.LoginByUsernameRejectsWrongPassword` | server.js:69-77 | with unique usernames, an existing username with any other non-empty password gets 401 |
| `Properties.LoginByEmailFindsAccount` | server.js:54-81 | with unique emails and no username, an account's email and password log in as exactly that account |
| `Properties.LoginByEmailRejectsWrongPassword` | server.js:69-77 | with unique emails and no username, an existing email with any other non-empty password gets 401 |
| `Properties.SignupPreservesConsistency` | server.js:97-131 | the row a successful signup appends keeps usernames and emails unique, ids fresh and increasing, and every blog owned |
| `Properties.NewUserFoundByLookups` | server.js:122-124 | a row inserted with a username, an email and an id that no earlier row has is the one and only row that the later lookups by that username, that email and that id return |
| `Properties.SignupAfterSignup` | server.js:100-119 | after a successful signup, the same username is refused whatever the email, and a new username with the same email is refused for the email |
| `Properties.LoginAfterSignup` | server.js:39-131 | the account a signup creates can log in at once with its username and password, and login reports the id the signup returned |
| `Properties.CreateBlogPreservesConsistency` | server.js:149-171 | the row a successful blog creation appends keeps blog ids fresh and increasing and has an existing owner |
| `Properties.ListAfterCreateBlog` | server.js:162-196 | after a blog is created, its owner's listing ends with it, and every other owner's listing is unchanged |
| `Properties.ListBlogsOfUnknownOwner` | server.js:184-193 | in a consistent store, an id that names no account gets 404 from the listing |
| `Database.Store.Signup` | server.js:86-135 | the outcome is `SignupResult` on the old table, and the insert happens only on creation; on creation, exactly one row (`NewUser`: the assigned id and the given username, email and password) with a fresh id is appended and the counter advances; on any refusal, the users table and counter are unchanged; the blogs table is never touched; consistency is kept |
| `Database.Store.CreateBlog` | server.js:138-174 | the outcome is `CreateBlogResult`, and the insert happens only on creation; on creation, exactly one blog (`NewBlog`: the assigned id, the given `user_id`, title and content) with a fresh id is appended and the counter advances; on a refusal, the blogs table and counter are unchanged; the users table is never touched; consistency is kept |

## Left out

- Express setup, the JSON and CORS middleware, `app.listen` and the root "Hello, World!" route (server.js:10-15, 34-36, 201-203): HTTP plumbing.
- The MySQL pool, the startup connection test and the `process.env` settings (server.js:18-32): library calls and environment input. The tables are modelled as ordinary sequences, and the store starts empty with both AUTO_INCREMENT counters at 1.
- The `console.log` and `console.error` calls: logging output that does not affect any reply.
- The 500 "Internal server error" branches of every database callback: the model's store never fails. When a query fails, the source replies 500 and writes nothing.
- Concurrent requests: the model handles one request at a time, so races between a check and the following insert are not modelled. The table schema (UNIQUE or foreign-key constraints) is not part of this model either.
- String comparisons in `WHERE` clauses are modelled as exact equality. MySQL's default collations compare case-insensitively and can ignore trailing spaces, so the real service may treat more usernames and emails as equal. The password comparison (`!==`, server.js:75) is exact in the source too.
- Only strings (or a missing field) are modelled for the request fields, and only integers for `user_id`. The model does not cover JSON numbers, booleans or objects in string fields, a string `user_id`, or MySQL converting the `:userId` path string to a number.
- Query results follow table (insertion) order. The source's queries have no `ORDER BY`, so MySQL promises no order. Row order decides which row login treats as first when identifiers are not unique (server.js:74). It also decides the order of the `blogs` array in the listing reply (server.js:196). `Records.SelectUsersAppend`, `Records.SelectBlogsAppend` and `Properties.ListAfterCreateBlog` ("the owner's listing ends with the new blog") hold only under the insertion order the model assumes.
- Reply bodies: `Reply` carries the status and the `message` text. The success payloads (`userId` and `username`, `insertId`, the blog rows) are carried by the outcome datatypes. The successful listing reply has no `message` in the source, so its model message is empty.
- Passwords are stored and compared in plain text, as the source does. Hashing is not part of this model.
- If a UNIQUE constraint rejects the insert (two signups racing), the insert callback replies 500 (server.js:125-128). That branch is left out with the other 500 branches.
- Ids are handed out one after another from 1 only in the model (`Store.Signup` and `Store.CreateBlog` advance the counter by one). MySQL's AUTO_INCREMENT promises only a fresh, increasing id and can leave gaps. The lemmas rely only on ids being fresh and increasing.
