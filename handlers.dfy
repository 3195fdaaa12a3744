/** The decision logic of the four route handlers: `POST /login`,
    `POST /signup`, `POST /blogs` and `GET /blogs/:userId`. Each handler is a
    short chain of field checks and table lookups whose first failure decides
    the reply. Login and listing only read the tables, so they are functions
    of the rows; signup and blog creation are decided here and carried out on
    the store in module Database. */
module Handlers {
  import opened Records

  /** JavaScript truthiness of a request string: a missing or `null` field
      (`None`) and `""` are both falsy. */
  predicate Present(field: Option<string>)
  {
    field.Some? && field.value != ""
  }

  /** JavaScript truthiness of a numeric `user_id`: a missing or `null` field
      (`None`) and `0` are both falsy. */
  predicate PresentId(field: Option<int>)
  {
    field.Some? && field.value != 0
  }

  /** The HTTP status and the `message` of the JSON reply. */
  datatype Reply = Reply(status: int, message: string)

  // ---- POST /login ----

  datatype LoginBody = LoginBody(username: Option<string>, email: Option<string>, password: Option<string>)

  datatype LoginOutcome =
    | MissingIdentifier
    | MissingPassword
    | UserNotFound
    | IncorrectPassword
    | LoggedIn(userId: nat, username: string)

  predicate HasIdentifier(body: LoginBody)
  {
    Present(body.username) || Present(body.email)
  }

  /** The query callback of the login route: look the identifier up and
      compare the password with the first row found. */
  function Authenticate(users: seq<User>, key: UserKey, password: string): (r: LoginOutcome)
    ensures r == UserNotFound <==> forall u :: u in users ==> !Matches(u, key)
    ensures r == IncorrectPassword <==>
              exists i :: IsFirstMatch(users, key, i) && users[i].password != password
    ensures r.LoggedIn? <==>
              exists i :: IsFirstMatch(users, key, i) && users[i].password == password
    ensures r.LoggedIn? ==>
              exists i :: IsFirstMatch(users, key, i) && users[i].password == password &&
                          r.userId == users[i].userId && r.username == users[i].username
    ensures r != MissingIdentifier && r != MissingPassword
  {
    var rows := SelectUsers(users, key);
    if |rows| == 0 then
      UserNotFound
    else
      SelectUsersHead(users, key);
      var user := rows[0];
      if user.password != password then IncorrectPassword
      else LoggedIn(user.userId, user.username)
  }

  /** `POST /login`: validate, choose the identifier, authenticate. */
  function Login(users: seq<User>, body: LoginBody): (r: LoginOutcome)
    ensures r == MissingIdentifier <==> !HasIdentifier(body)
    ensures r == MissingPassword <==> HasIdentifier(body) && !Present(body.password)
    ensures Present(body.username) && Present(body.password) ==>
              r == Authenticate(users, ByUsername(body.username.value), body.password.value)
    ensures !Present(body.username) && Present(body.email) && Present(body.password) ==>
              r == Authenticate(users, ByEmail(body.email.value), body.password.value)
  {
    if !Present(body.username) && !Present(body.email) then
      MissingIdentifier
    else if !Present(body.password) then
      MissingPassword
    else
      var key := if Present(body.username) then ByUsername(body.username.value)
                 else ByEmail(body.email.value);
      Authenticate(users, key, body.password.value)
  }

  function LoginReply(o: LoginOutcome): (r: Reply)
    ensures r.status == 200 <==> o.LoggedIn?
    ensures r.status == 400 <==> o == MissingIdentifier || o == MissingPassword
    ensures r.status == 404 <==> o == UserNotFound
    ensures r.status == 401 <==> o == IncorrectPassword
  {
    match o
    case MissingIdentifier => Reply(400, "Username or email is required.")
    case MissingPassword => Reply(400, "Password is required.")
    case UserNotFound => Reply(404, "User not found.")
    case IncorrectPassword => Reply(401, "Incorrect password.")
    case LoggedIn(_, _) => Reply(200, "Login successful")
  }

  /** Different login failures always give different replies; since the two
      400 failures share a status, their messages differ. */
  lemma LoginFailuresDistinguishable(o1: LoginOutcome, o2: LoginOutcome)
    requires !o1.LoggedIn? && !o2.LoggedIn? && o1 != o2
    ensures LoginReply(o1) != LoginReply(o2)
  {
  }

  // ---- POST /signup ----

  datatype SignupBody = SignupBody(username: Option<string>, email: Option<string>, password: Option<string>)

  datatype SignupOutcome =
    | MissingSignupFields
    | UsernameTaken
    | EmailTaken
    | Created(userId: nat)

  predicate SignupFieldsPresent(body: SignupBody)
  {
    Present(body.username) && Present(body.email) && Present(body.password)
  }

  predicate UsernameInUse(users: seq<User>, name: string)
  {
    exists u :: u in users && u.username == name
  }

  predicate EmailInUse(users: seq<User>, email: string)
  {
    exists u :: u in users && u.email == email
  }

  /** The decision `POST /signup` takes on the current users table; a new
      account would receive `nextUserId`. Username is checked before email. */
  function SignupResult(users: seq<User>, nextUserId: nat, body: SignupBody): (r: SignupOutcome)
    ensures r == MissingSignupFields <==> !SignupFieldsPresent(body)
    ensures r == UsernameTaken <==>
              SignupFieldsPresent(body) && UsernameInUse(users, body.username.value)
    ensures r == EmailTaken <==>
              SignupFieldsPresent(body) && !UsernameInUse(users, body.username.value) &&
              EmailInUse(users, body.email.value)
    ensures r.Created? <==>
              SignupFieldsPresent(body) && !UsernameInUse(users, body.username.value) &&
              !EmailInUse(users, body.email.value)
    ensures r.Created? ==> r.userId == nextUserId
  {
    if !Present(body.username) || !Present(body.email) || !Present(body.password) then
      MissingSignupFields
    else
      var byName := SelectUsers(users, ByUsername(body.username.value));
      if |byName| > 0 then
        assert byName[0] in byName;
        UsernameTaken
      else
        var byEmail := SelectUsers(users, ByEmail(body.email.value));
        if |byEmail| > 0 then
          assert byEmail[0] in byEmail;
          EmailTaken
        else
          Created(nextUserId)
  }

  /** The row a successful signup inserts. */
  function NewUser(body: SignupBody, userId: nat): User
    requires SignupFieldsPresent(body)
  {
    User(userId, body.username.value, body.email.value, body.password.value)
  }

  function SignupReply(o: SignupOutcome): (r: Reply)
    ensures r.status == 201 <==> o.Created?
    ensures r.status == 400 <==> !o.Created?
  {
    match o
    case MissingSignupFields => Reply(400, "Username, email, and password are required.")
    case UsernameTaken => Reply(400, "Username already exists.")
    case EmailTaken => Reply(400, "Email already exists.")
    case Created(_) => Reply(201, "User created successfully")
  }

  /** The same status code (400) serves every signup refusal, so the message
      is what tells a missing field, a taken username and a taken email apart. */
  lemma SignupRefusalsDistinguishable(o1: SignupOutcome, o2: SignupOutcome)
    requires !o1.Created? && !o2.Created? && o1 != o2
    ensures SignupReply(o1).status == SignupReply(o2).status
    ensures SignupReply(o1).message != SignupReply(o2).message
  {
  }

  // ---- POST /blogs ----

  datatype BlogBody = BlogBody(userId: Option<int>, title: Option<string>, content: Option<string>)

  datatype CreateBlogOutcome =
    | MissingBlogFields
    | OwnerNotFound
    | BlogCreated(blogId: nat)

  predicate BlogFieldsPresent(body: BlogBody)
  {
    PresentId(body.userId) && Present(body.title) && Present(body.content)
  }

  /** The decision `POST /blogs` takes on the current users table; a new
      blog would receive `nextBlogId`. */
  function CreateBlogResult(users: seq<User>, nextBlogId: nat, body: BlogBody): (r: CreateBlogOutcome)
    ensures r == MissingBlogFields <==> !BlogFieldsPresent(body)
    ensures r == OwnerNotFound <==>
              BlogFieldsPresent(body) && !OwnerExists(users, body.userId.value)
    ensures r.BlogCreated? <==>
              BlogFieldsPresent(body) && OwnerExists(users, body.userId.value)
    ensures r.BlogCreated? ==> r.blogId == nextBlogId
  {
    if !PresentId(body.userId) || !Present(body.title) || !Present(body.content) then
      MissingBlogFields
    else
      var owners := SelectUsers(users, ById(body.userId.value));
      if |owners| == 0 then
        OwnerNotFound
      else
        assert owners[0] in owners;
        BlogCreated(nextBlogId)
  }

  /** The row a successful blog creation inserts. */
  function NewBlog(body: BlogBody, blogId: nat): Blog
    requires BlogFieldsPresent(body) && body.userId.value >= 0
  {
    Blog(blogId, body.userId.value, body.title.value, body.content.value)
  }

  function CreateBlogReply(o: CreateBlogOutcome): (r: Reply)
    ensures r.status == 201 <==> o.BlogCreated?
    ensures r.status == 400 <==> o == MissingBlogFields
    ensures r.status == 404 <==> o == OwnerNotFound
  {
    match o
    case MissingBlogFields => Reply(400, "User ID, title, and content are required.")
    case OwnerNotFound => Reply(404, "User not found.")
    case BlogCreated(_) => Reply(201, "Blog created successfully")
  }

  // ---- GET /blogs/:userId ----

  datatype ListBlogsOutcome = NoBlogsFound | BlogsFound(blogs: seq<Blog>)

  /** `GET /blogs/:userId`: the owner's blogs in table order, or 404 when
      there are none. The owner is not checked against the users table. */
  function ListBlogs(blogs: seq<Blog>, userId: int): (r: ListBlogsOutcome)
    ensures r == NoBlogsFound <==> forall b :: b in blogs ==> b.userId != userId
    ensures r.BlogsFound? ==> r.blogs != [] && |r.blogs| <= |blogs|
    ensures r.BlogsFound? ==> forall b :: b in r.blogs <==> b in blogs && b.userId == userId
  {
    var rows := SelectBlogs(blogs, userId);
    if |rows| == 0 then NoBlogsFound
    else
      assert rows[0] in rows;
      BlogsFound(rows)
  }

  function ListBlogsReply(o: ListBlogsOutcome): (r: Reply)
    ensures r.status == 200 <==> o.BlogsFound?
    ensures r.status == 404 <==> o == NoBlogsFound
  {
    match o
    case NoBlogsFound => Reply(404, "No blogs found for this user.")
    case BlogsFound(_) => Reply(200, "")  // the success body carries only the rows
  }
}
