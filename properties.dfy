/** Properties of the handlers that relate several requests or rest on the
    consistency of the store: login finds the account that signup created,
    signup and blog creation keep the store consistent, and listing returns
    what blog creation appended. */
module Properties {
  import opened Records
  import opened Handlers

  /** A row whose key no other row shares is the row a query returns first. */
  lemma {:induction false} SoleMatchIsFirst(users: seq<User>, key: UserKey, k: int)
    requires 0 <= k < |users| && Matches(users[k], key)
    requires forall j :: 0 <= j < |users| && j != k ==> !Matches(users[j], key)
    ensures IsFirstMatch(users, key, k)
    ensures forall i :: IsFirstMatch(users, key, i) ==> i == k
  {
  }

  // ---- Login ----

  /** With unique usernames, an account's username and password log in as
      exactly that account, whatever email is sent beside them. */
  lemma {:induction false} LoginByUsernameFindsAccount(users: seq<User>, u: User, email: Option<string>)
    requires UniqueUsernames(users)
    requires u in users && u.username != "" && u.password != ""
    ensures Login(users, LoginBody(Some(u.username), email, Some(u.password))) == LoggedIn(u.userId, u.username)
  {
    var k :| 0 <= k < |users| && users[k] == u;
    SoleMatchIsFirst(users, ByUsername(u.username), k);
  }

  /** With unique usernames, an account's username with any other non-empty
      password is refused with 401. */
  lemma {:induction false} LoginByUsernameRejectsWrongPassword(
    users: seq<User>, u: User, email: Option<string>, password: string)
    requires UniqueUsernames(users)
    requires u in users && u.username != "" && password != "" && password != u.password
    ensures Login(users, LoginBody(Some(u.username), email, Some(password))) == IncorrectPassword
  {
    var k :| 0 <= k < |users| && users[k] == u;
    SoleMatchIsFirst(users, ByUsername(u.username), k);
  }

  /** With unique emails and no username sent, an account's email and
      password log in as exactly that account. */
  lemma {:induction false} LoginByEmailFindsAccount(users: seq<User>, u: User, username: Option<string>)
    requires UniqueEmails(users) && !Present(username)
    requires u in users && u.email != "" && u.password != ""
    ensures Login(users, LoginBody(username, Some(u.email), Some(u.password))) == LoggedIn(u.userId, u.username)
  {
    var k :| 0 <= k < |users| && users[k] == u;
    SoleMatchIsFirst(users, ByEmail(u.email), k);
  }

  /** With unique emails and no username sent, an account's email with any
      other non-empty password is refused with 401. */
  lemma {:induction false} LoginByEmailRejectsWrongPassword(
    users: seq<User>, u: User, username: Option<string>, password: string)
    requires UniqueEmails(users) && !Present(username)
    requires u in users && u.email != "" && password != "" && password != u.password
    ensures Login(users, LoginBody(username, Some(u.email), Some(password))) == IncorrectPassword
  {
    var k :| 0 <= k < |users| && users[k] == u;
    SoleMatchIsFirst(users, ByEmail(u.email), k);
  }

  // ---- Signup ----

  /** A successful signup appends a row that keeps usernames and emails
      unique, ids increasing and fresh, and every blog owned. */
  lemma {:induction false} SignupPreservesConsistency(
    users: seq<User>, blogs: seq<Blog>, nextUserId: nat, nextBlogId: nat, body: SignupBody)
    requires Consistent(users, blogs, nextUserId, nextBlogId)
    requires SignupResult(users, nextUserId, body).Created?
    ensures Consistent(users + [NewUser(body, nextUserId)], blogs, nextUserId + 1, nextBlogId)
  {
    var u := NewUser(body, nextUserId);
    var users' := users + [u];
    forall i, j | 0 <= i < j < |users'|
      ensures users'[i].username != users'[j].username
      ensures users'[i].email != users'[j].email
      ensures users'[i].userId < users'[j].userId
    {
      if j == |users| {
        assert users'[i] == users[i] && users[i] in users;
      }
    }
    forall b | b in blogs
      ensures OwnerExists(users', b.userId)
    {
      var owner :| owner in users && owner.userId == b.userId;
      assert owner in users';
    }
  }

  /** A row inserted with a username, an email and an id no earlier row has
      is the only row the lookups by each of them return afterwards. */
  lemma {:induction false} NewUserFoundByLookups(users: seq<User>, body: SignupBody, userId: nat)
    requires SignupFieldsPresent(body)
    requires !UsernameInUse(users, body.username.value) && !EmailInUse(users, body.email.value)
    requires !OwnerExists(users, userId)
    ensures SelectUsers(users + [NewUser(body, userId)], ByUsername(body.username.value)) == [NewUser(body, userId)]
    ensures SelectUsers(users + [NewUser(body, userId)], ByEmail(body.email.value)) == [NewUser(body, userId)]
    ensures SelectUsers(users + [NewUser(body, userId)], ById(userId)) == [NewUser(body, userId)]
  {
    var u := NewUser(body, userId);
    var keys := [ByUsername(body.username.value), ByEmail(body.email.value), ById(userId)];
    forall k | k in keys
      ensures SelectUsers(users + [u], k) == [u]
    {
      NoMatchSelectsNothing(users, k);
      SelectUsersAppend(users, u, k);
    }
    assert keys[0] in keys && keys[1] in keys && keys[2] in keys;
  }

  /** After a successful signup the same username is refused, whatever email
      comes with it; a fresh username with the same email is refused for the
      email. */
  lemma {:induction false} SignupAfterSignup(users: seq<User>, nextUserId: nat, body: SignupBody, again: SignupBody)
    requires SignupResult(users, nextUserId, body).Created?
    requires SignupFieldsPresent(again)
    ensures again.username == body.username ==>
              SignupResult(users + [NewUser(body, nextUserId)], nextUserId + 1, again) == UsernameTaken
    ensures again.username != body.username && !UsernameInUse(users, again.username.value) &&
            again.email == body.email ==>
              SignupResult(users + [NewUser(body, nextUserId)], nextUserId + 1, again) == EmailTaken
  {
    var u := NewUser(body, nextUserId);
    var users' := users + [u];
    assert u in users';
    if !UsernameInUse(users, again.username.value) && again.username != body.username {
      forall v | v in users' ensures v.username != again.username.value {
        if v != u {
          assert v in users;
        }
      }
    }
  }

  /** The account a signup creates can log in at once with its username and
      password, and login reports the id the signup returned. */
  lemma {:induction false} LoginAfterSignup(
    users: seq<User>, blogs: seq<Blog>, nextUserId: nat, nextBlogId: nat,
    body: SignupBody, email: Option<string>)
    requires Consistent(users, blogs, nextUserId, nextBlogId)
    requires SignupResult(users, nextUserId, body).Created?
    ensures Login(users + [NewUser(body, nextUserId)], LoginBody(body.username, email, body.password)) ==
            LoggedIn(nextUserId, body.username.value)
  {
    SignupPreservesConsistency(users, blogs, nextUserId, nextBlogId, body);
    var u := NewUser(body, nextUserId);
    LoginByUsernameFindsAccount(users + [u], u, email);
  }

  // ---- Blogs ----

  /** A successful blog creation appends a row that keeps blog ids
      increasing and fresh and whose owner exists. */
  lemma {:induction false} CreateBlogPreservesConsistency(
    users: seq<User>, blogs: seq<Blog>, nextUserId: nat, nextBlogId: nat, body: BlogBody)
    requires Consistent(users, blogs, nextUserId, nextBlogId)
    requires CreateBlogResult(users, nextBlogId, body).BlogCreated?
    ensures body.userId.value >= 0
    ensures Consistent(users, blogs + [NewBlog(body, nextBlogId)], nextUserId, nextBlogId + 1)
  {
    var owner :| owner in users && owner.userId == body.userId.value;
    var b := NewBlog(body, nextBlogId);
    var blogs' := blogs + [b];
    forall i, j | 0 <= i < j < |blogs'|
      ensures blogs'[i].blogId < blogs'[j].blogId
    {
      if j == |blogs| {
        assert blogs'[i] == blogs[i];
      }
    }
    forall c | c in blogs'
      ensures OwnerExists(users, c.userId)
    {
      if c != b {
        assert c in blogs;
      }
    }
  }

  /** After a blog is created its owner's listing ends with it, and every
      other owner's listing is unchanged. */
  lemma {:induction false} ListAfterCreateBlog(blogs: seq<Blog>, b: Blog, userId: int)
    ensures ListBlogs(blogs + [b], b.userId) == BlogsFound(SelectBlogs(blogs, b.userId) + [b])
    ensures userId != b.userId ==> ListBlogs(blogs + [b], userId) == ListBlogs(blogs, userId)
  {
    SelectBlogsAppend(blogs, b, b.userId);
    SelectBlogsAppend(blogs, b, userId);
  }

  /** In a consistent store an id that names no account has no blogs, so its
      listing is 404. */
  lemma {:induction false} ListBlogsOfUnknownOwner(
    users: seq<User>, blogs: seq<Blog>, nextUserId: nat, nextBlogId: nat, userId: int)
    requires Consistent(users, blogs, nextUserId, nextBlogId)
    requires !OwnerExists(users, userId)
    ensures ListBlogs(blogs, userId) == NoBlogsFound
  {
    forall b | b in blogs ensures b.userId != userId {
      assert OwnerExists(users, b.userId);
    }
  }
}
