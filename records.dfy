/** The two tables of the record store (`users` and `blogs`), the
    `SELECT ... WHERE column = ?` queries the route handlers run against
    them, and the consistency the store keeps between requests. */
module Records {

  datatype Option<T> = None | Some(value: T)

  /** A row of the `users` table. */
  datatype User = User(userId: nat, username: string, email: string, password: string)

  /** A row of the `blogs` table; `userId` is the owning account. */
  datatype Blog = Blog(blogId: nat, userId: nat, title: string, content: string)

  /** The column (and value) a `SELECT * FROM users WHERE column = ?` compares. */
  datatype UserKey = ByUsername(username: string) | ByEmail(email: string) | ById(id: int)

  predicate Matches(u: User, key: UserKey)
  {
    match key
    case ByUsername(name) => u.username == name
    case ByEmail(email) => u.email == email
    case ById(id) => u.userId == id
  }

  /** `SELECT * FROM users WHERE ...`: every matching row, in table order. */
  function SelectUsers(users: seq<User>, key: UserKey): (rows: seq<User>)
    ensures |rows| <= |users|
    ensures forall u :: u in rows <==> u in users && Matches(u, key)
  {
    if users == [] then []
    else if Matches(users[0], key) then [users[0]] + SelectUsers(users[1..], key)
    else SelectUsers(users[1..], key)
  }

  /** Row `i` is the earliest row of the table that matches `key`. */
  predicate IsFirstMatch(users: seq<User>, key: UserKey, i: int)
  {
    0 <= i < |users| && Matches(users[i], key) &&
    forall j :: 0 <= j < i ==> !Matches(users[j], key)
  }

  /** The first row a query returns is the earliest matching row of the table. */
  lemma {:induction false} SelectUsersHead(users: seq<User>, key: UserKey)
    requires SelectUsers(users, key) != []
    ensures exists i :: IsFirstMatch(users, key, i) && SelectUsers(users, key)[0] == users[i]
  {
    if Matches(users[0], key) {
      assert IsFirstMatch(users, key, 0);
    } else {
      SelectUsersHead(users[1..], key);
      var i :| IsFirstMatch(users[1..], key, i) && SelectUsers(users[1..], key)[0] == users[1..][i];
      assert IsFirstMatch(users, key, i + 1);
    }
  }

  /** A query no row matches returns no rows. */
  lemma NoMatchSelectsNothing(users: seq<User>, key: UserKey)
    requires forall u :: u in users ==> !Matches(u, key)
    ensures SelectUsers(users, key) == []
  {
  }

  /** Appending a row to the users table appends it to the result of every
      query it matches and leaves every other query's result as it was. */
  lemma {:induction false} SelectUsersAppend(users: seq<User>, u: User, key: UserKey)
    ensures SelectUsers(users + [u], key) ==
            SelectUsers(users, key) + (if Matches(u, key) then [u] else [])
  {
    if users == [] {
      assert users + [u] == [u];
    } else {
      assert (users + [u])[0] == users[0];
      assert (users + [u])[1..] == users[1..] + [u];
      SelectUsersAppend(users[1..], u, key);
    }
  }

  /** `SELECT * FROM blogs WHERE user_id = ?`: every blog of that owner, in table order. */
  function SelectBlogs(blogs: seq<Blog>, userId: int): (rows: seq<Blog>)
    ensures |rows| <= |blogs|
    ensures forall b :: b in rows <==> b in blogs && b.userId == userId
  {
    if blogs == [] then []
    else if blogs[0].userId == userId then [blogs[0]] + SelectBlogs(blogs[1..], userId)
    else SelectBlogs(blogs[1..], userId)
  }

  /** Appending a row to the blogs table appends it to its owner's listing
      and leaves every other owner's listing as it was. */
  lemma {:induction false} SelectBlogsAppend(blogs: seq<Blog>, b: Blog, userId: int)
    ensures SelectBlogs(blogs + [b], userId) ==
            SelectBlogs(blogs, userId) + (if b.userId == userId then [b] else [])
  {
    if blogs == [] {
      assert blogs + [b] == [b];
    } else {
      assert (blogs + [b])[0] == blogs[0];
      assert (blogs + [b])[1..] == blogs[1..] + [b];
      SelectBlogsAppend(blogs[1..], b, userId);
    }
  }

  // ---- Consistency of the store between requests ----

  predicate UniqueUsernames(users: seq<User>)
  {
    forall i, j :: 0 <= i < j < |users| ==> users[i].username != users[j].username
  }

  predicate UniqueEmails(users: seq<User>)
  {
    forall i, j :: 0 <= i < j < |users| ==> users[i].email != users[j].email
  }

  /** AUTO_INCREMENT ids: positive, increasing in table order and below the next id to hand out. */
  predicate UserIdsIssuedBelow(users: seq<User>, nextUserId: nat)
  {
    1 <= nextUserId &&
    (forall i :: 0 <= i < |users| ==> 1 <= users[i].userId < nextUserId) &&
    (forall i, j :: 0 <= i < j < |users| ==> users[i].userId < users[j].userId)
  }

  predicate BlogIdsIssuedBelow(blogs: seq<Blog>, nextBlogId: nat)
  {
    1 <= nextBlogId &&
    (forall i :: 0 <= i < |blogs| ==> 1 <= blogs[i].blogId < nextBlogId) &&
    (forall i, j :: 0 <= i < j < |blogs| ==> blogs[i].blogId < blogs[j].blogId)
  }

  predicate OwnerExists(users: seq<User>, userId: int)
  {
    exists u :: u in users && u.userId == userId
  }

  /** Every blog references an existing account. */
  predicate BlogsOwned(users: seq<User>, blogs: seq<Blog>)
  {
    forall b :: b in blogs ==> OwnerExists(users, b.userId)
  }

  predicate Consistent(users: seq<User>, blogs: seq<Blog>, nextUserId: nat, nextBlogId: nat)
  {
    UniqueUsernames(users) && UniqueEmails(users) &&
    UserIdsIssuedBelow(users, nextUserId) && BlogIdsIssuedBelow(blogs, nextBlogId) &&
    BlogsOwned(users, blogs)
  }
}
