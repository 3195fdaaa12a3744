/** The record store shared by all requests: the `users` and `blogs` tables
    and the AUTO_INCREMENT counters that hand out `insertId`. The two routes
    that INSERT rows are methods that change it; login and listing read its
    tables through the functions of module Handlers. */
module Database {
  import opened Records
  import opened Handlers
  import Properties

  class Store {
    var users: seq<User>
    var blogs: seq<Blog>
    var nextUserId: nat
    var nextBlogId: nat

    ghost predicate Valid()
      reads this
    {
      Consistent(users, blogs, nextUserId, nextBlogId)
    }

    /** Empty tables; AUTO_INCREMENT starts at 1. */
    constructor ()
      ensures Valid()
      ensures users == [] && blogs == [] && nextUserId == 1 && nextBlogId == 1
    {
      users, blogs := [], [];
      nextUserId, nextBlogId := 1, 1;
    }

    /** `POST /signup`: validate, check the username, then the email, and
        insert the account only when both are free. */
    method Signup(body: SignupBody) returns (r: SignupOutcome)
      requires Valid()
      modifies this`users, this`nextUserId
      ensures Valid()
      ensures r == SignupResult(old(users), old(nextUserId), body)
      ensures r.Created? ==> forall u :: u in old(users) ==> u.userId != r.userId
      ensures r.Created? ==>
                users == old(users) + [NewUser(body, r.userId)] && nextUserId == old(nextUserId) + 1
      ensures !r.Created? ==> users == old(users) && nextUserId == old(nextUserId)
    {
      r := SignupResult(users, nextUserId, body);
      if r.Created? {
        Properties.SignupPreservesConsistency(users, blogs, nextUserId, nextBlogId, body);
        users := users + [NewUser(body, nextUserId)];
        nextUserId := nextUserId + 1;
      }
    }

    /** `POST /blogs`: validate, check that the owner exists, and insert the
        blog only then. */
    method CreateBlog(body: BlogBody) returns (r: CreateBlogOutcome)
      requires Valid()
      modifies this`blogs, this`nextBlogId
      ensures Valid()
      ensures r == CreateBlogResult(users, old(nextBlogId), body)
      ensures r.BlogCreated? ==> forall b :: b in old(blogs) ==> b.blogId != r.blogId
      ensures r.BlogCreated? ==> body.userId.value >= 0
      ensures r.BlogCreated? ==>
                blogs == old(blogs) + [NewBlog(body, r.blogId)] && nextBlogId == old(nextBlogId) + 1
      ensures !r.BlogCreated? ==> blogs == old(blogs) && nextBlogId == old(nextBlogId)
    {
      r := CreateBlogResult(users, nextBlogId, body);
      if r.BlogCreated? {
        Properties.CreateBlogPreservesConsistency(users, blogs, nextUserId, nextBlogId, body);
        blogs := blogs + [NewBlog(body, nextBlogId)];
        nextBlogId := nextBlogId + 1;
      }
    }
  }

  // ---- Example sessions against a fresh store; every assertion follows
  // from the contracts above and the lemmas of module Properties. ----

  /** A fresh store after alice has signed up. */
  method StoreWithAlice() returns (store: Store)
    ensures fresh(store) && store.Valid()
    ensures store.users == [User(1, "alice", "a@x.com", "pw1")] && store.nextUserId == 2
    ensures store.blogs == [] && store.nextBlogId == 1
  {
    store := new Store();
    var alice := SignupBody(Some("alice"), Some("a@x.com"), Some("pw1"));
    assert !UsernameInUse([], "alice") && !EmailInUse([], "a@x.com");
    var created := store.Signup(alice);
    assert created == Created(1);
  }

  /** Signing up twice with the same username: the second request is refused
      and the users table keeps its one row. */
  method ExampleSignupTwice()
  {
    var store := StoreWithAlice();
    var alice := SignupBody(Some("alice"), Some("a@x.com"), Some("pw1"));
    var bob := SignupBody(Some("alice"), Some("b@y.com"), Some("pw2"));
    assert NewUser(alice, 1) == User(1, "alice", "a@x.com", "pw1");
    Properties.SignupAfterSignup([], 1, alice, bob);
    var again := store.Signup(bob);
    assert again == UsernameTaken;
    assert store.users == [User(1, "alice", "a@x.com", "pw1")];
  }

  /** Logging in after signing up, with the right and with a wrong password. */
  method ExampleLogin()
  {
    var store := StoreWithAlice();
    var account := User(1, "alice", "a@x.com", "pw1");
    var users := store.users;
    Properties.LoginByUsernameFindsAccount(users, account, None);
    Properties.LoginByUsernameRejectsWrongPassword(users, account, None, "wrong");
    assert Login(users, LoginBody(Some("alice"), None, Some("pw1"))) == LoggedIn(1, "alice");
    assert Login(users, LoginBody(Some("alice"), None, Some("wrong"))) == IncorrectPassword;
  }

  /** Creating a blog for an account: the store then holds exactly that blog. */
  method ExampleCreateBlog()
  {
    var store := StoreWithAlice();
    assert OwnerExists(store.users, 1);
    var post := store.CreateBlog(BlogBody(Some(1), Some("Hi"), Some("Hello")));
    assert post == BlogCreated(1);
    assert store.blogs == [Blog(1, 1, "Hi", "Hello")];
  }

  /** Listing the blogs table that ExampleCreateBlog leaves: the owner gets
      the blog, an id with no blogs gets 404. */
  method ExampleListBlogs()
  {
    var hi := Blog(1, 1, "Hi", "Hello");
    assert [] + [hi] == [hi];
    Properties.ListAfterCreateBlog([], hi, 2);
    assert ListBlogs([hi], 1) == BlogsFound([hi]);
    assert ListBlogs([hi], 2) == NoBlogsFound;
  }
}
