/**
 * The decisions the site's request handlers make: who is signed in, which user
 * or post a path names, when a post may be published, and what changes in the
 * stores and the session. The document store is two sequences in insertion
 * order; `findOne` is the first match and `find` every match in that order.
 */
module Routes {
  import opened Seqs
  import opened Strings
  import opened Slug
  import opened RelativeTime

  /** A registered account; `password` is what registration hands to the store. */
  datatype User = User(username: string, email: string, password: string)

  /** A published post; `title` holds the slug, `date` the publication instant in milliseconds. */
  datatype Post = Post(username: string, title: string, content: string, date: int)

  /** What `user.isCorrectPassword` reports to its callback. */
  datatype PasswordCheck = CheckFailed | Matches | Mismatch

  /** What a handler sends back. */
  datatype Response =
    | Redirect(location: string)
    | NotFound
    | FormError(view: string, message: string)
    | PublishForm(account: User)
    | UserPage(username: string, posts: seq<Post>)
    | PostPage(title: string, content: string, author: string, date: string)
    | NoResponse  // the handler throws before answering

  const MinPasswordLength := 6

  /** JavaScript truthiness of `req.session.user`: absent and empty both count as signed out. */
  predicate Truthy(s: Option<string>)
  {
    s.Some? && s.value != ""
  }

  function HasEmail(email: string): (p: User -> bool)
  {
    (u: User) => u.email == email
  }

  function HasUsername(username: string): (p: User -> bool)
  {
    (u: User) => u.username == username
  }

  function ByAuthor(username: string): (p: Post -> bool)
  {
    (p: Post) => p.username == username
  }

  function AtAddress(username: string, slug: string): (p: Post -> bool)
  {
    (p: Post) => p.username == username && p.title == slug
  }

  /** `User.findOne({email})` */
  function UserWithEmail(users: seq<User>, email: string): (i: Option<nat>)
  {
    First(users, HasEmail(email))
  }

  /** `User.findOne({username})` */
  function UserNamed(users: seq<User>, username: string): (i: Option<nat>)
  {
    First(users, HasUsername(username))
  }

  /** The account a `forEach` over `User.find({email})` visits last. */
  function LastUserWithEmail(users: seq<User>, email: string): (i: Option<nat>)
  {
    Last(users, HasEmail(email))
  }

  /** `Post.findOne({username, title: slug})` */
  function PostAt(posts: seq<Post>, username: string, slug: string): (i: Option<nat>)
  {
    First(posts, AtAddress(username, slug))
  }

  /** A signed-in email belongs to some account. */
  predicate SessionBacked(users: seq<User>, sessionUser: Option<string>)
  {
    sessionUser.Some? ==> UserWithEmail(users, sessionUser.value).Some?
  }

  /** A post may be published under `username` when the first account with that username has the session's email. */
  predicate MayPublishAs(users: seq<User>, sessionUser: Option<string>, username: string)
  {
    UserNamed(users, username).Some? && sessionUser == Some(users[UserNamed(users, username).value].email)
  }

  /** An authorised publisher is signed in with an email that belongs to an account of that username. */
  lemma AuthorisedSessionIsBacked(users: seq<User>, sessionUser: Option<string>, username: string)
    requires MayPublishAs(users, sessionUser, username)
    ensures sessionUser.Some?
    ensures exists i :: 0 <= i < |users| && users[i].username == username && users[i].email == sessionUser.value
    ensures SessionBacked(users, sessionUser)
  {
    var k := UserNamed(users, username).value;
    assert HasEmail(users[k].email)(users[k]);
  }

  /** The server-side session of one client. */
  class Session {
    var user: Option<string>
    var name: Option<string>

    constructor ()
      ensures user == None && name == None
    {
      user, name := None, None;
    }
  }

  /**
   * The site: its two stores and the one relative-time formatter whose table
   * every page shares.
   */
  class Site {
    var users: seq<User>
    var posts: seq<Post>
    const fmt: Formatter

    ghost predicate Valid()
      reads fmt
    {
      fmt.Valid()
    }

    constructor ()
      ensures Valid() && fresh(fmt) && fmt.intervals == InitialIntervals
      ensures users == [] && posts == []
    {
      users, posts := [], [];
      fmt := new Formatter();
    }

    /** GET /publicar: the publishing form for the signed-in account; `readFails` is the store rejecting the lookup. */
    method ShowPublishForm(sess: Session, readFails: bool) returns (resp: Response)
      ensures resp == Redirect("/") <==> !Truthy(sess.user)
      ensures resp.PublishForm? <==>
                Truthy(sess.user) && !readFails && exists i :: 0 <= i < |users| && users[i].email == sess.user.value
      ensures resp.PublishForm? ==>
                resp.account.email == sess.user.value && resp.account == users[UserWithEmail(users, sess.user.value).value]
      ensures resp.Redirect? || resp.PublishForm? || resp.NoResponse?
    {
      if !Truthy(sess.user) {
        return Redirect("/");
      }
      if readFails {
        // the awaited lookup rejects, the handler stops and nothing is sent
        return NoResponse;
      }
      var found := UserWithEmail(users, sess.user.value);
      if found.None? {
        // `user._id` on a missing user throws, and nothing is sent
        return NoResponse;
      }
      resp := PublishForm(users[found.value]);
    }

    /**
     * GET /:username: the user's page with every post stored under that username.
     * `userReadFails` and `postsReadFails` are the store rejecting the account
     * lookup and the post query; either stops the handler with nothing sent.
     */
    method ShowUser(username: string, userReadFails: bool, postsReadFails: bool) returns (resp: Response)
      ensures userReadFails ==> resp == NoResponse
      ensures resp.NotFound? <==>
                !userReadFails && forall i :: 0 <= i < |users| ==> users[i].username != username
      ensures resp.NoResponse? <==>
                userReadFails || (postsReadFails && exists i :: 0 <= i < |users| && users[i].username == username)
      ensures resp.NotFound? || resp.UserPage? || resp.NoResponse?
      ensures resp.UserPage? ==> resp.username == username && resp.posts == Filter(posts, ByAuthor(username))
    {
      if userReadFails {
        return NoResponse;
      }
      var found := UserNamed(users, username);
      if found.None? {
        return NotFound;
      }
      if postsReadFails {
        return NoResponse;
      }
      resp := UserPage(users[found.value].username, Filter(posts, ByAuthor(username)));
    }

    /**
     * GET /:username/:post at the instant `nowMs`: the first post stored under
     * that address. `readFails` is the store rejecting one of the two lookups,
     * which both happen before any test.
     */
    method ShowPost(username: string, slug: string, nowMs: int, readFails: bool) returns (resp: Response)
      requires Valid()
      modifies fmt
      ensures Valid()
      ensures resp.NotFound? || resp.PostPage? || resp.NoResponse?
      ensures resp.NoResponse? <==> readFails
      ensures resp.NotFound? <==>
                !readFails && (UserNamed(users, username).None? || PostAt(posts, username, slug).None?)
      ensures !resp.PostPage? ==> fmt.intervals == old(fmt.intervals)
      ensures resp.PostPage? ==>
                var p := posts[PostAt(posts, username, slug).value];
                var seconds := ElapsedSeconds(nowMs, p.date);
                && resp == PostPage(Decode(slug), p.content, username, Describe(old(fmt.intervals), seconds))
                && fmt.intervals == Relabel(old(fmt.intervals), seconds)
    {
      if readFails {
        return NoResponse;
      }
      var user := UserNamed(users, username);
      var post := PostAt(posts, username, slug);
      if user.None? {
        return NotFound;
      } else if post.None? {
        return NotFound;
      }
      var p := posts[post.value];
      var date := fmt.TimeSince(nowMs, p.date);
      resp := PostPage(Decode(p.title), p.content, p.username, date);
    }

    /** The `forEach` over `User.find({email})` that writes each username into the session. */
    method RememberName(sess: Session, email: string)
      modifies sess
      ensures sess.user == old(sess.user)
      ensures sess.name ==
                if LastUserWithEmail(users, email).Some?
                then Some(users[LastUserWithEmail(users, email).value].username)
                else old(sess.name)
    {
      var found := Filter(users, HasEmail(email));
      for i := 0 to |found|
        invariant sess.user == old(sess.user)
        invariant i == 0 ==> sess.name == old(sess.name)
        invariant i > 0 ==> sess.name == Some(found[i - 1].username)
      {
        sess.name := Some(found[i].username);
      }
      FilterLast(users, HasEmail(email));
    }

    /** POST /login */
    method Login(sess: Session, email: string, password: string, lookupFails: bool,
                 check: (User, string) -> PasswordCheck) returns (resp: Response)
      modifies sess
      ensures Truthy(old(sess.user)) ==> resp == Redirect("/")
      ensures Truthy(old(sess.user)) || resp != Redirect("/") ==>
                sess.user == old(sess.user) && sess.name == old(sess.name)
      ensures !Truthy(old(sess.user)) && lookupFails ==> resp == FormError("login", "Error Authenticating User")
      ensures !Truthy(old(sess.user)) && !lookupFails && UserWithEmail(users, email).None? ==>
                resp == FormError("login", "User does not exist")
      ensures !Truthy(old(sess.user)) && !lookupFails && UserWithEmail(users, email).Some? ==>
                var verdict := check(users[UserWithEmail(users, email).value], password);
                && (verdict == CheckFailed ==> resp == FormError("login", "Error Authenticating"))
                && (verdict == Mismatch ==> resp == FormError("login", "Invalid email or password"))
                && (verdict == Matches ==> resp == Redirect("/"))
      ensures !Truthy(old(sess.user)) && resp == Redirect("/") ==>
                && LastUserWithEmail(users, email).Some?
                && sess.user == Some(email)
                && sess.name == Some(users[LastUserWithEmail(users, email).value].username)
      ensures SessionBacked(users, old(sess.user)) ==> SessionBacked(users, sess.user)
    {
      if Truthy(sess.user) {
        return Redirect("/");
      }
      if lookupFails {
        return FormError("login", "Error Authenticating User");
      }
      var found := UserWithEmail(users, email);
      if found.None? {
        return FormError("login", "User does not exist");
      }
      match check(users[found.value], password)
      case CheckFailed =>
        resp := FormError("login", "Error Authenticating");
      case Mismatch =>
        resp := FormError("login", "Invalid email or password");
      case Matches =>
        RememberName(sess, email);
        sess.user := Some(email);
        resp := Redirect("/");
    }

    /** POST /cadastro; `saveFails` is the store rejecting the new account. */
    method Register(sess: Session, username: string, email: string, password: string, saveFails: bool)
      returns (resp: Response)
      modifies this, sess
      ensures posts == old(posts)
      ensures |password| < MinPasswordLength ==>
                resp == FormError("cadastro", "Password Must be More Than 6 Characters")
      ensures |password| >= MinPasswordLength && saveFails ==>
                resp == FormError("cadastro", "Error Registering User")
      ensures |password| < MinPasswordLength || saveFails ==>
                users == old(users) && sess.user == old(sess.user) && sess.name == old(sess.name)
      ensures |password| >= MinPasswordLength && !saveFails ==>
                && users == old(users) + [User(username, email, password)]
                && sess.user == Some(email) && sess.name == Some(username)
                && resp == Redirect("/")
      ensures SessionBacked(old(users), old(sess.user)) ==> SessionBacked(users, sess.user)
    {
      if |password| < MinPasswordLength {
        return FormError("cadastro", "Password Must be More Than 6 Characters");
      }
      if saveFails {
        return FormError("cadastro", "Error Registering User");
      }
      var before := users;
      users := users + [User(username, email, password)];
      StoredAccountIsLast(before, User(username, email, password));
      RememberName(sess, email);
      sess.user := Some(email);
      resp := Redirect("/");
    }

    /**
     * POST /publicar at the instant `nowMs`; `readFails` is the store rejecting
     * the account lookup, `saveFails` the store rejecting the post.
     */
    method Publish(sess: Session, username: string, title: string, content: string, nowMs: int,
                   readFails: bool, saveFails: bool) returns (resp: Response)
      modifies this
      ensures users == old(users)
      ensures posts == old(posts) || posts == old(posts) + [Post(username, Encode(title), content, nowMs)]
      ensures posts == old(posts) + [Post(username, Encode(title), content, nowMs)] <==>
                !readFails && MayPublishAs(users, sess.user, username) && !saveFails
      ensures resp == NoResponse <==> readFails
      ensures resp == NotFound <==> !readFails && !MayPublishAs(users, sess.user, username)
      ensures resp == Redirect("/" + username) <==>
                !readFails && MayPublishAs(users, sess.user, username) && !saveFails
      ensures resp == FormError("publicar", "Error Registering User") <==>
                !readFails && MayPublishAs(users, sess.user, username) && saveFails
    {
      var slug := Encode(title);
      if readFails {
        return NoResponse;
      }
      var found := UserNamed(users, username);
      if found.None? {
        return NotFound;
      }
      if sess.user == Some(users[found.value].email) {
        if saveFails {
          resp := FormError("publicar", "Error Registering User");
        } else {
          posts := posts + [Post(username, slug, content, nowMs)];
          resp := Redirect("/" + username);
        }
      } else {
        return NotFound;
      }
    }
  }

  /** A newly stored account is the one a later `forEach` over its email ends on. */
  lemma StoredAccountIsLast(users: seq<User>, u: User)
    ensures LastUserWithEmail(users + [u], u.email) == Some(|users|)
    ensures UserWithEmail(users + [u], u.email).Some?
  {
    FirstAppend(users, u, HasEmail(u.email));
  }

  /**
   * A published post is found at its own address: the page shows it unless an
   * earlier post by the same user already has that slug, in which case the
   * earlier one wins.
   */
  lemma PublishedPostIsFound(posts: seq<Post>, username: string, title: string, content: string, date: int)
    ensures PostAt(posts + [Post(username, Encode(title), content, date)], username, Encode(title)) ==
              if PostAt(posts, username, Encode(title)).Some? then PostAt(posts, username, Encode(title))
              else Some(|posts|)
  {
    FirstAppend(posts, Post(username, Encode(title), content, date), AtAddress(username, Encode(title)));
  }

  /**
   * Publishing "a b" and then "a-b" stores both under "a-b"; that address shows
   * the first of them, titled "a b".
   */
  lemma FirstOfCollidingPostsWins(posts: seq<Post>, username: string, c1: string, c2: string, d1: int, d2: int)
    requires PostAt(posts, username, "a-b").None?
    ensures var stored := posts + [Post(username, Encode("a b"), c1, d1)] + [Post(username, Encode("a-b"), c2, d2)];
            && PostAt(stored, username, "a-b") == Some(|posts|)
            && stored[|posts|].content == c1
            && Decode(stored[|posts|].title) == "a b"
  {
    SpaceAndHyphenShareSlug();
    var once := posts + [Post(username, "a-b", c1, d1)];
    FirstAppend(posts, Post(username, "a-b", c1, d1), AtAddress(username, "a-b"));
    FirstAppend(once, Post(username, "a-b", c2, d2), AtAddress(username, "a-b"));
  }

  /** Publishing as another existing account is refused even with a valid session. */
  lemma CannotPublishAsAnother(users: seq<User>, me: string, username: string)
    requires UserNamed(users, username).Some?
    requires users[UserNamed(users, username).value].email != me
    ensures !MayPublishAs(users, Some(me), username)
  {
  }
}
