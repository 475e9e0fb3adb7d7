/**
 * The user resolver over an in-memory user table and the request's session.
 * argon2's hash and verify are parameters about which nothing is assumed,
 * the uuid token is an input, and sent mail is appended to an outbox.
 */
module UserResolver {
  import opened Common
  import opened Context
  import opened Validation

  /** A user row; `password` holds whatever the hash function produced. */
  datatype User = User(id: int, username: string, email: string, password: string)

  /** Either `errors` or `user` is set (class UserResponse). */
  datatype UserResponse = UserResponse(errors: Option<seq<FieldError>>, user: Option<User>)

  /** One call of `sendEmail(to, html)`. */
  datatype Mail = Mail(to: string, html: string)

  /** The `where` object of an `em.findOne(User, ...)` call. */
  datatype Query = ByEmail(email: string) | ByUsername(username: string)

  predicate Matches(u: User, q: Query)
  {
    match q
    case ByEmail(e) => u.email == e
    case ByUsername(n) => u.username == n
  }

  /** `login` looks an identifier containing '@' up by email, anything else by username. */
  function LoginQuery(usernameOrEmail: string): (q: Query)
    ensures q.ByEmail? <==> '@' in usernameOrEmail
    ensures forall u: User :: Matches(u, q) <==>
              if '@' in usernameOrEmail then u.email == usernameOrEmail else u.username == usernameOrEmail
  {
    if '@' in usernameOrEmail then ByEmail(usernameOrEmail) else ByUsername(usernameOrEmail)
  }

  const UsernameTaken := FieldError("username", "username already taken")
  const UnknownUser := FieldError("usernameOrEmail", "username/email doesn't exist")
  const IncorrectPassword := FieldError("password", "incorrect password")

  /** The insert violates the unique constraint on username or on email (code 23505). */
  predicate Taken(users: map<int, User>, username: string, email: string)
  {
    exists id :: id in users && (users[id].username == username || users[id].email == email)
  }

  /** No two rows share a username, and no two share an email (User.ts declares both unique). */
  ghost predicate UniqueColumns(users: map<int, User>)
  {
    forall i, j :: i in users && j in users && i != j ==>
      users[i].username != users[j].username && users[i].email != users[j].email
  }

  /**
   * The unique-violation condition is exact: adding a row under a new key
   * keeps both columns unique iff neither its username nor its email is taken.
   */
  lemma TakenIffInsertBreaksUniqueness(users: map<int, User>, u: User)
    requires UniqueColumns(users) && u.id !in users
    ensures !Taken(users, u.username, u.email) <==> UniqueColumns(users[u.id := u])
  {
    if Taken(users, u.username, u.email) {
      var id :| id in users && (users[id].username == u.username || users[id].email == u.email);
      var after := users[u.id := u];
      assert id in after && u.id in after && id != u.id && after[id] == users[id] && after[u.id] == u;
    }
  }

  const ResetLinkPrefix: string := "<a href=\"http://localhost:3000/change-password/"
  const ResetLinkSuffix: string := "\">reset password </a>"

  /** The body of the reset mail: a link whose last path segment is the token. */
  function ResetLink(token: string): (html: string)
    ensures |html| == |ResetLinkPrefix| + |token| + |ResetLinkSuffix|
    ensures html[..|ResetLinkPrefix|] == ResetLinkPrefix
    ensures html[|ResetLinkPrefix|..|ResetLinkPrefix| + |token|] == token
    ensures html[|ResetLinkPrefix| + |token|..] == ResetLinkSuffix
  {
    ResetLinkPrefix + token + ResetLinkSuffix
  }

  /** Different tokens give different links, so the link identifies its token. */
  lemma ResetLinkInjective(t1: string, t2: string)
    requires ResetLink(t1) == ResetLink(t2)
    ensures t1 == t2
  {
    assert |t1| == |t2|;
    assert t1 == ResetLink(t1)[|ResetLinkPrefix|..|ResetLinkPrefix| + |t1|];
  }

  class UserStore {
    /** The user table, keyed by primary key. */
    var users: map<int, User>
    /** The next value of the serial primary-key sequence. */
    var nextId: int
    /** The session of the current request. */
    var session: Session
    /** Every mail handed to `sendEmail`, oldest first. */
    var outbox: seq<Mail>

    /**
     * Keys are positive serial ids below `nextId` and agree with the rows'
     * ids; username and email are each unique (User.ts declares both unique).
     */
    ghost predicate Valid()
      reads this
    {
      && nextId >= 1
      && (forall id :: id in users ==> 1 <= id < nextId && users[id].id == id)
      && UniqueColumns(users)
    }

    constructor ()
      ensures Valid()
      ensures users == map[] && session == Session(None) && outbox == []
    {
      users := map[];
      nextId := 1;
      session := Session(None);
      outbox := [];
    }

    /** `em.findOne(User, q)`: the one row matching `q`, or nothing. */
    method FindOne(q: Query) returns (u: Option<User>)
      requires Valid()
      ensures u.Some? ==> u.value.id in users && users[u.value.id] == u.value && Matches(u.value, q)
      ensures u.Some? ==> forall id :: id in users && Matches(users[id], q) ==> id == u.value.id
      ensures u.None? ==> forall id :: id in users ==> !Matches(users[id], q)
    {
      if exists id :: id in users && Matches(users[id], q) {
        var id :| id in users && Matches(users[id], q);
        u := Some(users[id]);
      } else {
        u := None;
      }
    }

    /**
     * `forgotPassword`: always answers true; mails a reset link embedding
     * `token` only when some user has that email. Only the outbox changes.
     */
    method ForgotPassword(email: string, token: string) returns (ok: bool)
      requires Valid()
      modifies this`outbox
      ensures Valid()
      ensures ok
      ensures (exists id :: id in users && users[id].email == email) ==>
                outbox == old(outbox) + [Mail(email, ResetLink(token))]
      ensures (forall id :: id in users ==> users[id].email != email) ==> outbox == old(outbox)
    {
      var user := FindOne(ByEmail(email));
      if user.None? {
        return true;
      }
      outbox := outbox + [Mail(email, ResetLink(token))];
      assert users[user.value.id].email == email;
      ok := true;
    }

    /** `me`: nothing without a truthy session id, else the row with that id if any. */
    method Me() returns (u: Option<User>)
      requires Valid()
      ensures !HasUserId(session) ==> u == None
      ensures HasUserId(session) && session.userId.value in users ==> u == Some(users[session.userId.value])
      ensures HasUserId(session) && session.userId.value !in users ==> u == None
    {
      if !HasUserId(session) {
        return None;
      }
      var id := session.userId.value;
      u := if id in users then Some(users[id]) else None;
    }

    /**
     * `register`: validation errors come back unchanged; otherwise the insert
     * either clashes on username or email (reported as "username already
     * taken") or adds exactly one row holding `hash(options.password)`. The
     * serial sequence advances on every insert attempt, failed ones included.
     */
    method Register(options: UsernamePasswordInput, hash: string -> string) returns (r: UserResponse)
      requires Valid()
      modifies this`users, this`nextId
      ensures Valid()
      ensures ValidateRegister(options).Some? ==>
                r == UserResponse(ValidateRegister(options), None) && users == old(users) && nextId == old(nextId)
      ensures ValidateRegister(options).None? && Taken(old(users), options.username, options.email) ==>
                r == UserResponse(Some([UsernameTaken]), None) && users == old(users)
      ensures ValidateRegister(options).None? && !Taken(old(users), options.username, options.email) ==>
                var u := User(old(nextId), options.username, options.email, hash(options.password));
                && old(nextId) !in old(users)
                && users == old(users)[old(nextId) := u]
                && r == UserResponse(None, Some(u))
    {
      var errors := ValidateRegister(options);
      if errors.Some? {
        return UserResponse(errors, None);
      }
      var hashedPassword := hash(options.password);
      var user := User(nextId, options.username, options.email, hashedPassword);
      nextId := nextId + 1;
      if Taken(users, options.username, options.email) {
        return UserResponse(Some([UsernameTaken]), None);
      }
      users := users[user.id := user];
      r := UserResponse(None, Some(user));
    }

    /**
     * `login`: no matching row, or a password that `verify` rejects against
     * the stored hash, each give their own field error and leave the session
     * alone; otherwise the session is bound to the user, who is returned.
     */
    method Login(usernameOrEmail: string, password: string, verify: (string, string) -> bool)
      returns (r: UserResponse)
      requires Valid()
      modifies this`session
      ensures Valid()
      ensures (forall id :: id in users ==> !Matches(users[id], LoginQuery(usernameOrEmail))) ==>
                r == UserResponse(Some([UnknownUser]), None) && session == old(session)
      ensures forall id :: id in users && Matches(users[id], LoginQuery(usernameOrEmail)) ==>
                if verify(users[id].password, password) then
                  r == UserResponse(None, Some(users[id])) && session == Session(Some(id)) && HasUserId(session)
                else
                  r == UserResponse(Some([IncorrectPassword]), None) && session == old(session)
    {
      var user := FindOne(LoginQuery(usernameOrEmail));
      if user.None? {
        return UserResponse(Some([UnknownUser]), None);
      }
      var valid := verify(user.value.password, password);
      if !valid {
        return UserResponse(Some([IncorrectPassword]), None);
      }
      session := Session(Some(user.value.id));
      r := UserResponse(None, Some(user.value));
    }

    /**
     * `logout`: false exactly when the session store reports an error on
     * destroy. The cookie is cleared either way, so the request's session no
     * longer carries a user.
     */
    method Logout(destroyFailed: bool) returns (ok: bool)
      requires Valid()
      modifies this`session
      ensures Valid()
      ensures ok == !destroyFailed
      ensures session == Session(None)
    {
      session := Session(None);
      ok := !destroyFailed;
    }
  }

  /**
   * A fresh registration followed by a login with the same username and
   * password logs the new user in, given only that `verify` accepts a
   * password against its own hash.
   */
  method RegisterThenLogin(store: UserStore, options: UsernamePasswordInput,
                           hash: string -> string, verify: (string, string) -> bool)
    returns (registered: UserResponse, loggedIn: UserResponse)
    requires store.Valid()
    requires Acceptable(options) && !Taken(store.users, options.username, options.email)
    requires verify(hash(options.password), options.password)
    modifies store
    ensures registered.user.Some? && loggedIn == registered
    ensures store.session == Session(Some(registered.user.value.id))
  {
    registered := store.Register(options, hash);
    var u := registered.user.value;
    assert store.users[u.id] == u && Matches(u, LoginQuery(options.username));
    loggedIn := store.Login(options.username, options.password, verify);
  }

  /** After a successful login, `me` answers with the user who logged in. */
  method LoginThenMe(store: UserStore, usernameOrEmail: string, password: string,
                     verify: (string, string) -> bool)
    returns (loggedIn: UserResponse, me: Option<User>)
    requires store.Valid()
    modifies store
    ensures loggedIn.user.Some? ==> me == loggedIn.user
    ensures loggedIn.user.None? ==> store.session == old(store.session)
  {
    loggedIn := store.Login(usernameOrEmail, password, verify);
    if loggedIn.user.Some? {
      assert exists id :: id in store.users && Matches(store.users[id], LoginQuery(usernameOrEmail));
    }
    me := store.Me();
  }
}
