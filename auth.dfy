/** The request handlers of the web application that carry logic:
    registration, login, logout, and the session check on the home page. The
    user table is the store's; the session is the signed cookie dictionary
    the framework gives each request. Rendering, flashing messages and
    redirects are reduced to the outcome each handler reaches. */
module Auth {
  import opened Wrappers
  import opened Text
  import opened Credentials
  import opened Rows
  import opened Schema

  /** A value stored in the session dictionary. */
  datatype SessionValue = IntValue(n: int) | StrValue(s: string)

  type Session = map<string, SessionValue>

  const UserIdKey: string := "user_id"
  const UsernameKey: string := "username"

  /** Where `register` ends: the form is shown again with one of four
      messages, or the user is stored and sent to the login page. */
  datatype RegisterOutcome =
    | MissingField      // "Todos los campos son obligatorios."
    | PasswordMismatch  // "Las contraseñas no coinciden."
    | UsernameTaken     // "El nombre de usuario ya está en uso."
    | EmailTaken        // "El email ya está registrado."
    | Registered(user: User)

  /** Where `login` ends: unknown user (sent to register), wrong password
      (login form again), logged in (sent home), or an unhandled exception. */
  datatype LoginOutcome = UnknownUser | WrongPassword | LoggedIn(user: User) | Crashed

  /** Where `index` ends: no session (sent to login), a session whose user is
      gone (cleared, sent to login), or the home page for that user. */
  datatype IndexOutcome = NotLoggedIn | StaleSession | Dashboard(user: User)

  /** The filter of the duplicate query: same username or same email. */
  function ClashesWith(username: string, email: string): User -> bool {
    (u: User) => u.username == username || u.email == email
  }

  /** The filter of `filter_by(username=...)`. */
  function NamedAs(username: string): User -> bool {
    (u: User) => u.username == username
  }

  /** Both fields survive trimming, both passwords are given and they agree:
      the form gets past the two validation checks of `register`. */
  predicate FormAccepted(username: string, email: string, password: string, password2: string) {
    !AllSpace(username) && !AllSpace(email) && password != [] && password == password2
  }

  /** The decision `register` takes on a submitted form: trim the username,
      trim and lower-case the email, validate, then look for the first user
      with the same username or email; otherwise the row to store, with the
      password replaced by its salted hash. */
  function RegisterDecision(users: seq<User>, kdf: Kdf, salt: Salt, username: string,
                            email: string, password: string, password2: string): (r: RegisterOutcome)
    ensures r.Registered? ==>
              && FormAccepted(username, email, password, password2)
              && r.user.username == Strip(username) && r.user.email == NormalizeEmail(email)
              && CheckHash(kdf, r.user.passwordHash, password)
              && (forall u :: u in users ==> u.username != r.user.username && u.email != r.user.email)
  {
    var name := Strip(username);
    var mail := NormalizeEmail(email);
    if name == [] || mail == [] || password == [] || password2 == [] then MissingField
    else if password != password2 then PasswordMismatch
    else match FirstIndex(users, ClashesWith(name, mail))
      case Some(k) => if users[k].username == name then UsernameTaken else EmailTaken
      case None => Registered(NewUser(users, name, mail, GenerateHash(kdf, salt, password)))
  }

  /** A field that is empty after trimming, or an empty password, is
      refused before anything else is looked at. */
  lemma RegisterRejectsMissingField(users: seq<User>, kdf: Kdf, salt: Salt, username: string,
                                    email: string, password: string, password2: string)
    ensures RegisterDecision(users, kdf, salt, username, email, password, password2) == MissingField
            <==> AllSpace(username) || AllSpace(email) || password == [] || password2 == []
  {
  }

  /** Two different passwords are refused once every field is present. */
  lemma RegisterRejectsMismatch(users: seq<User>, kdf: Kdf, salt: Salt, username: string,
                                email: string, password: string, password2: string)
    ensures RegisterDecision(users, kdf, salt, username, email, password, password2) == PasswordMismatch
            <==> !AllSpace(username) && !AllSpace(email) && password != [] && password2 != []
                 && password != password2
  {
  }

  /** A valid form is refused as a duplicate exactly when some user has the
      trimmed username or the normalised email. */
  lemma RegisterRejectsDuplicate(users: seq<User>, kdf: Kdf, salt: Salt, username: string,
                                 email: string, password: string)
    requires FormAccepted(username, email, password, password)
    ensures var r := RegisterDecision(users, kdf, salt, username, email, password, password);
            (r == UsernameTaken || r == EmailTaken)
            <==> exists u :: u in users && (u.username == Strip(username) || u.email == NormalizeEmail(email))
  {
  }

  /** The username message is given exactly when some user has the username
      and no earlier user has the email; the query's first match decides. */
  lemma RegisterUsernameTaken(users: seq<User>, kdf: Kdf, salt: Salt, username: string,
                              email: string, password: string)
    requires FormAccepted(username, email, password, password)
    ensures var (name, mail) := (Strip(username), NormalizeEmail(email));
            RegisterDecision(users, kdf, salt, username, email, password, password) == UsernameTaken
            <==> exists i :: 0 <= i < |users| && users[i].username == name
                             && forall j :: 0 <= j < i ==> users[j].email != mail
  {
    var name, mail := Strip(username), NormalizeEmail(email);
    var first := FirstIndex(users, ClashesWith(name, mail));
    if first.Some? {
      var k := first.value;
      if exists i :: 0 <= i < |users| && users[i].username == name
                     && forall j :: 0 <= j < i ==> users[j].email != mail {
        var i :| 0 <= i < |users| && users[i].username == name
                 && forall j :: 0 <= j < i ==> users[j].email != mail;
        assert ClashesWith(name, mail)(users[i]);
        assert k < i ==> users[k].email != mail;
      }
      if users[k].username == name {
        assert forall j :: 0 <= j < k ==> !ClashesWith(name, mail)(users[j]);
      }
    } else {
      assert forall i :: 0 <= i < |users| ==> users[i] in users;
    }
  }

  /** The email message is given exactly when the first user with the
      username or the email has the email but another username. */
  lemma RegisterEmailTaken(users: seq<User>, kdf: Kdf, salt: Salt, username: string,
                           email: string, password: string)
    requires FormAccepted(username, email, password, password)
    ensures var (name, mail) := (Strip(username), NormalizeEmail(email));
            RegisterDecision(users, kdf, salt, username, email, password, password) == EmailTaken
            <==> exists i :: 0 <= i < |users| && users[i].email == mail && users[i].username != name
                             && forall j :: 0 <= j < i ==> users[j].username != name && users[j].email != mail
  {
    var name, mail := Strip(username), NormalizeEmail(email);
    var first := FirstIndex(users, ClashesWith(name, mail));
    if exists i :: 0 <= i < |users| && users[i].email == mail && users[i].username != name
                   && forall j :: 0 <= j < i ==> users[j].username != name && users[j].email != mail {
      var i :| 0 <= i < |users| && users[i].email == mail && users[i].username != name
               && forall j :: 0 <= j < i ==> users[j].username != name && users[j].email != mail;
      assert ClashesWith(name, mail)(users[i]);
    }
    if first.Some? {
      assert forall j :: 0 <= j < first.value ==> !ClashesWith(name, mail)(users[j]);
    }
  }

  /** In valid tables, a user that has both the username and the email gets
      the username message, never the email one. */
  lemma RegisterUsernameFirst(users: seq<User>, pets: seq<Pet>, tasks: seq<Task>, kdf: Kdf,
                              salt: Salt, username: string, email: string, password: string, k: nat)
    requires TablesValid(users, pets, tasks)
    requires FormAccepted(username, email, password, password)
    requires k < |users| && users[k].username == Strip(username) && users[k].email == NormalizeEmail(email)
    ensures RegisterDecision(users, kdf, salt, username, email, password, password) == UsernameTaken
  {
    forall j | 0 <= j < k ensures users[j].email != NormalizeEmail(email) {
      assert EmailsDiffer(users[j], users[k]);
    }
    RegisterUsernameTaken(users, kdf, salt, username, email, password);
  }

  /** An email that differs from a stored one only in letter case and in
      surrounding whitespace is a duplicate. */
  lemma RegisterRejectsEmailVariant(users: seq<User>, kdf: Kdf, salt: Salt, username: string,
                                    password: string, stored: User,
                                    pre1: string, x: string, post1: string,
                                    pre2: string, y: string, post2: string)
    requires FormAccepted(username, pre2 + y + post2, password, password)
    requires stored in users && stored.email == NormalizeEmail(pre1 + x + post1)
    requires AllSpace(pre1) && AllSpace(post1) && AllSpace(pre2) && AllSpace(post2)
    requires Lower(x) == Lower(y)
    ensures !RegisterDecision(users, kdf, salt, username, pre2 + y + post2, password, password).Registered?
  {
    EmailVariantsCollide(pre1, x, post1, pre2, y, post2);
    RegisterRejectsDuplicate(users, kdf, salt, username, pre2 + y + post2, password);
  }

  /** A registration that succeeds stores one new row: the trimmed username,
      the normalised email, the salted hash of the password (which accepts
      that password) and a fresh key; the constraints still hold. It
      succeeds exactly when the form is valid and neither the username nor
      the email is in use. */
  lemma RegisterStoresRow(users: seq<User>, pets: seq<Pet>, tasks: seq<Task>, kdf: Kdf, salt: Salt,
                          username: string, email: string, password: string, password2: string)
    requires TablesValid(users, pets, tasks)
    ensures var r := RegisterDecision(users, kdf, salt, username, email, password, password2);
            r.Registered? <==> (FormAccepted(username, email, password, password2)
                                && forall u :: u in users ==> u.username != Strip(username)
                                                              && u.email != NormalizeEmail(email))
    ensures var r := RegisterDecision(users, kdf, salt, username, email, password, password2);
            r.Registered? ==>
              && r.user.username == Strip(username)
              && r.user.email == NormalizeEmail(email)
              && r.user.passwordHash == GenerateHash(kdf, salt, password)
              && CheckHash(kdf, r.user.passwordHash, password)
              && (forall u :: u in users ==> u.id < r.user.id)
              && TablesValid(users + [r.user], pets, tasks)
  {
    var r := RegisterDecision(users, kdf, salt, username, email, password, password2);
    if r.Registered? {
      NextKeyFresh(users, UserKey, UserKeyBefore);
      InsertUserKeepsValid(users, pets, tasks, Strip(username), NormalizeEmail(email),
                           GenerateHash(kdf, salt, password));
    }
  }

  /** The decision `login` takes: the first user with the trimmed username;
      none is an unknown user, otherwise the stored hash decides. */
  function LoginDecision(users: seq<User>, kdf: Kdf, username: string, password: string): (r: LoginOutcome)
    ensures !r.Crashed?
    ensures r.LoggedIn? ==> r.user in users && r.user.username == Strip(username)
                            && CheckHash(kdf, r.user.passwordHash, password)
  {
    match FirstIndex(users, NamedAs(Strip(username)))
    case None => UnknownUser
    case Some(k) =>
      if CheckHash(kdf, users[k].passwordHash, password) then LoggedIn(users[k]) else WrongPassword
  }

  /** Login outcomes: unknown exactly when no user has the trimmed username;
      otherwise the first such user is the one whose password is checked. */
  lemma LoginOutcomes(users: seq<User>, kdf: Kdf, username: string, password: string)
    ensures var r := LoginDecision(users, kdf, username, password);
            r == UnknownUser <==> forall u :: u in users ==> u.username != Strip(username)
    ensures var r := LoginDecision(users, kdf, username, password);
            r != UnknownUser ==>
              exists k :: 0 <= k < |users| && users[k].username == Strip(username)
                          && (forall j :: 0 <= j < k ==> users[j].username != Strip(username))
                          && r == (if CheckHash(kdf, users[k].passwordHash, password)
                                   then LoggedIn(users[k]) else WrongPassword)
    ensures !LoginDecision(users, kdf, username, password).Crashed?
  {
    var first := FirstIndex(users, NamedAs(Strip(username)));
    if first.Some? {
      assert forall j :: 0 <= j < first.value ==> !NamedAs(Strip(username))(users[j]);
    }
  }

  /** A user who has just registered can log in with the same username
      (however it is padded) and password, and with no other password. */
  lemma RegisterThenLogin(users: seq<User>, kdf: Kdf, salt: Salt, username: string, email: string,
                          password: string, password2: string, u: User, username2: string, attempt: string)
    requires CollisionFree(kdf)
    requires RegisterDecision(users, kdf, salt, username, email, password, password2) == Registered(u)
    requires Strip(username2) == Strip(username)
    ensures LoginDecision(users + [u], kdf, username2, attempt)
            == if attempt == password then LoggedIn(u) else WrongPassword
  {
    var name := Strip(username);
    assert forall y :: y in users ==> !NamedAs(name)(y) by {
      assert FirstIndex(users, ClashesWith(name, NormalizeEmail(email))).None?;
    }
    FirstIndexAppended(users, u, NamedAs(name));
    CheckGeneratedHash(kdf, salt, password, attempt);
  }

  /** The session a successful login leaves: exactly the user's key and
      username. */
  function SessionFor(u: User): (s: Session)
    ensures s.Keys == {UserIdKey, UsernameKey}
    ensures s[UserIdKey] == IntValue(u.id) && s[UsernameKey] == StrValue(u.username)
  {
    map[UserIdKey := IntValue(u.id), UsernameKey := StrValue(u.username)]
  }

  /** `User.query.get(session['user_id'])`. */
  function SessionUser(users: seq<User>, v: SessionValue): (r: Option<User>)
    ensures r.Some? ==> r.value in users && v == IntValue(r.value.id)
    ensures r.None? <==> !(v.IntValue? && v.n >= 0 && HasUser(users, v.n))
  {
    match v
    case IntValue(n) => if n >= 0 then FindUser(users, n) else None
    case StrValue(_) => None
  }

  /** The decision `index` takes on the session it is given. */
  function IndexDecision(users: seq<User>, session: Session): (r: IndexOutcome)
    ensures r == NotLoggedIn <==> UserIdKey !in session
    ensures r == StaleSession <==>
              UserIdKey in session && var v := session[UserIdKey];
              !(v.IntValue? && v.n >= 0 && HasUser(users, v.n))
    ensures r.Dashboard? ==> r.user in users && session[UserIdKey] == IntValue(r.user.id)
  {
    if UserIdKey !in session then NotLoggedIn
    else match SessionUser(users, session[UserIdKey])
      case Some(u) => Dashboard(u)
      case None => StaleSession
  }

  /** After a successful login the home page shows the user who logged in. */
  lemma LoginThenIndex(users: seq<User>, pets: seq<Pet>, tasks: seq<Task>, kdf: Kdf,
                       username: string, password: string, u: User)
    requires TablesValid(users, pets, tasks)
    requires LoginDecision(users, kdf, username, password) == LoggedIn(u)
    ensures IndexDecision(users, SessionFor(u)) == Dashboard(u)
  {
    LoginOutcomes(users, kdf, username, password);
    FindUserByKey(users, u);
  }

  /** Once a user is deleted, with its pet and tasks, the session that user
      held is stale: the home page clears it. */
  lemma DeletedUserSessionIsStale(users: seq<User>, pets: seq<Pet>, tasks: seq<Task>, u: User)
    requires TablesValid(users, pets, tasks) && u in users
    ensures IndexDecision(UsersOtherThan(users, u.id), SessionFor(u)) == StaleSession
  {
    DeleteCascade(users, pets, tasks, u.id);
  }

  /** `login` as written: after `session.clear()` it reads `user.id`, an
      attribute the user model does not have (its key is `id_user`), so a
      correct password ends in an exception. */
  function LoginAsWrittenDecision(users: seq<User>, kdf: Kdf, username: string, password: string): (r: LoginOutcome)
    ensures !r.LoggedIn?
    ensures !r.Crashed? ==> r == LoginDecision(users, kdf, username, password)
  {
    var d := LoginDecision(users, kdf, username, password);
    if d.LoggedIn? then Crashed else d
  }

  /** As written, `login` never logs anyone in: where the corrected handler
      succeeds it raises instead. */
  lemma LoginAsWrittenNeverLogsIn(users: seq<User>, kdf: Kdf, username: string, password: string)
    ensures !LoginAsWrittenDecision(users, kdf, username, password).LoggedIn?
    ensures LoginAsWrittenDecision(users, kdf, username, password) == Crashed
            <==> LoginDecision(users, kdf, username, password).LoggedIn?
  {
  }

  /** As written, a user who has just registered and gives the right
      password is not logged in. */
  lemma RegisteredUserCannotLogIn(users: seq<User>, kdf: Kdf, salt: Salt, username: string,
                                  email: string, password: string, u: User)
    requires CollisionFree(kdf)
    requires RegisterDecision(users, kdf, salt, username, email, password, password) == Registered(u)
    ensures LoginAsWrittenDecision(users + [u], kdf, username, password) == Crashed
  {
    RegisterThenLogin(users, kdf, salt, username, email, password, password, u, username, password);
  }

  /** The concrete case: user "ana" with password "pw123" logs in under the
      corrected handler, while the handler as written raises and leaves the
      cleared session, with which the home page sends her back to login. */
  lemma LoginAsWrittenCounterexample(kdf: Kdf)
    ensures var users := [User(1, "ana", "ana@x.com", GenerateHash(kdf, 0, "pw123"))];
            && LoginDecision(users, kdf, "ana", "pw123") == LoggedIn(users[0])
            && LoginAsWrittenDecision(users, kdf, "ana", "pw123") == Crashed
            && IndexDecision(users, map[]) == NotLoggedIn
  {
    StripOfTrimmed("ana");
  }

  /** The application: the store behind it, the password hashing it was
      configured with, and the session of the current request. */
  class App {
    const db: Store
    const kdf: Kdf
    var session: Session

    ghost predicate Valid()
      reads this, db
    {
      db.Valid()
    }

    constructor (db: Store, kdf: Kdf)
      requires db.Valid()
      ensures Valid() && this.db == db && this.kdf == kdf && session == map[]
    {
      this.db := db;
      this.kdf := kdf;
      session := map[];
    }

    /** `register` on a POSTed form; `salt` stands for the randomness of
        `generate_password_hash`. At most one user row is added and the
        session is not touched. */
    method Register(username: string, email: string, password: string, password2: string, salt: Salt)
      returns (r: RegisterOutcome)
      requires Valid()
      modifies db
      ensures Valid()
      ensures r == RegisterDecision(old(db.users), kdf, salt, username, email, password, password2)
      ensures db.users == if r.Registered? then old(db.users) + [r.user] else old(db.users)
      ensures db.pets == old(db.pets) && db.tasks == old(db.tasks)
      ensures session == old(session)
    {
      var name := Strip(username);
      var mail := NormalizeEmail(email);
      if name == [] || mail == [] || password == [] || password2 == [] {
        return MissingField;
      }
      if password != password2 {
        return PasswordMismatch;
      }
      var existing := FirstIndex(db.users, ClashesWith(name, mail));
      if existing.Some? {
        if db.users[existing.value].username == name {
          return UsernameTaken;
        }
        return EmailTaken;
      }
      var hash := GenerateHash(kdf, salt, password);
      var inserted := db.InsertUser(name, mail, hash);
      if inserted.Failure? {
        assert false;
      }
      r := Registered(inserted.value);
    }

    /** `login`, corrected to store the user's key `id_user`: on success the
        session is cleared and then holds exactly the key and the username;
        otherwise it is left as it was. */
    method Login(username: string, password: string) returns (r: LoginOutcome)
      requires Valid()
      modifies this
      ensures Valid()
      ensures r == LoginDecision(db.users, kdf, username, password)
      ensures session == if r.LoggedIn? then SessionFor(r.user) else old(session)
    {
      var found := FirstIndex(db.users, NamedAs(Strip(username)));
      if found.None? {
        return UnknownUser;
      }
      var user := db.users[found.value];
      if CheckHash(kdf, user.passwordHash, password) {
        session := map[];
        session := session[UserIdKey := IntValue(user.id)];
        session := session[UsernameKey := StrValue(user.username)];
        return LoggedIn(user);
      }
      r := WrongPassword;
    }

    /** `login` as written: on a correct password the session is cleared and
        then reading `user.id` raises, so nothing is stored in it. */
    method LoginAsWritten(username: string, password: string) returns (r: LoginOutcome)
      requires Valid()
      modifies this
      ensures Valid()
      ensures r == LoginAsWrittenDecision(db.users, kdf, username, password)
      ensures session == if r.Crashed? then map[] else old(session)
    {
      var found := FirstIndex(db.users, NamedAs(Strip(username)));
      if found.None? {
        return UnknownUser;
      }
      var user := db.users[found.value];
      if CheckHash(kdf, user.passwordHash, password) {
        session := map[];
        return Crashed;
      }
      r := WrongPassword;
    }

    /** `logout`: the session is emptied whatever it held, so logging out
        again leaves it as the first time did. */
    method Logout()
      requires Valid()
      modifies this
      ensures Valid()
      ensures session == map[]
    {
      session := map[];
    }

    /** `index`: without a `user_id` nothing changes; with one that names no
        user the session is emptied; otherwise the user's page. */
    method Index() returns (r: IndexOutcome)
      requires Valid()
      modifies this
      ensures Valid()
      ensures r == IndexDecision(db.users, old(session))
      ensures session == if r.StaleSession? then map[] else old(session)
    {
      if UserIdKey !in session {
        return NotLoggedIn;
      }
      var user := SessionUser(db.users, session[UserIdKey]);
      if user.None? {
        session := map[];
        return StaleSession;
      }
      r := Dashboard(user.value);
    }
  }

  /** The form fields of the scenario below, trimmed and normalised. */
  lemma ScenarioNames()
    ensures Strip("ana") == "ana" && Strip("bob") == "bob"
  {
    StripOfTrimmed("ana");
    StripOfTrimmed("bob");
  }

  lemma ScenarioPaddedEmailStripped()
    ensures Strip("Ana@X.com ") == "Ana@X.com"
  {
    StripIgnoresPadding("", "Ana@X.com", " ");
    assert "" + "Ana@X.com" + " " == "Ana@X.com ";
    StripOfTrimmed("Ana@X.com");
  }

  lemma ScenarioPaddedEmail()
    ensures NormalizeEmail("Ana@X.com ") == "ana@x.com"
  {
    ScenarioPaddedEmailStripped();
    assert Lower("Ana@X.com") == "ana@x.com";
  }

  lemma ScenarioUpperEmail()
    ensures NormalizeEmail("ANA@x.com") == "ana@x.com"
  {
    StripOfTrimmed("ANA@x.com");
  }

  /** What `register` decides for the two forms of the scenario below. */
  lemma ScenarioRegistrations(kdf: Kdf)
    ensures var ana := User(1, "ana", "ana@x.com", GenerateHash(kdf, 7, "pw123"));
            && RegisterDecision([], kdf, 7, "ana", "Ana@X.com ", "pw123", "pw123") == Registered(ana)
            && RegisterDecision([ana], kdf, 8, "bob", "ANA@x.com", "pw", "pw") == EmailTaken
  {
    ScenarioNames();
    ScenarioPaddedEmail();
    ScenarioUpperEmail();
    var ana := User(1, "ana", "ana@x.com", GenerateHash(kdf, 7, "pw123"));
    assert FirstIndex([ana], ClashesWith("bob", "ana@x.com")) == Some(0);
  }

  /** A client of the handlers, proved from their contracts alone. With
      "ana" registered (as `ScenarioRegistrations` decides), the login as
      written leaves her logged out, and the corrected login reaches her
      home page. */
  method LoginScenario(app: App, ana: User)
    requires app.Valid() && app.db.users == [ana] && app.session == map[]
    requires ana.username == "ana" && ana.passwordHash == GenerateHash(app.kdf, 7, "pw123")
    modifies app, app.db
  {
    ScenarioNames();
    var asWritten := app.LoginAsWritten("ana", "pw123");
    assert asWritten == Crashed;
    var page := app.Index();
    assert page == NotLoggedIn;

    var login := app.Login("ana", "pw123");
    assert login == LoggedIn(ana);
    LoginThenIndex(app.db.users, app.db.pets, app.db.tasks, app.kdf, "ana", "pw123", ana);
    page := app.Index();
    assert page == Dashboard(ana);
    DeleteAccountScenario(app, ana);
  }

  /** Continuing with a logged-in user: deleting the account makes the
      session stale, `index` clears it, and logging out twice leaves it
      empty. */
  method DeleteAccountScenario(app: App, u: User)
    requires app.Valid() && u in app.db.users && app.session == SessionFor(u)
    modifies app, app.db
  {
    var found := app.db.DeleteUser(u.id);
    assert found;
    var page := app.Index();
    assert page == StaleSession && app.session == map[];
    app.Logout();
    app.Logout();
    assert app.session == map[];
  }
}
