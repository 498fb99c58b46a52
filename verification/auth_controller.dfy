/** The authentication handlers: `register`, `login`, `updateDetails`, `updatePassword` and
    `refresh`. bcrypt is the pair of functions in `Crypto`; signing and verifying tokens are the
    `Token` constructors and `Verify` of the user model. */
module AuthController {
  import opened Results
  import opened Text
  import opened Store
  import opened UserModel
  import opened EmailPattern

  const CreatedMessage: string := "User created successfully"
  const MissingCredentials: string := "Please provide email and password"
  const InvalidCredentials: string := "Invalid credentials"
  const LoggedInMessage: string := "User logged in successfully"
  const DetailsUpdatedMessage: string := "User details updated successfully"
  const PasswordUpdatedMessage: string := "User password updated successfully"
  const MissingRefreshToken: string := "Please provide refresh token"
  const InvalidRefreshToken: string := "Invalid refresh token"
  /** What bcrypt's `compare` rejects with when the plain-text argument is `undefined`. */
  const IllegalArguments: string := "Illegal arguments: undefined, string"

  /** bcrypt: `hash` (salt included) and `compare(plain, hash)`. */
  datatype Crypto = Crypto(hash: string -> string, compare: (string, string) -> bool)

  datatype RegisterReply = RegisterReply(user: UserJson, token: Token)
  datatype LoginReply = LoginReply(user: UserJson, token: Token, refresh: Token)
  datatype RefreshReply = RefreshReply(key: Token, refresh: Token)

  // ---- lookups ----

  /** `User.findById(id)`. */
  function UserById(users: seq<User>, id: UserId): (r: Option<User>)
    ensures r.Some? ==> r.value in users && r.value.id == id
    ensures r.None? <==> forall v | v in users :: v.id != id
  {
    match FindFirst(users, UserWithId(id))
    case Some(i) => Some(users[i])
    case None =>
      assert forall v | v in users :: v.id != id by {
        forall v | v in users ensures v.id != id {
          var j :| 0 <= j < |users| && users[j] == v;
          assert !UserWithId(id)(users[j]);
        }
      }
      None
  }

  /** `User.findOne({ email })`; the schema's `trim` setter also applies to the filter value. */
  function UserByEmail(users: seq<User>, email: string): (r: Option<User>)
    ensures r.Some? ==> r.value in users && r.value.email == Trim(email)
    ensures r.None? <==> forall v | v in users :: v.email != Trim(email)
  {
    match FindFirst(users, UserWithEmail(Trim(email)))
    case Some(i) => Some(users[i])
    case None =>
      assert forall v | v in users :: v.email != Trim(email) by {
        forall v | v in users ensures v.email != Trim(email) {
          var j :| 0 <= j < |users| && users[j] == v;
          assert !UserWithEmail(Trim(email))(users[j]);
        }
      }
      None
  }

  // ---- register ----

  /** The document `User.create(body)` builds from a valid body: trimmed text fields, the role
      or its default, and a fresh id. The password is still plain text here. */
  function NewUser(users: seq<User>, b: UserBody): (u: User)
    ensures forall v | v in users :: v.id != u.id
    ensures Complete(b) ==>
              && u.firstName == Trim(b.firstName.value) && u.lastName == Trim(b.lastName.value)
              && u.email == Trim(b.email.value) && u.username == Trim(b.username.value)
              && u.password == b.password.value
              && u.role == if b.role.Some? then ParseRole(b.role.value).value else DefaultRole
  {
    var id := FreshId(users, UserKey);
    assert forall v | v in users :: v.id != id by {
      forall v | v in users ensures v.id != id {
        var j :| 0 <= j < |users| && users[j] == v;
        assert UserKey(users[j]) < id;
      }
    }
    User(id, Trim(b.firstName.GetOr("")), Trim(b.lastName.GetOr("")), Trim(b.email.GetOr("")),
         Trim(b.username.GetOr("")), b.password.GetOr(""),
         if b.role.Some? && ParseRole(b.role.value).Some? then ParseRole(b.role.value).value else DefaultRole)
  }

  /** `register`: validation, then the save hook hashes the password, then the unique indexes;
      on success 201 with the user's JSON view and an access token. */
  function Register(db: Db, b: UserBody, crypto: Crypto): (s: Step<RegisterReply>)
    ensures UserErrors(b) != [] ==> s == Step(db, Err(Invalid(PathNames(UserErrors(b)))))
    ensures s.out.Err? ==> s.db == db
    ensures s.out.Ok? ==> UserErrors(b) == []
    ensures UserErrors(b) == [] ==>
              var u := SaveHook(NewUser(db.users, b), true, crypto.hash);
              match IndexViolation(db.users, u)
              case Some(path) => s == Step(db, Err(DuplicateKey(path)))
              case None => s == Step(db.(users := db.users + [u]), Ok(Reply(201, CreatedMessage, RegisterReply(ToJson(u), AccessToken(u)))))
  {
    var errors := UserErrors(b);
    if errors != [] then Step(db, Err(Invalid(PathNames(errors))))
    else
      var u := SaveHook(NewUser(db.users, b), true, crypto.hash);
      match IndexViolation(db.users, u)
      case Some(path) => Step(db, Err(DuplicateKey(path)))
      case None => Step(db.(users := db.users + [u]), Ok(Reply(201, CreatedMessage, RegisterReply(ToJson(u), AccessToken(u)))))
  }

  /** Registering keeps ids, e-mails and usernames unique. */
  lemma RegisterKeepsUniqueKeys(db: Db, b: UserBody, crypto: Crypto)
    requires UniqueKeys(db.users)
    ensures UniqueKeys(Register(db, b, crypto).db.users)
  {
    var s := Register(db, b, crypto);
    if s.out.Ok? {
      var u := SaveHook(NewUser(db.users, b), true, crypto.hash);
      assert IndexViolation(db.users, u).None?;
      AppendKeepsUniqueKeys(db.users, u);
    }
  }

  /** Appending a user with a fresh id that violates no index keeps the keys unique. */
  lemma AppendKeepsUniqueKeys(users: seq<User>, u: User)
    requires UniqueKeys(users)
    requires forall v | v in users :: v.id != u.id
    requires IndexViolation(users, u).None?
    ensures UniqueKeys(users + [u])
  {
    var us := users + [u];
    forall i, j | 0 <= i < j < |us|
      ensures us[i].id != us[j].id && us[i].email != us[j].email && us[i].username != us[j].username
    {
      if j == |users| {
        assert us[i] in users;
      }
    }
  }

  // ---- login ----

  /** `login`: 400 before any lookup when either credential is missing or empty; the same 401
      for an unknown e-mail and for a wrong password; 200 with the JSON view and both tokens. */
  function Login(db: Db, email: Option<string>, password: Option<string>, crypto: Crypto): (s: Step<LoginReply>)
    ensures s.db == db
    ensures (email.None? || email.value == [] || password.None? || password.value == [])
            ==> s.out == Err(Thrown(400, MissingCredentials))
    ensures (email.Some? && email.value != [] && password.Some? && password.value != [])
            ==> match UserByEmail(db.users, email.value)
                case None => s.out == Err(Thrown(401, InvalidCredentials))
                case Some(u) =>
                  if crypto.compare(password.value, u.password)
                  then s.out == Ok(Reply(200, LoggedInMessage, LoginReply(ToJson(u), AccessToken(u), RefreshToken(u))))
                  else s.out == Err(Thrown(401, InvalidCredentials))
  {
    if email.None? || email.value == [] || password.None? || password.value == [] then
      Step(db, Err(Thrown(400, MissingCredentials)))
    else match UserByEmail(db.users, email.value)
      case None => Step(db, Err(Thrown(401, InvalidCredentials)))
      case Some(u) =>
        if !crypto.compare(password.value, u.password) then Step(db, Err(Thrown(401, InvalidCredentials)))
        else Step(db, Ok(Reply(200, LoggedInMessage, LoginReply(ToJson(u), AccessToken(u), RefreshToken(u)))))
  }

  /** A user who has just registered can log in with the same e-mail and password, provided
      bcrypt's `compare` accepts a password against its own hash. */
  lemma RegisterThenLogin(db: Db, b: UserBody, crypto: Crypto)
    requires Register(db, b, crypto).out.Ok?
    requires b.password.Some? && crypto.compare(b.password.value, crypto.hash(b.password.value))
    ensures var s := Register(db, b, crypto);
            Login(s.db, b.email, b.password, crypto).out.Ok?
  {
    ErrorFreeIsComplete(b);
    var u := SaveHook(NewUser(db.users, b), true, crypto.hash);
    assert IndexViolation(db.users, u).None?;
    LoginAppended(db, u, b.email.value, b.password.value, crypto);
  }

  /** Logging in as a user just appended, whose e-mail nobody else has, with a password that
      `compare` accepts against the stored hash succeeds. */
  lemma LoginAppended(db: Db, u: User, email: string, password: string, crypto: Crypto)
    requires u.email == Trim(email) && email != [] && password != []
    requires forall v | v in db.users :: v.email != u.email
    requires crypto.compare(password, u.password)
    ensures Login(db.(users := db.users + [u]), Some(email), Some(password), crypto).out.Ok?
  {
    UserByEmailAppended(db.users, u, email);
  }

  /** An appended user whose e-mail nobody else has is what the e-mail lookup finds. */
  lemma UserByEmailAppended(users: seq<User>, u: User, email: string)
    requires u.email == Trim(email)
    requires forall v | v in users :: v.email != u.email
    ensures UserByEmail(users + [u], email) == Some(u)
  {
    var us := users + [u];
    assert UserWithEmail(Trim(email))(us[|users|]);
    assert forall j | 0 <= j < |users| :: us[j] in users;
  }

  // ---- updateDetails ----

  /** The keys `updateDetails` copies from the body: first name, last name and e-mail. */
  function Whitelist(b: UserBody): (w: UserBody)
    ensures w.username.None? && w.password.None? && w.role.None?
    ensures w.firstName == b.firstName && w.lastName == b.lastName && w.email == b.email
  {
    UserBody(b.firstName, b.lastName, b.email, None, None, None)
  }

  /** A key is present in an update: `undefined` keys are dropped before the update is sent. */
  predicate Present(b: UserBody, p: UserPath) {
    match p
    case FirstNamePath => b.firstName.Some?
    case LastNamePath => b.lastName.Some?
    case EmailPath => b.email.Some?
    case UsernamePath => b.username.Some?
    case PasswordPath => b.password.Some?
    case RolePath => b.role.Some?
  }

  function FailsInUpdate(b: UserBody): UserPath -> bool {
    (p: UserPath) => Present(b, p) && Fails(b, p)
  }

  /** The update validators (`runValidators: true`) check only the keys present in the update. */
  function UpdateValidationErrors(w: UserBody): (paths: seq<UserPath>)
    ensures forall p: UserPath :: p in paths <==> Present(w, p) && Fails(w, p)
  {
    var paths := Filter(AllUserPaths, FailsInUpdate(w));
    assert forall p: UserPath :: p in paths <==> Present(w, p) && Fails(w, p) by {
      forall p: UserPath ensures p in paths <==> Present(w, p) && Fails(w, p) {
        assert AllUserPaths[PathIndex(p)] == p;
      }
    }
    paths
  }

  /** The user after `$set` of every present key, through the `trim` setters. An update query
      does not run the save hook, so a password in the update would be stored as sent. */
  function ApplySet(u: User, w: UserBody): (v: User)
    ensures v.id == u.id
    ensures v.firstName == if w.firstName.Some? then Trim(w.firstName.value) else u.firstName
    ensures v.lastName == if w.lastName.Some? then Trim(w.lastName.value) else u.lastName
    ensures v.email == if w.email.Some? then Trim(w.email.value) else u.email
    ensures v.username == if w.username.Some? then Trim(w.username.value) else u.username
    ensures v.password == w.password.GetOr(u.password)
    ensures w.role.None? ==> v.role == u.role
    ensures w.role.Some? && ParseRole(w.role.value).Some? ==> v.role == ParseRole(w.role.value).value
  {
    User(u.id,
         if w.firstName.Some? then Trim(w.firstName.value) else u.firstName,
         if w.lastName.Some? then Trim(w.lastName.value) else u.lastName,
         if w.email.Some? then Trim(w.email.value) else u.email,
         if w.username.Some? then Trim(w.username.value) else u.username,
         w.password.GetOr(u.password),
         if w.role.Some? && ParseRole(w.role.value).Some? then ParseRole(w.role.value).value else u.role)
  }

  /** The body of `updateDetails` after the whitelist: `User.findByIdAndUpdate(id, w, { new: true,
      runValidators: true })` runs the validators of the present keys, then the lookup (a missing
      user is `null`, not an error), then the unique indexes; the handler replies 200 with the
      updated user or `null`. */
  function SetDetails(db: Db, me: UserId, w: UserBody): (s: Step<Option<UserJson>>)
    ensures s.db == db.(users := s.db.users)
    ensures UpdateValidationErrors(w) != [] ==> s == Step(db, Err(Invalid(PathNames(UpdateValidationErrors(w)))))
    ensures (UpdateValidationErrors(w) == [] && UserById(db.users, me).None?)
            ==> s == Step(db, Ok(Reply(200, DetailsUpdatedMessage, None)))
    ensures s.out.Err? || s.out.value.data.None? ==> s.db == db
    ensures s.out.Err? ==> s.out.error.Invalid? || s.out.error.DuplicateKey?
    ensures (UpdateValidationErrors(w) == [] && FindFirst(db.users, UserWithId(me)).Some?) ==>
              var i := FindFirst(db.users, UserWithId(me)).value;
              var v := ApplySet(db.users[i], w);
              match IndexViolation(db.users, v)
              case Some(path) => s == Step(db, Err(DuplicateKey(path)))
              case None =>
                s == Step(db.(users := db.users[i := v]), Ok(Reply(200, DetailsUpdatedMessage, Some(ToJson(v)))))
    ensures s.out.Ok? && s.out.value.data.Some? ==>
              && FindFirst(db.users, UserWithId(me)).Some?
              && var i := FindFirst(db.users, UserWithId(me)).value;
                var v := ApplySet(db.users[i], w);
                && s.db.users == db.users[i := v]
                && IndexViolation(db.users, v).None?
                && s.out.value == Reply(200, DetailsUpdatedMessage, Some(ToJson(v)))
  {
    var errors := UpdateValidationErrors(w);
    if errors != [] then Step(db, Err(Invalid(PathNames(errors))))
    else match FindFirst(db.users, UserWithId(me))
      case None => Step(db, Ok(Reply(200, DetailsUpdatedMessage, None)))
      case Some(i) =>
        var v := ApplySet(db.users[i], w);
        match IndexViolation(db.users, v)
        case Some(path) => Step(db, Err(DuplicateKey(path)))
        case None => Step(db.(users := db.users[i := v]), Ok(Reply(200, DetailsUpdatedMessage, Some(ToJson(v)))))
  }

  /** `updateDetails`: the whitelisted keys of the body, sent through `findByIdAndUpdate`.
      Usernames, passwords, roles and ids never change, whatever the body holds. */
  function UpdateDetails(db: Db, me: UserId, b: UserBody): (s: Step<Option<UserJson>>)
    ensures s.db == db.(users := s.db.users)
    ensures SameCredentials(db.users, s.db.users)
  {
    WhitelistedUpdateKeepsCredentials(db, me, Whitelist(b));
    SetDetails(db, me, Whitelist(b))
  }

  /** Two versions of the users collection that differ at most in names and e-mails. */
  predicate SameCredentials(before: seq<User>, after: seq<User>) {
    && |after| == |before|
    && forall j | 0 <= j < |before| ::
         && after[j].id == before[j].id && after[j].username == before[j].username
         && after[j].password == before[j].password && after[j].role == before[j].role
  }

  /** An update without username, password or role keys changes none of them. */
  lemma WhitelistedUpdateKeepsCredentials(db: Db, me: UserId, w: UserBody)
    requires w.username.None? && w.password.None? && w.role.None?
    ensures SameCredentials(db.users, SetDetails(db, me, w).db.users)
  {
    var s := SetDetails(db, me, w);
    if s.out.Ok? && s.out.value.data.Some? {
      var i := FindFirst(db.users, UserWithId(me)).value;
      ReplaceKeepsCredentials(db.users, i, ApplySet(db.users[i], w));
    }
  }

  lemma ReplaceKeepsCredentials(users: seq<User>, i: nat, v: User)
    requires i < |users|
    requires v == users[i].(firstName := v.firstName, lastName := v.lastName, email := v.email)
    ensures SameCredentials(users, users[i := v])
  {
  }

  /** Only the first name, last name and e-mail of the body matter to `updateDetails`. */
  lemma UpdateDetailsIgnoresOtherKeys(db: Db, me: UserId, b: UserBody, c: UserBody)
    requires b.firstName == c.firstName && b.lastName == c.lastName && b.email == c.email
    ensures UpdateDetails(db, me, b) == UpdateDetails(db, me, c)
  {
    assert Whitelist(b) == Whitelist(c);
  }

  /** An update by id keeps ids, e-mails and usernames unique. */
  lemma SetDetailsKeepsUniqueKeys(db: Db, me: UserId, w: UserBody)
    requires UniqueKeys(db.users)
    ensures UniqueKeys(SetDetails(db, me, w).db.users)
  {
    var s := SetDetails(db, me, w);
    if s.out.Ok? && s.out.value.data.Some? {
      var i := FindFirst(db.users, UserWithId(me)).value;
      ReplaceKeepsUniqueKeys(db.users, i, ApplySet(db.users[i], w));
    }
  }

  /** Replacing a user by a version with the same id that violates no index keeps the keys unique. */
  lemma ReplaceKeepsUniqueKeys(users: seq<User>, i: nat, v: User)
    requires UniqueKeys(users) && i < |users| && users[i].id == v.id
    requires IndexViolation(users, v).None?
    ensures UniqueKeys(users[i := v])
  {
    var us := users[i := v];
    forall j, k | 0 <= j < k < |us|
      ensures us[j].id != us[k].id && us[j].email != us[k].email && us[j].username != us[k].username
    {
      if j == i {
        assert us[k] == users[k] && users[k] in users;
      } else if k == i {
        assert us[j] == users[j] && users[j] in users;
      }
    }
  }

  // ---- updatePassword ----

  /** The stored password after assigning `newPassword` and saving: assigning the value already
      stored does not mark the path modified, so the save hook leaves it alone. */
  function Rehashed(stored: string, newPassword: string, crypto: Crypto): (h: string)
    ensures newPassword != stored ==> h == crypto.hash(newPassword)
    ensures newPassword == stored ==> h == stored
  {
    if newPassword == stored then stored else crypto.hash(newPassword)
  }

  /** `updatePassword`: the user is loaded, the current password is checked before anything is
      written, then the new password is set and saved (validated, then hashed by the save hook). */
  function UpdatePassword(db: Db, me: UserId, current: Option<string>, newPassword: Option<string>, crypto: Crypto): (s: Step<Empty>)
    ensures s.db == db.(users := s.db.users)
    ensures UserById(db.users, me).None? ==> s == Step(db, Err(Crash))
    ensures UserById(db.users, me).Some? && current.None? ==> s == Step(db, Err(Fault(IllegalArguments)))
    ensures (UserById(db.users, me).Some? && current.Some?
             && !crypto.compare(current.value, UserById(db.users, me).value.password))
            ==> s == Step(db, Err(Thrown(401, InvalidCredentials)))
    ensures (UserById(db.users, me).Some? && current.Some?
             && crypto.compare(current.value, UserById(db.users, me).value.password)
             && (newPassword.None? || BadPassword(newPassword.value)))
            ==> s == Step(db, Err(Invalid(["password"])))
    ensures s.out.Ok? <==>
              && UserById(db.users, me).Some? && current.Some?
              && crypto.compare(current.value, UserById(db.users, me).value.password)
              && newPassword.Some? && !BadPassword(newPassword.value)
    ensures s.out.Ok? ==>
              && s.out.value == Reply(200, PasswordUpdatedMessage, Empty)
              && FindFirst(db.users, UserWithId(me)).Some?
              && var i := FindFirst(db.users, UserWithId(me)).value;
                 s.db.users == db.users[i := db.users[i].(password := Rehashed(db.users[i].password, newPassword.value, crypto))]
  {
    match FindFirst(db.users, UserWithId(me))
    case None => Step(db, Err(Crash))
    case Some(i) =>
      var u := db.users[i];
      if current.None? then Step(db, Err(Fault(IllegalArguments)))
      else if !crypto.compare(current.value, u.password) then Step(db, Err(Thrown(401, InvalidCredentials)))
      else if newPassword.None? || BadPassword(newPassword.value) then Step(db, Err(Invalid(["password"])))
      else
        var saved := SaveHook(u.(password := newPassword.value), newPassword.value != u.password, crypto.hash);
        Step(db.(users := db.users[i := saved]), Ok(Reply(200, PasswordUpdatedMessage, Empty)))
  }

  // ---- refresh ----

  /** `refresh`: a missing token, a token the refresh secret did not sign, missing claims, an
      unknown id and a password claim that is not exactly the stored hash each end in 401. */
  function Refresh(db: Db, token: Option<Token>): (s: Step<RefreshReply>)
    ensures s.db == db
    ensures token.None? || token == Some(Garbage("")) ==> s.out == Err(Thrown(401, MissingRefreshToken))
    ensures s.out.Err? ==> s.out.error.Thrown? && s.out.error.status == 401
    ensures s.out.Ok? <==>
              && token.Some? && token.value.Signed? && token.value.secret == RefreshSecret
              && var c := token.value.claims;
                 && c.id.Some? && c.password.Some? && c.password.value != []
                 && UserById(db.users, c.id.value).Some?
                 && UserById(db.users, c.id.value).value.password == c.password.value
    ensures s.out.Ok? ==>
              var u := UserById(db.users, token.value.claims.id.value).value;
              s.out.value == Reply(200, "", RefreshReply(AccessToken(u), RefreshToken(u)))
  {
    if token.None? || token == Some(Garbage("")) then Step(db, Err(Thrown(401, MissingRefreshToken)))
    else match Verify(token.value, RefreshSecret)
      case Rejected(message) => Step(db, Err(Thrown(401, message)))
      case Decoded(c) =>
        if c.id.None? || c.password.None? || c.password.value == [] then Step(db, Err(Thrown(401, InvalidRefreshToken)))
        else match UserById(db.users, c.id.value)
          case None => Step(db, Err(Thrown(401, InvalidRefreshToken)))
          case Some(u) =>
            if u.password != c.password.value then Step(db, Err(Thrown(401, InvalidRefreshToken)))
            else Step(db, Ok(Reply(200, "", RefreshReply(AccessToken(u), RefreshToken(u)))))
  }

  /** The refresh token a login hands out is accepted by `refresh` as long as the stored hash
      is not empty and the user is unchanged. */
  lemma LoginThenRefresh(db: Db, email: Option<string>, password: Option<string>, crypto: Crypto)
    requires Login(db, email, password, crypto).out.Ok?
    requires UniqueKeys(db.users)
    requires Login(db, email, password, crypto).out.value.data.user.id !in
               set v | v in db.users && v.password == [] :: v.id
    ensures Refresh(db, Some(Login(db, email, password, crypto).out.value.data.refresh)).out.Ok?
  {
    var u := UserByEmail(db.users, email.value).value;
    var found := UserById(db.users, u.id);
    assert found == Some(u) by {
      var j :| 0 <= j < |db.users| && db.users[j] == u;
      var k :| 0 <= k < |db.users| && db.users[k] == found.value;
      assert j == k;
    }
  }

  /** Changing the password revokes every refresh token issued before: once the stored hash
      differs from the one in the token, `refresh` rejects it. */
  lemma PasswordChangeRevokesRefresh(db: Db, me: UserId, current: Option<string>, newPassword: Option<string>, crypto: Crypto)
    requires UserById(db.users, me).Some?
    requires UpdatePassword(db, me, current, newPassword, crypto).out.Ok?
    requires newPassword.value != UserById(db.users, me).value.password
    requires crypto.hash(newPassword.value) != UserById(db.users, me).value.password
    ensures var issued := RefreshToken(UserById(db.users, me).value);
            var s := UpdatePassword(db, me, current, newPassword, crypto);
            Refresh(s.db, Some(issued)).out == Err(Thrown(401, InvalidRefreshToken))
  {
    var s := UpdatePassword(db, me, current, newPassword, crypto);
    var i := FindFirst(db.users, UserWithId(me)).value;
    var saved := db.users[i].(password := Rehashed(db.users[i].password, newPassword.value, crypto));
    assert s.db.users == db.users[i := saved];
    FindFirstReplace(db.users, i, saved, UserWithId(me));
    assert UserById(s.db.users, me) == Some(saved);
  }

  /** After a password change, the new password logs in, provided bcrypt's `compare` accepts a
      password against its own hash. */
  lemma PasswordChangeThenLogin(db: Db, me: UserId, current: Option<string>, newPassword: Option<string>,
                                crypto: Crypto, email: string)
    requires UniqueKeys(db.users)
    requires UserById(db.users, me).Some?
    requires UpdatePassword(db, me, current, newPassword, crypto).out.Ok?
    requires email != [] && Trim(email) == UserById(db.users, me).value.email
    requires newPassword.value != UserById(db.users, me).value.password
    requires crypto.compare(newPassword.value, crypto.hash(newPassword.value))
    ensures Login(UpdatePassword(db, me, current, newPassword, crypto).db, Some(email), newPassword, crypto).out.Ok?
  {
    var s := UpdatePassword(db, me, current, newPassword, crypto);
    var i := FindFirst(db.users, UserWithId(me)).value;
    var saved := db.users[i].(password := Rehashed(db.users[i].password, newPassword.value, crypto));
    assert s.db.users == db.users[i := saved];
    assert newPassword.value != [] by {
      assert Utf16Length(newPassword.value) >= PasswordMinLength;
    }
    OnlyEmailMatch(db.users[i := saved], i, Trim(email));
    assert UserByEmail(s.db.users, email) == Some(saved);
  }

  /** With unique e-mails, the e-mail lookup finds the one user who has the e-mail. */
  lemma OnlyEmailMatch(users: seq<User>, i: nat, e: string)
    requires i < |users| && users[i].email == e
    requires forall j | 0 <= j < |users| && j != i :: users[j].email != e
    ensures FindFirst(users, UserWithEmail(e)) == Some(i)
  {
    assert UserWithEmail(e)(users[i]);
  }
}
