/** The user schema: required and trimmed fields, the e-mail pattern, the password length
    and role rules, the unique indexes, the password-hashing save hook, the JSON view that
    hides the password, and the two signed tokens a user can be issued. */
module UserModel {
  import opened Results
  import opened Text
  import opened Store
  import opened EmailPattern

  // ---- schema rules ----

  const PasswordMinLength: nat := 6
  const DefaultRole: Role := Member

  /** A request body for the user schema; `None` is an absent key. */
  datatype UserBody = UserBody(
    firstName: Option<string>,
    lastName: Option<string>,
    email: Option<string>,
    username: Option<string>,
    password: Option<string>,
    role: Option<string>)

  function RoleName(r: Role): string {
    match r
    case Admin => "admin"
    case Member => "user"
    case Guest => "guest"
    case SuperAdmin => "super-admin"
  }

  /** The `role` enum check: only the four listed names are accepted. */
  function ParseRole(name: string): (r: Option<Role>)
    ensures r.Some? ==> RoleName(r.value) == name
    ensures r.None? <==> name !in {"admin", "user", "guest", "super-admin"}
  {
    if name == "admin" then Some(Admin)
    else if name == "user" then Some(Member)
    else if name == "guest" then Some(Guest)
    else if name == "super-admin" then Some(SuperAdmin)
    else None
  }

  lemma RoleRoundTrip(r: Role)
    ensures ParseRole(RoleName(r)) == Some(r)
  {
  }

  /** A trimmed, required text field: absent, or empty once trimmed. */
  predicate MissingText(v: Option<string>) {
    v.None? || Trim(v.value) == []
  }

  /** An e-mail value that fails `required` or `match` (the pattern runs on the trimmed value). */
  predicate BadEmail(v: string) {
    !MatchesEmailPattern(Trim(v))
  }

  /** A password value that fails `required` (empty) or `minlength: 6` (in UTF-16 units). */
  predicate BadPassword(v: string) {
    Utf16Length(v) < PasswordMinLength
  }

  predicate BadRole(role: Option<string>) {
    role.Some? && ParseRole(role.value).None?
  }

  /** The schema paths of a user, in declaration order. */
  datatype UserPath = FirstNamePath | LastNamePath | EmailPath | UsernamePath | PasswordPath | RolePath

  function PathName(p: UserPath): string {
    match p
    case FirstNamePath => "first_name"
    case LastNamePath => "last_name"
    case EmailPath => "email"
    case UsernamePath => "username"
    case PasswordPath => "password"
    case RolePath => "role"
  }

  /** The position of a path in the schema. */
  function PathIndex(p: UserPath): (i: nat)
    ensures i < |AllUserPaths| && AllUserPaths[i] == p
  {
    match p
    case FirstNamePath => 0
    case LastNamePath => 1
    case EmailPath => 2
    case UsernamePath => 3
    case PasswordPath => 4
    case RolePath => 5
  }

  /** The names a validation error reports for `paths`. */
  function PathNames(paths: seq<UserPath>): (names: seq<string>)
    ensures |names| == |paths|
    ensures forall i | 0 <= i < |paths| :: names[i] == PathName(paths[i])
  {
    if paths == [] then [] else [PathName(paths[0])] + PathNames(paths[1..])
  }

  const AllUserPaths: seq<UserPath> := [FirstNamePath, LastNamePath, EmailPath, UsernamePath, PasswordPath, RolePath]

  /** The validators of each path: `required` (after `trim` on the text fields), `match` on
      the e-mail, `minlength` on the password and `enum` on the role. */
  predicate Fails(b: UserBody, p: UserPath) {
    match p
    case FirstNamePath => MissingText(b.firstName)
    case LastNamePath => MissingText(b.lastName)
    case EmailPath => b.email.None? || BadEmail(b.email.value)
    case UsernamePath => MissingText(b.username)
    case PasswordPath => b.password.None? || BadPassword(b.password.value)
    case RolePath => BadRole(b.role)
  }

  function FailsFor(b: UserBody): UserPath -> bool {
    (p: UserPath) => Fails(b, p)
  }

  /** The paths that fail validation when a user is created, in schema order. */
  function UserErrors(b: UserBody): (paths: seq<UserPath>)
    ensures forall p: UserPath :: p in paths <==> Fails(b, p)
  {
    var paths := Filter(AllUserPaths, FailsFor(b));
    assert forall p: UserPath :: p in paths <==> Fails(b, p) by {
      forall p: UserPath ensures p in paths <==> Fails(b, p) {
        assert AllUserPaths[PathIndex(p)] == p;
      }
    }
    paths
  }

  /** Every required key is present and the role, if any, is one of the enum's names. */
  predicate Complete(b: UserBody) {
    && b.firstName.Some? && b.lastName.Some? && b.email.Some? && b.username.Some? && b.password.Some?
    && !BadRole(b.role)
  }

  /** No path of the body fails its validators. */
  predicate Valid(b: UserBody) {
    forall p: UserPath :: !Fails(b, p)
  }

  lemma NoErrorAt(b: UserBody, p: UserPath)
    requires UserErrors(b) == []
    ensures !Fails(b, p)
  {
  }

  /** A body that passes validation is complete, with a matching e-mail and a long enough password. */
  lemma ErrorFreeIsComplete(b: UserBody)
    requires UserErrors(b) == []
    ensures Complete(b) && !BadEmail(b.email.value) && !BadPassword(b.password.value)
    ensures b.email.value != [] && b.password.value != []
  {
    forall p: UserPath ensures !Fails(b, p) {
      NoErrorAt(b, p);
    }
    ValidIsComplete(b);
  }

  lemma ValidIsComplete(b: UserBody)
    requires Valid(b)
    ensures Complete(b) && !BadEmail(b.email.value) && !BadPassword(b.password.value)
    ensures b.email.value != [] && b.password.value != []
  {
    assert !Fails(b, FirstNamePath) && !Fails(b, LastNamePath) && !Fails(b, UsernamePath);
    assert !Fails(b, EmailPath) && !Fails(b, PasswordPath) && !Fails(b, RolePath);
    var e := Trim(b.email.value);
    assert |e| > 0 by {
      var k :| 0 <= k < |e| && EmailAt(e, k);
    }
  }

  /** An e-mail the `email` path accepts (as every registered one is, by ErrorFreeIsComplete) has,
      once trimmed, exactly one `@`, a well-formed local part and a 2- or 3-character top-level label. */
  lemma AcceptedEmailShape(v: string)
    requires !BadEmail(v)
    ensures var e := Trim(v);
            && (exists k | 0 <= k < |e| :: e[k] == '@' && WellDotted(e[..k])
                  && forall i | 0 <= i < |e| && e[i] == '@' :: i == k)
            && (EndsWithTopLevel(e, 2) || EndsWithTopLevel(e, 3))
  {
    AcceptedLocalPart(Trim(v));
    AcceptedEnding(Trim(v));
  }

  // ---- unique indexes ----

  /** The unique indexes on `email` and `username`, and distinct ids. */
  predicate UniqueKeys(users: seq<User>) {
    forall i, j | 0 <= i < j < |users| ::
      users[i].id != users[j].id && users[i].email != users[j].email && users[i].username != users[j].username
  }

  /** The unique-index check of an insert or update of `u`; rows with `u`'s id are the row itself.
      When both indexes are violated, the `email` index, declared first, is reported. */
  function IndexViolation(users: seq<User>, u: User): (r: Option<string>)
    ensures r == Some("email") <==> exists v | v in users :: v.id != u.id && v.email == u.email
    ensures r.None? <==> forall v | v in users && v.id != u.id :: v.email != u.email && v.username != u.username
    ensures r.Some? ==> r == Some("email") || r == Some("username")
  {
    if exists v | v in users :: v.id != u.id && v.email == u.email then Some("email")
    else if exists v | v in users :: v.id != u.id && v.username == u.username then Some("username")
    else None
  }

  // ---- save hook ----

  /** The `pre('save')` hook as written: when the password is not modified it calls `next()`
      but does not return, so control falls through and the stored value is hashed again. */
  function SaveHookAsWritten(u: User, passwordModified: bool, hash: string -> string): (v: User)
    ensures v == u.(password := hash(u.password))
  {
    if !passwordModified then
      u.(password := hash(u.password))
    else
      u.(password := hash(u.password))
  }

  /** The hook as evidently intended (`return next()`): hash only a modified password. */
  function SaveHook(u: User, passwordModified: bool, hash: string -> string): (v: User)
    ensures v == u.(password := v.password)
    ensures passwordModified ==> v.password == hash(u.password)
    ensures !passwordModified ==> v == u
  {
    if !passwordModified then u else u.(password := hash(u.password))
  }

  /** The two hooks agree whenever the password was modified, which is the case on every save
      the handlers perform. */
  lemma SaveHooksAgreeWhenModified(u: User, hash: string -> string)
    ensures SaveHookAsWritten(u, true, hash) == SaveHook(u, true, hash)
  {
  }

  /** Saving a user whose password was not touched assigns a second hash to the document under
      the hook as written (for any hash function that does not map this hash to itself); the
      intended hook leaves the user as it was. */
  lemma SaveHookRehashes(u: User, hash: string -> string)
    requires hash(u.password) != u.password
    ensures SaveHookAsWritten(u, false, hash).password != u.password
    ensures SaveHook(u, false, hash) == u
  {
  }

  // ---- JSON view ----

  /** What `toJSON` sends: the stored object without `password`. */
  datatype UserJson = UserJson(id: UserId, firstName: string, lastName: string, email: string, username: string, role: Role)

  function ToJson(u: User): (j: UserJson)
    ensures j.id == u.id && j.email == u.email && j.username == u.username && j.role == u.role
    ensures j.firstName == u.firstName && j.lastName == u.lastName
  {
    UserJson(u.id, u.firstName, u.lastName, u.email, u.username, u.role)
  }

  /** The stored user, from its JSON view and its password. */
  function WithPassword(j: UserJson, password: string): (u: User)
    ensures u.password == password
  {
    User(j.id, j.firstName, j.lastName, j.email, j.username, password, j.role)
  }

  /** `toJSON` drops the password and nothing else: adding the password back gives the user. */
  lemma ToJsonDropsOnlyPassword(u: User)
    ensures WithPassword(ToJson(u), u.password) == u
  {
  }

  /** The JSON view does not depend on the password in any way. */
  lemma ToJsonIgnoresPassword(u: User, password: string)
    ensures ToJson(u.(password := password)) == ToJson(u)
  {
  }

  // ---- tokens ----

  /** Which secret a token was signed with: `JWT_SECRET` or `JWT_REFRESH`. */
  datatype Secret = AccessSecret | RefreshSecret

  /** The claims of a signed token; a claim may be absent. */
  datatype Claims = Claims(id: Option<UserId>, name: Option<string>, password: Option<string>)

  /** A token as the client sends it back: either something a secret signed, or text that is
      not a well-formed token. Expiry is not modelled. */
  datatype Token = Signed(secret: Secret, claims: Claims) | Garbage(raw: string)

  /** `getToken`: the id and first name, signed with the access secret. */
  function AccessToken(u: User): (t: Token)
    ensures t.Signed? && t.secret == AccessSecret
    ensures t.claims.id == Some(u.id) && t.claims.name == Some(u.firstName) && t.claims.password.None?
  {
    Signed(AccessSecret, Claims(Some(u.id), Some(u.firstName), None))
  }

  /** `getRefreshToken`: the id and the stored password hash, signed with the refresh secret. */
  function RefreshToken(u: User): (t: Token)
    ensures t.Signed? && t.secret == RefreshSecret
    ensures t.claims.id == Some(u.id) && t.claims.name.None? && t.claims.password == Some(u.password)
  {
    Signed(RefreshSecret, Claims(Some(u.id), None, Some(u.password)))
  }

  /** The outcome of `jwt.verify(token, secret)`. */
  datatype Verified = Rejected(message: string) | Decoded(claims: Claims)

  function Verify(t: Token, secret: Secret): (r: Verified)
    ensures r.Decoded? <==> t.Signed? && t.secret == secret
    ensures r.Decoded? ==> r.claims == t.claims
  {
    match t
    case Garbage(_) => Rejected("jwt malformed")
    case Signed(s, c) => if s == secret then Decoded(c) else Rejected("invalid signature")
  }

  /** A refresh token can only be verified with the refresh secret, an access token only with
      the access secret. */
  lemma TokensNeedTheirSecret(u: User)
    ensures Verify(RefreshToken(u), RefreshSecret) == Decoded(RefreshToken(u).claims)
    ensures Verify(RefreshToken(u), AccessSecret).Rejected?
    ensures Verify(AccessToken(u), RefreshSecret).Rejected?
  {
  }
}
