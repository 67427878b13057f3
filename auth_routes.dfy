/**
 * routes/auth.js: registration and login over an in-memory user table keyed
 * by normalized email address. Password hashing, the password check and
 * token signing are supplied by the caller as functions: `matches` stands
 * for bcrypt.compare and `sign` for jwt.sign with the server secret.
 */
module AuthRoutes {
  import opened Wrappers
  import opened Text
  import opened BillSchema

  /** A user document: the address as stored and the value kept in passwordHash. */
  datatype User = User(id: UserId, email: string, passwordHash: string)

  /** What both handlers answer on success: the token and the public user fields. */
  datatype Session = Session(token: string, userId: UserId, email: string)

  datatype AuthError = MissingFields | EmailTaken | InvalidCredentials

  /** The status code each handler answers an error with. */
  function HttpStatus(e: AuthError): int {
    match e
    case MissingFields => 400
    case EmailTaken => 400
    case InvalidCredentials => 401
  }

  /** `expiresIn: "7d"`, in seconds. */
  const TokenLifetime: int := 7 * 24 * 60 * 60

  /** `!email?.trim() || !password`: a missing or blank address, or a missing
      or empty password. */
  predicate CredentialsMissing(email: Option<string>, password: Option<string>) {
    email.None? || IsBlank(email.value) || password.None? || password.value == ""
  }

  /** The key a request is stored and looked up under is a normalized
      address, and it is empty only for a blank address. */
  lemma LookupKeyIsStable(email: string)
    ensures IsNormalizedEmail(NormalizeEmail(email))
    ensures NormalizeEmail(email) != [] <==> !IsBlank(email)
  {
    NormalizeEmailNormalizes(email);
    NormalizeEmailEmptyIffBlank(email);
  }

  /** Every user is filed under its own normalized, non-empty address, has
      an id below `nextId`, and no two users share an id. */
  ghost predicate ValidTable(users: map<string, User>, nextId: UserId) {
    && (forall e :: e in users ==> users[e].email == e && e != [] && IsNormalizedEmail(e) && users[e].id < nextId)
    && (forall e1, e2 :: e1 in users && e2 in users && e1 != e2 ==> users[e1].id != users[e2].id)
  }

  /** Adding a user with the next id under a new normalized address keeps the
      table valid. */
  lemma AddUserKeepsValid(users: map<string, User>, nextId: UserId, e: string, password: string)
    requires ValidTable(users, nextId)
    requires e != [] && IsNormalizedEmail(e) && e !in users
    ensures ValidTable(users[e := User(nextId, e, password)], nextId + 1)
  {
  }

  class UserStore {
    var users: map<string, User>
    var nextId: UserId

    ghost predicate Valid()
      reads this
    {
      ValidTable(users, nextId)
    }

    constructor ()
      ensures Valid() && users == map[]
    {
      users, nextId := map[], 0;
    }

    /**
     * POST /register: refuses missing fields and an address that is already
     * registered (after trimming and lowercasing); otherwise stores exactly
     * one new user under the normalized address, with the password as the
     * handler passes it, and signs a token for the new id.
     */
    method Register(email: Option<string>, password: Option<string>, sign: (UserId, int) -> string)
      returns (r: Result<Session, AuthError>)
      requires Valid()
      modifies this
      ensures Valid()
      ensures CredentialsMissing(email, password) ==> r == Err(MissingFields) && users == old(users)
      ensures !CredentialsMissing(email, password) && NormalizeEmail(email.value) in old(users) ==>
                r == Err(EmailTaken) && users == old(users)
      ensures !CredentialsMissing(email, password) && NormalizeEmail(email.value) !in old(users) ==>
                (var e := NormalizeEmail(email.value);
                 && r == Ok(Session(sign(old(nextId), TokenLifetime), old(nextId), e))
                 && users == old(users)[e := User(old(nextId), e, password.value)])
      ensures r.Err? ==> HttpStatus(r.error) == 400
    {
      if email.None? || IsBlank(email.value) || password.None? || password.value == "" {
        return Err(MissingFields);
      }
      var e := NormalizeEmail(email.value);
      if e in users {
        return Err(EmailTaken);
      }
      LookupKeyIsStable(email.value);
      AddUserKeepsValid(users, nextId, e, password.value);
      var user := User(nextId, e, password.value);
      users := users[e := user];
      nextId := nextId + 1;
      var token := sign(user.id, TokenLifetime);
      return Ok(Session(token, user.id, user.email));
    }

    /**
     * POST /login: refuses missing fields; answers the same InvalidCredentials
     * for an unknown address and for a wrong password; otherwise signs a
     * token for the stored user and reports its stored address. Nothing is
     * written.
     */
    method Login(email: Option<string>, password: Option<string>,
                 matches: (string, string) -> bool, sign: (UserId, int) -> string)
      returns (r: Result<Session, AuthError>)
      requires Valid()
      ensures CredentialsMissing(email, password) ==> r == Err(MissingFields)
      ensures !CredentialsMissing(email, password) ==>
                (var e := NormalizeEmail(email.value);
                 && (r == Err(InvalidCredentials) <==> e !in users || !matches(password.value, users[e].passwordHash))
                 && (r.Ok? <==> e in users && matches(password.value, users[e].passwordHash))
                 && (r.Ok? ==> r.value == Session(sign(users[e].id, TokenLifetime), users[e].id, e)))
      ensures r.Err? ==> HttpStatus(r.error) == if CredentialsMissing(email, password) then 400 else 401
    {
      if email.None? || IsBlank(email.value) || password.None? || password.value == "" {
        return Err(MissingFields);
      }
      var e := NormalizeEmail(email.value);
      if e !in users || !matches(password.value, users[e].passwordHash) {
        return Err(InvalidCredentials);
      }
      var user := users[e];
      return Ok(Session(sign(user.id, TokenLifetime), user.id, user.email));
    }
  }

  /** Registering and then logging in with the same address (in any case and
      with any surrounding whitespace) and password succeeds exactly when the
      password matches the value stored for it, and yields the same user. */
  method RegisterThenLogin(store: UserStore, email: string, other: string, password: string,
                           matches: (string, string) -> bool, sign: (UserId, int) -> string)
      returns (registered: Result<Session, AuthError>, loggedIn: Result<Session, AuthError>)
    requires store.Valid() && NormalizeEmail(other) == NormalizeEmail(email)
    requires !IsBlank(email) && password != "" && NormalizeEmail(email) !in store.users
    modifies store
    ensures registered.Ok?
    ensures loggedIn.Ok? <==> matches(password, password)
    ensures loggedIn.Ok? ==> (loggedIn.value.userId == registered.value.userId
                              && loggedIn.value.email == registered.value.email)
  {
    registered := store.Register(Some(email), Some(password), sign);
    NormalizeEmailEmptyIffBlank(email);
    NormalizeEmailEmptyIffBlank(other);
    loggedIn := store.Login(Some(other), Some(password), matches, sign);
  }

  /** A second registration of the same address, however it is cased or
      padded, is refused and stores nothing. */
  method RegisterTwice(store: UserStore, email: string, other: string, password: string, password2: string,
                       sign: (UserId, int) -> string)
      returns (first: Result<Session, AuthError>, second: Result<Session, AuthError>)
    requires store.Valid() && NormalizeEmail(other) == NormalizeEmail(email)
    requires !IsBlank(email) && password != "" && password2 != "" && NormalizeEmail(email) !in store.users
    modifies store
    ensures first.Ok? && second == Err(EmailTaken)
    ensures store.users == old(store.users)[NormalizeEmail(email) := User(old(store.nextId), NormalizeEmail(email), password)]
  {
    first := store.Register(Some(email), Some(password), sign);
    NormalizeEmailEmptyIffBlank(other);
    second := store.Register(Some(other), Some(password2), sign);
  }
}
