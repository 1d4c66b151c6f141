/** The user use case (`UserUsecase`): registration and login. The user
    store is a map from email to user; the password hashing, the password
    check and the token signing are library calls the model does not look
    into, so they are values of `Crypto` fixed when the use case is built. */
module UserUsecases {
  import opened Wrappers
  import opened CivilTime
  import opened Domain
  import opened Text

  /** The library calls: bcrypt's hash (which may fail), bcrypt's check, and
      JWT signing of a user id with a secret and a lifetime in seconds (which
      may fail). */
  datatype Crypto = Crypto(
    hashPassword: string -> Result<string, string>,
    checkPassword: (string, string) -> bool,
    createAccessToken: (int, string, int) -> Result<string, string>)

  /** A successful check of a password against its own hash: what bcrypt
      guarantees. */
  ghost predicate SoundHash(crypto: Crypto) {
    forall p :: crypto.hashPassword(p).Ok? ==> crypto.checkPassword(p, crypto.hashPassword(p).value)
  }

  /** An access token lives for 24 hours. */
  const TokenLifetime: int := 24 * 60 * 60

  /** What a successful login returns. */
  datatype LoginResponse = LoginResponse(accessToken: string, user: User)

  /** A password stored by `Register` is accepted by `Login` when typed again
      with any white space around it. */
  lemma PaddedPasswordAccepted(crypto: Crypto, password: string, p: string, q: string)
    requires SoundHash(crypto)
    requires crypto.hashPassword(TrimSpace(password)).Ok?
    requires AllSpace(p) && AllSpace(q)
    ensures crypto.checkPassword(TrimSpace(p + password + q),
                                 crypto.hashPassword(TrimSpace(password)).value)
  {
    TrimSpaceOfPadded(p, password, q);
  }

  class UserUsecase {
    /** The `users` table, keyed by email. */
    var users: map<string, User>
    var nextUserId: int
    const jwtSecret: string
    const crypto: Crypto

    /** Each user is stored under its own email and has a key of its own that
        the serial counter handed out. */
    ghost predicate Valid()
      reads this
    {
      && 1 <= nextUserId
      && (forall e :: e in users ==> users[e].email == e && 1 <= users[e].id < nextUserId)
      && (forall e, e' :: e in users && e' in users && e != e' ==> users[e].id != users[e'].id)
    }

    constructor (secret: string, crypto: Crypto)
      ensures Valid()
      ensures users == map[] && jwtSecret == secret && this.crypto == crypto
    {
      users := map[];
      nextUserId := 1;
      jwtSecret := secret;
      this.crypto := crypto;
    }

    /** `Register`. The caller's record is rewritten in place (returned here
        as `written`): name and email are trimmed first; then, unless the
        lookup finds the email, the trimmed password is hashed, the
        timestamps set and the user inserted. A failed lookup does not stop
        the registration. */
    method Register(user: User, now: Instant, lookupFault: Option<string>, createFault: Option<string>)
      returns (written: User, err: Option<Error>)
      requires Valid()
      modifies this
      ensures Valid()
      ensures written.name == TrimSpace(user.name) && written.email == TrimSpace(user.email)
      ensures lookupFault.None? && TrimSpace(user.email) in old(users) ==>
                && err == Some(EmailExists)
                && written == user.(name := written.name, email := written.email)
                && unchanged(this)
      ensures (lookupFault.Some? || TrimSpace(user.email) !in old(users)) &&
              crypto.hashPassword(TrimSpace(user.password)).Err? ==>
                && err == Some(Library(crypto.hashPassword(TrimSpace(user.password)).error))
                && written == user.(name := written.name, email := written.email)
                && unchanged(this)
      ensures (lookupFault.Some? || TrimSpace(user.email) !in old(users)) &&
              crypto.hashPassword(TrimSpace(user.password)).Ok? ==>
                && written.password == crypto.hashPassword(TrimSpace(user.password)).value
                && written.createdAt == now && written.updatedAt == now
                && if createFault.Some? then
                     err == Some(Db(createFault.value)) && written.id == user.id && unchanged(this)
                   else if TrimSpace(user.email) in old(users) then
                     err == Some(DuplicateKey) && written.id == user.id && unchanged(this)
                   else
                     && err == None
                     && (forall e :: e in old(users) ==> old(users)[e].id != written.id)
                     && users == old(users)[written.email := written]
    {
      written := user.(name := TrimSpace(user.name), email := TrimSpace(user.email));
      var cleanPassword := TrimSpace(user.password);
      if lookupFault.None? && written.email in users {
        return written, Some(EmailExists);
      }
      var hashed := crypto.hashPassword(cleanPassword);
      if hashed.Err? {
        return written, Some(Library(hashed.error));
      }
      written := written.(password := hashed.value, createdAt := now, updatedAt := now);
      if createFault.Some? {
        return written, Some(Db(createFault.value));
      }
      if written.email in users {
        return written, Some(DuplicateKey);
      }
      written := written.(id := nextUserId);
      users := users[written.email := written];
      nextUserId := nextUserId + 1;
      err := None;
    }

    /** `Login`. Email and password are trimmed; a failed lookup is passed
        on; an unknown email and a wrong password fail alike; otherwise the
        answer carries a token signed for the stored user's key and the
        stored user. Nothing is changed. */
    method Login(email: string, password: string, lookupFault: Option<string>)
      returns (r: Result<LoginResponse, Error>)
      ensures lookupFault.Some? ==> r == Err(Db(lookupFault.value))
      ensures lookupFault.None? && TrimSpace(email) !in users ==> r == Err(InvalidCredentials)
      ensures lookupFault.None? && TrimSpace(email) in users ==>
                var u := users[TrimSpace(email)];
                if !crypto.checkPassword(TrimSpace(password), u.password) then
                  r == Err(InvalidCredentials)
                else match crypto.createAccessToken(u.id, jwtSecret, TokenLifetime)
                  case Err(e) => r == Err(Library(e))
                  case Ok(token) => r == Ok(LoginResponse(token, u))
      ensures r.Ok? ==> && TrimSpace(email) in users && r.value.user == users[TrimSpace(email)]
                        && crypto.checkPassword(TrimSpace(password), r.value.user.password)
    {
      var cleanEmail := TrimSpace(email);
      var cleanPassword := TrimSpace(password);
      if lookupFault.Some? {
        return Err(Db(lookupFault.value));
      }
      if cleanEmail !in users {
        return Err(InvalidCredentials);
      }
      var user := users[cleanEmail];
      if !crypto.checkPassword(cleanPassword, user.password) {
        return Err(InvalidCredentials);
      }
      var token := crypto.createAccessToken(user.id, jwtSecret, TokenLifetime);
      if token.Err? {
        return Err(Library(token.error));
      }
      r := Ok(LoginResponse(token.value, user));
    }
  }
}
