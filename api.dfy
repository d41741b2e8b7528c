/** The use-case handlers of routes/api.js: register, login, self-set
    whitelist, admin check and admin action. Each runs its guards in the
    order the source does and then writes the User table and the Task
    outbox through the Store. Random bytes (the one-time password, the
    salt, the IVs, the user id) and the clock are parameters; bcrypt and the
    cipher are the function-valued fields of Env. */
module Api {
  import opened Js
  import opened Http
  import opened Encryption
  import opened Db
  import opened Security
  import opened ProxyService

  const WhitelistKind: string := "whitelist"
  const AddAction: string := "add"
  const RemoveAction: string := "remove"

  const BanAction: string := "ban"
  const UnbanAction: string := "unban"
  const SetWhitelistAction: string := "set_whitelist"
  const ClearWhitelistAction: string := "clear_whitelist"

  const VpnNotAllowed: string := "VPN/Proxy not allowed for registration."
  const InvalidUsername: string := "Invalid username"
  const OneAccountPerIp: string := "Only 1 account per IP address allowed."
  const UsernameTaken: string := "Username already in use."
  const InternalError: string := "Internal Server Error"
  const InvalidCredentials: string := "Invalid credentials"
  const AccessSuspended: string := "Access suspended"
  const LoginFailed: string := "Login failed"
  const VpnDetected: string := "VPN Detected"
  const NickAlreadySet: string := "Nickname already set. Contact admin to change."
  const Unauthorized: string := "Unauthorized"
  const UserNotFound: string := "User not found"
  const InvalidAction: string := "Invalid action"
  const ServerError: string := "Server Error"

  /** username.length < 3 rejects. */
  const MinUsernameLength: nat := 3
  /** crypto.randomBytes(8): the one-time password is their hex. */
  const PasswordBytes: nat := 8

  /** bcrypt: hash(password, salt) and compare(password, hash). */
  datatype Bcrypt = Bcrypt(hash: (string, seq<Byte>) -> string, compare: (string, string) -> bool)

  /** The one property assumed of bcrypt: a password matches its own hash. */
  ghost predicate BcryptSound(b: Bcrypt) {
    forall pw: string, salt: seq<Byte> :: b.compare(pw, b.hash(pw, salt))
  }

  /** The process environment the routes read (DB_SECRET), ENCRYPTION_KEY
      as utils/encryption.js computed it when it was loaded, and the foreign
      primitives. The handlers take whatever key was loaded: the source's
      EncryptionKeyAsWritten(dbSecret), or the corrected
      EncryptionKey(dbSecret). */
  datatype Env = Env(dbSecret: Option<string>, key: string, crypto: Crypto, bcrypt: Bcrypt)

  /** No two accounts share a username or an IP hash. */
  ghost predicate UniqueAccounts(users: seq<User>) {
    forall i, j | 0 <= i < j < |users| ::
      users[i].username != users[j].username && users[i].ipHash != users[j].ipHash
  }

  // ---- register ----

  datatype Registered = Registered(password: string)

  /** !username || username.length < 3, with length in UTF-16 code units. */
  predicate ValidUsername(username: Option<string>) {
    Truthy(username) && Utf16Length(username.value) >= MinUsernameLength
  }


  /** The outcome of POST /auth/register after the middleware for a request
      with the given isvpn flag and raw address, in terms of the User rows
      before and after: which refusal comes first, and on success the one
      new account and the plain password handed back. */
  ghost predicate RegisterOutcome(users: seq<User>, users': seq<User>, env: Env, isvpn: bool, ip: string,
                                  username: Option<string>, pwBytes: seq<Byte>, salt: seq<Byte>, id: string,
                                  now: nat, r: Reply<Registered>)
  {
    var ipHash := HashIp(env.crypto, ip);
    var byIp := FindUserByIp(users, ipHash);
    var byName := FindUserByUsername(users, username);
    && (!isvpn && !ValidUsername(username) ==> r == Fail(400, InvalidUsername))
    && (!isvpn && ValidUsername(username) && byIp.Some? ==> r == Fail(429, OneAccountPerIp))
    && (!isvpn && ValidUsername(username) && byIp.None? && byName.Some? ==> r == Fail(409, UsernameTaken))
    && (r.Success? <==> !isvpn && ValidUsername(username) && byIp.None? && byName.None?)
    && (r.Success? ==>
          && r.body.password == Hex(pwBytes)
          && users' == users + [NewUser(id, username.value, env.bcrypt.hash(Hex(pwBytes), salt), ipHash, now)])
  }

  /** POST /auth/register, after the middleware: a flagged request is
      refused; then the username is checked; then the hash of the raw client
      address (not the normalised one) must be new, then the username; only
      then is the one account created, with the bcrypt hash of the hex of
      eight random bytes, which is returned once in plain. */
  method Register(db: Store, env: Env, request: Request, username: Option<string>,
                  pwBytes: seq<Byte>, salt: seq<Byte>, id: string, now: nat)
    returns (r: Reply<Registered>)
    requires |pwBytes| == PasswordBytes
    modifies db
    ensures db.tasks == old(db.tasks) && db.nextTaskId == old(db.nextTaskId)
    ensures request.isvpn ==> r == Fail(403, VpnNotAllowed)
    ensures r.Failure? ==> db.users == old(db.users)
    ensures RegisterOutcome(old(db.users), db.users, env, request.isvpn, request.ip, username, pwBytes, salt, id, now, r)
    ensures r.Success? ==> |r.body.password| == 2 * PasswordBytes
    ensures r.Success? ==> |db.users| == |old(db.users)| + 1
    ensures UniqueAccounts(old(db.users)) ==> UniqueAccounts(db.users)
  {
    if request.isvpn {
      return Fail(403, VpnNotAllowed);
    }
    var ipHash := HashIp(env.crypto, request.ip);
    if !ValidUsername(username) {
      return Fail(400, InvalidUsername);
    }
    if FindUserByIp(db.users, ipHash).Some? {
      return Fail(429, OneAccountPerIp);
    }
    if FindUserByUsername(db.users, username).Some? {
      return Fail(409, UsernameTaken);
    }
    var rawPassword := Hex(pwBytes);
    var passwordHash := env.bcrypt.hash(rawPassword, salt);
    db.CreateUser(id, username.value, passwordHash, ipHash, now);
    r := Success(Registered(rawPassword));
  }

  // ---- credentials ----

  /** Why a credential check fails: no such user, no password to compare
      (bcrypt.compare throws), a password that does not match, or a banned
      account. */
  datatype AuthError = UnknownUser | NoPassword | WrongPassword | Banned

  /** The check login and the whitelist route share: find the user by name,
      compare the password with its hash, and only then look at the ban
      flag (an integer, so any non-zero value is truthy). */
  function Authenticate(users: seq<User>, b: Bcrypt, username: Option<string>, password: Option<string>)
    : (r: Result<User, AuthError>)
    ensures var found := FindUserByUsername(users, username);
            r.Ok? <==> found.Some? && password.Some? && b.compare(password.value, found.value.passwordHash)
                        && found.value.isBanned == 0
    ensures r.Ok? ==> FindUserByUsername(users, username) == Some(r.value)
    ensures r == Err(UnknownUser) <==> FindUserByUsername(users, username).None?
    ensures var found := FindUserByUsername(users, username);
            found.Some? && password.None? ==> r == Err(NoPassword)
    ensures var found := FindUserByUsername(users, username);
            found.Some? && password.Some? && !b.compare(password.value, found.value.passwordHash) ==>
              r == Err(WrongPassword)
    ensures var found := FindUserByUsername(users, username);
            r == Err(Banned) <==>
              found.Some? && password.Some? && b.compare(password.value, found.value.passwordHash)
              && found.value.isBanned != 0
  {
    match FindUserByUsername(users, username)
    case None => Err(UnknownUser)
    case Some(user) =>
      if password.None? then Err(NoPassword)
      else if !b.compare(password.value, user.passwordHash) then Err(WrongPassword)
      else if user.isBanned != 0 then Err(Banned)
      else Ok(user)
  }

  /** The response a failed credential check gives: 401 for an unknown user
      or a wrong password, 403 for a ban, and the route's own 500 when
      bcrypt threw. */
  function AuthFailure<T>(e: AuthError, thrown: string): (r: Reply<T>)
    ensures r.Failure? && (r.status == 401 || r.status == 403 || r.status == 500)
    ensures r.status == 403 <==> e == Banned
    ensures e == UnknownUser || e == WrongPassword ==> r == Fail(401, InvalidCredentials)
    ensures e == NoPassword ==> r == Fail(500, thrown)
    ensures e == Banned ==> r == Fail(403, AccessSuspended)
  {
    match e
    case UnknownUser => Fail(401, InvalidCredentials)
    case WrongPassword => Fail(401, InvalidCredentials)
    case NoPassword => Fail(500, thrown)
    case Banned => Fail(403, AccessSuspended)
  }

  // ---- login ----

  datatype Profile = Profile(username: string, whitelistedNick: Option<string>)

  /** POST /auth/login: reads the User table and changes nothing. Success
      returns the name and the stored nick of the user whose password
      matched and who is not banned. */
  function Login(users: seq<User>, b: Bcrypt, username: Option<string>, password: Option<string>)
    : (r: Reply<Profile>)
    ensures r.Success? <==> Authenticate(users, b, username, password).Ok?
    ensures r.Success? ==>
              var user := FindUserByUsername(users, username).value;
              r.body == Profile(user.username, user.whitelistedNick)
    ensures r.Failure? ==> r == AuthFailure(Authenticate(users, b, username, password).error, LoginFailed)
    ensures FindUserByUsername(users, username).None? ==> r == Fail(401, InvalidCredentials)
    ensures r.Failure? ==> r.status == 401 || r.status == 403 || r.status == 500
  {
    match Authenticate(users, b, username, password)
    case Err(e) => AuthFailure(e, LoginFailed)
    case Ok(user) => Success(Profile(user.username, user.whitelistedNick))
  }

  /** Credentials come before the ban: a wrong password is 401 whether or not
      the account is banned. */
  lemma WrongPasswordBeforeBan(users: seq<User>, b: Bcrypt, name: string, pw: string)
    requires FindUserByUsername(users, Some(name)).Some?
    requires !b.compare(pw, FindUserByUsername(users, Some(name)).value.passwordHash)
    ensures Login(users, b, Some(name), Some(pw)) == Fail(401, InvalidCredentials)
  {
  }

  /** The account register just created logs in with the password register
      returned, and has no nick yet. */
  lemma RegisteredCanLogIn(users: seq<User>, b: Bcrypt, id: string, name: string, pw: string,
                           salt: seq<Byte>, ipHash: string, now: nat)
    requires BcryptSound(b)
    requires FindUserByUsername(users, Some(name)).None?
    ensures Login(users + [NewUser(id, name, b.hash(pw, salt), ipHash, now)], b, Some(name), Some(pw))
              == Success(Profile(name, None))
  {
    var u := NewUser(id, name, b.hash(pw, salt), ipHash, now);
    FindAppended(users, u);
    assert b.compare(pw, b.hash(pw, salt));
  }

  /** After a ban, the right password no longer logs in: 403. */
  lemma BannedLoginSuspended(users: seq<User>, b: Bcrypt, name: string, pw: string, now: nat)
    requires FindUserByUsername(users, Some(name)).Some?
    requires b.compare(pw, FindUserByUsername(users, Some(name)).value.passwordHash)
    ensures Login(UpdateRows(users, name, Patch(Some(1), None), now), b, Some(name), Some(pw))
              == Fail(403, AccessSuspended)
  {
    FindAfterUpdate(users, name, Patch(Some(1), None), now);
  }

  // ---- self-set whitelist ----

  /** The outcome of POST /user/whitelist after the middleware for a request
      with the given isvpn flag, in terms of the rows before and after: which
      refusal comes first, and on success the one appended "add" task and the
      nick written. */
  ghost predicate WhitelistOutcome(users: seq<User>, tasks: seq<Task>, next: nat,
                                   users': seq<User>, tasks': seq<Task>, next': nat,
                                   env: Env, isvpn: bool, username: Option<string>, password: Option<string>,
                                   nick: Option<string>, iv: seq<Byte>, now: nat, r: Reply<()>)
  {
    && |iv| == IvLength
    && var auth := Authenticate(users, env.bcrypt, username, password);
       var enc := Encrypt(env.crypto, env.key, iv, nick);
    && (!isvpn && auth.Err? ==> r == AuthFailure(auth.error, InternalError))
    && (!isvpn && auth.Ok? && Truthy(auth.value.whitelistedNick) ==> r == Fail(403, NickAlreadySet))
    && (!isvpn && auth.Ok? && !Truthy(auth.value.whitelistedNick) && enc.Err? ==> r == Fail(500, InternalError))
    && (r.Success? <==> !isvpn && auth.Ok? && !Truthy(auth.value.whitelistedNick) && enc.Ok?)
    && (r.Success? ==>
          && tasks' == tasks + [Task(next, WhitelistKind, AddAction, enc.value, now)]
          && next' == next + 1
          && username.Some?
          && users' == UpdateRows(users, username.value, Patch(None, Some(nick)), now))
  }

  /** The rows a successful self-set leaves are the outcome it promises. */
  lemma WhitelistSucceeds(users: seq<User>, tasks: seq<Task>, next: nat, env: Env,
                          username: Option<string>, password: Option<string>,
                          nick: Option<string>, iv: seq<Byte>, now: nat)
    requires Authenticate(users, env.bcrypt, username, password).Ok?
    requires !Truthy(Authenticate(users, env.bcrypt, username, password).value.whitelistedNick)
    requires |iv| == IvLength && username.Some?
    requires Encrypt(env.crypto, env.key, iv, nick).Ok?
    ensures WhitelistOutcome(users, tasks, next, UpdateRows(users, username.value, Patch(None, Some(nick)), now),
                             tasks + [Task(next, WhitelistKind, AddAction, Encrypt(env.crypto, env.key, iv, nick).value, now)],
                             next + 1, env, false, username, password, nick, iv, now, Success(()))
  {
  }

  /** With DB_SECRET unset and the key loaded as the source loads it, a
      self-set of a non-empty nick by a user whose credentials check and who
      has no nick yet is answered 500: encrypt throws on the 40-byte
      fallback key. */
  lemma FallbackKeyBlocksWhitelist(users: seq<User>, tasks: seq<Task>, next: nat,
                                   users': seq<User>, tasks': seq<Task>, next': nat,
                                   env: Env, username: Option<string>, password: Option<string>,
                                   nick: Option<string>, iv: seq<Byte>, now: nat, r: Reply<()>)
    requires !Truthy(env.dbSecret) && env.key == EncryptionKeyAsWritten(env.dbSecret)
    requires Truthy(nick)
    requires Authenticate(users, env.bcrypt, username, password).Ok?
    requires !Truthy(Authenticate(users, env.bcrypt, username, password).value.whitelistedNick)
    requires WhitelistOutcome(users, tasks, next, users', tasks', next', env, false, username, password, nick, iv, now, r)
    ensures r == Fail(500, InternalError)
  {
    FallbackKeyRejected(env.crypto, iv, nick);
    assert Encrypt(env.crypto, env.key, iv, nick).Err?;
  }

  /** POST /user/whitelist, after the middleware: a flagged request is
      refused; the credentials must check; the stored nick must be unset
      (null or ""); then one ("whitelist", "add", encrypt(nick)) task is
      appended and the nick is written. encrypt throwing is a 500 with
      nothing written. */
  method SetWhitelist(db: Store, env: Env, request: Request, username: Option<string>,
                      password: Option<string>, nick: Option<string>, iv: seq<Byte>, now: nat)
    returns (r: Reply<()>)
    requires db.Valid() && |iv| == IvLength
    modifies db
    ensures db.Valid()
    ensures request.isvpn ==> r == Fail(403, VpnDetected)
    ensures r.Failure? ==>
              db.users == old(db.users) && db.tasks == old(db.tasks) && db.nextTaskId == old(db.nextTaskId)
    ensures r.Success? ==> |db.tasks| == |old(db.tasks)| + 1
    ensures WhitelistOutcome(old(db.users), old(db.tasks), old(db.nextTaskId), db.users, db.tasks, db.nextTaskId,
                             env, request.isvpn, username, password, nick, iv, now, r)
  {
    if request.isvpn {
      return Fail(403, VpnDetected);
    }
    ghost var users0, tasks0, next0 := db.users, db.tasks, db.nextTaskId;
    var auth := Authenticate(db.users, env.bcrypt, username, password);
    if auth.Err? {
      return AuthFailure(auth.error, InternalError);
    }
    var user := auth.value;
    if Truthy(user.whitelistedNick) {
      return Fail(403, NickAlreadySet);
    }
    var enc := Encrypt(env.crypto, env.key, iv, nick);
    if enc.Err? {
      return Fail(500, InternalError);
    }
    var _ := db.CreateTask(WhitelistKind, AddAction, enc.value, now);
    var ok := db.UpdateUser(username.value, Patch(None, Some(nick)), now);
    r := Success(());
    WhitelistSucceeds(users0, tasks0, next0, env, username, password, nick, iv, now);
  }

  /** Once a non-empty nick is set, the next self-service attempt with the
      same credentials finds it set, and is refused with 403. */
  lemma NickSetOnce(users: seq<User>, b: Bcrypt, name: string, pw: Option<string>, nick: Option<string>, now: nat)
    requires Authenticate(users, b, Some(name), pw).Ok?
    requires Truthy(nick)
    ensures var after := Authenticate(UpdateRows(users, name, Patch(None, Some(nick)), now), b, Some(name), pw);
            after.Ok? && after.value.whitelistedNick == nick
  {
    FindAfterUpdate(users, name, Patch(None, Some(nick)), now);
  }

  /** An empty or missing nick passes the guard, is enqueued as an "add"
      with that same empty data, and leaves the slot unset, so the user may
      try again. */
  lemma EmptyNickLeavesSlotOpen(users: seq<User>, b: Bcrypt, name: string, pw: Option<string>,
                                c: Crypto, key: string, iv: seq<Byte>, nick: Option<string>, now: nat)
    requires Authenticate(users, b, Some(name), pw).Ok?
    requires |iv| == IvLength && !Truthy(nick)
    ensures Encrypt(c, key, iv, nick) == Ok(nick)
    ensures var after := Authenticate(UpdateRows(users, name, Patch(None, Some(nick)), now), b, Some(name), pw);
            after.Ok? && !Truthy(after.value.whitelistedNick)
  {
    FindAfterUpdate(users, name, Patch(None, Some(nick)), now);
  }

  // ---- admin ----

  /** POST /admin/check: strict equality with DB_SECRET, so when DB_SECRET
      is unset a request without a secret passes. */
  function AdminCheck(secret: Option<string>, dbSecret: Option<string>): (r: Reply<()>)
    ensures r.Success? <==> secret == dbSecret
    ensures r.Failure? ==> r == Failure(401, None)
  {
    if secret == dbSecret then Success(()) else Failure(401, None)
  }

  function RemoveTask(id: nat, data: Option<string>, now: nat): Task {
    Task(id, WhitelistKind, RemoveAction, data, now)
  }

  function AddTask(id: nat, data: Option<string>, now: nat): Task {
    Task(id, WhitelistKind, AddAction, data, now)
  }

  /** POST /admin/action: the secret, then the target, then the action.
      The outcome of each action is stated by the method that runs it. */
  method AdminAction(db: Store, env: Env, secret: Option<string>, action: Option<string>,
                     target: Option<string>, value: Option<string>,
                     iv1: seq<Byte>, iv2: seq<Byte>, now: nat)
    returns (r: Reply<()>)
    requires db.Valid() && |iv1| == IvLength && |iv2| == IvLength
    modifies db
    ensures db.Valid()
    ensures secret != env.dbSecret ==> r == Fail(401, Unauthorized) && unchanged(db)
    ensures secret == env.dbSecret && FindUserByUsername(old(db.users), target).None? ==>
              r == Fail(404, UserNotFound) && unchanged(db)
    ensures secret == env.dbSecret && FindUserByUsername(old(db.users), target).Some? &&
            action !in {Some(BanAction), Some(UnbanAction), Some(SetWhitelistAction), Some(ClearWhitelistAction)} ==>
              r == Fail(400, InvalidAction) && unchanged(db)
    ensures secret == env.dbSecret && FindUserByUsername(old(db.users), target).Some? ==>
              var user := FindUserByUsername(old(db.users), target).value;
              var old1 := Encrypt(env.crypto, env.key, iv1, user.whitelistedNick);
              var new2 := Encrypt(env.crypto, env.key, iv2, value);
              && (action == Some(BanAction) ==>
                    BanOutcome(old(db.users), old(db.tasks), old(db.nextTaskId), db.users, db.tasks, db.nextTaskId,
                               user, old1, now, r))
              && (action == Some(UnbanAction) ==>
                    r == Success(()) && db.tasks == old(db.tasks) && db.nextTaskId == old(db.nextTaskId)
                    && db.users == UpdateRows(old(db.users), user.username, Patch(Some(0), None), now))
              && (action == Some(SetWhitelistAction) ==>
                    SetOutcome(old(db.users), old(db.tasks), old(db.nextTaskId), db.users, db.tasks, db.nextTaskId,
                               user, value, old1, new2, now, r))
              && (action == Some(ClearWhitelistAction) ==>
                    ClearOutcome(old(db.users), old(db.tasks), old(db.nextTaskId), db.users, db.tasks, db.nextTaskId,
                                 user, old1, now, r))
  {
    if secret != env.dbSecret {
      return Fail(401, Unauthorized);
    }
    var found := FindUserByUsername(db.users, target);
    if found.None? {
      return Fail(404, UserNotFound);
    }
    var user := found.value;
    if action == Some(BanAction) {
      r := Ban(db, env, user, iv1, now);
    } else if action == Some(UnbanAction) {
      var _ := db.UpdateUser(user.username, Patch(Some(0), None), now);
      r := Success(());
    } else if action == Some(SetWhitelistAction) {
      r := ForceWhitelist(db, env, user, value, iv1, iv2, now);
    } else if action == Some(ClearWhitelistAction) {
      r := ClearWhitelist(db, env, user, iv1, now);
    } else {
      r := Fail(400, InvalidAction);
    }
  }

  /** The remove task the three admin actions enqueue for a user's current
      nick: one, when the nick is set and encrypt succeeded; none otherwise. */
  function Removal(user: User, enc: Result<Option<string>, CryptoError>, next: nat, now: nat): seq<Task> {
    if Truthy(user.whitelistedNick) && enc.Ok? then [RemoveTask(next, enc.value, now)] else []
  }

  /** if (user.whitelistedNick) createTask("whitelist", "remove",
      encrypt(user.whitelistedNick)): ok is false when encrypt threw, in
      which case nothing was written. */
  method EnqueueRemoval(db: Store, env: Env, user: User, iv: seq<Byte>, now: nat) returns (ok: bool)
    requires db.Valid() && |iv| == IvLength
    modifies db
    ensures db.Valid()
    ensures var enc := Encrypt(env.crypto, env.key, iv, user.whitelistedNick);
            && (ok <==> !Truthy(user.whitelistedNick) || enc.Ok?)
            && db.tasks == old(db.tasks) + Removal(user, enc, old(db.nextTaskId), now)
            && db.nextTaskId == old(db.nextTaskId) + |Removal(user, enc, old(db.nextTaskId), now)|
    ensures db.users == old(db.users)
  {
    ok := true;
    ghost var enc0 := Encrypt(env.crypto, env.key, iv, user.whitelistedNick);
    ghost var next0 := db.nextTaskId;
    if Truthy(user.whitelistedNick) {
      var enc := Encrypt(env.crypto, env.key, iv, user.whitelistedNick);
      if enc.Err? {
        return false;
      }
      var id := db.CreateTask(WhitelistKind, RemoveAction, enc.value, now);
      assert Removal(user, enc0, next0, now) == [RemoveTask(id, enc.value, now)];
    } else {
      assert Removal(user, enc0, next0, now) == [];
    }
  }

  /** ban: isBanned = 1 is written first; then, only when the user has a
      nick, one remove task for it. The nick itself is kept. encrypt
      throwing after the update leaves the ban written and no task. */
  ghost predicate BanOutcome(users: seq<User>, tasks: seq<Task>, next: nat,
                             users': seq<User>, tasks': seq<Task>, next': nat,
                             user: User, enc: Result<Option<string>, CryptoError>, now: nat, r: Reply<()>)
  {
    && users' == UpdateRows(users, user.username, Patch(Some(1), None), now)
    && tasks' == tasks + Removal(user, enc, next, now)
    && next' == next + |Removal(user, enc, next, now)|
    && (r == Success(()) <==> !Truthy(user.whitelistedNick) || enc.Ok?)
    && (r != Success(()) ==> r == Fail(500, ServerError))
  }

  method Ban(db: Store, env: Env, user: User, iv: seq<Byte>, now: nat) returns (r: Reply<()>)
    requires db.Valid() && |iv| == IvLength
    modifies db
    ensures db.Valid()
    ensures BanOutcome(old(db.users), old(db.tasks), old(db.nextTaskId), db.users, db.tasks, db.nextTaskId,
                       user, Encrypt(env.crypto, env.key, iv, user.whitelistedNick), now, r)
  {
    var _ := db.UpdateUser(user.username, Patch(Some(1), None), now);
    var ok := EnqueueRemoval(db, env, user, iv, now);
    r := if ok then Success(()) else Fail(500, ServerError);
  }

  /** set_whitelist: a remove task for the old nick when there is one, then
      an add task for the new value, then the nick is overwritten. When
      encrypt throws on the old nick nothing is written; when it throws on
      the new value the remove task (if any) stays. */
  ghost predicate SetOutcome(users: seq<User>, tasks: seq<Task>, next: nat,
                             users': seq<User>, tasks': seq<Task>, next': nat,
                             user: User, value: Option<string>,
                             old1: Result<Option<string>, CryptoError>, new2: Result<Option<string>, CryptoError>,
                             now: nat, r: Reply<()>)
  {
    var hadNick := Truthy(user.whitelistedNick);
    if hadNick && old1.Err? then
      r == Fail(500, ServerError) && users' == users && tasks' == tasks && next' == next
    else
      var removed := if hadNick then [RemoveTask(next, old1.value, now)] else [];
      var addId := if hadNick then next + 1 else next;
      if new2.Err? then
        r == Fail(500, ServerError) && users' == users && tasks' == tasks + removed && next' == addId
      else
        && r == Success(())
        && tasks' == tasks + removed + [AddTask(addId, new2.value, now)]
        && next' == addId + 1
        && users' == UpdateRows(users, user.username, Patch(None, Some(value)), now)
  }

  method ForceWhitelist(db: Store, env: Env, user: User, value: Option<string>,
                        iv1: seq<Byte>, iv2: seq<Byte>, now: nat) returns (r: Reply<()>)
    requires db.Valid() && |iv1| == IvLength && |iv2| == IvLength
    modifies db
    ensures db.Valid()
    ensures SetOutcome(old(db.users), old(db.tasks), old(db.nextTaskId), db.users, db.tasks, db.nextTaskId,
                       user, value, Encrypt(env.crypto, env.key, iv1, user.whitelistedNick),
                       Encrypt(env.crypto, env.key, iv2, value), now, r)
  {
    if Truthy(user.whitelistedNick) {
      var enc := Encrypt(env.crypto, env.key, iv1, user.whitelistedNick);
      if enc.Err? {
        return Fail(500, ServerError);
      }
      var _ := db.CreateTask(WhitelistKind, RemoveAction, enc.value, now);
    }
    ghost var old1 := Encrypt(env.crypto, env.key, iv1, user.whitelistedNick);
    ghost var hadNick := Truthy(user.whitelistedNick);
    ghost var removed := if hadNick then [RemoveTask(old(db.nextTaskId), old1.value, now)] else [];
    ghost var addId := if hadNick then old(db.nextTaskId) + 1 else old(db.nextTaskId);
    assert db.tasks == old(db.tasks) + removed && db.nextTaskId == addId;
    var enc := Encrypt(env.crypto, env.key, iv2, value);
    if enc.Err? {
      return Fail(500, ServerError);
    }
    var id := db.CreateTask(WhitelistKind, AddAction, enc.value, now);
    assert id == addId;
    assert db.tasks == old(db.tasks) + removed + [AddTask(addId, enc.value, now)];
    var _ := db.UpdateUser(user.username, Patch(None, Some(value)), now);
    r := Success(());
  }

  /** clear_whitelist: only a user with a nick gets a remove task and a
      NULL nick; for any other user nothing changes. */
  ghost predicate ClearOutcome(users: seq<User>, tasks: seq<Task>, next: nat,
                               users': seq<User>, tasks': seq<Task>, next': nat,
                               user: User, enc: Result<Option<string>, CryptoError>, now: nat, r: Reply<()>)
  {
    && (!Truthy(user.whitelistedNick) ==> r == Success(()) && users' == users && tasks' == tasks && next' == next)
    && (Truthy(user.whitelistedNick) && enc.Err? ==>
          r == Fail(500, ServerError) && users' == users && tasks' == tasks && next' == next)
    && (Truthy(user.whitelistedNick) && enc.Ok? ==>
          && r == Success(())
          && tasks' == tasks + [RemoveTask(next, enc.value, now)] && next' == next + 1
          && users' == UpdateRows(users, user.username, Patch(None, Some(None)), now))
  }

  method ClearWhitelist(db: Store, env: Env, user: User, iv: seq<Byte>, now: nat) returns (r: Reply<()>)
    requires db.Valid() && |iv| == IvLength
    modifies db
    ensures db.Valid()
    ensures ClearOutcome(old(db.users), old(db.tasks), old(db.nextTaskId), db.users, db.tasks, db.nextTaskId,
                         user, Encrypt(env.crypto, env.key, iv, user.whitelistedNick), now, r)
  {
    if Truthy(user.whitelistedNick) {
      var ok := EnqueueRemoval(db, env, user, iv, now);
      if !ok {
        return Fail(500, ServerError);
      }
      var _ := db.UpdateUser(user.username, Patch(None, Some(None)), now);
      return Success(());
    }
    r := Success(());
  }

  /** A ban keeps the nick: the banned user's row still holds it. */
  lemma BanKeepsNick(users: seq<User>, name: string, now: nat)
    requires FindUserByUsername(users, Some(name)).Some?
    ensures var after := FindUserByUsername(UpdateRows(users, name, Patch(Some(1), None), now), Some(name));
            after.Some? && after.value.isBanned == 1 &&
            after.value.whitelistedNick == FindUserByUsername(users, Some(name)).value.whitelistedNick
  {
    FindAfterUpdate(users, name, Patch(Some(1), None), now);
  }

  // ---- the routes with their preHandler ----

  /** /auth/register as routed: antiVpnMiddleware, then the handler unless
      the middleware answered. */
  method RegisterRoute(db: Store, known: KnownProxies, env: Env, request: Request, lookup: Option<Lookup>,
                       username: Option<string>, pwBytes: seq<Byte>, salt: seq<Byte>, id: string, now: nat)
    returns (r: Reply<Registered>)
    requires |pwBytes| == PasswordBytes
    modifies db, request
    ensures db.tasks == old(db.tasks) && db.nextTaskId == old(db.nextTaskId)
    ensures NormaliseIp(request.ip) in known.entries ==> r == Fail(403, ProxyDetected) && db.users == old(db.users)
    ensures NormaliseIp(request.ip) !in known.entries && FlagsProxy(lookup) ==>
              r == Fail(403, VpnNotAllowed) && db.users == old(db.users)
    ensures r.Success? ==> |db.users| == |old(db.users)| + 1
    ensures UniqueAccounts(old(db.users)) ==> UniqueAccounts(db.users)
  {
    var hook, _ := AntiVpnMiddleware(request, known, lookup);
    if hook.Halt? {
      return Fail(hook.status, hook.error);
    }
    ghost var flagged := request.isvpn;
    assert flagged == FlagsProxy(lookup) && NormaliseIp(request.ip) !in known.entries;
    r := Register(db, env, request, username, pwBytes, salt, id, now);
    assert request.isvpn == flagged;
  }

  /** /user/whitelist as routed: antiVpnMiddleware, then the handler. */
  method SetWhitelistRoute(db: Store, known: KnownProxies, env: Env, request: Request, lookup: Option<Lookup>,
                           username: Option<string>, password: Option<string>, nick: Option<string>,
                           iv: seq<Byte>, now: nat)
    returns (r: Reply<()>)
    requires db.Valid() && |iv| == IvLength
    modifies db, request
    ensures db.Valid()
    ensures NormaliseIp(request.ip) in known.entries || FlagsProxy(lookup) ==>
              db.users == old(db.users) && db.tasks == old(db.tasks) && db.nextTaskId == old(db.nextTaskId)
    ensures NormaliseIp(request.ip) in known.entries ==> r == Fail(403, ProxyDetected)
    ensures NormaliseIp(request.ip) !in known.entries && FlagsProxy(lookup) ==> r == Fail(403, VpnDetected)
    ensures r.Success? ==> |db.tasks| == |old(db.tasks)| + 1
  {
    var hook, _ := AntiVpnMiddleware(request, known, lookup);
    if hook.Halt? {
      return Fail(hook.status, hook.error);
    }
    ghost var flagged := request.isvpn;
    assert flagged == FlagsProxy(lookup) && NormaliseIp(request.ip) !in known.entries;
    r := SetWhitelist(db, env, request, username, password, nick, iv, now);
    assert request.isvpn == flagged;
  }
}
