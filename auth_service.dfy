/**
 * AuthService: registration, login, the password-reset token and email
 * confirmation, each a chain of early-return checks followed by updates of
 * one account. BCrypt, the JWT and the clock are parameters.
 */
module AuthService {
  import opened Domain
  import opened Store

  /** Why an authentication request failed, one case per message of the source. */
  datatype AuthFailure = EmailInUse | UserNameInUse | UnknownEmail | WrongPassword | EmailNotConfirmed | InternalError

  /** An AuthResultDto: Success with the account, or not with the reason. */
  datatype AuthResult = Authenticated(userId: UserId) | Rejected(reason: AuthFailure)

  /** How long a reset token stays valid. */
  const ResetTokenLifetime: Time := 24 * TicksPerHour

  /** The account ResetPasswordAsync looks for: email, token and an unexpired expiry all match. */
  predicate ResetMatch(u: User, email: string, token: string, now: Time) {
    u.email == email && u.resetToken == Some(token) && u.resetTokenExpiry.Some? && u.resetTokenExpiry.value > now
  }

  /** The two account lookups of the service. */
  datatype Query = ByEmail(email: string) | ByResetToken(email: string, token: string, now: Time)

  predicate Satisfies(u: User, q: Query) {
    match q
    case ByEmail(email) => u.email == email
    case ByResetToken(email, token, now) => ResetMatch(u, email, token, now)
  }

  /**
   * `Users.FirstOrDefaultAsync(...)`: the first account, in the order `scan`
   * reads the table, that satisfies the query.
   */
  function FirstWhere(users: map<UserId, User>, scan: seq<UserId>, q: Query): (r: Option<UserId>)
    ensures r.None? <==> forall u | u in scan && u in users :: !Satisfies(users[u], q)
    ensures r.Some? ==> r.value in scan && r.value in users && Satisfies(users[r.value], q)
    ensures r.Some? ==> exists i | 0 <= i < |scan| ::
      (scan[i] == r.value && forall j | 0 <= j < i :: !(scan[j] in users && Satisfies(users[scan[j]], q)))
  {
    if scan == [] then None
    else if scan[0] in users && Satisfies(users[scan[0]], q) then
      var first := scan[0];
      assert first in scan && first in users && Satisfies(users[first], q);
      Some(first)
    else
      assert scan == [scan[0]] + scan[1..];
      var r := FirstWhere(users, scan[1..], q);
      if r.Some? then
        var i :| 0 <= i < |scan[1..]| &&
          (scan[1..][i] == r.value && forall j | 0 <= j < i :: !(scan[1..][j] in users && Satisfies(users[scan[1..][j]], q)));
        assert scan[i + 1] == r.value;
        assert forall j | 0 <= j < i + 1 :: !(scan[j] in users && Satisfies(users[scan[j]], q)) by {
          forall j | 0 <= j < i + 1 ensures !(scan[j] in users && Satisfies(users[scan[j]], q)) {
            if j > 0 { assert scan[j] == scan[1..][j - 1]; }
          }
        }
        r
      else
        r
  }

  /** With unique emails the account found by email is the only one holding it. */
  lemma {:induction false} FirstByEmailIsTheAccount(users: map<UserId, User>, scan: seq<UserId>, email: string, u: UserId)
    requires UniqueAccounts(users)
    requires u in scan && u in users && users[u].email == email
    ensures FirstWhere(users, scan, ByEmail(email)) == Some(u)
  {
    var r := FirstWhere(users, scan, ByEmail(email));
    assert u in scan && u in users && Satisfies(users[u], ByEmail(email));
    assert r.Some?;
    assert Satisfies(users[r.value], ByEmail(email));
    assert users[r.value].email == users[u].email;
    if r.value != u {
      assert false;
    }
  }

  /** The account RegisterAsync creates. */
  function NewAccount(userName: string, email: string, passwordHash: string, salt: string, now: Time): (u: User)
    ensures u.userName == userName && u.email == email && !u.emailConfirmed
    ensures u.resetToken.None? && u.resetTokenExpiry.None? && u.profilePictureUrl.None?
    ensures u.createdAt == now && u.lastActive == now
  {
    User(userName, email, passwordHash, salt, None, now, now, false, None, None)
  }

  /**
   * RegisterAsync. The email is checked before the user name; `hash` and
   * `salt` stand for BCrypt, `userId` for the fresh Guid, and `saveFails` for
   * an exception on saving, which the method turns into a failure.
   */
  method Register(db: Database, userName: string, email: string, password: string,
                  hash: (string, string) -> string, salt: string, userId: UserId, now: Time, saveFails: bool)
    returns (r: AuthResult)
    requires userId !in db.users
    modifies db
    ensures db.chats == old(db.chats) && db.chatUsers == old(db.chatUsers)
    ensures db.messages == old(db.messages) && db.attachments == old(db.attachments)
    ensures EmailTaken(old(db.users), email) ==> r == Rejected(EmailInUse)
    ensures !EmailTaken(old(db.users), email) && NameTaken(old(db.users), userName) ==> r == Rejected(UserNameInUse)
    ensures !EmailTaken(old(db.users), email) && !NameTaken(old(db.users), userName) ==>
      r == (if saveFails then Rejected(InternalError) else Authenticated(userId))
    ensures r.Rejected? ==> db.users == old(db.users)
    ensures r.Authenticated? ==>
      db.users == old(db.users)[userId := NewAccount(userName, email, hash(password, salt), salt, now)]
  {
    if EmailTaken(db.users, email) {
      return Rejected(EmailInUse);
    }
    if NameTaken(db.users, userName) {
      return Rejected(UserNameInUse);
    }
    if saveFails {
      return Rejected(InternalError);
    }
    db.users := db.users[userId := NewAccount(userName, email, hash(password, salt), salt, now)];
    r := Authenticated(userId);
  }

  /** A registration the method accepts keeps emails and user names unique. */
  lemma {:induction false} RegisterKeepsAccountsUnique(users: map<UserId, User>, userId: UserId, account: User)
    requires UniqueAccounts(users) && userId !in users
    requires !EmailTaken(users, account.email) && !NameTaken(users, account.userName)
    ensures UniqueAccounts(users[userId := account])
  {
    var r := users[userId := account];
    forall a, b | a in r && b in r && a != b
      ensures r[a].email != r[b].email && r[a].userName != r[b].userName
    {
      if a == userId {
        assert b in users && r[b] == users[b];
      } else if b == userId {
        assert a in users && r[a] == users[a];
      }
    }
  }

  /**
   * LoginAsync. Failures in order: no account with the email, wrong password,
   * unconfirmed email; none of them touches the account. A successful login
   * changes only the account's last-active time. `verify` is BCrypt's Verify.
   */
  method Login(db: Database, email: string, password: string, verify: (string, string) -> bool,
               scan: seq<UserId>, now: Time, saveFails: bool)
    returns (r: AuthResult)
    modifies db
    ensures db.chats == old(db.chats) && db.chatUsers == old(db.chatUsers)
    ensures db.messages == old(db.messages) && db.attachments == old(db.attachments)
    ensures var found := FirstWhere(old(db.users), scan, ByEmail(email));
      && (found.None? ==> r == Rejected(UnknownEmail))
      && (found.Some? && !verify(password, old(db.users)[found.value].passwordHash) ==> r == Rejected(WrongPassword))
      && ((found.Some? && verify(password, old(db.users)[found.value].passwordHash)
           && !old(db.users)[found.value].emailConfirmed) ==> r == Rejected(EmailNotConfirmed))
      && ((found.Some? && verify(password, old(db.users)[found.value].passwordHash)
           && old(db.users)[found.value].emailConfirmed) ==>
            r == (if saveFails then Rejected(InternalError) else Authenticated(found.value)))
    ensures r.Rejected? ==> db.users == old(db.users)
    ensures r.Authenticated? ==>
      db.users == old(db.users)[r.userId := old(db.users)[r.userId].(lastActive := now)]
  {
    var found := FirstWhere(db.users, scan, ByEmail(email));
    if found.None? {
      return Rejected(UnknownEmail);
    }
    var user := db.users[found.value];
    if !verify(password, user.passwordHash) {
      return Rejected(WrongPassword);
    }
    if !user.emailConfirmed {
      return Rejected(EmailNotConfirmed);
    }
    if saveFails {
      return Rejected(InternalError);
    }
    db.users := db.users[found.value := user.(lastActive := now)];
    r := Authenticated(found.value);
  }

  /** RequestPasswordResetAsync: `token` is the fresh Guid's text. */
  method RequestPasswordReset(db: Database, email: string, scan: seq<UserId>, token: string, now: Time)
    returns (ok: bool)
    modifies db
    ensures db.chats == old(db.chats) && db.chatUsers == old(db.chatUsers)
    ensures db.messages == old(db.messages) && db.attachments == old(db.attachments)
    ensures var found := FirstWhere(old(db.users), scan, ByEmail(email));
      && (ok <==> found.Some?)
      && (!ok ==> db.users == old(db.users))
      && (ok ==> db.users == old(db.users)[found.value := old(db.users)[found.value].(
                   resetToken := Some(token), resetTokenExpiry := Some(now + ResetTokenLifetime))])
  {
    var found := FirstWhere(db.users, scan, ByEmail(email));
    if found.None? {
      return false;
    }
    var user := db.users[found.value];
    db.users := db.users[found.value := user.(resetToken := Some(token), resetTokenExpiry := Some(now + ResetTokenLifetime))];
    ok := true;
  }

  /** The account after a successful reset: new hash and salt, token and expiry cleared. */
  function AfterReset(u: User, passwordHash: string, salt: string): (v: User)
    ensures v.resetToken.None? && v.resetTokenExpiry.None?
    ensures v.passwordHash == passwordHash && v.salt == salt
    ensures v.email == u.email && v.userName == u.userName && v.emailConfirmed == u.emailConfirmed
  {
    u.(passwordHash := passwordHash, salt := salt, resetToken := None, resetTokenExpiry := None)
  }

  /** ResetPasswordAsync. */
  method ResetPassword(db: Database, token: string, email: string, password: string,
                       hash: (string, string) -> string, salt: string, scan: seq<UserId>, now: Time)
    returns (ok: bool)
    modifies db
    ensures db.chats == old(db.chats) && db.chatUsers == old(db.chatUsers)
    ensures db.messages == old(db.messages) && db.attachments == old(db.attachments)
    ensures var found := FirstWhere(old(db.users), scan, ByResetToken(email, token, now));
      && (ok <==> found.Some?)
      && (!ok ==> db.users == old(db.users))
      && (ok ==> db.users == old(db.users)[found.value := AfterReset(old(db.users)[found.value], hash(password, salt), salt)])
  {
    var found := FirstWhere(db.users, scan, ByResetToken(email, token, now));
    if found.None? {
      return false;
    }
    var user := db.users[found.value];
    db.users := db.users[found.value := AfterReset(user, hash(password, salt), salt)];
    ok := true;
  }

  /**
   * The token is single-use and expires: after a request at `issued` it
   * matches exactly until 24 hours later, and after the reset it never
   * matches again.
   */
  lemma {:induction false} ResetTokenLifecycle(u: User, token: string, issued: Time, now: Time,
                                               passwordHash: string, salt: string, later: Time)
    ensures var requested := u.(resetToken := Some(token), resetTokenExpiry := Some(issued + ResetTokenLifetime));
      && (ResetMatch(requested, u.email, token, now) <==> now < issued + ResetTokenLifetime)
      && !ResetMatch(AfterReset(requested, passwordHash, salt), u.email, token, later)
  {
  }

  /** ConfirmEmailAsync: the token is not checked; the account with the email is confirmed. */
  method ConfirmEmail(db: Database, token: string, email: string, scan: seq<UserId>) returns (ok: bool)
    modifies db
    ensures db.chats == old(db.chats) && db.chatUsers == old(db.chatUsers)
    ensures db.messages == old(db.messages) && db.attachments == old(db.attachments)
    ensures var found := FirstWhere(old(db.users), scan, ByEmail(email));
      && (ok <==> found.Some?)
      && (!ok ==> db.users == old(db.users))
      && (ok ==> db.users == old(db.users)[found.value := old(db.users)[found.value].(emailConfirmed := true)])
  {
    var found := FirstWhere(db.users, scan, ByEmail(email));
    if found.None? {
      return false;
    }
    var user := db.users[found.value];
    db.users := db.users[found.value := user.(emailConfirmed := true)];
    ok := true;
  }
}
