/**
 * UserService: lookup and search of accounts, the profile and password
 * updates, and account deletion with its memberships.
 */
module UserService {
  import opened Domain
  import opened Lookup
  import opened Store

  /** The exception of UpdateUserProfileAsync. */
  datatype UserError = UserNameTaken

  /** The most users a search returns. */
  const SearchLimit: nat := 20

  /** GetUserByIdAsync: the user, or null when no user has the id. */
  function GetUserById(users: map<UserId, User>, userId: UserId): (r: Option<User>)
    ensures r.None? <==> userId !in users
    ensures r.Some? ==> r.value == users[userId]
  {
    if userId in users then Some(users[userId]) else None
  }

  /** `char.IsWhiteSpace`: the Unicode space separators and the listed control characters. */
  predicate IsWhiteSpace(c: char) {
    || ('\U{9}' <= c <= '\U{D}') || c == '\U{20}' || c == '\U{85}' || c == '\U{A0}'
    || c == '\U{1680}' || ('\U{2000}' <= c <= '\U{200A}') || c == '\U{2028}' || c == '\U{2029}'
    || c == '\U{202F}' || c == '\U{205F}' || c == '\U{3000}'
  }

  /** `string.IsNullOrWhiteSpace`. */
  predicate IsNullOrWhiteSpace(s: Option<string>) {
    s.None? || forall i | 0 <= i < |s.value| :: IsWhiteSpace(s.value[i])
  }

  /** Ordinal `string.Contains`: `t` occurs in `s` at some position. */
  predicate Contains(s: string, t: string)
    decreases |s|
  {
    t <= s || (s != [] && Contains(s[1..], t))
  }

  /** A witness position makes `Contains` true, and `Contains` yields one. */
  lemma {:induction false} ContainsAt(s: string, t: string)
    ensures Contains(s, t) <==> exists i | 0 <= i <= |s| - |t| :: t <= s[i..]
    decreases |s|
  {
    if t <= s {
      assert t <= s[0..];
    } else if s == [] {
    } else {
      ContainsAt(s[1..], t);
      if Contains(s[1..], t) {
        var i :| 0 <= i <= |s[1..]| - |t| && t <= s[1..][i..];
        assert s[1..][i..] == s[i + 1..];
      } else {
        forall i | 0 <= i <= |s| - |t| ensures !(t <= s[i..]) {
          if i > 0 {
            assert s[1..][i - 1..] == s[i..];
          }
        }
      }
    }
  }

  /** The search predicate: the term occurs in the user name or in the email. */
  predicate Matches(u: User, term: string) {
    Contains(u.userName, term) || Contains(u.email, term)
  }

  /** The users of the scan that match the term, in scan order. */
  function Matching(users: map<UserId, User>, scan: seq<UserId>, term: string): (r: seq<UserId>)
    ensures forall u :: u in r <==> u in scan && u in users && Matches(users[u], term)
    ensures |r| <= |scan|
    ensures Subsequence(r, scan)
    ensures forall u :: multiset(r)[u] == if u in users && Matches(users[u], term) then multiset(scan)[u] else 0
  {
    if scan == [] then []
    else
      var rest := Matching(users, scan[1..], term);
      assert scan == [scan[0]] + scan[1..];
      if scan[0] in users && Matches(users[scan[0]], term) then
        assert ([scan[0]] + rest)[1..] == rest;
        [scan[0]] + rest
      else
        assert rest != [] ==> rest[0] in rest && rest[0] != scan[0];
        rest
  }

  /**
   * SearchUsersAsync: nothing for a null or blank term, otherwise the first
   * twenty matching users in the order `scan` reads the Users table.
   */
  function SearchUsers(users: map<UserId, User>, scan: seq<UserId>, term: Option<string>): (r: seq<UserId>)
    ensures IsNullOrWhiteSpace(term) ==> r == []
    ensures |r| <= SearchLimit
    ensures forall u | u in r :: u in users && Matches(users[u], term.value)
    ensures !IsNullOrWhiteSpace(term) && |Matching(users, scan, term.value)| <= SearchLimit ==>
      forall u | u in scan && u in users && Matches(users[u], term.value) :: u in r
    ensures !IsNullOrWhiteSpace(term) && |Matching(users, scan, term.value)| >= SearchLimit ==> |r| == SearchLimit
  {
    if IsNullOrWhiteSpace(term) then []
    else Take(Matching(users, scan, term.value), SearchLimit)
  }

  /**
   * UpdateUserProfileAsync: null for a missing user; a change to a user name
   * some account already holds is refused; otherwise the name, picture and
   * last-active time are overwritten.
   */
  method UpdateUserProfile(db: Database, userId: UserId, userName: string, profilePictureUrl: Option<string>, now: Time)
    returns (r: Result<Option<User>, UserError>)
    modifies db
    ensures db.chats == old(db.chats) && db.chatUsers == old(db.chatUsers)
    ensures db.messages == old(db.messages) && db.attachments == old(db.attachments)
    ensures userId !in old(db.users) ==> r == Ok(None)
    ensures r.Err? <==> (userId in old(db.users) && old(db.users)[userId].userName != userName
                         && NameTaken(old(db.users), userName))
    ensures r.Err? ==> r == Err(UserNameTaken)
    ensures r == Ok(None) || r.Err? ==> db.users == old(db.users)
    ensures r.Ok? && r.value.Some? ==>
      && userId in old(db.users)
      && r.value.value == old(db.users)[userId].(userName := userName, profilePictureUrl := profilePictureUrl,
                                                 lastActive := now)
      && db.users == old(db.users)[userId := r.value.value]
  {
    if userId !in db.users {
      return Ok(None);
    }
    var user := db.users[userId];
    if user.userName != userName {
      if NameTaken(db.users, userName) {
        return Err(UserNameTaken);
      }
    }
    var updated := user.(userName := userName, profilePictureUrl := profilePictureUrl, lastActive := now);
    db.users := db.users[userId := updated];
    r := Ok(Some(updated));
  }

  /** A profile update the method accepts keeps user names and emails unique. */
  lemma {:induction false} ProfileUpdateKeepsAccountsUnique(users: map<UserId, User>, userId: UserId, userName: string,
                                                            profilePictureUrl: Option<string>, now: Time)
    requires UniqueAccounts(users) && userId in users
    requires users[userId].userName == userName || !NameTaken(users, userName)
    ensures UniqueAccounts(users[userId := users[userId].(userName := userName,
                                                          profilePictureUrl := profilePictureUrl, lastActive := now)])
  {
    var r := users[userId := users[userId].(userName := userName, profilePictureUrl := profilePictureUrl, lastActive := now)];
    forall a, b | a in r && b in r && a != b
      ensures r[a].email != r[b].email && r[a].userName != r[b].userName
    {
      if a == userId {
        assert users[b].userName != userName;
      } else if b == userId {
        assert users[a].userName != userName;
      }
    }
  }

  /**
   * UpdateUserPasswordAsync. `verify` and `hash` stand for BCrypt's Verify and
   * HashPassword, `salt` for the salt BCrypt generates.
   */
  method UpdateUserPassword(db: Database, userId: UserId, currentPassword: string, newPassword: string,
                            verify: (string, string) -> bool, hash: (string, string) -> string,
                            salt: string, now: Time)
    returns (ok: bool)
    modifies db
    ensures db.chats == old(db.chats) && db.chatUsers == old(db.chatUsers)
    ensures db.messages == old(db.messages) && db.attachments == old(db.attachments)
    ensures ok <==> userId in old(db.users) && verify(currentPassword, old(db.users)[userId].passwordHash)
    ensures !ok ==> db.users == old(db.users)
    ensures ok ==> db.users == old(db.users)[userId := old(db.users)[userId].(
      passwordHash := hash(newPassword, salt), salt := salt, lastActive := now)]
  {
    if userId !in db.users {
      return false;
    }
    var user := db.users[userId];
    if !verify(currentPassword, user.passwordHash) {
      return false;
    }
    db.users := db.users[userId := user.(passwordHash := hash(newPassword, salt), salt := salt, lastActive := now)];
    ok := true;
  }

  /** DeleteUserAsync: the user's membership rows go first, then the user. */
  method DeleteUser(db: Database, userId: UserId) returns (ok: bool)
    modifies db
    ensures db.chats == old(db.chats)
    ensures db.messages == old(db.messages) && db.attachments == old(db.attachments)
    ensures ok <==> userId in old(db.users)
    ensures !ok ==> db.users == old(db.users) && db.chatUsers == old(db.chatUsers)
    ensures ok ==> db.users == old(db.users) - {userId} && db.chatUsers == WithoutUser(old(db.chatUsers), userId)
  {
    if userId !in db.users {
      return false;
    }
    db.chatUsers := WithoutUser(db.chatUsers, userId);
    db.users := db.users - {userId};
    ok := true;
  }

  /** After the user's rows go the user is in no chat, and every other membership stays. */
  lemma {:induction false} DeletedUserInNoChat(rows: map<MemberKey, ChatUser>, userId: UserId)
    ensures forall c :: Members(WithoutUser(rows, userId), c) == Members(rows, c) - {userId}
  {
    forall c ensures Members(WithoutUser(rows, userId), c) == Members(rows, c) - {userId} {
      assert forall u :: IsMember(WithoutUser(rows, userId), c, u) <==> IsMember(rows, c, u) && u != userId;
    }
  }
}
