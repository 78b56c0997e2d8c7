/**
 * The server's database context: five tables held in memory, and the
 * membership queries and row-set updates every service builds on.
 */
module Store {
  import opened Domain

  /** ApplicationDbContext: one map per DbSet. ChatUsers is keyed by the
      composite key (ChatId, UserId), so a pair has at most one row. */
  class Database {
    var users: map<UserId, User>
    var chats: map<ChatId, Chat>
    var chatUsers: map<MemberKey, ChatUser>
    var messages: map<MessageId, Message>
    var attachments: map<AttachmentId, Attachment>

    constructor ()
      ensures users == map[] && chats == map[] && chatUsers == map[]
      ensures messages == map[] && attachments == map[]
    {
      users, chats, chatUsers := map[], map[], map[];
      messages, attachments := map[], map[];
    }
  }

  /**
   * No two accounts share an email or a user name: what the checks of
   * RegisterAsync and UpdateUserProfileAsync keep true.
   */
  predicate UniqueAccounts(users: map<UserId, User>) {
    forall a, b | a in users && b in users && a != b ::
      users[a].email != users[b].email && users[a].userName != users[b].userName
  }

  /** `Users.AnyAsync(u => u.UserName == name)`. */
  predicate NameTaken(users: map<UserId, User>, name: string) {
    exists u | u in users :: users[u].userName == name
  }

  /** `Users.AnyAsync(u => u.Email == email)`. */
  predicate EmailTaken(users: map<UserId, User>, email: string) {
    exists u | u in users :: users[u].email == email
  }

  /** `ChatUsers.Any(cu => cu.ChatId == chatId && cu.UserId == userId)`. */
  predicate IsMember(rows: map<MemberKey, ChatUser>, chatId: ChatId, userId: UserId) {
    (chatId, userId) in rows
  }

  /** The same query with `&& cu.IsAdmin`. */
  predicate IsAdmin(rows: map<MemberKey, ChatUser>, chatId: ChatId, userId: UserId) {
    (chatId, userId) in rows && rows[(chatId, userId)].isAdmin
  }

  /** The user ids of a chat's rows. */
  function Members(rows: map<MemberKey, ChatUser>, chatId: ChatId): (ms: set<UserId>)
    ensures forall u :: u in ms <==> IsMember(rows, chatId, u)
  {
    set k | k in rows && k.0 == chatId :: k.1
  }

  /** The keys of a chat's rows for the given users. */
  function KeysFor(chatId: ChatId, us: set<UserId>): (ks: set<MemberKey>)
    ensures forall k :: k in ks <==> k.0 == chatId && k.1 in us
  {
    var ks := set u | u in us :: (chatId, u);
    forall k: MemberKey | k.0 == chatId && k.1 in us ensures k in ks {
      var (c, u) := k;
      assert (chatId, u) in ks;
    }
    ks
  }

  /** The row a user gets on joining a chat at `now`. */
  function NewRow(isAdmin: bool, now: Time): ChatUser {
    ChatUser(isAdmin, now, None)
  }

  /**
   * Adds a fresh row for each user in `us` to chat `chatId`, the admins among
   * them flagged. Rows of other chats and of other users are kept.
   */
  function Enroll(rows: map<MemberKey, ChatUser>, chatId: ChatId, us: set<UserId>,
                  admins: set<UserId>, now: Time): (r: map<MemberKey, ChatUser>)
    ensures r.Keys == rows.Keys + KeysFor(chatId, us)
    ensures forall u | u in us :: r[(chatId, u)] == NewRow(u in admins, now)
    ensures forall k | k in rows && k !in KeysFor(chatId, us) :: r[k] == rows[k]
  {
    var added := map u | u in us :: (chatId, u) := NewRow(u in admins, now);
    assert added.Keys == KeysFor(chatId, us);
    rows + added
  }

  /** After enrolling, the chat's members are the old ones and the enrolled ones. */
  lemma EnrollMembers(rows: map<MemberKey, ChatUser>, chatId: ChatId, us: set<UserId>,
                      admins: set<UserId>, now: Time)
    ensures Members(Enroll(rows, chatId, us, admins, now), chatId) == Members(rows, chatId) + us
  {
  }

  /** Adding one more user is one more row. */
  lemma EnrollOneMore(rows: map<MemberKey, ChatUser>, chatId: ChatId, us: set<UserId>,
                      u: UserId, admins: set<UserId>, now: Time)
    ensures Enroll(rows, chatId, us + {u}, admins, now)
         == Enroll(rows, chatId, us, admins, now)[(chatId, u) := NewRow(u in admins, now)]
  {
    var lhs := Enroll(rows, chatId, us + {u}, admins, now);
    var rhs := Enroll(rows, chatId, us, admins, now)[(chatId, u) := NewRow(u in admins, now)];
    assert lhs.Keys == rhs.Keys;
    forall k | k in lhs ensures lhs[k] == rhs[k] {
      if k.0 == chatId && k.1 in us + {u} {
      } else {
        assert k !in KeysFor(chatId, us + {u});
      }
    }
  }

  /** Enrolling nobody changes nothing. */
  lemma EnrollNone(rows: map<MemberKey, ChatUser>, chatId: ChatId, admins: set<UserId>, now: Time)
    ensures Enroll(rows, chatId, {}, admins, now) == rows
  {
    assert Enroll(rows, chatId, {}, admins, now).Keys == rows.Keys;
  }

  /** One iteration of a loop enrolling `us`: moving `u` out of the pending set. */
  lemma EnrollStep(rows: map<MemberKey, ChatUser>, chatId: ChatId, us: set<UserId>, todo: set<UserId>,
                   u: UserId, admins: set<UserId>, now: Time)
    requires u in todo && todo <= us
    ensures Enroll(rows, chatId, us - (todo - {u}), admins, now)
         == Enroll(rows, chatId, us - todo, admins, now)[(chatId, u) := NewRow(u in admins, now)]
  {
    assert us - (todo - {u}) == (us - todo) + {u};
    EnrollOneMore(rows, chatId, us - todo, u, admins, now);
  }

  /** Removes the rows of the given users from chat `chatId`. */
  function Expel(rows: map<MemberKey, ChatUser>, chatId: ChatId, us: set<UserId>): (r: map<MemberKey, ChatUser>)
    ensures r.Keys == rows.Keys - KeysFor(chatId, us)
    ensures forall k | k in r :: r[k] == rows[k]
  {
    rows - KeysFor(chatId, us)
  }

  /** After expelling, the chat's members are the old ones but the expelled. */
  lemma ExpelMembers(rows: map<MemberKey, ChatUser>, chatId: ChatId, us: set<UserId>)
    ensures Members(Expel(rows, chatId, us), chatId) == Members(rows, chatId) - us
  {
  }

  /** Removing one more user is one more key removed. */
  lemma ExpelOneMore(rows: map<MemberKey, ChatUser>, chatId: ChatId, us: set<UserId>, u: UserId)
    ensures Expel(rows, chatId, us + {u}) == Expel(rows, chatId, us) - {(chatId, u)}
  {
    assert KeysFor(chatId, us + {u}) == KeysFor(chatId, us) + {(chatId, u)};
  }

  /** Expelling nobody changes nothing. */
  lemma ExpelNone(rows: map<MemberKey, ChatUser>, chatId: ChatId)
    ensures Expel(rows, chatId, {}) == rows
  {
    assert KeysFor(chatId, {}) == {};
  }

  /** One iteration of a loop expelling `us`: moving `u` out of the pending set. */
  lemma ExpelStep(rows: map<MemberKey, ChatUser>, chatId: ChatId, us: set<UserId>, todo: set<UserId>, u: UserId)
    requires u in todo && todo <= us
    ensures Expel(rows, chatId, us - (todo - {u})) == Expel(rows, chatId, us - todo) - {(chatId, u)}
  {
    assert us - (todo - {u}) == (us - todo) + {u};
    ExpelOneMore(rows, chatId, us - todo, u);
  }

  /** Every row of chat `chatId` removed; the rows of other chats kept. */
  function WithoutChat(rows: map<MemberKey, ChatUser>, chatId: ChatId): (r: map<MemberKey, ChatUser>)
    ensures forall k :: k in r <==> k in rows && k.0 != chatId
    ensures forall k | k in r :: r[k] == rows[k]
  {
    map k | k in rows && k.0 != chatId :: rows[k]
  }

  /** Every row of user `userId` removed; the rows of other users kept. */
  function WithoutUser(rows: map<MemberKey, ChatUser>, userId: UserId): (r: map<MemberKey, ChatUser>)
    ensures forall k :: k in r <==> k in rows && k.1 != userId
    ensures forall k | k in r :: r[k] == rows[k]
  {
    map k | k in rows && k.1 != userId :: rows[k]
  }

  /** The row of (chatId, userId) with its read cursor set to `t`. */
  function WithCursor(rows: map<MemberKey, ChatUser>, chatId: ChatId, userId: UserId, t: Time): (r: map<MemberKey, ChatUser>)
    requires IsMember(rows, chatId, userId)
    ensures r.Keys == rows.Keys
    ensures r[(chatId, userId)].lastReadMessageTime == Some(t)
    ensures r[(chatId, userId)].isAdmin == rows[(chatId, userId)].isAdmin
    ensures r[(chatId, userId)].joinedAt == rows[(chatId, userId)].joinedAt
    ensures forall k | k in rows && k != (chatId, userId) :: r[k] == rows[k]
  {
    rows[(chatId, userId) := rows[(chatId, userId)].(lastReadMessageTime := Some(t))]
  }
}
