/**
 * ChatService: the chat directory. Creation, update and cascade deletion of
 * chats, the admin-only membership operations, the read cursor set on
 * opening a chat, and the per-chat unread count of the chat list.
 */
module ChatService {
  import opened Domain
  import opened Lookup
  import opened Ordering
  import opened Store

  /** The exceptions (and the `false` returns) of the chat operations. */
  datatype ChatError = CreatorNotFound | MembersNotFound | Forbidden | ChatNotFound

  /** One entry of the chat list GetUserChatsAsync returns. */
  datatype ChatSummary = ChatSummary(chatId: ChatId, chat: Chat, lastMessage: Option<MessageId>, unreadCount: nat)

  /** The request's member list (empty when null) with the creator appended if absent. */
  function RequestedMembers(memberIds: Option<seq<UserId>>, creatorId: UserId): (ids: seq<UserId>)
    ensures creatorId in ids
    ensures Elems(ids) == Elems(memberIds.GetOr([])) + {creatorId}
    ensures memberIds.GetOr([]) <= ids
    ensures |ids| == |memberIds.GetOr([])| + (if creatorId in memberIds.GetOr([]) then 0 else 1)
  {
    var ids := memberIds.GetOr([]);
    if creatorId in ids then ids else ids + [creatorId]
  }

  /** `members.First(u => u.Id != me)`, or None when every id is `me`. */
  function FirstOther(ids: seq<UserId>, me: UserId): (r: Option<UserId>)
    ensures r.Some? ==> r.value in ids && r.value != me
    ensures r.None? <==> forall u | u in ids :: u == me
  {
    if ids == [] then None
    else if ids[0] != me then Some(ids[0])
    else
      assert ids == [ids[0]] + ids[1..];
      FirstOther(ids[1..], me)
  }

  /** In a two-member list of distinct ids holding `me`, the other member is unique. */
  lemma {:induction false} OtherOfPair(ids: seq<UserId>, me: UserId)
    requires NoDups(ids) && |ids| == 2 && me in ids
    ensures FirstOther(ids, me).Some?
    ensures forall u | u in ids && u != me :: u == FirstOther(ids, me).value
  {
    assert ids == [ids[0], ids[1]];
    assert ids[0] != ids[1];
  }

  /** A direct chat between exactly two people is named after the other one. */
  predicate IsDirectPair(isGroup: bool, ids: seq<UserId>) {
    !isGroup && |ids| == 2
  }

  /** The chat record CreateChatAsync builds for an accepted request. */
  function NewChat(name: string, description: string, isGroup: bool, ids: seq<UserId>,
                   users: map<UserId, User>, creatorId: UserId, now: Time): (c: Chat)
    requires NoDups(ids) && creatorId in ids && Elems(ids) <= users.Keys
    ensures c.description == description && c.isGroup == isGroup
    ensures c.createdAt == now && c.createdById == creatorId
    ensures IsDirectPair(isGroup, ids) ==>
      exists o :: o in ids && o != creatorId
        && c.name == users[o].userName && c.imageUrl == users[o].profilePictureUrl
    ensures !IsDirectPair(isGroup, ids) ==> c.name == name && c.imageUrl == None
  {
    if IsDirectPair(isGroup, ids) then
      OtherOfPair(ids, creatorId);
      var other := FirstOther(ids, creatorId).value;
      Chat(users[other].userName, description, isGroup, users[other].profilePictureUrl, now, creatorId)
    else
      Chat(name, description, isGroup, None, now, creatorId)
  }

  /** The `foreach` that adds one membership row per user. */
  method EnrollEach(rows: map<MemberKey, ChatUser>, chatId: ChatId, us: set<UserId>,
                    admins: set<UserId>, now: Time) returns (r: map<MemberKey, ChatUser>)
    ensures r == Enroll(rows, chatId, us, admins, now)
  {
    r := rows;
    var todo := us;
    EnrollNone(rows, chatId, admins, now);
    while todo != {}
      invariant todo <= us
      invariant r == Enroll(rows, chatId, us - todo, admins, now)
      decreases todo
    {
      NonEmpty(todo);
      var u :| u in todo;
      EnrollStep(rows, chatId, us, todo, u, admins, now);
      r := r[(chatId, u) := NewRow(u in admins, now)];
      todo := todo - {u};
    }
    assert us - todo == us;
  }

  /** The `foreach` that removes the rows of the given users. */
  method ExpelEach(rows: map<MemberKey, ChatUser>, chatId: ChatId, us: set<UserId>)
    returns (r: map<MemberKey, ChatUser>)
    ensures r == Expel(rows, chatId, us)
  {
    r := rows;
    var todo := us;
    ExpelNone(rows, chatId);
    while todo != {}
      invariant todo <= us
      invariant r == Expel(rows, chatId, us - todo)
      decreases todo
    {
      NonEmpty(todo);
      var u :| u in todo;
      ExpelStep(rows, chatId, us, todo, u);
      r := r - {(chatId, u)};
      todo := todo - {u};
    }
    assert us - todo == us;
  }

  /**
   * CreateChatAsync's checks: the creator must exist, then the requested
   * members (creator included) must be distinct existing users.
   */
  function Admit(users: map<UserId, User>, memberIds: Option<seq<UserId>>, creatorId: UserId)
    : (r: Result<seq<UserId>, ChatError>)
    ensures creatorId !in users ==> r == Err(CreatorNotFound)
    ensures creatorId in users ==>
      var ids := RequestedMembers(memberIds, creatorId);
      (r.Ok? <==> NoDups(ids) && Elems(ids) <= users.Keys)
      && (r.Err? ==> r == Err(MembersNotFound))
    ensures r.Ok? ==> r.value == RequestedMembers(memberIds, creatorId)
  {
    if creatorId !in users then Err(CreatorNotFound)
    else
      var ids := RequestedMembers(memberIds, creatorId);
      FoundAllIff(users.Keys, ids);
      if |Found(users.Keys, ids)| != |ids| then Err(MembersNotFound) else Ok(ids)
  }

  /** CreateChatAsync. `chatId` is the fresh Guid and `now` the clock reading. */
  method CreateChat(db: Database, name: string, description: string, isGroup: bool,
                    memberIds: Option<seq<UserId>>, creatorId: UserId, chatId: ChatId, now: Time)
    returns (r: Result<Chat, ChatError>)
    requires chatId !in db.chats && Members(db.chatUsers, chatId) == {}
    modifies db
    ensures db.users == old(db.users) && db.messages == old(db.messages)
    ensures db.attachments == old(db.attachments)
    ensures var a := Admit(old(db.users), memberIds, creatorId);
      && (a.Err? ==> r == Err(a.error) && db.chats == old(db.chats) && db.chatUsers == old(db.chatUsers))
      && (a.Ok? ==>
        && r == Ok(NewChat(name, description, isGroup, a.value, old(db.users), creatorId, now))
        && db.chats == old(db.chats)[chatId := r.value]
        && db.chatUsers == Enroll(old(db.chatUsers), chatId, Elems(a.value), {creatorId}, now))
  {
    var admitted := Admit(db.users, memberIds, creatorId);
    if admitted.Err? {
      return Err(admitted.error);
    }
    var ids := admitted.value;
    var chat := NewChat(name, description, isGroup, ids, db.users, creatorId, now);

    // One row per member found; only the creator is an admin.
    var rows := EnrollEach(db.chatUsers, chatId, Elems(ids), {creatorId}, now);
    db.chats, db.chatUsers := db.chats[chatId := chat], rows;
    r := Ok(chat);
  }

  /**
   * The rows CreateChatAsync adds to a chat that had none: its members are
   * exactly the listed ids, and the creator is the one admin among them.
   */
  lemma {:induction false} CreatedRoster(rows: map<MemberKey, ChatUser>, chatId: ChatId,
                                         ids: seq<UserId>, creatorId: UserId, now: Time)
    requires Members(rows, chatId) == {}
    ensures Members(Enroll(rows, chatId, Elems(ids), {creatorId}, now), chatId) == Elems(ids)
    ensures forall u | IsMember(Enroll(rows, chatId, Elems(ids), {creatorId}, now), chatId, u) ::
      IsAdmin(Enroll(rows, chatId, Elems(ids), {creatorId}, now), chatId, u) <==> u == creatorId
  {
    var r := Enroll(rows, chatId, Elems(ids), {creatorId}, now);
    EnrollMembers(rows, chatId, Elems(ids), {creatorId}, now);
    forall u | IsMember(r, chatId, u)
      ensures IsAdmin(r, chatId, u) <==> u == creatorId
    {
      assert u in Elems(ids);
      assert r[(chatId, u)] == NewRow(u in {creatorId}, now);
    }
  }

  /** Existing users among the listed ids that are not members yet. */
  function Joiners(rows: map<MemberKey, ChatUser>, userKeys: set<UserId>, chatId: ChatId,
                   ids: seq<UserId>): (js: set<UserId>)
    ensures forall u :: u in js <==> u in ids && u in userKeys && !IsMember(rows, chatId, u)
  {
    (Elems(ids) - Members(rows, chatId)) * userKeys
  }

  /** Members missing from the list, the creator excepted. */
  function Leavers(rows: map<MemberKey, ChatUser>, chatId: ChatId, creatorId: UserId,
                   ids: seq<UserId>): (ls: set<UserId>)
    ensures forall u :: u in ls <==> IsMember(rows, chatId, u) && u !in ids && u != creatorId
  {
    Members(rows, chatId) - Elems(ids) - {creatorId}
  }

  /** The set identity behind UpdatedRoster's member set. */
  lemma RosterAlgebra(m: set<UserId>, e: set<UserId>, k: set<UserId>, c: UserId)
    ensures (m + (e - m) * k) - (m - e - {c}) == m * (e + {c}) + e * k
  {
  }

  /**
   * The membership after an admin updates a group chat with a member list:
   * listed users join as non-admins, unlisted members leave, the creator
   * stays, and every other chat's rows are untouched.
   */
  function UpdatedRoster(rows: map<MemberKey, ChatUser>, userKeys: set<UserId>, chatId: ChatId,
                         creatorId: UserId, ids: seq<UserId>, now: Time): (r: map<MemberKey, ChatUser>)
    ensures Members(r, chatId)
         == (Members(rows, chatId) * (Elems(ids) + {creatorId})) + (Elems(ids) * userKeys)
    ensures IsMember(rows, chatId, creatorId) ==> IsMember(r, chatId, creatorId)
    ensures forall k: MemberKey :: k.0 != chatId ==> (k in r <==> k in rows)
    ensures forall k | k in r && (k.0 != chatId || k in rows) :: r[k] == rows[k]
    ensures forall k | k in r && k !in rows :: r[k] == NewRow(false, now)
  {
    var joiners := Joiners(rows, userKeys, chatId, ids);
    var leavers := Leavers(rows, chatId, creatorId, ids);
    var enrolled := Enroll(rows, chatId, joiners, {}, now);
    var r := Expel(enrolled, chatId, leavers);
    EnrollMembers(rows, chatId, joiners, {}, now);
    ExpelMembers(enrolled, chatId, leavers);
    RosterAlgebra(Members(rows, chatId), Elems(ids), userKeys, creatorId);
    assert forall k | k in r && k !in rows :: k in KeysFor(chatId, joiners);
    r
  }

  /** UpdateChatAsync. */
  method UpdateChat(db: Database, chatId: ChatId, name: string, description: string,
                    memberIds: Option<seq<UserId>>, userId: UserId, now: Time)
    returns (r: Result<Chat, ChatError>)
    modifies db
    ensures db.users == old(db.users) && db.messages == old(db.messages)
    ensures db.attachments == old(db.attachments)
    ensures !IsAdmin(old(db.chatUsers), chatId, userId) ==> r == Err(Forbidden)
    ensures IsAdmin(old(db.chatUsers), chatId, userId) && chatId !in old(db.chats) ==> r == Err(ChatNotFound)
    ensures r.Ok? <==> IsAdmin(old(db.chatUsers), chatId, userId) && chatId in old(db.chats)
    ensures r.Err? ==> db.chats == old(db.chats) && db.chatUsers == old(db.chatUsers)
    ensures r.Ok? ==>
      && r.value == old(db.chats)[chatId].(name := name, description := description)
      && db.chats == old(db.chats)[chatId := r.value]
    ensures r.Ok? && r.value.isGroup && memberIds.Some? ==>
      db.chatUsers == UpdatedRoster(old(db.chatUsers), old(db.users).Keys, chatId,
                                    r.value.createdById, memberIds.value, now)
    ensures r.Ok? && !(r.value.isGroup && memberIds.Some?) ==> db.chatUsers == old(db.chatUsers)
  {
    if !IsAdmin(db.chatUsers, chatId, userId) {
      return Err(Forbidden);
    }
    if chatId !in db.chats {
      return Err(ChatNotFound);
    }
    var chat := db.chats[chatId].(name := name, description := description);
    var before := db.chatUsers;
    var rows := before;
    if chat.isGroup && memberIds.Some? {
      var ids := memberIds.value;
      var newMemberIds := Elems(ids) - Members(rows, chatId);
      if newMemberIds != {} {
        var newMembers := newMemberIds * db.users.Keys;
        rows := EnrollEach(rows, chatId, newMembers, {}, now);
      }
      assert rows == Enroll(before, chatId, Joiners(before, db.users.Keys, chatId, ids), {}, now);
      // Unlisted rows of the (already extended) member list go, except the creator's.
      var membersToRemove := set u | u in Members(rows, chatId) && u !in ids && u != chat.createdById;
      assert membersToRemove == Leavers(before, chatId, chat.createdById, ids);
      rows := ExpelEach(rows, chatId, membersToRemove);
    }
    db.chats := db.chats[chatId := chat];
    db.chatUsers := rows;
    r := Ok(chat);
  }

  /** The ids of the messages posted in a chat. */
  function ChatMessages(messages: map<MessageId, Message>, chatId: ChatId): (ms: set<MessageId>)
    ensures forall m :: m in ms <==> m in messages && messages[m].chatId == chatId
  {
    set m | m in messages && messages[m].chatId == chatId
  }

  /** The ids of the attachments linked to one of the given messages. */
  function AttachmentsOf(attachments: map<AttachmentId, Attachment>, ms: set<MessageId>): (as_: set<AttachmentId>)
    ensures forall a :: a in as_ <==>
      a in attachments && attachments[a].messageId.Some? && attachments[a].messageId.value in ms
  {
    set a | a in attachments && attachments[a].messageId.Some? && attachments[a].messageId.value in ms
  }

  /** The attachment loop of DeleteChatAsync: removes each of `doomed` in turn. */
  method RemoveEach(attachments: map<AttachmentId, Attachment>, doomed: set<AttachmentId>)
    returns (r: map<AttachmentId, Attachment>)
    ensures r == attachments - doomed
  {
    r := attachments;
    var todo := doomed;
    while todo != {}
      invariant todo <= doomed
      invariant r == attachments - (doomed - todo)
      decreases todo
    {
      NonEmpty(todo);
      var a :| a in todo;
      assert doomed - (todo - {a}) == (doomed - todo) + {a};
      r := r - {a};
      todo := todo - {a};
    }
    assert doomed - todo == doomed;
  }

  /**
   * DeleteChatAsync: an admin of an existing chat removes the attachments of
   * its messages, its messages, its membership rows and the chat itself.
   */
  method DeleteChat(db: Database, chatId: ChatId, userId: UserId) returns (ok: bool)
    modifies db
    ensures ok <==> IsAdmin(old(db.chatUsers), chatId, userId) && chatId in old(db.chats)
    ensures db.users == old(db.users)
    ensures !ok ==> (db.chats == old(db.chats) && db.chatUsers == old(db.chatUsers)
                     && db.messages == old(db.messages) && db.attachments == old(db.attachments))
    ensures ok ==>
      var doomed := ChatMessages(old(db.messages), chatId);
      && db.chats == old(db.chats) - {chatId}
      && db.messages == old(db.messages) - doomed
      && db.attachments == old(db.attachments) - AttachmentsOf(old(db.attachments), doomed)
      && db.chatUsers == WithoutChat(old(db.chatUsers), chatId)
  {
    if !IsAdmin(db.chatUsers, chatId, userId) || chatId !in db.chats {
      return false;
    }
    var doomed := ChatMessages(db.messages, chatId);
    db.attachments := RemoveEach(db.attachments, AttachmentsOf(db.attachments, doomed));
    db.messages := db.messages - doomed;
    db.chatUsers := WithoutChat(db.chatUsers, chatId);
    db.chats := db.chats - {chatId};
    ok := true;
  }

  /**
   * After DeleteChatAsync nothing refers to the chat: no row, no message, and
   * no attachment linked to one of its messages; everything else is kept.
   */
  lemma {:induction false} DeleteChatLeavesNoTrace(db_chats: map<ChatId, Chat>, rows: map<MemberKey, ChatUser>,
                                                   messages: map<MessageId, Message>,
                                                   attachments: map<AttachmentId, Attachment>, chatId: ChatId)
    ensures Members(WithoutChat(rows, chatId), chatId) == {}
    ensures forall c | c != chatId :: Members(WithoutChat(rows, chatId), c) == Members(rows, c)
    ensures ChatMessages(messages - ChatMessages(messages, chatId), chatId) == {}
    ensures forall a | a in attachments - AttachmentsOf(attachments, ChatMessages(messages, chatId)) ::
      var link := attachments[a].messageId;
      link.Some? ==> link.value !in ChatMessages(messages, chatId)
  {
    var r := WithoutChat(rows, chatId);
    forall c | c != chatId ensures Members(r, c) == Members(rows, c) {
      assert forall u :: IsMember(r, c, u) <==> IsMember(rows, c, u);
    }
  }

  /** The guard shared by the member operations: an admin caller and a group chat. */
  predicate CanManage(rows: map<MemberKey, ChatUser>, chats: map<ChatId, Chat>, chatId: ChatId, adminId: UserId) {
    IsAdmin(rows, chatId, adminId) && chatId in chats && chats[chatId].isGroup
  }

  /** `userIds.Except(existing)`: the listed ids that are not members, each once. */
  function Newcomers(rows: map<MemberKey, ChatUser>, chatId: ChatId, userIds: seq<UserId>): (ns: set<UserId>)
    ensures forall u :: u in ns <==> u in userIds && !IsMember(rows, chatId, u)
  {
    Elems(userIds) - Members(rows, chatId)
  }

  /** AddUsersToChat. */
  method AddUsersToChat(db: Database, chatId: ChatId, userIds: seq<UserId>, adminId: UserId, now: Time)
    returns (ok: bool)
    modifies db
    ensures db.users == old(db.users) && db.chats == old(db.chats)
    ensures db.messages == old(db.messages) && db.attachments == old(db.attachments)
    ensures ok <==> (CanManage(old(db.chatUsers), old(db.chats), chatId, adminId)
                     && Newcomers(old(db.chatUsers), chatId, userIds) <= old(db.users).Keys)
    ensures ok ==> db.chatUsers == Enroll(old(db.chatUsers), chatId, Newcomers(old(db.chatUsers), chatId, userIds), {}, now)
    ensures !ok || Newcomers(old(db.chatUsers), chatId, userIds) == {} ==> db.chatUsers == old(db.chatUsers)
  {
    if !CanManage(db.chatUsers, db.chats, chatId, adminId) {
      return false;
    }
    var newUserIds := Newcomers(db.chatUsers, chatId, userIds);
    if newUserIds == {} {
      EnrollNone(db.chatUsers, chatId, {}, now);
      return true;
    }
    var users := newUserIds * db.users.Keys;
    FoundSetIff(db.users.Keys, newUserIds);
    if |users| != |newUserIds| {
      return false;
    }
    assert users == newUserIds;
    db.chatUsers := EnrollEach(db.chatUsers, chatId, users, {}, now);
    ok := true;
  }

  /** After AddUsersToChat succeeds every listed id is a member, the new ones not admins. */
  lemma {:induction false} AddedAreMembers(rows: map<MemberKey, ChatUser>, chatId: ChatId, userIds: seq<UserId>, now: Time)
    ensures var r := Enroll(rows, chatId, Newcomers(rows, chatId, userIds), {}, now);
      && Members(r, chatId) == Members(rows, chatId) + Elems(userIds)
      && forall u | IsMember(r, chatId, u) :: IsAdmin(r, chatId, u) <==> IsAdmin(rows, chatId, u)
  {
    var ns := Newcomers(rows, chatId, userIds);
    var r := Enroll(rows, chatId, ns, {}, now);
    EnrollMembers(rows, chatId, ns, {}, now);
    assert Members(rows, chatId) + ns == Members(rows, chatId) + Elems(userIds);
    forall u | IsMember(r, chatId, u) ensures IsAdmin(r, chatId, u) <==> IsAdmin(rows, chatId, u) {
      if u in ns {
        assert r[(chatId, u)] == NewRow(false, now);
      } else {
        assert (chatId, u) !in KeysFor(chatId, ns);
      }
    }
  }

  /** RemoveUserFromChat. */
  method RemoveUserFromChat(db: Database, chatId: ChatId, userId: UserId, adminId: UserId)
    returns (ok: bool)
    modifies db
    ensures db.users == old(db.users) && db.chats == old(db.chats)
    ensures db.messages == old(db.messages) && db.attachments == old(db.attachments)
    ensures ok <==> (CanManage(old(db.chatUsers), old(db.chats), chatId, adminId)
                     && userId != old(db.chats)[chatId].createdById && IsMember(old(db.chatUsers), chatId, userId))
    ensures ok ==> db.chatUsers == old(db.chatUsers) - {(chatId, userId)}
    ensures !ok ==> db.chatUsers == old(db.chatUsers)
    ensures chatId in db.chats && IsMember(old(db.chatUsers), chatId, db.chats[chatId].createdById) ==>
      IsMember(db.chatUsers, chatId, db.chats[chatId].createdById)
  {
    if !CanManage(db.chatUsers, db.chats, chatId, adminId) {
      return false;
    }
    if userId == db.chats[chatId].createdById {
      return false;
    }
    if !IsMember(db.chatUsers, chatId, userId) {
      return false;
    }
    db.chatUsers := db.chatUsers - {(chatId, userId)};
    ok := true;
  }

  /** The target's row with IsAdmin set. */
  function Promote(rows: map<MemberKey, ChatUser>, chatId: ChatId, userId: UserId): (r: map<MemberKey, ChatUser>)
    requires IsMember(rows, chatId, userId)
    ensures r.Keys == rows.Keys
    ensures IsAdmin(r, chatId, userId)
    ensures forall k | k in rows && k != (chatId, userId) :: r[k] == rows[k]
    ensures r[(chatId, userId)].joinedAt == rows[(chatId, userId)].joinedAt
    ensures r[(chatId, userId)].lastReadMessageTime == rows[(chatId, userId)].lastReadMessageTime
  {
    rows[(chatId, userId) := rows[(chatId, userId)].(isAdmin := true)]
  }

  /** Promoting twice is promoting once. */
  lemma PromoteIdempotent(rows: map<MemberKey, ChatUser>, chatId: ChatId, userId: UserId)
    requires IsMember(rows, chatId, userId)
    ensures Promote(Promote(rows, chatId, userId), chatId, userId) == Promote(rows, chatId, userId)
  {
  }

  /** MakeUserAdmin. */
  method MakeUserAdmin(db: Database, chatId: ChatId, userId: UserId, adminId: UserId)
    returns (ok: bool)
    modifies db
    ensures db.users == old(db.users) && db.chats == old(db.chats)
    ensures db.messages == old(db.messages) && db.attachments == old(db.attachments)
    ensures ok <==> (CanManage(old(db.chatUsers), old(db.chats), chatId, adminId)
                     && IsMember(old(db.chatUsers), chatId, userId))
    ensures ok ==> db.chatUsers == Promote(old(db.chatUsers), chatId, userId)
    ensures !ok ==> db.chatUsers == old(db.chatUsers)
  {
    if !CanManage(db.chatUsers, db.chats, chatId, adminId) {
      return false;
    }
    if !IsMember(db.chatUsers, chatId, userId) {
      return false;
    }
    var row := db.chatUsers[(chatId, userId)];
    db.chatUsers := db.chatUsers[(chatId, userId) := row.(isAdmin := true)];
    ok := true;
  }

  /**
   * The message the chat projections load: `Messages.OrderByDescending(SentAt)
   * .Take(1)` over the chat's messages (deleted ones included), `scan` being
   * the order the table is read in.
   */
  function LatestMessage(messages: map<MessageId, Message>, scan: seq<MessageId>, chatId: ChatId): (r: Option<MessageId>)
    ensures r.None? <==> forall m | m in scan && m in messages :: messages[m].chatId != chatId
    ensures r.Some? ==> r.value in scan && r.value in messages && messages[r.value].chatId == chatId
    ensures r.Some? ==> forall m | m in scan && m in messages && messages[m].chatId == chatId ::
      messages[m].sentAt <= messages[r.value].sentAt
  {
    var ordered := SortBy(messages, InChat(messages, scan, chatId), Descending);
    if ordered == [] then
      assert InChat(messages, scan, chatId) == [];
      None
    else
      assert ordered[0] in multiset(InChat(messages, scan, chatId));
      forall m | m in scan && m in messages && messages[m].chatId == chatId
        ensures messages[m].sentAt <= messages[ordered[0]].sentAt
      {
        assert m in multiset(ordered);
        NewestFirst(messages, ordered, m);
      }
      Some(ordered[0])
  }

  /** Some message of the chat in the scan was sent after the cursor (null meaning DateTime.MinValue). */
  predicate HasNewer(messages: map<MessageId, Message>, scan: seq<MessageId>, chatId: ChatId, cursor: Option<Time>) {
    exists m | m in scan && m in messages :: messages[m].chatId == chatId && messages[m].sentAt > cursor.GetOr(MinTime)
  }

  /**
   * GetUserChatsAsync's UnreadCount: the loaded messages (the latest one, if
   * any) sent after the caller's cursor, a missing cursor counting as
   * DateTime.MinValue.
   */
  function UnreadCount(messages: map<MessageId, Message>, scan: seq<MessageId>, chatId: ChatId,
                       cursor: Option<Time>): (n: nat)
    ensures n <= 1
    ensures n == 1 <==> HasNewer(messages, scan, chatId, cursor)
  {
    match LatestMessage(messages, scan, chatId)
    case None => 0
    case Some(m) => if messages[m].sentAt > cursor.GetOr(MinTime) then 1 else 0
  }

  /** What GetChatByIdAsync returns. */
  datatype ChatView = ChatView(chat: Chat, lastMessage: Option<MessageId>, unreadCount: nat)

  /**
   * GetChatByIdAsync: null unless the caller is a member of an existing chat;
   * otherwise the caller's cursor moves to `now` and the chat is reported
   * with nothing unread.
   */
  method GetChatById(db: Database, chatId: ChatId, userId: UserId, now: Time, scan: seq<MessageId>)
    returns (r: Option<ChatView>)
    modifies db
    ensures db.users == old(db.users) && db.chats == old(db.chats)
    ensures db.messages == old(db.messages) && db.attachments == old(db.attachments)
    ensures r.Some? <==> IsMember(old(db.chatUsers), chatId, userId) && chatId in old(db.chats)
    ensures r.None? ==> db.chatUsers == old(db.chatUsers)
    ensures r.Some? ==>
      && r.value == ChatView(old(db.chats)[chatId], LatestMessage(old(db.messages), scan, chatId), 0)
      && db.chatUsers == WithCursor(old(db.chatUsers), chatId, userId, now)
  {
    if !IsMember(db.chatUsers, chatId, userId) {
      return None;
    }
    if chatId !in db.chats {
      return None;
    }
    var row := db.chatUsers[(chatId, userId)];
    db.chatUsers := db.chatUsers[(chatId, userId) := row.(lastReadMessageTime := Some(now))];
    r := Some(ChatView(db.chats[chatId], LatestMessage(db.messages, scan, chatId), 0));
  }

  /**
   * Once a chat is opened at a time no message of it postdates, the chat list
   * counts nothing unread for the caller until a newer message arrives.
   */
  lemma {:induction false} OpenedChatHasNoUnread(rows: map<MemberKey, ChatUser>, messages: map<MessageId, Message>,
                                                 scan: seq<MessageId>, chatId: ChatId, userId: UserId, now: Time)
    requires IsMember(rows, chatId, userId)
    requires forall m | m in messages && messages[m].chatId == chatId :: messages[m].sentAt <= now
    ensures UnreadCount(messages, scan, chatId,
                        WithCursor(rows, chatId, userId, now)[(chatId, userId)].lastReadMessageTime) == 0
  {
    assert WithCursor(rows, chatId, userId, now)[(chatId, userId)].lastReadMessageTime == Some(now);
  }

  /** No composite key is read twice: the ChatUsers table has a primary key. */
  predicate DistinctRows(rowScan: seq<MemberKey>) {
    forall i, j | 0 <= i < j < |rowScan| :: rowScan[i] != rowScan[j]
  }

  /** Distinct rows stay distinct without the first, which does not recur. */
  lemma DistinctTail(rowScan: seq<MemberKey>)
    requires rowScan != []
    ensures DistinctRows(rowScan) ==> DistinctRows(rowScan[1..]) && rowScan[0] !in rowScan[1..]
  {
    if DistinctRows(rowScan) {
      forall i, j | 0 <= i < j < |rowScan[1..]| ensures rowScan[1..][i] != rowScan[1..][j] {
        assert rowScan[1..][i] == rowScan[i + 1] && rowScan[1..][j] == rowScan[j + 1];
      }
      forall j | 0 <= j < |rowScan[1..]| ensures rowScan[1..][j] != rowScan[0] {
        assert rowScan[1..][j] == rowScan[j + 1];
      }
    }
  }

  /**
   * One entry of GetUserChatsAsync's list for a row of the caller: the chat,
   * its latest loaded message and the unread count against the row's cursor.
   */
  function Summary(rows: map<MemberKey, ChatUser>, chats: map<ChatId, Chat>, messages: map<MessageId, Message>,
                   msgScan: seq<MessageId>, chatId: ChatId, userId: UserId): (s: ChatSummary)
    requires (chatId, userId) in rows && chatId in chats
    ensures s.chatId == chatId && s.chat == chats[chatId]
    ensures s.lastMessage == LatestMessage(messages, msgScan, chatId)
    ensures s.unreadCount <= 1
    ensures s.unreadCount == 1 <==> HasNewer(messages, msgScan, chatId, rows[(chatId, userId)].lastReadMessageTime)
  {
    ChatSummary(chatId, chats[chatId], LatestMessage(messages, msgScan, chatId),
                UnreadCount(messages, msgScan, chatId, rows[(chatId, userId)].lastReadMessageTime))
  }

  /**
   * GetUserChatsAsync: one entry per membership row of the user, in the order
   * `rowScan` reads the ChatUsers table, each with the chat's latest message
   * and its unread count against that row's cursor. Every row names an
   * existing chat (the ChatUsers -> Chats foreign key).
   */
  function UserChats(rows: map<MemberKey, ChatUser>, chats: map<ChatId, Chat>, messages: map<MessageId, Message>,
                     rowScan: seq<MemberKey>, msgScan: seq<MessageId>, userId: UserId): (r: seq<ChatSummary>)
    requires forall k | k in rows :: k.0 in chats
    ensures |r| == |ChatIdsOf(rows, rowScan, userId)|
    ensures forall i | 0 <= i < |r| :: r[i].chatId == ChatIdsOf(rows, rowScan, userId)[i]
    ensures forall s | s in r :: IsMember(rows, s.chatId, userId) && s.chat == chats[s.chatId]
    ensures forall s | s in r :: s.lastMessage == LatestMessage(messages, msgScan, s.chatId)
    ensures forall k | k in rowScan && k in rows && k.1 == userId :: exists s | s in r :: s.chatId == k.0
    ensures forall s | s in r :: s.unreadCount <= 1
    ensures forall s | s in r && (s.chatId, userId) in rows ::
      s.unreadCount == 1 <==> HasNewer(messages, msgScan, s.chatId, rows[(s.chatId, userId)].lastReadMessageTime)
  {
    var ids := ChatIdsOf(rows, rowScan, userId);
    var r := seq(|ids|, i requires 0 <= i < |ids| => Summary(rows, chats, messages, msgScan, ids[i], userId));
    forall k | k in rowScan && k in rows && k.1 == userId ensures exists s | s in r :: s.chatId == k.0 {
      var i :| 0 <= i < |ids| && ids[i] == k.0;
      assert r[i] in r;
    }
    r
  }

  /** The chat ids of the user's rows, in the order `rowScan` reads them, and all of them. */
  function ChatIdsOf(rows: map<MemberKey, ChatUser>, rowScan: seq<MemberKey>, userId: UserId): (ids: seq<ChatId>)
    ensures forall c | c in ids :: (c, userId) in rowScan && (c, userId) in rows
    ensures forall k | k in rowScan && k in rows && k.1 == userId :: k.0 in ids
  {
    if rowScan == [] then []
    else
      var rest := ChatIdsOf(rows, rowScan[1..], userId);
      assert rowScan == [rowScan[0]] + rowScan[1..];
      if rowScan[0] in rows && rowScan[0].1 == userId then [rowScan[0].0] + rest else rest
  }

  /** Over a table without repeated rows the user's chat ids are distinct. */
  lemma {:induction false} ChatIdsDistinct(rows: map<MemberKey, ChatUser>, rowScan: seq<MemberKey>, userId: UserId)
    requires DistinctRows(rowScan)
    ensures NoDups(ChatIdsOf(rows, rowScan, userId))
  {
    if rowScan != [] {
      var ids := ChatIdsOf(rows, rowScan, userId);
      var rest := ChatIdsOf(rows, rowScan[1..], userId);
      DistinctTail(rowScan);
      ChatIdsDistinct(rows, rowScan[1..], userId);
      var k := rowScan[0];
      if k in rows && k.1 == userId {
        assert ids == [k.0] + rest;
        assert k.0 !in rest;
        forall i, j | 0 <= i < j < |ids| ensures ids[i] != ids[j] {
          assert ids[j] == rest[j - 1];
          if i > 0 {
            assert ids[i] == rest[i - 1];
          }
        }
      }
    }
  }

  /** Over a ChatUsers table without repeated rows the chat list names each chat once. */
  lemma UserChatsOncePerChat(rows: map<MemberKey, ChatUser>, chats: map<ChatId, Chat>,
                             messages: map<MessageId, Message>, rowScan: seq<MemberKey>,
                             msgScan: seq<MessageId>, userId: UserId)
    requires forall k | k in rows :: k.0 in chats
    requires DistinctRows(rowScan)
    ensures var r := UserChats(rows, chats, messages, rowScan, msgScan, userId);
      forall i, j | 0 <= i < j < |r| :: r[i].chatId != r[j].chatId
  {
    ChatIdsDistinct(rows, rowScan, userId);
  }
}
