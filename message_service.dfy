/**
 * MessageService: the message ledger of a chat. Paging with the read cursor,
 * sending with attachment linking, editing, the soft delete and the explicit
 * "read up to" cursor.
 */
module MessageService {
  import opened Domain
  import opened Lookup
  import opened Ordering
  import opened Store

  /** The exceptions of the message operations; NullReference is the crash of DeleteMessageAsync. */
  datatype MessageError = NotAMember | SenderNotFound | AttachmentsNotFound | MessageNotFound | NullReference

  /** The content a soft-deleted message is left with. */
  const Tombstone: string := "[Сообщение удалено]"

  /** The chat's messages that are not deleted, in scan order. */
  function Visible(messages: map<MessageId, Message>, scan: seq<MessageId>, chatId: ChatId): (r: seq<MessageId>)
    ensures AllIn(messages, r)
    ensures forall m :: m in r <==>
      m in scan && m in messages && messages[m].chatId == chatId && !messages[m].isDeleted
  {
    if scan == [] then []
    else
      var rest := Visible(messages, scan[1..], chatId);
      assert scan == [scan[0]] + scan[1..];
      var m := scan[0];
      if m in messages && messages[m].chatId == chatId && !messages[m].isDeleted then [m] + rest else rest
  }

  /**
   * The visible messages are the scan filtered: in scan order, each kept
   * message as often as the scan holds it.
   */
  lemma {:induction false} VisibleIsFilter(messages: map<MessageId, Message>, scan: seq<MessageId>, chatId: ChatId)
    ensures Subsequence(Visible(messages, scan, chatId), scan)
    ensures forall m :: (multiset(Visible(messages, scan, chatId))[m] ==
      if m in messages && messages[m].chatId == chatId && !messages[m].isDeleted then multiset(scan)[m] else 0)
  {
    if scan != [] {
      var rest := Visible(messages, scan[1..], chatId);
      VisibleIsFilter(messages, scan[1..], chatId);
      assert scan == [scan[0]] + scan[1..];
      var m := scan[0];
      if m in messages && messages[m].chatId == chatId && !messages[m].isDeleted {
        assert ([m] + rest)[1..] == rest;
      } else {
        assert rest != [] ==> rest[0] in rest && rest[0] != m;
      }
    }
  }

  /** The visible messages newest-first: the order `skip` and `take` apply to. */
  function NewestFirst(messages: map<MessageId, Message>, scan: seq<MessageId>, chatId: ChatId): (d: seq<MessageId>)
    ensures AllIn(messages, d) && SortedBy(messages, d, Descending)
    ensures multiset(d) == multiset(Visible(messages, scan, chatId))
    ensures forall m :: m in d <==> m in Visible(messages, scan, chatId)
  {
    SortBy(messages, Visible(messages, scan, chatId), Descending)
  }

  /**
   * The page GetChatMessagesAsync returns: the visible messages newest-first,
   * `skip` and `take` applied, then ordered oldest-first.
   */
  function Page(messages: map<MessageId, Message>, scan: seq<MessageId>, chatId: ChatId,
                skip: int, take: int): (r: seq<MessageId>)
    ensures AllIn(messages, r) && SortedBy(messages, r, Ascending)
    ensures forall m | m in r :: m in scan && messages[m].chatId == chatId && !messages[m].isDeleted
    ensures var n := |Skip(NewestFirst(messages, scan, chatId), skip)|;
      |r| == if take <= 0 then 0 else if take >= n then n else take
    ensures multiset(r) == multiset(Take(Skip(NewestFirst(messages, scan, chatId), skip), take))
  {
    SortBy(messages, Take(Skip(NewestFirst(messages, scan, chatId), skip), take), Ascending)
  }

  /**
   * The first page holds the newest visible messages: no visible message left
   * off it is newer than any message on it.
   */
  lemma {:induction false} FirstPageIsNewest(messages: map<MessageId, Message>, scan: seq<MessageId>,
                                             chatId: ChatId, take: int)
    ensures forall p, m | p in Page(messages, scan, chatId, 0, take) && m in Visible(messages, scan, chatId)
                         && m !in Page(messages, scan, chatId, 0, take) ::
      messages[m].sentAt <= messages[p].sentAt
  {
    var d := NewestFirst(messages, scan, chatId);
    var page := Page(messages, scan, chatId, 0, take);
    var w := Take(d, take);
    assert Skip(d, 0) == d;
    forall p, m | p in page && m in Visible(messages, scan, chatId) && m !in page
      ensures messages[m].sentAt <= messages[p].sentAt
    {
      assert p in multiset(w);
      var i :| 0 <= i < |w| && w[i] == p;
      assert m in multiset(d);
      var j :| 0 <= j < |d| && d[j] == m;
      assert m !in w;
      assert forall k | 0 <= k < |w| :: d[k] == w[k];
      assert j >= |w|;
      assert d[i] == p;
      assert Precedes(messages, d[i], d[j], Descending);
    }
  }

  /**
   * GetChatMessagesAsync: a non-member is refused and nothing changes; a
   * member gets the page, and the member's cursor moves to `now` exactly when
   * the page is not empty. `scan` is the order the Messages table is read in.
   */
  method GetChatMessages(db: Database, chatId: ChatId, userId: UserId, skip: int, take: int,
                         now: Time, scan: seq<MessageId>)
    returns (r: Result<seq<MessageId>, MessageError>)
    modifies db
    ensures db.users == old(db.users) && db.chats == old(db.chats)
    ensures db.messages == old(db.messages) && db.attachments == old(db.attachments)
    ensures !IsMember(old(db.chatUsers), chatId, userId) ==> r == Err(NotAMember) && db.chatUsers == old(db.chatUsers)
    ensures IsMember(old(db.chatUsers), chatId, userId) ==> r == Ok(Page(old(db.messages), scan, chatId, skip, take))
    ensures r.Ok? && r.value != [] ==> db.chatUsers == WithCursor(old(db.chatUsers), chatId, userId, now)
    ensures r.Ok? && r.value == [] ==> db.chatUsers == old(db.chatUsers)
  {
    if !IsMember(db.chatUsers, chatId, userId) {
      return Err(NotAMember);
    }
    var page := Page(db.messages, scan, chatId, skip, take);
    if page != [] {
      var row := db.chatUsers[(chatId, userId)];
      db.chatUsers := db.chatUsers[(chatId, userId) := row.(lastReadMessageTime := Some(now))];
    }
    r := Ok(page);
  }

  /** The attachments with the given ids linked to message `messageId`; the rest untouched. */
  function Link(attachments: map<AttachmentId, Attachment>, ids: set<AttachmentId>, messageId: MessageId)
    : (r: map<AttachmentId, Attachment>)
    ensures r.Keys == attachments.Keys
    ensures forall a | a in r && a in ids :: r[a] == attachments[a].(messageId := Some(messageId))
    ensures forall a | a in r && a !in ids :: r[a] == attachments[a]
  {
    map a | a in attachments :: if a in ids then attachments[a].(messageId := Some(messageId)) else attachments[a]
  }

  /** Linking no attachment changes nothing. */
  lemma LinkNone(attachments: map<AttachmentId, Attachment>, messageId: MessageId)
    ensures Link(attachments, {}, messageId) == attachments
  {
  }

  /**
   * SendMessageAsync. `messageId` is the fresh Guid and `now` the clock. The
   * checks run in order: membership, sender, attachments (when ids are given).
   */
  method SendMessage(db: Database, chatId: ChatId, content: string, attachmentIds: Option<seq<AttachmentId>>,
                     senderId: UserId, messageId: MessageId, now: Time)
    returns (r: Result<MessageId, MessageError>)
    requires messageId !in db.messages
    modifies db
    ensures db.chats == old(db.chats) && db.chatUsers == old(db.chatUsers)
    ensures !IsMember(old(db.chatUsers), chatId, senderId) ==> r == Err(NotAMember)
    ensures IsMember(old(db.chatUsers), chatId, senderId) && senderId !in old(db.users) ==> r == Err(SenderNotFound)
    ensures r.Ok? <==> (IsMember(old(db.chatUsers), chatId, senderId) && senderId in old(db.users)
                        && (attachmentIds.None? || (NoDups(attachmentIds.value)
                                                    && Elems(attachmentIds.value) <= old(db.attachments).Keys)))
    ensures r.Err? && IsMember(old(db.chatUsers), chatId, senderId) && senderId in old(db.users) ==> r == Err(AttachmentsNotFound)
    ensures r.Err? ==> db.users == old(db.users) && db.messages == old(db.messages) && db.attachments == old(db.attachments)
    ensures r.Ok? ==>
      && r.value == messageId
      && db.messages == old(db.messages)[messageId := Message(chatId, senderId, content, now, false, false)]
      && db.users == old(db.users)[senderId := old(db.users)[senderId].(lastActive := now)]
      && db.attachments == Link(old(db.attachments), Elems(attachmentIds.GetOr([])), messageId)
  {
    if !IsMember(db.chatUsers, chatId, senderId) {
      return Err(NotAMember);
    }
    if senderId !in db.users {
      return Err(SenderNotFound);
    }
    var linked := db.attachments;
    if attachmentIds.Some? && attachmentIds.value != [] {
      var ids := attachmentIds.value;
      var found := Found(db.attachments.Keys, ids);
      FoundAllIff(db.attachments.Keys, ids);
      if |found| != |ids| {
        return Err(AttachmentsNotFound);
      }
      assert found == Elems(ids);
      linked := Link(db.attachments, found, messageId);
    } else {
      assert Elems(attachmentIds.GetOr([])) == {};
      LinkNone(db.attachments, messageId);
    }
    db.messages := db.messages[messageId := Message(chatId, senderId, content, now, false, false)];
    db.attachments := linked;
    db.users := db.users[senderId := db.users[senderId].(lastActive := now)];
    r := Ok(messageId);
  }

  /** The message `messageId` exists, was sent by `userId` and is not deleted. */
  predicate OwnLive(messages: map<MessageId, Message>, messageId: MessageId, userId: UserId) {
    messageId in messages && messages[messageId].senderId == userId && !messages[messageId].isDeleted
  }

  /** UpdateMessageAsync: only the sender edits a live message. */
  method UpdateMessage(db: Database, messageId: MessageId, content: string, userId: UserId)
    returns (r: Result<Message, MessageError>)
    modifies db
    ensures db.users == old(db.users) && db.chats == old(db.chats)
    ensures db.chatUsers == old(db.chatUsers) && db.attachments == old(db.attachments)
    ensures r.Ok? <==> OwnLive(old(db.messages), messageId, userId)
    ensures r.Err? ==> r == Err(MessageNotFound) && db.messages == old(db.messages)
    ensures r.Ok? ==>
      && r.value == old(db.messages)[messageId].(content := content, isEdited := true)
      && db.messages == old(db.messages)[messageId := r.value]
  {
    if !OwnLive(db.messages, messageId, userId) {
      return Err(MessageNotFound);
    }
    var edited := db.messages[messageId].(content := content, isEdited := true);
    db.messages := db.messages[messageId := edited];
    r := Ok(edited);
  }

  /** What a delete request ends in. */
  datatype DeleteVerdict = Tombstoned | Refused | NullDereference

  /**
   * DeleteMessageAsync as written: the sender of a live message soft-deletes
   * it; on every other path the lookup yields null, and the admin check reads
   * the chat id through that null reference.
   */
  function DeleteVerdictAsWritten(messages: map<MessageId, Message>, rows: map<MemberKey, ChatUser>,
                                  messageId: MessageId, userId: UserId): (v: DeleteVerdict)
    ensures v == Tombstoned <==> OwnLive(messages, messageId, userId)
    ensures v == NullDereference <==> !OwnLive(messages, messageId, userId)
    ensures v != Refused
  {
    if OwnLive(messages, messageId, userId) then Tombstoned else NullDereference
  }

  /**
   * The delete rule the admin branch was written for: a live message can be
   * deleted by its sender or by an admin of its chat; anything else is
   * refused, and nothing dereferences null.
   */
  function DeleteVerdictIntended(messages: map<MessageId, Message>, rows: map<MemberKey, ChatUser>,
                                 messageId: MessageId, userId: UserId): (v: DeleteVerdict)
    ensures v != NullDereference
    ensures v == Tombstoned <==> (messageId in messages && !messages[messageId].isDeleted
                                  && (messages[messageId].senderId == userId
                                      || IsAdmin(rows, messages[messageId].chatId, userId)))
  {
    if messageId !in messages || messages[messageId].isDeleted then Refused
    else if messages[messageId].senderId == userId then Tombstoned
    else if IsAdmin(rows, messages[messageId].chatId, userId) then Tombstoned
    else Refused
  }

  /** The two rules agree wherever the written code does not crash. */
  lemma {:induction false} DeleteVerdictsAgreeOnSenders(messages: map<MessageId, Message>, rows: map<MemberKey, ChatUser>,
                                                        messageId: MessageId, userId: UserId)
    ensures DeleteVerdictAsWritten(messages, rows, messageId, userId) != NullDereference ==>
      DeleteVerdictAsWritten(messages, rows, messageId, userId) == DeleteVerdictIntended(messages, rows, messageId, userId)
    ensures DeleteVerdictAsWritten(messages, rows, messageId, userId) == Tombstoned ==>
      DeleteVerdictIntended(messages, rows, messageId, userId) == Tombstoned
  {
  }

  /**
   * A chat admin deleting another member's live message: the written code
   * crashes where the intended rule deletes.
   */
  lemma AdminDeleteCrashes()
    ensures var messages := map[1 := Message(7, 2, "hi", 0, false, false)];
      var rows := map[(7, 2) := ChatUser(false, 0, None), (7, 3) := ChatUser(true, 0, None)];
      && DeleteVerdictAsWritten(messages, rows, 1, 3) == NullDereference
      && DeleteVerdictIntended(messages, rows, 1, 3) == Tombstoned
  {
    var messages := map[1 := Message(7, 2, "hi", 0, false, false)];
    var rows := map[(7, 2) := ChatUser(false, 0, None), (7, 3) := ChatUser(true, 0, None)];
    assert IsAdmin(rows, 7, 3);
  }

  /** The soft delete: content replaced by the tombstone, the message kept. */
  function SoftDeleted(m: Message): (d: Message)
    ensures d.isDeleted && d.content == Tombstone
    ensures d.chatId == m.chatId && d.senderId == m.senderId && d.sentAt == m.sentAt && d.isEdited == m.isEdited
  {
    m.(isDeleted := true, content := Tombstone)
  }

  /**
   * DeleteMessageAsync as written: true after tombstoning the sender's own
   * live message; every other request ends in a NullReferenceException with
   * nothing changed.
   */
  method DeleteMessage(db: Database, messageId: MessageId, userId: UserId)
    returns (r: Result<bool, MessageError>)
    modifies db
    ensures db.users == old(db.users) && db.chats == old(db.chats)
    ensures db.chatUsers == old(db.chatUsers) && db.attachments == old(db.attachments)
    ensures DeleteVerdictAsWritten(old(db.messages), old(db.chatUsers), messageId, userId) == Tombstoned ==>
      r == Ok(true) && db.messages == old(db.messages)[messageId := SoftDeleted(old(db.messages)[messageId])]
    ensures DeleteVerdictAsWritten(old(db.messages), old(db.chatUsers), messageId, userId) == NullDereference ==>
      r == Err(NullReference) && db.messages == old(db.messages)
  {
    if !OwnLive(db.messages, messageId, userId) {
      // `message` is null here, and the admin query reads `message.ChatId`.
      return Err(NullReference);
    }
    db.messages := db.messages[messageId := SoftDeleted(db.messages[messageId])];
    r := Ok(true);
  }

  /** The corrected DeleteMessageAsync: sender or chat admin, false otherwise. */
  method DeleteMessageCorrected(db: Database, messageId: MessageId, userId: UserId) returns (ok: bool)
    modifies db
    ensures db.users == old(db.users) && db.chats == old(db.chats)
    ensures db.chatUsers == old(db.chatUsers) && db.attachments == old(db.attachments)
    ensures ok <==> DeleteVerdictIntended(old(db.messages), old(db.chatUsers), messageId, userId) == Tombstoned
    ensures ok ==> db.messages == old(db.messages)[messageId := SoftDeleted(old(db.messages)[messageId])]
    ensures !ok ==> db.messages == old(db.messages)
  {
    if messageId !in db.messages || db.messages[messageId].isDeleted {
      return false;
    }
    var message := db.messages[messageId];
    if message.senderId != userId && !IsAdmin(db.chatUsers, message.chatId, userId) {
      return false;
    }
    db.messages := db.messages[messageId := SoftDeleted(message)];
    ok := true;
  }

  /**
   * MarkAsReadUpToAsync: a member's cursor becomes exactly `timestamp`, even
   * when that is earlier than the cursor it had.
   */
  method MarkAsReadUpTo(db: Database, chatId: ChatId, userId: UserId, timestamp: Time) returns (ok: bool)
    modifies db
    ensures db.users == old(db.users) && db.chats == old(db.chats)
    ensures db.messages == old(db.messages) && db.attachments == old(db.attachments)
    ensures ok <==> IsMember(old(db.chatUsers), chatId, userId)
    ensures ok ==> db.chatUsers == WithCursor(old(db.chatUsers), chatId, userId, timestamp)
    ensures !ok ==> db.chatUsers == old(db.chatUsers)
  {
    if !IsMember(db.chatUsers, chatId, userId) {
      return false;
    }
    var row := db.chatUsers[(chatId, userId)];
    db.chatUsers := db.chatUsers[(chatId, userId) := row.(lastReadMessageTime := Some(timestamp))];
    ok := true;
  }

  /** The cursor can move backwards: marking up to an earlier time rewinds it. */
  lemma CursorCanRewind()
    ensures var rows := map[(7, 3) := ChatUser(false, 0, Some(100))];
      WithCursor(rows, 7, 3, 50)[(7, 3)].lastReadMessageTime == Some(50)
      && Some(50) != rows[(7, 3)].lastReadMessageTime
  {
  }
}
