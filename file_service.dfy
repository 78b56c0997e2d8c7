/**
 * FileService: the upload record and the access policy for attachments. An
 * attachment linked to a message is governed by that message's chat; an
 * unlinked one (just uploaded) by a 15-minute window after its upload.
 */
module FileService {
  import opened Domain
  import opened Store

  /** The exceptions of UploadFileAsync (both ArgumentException in the source). */
  datatype FileError = UserNotFound | EmptyFile

  /** The parts of the posted IFormFile the service reads. */
  datatype FormFile = FormFile(fileName: string, contentType: string, length: int)

  /** The span after upload during which an unlinked attachment stays usable. */
  const UploadWindow: Time := 15 * TicksPerMinute

  /** The length of a Guid's default text form, 8-4-4-4-12 hex digits with hyphens. */
  const GuidTextLength: nat := 36

  /** The name a file is stored under: a fresh Guid, an underscore, the base name. */
  function StoredFileName(guidText: string, baseName: string): (s: string)
    ensures |s| == |guidText| + 1 + |baseName|
    ensures s[..|guidText|] == guidText && s[|guidText|] == '_' && s[|guidText| + 1..] == baseName
  {
    guidText + "_" + baseName
  }

  /** The base name a stored name was made from, given the Guid's text length. */
  function BaseNameOf(stored: string): (b: string)
    ensures |stored| > GuidTextLength ==> |b| == |stored| - GuidTextLength - 1
    ensures |stored| <= GuidTextLength ==> b == ""
  {
    if |stored| > GuidTextLength then stored[GuidTextLength + 1..] else ""
  }

  /** The uploaded file's base name can be read back from the name it is stored under. */
  lemma StoredNameRoundTrip(guidText: string, baseName: string)
    requires |guidText| == GuidTextLength
    ensures BaseNameOf(StoredFileName(guidText, baseName)) == baseName
  {
    assert StoredFileName(guidText, baseName)[|guidText| + 1..] == baseName;
  }

  /**
   * UploadFileAsync. `getFileName` is Path.GetFileName, `attachmentId` and
   * `guidText` the two fresh Guids, `now` the clock; the bytes written to disk
   * are not modelled.
   */
  method UploadFile(db: Database, userId: UserId, file: Option<FormFile>, getFileName: string -> string,
                    attachmentId: AttachmentId, guidText: string, now: Time)
    returns (r: Result<AttachmentId, FileError>)
    requires attachmentId !in db.attachments
    requires |guidText| == GuidTextLength
    modifies db
    ensures db.users == old(db.users) && db.chats == old(db.chats)
    ensures db.chatUsers == old(db.chatUsers) && db.messages == old(db.messages)
    ensures userId !in old(db.users) ==> r == Err(UserNotFound)
    ensures userId in old(db.users) && (file.None? || file.value.length == 0) ==> r == Err(EmptyFile)
    ensures r.Ok? <==> userId in old(db.users) && file.Some? && file.value.length != 0
    ensures r.Err? ==> db.attachments == old(db.attachments)
    ensures r.Ok? ==>
      var baseName := getFileName(file.value.fileName);
      && r.value == attachmentId
      && db.attachments == old(db.attachments)[attachmentId :=
           Attachment(None, baseName, file.value.contentType, StoredFileName(guidText, baseName),
                      file.value.length, now)]
    ensures r.Ok? ==> BaseNameOf(db.attachments[attachmentId].filePath) == getFileName(file.value.fileName)
  {
    if userId !in db.users {
      return Err(UserNotFound);
    }
    if file.None? || file.value.length == 0 {
      return Err(EmptyFile);
    }
    var baseName := getFileName(file.value.fileName);
    var stored := StoredFileName(guidText, baseName);
    StoredNameRoundTrip(guidText, baseName);
    var attachment := Attachment(None, baseName, file.value.contentType, stored, file.value.length, now);
    db.attachments := db.attachments[attachmentId := attachment];
    r := Ok(attachmentId);
  }

  /**
   * The message an attachment is linked to, as the navigation property loads
   * it: None when there is no link or the linked message does not exist.
   */
  function LinkedMessage(a: Attachment, messages: map<MessageId, Message>): (m: Option<MessageId>)
    ensures m.Some? <==> a.messageId.Some? && a.messageId.value in messages
    ensures m.Some? ==> m.value == a.messageId.value
  {
    if a.messageId.Some? && a.messageId.value in messages then a.messageId else None
  }

  /** GetFileAsync's access check. */
  predicate MayRead(a: Attachment, messages: map<MessageId, Message>, rows: map<MemberKey, ChatUser>,
                    userId: UserId, now: Time) {
    match LinkedMessage(a, messages)
    case Some(m) => IsMember(rows, messages[m].chatId, userId)
    case None => !(a.uploadedAt < now - UploadWindow)
  }

  /** DeleteFileAsync's permission check. */
  predicate MayDelete(a: Attachment, messages: map<MessageId, Message>, rows: map<MemberKey, ChatUser>,
                      userId: UserId, now: Time) {
    match LinkedMessage(a, messages)
    case Some(m) => messages[m].senderId == userId || IsAdmin(rows, messages[m].chatId, userId)
    case None => a.uploadedAt > now - UploadWindow
  }

  /**
   * GetFileAsync: the stored file name to open, or null for an unknown id, a
   * refused reader, or a file missing on disk (`onDisk`).
   */
  function GetFile(attachments: map<AttachmentId, Attachment>, messages: map<MessageId, Message>,
                   rows: map<MemberKey, ChatUser>, attachmentId: AttachmentId, userId: UserId,
                   now: Time, onDisk: string -> bool): (r: Option<string>)
    ensures r.Some? <==> (attachmentId in attachments
                          && MayRead(attachments[attachmentId], messages, rows, userId, now)
                          && onDisk(attachments[attachmentId].filePath))
    ensures r.Some? ==> r.value == attachments[attachmentId].filePath
  {
    if attachmentId !in attachments then None
    else
      var a := attachments[attachmentId];
      if !MayRead(a, messages, rows, userId, now) then None
      else if !onDisk(a.filePath) then None
      else Some(a.filePath)
  }

  /** The access rule stated outright for each kind of attachment and each reader. */
  lemma {:induction false} ReadRule(a: Attachment, messages: map<MessageId, Message>, rows: map<MemberKey, ChatUser>,
                                    userId: UserId, now: Time)
    ensures a.messageId.Some? && a.messageId.value in messages ==>
      (MayRead(a, messages, rows, userId, now) <==> IsMember(rows, messages[a.messageId.value].chatId, userId))
    ensures !(a.messageId.Some? && a.messageId.value in messages) ==>
      (MayRead(a, messages, rows, userId, now) <==> a.uploadedAt >= now - UploadWindow)
  {
  }

  /**
   * The two window checks differ at the boundary: an unlinked attachment
   * uploaded exactly 15 minutes ago may be read but not deleted, and inside
   * the window whatever may be deleted may be read.
   */
  lemma {:induction false} WindowBoundary(a: Attachment, messages: map<MessageId, Message>,
                                          rows: map<MemberKey, ChatUser>, userId: UserId, now: Time)
    requires LinkedMessage(a, messages).None?
    ensures a.uploadedAt == now - UploadWindow ==>
      MayRead(a, messages, rows, userId, now) && !MayDelete(a, messages, rows, userId, now)
    ensures MayDelete(a, messages, rows, userId, now) ==> MayRead(a, messages, rows, userId, now)
  {
  }

  /** A chat admin may read every linked attachment it may delete. */
  lemma {:induction false} AdminsReadWhatTheyDelete(a: Attachment, messages: map<MessageId, Message>,
                                                    rows: map<MemberKey, ChatUser>, userId: UserId, now: Time)
    requires LinkedMessage(a, messages).Some?
    requires IsAdmin(rows, messages[a.messageId.value].chatId, userId)
    ensures MayDelete(a, messages, rows, userId, now) && MayRead(a, messages, rows, userId, now)
  {
  }

  /**
   * The sender of the linked message may delete the attachment after leaving
   * the chat, but no longer read it.
   */
  lemma {:induction false} SenderWhoLeftDeletesUnread(a: Attachment, messages: map<MessageId, Message>,
                                                      rows: map<MemberKey, ChatUser>, userId: UserId, now: Time)
    requires LinkedMessage(a, messages).Some?
    requires messages[a.messageId.value].senderId == userId
    requires !IsMember(rows, messages[a.messageId.value].chatId, userId)
    ensures MayDelete(a, messages, rows, userId, now) && !MayRead(a, messages, rows, userId, now)
  {
  }

  /**
   * DeleteFileAsync. `fault` stands for an exception from the disk or the
   * save, which the method turns into false with the record kept.
   */
  method DeleteFile(db: Database, attachmentId: AttachmentId, userId: UserId, now: Time, fault: bool)
    returns (ok: bool)
    modifies db
    ensures db.users == old(db.users) && db.chats == old(db.chats)
    ensures db.chatUsers == old(db.chatUsers) && db.messages == old(db.messages)
    ensures ok <==> (attachmentId in old(db.attachments) && !fault
                     && MayDelete(old(db.attachments)[attachmentId], old(db.messages), old(db.chatUsers), userId, now))
    ensures ok ==> db.attachments == old(db.attachments) - {attachmentId}
    ensures !ok ==> db.attachments == old(db.attachments)
  {
    if attachmentId !in db.attachments {
      return false;
    }
    var attachment := db.attachments[attachmentId];
    var canDelete := MayDelete(attachment, db.messages, db.chatUsers, userId, now);
    if !canDelete {
      return false;
    }
    if fault {
      return false;
    }
    db.attachments := db.attachments - {attachmentId};
    ok := true;
  }
}
