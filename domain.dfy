/**
 * The entities of the chat database (the server's Models.cs) as values.
 * Every table is a finite map from its key to a record; the key is the
 * entity's Guid, so the records themselves carry no id field.
 */
module Domain {

  /** A nullable reference or value. */
  datatype Option<+T> = None | Some(value: T) {
    function GetOr(default: T): T {
      match this
      case Some(v) => v
      case None => default
    }
  }

  /** The outcome of a service call: a value, or the exception it throws. */
  datatype Result<+T, +E> = Ok(value: T) | Err(error: E)

  /** Guids are opaque identities; only equality is ever used. */
  type Guid = int
  type UserId = Guid
  type ChatId = Guid
  type MessageId = Guid
  type AttachmentId = Guid

  /** The composite key of the ChatUsers table: (ChatId, UserId). */
  type MemberKey = (ChatId, UserId)

  /** A DateTime, as its count of 100-nanosecond ticks. */
  type Time = int

  /** DateTime.MinValue, used when a read cursor was never set. */
  const MinTime: Time := 0
  const TicksPerMinute: int := 600_000_000
  const TicksPerHour: int := 60 * TicksPerMinute

  datatype User = User(
    userName: string,
    email: string,
    passwordHash: string,
    salt: string,
    profilePictureUrl: Option<string>,
    createdAt: Time,
    lastActive: Time,
    emailConfirmed: bool,
    resetToken: Option<string>,
    resetTokenExpiry: Option<Time>)

  datatype Chat = Chat(
    name: string,
    description: string,
    isGroup: bool,
    imageUrl: Option<string>,
    createdAt: Time,
    createdById: UserId)

  /** One membership row; its chat and user are the row's key. */
  datatype ChatUser = ChatUser(
    isAdmin: bool,
    joinedAt: Time,
    lastReadMessageTime: Option<Time>)

  datatype Message = Message(
    chatId: ChatId,
    senderId: UserId,
    content: string,
    sentAt: Time,
    isEdited: bool,
    isDeleted: bool)

  /** An uploaded file; `messageId` is None until a message links it. */
  datatype Attachment = Attachment(
    messageId: Option<MessageId>,
    fileName: string,
    contentType: string,
    filePath: string,
    fileSize: int,
    uploadedAt: Time)
}
