/**
  The message status and message type enums, and their conversion to and
  from the names stored in the database.
*/
module Converters {

  /** The delivery state of a message. */
  datatype MessageStatus = SENDING | SENT | FAILED | RECEIVED

  /** The kind of a message's content. */
  datatype MessageType = TEXT | IMAGE | FILE | LOCATION

  /** `status.name`, which `fromStatus` stores. */
  function StatusName(s: MessageStatus): string {
    match s
    case SENDING => "SENDING"
    case SENT => "SENT"
    case FAILED => "FAILED"
    case RECEIVED => "RECEIVED"
  }

  /** `toStatus(value)`: `MessageStatus.valueOf(value)`, or SENT when no constant has that exact name. */
  function ToStatus(value: string): MessageStatus {
    if value == "SENDING" then SENDING
    else if value == "SENT" then SENT
    else if value == "FAILED" then FAILED
    else if value == "RECEIVED" then RECEIVED
    else SENT
  }

  predicate IsStatusName(value: string) {
    exists s: MessageStatus :: StatusName(s) == value
  }

  /** Reading back a stored status gives the status. */
  lemma StatusRoundTrip(s: MessageStatus)
    ensures ToStatus(StatusName(s)) == s
  {
  }

  /** Distinct statuses are stored under distinct names. */
  lemma StatusNameInjective(s: MessageStatus, t: MessageStatus)
    ensures StatusName(s) == StatusName(t) <==> s == t
  {
  }

  /**
    `toStatus` never fails: a value that is not exactly the name of a status
    (a differently cased one included) reads as SENT, and a name reads as its
    own status.
  */
  lemma ToStatusFallback(value: string)
    ensures !IsStatusName(value) ==> ToStatus(value) == SENT
    ensures IsStatusName(value) ==> StatusName(ToStatus(value)) == value
  {
    if IsStatusName(value) {
      var s: MessageStatus :| StatusName(s) == value;
      StatusRoundTrip(s);
    } else {
      assert value != StatusName(SENDING) && value != StatusName(SENT);
      assert value != StatusName(FAILED) && value != StatusName(RECEIVED);
    }
  }

  /** `type.name`, as stored in the `messageType` column. */
  function TypeName(t: MessageType): string {
    match t
    case TEXT => "TEXT"
    case IMAGE => "IMAGE"
    case FILE => "FILE"
    case LOCATION => "LOCATION"
  }

  /** `MessageType.valueOf(value)`, or TEXT when no constant has that exact name. */
  function ToMessageType(value: string): MessageType {
    if value == "TEXT" then TEXT
    else if value == "IMAGE" then IMAGE
    else if value == "FILE" then FILE
    else if value == "LOCATION" then LOCATION
    else TEXT
  }

  predicate IsTypeName(value: string) {
    exists t: MessageType :: TypeName(t) == value
  }

  /** A stored type name reads back as its type; anything else reads as TEXT. */
  lemma MessageTypeRoundTrip(t: MessageType, value: string)
    ensures ToMessageType(TypeName(t)) == t
    ensures !IsTypeName(value) ==> ToMessageType(value) == TEXT
  {
    if !IsTypeName(value) {
      assert value != TypeName(TEXT) && value != TypeName(IMAGE);
      assert value != TypeName(FILE) && value != TypeName(LOCATION);
    }
  }
}
