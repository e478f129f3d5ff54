/**
  The chat repository: every address is upper-cased before it reaches the
  table or the client; outgoing messages are stored as SENDING and then
  marked SENT or FAILED by the outcome of the send; incoming messages and
  files are stored as unread; device names are updated under two different
  rules for the two directions.
*/
module ChatRepository {
  import opened Text
  import opened Utf8
  import opened Converters
  import opened ChatDao
  import TM = TransferModels
  import TransferManager
  import RM = ReceiveManager
  import ChatController
  import ChatClient
  import BluetoothService

  /** The placeholder that marks a name nobody chose. */
  const UNKNOWN: string := "Bilinmeyen"
  const PHOTO_TEXT: string := "\U{1F4F7} Foto\U{011F}raf"
  const VOICE_TEXT: string := "\U{1F3A4} Ses"
  const FILE_ICON: string := "\U{1F4C1} "
  const PIN_ICON: string := "\U{1F4CD} "
  const FILE_SENDER: string := "Dosya"
  const LOCATION_SENDER: string := "Konum"

  /** A message as the screens see it. */
  datatype ChatMessage = ChatMessage(
    id: string,
    text: string,
    isFromMe: bool,
    timestamp: int,
    deviceName: string,
    deviceAddress: string,
    unreadCount: int,
    status: MessageStatus,
    messageType: MessageType,
    attachmentPath: Option<string>)

  /** `MessageEntity.toDomain()`: the id printed, the stored names read back, no unread badge. */
  function ToDomain(m: MessageRow): ChatMessage {
    ChatMessage(IntToDecimal(m.id), m.text, m.isFromMe, m.timestamp, m.deviceName, m.deviceAddress, 0,
      ToStatus(m.status), ToMessageType(m.messageType), m.attachmentPath)
  }

  /**
    The domain message carries the row's own id (it parses back), the status
    and type the row was stored with, TEXT for an unknown type name, and no
    unread badge.
  */
  lemma ToDomainSpec(m: MessageRow, s: MessageStatus, t: MessageType)
    ensures LONG_MIN <= m.id <= LONG_MAX ==> ParseLong(ToDomain(m).id) == Some(m.id)
    ensures m.status == StatusName(s) ==> ToDomain(m).status == s
    ensures m.messageType == TypeName(t) ==> ToDomain(m).messageType == t
    ensures !IsTypeName(m.messageType) ==> ToDomain(m).messageType == TEXT
    ensures ToDomain(m).unreadCount == 0
  {
    if LONG_MIN <= m.id <= LONG_MAX {
      ParseDecimal(m.id, LONG_MIN, LONG_MAX);
    }
    StatusRoundTrip(s);
    MessageTypeRoundTrip(t, m.messageType);
  }

  /** `getMessages(deviceAddress)`: the conversation of the upper-cased address, newest first. */
  function MessagesFor(rows: seq<MessageRow>, address: string): seq<ChatMessage> {
    var g := GetMessages(rows, Upper(address));
    seq(|g|, i requires 0 <= i < |g| => ToDomain(g[i]))
  }

  /**
    The case of the address does not matter; every message shown belongs to
    the upper-cased address, they come newest first, and every stored row of
    that address is shown.
  */
  lemma MessagesForSpec(rows: seq<MessageRow>, address: string)
    ensures MessagesFor(rows, address) == MessagesFor(rows, Upper(address))
    ensures var r := MessagesFor(rows, address);
      (forall i :: 0 <= i < |r| ==> r[i].deviceAddress == Upper(address)) &&
      (forall i, j :: 0 <= i < j < |r| ==> r[i].timestamp >= r[j].timestamp) &&
      (forall m :: m in rows && m.deviceAddress == Upper(address) ==> ToDomain(m) in r)
  {
    UpperIdempotent(address);
    var g := GetMessages(rows, Upper(address));
    var r := MessagesFor(rows, address);
    forall i | 0 <= i < |r| ensures r[i].deviceAddress == Upper(address) {
      assert g[i] in g;
    }
    forall i, j | 0 <= i < j < |r| ensures r[i].timestamp >= r[j].timestamp {
      assert RowTime(g[i]) >= RowTime(g[j]);
    }
    forall m | m in rows && m.deviceAddress == Upper(address) ensures ToDomain(m) in r {
      var k :| 0 <= k < |g| && g[k] == m;
      assert r[k] == ToDomain(m);
    }
  }

  /** `remoteTypingState[address.uppercase()] ?: false`. */
  predicate IsRemoteTyping(typing: map<string, bool>, address: string) {
    Upper(address) in typing && typing[Upper(address)]
  }

  /** The signal `sendTypingSignal` sends. */
  function TypingSignal(isTyping: bool): string {
    if isTyping then ChatController.SIG_TYP_START else ChatController.SIG_TYP_STOP
  }

  /** A typing signal goes out as it is: the client does not frame it with a sender name. */
  lemma TypingSignalUnframed(isTyping: bool, adapterName: Option<string>)
    ensures ChatClient.FramePayload(TypingSignal(isTyping), adapterName) == TypingSignal(isTyping)
  {
    assert TypingSignal(isTyping)[..4] == "SIG_";
  }

  /**
    A typing signal delivered to the peer's server from a canonical
    (upper-case) address sets exactly that sender's typing flag to the value
    sent, without dispatching a message.
  */
  lemma TypingSignalReachesPeer(s: ChatController.ControllerState, sender: string, isTyping: bool, other: string)
    requires Upper(sender) == sender
    ensures var (s', d) := ChatController.OnWrite(s, sender, Some(Encode(TypingSignal(isTyping))));
      d.None? &&
      IsRemoteTyping(s'.remoteTypingState, sender) == isTyping &&
      (Upper(other) != sender ==>
        IsRemoteTyping(s'.remoteTypingState, other) == IsRemoteTyping(s.remoteTypingState, other))
  {
    DecodeEncode(TypingSignal(isTyping));
    SignalSetsFlag(s, sender, Encode(TypingSignal(isTyping)), isTyping, other);
  }

  /**
    A text message framed by the client and delivered whole to the peer's
    server, with nothing waiting in that sender's buffer, is dispatched at
    once with the client's name as sender and the text as content, and the
    buffer is left empty. The name must not end a delimiter of its own (no
    `|||`, no trailing `|`).
  */
  lemma TextReachesPeer(s: ChatController.ControllerState, sender: string, text: string, adapterName: string)
    requires !StartsWith(text, "SIG_")
    requires !Contains(adapterName + "||", ChatController.DELIMITER)
    requires sender !in s.messageBuffers || s.messageBuffers[sender] == ""
    ensures var payload := ChatClient.FramePayload(text, Some(adapterName));
      var (s', d) := ChatController.OnWrite(s, sender, Some(Encode(payload)));
      d == Some(ChatController.Dispatch(sender, adapterName, text, s.activeChatAddress != Some(Upper(sender)))) &&
      sender in s'.messageBuffers && s'.messageBuffers[sender] == ""
  {
    var p := ChatClient.FramePayload(text, Some(adapterName));
    assert p == adapterName + ChatController.DELIMITER + text;
    DecodeEncode(p);
    ChatController.SplitSenderOfFramed(sender, adapterName, text);
    assert OccursAt(p, ChatController.DELIMITER, |adapterName|) by {
      assert p[|adapterName|..|adapterName| + 3] == ChatController.DELIMITER;
    }
    ContainsIff(p, ChatController.DELIMITER);
    assert p[|adapterName|] == '|';
    assert p != ChatController.SIG_TYP_START && p != ChatController.SIG_TYP_STOP by {
      NoBarInSignals();
    }
    var buffer := (if sender in s.messageBuffers then s.messageBuffers[sender] else "") + p;
    assert buffer == p;
    ChatController.OnTextCases(s, sender, p, buffer);
  }

  /**
    The header of a file transfer as it would reach the link if its text went
    through `sendRawDataSuspend`, which frames everything but a signal with
    the adapter's name.
  */
  function FramedHeader(t: TM.PacketType, meta: string, adapterName: Option<string>): string {
    ChatClient.FramePayload(TM.CreateHeader(t, meta), adapterName)
  }

  /**
    A framed header is not recognised by the receiver unless the adapter's
    name itself starts with `H`: the delivery is taken for file content, and
    is dropped when no transfer is open.
  */
  lemma FramedHeaderNotRecognised(table: map<string, RM.Transfer>, address: string, t: TM.PacketType,
                                  meta: string, adapterName: Option<string>, now: int, createOk: bool,
                                  writeOk: bool)
    requires adapterName.Some? ==> |adapterName.value| > 0 && adapterName.value[0] != 'H'
    ensures var packet := Encode(FramedHeader(t, meta, adapterName));
      !RM.IsHeader(packet) &&
      RM.Step(table, address, packet, now, createOk, writeOk) == RM.ChunkStep(table, address, packet, writeOk)
    ensures address !in table ==>
      RM.Step(table, address, Encode(FramedHeader(t, meta, adapterName)), now, createOk, writeOk) ==
      (table, RM.NoResult)
  {
    var header := TM.CreateHeader(t, meta);
    TM.CreateHeaderShape(t, meta);
    assert header[0] == 'H';
    assert !StartsWith(header, "SIG_");
    var name := if adapterName.Some? then adapterName.value else ChatClient.DEFAULT_NAME;
    var framed := FramedHeader(t, meta, adapterName);
    assert framed == name + ChatClient.DELIMITER + header;
    assert framed[0] == name[0];
    DecodeEncode(framed);
  }

  /**
    The header as the transfer sends it, the raw bytes of its text, opens a
    transfer at the receiver with the file's type, name and size.
  */
  lemma RawHeaderOpensTransfer(table: map<string, RM.Transfer>, address: string, data: seq<Byte>,
                               t: TM.PacketType, fileName: string, now: int, writeOk: bool)
    requires '|' !in fileName && |data| <= LONG_MAX
    ensures var packet := TransferManager.Packets(data, t, FileMeta(fileName, |data|))[0];
      RM.IsHeader(packet) &&
      RM.Step(table, address, packet, now, true, writeOk) ==
      (table[address := RM.Transfer(t, fileName, |data|, 0, RM.OutputFileName(now, fileName), [])],
       RM.Progress(0))
  {
    var meta := FileMeta(fileName, |data|);
    var header := TM.CreateHeader(t, meta);
    assert TransferManager.Packets(data, t, meta)[0] == Encode(header);
    TM.CreateHeaderShape(t, meta);
    DecodeEncode(header);
    TM.ParseCreateHeader(t, meta);
    RM.ParseMetaOfWritten(fileName, |data|);
  }

  /** Neither typing signal holds a `|`. */
  lemma NoBarInSignals()
    ensures forall i :: 0 <= i < |ChatController.SIG_TYP_START| ==> ChatController.SIG_TYP_START[i] != '|'
    ensures forall i :: 0 <= i < |ChatController.SIG_TYP_STOP| ==> ChatController.SIG_TYP_STOP[i] != '|'
  {
  }

  lemma SignalSetsFlag(s: ChatController.ControllerState, sender: string, value: seq<Byte>, isTyping: bool,
                       other: string)
    requires Upper(sender) == sender && Decode(value) == TypingSignal(isTyping)
    ensures var (s', d) := ChatController.OnWrite(s, sender, Some(value));
      d.None? &&
      IsRemoteTyping(s'.remoteTypingState, sender) == isTyping &&
      (Upper(other) != sender ==>
        IsRemoteTyping(s'.remoteTypingState, other) == IsRemoteTyping(s.remoteTypingState, other))
  {
    ChatController.SignalSetsTyping(s, sender, value);
  }

  /** `sendMessage` renames the device for a non-blank name without "Bilinmeyen" in any case. */
  predicate RenameOnSend(name: string) {
    !IsBlank(name) && !ContainsIgnoreCase(name, UNKNOWN)
  }

  /** `receiveMessage` renames for a name longer than 5, not starting "Cihaz", without "Bilinmeyen" as written. */
  predicate RenameOnReceive(name: string) {
    Utf16Length(name) > 5 && !StartsWith(name, "Cihaz") && !Contains(name, UNKNOWN)
  }

  lemma StartsWithContains(s: string, p: string)
    requires StartsWith(s, p)
    ensures Contains(s, p) && ContainsIgnoreCase(s, p)
  {
    assert OccursAt(s, p, 0);
    ContainsIff(s, p);
    assert OccursAt(Upper(s), Upper(p), 0) by {
      assert Upper(s)[..|p|] == Upper(p);
    }
    ContainsIff(Upper(s), Upper(p));
  }

  /**
    The placeholders the app itself makes up never overwrite a stored name:
    the unknown-sender name of the server, the client's default name and the
    scanner's unknown-device name, in either direction.
  */
  lemma PlaceholdersNeverRename(address: string)
    ensures !RenameOnSend(ChatController.UnknownSender(address)) &&
      !RenameOnReceive(ChatController.UnknownSender(address))
    ensures !RenameOnSend(ChatClient.DEFAULT_NAME) && !RenameOnReceive(ChatClient.DEFAULT_NAME)
    ensures !RenameOnSend(BluetoothService.UNKNOWN_DEVICE) && !RenameOnReceive(BluetoothService.UNKNOWN_DEVICE)
  {
    var u := ChatController.UnknownSender(address);
    assert u[..|UNKNOWN|] == UNKNOWN;
    StartsWithContains(u, UNKNOWN);
    assert ChatClient.DEFAULT_NAME[..|UNKNOWN|] == UNKNOWN;
    StartsWithContains(ChatClient.DEFAULT_NAME, UNKNOWN);
    assert BluetoothService.UNKNOWN_DEVICE[..|UNKNOWN|] == UNKNOWN;
    StartsWithContains(BluetoothService.UNKNOWN_DEVICE, UNKNOWN);
  }

  /**
    The two rules disagree on case: an upper-case placeholder is refused when
    sending but accepted as a new name when receiving.
  */
  lemma RenameRulesDifferOnCase()
    ensures RenameOnReceive("BILINMEYEN") && !RenameOnSend("BILINMEYEN")
  {
    var s := "BILINMEYEN";
    assert !StartsWith(s, "Cihaz") by {
      assert s[..5][0] != "Cihaz"[0];
    }
    assert !Contains(s, UNKNOWN) by {
      forall i: nat ensures !OccursAt(s, UNKNOWN, i) {
        if i == 0 {
          assert s[i..i + |UNKNOWN|][1] != UNKNOWN[1];
        }
      }
      ContainsIff(s, UNKNOWN);
    }
    assert ContainsIgnoreCase(s, UNKNOWN) by {
      UpperUnknown();
      assert Upper(s) == s;
      assert s[..|s|] == s;
      StartsWithContains(s, s);
    }
  }

  /** The placeholder name upper-cased. */
  lemma UpperUnknown()
    ensures Upper(UNKNOWN) == "BILINMEYEN"
  {
    var u := Upper(UNKNOWN);
    forall i | 0 <= i < |u| ensures u[i] == "BILINMEYEN"[i] {
      assert u[i] == UpperChar(UNKNOWN[i]);
    }
  }


  /** What a received file is shown as, by its header's packet type. */
  function ReceiveFileKind(typeId: int, fileName: string): (MessageType, string) {
    var p := TM.FromId(typeId);
    if p == TM.IMAGE_HEADER then (IMAGE, PHOTO_TEXT)
    else if p == TM.AUDIO_HEADER then (FILE, VOICE_TEXT)
    else (FILE, FILE_ICON + fileName)
  }

  /** What a sent file is stored as, and the header it is sent with. */
  function SendFileKind(isImage: bool, fileName: string): (MessageType, TM.PacketType, string) {
    if isImage then (IMAGE, TM.IMAGE_HEADER, PHOTO_TEXT)
    else (FILE, TM.FILE_HEADER, FILE_ICON + fileName)
  }

  /**
    Both ends agree: the receiver, reading the header type the sender used,
    stores the file under the sender's type and text. A type id the receiver
    does not know reads as a plain file, and a received file is never TEXT
    or LOCATION.
  */
  lemma FileKindsAgree(isImage: bool, fileName: string, typeId: int)
    ensures var (t, p, text) := SendFileKind(isImage, fileName);
      ReceiveFileKind(TM.Id(p), fileName) == (t, text)
    ensures !(0 <= typeId <= 7) ==> ReceiveFileKind(typeId, fileName) == (FILE, FILE_ICON + fileName)
    ensures ReceiveFileKind(typeId, fileName).0 in {IMAGE, FILE}
  {
    TM.FromIdOfId(TM.IMAGE_HEADER);
    TM.FromIdOfId(TM.FILE_HEADER);
  }

  /** The header metadata of `sendFile`: the file name and the byte count. */
  function FileMeta(fileName: string, size: int): string {
    fileName + "|" + IntToDecimal(size)
  }

  /** The status `sendMessage` and `sendLocation` record for the send's result. */
  function FinalStatus(isSuccess: bool): MessageStatus {
    if isSuccess then SENT else FAILED
  }

  /** How the transfer of `sendFile` ended: with a result, or by throwing. */
  datatype SendOutcome = Returned(result: bool) | Threw

  /** The status `sendFile` records as written: SENT unless the transfer threw, whatever it returned. */
  function SendFileStatusAsWritten(o: SendOutcome): MessageStatus {
    if o.Threw? then FAILED else SENT
  }

  /** The status `sendFile` evidently means to record: SENT only for a transfer that reported success. */
  function SendFileStatus(o: SendOutcome): MessageStatus {
    if o == Returned(true) then SENT else FAILED
  }

  /** A transfer that reports failure is recorded as SENT by the code as written. */
  lemma RefusedTransferRecordedAsSent()
    ensures SendFileStatusAsWritten(Returned(false)) == SENT
    ensures SendFileStatus(Returned(false)) == FAILED
  {
  }

  /** The corrected rule matches `sendMessage`: SENT exactly when the transfer reported success. */
  lemma SendFileStatusAgrees(o: SendOutcome)
    ensures SendFileStatus(o) == SENT <==> o == Returned(true)
    ensures o.Returned? ==> SendFileStatus(o) == FinalStatus(o.result)
    ensures ToStatus(StatusName(SendFileStatus(o))) == SendFileStatus(o)
  {
    StatusRoundTrip(SendFileStatus(o));
  }

  /** The row `sendMessage` stores before sending. */
  function OutgoingRow(address: string, name: string, text: string, now: int): MessageRow {
    MessageRow(0, address, name, text, true, now, true, StatusName(SENDING), TypeName(TEXT), None)
  }

  /** The row `receiveMessage` stores. */
  function IncomingRow(address: string, name: string, text: string, now: int): MessageRow {
    MessageRow(0, address, name, text, false, now, false, StatusName(RECEIVED), TypeName(TEXT), None)
  }

  /** The row `sendFile` stores before sending. */
  function FileRow(address: string, fileName: string, isImage: bool, now: int): MessageRow {
    var (t, _, text) := SendFileKind(isImage, fileName);
    MessageRow(0, address, FILE_SENDER, text, true, now, true, StatusName(SENDING), TypeName(t), Some(fileName))
  }

  /** The row `sendLocation` stores before sending; the coordinates are given as printed. */
  function LocationRow(address: string, lat: string, lng: string, now: int): MessageRow {
    MessageRow(0, address, LOCATION_SENDER, PIN_ICON + lat + ", " + lng, true, now, true, StatusName(SENDING),
      TypeName(LOCATION), Some(lat + "," + lng))
  }

  /** The row `receiveFile` stores; `storedName` is the name the table holds for the address, if any. */
  function ReceivedFileRow(address: string, fileName: string, fileIdx: string, typeId: int,
                           storedName: Option<string>, now: int): MessageRow {
    var (t, text) := ReceiveFileKind(typeId, fileName);
    MessageRow(0, address, if storedName.Some? then storedName.value else UNKNOWN, text, false, now, false,
      StatusName(RECEIVED), TypeName(t), Some(fileIdx))
  }

  /** Insert a new row, then set its status. */
  function Logged(rows: seq<MessageRow>, nextId: int, m: MessageRow, s: MessageStatus): (seq<MessageRow>, int) {
    var (r, n, id) := InsertRow(rows, nextId, m);
    (UpdateStatus(r, id, s), n)
  }

  function Renamed(rows: seq<MessageRow>, address: string, name: string, rename: bool): seq<MessageRow> {
    if rename then UpdateDeviceName(rows, address, name) else rows
  }

  /** The table after `sendMessage`, `isSuccess` being the client's answer. */
  function SendMessageRows(rows: seq<MessageRow>, nextId: int, address: string, name: string, text: string,
                           now: int, isSuccess: bool): (seq<MessageRow>, int) {
    var a := Upper(address);
    Logged(Renamed(rows, a, name, RenameOnSend(name)), nextId, OutgoingRow(a, name, text, now), FinalStatus(isSuccess))
  }

  /** The table after `receiveMessage`. */
  function ReceiveMessageRows(rows: seq<MessageRow>, nextId: int, address: string, name: string, text: string,
                              now: int): (seq<MessageRow>, int) {
    var a := Upper(address);
    var (r, n, _) := InsertRow(Renamed(rows, a, name, RenameOnReceive(name)), nextId, IncomingRow(a, name, text, now));
    (r, n)
  }

  /** The table after `sendFile`, given how the transfer ended. */
  function SendFileRows(rows: seq<MessageRow>, nextId: int, address: string, fileName: string, isImage: bool,
                        now: int, o: SendOutcome): (seq<MessageRow>, int) {
    Logged(rows, nextId, FileRow(Upper(address), fileName, isImage, now), SendFileStatus(o))
  }

  /** The table after `sendLocation`, `isSuccess` being the client's answer. */
  function SendLocationRows(rows: seq<MessageRow>, nextId: int, address: string, lat: string, lng: string,
                            now: int, isSuccess: bool): (seq<MessageRow>, int) {
    Logged(rows, nextId, LocationRow(Upper(address), lat, lng, now), FinalStatus(isSuccess))
  }

  /** The table after `receiveFile`. */
  function ReceiveFileRows(rows: seq<MessageRow>, nextId: int, address: string, fileName: string, fileIdx: string,
                           typeId: int, storedName: Option<string>, now: int): (seq<MessageRow>, int) {
    var (r, n, _) := InsertRow(rows, nextId, ReceivedFileRow(Upper(address), fileName, fileIdx, typeId, storedName, now));
    (r, n)
  }

  /**
    Inserting a new row and then setting its status appends exactly one row,
    under the next id and with that status, and keeps the table well formed.
  */
  lemma LoggedAppends(rows: seq<MessageRow>, nextId: int, m: MessageRow, s: MessageStatus)
    requires WellFormed(rows, nextId) && m.id == 0
    ensures Logged(rows, nextId, m, s) == (rows + [m.(id := nextId, status := StatusName(s))], nextId + 1)
    ensures WellFormed(Logged(rows, nextId, m, s).0, nextId + 1)
  {
    var r1 := rows + [m.(id := nextId)];
    InsertSpec(rows, nextId, m);
    UpdatesKeepWellFormed(r1, nextId + 1, nextId, s, "", "");
    var r2 := UpdateStatus(r1, nextId, s);
    assert r2 == rows + [m.(id := nextId, status := StatusName(s))] by {
      forall i | 0 <= i < |rows| ensures r2[i] == rows[i] {
        assert r1[i] == rows[i];
      }
    }
  }

  /** Renaming keeps the table's integrity and every unread count. */
  lemma {:induction false} RenamedKeepsCounts(rows: seq<MessageRow>, nextId: int, a: string, name: string,
                                               rename: bool, address: Option<string>)
    ensures WellFormed(rows, nextId) ==> WellFormed(Renamed(rows, a, name, rename), nextId)
    ensures CountUnread(Renamed(rows, a, name, rename), address) == CountUnread(rows, address)
  {
    if WellFormed(rows, nextId) {
      UpdatesKeepWellFormed(rows, nextId, 0, SENT, a, name);
    }
    if rename && |rows| > 0 {
      var r := UpdateDeviceName(rows, a, name);
      assert r[..|r| - 1] == UpdateDeviceName(rows[..|rows| - 1], a, name);
      RenamedKeepsCounts(rows[..|rows| - 1], nextId, a, name, rename, address);
    }
  }

  /** One more row adds one to a count exactly when it is an unread incoming row that the count covers. */
  lemma CountUnreadSnoc(rows: seq<MessageRow>, m: MessageRow, address: Option<string>)
    ensures CountUnread(rows + [m], address) ==
      CountUnread(rows, address) + (if Unread(m) && (address.None? || m.deviceAddress == address.value) then 1 else 0)
  {
    assert (rows + [m])[..|rows|] == rows;
  }

  /**
    `sendMessage` appends one outgoing, read row under the next id, for the
    upper-cased address, whose status reads back SENT exactly when the send
    succeeded; earlier rows change at most in their name, and only under the
    send rule; the unread count is unchanged.
  */
  lemma SendMessageSpec(rows: seq<MessageRow>, nextId: int, address: string, name: string, text: string,
                        now: int, isSuccess: bool)
    requires WellFormed(rows, nextId)
    ensures var a := Upper(address);
      var (rows', nextId') := SendMessageRows(rows, nextId, address, name, text, now, isSuccess);
      WellFormed(rows', nextId') && nextId' == nextId + 1 && |rows'| == |rows| + 1 &&
      rows'[|rows|] == OutgoingRow(a, name, text, now).(id := nextId, status := StatusName(FinalStatus(isSuccess))) &&
      Upper(rows'[|rows|].deviceAddress) == rows'[|rows|].deviceAddress &&
      (ToStatus(rows'[|rows|].status) == SENT <==> isSuccess) &&
      (forall i :: 0 <= i < |rows| ==>
        rows'[i] == if RenameOnSend(name) && rows[i].deviceAddress == a then rows[i].(deviceName := name) else rows[i]) &&
      GetUnreadCount(rows') == GetUnreadCount(rows)
  {
    var a := Upper(address);
    var r0 := Renamed(rows, a, name, RenameOnSend(name));
    var m := OutgoingRow(a, name, text, now);
    RenamedKeepsCounts(rows, nextId, a, name, RenameOnSend(name), None);
    LoggedAppends(r0, nextId, m, FinalStatus(isSuccess));
    CountUnreadSnoc(r0, m.(id := nextId, status := StatusName(FinalStatus(isSuccess))), None);
    UpperIdempotent(address);
    StatusRoundTrip(FinalStatus(isSuccess));
  }

  /**
    `receiveMessage` appends one incoming, unread RECEIVED row under the next
    id for the upper-cased address; earlier rows change at most in their name,
    and only under the receive rule; the unread count of that address and the
    total both grow by one, and every other address's count is unchanged.
  */
  lemma ReceiveMessageSpec(rows: seq<MessageRow>, nextId: int, address: string, name: string, text: string,
                           now: int, other: string)
    requires WellFormed(rows, nextId)
    ensures var a := Upper(address);
      var (rows', nextId') := ReceiveMessageRows(rows, nextId, address, name, text, now);
      WellFormed(rows', nextId') && nextId' == nextId + 1 && |rows'| == |rows| + 1 &&
      rows'[|rows|] == IncomingRow(a, name, text, now).(id := nextId) &&
      ToStatus(rows'[|rows|].status) == RECEIVED &&
      (forall i :: 0 <= i < |rows| ==>
        rows'[i] == if RenameOnReceive(name) && rows[i].deviceAddress == a then rows[i].(deviceName := name) else rows[i]) &&
      GetUnreadCount(rows') == GetUnreadCount(rows) + 1 &&
      CountUnread(rows', Some(a)) == CountUnread(rows, Some(a)) + 1 &&
      (other != a ==> CountUnread(rows', Some(other)) == CountUnread(rows, Some(other)))
  {
    var a := Upper(address);
    var r0 := Renamed(rows, a, name, RenameOnReceive(name));
    var m := IncomingRow(a, name, text, now).(id := nextId);
    RenamedKeepsCounts(rows, nextId, a, name, RenameOnReceive(name), None);
    RenamedKeepsCounts(rows, nextId, a, name, RenameOnReceive(name), Some(a));
    RenamedKeepsCounts(rows, nextId, a, name, RenameOnReceive(name), Some(other));
    InsertSpec(r0, nextId, IncomingRow(a, name, text, now));
    CountUnreadSnoc(r0, m, None);
    CountUnreadSnoc(r0, m, Some(a));
    CountUnreadSnoc(r0, m, Some(other));
    StatusRoundTrip(RECEIVED);
  }

  /**
    Marking a conversation read, under any spelling of its address, clears
    every unread message `receiveMessage` stored for it, the new one included.
  */
  lemma ReceiveThenMarkAsRead(rows: seq<MessageRow>, nextId: int, address: string, name: string, text: string,
                              now: int, spelling: string)
    requires WellFormed(rows, nextId) && Upper(spelling) == Upper(address)
    ensures var rows' := ReceiveMessageRows(rows, nextId, address, name, text, now).0;
      var read := MarkAsRead(rows', Upper(spelling));
      CountUnread(read, Some(Upper(address))) == 0 &&
      GetUnreadCount(read) == GetUnreadCount(rows) - CountUnread(rows, Some(Upper(address)))
  {
    var a := Upper(address);
    var rows' := ReceiveMessageRows(rows, nextId, address, name, text, now).0;
    ReceiveMessageSpec(rows, nextId, address, name, text, now, a + "?");
    MarkAsReadCounts(rows', a, a + "?");
  }

  /**
    `sendFile` appends one outgoing, read row under the next id for the
    upper-cased address, of the type it was sent as, naming the file as its
    attachment; with the corrected status rule it reads back SENT exactly
    when the transfer reported success. Earlier rows are unchanged.
  */
  lemma SendFileSpec(rows: seq<MessageRow>, nextId: int, address: string, fileName: string, isImage: bool,
                     now: int, o: SendOutcome)
    requires WellFormed(rows, nextId)
    ensures var (rows', nextId') := SendFileRows(rows, nextId, address, fileName, isImage, now, o);
      WellFormed(rows', nextId') && nextId' == nextId + 1 && rows'[..|rows|] == rows && |rows'| == |rows| + 1 &&
      var m := rows'[|rows|];
      m.id == nextId && m.deviceAddress == Upper(address) && m.isFromMe && m.isRead &&
      ToMessageType(m.messageType) == (if isImage then IMAGE else FILE) &&
      m.attachmentPath == Some(fileName) &&
      (ToStatus(m.status) == SENT <==> o == Returned(true))
  {
    var m := FileRow(Upper(address), fileName, isImage, now);
    LoggedAppends(rows, nextId, m, SendFileStatus(o));
    var rows' := SendFileRows(rows, nextId, address, fileName, isImage, now, o).0;
    assert rows'[..|rows|] == rows;
    MessageTypeRoundTrip(if isImage then IMAGE else FILE, "");
    SendFileStatusAgrees(o);
  }

  /**
    `sendLocation` appends one outgoing, read LOCATION row under the next id
    for the upper-cased address, with the coordinates as its attachment and
    a status that reads back SENT exactly when the send succeeded.
  */
  lemma SendLocationSpec(rows: seq<MessageRow>, nextId: int, address: string, lat: string, lng: string,
                         now: int, isSuccess: bool)
    requires WellFormed(rows, nextId)
    ensures var (rows', nextId') := SendLocationRows(rows, nextId, address, lat, lng, now, isSuccess);
      WellFormed(rows', nextId') && nextId' == nextId + 1 && rows'[..|rows|] == rows && |rows'| == |rows| + 1 &&
      var m := rows'[|rows|];
      m.id == nextId && m.deviceAddress == Upper(address) && m.isFromMe && m.isRead &&
      ToMessageType(m.messageType) == LOCATION && m.attachmentPath == Some(lat + "," + lng) &&
      (ToStatus(m.status) == SENT <==> isSuccess)
  {
    var m := LocationRow(Upper(address), lat, lng, now);
    LoggedAppends(rows, nextId, m, FinalStatus(isSuccess));
    var rows' := SendLocationRows(rows, nextId, address, lat, lng, now, isSuccess).0;
    assert rows'[..|rows|] == rows;
    MessageTypeRoundTrip(LOCATION, "");
    StatusRoundTrip(FinalStatus(isSuccess));
  }

  /**
    `receiveFile` appends one incoming, unread RECEIVED row under the next id
    for the upper-cased address, typed and labelled by the header's packet
    type, under the stored name or the placeholder, and with the local file
    as its attachment; the address's unread count grows by one.
  */
  lemma ReceiveFileSpec(rows: seq<MessageRow>, nextId: int, address: string, fileName: string, fileIdx: string,
                        typeId: int, storedName: Option<string>, now: int)
    requires WellFormed(rows, nextId)
    ensures var (rows', nextId') := ReceiveFileRows(rows, nextId, address, fileName, fileIdx, typeId, storedName, now);
      WellFormed(rows', nextId') && nextId' == nextId + 1 && rows'[..|rows|] == rows && |rows'| == |rows| + 1 &&
      var m := rows'[|rows|];
      var (t, text) := ReceiveFileKind(typeId, fileName);
      m.id == nextId && m.deviceAddress == Upper(address) && !m.isFromMe && !m.isRead &&
      ToMessageType(m.messageType) == t && m.text == text && m.attachmentPath == Some(fileIdx) &&
      m.deviceName == (if storedName.Some? then storedName.value else UNKNOWN) &&
      ToStatus(m.status) == RECEIVED &&
      CountUnread(rows', Some(Upper(address))) == CountUnread(rows, Some(Upper(address))) + 1
  {
    var m := ReceivedFileRow(Upper(address), fileName, fileIdx, typeId, storedName, now);
    InsertSpec(rows, nextId, m);
    var rows' := rows + [m.(id := nextId)];
    assert rows'[..|rows|] == rows;
    CountUnreadSnoc(rows, m.(id := nextId), Some(Upper(address)));
    MessageTypeRoundTrip(ReceiveFileKind(typeId, fileName).0, "");
    StatusRoundTrip(RECEIVED);
  }

  /** Whether every send of a file transfer (the header, then each chunk) is accepted by the link. */
  predicate Delivered(data: seq<Byte>, p: TM.PacketType, meta: string, accepts: nat -> bool) {
    forall k :: 0 <= k < |TransferManager.Packets(data, p, meta)| ==> accepts(k)
  }

  /** A request the repository hands to the client. */
  datatype ClientCall =
    | Connect(address: string)
    | SendText(address: string, data: string)
    | SendFileData(address: string, packetType: TM.PacketType, metaData: string)

  /**
    The repository over the `messages` table. The client's answers are
    parameters: `isSuccess` for a text send, `accepts` for the sends of a file
    transfer; `now` is the clock.
  */
  class AndroidChatRepository {
    const dao: MessagesTable
    /** The requests handed to the client, in order. */
    var requests: seq<ClientCall>

    ghost predicate Valid()
      reads this, dao
    {
      dao.Valid()
    }

    constructor (dao: MessagesTable)
      ensures this.dao == dao && requests == []
    {
      this.dao := dao;
      requests := [];
    }

    /** `prepareConnection`. */
    method PrepareConnection(address: string)
      modifies this
      ensures requests == old(requests) + [Connect(Upper(address))]
    {
      requests := requests + [Connect(Upper(address))];
    }

    /** `sendTypingSignal`. */
    method SendTypingSignal(address: string, isTyping: bool)
      modifies this
      ensures requests == old(requests) + [SendText(Upper(address), TypingSignal(isTyping))]
    {
      var signal := if isTyping then ChatController.SIG_TYP_START else ChatController.SIG_TYP_STOP;
      requests := requests + [SendText(Upper(address), signal)];
    }

    method SendMessage(address: string, name: string, text: string, now: int, isSuccess: bool)
      requires Valid()
      modifies this, dao
      ensures Valid()
      ensures (dao.rows, dao.nextId) == SendMessageRows(old(dao.rows), old(dao.nextId), address, name, text, now, isSuccess)
      ensures requests == old(requests) + [SendText(Upper(address), text)]
    {
      var safeAddress := Upper(address);
      ghost var rows0, nextId0 := dao.rows, dao.nextId;
      if RenameOnSend(name) {
        dao.SetDeviceName(safeAddress, name);
      }
      assert dao.rows == Renamed(rows0, safeAddress, name, RenameOnSend(name));
      var msgId := dao.Insert(OutgoingRow(safeAddress, name, text, now));
      requests := requests + [SendText(safeAddress, text)];
      var finalStatus := if isSuccess then SENT else FAILED;
      dao.UpdateMessageStatus(msgId, finalStatus);
    }

    method ReceiveMessage(address: string, name: string, text: string, now: int)
      requires Valid()
      modifies dao
      ensures Valid()
      ensures (dao.rows, dao.nextId) == ReceiveMessageRows(old(dao.rows), old(dao.nextId), address, name, text, now)
    {
      var safeAddress := Upper(address);
      ghost var rows0 := dao.rows;
      if RenameOnReceive(name) {
        dao.SetDeviceName(safeAddress, name);
      }
      assert dao.rows == Renamed(rows0, safeAddress, name, RenameOnReceive(name));
      var _ := dao.Insert(IncomingRow(safeAddress, name, text, now));
    }

    method MarkAsRead(address: string)
      requires Valid()
      modifies dao
      ensures Valid()
      ensures dao.rows == ChatDao.MarkAsRead(old(dao.rows), Upper(address)) && dao.nextId == old(dao.nextId)
    {
      dao.SetRead(Upper(address));
    }

    /**
      `sendFile`, with the corrected status rule `SendFileStatus`: the message
      is recorded SENT only when `sendData` reports success. The code as
      written records SENT whenever `sendData` returns, whatever it returns
      (`SendFileStatusAsWritten`). `sendData` has no exception path here.
    */
    method SendFile(address: string, data: seq<Byte>, fileName: string, isImage: bool, now: int,
                    accepts: nat -> bool)
      requires Valid()
      modifies this, dao
      ensures Valid()
      ensures var p := SendFileKind(isImage, fileName).1;
        (dao.rows, dao.nextId) == SendFileRows(old(dao.rows), old(dao.nextId), address, fileName, isImage, now,
          Returned(Delivered(data, p, FileMeta(fileName, |data|), accepts)))
      ensures requests == old(requests) +
        [SendFileData(Upper(address), SendFileKind(isImage, fileName).1, FileMeta(fileName, |data|))]
    {
      var safeAddress := Upper(address);
      var packetType := if isImage then TM.IMAGE_HEADER else TM.FILE_HEADER;
      var metaData := FileMeta(fileName, |data|);
      var msgId := dao.Insert(FileRow(safeAddress, fileName, isImage, now));
      requests := requests + [SendFileData(safeAddress, packetType, metaData)];
      var success, _ := TransferManager.SendData(data, packetType, metaData, accepts);
      dao.UpdateMessageStatus(msgId, SendFileStatus(Returned(success)));
    }

    /** `sendLocation`; `lat` and `lng` are the coordinates as printed. */
    method SendLocation(address: string, lat: string, lng: string, now: int, isSuccess: bool)
      requires Valid()
      modifies this, dao
      ensures Valid()
      ensures (dao.rows, dao.nextId) == SendLocationRows(old(dao.rows), old(dao.nextId), address, lat, lng, now, isSuccess)
      ensures requests == old(requests) + [SendText(Upper(address), PIN_ICON + lat + ", " + lng)]
    {
      var safeAddress := Upper(address);
      var text := PIN_ICON + lat + ", " + lng;
      var msgId := dao.Insert(LocationRow(safeAddress, lat, lng, now));
      requests := requests + [SendText(safeAddress, text)];
      dao.UpdateMessageStatus(msgId, if isSuccess then SENT else FAILED);
    }

    /** `receiveFile`; `storedName` is what the table answers for the device's name. */
    method ReceiveFile(address: string, fileName: string, fileIdx: string, typeId: int,
                       storedName: Option<string>, now: int)
      requires Valid()
      modifies dao
      ensures Valid()
      ensures (dao.rows, dao.nextId) ==
        ReceiveFileRows(old(dao.rows), old(dao.nextId), address, fileName, fileIdx, typeId, storedName, now)
    {
      var safeAddress := Upper(address);
      var _ := dao.Insert(ReceivedFileRow(safeAddress, fileName, fileIdx, typeId, storedName, now));
    }
  }
}
