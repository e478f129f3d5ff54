/**
  The GATT server's handling of incoming text: typing signals, reassembly of a
  message delivered in several writes, the split of sender name from content,
  and the decision whether to notify.
*/
module ChatController {
  import opened Text
  import opened Utf8

  const DELIMITER: string := "|||"
  const SIG_TYP_START: string := "SIG_TYP_START"
  const SIG_TYP_STOP: string := "SIG_TYP_STOP"
  /** A buffer longer than this (in UTF-16 units) with no delimiter is dropped. */
  const BUFFER_LIMIT: nat := 5000

  /** A complete message handed on: `receiveMessage(address, senderName, content)`,
      and a notification when `notify`. */
  datatype Dispatch = Dispatch(address: string, senderName: string, content: string, notify: bool)

  /** What the handler keeps between writes. */
  datatype ControllerState = ControllerState(
    remoteTypingState: map<string, bool>,
    activeChatAddress: Option<string>,
    messageBuffers: map<string, string>)

  /** The sender name used when a message has no delimiter. */
  function UnknownSender(address: string): string {
    "Bilinmeyen (" + TakeLast(address, 4) + ")"
  }

  /**
    The split in `processFullMessage`: at the first `|||`, the name before and
    the content after (which may hold further delimiters); without a
    delimiter, the placeholder name and the whole message.
  */
  function SplitSender(address: string, message: string): (string, string) {
    if Contains(message, DELIMITER) then
      var parts := Split(message, DELIMITER, 2);
      if |parts| == 2 then (parts[0], parts[1]) else (UnknownSender(address), message)
    else (UnknownSender(address), message)
  }

  /** The split is at the first delimiter; the sender name never holds one. */
  lemma SplitSenderAtFirst(address: string, message: string)
    ensures var i := IndexOf(message, DELIMITER);
      (i >= 0 ==> SplitSender(address, message) == (message[..i], message[i + |DELIMITER|..])) &&
      (i < 0 ==> SplitSender(address, message) == (UnknownSender(address), message))
    ensures Contains(message, DELIMITER) ==> !Contains(SplitSender(address, message).0, DELIMITER)
  {
    SplitTwo(message, DELIMITER);
    if Contains(message, DELIMITER) {
      PrefixBeforeFirstHasNoDelimiter(message, DELIMITER);
    }
  }

  /** A message framed as `name|||content` splits back into the name and the content, provided the
      name does not itself end a delimiter (it has no `|||` and does not end in `|`). */
  lemma SplitSenderOfFramed(address: string, name: string, content: string)
    requires !Contains(name + "||", DELIMITER)
    ensures SplitSender(address, name + DELIMITER + content) == (name, content)
  {
    var m := name + DELIMITER + content;
    var n := |name| + 2;
    assert m[..n] == name + "||";
    ContainsIff(name + "||", DELIMITER);
    forall j: nat | j < |name| ensures !OccursAt(m, DELIMITER, j) {
      OccursInPrefix(m, DELIMITER, n, j);
    }
    assert OccursAt(m, DELIMITER, |name|) by {
      assert m[|name|..|name| + 3] == DELIMITER;
    }
    IndexOfFirst(m, DELIMITER, |name|);
    SplitSenderAtFirst(address, m);
    assert m[..|name|] == name;
    assert m[|name| + 3..] == content;
  }

  /** `setActiveChat(address)`: the address is kept upper-cased. */
  function WithActiveChat(s: ControllerState, address: Option<string>): (s': ControllerState)
    ensures s'.activeChatAddress == (if address.Some? then Some(Upper(address.value)) else None)
    ensures s'.remoteTypingState == s.remoteTypingState && s'.messageBuffers == s.messageBuffers
  {
    s.(activeChatAddress := if address.Some? then Some(Upper(address.value)) else None)
  }

  /** `processFullMessage(device, message)`: the notification is raised unless the sender's chat is open. */
  function ProcessFullMessage(s: ControllerState, address: string, message: string): Dispatch {
    var (sender, content) := SplitSender(address, message);
    Dispatch(address, sender, content, s.activeChatAddress != Some(Upper(address)))
  }

  /** The reassembly part of the handler, for a delivery that is not a signal. */
  function OnText(s: ControllerState, address: string, incoming: string): (ControllerState, Option<Dispatch>) {
    var buffer := (if address in s.messageBuffers then s.messageBuffers[address] else "") + incoming;
    if Contains(buffer, DELIMITER) then
      (s.(messageBuffers := s.messageBuffers[address := ""]), Some(ProcessFullMessage(s, address, buffer)))
    else if Utf16Length(buffer) > BUFFER_LIMIT then
      (s.(messageBuffers := s.messageBuffers[address := ""]), None)
    else
      (s.(messageBuffers := s.messageBuffers[address := buffer]), None)
  }

  /** The three outcomes of `OnText`, for the buffer it builds. */
  lemma OnTextCases(s: ControllerState, address: string, incoming: string, buffer: string)
    requires buffer == (if address in s.messageBuffers then s.messageBuffers[address] else "") + incoming
    ensures Contains(buffer, DELIMITER) ==>
      OnText(s, address, incoming) ==
        (s.(messageBuffers := s.messageBuffers[address := ""]), Some(ProcessFullMessage(s, address, buffer)))
    ensures !Contains(buffer, DELIMITER) && Utf16Length(buffer) > BUFFER_LIMIT ==>
      OnText(s, address, incoming) == (s.(messageBuffers := s.messageBuffers[address := ""]), None)
    ensures !Contains(buffer, DELIMITER) && Utf16Length(buffer) <= BUFFER_LIMIT ==>
      OnText(s, address, incoming) == (s.(messageBuffers := s.messageBuffers[address := buffer]), None)
  {
  }

  /**
    The body of `onCharacteristicWriteRequest` after the acknowledgement: a
    missing value changes nothing; the exact signal texts set the sender's
    typing flag; anything else is appended to the sender's buffer, which is
    dispatched and cleared once it holds a delimiter, or cleared when it
    grows past the limit.
  */
  function OnWrite(s: ControllerState, address: string, value: Option<seq<Byte>>)
    : (ControllerState, Option<Dispatch>)
  {
    if value.None? then (s, None)
    else
      var incoming := Decode(value.value);
      if incoming == SIG_TYP_START then
        (s.(remoteTypingState := s.remoteTypingState[address := true]), None)
      else if incoming == SIG_TYP_STOP then
        (s.(remoteTypingState := s.remoteTypingState[address := false]), None)
      else OnText(s, address, incoming)
  }

  /** Every buffer is within the limit and holds no delimiter: a complete message never waits. */
  predicate BuffersBounded(s: ControllerState) {
    forall a :: a in s.messageBuffers ==>
      Utf16Length(s.messageBuffers[a]) <= BUFFER_LIMIT && !Contains(s.messageBuffers[a], DELIMITER)
  }

  lemma EmptyHasNoDelimiter()
    ensures !Contains("", DELIMITER) && Utf16Length("") == 0
  {
    ContainsIff("", DELIMITER);
  }

  /** The handler keeps every buffer within the limit and free of delimiters. */
  lemma OnWriteKeepsBuffersBounded(s: ControllerState, address: string, value: Option<seq<Byte>>)
    requires BuffersBounded(s)
    ensures BuffersBounded(OnWrite(s, address, value).0)
  {
    if value.Some? {
      var incoming := Decode(value.value);
      if incoming != SIG_TYP_START && incoming != SIG_TYP_STOP {
        var buffer := (if address in s.messageBuffers then s.messageBuffers[address] else "") + incoming;
        OnTextCases(s, address, incoming, buffer);
        if Contains(buffer, DELIMITER) || Utf16Length(buffer) > BUFFER_LIMIT {
          EmptyHasNoDelimiter();
          BoundedStore(s, address, "");
        } else {
          BoundedStore(s, address, buffer);
        }
      }
    }
  }

  /** Storing a bounded, delimiter-free buffer keeps all buffers bounded. */
  lemma BoundedStore(s: ControllerState, address: string, b: string)
    requires BuffersBounded(s) && Utf16Length(b) <= BUFFER_LIMIT && !Contains(b, DELIMITER)
    ensures BuffersBounded(s.(messageBuffers := s.messageBuffers[address := b]))
  {
  }

  /** A typing signal sets the sender's flag, touches no buffer and dispatches nothing. */
  lemma SignalSetsTyping(s: ControllerState, address: string, value: seq<Byte>)
    requires Decode(value) == SIG_TYP_START || Decode(value) == SIG_TYP_STOP
    ensures var (s', d) := OnWrite(s, address, Some(value));
      d.None? && s'.messageBuffers == s.messageBuffers && s'.activeChatAddress == s.activeChatAddress &&
      s'.remoteTypingState == s.remoteTypingState[address := Decode(value) == SIG_TYP_START]
  {
  }

  /**
    Any other text is appended to the sender's buffer; if the buffer then holds
    a delimiter it is dispatched whole, once, split at its first delimiter, and
    cleared. Other senders' buffers and the typing flags are unchanged.
  */
  lemma TextAppendsOrDispatches(s: ControllerState, address: string, value: seq<Byte>)
    requires Decode(value) != SIG_TYP_START && Decode(value) != SIG_TYP_STOP
    ensures var buffer := (if address in s.messageBuffers then s.messageBuffers[address] else "") + Decode(value);
      var (s', d) := OnWrite(s, address, Some(value));
      s'.remoteTypingState == s.remoteTypingState && s'.activeChatAddress == s.activeChatAddress &&
      address in s'.messageBuffers &&
      (forall a :: a != address ==> (a in s'.messageBuffers <==> a in s.messageBuffers) &&
                                    (a in s.messageBuffers ==> s'.messageBuffers[a] == s.messageBuffers[a])) &&
      (Contains(buffer, DELIMITER) ==>
        s'.messageBuffers[address] == "" && d.Some? &&
        (d.value.senderName, d.value.content) == SplitSender(address, buffer) &&
        d.value.address == address) &&
      (!Contains(buffer, DELIMITER) ==>
        d.None? && s'.messageBuffers[address] == (if Utf16Length(buffer) > BUFFER_LIMIT then "" else buffer))
  {
  }

  /** A dispatched message raises a notification exactly when its sender's chat is not the open one. */
  lemma NotifyUnlessActive(s: ControllerState, address: string, value: seq<Byte>)
    requires OnWrite(s, address, Some(value)).1.Some?
    ensures OnWrite(s, address, Some(value)).1.value.notify <==> s.activeChatAddress != Some(Upper(address))
  {
  }

  /**
    A message that arrives in two writes, the first holding no delimiter, is
    dispatched by the second as the two decoded fragments, concatenated. Each
    write is decoded on its own, so a UTF-8 sequence split between the writes
    does not decode as it would in one piece.
  */
  lemma TwoFragments(s: ControllerState, address: string, v1: seq<Byte>, v2: seq<Byte>)
    requires address !in s.messageBuffers || s.messageBuffers[address] == ""
    requires Decode(v1) != SIG_TYP_START && Decode(v1) != SIG_TYP_STOP
    requires Decode(v2) != SIG_TYP_START && Decode(v2) != SIG_TYP_STOP
    requires !Contains(Decode(v1), DELIMITER) && Utf16Length(Decode(v1)) <= BUFFER_LIMIT
    requires Contains(Decode(v1) + Decode(v2), DELIMITER)
    ensures var s1 := OnWrite(s, address, Some(v1)).0;
      OnWrite(s1, address, Some(v2)).1 == Some(ProcessFullMessage(s, address, Decode(v1) + Decode(v2)))
  {
    var t1 := Decode(v1);
    assert (if address in s.messageBuffers then s.messageBuffers[address] else "") + t1 == t1;
  }

  /**
    When each write carries the UTF-8 bytes of a whole text, two fragments
    are dispatched exactly as the message written in one piece.
  */
  lemma TwoEncodedFragments(s: ControllerState, address: string, t1: string, t2: string)
    requires address !in s.messageBuffers || s.messageBuffers[address] == ""
    requires t1 != SIG_TYP_START && t1 != SIG_TYP_STOP && t2 != SIG_TYP_START && t2 != SIG_TYP_STOP
    requires !Contains(t1, DELIMITER) && Utf16Length(t1) <= BUFFER_LIMIT
    requires Contains(t1 + t2, DELIMITER)
    ensures var s1 := OnWrite(s, address, Some(Encode(t1))).0;
      OnWrite(s1, address, Some(Encode(t2))).1 == OnWrite(s, address, Some(Encode(t1 + t2))).1 ==
      Some(ProcessFullMessage(s, address, t1 + t2))
  {
    var whole := t1 + t2;
    DecodeEncode(t1);
    DecodeEncode(t2);
    DecodeEncode(whole);
    SignalsHoldNoDelimiter();
    assert whole != SIG_TYP_START && whole != SIG_TYP_STOP;
    TwoFragments(s, address, Encode(t1), Encode(t2));
    var buffer := (if address in s.messageBuffers then s.messageBuffers[address] else "") + whole;
    assert buffer == whole;
    OnTextCases(s, address, whole, buffer);
    assert OnWrite(s, address, Some(Encode(whole))) == OnText(s, address, whole);
  }

  /** Neither typing signal holds a delimiter. */
  lemma SignalsHoldNoDelimiter()
    ensures !Contains(SIG_TYP_START, DELIMITER) && !Contains(SIG_TYP_STOP, DELIMITER)
  {
    NoBarNoDelimiter(SIG_TYP_START);
    NoBarNoDelimiter(SIG_TYP_STOP);
  }

  /** Text without a `|` holds no delimiter. */
  lemma NoBarNoDelimiter(t: string)
    requires '|' !in t
    ensures !Contains(t, DELIMITER)
  {
    ContainsIff(t, DELIMITER);
    forall i: nat ensures !OccursAt(t, DELIMITER, i) {
      if i + 3 <= |t| {
        assert t[i..i + 3][0] == t[i] && t[i] in t;
      }
    }
  }

  /** The GATT server's message handling, with its mutable tables. */
  class AndroidChatController {
    var remoteTypingState: map<string, bool>
    var activeChatAddress: Option<string>
    var messageBuffers: map<string, string>

    function State(): ControllerState
      reads this
    {
      ControllerState(remoteTypingState, activeChatAddress, messageBuffers)
    }

    constructor ()
      ensures State() == ControllerState(map[], None, map[])
    {
      remoteTypingState := map[];
      activeChatAddress := None;
      messageBuffers := map[];
    }

    method SetActiveChat(address: Option<string>)
      modifies this
      ensures State() == WithActiveChat(old(State()), address)
    {
      activeChatAddress := if address.Some? then Some(Upper(address.value)) else None;
    }

    /** The reassembly part of the handler, for text that is not a signal. */
    method AppendText(address: string, incomingData: string) returns (dispatched: Option<Dispatch>)
      modifies this
      ensures (State(), dispatched) == OnText(old(State()), address, incomingData)
    {
      var s0 := State();
      dispatched := None;
      if address !in messageBuffers {
        messageBuffers := messageBuffers[address := ""];
      }
      var fullMessage := messageBuffers[address] + incomingData;
      var buffers := s0.messageBuffers[address := fullMessage];
      assert messageBuffers[address := fullMessage] == buffers;
      messageBuffers := buffers;
      OnTextCases(s0, address, incomingData, fullMessage);
      if Contains(fullMessage, DELIMITER) {
        dispatched := Some(ProcessFullMessage(s0, address, fullMessage));
        messageBuffers := s0.messageBuffers[address := ""];
        assert buffers[address := ""] == messageBuffers;
      } else if Utf16Length(fullMessage) > BUFFER_LIMIT {
        messageBuffers := s0.messageBuffers[address := ""];
        assert buffers[address := ""] == messageBuffers;
      }
    }

    /**
      `onCharacteristicWriteRequest` from the device at `address`. Returns
      whether an acknowledgement is sent, and the message handed to
      `processFullMessage`, if any.
    */
    method OnCharacteristicWriteRequest(address: string, responseNeeded: bool, value: Option<seq<Byte>>)
      returns (ack: bool, dispatched: Option<Dispatch>)
      modifies this
      ensures ack == responseNeeded
      ensures (State(), dispatched) == OnWrite(old(State()), address, value)
    {
      ack := responseNeeded;
      dispatched := None;
      if value.None? {
        return;
      }
      var incomingData := Decode(value.value);
      if incomingData == SIG_TYP_START {
        remoteTypingState := remoteTypingState[address := true];
        return;
      }
      if incomingData == SIG_TYP_STOP {
        remoteTypingState := remoteTypingState[address := false];
        return;
      }
      dispatched := AppendText(address, incomingData);
    }
  }
}
