# BlueNix core, modelled in Dafny

BlueNix is a Bluetooth Low Energy chat app. Two phones exchange text messages, typing signals, files and locations over one GATT characteristic. This project models the core of its Android side and proves properties of that model:

- **Wire protocol** (`transfer_models.dfy`). Packet types have numeric ids. A file transfer starts with a header `HEAD|||<type id>|||<metadata>`, and the header can be parsed back.
- **Sending a file** (`transfer_manager.dfy`). The header goes first, then the data in chunks of 490 bytes. Sending stops at the first write the link refuses.
- **Receiving a file** (`receive_manager.dfy`). Each sender has a table entry holding an open file stream and a byte count. A header opens a transfer. A chunk is appended and progress is reported. The transfer completes once the announced size is reached.
- **GATT server side** (`chat_controller.dfy`). Write requests are acknowledged. Typing signals set a per-sender flag. Text fragments are reassembled in a per-sender buffer, capped at 5000 UTF-16 units. A buffer that holds `|||` is split into the sender's name and the content and dispatched. A notification is raised unless that chat is open.
- **GATT client side** (`chat_client.dfy`):
  - the callbacks of the connection state machine;
  - one connection attempt, with a single retry that refreshes the device cache;
  - framing of outgoing text as `<adapter name>|||<text>`, except for signals;
  - a send that waits for the write confirmation.
- **Device discovery** (`bluetooth_service.dfy`, `home_view_model.dfy`):
  - the scan's device table, holding one entry per address, with the latest reading winning;
  - display names;
  - a list sorted by signal strength;
  - the home screen's merge of scanned and paired devices.
- **Storage** (`chat_dao.dfy`, `converters.dfy`). The Room queries appear as functions over a table of message rows: a conversation's messages, the latest conversation per address, unread counts, inserts and updates. The type converters map between status names and values.
- **Repository** (`chat_repository.dfy`):
  - sending and receiving messages, files and locations, as they change the table and the requests handed to the client;
  - the device-rename rules;
  - end-to-end lemmas that connect client framing to server dispatch.
- **Library behaviour the code relies on** (`text.dfy`, `utf8.dfy`, `sorting.dfy`):
  - Kotlin's `split` with a limit, `toIntOrNull`, `uppercase`, `takeLast` and the UTF-16 length;
  - UTF-8 encoding and decoding;
  - a sort by descending key.

The shape of the model follows the source:
- Objects that update fields in place are classes: the receive table, the controller, the client, the scan, the view model, the DAO table and the repository. Each method's `ensures` ties the new state to a pure step function.
- The properties are lemmas about those step functions.
- The sending loop is a method with loop invariants.

## Model

| member | source | states |
|---|---|---|
| TransferModels.FindById | composeApp/src/commonMain/kotlin/com/vahitkeskin/bluenix/core/protocol/TransferModels.kt:16 | `entries.find { it.id == id }`: a found entry is one of the entries and has the id; when none is found, no entry has it |
| TransferModels.FromId | composeApp/src/commonMain/kotlin/com/vahitkeskin/bluenix/core/protocol/TransferModels.kt:15-17 | for an id in 0..7 the packet type with that id; TEXT for every other id |
| TransferModels.FromIdOfId | composeApp/src/commonMain/kotlin/com/vahitkeskin/bluenix/core/protocol/TransferModels.kt:5-16 | every packet type is found again from its own id |
| TransferModels.CreateHeaderShape | composeApp/src/commonMain/kotlin/com/vahitkeskin/bluenix/core/protocol/TransferModels.kt:34-36 | the header is `HEAD\|\|\|`, the type id as one decimal digit, `\|\|\|`, then the metadata; it starts with `HEAD\|\|\|` |
| TransferModels.ParseHeader | composeApp/src/commonMain/kotlin/com/vahitkeskin/bluenix/core/protocol/TransferModels.kt:38-44 | null for text not starting with `HEAD\|\|\|`; otherwise non-null exactly when a second `\|\|\|` follows and the text between parses as an `Int`, and then the packet type of that id and everything after the second delimiter |
| TransferModels.ParseCreateHeader | composeApp/src/commonMain/kotlin/com/vahitkeskin/bluenix/core/protocol/TransferModels.kt:34-44 | parsing a created header gives back the packet type and the metadata, even metadata that holds `\|\|\|` |
| TransferManager.ChunksFromShape | composeApp/src/androidMain/kotlin/com/vahitkeskin/bluenix/core/service/TransferManager.kt:36-38 | chunk k from an offset is the slice `[offset + 490k, min(offset + 490k + 490, N))`, and there are ceil((N - offset) / 490) of them |
| TransferManager.ConcatChunks | composeApp/src/androidMain/kotlin/com/vahitkeskin/bluenix/core/service/TransferManager.kt:33-54 | the chunks, concatenated, are the data |
| TransferManager.ChunkSizes | composeApp/src/androidMain/kotlin/com/vahitkeskin/bluenix/core/service/TransferManager.kt:36-54 | for N > 0 bytes: ceil(N / 490) chunks, all of 490 bytes but the last, which has the remaining 1..490 |
| TransferManager.FiftyThousandBytes | composeApp/src/androidMain/kotlin/com/vahitkeskin/bluenix/core/service/TransferManager.kt:32-54 | 50000 bytes go as 103 chunks, the last of 20 bytes |
| TransferManager.SendData | composeApp/src/androidMain/kotlin/com/vahitkeskin/bluenix/core/service/TransferManager.kt:18-64 | the header goes first; what is sent is a prefix of header-then-chunks; every send but the last was accepted; the result is true exactly when all sends were accepted, and false stops at the first refused send; with empty data only the header goes out |
| ReceiveManager.ParseMetaOfWritten | composeApp/src/androidMain/kotlin/com/vahitkeskin/bluenix/core/service/ReceiveManager.kt:40-42 | metadata written as `name\|size` (no `\|` in the name, size within `Long`) reads back as that name and size |
| ReceiveManager.HeaderTestOnBytes | composeApp/src/androidMain/kotlin/com/vahitkeskin/bluenix/core/service/ReceiveManager.kt:33-34 | the header test on the decoded text holds exactly when the bytes begin with the bytes of `HEAD\|\|\|` |
| ReceiveManager.HeaderOpensFreshTransfer | composeApp/src/androidMain/kotlin/com/vahitkeskin/bluenix/core/service/ReceiveManager.kt:34-54 | a header that parses opens a fresh transfer for the sender (count 0, nothing written, replacing any active one) and reports Progress(0) |
| ReceiveManager.FailedHeaderChangesNothing | composeApp/src/androidMain/kotlin/com/vahitkeskin/bluenix/core/service/ReceiveManager.kt:36-59 | a `HEAD\|\|\|` delivery that does not parse, or whose file cannot be created, reports nothing and leaves the table unchanged |
| ReceiveManager.StrayChunkIgnored | composeApp/src/androidMain/kotlin/com/vahitkeskin/bluenix/core/service/ReceiveManager.kt:63 | a non-header delivery from a sender with no transfer reports nothing and changes nothing |
| ReceiveManager.ChunkAdvancesTransfer | composeApp/src/androidMain/kotlin/com/vahitkeskin/bluenix/core/service/ReceiveManager.kt:65-79 | a chunk appends its bytes and raises the count by its length; at or past the announced size the transfer is removed and the file with every byte is reported, otherwise it stays and a percentage in 0..99 is reported |
| ReceiveManager.PercentBelowHundred | composeApp/src/androidMain/kotlin/com/vahitkeskin/bluenix/core/service/ReceiveManager.kt:70 | below the announced size the truncated percentage is in 0..99 |
| ReceiveManager.FailedWriteEndsTransfer | composeApp/src/androidMain/kotlin/com/vahitkeskin/bluenix/core/service/ReceiveManager.kt:80-85 | a failed write removes the transfer and reports nothing |
| ReceiveManager.OtherSendersUntouched | composeApp/src/androidMain/kotlin/com/vahitkeskin/bluenix/core/service/ReceiveManager.kt:30-85 | a delivery never adds, removes or changes another sender's transfer |
| ReceiveManager.StepKeepsConsistent | composeApp/src/androidMain/kotlin/com/vahitkeskin/bluenix/core/service/ReceiveManager.kt:67-68 | every transfer's count stays equal to the number of bytes it has written |
| ReceiveManager.TransferState.constructor | composeApp/src/androidMain/kotlin/com/vahitkeskin/bluenix/core/service/ReceiveManager.kt:52 | a new state has count 0, nothing written and an open stream |
| ReceiveManager.TransferState.Write | composeApp/src/androidMain/kotlin/com/vahitkeskin/bluenix/core/service/ReceiveManager.kt:67 | the bytes are appended to what the stream holds; the count is untouched |
| ReceiveManager.TransferState.Close | composeApp/src/androidMain/kotlin/com/vahitkeskin/bluenix/core/service/ReceiveManager.kt:74 | the stream is closed and keeps its bytes |
| ReceiveManager.ReceiveManager.constructor | composeApp/src/androidMain/kotlin/com/vahitkeskin/bluenix/core/service/ReceiveManager.kt:19 | no transfer is active |
| ReceiveManager.ReceiveManager.IsActive | composeApp/src/androidMain/kotlin/com/vahitkeskin/bluenix/core/service/ReceiveManager.kt:88-90 | true exactly when the sender has an entry in the table |
| ReceiveManager.ReceiveManager.OpenTransfer | composeApp/src/androidMain/kotlin/com/vahitkeskin/bluenix/core/service/ReceiveManager.kt:52-53 | a new state object is stored under the sender and the table gains the fresh transfer |
| ReceiveManager.ReceiveManager.EndTransfer | composeApp/src/androidMain/kotlin/com/vahitkeskin/bluenix/core/service/ReceiveManager.kt:74-75 | the sender's stream is closed and its entry removed; nothing else changes |
| ReceiveManager.ReceiveManager.AppendChunk | composeApp/src/androidMain/kotlin/com/vahitkeskin/bluenix/core/service/ReceiveManager.kt:67-68 | the sender's state gets the bytes and a count raised by their length; the entries stay the same objects |
| ReceiveManager.ReceiveManager.StartTransfer | composeApp/src/androidMain/kotlin/com/vahitkeskin/bluenix/core/service/ReceiveManager.kt:45-54 | the table gains the fresh transfer; a replaced transfer's stream is closed and replaced by a new object; other senders keep their objects |
| ReceiveManager.ReceiveManager.AcceptChunk | composeApp/src/androidMain/kotlin/com/vahitkeskin/bluenix/core/service/ReceiveManager.kt:63-85 | the new table and the result are those of the chunk step; a removed transfer's stream is closed; other senders keep their objects |
| ReceiveManager.ReceiveManager.ProcessPacket | composeApp/src/androidMain/kotlin/com/vahitkeskin/bluenix/core/service/ReceiveManager.kt:30-86 | the new table and the result are those of the pure step; other senders keep their state objects; a transfer that is replaced or removed has its stream closed |
| ChatController.SplitSenderAtFirst | composeApp/src/androidMain/kotlin/com/vahitkeskin/bluenix/core/service/AndroidChatController.kt:189-198 | the sender is the text before the first `\|\|\|` and the content everything after it; without a delimiter the placeholder and the whole message; the sender never holds a delimiter |
| ChatController.SplitSenderOfFramed | composeApp/src/androidMain/kotlin/com/vahitkeskin/bluenix/core/service/AndroidChatController.kt:192-198 | `name\|\|\|content` splits back into name and content when the name holds no `\|\|\|` and does not end in `\|` |
| ChatController.WithActiveChat | composeApp/src/androidMain/kotlin/com/vahitkeskin/bluenix/core/service/AndroidChatController.kt:56-58 | the active chat becomes the upper-cased address or none; buffers and typing flags are unchanged |
| ChatController.AndroidChatController.constructor | composeApp/src/androidMain/kotlin/com/vahitkeskin/bluenix/core/service/AndroidChatController.kt:42-54 | no typing flags, no active chat, no buffers |
| ChatController.AndroidChatController.SetActiveChat | composeApp/src/androidMain/kotlin/com/vahitkeskin/bluenix/core/service/AndroidChatController.kt:56-58 | the state becomes that of `WithActiveChat` |
| ChatController.SignalSetsTyping | composeApp/src/androidMain/kotlin/com/vahitkeskin/bluenix/core/service/AndroidChatController.kt:95-103 | the exact signal texts set the sender's typing flag (START true, STOP false), touch no buffer and dispatch nothing |
| ChatController.TextAppendsOrDispatches | composeApp/src/androidMain/kotlin/com/vahitkeskin/bluenix/core/service/AndroidChatController.kt:105-116 | other text is appended to the sender's buffer; with a delimiter the whole buffer is dispatched once, split at its first delimiter, and cleared; otherwise it is kept or dropped at the limit; other senders and the typing flags are unchanged |
| ChatController.OnWriteKeepsBuffersBounded | composeApp/src/androidMain/kotlin/com/vahitkeskin/bluenix/core/service/AndroidChatController.kt:105-116 | after every write each buffer is at most 5000 UTF-16 units long and holds no delimiter |
| ChatController.NotifyUnlessActive | composeApp/src/androidMain/kotlin/com/vahitkeskin/bluenix/core/service/AndroidChatController.kt:199-202 | a dispatched message notifies exactly when the upper-cased sender address is not the active chat |
| ChatController.TwoFragments | composeApp/src/androidMain/kotlin/com/vahitkeskin/bluenix/core/service/AndroidChatController.kt:105-113 | a message arriving in two writes, the first without a delimiter, is dispatched by the second as the two decoded fragments, concatenated (each write is decoded on its own) |
| ChatController.TwoEncodedFragments | composeApp/src/androidMain/kotlin/com/vahitkeskin/bluenix/core/service/AndroidChatController.kt:92-113 | when each write carries the UTF-8 bytes of a whole text, the two writes dispatch exactly what the message written in one piece does |
| ChatController.AndroidChatController.AppendText | composeApp/src/androidMain/kotlin/com/vahitkeskin/bluenix/core/service/AndroidChatController.kt:105-116 | the new buffers and the dispatched message are those of `OnText` |
| ChatController.AndroidChatController.OnCharacteristicWriteRequest | composeApp/src/androidMain/kotlin/com/vahitkeskin/bluenix/core/service/AndroidChatController.kt:80-117 | an acknowledgement exactly when one is requested, whatever the payload; the new state and the dispatch are those of `OnWrite`, so a missing payload changes nothing |
| ChatClient.CleanedUp | composeApp/src/androidMain/kotlin/com/vahitkeskin/bluenix/core/service/AndroidChatClient.kt:255-266 | the GATT handle is dropped and the client is not connected; the deferred and the write callback are unchanged |
| ChatClient.OnEvent | composeApp/src/androidMain/kotlin/com/vahitkeskin/bluenix/core/service/AndroidChatClient.kt:268-315 | a callback can make the client connected only by a successful discovery; a write confirmation clears the write callback and no other callback touches it |
| ChatClient.OnEventDecides | composeApp/src/androidMain/kotlin/com/vahitkeskin/bluenix/core/service/AndroidChatClient.kt:269-308 | a pending attempt is completed by a non-success status, a disconnection or a discovery, with the outcome as value; a deciding callback leaves the client connected exactly when it succeeded, and a failing one drops the handle |
| ChatClient.AwaitOutcome | composeApp/src/androidMain/kotlin/com/vahitkeskin/bluenix/core/service/AndroidChatClient.kt:174-180 | a waiting attempt succeeds exactly when the first deciding callback is a successful discovery; the client is then connected on the same handle, and otherwise cleaned up |
| ChatClient.ConnectAttemptOutcome | composeApp/src/androidMain/kotlin/com/vahitkeskin/bluenix/core/service/AndroidChatClient.kt:131-182 | no usable adapter: false, nothing changes; already connected to the address: true, nothing changes; otherwise success exactly when `connectGatt` returns and discovery succeeds first, then connected to that address; the cache is refreshed only on a retry |
| ChatClient.ConnectRetriesOnce | composeApp/src/androidMain/kotlin/com/vahitkeskin/bluenix/core/service/AndroidChatClient.kt:46-71 | no call when already connected; otherwise the first call without the retry flag, and a second, with it, exactly when the first failed; a connected client is connected to that address |
| ChatClient.WriteConfirmations | composeApp/src/androidMain/kotlin/com/vahitkeskin/bluenix/core/service/AndroidChatClient.kt:311-314 | counts the runs of the write callback |
| ChatClient.WriteCallbackOneShot | composeApp/src/androidMain/kotlin/com/vahitkeskin/bluenix/core/service/AndroidChatClient.kt:311-314 | once set, the write callback runs at most once whatever callbacks follow |
| ChatClient.InternalSend | composeApp/src/androidMain/kotlin/com/vahitkeskin/bluenix/core/service/AndroidChatClient.kt:219-253 | a send waits for confirmation only with a GATT handle, and then with the written text's bytes and the callback armed; the connection fields never change |
| ChatClient.AndroidChatClient.constructor | composeApp/src/androidMain/kotlin/com/vahitkeskin/bluenix/core/service/AndroidChatClient.kt:32-42 | no handle, not connected, no deferred, no write callback |
| ChatClient.AndroidChatClient.CleanUp | composeApp/src/androidMain/kotlin/com/vahitkeskin/bluenix/core/service/AndroidChatClient.kt:255-266 | the state becomes `CleanedUp` of the old one |
| ChatClient.AndroidChatClient.OnConnectionStateChange | composeApp/src/androidMain/kotlin/com/vahitkeskin/bluenix/core/service/AndroidChatClient.kt:269-290 | the state becomes `OnEvent` of the old one for that callback |
| ChatClient.AndroidChatClient.OnMtuChanged | composeApp/src/androidMain/kotlin/com/vahitkeskin/bluenix/core/service/AndroidChatClient.kt:292-297 | the state is unchanged, as `OnEvent` says |
| ChatClient.AndroidChatClient.OnServicesDiscovered | composeApp/src/androidMain/kotlin/com/vahitkeskin/bluenix/core/service/AndroidChatClient.kt:299-309 | the state becomes `OnEvent` of the old one for that callback |
| ChatClient.AndroidChatClient.OnCharacteristicWrite | composeApp/src/androidMain/kotlin/com/vahitkeskin/bluenix/core/service/AndroidChatClient.kt:311-314 | the waiting send is resumed exactly when the callback was set, and it is cleared |
| ChatClient.AndroidChatClient.Deliver | composeApp/src/androidMain/kotlin/com/vahitkeskin/bluenix/core/service/AndroidChatClient.kt:268-315 | any callback updates the state as `OnEvent` says |
| ChatClient.AndroidChatClient.ConnectSuspend | composeApp/src/androidMain/kotlin/com/vahitkeskin/bluenix/core/service/AndroidChatClient.kt:131-182 | the new state, verdict and cache refresh are those of `ConnectAttempt`, the loop over the callbacks stopping at the first completion |
| ChatClient.AndroidChatClient.Connect | composeApp/src/androidMain/kotlin/com/vahitkeskin/bluenix/core/service/AndroidChatClient.kt:46-71 | the new state and the calls made are those of `ConnectRun` |
| ChatClient.AndroidChatClient.SendRawDataSuspend | composeApp/src/androidMain/kotlin/com/vahitkeskin/bluenix/core/service/AndroidChatClient.kt:197-217 | an unconnected client first connects and fails if still unconnected; the framed payload is then sent as `InternalSend` says; a send awaiting confirmation carries the framed bytes and the client is connected |
| ChatClient.AndroidChatClient.InternalSendAt | composeApp/src/androidMain/kotlin/com/vahitkeskin/bluenix/core/service/AndroidChatClient.kt:219-253 | the new state and the result are those of `InternalSend` |
| BluetoothService.DisplayName | composeApp/src/androidMain/kotlin/com/vahitkeskin/bluenix/core/service/AndroidBluetoothService.kt:157-159 | "Bilinmeyen Cihaz" for a missing name, "No Name [address]" for a blank one, the name itself otherwise |
| BluetoothService.UpsertSpec | composeApp/src/androidMain/kotlin/com/vahitkeskin/bluenix/core/service/AndroidBluetoothService.kt:164-169 | an entry with the device's address is replaced in place, else the device is appended; still one entry per address, and the addresses gain the new one |
| BluetoothService.SortedView | composeApp/src/androidMain/kotlin/com/vahitkeskin/bluenix/core/service/AndroidBluetoothService.kt:172 | the emitted list is ordered by non-increasing RSSI and is a permutation of the table |
| BluetoothService.AddDeviceLatestWins | composeApp/src/androidMain/kotlin/com/vahitkeskin/bluenix/core/service/AndroidBluetoothService.kt:155-173 | a device without address changes nothing; otherwise one entry per address, its display-named reading is stored and is the only entry for the address (the latest RSSI wins); the emitted view has the same addresses, once each |
| BluetoothService.SeedDistinct | composeApp/src/androidMain/kotlin/com/vahitkeskin/bluenix/core/service/AndroidBluetoothService.kt:121-126 | adding the bonded devices keeps one entry per address |
| BluetoothService.SeedCovers | composeApp/src/androidMain/kotlin/com/vahitkeskin/bluenix/core/service/AndroidBluetoothService.kt:121-126 | after seeding every bonded device with an address is in the table and nothing was lost |
| BluetoothService.DeviceScan.constructor | composeApp/src/androidMain/kotlin/com/vahitkeskin/bluenix/core/service/AndroidBluetoothService.kt:30-126 | no usable adapter: one empty list is emitted and the flow ends (the program ends it by failing, see Left out); otherwise the table is the bonded devices seeded with RSSI -50 |
| BluetoothService.DeviceScan.SeedBonded | composeApp/src/androidMain/kotlin/com/vahitkeskin/bluenix/core/service/AndroidBluetoothService.kt:121-126 | the table and the emitted lists are those of `Seed` with RSSI -50 |
| BluetoothService.DeviceScan.AddDeviceToList | composeApp/src/androidMain/kotlin/com/vahitkeskin/bluenix/core/service/AndroidBluetoothService.kt:149-174 | the table becomes `AddDevice` of the old one, and its sorted view is emitted when the device has an address |
| HomeViewModel.DistinctFrom | composeApp/src/commonMain/kotlin/com/vahitkeskin/bluenix/ui/home/HomeViewModel.kt:105 | every element kept comes from the input and has an address not yet seen |
| HomeViewModel.DistinctFromSpec | composeApp/src/commonMain/kotlin/com/vahitkeskin/bluenix/ui/home/HomeViewModel.kt:104-105 | `distinctBy` keeps one element per address, covers every address, and keeps the first element with each address |
| HomeViewModel.MergeSpec | composeApp/src/commonMain/kotlin/com/vahitkeskin/bluenix/ui/home/HomeViewModel.kt:104-106 | the merged list has one entry per address, exactly the scanned and paired addresses, each entry from an input, a scanned address keeps its first scanned entry and a paired-only address its first paired entry, and it is ordered by non-increasing RSSI |
| HomeViewModel.HomeViewModel.StartTracking | composeApp/src/commonMain/kotlin/com/vahitkeskin/bluenix/ui/home/HomeViewModel.kt:72-77 | before any scan result the shown list is the paired list, or empty when reading it fails |
| HomeViewModel.HomeViewModel.OnScanUpdate | composeApp/src/commonMain/kotlin/com/vahitkeskin/bluenix/ui/home/HomeViewModel.kt:97-108 | the shown list becomes the merge of the scanned list with the paired list |
| ChatRepository.ToDomainSpec | composeApp/src/androidMain/kotlin/com/vahitkeskin/bluenix/data/repository/AndroidChatRepository.kt:146-164 | the domain id parses back to the row id, the stored status and type read back, an unknown type reads as TEXT, and the unread badge is 0 |
| ChatRepository.MessagesForSpec | composeApp/src/androidMain/kotlin/com/vahitkeskin/bluenix/data/repository/AndroidChatRepository.kt:32-34 | the address's case does not matter; every message shown belongs to the upper-cased address, newest first, and every stored row of it is shown |
| ChatRepository.TypingSignalUnframed | composeApp/src/androidMain/kotlin/com/vahitkeskin/bluenix/core/service/AndroidChatClient.kt:207 | a typing signal starts with `SIG_`, so the client sends it unframed |
| ChatRepository.TypingSignalReachesPeer | composeApp/src/androidMain/kotlin/com/vahitkeskin/bluenix/data/repository/AndroidChatRepository.kt:98-103 | the signal sent for `isTyping`, received from a canonical address, sets exactly that sender's typing flag to `isTyping`, as `isRemoteTyping` reads it, and dispatches nothing |
| ChatRepository.TextReachesPeer | composeApp/src/androidMain/kotlin/com/vahitkeskin/bluenix/core/service/AndroidChatClient.kt:207 | a text framed with the adapter's name and delivered whole is dispatched at once with that name as sender and the text as content, and the buffer is left empty |
| ChatRepository.FramedHeaderNotRecognised | composeApp/src/androidMain/kotlin/com/vahitkeskin/bluenix/core/service/TransferManager.kt:22 | a transfer header that went through the client's framing fails the receiver's header test (for an adapter name not starting with `H`) and is handled as file content, dropped when no transfer is open |
| ChatRepository.RawHeaderOpensTransfer | composeApp/src/androidMain/kotlin/com/vahitkeskin/bluenix/core/service/TransferManager.kt:20-22 | the header as the transfer sends it, the raw bytes of its text, passes the receiver's test and opens a transfer with the file's type, name and size, reporting Progress(0), for a file name without `|` |
| ChatRepository.PlaceholdersNeverRename | composeApp/src/androidMain/kotlin/com/vahitkeskin/bluenix/data/repository/AndroidChatRepository.kt:49-79 | the placeholder names the app makes up (unknown sender, default client name, unknown device) never rename a device in either direction |
| ChatRepository.RenameRulesDifferOnCase | composeApp/src/androidMain/kotlin/com/vahitkeskin/bluenix/data/repository/AndroidChatRepository.kt:49-79 | "BILINMEYEN" is refused when sending (case-insensitive test) but accepted when receiving (case-sensitive test) |
| ChatRepository.FileKindsAgree | composeApp/src/androidMain/kotlin/com/vahitkeskin/bluenix/data/repository/AndroidChatRepository.kt:196-202 | the receiver stores a file under the type and text the sender used; an unknown type id reads as a plain file; a received file is IMAGE or FILE |
| ChatRepository.RefusedTransferRecordedAsSent | composeApp/src/androidMain/kotlin/com/vahitkeskin/bluenix/data/repository/AndroidChatRepository.kt:134-143 | as written, a transfer that returns false is recorded SENT; the corrected rule records FAILED |
| ChatRepository.SendFileStatusAgrees | composeApp/src/androidMain/kotlin/com/vahitkeskin/bluenix/data/repository/AndroidChatRepository.kt:142-143 | the corrected rule records SENT exactly when the transfer returned true, as `sendMessage` does, and the status reads back |
| ChatRepository.LoggedAppends | composeApp/src/androidMain/kotlin/com/vahitkeskin/bluenix/data/repository/AndroidChatRepository.kt:64-71 | inserting a new row and setting its status appends exactly that row, under the next id, with that status, and keeps the table well formed |
| ChatRepository.SendMessageSpec | composeApp/src/androidMain/kotlin/com/vahitkeskin/bluenix/data/repository/AndroidChatRepository.kt:46-72 | one outgoing, read row is appended under the next id for the upper-cased address, SENT exactly when the send succeeded; earlier rows change only in name, and only under the send rule; the unread count is unchanged |
| ChatRepository.ReceiveMessageSpec | composeApp/src/androidMain/kotlin/com/vahitkeskin/bluenix/data/repository/AndroidChatRepository.kt:74-92 | one incoming, unread RECEIVED row is appended under the next id; earlier rows change only in name, under the receive rule; the address's and the total unread counts grow by one, other addresses' are unchanged |
| ChatRepository.ReceiveThenMarkAsRead | composeApp/src/androidMain/kotlin/com/vahitkeskin/bluenix/data/repository/AndroidChatRepository.kt:94-96 | marking read under any spelling of the address clears all its unread messages, the new one included, and lowers the total by the address's count |
| ChatRepository.SendFileSpec | composeApp/src/androidMain/kotlin/com/vahitkeskin/bluenix/data/repository/AndroidChatRepository.kt:105-144 | one outgoing, read row of the file's type with the file name as attachment is appended; with the corrected rule it reads SENT exactly when the transfer succeeded; earlier rows are unchanged |
| ChatRepository.SendLocationSpec | composeApp/src/androidMain/kotlin/com/vahitkeskin/bluenix/data/repository/AndroidChatRepository.kt:168-192 | one outgoing, read LOCATION row with the coordinates as attachment is appended, SENT exactly when the send succeeded |
| ChatRepository.ReceiveFileSpec | composeApp/src/androidMain/kotlin/com/vahitkeskin/bluenix/data/repository/AndroidChatRepository.kt:194-220 | one incoming, unread RECEIVED row is appended, typed and labelled by the header type, under the stored name or "Bilinmeyen", with the local file as attachment; the address's unread count grows by one |
| ChatRepository.AndroidChatRepository.constructor | composeApp/src/androidMain/kotlin/com/vahitkeskin/bluenix/data/repository/AndroidChatRepository.kt:19-25 | no request has been made |
| ChatRepository.AndroidChatRepository.PrepareConnection | composeApp/src/androidMain/kotlin/com/vahitkeskin/bluenix/data/repository/AndroidChatRepository.kt:27-30 | one connect request, for the upper-cased address |
| ChatRepository.AndroidChatRepository.SendTypingSignal | composeApp/src/androidMain/kotlin/com/vahitkeskin/bluenix/data/repository/AndroidChatRepository.kt:98-103 | one request sending `SIG_TYP_START` or `SIG_TYP_STOP` to the upper-cased address |
| ChatRepository.AndroidChatRepository.SendMessage | composeApp/src/androidMain/kotlin/com/vahitkeskin/bluenix/data/repository/AndroidChatRepository.kt:46-72 | the table becomes `SendMessageRows` of the old one and one text request goes to the upper-cased address |
| ChatRepository.AndroidChatRepository.ReceiveMessage | composeApp/src/androidMain/kotlin/com/vahitkeskin/bluenix/data/repository/AndroidChatRepository.kt:74-92 | the table becomes `ReceiveMessageRows` of the old one |
| ChatRepository.AndroidChatRepository.MarkAsRead | composeApp/src/androidMain/kotlin/com/vahitkeskin/bluenix/data/repository/AndroidChatRepository.kt:94-96 | the table becomes `markAsRead` of the upper-cased address |
| ChatRepository.AndroidChatRepository.SendFile | composeApp/src/androidMain/kotlin/com/vahitkeskin/bluenix/data/repository/AndroidChatRepository.kt:105-144 | the table becomes `SendFileRows` with the transfer's verdict, and one file request goes out with the header type and `name\|size` metadata |
| ChatRepository.AndroidChatRepository.SendLocation | composeApp/src/androidMain/kotlin/com/vahitkeskin/bluenix/data/repository/AndroidChatRepository.kt:168-192 | the table becomes `SendLocationRows` and one text request with the pin and coordinates goes out |
| ChatRepository.AndroidChatRepository.ReceiveFile | composeApp/src/androidMain/kotlin/com/vahitkeskin/bluenix/data/repository/AndroidChatRepository.kt:194-220 | the table becomes `ReceiveFileRows` of the old one |
| ChatDao.CountUnreadZero | composeApp/src/androidMain/kotlin/com/vahitkeskin/bluenix/data/local/ChatDao.kt:45-46 | the unread count is zero exactly when no row is an unread incoming row of the address |
| ChatDao.CountUnreadAppend | composeApp/src/androidMain/kotlin/com/vahitkeskin/bluenix/data/local/ChatDao.kt:45-46 | the count of two parts of the table is the sum of their counts |
| ChatDao.GetMessages | composeApp/src/androidMain/kotlin/com/vahitkeskin/bluenix/data/local/ChatDao.kt:13-14 | exactly the rows of the address, each as often as stored, ordered by timestamp descending |
| ChatDao.Latest | composeApp/src/androidMain/kotlin/com/vahitkeskin/bluenix/data/local/ChatDao.kt:24-28 | the greatest timestamp of the address's rows, none exactly when it has no rows |
| ChatDao.GetLastConversations | composeApp/src/androidMain/kotlin/com/vahitkeskin/bluenix/data/local/ChatDao.kt:19-31 | the conversation rows are ordered by timestamp descending |
| ChatDao.LastConversationsSound | composeApp/src/androidMain/kotlin/com/vahitkeskin/bluenix/data/local/ChatDao.kt:19-31 | each conversation row is a stored message at least as new as every message of its address, with that address's number of unread incoming rows |
| ChatDao.LastConversationsCover | composeApp/src/androidMain/kotlin/com/vahitkeskin/bluenix/data/local/ChatDao.kt:24-28 | every address in the table has a conversation row |
| ChatDao.InsertSpec | composeApp/src/androidMain/kotlin/com/vahitkeskin/bluenix/data/local/ChatDao.kt:33-34 | the row is stored under the returned id (the next one for a new row); it is the only row with that id, every other row is kept, and the table stays well formed |
| ChatDao.UpdateStatus | composeApp/src/androidMain/kotlin/com/vahitkeskin/bluenix/data/local/ChatDao.kt:36-37 | only the rows with that id change, and only in their status |
| ChatDao.UpdateDeviceName | composeApp/src/androidMain/kotlin/com/vahitkeskin/bluenix/data/local/ChatDao.kt:39-40 | only the rows of that address change, and only in their name |
| ChatDao.MarkAsRead | composeApp/src/androidMain/kotlin/com/vahitkeskin/bluenix/data/local/ChatDao.kt:42-43 | only the unread rows of that address change, and only by becoming read |
| ChatDao.MarkAsReadCounts | composeApp/src/androidMain/kotlin/com/vahitkeskin/bluenix/data/local/ChatDao.kt:42-43 | afterwards the address has no unread row, other addresses' counts are unchanged, and the total falls by the address's former count |
| ChatDao.UpdatesKeepWellFormed | composeApp/src/androidMain/kotlin/com/vahitkeskin/bluenix/data/local/ChatDao.kt:36-43 | the three updates keep one row per id and every id below the next |
| ChatDao.MessagesTable.constructor | composeApp/src/androidMain/kotlin/com/vahitkeskin/bluenix/data/local/ChatDao.kt:11-47 | an empty, well-formed table whose first generated id is 1 |
| ChatDao.MessagesTable.Insert | composeApp/src/androidMain/kotlin/com/vahitkeskin/bluenix/data/local/ChatDao.kt:33-34 | the table, next id and returned id are those of `InsertRow` |
| ChatDao.MessagesTable.UpdateMessageStatus | composeApp/src/androidMain/kotlin/com/vahitkeskin/bluenix/data/local/ChatDao.kt:36-37 | the rows become `UpdateStatus` of the old rows |
| ChatDao.MessagesTable.SetDeviceName | composeApp/src/androidMain/kotlin/com/vahitkeskin/bluenix/data/local/ChatDao.kt:39-40 | the rows become `UpdateDeviceName` of the old rows |
| ChatDao.MessagesTable.SetRead | composeApp/src/androidMain/kotlin/com/vahitkeskin/bluenix/data/local/ChatDao.kt:42-43 | the rows become `MarkAsRead` of the old rows |
| Converters.StatusRoundTrip | composeApp/src/androidMain/kotlin/com/vahitkeskin/bluenix/data/local/Converters.kt:8-19 | reading back a stored status name gives the status |
| Converters.StatusNameInjective | composeApp/src/androidMain/kotlin/com/vahitkeskin/bluenix/data/local/Converters.kt:8-10 | distinct statuses are stored under distinct names |
| Converters.ToStatusFallback | composeApp/src/androidMain/kotlin/com/vahitkeskin/bluenix/data/local/Converters.kt:13-19 | any string that is not exactly a status name, a differently cased one included, reads as SENT; a name reads as its own status |
| Converters.MessageTypeRoundTrip | composeApp/src/androidMain/kotlin/com/vahitkeskin/bluenix/data/repository/AndroidChatRepository.kt:147-151 | a stored type name reads back as its type; anything else reads as TEXT |
| Text.SplitJoin | composeApp/src/commonMain/kotlin/com/vahitkeskin/bluenix/core/protocol/TransferModels.kt:40 | joining the parts of `split(d, limit)` with `d` gives back the string |
| Text.SplitInnerPartsClean | composeApp/src/commonMain/kotlin/com/vahitkeskin/bluenix/core/protocol/TransferModels.kt:40 | no part of a split but the last holds the delimiter |
| Text.SplitLastPartClean | composeApp/src/commonMain/kotlin/com/vahitkeskin/bluenix/core/protocol/TransferModels.kt:40 | the last part holds no delimiter either, unless the limit cut the split short |
| Text.SplitTwo | composeApp/src/androidMain/kotlin/com/vahitkeskin/bluenix/core/service/AndroidChatController.kt:193 | with limit 2 the split is at the first delimiter, or the whole string when there is none |
| Text.NatToDecimalValue | composeApp/src/commonMain/kotlin/com/vahitkeskin/bluenix/core/protocol/TransferModels.kt:35 | the printed digits of a number read back as the number |
| Text.ParseDecimal | composeApp/src/commonMain/kotlin/com/vahitkeskin/bluenix/core/protocol/TransferModels.kt:42 | `toIntOrNull` / `toLongOrNull` of a printed number in range gives the number |
| Text.ParseInRange | composeApp/src/androidMain/kotlin/com/vahitkeskin/bluenix/core/service/ReceiveManager.kt:42 | a parsed value is within the type's range |
| Text.UpperIdempotent | composeApp/src/androidMain/kotlin/com/vahitkeskin/bluenix/data/repository/AndroidChatRepository.kt:47 | upper-casing an upper-cased address changes nothing |
| Text.Utf16LengthAppend | composeApp/src/androidMain/kotlin/com/vahitkeskin/bluenix/core/service/AndroidChatController.kt:107-115 | the UTF-16 length of a concatenation is the sum of the lengths |
| Text.TakeLast | composeApp/src/androidMain/kotlin/com/vahitkeskin/bluenix/core/service/AndroidChatController.kt:189 | `takeLast(n)` is the last n characters, or the whole string when shorter |
| Utf8.DecodeEncode | composeApp/src/androidMain/kotlin/com/vahitkeskin/bluenix/core/service/ReceiveManager.kt:33 | decoding the UTF-8 bytes of a text gives back the text |
| Utf8.DecodeEncodeAppend | composeApp/src/androidMain/kotlin/com/vahitkeskin/bluenix/core/service/AndroidChatController.kt:92 | decoding the bytes of a text followed by more bytes gives the text followed by their decoding |
| Utf8.EncodeAppend | composeApp/src/androidMain/kotlin/com/vahitkeskin/bluenix/core/service/TransferManager.kt:22 | the bytes of a concatenation are the concatenated bytes |
| Utf8.AsciiPrefix | composeApp/src/androidMain/kotlin/com/vahitkeskin/bluenix/core/service/ReceiveManager.kt:33-34 | decoded text starts with an ASCII prefix exactly when the bytes start with its bytes |
| Sorting.SortDesc | composeApp/src/androidMain/kotlin/com/vahitkeskin/bluenix/core/service/AndroidBluetoothService.kt:172 | the result is ordered by non-increasing key and is a permutation of the input |
| Sorting.SortDistinct | composeApp/src/commonMain/kotlin/com/vahitkeskin/bluenix/ui/home/HomeViewModel.kt:106 | sorting keeps one element per key and the same set of keys |

## Left out

- Timing, delays and timeouts are not modelled: the 100 ms pause between chunks, the 1 s and 4 s waits, the 600/300 ms retry pauses and the connection timeout. The order of callbacks is a parameter instead.
- Coroutines, `Mutex` locking and concurrent callbacks are not modelled. Each operation runs to completion, and callbacks arrive as a sequence.
- The Android Bluetooth stack is represented by parameters:
  - the result of `connectGatt` and of the cache refresh;
  - the callbacks the stack delivers;
  - whether each write is accepted.
- The cache refresh done by reflection is modelled only as "a refresh happened on a retry". The MTU value requested and reported is not modelled.
- Scanning is left out: the `ScanCallback`, the `BroadcastReceiver` for classic discovery, `waitForDeviceDiscovery` and the flow's `awaitClose`. The model keeps the bonded-device seeding and `addDeviceToList`, called with each reading.
- Bonded devices all get the same `now` timestamp, because the clock is a parameter.
- The clock is a parameter of every operation that stamps a message.
- File I/O: a file is modelled as the sequence of bytes appended to it. Whether creating a file or writing a chunk succeeds is a parameter. Content URIs, the cache directory and file names on disk are not modelled.
- `dao.getDeviceName` is a parameter of `receiveFile`.
- `ConversationTuple.toDomain` and `getConversations` are not part of this model. The conversation rows themselves are modelled by `ChatDao.GetLastConversations`.
- Floating-point location values are given as the strings they print as. Number formatting is not modelled.
- Unicode case mapping is limited to ASCII in `uppercase` and in `equals(ignoreCase = true)`. Other characters are left unchanged.
- `toIntOrNull` / `toLongOrNull` accept an optional `+` or `-` and ASCII digits only. Kotlin also accepts non-ASCII digits, which this model does not.
- In malformed UTF-8, each bad lead byte decodes to one U+FFFD. The JVM's exact replacement rules for truncated sequences are not modelled.
- TransferManager.SendData: the transfer passes a `ByteArray` (header and chunks) to `sendRawDataSuspend(address: String, data: String)`, which does not type-check as written. The model sends those bytes raw and unframed, which is a modelling decision, not what the code does. Through a `String` conversion the header would be framed and not recognised; see Findings.
- The `MessageEntity` defaults are assumed as the code uses them: the message type "TEXT" and no attachment for text messages. The `MessageStatus` and `MessageType` enums are taken from their uses.
- ChatDao.InsertSpec: requires a non-negative id. Room's auto-generated ids are never negative.
- ChatRepository.AndroidChatRepository.SendFile: records the status by the corrected rule `SendFileStatus` (SENT only when `sendData` returns true), not as written (SENT whenever `sendData` returns); see Findings.
- ReceiveManager.Step: the stream `close()` in the chunk's `catch` block can itself throw, and the exception then escapes `processPacket`. The model assumes that close succeeds: the transfer is removed and `None` returned.
- BluetoothService.DeviceScan.constructor: without a usable adapter the `callbackFlow` block returns without `awaitClose`, so the flow fails with an `IllegalStateException` after emitting the empty list, which the collector catches. The model ends the flow after the empty list and does not model the failure.
- TransferManager.SendData: has no exception path. A failing write is modelled by a refused send. The repository takes the transfer's outcome as a parameter, a thrown exception included (`SendOutcome`).
- Sorting.SortDesc: the stability of Kotlin's `sortedByDescending` is not proved, only order and permutation.
- ReceiveManager.ParseMetaOfWritten: the `"unknown"` name fallback is unreachable, because `split` always gives at least one part. It is not given a lemma of its own.
- The Compose UI, navigation, permissions, notifications (beyond the decision to notify), the iOS side and the remaining files of the repository are outside this model.

## Findings

| source | as written | input that shows it | evidently intended | confidence | as-written member | corrected member |
|---|---|---|---|---|---|---|
| composeApp/src/androidMain/kotlin/com/vahitkeskin/bluenix/data/repository/AndroidChatRepository.kt:134-143 | the file message is recorded SENT whenever `sendData` returns, even when it returns false | a transfer whose header or a chunk is refused, so `sendData` returns false | SENT only when `sendData` returns true, FAILED otherwise, as `sendMessage` does | not executed | ChatRepository.SendFileStatusAsWritten (shown by ChatRepository.RefusedTransferRecordedAsSent) | ChatRepository.SendFileStatus (proved by ChatRepository.SendFileStatusAgrees; used by ChatRepository.AndroidChatRepository.SendFile) |
| composeApp/src/androidMain/kotlin/com/vahitkeskin/bluenix/core/service/TransferManager.kt:22 | the header and the chunks, `ByteArray`s, are passed to `sendRawDataSuspend`, whose data parameter is a `String`; through a `String` conversion the header is framed as `<adapter name>\|\|\|HEAD\|\|\|…` | an adapter named "Pixel" sending any file | the header and chunks are sent as raw bytes, unframed, so the receiver recognises the header | not executed | ChatRepository.FramedHeader (shown by ChatRepository.FramedHeaderNotRecognised) | TransferManager.SendData (proved by ChatRepository.RawHeaderOpensTransfer) |
