# Verification of the gateway's protocol parts

A Dafny model of the parts of the MQTT-SN gateway that carry state and protocol, with proofs about every run or every input. `dafny verify dfyconfig.toml` checks all of it.

- **ATT request engine** (`AttEngine`, `AttProtocol`, `AttQueues`, `AttTimeout`, `GAttribChannel`): the two command queues, the write watch and the timeout of `gattrib.c` as a transition system. A step is one uninterrupted stretch of C code; callbacks re-enter the API, so API steps may come between the two halves of a dispatch. `AttQueues` says which command each call is about. The class `GAttrib` has the fields of the C structure, and each of its methods is shown to take the corresponding step.
- **GATT procedures** (`AttPdu`, `Discovery`, `LongRead`, `LongWrite`): discovery, long read and long write of `gatt.c`, round by round, against a server built from the encoders of `att.c` with any batch sizes, and discovery against any server at all.
- **Persistent store** (`SlotFile`, `Registrations`, `Subscriptions`, `PublishQueue`, `GlobalSubscriptions`, `ClientStore`, `ClientSimulation`, `TransactionRefinement`, `ClientMeaning`, `PersistentStore`): the slot files, the cached entry and the transaction flags of `LinuxPersistent.cpp`. A file is a sequence of records; one that does not exist reads as empty, and opening for writing creates it without truncating (the SD library is not part of this model). `ClientStore` has each operation as a function on the whole state, the class `LinuxPersistent` runs the scans and is shown to compute these functions, `TransactionRefinement` shows them to be operations on a plain map of clients, and `ClientMeaning` to be operations on a map from client ids to what the files stand for: topics, subscriptions, will and publishes.
- **MQTT client** (`TopicMatcher`, `MqttClient`): topic matching, delivery to handlers and the table of incoming QoS 2 identifiers of `MQTTClient.h`, from the bytes in its receive buffer on.
- **MQTT packets** (`RemainingLength`, `MqttStrings`, `FixedHeader`, `PublishPacket`, `SubscribePacket`, `ConnectPacket`, `AckPacket`, `PacketReader`): the codec of `MQTTPacket/src` and the two packet readers. `Parsed` tells a packet the C code accepts from one it rejects, with its return code, and from one on which it would read, or point, past the memory it was given (`Overrun`).

A promise of the code or its documentation that does not hold in general is stated with its exact condition:

- The write watch is lost when a write fails while something is unwritten (`AttProtocol.WritableAwakeExactly`), and when a request is put before a head that was written, which can also put two requests on the air (`SendAwakeExactly`, `UndisciplinedExample`); callers that do so from callbacks only, as those in `gatt.c`, are safe (`CallersOfTheEngine`).
- Ids are 32 bits wide, and every 2^32 sends one is 0, which the callers take for a failure (`AttQueues.IdsAreDistinct`).
- `MQTTPacket_len` is one too large at 127, 16383, 2097150 and 2097151 (`RemainingLength.PacketLen`).
- `MQTTDeserialize_publish`, `MQTTDeserialize_subscribe` and `MQTTDeserialize_ack` keep the number of length bytes in their return code, so a malformed packet with a one-byte length field is reported with 1, documented as success (`RejectedAsSuccess` and `RejectedAsSuccessExample` of each packet).
- The client takes that code at its word. A PUBREL too short to name an identifier is answered, and whatever the variable held is freed; if that was a pending identifier, its message can be delivered again. At-most-once delivery holds exactly as long as no such identifier comes again (`MqttClient.AtMostOnceInEveryRun`, `DeliveredTwiceExample`).
- `MQTTPacket_checkVersion` compares no more of the protocol name than was sent and no more than the right name has, so every beginning of it passes, the empty one too, and every name that begins with it (`ConnectPacket.ReadExactly`, an if and only if, `WrongNamesAccepted`).
- The serializers predict the length by the C string and write the counted string unless it is empty, so a string with both forms set can take them past the buffer. They stay within the predicted size exactly when the bytes written exceed those predicted by no more than `Slack`, and the length field is true exactly when both agree (`WrittenSize` and `PastTheBufferExample` of each packet).
- A connect with a version other than 3 and 4 is written twelve bytes longer than predicted (`ConnectPacket.LengthIsExact`, `WrongVersionExample`); its last credential is read back only if it is not empty (`CredentialsReadBack`).
- The deserializers of publish and subscribe ignore the length of their buffer, and that of connect uses it for its strings only, so each can read past a buffer that holds a whole packet (`OverrunsExactly` and `OverrunExample` of each packet).
- The non-blocking reader does not complete packets without a body, nor those whose length field takes more than four calls of getfn (`PacketReader.Transport.Poll`).
- A final `#` does not match the parent level, and no wildcard matches an empty level (`TopicMatcher.LoopAgainstStandard`).
- QoS 2 identifier 0 is never delivered, and with a full table a QoS 2 message is acknowledged but not delivered (`MqttClient.Client.OnPublish`).
- A long read whose blob round fails still reports success; the value is whole exactly when every round that starts before its end succeeds (`LongRead.Read`, `SwallowedErrorExample`).
- A Find Information response of unknown format, or cut off before its format byte, is read past (`Discovery.OverrunsExactly`).
- With a peer that answers what it was not asked, more than one request can be outstanding (`AttProtocol.StepKeepsSequential`, an if and only if, `UnsolicitedExample`).
- In the store, an empty client id or an all-zero address selects an empty slot if there is one; a client added under an empty id, under an id that is there, or when all 65536 slots are taken breaks the registry or overwrites slot 0; deleting under another id than the current one leaves a client without files (`TransactionRefinement.StepFollows`, an if and only if).
- A subscription count at its 32-bit limit wraps to zero and leaves a slot that is dead for good (`GlobalSubscriptions.IncrementExactly`, `CountIsFold`, both if and only if).

## Model

| member | source | states |
|---|---|---|
| AttProtocol.StepKeepsInv | src/Implementation/Ble_old/bluez/bluez4/attrib/gattrib.c:253-615 | every step of the engine, disciplined about head insertion, keeps the queue shape, the timer exactly while the head is written, the ledger of commands and the callback rules, whatever the peer sends |
| AttProtocol.StepKeepsSequential | src/Implementation/Ble_old/bluez/bluez4/attrib/gattrib.c:283-437 | such a step keeps to one request at a time, the queue head, exactly when the peer conforms: a response answers what is on the air, if anything is |
| AttProtocol.RequestCancelled | src/Implementation/Ble_old/bluez/bluez4/attrib/gattrib.c:554-571 | cancelling one request keeps the queue in shape and what is on the air as it was |
| AttProtocol.CancelAtKeeps | src/Implementation/Ble_old/bluez/bluez4/attrib/gattrib.c:554-571 | a cancelled command is still queued or destroyed, once, and every other command is counted as before |
| AttProtocol.RunKeepsSequential | src/Implementation/Ble_old/bluez/bluez4/attrib/gattrib.c:283-437 | every run with a conforming peer keeps to one request at a time |
| AttProtocol.UnsolicitedExample | src/Implementation/Ble_old/bluez/bluez4/attrib/gattrib.c:397-416 | a concrete run in which a response nobody asked for makes the engine write a second request while the first is unanswered |
| AttProtocol.AnswersInEveryRun | src/Implementation/Ble_old/bluez/bluez4/attrib/gattrib.c:357-437 | in every run from the start, the answer to the outstanding request goes, with its own status, to the callback of that request, which was not called before |
| AttTimeout.TimeoutWithCallbacks | src/Implementation/Ble_old/bluez/bluez4/attrib/gattrib.c:253-281 | a timeout whose callbacks send and cancel: every callback after the first gets ABORTED; the requests queued when the timer fired are called back in queue order, just those with a callback that were not cancelled meanwhile; then the queue is empty and the engine stale |
| AttTimeout.StepDrains | src/Implementation/Ble_old/bluez/bluez4/attrib/gattrib.c:267-273 | a send, a cancellation or the next callback keeps that account |
| AttTimeout.DrainStarts | src/Implementation/Ble_old/bluez/bluez4/attrib/gattrib.c:258-265 | at the first callback, with TIMEOUT for the head, every other queued request with a callback is owed one |
| AttProtocol.SendKeepsShape | src/Implementation/Ble_old/bluez/bluez4/attrib/gattrib.c:481-530 | the queue shape survives a send exactly when nothing is put before a head request that was written |
| AttProtocol.OneRequestAtATime | src/Implementation/Ble_old/bluez/bluez4/attrib/gattrib.c:283-334 | in every run with a conforming peer at most one request of a live engine is outstanding, it is the queue head, and the timer runs exactly then |
| AttProtocol.AnswerReachesItsRequest | src/Implementation/Ble_old/bluez/bluez4/attrib/gattrib.c:357-437 | a response of a conforming peer is handed, with its own status, to the callback of exactly the request it answers |
| AttProtocol.UndisciplinedExample | src/Implementation/Ble_old/bluez/bluez4/attrib/gattrib.c:512-527 | a concrete run in which an insertion before a written request loses a wake-up and then puts two requests on the air |
| AttProtocol.SendAwakeExactly | src/Implementation/Ble_old/bluez/bluez4/attrib/gattrib.c:512-529 | a send leaves the watch armed for all that is unwritten exactly when it is disciplined, or the watch was armed, or the engine is ending |
| AttProtocol.WritableAwakeExactly | src/Implementation/Ble_old/bluez/bluez4/attrib/gattrib.c:283-342 | the dropped watch loses a wake-up exactly when the write fails while something is unwritten |
| AttProtocol.StepKeepsAwake | src/Implementation/Ble_old/bluez/bluez4/attrib/gattrib.c:283-615 | every other step keeps the watch armed, cancellation and the flags computed before a callback included |
| AttProtocol.NoLostWakeup | src/Implementation/Ble_old/bluez/bluez4/attrib/gattrib.c:283-355 | in every run without write errors, a queued response or an unwritten head request of a live engine has the write watch armed |
| AttProtocol.CancelLoopKeepsHead | src/Implementation/Ble_old/bluez/bluez4/attrib/gattrib.c:576-602 | cancelling a whole queue keeps only a written head, without its callback, and destroys the rest in order |
| AttProtocol.CommandsConserved | src/Implementation/Ble_old/bluez/bluez4/attrib/gattrib.c:156-163 | in every run each accepted command is in exactly one place, is destroyed at most once, is called back at most once and never after cancellation |
| AttProtocol.TimeoutDrains | src/Implementation/Ble_old/bluez/bluez4/attrib/gattrib.c:253-281 | a timeout whose callbacks leave the queue alone gives the head TIMEOUT and all later requests ABORTED in order, destroys them all and leaves the engine stale |
| AttProtocol.ExpireRestDrains | src/Implementation/Ble_old/bluez/bluez4/attrib/gattrib.c:263-278 | the same from any callback of such a timeout on |
| AttProtocol.StaleIsFinal | src/Implementation/Ble_old/bluez/bluez4/attrib/gattrib.c:253-289 | a stale engine accepts, writes and delivers nothing, in every continuation of the run |
| AttProtocol.StepKeepsSettled | src/Implementation/Ble_old/bluez/bluez4/attrib/gattrib.c:253-281 | the timer of a stale or expiring engine does not come back |
| AttProtocol.RunKeepsInv | src/Implementation/Ble_old/bluez/bluez4/attrib/gattrib.c:253-615 | every run of disciplined steps keeps queue shape, timer, ledger and callback rules, whatever the peer sends |
| AttProtocol.RunKeepsAwake | src/Implementation/Ble_old/bluez/bluez4/attrib/gattrib.c:283-529 | no wake-up is lost over whole runs |
| AttProtocol.CallersAreDisciplined | src/Implementation/Ble_old/bluez/bluez5/attrib/gatt.c:283-284 | every run in which requests are put before the head from callbacks only, as the procedures of gatt.c do that go on under the id of their first request, keeps the discipline |
| AttProtocol.CallbacksAreDisciplined | src/Implementation/Ble_old/bluez/bluez5/attrib/gatt.c:794-795 | while a callback runs no queued request is written, so anything may be put before the head |
| AttProtocol.CallersOfTheEngine | src/Implementation/Ble_old/bluez/bluez5/attrib/gatt.c:677-678 | in every run of such callers at most one request is outstanding if the peer conforms, and without write errors no wake-up is lost |
| AttQueues.WrittenInOrder | src/Implementation/Ble_old/bluez/bluez4/attrib/gattrib.c:283-334 | in every run responses are written in the order they were accepted, and so are requests if none is put to the front, cancellations and timeouts included; nothing is written twice |
| AttQueues.CancelTakes | src/Implementation/Ble_old/bluez/bluez4/attrib/gattrib.c:554-571 | a cancellation is about the first queued command with the id, in the requests, or in the responses if no request has it: that one is cancelled and leaves its queue, or stays as a written head without its callback; every command with another id stays, unchanged and in order; without such a command nothing happens |
| AttQueues.CancelAllTakes | src/Implementation/Ble_old/bluez/bluez4/attrib/gattrib.c:576-615 | cancelling everything leaves at most the written head request, without its callback, and destroys the rest |
| AttQueues.SendQueues | src/Implementation/Ble_old/bluez/bluez4/attrib/gattrib.c:481-530 | an accepted send queues one command, a response behind the others, a request behind the others or, with an id, before them; its id is the one given or the next of the counter, and it waits for the response the standard pairs with its opcode |
| AttQueues.IdsAreDistinct | src/Implementation/Ble_old/bluez/bluez4/attrib/gattrib.c:516-519 | in every run two ids given out fewer than 2^32 sends apart differ, and a send is answered 0, the code for failure, exactly every 2^32 sends |
| AttQueues.OpcodePairs | src/Implementation/Ble_old/bluez/bluez4/attrib/gattrib.c:79-145 | the twelve pairs of request and response, as literals, and what is a response |
| AttQueues.WritesNext | src/Implementation/Ble_old/bluez/bluez4/attrib/gattrib.c:303-334 | on a ready channel the first response is written, or else the head request unless it was already; what nothing answers is destroyed at once, a request stays with the timer running |
| AttQueues.WritesNothing | src/Implementation/Ble_old/bluez/bluez4/attrib/gattrib.c:294-322 | a failed write, a hang-up and a stale engine write nothing and change no queue |
| AttQueues.ResponseTakesHead | src/Implementation/Ble_old/bluez/bluez4/attrib/gattrib.c:391-437 | a response takes the head request, whose callback gets 0 for its own response, the error of an error response and 0x80 for any other; anything else changes nothing |
| AttQueues.ReadWatchExactly | src/Implementation/Ble_old/bluez/bluez4/attrib/gattrib.c:367-405 | the read watch ends exactly with a hang-up, a stale engine, or a response when no request is queued and no event registered |
| AttQueues.TimeoutCallsBack | src/Implementation/Ble_old/bluez/bluez4/attrib/gattrib.c:253-281 | the head request is called back with 0x81, every later one with 0x82, and then the engine is stale |
| GAttribChannel.GAttrib.Send | src/Implementation/Ble_old/bluez/bluez4/attrib/gattrib.c:481-530 | takes the send step, of which AttQueues.SendQueues says what it queues; answers the id, or 0 when stale |
| GAttribChannel.GAttrib.FindCustom | src/Implementation/Ble_old/bluez/bluez4/attrib/gattrib.c:532-552 | finds the first command with the id |
| GAttribChannel.GAttrib.Cancel | src/Implementation/Ble_old/bluez/bluez4/attrib/gattrib.c:540-574 | takes the cancel step, of which AttQueues.CancelTakes says what it takes out; true exactly when some queue has the id |
| GAttribChannel.GAttrib.CancelAllPerQueue | src/Implementation/Ble_old/bluez/bluez4/attrib/gattrib.c:576-602 | the loop over one queue keeps and destroys what the specification says |
| GAttribChannel.GAttrib.CancelAll | src/Implementation/Ble_old/bluez/bluez4/attrib/gattrib.c:604-615 | takes the cancel-all step |
| GAttribChannel.GAttrib.WakeUpSender | src/Implementation/Ble_old/bluez/bluez4/attrib/gattrib.c:344-355 | the write watch is armed afterwards |
| GAttribChannel.GAttrib.CanWriteData | src/Implementation/Ble_old/bluez/bluez4/attrib/gattrib.c:283-334 | takes the writable step of the engine; the watch stays exactly when it says so |
| GAttribChannel.GAttrib.ReceivedData | src/Implementation/Ble_old/bluez/bluez4/attrib/gattrib.c:357-431 | takes the receive step up to the result callback |
| GAttribChannel.GAttrib.ReceivedDataEnd | src/Implementation/Ble_old/bluez/bluez4/attrib/gattrib.c:431-436 | takes the step after the callback: the command is destroyed and the sender woken if the flags say so |
| GAttribChannel.GAttrib.DisconnectTimeout | src/Implementation/Ble_old/bluez/bluez4/attrib/gattrib.c:253-265 | takes the expiry step up to its first callback, or to the stale engine when no request is queued |
| GAttribChannel.GAttrib.QuietDisconnectTimeout | src/Implementation/Ble_old/bluez/bluez4/attrib/gattrib.c:253-281 | the whole function, when its callbacks leave the queue alone, ends in the drained and stale engine |
| GAttribChannel.GAttrib.NextTimeoutCallback | src/Implementation/Ble_old/bluez/bluez4/attrib/gattrib.c:269-280 | takes the step from one callback of the timeout to the next, or to the stale engine |
| TransactionRefinement.StepFollows | src/Implementation/LinuxPersistent.cpp:55-506 | forward simulation: a step on the slot files keeps the invariant and is the same step on a plain map of clients exactly when the caller keeps the rules on ids |
| TransactionRefinement.StartByIdFollows | src/Implementation/LinuxPersistent.cpp:55-121 | a start by id selects the client with that id or none, exactly unless the empty id meets an empty slot |
| TransactionRefinement.StartByAddressFollows | src/Implementation/LinuxPersistent.cpp:123-185 | a start by address selects a client with that address, or none if there is none, exactly unless it meets an empty slot first |
| TransactionRefinement.ApplyFollows | src/Implementation/LinuxPersistent.cpp:187-220 | applying ends the transaction and changes no client |
| TransactionRefinement.BeginFollows | src/Implementation/LinuxPersistent.cpp:30-36 | starting up on a card that is in use ends the transaction and keeps every client |
| TransactionRefinement.AddFollows | src/Implementation/LinuxPersistent.cpp:305-402 | adding inserts one client without files, active, with its address and duration, timeout 0 and waiting for a PINGREQ, exactly when the id is new and not empty and a slot number is left |
| TransactionRefinement.AddAgainstRules | src/Implementation/LinuxPersistent.cpp:333-394 | otherwise a slot without a client id is left that is not empty, or the id was there already, or the client in slot 0 is gone from the map and its files are the new client's |
| TransactionRefinement.DeleteFollows | src/Implementation/LinuxPersistent.cpp:229-303 | deleting removes exactly the current client, exactly when its own id is given |
| TransactionRefinement.DeleteOther | src/Implementation/LinuxPersistent.cpp:250-301 | deleting under another id takes all four files of a client whose slot stays as it was |
| TransactionRefinement.ResetFollows | src/Implementation/LinuxPersistent.cpp:404-458 | resetting gives the client its address and duration anew, active, timeout 0 and waiting for a PINGREQ, and keeps its files and all other clients |
| TransactionRefinement.InfoFollows | src/Implementation/LinuxPersistent.cpp:460-506 | each write-back of the cached entry sets that client's field to the value given and leaves its other five and all other clients |
| TransactionRefinement.WriteBack | src/Implementation/LinuxPersistent.cpp:474-479 | writing back by the parsed file number hits the client's own slot |
| TransactionRefinement.FilesFollow | src/Implementation/LinuxPersistent.cpp:564-653 | each change to a client's files changes that client only and keeps its files in order |
| TransactionRefinement.OnFilesKeepsInv | src/Implementation/LinuxPersistent.cpp:805-887 | every operation on a client's files keeps their invariants |
| TransactionRefinement.RunFollows | src/Implementation/LinuxPersistent.cpp:55-997 | every run of transactions in which the caller keeps the rules is a run on the plain map, and keeps the store in order |
| TransactionRefinement.EmptyStoreIsEmptyMap | src/Implementation/LinuxPersistent.h:120-137 | an empty card stands for the empty map |
| TransactionRefinement.NoStateLeaks | src/Implementation/LinuxPersistent.h:139-188 | in every store reached from an empty card, restarts included, a free slot has none of its four files, and a client added in it starts with none |
| ClientMeaning.RunMeans | src/Implementation/LinuxPersistent.cpp:55-1841 | every run of transactions in which the caller keeps the rules is a run on the map from client ids to topics, subscriptions, will and publish queue, and keeps the store in order |
| ClientMeaning.NextMeans | src/Implementation/LinuxPersistent.cpp:55-1841 | a step on the clients' slot files is that step on what they stand for |
| ClientMeaning.StepMeans | src/Implementation/LinuxPersistent.cpp:564-653 | an operation on the current client's files has its effect on that client's topics, subscriptions, will or queue, and on no other client |
| ClientMeaning.OnFilesMeans | src/Implementation/LinuxPersistent.cpp:805-887 | each operation on the slot files is that operation on the topic names in id order, the subscription map, the will and the publishes by id, with its error flag |
| ClientMeaning.RegisterMeans | src/Implementation/LinuxPersistent.cpp:831-880 | registering appends a new name to the topics and leaves a known one where it is |
| ClientMeaning.SubscribeMeans | src/Implementation/LinuxPersistent.cpp:1085-1120 | subscribing enters one pair of name and id in the map unless it is there |
| ClientMeaning.UnsubscribeMeans | src/Implementation/LinuxPersistent.cpp:1151-1178 | unsubscribing takes one pair with that id out of the map, and finds none exactly when there is none |
| ClientMeaning.AddMeans | src/Implementation/LinuxPersistent.cpp:1598-1657 | a publish is queued under one new id, with its payload, and nothing else changes |
| ClientMeaning.NewIdOf | src/Implementation/LinuxPersistent.cpp:1598-1657 | that id is the largest free one, or the next if none is free |
| ClientMeaning.SetMsgIdMeans | src/Implementation/LinuxPersistent.cpp:1724-1758 | the message id of the publish with that id changes and nothing else; an error exactly for an id that is free again |
| ClientMeaning.RemoveMeans | src/Implementation/LinuxPersistent.cpp:1808-1841 | the publish with that id leaves the queue, and nothing else; an error exactly for an id that is free again |
| ClientMeaning.SubscribedMeans | src/Implementation/LinuxPersistent.cpp:1350-1383 | a client has a live subscription exactly when its map of subscriptions is not empty |
| ClientMeaning.CountMeans | src/Implementation/LinuxPersistent.cpp:1350-1383 | the number of live subscriptions is the size of that map |
| TransactionRefinement.StepKeepsTopics | src/Implementation/LinuxPersistent.cpp:805-887 | no operation changes what a client's topic ids stand for while the client exists |
| TransactionRefinement.RunKeepsTopics | src/Implementation/LinuxPersistent.cpp:805-887 | the ids a client has been given keep their topics through any run in which the client stays |
| ClientSimulation.Rewritten | src/Implementation/LinuxPersistent.cpp:474-479 | rewriting an occupied slot changes that client's settings in the map and nothing else |
| ClientSimulation.FilesChanged | src/Implementation/LinuxPersistent.cpp:811-880 | changing the files of an occupied slot changes that client in the map and nothing else |
| ClientSimulation.Added | src/Implementation/LinuxPersistent.cpp:348-394 | writing a new client into the first free slot adds it to the map without files |
| ClientSimulation.Deleted | src/Implementation/LinuxPersistent.cpp:250-299 | emptying a slot and deleting its files removes that client from the map |
| ClientSimulation.SlotOf | src/Implementation/LinuxPersistent.h:153-160 | an occupied slot is found under its id, and its file number parses to its position |
| ClientSimulation.FreeSlotHasNoFiles | src/Implementation/LinuxPersistent.h:139-151 | a free slot has none of the four files |
| SlotFile.FileNumber | src/Implementation/LinuxPersistent.cpp:352 | parsing a printed slot number gives the slot back |
| SlotFile.FileNumberFits | src/Implementation/LinuxPersistent.h:57-67 | a printed number fits the nine-character field exactly when it has at most eight digits |
| SlotFile.PrintedExample | src/Implementation/LinuxPersistent.cpp:353-353 | slot 65535 is printed as 00065535 and parsed back |
| SlotFile.AtoiOfDecimal | src/Implementation/LinuxPersistent.h:153-160 | decimal digits parse to the number they print |
| SlotFile.Put | src/Implementation/LinuxPersistent.cpp:389-391 | writing at a slot changes that record only, or appends |
| PersistentStore.LinuxPersistent.StartClientTransaction | src/Implementation/LinuxPersistent.cpp:55-121 | the scan by id and the flags it sets |
| PersistentStore.LinuxPersistent.StartClientTransactionByAddress | src/Implementation/LinuxPersistent.cpp:123-185 | the scan by address and the flags it sets |
| PersistentStore.LinuxPersistent.ApplyTransaction | src/Implementation/LinuxPersistent.cpp:187-220 | clears the flags; 1 exactly for an active transaction |
| PersistentStore.LinuxPersistent.ClientExist | src/Implementation/LinuxPersistent.cpp:222-227 | true exactly in an active transaction |
| PersistentStore.LinuxPersistent.GetClientSubscriptionCount | src/Implementation/LinuxPersistent.cpp:1350-1383 | the number of live subscriptions of the current client |
| PersistentStore.LinuxPersistent.DeleteClient | src/Implementation/LinuxPersistent.cpp:229-303 | the four files go, then the slot with the id is emptied; refused while there are subscriptions |
| PersistentStore.LinuxPersistent.FindEmptyEntrySpaceInRegistry | src/Implementation/LinuxPersistent.h:164-188 | the first empty slot or the end, in a 16-bit counter that wraps at 65536 |
| PersistentStore.LinuxPersistent.AddClient | src/Implementation/LinuxPersistent.cpp:305-402 | the new entry in the first free slot, its files created and never truncated |
| PersistentStore.LinuxPersistent.ResetClient | src/Implementation/LinuxPersistent.cpp:404-458 | new settings in the slot of the id, files kept |
| PersistentStore.LinuxPersistent.SetClientAwaitMessage | src/Implementation/LinuxPersistent.cpp:460-480 | cached entry and slot get the awaited message |
| PersistentStore.LinuxPersistent.SetTimeout | src/Implementation/LinuxPersistent.cpp:492-506 | cached entry and slot get the timeout |
| PersistentStore.LinuxPersistent.SetClientState | src/Implementation/LinuxPersistent.cpp:940-956 | cached entry and slot get the status |
| PersistentStore.LinuxPersistent.SetClientAwaitMsgId | src/Implementation/LinuxPersistent.cpp:983-997 | cached entry and slot get the awaited message id |
| PersistentStore.LinuxPersistent.AddClientRegistration | src/Implementation/LinuxPersistent.cpp:805-887 | the current client's registrations after registering, and the id answered |
| PersistentStore.LinuxPersistent.GetTopicName | src/Implementation/LinuxPersistent.cpp:695-731 | the name registered under the id, if any |
| PersistentStore.LinuxPersistent.AddSubscription | src/Implementation/LinuxPersistent.cpp:1048-1130 | the current client's subscriptions after subscribing |
| PersistentStore.LinuxPersistent.DeleteSubscription | src/Implementation/LinuxPersistent.cpp:1132-1179 | the first subscription with the id goes; error if there is none |
| PersistentStore.LinuxPersistent.SetClientWillTopic | src/Implementation/LinuxPersistent.cpp:564-601 | topic, qos and retain of the will change, the message stays |
| PersistentStore.LinuxPersistent.SetClientWillMessage | src/Implementation/LinuxPersistent.cpp:603-634 | the message of the will changes, the rest stays |
| PersistentStore.LinuxPersistent.DeleteWill | src/Implementation/LinuxPersistent.cpp:636-653 | the will file is empty afterwards |
| PersistentStore.LinuxPersistent.HasClientWill | src/Implementation/LinuxPersistent.cpp:508-531 | true exactly for a will with a topic |
| PersistentStore.LinuxPersistent.AddClientPublish | src/Implementation/LinuxPersistent.cpp:1598-1657 | the publish is queued in the last free slot or at the end |
| PersistentStore.LinuxPersistent.GetNextPublish | src/Implementation/LinuxPersistent.cpp:1659-1722 | a queued publish, none exactly when the queue is empty |
| PersistentStore.LinuxPersistent.SetPublishMsgId | src/Implementation/LinuxPersistent.cpp:1724-1758 | the message id of the publish is set; error on a mismatch |
| PersistentStore.LinuxPersistent.RemovePublishByPublishId | src/Implementation/LinuxPersistent.cpp:1808-1842 | the publish goes; error on a mismatch |
| PersistentStore.LinuxPersistent.IncrementGlobalSubscriptionCount | src/Implementation/LinuxPersistent.cpp:1455-1543 | the count goes up unless an error is pending |
| PersistentStore.LinuxPersistent.DecrementGlobalSubscriptionCount | src/Implementation/LinuxPersistent.cpp:1385-1453 | the count goes down unless an error is pending |
| PersistentStore.LinuxPersistent.GetGlobalTopicSubscriptionCount | src/Implementation/LinuxPersistent.cpp:1545-1596 | the count, 0 while an error is pending |
| PersistentStore.LinuxPersistent.Begin | src/Implementation/LinuxPersistent.cpp:9-44 | the transaction flags are reset and the counts over all clients start anew; clients and error flag stay |
| PersistentStore.Ready | src/Implementation/LinuxPersistent.cpp:55-121 | what the methods ask of the cached entry and its files holds in every reachable store |
| Registrations.StableBijection | src/Implementation/LinuxPersistent.cpp:805-887 | over any run of registrations two names get the same id exactly when they are the same, every id answered keeps its meaning, and only names of the run are added |
| Registrations.RunKeepsAnswers | src/Implementation/LinuxPersistent.cpp:831-880 | ids and names correspond at the end of any run |
| Registrations.RegisteredAgain | src/Implementation/LinuxPersistent.cpp:842-860 | a name registered again is answered its old id and the file stays as it is |
| Registrations.RegisterKeepsInv | src/Implementation/LinuxPersistent.cpp:862-880 | slot i keeps holding topic id i + 1 and names stay distinct |
| Registrations.AddRegistration | src/Implementation/LinuxPersistent.cpp:831-880 | the scan with its counter computes the registration and keeps the invariant |
| Registrations.TopicName | src/Implementation/LinuxPersistent.cpp:714-730 | exactly the ids 1 to n have a name, namely the one in slot id - 1 |
| GlobalSubscriptions.CountIsFold | src/Implementation/LinuxPersistent.cpp:1385-1596 | after any history in which no count wraps, the count of a topic is the fold of plus one and floor-at-zero minus one over its own operations, with at most one live slot per topic; the file is in order exactly after such histories |
| GlobalSubscriptions.CountsAfterIncrement | src/Implementation/LinuxPersistent.cpp:1455-1543 | one more, in 32 bits, for that topic, the same for all others; the file stays in order exactly below the limit, and grows exactly when the topic is new and there is no hole |
| GlobalSubscriptions.CountsAfterDecrement | src/Implementation/LinuxPersistent.cpp:1385-1453 | one less, down to zero, for that topic, the same for all others; the file does not grow |
| GlobalSubscriptions.IncrementExactly | src/Implementation/LinuxPersistent.cpp:1455-1543 | an increment counts one more and leaves the file in order exactly when the count is below its 32-bit limit; at the limit it wraps and leaves a slot that is neither live nor a hole |
| GlobalSubscriptions.DeadForGood | src/Implementation/LinuxPersistent.cpp:1385-1543 | no later operation uses or frees such a slot |
| GlobalSubscriptions.IncrementCount | src/Implementation/LinuxPersistent.cpp:1477-1542 | the scan for the entry and the last hole computes the increment |
| GlobalSubscriptions.DecrementCount | src/Implementation/LinuxPersistent.cpp:1408-1452 | the scan computes the decrement; a count of one becomes a hole |
| GlobalSubscriptions.QueryCount | src/Implementation/LinuxPersistent.cpp:1567-1595 | the scan finds the count |
| PublishQueue.Conservation | src/Implementation/LinuxPersistent.cpp:1598-1842 | over any run the queue plus what was removed is what was there plus what was added, and live slot i has publish id i + 1 |
| PublishQueue.Drain | src/Implementation/LinuxPersistent.cpp:1659-1722 | taking the next publish and removing it ends and yields every stored publish exactly once |
| PublishQueue.AddConserves | src/Implementation/LinuxPersistent.cpp:1615-1656 | adding adds exactly one publish with its payload unchanged |
| PublishQueue.RemoveConserves | src/Implementation/LinuxPersistent.cpp:1820-1841 | removing takes out exactly the publish with that id, if there is one |
| PublishQueue.SetMsgIdConserves | src/Implementation/LinuxPersistent.cpp:1736-1757 | setting a message id changes that field of that publish only |
| PublishQueue.SeekAgreesWithScan | src/Implementation/LinuxPersistent.cpp:1736-1745 | the direct seek finds exactly what a scan for the publish id finds |
| PublishQueue.AddPublish | src/Implementation/LinuxPersistent.cpp:1615-1656 | the scan for the last free slot computes the addition |
| PublishQueue.NextPublish | src/Implementation/LinuxPersistent.cpp:1683-1721 | the last live publish; none exactly when the queue is empty |
| PublishQueue.HasPublishes | src/Implementation/LinuxPersistent.cpp:1285-1320 | true exactly when the queue is not empty |
| PublishQueue.RemovePublish | src/Implementation/LinuxPersistent.cpp:1820-1841 | the removal, with the error on a mismatch |
| PublishQueue.SetPublishMsgId | src/Implementation/LinuxPersistent.cpp:1736-1757 | the change, with the error on a mismatch |
| Subscriptions.SubscribeSets | src/Implementation/LinuxPersistent.cpp:1048-1130 | subscribing changes the answer for one topic and id only, and not if it is subscribed already |
| Subscriptions.UnsubscribeClears | src/Implementation/LinuxPersistent.cpp:1132-1179 | unsubscribing takes away one subscription with that topic id and nothing else |
| Subscriptions.AddSubscription | src/Implementation/LinuxPersistent.cpp:1085-1120 | the scan computes the subscription |
| Subscriptions.DeleteSubscription | src/Implementation/LinuxPersistent.cpp:1151-1178 | the scan computes the deletion; not found is an error |
| Subscriptions.SubscriptionCount | src/Implementation/LinuxPersistent.cpp:1368-1382 | the 16-bit count is the number of live slots |
| TopicMatcher.LoopAgainstStandard | src/Implementation/paho/pahomqttembeddedc/MQTTClient/src/MQTTClient.h:444-473 | the loop finds exactly those matches of section 4.7 in which every wildcard stands for something non-empty |
| TopicMatcher.LevelsOf | src/Implementation/paho/pahomqttembeddedc/MQTTClient/src/MQTTClient.h:446-472 | the levels are what stands between the slashes |
| TopicMatcher.OnNamesWithoutEmptyLevels | src/Implementation/paho/pahomqttembeddedc/MQTTClient/src/MQTTClient.h:444-473 | on names without empty levels it differs from section 4.7 only in that a final # does not match the parent level |
| TopicMatcher.IsTopicMatched | src/Implementation/paho/pahomqttembeddedc/MQTTClient/src/MQTTClient.h:444-473 | the pointer loop decides the level-by-level relation |
| TopicMatcher.PlusSkipsLevel | src/Implementation/paho/pahomqttembeddedc/MQTTClient/src/MQTTClient.h:456-462 | the inner loop of + skips exactly one level |
| TopicMatcher.DifferentCharacter | src/Implementation/paho/pahomqttembeddedc/MQTTClient/src/MQTTClient.h:452-455 | where the loop breaks there is no match |
| MqttClient.AtMostOnceInEveryRun | src/Implementation/paho/pahomqttembeddedc/MQTTClient/src/MQTTClient.h:529-640 | in every run, whatever bytes arrive and whichever answers get through, no QoS 2 identifier is delivered twice without a PUBREL that names it or a clean session in between, exactly unless one comes again that was freed, while pending, by a PUBREL too short to name any; without such a PUBREL answered it never happens |
| MqttClient.PublishReachesHandlers | src/Implementation/paho/pahomqttembeddedc/MQTTClient/src/MQTTClient.h:477-588 | a publish as it was written, with anything behind it in the receive buffer, reaches with every field unchanged exactly the attached handlers whose filter is its topic or matches it, in table order, or else the default handler, unless it is of QoS 2 and its identifier is 0, pending or finds no room; it is answered by a PUBACK or PUBREC with its identifier in any case |
| MqttClient.AckAnswered | src/Implementation/paho/pahomqttembeddedc/MQTTClient/src/MQTTClient.h:589-606 | a PUBREL is answered by a PUBCOMP and releases its identifier if that could be sent; a PUBREC is answered by a PUBREL, byte by byte |
| MqttClient.MisreadPublish | src/Implementation/paho/pahomqttembeddedc/MQTTClient/src/MQTTClient.h:550-568 | a whole publish whose topic does not fit into it is taken for a message on a topic never sent exactly when its length field is one byte |
| MqttClient.CleanForgets | src/Implementation/paho/pahomqttembeddedc/MQTTClient/src/MQTTClient.h:264-281 | a clean session forgets what is pending and every filter, and hands on nothing |
| MqttClient.CallsExactly | src/Implementation/paho/pahomqttembeddedc/MQTTClient/src/MQTTClient.h:477-505 | the handlers called for a topic are exactly those that want it, in table order |
| MqttClient.AtMostOnceExactly | src/Implementation/paho/pahomqttembeddedc/MQTTClient/src/MQTTClient.h:550-606 | what the table keeps up is that promise exactly as long as no forgotten identifier is delivered |
| MqttClient.ForgottenExactly | src/Implementation/paho/pahomqttembeddedc/MQTTClient/src/MQTTClient.h:589-606 | an identifier is forgotten exactly when a PUBREL that does not name it is answered while it is pending; being delivered, released or cleaned ends that |
| MqttClient.DeliveredTwiceExample | src/Implementation/paho/pahomqttembeddedc/MQTTClient/src/MQTTClient.h:550-606 | a message, a two-byte PUBREL and the message again: delivered twice, byte by byte |
| MqttClient.StrayExactly | src/Implementation/paho/pahomqttembeddedc/MQTTClient/src/MQTTClient.h:589-606 | the identifier of an acknowledgement is made up exactly when its body has less than two bytes and its length field one |
| MqttClient.Cycle | src/Implementation/paho/pahomqttembeddedc/MQTTClient/src/MQTTClient.h:529-640 | one turn of the cycle does to log, handlers and outside what the input means: messages handed on, packets answered, identifiers delivered, released or freed |
| MqttClient.Run | src/Implementation/paho/pahomqttembeddedc/MQTTClient/src/MQTTClient.h:529-640 | any number of turns have the history of what arrived, messages handed on and packets answered included, and the table is exactly the pending identifiers |
| MqttClient.DeliveryAllowedExactly | src/Implementation/paho/pahomqttembeddedc/MQTTClient/src/MQTTClient.h:559-565 | one more delivery keeps the guard up exactly when the identifier is not held |
| MqttClient.HeldMeansNotTaken | src/Implementation/paho/pahomqttembeddedc/MQTTClient/src/MQTTClient.h:293-331 | an identifier is held exactly when some delivery of it was followed by nothing that takes it, for the table and for the standard alike |
| MqttClient.TableCount | src/Implementation/paho/pahomqttembeddedc/MQTTClient/src/MQTTClient.h:305-317 | pending identifiers and free slots make up the table |
| MqttClient.Client.CleanSession | src/Implementation/paho/pahomqttembeddedc/MQTTClient/src/MQTTClient.h:264-281 | handlers and table are emptied |
| MqttClient.Client.IsQoS2MsgIdFree | src/Implementation/paho/pahomqttembeddedc/MQTTClient/src/MQTTClient.h:293-302 | true exactly when the identifier is not in the table |
| MqttClient.Client.UseQoS2MsgId | src/Implementation/paho/pahomqttembeddedc/MQTTClient/src/MQTTClient.h:305-317 | the identifier is entered exactly when there is room |
| MqttClient.Client.FreeQoS2MsgId | src/Implementation/paho/pahomqttembeddedc/MQTTClient/src/MQTTClient.h:320-331 | the identifier, and no other, leaves the table |
| MqttClient.Client.DeliverMessage | src/Implementation/paho/pahomqttembeddedc/MQTTClient/src/MQTTClient.h:477-505 | the message is handed to exactly the attached handlers whose filter fits its topic, in order, and to the default handler exactly when there is none |
| MqttClient.Client.OnPublish | src/Implementation/paho/pahomqttembeddedc/MQTTClient/src/MQTTClient.h:550-588 | the message and its topic are handed on, a QoS 2 one exactly when its identifier is non-zero, not pending and the table has room; the answer is sent in any case |
| MqttClient.Client.OnPublishPacket | src/Implementation/paho/pahomqttembeddedc/MQTTClient/src/MQTTClient.h:550-588 | the same from the bytes in readbuf: a publish rejected with a one-byte length field passes for a good one, with whatever identifier the variable held |
| MqttClient.Client.OnAckPacket | src/Implementation/paho/pahomqttembeddedc/MQTTClient/src/MQTTClient.h:589-606 | from the bytes in readbuf: an identifier is freed only after its PUBCOMP was sent, and a PUBREL too short to name one frees whatever the variable held |
| Discovery.DiscoverAllPrimary | src/Implementation/Ble_old/bluez/bluez5/attrib/gatt.c:291-373 | against a conforming server with any batch sizes the whole list of services comes back, in order and once each |
| Discovery.DiscoverPrimaryByUuid | src/Implementation/Ble_old/bluez/bluez5/attrib/gatt.c:236-289 | the same for the search by UUID |
| Discovery.DiscoverDescriptors | src/Implementation/Ble_old/bluez/bluez5/attrib/gatt.c:1023-1123 | the same for descriptors; an empty range ends in the server's error |
| Discovery.PrimaryAgainstAnyServer | src/Implementation/Ble_old/bluez/bluez5/attrib/gatt.c:236-373 | against any server, well-behaved or not, the start handle grows and the search ends within 65535 rounds; it reads past a PDU exactly at one without an opcode |
| Discovery.DescAgainstAnyServer | src/Implementation/Ble_old/bluez/bluez5/attrib/gatt.c:1023-1123 | against any server, responses of unknown format included, the descriptor search ends within the width of its range; its decoder reads past a PDU exactly at one cut off before its format byte |
| Discovery.OverrunsExactly | src/Implementation/Ble_old/bluez/bluez5/attrib/att.c:904-942 | a Find Information response is read past exactly when it is cut off before its format byte, or has elements of a format there is not |
| Discovery.DiscoverPrimary.PrimaryAllCb | src/Implementation/Ble_old/bluez/bluez5/attrib/gatt.c:291-373 | what is appended, and asked next or reported, for every status and every PDU; the start handle only grows |
| Discovery.DiscoverPrimary.AppendServices | src/Implementation/Ble_old/bluez/bluez5/attrib/gatt.c:324-349 | the loop appends the services of the response in order |
| Discovery.DiscoverPrimary.PrimaryByUuidCb | src/Implementation/Ble_old/bluez/bluez5/attrib/gatt.c:236-289 | what is appended, and asked next or reported, for every status and every PDU; the start handle only grows |
| Discovery.DiscoverDesc.DescDiscoveredCb | src/Implementation/Ble_old/bluez/bluez5/attrib/gatt.c:1023-1123 | what is appended, and asked next or reported, for every status and every PDU, whatever lies behind it in memory; the start handle only grows |
| Discovery.DiscoverDesc.AppendDescriptors | src/Implementation/Ble_old/bluez/bluez5/attrib/gatt.c:1053-1088 | the loop appends the descriptors of the response in order |
| Discovery.DecReadByGroup | src/Implementation/Ble_old/bluez/bluez5/attrib/att.c:230-272 | the decoder yields the elements, rejects the PDU, or reads past it when it is empty |
| Discovery.DecFindByType | src/Implementation/Ble_old/bluez/bluez5/attrib/att.c:357-389 | the decoder yields the ranges or rejects the PDU |
| Discovery.DecFindInfo | src/Implementation/Ble_old/bluez/bluez5/attrib/att.c:904-942 | the decoder yields the elements of the length it takes the format for, or reads past the PDU |
| Discovery.ElementLayout | src/Implementation/Ble_old/bluez/bluez5/attrib/att.c:203-228 | every byte of a service and of a descriptor in a response |
| Discovery.AcceptsExactly | src/Implementation/Ble_old/bluez/bluez5/attrib/att.c:230-942 | which responses the three decoders take |
| Discovery.EncodeResponse | src/Implementation/Ble_old/bluez/bluez5/attrib/att.c:203-228 | the encoder puts as many elements as fit behind its two bytes, or nothing |
| Discovery.EncodeRanges | src/Implementation/Ble_old/bluez/bluez5/attrib/att.c:335-355 | the encoder puts as many ranges as fit behind the opcode |
| Discovery.ResponseReadBack | src/Implementation/Ble_old/bluez/bluez5/attrib/att.c:203-272 | a decoder reads back just the elements that fitted |
| Discovery.ServiceReadBack | src/Implementation/Ble_old/bluez/bluez5/attrib/att.c:335-389 | a service written into a response is read back |
| Discovery.DescriptorReadBack | src/Implementation/Ble_old/bluez/bluez5/attrib/att.c:876-942 | a descriptor written into a response is read back |
| Discovery.AnswerReadByGroup | src/Implementation/Ble_old/bluez/bluez5/attrib/att.c:203-228 | a conforming answer decodes to the next services, at least one |
| Discovery.AnswerFindByType | src/Implementation/Ble_old/bluez/bluez5/attrib/att.c:335-355 | a conforming answer decodes to the next ranges, at least one |
| Discovery.AnswerFindInfo | src/Implementation/Ble_old/bluez/bluez5/attrib/att.c:876-902 | a conforming answer decodes to the next attributes, at least one |
| AttPdu.ChunksOfPacked | src/Implementation/Ble_old/bluez/bluez5/attrib/att.c:215-272 | cutting up what was packed gives back the elements that fitted |
| AttPdu.EncodeList | src/Implementation/Ble_old/bluez/bluez5/attrib/att.c:219-225 | the copy loop writes exactly the elements that fit |
| AttPdu.DecodeList | src/Implementation/Ble_old/bluez/bluez5/attrib/att.c:263-269 | the loop over num elements yields all of them in order |
| AttPdu.Division | src/Implementation/Ble_old/bluez/bluez5/attrib/att.c:252-257 | counting elements by subtraction is the division and remainder of the decoders |
| AttPdu.EncReadBlobReq | src/Implementation/Ble_old/bluez/bluez5/attrib/att.c:703-717 | the request decodes to its handle and offset |
| AttPdu.EncPrepWrite | src/Implementation/Ble_old/bluez/bluez5/attrib/att.c:1084-1160 | request and response decode to handle, offset and the part that fits |
| AttPdu.Layout | src/Implementation/Ble_old/bluez/bluez5/attrib/att.c:622-1207 | every byte of the read, blob, write, prepare-write and execute-write PDUs |
| LongRead.Read | src/Implementation/Ble_old/bluez/bluez5/attrib/gatt.c:762-877 | the final callback gets success and the bytes that arrived: the opcode byte and the whole value exactly when every blob round that starts before the end of the value succeeds |
| LongRead.AllArrives | src/Implementation/Ble_old/bluez/bluez5/attrib/gatt.c:762-807 | all bytes arrive exactly when no round before the end fails |
| LongRead.BlobRounds | src/Implementation/Ble_old/bluez/bluez5/attrib/gatt.c:762-807 | the rounds of the helper deliver the bytes up to the first failure, with success |
| LongRead.SwallowedErrorExample | src/Implementation/Ble_old/bluez/bluez5/attrib/gatt.c:770-775 | a failing blob round after which a thirty-byte value is reported with its first twenty-two bytes |
| LongRead.NextBlob | src/Implementation/Ble_old/bluez/bluez5/attrib/att.c:785-800 | a blob response continues the value, and is short only at its end |
| LongRead.ReadLong.ReadCharHelper | src/Implementation/Ble_old/bluez/bluez5/attrib/gatt.c:809-843 | a short or failed first response ends the read, a full one starts the blob rounds at its end |
| LongRead.ReadLong.ReadBlobHelper | src/Implementation/Ble_old/bluez/bluez5/attrib/gatt.c:762-807 | each blob is appended and the next offset asked for, until a short one |
| LongWrite.Write | src/Implementation/Ble_old/bluez/bluez5/attrib/gatt.c:950-985 | the prepared fragments follow each other without gap or overlap and make up the value, and one execute-write follows the last |
| LongWrite.WriteFragments | src/Implementation/Ble_old/bluez/bluez5/attrib/gatt.c:904-948 | the same for the rounds of prepare-write |
| LongWrite.Round | src/Implementation/Ble_old/bluez/bluez5/attrib/gatt.c:904-948 | one prepare-write and its echo advance the offset by the part written |
| LongWrite.RequestDecodes | src/Implementation/Ble_old/bluez/bluez5/attrib/att.c:1084-1107 | the request decodes to its handle, its offset and a beginning of the rest of the value, empty only at the end or with no room |
| LongWrite.WriteLong.PrepareWriteCb | src/Implementation/Ble_old/bluez/bluez5/attrib/gatt.c:906-929 | for every response: the offset advances by its length, in 16 bits; executed exactly at the end of the value, which therefore has at most 65535 bytes; past the end exactly when a response took the offset there |
| RemainingLength.DecodeInvertsEncode | src/Implementation/paho/pahomqttembeddedc/MQTTPacket/src/MQTTPacket.c:29-81 | decoding inverts encoding on exactly the lengths 0 to 268435455, whatever follows the field |
| RemainingLength.EncodingIsMinimal | src/Implementation/paho/pahomqttembeddedc/MQTTPacket/src/MQTTPacket.c:29-81 | no well-formed field for a number is shorter than its encoding |
| RemainingLength.EncodingInjective | src/Implementation/paho/pahomqttembeddedc/MQTTPacket/src/MQTTPacket.c:29-45 | different numbers have different encodings |
| RemainingLength.DecodingReadsOnlyTheField | src/Implementation/paho/pahomqttembeddedc/MQTTPacket/src/MQTTPacket.c:54-81 | a well-formed field is read to its end and no further |
| RemainingLength.SizeClasses | src/Implementation/paho/pahomqttembeddedc/MQTTPacket/src/MQTTPacket.c:29-45 | the four length classes of section 2.2.3 |
| RemainingLength.TableOfSizes | src/Implementation/paho/pahomqttembeddedc/MQTTPacket/src/MQTTPacket.c:29-45 | the bytes of table 2.4 of the standard and of its example |
| RemainingLength.FifthByteRefused | src/Implementation/paho/pahomqttembeddedc/MQTTPacket/src/MQTTPacket.c:54-81 | a fifth length byte is refused after four were added up |
| RemainingLength.PacketLen | src/Implementation/paho/pahomqttembeddedc/MQTTPacket/src/MQTTPacket.c:84-98 | the prediction bounds the packet size from above exactly up to the MQTT limit, with slack one at exactly four lengths |
| RemainingLength.Encode | src/Implementation/paho/pahomqttembeddedc/MQTTPacket/src/MQTTPacket.c:29-45 | the loop writes exactly the encoding |
| RemainingLength.Decode | src/Implementation/paho/pahomqttembeddedc/MQTTPacket/src/MQTTPacket.c:54-81 | the loop computes value and number of reads |
| MqttStrings.ReadInvertsWrite | src/Implementation/paho/pahomqttembeddedc/MQTTPacket/src/MQTTPacket.c:194-233 | a string is read back exactly when its length fits sixteen bits |
| MqttStrings.ReadIntInvertsWrite | src/Implementation/paho/pahomqttembeddedc/MQTTPacket/src/MQTTPacket.c:125-170 | an integer is read back exactly when it fits sixteen bits |
| MqttStrings.WriteMqttString | src/Implementation/paho/pahomqttembeddedc/MQTTPacket/src/MQTTPacket.c:194-206 | the length and bytes of the form in use are written and nothing else is touched |
| MqttStrings.WriteInt | src/Implementation/paho/pahomqttembeddedc/MQTTPacket/src/MQTTPacket.c:164-170 | two bytes, high first |
| FixedHeader.HeaderByte | src/Implementation/paho/pahomqttembeddedc/MQTTPacket/src/MQTTSerializePublish.c:66-71 | each field of the header byte is read back exactly when it fits its bits |
| FixedHeader.HeaderBits | src/Implementation/paho/pahomqttembeddedc/MQTTPacket/src/MQTTSerializePublish.c:66-71 | the bits of the header byte: type, dup, quality of service, retain |
| FixedHeader.TrueLength | src/Implementation/paho/pahomqttembeddedc/MQTTPacket/src/MQTTSerializePublish.c:66-74 | a packet with some number in its length field has its true length in it exactly when the number is the size of the body |
| FixedHeader.ReadLengthOfPacket | src/Implementation/paho/pahomqttembeddedc/MQTTPacket/src/MQTTPacket.c:54-118 | the length field of a written packet is read back |
| FixedHeader.WriteFixedHeader | src/Implementation/paho/pahomqttembeddedc/MQTTPacket/src/MQTTSerializePublish.c:66-74 | header byte and length field are written and nothing else is touched |
| PublishPacket.RoundTrip | src/Implementation/paho/pahomqttembeddedc/MQTTPacket/src/MQTTDeserializePublish.c:36-69 | a publish is read back with every field unchanged exactly when the fields fit their bits, whatever follows it |
| PublishPacket.Layout | src/Implementation/paho/pahomqttembeddedc/MQTTPacket/src/MQTTSerializePublish.c:55-91 | every byte of a publish: 0x30 with its flags, length, topic with its size, identifier, payload |
| PublishPacket.RejectedExactly | src/Implementation/paho/pahomqttembeddedc/MQTTPacket/src/MQTTDeserializePublish.c:36-66 | a whole publish is rejected exactly for its type or a topic that does not fit, with code 0 or the number of length bytes |
| PublishPacket.RejectedAsSuccess | src/Implementation/paho/pahomqttembeddedc/MQTTPacket/src/MQTTDeserializePublish.c:44-66 | a publish rejected for its topic is reported with the code for success exactly when its length field has one byte |
| PublishPacket.RejectedAsSuccessExample | src/Implementation/paho/pahomqttembeddedc/MQTTPacket/src/MQTTDeserializePublish.c:44-66 | a two-byte packet on which that happens |
| PublishPacket.Serialize | src/Implementation/paho/pahomqttembeddedc/MQTTPacket/src/MQTTSerializePublish.c:55-91 | either the buffer is too short and untouched, or the packet is written under the predicted length and its size returned; with one string form in use and a length MQTT allows it stays within the buffer |
| PublishPacket.WrittenSize | src/Implementation/paho/pahomqttembeddedc/MQTTPacket/src/MQTTSerializePublish.c:31-91 | the size written, for every publish; it stays within the predicted one exactly when the bytes written for the topic exceed its C length by no more than the slack of the prediction, and the length field is true exactly when both agree |
| PublishPacket.PastTheBufferExample | src/Implementation/paho/pahomqttembeddedc/MQTTPacket/src/MQTTSerializePublish.c:31-91 | a topic with both forms set that passes the test for eight bytes and takes eleven |
| PublishPacket.OverrunsExactly | src/Implementation/paho/pahomqttembeddedc/MQTTPacket/src/MQTTDeserializePublish.c:36-69 | on a buffer of exactly one packet the reader goes past the end exactly when the topic leaves no room for a packet identifier that is due |
| PublishPacket.OverrunExample | src/Implementation/paho/pahomqttembeddedc/MQTTPacket/src/MQTTDeserializePublish.c:36-69 | a whole packet of four bytes that is read past |
| PublishPacket.Deserialize | src/Implementation/paho/pahomqttembeddedc/MQTTPacket/src/MQTTDeserializePublish.c:36-69 | the moving pointer computes the fields, the rejection, or would leave the buffer |
| SubscribePacket.RoundTrip | src/Implementation/paho/pahomqttembeddedc/MQTTPacket/src/MQTTSubscribeServer.c:35-70 | a subscribe with any number of filters is read back unchanged exactly when its fields fit, whatever follows it |
| SubscribePacket.Layout | src/Implementation/paho/pahomqttembeddedc/MQTTPacket/src/MQTTSubscribeClient.c:50-86 | every byte of a subscribe: 0x82 with dup, length, identifier, filters |
| SubscribePacket.EntriesLayout | src/Implementation/paho/pahomqttembeddedc/MQTTPacket/src/MQTTSubscribeClient.c:75-79 | each filter is its name with its size and the quality of service asked for, in order |
| SubscribePacket.RejectionCode | src/Implementation/paho/pahomqttembeddedc/MQTTPacket/src/MQTTSubscribeServer.c:40-69 | a rejected subscribe is reported with -1 for its type and otherwise with the number of length bytes |
| SubscribePacket.EntriesReadBack | src/Implementation/paho/pahomqttembeddedc/MQTTPacket/src/MQTTSubscribeServer.c:58-66 | the filters are read back exactly when each fits |
| SubscribePacket.RejectedAsSuccess | src/Implementation/paho/pahomqttembeddedc/MQTTPacket/src/MQTTSubscribeServer.c:45-69 | a subscribe cut off inside its filters is reported with the code for success exactly when its length field has one byte |
| SubscribePacket.RejectedAsSuccessExample | src/Implementation/paho/pahomqttembeddedc/MQTTPacket/src/MQTTSubscribeServer.c:45-69 | a five-byte packet on which that happens |
| SubscribePacket.SubscribeLength | src/Implementation/paho/pahomqttembeddedc/MQTTPacket/src/MQTTSubscribeClient.c:28-36 | the loop predicts the length that is written |
| SubscribePacket.Serialize | src/Implementation/paho/pahomqttembeddedc/MQTTPacket/src/MQTTSubscribeClient.c:50-86 | either the buffer is too short and untouched, or the packet is written under the predicted length and its size returned; with one string form in use and a length MQTT allows it stays within the buffer |
| SubscribePacket.WrittenSize | src/Implementation/paho/pahomqttembeddedc/MQTTPacket/src/MQTTSubscribeClient.c:28-86 | the size written, for every subscribe; it stays within the predicted one exactly when the filters written exceed their C lengths by no more than the slack of the prediction, and the length field is true exactly when both agree |
| SubscribePacket.PastTheBufferExample | src/Implementation/paho/pahomqttembeddedc/MQTTPacket/src/MQTTSubscribeClient.c:28-86 | a filter with both forms set that passes the test for eight bytes and takes thirteen |
| SubscribePacket.OverrunsExactly | src/Implementation/paho/pahomqttembeddedc/MQTTPacket/src/MQTTSubscribeServer.c:35-70 | on a buffer of exactly one packet the reader goes past the end exactly when there is no room for the packet identifier |
| SubscribePacket.OverrunExample | src/Implementation/paho/pahomqttembeddedc/MQTTPacket/src/MQTTSubscribeServer.c:35-70 | a whole packet of three bytes that is read past |
| SubscribePacket.WriteEntries | src/Implementation/paho/pahomqttembeddedc/MQTTPacket/src/MQTTSubscribeClient.c:75-79 | the loop writes the filters one behind the other |
| SubscribePacket.Deserialize | src/Implementation/paho/pahomqttembeddedc/MQTTPacket/src/MQTTSubscribeServer.c:35-70 | the loop over memory yields what the packet grammar says, error codes and reads past the end included |
| SubscribePacket.ReadEntries | src/Implementation/paho/pahomqttembeddedc/MQTTPacket/src/MQTTSubscribeServer.c:58-66 | the loop collects the filters in order |
| ConnectPacket.RoundTrip | src/Implementation/paho/pahomqttembeddedc/MQTTPacket/src/MQTTConnectServer.c:51-108 | a connect is read back with every field unchanged exactly when its options, will and credentials are legal |
| ConnectPacket.HeaderLayout | src/Implementation/paho/pahomqttembeddedc/MQTTPacket/src/MQTTConnectClient.c:70-99 | a connect starts with 0x10, its length, MQIsdp and level 3 or MQTT and level 4, flags and keep-alive, byte by byte |
| ConnectPacket.PayloadLayout | src/Implementation/paho/pahomqttembeddedc/MQTTPacket/src/MQTTConnectClient.c:100-110 | then come client id, will topic and message, user name and password, in this order and just when they are there |
| ConnectPacket.FieldLayout | src/Implementation/paho/pahomqttembeddedc/MQTTPacket/src/MQTTPacket.c:194-206 | each with its size before it |
| ConnectPacket.FlagBits | src/Implementation/paho/pahomqttembeddedc/MQTTPacket/src/MQTTConnectClient.c:82-96 | the bits of the connect flags |
| ConnectPacket.RejectionCode | src/Implementation/paho/pahomqttembeddedc/MQTTPacket/src/MQTTConnectServer.c:51-108 | a connect is rejected with 0, whatever is wrong with it |
| ConnectPacket.CredentialsReadBack | src/Implementation/paho/pahomqttembeddedc/MQTTPacket/src/MQTTConnectServer.c:90-104 | user name and password are read back exactly when a password comes with a user name and the last one is not empty |
| ConnectPacket.WillReadBack | src/Implementation/paho/pahomqttembeddedc/MQTTPacket/src/MQTTConnectServer.c:79-88 | the will is read back exactly when its options fit their bits |
| ConnectPacket.HeaderReadBack | src/Implementation/paho/pahomqttembeddedc/MQTTPacket/src/MQTTConnectServer.c:62-78 | name, level, flags, keep-alive and client id are read back |
| ConnectPacket.LengthIsExact | src/Implementation/paho/pahomqttembeddedc/MQTTPacket/src/MQTTConnectClient.c:27-48 | the predicted length is short of the written one by the excess: twelve bytes for any version but 3 and 4, and what the strings written exceed their C lengths by |
| ConnectPacket.FlagsByte | src/Implementation/paho/pahomqttembeddedc/MQTTPacket/src/MQTTConnectClient.c:82-96 | each option is read back from the flags byte |
| ConnectPacket.Serialize | src/Implementation/paho/pahomqttembeddedc/MQTTPacket/src/MQTTConnectClient.c:58-121 | either the buffer is too short and untouched, or the packet is written under the predicted length and its size returned; for versions 3 and 4, with one string form in use and a length MQTT allows, it stays within the buffer |
| ConnectPacket.WrittenSize | src/Implementation/paho/pahomqttembeddedc/MQTTPacket/src/MQTTConnectClient.c:27-121 | the size written, for every connect; it stays within the predicted one exactly when the excess is no more than the slack of the prediction, and the length field is true exactly when there is no excess |
| ConnectPacket.PastTheBufferExample | src/Implementation/paho/pahomqttembeddedc/MQTTPacket/src/MQTTConnectClient.c:27-121 | a client id with both forms set that passes the test for fifteen bytes and takes twenty |
| ConnectPacket.WrongVersionExample | src/Implementation/paho/pahomqttembeddedc/MQTTPacket/src/MQTTConnectClient.c:27-121 | a connect of version 5 that passes the test for five bytes and takes sixteen |
| ConnectPacket.OverrunsExactly | src/Implementation/paho/pahomqttembeddedc/MQTTPacket/src/MQTTConnectServer.c:51-108 | on a buffer of exactly one packet the reader goes past the end exactly when the packet ends after its protocol name, or an accepted version is followed by less than flags and keep-alive |
| ConnectPacket.OverrunExample | src/Implementation/paho/pahomqttembeddedc/MQTTPacket/src/MQTTConnectServer.c:51-108 | a whole packet of four bytes that is read past |
| ConnectPacket.ReadExactly | src/Implementation/paho/pahomqttembeddedc/MQTTPacket/src/MQTTConnectServer.c:30-108 | a connect with any protocol name and level in it is read unchanged exactly when it is legal, the level is 3 or 4, and the name is a beginning of the right one or begins with it |
| ConnectPacket.WrongNamesAccepted | src/Implementation/paho/pahomqttembeddedc/MQTTPacket/src/MQTTConnectServer.c:30-41 | every legal connect is accepted with an empty protocol name, and with the right one and more behind it |
| ConnectPacket.WrongNamesAcceptedExample | src/Implementation/paho/pahomqttembeddedc/MQTTPacket/src/MQTTConnectServer.c:30-41 | two such packets byte by byte |
| ConnectPacket.WriteVariableHeader | src/Implementation/paho/pahomqttembeddedc/MQTTPacket/src/MQTTConnectClient.c:70-99 | name, level, flags and keep-alive are written |
| ConnectPacket.WriteWill | src/Implementation/paho/pahomqttembeddedc/MQTTPacket/src/MQTTConnectClient.c:101-105 | will topic and message are written if there is a will |
| ConnectPacket.WriteCredentials | src/Implementation/paho/pahomqttembeddedc/MQTTPacket/src/MQTTConnectClient.c:107-110 | user name and password are written if present |
| ConnectPacket.Deserialize | src/Implementation/paho/pahomqttembeddedc/MQTTPacket/src/MQTTConnectServer.c:51-108 | the moving pointer yields what the packet grammar says, rejections and reads past the end included |
| AckPacket.RoundTrip | src/Implementation/paho/pahomqttembeddedc/MQTTPacket/src/MQTTDeserializePublish.c:82-106 | an acknowledgement is read back exactly when the dup flag fits its bit |
| AckPacket.FirstBytes | src/Implementation/paho/pahomqttembeddedc/MQTTPacket/src/MQTTSerializePublish.c:104-127 | every byte of PUBACK, PUBREC, PUBREL and PUBCOMP: 0x40, 0x50, 0x62, 0x70, 2, identifier |
| AckPacket.RejectedAsSuccess | src/Implementation/paho/pahomqttembeddedc/MQTTPacket/src/MQTTDeserializePublish.c:82-106 | an acknowledgement too short for its identifier is reported with the code for success exactly when its length field has one byte |
| AckPacket.RejectedAsSuccessExample | src/Implementation/paho/pahomqttembeddedc/MQTTPacket/src/MQTTDeserializePublish.c:82-106 | a PUBREL of two bytes on which that happens |
| AckPacket.NeverOverruns | src/Implementation/paho/pahomqttembeddedc/MQTTPacket/src/MQTTDeserializePublish.c:82-106 | in a buffer of eight bytes nothing is read past |
| AckPacket.Serialize | src/Implementation/paho/pahomqttembeddedc/MQTTPacket/src/MQTTSerializePublish.c:104-127 | four bytes, or the buffer is too short and untouched |
| PacketReader.Read | src/Implementation/paho/pahomqttembeddedc/MQTTPacket/src/MQTTPacket.c:290-316 | the blocking reader returns the type and leaves header, shortest length field and body in the buffer exactly when that fits, and writes header and length field in any case |
| PacketReader.PacketIsFramed | src/Implementation/paho/pahomqttembeddedc/MQTTPacket/src/MQTTPacket.c:290-316 | a packet as the serializers write it stands first in a stream whatever follows, and a reader leaves just that packet in its buffer, exactly if it fits |
| PacketReader.Transport.Poll | src/Implementation/paho/pahomqttembeddedc/MQTTPacket/src/MQTTPacket.c:361-409 | repeated non-blocking reads end with the same type and contents as the blocking one, in state 0 at the next packet, exactly when the packet fits, has a body and its length field takes at most four getfn calls |
| PacketReader.PollStream | src/Implementation/paho/pahomqttembeddedc/MQTTPacket/src/MQTTPacket.c:361-409 | over a whole stream the packets that complete are those of the blocking reader in order; polling fails exactly when the schedule is a call late for some length field, and reads the whole stream exactly when the schedule completes every packet, as it does if it delivers enough and no field is late |
| PacketReader.Transport.ReadNb | src/Implementation/paho/pahomqttembeddedc/MQTTPacket/src/MQTTPacket.c:361-409 | one call returns 0 and keeps its place, or completes the packet, or fails only for want of room or attempts |
| PacketReader.Transport.DecodeNb | src/Implementation/paho/pahomqttembeddedc/MQTTPacket/src/MQTTPacket.c:324-351 | the resumable decoder keeps its place, finishes the field, or has used up its attempts |
| PacketReader.Transport.DecodeByte | src/Implementation/paho/pahomqttembeddedc/MQTTPacket/src/MQTTPacket.c:331-350 | one attempt reads a byte of the field, reads none, or is one too many; the place in the field and the attempts left stay exact |
| PacketReader.Transport.ReadHeader | src/Implementation/paho/pahomqttembeddedc/MQTTPacket/src/MQTTPacket.c:369-376 | state 0 reads the header byte or waits |
| PacketReader.Transport.ReadField | src/Implementation/paho/pahomqttembeddedc/MQTTPacket/src/MQTTPacket.c:378-393 | state 1 finishes the field and puts it back in its shortest form, or waits |
| PacketReader.Transport.ReadBody | src/Implementation/paho/pahomqttembeddedc/MQTTPacket/src/MQTTPacket.c:395-404 | state 2 appends what comes until the body is complete |
| PacketReader.DecoderStep | src/Implementation/paho/pahomqttembeddedc/MQTTPacket/src/MQTTPacket.c:331-350 | what a byte, or none, means for the number being read and for the attempts left |
| PacketReader.BodyAdvances | src/Implementation/paho/pahomqttembeddedc/MQTTPacket/src/MQTTPacket.c:395-404 | the bytes taken are the next bytes of the packet |

## Left out

- The error return of getfn (-1) in `MQTTPacket_readnb` and short reads in `MQTTPacket_read`: the source delivers, or says "call again".
- C strings are sequences without a terminator, and a returned pointer is the slice it points to; a 255-byte field is modelled as its content.
- `g_attrib_unref` and `attrib_destroy`, the destroy notifications re-entering the engine during a cancellation, the event list while it is walked, MTU changes, and failures of memory allocation.
- The PDU of a command is not carried through the queues: the token of a command stands for the call of `g_attrib_send` that made it. Of the discovery requests the model has the start handle, not the bytes.
- UUIDs are kept as the bytes they come in and not turned into strings, and the UUID filter of descriptor discovery and the whole of characteristic discovery are not modelled.
- DiscoverDescriptors: the list is the one of a range given by its first and last handle, without a UUID to look for.
- The discovery callbacks take for granted that the next request can be encoded and queued, and that there is memory to be read behind a response.
- LongRead.Read: the value has fewer than 65535 bytes, so that the 16-bit size does not wrap; attribute values have at most 512.
- LongWrite.Write: needs an MTU above 5; with 5 every fragment is empty and the procedure does not end.
- ConnectPacket.RoundTrip: for versions 3 and 4 and strings of at most 65535 bytes; the reader does not store the version.
- SubscribePacket.Deserialize: the caller's result arrays have room for every filter.
- PublishPacket.Serialize: there is memory behind the buffer for what it writes past it.
- SubscribePacket.Serialize: there is memory behind the buffer for what it writes past it.
- ConnectPacket.Serialize: there is memory behind the buffer for what it writes past it.
- PacketReader.Read: there is memory for header byte and length field, which the source writes before its size test; `PacketReader.Transport.Poll` and `PacketReader.PollStream` take buffers that have room for them.
- MqttClient.Cycle: takes the receive buffer to have at least eight bytes (it has 100 unless set otherwise), and a publish that is read past its end for one with arbitrary identifier and topic; also `MqttClient.Run`, `MqttClient.AtMostOnceInEveryRun`, `MqttClient.PublishReachesHandlers`, `MqttClient.MisreadPublish` and `MqttClient.StrayExactly`.
- AckPacket.NeverOverruns: for such a buffer.
- Outgoing QoS 1 and 2, keep-alive and the network side of the client's cycle; the subscribe and unsubscribe calls that fill the handler table, which is taken as it is.
- TopicMatcher.IsTopicMatched: for filters whose wildcards take up whole levels; the rule for names starting with $ is not in the code.
- `remove_publish_by_msg_id`, which seeks and writes with the size of a number instead of that of a record, and the members that are only stubs.
- Registrations.AddRegistration: a name of exactly 255 bytes passes the length test and overruns its field by the terminator, and with 65535 registrations the 16-bit numbers wrap and the source seeks before the start of the file; what then happens is up to memory and to the SD library, which is not part of this model, so `Registrations.Fits` excludes both.
- PersistentStore.LinuxPersistent.AddClientRegistration: the same two limits.
- Subscriptions.AddSubscription: a file of 65535 live slots, where the 16-bit slot number wraps and the source seeks before the start of the file.
- PersistentStore.LinuxPersistent.AddSubscription: the same limit.
- PublishQueue.AddPublish: a queue of 65535 live slots, for the same reason.
- PersistentStore.LinuxPersistent.AddClientPublish: the same limit.
- GlobalSubscriptions.IncrementCount: a new topic in a file of 65535 live slots, for the same reason; also `GlobalSubscriptions.IncrementExactly`, `GlobalSubscriptions.CountsAfterIncrement` and `GlobalSubscriptions.CountIsFold`.
- PersistentStore.LinuxPersistent.IncrementGlobalSubscriptionCount: the same limit.
- PublishQueue.RemovePublish: publish id 0, for which the source seeks before the start of the file.
- PublishQueue.SetPublishMsgId: publish id 0, for the same reason.
- PersistentStore.LinuxPersistent.RemovePublishByPublishId: publish id 0.
- PersistentStore.LinuxPersistent.SetPublishMsgId: publish id 0.
- The lookups by topic name, the n-th client and the n-th subscription, the will getter, `is_topic_known` and the predefined topics: easy members beside those modelled.
- The gateway core that calls the store is not part of this model: that the callers keep client subscriptions and global counts in step is not claimed.
- The record layouts as bytes: a record is read and written whole.
- Sockets, serial lines, Bluetooth scanning and D-Bus, logging, and the configuration-file parsers.
