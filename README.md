# RocketMen network client — Dafny model

This project models the client side of the RocketMen game's networking
(`network::Client`), together with the small helpers of `utility.h` that the
client and the rest of the game rely on.

The client is a tick-driven, single-threaded object. Each tick it:

- filters the datagrams its socket received and hands the accepted packets to
  its connection;
- handles the messages the connection yields: gamestate snapshots, entity
  spawns, accepts and destroys, the server's acceptance of the client and of
  its players, and clock replies;
- polls input, and sends its players' inputs frame by frame;
- announces the entities its players own.

It also keeps a set of entity ids it has asked the server for. It allocates
temporary negative ids for entities it spawns ahead of the server
(predicted spawns), and the server later renames those entities to
authoritative ids.

Files:

- `utility.dfy` (module `Utility`):
  - ASCII `toLower`/`toUpper`, each a copy mapped in place;
  - integer colour to packed ABGR word and back, in explicit 32-bit unsigned
    arithmetic;
  - `to_binary_string`, whose loop shifts the value right;
  - the first-match search behind `findPtrByPredicate`.
- `packets.dfy` (module `Packets`): the acceptance filter of `receivePackets`.
  It is a pure decision per datagram: the payload-length bound, the channel
  read off the all-ones header sentinels, the checksum over the payload
  followed by the protocol id, and the match against the peer's address. A loop
  applies it to every received datagram.
- `client_model.dfy` (module `ClientModel`):
  - the client's data: states, local players, entities, frames and the
    messages sent and received;
  - `ClientState`, a snapshot of everything a client operation reads or
    changes;
  - one step function per client operation;
  - the lemmas that state what the operations promise.
- `client.dfy` (module `NetworkClient`):
  - `Client`, a class with the client's fields;
  - the requested-entities set as a fixed `array<int>` whose free slots hold
    `INDEX_NONE` (-1);
  - the two id rings, allocated with their capacities;
  - `Abs()`, which reads the fields as a `ClientState`;
  - every message handler and every method that changes the client's state
    is proved to leave exactly the state its step function prescribes
    (`ensures Abs() == XStep(old(Abs()), …)`), and to keep the invariant
    `Valid()`;
  - the queries (`GetNumLocalPlayers`, `GetLocalPlayer`, `IsLocalPlayer`)
    and the slot helpers of the requested set (`FindRequested`,
    `InsertRequestedSlot`) state their result or new slots directly;
    `GetNextTempNetworkId` is tied to the `NextTempId` function.

The invariant `Valid()` says two things:

- the temporary-id counter lies in [-M, -2], where M is
  `s_maxSpawnPredictedEntities`;
- no entity id is pending twice in the requested set.

Quirks of the code that the model keeps:

- **Frame labels.** `sendPlayerActions` labels frame i with
  `m_lastFrameSent + i`, but reassigns `m_lastFrameSent` inside the loop. The
  labels are therefore L, L+1, L+3, L+6, … that is L + i(i+1)/2
  (`FrameLabelsTriangular`).
- **`disconnect` never acts.** Its guard `state != Connected || state != Connecting`
  holds in every state (`DisconnectNeverActs`). So the Failed and Lost
  connection callbacks change nothing.
- **Equal-sequence snapshots.** A gamestate whose sequence equals the last one
  applied is decoded, not discarded (`EqualSequenceIsApplied`).
- **Unknown entities in a snapshot.** A set present-bit for an id with no local
  entity requests that id, but does not skip its serialized state. The next
  ids are read from those bits. The model reads the snapshot bit by bit, so
  this is visible in `ScanFrom`.
- **Predicted spawns.** `requestEntity(Entity*)` does not enter the temporary
  id in the requested set (`RequestPredictedProps`: the set is unchanged).

Definitions the model takes as parameters:

- `Config` holds the definitions the source does not show:
  - `s_maxNetworkedEntities`;
  - `s_maxSpawnPredictedEntities` (at least 2);
  - `s_maxPlayersPerClient`;
  - the capacity of the requested set;
  - the number of distinct `Sequence` values;
  - `Network::isServer()`;
  - `sequenceLessThan`, an arbitrary comparison. Only the lemma about equal
    sequences needs it to be irreflexive.
- `FilterParams` holds what the packet filter needs: `g_maxBlockSize`, the
  all-ones `Sequence`, the bytes of `g_protocolId`, `crcFast` as an arbitrary
  function, and the peer's address.

## Model

| member | source | states |
|---|---|---|
| `Utility.LowerChar` | RocketMen/src/utility/utility.h:11 | `::tolower` maps 'A'..'Z' 32 code points up and leaves every other character alone; the result is never upper-case |
| `Utility.UpperChar` | RocketMen/src/utility/utility.h:18 | `::toupper` maps 'a'..'z' 32 code points down and leaves every other character alone; the result is never lower-case |
| `Utility.Lower` | RocketMen/src/utility/utility.h:8-13 | the lower-cased string has the input's length and its i-th character is the i-th input character lower-cased |
| `Utility.Upper` | RocketMen/src/utility/utility.h:15-20 | the upper-cased string has the input's length and its i-th character is the i-th input character upper-cased |
| `Utility.ToLower` | RocketMen/src/utility/utility.h:8-13 | copying the string and mapping it in place yields exactly `Lower(str)` |
| `Utility.ToUpper` | RocketMen/src/utility/utility.h:15-20 | copying the string and mapping it in place yields exactly `Upper(str)` |
| `Utility.LowerIdempotent` | RocketMen/src/utility/utility.h:8-13 | `toLower(toLower(s)) == toLower(s)` |
| `Utility.UpperIdempotent` | RocketMen/src/utility/utility.h:15-20 | `toUpper(toUpper(s)) == toUpper(s)` |
| `Utility.LowerAfterUpper` | RocketMen/src/utility/utility.h:8-20 | lower-casing after upper-casing gives the same string as lower-casing alone |
| `Utility.ToIColor` | RocketMen/src/utility/utility.h:49-56 | every component extracted from a packed word is in 0..255 |
| `Utility.ToABGRSum` | RocketMen/src/utility/utility.h:31-38 | with byte components, the shifted uint32 sum is exactly w·2^24 + z·2^16 + y·2^8 + x (no bits lost) |
| `Utility.ToABGRLayout` | RocketMen/src/utility/utility.h:31-38 | with byte components, red is bits 0-7, green 8-15, blue 16-23 and alpha 24-31 of the packed word |
| `Utility.ColorRoundTrip` | RocketMen/src/utility/utility.h:31-56 | `toiColor(toABGR(c)) == c` when every component is in 0..255 |
| `Utility.PackedRoundTrip` | RocketMen/src/utility/utility.h:31-56 | `toABGR(toiColor(p)) == p` for every 32-bit word p |
| `Utility.BinaryDigits` | RocketMen/src/utility/utility.h:58-70 | the rendering has n characters and character i is bit n-1-i of the value (two's complement): most significant first |
| `Utility.ToBinaryString` | RocketMen/src/utility/utility.h:58-70 | the fill-from-the-right loop with `val >>= 1` produces `BinaryDigits(val, 8·sizeof(T))` |
| `Utility.BinaryDigitsAreBits` | RocketMen/src/utility/utility.h:65 | every character of the rendering is '0' or '1' |
| `Utility.BinaryRoundTrip` | RocketMen/src/utility/utility.h:58-70 | reading the rendering back as a binary numeral gives the value modulo 2^n |
| `Utility.BinaryRoundTripUnsigned` | RocketMen/src/utility/utility.h:58-70 | a value that fits in n unsigned bits is read back exactly |
| `Utility.FirstMatch` | RocketMen/src/utility/utility.h:75 | `std::find_if`: the position of an element satisfying the predicate with none before it, and none exactly when no element satisfies it |
| `Utility.FindPtrByPredicate` | RocketMen/src/utility/utility.h:72-82 | returns the first element satisfying the predicate, and nothing (nullptr) exactly when none does |
| `Packets.Classify` | RocketMen/src/network/client.cpp:605-609 | a packet is unreliable exactly when sequence, ackBits and ackSequence are all all-ones |
| `Packets.ReadPayload` | RocketMen/src/network/client.cpp:614 | the payload has dataLength bytes: the datagram's bytes, then zeros past its end (an assumption of this model, see Left out) |
| `Packets.AcceptIff` | RocketMen/src/network/client.cpp:603-625 | a datagram is delivered iff dataLength < g_maxBlockSize, the checksum equals crc(payload ++ protocol id) and the sender is the peer; the packet keeps the header and gets the sentinel channel |
| `Packets.AcceptAll` | RocketMen/src/network/client.cpp:590-631 | the receive loop delivers at most one packet per datagram |
| `Packets.AcceptAllSound` | RocketMen/src/network/client.cpp:590-631 | every delivered packet came from a datagram sent by the peer whose checksum covers the packet's payload followed by the protocol id, with a payload below the block size |
| `Packets.AcceptAllComplete` | RocketMen/src/network/client.cpp:590-631 | every datagram that passes the filter is delivered, in arrival order |
| `Packets.ReceivePackets` | RocketMen/src/network/client.cpp:581-632 | draining the received datagrams delivers exactly `AcceptAll` of them, in order |
| `ClientModel.Int16` | RocketMen/src/network/client.cpp:121 | narrowing to int16_t lands in [-32768, 32767] and keeps every value already in range |
| `ClientModel.ToSequence` | RocketMen/src/network/client.cpp:32 | conversion to the unsigned Sequence lands in 0..modulus-1 |
| `ClientModel.NewLocalPlayer` | RocketMen/src/network/client.h:25-28 | a new LocalPlayer has playerId and controllerId both INDEX_NONE |
| `ClientModel.TempIdBounds` | RocketMen/src/network/client.cpp:570-579 | temporary ids and the counter stay in [-M, -2]: never INDEX_NONE and never non-negative; they fit int16_t when M ≤ 32768; the counter steps down by one and wraps from -M to -2 |
| `ClientModel.TempIdsCycle` | RocketMen/src/network/client.cpp:21-22 | from the initial -2, the counter after k allocations is -2 - (k mod (M-1)): -2, -3, …, -M, -2, … |
| `ClientModel.FindSlot` | RocketMen/src/network/client.cpp:421 | `find` on the requested set gives the first slot holding the id, and INDEX_NONE exactly when no slot holds it |
| `ClientModel.InsertRequestedProps` | RocketMen/src/network/client.cpp:253 | inserting an absent id keeps the set's size and distinctness, keeps every pending id, adds no other id, and stores the id exactly when there was a free slot |
| `ClientModel.ClearRequestedProps` | RocketMen/src/network/client.cpp:421-425 | clearing the first slot holding an id removes that id from a distinct set, keeps every other pending id, and keeps distinctness |
| `ClientModel.ClearRequestedSlots` | RocketMen/src/network/client.cpp:421-425 | in a distinct set, clearing an id frees exactly the slot that held it and keeps every other slot |
| `ClientModel.RequestEntityIdempotent` | RocketMen/src/network/client.cpp:248-260 | requesting an id sends exactly one RequestEntity when it is not pending and nothing otherwise; only the requested set and the outbox change; filled slots are kept, every other pending id stays pending and no other id is added, the set stays distinct, and a new id goes into the first free slot; once the set has room or holds the id, a repeat request changes nothing and sends nothing |
| `ClientModel.RequestPredictedProps` | RocketMen/src/network/client.cpp:227-246 | only the counter, the entity at index and the outbox change: the entity at index takes the counter's id (a temporary id in [-M, -2]) and keeps the rest of its record, every other entity is unchanged, the counter becomes its next value, the requested set is unchanged, one RequestPredictedEntity with the id and the entity is sent, and the invariant holds |
| `ClientModel.FindEntity` | RocketMen/src/network/client.cpp:429-430 | the entity lookup finds the first entity with the network id, and nothing exactly when none has it |
| `ClientModel.ApplyPresentEffect` | RocketMen/src/network/client.cpp:506-519 | for a known id, that entity's state becomes the next bits of the stream and the stream continues after them, nothing else changing; for an unknown id, the stream is not advanced, a pending id changes nothing, and an id not pending is sent as exactly one RequestEntity and stored when a slot is free; filled slots and all other pending ids are kept |
| `ClientModel.ScanFromEffect` | RocketMen/src/network/client.cpp:500-524 | the scan visits ids upward from 0, never reaches s_maxNetworkedEntities, counts at most the declared number of present-bits, stops only at the declared count or at the id limit, changes only entity states, the requested set and the outbox, and appends RequestEntity only for absent, not pending ids, in increasing order |
| `ClientModel.ScanFromBounds` | RocketMen/src/network/client.cpp:500-524 | the scan visits ids upward, never past s_maxNetworkedEntities, counts at most the declared number of present-bits, and stops before the id limit only at the declared count |
| `ClientModel.ScanFromChanges` | RocketMen/src/network/client.cpp:500-524 | the scan changes only entity states, the requested set and the outbox, keeps pending ids and distinctness, and appends RequestEntity only for visited ids that had no entity and were not pending, in increasing order |
| `ClientModel.ScanFromPresent` | RocketMen/src/network/client.cpp:500-524 | the ids whose present-bit was set number exactly the bits counted, strictly increase, lie among the ids visited, and when the declared count is reached the last one is the last id visited |
| `ClientModel.ScanFromRequests` | RocketMen/src/network/client.cpp:506-519 | the scan appends to the outbox exactly one RequestEntity per present id that had no entity and was not pending, in the order read, and nothing else |
| `ClientModel.ScanFromEntities` | RocketMen/src/network/client.cpp:506-515 | the scan keeps the entity count and leaves every entity whose id was not present unchanged |
| `ClientModel.ScanFromRequested` | RocketMen/src/network/client.cpp:506-519 | filled request slots are never overwritten, and while a slot stays free every present id that had no entity and was not pending ends up pending |
| `ClientModel.MissingRequestsOnly` | RocketMen/src/network/client.cpp:516-519 | the requests a scan sends are RequestEntity messages only, each for a listed id with no entity that was not pending |
| `ClientModel.GameStateDecode` | RocketMen/src/network/client.cpp:487-525 | a gamestate with a count in 1..s_maxNetworkedEntities: the present ids are read in increasing order, one per bit counted; the scan ends at the id limit or right after the declared-th present id; exactly the missing-entity requests go out in order; only present entities change; free slots store the requested ids |
| `ClientModel.GameStateShortBody` | RocketMen/src/network/client.cpp:500-524 | with 4 ids, 2 request slots, declared 3 and bits 1,0,1,0, the scan runs to the id limit having read 2 present ids, [0, 2], both requested and stored |
| `ClientModel.GameStateCountGuard` | RocketMen/src/network/client.cpp:497-498 | a declared count ≤ 0 or > s_maxNetworkedEntities decodes nothing |
| `ClientModel.GamestateStaleness` | RocketMen/src/network/client.cpp:317-326 | a gamestate older than the last received leaves everything unchanged; otherwise the last received sequence becomes the message's before the decode, which changes only entity states, the requested set and the outbox |
| `ClientModel.EqualSequenceIsApplied` | RocketMen/src/network/client.cpp:319 | a gamestate with the same sequence as the last received is decoded, not discarded, when sequenceLessThan is irreflexive |
| `ClientModel.SpawnIdempotent` | RocketMen/src/network/client.cpp:413-441 | after a spawn with id > -1 only the requested set and the entities change: the slot holding the id is freed and every other slot kept, an existing entity is not duplicated, a missing one is appended with the id, owner and state received, the id has an entity and is not pending, and the same spawn again changes nothing |
| `ClientModel.SpawnIgnoresNegative` | RocketMen/src/network/client.cpp:419 | a spawn whose id is INDEX_NONE or below changes nothing |
| `ClientModel.AcceptEntityEffect` | RocketMen/src/network/client.cpp:443-467 | only the requested set and the entities change: the slot holding localId is freed and every other slot kept; exactly the first entity with localId takes remoteId, all others are unchanged, and no entity changes when none has localId |
| `ClientModel.DestroyEffect` | RocketMen/src/network/client.cpp:469-485 | ids below -M or above s_maxNetworkedEntities change nothing; otherwise only the first entity with the id is killed |
| `ClientModel.PredictedSpawnScenario` | RocketMen/src/network/client.cpp:443-458 | an entity spawned ahead of the server takes id -2 and announces itself, and the server's AcceptEntity(-2, 17) renames it to 17 |
| `ClientModel.ConnectEffect` | RocketMen/src/network/client.cpp:180-203 | connect acts only from Disconnected and moves to Connecting exactly when the socket initialises |
| `ClientModel.DisconnectNeverActs` | RocketMen/src/network/client.cpp:205-215 | the guard holds in every state, so disconnect never changes anything |
| `ClientModel.ConnectionEstablishedEffect` | RocketMen/src/network/client.cpp:374-396 | acts only from Connecting: sets Connected, lastFrameSent := lastFrameSimulated, and sends one IntroducePlayer with the number of local players |
| `ClientModel.ConnectionCallbackEffect` | RocketMen/src/network/client.cpp:642-668 | only the Established callback changes state (to Connected); Failed, Lost and Received change nothing |
| `ClientModel.AcceptPlayerEffect` | RocketMen/src/network/client.cpp:398-411 | unassigned local players take the received int16 ids in order, only the local players change (the whole state otherwise equal), and once the first player holds an id a later AcceptPlayer is ignored |
| `ClientModel.FindLocalPlayer` | RocketMen/src/network/client.cpp:272-283 | finds the first local player with the id, and nothing exactly when none has it |
| `ClientModel.OwnedBy` | RocketMen/src/network/client.cpp:287-292 | the owned list holds exactly the entities whose owner is the player (sound and complete) |
| `ClientModel.SyncAllOwnedEffect` | RocketMen/src/network/client.cpp:88-91 | syncing every local player appends at most one message per player, each a non-empty list of entities with a single owner, and changes nothing else |
| `ClientModel.SyncAllOwnedSends` | RocketMen/src/network/client.cpp:88-91 | syncing the players from the p-th on appends exactly `SyncMessages` for them: for each player in order that owns something, OwnedGamestate with the count and `OwnedBy` the player's int16 id; nothing else changes |
| `ClientModel.SyncMessagesAllOwning` | RocketMen/src/network/client.cpp:285-311 | when every player owns an entity there is one message per player, the k-th carrying player k's owned entities and their count |
| `ClientModel.SyncMessagesNoneOwning` | RocketMen/src/network/client.cpp:296-297 | players that own nothing send nothing |
| `ClientModel.SendInputsForPlayersEffect` | RocketMen/src/network/client.cpp:126-134 | one PlayerInput per local player in player order with the frame's label, and only the outbox and the frame's buffers change |
| `ClientModel.SendInputsForPlayersSends` | RocketMen/src/network/client.cpp:126-134 | the messages appended are, player by player, PlayerInput(int16 id, label, that player's buffer in the frame), where a player whose id an earlier player shares sends an empty buffer |
| `ClientModel.SendInputsForPlayersClears` | RocketMen/src/network/client.cpp:131-132 | afterwards the frame's buffer of every local player id is empty, every other id's buffer in that frame is as before, every other frame is unchanged and no frame is added or removed |
| `ClientModel.FrameInputsDistinct` | RocketMen/src/network/client.cpp:126-134 | with distinct player ids, message k carries exactly player k's buffer of the frame |
| `ClientModel.FrameInputsShared` | RocketMen/src/network/client.cpp:131-132 | a player whose id an earlier player shares sends an empty buffer, because the earlier one cleared it |
| `ClientModel.SendFramesEffect` | RocketMen/src/network/client.cpp:123-139 | the frames' inputs are appended frame by frame, player by player, and lastFrameSent ends at the last label written |
| `ClientModel.SendFramesSends` | RocketMen/src/network/client.cpp:123-139 | frames i..n-1 append their messages frame by frame, each frame's payloads being the buffers the history held before the loop (earlier frames' clearing never touches a later frame) |
| `ClientModel.SendFramesClears` | RocketMen/src/network/client.cpp:123-139 | the loop empties the local players' buffers in exactly the frames it sends and leaves every other frame and buffer as it was |
| `ClientModel.InputHeadersLength` | RocketMen/src/network/client.cpp:123-126 | n frames for P players give n·P input headers |
| `ClientModel.SendPlayerActionsEffect` | RocketMen/src/network/client.cpp:111-141 | no change when lastFrameSimulated is sequenceLessThan lastFrameSent; the outbox only grows; on a client whose lastFrameSent frame exists and with d = int16(simulated − sent) > 0, exactly d·players PlayerInput messages are appended in frame-then-player order with the frame labels, and lastFrameSent ends at the last label |
| `ClientModel.SendPlayerActionsPayloads` | RocketMen/src/network/client.cpp:111-141 | when it sends, the outbox gains every local player's buffer of every frame from lastFrameSent on with its label, and exactly those buffers are emptied |
| `ClientModel.TriangleClosedForm` | RocketMen/src/network/client.cpp:125 | the label offset after k frames, 0+1+…+k, is k(k+1)/2 |
| `ClientModel.FrameLabelsTriangular` | RocketMen/src/network/client.cpp:125-137 | while nothing wraps, frame k is labelled L + k(k+1)/2 (L, L+1, L+3, L+6, …) |
| `ClientModel.SimulatePlayersEffect` | RocketMen/src/network/client.cpp:166-175 | after the player loop each local player's pending buffer is empty and the frame holds what was pending; other players and frames are untouched |
| `ClientModel.SimulatePlayerEffect` | RocketMen/src/network/client.cpp:166-173 | one player's iteration extends the loop's progress by that player: if the players before it have had their buffers moved into the frame (emptied there, every other id untouched with an empty frame slot), then so has it; only the frame, the buffers and the hand-over log change |
| `ClientModel.SimulateEffect` | RocketMen/src/network/client.cpp:160-178 | only the history, the pending actions, the processed-actions log and lastFrameSimulated change, and the frame becomes the last simulated; while connected the players' pending actions move into the frame and are emptied and every other id keeps its buffer and has nothing in the frame, otherwise the frame is empty and the pending actions are kept; other frames are unchanged |
| `ClientModel.ReadMessagePreservesValid` | RocketMen/src/network/client.cpp:313-372 | handling any message keeps the temp-id counter and the requested set's distinctness and size |
| `ClientModel.ReadMessagesPreservesValid` | RocketMen/src/network/client.cpp:633-640 | handling a queue of messages keeps the invariant and never touches the temp-id counter |
| `ClientModel.ClearSessionEffect` | RocketMen/src/network/client.cpp:557-568 | after clearSession every requested slot is free, and the invariant holds |
| `ClientModel.InitialStateValid` | RocketMen/src/network/client.cpp:28-49 | the constructed client satisfies the invariant, its last received sequence is (Sequence)INDEX_NONE (the all-ones value), and every requested slot is free |
| `ClientModel.ReadInputEffect` | RocketMen/src/network/client.cpp:151-158 | polling input changes only the pending buffers, and only those of local players |
| `ClientModel.ReadInputPolls` | RocketMen/src/network/client.cpp:151-158 | each id's pending buffer ends as its old contents followed by the polls of the players with that id, in player order |
| `ClientModel.PolledForDistinct` | RocketMen/src/network/client.cpp:153-157 | with distinct player ids, a player's id receives exactly its own poll and an id no player has receives nothing |
| `ClientModel.PolledForAbsent` | RocketMen/src/network/client.cpp:153-157 | an id no player has receives nothing |
| `ClientModel.PolledForShared` | RocketMen/src/network/client.cpp:153-157 | when all players share one id, that id receives every player's poll, in order |
| `ClientModel.ReadInputDistinct` | RocketMen/src/network/client.cpp:151-158 | with distinct player ids, each player's buffer gains exactly its own controller's poll |
| `ClientModel.ReadInputShared` | RocketMen/src/network/client.cpp:151-158 | when all players have the same id (all -1 before AcceptPlayer), that one buffer gains every player's poll in order |
| `ClientModel.UpdateEffect` | RocketMen/src/network/client.cpp:69-109 | a disconnected client does nothing on update; otherwise the tick keeps the invariant and the temp-id counter |
| `NetworkClient.Client.constructor` | RocketMen/src/network/client.cpp:28-49 | the new client is in the initial state, satisfies the invariant, and its rings hold 256 and 32 ids, all INDEX_NONE |
| `NetworkClient.Client.ClearSession` | RocketMen/src/network/client.cpp:557-568 | players dropped and every slot of the requested set and both rings set to INDEX_NONE |
| `NetworkClient.Client.Initialize` | RocketMen/src/network/client.cpp:56-62 | clears the session, records the port and marks the client initialised |
| `NetworkClient.Client.GetNextTempNetworkId` | RocketMen/src/network/client.cpp:570-579 | returns the counter's value and advances it as `NextTempId` prescribes, keeping the invariant |
| `NetworkClient.Client.FindRequested` | RocketMen/src/network/client.cpp:421 | the slot loop returns the first slot holding the id, INDEX_NONE exactly when none does |
| `NetworkClient.Client.InsertRequestedSlot` | RocketMen/src/network/client.cpp:253 | the first free slot takes the id; a full set is unchanged |
| `NetworkClient.Client.RequestEntityById` | RocketMen/src/network/client.cpp:248-260 | the state after the call is `RequestEntityStep`, and the invariant holds |
| `NetworkClient.Client.RequestPredictedSpawn` | RocketMen/src/network/client.cpp:227-246 | the state after the call is `RequestPredictedStep` |
| `NetworkClient.Client.OnGameState` | RocketMen/src/network/client.cpp:487-525 | the id loop with its break leaves the state `GameStateStep` prescribes, whose requests, entity updates and stopping point `GameStateDecode` states |
| `NetworkClient.Client.OnGamestateMessage` | RocketMen/src/network/client.cpp:317-326 | staleness guard then decode, as `ReadGamestateStep` |
| `NetworkClient.Client.OnSpawnEntity` | RocketMen/src/network/client.cpp:413-441 | the state after the call is `SpawnStep` |
| `NetworkClient.Client.OnAcceptEntity` | RocketMen/src/network/client.cpp:443-467 | the state after the call is `AcceptEntityStep` |
| `NetworkClient.Client.OnDestroyEntity` | RocketMen/src/network/client.cpp:469-485 | the state after the call is `DestroyStep` |
| `NetworkClient.Client.OnConnectionEstablished` | RocketMen/src/network/client.cpp:374-396 | the state after the call is `ConnectionEstablishedStep` |
| `NetworkClient.Client.OnAcceptPlayer` | RocketMen/src/network/client.cpp:398-411 | the player loop leaves the state `AcceptPlayerStep` prescribes |
| `NetworkClient.Client.ReadMessage` | RocketMen/src/network/client.cpp:313-372 | the dispatch leaves the state `ReadMessageStep` prescribes |
| `NetworkClient.Client.ReadMessages` | RocketMen/src/network/client.cpp:633-640 | the queue loop leaves the state `ReadMessagesStep` prescribes |
| `NetworkClient.Client.Connect` | RocketMen/src/network/client.cpp:180-203 | the state after the call is `ConnectStep` |
| `NetworkClient.Client.Disconnect` | RocketMen/src/network/client.cpp:205-215 | the state after the call is `DisconnectStep`, which is the old state |
| `NetworkClient.Client.OnConnectionCallback` | RocketMen/src/network/client.cpp:642-668 | the state after the call is `ConnectionCallbackStep` |
| `NetworkClient.Client.AddLocalPlayer` | RocketMen/src/network/client.cpp:217-225 | a player with no id and the given controller and mouse/keyboard flag is appended, and its index is returned |
| `NetworkClient.Client.GetNumLocalPlayers` | RocketMen/src/network/client.cpp:262-265 | the number of local players |
| `NetworkClient.Client.GetLocalPlayer` | RocketMen/src/network/client.cpp:272-283 | the loop returns the first local player whose id equals the int16 argument, and nothing exactly when none does |
| `NetworkClient.Client.IsLocalPlayer` | RocketMen/src/network/client.cpp:267-270 | true exactly when some local player has the id |
| `NetworkClient.Client.SyncOwnedEntities` | RocketMen/src/network/client.cpp:285-311 | the copy_if loop collects `OwnedBy` the player, and one message is sent exactly when that is non-empty |
| `NetworkClient.Client.ReadInput` | RocketMen/src/network/client.cpp:151-158 | the player loop leaves the state `ReadInputFrom` prescribes |
| `NetworkClient.Client.SendFrameInputs` | RocketMen/src/network/client.cpp:126-134 | the player loop leaves the state `SendInputsForPlayers` prescribes |
| `NetworkClient.Client.SendPlayerActions` | RocketMen/src/network/client.cpp:111-141 | the frame loop leaves the state `SendPlayerActionsStep` prescribes |
| `NetworkClient.Client.SendFrame` | RocketMen/src/network/client.cpp:124-137 | one iteration of the frame loop sends the frame's inputs as `SendInputsForPlayers` prescribes and moves lastFrameSent to the label written |
| `NetworkClient.Client.Simulate` | RocketMen/src/network/client.cpp:160-178 | the state after the call is `SimulateStep` |
| `NetworkClient.Client.SimulateLocalPlayer` | RocketMen/src/network/client.cpp:166-175 | one iteration of the player loop leaves the state `SimulatePlayer` prescribes |
| `NetworkClient.Client.Update` | RocketMen/src/network/client.cpp:69-109 | one tick leaves the state `UpdateStep` prescribes |

## Left out

- Socket and `Connection` internals are not modelled: sending, resending,
  acknowledgements, handshake and `sendPendingMessages`. What the client hands
  to the connection is appended to the ghost `outbox`. The messages the
  connection yields are a parameter of `ReadMessages` and `Update`.
  Socket initialisation is a boolean parameter of `Connect`.
- `crcFast` is external C code and is a parameter of the packet filter. So is
  the peer's address.
- The `BitStream` implementation is not part of this model. Incoming messages
  arrive already split into the values their handlers read. A snapshot body is
  a bit sequence, and reads past its end give 0 or false. Outgoing messages
  carry values, not bytes.
- `Packets.ReadPayload`: the source copies dataLength bytes out of the
  datagram with `readBytes` (client.cpp:614) without checking that the
  datagram holds that many; what the `BitStream` then yields is not part of
  this model, and the model takes zeros past the datagram's end, the same
  convention as for snapshot bodies above.
- The `EntityManager` is modelled only as far as the client sees it: entity
  serialization, instantiation and `kill` are effects on a sequence of entity
  records. An entity's state is a fixed-length bit string, and its length
  stands for the entity kind's serialized size.
- `Game::processPlayerActions` is a ghost log of the buffers handed over.
  `input::getActions` is an arbitrary function of (controller, mouse/keyboard
  flag) whose result is appended to the player's buffer.
- The float timers of `update`, `m_stateTimer` and `setState`'s timer reset are
  not modelled. The input-interval test is a boolean parameter of `Update`.
  `requestServerTime` is left out because `m_timeSinceLastClockSync` is never
  increased, so it never fires.
- `onReceiveServerTime` is left out: it computes a latency and discards it.
- `Network::getLocalServer()->registerLocalClientId` is not modelled. It runs
  only when the process is also the server.
- `toABGR(Color)` and `toColor` are left out because they are float
  conversions.
- The client history is modelled as a map from frame id to frame.
  - `frame++` in `sendPlayerActions` moves to the next frame id. The
    ring's wrap-around and any frame it would overwrite are not modelled.
  - `insertFrame` starts an empty frame.
  - The ring contents of `m_recentlyProcessed`, `m_recentlyDestroyedEntities`
    and `m_recentlyPredictedSpawns` are only allocated and filled. The client
    code shown never reads them.
- The requested-entities container is not shown. The model takes it to be a
  fixed array whose `insert` writes the first free slot and does nothing when
  the array is full.
- `Buffer<LocalPlayer>::insert` is taken to return a default-constructed
  player. On `onAcceptPlayer` with no local players, the source reads
  `m_localPlayers[0]` out of range. The model then assigns nothing.
- The `Sequence` width is not shown. Conversion to `Sequence` is modulo
  `Config.sequenceModulus`, and `sequenceLessThan` is an arbitrary comparison.
  Sequence wrap-around in frame arithmetic is kept explicit: `Int16` for the
  int16_t locals, `ToSequence` for stores into `m_lastFrameSent`.
- `s_nextTempNetworkId` is a file-level static shared by all clients. The model
  makes it a field of `Client`, initialised to -2 by the constructor.
- Indexing `frame->actions` with a player id of -1 (a player without an id) is
  out of range in the source. The model treats the frame as a map, so that
  case is an ordinary key.
- The `assert`/`ensure` checks of the source are not modelled, except those
  that state what callers must guarantee:
  - `requestEntity(netId)` requires 0 ≤ netId < s_maxNetworkedEntities;
  - `addLocalPlayer` requires room for another player.
- `ReadInputFrom`: `s_playerActions` (client.cpp:24) is one file-level array
  of `s_maxPlayersPerClient` (4, network_interface.h:16) buffers shared by
  every client and indexed by player id (client.cpp:155). The model keeps the
  buffers in each client's `pendingActions` map. A player id of -1 (before
  AcceptPlayer) or of 4 or more indexes out of range in the source; in the
  model it is an ordinary map key.
- `SimulatePlayer`: the read and clear of `s_playerActions[player.playerId]`
  (client.cpp:168) use the same per-client map, so the out-of-range ids above
  are ordinary keys here too.
- `RequestPredictedStep`, like every other sender (`RequestEntityStep`,
  `ConnectionEstablishedStep`, `SendInputsForPlayers`, `SyncOwnedStep`),
  appends to the outbox even when `hasConnection` is false. `sendMessage`
  asserts a connection (client.cpp:540), and the model does not require one.
- `Utility.LowerChar`, `Utility.UpperChar`: only the "C" locale is modelled. A
  Dafny `char` is a Unicode code point rather than a byte, and `::tolower` or
  `::toupper` on a negative `char` (undefined behaviour in the source) has no
  counterpart.
- Logging is not modelled.
- `clearSession` deletes a connection that it does not null, which is a
  lifetime concern. `hasConnection` is left as it was.
