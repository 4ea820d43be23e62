/** The network client as an object whose methods update its fields in place.
    Abs() reads the fields as a ClientModel.ClientState, and every method is
    proved to leave the state its step function in ClientModel prescribes. */
module NetworkClient {
  import opened Utility
  import opened ClientModel

  class Client {
    const cfg: Config

    var state: State
    /** Whether a Connection has been created (m_connection != nullptr). */
    var hasConnection: bool
    var isInitialized: bool
    var port: int
    var lastFrameSent: int
    var lastFrameSimulated: int
    var lastReceivedState: int

    /** The requested-entities set: one slot per pending request,
        INDEX_NONE marking a free slot. */
    const requestedEntities: array<int>
    const recentlyProcessed: array<int>
    const recentlyDestroyed: array<int>
    const recentlyPredictedSpawns: array<int>

    var localPlayers: seq<LocalPlayer>
    /** s_nextTempNetworkId. */
    var nextTempNetworkId: int
    /** The entity collection of the entity manager. */
    var entities: seq<Entity>
    /** The client history: the frame stored under each frame id. */
    var history: map<int, Frame>
    /** s_playerActions: the actions gathered for each player id. */
    var pendingActions: map<int, ActionBuffer>
    /** The buffers handed to Game::processPlayerActions, in order. */
    ghost var processedActions: seq<(int, ActionBuffer)>
    /** The messages given to the connection to send, in order. */
    ghost var outbox: seq<Message>

    ghost function Abs(): ClientState
      reads this, requestedEntities
    {
      ClientState(state, hasConnection, lastFrameSent, lastFrameSimulated, lastReceivedState,
                  requestedEntities[..], localPlayers, nextTempNetworkId, entities,
                  history, pendingActions, processedActions, outbox)
    }

    ghost predicate Valid()
      reads this, requestedEntities
    {
      && ValidConfig(cfg)
      && requestedEntities.Length == cfg.requestedCapacity
      && recentlyProcessed.Length == SEQUENCE_MEMORY_SIZE
      && recentlyDestroyed.Length == RECENTLY_DESTROYED_SIZE
      && recentlyPredictedSpawns.Length == cfg.maxSpawnPredictedEntities
      && ValidState(cfg, Abs())
    }

    constructor (config: Config, worldEntities: seq<Entity>)
      requires ValidConfig(config)
      ensures Valid()
      ensures Abs() == InitialState(config, worldEntities)
      ensures !isInitialized
      ensures recentlyProcessed.Length == 256 && recentlyDestroyed.Length == 32
      ensures forall i :: 0 <= i < recentlyProcessed.Length ==> recentlyProcessed[i] == INDEX_NONE
      ensures forall i :: 0 <= i < recentlyDestroyed.Length ==> recentlyDestroyed[i] == INDEX_NONE
    {
      cfg := config;
      state := Disconnected;
      hasConnection := false;
      isInitialized := false;
      port := 0;
      lastFrameSent := 0;
      lastFrameSimulated := 0;
      lastReceivedState := ToSequence(config, INDEX_NONE);
      requestedEntities := new int[config.requestedCapacity](_ => INDEX_NONE);
      recentlyProcessed := new int[SEQUENCE_MEMORY_SIZE](_ => INDEX_NONE);
      recentlyDestroyed := new int[RECENTLY_DESTROYED_SIZE](_ => INDEX_NONE);
      recentlyPredictedSpawns := new int[config.maxSpawnPredictedEntities](_ => INDEX_NONE);
      localPlayers := [];
      nextTempNetworkId := FIRST_TEMP_NETWORK_ID;
      entities := worldEntities;
      history := map[];
      pendingActions := map[];
      processedActions := [];
      outbox := [];
      new;
      InitialStateValid(config, worldEntities);
    }

    /** clearSession: drops the local players and frees every slot of the
        requested set and of the two id rings. */
    method ClearSession()
      requires Valid()
      modifies this, requestedEntities, recentlyProcessed, recentlyDestroyed
      ensures Valid()
      ensures Abs() == ClearSessionStep(old(Abs()))
      ensures forall i :: 0 <= i < recentlyProcessed.Length ==> recentlyProcessed[i] == INDEX_NONE
      ensures forall i :: 0 <= i < recentlyDestroyed.Length ==> recentlyDestroyed[i] == INDEX_NONE
    {
      localPlayers := [];
      forall i | 0 <= i < recentlyProcessed.Length {
        recentlyProcessed[i] := INDEX_NONE;
      }
      forall i | 0 <= i < recentlyDestroyed.Length {
        recentlyDestroyed[i] := INDEX_NONE;
      }
      forall i | 0 <= i < requestedEntities.Length {
        requestedEntities[i] := INDEX_NONE;
      }
      ClearSessionEffect(cfg, old(Abs()));
    }

    method Initialize(newPort: int)
      requires Valid()
      modifies this, requestedEntities, recentlyProcessed, recentlyDestroyed
      ensures Valid()
      ensures Abs() == ClearSessionStep(old(Abs()))
      ensures isInitialized && port == newPort
    {
      ClearSession();
      port := newPort;
      isInitialized := true;
    }

    // -------------------------------------------------------------------------
    // Temporary ids and entity requests

    method GetNextTempNetworkId() returns (tempNetworkId: int)
      requires Valid()
      modifies this
      ensures Valid()
      ensures tempNetworkId == NextTempId(cfg, old(nextTempNetworkId)).0
      ensures Abs() == old(Abs()).(nextTempId := NextTempId(cfg, old(nextTempNetworkId)).1)
    {
      tempNetworkId := nextTempNetworkId;
      nextTempNetworkId := nextTempNetworkId - 1;
      if nextTempNetworkId <= -cfg.maxSpawnPredictedEntities - 1 {
        nextTempNetworkId := FIRST_TEMP_NETWORK_ID;
      }
      TempIdBounds(cfg, old(nextTempNetworkId));
    }

    /** find on the requested set: the first slot holding x, or INDEX_NONE. */
    method FindRequested(x: int) returns (index: int)
      ensures index == FindSlot(requestedEntities[..], x)
      ensures index == INDEX_NONE <==> forall j :: 0 <= j < requestedEntities.Length ==> requestedEntities[j] != x
      ensures index != INDEX_NONE ==> 0 <= index < requestedEntities.Length && requestedEntities[index] == x
    {
      index := 0;
      while index < requestedEntities.Length
        invariant 0 <= index <= requestedEntities.Length
        invariant forall j :: 0 <= j < index ==> requestedEntities[j] != x
      {
        if requestedEntities[index] == x {
          assert requestedEntities[..][index] == x;
          return;
        }
        index := index + 1;
      }
      index := INDEX_NONE;
      assert x !in requestedEntities[..];
    }

    /** insert on the requested set: the first free slot takes x. */
    method InsertRequestedSlot(x: int)
      modifies requestedEntities
      ensures requestedEntities[..] == InsertRequested(old(requestedEntities[..]), x)
    {
      var k := FindRequested(INDEX_NONE);
      if k != INDEX_NONE {
        requestedEntities[k] := x;
      }
    }

    /** requestEntity(int32_t netId). */
    method RequestEntityById(netId: int)
      requires Valid() && INDEX_NONE < netId < cfg.maxNetworkedEntities
      modifies this, requestedEntities
      ensures Valid()
      ensures Abs() == RequestEntityStep(old(Abs()), netId)
    {
      var index := FindRequested(netId);
      if index == INDEX_NONE {
        InsertRequestedSlot(netId);
        outbox := outbox + [RequestEntity(netId)];
        InsertRequestedProps(old(requestedEntities[..]), netId);
      }
    }

    /** requestEntity(Entity*): the entity at index takes a temporary id and
        is announced with its full state. */
    method RequestPredictedSpawn(index: nat)
      requires Valid() && index < |entities|
      modifies this
      ensures Valid()
      ensures Abs() == RequestPredictedStep(cfg, old(Abs()), index)
    {
      var tempId := GetNextTempNetworkId();
      entities := entities[index := entities[index].(networkId := tempId)];
      outbox := outbox + [RequestPredictedEntity(tempId, entities[index])];
    }

    // -------------------------------------------------------------------------
    // Message handlers

    method OnGameState(declared: int, body: seq<bool>)
      requires Valid()
      modifies this, requestedEntities
      ensures Valid()
      ensures Abs() == GameStateStep(cfg, old(Abs()), declared, body)
    {
      if declared <= 0 || declared > cfg.maxNetworkedEntities {
        return;
      }
      ghost var target := ScanFrom(cfg, Abs(), body, 0, 0, declared).client;
      var bits := body;
      var numRead := 0;
      var networkId := 0;
      while networkId < cfg.maxNetworkedEntities
        invariant 0 <= networkId <= cfg.maxNetworkedEntities
        invariant 0 <= numRead < declared
        invariant Valid()
        invariant ScanFrom(cfg, Abs(), bits, networkId, numRead, declared).client == target
        decreases cfg.maxNetworkedEntities - networkId
      {
        var b := ReadBit(bits);
        bits := b.1;
        if b.0 {
          numRead := numRead + 1;
          var found := FindEntity(entities, networkId);
          if found.Some? {
            var r := ReadEntityState(entities[found.value], bits);
            entities := entities[found.value := r.0];
            bits := r.1;
          } else {
            RequestEntityById(networkId);
          }
        }
        if numRead >= declared {
          return;
        }
        networkId := networkId + 1;
      }
    }

    /** readMessage for a Gamestate: the staleness guard, then the decode. */
    method OnGamestateMessage(sequence: int, declared: int, body: seq<bool>)
      requires Valid()
      modifies this, requestedEntities
      ensures Valid()
      ensures Abs() == ReadGamestateStep(cfg, old(Abs()), sequence, declared, body)
    {
      var q := ToSequence(cfg, sequence);
      if cfg.sequenceLessThan(q, lastReceivedState) {
        return;
      }
      lastReceivedState := q;
      OnGameState(declared, body);
    }

    method OnSpawnEntity(networkId: int, owner: int, entityState: seq<bool>)
      requires Valid()
      modifies this, requestedEntities
      ensures Valid()
      ensures Abs() == SpawnStep(old(Abs()), networkId, owner, entityState)
    {
      if networkId > INDEX_NONE {
        var index := FindRequested(networkId);
        if index != INDEX_NONE {
          requestedEntities[index] := INDEX_NONE;
        }
        ClearRequestedProps(old(requestedEntities[..]), networkId);
        var found := FindEntity(entities, networkId);
        if found.Some? {
          return;
        }
        entities := entities + [Entity(networkId, owner, true, entityState)];
      }
    }

    method OnAcceptEntity(localId: int, remoteId: int)
      requires Valid()
      modifies this, requestedEntities
      ensures Valid()
      ensures Abs() == AcceptEntityStep(old(Abs()), localId, remoteId)
    {
      var index := FindRequested(localId);
      if index != INDEX_NONE {
        requestedEntities[index] := INDEX_NONE;
      }
      ClearRequestedProps(old(requestedEntities[..]), localId);
      var found := FindEntity(entities, localId);
      if found.Some? {
        entities := entities[found.value := entities[found.value].(networkId := remoteId)];
      }
    }

    method OnDestroyEntity(networkId: int)
      requires Valid()
      modifies this
      ensures Valid()
      ensures Abs() == DestroyStep(cfg, old(Abs()), networkId)
    {
      if networkId < -cfg.maxSpawnPredictedEntities || networkId > cfg.maxNetworkedEntities {
        return;
      }
      var found := FindEntity(entities, networkId);
      if found.Some? {
        entities := entities[found.value := entities[found.value].(alive := false)];
      }
    }

    method OnConnectionEstablished()
      requires Valid()
      modifies this
      ensures Valid()
      ensures Abs() == ConnectionEstablishedStep(old(Abs()))
    {
      if state != Connecting {
        return;
      }
      state := Connected;
      lastFrameSent := lastFrameSimulated;
      outbox := outbox + [IntroducePlayer(|localPlayers|)];
    }

    method OnAcceptPlayer(ids: seq<int>)
      requires Valid()
      modifies this
      ensures Valid()
      ensures Abs() == AcceptPlayerStep(old(Abs()), ids)
    {
      if |localPlayers| > 0 && localPlayers[0].playerId != INDEX_NONE {
        return;
      }
      var k := 0;
      while k < |localPlayers|
        invariant 0 <= k <= |localPlayers| == |old(localPlayers)|
        invariant Abs() == old(Abs()).(localPlayers := localPlayers)
        invariant forall j :: 0 <= j < k ==> localPlayers[j] == old(localPlayers)[j].(playerId := ReadInt16At(ids, j))
        invariant forall j :: k <= j < |localPlayers| ==> localPlayers[j] == old(localPlayers)[j]
      {
        localPlayers := localPlayers[k := localPlayers[k].(playerId := ReadInt16At(ids, k))];
        k := k + 1;
      }
    }

    /** readMessage: dispatch on the message type. */
    method ReadMessage(m: Incoming)
      requires Valid()
      modifies this, requestedEntities
      ensures Valid()
      ensures Abs() == ReadMessageStep(cfg, old(Abs()), m)
    {
      match m
      case Gamestate(sequence, declared, body) => OnGamestateMessage(sequence, declared, body);
      case SpawnEntity(networkId, owner, entityState) => OnSpawnEntity(networkId, owner, entityState);
      case AcceptEntity(localId, remoteId) => OnAcceptEntity(localId, remoteId);
      case DestroyEntity(networkId) => OnDestroyEntity(networkId);
      case AcceptClient(_) => OnConnectionEstablished();
      case AcceptPlayer(ids) => OnAcceptPlayer(ids);
      case ClockSync(_, _) =>
      case NoHandler =>
    }

    /** readMessages: handles the connection's messages in order. */
    method ReadMessages(messages: seq<Incoming>)
      requires Valid()
      modifies this, requestedEntities
      ensures Valid()
      ensures Abs() == ReadMessagesStep(cfg, old(Abs()), messages)
    {
      var i := 0;
      while i < |messages|
        invariant 0 <= i <= |messages|
        invariant Valid()
        invariant ReadMessagesStep(cfg, Abs(), messages[i..]) == ReadMessagesStep(cfg, old(Abs()), messages)
      {
        assert messages[i..][1..] == messages[i + 1..];
        ReadMessage(messages[i]);
        i := i + 1;
      }
    }

    // -------------------------------------------------------------------------
    // Session

    method Connect(socketInitialized: bool)
      requires Valid()
      modifies this
      ensures Valid()
      ensures Abs() == ConnectStep(old(Abs()), socketInitialized)
    {
      if state != Disconnected {
        return;
      }
      if socketInitialized {
        hasConnection := true;
        state := Connecting;
      }
    }

    method Disconnect()
      requires Valid()
      modifies this
      ensures Valid()
      ensures Abs() == DisconnectStep(old(Abs()))
    {
      state := if DisconnectGuardRejects(state) then state else Disconnecting;
    }

    method OnConnectionCallback(callback: ConnectionCallback)
      requires Valid()
      modifies this
      ensures Valid()
      ensures Abs() == ConnectionCallbackStep(old(Abs()), callback)
    {
      match callback
      case ConnectionEstablished => state := Connected;
      case ConnectionFailed => Disconnect();
      case ConnectionLost => Disconnect();
      case ConnectionReceived =>
    }

    // -------------------------------------------------------------------------
    // Local players

    method AddLocalPlayer(controllerId: int, listenMouseKB: bool) returns (index: nat)
      requires Valid() && |localPlayers| < cfg.maxPlayersPerClient
      modifies this
      ensures Valid()
      ensures Abs() == AddLocalPlayerStep(cfg, old(Abs()), controllerId, listenMouseKB)
      ensures index == |old(localPlayers)| && index < |localPlayers|
      ensures localPlayers[index] == LocalPlayer(INDEX_NONE, controllerId, listenMouseKB)
    {
      index := |localPlayers|;
      localPlayers := localPlayers + [NewLocalPlayer().(controllerId := controllerId, listenMouseKB := listenMouseKB)];
    }

    method GetNumLocalPlayers() returns (n: nat)
      ensures n == |localPlayers|
    {
      n := |localPlayers|;
    }

    /** getLocalPlayer(int16_t): the first local player with the id. */
    method GetLocalPlayer(playerId: int) returns (r: Option<nat>)
      ensures r == FindLocalPlayer(localPlayers, Int16(playerId))
      ensures r.Some? ==> r.value < |localPlayers| && localPlayers[r.value].playerId == Int16(playerId)
      ensures r.None? <==> forall j :: 0 <= j < |localPlayers| ==> localPlayers[j].playerId != Int16(playerId)
    {
      var id := Int16(playerId);
      var k := 0;
      while k < |localPlayers|
        invariant 0 <= k <= |localPlayers|
        invariant forall j :: 0 <= j < k ==> localPlayers[j].playerId != id
      {
        if localPlayers[k].playerId == id {
          return Some(k);
        }
        k := k + 1;
      }
      return None;
    }

    method IsLocalPlayer(playerId: int) returns (b: bool)
      ensures b <==> exists j :: 0 <= j < |localPlayers| && localPlayers[j].playerId == Int16(playerId)
    {
      var r := GetLocalPlayer(playerId);
      b := r.Some?;
    }

    // -------------------------------------------------------------------------
    // Owned-entity sync, input, simulation

    method SyncOwnedEntities(playerId: int)
      requires Valid()
      modifies this
      ensures Valid()
      ensures Abs() == SyncOwnedStep(old(Abs()), Int16(playerId))
    {
      var id := Int16(playerId);
      var owned: seq<Entity> := [];
      var i := 0;
      while i < |entities|
        invariant 0 <= i <= |entities|
        invariant owned == OwnedBy(entities[..i], id)
      {
        assert entities[..i + 1][..i] == entities[..i];
        if entities[i].ownerPlayerId == id {
          owned := owned + [entities[i]];
        }
        i := i + 1;
      }
      assert entities[..i] == entities;
      if |owned| > 0 {
        outbox := outbox + [OwnedGamestate(|owned|, owned)];
      }
    }

    method ReadInput(poll: (int, bool) -> ActionBuffer)
      requires Valid()
      modifies this
      ensures Valid()
      ensures Abs() == ReadInputFrom(old(Abs()), poll, 0)
    {
      var p := 0;
      while p < |localPlayers|
        invariant 0 <= p <= |localPlayers|
        invariant localPlayers == old(localPlayers)
        invariant Abs() == old(Abs()).(pendingActions := pendingActions)
        invariant ReadInputFrom(Abs(), poll, p) == ReadInputFrom(old(Abs()), poll, 0)
      {
        var player := localPlayers[p];
        var pid := player.playerId;
        pendingActions := pendingActions[pid := Pending(pendingActions, pid) + poll(player.controllerId, player.listenMouseKB)];
        p := p + 1;
      }
    }

    method SendPlayerActions()
      requires Valid()
      modifies this
      ensures Valid()
      ensures Abs() == SendPlayerActionsStep(cfg, old(Abs()))
    {
      if cfg.sequenceLessThan(lastFrameSimulated, lastFrameSent) || cfg.isServer {
        return;
      }
      if lastFrameSent !in history {
        return;
      }
      var frame := lastFrameSent;
      var numFramesToSend := Int16(lastFrameSimulated - lastFrameSent);
      ghost var target := SendFrames(cfg, Abs(), frame, 0, numFramesToSend);
      assert target == SendPlayerActionsStep(cfg, old(Abs()));
      var i := 0;
      while i < numFramesToSend
        invariant 0 <= i
        invariant Valid()
        invariant SendFrames(cfg, Abs(), frame, i, numFramesToSend) == target
        decreases numFramesToSend - i
      {
        var frameId := Int16(lastFrameSent + i);
        ghost var next := SendInputsForPlayers(Abs(), frame + i, frameId, 0).(lastFrameSent := ToSequence(cfg, frameId));
        SendFramesUnfold(cfg, Abs(), frame, i, numFramesToSend, frameId);
        SendFrame(frame + i, frameId);
        assert Abs() == next;
        i := i + 1;
      }
      assert SendFrames(cfg, Abs(), frame, i, numFramesToSend) == Abs();
    }

    /** One iteration of sendPlayerActions' frame loop: the frame's inputs
        are sent and lastFrameSent becomes the label just written. */
    method SendFrame(frameKey: int, frameId: int)
      requires Valid()
      modifies this
      ensures Valid()
      ensures Abs() == SendInputsForPlayers(old(Abs()), frameKey, frameId, 0).(lastFrameSent := ToSequence(cfg, frameId))
    {
      SendFrameInputs(frameKey, frameId);
      lastFrameSent := ToSequence(cfg, frameId);
    }

    /** The inner loop of sendPlayerActions: one PlayerInput per local
        player for the frame stored under frameKey, each buffer then cleared. */
    method SendFrameInputs(frameKey: int, frameId: int)
      requires Valid()
      modifies this
      ensures Valid()
      ensures Abs() == SendInputsForPlayers(old(Abs()), frameKey, frameId, 0)
    {
      var p := 0;
      while p < |localPlayers|
        invariant 0 <= p <= |localPlayers|
        invariant Abs() == old(Abs()).(outbox := outbox, history := history)
        invariant SendInputsForPlayers(Abs(), frameKey, frameId, p) == SendInputsForPlayers(old(Abs()), frameKey, frameId, 0)
      {
        var pid := localPlayers[p].playerId;
        outbox := outbox + [PlayerInput(Int16(pid), frameId, FrameActions(history, frameKey, pid))];
        history := ClearFrameActions(history, frameKey, pid);
        p := p + 1;
      }
    }

    method Simulate(frameId: int)
      requires Valid()
      modifies this
      ensures Valid()
      ensures Abs() == SimulateStep(old(Abs()), frameId)
    {
      history := history[frameId := map[]];
      if state == Connected {
        ghost var target := SimulatePlayers(Abs(), frameId, 0);
        var p := 0;
        while p < |localPlayers|
          invariant Valid()
          invariant 0 <= p <= |localPlayers|
          invariant frameId in history
          invariant SimulatePlayers(Abs(), frameId, p) == target
        {
          SimulateLocalPlayer(frameId, p);
          p := p + 1;
        }
      }
      lastFrameSimulated := frameId;
    }

    /** One iteration of simulate's player loop: the p-th player's pending
        actions, when there are any, go into the frame and to the game. */
    method SimulateLocalPlayer(frameId: int, p: nat)
      requires Valid() && frameId in history && p < |localPlayers|
      modifies this
      ensures Valid()
      ensures Abs() == SimulatePlayer(old(Abs()), frameId, p)
    {
      var pid := localPlayers[p].playerId;
      var acts := Pending(pendingActions, pid);
      if |acts| != 0 {
        history := history[frameId := history[frameId][pid := FrameActions(history, frameId, pid) + acts]];
        processedActions := processedActions + [(pid, acts)];
        pendingActions := pendingActions[pid := []];
      }
    }

    /** update: one tick, with the incoming messages the connection yields,
        the input hook, and whether the input interval has elapsed. */
    method Update(incoming: seq<Incoming>, poll: (int, bool) -> ActionBuffer, inputDue: bool)
      requires Valid()
      modifies this, requestedEntities
      ensures Valid()
      ensures Abs() == UpdateStep(cfg, old(Abs()), incoming, poll, inputDue)
    {
      if state == Disconnected {
        return;
      }
      ReadMessages(incoming);
      ReadInput(poll);
      if state == Connected && inputDue {
        SendPlayerActions();
        ghost var target := SyncAllOwned(Abs(), 0);
        var p := 0;
        while p < |localPlayers|
          invariant 0 <= p <= |localPlayers|
          invariant Valid()
          invariant SyncAllOwned(Abs(), p) == target
        {
          SyncOwnedEntities(localPlayers[p].playerId);
          p := p + 1;
        }
      }
    }
  }
}
