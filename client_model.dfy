/** The client's session and entity-synchronisation logic as values: the data
    the client keeps, the messages it exchanges, and one step function per
    operation, each giving the client state after that operation. The class in
    NetworkClient is proved against these functions; the lemmas here state
    what the operations promise. */
module ClientModel {
  import opened Utility

  const INDEX_NONE: int := -1
  /** -1 is reserved for INDEX_NONE, so temporary ids start one below it. */
  const FIRST_TEMP_NETWORK_ID: int := -2
  /** Capacity of the recently-processed ring. */
  const SEQUENCE_MEMORY_SIZE: nat := 256
  /** Capacity of the recently-destroyed ring. */
  const RECENTLY_DESTROYED_SIZE: nat := 32

  /** Narrowing to int16_t: two's complement wrap-around. */
  function Int16(x: int): (r: int)
    ensures -0x8000 <= r < 0x8000
    ensures -0x8000 <= x < 0x8000 ==> r == x
  {
    (x + 0x8000) % 0x1_0000 - 0x8000
  }

  // ---------------------------------------------------------------------------
  // Data

  datatype State = Disconnected | Connecting | Connected | Disconnecting

  datatype LocalPlayer = LocalPlayer(playerId: int, controllerId: int, listenMouseKB: bool)

  /** LocalPlayer(): no server-assigned player id and no controller yet. */
  function NewLocalPlayer(): (p: LocalPlayer)
    ensures p.playerId == INDEX_NONE && p.controllerId == INDEX_NONE
  {
    LocalPlayer(INDEX_NONE, INDEX_NONE, false)
  }

  /** An entity as the client sees it through the entity collection: its
      network identity, its owner, whether it is alive, and the bits of its
      serialized state (whose length is fixed by the entity's kind). */
  datatype Entity = Entity(networkId: int, ownerPlayerId: int, alive: bool, state: seq<bool>)

  type ActionBuffer = seq<int>

  /** A frame of the client history: the action buffer of each player id. */
  type Frame = map<int, ActionBuffer>

  /** Messages the client sends. */
  datatype Message =
    | RequestEntity(networkId: int)
    | RequestPredictedEntity(tempId: int, fullState: Entity)  // a RequestEntity carrying a temporary id
    | PlayerInput(playerId: int, frameId: int, actions: ActionBuffer)
    | IntroducePlayer(numLocalPlayers: int)
    | OwnedGamestate(entityCount: int, owned: seq<Entity>)   // a Gamestate with the player's entities

  /** Messages the client receives, with their payloads already split into
      the values the handlers read; a Gamestate keeps its entity section as
      raw bits because the handler reads it bit by bit. */
  datatype Incoming =
    | Gamestate(sequence: int, declaredCount: int, body: seq<bool>)
    | SpawnEntity(networkId: int, ownerPlayerId: int, state: seq<bool>)
    | AcceptEntity(localId: int, remoteId: int)
    | DestroyEntity(networkId: int)
    | AcceptClient(clientId: int)
    | AcceptPlayer(playerIds: seq<int>)
    | ClockSync(pingSentTime: int, pongReceiveTime: int)
    | NoHandler   // KeepAlive, RequestEntity, IntroducePlayer, PlayerInput, None, ...

  datatype ConnectionCallback =
    ConnectionEstablished | ConnectionFailed | ConnectionLost | ConnectionReceived

  /** Constants and collaborators whose definitions are not part of this
      model: s_maxNetworkedEntities, s_maxSpawnPredictedEntities,
      s_maxPlayersPerClient, the capacity of the requested-entities set, the
      number of distinct Sequence values, Network::isServer() and
      sequenceLessThan. */
  datatype Config = Config(
    maxNetworkedEntities: int,
    maxSpawnPredictedEntities: int,
    maxPlayersPerClient: nat,
    requestedCapacity: nat,
    sequenceModulus: int,
    isServer: bool,
    sequenceLessThan: (int, int) -> bool)

  predicate ValidConfig(cfg: Config) {
    cfg.maxNetworkedEntities >= 0 && cfg.maxSpawnPredictedEntities >= 2 && cfg.sequenceModulus > 0
  }

  /** Conversion of an integer to the unsigned Sequence type. */
  function ToSequence(cfg: Config, x: int): (r: int)
    requires cfg.sequenceModulus > 0
    ensures 0 <= r < cfg.sequenceModulus
  {
    x % cfg.sequenceModulus
  }

  /** Everything a client operation reads or changes. `requested` is the
      requested-entities set slot by slot; `entities` is the entity
      collection; `processedActions` records the action buffers handed to the
      game; `outbox` is what was given to the connection to send. */
  datatype ClientState = ClientState(
    state: State,
    hasConnection: bool,
    lastFrameSent: int,
    lastFrameSimulated: int,
    lastReceivedState: int,
    requested: seq<int>,
    localPlayers: seq<LocalPlayer>,
    nextTempId: int,
    entities: seq<Entity>,
    history: map<int, Frame>,
    pendingActions: map<int, ActionBuffer>,
    processedActions: seq<(int, ActionBuffer)>,
    outbox: seq<Message>)

  predicate IsTempId(cfg: Config, id: int) {
    -cfg.maxSpawnPredictedEntities <= id <= FIRST_TEMP_NETWORK_ID
  }

  /** No network id is pending twice in the requested set. */
  predicate RequestedDistinct(req: seq<int>) {
    forall i, j :: 0 <= i < j < |req| && req[i] == req[j] ==> req[i] == INDEX_NONE
  }

  /** The invariant every operation keeps. */
  predicate ValidState(cfg: Config, s: ClientState) {
    IsTempId(cfg, s.nextTempId) && RequestedDistinct(s.requested)
  }

  // ---------------------------------------------------------------------------
  // Temporary network ids (getNextTempNetworkId)

  /** The id handed out and the counter's next value. */
  function NextTempId(cfg: Config, next: int): (int, int)
    requires ValidConfig(cfg)
  {
    var after := next - 1;
    (next, if after <= -cfg.maxSpawnPredictedEntities - 1 then FIRST_TEMP_NETWORK_ID else after)
  }

  /** Temporary ids lie in [-M, -2]: never INDEX_NONE, never an authoritative
      (non-negative) id, and within int16_t when M fits; the counter steps
      down by one and wraps from -M back to -2. */
  lemma TempIdBounds(cfg: Config, next: int)
    requires ValidConfig(cfg) && IsTempId(cfg, next)
    ensures IsTempId(cfg, NextTempId(cfg, next).0) && IsTempId(cfg, NextTempId(cfg, next).1)
    ensures NextTempId(cfg, next).0 != INDEX_NONE && NextTempId(cfg, next).0 < 0
    ensures cfg.maxSpawnPredictedEntities <= 0x8000 ==> -0x8000 <= NextTempId(cfg, next).0
    ensures NextTempId(cfg, next).1 ==
      if next == -cfg.maxSpawnPredictedEntities then FIRST_TEMP_NETWORK_ID else next - 1
  {
  }

  /** The counter after k allocations from its initial value. */
  function TempCounterAfter(cfg: Config, k: nat): int
    requires ValidConfig(cfg)
  {
    if k == 0 then FIRST_TEMP_NETWORK_ID else NextTempId(cfg, TempCounterAfter(cfg, k - 1)).1
  }

  /** The ids cycle -2, -3, ..., -M, -2, ...: the k-th id handed out is
      -2 - (k mod (M - 1)). */
  lemma {:induction false} TempIdsCycle(cfg: Config, k: nat)
    requires ValidConfig(cfg)
    ensures TempCounterAfter(cfg, k) == FIRST_TEMP_NETWORK_ID - k % (cfg.maxSpawnPredictedEntities - 1)
  {
    var m := cfg.maxSpawnPredictedEntities - 1;
    if k > 0 {
      TempIdsCycle(cfg, k - 1);
      ModSucc(k - 1, m);
    }
  }

  lemma ModSucc(a: nat, m: int)
    requires m >= 1
    ensures (a + 1) % m == if a % m == m - 1 then 0 else a % m + 1
  {
    var q, r := a / m, a % m;
    assert a == q * m + r;
    if r + 1 < m {
      DivModUnique(a + 1, m, q, r + 1);
    } else {
      assert a + 1 == (q + 1) * m + 0;
      DivModUnique(a + 1, m, q + 1, 0);
    }
  }

  // ---------------------------------------------------------------------------
  // The requested-entities set: fixed slots, INDEX_NONE marks a free one

  /** find: the first slot holding x, or INDEX_NONE. */
  function FindSlot(req: seq<int>, x: int): (r: int)
    ensures r == INDEX_NONE <==> x !in req
    ensures r != INDEX_NONE ==> 0 <= r < |req| && req[r] == x
    ensures r != INDEX_NONE ==> forall j :: 0 <= j < r ==> req[j] != x
  {
    match FirstMatch(req, (y: int) => y == x)
    case None => INDEX_NONE
    case Some(i) => i
  }

  /** insert: x goes into the first free slot; a full set is left as it is. */
  function InsertRequested(req: seq<int>, x: int): seq<int> {
    var k := FindSlot(req, INDEX_NONE);
    if k == INDEX_NONE then req else req[k := x]
  }

  /** Clearing the first slot that holds x. */
  function ClearRequested(req: seq<int>, x: int): seq<int> {
    var k := FindSlot(req, x);
    if k == INDEX_NONE then req else req[k := INDEX_NONE]
  }

  lemma InsertRequestedProps(req: seq<int>, x: int)
    requires x != INDEX_NONE && x !in req
    ensures RequestedDistinct(req) ==> RequestedDistinct(InsertRequested(req, x))
    ensures |InsertRequested(req, x)| == |req|
    ensures INDEX_NONE in req <==> x in InsertRequested(req, x)
    ensures forall y :: y != INDEX_NONE && y in req ==> y in InsertRequested(req, x)
    ensures forall y :: y != x && y in InsertRequested(req, x) ==> y in req
  {
    var k := FindSlot(req, INDEX_NONE);
    if k != INDEX_NONE {
      var r := req[k := x];
      assert r[k] == x;
      forall y | y != INDEX_NONE && y in req ensures y in r {
        var i :| 0 <= i < |req| && req[i] == y;
        assert r[i] == y;
      }
      forall y | y != x && y in r ensures y in req {
        var i :| 0 <= i < |r| && r[i] == y;
        assert req[i] == y;
      }
    }
  }

  lemma ClearRequestedProps(req: seq<int>, x: int)
    requires RequestedDistinct(req)
    ensures RequestedDistinct(ClearRequested(req, x))
    ensures |ClearRequested(req, x)| == |req|
    ensures x != INDEX_NONE ==> x !in ClearRequested(req, x)
    ensures forall y :: y != x ==> (y in req ==> y in ClearRequested(req, x))
    ensures forall y :: y != INDEX_NONE && y in ClearRequested(req, x) ==> y in req
  {
    var k := FindSlot(req, x);
    if k != INDEX_NONE {
      var r := req[k := INDEX_NONE];
      forall y | y != x && y in req ensures y in r {
        var i :| 0 <= i < |req| && req[i] == y;
        assert r[i] == y;
      }
      forall y | y != INDEX_NONE && y in r ensures y in req {
        var i :| 0 <= i < |r| && r[i] == y;
        assert req[i] == y;
      }
    }
  }

  /** In a distinct set, clearing x frees exactly the slot that held it. */
  lemma ClearRequestedSlots(req: seq<int>, x: int)
    requires RequestedDistinct(req)
    ensures |ClearRequested(req, x)| == |req|
    ensures forall k :: 0 <= k < |req| ==>
      ClearRequested(req, x)[k] == if req[k] == x then INDEX_NONE else req[k]
  {
    var i := FindSlot(req, x);
    if i != INDEX_NONE {
      forall k | 0 <= k < |req| && req[k] == x && k != i
        ensures x == INDEX_NONE
      {
        if k > i { assert req[i] == req[k]; }
      }
    }
  }

  /** requestEntity(netId): asks for an entity at most once while it is pending. */
  function RequestEntityStep(s: ClientState, netId: int): ClientState {
    if netId in s.requested then s
    else s.(requested := InsertRequested(s.requested, netId),
            outbox := s.outbox + [RequestEntity(netId)])
  }

  /** A request sends exactly one RequestEntity when the id is not pending and
      nothing otherwise; when the set has room (or already holds the id),
      repeating the request changes nothing and sends nothing. */
  lemma RequestEntityIdempotent(s: ClientState, netId: int)
    requires netId != INDEX_NONE && RequestedDistinct(s.requested)
    requires netId in s.requested || INDEX_NONE in s.requested
    ensures netId in RequestEntityStep(s, netId).requested
    ensures RequestEntityStep(RequestEntityStep(s, netId), netId) == RequestEntityStep(s, netId)
    ensures RequestEntityStep(s, netId).outbox ==
      if netId in s.requested then s.outbox else s.outbox + [RequestEntity(netId)]
    ensures var t := RequestEntityStep(s, netId);
      && t == s.(requested := t.requested, outbox := t.outbox)
      && RequestedDistinct(t.requested)
      && SlotsKept(s.requested, t.requested)
      && (forall y :: y != netId && y != INDEX_NONE ==> (y in s.requested <==> y in t.requested))
      && (netId !in s.requested ==> t.requested[FindSlot(s.requested, INDEX_NONE)] == netId)
  {
    if netId !in s.requested {
      InsertRequestedProps(s.requested, netId);
      var k := FindSlot(s.requested, INDEX_NONE);
      assert SlotsKept(s.requested, s.requested[k := netId]);
    }
  }

  /** requestEntity(Entity*): the entity takes the next temporary id and is
      announced with its full state; the id is not entered in the requested
      set. */
  function RequestPredictedStep(cfg: Config, s: ClientState, index: nat): ClientState
    requires ValidConfig(cfg) && index < |s.entities|
  {
    var ids := NextTempId(cfg, s.nextTempId);
    var e := s.entities[index].(networkId := ids.0);
    s.(nextTempId := ids.1,
       entities := s.entities[index := e],
       outbox := s.outbox + [RequestPredictedEntity(ids.0, e)])
  }

  lemma RequestPredictedProps(cfg: Config, s: ClientState, index: nat)
    requires ValidConfig(cfg) && ValidState(cfg, s) && index < |s.entities|
    ensures var t := RequestPredictedStep(cfg, s, index);
      && ValidState(cfg, t)
      && IsTempId(cfg, t.entities[index].networkId)
      && t.entities[index].networkId == s.nextTempId
      && t.requested == s.requested
      && t.outbox == s.outbox + [RequestPredictedEntity(s.nextTempId, t.entities[index])]
      && t == s.(nextTempId := t.nextTempId, entities := t.entities, outbox := t.outbox)
      && t.nextTempId == NextTempId(cfg, s.nextTempId).1
      && |t.entities| == |s.entities|
      && t.entities[index] == s.entities[index].(networkId := s.nextTempId)
      && (forall j :: 0 <= j < |s.entities| && j != index ==> t.entities[j] == s.entities[j])
  {
    TempIdBounds(cfg, s.nextTempId);
  }

  // ---------------------------------------------------------------------------
  // Entity lookup

  /** The first entity with the given network id (findPtrByPredicate over the
      entity collection). */
  function FindEntity(entities: seq<Entity>, networkId: int): (r: Option<nat>)
    ensures r.Some? ==> r.value < |entities| && entities[r.value].networkId == networkId
    ensures r.Some? ==> forall j :: 0 <= j < r.value ==> entities[j].networkId != networkId
    ensures r.None? <==> forall j :: 0 <= j < |entities| ==> entities[j].networkId != networkId
  {
    FirstMatch(entities, (e: Entity) => e.networkId == networkId)
  }

  /** Two collections that differ only in entity payloads. */
  predicate SameIdentities(a: seq<Entity>, b: seq<Entity>) {
    |a| == |b| && forall i :: 0 <= i < |a| ==> b[i] == a[i].(state := b[i].state)
  }

  lemma FindEntitySameIdentities(a: seq<Entity>, b: seq<Entity>, x: int)
    requires SameIdentities(a, b)
    ensures FindEntity(a, x) == FindEntity(b, x)
  {
  }

  // ---------------------------------------------------------------------------
  // Gamestate snapshots (readMessage's staleness guard and onGameState)

  /** serializeBit on a read stream; reading past the end gives 0. */
  function ReadBit(bits: seq<bool>): (r: (bool, seq<bool>))
    ensures |r.1| == if bits == [] then 0 else |bits| - 1
  {
    if bits == [] then (false, []) else (bits[0], bits[1..])
  }

  /** Reads n bits; bits past the end of the stream read as 0. */
  function ReadBits(bits: seq<bool>, n: nat): (r: (seq<bool>, seq<bool>))
    ensures |r.0| == n
  {
    if n <= |bits| then (bits[..n], bits[n..]) else (bits + seq(n - |bits|, _ => false), [])
  }

  /** serializeEntity in read mode: the entity's state is read from the stream. */
  function ReadEntityState(e: Entity, bits: seq<bool>): (Entity, seq<bool>) {
    var r := ReadBits(bits, |e.state|);
    (e.(state := r.0), r.1)
  }

  /** The handling of one set present-bit for id: a known entity reads its
      state from the stream, an unknown id is requested and its payload is
      left in the stream. */
  function ApplyPresent(s: ClientState, id: int, bits: seq<bool>): (ClientState, seq<bool>) {
    match FindEntity(s.entities, id)
    case Some(i) =>
      var r := ReadEntityState(s.entities[i], bits);
      (s.(entities := s.entities[i := r.0]), r.1)
    case None => (RequestEntityStep(s, id), bits)
  }

  /** Where a scan stopped: the state, one past the last id visited, the
      number of present-bits read, and the ids whose present-bit was set, in
      the order they were read. */
  datatype ScanResult = ScanResult(client: ClientState, nextId: int, read: int, present: seq<int>)

  /** The id scan of onGameState from id onwards, with read present-bits
      already counted. */
  function ScanFrom(cfg: Config, s: ClientState, bits: seq<bool>, id: int, read: int, declared: int): ScanResult
    requires ValidConfig(cfg) && 0 <= id <= cfg.maxNetworkedEntities
    decreases cfg.maxNetworkedEntities - id
  {
    if id == cfg.maxNetworkedEntities then ScanResult(s, id, read, [])
    else
      var st := ScanStep(s, id, bits);
      var read' := if st.marked then read + 1 else read;
      var mark := if st.marked then [id] else [];
      if read' >= declared then ScanResult(st.client, id + 1, read', mark)
      else
        var r := ScanFrom(cfg, st.client, st.rest, id + 1, read', declared);
        ScanResult(r.client, r.nextId, r.read, mark + r.present)
  }

  /** One id of the scan: the state after it, the rest of the stream, and
      whether its present-bit was set. */
  datatype StepResult = StepResult(client: ClientState, rest: seq<bool>, marked: bool)

  function ScanStep(s: ClientState, id: int, bits: seq<bool>): StepResult {
    var b := ReadBit(bits);
    if b.0 then
      var a := ApplyPresent(s, id, b.1);
      StepResult(a.0, a.1, true)
    else StepResult(s, b.1, false)
  }

  /** onGameState: a declared count outside 1..s_maxNetworkedEntities is
      ignored; otherwise ids are scanned from 0. */
  function GameStateStep(cfg: Config, s: ClientState, declared: int, body: seq<bool>): ClientState
    requires ValidConfig(cfg)
  {
    if declared <= 0 || declared > cfg.maxNetworkedEntities then s
    else ScanFrom(cfg, s, body, 0, 0, declared).client
  }

  /** readMessage for a Gamestate: one older than the last applied is
      discarded; otherwise its sequence is recorded before decoding. */
  function ReadGamestateStep(cfg: Config, s: ClientState, sequence: int, declared: int, body: seq<bool>): ClientState
    requires ValidConfig(cfg)
  {
    var q := ToSequence(cfg, sequence);
    if cfg.sequenceLessThan(q, s.lastReceivedState) then s
    else GameStateStep(cfg, s.(lastReceivedState := q), declared, body)
  }

  /** The RequestEntity messages a scan over ids [lo, hi) appended: each for
      an id in range, with no local entity and not already pending, in
      strictly increasing id order. */
  predicate NewRequests(s: ClientState, t: ClientState, lo: int, hi: int) {
    && |s.outbox| <= |t.outbox| && t.outbox[..|s.outbox|] == s.outbox
    && (forall k :: |s.outbox| <= k < |t.outbox| ==>
          && t.outbox[k].RequestEntity?
          && lo <= t.outbox[k].networkId < hi
          && t.outbox[k].networkId !in s.requested
          && FindEntity(s.entities, t.outbox[k].networkId).None?)
    && (forall k1, k2 :: |s.outbox| <= k1 < k2 < |t.outbox| ==>
          t.outbox[k1].RequestEntity? && t.outbox[k2].RequestEntity? &&
          t.outbox[k1].networkId < t.outbox[k2].networkId)
  }

  /** What a scan may change: entity payloads, the requested set (which only
      gains ids) and the outbox (which only gains requests). */
  predicate ScanEffect(s: ClientState, t: ClientState, lo: int, hi: int) {
    && t == s.(entities := t.entities, requested := t.requested, outbox := t.outbox)
    && SameIdentities(s.entities, t.entities)
    && |t.requested| == |s.requested|
    && (forall x :: x != INDEX_NONE && x in s.requested ==> x in t.requested)
    && (RequestedDistinct(s.requested) ==> RequestedDistinct(t.requested))
    && NewRequests(s, t, lo, hi)
  }

  /** Filled slots of the requested set keep their ids: an insert only ever
      writes a free slot. */
  predicate SlotsKept(a: seq<int>, b: seq<int>) {
    |a| == |b| && forall k :: 0 <= k < |a| && a[k] != INDEX_NONE ==> b[k] == a[k]
  }

  lemma SlotsKeptTrans(a: seq<int>, b: seq<int>, c: seq<int>)
    requires SlotsKept(a, b) && SlotsKept(b, c)
    ensures SlotsKept(a, c)
  {
  }

  /** A set that still has a free slot had one before. */
  lemma SlotsKeptFree(a: seq<int>, b: seq<int>)
    requires SlotsKept(a, b) && INDEX_NONE in b
    ensures INDEX_NONE in a
  {
    var k :| 0 <= k < |b| && b[k] == INDEX_NONE;
    assert a[k] == INDEX_NONE;
  }

  /** A set present-bit for a known entity reads that entity's state from
      the stream and nothing else; for an id with no entity it requests the
      id (sending one RequestEntity when it is not pending, and storing it
      when a slot is free) and leaves the stream where it was. */
  lemma ApplyPresentEffect(s: ClientState, id: int, bits: seq<bool>)
    requires 0 <= id
    ensures ScanEffect(s, ApplyPresent(s, id, bits).0, id, id + 1)
    ensures SlotsKept(s.requested, ApplyPresent(s, id, bits).0.requested)
    ensures forall x :: x != id && x != INDEX_NONE ==> (x in s.requested <==> x in ApplyPresent(s, id, bits).0.requested)
    ensures forall j :: 0 <= j < |s.entities| && s.entities[j].networkId != id ==>
      ApplyPresent(s, id, bits).0.entities[j] == s.entities[j]
    ensures FindEntity(s.entities, id).Some? ==>
      var i := FindEntity(s.entities, id).value;
      var r := ReadBits(bits, |s.entities[i].state|);
      && ApplyPresent(s, id, bits).0 == s.(entities := s.entities[i := s.entities[i].(state := r.0)])
      && ApplyPresent(s, id, bits).1 == r.1
    ensures FindEntity(s.entities, id).None? ==>
      var t := ApplyPresent(s, id, bits).0;
      && ApplyPresent(s, id, bits).1 == bits
      && (id in s.requested ==> t == s)
      && (id !in s.requested ==> t.outbox == s.outbox + [RequestEntity(id)])
      && (id !in s.requested && INDEX_NONE in s.requested ==> id in t.requested)
  {
    var t := ApplyPresent(s, id, bits).0;
    match FindEntity(s.entities, id)
    case Some(i) =>
      assert SameIdentities(s.entities, t.entities);
    case None =>
      if id !in s.requested {
        InsertRequestedProps(s.requested, id);
        var k := FindSlot(s.requested, INDEX_NONE);
        if k != INDEX_NONE {
          assert SlotsKept(s.requested, s.requested[k := id]);
        }
      }
  }

  lemma ScanEffectTrans(s: ClientState, t: ClientState, u: ClientState, lo: int, mid: int, hi: int)
    requires 0 <= lo <= mid <= hi
    requires ScanEffect(s, t, lo, mid) && ScanEffect(t, u, mid, hi)
    ensures ScanEffect(s, u, lo, hi)
  {
    assert SameIdentities(s.entities, u.entities) by {
      forall i | 0 <= i < |s.entities| ensures u.entities[i] == s.entities[i].(state := u.entities[i].state) {
        assert t.entities[i] == s.entities[i].(state := t.entities[i].state);
      }
    }
    assert u.outbox[..|t.outbox|] == t.outbox;
    assert u.outbox[..|s.outbox|] == s.outbox;
    forall k | |t.outbox| <= k < |u.outbox|
      ensures u.outbox[k].networkId !in s.requested
      ensures FindEntity(s.entities, u.outbox[k].networkId).None?
    {
      FindEntitySameIdentities(s.entities, t.entities, u.outbox[k].networkId);
    }
    forall k | |s.outbox| <= k < |t.outbox|
      ensures u.outbox[k] == t.outbox[k]
    {
      assert u.outbox[..|t.outbox|][k] == t.outbox[k];
    }
  }

  /** One id of the scan changes only what a scan may change. */
  lemma ScanStepEffect(s: ClientState, id: int, bits: seq<bool>)
    requires 0 <= id
    ensures ScanEffect(s, ScanStep(s, id, bits).client, id, id + 1)
  {
    var b := ReadBit(bits);
    if b.0 {
      ApplyPresentEffect(s, id, b.1);
    } else {
      assert ScanEffect(s, s, id, id + 1);
    }
  }

  /** One id of the scan: the request it sends, the lookups it keeps, and
      the entities it leaves alone. */
  lemma ScanStepRequests(s: ClientState, id: int, bits: seq<bool>)
    requires 0 <= id
    ensures var st := ScanStep(s, id, bits);
      && PendingAgreeExcept(s.requested, st.client.requested, id)
      && SameIdentities(s.entities, st.client.entities)
      && (forall j :: 0 <= j < |s.entities| && s.entities[j].networkId != id ==> st.client.entities[j] == s.entities[j])
      && RequestsSent(s, st.client, if st.marked then [id] else [])
  {
    var b := ReadBit(bits);
    if b.0 {
      ApplyPresentEffect(s, id, b.1);
    }
  }

  /** One id of the scan keeps filled slots and stores a missing id while a
      slot is free. */
  lemma ScanStepSlots(s: ClientState, id: int, bits: seq<bool>)
    requires 0 <= id
    ensures var st := ScanStep(s, id, bits);
      && SlotsKept(s.requested, st.client.requested)
      && (forall x :: x != id && x != INDEX_NONE ==> (x in s.requested <==> x in st.client.requested))
      && (forall x :: FindEntity(s.entities, x) == FindEntity(st.client.entities, x))
      && (st.marked && FindEntity(s.entities, id).None? && id !in s.requested && INDEX_NONE in s.requested ==>
            id in st.client.requested)
  {
    var st := ScanStep(s, id, bits);
    var b := ReadBit(bits);
    if b.0 {
      ApplyPresentEffect(s, id, b.1);
      forall x ensures FindEntity(s.entities, x) == FindEntity(st.client.entities, x) {
        FindEntitySameIdentities(s.entities, st.client.entities, x);
      }
    }
  }

  /** One id of the scan, then the rest of it. */
  lemma ScanFromUnfold(cfg: Config, s: ClientState, bits: seq<bool>, id: int, read: int, declared: int)
    requires ValidConfig(cfg) && 0 <= id < cfg.maxNetworkedEntities
    ensures var st := ScanStep(s, id, bits);
      var read' := if st.marked then read + 1 else read;
      var mark := if st.marked then [id] else [];
      ScanFrom(cfg, s, bits, id, read, declared)
        == if read' >= declared then ScanResult(st.client, id + 1, read', mark)
           else
             var r := ScanFrom(cfg, st.client, st.rest, id + 1, read', declared);
             ScanResult(r.client, r.nextId, r.read, mark + r.present)
  {
  }

  /** The scan visits ids upward and never reaches s_maxNetworkedEntities; it
      never counts more present-bits than declared and stops as soon as the
      count is reached. */
  lemma {:induction false} ScanFromBounds(cfg: Config, s: ClientState, bits: seq<bool>, id: int, read: int, declared: int)
    requires ValidConfig(cfg) && 0 <= id <= cfg.maxNetworkedEntities && 0 <= read < declared
    ensures var r := ScanFrom(cfg, s, bits, id, read, declared);
      && id <= r.nextId <= cfg.maxNetworkedEntities
      && read <= r.read <= declared
      && (r.nextId < cfg.maxNetworkedEntities ==> r.read == declared)
    decreases cfg.maxNetworkedEntities - id
  {
    if id < cfg.maxNetworkedEntities {
      var st := ScanStep(s, id, bits);
      var read' := if st.marked then read + 1 else read;
      ScanFromUnfold(cfg, s, bits, id, read, declared);
      if read' < declared {
        ScanFromBounds(cfg, st.client, st.rest, id + 1, read', declared);
      }
    }
  }

  /** What a scan from id may change: see ScanEffect over the ids visited. */
  predicate ChangedWithin(s: ClientState, r: ScanResult, id: int) {
    id <= r.nextId && ScanEffect(s, r.client, id, r.nextId)
  }

  lemma ChangedWithinPrepend(s: ClientState, t: ClientState, r: ScanResult, id: int, mark: seq<int>)
    requires 0 <= id
    requires ScanEffect(s, t, id, id + 1) && ChangedWithin(t, r, id + 1)
    ensures ChangedWithin(s, ScanResult(r.client, r.nextId, r.read, mark + r.present), id)
  {
    ScanEffectTrans(s, t, r.client, id, id + 1, r.nextId);
  }

  /** The scan changes only entity payloads, the requested set and the
      outbox, appending only requests for absent, not yet pending ids among
      those visited, in increasing order. */
  lemma {:induction false} ScanFromChanges(cfg: Config, s: ClientState, bits: seq<bool>, id: int, read: int, declared: int)
    requires ValidConfig(cfg) && 0 <= id <= cfg.maxNetworkedEntities && 0 <= read < declared
    ensures ChangedWithin(s, ScanFrom(cfg, s, bits, id, read, declared), id)
    decreases cfg.maxNetworkedEntities - id
  {
    if id < cfg.maxNetworkedEntities {
      var st := ScanStep(s, id, bits);
      var read' := if st.marked then read + 1 else read;
      var mark := if st.marked then [id] else [];
      ScanStepEffect(s, id, bits);
      ScanFromUnfold(cfg, s, bits, id, read, declared);
      if read' < declared {
        ScanFromChanges(cfg, st.client, st.rest, id + 1, read', declared);
        ChangedWithinPrepend(s, st.client, ScanFrom(cfg, st.client, st.rest, id + 1, read', declared), id, mark);
      }
    } else {
      assert ScanEffect(s, s, id, id);
    }
  }

  /** The bounds and the changes of a scan together. */
  lemma ScanFromEffect(cfg: Config, s: ClientState, bits: seq<bool>, id: int, read: int, declared: int)
    requires ValidConfig(cfg) && 0 <= id <= cfg.maxNetworkedEntities && 0 <= read < declared
    ensures var r := ScanFrom(cfg, s, bits, id, read, declared);
      && id <= r.nextId <= cfg.maxNetworkedEntities
      && read <= r.read <= declared
      && (r.nextId < cfg.maxNetworkedEntities ==> r.read == declared)
      && ScanEffect(s, r.client, id, r.nextId)
  {
    ScanFromBounds(cfg, s, bits, id, read, declared);
    ScanFromChanges(cfg, s, bits, id, read, declared);
  }

  /** The present ids of a scan from id that had counted read bits: one per
      bit counted, strictly increasing, among the ids visited; when the
      declared count is reached, the last id visited is the last one present. */
  predicate PresentOk(r: ScanResult, id: int, read: int, declared: int) {
    && id <= r.nextId
    && |r.present| == r.read - read
    && AscendingIn(r.present, id, r.nextId)
    && (r.read == declared ==> |r.present| > 0 && r.present[|r.present| - 1] == r.nextId - 1)
  }

  /** The present ids are the set present-bits the scan counted. */
  lemma {:induction false} ScanFromPresent(cfg: Config, s: ClientState, bits: seq<bool>, id: int, read: int, declared: int)
    requires ValidConfig(cfg) && 0 <= id <= cfg.maxNetworkedEntities && 0 <= read < declared
    ensures PresentOk(ScanFrom(cfg, s, bits, id, read, declared), id, read, declared)
    decreases cfg.maxNetworkedEntities - id
  {
    if id < cfg.maxNetworkedEntities {
      var st := ScanStep(s, id, bits);
      var read' := if st.marked then read + 1 else read;
      var mark := if st.marked then [id] else [];
      ScanFromUnfold(cfg, s, bits, id, read, declared);
      if read' < declared {
        ScanFromPresent(cfg, st.client, st.rest, id + 1, read', declared);
        PresentPrepend(ScanFrom(cfg, st.client, st.rest, id + 1, read', declared), id, mark, read, read', declared);
      }
    }
  }

  lemma PresentPrepend(r: ScanResult, id: int, mark: seq<int>, read: int, read': int, declared: int)
    requires mark == [] || mark == [id]
    requires read' == read + |mark| && read' < declared
    requires PresentOk(r, id + 1, read', declared)
    ensures PresentOk(ScanResult(r.client, r.nextId, r.read, mark + r.present), id, read, declared)
  {
    MarkPrepend(id, mark, r.present, r.nextId);
  }

  /** ps strictly increases and lies in [lo, hi). */
  predicate AscendingIn(ps: seq<int>, lo: int, hi: int) {
    && (forall k :: 0 <= k < |ps| ==> lo <= ps[k] < hi)
    && (forall k1, k2 :: 0 <= k1 < k2 < |ps| ==> ps[k1] < ps[k2])
  }

  /** Prepending the current id, when marked, to the later present ids
      keeps them increasing and within the ids visited. */
  lemma MarkPrepend(id: int, mark: seq<int>, ps: seq<int>, next: int)
    requires mark == [] || mark == [id]
    requires id < next
    requires AscendingIn(ps, id + 1, next)
    ensures AscendingIn(mark + ps, id, next)
    ensures |ps| > 0 ==> (mark + ps)[|mark + ps| - 1] == ps[|ps| - 1]
  {
    var p := mark + ps;
    forall k | 0 <= k < |p| ensures id <= p[k] < next {
      if k >= |mark| { assert p[k] == ps[k - |mark|]; }
    }
    forall k1, k2 | 0 <= k1 < k2 < |p| ensures p[k1] < p[k2] {
      assert p[k2] == ps[k2 - |mark|];
      if k1 >= |mark| { assert p[k1] == ps[k1 - |mark|]; }
    }
  }

  /** The RequestEntity messages for the ids in order that have no entity
      and are not pending in s. */
  function MissingRequests(s: ClientState, ids: seq<int>): seq<Message> {
    if ids == [] then []
    else
      var x := ids[0];
      (if FindEntity(s.entities, x).None? && x !in s.requested then [RequestEntity(x)] else [])
      + MissingRequests(s, ids[1..])
  }

  /** Only RequestEntity messages, each for one of the ids given, and only
      for ids that have no entity and are not pending. */
  lemma {:induction false} MissingRequestsOnly(s: ClientState, ids: seq<int>)
    ensures forall m :: m in MissingRequests(s, ids) ==>
      && m.RequestEntity? && m.networkId in ids
      && FindEntity(s.entities, m.networkId).None? && m.networkId !in s.requested
  {
    if ids != [] {
      MissingRequestsOnly(s, ids[1..]);
    }
  }

  /** Every id other than id and INDEX_NONE is pending in a exactly when it
      is pending in b. */
  ghost predicate PendingAgreeExcept(a: seq<int>, b: seq<int>, id: int) {
    forall x :: x != id && x != INDEX_NONE ==> (x in a <==> x in b)
  }

  lemma AppendAssoc<T>(a: seq<T>, b: seq<T>, c: seq<T>)
    ensures (a + b) + c == a + (b + c)
  {
  }

  /** Later ids see the same lookups after one step of the scan. */
  lemma MissingRequestsBeyond(s: ClientState, s1: ClientState, id: int, ids: seq<int>)
    requires 0 <= id
    requires PendingAgreeExcept(s.requested, s1.requested, id)
    requires SameIdentities(s.entities, s1.entities)
    requires forall k :: 0 <= k < |ids| ==> id + 1 <= ids[k]
    ensures MissingRequests(s, ids) == MissingRequests(s1, ids)
  {
    forall x | x in ids
      ensures FindEntity(s.entities, x) == FindEntity(s1.entities, x) && (x in s.requested <==> x in s1.requested)
    {
      var k :| 0 <= k < |ids| && ids[k] == x;
      FindEntitySameIdentities(s.entities, s1.entities, x);
    }
    MissingRequestsAgree(s, s1, ids);
  }

  lemma {:induction false} MissingRequestsAgree(s: ClientState, s1: ClientState, ids: seq<int>)
    requires forall x :: x in ids ==>
      FindEntity(s.entities, x) == FindEntity(s1.entities, x) && (x in s.requested <==> x in s1.requested)
    ensures MissingRequests(s, ids) == MissingRequests(s1, ids)
  {
    if ids != [] {
      MissingRequestsAgree(s, s1, ids[1..]);
    }
  }

  /** A scan sends exactly one RequestEntity for every present id that had
      no entity and was not pending, in the order read, and nothing else. */
  lemma {:induction false} ScanFromRequests(cfg: Config, s: ClientState, bits: seq<bool>, id: int, read: int, declared: int)
    requires ValidConfig(cfg) && 0 <= id <= cfg.maxNetworkedEntities && 0 <= read < declared
    ensures var r := ScanFrom(cfg, s, bits, id, read, declared);
      RequestsSent(s, r.client, r.present)
    decreases cfg.maxNetworkedEntities - id
  {
    if id < cfg.maxNetworkedEntities {
      var st := ScanStep(s, id, bits);
      var read' := if st.marked then read + 1 else read;
      ScanFromUnfold(cfg, s, bits, id, read, declared);
      if read' < declared {
        ScanFromRequests(cfg, st.client, st.rest, id + 1, read', declared);
        ScanFromPresent(cfg, st.client, st.rest, id + 1, read', declared);
        var r := ScanFrom(cfg, st.client, st.rest, id + 1, read', declared);
        RequestsPrepend(s, id, bits, r.client, r.present, r.nextId);
        var mark := if st.marked then [id] else [];
        assert RequestsSent(s, r.client, mark + r.present);
      } else {
        ScanStepRequests(s, id, bits);
      }
    }
  }

  /** t's outbox is s's followed by the requests for the ids of present
      that had no entity and were not pending in s. */
  predicate RequestsSent(s: ClientState, t: ClientState, present: seq<int>) {
    t.outbox == s.outbox + MissingRequests(s, present)
  }

  /** The requests of one id followed by those of the later ids. */
  lemma RequestsPrepend(s: ClientState, id: int, bits: seq<bool>, u: ClientState, q: seq<int>, next: int)
    requires 0 <= id
    requires RequestsSent(ScanStep(s, id, bits).client, u, q)
    requires AscendingIn(q, id + 1, next)
    ensures var mark := if ScanStep(s, id, bits).marked then [id] else [];
      RequestsSent(s, u, mark + q)
  {
    var st := ScanStep(s, id, bits);
    var mark := if st.marked then [id] else [];
    ScanStepRequests(s, id, bits);
    MissingRequestsBeyond(s, st.client, id, q);
    MissingRequestsAppend(s, mark, q);
    AppendAssoc(s.outbox, MissingRequests(s, mark), MissingRequests(s, q));
  }

  /** t keeps the entity count of s and rewrites only entities whose id is
      among present. */
  predicate EntitiesKept(s: ClientState, t: ClientState, present: seq<int>) {
    && |t.entities| == |s.entities|
    && forall j :: 0 <= j < |s.entities| && s.entities[j].networkId !in present ==>
         t.entities[j] == s.entities[j]
  }

  lemma ScanStepEntities(s: ClientState, id: int, bits: seq<bool>)
    requires 0 <= id
    ensures var st := ScanStep(s, id, bits);
      EntitiesKept(s, st.client, if st.marked then [id] else [])
  {
    ScanStepRequests(s, id, bits);
  }

  lemma EntitiesKeptTrans(s: ClientState, t: ClientState, u: ClientState, p: seq<int>, q: seq<int>)
    requires EntitiesKept(s, t, p) && EntitiesKept(t, u, q)
    ensures EntitiesKept(s, u, p + q)
  {
  }

  /** A scan rewrites only entities whose id was present. */
  lemma {:induction false} ScanFromEntities(cfg: Config, s: ClientState, bits: seq<bool>, id: int, read: int, declared: int)
    requires ValidConfig(cfg) && 0 <= id <= cfg.maxNetworkedEntities && 0 <= read < declared
    ensures var r := ScanFrom(cfg, s, bits, id, read, declared);
      EntitiesKept(s, r.client, r.present)
    decreases cfg.maxNetworkedEntities - id
  {
    if id < cfg.maxNetworkedEntities {
      var st := ScanStep(s, id, bits);
      var read' := if st.marked then read + 1 else read;
      var mark := if st.marked then [id] else [];
      ScanStepEntities(s, id, bits);
      ScanFromUnfold(cfg, s, bits, id, read, declared);
      if read' < declared {
        ScanFromEntities(cfg, st.client, st.rest, id + 1, read', declared);
        var r := ScanFrom(cfg, st.client, st.rest, id + 1, read', declared);
        EntitiesKeptTrans(s, st.client, r.client, mark, r.present);
      }
    }
  }

  lemma {:induction false} MissingRequestsAppend(s: ClientState, a: seq<int>, b: seq<int>)
    ensures MissingRequests(s, a + b) == MissingRequests(s, a) + MissingRequests(s, b)
  {
    if a != [] {
      assert (a + b)[1..] == a[1..] + b;
      MissingRequestsAppend(s, a[1..], b);
    } else {
      assert a + b == b;
    }
  }

  /** A scan stores every present id that had no entity and was not
      pending, unless the requested set ran out of free slots; filled slots
      are never overwritten. */
  lemma {:induction false} ScanFromRequested(cfg: Config, s: ClientState, bits: seq<bool>, id: int, read: int, declared: int)
    requires ValidConfig(cfg) && 0 <= id <= cfg.maxNetworkedEntities && 0 <= read < declared
    ensures var r := ScanFrom(cfg, s, bits, id, read, declared);
      StoredMissing(s, r.client, r.present)
    decreases cfg.maxNetworkedEntities - id
  {
    if id < cfg.maxNetworkedEntities {
      var st := ScanStep(s, id, bits);
      var read' := if st.marked then read + 1 else read;
      var mark := if st.marked then [id] else [];
      ScanStepStored(s, id, bits);
      ScanFromUnfold(cfg, s, bits, id, read, declared);
      if read' < declared {
        ScanFromRequested(cfg, st.client, st.rest, id + 1, read', declared);
        var r := ScanFrom(cfg, st.client, st.rest, id + 1, read', declared);
        StoredMissingTrans(s, st.client, r.client, id, mark, r.present);
      }
    }
  }

  /** Filled slots of s are kept in t, and while t still has a free slot,
      every id of present that had no entity and was not pending in s is
      pending in t. */
  ghost predicate StoredMissing(s: ClientState, t: ClientState, present: seq<int>) {
    && SlotsKept(s.requested, t.requested)
    && (INDEX_NONE in t.requested ==>
          forall x :: x in present && FindEntity(s.entities, x).None? && x !in s.requested ==>
            x in t.requested)
  }

  lemma ScanStepStored(s: ClientState, id: int, bits: seq<bool>)
    requires 0 <= id
    ensures var st := ScanStep(s, id, bits);
      var mark := if st.marked then [id] else [];
      && StoredMissing(s, st.client, mark)
      && (forall x :: FindEntity(s.entities, x) == FindEntity(st.client.entities, x))
      && PendingAgreeExcept(s.requested, st.client.requested, id)
      && (!st.marked ==> st.client.requested == s.requested)
  {
    var st := ScanStep(s, id, bits);
    ScanStepSlots(s, id, bits);
    if st.marked && INDEX_NONE in st.client.requested {
      SlotsKeptFree(s.requested, st.client.requested);
    }
  }

  lemma StoredMissingTrans(s: ClientState, t: ClientState, u: ClientState, id: int, mark: seq<int>, q: seq<int>)
    requires 0 <= id && (mark == [] || mark == [id])
    requires StoredMissing(s, t, mark) && StoredMissing(t, u, q)
    requires forall x :: FindEntity(s.entities, x) == FindEntity(t.entities, x)
    requires PendingAgreeExcept(s.requested, t.requested, id)
    requires mark == [] ==> t.requested == s.requested
    ensures StoredMissing(s, u, mark + q)
  {
    SlotsKeptTrans(s.requested, t.requested, u.requested);
    if INDEX_NONE in u.requested {
      SlotsKeptFree(t.requested, u.requested);
      forall x | x in mark + q && FindEntity(s.entities, x).None? && x !in s.requested
        ensures x in u.requested
      {
        if x != id || mark == [] {
          assert x in q;
          assert FindEntity(t.entities, x).None?;
        } else {
          var k :| 0 <= k < |t.requested| && t.requested[k] == id;
          assert u.requested[k] == id;
        }
      }
    }
  }


  /** A Gamestate older than the last applied one changes nothing; any other
      records its sequence and then changes only entity payloads, the
      requested set and the outbox, requesting only ids below
      s_maxNetworkedEntities that have no local entity. */
  lemma GamestateStaleness(cfg: Config, s: ClientState, sequence: int, declared: int, body: seq<bool>)
    requires ValidConfig(cfg)
    ensures var q := ToSequence(cfg, sequence);
      var t := ReadGamestateStep(cfg, s, sequence, declared, body);
      && (cfg.sequenceLessThan(q, s.lastReceivedState) ==> t == s)
      && (!cfg.sequenceLessThan(q, s.lastReceivedState) ==>
            t.lastReceivedState == q
            && ScanEffect(s.(lastReceivedState := q), t, 0, cfg.maxNetworkedEntities))
  {
    var q := ToSequence(cfg, sequence);
    var s1 := s.(lastReceivedState := q);
    if !cfg.sequenceLessThan(q, s.lastReceivedState) {
      if declared <= 0 || declared > cfg.maxNetworkedEntities {
        assert ScanEffect(s1, s1, 0, cfg.maxNetworkedEntities);
      } else {
        ScanFromEffect(cfg, s1, body, 0, 0, declared);
        var r := ScanFrom(cfg, s1, body, 0, 0, declared);
        assert ScanEffect(s1, r.client, 0, r.nextId);
      }
    }
  }

  /** A Gamestate whose sequence equals the last applied one is decoded, not
      discarded, whenever sequenceLessThan is irreflexive. */
  lemma EqualSequenceIsApplied(cfg: Config, s: ClientState, declared: int, body: seq<bool>)
    requires ValidConfig(cfg) && 0 <= s.lastReceivedState < cfg.sequenceModulus
    requires !cfg.sequenceLessThan(s.lastReceivedState, s.lastReceivedState)
    ensures ReadGamestateStep(cfg, s, s.lastReceivedState, declared, body)
         == GameStateStep(cfg, s, declared, body)
  {
    assert s.(lastReceivedState := s.lastReceivedState) == s;
  }

  /** A declared count outside 1..s_maxNetworkedEntities decodes nothing. */
  lemma GameStateCountGuard(cfg: Config, s: ClientState, declared: int, body: seq<bool>)
    requires ValidConfig(cfg)
    requires declared <= 0 || declared > cfg.maxNetworkedEntities
    ensures GameStateStep(cfg, s, declared, body) == s
  {
  }

  /** A decoded Gamestate: the ids whose present-bit was set are read in
      increasing order, one per bit counted; the scan ends at
      s_maxNetworkedEntities or right after the declared-th present id; one
      RequestEntity goes out for each present id that had no entity and was
      not pending, in order, and while a request slot stays free each such
      id is stored; entities whose id was not present keep their payload. */
  lemma GameStateDecode(cfg: Config, s: ClientState, declared: int, body: seq<bool>)
    requires ValidConfig(cfg) && 0 < declared <= cfg.maxNetworkedEntities
    ensures var r := ScanFrom(cfg, s, body, 0, 0, declared);
      && GameStateStep(cfg, s, declared, body) == r.client
      && |r.present| == r.read <= declared
      && r.nextId <= cfg.maxNetworkedEntities
      && (forall k :: 0 <= k < |r.present| ==> 0 <= r.present[k] < r.nextId)
      && (forall k1, k2 :: 0 <= k1 < k2 < |r.present| ==> r.present[k1] < r.present[k2])
      && (r.nextId < cfg.maxNetworkedEntities ==> r.read == declared)
      && (r.read == declared ==> r.present[|r.present| - 1] == r.nextId - 1)
      && r.client.outbox == s.outbox + MissingRequests(s, r.present)
      && |r.client.entities| == |s.entities|
      && (forall j :: 0 <= j < |s.entities| && s.entities[j].networkId !in r.present ==>
            r.client.entities[j] == s.entities[j])
      && SlotsKept(s.requested, r.client.requested)
      && (INDEX_NONE in r.client.requested ==>
            forall x :: x in r.present && FindEntity(s.entities, x).None? && x !in s.requested ==>
              x in r.client.requested)
  {
    ScanFromRequested(cfg, s, body, 0, 0, declared);
    ScanFromEffect(cfg, s, body, 0, 0, declared);
    ScanFromPresent(cfg, s, body, 0, 0, declared);
    ScanFromRequests(cfg, s, body, 0, 0, declared);
    ScanFromEntities(cfg, s, body, 0, 0, declared);
  }

  /** A body with fewer present-bits than declared: with four ids, two
      request slots and three declared entities, the bits 1,0,1,0 make the
      scan run to s_maxNetworkedEntities having read only two present ids,
      both requested. */
  lemma GameStateShortBody()
    ensures var cfg := Config(4, 2, 4, 2, 256, false, (a: int, b: int) => a < b);
      var s := InitialState(cfg, []);
      var r := ScanFrom(cfg, s, [true, false, true, false], 0, 0, 3);
      && r.nextId == 4 && r.read == 2 && r.present == [0, 2]
      && r.client.outbox == [RequestEntity(0), RequestEntity(2)]
      && r.client.requested == [0, 2]
  {
    var cfg := Config(4, 2, 4, 2, 256, false, (a: int, b: int) => a < b);
    var s := InitialState(cfg, []);
    assert s.requested == [INDEX_NONE, INDEX_NONE];
    var s1 := ScanStep(s, 0, [true, false, true, false]);
    assert FindSlot(s.requested, INDEX_NONE) == 0;
    assert s1 == StepResult(s.(requested := [0, INDEX_NONE], outbox := [RequestEntity(0)]), [false, true, false], true);
    var s2 := ScanStep(s1.client, 1, s1.rest);
    assert s2 == StepResult(s1.client, [true, false], false);
    var s3 := ScanStep(s2.client, 2, s2.rest);
    assert FindSlot(s2.client.requested, INDEX_NONE) == 1;
    assert s3.client == s.(requested := [0, 2], outbox := [RequestEntity(0), RequestEntity(2)]);
    assert s3.rest == [false] && s3.marked;
    var s4 := ScanStep(s3.client, 3, s3.rest);
    assert s4 == StepResult(s3.client, [], false);
    var r3 := ScanFrom(cfg, s3.client, s3.rest, 3, 2, 3);
    assert ScanFrom(cfg, s3.client, [], 4, 2, 3) == ScanResult(s3.client, 4, 2, []);
    assert r3 == ScanResult(s3.client, 4, 2, []);
    assert ScanFrom(cfg, s2.client, s2.rest, 2, 1, 3) == ScanResult(s3.client, 4, 2, [2]);
    assert ScanFrom(cfg, s1.client, s1.rest, 1, 1, 3) == ScanResult(s3.client, 4, 2, [2]);
    assert ScanFrom(cfg, s, [true, false, true, false], 0, 0, 3) == ScanResult(s3.client, 4, 2, [0, 2]);
  }

  // ---------------------------------------------------------------------------
  // Spawn, accept and destroy

  /** onSpawnEntity: a non-negative id retires its pending request, and a new
      entity is instantiated only when none with that id exists. */
  function SpawnStep(s: ClientState, networkId: int, owner: int, state: seq<bool>): ClientState {
    if networkId <= INDEX_NONE then s
    else
      var s1 := s.(requested := ClearRequested(s.requested, networkId));
      if FindEntity(s1.entities, networkId).Some? then s1
      else s1.(entities := s1.entities + [Entity(networkId, owner, true, state)])
  }

  /** After a spawn the id has a local entity and is no longer pending, an
      existing entity is never duplicated, and a second identical spawn is a
      no-op. */
  lemma SpawnIdempotent(s: ClientState, networkId: int, owner: int, state: seq<bool>)
    requires RequestedDistinct(s.requested) && networkId > INDEX_NONE
    ensures var t := SpawnStep(s, networkId, owner, state);
      && FindEntity(t.entities, networkId).Some?
      && networkId !in t.requested
      && RequestedDistinct(t.requested)
      && (FindEntity(s.entities, networkId).Some? ==> t.entities == s.entities)
      && (FindEntity(s.entities, networkId).None? ==>
            t.entities == s.entities + [Entity(networkId, owner, true, state)])
      && t == s.(requested := t.requested, entities := t.entities)
      && |t.requested| == |s.requested|
      && (forall k :: 0 <= k < |s.requested| ==>
            t.requested[k] == if s.requested[k] == networkId then INDEX_NONE else s.requested[k])
      && SpawnStep(t, networkId, owner, state) == t
  {
    var t := SpawnStep(s, networkId, owner, state);
    ClearRequestedProps(s.requested, networkId);
    ClearRequestedSlots(s.requested, networkId);
    if FindEntity(s.entities, networkId).None? {
      assert t.entities[|s.entities|].networkId == networkId;
    }
    assert FindSlot(t.requested, networkId) == INDEX_NONE;
  }

  /** A spawn with a negative id (INDEX_NONE or a temporary id) is ignored. */
  lemma SpawnIgnoresNegative(s: ClientState, networkId: int, owner: int, state: seq<bool>)
    requires networkId <= INDEX_NONE
    ensures SpawnStep(s, networkId, owner, state) == s
  {
  }

  /** onAcceptEntity: the pending slot of localId is cleared and the first
      entity carrying localId takes remoteId. */
  function AcceptEntityStep(s: ClientState, localId: int, remoteId: int): ClientState {
    var req := ClearRequested(s.requested, localId);
    match FindEntity(s.entities, localId)
    case None => s.(requested := req)
    case Some(i) => s.(requested := req, entities := s.entities[i := s.entities[i].(networkId := remoteId)])
  }

  lemma AcceptEntityEffect(s: ClientState, localId: int, remoteId: int)
    requires RequestedDistinct(s.requested)
    ensures var t := AcceptEntityStep(s, localId, remoteId);
      && RequestedDistinct(t.requested)
      && (localId != INDEX_NONE ==> localId !in t.requested)
      && |t.entities| == |s.entities|
      && ((forall j :: 0 <= j < |s.entities| ==> s.entities[j].networkId != localId) ==> t.entities == s.entities)
      && (forall j :: 0 <= j < |s.entities| ==>
            if j == FindSlotOfEntity(s.entities, localId)
            then t.entities[j] == s.entities[j].(networkId := remoteId)
            else t.entities[j] == s.entities[j])
      && t == s.(requested := t.requested, entities := t.entities)
      && |t.requested| == |s.requested|
      && (forall k :: 0 <= k < |s.requested| ==>
            t.requested[k] == if s.requested[k] == localId then INDEX_NONE else s.requested[k])
  {
    ClearRequestedProps(s.requested, localId);
    ClearRequestedSlots(s.requested, localId);
  }

  /** Index of the first entity with the id, or -1. */
  function FindSlotOfEntity(entities: seq<Entity>, networkId: int): int {
    match FindEntity(entities, networkId)
    case None => INDEX_NONE
    case Some(i) => i
  }

  /** onDestroyEntity: ids outside [-M, s_maxNetworkedEntities] are dropped;
      otherwise the first entity with the id, if any, is killed. */
  function DestroyStep(cfg: Config, s: ClientState, networkId: int): ClientState
    requires ValidConfig(cfg)
  {
    if networkId < -cfg.maxSpawnPredictedEntities || networkId > cfg.maxNetworkedEntities then s
    else match FindEntity(s.entities, networkId)
      case None => s
      case Some(i) => s.(entities := s.entities[i := s.entities[i].(alive := false)])
  }

  lemma DestroyEffect(cfg: Config, s: ClientState, networkId: int)
    requires ValidConfig(cfg)
    ensures var t := DestroyStep(cfg, s, networkId);
      && (networkId < -cfg.maxSpawnPredictedEntities || networkId > cfg.maxNetworkedEntities ==> t == s)
      && t == s.(entities := t.entities)
      && |t.entities| == |s.entities|
      && (forall j :: 0 <= j < |s.entities| ==>
            if j == FindSlotOfEntity(s.entities, networkId)
               && -cfg.maxSpawnPredictedEntities <= networkId <= cfg.maxNetworkedEntities
            then t.entities[j] == s.entities[j].(alive := false)
            else t.entities[j] == s.entities[j])
  {
  }

  /** A predicted entity takes the temporary id -2 and announces itself; the
      server's AcceptEntity(-2, 17) renames it to 17, and -2 is not pending. */
  lemma PredictedSpawnScenario(cfg: Config, s: ClientState, index: nat)
    requires ValidConfig(cfg) && ValidState(cfg, s) && index < |s.entities|
    requires s.nextTempId == FIRST_TEMP_NETWORK_ID
    requires forall j :: 0 <= j < |s.entities| ==> s.entities[j].networkId != FIRST_TEMP_NETWORK_ID
    ensures var t := RequestPredictedStep(cfg, s, index);
      && t.entities[index].networkId == -2
      && t.outbox[|t.outbox| - 1] == RequestPredictedEntity(-2, t.entities[index])
      && var u := AcceptEntityStep(t, -2, 17);
         && u.entities[index].networkId == 17
         && -2 !in u.requested
  {
    var t := RequestPredictedStep(cfg, s, index);
    RequestPredictedProps(cfg, s, index);
    assert FindEntity(t.entities, -2) == Some(index);
    AcceptEntityEffect(t, -2, 17);
  }

  // ---------------------------------------------------------------------------
  // Session state machine

  /** connect: acts only from Disconnected, and starts connecting only when
      the socket could be initialised. */
  function ConnectStep(s: ClientState, socketInitialized: bool): ClientState {
    if s.state != Disconnected || !socketInitialized then s
    else s.(hasConnection := true, state := Connecting)
  }

  /** disconnect's guard, `state != Connected || state != Connecting`. */
  function DisconnectGuardRejects(st: State): bool {
    st != Connected || st != Connecting
  }

  function DisconnectStep(s: ClientState): ClientState {
    if DisconnectGuardRejects(s.state) then s else s.(state := Disconnecting)
  }

  /** The guard rejects every state, so disconnect never changes anything. */
  lemma DisconnectNeverActs(s: ClientState)
    ensures DisconnectGuardRejects(s.state)
    ensures DisconnectStep(s) == s
  {
  }

  /** onConnectionEstablished: only while Connecting; it becomes Connected,
      resumes input sending from the last simulated frame and introduces the
      local players. */
  function ConnectionEstablishedStep(s: ClientState): ClientState {
    if s.state != Connecting then s
    else s.(state := Connected, lastFrameSent := s.lastFrameSimulated,
            outbox := s.outbox + [IntroducePlayer(|s.localPlayers|)])
  }

  function ConnectionCallbackStep(s: ClientState, callback: ConnectionCallback): ClientState {
    match callback
    case ConnectionEstablished => s.(state := Connected)
    case ConnectionFailed => DisconnectStep(s)
    case ConnectionLost => DisconnectStep(s)
    case ConnectionReceived => s
  }

  /** connect acts only from Disconnected, and moves to Connecting exactly
      when the socket could be initialised. */
  lemma ConnectEffect(s: ClientState, socketInitialized: bool)
    ensures var t := ConnectStep(s, socketInitialized);
      && t.state == (if s.state == Disconnected && socketInitialized then Connecting else s.state)
      && (t != s <==> s.state == Disconnected && socketInitialized)
      && t == s.(state := t.state, hasConnection := t.hasConnection)
  {
  }

  /** onConnectionEstablished acts only from Connecting: it sets Connected,
      resumes sending from the last simulated frame and emits exactly one
      IntroducePlayer with the number of local players. */
  lemma ConnectionEstablishedEffect(s: ClientState)
    ensures var t := ConnectionEstablishedStep(s);
      && (s.state != Connecting ==> t == s)
      && (s.state == Connecting ==>
            && t == s.(state := Connected, lastFrameSent := s.lastFrameSimulated, outbox := t.outbox)
            && t.outbox == s.outbox + [IntroducePlayer(|s.localPlayers|)])
  {
  }

  /** Only the Established callback changes anything (it sets Connected);
      Failed and Lost reach disconnect, which never acts, and Received does
      nothing. */
  lemma ConnectionCallbackEffect(s: ClientState, callback: ConnectionCallback)
    ensures callback != ConnectionEstablished ==> ConnectionCallbackStep(s, callback) == s
    ensures ConnectionCallbackStep(s, ConnectionEstablished) == s.(state := Connected)
  {
    DisconnectNeverActs(s);
  }

  // ---------------------------------------------------------------------------
  // Local players

  function AddLocalPlayerStep(cfg: Config, s: ClientState, controllerId: int, listenMouseKB: bool): ClientState
    requires |s.localPlayers| < cfg.maxPlayersPerClient
  {
    s.(localPlayers := s.localPlayers + [NewLocalPlayer().(controllerId := controllerId, listenMouseKB := listenMouseKB)])
  }

  /** readInt16 on the AcceptPlayer payload; reads past its end give 0. */
  function ReadInt16At(ids: seq<int>, k: nat): int {
    if k < |ids| then Int16(ids[k]) else 0
  }

  function AssignedPlayers(players: seq<LocalPlayer>, ids: seq<int>): seq<LocalPlayer> {
    seq(|players|, i requires 0 <= i < |players| => players[i].(playerId := ReadInt16At(ids, i)))
  }

  /** onAcceptPlayer: ignored once the first local player has an id;
      otherwise the players take the ids in order. */
  function AcceptPlayerStep(s: ClientState, ids: seq<int>): ClientState {
    if |s.localPlayers| > 0 && s.localPlayers[0].playerId != INDEX_NONE then s
    else s.(localPlayers := AssignedPlayers(s.localPlayers, ids))
  }

  lemma AcceptPlayerEffect(s: ClientState, ids: seq<int>, later: seq<int>)
    requires |s.localPlayers| > 0 ==> s.localPlayers[0].playerId == INDEX_NONE
    requires |ids| >= |s.localPlayers|
    requires forall k :: 0 <= k < |ids| ==> -0x8000 <= ids[k] < 0x8000
    ensures var t := AcceptPlayerStep(s, ids);
      && |t.localPlayers| == |s.localPlayers|
      && (forall k :: 0 <= k < |s.localPlayers| ==>
            t.localPlayers[k] == s.localPlayers[k].(playerId := ids[k]))
      && (|s.localPlayers| > 0 && ids[0] != INDEX_NONE ==> AcceptPlayerStep(t, later) == t)
      && t == s.(localPlayers := t.localPlayers)
  {
  }

  /** The index of the local player with the given id (getLocalPlayer). */
  function FindLocalPlayer(players: seq<LocalPlayer>, playerId: int): (r: Option<nat>)
    ensures r.Some? ==> r.value < |players| && players[r.value].playerId == playerId
    ensures r.Some? ==> forall j :: 0 <= j < r.value ==> players[j].playerId != playerId
    ensures r.None? <==> forall j :: 0 <= j < |players| ==> players[j].playerId != playerId
  {
    FirstMatch(players, (p: LocalPlayer) => p.playerId == playerId)
  }

  // ---------------------------------------------------------------------------
  // Owned-entity sync

  /** The entities owned by a player, in collection order (std::copy_if). */
  function OwnedBy(entities: seq<Entity>, playerId: int): (r: seq<Entity>)
    ensures |r| <= |entities|
    ensures forall e :: e in r ==> e in entities && e.ownerPlayerId == playerId
    ensures forall e :: e in entities && e.ownerPlayerId == playerId ==> e in r
  {
    if entities == [] then []
    else
      var last := entities[|entities| - 1];
      OwnedBy(entities[..|entities| - 1], playerId) + (if last.ownerPlayerId == playerId then [last] else [])
  }

  /** syncOwnedEntities: one message with the count and the owned entities,
      and none when the player owns nothing. */
  function SyncOwnedStep(s: ClientState, playerId: int): ClientState {
    var owned := OwnedBy(s.entities, playerId);
    if |owned| > 0 then s.(outbox := s.outbox + [OwnedGamestate(|owned|, owned)]) else s
  }

  /** update's loop calling syncOwnedEntities for each local player from the
      p-th on; the player id is passed as an int16_t. */
  function SyncAllOwned(s: ClientState, p: nat): ClientState
    decreases |s.localPlayers| - p
  {
    if p >= |s.localPlayers| then s
    else SyncAllOwned(SyncOwnedStep(s, Int16(s.localPlayers[p].playerId)), p + 1)
  }

  /** The OwnedGamestate messages for the given players, in order: one per
      player that owns at least one entity, carrying the count and the
      entities it owns. */
  function SyncMessages(entities: seq<Entity>, players: seq<LocalPlayer>): seq<Message> {
    if players == [] then []
    else
      var owned := OwnedBy(entities, Int16(players[0].playerId));
      (if |owned| > 0 then [OwnedGamestate(|owned|, owned)] else []) + SyncMessages(entities, players[1..])
  }

  /** When every player owns something, message k is player k's. */
  lemma {:induction false} SyncMessagesAllOwning(entities: seq<Entity>, players: seq<LocalPlayer>)
    requires forall k :: 0 <= k < |players| ==> |OwnedBy(entities, Int16(players[k].playerId))| > 0
    ensures |SyncMessages(entities, players)| == |players|
    ensures forall k :: 0 <= k < |players| ==>
      var owned := OwnedBy(entities, Int16(players[k].playerId));
      SyncMessages(entities, players)[k] == OwnedGamestate(|owned|, owned)
  {
    if players != [] {
      SyncMessagesAllOwning(entities, players[1..]);
      var rest := SyncMessages(entities, players[1..]);
      var owned := OwnedBy(entities, Int16(players[0].playerId));
      assert SyncMessages(entities, players) == [OwnedGamestate(|owned|, owned)] + rest;
      forall k | 1 <= k < |players|
        ensures var o := OwnedBy(entities, Int16(players[k].playerId));
          SyncMessages(entities, players)[k] == OwnedGamestate(|o|, o)
      {
        assert players[1..][k - 1] == players[k];
      }
    }
  }

  /** Players that own nothing send nothing. */
  lemma {:induction false} SyncMessagesNoneOwning(entities: seq<Entity>, players: seq<LocalPlayer>)
    requires forall k :: 0 <= k < |players| ==> OwnedBy(entities, Int16(players[k].playerId)) == []
    ensures SyncMessages(entities, players) == []
  {
    if players != [] {
      SyncMessagesNoneOwning(entities, players[1..]);
    }
  }

  /** Syncing appends exactly SyncMessages for the players from the p-th on,
      and nothing else changes. */
  lemma {:induction false} SyncAllOwnedSends(s: ClientState, p: nat)
    requires p <= |s.localPlayers|
    ensures SyncAllOwned(s, p) == s.(outbox := s.outbox + SyncMessages(s.entities, s.localPlayers[p..]))
    decreases |s.localPlayers| - p
  {
    if p < |s.localPlayers| {
      var s1 := SyncOwnedStep(s, Int16(s.localPlayers[p].playerId));
      SyncAllOwnedSends(s1, p + 1);
      var owned := OwnedBy(s.entities, Int16(s.localPlayers[p].playerId));
      var m0 := if |owned| > 0 then [OwnedGamestate(|owned|, owned)] else [];
      var m1 := SyncMessages(s.entities, s.localPlayers[p + 1..]);
      assert s1 == s.(outbox := s.outbox + m0);
      assert s.localPlayers[p..][1..] == s.localPlayers[p + 1..];
      assert SyncMessages(s.entities, s.localPlayers[p..]) == m0 + m1;
      AppendAssoc(s.outbox, m0, m1);
    } else {
      assert s.localPlayers[p..] == [];
    }
  }

  /** Syncing only appends OwnedGamestate messages, each naming a non-empty
      set of entities that all belong to the same player. */
  lemma {:induction false} SyncAllOwnedEffect(s: ClientState, p: nat)
    requires p <= |s.localPlayers|
    ensures var t := SyncAllOwned(s, p);
      && t == s.(outbox := t.outbox)
      && |s.outbox| <= |t.outbox| && t.outbox[..|s.outbox|] == s.outbox
      && |t.outbox| - |s.outbox| <= |s.localPlayers| - p
      && forall k :: |s.outbox| <= k < |t.outbox| ==>
           && t.outbox[k].OwnedGamestate?
           && t.outbox[k].entityCount == |t.outbox[k].owned| > 0
           && forall e :: e in t.outbox[k].owned ==> e in s.entities && e.ownerPlayerId == t.outbox[k].owned[0].ownerPlayerId
    decreases |s.localPlayers| - p
  {
    if p < |s.localPlayers| {
      var s1 := SyncOwnedStep(s, Int16(s.localPlayers[p].playerId));
      SyncAllOwnedEffect(s1, p + 1);
      var t := SyncAllOwned(s1, p + 1);
      OutboxExtends(s.outbox, s1.outbox, t.outbox);
    }
  }

  // ---------------------------------------------------------------------------
  // Frame input (sendPlayerActions) and simulation (simulate)

  function FrameActions(history: map<int, Frame>, key: int, playerId: int): ActionBuffer {
    if key in history && playerId in history[key] then history[key][playerId] else []
  }

  function ClearFrameActions(history: map<int, Frame>, key: int, playerId: int): map<int, Frame> {
    if key in history then history[key := history[key][playerId := []]] else history
  }

  /** The inner loop: one PlayerInput per local player for the frame stored
      under frameKey, labelled frameId; each player's buffer is cleared. */
  function SendInputsForPlayers(s: ClientState, frameKey: int, frameId: int, p: nat): ClientState
    decreases |s.localPlayers| - p
  {
    if p >= |s.localPlayers| then s
    else
      var pid := s.localPlayers[p].playerId;
      var msg := PlayerInput(Int16(pid), frameId, FrameActions(s.history, frameKey, pid));
      SendInputsForPlayers(
        s.(outbox := s.outbox + [msg], history := ClearFrameActions(s.history, frameKey, pid)),
        frameKey, frameId, p + 1)
  }

  /** The outer loop from iteration i: the frame read is the one at firstFrame + i
      and the label is lastFrameSent + i, where lastFrameSent is reassigned at
      the end of each iteration. */
  function SendFrames(cfg: Config, s: ClientState, firstFrame: int, i: int, n: int): ClientState
    requires ValidConfig(cfg)
    decreases n - i
  {
    if i >= n then s
    else
      var frameId := Int16(s.lastFrameSent + i);
      var s1 := SendInputsForPlayers(s, firstFrame + i, frameId, 0);
      SendFrames(cfg, s1.(lastFrameSent := ToSequence(cfg, frameId)), firstFrame, i + 1, n)
  }

  /** One iteration of the outer loop: send the frame's inputs, then move
      lastFrameSent to the label just written. */
  lemma SendFramesUnfold(cfg: Config, s: ClientState, firstFrame: int, i: int, n: int, frameId: int)
    requires ValidConfig(cfg) && i < n && frameId == Int16(s.lastFrameSent + i)
    ensures SendFrames(cfg, s, firstFrame, i, n)
      == SendFrames(cfg, SendInputsForPlayers(s, firstFrame + i, frameId, 0).(lastFrameSent := ToSequence(cfg, frameId)),
                    firstFrame, i + 1, n)
  {
  }

  /** The number of frames sendPlayerActions sends, as an int16_t. */
  function FramesToSend(s: ClientState): int {
    Int16(s.lastFrameSimulated - s.lastFrameSent)
  }

  function SendPlayerActionsStep(cfg: Config, s: ClientState): ClientState
    requires ValidConfig(cfg)
  {
    if cfg.sequenceLessThan(s.lastFrameSimulated, s.lastFrameSent) || cfg.isServer then s
    else if s.lastFrameSent !in s.history then s
    else SendFrames(cfg, s, s.lastFrameSent, 0, FramesToSend(s))
  }

  /** lastFrameSent at the start of iteration k when it was L at iteration 0. */
  function SentBefore(cfg: Config, L: int, k: nat): int
    requires ValidConfig(cfg)
  {
    if k == 0 then L else ToSequence(cfg, Int16(SentBefore(cfg, L, k - 1) + k - 1))
  }

  /** The frame label written in iteration k. */
  function FrameLabel(cfg: Config, L: int, k: nat): int
    requires ValidConfig(cfg)
  {
    Int16(SentBefore(cfg, L, k) + k)
  }

  /** The (playerId, frameId) of a PlayerInput message. */
  function InputHeader(m: Message): (int, int) {
    if m.PlayerInput? then (m.playerId, m.frameId) else (INDEX_NONE, INDEX_NONE)
  }

  function PlayerHeaders(players: seq<LocalPlayer>, frameId: int): (r: seq<(int, int)>)
    ensures |r| == |players|
    ensures forall p :: 0 <= p < |players| ==> r[p] == (Int16(players[p].playerId), frameId)
  {
    seq(|players|, p requires 0 <= p < |players| => (Int16(players[p].playerId), frameId))
  }

  /** The headers of iterations i..n-1, frame by frame, player by player. */
  function InputHeaders(cfg: Config, players: seq<LocalPlayer>, L: int, i: nat, n: int): seq<(int, int)>
    requires ValidConfig(cfg)
    decreases n - i
  {
    if i >= n then [] else PlayerHeaders(players, FrameLabel(cfg, L, i)) + InputHeaders(cfg, players, L, i + 1, n)
  }

  function Headers(ms: seq<Message>): seq<(int, int)> {
    seq(|ms|, k requires 0 <= k < |ms| => InputHeader(ms[k]))
  }

  lemma {:induction false} SendInputsForPlayersEffect(s: ClientState, frameKey: int, frameId: int, p: nat)
    requires p <= |s.localPlayers|
    ensures var t := SendInputsForPlayers(s, frameKey, frameId, p);
      && t == s.(outbox := t.outbox, history := t.history)
      && |t.outbox| == |s.outbox| + |s.localPlayers| - p
      && t.outbox[..|s.outbox|] == s.outbox
      && (forall k :: |s.outbox| <= k < |t.outbox| ==> t.outbox[k].PlayerInput?)
      && Headers(t.outbox[|s.outbox|..]) == PlayerHeaders(s.localPlayers[p..], frameId)
    decreases |s.localPlayers| - p
  {
    if p < |s.localPlayers| {
      var pid := s.localPlayers[p].playerId;
      var msg := PlayerInput(Int16(pid), frameId, FrameActions(s.history, frameKey, pid));
      var s1 := s.(outbox := s.outbox + [msg], history := ClearFrameActions(s.history, frameKey, pid));
      SendInputsForPlayersEffect(s1, frameKey, frameId, p + 1);
      var t := SendInputsForPlayers(s1, frameKey, frameId, p + 1);
      assert SendInputsForPlayers(s, frameKey, frameId, p) == t;
      assert t.outbox[..|s1.outbox|] == s1.outbox;
      assert t.outbox[..|s.outbox|] == s.outbox by {
        assert t.outbox[..|s.outbox|] == t.outbox[..|s1.outbox|][..|s.outbox|];
      }
      var rest := t.outbox[|s1.outbox|..];
      assert t.outbox[|s.outbox|..] == [msg] + rest by {
        assert t.outbox[|s.outbox|] == t.outbox[..|s1.outbox|][|s.outbox|];
      }
      HeadersAppend([msg], rest);
      assert Headers([msg]) == [(Int16(pid), frameId)];
      assert PlayerHeaders(s.localPlayers[p..], frameId)
          == [(Int16(pid), frameId)] + PlayerHeaders(s.localPlayers[p + 1..], frameId);
    } else {
      assert s.localPlayers[p..] == [];
    }
  }

  /** Sending frames i..n-1 appends their headers in frame-then-player order
      and leaves lastFrameSent at the label of the last frame sent. */
  lemma {:induction false} SendFramesEffect(cfg: Config, s: ClientState, firstFrame: int, L: int, i: nat, n: int)
    requires ValidConfig(cfg) && s.lastFrameSent == SentBefore(cfg, L, i)
    ensures var t := SendFrames(cfg, s, firstFrame, i, n);
      && t.localPlayers == s.localPlayers
      && t == s.(outbox := t.outbox, history := t.history, lastFrameSent := t.lastFrameSent)
      && |s.outbox| <= |t.outbox|
      && t.outbox[..|s.outbox|] == s.outbox
      && (forall k :: |s.outbox| <= k < |t.outbox| ==> t.outbox[k].PlayerInput?)
      && Headers(t.outbox[|s.outbox|..]) == InputHeaders(cfg, s.localPlayers, L, i, n)
      && (i < n ==> t.lastFrameSent == ToSequence(cfg, FrameLabel(cfg, L, n - 1)))
      && (i >= n ==> t == s)
    decreases n - i
  {
    if i < n {
      var frameId := Int16(s.lastFrameSent + i);
      assert frameId == FrameLabel(cfg, L, i);
      var s1 := SendInputsForPlayers(s, firstFrame + i, frameId, 0);
      SendInputsForPlayersEffect(s, firstFrame + i, frameId, 0);
      var s2 := s1.(lastFrameSent := ToSequence(cfg, frameId));
      assert s2.lastFrameSent == SentBefore(cfg, L, i + 1);
      SendFramesEffect(cfg, s2, firstFrame, L, i + 1, n);
      var t := SendFrames(cfg, s2, firstFrame, i + 1, n);
      OutboxExtends(s.outbox, s1.outbox, t.outbox);
      HeadersAppend(s1.outbox[|s.outbox|..], t.outbox[|s2.outbox|..]);
      assert s.localPlayers[0..] == s.localPlayers;
    }
  }

  /** Two successive extensions of an outbox compose. */
  lemma OutboxExtends(a: seq<Message>, b: seq<Message>, c: seq<Message>)
    requires |a| <= |b| <= |c| && b[..|a|] == a && c[..|b|] == b
    ensures c[..|a|] == a
    ensures c[|a|..] == b[|a|..] + c[|b|..]
    ensures forall k :: |a| <= k < |c| ==> c[k] == if k < |b| then b[k] else c[k]
  {
    assert c[..|a|] == c[..|b|][..|a|];
    assert c == b + c[|b|..];
  }

  lemma HeadersAppend(a: seq<Message>, b: seq<Message>)
    ensures Headers(a + b) == Headers(a) + Headers(b)
  {
  }

  lemma {:induction false} InputHeadersLength(cfg: Config, players: seq<LocalPlayer>, L: int, i: nat, n: int)
    requires ValidConfig(cfg) && i <= n
    ensures |InputHeaders(cfg, players, L, i, n)| == (n - i) * |players|
    decreases n - i
  {
    if i < n {
      InputHeadersLength(cfg, players, L, i + 1, n);
      assert (n - i) * |players| == |players| + (n - i - 1) * |players|;
    }
  }

  /** sendPlayerActions: nothing happens when the simulation is behind the
      last frame sent (or on a server, or without the frame); otherwise, with
      d = lastFrameSimulated - lastFrameSent in int16 range, exactly
      d * (number of local players) PlayerInput messages are appended in
      frame-then-player order, and lastFrameSent ends at the last label. */
  lemma SendPlayerActionsEffect(cfg: Config, s: ClientState)
    requires ValidConfig(cfg)
    ensures var t := SendPlayerActionsStep(cfg, s);
      && (cfg.sequenceLessThan(s.lastFrameSimulated, s.lastFrameSent) ==> t == s)
      && |s.outbox| <= |t.outbox| && t.outbox[..|s.outbox|] == s.outbox
      && (!cfg.sequenceLessThan(s.lastFrameSimulated, s.lastFrameSent) && !cfg.isServer
          && s.lastFrameSent in s.history && FramesToSend(s) > 0 ==>
            && Headers(t.outbox[|s.outbox|..]) == InputHeaders(cfg, s.localPlayers, s.lastFrameSent, 0, FramesToSend(s))
            && |t.outbox| == |s.outbox| + FramesToSend(s) * |s.localPlayers|
            && t.lastFrameSent == ToSequence(cfg, FrameLabel(cfg, s.lastFrameSent, FramesToSend(s) - 1)))
  {
    var n := FramesToSend(s);
    if !cfg.sequenceLessThan(s.lastFrameSimulated, s.lastFrameSent) && !cfg.isServer
       && s.lastFrameSent in s.history {
      SendFramesEffect(cfg, s, s.lastFrameSent, s.lastFrameSent, 0, n);
      if n > 0 {
        InputHeadersLength(cfg, s.localPlayers, s.lastFrameSent, 0, n);
        var t := SendFrames(cfg, s, s.lastFrameSent, 0, n);
        assert |Headers(t.outbox[|s.outbox|..])| == |t.outbox| - |s.outbox|;
      }
    }
  }

  // ---------------------------------------------------------------------------
  // What sendPlayerActions sends and clears, payload by payload

  /** The PlayerInput the k-th player of ps sends for the frame stored under
      frameKey: that player's buffer, or nothing when an earlier player with
      the same id has already sent (and so cleared) it. */
  function InputFor(history: map<int, Frame>, frameKey: int, frameId: int, ps: seq<LocalPlayer>, k: nat): Message
    requires k < |ps|
  {
    var pid := ps[k].playerId;
    PlayerInput(Int16(pid), frameId,
      if pid in PlayerIds(ps[..k]) then [] else FrameActions(history, frameKey, pid))
  }

  /** The messages of one frame, player by player. */
  function FrameInputs(history: map<int, Frame>, frameKey: int, frameId: int, ps: seq<LocalPlayer>): seq<Message> {
    seq(|ps|, k requires 0 <= k < |ps| => InputFor(history, frameKey, frameId, ps, k))
  }

  /** The messages of frames i..n-1, read from the history as it was before
      the loop: frame i is stored under firstFrame + i and labelled FrameLabel. */
  function AllFrameInputs(cfg: Config, history: map<int, Frame>, players: seq<LocalPlayer>,
                          firstFrame: int, L: int, i: nat, n: int): seq<Message>
    requires ValidConfig(cfg)
    decreases n - i
  {
    if i >= n then []
    else FrameInputs(history, firstFrame + i, FrameLabel(cfg, L, i), players)
         + AllFrameInputs(cfg, history, players, firstFrame, L, i + 1, n)
  }

  /** t is h with the buffers of the ids cleared in the frames stored under
      lo..hi-1, and every other frame and buffer as it was. */
  ghost predicate ClearedOver(h: map<int, Frame>, t: map<int, Frame>, lo: int, hi: int, ids: seq<int>) {
    && t.Keys == h.Keys
    && (forall k :: k in h && !(lo <= k < hi) ==> t[k] == h[k])
    && (forall k, x :: lo <= k < hi ==>
          FrameActions(t, k, x) == if x in ids then [] else FrameActions(h, k, x))
  }

  predicate DistinctPlayerIds(ps: seq<LocalPlayer>) {
    forall i, j :: 0 <= i < j < |ps| ==> ps[i].playerId != ps[j].playerId
  }

  lemma ClearFrameActionsEffect(h: map<int, Frame>, key: int, pid: int)
    ensures ClearedOver(h, ClearFrameActions(h, key, pid), key, key + 1, [pid])
  {
  }

  lemma ClearedOverCompose(h: map<int, Frame>, m: map<int, Frame>, t: map<int, Frame>,
                           lo: int, mid: int, hi: int, ids: seq<int>)
    requires lo <= mid <= hi
    requires ClearedOver(h, m, lo, mid, ids) && ClearedOver(m, t, mid, hi, ids)
    ensures ClearedOver(h, t, lo, hi, ids)
  {
    forall k, x | lo <= k < hi
      ensures FrameActions(t, k, x) == if x in ids then [] else FrameActions(h, k, x)
    {
      if k < mid {
        assert FrameActions(t, k, x) == FrameActions(m, k, x);
      } else {
        assert FrameActions(m, k, x) == FrameActions(h, k, x);
      }
    }
  }

  /** Sending the first player's input and clearing its buffer leaves the
      rest of the frame's messages to be read from the cleared history. */
  lemma FrameInputsCons(h: map<int, Frame>, key: int, frameId: int, ps: seq<LocalPlayer>)
    requires |ps| > 0
    ensures FrameInputs(h, key, frameId, ps)
      == [PlayerInput(Int16(ps[0].playerId), frameId, FrameActions(h, key, ps[0].playerId))]
         + FrameInputs(ClearFrameActions(h, key, ps[0].playerId), key, frameId, ps[1..])
  {
    var pid := ps[0].playerId;
    var h1 := ClearFrameActions(h, key, pid);
    ClearFrameActionsEffect(h, key, pid);
    var a := FrameInputs(h, key, frameId, ps);
    var b := FrameInputs(h1, key, frameId, ps[1..]);
    assert PlayerIds(ps[..0]) == [];
    forall k | 1 <= k < |ps|
      ensures a[k] == b[k - 1]
    {
      assert PlayerIds(ps[..k]) == [pid] + PlayerIds(ps[1..][..k - 1]);
      assert FrameActions(h1, key, ps[k].playerId)
          == if ps[k].playerId == pid then [] else FrameActions(h, key, ps[k].playerId);
    }
  }

  /** The inner loop, payloads included: the players' messages carry their
      buffers of that frame, and a repeated id finds its buffer empty. */
  lemma {:induction false} SendInputsForPlayersSends(s: ClientState, frameKey: int, frameId: int, p: nat)
    requires p <= |s.localPlayers|
    ensures SendInputsForPlayers(s, frameKey, frameId, p).outbox
         == s.outbox + FrameInputs(s.history, frameKey, frameId, s.localPlayers[p..])
    decreases |s.localPlayers| - p
  {
    var ps := s.localPlayers[p..];
    if p < |s.localPlayers| {
      var pid := s.localPlayers[p].playerId;
      var msg := PlayerInput(Int16(pid), frameId, FrameActions(s.history, frameKey, pid));
      var s1 := s.(outbox := s.outbox + [msg], history := ClearFrameActions(s.history, frameKey, pid));
      SendInputsForPlayersSends(s1, frameKey, frameId, p + 1);
      assert SendInputsForPlayers(s, frameKey, frameId, p) == SendInputsForPlayers(s1, frameKey, frameId, p + 1);
      assert ps[1..] == s.localPlayers[p + 1..];
      FrameInputsCons(s.history, frameKey, frameId, ps);
    } else {
      assert ps == [];
    }
  }

  /** The inner loop clears the players' buffers of that frame and changes
      no other frame or buffer. */
  lemma {:induction false} SendInputsForPlayersClears(s: ClientState, frameKey: int, frameId: int, p: nat)
    requires p <= |s.localPlayers|
    ensures ClearedOver(s.history, SendInputsForPlayers(s, frameKey, frameId, p).history,
                        frameKey, frameKey + 1, PlayerIds(s.localPlayers[p..]))
    decreases |s.localPlayers| - p
  {
    var ps := s.localPlayers[p..];
    if p < |s.localPlayers| {
      var pid := s.localPlayers[p].playerId;
      var msg := PlayerInput(Int16(pid), frameId, FrameActions(s.history, frameKey, pid));
      var h1 := ClearFrameActions(s.history, frameKey, pid);
      var s1 := s.(outbox := s.outbox + [msg], history := h1);
      SendInputsForPlayersClears(s1, frameKey, frameId, p + 1);
      var t := SendInputsForPlayers(s1, frameKey, frameId, p + 1);
      assert SendInputsForPlayers(s, frameKey, frameId, p) == t;
      assert ps[1..] == s.localPlayers[p + 1..];
      ClearFrameActionsEffect(s.history, frameKey, pid);
      assert PlayerIds(ps) == [pid] + PlayerIds(ps[1..]);
      forall x
        ensures FrameActions(t.history, frameKey, x)
             == if x in PlayerIds(ps) then [] else FrameActions(s.history, frameKey, x)
      {
        assert FrameActions(h1, frameKey, x) == if x == pid then [] else FrameActions(s.history, frameKey, x);
      }
    } else {
      assert ps == [];
    }
  }

  /** Messages of one frame read from two histories that agree on it. */
  lemma {:induction false} AllFrameInputsAgree(cfg: Config, h: map<int, Frame>, h': map<int, Frame>,
                                               players: seq<LocalPlayer>, firstFrame: int, L: int, i: nat, n: int)
    requires ValidConfig(cfg)
    requires forall k, x :: firstFrame + i <= k < firstFrame + n ==> FrameActions(h, k, x) == FrameActions(h', k, x)
    ensures AllFrameInputs(cfg, h, players, firstFrame, L, i, n) == AllFrameInputs(cfg, h', players, firstFrame, L, i, n)
    decreases n - i
  {
    if i < n {
      AllFrameInputsAgree(cfg, h, h', players, firstFrame, L, i + 1, n);
      var key := firstFrame + i;
      assert FrameInputs(h, key, FrameLabel(cfg, L, i), players) == FrameInputs(h', key, FrameLabel(cfg, L, i), players) by {
        forall k | 0 <= k < |players|
          ensures InputFor(h, key, FrameLabel(cfg, L, i), players, k) == InputFor(h', key, FrameLabel(cfg, L, i), players, k)
        {
          assert FrameActions(h, key, players[k].playerId) == FrameActions(h', key, players[k].playerId);
        }
      }
    }
  }

  /** One outer iteration keeps the players and advances lastFrameSent. */
  lemma SendFrameStep(cfg: Config, s: ClientState, firstFrame: int, L: int, i: nat, n: int)
    requires ValidConfig(cfg) && i < n && s.lastFrameSent == SentBefore(cfg, L, i)
    ensures var frameId := Int16(s.lastFrameSent + i);
      var s2 := SendInputsForPlayers(s, firstFrame + i, frameId, 0).(lastFrameSent := ToSequence(cfg, frameId));
      && SendFrames(cfg, s, firstFrame, i, n) == SendFrames(cfg, s2, firstFrame, i + 1, n)
      && s2.localPlayers == s.localPlayers
      && s2.lastFrameSent == SentBefore(cfg, L, i + 1)
  {
    var frameId := Int16(s.lastFrameSent + i);
    SendFramesUnfold(cfg, s, firstFrame, i, n, frameId);
    SendInputsForPlayersEffect(s, firstFrame + i, frameId, 0);
  }

  /** One outer iteration sends frame i's messages. */
  lemma SendFrameStepPayload(cfg: Config, s: ClientState, firstFrame: int, L: int, i: nat)
    requires ValidConfig(cfg) && s.lastFrameSent == SentBefore(cfg, L, i)
    ensures SendInputsForPlayers(s, firstFrame + i, Int16(s.lastFrameSent + i), 0).outbox
         == s.outbox + FrameInputs(s.history, firstFrame + i, FrameLabel(cfg, L, i), s.localPlayers)
  {
    var frameId := Int16(s.lastFrameSent + i);
    assert frameId == FrameLabel(cfg, L, i);
    SendInputsForPlayersSends(s, firstFrame + i, frameId, 0);
    assert s.localPlayers[0..] == s.localPlayers;
  }

  /** One outer iteration clears only frame i, so the later frames read
      the same messages. */
  lemma SendFrameStepKeepsLater(cfg: Config, s: ClientState, firstFrame: int, L: int, i: nat, n: int)
    requires ValidConfig(cfg)
    ensures var t := SendInputsForPlayers(s, firstFrame + i, Int16(s.lastFrameSent + i), 0);
      AllFrameInputs(cfg, t.history, s.localPlayers, firstFrame, L, i + 1, n)
        == AllFrameInputs(cfg, s.history, s.localPlayers, firstFrame, L, i + 1, n)
  {
    var t := SendInputsForPlayers(s, firstFrame + i, Int16(s.lastFrameSent + i), 0);
    SendInputsForPlayersClears(s, firstFrame + i, Int16(s.lastFrameSent + i), 0);
    AllFrameInputsCleared(cfg, s.history, t.history, firstFrame + i, firstFrame + i + 1,
                          PlayerIds(s.localPlayers[0..]), s.localPlayers, firstFrame, L, i + 1, n);
  }

  /** A history cleared only in earlier frames reads the same messages. */
  lemma {:induction false} AllFrameInputsCleared(cfg: Config, h: map<int, Frame>, h': map<int, Frame>, lo: int, hi: int,
                                                 ids: seq<int>, players: seq<LocalPlayer>, firstFrame: int, L: int, i: nat, n: int)
    requires ValidConfig(cfg) && ClearedOver(h, h', lo, hi, ids) && hi <= firstFrame + i
    ensures AllFrameInputs(cfg, h, players, firstFrame, L, i, n) == AllFrameInputs(cfg, h', players, firstFrame, L, i, n)
  {
    forall k, x | firstFrame + i <= k < firstFrame + n
      ensures FrameActions(h, k, x) == FrameActions(h', k, x)
    {
      assert !(lo <= k < hi);
    }
    AllFrameInputsAgree(cfg, h, h', players, firstFrame, L, i, n);
  }

  lemma AllFrameInputsUnfold(cfg: Config, h: map<int, Frame>, players: seq<LocalPlayer>,
                             firstFrame: int, L: int, i: nat, n: int)
    requires ValidConfig(cfg) && i < n
    ensures AllFrameInputs(cfg, h, players, firstFrame, L, i, n)
         == FrameInputs(h, firstFrame + i, FrameLabel(cfg, L, i), players)
            + AllFrameInputs(cfg, h, players, firstFrame, L, i + 1, n)
  {
  }

  /** The outer loop, payloads included: frames i..n-1 send the buffers the
      history held before the loop. */
  lemma {:induction false} SendFramesSends(cfg: Config, s: ClientState, firstFrame: int, L: int, i: nat, n: int)
    requires ValidConfig(cfg) && s.lastFrameSent == SentBefore(cfg, L, i)
    ensures SendFrames(cfg, s, firstFrame, i, n).outbox
         == s.outbox + AllFrameInputs(cfg, s.history, s.localPlayers, firstFrame, L, i, n)
    decreases n - i
  {
    if i < n {
      var frameId := Int16(s.lastFrameSent + i);
      var s2 := SendInputsForPlayers(s, firstFrame + i, frameId, 0).(lastFrameSent := ToSequence(cfg, frameId));
      SendFrameStep(cfg, s, firstFrame, L, i, n);
      SendFrameStepPayload(cfg, s, firstFrame, L, i);
      SendFrameStepKeepsLater(cfg, s, firstFrame, L, i, n);
      SendFramesSends(cfg, s2, firstFrame, L, i + 1, n);
      AllFrameInputsUnfold(cfg, s.history, s.localPlayers, firstFrame, L, i, n);
      AppendAssoc(s.outbox,
                          FrameInputs(s.history, firstFrame + i, FrameLabel(cfg, L, i), s.localPlayers),
                          AllFrameInputs(cfg, s.history, s.localPlayers, firstFrame, L, i + 1, n));
    }
  }

  /** The outer loop clears exactly the local players' buffers of the frames
      stored under firstFrame + i .. firstFrame + n - 1. */
  lemma {:induction false} SendFramesClears(cfg: Config, s: ClientState, firstFrame: int, L: int, i: nat, n: int)
    requires ValidConfig(cfg) && s.lastFrameSent == SentBefore(cfg, L, i)
    ensures ClearedOver(s.history, SendFrames(cfg, s, firstFrame, i, n).history,
                        firstFrame + i, firstFrame + n, PlayerIds(s.localPlayers))
    decreases n - i
  {
    if i < n {
      var frameId := Int16(s.lastFrameSent + i);
      var s2 := SendInputsForPlayers(s, firstFrame + i, frameId, 0).(lastFrameSent := ToSequence(cfg, frameId));
      SendFrameStep(cfg, s, firstFrame, L, i, n);
      SendInputsForPlayersClears(s, firstFrame + i, frameId, 0);
      assert s.localPlayers[0..] == s.localPlayers;
      SendFramesClears(cfg, s2, firstFrame, L, i + 1, n);
      ClearedOverCompose(s.history, s2.history, SendFrames(cfg, s2, firstFrame, i + 1, n).history,
                         firstFrame + i, firstFrame + i + 1, firstFrame + n, PlayerIds(s.localPlayers));
    }
  }

  /** sendPlayerActions, payloads included: when it sends, the outbox gains
      every local player's buffer of every frame from lastFrameSent on, and
      those buffers are cleared. */
  lemma SendPlayerActionsPayloads(cfg: Config, s: ClientState)
    requires ValidConfig(cfg)
    ensures var t := SendPlayerActionsStep(cfg, s);
      && (!cfg.sequenceLessThan(s.lastFrameSimulated, s.lastFrameSent) && !cfg.isServer
          && s.lastFrameSent in s.history ==>
            && t.outbox == s.outbox + AllFrameInputs(cfg, s.history, s.localPlayers,
                                                     s.lastFrameSent, s.lastFrameSent, 0, FramesToSend(s))
            && ClearedOver(s.history, t.history, s.lastFrameSent, s.lastFrameSent + FramesToSend(s),
                           PlayerIds(s.localPlayers)))
  {
    if !cfg.sequenceLessThan(s.lastFrameSimulated, s.lastFrameSent) && !cfg.isServer
       && s.lastFrameSent in s.history {
      SendFramesSends(cfg, s, s.lastFrameSent, s.lastFrameSent, 0, FramesToSend(s));
      SendFramesClears(cfg, s, s.lastFrameSent, s.lastFrameSent, 0, FramesToSend(s));
    }
  }

  /** With distinct player ids every message carries its player's own buffer. */
  lemma FrameInputsDistinct(h: map<int, Frame>, key: int, frameId: int, ps: seq<LocalPlayer>)
    requires DistinctPlayerIds(ps)
    ensures forall k :: 0 <= k < |ps| ==>
      FrameInputs(h, key, frameId, ps)[k] == PlayerInput(Int16(ps[k].playerId), frameId, FrameActions(h, key, ps[k].playerId))
  {
  }

  /** A player whose id an earlier player shares sends an empty buffer. */
  lemma FrameInputsShared(h: map<int, Frame>, key: int, frameId: int, ps: seq<LocalPlayer>, j: nat, k: nat)
    requires j < k < |ps| && ps[j].playerId == ps[k].playerId
    ensures FrameInputs(h, key, frameId, ps)[k] == PlayerInput(Int16(ps[k].playerId), frameId, [])
  {
    assert PlayerIds(ps[..k])[j] == ps[k].playerId;
  }

  /** 0 + 1 + ... + k. */
  function Triangle(k: nat): nat {
    if k == 0 then 0 else Triangle(k - 1) + k
  }

  lemma {:induction false} TriangleClosedForm(k: nat)
    ensures 2 * Triangle(k) == k * (k + 1)
  {
    if k > 0 {
      TriangleClosedForm(k - 1);
      assert k * (k + 1) == (k - 1) * k + 2 * k;
    }
  }

  /** While no value wraps, iteration k is labelled L + k(k+1)/2 (L, L+1,
      L+3, L+6, ...), because the label adds k to a lastFrameSent that the
      previous iterations already advanced. */
  lemma {:induction false} FrameLabelsTriangular(cfg: Config, L: int, k: nat)
    requires ValidConfig(cfg) && 0 <= L
    requires L + Triangle(k) < 0x8000 && L + Triangle(k) < cfg.sequenceModulus
    ensures SentBefore(cfg, L, k) == L + Triangle(k) - k
    ensures FrameLabel(cfg, L, k) == L + Triangle(k)
    ensures 2 * (FrameLabel(cfg, L, k) - L) == k * (k + 1)
  {
    TriangleClosedForm(k);
    if k > 0 {
      FrameLabelsTriangular(cfg, L, k - 1);
      var v := SentBefore(cfg, L, k - 1) + k - 1;
      assert v == L + Triangle(k - 1);
      assert Int16(v) == v;
      ModSmall(v, cfg.sequenceModulus);
      assert SentBefore(cfg, L, k) == v;
    }
  }

  lemma ModSmall(x: int, m: int)
    requires 0 <= x < m
    ensures x % m == x
  {
  }

  /** The simulation of one frame: each local player's non-empty buffer is
      copied into the frame, handed to the game and cleared. */
  function SimulatePlayers(s: ClientState, frameId: int, p: nat): ClientState
    requires frameId in s.history
    decreases |s.localPlayers| - p
  {
    if p >= |s.localPlayers| then s
    else SimulatePlayers(SimulatePlayer(s, frameId, p), frameId, p + 1)
  }

  /** One iteration of simulate's player loop, for the p-th local player. */
  function SimulatePlayer(s: ClientState, frameId: int, p: nat): ClientState
    requires frameId in s.history && p < |s.localPlayers|
  {
    var pid := s.localPlayers[p].playerId;
    var acts := Pending(s.pendingActions, pid);
    if |acts| == 0 then s
    else
      var frame := s.history[frameId][pid := FrameActions(s.history, frameId, pid) + acts];
      s.(history := s.history[frameId := frame],
         processedActions := s.processedActions + [(pid, acts)],
         pendingActions := s.pendingActions[pid := []])
  }

  function Pending(pending: map<int, ActionBuffer>, playerId: int): ActionBuffer {
    if playerId in pending then pending[playerId] else []
  }

  /** simulate: a fresh frame is inserted; while connected the players'
      pending actions move into it; the frame becomes the last simulated. */
  function SimulateStep(s: ClientState, frameId: int): ClientState {
    var s1 := s.(history := s.history[frameId := map[]]);
    var s2 := if s.state == Connected then SimulatePlayers(s1, frameId, 0) else s1;
    s2.(lastFrameSimulated := frameId)
  }

  function PlayerIds(players: seq<LocalPlayer>): seq<int> {
    seq(|players|, i requires 0 <= i < |players| => players[i].playerId)
  }

  /** What simulate's player loop has done after the first p players:
      those players' pending buffers are moved into the frame, every other
      id's buffer is untouched and its slot in the frame is empty. */
  ghost predicate SimulatedUpTo(s: ClientState, frameId: int, p: nat, orig: map<int, ActionBuffer>)
    requires frameId in s.history && p <= |s.localPlayers|
  {
    && (forall x :: x in PlayerIds(s.localPlayers[..p]) ==>
          Pending(s.pendingActions, x) == [] && FrameActions(s.history, frameId, x) == Pending(orig, x))
    && (forall x :: x !in PlayerIds(s.localPlayers[..p]) ==>
          Pending(s.pendingActions, x) == Pending(orig, x) && FrameActions(s.history, frameId, x) == [])
  }

  /** The frame and the buffers only; every other frame is unchanged. */
  ghost predicate SimulationFrame(s: ClientState, t: ClientState, frameId: int) {
    && t == s.(history := t.history, pendingActions := t.pendingActions, processedActions := t.processedActions)
    && frameId in t.history
    && (forall k :: k != frameId ==> (k in t.history <==> k in s.history) && (k in s.history ==> t.history[k] == s.history[k]))
  }

  /** One iteration moves the p-th player's buffer into the frame. */
  lemma SimulatePlayerEffect(s: ClientState, frameId: int, p: nat, orig: map<int, ActionBuffer>)
    requires frameId in s.history && p < |s.localPlayers|
    requires SimulatedUpTo(s, frameId, p, orig)
    ensures SimulationFrame(s, SimulatePlayer(s, frameId, p), frameId)
    ensures SimulatedUpTo(SimulatePlayer(s, frameId, p), frameId, p + 1, orig)
  {
    var s1 := SimulatePlayer(s, frameId, p);
    var pid := s.localPlayers[p].playerId;
    var done := PlayerIds(s.localPlayers[..p]);
    assert PlayerIds(s.localPlayers[..p + 1]) == done + [pid];
    if |Pending(s.pendingActions, pid)| == 0 {
      assert s1 == s;
      forall x | x in done + [pid]
        ensures Pending(s.pendingActions, x) == [] && FrameActions(s.history, frameId, x) == Pending(orig, x)
      {
      }
    } else {
      assert pid !in done;
      forall x | x in done + [pid]
        ensures Pending(s1.pendingActions, x) == [] && FrameActions(s1.history, frameId, x) == Pending(orig, x)
      {
        if x != pid {
          assert x in done;
        }
      }
      forall x | x !in done + [pid]
        ensures Pending(s1.pendingActions, x) == Pending(orig, x) && FrameActions(s1.history, frameId, x) == []
      {
        assert x !in done;
      }
    }
  }

  lemma {:induction false} SimulatePlayersEffect(s: ClientState, frameId: int, p: nat, orig: map<int, ActionBuffer>)
    requires frameId in s.history && p <= |s.localPlayers|
    requires SimulatedUpTo(s, frameId, p, orig)
    ensures var t := SimulatePlayers(s, frameId, p);
      && SimulationFrame(s, t, frameId)
      && SimulatedUpTo(t, frameId, |s.localPlayers|, orig)
    decreases |s.localPlayers| - p
  {
    if p < |s.localPlayers| {
      var s1 := SimulatePlayer(s, frameId, p);
      SimulatePlayerEffect(s, frameId, p, orig);
      SimulatePlayersEffect(s1, frameId, p + 1, orig);
    } else {
      assert s.localPlayers[..p] == s.localPlayers;
    }
  }

  /** After simulate the frame is the last simulated one; while connected,
      every local player's pending buffer is empty and the frame holds exactly
      what was pending for that player; otherwise the frame is empty and the
      pending buffers are untouched. Other frames are unchanged. */
  lemma SimulateEffect(s: ClientState, frameId: int)
    ensures var t := SimulateStep(s, frameId);
      && t.lastFrameSimulated == frameId
      && frameId in t.history
      && (forall k :: k != frameId ==> (k in t.history <==> k in s.history) && (k in s.history ==> t.history[k] == s.history[k]))
      && (s.state == Connected ==>
            forall x :: x in PlayerIds(s.localPlayers) ==>
              Pending(t.pendingActions, x) == [] && FrameActions(t.history, frameId, x) == Pending(s.pendingActions, x))
      && (s.state == Connected ==>
            forall x :: x !in PlayerIds(s.localPlayers) ==>
              Pending(t.pendingActions, x) == Pending(s.pendingActions, x) && FrameActions(t.history, frameId, x) == [])
      && (s.state != Connected ==>
            t.pendingActions == s.pendingActions && t.history[frameId] == map[])
      && t == s.(history := t.history, pendingActions := t.pendingActions,
                 processedActions := t.processedActions, lastFrameSimulated := frameId)
  {
    var s1 := s.(history := s.history[frameId := map[]]);
    if s.state == Connected {
      assert s1.localPlayers[..0] == [];
      SimulatePlayersEffect(s1, frameId, 0, s.pendingActions);
      var t := SimulatePlayers(s1, frameId, 0);
      assert t.localPlayers[..|s.localPlayers|] == s.localPlayers;
    }
  }

  // ---------------------------------------------------------------------------
  // Message dispatch (readMessage / readMessages)

  function ReadMessageStep(cfg: Config, s: ClientState, m: Incoming): ClientState
    requires ValidConfig(cfg)
  {
    match m
    case Gamestate(sequence, declared, body) => ReadGamestateStep(cfg, s, sequence, declared, body)
    case SpawnEntity(networkId, owner, state) => SpawnStep(s, networkId, owner, state)
    case AcceptEntity(localId, remoteId) => AcceptEntityStep(s, localId, remoteId)
    case DestroyEntity(networkId) => DestroyStep(cfg, s, networkId)
    case AcceptClient(_) => ConnectionEstablishedStep(s)
    case AcceptPlayer(ids) => AcceptPlayerStep(s, ids)
    case ClockSync(_, _) => s
    case NoHandler => s
  }

  function ReadMessagesStep(cfg: Config, s: ClientState, ms: seq<Incoming>): ClientState
    requires ValidConfig(cfg)
    decreases |ms|
  {
    if ms == [] then s else ReadMessagesStep(cfg, ReadMessageStep(cfg, s, ms[0]), ms[1..])
  }

  /** Handling a message keeps the invariant: the temp-id counter is
      untouched and no id becomes pending twice. */
  lemma ReadMessagePreservesValid(cfg: Config, s: ClientState, m: Incoming)
    requires ValidConfig(cfg) && ValidState(cfg, s)
    ensures ValidState(cfg, ReadMessageStep(cfg, s, m))
    ensures ReadMessageStep(cfg, s, m).nextTempId == s.nextTempId
    ensures |ReadMessageStep(cfg, s, m).requested| == |s.requested|
  {
    match m
    case Gamestate(sequence, declared, body) =>
      GamestateStaleness(cfg, s, sequence, declared, body);
      var q := ToSequence(cfg, sequence);
      var t := ReadGamestateStep(cfg, s, sequence, declared, body);
      if !cfg.sequenceLessThan(q, s.lastReceivedState) {
        var s1 := s.(lastReceivedState := q);
        assert ScanEffect(s1, t, 0, cfg.maxNetworkedEntities);
        assert t.nextTempId == s1.nextTempId == s.nextTempId;
      }
    case SpawnEntity(networkId, owner, state) =>
      if networkId > INDEX_NONE { ClearRequestedProps(s.requested, networkId); }
    case AcceptEntity(localId, remoteId) =>
      ClearRequestedProps(s.requested, localId);
    case _ =>
  }

  lemma {:induction false} ReadMessagesPreservesValid(cfg: Config, s: ClientState, ms: seq<Incoming>)
    requires ValidConfig(cfg) && ValidState(cfg, s)
    ensures ValidState(cfg, ReadMessagesStep(cfg, s, ms))
    ensures |ReadMessagesStep(cfg, s, ms).requested| == |s.requested|
    ensures ReadMessagesStep(cfg, s, ms).nextTempId == s.nextTempId
    decreases |ms|
  {
    if ms != [] {
      ReadMessagePreservesValid(cfg, s, ms[0]);
      ReadMessagesPreservesValid(cfg, ReadMessageStep(cfg, s, ms[0]), ms[1..]);
    }
  }

  // ---------------------------------------------------------------------------
  // Construction, session reset, input polling and the per-tick update

  /** clearSession: no local players and every requested slot free. */
  function ClearSessionStep(s: ClientState): ClientState {
    s.(localPlayers := [], requested := seq(|s.requested|, _ => INDEX_NONE))
  }

  lemma ClearSessionEffect(cfg: Config, s: ClientState)
    requires IsTempId(cfg, s.nextTempId)
    ensures ValidState(cfg, ClearSessionStep(s))
    ensures forall x :: x in ClearSessionStep(s).requested ==> x == INDEX_NONE
    ensures INDEX_NONE in ClearSessionStep(s).requested <==> |s.requested| > 0
  {
    var t := ClearSessionStep(s);
    if |s.requested| > 0 {
      assert t.requested[0] == INDEX_NONE;
    }
  }

  /** The state the constructor leaves: Disconnected, frame counters at 0,
      the last received Sequence at INDEX_NONE, an empty session, and the
      temporary-id counter at its first value. */
  function InitialState(cfg: Config, entities: seq<Entity>): ClientState
    requires ValidConfig(cfg)
  {
    ClientState(Disconnected, false, 0, 0, ToSequence(cfg, INDEX_NONE),
                seq(cfg.requestedCapacity, _ => INDEX_NONE), [], FIRST_TEMP_NETWORK_ID,
                entities, map[], map[], [], [])
  }

  lemma InitialStateValid(cfg: Config, entities: seq<Entity>)
    requires ValidConfig(cfg)
    ensures ValidState(cfg, InitialState(cfg, entities))
    ensures InitialState(cfg, entities).lastReceivedState == cfg.sequenceModulus - 1
    ensures forall x :: x in InitialState(cfg, entities).requested ==> x == INDEX_NONE
  {
  }

  /** readInput from the p-th local player on: each player's pending buffer
      receives what the input hook reports for its controller. */
  function ReadInputFrom(s: ClientState, poll: (int, bool) -> ActionBuffer, p: nat): ClientState
    decreases |s.localPlayers| - p
  {
    if p >= |s.localPlayers| then s
    else
      var player := s.localPlayers[p];
      var pid := player.playerId;
      ReadInputFrom(
        s.(pendingActions := s.pendingActions[pid := Pending(s.pendingActions, pid) + poll(player.controllerId, player.listenMouseKB)]),
        poll, p + 1)
  }

  lemma {:induction false} ReadInputEffect(s: ClientState, poll: (int, bool) -> ActionBuffer, p: nat)
    ensures var t := ReadInputFrom(s, poll, p);
      && t == s.(pendingActions := t.pendingActions)
      && forall x :: x !in PlayerIds(s.localPlayers) ==> Pending(t.pendingActions, x) == Pending(s.pendingActions, x)
    decreases |s.localPlayers| - p
  {
    if p < |s.localPlayers| {
      var player := s.localPlayers[p];
      var pid := player.playerId;
      var s1 := s.(pendingActions := s.pendingActions[pid := Pending(s.pendingActions, pid) + poll(player.controllerId, player.listenMouseKB)]);
      ReadInputEffect(s1, poll, p + 1);
      assert PlayerIds(s.localPlayers)[p] == pid;
    }
  }

  /** What the input hook reports, in player order, for the players whose id
      is x: readInput appends to the buffer keyed by the player id, so players
      sharing an id share one buffer. */
  function PolledFor(players: seq<LocalPlayer>, x: int, poll: (int, bool) -> ActionBuffer): ActionBuffer {
    if players == [] then []
    else
      (if players[0].playerId == x then poll(players[0].controllerId, players[0].listenMouseKB) else [])
      + PolledFor(players[1..], x, poll)
  }

  /** Everything the input hook reports for the players, in order. */
  function Polls(players: seq<LocalPlayer>, poll: (int, bool) -> ActionBuffer): ActionBuffer {
    if players == [] then []
    else poll(players[0].controllerId, players[0].listenMouseKB) + Polls(players[1..], poll)
  }

  /** Each id's buffer in after is its buffer in before followed by what was
      polled for the players with that id. */
  ghost predicate BuffersGain(before: map<int, ActionBuffer>, after: map<int, ActionBuffer>,
                              players: seq<LocalPlayer>, poll: (int, bool) -> ActionBuffer) {
    forall x :: Pending(after, x) == Pending(before, x) + PolledFor(players, x, poll)
  }

  /** readInput from the p-th player on appends to each id's pending buffer
      exactly what was polled for the players with that id, in order. */
  lemma {:induction false} ReadInputPolls(s: ClientState, poll: (int, bool) -> ActionBuffer, p: nat)
    requires p <= |s.localPlayers|
    ensures BuffersGain(s.pendingActions, ReadInputFrom(s, poll, p).pendingActions, s.localPlayers[p..], poll)
    decreases |s.localPlayers| - p
  {
    if p < |s.localPlayers| {
      var player := s.localPlayers[p];
      var pid := player.playerId;
      var s1 := s.(pendingActions := s.pendingActions[pid := Pending(s.pendingActions, pid) + poll(player.controllerId, player.listenMouseKB)]);
      assert ReadInputFrom(s, poll, p) == ReadInputFrom(s1, poll, p + 1);
      var t := ReadInputFrom(s1, poll, p + 1);
      ReadInputPolls(s1, poll, p + 1);
      var rest := s1.localPlayers[p + 1..];
      assert s.localPlayers[p..][1..] == rest;
      forall x ensures Pending(t.pendingActions, x) == Pending(s.pendingActions, x) + PolledFor(s.localPlayers[p..], x, poll) {
        var here := if pid == x then poll(player.controllerId, player.listenMouseKB) else [];
        assert PolledFor(s.localPlayers[p..], x, poll) == here + PolledFor(rest, x, poll);
        assert Pending(s1.pendingActions, x) == Pending(s.pendingActions, x) + here;
        assert Pending(t.pendingActions, x) == Pending(s1.pendingActions, x) + PolledFor(rest, x, poll);
        AppendAssoc(Pending(s.pendingActions, x), here, PolledFor(rest, x, poll));
      }
    } else {
      assert s.localPlayers[p..] == [];
      forall x ensures Pending(s.pendingActions, x) == Pending(s.pendingActions, x) + PolledFor(s.localPlayers[p..], x, poll) {
        assert Pending(s.pendingActions, x) + [] == Pending(s.pendingActions, x);
      }
    }
  }

  /** With distinct player ids, player k's buffer receives just its own
      poll, and ids of no player receive nothing. */
  lemma {:induction false} PolledForDistinct(players: seq<LocalPlayer>, poll: (int, bool) -> ActionBuffer)
    requires forall i, j :: 0 <= i < j < |players| ==> players[i].playerId != players[j].playerId
    ensures forall k :: 0 <= k < |players| ==>
      PolledFor(players, players[k].playerId, poll) == poll(players[k].controllerId, players[k].listenMouseKB)
    ensures forall x :: x !in PlayerIds(players) ==> PolledFor(players, x, poll) == []
  {
    if players != [] {
      var tail := players[1..];
      PolledForDistinct(tail, poll);
      forall k | 0 <= k < |players|
        ensures PolledFor(players, players[k].playerId, poll) == poll(players[k].controllerId, players[k].listenMouseKB)
      {
        var x := players[k].playerId;
        if k == 0 {
          PolledForAbsent(tail, x, poll);
          assert PolledFor(players, x, poll) == poll(players[0].controllerId, players[0].listenMouseKB) + [];
        } else {
          assert tail[k - 1] == players[k];
          assert players[0].playerId != x;
        }
      }
      forall x | x !in PlayerIds(players) ensures PolledFor(players, x, poll) == [] {
        assert PlayerIds(players)[0] == players[0].playerId;
        assert x !in PlayerIds(tail) by {
          forall i | 0 <= i < |tail| ensures PlayerIds(tail)[i] != x {
            assert PlayerIds(players)[i + 1] == tail[i].playerId;
          }
        }
      }
    }
  }

  /** An id that no player has polls nothing. */
  lemma {:induction false} PolledForAbsent(players: seq<LocalPlayer>, x: int, poll: (int, bool) -> ActionBuffer)
    requires forall i :: 0 <= i < |players| ==> players[i].playerId != x
    ensures PolledFor(players, x, poll) == []
  {
    if players != [] {
      PolledForAbsent(players[1..], x, poll);
    }
  }

  /** When every player has the same id (all INDEX_NONE before the server
      accepts them), every poll lands in that one buffer, in player order. */
  lemma {:induction false} PolledForShared(players: seq<LocalPlayer>, x: int, poll: (int, bool) -> ActionBuffer)
    requires forall i :: 0 <= i < |players| ==> players[i].playerId == x
    ensures PolledFor(players, x, poll) == Polls(players, poll)
  {
    if players != [] {
      PolledForShared(players[1..], x, poll);
    }
  }

  /** readInput over players with distinct ids: each player's buffer gains
      just its own poll. */
  lemma ReadInputDistinct(s: ClientState, poll: (int, bool) -> ActionBuffer)
    requires forall i, j :: 0 <= i < j < |s.localPlayers| ==> s.localPlayers[i].playerId != s.localPlayers[j].playerId
    ensures forall k :: 0 <= k < |s.localPlayers| ==>
      Pending(ReadInputFrom(s, poll, 0).pendingActions, s.localPlayers[k].playerId)
        == Pending(s.pendingActions, s.localPlayers[k].playerId)
           + poll(s.localPlayers[k].controllerId, s.localPlayers[k].listenMouseKB)
  {
    ReadInputPolls(s, poll, 0);
    assert s.localPlayers[0..] == s.localPlayers;
    PolledForDistinct(s.localPlayers, poll);
  }

  /** readInput over players that all have the same id (all INDEX_NONE
      before the server accepts them): that one buffer gains every poll, in
      player order. */
  lemma ReadInputShared(s: ClientState, poll: (int, bool) -> ActionBuffer, x: int)
    requires forall i :: 0 <= i < |s.localPlayers| ==> s.localPlayers[i].playerId == x
    ensures Pending(ReadInputFrom(s, poll, 0).pendingActions, x)
      == Pending(s.pendingActions, x) + Polls(s.localPlayers, poll)
  {
    ReadInputPolls(s, poll, 0);
    assert s.localPlayers[0..] == s.localPlayers;
    PolledForShared(s.localPlayers, x, poll);
  }

  /** One update tick of a client that is not disconnected: the messages the
      connection yields are handled, input is polled, and, when connected and
      the input interval has elapsed, inputs are sent and owned entities
      synced. */
  function UpdateStep(cfg: Config, s: ClientState, incoming: seq<Incoming>,
                      poll: (int, bool) -> ActionBuffer, inputDue: bool): ClientState
    requires ValidConfig(cfg)
  {
    if s.state == Disconnected then s
    else
      var s1 := ReadInputFrom(ReadMessagesStep(cfg, s, incoming), poll, 0);
      if s1.state == Connected && inputDue then SyncAllOwned(SendPlayerActionsStep(cfg, s1), 0) else s1
  }

  /** A disconnected client does nothing on update; otherwise the tick keeps
      the invariant and never changes the temporary-id counter. */
  lemma UpdateEffect(cfg: Config, s: ClientState, incoming: seq<Incoming>,
                     poll: (int, bool) -> ActionBuffer, inputDue: bool)
    requires ValidConfig(cfg) && ValidState(cfg, s)
    ensures s.state == Disconnected ==> UpdateStep(cfg, s, incoming, poll, inputDue) == s
    ensures ValidState(cfg, UpdateStep(cfg, s, incoming, poll, inputDue))
    ensures UpdateStep(cfg, s, incoming, poll, inputDue).nextTempId == s.nextTempId
  {
    if s.state != Disconnected {
      ReadMessagesPreservesValid(cfg, s, incoming);
      var s0 := ReadMessagesStep(cfg, s, incoming);
      ReadInputEffect(s0, poll, 0);
      var s1 := ReadInputFrom(s0, poll, 0);
      if s1.state == Connected && inputDue {
        SendPlayerActionsEffect(cfg, s1);
        var s2 := SendPlayerActionsStep(cfg, s1);
        if !cfg.sequenceLessThan(s1.lastFrameSimulated, s1.lastFrameSent) && !cfg.isServer
           && s1.lastFrameSent in s1.history {
          SendFramesEffect(cfg, s1, s1.lastFrameSent, s1.lastFrameSent, 0, FramesToSend(s1));
        }
        SyncAllOwnedEffect(s2, 0);
      }
    }
  }
}
