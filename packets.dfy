/** The acceptance filter a client applies to every datagram it receives:
    the payload-length bound, the channel read off the header sentinels, the
    checksum over the payload followed by the protocol id, and the match of
    the sender against the single known peer. */
module Packets {
  import opened Utility

  type byte = x: int | 0 <= x < 256

  datatype ChannelType = Unreliable | ReliableOrdered

  datatype PacketHeader = PacketHeader(sequence: int, ackSequence: int, ackBits: int, dataLength: nat)

  datatype Address = Address(host: nat, port: nat)

  /** A received datagram once its checksum and header have been read:
      `body` holds the bytes that follow the header. */
  datatype Datagram = Datagram(checksum: int, header: PacketHeader, body: seq<byte>, sender: Address)

  datatype Packet = Packet(channel: ChannelType, header: PacketHeader, payload: seq<byte>)

  /** The constants and collaborators the filter depends on: g_maxBlockSize,
      the all-ones value of a Sequence, the bytes of g_protocolId, the CRC
      function crcFast, and the address of the connection's peer. */
  datatype FilterParams = FilterParams(
    maxBlockSize: nat,
    sequenceAllOnes: int,
    protocolId: seq<byte>,
    crc: seq<byte> -> int,
    peer: Address)

  const ACK_BITS_ALL_ONES: int := 0xFFFF_FFFF

  /** The sentinel header (all three sequence fields all-ones) marks the
      unreliable channel; every other header is reliable-ordered. */
  function Classify(h: PacketHeader, sequenceAllOnes: int): (c: ChannelType)
    ensures c == Unreliable <==>
      (h.sequence == sequenceAllOnes && h.ackBits == ACK_BITS_ALL_ONES && h.ackSequence == sequenceAllOnes)
  {
    if h.sequence == sequenceAllOnes && h.ackBits == ACK_BITS_ALL_ONES && h.ackSequence == sequenceAllOnes
    then Unreliable
    else ReliableOrdered
  }

  /** The dataLength bytes read after the header; bytes past the end of the
      datagram read as zero. */
  function ReadPayload(body: seq<byte>, n: nat): (r: seq<byte>)
    ensures |r| == n
    ensures forall i :: 0 <= i < n ==> r[i] == (if i < |body| then body[i] else 0)
  {
    if n <= |body| then body[..n] else body + seq(n - |body|, _ => 0)
  }

  /** The decision receivePackets makes for one datagram: the packet handed
      to the connection, or nothing when it is dropped. */
  function Accept(params: FilterParams, d: Datagram): Option<Packet> {
    if d.header.dataLength < params.maxBlockSize then
      var payload := ReadPayload(d.body, d.header.dataLength);
      if d.checksum == params.crc(payload + params.protocolId) && d.sender == params.peer then
        Some(Packet(Classify(d.header, params.sequenceAllOnes), d.header, payload))
      else None
    else None
  }

  /** A datagram is delivered exactly when its length is in bounds, its
      checksum matches the payload bound to the protocol id, and it comes from
      the peer; the delivered packet carries the header's channel. */
  lemma AcceptIff(params: FilterParams, d: Datagram)
    ensures Accept(params, d).Some? <==>
      && d.header.dataLength < params.maxBlockSize
      && d.checksum == params.crc(ReadPayload(d.body, d.header.dataLength) + params.protocolId)
      && d.sender == params.peer
    ensures Accept(params, d).Some? ==>
      && Accept(params, d).value.header == d.header
      && |Accept(params, d).value.payload| == d.header.dataLength
      && (Accept(params, d).value.channel == Unreliable <==>
            (d.header.sequence == params.sequenceAllOnes && d.header.ackBits == ACK_BITS_ALL_ONES
             && d.header.ackSequence == params.sequenceAllOnes))
  {
  }

  /** The packets handed to the connection, in arrival order. */
  function AcceptAll(params: FilterParams, ds: seq<Datagram>): (r: seq<Packet>)
    ensures |r| <= |ds|
  {
    if ds == [] then []
    else
      var rest := AcceptAll(params, ds[..|ds| - 1]);
      match Accept(params, ds[|ds| - 1])
      case Some(p) => rest + [p]
      case None => rest
  }

  /** Packet p was read from datagram d, sent by the peer, with a matching checksum. */
  ghost predicate CarriedBy(params: FilterParams, d: Datagram, p: Packet) {
    d.sender == params.peer && d.header == p.header
    && d.checksum == params.crc(p.payload + params.protocolId)
  }

  /** Every delivered packet passed the filter: its payload fits the block
      size and its checksum covers that payload followed by the protocol id. */
  lemma {:induction false} AcceptAllSound(params: FilterParams, ds: seq<Datagram>)
    ensures forall p :: p in AcceptAll(params, ds) ==>
      && p.header.dataLength < params.maxBlockSize
      && |p.payload| == p.header.dataLength
      && exists d :: d in ds && CarriedBy(params, d, p)
  {
    if ds != [] {
      AcceptAllSound(params, ds[..|ds| - 1]);
      var last := ds[|ds| - 1];
      forall p | p in AcceptAll(params, ds)
        ensures exists d :: d in ds && CarriedBy(params, d, p)
      {
        if p in AcceptAll(params, ds[..|ds| - 1]) {
          var d :| d in ds[..|ds| - 1] && CarriedBy(params, d, p);
          assert d in ds;
        } else {
          assert Accept(params, last) == Some(p);
          assert last in ds;
        }
      }
    }
  }

  /** Every datagram that passes the filter is delivered, and the packets
      keep the arrival order of their datagrams. */
  lemma {:induction false} AcceptAllComplete(params: FilterParams, ds: seq<Datagram>, i: nat)
    requires i < |ds| && Accept(params, ds[i]).Some?
    ensures Accept(params, ds[i]).value in AcceptAll(params, ds)
    ensures AcceptAll(params, ds[..i + 1]) == AcceptAll(params, ds[..i]) + [Accept(params, ds[i]).value]
    ensures AcceptAll(params, ds[..i + 1]) <= AcceptAll(params, ds)
    decreases |ds|
  {
    assert ds[..i + 1][..i] == ds[..i];
    if i < |ds| - 1 {
      var prefix := ds[..|ds| - 1];
      AcceptAllComplete(params, prefix, i);
      assert prefix[..i + 1] == ds[..i + 1];
      assert prefix[..i] == ds[..i];
    } else {
      assert ds[..i + 1] == ds;
    }
  }

  /** receivePackets: drains the received datagrams and hands every one that
      passes the filter to the connection, in order. */
  method ReceivePackets(params: FilterParams, datagrams: seq<Datagram>) returns (delivered: seq<Packet>)
    ensures delivered == AcceptAll(params, datagrams)
  {
    delivered := [];
    var i := 0;
    while i < |datagrams|
      invariant 0 <= i <= |datagrams|
      invariant delivered == AcceptAll(params, datagrams[..i])
    {
      var d := datagrams[i];
      if d.header.dataLength < params.maxBlockSize {
        var channel := Classify(d.header, params.sequenceAllOnes);
        var payload := ReadPayload(d.body, d.header.dataLength);
        if d.checksum == params.crc(payload + params.protocolId) {
          if d.sender == params.peer {
            delivered := delivered + [Packet(channel, d.header, payload)];
          }
        }
      }
      assert datagrams[..i + 1][..i] == datagrams[..i];
      i := i + 1;
    }
    assert datagrams[..i] == datagrams;
  }
}
