/** The UDP data packet: built by the sender, judged by the receiver. */
module Packets {
  import opened Outcomes
  import opened Text
  import opened Layouts
  import opened Disks

  const HEADER_SIZE: nat := 28
  const TAG_SIZE: nat := 16

  /** The truncated MAC under this session's packet key, over header and payload. */
  type Tag = Bytes -> Bytes

  datatype Datagram = Datagram(sequence: nat, repair: bool, payload: Bytes)

  ghost predicate ValidTag(tag: Tag) {
    forall b :: |tag(b)| == TAG_SIZE
  }

  function PayloadLength(l: Layout, sequence: nat): nat {
    var offset := sequence * l.payload;
    Min(if offset < l.size then l.size - offset else 0, l.payload)
  }

  lemma PayloadLengthIsChunkLength(l: Layout, k: nat)
    requires ValidLayout(l) && k < l.chunks
    ensures PayloadLength(l, k) == Edge(l, k + 1) - Edge(l, k)
  {
    ChunkShape(l, k);
    assert (k + 1) * l.payload == k * l.payload + l.payload;
  }

  /** The twelve header bytes the tag covers. */
  function Head(sequence: nat, repair: bool, length: nat): (h: Bytes)
    ensures |h| == 12
  {
    [4] + BigEndian(sequence, 8) + [if repair then 1 else 0] + BigEndian(length, 2)
  }

  /** `build_packet`: refuses a chunk beyond the object */
  function BuildPacket(l: Layout, source: Bytes, tag: Tag, k: nat, repair: bool): Result<Bytes>
    requires |source| == l.size
  {
    if k * l.payload >= l.size && l.size != 0 then Err else
      var payload := source[Edge(l, k)..Edge(l, k) + PayloadLength(l, k)];
      var head := Head(k, repair, |payload|);
      Ok(head + tag(head + payload) + payload)
  }

  /** `udp.recv` into a buffer one byte longer than the longest packet */
  function Delivered(l: Layout, wire: Bytes): Bytes {
    wire[..Min(|wire|, HEADER_SIZE + l.payload + 1)]
  }

  /** The receiver's checks, in order; `None` counts as one invalid datagram. */
  function Accept(l: Layout, tag: Tag, wire: Bytes): Option<Datagram> {
    var p := Delivered(l, wire);
    if |p| < HEADER_SIZE then None
    else if p[0] != 4 then None
    else
      var sequence := FromBigEndian(p[1..9]);
      if p[9] != 0 && p[9] != 1 then None
      else
        var length := FromBigEndian(p[10..12]);
        if sequence >= l.chunks || length > l.payload || |p| != HEADER_SIZE + length then None
        else if tag(p[..12] + p[28..]) != p[12..28] then None
        else if length != PayloadLength(l, sequence) then None
        else Some(Datagram(sequence, p[9] == 1, p[28..]))
  }

  lemma HeadParts(sequence: nat, repair: bool, length: nat)
    requires sequence < Pow256(8) && length < Pow256(2)
    ensures var h := Head(sequence, repair, length);
            h[0] == 4 && FromBigEndian(h[1..9]) == sequence && (h[9] == if repair then 1 else 0)
            && FromBigEndian(h[10..12]) == length
  {
    var h := Head(sequence, repair, length);
    assert h[1..9] == BigEndian(sequence, 8) && h[10..12] == BigEndian(length, 2);
    FromBigEndianOf(sequence, 8);
    FromBigEndianOf(length, 2);
  }

  /** The receiver accepts every packet the sender builds, and reads back chunk, kind and payload. */
  lemma BuiltPacketsAreAccepted(l: Layout, source: Bytes, tag: Tag, k: nat, repair: bool)
    requires ValidLayout(l) && |source| == l.size && ValidTag(tag) && k < l.chunks
    ensures BuildPacket(l, source, tag, k, repair).Ok?
    ensures Accept(l, tag, BuildPacket(l, source, tag, k, repair).value)
         == Some(Datagram(k, repair, ChunkOf(l, source, k)))
  {
    ChunkShape(l, k);
    PayloadLengthIsChunkLength(l, k);
    Pow256Of8();
    var payload := ChunkOf(l, source, k);
    var head := Head(k, repair, |payload|);
    var p := head + tag(head + payload) + payload;
    HeadParts(k, repair, |payload|);
    assert BuildPacket(l, source, tag, k, repair) == Ok(p);
    assert Delivered(l, p) == p;
    assert p[..12] == head && p[12..28] == tag(head + payload) && p[28..] == payload;
    assert p[1..9] == head[1..9] && p[10..12] == head[10..12];
  }

  /** What the honest sender of this session authenticates: its own chunks, as originals or repairs. */
  ghost predicate Authenticated(l: Layout, source: Bytes, input: Bytes)
    requires |source| == l.size
  {
    exists k: nat, repair: bool ::
      k < l.chunks && input == Head(k, repair, |ChunkOf(l, source, k)|) + ChunkOf(l, source, k)
  }

  /** What the receiver reads of the datagram carries a tag of this session over the rest of it. */
  predicate Verifies(l: Layout, tag: Tag, wire: Bytes) {
    var p := Delivered(l, wire);
    |p| >= HEADER_SIZE && tag(p[..12] + p[28..]) == p[12..28]
  }

  /** The MAC cannot be forged: a tag that verifies was computed by the sender. */
  ghost predicate Unforged(l: Layout, source: Bytes, tag: Tag, wire: Bytes)
    requires |source| == l.size
  {
    var p := Delivered(l, wire);
    Verifies(l, tag, wire) ==> Authenticated(l, source, p[..12] + p[28..])
  }

  /** Under that assumption an accepted datagram carries the source's bytes for its chunk. */
  lemma AcceptedPayloadIsSource(l: Layout, source: Bytes, tag: Tag, wire: Bytes)
    requires ValidLayout(l) && |source| == l.size && Unforged(l, source, tag, wire)
    requires Accept(l, tag, wire).Some?
    ensures var g := Accept(l, tag, wire).value;
            g.sequence < l.chunks && g.payload == ChunkOf(l, source, g.sequence)
  {
    var p := Delivered(l, wire);
    var k: nat, repair :| k < l.chunks
      && p[..12] + p[28..] == Head(k, repair, |ChunkOf(l, source, k)|) + ChunkOf(l, source, k);
    var head := Head(k, repair, |ChunkOf(l, source, k)|);
    Pow256Of8();
    ChunkShape(l, k);
    HeadParts(k, repair, |ChunkOf(l, source, k)|);
    assert (p[..12] + p[28..])[..12] == p[..12] && (p[..12] + p[28..])[12..] == p[28..];
    assert p[..12] == head && p[28..] == ChunkOf(l, source, k);
    assert p[1..9] == head[1..9];
  }

  lemma AcceptedShape(l: Layout, tag: Tag, wire: Bytes)
    requires ValidLayout(l) && Accept(l, tag, wire).Some?
    ensures var g := Accept(l, tag, wire).value;
            g.sequence < l.chunks && |g.payload| == Edge(l, g.sequence + 1) - Edge(l, g.sequence)
  {
    PayloadLengthIsChunkLength(l, Accept(l, tag, wire).value.sequence);
  }

  /** The packet for a chunk: version, number, kind, length, tag and payload. */
  ghost predicate IsPacket(tag: Tag, wire: Bytes, k: nat, repair: bool, payload: Bytes) {
    && |wire| == 28 + |payload| && wire[0] == 4 && wire[1..9] == BigEndian(k, 8)
    && (wire[9] == if repair then 1 else 0) && wire[10..12] == BigEndian(|payload|, 2)
    && wire[12..28] == tag(wire[..12] + payload) && wire[28..] == payload
  }

  lemma HeadIs(h: Bytes, k: nat, repair: bool, length: nat)
    ensures h == Head(k, repair, length) <==>
            |h| == 12 && h[0] == 4 && h[1..9] == BigEndian(k, 8) && (h[9] == if repair then 1 else 0)
            && h[10..12] == BigEndian(length, 2)
  {
    if |h| == 12 && h[0] == 4 && h[1..9] == BigEndian(k, 8) && (h[9] == if repair then 1 else 0)
       && h[10..12] == BigEndian(length, 2)
    {
      assert h == [h[0]] + h[1..9] + [h[9]] + h[10..12];
    }
  }

  lemma NumberIff(bytes: Bytes, n: nat)
    requires n < Pow256(|bytes|)
    ensures FromBigEndian(bytes) == n <==> bytes == BigEndian(n, |bytes|)
  {
    BigEndianOf(bytes);
    FromBigEndianOf(n, |bytes|);
  }

  lemma PayloadFits(l: Layout, k: nat)
    requires ValidLayout(l) && k < l.chunks
    ensures k < Pow256(8) && PayloadLength(l, k) <= l.payload < Pow256(2)
  {
    Pow256Of8();
  }

  lemma AcceptedIsPacket(l: Layout, tag: Tag, wire: Bytes, g: Datagram)
    requires ValidLayout(l) && Accept(l, tag, wire) == Some(g)
    ensures g.sequence < l.chunks && |g.payload| == PayloadLength(l, g.sequence)
    ensures IsPacket(tag, wire, g.sequence, g.repair, g.payload)
  {
    PayloadFits(l, g.sequence);
    assert Delivered(l, wire) == wire;
    NumberIff(wire[1..9], g.sequence);
    NumberIff(wire[10..12], |g.payload|);
  }

  lemma PacketIsAccepted(l: Layout, tag: Tag, wire: Bytes, k: nat, repair: bool, payload: Bytes)
    requires ValidLayout(l) && k < l.chunks && |payload| == PayloadLength(l, k)
    requires IsPacket(tag, wire, k, repair, payload)
    ensures Accept(l, tag, wire) == Some(Datagram(k, repair, payload))
  {
    PayloadFits(l, k);
    assert Delivered(l, wire) == wire;
    NumberIff(wire[1..9], k);
    NumberIff(wire[10..12], |payload|);
  }

  /**
    A datagram is accepted for chunk `k` with this payload if and only if, byte for byte, it is a packet of this
    session for a chunk of the object with a payload of exactly that chunk's length.
  */
  lemma AcceptIff(l: Layout, tag: Tag, wire: Bytes, k: nat, repair: bool, payload: Bytes)
    requires ValidLayout(l)
    ensures Accept(l, tag, wire) == Some(Datagram(k, repair, payload)) <==>
            k < l.chunks && |payload| == Edge(l, k + 1) - Edge(l, k) && IsPacket(tag, wire, k, repair, payload)
  {
    if k < l.chunks {
      PayloadLengthIsChunkLength(l, k);
      if |payload| == PayloadLength(l, k) && IsPacket(tag, wire, k, repair, payload) {
        PacketIsAccepted(l, tag, wire, k, repair, payload);
      }
    }
    if Accept(l, tag, wire) == Some(Datagram(k, repair, payload)) {
      AcceptedIsPacket(l, tag, wire, Datagram(k, repair, payload));
    }
  }

  /** What the sender builds for a chunk of the object is the packet for it, with the source's bytes. */
  lemma BuildPacketIff(l: Layout, source: Bytes, tag: Tag, k: nat, repair: bool, wire: Bytes)
    requires ValidLayout(l) && |source| == l.size && ValidTag(tag) && k < l.chunks
    ensures BuildPacket(l, source, tag, k, repair) == Ok(wire) <==>
            IsPacket(tag, wire, k, repair, source[Edge(l, k)..Edge(l, k + 1)])
  {
    ChunkShape(l, k);
    PayloadLengthIsChunkLength(l, k);
    var payload := ChunkOf(l, source, k);
    var head := Head(k, repair, |payload|);
    var p := head + tag(head + payload) + payload;
    HeadIs(head, k, repair, |payload|);
    PacketHasParts(tag, head, payload, k, repair);
    if IsPacket(tag, wire, k, repair, payload) {
      HeadIs(wire[..12], k, repair, |payload|);
      assert wire == wire[..12] + wire[12..28] + wire[28..];
    }
  }

  lemma PacketHasParts(tag: Tag, head: Bytes, payload: Bytes, k: nat, repair: bool)
    requires head == Head(k, repair, |payload|) && |tag(head + payload)| == 16
    ensures IsPacket(tag, head + tag(head + payload) + payload, k, repair, payload)
  {
    var p := head + tag(head + payload) + payload;
    assert p[..12] == head && p[12..28] == tag(head + payload) && p[28..] == payload;
    HeadIs(head, k, repair, |payload|);
    assert p[1..9] == head[1..9] && p[10..12] == head[10..12];
  }
}
