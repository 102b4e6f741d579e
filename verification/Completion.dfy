/**
  The run the protocol is for: from whatever an honest past left at the destination, any valid object,
  once every chunk arrives, reaches a state in which the sender has learnt of completion. So the safety
  theorems do not hold for want of runs.
*/
module Completion {
  import opened Outcomes
  import opened Bitmaps
  import opened Layouts
  import opened Disks
  import opened ResumeMaps
  import opened Packets
  import opened Receivers
  import opened Transfers
  import opened Durability
  import opened RepairRounds

  /** One more event at the end of an honest run. */
  lemma {:induction false} Extend(digest: Digest, s: System, events: seq<Event>, m: System, e: Event, z: Offer)
    returns (t: System)
    requires CollisionFree(digest) && ValidOffer(digest, z) && HonestRun(digest, s, events, m, z)
    requires Enabled(digest, m, e) && Honest(digest, m, e, z)
    ensures t == Step(digest, m, e) && HonestRun(digest, s, events + [e], t, z)
    decreases |events|
  {
    t := Step(digest, m, e);
    if events == [] {
      assert [] + [e] == [e] && [e][1..] == [];
      assert HonestRun(digest, t, [], t, z);
    } else {
      var u := Extend(digest, Step(digest, s, events[0]), events[1..], m, e, z);
      assert (events + [e])[1..] == events[1..] + [e];
    }
  }

  /** No process, and whatever an honest past left on disk, settled. */
  ghost predicate Rested(digest: Digest, s: System, z: Offer)
    requires CollisionFree(digest) && ValidOffer(digest, z)
  {
    Initial(s) && s.offer.None? && Sound(digest, s.disk, z)
  }

  ghost predicate Underway(digest: Digest, s: System, events: seq<Event>, t: System, z: Offer)
    requires CollisionFree(digest) && ValidOffer(digest, z)
  {
    HonestRun(digest, s, events, t, z) && t.offer == Some(z) && Held(digest, t, z) && !t.announced && !t.complete
  }

  /** `Extend`, with what is needed to go on. */
  lemma Proceed(digest: Digest, s: System, events: seq<Event>, m: System, e: Event, z: Offer)
    returns (more: seq<Event>, t: System)
    requires CollisionFree(digest) && ValidOffer(digest, z) && Held(digest, s, z) && HonestRun(digest, s, events, m, z)
    requires Enabled(digest, m, e) && Honest(digest, m, e, z)
    ensures more == events + [e] && t == Step(digest, m, e)
    ensures HonestRun(digest, s, more, t, z) && Held(digest, t, z)
  {
    t := Extend(digest, s, events, m, e, z);
    more := events + [e];
    RunIsHeld(digest, s, more, t, z);
  }

  lemma RestedIsHeld(digest: Digest, s: System, z: Offer)
    requires CollisionFree(digest) && ValidOffer(digest, z) && Rested(digest, s, z)
    ensures Held(digest, s, z) && HonestRun(digest, s, [], s, z)
  {
  }

  lemma BeginRun(digest: Digest, s: System, z: Offer) returns (events: seq<Event>, t: System)
    requires CollisionFree(digest) && ValidOffer(digest, z) && Rested(digest, s, z)
    ensures Held(digest, s, z) && Underway(digest, s, events, t, z)
    ensures t.phase == Started && t.disk == s.disk
  {
    RestedIsHeld(digest, s, z);
    events, t := Proceed(digest, s, [], s, Begin(z), z);
  }

  /** Truncate and size the partial file, over whatever was there. */
  lemma FreshRun(digest: Digest, s: System, before: seq<Event>, m: System, z: Offer)
    returns (events: seq<Event>, t: System)
    requires CollisionFree(digest) && ValidOffer(digest, z) && Held(digest, s, z) && Underway(digest, s, before, m, z)
    requires OpenEnabled(digest, m, OpenTruncate)
    ensures Underway(digest, s, events, t, z) && t.phase.Reusing?
  {
    events, t := Proceed(digest, s, before, m, Open(OpenTruncate), z);
    events, t := Proceed(digest, s, events, t, Open(OpenSize), z);
    events, t := SaveRun(digest, s, events, t, z);
  }

  /** `open`: resume from a map that is trusted, else start a fresh object. */
  lemma OpenRun(digest: Digest, s: System, before: seq<Event>, m: System, z: Offer)
    returns (events: seq<Event>, t: System)
    requires CollisionFree(digest) && ValidOffer(digest, z) && Held(digest, s, z) && Underway(digest, s, before, m, z)
    requires m.phase == Started && !DestinationComplete(digest, m.disk, z)
    ensures Underway(digest, s, events, t, z) && t.phase.Reusing?
  {
    if Resumable(m.disk, KeyOf(digest, z)).Some? {
      events, t := Proceed(digest, s, before, m, Open(OpenResume), z);
    } else {
      events, t := FreshRun(digest, s, before, m, z);
    }
  }

  /** The effects of one checkpoint. */
  lemma SaveRun(digest: Digest, s: System, before: seq<Event>, m: System, z: Offer)
    returns (events: seq<Event>, t: System)
    requires CollisionFree(digest) && ValidOffer(digest, z) && Held(digest, s, z) && Underway(digest, s, before, m, z)
    requires m.phase.Saving? && m.phase.stage == ToSync
    ensures Underway(digest, s, events, t, z) && t.phase == m.phase.next
  {
    events, t := CreateRun(digest, s, before, m, z);
    events, t := WriteRun(digest, s, events, t, z);
    events, t := RenameRun(digest, s, events, t, z);
  }

  lemma CreateRun(digest: Digest, s: System, before: seq<Event>, m: System, z: Offer)
    returns (events: seq<Event>, t: System)
    requires CollisionFree(digest) && ValidOffer(digest, z) && Held(digest, s, z) && Underway(digest, s, before, m, z)
    requires m.phase.Saving? && m.phase.stage == ToSync
    ensures Underway(digest, s, events, t, z) && t.phase == m.phase.(stage := ToWrite)
    ensures t.disk.temp.Some? && Latest(t.disk.temp.value) == []
  {
    events, t := Proceed(digest, s, before, m, Save(SaveSync), z);
    events, t := Proceed(digest, s, events, t, Save(SaveCreate), z);
  }

  lemma WriteRun(digest: Digest, s: System, before: seq<Event>, m: System, z: Offer)
    returns (events: seq<Event>, t: System)
    requires CollisionFree(digest) && ValidOffer(digest, z) && Held(digest, s, z) && Underway(digest, s, before, m, z)
    requires m.phase.Saving? && m.phase.stage == ToWrite && m.disk.temp.Some? && Latest(m.disk.temp.value) == []
    ensures Underway(digest, s, events, t, z) && t.phase == m.phase
    ensures t.disk.temp.Some? && Latest(t.disk.temp.value) == EncodeMap(KeyOf(digest, z), m.phase.bitmap)
  {
    var content := EncodeMap(KeyOf(digest, z), m.phase.bitmap);
    events, t := Proceed(digest, s, before, m, Save(SaveWrite(|content|)), z);
    assert [] + content[0..|content|] == content;
  }

  lemma RenameRun(digest: Digest, s: System, before: seq<Event>, m: System, z: Offer)
    returns (events: seq<Event>, t: System)
    requires CollisionFree(digest) && ValidOffer(digest, z) && Held(digest, s, z) && Underway(digest, s, before, m, z)
    requires m.phase.Saving? && m.phase.stage == ToWrite && m.disk.temp.Some?
    requires Latest(m.disk.temp.value) == EncodeMap(KeyOf(digest, z), m.phase.bitmap)
    ensures Underway(digest, s, events, t, z) && t.phase == m.phase.next
  {
    events, t := Proceed(digest, s, before, m, Save(SaveSyncTemp), z);
    events, t := Proceed(digest, s, events, t, Save(SaveRename), z);
  }

  /** Into the datagram loop, with whatever was resumed. */
  lemma LoopRun(digest: Digest, s: System, before: seq<Event>, m: System, z: Offer)
    returns (events: seq<Event>, t: System)
    requires CollisionFree(digest) && ValidOffer(digest, z) && Held(digest, s, z) && Underway(digest, s, before, m, z)
    requires m.phase.Reusing?
    ensures Underway(digest, s, events, t, z)
    ensures t.phase.Serving? && Ready(z.layout, t.disk, t.phase.r)
    ensures Consistent(z.layout, t.phase.r, m.phase.received) && Counted(t.phase.r.telemetry, 0)
  {
    StartIsConsistent(z.layout, Latest(m.disk.part.value), m.phase.bitmap);
    events, t := Proceed(digest, s, before, m, Open(Go), z);
  }

  /** Every datagram of a list arrives, in order. */
  lemma {:induction false} ArriveRun(digest: Digest, s: System, before: seq<Event>, m: System, z: Offer,
                                     wires: seq<Bytes>)
    returns (events: seq<Event>, t: System)
    requires CollisionFree(digest) && ValidOffer(digest, z) && Held(digest, s, z) && Underway(digest, s, before, m, z)
    requires m.phase.Serving? && Ready(z.layout, m.disk, m.phase.r)
    requires forall i :: 0 <= i < |wires| ==> Unforged(z.layout, z.source, z.tag, wires[i])
    ensures Underway(digest, s, events, t, z)
    ensures t.phase.Serving? && (t.disk, t.phase.r) == Serve(z.layout, z.tag, m.disk, m.phase.r, wires)
  {
    if wires == [] {
      events, t := before, m;
    } else {
      events, t := ArriveRun(digest, s, before, m, z, wires[..|wires| - 1]);
      events, t := Proceed(digest, s, events, t, Loop(Arrive(wires[|wires| - 1])), z);
    }
  }

  /** With every chunk in, END, the digest and the installation lead to a completion the sender learns of. */
  lemma FinishRun(digest: Digest, s: System, before: seq<Event>, m: System, z: Offer)
    returns (events: seq<Event>, t: System)
    requires CollisionFree(digest) && ValidOffer(digest, z) && Held(digest, s, z) && Underway(digest, s, before, m, z)
    requires m.phase.Serving? && m.phase.r.received == |Members(m.phase.r.bitmap)| == z.layout.chunks
    ensures HonestRun(digest, s, events, t, z) && t.complete && t.disk.dest == Some([z.source])
  {
    events, t := Proceed(digest, s, before, m, Loop(End), z);
    var file := Latest(t.disk.part.value);
    FullReceiptHashesWholeFile(z.layout, file, t.phase.r);
    EverythingCorrectIsSource(z, file, t.phase.r.bitmap);
    events, t := Proceed(digest, s, events, t, Loop(Finish), z);
    assert t.phase == Verified;
    events, t := InstallRun(digest, s, events, t, z);
  }

  lemma InstallRun(digest: Digest, s: System, before: seq<Event>, m: System, z: Offer)
    returns (events: seq<Event>, t: System)
    requires CollisionFree(digest) && ValidOffer(digest, z) && Held(digest, s, z) && Underway(digest, s, before, m, z)
    requires m.phase == Verified
    ensures HonestRun(digest, s, events, t, z) && t.complete && t.disk.dest == Some([z.source])
  {
    events, t := Proceed(digest, s, before, m, Close(InstallRename), z);
    events, t := Proceed(digest, s, events, t, Close(InstallRemove), z);
    events, t := Proceed(digest, s, events, t, Close(SendComplete), z);
    events, t := Proceed(digest, s, events, t, DeliverComplete, z);
  }

  lemma EverythingCorrectIsSource(z: Offer, file: Bytes, bitmap: seq<Word>)
    requires ValidLayout(z.layout) && |z.source| == z.layout.size && Correct(z.layout, file, z.source, bitmap)
    requires Fits(bitmap, z.layout.chunks) && |Members(bitmap)| == z.layout.chunks
    ensures file == z.source
  {
    FullIffAllReceived(bitmap, z.layout.chunks);
    EqualChunksEqualObjects(z.layout, file, z.source);
  }

  function Upto(n: nat): (ks: seq<nat>)
    ensures |ks| == n && forall i :: 0 <= i < n ==> ks[i] == i
  {
    seq(n, i => i)
  }

  lemma OwnPacketsAreUnforged(l: Layout, source: Bytes, tag: Tag, ks: seq<nat>, i: nat)
    requires ValidLayout(l) && |source| == l.size && ValidTag(tag) && i < |ks| && ks[i] < l.chunks
    ensures Unforged(l, source, tag, RepairPackets(l, source, tag, ks)[i])
  {
    var k := ks[i];
    BuiltPacketsAreAccepted(l, source, tag, k, true);
    BuiltPacketInput(l, source, tag, k, true);
  }

  lemma BuiltPacketInput(l: Layout, source: Bytes, tag: Tag, k: nat, repair: bool)
    requires ValidLayout(l) && |source| == l.size && ValidTag(tag) && k < l.chunks
    ensures BuildPacket(l, source, tag, k, repair).Ok?
    ensures Unforged(l, source, tag, BuildPacket(l, source, tag, k, repair).value)
  {
    ChunkShape(l, k);
    PayloadLengthIsChunkLength(l, k);
    var chunk := ChunkOf(l, source, k);
    var head := Head(k, repair, |chunk|);
    var packet := head + tag(head + chunk) + chunk;
    assert BuildPacket(l, source, tag, k, repair) == Ok(packet);
    assert Delivered(l, packet) == packet;
    assert packet[..12] == head && packet[28..] == chunk;
  }

  /**
    Completion can be reached for every valid object, from whatever an honest past left: an object already
    there, a partial file to resume, or old receipts to start over.
  */
  lemma CompletionIsReachable(digest: Digest, s: System, z: Offer) returns (events: seq<Event>, t: System)
    requires CollisionFree(digest) && ValidOffer(digest, z) && ValidTag(z.tag) && Rested(digest, s, z)
    requires s.disk.dest.Some? ==> digest.hashed(Latest(s.disk.dest.value))
    ensures HonestRun(digest, s, events, t, z) && t.complete && t.disk.dest == Some([z.source])
  {
    events, t := BeginRun(digest, s, z);
    if DestinationComplete(digest, s.disk, z) {
      events, t := Proceed(digest, s, events, t, Open(FindComplete), z);
      events, t := Proceed(digest, s, events, t, DeliverComplete, z);
    } else {
      events, t := OpenRun(digest, s, events, t, z);
      var base := t.phase.received;
      events, t := LoopRun(digest, s, events, t, z);
      events, t := DeliverRun(digest, s, events, t, z, base);
      events, t := FinishRun(digest, s, events, t, z);
    }
  }

  /** One packet for every chunk, each arriving once. */
  lemma DeliverRun(digest: Digest, s: System, before: seq<Event>, m: System, z: Offer, base: nat)
    returns (events: seq<Event>, t: System)
    requires CollisionFree(digest) && ValidOffer(digest, z) && Held(digest, s, z) && Underway(digest, s, before, m, z)
    requires m.phase.Serving? && Ready(z.layout, m.disk, m.phase.r) && ValidTag(z.tag)
    requires Consistent(z.layout, m.phase.r, base) && Counted(m.phase.r.telemetry, 0)
    ensures Underway(digest, s, events, t, z)
    ensures t.phase.Serving? && t.phase.r.received == |Members(t.phase.r.bitmap)| == z.layout.chunks
  {
    var l, ks := z.layout, Upto(z.layout.chunks);
    var wires := RepairPackets(l, z.source, z.tag, ks);
    forall i | 0 <= i < |wires| ensures Unforged(l, z.source, z.tag, wires[i]) {
      OwnPacketsAreUnforged(l, z.source, z.tag, ks, i);
    }
    events, t := ArriveRun(digest, s, before, m, z, wires);
    EveryChunkArrives(z, m.disk, m.phase.r, wires, ks, base);
  }

  lemma EveryChunkArrives(z: Offer, d: Disk, r: Receiver, wires: seq<Bytes>, ks: seq<nat>, base: nat)
    requires ValidLayout(z.layout) && |z.source| == z.layout.size && ValidTag(z.tag) && Ready(z.layout, d, r)
    requires ks == Upto(z.layout.chunks) && wires == RepairPackets(z.layout, z.source, z.tag, ks)
    requires HashedPrefix(z.layout, Latest(d.part.value), r) && Consistent(z.layout, r, base) && Counted(r.telemetry, 0)
    ensures var after := Serve(z.layout, z.tag, d, r, wires).1;
            after.received == |Members(after.bitmap)| == z.layout.chunks
  {
    var l := z.layout;
    ServeKeepsViews(l, z.tag, d, r, wires, base);
    var after := Serve(l, z.tag, d, r, wires).1;
    forall k: nat | k < l.chunks ensures Contains(after.bitmap, k) {
      assert ks[k] == k && k in ks;
      ReceiptsAreArrivals(l, z.tag, d, r, wires, k);
      RepairPacketsArrive(l, z.source, z.tag, ks, k);
    }
    FullIffAllReceived(after.bitmap, l.chunks);
  }

  /** The assumption on the digest can be met: with one string hashed, nothing can collide. */
  lemma OneStringCannotCollide(source: Bytes) returns (digest: Digest)
    ensures CollisionFree(digest) && digest.hashed(source)
  {
    digest := Digest(b => seq(32, i => 0), b => b == source);
  }
}
