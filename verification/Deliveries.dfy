/** Sender and receiver put together over a network that loses, repeats and reorders datagrams. */
module Deliveries {
  import opened Outcomes
  import opened Bitmaps
  import opened Layouts
  import opened Disks
  import opened Packets
  import opened Receivers
  import opened Senders

  /** What the network hands over: any of the sender's datagrams, in any order, any number of times. */
  function Arrivals(wires: seq<Bytes>, picks: seq<nat>): (arrived: seq<Bytes>)
    requires forall i :: 0 <= i < |picks| ==> picks[i] < |wires|
    ensures |arrived| == |picks|
  {
    seq(|picks|, i requires 0 <= i < |picks| => wires[picks[i]])
  }

  ghost predicate Picked(shots: seq<Shot>, picks: seq<nat>, k: nat)
    requires forall i :: 0 <= i < |picks| ==> picks[i] < |shots|
  {
    exists i :: 0 <= i < |picks| && shots[picks[i]].chunk == k
  }

  lemma SentPacketCarriesItsChunk(l: Layout, source: Bytes, tag: Tag, o: Outbox, i: nat)
    requires ValidLayout(l) && |source| == l.size && ValidTag(tag) && Tallied(l, source, tag, o) && i < |o.wires|
    requires o.shots[i].chunk < l.chunks
    ensures Accept(l, tag, o.wires[i]).Some? && Accept(l, tag, o.wires[i]).value.sequence == o.shots[i].chunk
  {
    PackedAt(l, source, tag, o.shots, o.wires, i);
    BuiltPacketsAreAccepted(l, source, tag, o.shots[i].chunk, o.shots[i].repair);
  }

  /** Exactly the chunks whose datagrams got through are received, whatever the network did to the rest. */
  lemma ReceivedIffDelivered(l: Layout, source: Bytes, tag: Tag, o: Outbox, picks: seq<nat>, d: Disk, r: Receiver,
                             k: nat)
    requires ValidLayout(l) && |source| == l.size && ValidTag(tag) && Tallied(l, source, tag, o) && Ready(l, d, r)
    requires forall i :: 0 <= i < |o.shots| ==> o.shots[i].chunk < l.chunks
    requires |o.wires| == |o.shots| && forall i :: 0 <= i < |picks| ==> picks[i] < |o.wires|
    ensures Contains(Serve(l, tag, d, r, Arrivals(o.wires, picks)).1.bitmap, k)
            <==> Contains(r.bitmap, k) || Picked(o.shots, picks, k)
  {
    var arrived := Arrivals(o.wires, picks);
    ReceiptsAreArrivals(l, tag, d, r, arrived, k);
    forall i | 0 <= i < |picks|
      ensures Accept(l, tag, arrived[i]).Some? && Accept(l, tag, arrived[i]).value.sequence == o.shots[picks[i]].chunk
    {
      SentPacketCarriesItsChunk(l, source, tag, o, picks[i]);
    }
    if Picked(o.shots, picks, k) {
      var i :| 0 <= i < |picks| && o.shots[picks[i]].chunk == k;
      assert Accept(l, tag, arrived[i]).Some?;
    }
  }

  lemma {:induction false} OriginalWasShot(shots: seq<Shot>, k: nat)
    requires k in Originals(shots)
    ensures exists i :: 0 <= i < |shots| && shots[i] == Shot(k, false)
  {
    var last := |shots| - 1;
    if k in Originals(shots[..last]) {
      OriginalWasShot(shots[..last], k);
      var i :| 0 <= i < last && shots[..last][i] == Shot(k, false);
      assert shots[i] == Shot(k, false);
    } else {
      assert shots[last] == Shot(k, false);
    }
  }

  /**
    Nothing lost, nothing missing: if at least one copy of every datagram of the sender arrives, in
    whatever order, a receiver that announced its bitmap honestly ends up with every chunk.
  */
  lemma LossFreePassCompletes(l: Layout, source: Bytes, tag: Tag, o: Outbox, picks: seq<nat>, d: Disk, r: Receiver)
    requires ValidLayout(l) && |source| == l.size && ValidTag(tag) && Tallied(l, source, tag, o) && Ready(l, d, r)
    requires Fits(r.bitmap, l.chunks) && Originals(o.shots) == Absent(r.bitmap, l.chunks)
    requires forall i :: 0 <= i < |o.shots| ==> o.shots[i].chunk < l.chunks
    requires |o.wires| == |o.shots| && forall i :: 0 <= i < |picks| ==> picks[i] < |o.wires|
    requires forall n: nat :: n < |o.wires| ==> n in picks
    ensures |Members(Serve(l, tag, d, r, Arrivals(o.wires, picks)).1.bitmap)| == l.chunks
  {
    var arrived := Arrivals(o.wires, picks);
    var after := Serve(l, tag, d, r, arrived).1.bitmap;
    ServeKeepsFits(l, tag, d, r, arrived);
    AbsentIsExact(r.bitmap, l.chunks);
    forall k: nat | k < l.chunks ensures Contains(after, k) {
      ReceivedIffDelivered(l, source, tag, o, picks, d, r, k);
      if !Contains(r.bitmap, k) {
        OriginalWasShot(o.shots, k);
        var n: nat :| n < |o.shots| && o.shots[n] == Shot(k, false);
        assert n in picks;
        var i :| 0 <= i < |picks| && picks[i] == n;
        assert o.shots[picks[i]].chunk == k;
      }
    }
    FullIffAllReceived(after, l.chunks);
  }
}
