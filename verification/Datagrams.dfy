/**
  What a whole sequence of datagrams leaves in the receiver's flags and counters, read off the datagrams
  themselves: which of them are packets of the session, which are repairs, and in which order they came.
*/
module Datagrams {
  import opened Outcomes
  import opened Text
  import opened Bitmaps
  import opened Layouts
  import opened Disks
  import opened Packets
  import opened Receivers

  /** A packet of this session for chunk `k`. */
  ghost predicate Brings(l: Layout, tag: Tag, wire: Bytes, k: nat, repair: bool) {
    exists payload :: k < l.chunks && |payload| == Edge(l, k + 1) - Edge(l, k)
      && IsPacket(tag, wire, k, repair, payload)
  }

  lemma BringsIff(l: Layout, tag: Tag, wire: Bytes, k: nat, repair: bool)
    requires ValidLayout(l)
    ensures Brings(l, tag, wire, k, repair) <==>
            Accept(l, tag, wire).Some? && Accept(l, tag, wire).value.sequence == k
            && Accept(l, tag, wire).value.repair == repair
  {
    if Brings(l, tag, wire, k, repair) {
      var payload :| k < l.chunks && |payload| == Edge(l, k + 1) - Edge(l, k)
        && IsPacket(tag, wire, k, repair, payload);
      AcceptIff(l, tag, wire, k, repair, payload);
    }
    if Accept(l, tag, wire).Some? {
      var g := Accept(l, tag, wire).value;
      AcceptIff(l, tag, wire, g.sequence, g.repair, g.payload);
    }
  }

  // ----- counters -----

  /** Where in the sequence the packets of this session are. */
  ghost function PacketsAmong(l: Layout, tag: Tag, wires: seq<Bytes>): set<nat> {
    set i: nat | i < |wires| && exists k, repair :: Brings(l, tag, wires[i], k, repair)
  }

  /** Where those are that say they are repairs. */
  ghost function RepairsAmong(l: Layout, tag: Tag, wires: seq<Bytes>): set<nat> {
    set i: nat | i < |wires| && exists k :: Brings(l, tag, wires[i], k, true)
  }

  lemma PacketsAmongSnoc(l: Layout, tag: Tag, front: seq<Bytes>, last: Bytes)
    requires ValidLayout(l)
    ensures |PacketsAmong(l, tag, front + [last])| == |PacketsAmong(l, tag, front)| + One(Accept(l, tag, last).Some?)
  {
    var all, n := front + [last], |front|;
    var before, after := PacketsAmong(l, tag, front), PacketsAmong(l, tag, all);
    if Accept(l, tag, last).Some? {
      var g := Accept(l, tag, last).value;
      BringsIff(l, tag, last, g.sequence, g.repair);
      assert Brings(l, tag, all[n], g.sequence, g.repair);
      assert after == before + {n};
    } else {
      forall k: nat, repair ensures !Brings(l, tag, last, k, repair) { BringsIff(l, tag, last, k, repair); }
      assert after == before;
    }
  }

  lemma RepairsAmongSnoc(l: Layout, tag: Tag, front: seq<Bytes>, last: Bytes)
    requires ValidLayout(l)
    ensures |RepairsAmong(l, tag, front + [last])|
         == |RepairsAmong(l, tag, front)| + One(Accept(l, tag, last).Some? && Accept(l, tag, last).value.repair)
  {
    var all, n := front + [last], |front|;
    var before, after := RepairsAmong(l, tag, front), RepairsAmong(l, tag, all);
    if Accept(l, tag, last).Some? && Accept(l, tag, last).value.repair {
      var g := Accept(l, tag, last).value;
      BringsIff(l, tag, last, g.sequence, true);
      assert Brings(l, tag, all[n], g.sequence, true);
      assert after == before + {n};
    } else {
      forall k: nat ensures !Brings(l, tag, last, k, true) { BringsIff(l, tag, last, k, true); }
      assert after == before;
    }
  }

  /** By how much the counters have grown. */
  ghost predicate Grown(t: Telemetry, u: Telemetry, packets: nat, repairs: nat, others: nat, chunks: nat) {
    && u.valid == t.valid + packets && u.repair == t.repair + repairs && u.invalid == t.invalid + others
    && u.accepted == t.accepted + chunks && u.duplicate + chunks == t.duplicate + packets
    && u.received == t.received && u.frontier == t.frontier && u.drops == t.drops && u.reports == t.reports
  }

  /** No counter is within `n` of its limit. */
  ghost predicate Room(t: Telemetry, n: nat) {
    t.valid + n < U64_LIMIT && t.repair + n < U64_LIMIT && t.invalid + n < U64_LIMIT && t.accepted + n < U64_LIMIT
    && t.duplicate + n < U64_LIMIT
  }

  ghost function One(b: bool): nat { if b then 1 else 0 }

  lemma DatagramCounts(l: Layout, tag: Tag, d: Disk, r: Receiver, wire: Bytes)
    requires Ready(l, d, r) && Room(r.telemetry, 1)
    ensures var a, r' := Accept(l, tag, wire), OnDatagram(l, tag, d, r, wire).1;
            Grown(r.telemetry, r'.telemetry, One(a.Some?), One(a.Some? && a.value.repair), One(a.None?),
                  One(a.Some? && !Contains(r.bitmap, a.value.sequence)))
  {
    match Accept(l, tag, wire)
    case None =>
    case Some(g) =>
      AcceptedShape(l, tag, wire);
      if !Contains(r.bitmap, g.sequence) { NewChunkKeepsTelemetry(l, d, CountedAccepted(r, g.repair), g); }
  }

  lemma DatagramMembers(l: Layout, tag: Tag, d: Disk, r: Receiver, wire: Bytes)
    requires Ready(l, d, r)
    ensures var a, r' := Accept(l, tag, wire), OnDatagram(l, tag, d, r, wire).1;
            |Members(r'.bitmap)| == |Members(r.bitmap)| + One(a.Some? && !Contains(r.bitmap, a.value.sequence))
  {
    match Accept(l, tag, wire)
    case None =>
    case Some(g) =>
      AcceptedShape(l, tag, wire);
      if !Contains(r.bitmap, g.sequence) { InsertMembers(r.bitmap, g.sequence); }
  }

  lemma {:induction false} AmongBounds(l: Layout, tag: Tag, wires: seq<Bytes>)
    requires ValidLayout(l)
    ensures |RepairsAmong(l, tag, wires)| <= |PacketsAmong(l, tag, wires)| <= |wires|
  {
    if wires == [] {
      assert PacketsAmong(l, tag, wires) == {} && RepairsAmong(l, tag, wires) == {};
    } else {
      var front, last := wires[..|wires| - 1], wires[|wires| - 1];
      assert wires == front + [last];
      AmongBounds(l, tag, front);
      PacketsAmongSnoc(l, tag, front, last);
      RepairsAmongSnoc(l, tag, front, last);
    }
  }

  ghost predicate CountsAre(l: Layout, tag: Tag, r: Receiver, r': Receiver, wires: seq<Bytes>) {
    && |RepairsAmong(l, tag, wires)| <= |PacketsAmong(l, tag, wires)| <= |wires|
    && |Members(r.bitmap)| <= |Members(r'.bitmap)| <= |Members(r.bitmap)| + |PacketsAmong(l, tag, wires)|
    && Grown(r.telemetry, r'.telemetry, |PacketsAmong(l, tag, wires)|, |RepairsAmong(l, tag, wires)|,
             |wires| - |PacketsAmong(l, tag, wires)|, |Members(r'.bitmap)| - |Members(r.bitmap)|)
  }

  lemma RoomLeft(t: Telemetry, u: Telemetry, p: nat, q: nat, o: nat, c: nat, n: nat)
    requires Grown(t, u, p, q, o, c) && q <= p && c <= p && p + o == n && Room(t, n + 1)
    ensures Room(u, 1)
  {
  }

  lemma GrownTwice(t: Telemetry, u: Telemetry, v: Telemetry, p: nat, q: nat, o: nat, c: nat, p': nat, q': nat, o': nat,
                   c': nat)
    requires Grown(t, u, p, q, o, c) && Grown(u, v, p', q', o', c')
    ensures Grown(t, v, p + p', q + q', o + o', c + c')
  {
  }

  lemma CountsStep(l: Layout, tag: Tag, d: Disk, r: Receiver, r1: Receiver, front: seq<Bytes>, last: Bytes)
    requires Ready(l, d, r1) && CountsAre(l, tag, r, r1, front) && Room(r.telemetry, |front| + 1)
    ensures CountsAre(l, tag, r, OnDatagram(l, tag, d, r1, last).1, front + [last])
  {
    var a, r2 := Accept(l, tag, last), OnDatagram(l, tag, d, r1, last).1;
    var p, q := |PacketsAmong(l, tag, front)|, |RepairsAmong(l, tag, front)|;
    var o, c := |front| - p, |Members(r1.bitmap)| - |Members(r.bitmap)|;
    var brought := One(a.Some? && !Contains(r1.bitmap, a.value.sequence));
    RoomLeft(r.telemetry, r1.telemetry, p, q, o, c, |front|);
    assert Grown(r1.telemetry, r2.telemetry, One(a.Some?), One(a.Some? && a.value.repair), One(a.None?), brought)
      by { DatagramCounts(l, tag, d, r1, last); }
    GrownTwice(r.telemetry, r1.telemetry, r2.telemetry, p, q, o, c, One(a.Some?), One(a.Some? && a.value.repair),
               One(a.None?), brought);
    assert |Members(r2.bitmap)| == |Members(r1.bitmap)| + brought by { DatagramMembers(l, tag, d, r1, last); }
    assert |PacketsAmong(l, tag, front + [last])| == p + One(a.Some?) by { PacketsAmongSnoc(l, tag, front, last); }
    assert |RepairsAmong(l, tag, front + [last])| == q + One(a.Some? && a.value.repair)
      by { RepairsAmongSnoc(l, tag, front, last); }
  }

  /**
    After any sequence of datagrams the counters say how many of them were packets of this session, how many of
    those repairs, how many brought a chunk not received before and how many did not, and how many were anything
    else.
  */
  lemma {:induction false} ServeCounts(l: Layout, tag: Tag, d: Disk, r: Receiver, wires: seq<Bytes>)
    requires Ready(l, d, r) && Room(r.telemetry, |wires|)
    ensures CountsAre(l, tag, r, Serve(l, tag, d, r, wires).1, wires)
  {
    if wires == [] {
      AmongBounds(l, tag, wires);
    } else {
      var front, last := wires[..|wires| - 1], wires[|wires| - 1];
      assert wires == front + [last];
      ServeCounts(l, tag, d, r, front);
      var (d1, r1) := Serve(l, tag, d, r, front);
      CountsStep(l, tag, d1, r, r1, front, last);
    }
  }

  // ----- flags -----

  /** Datagram `i` is the first to bring its chunk, as an original, after a packet for a later chunk. */
  ghost predicate Late(l: Layout, tag: Tag, bitmap: seq<Word>, wires: seq<Bytes>, i: nat, k: nat) {
    && i < |wires| && Brings(l, tag, wires[i], k, false)
    && !Contains(bitmap, k) && !Arrived(l, tag, wires[..i], k)
    && exists h: nat :: k < h && (Contains(bitmap, h) || Arrived(l, tag, wires[..i], h))
  }

  lemma LateSnoc(l: Layout, tag: Tag, bitmap: seq<Word>, front: seq<Bytes>, last: Bytes, i: nat, k: nat)
    requires i < |front|
    ensures Late(l, tag, bitmap, front + [last], i, k) <==> Late(l, tag, bitmap, front, i, k)
  {
    assert (front + [last])[..i] == front[..i] && (front + [last])[i] == front[i];
  }

  lemma DatagramFlags(l: Layout, tag: Tag, d: Disk, r: Receiver, wire: Bytes)
    requires Ready(l, d, r)
    ensures var a, r' := Accept(l, tag, wire), OnDatagram(l, tag, d, r, wire).1;
            && (r'.dirty <==> r.dirty || (a.Some? && !Contains(r.bitmap, a.value.sequence)))
            && (r'.reordering <==> r.reordering || (a.Some? && !a.value.repair && !Contains(r.bitmap, a.value.sequence)
                                                    && r.highest.Some? && a.value.sequence < r.highest.value))
            && r'.ended == r.ended
  {
    match Accept(l, tag, wire)
    case None =>
    case Some(g) => AcceptedShape(l, tag, wire);
  }

  lemma LastIsLate(l: Layout, tag: Tag, d: Disk, r: Receiver, front: seq<Bytes>, last: Bytes, g: Datagram)
    requires Ready(l, d, r) && Accept(l, tag, last) == Some(g)
    requires var r1 := Serve(l, tag, d, r, front).1; IsHighest(r1.bitmap, r1.highest)
    ensures var r1 := Serve(l, tag, d, r, front).1;
            Late(l, tag, r.bitmap, front + [last], |front|, g.sequence) <==>
            !g.repair && !Contains(r1.bitmap, g.sequence) && r1.highest.Some? && g.sequence < r1.highest.value
  {
    var r1 := Serve(l, tag, d, r, front).1;
    assert (front + [last])[..|front|] == front;
    BringsIff(l, tag, last, g.sequence, false);
    forall h: nat
      ensures Contains(r1.bitmap, h) <==> Contains(r.bitmap, h) || Arrived(l, tag, front, h)
    {
      ReceiptsAreArrivals(l, tag, d, r, front, h);
    }
  }

  lemma OtherIsNotLate(l: Layout, tag: Tag, bitmap: seq<Word>, front: seq<Bytes>, last: Bytes, k: nat)
    requires ValidLayout(l) && (Accept(l, tag, last).Some? ==> Accept(l, tag, last).value.sequence != k)
    ensures !Late(l, tag, bitmap, front + [last], |front|, k)
  {
    BringsIff(l, tag, last, k, false);
  }

  lemma ServeKeepsHighest(l: Layout, tag: Tag, d: Disk, r: Receiver, wires: seq<Bytes>)
    requires Ready(l, d, r) && IsHighest(r.bitmap, r.highest)
    ensures var r' := Serve(l, tag, d, r, wires).1; IsHighest(r'.bitmap, r'.highest)
  {
    if wires != [] {
      var front, last := wires[..|wires| - 1], wires[|wires| - 1];
      ServeKeepsHighest(l, tag, d, r, front);
      var (d1, r1) := Serve(l, tag, d, r, front);
      if Accept(l, tag, last).Some? {
        AcceptedShape(l, tag, last);
        LargerKeepsHighest(r1.bitmap, r1.highest, Accept(l, tag, last).value.sequence);
      }
    }
  }

  /**
    Reordering is noticed if and only if some original was the first to bring its chunk and came after a packet
    for a later chunk.
  */
  lemma {:induction false} ReorderingIff(l: Layout, tag: Tag, d: Disk, r: Receiver, wires: seq<Bytes>)
    requires Ready(l, d, r) && IsHighest(r.bitmap, r.highest)
    ensures Serve(l, tag, d, r, wires).1.reordering <==>
            r.reordering || exists i, k :: Late(l, tag, r.bitmap, wires, i, k)
  {
    if wires != [] {
      var front, last := wires[..|wires| - 1], wires[|wires| - 1];
      assert wires == front + [last];
      ReorderingIff(l, tag, d, r, front);
      ServeKeepsHighest(l, tag, d, r, front);
      var (d1, r1) := Serve(l, tag, d, r, front);
      DatagramFlags(l, tag, d1, r1, last);
      if Accept(l, tag, last).Some? { LastIsLate(l, tag, d, r, front, last, Accept(l, tag, last).value); }
      forall i: nat, k: nat
        ensures Late(l, tag, r.bitmap, wires, i, k) <==>
                Late(l, tag, r.bitmap, front, i, k)
                || (i == |front| && Late(l, tag, r.bitmap, wires, |front|, k))
      {
        if i < |front| { LateSnoc(l, tag, r.bitmap, front, last, i, k); }
      }
      forall k: nat | !(Accept(l, tag, last).Some? && Accept(l, tag, last).value.sequence == k)
        ensures !Late(l, tag, r.bitmap, wires, |front|, k)
      {
        OtherIsNotLate(l, tag, r.bitmap, front, last, k);
      }
    }
  }

  /** Progress is waiting to be saved if and only if it was before or some chunk has been received since. */
  lemma {:induction false} DirtyIff(l: Layout, tag: Tag, d: Disk, r: Receiver, wires: seq<Bytes>)
    requires Ready(l, d, r)
    ensures var r' := Serve(l, tag, d, r, wires).1;
            && (r'.dirty <==> r.dirty || r'.bitmap != r.bitmap) && r'.ended == r.ended
            && Members(r.bitmap) <= Members(r'.bitmap)
  {
    if wires != [] {
      var front, last := wires[..|wires| - 1], wires[|wires| - 1];
      DirtyIff(l, tag, d, r, front);
      var (d1, r1) := Serve(l, tag, d, r, front);
      var r2 := OnDatagram(l, tag, d1, r1, last).1;
      DatagramFlags(l, tag, d1, r1, last);
      DatagramMembers(l, tag, d1, r1, last);
      forall k: nat ensures Contains(r1.bitmap, k) ==>
        Contains(r2.bitmap, k) { OneDatagramReceipt(l, tag, d1, r1, last, k); }
      if Accept(l, tag, last).Some? && !Contains(r1.bitmap, Accept(l, tag, last).value.sequence) {
        OneDatagramReceipt(l, tag, d1, r1, last, Accept(l, tag, last).value.sequence);
      }
    }
  }

  /**
    A session from its beginning: the counters, and both flags, are about what has come since, on top of whatever was
    resumed or reused.
  */
  lemma SessionCounts(l: Layout, tag: Tag, d: Disk, bitmap: seq<Word>, wires: seq<Bytes>)
    requires ValidLayout(l) && d.part.Some? && |Latest(d.part.value)| == l.size && |bitmap| == WordsFor(l.chunks)
    requires |wires| < U64_LIMIT
    ensures var start := Start(l, Latest(d.part.value), bitmap, |Members(bitmap)|, Highest(bitmap));
            Ready(l, d, start) &&
            var r := Serve(l, tag, d, start, wires).1;
            && r.telemetry.valid == |PacketsAmong(l, tag, wires)|
            && r.telemetry.repair == |RepairsAmong(l, tag, wires)|
            && r.telemetry.invalid + r.telemetry.valid == |wires|
            && r.telemetry.accepted == |Members(r.bitmap)| - |Members(bitmap)|
            && r.telemetry.duplicate + r.telemetry.accepted == r.telemetry.valid
            && (r.dirty <==> r.bitmap != bitmap)
            && (r.reordering <==> exists i, k :: Late(l, tag, bitmap, wires, i, k))
            && !r.ended
  {
    HighestIsHighest(bitmap);
    var start := Start(l, Latest(d.part.value), bitmap, |Members(bitmap)|, Highest(bitmap));
    StartIsBlank(l, Latest(d.part.value), bitmap);
    ServeCounts(l, tag, d, start, wires);
    AmongBounds(l, tag, wires);
    DirtyIff(l, tag, d, start, wires);
    ReorderingIff(l, tag, d, start, wires);
  }

  lemma StartIsBlank(l: Layout, file: Bytes, bitmap: seq<Word>)
    requires |file| == l.size
    ensures var start := Start(l, file, bitmap, |Members(bitmap)|, Highest(bitmap));
            && start.bitmap == bitmap && start.highest == Highest(bitmap) && start.frontier <= l.chunks
            && !start.dirty && !start.reordering && !start.ended
            && start.telemetry == Telemetry(|Members(bitmap)|, 0, 0, 0, 0, 0, 0, None, 0)
  {
  }

  // ----- the incremental hash -----

  lemma NewChunkHash(l: Layout, d: Disk, r: Receiver, g: Datagram)
    requires Ready(l, d, r) && g.sequence < l.chunks && |g.payload| == Edge(l, g.sequence + 1) - Edge(l, g.sequence)
    ensures var after := OnNewChunk(l, d, r, g).1;
            && after.received == r.received + 1
            && if (r.received + 1) % 64 == 0 || (g.repair && g.sequence == r.frontier)
               then after.frontier == l.chunks || !Contains(after.bitmap, after.frontier)
               else after.frontier == r.frontier && after.absorbed == r.absorbed
  {
  }

  lemma NewChunkMembers(l: Layout, d: Disk, r: Receiver, g: Datagram)
    requires Ready(l, d, r) && g.sequence < l.chunks && |g.payload| == Edge(l, g.sequence + 1) - Edge(l, g.sequence)
    requires !Contains(r.bitmap, g.sequence)
    ensures |Members(OnNewChunk(l, d, r, g).1.bitmap)| == |Members(r.bitmap)| + 1
  {
    InsertMembers(r.bitmap, g.sequence);
  }

  /** The datagram is for a new chunk, and either that makes a multiple of 64 or it repairs the first missing one. */
  ghost predicate HashTurn(l: Layout, tag: Tag, r: Receiver, r': Receiver, wire: Bytes) {
    && |Members(r'.bitmap)| > |Members(r.bitmap)|
    && (|Members(r'.bitmap)| % 64 == 0 || Brings(l, tag, wire, r.frontier, true))
  }

  /** The hash has gone up to the first gap, or stayed. */
  ghost predicate Moved(l: Layout, r: Receiver, r': Receiver, turn: bool) {
    if turn then r'.frontier == l.chunks || !Contains(r'.bitmap, r'.frontier)
    else r'.frontier == r.frontier && r'.absorbed == r.absorbed
  }

  lemma NothingNewNoTurn(l: Layout, tag: Tag, d: Disk, r: Receiver, wire: Bytes)
    requires Ready(l, d, r)
    requires Accept(l, tag, wire).Some? ==> Contains(r.bitmap, Accept(l, tag, wire).value.sequence)
    ensures var r' := OnDatagram(l, tag, d, r, wire).1;
            r'.bitmap == r.bitmap && r'.frontier == r.frontier && r'.absorbed == r.absorbed
  {
  }

  lemma NewChunkMoves(l: Layout, tag: Tag, d: Disk, r: Receiver, wire: Bytes, g: Datagram)
    requires Ready(l, d, r) && r.received == |Members(r.bitmap)|
    requires Accept(l, tag, wire) == Some(g) && !Contains(r.bitmap, g.sequence)
    ensures var r' := OnDatagram(l, tag, d, r, wire).1;
            && |Members(r'.bitmap)| == r.received + 1
            && Moved(l, r, r', (r.received + 1) % 64 == 0 || (g.repair && g.sequence == r.frontier))
  {
    AcceptedShape(l, tag, wire);
    var counted := CountedAccepted(r, g.repair);
    assert OnDatagram(l, tag, d, r, wire) == OnNewChunk(l, d, counted, g);
    NewChunkHash(l, d, counted, g);
    NewChunkMembers(l, d, counted, g);
  }

  /**
    A datagram moves the hash on exactly when it brings a new chunk and either the number of received chunks becomes
    a multiple of 64 or it is a repair for the very first missing one; it then goes up to the first gap.
  */
  lemma HashMovesIff(l: Layout, tag: Tag, d: Disk, r: Receiver, wire: Bytes, base: nat)
    requires Ready(l, d, r) && Consistent(l, r, base)
    ensures var r' := OnDatagram(l, tag, d, r, wire).1; Moved(l, r, r', HashTurn(l, tag, r, r', wire))
  {
    BringsIff(l, tag, wire, r.frontier, true);
    if Accept(l, tag, wire).Some? && !Contains(r.bitmap, Accept(l, tag, wire).value.sequence) {
      NewChunkMoves(l, tag, d, r, wire, Accept(l, tag, wire).value);
    } else {
      NothingNewNoTurn(l, tag, d, r, wire);
    }
  }
}
