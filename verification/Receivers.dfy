/**
  The state `receive_udp` keeps about one object, as values, and what one step does to it:
  the receipt bitmap, its count, the highest chunk seen, the incremental hasher (the bytes it has
  absorbed) with its frontier, and the telemetry counters.
*/
module Receivers {
  import opened Outcomes
  import opened Text
  import opened Bitmaps
  import opened Layouts
  import opened Disks
  import opened Packets

  datatype Telemetry = Telemetry(
    received: nat, frontier: nat, accepted: nat, valid: nat, duplicate: nat, invalid: nat, repair: nat,
    drops: Option<nat>, reports: nat)

  datatype Receiver = Receiver(
    bitmap: seq<Word>, received: nat, highest: Option<nat>, frontier: nat, absorbed: Bytes,
    telemetry: Telemetry, dirty: bool, reordering: bool, ended: bool)

  /** `u64::saturating_add(1)` */
  function Bump(n: nat): (r: nat)
    ensures n + 1 < U64_LIMIT ==> r == n + 1
  {
    if n + 1 < U64_LIMIT then n + 1 else n
  }

  // ----- the incremental hash -----

  /** The first chunk from `from` on that is missing. */
  function FirstGap(bitmap: seq<Word>, from: nat, chunks: nat): (gap: nat)
    requires from <= chunks
    ensures from <= gap <= chunks
    ensures forall k: nat :: from <= k < gap ==> Contains(bitmap, k)
    ensures gap < chunks ==> !Contains(bitmap, gap)
    decreases chunks - from
  {
    if from < chunks && Contains(bitmap, from) then FirstGap(bitmap, from + 1, chunks) else from
  }

  /** `advance_hash_frontier`: absorb every contiguous chunk that has arrived. */
  function Advance(l: Layout, file: Bytes, r: Receiver): Receiver
    requires |file| == l.size && r.frontier <= l.chunks
  {
    var end := FirstGap(r.bitmap, r.frontier, l.chunks);
    EdgeMonotone(l, r.frontier, end);
    r.(frontier := end, absorbed := r.absorbed + file[Edge(l, r.frontier)..Edge(l, end)])
  }

  /** Before the loop: resume state and reused chunks only, then the first hash advance. */
  function Start(l: Layout, file: Bytes, bitmap: seq<Word>, received: nat, highest: Option<nat>): Receiver
    requires |file| == l.size
  {
    Advance(l, file, Receiver(bitmap, received, highest, 0, [],
                              Telemetry(received, 0, 0, 0, 0, 0, 0, None, 0), false, false, false))
  }

  // ----- one datagram -----

  predicate Ready(l: Layout, d: Disk, r: Receiver) {
    && ValidLayout(l)
    && d.part.Some? && |Latest(d.part.value)| == l.size
    && |r.bitmap| == WordsFor(l.chunks) && r.frontier <= l.chunks
  }

  function Larger(highest: Option<nat>, sequence: nat): Option<nat> {
    match highest
    case None => Some(sequence)
    case Some(h) => Some(if h < sequence then sequence else h)
  }

  function CountedValid(t: Telemetry, repair: bool): Telemetry {
    t.(valid := Bump(t.valid), repair := if repair then Bump(t.repair) else t.repair)
  }

  function CountedAccepted(r: Receiver, repair: bool): Receiver {
    var t := CountedValid(r.telemetry, repair);
    r.(telemetry := t.(accepted := Bump(t.accepted)))
  }

  function OnDatagram(l: Layout, tag: Tag, d: Disk, r: Receiver, wire: Bytes): (after: (Disk, Receiver))
    requires Ready(l, d, r)
    ensures Ready(l, after.0, after.1)
  {
    match Accept(l, tag, wire)
    case None => (d, r.(telemetry := r.telemetry.(invalid := Bump(r.telemetry.invalid))))
    case Some(g) =>
      AcceptedShape(l, tag, wire);
      if Contains(r.bitmap, g.sequence) then
        var t := CountedValid(r.telemetry, g.repair);
        (d, r.(telemetry := t.(duplicate := Bump(t.duplicate)), highest := Larger(r.highest, g.sequence)))
      else
        OnNewChunk(l, d, CountedAccepted(r, g.repair), g)
  }

  /** The chunk on record. */
  function Inserted(r: Receiver, g: Datagram): Receiver
    requires g.sequence / 64 < |r.bitmap|
  {
    var reordered := !g.repair && r.highest.Some? && g.sequence < r.highest.value;
    r.(bitmap := Insert(r.bitmap, g.sequence), received := r.received + 1, dirty := true,
       reordering := r.reordering || reordered)
  }

  function OnNewChunk(l: Layout, d: Disk, r: Receiver, g: Datagram): (Disk, Receiver)
    requires Ready(l, d, r)
    requires g.sequence < l.chunks && |g.payload| == Edge(l, g.sequence + 1) - Edge(l, g.sequence)
  {
    var written := WritePart(d, Edge(l, g.sequence), g.payload);
    var inserted := Inserted(r, g);
    var hashed := if inserted.received % 64 == 0 || (g.repair && g.sequence == r.frontier)
                  then Advance(l, Latest(written.part.value), inserted) else inserted;
    (written, hashed.(highest := Larger(r.highest, g.sequence)))
  }

  // ----- what every step keeps -----

  /** The incremental hasher has absorbed exactly the file's bytes below its frontier. */
  ghost predicate HashedPrefix(l: Layout, file: Bytes, r: Receiver) {
    && |file| == l.size && r.frontier <= l.chunks
    && (forall k: nat :: k < r.frontier ==> Contains(r.bitmap, k))
    && r.absorbed == file[..Edge(l, r.frontier)]
  }

  /** All views of the set of received chunks agree; `base` chunks were there when the session began. */
  ghost predicate Consistent(l: Layout, r: Receiver, base: nat) {
    && Fits(r.bitmap, l.chunks)
    && r.received == |Members(r.bitmap)|
    && IsHighest(r.bitmap, r.highest)
    && r.telemetry.accepted + base == r.received
  }

  /** The counters add up; this needs fewer than 2^64 datagrams in the session. */
  ghost predicate Counted(t: Telemetry, datagrams: nat) {
    && t.valid == t.accepted + t.duplicate
    && t.repair <= t.valid
    && t.valid + t.invalid == datagrams
  }

  lemma AdvanceKeepsHashedPrefix(l: Layout, file: Bytes, r: Receiver)
    requires HashedPrefix(l, file, r)
    ensures HashedPrefix(l, file, Advance(l, file, r))
  {
    var end := FirstGap(r.bitmap, r.frontier, l.chunks);
    EdgeMonotone(l, r.frontier, end);
    assert file[..Edge(l, r.frontier)] + file[Edge(l, r.frontier)..Edge(l, end)] == file[..Edge(l, end)];
  }

  lemma StartIsHashedPrefix(l: Layout, file: Bytes, bitmap: seq<Word>, received: nat, highest: Option<nat>)
    requires |file| == l.size
    ensures HashedPrefix(l, file, Start(l, file, bitmap, received, highest))
  {
    var t := Telemetry(received, 0, 0, 0, 0, 0, 0, None, 0);
    var r := Receiver(bitmap, received, highest, 0, [], t, false, false, false);
    assert HashedPrefix(l, file, r);
    AdvanceKeepsHashedPrefix(l, file, r);
  }

  /** A session starts with its views in agreement, whatever was resumed or reused. */
  lemma StartIsConsistent(l: Layout, file: Bytes, bitmap: seq<Word>)
    requires |file| == l.size && Fits(bitmap, l.chunks)
    ensures var r := Start(l, file, bitmap, |Members(bitmap)|, Highest(bitmap));
            Consistent(l, r, |Members(bitmap)|) && Counted(r.telemetry, 0)
  {
    HighestIsHighest(bitmap);
  }

  /**
    The non-interference argument: whatever bytes arrive, a datagram never touches a byte the
    hasher has absorbed, so the incremental hash stays the hash of the file's prefix.
  */
  lemma DatagramKeepsHashedPrefix(l: Layout, tag: Tag, d: Disk, r: Receiver, wire: Bytes)
    requires Ready(l, d, r) && HashedPrefix(l, Latest(d.part.value), r)
    ensures var (d', r') := OnDatagram(l, tag, d, r, wire);
            && Ready(l, d', r') && HashedPrefix(l, Latest(d'.part.value), r')
            && Latest(d'.part.value)[..Edge(l, r.frontier)] == Latest(d.part.value)[..Edge(l, r.frontier)]
            && r.frontier <= r'.frontier
  {
    match Accept(l, tag, wire)
    case None =>
    case Some(g) =>
      AcceptedShape(l, tag, wire);
      if !Contains(r.bitmap, g.sequence) {
        var file := Latest(d.part.value);
        WriteKeepsPrefix(l, file, g.sequence, g.payload, r.frontier);
        var file' := Overwrite(file, Edge(l, g.sequence), g.payload);
        var inserted := r.(bitmap := Insert(r.bitmap, g.sequence));
        assert HashedPrefix(l, file', inserted);
        AdvanceKeepsHashedPrefix(l, file', inserted);
      }
  }

  /** At the end of a full transfer the incremental hasher has absorbed the whole file. */
  lemma FullReceiptHashesWholeFile(l: Layout, file: Bytes, r: Receiver)
    requires ValidLayout(l) && HashedPrefix(l, file, r)
    requires Fits(r.bitmap, l.chunks) && |Members(r.bitmap)| == l.chunks
    ensures Advance(l, file, r).frontier == l.chunks && Advance(l, file, r).absorbed == file
  {
    FullIffAllReceived(r.bitmap, l.chunks);
    AdvanceKeepsHashedPrefix(l, file, r);
    LastEdge(l);
    assert file[..l.size] == file;
  }

  lemma LargerKeepsHighest(bitmap: seq<Word>, highest: Option<nat>, k: nat)
    requires k / 64 < |bitmap| && IsHighest(bitmap, highest)
    ensures IsHighest(Insert(bitmap, k), Larger(highest, k))
    ensures Contains(bitmap, k) ==> IsHighest(bitmap, Larger(highest, k))
  {
  }

  lemma NewChunkKeepsViews(l: Layout, d: Disk, r: Receiver, g: Datagram)
    requires Ready(l, d, r) && g.sequence < l.chunks && |g.payload| == Edge(l, g.sequence + 1) - Edge(l, g.sequence)
    requires r.received == |Members(r.bitmap)| && IsHighest(r.bitmap, r.highest) && !Contains(r.bitmap, g.sequence)
    ensures var after := OnNewChunk(l, d, r, g).1;
            && after.bitmap == Insert(r.bitmap, g.sequence) && after.telemetry == r.telemetry
            && after.received == |Members(after.bitmap)| == r.received + 1 && IsHighest(after.bitmap, after.highest)
  {
    LargerKeepsHighest(r.bitmap, r.highest, g.sequence);
    InsertMembers(r.bitmap, g.sequence);
  }

  /** Every view of the received set still agrees after any datagram; each chunk is accepted once. */
  lemma DatagramKeepsConsistent(l: Layout, tag: Tag, d: Disk, r: Receiver, wire: Bytes, base: nat)
    requires Ready(l, d, r) && Consistent(l, r, base)
    ensures var (d', r') := OnDatagram(l, tag, d, r, wire);
            && Consistent(l, r', base)
            && (forall k: nat :: Contains(r.bitmap, k) ==> Contains(r'.bitmap, k))
            && r'.telemetry.accepted - r.telemetry.accepted == |Members(r'.bitmap)| - |Members(r.bitmap)|
  {
    match Accept(l, tag, wire)
    case None =>
    case Some(g) =>
      AcceptedShape(l, tag, wire);
      FullIffAllReceived(r.bitmap, l.chunks);
      if Contains(r.bitmap, g.sequence) {
        LargerKeepsHighest(r.bitmap, r.highest, g.sequence);
      } else {
        NewChunkKeepsViews(l, d, CountedAccepted(r, g.repair), g);
      }
  }

  lemma DatagramKeepsFits(l: Layout, tag: Tag, d: Disk, r: Receiver, wire: Bytes)
    requires Ready(l, d, r) && Fits(r.bitmap, l.chunks)
    ensures Fits(OnDatagram(l, tag, d, r, wire).1.bitmap, l.chunks)
  {
    match Accept(l, tag, wire)
    case None =>
    case Some(g) => AcceptedShape(l, tag, wire);
  }

  /** The counters are settled before a new chunk is stored. */
  lemma NewChunkKeepsTelemetry(l: Layout, d: Disk, r: Receiver, g: Datagram)
    requires Ready(l, d, r) && g.sequence < l.chunks && |g.payload| == Edge(l, g.sequence + 1) - Edge(l, g.sequence)
    ensures OnNewChunk(l, d, r, g).1.telemetry == r.telemetry
  {
  }

  lemma DatagramKeepsCounted(l: Layout, tag: Tag, d: Disk, r: Receiver, wire: Bytes, datagrams: nat)
    requires Ready(l, d, r) && Counted(r.telemetry, datagrams) && datagrams + 1 < U64_LIMIT
    ensures Counted(OnDatagram(l, tag, d, r, wire).1.telemetry, datagrams + 1)
  {
    match Accept(l, tag, wire)
    case None =>
    case Some(g) =>
      AcceptedShape(l, tag, wire);
      NewChunkKeepsTelemetry(l, d, CountedAccepted(r, g.repair), g);
  }

  /** A datagram that does not verify in this session changes nothing but the invalid counter. */
  lemma UnverifiedDatagramOnlyCounts(l: Layout, tag: Tag, d: Disk, r: Receiver, wire: Bytes)
    requires Ready(l, d, r) && !Verifies(l, tag, wire)
    ensures OnDatagram(l, tag, d, r, wire)
         == (d, r.(telemetry := r.telemetry.(invalid := Bump(r.telemetry.invalid))))
  {
  }

  /** A replayed or duplicated datagram changes neither the file nor the receipts. */
  lemma RepeatedDatagramIsHarmless(l: Layout, tag: Tag, d: Disk, r: Receiver, wire: Bytes, base: nat)
    requires Ready(l, d, r) && Consistent(l, r, base)
    ensures var (d1, r1) := OnDatagram(l, tag, d, r, wire);
            Ready(l, d1, r1) &&
            var (d2, r2) := OnDatagram(l, tag, d1, r1, wire);
            d2 == d1 && r2.bitmap == r1.bitmap && r2.received == r1.received && r2.absorbed == r1.absorbed
            && r2.highest == r1.highest
  {
    DatagramKeepsConsistent(l, tag, d, r, wire, base);
    var (d1, r1) := OnDatagram(l, tag, d, r, wire);
    match Accept(l, tag, wire)
    case None =>
    case Some(g) =>
      AcceptedShape(l, tag, wire);
      assert Contains(r1.bitmap, g.sequence);
  }

  // ----- whole runs of the loop -----

  /** The state after a sequence of datagrams, as the network happened to deliver them. */
  function Serve(l: Layout, tag: Tag, d: Disk, r: Receiver, wires: seq<Bytes>): (after: (Disk, Receiver))
    requires Ready(l, d, r)
    ensures Ready(l, after.0, after.1)
  {
    if wires == [] then (d, r)
    else
      var (d1, r1) := Serve(l, tag, d, r, wires[..|wires| - 1]);
      OnDatagram(l, tag, d1, r1, wires[|wires| - 1])
  }

  /** Chunk `k` arrived in a datagram the receiver accepts. */
  ghost predicate Arrived(l: Layout, tag: Tag, wires: seq<Bytes>, k: nat) {
    exists i :: 0 <= i < |wires| && Accept(l, tag, wires[i]).Some? && Accept(l, tag, wires[i]).value.sequence == k
  }

  lemma {:induction false} ServeKeepsViews(l: Layout, tag: Tag, d: Disk, r: Receiver, wires: seq<Bytes>, base: nat)
    requires Ready(l, d, r) && HashedPrefix(l, Latest(d.part.value), r) && Consistent(l, r, base)
    requires Counted(r.telemetry, 0) && |wires| < U64_LIMIT
    ensures var (d', r') := Serve(l, tag, d, r, wires);
            HashedPrefix(l, Latest(d'.part.value), r') && Consistent(l, r', base) && Counted(r'.telemetry, |wires|)
  {
    if wires != [] {
      var front, last := wires[..|wires| - 1], wires[|wires| - 1];
      ServeKeepsViews(l, tag, d, r, front, base);
      var (d1, r1) := Serve(l, tag, d, r, front);
      DatagramKeepsHashedPrefix(l, tag, d1, r1, last);
      DatagramKeepsConsistent(l, tag, d1, r1, last, base);
      DatagramKeepsCounted(l, tag, d1, r1, last, |front|);
    }
  }

  /** The datagrams of this session, in the order they came. */
  function Genuine(l: Layout, tag: Tag, wires: seq<Bytes>): (kept: seq<Bytes>)
    ensures forall i :: 0 <= i < |kept| ==> Verifies(l, tag, kept[i])
  {
    if wires == [] then []
    else
      var front, last := Genuine(l, tag, wires[..|wires| - 1]), wires[|wires| - 1];
      if Verifies(l, tag, last) then front + [last] else front
  }

  /** The receiver with its counter of invalid datagrams left out of account. */
  function Quiet(r: Receiver): Receiver {
    r.(telemetry := r.telemetry.(invalid := 0))
  }

  lemma QuietNewChunk(l: Layout, d: Disk, r: Receiver, s: Receiver, g: Datagram)
    requires Ready(l, d, r) && Ready(l, d, s) && Quiet(r) == Quiet(s)
    requires g.sequence < l.chunks && |g.payload| == Edge(l, g.sequence + 1) - Edge(l, g.sequence)
    ensures OnNewChunk(l, d, r, g).0 == OnNewChunk(l, d, s, g).0
    ensures Quiet(OnNewChunk(l, d, r, g).1) == Quiet(OnNewChunk(l, d, s, g).1)
  {
    var file := Latest(WritePart(d, Edge(l, g.sequence), g.payload).part.value);
    assert Inserted(s, g) == Inserted(r, g).(telemetry := s.telemetry);
    AdvanceIgnoresTelemetry(l, file, Inserted(r, g), s.telemetry);
  }

  lemma AdvanceIgnoresTelemetry(l: Layout, file: Bytes, r: Receiver, t: Telemetry)
    requires |file| == l.size && r.frontier <= l.chunks
    ensures Advance(l, file, r.(telemetry := t)) == Advance(l, file, r).(telemetry := t)
  {
  }

  /** What a datagram does to anything else does not depend on the invalid counter. */
  lemma QuietStep(l: Layout, tag: Tag, d: Disk, r: Receiver, s: Receiver, wire: Bytes)
    requires Ready(l, d, r) && Ready(l, d, s) && Quiet(r) == Quiet(s)
    ensures OnDatagram(l, tag, d, r, wire).0 == OnDatagram(l, tag, d, s, wire).0
    ensures Quiet(OnDatagram(l, tag, d, r, wire).1) == Quiet(OnDatagram(l, tag, d, s, wire).1)
  {
    assert r == s.(telemetry := s.telemetry.(invalid := r.telemetry.invalid));
    match Accept(l, tag, wire)
    case None =>
    case Some(g) =>
      AcceptedShape(l, tag, wire);
      if !Contains(r.bitmap, g.sequence) {
        QuietNewChunk(l, d, CountedAccepted(r, g.repair), CountedAccepted(s, g.repair), g);
      }
  }

  /**
    Datagrams of another session, damaged ones and noise are invisible: file, receipts, hasher and every
    counter but the invalid one end up as if they had never been sent.
  */
  lemma {:induction false} ForeignDatagramsAreInvisible(l: Layout, tag: Tag, d: Disk, r: Receiver, wires: seq<Bytes>)
    requires Ready(l, d, r)
    ensures Serve(l, tag, d, r, wires).0 == Serve(l, tag, d, r, Genuine(l, tag, wires)).0
    ensures Quiet(Serve(l, tag, d, r, wires).1) == Quiet(Serve(l, tag, d, r, Genuine(l, tag, wires)).1)
  {
    if wires != [] {
      var front, last := wires[..|wires| - 1], wires[|wires| - 1];
      var kept := Genuine(l, tag, front);
      ForeignDatagramsAreInvisible(l, tag, d, r, front);
      var (d1, r1) := Serve(l, tag, d, r, front);
      if Verifies(l, tag, last) {
        assert (kept + [last])[..|kept|] == kept;
        QuietStep(l, tag, d1, r1, Serve(l, tag, d, r, kept).1, last);
      } else {
        UnverifiedDatagramOnlyCounts(l, tag, d1, r1, last);
      }
    }
  }

  lemma OneDatagramReceipt(l: Layout, tag: Tag, d: Disk, r: Receiver, wire: Bytes, k: nat)
    requires Ready(l, d, r)
    ensures Contains(OnDatagram(l, tag, d, r, wire).1.bitmap, k) <==>
            Contains(r.bitmap, k) || (Accept(l, tag, wire).Some? && Accept(l, tag, wire).value.sequence == k)
  {
    if Accept(l, tag, wire).Some? {
      AcceptedShape(l, tag, wire);
    }
  }

  /**
    Loss, duplication and reordering do not matter: the chunks on record are those on record before
    and those that arrived at least once, whatever the order.
  */
  lemma {:induction false} ReceiptsAreArrivals(l: Layout, tag: Tag, d: Disk, r: Receiver, wires: seq<Bytes>, k: nat)
    requires Ready(l, d, r)
    ensures Contains(Serve(l, tag, d, r, wires).1.bitmap, k) <==> Contains(r.bitmap, k) || Arrived(l, tag, wires, k)
  {
    if wires != [] {
      var front, last := wires[..|wires| - 1], wires[|wires| - 1];
      ReceiptsAreArrivals(l, tag, d, r, front, k);
      var (d1, r1) := Serve(l, tag, d, r, front);
      OneDatagramReceipt(l, tag, d1, r1, last, k);
      ArrivedSnoc(l, tag, front, last, k);
      assert wires == front + [last];
    }
  }

  lemma {:induction false} ServeKeepsFits(l: Layout, tag: Tag, d: Disk, r: Receiver, wires: seq<Bytes>)
    requires Ready(l, d, r) && Fits(r.bitmap, l.chunks)
    ensures Fits(Serve(l, tag, d, r, wires).1.bitmap, l.chunks)
  {
    if wires != [] {
      var front := wires[..|wires| - 1];
      ServeKeepsFits(l, tag, d, r, front);
      var (d1, r1) := Serve(l, tag, d, r, front);
      DatagramKeepsFits(l, tag, d1, r1, wires[|wires| - 1]);
    }
  }

  lemma ArrivedSnoc(l: Layout, tag: Tag, front: seq<Bytes>, last: Bytes, k: nat)
    ensures Arrived(l, tag, front + [last], k) <==>
            Arrived(l, tag, front, k) || (Accept(l, tag, last).Some? && Accept(l, tag, last).value.sequence == k)
  {
    var all := front + [last];
    if Arrived(l, tag, front, k) {
      var i :| 0 <= i < |front| && Accept(l, tag, front[i]).Some? && Accept(l, tag, front[i]).value.sequence == k;
      assert all[i] == front[i];
    }
    if Accept(l, tag, last).Some? && Accept(l, tag, last).value.sequence == k {
      assert all[|front|] == last;
    }
  }
}
