/**
  The UDP sender: a first pass over the chunks the receiver lacks, then repairs until completion.
  What `take_repairs` returned at each point is an input, since the reader thread fills that queue.
*/
module Senders {
  import opened Outcomes
  import opened Bitmaps
  import opened Layouts
  import opened Disks
  import opened Packets
  import opened Handshakes

  const IP_UDP_OVERHEAD: nat := 28
  const REPAIRS_PER_CHECKPOINT: nat := 4
  const REPAIRS_PER_DRAIN: nat := 1024

  /** One datagram handed to the socket: which chunk, and whether as a repair. */
  datatype Shot = Shot(chunk: nat, repair: bool)

  /** The counters of `send_udp_inner` and what went through the socket. */
  datatype Outbox = Outbox(shots: seq<Shot>, wires: seq<Bytes>, datagrams: nat, repairs: nat, offered: nat)

  const EMPTY: Outbox := Outbox([], [], 0, 0, 0)

  // ----- what the counters should be -----

  /** The chunks a bitmap lacks below `n`, ascending. */
  function Absent(bitmap: seq<Word>, n: nat): (ks: seq<nat>)
    ensures forall k :: k in ks ==> k < n && !Contains(bitmap, k)
  {
    if n == 0 then [] else Absent(bitmap, n - 1) + if Contains(bitmap, n - 1) then [] else [n - 1]
  }

  function Originals(shots: seq<Shot>): seq<nat> {
    if shots == [] then []
    else Originals(shots[..|shots| - 1]) + if shots[|shots| - 1].repair then [] else [shots[|shots| - 1].chunk]
  }

  function RepairsIn(shots: seq<Shot>): seq<nat> {
    if shots == [] then []
    else RepairsIn(shots[..|shots| - 1]) + if shots[|shots| - 1].repair then [shots[|shots| - 1].chunk] else []
  }

  function Offered(l: Layout, shots: seq<Shot>): nat {
    if shots == [] then 0
    else Offered(l, shots[..|shots| - 1]) + PayloadLength(l, shots[|shots| - 1].chunk) + 56
  }

  /** The wires are the packets of the shots. */
  predicate Packed(l: Layout, source: Bytes, tag: Tag, shots: seq<Shot>, wires: seq<Bytes>)
    requires |source| == l.size
    decreases |shots|
  {
    && |shots| == |wires|
    && (shots != [] ==>
      var last := |shots| - 1;
      && Ok(wires[last]) == BuildPacket(l, source, tag, shots[last].chunk, shots[last].repair)
      && Packed(l, source, tag, shots[..last], wires[..last]))
  }

  lemma {:induction false} PackedAt(l: Layout, source: Bytes, tag: Tag, shots: seq<Shot>, wires: seq<Bytes>, i: nat)
    requires |source| == l.size && Packed(l, source, tag, shots, wires) && i < |shots|
    ensures |shots| == |wires| && Ok(wires[i]) == BuildPacket(l, source, tag, shots[i].chunk, shots[i].repair)
    decreases |shots|
  {
    if i < |shots| - 1 {
      PackedAt(l, source, tag, shots[..|shots| - 1], wires[..|shots| - 1], i);
    }
  }

  /** The wires are the packets of the shots, and the counters count them. */
  ghost predicate Tallied(l: Layout, source: Bytes, tag: Tag, o: Outbox)
    requires |source| == l.size
  {
    && Packed(l, source, tag, o.shots, o.wires)
    && o.datagrams == |o.shots|
    && o.repairs == |RepairsIn(o.shots)|
    && o.offered == Offered(l, o.shots)
  }

  lemma {:induction false} ShotsAreOriginalOrRepair(shots: seq<Shot>)
    ensures |Originals(shots)| + |RepairsIn(shots)| == |shots|
  {
    if shots != [] {
      ShotsAreOriginalOrRepair(shots[..|shots| - 1]);
    }
  }

  lemma {:induction false} AbsentIsComplement(bitmap: seq<Word>, n: nat)
    ensures |Absent(bitmap, n)| + CountBelow(bitmap, n) == n
  {
    if n > 0 {
      AbsentIsComplement(bitmap, n - 1);
    }
  }

  ghost predicate Increasing(s: seq<nat>) {
    forall i, j :: 0 <= i < j < |s| ==> s[i] < s[j]
  }

  lemma IncreasingSnoc(s: seq<nat>, k: nat)
    requires Increasing(s) && forall j :: j in s ==> j < k
    ensures Increasing(s + [k])
  {
    assert forall i :: 0 <= i < |s| ==> s[i] in s;
  }

  /** Ascending, without repetition, and complete. */
  lemma {:induction false} AbsentIsExact(bitmap: seq<Word>, n: nat)
    ensures Increasing(Absent(bitmap, n))
    ensures forall k: nat :: k in Absent(bitmap, n) <==> k < n && !Contains(bitmap, k)
  {
    if n > 0 {
      AbsentIsExact(bitmap, n - 1);
      IncreasingSnoc(Absent(bitmap, n - 1), n - 1);
    }
  }

  lemma AbsentCount(bitmap: seq<Word>, chunks: nat)
    requires Fits(bitmap, chunks)
    ensures |Absent(bitmap, chunks)| == chunks - |Members(bitmap)|
  {
    AbsentIsComplement(bitmap, chunks);
    CountBelowIsCardinality(bitmap, chunks);
    assert Members(bitmap) == MembersBelow(bitmap, chunks);
  }

  // ----- sending -----

  /** What one packet adds to the outbox. */
  function Sent(l: Layout, o: Outbox, shot: Shot, wire: Bytes): Outbox {
    Outbox(o.shots + [shot], o.wires + [wire], o.datagrams + 1, o.repairs + (if shot.repair then 1 else 0),
           o.offered + |wire| + IP_UDP_OVERHEAD)
  }

  lemma ShotsSnoc(l: Layout, shots: seq<Shot>, shot: Shot)
    ensures Originals(shots + [shot]) == Originals(shots) + if shot.repair then [] else [shot.chunk]
    ensures RepairsIn(shots + [shot]) == RepairsIn(shots) + if shot.repair then [shot.chunk] else []
    ensures Offered(l, shots + [shot]) == Offered(l, shots) + PayloadLength(l, shot.chunk) + 56
  {
    assert (shots + [shot])[..|shots|] == shots;
  }

  lemma PacketLength(l: Layout, source: Bytes, tag: Tag, k: nat, repair: bool)
    requires |source| == l.size && ValidTag(tag) && BuildPacket(l, source, tag, k, repair).Ok?
    ensures |BuildPacket(l, source, tag, k, repair).value| == HEADER_SIZE + PayloadLength(l, k)
  {
  }

  lemma SentKeepsTallied(l: Layout, source: Bytes, tag: Tag, o: Outbox, shot: Shot, wire: Bytes)
    requires |source| == l.size && ValidTag(tag) && Tallied(l, source, tag, o)
    requires BuildPacket(l, source, tag, shot.chunk, shot.repair) == Ok(wire)
    ensures Tallied(l, source, tag, Sent(l, o, shot, wire))
  {
    ShotsSnoc(l, o.shots, shot);
    PacketLength(l, source, tag, shot.chunk, shot.repair);
    assert (o.shots + [shot])[..|o.shots|] == o.shots && (o.wires + [wire])[..|o.wires|] == o.wires;
  }

  /** Further packets: these originals and these repairs, in order, all counted. */
  ghost predicate Extended(l: Layout, source: Bytes, tag: Tag, o: Outbox, out: Outbox, originals: seq<nat>,
                           repairs: seq<nat>)
    requires |source| == l.size
  {
    && Tallied(l, source, tag, out)
    && Originals(out.shots) == Originals(o.shots) + originals
    && RepairsIn(out.shots) == RepairsIn(o.shots) + repairs
  }

  lemma ExtendedTwice(l: Layout, source: Bytes, tag: Tag, a: Outbox, b: Outbox, c: Outbox,
                      x: seq<nat>, y: seq<nat>, u: seq<nat>, v: seq<nat>)
    requires |source| == l.size && Extended(l, source, tag, a, b, x, y) && Extended(l, source, tag, b, c, u, v)
    ensures Extended(l, source, tag, a, c, x + u, y + v)
  {
    assert Originals(a.shots) + x + u == Originals(a.shots) + (x + u);
    assert RepairsIn(a.shots) + y + v == RepairsIn(a.shots) + (y + v);
  }

  lemma NotExtended(l: Layout, source: Bytes, tag: Tag, o: Outbox)
    requires |source| == l.size && Tallied(l, source, tag, o)
    ensures Extended(l, source, tag, o, o, [], [])
  {
    assert Originals(o.shots) + [] == Originals(o.shots) && RepairsIn(o.shots) + [] == RepairsIn(o.shots);
  }

  /** A batch of repairs, in order. */
  function RepairShots(batch: seq<nat>): (shots: seq<Shot>)
    ensures |shots| == |batch| && forall i :: 0 <= i < |shots| ==> shots[i] == Shot(batch[i], true)
  {
    seq(|batch|, i requires 0 <= i < |batch| => Shot(batch[i], true))
  }

  lemma RepairShotsConcat(a: seq<nat>, b: seq<nat>)
    ensures RepairShots(a + b) == RepairShots(a) + RepairShots(b)
  {
  }

  /** Further packets: these repairs in order and nothing else. */
  ghost predicate Repaired(l: Layout, source: Bytes, tag: Tag, o: Outbox, out: Outbox, batch: seq<nat>)
    requires |source| == l.size
  {
    Extended(l, source, tag, o, out, [], batch) && out.shots == o.shots + RepairShots(batch)
  }

  lemma NotRepaired(l: Layout, source: Bytes, tag: Tag, o: Outbox)
    requires |source| == l.size && Tallied(l, source, tag, o)
    ensures Repaired(l, source, tag, o, o, [])
  {
    NotExtended(l, source, tag, o);
    assert o.shots + RepairShots([]) == o.shots;
  }

  lemma RepairedTwice(l: Layout, source: Bytes, tag: Tag, a: Outbox, b: Outbox, c: Outbox, x: seq<nat>, y: seq<nat>)
    requires |source| == l.size && Repaired(l, source, tag, a, b, x) && Repaired(l, source, tag, b, c, y)
    ensures Repaired(l, source, tag, a, c, x + y)
  {
    ExtendedTwice(l, source, tag, a, b, c, [], x, [], y);
    RepairShotsConcat(x, y);
  }

  lemma RepairedNext(l: Layout, source: Bytes, tag: Tag, a: Outbox, b: Outbox, c: Outbox, batch: seq<nat>, i: nat)
    requires |source| == l.size && i < |batch|
    requires Repaired(l, source, tag, a, b, batch[..i]) && Repaired(l, source, tag, b, c, [batch[i]])
    ensures Repaired(l, source, tag, a, c, batch[..i + 1])
  {
    RepairedTwice(l, source, tag, a, b, c, batch[..i], [batch[i]]);
    assert batch[..i + 1] == batch[..i] + [batch[i]];
  }

  /** `build_packet`, `socket.send` and the counters, for one chunk. */
  method SendPacket(l: Layout, source: Bytes, tag: Tag, o: Outbox, k: nat, repair: bool) returns (r: Result<Outbox>)
    requires ValidLayout(l) && |source| == l.size && ValidTag(tag) && Tallied(l, source, tag, o)
    ensures r.Ok? ==> r.value.shots == o.shots + [Shot(k, repair)]
    ensures r.Ok? ==>
      Extended(l, source, tag, o, r.value, if repair then [] else [k], if repair then [k] else [])
    ensures r.Ok? && repair ==> Repaired(l, source, tag, o, r.value, [k])
    ensures k < l.chunks ==> r.Ok?
  {
    var packet := BuildPacket(l, source, tag, k, repair);
    if k < l.chunks {
      ChunkStart(l, k);
    }
    if packet.Err? {
      return Err;
    }
    ShotsSnoc(l, o.shots, Shot(k, repair));
    SentKeepsTallied(l, source, tag, o, Shot(k, repair), packet.value);
    return Ok(Sent(l, o, Shot(k, repair), packet.value));
  }

  ghost predicate BatchInObject(l: Layout, batch: seq<nat>) {
    forall i :: 0 <= i < |batch| ==> batch[i] < l.chunks
  }

  /** One batch of repairs, in the order they were taken. */
  method SendRepairs(l: Layout, source: Bytes, tag: Tag, o: Outbox, batch: seq<nat>) returns (r: Result<Outbox>)
    requires ValidLayout(l) && |source| == l.size && ValidTag(tag) && Tallied(l, source, tag, o)
    ensures r.Ok? ==> Repaired(l, source, tag, o, r.value, batch)
    ensures BatchInObject(l, batch) ==> r.Ok?
  {
    var out := o;
    var i := 0;
    NotRepaired(l, source, tag, o);
    while i < |batch|
      invariant 0 <= i <= |batch| && Repaired(l, source, tag, o, out, batch[..i])
    {
      var sent := SendPacket(l, source, tag, out, batch[i], true);
      if sent.Err? {
        return Err;
      }
      RepairedNext(l, source, tag, o, out, sent.value, batch, i);
      out := sent.value;
      i := i + 1;
    }
    assert batch[..i] == batch;
    return Ok(out);
  }

  /** The repairs taken during the first pass: only right after sending a chunk whose number is 15 modulo 16. */
  function Interleaved(bitmap: seq<Word>, takes: nat -> seq<nat>, n: nat): seq<nat> {
    if n == 0 then []
    else Interleaved(bitmap, takes, n - 1) + if !Contains(bitmap, n - 1) && (n - 1) % 16 == 15 then takes(n - 1) else []
  }

  lemma NextSequence(bitmap: seq<Word>, takes: nat -> seq<nat>, n: nat)
    ensures Absent(bitmap, n + 1) == if Contains(bitmap, n) then Absent(bitmap, n) else Absent(bitmap, n) + [n]
    ensures Interleaved(bitmap, takes, n + 1)
         == if !Contains(bitmap, n) && n % 16 == 15 then Interleaved(bitmap, takes, n) + takes(n)
            else Interleaved(bitmap, takes, n)
  {
  }

  /** The repairs taken right after sending chunk `k`. */
  function Batch(takes: nat -> seq<nat>, k: nat): seq<nat> {
    if k % 16 == 15 then takes(k) else []
  }

  /** What goes out for an absent chunk. */
  function Round(takes: nat -> seq<nat>, k: nat): seq<Shot> {
    [Shot(k, false)] + RepairShots(Batch(takes, k))
  }

  lemma RoundOf(shots: seq<Shot>, takes: nat -> seq<nat>, k: nat)
    ensures shots + [Shot(k, false)] + RepairShots(Batch(takes, k)) == shots + Round(takes, k)
    ensures k % 16 != 15 ==> shots + [Shot(k, false)] == shots + Round(takes, k)
  {
    if k % 16 != 15 { assert Round(takes, k) == [Shot(k, false)]; }
  }

  /** An absent chunk, and the repairs taken right after one whose number is 15 modulo 16. */
  method SendAbsent(l: Layout, source: Bytes, tag: Tag, takes: nat -> seq<nat>, o: Outbox, k: nat)
    returns (r: Result<Outbox>)
    requires ValidLayout(l) && |source| == l.size && ValidTag(tag) && Tallied(l, source, tag, o) && k < l.chunks
    ensures r.Ok? ==> Extended(l, source, tag, o, r.value, [k], if k % 16 == 15 then takes(k) else [])
    ensures r.Ok? ==> r.value.shots == o.shots + Round(takes, k)
    ensures BatchInObject(l, takes(k)) ==> r.Ok?
  {
    var sent := SendPacket(l, source, tag, o, k, false);
    RoundOf(o.shots, takes, k);
    if k % 16 != 15 {
      return sent;
    }
    var batch := takes(k);
    r := SendRepairs(l, source, tag, sent.value, batch);
    if r.Ok? {
      ExtendedTwice(l, source, tag, o, sent.value, r.value, [k], [], [], batch);
      assert [k] + [] == [k] && [] + batch == batch;
    }
  }

  /** One round of the first pass. */
  method Visit(l: Layout, source: Bytes, tag: Tag, durable: seq<Word>, takes: nat -> seq<nat>, o: Outbox, k: nat)
    returns (r: Result<Outbox>)
    requires ValidLayout(l) && |source| == l.size && ValidTag(tag) && Tallied(l, source, tag, o) && k < l.chunks
    ensures r.Ok? ==>
      Extended(l, source, tag, o, r.value, if Contains(durable, k) then [] else [k],
               if !Contains(durable, k) && k % 16 == 15 then takes(k) else [])
    ensures r.Ok? ==>
      r.value.shots == if Contains(durable, k) then o.shots
                       else o.shots + Round(takes, k)
    ensures BatchInObject(l, takes(k)) ==> r.Ok?
  {
    if Contains(durable, k) {
      NotExtended(l, source, tag, o);
      return Ok(o);
    }
    r := SendAbsent(l, source, tag, takes, o, k);
  }

  // ----- the order of the first pass -----

  /** Shot `i` is a repair from the batch taken after shot `j`, an original whose number is 15 modulo 16. */
  ghost predicate BatchedAt(shots: seq<Shot>, takes: nat -> seq<nat>, j: nat, i: nat) {
    && j < i < |shots| && !shots[j].repair && shots[j].chunk % 16 == 15
    && (forall m :: j < m <= i ==> shots[m].repair)
    && i - j - 1 < |takes(shots[j].chunk)| && shots[i].chunk == takes(shots[j].chunk)[i - j - 1]
  }

  /** The whole batch taken after shot `j` follows it. */
  ghost predicate BatchFollows(shots: seq<Shot>, takes: nat -> seq<nat>, j: nat)
    requires j < |shots|
  {
    forall n :: 0 <= n < |takes(shots[j].chunk)| ==> FollowsAt(shots, j, n, takes(shots[j].chunk)[n])
  }

  predicate FollowsAt(shots: seq<Shot>, j: nat, n: nat, k: nat) {
    j + 1 + n < |shots| && shots[j + 1 + n] == Shot(k, true)
  }

  ghost predicate OriginalsAscend(shots: seq<Shot>, n: nat) {
    && (forall i :: 0 <= i < |shots| && !shots[i].repair ==> shots[i].chunk < n)
    && (forall i, j :: 0 <= i < j < |shots| && !shots[i].repair && !shots[j].repair ==>
          shots[i].chunk < shots[j].chunk)
  }

  /**
    Originals go out in ascending order; right after each whose number is 15 modulo 16 comes the batch of repairs taken
    then, and nowhere else is there a repair.
  */
  ghost predicate InOrder(shots: seq<Shot>, takes: nat -> seq<nat>, n: nat) {
    && OriginalsAscend(shots, n)
    && (forall i :: 0 <= i < |shots| && shots[i].repair ==> exists j :: BatchedAt(shots, takes, j, i))
    && (forall j :: 0 <= j < |shots| && !shots[j].repair && shots[j].chunk % 16 == 15 ==>
          BatchFollows(shots, takes, j))
  }

  lemma RoundKeepsOriginals(shots: seq<Shot>, takes: nat -> seq<nat>, k: nat)
    requires OriginalsAscend(shots, k)
    ensures OriginalsAscend(shots + Round(takes, k), k + 1)
  {
  }

  lemma EarlierBatches(shots: seq<Shot>, takes: nat -> seq<nat>, later: seq<Shot>, i: nat)
    requires i < |shots| && shots[i].repair && exists j :: BatchedAt(shots, takes, j, i)
    ensures exists j :: BatchedAt(shots + later, takes, j, i)
  {
    var j :| BatchedAt(shots, takes, j, i);
    assert BatchedAt(shots + later, takes, j, i);
  }

  lemma NewBatch(shots: seq<Shot>, takes: nat -> seq<nat>, k: nat, i: nat)
    requires |shots| < i < |shots| + 1 + |Batch(takes, k)|
    ensures BatchedAt(shots + Round(takes, k), takes, |shots|, i)
  {
  }

  lemma RoundKeepsFollows(shots: seq<Shot>, takes: nat -> seq<nat>, k: nat, j: nat)
    requires j < |shots| && BatchFollows(shots, takes, j)
    ensures BatchFollows(shots + Round(takes, k), takes, j)
  {
    var batch := takes(shots[j].chunk);
    forall n | 0 <= n < |batch| ensures FollowsAt(shots + Round(takes, k), j, n, batch[n]) {
      assert FollowsAt(shots, j, n, batch[n]);
    }
  }

  lemma RoundInOrder(shots: seq<Shot>, takes: nat -> seq<nat>, k: nat)
    requires InOrder(shots, takes, k)
    ensures InOrder(shots + Round(takes, k), takes, k + 1)
  {
    var later := Round(takes, k);
    var all := shots + later;
    RoundKeepsOriginals(shots, takes, k);
    forall i | 0 <= i < |all| && all[i].repair ensures exists j :: BatchedAt(all, takes, j, i) {
      if i < |shots| { EarlierBatches(shots, takes, later, i); } else { NewBatch(shots, takes, k, i); }
    }
    forall j | 0 <= j < |all| && !all[j].repair && all[j].chunk % 16 == 15 ensures BatchFollows(all, takes, j) {
      if j < |shots| {
        RoundKeepsFollows(shots, takes, k, j);
      } else {
        assert j == |shots|;
        BatchIsThere(shots, takes, k);
      }
    }
  }

  lemma BatchIsThere(shots: seq<Shot>, takes: nat -> seq<nat>, k: nat)
    requires k % 16 == 15
    ensures BatchFollows(shots + Round(takes, k), takes, |shots|)
  {
  }

  lemma SkipInOrder(shots: seq<Shot>, takes: nat -> seq<nat>, k: nat)
    requires InOrder(shots, takes, k)
    ensures InOrder(shots, takes, k + 1)
  {
  }

  lemma VisitInOrder(before: seq<Shot>, after: seq<Shot>, bitmap: seq<Word>, takes: nat -> seq<nat>, k: nat)
    requires InOrder(before, takes, k)
    requires after == if Contains(bitmap, k) then before
                      else before + Round(takes, k)
    ensures InOrder(after, takes, k + 1)
  {
    if Contains(bitmap, k) { SkipInOrder(before, takes, k); } else { RoundInOrder(before, takes, k); }
  }

  /** The bytes offered are those of the packets and 28 for each. */
  lemma {:induction false} OfferedIsPackets(l: Layout, source: Bytes, tag: Tag, shots: seq<Shot>, wires: seq<Bytes>)
    requires |source| == l.size && ValidTag(tag) && Packed(l, source, tag, shots, wires)
    ensures |wires| == |shots| && Offered(l, shots) == |Joined(wires)| + 28 * |wires|
    decreases |shots|
  {
    if shots != [] {
      var n := |shots| - 1;
      OfferedIsPackets(l, source, tag, shots[..n], wires[..n]);
      PacketLength(l, source, tag, shots[n].chunk, shots[n].repair);
      JoinedNext(wires, n);
      assert wires[..n + 1] == wires;
    }
  }

  /** Every chunk the receiver lacks, once and in order, with repairs in between. */
  method FirstPass(l: Layout, source: Bytes, tag: Tag, durable: seq<Word>, takes: nat -> seq<nat>)
    returns (r: Result<Outbox>)
    requires ValidLayout(l) && |source| == l.size && ValidTag(tag)
    requires forall n :: |takes(n)| <= REPAIRS_PER_CHECKPOINT
    ensures r.Ok? ==> Tallied(l, source, tag, r.value)
    ensures r.Ok? ==> Originals(r.value.shots) == Absent(durable, l.chunks)
    ensures r.Ok? ==> RepairsIn(r.value.shots) == Interleaved(durable, takes, l.chunks)
    ensures r.Ok? ==> InOrder(r.value.shots, takes, l.chunks)
    ensures (forall n :: BatchInObject(l, takes(n))) ==> r.Ok?
  {
    var out := EMPTY;
    var sequence := 0;
    while sequence < l.chunks
      invariant 0 <= sequence <= l.chunks && Tallied(l, source, tag, out)
      invariant Originals(out.shots) == Absent(durable, sequence)
      invariant RepairsIn(out.shots) == Interleaved(durable, takes, sequence)
      invariant InOrder(out.shots, takes, sequence)
    {
      NextSequence(durable, takes, sequence);
      var visited := Visit(l, source, tag, durable, takes, out, sequence);
      if visited.Err? {
        return Err;
      }
      VisitInOrder(out.shots, visited.value.shots, durable, takes, sequence);
      out := visited.value;
      sequence := sequence + 1;
    }
    return Ok(out);
  }

  /** The loop after END: one batch at a time, until the receiver has reported completion. */
  method DrainRepairs(l: Layout, source: Bytes, tag: Tag, o: Outbox, drains: seq<seq<nat>>) returns (r: Result<Outbox>)
    requires ValidLayout(l) && |source| == l.size && ValidTag(tag) && Tallied(l, source, tag, o)
    requires forall i :: 0 <= i < |drains| ==> |drains[i]| <= REPAIRS_PER_DRAIN
    ensures r.Ok? ==> Repaired(l, source, tag, o, r.value, Joined(drains))
    ensures (forall i :: 0 <= i < |drains| ==> BatchInObject(l, drains[i])) ==> r.Ok?
  {
    var out := o;
    var i := 0;
    NotRepaired(l, source, tag, o);
    while i < |drains|
      invariant 0 <= i <= |drains| && Repaired(l, source, tag, o, out, Joined(drains[..i]))
    {
      JoinedNext(drains, i);
      var batch := SendRepairs(l, source, tag, out, drains[i]);
      if batch.Err? {
        return Err;
      }
      RepairedTwice(l, source, tag, o, out, batch.value, Joined(drains[..i]), drains[i]);
      out := batch.value;
      i := i + 1;
    }
    assert drains[..i] == drains;
    return Ok(out);
  }

  /**
    The sending side of a transfer, up to COMPLETE. Every chunk the receiver announced as missing goes out
    exactly once as an original, in ascending order; every repair goes out once per time it was taken; the
    datagram counter is the size of the object less what was resumed plus the repairs; and the bytes
    offered are the payloads plus 56 for each datagram.
  */
  method SendUdp(l: Layout, source: Bytes, tag: Tag, durable: seq<Word>, takes: nat -> seq<nat>, drains: seq<seq<nat>>)
    returns (r: Result<Outbox>)
    requires ValidLayout(l) && |source| == l.size && ValidTag(tag) && Fits(durable, l.chunks)
    requires forall n :: |takes(n)| <= REPAIRS_PER_CHECKPOINT
    requires forall i :: 0 <= i < |drains| ==> |drains[i]| <= REPAIRS_PER_DRAIN
    ensures r.Ok? ==> Tallied(l, source, tag, r.value)
    ensures r.Ok? ==> Originals(r.value.shots) == Absent(durable, l.chunks)
    ensures r.Ok? ==> RepairsIn(r.value.shots) == Interleaved(durable, takes, l.chunks) + Joined(drains)
    ensures r.Ok? ==> r.value.datagrams == l.chunks - |Members(durable)| + r.value.repairs
    ensures r.Ok? ==> exists first :: InOrder(first, takes, l.chunks)
                                      && r.value.shots == first + RepairShots(Joined(drains))
    ensures (forall n :: BatchInObject(l, takes(n))) ==>
            (forall i :: 0 <= i < |drains| ==> BatchInObject(l, drains[i])) ==> r.Ok?
  {
    var first := FirstPass(l, source, tag, durable, takes);
    if first.Err? {
      return Err;
    }
    r := DrainRepairs(l, source, tag, first.value, drains);
    if r.Ok? {
      ShotsAreOriginalOrRepair(r.value.shots);
      AbsentCount(durable, l.chunks);
    }
  }

  // ----- handshake and first pass together -----

  /**
    Conservation for a resumed transfer: whatever bitmap an honest receiver announces, the sender's
    originals are exactly the chunks that receiver lacks.
  */
  lemma FirstPassSendsWhatIsMissing(l: Layout, interval: nat, bitmap: seq<Word>, reusedBytes: nat, reusedChunks: nat,
                                    rest: seq<string>, k: nat)
    requires ValidLayout(l) && Fits(bitmap, l.chunks)
    requires reusedBytes <= l.size && reusedChunks <= |Members(bitmap)|
    ensures var messages := Dialogue(l, interval, bitmap, reusedBytes, reusedChunks) + rest;
            Accepted(messages, l, interval).Ok?
            && (k in Absent(Accepted(messages, l, interval).value.0.bitmap, l.chunks) <==>
               k < l.chunks && !Contains(bitmap, k))
  {
    HandshakeAgreement(l, interval, bitmap, reusedBytes, reusedChunks, rest);
    AbsentIsExact(bitmap, l.chunks);
  }
}
