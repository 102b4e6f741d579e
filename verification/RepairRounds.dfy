/**
  Why repair ends. Once END has arrived and the grace has passed, a report covers the whole object.
  One cycle is: report, enqueue, drain the queue, and receive whatever of the repairs gets through.
*/
module RepairRounds {
  import opened Outcomes
  import opened Text
  import opened Bitmaps
  import opened Layouts
  import opened Disks
  import opened Packets
  import opened Receivers
  import opened Reports
  import opened Repairs

  ghost function Missing(bitmap: seq<Word>, chunks: nat): set<nat> {
    set k: nat | k < chunks && !Contains(bitmap, k)
  }

  // ----- the chunks a report lists -----

  function Span(a: nat, b: nat): (s: seq<nat>)
    requires a <= b + 1
    ensures |s| == b + 1 - a
    ensures forall i :: 0 <= i < |s| ==> s[i] == a + i
  {
    seq(b + 1 - a, i requires 0 <= i => a + i)
  }

  function Listing(ranges: seq<Range>): seq<nat> {
    if ranges == [] then []
    else (if ranges[0].0 <= ranges[0].1 then Span(ranges[0].0, ranges[0].1) else []) + Listing(ranges[1..])
  }

  ghost predicate Ascending(ranges: seq<Range>) {
    Apart(ranges) && forall i :: 0 <= i < |ranges| ==> ranges[i].0 <= ranges[i].1
  }

  lemma {:induction false} ListingMembers(ranges: seq<Range>, k: nat)
    requires Ascending(ranges)
    ensures k in Listing(ranges) <==> InRanges(ranges, k)
  {
    if ranges != [] {
      var r, rest := ranges[0], ranges[1..];
      assert forall i :: 0 <= i < |rest| ==> rest[i] == ranges[i + 1];
      ListingMembers(rest, k);
      var span := Span(r.0, r.1);
      assert k in span <==> r.0 <= k <= r.1 by {
        if r.0 <= k <= r.1 { assert span[k - r.0] == k; }
      }
      if InRanges(rest, k) {
        var i :| 0 <= i < |rest| && rest[i].0 <= k <= rest[i].1;
        assert ranges[i + 1] == rest[i];
      }
      if InRanges(ranges, k) && !(r.0 <= k <= r.1) {
        var i :| 0 <= i < |ranges| && ranges[i].0 <= k <= ranges[i].1;
        assert rest[i - 1] == ranges[i];
      }
    }
  }

  lemma {:induction false} ListingDistinct(ranges: seq<Range>)
    requires Ascending(ranges)
    ensures Distinct(Listing(ranges)) && |Listing(ranges)| >= |ranges|
  {
    if ranges != [] {
      var r, rest := ranges[0], ranges[1..];
      assert forall i :: 0 <= i < |rest| ==> rest[i] == ranges[i + 1];
      ListingDistinct(rest);
      var span, tail := Span(r.0, r.1), Listing(rest);
      forall i, j | 0 <= i < |span| && 0 <= j < |tail| ensures span[i] != tail[j] {
        ListingMembers(rest, tail[j]);
        var n :| 0 <= n < |rest| && rest[n].0 <= tail[j] <= rest[n].1;
        assert ranges[0].1 + 1 < ranges[n + 1].0;
      }
    }
  }

  // ----- enqueueing a listing -----

  function PushAll(q: Queue, ks: seq<nat>): Queue
    decreases |ks|
  {
    if ks == [] || Full(q) then q else PushAll(Push(q, ks[0]), ks[1..])
  }

  lemma {:induction false} PushToIsPushAll(q: Queue, a: nat, b: nat)
    requires a <= b + 1
    ensures PushTo(q, a, b) == PushAll(q, Span(a, b))
    decreases b + 1 - a
  {
    if a <= b && !Full(q) {
      PushToIsPushAll(Push(q, a), a + 1, b);
      SpanTail(a, b);
    }
  }

  lemma SpanTail(a: nat, b: nat)
    requires a <= b
    ensures Span(a, b)[0] == a && Span(a, b)[1..] == Span(a + 1, b)
  {
  }

  lemma {:induction false} PushAllConcat(q: Queue, xs: seq<nat>, ys: seq<nat>)
    ensures PushAll(q, xs + ys) == PushAll(PushAll(q, xs), ys)
    decreases |xs|
  {
    if xs == [] {
      assert xs + ys == ys;
    } else if Full(q) {
    } else {
      assert (xs + ys)[1..] == xs[1..] + ys;
      PushAllConcat(Push(q, xs[0]), xs[1..], ys);
    }
  }

  /** An honest report is enqueued in full, in order, as far as there is room. */
  lemma {:induction false} ReportIsPushAll(q: Queue, ranges: seq<Range>, chunks: nat)
    requires forall i :: 0 <= i < |ranges| ==> ranges[i].0 <= ranges[i].1 < chunks
    requires chunks < U64_LIMIT
    ensures PushParts(q, RangeTexts(ranges), chunks) == (PushAll(q, Listing(ranges)), true)
    decreases |ranges|
  {
    if ranges != [] {
      var r, rest, texts := ranges[0], ranges[1..], RangeTexts(ranges);
      assert texts[1..] == RangeTexts(rest);
      ParseRangeOfText(r);
      RangeTextIsSolid(r);
      PushToIsPushAll(q, r.0, r.1);
      PushAllConcat(q, Span(r.0, r.1), Listing(rest));
      if Blocked(q, r.0, r.1) {
        BlockedIsFull(q, r.0, r.1);
      } else {
        ReportIsPushAll(PushTo(q, r.0, r.1), rest, chunks);
      }
    }
  }

  /** Distinct chunks, none of them queued or cooling down. */
  ghost predicate Fresh(q: Queue, ks: seq<nat>) {
    Distinct(ks) && forall i :: 0 <= i < |ks| ==> ks[i] !in q.queued && ks[i] !in q.lastSent
  }

  lemma FreshNext(q: Queue, ks: seq<nat>)
    requires Fresh(q, ks) && ks != [] && |q.queued| == |q.queue|
    ensures var p := Push(q, ks[0]);
            && p.queue == q.queue + [ks[0]] && p.lastSent == q.lastSent && |p.queued| == |p.queue|
            && Fresh(p, ks[1..])
  {
    assert forall i :: 0 <= i < |ks[1..]| ==> ks[1..][i] == ks[i + 1];
  }

  lemma OneMoreFits(queue: seq<nat>, ks: seq<nat>, room: nat)
    requires 0 < room <= |ks|
    ensures queue + [ks[0]] + ks[1..][..room - 1] == queue + ks[..room]
  {
  }

  /** New, distinct chunks all enter, up to the bound. */
  lemma {:induction false} PushAllFresh(q: Queue, ks: seq<nat>)
    requires Fresh(q, ks) && |q.queued| == |q.queue| <= MAX_QUEUED_REPAIRS
    ensures PushAll(q, ks).queue == q.queue + ks[..Min(|ks|, MAX_QUEUED_REPAIRS - |q.queue|)]
    ensures PushAll(q, ks).lastSent == q.lastSent
    decreases |ks|
  {
    if ks != [] && !Full(q) {
      FreshNext(q, ks);
      PushAllFresh(Push(q, ks[0]), ks[1..]);
      OneMoreFits(q.queue, ks, Min(|ks|, MAX_QUEUED_REPAIRS - |q.queue|));
    } else {
      assert q.queue + ks[..0] == q.queue;
    }
  }

  // ----- repairs on the wire -----

  /** The repair packets for a list of chunks. */
  function RepairPackets(l: Layout, source: Bytes, tag: Tag, ks: seq<nat>): (wires: seq<Bytes>)
    requires |source| == l.size
    ensures |wires| == |ks|
  {
    seq(|ks|, i requires 0 <= i < |ks| =>
      match BuildPacket(l, source, tag, ks[i], true) case Ok(p) => p case Err => [])
  }

  lemma RepairPacketsArrive(l: Layout, source: Bytes, tag: Tag, ks: seq<nat>, k: nat)
    requires ValidLayout(l) && |source| == l.size && ValidTag(tag) && forall j :: j in ks ==> j < l.chunks
    ensures Arrived(l, tag, RepairPackets(l, source, tag, ks), k) <==> k in ks
  {
    var wires := RepairPackets(l, source, tag, ks);
    forall i | 0 <= i < |ks|
      ensures Accept(l, tag, wires[i]).Some? && Accept(l, tag, wires[i]).value.sequence == ks[i]
    {
      assert ks[i] in ks;
      BuiltPacketsAreAccepted(l, source, tag, ks[i], true);
    }
    if k in ks {
      var i :| 0 <= i < |ks| && ks[i] == k;
      assert Accept(l, tag, wires[i]).value.sequence == k;
    }
  }

  // ----- draining the queue -----

  ghost predicate OnlyTakes(ops: seq<Op>) {
    forall i :: 0 <= i < |ops| ==> ops[i].Take?
  }

  /** The chunks a list of operations takes, in order. */
  ghost function Taken(h: History, ops: seq<Op>, cooldown: nat): seq<nat>
    decreases |ops|
  {
    if ops == [] || !OpOk(h, ops[0]) then []
    else (if ops[0].Take? then [h.q.queue[0]] else []) + Taken(Apply(h, ops[0], cooldown), ops[1..], cooldown)
  }

  /** Taking until the queue is empty takes exactly what was queued, in order, and remembers nothing else. */
  lemma {:induction false} DrainTakesQueue(h: History, ops: seq<Op>, cooldown: nat, end: History)
    requires OnlyTakes(ops) && RunsTo(h, ops, cooldown, end) && end.q.queue == []
    ensures Taken(h, ops, cooldown) == h.q.queue
    ensures forall k :: k in end.q.lastSent ==> k in h.q.lastSent || k in h.q.queue
    decreases |ops|
  {
    if ops != [] {
      var next := Apply(h, ops[0], cooldown);
      assert forall i :: 0 <= i < |ops[1..]| ==> ops[1..][i] == ops[i + 1];
      DrainTakesQueue(next, ops[1..], cooldown, end);
      assert next.q == TakeOne(h.q, ops[0].now, ops[0].victim);
      assert h.q.queue == [h.q.queue[0]] + next.q.queue;
    }
  }

  /** Draining is always possible. */
  lemma {:induction false} DrainExists(h: History, now: int, cooldown: nat) returns (ops: seq<Op>, end: History)
    requires HistoryOk(h, cooldown) && h.clock <= now
    ensures OnlyTakes(ops) && RunsTo(h, ops, cooldown, end) && end.q.queue == []
    decreases |h.q.queue|
  {
    if h.q.queue == [] {
      ops, end := [], h;
    } else {
      var victim: nat := 0;
      if |h.q.lastSent| >= MAX_QUEUED_REPAIRS {
        assert h.q.lastSent.Keys != {};
        victim :| victim in h.q.lastSent;
      }
      var op := Take(now, victim);
      OpKeepsHistory(h, op, cooldown);
      var rest;
      rest, end := DrainExists(Apply(h, op, cooldown), now, cooldown);
      ops := [op] + rest;
      assert ops[1..] == rest;
    }
  }

  // ----- one cycle -----

  /**
    Receiver and sender when a report is made at `now`; `takes` is what the sender does with it, and `arrivals`
    are the repairs that then get through, in the order they come and as often.
  */
  datatype Turn = Turn(d: Disk, r: Receiver, h: History, now: int, takes: seq<Op>, arrivals: seq<nat>)

  /** Nothing is queued. */
  ghost predicate Drained(l: Layout, a: Turn, cooldown: nat) {
    && Ready(l, a.d, a.r) && Fits(a.r.bitmap, l.chunks)
    && HistoryOk(a.h, cooldown) && a.h.q.queue == [] && a.h.clock <= a.now
  }

  /** And every chunk still cooling down has arrived. */
  ghost predicate Idle(l: Layout, a: Turn, cooldown: nat) {
    Drained(l, a, cooldown) && forall k :: k in Expire(a.h.q, a.now, cooldown).lastSent ==> Contains(a.r.bitmap, k)
  }

  /** What the report at the end of the transfer names. */
  function LastReport(l: Layout, r: Receiver): seq<Range> {
    Runs(r.bitmap, 0, l.chunks, MAX_RANGES_PER_REPORT)
  }

  /** The queue once the report has been handled: cooldowns expired, holes enqueued. */
  function Reported(l: Layout, a: Turn, cooldown: nat): History
    requires a.h.clock <= a.now
  {
    var forgotten := Apply(a.h, Forget(a.now), cooldown);
    Apply(forgotten, Report(RangeTexts(LastReport(l, a.r)), l.chunks), cooldown)
  }

  /** The chunks the sender takes, in order. */
  ghost function TakenIn(l: Layout, cooldown: nat, a: Turn): seq<nat>
    requires a.h.clock <= a.now
  {
    Taken(Reported(l, a, cooldown), a.takes, cooldown)
  }

  /** A cycle: report, enqueue, take until the queue is empty, and of the repairs taken some arrive. */
  ghost predicate Cycle(l: Layout, source: Bytes, tag: Tag, cooldown: nat, a: Turn, b: Turn)
    requires |source| == l.size && Ready(l, a.d, a.r) && a.h.clock <= a.now
  {
    && OnlyTakes(a.takes) && RunsTo(Reported(l, a, cooldown), a.takes, cooldown, b.h)
    && b.h.q.queue == [] && b.h.clock <= b.now
    && (forall k :: k in a.arrivals ==> k in TakenIn(l, cooldown, a))
    && (b.d, b.r) == Serve(l, tag, a.d, a.r, RepairPackets(l, source, tag, a.arrivals))
  }

  /** Every repair taken arrives. */
  ghost predicate LossFree(l: Layout, cooldown: nat, a: Turn)
    requires a.h.clock <= a.now
  {
    forall k :: k in TakenIn(l, cooldown, a) ==> k in a.arrivals
  }

  lemma LastReportLists(l: Layout, r: Receiver)
    requires ValidLayout(l)
    ensures Ascending(LastReport(l, r))
    ensures forall i :: 0 <= i < |LastReport(l, r)| ==> LastReport(l, r)[i].1 < l.chunks
    ensures Distinct(Listing(LastReport(l, r)))
    ensures forall k :: k in Listing(LastReport(l, r)) ==> k in Missing(r.bitmap, l.chunks)
    ensures |Listing(LastReport(l, r))| >= MAX_RANGES_PER_REPORT
            || forall k :: k in Missing(r.bitmap, l.chunks) ==> k in Listing(LastReport(l, r))
  {
    var ranges := LastReport(l, r);
    FirstRunsAreExact(r.bitmap, l.chunks, MAX_RANGES_PER_REPORT);
    ListingDistinct(ranges);
    forall k | k in Listing(ranges) ensures k in Missing(r.bitmap, l.chunks) {
      ListingMembers(ranges, k);
    }
    if |ranges| < MAX_RANGES_PER_REPORT {
      forall k | k in Missing(r.bitmap, l.chunks) ensures k in Listing(ranges) {
        ListingMembers(ranges, k);
      }
    }
  }

  function Elements(ks: seq<nat>): (s: set<nat>)
    ensures forall k :: k in s <==> k in ks
  {
    if ks == [] then {} else {ks[0]} + Elements(ks[1..])
  }

  lemma {:induction false} DistinctSize(ks: seq<nat>)
    requires Distinct(ks)
    ensures |Elements(ks)| == |ks|
  {
    if ks != [] {
      DistinctSize(ks[1..]);
      assert ks[0] !in ks[1..];
    }
  }

  lemma RemoveListed(missing: set<nat>, ks: seq<nat>)
    requires Distinct(ks) && forall k :: k in ks ==> k in missing
    ensures |missing - Elements(ks)| == |missing| - |ks|
  {
    DistinctSize(ks);
    var listed := Elements(ks);
    assert listed <= missing;
    assert missing * listed == listed;
  }

  /** Whatever is enqueued was listed. */
  lemma {:induction false} PushAllFrom(q: Queue, ks: seq<nat>)
    ensures forall k :: k in PushAll(q, ks).queue ==> k in q.queue || k in ks
    ensures PushAll(q, ks).lastSent == q.lastSent
    decreases |ks|
  {
    if ks != [] && !Full(q) {
      PushAllFrom(Push(q, ks[0]), ks[1..]);
      assert forall k :: k in ks[1..] ==> k in ks;
    }
  }

  lemma ReportedIsPushed(l: Layout, a: Turn, cooldown: nat)
    requires ValidLayout(l) && Drained(l, a, cooldown)
    ensures HistoryOk(Reported(l, a, cooldown), cooldown)
    ensures Reported(l, a, cooldown).q == PushAll(Expire(a.h.q, a.now, cooldown), Listing(LastReport(l, a.r)))
  {
    var forgotten := Apply(a.h, Forget(a.now), cooldown);
    OpKeepsHistory(a.h, Forget(a.now), cooldown);
    OpKeepsHistory(forgotten, Report(RangeTexts(LastReport(l, a.r)), l.chunks), cooldown);
    LastReportLists(l, a.r);
    ReportIsPushAll(Expire(a.h.q, a.now, cooldown), LastReport(l, a.r), l.chunks);
  }

  /** Only missing chunks are enqueued. */
  lemma ReportedIsMissing(l: Layout, a: Turn, cooldown: nat)
    requires ValidLayout(l) && Drained(l, a, cooldown)
    ensures HistoryOk(Reported(l, a, cooldown), cooldown)
    ensures forall k :: k in Reported(l, a, cooldown).q.queue ==> k in Missing(a.r.bitmap, l.chunks)
    ensures Reported(l, a, cooldown).q.lastSent == Expire(a.h.q, a.now, cooldown).lastSent
  {
    ReportedIsPushed(l, a, cooldown);
    LastReportLists(l, a.r);
    PushAllFrom(Expire(a.h.q, a.now, cooldown), Listing(LastReport(l, a.r)));
  }

  /** With no unreceived chunk cooling down, the holes are enqueued in order as far as there is room. */
  lemma ReportedIsPrefix(l: Layout, a: Turn, cooldown: nat)
    requires ValidLayout(l) && Idle(l, a, cooldown)
    ensures var listed := Listing(LastReport(l, a.r));
            Reported(l, a, cooldown).q.queue == listed[..Min(|listed|, MAX_QUEUED_REPAIRS)]
  {
    ReportedIsPushed(l, a, cooldown);
    LastReportLists(l, a.r);
    FreshQueue(Expire(a.h.q, a.now, cooldown), Listing(LastReport(l, a.r)));
  }

  lemma FreshQueue(q: Queue, listed: seq<nat>)
    requires Distinct(listed) && Listed(q) && q.queue == []
    requires forall k :: k in listed ==> k !in q.lastSent
    ensures PushAll(q, listed).queue == listed[..Min(|listed|, MAX_QUEUED_REPAIRS)]
    ensures PushAll(q, listed).lastSent == q.lastSent
  {
    PushAllFresh(q, listed);
    assert [] + listed[..Min(|listed|, MAX_QUEUED_REPAIRS)] == listed[..Min(|listed|, MAX_QUEUED_REPAIRS)];
  }

  /** What is taken is what was enqueued. */
  lemma TakenIsReported(l: Layout, source: Bytes, tag: Tag, cooldown: nat, a: Turn, b: Turn)
    requires ValidLayout(l) && |source| == l.size && Drained(l, a, cooldown) && Cycle(l, source, tag, cooldown, a, b)
    ensures TakenIn(l, cooldown, a) == Reported(l, a, cooldown).q.queue
    ensures forall k :: k in a.arrivals ==> k in Missing(a.r.bitmap, l.chunks)
  {
    ReportedIsMissing(l, a, cooldown);
    DrainTakesQueue(Reported(l, a, cooldown), a.takes, cooldown, b.h);
  }

  /** After a cycle a chunk has been received if it had been before or its repair arrived. */
  lemma CycleReceives(l: Layout, source: Bytes, tag: Tag, cooldown: nat, a: Turn, b: Turn, k: nat)
    requires ValidLayout(l) && |source| == l.size && ValidTag(tag)
    requires Drained(l, a, cooldown) && Cycle(l, source, tag, cooldown, a, b)
    ensures Contains(b.r.bitmap, k) <==> Contains(a.r.bitmap, k) || k in a.arrivals
  {
    TakenIsReported(l, source, tag, cooldown, a, b);
    ReceiptsAreArrivals(l, tag, a.d, a.r, RepairPackets(l, source, tag, a.arrivals), k);
    RepairPacketsArrive(l, source, tag, a.arrivals, k);
  }

  lemma CycleKeepsDrained(l: Layout, source: Bytes, tag: Tag, cooldown: nat, a: Turn, b: Turn)
    requires ValidLayout(l) && |source| == l.size && Drained(l, a, cooldown) && Cycle(l, source, tag, cooldown, a, b)
    ensures Drained(l, b, cooldown)
  {
    ReportedIsMissing(l, a, cooldown);
    OpsKeepHistory(Reported(l, a, cooldown), a.takes, cooldown, b.h);
    ServeKeepsFits(l, tag, a.d, a.r, RepairPackets(l, source, tag, a.arrivals));
  }

  /** A cycle removes from the missing set exactly the chunks whose repairs arrived, whatever was lost. */
  lemma CycleRemovesArrivals(l: Layout, source: Bytes, tag: Tag, cooldown: nat, a: Turn, b: Turn)
    requires ValidLayout(l) && |source| == l.size && ValidTag(tag)
    requires Drained(l, a, cooldown) && Cycle(l, source, tag, cooldown, a, b)
    ensures Drained(l, b, cooldown)
    ensures Elements(a.arrivals) <= Missing(a.r.bitmap, l.chunks)
    ensures Missing(b.r.bitmap, l.chunks) == Missing(a.r.bitmap, l.chunks) - Elements(a.arrivals)
  {
    CycleKeepsDrained(l, source, tag, cooldown, a, b);
    TakenIsReported(l, source, tag, cooldown, a, b);
    forall k: nat
      ensures k in Missing(b.r.bitmap, l.chunks) <==> k in Missing(a.r.bitmap, l.chunks) - Elements(a.arrivals)
    {
      CycleReceives(l, source, tag, cooldown, a, b, k);
    }
  }

  /** Once the cooldowns have passed, whatever was lost may be repaired again. */
  lemma WaitedIsIdle(l: Layout, a: Turn, cooldown: nat)
    requires Drained(l, a, cooldown) && forall k :: k in a.h.q.lastSent ==> a.now - a.h.q.lastSent[k] >= cooldown
    ensures Idle(l, a, cooldown)
  {
  }

  /** Then a report offers a repair whenever something is missing. */
  lemma IdleOffersRepair(l: Layout, a: Turn, cooldown: nat)
    requires ValidLayout(l) && Idle(l, a, cooldown) && Missing(a.r.bitmap, l.chunks) != {}
    ensures Reported(l, a, cooldown).q.queue != []
  {
    ReportedIsPrefix(l, a, cooldown);
    LastReportLists(l, a.r);
    var k :| k in Missing(a.r.bitmap, l.chunks);
    assert |Listing(LastReport(l, a.r))| > 0;
  }

  lemma CycleKeepsIdle(l: Layout, source: Bytes, tag: Tag, cooldown: nat, a: Turn, b: Turn)
    requires ValidLayout(l) && |source| == l.size && ValidTag(tag) && Idle(l, a, cooldown)
    requires Cycle(l, source, tag, cooldown, a, b) && LossFree(l, cooldown, a)
    ensures Idle(l, b, cooldown)
  {
    CycleKeepsDrained(l, source, tag, cooldown, a, b);
    ReportedIsMissing(l, a, cooldown);
    DrainTakesQueue(Reported(l, a, cooldown), a.takes, cooldown, b.h);
    forall k | k in Expire(b.h.q, b.now, cooldown).lastSent ensures Contains(b.r.bitmap, k) {
      CycleReceives(l, source, tag, cooldown, a, b, k);
    }
  }

  /** Removing a prefix of the listing from the missing set. */
  lemma SentLeaveMissing(before: set<nat>, after: set<nat>, listed: seq<nat>, sent: seq<nat>)
    requires Distinct(listed) && sent == listed[..Min(|listed|, MAX_QUEUED_REPAIRS)]
    requires forall k :: k in listed ==> k in before
    requires |listed| >= MAX_RANGES_PER_REPORT || forall k :: k in before ==> k in listed
    requires forall k :: k in after <==> k in before && k !in sent
    ensures |after| == |before| - Min(|listed|, MAX_QUEUED_REPAIRS)
    ensures |after| <= |before| - MAX_RANGES_PER_REPORT || after == {}
  {
    assert after == before - Elements(sent);
    RemoveListed(before, sent);
    if |listed| < MAX_RANGES_PER_REPORT {
      assert sent == listed;
      assert after == {};
    }
  }

  /**
    One cycle without loss shrinks the missing set by exactly min(total size of the reported holes, 65,536), and
    leaves sender and receiver ready for the next; no cooldown has to expire in between.
  */
  lemma CycleShrinksMissing(l: Layout, source: Bytes, tag: Tag, cooldown: nat, a: Turn, b: Turn)
    requires ValidLayout(l) && |source| == l.size && ValidTag(tag) && Idle(l, a, cooldown)
    requires Cycle(l, source, tag, cooldown, a, b) && LossFree(l, cooldown, a)
    ensures Idle(l, b, cooldown)
    ensures |Missing(b.r.bitmap, l.chunks)|
         == |Missing(a.r.bitmap, l.chunks)| - Min(|Listing(LastReport(l, a.r))|, MAX_QUEUED_REPAIRS)
    ensures |Missing(b.r.bitmap, l.chunks)| <= |Missing(a.r.bitmap, l.chunks)| - MAX_RANGES_PER_REPORT
            || Missing(b.r.bitmap, l.chunks) == {}
  {
    CycleKeepsIdle(l, source, tag, cooldown, a, b);
    CycleRemovesArrivals(l, source, tag, cooldown, a, b);
    TakenIsReported(l, source, tag, cooldown, a, b);
    LastReportLists(l, a.r);
    ReportedIsPrefix(l, a, cooldown);
    SentLeaveMissing(Missing(a.r.bitmap, l.chunks), Missing(b.r.bitmap, l.chunks), Listing(LastReport(l, a.r)),
                     Reported(l, a, cooldown).q.queue);
  }

  /** From an idle state there is a cycle without loss, at any later time. */
  lemma CycleExists(l: Layout, source: Bytes, tag: Tag, cooldown: nat, a: Turn) returns (begun: Turn, b: Turn)
    requires ValidLayout(l) && |source| == l.size && Idle(l, a, cooldown)
    ensures begun == a.(takes := begun.takes, arrivals := begun.arrivals)
    ensures Cycle(l, source, tag, cooldown, begun, b) && LossFree(l, cooldown, begun)
  {
    var reported := Reported(l, a, cooldown);
    ReportedIsMissing(l, a, cooldown);
    var takes, end := DrainExists(reported, a.now, cooldown);
    var taken := Taken(reported, takes, cooldown);
    begun := a.(takes := takes, arrivals := taken);
    assert Reported(l, begun, cooldown) == reported;
    var (d, r) := Serve(l, tag, a.d, a.r, RepairPackets(l, source, tag, taken));
    b := Turn(d, r, end, end.clock, [], []);
  }

  // ----- repeated cycles -----

  ghost predicate Cycles(l: Layout, source: Bytes, tag: Tag, cooldown: nat, turns: seq<Turn>)
    requires |source| == l.size
  {
    forall i :: 0 <= i < |turns| - 1 ==> Leads(l, source, tag, cooldown, turns[i], turns[i + 1])
  }

  ghost predicate Leads(l: Layout, source: Bytes, tag: Tag, cooldown: nat, a: Turn, b: Turn)
    requires |source| == l.size
  {
    Ready(l, a.d, a.r) && a.h.clock <= a.now && Cycle(l, source, tag, cooldown, a, b)
  }

  /** The chunks whose repairs arrived in the first `n` cycles. */
  ghost function ArrivedIn(turns: seq<Turn>, n: nat): set<nat>
    requires n <= |turns|
  {
    if n == 0 then {} else ArrivedIn(turns, n - 1) + Elements(turns[n - 1].arrivals)
  }

  /** Over any number of cycles, with any loss. */
  lemma {:induction false} CyclesRemoveArrivals(l: Layout, source: Bytes, tag: Tag, cooldown: nat, turns: seq<Turn>,
                                                n: nat)
    requires ValidLayout(l) && |source| == l.size && ValidTag(tag) && n < |turns|
    requires Cycles(l, source, tag, cooldown, turns) && Drained(l, turns[0], cooldown)
    ensures Drained(l, turns[n], cooldown)
    ensures Missing(turns[n].r.bitmap, l.chunks) == Missing(turns[0].r.bitmap, l.chunks) - ArrivedIn(turns, n)
  {
    if n > 0 {
      CyclesRemoveArrivals(l, source, tag, cooldown, turns, n - 1);
      var a, b := turns[n - 1], turns[n];
      assert Leads(l, source, tag, cooldown, a, turns[n - 1 + 1]);
      CycleRemovesArrivals(l, source, tag, cooldown, a, b);
    }
  }

  lemma NothingMissingIff(bitmap: seq<Word>, chunks: nat)
    requires Fits(bitmap, chunks)
    ensures |Members(bitmap)| == chunks <==> Missing(bitmap, chunks) == {}
  {
    FullIffAllReceived(bitmap, chunks);
    if Missing(bitmap, chunks) == {} {
      forall k: nat | k < chunks ensures Contains(bitmap, k) {
        assert k !in Missing(bitmap, chunks);
      }
    }
  }

  /** Repair over a lossy network: it is over exactly when the repair of each missing chunk has arrived once. */
  lemma RepairEndsIff(l: Layout, source: Bytes, tag: Tag, cooldown: nat, turns: seq<Turn>, n: nat)
    requires ValidLayout(l) && |source| == l.size && ValidTag(tag) && n < |turns|
    requires Cycles(l, source, tag, cooldown, turns) && Drained(l, turns[0], cooldown)
    ensures |Members(turns[n].r.bitmap)| == l.chunks <==> Missing(turns[0].r.bitmap, l.chunks) <= ArrivedIn(turns, n)
  {
    CyclesRemoveArrivals(l, source, tag, cooldown, turns, n);
    NothingMissingIff(turns[n].r.bitmap, l.chunks);
  }

  /** Something arrives in each of the first `n` cycles that begins with something missing. */
  ghost predicate Progresses(l: Layout, turns: seq<Turn>, n: nat) {
    n <= |turns| && forall i :: 0 <= i < n ==> Missing(turns[i].r.bitmap, l.chunks) == {} || turns[i].arrivals != []
  }

  lemma FewerMissing(before: set<nat>, arrivals: seq<nat>)
    requires Elements(arrivals) <= before && (before == {} || arrivals != [])
    ensures before - Elements(arrivals) == {} || |before - Elements(arrivals)| < |before|
  {
    if arrivals != [] {
      assert arrivals[0] in Elements(arrivals);
      SmallerSet(before - Elements(arrivals), before, arrivals[0]);
    }
  }

  lemma SmallerSet(a: set<nat>, b: set<nat>, k: nat)
    requires a <= b && k in b && k !in a
    ensures |a| < |b|
  {
    assert a <= b - {k};
    SubsetSize(a, b - {k});
  }

  /**
    However much is lost, if each cycle gets at least one repair through, as many cycles suffice as chunks
    are missing.
  */
  lemma {:induction false} LossyCyclesShrinkMissing(l: Layout, source: Bytes, tag: Tag, cooldown: nat,
                                                    turns: seq<Turn>, n: nat)
    requires ValidLayout(l) && |source| == l.size && ValidTag(tag) && n < |turns|
    requires Cycles(l, source, tag, cooldown, turns) && Drained(l, turns[0], cooldown) && Progresses(l, turns, n)
    ensures Drained(l, turns[n], cooldown)
    ensures Missing(turns[n].r.bitmap, l.chunks) == {}
         || |Missing(turns[n].r.bitmap, l.chunks)| + n <= |Missing(turns[0].r.bitmap, l.chunks)|
  {
    if n > 0 {
      LossyCyclesShrinkMissing(l, source, tag, cooldown, turns, n - 1);
      var a, b := turns[n - 1], turns[n];
      assert Leads(l, source, tag, cooldown, a, turns[n - 1 + 1]);
      CycleRemovesArrivals(l, source, tag, cooldown, a, b);
      FewerMissing(Missing(a.r.bitmap, l.chunks), a.arrivals);
    }
  }

  /** So repair ends however much is lost, as long as no cycle loses everything. */
  lemma LossyRepairTerminates(l: Layout, source: Bytes, tag: Tag, cooldown: nat, turns: seq<Turn>, n: nat)
    requires ValidLayout(l) && |source| == l.size && ValidTag(tag) && n < |turns|
    requires Cycles(l, source, tag, cooldown, turns) && Drained(l, turns[0], cooldown) && Progresses(l, turns, n)
    requires |Missing(turns[0].r.bitmap, l.chunks)| <= n
    ensures |Members(turns[n].r.bitmap)| == l.chunks
  {
    LossyCyclesShrinkMissing(l, source, tag, cooldown, turns, n);
    NothingMissingIff(turns[n].r.bitmap, l.chunks);
  }

  /** No loss in the first `n` cycles. */
  ghost predicate NoLoss(l: Layout, cooldown: nat, turns: seq<Turn>, n: nat) {
    n <= |turns| && forall i :: 0 <= i < n ==> turns[i].h.clock <= turns[i].now && LossFree(l, cooldown, turns[i])
  }

  /** `m` chunks less for each cycle, until none is left. */
  predicate Shrunk(before: nat, after: nat, m: nat, n: nat) {
    after == 0 || after + m * n <= before
  }

  lemma ShrunkNext(before: nat, middle: nat, after: nat, m: nat, n: nat)
    requires Shrunk(before, middle, m, n) && (after == 0 || after + m <= middle)
    ensures Shrunk(before, after, m, n + 1)
  {
    assert m * (n + 1) == m * n + m;
  }

  lemma {:induction false} CyclesShrinkMissing(l: Layout, source: Bytes, tag: Tag, cooldown: nat, turns: seq<Turn>,
                                               n: nat)
    requires ValidLayout(l) && |source| == l.size && ValidTag(tag) && n < |turns|
    requires Cycles(l, source, tag, cooldown, turns) && Idle(l, turns[0], cooldown) && NoLoss(l, cooldown, turns, n)
    ensures Idle(l, turns[n], cooldown)
    ensures Shrunk(|Missing(turns[0].r.bitmap, l.chunks)|, |Missing(turns[n].r.bitmap, l.chunks)|,
            MAX_RANGES_PER_REPORT, n)
  {
    if n > 0 {
      CyclesShrinkMissing(l, source, tag, cooldown, turns, n - 1);
      var a, b := turns[n - 1], turns[n];
      assert Leads(l, source, tag, cooldown, a, turns[n - 1 + 1]);
      CycleShrinksMissing(l, source, tag, cooldown, a, b);
      ShrunkNext(|Missing(turns[0].r.bitmap, l.chunks)|, |Missing(a.r.bitmap, l.chunks)|,
                 |Missing(b.r.bitmap, l.chunks)|, MAX_RANGES_PER_REPORT, n - 1);
    }
  }

  /** Without loss repair ends: after ceil(missing / 512) cycles at most, every chunk has been received. */
  lemma RepairTerminates(l: Layout, source: Bytes, tag: Tag, cooldown: nat, turns: seq<Turn>, n: nat)
    requires ValidLayout(l) && |source| == l.size && ValidTag(tag) && n < |turns|
    requires Cycles(l, source, tag, cooldown, turns) && Idle(l, turns[0], cooldown) && NoLoss(l, cooldown, turns, n)
    requires |Missing(turns[0].r.bitmap, l.chunks)| <= MAX_RANGES_PER_REPORT * n
    ensures |Members(turns[n].r.bitmap)| == l.chunks
  {
    CyclesShrinkMissing(l, source, tag, cooldown, turns, n);
    NothingMissingIff(turns[n].r.bitmap, l.chunks);
  }
}
