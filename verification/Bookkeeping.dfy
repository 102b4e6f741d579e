/**
  The receiver's bookkeeping over whole runs: in every reachable state of every session, fresh, resumed or
  with reused content, all views of the received chunks agree, and so every report is accepted.
*/
module Bookkeeping {
  import opened Outcomes
  import opened Text
  import opened Bitmaps
  import opened Layouts
  import opened Disks
  import opened Receivers
  import opened Transfers
  import opened Reports
  import opened Repairs
  import opened RepairRounds
  import opened Feedback

  /** One session's state: the chunks accepted in it, on top of those it began with, are the chunks received. */
  ghost predicate Agrees(l: Layout, r: Receiver, limit: nat) {
    && r.telemetry.accepted <= r.received
    && Consistent(l, r, r.received - r.telemetry.accepted)
    && r.telemetry.valid + r.telemetry.invalid <= limit
    && Counted(r.telemetry, r.telemetry.valid + r.telemetry.invalid)
  }

  /** The session's state, wherever the program is: in the loop, or in a checkpoint made from it. */
  ghost predicate Books(s: System, limit: nat) {
    s.offer.Some? ==>
      match s.phase
      case Serving(r) => Agrees(s.offer.value.layout, r, limit)
      case Saving(_, _, next) => next.Serving? ==> Agrees(s.offer.value.layout, next.r, limit)
      case _ => true
  }

  lemma ArriveKeepsBooks(digest: Digest, s: System, wire: Bytes, limit: nat)
    requires CollisionFree(digest) && Books(s, limit) && limit + 1 < U64_LIMIT
    requires LoopEnabled(digest, s, Arrive(wire))
    ensures Books(LoopStep(digest, s, Arrive(wire)), limit + 1)
  {
    var o, r := s.offer.value, s.phase.r;
    DatagramKeepsConsistent(o.layout, o.tag, s.disk, r, wire, r.received - r.telemetry.accepted);
    DatagramKeepsCounted(o.layout, o.tag, s.disk, r, wire, r.telemetry.valid + r.telemetry.invalid);
  }

  lemma GoKeepsBooks(digest: Digest, s: System, limit: nat)
    requires CollisionFree(digest) && Safe(digest, s) && OpenEnabled(digest, s, Go)
    ensures Books(OpenStep(digest, s, Go), limit)
  {
    StartIsConsistent(s.offer.value.layout, Latest(s.disk.part.value), s.phase.bitmap);
  }

  lemma LoopKeepsBooks(digest: Digest, s: System, e: LoopEvent, limit: nat)
    requires CollisionFree(digest) && Books(s, limit) && LoopEnabled(digest, s, e) && limit + 1 < U64_LIMIT
    ensures Books(LoopStep(digest, s, e), limit + 1)
  {
    match e
    case Arrive(wire) => ArriveKeepsBooks(digest, s, wire, limit);
    case _ =>
  }

  lemma OpenKeepsBooks(digest: Digest, s: System, e: OpenEvent, limit: nat)
    requires CollisionFree(digest) && Safe(digest, s) && OpenEnabled(digest, s, e)
    ensures Books(OpenStep(digest, s, e), limit)
  {
    if e == Go { GoKeepsBooks(digest, s, limit); }
  }

  lemma SaveKeepsBooks(digest: Digest, s: System, e: SaveEvent, limit: nat)
    requires CollisionFree(digest) && Safe(digest, s) && Books(s, limit) && SaveEnabled(digest, s, e)
    ensures Books(SaveStep(digest, s, e), limit)
  {
  }

  lemma CloseKeepsBooks(digest: Digest, s: System, e: CloseEvent, limit: nat)
    requires CollisionFree(digest) && Books(s, limit) && CloseEnabled(digest, s, e)
    ensures Books(CloseStep(digest, s, e), limit)
  {
  }

  lemma BooksGrow(s: System, limit: nat)
    requires Books(s, limit)
    ensures Books(s, limit + 1)
  {
  }

  lemma StepKeepsBooks(digest: Digest, s: System, e: Event, limit: nat)
    requires CollisionFree(digest) && Safe(digest, s) && Books(s, limit) && Enabled(digest, s, e)
             && limit + 1 < U64_LIMIT
    ensures Books(Step(digest, s, e), limit + 1)
  {
    match e
    case Open(o) => OpenKeepsBooks(digest, s, o, limit + 1);
    case Save(v) =>
      SaveKeepsBooks(digest, s, v, limit);
      BooksGrow(SaveStep(digest, s, v), limit);
    case Loop(m) => LoopKeepsBooks(digest, s, m, limit);
    case Close(c) =>
      CloseKeepsBooks(digest, s, c, limit);
      BooksGrow(CloseStep(digest, s, c), limit);
    case DeliverComplete => BooksGrow(s, limit);
    case Speak(line) => BooksGrow(Step(digest, s, e), limit);
    case _ =>
  }

  lemma {:induction false} RunKeepsBooks(digest: Digest, s: System, events: seq<Event>, t: System, limit: nat)
    requires CollisionFree(digest) && Safe(digest, s) && Books(s, limit) && Reaches(digest, s, events, t)
    requires limit + |events| < U64_LIMIT
    ensures Safe(digest, t) && Books(t, limit + |events|)
    decreases |events|
  {
    if events != [] {
      StepIsSafe(digest, s, events[0]);
      StepKeepsBooks(digest, s, events[0], limit);
      RunKeepsBooks(digest, Step(digest, s, events[0]), events[1..], t, limit + 1);
    }
  }

  /** What the program computes from the bitmap is what it has counted. */
  lemma AgreesShows(l: Layout, r: Receiver, limit: nat)
    requires Agrees(l, r, limit)
    ensures Fits(r.bitmap, l.chunks) && r.received == Population(r.bitmap) && r.highest == Highest(r.bitmap)
    ensures r.telemetry.accepted <= r.received && r.telemetry.valid == r.telemetry.accepted + r.telemetry.duplicate
  {
    PopulationIsCardinality(r.bitmap);
    HighestIsHighest(r.bitmap);
  }

  /**
    The bookkeeping invariant, in every state of the datagram loop that any run reaches: the count is the
    bitmap's population, no bit lies beyond the object, the highest chunk is the bitmap's, accepted chunks
    and those the session began with make up the count, and valid datagrams are accepted or duplicate.
  */
  lemma EveryStateAgrees(digest: Digest, s: System, events: seq<Event>, t: System)
    requires CollisionFree(digest) && Initial(s) && s.offer.None?
    requires Reaches(digest, s, events, t) && |events| < U64_LIMIT && t.phase.Serving?
    ensures t.offer.Some?
    ensures var l, r := t.offer.value.layout, t.phase.r;
            && Fits(r.bitmap, l.chunks) && r.received == Population(r.bitmap) && r.highest == Highest(r.bitmap)
            && r.telemetry.accepted <= r.received && r.telemetry.valid == r.telemetry.accepted + r.telemetry.duplicate
  {
    RunKeepsBooks(digest, s, events, t, 0);
    AgreesShows(t.offer.value.layout, t.phase.r, |events|);
  }

  /**
    Hence every report any reachable state sends, over any part of the object, is parsed by the sender with
    the receiver's counters, and its holes are enqueued in order as far as there is room.
  */
  lemma EveryReportIsAccepted(digest: Digest, s: System, events: seq<Event>, t: System, drops: Option<nat>, end: nat,
                              q: Queue)
    requires CollisionFree(digest) && Initial(s) && s.offer.None?
    requires Reaches(digest, s, events, t) && |events| < U64_LIMIT && t.phase.Serving?
    requires t.offer.Some? && end <= t.offer.value.layout.chunks && (drops.Some? ==> drops.value < U64_LIMIT)
    ensures var chunks, r := t.offer.value.layout.chunks, t.phase.r;
            var report, ranges := Snapshot(r, drops), Runs(r.bitmap, 0, end, MAX_RANGES_PER_REPORT);
            && ParseFeedbackReport(ReportText(report, ranges), chunks).Ok?
            && ParseFeedbackReport(ReportText(report, ranges), chunks).value.0 == report.(reports := 0)
            && PushParts(q, Split(ParseFeedbackReport(ReportText(report, ranges), chunks).value.1, ','), chunks)
               == (PushAll(q, Listing(ranges)), true)
  {
    RunKeepsBooks(digest, s, events, t, 0);
    ReportIsAccepted(t.offer.value.layout, t.phase.r, |events|, drops, end, q);
  }

  lemma ReportIsAccepted(l: Layout, r: Receiver, limit: nat, drops: Option<nat>, end: nat, q: Queue)
    requires ValidLayout(l) && Agrees(l, r, limit) && limit < U64_LIMIT && end <= l.chunks
    requires drops.Some? ==> drops.value < U64_LIMIT
    ensures var report, ranges := Snapshot(r, drops), Runs(r.bitmap, 0, end, MAX_RANGES_PER_REPORT);
            HonestReport(ReportText(report, ranges), report, ranges, l.chunks)
            && ParseFeedbackReport(ReportText(report, ranges), l.chunks).Ok?
            && ParseFeedbackReport(ReportText(report, ranges), l.chunks).value.0 == report.(reports := 0)
            && PushParts(q, Split(ParseFeedbackReport(ReportText(report, ranges), l.chunks).value.1, ','), l.chunks)
               == (PushAll(q, Listing(ranges)), true)
  {
    var report, ranges := Snapshot(r, drops), Runs(r.bitmap, 0, end, MAX_RANGES_PER_REPORT);
    FullIffAllReceived(r.bitmap, l.chunks);
    FirstRunsAreExact(r.bitmap, end, MAX_RANGES_PER_REPORT);
    HonestPartsArePushed(q, report, ranges, l.chunks);
  }
}
