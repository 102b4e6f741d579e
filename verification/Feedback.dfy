/** The sender's feedback reader: what each line of the control channel does, up to COMPLETE. */
module Feedback {
  import opened Outcomes
  import opened Text
  import opened Receivers
  import opened Reports
  import opened Repairs
  import opened RepairRounds

  /** What the reader shares with the sending loop. */
  datatype Shared = Shared(complete: bool, telemetry: Telemetry, queue: Queue)

  /** An accepted report replaces the telemetry, expires cooldowns and enqueues the ranges. */
  function HandleReport(s: Shared, line: string, chunks: nat, now: int, cooldown: nat): Result<Shared> {
    match ParseFeedbackReport(line, chunks)
    case Err => Err
    case Ok((snapshot, ranges)) =>
      var (queue, ok) := PushParts(Expire(s.queue, now, cooldown), Split(ranges, ','), chunks);
      if ok then Ok(Shared(s.complete, snapshot.(reports := Bump(s.telemetry.reports)), queue)) else Err
  }

  /** One turn of `read_feedback`; CANCEL, ERROR and anything unknown end it with an error. */
  function HandleLine(s: Shared, line: string, chunks: nat, now: int, cooldown: nat): Result<Shared> {
    if line == "COMPLETE" then Ok(s.(complete := true))
    else if "M " <= line then HandleReport(s, line, chunks, now, cooldown)
    else if line == "PONG" then Ok(s)
    else Err
  }

  /** The whole loop, each line at its time; running out of lines is an error. */
  function ReadFeedback(s: Shared, lines: seq<(string, int)>, chunks: nat, cooldown: nat): Result<Shared>
    decreases |lines|
  {
    if lines == [] then Err
    else
      match HandleLine(s, lines[0].0, chunks, lines[0].1, cooldown)
      case Err => Err
      case Ok(next) => if lines[0].0 == "COMPLETE" then Ok(next) else ReadFeedback(next, lines[1..], chunks, cooldown)
  }

  /** A line that does not end a successful reading is a report or an answer, and the rest is read successfully. */
  lemma LineGoesOn(s: Shared, lines: seq<(string, int)>, chunks: nat, cooldown: nat) returns (next: Shared)
    requires ReadFeedback(s, lines, chunks, cooldown).Ok?
    ensures lines != []
    ensures if lines[0].0 == "COMPLETE" then ReadFeedback(s, lines, chunks, cooldown).value.complete
            else (lines[0].0 == "PONG" || "M " <= lines[0].0)
                 && ReadFeedback(next, lines[1..], chunks, cooldown) == ReadFeedback(s, lines, chunks, cooldown)
  {
    next := HandleLine(s, lines[0].0, chunks, lines[0].1, cooldown).value;
  }

  /** The flag is only ever set by a COMPLETE line, with nothing but reports and answers before it. */
  lemma {:induction false} CompleteNeedsItsLine(s: Shared, lines: seq<(string, int)>, chunks: nat, cooldown: nat)
    returns (n: nat)
    requires ReadFeedback(s, lines, chunks, cooldown).Ok?
    ensures n < |lines| && lines[n].0 == "COMPLETE" && ReadFeedback(s, lines, chunks, cooldown).value.complete
    ensures forall i :: 0 <= i < n ==> lines[i].0 == "PONG" || "M " <= lines[i].0
    decreases |lines|
  {
    n := 0;
    var next := LineGoesOn(s, lines, chunks, cooldown);
    if lines[0].0 != "COMPLETE" {
      var m := CompleteNeedsItsLine(next, lines[1..], chunks, cooldown);
      n := m + 1;
      assert forall i :: 1 <= i < n ==> lines[i] == lines[1..][i - 1];
    }
  }

  lemma HandleLineKeepsQueue(s: Shared, line: string, chunks: nat, now: int, cooldown: nat)
    requires QueueOk(s.queue) && HandleLine(s, line, chunks, now, cooldown).Ok?
    ensures QueueOk(HandleLine(s, line, chunks, now, cooldown).value.queue)
  {
    ExpireKeepsOk(s.queue, now, cooldown);
    match ParseFeedbackReport(line, chunks)
    case Err =>
    case Ok((_, ranges)) => ReportKeepsOk(Expire(s.queue, now, cooldown), Split(ranges, ','), chunks);
  }

  // ----- honest receivers -----

  ghost predicate HonestReport(line: string, t: Telemetry, ranges: seq<Range>, chunks: nat) {
    && Small(t) && Plausible(t, chunks) && line == ReportText(t, ranges)
    && forall i :: 0 <= i < |ranges| ==> ranges[i].0 <= ranges[i].1 < chunks
  }

  ghost predicate Honest(line: string, chunks: nat) {
    line == "PONG" || exists t, ranges :: HonestReport(line, t, ranges, chunks)
  }

  lemma ReportIsNoOtherLine(t: Telemetry, ranges: seq<Range>)
    ensures "M " <= ReportText(t, ranges) && ReportText(t, ranges) != "COMPLETE" && ReportText(t, ranges) != "PONG"
  {
    ReportBegins(t, ranges);
    assert ReportText(t, ranges)[0] == 'M' && "COMPLETE"[0] == 'C' && "PONG"[0] == 'P';
  }

  /** The parts the sender enqueues are the ranges the receiver found. */
  lemma HonestPartsArePushed(q: Queue, t: Telemetry, ranges: seq<Range>, chunks: nat)
    requires HonestReport(ReportText(t, ranges), t, ranges, chunks) && chunks < U64_LIMIT
    ensures ParseFeedbackReport(ReportText(t, ranges), chunks).Ok?
    ensures var (u, text) := ParseFeedbackReport(ReportText(t, ranges), chunks).value;
            u == t.(reports := 0) && PushParts(q, Split(text, ','), chunks) == (PushAll(q, Listing(ranges)), true)
  {
    FieldsAreSolid(t, ranges);
    TokensOfJoin(ReportFields(t, ranges));
    FieldsReadBack(t, ranges, chunks);
    RangesTextIsSolid(ranges);
    if ranges == [] {
      assert Split("", ',') == [""];
      assert PushParts(q, [""], chunks) == (q, true);
    } else {
      RangeTextsAreSolid(ranges);
      SplitOfJoin(RangeTexts(ranges), ',');
      ReportIsPushAll(q, ranges, chunks);
    }
  }

  /** An honest report is never refused: its holes are enqueued in order and its counters taken over. */
  lemma HonestReportIsHandled(s: Shared, t: Telemetry, ranges: seq<Range>, chunks: nat, now: int, cooldown: nat)
    requires HonestReport(ReportText(t, ranges), t, ranges, chunks) && chunks < U64_LIMIT
    ensures HandleLine(s, ReportText(t, ranges), chunks, now, cooldown)
         == Ok(Shared(s.complete, t.(reports := Bump(s.telemetry.reports)),
                      PushAll(Expire(s.queue, now, cooldown), Listing(ranges))))
  {
    ReportIsNoOtherLine(t, ranges);
    HonestPartsArePushed(Expire(s.queue, now, cooldown), t, ranges, chunks);
  }

  /** Every line but the last is honest. */
  ghost predicate HonestFront(lines: seq<(string, int)>, chunks: nat) {
    forall i :: 0 <= i < |lines| - 1 ==> Honest(lines[i].0, chunks)
  }

  lemma HonestRest(lines: seq<(string, int)>, chunks: nat)
    requires HonestFront(lines, chunks) && |lines| > 1
    ensures Honest(lines[0].0, chunks) && HonestFront(lines[1..], chunks)
            && lines[1..][|lines| - 2] == lines[|lines| - 1]
  {
  }

  /** Any number of honest reports and answers, then COMPLETE: the reader finishes, the queue is sound. */
  lemma {:induction false} HonestFeedbackCompletes(s: Shared, lines: seq<(string, int)>, chunks: nat, cooldown: nat)
    requires QueueOk(s.queue) && chunks < U64_LIMIT && lines != [] && lines[|lines| - 1].0 == "COMPLETE"
    requires HonestFront(lines, chunks)
    ensures ReadFeedback(s, lines, chunks, cooldown).Ok?
    ensures ReadFeedback(s, lines, chunks, cooldown).value.complete
            && QueueOk(ReadFeedback(s, lines, chunks, cooldown).value.queue)
    decreases |lines|
  {
    if |lines| > 1 {
      HonestRest(lines, chunks);
      var next := HonestLineIsHandled(s, lines[0].0, chunks, lines[0].1, cooldown);
      HonestFeedbackCompletes(next, lines[1..], chunks, cooldown);
    }
  }

  lemma HonestLineIsHandled(s: Shared, line: string, chunks: nat, now: int, cooldown: nat) returns (next: Shared)
    requires QueueOk(s.queue) && chunks < U64_LIMIT && Honest(line, chunks)
    ensures HandleLine(s, line, chunks, now, cooldown) == Ok(next) && line != "COMPLETE" && QueueOk(next.queue)
  {
    if line == "PONG" {
      next := s;
    } else {
      var t, ranges :| HonestReport(line, t, ranges, chunks);
      ReportIsNoOtherLine(t, ranges);
      HonestReportIsHandled(s, t, ranges, chunks, now, cooldown);
      next := HandleLine(s, line, chunks, now, cooldown).value;
      HandleLineKeepsQueue(s, line, chunks, now, cooldown);
    }
  }

  // ----- the reader as it runs -----

  class FeedbackReader {
    const pending: RepairQueue
    const chunks: nat
    var complete: bool
    var telemetry: Telemetry

    function Value(): Shared
      reads this, pending
    {
      Shared(complete, telemetry, Queue(pending.queue, pending.queued, pending.lastSent))
    }

    constructor (pending: RepairQueue, chunks: nat)
      ensures this.pending == pending && this.chunks == chunks && !complete
      ensures telemetry == Telemetry(0, 0, 0, 0, 0, 0, 0, None, 0)
    {
      this.pending := pending;
      this.chunks := chunks;
      complete, telemetry := false, Telemetry(0, 0, 0, 0, 0, 0, 0, None, 0);
    }

    method Handle(line: string, now: int) returns (ok: bool)
      requires pending.Valid() && pending.clock <= now
      modifies this, pending
      ensures pending.Valid()
      ensures ok == HandleLine(old(Value()), line, chunks, now, pending.cooldown).Ok?
      ensures ok ==> Value() == HandleLine(old(Value()), line, chunks, now, pending.cooldown).value
    {
      if line == "COMPLETE" {
        complete := true;
        return true;
      }
      if "M " <= line {
        var report := ParseFeedbackReport(line, chunks);
        if report.Err? {
          return false;
        }
        var (snapshot, ranges) := report.value;
        telemetry := snapshot.(reports := Bump(telemetry.reports));
        pending.RetainRecent(now);
        ok := pending.EnqueueRepairs(ranges, chunks);
        return ok;
      }
      return line == "PONG";
    }
  }
}
