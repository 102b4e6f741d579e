/** The sender's rate controller, over real numbers and times in nanoseconds. */
module Rates {
  import opened Outcomes
  import opened Text
  import opened Receivers

  const MAX_RATE_DECISIONS: nat := 4_096
  const MIN_DECISION_INTERVAL: nat := 200_000_000

  datatype Verdict = Increase | Decrease | Hold

  datatype Reason = Stalled | Wasteful | Followed | Behind | Unclear

  datatype Decision = Decision(elapsed: nat, verdict: Verdict, oldRate: real, newRate: real, reason: Reason)

  datatype Controller = Controller(
    fixed: bool, rate: real, minimum: real, maximum: real, interval: nat, started: nat, last: nat, seen: Telemetry,
    decisions: seq<Decision>, count: nat, increased: nat, decreased: nat, held: nat)

  datatype Observation = Observation(telemetry: Telemetry, now: nat)

  const NOTHING_SEEN: Telemetry := Telemetry(0, 0, 0, 0, 0, 0, 0, None, 0)

  function Larger(a: real, b: real): real { if a < b then b else a }

  function Clamp(x: real, low: real, high: real): real {
    if x < low then low else if x > high then high else x
  }

  function Less(a: nat, b: nat): nat { if a > b then a - b else 0 }

  /** `RateController::new` */
  function Fresh(fixedRate: Option<real>, minimum: real, maximum: real, reportInterval: nat, now: nat): Controller {
    var interval := if 4 * reportInterval > MIN_DECISION_INTERVAL then 4 * reportInterval else MIN_DECISION_INTERVAL;
    match fixedRate
    case Some(r) => Controller(true, r, r, r, interval, now, now, NOTHING_SEEN, [], 0, 0, 0, 0)
    case None => Controller(false, minimum, minimum, maximum, interval, now, now, NOTHING_SEEN, [], 0, 0, 0, 0)
  }

  // ----- one decision -----

  function Accepted(c: Controller, t: Telemetry): nat { Less(t.accepted, c.seen.accepted) }

  function Valid(c: Controller, t: Telemetry): nat { Less(t.valid, c.seen.valid) }

  function Drops(c: Controller, t: Telemetry): nat {
    match (t.drops, c.seen.drops)
    case (Some(current), Some(previous)) => Less(current, previous)
    case (Some(current), None) => current
    case _ => 0
  }

  /** Megabits per second that arrived new since the last decision. */
  function Useful(c: Controller, t: Telemetry, now: nat, payload: nat): real
    requires now > c.last
  {
    var seconds := (now - c.last) as real / 1_000_000_000.0;
    (Accepted(c, t) * payload * 8) as real / seconds / 1_000_000.0
  }

  function Waste(c: Controller, t: Telemetry): real {
    var valid := Valid(c, t);
    if valid == 0 then 0.0 else (Less(valid, Accepted(c, t)) + Drops(c, t)) as real / valid as real
  }

  /** A decision is due once the interval has passed; a fixed controller never decides. */
  predicate Due(c: Controller, now: nat) {
    !c.fixed && Less(now, c.last) >= c.interval
  }

  function Judge(c: Controller, t: Telemetry, now: nat, payload: nat): Reason
    requires now > c.last
  {
    if Accepted(c, t) == 0 then Stalled
    else if Waste(c, t) > 0.03 || Drops(c, t) > 0 then Wasteful
    else if Useful(c, t, now, payload) >= c.rate * 0.8 then Followed
    else if Useful(c, t, now, payload) < c.rate * 0.5 then Behind
    else Unclear
  }

  function Candidate(rate: real, reason: Reason): real {
    match reason
    case Stalled => rate * 0.7
    case Wasteful => rate * 0.7
    case Followed => Larger(rate * 1.25, rate + 1.0)
    case Behind => rate * 0.85
    case Unclear => rate
  }

  function VerdictOf(before: real, after: real): Verdict {
    if after > before then Increase else if after < before then Decrease else Hold
  }

  /** `observe` */
  function Observed(c: Controller, o: Observation, payload: nat): Controller
    requires c.interval > 0
  {
    if !Due(c, o.now) then c
    else
      var reason := Judge(c, o.telemetry, o.now, payload);
      var rate := Clamp(Candidate(c.rate, reason), c.minimum, c.maximum);
      var verdict := VerdictOf(c.rate, rate);
      c.(rate := rate, last := o.now, seen := o.telemetry, count := Bump(c.count),
         increased := if verdict == Increase then Bump(c.increased) else c.increased,
         decreased := if verdict == Decrease then Bump(c.decreased) else c.decreased,
         held := if verdict == Hold then Bump(c.held) else c.held,
         decisions := if |c.decisions| < MAX_RATE_DECISIONS
                      then c.decisions + [Decision(Less(o.now, c.started), verdict, c.rate, rate, reason)]
                      else c.decisions)
  }

  /** After a whole stream of reports, the oldest first. */
  function After(c: Controller, stream: seq<Observation>, payload: nat): (end: Controller)
    requires c.interval > 0
    ensures end.interval == c.interval && end.fixed == c.fixed && end.minimum == c.minimum && end.maximum == c.maximum
  {
    if stream == [] then c else Observed(After(c, stream[..|stream| - 1], payload), stream[|stream| - 1], payload)
  }

  // ----- what every stream keeps -----

  predicate Bounded(c: Controller) {
    c.interval > 0 && 0.0 <= c.minimum <= c.rate <= c.maximum
  }

  /** Every decision is counted once, and the log holds the first 4,096 of them. */
  predicate Counted(c: Controller, limit: nat) {
    && c.count == c.increased + c.decreased + c.held <= limit
    && |c.decisions| == if c.count < MAX_RATE_DECISIONS then c.count else MAX_RATE_DECISIONS
  }

  /** Each logged decision starts from the rate the one before ended with, and its verdict compares the two. */
  predicate Chained(c: Controller) {
    && (forall i :: 0 <= i < |c.decisions| ==>
       c.decisions[i].verdict == VerdictOf(c.decisions[i].oldRate, c.decisions[i].newRate))
    && (forall i :: 1 <= i < |c.decisions| ==> c.decisions[i - 1].newRate == c.decisions[i].oldRate)
    && (c.count == |c.decisions| > 0 ==> c.decisions[|c.decisions| - 1].newRate == c.rate)
  }

  lemma ObserveKeepsBounded(c: Controller, o: Observation, payload: nat)
    requires Bounded(c)
    ensures Bounded(Observed(c, o, payload))
  {
  }

  lemma ObserveKeepsCounted(c: Controller, o: Observation, payload: nat, limit: nat)
    requires c.interval > 0 && Counted(c, limit) && limit + 1 < U64_LIMIT
    ensures Counted(Observed(c, o, payload), limit + 1)
  {
  }

  lemma ObserveKeepsChained(c: Controller, o: Observation, payload: nat, limit: nat)
    requires c.interval > 0 && Counted(c, limit) && limit + 1 < U64_LIMIT && Chained(c)
    ensures Chained(Observed(c, o, payload))
  {
  }

  /** For every stream of reports the rate stays in bounds, the counters add up and the log is a chain. */
  lemma {:induction false} StreamInvariant(c: Controller, stream: seq<Observation>, payload: nat)
    requires Bounded(c) && c.decisions == [] && c.count == c.increased == c.decreased == c.held == 0
    requires |stream| < U64_LIMIT
    ensures var end := After(c, stream, payload);
            Bounded(end) && Counted(end, |stream|) && Chained(end)
  {
    if stream != [] {
      var front := stream[..|stream| - 1];
      StreamInvariant(c, front, payload);
      var before := After(c, front, payload);
      ObserveKeepsBounded(before, stream[|stream| - 1], payload);
      ObserveKeepsCounted(before, stream[|stream| - 1], payload, |front|);
      ObserveKeepsChained(before, stream[|stream| - 1], payload, |front|);
    }
  }

  /** A fixed controller is the same after any stream. */
  lemma {:induction false} FixedNeverChanges(rate: real, low: real, high: real, report: nat, now: nat,
                                             stream: seq<Observation>, payload: nat)
    ensures After(Fresh(Some(rate), low, high, report, now), stream, payload)
            == Fresh(Some(rate), low, high, report, now)
  {
    if stream != [] {
      FixedNeverChanges(rate, low, high, report, now, stream[..|stream| - 1], payload);
    }
  }

  /** The receiver kept up: something new arrived, nothing was dropped, little wasted, most of the load was useful. */
  ghost predicate KeptUp(c: Controller, o: Observation, payload: nat)
    requires o.now > c.last
  {
    && Accepted(c, o.telemetry) > 0 && Drops(c, o.telemetry) == 0 && Waste(c, o.telemetry) <= 0.03
    && Useful(c, o.telemetry, o.now, payload) >= c.rate * 0.8
  }

  /** Loss or waste at the receiver, or no progress at all. */
  ghost predicate Trouble(c: Controller, t: Telemetry) {
    Accepted(c, t) == 0 || Drops(c, t) > 0 || Waste(c, t) > 0.03
  }

  /**
    Below the maximum, a due decision raises the rate if and only if the receiver kept up, by a quarter or
    one megabit.
  */
  lemma IncreaseIffKeptUp(c: Controller, o: Observation, payload: nat)
    requires Bounded(c) && Due(c, o.now) && c.rate < c.maximum
    ensures Observed(c, o, payload).rate > c.rate <==> KeptUp(c, o, payload)
    ensures KeptUp(c, o, payload) ==>
            Observed(c, o, payload).rate == Clamp(Larger(c.rate * 1.25, c.rate + 1.0), c.minimum, c.maximum)
  {
  }

  /** Above the minimum, it lowers the rate if and only if there was trouble or under half the load was useful. */
  lemma DecreaseIffTrouble(c: Controller, o: Observation, payload: nat)
    requires Bounded(c) && Due(c, o.now) && c.rate > c.minimum
    ensures Observed(c, o, payload).rate < c.rate <==>
            Trouble(c, o.telemetry) || Useful(c, o.telemetry, o.now, payload) < c.rate * 0.5
    ensures Trouble(c, o.telemetry) ==> Observed(c, o, payload).rate == Larger(c.minimum, c.rate * 0.7)
    ensures !Trouble(c, o.telemetry) && Useful(c, o.telemetry, o.now, payload) < c.rate * 0.5 ==>
            Observed(c, o, payload).rate == Larger(c.minimum, c.rate * 0.85)
  {
  }

  // ----- decisions, from the counters -----

  /** The counter of dropped datagrams has grown, or is there for the first time and not zero. */
  predicate DropsGrew(before: Option<nat>, after: Option<nat>) {
    after.Some? && after.value > (if before.Some? then before.value else 0)
  }

  /** More than three of a hundred datagrams that were valid brought nothing new. */
  predicate Wasted(accepted: int, valid: int) {
    100 * (valid - accepted) > 3 * valid
  }

  /** A thousand times the bits that arrived new: with nanoseconds, what megabits per second are compared by. */
  function Arrived(accepted: int, payload: nat): real {
    (accepted * payload * 8) as real * 1000.0
  }

  /** What counters that gained so much in so many nanoseconds say about a rate; the first that applies. */
  function ReasonFor(rate: real, accepted: int, valid: int, dropped: bool, elapsed: nat, payload: nat): Reason {
    if accepted <= 0 then Stalled
    else if dropped || Wasted(accepted, valid) then Wasteful
    else if Arrived(accepted, payload) >= 0.8 * rate * elapsed as real then Followed
    else if Arrived(accepted, payload) < 0.5 * rate * elapsed as real then Behind
    else Unclear
  }

  /** A quarter more, and at least a megabit, up to the maximum. */
  function Raised(rate: real, maximum: real): real {
    var more := Larger(1.25 * rate, rate + 1.0);
    if more > maximum then maximum else more
  }

  /**
    The rate that follows for each reason, within the limits: seven tenths after a stall, drops or waste; a quarter or
    a megabit more if at least four fifths of the load arrived; 85 hundredths if less than half of it did.
  */
  function RateFor(reason: Reason, rate: real, minimum: real, maximum: real): real {
    match reason
    case Stalled => Larger(minimum, 0.7 * rate)
    case Wasteful => Larger(minimum, 0.7 * rate)
    case Followed => Raised(rate, maximum)
    case Behind => Larger(minimum, 0.85 * rate)
    case Unclear => rate
  }

  lemma ProductDecides(x: real, y: real, e: real, q: real)
    requires e > 0.0 && q * e == x
    ensures q >= y <==> x >= y * e
  {
    if q >= y { ShareOf(e, y, q); } else { StrictShareOf(e, q, y); }
  }

  lemma Quotient(x: real, y: real, e: real)
    requires e > 0.0
    ensures x / e >= y <==> x >= y * e
  {
    assert (x / e) * e == x;
    ProductDecides(x, y, e, x / e);
  }

  lemma ShareOf(e: real, x: real, y: real)
    requires e >= 0.0 && x <= y
    ensures x * e <= y * e
  {
  }

  lemma StrictShareOf(e: real, x: real, y: real)
    requires e > 0.0 && x < y
    ensures x * e < y * e
  {
  }

  lemma MegabitsPerSecond(bits: real, e: real)
    requires e > 0.0
    ensures bits / (e / 1_000_000_000.0) / 1_000_000.0 == bits * 1000.0 / e
  {
    var seconds := e / 1_000_000_000.0;
    var rate := bits / seconds;
    assert rate * seconds == bits;
    assert rate * e == bits * 1_000_000_000.0;
    assert rate / 1_000_000.0 * e == bits * 1000.0;
    QuotientUnique(bits * 1000.0, e, rate / 1_000_000.0);
  }

  lemma QuotientUnique(x: real, e: real, q: real)
    requires e > 0.0 && q * e == x
    ensures x / e == q
  {
    assert (x / e) * e == x;
    if x / e < q { StrictShareOf(e, x / e, q); }
    if x / e > q { StrictShareOf(e, q, x / e); }
  }

  lemma UsefulComparedWith(c: Controller, t: Telemetry, now: nat, payload: nat, y: real)
    requires now > c.last
    ensures var arrived, e := Arrived(Accepted(c, t), payload), (now - c.last) as real;
            && (Useful(c, t, now, payload) >= y <==> arrived >= y * e)
            && (Useful(c, t, now, payload) < y <==> arrived < y * e)
  {
    var e := (now - c.last) as real;
    MegabitsPerSecond((Accepted(c, t) * payload * 8) as real, e);
    Quotient(Arrived(Accepted(c, t), payload), y, e);
  }

  lemma WasteIsWasted(c: Controller, t: Telemetry)
    requires Accepted(c, t) > 0 && Drops(c, t) == 0
    ensures Waste(c, t) > 0.03 <==> Wasted(t.accepted - c.seen.accepted, t.valid - c.seen.valid)
  {
    var valid, accepted := Valid(c, t), Accepted(c, t);
    if valid > 0 {
      AboveShare(Less(valid, accepted), valid);
    }
  }

  lemma AboveShare(x: nat, valid: nat)
    requires valid > 0
    ensures x as real / valid as real > 0.03 <==> 100 * x > 3 * valid
  {
    var q, e := x as real / valid as real, valid as real;
    assert q * e == x as real;
    if q > 0.03 { StrictShareOf(e, 0.03, q); } else { ShareOf(e, q, 0.03); }
  }

  lemma DropsGrewIff(c: Controller, t: Telemetry)
    ensures Drops(c, t) > 0 <==> DropsGrew(c.seen.drops, t.drops)
  {
  }

  lemma JudgeIs(c: Controller, t: Telemetry, now: nat, payload: nat)
    requires now > c.last
    ensures Judge(c, t, now, payload)
         == ReasonFor(c.rate, t.accepted - c.seen.accepted, t.valid - c.seen.valid, DropsGrew(c.seen.drops, t.drops),
                      now - c.last, payload)
  {
    DropsGrewIff(c, t);
    if Accepted(c, t) > 0 && Drops(c, t) == 0 { WasteIsWasted(c, t); }
    UsefulComparedWith(c, t, now, payload, c.rate * 0.8);
    UsefulComparedWith(c, t, now, payload, c.rate * 0.5);
  }

  lemma LimitedCandidate(reason: Reason, rate: real, minimum: real, maximum: real)
    requires 0.0 <= minimum <= rate <= maximum
    ensures Clamp(Candidate(rate, reason), minimum, maximum) == RateFor(reason, rate, minimum, maximum)
  {
  }

  /** One due decision, from the counters it last saw. */
  lemma DecisionIs(c: Controller, o: Observation, payload: nat)
    requires Bounded(c) && !c.fixed && o.now >= c.last + c.interval
    ensures var t := o.telemetry;
            var reason := ReasonFor(c.rate, t.accepted - c.seen.accepted, t.valid - c.seen.valid,
                                    DropsGrew(c.seen.drops, t.drops), o.now - c.last, payload);
            Observed(c, o, payload).rate == RateFor(reason, c.rate, c.minimum, c.maximum)
  {
    var reason := Judge(c, o.telemetry, o.now, payload);
    assert Observed(c, o, payload).rate == Clamp(Candidate(c.rate, reason), c.minimum, c.maximum);
    JudgeIs(c, o.telemetry, o.now, payload);
    LimitedCandidate(reason, c.rate, c.minimum, c.maximum);
  }

  lemma {:induction false} EarlyReportsAreIgnored(c: Controller, reports: seq<Observation>, payload: nat)
    requires c.interval > 0 && forall i :: 0 <= i < |reports| ==> reports[i].now < c.last + c.interval
    ensures After(c, reports, payload) == c
  {
    if reports != [] { EarlyReportsAreIgnored(c, reports[..|reports| - 1], payload); }
  }

  /**
    Of two reports that are both due, with any number between them that are not, the second decides on what the
    counters gained since the first, over the time between the two.
  */
  lemma {:induction false} NextRateIs(c: Controller, o: Observation, between: seq<Observation>, p: Observation,
                                      payload: nat)
    requires Bounded(c) && !c.fixed && o.now >= c.last + c.interval && p.now >= o.now + c.interval
    requires forall i :: 0 <= i < |between| ==> between[i].now < o.now + c.interval
    ensures var first := Observed(c, o, payload);
            var second := Observed(After(first, between, payload), p, payload);
            var reason := ReasonFor(first.rate, p.telemetry.accepted - o.telemetry.accepted,
                                    p.telemetry.valid - o.telemetry.valid,
                                    DropsGrew(o.telemetry.drops, p.telemetry.drops), p.now - o.now, payload);
            && second.rate == RateFor(reason, first.rate, c.minimum, c.maximum)
            && (p.telemetry.accepted == o.telemetry.accepted ==> second.rate == Larger(c.minimum, 0.7 * first.rate))
  {
    var first := Observed(c, o, payload);
    ObserveKeepsBounded(c, o, payload);
    EarlyReportsAreIgnored(first, between, payload);
    DecisionIs(first, p, payload);
  }

  /** The first decision of a new controller is due after 200 milliseconds and four report intervals, not before. */
  lemma FirstDecisionIff(minimum: real, maximum: real, report: nat, now: nat, o: Observation, payload: nat)
    ensures var c := Fresh(None, minimum, maximum, report, now);
            && c.rate == c.minimum == minimum && c.maximum == maximum
            && (Observed(c, o, payload).count == 1 <==> o.now >= now + 200_000_000 && o.now >= now + 4 * report)
            && (Observed(c, o, payload).count == 0 ==> Observed(c, o, payload) == c)
  {
  }

  /** A due decision is logged, while there is room, with its time, both rates, how they compare and why. */
  lemma DecisionIsLogged(c: Controller, o: Observation, payload: nat)
    requires Bounded(c) && !c.fixed && o.now >= c.last + c.interval && o.now >= c.started
    ensures var d := Observed(c, o, payload);
            if |c.decisions| >= 4_096 then d.decisions == c.decisions
            else
              && |d.decisions| == |c.decisions| + 1 && c.decisions <= d.decisions
              && var entry := d.decisions[|c.decisions|];
                 && entry.elapsed == o.now - c.started && entry.oldRate == c.rate && entry.newRate == d.rate
                 && (entry.verdict == Increase <==> d.rate > c.rate) && (entry.verdict == Decrease <==> d.rate < c.rate)
                 && entry.reason == ReasonFor(c.rate, o.telemetry.accepted - c.seen.accepted,
                      o.telemetry.valid - c.seen.valid, DropsGrew(c.seen.drops, o.telemetry.drops), o.now - c.last,
                      payload)
  {
    JudgeIs(c, o.telemetry, o.now, payload);
  }

  ghost function One(b: bool): nat { if b then 1 else 0 }

  /** It is counted once, as what it was, and becomes what the next one is compared with. */
  lemma DecisionIsCounted(c: Controller, o: Observation, payload: nat)
    requires Bounded(c) && !c.fixed && o.now >= c.last + c.interval && c.count + 1 < U64_LIMIT
    requires c.increased + 1 < U64_LIMIT && c.decreased + 1 < U64_LIMIT && c.held + 1 < U64_LIMIT
    ensures var d := Observed(c, o, payload);
            && d.count == c.count + 1 && d.increased == c.increased + One(d.rate > c.rate)
            && d.decreased == c.decreased + One(d.rate < c.rate) && d.held == c.held + One(d.rate == c.rate)
            && d.last == o.now && d.seen == o.telemetry
            && d.started == c.started && d.interval == c.interval && d.minimum == c.minimum && d.maximum == c.maximum
  {
  }

  // ----- stalls and recovery -----

  /** Every report of the stream is as described when it comes. */
  ghost predicate Throughout(c: Controller, stream: seq<Observation>, payload: nat,
                             described: (Controller, Observation) -> bool)
    requires c.interval > 0
  {
    forall i :: 0 <= i < |stream| ==> described(After(c, stream[..i], payload), stream[i])
  }

  lemma ThroughoutFront(c: Controller, stream: seq<Observation>, payload: nat,
                        described: (Controller, Observation) -> bool)
    requires c.interval > 0 && stream != [] && Throughout(c, stream, payload, described)
    ensures Throughout(c, stream[..|stream| - 1], payload, described)
    ensures described(After(c, stream[..|stream| - 1], payload), stream[|stream| - 1])
  {
    var front := stream[..|stream| - 1];
    forall i | 0 <= i < |front| ensures described(After(c, front[..i], payload), front[i]) {
      assert front[..i] == stream[..i] && front[i] == stream[i];
    }
  }

  /** A due report that is judged in this way. */
  predicate Judged(c: Controller, o: Observation, payload: nat, reason: Reason) {
    c.interval > 0 && Due(c, o.now) && Judge(c, o.telemetry, o.now, payload) == reason
  }

  /** Every report is due and judged the same way. */
  ghost predicate Steady(c: Controller, stream: seq<Observation>, payload: nat, reason: Reason)
    requires c.interval > 0
  {
    Throughout(c, stream, payload, (d, o) => Judged(d, o, payload, reason))
  }

  /** A rate after `k` cuts to that share of it. */
  function Decayed(share: real, rate: real, k: nat): real {
    if k == 0 then rate else share * Decayed(share, rate, k - 1)
  }

  function Power(share: real, k: nat): real {
    if k == 0 then 1.0 else share * Power(share, k - 1)
  }

  lemma {:induction false} DecayedIsPower(share: real, rate: real, k: nat)
    ensures Decayed(share, rate, k) == Power(share, k) * rate
  {
    if k > 0 {
      DecayedIsPower(share, rate, k - 1);
      ProductRegroups(share, Power(share, k - 1), rate);
    }
  }

  lemma ProductRegroups(a: real, b: real, c: real)
    ensures a * (b * c) == (a * b) * c
  {
  }

  lemma {:induction false} DecayedBelow(share: real, rate: real, k: nat)
    requires 0.0 <= share <= 1.0 && rate >= 0.0
    ensures 0.0 <= Decayed(share, rate, k) <= rate
  {
    if k > 0 {
      var x := Decayed(share, rate, k - 1);
      DecayedBelow(share, rate, k - 1);
      ShareBelow(share, x);
      assert Decayed(share, rate, k) == share * x;
    }
  }

  lemma ShareBelow(share: real, x: real)
    requires 0.0 <= share <= 1.0 && x >= 0.0
    ensures 0.0 <= share * x <= x
  {
  }

  /** `k` stalled decisions leave exactly the larger of the minimum and 0.7^k of the rate. */
  lemma {:induction false} StallsDecayExactly(c: Controller, stream: seq<Observation>, payload: nat)
    requires Bounded(c) && Steady(c, stream, payload, Stalled)
    ensures After(c, stream, payload).rate == Larger(c.minimum, Decayed(0.7, c.rate, |stream|))
  {
    if stream != [] {
      var front := stream[..|stream| - 1];
      ThroughoutFront(c, stream, payload, (d, o) => Judged(d, o, payload, Stalled));
      StallsDecayExactly(c, front, payload);
      DecayedBelow(0.7, c.rate, |stream|);
      var before := After(c, front, payload);
      assert After(c, stream, payload).rate == Clamp(before.rate * 0.7, c.minimum, c.maximum);
    }
  }

  /** Each followed decision gains at least one megabit, so the maximum is reached within ceil(max - rate) of them. */
  lemma {:induction false} FollowedLoadReachesMaximum(c: Controller, stream: seq<Observation>, payload: nat)
    requires Bounded(c) && Steady(c, stream, payload, Followed)
    ensures Clamp(c.rate + |stream| as real, c.minimum, c.maximum) <= After(c, stream, payload).rate <= c.maximum
    ensures |stream| as real >= c.maximum - c.rate ==> After(c, stream, payload).rate == c.maximum
  {
    if stream != [] {
      var front := stream[..|stream| - 1];
      ThroughoutFront(c, stream, payload, (d, o) => Judged(d, o, payload, Followed));
      FollowedLoadReachesMaximum(c, front, payload);
      var before := After(c, front, payload).rate;
      assert After(c, stream, payload).rate == Clamp(Larger(before * 1.25, before + 1.0), c.minimum, c.maximum);
    }
  }

  // ----- convergence -----

  /** Where a rate that began at `start` is on its way into (bottom, top], after `n` decisions. */
  predicate Approaching(start: real, rate: real, bottom: real, top: real, share: real, n: nat) {
    || bottom < rate <= top
    || start + n as real <= rate <= bottom
    || top < rate <= Decayed(share, start, n)
  }

  /** A decision that climbs from below, stays in the range from within, and cuts to a share from above. */
  ghost predicate Steers(before: real, after: real, bottom: real, top: real, share: real) {
    && (before <= bottom ==> before + 1.0 <= after <= top || bottom < after <= top)
    && (bottom < before <= top ==> bottom < after <= top)
    && (top < before ==> bottom < after <= share * before || bottom < after <= top)
  }

  lemma ApproachingStep(start: real, before: real, after: real, bottom: real, top: real, share: real, n: nat)
    requires 0.0 <= share && Approaching(start, before, bottom, top, share, n)
             && Steers(before, after, bottom, top, share)
    ensures Approaching(start, after, bottom, top, share, n + 1)
  {
    if top < before {
      ShareMonotone(share, before, Decayed(share, start, n));
    }
  }

  lemma ShareMonotone(share: real, x: real, y: real)
    requires 0.0 <= share && x <= y
    ensures share * x <= share * y
  {
  }

  /** Reports that make every due decision steer the rate. */
  ghost predicate SteersAlways(payload: nat, minimum: real, maximum: real, bottom: real, top: real, share: real,
                               described: (Controller, Observation) -> bool)
  {
    forall c: Controller, o: Observation :: SteersOnce(c, o, payload, minimum, maximum, bottom, top, share, described)
  }

  ghost predicate SteersOnce(c: Controller, o: Observation, payload: nat, minimum: real, maximum: real,
                             bottom: real, top: real, share: real, described: (Controller, Observation) -> bool)
  {
    Bounded(c) && c.minimum == minimum && c.maximum == maximum && described(c, o) ==>
      Steers(c.rate, Observed(c, o, payload).rate, bottom, top, share)
  }

  lemma {:induction false} RateApproaches(c: Controller, stream: seq<Observation>, payload: nat, bottom: real,
                                          top: real, share: real, described: (Controller, Observation) -> bool)
    requires Bounded(c) && 0.0 <= share && Throughout(c, stream, payload, described)
    requires SteersAlways(payload, c.minimum, c.maximum, bottom, top, share, described)
    requires Approaching(c.rate, c.rate, bottom, top, share, 0)
    ensures Bounded(After(c, stream, payload))
    ensures Approaching(c.rate, After(c, stream, payload).rate, bottom, top, share, |stream|)
  {
    if stream != [] {
      var front, last := stream[..|stream| - 1], stream[|stream| - 1];
      ThroughoutFront(c, stream, payload, described);
      RateApproaches(c, front, payload, bottom, top, share, described);
      var before := After(c, front, payload);
      ObserveKeepsBounded(before, last, payload);
      assert SteersOnce(before, last, payload, c.minimum, c.maximum, bottom, top, share, described);
      ApproachingStep(c.rate, before.rate, Observed(before, last, payload).rate, bottom, top, share, |front|);
    }
  }

  // ----- a receiver whose socket drops the excess -----

  /**
    New data and little waste, and the receiver's socket has counted drops exactly when the rate is above
    what it takes.
  */
  ghost predicate CountsExcess(c: Controller, o: Observation, payload: nat, capacity: real) {
    && c.interval > 0 && Due(c, o.now) && Accepted(c, o.telemetry) > 0
    && if c.rate > capacity then Drops(c, o.telemetry) > 0
       else Drops(c, o.telemetry) == 0 && Waste(c, o.telemetry) <= 0.03
            && Useful(c, o.telemetry, o.now, payload) >= c.rate * 0.8
  }

  function OneAbove(capacity: real): real { Larger(1.25 * capacity, capacity + 1.0) }

  lemma CountedExcessSteers(c: Controller, o: Observation, payload: nat, capacity: real)
    requires Bounded(c) && capacity > 0.0 && CountsExcess(c, o, payload, capacity)
    requires c.minimum <= OneAbove(capacity) && 0.7 * capacity < c.maximum
    ensures Steers(c.rate, Observed(c, o, payload).rate, 0.7 * capacity, OneAbove(capacity), 0.7)
  {
    if c.rate > capacity {
      if c.rate > c.minimum {
        DecreaseIffTrouble(c, o, payload);
      }
    } else if c.rate < c.maximum {
      IncreaseIffKeptUp(c, o, payload);
    }
  }

  /**
    When the receiver's own socket drops what exceeds its capacity, and so reports it, the rate is above
    seven tenths of the capacity and at most one increase beyond it once climbing by a megabit or cuts to
    seven tenths could have brought it there, and from then on. The limits must allow it.
  */
  lemma CountedExcessBoundsRate(c: Controller, stream: seq<Observation>, payload: nat, capacity: real)
    requires Bounded(c) && capacity > 0.0
    requires Throughout(c, stream, payload, (d, o) => CountsExcess(d, o, payload, capacity))
    requires c.minimum <= OneAbove(capacity) && 0.7 * capacity < c.maximum
    requires c.rate + |stream| as real > 0.7 * capacity && Decayed(0.7, c.rate, |stream|) <= OneAbove(capacity)
    ensures 0.7 * capacity < After(c, stream, payload).rate <= OneAbove(capacity)
  {
    var bottom, top := 0.7 * capacity, OneAbove(capacity);
    var described: (Controller, Observation) -> bool := (d, o) => CountsExcess(d, o, payload, capacity);
    forall d: Controller, o: Observation
      ensures SteersOnce(d, o, payload, c.minimum, c.maximum, bottom, top, 0.7, described)
    {
      if Bounded(d) && d.minimum == c.minimum && d.maximum == c.maximum && described(d, o) {
        CountedExcessSteers(d, o, payload, capacity);
      }
    }
    RateApproaches(c, stream, payload, bottom, top, 0.7, described);
  }

  // ----- a network that drops the excess unseen -----

  /**
    The excess is lost before it reaches the receiver, which counts neither drops nor waste: what arrives is at
    most `high`, and at least `low` or four fifths of the rate.
  */
  ghost predicate LosesExcess(c: Controller, o: Observation, payload: nat, low: real, high: real) {
    && c.interval > 0 && Due(c, o.now)
    && Accepted(c, o.telemetry) > 0 && Drops(c, o.telemetry) == 0 && Waste(c, o.telemetry) <= 0.03
    && (Useful(c, o.telemetry, o.now, payload) >= c.rate * 0.8 || Useful(c, o.telemetry, o.now, payload) >= low)
    && Useful(c, o.telemetry, o.now, payload) <= high
  }

  /** Twice what arrives, or where the last increase from below led. */
  function TwiceOrOneAbove(high: real): real { Larger(2.0 * high, 1.25 * high + 1.0) }

  lemma LostExcessSteers(c: Controller, o: Observation, payload: nat, low: real, high: real)
    requires Bounded(c) && 0.0 < low <= high && LosesExcess(c, o, payload, low, high)
    requires c.minimum <= TwiceOrOneAbove(high) && 1.25 * low < c.maximum
    ensures Steers(c.rate, Observed(c, o, payload).rate, 1.25 * low, TwiceOrOneAbove(high), 0.85)
  {
    if c.rate < c.maximum {
      IncreaseIffKeptUp(c, o, payload);
    }
    if c.rate > c.minimum {
      DecreaseIffTrouble(c, o, payload);
    }
  }

  /**
    When the network loses the excess unseen, the controller does not come down to what gets through. With
    between `low` and `high` arriving, the rate ends up above five fourths of `low` and at most twice `high`, or
    one increase beyond, within the same kind of bound, and stays in that range.
  */
  lemma LostExcessBoundsRate(c: Controller, stream: seq<Observation>, payload: nat, low: real, high: real)
    requires Bounded(c) && 0.0 < low <= high
    requires Throughout(c, stream, payload, (d, o) => LosesExcess(d, o, payload, low, high))
    requires c.minimum <= TwiceOrOneAbove(high) && 1.25 * low < c.maximum
    requires c.rate + |stream| as real > 1.25 * low && Decayed(0.85, c.rate, |stream|) <= TwiceOrOneAbove(high)
    ensures 1.25 * low < After(c, stream, payload).rate <= TwiceOrOneAbove(high)
  {
    var bottom, top := 1.25 * low, TwiceOrOneAbove(high);
    var described: (Controller, Observation) -> bool := (d, o) => LosesExcess(d, o, payload, low, high);
    forall d: Controller, o: Observation
      ensures SteersOnce(d, o, payload, c.minimum, c.maximum, bottom, top, 0.85, described)
    {
      if Bounded(d) && d.minimum == c.minimum && d.maximum == c.maximum && described(d, o) {
        LostExcessSteers(d, o, payload, low, high);
      }
    }
    RateApproaches(c, stream, payload, bottom, top, 0.85, described);
  }

  /** With one steady throughput, the rates that a decision leaves alone. */
  lemma LeftAloneIff(c: Controller, o: Observation, payload: nat, throughput: real)
    requires Bounded(c) && throughput > 0.0 && LosesExcess(c, o, payload, throughput, throughput)
    ensures Observed(c, o, payload).rate == c.rate <==>
            if c.rate <= 1.25 * throughput then c.rate == c.maximum
            else c.rate <= 2.0 * throughput || c.rate == c.minimum
  {
    if c.rate < c.maximum {
      IncreaseIffKeptUp(c, o, payload);
    }
    if c.rate > c.minimum {
      DecreaseIffTrouble(c, o, payload);
    }
  }

  /**
    With one steady throughput of at least 4/3 megabit the rate settles for good, above five fourths of the throughput
    and at most twice as high.
  */
  lemma LostExcessSettles(c: Controller, stream: seq<Observation>, payload: nat, throughput: real)
    requires Bounded(c) && 3.0 * throughput >= 4.0
    requires Throughout(c, stream, payload, (d, o) => LosesExcess(d, o, payload, throughput, throughput))
    requires c.minimum <= 2.0 * throughput && 1.25 * throughput < c.maximum
    requires c.rate + |stream| as real > 1.25 * throughput && Decayed(0.85, c.rate, |stream|) <= 2.0 * throughput
    ensures 1.25 * throughput < After(c, stream, payload).rate <= 2.0 * throughput
    ensures forall o :: LosesExcess(After(c, stream, payload), o, payload, throughput, throughput) ==>
              Observed(After(c, stream, payload), o, payload).rate == After(c, stream, payload).rate
  {
    LostExcessBoundsRate(c, stream, payload, throughput, throughput);
    RunKeepsBounded(c, stream, payload);
    var end := After(c, stream, payload);
    forall o | LosesExcess(end, o, payload, throughput, throughput) ensures Observed(end, o, payload).rate == end.rate {
      LeftAloneIff(end, o, payload, throughput);
    }
  }

  lemma {:induction false} RunKeepsBounded(c: Controller, stream: seq<Observation>, payload: nat)
    requires Bounded(c)
    ensures Bounded(After(c, stream, payload))
  {
    if stream != [] {
      RunKeepsBounded(c, stream[..|stream| - 1], payload);
      ObserveKeepsBounded(After(c, stream[..|stream| - 1], payload), stream[|stream| - 1], payload);
    }
  }

  /**
    So the two kinds of loss are not alike: at 110 megabits over a network that lets 100 through, the rate goes up
    to 137.5, where a socket that counted the loss would have kept it at or below 125.
  */
  lemma UnseenLossExample()
    ensures var c := Controller(false, 110.0, 10.0, 1000.0, 200_000_000, 0, 0, NOTHING_SEEN, [], 0, 0, 0, 0);
            var o := Observation(Telemetry(2500, 0, 2500, 2500, 0, 0, 0, Some(0), 1), 200_000_000);
            && Bounded(c) && LosesExcess(c, o, 1000, 100.0, 100.0)
            && 0.7 * 100.0 < c.rate <= OneAbove(100.0) < Observed(c, o, 1000).rate == 137.5
  {
    var c := Controller(false, 110.0, 10.0, 1000.0, 200_000_000, 0, 0, NOTHING_SEEN, [], 0, 0, 0, 0);
    var t := Telemetry(2500, 0, 2500, 2500, 0, 0, 0, Some(0), 1);
    assert Accepted(c, t) == 2500 && Valid(c, t) == 2500 && Drops(c, t) == 0;
    assert Useful(c, t, 200_000_000, 1000) == 100.0;
  }

  // ----- the controller as the sender keeps it -----

  class RateController {
    const fixed: bool
    const minimum: real
    const maximum: real
    const interval: nat
    const started: nat
    var rate: real
    var last: nat
    var seen: Telemetry
    var decisions: seq<Decision>
    var count: nat
    var increased: nat
    var decreased: nat
    var held: nat

    function Value(): Controller
      reads this
    {
      Controller(fixed, rate, minimum, maximum, interval, started, last, seen, decisions, count, increased, decreased,
        held)
    }

    constructor (fixedRate: Option<real>, low: real, high: real, reportInterval: nat, now: nat)
      ensures Value() == Fresh(fixedRate, low, high, reportInterval, now)
    {
      fixed := fixedRate.Some?;
      rate := if fixedRate.Some? then fixedRate.value else low;
      minimum := if fixedRate.Some? then fixedRate.value else low;
      maximum := if fixedRate.Some? then fixedRate.value else high;
      interval := if 4 * reportInterval > MIN_DECISION_INTERVAL then 4 * reportInterval else MIN_DECISION_INTERVAL;
      started, last, seen := now, now, NOTHING_SEEN;
      decisions, count, increased, decreased, held := [], 0, 0, 0, 0;
    }

    method Observe(telemetry: Telemetry, now: nat, payload: nat)
      requires interval > 0
      modifies this
      ensures Value() == Observed(old(Value()), Observation(telemetry, now), payload)
    {
      if fixed || Less(now, last) < interval {
        return;
      }
      var before := rate;
      var reason := Judge(Value(), telemetry, now, payload);
      rate := Clamp(Candidate(before, reason), minimum, maximum);
      count := Bump(count);
      var verdict := VerdictOf(before, rate);
      match verdict {
        case Increase => increased := Bump(increased);
        case Decrease => decreased := Bump(decreased);
        case Hold => held := Bump(held);
      }
      if |decisions| < MAX_RATE_DECISIONS {
        decisions := decisions + [Decision(Less(now, started), verdict, before, rate, reason)];
      }
      last := now;
      seen := telemetry;
    }
  }
}
