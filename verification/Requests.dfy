/**
  What one report asks of the sender and exactly what comes of it: which chunks its ranges list, which of them are
  queued, and when the reader refuses a line.
*/
module Requests {
  import opened Outcomes
  import opened Text
  import opened Receivers
  import opened Reports
  import opened Repairs
  import opened RepairRounds
  import opened Feedback

  // ----- queueing a list of chunks -----

  /** Those of the chunks that are neither queued nor cooling down, in order, each at its first place. */
  function Picked(q: Queue, ks: seq<nat>): (s: seq<nat>)
    ensures |s| <= |ks|
  {
    if ks == [] then []
    else
      var front, k := ks[..|ks| - 1], ks[|ks| - 1];
      Picked(q, front) + if k in front || k in q.queued || k in q.lastSent then [] else [k]
  }

  lemma {:induction false} PickedMembers(q: Queue, ks: seq<nat>, k: nat)
    ensures k in Picked(q, ks) <==> k in ks && k !in q.queued && k !in q.lastSent
  {
    if ks != [] {
      var front, last := ks[..|ks| - 1], ks[|ks| - 1];
      assert ks == front + [last];
      PickedMembers(q, front, k);
    }
  }

  /** The queue after it has taken as many of these as it has room for. */
  ghost predicate Took(q: Queue, picked: seq<nat>, r: Queue) {
    var n := if |q.queue| + |picked| <= 65_536 then |picked| else if |q.queue| <= 65_536 then 65_536 - |q.queue| else 0;
    r.queue == q.queue + picked[..n] && r.lastSent == q.lastSent
  }

  lemma TookNothing(q: Queue)
    ensures Took(q, [], q)
  {
    assert q.queue + [][..0] == q.queue;
  }

  lemma TookMore(q: Queue, picked: seq<nat>, k: nat, r: Queue)
    requires Took(q, picked, r) && |r.queue| < 65_536
    ensures Took(q, picked + [k], r.(queue := r.queue + [k], queued := r.queued + {k}))
  {
    assert picked[..|picked|] == picked && (picked + [k])[..|picked| + 1] == picked + [k];
    assert q.queue + picked + [k] == q.queue + (picked + [k]);
  }

  lemma TookNoMore(q: Queue, picked: seq<nat>, k: nat, r: Queue)
    requires Took(q, picked, r) && |r.queue| >= 65_536
    ensures Took(q, picked + [k], r)
  {
    var n := if |q.queue| <= 65_536 then 65_536 - |q.queue| else 0;
    assert n <= |picked| ==> (picked + [k])[..n] == picked[..n];
  }

  lemma PushAllSnoc(q: Queue, front: seq<nat>, k: nat)
    ensures var p := PushAll(q, front);
            PushAll(q, front + [k]) == if Full(p) then p else Push(p, k)
  {
    PushAllConcat(q, front, [k]);
    assert [k][1..] == [];
  }

  lemma {:induction false} PushAllKeepsListed(q: Queue, ks: seq<nat>)
    requires Listed(q)
    ensures Listed(PushAll(q, ks))
    decreases |ks|
  {
    if ks != [] && !Full(q) {
      PushKeepsListed(q, ks[0]);
      PushAllKeepsListed(Push(q, ks[0]), ks[1..]);
    }
  }

  lemma PrefixMembers(picked: seq<nat>, n: nat, k: nat)
    requires n <= |picked| && k in picked[..n]
    ensures k in picked
  {
  }

  /** A chunk is handled once pushed unless the queue filled up before. */
  lemma HandledIff(q: Queue, front: seq<nat>, p: Queue, k: nat)
    requires Listed(q) && Listed(p) && Took(q, Picked(q, front), p) && |p.queue| < 65_536
    ensures k in p.lastSent || k in p.queued <==> k in front || k in q.queued || k in q.lastSent
  {
    var picked := Picked(q, front);
    PickedMembers(q, front, k);
    assert picked[..|picked|] == picked;
    assert k in p.queue <==> k in q.queue || k in picked;
  }

  lemma PickedSnoc(q: Queue, front: seq<nat>, k: nat)
    ensures Picked(q, front + [k])
         == Picked(q, front) + if k in front || k in q.queued || k in q.lastSent then [] else [k]
  {
    assert (front + [k])[..|front|] == front;
  }

  lemma PushIs(q: Queue, front: seq<nat>, p: Queue, k: nat)
    requires Listed(q) && Listed(p) && Took(q, Picked(q, front), p)
    ensures Took(q, Picked(q, front + [k]), if Full(p) then p else Push(p, k))
  {
    PickedSnoc(q, front, k);
    if |p.queue| >= 65_536 {
      TookNoMore(q, Picked(q, front), k, p);
    } else {
      HandledIff(q, front, p, k);
      TookMore(q, Picked(q, front), k, p);
    }
  }

  /** Pushing a list queues, behind what is there, the first of the picked chunks, as many as there is room for. */
  lemma {:induction false} PushAllIs(q: Queue, ks: seq<nat>)
    requires Listed(q)
    ensures Took(q, Picked(q, ks), PushAll(q, ks))
  {
    if ks == [] {
      TookNothing(q);
    } else {
      var front, k := ks[..|ks| - 1], ks[|ks| - 1];
      assert ks == front + [k];
      PushAllIs(q, front);
      PushAllKeepsListed(q, front);
      PushIs(q, front, PushAll(q, front), k);
      PushAllSnoc(q, front, k);
    }
  }

  // ----- the parts of a report -----

  /** Nothing, or a range that lies in the object. */
  ghost predicate GoodPart(part: string, chunks: nat) {
    part == "" || exists start: nat, end: nat :: SaysRange(part, start, end) && end < chunks
  }

  ghost predicate AllGood(parts: seq<string>, chunks: nat) {
    forall i :: 0 <= i < |parts| ==> GoodPart(parts[i], chunks)
  }

  function PartChunks(part: string): seq<nat> {
    match ParseRange(part)
    case Err => []
    case Ok(r) => if part == "" || r.1 < r.0 then [] else Span(r.0, r.1)
  }

  /** The chunks the parts name, in order. */
  function Wanted(parts: seq<string>): seq<nat> {
    if parts == [] then [] else PartChunks(parts[0]) + Wanted(parts[1..])
  }

  lemma GoodPartIff(part: string, chunks: nat)
    ensures GoodPart(part, chunks) <==>
            part == "" || (ParseRange(part).Ok? && ParseRange(part).value.1 < chunks)
    ensures ParseRange(part).Ok? ==> ParseRange(part).value.0 <= ParseRange(part).value.1
  {
    if ParseRange(part).Ok? { ParseRangeIff(part, ParseRange(part).value); }
    forall start: nat, end: nat | SaysRange(part, start, end) ensures ParseRange(part) == Ok((start, end)) {
      ParseRangeIff(part, (start, end));
    }
  }

  /** The queue is full before the last of them is reached. */
  predicate Stuck(q: Queue, ks: seq<nat>)
    decreases |ks|
  {
    ks != [] && (Full(q) || Stuck(Push(q, ks[0]), ks[1..]))
  }

  lemma {:induction false} BlockedIsStuck(q: Queue, start: nat, end: nat)
    requires start <= end + 1
    ensures Blocked(q, start, end) <==> Stuck(q, Span(start, end))
    decreases end + 1 - start
  {
    if start <= end && !Full(q) {
      BlockedIsStuck(Push(q, start), start + 1, end);
      SpanTail(start, end);
    }
  }

  lemma {:induction false} StuckConcat(q: Queue, xs: seq<nat>, ys: seq<nat>)
    ensures Stuck(q, xs + ys) <==> Stuck(q, xs) || Stuck(PushAll(q, xs), ys)
    decreases |xs|
  {
    if xs == [] {
      assert xs + ys == ys;
    } else if !Full(q) {
      assert (xs + ys)[1..] == xs[1..] + ys;
      StuckConcat(Push(q, xs[0]), xs[1..], ys);
    }
  }

  lemma {:induction false} StuckIsFull(q: Queue, ks: seq<nat>)
    requires Stuck(q, ks)
    ensures Full(PushAll(q, ks))
    decreases |ks|
  {
    if !Full(q) { StuckIsFull(Push(q, ks[0]), ks[1..]); }
  }

  /** What one good part does, before the rest. */
  lemma OnePart(q: Queue, part: string, rest: seq<string>, chunks: nat)
    requires GoodPart(part, chunks)
    ensures PushParts(q, [part] + rest, chunks)
         == if Stuck(q, PartChunks(part)) then (PushAll(q, PartChunks(part)), true)
            else PushParts(PushAll(q, PartChunks(part)), rest, chunks)
  {
    var parts := [part] + rest;
    assert parts[1..] == rest;
    GoodPartIff(part, chunks);
    if part != "" {
      var r := ParseRange(part).value;
      PushToIsPushAll(q, r.0, r.1);
      BlockedIsStuck(q, r.0, r.1);
    }
  }

  /** Good parts are queued, and what follows them matters only if the queue is not full before. */
  ghost predicate Continues(q: Queue, good: seq<string>, rest: seq<string>, chunks: nat) {
    PushParts(q, good + rest, chunks)
    == if Stuck(q, Wanted(good)) then (PushAll(q, Wanted(good)), true)
       else PushParts(PushAll(q, Wanted(good)), rest, chunks)
  }

  lemma WantedCons(part: string, more: seq<string>)
    ensures Wanted([part] + more) == PartChunks(part) + Wanted(more)
  {
    assert ([part] + more)[1..] == more;
  }

  lemma ContinuesNext(q: Queue, part: string, more: seq<string>, rest: seq<string>, chunks: nat)
    requires GoodPart(part, chunks) && Continues(PushAll(q, PartChunks(part)), more, rest, chunks)
    ensures Continues(q, [part] + more, rest, chunks)
  {
    var ks, later := PartChunks(part), Wanted(more);
    assert [part] + more + rest == [part] + (more + rest);
    OnePart(q, part, more + rest, chunks);
    WantedCons(part, more);
    StuckConcat(q, ks, later);
    PushAllConcat(q, ks, later);
    if Stuck(q, ks) {
      StuckIsFull(q, ks);
      FullStays(PushAll(q, ks), later);
    }
  }

  lemma FullStays(q: Queue, ks: seq<nat>)
    requires Full(q)
    ensures PushAll(q, ks) == q
  {
  }

  lemma {:induction false} GoodParts(q: Queue, good: seq<string>, rest: seq<string>, chunks: nat)
    requires AllGood(good, chunks)
    ensures Continues(q, good, rest, chunks)
    decreases |good|
  {
    if good == [] {
      assert good + rest == rest;
    } else {
      GoodRest(good, chunks);
      GoodParts(PushAll(q, PartChunks(good[0])), good[1..], rest, chunks);
      ContinuesNext(q, good[0], good[1..], rest, chunks);
      assert good == [good[0]] + good[1..];
    }
  }

  lemma GoodRest(good: seq<string>, chunks: nat)
    requires good != [] && AllGood(good, chunks)
    ensures GoodPart(good[0], chunks) && AllGood(good[1..], chunks)
  {
  }

  lemma BadPart(q: Queue, part: string, rest: seq<string>, chunks: nat)
    requires !GoodPart(part, chunks)
    ensures PushParts(q, [part] + rest, chunks) == (q, false)
  {
    GoodPartIff(part, chunks);
  }

  lemma GoodCons(part: string, more: seq<string>, chunks: nat)
    requires GoodPart(part, chunks) && AllGood(more, chunks)
    ensures AllGood([part] + more, chunks)
  {
  }

  /** The good parts before the first that is not good, and the rest. */
  lemma {:induction false} SplitAtBad(parts: seq<string>, chunks: nat) returns (good: seq<string>, rest: seq<string>)
    ensures parts == good + rest && AllGood(good, chunks) && (rest != [] ==> !GoodPart(rest[0], chunks))
  {
    good, rest := [], parts;
    if parts != [] && GoodPart(parts[0], chunks) {
      var more, left := SplitAtBad(parts[1..], chunks);
      GoodCons(parts[0], more, chunks);
      good, rest := [parts[0]] + more, left;
      assert parts == [parts[0]] + parts[1..];
    }
  }

  /** The queue was full before the last of these chunks came to be queued. */
  predicate WasFull(q: Queue, ks: seq<nat>) {
    ks != [] && |q.queue| + |Picked(q, ks[..|ks| - 1])| >= 65_536
  }

  lemma StuckIff(q: Queue, ks: seq<nat>)
    requires Listed(q)
    ensures Stuck(q, ks) <==> WasFull(q, ks)
  {
    if ks != [] {
      var front, k := ks[..|ks| - 1], ks[|ks| - 1];
      assert ks == front + [k];
      StuckConcat(q, front, [k]);
      if Stuck(q, front) { StuckIsFull(q, front); }
      PushAllIs(q, front);
      PushAllKeepsListed(q, front);
    }
  }

  /** The first parts are good, and are all of them or fill the queue; what they name is queued. */
  ghost predicate Served(q: Queue, good: seq<string>, rest: seq<string>, chunks: nat, r: Queue) {
    AllGood(good, chunks) && (rest == [] || WasFull(q, Wanted(good))) && r == PushAll(q, Wanted(good))
  }

  lemma ServedIsPushed(q: Queue, good: seq<string>, rest: seq<string>, chunks: nat, r: Queue)
    requires Listed(q) && Served(q, good, rest, chunks, r)
    ensures PushParts(q, good + rest, chunks) == (r, true)
  {
    GoodParts(q, good, rest, chunks);
    StuckIff(q, Wanted(good));
  }

  lemma PushedIsServed(q: Queue, good: seq<string>, rest: seq<string>, chunks: nat)
    requires Listed(q) && AllGood(good, chunks) && (rest != [] ==> !GoodPart(rest[0], chunks))
    requires PushParts(q, good + rest, chunks).1
    ensures Served(q, good, rest, chunks, PushParts(q, good + rest, chunks).0)
  {
    GoodParts(q, good, rest, chunks);
    StuckIff(q, Wanted(good));
    if rest != [] {
      assert rest == [rest[0]] + rest[1..];
      BadPart(PushAll(q, Wanted(good)), rest[0], rest[1..], chunks);
    }
  }

  /**
    The ranges of a report are taken if and only if every part is empty or a range of the object, as far as the parts
    are looked at: up to the end, or to where the queue is full.
  */
  lemma PushPartsIff(q: Queue, parts: seq<string>, chunks: nat, r: Queue)
    requires Listed(q)
    ensures PushParts(q, parts, chunks) == (r, true) <==>
            exists good, rest :: parts == good + rest && Served(q, good, rest, chunks, r)
  {
    if PushParts(q, parts, chunks) == (r, true) {
      var good, rest := SplitAtBad(parts, chunks);
      PushedIsServed(q, good, rest, chunks);
    }
    forall good, rest | parts == good + rest && Served(q, good, rest, chunks, r)
      ensures PushParts(q, parts, chunks) == (r, true)
    {
      ServedIsPushed(q, good, rest, chunks, r);
    }
  }

  // ----- cooldowns -----

  /** A report first ends the cooldowns that are over, and touches nothing else. */
  lemma ExpireIff(q: Queue, now: int, cooldown: nat, k: nat)
    ensures var e := Expire(q, now, cooldown);
            && e.queue == q.queue && e.queued == q.queued
            && (k in e.lastSent <==> k in q.lastSent && now < q.lastSent[k] + cooldown)
            && (k in e.lastSent ==> e.lastSent[k] == q.lastSent[k])
  {
  }

  /**
    Taking the front chunk: it starts to cool down now, and no other chunk's cooldown is touched unless 65,536 are
    cooling down, when exactly one gives way.
  */
  lemma TakeIff(h: History, now: int, victim: nat, cooldown: nat, k: nat)
    requires QueueOk(h.q) && OpOk(h, Take(now, victim))
    ensures var t, first := Apply(h, Take(now, victim), cooldown).q, h.q.queue[0];
            && h.q.queue == [first] + t.queue && (k in t.queued <==> k in h.q.queued && k != first)
            && (k in t.lastSent <==>
                  k == first || (k in h.q.lastSent && (|h.q.lastSent| < 65_536 || k != victim)))
            && (k in t.lastSent ==> t.lastSent[k] == if k == first then now else h.q.lastSent[k])
            && (|h.q.lastSent| < 65_536 ==>
                  Apply(h, Take(now, victim), cooldown).log == h.log + [Sent(first, now)])
  {
    assert h.log + [] == h.log;
  }

  // ----- one line -----

  /** One more report, up to the limit of the counter. */
  function OneMoreReport(n: nat): nat { if n + 1 < 0x1_0000_0000_0000_0000 then n + 1 else n }

  /** The line is a report whose ranges are taken, and this is what it leaves. */
  ghost predicate ReportTaken(s: Shared, line: string, chunks: nat, now: int, cooldown: nat, next: Shared,
                              t: Telemetry, ranges: string)
  {
    && Small(t) && Possible(t, chunks) && SaysReport(line, t, ranges)
    && next.complete == s.complete && next.telemetry == t.(reports := OneMoreReport(s.telemetry.reports))
    && exists good, rest ::
         Split(ranges, ',') == good + rest && Served(Expire(s.queue, now, cooldown), good, rest, chunks, next.queue)
  }

  lemma HandleReportIff(s: Shared, line: string, chunks: nat, now: int, cooldown: nat, next: Shared)
    requires QueueOk(s.queue)
    ensures HandleReport(s, line, chunks, now, cooldown) == Ok(next) <==>
            exists t, ranges :: ReportTaken(s, line, chunks, now, cooldown, next, t, ranges)
  {
    ExpireKeepsOk(s.queue, now, cooldown);
    if HandleReport(s, line, chunks, now, cooldown) == Ok(next) {
      var (t, ranges) := ParseFeedbackReport(line, chunks).value;
      ParseFeedbackReportIff(line, chunks, t, ranges);
      PushPartsIff(Expire(s.queue, now, cooldown), Split(ranges, ','), chunks, next.queue);
      assert ReportTaken(s, line, chunks, now, cooldown, next, t, ranges);
    }
    forall t, ranges | ReportTaken(s, line, chunks, now, cooldown, next, t, ranges)
      ensures HandleReport(s, line, chunks, now, cooldown) == Ok(next)
    {
      ParseFeedbackReportIff(line, chunks, t, ranges);
      PushPartsIff(Expire(s.queue, now, cooldown), Split(ranges, ','), chunks, next.queue);
    }
  }

  /**
    What each line does. COMPLETE sets the flag and PONG nothing. A line that begins "M " is refused, or is a report:
    then it replaces the telemetry, cooldowns that are over end, and its ranges are queued. Everything else is refused.
  */
  lemma HandleLineIff(s: Shared, line: string, chunks: nat, now: int, cooldown: nat, next: Shared)
    requires QueueOk(s.queue)
    ensures HandleLine(s, line, chunks, now, cooldown) == Ok(next) <==>
            || (line == "COMPLETE" && next == Shared(true, s.telemetry, s.queue))
            || (line == "PONG" && next == s)
            || ("M " <= line && exists t, ranges :: ReportTaken(s, line, chunks, now, cooldown, next, t, ranges))
  {
    HandleReportIff(s, line, chunks, now, cooldown, next);
    assert "M "[0] == 'M' && "COMPLETE"[0] == 'C' && "PONG"[0] == 'P';
    if "M " <= line { assert line[0] == 'M'; }
  }
}
