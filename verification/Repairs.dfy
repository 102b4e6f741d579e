/**
  The sender's repair queue: a deque with a membership set and a cooldown cache, both bounded.
  The values and their operations come first, then the class that updates them in place.
*/
module Repairs {
  import opened Outcomes
  import opened Text
  import opened Reports

  const MAX_QUEUED_REPAIRS: nat := 65_536

  datatype Queue = Queue(queue: seq<nat>, queued: set<nat>, lastSent: map<nat, int>)

  ghost predicate Distinct(s: seq<nat>) {
    forall i, j :: 0 <= i < j < |s| ==> s[i] != s[j]
  }

  /** The deque lists the membership set, each chunk once. */
  ghost predicate Listed(q: Queue) {
    && Distinct(q.queue)
    && (forall k :: k in q.queued <==> k in q.queue)
    && |q.queued| == |q.queue|
  }

  ghost predicate QueueOk(q: Queue) {
    && Listed(q)
    && |q.queued| <= MAX_QUEUED_REPAIRS && |q.lastSent| <= MAX_QUEUED_REPAIRS
    && q.queued !! q.lastSent.Keys
  }

  // ----- enqueueing -----

  /** One chunk of a reported range, when there is room. */
  function Push(q: Queue, k: nat): Queue {
    if k !in q.lastSent && k !in q.queued then q.(queue := q.queue + [k], queued := q.queued + {k}) else q
  }

  predicate Full(q: Queue) { |q.queued| >= MAX_QUEUED_REPAIRS }

  /** One range, until the queue is full. */
  function PushTo(q: Queue, start: nat, end: nat): Queue
    decreases end + 1 - start
  {
    if start > end || Full(q) then q else PushTo(Push(q, start), start + 1, end)
  }

  /** Whether the queue fills up before the end of the range. */
  predicate Blocked(q: Queue, start: nat, end: nat)
    decreases end + 1 - start
  {
    start <= end && (Full(q) || Blocked(Push(q, start), start + 1, end))
  }

  function PushSpan(q: Queue, start: nat, end: nat): (Queue, bool) {
    (PushTo(q, start, end), Blocked(q, start, end))
  }

  /** The comma-separated parts in order; false on the first part that is malformed or out of range. */
  function PushParts(q: Queue, parts: seq<string>, chunks: nat): (Queue, bool)
    decreases |parts|
  {
    if parts == [] then (q, true)
    else if parts[0] == "" then PushParts(q, parts[1..], chunks)
    else
      match ParseRange(parts[0])
      case Err => (q, false)
      case Ok(r) =>
        if r.1 >= chunks then (q, false)
        else
          var (q', full) := PushSpan(q, r.0, r.1);
          if full then (q', true) else PushParts(q', parts[1..], chunks)
  }

  /** Appending only: the cooldown cache and what was queued stay. */
  ghost predicate Grown(q: Queue, r: Queue) {
    q.queue <= r.queue && q.queued <= r.queued && r.lastSent == q.lastSent
  }

  /** The chunk is on its way: queued, or sent within the cooldown. */
  predicate Handled(q: Queue, k: nat) { k in q.queued || k in q.lastSent }

  lemma PushKeepsListed(q: Queue, k: nat)
    requires Listed(q)
    ensures Listed(Push(q, k))
  {
  }

  /** What one push keeps, a range keeps. */
  lemma {:induction false} PushToKeeps(q: Queue, start: nat, end: nat, kept: Queue -> bool)
    requires kept(q) && forall p: Queue, k: nat :: kept(p) ==> kept(Push(p, k))
    ensures kept(PushTo(q, start, end))
    decreases end + 1 - start
  {
    if start <= end && !Full(q) {
      PushToKeeps(Push(q, start), start + 1, end, kept);
    }
  }

  lemma PushToKeepsListed(q: Queue, start: nat, end: nat)
    requires Listed(q)
    ensures Listed(PushTo(q, start, end))
  {
    forall p: Queue, k: nat | Listed(p) ensures Listed(Push(p, k)) {
      PushKeepsListed(p, k);
    }
    PushToKeeps(q, start, end, p => Listed(p));
  }

  lemma {:induction false} PushToKeepsApart(q: Queue, start: nat, end: nat)
    requires q.queued !! q.lastSent.Keys && |q.queued| <= MAX_QUEUED_REPAIRS
    ensures PushTo(q, start, end).queued !! PushTo(q, start, end).lastSent.Keys
    ensures |PushTo(q, start, end).queued| <= MAX_QUEUED_REPAIRS
    decreases end + 1 - start
  {
    if start <= end && !Full(q) {
      PushToKeepsApart(Push(q, start), start + 1, end);
    }
  }

  lemma PushToKeepsOk(q: Queue, start: nat, end: nat)
    requires QueueOk(q)
    ensures QueueOk(PushTo(q, start, end))
  {
    PushToKeepsListed(q, start, end);
    PushToKeepsApart(q, start, end);
    PushToGrows(q, start, end);
  }

  lemma {:induction false} PushToGrows(q: Queue, start: nat, end: nat)
    ensures Grown(q, PushTo(q, start, end))
    decreases end + 1 - start
  {
    if start <= end && !Full(q) {
      PushToGrows(Push(q, start), start + 1, end);
    }
  }

  lemma {:induction false} BlockedIsFull(q: Queue, start: nat, end: nat)
    requires Blocked(q, start, end)
    ensures Full(PushTo(q, start, end))
    decreases end + 1 - start
  {
    if !Full(q) {
      BlockedIsFull(Push(q, start), start + 1, end);
    }
  }

  lemma {:induction false} PushToHandles(q: Queue, start: nat, end: nat, k: nat)
    requires start <= k <= end && !Blocked(q, start, end)
    ensures Handled(PushTo(q, start, end), k)
    decreases end + 1 - start
  {
    if k == start {
      PushToGrows(Push(q, start), start + 1, end);
    } else {
      PushToHandles(Push(q, start), start + 1, end, k);
    }
  }

  lemma {:induction false} PushToAdds(q: Queue, start: nat, end: nat, k: nat)
    requires k in PushTo(q, start, end).queued
    ensures k in q.queued || start <= k <= end
    decreases end + 1 - start
  {
    if start <= end && !Full(q) {
      PushToAdds(Push(q, start), start + 1, end, k);
    }
  }

  /** A chunk some part of a report names. */
  ghost predicate Reported(parts: seq<string>, k: nat) {
    exists i :: 0 <= i < |parts| && parts[i] != "" && ParseRange(parts[i]).Ok?
                && ParseRange(parts[i]).value.0 <= k <= ParseRange(parts[i]).value.1
  }

  lemma ReportedCons(parts: seq<string>, k: nat)
    requires parts != []
    ensures Reported(parts, k) <==>
            (parts[0] != "" && ParseRange(parts[0]).Ok?
              && ParseRange(parts[0]).value.0 <= k <= ParseRange(parts[0]).value.1)
            || Reported(parts[1..], k)
  {
    if Reported(parts[1..], k) {
      var i :| 0 <= i < |parts[1..]| && parts[1..][i] != "" && ParseRange(parts[1..][i]).Ok?
               && ParseRange(parts[1..][i]).value.0 <= k <= ParseRange(parts[1..][i]).value.1;
      assert parts[i + 1] == parts[1..][i];
    }
  }

  lemma {:induction false} ReportKeepsOk(q: Queue, parts: seq<string>, chunks: nat)
    requires QueueOk(q)
    ensures QueueOk(PushParts(q, parts, chunks).0)
    decreases |parts|
  {
    if parts != [] {
      if parts[0] == "" {
        ReportKeepsOk(q, parts[1..], chunks);
      } else if ParseRange(parts[0]).Ok? {
        var r := ParseRange(parts[0]).value;
        PushToKeepsOk(q, r.0, r.1);
        ReportKeepsOk(PushTo(q, r.0, r.1), parts[1..], chunks);
      }
    }
  }

  lemma {:induction false} ReportGrows(q: Queue, parts: seq<string>, chunks: nat)
    ensures Grown(q, PushParts(q, parts, chunks).0)
    decreases |parts|
  {
    if parts != [] {
      if parts[0] == "" {
        ReportGrows(q, parts[1..], chunks);
      } else if ParseRange(parts[0]).Ok? {
        var r := ParseRange(parts[0]).value;
        PushToGrows(q, r.0, r.1);
        ReportGrows(PushTo(q, r.0, r.1), parts[1..], chunks);
      }
    }
  }

  /**
    What an accepted report achieves: every chunk it names is queued or cooling down, unless the
    queue is full; and only chunks of the object that the report names are added.
  */
  lemma {:induction false} ReportHandles(q: Queue, parts: seq<string>, chunks: nat, k: nat)
    ensures var (q', ok) := PushParts(q, parts, chunks);
            && (ok && Reported(parts, k) ==> Full(q') || Handled(q', k))
            && (k in q'.queued ==> k in q.queued || (Reported(parts, k) && k < chunks))
    decreases |parts|
  {
    if parts != [] {
      ReportedCons(parts, k);
      if parts[0] == "" {
        ReportHandles(q, parts[1..], chunks, k);
      } else if ParseRange(parts[0]).Ok? && ParseRange(parts[0]).value.1 < chunks {
        var r := ParseRange(parts[0]).value;
        OneSpanHandles(q, r.0, r.1, k);
        ReportHandles(PushTo(q, r.0, r.1), parts[1..], chunks, k);
        ReportGrows(PushTo(q, r.0, r.1), parts[1..], chunks);
      }
    }
  }

  lemma OneSpanHandles(q: Queue, start: nat, end: nat, k: nat)
    ensures start <= k <= end && !Blocked(q, start, end) ==> Handled(PushTo(q, start, end), k)
    ensures k in PushTo(q, start, end).queued ==> k in q.queued || start <= k <= end
    ensures Blocked(q, start, end) ==> Full(PushTo(q, start, end))
  {
    if Blocked(q, start, end) {
      BlockedIsFull(q, start, end);
    } else if start <= k <= end {
      PushToHandles(q, start, end, k);
    }
    if k in PushTo(q, start, end).queued { PushToAdds(q, start, end, k); }
  }

  // ----- taking and expiring -----

  /** The cooldown cache with room for one more entry: when it is full some entry goes. */
  function Evict(lastSent: map<nat, int>, victim: nat): map<nat, int> {
    if |lastSent| >= MAX_QUEUED_REPAIRS then lastSent - {victim} else lastSent
  }

  /** One round of the loop in `take_repairs`. */
  function TakeOne(q: Queue, now: int, victim: nat): Queue
    requires q.queue != []
  {
    Queue(q.queue[1..], q.queued - {q.queue[0]}, Evict(q.lastSent, victim)[q.queue[0] := now])
  }

  predicate ValidVictim(q: Queue, victim: nat) {
    |q.lastSent| >= MAX_QUEUED_REPAIRS ==> victim in q.lastSent
  }

  /** `last_sent.retain(now - sent_at < cooldown)` */
  function Expire(q: Queue, now: int, cooldown: nat): Queue {
    q.(lastSent := map k | k in q.lastSent && now - q.lastSent[k] < cooldown :: q.lastSent[k])
  }

  lemma TakeKeepsOk(q: Queue, now: int, victim: nat)
    requires QueueOk(q) && q.queue != [] && ValidVictim(q, victim)
    ensures QueueOk(TakeOne(q, now, victim))
  {
    var k, rest := q.queue[0], q.queue[1..];
    assert k in q.queued;
    forall j ensures j in q.queued - {k} <==> j in rest {
      assert j in q.queue <==> j == k || j in rest;
      if j in rest {
        var i :| 0 <= i < |rest| && rest[i] == j;
        assert q.queue[i + 1] == j;
      }
    }
    var kept := Evict(q.lastSent, victim);
    assert kept.Keys <= q.lastSent.Keys;
    assert |kept.Keys| < MAX_QUEUED_REPAIRS by {
      if |q.lastSent| >= MAX_QUEUED_REPAIRS {
        assert kept.Keys == q.lastSent.Keys - {victim};
      }
    }
    assert kept[k := now].Keys == kept.Keys + {k};
  }

  lemma ExpireKeepsOk(q: Queue, now: int, cooldown: nat)
    requires QueueOk(q)
    ensures QueueOk(Expire(q, now, cooldown))
  {
    var kept := Expire(q, now, cooldown).lastSent;
    assert kept.Keys <= q.lastSent.Keys;
    SubsetSize(kept.Keys, q.lastSent.Keys);
  }

  lemma SubsetSize(a: set<nat>, b: set<nat>)
    requires a <= b
    ensures |a| <= |b|
  {
    assert b == a + (b - a);
  }

  // ----- whole runs: how far apart two repairs of one chunk are -----

  /** What the sender does to the queue, under its lock, at a monotone clock. */
  datatype Op =
    | Report(parts: seq<string>, chunks: nat)
    | Forget(now: int)
    | Take(now: int, victim: nat)

  datatype Entry = Sent(k: nat, at: int) | Dropped(k: nat)

  /** The queue, everything it has sent or evicted, and the latest time read. */
  datatype History = History(q: Queue, log: seq<Entry>, clock: int)

  predicate OpOk(h: History, op: Op) {
    match op
    case Report(_, _) => true
    case Forget(now) => h.clock <= now
    case Take(now, victim) => h.clock <= now && h.q.queue != [] && ValidVictim(h.q, victim)
  }

  function Apply(h: History, op: Op, cooldown: nat): History
    requires OpOk(h, op)
  {
    match op
    case Report(parts, chunks) => h.(q := PushParts(h.q, parts, chunks).0)
    case Forget(now) => h.(q := Expire(h.q, now, cooldown), clock := now)
    case Take(now, victim) =>
      var dropped := if |h.q.lastSent| >= MAX_QUEUED_REPAIRS then [Dropped(victim)] else [];
      History(TakeOne(h.q, now, victim), h.log + dropped + [Sent(h.q.queue[0], now)], now)
  }

  /** The last time `k` was sent, unless its cooldown entry was evicted since. */
  function LastTake(log: seq<Entry>, k: nat): Option<int> {
    if log == [] then None
    else
      match log[|log| - 1]
      case Sent(j, at) => if j == k then Some(at) else LastTake(log[..|log| - 1], k)
      case Dropped(j) => if j == k then None else LastTake(log[..|log| - 1], k)
  }

  lemma LastTakeSnoc(log: seq<Entry>, e: Entry, k: nat)
    ensures LastTake(log + [e], k) ==
            if e.k == k then (if e.Sent? then Some(e.at) else None) else LastTake(log, k)
  {
    assert (log + [e])[..|log|] == log;
  }

  /** Repairs of one chunk are at least the cooldown apart, unless it was evicted in between. */
  ghost predicate Spaced(log: seq<Entry>, cooldown: nat) {
    forall i :: 0 <= i < |log| && log[i].Sent? ==>
      match LastTake(log[..i], log[i].k)
      case None => true
      case Some(before) => before + cooldown <= log[i].at
  }

  /** The cooldown cache remembers exactly the recent, unevicted repairs. */
  ghost predicate Remembered(h: History, cooldown: nat) {
    forall k: nat ::
      match LastTake(h.log, k)
      case None => k !in h.q.lastSent
      case Some(at) => if k in h.q.lastSent then h.q.lastSent[k] == at else at + cooldown <= h.clock
  }

  ghost predicate HistoryOk(h: History, cooldown: nat) {
    QueueOk(h.q) && Spaced(h.log, cooldown) && Remembered(h, cooldown)
  }

  lemma SpacedSnoc(log: seq<Entry>, e: Entry, cooldown: nat)
    requires Spaced(log, cooldown)
    requires e.Sent? ==> match LastTake(log, e.k) case None => true case Some(before) => before + cooldown <= e.at
    ensures Spaced(log + [e], cooldown)
  {
    var all := log + [e];
    forall i | 0 <= i < |all| && all[i].Sent?
      ensures match LastTake(all[..i], all[i].k)
              case None => true
              case Some(before) => before + cooldown <= all[i].at
    {
      if i < |log| {
        assert all[..i] == log[..i];
      } else {
        assert all[..i] == log;
      }
    }
  }

  lemma DropKeepsRemembered(h: History, victim: nat, cooldown: nat)
    requires HistoryOk(h, cooldown)
    ensures HistoryOk(h.(q := h.q.(lastSent := h.q.lastSent - {victim}), log := h.log + [Dropped(victim)]), cooldown)
  {
    var h' := h.(q := h.q.(lastSent := h.q.lastSent - {victim}), log := h.log + [Dropped(victim)]);
    SpacedSnoc(h.log, Dropped(victim), cooldown);
    SubsetSize(h'.q.lastSent.Keys, h.q.lastSent.Keys);
    forall k: nat
      ensures match LastTake(h'.log, k)
              case None => k !in h'.q.lastSent
              case Some(at) => if k in h'.q.lastSent then h'.q.lastSent[k] == at else at + cooldown <= h'.clock
    {
      LastTakeSnoc(h.log, Dropped(victim), k);
    }
  }

  lemma SendKeepsRemembered(h: History, now: int, cooldown: nat)
    requires HistoryOk(h, cooldown) && h.clock <= now && h.q.queue != [] && |h.q.lastSent| < MAX_QUEUED_REPAIRS
    ensures HistoryOk(History(TakeOne(h.q, now, 0), h.log + [Sent(h.q.queue[0], now)], now), cooldown)
  {
    var e := Sent(h.q.queue[0], now);
    var h' := History(TakeOne(h.q, now, 0), h.log + [e], now);
    TakeKeepsOk(h.q, now, 0);
    assert e.k in h.q.queued && e.k !in h.q.lastSent;
    SpacedSnoc(h.log, e, cooldown);
    forall k: nat
      ensures match LastTake(h'.log, k)
              case None => k !in h'.q.lastSent
              case Some(at) => if k in h'.q.lastSent then h'.q.lastSent[k] == at else at + cooldown <= h'.clock
    {
      LastTakeSnoc(h.log, e, k);
    }
  }

  lemma OpKeepsHistory(h: History, op: Op, cooldown: nat)
    requires HistoryOk(h, cooldown) && OpOk(h, op)
    ensures HistoryOk(Apply(h, op, cooldown), cooldown)
  {
    match op
    case Report(parts, chunks) => ReportKeepsOk(h.q, parts, chunks); ReportGrows(h.q, parts, chunks);
    case Forget(now) => ExpireKeepsOk(h.q, now, cooldown);
    case Take(now, victim) =>
      if |h.q.lastSent| >= MAX_QUEUED_REPAIRS {
        DropKeepsRemembered(h, victim, cooldown);
        var dropped := h.(q := h.q.(lastSent := h.q.lastSent - {victim}), log := h.log + [Dropped(victim)]);
        assert dropped.q.lastSent.Keys == h.q.lastSent.Keys - {victim};
        SendKeepsRemembered(dropped, now, cooldown);
      } else {
        assert h.log + [] + [Sent(h.q.queue[0], now)] == h.log + [Sent(h.q.queue[0], now)];
        SendKeepsRemembered(h, now, cooldown);
      }
  }

  ghost predicate RunsTo(h: History, ops: seq<Op>, cooldown: nat, end: History)
    decreases |ops|
  {
    if ops == [] then h == end
    else OpOk(h, ops[0]) && RunsTo(Apply(h, ops[0], cooldown), ops[1..], cooldown, end)
  }

  lemma {:induction false} OpsKeepHistory(h: History, ops: seq<Op>, cooldown: nat, end: History)
    requires HistoryOk(h, cooldown) && RunsTo(h, ops, cooldown, end)
    ensures HistoryOk(end, cooldown)
    decreases |ops|
  {
    if ops != [] {
      OpKeepsHistory(h, ops[0], cooldown);
      OpsKeepHistory(Apply(h, ops[0], cooldown), ops[1..], cooldown, end);
    }
  }

  lemma {:induction false} RunsToNext(h: History, ops: seq<Op>, cooldown: nat, m: History, op: Op)
    requires RunsTo(h, ops, cooldown, m) && OpOk(m, op)
    ensures RunsTo(h, ops + [op], cooldown, Apply(m, op, cooldown))
    decreases |ops|
  {
    if ops == [] {
      assert [] + [op] == [op] && [op][1..] == [];
    } else {
      RunsToNext(Apply(h, ops[0], cooldown), ops[1..], cooldown, m, op);
      assert (ops + [op])[1..] == ops[1..] + [op];
    }
  }

  lemma MoveFirst(taken: seq<nat>, queue: seq<nat>)
    requires queue != []
    ensures taken + [queue[0]] + queue[1..] == taken + queue
  {
  }

  /** Only takes, at the given times in order. */
  ghost predicate TakesAt(ops: seq<Op>, times: seq<int>) {
    |ops| <= |times| && forall i :: 0 <= i < |ops| ==> ops[i].Take? && ops[i].now == times[i]
  }

  lemma TakesNext(ops: seq<Op>, times: seq<int>, victim: nat)
    requires TakesAt(ops, times) && |ops| < |times|
    ensures TakesAt(ops + [Take(times[|ops|], victim)], times)
  {
  }

  /** The chunks taken so far, by which operations, and what they left of the queue. */
  ghost predicate Takes(before: History, times: seq<int>, taken: seq<nat>, ops: seq<Op>, cooldown: nat,
                        reached: History)
  {
    && |ops| == |taken| && TakesAt(ops, times) && RunsTo(before, ops, cooldown, reached)
    && taken + reached.q.queue == before.q.queue
  }

  lemma TakeMore(before: History, times: seq<int>, taken: seq<nat>, ops: seq<Op>, cooldown: nat, reached: History,
                 victim: nat)
    requires Takes(before, times, taken, ops, cooldown, reached)
    requires |ops| < |times| && reached.q.queue != [] && OpOk(reached, Take(times[|ops|], victim))
    ensures Takes(before, times, taken + [reached.q.queue[0]], ops + [Take(times[|ops|], victim)], cooldown,
                  Apply(reached, Take(times[|ops|], victim), cooldown))
  {
    RunsToNext(before, ops, cooldown, reached, Take(times[|ops|], victim));
    TakesNext(ops, times, victim);
    MoveFirst(taken, reached.q.queue);
  }

  /** After any sequence of operations the queue is well formed and its repairs are spaced. */
  lemma RepairQueueInvariant(ops: seq<Op>, cooldown: nat, start: int, end: History)
    requires RunsTo(History(Queue([], {}, map[]), [], start), ops, cooldown, end)
    ensures QueueOk(end.q) && Spaced(end.log, cooldown)
  {
    OpsKeepHistory(History(Queue([], {}, map[]), [], start), ops, cooldown, end);
  }

  ghost predicate InObject(h: History, chunks: nat) {
    && (forall k :: k in h.q.queued ==> k < chunks)
    && (forall i :: 0 <= i < |h.log| && h.log[i].Sent? ==> h.log[i].k < chunks)
  }

  lemma OpStaysInObject(h: History, op: Op, cooldown: nat, chunks: nat)
    requires HistoryOk(h, cooldown) && OpOk(h, op) && InObject(h, chunks) && (op.Report? ==> op.chunks == chunks)
    ensures InObject(Apply(h, op, cooldown), chunks)
  {
    match op
    case Report(parts, _) =>
      forall k | k in PushParts(h.q, parts, chunks).0.queued ensures k < chunks {
        ReportHandles(h.q, parts, chunks, k);
      }
    case Forget(_) =>
    case Take(_, _) =>
      assert h.q.queue[0] in h.q.queue;
  }

  /** No sequence of reports makes the sender take, and so repair, a chunk the object does not have. */
  lemma {:induction false} RepairsStayInObject(h: History, ops: seq<Op>, cooldown: nat, end: History, chunks: nat)
    requires HistoryOk(h, cooldown) && RunsTo(h, ops, cooldown, end) && InObject(h, chunks)
    requires forall i :: 0 <= i < |ops| && ops[i].Report? ==> ops[i].chunks == chunks
    ensures InObject(end, chunks)
    decreases |ops|
  {
    if ops != [] {
      OpStaysInObject(h, ops[0], cooldown, chunks);
      OpKeepsHistory(h, ops[0], cooldown);
      RepairsStayInObject(Apply(h, ops[0], cooldown), ops[1..], cooldown, end, chunks);
    }
  }

  // ----- the class -----

  class RepairQueue {
    var queue: seq<nat>
    var queued: set<nat>
    var lastSent: map<nat, int>
    const cooldown: nat
    ghost var log: seq<Entry>
    ghost var clock: int

    ghost predicate Valid()
      reads this
    {
      HistoryOk(Value(), cooldown)
    }

    ghost function Value(): History
      reads this
    {
      History(Queue(queue, queued, lastSent), log, clock)
    }

    constructor (cooldown: nat, ghost now: int)
      ensures Valid() && queue == [] && lastSent == map[] && this.cooldown == cooldown && clock == now
    {
      this.cooldown := cooldown;
      queue, queued, lastSent := [], {}, map[];
      log, clock := [], now;
    }

    /** `enqueue_repairs` */
    method EnqueueRepairs(ranges: string, chunks: nat) returns (ok: bool)
      requires Valid()
      modifies this
      ensures Valid()
      ensures Value() == Apply(old(Value()), Report(Split(ranges, ','), chunks), cooldown)
      ensures ok == PushParts(old(Value()).q, Split(ranges, ','), chunks).1
    {
      var parts := Split(ranges, ',');
      ghost var before := Value();
      var i := 0;
      while i < |parts|
        invariant 0 <= i <= |parts|
        invariant QueueOk(Queue(queue, queued, lastSent)) && log == before.log && clock == before.clock
        invariant PushParts(before.q, parts, chunks) == PushParts(Queue(queue, queued, lastSent), parts[i..], chunks)
      {
        assert parts[i..][1..] == parts[i + 1..];
        if parts[i] != "" {
          var parsed := ParseRange(parts[i]);
          if parsed.Err? || parsed.value.1 >= chunks {
            OpKeepsHistory(before, Report(parts, chunks), cooldown);
            return false;
          }
          var full := EnqueueSpan(parsed.value.0, parsed.value.1);
          if full {
            OpKeepsHistory(before, Report(parts, chunks), cooldown);
            return true;
          }
        }
        i := i + 1;
      }
      OpKeepsHistory(before, Report(parts, chunks), cooldown);
      return true;
    }

    method EnqueueSpan(start: nat, end: nat) returns (full: bool)
      requires QueueOk(Queue(queue, queued, lastSent))
      modifies this`queue, this`queued
      ensures QueueOk(Queue(queue, queued, lastSent))
      ensures (Queue(queue, queued, lastSent), full) == PushSpan(old(Queue(queue, queued, lastSent)), start, end)
    {
      ghost var before := Queue(queue, queued, lastSent);
      full := PushLoop(start, end);
      PushToKeepsOk(before, start, end);
    }

    method PushLoop(start: nat, end: nat) returns (full: bool)
      modifies this`queue, this`queued
      ensures (Queue(queue, queued, lastSent), full) == PushSpan(old(Queue(queue, queued, lastSent)), start, end)
    {
      ghost var before := Queue(queue, queued, lastSent);
      var sequence := start;
      while sequence <= end
        invariant PushSpan(before, start, end) == PushSpan(Queue(queue, queued, lastSent), sequence, end)
        decreases end + 1 - sequence
      {
        if |queued| >= MAX_QUEUED_REPAIRS {
          return true;
        }
        if sequence !in lastSent && sequence !in queued {
          queued := queued + {sequence};
          queue := queue + [sequence];
        }
        sequence := sequence + 1;
      }
      return false;
    }

    /** The expiry at the head of `read_feedback`'s report handling. */
    method RetainRecent(now: int)
      requires Valid() && clock <= now
      modifies this
      ensures Valid() && Value() == Apply(old(Value()), Forget(now), cooldown)
    {
      OpKeepsHistory(Value(), Forget(now), cooldown);
      lastSent := map k | k in lastSent && now - lastSent[k] < cooldown :: lastSent[k];
      clock := now;
    }

    /**
      `take_repairs`: up to `|times|` chunks from the front, each stamped with the time it is taken. `ops`
      are the takes performed, with whatever entries a full cache gave up.
    */
    method TakeRepairs(times: seq<int>) returns (result: seq<nat>, ghost ops: seq<Op>)
      requires Valid() && (times != [] ==> clock <= times[0])
      requires forall i, j :: 0 <= i < j < |times| ==> times[i] <= times[j]
      modifies this
      ensures Valid()
      ensures |result| == if |times| < |old(queue)| then |times| else |old(queue)|
      ensures result + queue == old(queue)
      ensures RunsTo(old(Value()), ops, cooldown, Value())
      ensures |ops| == |result| && TakesAt(ops, times)
    {
      ghost var before := Value();
      result, ops := [], [];
      var i := 0;
      while i < |times|
        invariant 0 <= i <= |times| && Valid() && (i < |times| ==> clock <= times[i])
        invariant Takes(before, times, result, ops, cooldown, Value()) && |result| == i
      {
        if queue == [] {
          return;
        }
        ghost var reached := Value();
        var sequence, oldest := TakeFront(times[i]);
        TakeMore(before, times, result, ops, cooldown, reached, oldest);
        ops := ops + [Take(times[i], oldest)];
        result := result + [sequence];
        i := i + 1;
      }
    }

    method TakeFront(now: int) returns (sequence: nat, ghost victim: nat)
      requires Valid() && queue != [] && clock <= now
      modifies this
      ensures Valid() && clock == now && sequence == old(queue)[0]
      ensures OpOk(old(Value()), Take(now, victim)) && Value() == Apply(old(Value()), Take(now, victim), cooldown)
    {
      ghost var before := Value();
      var oldest: nat := 0;
      if |lastSent| >= MAX_QUEUED_REPAIRS {
        oldest := AnyKey(lastSent);
        lastSent := lastSent - {oldest};
        log := log + [Dropped(oldest)];
      }
      victim := oldest;
      sequence := queue[0];
      queue := queue[1..];
      queued := queued - {sequence};
      lastSent := lastSent[sequence := now];
      log := log + [Sent(sequence, now)];
      clock := now;
      assert before.log + [] == before.log;
      assert Value() == Apply(before, Take(now, oldest), cooldown);
      OpKeepsHistory(before, Take(now, oldest), cooldown);
    }
  }

  /** `keys().next()`: some key, in no particular order */
  method AnyKey(m: map<nat, int>) returns (k: nat)
    requires |m| > 0
    ensures k in m
  {
    assert m.Keys != {};
    k :| k in m;
  }
}
