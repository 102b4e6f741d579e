/**
  How far a report may look. A chunk is only called missing once the frontier has been past it for the
  grace period, so the receiver keeps a history of frontiers and prunes what no grace can reach any more.
  Times are whole nanoseconds since the earliest instant the clock can represent.
*/
module Frontiers {
  import opened Outcomes

  datatype Sample = Sample(seen: nat, value: nat)

  /** `checked_sub(..).unwrap_or(now)` */
  function Before(now: nat, d: nat): nat {
    if d <= now then now - d else now
  }

  /** The value of the latest sample not after `cutoff`, or zero. */
  function Search(samples: seq<Sample>, cutoff: nat): nat {
    if samples == [] then 0
    else if samples[|samples| - 1].seen <= cutoff then samples[|samples| - 1].value
    else Search(samples[..|samples| - 1], cutoff)
  }

  lemma {:induction false} SearchFindsLatest(samples: seq<Sample>, cutoff: nat)
    ensures (forall i :: 0 <= i < |samples| ==> samples[i].seen > cutoff) ==> Search(samples, cutoff) == 0
    ensures (exists i :: 0 <= i < |samples| && samples[i].seen <= cutoff) ==>
      exists i :: 0 <= i < |samples| && samples[i].seen <= cutoff && samples[i].value == Search(samples, cutoff)
                  && forall j :: i < j < |samples| ==> samples[j].seen > cutoff
  {
    if samples != [] && samples[|samples| - 1].seen > cutoff {
      var front := samples[..|samples| - 1];
      SearchFindsLatest(front, cutoff);
      if exists i :: 0 <= i < |samples| && samples[i].seen <= cutoff {
        var k :| 0 <= k < |samples| && samples[k].seen <= cutoff;
        assert front[k] == samples[k];
        var i :| 0 <= i < |front| && front[i].seen <= cutoff && front[i].value == Search(front, cutoff)
                 && forall j :: i < j < |front| ==> front[j].seen > cutoff;
        assert samples[i] == front[i] && forall j :: i < j < |front| ==> samples[j] == front[j];
      }
    }
  }

  /** A new value is appended, a repeated one is not. */
  function Push(entries: seq<Sample>, now: nat, current: nat): seq<Sample> {
    if entries == [] || entries[|entries| - 1].value != current then entries + [Sample(now, current)] else entries
  }

  /** Entries go from the front while the second is already old enough. */
  function Prune(entries: seq<Sample>, cutoff: nat): seq<Sample> {
    if |entries| > 1 && entries[1].seen <= cutoff then Prune(entries[1..], cutoff) else entries
  }

  datatype Call = Call(now: nat, current: nat, grace: nat)

  /** `mature_frontier`: the history it leaves and the frontier it returns. */
  function Mature(entries: seq<Sample>, c: Call, retention: nat): (seq<Sample>, nat) {
    var kept := Prune(Push(entries, c.now, c.current), Before(c.now, retention));
    (kept, Search(kept, Before(c.now, c.grace)))
  }

  // ----- whole runs -----

  /** Calls at a monotone clock, no grace longer than the retention. */
  predicate Orderly(calls: seq<Call>, from: nat, retention: nat) {
    && (forall i :: 0 <= i < |calls| ==> from <= calls[i].now && calls[i].grace <= retention)
    && (forall i, j :: 0 <= i < j < |calls| ==> calls[i].now <= calls[j].now)
  }

  /** The pruned history after some calls. */
  function Kept(first: Sample, calls: seq<Call>, retention: nat): seq<Sample> {
    if calls == [] then [first]
    else Mature(Kept(first, calls[..|calls| - 1], retention), calls[|calls| - 1], retention).0
  }

  /** Everything that was ever sampled. */
  function Sampled(first: Sample, calls: seq<Call>): seq<Sample> {
    if calls == [] then [first]
    else Sampled(first, calls[..|calls| - 1]) + [Sample(calls[|calls| - 1].now, calls[|calls| - 1].current)]
  }

  /** The last call answers as a search over everything ever sampled would. */
  predicate LastAgrees(first: Sample, calls: seq<Call>, retention: nat)
    requires calls != []
  {
    var c := calls[|calls| - 1];
    Mature(Kept(first, calls[..|calls| - 1], retention), c, retention).1
      == Search(Sampled(first, calls), Before(c.now, c.grace))
  }

  /** Nothing is dated after `now`, or before the first sample. */
  predicate Dated(entries: seq<Sample>, start: nat, now: nat) {
    forall i :: 0 <= i < |entries| ==> start <= entries[i].seen <= now
  }

  /** The earliest time a later call may ask about. */
  function Horizon(now: nat, retention: nat): nat {
    if retention <= now then now - retention else 0
  }

  ghost predicate Same(a: seq<Sample>, b: seq<Sample>, horizon: nat) {
    forall c: nat :: c >= horizon ==> Search(a, c) == Search(b, c)
  }

  lemma PushKeepsSame(entries: seq<Sample>, samples: seq<Sample>, horizon: nat, start: nat, now: nat, current: nat)
    requires Same(entries, samples, horizon) && Dated(entries, start, now) && start <= now
    ensures Same(Push(entries, now, current), samples + [Sample(now, current)], horizon)
    ensures Dated(Push(entries, now, current), start, now)
  {
    var pushed, all := Push(entries, now, current), samples + [Sample(now, current)];
    assert all[..|samples|] == samples;
    if pushed != entries { assert pushed[..|entries|] == entries; }
  }

  /** Dropping the first entry is invisible to any search that reaches the second, or does not reach the first. */
  lemma {:induction false} DropFirst(entries: seq<Sample>, c: nat)
    requires |entries| > 1 && (entries[1].seen <= c || entries[0].seen > c)
    ensures Search(entries[1..], c) == Search(entries, c)
    decreases |entries|
  {
    var n := |entries| - 1;
    if entries[n].seen > c {
      if n == 1 {
        assert entries[..1] == [entries[0]] && entries[1..][..0] == [];
      } else {
        DropFirst(entries[..n], c);
        assert entries[..n][1..] == entries[1..][..n - 1];
      }
    }
  }

  lemma {:induction false} PruneIsInvisible(entries: seq<Sample>, cutoff: nat, c: nat, start: nat, now: nat)
    requires Dated(entries, start, now) && (cutoff <= c || cutoff <= start)
    ensures Search(Prune(entries, cutoff), c) == Search(entries, c) && Dated(Prune(entries, cutoff), start, now)
    decreases |entries|
  {
    if |entries| > 1 && entries[1].seen <= cutoff {
      DropFirst(entries, c);
      PruneIsInvisible(entries[1..], cutoff, c, start, now);
    }
  }

  /** One call keeps the pruned and the full history indistinguishable to every later question. */
  lemma MatureKeepsSame(entries: seq<Sample>, samples: seq<Sample>, c: Call, retention: nat, start: nat, horizon: nat)
    requires Same(entries, samples, horizon) && Dated(entries, start, c.now) && start <= c.now
    requires retention <= start + 1 && horizon <= Horizon(c.now, retention)
    ensures Same(Mature(entries, c, retention).0, samples + [Sample(c.now, c.current)], Horizon(c.now, retention))
    ensures Dated(Mature(entries, c, retention).0, start, c.now)
  {
    var pushed, cutoff := Push(entries, c.now, c.current), Before(c.now, retention);
    PushKeepsSame(entries, samples, horizon, start, c.now, c.current);
    PruneIsInvisible(pushed, cutoff, c.now, start, c.now);
    forall t: nat | t >= Horizon(c.now, retention)
      ensures Search(Prune(pushed, cutoff), t) == Search(samples + [Sample(c.now, c.current)], t)
    {
      PruneIsInvisible(pushed, cutoff, t, start, c.now);
    }
  }

  lemma {:induction false} RunKeepsSame(first: Sample, calls: seq<Call>, retention: nat)
    requires Orderly(calls, first.seen, retention) && retention <= first.seen + 1
    ensures var now := if calls == [] then first.seen else calls[|calls| - 1].now;
            Same(Kept(first, calls, retention), Sampled(first, calls), Horizon(now, retention))
            && Dated(Kept(first, calls, retention), first.seen, now)
  {
    if calls != [] {
      var front, c := calls[..|calls| - 1], calls[|calls| - 1];
      RunKeepsSame(first, front, retention);
      var now := if front == [] then first.seen else front[|front| - 1].now;
      MatureKeepsSame(Kept(first, front, retention), Sampled(first, front), c, retention, first.seen,
        Horizon(now, retention));
    }
  }

  /**
    Pruning loses no answer: for a clock that has run for the retention when the history starts, every
    call, whatever graces came before, finds the latest sampled frontier at least its grace old.
  */
  lemma PruningIsInvisible(first: Sample, calls: seq<Call>, retention: nat)
    requires calls != [] && Orderly(calls, first.seen, retention) && retention <= first.seen + 1
    ensures LastAgrees(first, calls, retention)
  {
    RunKeepsSame(first, calls, retention);
    var c := calls[|calls| - 1];
    assert Before(c.now, c.grace) >= Horizon(c.now, retention);
  }

  ghost predicate AllRunsAgree(start: nat, retention: nat) {
    forall value: nat, calls: seq<Call> ::
      calls != [] && Orderly(calls, start, retention) ==> LastAgrees(Sample(start, value), calls, retention)
  }

  /** The exact condition: earlier than that, the clock fallback prunes an entry that is still needed. */
  lemma PruningIsInvisibleIff(start: nat, retention: nat)
    ensures AllRunsAgree(start, retention) <==> retention <= start + 1
  {
    if retention <= start + 1 {
      forall value: nat, calls: seq<Call> | calls != [] && Orderly(calls, start, retention)
        ensures LastAgrees(Sample(start, value), calls, retention)
      {
        PruningIsInvisible(Sample(start, value), calls, retention);
      }
    } else {
      EarlyPruneForgets(start, retention);
    }
  }

  /** A frontier seen at `start` is forgotten by a report one tick later, and missed when its grace is over. */
  lemma EarlyPruneForgets(start: nat, retention: nat)
    requires start + 1 < retention
    ensures var calls := [Call(start + 1, 2, 0), Call(start + retention, 2, retention)];
            Orderly(calls, start, retention) && !LastAgrees(Sample(start, 1), calls, retention)
  {
    var first, second := Sample(start, 1), Sample(start + 1, 2);
    var a, b := Call(start + 1, 2, 0), Call(start + retention, 2, retention);
    var calls := [a, b];
    assert calls[..1] == [a] && [a][..0] == [];
    assert Push([first], a.now, a.current) == [first, second];
    assert [first, second][1..] == [second];
    assert Prune([second], a.now) == [second];
    assert Prune([first, second], a.now) == [second];
    assert Kept(first, [a], retention) == [second] by { assert Kept(first, [], retention) == [first]; }
    assert [second][..0] == [] && Search([second], start) == 0;
    assert Mature([second], b, retention).1 == 0;
    var all := [first, second, Sample(b.now, 2)];
    assert Sampled(first, []) == [first] && Sampled(first, [a]) == [first, second] && Sampled(first, calls) == all;
    assert all[..2] == [first, second] && [first, second][..1] == [first];
    assert Search([first], start) == 1 && Search([first, second], start) == 1 && Search(all, start) == 1;
  }

  // ----- what is kept -----

  /** No value twice in a row, and at most one entry that the retention no longer needs. */
  ghost predicate Lean(entries: seq<Sample>, cutoff: nat) {
    && (forall i :: 1 <= i < |entries| ==> entries[i - 1].value != entries[i].value)
    && (|entries| > 1 ==> entries[1].seen > cutoff)
  }

  ghost predicate Changing(entries: seq<Sample>) {
    forall i :: 1 <= i < |entries| ==> entries[i - 1].value != entries[i].value
  }

  lemma {:induction false} PruneMakesLean(entries: seq<Sample>, cutoff: nat)
    requires entries != [] && Changing(entries)
    ensures Prune(entries, cutoff) != [] && Lean(Prune(entries, cutoff), cutoff)
    ensures Prune(entries, cutoff)[|Prune(entries, cutoff)| - 1] == entries[|entries| - 1]
    decreases |entries|
  {
    if |entries| > 1 && entries[1].seen <= cutoff {
      PruneMakesLean(entries[1..], cutoff);
    }
  }

  lemma PushKeepsChanging(entries: seq<Sample>, now: nat, current: nat)
    requires Changing(entries)
    ensures var pushed := Push(entries, now, current);
            pushed != [] && Changing(pushed) && pushed[|pushed| - 1].value == current
  {
  }

  /** What one call leaves: it ends with the current frontier and is pruned. */
  lemma MatureIsLean(entries: seq<Sample>, c: Call, retention: nat)
    requires Changing(entries)
    ensures var kept := Mature(entries, c, retention).0;
            && kept != [] && kept[|kept| - 1].value == c.current
            && Lean(kept, if retention <= c.now then c.now - retention else c.now)
  {
    PushKeepsChanging(entries, c.now, c.current);
    PruneMakesLean(Push(entries, c.now, c.current), Before(c.now, retention));
  }

  lemma {:induction false} HistoryChanges(first: Sample, calls: seq<Call>, retention: nat)
    ensures Changing(Kept(first, calls, retention))
  {
    if calls != [] {
      HistoryChanges(first, calls[..|calls| - 1], retention);
      MatureIsLean(Kept(first, calls[..|calls| - 1], retention), calls[|calls| - 1], retention);
    }
  }

  /** After every call the history ends with the current frontier, changes from entry to entry, and is pruned. */
  lemma HistoryIsLean(first: Sample, calls: seq<Call>, retention: nat)
    requires calls != []
    ensures var kept, c := Kept(first, calls, retention), calls[|calls| - 1];
            && kept != [] && kept[|kept| - 1].value == c.current
            && Lean(kept, if retention <= c.now then c.now - retention else c.now)
  {
    HistoryChanges(first, calls[..|calls| - 1], retention);
    MatureIsLean(Kept(first, calls[..|calls| - 1], retention), calls[|calls| - 1], retention);
  }

  lemma CallNext(first: Sample, calls: seq<Call>, c: Call, retention: nat)
    requires Orderly(calls, first.seen, retention) && first.seen <= c.now && c.grace <= retention
    requires calls != [] ==> calls[|calls| - 1].now <= c.now
    ensures Orderly(calls + [c], first.seen, retention)
    ensures Kept(first, calls + [c], retention) == Mature(Kept(first, calls, retention), c, retention).0
    ensures retention <= first.seen + 1 ==>
      Mature(Kept(first, calls, retention), c, retention).1
        == Search(Sampled(first, calls + [c]), Before(c.now, c.grace))
  {
    var more := calls + [c];
    assert more[..|calls|] == calls;
    if retention <= first.seen + 1 { PruningIsInvisible(first, more, retention); }
  }

  // ----- the history as the receiver keeps it -----

  class FrontierHistory {
    var entries: seq<Sample>
    const retention: nat
    ghost const first: Sample
    ghost var calls: seq<Call>

    ghost predicate Valid()
      reads this
    {
      && Orderly(calls, first.seen, retention)
      && entries == Kept(first, calls, retention)
    }

    constructor (now: nat, value: nat, retention: nat)
      ensures Valid() && calls == [] && first == Sample(now, value) && this.retention == retention
    {
      entries := [Sample(now, value)];
      this.retention := retention;
      first := Sample(now, value);
      calls := [];
    }

    method MatureFrontier(now: nat, current: nat, grace: nat) returns (frontier: nat)
      requires Valid() && grace <= retention && first.seen <= now
      requires calls != [] ==> calls[|calls| - 1].now <= now
      modifies this
      ensures Valid() && calls == old(calls) + [Call(now, current, grace)]
      ensures frontier == Mature(old(entries), Call(now, current, grace), retention).1
      ensures retention <= first.seen + 1 ==> frontier == Search(Sampled(first, calls), Before(now, grace))
    {
      ghost var before := calls;
      frontier := PushPruneSearch(now, current, grace);
      CallNext(first, before, Call(now, current, grace), retention);
      calls := calls + [Call(now, current, grace)];
    }

    /**
      How far the next report looks: over the whole object once END is as old as the grace, else up to the frontier of
      that time. There is no grace before any reordering has been seen.
    */
    method ReportEnd(now: nat, current: nat, reordering: bool, endedAt: Option<nat>, chunks: nat) returns (end: nat)
      requires Valid() && first.seen <= now && (endedAt.Some? ==> endedAt.value <= now)
      requires calls != [] ==> calls[|calls| - 1].now <= now
      modifies this
      ensures Valid() && calls == old(calls) + [Call(now, current, if reordering then retention else 0)]
      ensures endedAt.Some? && (reordering ==> now >= endedAt.value + retention) ==> end == chunks
      ensures endedAt == None || (reordering && now < endedAt.value + retention) ==> retention <= first.seen + 1 ==>
                end == Search(Sampled(first, calls), if reordering then Before(now, retention) else now)
    {
      var grace := if reordering then retention else 0;
      var mature := MatureFrontier(now, current, grace);
      end := if endedAt.Some? && now - endedAt.value >= grace then chunks else mature;
    }

    method PushPruneSearch(now: nat, current: nat, grace: nat) returns (frontier: nat)
      modifies this`entries
      ensures (entries, frontier) == Mature(old(entries), Call(now, current, grace), retention)
    {
      if entries == [] || entries[|entries| - 1].value != current {
        entries := entries + [Sample(now, current)];
      }
      var cutoff, retentionCutoff := Before(now, grace), Before(now, retention);
      ghost var pushed := entries;
      while |entries| > 1 && entries[1].seen <= retentionCutoff
        invariant Prune(entries, retentionCutoff) == Prune(pushed, retentionCutoff)
        decreases |entries|
      {
        entries := entries[1..];
      }
      frontier := FindBack(entries, cutoff);
    }
  }

  /** `iter().rev().find(..)` */
  method FindBack(entries: seq<Sample>, cutoff: nat) returns (value: nat)
    ensures value == Search(entries, cutoff)
  {
    var i := |entries|;
    assert entries[..i] == entries;
    while i > 0
      invariant 0 <= i <= |entries| && Search(entries, cutoff) == Search(entries[..i], cutoff)
    {
      assert entries[..i][..i - 1] == entries[..i - 1];
      if entries[i - 1].seen <= cutoff {
        return entries[i - 1].value;
      }
      i := i - 1;
    }
    return 0;
  }
}
