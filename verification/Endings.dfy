/**
  The sender's half of completion. What it reads comes through the authenticated channel, so the flag it
  acts on was set by a COMPLETE the receiver wrote.
*/
module Endings {
  import opened Outcomes
  import opened Text
  import opened Bitmaps
  import opened Layouts
  import opened Receivers
  import opened Reports
  import opened Transfers
  import opened Handshakes
  import opened Feedback
  import opened Channels

  /** The lines the reader gets, each with the time it is handled. */
  function Timed(lines: seq<string>, times: seq<int>): (timed: seq<(string, int)>)
    requires |times| == |lines|
    ensures |timed| == |lines| && forall i :: 0 <= i < |lines| ==> timed[i].0 == lines[i]
  {
    seq(|lines|, i requires 0 <= i < |lines| => (lines[i], times[i]))
  }

  lemma PrefixElement(all: seq<string>, n: nat, part: seq<string>, i: nat)
    requires n <= |all| && part <= all[n..] && i < |part|
    ensures part[i] in all
  {
    assert part[i] == all[n..][i] == all[n + i];
  }

  /** If the feedback reader finishes on what the channel gave it, the peer sent COMPLETE. */
  lemma FinishedReaderWasTold(k: Link, sent: Sent, stream: string, n: nat, s: Shared, times: seq<int>, chunks: nat,
                              cooldown: nat)
    requires ValidLink(k) && NoForgery(k, sent, stream) && n <= |sent(k.direction)|
    requires |times| == |Received(k, stream, n)|
    requires ReadFeedback(s, Timed(Received(k, stream, n), times), chunks, cooldown).Ok?
    ensures "COMPLETE" in sent(k.direction)
  {
    var lines := Received(k, stream, n);
    ReceivedIsPrefix(k, sent, stream, n);
    var i := CompleteNeedsItsLine(s, Timed(lines, times), chunks, cooldown);
    PrefixElement(sent(k.direction), n, lines, i);
  }

  /** The same for a sender that is told at the start that the object is already there. */
  lemma AcceptedCompletionWasTold(k: Link, sent: Sent, stream: string, l: Layout, interval: nat)
    requires ValidLink(k) && NoForgery(k, sent, stream)
    requires Accepted(Received(k, stream, 0), l, interval).Ok?
             && Accepted(Received(k, stream, 0), l, interval).value.0.complete
    ensures "COMPLETE" in sent(k.direction)
  {
    var lines := Received(k, stream, 0);
    ReceivedIsPrefix(k, sent, stream, 0);
    var i := if "M " <= lines[0] then 1 else 0;
    CompletionIsALine(lines, l, interval);
    PrefixElement(sent(k.direction), 0, lines, i);
  }

  lemma CompletionIsALine(lines: seq<string>, l: Layout, interval: nat)
    requires Accepted(lines, l, interval).Ok? && Accepted(lines, l, interval).value.0.complete
    ensures var i := if "M " <= lines[0] then 1 else 0;
            i < |lines| && lines[i] == "COMPLETE"
  {
  }

  /** A run in which COMPLETE is in the channel has installed the object. */
  lemma ToldMeansInstalled(digest: Digest, start: System, events: seq<Event>, t: System)
    requires CollisionFree(digest) && Initial(start) && start.offer.None? && Reaches(digest, start, events, t)
    requires "COMPLETE" in t.sent
    ensures t.offer.Some? && t.disk.dest == Some([t.offer.value.source])
  {
    RunSaysWhatItAnnounces(digest, start, events, t);
    CompletionImpliesInstalled(digest, start, events, t);
  }

  /**
    Whole-system safety, seen from the sender. In every run, whatever happens to the stream short of
    forgery: if the feedback reader finishes on what the channel delivers of the lines the receiver wrote in
    this session, the destination is durably the source.
  */
  lemma FinishedSenderMeansInstalled(digest: Digest, start: System, events: seq<Event>, t: System, k: Link, sent: Sent,
                                     stream: string, n: nat, s: Shared, times: seq<int>, chunks: nat, cooldown: nat)
    requires CollisionFree(digest) && Initial(start) && start.offer.None? && Reaches(digest, start, events, t)
    requires ValidLink(k) && k.direction == ServerToClient && sent(ServerToClient) == t.sent
    requires NoForgery(k, sent, stream) && n <= |t.sent|
    requires |times| == |Received(k, stream, n)|
    requires ReadFeedback(s, Timed(Received(k, stream, n), times), chunks, cooldown).Ok?
    ensures t.offer.Some? && t.disk.dest == Some([t.offer.value.source])
  {
    FinishedReaderWasTold(k, sent, stream, n, s, times, chunks, cooldown);
    ToldMeansInstalled(digest, start, events, t);
  }

  /** The same for a sender told at the start that the object is already there. */
  lemma AcceptedSenderMeansInstalled(digest: Digest, start: System, events: seq<Event>, t: System, k: Link, sent: Sent,
                                     stream: string, l: Layout, interval: nat)
    requires CollisionFree(digest) && Initial(start) && start.offer.None? && Reaches(digest, start, events, t)
    requires ValidLink(k) && k.direction == ServerToClient && sent(ServerToClient) == t.sent
    requires NoForgery(k, sent, stream)
    requires Accepted(Received(k, stream, 0), l, interval).Ok?
    requires Accepted(Received(k, stream, 0), l, interval).value.0.complete
    ensures t.offer.Some? && t.disk.dest == Some([t.offer.value.source])
  {
    AcceptedCompletionWasTold(k, sent, stream, l, interval);
    ToldMeansInstalled(digest, start, events, t);
  }

  // ----- what the receiver writes besides -----

  lemma JoinBegins(first: string, rest: seq<string>)
    requires rest != []
    ensures first + " " <= Join([first] + rest, ' ')
  {
    assert ([first] + rest)[1..] == rest;
  }

  lemma WordLineIsSpoken(index: nat, word: Word)
    ensures Spoken(WordLine(index, word))
  {
    JoinBegins("H", [Decimal(index), FixedHex(word, 16)]);
    assert ["H"] + [Decimal(index), FixedHex(word, 16)] == ["H", Decimal(index), FixedHex(word, 16)];
  }

  lemma {:induction false} WordLinesAreSpoken(bitmap: seq<Word>, from: nat)
    requires from <= |bitmap|
    ensures forall i :: 0 <= i < |WordLines(bitmap, from)| ==> Spoken(WordLines(bitmap, from)[i])
    decreases |bitmap| - from
  {
    if from < |bitmap| {
      WordLineIsSpoken(from, bitmap[from]);
      WordLinesAreSpoken(bitmap, from + 1);
    }
  }

  /** The lines of the resume dialogue and every report are lines a receiver may write in a run. */
  lemma ReceiverLinesAreSpoken(l: Layout, interval: nat, bitmap: seq<Word>, reusedBytes: nat, reusedChunks: nat,
                               t: Telemetry, ranges: seq<Range>)
    ensures var lines := Dialogue(l, interval, bitmap, reusedBytes, reusedChunks);
            forall i :: 0 <= i < |lines| ==> Spoken(lines[i])
    ensures Spoken(ReportText(t, ranges))
  {
    JoinBegins("READY", [Decimal(l.payload), Decimal(interval)]);
    assert ["READY"] + [Decimal(l.payload), Decimal(interval)] == ["READY", Decimal(l.payload), Decimal(interval)];
    JoinBegins("REUSED", [Decimal(reusedBytes), Decimal(reusedChunks)]);
    assert ["REUSED"] + [Decimal(reusedBytes), Decimal(reusedChunks)]
        == ["REUSED", Decimal(reusedBytes), Decimal(reusedChunks)];
    WordLinesAreSpoken(bitmap, 0);
    ReportBegins(t, ranges);
  }
}
